/** The optional value used where the C++ code has `boost::optional` or a nullable pointer. */
module Options {
  datatype Option<+T> = None | Some(value: T)
}

/** Facts about slices of sequences. */
module Sequences {
  /** No element occurs twice. */
  ghost predicate Distinct<T>(s: seq<T>) {
    forall i, j :: 0 <= i < j < |s| ==> s[i] != s[j]
  }

  lemma ConcatTail<T>(s: seq<T>, t: seq<T>)
    requires s != []
    ensures (s + t)[0] == s[0] && (s + t)[1..] == s[1..] + t
  {
  }

  lemma ConcatAssociates<T>(a: seq<T>, b: seq<T>, c: seq<T>)
    ensures a + (b + c) == (a + b) + c
  {
  }

  lemma InsertedMembers<T>(s: seq<T>, pos: nat, x: T)
    requires pos <= |s|
    ensures forall y :: y in s[..pos] + [x] + s[pos..] <==> y in s || y == x
  {
    assert s == s[..pos] + s[pos..];
  }

  lemma SnocCounts<T>(s: seq<T>, x: T)
    ensures multiset(s + [x]) == multiset(s) + multiset{x}
  {
  }

  lemma InsertCounts<T>(s: seq<T>, pos: nat, x: T)
    requires pos <= |s|
    ensures multiset(s[..pos] + [x] + s[pos..]) == multiset(s) + multiset{x}
  {
    assert s == s[..pos] + s[pos..];
  }

  lemma SnocParts<T>(s: seq<T>, x: T)
    ensures (s + [x])[..|s|] == s && (s + [x])[|s|] == x
  {
  }

  lemma Snoc<T>(s: seq<T>)
    requires s != []
    ensures s == s[..|s| - 1] + [s[|s| - 1]]
  {
  }

  lemma Split<T>(s: seq<T>, m: nat)
    requires m < |s|
    ensures s == s[..m] + [s[m]] + s[m + 1..]
  {
  }

  lemma Updated<T>(s: seq<T>, i: nat, x: T)
    requires i < |s|
    ensures s[i := x] == s[..i] + [x] + s[i + 1..]
  {
  }

  lemma RestAt<T>(s: seq<T>, i: nat, j: nat)
    requires i < |s| && j < |s| - 1
    ensures (s[..i] + s[i + 1..])[j] == if j < i then s[j] else s[j + 1]
  {
  }

  lemma FrontOfTail<T>(s: seq<T>, m: nat)
    requires 0 < m <= |s|
    ensures s[..m] == [s[0]] + s[1..][..m - 1]
  {
  }

  lemma InsertedAtIndex<T>(s: seq<T>, pos: nat, x: T, i: nat)
    requires pos <= |s| && i <= |s|
    ensures (s[..pos] + [x] + s[pos..])[i] == if i < pos then s[i] else if i == pos then x else s[i - 1]
  {
  }

  lemma Halves<T>(s: seq<T>, m: nat)
    requires m <= |s|
    ensures s[..m] + s[m..] == s
  {
  }

  lemma PrependedSlice<T>(s: seq<T>, b: nat, t: seq<T>)
    requires b < |s|
    ensures [s[b]] + (s[b + 1..] + t) == s[b..] + t
  {
  }

  lemma AppendedSlice<T>(s: seq<T>, from: nat, to: nat)
    requires from <= to < |s|
    ensures s[from..to] + [s[to]] == s[from..to + 1]
  {
  }

  lemma InsertBehind<T>(front: seq<T>, back: seq<T>, q: nat, x: T)
    requires q <= |back|
    ensures (front + back)[..|front| + q] + [x] + (front + back)[|front| + q..]
         == front + (back[..q] + [x] + back[q..])
  {
  }

  lemma InsertAhead<T>(front: seq<T>, back: seq<T>, pos: nat, x: T)
    requires pos <= |front|
    ensures (front + back)[..pos] + [x] + (front + back)[pos..] == (front[..pos] + [x] + front[pos..]) + back
  {
  }

  lemma InsertFirst<T>(s: seq<T>, x: T)
    ensures s[..0] + [x] + s[0..] == [x] + s
  {
  }

  lemma FirstApart<T>(s: seq<T>, q: nat, x: T)
    requires 0 < q <= |s|
    ensures s[..q] + [x] + s[q..] == [s[0]] + (s[1..q] + [x] + s[q..])
  {
  }
}
