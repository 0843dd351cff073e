/** What lib/lrucache keeps: key-value pairs with distinct keys, most recently used first. */
module LruSpec {
  import opened Options
  import opened Sequences

  function Take<X>(s: seq<X>, n: nat): seq<X> {
    if |s| <= n then s else s[..n]
  }

  /** Position of a key, or -1. */
  function KeyIndex<K(==), V>(items: seq<(K, V)>, key: K): (i: int)
    ensures -1 <= i < |items|
    ensures i >= 0 ==> items[i].0 == key
    ensures forall j :: 0 <= j < (if i < 0 then |items| else i) ==> items[j].0 != key
  {
    if items == [] then -1
    else if items[0].0 == key then 0
    else
      var i := KeyIndex(items[1..], key);
      if i < 0 then -1 else i + 1
  }

  predicate HasKey<K(==), V>(items: seq<(K, V)>, key: K) {
    KeyIndex(items, key) >= 0
  }

  function Without<K(==), V>(items: seq<(K, V)>, key: K): (r: seq<(K, V)>)
    ensures |items| - 1 <= |r| <= |items|
  {
    var i := KeyIndex(items, key);
    if i < 0 then items else items[..i] + items[i + 1..]
  }

  function ToFront<K(==), V>(items: seq<(K, V)>, key: K, value: V): seq<(K, V)> {
    [(key, value)] + Without(items, key)
  }

  /** `put`: the pair becomes the newest, and beyond the limit the oldest one goes. */
  function Put<K(==), V>(items: seq<(K, V)>, maxSize: nat, key: K, value: V): seq<(K, V)> {
    Take(ToFront(items, key, value), maxSize)
  }

  /** A successful `get`: the pair becomes the newest. */
  function Got<K(==), V>(items: seq<(K, V)>, key: K): seq<(K, V)>
    requires HasKey(items, key)
  {
    ToFront(items, key, items[KeyIndex(items, key)].1)
  }

  ghost predicate DistinctKeys<K, V>(items: seq<(K, V)>) {
    forall i, j :: 0 <= i < j < |items| ==> items[i].0 != items[j].0
  }

  // ---------------------------------------------------------------------------------------
  // Runs of puts and successful gets
  // ---------------------------------------------------------------------------------------

  datatype Use<K, V> = PutUse(key: K, value: V) | GetUse(key: K)

  function Step<K(==), V>(items: seq<(K, V)>, maxSize: nat, use: Use<K, V>): seq<(K, V)>
    requires use.GetUse? ==> HasKey(items, use.key)
  {
    match use
    case PutUse(key, value) => Put(items, maxSize, key, value)
    case GetUse(key) => Got(items, key)
  }

  /** Every get of the run finds its key. */
  predicate Hits<K(==), V>(maxSize: nat, uses: seq<Use<K, V>>)
    decreases |uses|, 0
  {
    uses == [] ||
    (var last := |uses| - 1;
     Hits(maxSize, uses[..last]) && (uses[last].GetUse? ==> HasKey(Run(maxSize, uses[..last]), uses[last].key)))
  }

  function Run<K(==), V>(maxSize: nat, uses: seq<Use<K, V>>): seq<(K, V)>
    requires Hits(maxSize, uses)
    decreases |uses|, 1
  {
    if uses == [] then []
    else Step(Run(maxSize, uses[..|uses| - 1]), maxSize, uses[|uses| - 1])
  }

  /** The number of the last use of a key, counting from 1; 0 if it was never used. */
  function LastUse<K(==), V>(uses: seq<Use<K, V>>, key: K): (n: nat)
    ensures n <= |uses|
  {
    if uses == [] then 0
    else if uses[|uses| - 1].key == key then |uses|
    else LastUse(uses[..|uses| - 1], key)
  }

  /** The value last put under a key. */
  function LastPut<K(==), V>(uses: seq<Use<K, V>>, key: K): Option<V> {
    if uses == [] then None
    else
      var last := uses[|uses| - 1];
      if last.PutUse? && last.key == key then Some(last.value) else LastPut(uses[..|uses| - 1], key)
  }

  /** Newest first, each with the value last put. */
  ghost predicate Recent<K, V>(uses: seq<Use<K, V>>, items: seq<(K, V)>) {
    && (forall i, j :: 0 <= i < j < |items| ==> LastUse(uses, items[i].0) > LastUse(uses, items[j].0))
    && (forall i :: 0 <= i < |items| ==> LastUse(uses, items[i].0) > 0 && Some(items[i].1) == LastPut(uses, items[i].0))
  }

  /** The key was used earlier than every listed one. */
  ghost predicate OlderThanAll<K, V>(uses: seq<Use<K, V>>, items: seq<(K, V)>, k: K) {
    forall i :: 0 <= i < |items| ==> LastUse(uses, items[i].0) > LastUse(uses, k)
  }

  /** The list is exactly the `maxSize` most recently used keys, newest first, each with the value
      last put: keys that were used but are not listed were used earlier than every listed one,
      and are missing only because the list is full. */
  ghost predicate MostRecent<K(!new), V>(maxSize: nat, uses: seq<Use<K, V>>, items: seq<(K, V)>) {
    && |items| <= maxSize
    && Recent(uses, items)
    && (forall k :: LastUse(uses, k) > 0 && !HasKey(items, k) ==> |items| == maxSize && OlderThanAll(uses, items, k))
  }

  lemma OneMoreUse<K, V>(uses: seq<Use<K, V>>, use: Use<K, V>, k: K)
    ensures LastUse(uses + [use], k) == if k == use.key then |uses| + 1 else LastUse(uses, k)
    ensures LastPut(uses + [use], k) == if use.PutUse? && k == use.key then Some(use.value) else LastPut(uses, k)
  {
    assert (uses + [use])[..|uses|] == uses;
  }

  /** Where the i-th pair of the list comes from after a move to the front. */
  function Source<K(==), V>(items: seq<(K, V)>, key: K, i: nat): nat
    requires i > 0
  {
    var at := KeyIndex(items, key);
    if at < 0 || i - 1 < at then i - 1 else i
  }

  lemma FromSource<K, V>(items: seq<(K, V)>, key: K, value: V, i: nat)
    requires 0 < i < |ToFront(items, key, value)|
    ensures Source(items, key, i) < |items| && ToFront(items, key, value)[i] == items[Source(items, key, i)]
  {
    var rest := Without(items, key);
    assert ToFront(items, key, value)[i] == rest[i - 1];
  }

  lemma ToFrontAt<K, V>(items: seq<(K, V)>, key: K, value: V, i: nat)
    requires 0 < i < |ToFront(items, key, value)| && DistinctKeys(items)
    ensures var from := Source(items, key, i);
      from < |items| && ToFront(items, key, value)[i] == items[from] && items[from].0 != key
  {
    FromSource(items, key, value, i);
  }

  /** How recent the i-th pair is after a use has moved its key to the front. */
  lemma AgeInFront<K, V>(uses: seq<Use<K, V>>, use: Use<K, V>, items: seq<(K, V)>, value: V, i: nat)
    requires DistinctKeys(items) && i < |ToFront(items, use.key, value)|
    ensures var k := ToFront(items, use.key, value)[i].0;
      && (i == 0 ==> k == use.key && LastUse(uses + [use], k) == |uses| + 1)
      && (i > 0 ==> (
        && Source(items, use.key, i) < |items|
        && ToFront(items, use.key, value)[i] == items[Source(items, use.key, i)]
        && LastUse(uses + [use], k) == LastUse(uses, k) && LastPut(uses + [use], k) == LastPut(uses, k)))
  {
    OneMoreUse(uses, use, ToFront(items, use.key, value)[i].0);
    if i > 0 { ToFrontAt(items, use.key, value, i); }
  }

  lemma FrontIsRecent<K, V>(uses: seq<Use<K, V>>, use: Use<K, V>, items: seq<(K, V)>, value: V)
    requires Recent(uses, items)
    requires if use.PutUse? then value == use.value
             else HasKey(items, use.key) && value == items[KeyIndex(items, use.key)].1
    ensures Recent(uses + [use], ToFront(items, use.key, value))
  {
    var items' := ToFront(items, use.key, value);
    assert DistinctKeys(items);
    OneMoreUse(uses, use, use.key);
    forall i | 0 <= i < |items'|
      ensures LastUse(uses + [use], items'[i].0) > 0 && Some(items'[i].1) == LastPut(uses + [use], items'[i].0)
    {
      AgeInFront(uses, use, items, value, i);
    }
    forall i, j | 0 <= i < j < |items'|
      ensures LastUse(uses + [use], items'[i].0) > LastUse(uses + [use], items'[j].0)
    {
      AgeInFront(uses, use, items, value, i);
      AgeInFront(uses, use, items, value, j);
      if i > 0 { assert Source(items, use.key, i) < Source(items, use.key, j); }
    }
  }

  lemma KeyIsIn<K, V>(items: seq<(K, V)>, i: nat)
    requires i < |items|
    ensures HasKey(items, items[i].0)
  {
  }

  lemma FrontHasOthers<K, V>(items: seq<(K, V)>, key: K, value: V, k: K)
    requires DistinctKeys(items)
    ensures HasKey(ToFront(items, key, value), k) <==> k == key || HasKey(items, k)
  {
    var items' := ToFront(items, key, value);
    if HasKey(items, k) && k != key {
      var i, at := KeyIndex(items, k), KeyIndex(items, key);
      var i' := if at < 0 || i < at then i + 1 else i;
      FromSource(items, key, value, i');
      assert Source(items, key, i') == i;
      KeyIsIn(items', i');
    } else if k == key {
      KeyIsIn(items', 0);
    } else if HasKey(items', k) {
      FromSource(items, key, value, KeyIndex(items', k));
      KeyIsIn(items, Source(items, key, KeyIndex(items', k)));
    }
  }

  lemma CutIsOlder<K, V>(uses: seq<Use<K, V>>, items: seq<(K, V)>, maxSize: nat, k: K)
    requires Recent(uses, items) && HasKey(items, k) && !HasKey(Take(items, maxSize), k)
    ensures |Take(items, maxSize)| == maxSize && OlderThanAll(uses, Take(items, maxSize), k)
  {
    var i := KeyIndex(items, k);
    if i < |Take(items, maxSize)| {
      KeyIsIn(Take(items, maxSize), i);
      assert false;
    }
  }

  lemma MissingIsOlder<K(!new), V>(
    maxSize: nat, uses: seq<Use<K, V>>, use: Use<K, V>, items: seq<(K, V)>, value: V, k: K)
    requires MostRecent(maxSize, uses, items) && Recent(uses + [use], ToFront(items, use.key, value))
    requires var items' := Take(ToFront(items, use.key, value), maxSize);
      LastUse(uses + [use], k) > 0 && !HasKey(items', k)
    ensures var items' := Take(ToFront(items, use.key, value), maxSize);
      |items'| == maxSize && OlderThanAll(uses + [use], items', k)
  {
    var front := ToFront(items, use.key, value);
    assert DistinctKeys(items);
    FrontHasOthers(items, use.key, value, k);
    if HasKey(front, k) {
      CutIsOlder(uses + [use], front, maxSize, k);
    } else {
      OneMoreUse(uses, use, k);
      assert |items| == maxSize && OlderThanAll(uses, items, k);
      forall i | 0 <= i < |front| ensures LastUse(uses + [use], front[i].0) > LastUse(uses + [use], k) {
        OneMoreUse(uses, use, front[i].0);
        if i > 0 { ToFrontAt(items, use.key, value, i); }
      }
    }
  }

  lemma StepMostRecent<K(!new), V>(maxSize: nat, uses: seq<Use<K, V>>, use: Use<K, V>, items: seq<(K, V)>)
    requires MostRecent(maxSize, uses, items) && (use.GetUse? ==> HasKey(items, use.key))
    ensures MostRecent(maxSize, uses + [use], Step(items, maxSize, use))
  {
    var value := if use.PutUse? then use.value else items[KeyIndex(items, use.key)].1;
    FrontIsRecent(uses, use, items, value);
    var front := ToFront(items, use.key, value);
    assert Step(items, maxSize, use) == Take(front, maxSize);
    forall k | LastUse(uses + [use], k) > 0 && !HasKey(Take(front, maxSize), k)
      ensures |Take(front, maxSize)| == maxSize && OlderThanAll(uses + [use], Take(front, maxSize), k)
    {
      MissingIsOlder(maxSize, uses, use, items, value, k);
    }
  }

  /** The trace theorem: after any run of puts and successful gets. */
  lemma {:induction false} LruTrace<K(!new), V>(maxSize: nat, uses: seq<Use<K, V>>)
    requires Hits(maxSize, uses)
    ensures MostRecent(maxSize, uses, Run(maxSize, uses))
  {
    if uses != [] {
      var last := |uses| - 1;
      LruTrace(maxSize, uses[..last]);
      StepMostRecent(maxSize, uses[..last], uses[last], Run(maxSize, uses[..last]));
      Snoc(uses);
    }
  }

  lemma FrontFits<K, V>(items: seq<(K, V)>, key: K)
    requires HasKey(items, key)
    ensures |Got(items, key)| == |items|
  {
  }

  lemma TakeKeepsIndex<K, V>(items: seq<(K, V)>, n: nat, key: K)
    ensures KeyIndex(Take(items, n), key) == if KeyIndex(items, key) < n then KeyIndex(items, key) else -1
  {
    var i, j := KeyIndex(items, key), KeyIndex(Take(items, n), key);
    assert 0 <= i < n ==> Take(items, n)[i].0 == key;
  }

  lemma TakeCommutesAt<K, V>(items: seq<(K, V)>, n: nat, key: K, value: V, i: nat)
    requires 0 < i < |Put(Take(items, n), n, key, value)| && i < |Take(ToFront(items, key, value), n)|
    ensures Put(Take(items, n), n, key, value)[i] == Take(ToFront(items, key, value), n)[i]
  {
    TakeKeepsIndex(items, n, key);
    FromSource(Take(items, n), key, value, i);
    FromSource(items, key, value, i);
  }

  lemma TakeCommutes<K, V>(items: seq<(K, V)>, n: nat, key: K, value: V)
    ensures Put(Take(items, n), n, key, value) == Take(ToFront(items, key, value), n)
  {
    var a, b := Put(Take(items, n), n, key, value), Take(ToFront(items, key, value), n);
    assert |a| == |b| by {
      TakeKeepsIndex(items, n, key);
    }
    forall i | 0 <= i < |a| ensures a[i] == b[i] {
      if i > 0 {
        TakeCommutesAt(items, n, key, value, i);
      }
    }
  }

  /** Inclusion: a smaller cache that hits throughout always lists a prefix of what a larger one
      lists on the same run, and the larger one hits throughout as well. */
  lemma {:induction false} SmallerIsPrefix<K, V>(small: nat, large: nat, uses: seq<Use<K, V>>)
    requires small <= large && Hits(small, uses)
    ensures Hits(large, uses) && Run(small, uses) == Take(Run(large, uses), small)
  {
    if uses != [] {
      var last := |uses| - 1;
      SmallerIsPrefix(small, large, uses[..last]);
      var items := Run(large, uses[..last]);
      match uses[last]
      case PutUse(key, value) => TakeCommutes(items, small, key, value);
      case GetUse(key) =>
        TakeKeepsIndex(items, small, key);
        TakeCommutes(items, small, key, items[KeyIndex(items, key)].1);
        FrontFits(Take(items, small), key);
    }
  }
}

/** lib/lrucache/lrucache/lrucache.hpp: a list of nodes and a map from keys to list nodes. A node
    stands for its list iterator, which stays valid while other nodes come and go. */
module LruCaches {
  import opened Options
  import opened Sequences
  import opened LruSpec

  class Node<K, V> {
    const key: K
    const value: V

    constructor (key: K, value: V)
      ensures this.key == key && this.value == value
    {
      this.key, this.value := key, value;
    }
  }

  function Pairs<K, V>(list: seq<Node<K, V>>): (r: seq<(K, V)>)
    ensures |r| == |list| && forall i :: 0 <= i < |list| ==> r[i] == (list[i].key, list[i].value)
  {
    seq(|list|, i requires 0 <= i < |list| => (list[i].key, list[i].value))
  }

  ghost function Keys<K, V>(list: seq<Node<K, V>>): set<K> {
    set n | n in list :: n.key
  }

  /** No two nodes share a key (so no node is listed twice). */
  ghost predicate KeysDiffer<K, V>(list: seq<Node<K, V>>) {
    forall i, j :: 0 <= i < j < |list| ==> list[i].key != list[j].key
  }

  /** The map holds exactly the listed keys, each with its own node. */
  ghost predicate Indexed<K, V>(list: seq<Node<K, V>>, index: map<K, Node<K, V>>) {
    && (forall n :: n in list ==> n.key in index && index[n.key] == n)
    && (forall k :: k in index ==> k in Keys(list))
  }

  lemma {:induction false} KeyCount<K, V>(list: seq<Node<K, V>>)
    requires KeysDiffer(list)
    ensures |Keys(list)| == |list|
  {
    if list != [] {
      var last := |list| - 1;
      KeyCount(list[..last]);
      assert Keys(list) == Keys(list[..last]) + {list[last].key} by {
        Snoc(list);
        assert forall n :: n in list <==> n in list[..last] || n == list[last];
      }
      assert list[last].key !in Keys(list[..last]);
    }
  }

  lemma MapSize<K, V>(list: seq<Node<K, V>>, index: map<K, Node<K, V>>)
    requires KeysDiffer(list) && Indexed(list, index)
    ensures |index| == |list|
  {
    KeyCount(list);
    assert index.Keys == Keys(list);
  }

  /** Position of a node in the list, or -1. */
  function Position<K, V>(list: seq<Node<K, V>>, node: Node<K, V>): (i: int)
    ensures -1 <= i < |list|
    ensures i >= 0 ==> list[i] == node
    ensures i < 0 ==> node !in list
  {
    if list == [] then -1
    else if list[0] == node then 0
    else
      var i := Position(list[1..], node);
      if i < 0 then -1 else i + 1
  }

  /** `std::list::erase` of an iterator. */
  function Erased<K, V>(list: seq<Node<K, V>>, node: Node<K, V>): seq<Node<K, V>>
    requires node in list
  {
    var i := Position(list, node);
    list[..i] + list[i + 1..]
  }

  lemma ErasedPairs<K, V>(list: seq<Node<K, V>>, node: Node<K, V>)
    requires node in list && KeysDiffer(list)
    ensures Pairs(Erased(list, node)) == Without(Pairs(list), node.key)
  {
    assert KeyIndex(Pairs(list), node.key) == Position(list, node);
  }

  lemma ErasedKeys<K, V>(list: seq<Node<K, V>>, node: Node<K, V>)
    requires node in list && KeysDiffer(list)
    ensures KeysDiffer(Erased(list, node)) && node.key !in Keys(Erased(list, node))
    ensures Keys(list) == Keys(Erased(list, node)) + {node.key}
    ensures forall n :: n in Erased(list, node) ==> n in list
  {
    var i := Position(list, node);
    var rest := Erased(list, node);
    forall j | 0 <= j < |rest| ensures rest[j] == if j < i then list[j] else list[j + 1] {
      RestAt(list, i, j);
    }
    forall n | n in list ensures n == node || n in rest {
      var j :| 0 <= j < |list| && list[j] == n;
      assert j != i ==> rest[if j < i then j else j - 1] == n;
    }
  }

  class LruCache<K(==), V> {
    var list: seq<Node<K, V>>
    var index: map<K, Node<K, V>>
    const maxSize: nat

    ghost predicate Valid()
      reads this
    {
      KeysDiffer(list) && Indexed(list, index) && |list| <= maxSize
    }

    function Items(): seq<(K, V)>
      reads this
    {
      Pairs(list)
    }

    constructor (maxSize: nat)
      ensures Valid() && Items() == [] && this.maxSize == maxSize
    {
      this.maxSize, list, index := maxSize, [], map[];
    }

    /** Between the insertion at the front and the erasure of the old node two nodes may share
        the key; with a limit of 0 the new node is dropped again at once. */
    method Put(key: K, value: V)
      requires Valid()
      modifies this
      ensures Valid() && Items() == LruSpec.Put(old(Items()), maxSize, key, value)
    {
      var it := if key in index then Some(index[key]) else None;
      var node := new Node(key, value);
      ghost var before, items := list, Items();
      ghost var fronted := PutAtFront(before, index, key, node);
      list := [node] + list;
      if it.Some? {
        ErasedBehind(node, before, it.value);
        list := Erased(list, it.value);
        index := index - {key};
      }
      index := index[key := list[0]];
      assert list == fronted;
      Trim();
    }

    /** Drops the oldest pair when there is one too many. */
    method Trim()
      requires KeysDiffer(list) && Indexed(list, index) && |list| <= maxSize + 1
      modifies this
      ensures Valid() && Items() == Take(old(Items()), maxSize)
    {
      MapSize(list, index);
      if |index| > maxSize {
        WithoutLast(list, index);
        var last := |list| - 1;
        index := index - {list[last].key};
        list := list[..last];
      }
    }

    static lemma WithoutLast(list: seq<Node<K, V>>, index: map<K, Node<K, V>>)
      requires KeysDiffer(list) && Indexed(list, index) && list != []
      ensures var last := |list| - 1;
        && KeysDiffer(list[..last]) && Indexed(list[..last], index - {list[last].key})
        && Pairs(list[..last]) == Pairs(list)[..last]
    {
      var last := |list| - 1;
      Snoc(list);
      assert forall n :: n in list <==> n in list[..last] || n == list[last];
      forall n | n in list[..last] ensures n.key != list[last].key {
        var i :| 0 <= i < last && list[..last][i] == n;
        assert list[i] == n;
      }
    }

    static lemma ErasedBehind(node: Node<K, V>, before: seq<Node<K, V>>, stale: Node<K, V>)
      requires stale in before && node !in before
      ensures Erased([node] + before, stale) == [node] + Erased(before, stale)
    {
      assert ([node] + before)[1..] == before;
      assert Position([node] + before, stale) == Position(before, stale) + 1;
    }

    /** A node put in front of the others, whose keys differ from its own. */
    static lemma Fronted(node: Node<K, V>, rest: seq<Node<K, V>>, index: map<K, Node<K, V>>)
      requires KeysDiffer(rest) && node.key !in Keys(rest)
      requires forall n :: n in rest ==> n.key in index && index[n.key] == n
      requires forall k :: k in index ==> k == node.key || k in Keys(rest)
      ensures KeysDiffer([node] + rest) && Indexed([node] + rest, index[node.key := node])
      ensures Pairs([node] + rest) == [(node.key, node.value)] + Pairs(rest)
    {
      var list := [node] + rest;
      assert Keys(list) == {node.key} + Keys(rest) by {
        assert forall n :: n in list <==> n == node || n in rest;
      }
      assert forall i :: 0 < i < |list| ==> list[i] == rest[i - 1] && list[i] in rest;
    }

    /** The list after a put, before trimming. */
    static lemma PutAtFront(before: seq<Node<K, V>>, index: map<K, Node<K, V>>, key: K, node: Node<K, V>)
      returns (list: seq<Node<K, V>>)
      requires KeysDiffer(before) && Indexed(before, index) && node.key == key
      ensures key in index ==> index[key] in before && index[key].key == key
      ensures list == [node] + if key in index then Erased(before, index[key]) else before
      ensures KeysDiffer(list) && Indexed(list, (index - {key})[key := node])
      ensures Pairs(list) == ToFront(Pairs(before), key, node.value)
      ensures |list| == |before| + if key in index then 0 else 1
    {
      MapHasKey(before, index, key);
      if key in index {
        ErasedPairs(before, index[key]);
        ErasedKeys(before, index[key]);
        Fronted(node, Erased(before, index[key]), index - {key});
        list := [node] + Erased(before, index[key]);
      } else {
        assert key !in Keys(before);
        Fronted(node, before, index - {key});
        list := [node] + before;
      }
    }

    static lemma GotAtFront(before: seq<Node<K, V>>, index: map<K, Node<K, V>>, key: K, it: Node<K, V>)
      requires KeysDiffer(before) && Indexed(before, index) && key in index && it == index[key]
      ensures it in before && it.key == key && HasKey(Pairs(before), key)
      ensures KeysDiffer([it] + Erased(before, it)) && Indexed([it] + Erased(before, it), index)
      ensures |Erased(before, it)| == |before| - 1
      ensures Pairs([it] + Erased(before, it)) == Got(Pairs(before), key)
    {
      assert it.key == key by { MapHasKey(before, index, key); }
      var list := PutAtFront(before, index, key, it);
      assert (index - {key})[key := it] == index;
      MapHasKey(before, index, key);
    }

    /** `None` stands for the exception thrown when the key is absent. */
    method Get(key: K) returns (r: Option<V>)
      requires Valid()
      modifies this
      ensures Valid() && (r.Some? <==> HasKey(old(Items()), key))
      ensures r.Some? ==> r.value == old(Items())[KeyIndex(old(Items()), key)].1
      ensures Items() == if r.Some? then Got(old(Items()), key) else old(Items())
    {
      MapHasKey(list, index, key);
      if key !in index { return None; }
      var it := index[key];
      GotAtFront(list, index, key, it);
      list := [it] + Erased(list, it);
      return Some(it.value);
    }

    static lemma MapHasKey(list: seq<Node<K, V>>, index: map<K, Node<K, V>>, key: K)
      requires KeysDiffer(list) && Indexed(list, index)
      ensures key in index <==> HasKey(Pairs(list), key)
      ensures key in index ==>
        && Pairs(list)[KeyIndex(Pairs(list), key)] == (key, index[key].value)
        && index[key] in list && index[key].key == key
    {
      if key in index {
        var n :| n in list && n.key == key;
        var i :| 0 <= i < |list| && list[i] == n;
        KeyIsIn(Pairs(list), i);
        assert list[KeyIndex(Pairs(list), key)].key == key;
      } else {
        assert forall i :: 0 <= i < |list| ==> list[i] in list;
      }
    }

    method Exists(key: K) returns (found: bool)
      requires Valid()
      ensures found <==> HasKey(Items(), key)
    {
      MapHasKey(list, index, key);
      found := key in index;
    }

    method Size() returns (n: nat)
      requires Valid()
      ensures n == |Items()| <= maxSize
    {
      MapSize(list, index);
      n := |index|;
    }
  }
}

/** src/common/ChatterSet.cpp: recent chatters, under their lower-case names. */
module ChatterSets {
  import opened LruSpec
  import opened LruCaches

  /** Lower-casing maps characters one by one with an arbitrary function. */
  function Lower(lower: char -> char, s: string): (r: string)
    ensures |r| == |s| && forall i :: 0 <= i < |s| ==> r[i] == lower(s[i])
  {
    seq(|s|, i requires 0 <= i < |s| => lower(s[i]))
  }

  /** Every key is the lower-case form of its name. */
  ghost predicate Cased(lower: char -> char, items: seq<(string, string)>) {
    forall i :: 0 <= i < |items| ==> items[i].0 == Lower(lower, items[i].1)
  }

  /** The names by key, without their order. */
  ghost function AsMap(items: seq<(string, string)>): map<string, string> {
    if items == [] then map[] else AsMap(items[1..])[items[0].0 := items[0].1]
  }

  lemma {:induction false} MapLookup(items: seq<(string, string)>, k: string)
    ensures k in AsMap(items) <==> HasKey(items, k)
    ensures HasKey(items, k) ==> AsMap(items)[k] == items[KeyIndex(items, k)].1
  {
    if items != [] {
      MapLookup(items[1..], k);
    }
  }

  lemma {:induction false} MapHasSize(items: seq<(string, string)>)
    requires DistinctKeys(items)
    ensures |AsMap(items)| == |items|
  {
    if items != [] {
      MapHasSize(items[1..]);
      MapLookup(items[1..], items[0].0);
      var rest := AsMap(items[1..]);
      assert rest[items[0].0 := items[0].1].Keys == rest.Keys + {items[0].0};
    }
  }

  lemma FrontLookup(items: seq<(string, string)>, key: string, value: string, k: string)
    requires DistinctKeys(items)
    ensures var front := ToFront(items, key, value);
      && (HasKey(front, k) <==> k == key || HasKey(items, k))
      && (k == key ==> front[KeyIndex(front, k)].1 == value)
      && (k != key && HasKey(items, k) ==> front[KeyIndex(front, k)].1 == items[KeyIndex(items, k)].1)
  {
    var front := ToFront(items, key, value);
    FrontHasOthers(items, key, value, k);
    if k != key && HasKey(items, k) {
      var i := KeyIndex(front, k);
      FromSource(items, key, value, i);
      assert items[Source(items, key, i)].0 == items[KeyIndex(items, k)].0;
    }
  }

  lemma FrontAsMap(items: seq<(string, string)>, key: string, value: string)
    requires DistinctKeys(items)
    ensures AsMap(ToFront(items, key, value)) == AsMap(items)[key := value]
  {
    var front, m := AsMap(ToFront(items, key, value)), AsMap(items)[key := value];
    forall k ensures (k in front <==> k in m) && (k in m ==> front[k] == m[k]) {
      MapLookup(ToFront(items, key, value), k);
      MapLookup(items, k);
      FrontLookup(items, key, value, k);
    }
  }

  /** A put that evicts nothing, and a get, as changes to the map. */
  lemma PutAsMap(items: seq<(string, string)>, maxSize: nat, key: string, value: string)
    requires DistinctKeys(items) && |items| < maxSize
    ensures AsMap(Put(items, maxSize, key, value)) == AsMap(items)[key := value]
  {
    FrontAsMap(items, key, value);
  }

  lemma GotAsMap(items: seq<(string, string)>, key: string)
    requires DistinctKeys(items) && HasKey(items, key)
    ensures AsMap(Got(items, key)) == AsMap(items)
    ensures key in AsMap(items) && AsMap(items)[key] == items[KeyIndex(items, key)].1
  {
    FrontAsMap(items, key, items[KeyIndex(items, key)].1);
    MapLookup(items, key);
  }

  ghost predicate CasedMap(lower: char -> char, m: map<string, string>) {
    forall k :: k in m ==> k == Lower(lower, m[k])
  }

  lemma CasedAsMap(lower: char -> char, items: seq<(string, string)>)
    requires DistinctKeys(items)
    ensures Cased(lower, items) <==> CasedMap(lower, AsMap(items))
  {
    forall i | 0 <= i < |items| ensures items[i].0 in AsMap(items) && AsMap(items)[items[i].0] == items[i].1 {
      KeyIsIn(items, i);
      MapLookup(items, items[i].0);
      assert items[KeyIndex(items, items[i].0)].0 == items[i].0;
    }
    if Cased(lower, items) {
      forall k | k in AsMap(items) ensures k == Lower(lower, AsMap(items)[k]) {
        MapLookup(items, k);
        assert items[KeyIndex(items, k)].0 == k;
      }
    }
    if CasedMap(lower, AsMap(items)) {
      forall i | 0 <= i < |items| ensures items[i].0 == Lower(lower, items[i].1) {
        assert items[i].0 in AsMap(items);
      }
    }
  }

  lemma PutKeepsCased(lower: char -> char, items: seq<(string, string)>, maxSize: nat, userName: string)
    requires Cased(lower, items) && DistinctKeys(items)
    ensures Cased(lower, Put(items, maxSize, Lower(lower, userName), userName))
  {
    var front := ToFront(items, Lower(lower, userName), userName);
    forall i | 0 <= i < |front| ensures front[i].0 == Lower(lower, front[i].1) {
      if i > 0 { FromSource(items, Lower(lower, userName), userName, i); }
    }
  }

  /** The names whose lower-case form starts with the prefix, in recency order. */
  function Matching(items: seq<(string, string)>, prefix: string): seq<string> {
    if items == [] then []
    else (if prefix <= items[0].0 then [items[0].1] else []) + Matching(items[1..], prefix)
  }

  lemma {:induction false} MatchingConcat(a: seq<(string, string)>, b: seq<(string, string)>, prefix: string)
    ensures Matching(a + b, prefix) == Matching(a, prefix) + Matching(b, prefix)
  {
    if a == [] {
      assert a + b == b;
    } else {
      assert (a + b)[1..] == a[1..] + b;
      MatchingConcat(a[1..], b, prefix);
    }
  }

  /** Prefix search loses and invents nothing: a name is found exactly if it is stored and its own
      lower-case form starts with the lower-cased prefix. */
  lemma {:induction false} MatchingIsExact(
    lower: char -> char, items: seq<(string, string)>, prefix: string, name: string)
    requires Cased(lower, items)
    ensures name in Matching(items, Lower(lower, prefix)) <==>
      (exists i :: 0 <= i < |items| && items[i].1 == name) && Lower(lower, prefix) <= Lower(lower, name)
  {
    if items != [] {
      MatchingIsExact(lower, items[1..], prefix, name);
      var p := Lower(lower, prefix);
      assert name in Matching(items, p) <==> (p <= items[0].0 && items[0].1 == name) || name in Matching(items[1..], p);
      if i :| 0 <= i < |items| && items[i].1 == name {
        assert i > 0 ==> items[1..][i - 1].1 == name;
      }
      if i :| 0 <= i < |items[1..]| && items[1..][i].1 == name {
        assert items[i + 1].1 == name;
      }
    }
  }

  class ChatterSet {
    const limit: nat := 2000
    const lower: char -> char
    var items: LruCache<string, string>

    ghost predicate Valid()
      reads this, items
    {
      items.Valid() && items.maxSize == limit
    }

    function Stored(): seq<(string, string)>
      reads this, items
    {
      items.Items()
    }

    constructor (lower: char -> char)
      ensures Valid() && Stored() == [] && this.lower == lower && fresh(items)
    {
      this.lower := lower;
      items := new LruCache(2000);
    }

    method AddRecentChatter(userName: string)
      requires Valid()
      modifies items
      ensures Valid() && Stored() == Put(old(Stored()), limit, Lower(lower, userName), userName)
      ensures Cased(lower, old(Stored())) ==> Cased(lower, Stored())
    {
      if Cased(lower, Stored()) {
        PutKeepsCased(lower, Stored(), limit, userName);
      }
      items.Put(Lower(lower, userName), userName);
    }

    /** Who is kept: everybody online when that is fewer than the limit, otherwise those of the
        online users who are already known. Known users keep their casing. Nobody is evicted. */
    ghost function Updated(known: map<string, string>, online: set<string>): map<string, string> {
      map k | k in (if |online| < limit then online else online * known.Keys) :: if k in known then known[k] else k
    }

    /** With the limit of 2000 spelt out, who is kept and under which casing. */
    lemma KeptExactlyWhen(known: map<string, string>, online: set<string>, k: string)
      ensures k in Updated(known, online) <==> k in online && (k in known || |online| < 2000)
      ensures k in Updated(known, online) ==> Updated(known, online)[k] == if k in known then known[k] else k
    {
    }

    /** The users come in no particular order. */
    method UpdateOnlineChatters(online: set<string>)
      requires Valid()
      modifies this, items
      ensures Valid() && AsMap(Stored()) == Updated(old(AsMap(Stored())), online)
      ensures |Stored()| == |Updated(old(AsMap(Stored())), online)|
      ensures Cased(lower, old(Stored())) && (forall k :: k in online ==> Lower(lower, k) == k)
        ==> Cased(lower, Stored())
    {
      ghost var before := Stored();
      ghost var wanted := Updated(AsMap(before), online);
      SizeOfUpdate(before, online);
      var tmp := new LruCache<string, string>(limit);
      CarryAll(tmp, online, wanted);
      items := tmp;
      MapHasSize(Stored());
      if Cased(lower, before) && (forall k :: k in online ==> Lower(lower, k) == k) {
        CasedAsMap(lower, before);
        assert CasedMap(lower, wanted);
        CasedAsMap(lower, Stored());
      }
    }

    method CarryAll(tmp: LruCache<string, string>, online: set<string>, ghost wanted: map<string, string>)
      requires items.Valid() && tmp.Valid() && tmp != items && tmp.Items() == [] && tmp.maxSize == limit
      requires |wanted| <= limit && wanted.Keys <= online
      requires forall k :: k in online ==> (k in wanted <==> k in AsMap(Stored()) || |online| < limit)
      requires forall k :: k in wanted ==> wanted[k] == if k in AsMap(Stored()) then AsMap(Stored())[k] else k
      modifies items, tmp
      ensures tmp.Valid() && AsMap(tmp.Items()) == wanted
    {
      ghost var known := AsMap(Stored());
      var rest := online;
      assert wanted - rest == map[];
      while rest != {}
        invariant tmp.Valid() && items.Valid()
        invariant rest <= online && AsMap(Stored()) == known
        invariant AsMap(tmp.Items()) == wanted - rest
        decreases rest
      {
        var chatter :| chatter in rest;
        OneMoreWanted(wanted, rest, chatter);
        if chatter in wanted {
          RoomForAnother(tmp.Items(), wanted, chatter);
        }
        CarryOver(tmp, chatter, |online| < limit);
        rest := rest - {chatter};
      }
      assert wanted - rest == wanted;
    }

    static lemma OneMoreWanted(wanted: map<string, string>, rest: set<string>, chatter: string)
      requires chatter in rest
      ensures wanted - (rest - {chatter}) ==
        if chatter in wanted then (wanted - rest)[chatter := wanted[chatter]] else wanted - rest
    {
      var a := wanted - (rest - {chatter});
      var b := if chatter in wanted then (wanted - rest)[chatter := wanted[chatter]] else wanted - rest;
      assert forall k :: k in a <==> k in b;
    }

    /** One online user: known ones are carried over with their casing, others are added if there
        are few users. */
    method CarryOver(tmp: LruCache<string, string>, chatter: string, few: bool)
      requires items.Valid() && tmp.Valid() && tmp != items
      requires few || chatter in AsMap(Stored()) ==> |tmp.Items()| < tmp.maxSize
      modifies items, tmp
      ensures items.Valid() && tmp.Valid() && AsMap(Stored()) == old(AsMap(Stored()))
      ensures AsMap(tmp.Items()) ==
        if chatter in old(AsMap(Stored())) then old(AsMap(tmp.Items()))[chatter := old(AsMap(Stored()))[chatter]]
        else if few then old(AsMap(tmp.Items()))[chatter := chatter]
        else old(AsMap(tmp.Items()))
    {
      MapLookup(Stored(), chatter);
      var isKnown := items.Exists(chatter);
      if isKnown {
        GotAsMap(Stored(), chatter);
        var name := items.Get(chatter);
        PutAsMap(tmp.Items(), tmp.maxSize, chatter, name.value);
        tmp.Put(chatter, name.value);
      } else if few {
        PutAsMap(tmp.Items(), tmp.maxSize, chatter, chatter);
        tmp.Put(chatter, chatter);
      }
    }

    lemma SizeOfUpdate(stored: seq<(string, string)>, online: set<string>)
      requires DistinctKeys(stored) && |stored| <= limit
      ensures |Updated(AsMap(stored), online)| <= limit
    {
      MapHasSize(stored);
      var known := AsMap(stored);
      assert Updated(known, online).Keys == if |online| < limit then online else online * known.Keys;
      Smaller(online * known.Keys, known.Keys);
    }

    static lemma {:induction false} Smaller(a: set<string>, b: set<string>)
      requires a <= b
      ensures |a| <= |b| && (a != b ==> |a| < |b|)
      decreases b
    {
      if x :| x in b {
        Smaller(a - {x}, b - {x});
        assert |b - {x}| == |b| - 1;
        if x in a {
          assert |a - {x}| == |a| - 1;
          assert a != b ==> a - {x} != b - {x} by {
            if a - {x} == b - {x} { assert a == (a - {x}) + {x} == (b - {x}) + {x} == b; }
          }
        } else {
          assert a - {x} == a;
        }
      }
    }

    /** The new cache is still smaller than what is wanted as long as somebody is missing. */
    lemma RoomForAnother(items: seq<(string, string)>, wanted: map<string, string>, chatter: string)
      requires DistinctKeys(items) && |wanted| <= limit
      requires AsMap(items).Keys <= wanted.Keys - {chatter} && chatter in wanted
      ensures |items| < limit
    {
      MapHasSize(items);
      Smaller(AsMap(items).Keys, wanted.Keys);
    }

    method Contains(userName: string) returns (found: bool)
      requires Valid()
      ensures found <==> HasKey(Stored(), Lower(lower, userName))
    {
      found := items.Exists(Lower(lower, userName));
    }

    method FilterByPrefix(prefix: string) returns (result: seq<string>)
      requires Valid()
      ensures result == Matching(Stored(), Lower(lower, prefix))
    {
      var lowerPrefix := Lower(lower, prefix);
      result := [];
      var all := items.Items();
      for i := 0 to |all|
        invariant result == Matching(all[..i], lowerPrefix)
      {
        assert all[..i + 1] == all[..i] + [all[i]];
        MatchingConcat(all[..i], [all[i]], lowerPrefix);
        assert Matching([all[i]], lowerPrefix) == if lowerPrefix <= all[i].0 then [all[i].1] else [];
        if lowerPrefix <= all[i].0 {
          result := result + [all[i].1];
        }
      }
      assert all[..|all|] == all;
    }
  }
}
