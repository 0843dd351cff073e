/** What the queue operations mean for the sequence of queued items, oldest first. */
module QueueSpec {
  import opened Sequences

  function Min(a: nat, b: nat): nat {
    if a < b then a else b
  }

  /** The last `n` items of a sequence, or all of them when there are fewer. */
  function LastN<T>(s: seq<T>, n: nat): seq<T> {
    s[|s| - Min(|s|, n)..]
  }

  /** Index of the first occurrence of `needle`, or -1. */
  function IndexOf<T(==)>(s: seq<T>, needle: T): (i: int)
    ensures -1 <= i < |s|
    ensures i >= 0 ==> s[i] == needle && forall j :: 0 <= j < i ==> s[j] != needle
    ensures i < 0 ==> needle !in s
  {
    if s == [] then -1
    else if s[0] == needle then 0
    else
      var j := IndexOf(s[1..], needle);
      if j < 0 then -1 else j + 1
  }

  /** `boost::circular_buffer::insert`: inserting into a full buffer drops the first item,
      except that inserting at the very beginning of a full buffer does nothing. */
  function InsertedAt<T>(s: seq<T>, capacity: nat, pos: nat, item: T): (r: seq<T>)
    requires pos <= |s| <= capacity
    ensures |r| <= capacity
  {
    if |s| < capacity then s[..pos] + [item] + s[pos..]
    else if pos == 0 then s
    else s[1..pos] + [item] + s[pos..]
  }

  function PushedBack<T>(s: seq<T>, capacity: nat, item: T): (r: seq<T>)
    requires |s| <= capacity
    ensures |r| <= capacity
  {
    LastN(s + [item], capacity)
  }

  function PushedFront<T>(s: seq<T>, capacity: nat, items: seq<T>): (r: seq<T>)
    requires |s| <= capacity
    ensures |r| <= capacity
  {
    LastN(items, capacity - |s|) + s
  }

  function InsertedBefore<T(==)>(s: seq<T>, capacity: nat, needle: T, item: T): (r: seq<T>)
    requires |s| <= capacity
    ensures |r| <= capacity
  {
    var i := IndexOf(s, needle);
    if i < 0 then s else InsertedAt(s, capacity, i, item)
  }

  function InsertedAfter<T(==)>(s: seq<T>, capacity: nat, needle: T, item: T): (r: seq<T>)
    requires |s| <= capacity
    ensures |r| <= capacity
  {
    var i := IndexOf(s, needle);
    if i < 0 then s else InsertedAt(s, capacity, i + 1, item)
  }

  function Replaced<T(==)>(s: seq<T>, needle: T, replacement: T): (r: seq<T>)
    ensures |r| == |s|
  {
    var i := IndexOf(s, needle);
    if i < 0 then s else s[i := replacement]
  }

  /** The state after appending a whole list of items one by one. */
  function PushedBackAll<T>(s: seq<T>, capacity: nat, items: seq<T>): (r: seq<T>)
    requires |s| <= capacity
    ensures |r| <= capacity
    decreases |items|
  {
    if items == [] then s
    else PushedBackAll(PushedBack(s, capacity, items[0]), capacity, items[1..])
  }

  /** However many items are appended, the queue holds exactly the newest ones, in order. */
  lemma {:induction false} AppendsKeepTheNewest<T>(s: seq<T>, capacity: nat, items: seq<T>)
    requires |s| <= capacity
    ensures PushedBackAll(s, capacity, items) == LastN(s + items, capacity)
    decreases |items|
  {
    if items == [] {
      assert s + items == s;
    } else {
      var s' := PushedBack(s, capacity, items[0]);
      AppendsKeepTheNewest(s', capacity, items[1..]);
      assert s + items == s + [items[0]] + items[1..];
    }
  }

  /** History pushed to the front never evicts anything, and what it added together with what
      was there before is the newest part of the whole history. */
  lemma PushFrontKeepsEverything<T>(s: seq<T>, capacity: nat, items: seq<T>)
    requires |s| <= capacity
    ensures var r := PushedFront(s, capacity, items);
      r == LastN(items + s, capacity) && r[|r| - |s|..] == s
  {
    var n := Min(|items|, capacity - |s|);
    assert (items + s)[|items| - n..] == items[|items| - n..] + s;
  }

  /** Filling from the front and then appending is the same as never having been bounded:
      the queue is the newest `capacity` items of history, contents and appended items. */
  lemma FrontThenBack<T>(s: seq<T>, capacity: nat, older: seq<T>, newer: seq<T>)
    requires |s| <= capacity
    ensures PushedBackAll(PushedFront(s, capacity, older), capacity, newer)
         == LastN(older + s + newer, capacity)
  {
    PushFrontKeepsEverything(s, capacity, older);
    AppendsKeepTheNewest(PushedFront(s, capacity, older), capacity, newer);
    var whole := older + s;
    var n := Min(|whole|, capacity);
    assert whole[|whole| - n..] + newer == (whole + newer)[|whole| - n..];
  }

  /** `insertBefore` does insert, except at the very beginning of a full queue. Its return value
      is nevertheless true whenever the needle is queued. */
  lemma {:induction false} InsertBeforeExactlyWhen<T>(s: seq<T>, capacity: nat, needle: T, item: T)
    requires |s| <= capacity && needle in s && item !in s
    ensures item in InsertedBefore(s, capacity, needle, item) <==> !(|s| == capacity && s[0] == needle)
    ensures |s| == capacity && s[0] == needle ==> InsertedBefore(s, capacity, needle, item) == s
  {
    var i := IndexOf(s, needle);
    if |s| < capacity {
      assert InsertedBefore(s, capacity, needle, item)[i] == item;
    } else if i > 0 {
      assert InsertedBefore(s, capacity, needle, item)[i - 1] == item;
    }
  }

  lemma {:induction false} FullQueueRefusesInsertBefore()
    ensures 1 in [1, 2] && InsertedBefore([1, 2], 2, 1, 7) == [1, 2]
  {
    InsertBeforeExactlyWhen([1, 2], 2, 1, 7);
  }

  /** `insertAfter` has no such exception. */
  lemma {:induction false} InsertAfterInserts<T>(s: seq<T>, capacity: nat, needle: T, item: T)
    requires |s| <= capacity && needle in s
    ensures item in InsertedAfter(s, capacity, needle, item)
  {
    var i := IndexOf(s, needle);
    assert InsertedAfter(s, capacity, needle, item)[if |s| < capacity then i + 1 else i] == item;
  }

  // ---- the same operation on a queue with room, which still holds the items lost here ----

  /** A queue of limit `small` holds `kept`, the newest part of `s`; older items are lost only
      when it is full. */
  predicate NewestPart<T(==)>(s: seq<T>, older: seq<T>, kept: seq<T>, small: nat) {
    s == older + kept && |kept| <= small && (older != [] ==> |kept| == small)
  }

  lemma InsertAmongKept<T>(
    s: seq<T>, older: seq<T>, kept: seq<T>, small: nat, large: nat, pos: nat, q: nat, item: T)
    returns (older': seq<T>)
    requires NewestPart(s, older, kept, small) && |s| < large && q <= |kept| && pos == |older| + q
    ensures NewestPart(InsertedAt(s, large, pos, item), older', InsertedAt(kept, small, q, item), small)
  {
    InsertBehind(older, kept, q, item);
    if |kept| < small {
      older' := older;
    } else {
      var first := FullInsertDropsOne(kept, q, item);
      older' := older + [first];
      ConcatAssociates(older, [first], InsertedAt(kept, small, q, item));
    }
  }

  lemma FullInsertDropsOne<T>(kept: seq<T>, q: nat, item: T) returns (first: T)
    requires q <= |kept|
    ensures kept[..q] + [item] + kept[q..] == [first] + InsertedAt(kept, |kept|, q, item)
  {
    if q == 0 {
      first := item;
      InsertFirst(kept, item);
    } else {
      first := kept[0];
      FirstApart(kept, q, item);
    }
  }

  lemma InsertAmongOlder<T>(s: seq<T>, older: seq<T>, kept: seq<T>, small: nat, large: nat, pos: nat, item: T)
    returns (older': seq<T>)
    requires NewestPart(s, older, kept, small) && |s| < large && pos <= |older| && older != []
    ensures NewestPart(InsertedAt(s, large, pos, item), older', kept, small)
  {
    older' := older[..pos] + [item] + older[pos..];
    InsertAhead(older, kept, pos, item);
  }

  lemma FirstIndex<T>(s: seq<T>, needle: T, i: nat)
    requires i < |s| && s[i] == needle && forall j :: 0 <= j < i ==> s[j] != needle
    ensures IndexOf(s, needle) == i
  {
    var k := IndexOf(s, needle);
  }

  lemma {:induction false} IndexInParts<T>(s: seq<T>, older: seq<T>, kept: seq<T>, needle: T)
    requires s == older + kept && (needle in kept ==> needle !in older)
    ensures var k, i := IndexOf(kept, needle), IndexOf(s, needle);
      if k >= 0 then i == |older| + k else i < |older|
  {
    var k, i := IndexOf(kept, needle), IndexOf(s, needle);
    if k >= 0 {
      assert forall j :: 0 <= j < |older| ==> s[j] == older[j];
      FirstIndex(s, needle, |older| + k);
    } else {
      assert forall j :: 0 <= j < |kept| ==> s[|older| + j] == kept[j];
    }
  }

  lemma InsertBeforeParts<T>(s: seq<T>, older: seq<T>, kept: seq<T>, small: nat, large: nat, needle: T, item: T)
    returns (older': seq<T>)
    requires NewestPart(s, older, kept, small) && |s| < large && (needle in kept ==> needle !in older)
    ensures NewestPart(InsertedBefore(s, large, needle, item), older', InsertedBefore(kept, small, needle, item), small)
  {
    var i, k := IndexOf(s, needle), IndexOf(kept, needle);
    IndexInParts(s, older, kept, needle);
    older' := older;
    if k >= 0 {
      older' := InsertAmongKept(s, older, kept, small, large, i, k, item);
    } else if i >= 0 {
      older' := InsertAmongOlder(s, older, kept, small, large, i, item);
    }
  }

  lemma AfterIsAt<T>(s: seq<T>, capacity: nat, needle: T, item: T)
    requires |s| <= capacity && needle in s
    ensures InsertedAfter(s, capacity, needle, item) == InsertedAt(s, capacity, IndexOf(s, needle) + 1, item)
  {
  }

  lemma InsertAfterKept<T>(s: seq<T>, older: seq<T>, kept: seq<T>, small: nat, large: nat, needle: T, item: T)
    returns (older': seq<T>)
    requires NewestPart(s, older, kept, small) && |s| < large && needle in kept && needle !in older
    ensures NewestPart(InsertedAfter(s, large, needle, item), older', InsertedAfter(kept, small, needle, item), small)
  {
    AfterIsAt(s, large, needle, item);
    AfterIsAt(kept, small, needle, item);
    IndexInParts(s, older, kept, needle);
    var pos, q := IndexOf(s, needle) + 1, IndexOf(kept, needle) + 1;
    older' := InsertAmongKept(s, older, kept, small, large, pos, q, item);
  }

  /** Behind the last item that was lost there is no place left in the smaller queue. */
  lemma InsertAfterLost<T>(s: seq<T>, older: seq<T>, kept: seq<T>, small: nat, large: nat, needle: T, item: T)
    returns (older': seq<T>)
    requires NewestPart(s, older, kept, small) && |s| < large && needle in s && needle !in kept
    ensures NewestPart(InsertedAfter(s, large, needle, item), older', kept, small)
  {
    IndexInParts(s, older, kept, needle);
    older' := InsertAmongOlder(s, older, kept, small, large, IndexOf(s, needle) + 1, item);
  }

  lemma InsertAfterParts<T>(s: seq<T>, older: seq<T>, kept: seq<T>, small: nat, large: nat, needle: T, item: T)
    returns (older': seq<T>)
    requires NewestPart(s, older, kept, small) && |s| < large && (needle in kept ==> needle !in older)
    ensures NewestPart(InsertedAfter(s, large, needle, item), older', InsertedAfter(kept, small, needle, item), small)
  {
    if needle in kept {
      older' := InsertAfterKept(s, older, kept, small, large, needle, item);
    } else if needle in s {
      older' := InsertAfterLost(s, older, kept, small, large, needle, item);
    } else {
      older' := older;
    }
  }

  lemma PushParts<T>(s: seq<T>, older: seq<T>, kept: seq<T>, small: nat, large: nat, item: T)
    returns (older': seq<T>)
    requires NewestPart(s, older, kept, small) && |s| < large
    ensures NewestPart(PushedBack(s, large, item), older', PushedBack(kept, small, item), small)
  {
    var wide := kept + [item];
    ConcatAssociates(older, kept, [item]);
    var lost := |wide| - |PushedBack(kept, small, item)|;
    Halves(wide, lost);
    ConcatAssociates(older, wide[..lost], wide[lost..]);
    older' := older + wide[..lost];
  }
}

/** `boost::circular_buffer`: a fixed array whose first item sits at `head`. */
module CircularBuffers {
  import opened Options
  import opened QueueSpec

  class CircularBuffer<T> {
    const slots: array<Option<T>>
    var head: nat
    var len: nat
    ghost var contents: seq<T>

    ghost predicate Valid()
      reads this, slots
    {
      && len == |contents| <= slots.Length
      && (head < slots.Length || head == 0)
      && forall i {:trigger Slot(i)} :: 0 <= i < len ==> slots[Slot(i)] == Some(contents[i])
    }

    /** The array position of the i-th item; the position past the end of a full buffer is
        the position of the first item. */
    function Slot(i: nat): (k: nat)
      requires head < slots.Length && i <= len <= slots.Length
      reads this
      ensures k < slots.Length
    {
      if head + i < slots.Length then head + i else head + i - slots.Length
    }

    constructor (capacity: nat)
      ensures Valid() && fresh(slots) && slots.Length == capacity && contents == []
    {
      slots := new Option<T>[capacity](_ => None);
      head, len, contents := 0, 0, [];
    }

    function Full(): bool
      reads this
    {
      len == slots.Length
    }

    function Get(i: nat): (x: T)
      requires Valid() && i < len
      reads this, slots
      ensures x == contents[i]
    {
      slots[Slot(i)].value
    }

    method Clear()
      requires Valid()
      modifies this
      ensures Valid() && contents == []
    {
      head, len, contents := 0, 0, [];
    }

    method Set(i: nat, x: T)
      requires Valid() && i < len
      modifies this, slots
      ensures Valid() && contents == old(contents)[i := x]
    {
      slots[Slot(i)] := Some(x);
      contents := contents[i := x];
      forall k | 0 <= k < len ensures slots[Slot(k)] == Some(contents[k]) {
        assert Slot(k) == old(Slot(k));
      }
    }

    method PushBack(x: T)
      requires Valid()
      modifies this, slots
      ensures Valid() && contents == PushedBack(old(contents), slots.Length, x)
    {
      if slots.Length == 0 { return; }
      slots[Slot(len)] := Some(x);
      if len == slots.Length {
        head := if head + 1 == slots.Length then 0 else head + 1;
        contents := contents[1..] + [x];
        forall k | 0 <= k < len ensures slots[Slot(k)] == Some(contents[k]) {
          assert Slot(k) == old(Slot(k + 1));
        }
      } else {
        len := len + 1;
        contents := contents + [x];
        forall k | 0 <= k < len ensures slots[Slot(k)] == Some(contents[k]) {
          assert k < len - 1 ==> Slot(k) == old(Slot(k));
        }
      }
    }

    /** Only reached with room left, so the overwriting case of boost's contract does not arise. */
    method PushFront(x: T)
      requires Valid() && len < slots.Length
      modifies this, slots
      ensures Valid() && contents == [x] + old(contents)
    {
      head := if head == 0 then slots.Length - 1 else head - 1;
      slots[head] := Some(x);
      len := len + 1;
      contents := [x] + contents;
      forall k | 0 <= k < len ensures slots[Slot(k)] == Some(contents[k]) {
        assert k > 0 ==> Slot(k) == old(Slot(k - 1));
      }
    }

    /** Shifts the items from `pos` on one place towards the end. On a full buffer the place
        past the end is the first item's, which is thereby overwritten. */
    method ShiftUp(pos: nat)
      requires Valid() && pos <= len && 0 < slots.Length && (len == slots.Length ==> pos > 0)
      modifies slots
      ensures forall i :: (if len == slots.Length then 1 else 0) <= i < pos ==> slots[Slot(i)] == Some(contents[i])
      ensures forall i :: pos < i <= len ==> slots[Slot(i)] == Some(contents[i - 1])
    {
      var k := len;
      while k > pos
        invariant pos <= k <= len
        invariant forall i :: (if len == slots.Length then 1 else 0) <= i < k ==> slots[Slot(i)] == Some(contents[i])
        invariant forall i :: k < i <= len ==> slots[Slot(i)] == Some(contents[i - 1])
        invariant k == len == slots.Length ==> slots[Slot(0)] == Some(contents[0])
      {
        slots[Slot(k)] := slots[Slot(k - 1)];
        k := k - 1;
      }
    }

    method Insert(pos: nat, x: T)
      requires Valid() && pos <= len
      modifies this, slots
      ensures Valid() && contents == InsertedAt(old(contents), slots.Length, pos, x)
    {
      if len == slots.Length {
        if pos != 0 {
          InsertDroppingFirst(pos, x);
        }
      } else {
        ShiftUp(pos);
        slots[Slot(pos)] := Some(x);
        ghost var shifted := contents[..pos] + [x] + contents[pos..];
        forall i | 0 <= i <= len ensures slots[Slot(i)] == Some(shifted[i]) {
          if i < pos {
            assert Slot(i) != Slot(pos);
          } else if pos < i {
            assert Slot(i) != Slot(pos);
          }
        }
        contents, len := shifted, len + 1;
      }
    }

    method InsertDroppingFirst(pos: nat, x: T)
      requires Valid() && 0 < pos <= len == slots.Length
      modifies this, slots
      ensures Valid() && len == old(len) && contents == old(contents)[1..pos] + [x] + old(contents)[pos..]
    {
      ghost var shifted := contents[..pos] + [x] + contents[pos..];
      assert shifted[1..] == contents[1..pos] + [x] + contents[pos..];
      ShiftUp(pos);
      slots[Slot(pos)] := Some(x);
      forall i | 1 <= i <= len ensures slots[Slot(i)] == Some(shifted[i]) {
        if i < pos {
          assert Slot(i) != Slot(pos);
        } else if pos < i {
          assert Slot(i) != Slot(pos);
        }
      }
      ForgetFirst(shifted);
    }

    /** Moving the head on by one makes the item behind the first one the first. */
    method ForgetFirst(ghost shifted: seq<T>)
      requires head < slots.Length == len && |shifted| == len + 1
      requires forall i :: 1 <= i <= len ==> slots[Slot(i)] == Some(shifted[i])
      modifies this
      ensures Valid() && len == old(len) && contents == shifted[1..]
    {
      head := if head + 1 == slots.Length then 0 else head + 1;
      contents := shifted[1..];
      forall i | 0 <= i < len ensures slots[Slot(i)] == Some(contents[i]) {
        assert Slot(i) == old(Slot(i + 1));
      }
    }
  }
}

/** src/messages/LimitedQueue.hpp. Each operation runs under the queue's lock, so it is one
    atomic step. */
module LimitedQueues {
  import opened Options
  import opened Sequences
  import opened QueueSpec
  import opened CircularBuffers

  class LimitedQueue<T(==)> {
    const limit: nat
    const buffer: CircularBuffer<T>

    ghost predicate Valid()
      reads this, buffer, buffer.slots
    {
      buffer.Valid() && buffer.slots.Length == limit
    }

    ghost function Contents(): (s: seq<T>)
      requires Valid()
      reads this, buffer, buffer.slots
      ensures |s| <= limit
    {
      buffer.contents
    }

    /** The objects this queue writes to. */
    ghost function Repr(): set<object> {
      {buffer, buffer.slots}
    }

    constructor (limit: nat)
      ensures Valid() && this.limit == limit && Contents() == []
      ensures fresh(buffer) && fresh(buffer.slots)
    {
      this.limit := limit;
      buffer := new CircularBuffer(limit);
    }

    function Space(): (n: nat)
      requires Valid()
      reads this, buffer, buffer.slots
      ensures n == limit - |Contents()|
    {
      limit - buffer.len
    }

    function Empty(): (b: bool)
      requires Valid()
      reads this, buffer, buffer.slots
      ensures b <==> Contents() == []
    {
      buffer.len == 0
    }

    function Get(index: nat): (r: Option<T>)
      requires Valid()
      reads this, buffer, buffer.slots
      ensures r == if index < |Contents()| then Some(Contents()[index]) else None
    {
      if index >= buffer.len then None else Some(buffer.Get(index))
    }

    function First(): (r: Option<T>)
      requires Valid()
      reads this, buffer, buffer.slots
      ensures r == if Contents() == [] then None else Some(Contents()[0])
    {
      if buffer.len == 0 then None else Some(buffer.Get(0))
    }

    function Last(): (r: Option<T>)
      requires Valid()
      reads this, buffer, buffer.slots
      ensures r == if Contents() == [] then None else Some(Contents()[|Contents()| - 1])
    {
      if buffer.len == 0 then None else Some(buffer.Get(buffer.len - 1))
    }

    method Clear()
      requires Valid()
      modifies Repr()
      ensures Valid() && Contents() == []
    {
      buffer.Clear();
    }

    /** Reports whether an item was dropped to make room, and which one: always the oldest. */
    method PushBack(item: T) returns (full: bool, deleted: Option<T>)
      requires Valid() && limit > 0
      modifies Repr()
      ensures Valid() && Contents() == PushedBack(old(Contents()), limit, item)
      ensures full <==> |old(Contents())| == limit
      ensures deleted == if full then Some(old(Contents())[0]) else None
    {
      full, deleted := buffer.Full(), None;
      if full {
        deleted := Some(buffer.Get(0));
      }
      buffer.PushBack(item);
    }

    /** Pushes the last items that fit, walking `items` backwards, and returns exactly those. */
    method PushFront(items: seq<T>) returns (pushed: seq<T>)
      requires Valid()
      modifies Repr()
      ensures Valid() && Contents() == PushedFront(old(Contents()), limit, items)
      ensures pushed == LastN(items, limit - |old(Contents())|)
    {
      var numToPush := Min(|items|, Space());
      ghost var before := Contents();
      pushed := [];
      var f := |items| - numToPush;
      var b := |items| - 1;
      while f < |items|
        invariant Valid()
        invariant |items| - numToPush <= f <= |items|
        invariant b == |items| - 1 - (f - (|items| - numToPush))
        invariant Contents() == items[b + 1..] + before
        invariant pushed == items[|items| - numToPush..f]
      {
        PrependedSlice(items, b, before);
        AppendedSlice(items, |items| - numToPush, f);
        buffer.PushFront(items[b]);
        pushed := pushed + [items[f]];
        f, b := f + 1, b - 1;
      }
    }

    method ReplaceItem(needle: T, replacement: T) returns (index: int)
      requires Valid()
      modifies Repr()
      ensures Valid() && index == IndexOf(old(Contents()), needle)
      ensures Contents() == Replaced(old(Contents()), needle, replacement)
    {
      var i := 0;
      while i < buffer.len
        invariant Valid() && i <= buffer.len && unchanged(buffer, buffer.slots)
        invariant needle !in Contents()[..i]
      {
        if buffer.Get(i) == needle {
          buffer.Set(i, replacement);
          return i;
        }
        i := i + 1;
      }
      return -1;
    }

    method ReplaceAt(index: nat, replacement: T) returns (replaced: bool)
      requires Valid()
      modifies Repr()
      ensures Valid() && (replaced <==> index < |old(Contents())|)
      ensures Contents() == if replaced then old(Contents())[index := replacement] else old(Contents())
    {
      if index >= buffer.len { return false; }
      buffer.Set(index, replacement);
      return true;
    }

    /** `found` reports that the needle is present. On a full queue whose first item is the
        needle nothing is inserted although `found` is true. */
    method InsertBefore(needle: T, item: T) returns (found: bool)
      requires Valid()
      modifies Repr()
      ensures Valid() && (found <==> needle in old(Contents()))
      ensures Contents() == InsertedBefore(old(Contents()), limit, needle, item)
    {
      var it := 0;
      while it < buffer.len
        invariant Valid() && it <= buffer.len && unchanged(buffer, buffer.slots)
        invariant needle !in Contents()[..it]
      {
        if buffer.Get(it) == needle {
          buffer.Insert(it, item);
          return true;
        }
        it := it + 1;
      }
      return false;
    }

    method InsertAfter(needle: T, item: T) returns (found: bool)
      requires Valid()
      modifies Repr()
      ensures Valid() && (found <==> needle in old(Contents()))
      ensures Contents() == InsertedAfter(old(Contents()), limit, needle, item)
    {
      var it := 0;
      while it < buffer.len
        invariant Valid() && it <= buffer.len && unchanged(buffer, buffer.slots)
        invariant needle !in Contents()[..it]
      {
        if buffer.Get(it) == needle {
          it := it + 1;
          buffer.Insert(it, item);
          return true;
        }
        it := it + 1;
      }
      return false;
    }

    method GetSnapshot() returns (snapshot: seq<T>)
      requires Valid()
      ensures snapshot == Contents()
    {
      snapshot := [];
      for i := 0 to buffer.len
        invariant snapshot == Contents()[..i]
      {
        snapshot := snapshot + [buffer.Get(i)];
      }
    }

    /** The first item satisfying the predicate, searching from the oldest. */
    method Find(pred: T -> bool) returns (r: Option<T>)
      requires Valid()
      ensures r.None? ==> forall x :: x in Contents() ==> !pred(x)
      ensures r.Some? ==> exists k :: 0 <= k < |Contents()| && Contents()[k] == r.value
                            && pred(r.value) && forall j :: 0 <= j < k ==> !pred(Contents()[j])
    {
      for i := 0 to buffer.len
        invariant forall j :: 0 <= j < i ==> !pred(Contents()[j])
      {
        if pred(buffer.Get(i)) {
          assert Contents()[i] == buffer.Get(i);
          return Some(buffer.Get(i));
        }
      }
      return None;
    }

    /** The last item satisfying the predicate, searching from the newest. */
    method Rfind(pred: T -> bool) returns (r: Option<T>)
      requires Valid()
      ensures r.None? ==> forall x :: x in Contents() ==> !pred(x)
      ensures r.Some? ==> exists k :: 0 <= k < |Contents()| && Contents()[k] == r.value
                            && pred(r.value) && forall j :: k < j < |Contents()| ==> !pred(Contents()[j])
    {
      for i := buffer.len downto 0
        invariant forall j :: i <= j < buffer.len ==> !pred(Contents()[j])
      {
        if pred(buffer.Get(i)) {
          assert Contents()[i] == buffer.Get(i);
          return Some(buffer.Get(i));
        }
      }
      return None;
    }
  }
}
