/** What the table model's rows and the vector behind it are, as values, and how each operation
    changes them (src/common/SignalVectorModel.hpp). */
module TableSpec {
  import opened Options
  import opened Sequences

  /** `original` is the vector item the row was made from; custom rows have none. */
  datatype Row<T, C> = Row(cells: seq<C>, original: Option<T>, isCustom: bool)

  /** The two conversions every concrete model supplies. */
  datatype Codec<!T(!new), !C> = Codec(columns: nat, toRow: T -> seq<C>, fromRow: (seq<C>, T) -> T) {
    ghost predicate Lawful() {
      forall x: T :: fromRow(toRow(x), x) == x && |toRow(x)| == columns
    }
  }

  predicate RowOk<T, C>(columns: nat, r: Row<T, C>) {
    |r.cells| == columns && (!r.isCustom ==> r.original.Some?)
  }

  function Decode<T(!new), C>(codec: Codec<T, C>, r: Row<T, C>): T
    requires r.original.Some?
  {
    codec.fromRow(r.cells, r.original.value)
  }

  function FreshRow<T(!new), C>(codec: Codec<T, C>, item: T): Row<T, C> {
    Row(codec.toRow(item), Some(item), false)
  }

  /** The rows that stand for vector items, in order. */
  function ItemRows<T, C>(rows: seq<Row<T, C>>): (r: seq<Row<T, C>>)
    ensures |r| <= |rows|
  {
    if rows == [] then []
    else (if rows[0].isCustom then [] else [rows[0]]) + ItemRows(rows[1..])
  }

  function CustomRows<T, C>(rows: seq<Row<T, C>>): seq<Row<T, C>> {
    if rows == [] then []
    else (if rows[0].isCustom then [rows[0]] else []) + CustomRows(rows[1..])
  }

  lemma {:induction false} ItemRowsConcat<T, C>(a: seq<Row<T, C>>, b: seq<Row<T, C>>)
    ensures ItemRows(a + b) == ItemRows(a) + ItemRows(b)
  {
    if a == [] {
      assert a + b == b;
    } else {
      ConcatTail(a, b);
      ItemRowsConcat(a[1..], b);
      ConcatAssociates(if a[0].isCustom then [] else [a[0]], ItemRows(a[1..]), ItemRows(b));
    }
  }

  lemma {:induction false} CustomRowsConcat<T, C>(a: seq<Row<T, C>>, b: seq<Row<T, C>>)
    ensures CustomRows(a + b) == CustomRows(a) + CustomRows(b)
  {
    if a == [] {
      assert a + b == b;
    } else {
      ConcatTail(a, b);
      CustomRowsConcat(a[1..], b);
      ConcatAssociates(if a[0].isCustom then [a[0]] else [], CustomRows(a[1..]), CustomRows(b));
    }
  }

  lemma RowsConcat<T, C>(a: seq<Row<T, C>>, b: seq<Row<T, C>>)
    ensures ItemRows(a + b) == ItemRows(a) + ItemRows(b)
    ensures CustomRows(a + b) == CustomRows(a) + CustomRows(b)
  {
    ItemRowsConcat(a, b);
    CustomRowsConcat(a, b);
  }

  /** One row in the middle of the table. */
  lemma RowsAround<T, C>(front: seq<Row<T, C>>, r: Row<T, C>, back: seq<Row<T, C>>)
    ensures ItemRows(front + [r] + back) == ItemRows(front) + (if r.isCustom then [] else [r]) + ItemRows(back)
    ensures CustomRows(front + [r] + back) == CustomRows(front) + (if r.isCustom then [r] else []) + CustomRows(back)
  {
    RowsConcat(front + [r], back);
    RowsConcat(front, [r]);
    assert ItemRows([r]) == if r.isCustom then [] else [r];
    assert CustomRows([r]) == if r.isCustom then [r] else [];
  }

  lemma AroundIn<T, C>(rows: seq<Row<T, C>>, front: seq<Row<T, C>>, r: Row<T, C>, back: seq<Row<T, C>>)
    requires rows == front + [r] + back
    ensures ItemRows(rows) == ItemRows(front) + (if r.isCustom then [] else [r]) + ItemRows(back)
    ensures CustomRows(rows) == CustomRows(front) + (if r.isCustom then [r] else []) + CustomRows(back)
  {
    RowsAround(front, r, back);
  }

  lemma RowsSplit<T, C>(rows: seq<Row<T, C>>, m: nat)
    requires m < |rows|
    ensures ItemRows(rows)
         == ItemRows(rows[..m]) + (if rows[m].isCustom then [] else [rows[m]]) + ItemRows(rows[m + 1..])
    ensures CustomRows(rows)
         == CustomRows(rows[..m]) + (if rows[m].isCustom then [rows[m]] else []) + CustomRows(rows[m + 1..])
  {
    Sequences.Split(rows, m);
    AroundIn(rows, rows[..m], rows[m], rows[m + 1..]);
  }

  lemma OneMoreRow<T, C>(rows: seq<Row<T, C>>, m: nat)
    requires m < |rows|
    ensures ItemRows(rows[..m + 1]) == ItemRows(rows[..m]) + if rows[m].isCustom then [] else [rows[m]]
  {
    assert rows[..m + 1] == rows[..m] + [rows[m]];
    ItemRowsConcat(rows[..m], [rows[m]]);
    assert ItemRows([rows[m]]) == if rows[m].isCustom then [] else [rows[m]];
  }

  /** getVectorIndexFromModelIndex: the number of item rows above an item row; for a custom row
      or an index outside the table, the number of all item rows. */
  function VectorIndex<T, C>(rows: seq<Row<T, C>>, index: int): (v: nat)
    ensures v <= |ItemRows(rows)|
  {
    if 0 <= index < |rows| && !rows[index].isCustom then
      RowsSplit(rows, index);
      |ItemRows(rows[..index])|
    else |ItemRows(rows)|
  }

  /** getModelIndexFromVectorIndex: the position of the v-th item row, or the end. */
  function ModelIndex<T, C>(rows: seq<Row<T, C>>, v: nat): (m: nat)
    ensures m <= |rows|
  {
    if rows == [] then 0
    else if rows[0].isCustom then 1 + ModelIndex(rows[1..], v)
    else if v == 0 then 0
    else 1 + ModelIndex(rows[1..], v - 1)
  }

  lemma ItemRowsBelow<T, C>(rows: seq<Row<T, C>>, m: nat)
    requires 0 < m <= |rows|
    ensures |ItemRows(rows[..m])| == (if rows[0].isCustom then 0 else 1) + |ItemRows(rows[1..][..m - 1])|
  {
    FrontOfTail(rows, m);
    ItemRowsConcat([rows[0]], rows[1..][..m - 1]);
    assert ItemRows([rows[0]]) == if rows[0].isCustom then [] else [rows[0]];
  }

  lemma {:induction false} ModelIndexCounts<T, C>(rows: seq<Row<T, C>>, v: nat)
    ensures v < |ItemRows(rows)| ==> ModelIndex(rows, v) < |rows| && !rows[ModelIndex(rows, v)].isCustom
    ensures v < |ItemRows(rows)| ==> |ItemRows(rows[..ModelIndex(rows, v)])| == v
    ensures v >= |ItemRows(rows)| ==> ModelIndex(rows, v) == |rows|
  {
    if rows != [] {
      var m := ModelIndex(rows, v);
      if rows[0].isCustom {
        ModelIndexCounts(rows[1..], v);
        ItemRowsBelow(rows, m);
      } else if v > 0 {
        ModelIndexCounts(rows[1..], v - 1);
        ItemRowsBelow(rows, m);
      }
    }
  }

  lemma ModelIndexFinds<T, C>(rows: seq<Row<T, C>>, v: nat)
    ensures var m := ModelIndex(rows, v);
      if v < |ItemRows(rows)| then
        m < |rows| && !rows[m].isCustom && |ItemRows(rows[..m])| == v && rows[m] == ItemRows(rows)[v]
      else m == |rows|
  {
    ModelIndexCounts(rows, v);
    if v < |ItemRows(rows)| {
      RowsSplit(rows, ModelIndex(rows, v));
    }
  }

  lemma {:induction false} ModelIndexUnique<T, C>(rows: seq<Row<T, C>>, m: nat)
    requires m < |rows| && !rows[m].isCustom
    ensures ModelIndex(rows, |ItemRows(rows[..m])|) == m
  {
    if m > 0 {
      ItemRowsBelow(rows, m);
      ModelIndexUnique(rows[1..], m - 1);
    }
  }

  /** On item rows and vector indices the two translations undo each other; everywhere else each
      of them answers with the end. */
  lemma TranslationsAreInverse<T, C>(rows: seq<Row<T, C>>, m: int, v: nat)
    ensures 0 <= m < |rows| && !rows[m].isCustom ==>
      VectorIndex(rows, m) < |ItemRows(rows)| && ModelIndex(rows, VectorIndex(rows, m)) == m
    ensures v < |ItemRows(rows)| ==>
      var k := ModelIndex(rows, v); k < |rows| && !rows[k].isCustom && VectorIndex(rows, k) == v
    ensures v >= |ItemRows(rows)| ==> ModelIndex(rows, v) == |rows|
    ensures !(0 <= m < |rows| && !rows[m].isCustom) ==> VectorIndex(rows, m) == |ItemRows(rows)|
  {
    if 0 <= m < |rows| && !rows[m].isCustom {
      RowsSplit(rows, m);
      ModelIndexUnique(rows, m);
    }
    ModelIndexFinds(rows, v);
  }

  // ---------------------------------------------------------------------------------------
  // Operations
  // ---------------------------------------------------------------------------------------

  datatype State<T, C> = State(items: seq<T>, rows: seq<Row<T, C>>)

  datatype Op<T, C> =
    | VectorInsert(item: T, index: int)
    | VectorRemove(index: int)
    | SetCell(row: int, column: int, cell: C)
    | DeleteRow(row: int)
    | MoveRow(source: int, destination: int)
    | InsertCustom(cells: seq<C>, index: int)
    | RemoveCustom(index: int)

  function InsertAt<X>(s: seq<X>, i: nat, x: X): seq<X>
    requires i <= |s|
  {
    s[..i] + [x] + s[i..]
  }

  function RemoveAt<X>(s: seq<X>, i: nat): seq<X>
    requires i < |s|
  {
    s[..i] + s[i + 1..]
  }

  /** What the operations assert; a row index passed to deleteRow or moveRows must name an item
      row, or else the vector is asked to remove an item it does not have. */
  predicate Enabled<T, C>(columns: nat, s: State<T, C>, op: Op<T, C>) {
    match op
    case VectorInsert(_, index) => -1 <= index <= |s.items|
    case VectorRemove(index) => 0 <= index < |s.items|
    case SetCell(_, _, _) => true
    case DeleteRow(row) => 0 <= row < |s.rows| && VectorIndex(s.rows, row) < |s.items|
    case MoveRow(source, _) => 0 <= source < |s.rows| && VectorIndex(s.rows, source) < |s.items|
    case InsertCustom(cells, index) => 0 <= index <= |s.rows| && |cells| == columns
    case RemoveCustom(index) => 0 <= index < |s.rows| && s.rows[index].isCustom
  }

  function Inserted<T(!new), C>(codec: Codec<T, C>, s: State<T, C>, item: T, index: int): State<T, C>
    requires -1 <= index <= |s.items|
  {
    var v := if index == -1 then |s.items| else index;
    State(InsertAt(s.items, v, item), InsertAt(s.rows, ModelIndex(s.rows, v), FreshRow(codec, item)))
  }

  function Removed<T, C>(s: State<T, C>, index: nat): State<T, C>
    requires index < |s.items| && ModelIndex(s.rows, index) < |s.rows|
  {
    State(RemoveAt(s.items, index), RemoveAt(s.rows, ModelIndex(s.rows, index)))
  }

  /** The model and the vector agree: the k-th item row decodes to the k-th vector item. */
  ghost predicate Agree<T(!new), C>(codec: Codec<T, C>, s: State<T, C>) {
    && (forall i :: 0 <= i < |s.rows| ==> RowOk(codec.columns, s.rows[i]))
    && |ItemRows(s.rows)| == |s.items|
    && (forall k :: 0 <= k < |s.items| ==>
          ItemRows(s.rows)[k].original.Some? && Decode(codec, ItemRows(s.rows)[k]) == s.items[k])
  }

  function Step<T(!new), C>(codec: Codec<T, C>, s: State<T, C>, op: Op<T, C>): State<T, C>
    requires Agree(codec, s) && Enabled(codec.columns, s, op)
  {
    match op
    case VectorInsert(item, index) => Inserted(codec, s, item, index)
    case VectorRemove(index) =>
      ModelIndexFinds(s.rows, index);
      Removed(s, index)
    case SetCell(row, column, cell) =>
      if !(0 <= row < |s.rows| && 0 <= column < codec.columns) then s
      else
        var r := s.rows[row].(cells := s.rows[row].cells[column := cell]);
        if r.isCustom then s.(rows := s.rows[row := r])
        else
          RowsSplit(s.rows, row);
          State(s.items[VectorIndex(s.rows, row) := Decode(codec, r)], s.rows[row := r])
    case DeleteRow(row) =>
      ModelIndexFinds(s.rows, VectorIndex(s.rows, row));
      Removed(s, VectorIndex(s.rows, row))
    case MoveRow(source, destination) =>
      ModelIndexFinds(s.rows, VectorIndex(s.rows, source));
      var item := s.items[VectorIndex(s.rows, source)];
      var s' := Removed(s, VectorIndex(s.rows, source));
      RowsSplit(s.rows, ModelIndex(s.rows, VectorIndex(s.rows, source)));
      RemovedItemRows(s.rows, VectorIndex(s.rows, source));
      Inserted(codec, s', item, VectorIndex(s'.rows, destination))
    case InsertCustom(cells, index) => s.(rows := InsertAt(s.rows, index, Row(cells, None, true)))
    case RemoveCustom(index) => s.(rows := RemoveAt(s.rows, index))
  }

  lemma InsertBetween<X>(a: seq<X>, x: X, b: seq<X>)
    ensures InsertAt(a + b, |a|, x) == a + [x] + b
  {
    assert (a + b)[..|a|] == a && (a + b)[|a|..] == b;
  }

  lemma RemoveBetween<X>(a: seq<X>, x: X, b: seq<X>)
    ensures RemoveAt(a + [x] + b, |a|) == a + b
  {
    var s := a + [x] + b;
    assert s[..|a|] == a && s[|a| + 1..] == b;
  }

  lemma RemovedItemRows<T, C>(rows: seq<Row<T, C>>, v: nat)
    requires v < |ItemRows(rows)|
    ensures ModelIndex(rows, v) < |rows|
    ensures ItemRows(RemoveAt(rows, ModelIndex(rows, v))) == RemoveAt(ItemRows(rows), v)
    ensures CustomRows(RemoveAt(rows, ModelIndex(rows, v))) == CustomRows(rows)
  {
    ModelIndexFinds(rows, v);
    var m := ModelIndex(rows, v);
    RowsSplit(rows, m);
    RowsConcat(rows[..m], rows[m + 1..]);
    RemoveBetween(ItemRows(rows[..m]), rows[m], ItemRows(rows[m + 1..]));
  }

  lemma ModelIndexSplits<T, C>(rows: seq<Row<T, C>>, v: nat)
    requires v <= |ItemRows(rows)|
    ensures var m := ModelIndex(rows, v); rows[..m] + rows[m..] == rows && |ItemRows(rows[..m])| == v
  {
    ModelIndexCounts(rows, v);
    var m := ModelIndex(rows, v);
    assert m == |rows| ==> rows[..m] == rows;
  }

  lemma InsertedItemRows<T, C>(rows: seq<Row<T, C>>, v: nat, r: Row<T, C>)
    requires v <= |ItemRows(rows)| && !r.isCustom
    ensures ItemRows(InsertAt(rows, ModelIndex(rows, v), r)) == InsertAt(ItemRows(rows), v, r)
    ensures CustomRows(InsertAt(rows, ModelIndex(rows, v), r)) == CustomRows(rows)
  {
    ModelIndexSplits(rows, v);
    var front, back := rows[..ModelIndex(rows, v)], rows[ModelIndex(rows, v)..];
    RowsConcat(front, back);
    RowsAround(front, r, back);
    InsertBetween(ItemRows(front), r, ItemRows(back));
  }

  lemma CustomRowInserted<T, C>(rows: seq<Row<T, C>>, index: nat, r: Row<T, C>)
    requires index <= |rows| && r.isCustom
    ensures ItemRows(InsertAt(rows, index, r)) == ItemRows(rows)
  {
    CustomBetween(rows[..index], r, rows[index..]);
    Halves(rows, index);
  }

  lemma CustomRowRemoved<T, C>(rows: seq<Row<T, C>>, index: nat)
    requires index < |rows| && rows[index].isCustom
    ensures ItemRows(RemoveAt(rows, index)) == ItemRows(rows)
  {
    Sequences.Split(rows, index);
    CustomBetween(rows[..index], rows[index], rows[index + 1..]);
    assert RemoveAt(rows, index) == rows[..index] + rows[index + 1..];
  }

  lemma CustomBetween<T, C>(front: seq<Row<T, C>>, r: Row<T, C>, back: seq<Row<T, C>>)
    requires r.isCustom
    ensures ItemRows(front + [r] + back) == ItemRows(front + back)
  {
    RowsAround(front, r, back);
    ItemRowsConcat(front, back);
    NothingBetween(ItemRows(front), ItemRows(back));
  }

  lemma NothingBetween<X>(a: seq<X>, b: seq<X>)
    ensures a + [] + b == a + b
  {
  }

  lemma CustomRowEdited<T, C>(rows: seq<Row<T, C>>, index: nat, r: Row<T, C>)
    requires index < |rows| && rows[index].isCustom && r.isCustom
    ensures ItemRows(rows[index := r]) == ItemRows(rows)
  {
    RowsSplit(rows, index);
    Updated(rows, index, r);
    AroundIn(rows[index := r], rows[..index], r, rows[index + 1..]);
  }

  lemma EditedItemRow<T, C>(rows: seq<Row<T, C>>, row: nat, r: Row<T, C>)
    requires row < |rows| && !rows[row].isCustom && !r.isCustom
    ensures VectorIndex(rows, row) < |ItemRows(rows)|
    ensures ItemRows(rows[row := r]) == ItemRows(rows)[VectorIndex(rows, row) := r]
    ensures CustomRows(rows[row := r]) == CustomRows(rows)
  {
    RowsSplit(rows, row);
    Updated(rows, row, r);
    AroundIn(rows[row := r], rows[..row], r, rows[row + 1..]);
  }

  /** Inserting an item and a row that decodes to it at corresponding places. */
  lemma InsertedRowsAgree<T(!new), C>(
    codec: Codec<T, C>, s: State<T, C>, item: T, v: nat, r: Row<T, C>, rows: seq<Row<T, C>>)
    requires Agree(codec, s) && v <= |s.items| && r.original.Some? && Decode(codec, r) == item
    requires forall i :: 0 <= i < |rows| ==> RowOk(codec.columns, rows[i])
    requires ItemRows(rows) == InsertAt(ItemRows(s.rows), v, r)
    ensures Agree(codec, State(InsertAt(s.items, v, item), rows))
  {
    var items, itemRows := InsertAt(s.items, v, item), ItemRows(rows);
    forall k | 0 <= k < |items| ensures itemRows[k].original.Some? && Decode(codec, itemRows[k]) == items[k] {
      InsertedAtIndex(s.items, v, item, k);
      InsertedAtIndex(ItemRows(s.rows), v, r, k);
    }
  }

  lemma InsertAgrees<T(!new), C>(codec: Codec<T, C>, s: State<T, C>, item: T, index: int)
    requires codec.Lawful() && Agree(codec, s) && -1 <= index <= |s.items|
    ensures Agree(codec, Inserted(codec, s, item, index))
    ensures CustomRows(Inserted(codec, s, item, index).rows) == CustomRows(s.rows)
  {
    var v := if index == -1 then |s.items| else index;
    var r := FreshRow(codec, item);
    InsertedItemRows(s.rows, v, r);
    assert codec.fromRow(codec.toRow(item), item) == item;
    var rows := InsertAt(s.rows, ModelIndex(s.rows, v), r);
    forall i | 0 <= i < |rows| ensures RowOk(codec.columns, rows[i]) {
      InsertedAtIndex(s.rows, ModelIndex(s.rows, v), r, i);
    }
    InsertedRowsAgree(codec, s, item, v, r, rows);
  }

  lemma RemoveAgrees<T(!new), C>(codec: Codec<T, C>, s: State<T, C>, index: nat)
    requires Agree(codec, s) && index < |s.items|
    ensures ModelIndex(s.rows, index) < |s.rows| && Agree(codec, Removed(s, index))
    ensures CustomRows(Removed(s, index).rows) == CustomRows(s.rows)
  {
    RemovedItemRows(s.rows, index);
  }

  lemma SetCellAgrees<T(!new), C>(codec: Codec<T, C>, s: State<T, C>, row: int, column: int, cell: C)
    requires Agree(codec, s)
    ensures Agree(codec, Step(codec, s, SetCell(row, column, cell)))
    ensures 0 <= row < |s.rows| && !s.rows[row].isCustom ==>
      CustomRows(Step(codec, s, SetCell(row, column, cell)).rows) == CustomRows(s.rows)
  {
    if 0 <= row < |s.rows| && 0 <= column < codec.columns {
      var r := s.rows[row].(cells := s.rows[row].cells[column := cell]);
      if r.isCustom {
        CustomRowEdited(s.rows, row, r);
      } else {
        EditedItemRow(s.rows, row, r);
      }
    }
  }

  lemma StepAgrees<T(!new), C>(codec: Codec<T, C>, s: State<T, C>, op: Op<T, C>)
    requires codec.Lawful() && Agree(codec, s) && Enabled(codec.columns, s, op)
    ensures Agree(codec, Step(codec, s, op))
    ensures op.VectorInsert? || op.VectorRemove? || op.DeleteRow? || op.MoveRow? ==>
      CustomRows(Step(codec, s, op).rows) == CustomRows(s.rows)
  {
    match op
    case VectorInsert(item, index) => InsertAgrees(codec, s, item, index);
    case VectorRemove(index) => RemoveAgrees(codec, s, index);
    case SetCell(row, column, cell) => SetCellAgrees(codec, s, row, column, cell);
    case DeleteRow(row) => RemoveAgrees(codec, s, VectorIndex(s.rows, row));
    case MoveRow(source, destination) =>
      var v := VectorIndex(s.rows, source);
      RemoveAgrees(codec, s, v);
      InsertAgrees(codec, Removed(s, v), s.items[v], VectorIndex(Removed(s, v).rows, destination));
    case InsertCustom(cells, index) => CustomRowInserted(s.rows, index, Row(cells, None, true));
    case RemoveCustom(index) => CustomRowRemoved(s.rows, index);
  }

  /** A run of operations, each allowed where it happens. */
  ghost predicate Possible<T(!new), C>(codec: Codec<T, C>, s: State<T, C>, ops: seq<Op<T, C>>)
    requires codec.Lawful() && Agree(codec, s)
    decreases |ops|
  {
    ops == [] ||
    (Enabled(codec.columns, s, ops[0]) &&
     (StepAgrees(codec, s, ops[0]); Possible(codec, Step(codec, s, ops[0]), ops[1..])))
  }

  ghost function Run<T(!new), C>(codec: Codec<T, C>, s: State<T, C>, ops: seq<Op<T, C>>): (s': State<T, C>)
    requires codec.Lawful() && Agree(codec, s) && Possible(codec, s, ops)
    ensures Agree(codec, s')
    decreases |ops|
  {
    if ops == [] then s
    else
      StepAgrees(codec, s, ops[0]);
      Run(codec, Step(codec, s, ops[0]), ops[1..])
  }

  /** The table right after `initialize`: one fresh row for each vector item. */
  function Initial<T(!new), C>(codec: Codec<T, C>, items: seq<T>): State<T, C> {
    State(items, seq(|items|, i requires 0 <= i < |items| => FreshRow(codec, items[i])))
  }

  lemma {:induction false} AllItemRows<T, C>(rows: seq<Row<T, C>>)
    requires forall i :: 0 <= i < |rows| ==> !rows[i].isCustom
    ensures ItemRows(rows) == rows
  {
    if rows != [] {
      AllItemRows(rows[1..]);
    }
  }

  lemma InitialAgrees<T(!new), C>(codec: Codec<T, C>, items: seq<T>)
    requires codec.Lawful()
    ensures Agree(codec, Initial(codec, items))
  {
    AllItemRows(Initial(codec, items).rows);
    assert forall i :: 0 <= i < |items| ==> codec.fromRow(codec.toRow(items[i]), items[i]) == items[i];
  }

  /** After any run of external inserts and removals, cell edits, row deletions, row moves and
      changes of custom rows: there is one item row per vector item, the k-th one is where the
      translation of k says, it decodes to item k and translates back to k; and every row above
      it is a custom row or one of the k rows before. */
  lemma ModelAndVectorAgree<T(!new), C>(codec: Codec<T, C>, items: seq<T>, ops: seq<Op<T, C>>, k: nat)
    requires codec.Lawful() && Agree(codec, Initial(codec, items)) && Possible(codec, Initial(codec, items), ops)
    requires k < |Run(codec, Initial(codec, items), ops).items|
    ensures var s := Run(codec, Initial(codec, items), ops); var m := ModelIndex(s.rows, k);
      && |ItemRows(s.rows)| == |s.items|
      && m < |s.rows| && !s.rows[m].isCustom && VectorIndex(s.rows, m) == k == |ItemRows(s.rows[..m])|
      && s.rows[m].original.Some? && Decode(codec, s.rows[m]) == s.items[k]
  {
    var s := Run(codec, Initial(codec, items), ops);
    ModelIndexFinds(s.rows, k);
    TranslationsAreInverse(s.rows, 0, k);
  }
}

/** src/common/SignalVector.hpp. Emitting a signal is handing the event to each listener. */
module SignalVectors {
  datatype ItemEvent<T> = ItemEvent(item: T, index: nat, callerIsModel: bool)

  ghost predicate StrictWeakOrder<T(!new)>(less: (T, T) -> bool) {
    && (forall x :: !less(x, x))
    && (forall x, y, z :: less(x, y) && less(y, z) ==> less(x, z))
    && (forall x, y, z :: !less(x, y) && !less(y, z) ==> !less(x, z))
  }

  ghost predicate SortedBy<T>(s: seq<T>, less: (T, T) -> bool) {
    forall i, j :: 0 <= i < j < |s| ==> !less(s[j], s[i])
  }

  /** `std::lower_bound`: the number of items that are less than the given one. */
  method LowerBound<T(!new)>(s: seq<T>, item: T, less: (T, T) -> bool) returns (index: nat)
    requires StrictWeakOrder(less) && SortedBy(s, less)
    ensures index <= |s|
    ensures forall i :: 0 <= i < index ==> less(s[i], item)
    ensures forall i :: index <= i < |s| ==> !less(s[i], item)
  {
    index := 0;
    var count := |s|;
    while count > 0
      invariant index + count <= |s| && 0 <= count
      invariant forall i :: 0 <= i < index ==> less(s[i], item)
      invariant forall i :: index + count <= i < |s| ==> !less(s[i], item)
    {
      var half := count / 2;
      if less(s[index + half], item) {
        forall i | index <= i < index + half ensures less(s[i], item) {
          assert !less(s[index + half], s[i]);
        }
        index := index + half + 1;
        count := count - half - 1;
      } else {
        forall i | index + half <= i < index + count ensures !less(s[i], item) {
          assert i > index + half ==> !less(s[i], s[index + half]);
        }
        count := half;
      }
    }
  }

  class SignalVector<T(!new)> {
    var items: seq<T>
    var readOnly: seq<T>

    ghost predicate Valid()
      reads this
    {
      readOnly == items
    }

    constructor ()
      ensures Valid() && items == []
    {
      items, readOnly := [], [];
    }

    /** Insertion into an unsorted vector; -1 appends. */
    method Insert(item: T, proposedIndex: int, callerIsModel: bool) returns (event: ItemEvent<T>)
      requires Valid() && -1 <= proposedIndex <= |items|
      modifies this
      ensures Valid()
      ensures var v := if proposedIndex == -1 then |old(items)| else proposedIndex;
        items == old(items)[..v] + [item] + old(items)[v..] && event == ItemEvent(item, v, callerIsModel)
    {
      var index := proposedIndex;
      if index == -1 {
        index := |items|;
      }
      items := items[..index] + [item] + items[index..];
      event := ItemEvent(item, index, callerIsModel);
      ItemsChanged();
    }

    /** Insertion into a sorted vector keeps it sorted, in front of equal items. */
    method InsertSorted(item: T, less: (T, T) -> bool, callerIsModel: bool) returns (event: ItemEvent<T>)
      requires Valid() && StrictWeakOrder(less) && SortedBy(items, less)
      modifies this
      ensures Valid() && SortedBy(items, less)
      ensures event.index <= |old(items)| && items == old(items)[..event.index] + [item] + old(items)[event.index..]
      ensures forall i :: 0 <= i < |old(items)| ==> (i < event.index <==> less(old(items)[i], item))
      ensures event.item == item && event.callerIsModel == callerIsModel
    {
      var index := LowerBound(items, item, less);
      ghost var before := items;
      items := items[..index] + [item] + items[index..];
      event := ItemEvent(item, index, callerIsModel);
      ItemsChanged();
      forall i, j | 0 <= i < j < |items| ensures !less(items[j], items[i]) {
        var i', j' := if i < index then i else i - 1, if j < index then j else j - 1;
        if i != index && j != index {
          assert !less(before[j'], before[i']);
        }
      }
    }

    method RemoveAt(index: nat, callerIsModel: bool) returns (event: ItemEvent<T>)
      requires Valid() && index < |items|
      modifies this
      ensures Valid() && items == old(items)[..index] + old(items)[index + 1..]
      ensures event == ItemEvent(old(items)[index], index, callerIsModel)
    {
      event := ItemEvent(items[index], index, callerIsModel);
      items := items[..index] + items[index + 1..];
      ItemsChanged();
    }

    method ItemsChanged()
      modifies this`readOnly
      ensures Valid()
    {
      readOnly := items;
    }
  }
}

/** src/common/SignalVectorModel.hpp over an unsorted vector, with the default hooks. */
module SignalVectorModels {
  import opened Options
  import opened TableSpec
  import opened SignalVectors

  class SignalVectorModel<T(!new), C> {
    const codec: Codec<T, C>
    const vector: SignalVector<T>
    var rows: seq<Row<T, C>>

    ghost predicate Valid()
      reads this, vector
    {
      vector.Valid() && codec.Lawful() && Agree(codec, Model())
    }

    ghost function Model(): State<T, C>
      reads this, vector
    {
      State(vector.items, rows)
    }

    /** `initialize`: a row for every item already in the vector. */
    constructor (codec: Codec<T, C>, vector: SignalVector<T>)
      requires codec.Lawful() && vector.Valid()
      ensures Valid() && this.codec == codec && this.vector == vector
      ensures Model() == Initial(codec, vector.items)
    {
      this.codec, this.vector, rows := codec, vector, [];
      new;
      for i := 0 to |vector.items|
        invariant rows == Initial(codec, vector.items[..i]).rows
      {
        InsertsAtEnd(codec, vector.items[..i]);
        ItemInserted(ItemEvent(vector.items[i], i, false));
      }
      assert vector.items[..|vector.items|] == vector.items;
      InitialAgrees(codec, vector.items);
    }

    static lemma InsertsAtEnd(codec: Codec<T, C>, items: seq<T>)
      ensures ModelIndex(Initial(codec, items).rows, |items|) == |items|
    {
      var rows := Initial(codec, items).rows;
      AllItemRows(rows);
      ModelIndexFinds(rows, |items|);
    }

    method GetVectorIndexFromModelIndex(modelIndex: int) returns (i: nat)
      ensures i == VectorIndex(rows, modelIndex)
    {
      var index := modelIndex;
      i := 0;
      for m := 0 to |rows|
        invariant i == |ItemRows(rows[..m])|
        invariant index == modelIndex - (m - i)
        invariant 0 <= modelIndex < m ==> rows[modelIndex].isCustom
      {
        OneMoreRow(rows, m);
        if rows[m].isCustom {
          index := index - 1;
          continue;
        }
        if i == index {
          return i;
        }
        i := i + 1;
      }
      assert rows[..|rows|] == rows;
    }

    method GetModelIndexFromVectorIndex(vectorIndex: nat) returns (modelIndex: nat)
      ensures modelIndex == ModelIndex(rows, vectorIndex)
    {
      var v := vectorIndex;
      modelIndex := 0;
      for m := 0 to |rows|
        invariant modelIndex == m
        invariant v == vectorIndex + m - |ItemRows(rows[..m])|
        invariant |ItemRows(rows[..m])| <= vectorIndex
      {
        OneMoreRow(rows, m);
        if rows[m].isCustom {
          v := v + 1;
        }
        if modelIndex == v {
          ModelIndexUnique(rows, m);
          return modelIndex;
        }
        modelIndex := modelIndex + 1;
      }
      assert rows[..|rows|] == rows;
      ModelIndexFinds(rows, vectorIndex);
    }

    /** The listener for inserted items. */
    method ItemInserted(args: ItemEvent<T>)
      modifies this`rows
      ensures rows == if args.callerIsModel then old(rows)
        else InsertAt(old(rows), ModelIndex(old(rows), args.index), FreshRow(codec, args.item))
    {
      if args.callerIsModel { return; }
      var index := GetModelIndexFromVectorIndex(args.index);
      var row := codec.toRow(args.item);
      rows := rows[..index] + [Row(row, Some(args.item), false)] + rows[index..];
    }

    /** The listener for removed items. */
    method ItemRemoved(args: ItemEvent<T>)
      requires args.callerIsModel || ModelIndex(rows, args.index) < |rows|
      modifies this`rows
      ensures rows == if args.callerIsModel then old(rows)
        else TableSpec.RemoveAt(old(rows), ModelIndex(old(rows), args.index))
    {
      if args.callerIsModel { return; }
      var row := GetModelIndexFromVectorIndex(args.index);
      rows := rows[..row] + rows[row + 1..];
    }

    /** Somebody else inserts into the vector. */
    method VectorInserted(item: T, index: int)
      requires Valid() && Enabled(codec.columns, Model(), VectorInsert(item, index))
      modifies this`rows, vector
      ensures Valid() && Model() == Step(codec, old(Model()), VectorInsert(item, index))
    {
      StepAgrees(codec, Model(), VectorInsert(item, index));
      var event := vector.Insert(item, index, false);
      ItemInserted(event);
    }

    /** Somebody else removes from the vector. */
    method VectorRemoved(index: nat)
      requires Valid() && Enabled(codec.columns, Model(), VectorRemove(index))
      modifies this`rows, vector
      ensures Valid() && Model() == Step(codec, old(Model()), VectorRemove(index))
    {
      StepAgrees(codec, Model(), VectorRemove(index));
      ModelIndexFinds(rows, index);
      var event := vector.RemoveAt(index, false);
      ItemRemoved(event);
    }

    method SetData(row: int, column: int, value: C) returns (ok: bool)
      requires Valid()
      modifies this`rows, vector
      ensures Valid() && Model() == Step(codec, old(Model()), SetCell(row, column, value))
      ensures ok <==> 0 <= row < |old(rows)| && 0 <= column < codec.columns
    {
      StepAgrees(codec, Model(), SetCell(row, column, value));
      if row < 0 || column < 0 || row >= |rows| || column >= codec.columns { return false; }
      ghost var before := rows;
      var rowItem := rows[row].(cells := rows[row].cells[column := value]);
      rows := rows[row := rowItem];
      if !rowItem.isCustom {
        EditedItemRow(before, row, rowItem);
        assert VectorIndex(rows, row) == VectorIndex(before, row) by {
          assert rows[..row] == before[..row];
        }
        WriteBack(row);
      }
      return true;
    }

    /** Puts an edited row's item back into the vector, removing the old one first. The events
        carry the model as their caller, so the rows stay as they are. */
    method WriteBack(row: nat)
      requires vector.Valid() && row < |rows| && VectorIndex(rows, row) < |vector.items|
      requires !rows[row].isCustom && rows[row].original.Some?
      modifies this`rows, vector
      ensures vector.Valid() && rows == old(rows)
      ensures vector.items == old(vector.items)[VectorIndex(rows, row) := Decode(codec, rows[row])]
    {
      var vecRow := GetVectorIndexFromModelIndex(row);
      ghost var items := vector.items;
      var removed := vector.RemoveAt(vecRow, true);
      ItemRemoved(removed);
      var item := codec.fromRow(rows[row].cells, rows[row].original.value);
      var inserted := vector.Insert(item, vecRow, true);
      ItemInserted(inserted);
      assert vector.items == items[vecRow := item];
    }

    method DeleteRow(row: int)
      requires Valid() && Enabled(codec.columns, Model(), Op.DeleteRow(row))
      modifies this`rows, vector
      ensures Valid() && Model() == Step(codec, old(Model()), Op.DeleteRow(row))
    {
      StepAgrees(codec, Model(), Op.DeleteRow(row));
      var signalVectorRow := GetVectorIndexFromModelIndex(row);
      ModelIndexFinds(rows, signalVectorRow);
      var event := vector.RemoveAt(signalVectorRow, false);
      ItemRemoved(event);
    }

    method RemoveRows(row: int, count: int) returns (ok: bool)
      requires Valid() && (count == 1 ==> Enabled(codec.columns, Model(), Op.DeleteRow(row)))
      modifies this`rows, vector
      ensures Valid() && (ok <==> count == 1)
      ensures Model() == if ok then Step(codec, old(Model()), Op.DeleteRow(row)) else old(Model())
    {
      if count != 1 { return false; }
      DeleteRow(row);
      return true;
    }

    method MoveRows(sourceRow: int, count: int, destinationChild: int) returns (ok: bool)
      requires Valid() && (count == 1 ==> Enabled(codec.columns, Model(), MoveRow(sourceRow, destinationChild)))
      modifies this`rows, vector
      ensures Valid() && (ok <==> count == 1)
      ensures Model() == if ok then Step(codec, old(Model()), MoveRow(sourceRow, destinationChild)) else old(Model())
    {
      if count != 1 { return false; }
      StepAgrees(codec, Model(), MoveRow(sourceRow, destinationChild));
      ghost var before := Model();
      var signalVectorRow := GetVectorIndexFromModelIndex(sourceRow);
      SourceDecodes(codec, before, sourceRow);
      var item := codec.fromRow(rows[sourceRow].cells, rows[sourceRow].original.value);
      RemoveAgrees(codec, before, signalVectorRow);
      var removed := vector.RemoveAt(signalVectorRow, false);
      ItemRemoved(removed);
      assert Model() == Removed(before, signalVectorRow);
      InsertBack(item, destinationChild);
      return true;
    }

    /** Inserts the moved item where the destination row now is. */
    method InsertBack(item: T, destinationChild: int)
      requires vector.Valid() && Agree(codec, Model())
      modifies this`rows, vector
      ensures vector.Valid()
      ensures Model() == Inserted(codec, old(Model()), item, VectorIndex(old(rows), destinationChild))
    {
      var destination := GetVectorIndexFromModelIndex(destinationChild);
      var inserted := vector.Insert(item, destination, false);
      ItemInserted(inserted);
    }

    static lemma SourceDecodes(codec: Codec<T, C>, s: State<T, C>, row: int)
      requires Agree(codec, s) && 0 <= row < |s.rows| && VectorIndex(s.rows, row) < |s.items|
      ensures s.rows[row].original.Some? && Decode(codec, s.rows[row]) == s.items[VectorIndex(s.rows, row)]
    {
      RowsSplit(s.rows, row);
    }

    method InsertCustomRow(row: seq<C>, index: nat)
      requires Valid() && Enabled(codec.columns, Model(), InsertCustom(row, index))
      modifies this`rows
      ensures Valid() && Model() == Step(codec, old(Model()), InsertCustom(row, index))
    {
      StepAgrees(codec, Model(), InsertCustom(row, index));
      rows := rows[..index] + [Row(row, None, true)] + rows[index..];
    }

    method RemoveCustomRow(index: nat)
      requires Valid() && Enabled(codec.columns, Model(), RemoveCustom(index))
      modifies this`rows
      ensures Valid() && Model() == Step(codec, old(Model()), RemoveCustom(index))
    {
      StepAgrees(codec, Model(), RemoveCustom(index));
      rows := rows[..index] + rows[index + 1..];
    }
  }
}
