/** What each operation of the table model does to the items and the rows, told by counting the
    item rows above a place and not through the index translations. */
module TableLaws {
  import opened Options
  import opened Sequences
  import opened TableSpec

  /** How many vector items have their row above `m`. */
  function Above<T, C>(rows: seq<Row<T, C>>, m: nat): nat
    requires m <= |rows|
  {
    |ItemRows(rows[..m])|
  }

  /** The place of the v-th item row, or the end of the table behind all item rows. */
  predicate PlaceOf<T, C>(rows: seq<Row<T, C>>, v: nat, p: nat) {
    p <= |rows| && Above(rows, p) == v && (p < |rows| ==> !rows[p].isCustom)
  }

  lemma PlaceIsModelIndex<T, C>(rows: seq<Row<T, C>>, v: nat, p: nat)
    requires PlaceOf(rows, v, p)
    ensures ModelIndex(rows, v) == p && v <= |ItemRows(rows)| && (p < |rows| <==> v < |ItemRows(rows)|)
  {
    if p < |rows| {
      ModelIndexUnique(rows, p);
      RowsSplit(rows, p);
    } else {
      assert rows[..p] == rows;
      ModelIndexFinds(rows, v);
    }
  }

  /** An item row has as many items above it as its vector index says. */
  lemma RowOfItem<T, C>(rows: seq<Row<T, C>>, row: nat)
    requires row < |rows| && !rows[row].isCustom
    ensures VectorIndex(rows, row) == Above(rows, row) < |ItemRows(rows)| && ModelIndex(rows, Above(rows, row)) == row
  {
    RowsSplit(rows, row);
    ModelIndexUnique(rows, row);
  }

  /** A row index that an operation may remove is that of an item row. */
  lemma RemovableRow<T(!new), C>(codec: Codec<T, C>, s: State<T, C>, row: int)
    requires Agree(codec, s)
    ensures 0 <= row < |s.rows| ==> (VectorIndex(s.rows, row) < |s.items| <==> !s.rows[row].isCustom)
  {
    if 0 <= row < |s.rows| && !s.rows[row].isCustom {
      RowOfItem(s.rows, row);
    }
  }

  /** Somebody inserts an item: it becomes item v, and a fresh row for it appears where the row of
      the former item v was, or at the end. */
  lemma InsertLaw<T(!new), C>(codec: Codec<T, C>, s: State<T, C>, item: T, index: int, p: nat)
    requires Agree(codec, s) && -1 <= index <= |s.items|
    requires PlaceOf(s.rows, if index == -1 then |s.items| else index, p)
    ensures var v := if index == -1 then |s.items| else index;
      Step(codec, s, VectorInsert(item, index)) == State(
        s.items[..v] + [item] + s.items[v..],
        s.rows[..p] + [Row(codec.toRow(item), Some(item), false)] + s.rows[p..])
  {
    PlaceIsModelIndex(s.rows, if index == -1 then |s.items| else index, p);
  }

  /** Somebody removes an item: its row goes, and nothing else. */
  lemma RemoveLaw<T(!new), C>(codec: Codec<T, C>, s: State<T, C>, index: nat, p: nat)
    requires Agree(codec, s) && index < |s.items| && PlaceOf(s.rows, index, p)
    ensures p < |s.rows|
    ensures Step(codec, s, VectorRemove(index)) == State(
        s.items[..index] + s.items[index + 1..], s.rows[..p] + s.rows[p + 1..])
  {
    PlaceIsModelIndex(s.rows, index, p);
  }

  /** Editing a cell changes that cell only. For an item row the item is decoded anew from the edited
      cells, and it alone changes in the vector; a custom row does not touch the vector. */
  lemma SetCellLaw<T(!new), C>(codec: Codec<T, C>, s: State<T, C>, row: int, column: int, cell: C)
    requires Agree(codec, s)
    ensures var s' := Step(codec, s, SetCell(row, column, cell));
      if row < 0 || row >= |s.rows| || column < 0 || column >= codec.columns then s' == s
      else
        var cells := s.rows[row].cells[column := cell];
        && s'.rows == s.rows[row := Row(cells, s.rows[row].original, s.rows[row].isCustom)]
        && (s.rows[row].isCustom ==> s'.items == s.items)
        && (!s.rows[row].isCustom ==>
              && Above(s.rows, row) < |s.items|
              && s'.items == s.items[Above(s.rows, row) := codec.fromRow(cells, s.rows[row].original.value)])
  {
    if 0 <= row < |s.rows| && !s.rows[row].isCustom {
      RowOfItem(s.rows, row);
    }
  }

  /** Deleting an item row removes its item and that row. */
  lemma DeleteLaw<T(!new), C>(codec: Codec<T, C>, s: State<T, C>, row: nat)
    requires Agree(codec, s) && row < |s.rows| && !s.rows[row].isCustom
    ensures var v := Above(s.rows, row);
      && v < |s.items| && Enabled(codec.columns, s, DeleteRow(row))
      && Step(codec, s, DeleteRow(row))
         == State(s.items[..v] + s.items[v + 1..], s.rows[..row] + s.rows[row + 1..])
  {
    RowOfItem(s.rows, row);
  }

  /** Moving an item row. Once its row is gone, the destination is the item row now at that index, or
      else the end: the item goes in front of that row's item, a fresh row for it goes in front of
      that row, and everything else keeps its order. */
  lemma MoveLaw<T(!new), C>(codec: Codec<T, C>, s: State<T, C>, source: nat, destination: int)
    requires Agree(codec, s) && source < |s.rows| && !s.rows[source].isCustom
    ensures var v := Above(s.rows, source);
      && v < |s.items| && Enabled(codec.columns, s, MoveRow(source, destination))
      && var item, items := s.items[v], s.items[..v] + s.items[v + 1..];
      var rows := s.rows[..source] + s.rows[source + 1..];
      var p := if 0 <= destination < |rows| && !rows[destination].isCustom then destination else |rows|;
      var d := Above(rows, p);
      && d <= |items|
      && Step(codec, s, MoveRow(source, destination)) == State(
           items[..d] + [item] + items[d..],
           rows[..p] + [Row(codec.toRow(item), Some(item), false)] + rows[p..])
  {
    RowOfItem(s.rows, source);
    var v := Above(s.rows, source);
    var s' := Removed(s, v);
    RemoveAgrees(codec, s, v);
    DestinationMeans(s'.rows, destination);
  }

  lemma DestinationMeans<T, C>(rows: seq<Row<T, C>>, destination: int)
    ensures var p := if 0 <= destination < |rows| && !rows[destination].isCustom then destination else |rows|;
      VectorIndex(rows, destination) == Above(rows, p) <= |ItemRows(rows)| && ModelIndex(rows, Above(rows, p)) == p
  {
    if 0 <= destination < |rows| && !rows[destination].isCustom {
      RowOfItem(rows, destination);
    } else {
      assert rows[..|rows|] == rows;
      ModelIndexFinds(rows, |ItemRows(rows)|);
    }
  }

  /** In a table of two item rows, dragging the first behind the second swaps the items, and
      dragging it to its own place leaves them. */
  lemma MoveOfTwo<T(!new), C>(codec: Codec<T, C>, s: State<T, C>)
    requires Agree(codec, s) && |s.rows| == 2 && !s.rows[0].isCustom && !s.rows[1].isCustom
    ensures |s.items| == 2 && Enabled(codec.columns, s, MoveRow(0, 1)) && Enabled(codec.columns, s, MoveRow(0, 0))
    ensures Step(codec, s, MoveRow(0, 1)).items == [s.items[1], s.items[0]]
    ensures Step(codec, s, MoveRow(0, 0)).items == s.items
  {
    RowsSplit(s.rows, 0);
    RowsSplit(s.rows[1..], 0);
    MoveLaw(codec, s, 0, 1);
    MoveLaw(codec, s, 0, 0);
  }

  /** Custom rows come and go without touching the vector or another row. */
  lemma CustomLaw<T(!new), C>(codec: Codec<T, C>, s: State<T, C>, cells: seq<C>, index: nat)
    requires Agree(codec, s)
    ensures index <= |s.rows| && |cells| == codec.columns ==>
      Step(codec, s, InsertCustom(cells, index)) ==
      State(s.items, s.rows[..index] + [Row(cells, None, true)] + s.rows[index..])
    ensures index < |s.rows| && s.rows[index].isCustom ==>
      Step(codec, s, RemoveCustom(index)) == State(s.items, s.rows[..index] + s.rows[index + 1..])
  {
  }
}
