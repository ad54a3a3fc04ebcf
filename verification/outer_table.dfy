/** The outer-join view: a virtual table over base tables whose first
    `outerRowCount` rows are synthetic outer rows, followed by the inner rows
    of the joined table. */
module Outer {
  import opened Wrappers
  import opened Cells

  /** A base table reached by row-domain flattening: identity, column count
      and cells `data[row][column]`. */
  datatype Source = Source(id: TableId, columnCount: nat, data: seq<seq<Cell>>)

  /** One entry of `RawTableInformation`: a base table and a row-id list. */
  datatype RawEntry = RawEntry(table: Source, rows: seq<nat>)

  datatype OuterError =
    | NothingToMerge       // `rows[0]` of an empty flattening
    | WrongSize            // a merged row list differs from the outer row count
    | OutOfRange           // an index outside a row list or a table

  /** `refs`/`rowList`/`columnTable`/`columnFilter` are the state inherited
      from the virtual table; `outerRows[t]` is `None` when base table `t`
      has no match in the merged table. */
  datatype OuterTable = OuterTable(
    self: TableId,
    refs: seq<Source>,
    rowList: seq<seq<nat>>,
    columnTable: seq<nat>,
    columnFilter: seq<nat>,
    outerRows: seq<Option<seq<nat>>>,
    outerRowCount: nat,
    schemes: seq<Option<Scheme>>)

  /** The shape every constructed outer table keeps. */
  predicate WellFormed(t: OuterTable)
  {
    && |t.rowList| == |t.refs| == |t.outerRows|
    && |t.columnFilter| == |t.columnTable| == |t.schemes|
    && (forall c :: 0 <= c < |t.columnTable| ==> t.columnTable[c] < |t.refs|)
    && (forall i :: 0 <= i < |t.outerRows| && t.outerRows[i].Some? ==> |t.outerRows[i].value| == t.outerRowCount)
  }

  /** The column layout of a virtual table over `sources`: the columns of each
      base table in turn, each mapped to (its table, its column there). */
  function ColumnTable(sources: seq<Source>): (r: seq<nat>)
    ensures forall c :: 0 <= c < |r| ==> r[c] < |sources|
  {
    if |sources| == 0 then []
    else
      var n := |sources| - 1;
      ColumnTable(sources[..n]) + seq(sources[n].columnCount, _ => n)
  }

  function ColumnFilter(sources: seq<Source>): (r: seq<nat>)
    ensures |r| == |ColumnTable(sources)|
  {
    if |sources| == 0 then []
    else
      var n := |sources| - 1;
      ColumnFilter(sources[..n]) + Range(sources[n].columnCount)
  }

  function Tables(raw: seq<RawEntry>): (r: seq<Source>)
    ensures |r| == |raw| && forall i :: 0 <= i < |raw| ==> r[i] == raw[i].table
  {
    seq(|raw|, i requires 0 <= i < |raw| => raw[i].table)
  }

  function Rows(raw: seq<RawEntry>): (r: seq<seq<nat>>)
    ensures |r| == |raw| && forall i :: 0 <= i < |raw| ==> r[i] == raw[i].rows
  {
    seq(|raw|, i requires 0 <= i < |raw| => raw[i].rows)
  }

  /** The constructor: the input table flattened to `raw`, with one outer-row
      slot per base segment, all empty, and no outer rows yet. */
  function NewOuterTable(self: TableId, raw: seq<RawEntry>): (t: OuterTable)
    ensures WellFormed(t)
    ensures |t.outerRows| == |raw| && forall i :: 0 <= i < |raw| ==> t.outerRows[i].None?
    ensures t.outerRowCount == 0 && t.refs == Tables(raw) && t.rowList == Rows(raw)
    ensures (forall i :: 0 <= i < |raw| ==> |raw[i].rows| == |raw[0].rows|) ==> RowListsAligned(t)
  {
    var tables := Tables(raw);
    var columns := ColumnTable(tables);
    OuterTable(self, tables, Rows(raw), columns, ColumnFilter(tables),
               seq(|raw|, _ => None), 0, seq(|columns|, _ => None))
  }

  /** The first position of base table `id` in a flattening, by identity. */
  function FirstMatch(raw: seq<RawEntry>, id: TableId): (r: Option<nat>)
    ensures r.None? ==> forall n :: 0 <= n < |raw| ==> raw[n].table.id != id
    ensures r.Some? ==> r.value < |raw| && raw[r.value].table.id == id
    ensures r.Some? ==> forall n :: 0 <= n < r.value ==> raw[n].table.id != id
  {
    if |raw| == 0 then None
    else if raw[0].table.id == id then Some(0)
    else
      match FirstMatch(raw[1..], id)
      case None => None
      case Some(n) => Some(n + 1)
  }

  /** The outer-row slot that `mergeIn` gives one base table. */
  function MergedSlot(raw: seq<RawEntry>, id: TableId): Option<seq<nat>>
  {
    match FirstMatch(raw, id)
    case None => None
    case Some(n) => Some(raw[n].rows)
  }

  /** The slot loop of `mergeIn` over the base tables: missing tables get
      `None`, present ones a copy of their merged row list, which must have
      `count` entries. */
  function MergeSlots(refs: seq<Source>, raw: seq<RawEntry>, count: nat): (r: Result<seq<Option<seq<nat>>>, OuterError>)
    ensures r.Ok? <==> forall i :: 0 <= i < |refs| && MergedSlot(raw, refs[i].id).Some? ==>
                         |MergedSlot(raw, refs[i].id).value| == count
    ensures r.Ok? ==> |r.value| == |refs| && forall i :: 0 <= i < |refs| ==> r.value[i] == MergedSlot(raw, refs[i].id)
    ensures r.Err? ==> r.error == WrongSize
  {
    if |refs| == 0 then Ok([])
    else
      var n := |refs| - 1;
      var prev :- MergeSlots(refs[..n], raw, count);
      var slot := MergedSlot(raw, refs[n].id);
      if slot.Some? && |slot.value| != count then Err(WrongSize)
      else Ok(prev + [slot])
  }

  /** `mergeIn(outside_table)`, given the flattening of the outside table.
      The outer row count becomes the length of the first merged segment. */
  function MergeIn(t: OuterTable, raw: seq<RawEntry>): (r: Result<OuterTable, OuterError>)
    requires WellFormed(t)
    ensures |raw| == 0 ==> r == Err(NothingToMerge)
    ensures r.Ok? ==> WellFormed(r.value)
    ensures r.Ok? ==> r.value == t.(outerRows := r.value.outerRows, outerRowCount := |raw[0].rows|)
    ensures r.Ok? ==> forall i :: 0 <= i < |t.refs| ==> r.value.outerRows[i] == MergedSlot(raw, t.refs[i].id)
    ensures |raw| > 0 ==> (r.Err? <==> exists i :: 0 <= i < |t.refs| && MergedSlot(raw, t.refs[i].id).Some? &&
                                        |MergedSlot(raw, t.refs[i].id).value| != |raw[0].rows|)
  {
    if |raw| == 0 then Err(NothingToMerge)
    else
      var count := |raw[0].rows|;
      var slots :- MergeSlots(t.refs, raw, count);
      Ok(t.(outerRows := slots, outerRowCount := count))
  }

  /** The inner row count of the underlying virtual table. */
  function InnerRowCount(t: OuterTable): nat
  {
    if |t.rowList| == 0 then 0 else |t.rowList[0]|
  }

  /** `getRowCount`: inner rows plus outer rows. */
  function RowCount(t: OuterTable): (r: nat)
    ensures r >= t.outerRowCount
  {
    InnerRowCount(t) + t.outerRowCount
  }

  /** The virtual table's row lists all have its row count as length. */
  predicate RowListsAligned(t: OuterTable)
  {
    forall i :: 0 <= i < |t.rowList| ==> |t.rowList[i]| == InnerRowCount(t)
  }

  function ReadSource(s: Source, column: nat, row: nat): Result<Cell, OuterError>
  {
    if row < |s.data| && column < |s.data[row]| then Ok(s.data[row][column]) else Err(OutOfRange)
  }

  /** Where `getCellContents` / `compareCellTo` look for a cell: a synthetic
      NULL, or a row of the owning base table. */
  datatype Target = NullCell | BaseRow(table: nat, row: nat)

  /** The row classification shared by both readers: rows at or above the
      outer row count are inner rows, offset by it; rows below it come from
      the outer-row slot of the column's base table. */
  function Resolve(t: OuterTable, column: nat, row: nat): (r: Result<Target, OuterError>)
    requires WellFormed(t)
    ensures r.Ok? ==> column < |t.columnTable|
    ensures r.Ok? && r.value.BaseRow? ==> r.value.table == t.columnTable[column]
    ensures column < |t.columnTable| && row >= t.outerRowCount ==>
      (r.Ok? <==> row - t.outerRowCount < |t.rowList[t.columnTable[column]]|)
    ensures r.Ok? && row >= t.outerRowCount ==>
      r.value == BaseRow(t.columnTable[column], t.rowList[t.columnTable[column]][row - t.outerRowCount])
    ensures column < |t.columnTable| && row < t.outerRowCount ==>
      (r == Ok(NullCell) <==> t.outerRows[t.columnTable[column]].None?)
    ensures column < |t.columnTable| && row < t.outerRowCount && t.outerRows[t.columnTable[column]].Some? ==>
      r == Ok(BaseRow(t.columnTable[column], t.outerRows[t.columnTable[column]].value[row]))
  {
    if column >= |t.columnTable| then Err(OutOfRange)
    else
      var tn := t.columnTable[column];
      if row >= t.outerRowCount then
        var inner := row - t.outerRowCount;
        if inner < |t.rowList[tn]| then Ok(BaseRow(tn, t.rowList[tn][inner])) else Err(OutOfRange)
      else
        match t.outerRows[tn]
        case None => Ok(NullCell)
        case Some(list) => Ok(BaseRow(tn, list[row]))
  }

  /** `getCellContents(column, row)`: a row at or above the outer row count
      is an inner row, read from the column's base table through its row
      list; a row below it reads NULL when that base table had no match,
      and otherwise the base table's merged row. */
  function GetCellContents(t: OuterTable, column: nat, row: nat): (r: Result<Cell, OuterError>)
    requires WellFormed(t)
    ensures column >= |t.columnTable| ==> r == Err(OutOfRange)
    ensures column < |t.columnTable| && row >= t.outerRowCount ==>
      var tn := t.columnTable[column];
      if row - t.outerRowCount < |t.rowList[tn]|
      then r == ReadSource(t.refs[tn], t.columnFilter[column], t.rowList[tn][row - t.outerRowCount])
      else r == Err(OutOfRange)
    ensures column < |t.columnTable| && row < t.outerRowCount ==>
      var tn := t.columnTable[column];
      if t.outerRows[tn].None? then r == Ok(None)
      else r == ReadSource(t.refs[tn], t.columnFilter[column], t.outerRows[tn].value[row])
  {
    var target :- Resolve(t, column, row);
    match target
    case NullCell => Ok(None)
    case BaseRow(tn, r) => ReadSource(t.refs[tn], t.columnFilter[column], r)
  }

  /** `compareCellTo(ob, column, row)`: on a synthetic NULL cell the answer is
      EQUAL for a NULL probe and GREATER_THAN for any other; elsewhere the
      owning base table compares its cell. */
  function CompareCellTo(t: OuterTable, ob: Cell, column: nat, row: nat): (r: Result<Ordering, OuterError>)
    requires WellFormed(t)
    ensures Resolve(t, column, row) == Ok(NullCell) ==> r == Ok(if ob.None? then Equal else Greater)
  {
    var target :- Resolve(t, column, row);
    match target
    case NullCell => if ob.None? then Ok(Equal) else Ok(Greater)
    case BaseRow(tn, r) =>
      var cell :- ReadSource(t.refs[tn], t.columnFilter[column], r);
      Ok(CompareCells(cell, ob))
  }

  /** The special case for synthetic NULL cells is the engine's general NULL
      ordering: every comparison equals comparing the cell that
      `GetCellContents` returns. */
  lemma CompareAgreesWithContents(t: OuterTable, ob: Cell, column: nat, row: nat)
    requires WellFormed(t)
    ensures CompareCellTo(t, ob, column, row).Ok? <==> GetCellContents(t, column, row).Ok?
    ensures GetCellContents(t, column, row).Ok? ==>
      CompareCellTo(t, ob, column, row).value == CompareCells(GetCellContents(t, column, row).value, ob)
  {
  }

  /** Every row below the row count is addressable in every column, and no
      row from the row count on is: the outer rows come first, then the
      inner ones. */
  lemma RowsBelowRowCount(t: OuterTable, column: nat, row: nat)
    requires WellFormed(t) && RowListsAligned(t) && column < |t.columnTable|
    ensures Resolve(t, column, row).Ok? <==> row < RowCount(t)
  {
  }

  /** After a merge, every synthetic row of a base table that was absent from
      the merged table reads as NULL in each of its columns. */
  lemma UnmatchedTableReadsNull(t: OuterTable, raw: seq<RawEntry>, column: nat, row: nat)
    requires WellFormed(t) && MergeIn(t, raw).Ok?
    requires column < |t.columnTable| && row < |raw[0].rows|
    requires FirstMatch(raw, t.refs[t.columnTable[column]].id).None?
    ensures GetCellContents(MergeIn(t, raw).value, column, row) == Ok(None)
  {
  }

  /** After a merge, a synthetic row of a matched base table reads that
      table at the merged row id. */
  lemma MatchedTableReadsMergedRow(t: OuterTable, raw: seq<RawEntry>, column: nat, row: nat)
    requires WellFormed(t) && MergeIn(t, raw).Ok?
    requires column < |t.columnTable| && row < |raw[0].rows|
    requires FirstMatch(raw, t.refs[t.columnTable[column]].id).Some?
    ensures var n := FirstMatch(raw, t.refs[t.columnTable[column]].id).value;
            GetCellContents(MergeIn(t, raw).value, column, row)
            == ReadSource(t.refs[t.columnTable[column]], t.columnFilter[column], raw[n].rows[row])
  {
  }

  /** Merging into a fresh outer table pushes every inner row down by the
      outer row count: row `k` of the fresh table is row `k + count` of the
      merged one, for every column. */
  lemma MergeInShiftsInnerRows(t: OuterTable, raw: seq<RawEntry>, column: nat, k: nat)
    requires WellFormed(t) && t.outerRowCount == 0 && MergeIn(t, raw).Ok?
    ensures RowCount(MergeIn(t, raw).value) == RowCount(t) + |raw[0].rows|
    ensures GetCellContents(MergeIn(t, raw).value, column, k + |raw[0].rows|) == GetCellContents(t, column, k)
  {
  }

  /** `getSelectableSchemeFor`: on first request the column's scheme is a
      blind search over this table projected onto itself, and is cached; a
      request for this table returns the cached scheme, any other table a
      projection of it. */
  function GetSelectableSchemeFor(t: OuterTable, column: nat, originalColumn: nat, table: TableId)
    : (r: (Scheme, OuterTable))
    requires column < |t.schemes|
    ensures r.1 == t.(schemes := r.1.schemes) && |r.1.schemes| == |t.schemes|
    ensures forall k :: 0 <= k < |t.schemes| && k != column ==> r.1.schemes[k] == t.schemes[k]
    ensures t.schemes[column].Some? ==> r.1.schemes == t.schemes
    ensures t.schemes[column].None? ==>
      r.1.schemes[column] == Some(SubsetScheme(BlindScheme(t.self, column), t.self, column))
    ensures table == t.self ==> r.0 == r.1.schemes[column].value
    ensures table != t.self ==> r.0 == SubsetScheme(r.1.schemes[column].value, table, originalColumn)
  {
    var cached :=
      if t.schemes[column].Some? then t.schemes[column].value
      else SubsetScheme(BlindScheme(t.self, column), t.self, column);
    var t' := t.(schemes := t.schemes[column := Some(cached)]);
    if table == t.self then (cached, t') else (SubsetScheme(cached, table, originalColumn), t')
  }

  /** `typeEquals`: reference identity. */
  predicate TypeEquals(t: OuterTable, other: TableId)
  {
    t.self == other
  }

  /** The identity test decides which scheme a request receives: the
      cached one itself exactly for this very table, a projection for any
      other. */
  lemma OwnSchemeExactlyForItself(t: OuterTable, column: nat, originalColumn: nat, table: TableId)
    requires column < |t.schemes|
    ensures var (scheme, t') := GetSelectableSchemeFor(t, column, originalColumn, table);
      TypeEquals(t, table) <==> scheme == t'.schemes[column].value
  {
  }
}
