/** The composite (set-operator) view: the concatenation of the row sets of
    several tables of the same shape, as built for UNION. */
module Composite {
  import opened Wrappers
  import opened Cells

  /** A contributing table: its identity and its cells, `data[row][column]`. */
  datatype Part = Part(id: TableId, data: seq<seq<Cell>>)

  /** The composite function codes of `CompositeTable`. */
  const UNION: int := 1
  const INTERSECT: int := 2
  const EXCEPT: int := 3

  datatype CompositeError =
    | EmptyCompositeList          // the one-argument constructor reads element 0
    | UnrecognisedFunction        // any function other than UNION
    | Pending                     // duplicate removal is an unimplemented stub
    | RowOutOfBounds(remaining: nat)   // carries the row left after the segment walk
    | ComponentOutOfRange         // a contributing table rejected the read
    | IncorrectAncestor

  /** A composite that has been set up: `indexes[i]` lists the rows of
      `parts[i]` that belong to the view, and `schemes` caches one index per
      column of the master table. */
  datatype CompositeTable = CompositeTable(
    self: TableId,
    master: TableId,
    parts: seq<Part>,
    indexes: seq<seq<nat>>,
    schemes: seq<Option<Scheme>>,
    rootsLocked: int)

  /** `setupIndexesForCompositeFunction` applied to a freshly constructed
      composite: for UNION each segment is the whole of its table (`selectAll`);
      without ALL the duplicate removal stub fails; any other function is refused. */
  function SetupIndexes(parts: seq<Part>, op: int, all: bool): (r: Result<seq<seq<nat>>, CompositeError>)
    ensures op != UNION ==> r == Err(UnrecognisedFunction)
    ensures op == UNION && !all ==> r == Err(Pending)
    ensures r.Ok? ==> |r.value| == |parts|
    ensures r.Ok? ==> forall i :: 0 <= i < |parts| ==> r.value[i] == Range(|parts[i].data|)
  {
    if op == UNION then
      var indexes := seq(|parts|, i requires 0 <= i < |parts| => Range(|parts[i].data|));
      if !all then Err(Pending) else Ok(indexes)
    else Err(UnrecognisedFunction)
  }

  /** The constructor taking an explicit master table, followed by the setup. */
  function NewComposite(self: TableId, master: TableId, columnCount: nat, parts: seq<Part>, op: int, all: bool)
    : (r: Result<CompositeTable, CompositeError>)
    ensures r.Ok? <==> op == UNION && all
    ensures r.Ok? ==> r.value.parts == parts && |r.value.indexes| == |parts|
    ensures r.Ok? ==> r.value.rootsLocked == 0 && |r.value.schemes| == columnCount
    ensures r.Ok? ==> forall c :: 0 <= c < columnCount ==> r.value.schemes[c].None?
  {
    var indexes :- SetupIndexes(parts, op, all);
    Ok(CompositeTable(self, master, parts, indexes, seq(columnCount, _ => None), 0))
  }

  /** The constructor that takes the first table of the list as the master. */
  function NewCompositeFromList(self: TableId, columnCount: nat, parts: seq<Part>, op: int, all: bool)
    : (r: Result<CompositeTable, CompositeError>)
    ensures |parts| == 0 ==> r == Err(EmptyCompositeList)
    ensures r.Ok? ==> r.value.master == parts[0].id
  {
    if |parts| == 0 then Err(EmptyCompositeList)
    else NewComposite(self, parts[0].id, columnCount, parts, op, all)
  }

  /** The logical rows of a composite in order: for each one, the segment
      that holds it and the row id of that segment's table. */
  function Entries(indexes: seq<seq<nat>>): (r: seq<(nat, nat)>)
    ensures forall k :: 0 <= k < |r| ==> r[k].0 < |indexes|
  {
    if |indexes| == 0 then []
    else
      var n := |indexes| - 1;
      Entries(indexes[..n]) + seq(|indexes[n]|, k requires 0 <= k < |indexes[n]| => (n, indexes[n][k]))
  }

  /** `getRowCount`: the sum of the segment lengths, which is the number of
      logical rows the segments line up. */
  function RowCount(c: CompositeTable): (r: nat)
    ensures r == |Entries(c.indexes)|
  {
    EntriesLength(c.indexes);
    SumLengths(c.indexes)
  }

  lemma {:induction false} EntriesLength(indexes: seq<seq<nat>>)
    ensures |Entries(indexes)| == SumLengths(indexes)
  {
    if |indexes| > 0 {
      EntriesLength(indexes[..|indexes| - 1]);
    }
  }

  /** Position `k` of segment `i` is logical row `SumLengths(indexes[..i]) + k`. */
  lemma {:induction false} EntriesAt(indexes: seq<seq<nat>>, i: nat, k: nat)
    requires i < |indexes| && k < |indexes[i]|
    ensures SumLengths(indexes[..i]) + k < |Entries(indexes)|
    ensures Entries(indexes)[SumLengths(indexes[..i]) + k] == (i, indexes[i][k])
  {
    var n := |indexes| - 1;
    var init := indexes[..n];
    EntriesLength(init);
    if i == n {
      assert indexes[..i] == init;
    } else {
      assert init[i] == indexes[i];
      assert init[..i] == indexes[..i];
      EntriesAt(init, i, k);
    }
  }

  lemma SumLengthsStep(segs: seq<seq<nat>>, k: nat)
    requires k < |segs|
    ensures SumLengths(segs[..k + 1]) == SumLengths(segs[..k]) + |segs[k]|
  {
    assert segs[..k + 1][..k] == segs[..k];
  }

  lemma {:induction false} SumLengthsPrefixMonotone(segs: seq<seq<nat>>, a: nat, b: nat)
    requires a <= b <= |segs|
    ensures SumLengths(segs[..a]) <= SumLengths(segs[..b])
    decreases b - a
  {
    if a < b {
      SumLengthsPrefixMonotone(segs, a, b - 1);
      assert segs[..b][..b - 1] == segs[..b - 1];
    }
  }

  /** Where a logical row lives: the segment that holds it, the position
      within that segment, and the row id of the segment's table found there. */
  datatype Address = Address(segment: nat, offset: nat, row: nat)

  /** The segment walk of `getCellContents` / `compareCellTo`, continued from
      segment `i` with `row` logical rows still to skip. */
  function LocateFrom(indexes: seq<seq<nat>>, i: nat, row: nat): (r: Result<Address, CompositeError>)
    requires i <= |indexes|
    ensures r.Ok? <==> SumLengths(indexes[..i]) + row < SumLengths(indexes)
    ensures r.Err? ==> r.error.RowOutOfBounds?
    ensures r.Ok? ==>
      && i <= r.value.segment < |indexes|
      && r.value.offset < |indexes[r.value.segment]|
      && SumLengths(indexes[..r.value.segment]) + r.value.offset == SumLengths(indexes[..i]) + row
      && r.value.row == indexes[r.value.segment][r.value.offset]
    decreases |indexes| - i
  {
    if i == |indexes| then
      assert indexes[..i] == indexes;
      Err(RowOutOfBounds(row))
    else if row < |indexes[i]| then
      assert indexes[..i + 1][..i] == indexes[..i];
      SumLengthsPrefixMonotone(indexes, i + 1, |indexes|);
      assert indexes[..|indexes|] == indexes;
      Ok(Address(i, row, indexes[i][row]))
    else
      assert indexes[..i + 1][..i] == indexes[..i];
      LocateFrom(indexes, i + 1, row - |indexes[i]|)
  }

  /** The row addressing shared by `getCellContents` and `compareCellTo`:
      a logical row below the row count lies at position `offset` of the
      segment whose cumulative start is `row - offset` (hence the first
      segment containing it); any other row is out of bounds. */
  function Locate(c: CompositeTable, row: nat): (r: Result<Address, CompositeError>)
    ensures r.Ok? <==> row < RowCount(c)
    ensures r.Err? ==> r.error.RowOutOfBounds?
    ensures r.Ok? ==>
      && r.value.segment < |c.indexes|
      && r.value.offset < |c.indexes[r.value.segment]|
      && SumLengths(c.indexes[..r.value.segment]) + r.value.offset == row
      && r.value.row == c.indexes[r.value.segment][r.value.offset]
  {
    assert c.indexes[..0] == [];
    LocateFrom(c.indexes, 0, row)
  }

  /** Reads a cell of a contributing table; an invalid address is refused by it. */
  function ReadPart(p: Part, column: nat, row: nat): Result<Cell, CompositeError>
  {
    if row < |p.data| && column < |p.data[row]| then Ok(p.data[row][column])
    else Err(ComponentOutOfRange)
  }

  /** `getCellContents(column, row)`: logical row `row` is read from the
      table and row id it lines up with; a row past the end is out of
      bounds. */
  function GetCellContents(c: CompositeTable, column: nat, row: nat): (r: Result<Cell, CompositeError>)
    requires |c.indexes| == |c.parts|
    ensures row >= RowCount(c) ==> r.Err? && r.error.RowOutOfBounds?
    ensures row < RowCount(c) ==>
      r == ReadPart(c.parts[Entries(c.indexes)[row].0], column, Entries(c.indexes)[row].1)
  {
    var a :- Locate(c, row);
    EntriesAt(c.indexes, a.segment, a.offset);
    ReadPart(c.parts[a.segment], column, a.row)
  }

  /** `compareCellTo(ob, column, row)`: the same segment walk, then the
      contributing table compares its cell with `ob`. */
  function CompareCellTo(c: CompositeTable, ob: Cell, column: nat, row: nat): (r: Result<Ordering, CompositeError>)
    requires |c.indexes| == |c.parts|
    ensures row >= RowCount(c) ==> r.Err? && r.error.RowOutOfBounds?
    ensures row < RowCount(c) ==>
      var cell := ReadPart(c.parts[Entries(c.indexes)[row].0], column, Entries(c.indexes)[row].1);
      if cell.Ok? then r == Ok(CompareCells(cell.value, ob)) else r == Err(ComponentOutOfRange)
  {
    var a :- Locate(c, row);
    EntriesAt(c.indexes, a.segment, a.offset);
    var cell :- ReadPart(c.parts[a.segment], column, a.row);
    Ok(CompareCells(cell, ob))
  }

  /** Comparing against a logical row is comparing against the cell that
      `GetCellContents` returns for it: both walk the segments identically,
      and fail identically. */
  lemma CompareUsesSameAddressing(c: CompositeTable, ob: Cell, column: nat, row: nat)
    requires |c.indexes| == |c.parts|
    ensures GetCellContents(c, column, row).Ok? <==> CompareCellTo(c, ob, column, row).Ok?
    ensures GetCellContents(c, column, row).Err? ==>
      CompareCellTo(c, ob, column, row).error == GetCellContents(c, column, row).error
    ensures GetCellContents(c, column, row).Ok? ==>
      CompareCellTo(c, ob, column, row).value == CompareCells(GetCellContents(c, column, row).value, ob)
  {
  }

  /** The UNION layout: row k of contributing table i appears exactly at
      logical row `SumLengths(indexes[..i]) + k`. */
  lemma {:induction false} UnionRowAddressing(c: CompositeTable, i: nat, k: nat, column: nat)
    requires |c.indexes| == |c.parts|
    requires forall j :: 0 <= j < |c.parts| ==> c.indexes[j] == Range(|c.parts[j].data|)
    requires i < |c.parts| && k < |c.parts[i].data|
    ensures SumLengths(c.indexes[..i]) + k < RowCount(c)
    ensures GetCellContents(c, column, SumLengths(c.indexes[..i]) + k) == ReadPart(c.parts[i], column, k)
  {
    var row := SumLengths(c.indexes[..i]) + k;
    SumLengthsStep(c.indexes, i);
    SumLengthsPrefixMonotone(c.indexes, i + 1, |c.indexes|);
    assert c.indexes[..|c.indexes|] == c.indexes;
    var a := Locate(c, row).value;
    AddressUnique(c.indexes, a.segment, a.offset, i, k);
  }

  /** A logical row has one address: two (segment, offset) pairs that name
      the same row are the same pair. */
  lemma AddressUnique(segs: seq<seq<nat>>, s1: nat, o1: nat, s2: nat, o2: nat)
    requires s1 < |segs| && o1 < |segs[s1]| && s2 < |segs| && o2 < |segs[s2]|
    requires SumLengths(segs[..s1]) + o1 == SumLengths(segs[..s2]) + o2
    ensures s1 == s2 && o1 == o2
  {
    SumLengthsStep(segs, s1);
    SumLengthsStep(segs, s2);
    if s1 < s2 {
      SumLengthsPrefixMonotone(segs, s1 + 1, s2);
    } else if s2 < s1 {
      SumLengthsPrefixMonotone(segs, s2 + 1, s1);
    }
  }

  /** `getSelectableSchemeFor(column, original_column, table)`: the column's
      scheme is a blind search over this composite, created on first request
      and cached; a request for this table returns it as is, any other table
      receives its projection into that table's row domain. */
  function GetSelectableSchemeFor(c: CompositeTable, column: nat, originalColumn: nat, table: TableId)
    : (r: (Scheme, CompositeTable))
    requires column < |c.schemes|
    ensures r.1 == c.(schemes := r.1.schemes) && |r.1.schemes| == |c.schemes|
    ensures forall k :: 0 <= k < |c.schemes| && k != column ==> r.1.schemes[k] == c.schemes[k]
    ensures c.schemes[column].Some? ==> r.1.schemes == c.schemes
    ensures c.schemes[column].None? ==> r.1.schemes[column] == Some(BlindScheme(c.self, column))
    ensures table == c.self ==> r.0 == r.1.schemes[column].value
    ensures table != c.self ==> r.0 == SubsetScheme(r.1.schemes[column].value, table, originalColumn)
  {
    var cached := if c.schemes[column].Some? then c.schemes[column].value else BlindScheme(c.self, column);
    var c' := c.(schemes := c.schemes[column := Some(cached)]);
    if table == c.self then (cached, c') else (SubsetScheme(cached, table, originalColumn), c')
  }

  /** Asking twice gives the same scheme and leaves the cache as the first
      request left it. */
  lemma SchemeCachedOnce(c: CompositeTable, column: nat, originalColumn: nat, table: TableId)
    requires column < |c.schemes|
    ensures var (s1, c1) := GetSelectableSchemeFor(c, column, originalColumn, table);
            var (s2, c2) := GetSelectableSchemeFor(c1, column, originalColumn, table);
            s1 == s2 && c1 == c2
  {
  }

  /** `setToRowTableDomain`: only this table itself is a valid ancestor; the
      row set is already in its domain. */
  function SetToRowTableDomain(c: CompositeTable, rowSet: seq<nat>, ancestor: TableId)
    : (r: Result<seq<nat>, CompositeError>)
    ensures r.Ok? <==> ancestor == c.self
    ensures r.Ok? ==> r.value == rowSet
  {
    if ancestor != c.self then Err(IncorrectAncestor) else Ok(rowSet)
  }

  /** `resolveToRawTable`: one more segment, owned by the composite, holding
      every logical row in enumeration order. */
  function ResolveToRawTable(c: CompositeTable, info: seq<Segment>): (r: seq<Segment>)
    ensures |r| == |info| + 1 && r[..|info|] == info
    ensures r[|info|].table == c.self && |r[|info|].rows| == RowCount(c)
    ensures forall k :: 0 <= k < RowCount(c) ==> r[|info|].rows[k] == k
  {
    info + [Segment(c.self, Range(RowCount(c)))]
  }

  /** `typeEquals`: reference identity of the composite. */
  predicate TypeEquals(c: CompositeTable, other: TableId)
  {
    c.self == other
  }

  /** The identity test decides the ancestor check and which scheme a
      request receives: rows are accepted, and the cached scheme handed out
      itself, exactly for this very table. */
  lemma IdentityDecidesRequests(c: CompositeTable, rowSet: seq<nat>, column: nat, originalColumn: nat, table: TableId)
    requires column < |c.schemes|
    ensures TypeEquals(c, table) <==> SetToRowTableDomain(c, rowSet, table).Ok?
    ensures var (scheme, c') := GetSelectableSchemeFor(c, column, originalColumn, table);
      TypeEquals(c, table) <==> scheme == c'.schemes[column].value
  {
  }

  /** `base` moved up or down by `n`. */
  function Shifted(base: int, n: nat, up: bool): int
  {
    if up then base + n else base - n
  }

  /** Locks (`up`) or unlocks the root of every contributing table, in order. */
  function LockParts(parts: seq<Part>, locks: Locks, up: bool): (r: Locks)
    ensures forall t :: LockCount(r, t) == Shifted(LockCount(locks, t), Count(PartIds(parts), t), up)
  {
    if |parts| == 0 then locks
    else
      var n := |parts| - 1;
      var prev := LockParts(parts[..n], locks, up);
      assert PartIds(parts[..n]) == PartIds(parts)[..n];
      assert forall t :: Count(PartIds(parts), t) == Count(PartIds(parts[..n]), t) + (if parts[n].id == t then 1 else 0);
      Bump(prev, parts[n].id, if up then 1 else -1)
  }

  function PartIds(parts: seq<Part>): (ids: seq<TableId>)
    ensures |ids| == |parts| && forall i :: 0 <= i < |parts| ==> ids[i] == parts[i].id
  {
    seq(|parts|, i requires 0 <= i < |parts| => parts[i].id)
  }

  /** `lockRoot`: counts one more lock on the composite and locks every
      contributing table once per occurrence. */
  function LockRoot(c: CompositeTable, locks: Locks): (r: (CompositeTable, Locks))
    ensures r.0 == c.(rootsLocked := c.rootsLocked + 1)
    ensures forall t :: LockCount(r.1, t) == LockCount(locks, t) + Count(PartIds(c.parts), t)
  {
    (c.(rootsLocked := c.rootsLocked + 1), LockParts(c.parts, locks, true))
  }

  /** `unlockRoot`: the mirror image of `lockRoot`. */
  function UnlockRoot(c: CompositeTable, locks: Locks): (r: (CompositeTable, Locks))
    ensures r.0 == c.(rootsLocked := c.rootsLocked - 1)
    ensures forall t :: LockCount(r.1, t) == LockCount(locks, t) - Count(PartIds(c.parts), t)
  {
    (c.(rootsLocked := c.rootsLocked - 1), LockParts(c.parts, locks, false))
  }

  /** `hasRootsLocked`: the composite's own counter is non-zero. */
  predicate HasRootsLocked(c: CompositeTable)
  {
    c.rootsLocked != 0
  }

  /** The roots count as locked while more locks than unlocks are held:
      from a balanced composite a lock locks them, and the matching unlock
      releases them. */
  lemma RootsLockedWhileHeld(c: CompositeTable, locks: Locks)
    requires c.rootsLocked == 0
    ensures !HasRootsLocked(c)
    ensures HasRootsLocked(LockRoot(c, locks).0)
    ensures !HasRootsLocked(UnlockRoot(LockRoot(c, locks).0, LockRoot(c, locks).1).0)
  {
  }

  /** A lock followed by an unlock restores the composite and every table's
      lock count; in between the composite reports its roots locked when
      they were balanced before. */
  lemma LockUnlockBalanced(c: CompositeTable, locks: Locks)
    ensures var (c1, l1) := LockRoot(c, locks);
            var (c2, l2) := UnlockRoot(c1, l1);
            c2 == c && (forall t :: LockCount(l2, t) == LockCount(locks, t))
            && (c.rootsLocked == 0 ==> HasRootsLocked(c1))
  {
  }
}
