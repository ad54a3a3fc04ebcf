/** The transparent filter (`DataTableFilter`): a layer over a base table, or
    over another filter, that forwards every request to its parent.  A stack
    of filters is modelled as the base table with the filter identities
    layered on top of it, innermost first. */
module Filter {
  import opened Wrappers
  import opened Cells
  import DataTable

  /** `base` with the filters `filters[0]`, `filters[1]`, ... stacked on it;
      `data[row][column]` is the base table's stored cells. */
  datatype Stack = Stack(base: DataTable.Table, data: seq<seq<Cell>>, filters: seq<TableId>)

  datatype FilterError = CellOutOfRange | BaseError(error: DataTable.TableError)

  /** The identity of the outermost layer. */
  function Top(s: Stack): TableId
  {
    if |s.filters| == 0 then s.base.self else s.filters[|s.filters| - 1]
  }

  /** The parent of the outermost filter. */
  function Parent(s: Stack): (p: Stack)
    requires |s.filters| > 0
    ensures p.base == s.base && p.data == s.data && |p.filters| == |s.filters| - 1
  {
    s.(filters := s.filters[..|s.filters| - 1])
  }

  /** Asks the outermost layer something that every filter passes to its
      parent unchanged: the answer is the base table's. */
  function Forward<A>(s: Stack, atBase: (DataTable.Table, seq<seq<Cell>>) -> A): (r: A)
    ensures r == atBase(s.base, s.data)
    decreases |s.filters|
  {
    if |s.filters| == 0 then atBase(s.base, s.data) else Forward(Parent(s), atBase)
  }

  /** The base table's cell store, as the subclass of `DefaultDataTable` provides it. */
  function BaseCell(data: seq<seq<Cell>>, column: nat, row: nat): Result<Cell, FilterError>
  {
    if row < |data| && column < |data[row]| then Ok(data[row][column]) else Err(CellOutOfRange)
  }

  // The forwarding getters of the filter.

  function Name(s: Stack): string
  {
    Forward(s, (t: DataTable.Table, d: seq<seq<Cell>>) => t.name)
  }

  function ColumnCount(s: Stack): nat
  {
    Forward(s, (t: DataTable.Table, d: seq<seq<Cell>>) => |t.fields|)
  }

  function RowCount(s: Stack): nat
  {
    Forward(s, (t: DataTable.Table, d: seq<seq<Cell>>) => t.rowCount)
  }

  function Fields(s: Stack): seq<Option<DataTable.Field>>
  {
    Forward(s, (t: DataTable.Table, d: seq<seq<Cell>>) => t.fields)
  }

  function FindFieldNameString(s: Stack, qualified: string): Result<int, DataTable.TableError>
  {
    Forward(s, (t: DataTable.Table, d: seq<seq<Cell>>) => DataTable.FindFieldNameString(t, qualified))
  }

  function FindFieldNameVariable(s: Stack, v: DataTable.Variable): Result<int, DataTable.TableError>
  {
    Forward(s, (t: DataTable.Table, d: seq<seq<Cell>>) => DataTable.FindFieldNameVariable(t, v))
  }

  function GetCellContents(s: Stack, column: nat, row: nat): Result<Cell, FilterError>
  {
    Forward(s, (t: DataTable.Table, d: seq<seq<Cell>>) => BaseCell(d, column, row))
  }

  function CompareCellTo(s: Stack, ob: Cell, column: nat, row: nat): Result<Ordering, FilterError>
  {
    Forward(s, (t: DataTable.Table, d: seq<seq<Cell>>) =>
      match BaseCell(d, column, row)
      case Ok(c) => Ok(CompareCells(c, ob))
      case Err(e) => Err(e))
  }

  /** The base table enumerates its rows in order. */
  function RowEnumeration(s: Stack): seq<nat>
  {
    Forward(s, (t: DataTable.Table, d: seq<seq<Cell>>) => Range(t.rowCount))
  }

  /** Every getter of a filter answers exactly what its parent answers for
      the same arguments, the table name included. */
  lemma GettersForwardToParent(s: Stack, qualified: string, v: DataTable.Variable, ob: Cell, column: nat, row: nat)
    requires |s.filters| > 0
    ensures Name(s) == Name(Parent(s)) == s.base.name
    ensures ColumnCount(s) == ColumnCount(Parent(s))
    ensures RowCount(s) == RowCount(Parent(s))
    ensures Fields(s) == Fields(Parent(s))
    ensures FindFieldNameString(s, qualified) == FindFieldNameString(Parent(s), qualified)
    ensures FindFieldNameVariable(s, v) == FindFieldNameVariable(Parent(s), v)
    ensures GetCellContents(s, column, row) == GetCellContents(Parent(s), column, row)
    ensures CompareCellTo(s, ob, column, row) == CompareCellTo(Parent(s), ob, column, row)
    ensures RowEnumeration(s) == RowEnumeration(Parent(s))
  {
  }

  /** `getSelectableSchemeFor`: a request naming this filter is passed on
      as if the parent itself had been asked; any other table is passed on
      unchanged.  Through a whole stack, a request naming any of its filters
      reaches the base table as a request for the base table's own index. */
  function GetSelectableSchemeFor(s: Stack, column: nat, originalColumn: nat, table: TableId): (r: Scheme)
    ensures r == DataTable.GetSelectableSchemeFor(s.base, column, originalColumn,
                   if table in s.filters then s.base.self else table)
    decreases |s.filters|
  {
    if |s.filters| == 0 then DataTable.GetSelectableSchemeFor(s.base, column, originalColumn, table)
    else
      var p := Parent(s);
      assert s.filters == p.filters + [Top(s)];
      GetSelectableSchemeFor(p, column, originalColumn, if table == Top(s) then Top(p) else table)
  }

  /** `setToRowTableDomain`: the same re-targeting of the ancestor. */
  function SetToRowTableDomain(s: Stack, rowSet: seq<nat>, ancestor: TableId): (r: Result<seq<nat>, DataTable.TableError>)
    ensures r == DataTable.SetToRowTableDomain(s.base, rowSet,
                   if ancestor in s.filters then s.base.self else ancestor)
    decreases |s.filters|
  {
    if |s.filters| == 0 then DataTable.SetToRowTableDomain(s.base, rowSet, ancestor)
    else
      var p := Parent(s);
      assert s.filters == p.filters + [Top(s)];
      SetToRowTableDomain(p, rowSet, if ancestor == Top(s) then Top(p) else ancestor)
  }

  /** A request for the outermost filter's own index yields the base table's
      root index; the row-domain walk accepts exactly the layers of the stack. */
  lemma OwnRequestReachesRoot(s: Stack, column: nat, originalColumn: nat, rowSet: seq<nat>, ancestor: TableId)
    ensures GetSelectableSchemeFor(s, column, originalColumn, Top(s)) == RootScheme(s.base.self, column)
    ensures SetToRowTableDomain(s, rowSet, ancestor).Ok? <==> ancestor == s.base.self || ancestor in s.filters
    ensures SetToRowTableDomain(s, rowSet, ancestor).Ok? ==> SetToRowTableDomain(s, rowSet, ancestor).value == rowSet
  {
    if |s.filters| > 0 {
      assert Top(s) in s.filters;
    }
  }

  /** `resolveToRawTable`: one segment owned by the outermost filter, holding
      the rows the base table enumerates. */
  function ResolveToRawTable(s: Stack, info: seq<Segment>): (r: seq<Segment>)
    ensures |r| == |info| + 1 && r[..|info|] == info
    ensures r[|info|].table == Top(s)
    ensures r[|info|].rows == DataTable.ResolveToRawTable(s.base, [])[0].rows
  {
    info + [Segment(Top(s), RowEnumeration(s))]
  }

  /** `lockRoot`: forwarded down to the base table, whose lock counter grows. */
  function LockRoot(s: Stack, locks: Locks): (r: Locks)
    ensures LockCount(r, s.base.self) == LockCount(locks, s.base.self) + 1
    ensures forall t :: t != s.base.self ==> LockCount(r, t) == LockCount(locks, t)
    decreases |s.filters|
  {
    if |s.filters| == 0 then Bump(locks, s.base.self, 1) else LockRoot(Parent(s), locks)
  }

  /** `unlockRoot`: forwarded down to the base table, whose lock counter shrinks. */
  function UnlockRoot(s: Stack, locks: Locks): (r: Locks)
    ensures LockCount(r, s.base.self) == LockCount(locks, s.base.self) - 1
    ensures forall t :: t != s.base.self ==> LockCount(r, t) == LockCount(locks, t)
    decreases |s.filters|
  {
    if |s.filters| == 0 then Bump(locks, s.base.self, -1) else UnlockRoot(Parent(s), locks)
  }

  /** `hasRootsLocked`: asked of the base table. */
  predicate HasRootsLocked(s: Stack, locks: Locks)
    decreases |s.filters|
  {
    if |s.filters| == 0 then LockCount(locks, s.base.self) != 0 else HasRootsLocked(Parent(s), locks)
  }

  /** Every filter over the same base shares its lock state: locking through
      one layer is seen through any other, and a balanced lock and unlock
      restores every counter. */
  lemma {:induction false} StackSharesLocks(s: Stack, s': Stack, locks: Locks)
    requires s'.base.self == s.base.self
    ensures HasRootsLocked(s, locks) == HasRootsLocked(s', locks)
    ensures HasRootsLocked(s', LockRoot(s, locks)) <==> LockCount(locks, s.base.self) != -1
    ensures forall t :: LockCount(UnlockRoot(s', LockRoot(s, locks)), t) == LockCount(locks, t)
  {
    HasRootsLockedIsBase(s, locks);
    HasRootsLockedIsBase(s', locks);
    HasRootsLockedIsBase(s', LockRoot(s, locks));
  }

  lemma {:induction false} HasRootsLockedIsBase(s: Stack, locks: Locks)
    ensures HasRootsLocked(s, locks) <==> LockCount(locks, s.base.self) != 0
    decreases |s.filters|
  {
    if |s.filters| > 0 {
      HasRootsLockedIsBase(Parent(s), locks);
    }
  }
}
