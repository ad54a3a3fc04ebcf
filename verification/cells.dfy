/** Vocabulary shared by the table algebra: cells, cell ordering, table
    identities, row-domain segments, column index schemes and root locks. */
module Cells {
  import opened Wrappers

  /** The identity of a table instance (Java reference identity). */
  type TableId = nat

  /** A cell value: `None` is the engine's NULL. */
  type Cell = Option<int>

  datatype Ordering = Less | Equal | Greater

  /** Cell ordering of the engine: NULL equals NULL and sorts above every
      non-NULL value; non-NULL values compare numerically.  `CompareCells(a, b)`
      is the position of `a` relative to `b`. */
  function CompareCells(a: Cell, b: Cell): (r: Ordering)
    ensures r == Equal <==> a == b
    ensures a.None? && b.Some? ==> r == Greater
    ensures a.Some? && b.None? ==> r == Less
  {
    match (a, b)
    case (None, None) => Equal
    case (None, Some(_)) => Greater
    case (Some(_), None) => Less
    case (Some(x), Some(y)) => if x < y then Less else if x == y then Equal else Greater
  }

  function Flip(o: Ordering): Ordering
  {
    match o
    case Less => Greater
    case Equal => Equal
    case Greater => Less
  }

  lemma CompareCellsAntisymmetric(a: Cell, b: Cell)
    ensures CompareCells(b, a) == Flip(CompareCells(a, b))
  {
  }

  /** One entry of a row-domain flattening (`RawTableInformation`): a table
      and the list of its row ids that make up the derived view. */
  datatype Segment = Segment(table: TableId, rows: seq<nat>)

  /** A column index ("selectable scheme").  Its internals (InsertSearch,
      BlindSearch) are not part of this model; what the algebra observes is
      which table built it, for which column, and into which row domain it
      was projected. */
  datatype Scheme =
    | RootScheme(owner: TableId, column: nat)
    | BlindScheme(owner: TableId, column: nat)
    | SubsetScheme(base: Scheme, domain: TableId, column: nat)

  /** Root-lock counters of every table, by identity (absent means 0). */
  type Locks = map<TableId, int>

  function LockCount(locks: Locks, t: TableId): int
  {
    if t in locks then locks[t] else 0
  }

  /** Adds `delta` to the counter of `t`, leaving every other counter as is. */
  function Bump(locks: Locks, t: TableId, delta: int): (r: Locks)
    ensures LockCount(r, t) == LockCount(locks, t) + delta
    ensures forall u :: u != t ==> LockCount(r, u) == LockCount(locks, u)
  {
    locks[t := LockCount(locks, t) + delta]
  }
}
