/** The semi-join ("IN") and anti-join ("NOT IN") of two tables on one
    column each.  A table is seen through the one column being joined: the
    cells of that column by row id, and the order in which the column's index
    lists the row ids (what `selectAll` returns). */
module SemiJoin {
  import opened Wrappers
  import opened Cells

  /** One column of a table together with its index order. */
  datatype IndexedColumn = IndexedColumn(cells: seq<Cell>, order: seq<nat>)

  /** The index lists every row id of the table exactly once. */
  predicate Valid(c: IndexedColumn)
  {
    && (forall i :: 0 <= i < |c.order| ==> c.order[i] < |c.cells|)
    && Distinct(c.order)
    && (forall r :: 0 <= r < |c.cells| ==> r in c.order)
  }

  function RowCount(c: IndexedColumn): nat
  {
    |c.cells|
  }

  /** The reference meaning of IN: row `r` of table1 has an equal cell in table2. */
  predicate HasMatch(t1: IndexedColumn, t2: IndexedColumn, r: nat)
    requires r < |t1.cells|
  {
    t1.cells[r] in t2.cells
  }

  /** The index probe: the row ids (in index order) whose cell is equal to
      `v` when `equal` holds, and not equal to `v` otherwise. */
  function SelectWhere(cells: seq<Cell>, order: seq<nat>, v: Cell, equal: bool): (r: seq<nat>)
    requires forall i :: 0 <= i < |order| ==> order[i] < |cells|
    ensures forall i :: 0 <= i < |r| ==> r[i] < |cells|
    ensures forall x: nat :: x in r <==> x in order && x < |cells| && (cells[x] == v) == equal
    ensures Distinct(order) ==> Distinct(r)
  {
    if |order| == 0 then []
    else
      var rest := SelectWhere(cells, order[..|order| - 1], v, equal);
      var x := order[|order| - 1];
      assert forall y: nat :: y in order <==> y in order[..|order| - 1] || y == x;
      if (cells[x] == v) == equal then rest + [x] else rest
  }

  /** `selectRows(column, EQUALS, v)` */
  function SelectEqual(c: IndexedColumn, v: Cell): (r: seq<nat>)
    requires Valid(c)
    ensures Distinct(r)
    ensures forall x: nat :: x in r <==> x < |c.cells| && c.cells[x] == v
  {
    SelectWhere(c.cells, c.order, v, true)
  }

  /** `selectRows(column, NOT_EQUALS, v)` */
  function SelectNotEqual(c: IndexedColumn, v: Cell): (r: seq<nat>)
    requires Valid(c)
    ensures Distinct(r)
    ensures forall x: nat :: x in r <==> x < |c.cells| && c.cells[x] != v
  {
    SelectWhere(c.cells, c.order, v, false)
  }

  /** `BlockIntegerList.uniqueInsertSort`: inserts `x` into a strictly
      increasing list unless it is already there; reports whether it inserted. */
  function UniqueInsertSort(s: seq<nat>, x: nat): (r: (bool, seq<nat>))
    requires StrictlyIncreasing(s)
    ensures r.0 <==> x !in s
    ensures StrictlyIncreasing(r.1)
    ensures forall y: nat :: y in r.1 <==> y in s || y == x
  {
    if |s| == 0 then (true, [x])
    else if x < s[0] then (true, [x] + s)
    else if x == s[0] then (false, s)
    else
      var (b, t) := UniqueInsertSort(s[1..], x);
      assert forall y: nat :: y in s <==> y == s[0] || y in s[1..];
      ConsIncreasing(s[0], t);
      (b, [s[0]] + t)
  }

  lemma ConsIncreasing(h: nat, t: seq<nat>)
    requires StrictlyIncreasing(t) && forall y :: y in t ==> h < y
    ensures StrictlyIncreasing([h] + t)
  {
    forall i, j | 0 <= i < j < |[h] + t| ensures ([h] + t)[i] < ([h] + t)[j] {
      assert ([h] + t)[j] == t[j - 1] && t[j - 1] in t;
      if i > 0 {
        assert ([h] + t)[i] == t[i - 1];
      }
    }
  }

  /** Whether table1 drives the iteration of IN: only when it has strictly
      fewer rows; on a tie table2 is the small side. */
  predicate Table1IsSmall(t1: IndexedColumn, t2: IndexedColumn)
  {
    RowCount(t1) < RowCount(t2)
  }

  /** `INHelper.in(table1, table2, column1, column2)`: the rows of table1
      that have a match in table2, each once, in increasing order. */
  method In(t1: IndexedColumn, t2: IndexedColumn) returns (result: seq<nat>, table1Small: bool)
    requires Valid(t1) && Valid(t2)
    ensures table1Small <==> |t1.cells| < |t2.cells|
    ensures forall r: nat :: r in result <==> r < |t1.cells| && HasMatch(t1, t2, r)
    ensures StrictlyIncreasing(result)
  {
    table1Small := Table1IsSmall(t1, t2);
    if table1Small {
      result := InBySmall(t1, t2);
    } else {
      result := InByLarge(t1, t2);
    }
  }

  /** The branch of `in` for a smaller table1: table1 is iterated and each
      of its rows is added at most once, in order. */
  method InBySmall(t1: IndexedColumn, t2: IndexedColumn) returns (result: seq<nat>)
    requires Valid(t1) && Valid(t2)
    ensures forall r: nat :: r in result <==> r < |t1.cells| && HasMatch(t1, t2, r)
    ensures StrictlyIncreasing(result)
  {
    result := [];
    var i := 0;
    while i < |t1.cells|
      invariant 0 <= i <= |t1.cells|
      invariant forall r: nat :: r in result <==> r < i && HasMatch(t1, t2, r)
      invariant forall j :: 0 <= j < |result| ==> result[j] < i
      invariant StrictlyIncreasing(result)
    {
      var selected := SelectEqual(t2, t1.cells[i]);
      if |selected| > 0 {
        assert t2.cells[selected[0]] == t1.cells[i];
        result := result + [i];
      }
      i := i + 1;
    }
  }

  /** The branch of `in` for a table1 at least as large: table2 is iterated
      and the matching rows of table1 are inserted in sorted order, stopping
      at the first one already present. */
  method InByLarge(t1: IndexedColumn, t2: IndexedColumn) returns (result: seq<nat>)
    requires Valid(t1) && Valid(t2)
    ensures forall r: nat :: r in result <==> r < |t1.cells| && HasMatch(t1, t2, r)
    ensures StrictlyIncreasing(result)
  {
    result := [];
    var i := 0;
    while i < |t2.cells|
      invariant 0 <= i <= |t2.cells|
      invariant forall r: nat :: r in result <==> r < |t1.cells| && t1.cells[r] in t2.cells[..i]
      invariant StrictlyIncreasing(result)
    {
      var v := t2.cells[i];
      var selected := SelectEqual(t1, v);
      var seen := v in t2.cells[..i];
      ghost var before := result;
      assert seen ==> forall x: nat :: x in selected ==> x in before;
      assert !seen ==> forall x: nat :: x in selected ==> x !in before;
      result := InsertSelected(result, selected, seen);
      assert t2.cells[..i + 1] == t2.cells[..i] + [v];
      i := i + 1;
    }
    assert t2.cells[..i] == t2.cells;
  }

  /** The inner loop of the large-table1 branch: the selected rows are
      inserted one by one until an insertion finds its row already there,
      which happens only when the value was seen before and every selected
      row is already present. */
  method InsertSelected(before: seq<nat>, selected: seq<nat>, seen: bool) returns (result: seq<nat>)
    requires StrictlyIncreasing(before) && Distinct(selected)
    requires seen ==> forall x: nat :: x in selected ==> x in before
    requires !seen ==> forall x: nat :: x in selected ==> x !in before
    ensures StrictlyIncreasing(result)
    ensures forall y: nat :: y in result <==> y in before || y in selected
  {
    result := before;
    var rs := true;
    var k := 0;
    while rs && k < |selected|
      invariant 0 <= k <= |selected|
      invariant StrictlyIncreasing(result)
      invariant forall y: nat :: y in result <==> y in before || y in selected[..k]
      invariant !rs ==> seen
    {
      var ins := UniqueInsertSort(result, selected[k]);
      if !ins.0 {
        assert selected[k] !in selected[..k];
      }
      rs, result := ins.0, ins.1;
      k := k + 1;
    }
  }

  /** The multi-column overload of IN: more than one column pair is refused
      rather than joined on the first pair. */
  datatype JoinError = MultiColumnUnsupported | ColumnOutOfRange

  /** A whole table: its row count and its columns, each with its index.
      A column index is only looked up when a cell or an index of that
      column is read. */
  datatype ColumnTable = ColumnTable(rowCount: nat, columns: seq<IndexedColumn>)

  predicate ValidTable(t: ColumnTable)
  {
    forall c :: c in t.columns ==> Valid(c) && |c.cells| == t.rowCount
  }

  /** `in(table1, table2, t1_cols, t2_cols)`.  The first entries of both
      column arrays are taken before anything else; the columns themselves
      are read only inside the loop over the small table, so an empty table
      on either side gives no rows whatever the columns are. */
  method InColumns(t1: ColumnTable, t2: ColumnTable, cols1: seq<nat>, cols2: seq<nat>)
    returns (r: Result<seq<nat>, JoinError>)
    requires ValidTable(t1) && ValidTable(t2)
    ensures |cols1| > 1 ==> r == Err(MultiColumnUnsupported)
    ensures r.Ok? <==> |cols1| == 1 && 0 < |cols2| &&
                       (t1.rowCount == 0 || t2.rowCount == 0 || (cols1[0] < |t1.columns| && cols2[0] < |t2.columns|))
    ensures r.Ok? && (t1.rowCount == 0 || t2.rowCount == 0) ==> r.value == []
    ensures r.Ok? && t1.rowCount > 0 && t2.rowCount > 0 ==>
      cols1[0] < |t1.columns| && cols2[0] < |t2.columns| &&
      StrictlyIncreasing(r.value) &&
      forall x: nat :: x in r.value <==> x < t1.rowCount && HasMatch(t1.columns[cols1[0]], t2.columns[cols2[0]], x)
  {
    if |cols1| > 1 {
      return Err(MultiColumnUnsupported);
    }
    if |cols1| == 0 || |cols2| == 0 {
      return Err(ColumnOutOfRange);
    }
    if t1.rowCount == 0 || t2.rowCount == 0 {
      return Ok([]);
    }
    if cols1[0] >= |t1.columns| || cols2[0] >= |t2.columns| {
      return Err(ColumnOutOfRange);
    }
    var rows, _ := In(t1.columns[cols1[0]], t2.columns[cols2[0]]);
    return Ok(rows);
  }

  /** Rows appended by `origIn` when table2 drives the iteration: for each of
      the first `n` rows of table2, every matching row of table1. */
  function OrigInLarge1(t1: IndexedColumn, t2: IndexedColumn, n: nat): (r: seq<nat>)
    requires Valid(t1) && n <= |t2.cells|
    ensures forall x: nat :: x in r <==> x < |t1.cells| && t1.cells[x] in t2.cells[..n]
  {
    if n == 0 then []
    else
      assert t2.cells[..n] == t2.cells[..n - 1] + [t2.cells[n - 1]];
      OrigInLarge1(t1, t2, n - 1) + SelectEqual(t1, t2.cells[n - 1])
  }

  /** Rows appended by `origIn` when table1 drives the iteration. */
  function OrigInSmall1(t1: IndexedColumn, t2: IndexedColumn, n: nat): (r: seq<nat>)
    requires Valid(t2) && n <= |t1.cells|
    ensures forall x: nat :: x in r <==> x < n && t1.cells[x] in t2.cells
  {
    if n == 0 then []
    else
      var selected := SelectEqual(t2, t1.cells[n - 1]);
      assert |selected| > 0 ==> t2.cells[selected[0]] == t1.cells[n - 1];
      OrigInSmall1(t1, t2, n - 1) + (if |selected| > 0 then [n - 1] else [])
  }

  /** `INHelper.origIn`: the same rows as IN, but when table1 is the large
      side every match is appended, so a row may appear more than once. */
  function OrigIn(t1: IndexedColumn, t2: IndexedColumn): (r: seq<nat>)
    requires Valid(t1) && Valid(t2)
    ensures forall x: nat :: x in r <==> x < |t1.cells| && HasMatch(t1, t2, x)
  {
    if Table1IsSmall(t1, t2) then OrigInSmall1(t1, t2, |t1.cells|)
    else
      assert t2.cells[..|t2.cells|] == t2.cells;
      OrigInLarge1(t1, t2, |t2.cells|)
  }

  /** The documented defect of `origIn`: with table1 = [5, 7] and
      table2 = [5, 5], row 0 of table1 is returned twice. */
  lemma OrigInReturnsDuplicates()
    ensures
      var t1 := IndexedColumn([Some(5), Some(7)], [0, 1]);
      var t2 := IndexedColumn([Some(5), Some(5)], [0, 1]);
      Valid(t1) && Valid(t2) && OrigIn(t1, t2) == [0, 0]
  {
    var t1 := IndexedColumn([Some(5), Some(7)], [0, 1]);
    var t2 := IndexedColumn([Some(5), Some(5)], [0, 1]);
    ExampleValid(t1);
    ExampleValid(t2);
    ExampleLarge(t1, t2);
    assert t2.cells[..|t2.cells|] == t2.cells;
  }

  lemma ExampleValid(t: IndexedColumn)
    requires |t.cells| == 2 && t.order == [0, 1]
    ensures Valid(t)
  {
    assert forall r :: 0 <= r < 2 ==> r in t.order;
  }

  lemma ExampleLarge(t1: IndexedColumn, t2: IndexedColumn)
    requires t1 == IndexedColumn([Some(5), Some(7)], [0, 1]) && t2.cells == [Some(5), Some(5)]
    requires Valid(t1)
    ensures OrigInLarge1(t1, t2, 2) == [0, 0]
  {
    SelectFiveOfFiveSeven();
    assert SelectEqual(t1, Some(5)) == [0];
    assert OrigInLarge1(t1, t2, 0) == [];
    assert OrigInLarge1(t1, t2, 1) == [0];
  }

  lemma SelectFiveOfFiveSeven()
    ensures SelectWhere([Some(5), Some(7)], [0, 1], Some(5), true) == [0]
  {
    var cells: seq<Cell> := [Some(5), Some(7)];
    assert [0, 1][..1] == [0] && [0][..0] == [];
    assert SelectWhere(cells, [], Some(5), true) == [];
    assert SelectWhere(cells, [0], Some(5), true) == [0];
  }

  /** `INHelper.notIn(table1, table2, col1, col2)`: the rows of table1 with
      no equal cell in table2.  An empty table2 gives `selectAll`; a one-row
      table2 gives the NOT_EQUALS probe; otherwise table1 is scanned in row
      order. */
  method NotIn(t1: IndexedColumn, t2: IndexedColumn) returns (result: seq<nat>)
    requires Valid(t1) && Valid(t2)
    ensures forall r: nat :: r in result <==> r < |t1.cells| && !HasMatch(t1, t2, r)
    ensures Distinct(result)
    ensures |t2.cells| == 0 ==> result == t1.order
    ensures |t2.cells| >= 2 ==> StrictlyIncreasing(result)
  {
    var count2 := RowCount(t2);
    if count2 == 0 {
      return t1.order;
    } else if count2 == 1 {
      var cell := t2.cells[0];
      assert t2.cells == [cell];
      return SelectNotEqual(t1, cell);
    }
    result := [];
    var i := 0;
    while i < |t1.cells|
      invariant 0 <= i <= |t1.cells|
      invariant forall r: nat :: r in result <==> r < i && !HasMatch(t1, t2, r)
      invariant forall j :: 0 <= j < |result| ==> result[j] < i
      invariant StrictlyIncreasing(result)
    {
      var selected := SelectEqual(t2, t1.cells[i]);
      if |selected| <= 0 {
        result := result + [i];
      } else {
        assert t2.cells[selected[0]] == t1.cells[i];
      }
      i := i + 1;
    }
  }

  /** The multi-column overload of NOT IN.  Which columns are read depends
      on table2's row count: only table1's column when table2 is empty, both
      when it has one row, and both only once table1 yields a row otherwise. */
  method NotInColumns(t1: ColumnTable, t2: ColumnTable, cols1: seq<nat>, cols2: seq<nat>)
    returns (r: Result<seq<nat>, JoinError>)
    requires ValidTable(t1) && ValidTable(t2)
    ensures |cols1| > 1 ==> r == Err(MultiColumnUnsupported)
    ensures r.Ok? <==> |cols1| == 1 && 0 < |cols2| &&
                       ((t2.rowCount >= 2 && t1.rowCount == 0) ||
                        (cols1[0] < |t1.columns| && (t2.rowCount == 0 || cols2[0] < |t2.columns|)))
    ensures r.Ok? && t1.rowCount == 0 ==> r.value == []
    ensures r.Ok? && t2.rowCount == 0 ==> r.value == t1.columns[cols1[0]].order
    ensures r.Ok? && t1.rowCount > 0 && t2.rowCount > 0 ==>
      cols1[0] < |t1.columns| && cols2[0] < |t2.columns| &&
      Distinct(r.value) &&
      forall x: nat :: x in r.value <==> x < t1.rowCount && !HasMatch(t1.columns[cols1[0]], t2.columns[cols2[0]], x)
  {
    if |cols1| > 1 {
      return Err(MultiColumnUnsupported);
    }
    if |cols1| == 0 || |cols2| == 0 {
      return Err(ColumnOutOfRange);
    }
    if t2.rowCount >= 2 && t1.rowCount == 0 {
      return Ok([]);
    }
    if cols1[0] >= |t1.columns| || (t2.rowCount > 0 && cols2[0] >= |t2.columns|) {
      return Err(ColumnOutOfRange);
    }
    var c1 := t1.columns[cols1[0]];
    if t2.rowCount == 0 {
      if t1.rowCount == 0 {
        HeadIsMember(c1.order);
      }
      return Ok(c1.order);
    }
    var rows := NotIn(c1, t2.columns[cols2[0]]);
    if t1.rowCount == 0 {
      HeadIsMember(rows);
    }
    return Ok(rows);
  }

  /** The head of a non-empty list is one of its members. */
  lemma HeadIsMember(s: seq<nat>)
    ensures |s| > 0 ==> s[0] in s
  {
  }
}
