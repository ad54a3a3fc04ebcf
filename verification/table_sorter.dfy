/** The ledger's `TableSorter`: a view of a table model whose rows are
    reordered through an index array, sorted by one or more columns with a
    stable merge sort.  The comparator is the one the sorter applies to
    model rows; `ShuttleSort` holds the sort itself. */
module Sorter {
  import opened Wrappers
  import opened ShuttleSort

  /** A column of the table model, by the class it reports.  Each cell is a
      value of that class or null; a date is its millisecond time, and a
      column of any other class holds the `toString` of its values. */
  datatype Column =
    | DateColumn(times: seq<Option<int>>)
    | StringColumn(strings: seq<Option<string>>)
    | BooleanColumn(flags: seq<Option<bool>>)
    | OtherColumn(texts: seq<Option<string>>)

  datatype Model = Model(rowCount: nat, columns: seq<Column>)

  /** What `getValueAt` of the model hands out. */
  datatype Value = Null | DateValue(time: int) | StringValue(s: string) | BooleanValue(b: bool) | OtherValue(text: string)

  /** The cell of `row` in a column; a row the column does not hold reads as null. */
  function Cell<T>(cells: seq<Option<T>>, row: int): Option<T>
  {
    if 0 <= row < |cells| then cells[row] else None
  }

  function ValueAt(m: Model, row: int, column: nat): Value
    requires column < |m.columns|
  {
    match m.columns[column]
    case DateColumn(times) => (match Cell(times, row) case None => Null case Some(t) => DateValue(t))
    case StringColumn(strings) => (match Cell(strings, row) case None => Null case Some(s) => StringValue(s))
    case BooleanColumn(flags) => (match Cell(flags, row) case None => Null case Some(b) => BooleanValue(b))
    case OtherColumn(texts) => (match Cell(texts, row) case None => Null case Some(t) => OtherValue(t))
  }

  predicate ValidColumns(m: Model, sortingColumns: seq<nat>)
  {
    forall i :: 0 <= i < |sortingColumns| ==> sortingColumns[i] < |m.columns|
  }

  // Three-way comparison of sequences, as `String.compareTo` orders strings.

  function Sign(x: int): int
  {
    if x < 0 then -1 else if x > 0 then 1 else 0
  }

  /** The sign of Java's `compareTo`: the first differing element decides,
      else the shorter sequence comes first. */
  function LexCompare(a: seq<int>, b: seq<int>): int
  {
    if |a| == 0 || |b| == 0 then Sign(|a| - |b|)
    else if a[0] != b[0] then Sign(a[0] - b[0])
    else LexCompare(a[1..], b[1..])
  }

  /** The character codes of a string. */
  function Codes(s: string): (r: seq<int>)
    ensures |r| == |s| && forall i :: 0 <= i < |s| ==> r[i] == s[i] as int
  {
    if |s| == 0 then [] else [s[0] as int] + Codes(s[1..])
  }

  lemma {:induction false} CodesInjective(s: string, t: string)
    requires Codes(s) == Codes(t)
    ensures s == t
  {
    assert forall i :: 0 <= i < |s| ==> s[i] as int == Codes(s)[i] == Codes(t)[i] == t[i] as int;
  }

  /** `s1.compareTo(s2)`, reduced to its sign. */
  function CompareStrings(s1: string, s2: string): int
  {
    LexCompare(Codes(s1), Codes(s2))
  }

  lemma {:induction false} LexCompareProperties(a: seq<int>, b: seq<int>)
    ensures -1 <= LexCompare(a, b) <= 1
    ensures LexCompare(b, a) == -LexCompare(a, b)
    ensures LexCompare(a, b) == 0 <==> a == b
    decreases |a|
  {
    if |a| > 0 && |b| > 0 && a[0] == b[0] {
      LexCompareProperties(a[1..], b[1..]);
      if a[1..] == b[1..] {
        assert a == [a[0]] + a[1..] && b == [b[0]] + b[1..];
      }
    }
  }

  lemma {:induction false} LexCompareTransitive(a: seq<int>, b: seq<int>, c: seq<int>)
    requires LexCompare(a, b) <= 0 && LexCompare(b, c) <= 0
    ensures LexCompare(a, c) <= 0
    decreases |a|
  {
    if |a| > 0 && |b| > 0 && |c| > 0 && a[0] == b[0] && b[0] == c[0] {
      LexCompareTransitive(a[1..], b[1..], c[1..]);
    }
  }

  /** `ab` followed by anything compares as the rests do. */
  lemma {:induction false} LexCompareCommonPrefix(p: seq<int>, a: seq<int>, b: seq<int>)
    ensures LexCompare(p + a, p + b) == LexCompare(a, b)
    decreases |p|
  {
    if |p| > 0 {
      assert (p + a)[1..] == p[1..] + a && (p + b)[1..] == p[1..] + b;
      LexCompareCommonPrefix(p[1..], a, b);
    } else {
      assert p + a == a && p + b == b;
    }
  }

  lemma TaggedPairCompare(x: int, y: int)
    ensures LexCompare([1, x], [1, y]) == Sign(x - y)
  {
    assert [1, x][1..] == [x] && [1, y][1..] == [y];
    assert LexCompare([1, x], [1, y]) == LexCompare([x], [y]);
    assert [x][1..] == [] && [y][1..] == [];
    assert LexCompare([x], [y]) == if x != y then Sign(x - y) else LexCompare([], []);
  }

  /** Keys of blank strings: after every non-blank one, by row among themselves. */
  lemma BlankKeyCompare(codes: seq<int>, row1: int, row2: int)
    ensures LexCompare([1, 0] + codes, [1, 1, row2]) == -1
    ensures LexCompare([1, 1, row1], [1, 0] + codes) == 1
    ensures row1 != row2 ==> LexCompare([1, 1, row1], [1, 1, row2]) == Sign(row1 - row2)
  {
    assert ([1, 0] + codes)[1..] == [0] + codes && [1, 1, row2][1..] == [1, row2];
    assert LexCompare([1, 0] + codes, [1, 1, row2]) == LexCompare([0] + codes, [1, row2]);
    assert [1, 1, row1][1..] == [1, row1];
    assert LexCompare([1, 1, row1], [1, 0] + codes) == LexCompare([1, row1], [0] + codes);
    assert LexCompare([1, 1, row1], [1, 1, row2]) == LexCompare([1, row1], [1, row2]);
    TaggedPairCompare(row1, row2);
  }

  // The comparator of the sorter.

  /** `compareRowsByColumn`, for every column class but `Number`. */
  function CompareRowsByColumn(m: Model, row1: int, row2: int, column: nat): (r: int)
    requires column < |m.columns|
    ensures -1 <= r <= 1
  {
    var o1 := ValueAt(m, row1, column);
    var o2 := ValueAt(m, row2, column);
    if o1 == Null && o2 == Null then 0
    else if o1 == Null then -1
    else if o2 == Null then 1
    else match m.columns[column]
      case DateColumn(_) => Sign(o1.time - o2.time)
      case StringColumn(_) =>
        if |o1.s| == 0 || |o2.s| == 0 then
          if (|o1.s| == 0) != (|o2.s| == 0) then
            (if |o1.s| == 0 then 1 else -1)
          else if row1 > row2 then 1 else -1
        else
          LexCompareProperties(Codes(o1.s), Codes(o2.s));
          CompareStrings(o1.s, o2.s)
      case BooleanColumn(_) => if o1.b == o2.b then 0 else if o1.b then 1 else -1
      case OtherColumn(_) =>
        LexCompareProperties(Codes(o1.text), Codes(o2.text));
        CompareStrings(o1.text, o2.text)
  }

  /** `compare`: the first sorting column on which the rows differ decides,
      its answer negated when sorting descending; rows equal on every sorting
      column compare 0. */
  function Compare(m: Model, sortingColumns: seq<nat>, ascending: bool, row1: int, row2: int): int
    requires ValidColumns(m, sortingColumns)
  {
    if |sortingColumns| == 0 then 0
    else
      var result := CompareRowsByColumn(m, row1, row2, sortingColumns[0]);
      if result != 0 then (if ascending then result else -result)
      else Compare(m, sortingColumns[1..], ascending, row1, row2)
  }

  /** The lexicographic structure of `compare`, stated against the column
      results directly. */
  lemma {:induction false} CompareIsLexicographic(m: Model, sortingColumns: seq<nat>, ascending: bool, row1: int, row2: int)
    requires ValidColumns(m, sortingColumns)
    ensures Compare(m, sortingColumns, ascending, row1, row2) == 0 <==>
      forall i :: 0 <= i < |sortingColumns| ==> CompareRowsByColumn(m, row1, row2, sortingColumns[i]) == 0
    ensures Compare(m, sortingColumns, ascending, row1, row2) != 0 ==>
      exists k :: 0 <= k < |sortingColumns|
        && (forall i :: 0 <= i < k ==> CompareRowsByColumn(m, row1, row2, sortingColumns[i]) == 0)
        && Compare(m, sortingColumns, ascending, row1, row2)
           == (if ascending then 1 else -1) * CompareRowsByColumn(m, row1, row2, sortingColumns[k])
    decreases |sortingColumns|
  {
    if |sortingColumns| > 0 {
      var rest := sortingColumns[1..];
      CompareIsLexicographic(m, rest, ascending, row1, row2);
      if CompareRowsByColumn(m, row1, row2, sortingColumns[0]) == 0 {
        if Compare(m, sortingColumns, ascending, row1, row2) != 0 {
          var k :| 0 <= k < |rest|
            && (forall i :: 0 <= i < k ==> CompareRowsByColumn(m, row1, row2, rest[i]) == 0)
            && Compare(m, rest, ascending, row1, row2)
               == (if ascending then 1 else -1) * CompareRowsByColumn(m, row1, row2, rest[k]);
          assert forall i :: 0 <= i < k + 1 ==> CompareRowsByColumn(m, row1, row2, sortingColumns[i]) == 0 by {
            forall i | 0 < i < k + 1 ensures CompareRowsByColumn(m, row1, row2, sortingColumns[i]) == 0 {
              assert sortingColumns[i] == rest[i - 1];
            }
          }
          assert sortingColumns[k + 1] == rest[k];
        } else {
          forall i | 0 < i < |sortingColumns| ensures CompareRowsByColumn(m, row1, row2, sortingColumns[i]) == 0 {
            assert sortingColumns[i] == rest[i - 1];
          }
        }
      }
    }
  }

  /** Nulls: two nulls tie, and a null comes before any value. */
  lemma NullsFirst(m: Model, row1: int, row2: int, column: nat)
    requires column < |m.columns|
    ensures ValueAt(m, row1, column) == Null && ValueAt(m, row2, column) == Null ==>
      CompareRowsByColumn(m, row1, row2, column) == 0
    ensures ValueAt(m, row1, column) == Null && ValueAt(m, row2, column) != Null ==>
      CompareRowsByColumn(m, row1, row2, column) == -1 && CompareRowsByColumn(m, row2, row1, column) == 1
  {
  }

  /** Booleans: false before true, equal flags tie. */
  lemma FalseBeforeTrue(m: Model, row1: int, row2: int, column: nat)
    requires column < |m.columns| && m.columns[column].BooleanColumn?
    requires ValueAt(m, row1, column) == BooleanValue(false) && ValueAt(m, row2, column) == BooleanValue(true)
    ensures CompareRowsByColumn(m, row1, row2, column) == -1
    ensures CompareRowsByColumn(m, row2, row1, column) == 1
    ensures CompareRowsByColumn(m, row1, row1, column) == 0
  {
  }

  /** Strings: a blank string comes after any other string, two blanks are
      ordered by row number, and two other strings as `compareTo` orders them. */
  lemma BlankStringsLast(m: Model, row1: int, row2: int, column: nat)
    requires column < |m.columns| && m.columns[column].StringColumn?
    requires ValueAt(m, row1, column).StringValue? && ValueAt(m, row2, column).StringValue?
    ensures var s1, s2 := ValueAt(m, row1, column).s, ValueAt(m, row2, column).s;
      && (|s1| == 0 && |s2| > 0 ==> CompareRowsByColumn(m, row1, row2, column) == 1)
      && (|s1| > 0 && |s2| == 0 ==> CompareRowsByColumn(m, row1, row2, column) == -1)
      && (|s1| == 0 && |s2| == 0 ==> (CompareRowsByColumn(m, row1, row2, column) == 1 <==> row1 > row2))
      && (|s1| > 0 && |s2| > 0 ==> (CompareRowsByColumn(m, row1, row2, column) == 0 <==> s1 == s2))
  {
    var s1, s2 := ValueAt(m, row1, column).s, ValueAt(m, row2, column).s;
    if |s1| > 0 && |s2| > 0 {
      LexCompareProperties(Codes(s1), Codes(s2));
      if Codes(s1) == Codes(s2) {
        CodesInjective(s1, s2);
      }
    }
  }

  // Sort keys: `compareRowsByColumn` on two different rows is the
  // lexicographic comparison of one integer sequence per row.

  /** The key of a cell: nulls lowest, then the value's own order; a blank
      string sorts after every other string, by its row number. */
  function Key(m: Model, row: int, column: nat): seq<int>
    requires column < |m.columns|
  {
    match ValueAt(m, row, column)
    case Null => [0]
    case DateValue(t) => [1, t]
    case StringValue(s) => if |s| == 0 then [1, 1, row] else [1, 0] + Codes(s)
    case BooleanValue(b) => [1, if b then 1 else 0]
    case OtherValue(t) => [1] + Codes(t)
  }

  lemma ColumnCompareIsKeyCompare(m: Model, row1: int, row2: int, column: nat)
    requires column < |m.columns| && row1 != row2
    ensures CompareRowsByColumn(m, row1, row2, column) == LexCompare(Key(m, row1, column), Key(m, row2, column))
  {
    var o1, o2 := ValueAt(m, row1, column), ValueAt(m, row2, column);
    if o1 != Null && o2 != Null {
      match m.columns[column]
      case DateColumn(_) =>
        TaggedPairCompare(o1.time, o2.time);
      case StringColumn(_) =>
        if |o1.s| > 0 && |o2.s| > 0 {
          LexCompareCommonPrefix([1, 0], Codes(o1.s), Codes(o2.s));
        } else {
          BlankKeyCompare(Codes(o1.s), row1, row2);
          BlankKeyCompare(Codes(o2.s), row1, row2);
        }
      case BooleanColumn(_) =>
        TaggedPairCompare(if o1.b then 1 else 0, if o2.b then 1 else 0);
      case OtherColumn(_) =>
        LexCompareCommonPrefix([1], Codes(o1.text), Codes(o2.text));
    }
  }

  function Keys(m: Model, sortingColumns: seq<nat>, row: int): (r: seq<seq<int>>)
    requires ValidColumns(m, sortingColumns)
    ensures |r| == |sortingColumns|
    ensures forall i :: 0 <= i < |r| ==> r[i] == Key(m, row, sortingColumns[i])
  {
    seq(|sortingColumns|, i requires 0 <= i < |sortingColumns| => Key(m, row, sortingColumns[i]))
  }

  /** The first differing key decides. */
  function CompareKeys(a: seq<seq<int>>, b: seq<seq<int>>): int
    requires |a| == |b|
  {
    if |a| == 0 then 0
    else if LexCompare(a[0], b[0]) != 0 then LexCompare(a[0], b[0])
    else CompareKeys(a[1..], b[1..])
  }

  lemma {:induction false} CompareKeysProperties(a: seq<seq<int>>, b: seq<seq<int>>)
    requires |a| == |b|
    ensures CompareKeys(b, a) == -CompareKeys(a, b)
    ensures CompareKeys(a, b) == 0 <==> a == b
    decreases |a|
  {
    if |a| > 0 {
      LexCompareProperties(a[0], b[0]);
      CompareKeysProperties(a[1..], b[1..]);
      if a[0] == b[0] && a[1..] == b[1..] {
        assert a == [a[0]] + a[1..] && b == [b[0]] + b[1..];
      }
    }
  }

  lemma {:induction false} CompareKeysTransitive(a: seq<seq<int>>, b: seq<seq<int>>, c: seq<seq<int>>)
    requires |a| == |b| == |c|
    requires CompareKeys(a, b) <= 0 && CompareKeys(b, c) <= 0
    ensures CompareKeys(a, c) <= 0
    decreases |a|
  {
    if |a| > 0 {
      LexCompareProperties(a[0], b[0]);
      LexCompareProperties(b[0], c[0]);
      LexCompareProperties(a[0], c[0]);
      if LexCompare(a[0], b[0]) == 0 && LexCompare(b[0], c[0]) == 0 {
        CompareKeysTransitive(a[1..], b[1..], c[1..]);
      } else if LexCompare(a[0], b[0]) == 0 {
        assert a[0] == b[0];
      } else if LexCompare(b[0], c[0]) == 0 {
        assert b[0] == c[0];
      } else {
        LexCompareTransitive(a[0], b[0], c[0]);
      }
    }
  }

  /** `compare` on two different rows is the comparison of their keys,
      reversed when descending. */
  lemma {:induction false} CompareIsKeyCompare(m: Model, sortingColumns: seq<nat>, ascending: bool, row1: int, row2: int)
    requires ValidColumns(m, sortingColumns) && row1 != row2
    ensures Compare(m, sortingColumns, ascending, row1, row2)
         == (if ascending then 1 else -1) * CompareKeys(Keys(m, sortingColumns, row1), Keys(m, sortingColumns, row2))
    decreases |sortingColumns|
  {
    if |sortingColumns| > 0 {
      var k1, k2 := Keys(m, sortingColumns, row1), Keys(m, sortingColumns, row2);
      ColumnCompareIsKeyCompare(m, row1, row2, sortingColumns[0]);
      CompareIsKeyCompare(m, sortingColumns[1..], ascending, row1, row2);
      assert k1[1..] == Keys(m, sortingColumns[1..], row1);
      assert k2[1..] == Keys(m, sortingColumns[1..], row2);
    }
  }

  /** Two different rows compare 0 exactly when they have the same keys. */
  lemma CompareZeroIffSameKeys(m: Model, sortingColumns: seq<nat>, ascending: bool, row1: int, row2: int)
    requires ValidColumns(m, sortingColumns) && row1 != row2
    ensures Compare(m, sortingColumns, ascending, row1, row2) == 0
        <==> Keys(m, sortingColumns, row1) == Keys(m, sortingColumns, row2)
  {
    CompareIsKeyCompare(m, sortingColumns, ascending, row1, row2);
    CompareKeysProperties(Keys(m, sortingColumns, row1), Keys(m, sortingColumns, row2));
  }

  // The sort of the view.

  /** The comparator handed to the sort: `compare` on row ids. */
  function RowOrder(m: Model, sortingColumns: seq<nat>, ascending: bool): Cmp
    requires ValidColumns(m, sortingColumns)
  {
    (row1, row2) => Compare(m, sortingColumns, ascending, row1, row2)
  }

  /** The order of the rows' keys, reversed when descending.  Unlike
      `compare` (a blank string compares -1 with itself) it is a total
      preorder on every set of rows. */
  function KeyOrder(m: Model, sortingColumns: seq<nat>, ascending: bool): Cmp
    requires ValidColumns(m, sortingColumns)
  {
    (row1, row2) =>
      var k1, k2 := Keys(m, sortingColumns, row1), Keys(m, sortingColumns, row2);
      if ascending then CompareKeys(k1, k2) else CompareKeys(k2, k1)
  }

  lemma KeyOrderIsTotalPreorder(m: Model, sortingColumns: seq<nat>, ascending: bool, dom: set<int>)
    requires ValidColumns(m, sortingColumns)
    ensures TotalPreorder(KeyOrder(m, sortingColumns, ascending), dom)
  {
    var order := KeyOrder(m, sortingColumns, ascending);
    forall a, b | a in dom && b in dom ensures Le(order, a, b) || Le(order, b, a) {
      CompareKeysProperties(Keys(m, sortingColumns, a), Keys(m, sortingColumns, b));
    }
    forall a, b, c | a in dom && b in dom && c in dom && Le(order, a, b) && Le(order, b, c)
      ensures Le(order, a, c)
    {
      var ka, kb, kc := Keys(m, sortingColumns, a), Keys(m, sortingColumns, b), Keys(m, sortingColumns, c);
      if ascending {
        CompareKeysTransitive(ka, kb, kc);
      } else {
        CompareKeysTransitive(kc, kb, ka);
      }
    }
  }

  /** Rows tie in the key order exactly when their keys are equal. */
  lemma TiedIffSameKeys(m: Model, sortingColumns: seq<nat>, ascending: bool, row1: int, row2: int)
    requires ValidColumns(m, sortingColumns)
    ensures Tied(KeyOrder(m, sortingColumns, ascending), row1, row2)
        <==> Keys(m, sortingColumns, row1) == Keys(m, sortingColumns, row2)
  {
    CompareKeysProperties(Keys(m, sortingColumns, row1), Keys(m, sortingColumns, row2));
  }

  /** On different rows `compare` is the key order. */
  lemma RowOrderAgrees(m: Model, sortingColumns: seq<nat>, ascending: bool, dom: set<int>)
    requires ValidColumns(m, sortingColumns)
    ensures AgreeOn(RowOrder(m, sortingColumns, ascending), KeyOrder(m, sortingColumns, ascending), dom)
  {
    forall a, b | a in dom && b in dom && a != b
      ensures RowOrder(m, sortingColumns, ascending)(a, b) == KeyOrder(m, sortingColumns, ascending)(a, b)
    {
      CompareIsKeyCompare(m, sortingColumns, ascending, a, b);
      CompareKeysProperties(Keys(m, sortingColumns, a), Keys(m, sortingColumns, b));
    }
  }

  /** The sorter: the model it views, the view's row order (`indexes`:
      view row `i` shows model row `indexes[i]`) and the sort settings. */
  datatype TableSorter = TableSorter(model: Model, indexes: seq<int>, sortingColumns: seq<nat>, ascending: bool)

  /** `reallocateIndexes`: a fresh index array holding the identity mapping. */
  method ReallocateIndexes(rowCount: nat) returns (indexes: array<int>)
    ensures indexes.Length == rowCount
    ensures forall row :: 0 <= row < rowCount ==> indexes[row] == row
  {
    indexes := new int[rowCount];
    for row := 0 to rowCount
      invariant forall k :: 0 <= k < row ==> indexes[k] == k
    {
      indexes[row] := row;
    }
  }

  /** `getValueAt`: view row `aRow` reads model row `indexes[aRow]`; a view
      row or a column out of range throws. */
  function GetValueAt(t: TableSorter, aRow: int, aColumn: int): (r: Option<Value>)
    ensures r.Some? <==> 0 <= aRow < |t.indexes| && 0 <= aColumn < |t.model.columns|
  {
    if 0 <= aRow < |t.indexes| && 0 <= aColumn < |t.model.columns| then
      Some(ValueAt(t.model, t.indexes[aRow], aColumn))
    else None
  }

  /** Right after `reallocateIndexes` the view shows the model unchanged. */
  lemma IdentityView(t: TableSorter, aRow: int, aColumn: int)
    requires t.indexes == Range(t.model.rowCount)
    requires 0 <= aRow < t.model.rowCount && 0 <= aColumn < |t.model.columns|
    ensures GetValueAt(t, aRow, aColumn) == Some(ValueAt(t.model, aRow, aColumn))
  {
  }

  /** `swap`: exchanges two entries of the index array; an index out of
      range throws. */
  function Swap(indexes: seq<int>, i: int, j: int): (r: Option<seq<int>>)
    ensures r.Some? <==> 0 <= i < |indexes| && 0 <= j < |indexes|
    ensures r.Some? ==> |r.value| == |indexes| && r.value[i] == indexes[j] && r.value[j] == indexes[i]
    ensures r.Some? ==> forall k :: 0 <= k < |indexes| && k != i && k != j ==> r.value[k] == indexes[k]
  {
    if 0 <= i < |indexes| && 0 <= j < |indexes| then
      var tmp := indexes[i];
      Some(indexes[i := indexes[j]][j := tmp])
    else None
  }

  /** A swap is undone by the same swap, and keeps the ids the array holds. */
  lemma SwapInvolution(indexes: seq<int>, i: int, j: int)
    requires 0 <= i < |indexes| && 0 <= j < |indexes|
    ensures Swap(Swap(indexes, i, j).value, i, j) == Some(indexes)
    ensures multiset(Swap(indexes, i, j).value) == multiset(indexes)
  {
    var once := Swap(indexes, i, j).value;
    assert Swap(once, i, j).value == indexes;
    if i != j {
      assert once == indexes[i := indexes[j]][j := indexes[i]];
    }
  }

  /** After a swap, each of the two view rows shows what the other showed. */
  lemma SwapView(t: TableSorter, i: int, j: int, aColumn: int)
    requires 0 <= i < |t.indexes| && 0 <= j < |t.indexes| && 0 <= aColumn < |t.model.columns|
    ensures var u := t.(indexes := Swap(t.indexes, i, j).value);
      && GetValueAt(u, i, aColumn) == GetValueAt(t, j, aColumn)
      && GetValueAt(u, j, aColumn) == GetValueAt(t, i, aColumn)
  {
  }

  /** `sort`: the index array reordered by `compare`, through `shuttlesort`
      on a copy of itself. */
  function SortView(t: TableSorter): (r: TableSorter)
    requires ValidColumns(t.model, t.sortingColumns)
    ensures r.model == t.model && r.sortingColumns == t.sortingColumns && r.ascending == t.ascending
  {
    t.(indexes := MergeSort(t.indexes, RowOrder(t.model, t.sortingColumns, t.ascending)))
  }

  /** `sortByColumn`: sort on the one column given, in the direction given. */
  function SortByColumn(t: TableSorter, column: nat, ascending: bool): (r: TableSorter)
    requires column < |t.model.columns|
    ensures r.model == t.model && r.sortingColumns == [column] && r.ascending == ascending
  {
    SortView(t.(ascending := ascending, sortingColumns := [column]))
  }

  /** The sort of a view whose index array has no repeats: the same rows,
      in `compare` order, and rows with equal keys in their former order. */
  lemma SortViewCorrect(t: TableSorter)
    requires ValidColumns(t.model, t.sortingColumns) && Distinct(t.indexes)
    ensures var r := SortView(t).indexes;
      && multiset(r) == multiset(t.indexes)
      && Distinct(r)
      && (forall i, j :: 0 <= i < j < |r| ==> Compare(t.model, t.sortingColumns, t.ascending, r[i], r[j]) <= 0)
      && (forall x :: Ties(r, x, KeyOrder(t.model, t.sortingColumns, t.ascending))
                      == Ties(t.indexes, x, KeyOrder(t.model, t.sortingColumns, t.ascending)))
  {
    var m, cols, asc := t.model, t.sortingColumns, t.ascending;
    var s, r := t.indexes, SortView(t).indexes;
    var keys, rows := KeyOrder(m, cols, asc), RowOrder(m, cols, asc);
    var dom := set i | 0 <= i < |s| :: s[i];
    RowOrderAgrees(m, cols, asc, dom);
    MergeSortAgree(s, rows, keys, dom);
    MergeSortPermutes(s, keys);
    DistinctPermutation(r, s);
    KeyOrderIsTotalPreorder(m, cols, asc, dom);
    MergeSortSorted(s, keys, dom);
    MergeSortWithin(s, keys, dom);
    forall i, j | 0 <= i < j < |r| ensures Compare(m, cols, asc, r[i], r[j]) <= 0 {
      SortedAllPairs(r, keys, dom, i, j);
      assert rows(r[i], r[j]) == keys(r[i], r[j]);
    }
    forall x ensures Ties(r, x, keys) == Ties(s, x, keys) {
      KeyOrderIsTotalPreorder(m, cols, asc, dom + {x});
      MergeSortStable(s, x, keys, dom + {x});
    }
  }

  /** After `sortByColumn`, the view is ordered by that column: ascending,
      each row compares at most 0 with every later one; descending, at
      least 0. */
  lemma SortByColumnOrders(t: TableSorter, column: nat, ascending: bool, i: int, j: int)
    requires column < |t.model.columns| && Distinct(t.indexes)
    requires 0 <= i < j < |t.indexes|
    ensures var r := SortByColumn(t, column, ascending).indexes;
      if ascending then CompareRowsByColumn(t.model, r[i], r[j], column) <= 0
      else CompareRowsByColumn(t.model, r[i], r[j], column) >= 0
  {
    var u := t.(ascending := ascending, sortingColumns := [column]);
    SortViewCorrect(u);
    var r := SortView(u).indexes;
    assert Compare(t.model, [column], ascending, r[i], r[j]) <= 0;
  }

  /** In a view sorted ascending on a column, the rows null in that column
      come first. */
  lemma SortedViewNullsFirst(t: TableSorter, column: nat, i: int, j: int)
    requires column < |t.model.columns| && Distinct(t.indexes)
    requires 0 <= i < j < |t.indexes|
    ensures var u := SortByColumn(t, column, true);
      GetValueAt(u, j, column) == Some(Null) ==> GetValueAt(u, i, column) == Some(Null)
  {
    SortByColumnOrders(t, column, true, i, j);
  }
}
