/** The base table's own bookkeeping (`DefaultDataTable`): its field slots,
    column lookup by qualified name, the per-column root index and the
    row-domain plumbing shared with the derived views. */
module DataTable {
  import opened Wrappers
  import opened Cells

  /** A column definition: its unqualified name and whether the column is
      indexed (only quantifiable columns take part in the column index). */
  datatype Field = Field(name: string, quantifiable: bool)

  /** A schema-qualified table name; `Option` wraps it where Java allows null. */
  datatype TableName = TableName(schema: string, name: string)

  /** A column reference that may or may not be qualified by a table. */
  datatype Variable = Variable(table: Option<TableName>, name: string)

  /** A base table.  `fields` holds the column slots (`None` is a slot not yet
      filled by `addField`); `index[c]` is the multiset of row ids the root
      index of column `c` currently holds. */
  datatype Table = Table(
    self: TableId,
    name: string,
    tableName: TableName,
    fields: seq<Option<Field>>,
    rowCount: nat,
    index: seq<multiset<nat>>)

  datatype TableError =
    | DuplicateField(field: string)   // a filled slot already carries the name
    | AddFieldOverrun                 // every slot is already filled
    | NoDelimiter                     // a string column name without '.'
    | NullField(column: nat)          // a lookup reached a slot never filled
    | ColumnOutOfRange(column: nat)   // a column index past the last slot
    | IncorrectAncestor               // a row set routed to another table

  /** One root index per column. */
  predicate WellFormed(t: Table)
  {
    |t.index| == |t.fields|
  }

  /** `init`: room for `columnCount` columns, all empty, and no rows.  The
      root indexes are not touched. */
  function Init(t: Table, columnCount: nat): (r: Table)
    ensures |r.fields| == columnCount && r.rowCount == 0
    ensures forall i :: 0 <= i < columnCount ==> r.fields[i].None?
    ensures r.self == t.self && r.name == t.name && r.tableName == t.tableName && r.index == t.index
  {
    t.(fields := seq(columnCount, _ => None), rowCount := 0)
  }

  /** Number of leading filled slots. */
  function FilledPrefix(fields: seq<Option<Field>>): (k: nat)
    ensures k <= |fields|
    ensures forall j :: 0 <= j < k ==> fields[j].Some?
    ensures k < |fields| ==> fields[k].None?
  {
    if |fields| == 0 || fields[0].None? then 0 else 1 + FilledPrefix(fields[1..])
  }

  /** Some filled slot of `fields` carries the name `n`. */
  predicate NameIn(fields: seq<Option<Field>>, n: string)
  {
    exists j :: 0 <= j < |fields| && fields[j].Some? && fields[j].value.name == n
  }

  /** Every filled slot precedes every empty one. */
  predicate Packed(fields: seq<Option<Field>>)
  {
    forall i, j :: 0 <= i < j < |fields| && fields[i].None? ==> fields[j].None?
  }

  /** The filled slots carry pairwise different names. */
  predicate UniqueNames(fields: seq<Option<Field>>)
  {
    forall i, j :: 0 <= i < j < |fields| && fields[i].Some? && fields[j].Some? ==>
      fields[i].value.name != fields[j].value.name
  }

  /** The scan of `addField` from slot `i` on. */
  function AddFieldFrom(fields: seq<Option<Field>>, f: Field, i: nat): (r: Result<seq<Option<Field>>, TableError>)
    requires i <= |fields|
    requires forall j :: 0 <= j < i ==> fields[j].Some? && fields[j].value.name != f.name
    ensures r.Ok? <==> FilledPrefix(fields) < |fields| && !NameIn(fields[..FilledPrefix(fields)], f.name)
    ensures r.Ok? ==> r.value == fields[FilledPrefix(fields) := Some(f)]
    ensures r.Err? ==> r.error == DuplicateField(f.name) || r.error == AddFieldOverrun
    ensures r == Err(AddFieldOverrun) <==> FilledPrefix(fields) == |fields| && !NameIn(fields, f.name)
    decreases |fields| - i
  {
    if i == |fields| then
      assert fields[..|fields|] == fields;
      Err(AddFieldOverrun)
    else if fields[i].None? then
      assert FilledPrefix(fields) == i by { FilledPrefixAt(fields, i); }
      Ok(fields[i := Some(f)])
    else if fields[i].value.name == f.name then
      assert NameIn(fields, f.name);
      var k := FilledPrefix(fields);
      assert i < k by { FilledPrefixAt(fields, i + 1); }
      assert fields[..k][i] == fields[i];
      Err(DuplicateField(f.name))
    else
      AddFieldFrom(fields, f, i + 1)
  }

  /** Where the first empty slot is, given that the slots before `i` are filled. */
  lemma {:induction false} FilledPrefixAt(fields: seq<Option<Field>>, i: nat)
    requires i <= |fields|
    requires forall j :: 0 <= j < i ==> fields[j].Some?
    ensures FilledPrefix(fields) >= i
    ensures i < |fields| && fields[i].None? ==> FilledPrefix(fields) == i
  {
    if i > 0 {
      FilledPrefixAt(fields[1..], i - 1);
    }
  }

  /** `addField`: the field goes into the first empty slot unless a filled
      slot before it has the same name; with no empty slot left the add
      overruns.  Nothing but the slot list changes. */
  function AddField(t: Table, f: Field): (r: Result<Table, TableError>)
    ensures r.Ok? <==> FilledPrefix(t.fields) < |t.fields| && !NameIn(t.fields[..FilledPrefix(t.fields)], f.name)
    ensures r.Ok? ==> r.value == t.(fields := t.fields[FilledPrefix(t.fields) := Some(f)])
    ensures r.Err? ==> r.error == DuplicateField(f.name) || r.error == AddFieldOverrun
    ensures r == Err(AddFieldOverrun) <==> FilledPrefix(t.fields) == |t.fields| && !NameIn(t.fields, f.name)
  {
    var fields :- AddFieldFrom(t.fields, f, 0);
    Ok(t.(fields := fields))
  }

  /** Adding fields keeps the slots packed and the names unique, and fills
      exactly one more slot. */
  lemma AddFieldKeepsPacked(t: Table, f: Field)
    requires Packed(t.fields) && UniqueNames(t.fields)
    requires AddField(t, f).Ok?
    ensures Packed(AddField(t, f).value.fields)
    ensures UniqueNames(AddField(t, f).value.fields)
    ensures FilledPrefix(AddField(t, f).value.fields) == FilledPrefix(t.fields) + 1
  {
    var k := FilledPrefix(t.fields);
    var fs := AddField(t, f).value.fields;
    forall j | 0 <= j < k ensures fs[j].value.name != f.name {
      assert t.fields[..k][j] == t.fields[j];
    }
    FilledPrefixAt(fs, k + 1);
  }

  /** The names of `fs` are pairwise different. */
  predicate FieldNamesDistinct(fs: seq<Field>)
  {
    forall i, j :: 0 <= i < j < |fs| ==> fs[i].name != fs[j].name
  }

  /** The first `k` slots hold the fields `fs[..k]`, the rest are empty. */
  predicate FilledWith(fields: seq<Option<Field>>, fs: seq<Field>, k: nat)
  {
    && |fields| == |fs|
    && forall i :: 0 <= i < |fs| ==> fields[i] == if i < k then Some(fs[i]) else None
  }

  /** `addField` applied to each of `fs` in turn; the first failure stops it. */
  function AddFields(t: Table, fs: seq<Field>): Result<Table, TableError>
    decreases |fs|
  {
    if |fs| == 0 then Ok(t)
    else
      var t' :- AddFields(t, fs[..|fs| - 1]);
      AddField(t', fs[|fs| - 1])
  }

  /** The constructor taking field definitions: `init` with one slot per
      field, then `addField` for each.  It fails exactly when two fields
      share a name, and otherwise the slots hold the fields in order. */
  function NewTable(self: TableId, name: string, tableName: TableName, index: seq<multiset<nat>>, fs: seq<Field>)
    : (r: Result<Table, TableError>)
    ensures r.Ok? <==> FieldNamesDistinct(fs)
    ensures r.Err? ==> r.error.DuplicateField?
    ensures r.Ok? ==> r.value.rowCount == 0 && r.value.name == name && r.value.index == index
    ensures r.Ok? ==> |r.value.fields| == |fs| && forall i :: 0 <= i < |fs| ==> r.value.fields[i] == Some(fs[i])
  {
    var t := Init(Table(self, name, tableName, [], 0, index), |fs|);
    AddFieldsFill(t, fs, |fs|);
    assert fs[..|fs|] == fs;
    AddFields(t, fs)
  }

  /** Adding the first `k` fields to empty slots: it succeeds exactly when
      their names are pairwise different, and fills the first `k` slots. */
  lemma {:induction false} AddFieldsFill(t: Table, fs: seq<Field>, k: nat)
    requires FilledWith(t.fields, fs, 0) && k <= |fs|
    ensures AddFields(t, fs[..k]).Ok? <==> FieldNamesDistinct(fs[..k])
    ensures AddFields(t, fs[..k]).Err? ==> AddFields(t, fs[..k]).error.DuplicateField?
    ensures AddFields(t, fs[..k]).Ok? ==>
      && FilledWith(AddFields(t, fs[..k]).value.fields, fs, k)
      && AddFields(t, fs[..k]).value == t.(fields := AddFields(t, fs[..k]).value.fields)
  {
    if k > 0 {
      AddFieldsFill(t, fs, k - 1);
      var prefix := fs[..k];
      assert prefix[..k - 1] == fs[..k - 1];
      var prev := AddFields(t, fs[..k - 1]);
      if prev.Ok? {
        AddFieldStep(prev.value, fs, k - 1);
      }
    }
  }

  /** One step of `AddFieldsFill`: adding field `k` to slots filled with
      `fs[..k]`. */
  lemma AddFieldStep(t: Table, fs: seq<Field>, k: nat)
    requires k < |fs| && FilledWith(t.fields, fs, k) && FieldNamesDistinct(fs[..k])
    ensures AddField(t, fs[k]).Ok? <==> FieldNamesDistinct(fs[..k + 1])
    ensures AddField(t, fs[k]).Err? ==> AddField(t, fs[k]).error.DuplicateField?
    ensures AddField(t, fs[k]).Ok? ==> FilledWith(AddField(t, fs[k]).value.fields, fs, k + 1)
  {
    FilledPrefixAt(t.fields, k);
    assert FilledPrefix(t.fields) == k;
    var n := fs[k].name;
    if NameIn(t.fields[..k], n) {
      var j :| 0 <= j < k && t.fields[..k][j].Some? && t.fields[..k][j].value.name == n;
      assert fs[..k + 1][j] == fs[j] && fs[..k + 1][k] == fs[k];
    } else {
      var w := fs[..k + 1];
      forall i, j | 0 <= i < j < |w| ensures w[i].name != w[j].name {
        if j < k {
          assert w[i] == fs[..k][i] && w[j] == fs[..k][j];
        } else {
          assert t.fields[..k][i] == Some(fs[i]);
        }
      }
    }
  }

  /** `getFields`: a new array holding the slots in order. */
  method GetFields(t: Table) returns (r: array<Option<Field>>)
    ensures fresh(r)
    ensures r[..] == t.fields
  {
    r := new Option<Field>[|t.fields|](i requires 0 <= i < |t.fields| => t.fields[i]);
  }

  /** The column loop of both `findFieldName`s, from slot `i` on: the first
      column named `n`, -1 when none is, and an error on reaching an empty
      slot (the Java loop dereferences it). */
  function FindColumnFrom(fields: seq<Option<Field>>, n: string, i: nat): (r: Result<int, TableError>)
    requires i <= |fields|
    requires forall j :: 0 <= j < i ==> fields[j].Some? && fields[j].value.name != n
    ensures r.Ok? && r.value >= 0 ==>
      r.value < |fields| && fields[r.value].Some? && fields[r.value].value.name == n
    ensures r.Ok? ==> r.value >= -1
    ensures r.Ok? ==> forall j :: 0 <= j < r.value ==> fields[j].Some? && fields[j].value.name != n
    ensures r == Ok(-1) <==> forall j :: 0 <= j < |fields| ==> fields[j].Some? && fields[j].value.name != n
    ensures r.Err? ==> r.error.NullField? && r.error.column == FilledPrefix(fields)
    ensures r.Err? <==> FilledPrefix(fields) < |fields| && !NameIn(fields[..FilledPrefix(fields)], n)
    decreases |fields| - i
  {
    if i == |fields| then
      assert fields[..FilledPrefix(fields)] == fields;
      Ok(-1)
    else if fields[i].None? then
      FilledPrefixAt(fields, i);
      Err(NullField(i))
    else if fields[i].value.name == n then
      FilledPrefixAt(fields, i + 1);
      assert fields[..FilledPrefix(fields)][i] == fields[i];
      Ok(i)
    else
      FindColumnFrom(fields, n, i + 1)
  }

  /** `findFieldName(String)`: splits at the first '.'; when the prefix is
      this table's name, looks the rest up among the columns, else -1. */
  function FindFieldNameString(t: Table, qualified: string): (r: Result<int, TableError>)
    ensures '.' !in qualified ==> r == Err(NoDelimiter)
    ensures '.' in qualified && qualified[..IndexOf(qualified, '.')] != t.name ==> r == Ok(-1)
    ensures '.' in qualified && qualified[..IndexOf(qualified, '.')] == t.name ==>
      r == FindColumnFrom(t.fields, qualified[IndexOf(qualified, '.') + 1..], 0)
  {
    var p := IndexOf(qualified, '.');
    if p == -1 then Err(NoDelimiter)
    else if qualified[..p] == t.name then FindColumnFrom(t.fields, qualified[p + 1..], 0)
    else Ok(-1)
  }

  /** `findFieldName(Variable)`: -1 unless the reference is qualified by this
      very table name; then the first column with the name, or -1. */
  function FindFieldNameVariable(t: Table, v: Variable): (r: Result<int, TableError>)
    ensures v.table != Some(t.tableName) ==> r == Ok(-1)
    ensures v.table == Some(t.tableName) ==> r == FindColumnFrom(t.fields, v.name, 0)
  {
    if v.table.Some? && v.table.value == t.tableName then FindColumnFrom(t.fields, v.name, 0)
    else Ok(-1)
  }

  /** `getResolvedColumnName(column)`: the table name, a dot, and the
      column name; a column past the slots, or an unfilled slot, makes the
      Java code throw. */
  function GetResolvedColumnName(t: Table, column: nat): (r: Result<string, TableError>)
    ensures r.Ok? <==> column < |t.fields| && t.fields[column].Some?
    ensures r.Err? ==> r.error == if column < |t.fields| then NullField(column) else ColumnOutOfRange(column)
    ensures r.Ok? ==> |r.value| > |t.name| && r.value[..|t.name|] == t.name && r.value[|t.name|] == '.'
    ensures r.Ok? ==> r.value[|t.name| + 1..] == t.fields[column].value.name
  {
    if column >= |t.fields| then Err(ColumnOutOfRange(column))
    else match t.fields[column]
      case None => Err(NullField(column))
      case Some(f) => Ok(t.name + "." + f.name)
  }

  /** `getResolvedVariable(column)`: the column name qualified by the table
      name, with the same failures as `getResolvedColumnName`. */
  function GetResolvedVariable(t: Table, column: nat): (r: Result<Variable, TableError>)
    ensures r.Ok? <==> column < |t.fields| && t.fields[column].Some?
    ensures r.Err? ==> r.error == if column < |t.fields| then NullField(column) else ColumnOutOfRange(column)
    ensures r.Ok? ==> r.value.table == Some(t.tableName) && r.value.name == t.fields[column].value.name
  {
    if column >= |t.fields| then Err(ColumnOutOfRange(column))
    else match t.fields[column]
      case None => Err(NullField(column))
      case Some(f) => Ok(Variable(Some(t.tableName), f.name))
  }

  /** Round trip: in a table whose name has no dot and whose slots are
      packed with different names, looking up a column's resolved name, as a
      string or as a variable, finds that column. */
  lemma ResolvedNameFound(t: Table, column: nat)
    requires Packed(t.fields) && UniqueNames(t.fields) && '.' !in t.name
    requires column < |t.fields| && t.fields[column].Some?
    ensures FindFieldNameString(t, GetResolvedColumnName(t, column).value) == Ok(column)
    ensures FindFieldNameVariable(t, GetResolvedVariable(t, column).value) == Ok(column)
  {
    var n := t.fields[column].value.name;
    var q := t.name + "." + n;
    var p := IndexOf(q, '.');
    assert q[|t.name|] == '.';
    assert q[..|t.name|] == t.name;
    assert q[..p] == t.name;
    assert q[p + 1..] == n;
    FilledPrefixAt(t.fields, column + 1);
    assert t.fields[..FilledPrefix(t.fields)][column] == t.fields[column];
    var found := FindColumnFrom(t.fields, n, 0);
    assert found.Ok? && found.value >= 0;
    assert found.value == column;
  }

  /** Round trip: a field added under a dot-free table name is found again,
      by string and by variable, at the slot it went into. */
  lemma AddThenFind(t: Table, f: Field)
    requires Packed(t.fields) && '.' !in t.name
    requires AddField(t, f).Ok?
    ensures FindFieldNameString(AddField(t, f).value, t.name + "." + f.name) == Ok(FilledPrefix(t.fields))
    ensures FindFieldNameVariable(AddField(t, f).value, Variable(Some(t.tableName), f.name)) == Ok(FilledPrefix(t.fields))
  {
    var k := FilledPrefix(t.fields);
    var t' := AddField(t, f).value;
    var q := t.name + "." + f.name;
    var p := IndexOf(q, '.');
    assert q[|t.name|] == '.';
    assert q[..|t.name|] == t.name;
    assert q[..p] == t.name;
    assert q[p + 1..] == f.name;
    forall j | 0 <= j < k ensures t'.fields[j].Some? && t'.fields[j].value.name != f.name {
      assert t.fields[..k][j] == t.fields[j];
    }
    FilledPrefixAt(t'.fields, k + 1);
    var found := FindColumnFrom(t'.fields, f.name, 0);
    assert t'.fields[..FilledPrefix(t'.fields)][k] == t'.fields[k];
    assert found.Ok? && found.value >= 0;
    assert found.value == k;
  }

  /** `getSelectableSchemeFor`: the root index itself for this table, else
      its projection into the requesting table's domain. */
  function GetSelectableSchemeFor(t: Table, column: nat, originalColumn: nat, table: TableId): (r: Scheme)
    ensures r.RootScheme? <==> table == t.self
    ensures r.RootScheme? ==> r == RootScheme(t.self, column)
    ensures r.SubsetScheme? ==> r.base == RootScheme(t.self, column) && r.domain == table && r.column == originalColumn
  {
    var root := RootScheme(t.self, column);
    if table == t.self then root else SubsetScheme(root, table, originalColumn)
  }

  /** `setToRowTableDomain`: the base table is the bottom of every chain, so
      the row set is already in its domain; any other ancestor is an error. */
  function SetToRowTableDomain(t: Table, rowSet: seq<nat>, ancestor: TableId): (r: Result<seq<nat>, TableError>)
    ensures r.Ok? <==> ancestor == t.self
    ensures r.Ok? ==> r.value == rowSet
    ensures r.Err? ==> r.error == IncorrectAncestor
  {
    if ancestor != t.self then Err(IncorrectAncestor) else Ok(rowSet)
  }

  /** `resolveToRawTable`: appends the table itself with every row it enumerates. */
  function ResolveToRawTable(t: Table, info: seq<Segment>): (r: seq<Segment>)
    ensures |r| == |info| + 1 && r[..|info|] == info
    ensures r[|info|].table == t.self && r[|info|].rows == Range(t.rowCount)
  {
    info + [Segment(t.self, Range(t.rowCount))]
  }

  /** `validColumns`: every column of a base table is valid. */
  method ValidColumns(t: Table) returns (r: seq<bool>)
    ensures |r| == |t.fields|
    ensures forall i :: 0 <= i < |r| ==> r[i]
  {
    r := [];
    var i := 0;
    while i < |t.fields|
      invariant i <= |t.fields| && |r| == i
      invariant forall j :: 0 <= j < i ==> r[j]
    {
      r := r + [true];
      i := i + 1;
    }
  }

  /** `addCellToColumnSchemes(row, column)`: the row goes into the root
      index of that one column when the column is quantifiable; `getFieldAt`
      throws for a column past the slots and for an unfilled slot. */
  function AddCellToColumnSchemes(t: Table, row: nat, column: nat): (r: Result<Table, TableError>)
    requires WellFormed(t)
    ensures r.Ok? <==> column < |t.fields| && t.fields[column].Some?
    ensures r.Err? ==> r.error == if column < |t.fields| then NullField(column) else ColumnOutOfRange(column)
    ensures r.Ok? ==> r.value == t.(index := r.value.index) && |r.value.index| == |t.index|
    ensures r.Ok? ==> forall k :: 0 <= k < |t.index| && k != column ==> r.value.index[k] == t.index[k]
    ensures r.Ok? ==> (r.value.index[column] == t.index[column] <==> !t.fields[column].value.quantifiable)
    ensures r.Ok? && t.fields[column].value.quantifiable ==>
      r.value.index[column][row] == t.index[column][row] + 1 && r.value.index[column] - multiset{row} == t.index[column]
  {
    if column >= |t.fields| then Err(ColumnOutOfRange(column))
    else match t.fields[column]
      case None => Err(NullField(column))
      case Some(f) =>
        if f.quantifiable then Ok(t.(index := t.index[column := t.index[column] + multiset{row}]))
        else Ok(t)
  }

  /** Adding a whole row does to each column's index what adding the cell
      of that column alone does. */
  lemma RowInsertIsCellInserts(t: Table, t1: Table, row: nat, column: nat)
    requires WellFormed(t) && forall i :: 0 <= i < |t.fields| ==> t.fields[i].Some?
    requires SchemesAfterInsert(t, t1, row) && column < |t.fields|
    ensures t1.index[column] == AddCellToColumnSchemes(t, row, column).value.index[column]
  {
  }

  /** The effect of `addRowToColumnSchemes` on the root indexes. */
  predicate SchemesAfterInsert(t: Table, t': Table, row: nat)
    requires WellFormed(t)
    requires forall i :: 0 <= i < |t.fields| ==> t.fields[i].Some?
  {
    && t' == t.(index := t'.index)
    && |t'.index| == |t.index|
    && forall i :: 0 <= i < |t.index| ==>
         t'.index[i] == if t.fields[i].value.quantifiable then t.index[i] + multiset{row} else t.index[i]
  }

  /** The effect of `removeRowToColumnSchemes` on the root indexes. */
  predicate SchemesAfterRemove(t: Table, t': Table, row: nat)
    requires WellFormed(t)
    requires forall i :: 0 <= i < |t.fields| ==> t.fields[i].Some?
  {
    && t' == t.(index := t'.index)
    && |t'.index| == |t.index|
    && forall i :: 0 <= i < |t.index| ==>
         t'.index[i] == if t.fields[i].value.quantifiable then t.index[i] - multiset{row} else t.index[i]
  }

  /** `addRowToColumnSchemes` (`insert` = true) and `removeRowToColumnSchemes`
      (`insert` = false): visits the columns in order and updates the root
      index of each quantifiable one.  An unfilled slot is dereferenced by
      the Java loop; it is reported as an error. */
  method UpdateColumnSchemes(t: Table, row: nat, insert: bool) returns (r: Result<Table, TableError>)
    requires WellFormed(t)
    ensures r.Ok? <==> forall i :: 0 <= i < |t.fields| ==> t.fields[i].Some?
    ensures r.Err? ==> r.error == NullField(FilledPrefix(t.fields))
    ensures r.Ok? && insert ==> SchemesAfterInsert(t, r.value, row)
    ensures r.Ok? && !insert ==> SchemesAfterRemove(t, r.value, row)
  {
    var index := t.index;
    var i := 0;
    while i < |t.fields|
      invariant i <= |t.fields| && |index| == |t.index|
      invariant forall j :: 0 <= j < i ==> t.fields[j].Some?
      invariant forall j :: i <= j < |index| ==> index[j] == t.index[j]
      invariant forall j :: 0 <= j < i ==>
        index[j] == (if !t.fields[j].value.quantifiable then t.index[j]
                     else if insert then t.index[j] + multiset{row} else t.index[j] - multiset{row})
    {
      if t.fields[i].None? {
        FilledPrefixAt(t.fields, i);
        return Err(NullField(i));
      }
      if t.fields[i].value.quantifiable {
        index := index[i := if insert then index[i] + multiset{row} else index[i] - multiset{row}];
      }
      i := i + 1;
    }
    SchemesUpdated(t, index, row, insert);
    r := Ok(t.(index := index));
  }

  /** The root indexes the loop of `UpdateColumnSchemes` leaves behind are
      the ones the two effects describe. */
  lemma SchemesUpdated(t: Table, index: seq<multiset<nat>>, row: nat, insert: bool)
    requires WellFormed(t) && |index| == |t.index|
    requires forall j :: 0 <= j < |t.fields| ==> t.fields[j].Some?
    requires forall j :: 0 <= j < |t.fields| ==>
      index[j] == (if !t.fields[j].value.quantifiable then t.index[j]
                   else if insert then t.index[j] + multiset{row} else t.index[j] - multiset{row})
    ensures insert ==> SchemesAfterInsert(t, t.(index := index), row)
    ensures !insert ==> SchemesAfterRemove(t, t.(index := index), row)
  {
  }

  /** Removing a row that was just added restores every root index. */
  lemma RemoveUndoesInsert(t: Table, t1: Table, t2: Table, row: nat)
    requires WellFormed(t) && forall i :: 0 <= i < |t.fields| ==> t.fields[i].Some?
    requires SchemesAfterInsert(t, t1, row)
    requires SchemesAfterRemove(t1, t2, row)
    ensures t2 == t
  {
    assert t1.fields == t.fields;
    forall i | 0 <= i < |t.index| ensures t2.index[i] == t.index[i] {
      if t.fields[i].value.quantifiable {
        assert t1.index[i] - multiset{row} == t.index[i];
      }
    }
    assert t2.index == t.index;
  }
}
