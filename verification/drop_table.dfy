/** The `DROP TABLE` statement: its list of table names is checked for
    repeats when the statement is prepared; evaluating it checks the drop
    privilege of every table, then that no table outside the list refers to
    one being dropped, then (unless `IF EXISTS` was given) that every table
    exists, and only after all of that drops the tables that exist. */
module DropTable {
  import opened Wrappers

  datatype TableName = TableName(schema: string, name: string)

  /** An imported foreign key: constraint `name`, declared by `keyTable`. */
  datatype Reference = Reference(name: string, keyTable: TableName)

  /** What the statement asks of the database and the user, as oracles:
      name resolution against the current schema, the user's drop
      privilege, and the foreign keys that refer to a table. */
  datatype Catalog = Catalog(
    resolve: string -> TableName,
    canDrop: TableName -> bool,
    importedReferences: TableName -> seq<Reference>)

  datatype Error =
    | DuplicateTable(entry: string)
    | AccessDenied(table: TableName)
    | DropViolation(constraint: string, table: TableName, keyTable: TableName)
    | NoSuchTable(table: TableName)

  datatype Statement = Statement(onlyIfExists: bool, dropTables: seq<string>)

  /** The result of a drop: the tables left and how many were dropped. */
  datatype Outcome = Outcome(tables: set<TableName>, dropped: nat)

  /** `prepare`: the first entry that occurs again later in the list is
      reported. */
  method Prepare(onlyIfExists: bool, tableList: seq<string>) returns (r: Result<Statement, Error>)
    ensures r.Ok? <==> Distinct(tableList)
    ensures r.Ok? ==> r.value == Statement(onlyIfExists, tableList)
    ensures r.Err? ==> exists i, n :: 0 <= i < n < |tableList| && tableList[i] == tableList[n]
                                    && r.error == DuplicateTable(tableList[i])
                                    && forall a :: 0 <= a < i ==> tableList[a] !in tableList[a + 1..]
  {
    for i := 0 to |tableList|
      invariant forall a, b :: 0 <= a < i && a < b < |tableList| ==> tableList[a] != tableList[b]
    {
      var check := tableList[i];
      for n := i + 1 to |tableList|
        invariant forall b :: i < b < n ==> tableList[b] != check
      {
        if tableList[n] == check {
          return Err(DuplicateTable(check));
        }
      }
    }
    return Ok(Statement(onlyIfExists, tableList));
  }

  function Resolved(c: Catalog, names: seq<string>): (r: seq<TableName>)
    ensures |r| == |names| && forall i :: 0 <= i < |names| ==> r[i] == c.resolve(names[i])
  {
    seq(|names|, i requires 0 <= i < |names| => c.resolve(names[i]))
  }

  /** The first table the user may not drop. */
  function CheckPrivileges(c: Catalog, tables: seq<TableName>): (r: Option<Error>)
    ensures r.None? <==> forall i :: 0 <= i < |tables| ==> c.canDrop(tables[i])
    ensures r.Some? ==> exists i :: 0 <= i < |tables| && !c.canDrop(tables[i]) && r.value == AccessDenied(tables[i])
                                   && forall j :: 0 <= j < i ==> c.canDrop(tables[j])
  {
    if |tables| == 0 then None
    else if !c.canDrop(tables[0]) then Some(AccessDenied(tables[0]))
    else
      var rest := CheckPrivileges(c, tables[1..]);
      assert forall i :: 0 < i < |tables| ==> tables[i] == tables[1..][i - 1];
      rest
  }

  /** Every foreign key that refers to `table` must be declared by a table
      of `dropping`; the first that is not is reported. */
  function CheckReferencesOf(table: TableName, refs: seq<Reference>, dropping: seq<TableName>): (r: Option<Error>)
    ensures r.None? <==> forall n :: 0 <= n < |refs| ==> refs[n].keyTable in dropping
    ensures r.Some? ==> exists n :: 0 <= n < |refs| && refs[n].keyTable !in dropping
                          && r.value == DropViolation(refs[n].name, table, refs[n].keyTable)
                          && forall m :: 0 <= m < n ==> refs[m].keyTable in dropping
  {
    if |refs| == 0 then None
    else if refs[0].keyTable !in dropping then Some(DropViolation(refs[0].name, table, refs[0].keyTable))
    else
      var rest := CheckReferencesOf(table, refs[1..], dropping);
      assert forall n :: 0 < n < |refs| ==> refs[n] == refs[1..][n - 1];
      rest
  }

  /** No table outside the list may keep a foreign key into the list. */
  predicate ReferencesClosed(c: Catalog, tables: seq<TableName>)
  {
    forall i, n :: 0 <= i < |tables| && 0 <= n < |c.importedReferences(tables[i])| ==>
      c.importedReferences(tables[i])[n].keyTable in tables
  }

  /** The referential check over the tables `todo`, a suffix of the list. */
  function CheckReferences(c: Catalog, todo: seq<TableName>, dropping: seq<TableName>): (r: Option<Error>)
    ensures r.None? <==> forall i, n :: 0 <= i < |todo| && 0 <= n < |c.importedReferences(todo[i])| ==>
                                         c.importedReferences(todo[i])[n].keyTable in dropping
    ensures r.Some? ==>
      exists i, n ::
        && 0 <= i < |todo| && 0 <= n < |c.importedReferences(todo[i])|
        && c.importedReferences(todo[i])[n].keyTable !in dropping
        && r.value == DropViolation(c.importedReferences(todo[i])[n].name, todo[i], c.importedReferences(todo[i])[n].keyTable)
        && (forall j, m :: 0 <= j < i && 0 <= m < |c.importedReferences(todo[j])| ==>
              c.importedReferences(todo[j])[m].keyTable in dropping)
        && (forall m :: 0 <= m < n ==> c.importedReferences(todo[i])[m].keyTable in dropping)
  {
    if |todo| == 0 then None
    else
      var first := CheckReferencesOf(todo[0], c.importedReferences(todo[0]), dropping);
      if first.Some? then first
      else
        var rest := CheckReferences(c, todo[1..], dropping);
        assert forall i :: 0 < i < |todo| ==> todo[i] == todo[1..][i - 1];
        rest
  }

  /** The first table that does not exist. */
  function CheckExistence(tables: seq<TableName>, existing: set<TableName>): (r: Option<Error>)
    ensures r.None? <==> forall i :: 0 <= i < |tables| ==> tables[i] in existing
    ensures r.Some? ==> exists i :: 0 <= i < |tables| && tables[i] !in existing && r.value == NoSuchTable(tables[i])
                                   && forall j :: 0 <= j < i ==> tables[j] in existing
  {
    if |tables| == 0 then None
    else if tables[0] !in existing then Some(NoSuchTable(tables[0]))
    else
      var rest := CheckExistence(tables[1..], existing);
      assert forall i :: 0 < i < |tables| ==> tables[i] == tables[1..][i - 1];
      rest
  }

  /** The tables a list names. */
  function Listed(tables: seq<TableName>): (r: set<TableName>)
    ensures forall t :: t in r <==> t in tables
  {
    if |tables| == 0 then {}
    else
      var init := tables[..|tables| - 1];
      assert forall t :: t in tables <==> t in init || t == tables[|tables| - 1] by {
        assert tables == init + [tables[|tables| - 1]];
      }
      Listed(init) + {tables[|tables| - 1]}
  }

  /** The drop loop: each table that exists at its turn is dropped and
      counted.  Two entries of the list may resolve to the same table; the
      second then finds it gone. */
  method DropAll(tables: seq<TableName>, existing: set<TableName>) returns (o: Outcome)
    ensures o.tables == existing - Listed(tables)
    ensures o.dropped == |existing * Listed(tables)|
  {
    var current := existing;
    var count := 0;
    for i := 0 to |tables|
      invariant current == existing - Listed(tables[..i])
      invariant count == |existing * Listed(tables[..i])|
    {
      var seen := Listed(tables[..i]);
      assert tables[..i + 1][..i] == tables[..i];
      assert Listed(tables[..i + 1]) == seen + {tables[i]};
      if tables[i] in current {
        assert existing * (seen + {tables[i]}) == (existing * seen) + {tables[i]};
        assert tables[i] !in existing * seen;
        current := current - {tables[i]};
        count := count + 1;
      } else {
        assert existing * (seen + {tables[i]}) == existing * seen;
      }
    }
    assert tables[..|tables|] == tables;
    o := Outcome(current, count);
  }

  /** `evaluate` on a prepared statement and the tables that exist; the
      statement's own result table always holds 0. */
  method Evaluate(c: Catalog, s: Statement, existing: set<TableName>) returns (r: Result<Outcome, Error>)
    ensures r.Err? <==> !Permitted(c, s, existing)
    ensures r.Ok? ==> r.value == Dropped(Resolved(c, s.dropTables), existing)
    ensures r.Err? ==> r.error == FirstFailure(c, s, existing).value
  {
    var resolved := Resolved(c, s.dropTables);
    var failure := CheckPrivileges(c, resolved);
    if failure.Some? {
      return Err(failure.value);
    }
    failure := CheckReferences(c, resolved, resolved);
    if failure.Some? {
      return Err(failure.value);
    }
    if !s.onlyIfExists {
      failure := CheckExistence(resolved, existing);
      if failure.Some? {
        return Err(failure.value);
      }
    }
    var o := DropAll(resolved, existing);
    return Ok(o);
  }

  /** The three checks in the order they run: privileges on every table,
      then references, then existence; the first that fails decides. */
  function FirstFailure(c: Catalog, s: Statement, existing: set<TableName>): Option<Error>
  {
    var resolved := Resolved(c, s.dropTables);
    var privileges := CheckPrivileges(c, resolved);
    if privileges.Some? then privileges
    else
      var references := CheckReferences(c, resolved, resolved);
      if references.Some? then references
      else if s.onlyIfExists then None
      else CheckExistence(resolved, existing)
  }

  /** Whether the drop goes ahead: the user may drop every table, the list
      is closed under foreign keys, and every table exists unless `IF
      EXISTS` was given. */
  predicate Permitted(c: Catalog, s: Statement, existing: set<TableName>)
  {
    var resolved := Resolved(c, s.dropTables);
    && (forall i :: 0 <= i < |resolved| ==> c.canDrop(resolved[i]))
    && ReferencesClosed(c, resolved)
    && (!s.onlyIfExists ==> forall i :: 0 <= i < |resolved| ==> resolved[i] in existing)
  }

  /** What a permitted drop leaves: every listed table removed, and the
      count of listed tables that existed. */
  function Dropped(tables: seq<TableName>, existing: set<TableName>): Outcome
  {
    var listed := Listed(tables);
    Outcome(existing - listed, |existing * listed|)
  }

  /** How many entries of the list name an existing table. */
  function CountExisting(tables: seq<TableName>, existing: set<TableName>): (r: nat)
    ensures r <= |tables|
  {
    if |tables| == 0 then 0
    else CountExisting(tables[..|tables| - 1], existing) + (if tables[|tables| - 1] in existing then 1 else 0)
  }

  /** The checks fail exactly when the drop is not permitted, and a denied
      privilege on any table is reported before any referential or
      existence failure; a referential failure before an existence one. */
  lemma FirstFailureOrder(c: Catalog, s: Statement, existing: set<TableName>)
    ensures FirstFailure(c, s, existing).None? <==> Permitted(c, s, existing)
    ensures var resolved := Resolved(c, s.dropTables);
      && ((exists i :: 0 <= i < |resolved| && !c.canDrop(resolved[i])) ==>
            FirstFailure(c, s, existing).Some? && FirstFailure(c, s, existing).value.AccessDenied?)
      && ((forall i :: 0 <= i < |resolved| ==> c.canDrop(resolved[i])) && !ReferencesClosed(c, resolved) ==>
            FirstFailure(c, s, existing).Some? && FirstFailure(c, s, existing).value.DropViolation?)
  {
  }

  /** With a list of different tables, the count is the number of entries
      that named an existing table. */
  lemma {:induction false} DroppedCountsExisting(tables: seq<TableName>, existing: set<TableName>)
    requires Distinct(tables)
    ensures Dropped(tables, existing).dropped == CountExisting(tables, existing)
    decreases |tables|
  {
    if |tables| > 0 {
      var last := tables[|tables| - 1];
      var init := tables[..|tables| - 1];
      assert Distinct(init);
      DroppedCountsExisting(init, existing);
      assert Listed(tables) == Listed(init) + {last};
      assert last !in init;
      MeetNew(existing, Listed(init), last);
    }
  }

  /** Adding an element not yet in `b` to it adds one to its meet with `a`
      exactly when the element is in `a`. */
  lemma MeetNew<T>(a: set<T>, b: set<T>, x: T)
    requires x !in b
    ensures |a * (b + {x})| == |a * b| + (if x in a then 1 else 0)
  {
    if x in a {
      assert a * (b + {x}) == (a * b) + {x};
    } else {
      assert a * (b + {x}) == a * b;
    }
  }
}
