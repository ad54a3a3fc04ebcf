/** Name resolution over a chain of query scopes (`TableExpressionFromSet`):
    computed-column aliases, table resources, ambiguity errors and correlated
    references found in enclosing scopes. */
module Scope {
  import opened Wrappers
  import opened DataTable

  /** An expression bound to an alias; its structure plays no part here. */
  datatype Expr = Expr(id: nat)

  /** A computed column `SELECT (a + b) AS name`. */
  datatype Alias = Alias(name: string, expr: Expr)

  /** A table resource of the FROM clause.  Its column matching is supplied
      by the resource: `columnsMatching(schema, table, column)` lists the
      qualified columns a (possibly partial) reference matches, so the
      resource's `resolveColumnCount` is the length of that list and
      `resolveColumn` its only element; `matchesReference(schema, name)`
      tells whether the resource answers to the table name. */
  datatype FromTable = FromTable(
    columnsMatching: (Option<string>, Option<string>, string) -> seq<Variable>,
    matchesReference: (Option<string>, string) -> bool)

  /** One scope: its table resources, its aliases, the variables it exposes
      and its case-sensitivity mode.  A chain of scopes is a sequence whose
      element 0 is the innermost scope and element i+1 the parent of i. */
  datatype Scope = Scope(
    tables: seq<FromTable>,
    aliases: seq<Alias>,
    exposed: seq<Variable>,
    caseInsensitive: bool)

  datatype ScopeError = Ambiguous(reference: Variable) | NotFound(reference: Variable)

  /** A resolved reference: found in the scope itself, or in the enclosing
      scope `level` steps out. */
  datatype Qualified = Local(v: Variable) | Correlated(v: Variable, level: nat)

  /** ASCII case folding of `Character.toUpperCase`. */
  function ToUpper(c: char): char
  {
    if 'a' <= c <= 'z' then (c as int - 'a' as int + 'A' as int) as char else c
  }

  /** `String.equalsIgnoreCase`, with case folding restricted to ASCII. */
  predicate EqualsIgnoreCase(a: string, b: string)
  {
    |a| == |b| && forall i :: 0 <= i < |a| ==> a[i] == b[i] || ToUpper(a[i]) == ToUpper(b[i])
  }

  /** `stringCompare`: exact equality, or equality ignoring case in the
      case-insensitive mode. */
  predicate StringCompare(caseInsensitive: bool, a: string, b: string)
  {
    if !caseInsensitive then a == b else EqualsIgnoreCase(a, b)
  }

  /** In either mode name matching is an equivalence, and an exact match is
      a match in both modes. */
  lemma StringCompareIsEquivalence(ci: bool, a: string, b: string, c: string)
    ensures StringCompare(ci, a, a)
    ensures StringCompare(ci, a, b) ==> StringCompare(ci, b, a)
    ensures StringCompare(ci, a, b) && StringCompare(ci, b, c) ==> StringCompare(ci, a, c)
    ensures a == b ==> StringCompare(true, a, b) && StringCompare(false, a, b)
  {
  }

  /** The case-insensitive mode matches more: exactly the names that agree
      up to ASCII case. */
  lemma CaseInsensitiveMatchesMore(a: string, b: string)
    ensures StringCompare(false, a, b) ==> StringCompare(true, a, b)
    ensures StringCompare(true, a, b) <==>
      |a| == |b| && forall i :: 0 <= i < |a| ==> ToUpper(a[i]) == ToUpper(b[i])
  {
  }

  /** Number of aliases whose name matches `name`. */
  function CountMatches(aliases: seq<Alias>, ci: bool, name: string): nat
  {
    if |aliases| == 0 then 0
    else CountMatches(aliases[..|aliases| - 1], ci, name)
         + (if StringCompare(ci, aliases[|aliases| - 1].name, name) then 1 else 0)
  }

  lemma CountMatchesStep(aliases: seq<Alias>, ci: bool, name: string, i: nat)
    requires i < |aliases|
    ensures CountMatches(aliases[..i + 1], ci, name) ==
      CountMatches(aliases[..i], ci, name) + (if StringCompare(ci, aliases[i].name, name) then 1 else 0)
  {
    assert aliases[..i + 1][..i] == aliases[..i];
  }

  lemma {:induction false} CountMatchesMonotone(aliases: seq<Alias>, ci: bool, name: string, i: nat)
    requires i <= |aliases|
    ensures CountMatches(aliases[..i], ci, name) <= CountMatches(aliases, ci, name)
    decreases |aliases| - i
  {
    if i == |aliases| {
      assert aliases[..i] == aliases;
    } else {
      CountMatchesStep(aliases, ci, name, i);
      CountMatchesMonotone(aliases, ci, name, i + 1);
    }
  }

  /** The alias loop shared by `dereferenceAssignment` and
      `resolveAssignmentReference`, from position `i` on, with the match
      found so far: a second match is an ambiguity. */
  function ScanAliases(aliases: seq<Alias>, ci: bool, name: string, i: nat, found: Option<nat>)
    : (r: Result<Option<nat>, ()>)
    requires i <= |aliases|
    requires found.None? ==> CountMatches(aliases[..i], ci, name) == 0
    requires found.Some? ==> found.value < i && CountMatches(aliases[..i], ci, name) == 1
    requires found.Some? ==> StringCompare(ci, aliases[found.value].name, name)
    ensures r.Err? <==> CountMatches(aliases, ci, name) >= 2
    ensures r == Ok(None) <==> CountMatches(aliases, ci, name) == 0
    ensures r.Ok? && r.value.Some? ==>
      r.value.value < |aliases| && StringCompare(ci, aliases[r.value.value].name, name)
      && CountMatches(aliases, ci, name) == 1
    decreases |aliases| - i
  {
    if i == |aliases| then
      assert aliases[..i] == aliases;
      Ok(found)
    else
      CountMatchesStep(aliases, ci, name, i);
      if StringCompare(ci, aliases[i].name, name) then
        if found.Some? then
          CountMatchesMonotone(aliases, ci, name, i + 1);
          Err(())
        else
          ScanAliases(aliases, ci, name, i + 1, Some(i))
      else
        ScanAliases(aliases, ci, name, i + 1, found)
  }

  /** `dereferenceAssignment`: the expression of the one alias an unqualified
      reference names; nothing for a qualified reference or no match. */
  function DereferenceAssignment(s: Scope, v: Variable): (r: Result<Option<Expr>, ScopeError>)
    ensures v.table.Some? ==> r == Ok(None)
    ensures v.table.None? ==> (r.Err? <==> CountMatches(s.aliases, s.caseInsensitive, v.name) >= 2)
    ensures v.table.None? ==> (r == Ok(None) <==> CountMatches(s.aliases, s.caseInsensitive, v.name) == 0)
    ensures r.Err? ==> r.error == Ambiguous(v)
    ensures r.Ok? && r.value.Some? ==>
      exists k :: 0 <= k < |s.aliases| && s.aliases[k].expr == r.value.value && StringCompare(s.caseInsensitive, s.aliases[k].name, v.name)
  {
    if v.table.Some? then Ok(None)
    else
      match ScanAliases(s.aliases, s.caseInsensitive, v.name, 0, None)
      case Err(_) => Err(Ambiguous(v))
      case Ok(None) => Ok(None)
      case Ok(Some(k)) => Ok(Some(s.aliases[k].expr))
  }

  /** `resolveAssignmentReference`: like `DereferenceAssignment`, but yields
      the alias itself as an unqualified variable, spelt as declared. */
  function ResolveAssignmentReference(s: Scope, v: Variable): (r: Result<Option<Variable>, ScopeError>)
    ensures v.table.Some? ==> r == Ok(None)
    ensures v.table.None? ==> (r.Err? <==> CountMatches(s.aliases, s.caseInsensitive, v.name) >= 2)
    ensures v.table.None? ==> (r == Ok(None) <==> CountMatches(s.aliases, s.caseInsensitive, v.name) == 0)
    ensures r.Err? ==> r.error == Ambiguous(v)
    ensures r.Ok? && r.value.Some? ==> r.value.value.table.None?
    ensures r.Ok? && r.value.Some? ==> StringCompare(s.caseInsensitive, r.value.value.name, v.name)
    ensures r.Ok? && r.value.Some? ==> exists k :: 0 <= k < |s.aliases| && s.aliases[k].name == r.value.value.name
  {
    if v.table.Some? then Ok(None)
    else
      match ScanAliases(s.aliases, s.caseInsensitive, v.name, 0, None)
      case Err(_) => Err(Ambiguous(v))
      case Ok(None) => Ok(None)
      case Ok(Some(k)) => Ok(Some(Variable(None, s.aliases[k].name)))
  }

  /** The two alias lookups agree on which references they resolve. */
  lemma AliasLookupsAgree(s: Scope, v: Variable)
    ensures DereferenceAssignment(s, v).Ok? <==> ResolveAssignmentReference(s, v).Ok?
    ensures DereferenceAssignment(s, v) == Ok(None) <==> ResolveAssignmentReference(s, v) == Ok(None)
  {
  }

  /** The parts of a reference a table resource is asked about. */
  function SchemaOf(v: Variable): Option<string>
  {
    if v.table.Some? then Some(v.table.value.schema) else None
  }

  function TableOf(v: Variable): Option<string>
  {
    if v.table.Some? then Some(v.table.value.name) else None
  }

  /** Concatenation of a list of lists. */
  function Flatten<T>(ls: seq<seq<T>>): (r: seq<T>)
  {
    if |ls| == 0 then [] else Flatten(ls[..|ls| - 1]) + ls[|ls| - 1]
  }

  /** What every table resource reports for `v`, in resource order. */
  function Reported(tables: seq<FromTable>, v: Variable): (r: seq<seq<Variable>>)
    ensures |r| == |tables|
    ensures forall i :: 0 <= i < |tables| ==> r[i] == tables[i].columnsMatching(SchemaOf(v), TableOf(v), v.name)
  {
    seq(|tables|, i requires 0 <= i < |tables| => tables[i].columnsMatching(SchemaOf(v), TableOf(v), v.name))
  }

  /** The table loop of `resolveReference` over the first `n` resources:
      a resource matching once contributes its column, one matching more
      than once makes the reference ambiguous. */
  function TableMatches(tables: seq<FromTable>, v: Variable, n: nat): (r: Result<seq<Variable>, ScopeError>)
    requires n <= |tables|
    ensures r.Ok? <==> forall i :: 0 <= i < n ==> |Reported(tables, v)[i]| <= 1
    ensures r.Ok? ==> r.value == Flatten(Reported(tables, v)[..n])
    ensures r.Err? ==> r.error == Ambiguous(v)
  {
    if n == 0 then Ok([])
    else
      var prev :- TableMatches(tables, v, n - 1);
      var cols := tables[n - 1].columnsMatching(SchemaOf(v), TableOf(v), v.name);
      assert Reported(tables, v)[..n][..n - 1] == Reported(tables, v)[..n - 1];
      if |cols| == 1 then Ok(prev + [cols[0]])
      else if |cols| > 1 then Err(Ambiguous(v))
      else Ok(prev)
  }

  /** `resolveReference`: candidates are the alias (if any) followed by the
      table matches; none resolves to nothing, one to itself, more to an
      ambiguity. */
  function ResolveReference(s: Scope, v: Variable): (r: Result<Option<Variable>, ScopeError>)
    ensures r.Err? ==> r.error == Ambiguous(v)
    ensures r.Ok? ==> ResolveAssignmentReference(s, v).Ok? && TableMatches(s.tables, v, |s.tables|).Ok?
    ensures r.Ok? <==>
      && ResolveAssignmentReference(s, v).Ok?
      && (forall i :: 0 <= i < |s.tables| ==> |Reported(s.tables, v)[i]| <= 1)
      && (if ResolveAssignmentReference(s, v).value.Some? then 1 else 0)
         + |Flatten(Reported(s.tables, v))| <= 1
    ensures r == Ok(None) ==>
      ResolveAssignmentReference(s, v) == Ok(None) && Flatten(Reported(s.tables, v)) == []
    ensures r.Ok? && r.value.Some? && ResolveAssignmentReference(s, v).value.None? ==>
      Flatten(Reported(s.tables, v)) == [r.value.value]
    ensures r.Ok? && ResolveAssignmentReference(s, v).value.Some? ==>
      r == ResolveAssignmentReference(s, v)
  {
    var alias :- ResolveAssignmentReference(s, v);
    var matched :- TableMatches(s.tables, v, |s.tables|);
    assert Reported(s.tables, v)[..|s.tables|] == Reported(s.tables, v);
    var candidates := (if alias.Some? then [alias.value] else []) + matched;
    if |candidates| == 0 then Ok(None)
    else if |candidates| == 1 then Ok(Some(candidates[0]))
    else Err(Ambiguous(v))
  }

  /** What each scope of the chain answers to `v` on its own. */
  function Answers(chain: seq<Scope>, v: Variable): (a: seq<Result<Option<Variable>, ScopeError>>)
    ensures |a| == |chain| && forall j :: 0 <= j < |chain| ==> a[j] == ResolveReference(chain[j], v)
  {
    seq(|chain|, j requires 0 <= j < |chain| => ResolveReference(chain[j], v))
  }

  /** The walk outwards from answer `i`: the first scope with an answer
      (a resolution or an error) decides, a resolution tagged with `level`
      plus its distance from `i`. */
  function FirstAnswer(answers: seq<Result<Option<Variable>, ScopeError>>, i: nat, level: nat)
    : (r: Result<Option<Qualified>, ScopeError>)
    requires i < |answers|
    ensures r == Ok(None) <==> forall j :: i <= j < |answers| ==> answers[j] == Ok(None)
    ensures r.Ok? && r.value.Some? ==>
      && r.value.value.Correlated?
      && level <= r.value.value.level < level + |answers| - i
      && answers[i + r.value.value.level - level] == Ok(Some(r.value.value.v))
      && forall j :: i <= j < i + r.value.value.level - level ==> answers[j] == Ok(None)
    ensures r.Err? ==> exists j :: i <= j < |answers| && answers[j] == Err(r.error)
                                  && forall m :: i <= m < j ==> answers[m] == Ok(None)
    decreases |answers| - i
  {
    match answers[i]
    case Err(e) => Err(e)
    case Ok(None) => if i + 1 < |answers| then FirstAnswer(answers, i + 1, level + 1) else Ok(None)
    case Ok(Some(x)) => Ok(Some(Correlated(x, level)))
  }

  /** The first answer outwards that is not "not found" decides: a
      resolution at distance `d` from `i` is correlated at `level + d`, an
      error is passed on. */
  lemma FirstAnswerDecides(answers: seq<Result<Option<Variable>, ScopeError>>, i: nat, level: nat, k: nat)
    requires i <= k < |answers| && answers[k] != Ok(None)
    requires forall m :: i <= m < k ==> answers[m] == Ok(None)
    ensures answers[k].Err? ==> FirstAnswer(answers, i, level) == Err(answers[k].error)
    ensures answers[k].Ok? ==>
      FirstAnswer(answers, i, level) == Ok(Some(Correlated(answers[k].value.value, level + k - i)))
  {
    var r := FirstAnswer(answers, i, level);
    if r.Ok? && r.value.Some? {
      var j := i + r.value.value.level - level;
      assert !(j < k) && !(k < j);
    } else if r.Err? {
      var j :| i <= j < |answers| && answers[j] == Err(r.error) && forall m :: i <= m < j ==> answers[m] == Ok(None);
      assert !(j < k) && !(k < j);
    }
  }

  /** `globalResolveReference(level, v)` asked of scope `i` of the chain:
      the first scope outwards that resolves `v` answers, tagged with
      `level` plus its distance from scope `i`. */
  function GlobalResolveReference(chain: seq<Scope>, i: nat, level: nat, v: Variable)
    : Result<Option<Qualified>, ScopeError>
    requires i < |chain|
  {
    FirstAnswer(Answers(chain, v), i, level)
  }

  /** `qualifyVariable`: a reference the innermost scope resolves is local;
      otherwise the enclosing scopes are searched starting at level 1, and
      a reference no scope resolves is not found. */
  function QualifyVariable(chain: seq<Scope>, v: Variable): (r: Result<Qualified, ScopeError>)
    requires |chain| > 0
    ensures r.Ok? && r.value.Local? ==> ResolveReference(chain[0], v) == Ok(Some(r.value.v))
    ensures r.Ok? && r.value.Correlated? ==>
      && 1 <= r.value.level < |chain|
      && ResolveReference(chain[r.value.level], v) == Ok(Some(r.value.v))
      && forall j :: 0 <= j < r.value.level ==> ResolveReference(chain[j], v) == Ok(None)
    ensures r == Err(NotFound(v)) <==> forall j :: 0 <= j < |chain| ==> ResolveReference(chain[j], v) == Ok(None)
    ensures r.Err? ==> r.error == NotFound(v) || r.error == Ambiguous(v)
    ensures ResolveReference(chain[0], v).Ok? && ResolveReference(chain[0], v).value.Some? ==>
      r == Ok(Local(ResolveReference(chain[0], v).value.value))
    ensures ResolveReference(chain[0], v).Err? ==> r == Err(ResolveReference(chain[0], v).error)
  {
    match ResolveReference(chain[0], v)
    case Err(e) => Err(e)
    case Ok(Some(x)) => Ok(Local(x))
    case Ok(None) =>
      if |chain| == 1 then Err(NotFound(v))
      else
        match GlobalResolveReference(chain, 1, 1, v)
        case Err(e) => Err(e)
        case Ok(None) => Err(NotFound(v))
        case Ok(Some(cv)) => Ok(cv)
  }

  /** The innermost enclosing scope that answers decides a reference the
      local scope does not resolve: its resolution is correlated at its
      level, its ambiguity is reported. */
  lemma QualifyVariableDecides(chain: seq<Scope>, v: Variable, k: nat)
    requires 1 <= k < |chain| && ResolveReference(chain[k], v) != Ok(None)
    requires forall j :: 0 <= j < k ==> ResolveReference(chain[j], v) == Ok(None)
    ensures ResolveReference(chain[k], v).Err? ==> QualifyVariable(chain, v) == Err(ResolveReference(chain[k], v).error)
    ensures ResolveReference(chain[k], v).Ok? ==>
      QualifyVariable(chain, v) == Ok(Correlated(ResolveReference(chain[k], v).value.value, k))
  {
    var answers := Answers(chain, v);
    assert answers[k] == ResolveReference(chain[k], v);
    FirstAnswerDecides(answers, 1, 1, k);
    assert QualifyVariable(chain, v) ==
      match GlobalResolveReference(chain, 1, 1, v)
      case Err(e) => Err(e)
      case Ok(None) => Err(NotFound(v))
      case Ok(Some(cv)) => Ok(cv);
  }

  /** `findTable(schema, name)`: the first resource answering to the name. */
  function FindTableFrom(s: Scope, schema: Option<string>, name: string, p: nat): (r: Option<nat>)
    requires p <= |s.tables|
    ensures r.Some? ==> p <= r.value < |s.tables| && s.tables[r.value].matchesReference(schema, name)
    ensures r.Some? ==> forall q :: p <= q < r.value ==> !s.tables[q].matchesReference(schema, name)
    ensures r.None? <==> forall q :: p <= q < |s.tables| ==> !s.tables[q].matchesReference(schema, name)
    decreases |s.tables| - p
  {
    if p == |s.tables| then None
    else if s.tables[p].matchesReference(schema, name) then Some(p)
    else FindTableFrom(s, schema, name, p + 1)
  }

  function FindTable(s: Scope, schema: Option<string>, name: string): (r: Option<nat>)
    ensures r.Some? ==> r.value < |s.tables| && s.tables[r.value].matchesReference(schema, name)
    ensures r.Some? ==> forall q :: 0 <= q < r.value ==> !s.tables[q].matchesReference(schema, name)
    ensures r.None? <==> forall q :: 0 <= q < |s.tables| ==> !s.tables[q].matchesReference(schema, name)
  {
    FindTableFrom(s, schema, name, 0)
  }

  /** `generateResolvedVariableList`: a copy of every exposed variable, in order. */
  method GenerateResolvedVariableList(s: Scope) returns (list: seq<Variable>)
    ensures |list| == |s.exposed|
    ensures forall i :: 0 <= i < |list| ==> list[i] == s.exposed[i]
  {
    list := [];
    var i := 0;
    while i < |s.exposed|
      invariant i <= |s.exposed| && |list| == i
      invariant forall j :: 0 <= j < i ==> list[j] == s.exposed[j]
    {
      var v := s.exposed[i];
      list := list + [Variable(v.table, v.name)];
      i := i + 1;
    }
  }
}
