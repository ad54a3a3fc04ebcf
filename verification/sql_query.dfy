/** The client-side query object (`SQLQuery`): JDBC escape rewriting of the
    query text and the growable list of `?` parameter values. */
module JdbcQuery {
  import opened Wrappers

  datatype EscapeError =
    | Malformed(code: string)          // an escape without a space after the keyword
    | UnknownKeyword(keyword: string)
    | StoredProcedures                 // `call` and `?=` escapes
    | Unterminated(code: string)       // input ended inside an escape

  /** `String.trim`: drops leading and trailing characters up to U+0020. */
  function TrimLeft(s: string): (r: string)
    ensures |r| <= |s| && r == s[|s| - |r|..]
    ensures |r| > 0 ==> r[0] > ' '
    ensures forall i :: 0 <= i < |s| - |r| ==> s[i] <= ' '
  {
    if |s| > 0 && s[0] <= ' ' then TrimLeft(s[1..]) else s
  }

  function TrimRight(s: string): (r: string)
    ensures |r| <= |s| && r == s[..|r|]
    ensures |r| > 0 ==> r[|r| - 1] > ' '
    ensures forall i :: |r| <= i < |s| ==> s[i] <= ' '
  {
    if |s| > 0 && s[|s| - 1] <= ' ' then TrimRight(s[..|s| - 1]) else s
  }

  function Trim(s: string): (r: string)
    ensures |r| <= |s|
    ensures |r| > 0 ==> r[0] > ' ' && r[|r| - 1] > ' '
    ensures var i := |s| - |TrimLeft(s)|;
      && i + |r| <= |s| && r == s[i..i + |r|]
      && (forall k :: 0 <= k < i ==> s[k] <= ' ')
      && (forall k :: i + |r| <= k < |s| ==> s[k] <= ' ')
  {
    var left := TrimLeft(s);
    var r := TrimRight(left);
    TrimCut(s, left, r);
    r
  }

  /** Trimming the right of the left-trimmed string cuts the input at the
      end of its leading blanks and at the start of its trailing ones. */
  lemma TrimCut(s: string, left: string, r: string)
    requires |left| <= |s| && left == s[|s| - |left|..] && (|left| > 0 ==> left[0] > ' ')
    requires |r| <= |left| && r == left[..|r|]
    requires forall k :: |r| <= k < |left| ==> left[k] <= ' '
    ensures var i := |s| - |left|;
      && i + |r| <= |s| && r == s[i..i + |r|]
      && (|r| > 0 ==> r[0] > ' ')
      && (forall k :: i + |r| <= k < |s| ==> s[k] <= ' ')
  {
    var i := |s| - |left|;
    assert |r| > 0 ==> r[0] == left[0];
    forall k | i + |r| <= k < |s|
      ensures s[k] <= ' '
    {
      assert s[k] == left[k - i];
    }
  }

  /** What each supported escape keyword becomes: a prefix put before its
      trimmed body. */
  const Translations: map<string, string> :=
    map["d" := "DATE ", "t" := "TIME ", "ts" := "TIMESTAMP ", "fn" := "", "oj" := ""]

  /** The keyword of an escape's inner text: everything before its first space. */
  function Keyword(code: string): string
  {
    var k := IndexOf(code, ' ');
    if k == -1 then code else code[..k]
  }

  /** The keyword dispatch of `escapeJDBCSubstitution`. */
  function TranslateKeyword(keyword: string, body: string): (r: Result<string, EscapeError>)
    ensures r.Ok? <==> keyword in Translations
    ensures r.Ok? ==> r.value == Translations[keyword] + body
    ensures r == Err(StoredProcedures) <==> keyword == "call" || keyword == "?="
    ensures r.Err? && !r.error.StoredProcedures? ==> r == Err(UnknownKeyword(keyword))
  {
    if keyword == "d" then Ok("DATE " + body)
    else if keyword == "t" then Ok("TIME " + body)
    else if keyword == "ts" then Ok("TIMESTAMP " + body)
    else if keyword == "fn" then Ok(body)
    else if keyword == "call" || keyword == "?=" then Err(StoredProcedures)
    else if keyword == "oj" then Ok(body)
    else Err(UnknownKeyword(keyword))
  }

  /** `escapeJDBCSubstitution(jdbc_code)` for a code `{keyword body}`: the
      keyword runs up to the first space, the body is the trimmed rest. */
  function EscapeJdbcSubstitution(jdbcCode: string): (r: Result<string, EscapeError>)
    requires |jdbcCode| >= 2
    ensures ' ' !in jdbcCode[1..|jdbcCode| - 1] ==> r == Err(Malformed(jdbcCode))
    ensures ' ' in jdbcCode[1..|jdbcCode| - 1] ==>
      r == TranslateKeyword(Keyword(jdbcCode[1..|jdbcCode| - 1]),
                            Trim(jdbcCode[1..|jdbcCode| - 1][IndexOf(jdbcCode[1..|jdbcCode| - 1], ' ')..]))
  {
    var code := jdbcCode[1..|jdbcCode| - 1];
    var delim := IndexOf(code, ' ');
    if delim == -1 then Err(Malformed(jdbcCode))
    else TranslateKeyword(code[..delim], Trim(code[delim..]))
  }

  /** Scanner region: plain SQL, inside a quote opened by `q`, or inside an
      escape whose text after its `{` so far is `code`. */
  datatype Mode = Code | Quote(q: char) | Escape(code: string)

  /** Scanner state: the region, the backslash flag and the output so far. */
  datatype Scan = Scan(mode: Mode, ignoreNext: bool, out: string)

  const Start: Scan := Scan(Code, false, [])

  /** One character of the `doEscapeSubstitutions` loop.  The backslash flag
      is only ever set, never cleared, exactly as the loop does. */
  function Step(s: Scan, c: char): (r: Result<Scan, EscapeError>)
    ensures r.Err? ==> s.mode.Escape? && c == '}' && !s.ignoreNext
    ensures s.ignoreNext && !s.mode.Code? && r.Ok? ==> r.value.ignoreNext && r.value.mode.Escape? == s.mode.Escape?
  {
    match s.mode
    case Code =>
      if c == '\'' || c == '"' then Ok(s.(mode := Quote(c), out := s.out + [c]))
      else if c == '{' then Ok(s.(mode := Escape([])))
      else Ok(s.(out := s.out + [c]))
    case Quote(q) =>
      if s.ignoreNext then Ok(s.(out := s.out + [c]))
      else if c == '\\' then Ok(s.(ignoreNext := true, out := s.out + [c]))
      else if c == q then Ok(s.(mode := Code, out := s.out + [c]))
      else Ok(s.(out := s.out + [c]))
    case Escape(code) =>
      if s.ignoreNext then Ok(s.(mode := Escape(code + [c])))
      else if c == '\\' then Ok(s.(ignoreNext := true, mode := Escape(code + [c])))
      else if c == '}' then
        match EscapeJdbcSubstitution(['{'] + code + ['}'])
        case Err(e) => Err(e)
        case Ok(translated) => Ok(s.(mode := Code, out := s.out + translated + [' ']))
      else Ok(s.(mode := Escape(code + [c])))
  }

  /** The scanner over a whole input. */
  function Run(s: Scan, input: string): Result<Scan, EscapeError>
    decreases |input|
  {
    if |input| == 0 then Ok(s)
    else
      var s' :- Step(s, input[0]);
      Run(s', input[1..])
  }

  /** The end of the loop: an escape still open is an error. */
  function Finish(r: Result<Scan, EscapeError>): Result<string, EscapeError>
  {
    match r
    case Err(e) => Err(e)
    case Ok(s) => if s.mode.Escape? then Err(Unterminated(['{'] + s.mode.code)) else Ok(s.out)
  }

  /** `doEscapeSubstitutions`: a query without `{` is returned as it is;
      otherwise the scanner rewrites it. */
  function DoEscapeSubstitutions(query: string): (r: Result<string, EscapeError>)
    ensures '{' !in query ==> r == Ok(query)
    ensures '{' in query ==> r == Finish(Run(Start, query))
  {
    if '{' !in query then Ok(query) else Finish(Run(Start, query))
  }

  /** Scanning `a` then `b` is scanning `a + b`. */
  lemma {:induction false} RunAppend(s: Scan, a: string, b: string)
    ensures Run(s, a + b) == match Run(s, a) case Err(e) => Err(e) case Ok(s') => Run(s', b)
    decreases |a|
  {
    if |a| > 0 {
      assert (a + b)[0] == a[0] && (a + b)[1..] == a[1..] + b;
      match Step(s, a[0])
      case Err(_) =>
      case Ok(s') => RunAppend(s', a[1..], b);
    } else {
      assert a + b == b;
    }
  }

  /** Outside escapes the scanner copies every character: on input without
      `{` the early exit is not even needed. */
  lemma {:induction false} NoBraceCopiedVerbatim(s: Scan, input: string)
    requires !s.mode.Escape? && '{' !in input
    ensures Run(s, input).Ok?
    ensures Run(s, input).value.out == s.out + input
    ensures !Run(s, input).value.mode.Escape?
    decreases |input|
  {
    if |input| > 0 {
      var s' := Step(s, input[0]).value;
      assert '{' !in input[1..];
      NoBraceCopiedVerbatim(s', input[1..]);
      assert s.out + input == s.out + [input[0]] + input[1..];
    }
  }

  /** The inside of an escape, without `}` or backslash, is collected
      without output. */
  lemma {:induction false} EscapeCollected(s: Scan, code: string)
    requires s.mode.Escape? && !s.ignoreNext && '}' !in code && '\\' !in code
    ensures Run(s, code) == Ok(s.(mode := Escape(s.mode.code + code)))
    decreases |code|
  {
    if |code| > 0 {
      assert '}' !in code[1..] && '\\' !in code[1..];
      EscapeCollected(s.(mode := Escape(s.mode.code + [code[0]])), code[1..]);
      assert s.mode.code + [code[0]] + code[1..] == s.mode.code + code;
    } else {
      assert s.mode.code + code == s.mode.code;
    }
  }

  /** In plain SQL, an escape `{code}` is replaced by its translation and a
      single space; the text around it is scanned as before. */
  lemma EscapeReplaced(s: Scan, code: string, rest: string)
    requires s.mode == Code && !s.ignoreNext && '}' !in code && '\\' !in code
    ensures EscapeJdbcSubstitution(['{'] + code + ['}']).Err? ==>
      Run(s, ['{'] + code + ['}'] + rest) == Err(EscapeJdbcSubstitution(['{'] + code + ['}']).error)
    ensures EscapeJdbcSubstitution(['{'] + code + ['}']).Ok? ==>
      Run(s, ['{'] + code + ['}'] + rest) ==
      Run(s.(out := s.out + EscapeJdbcSubstitution(['{'] + code + ['}']).value + [' ']), rest)
  {
    var inEscape := s.(mode := Escape([]));
    assert Run(s, ['{']) == Run(inEscape, []);
    EscapeCollected(inEscape, code);
    RunAppend(s, ['{'], code);
    RunAppend(s, ['{'] + code, ['}']);
    RunAppend(s, ['{'] + code + ['}'], rest);
    assert inEscape.mode.code + code == code;
    assert Run(s, ['{'] + code) == Ok(s.(mode := Escape(code)));
  }

  /** Inside a quote, text without the quote character or a backslash is
      copied as it is, braces included. */
  lemma {:induction false} QuoteBodyCopied(s: Scan, body: string)
    requires s.mode.Quote? && !s.ignoreNext && s.mode.q !in body && '\\' !in body
    ensures Run(s, body) == Ok(s.(out := s.out + body))
    decreases |body|
  {
    if |body| > 0 {
      var next := s.(out := s.out + [body[0]]);
      assert Step(s, body[0]) == Ok(next);
      assert next.mode.q !in body[1..] && '\\' !in body[1..];
      QuoteBodyCopied(next, body[1..]);
      assert s.out + [body[0]] + body[1..] == s.out + body;
    } else {
      assert s.out + body == s.out;
    }
  }

  /** In plain SQL, a quoted string `q body q` (no backslash, no inner `q`)
      is copied as it is, whatever braces it holds, and the scanner is back
      in plain SQL after it. */
  lemma QuotedTextSkipped(s: Scan, q: char, body: string, rest: string)
    requires s.mode == Code && !s.ignoreNext && (q == '\'' || q == '"') && q !in body && '\\' !in body
    ensures Run(s, [q] + body + [q] + rest) == Run(s.(out := s.out + [q] + body + [q]), rest)
  {
    var inQuote := s.(mode := Quote(q), out := s.out + [q]);
    assert Step(s, q) == Ok(inQuote);
    assert Run(s, [q]) == Run(inQuote, []);
    QuoteBodyCopied(inQuote, body);
    var closing := inQuote.(out := s.out + [q] + body);
    var closed := s.(out := s.out + [q] + body + [q]);
    assert Step(closing, q) == Ok(closed);
    assert Run(closing, [q]) == Run(closed, []);
    RunAppend(s, [q], body);
    RunAppend(s, [q] + body, [q]);
    RunAppend(s, [q] + body + [q], rest);
  }

  /** The output of one step does not depend on the output before it. */
  lemma StepShiftsOut(s: Scan, p: string, c: char)
    ensures Step(s.(out := p + s.out), c).Err? <==> Step(s, c).Err?
    ensures Step(s, c).Err? ==> Step(s.(out := p + s.out), c).error == Step(s, c).error
    ensures Step(s, c).Ok? ==>
      Step(s.(out := p + s.out), c).value == Step(s, c).value.(out := p + Step(s, c).value.out)
  {
    Assoc(p, s.out, [c], []);
    if s.mode.Escape? && !s.ignoreNext && c == '}' {
      var e := EscapeJdbcSubstitution(['{'] + s.mode.code + ['}']);
      if e.Ok? {
        Assoc(p, s.out, e.value, [' ']);
      }
    }
  }

  lemma Assoc(p: string, a: string, b: string, c: string)
    ensures p + a + b == p + (a + b) && p + a + b + c == p + (a + b + c)
  {
  }

  /** Scanning after some output is scanning from nothing with that output
      put in front. */
  lemma {:induction false} RunShiftsOut(s: Scan, p: string, input: string)
    ensures Run(s.(out := p + s.out), input).Err? <==> Run(s, input).Err?
    ensures Run(s, input).Err? ==> Run(s.(out := p + s.out), input).error == Run(s, input).error
    ensures Run(s, input).Ok? ==>
      Run(s.(out := p + s.out), input).value == Run(s, input).value.(out := p + Run(s, input).value.out)
    decreases |input|
  {
    if |input| > 0 {
      StepShiftsOut(s, p, input[0]);
      if Step(s, input[0]).Ok? {
        RunShiftsOut(Step(s, input[0]).value, p, input[1..]);
      }
    }
  }

  /** Braces inside a quoted string are not substituted: the quoted string
      is kept as it is and the rest of the query is rewritten as if it
      stood alone. */
  lemma QuotedBraceKept(q: char, body: string, rest: string)
    requires (q == '\'' || q == '"') && q !in body && '\\' !in body
    ensures DoEscapeSubstitutions(rest).Err? ==> DoEscapeSubstitutions([q] + body + [q] + rest) == DoEscapeSubstitutions(rest)
    ensures DoEscapeSubstitutions(rest).Ok? ==>
      DoEscapeSubstitutions([q] + body + [q] + rest) == Ok([q] + body + [q] + DoEscapeSubstitutions(rest).value)
  {
    var prefix := [q] + body + [q];
    var query := prefix + rest;
    var after := Scan(Code, false, prefix);
    if '{' in query {
      QuotedTextSkipped(Start, q, body, rest);
      assert Start.(out := Start.out + [q] + body + [q]) == after;
      if '{' in rest {
        assert Start.(out := prefix + Start.out) == after;
        RunShiftsOut(Start, prefix, rest);
      } else {
        NoBraceCopiedVerbatim(after, rest);
      }
    } else {
      assert '{' !in rest by {
        forall k | 0 <= k < |rest| ensures rest[k] != '{' {
          assert rest[k] == query[|prefix| + k];
        }
      }
    }
  }

  /** Once a backslash has been seen inside a quote, the quote never closes:
      the rest of the input is copied as it is. */
  lemma {:induction false} QuoteNeverCloses(s: Scan, rest: string)
    requires s.mode.Quote? && s.ignoreNext
    ensures Run(s, rest) == Ok(s.(out := s.out + rest))
    decreases |rest|
  {
    if |rest| > 0 {
      QuoteNeverCloses(s.(out := s.out + [rest[0]]), rest[1..]);
      assert s.out + [rest[0]] + rest[1..] == s.out + rest;
    } else {
      assert s.out + rest == s.out;
    }
  }

  /** Once a backslash has been seen inside an escape, the escape never
      closes, so the query is rejected as unterminated. */
  lemma {:induction false} EscapeNeverCloses(s: Scan, rest: string)
    requires s.mode.Escape? && s.ignoreNext
    ensures Run(s, rest).Ok? && Run(s, rest).value.mode.Escape?
    ensures Finish(Run(s, rest)).Err? && Finish(Run(s, rest)).error.Unterminated?
    decreases |rest|
  {
    if |rest| > 0 {
      EscapeNeverCloses(s.(mode := Escape(s.mode.code + [rest[0]])), rest[1..]);
    }
  }

  /** As written: a backslash right after an opening quote leaves every
      escape later in the query untouched, since the quote never closes. */
  lemma EscapeAfterQuotedBackslashKept(rest: string)
    requires '{' in rest
    ensures DoEscapeSubstitutions(['\'', '\\'] + rest) == Ok(['\'', '\\'] + rest)
  {
    var openQuote := Step(Start, '\'').value;
    assert openQuote == Scan(Quote('\''), false, ['\'']);
    var quoted := Step(openQuote, '\\').value;
    assert quoted == Scan(Quote('\''), true, ['\'', '\\']);
    assert ['\'', '\\'][0] == '\'' && ['\'', '\\'][1..] == ['\\'];
    assert ['\\'][0] == '\\' && ['\\'][1..] == [];
    assert Run(Start, ['\'', '\\']) == Ok(quoted);
    RunAppend(Start, ['\'', '\\'], rest);
    QuoteNeverCloses(quoted, rest);
  }

  /** The step as evidently intended: after a backslash inside a quote or
      an escape, the one character that follows is taken as it is and the
      flag is cleared again. */
  function StepFixed(s: Scan, c: char): (r: Result<Scan, EscapeError>)
    ensures !s.ignoreNext ==> r == Step(s, c)
    ensures s.ignoreNext ==> r.Ok? && !r.value.ignoreNext
    ensures s.ignoreNext && s.mode.Quote? ==> r.value == s.(ignoreNext := false, out := s.out + [c])
    ensures s.ignoreNext && s.mode.Escape? ==> r.value == s.(ignoreNext := false, mode := Escape(s.mode.code + [c]))
  {
    if s.ignoreNext then Ok(Step(s, c).value.(ignoreNext := false)) else Step(s, c)
  }

  /** The scanner over a whole input, with the corrected step. */
  function RunFixed(s: Scan, input: string): Result<Scan, EscapeError>
    decreases |input|
  {
    if |input| == 0 then Ok(s)
    else
      var s' :- StepFixed(s, input[0]);
      RunFixed(s', input[1..])
  }

  /** The corrected scanner consumes its input one character at a time. */
  lemma RunFixedCons(s: Scan, input: string, next: Scan)
    requires |input| > 0 && StepFixed(s, input[0]) == Ok(next)
    ensures RunFixed(s, input) == RunFixed(next, input[1..])
  {
  }

  lemma DropFirst(c: char, more: string, rest: string)
    ensures ([c] + more + rest)[0] == c && ([c] + more + rest)[1..] == more + rest
  {
  }

  /** Corrected: inside a quote a backslash protects exactly one character;
      both are copied and the quote then goes on as before. */
  lemma BackslashSkipsOneFixed(s: Scan, c: char, rest: string)
    requires s.mode.Quote? && !s.ignoreNext
    ensures RunFixed(s, ['\\', c] + rest) == RunFixed(s.(out := s.out + ['\\', c]), rest)
  {
    var s1 := StepFixed(s, '\\').value;
    assert s1 == s.(ignoreNext := true, out := s.out + ['\\']);
    var s2 := StepFixed(s1, c).value;
    assert s2 == s.(out := s.out + ['\\', c]) by {
      assert s2.out == s.out + ['\\'] + [c] == s.out + ['\\', c];
    }
    var input := ['\\', c] + rest;
    DropFirst('\\', [c], rest);
    RunFixedCons(s, input, s1);
    assert ([c] + rest)[0] == c && ([c] + rest)[1..] == rest;
    RunFixedCons(s1, [c] + rest, s2);
  }

  /** Corrected: an escaped quote character does not close the quote, the
      next unescaped one does, and the scanner is back in plain SQL where
      escapes are replaced again. */
  lemma EscapedQuoteClosesFixed(q: char, rest: string)
    requires q == '\'' || q == '"'
    ensures RunFixed(Start, [q, '\\', q, q] + rest) == RunFixed(Scan(Code, false, [q, '\\', q, q]), rest)
  {
    var inQuote := StepFixed(Start, q).value;
    assert inQuote == Scan(Quote(q), false, [q]);
    var input := [q, '\\', q, q] + rest;
    assert input[0] == q && input[1..] == ['\\', q] + ([q] + rest);
    RunFixedCons(Start, input, inQuote);
    BackslashSkipsOneFixed(inQuote, q, [q] + rest);
    var escaped := inQuote.(out := inQuote.out + ['\\', q]);
    var closed := StepFixed(escaped, q).value;
    assert closed == Scan(Code, false, [q, '\\', q, q]) by {
      assert closed.out == [q] + ['\\', q] + [q] == [q, '\\', q, q];
    }
    assert ([q] + rest)[0] == q && ([q] + rest)[1..] == rest;
    RunFixedCons(escaped, [q] + rest, closed);
  }

  // ---------- the parameter list ----------

  /** A parameter value, by identity (`None` is a null slot). */
  type Obj = nat

  /** The query text, whether it was prepared, the parameter slots, the
      position the next `addVar` writes and the parameter count. */
  datatype SqlQuery = SqlQuery(query: string, prepared: bool, slots: seq<Option<Obj>>, index: nat, count: nat)

  datatype ParamError = IndexOutOfBounds

  /** The constructor: eight empty slots. */
  function New(query: string): (q: SqlQuery)
    ensures q.query == query && !q.prepared && |q.slots| == 8 && q.index == 0 && q.count == 0
    ensures forall i :: 0 <= i < |q.slots| ==> q.slots[i].None?
  {
    SqlQuery(query, false, seq(8, _ => None), 0, 0)
  }

  /** `growParametersList(n)`: the slots copied into a list of length `n`. */
  function Grow(slots: seq<Option<Obj>>, n: nat): (r: seq<Option<Obj>>)
    requires n >= |slots|
    ensures |r| == n && r[..|slots|] == slots
    ensures forall i :: |slots| <= i < n ==> r[i].None?
  {
    slots + seq(n - |slots|, _ => None)
  }

  /** The list keeps room for the next `addVar`. */
  predicate HasRoom(q: SqlQuery)
  {
    q.index < |q.slots|
  }

  /** `addVar(ob)`: stores at the current position, advances it and the
      count, and grows the list when the position reaches its end.  A
      position already past the end makes the store fail. */
  function AddVar(q: SqlQuery, ob: Option<Obj>): (r: Result<SqlQuery, ParamError>)
    ensures r.Ok? <==> HasRoom(q)
    ensures r.Ok? ==> HasRoom(r.value) && |r.value.slots| >= |q.slots|
    ensures r.Ok? ==> r.value.slots[q.index] == ob && r.value.index == q.index + 1 && r.value.count == q.count + 1
    ensures r.Ok? ==> forall i :: 0 <= i < |q.slots| && i != q.index ==> r.value.slots[i] == q.slots[i]
    ensures r.Ok? ==> r.value.query == q.query && r.value.prepared == q.prepared
  {
    if q.index >= |q.slots| then Err(IndexOutOfBounds)
    else
      var slots := q.slots[q.index := ob];
      var index := q.index + 1;
      var slots' := if index >= |slots| then Grow(slots, index + 8) else slots;
      Ok(q.(slots := slots', index := index, count := q.count + 1))
  }

  /** `setVar(i, ob)` as written: grows only when `i` lies beyond the list,
      so setting the last slot leaves no room for a following `addVar`. */
  function SetVar(q: SqlQuery, i: int, ob: Option<Obj>): (r: Result<SqlQuery, ParamError>)
    ensures r.Ok? <==> i >= 0
    ensures r.Ok? ==> |r.value.slots| > i && |r.value.slots| >= |q.slots|
    ensures r.Ok? ==> r.value.slots[i] == ob && r.value.index == i + 1
    ensures r.Ok? ==> r.value.count == if i + 1 > q.count then i + 1 else q.count
    ensures r.Ok? ==> forall k :: 0 <= k < |q.slots| && k != i ==> r.value.slots[k] == q.slots[k]
  {
    if i < 0 then Err(IndexOutOfBounds)
    else
      var slots := if i >= |q.slots| then Grow(q.slots, i + 8) else q.slots;
      var index := i + 1;
      Ok(q.(slots := slots[i := ob], index := index, count := if index > q.count then index else q.count))
  }

  /** Setting the last of the eight initial slots, then adding a value,
      fails: the store lands one past the end of the list. */
  lemma SetLastSlotThenAddFails(ob: Option<Obj>, ob2: Option<Obj>)
    ensures SetVar(New(""), 7, ob).Ok?
    ensures AddVar(SetVar(New(""), 7, ob).value, ob2) == Err(IndexOutOfBounds)
  {
  }

  /** `setVar` with the growth test that keeps room for the next `addVar`. */
  function SetVarFixed(q: SqlQuery, i: int, ob: Option<Obj>): (r: Result<SqlQuery, ParamError>)
    ensures r.Ok? <==> i >= 0
    ensures r.Ok? ==> HasRoom(r.value) && |r.value.slots| > i && |r.value.slots| >= |q.slots|
    ensures r.Ok? ==> r.value.slots[i] == ob && r.value.index == i + 1
    ensures r.Ok? ==> r.value.count == if i + 1 > q.count then i + 1 else q.count
    ensures r.Ok? ==> forall k :: 0 <= k < |q.slots| && k != i ==> r.value.slots[k] == q.slots[k]
  {
    if i < 0 then Err(IndexOutOfBounds)
    else
      var slots := if i + 1 >= |q.slots| then Grow(q.slots, i + 8) else q.slots;
      var index := i + 1;
      Ok(q.(slots := slots[i := ob], index := index, count := if index > q.count then index else q.count))
  }

  /** With the corrected `setVar`, every sequence of `setVar`, `addVar` and
      `clear` calls from a new query leaves room, so `addVar` never fails. */
  lemma {:induction false} AddVarAlwaysSucceedsWithFix(q: SqlQuery, ops: seq<ParamOp>)
    requires HasRoom(q)
    ensures ApplyOps(q, ops).Ok?
    decreases |ops|
  {
    if |ops| > 0 {
      match ops[0]
      case Add(ob) =>
        AddVarAlwaysSucceedsWithFix(AddVar(q, ob).value, ops[1..]);
      case Set(i, ob) =>
        AddVarAlwaysSucceedsWithFix(SetVarFixed(q, i, ob).value, ops[1..]);
      case ClearAll =>
        AddVarAlwaysSucceedsWithFix(Clear(q), ops[1..]);
    }
  }

  /** A client's calls on the parameter list (with non-negative `setVar` indexes). */
  datatype ParamOp = Add(ob: Option<Obj>) | Set(i: nat, ob: Option<Obj>) | ClearAll

  function ApplyOps(q: SqlQuery, ops: seq<ParamOp>): Result<SqlQuery, ParamError>
    decreases |ops|
  {
    if |ops| == 0 then Ok(q)
    else
      var q' :- match ops[0]
        case Add(ob) => AddVar(q, ob)
        case Set(i, ob) => SetVarFixed(q, i, ob)
        case ClearAll => Ok(Clear(q));
      ApplyOps(q', ops[1..])
  }

  /** `clear`: no parameters, every slot null, the list keeps its length. */
  function Clear(q: SqlQuery): (r: SqlQuery)
    ensures r.index == 0 && r.count == 0 && |r.slots| == |q.slots|
    ensures forall i :: 0 <= i < |r.slots| ==> r.slots[i].None?
    ensures r.query == q.query && r.prepared == q.prepared
    ensures |q.slots| > 0 ==> HasRoom(r)
  {
    q.(slots := seq(|q.slots|, _ => None), index := 0, count := 0)
  }

  /** `prepare(doEscapeProcessing)`. */
  function Prepare(q: SqlQuery, doEscapeProcessing: bool): (r: Result<SqlQuery, EscapeError>)
    ensures !doEscapeProcessing ==> r == Ok(q.(prepared := true))
    ensures doEscapeProcessing ==> (r.Ok? <==> DoEscapeSubstitutions(q.query).Ok?)
    ensures r.Ok? ==> r.value == q.(query := r.value.query, prepared := true)
    ensures doEscapeProcessing && r.Ok? ==> r.value.query == DoEscapeSubstitutions(q.query).value
    ensures doEscapeProcessing && r.Err? ==> r.error == DoEscapeSubstitutions(q.query).error
  {
    if doEscapeProcessing then
      var query :- DoEscapeSubstitutions(q.query);
      Ok(q.(query := query, prepared := true))
    else Ok(q.(prepared := true))
  }

  /** The slot loop of `equals` from position `i`: the first differing slot
      answers false; reading past either list fails. */
  function SlotsEqualFrom(a: seq<Option<Obj>>, b: seq<Option<Obj>>, count: nat, i: nat): (r: Result<bool, ParamError>)
    requires i <= count && i <= |a| && i <= |b|
    ensures count <= |a| && count <= |b| ==> r.Ok?
    ensures r.Ok? && r.value ==> count <= |a| && count <= |b|
    ensures r.Ok? && r.value ==> forall k :: i <= k < count ==> a[k] == b[k]
    ensures r.Ok? && !r.value ==> exists k :: i <= k < count && k < |a| && k < |b| && a[k] != b[k]
    decreases count - i
  {
    if i == count then Ok(true)
    else if i >= |a| || i >= |b| then Err(IndexOutOfBounds)
    else if a[i] != b[i] then Ok(false)
    else SlotsEqualFrom(a, b, count, i + 1)
  }

  /** `equals`: the same query text, the same count and identical
      parameters up to the count. */
  function Equals(q1: SqlQuery, q2: SqlQuery): (r: Result<bool, ParamError>)
    ensures r == Ok(true) ==> q1.query == q2.query && q1.count == q2.count
    ensures r == Ok(true) ==> q1.count <= |q1.slots| && q1.count <= |q2.slots| && q1.slots[..q1.count] == q2.slots[..q1.count]
    ensures q1.query == q2.query && q1.count == q2.count && q1.count <= |q1.slots| && q1.count <= |q2.slots| ==>
      (r == Ok(true) <==> q1.slots[..q1.count] == q2.slots[..q1.count])
    ensures q1.query != q2.query || q1.count != q2.count ==> r == Ok(false)
  {
    if q1.query == q2.query && q1.count == q2.count then
      var r := SlotsEqualFrom(q1.slots, q2.slots, q1.count, 0);
      assert r == Ok(true) ==> q1.slots[..q1.count] == q2.slots[..q1.count];
      assert q1.count <= |q1.slots| && q1.count <= |q2.slots| && q1.slots[..q1.count] == q2.slots[..q1.count] ==>
        forall k :: 0 <= k < q1.count ==> q1.slots[..q1.count][k] == q2.slots[..q1.count][k];
      r
    else Ok(false)
  }

  /** `equals` is reflexive and symmetric on queries whose count fits their list. */
  lemma EqualsReflexiveSymmetric(q1: SqlQuery, q2: SqlQuery)
    requires q1.count <= |q1.slots| && q2.count <= |q2.slots|
    ensures Equals(q1, q1) == Ok(true)
    ensures Equals(q1, q2) == Equals(q2, q1)
  {
    if q1.query == q2.query && q1.count == q2.count {
      if q1.slots[..q1.count] == q2.slots[..q2.count] {
      } else {
        assert Equals(q1, q2) != Ok(true);
        assert Equals(q2, q1) != Ok(true);
      }
    }
  }

  // ---------- stream transfer ----------

  /** What `writeTo` puts on the stream: the query text, then the parameter
      count and that many parameters. */
  datatype Transfer = Transfer(query: string, params: seq<Option<Obj>>)

  /** `writeTo`: the first `count` slots; reading past the list fails. */
  function WriteTo(q: SqlQuery): (r: Result<Transfer, ParamError>)
    ensures r.Ok? <==> q.count <= |q.slots|
    ensures r.Ok? ==> r.value.query == q.query && |r.value.params| == q.count
    ensures r.Ok? ==> forall i :: 0 <= i < q.count ==> r.value.params[i] == q.slots[i]
  {
    if q.count > |q.slots| then Err(IndexOutOfBounds)
    else Ok(Transfer(q.query, q.slots[..q.count]))
  }

  /** `addVar` for each value in turn. */
  function AddAll(q: SqlQuery, values: seq<Option<Obj>>): Result<SqlQuery, ParamError>
    decreases |values|
  {
    if |values| == 0 then Ok(q)
    else
      var q' :- AddVar(q, values[0]);
      AddAll(q', values[1..])
  }

  /** `readFrom`: a new query over the text, then `addVar` for every
      parameter read.  `decoded` holds the objects that decoding the
      written parameters creates, one per parameter; decoding is not part
      of this model, and the objects it creates are new ones. */
  function ReadFrom(t: Transfer, decoded: seq<Option<Obj>>): Result<SqlQuery, ParamError>
    requires |decoded| == |t.params|
  {
    AddAll(New(t.query), decoded)
  }

  /** Adding values one by one from a list with room never fails and lays
      them out from the current position on, leaving the slots before it. */
  lemma {:induction false} AddAllLaysOut(q: SqlQuery, values: seq<Option<Obj>>)
    requires HasRoom(q)
    ensures AddAll(q, values).Ok?
    ensures var r := AddAll(q, values).value;
      && r.query == q.query && r.prepared == q.prepared
      && r.index == q.index + |values| && r.count == q.count + |values|
      && HasRoom(r)
      && (forall k :: 0 <= k < q.index ==> r.slots[k] == q.slots[k])
      && (forall k :: 0 <= k < |values| ==> r.slots[q.index + k] == values[k])
    decreases |values|
  {
    if |values| > 0 {
      var q' := AddVar(q, values[0]).value;
      AddAllLaysOut(q', values[1..]);
      var r := AddAll(q', values[1..]).value;
      forall k | 0 <= k < |values| ensures r.slots[q.index + k] == values[k] {
        if k > 0 {
          assert values[1..][k - 1] == values[k];
          assert r.slots[q'.index + (k - 1)] == values[1..][k - 1];
        }
      }
    }
  }

  /** Round trip: a query read back from what `writeTo` wrote has the same
      text and the same parameter count, and holds the decoded objects as
      its parameters.  Since `equals` compares parameters by identity, the
      copy equals the original exactly when decoding gave back the very
      same objects, which for a non-null parameter it never does. */
  lemma ReadFromWriteTo(q: SqlQuery, decoded: seq<Option<Obj>>)
    requires q.count <= |q.slots| && |decoded| == q.count
    ensures ReadFrom(WriteTo(q).value, decoded).Ok?
    ensures var r := ReadFrom(WriteTo(q).value, decoded).value;
      && r.query == q.query && r.count == q.count && !r.prepared
      && r.count < |r.slots| && r.slots[..r.count] == decoded
    ensures Equals(ReadFrom(WriteTo(q).value, decoded).value, q) == Ok(true) <==> decoded == q.slots[..q.count]
  {
    var t := WriteTo(q).value;
    AddAllLaysOut(New(t.query), decoded);
    var r := ReadFrom(t, decoded).value;
    assert r.count == q.count;
    assert r.slots[..r.count] == decoded;
  }

  /** A query with a non-null parameter is never `equals` to its copy read
      back from the stream when decoding creates new objects. */
  lemma CopyWithNewObjectsNotEqual(q: SqlQuery, decoded: seq<Option<Obj>>, k: nat)
    requires q.count <= |q.slots| && |decoded| == q.count
    requires k < q.count && q.slots[k].Some? && decoded[k] != q.slots[k]
    ensures ReadFrom(WriteTo(q).value, decoded).Ok?
    ensures Equals(ReadFrom(WriteTo(q).value, decoded).value, q) == Ok(false)
  {
    ReadFromWriteTo(q, decoded);
    assert decoded[k] != q.slots[..q.count][k];
  }
}
