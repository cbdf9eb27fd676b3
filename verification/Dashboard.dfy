/** The capture-log read API (manyfaced/db/storage.py): WHERE fragments with positional
    parameters under SQL's three-valued logic, and bounded paging. */
module Dashboard {
  import opened Wrappers
  import opened Text
  import opened TextOrder

  datatype Row = Row(
    timestamp: string, botIp: string, command: Option<string>, path: Option<string>, raw: Option<string>,
    agent: Option<string>, port: Option<string>, country: Option<string>, detectedId: Option<string>)

  /** A truth value of SQL. */
  datatype Tri = Yes | No | Unknown

  function Or3(a: Tri, b: Tri): Tri {
    if a == Yes || b == Yes then Yes else if a == Unknown || b == Unknown then Unknown else No
  }

  function And3(a: Tri, b: Tri): Tri {
    if a == No || b == No then No else if a == Unknown || b == Unknown then Unknown else Yes
  }

  function Truth(b: bool): Tri {
    if b then Yes else No
  }

  // -------------------------------------------------------------------------
  // WHERE fragments
  // -------------------------------------------------------------------------

  datatype Column = Timestamp | BotIp | Command | Path | Raw | Agent | PortText | Country | DetectedIdText

  /** A fragment with its placeholders in place of the values. */
  datatype Expr =
    | AtLeast(column: Column)
    | Equals(column: Column)
    | Like(column: Column)
    | UpperEquals(column: Column)
    | IsNull(column: Column)
    | UpperNotIn(column: Column, literals: seq<string>)
    | Either(left: Expr, right: Expr)

  function Holes(e: Expr): nat {
    match e
    case IsNull(_) => 0
    case UpperNotIn(_, _) => 0
    case Either(left, right) => Holes(left) + Holes(right)
    case _ => 1
  }

  function ValueOf(row: Row, c: Column): Option<string> {
    match c
    case Timestamp => Some(row.timestamp)
    case BotIp => Some(row.botIp)
    case Command => row.command
    case Path => row.path
    case Raw => row.raw
    case Agent => row.agent
    case PortText => row.port
    case Country => row.country
    case DetectedIdText => row.detectedId
  }

  /** LIKE, or ILIKE: how text matches a pattern is left to the engine. */
  type Matcher = (string, string) -> bool

  /** The value of a fragment whose placeholders are bound to `args` in order. */
  function Eval(like: Matcher, e: Expr, args: seq<string>, row: Row): Tri
    requires |args| == Holes(e)
  {
    match e
    case Either(left, right) =>
      Or3(Eval(like, left, args[..Holes(left)], row), Eval(like, right, args[Holes(left)..], row))
    case IsNull(c) => Truth(ValueOf(row, c) == None)
    case UpperNotIn(c, literals) =>
      (match ValueOf(row, c) case None => Unknown case Some(v) => Truth(UpperAscii(v) !in literals))
    case AtLeast(c) =>
      (match ValueOf(row, c) case None => Unknown case Some(v) => Truth(!Before(v, args[0])))
    case Equals(c) => (match ValueOf(row, c) case None => Unknown case Some(v) => Truth(v == args[0]))
    case Like(c) => (match ValueOf(row, c) case None => Unknown case Some(v) => Truth(like(v, args[0])))
    case UpperEquals(c) => (match ValueOf(row, c) case None => Unknown case Some(v) => Truth(UpperAscii(v) == args[0]))
  }

  function TotalHoles(clauses: seq<Expr>): nat {
    if clauses == [] then 0 else TotalHoles(clauses[..|clauses| - 1]) + Holes(clauses[|clauses| - 1])
  }

  /** The fragments joined with AND, parameters bound from left to right. */
  function Where(like: Matcher, clauses: seq<Expr>, params: seq<string>, row: Row): Tri
    requires |params| == TotalHoles(clauses)
  {
    if clauses == [] then Yes
    else
      var last := clauses[|clauses| - 1];
      var cut := |params| - Holes(last);
      And3(Where(like, clauses[..|clauses| - 1], params[..cut], row), Eval(like, last, params[cut..], row))
  }

  // -------------------------------------------------------------------------
  // Building the query
  // -------------------------------------------------------------------------

  const HOST_FILTER_MIN_LEN: nat := 3
  const SEARCH_FILTER_MIN_LEN: nat := 2
  const MAX_OFFSET: nat := 100_000
  const METHOD_LITERALS := ["GET", "POST"]

  datatype Filter = Filter(since: Option<string>, ip: Option<string>, host: Option<string>,
                           search: Option<string>, verb: Option<string>)

  predicate StartsWithWildcard(s: string) {
    s != "" && (s[0] == '%' || s[0] == '*')
  }

  function SanitizeHost(host: Option<string>): Option<string> {
    if host == None || StartsWithWildcard(host.value) || |host.value| < HOST_FILTER_MIN_LEN then None else host
  }

  function SanitizeSearch(search: Option<string>): Option<string> {
    if search == None || Strip(search.value) == "" || StartsWithWildcard(Strip(search.value))
       || |Strip(search.value)| < SEARCH_FILTER_MIN_LEN
    then None else Some(Strip(search.value))
  }

  const SEARCH_COLUMNS := [BotIp, Path, Raw, Agent, PortText, Country, DetectedIdText]

  /** (c LIKE ? OR ...) over the columns. */
  function AnyLike(columns: seq<Column>): (e: Expr)
    requires columns != []
    ensures Holes(e) == |columns|
  {
    if |columns| == 1 then Like(columns[0]) else Either(AnyLike(columns[..|columns| - 1]), Like(columns[|columns| - 1]))
  }

  function Around(s: string): string {
    "%" + s + "%"
  }

  const OTHER_METHOD := Either(IsNull(Command), UpperNotIn(Command, METHOD_LITERALS))

  /** The two lists a query is built from. */
  datatype Query = Query(clauses: seq<Expr>, params: seq<string>)

  predicate Bound(q: Query) {
    |q.params| == TotalHoles(q.clauses)
  }

  function With(q: Query, e: Expr, args: seq<string>): Query {
    Query(q.clauses + [e], q.params + args)
  }

  function SearchArgs(term: string): seq<string> {
    seq(|SEARCH_COLUMNS|, _ => Around(term))
  }

  function WithSearch(q: Query, search: Option<string>): Query {
    var term := SanitizeSearch(search);
    if term == None then q else With(q, AnyLike(SEARCH_COLUMNS), SearchArgs(term.value))
  }

  function WithVerb(q: Query, verb: Option<string>): Query {
    if verb == Some("OTHER") then With(q, OTHER_METHOD, [])
    else if verb != None && verb.value in METHOD_LITERALS then With(q, UpperEquals(Command), [verb.value])
    else q
  }

  function WithOptional(q: Query, e: Expr, arg: Option<string>): Query {
    if arg == None then q else With(q, e, [arg.value])
  }

  function HostPattern(f: Filter): Option<string> {
    var host := SanitizeHost(f.host);
    if host == None then None else Some(Around(host.value))
  }

  function Scoped(f: Filter): Query {
    var dated := WithOptional(Query([], []), AtLeast(Timestamp), f.since);
    WithOptional(WithOptional(dated, Equals(BotIp), f.ip), Like(Raw), HostPattern(f))
  }

  function Built(f: Filter): Query {
    WithVerb(WithSearch(Scoped(f), f.search), f.verb)
  }

  /** `_append_search_method_clauses`: appends to both lists, seven parameters for a search. */
  method AppendSearchMethodClauses(q: Query, search: Option<string>, verb: Option<string>)
    returns (clauses: seq<Expr>, params: seq<string>)
    ensures Query(clauses, params) == WithVerb(WithSearch(q, search), verb)
  {
    clauses, params := q.clauses, q.params;
    var safe := SanitizeSearch(search);
    if safe != None {
      clauses := clauses + [AnyLike(SEARCH_COLUMNS)];
      for i := 0 to |SEARCH_COLUMNS|
        invariant params == q.params + seq(i, _ => Around(safe.value))
      {
        params := params + [Around(safe.value)];
      }
    }
    if verb == Some("OTHER") {
      clauses := clauses + [OTHER_METHOD];
      assert params + [] == params;
    } else if verb != None && verb.value in METHOD_LITERALS {
      clauses := clauses + [UpperEquals(Command)];
      params := params + [verb.value];
    }
  }

  /** The query of `recent_records` and `count_recent`. */
  method BuildQuery(f: Filter) returns (clauses: seq<Expr>, params: seq<string>)
    ensures Query(clauses, params) == Built(f)
  {
    clauses, params := [], [];
    if f.since != None {
      clauses := clauses + [AtLeast(Timestamp)];
      params := params + [f.since.value];
    }
    if f.ip != None {
      clauses := clauses + [Equals(BotIp)];
      params := params + [f.ip.value];
    }
    var host := SanitizeHost(f.host);
    if host != None {
      clauses := clauses + [Like(Raw)];
      params := params + [Around(host.value)];
    }
    clauses, params := AppendSearchMethodClauses(Query(clauses, params), f.search, f.verb);
  }

  // -------------------------------------------------------------------------
  // What a filter means, two-valued
  // -------------------------------------------------------------------------

  predicate MatchesSince(f: Filter, row: Row) {
    f.since == None || !Before(row.timestamp, f.since.value)
  }

  predicate MatchesIp(f: Filter, row: Row) {
    f.ip == None || row.botIp == f.ip.value
  }

  predicate MatchesHost(like: Matcher, f: Filter, row: Row) {
    var host := SanitizeHost(f.host);
    host == None || (row.raw != None && like(row.raw.value, Around(host.value)))
  }

  predicate MatchesSearch(like: Matcher, search: Option<string>, row: Row) {
    var term := SanitizeSearch(search);
    term == None ||
    exists c :: c in SEARCH_COLUMNS && ValueOf(row, c) != None && like(ValueOf(row, c).value, Around(term.value))
  }

  predicate MatchesVerb(verb: Option<string>, row: Row) {
    if verb == Some("OTHER") then row.command == None || UpperAscii(row.command.value) !in METHOD_LITERALS
    else if verb != None && verb.value in METHOD_LITERALS then
      row.command != None && UpperAscii(row.command.value) == verb.value
    else true
  }

  predicate Matches(like: Matcher, f: Filter, row: Row) {
    && MatchesSince(f, row) && MatchesIp(f, row) && MatchesHost(like, f, row)
    && MatchesSearch(like, f.search, row) && MatchesVerb(f.verb, row)
  }

  lemma WithMeans(like: Matcher, q: Query, e: Expr, args: seq<string>, row: Row)
    requires Bound(q) && |args| == Holes(e)
    ensures Bound(With(q, e, args))
    ensures Where(like, With(q, e, args).clauses, With(q, e, args).params, row) ==
            And3(Where(like, q.clauses, q.params, row), Eval(like, e, args, row))
  {
    assert (q.clauses + [e])[..|q.clauses|] == q.clauses;
    assert (q.params + args)[..|q.params|] == q.params && (q.params + args)[|q.params|..] == args;
  }

  predicate Selects(like: Matcher, q: Query, row: Row)
    requires Bound(q)
  {
    Where(like, q.clauses, q.params, row) == Yes
  }

  lemma OptionalMeans(like: Matcher, q: Query, e: Expr, arg: Option<string>, row: Row)
    requires Bound(q) && Holes(e) == 1
    ensures Bound(WithOptional(q, e, arg))
    ensures Selects(like, WithOptional(q, e, arg), row) <==>
            Selects(like, q, row) && (arg == None || Eval(like, e, [arg.value], row) == Yes)
  {
    if arg != None {
      WithMeans(like, q, e, [arg.value], row);
    }
  }

  lemma SearchMeans(like: Matcher, q: Query, search: Option<string>, row: Row)
    requires Bound(q)
    ensures Bound(WithSearch(q, search))
    ensures Selects(like, WithSearch(q, search), row) <==> Selects(like, q, row) && MatchesSearch(like, search, row)
  {
    hide SanitizeSearch, Eval, Where, AnyLike;
    var term := SanitizeSearch(search);
    AnyLikeHoles();
    if term != None {
      WithMeans(like, q, AnyLike(SEARCH_COLUMNS), SearchArgs(term.value), row);
      AnyLikeMeans(like, SEARCH_COLUMNS, Around(term.value), row);
    }
  }

  lemma AnyLikeHoles()
    ensures Holes(AnyLike(SEARCH_COLUMNS)) == |SEARCH_COLUMNS|
  {
  }

  lemma CommandMeans(like: Matcher, row: Row)
    ensures Holes(OTHER_METHOD) == 0 && Holes(UpperEquals(Command)) == 1
    ensures Eval(like, OTHER_METHOD, [], row) == Yes <==>
            row.command == None || UpperAscii(row.command.value) !in METHOD_LITERALS
    ensures forall verb :: Eval(like, UpperEquals(Command), [verb], row) == Yes <==>
                           row.command != None && UpperAscii(row.command.value) == verb
  {
    hide UpperAscii;
  }

  lemma VerbMeans(like: Matcher, q: Query, verb: Option<string>, row: Row)
    requires Bound(q)
    ensures Bound(WithVerb(q, verb))
    ensures Selects(like, WithVerb(q, verb), row) <==> Selects(like, q, row) && MatchesVerb(verb, row)
  {
    hide Where, TotalHoles, UpperAscii, Eval;
    CommandMeans(like, row);
    if verb == Some("OTHER") {
      WithMeans(like, q, OTHER_METHOD, [], row);
    } else if verb != None && verb.value in METHOD_LITERALS {
      WithMeans(like, q, UpperEquals(Command), [verb.value], row);
    }
  }

  /** The built query has as many parameters as placeholders, binds each where it belongs, and
      under SQL's three-valued logic its WHERE is true of exactly the rows the filter asks for. */
  lemma BuiltQuerySelectsMatches(like: Matcher, f: Filter, row: Row)
    ensures Bound(Built(f))
    ensures Selects(like, Built(f), row) <==> Matches(like, f, row)
  {
    hide Selects, Bound, Scoped, WithSearch, WithVerb, MatchesSearch, MatchesVerb, MatchesSince, MatchesIp, MatchesHost;
    ScopedMeans(like, f, row);
    SearchMeans(like, Scoped(f), f.search, row);
    VerbMeans(like, WithSearch(Scoped(f), f.search), f.verb, row);
  }

  lemma ScopedMeans(like: Matcher, f: Filter, row: Row)
    ensures Bound(Scoped(f))
    ensures Selects(like, Scoped(f), row) <==> MatchesSince(f, row) && MatchesIp(f, row) && MatchesHost(like, f, row)
  {
    hide Where, Bound, Selects, SanitizeHost, WithOptional, Before;
    var q0 := Query([], []);
    var q1 := WithOptional(q0, AtLeast(Timestamp), f.since);
    var q2 := WithOptional(q1, Equals(BotIp), f.ip);
    EmptyQuerySelectsAll(like, row);
    OptionalMeans(like, q0, AtLeast(Timestamp), f.since, row);
    OptionalMeans(like, q1, Equals(BotIp), f.ip, row);
    OptionalMeans(like, q2, Like(Raw), HostPattern(f), row);
  }

  lemma EmptyQuerySelectsAll(like: Matcher, row: Row)
    ensures Bound(Query([], [])) && Selects(like, Query([], []), row)
  {
  }

  lemma {:induction false} AnyLikeMeans(like: Matcher, columns: seq<Column>, pattern: string, row: Row)
    requires columns != []
    ensures Eval(like, AnyLike(columns), seq(|columns|, _ => pattern), row) == Yes <==>
            exists c :: c in columns && ValueOf(row, c) != None && like(ValueOf(row, c).value, pattern)
  {
    hide ValueOf, UpperAscii, Before;
    var n := |columns| - 1;
    var args := seq(|columns|, _ => pattern);
    if n > 0 {
      assert args[..n] == seq(n, _ => pattern) && args[n..] == [pattern];
      AnyLikeMeans(like, columns[..n], pattern, row);
      AnyLikeStep(like, columns, args, row);
      hide Eval, AnyLike;
      LikeMeans(like, columns[n], pattern, row);
      assert columns == columns[..n] + [columns[n]];
    } else {
      assert args == [pattern];
    }
  }

  lemma AnyLikeStep(like: Matcher, columns: seq<Column>, args: seq<string>, row: Row)
    requires |columns| > 1 && |args| == |columns|
    ensures var n := |columns| - 1;
            Eval(like, AnyLike(columns), args, row) ==
            Or3(Eval(like, AnyLike(columns[..n]), args[..n], row), Eval(like, Like(columns[n]), args[n..], row))
  {
    hide ValueOf, UpperAscii, Before;
  }

  lemma LikeMeans(like: Matcher, c: Column, pattern: string, row: Row)
    ensures Eval(like, Like(c), [pattern], row) == Yes <==>
            ValueOf(row, c) != None && like(ValueOf(row, c).value, pattern)
  {
    hide ValueOf, UpperAscii, Before;
  }

  // -------------------------------------------------------------------------
  // What is found, in the engine's own terms
  // -------------------------------------------------------------------------

  /** SQLite's LIKE: `%` stands for any text, `_` for one character, letters match in either case. */
  predicate SqlLike(value: string, pattern: string)
    decreases |value| + |pattern|
  {
    if pattern == "" then value == ""
    else if pattern[0] == '%' then SqlLike(value, pattern[1..]) || (value != "" && SqlLike(value[1..], pattern))
    else
      value != "" && (pattern[0] == '_' || SameLetter(value[0], pattern[0])) && SqlLike(value[1..], pattern[1..])
  }

  /** The term stands somewhere in the text, in whatever case. */
  ghost predicate IsIn(term: string, text: string) {
    exists i: nat :: StandsInAnyCase(term, text, i)
  }

  /** A term the filters take literally: long enough, no wildcard in it, no `*` in front, no blank
      at either end. */
  predicate IsPlain(term: string, length: nat) {
    |term| >= length && '%' !in term && '_' !in term && IsTrimmed(term) && (term != "" ==> term[0] != '*')
  }

  lemma {:induction false} PercentMatchesAll(value: string)
    ensures SqlLike(value, "%")
  {
    assert "%"[1..] == "";
    if value != "" {
      PercentMatchesAll(value[1..]);
    }
  }

  lemma {:induction false} TermMatches(value: string, term: string)
    requires '%' !in term && '_' !in term
    ensures SqlLike(value, term + "%") <==> StandsInAnyCase(term, value, 0)
    decreases |term|
  {
    if term == "" {
      assert term + "%" == "%";
      PercentMatchesAll(value);
    } else {
      assert (term + "%")[0] == term[0] && (term + "%")[1..] == term[1..] + "%";
      assert term[0] in term;
      if value != "" {
        TermMatches(value[1..], term[1..]);
        StandsStep(term, value);
      }
    }
  }

  lemma {:induction false} AroundMatches(value: string, term: string)
    requires '%' !in term && '_' !in term
    ensures SqlLike(value, Around(term)) <==> IsIn(term, value)
    decreases |value|
  {
    assert Around(term)[1..] == term + "%";
    TermMatches(value, term);
    if value != "" {
      AroundMatches(value[1..], term);
      if i: nat :| StandsInAnyCase(term, value[1..], i) {
        assert StandsInAnyCase(term, value, i + 1);
      }
      if i: nat :| i > 0 && StandsInAnyCase(term, value, i) {
        assert StandsInAnyCase(term, value[1..], i - 1);
      }
    }
  }

  /** The shortest text a term with wildcards matches: no character for `%`, some letter for `_`. */
  function Filled(term: string): string {
    if term == "" then ""
    else if term[0] == '%' then Filled(term[1..])
    else [if term[0] == '_' then 'x' else term[0]] + Filled(term[1..])
  }

  lemma {:induction false} FilledMatches(term: string)
    ensures SqlLike(Filled(term), term + "%") && |Filled(term)| <= |term|
    ensures '%' in term || '_' in term ==> !StandsInAnyCase(term, Filled(term), 0)
  {
    if term == "" {
      assert term + "%" == "%";
      PercentMatchesAll("");
    } else {
      assert (term + "%")[0] == term[0] && (term + "%")[1..] == term[1..] + "%";
      FilledMatches(term[1..]);
      if term[0] != '%' {
        assert Filled(term)[1..] == Filled(term[1..]);
        StandsStep(term, Filled(term));
        assert term == [term[0]] + term[1..];
      }
    }
  }

  /** Wrapped in percent signs, a term finds exactly the texts that contain it, for every text, if and
      only if it holds neither of LIKE's own wildcards: they are not escaped. */
  lemma TermIsLiteralIff(term: string)
    ensures (forall value :: SqlLike(value, Around(term)) <==> IsIn(term, value)) <==> '%' !in term && '_' !in term
  {
    hide IsIn;
    if '%' !in term && '_' !in term {
      forall value
        ensures SqlLike(value, Around(term)) <==> IsIn(term, value)
      {
        AroundMatches(value, term);
      }
    } else {
      FilledMatches(term);
      assert Around(term)[1..] == term + "%";
      FilledHasNoRoom(term);
    }
  }

  lemma FilledHasNoRoom(term: string)
    requires '%' in term || '_' in term
    ensures !IsIn(term, Filled(term))
  {
    FilledMatches(term);
  }

  ghost predicate HoldsTerm(value: Option<string>, term: string) {
    value.Some? && IsIn(term, value.value)
  }

  /** What the filters ask of a row. */
  ghost predicate IsWanted(f: Filter, row: Row) {
    && (f.since.Some? ==> Lte(f.since.value, row.timestamp))
    && (f.ip.Some? ==> row.botIp == f.ip.value)
    && (f.host.Some? ==> HoldsTerm(row.raw, f.host.value))
    && (f.search.Some? ==> FindsTerm(row, f.search.value))
    && (f.verb == Some("GET") ==> IsVerb(row, "GET"))
    && (f.verb == Some("POST") ==> IsVerb(row, "POST"))
    && (f.verb == Some("OTHER") ==> !IsVerb(row, "GET") && !IsVerb(row, "POST"))
  }

  predicate IsVerb(row: Row, verb: string) {
    row.command.Some? && SameText(row.command.value, verb)
  }

  /** With plain terms the built query selects exactly the rows that are asked for: a term is found
      wherever it stands, in the raw text for a host and in any of the seven columns for a search. */
  lemma QuerySelectsWanted(f: Filter, row: Row)
    requires f.host.Some? ==> IsPlain(f.host.value, 3)
    requires f.search.Some? ==> IsPlain(f.search.value, 2)
    ensures Bound(Built(f))
    ensures Selects(SqlLike, Built(f), row) <==> IsWanted(f, row)
  {
    hide Selects, Built, Around, SqlLike, IsIn, Strip, Before, UpperAscii, SameText;
    BuiltQuerySelectsMatches(SqlLike, f, row);
    if f.host.Some? {
      assert f.host.value[0] in f.host.value;
      if row.raw.Some? {
        AroundMatches(row.raw.value, f.host.value);
      }
    }
    SearchFindsTerm(f.search, row);
    VerbInAnyCase(f.verb, row);
    hide SEARCH_COLUMNS, MatchesSearch, MatchesVerb, FindsTerm;
  }

  /** The term stands in one of the seven columns a search covers. */
  ghost predicate FindsTerm(row: Row, term: string) {
    || IsIn(term, row.botIp) || HoldsTerm(row.path, term) || HoldsTerm(row.raw, term) || HoldsTerm(row.agent, term)
    || HoldsTerm(row.port, term) || HoldsTerm(row.country, term) || HoldsTerm(row.detectedId, term)
  }

  lemma SearchFindsTerm(search: Option<string>, row: Row)
    requires search.Some? ==> IsPlain(search.value, 2)
    ensures MatchesSearch(SqlLike, search, row) <==> (search.Some? ==> FindsTerm(row, search.value))
  {
    hide Around, SqlLike, IsIn, Strip;
    if search.Some? {
      TrimmedIsStripped(search.value);
      assert search.value[0] in search.value;
      assert SanitizeSearch(search) == search;
      SomeColumnHolds(row, search.value);
    }
  }

  lemma SomeColumnHolds(row: Row, term: string)
    requires '%' !in term && '_' !in term
    ensures (exists c :: c in SEARCH_COLUMNS && ValueOf(row, c) != None && SqlLike(ValueOf(row, c).value, Around(term)))
            <==> FindsTerm(row, term)
  {
    hide Around, SqlLike, IsIn;
    forall c | ValueOf(row, c).Some?
      ensures SqlLike(ValueOf(row, c).value, Around(term)) <==> IsIn(term, ValueOf(row, c).value)
    {
      AroundMatches(ValueOf(row, c).value, term);
    }
    forall c
      ensures c in SEARCH_COLUMNS <==>
              c.BotIp? || c.Path? || c.Raw? || c.Agent? || c.PortText? || c.Country? || c.DetectedIdText?
    {
      assert SEARCH_COLUMNS[0] == BotIp && SEARCH_COLUMNS[1] == Path && SEARCH_COLUMNS[2] == Raw;
      assert SEARCH_COLUMNS[3] == Agent && SEARCH_COLUMNS[4] == PortText && SEARCH_COLUMNS[5] == Country;
      assert SEARCH_COLUMNS[6] == DetectedIdText;
    }
    hide SEARCH_COLUMNS;
    assert FindsTerm(row, term) <==> exists c :: c in SEARCH_COLUMNS && HoldsTerm(ValueOf(row, c), term) by {
      assert ValueOf(row, BotIp) == Some(row.botIp) && ValueOf(row, Path) == row.path && ValueOf(row, Raw) == row.raw;
      assert ValueOf(row, Agent) == row.agent && ValueOf(row, PortText) == row.port;
      assert ValueOf(row, Country) == row.country && ValueOf(row, DetectedIdText) == row.detectedId;
    }
  }

  lemma VerbInAnyCase(verb: Option<string>, row: Row)
    ensures MatchesVerb(verb, row) <==>
            && (verb == Some("GET") ==> IsVerb(row, "GET"))
            && (verb == Some("POST") ==> IsVerb(row, "POST"))
            && (verb == Some("OTHER") ==> !IsVerb(row, "GET") && !IsVerb(row, "POST"))
  {
    hide UpperAscii, SameText;
    assert "GET"[0] != "POST"[0] && "GET"[0] != "OTHER"[0] && "POST"[0] != "OTHER"[0];
    assert METHOD_LITERALS[0] == "GET" && METHOD_LITERALS[1] == "POST";
    if row.command.Some? {
      CaseFoldingIff(row.command.value, "GET");
      CaseFoldingIff(row.command.value, "POST");
      CapitalsStay();
    }
  }

  lemma CapitalsStay()
    ensures UpperAscii("GET") == "GET" && UpperAscii("POST") == "POST"
  {
    UpperAsciiAt("GET");
    UpperAsciiAt("POST");
    hide UpperAscii;
  }

  /** A term that is too short, or begins with a wildcard, asks for nothing. */
  lemma IdleTermsAreIgnored(f: Filter)
    ensures f.host.Some? && (|f.host.value| < 3 || f.host.value[0] == '%' || f.host.value[0] == '*') ==>
              Built(f) == Built(f.(host := None))
    ensures f.search.Some? && IsTrimmed(f.search.value)
            && (|f.search.value| < 2 || f.search.value[0] == '%' || f.search.value[0] == '*') ==>
              Built(f) == Built(f.(search := None))
  {
    hide WithVerb, AnyLike;
    if f.search.Some? {
      TrimmedIsStripped(f.search.value);
    }
  }

  /** A window that starts at a moment holds exactly the rows stamped then or later. */
  lemma SinceInTime(f: Filter, row: Row, start: Moment, m: Moment)
    requires IsMoment(start) && IsMoment(m)
    requires f.since == Some(Written(start)) && row.timestamp == Written(m)
    ensures MatchesSince(f, row) <==> !Earlier(m, start)
  {
    hide Before, Written, Earlier;
    MomentsInOrder(m, start);
  }

  // -------------------------------------------------------------------------
  // The method filters partition the log
  // -------------------------------------------------------------------------

  /** The rows a query keeps, in the order the table has them. */
  function Kept(like: Matcher, f: Filter, table: seq<Row>): seq<Row> {
    if table == [] then []
    else
      BuiltQuerySelectsMatches(like, f, table[0]);
      (if Selects(like, Built(f), table[0]) then [table[0]] else []) + Kept(like, f, table[1..])
  }

  /** SELECT COUNT(*) with the same WHERE. */
  function CountRecent(like: Matcher, f: Filter, table: seq<Row>): nat {
    if table == [] then 0
    else
      BuiltQuerySelectsMatches(like, f, table[0]);
      CountRecent(like, f, table[1..]) + if Selects(like, Built(f), table[0]) then 1 else 0
  }

  predicate NewestFirst(log: seq<Row>) {
    forall i, j :: 0 <= i < j < |log| ==> !Before(log[i].timestamp, log[j].timestamp)
  }

  /** What ORDER BY timestamp DESC may return: rows of one timestamp come in any order. */
  predicate IsLog(like: Matcher, f: Filter, table: seq<Row>, log: seq<Row>) {
    multiset(log) == multiset(Kept(like, f, table)) && NewestFirst(log)
  }

  /** No row of a log is older than a row listed after it. */
  lemma NewestFirstInTime(log: seq<Row>, i: nat, j: nat, a: Moment, b: Moment)
    requires NewestFirst(log) && i < j < |log| && IsMoment(a) && IsMoment(b)
    requires log[i].timestamp == Written(a) && log[j].timestamp == Written(b)
    ensures !Earlier(a, b)
  {
    hide Before, Written, Earlier;
    MomentsInOrder(a, b);
  }

  /** A row that passes the other filters passes exactly one of GET, POST and OTHER, whatever its
      command is, NULL included. */
  lemma MethodsPartitionRow(like: Matcher, f: Filter, row: Row)
    requires f.verb == None
    ensures var get, post, other := Matches(like, f.(verb := Some("GET")), row),
                                    Matches(like, f.(verb := Some("POST")), row),
                                    Matches(like, f.(verb := Some("OTHER")), row);
            && (Matches(like, f, row) <==> get || post || other)
            && !(get && post) && !(get && other) && !(post && other)
  {
    assert "GET"[0] != "POST"[0] && "GET"[0] != "OTHER"[0] && "POST"[0] != "OTHER"[0];
    assert "GET" in METHOD_LITERALS && "POST" in METHOD_LITERALS && "OTHER" !in METHOD_LITERALS;
    hide MatchesSince, MatchesIp, MatchesHost, MatchesSearch, UpperAscii;
    if row.command != None {
      assert UpperAscii(row.command.value) in METHOD_LITERALS <==>
             UpperAscii(row.command.value) == "GET" || UpperAscii(row.command.value) == "POST";
    }
  }

  lemma KeptStep(like: Matcher, f: Filter, table: seq<Row>)
    requires table != []
    ensures Kept(like, f, table) == (if Matches(like, f, table[0]) then [table[0]] else []) + Kept(like, f, table[1..])
  {
    BuiltQuerySelectsMatches(like, f, table[0]);
  }

  lemma NothingIsKept(like: Matcher, f: Filter)
    ensures Kept(like, f, []) == []
  {
  }

  lemma SplitStep(row: Row, get: bool, post: bool, other: bool, all: seq<Row>, a: seq<Row>, b: seq<Row>, c: seq<Row>)
    requires !(get && post) && !(get && other) && !(post && other)
    requires multiset(all) == multiset(a) + multiset(b) + multiset(c)
    ensures var all', a' := (if get || post || other then [row] else []) + all, (if get then [row] else []) + a;
            var b', c' := (if post then [row] else []) + b, (if other then [row] else []) + c;
            multiset(all') == multiset(a') + multiset(b') + multiset(c')
  {
  }

  lemma {:induction false} MethodsPartitionKept(like: Matcher, f: Filter, table: seq<Row>)
    requires f.verb == None
    ensures var get, post, other := f.(verb := Some("GET")), f.(verb := Some("POST")), f.(verb := Some("OTHER"));
            multiset(Kept(like, f, table)) ==
            multiset(Kept(like, get, table)) + multiset(Kept(like, post, table)) + multiset(Kept(like, other, table))
  {
    hide Matches, Kept;
    if table != [] {
      var get, post, other := f.(verb := Some("GET")), f.(verb := Some("POST")), f.(verb := Some("OTHER"));
      MethodsPartitionKept(like, f, table[1..]);
      MethodsPartitionRow(like, f, table[0]);
      KeptStep(like, f, table);
      KeptStep(like, get, table);
      KeptStep(like, post, table);
      KeptStep(like, other, table);
      var rest := table[1..];
      SplitStep(table[0], Matches(like, get, table[0]), Matches(like, post, table[0]), Matches(like, other, table[0]),
                Kept(like, f, rest), Kept(like, get, rest), Kept(like, post, rest), Kept(like, other, rest));
    } else {
      NothingIsKept(like, f);
      NothingIsKept(like, f.(verb := Some("GET")));
      NothingIsKept(like, f.(verb := Some("POST")));
      NothingIsKept(like, f.(verb := Some("OTHER")));
    }
  }

  /** For any other filters, the three method logs together are the whole log, row for row, and so
      their totals add up. */
  lemma MethodsPartitionLog(like: Matcher, f: Filter, table: seq<Row>)
    requires f.verb == None
    ensures var get, post, other := f.(verb := Some("GET")), f.(verb := Some("POST")), f.(verb := Some("OTHER"));
            && multiset(Kept(like, f, table)) ==
               multiset(Kept(like, get, table)) + multiset(Kept(like, post, table)) + multiset(Kept(like, other, table))
            && CountRecent(like, f, table) ==
               CountRecent(like, get, table) + CountRecent(like, post, table) + CountRecent(like, other, table)
  {
    hide Matches, CountRecent, Kept;
    MethodsPartitionKept(like, f, table);
    CountIsLength(like, f, table);
    CountIsLength(like, f.(verb := Some("GET")), table);
    CountIsLength(like, f.(verb := Some("POST")), table);
    CountIsLength(like, f.(verb := Some("OTHER")), table);
    assert |multiset(Kept(like, f, table))| == |Kept(like, f, table)|;
  }

  // -------------------------------------------------------------------------
  // Paging
  // -------------------------------------------------------------------------

  function Cap(limit: int): nat {
    if limit > MAX_OFFSET then limit else MAX_OFFSET
  }

  function ClampOffset(offset: int, limit: int): nat {
    if offset < 0 then 0 else if offset < Cap(limit) then offset else Cap(limit)
  }

  /** LIMIT and OFFSET: a negative limit is none. */
  function Slice<T>(rows: seq<T>, limit: int, offset: nat): seq<T> {
    if offset >= |rows| then []
    else if 0 <= limit < |rows| - offset then rows[offset..offset + limit]
    else rows[offset..]
  }

  /** The rows of one page of a log. */
  function Page(log: seq<Row>, limit: int, offset: int): seq<Row> {
    Slice(log, limit, ClampOffset(offset, limit))
  }

  /** k times the limit, added up page by page. */
  function PageOffset(limit: nat, k: nat): nat {
    if k == 0 then 0 else PageOffset(limit, k - 1) + limit
  }

  lemma {:induction false} PageOffsetIsProduct(limit: nat, k: nat)
    ensures PageOffset(limit, k) == k * limit
  {
    if k > 0 {
      PageOffsetIsProduct(limit, k - 1);
    }
  }

  /** The pages at offsets 0, limit, 2 * limit, ... put end to end. */
  function Pages(log: seq<Row>, limit: nat, pages: nat): seq<Row> {
    if pages == 0 then [] else Pages(log, limit, pages - 1) + Page(log, limit, PageOffset(limit, pages - 1))
  }

  function FirstRows(log: seq<Row>, n: nat): seq<Row> {
    if n < |log| then log[..n] else log
  }

  /** Pages whose offsets stay within the clamp tile the log: end to end they are its beginning,
      without gap or overlap. */
  lemma {:induction false} PagesTileTheLog(log: seq<Row>, limit: nat, pages: nat)
    requires limit > 0 && (pages > 0 ==> PageOffset(limit, pages - 1) <= Cap(limit))
    ensures Pages(log, limit, pages) == FirstRows(log, PageOffset(limit, pages))
  {
    if pages > 0 {
      var offset := PageOffset(limit, pages - 1);
      PagesTileTheLog(log, limit, pages - 1);
      assert ClampOffset(offset, limit) == offset;
      hide Slice, ClampOffset, Cap, FirstRows;
      TileStep(log, limit, offset);
    }
  }

  lemma TileStep(log: seq<Row>, limit: nat, offset: nat)
    ensures FirstRows(log, offset) + Slice(log, limit, offset) == FirstRows(log, offset + limit)
  {
  }

  /** The COUNT query and the listing agree: the total is the length of every log, and a log holds
      exactly the rows of the table that match. */
  lemma {:induction false} CountIsLength(like: Matcher, f: Filter, table: seq<Row>)
    ensures CountRecent(like, f, table) == |Kept(like, f, table)|
    ensures forall row :: row in Kept(like, f, table) <==> row in table && Matches(like, f, row)
  {
    hide Matches;
    if table != [] {
      CountIsLength(like, f, table[1..]);
      KeptStep(like, f, table);
      BuiltQuerySelectsMatches(like, f, table[0]);
      assert table == [table[0]] + table[1..];
    }
  }

  /** Whatever the engine makes of equal timestamps, as long as it lists them the same way for every
      page: when the pages up to the clamp have room for the total that count_recent reports, they
      are the whole log, newest first, each matching row in its place and no other. */
  lemma PagesShowTheWholeLog(like: Matcher, f: Filter, table: seq<Row>, log: seq<Row>, limit: nat, pages: nat)
    requires IsLog(like, f, table, log)
    requires limit > 0 && pages > 0 && (pages - 1) * limit <= Cap(limit)
    requires CountRecent(like, f, table) <= pages * limit
    ensures Pages(log, limit, pages) == log && |log| == CountRecent(like, f, table) && NewestFirst(log)
    ensures forall row :: row in Pages(log, limit, pages) <==> row in table && Matches(like, f, row)
  {
    hide Matches, Kept, CountRecent, NewestFirst;
    CountIsLength(like, f, table);
    PageOffsetIsProduct(limit, pages - 1);
    PageOffsetIsProduct(limit, pages);
    assert |log| == |multiset(log)|;
    PagesTileTheLog(log, limit, pages);
    forall row
      ensures row in log <==> row in Kept(like, f, table)
    {
      assert row in multiset(log) <==> row in multiset(Kept(like, f, table));
    }
  }

  /** Where a page starts: an offset below zero counts as zero, one beyond 100 000, or beyond the limit
      when that is larger, as that bound. */
  function Start(offset: int, limit: int): nat {
    var bound := if limit > 100_000 then limit else 100_000;
    if offset < 0 then 0 else if offset > bound then bound else offset
  }

  /** Row by row: a page holds the rows from its start on, as many as the limit allows and the log
      has; a negative limit is none. */
  lemma PageRows(log: seq<Row>, limit: int, offset: int)
    ensures var start, page := Start(offset, limit), Page(log, limit, offset);
            && (start + |page| <= |log| || page == [])
            && (forall i :: 0 <= i < |page| ==> page[i] == log[start + i])
            && (|page| == limit || start + |page| >= |log|)
            && (limit >= 0 ==> |page| <= limit)
  {
  }

  /** Exactly the rows before the bound plus the limit can be paged to: beyond it every offset is
      clamped to the same page. */
  lemma ReachableIff(log: seq<Row>, limit: nat, i: nat)
    requires limit > 0 && i < |log|
    ensures (exists offset: int :: Start(offset, limit) <= i < Start(offset, limit) + |Page(log, limit, offset)|)
            <==> i < (if limit > 100_000 then limit else 100_000) + limit
  {
    var bound := if limit > 100_000 then limit else 100_000;
    if i < bound + limit {
      var offset := if i < bound then i else bound;
      assert Start(offset, limit) == offset;
      assert offset <= i < offset + |Page(log, limit, offset)|;
    }
  }
}
