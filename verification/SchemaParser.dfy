/** Reading column names out of a CREATE TABLE statement (`_parse_target_columns`,
    scripts/migrate_db.py). The statement is Latin-1 text. */
module SchemaParser {
  import opened Wrappers
  import opened Text

  // -------------------------------------------------------------------------
  // The parenthesised body
  // -------------------------------------------------------------------------

  /** The position of the first '(', or the length when there is none. */
  function OpenAt(s: string): (i: nat)
    ensures i <= |s| && '(' !in s[..i] && (i < |s| ==> s[i] == '(')
  {
    if s == "" || s[0] == '(' then 0
    else
      var i := OpenAt(s[1..]);
      assert s[..i + 1] == [s[0]] + s[1..][..i];
      i + 1
  }

  /** The position at which `depth` open parentheses are all closed, or the length. */
  function CloseAt(s: string, depth: nat): (i: nat)
    ensures i <= |s|
  {
    if s == "" then 0
    else if s[0] == '(' then 1 + CloseAt(s[1..], depth + 1)
    else if s[0] == ')' then (if depth <= 1 then 0 else 1 + CloseAt(s[1..], depth - 1))
    else 1 + CloseAt(s[1..], depth)
  }

  /** Between the first '(' and its match, or the end of the text. */
  function Body(sql: string): string
    requires '(' in sql
  {
    OpenIsThere(sql);
    var tail := sql[OpenAt(sql) + 1..];
    tail[..CloseAt(tail, 1)]
  }

  lemma OpenIsThere(s: string)
    ensures '(' in s <==> OpenAt(s) < |s|
  {
    if OpenAt(s) == |s| {
      assert s[..OpenAt(s)] == s;
    }
  }

  // -------------------------------------------------------------------------
  // One line
  // -------------------------------------------------------------------------

  function FirstWord(s: string): string {
    if s == "" || IsSpace(s[0]) then "" else [s[0]] + FirstWord(s[1..])
  }

  predicate IsQuote(c: char) {
    c == '`' || c == '"' || c == '[' || c == ']'
  }

  function StripQuotes(s: string): string {
    if s == "" then ""
    else if IsQuote(s[0]) then StripQuotes(s[1..])
    else if IsQuote(s[|s| - 1]) then StripQuotes(s[..|s| - 1])
    else s
  }

  predicate IsWordChar(c: char) {
    'A' <= c <= 'Z' || 'a' <= c <= 'z' || '0' <= c <= '9' || c == '_'
  }

  predicate IsIdentifier(s: string) {
    s != "" && !('0' <= s[0] <= '9') && forall i :: 0 <= i < |s| ==> IsWordChar(s[i])
  }

  /** The column a line declares, if any. */
  function LineName(line: string): Option<string> {
    var token := Strip(line);
    if token == "" || StartsWith(token, "UNIQUE") || StartsWith(token, "PRIMARY KEY") then None
    else
      var name := StripQuotes(FirstWord(token));
      if IsIdentifier(name) then Some(name) else None
  }

  function Names(lines: seq<string>): seq<string> {
    if lines == [] then []
    else Names(lines[..|lines| - 1]) + (match LineName(lines[|lines| - 1]) case Some(n) => [n] case None => [])
  }

  /** None is the ValueError of a statement without parenthesis. */
  function TargetColumns(sql: string): Option<seq<string>> {
    if '(' in sql then Some(Names(SplitLines(Body(sql)))) else None
  }

  /** The two loops of the parser. */
  method ParseTargetColumns(sql: string) returns (columns: Option<seq<string>>)
    ensures columns == TargetColumns(sql)
  {
    hide SplitLines, LineName;
    OpenIsThere(sql);
    var start := OpenAt(sql);
    if start == |sql| {
      return None;
    }
    var end := MatchingParen(sql, start);
    var body := sql[start + 1..end];
    assert body == sql[start + 1..][..end - start - 1];
    var lines := SplitLines(body);
    var names := [];
    for k := 0 to |lines|
      invariant names == Names(lines[..k])
    {
      assert lines[..k + 1][..k] == lines[..k];
      match LineName(lines[k]) {
        case None =>
        case Some(name) => names := names + [name];
      }
    }
    assert lines[..|lines|] == lines;
    return Some(names);
  }

  method MatchingParen(sql: string, start: nat) returns (end: nat)
    requires start < |sql| && sql[start] == '('
    ensures end == start + 1 + CloseAt(sql[start + 1..], 1)
  {
    var depth := 0;
    var i := start;
    end := |sql|;
    while i < |sql|
      invariant start <= i <= |sql|
      invariant depth >= 0 && (i == start <==> depth == 0)
      invariant i > start ==> start + 1 + CloseAt(sql[start + 1..], 1) == i + CloseAt(sql[i..], depth)
    {
      assert sql[i..][1..] == sql[i + 1..];
      if sql[i] == '(' {
        depth := depth + 1;
      } else if sql[i] == ')' {
        depth := depth - 1;
        if depth == 0 {
          return i;
        }
      }
      i := i + 1;
    }
  }

  // -------------------------------------------------------------------------
  // Schemas printed one declaration per line
  // -------------------------------------------------------------------------

  /** A column or a table constraint: a word, bare or in quotes, and what follows it. */
  datatype Declaration =
    Declaration(isColumn: bool, indent: string, open: string, word: string, close: string, rest: string)

  function Print(d: Declaration): string {
    d.indent + (d.open + d.word + d.close) + d.rest
  }

  predicate AllSpace(s: string) {
    forall i :: 0 <= i < |s| ==> IsSpace(s[i])
  }

  /** Scanning `s` at depth `d` never closes the outermost parenthesis and ends at depth `e`. */
  predicate Balanced(s: string, d: nat, e: nat) {
    if s == "" then d == e
    else if s[0] == '(' then Balanced(s[1..], d + 1, e)
    else if s[0] == ')' then d >= 2 && Balanced(s[1..], d - 1, e)
    else Balanced(s[1..], d, e)
  }

  predicate AllQuotes(s: string) {
    forall i :: 0 <= i < |s| ==> IsQuote(s[i])
  }

  /** The first word of the line is an identifier, and ends where its characters do. */
  predicate WellFormed(d: Declaration) {
    && AllSpace(d.indent)
    && AllQuotes(d.open) && IsIdentifier(d.word) && AllQuotes(d.close)
    && (d.rest == "" || (!IsWordChar(d.rest[0]) && !IsQuote(d.rest[0])))
    && IsLine(Print(d))
    && Balanced(Print(d), 1, 1)
  }

  predicate AllWellFormed(ds: seq<Declaration>) {
    forall i :: 0 <= i < |ds| ==> WellFormed(ds[i])
  }

  function PrintLines(ds: seq<Declaration>): string {
    if ds == [] then "" else Print(ds[0]) + "\n" + PrintLines(ds[1..])
  }

  function PrintSchema(header: string, ds: seq<Declaration>, trailer: string): string {
    header + "(\n" + PrintLines(ds) + ")" + trailer
  }

  /** What the parser takes for a column: a blank or nothing must follow the word, and the line must
      not begin with UNIQUE or PRIMARY KEY. */
  predicate ReadsAsColumn(d: Declaration) {
    && (d.rest == "" || IsSpace(d.rest[0]))
    && !(d.open == "" && StartsWith(d.word, "UNIQUE"))
    && !(d.open == "" && d.close == "" && d.word == "PRIMARY" && StartsWith(d.rest, " KEY"))
  }

  predicate ReadsRight(d: Declaration) {
    d.isColumn <==> ReadsAsColumn(d)
  }

  function ColumnNames(ds: seq<Declaration>): seq<string> {
    if ds == [] then [] else (if ds[0].isColumn then [ds[0].word] else []) + ColumnNames(ds[1..])
  }

  function KeptNames(ds: seq<Declaration>): seq<string> {
    if ds == [] then [] else (if ReadsAsColumn(ds[0]) then [ds[0].word] else []) + KeptNames(ds[1..])
  }

  /** No column is named like the first word of a constraint. */
  predicate NamesApart(ds: seq<Declaration>) {
    forall i, j :: 0 <= i < |ds| && 0 <= j < |ds| && ds[i].isColumn && !ds[j].isColumn ==> ds[i].word != ds[j].word
  }

  /** The parser returns the first word of every line that reads as a column. That is exactly the
      declared columns, in order, when every line reads right; and only then, as long as no column
      is named like a constraint's first word. A column UNIQUE_ID TEXT, a column x followed at once
      by its comma, and a line FOREIGN KEY (...) do not read right. */
  lemma PrintedSchemaParsesIff(header: string, ds: seq<Declaration>, trailer: string)
    requires '(' !in header && AllWellFormed(ds)
    ensures TargetColumns(PrintSchema(header, ds, trailer)) == Some(KeptNames(ds))
    ensures (forall i :: 0 <= i < |ds| ==> ReadsRight(ds[i])) ==>
              TargetColumns(PrintSchema(header, ds, trailer)) == Some(ColumnNames(ds))
    ensures NamesApart(ds) && TargetColumns(PrintSchema(header, ds, trailer)) == Some(ColumnNames(ds)) ==>
              forall i :: 0 <= i < |ds| ==> ReadsRight(ds[i])
  {
    hide TargetColumns, LineName, Print, SplitLines, Names, WellFormed, ReadsRight, PrintSchema, IsBreak,
      StartsWith, KeptNames, ColumnNames, Printed, PrintLines, NamesApart;
    BodyOfSchema(header, ds, trailer);
    LinesSplit(ds);
    SplitLineOff("", "\n", PrintLines(ds));
    assert "" + "\n" + PrintLines(ds) == "\n" + PrintLines(ds);
    NamesOfEmptyLine();
    NamesOfLines([""], ds);
    assert [] + KeptNames(ds) == KeptNames(ds);
    RightLinesKeepAll(ds);
    if NamesApart(ds) && KeptNames(ds) == ColumnNames(ds) {
      KeptAllReadRight(ds);
    }
  }

  lemma BodyOfSchema(header: string, ds: seq<Declaration>, trailer: string)
    requires '(' !in header && AllWellFormed(ds)
    ensures TargetColumns(PrintSchema(header, ds, trailer)) == Some(Names(SplitLines("\n" + PrintLines(ds))))
  {
    hide AllWellFormed, PrintLines, SplitLines, Names, CloseAt, OpenAt, Balanced;
    var sql := PrintSchema(header, ds, trailer);
    var lines := "\n" + PrintLines(ds);
    var tail := lines + (")" + trailer);
    assert sql == header + "(" + tail;
    OpenAfter(header, tail);
    assert sql[|header|] == '(' && sql[|header| + 1..] == tail;
    LinesAreBalanced(ds);
    CloseSkips(lines, ")" + trailer, 1, 1);
    ClosesAtOnce(trailer);
    assert tail[..|lines|] == lines;
  }

  lemma EmptyLineHasNoName()
    ensures LineName("") == None
  {
  }

  lemma NamesOfEmptyLine()
    ensures Names([""]) == []
  {
    assert [""][..0] == [];
    assert [""][|[""]| - 1] == "";
    EmptyLineHasNoName();
  }

  lemma ClosesAtOnce(trailer: string)
    ensures CloseAt(")" + trailer, 1) == 0
  {
  }

  lemma {:induction false} OpenAfter(header: string, rest: string)
    requires '(' !in header
    ensures OpenAt(header + "(" + rest) == |header|
  {
    var s := header + "(" + rest;
    if header != "" {
      assert s[0] == header[0] && s[1..] == header[1..] + "(" + rest;
      OpenAfter(header[1..], rest);
    }
  }

  lemma {:induction false} CloseSkips(s: string, rest: string, d: nat, e: nat)
    requires Balanced(s, d, e)
    ensures CloseAt(s + rest, d) == |s| + CloseAt(rest, e)
  {
    if s == "" {
      assert s + rest == rest;
    } else {
      assert (s + rest)[0] == s[0] && (s + rest)[1..] == s[1..] + rest;
      if s[0] == '(' {
        CloseSkips(s[1..], rest, d + 1, e);
      } else if s[0] == ')' {
        CloseSkips(s[1..], rest, d - 1, e);
      } else {
        CloseSkips(s[1..], rest, d, e);
      }
    }
  }

  lemma {:induction false} BalancedJoin(s: string, t: string, d: nat, e: nat, f: nat)
    requires Balanced(s, d, e) && Balanced(t, e, f)
    ensures Balanced(s + t, d, f)
  {
    if s == "" {
      assert s + t == t;
    } else {
      assert (s + t)[0] == s[0] && (s + t)[1..] == s[1..] + t;
      BalancedJoin(s[1..], t, if s[0] == '(' then d + 1 else if s[0] == ')' then d - 1 else d, e, f);
    }
  }

  lemma {:induction false} LinesAreBalanced(ds: seq<Declaration>)
    requires AllWellFormed(ds)
    ensures Balanced(PrintLines(ds), 1, 1) && Balanced("\n" + PrintLines(ds), 1, 1)
  {
    hide IsLine, Print, AllSpace, IsIdentifier;
    assert Balanced("\n", 1, 1) by {
      assert "\n"[1..] == "";
    }
    if ds != [] {
      LinesAreBalanced(ds[1..]);
      assert WellFormed(ds[0]);
      BalancedJoin(Print(ds[0]), "\n", 1, 1, 1);
      BalancedJoin(Print(ds[0]) + "\n", PrintLines(ds[1..]), 1, 1, 1);
    }
    BalancedJoin("\n", PrintLines(ds), 1, 1, 1);
  }

  function Printed(ds: seq<Declaration>): seq<string> {
    if ds == [] then [] else [Print(ds[0])] + Printed(ds[1..])
  }

  lemma {:induction false} LinesSplit(ds: seq<Declaration>)
    requires AllWellFormed(ds)
    ensures SplitLines(PrintLines(ds)) == Printed(ds)
  {
    hide IsLine, Print, AllSpace, IsIdentifier, Balanced;
    if ds != [] {
      assert WellFormed(ds[0]);
      LinesSplit(ds[1..]);
      SplitLineOff(Print(ds[0]), "\n", PrintLines(ds[1..]));
    }
  }

  lemma {:induction false} NamesOfLines(before: seq<string>, ds: seq<Declaration>)
    requires AllWellFormed(ds)
    ensures Names(before + Printed(ds)) == Names(before) + KeptNames(ds)
    decreases |ds|
  {
    hide LineName, Print, WellFormed, ReadsAsColumn, Names;
    if ds == [] {
      assert before + Printed(ds) == before;
    } else {
      var first := before + [Print(ds[0])];
      var name := if ReadsAsColumn(ds[0]) then [ds[0].word] else [];
      assert Names(first) == Names(before) + name by {
        NamesOneMore(before, Print(ds[0]));
        DeclarationName(ds[0]);
      }
      assert before + Printed(ds) == first + Printed(ds[1..]);
      NamesOfLines(first, ds[1..]);
      var kept := KeptNames(ds[1..]);
      assert Names(before) + (name + kept) == Names(before) + name + kept;
    }
  }

  lemma NamesOneMore(before: seq<string>, line: string)
    ensures Names(before + [line]) == Names(before) + (match LineName(line) case Some(n) => [n] case None => [])
  {
    var s := before + [line];
    assert s[..|s| - 1] == before && s[|s| - 1] == line;
  }

  lemma {:induction false} RightLinesKeepAll(ds: seq<Declaration>)
    ensures (forall i :: 0 <= i < |ds| ==> ReadsRight(ds[i])) ==> KeptNames(ds) == ColumnNames(ds)
  {
    hide ReadsAsColumn;
    if ds != [] {
      RightLinesKeepAll(ds[1..]);
      assert forall i :: 0 <= i < |ds[1..]| ==> ds[1..][i] == ds[i + 1];
    }
  }

  lemma {:induction false} WordIsKept(ds: seq<Declaration>, i: nat)
    requires i < |ds| && ReadsAsColumn(ds[i])
    ensures ds[i].word in KeptNames(ds)
  {
    hide ReadsAsColumn;
    if i > 0 {
      WordIsKept(ds[1..], i - 1);
    }
  }

  lemma {:induction false} NotAmongColumns(ds: seq<Declaration>, word: string)
    requires forall j :: 0 <= j < |ds| && ds[j].isColumn ==> ds[j].word != word
    ensures word !in ColumnNames(ds)
  {
    if ds != [] {
      assert forall j :: 0 <= j < |ds[1..]| ==> ds[1..][j] == ds[j + 1];
      NotAmongColumns(ds[1..], word);
    }
  }

  /** A constraint that reads as a column adds a word that no column has; a column that does not
      makes the list too short. */
  lemma KeptAllReadRight(ds: seq<Declaration>)
    requires NamesApart(ds) && KeptNames(ds) == ColumnNames(ds)
    ensures forall i :: 0 <= i < |ds| ==> ReadsRight(ds[i])
  {
    hide ReadsAsColumn, KeptNames, ColumnNames;
    forall i | 0 <= i < |ds|
      ensures !ds[i].isColumn ==> !ReadsAsColumn(ds[i])
    {
      if !ds[i].isColumn && ReadsAsColumn(ds[i]) {
        WordIsKept(ds, i);
        NotAmongColumns(ds, ds[i].word);
        assert false;
      }
    }
    KeptIsShort(ds);
  }

  lemma {:induction false} KeptIsShort(ds: seq<Declaration>)
    requires forall i :: 0 <= i < |ds| ==> ReadsAsColumn(ds[i]) ==> ds[i].isColumn
    ensures |KeptNames(ds)| <= |ColumnNames(ds)|
    ensures |KeptNames(ds)| == |ColumnNames(ds)| ==> forall i :: 0 <= i < |ds| ==> ReadsRight(ds[i])
  {
    hide ReadsAsColumn;
    if ds != [] {
      assert forall i :: 0 <= i < |ds[1..]| ==> ds[1..][i] == ds[i + 1];
      KeptIsShort(ds[1..]);
      if |KeptNames(ds)| == |ColumnNames(ds)| {
        forall i | 0 <= i < |ds|
          ensures ReadsRight(ds[i])
        {
          assert i > 0 ==> ds[i] == ds[1..][i - 1];
        }
      }
    }
  }

  // -------------------------------------------------------------------------
  // One declaration
  // -------------------------------------------------------------------------

  lemma {:induction false} StripIndent(indent: string, s: string)
    requires AllSpace(indent)
    ensures Strip(indent + s) == Strip(s)
  {
    if indent == "" {
      assert indent + s == s;
    } else {
      assert (indent + s)[0] == indent[0] && (indent + s)[1..] == indent[1..] + s;
      StripIndent(indent[1..], s);
    }
  }

  /** Stripping text that starts with a word only shortens its tail. */
  lemma {:induction false} StripTail(word: string, tail: string) returns (m: nat)
    requires word != "" && !IsSpace(word[0]) && !IsSpace(word[|word| - 1])
    ensures |word| <= m <= |word + tail| && Strip(word + tail) == (word + tail)[..m]
    ensures forall i :: m <= i < |word + tail| ==> IsSpace((word + tail)[i])
    decreases |tail|
  {
    var t := word + tail;
    if tail != "" && IsSpace(tail[|tail| - 1]) {
      var shorter := tail[..|tail| - 1];
      assert t[..|t| - 1] == word + shorter;
      m := StripTail(word, shorter);
      assert (word + shorter)[..m] == t[..m];
    } else {
      m := |t|;
      assert t[..m] == t;
      assert tail == "" ==> t == word;
    }
  }

  lemma {:induction false} FirstWordOf(word: string, tail: string)
    requires forall i :: 0 <= i < |word| ==> !IsSpace(word[i])
    ensures FirstWord(word + tail) == word + FirstWord(tail)
  {
    var t := word + tail;
    if word == "" {
      assert t == tail;
    } else {
      assert t[0] == word[0] && t[1..] == word[1..] + tail;
      FirstWordOf(word[1..], tail);
    }
  }

  lemma {:induction false} QuotesGo(open: string, word: string, close: string)
    requires AllQuotes(open) && AllQuotes(close)
    requires word != "" && !IsQuote(word[0]) && !IsQuote(word[|word| - 1])
    ensures StripQuotes(open + word + close) == word
    decreases |open| + |close|
  {
    var s := open + word + close;
    if open != "" {
      assert s[1..] == open[1..] + word + close;
      QuotesGo(open[1..], word, close);
    } else if close != "" {
      assert s[0] == word[0] && s[|s| - 1] == close[|close| - 1];
      assert s[..|s| - 1] == open + word + close[..|close| - 1];
      QuotesGo(open, word, close[..|close| - 1]);
    } else {
      assert s == word;
    }
  }

  /** Stripping quotes takes no other character away. */
  lemma {:induction false} OthersAreKept(s: string, c: char)
    requires c in s && !IsQuote(c)
    ensures c in StripQuotes(s)
  {
    if IsQuote(s[0]) {
      assert s == [s[0]] + s[1..];
      OthersAreKept(s[1..], c);
    } else if IsQuote(s[|s| - 1]) {
      assert s == s[..|s| - 1] + [s[|s| - 1]];
      OthersAreKept(s[..|s| - 1], c);
    }
  }

  /** Quotes and word characters are no blanks, and no word character is a quote. */
  lemma CoreIsSolid(open: string, word: string, close: string)
    requires AllQuotes(open) && IsIdentifier(word) && AllQuotes(close)
    ensures var core := open + word + close;
            core != "" && forall i :: 0 <= i < |core| ==> !IsSpace(core[i])
    ensures !IsQuote(word[0]) && !IsQuote(word[|word| - 1])
  {
    var core := open + word + close;
    assert IsWordChar(word[0]) && IsWordChar(word[|word| - 1]);
    forall i | 0 <= i < |core|
      ensures !IsSpace(core[i])
    {
      assert IsQuote(core[i]) || IsWordChar(core[i]) by {
        if i < |open| {
          assert core[i] == open[i];
        } else if i < |open + word| {
          assert core[i] == word[i - |open|];
        } else {
          assert core[i] == close[i - |open + word|];
        }
      }
    }
  }

  lemma DeclarationName(d: Declaration)
    requires WellFormed(d)
    ensures LineName(Print(d)) == if ReadsAsColumn(d) then Some(d.word) else None
  {
    hide IsLine, Balanced, Strip, FirstWord, StripQuotes, StartsWith;
    var core := d.open + d.word + d.close;
    CoreIsSolid(d.open, d.word, d.close);
    assert Print(d) == d.indent + (core + d.rest);
    StripIndent(d.indent, core + d.rest);
    var m := StripTail(core, d.rest);
    var kept := d.rest[..m - |core|];
    assert (core + d.rest)[..m] == core + kept;
    assert forall i :: 0 <= i < |d.rest| ==> d.rest[i] == (core + d.rest)[|core| + i];
    WordOfToken(d, core, kept);
    UniqueIff(d, core, kept);
    PrimaryKeyIff(d, core, kept);
  }

  /** What is left of the rest when its trailing blanks are gone. */
  predicate IsTrimmedRest(rest: string, kept: string) {
    |kept| <= |rest| && kept == rest[..|kept|] && forall i :: |kept| <= i < |rest| ==> IsSpace(rest[i])
  }

  /** The name the parser makes of a token that is no constraint. */
  lemma WordOfToken(d: Declaration, core: string, kept: string)
    requires WellFormed(d) && core == d.open + d.word + d.close && IsTrimmedRest(d.rest, kept)
    ensures var name := StripQuotes(FirstWord(core + kept));
            if d.rest == "" || IsSpace(d.rest[0]) then name == d.word else !IsIdentifier(name)
  {
    hide IsLine, Balanced, StripQuotes, Print;
    CoreIsSolid(d.open, d.word, d.close);
    FirstWordOf(core, kept);
    if d.rest == "" || IsSpace(d.rest[0]) {
      assert kept == "" || kept[0] == d.rest[0];
      assert core + FirstWord(kept) == core;
      QuotesGo(d.open, d.word, d.close);
    } else {
      var c := d.rest[0];
      assert kept != "" && kept[0] == c && FirstWord(kept)[0] == c;
      var first := core + FirstWord(kept);
      assert first[|core|] == c;
      OthersAreKept(first, c);
    }
  }

  /** A prefix made of word characters lies within the word. */
  lemma PrefixInWord(word: string, tail: string, prefix: string)
    requires tail == "" || !IsWordChar(tail[0])
    requires forall i :: 0 <= i < |prefix| ==> IsWordChar(prefix[i])
    ensures StartsWith(word + tail, prefix) <==> StartsWith(word, prefix)
  {
    var t := word + tail;
    if |word| >= |prefix| {
      assert t[..|prefix|] == word[..|prefix|];
    } else if |t| >= |prefix| {
      assert t[..|prefix|][|word|] == tail[0];
      assert IsWordChar(prefix[|word|]);
    }
  }

  lemma UniqueIff(d: Declaration, core: string, kept: string)
    requires WellFormed(d) && core == d.open + d.word + d.close && IsTrimmedRest(d.rest, kept)
    ensures StartsWith(core + kept, "UNIQUE") <==> d.open == "" && StartsWith(d.word, "UNIQUE")
  {
    hide IsLine, Balanced, Print;
    if d.open == "" {
      var tail := d.close + kept;
      assert core + kept == d.word + tail;
      TailIsNoWord(d, kept);
      PrefixInWord(d.word, tail, "UNIQUE");
    } else {
      QuotedIsNoPrefix(d, core + kept, "UNIQUE");
    }
  }

  lemma TailIsNoWord(d: Declaration, kept: string)
    requires WellFormed(d) && IsTrimmedRest(d.rest, kept)
    ensures d.close + kept == "" || !IsWordChar((d.close + kept)[0])
  {
    hide IsLine, Balanced, Print;
    if d.close != "" {
      assert IsQuote(d.close[0]) && (d.close + kept)[0] == d.close[0];
    } else {
      assert d.close + kept == kept;
    }
  }

  lemma QuotedIsNoPrefix(d: Declaration, token: string, prefix: string)
    requires WellFormed(d) && d.open != "" && token != "" && token[0] == d.open[0]
    requires prefix != "" && !IsQuote(prefix[0])
    ensures !StartsWith(token, prefix)
  {
    hide IsLine, Balanced, Print;
    assert IsQuote(d.open[0]);
    if |prefix| <= |token| {
      assert token[..|prefix|][0] == token[0];
    }
  }

  lemma PrimaryKeyIff(d: Declaration, core: string, kept: string)
    requires WellFormed(d) && core == d.open + d.word + d.close && IsTrimmedRest(d.rest, kept)
    ensures StartsWith(core + kept, "PRIMARY KEY") <==>
            d.open == "" && d.close == "" && d.word == "PRIMARY" && StartsWith(d.rest, " KEY")
  {
    hide IsLine, Balanced, Print;
    if d.open == "" {
      var tail := d.close + kept;
      assert core + kept == d.word + tail;
      TailIsNoWord(d, kept);
      TwoWordPrefix(d.word, tail);
      if d.close != "" {
        assert IsQuote(d.close[0]) && tail[0] == d.close[0];
        assert |tail| >= 4 ==> tail[..4][0] == tail[0];
      } else {
        assert tail == kept;
        KeyOfRest(d.rest, kept);
      }
    } else {
      QuotedIsNoPrefix(d, core + kept, "PRIMARY KEY");
    }
  }

  lemma TwoWordPrefix(word: string, tail: string)
    requires IsIdentifier(word) && (tail == "" || !IsWordChar(tail[0]))
    ensures StartsWith(word + tail, "PRIMARY KEY") <==> word == "PRIMARY" && StartsWith(tail, " KEY")
  {
    var t, key := word + tail, "PRIMARY" + " KEY";
    assert key == "PRIMARY KEY";
    if |t| >= 11 {
      var u := t[..11];
      if |word| > 7 {
        assert u[7] == word[7] && key[7] == ' ' && IsWordChar(word[7]);
      } else if |word| < 7 {
        assert u[|word|] == tail[0] && IsWordChar(key[|word|]);
      } else {
        assert u == word + tail[..4];
        JoinsAgree(word, tail[..4], "PRIMARY", " KEY");
      }
    }
  }

  lemma JoinsAgree(a: string, b: string, c: string, d: string)
    requires |a| == |c|
    ensures a + b == c + d <==> a == c && b == d
  {
    if a + b == c + d {
      assert a == (a + b)[..|a|] && c == (c + d)[..|c|];
      assert b == (a + b)[|a|..] && d == (c + d)[|c|..];
    }
  }

  lemma KeyOfRest(rest: string, kept: string)
    requires IsTrimmedRest(rest, kept)
    ensures StartsWith(kept, " KEY") <==> StartsWith(rest, " KEY")
  {
    if |rest| >= 4 {
      if |kept| >= 4 {
        assert kept[..4] == rest[..4];
      } else {
        assert rest[..4][3] == rest[3] && IsSpace(rest[3]) && !IsSpace(" KEY"[3]);
      }
    }
  }
}
