/** Python string operations on Latin-1 text: case, trimming, searching and splitting. */
module Text {
  predicate StartsWith(s: string, p: string) {
    |p| <= |s| && s[..|p|] == p
  }

  predicate Contains(s: string, p: string) {
    StartsWith(s, p) || (s != "" && Contains(s[1..], p))
  }

  function LowerAscii(s: string): string {
    if s == "" then ""
    else [if 'A' <= s[0] <= 'Z' then s[0] - 'A' + 'a' else s[0]] + LowerAscii(s[1..])
  }

  function UpperAscii(s: string): string {
    if s == "" then ""
    else [if 'a' <= s[0] <= 'z' then s[0] - 'a' + 'A' else s[0]] + UpperAscii(s[1..])
  }

  predicate IsSpace(c: char) {
    c == ' ' || '\t' <= c <= '\r' || (0x1c as char) <= c <= (0x1f as char)
    || c == (0x85 as char) || c == (0xa0 as char)
  }

  function Strip(s: string): string {
    if s == "" then ""
    else if IsSpace(s[0]) then Strip(s[1..])
    else if IsSpace(s[|s| - 1]) then Strip(s[..|s| - 1])
    else s
  }

  /** No blank at either end. */
  predicate IsTrimmed(s: string) {
    s == "" || (!IsSpace(s[0]) && !IsSpace(s[|s| - 1]))
  }

  lemma TrimmedIsStripped(s: string)
    ensures IsTrimmed(s) ==> Strip(s) == s
  {
  }

  // -------------------------------------------------------------------------
  // What these operations mean, position by position
  // -------------------------------------------------------------------------

  /** `p` stands in `s` at position `i`. */
  predicate StandsAt(p: string, s: string, i: nat) {
    i + |p| <= |s| && forall k :: 0 <= k < |p| ==> s[i + k] == p[k]
  }

  /** The same letter, in either case of the ASCII alphabet, or the same character. */
  predicate SameLetter(c: char, d: char) {
    || c == d
    || ('A' <= c <= 'Z' && d as int == c as int + 32)
    || ('A' <= d <= 'Z' && c as int == d as int + 32)
  }

  predicate SameText(a: string, b: string) {
    |a| == |b| && forall k :: 0 <= k < |a| ==> SameLetter(a[k], b[k])
  }

  /** `p` stands in `s` at position `i`, in whatever case. */
  predicate StandsInAnyCase(p: string, s: string, i: nat) {
    i + |p| <= |s| && forall k :: 0 <= k < |p| ==> SameLetter(s[i + k], p[k])
  }

  lemma StandsStep(p: string, s: string)
    requires p != "" && s != ""
    ensures StandsInAnyCase(p, s, 0) <==> SameLetter(s[0], p[0]) && StandsInAnyCase(p[1..], s[1..], 0)
  {
    if SameLetter(s[0], p[0]) && StandsInAnyCase(p[1..], s[1..], 0) {
      forall k | 0 <= k < |p|
        ensures SameLetter(s[0 + k], p[k])
      {
        if k > 0 {
          assert SameLetter(s[1..][0 + (k - 1)], p[1..][k - 1]);
        }
      }
    }
    if StandsInAnyCase(p, s, 0) {
      forall k | 0 <= k < |p[1..]|
        ensures SameLetter(s[1..][0 + k], p[1..][k])
      {
        assert SameLetter(s[0 + (k + 1)], p[k + 1]);
      }
    }
  }

  lemma StartsWithIff(s: string, p: string)
    ensures StartsWith(s, p) <==> StandsAt(p, s, 0)
  {
    if StartsWith(s, p) {
      assert forall k :: 0 <= k < |p| ==> s[k] == s[..|p|][k];
    }
  }

  lemma {:induction false} ContainsIff(s: string, p: string)
    ensures Contains(s, p) <==> exists i: nat :: StandsAt(p, s, i)
  {
    StartsWithIff(s, p);
    hide StartsWith;
    if s != "" {
      ContainsIff(s[1..], p);
      if i: nat :| StandsAt(p, s[1..], i) {
        assert StandsAt(p, s, i + 1);
      }
      if i: nat :| i > 0 && StandsAt(p, s, i) {
        assert StandsAt(p, s[1..], i - 1);
      }
    }
  }

  lemma {:induction false} LowerAsciiAt(s: string)
    ensures |LowerAscii(s)| == |s|
    ensures forall i :: 0 <= i < |s| ==>
              LowerAscii(s)[i] == if 'A' <= s[i] <= 'Z' then (s[i] as int + 32) as char else s[i]
  {
    if s != "" {
      LowerAsciiAt(s[1..]);
    }
  }

  lemma {:induction false} UpperAsciiAt(s: string)
    ensures |UpperAscii(s)| == |s|
    ensures forall i :: 0 <= i < |s| ==>
              UpperAscii(s)[i] == if 'a' <= s[i] <= 'z' then (s[i] as int - 32) as char else s[i]
  {
    if s != "" {
      UpperAsciiAt(s[1..]);
    }
  }

  /** Folding to one case identifies exactly the texts that differ in case at most. */
  lemma CaseFoldingIff(a: string, b: string)
    ensures LowerAscii(a) == LowerAscii(b) <==> SameText(a, b)
    ensures UpperAscii(a) == UpperAscii(b) <==> SameText(a, b)
  {
    LowerAsciiAt(a);
    LowerAsciiAt(b);
    UpperAsciiAt(a);
    UpperAsciiAt(b);
    hide LowerAscii, UpperAscii;
    assert LowerAscii(a) == LowerAscii(b) ==> forall k :: 0 <= k < |a| ==> LowerAscii(a)[k] == LowerAscii(b)[k];
    assert UpperAscii(a) == UpperAscii(b) ==> forall k :: 0 <= k < |a| ==> UpperAscii(a)[k] == UpperAscii(b)[k];
  }

  lemma FoldedStands(p: string, s: string, i: nat)
    requires LowerAscii(p) == p
    ensures StandsAt(p, LowerAscii(s), i) <==> StandsInAnyCase(p, s, i)
  {
    LowerAsciiAt(s);
    LowerAsciiAt(p);
    hide LowerAscii;
    if i + |p| <= |s| {
      forall k | 0 <= k < |p|
        ensures LowerAscii(s)[i + k] == p[k] <==> SameLetter(s[i + k], p[k])
      {
        assert LowerAscii(p)[k] == p[k];
      }
    }
  }

  /** Searching folded text for a folded pattern finds it in any case. */
  lemma ContainsInAnyCaseIff(s: string, p: string)
    requires LowerAscii(p) == p
    ensures Contains(LowerAscii(s), p) <==> exists i: nat :: StandsInAnyCase(p, s, i)
  {
    hide StandsInAnyCase, StandsAt, LowerAscii, Contains;
    ContainsIff(LowerAscii(s), p);
    forall i: nat
      ensures StandsAt(p, LowerAscii(s), i) <==> StandsInAnyCase(p, s, i)
    {
      FoldedStands(p, s, i);
    }
  }

  /** A text without capitals is its own lower case. */
  lemma LowerIsItself(s: string)
    requires forall i :: 0 <= i < |s| ==> !('A' <= s[i] <= 'Z')
    ensures LowerAscii(s) == s
  {
    LowerAsciiAt(s);
    hide LowerAscii;
  }

  /** Stripping takes blanks off both ends, all of them and nothing else. */
  lemma {:induction false} StripTakesTheBlanks(s: string) returns (left: string, right: string)
    ensures s == left + Strip(s) + right && IsTrimmed(Strip(s))
    ensures (forall c :: c in left + right ==> IsSpace(c))
  {
    if s == "" || (!IsSpace(s[0]) && !IsSpace(s[|s| - 1])) {
      left, right := "", "";
    } else if IsSpace(s[0]) {
      var l, r := StripTakesTheBlanks(s[1..]);
      left, right := [s[0]] + l, r;
    } else {
      var l, r := StripTakesTheBlanks(s[..|s| - 1]);
      left, right := l, r + [s[|s| - 1]];
    }
  }

  /** The characters `str.splitlines` breaks at; CR LF counts as one break. */
  predicate IsBreak(c: char) {
    '\n' <= c <= '\r' || (0x1c as char) <= c <= (0x1e as char) || c == (0x85 as char)
  }

  predicate IsLine(s: string) {
    forall i :: 0 <= i < |s| ==> !IsBreak(s[i])
  }

  function LineEnd(s: string): (n: nat)
    ensures n <= |s| && IsLine(s[..n]) && (n < |s| ==> IsBreak(s[n]))
  {
    if s == "" || IsBreak(s[0]) then 0
    else
      var n := LineEnd(s[1..]);
      assert s[..n + 1] == [s[0]] + s[1..][..n];
      n + 1
  }

  function SplitLines(s: string): seq<string> {
    if s == "" then []
    else
      var n := LineEnd(s);
      if n == |s| then [s]
      else
        var next := if s[n] == '\r' && n + 1 < |s| && s[n + 1] == '\n' then n + 2 else n + 1;
        [s[..n]] + SplitLines(s[next..])
  }

  lemma {:induction false} LineEndOfLine(line: string, c: char, rest: string)
    requires IsLine(line) && IsBreak(c)
    ensures LineEnd(line + [c] + rest) == |line|
  {
    var s := line + [c] + rest;
    if line != "" {
      assert s[0] == line[0] && s[1..] == line[1..] + [c] + rest;
      assert forall i :: 0 <= i < |line[1..]| ==> line[1..][i] == line[i + 1];
      LineEndOfLine(line[1..], c, rest);
    }
  }

  /** A line and its terminator split off as one line. */
  lemma SplitLineOff(line: string, eol: string, rest: string)
    requires IsLine(line) && (eol == "\r\n" || eol == "\n")
    ensures SplitLines(line + eol + rest) == [line] + SplitLines(rest)
  {
    var s := line + eol + rest;
    assert s == line + [eol[0]] + (eol[1..] + rest);
    LineEndOfLine(line, eol[0], eol[1..] + rest);
    assert s[..|line|] == line;
    if eol == "\n" {
      assert s[|line| + 1..] == rest;
    } else {
      assert s[|line| + 1] == '\n' && s[|line| + 2..] == rest;
    }
  }
}
