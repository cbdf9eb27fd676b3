/** Credentials offered over several frames: the FTP and POP3 extractors
    (manyfaced/client/cred_extractors.py) and the loop that accumulates frames for them
    (`_capture_credentials`, manyfaced/client/client.py). */
module Credentials {
  import opened Wrappers
  import opened Text

  const MAX_FRAMES: nat := 16
  const MAX_BUFFER: nat := 8192

  // -------------------------------------------------------------------------
  // The extractor
  // -------------------------------------------------------------------------

  /** `str.upper` on Latin-1: sharp s becomes two letters, two letters leave Latin-1. */
  function UpperLatin1(c: char): string {
    if 'a' <= c <= 'z' then [c - 'a' + 'A']
    else if c == (0xdf as char) then "SS"
    else if c == (0xff as char) then [(0x178 as char)]
    else if c == (0xb5 as char) then [(0x39c as char)]
    else if (0xe0 as char) <= c <= (0xfe as char) && c != (0xf7 as char) then [((c as int - 0x20) as char)]
    else [c]
  }

  function Upper(s: string): string {
    if s == "" then "" else UpperLatin1(s[0]) + Upper(s[1..])
  }

  datatype Kind = UserIs(name: string) | PassIs(password: string) | Other

  function Argument(line: string): string {
    if |line| <= 5 then "" else Strip(line[5..])
  }

  /** What one line of the conversation says. */
  function KindOf(line: string): Kind {
    var ll := Strip(line);
    if StartsWith(Upper(ll), "USER ") then UserIs(Argument(ll))
    else if StartsWith(Upper(ll), "PASS ") then PassIs(Argument(ll))
    else Other
  }

  /** The last USER and the last PASS argument. */
  datatype Offer = Offer(user: Option<string>, password: Option<string>)

  function Heard(offer: Offer, line: string): Offer {
    match KindOf(line)
    case UserIs(name) => offer.(user := Some(name))
    case PassIs(password) => offer.(password := Some(password))
    case Other => offer
  }

  /** After the first n lines. */
  function OfferOf(lines: seq<string>, n: nat): Offer
    requires n <= |lines|
  {
    if n == 0 then Offer(None, None) else Heard(OfferOf(lines, n - 1), lines[n - 1])
  }

  function OrEmpty(s: Option<string>): string {
    if s == None then "" else s.value
  }

  function Formatted(offer: Offer): Option<string> {
    if OrEmpty(offer.user) != "" || OrEmpty(offer.password) != ""
    then Some(OrEmpty(offer.user) + ":" + OrEmpty(offer.password))
    else None
  }

  function Extracted(raw: string): Option<string> {
    Formatted(OfferOf(SplitLines(raw), |SplitLines(raw)|))
  }

  method ExtractCredentials(raw: string) returns (creds: Option<string>)
    ensures creds == Extracted(raw)
  {
    var user: Option<string>, pw: Option<string> := None, None;
    var lines := SplitLines(raw);
    for i := 0 to |lines|
      invariant Offer(user, pw) == OfferOf(lines, i)
    {
      var ll := Strip(lines[i]);
      if StartsWith(Upper(ll), "USER ") {
        user := Some(Argument(ll));
      } else if StartsWith(Upper(ll), "PASS ") {
        pw := Some(Argument(ll));
      }
    }
    creds := Formatted(Offer(user, pw));
  }

  // -------------------------------------------------------------------------
  // Accumulating frames
  // -------------------------------------------------------------------------

  function FirstColon(s: string): (n: nat)
    ensures n <= |s| && (n < |s| ==> s[n] == ':') && (forall i :: 0 <= i < n ==> s[i] != ':')
  {
    if s == "" || s[0] == ':' then 0
    else
      assert forall i :: 0 <= i < |s[1..]| ==> s[1..][i] == s[i + 1];
      1 + FirstColon(s[1..])
  }

  /** Both halves around the first colon are there. */
  predicate Complete(creds: Option<string>) {
    creds != None && 0 < FirstColon(creds.value) < |creds.value| - 1
  }

  function Offered(buf: string): Option<string> {
    if buf == "" then None else Extracted(buf)
  }

  /** The result for a buffer and the frames still to come; an empty frame ends the exchange. */
  function Collect(buf: string, frames: seq<string>, rounds: nat): Option<string>
    decreases rounds
  {
    if rounds == 0 || Complete(Offered(buf)) || frames == [] || frames[0] == "" then Offered(buf)
    else if |buf + frames[0]| > MAX_BUFFER then Offered(buf)
    else Collect(buf + frames[0], frames[1..], rounds - 1)
  }

  /** What the extraction yields, unless it is empty or nothing; then whatever is found as plain
      text in what the client sends next. */
  function Captured(seed: string, frames: seq<string>, fallback: Option<string>): Option<string> {
    var creds := Collect(seed, frames, MAX_FRAMES);
    if creds != None && creds.value != "" then creds else fallback
  }

  /** `fallback` is the outcome of the plain-text capture. */
  method CaptureCredentials(seed: string, frames: seq<string>, fallback: Option<string>) returns (creds: Option<string>)
    ensures creds == Captured(seed, frames, fallback)
  {
    creds := AccumulateFrames(seed, frames);
    if creds == None || creds.value == "" {
      creds := fallback;
    }
  }

  method AccumulateFrames(seed: string, frames: seq<string>) returns (creds: Option<string>)
    ensures creds == Collect(seed, frames, MAX_FRAMES)
  {
    hide Extracted, Complete;
    var buf := seed;
    creds := None;
    if buf != "" {
      creds := ExtractCredentials(buf);
    }
    var i := 0;
    while i < MAX_FRAMES
      invariant i <= MAX_FRAMES && i <= |frames|
      invariant creds == Offered(buf)
      invariant Collect(seed, frames, MAX_FRAMES) == Collect(buf, frames[i..], MAX_FRAMES - i)
    {
      if Complete(creds) {
        return;
      }
      var chunk := if i < |frames| then frames[i] else "";
      if chunk == "" {
        return;
      }
      if |buf + chunk| > MAX_BUFFER {
        return;
      }
      buf := buf + chunk;
      creds := ExtractCredentials(buf);
      i := i + 1;
    }
  }

  // -------------------------------------------------------------------------
  // Whole lines in, the pair out
  // -------------------------------------------------------------------------

  /** The bytes of a sequence of lines, each with its terminator. */
  function Sent(lines: seq<string>, eol: string): string {
    if lines == [] then "" else lines[0] + eol + Sent(lines[1..], eol)
  }

  predicate IsEol(eol: string) {
    eol == "\r\n" || eol == "\n"
  }

  predicate AreLines(lines: seq<string>) {
    forall i :: 0 <= i < |lines| ==> IsLine(lines[i])
  }

  lemma {:induction false} SplitUndoesSent(lines: seq<string>, eol: string)
    requires AreLines(lines) && IsEol(eol)
    ensures SplitLines(Sent(lines, eol)) == lines
  {
    if lines != [] {
      SplitUndoesSent(lines[1..], eol);
      SplitLineOff(lines[0], eol, Sent(lines[1..], eol));
    }
  }

  lemma {:induction false} SentConcat(a: seq<string>, b: seq<string>, eol: string)
    ensures Sent(a + b, eol) == Sent(a, eol) + Sent(b, eol)
  {
    if a == [] {
      assert a + b == b;
    } else {
      assert (a + b)[1..] == a[1..] + b;
      SentConcat(a[1..], b, eol);
    }
  }

  /** One USER line, one PASS line, and nothing else that counts. */
  predicate IsDialogue(lines: seq<string>, i: nat, j: nat, u: string, p: string) {
    && AreLines(lines) && i < |lines| && j < |lines| && i != j
    && KindOf(lines[i]) == UserIs(u) && KindOf(lines[j]) == PassIs(p)
    && forall k :: 0 <= k < |lines| && k != i && k != j ==> KindOf(lines[k]) == Other
  }

  lemma {:induction false} OfferOfPrefix(lines: seq<string>, i: nat, j: nat, u: string, p: string, n: nat)
    requires IsDialogue(lines, i, j, u, p) && n <= |lines|
    ensures OfferOf(lines, n) == Offer(if i < n then Some(u) else None, if j < n then Some(p) else None)
  {
    hide IsDialogue, Heard, KindOf;
    if n > 0 {
      OfferOfPrefix(lines, i, j, u, p, n - 1);
      HeardInDialogue(lines, i, j, u, p, n - 1, OfferOf(lines, n - 1));
    }
  }

  lemma HeardInDialogue(lines: seq<string>, i: nat, j: nat, u: string, p: string, k: nat, offer: Offer)
    requires IsDialogue(lines, i, j, u, p) && k < |lines|
    ensures i != j
    ensures Heard(offer, lines[k]) ==
            if k == i then offer.(user := Some(u)) else if k == j then offer.(password := Some(p)) else offer
  {
    hide KindOf;
  }

  lemma {:induction false} OfferOfSlice(lines: seq<string>, m: nat, n: nat)
    requires m <= n <= |lines|
    ensures OfferOf(lines[..n], m) == OfferOf(lines, m)
  {
    if m > 0 {
      hide Heard;
      OfferOfSlice(lines, m - 1, n);
    }
  }

  /** The frames: how many lines each one carries. */
  function Frames(lines: seq<string>, sizes: seq<nat>, eol: string): seq<string>
    requires Sum(sizes) <= |lines|
  {
    if sizes == [] then []
    else [Sent(lines[..sizes[0]], eol)] + Frames(lines[sizes[0]..], sizes[1..], eol)
  }

  function Sum(sizes: seq<nat>): nat {
    if sizes == [] then 0 else sizes[0] + Sum(sizes[1..])
  }

  /** The user name alone already looks complete: it has text before its first colon. */
  predicate HasEarlyColon(u: string) {
    0 < FirstColon(u) < |u|
  }

  lemma FirstColonOfPair(u: string, p: string)
    ensures FirstColon(u + ":" + p) == FirstColon(u)
  {
    var s := u + ":" + p;
    var n := FirstColon(u);
    assert s[n] == ':';
    assert forall i :: 0 <= i < n ==> s[i] == u[i];
  }

  /** What is on offer after the first n lines, and whether it looks complete. */
  lemma OfferedAfter(lines: seq<string>, i: nat, j: nat, u: string, p: string, n: nat, eol: string)
    requires IsDialogue(lines, i, j, u, p) && n <= |lines| && IsEol(eol) && u != "" && p != ""
    ensures var offered := Offered(Sent(lines[..n], eol));
            var user, password := if i < n then u else "", if j < n then p else "";
            && i < |lines| && j < |lines| && i != j
            && offered == (if i < n || j < n then Some(user + ":" + password) else None)
            && (Complete(offered) <==> i < n && FirstColon(u) > 0 && (j < n || HasEarlyColon(u)))
  {
    hide KindOf, SplitLines, OfferOf;
    SplitUndoesSent(lines[..n], eol);
    OfferOfPrefix(lines, i, j, u, p, n);
    OfferOfSlice(lines, n, n);
    var user, password := if i < n then u else "", if j < n then p else "";
    FirstColonOfPair(user, password);
    if n > 0 {
      assert Sent(lines[..n], eol) != "";
    }
  }

  lemma {:induction false} SentLength(lines: seq<string>, n: nat, eol: string)
    requires n <= |lines| && IsEol(eol)
    ensures |Sent(lines[..n], eol)| <= |Sent(lines, eol)|
  {
    SentConcat(lines[..n], lines[n..], eol);
    assert lines[..n] + lines[n..] == lines;
  }

  /** The loop from any point on: it ends with the pair, whatever split is still to come. */
  lemma {:induction false} CollectsThePair(
    lines: seq<string>, i: nat, j: nat, u: string, p: string, eol: string, n: nat, sizes: seq<nat>, rounds: nat)
    requires IsDialogue(lines, i, j, u, p) && IsEol(eol) && u != "" && p != ""
    requires j < i || !HasEarlyColon(u)
    requires n <= |lines| && n + Sum(sizes) == |lines| && |sizes| <= rounds
    requires forall k :: 0 <= k < |sizes| ==> sizes[k] > 0
    requires |Sent(lines, eol)| <= MAX_BUFFER
    ensures Collect(Sent(lines[..n], eol), Frames(lines[n..], sizes, eol), rounds) == Some(u + ":" + p)
    decreases rounds
  {
    hide Offered, HasEarlyColon, IsDialogue, Sent, FirstColon, Complete, KindOf;
    var buf := Sent(lines[..n], eol);
    OfferedAfter(lines, i, j, u, p, n, eol);
    if sizes != [] && !Complete(Offered(buf)) {
      var m := n + sizes[0];
      NextFrame(lines, n, sizes, eol);
      CollectStep(buf, Frames(lines[n..], sizes, eol), rounds);
      CollectsThePair(lines, i, j, u, p, eol, m, sizes[1..], rounds - 1);
      hide Collect, Frames;
    }
  }

  lemma NextFrame(lines: seq<string>, n: nat, sizes: seq<nat>, eol: string)
    requires n <= |lines| && n + Sum(sizes) == |lines| && sizes != [] && sizes[0] > 0 && IsEol(eol)
    ensures var m, frames := n + sizes[0], Frames(lines[n..], sizes, eol);
            && frames != [] && frames[0] != ""
            && frames[1..] == Frames(lines[m..], sizes[1..], eol)
            && Sent(lines[..n], eol) + frames[0] == Sent(lines[..m], eol)
            && |Sent(lines[..m], eol)| <= |Sent(lines, eol)|
  {
    var m, frames := n + sizes[0], Frames(lines[n..], sizes, eol);
    assert lines[n..][..sizes[0]] == lines[n..m] && lines[n..][sizes[0]..] == lines[m..];
    assert lines[..n] + lines[n..m] == lines[..m];
    SentConcat(lines[..n], lines[n..m], eol);
    SentLength(lines, m, eol);
    SentIsNotEmpty(lines[n..m], eol);
    hide Sent;
    assert frames == [Sent(lines[n..m], eol)] + Frames(lines[m..], sizes[1..], eol);
  }

  lemma CollectStep(buf: string, frames: seq<string>, rounds: nat)
    requires rounds > 0 && !Complete(Offered(buf)) && frames != [] && frames[0] != "" && |buf + frames[0]| <= MAX_BUFFER
    ensures Collect(buf, frames, rounds) == Collect(buf + frames[0], frames[1..], rounds - 1)
  {
    hide Offered, Complete;
  }

  lemma SentIsNotEmpty(lines: seq<string>, eol: string)
    requires lines != [] && IsEol(eol)
    ensures Sent(lines, eol) != ""
  {
  }

  /** A split of the conversation into a seed and at most 16 non-empty frames, at line boundaries. */
  predicate IsSplit(lines: seq<string>, sizes: seq<nat>) {
    && sizes != [] && |sizes| <= 17 && Sum(sizes) == |lines|
    && forall k :: 1 <= k < |sizes| ==> sizes[k] > 0
  }

  /** The capture of one split: the first part is the seed, the others are received. */
  function Run(lines: seq<string>, sizes: seq<nat>, eol: string, fallback: Option<string>): Option<string>
    requires IsSplit(lines, sizes)
  {
    Captured(Sent(lines[..sizes[0]], eol), Frames(lines[sizes[0]..], sizes[1..], eol), fallback)
  }

  ghost predicate EverySplitYields(lines: seq<string>, eol: string, creds: string) {
    forall sizes, fallback :: IsSplit(lines, sizes) ==> Run(lines, sizes, eol, fallback) == Some(creds)
  }

  /** The capture returns exactly "u:p" for every split at line boundaries if and only if
      the password comes first or the user name has no colon behind its first character: otherwise
      the user name alone passes for a complete pair and the password is never read. */
  lemma EverySplitYieldsPairIff(lines: seq<string>, i: nat, j: nat, u: string, p: string, eol: string)
    requires IsDialogue(lines, i, j, u, p) && IsEol(eol) && u != "" && p != ""
    requires |Sent(lines, eol)| <= 8192
    ensures EverySplitYields(lines, eol, u + ":" + p) <==> j < i || !HasEarlyColon(u)
  {
    hide IsDialogue, HasEarlyColon, Collect, Frames, Sent, KindOf, Offered;
    OfferedAfter(lines, i, j, u, p, 0, eol);
    if j < i || !HasEarlyColon(u) {
      forall sizes, fallback | IsSplit(lines, sizes)
        ensures Run(lines, sizes, eol, fallback) == Some(u + ":" + p)
      {
        assert forall k :: 0 <= k < |sizes[1..]| ==> sizes[1..][k] == sizes[k + 1];
        CollectsThePair(lines, i, j, u, p, eol, sizes[0], sizes[1..], MAX_FRAMES);
      }
    } else {
      SplitBeforePassword(lines, i, j, u, p, eol);
    }
  }

  lemma SplitBeforePassword(lines: seq<string>, i: nat, j: nat, u: string, p: string, eol: string)
    requires IsDialogue(lines, i, j, u, p) && IsEol(eol) && u != "" && p != ""
    requires i < j && HasEarlyColon(u)
    ensures !EverySplitYields(lines, eol, u + ":" + p)
  {
    hide KindOf, Offered, Frames, Sent, IsDialogue;
    OfferedAfter(lines, i, j, u, p, 0, eol);
    OfferedAfter(lines, i, j, u, p, i + 1, eol);
    var sizes: seq<nat> := [i + 1, |lines| - i - 1];
    assert sizes[1..] == [|lines| - i - 1] && sizes[1..][1..] == [];
    assert Sum(sizes[1..]) == |lines| - i - 1;
    assert Sum(sizes) == |lines|;
    assert IsSplit(lines, sizes);
    hide HasEarlyColon;
    assert Run(lines, sizes, eol, None) == Some(u + ":" + "");
    assert |u + ":" + ""| != |u + ":" + p|;
  }

  /** Only the first sixteen frames count, and a frame that would take the text past 8192 characters
      ends the exchange. */
  lemma CaptureIsBounded(seed: string, frames: seq<string>, fallback: Option<string>)
    ensures |frames| > 16 ==> Captured(seed, frames, fallback) == Captured(seed, frames[..16], fallback)
    ensures frames != [] && |seed + frames[0]| > 8192 ==>
              Captured(seed, frames, fallback) == Captured(seed, [], fallback)
  {
    hide Offered, Complete;
    if |frames| > 16 {
      CollectIsBounded(seed, frames, 16);
    }
  }

  lemma {:induction false} CollectIsBounded(buf: string, frames: seq<string>, rounds: nat)
    requires rounds <= |frames|
    ensures Collect(buf, frames, rounds) == Collect(buf, frames[..rounds], rounds)
    decreases rounds
  {
    hide Offered, Complete;
    if rounds > 0 && frames[0] != "" && |buf + frames[0]| <= MAX_BUFFER {
      assert frames[..rounds][0] == frames[0] && frames[..rounds][1..] == frames[1..][..rounds - 1];
      CollectIsBounded(buf + frames[0], frames[1..], rounds - 1);
    }
  }

  // -------------------------------------------------------------------------
  // Which lines are heard
  // -------------------------------------------------------------------------

  predicate BeginsInAnyCase(s: string, verb: string) {
    |verb| <= |s| && SameText(s[..|verb|], verb)
  }

  const SHARP_S: char := 0xdf as char

  /** `pa`, a sharp s and a blank: upper-cased they are PASS and a blank, but one character shorter. */
  predicate IsSharpPass(s: string) {
    |s| >= 4 && SameText(s[..2], "PA") && s[2] == SHARP_S && s[3] == ' '
  }

  lemma UpperStep(s: string, c: char, p: string)
    requires 'A' <= c <= 'Z' || c == ' '
    ensures StartsWith(Upper(s), [c] + p) <==>
            s != "" && ((SameLetter(s[0], c) && StartsWith(Upper(s[1..]), p))
                        || (s[0] == SHARP_S && c == 'S' && StartsWith("S" + Upper(s[1..]), p)))
  {
    if s != "" {
      var u, rest := UpperLatin1(s[0]), Upper(s[1..]);
      assert u[0] == c <==> SameLetter(s[0], c) || (s[0] == SHARP_S && c == 'S');
      if s[0] == SHARP_S {
        assert u + rest == ['S'] + ("S" + rest);
        FirstThenRest('S', "S" + rest, c, p);
      } else {
        assert u == [u[0]];
        FirstThenRest(u[0], rest, c, p);
      }
    }
  }

  lemma FirstThenRest(a: char, s: string, c: char, p: string)
    ensures StartsWith([a] + s, [c] + p) <==> a == c && StartsWith(s, p)
  {
    if |p| <= |s| {
      assert ([a] + s)[..|[c] + p|] == [a] + s[..|p|];
      assert ([c] + p)[1..] == p && ([a] + s[..|p|])[1..] == s[..|p|];
    }
  }

  lemma BeginsStep(s: string, c: char, p: string)
    ensures BeginsInAnyCase(s, [c] + p) <==> s != "" && SameLetter(s[0], c) && BeginsInAnyCase(s[1..], p)
  {
    hide SameLetter;
    if |s| >= 1 + |p| {
      var head := s[..1 + |p|];
      assert head[0] == s[0] && head[1..] == s[1..][..|p|] && ([c] + p)[1..] == p;
      if SameText(head, [c] + p) {
        forall k | 0 <= k < |p|
          ensures SameLetter(head[1..][k], p[k])
        {
          assert SameLetter(head[k + 1], ([c] + p)[k + 1]);
        }
      }
      if SameLetter(s[0], c) && SameText(head[1..], p) {
        forall k | 0 <= k < |head|
          ensures SameLetter(head[k], ([c] + p)[k])
        {
          if k > 0 {
            assert SameLetter(head[1..][k - 1], p[k - 1]);
          }
        }
      }
    }
  }

  /** Capitals and blanks, no two S in a row and none at the end. */
  predicate IsVerb(verb: string) {
    && (forall i :: 0 <= i < |verb| ==> 'A' <= verb[i] <= 'Z' || verb[i] == ' ')
    && (forall i :: 0 <= i < |verb| && verb[i] == 'S' ==> i + 1 < |verb| && verb[i + 1] != 'S')
  }

  lemma {:induction false} VerbIsHeardIff(s: string, verb: string)
    requires IsVerb(verb)
    ensures StartsWith(Upper(s), verb) <==> BeginsInAnyCase(s, verb)
    decreases |verb|
  {
    if verb == "" {
      assert Upper(s)[..0] == "";
    } else {
      var c, p := verb[0], verb[1..];
      assert verb == [c] + p;
      assert IsVerb(p) by {
        assert forall i :: 0 <= i < |p| ==> p[i] == verb[i + 1];
      }
      UpperStep(s, c, p);
      BeginsStep(s, c, p);
      if s != "" {
        VerbIsHeardIff(s[1..], p);
        if c == 'S' {
          assert p == [p[0]] + p[1..] && p[0] == verb[1] && "S" == ['S'];
          FirstThenRest('S', Upper(s[1..]), p[0], p[1..]);
        }
      }
    }
  }

  lemma PassIsHeardIff(s: string)
    ensures StartsWith(Upper(s), "PASS ") <==> BeginsInAnyCase(s, "PASS ") || IsSharpPass(s)
  {
    hide Upper, StartsWith, UpperLatin1, SameLetter, BeginsInAnyCase;
    assert "PASS " == ['P'] + "ASS " && "ASS " == ['A'] + "SS " && "SS " == ['S'] + "S " && "S " == ['S'] + " ";
    UpperStep(s, 'P', "ASS ");
    BeginsStep(s, 'P', "ASS ");
    if s != "" {
      var t := s[1..];
      UpperStep(t, 'A', "SS ");
      BeginsStep(t, 'A', "SS ");
      if t != "" {
        DoubleS(t[1..]);
        assert |s| >= 3 ==> t[1..][0] == s[2];
        assert |s| >= 4 ==> t[1..][1] == s[3];
        assert s[..2] == [s[0], s[1]] && "PA" == ['P', 'A'];
      }
    }
  }

  lemma DoubleS(s: string)
    ensures StartsWith(Upper(s), "SS ") <==>
            BeginsInAnyCase(s, "SS ") || (|s| >= 2 && s[0] == SHARP_S && s[1] == ' ')
  {
    hide Upper, StartsWith, UpperLatin1, BeginsInAnyCase;
    assert "SS " == ['S'] + "S " && "S " == ['S'] + " " && " " == [' '] + "";
    UpperStep(s, 'S', "S ");
    BeginsStep(s, 'S', "S ");
    if s != "" {
      VerbIsHeardIff(s[1..], "S ");
      VerbIsHeardIff(s[1..], " ");
      assert "S" + Upper(s[1..]) == ['S'] + Upper(s[1..]);
      FirstThenRest('S', Upper(s[1..]), 'S', " ");
      BeginsStep(s[1..], ' ', "");
      NothingToBegin(s[1..]);
    }
  }

  lemma NothingToBegin(s: string)
    ensures s != "" ==> BeginsInAnyCase(s[1..], "")
  {
  }

  /** A line is heard as a user name iff it begins with USER and a blank, in any case, and as a
      password iff it begins with PASS and a blank or with `pa`, a sharp s and a blank. The argument
      is what follows the first five characters. */
  lemma HeardIff(line: string)
    ensures var ll := Strip(line);
            && (KindOf(line).UserIs? <==> BeginsInAnyCase(ll, "USER "))
            && (KindOf(line).PassIs? <==> BeginsInAnyCase(ll, "PASS ") || IsSharpPass(ll))
            && (KindOf(line).UserIs? ==> KindOf(line).name == Strip(ll[5..]))
            && (KindOf(line).PassIs? ==> |ll| >= 5 && KindOf(line).password == Strip(ll[5..]))
  {
    hide Upper, SameLetter;
    var ll := Strip(line);
    VerbIsHeardIff(ll, "USER ");
    PassIsHeardIff(ll);
    StripEndsInText(line);
    assert |ll| == 5 ==> ll[5..] == "";
    if BeginsInAnyCase(ll, "USER ") {
      NotBoth(ll);
    }
  }

  lemma StripEndsInText(line: string)
    ensures Strip(line) != "" ==> !IsSpace(Strip(line)[|Strip(line)| - 1])
  {
    var l, r := StripTakesTheBlanks(line);
  }

  lemma NotBoth(s: string)
    requires BeginsInAnyCase(s, "USER ")
    ensures !BeginsInAnyCase(s, "PASS ") && !IsSharpPass(s)
  {
    assert s[..5][0] == s[0] && "USER "[0] == 'U' && "PASS "[0] == 'P';
    assert SameLetter(s[0], 'U');
  }

  /** Behind the sharp s the first character of the password is lost. */
  lemma SharpPassLosesACharacter(password: string)
    requires password != "" && IsTrimmed(password)
    ensures KindOf(['p', 'a', SHARP_S, ' '] + password) == PassIs(Strip(password[1..]))
  {
    hide Upper, UpperLatin1;
    var line := ['p', 'a', SHARP_S, ' '] + password;
    TrimmedIsStripped(line);
    assert line[..2] == "pa" && line[5..] == password[1..];
    HeardIff(line);
  }

  /** Plain USER and PASS lines are what they look like. */
  lemma PlainLinesAreHeard(u: string, p: string)
    requires u != "" && IsTrimmed(u) && p != "" && IsTrimmed(p)
    ensures KindOf("USER " + u) == UserIs(u) && KindOf("PASS " + p) == PassIs(p)
  {
    PlainLine("USER ", u);
    PlainLine("PASS ", p);
    assert Upper("PASS " + p)[0] == 'P' && "USER "[0] == 'U';
  }

  lemma PlainLine(verb: string, arg: string)
    requires (verb == "USER " || verb == "PASS ") && arg != "" && IsTrimmed(arg)
    ensures Strip(verb + arg) == verb + arg && Argument(verb + arg) == arg
    ensures StartsWith(Upper(verb + arg), verb)
  {
    var line := verb + arg;
    assert line[0] == verb[0] && line[|line| - 1] == arg[|arg| - 1];
    TrimmedIsStripped(line);
    TrimmedIsStripped(arg);
    assert line[5..] == arg;
    UpperSteps(line, 5);
    assert line[..5] == verb;
  }

  /** Upper-case ASCII letters and blanks are their own upper case. */
  lemma {:induction false} UpperSteps(s: string, n: nat)
    requires n <= |s| && forall i :: 0 <= i < n ==> 'A' <= s[i] <= 'Z' || s[i] == ' '
    ensures StartsWith(Upper(s), s[..n])
    decreases n
  {
    if n > 0 {
      assert forall i :: 0 <= i < n - 1 ==> s[1..][i] == s[i + 1];
      UpperSteps(s[1..], n - 1);
      assert UpperLatin1(s[0]) == [s[0]];
      assert s[..n] == [s[0]] + s[1..][..n - 1];
      var rest := Upper(s[1..]);
      assert rest[..n - 1] == s[1..][..n - 1];
      assert ([s[0]] + rest)[..n] == [s[0]] + rest[..n - 1];
    }
  }
}
