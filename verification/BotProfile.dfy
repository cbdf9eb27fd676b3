/** Per-bot state (manyfaced/handlers/bot_profile.py): bounded windows over an unbounded history
    and an escalation level driven by the detected behaviours. */
module BotProfiles {
  import Records
  import opened Text

  const MAX_HISTORY: nat := 500
  const MAX_DIALOGUE: nat := 500
  const MAX_RAW: nat := 5000

  /** Path, method and raw text of a request, already turned into strings. */
  datatype Request = Request(path: string, verb: string, raw: string)

  datatype Behavior =
    SqlInjection | LfiRfi | Rce | DirectoryTraversal | CredentialStuffing | Enumeration

  datatype Entry = Entry(sequence: nat, path: string, verb: string, rawRequest: string,
                         rawResponse: string, size: nat, detected: int)

  // -------------------------------------------------------------------------
  // Pattern detection
  // -------------------------------------------------------------------------

  const SQLI_PATTERNS := [
    "union", "select", "drop", "insert", "delete", "update", "or 1=1", "and 1=1", "sleep(",
    "benchmark(", "or+1=1", "and+1=1", "admin'--", "1=1--"]

  const LFI_PATTERNS := [
    "../", "..\\", "/etc/passwd", "/etc/shadow", "php://", "expect://", "data://"]

  const RCE_PATTERNS := [
    "; ls", "| cat", "&& wget", "$(curl", "`nc`", "eval(", "exec(", "| cat ", "; cat ", "&& cat ",
    "cat /etc", "wget http", "curl http"]

  const LOGIN_KEYWORDS := ["login", "admin", "auth", "wp-login", "index.php"]

  const ENUM_PATHS := [
    "/admin", "/wp-admin", "/phpmyadmin", "/server-status", "/.git", "/.env", "/config", "/backup",
    "/manager"]

  /** Non-overlapping occurrences of "..". */
  function CountDots(s: string): nat {
    if |s| < 2 then 0
    else if s[0] == '.' && s[1] == '.' then 1 + CountDots(s[2..])
    else CountDots(s[1..])
  }

  /** The behaviours `_analyze_request` adds for one request. */
  function Detected(req: Request): set<Behavior> {
    var path, raw := LowerAscii(req.path), LowerAscii(req.raw);
    (if exists p | p in SQLI_PATTERNS :: Contains(path, p) || Contains(raw, p) then {SqlInjection} else {})
    + (if exists p | p in LFI_PATTERNS :: Contains(path, p) || Contains(raw, p) then {LfiRfi} else {})
    + (if exists p | p in RCE_PATTERNS :: Contains(raw, p) then {Rce} else {})
    + (if CountDots(path) >= 2 then {DirectoryTraversal} else {})
    + (if UpperAscii(req.verb) == "POST" && exists p | p in LOGIN_KEYWORDS :: Contains(path, p)
       then {CredentialStuffing} else {})
    + (if exists p | p in ENUM_PATHS :: StartsWith(path, p) then {Enumeration} else {})
  }

  /** One of the patterns stands somewhere in the text, in whatever case. */
  ghost predicate Finds(patterns: seq<string>, text: string) {
    exists p, i: nat :: p in patterns && StandsInAnyCase(p, text, i)
  }

  /** Two dots stand in the text twice, apart from each other. */
  ghost predicate HasTwoDotPairs(text: string) {
    exists i: nat, j: nat :: i + 2 <= j && StandsAt("..", text, i) && StandsAt("..", text, j)
  }

  predicate IsLower(s: string) {
    forall i :: 0 <= i < |s| ==> !('A' <= s[i] <= 'Z')
  }

  lemma SqliPatternsAreLower()
    ensures forall p :: p in SQLI_PATTERNS ==> IsLower(p)
  {
  }

  lemma LfiPatternsAreLower()
    ensures forall p :: p in LFI_PATTERNS ==> IsLower(p)
  {
  }

  lemma RcePatternsAreLower()
    ensures forall p :: p in RCE_PATTERNS ==> IsLower(p)
  {
  }

  lemma LoginKeywordsAreLower()
    ensures forall p :: p in LOGIN_KEYWORDS ==> IsLower(p)
  {
  }

  lemma EnumPathsAreLower()
    ensures forall p :: p in ENUM_PATHS ==> IsLower(p)
  {
  }

  lemma FindsIff(patterns: seq<string>, text: string)
    requires forall p :: p in patterns ==> IsLower(p)
    ensures (exists p :: p in patterns && Contains(LowerAscii(text), p)) <==> Finds(patterns, text)
  {
    forall p | p in patterns
      ensures Contains(LowerAscii(text), p) <==> exists i: nat :: StandsInAnyCase(p, text, i)
    {
      LowerIsItself(p);
      ContainsInAnyCaseIff(text, p);
    }
  }

  lemma StartsInAnyCaseIff(text: string, p: string)
    requires IsLower(p)
    ensures StartsWith(LowerAscii(text), p) <==> StandsInAnyCase(p, text, 0)
  {
    StartsWithIff(LowerAscii(text), p);
    LowerAsciiAt(text);
    hide LowerAscii, StartsWith;
  }

  lemma DotsAt(s: string, i: nat)
    ensures StandsAt("..", s, i) <==> i + 2 <= |s| && s[i] == '.' && s[i + 1] == '.'
  {
    assert ".."[0] == '.' && ".."[1] == '.';
    assert i + 2 <= |s| ==> s[i + 0] == s[i];
  }

  lemma {:induction false} DotPairs(s: string)
    ensures CountDots(s) >= 1 <==> exists i: nat :: StandsAt("..", s, i)
    ensures CountDots(s) >= 2 <==> HasTwoDotPairs(s)
  {
    if |s| >= 2 {
      if s[0] == '.' && s[1] == '.' {
        DotPairs(s[2..]);
        DotsAt(s, 0);
        if i: nat :| StandsAt("..", s[2..], i) {
          assert StandsAt("..", s, i + 2);
        }
        if i: nat, j: nat :| i + 2 <= j && StandsAt("..", s, i) && StandsAt("..", s, j) {
          assert StandsAt("..", s[2..], j - 2);
        }
      } else {
        DotPairs(s[1..]);
        SkipOne(s);
      }
    }
  }

  lemma SkipOne(s: string)
    requires |s| >= 2 && !(s[0] == '.' && s[1] == '.')
    ensures (exists i: nat :: StandsAt("..", s[1..], i)) <==> exists i: nat :: StandsAt("..", s, i)
    ensures HasTwoDotPairs(s[1..]) <==> HasTwoDotPairs(s)
  {
    forall i: nat
      ensures StandsAt("..", s[1..], i) <==> StandsAt("..", s, i + 1)
    {
    }
    DotsAt(s, 0);
    if i: nat :| StandsAt("..", s[1..], i) {
      assert StandsAt("..", s, i + 1);
    }
    if i: nat :| StandsAt("..", s, i) {
      assert StandsAt("..", s[1..], i - 1);
    }
    if i: nat, j: nat :| i + 2 <= j && StandsAt("..", s[1..], i) && StandsAt("..", s[1..], j) {
      assert StandsAt("..", s, i + 1) && StandsAt("..", s, j + 1);
    }
    if i: nat, j: nat :| i + 2 <= j && StandsAt("..", s, i) && StandsAt("..", s, j) {
      assert StandsAt("..", s[1..], i - 1) && StandsAt("..", s[1..], j - 1);
    }
  }

  lemma DotsInAnyCase(path: string)
    ensures HasTwoDotPairs(LowerAscii(path)) <==> HasTwoDotPairs(path)
  {
    LowerAsciiAt(path);
    hide LowerAscii;
    forall i: nat
      ensures StandsAt("..", LowerAscii(path), i) <==> StandsAt("..", path, i)
    {
    }
  }

  /** Which requests show which behaviour: SQL and file patterns count in the path and in the raw
      text, command patterns in the raw text alone, the rest goes by the path. */
  lemma DetectedIff(req: Request)
    ensures SqlInjection in Detected(req) <==> Finds(SQLI_PATTERNS, req.path) || Finds(SQLI_PATTERNS, req.raw)
    ensures LfiRfi in Detected(req) <==> Finds(LFI_PATTERNS, req.path) || Finds(LFI_PATTERNS, req.raw)
    ensures Rce in Detected(req) <==> Finds(RCE_PATTERNS, req.raw)
    ensures DirectoryTraversal in Detected(req) <==> HasTwoDotPairs(req.path)
    ensures CredentialStuffing in Detected(req) <==> SameText(req.verb, "POST") && Finds(LOGIN_KEYWORDS, req.path)
    ensures Enumeration in Detected(req) <==> exists p :: p in ENUM_PATHS && StandsInAnyCase(p, req.path, 0)
  {
    hide Detected, Finds, HasTwoDotPairs;
    DetectedInRaw(req);
    DetectedInPath(req);
  }

  lemma DetectedInRaw(req: Request)
    ensures SqlInjection in Detected(req) <==> Finds(SQLI_PATTERNS, req.path) || Finds(SQLI_PATTERNS, req.raw)
    ensures LfiRfi in Detected(req) <==> Finds(LFI_PATTERNS, req.path) || Finds(LFI_PATTERNS, req.raw)
    ensures Rce in Detected(req) <==> Finds(RCE_PATTERNS, req.raw)
  {
    hide Contains, LowerAscii, UpperAscii, StartsWith, CountDots, Finds, IsLower,
      SQLI_PATTERNS, LFI_PATTERNS, RCE_PATTERNS, LOGIN_KEYWORDS, ENUM_PATHS;
    SqliPatternsAreLower();
    LfiPatternsAreLower();
    RcePatternsAreLower();
    FindsIff(SQLI_PATTERNS, req.path);
    FindsIff(SQLI_PATTERNS, req.raw);
    FindsIff(LFI_PATTERNS, req.path);
    FindsIff(LFI_PATTERNS, req.raw);
    FindsIff(RCE_PATTERNS, req.raw);
  }

  lemma DetectedInPath(req: Request)
    ensures DirectoryTraversal in Detected(req) <==> HasTwoDotPairs(req.path)
    ensures CredentialStuffing in Detected(req) <==> SameText(req.verb, "POST") && Finds(LOGIN_KEYWORDS, req.path)
    ensures Enumeration in Detected(req) <==> exists p :: p in ENUM_PATHS && StandsInAnyCase(p, req.path, 0)
  {
    hide Contains, LowerAscii, UpperAscii, StartsWith, CountDots, Finds, IsLower, HasTwoDotPairs, SameText,
      StandsInAnyCase, SQLI_PATTERNS, LFI_PATTERNS, RCE_PATTERNS, LOGIN_KEYWORDS, ENUM_PATHS;
    LoginKeywordsAreLower();
    EnumPathsAreLower();
    FindsIff(LOGIN_KEYWORDS, req.path);
    DotPairs(LowerAscii(req.path));
    DotsInAnyCase(req.path);
    PostInAnyCase(req.verb);
    forall p | p in ENUM_PATHS
      ensures StartsWith(LowerAscii(req.path), p) <==> StandsInAnyCase(p, req.path, 0)
    {
      StartsInAnyCaseIff(req.path, p);
    }
  }

  lemma PostInAnyCase(verb: string)
    ensures UpperAscii(verb) == "POST" <==> SameText(verb, "POST")
  {
    CaseFoldingIff(verb, "POST");
    UpperAsciiAt("POST");
    hide UpperAscii;
    assert UpperAscii("POST") == "POST";
  }

  // -------------------------------------------------------------------------
  // State
  // -------------------------------------------------------------------------

  function Truncated(raw: string): string {
    if |raw| > MAX_RAW
    then raw[..MAX_RAW] + "\n... (truncated, " + Records.Digits(|raw|) + " total bytes)"
    else raw
  }

  function Max(a: nat, b: nat): nat {
    if a >= b then a else b
  }

  /** `_update_escalation`: the first behaviour of the chain decides, and the level never falls. */
  function Escalated(level: nat, behaviors: set<Behavior>): nat {
    if Rce in behaviors then Max(level, 5)
    else if SqlInjection in behaviors then Max(level, 3)
    else if LfiRfi in behaviors then Max(level, 3)
    else if CredentialStuffing in behaviors then Max(level, 3)
    else if DirectoryTraversal in behaviors then Max(level, 2)
    else if Enumeration in behaviors then Max(level, 1)
    else level
  }

  function LastOf<T>(s: seq<T>, n: nat): seq<T> {
    if |s| <= n then s else s[|s| - n..]
  }

  datatype Op =
    | RecordRequest(request: Request)
    | RecordInteraction(request: Request, response: string, detected: int)
    | CaptureCredentials(credentials: string)

  datatype State = State(history: seq<Request>, dialogue: seq<Entry>, behaviors: set<Behavior>,
                         level: nat, credentials: seq<string>)

  const FRESH := State([], [], {}, 0, [])

  function MakeEntry(sequence: nat, request: Request, response: string, detected: int): Entry {
    Entry(sequence, request.path, request.verb, Truncated(request.raw), Truncated(response), |response|, detected)
  }

  /** Up to 5000 characters are kept as they are; of a longer text the first 5000 and its length. */
  ghost predicate Shows(kept: string, text: string) {
    if |text| <= 5000 then kept == text
    else
      && text[..5000] <= kept
      && exists length ::
           kept == text[..5000] + "\n... (truncated, " + length + " total bytes)"
           && length != "" && (forall c :: c in length ==> '0' <= c <= '9') && Records.DigitsValue(length) == |text|
  }

  /** An entry shows both sides of the exchange, each where it belongs. */
  lemma EntryShowsTheExchange(sequence: nat, request: Request, response: string, detected: int)
    ensures var e := MakeEntry(sequence, request, response, detected);
            && e.sequence == sequence && e.path == request.path && e.verb == request.verb && e.detected == detected
            && Shows(e.rawRequest, request.raw) && Shows(e.rawResponse, response) && e.size == |response|
  {
    hide Records.Digits, Records.DigitsValue;
    TruncatedShows(request.raw);
    TruncatedShows(response);
    hide Shows, Truncated;
  }

  lemma TruncatedShows(text: string)
    ensures Shows(Truncated(text), text)
  {
    hide Records.Digits, Records.DigitsValue;
    Records.DigitsRoundTrip(|text|);
    if |text| > 5000 {
      var length := Records.Digits(|text|);
      assert Truncated(text) == text[..5000] + "\n... (truncated, " + length + " total bytes)";
    }
  }

  function Apply(s: State, op: Op): State {
    match op
    case RecordRequest(request) =>
      var behaviors := s.behaviors + Detected(request);
      s.(history := LastOf(s.history + [request], MAX_HISTORY),
         behaviors := behaviors,
         level := Escalated(s.level, behaviors))
    case RecordInteraction(request, response, detected) =>
      var entry := MakeEntry(|s.dialogue| + 1, request, response, detected);
      s.(dialogue := LastOf(s.dialogue + [entry], MAX_DIALOGUE))
    case CaptureCredentials(credentials) =>
      s.(credentials := s.credentials + [credentials],
         behaviors := s.behaviors + {CredentialStuffing},
         level := Max(s.level, 3))
  }

  function Replay(ops: seq<Op>): State {
    if ops == [] then FRESH else Apply(Replay(ops[..|ops| - 1]), ops[|ops| - 1])
  }

  class BotProfile {
    const botIp: string
    var requestHistory: seq<Request>
    var dialogue: seq<Entry>
    var detectedBehaviors: set<Behavior>
    var escalationLevel: nat
    var capturedCredentials: seq<string>

    ghost function Contents(): State
      reads this
    {
      State(requestHistory, dialogue, detectedBehaviors, escalationLevel, capturedCredentials)
    }

    constructor (botIp: string)
      ensures this.botIp == botIp && Contents() == FRESH
    {
      this.botIp := botIp;
      requestHistory, dialogue, detectedBehaviors, escalationLevel, capturedCredentials := [], [], {}, 0, [];
    }

    method Record(request: Request)
      modifies this
      ensures Contents() == Apply(old(Contents()), RecordRequest(request))
    {
      requestHistory := requestHistory + [request];
      ghost var all := requestHistory;
      while |requestHistory| > MAX_HISTORY
        invariant LastOf(requestHistory, MAX_HISTORY) == LastOf(all, MAX_HISTORY)
        invariant dialogue == old(dialogue) && detectedBehaviors == old(detectedBehaviors)
        invariant escalationLevel == old(escalationLevel) && capturedCredentials == old(capturedCredentials)
      {
        requestHistory := requestHistory[1..];
      }
      detectedBehaviors := detectedBehaviors + Detected(request);
      escalationLevel := Escalated(escalationLevel, detectedBehaviors);
    }

    method RecordDialogue(request: Request, response: string, detected: int)
      modifies this
      ensures Contents() == Apply(old(Contents()), RecordInteraction(request, response, detected))
    {
      dialogue := dialogue + [MakeEntry(|dialogue| + 1, request, response, detected)];
      ghost var all := dialogue;
      while |dialogue| > MAX_DIALOGUE
        invariant LastOf(dialogue, MAX_DIALOGUE) == LastOf(all, MAX_DIALOGUE)
        invariant requestHistory == old(requestHistory) && detectedBehaviors == old(detectedBehaviors)
        invariant escalationLevel == old(escalationLevel) && capturedCredentials == old(capturedCredentials)
      {
        dialogue := dialogue[1..];
      }
    }

    method Capture(credentials: string)
      modifies this
      ensures Contents() == Apply(old(Contents()), CaptureCredentials(credentials))
    {
      capturedCredentials := capturedCredentials + [credentials];
      detectedBehaviors := detectedBehaviors + {CredentialStuffing};
      escalationLevel := Max(escalationLevel, 3);
    }
  }

  // -------------------------------------------------------------------------
  // Windows over the whole history
  // -------------------------------------------------------------------------

  function Requests(ops: seq<Op>): seq<Request> {
    if ops == [] then []
    else
      var rest := Requests(ops[..|ops| - 1]);
      if ops[|ops| - 1].RecordRequest? then rest + [ops[|ops| - 1].request] else rest
  }

  /** Every interaction ever recorded. */
  function Interactions(ops: seq<Op>): seq<Op> {
    if ops == [] then []
    else
      var rest := Interactions(ops[..|ops| - 1]);
      if ops[|ops| - 1].RecordInteraction? then rest + [ops[|ops| - 1]] else rest
  }

  lemma LastOfAppend<T>(s: seq<T>, x: T, n: nat)
    requires n > 0
    ensures LastOf(LastOf(s, n) + [x], n) == LastOf(s + [x], n)
  {
  }

  /** The entry is the record of the interaction, under some number. */
  predicate Notes(entry: Entry, op: Op) {
    op.RecordInteraction? && entry == MakeEntry(entry.sequence, op.request, op.response, op.detected)
  }

  /** The dialogue that belongs to the interactions `all`: the last 500 of them, numbered by how many
      came before, but never beyond 501. */
  predicate IsDialogueOf(dialogue: seq<Entry>, all: seq<Op>) {
    && |dialogue| == (if |all| <= 500 then |all| else 500)
    && forall i :: 0 <= i < |dialogue| ==>
         var k := |all| - |dialogue| + i;
         Notes(dialogue[i], all[k]) && dialogue[i].sequence == if k + 1 <= 501 then k + 1 else 501
  }

  /** After any calls the history is the last 500 requests in order, and the dialogue the last 500
      interactions in order, where the k-th interaction ever made carries sequence min(k, 501). */
  lemma {:induction false} WindowsAreTheLatest(ops: seq<Op>)
    ensures Replay(ops).history == LastOf(Requests(ops), 500)
    ensures IsDialogueOf(Replay(ops).dialogue, Interactions(ops))
  {
    hide LastOf, IsDialogueOf, MakeEntry, Detected, Escalated;
    if ops == [] {
      EmptyWindows();
    } else {
      var before, op := ops[..|ops| - 1], ops[|ops| - 1];
      WindowsAreTheLatest(before);
      match op
      case RecordRequest(request) => LastOfAppend(Requests(before), request, MAX_HISTORY);
      case RecordInteraction(_, _, _) => DialogueGrows(Replay(before).dialogue, Interactions(before), op);
      case CaptureCredentials(_) =>
    }
  }

  lemma EmptyWindows()
    ensures LastOf<Request>([], MAX_HISTORY) == [] && IsDialogueOf([], [])
  {
  }

  lemma DialogueGrows(dialogue: seq<Entry>, all: seq<Op>, op: Op)
    requires op.RecordInteraction? && IsDialogueOf(dialogue, all)
    ensures var entry := MakeEntry(|dialogue| + 1, op.request, op.response, op.detected);
            IsDialogueOf(LastOf(dialogue + [entry], MAX_DIALOGUE), all + [op])
  {
    hide Truncated;
  }

  /** The numbers tell the entries of a dialogue apart if and only if no more than 501 interactions
      were ever made: beyond that the window holds several entries numbered 501. */
  lemma SequenceNumbersTellApartIff(ops: seq<Op>)
    ensures (forall i, j :: 0 <= i < j < |Replay(ops).dialogue| ==>
               Replay(ops).dialogue[i].sequence != Replay(ops).dialogue[j].sequence)
            <==> |Interactions(ops)| <= 501
  {
    hide Replay, Interactions, Notes;
    WindowsAreTheLatest(ops);
    var dialogue := Replay(ops).dialogue;
    if |Interactions(ops)| > 501 {
      assert dialogue[498].sequence == 501 && dialogue[499].sequence == 501;
    }
  }

  // -------------------------------------------------------------------------
  // Escalation
  // -------------------------------------------------------------------------

  function Weight(b: Behavior): nat {
    match b
    case Rce => 5
    case SqlInjection => 3
    case LfiRfi => 3
    case CredentialStuffing => 3
    case DirectoryTraversal => 2
    case Enumeration => 1
  }

  /** The level is the largest weight among the behaviours, 0 when there is none. */
  predicate IsLevelOf(level: nat, behaviors: set<Behavior>) {
    && (forall b :: b in behaviors ==> Weight(b) <= level)
    && (level == 0 || exists b :: b in behaviors && Weight(b) == level)
  }

  function BehaviorsOf(op: Op): set<Behavior> {
    match op
    case RecordRequest(request) => Detected(request)
    case RecordInteraction(_, _, _) => {}
    case CaptureCredentials(_) => {CredentialStuffing}
  }

  lemma ChainIsMaximum(level: nat, old': set<Behavior>, behaviors: set<Behavior>)
    requires IsLevelOf(level, old') && old' <= behaviors
    ensures IsLevelOf(Escalated(level, behaviors), behaviors)
  {
    var b := if Rce in behaviors then Rce
             else if SqlInjection in behaviors then SqlInjection
             else if LfiRfi in behaviors then LfiRfi
             else if CredentialStuffing in behaviors then CredentialStuffing
             else if DirectoryTraversal in behaviors then DirectoryTraversal
             else Enumeration;
    forall c | c in behaviors
      ensures Weight(c) <= Weight(b)
    {
      match c
      case Rce =>
      case SqlInjection =>
      case LfiRfi =>
      case CredentialStuffing =>
      case DirectoryTraversal =>
      case Enumeration =>
    }
  }

  /** After any calls the behaviours are exactly those some call showed, and the level is their
      largest weight. */
  lemma {:induction false} LevelIsTheLargestWeight(ops: seq<Op>)
    ensures IsLevelOf(Replay(ops).level, Replay(ops).behaviors)
    ensures forall b :: b in Replay(ops).behaviors <==> exists op :: op in ops && b in BehaviorsOf(op)
  {
    if ops != [] {
      var before, op := ops[..|ops| - 1], ops[|ops| - 1];
      LevelIsTheLargestWeight(before);
      assert ops == before + [op];
      var s := Replay(before);
      assert Replay(ops).behaviors == s.behaviors + BehaviorsOf(op);
      if op.RecordRequest? {
        ChainIsMaximum(s.level, s.behaviors, s.behaviors + Detected(op.request));
      } else if op.CaptureCredentials? {
        assert Weight(CredentialStuffing) == 3;
        assert CredentialStuffing in Replay(ops).behaviors;
      }
    }
  }

  lemma LevelsAreUnique(a: nat, b: nat, behaviors: set<Behavior>)
    requires IsLevelOf(a, behaviors) && IsLevelOf(b, behaviors)
    ensures a == b
  {
  }

  /** The level does not depend on the order of the calls, nor on how often each was made. */
  lemma LevelIgnoresOrder(ops: seq<Op>, other: seq<Op>)
    requires forall op :: op in ops <==> op in other
    ensures Replay(ops).level == Replay(other).level && Replay(ops).behaviors == Replay(other).behaviors
  {
    LevelIsTheLargestWeight(ops);
    LevelIsTheLargestWeight(other);
    assert forall b :: b in Replay(ops).behaviors <==> b in Replay(other).behaviors;
    LevelsAreUnique(Replay(ops).level, Replay(other).level, Replay(ops).behaviors);
  }

  /** The level never falls and never takes the value 4 (compromised). */
  lemma LevelOnlyRises(ops: seq<Op>, more: seq<Op>)
    ensures Replay(ops).level <= Replay(ops + more).level != 4
  {
    LevelIsTheLargestWeight(ops);
    LevelIsTheLargestWeight(ops + more);
    hide Replay, BehaviorsOf;
    assert Replay(ops).behaviors <= Replay(ops + more).behaviors;
  }
}
