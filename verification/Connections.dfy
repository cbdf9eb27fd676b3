/** Non-HTTP connections (manyfaced/client/client.py): three branches of one handler that must
    attribute a frame the same way and report each connection once. Bytes are Latin-1 characters. */
module Connections {
  import opened Wrappers
  import opened Text

  const UNKNOWN_REDIS: int := 4294967288
  const SSH_CLIENT: int := 4294967293
  const EMPTY_CONNECTION: int := 4294967291
  const HTTP_ON_NONHTTP_PORT: int := 4294967279
  const UNKNOWN_MEMCACHED: int := 4294967276
  const UNKNOWN_ZOOKEEPER: int := 4294967275
  const UNKNOWN_EPMD: int := 4294967274
  const UNKNOWN_AMQP: int := 4294967273
  const NEXTJS_HTTP: int := 1027
  const MAX_ROUNDS: nat := 64

  // -------------------------------------------------------------------------
  // Sniffing
  // -------------------------------------------------------------------------

  const REDIS_VERBS := [
    "PING", "INFO", "AUTH", "CONFIG", "ECHO", "COMMAND", "CLIENT", "HELLO", "CLUSTER", "SCRIPT",
    "SUBSCRIBE", "PUBLISH", "SLAVEOF", "REPLICAOF", "PONG"]

  const ZOOKEEPER_4LW := [
    "ruok", "stat", "srvr", "mntr", "conf", "dump", "envi", "cons", "crst", "dirs", "isro", "wchs",
    "wchc", "wchp", "reqs", "kill", "gtmk", "stmk", "hash", "printwatches", "environment",
    "gettracemask", "settracemask"]

  const MEMCACHED_VERBS := [
    "version", "stats", "flush_all", "quit", "get", "gets", "set", "add", "replace", "delete",
    "append", "prepend", "cas"]

  predicate IsNextJsProbe(raw: string) {
    || Contains(LowerAscii(raw), "x-middleware-subrequest")
    || Contains(raw, "$@0")
    || Contains(raw, "__proto__:then")
    || Contains(LowerAscii(raw), "next_redirect")
  }

  function HttpMismatchDetectedId(raw: string): int {
    if IsNextJsProbe(raw) then NEXTJS_HTTP else HTTP_ON_NONHTTP_PORT
  }

  function FirstToken(raw: string): string {
    if raw == "" || raw[0] in [' ', '\t', '\r', '\n'] then "" else [raw[0]] + FirstToken(raw[1..])
  }

  datatype Sniff = Sniff(protocol: string, detectedId: int)

  function SniffNonHttpProtocol(raw: string): Option<Sniff> {
    var token := FirstToken(raw);
    if raw == "" then None
    else if (raw[0] == '*' && |raw| >= 2 && '0' <= raw[1] <= '9') || token in REDIS_VERBS then
      Some(Sniff("redis", UNKNOWN_REDIS))
    else if token in ZOOKEEPER_4LW then Some(Sniff("zookeeper", UNKNOWN_ZOOKEEPER))
    else if StartsWith(raw, "AMQP") then Some(Sniff("amqp", UNKNOWN_AMQP))
    else if token in MEMCACHED_VERBS then Some(Sniff("memcached", UNKNOWN_MEMCACHED))
    else if Contains(raw, "PORT_PLEASE2") || StartsWith(raw, ['\0', 2 as char, 'z'])
            || StartsWith(raw, ['\0', 1 as char, 'd']) then
      Some(Sniff("epmd", UNKNOWN_EPMD))
    else None
  }

  function ProtocolMismatchDetectedId(raw: string, faceName: string): Option<int> {
    match SniffNonHttpProtocol(raw)
    case None => None
    case Some(sniff) => if sniff.protocol == faceName then None else Some(sniff.detectedId)
  }

  // -------------------------------------------------------------------------
  // Faces, peers and reports
  // -------------------------------------------------------------------------

  datatype Direction = ServerFirst | ClientFirst

  /** A face's reply; a handler that raises counts as no reply. */
  datatype Response = Reply(bytes: string) | RespondRaised

  datatype Extraction = Offer(creds: Option<string>) | ExtractRaised

  datatype FaceSpec = FaceSpec(
    name: string, detectedId: int, direction: Direction, greeting: string,
    respond: Option<string -> Response>, captureCreds: bool, extractCreds: Option<string -> Extraction>)

  /** What the other side does: which sends succeed, what it sends, what credential capture finds. */
  datatype Peer = Peer(
    greetingSent: bool, frame: string, replySent: bool,
    later: nat -> string, laterSent: nat -> bool, captured: Option<string>)

  datatype Report = Report(detectedId: int, raw: string, login: Option<string>, reply: string)

  function ReplyTo(spec: FaceSpec, raw: string): string {
    if spec.respond == None then ""
    else match spec.respond.value(raw) case Reply(bytes) => bytes case RespondRaised => ""
  }

  predicate Extracts(spec: FaceSpec) {
    spec.captureCreds && spec.extractCreds != None
  }

  /** `creds or c`: an empty string is as good as none. */
  predicate Truthy(creds: Option<string>) {
    creds != None && creds.value != ""
  }

  function OrElse(creds: Option<string>, c: Option<string>): Option<string> {
    if Truthy(creds) then creds else c
  }

  /** What the extractor offers on a frame; None when it raises or there is none. */
  function OfferOn(spec: FaceSpec, raw: string): Option<string> {
    if !Extracts(spec) then None
    else match spec.extractCreds.value(raw) case Offer(c) => c case ExtractRaised => None
  }

  predicate RaisesOn(spec: FaceSpec, raw: string) {
    Extracts(spec) && spec.extractCreds.value(raw) == ExtractRaised
  }

  // -------------------------------------------------------------------------
  // The one decision
  // -------------------------------------------------------------------------

  /** HTTP mismatch first, then a foreign protocol, then the face itself. */
  function Attribution(spec: FaceSpec, raw: string, isHttp: bool): int {
    if isHttp then HttpMismatchDetectedId(raw)
    else match ProtocolMismatchDetectedId(raw, spec.name)
         case Some(id) => id
         case None => if spec.name == "ssh" then SSH_CLIENT else spec.detectedId
  }

  /** The number of frames the client-first loop reads from round `k` on. */
  function Rounds(spec: FaceSpec, peer: Peer, k: nat): nat
    decreases MAX_ROUNDS - k
  {
    if k >= MAX_ROUNDS || peer.later(k) == "" then 0
    else if RaisesOn(spec, peer.later(k)) then 1
    else if ReplyTo(spec, peer.later(k)) != "" && !peer.laterSent(k) then 1
    else 1 + Rounds(spec, peer, k + 1)
  }

  /** Some frame the client-first loop reads makes the extractor raise. */
  ghost predicate LaterRaises(spec: FaceSpec, peer: Peer) {
    exists k: nat :: k < Rounds(spec, peer, 0) && RaisesOn(spec, peer.later(k))
  }

  predicate GreetingFails(spec: FaceSpec, peer: Peer) {
    spec.direction == ServerFirst && spec.greeting != "" && !peer.greetingSent
  }

  predicate FirstReplyFails(spec: FaceSpec, peer: Peer) {
    spec.name != "ssh" && spec.direction == ClientFirst && peer.frame != "" && ReplyTo(spec, peer.frame) != ""
    && !peer.replySent
  }

  /** The connections that end without a report. */
  ghost predicate Unreported(spec: FaceSpec, peer: Peer) {
    || GreetingFails(spec, peer)
    || FirstReplyFails(spec, peer)
    || (spec.name != "ssh" && spec.direction == ClientFirst
        && (RaisesOn(spec, peer.frame) || LaterRaises(spec, peer)))
  }

  /** The login of a client-first report: the first truthy offer, in the order of the frames. */
  function FirstOffer(spec: FaceSpec, peer: Peer, n: nat): Option<string> {
    if n == 0 then OrElse(None, OfferOn(spec, peer.frame))
    else OrElse(FirstOffer(spec, peer, n - 1), OfferOn(spec, peer.later(n - 1)))
  }

  /** The replies sent or attempted over the whole exchange. */
  function Replies(spec: FaceSpec, peer: Peer, n: nat): string {
    if n == 0 then (if peer.frame != "" then ReplyTo(spec, peer.frame) else "")
    else Replies(spec, peer, n - 1) + ReplyTo(spec, peer.later(n - 1))
  }

  function Login(creds: Option<string>): Option<string> {
    if Truthy(creds) then creds else None
  }

  // -------------------------------------------------------------------------
  // What a frame says, without the sniffer
  // -------------------------------------------------------------------------

  datatype Protocol = Redis | Zookeeper | Amqp | Memcached | Epmd

  /** The frame begins with the word, and a blank or nothing follows it. */
  predicate BeginsWith(frame: string, word: string) {
    StandsAt(word, frame, 0) && (|frame| == |word| || frame[|word|] in " \t\r\n")
  }

  /** The verbs and headers each protocol is known by. */
  ghost predicate Speaks(frame: string, p: Protocol) {
    match p
    case Redis =>
      || (exists verb :: verb in REDIS_VERBS && BeginsWith(frame, verb))
      || (|frame| >= 2 && frame[0] == '*' && '0' <= frame[1] <= '9')
    case Zookeeper => exists verb :: verb in ZOOKEEPER_4LW && BeginsWith(frame, verb)
    case Amqp => StandsAt("AMQP", frame, 0)
    case Memcached => exists verb :: verb in MEMCACHED_VERBS && BeginsWith(frame, verb)
    case Epmd =>
      || (exists i: nat :: StandsAt("PORT_PLEASE2", frame, i))
      || (|frame| >= 3 && frame[0] == '\0' && frame[1] as int == 2 && frame[2] == 'z')
      || (|frame| >= 3 && frame[0] == '\0' && frame[1] as int == 1 && frame[2] == 'd')
  }

  /** A frame that only carries the EPMD mark somewhere may open with another protocol's verb; the
      verbs and headers of the other four exclude each other. */
  ghost predicate Says(frame: string, p: Protocol) {
    Speaks(frame, p) && (p.Epmd? ==> forall q :: Speaks(frame, q) ==> q.Epmd?)
  }

  /** How faces and reports name a protocol. */
  function NameOf(p: Protocol): string {
    match p
    case Redis => "redis"
    case Zookeeper => "zookeeper"
    case Amqp => "amqp"
    case Memcached => "memcached"
    case Epmd => "epmd"
  }

  function SentinelOf(p: Protocol): int {
    match p
    case Redis => 4294967288
    case Zookeeper => 4294967275
    case Amqp => 4294967273
    case Memcached => 4294967276
    case Epmd => 4294967274
  }

  /** One of the four marks of the Next.js probe stands in the frame, two of them in any case. */
  ghost predicate BearsNextJsMark(frame: string) {
    || (exists i: nat :: StandsInAnyCase("x-middleware-subrequest", frame, i))
    || (exists i: nat :: StandsAt("$@0", frame, i))
    || (exists i: nat :: StandsAt("__proto__:then", frame, i))
    || (exists i: nat :: StandsInAnyCase("next_redirect", frame, i))
  }

  /** The face's own id. */
  function OwnId(spec: FaceSpec): int {
    if spec.name == "ssh" then 4294967293 else spec.detectedId
  }

  /** The frame speaks a protocol that is not the face's own. */
  ghost predicate IsForeign(spec: FaceSpec, frame: string) {
    exists p :: Says(frame, p) && spec.name != NameOf(p)
  }

  /** The id a frame is reported under: an HTTP frame by its marks, another one by the protocol it
      speaks unless that is the face's own, and the face's own id for everything else. */
  ghost predicate IsRightId(spec: FaceSpec, frame: string, isHttp: bool, id: int) {
    && (isHttp ==> id == if BearsNextJsMark(frame) then 1027 else 4294967279)
    && (!isHttp ==> forall p :: Says(frame, p) ==> id == if spec.name == NameOf(p) then OwnId(spec) else SentinelOf(p))
    && (!isHttp && (forall p :: !Speaks(frame, p)) ==> id == OwnId(spec))
  }

  /** Every connection, exactly: none of the listed failures means one report, which carries the
      first frame and, whichever branch made it, the id that frame calls for. Only a connection
      without a frame and without credentials is stamped empty, and never on the ssh face. */
  method HandleNonHttpConnection(spec: FaceSpec, peer: Peer, isHttpRequest: string -> bool)
    returns (reports: seq<Report>)
    ensures |reports| == if Unreported(spec, peer) then 0 else 1
    ensures reports != [] ==>
              && reports[0].raw == peer.frame
              && (peer.frame != "" || isHttpRequest("") ==>
                    IsRightId(spec, peer.frame, isHttpRequest(peer.frame), reports[0].detectedId))
              && (peer.frame == "" && !isHttpRequest("") ==>
                    reports[0].detectedId ==
                    if spec.name == "ssh" || (spec.direction == ServerFirst && reports[0].login != None)
                    then OwnId(spec) else 4294967291)
    ensures reports != [] && spec.name != "ssh" && spec.direction == ClientFirst ==>
              && reports[0].login == Login(FirstOffer(spec, peer, Rounds(spec, peer, 0)))
              && reports[0].reply == Replies(spec, peer, Rounds(spec, peer, 0))
    ensures reports != [] && spec.name == "ssh" ==> reports[0].login == Login(peer.captured) && reports[0].reply == ""
    ensures reports != [] && spec.name != "ssh" && spec.direction == ServerFirst ==>
              && reports[0].reply == ""
              && reports[0].login ==
                 if !isHttpRequest(peer.frame) && !IsForeign(spec, peer.frame) && spec.captureCreds
                 then Login(peer.captured) else None
  {
    hide HttpMismatchDetectedId, SniffNonHttpProtocol, Rounds, RaisesOn, OfferOn, ReplyTo, FirstOffer, Replies,
      LaterRaises, IsRightId, IsForeign;
    AttributionIsRight(spec, peer.frame, isHttpRequest(peer.frame));
    ForeignIff(spec, peer.frame);
    reports := [];
    if spec.direction == ServerFirst && spec.greeting != "" {
      if !peer.greetingSent {
        return;
      }
    }
    EmptyFrameIsNoProtocol(spec.name);
    var raw := peer.frame;
    var httpOnNonHttp := isHttpRequest(raw);
    if spec.name == "ssh" {
      var detectedId := SSH_CLIENT;
      if httpOnNonHttp {
        detectedId := HttpMismatchDetectedId(raw);
      } else {
        var pid := ProtocolMismatchDetectedId(raw, spec.name);
        if pid != None {
          detectedId := pid.value;
        }
      }
      return [Report(detectedId, raw, Login(peer.captured), "")];
    }
    if spec.direction == ClientFirst {
      reports := ClientFirstExchange(spec, peer, httpOnNonHttp);
      return;
    }
    if httpOnNonHttp {
      return [Report(HttpMismatchDetectedId(raw), raw, None, "")];
    }
    var pid := ProtocolMismatchDetectedId(raw, spec.name);
    if pid != None {
      return [Report(pid.value, raw, None, "")];
    }
    var creds: Option<string> := None;
    if spec.captureCreds {
      creds := peer.captured;
    }
    if Truthy(creds) {
      return [Report(spec.detectedId, raw, creds, "")];
    }
    return [Report(if raw == "" then EMPTY_CONNECTION else spec.detectedId, raw, None, "")];
  }

  /** The client-first branch: the first frame, the later frames, one report. */
  method ClientFirstExchange(spec: FaceSpec, peer: Peer, httpOnNonHttp: bool) returns (reports: seq<Report>)
    requires spec.name != "ssh" && spec.direction == ClientFirst
    ensures |reports| == if Unreported(spec, peer) then 0 else 1
    ensures reports != [] ==>
              && reports[0].raw == peer.frame
              && reports[0].detectedId ==
                 (if peer.frame == "" && !httpOnNonHttp then EMPTY_CONNECTION
                  else Attribution(spec, peer.frame, httpOnNonHttp))
              && reports[0].login == Login(FirstOffer(spec, peer, Rounds(spec, peer, 0)))
              && reports[0].reply == Replies(spec, peer, Rounds(spec, peer, 0))
  {
    hide HttpMismatchDetectedId, SniffNonHttpProtocol, Rounds, RaisesOn, OfferOn, ReplyTo, LaterRaises, OrElse;
    reports := [];
    var raw := peer.frame;
    var replies := "";
    if raw != "" {
      var reply := ReplyTo(spec, raw);
      if reply != "" {
        replies := replies + reply;
        if !peer.replySent {
          return;
        }
      }
    }
    if RaisesOn(spec, raw) {
      return;
    }
    var creds := OrElse(None, OfferOn(spec, raw));
    var raised;
    creds, replies, raised := LaterFrames(spec, peer, creds, replies);
    if raised {
      return;
    }
    EmptyFrameIsNoProtocol(spec.name);
    var detectedId := spec.detectedId;
    if httpOnNonHttp {
      detectedId := HttpMismatchDetectedId(raw);
    } else {
      var pid := ProtocolMismatchDetectedId(raw, spec.name);
      if pid != None {
        detectedId := pid.value;
      } else if raw == "" {
        detectedId := EMPTY_CONNECTION;
      }
    }
    return [Report(detectedId, raw, Login(creds), replies)];
  }

  /** The loop over the frames after the first; `raised` when the extractor raises on one. */
  method LaterFrames(spec: FaceSpec, peer: Peer, firstCreds: Option<string>, firstReplies: string)
    returns (creds: Option<string>, replies: string, raised: bool)
    requires firstCreds == FirstOffer(spec, peer, 0) && firstReplies == Replies(spec, peer, 0)
    ensures raised <==> LaterRaises(spec, peer)
    ensures !raised ==> creds == FirstOffer(spec, peer, Rounds(spec, peer, 0))
    ensures !raised ==> replies == Replies(spec, peer, Rounds(spec, peer, 0))
  {
    hide RaisesOn, OfferOn, ReplyTo, OrElse, FirstOffer, Replies, Rounds;
    creds, replies, raised := firstCreds, firstReplies, false;
    NoFrameAfterTheCap(spec, peer);
    var round: nat := 0;
    var more := true;
    while more && round < MAX_ROUNDS
      invariant round <= MAX_ROUNDS
      invariant creds == FirstOffer(spec, peer, round) && replies == Replies(spec, peer, round)
      invariant Rounds(spec, peer, 0) == round + if more then Rounds(spec, peer, round) else 0
      invariant forall k: nat :: k < round ==> !RaisesOn(spec, peer.later(k))
      decreases more, MAX_ROUNDS - round
    {
      var frame := peer.later(round);
      NextFrame(spec, peer, round);
      if frame == "" {
        more := false;
      } else {
        if RaisesOn(spec, frame) {
          assert round < Rounds(spec, peer, 0);
          raised := true;
          return;
        }
        creds := OrElse(creds, OfferOn(spec, frame));
        var reply := ReplyTo(spec, frame);
        replies := replies + reply;
        if reply != "" && !peer.laterSent(round) {
          more := false;
        }
        round := round + 1;
      }
    }
  }

  lemma NextFrame(spec: FaceSpec, peer: Peer, k: nat)
    requires k < MAX_ROUNDS
    ensures FirstOffer(spec, peer, k + 1) == OrElse(FirstOffer(spec, peer, k), OfferOn(spec, peer.later(k)))
    ensures Replies(spec, peer, k + 1) == Replies(spec, peer, k) + ReplyTo(spec, peer.later(k))
    ensures Rounds(spec, peer, k) ==
            if peer.later(k) == "" then 0
            else if RaisesOn(spec, peer.later(k)) || (ReplyTo(spec, peer.later(k)) != "" && !peer.laterSent(k)) then 1
            else 1 + Rounds(spec, peer, k + 1)
  {
    hide RaisesOn, OfferOn, ReplyTo, OrElse;
  }

  lemma NoFrameAfterTheCap(spec: FaceSpec, peer: Peer)
    ensures Rounds(spec, peer, MAX_ROUNDS) == 0
  {
  }

  lemma EmptyFrameIsNoProtocol(faceName: string)
    ensures ProtocolMismatchDetectedId("", faceName) == None
  {
  }

  // -------------------------------------------------------------------------
  // Properties of the decision
  // -------------------------------------------------------------------------

  /** The frames of an exchange, the first one included. */
  function FrameAt(peer: Peer, i: nat): string {
    if i == 0 then peer.frame else peer.later(i - 1)
  }

  /** The face captures credentials, and its extractor finds `c` on the frame. */
  predicate Finds(spec: FaceSpec, frame: string, c: string) {
    && spec.captureCreds && spec.extractCreds.Some?
    && spec.extractCreds.value(frame) == Offer(Some(c)) && c != ""
  }

  ghost predicate FindsFirst(spec: FaceSpec, peer: Peer, i: nat, c: string) {
    Finds(spec, FrameAt(peer, i), c) && forall j: nat, d :: j < i ==> !Finds(spec, FrameAt(peer, j), d)
  }

  /** The login of an exchange is what the extractor finds on the first frame it finds anything on. */
  lemma {:induction false} LoginIsTheFirstFind(spec: FaceSpec, peer: Peer, n: nat, c: string)
    ensures Login(FirstOffer(spec, peer, n)) == Some(c) <==> exists i: nat :: i <= n && FindsFirst(spec, peer, i, c)
  {
    if n == 0 {
      assert FindsFirst(spec, peer, 0, c) <==> Finds(spec, peer.frame, c);
    } else {
      LoginIsTheFirstFind(spec, peer, n - 1, c);
      if Login(FirstOffer(spec, peer, n - 1)).Some? {
        var d := FirstOffer(spec, peer, n - 1).value;
        LoginIsTheFirstFind(spec, peer, n - 1, d);
        var i: nat :| i <= n - 1 && FindsFirst(spec, peer, i, d);
        assert !FindsFirst(spec, peer, n, c);
      } else {
        NothingFoundYet(spec, peer, n - 1);
        assert FindsFirst(spec, peer, n, c) <==> Finds(spec, FrameAt(peer, n), c);
      }
    }
  }

  lemma {:induction false} NothingFoundYet(spec: FaceSpec, peer: Peer, n: nat)
    requires Login(FirstOffer(spec, peer, n)) == None
    ensures forall j: nat, d :: j <= n ==> !Finds(spec, FrameAt(peer, j), d)
  {
    if n > 0 {
      NothingFoundYet(spec, peer, n - 1);
    }
  }

  /** What the face answers to a frame. */
  predicate Answers(spec: FaceSpec, frame: string, bytes: string) {
    spec.respond.Some? && spec.respond.value(frame) == Reply(bytes)
  }

  /** The reply of a report is the answers to the frames, one after the other; a face without a
      handler and a handler that raises answer nothing, and an empty first frame is not answered. */
  lemma RepliesAreTheAnswers(spec: FaceSpec, peer: Peer, k: nat, bytes: string)
    ensures peer.frame != "" && Answers(spec, peer.frame, bytes) ==> Replies(spec, peer, 0) == bytes
    ensures peer.frame == "" || (forall b :: !Answers(spec, peer.frame, b)) ==> Replies(spec, peer, 0) == ""
    ensures Answers(spec, peer.later(k), bytes) ==> Replies(spec, peer, k + 1) == Replies(spec, peer, k) + bytes
    ensures (forall b :: !Answers(spec, peer.later(k), b)) ==> Replies(spec, peer, k + 1) == Replies(spec, peer, k)
  {
    if spec.respond.Some? {
      match spec.respond.value(peer.frame)
      case Reply(b) => assert Answers(spec, peer.frame, b);
      case RespondRaised =>
    }
    if spec.respond.Some? {
      match spec.respond.value(peer.later(k))
      case Reply(b) => assert Answers(spec, peer.later(k), b);
      case RespondRaised =>
    }
  }

  /** The extractor raises on the frame. */
  predicate Chokes(spec: FaceSpec, frame: string) {
    spec.captureCreds && spec.extractCreds.Some? && spec.extractCreds.value(frame) == ExtractRaised
  }

  /** The k-th later frame ends the exchange: the extractor raises on it, or its answer is not sent. */
  ghost predicate Ends(spec: FaceSpec, peer: Peer, k: nat) {
    || Chokes(spec, peer.later(k))
    || (!peer.laterSent(k) && exists b :: b != "" && Answers(spec, peer.later(k), b))
  }

  /** The loop reads frames until one is empty, one ends the exchange, or 64 are read. */
  lemma RoundsAre(spec: FaceSpec, peer: Peer)
    ensures var n := Rounds(spec, peer, 0);
            && n <= 64
            && (forall k: nat :: k < n ==> peer.later(k) != "")
            && (forall k: nat :: k + 1 < n ==> !Ends(spec, peer, k))
            && (n < 64 ==> peer.later(n) == "" || (n > 0 && Ends(spec, peer, n - 1)))
  {
    RoundsFrom(spec, peer, 0);
  }

  lemma {:induction false} RoundsFrom(spec: FaceSpec, peer: Peer, from: nat)
    requires from <= 64
    ensures var n := from + Rounds(spec, peer, from);
            && n <= 64
            && (forall k: nat :: from <= k < n ==> peer.later(k) != "")
            && (forall k: nat :: from <= k && k + 1 < n ==> !Ends(spec, peer, k))
            && (n < 64 ==> peer.later(n) == "" || (n > from && Ends(spec, peer, n - 1)))
    decreases 64 - from
  {
    hide Ends;
    if from < 64 {
      EndsIff(spec, peer, from);
      if peer.later(from) != "" && !Ends(spec, peer, from) {
        RoundsFrom(spec, peer, from + 1);
      }
    }
  }

  lemma EndsIff(spec: FaceSpec, peer: Peer, k: nat)
    ensures Ends(spec, peer, k) <==>
            RaisesOn(spec, peer.later(k)) || (ReplyTo(spec, peer.later(k)) != "" && !peer.laterSent(k))
  {
    if spec.respond.Some? && spec.respond.value(peer.later(k)).Reply? {
      assert Answers(spec, peer.later(k), spec.respond.value(peer.later(k)).bytes);
    }
  }

  /** The connections that end without a report, from what the peer and the face do: a greeting that is
      not sent; and on a client-first face a first answer that is not sent, or an extractor that
      raises on one of the frames that are read. */
  lemma UnreportedIff(spec: FaceSpec, peer: Peer)
    ensures Unreported(spec, peer) <==>
            || (spec.direction == ServerFirst && spec.greeting != "" && !peer.greetingSent)
            || (spec.name != "ssh" && spec.direction == ClientFirst
                && (
                  || (peer.frame != "" && !peer.replySent && exists b :: b != "" && Answers(spec, peer.frame, b))
                  || exists i: nat :: i <= Rounds(spec, peer, 0) && Chokes(spec, FrameAt(peer, i))))
  {
    hide Rounds;
    if spec.respond.Some? && spec.respond.value(peer.frame).Reply? {
      assert Answers(spec, peer.frame, spec.respond.value(peer.frame).bytes);
    }
    if Chokes(spec, peer.frame) {
      assert Chokes(spec, FrameAt(peer, 0));
    }
    if k: nat :| k < Rounds(spec, peer, 0) && RaisesOn(spec, peer.later(k)) {
      assert Chokes(spec, FrameAt(peer, k + 1));
    }
    if i: nat :| i > 0 && i <= Rounds(spec, peer, 0) && Chokes(spec, FrameAt(peer, i)) {
      assert RaisesOn(spec, peer.later(i - 1));
    }
  }

  // -------------------------------------------------------------------------
  // The sniffer finds what the frame says
  // -------------------------------------------------------------------------

  predicate IsBlank(c: char) {
    c == ' ' || c == '\t' || c == '\r' || c == '\n'
  }

  lemma {:induction false} FirstTokenIff(frame: string, word: string)
    requires forall c :: c in word ==> !IsBlank(c)
    ensures FirstToken(frame) == word <==> BeginsWith(frame, word)
  {
    if frame != "" && !IsBlank(frame[0]) && word != "" {
      var token := FirstToken(frame[1..]);
      assert FirstToken(frame) == [frame[0]] + token;
      assert word == [word[0]] + word[1..];
      FirstTokenIff(frame[1..], word[1..]);
      assert BeginsWith(frame, word) <==> frame[0] == word[0] && BeginsWith(frame[1..], word[1..]) by {
        BeginsWithStep(frame, word);
      }
    }
  }

  lemma BeginsWithStep(frame: string, word: string)
    requires frame != "" && word != ""
    ensures BeginsWith(frame, word) <==> frame[0] == word[0] && BeginsWith(frame[1..], word[1..])
  {
    if frame[0] == word[0] && StandsAt(word[1..], frame[1..], 0) {
      assert forall k :: 1 <= k < |word| ==> frame[k] == frame[1..][k - 1] && word[k] == word[1..][k - 1];
    }
    if StandsAt(word, frame, 0) {
      assert forall k :: 0 <= k < |word| - 1 ==> frame[1..][k] == frame[0 + (k + 1)];
    }
  }

  predicate IsRedisWord(w: string) {
    |w| >= 4 && (forall c :: c in w ==> 'A' <= c <= 'Z') && !(w[0] == 'A' && w[1] == 'M')
  }

  predicate IsSmallWord(w: string) {
    |w| >= 3 && forall c :: c in w ==> 'a' <= c <= 'z' || c == '_'
  }

  /** No ZooKeeper word has the length of a memcached verb, but for the four letters of two verbs. */
  predicate IsZookeeperWord(w: string) {
    IsSmallWord(w) && (|w| == 4 || |w| >= 11) && w != "quit" && w != "gets"
  }

  predicate IsMemcachedWord(w: string) {
    IsSmallWord(w) && ((|w| != 4 && |w| < 11) || w == "quit" || w == "gets")
  }

  lemma RedisWords()
    ensures forall w :: w in REDIS_VERBS ==> IsRedisWord(w)
  {
  }

  lemma ZookeeperWords()
    ensures forall w :: w in ZOOKEEPER_4LW ==> IsZookeeperWord(w)
  {
    hide IsZookeeperWord;
    FirstWords();
    MoreWords();
    LastWords();
    assert ZOOKEEPER_4LW == ZOOKEEPER_4LW[..8] + ZOOKEEPER_4LW[8..16] + ZOOKEEPER_4LW[16..];
  }

  lemma FirstWords()
    ensures forall w :: w in ZOOKEEPER_4LW[..8] ==> IsZookeeperWord(w)
  {
    assert ZOOKEEPER_4LW[..8] == ["ruok", "stat", "srvr", "mntr", "conf", "dump", "envi", "cons"];
  }

  lemma MoreWords()
    ensures forall w :: w in ZOOKEEPER_4LW[8..16] ==> IsZookeeperWord(w)
  {
    assert ZOOKEEPER_4LW[8..16] == ["crst", "dirs", "isro", "wchs", "wchc", "wchp", "reqs", "kill"];
  }

  lemma LastWords()
    ensures forall w :: w in ZOOKEEPER_4LW[16..] ==> IsZookeeperWord(w)
  {
    assert ZOOKEEPER_4LW[16..] ==
           ["gtmk", "stmk", "hash", "printwatches", "environment", "gettracemask", "settracemask"];
  }

  lemma MemcachedWords()
    ensures forall w :: w in MEMCACHED_VERBS ==> IsMemcachedWord(w)
  {
  }

  lemma TokenIn(frame: string, verbs: seq<string>)
    requires forall verb :: verb in verbs ==> verb != "" && forall c :: c in verb ==> !IsBlank(c)
    ensures FirstToken(frame) in verbs <==> exists verb :: verb in verbs && BeginsWith(frame, verb)
  {
    forall verb | verb in verbs
      ensures FirstToken(frame) == verb <==> BeginsWith(frame, verb)
    {
      FirstTokenIff(frame, verb);
    }
  }

  /** The tests of the sniffer, one by one. */
  lemma SnifferTests(frame: string)
    ensures var token := FirstToken(frame);
            && (Speaks(frame, Redis) <==>
                token in REDIS_VERBS || (|frame| >= 2 && frame[0] == '*' && '0' <= frame[1] <= '9'))
            && (Speaks(frame, Zookeeper) <==> token in ZOOKEEPER_4LW)
            && (Speaks(frame, Amqp) <==> StartsWith(frame, "AMQP"))
            && (Speaks(frame, Memcached) <==> token in MEMCACHED_VERBS)
  {
    hide FirstToken, BeginsWith, REDIS_VERBS, ZOOKEEPER_4LW, MEMCACHED_VERBS;
    RedisWords();
    ZookeeperWords();
    MemcachedWords();
    TokenIn(frame, REDIS_VERBS);
    TokenIn(frame, ZOOKEEPER_4LW);
    TokenIn(frame, MEMCACHED_VERBS);
    StartsWithIff(frame, "AMQP");
  }

  lemma EpmdTests(frame: string)
    ensures Speaks(frame, Epmd) <==>
            || Contains(frame, "PORT_PLEASE2")
            || StartsWith(frame, ['\0', 2 as char, 'z'])
            || StartsWith(frame, ['\0', 1 as char, 'd'])
  {
    hide Contains;
    ContainsIff(frame, "PORT_PLEASE2");
    ThreeBytes(frame, '\0', 2 as char, 'z');
    ThreeBytes(frame, '\0', 1 as char, 'd');
  }

  lemma ThreeBytes(frame: string, a: char, b: char, c: char)
    ensures StartsWith(frame, [a, b, c]) <==> |frame| >= 3 && frame[0] == a && frame[1] == b && frame[2] == c
  {
    if |frame| >= 3 {
      assert frame[..3] == [frame[0], frame[1], frame[2]];
    }
  }

  /** What a token in one of the three lists looks like, in the first two bytes of the frame. */
  lemma TokenClasses(frame: string)
    ensures var token := FirstToken(frame);
            && (token in REDIS_VERBS ==>
                  |frame| >= 2 && 'A' <= frame[0] <= 'Z' && !(frame[0] == 'A' && frame[1] == 'M'))
            && (token in ZOOKEEPER_4LW ==> frame != "" && (frame[0] == '_' || 'a' <= frame[0] <= 'z'))
            && (token in MEMCACHED_VERBS ==> frame != "" && (frame[0] == '_' || 'a' <= frame[0] <= 'z'))
            && !(token in ZOOKEEPER_4LW && token in MEMCACHED_VERBS)
  {
    hide FirstToken, REDIS_VERBS, ZOOKEEPER_4LW, MEMCACHED_VERBS;
    RedisWords();
    ZookeeperWords();
    MemcachedWords();
    var token := FirstToken(frame);
    if token != "" {
      TokenStartsFrame(frame);
      assert token[0] in token;
    }
  }

  lemma AmqpHeader(frame: string)
    ensures StartsWith(frame, "AMQP") ==> |frame| >= 2 && frame[0] == 'A' && frame[1] == 'M'
  {
    if StartsWith(frame, "AMQP") {
      assert frame[0] == frame[..4][0] && frame[1] == frame[..4][1];
    }
  }

  lemma TokenStartsFrame(frame: string)
    requires FirstToken(frame) != ""
    ensures frame != "" && FirstToken(frame)[0] == frame[0]
    ensures |FirstToken(frame)| > 1 ==> |frame| > 1 && FirstToken(frame)[1] == frame[1]
  {
  }

  /** The sniffer names the protocol a frame speaks, and none for a frame that speaks none. */
  lemma SnifferIsRight(frame: string, p: Protocol)
    ensures Says(frame, p) ==> SniffNonHttpProtocol(frame) == Some(Sniff(NameOf(p), SentinelOf(p)))
    ensures (forall q :: !Speaks(frame, q)) ==> SniffNonHttpProtocol(frame) == None
  {
    hide FirstToken, Speaks, Contains, StartsWith, REDIS_VERBS, ZOOKEEPER_4LW, MEMCACHED_VERBS;
    SnifferTests(frame);
    EpmdTests(frame);
    TokenClasses(frame);
    AmqpHeader(frame);
    SaysNothingWhenEmpty(p);
  }

  lemma SaysNothingWhenEmpty(p: Protocol)
    ensures !Speaks("", p)
  {
    hide REDIS_VERBS, ZOOKEEPER_4LW, MEMCACHED_VERBS;
    RedisWords();
    ZookeeperWords();
    MemcachedWords();
  }

  lemma MarksAreFound(frame: string)
    ensures IsNextJsProbe(frame) <==> BearsNextJsMark(frame)
  {
    hide Contains, LowerAscii;
    LowerIsItself("x-middleware-subrequest");
    LowerIsItself("next_redirect");
    ContainsInAnyCaseIff(frame, "x-middleware-subrequest");
    ContainsInAnyCaseIff(frame, "next_redirect");
    ContainsIff(frame, "$@0");
    ContainsIff(frame, "__proto__:then");
  }

  lemma NamesAreDifferent(p: Protocol, q: Protocol)
    ensures NameOf(p) == NameOf(q) ==> p == q
    ensures NameOf(p) != "ssh"
  {
  }

  lemma SomeProtocolOrNone(frame: string)
    ensures (exists p :: Says(frame, p)) || forall q :: !Speaks(frame, q)
  {
    hide Speaks;
    if q :| Speaks(frame, q) {
      if !Says(frame, q) {
        var other :| Speaks(frame, other) && !other.Epmd?;
        assert Says(frame, other);
      } else {
        assert Says(frame, q);
      }
    }
  }

  lemma ForeignIff(spec: FaceSpec, frame: string)
    ensures IsForeign(spec, frame) <==> ProtocolMismatchDetectedId(frame, spec.name) != None
  {
    hide Says, Speaks, SniffNonHttpProtocol, NameOf;
    forall p
      ensures Says(frame, p) ==> SniffNonHttpProtocol(frame) == Some(Sniff(NameOf(p), SentinelOf(p)))
    {
      SnifferIsRight(frame, p);
    }
    SnifferIsRight(frame, Redis);
    SomeProtocolOrNone(frame);
  }

  /** The decision all branches share gives every frame the id it calls for. */
  lemma AttributionIsRight(spec: FaceSpec, frame: string, isHttp: bool)
    ensures IsRightId(spec, frame, isHttp, Attribution(spec, frame, isHttp))
  {
    hide Says, Speaks, SniffNonHttpProtocol, IsNextJsProbe, BearsNextJsMark, NameOf;
    MarksAreFound(frame);
    forall p
      ensures Says(frame, p) ==> SniffNonHttpProtocol(frame) == Some(Sniff(NameOf(p), SentinelOf(p)))
      ensures (forall q :: !Speaks(frame, q)) ==> SniffNonHttpProtocol(frame) == None
    {
      SnifferIsRight(frame, p);
    }
    SnifferIsRight(frame, Redis);
  }
}
