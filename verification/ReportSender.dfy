/** Report delivery (manyfaced/client/report_sender.py) and the split of the message on the other
    side (`parse_message`, manyfaced/handlers/base_handler.py). */
module ReportSender {
  import opened Wrappers

  const MAX_RETRIES: nat := 5
  const RETRY_DELAY: nat := 2
  const BACKOFF_FACTOR: nat := 2

  /** One attempt: the server answered (with whatever status), the socket failed, the answer was
      not text, or the user interrupted. */
  datatype Attempt = Answered(ok: bool) | SocketFailed | Undecodable | Interrupted

  datatype Outcome = Sent | Dumped | Raised

  class Sender {
    var sleeps: seq<nat>
    var dumps: nat

    constructor ()
      ensures sleeps == [] && dumps == 0
    {
      sleeps, dumps := [], 0;
    }

    /** The retry loop. `made` is the number of attempts. */
    method SendReport(script: nat -> Attempt) returns (outcome: Outcome, made: nat)
      modifies this
      ensures 1 <= made <= MAX_RETRIES && made == Attempts(script, 1)
      ensures forall a: nat :: 1 <= a < made ==> script(a) == SocketFailed
      ensures outcome == Ending(script(made))
      ensures made < MAX_RETRIES ==> script(made) != SocketFailed
      ensures sleeps == old(sleeps) + Delays(made - 1)
      ensures dumps == old(dumps) + if outcome == Dumped then 1 else 0
    {
      var delay := RETRY_DELAY;
      made := 1;
      outcome := Dumped;
      while made <= MAX_RETRIES
        invariant 1 <= made <= MAX_RETRIES
        invariant Attempts(script, 1) == Attempts(script, made)
        invariant forall a: nat :: 1 <= a < made ==> script(a) == SocketFailed
        invariant delay == DelayBefore(made) && sleeps == old(sleeps) + Delays(made - 1) && dumps == old(dumps)
        decreases MAX_RETRIES - made
      {
        match script(made) {
          case Answered(_) => outcome := Sent; return;
          case Undecodable => outcome := Raised; return;
          case Interrupted => outcome := Raised; return;
          case SocketFailed =>
            if made == MAX_RETRIES {
              dumps := dumps + 1;
              return;
            }
            sleeps := sleeps + [delay];
            delay := delay * BACKOFF_FACTOR;
            made := made + 1;
        }
      }
    }
  }

  function Ending(a: Attempt): Outcome {
    match a
    case Answered(_) => Sent
    case SocketFailed => Dumped
    case Undecodable => Raised
    case Interrupted => Raised
  }

  /** The attempt that ends the loop: the first that is not a socket failure, or the fifth. */
  function Attempts(script: nat -> Attempt, from: nat): nat
    decreases MAX_RETRIES - from
  {
    if from >= MAX_RETRIES || script(from) != SocketFailed then from else Attempts(script, from + 1)
  }

  /** The pause after attempt k would be 2 * 2^(k-1) seconds. */
  function DelayBefore(k: nat): nat {
    if k <= 1 then RETRY_DELAY else DelayBefore(k - 1) * BACKOFF_FACTOR
  }

  function Delays(n: nat): seq<nat> {
    if n == 0 then [] else Delays(n - 1) + [DelayBefore(n)]
  }

  function Sum(s: seq<nat>): nat {
    if s == [] then 0 else Sum(s[..|s| - 1]) + s[|s| - 1]
  }

  /** The pauses are 2, 4, 8 and 16 seconds, as many as there are failed attempts before the last,
      and never more than 30 seconds together. */
  lemma {:induction false} PausesAreBounded(n: nat)
    requires n < MAX_RETRIES
    ensures Delays(n) <= [2, 4, 8, 16] && |Delays(n)| == n && Sum(Delays(n)) <= 30
    ensures Sum(Delays(n)) + 2 == DelayBefore(n + 1)
  {
    DelaysFrom(n);
    hide Delays;
    if n > 0 {
      PausesAreBounded(n - 1);
      assert Delays(n)[..n - 1] == Delays(n - 1);
      assert DelayBefore(2) == 4 && DelayBefore(3) == 8 && DelayBefore(4) == 16;
    }
  }

  lemma DelaysFrom(n: nat)
    ensures Delays(n) == if n == 0 then [] else Delays(n - 1) + [DelayBefore(n)]
  {
  }

  /** The report is dumped exactly when all five attempts meet a socket failure; any answer, even a
      refusal, counts as sent. */
  lemma DumpedIffAllFail(script: nat -> Attempt)
    ensures Ending(script(Attempts(script, 1))) == Dumped <==>
            forall a: nat :: 1 <= a <= MAX_RETRIES ==> script(a) == SocketFailed
  {
    AttemptsIsFirst(script, 1);
  }

  lemma {:induction false} AttemptsIsFirst(script: nat -> Attempt, from: nat)
    requires 1 <= from <= MAX_RETRIES
    ensures from <= Attempts(script, from) <= MAX_RETRIES
    ensures forall a: nat :: from <= a < Attempts(script, from) ==> script(a) == SocketFailed
    ensures Attempts(script, from) < MAX_RETRIES ==> script(Attempts(script, from)) != SocketFailed
    decreases MAX_RETRIES - from
  {
    if from < MAX_RETRIES && script(from) == SocketFailed {
      AttemptsIsFirst(script, from + 1);
    }
  }

  // -------------------------------------------------------------------------
  // The message
  // -------------------------------------------------------------------------

  /** The identifier is the sensor's, or the client address when there is none. */
  function Identifier(sensor: Option<string>, client: string): string {
    if sensor != None && sensor.value != "" then sensor.value else client
  }

  function Message(identifier: string, ciphertext: string): string {
    identifier + ":" + ciphertext
  }

  /** `message.split(':', 1)`; None is the ValueError. */
  function ParseMessage(message: string): Option<(string, string)> {
    if message == "" then None
    else if message[0] == ':' then Some(("", message[1..]))
    else
      match ParseMessage(message[1..])
      case None => None
      case Some(pair) => Some(([message[0]] + pair.0, pair.1))
  }

  /** The receiver recovers exactly what the sender joined, for every ciphertext, if and only if
      the identifier has no colon. An IPv6 client address without a sensor id has. */
  lemma {:induction false} MessageRoundTripIff(identifier: string, ciphertext: string)
    ensures ParseMessage(Message(identifier, ciphertext)) == Some((identifier, ciphertext)) <==> ':' !in identifier
    ensures ParseMessage(Message(identifier, ciphertext)).Some?
  {
    var message := Message(identifier, ciphertext);
    if identifier == "" {
      assert message == [':'] + ciphertext;
    } else {
      assert message[0] == identifier[0] && message[1..] == Message(identifier[1..], ciphertext);
      MessageRoundTripIff(identifier[1..], ciphertext);
      assert identifier == [identifier[0]] + identifier[1..];
      if identifier[0] != ':' {
        var pair := ParseMessage(message[1..]).value;
        assert ([message[0]] + pair.0)[1..] == pair.0;
      }
    }
  }

  /** For the report itself: a sensor id without a colon is enough; without a sensor id the client
      address must have none, which an IPv6 address does. */
  lemma ReportRoundTripIff(sensor: Option<string>, client: string, ciphertext: string)
    ensures var identifier := Identifier(sensor, client);
            ParseMessage(Message(identifier, ciphertext)) == Some((identifier, ciphertext))
            <==> if sensor == None || sensor.value == "" then ':' !in client else ':' !in sensor.value
  {
    MessageRoundTripIff(Identifier(sensor, client), ciphertext);
  }

  /** Parsing loses nothing: whatever it accepts is the join of what it returns. */
  lemma {:induction false} ParsedMessageJoins(message: string)
    ensures match ParseMessage(message)
            case None => ':' !in message
            case Some(pair) => message == Message(pair.0, pair.1) && ':' !in pair.0
  {
    if message != "" && message[0] != ':' {
      ParsedMessageJoins(message[1..]);
      assert message == [message[0]] + message[1..];
    } else if message != "" {
      assert message == [':'] + message[1..];
    }
  }
}
