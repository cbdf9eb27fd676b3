/** The SSH credential parser (manyfaced/client/ssh_creds.py): binary packets as in section 6 of
    RFC 4253, strings as in section 5 of RFC 4251, the password request of section 8 of RFC 4252. */
module SshFrames {
  import opened Wrappers

  type byte = x: int | 0 <= x < 256
  type bytes = seq<byte>

  const MAX_PACKET: nat := 4096
  const USERAUTH_REQUEST: byte := 0x32
  const PASSWORD: bytes := [112, 97, 115, 115, 119, 111, 114, 100]

  /** What a capture reports: "user=..." or "user=..., pass=...". */
  datatype Capture = UserOnly(user: bytes) | UserPass(user: bytes, password: bytes)

  // -------------------------------------------------------------------------
  // The parser
  // -------------------------------------------------------------------------

  function U32(data: bytes, off: nat): nat
    requires off + 4 <= |data|
  {
    var b0: nat, b1: nat, b2: nat, b3: nat := data[off], data[off + 1], data[off + 2], data[off + 3];
    b0 * 0x100_0000 + b1 * 0x1_0000 + b2 * 0x100 + b3
  }

  /** `_read_string`: a failed read leaves the position behind the length field it consumed. */
  function ReadString(buf: bytes, p: nat): (Option<bytes>, nat)
  {
    if p + 4 > |buf| then (None, p)
    else
      var len := U32(buf, p);
      if p + 4 + len > |buf| then (None, p + 4)
      else (Some(buf[p + 4..p + 4 + len]), p + 4 + len)
  }

  function ParseUserAuth(payload: bytes): Option<Capture> {
    var (user, afterUser) := ReadString(payload, 0);
    if user == None then None
    else
      var (_, afterService) := ReadString(payload, afterUser);
      var (authMethod, pos) := ReadString(payload, afterService);
      if authMethod == Some(PASSWORD) && pos < |payload| && payload[pos] == 1 then
        match ReadString(payload, pos + 1).0
        case Some(password) => Some(UserPass(user.value, password))
        case None => Some(UserOnly(user.value))
      else Some(UserOnly(user.value))
  }

  /** What the walker finds at one offset. */
  datatype Look = End | Skip | Packet(next: nat)

  function LookAt(data: bytes, off: nat): (look: Look)
    ensures look.Packet? ==> off + 4 < look.next <= |data|
  {
    if off + 4 > |data| then End
    else
      var len := U32(data, off);
      if len == 0 || len > MAX_PACKET then Skip
      else if off + 4 + len > |data| then End
      else Packet(off + 4 + len)
  }

  /** The payload of the packet at `off` starts with message 50. */
  predicate IsUserAuth(data: bytes, off: nat, next: nat)
    requires next <= |data|
  {
    off + 5 < next && data[off + 5] == USERAUTH_REQUEST
  }

  function Walk(data: bytes, off: nat): Option<Capture>
    requires off <= |data|
    decreases |data| - off
  {
    match LookAt(data, off)
    case End => None
    case Skip => Walk(data, off + 1)
    case Packet(next) =>
      if IsUserAuth(data, off, next) then ParseUserAuth(data[off + 6..next]) else Walk(data, next)
  }

  method ParseBinaryProtocol(data: bytes) returns (creds: Option<Capture>)
    ensures creds == Walk(data, 0)
  {
    hide U32, ParseUserAuth;
    var off := 0;
    var n := |data|;
    while off + 4 <= n
      invariant off <= n
      invariant Walk(data, 0) == Walk(data, off)
    {
      var len := U32(data, off);
      if len <= 0 || len > MAX_PACKET {
        off := off + 1;
        continue;
      }
      var end := off + 4 + len;
      if end > n {
        break;
      }
      var payload := data[off + 5..end];
      if payload != [] && payload[0] == USERAUTH_REQUEST {
        assert payload[1..] == data[off + 6..end];
        creds := ParseUserAuthRequest(payload[1..]);
        return;
      }
      off := end;
    }
    creds := None;
  }

  method ParseUserAuthRequest(payload: bytes) returns (creds: Option<Capture>)
    ensures creds == ParseUserAuth(payload)
  {
    var pos := 0;
    var user, ignored, authMethod, password;
    user, pos := ReadStringAt(payload, pos);
    if user == None {
      return None;
    }
    ignored, pos := ReadStringAt(payload, pos);
    authMethod, pos := ReadStringAt(payload, pos);
    if authMethod == None {
      return Some(UserOnly(user.value));
    }
    if authMethod.value == PASSWORD && pos < |payload| {
      var hasPassword := payload[pos];
      pos := pos + 1;
      if hasPassword == 1 {
        password, pos := ReadStringAt(payload, pos);
        if password != None {
          return Some(UserPass(user.value, password.value));
        }
      }
    }
    return Some(UserOnly(user.value));
  }

  method ReadStringAt(buf: bytes, p: nat) returns (s: Option<bytes>, next: nat)
    ensures (s, next) == ReadString(buf, p)
    ensures s == None || next <= |buf|
  {
    if p + 4 > |buf| {
      return None, p;
    }
    var len := U32(buf, p);
    next := p + 4;
    if next + len > |buf| {
      return None, next;
    }
    return Some(buf[next..next + len]), next + len;
  }

  // -------------------------------------------------------------------------
  // The encoder
  // -------------------------------------------------------------------------

  function BigEndian(n: nat, width: nat): (e: bytes)
    ensures |e| == width
  {
    if width == 0 then [] else BigEndian(n / 0x100, width - 1) + [n % 0x100]
  }

  function EncodeU32(n: nat): (e: bytes)
    requires n < 0x1_0000_0000
    ensures |e| == 4
  {
    BigEndian(n, 4)
  }

  function EncodeString(s: bytes): bytes
    requires |s| < 0x1_0000_0000
  {
    EncodeU32(|s|) + s
  }

  predicate IsPacketBody(body: bytes) {
    1 <= |body| <= 4096
  }

  /** The body of a packet after its length field: one padding-length byte, then the rest. */
  function EncodePacket(body: bytes): bytes
    requires IsPacketBody(body)
  {
    EncodeU32(|body|) + body
  }

  /** The first byte after the padding length says message 50. */
  predicate IsAuthBody(body: bytes) {
    |body| > 1 && body[1] == USERAUTH_REQUEST
  }

  function EncodePackets(bodies: seq<bytes>): bytes
    requires forall i :: 0 <= i < |bodies| ==> IsPacketBody(bodies[i])
  {
    if bodies == [] then [] else EncodePacket(bodies[0]) + EncodePackets(bodies[1..])
  }

  predicate Fits(s: bytes) {
    |s| < 0x1_0000_0000
  }

  function EncodeRequest(user: bytes, service: bytes, flag: byte, password: bytes): bytes
    requires Fits(user) && Fits(service) && Fits(password)
  {
    EncodeString(user) + (EncodeString(service) + (EncodeString(PASSWORD) + ([flag] + EncodeString(password))))
  }

  // -------------------------------------------------------------------------
  // Encoded bytes in place
  // -------------------------------------------------------------------------

  /** The bytes `s` stand in `data` at offset `off`. */
  predicate At(data: bytes, off: nat, s: bytes) {
    off + |s| <= |data| && data[off..off + |s|] == s
  }

  lemma AtSplits(data: bytes, off: nat, a: bytes, b: bytes)
    requires At(data, off, a + b)
    ensures At(data, off, a) && At(data, off + |a|, b)
  {
    var s := data[off..off + |a + b|];
    assert s[..|a|] == a && s[|a|..] == b;
  }

  lemma ReadsU32(data: bytes, off: nat, n: nat)
    requires n < 0x1_0000_0000 && At(data, off, EncodeU32(n))
    ensures U32(data, off) == n
  {
    var e := data[off..off + 4];
    assert data[off] == e[0] && data[off + 1] == e[1] && data[off + 2] == e[2] && data[off + 3] == e[3];
    var q, r := n / 0x100, n / 0x100 / 0x100;
    var t := r / 0x100;
    assert e[3] == n % 0x100 && e[..3] == BigEndian(q, 3);
    assert e[2] == q % 0x100 && e[..2] == BigEndian(r, 2) by { assert e[..3][2] == e[2]; assert e[..3][..2] == e[..2]; }
    assert e[1] == r % 0x100 && e[..1] == BigEndian(t, 1) by { assert e[..2][1] == e[1]; assert e[..2][..1] == e[..1]; }
    assert e[0] == t % 0x100 by { assert e[..1][0] == e[0]; }
  }

  lemma ReadsString(data: bytes, off: nat, s: bytes)
    requires Fits(s) && At(data, off, EncodeString(s))
    ensures ReadString(data, off) == (Some(s), off + |EncodeString(s)|)
  {
    AtSplits(data, off, EncodeU32(|s|), s);
    ReadsU32(data, off, |s|);
  }

  // -------------------------------------------------------------------------
  // What a payload says
  // -------------------------------------------------------------------------

  /** The encoding of `s` stands in `buf` at offset `p`. */
  predicate StringAt(buf: bytes, p: nat, s: bytes) {
    Fits(s) && At(buf, p, EncodeString(s))
  }

  /** Where the method name is looked for after the user's name: behind the service, behind its
      length field when the service is cut off, or at the service when that field is. */
  ghost predicate MethodFrom(payload: bytes, user: bytes, m: nat) {
    var p := 4 + |user|;
    || (exists service :: StringAt(payload, p, service) && m == p + 4 + |service|)
    || ((forall service :: !StringAt(payload, p, service)) && m == if p + 4 <= |payload| then p + 4 else p)
  }

  /** The bytes at `m` are the method "password", a flag of 1 and the password. */
  predicate PasswordAt(buf: bytes, m: nat, password: bytes) {
    Fits(password) && At(buf, m, EncodeString(PASSWORD) + ([1] + EncodeString(password)))
  }

  /** The payload holds the user's name, a service, the method "password", a flag of 1 and the password. */
  ghost predicate SaysPassword(payload: bytes, user: bytes, password: bytes) {
    && StringAt(payload, 0, user)
    && exists m: nat :: MethodFrom(payload, user, m) && PasswordAt(payload, m, password)
  }

  lemma U32Encodes(buf: bytes, p: nat)
    requires p + 4 <= |buf|
    ensures U32(buf, p) < 0x1_0000_0000 && At(buf, p, EncodeU32(U32(buf, p)))
  {
    var b0: nat, b1: nat, b2: nat, b3: nat := buf[p], buf[p + 1], buf[p + 2], buf[p + 3];
    var n2, n1 := (b0 * 0x100 + b1) * 0x100 + b2, b0 * 0x100 + b1;
    var n := U32(buf, p);
    assert n == n2 * 0x100 + b3;
    assert n / 0x100 == n2 && n % 0x100 == b3;
    assert n2 / 0x100 == n1 && n2 % 0x100 == b2;
    assert n1 / 0x100 == b0 && n1 % 0x100 == b1;
    assert BigEndian(b0, 1) == [buf[p]];
    assert BigEndian(n1, 2) == [buf[p], buf[p + 1]];
    assert BigEndian(n2, 3) == [buf[p], buf[p + 1], buf[p + 2]];
    assert EncodeU32(n) == [buf[p], buf[p + 1], buf[p + 2], buf[p + 3]];
  }

  /** A read succeeds exactly on an encoded string. */
  lemma ReadsIff(buf: bytes, p: nat, s: bytes)
    ensures ReadString(buf, p).0 == Some(s) <==> StringAt(buf, p, s)
    ensures StringAt(buf, p, s) ==> ReadString(buf, p).1 == p + 4 + |s|
  {
    if StringAt(buf, p, s) {
      ReadsString(buf, p, s);
    }
    if ReadString(buf, p).0 == Some(s) {
      U32Encodes(buf, p);
      hide U32, BigEndian;
      assert buf[p..p + 4 + |s|] == buf[p..p + 4] + s;
    }
  }

  lemma MethodIsAfterService(payload: bytes, user: bytes, m: nat)
    ensures MethodFrom(payload, user, m) <==> m == ReadString(payload, 4 + |user|).1
  {
    hide At, EncodeString, U32;
    var p := 4 + |user|;
    forall s
      ensures ReadString(payload, p).0 == Some(s) <==> StringAt(payload, p, s)
      ensures StringAt(payload, p, s) ==> ReadString(payload, p).1 == p + 4 + |s|
    {
      ReadsIff(payload, p, s);
    }
    hide StringAt;
    if ReadString(payload, p).0 != None {
      assert StringAt(payload, p, ReadString(payload, p).0.value);
    }
  }

  lemma PasswordAtReads(buf: bytes, m: nat, password: bytes)
    ensures PasswordAt(buf, m, password) <==>
            var (authMethod, end) := ReadString(buf, m);
            authMethod == Some(PASSWORD) && end < |buf| && buf[end] == 1
            && ReadString(buf, end + 1).0 == Some(password)
  {
    var e := EncodeString(PASSWORD);
    var end := m + |e|;
    ReadsIff(buf, m, PASSWORD);
    ReadsIff(buf, end + 1, password);
    hide ReadString, BigEndian, EncodeU32;
    if PasswordAt(buf, m, password) {
      AtSplits(buf, m, e, [1] + EncodeString(password));
      AtSplits(buf, end, [1], EncodeString(password));
      assert buf[end..end + 1][0] == 1;
    }
    if StringAt(buf, m, PASSWORD) && end < |buf| && buf[end] == 1 && StringAt(buf, end + 1, password) {
      AtJoins(buf, end, [1], EncodeString(password));
      AtJoins(buf, m, e, [1] + EncodeString(password));
    }
  }

  lemma AtJoins(data: bytes, off: nat, a: bytes, b: bytes)
    requires At(data, off, a) && At(data, off + |a|, b)
    ensures At(data, off, a + b)
  {
    assert data[off..off + |a + b|] == data[off..off + |a|] + data[off + |a|..off + |a| + |b|];
  }

  lemma ByteAt(data: bytes, off: nat, b: byte)
    requires At(data, off, [b])
    ensures off < |data| && data[off] == b
  {
    assert data[off..off + 1][0] == b;
  }

  lemma PasswordAtParts(buf: bytes, m: nat, password: bytes)
    requires PasswordAt(buf, m, password)
    ensures At(buf, m, EncodeString(PASSWORD)) && At(buf, m + |EncodeString(PASSWORD)|, [1])
  {
    hide At, BigEndian, EncodeU32;
    var e := EncodeString(PASSWORD);
    AtSplits(buf, m, e, [1] + EncodeString(password));
    AtSplits(buf, m + |e|, [1], EncodeString(password));
  }

  /** A user and a password are reported exactly when the payload says so. */
  lemma ReportsPasswordIff(payload: bytes, user: bytes, password: bytes)
    ensures ParseUserAuth(payload) == Some(UserPass(user, password)) <==> SaysPassword(payload, user, password)
  {
    hide ReadString, StringAt, MethodFrom, PasswordAt;
    ReadsIff(payload, 0, user);
    if StringAt(payload, 0, user) {
      var m := ReadString(payload, 4 + |user|).1;
      forall n: nat
        ensures MethodFrom(payload, user, n) <==> n == m
      {
        MethodIsAfterService(payload, user, n);
      }
      PasswordAtReads(payload, m, password);
    }
  }

  /** Only the user is reported exactly when the user's name can be read and no password stands
      where the method name is looked for. */
  lemma ReportsUserIff(payload: bytes, user: bytes)
    ensures ParseUserAuth(payload) == Some(UserOnly(user)) <==>
            StringAt(payload, 0, user) && forall p :: !SaysPassword(payload, user, p)
  {
    hide ReadString, StringAt, SaysPassword;
    ReadsIff(payload, 0, user);
    forall p
      ensures ParseUserAuth(payload) == Some(UserPass(user, p)) <==> SaysPassword(payload, user, p)
    {
      ReportsPasswordIff(payload, user, p);
    }
  }

  /** An encoded user and service, and what follows them. */
  lemma EncodedNames(payload: bytes, user: bytes, service: bytes, tail: bytes)
    requires Fits(user) && Fits(service)
    requires At(payload, 0, EncodeString(user) + (EncodeString(service) + tail))
    ensures StringAt(payload, 0, user)
    ensures forall m: nat :: MethodFrom(payload, user, m) <==> m == 8 + |user| + |service|
    ensures At(payload, 8 + |user| + |service|, tail)
  {
    hide At, BigEndian, EncodeU32, MethodFrom;
    var p := 4 + |user|;
    AtSplits(payload, 0, EncodeString(user), EncodeString(service) + tail);
    AtSplits(payload, p, EncodeString(service), tail);
    ReadsIff(payload, p, service);
    hide ReadString;
    forall m: nat
      ensures MethodFrom(payload, user, m) <==> m == ReadString(payload, p).1
    {
      MethodIsAfterService(payload, user, m);
    }
  }

  /** When no password stands behind an encoded user and service, the user is all there is. */
  lemma NoPasswordThere(payload: bytes, user: bytes, service: bytes, tail: bytes, m: nat)
    requires Fits(user) && Fits(service) && m == 8 + |user| + |service|
    requires At(payload, 0, EncodeString(user) + (EncodeString(service) + tail))
    requires forall p :: !PasswordAt(payload, m, p)
    ensures ParseUserAuth(payload) == Some(UserOnly(user))
  {
    hide At, StringAt, MethodFrom, PasswordAt, ParseUserAuth, EncodeString;
    EncodedNames(payload, user, service, tail);
    ReportsUserIff(payload, user);
  }

  /** Decoding inverts encoding for every password request, whatever follows it; the password is
      only reported when the flag byte is 1. */
  lemma RequestRoundTrip(payload: bytes, user: bytes, service: bytes, flag: byte, password: bytes)
    requires Fits(user) && Fits(service) && Fits(password)
    requires At(payload, 0, EncodeRequest(user, service, flag, password))
    ensures ParseUserAuth(payload) == Some(if flag == 1 then UserPass(user, password) else UserOnly(user))
  {
    hide At, StringAt, MethodFrom, ParseUserAuth, BigEndian, EncodeU32;
    var m := 8 + |user| + |service|;
    var e := EncodeString(PASSWORD);
    var tail := e + ([flag] + EncodeString(password));
    EncodedNames(payload, user, service, tail);
    if flag == 1 {
      assert MethodFrom(payload, user, m) && PasswordAt(payload, m, password);
      ReportsPasswordIff(payload, user, password);
    } else {
      AtSplits(payload, m, e, [flag] + EncodeString(password));
      AtSplits(payload, m + |e|, [flag], EncodeString(password));
      hide PasswordAt;
      forall p
        ensures !PasswordAt(payload, m, p)
      {
        OtherFlag(payload, m, flag, p);
      }
      NoPasswordThere(payload, user, service, tail, m);
    }
  }

  lemma OtherFlag(payload: bytes, m: nat, flag: byte, password: bytes)
    requires flag != 1 && At(payload, m + |EncodeString(PASSWORD)|, [flag])
    ensures !PasswordAt(payload, m, password)
  {
    hide BigEndian, EncodeU32, At, PasswordAt;
    ByteAt(payload, m + |EncodeString(PASSWORD)|, flag);
    if PasswordAt(payload, m, password) {
      PasswordAtParts(payload, m, password);
      ByteAt(payload, m + |EncodeString(PASSWORD)|, 1);
    }
  }

  /** What follows the service name is not the method "password": another method with anything after
      it, or a request that ends before its method does. */
  predicate NoPassword(tail: bytes) {
    !(EncodeString(PASSWORD) <= tail)
  }

  lemma OtherMethodIsNoPassword(authMethod: bytes, rest: bytes)
    requires Fits(authMethod) && authMethod != PASSWORD
    ensures NoPassword(EncodeString(authMethod) + rest)
  {
    hide BigEndian, EncodeU32, U32;
    var data := EncodeString(authMethod) + rest;
    assert At(data, 0, data);
    AtSplits(data, 0, EncodeString(authMethod), rest);
    ReadsIff(data, 0, authMethod);
    ReadsIff(data, 0, PASSWORD);
  }

  /** Such a request names the user and nothing else. */
  lemma OtherRequestNamesTheUser(payload: bytes, user: bytes, service: bytes, tail: bytes)
    requires Fits(user) && Fits(service) && NoPassword(tail)
    requires payload == EncodeString(user) + (EncodeString(service) + tail)
    ensures ParseUserAuth(payload) == Some(UserOnly(user))
  {
    hide ParseUserAuth, BigEndian, EncodeU32, PasswordAt;
    var m := 8 + |user| + |service|;
    assert payload[m..] == tail;
    forall p
      ensures !PasswordAt(payload, m, p)
    {
      if PasswordAt(payload, m, p) {
        PasswordAtParts(payload, m, p);
        PrefixOfTail(payload, m, EncodeString(PASSWORD));
      }
    }
    NoPasswordThere(payload, user, service, tail, m);
  }

  lemma PrefixOfTail(data: bytes, m: nat, s: bytes)
    requires At(data, m, s)
    ensures m <= |data| && s <= data[m..]
  {
    assert data[m..][..|s|] == data[m..m + |s|];
  }

  // -------------------------------------------------------------------------
  // The whole walk
  // -------------------------------------------------------------------------

  lemma FindsPacket(data: bytes, off: nat, body: bytes)
    requires IsPacketBody(body) && At(data, off, EncodePacket(body))
    ensures var next := off + |EncodePacket(body)|;
            && LookAt(data, off) == Packet(next)
            && (IsUserAuth(data, off, next) <==> IsAuthBody(body))
            && (IsAuthBody(body) ==> data[off + 6..next] == body[2..])
  {
    AtSplits(data, off, EncodeU32(|body|), body);
    ReadsU32(data, off, |body|);
    var found := data[off + 4..off + 4 + |body|];
    assert |body| > 1 ==> found[1] == data[off + 5];
    assert |body| > 1 ==> found[2..] == data[off + 6..off + 4 + |body|];
  }

  /** Bytes at which no length from 1 to 4096 can be read are stepped over one by one. */
  lemma {:induction false} NoiseIsSkipped(data: bytes, off: nat, n: nat)
    requires off <= n && n + 3 <= |data|
    requires forall i :: off <= i < n ==> !(1 <= U32(data, i) <= 4096)
    ensures Walk(data, off) == Walk(data, n)
    decreases n - off
  {
    hide U32;
    if off < n {
      assert LookAt(data, off) == Skip;
      NoiseIsSkipped(data, off + 1, n);
    }
  }

  /** A NUL-free banner is skipped byte by byte: no length field that starts in it is plausible. */
  lemma BannerIsSkipped(data: bytes, off: nat, n: nat)
    requires off <= n && n + 3 <= |data| && forall i :: off <= i < n ==> data[i] != 0
    ensures Walk(data, off) == Walk(data, n)
  {
    NoiseIsSkipped(data, off, n);
  }

  /** With no room for a length field behind a NUL-free stretch there is nothing to find. */
  lemma {:induction false} NothingAfterBanner(data: bytes, off: nat, n: nat)
    requires off <= |data| < n + 4 && forall i :: off <= i < n && i < |data| ==> data[i] != 0
    ensures Walk(data, off) == None
    decreases |data| - off
  {
    if off + 4 <= |data| {
      assert LookAt(data, off) == Skip;
      NothingAfterBanner(data, off + 1, n);
    }
  }

  /** The packets of `bodies` fill `data` from `off` to `end`. */
  predicate PacketsAt(data: bytes, off: nat, bodies: seq<bytes>, end: nat)
    decreases bodies
  {
    if bodies == [] then off == end
    else
      && IsPacketBody(bodies[0])
      && At(data, off, EncodePacket(bodies[0]))
      && PacketsAt(data, off + |EncodePacket(bodies[0])|, bodies[1..], end)
  }

  lemma {:induction false} EncodedPacketsAt(data: bytes, off: nat, bodies: seq<bytes>)
    requires forall i :: 0 <= i < |bodies| ==> IsPacketBody(bodies[i])
    requires At(data, off, EncodePackets(bodies))
    ensures PacketsAt(data, off, bodies, off + |EncodePackets(bodies)|)
    decreases bodies
  {
    if bodies != [] {
      AtSplits(data, off, EncodePacket(bodies[0]), EncodePackets(bodies[1..]));
      EncodedPacketsAt(data, off + |EncodePacket(bodies[0])|, bodies[1..]);
    }
  }

  lemma {:induction false} OtherPacketsAreSkipped(data: bytes, off: nat, bodies: seq<bytes>, end: nat)
    requires PacketsAt(data, off, bodies, end) && off <= end <= |data|
    requires forall i :: 0 <= i < |bodies| ==> !IsAuthBody(bodies[i])
    ensures Walk(data, off) == Walk(data, end)
    decreases bodies
  {
    hide At, EncodePacket, IsUserAuth;
    if bodies != [] {
      FindsPacket(data, off, bodies[0]);
      PacketsEndLater(data, off + |EncodePacket(bodies[0])|, bodies[1..], end);
      OtherPacketsAreSkipped(data, off + |EncodePacket(bodies[0])|, bodies[1..], end);
    }
  }

  lemma {:induction false} PacketsEndLater(data: bytes, off: nat, bodies: seq<bytes>, end: nat)
    requires PacketsAt(data, off, bodies, end)
    ensures off <= end
    decreases bodies
  {
    if bodies != [] {
      PacketsEndLater(data, off + |EncodePacket(bodies[0])|, bodies[1..], end);
    }
  }

  lemma ReportsRequest(data: bytes, off: nat, body: bytes)
    requires IsPacketBody(body) && IsAuthBody(body) && At(data, off, EncodePacket(body))
    ensures Walk(data, off) == ParseUserAuth(body[2..])
  {
    FindsPacket(data, off, body);
  }

  lemma WalkFindsRequest(data: bytes, n: nat, bodies: seq<bytes>, m: nat, body: bytes)
    requires n <= m && (forall i :: 0 <= i < n && i < |data| ==> data[i] != 0)
    requires PacketsAt(data, n, bodies, m) && forall i :: 0 <= i < |bodies| ==> !IsAuthBody(bodies[i])
    requires IsPacketBody(body) && IsAuthBody(body) && At(data, m, EncodePacket(body))
    ensures Walk(data, 0) == ParseUserAuth(body[2..])
  {
    BannerIsSkipped(data, 0, n);
    OtherPacketsAreSkipped(data, n, bodies, m);
    ReportsRequest(data, m, body);
  }

  /** Encode, then parse: after any NUL-free banner and any complete packets that are not message
      50, the walker resynchronises on the first packet and reports exactly the encoded user and
      password, whatever the padding and whatever trails. */
  lemma CaptureRoundTrip(
    banner: bytes, bodies: seq<bytes>, pad: byte,
    user: bytes, service: bytes, flag: byte, password: bytes, padding: bytes, trailing: bytes)
    requires 0 !in banner
    requires forall i :: 0 <= i < |bodies| ==> IsPacketBody(bodies[i]) && !IsAuthBody(bodies[i])
    requires Fits(user) && Fits(service) && Fits(password)
    requires IsPacketBody([pad, USERAUTH_REQUEST] + (EncodeRequest(user, service, flag, password) + padding))
    ensures var body := [pad, USERAUTH_REQUEST] + (EncodeRequest(user, service, flag, password) + padding);
            Walk(banner + (EncodePackets(bodies) + (EncodePacket(body) + trailing)), 0) ==
            Some(if flag == 1 then UserPass(user, password) else UserOnly(user))
  {
    hide EncodePackets, EncodePacket, EncodeRequest, PacketsAt, At, Walk, ParseUserAuth;
    var body := [pad, USERAUTH_REQUEST] + (EncodeRequest(user, service, flag, password) + padding);
    EncodedLayout(banner, bodies, body, trailing);
    BodyIsParsed(pad, user, service, flag, password, padding);
    WalkFindsRequest(
      banner + (EncodePackets(bodies) + (EncodePacket(body) + trailing)),
      |banner|, bodies, |banner| + |EncodePackets(bodies)|, body);
  }

  lemma EncodedLayout(banner: bytes, bodies: seq<bytes>, body: bytes, trailing: bytes)
    requires (forall i :: 0 <= i < |bodies| ==> IsPacketBody(bodies[i])) && IsPacketBody(body)
    ensures var data := banner + (EncodePackets(bodies) + (EncodePacket(body) + trailing));
            var end := |banner| + |EncodePackets(bodies)|;
            PacketsAt(data, |banner|, bodies, end) && At(data, end, EncodePacket(body))
  {
    hide EncodePackets, EncodePacket, PacketsAt, At;
    var data := banner + (EncodePackets(bodies) + (EncodePacket(body) + trailing));
    Layout(banner, EncodePackets(bodies), EncodePacket(body), trailing);
    EncodedPacketsAt(data, |banner|, bodies);
  }

  lemma BodyIsParsed(pad: byte, user: bytes, service: bytes, flag: byte, password: bytes, padding: bytes)
    requires Fits(user) && Fits(service) && Fits(password)
    ensures var body := [pad, USERAUTH_REQUEST] + (EncodeRequest(user, service, flag, password) + padding);
            && IsAuthBody(body)
            && ParseUserAuth(body[2..]) == Some(if flag == 1 then UserPass(user, password) else UserOnly(user))
  {
    var request := EncodeRequest(user, service, flag, password);
    var body := [pad, USERAUTH_REQUEST] + (request + padding);
    assert body[2..] == request + padding;
    assert At(request + padding, 0, request + padding);
    AtSplits(request + padding, 0, request, padding);
    RequestRoundTrip(request + padding, user, service, flag, password);
  }

  lemma Layout(a: bytes, b: bytes, c: bytes, d: bytes)
    ensures var data := a + (b + (c + d));
            At(data, 0, a) && At(data, |a|, b) && At(data, |a| + |b|, c)
  {
    var data := a + (b + (c + d));
    assert At(data, 0, data);
    AtSplits(data, 0, a, b + (c + d));
    AtSplits(data, |a|, b, c + d);
    AtSplits(data, |a| + |b|, c, d);
  }

  /** Through the whole walker: after any NUL-free banner and any complete packets that are not message
      50, a request whose method is not "password" is reported by its user alone, whatever its method,
      whatever follows the method, the padding included, and whatever trails the packet. */
  lemma OtherMethodRoundTrip(banner: bytes, bodies: seq<bytes>, pad: byte, user: bytes, service: bytes, tail: bytes,
                             trailing: bytes)
    requires 0 !in banner
    requires forall i :: 0 <= i < |bodies| ==> IsPacketBody(bodies[i]) && !IsAuthBody(bodies[i])
    requires Fits(user) && Fits(service) && NoPassword(tail)
    requires IsPacketBody([pad, USERAUTH_REQUEST] + (EncodeString(user) + (EncodeString(service) + tail)))
    ensures var body := [pad, USERAUTH_REQUEST] + (EncodeString(user) + (EncodeString(service) + tail));
            Walk(banner + (EncodePackets(bodies) + (EncodePacket(body) + trailing)), 0) == Some(UserOnly(user))
  {
    hide EncodePackets, EncodePacket, EncodeString, PacketsAt, At, Walk, ParseUserAuth, NoPassword;
    var request := EncodeString(user) + (EncodeString(service) + tail);
    var body := [pad, USERAUTH_REQUEST] + request;
    EncodedLayout(banner, bodies, body, trailing);
    assert body[2..] == request;
    OtherRequestNamesTheUser(request, user, service, tail);
    WalkFindsRequest(
      banner + (EncodePackets(bodies) + (EncodePacket(body) + trailing)),
      |banner|, bodies, |banner| + |EncodePackets(bodies)|, body);
  }

  /** A capture that breaks off inside a packet reports nothing, whatever that packet would have been. */
  lemma CutPacketReportsNothing(banner: bytes, bodies: seq<bytes>, body: bytes, cut: nat)
    requires 0 !in banner && IsPacketBody(body) && cut < |EncodePacket(body)|
    requires forall i :: 0 <= i < |bodies| ==> IsPacketBody(bodies[i]) && !IsAuthBody(bodies[i])
    ensures Walk(banner + (EncodePackets(bodies) + EncodePacket(body)[..cut]), 0) == None
  {
    hide EncodePackets, EncodePacket, PacketsAt, Walk, At;
    var rest := EncodePacket(body)[..cut];
    var data := banner + (EncodePackets(bodies) + rest);
    var n, end := |banner|, |banner| + |EncodePackets(bodies)|;
    assert forall i :: 0 <= i < n ==> data[i] == banner[i];
    Layout(banner, EncodePackets(bodies), rest, []);
    assert rest + [] == rest;
    if |data| < n + 4 {
      NothingAfterBanner(data, 0, n);
    } else {
      BannerIsSkipped(data, 0, n);
      EncodedPacketsAt(data, n, bodies);
      OtherPacketsAreSkipped(data, n, bodies, end);
      CutPacketEndsTheWalk(data, end, body, cut);
    }
  }

  lemma CutPacketEndsTheWalk(data: bytes, off: nat, body: bytes, cut: nat)
    requires IsPacketBody(body) && cut < |EncodePacket(body)|
    requires off + cut == |data| && At(data, off, EncodePacket(body)[..cut])
    ensures Walk(data, off) == None
  {
    hide BigEndian, U32;
    if cut >= 4 {
      var e := EncodePacket(body);
      assert e[..cut] == EncodeU32(|body|) + e[4..cut];
      AtSplits(data, off, EncodeU32(|body|), e[4..cut]);
      ReadsU32(data, off, |body|);
    }
  }
}
