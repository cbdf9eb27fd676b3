/** Bear records and the fields the storage backends take from them
    (manyfaced/db/sql_builder.py). */
module Records {

  /** A value of a record dict. */
  datatype Value = Null | Text(text: string) | Number(n: int)

  /** The keys of a record dict and the columns of the table, by name; `IsDetectedAlias` is the
      key `isDetected`. */
  datatype Name =
    | Ip | BotIp | Hostname | HiveLogin | Timestamp
    | RequestPath | RequestCommand | RequestVersion | RequestRaw | RawRequest
    | BotUserAgent | Ua | BotCountry | Country | BotContinent | Continent
    | BotTracert | Tracert | BotDnsName | DnsName
    | DetectedId | IsDetected | IsDetectedAlias | HiveId | Login | BotProfileData | ListenPort
    | BotAsn | BotOrg | Classification | BenignSource

  /** The keys of the nested `parsed_request`. */
  datatype ParsedName = Path | Command | ParsedVersion | Version | UserAgent

  /** A record dict; `parsed` is empty when it has no `parsed_request`. */
  datatype Record = Record(fields: map<Name, Value>, parsed: map<ParsedName, Value>)

  /** The columns of the table besides the id. */
  predicate IsColumn(name: Name) {
    !name.Ip? && !name.HiveLogin? && !name.RawRequest? && !name.Ua? && !name.Country? && !name.Continent?
    && !name.Tracert? && !name.DnsName? && !name.IsDetected? && !name.IsDetectedAlias?
  }

  predicate IsInteger(column: Name) {
    column.DetectedId? || column.HiveId? || column.ListenPort?
  }

  /** The stored values of the columns outside the unique key. */
  type Fields = map<Name, Value>

  /** The UNIQUE(bot_ip, timestamp) key of a stored row. */
  datatype Key = Key(botIp: string, timestamp: string)

  function Digits(n: nat): string {
    if n < 10 then [(n as char) + '0'] else Digits(n / 10) + [((n % 10) as char) + '0']
  }

  function Shown(v: Value): string {
    match v
    case Null => "None"
    case Text(t) => t
    case Number(n) => if n < 0 then "-" + Digits(-n) else Digits(n)
  }

  predicate Truthy(v: Value) {
    match v
    case Null => false
    case Text(t) => t != ""
    case Number(n) => n != 0
  }

  /** `a or b or ... or ''`, as the text the column stores. */
  function FirstTruthy(values: seq<Value>): string {
    if values == [] then "" else if Truthy(values[0]) then Shown(values[0]) else FirstTruthy(values[1..])
  }

  /** `int(value)` succeeds on a number and on an optionally signed digit string. */
  predicate ConvertsToInt(v: Value) {
    match v
    case Null => true
    case Number(_) => true
    case Text(t) =>
      var digits := if t != "" && (t[0] == '-' || t[0] == '+') then t[1..] else t;
      digits != "" && forall c | c in digits :: '0' <= c <= '9'
  }

  function DigitsValue(s: string): int {
    if s == "" then 0 else DigitsValue(s[..|s| - 1]) * 10 + (s[|s| - 1] as int - '0' as int)
  }

  /** `int(value)`; None stays NULL. */
  function IntOf(v: Value): Value {
    match v
    case Null => Null
    case Number(n) => Number(n)
    case Text(t) =>
      if t != "" && t[0] == '-' then Number(-DigitsValue(t[1..]))
      else if t != "" && t[0] == '+' then Number(DigitsValue(t[1..]))
      else Number(DigitsValue(t))
  }

  function Get(rec: Record, name: Name): Value {
    if name in rec.fields then rec.fields[name] else Null
  }

  function GetParsed(rec: Record, name: ParsedName): Value {
    if name in rec.parsed then rec.parsed[name] else Null
  }

  function DetectedOf(rec: Record): Value {
    if Get(rec, IsDetected) == Null then Get(rec, IsDetectedAlias) else Get(rec, IsDetected)
  }

  /** False exactly when `extract_record_fields` raises from one of its int() conversions. */
  predicate Extractable(rec: Record) {
    ConvertsToInt(DetectedOf(rec)) && ConvertsToInt(Get(rec, HiveId))
  }

  /** NUL characters become the four characters \x00. */
  function EscapeNul(s: string): string {
    if s == "" then ""
    else (if s[0] == '\0' then "\\x00" else [s[0]]) + EscapeNul(s[1..])
  }

  function TextOf(values: seq<Value>): Value {
    Text(EscapeNul(FirstTruthy(values)))
  }

  /** What a text column is tried from, in this order. */
  function Sources(rec: Record, column: Name): seq<Value> {
    match column
    case BotIp => [Get(rec, Ip)]
    case Hostname => [Get(rec, Hostname), Get(rec, HiveLogin)]
    case RequestPath => [GetParsed(rec, Path), Get(rec, RequestPath)]
    case RequestCommand => [GetParsed(rec, Command), Get(rec, RequestCommand)]
    case RequestVersion => [GetParsed(rec, ParsedVersion), GetParsed(rec, Version), Get(rec, RequestVersion)]
    case RequestRaw => [Get(rec, RawRequest)]
    case BotUserAgent => [GetParsed(rec, UserAgent), Get(rec, Ua)]
    case BotCountry => [Get(rec, Country)]
    case BotContinent => [Get(rec, Continent)]
    case BotTracert => [Get(rec, Tracert)]
    case BotDnsName => [Get(rec, DnsName)]
    case _ => [Get(rec, column)]
  }

  /** The value `extract_record_fields` computes for a column. */
  function Stored(rec: Record, column: Name): Value {
    if column.DetectedId? then IntOf(DetectedOf(rec))
    else if column.HiveId? then IntOf(Get(rec, HiveId))
    else if column.ListenPort? then
      if Get(rec, ListenPort) == Null || !ConvertsToInt(Get(rec, ListenPort)) then Number(0)
      else IntOf(Get(rec, ListenPort))
    else if column.BotProfileData? then
      if Get(rec, BotProfileData) == Null then Null else Text(EscapeNul(Shown(Get(rec, BotProfileData))))
    else TextOf(Sources(rec, column))
  }

  /** The key `extract_record_fields` computes: it reads the keys `ip` and `timestamp`. */
  function ExtractKey(rec: Record): Key {
    Key(TextOf(Sources(rec, BotIp)).text, TextOf(Sources(rec, Timestamp)).text)
  }

  function ExtractFields(rec: Record): Fields {
    map c: Name | IsColumn(c) && !c.BotIp? && !c.Timestamp? :: Stored(rec, c)
  }

  /** The value of a column in a stored row. */
  function ColumnOf(key: Key, fields: Fields, column: Name): Value {
    if column.BotIp? then Text(key.botIp)
    else if column.Timestamp? then Text(key.timestamp)
    else if column in fields then fields[column] else Null
  }

  /** Key and fields together hold every column as it was computed. */
  lemma ColumnIsStored(rec: Record, c: Name)
    requires IsColumn(c)
    ensures ColumnOf(ExtractKey(rec), ExtractFields(rec), c) == Stored(rec, c)
  {
    hide FirstTruthy, EscapeNul, ConvertsToInt, Shown;
    if !c.BotIp? && !c.Timestamp? {
      FieldIsStored(rec, c);
    }
  }

  lemma FieldIsStored(rec: Record, c: Name)
    requires IsColumn(c) && !c.BotIp? && !c.Timestamp?
    ensures c in ExtractFields(rec) && ExtractFields(rec)[c] == Stored(rec, c)
  {
    hide Stored;
  }

  /** The keys the extraction reads. */
  predicate IsRead(name: Name) {
    !name.BotIp? && !name.RequestRaw? && !name.BotUserAgent? && !name.BotCountry? && !name.BotContinent?
    && !name.BotTracert? && !name.BotDnsName? && !name.DetectedId?
  }

  /** Records that agree on those keys and on the parsed request are stored alike. */
  lemma OnlyReadKeysMatter(rec: Record, other: Record)
    requires rec.parsed == other.parsed && forall k :: IsRead(k) ==> Get(rec, k) == Get(other, k)
    ensures Extractable(rec) <==> Extractable(other)
    ensures ExtractKey(rec) == ExtractKey(other) && ExtractFields(rec) == ExtractFields(other)
  {
    hide Stored, Sources, ConvertsToInt, Get, TextOf;
    assert IsRead(IsDetected) && IsRead(IsDetectedAlias) && IsRead(HiveId);
    SourcesAlike(rec, other, BotIp);
    SourcesAlike(rec, other, Timestamp);
    forall c | IsColumn(c)
      ensures Stored(rec, c) == Stored(other, c)
    {
      StoredAlike(rec, other, c);
    }
  }

  lemma StoredAlike(rec: Record, other: Record, c: Name)
    requires rec.parsed == other.parsed && forall k :: IsRead(k) ==> Get(rec, k) == Get(other, k)
    requires IsColumn(c)
    ensures Stored(rec, c) == Stored(other, c)
  {
    hide Sources, ConvertsToInt, IntOf, Shown, Get, TextOf, EscapeNul;
    if !c.DetectedId? {
      SourcesAlike(rec, other, c);
    }
  }

  lemma SourcesAlike(rec: Record, other: Record, c: Name)
    requires rec.parsed == other.parsed && forall k :: IsRead(k) ==> Get(rec, k) == Get(other, k)
    requires IsColumn(c) && !c.DetectedId?
    ensures Sources(rec, c) == Sources(other, c)
  {
    hide Get;
  }

  /** Whatever the record holds, no NUL reaches a TEXT column. */
  lemma {:induction false} EscapedTextIsNulFree(s: string)
    ensures '\0' !in EscapeNul(s)
  {
    if s != "" {
      EscapedTextIsNulFree(s[1..]);
    }
  }

  /** Escaping changes nothing in text that holds no NUL, and every text that holds one gets longer. */
  lemma {:induction false} EscapeIsIdentityIffNulFree(s: string)
    ensures |EscapeNul(s)| >= |s|
    ensures EscapeNul(s) == s <==> '\0' !in s
  {
    if s != "" {
      EscapeIsIdentityIffNulFree(s[1..]);
      if s[0] == '\0' {
        assert |EscapeNul(s)| > |s|;
      } else {
        assert s == [s[0]] + s[1..];
        assert EscapeNul(s)[1..] == EscapeNul(s[1..]);
      }
    }
  }

  /** Each NUL becomes the four characters, and what stands around it is escaped on its own. */
  lemma {:induction false} EscapeReplacesEachNul(a: string, b: string)
    ensures EscapeNul(a + ['\0'] + b) == EscapeNul(a) + "\\x00" + EscapeNul(b)
  {
    var s := a + ['\0'] + b;
    if a == "" {
      assert s[1..] == b;
    } else {
      assert s[0] == a[0] && s[1..] == a[1..] + ['\0'] + b;
      EscapeReplacesEachNul(a[1..], b);
    }
  }

  lemma {:induction false} DigitsRoundTrip(n: nat)
    ensures Digits(n) != "" && DigitsValue(Digits(n)) == n && forall c :: c in Digits(n) ==> '0' <= c <= '9'
  {
    if n >= 10 {
      DigitsRoundTrip(n / 10);
      assert Digits(n)[..|Digits(n)| - 1] == Digits(n / 10);
    } else {
      assert Digits(n)[..0] == "";
    }
  }

  /** A number written as text converts back to itself. */
  lemma ShownNumberConverts(n: int)
    ensures ConvertsToInt(Text(Shown(Number(n)))) && IntOf(Text(Shown(Number(n)))) == Number(n)
  {
    var m := if n < 0 then -n else n;
    DigitsRoundTrip(m);
    assert ("-" + Digits(m))[1..] == Digits(m);
    assert Digits(m)[0] in Digits(m);
  }

  predicate IsNumeral(s: string) {
    s != "" && forall c :: c in s ==> '0' <= c <= '9'
  }

  /** A text converts iff it is a numeral, bare or behind one sign; a minus negates it. */
  lemma ConvertsIff(t: string)
    ensures ConvertsToInt(Text(t)) <==> exists d :: IsNumeral(d) && (t == d || t == "+" + d || t == "-" + d)
  {
    hide IsNumeral;
    forall d | IsNumeral(d)
      ensures ConvertsToInt(Text(d)) && ConvertsToInt(Text("+" + d)) && ConvertsToInt(Text("-" + d))
    {
      NumeralsConvert(d);
    }
    if ConvertsToInt(Text(t)) {
      ConvertedIsNumeral(t);
    }
    hide ConvertsToInt;
  }

  lemma ConvertedIsNumeral(t: string)
    requires ConvertsToInt(Text(t))
    ensures exists d :: IsNumeral(d) && (t == d || t == "+" + d || t == "-" + d)
  {
    if t != "" && (t[0] == '-' || t[0] == '+') {
      assert IsNumeral(t[1..]) && t == [t[0]] + t[1..];
    } else {
      assert IsNumeral(t);
    }
  }

  lemma NumeralsConvert(d: string)
    requires IsNumeral(d)
    ensures ConvertsToInt(Text(d)) && IntOf(Text(d)) == Number(DigitsValue(d))
    ensures ConvertsToInt(Text("+" + d)) && IntOf(Text("+" + d)) == Number(DigitsValue(d))
    ensures ConvertsToInt(Text("-" + d)) && IntOf(Text("-" + d)) == Number(-DigitsValue(d))
  {
    hide DigitsValue;
    assert ("+" + d)[1..] == d && ("-" + d)[1..] == d && ("+" + d)[0] == '+' && ("-" + d)[0] == '-';
    assert d[0] in d;
  }

  lemma TextInFront(values: seq<Value>, t: string)
    requires t != "" && values != []
    ensures values[0] == Text(t) ==> FirstTruthy(values) == t
    ensures |values| > 1 && values[0] == Null && values[1] == Text(t) ==> FirstTruthy(values) == t
  {
    if |values| > 1 {
      assert values[1..][0] == values[1];
    }
  }

  /** A key of the parsed request that holds text goes before the record's own key; an id under the
      older key counts when the newer one is missing; a port that is missing or no number is 0. */
  lemma FallbacksFillIn(rec: Record, t: string)
    requires t != ""
    ensures GetParsed(rec, Path) == Text(t) ==> Stored(rec, RequestPath) == Text(EscapeNul(t))
    ensures GetParsed(rec, Command) == Text(t) ==> Stored(rec, RequestCommand) == Text(EscapeNul(t))
    ensures GetParsed(rec, ParsedVersion) == Text(t) ==> Stored(rec, RequestVersion) == Text(EscapeNul(t))
    ensures GetParsed(rec, ParsedVersion) == Null && GetParsed(rec, Version) == Text(t) ==>
              Stored(rec, RequestVersion) == Text(EscapeNul(t))
    ensures GetParsed(rec, UserAgent) == Text(t) ==> Stored(rec, BotUserAgent) == Text(EscapeNul(t))
    ensures Stored(rec, DetectedId) ==
            IntOf(if Get(rec, IsDetected) != Null then Get(rec, IsDetected) else Get(rec, IsDetectedAlias))
    ensures Get(rec, ListenPort) == Null || !ConvertsToInt(Get(rec, ListenPort)) ==>
              Stored(rec, ListenPort) == Number(0)
    ensures Get(rec, ListenPort) != Null && ConvertsToInt(Get(rec, ListenPort)) ==>
              Stored(rec, ListenPort) == IntOf(Get(rec, ListenPort))
  {
    hide EscapeNul, ConvertsToInt, IntOf, FirstTruthy;
    TextInFront(Sources(rec, RequestPath), t);
    TextInFront(Sources(rec, RequestCommand), t);
    TextInFront(Sources(rec, RequestVersion), t);
    TextInFront(Sources(rec, BotUserAgent), t);
  }

  // -------------------------------------------------------------------------
  // What a report is stored as (`Insert`, manyfaced/db/dbconnect.py)
  // -------------------------------------------------------------------------

  /** A bear request; `profile` is the serialised bot profile, empty when there is none. */
  datatype Bear = Bear(
    ip: string, rawRequest: string, timestamp: string, path: string, command: string, version: string,
    isDetected: int, hiveLogin: string, ua: string, dnsName: string, country: string, continent: string,
    login: string, profile: string, listenPort: int, asn: string, org: string, classification: string,
    benignSource: string)

  /** The value of each key of the record dict that is not text. */
  function ReportedNumber(b: Bear, k: Name): Value {
    match k
    case IsDetected => Number(b.isDetected)
    case ListenPort => Number(b.listenPort)
    case _ => Null
  }

  function ReportedText(b: Bear, k: Name): string {
    match k
    case Ip => b.ip
    case RawRequest => b.rawRequest
    case Timestamp => b.timestamp
    case HiveLogin => b.hiveLogin
    case Ua => b.ua
    case DnsName => b.dnsName
    case Country => b.country
    case Continent => b.continent
    case Login => b.login
    case BotAsn => b.asn
    case BotOrg => b.org
    case Classification => b.classification
    case BenignSource => b.benignSource
    case BotProfileData => b.profile
    case _ => ""
  }

  predicate IsReported(b: Bear, k: Name) {
    || k.IsDetected? || k.ListenPort? || k.Ip? || k.RawRequest? || k.Timestamp? || k.HiveLogin? || k.Ua? || k.DnsName?
    || k.Country? || k.Continent? || k.Login? || k.BotAsn? || k.BotOrg? || k.Classification? || k.BenignSource?
    || (k.BotProfileData? && b.profile != "")
  }

  /** The record dict the backend is given: sixteen keys, and the profile when there is one. */
  function BearRecord(b: Bear): Record {
    Record(
      map k: Name | IsReported(b, k) ::
        if k.IsDetected? || k.ListenPort? then ReportedNumber(b, k) else Text(ReportedText(b, k)),
      map[Path := Text(b.path), Command := Text(b.command), ParsedVersion := Text(b.version)])
  }

  lemma OnlyText(t: string)
    ensures FirstTruthy([Text(t)]) == t && FirstTruthy([Null]) == ""
    ensures FirstTruthy([Text(t), Null]) == t && FirstTruthy([Null, Text(t)]) == t
    ensures FirstTruthy([Text(t), Null, Null]) == t
  {
    assert [Text(t)][1..] == [] && [Null][1..] == [];
    assert [Text(t), Null][1..] == [Null] && [Null, Text(t)][1..] == [Text(t)];
    assert [Text(t), Null, Null][1..] == [Null, Null] && [Null, Null][1..] == [Null];
  }

  /** The text of a report that belongs to a text column. */
  function PartOf(b: Bear, c: Name): string {
    match c
    case BotIp => b.ip
    case Hostname => b.hiveLogin
    case Timestamp => b.timestamp
    case RequestPath => b.path
    case RequestCommand => b.command
    case RequestVersion => b.version
    case RequestRaw => b.rawRequest
    case BotUserAgent => b.ua
    case BotCountry => b.country
    case BotContinent => b.continent
    case BotDnsName => b.dnsName
    case Login => b.login
    case BotProfileData => b.profile
    case BotAsn => b.asn
    case BotOrg => b.org
    case Classification => b.classification
    case BenignSource => b.benignSource
    case _ => ""
  }

  predicate HasFallback(c: Name) {
    c.Hostname? || c.RequestPath? || c.RequestCommand? || c.RequestVersion? || c.BotUserAgent?
  }

  lemma ReportSources(b: Bear, c: Name)
    requires IsColumn(c) && !c.DetectedId? && !c.HiveId? && !c.ListenPort? && !c.BotProfileData? && !HasFallback(c)
    ensures FirstTruthy(Sources(BearRecord(b), c)) == PartOf(b, c)
  {
    hide FirstTruthy, BearRecord, Get, GetParsed;
    ReportValues(b);
    OnlyText(PartOf(b, c));
  }

  lemma ReportFallbacks(b: Bear, c: Name)
    requires HasFallback(c)
    ensures FirstTruthy(Sources(BearRecord(b), c)) == PartOf(b, c)
  {
    hide FirstTruthy, BearRecord, Get, GetParsed;
    ReportValues(b);
    OnlyText(PartOf(b, c));
  }

  lemma ReportValues(b: Bear)
    ensures var rec := BearRecord(b);
            forall k :: Get(rec, k) ==
                        if !IsReported(b, k) then Null
                        else if k.IsDetected? || k.ListenPort? then ReportedNumber(b, k) else Text(ReportedText(b, k))
    ensures var rec := BearRecord(b);
            && GetParsed(rec, Path) == Text(b.path) && GetParsed(rec, Command) == Text(b.command)
            && GetParsed(rec, ParsedVersion) == Text(b.version)
            && GetParsed(rec, Version) == GetParsed(rec, UserAgent) == Null
  {
    hide ReportedText, ReportedNumber, IsReported;
  }

  /** Every part of a report ends up in the column of its name, and in no other: numbers as they are,
      text with its NULs escaped, no hive id, and no profile as NULL. */
  lemma ReportIsStored(b: Bear, c: Name)
    requires IsColumn(c)
    ensures Extractable(BearRecord(b))
    ensures ColumnOf(ExtractKey(BearRecord(b)), ExtractFields(BearRecord(b)), c) ==
            if c.DetectedId? then Number(b.isDetected)
            else if c.ListenPort? then Number(b.listenPort)
            else if c.HiveId? || (c.BotProfileData? && b.profile == "") then Null
            else Text(EscapeNul(PartOf(b, c)))
  {
    hide ExtractKey, ExtractFields, ColumnOf, EscapeNul, FirstTruthy, Sources;
    var rec := BearRecord(b);
    ColumnIsStored(rec, c);
    if !c.DetectedId? && !c.HiveId? && !c.ListenPort? && !c.BotProfileData? {
      if HasFallback(c) {
        ReportFallbacks(b, c);
      } else {
        ReportSources(b, c);
      }
    }
    ReportNumbers(b);
    hide BearRecord;
  }

  lemma ReportNumbers(b: Bear)
    ensures var rec := BearRecord(b);
            && DetectedOf(rec) == Number(b.isDetected) && Get(rec, HiveId) == Null
            && Get(rec, ListenPort) == Number(b.listenPort)
            && Get(rec, BotProfileData) == if b.profile == "" then Null else Text(b.profile)
  {
    hide BearRecord, Get, ReportedText;
    ReportValues(b);
    assert ReportedText(b, BotProfileData) == b.profile by {
      ProfileIsReported(b);
    }
  }

  lemma ProfileIsReported(b: Bear)
    ensures ReportedText(b, BotProfileData) == b.profile
  {
  }
}
