/** The geolocation cache (manyfaced/common/geolocate.py): kept by deleting and re-inserting keys
    of an insertion-ordered dict, it is a least-recently-used cache whose hits never expired. */
module GeoCache {
  import opened Wrappers
  import opened Lru
  import Records
  import opened Text

  const CACHE_TTL: real := 86400.0
  const CACHE_MAX_SIZE: nat := 10_000

  datatype Geo = Geo(country: string, continent: string, asn: string, org: string)

  const NOTHING := Geo("", "", "", "")

  datatype Entry = Entry(geo: Geo, expiresAt: real)

  predicate IsPrivate(ip: string) {
    || ip == "127.0.0.1" || ip == "::1"
    || StartsWith(ip, "10.") || StartsWith(ip, "192.168.") || StartsWith(ip, "172.")
  }

  predicate Fresh(cache: Dict<Entry>, ip: string, now: real) {
    Has(cache, ip) && Get(cache, ip).expiresAt > now
  }

  /** An IPv4 address in dotted decimal. */
  function Dotted(a: nat, b: nat, c: nat, d: nat): string {
    Records.Digits(a) + ("." + (Records.Digits(b) + ("." + (Records.Digits(c) + ("." + Records.Digits(d))))))
  }

  lemma StartsWithStep(s: string, p: string)
    requires p != ""
    ensures StartsWith(s, p) <==> s != "" && s[0] == p[0] && StartsWith(s[1..], p[1..])
  {
    if s != "" && |p| <= |s| {
      assert s[..|p|] == [s[0]] + s[1..][..|p| - 1];
      assert p == [p[0]] + p[1..];
    }
  }

  /** Up to the first dot the two texts must be the same. */
  lemma {:induction false} UpToTheDot(x: string, rest: string, y: string, tail: string)
    requires '.' !in x && '.' !in y
    ensures StartsWith(x + ("." + rest), y + ("." + tail)) <==> x == y && StartsWith(rest, tail)
  {
    hide StartsWith;
    var s, p := x + ("." + rest), y + ("." + tail);
    StartsWithStep(s, p);
    if x != "" && y != "" {
      assert s[1..] == x[1..] + ("." + rest) && p[1..] == y[1..] + ("." + tail);
      UpToTheDot(x[1..], rest, y[1..], tail);
      assert x == [x[0]] + x[1..] && y == [y[0]] + y[1..];
    } else if x == "" && y == "" {
      assert s[1..] == rest && p[1..] == tail;
    } else {
      assert s[0] == if x == "" then '.' else x[0];
      assert p[0] == if y == "" then '.' else y[0];
    }
  }

  /** The same for the numbers of a dotted address. */
  lemma NumbersUpToTheDot(n: nat, rest: string, m: nat, tail: string)
    ensures var s, p := Records.Digits(n) + ("." + rest), Records.Digits(m) + ("." + tail);
            StartsWith(s, p) <==> n == m && StartsWith(rest, tail)
  {
    Records.DigitsRoundTrip(n);
    Records.DigitsRoundTrip(m);
    hide Records.DigitsValue, Records.Digits, StartsWith;
    UpToTheDot(Records.Digits(n), rest, Records.Digits(m), tail);
  }

  lemma Literals()
    ensures Records.Digits(10) == "10" && Records.Digits(172) == "172" && Records.Digits(192) == "192"
    ensures Records.Digits(168) == "168" && Records.Digits(127) == "127"
    ensures Records.Digits(0) == "0" && Records.Digits(1) == "1"
  {
    assert Records.Digits(19) == "19" && Records.Digits(17) == "17" && Records.Digits(16) == "16";
    assert Records.Digits(12) == "12";
  }

  lemma Everything(s: string)
    ensures StartsWith(s, "")
  {
    assert s[..0] == "";
  }

  /** Which addresses are not looked up. */
  lemma PrivateIff(a: nat, b: nat, c: nat, d: nat)
    ensures IsPrivate(Dotted(a, b, c, d)) <==>
            a == 10 || a == 172 || (a == 192 && b == 168) || (a == 127 && b == 0 && c == 0 && d == 1)
    ensures IsPrivate("::1")
  {
    hide StartsWith, Records.Digits;
    var three := Records.Digits(d);
    var two := Records.Digits(c) + ("." + three);
    var one := Records.Digits(b) + ("." + two);
    Literals();
    Everything(one);
    Everything(two);
    NumbersUpToTheDot(a, one, 10, "");
    NumbersUpToTheDot(a, one, 172, "");
    NumbersUpToTheDot(b, two, 168, "");
    NumbersUpToTheDot(a, one, 192, "168" + ("." + ""));
    assert "10" + ("." + "") == "10." && "172" + ("." + "") == "172.";
    assert "192" + ("." + ("168" + ("." + ""))) == "192.168.";
    LoopbackIff(a, b, c, d);
  }

  lemma LoopbackIff(a: nat, b: nat, c: nat, d: nat)
    ensures Dotted(a, b, c, d) == "127.0.0.1" <==> a == 127 && b == 0 && c == 0 && d == 1
    ensures Dotted(a, b, c, d) != "::1"
  {
    Records.DigitsRoundTrip(a);
    Records.DigitsRoundTrip(d);
    Records.DigitsRoundTrip(1);
    Literals();
    hide Records.Digits, Records.DigitsValue;
    var three := Records.Digits(d);
    var two := Records.Digits(c) + ("." + three);
    var one := Records.Digits(b) + ("." + two);
    NumbersUpToTheDot(a, one, 127, "0" + ("." + ("0" + ("." + "1"))));
    NumbersUpToTheDot(b, two, 0, "0" + ("." + "1"));
    NumbersUpToTheDot(c, three, 0, "1");
    assert "127" + ("." + ("0" + ("." + ("0" + ("." + "1"))))) == "127.0.0.1";
    assert Dotted(a, b, c, d)[0] == Records.Digits(a)[0] && Records.Digits(a)[0] in Records.Digits(a);
    if Dotted(a, b, c, d) == "127.0.0.1" {
      assert StartsWith(Dotted(a, b, c, d), "127.0.0.1");
      assert Records.Digits(a) == "127" && Records.Digits(b) == "0" && Records.Digits(c) == "0";
      assert Records.Digits(d) == Dotted(a, b, c, d)[8..];
    }
  }

  /** The addresses set aside for private networks (section 3 of RFC 1918) and the loopback address. */
  predicate IsSetAside(a: nat, b: nat, c: nat, d: nat) {
    || a == 10 || (a == 172 && 16 <= b < 32) || (a == 192 && b == 168)
    || (a == 127 && b == 0 && c == 0 && d == 1)
  }

  /** The prefix test is right about an address unless it begins with 172 and lies outside
      172.16.0.0/12: those public addresses are never looked up. */
  lemma PrefixTestIsRightIff(a: nat, b: nat, c: nat, d: nat)
    ensures (IsPrivate(Dotted(a, b, c, d)) <==> IsSetAside(a, b, c, d)) <==> !(a == 172 && !(16 <= b < 32))
  {
    hide IsPrivate, Dotted;
    PrivateIff(a, b, c, d);
  }

  lemma ReinsertTouches<V>(d: Dict<V>, k: string)
    requires Has(d, k) && Distinct(d)
    ensures Put(Pop(d, k), k, Get(d, k)) == Touched(d, k)
  {
    PopIsDistinct(d, k);
  }

  class Cache {
    var entries: Dict<Entry>
    var queue: seq<string>
    ghost var trace: seq<Event<Entry>>

    /** The entries are those of the abstract cache after the recorded stores and hits. */
    ghost predicate Valid()
      reads this
    {
      HitsArePresent(CACHE_MAX_SIZE, trace) && entries == Replay(CACHE_MAX_SIZE, trace)
    }

    constructor ()
      ensures Valid() && trace == [] && queue == []
    {
      entries, queue, trace := [], [], [];
    }

    /** A hit returns the last stored result, not yet expired, and makes it the newest entry.
        Anything else returns empty strings at once; a public address is queued. */
    method LookupIpGeolocation(ip: string, now: real) returns (geo: Geo)
      requires Valid()
      modifies this
      ensures Valid() && |entries| <= 10_000
      ensures if !IsPrivate(ip) && Fresh(old(entries), ip, now) then
                && trace == old(trace) + [Hit(ip)] && queue == old(queue)
                && entries == Touched(old(entries), ip)
                && (exists e :: LastStored(old(trace), ip) == Some(Entry(geo, e)) && now < e)
              else
                && geo == NOTHING && trace == old(trace) && entries == old(entries)
                && queue == if IsPrivate(ip) then old(queue) else old(queue) + [ip]
    {
      hide IsPrivate, StartsWith, EntriesFit, MissingFit;
      CacheIsLeastRecentlyUsed(CACHE_MAX_SIZE, trace);
      if IsPrivate(ip) {
        return NOTHING;
      }
      if Fresh(entries, ip, now) {
        var entry := Get(entries, ip);
        NextEvent(CACHE_MAX_SIZE, trace, Hit(ip));
        ReinsertTouches(entries, ip);
        hide Replay, HitsArePresent, LastStored, Pop, Put, Touched, Fits;
        entries := Pop(entries, ip);
        entries := Put(entries, ip, entry);
        trace := trace + [Hit(ip)];
        return entry.geo;
      }
      queue := queue + [ip];
      return NOTHING;
    }

    /** The cached part of the blocking lookup: same hits, but they do not count as a use. */
    method LookupSyncCached(ip: string, now: real) returns (geo: Option<Geo>)
      requires Valid()
      ensures geo.Some? <==> !IsPrivate(ip) && Fresh(entries, ip, now)
      ensures geo.Some? ==> exists e :: LastStored(trace, ip) == Some(Entry(geo.value, e)) && now < e
    {
      CacheIsLeastRecentlyUsed(CACHE_MAX_SIZE, trace);
      if !IsPrivate(ip) && Fresh(entries, ip, now) {
        GetFits(trace, entries, ip);
        return Some(Get(entries, ip).geo);
      }
      return None;
    }

    /** A store is the abstract store: the key becomes the newest, the oldest keys make room. */
    method StoreGeo(ip: string, geo: Geo, now: real)
      requires Valid()
      modifies `entries, `trace
      ensures Valid() && |entries| <= 10_000
      ensures trace == old(trace) + [Store(ip, Entry(geo, now + 86400.0))]
      ensures entries == Stored(old(entries), ip, Entry(geo, now + CACHE_TTL), CACHE_MAX_SIZE)
    {
      var entry := Entry(geo, now + CACHE_TTL);
      NextEvent(CACHE_MAX_SIZE, trace, Store(ip, entry));
      assert Distinct(entries);
      hide Replay, HitsArePresent, Fits, Distinct;
      entries := Pop(entries, ip);
      ghost var rest := entries;
      if |entries| >= CACHE_MAX_SIZE {
        var evictCount := |entries| - CACHE_MAX_SIZE + 1;
        var stale := entries[..evictCount];
        for i := 0 to |stale|
          invariant entries == rest[i..] && stale == rest[..evictCount]
          invariant trace == old(trace)
        {
          assert entries[0] == rest[i];
          entries := Pop(entries, stale[i].0);
        }
      }
      assert entries == Newest(rest, CACHE_MAX_SIZE - 1);
      PutAfterTrimming(old(entries), ip, entry, CACHE_MAX_SIZE);
      entries := Put(entries, ip, entry);
      trace := trace + [Store(ip, entry)];
    }
  }
}
