/** What a least-recently-used cache is, independently of how it is kept: after any trace of
    stores, hits and deletes, which keys are present, in which order and with which value. */
module Lru {
  import opened Wrappers

  /** An insertion-ordered dict: a sequence of pairs with distinct keys, oldest first. */
  type Dict<V> = seq<(string, V)>

  predicate Distinct<V>(d: Dict<V>) {
    forall i, j :: 0 <= i < j < |d| ==> d[i].0 != d[j].0
  }

  predicate Has<V>(d: Dict<V>, k: string) {
    exists i :: 0 <= i < |d| && d[i].0 == k
  }

  /** The position of `k`, or |d| when it is absent. */
  function IndexOf<V>(d: Dict<V>, k: string): (i: nat)
    ensures i <= |d| && (i < |d| ==> d[i].0 == k)
    ensures forall j :: 0 <= j < i ==> d[j].0 != k
  {
    if d == [] || d[0].0 == k then 0
    else
      assert forall j :: 0 <= j < |d[1..]| ==> d[1..][j] == d[j + 1];
      1 + IndexOf(d[1..], k)
  }

  /** `d.pop(k, None)`. */
  function Pop<V>(d: Dict<V>, k: string): Dict<V> {
    var i := IndexOf(d, k);
    if i == |d| then d else d[..i] + d[i + 1..]
  }

  function Get<V>(d: Dict<V>, k: string): V
    requires Has(d, k)
  {
    d[IndexOf(d, k)].1
  }

  /** `d[k] = v`: in place when the key is present, at the end when it is new. */
  function Put<V>(d: Dict<V>, k: string, v: V): Dict<V> {
    var i := IndexOf(d, k);
    if i == |d| then d + [(k, v)] else d[i := (k, v)]
  }

  /** Storing under a key that is there changes its value in place; under a new key it adds an entry. */
  lemma PutReplaces<V>(d: Dict<V>, k: string, v: V)
    requires Distinct(d)
    ensures var after := Put(d, k, v);
            && Distinct(after) && Has(after, k) && Get(after, k) == v
            && |after| == (if Has(d, k) then |d| else |d| + 1)
            && forall i :: 0 <= i < |d| ==> after[i] == if d[i].0 == k then (k, v) else d[i]
  {
    var i, after := IndexOf(d, k), Put(d, k, v);
    assert after[i] == (k, v);
    assert IndexOf(after, k) == i;
  }

  // -------------------------------------------------------------------------
  // The abstract cache
  // -------------------------------------------------------------------------

  /** The newest `n` entries. */
  function Newest<V>(d: Dict<V>, n: nat): Dict<V> {
    if |d| <= n then d else d[|d| - n..]
  }

  function Touched<V>(d: Dict<V>, k: string): Dict<V>
    requires Has(d, k)
  {
    Pop(d, k) + [(k, Get(d, k))]
  }

  function Stored<V>(d: Dict<V>, k: string, v: V, cap: nat): Dict<V>
    requires cap > 0
  {
    Newest(Pop(d, k), cap - 1) + [(k, v)]
  }

  datatype Event<V> = Store(key: string, value: V) | Hit(key: string) | Delete(key: string)

  /** A hit is only ever one of a key that is present. */
  function Replay<V>(cap: nat, trace: seq<Event<V>>): Dict<V>
    requires cap > 0
  {
    if trace == [] then []
    else
      var d := Replay(cap, trace[..|trace| - 1]);
      match trace[|trace| - 1]
      case Store(k, v) => Stored(d, k, v, cap)
      case Hit(k) => if Has(d, k) then Touched(d, k) else d
      case Delete(k) => Pop(d, k)
  }

  predicate HitsArePresent<V>(cap: nat, trace: seq<Event<V>>)
    requires cap > 0
  {
    trace != [] ==>
      && HitsArePresent(cap, trace[..|trace| - 1])
      && (trace[|trace| - 1].Hit? ==> Has(Replay(cap, trace[..|trace| - 1]), trace[|trace| - 1].key))
  }

  // -------------------------------------------------------------------------
  // The trace itself, read without any cache
  // -------------------------------------------------------------------------

  /** The distinct other keys touched since the last touch of `k`; None when `k` was never
      touched or was deleted afterwards. */
  function Since<V>(trace: seq<Event<V>>, k: string): Option<set<string>> {
    if trace == [] then None
    else
      var before := Since(trace[..|trace| - 1], k);
      match trace[|trace| - 1]
      case Delete(j) => if j == k then None else before
      case Store(j, _) => if j == k then Some({}) else Also(before, j)
      case Hit(j) => if j == k then Some({}) else Also(before, j)
  }

  function Also(s: Option<set<string>>, j: string): Option<set<string>> {
    match s
    case None => None
    case Some(others) => Some(others + {j})
  }

  /** The last value stored under `k`, None when it was deleted afterwards. */
  function LastStored<V>(trace: seq<Event<V>>, k: string): Option<V> {
    if trace == [] then None
    else
      match trace[|trace| - 1]
      case Store(j, v) => if j == k then Some(v) else LastStored(trace[..|trace| - 1], k)
      case Hit(_) => LastStored(trace[..|trace| - 1], k)
      case Delete(j) => if j == k then None else LastStored(trace[..|trace| - 1], k)
  }

  function KeysFrom<V>(d: Dict<V>, i: nat): set<string>
  {
    set j | i <= j < |d| :: d[j].0
  }

  lemma {:induction false} KeysFromSize<V>(d: Dict<V>, i: nat)
    requires Distinct(d) && i <= |d|
    ensures |KeysFrom(d, i)| == |d| - i
    decreases |d| - i
  {
    if i < |d| {
      KeysFromSize(d, i + 1);
      assert KeysFrom(d, i) == KeysFrom(d, i + 1) + {d[i].0};
    }
  }

  // -------------------------------------------------------------------------
  // The cache holds what the trace says
  // -------------------------------------------------------------------------

  /** Each entry holds the last value stored under its key, and stands exactly after the entries
      whose keys were touched less recently. */
  ghost predicate EntriesFit<V>(trace: seq<Event<V>>, d: Dict<V>) {
    forall i :: 0 <= i < |d| ==>
      && Since(trace, d[i].0).Some?
      && LastStored(trace, d[i].0) == Some(d[i].1)
      && forall j :: 0 <= j < |d| ==> (d[j].0 in Since(trace, d[i].0).value <==> i < j)
  }

  /** A key that is missing although it was not deleted has been outrun by `cap` other keys. */
  ghost predicate MissingFit<V>(cap: nat, trace: seq<Event<V>>, d: Dict<V>) {
    forall k :: Since(trace, k).Some? && !Has(d, k) ==> |Since(trace, k).value| >= cap
  }

  lemma SinceAfter<V>(trace: seq<Event<V>>, e: Event<V>, k: string)
    ensures Since(trace + [e], k) ==
            (if e.key == k then (if e.Delete? then None else Some({}))
             else if e.Delete? then Since(trace, k) else Also(Since(trace, k), e.key))
    ensures LastStored(trace + [e], k) ==
            (if e.key == k && e.Store? then Some(e.value)
             else if e.key == k && e.Delete? then None else LastStored(trace, k))
  {
    assert (trace + [e])[..|trace|] == trace;
  }

  lemma WithoutOneFits<V>(trace: seq<Event<V>>, d: Dict<V>, p: nat)
    requires EntriesFit(trace, d) && p < |d|
    ensures EntriesFit(trace, d[..p] + d[p + 1..])
  {
    hide Since, LastStored;
    var rest := d[..p] + d[p + 1..];
    assert forall i :: 0 <= i < |rest| ==> rest[i] == d[if i < p then i else i + 1];
  }

  lemma SuffixFits<V>(trace: seq<Event<V>>, d: Dict<V>, m: nat)
    requires EntriesFit(trace, d) && m <= |d|
    ensures EntriesFit(trace, d[m..])
  {
    hide Since, LastStored;
    assert forall i :: 0 <= i < |d[m..]| ==> d[m..][i] == d[m + i];
  }

  lemma DeletedElsewhereFits<V>(trace: seq<Event<V>>, d: Dict<V>, k: string)
    requires EntriesFit(trace, d) && !Has(d, k)
    ensures EntriesFit(trace + [Delete(k)], d)
  {
    var later := trace + [Delete(k)];
    forall i | 0 <= i < |d|
      ensures Since(later, d[i].0) == Since(trace, d[i].0) && LastStored(later, d[i].0) == LastStored(trace, d[i].0)
    {
      SinceAfter(trace, Delete(k), d[i].0);
    }
    hide Since, LastStored;
  }

  /** A touch of `k` puts `k` behind every other entry. */
  lemma TouchAppends<V>(trace: seq<Event<V>>, e: Event<V>, d: Dict<V>, v: V)
    requires EntriesFit(trace, d) && !Has(d, e.key) && !e.Delete?
    requires if e.Store? then v == e.value else LastStored(trace, e.key) == Some(v)
    ensures EntriesFit(trace + [e], d + [(e.key, v)])
  {
    var later, after := trace + [e], d + [(e.key, v)];
    SinceAfter(trace, e, e.key);
    forall i | 0 <= i < |d|
      ensures Since(later, d[i].0) == Some(Since(trace, d[i].0).value + {e.key})
      ensures LastStored(later, d[i].0) == LastStored(trace, d[i].0)
    {
      SinceAfter(trace, e, d[i].0);
    }
    hide Since, LastStored;
    forall i, j | 0 <= i < |after| && 0 <= j < |after|
      ensures after[j].0 in Since(later, after[i].0).value <==> i < j
    {
    }
  }

  lemma PopFits<V>(trace: seq<Event<V>>, d: Dict<V>, k: string)
    requires EntriesFit(trace, d)
    ensures EntriesFit(trace, Pop(d, k))
  {
    if Has(d, k) {
      WithoutOneFits(trace, d, IndexOf(d, k));
    }
  }

  lemma GetFits<V>(trace: seq<Event<V>>, d: Dict<V>, k: string)
    requires EntriesFit(trace, d) && Has(d, k)
    ensures LastStored(trace, k) == Some(Get(d, k))
  {
  }

  // Which keys are missing

  lemma OthersStay<V>(d: Dict<V>, k: string, x: string)
    requires x != k
    ensures Has(Pop(d, k), x) <==> Has(d, x)
  {
    var p := IndexOf(d, k);
    var after := Pop(d, k);
    if Has(d, k) {
      assert forall i :: 0 <= i < |after| ==> after[i] == d[if i < p then i else i + 1];
      if i :| 0 <= i < |d| && d[i].0 == x {
        assert after[if i < p then i else i - 1].0 == x;
      }
    }
  }

  lemma DeleteMissing<V>(cap: nat, trace: seq<Event<V>>, d: Dict<V>, k: string)
    requires MissingFit(cap, trace, d)
    ensures MissingFit(cap, trace + [Delete(k)], Pop(d, k))
  {
    forall x | Since(trace + [Delete(k)], x).Some? && !Has(Pop(d, k), x)
      ensures |Since(trace + [Delete(k)], x).value| >= cap
    {
      SinceAfter(trace, Delete(k), x);
      OthersStay(d, k, x);
    }
  }

  lemma AlsoGrows(s: set<string>, j: string)
    ensures |s + {j}| >= |s|
  {
    if j in s {
      assert s + {j} == s;
    }
  }

  /** A touch that evicts nothing leaves the other keys where they were. */
  lemma TouchMissing<V>(cap: nat, trace: seq<Event<V>>, e: Event<V>, d: Dict<V>, v: V)
    requires MissingFit(cap, trace, d) && !e.Delete?
    ensures MissingFit(cap, trace + [e], Pop(d, e.key) + [(e.key, v)])
  {
    var after := Pop(d, e.key) + [(e.key, v)];
    assert after[|after| - 1].0 == e.key;
    forall x | Since(trace + [e], x).Some? && !Has(after, x)
      ensures |Since(trace + [e], x).value| >= cap
    {
      SinceAfter(trace, e, x);
      OthersStay(d, e.key, x);
      assert forall i :: 0 <= i < |Pop(d, e.key)| ==> after[i] == Pop(d, e.key)[i];
      assert !Has(d, x);
      AlsoGrows(Since(trace, x).value, e.key);
    }
  }

  /** The entry that is evicted from a full cache is the oldest, and `cap` other keys have been
      touched since it was. */
  lemma EvictionMissing<V>(cap: nat, trace: seq<Event<V>>, e: Event<V>, d: Dict<V>)
    requires cap > 0 && |d| == cap && Distinct(d) && EntriesFit(trace, d) && MissingFit(cap, trace, d)
    requires e.Store? && !Has(d, e.key)
    ensures MissingFit(cap, trace + [e], d[1..] + [(e.key, e.value)])
  {
    var after := d[1..] + [(e.key, e.value)];
    assert after[|after| - 1].0 == e.key;
    forall x | Since(trace + [e], x).Some? && !Has(after, x)
      ensures |Since(trace + [e], x).value| >= cap
    {
      SinceAfter(trace, e, x);
      AlsoGrows(Since(trace, x).value, e.key);
      if Has(d, x) {
        var i :| 0 <= i < |d| && d[i].0 == x;
        assert forall j :: 1 <= j < |d| ==> after[j - 1] == d[j];
        assert i == 0;
        OldestIsOutrun(trace, d, e.key);
      }
    }
  }

  lemma OldestIsOutrun<V>(trace: seq<Event<V>>, d: Dict<V>, k: string)
    requires d != [] && Distinct(d) && EntriesFit(trace, d) && !Has(d, k)
    ensures |Since(trace, d[0].0).value + {k}| >= |d|
  {
    hide Since, LastStored;
    var others := Since(trace, d[0].0).value;
    KeysFromSize(d, 1);
    assert KeysFrom(d, 1) + {k} <= others + {k};
    assert k !in KeysFrom(d, 1);
    assert |KeysFrom(d, 1) + {k}| == |d|;
    SubsetSize(KeysFrom(d, 1) + {k}, others + {k});
  }

  lemma {:induction false} SubsetSize(a: set<string>, b: set<string>)
    requires a <= b
    ensures |a| <= |b|
  {
    if a != {} {
      var x :| x in a;
      SubsetSize(a - {x}, b - {x});
    }
  }

  // -------------------------------------------------------------------------
  // The theorem
  // -------------------------------------------------------------------------

  ghost predicate Fits<V>(cap: nat, trace: seq<Event<V>>, d: Dict<V>) {
    |d| <= cap && Distinct(d) && EntriesFit(trace, d) && MissingFit(cap, trace, d)
  }

  lemma PopIsDistinct<V>(d: Dict<V>, k: string)
    requires Distinct(d)
    ensures Has(d, k) || Pop(d, k) == d
    ensures Distinct(Pop(d, k)) && !Has(Pop(d, k), k) && |Pop(d, k)| == if Has(d, k) then |d| - 1 else |d|
  {
    var p, rest := IndexOf(d, k), Pop(d, k);
    if p < |d| {
      assert Has(d, k) && |rest| == |d| - 1;
      assert forall i :: 0 <= i < |rest| ==> rest[i] == d[if i < p then i else i + 1];
      hide Pop, IndexOf;
    }
  }

  lemma AppendIsDistinct<V>(d: Dict<V>, k: string, v: V)
    requires Distinct(d) && !Has(d, k)
    ensures Distinct(d + [(k, v)])
  {
  }

  lemma StoreEvictsOldest<V>(d: Dict<V>, k: string, v: V, cap: nat)
    requires cap > 0 && |d| <= cap && |Pop(d, k)| > cap - 1
    ensures !Has(d, k) && !Has(d[1..], k) && Stored(d, k, v, cap) == d[1..] + [(k, v)]
  {
    var p := IndexOf(d, k);
    assert forall i :: 0 <= i < |d[1..]| ==> d[1..][i] == d[i + 1];
  }

  lemma StoreFits<V>(cap: nat, trace: seq<Event<V>>, d: Dict<V>, k: string, v: V)
    requires cap > 0 && Fits(cap, trace, d)
    ensures Fits(cap, trace + [Store(k, v)], Stored(d, k, v, cap))
  {
    hide EntriesFit, MissingFit, Since, LastStored, Pop, Distinct, Has;
    var rest := Pop(d, k);
    PopIsDistinct(d, k);
    if |rest| <= cap - 1 {
      PopFits(trace, d, k);
      TouchAppends(trace, Store(k, v), rest, v);
      TouchMissing(cap, trace, Store(k, v), d, v);
      AppendIsDistinct(rest, k, v);
    } else {
      StoreEvictsOldest(d, k, v, cap);
      SuffixFits(trace, d, 1);
      TouchAppends(trace, Store(k, v), d[1..], v);
      EvictionMissing(cap, trace, Store(k, v), d);
      SuffixIsDistinct(d);
      AppendIsDistinct(d[1..], k, v);
    }
  }

  lemma SuffixIsDistinct<V>(d: Dict<V>)
    requires d != [] && Distinct(d)
    ensures Distinct(d[1..])
  {
    assert forall i :: 0 <= i < |d[1..]| ==> d[1..][i] == d[i + 1];
  }

  lemma HitFits<V>(cap: nat, trace: seq<Event<V>>, d: Dict<V>, k: string)
    requires Fits(cap, trace, d) && Has(d, k)
    ensures Fits(cap, trace + [Hit(k)], Touched(d, k))
  {
    hide EntriesFit, MissingFit, Since, LastStored, Pop, Distinct, Has;
    PopIsDistinct(d, k);
    PopFits(trace, d, k);
    GetFits(trace, d, k);
    TouchAppends(trace, Hit(k), Pop(d, k), Get(d, k));
    TouchMissing(cap, trace, Hit(k), d, Get(d, k));
    AppendIsDistinct(Pop(d, k), k, Get(d, k));
  }

  lemma DeleteFits<V>(cap: nat, trace: seq<Event<V>>, d: Dict<V>, k: string)
    requires Fits(cap, trace, d)
    ensures Fits(cap, trace + [Delete(k)], Pop(d, k))
  {
    PopIsDistinct(d, k);
    PopFits(trace, d, k);
    DeletedElsewhereFits(trace, Pop(d, k), k);
    DeleteMissing(cap, trace, d, k);
  }

  /** After every trace: never more than `cap` entries; every entry holds the last value stored;
      the order of the entries is the order of last touches; and a key that was touched and not
      deleted is missing only if at least `cap` distinct other keys were touched since. */
  lemma {:induction false} CacheIsLeastRecentlyUsed<V>(cap: nat, trace: seq<Event<V>>)
    requires cap > 0 && HitsArePresent(cap, trace)
    ensures Fits(cap, trace, Replay(cap, trace))
  {
    if trace != [] {
      var before, e := trace[..|trace| - 1], trace[|trace| - 1];
      CacheIsLeastRecentlyUsed(cap, before);
      assert trace == before + [e];
      var d := Replay(cap, before);
      match e
      case Store(k, v) => StoreFits(cap, before, d, k, v);
      case Hit(k) => HitFits(cap, before, d, k);
      case Delete(k) => DeleteFits(cap, before, d, k);
    }
  }

  /** How the dict operations of the two implementations build one abstract store. */
  lemma PutAfterTrimming<V>(d: Dict<V>, k: string, v: V, cap: nat)
    requires cap > 0 && Distinct(d)
    ensures Put(Newest(Pop(d, k), cap - 1), k, v) == Stored(d, k, v, cap)
    ensures !Has(d, k) ==> Pop(d, k) == d
  {
    PopIsDistinct(d, k);
    hide Pop, Distinct, Has;
    var rest := Pop(d, k);
    if |rest| > cap - 1 {
      SuffixLacks(rest, k, |rest| - (cap - 1));
    }
    PutNew(Newest(rest, cap - 1), k, v);
  }

  lemma PutNew<V>(d: Dict<V>, k: string, v: V)
    requires !Has(d, k)
    ensures Put(d, k, v) == d + [(k, v)]
  {
  }

  lemma SuffixLacks<V>(d: Dict<V>, k: string, m: nat)
    requires !Has(d, k) && m <= |d|
    ensures !Has(d[m..], k)
  {
    assert forall i :: 0 <= i < |d[m..]| ==> d[m..][i] == d[m + i];
  }

  /** One more store, hit or delete, seen from the concrete caches. */
  lemma NextEvent<V>(cap: nat, trace: seq<Event<V>>, e: Event<V>)
    requires cap > 0 && HitsArePresent(cap, trace)
    requires e.Hit? ==> Has(Replay(cap, trace), e.key)
    ensures HitsArePresent(cap, trace + [e])
    ensures Fits(cap, trace, Replay(cap, trace)) && |Replay(cap, trace + [e])| <= cap
    ensures e.Store? ==> Replay(cap, trace + [e]) == Stored(Replay(cap, trace), e.key, e.value, cap)
    ensures e.Hit? ==> Replay(cap, trace + [e]) == Touched(Replay(cap, trace), e.key)
                       && LastStored(trace, e.key) == Some(Get(Replay(cap, trace), e.key))
    ensures e.Delete? ==> Replay(cap, trace + [e]) == Pop(Replay(cap, trace), e.key)
  {
    assert (trace + [e])[..|trace|] == trace;
    CacheIsLeastRecentlyUsed(cap, trace);
    CacheIsLeastRecentlyUsed(cap, trace + [e]);
    if e.Hit? {
      GetFits(trace, Replay(cap, trace), e.key);
    }
  }

  predicate NeverDeletes<V>(trace: seq<Event<V>>) {
    forall i :: 0 <= i < |trace| ==> !trace[i].Delete?
  }

  /** Everything touched after an entry is itself present. */
  ghost predicate NewerArePresent<V>(trace: seq<Event<V>>, d: Dict<V>) {
    forall i, x :: 0 <= i < |d| && Since(trace, d[i].0).Some? && x in Since(trace, d[i].0).value ==> Has(d, x)
  }

  lemma TouchKeepsNewer<V>(trace: seq<Event<V>>, e: Event<V>, rest: Dict<V>, v: V)
    requires !e.Delete? && !Has(rest, e.key)
    requires forall i, x ::
               (0 <= i < |rest| && Since(trace, rest[i].0).Some? && x in Since(trace, rest[i].0).value)
               ==> Has(rest, x) || x == e.key
    ensures NewerArePresent(trace + [e], rest + [(e.key, v)])
  {
    var after := rest + [(e.key, v)];
    assert after[|rest|].0 == e.key;
    forall x | Has(rest, x)
      ensures Has(after, x)
    {
      var i :| 0 <= i < |rest| && rest[i].0 == x;
      assert after[i].0 == x;
    }
    forall i, x | 0 <= i < |after| && Since(trace + [e], after[i].0).Some? && x in Since(trace + [e], after[i].0).value
      ensures Has(after, x)
    {
      SinceAfter(trace, e, after[i].0);
      if i < |rest| {
        assert after[i] == rest[i];
      }
    }
  }

  lemma PopKeepsNewer<V>(trace: seq<Event<V>>, d: Dict<V>, k: string)
    requires NewerArePresent(trace, d)
    ensures forall i, x ::
              (0 <= i < |Pop(d, k)| && Since(trace, Pop(d, k)[i].0).Some? && x in Since(trace, Pop(d, k)[i].0).value)
              ==> Has(Pop(d, k), x) || x == k
  {
    hide Since;
    var p := IndexOf(d, k);
    var rest := Pop(d, k);
    forall i, x | 0 <= i < |rest| && Since(trace, rest[i].0).Some? && x in Since(trace, rest[i].0).value && x != k
      ensures Has(rest, x)
    {
      assert rest[i] == d[if Has(d, k) && i >= p then i + 1 else i];
      OthersStay(d, k, x);
    }
  }

  lemma EvictionKeepsNewer<V>(trace: seq<Event<V>>, d: Dict<V>)
    requires d != [] && EntriesFit(trace, d) && NewerArePresent(trace, d)
    ensures forall i, x ::
              (0 <= i < |d[1..]| && Since(trace, d[1..][i].0).Some? && x in Since(trace, d[1..][i].0).value)
              ==> Has(d[1..], x)
  {
    hide Since, LastStored;
    forall i, x | 0 <= i < |d[1..]| && Since(trace, d[1..][i].0).Some? && x in Since(trace, d[1..][i].0).value
      ensures Has(d[1..], x)
    {
      assert d[1..][i] == d[i + 1] && x in Since(trace, d[i + 1].0).value;
      assert Has(d, x);
      var j :| 0 <= j < |d| && d[j].0 == x;
      assert d[j].0 in Since(trace, d[i + 1].0).value;
      assert d[1..][j - 1].0 == x;
    }
  }

  lemma {:induction false} NewerKeysArePresent<V>(cap: nat, trace: seq<Event<V>>)
    requires cap > 0 && HitsArePresent(cap, trace) && NeverDeletes(trace)
    ensures NewerArePresent(trace, Replay(cap, trace))
  {
    if trace != [] {
      var before, e := trace[..|trace| - 1], trace[|trace| - 1];
      assert trace == before + [e];
      NewerKeysArePresent(cap, before);
      CacheIsLeastRecentlyUsed(cap, before);
      var d := Replay(cap, before);
      PopIsDistinct(d, e.key);
      PopKeepsNewer(before, d, e.key);
      match e
      case Hit(k) => TouchKeepsNewer(before, e, Pop(d, k), Get(d, k));
      case Store(k, v) =>
        if |Pop(d, k)| <= cap - 1 {
          TouchKeepsNewer(before, e, Pop(d, k), v);
        } else {
          StoreEvictsOldest(d, k, v, cap);
          EvictionKeepsNewer(before, d);
          TouchKeepsNewer(before, e, d[1..], v);
        }
    }
  }

  lemma NewerKeysCount<V>(trace: seq<Event<V>>, d: Dict<V>, i: nat)
    requires i < |d| && Distinct(d) && EntriesFit(trace, d) && NewerArePresent(trace, d)
    ensures |Since(trace, d[i].0).value| < |d|
  {
    hide Since, LastStored, Distinct;
    var newer := Since(trace, d[i].0).value;
    forall x | x in newer
      ensures x in KeysFrom(d, i + 1)
    {
      assert Has(d, x);
      var j :| 0 <= j < |d| && d[j].0 == x;
      assert d[j].0 in newer;
    }
    hide KeysFrom;
    KeysFromSize(d, i + 1);
    SubsetSize(newer, KeysFrom(d, i + 1));
  }

  /** Without deletions the cache holds exactly the keys that fewer than `cap` others have
      outrun: the reference definition of a least-recently-used cache. */
  lemma PresentIffNotOutrun<V>(cap: nat, trace: seq<Event<V>>, k: string)
    requires cap > 0 && HitsArePresent(cap, trace) && NeverDeletes(trace)
    ensures Has(Replay(cap, trace), k) <==> Since(trace, k).Some? && |Since(trace, k).value| < cap
  {
    CacheIsLeastRecentlyUsed(cap, trace);
    NewerKeysArePresent(cap, trace);
    hide Since, LastStored, Replay, NewerArePresent, Distinct;
    var d := Replay(cap, trace);
    if Has(d, k) {
      var i :| 0 <= i < |d| && d[i].0 == k;
      NewerKeysCount(trace, d, i);
    }
  }
}
