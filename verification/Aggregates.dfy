/** The dashboard totals (manyfaced/db/storage.py, aggregate_stats) over the rows of one window:
    the detected split, the two-stage service grouping and the volume buckets. */
module Aggregates {
  import opened Wrappers

  const DETECTED_SERVICE_MAX: int := 1009

  type DetectedId = Option<int>

  predicate IsDetected(id: DetectedId) {
    id != None && 1 <= id.value <= DETECTED_SERVICE_MAX
  }

  /** The friendly label: every id without a name collapses to "unknown". */
  function DetectedIdName(names: map<int, string>, id: DetectedId): string {
    if id != None && id.value in names then names[id.value] else "unknown"
  }

  /** COUNT(*) ... WHERE detected_id BETWEEN 1 AND ?: NULL is neither inside nor outside. */
  function CountBetween(ids: seq<DetectedId>, low: int, high: int): nat {
    if ids == [] then 0
    else CountBetween(ids[1..], low, high) +
         (match ids[0] case None => 0 case Some(id) => if low <= id <= high then 1 else 0)
  }

  function CountIf<T>(s: seq<T>, p: T -> bool): nat {
    if s == [] then 0 else CountIf(s[1..], p) + if p(s[0]) then 1 else 0
  }

  /** total, detected and undetected as the program computes them. */
  function Split(ids: seq<DetectedId>): (nat, nat, int) {
    var detected := CountBetween(ids, 1, DETECTED_SERVICE_MAX);
    (|ids|, detected, |ids| - detected)
  }

  /** The detected count is that of the rows `is_detected` accepts, the undetected one that of all
      others, NULL ids among them. */
  lemma {:induction false} SplitCountsDetected(ids: seq<DetectedId>)
    ensures var (total, detected, undetected) := Split(ids);
            && detected == CountIf(ids, id => IsDetected(id))
            && undetected == CountIf(ids, id => !IsDetected(id))
            && detected == CountIf(ids, id => id != None && 1 <= id.value <= 1009)
            && detected + undetected == total
  {
    if ids != [] {
      SplitCountsDetected(ids[1..]);
    }
  }

  // -------------------------------------------------------------------------
  // GROUP BY
  // -------------------------------------------------------------------------

  function Occurrences<T(==)>(s: seq<T>, k: T): nat {
    if s == [] then 0 else Occurrences(s[1..], k) + if s[0] == k then 1 else 0
  }

  /** What SELECT k, COUNT(*) ... GROUP BY k returns, in whatever order. */
  predicate IsGrouping<T(==)>(groups: seq<(T, nat)>, s: seq<T>) {
    && (forall i, j :: 0 <= i < j < |groups| ==> groups[i].0 != groups[j].0)
    && (forall i :: 0 <= i < |groups| ==> groups[i].1 == Occurrences(s, groups[i].0) > 0)
    && (forall k :: k in s ==> exists i :: 0 <= i < |groups| && groups[i].0 == k)
  }

  function Total<T>(groups: seq<(T, nat)>): nat {
    if groups == [] then 0 else groups[0].1 + Total(groups[1..])
  }

  function Remove<T(==)>(s: seq<T>, k: T): seq<T> {
    if s == [] then [] else (if s[0] == k then [] else [s[0]]) + Remove(s[1..], k)
  }

  lemma {:induction false} RemoveMembers<T>(s: seq<T>, k: T)
    ensures forall x :: x in Remove(s, k) <==> x in s && x != k
    ensures |s| == |Remove(s, k)| + Occurrences(s, k)
    ensures forall x :: Occurrences(Remove(s, k), x) == if x == k then 0 else Occurrences(s, x)
  {
    if s != [] {
      RemoveMembers(s[1..], k);
      var rest := Remove(s[1..], k);
      if s[0] != k {
        assert Remove(s, k) == [s[0]] + rest;
        assert Remove(s, k)[1..] == rest;
      } else {
        assert Remove(s, k) == rest;
      }
    }
  }

  lemma MemberOfRemove<T>(s: seq<T>, k: T, x: T)
    ensures x in Remove(s, k) <==> x in s && x != k
  {
    RemoveMembers(s, k);
  }

  lemma {:induction false} OccursIffMember<T>(s: seq<T>, k: T)
    ensures Occurrences(s, k) > 0 <==> k in s
  {
    if s != [] {
      OccursIffMember(s[1..], k);
    }
  }

  /** Leaving out the first group groups the rows without its key. */
  lemma TailIsGrouping<T>(groups: seq<(T, nat)>, s: seq<T>)
    requires groups != [] && IsGrouping(groups, s)
    ensures IsGrouping(groups[1..], Remove(s, groups[0].0))
  {
    var k, rest := groups[0].0, groups[1..];
    RemoveMembers(s, k);
    assert forall i :: 0 <= i < |rest| ==> rest[i] == groups[i + 1];
    forall x | x in Remove(s, k)
      ensures exists i :: 0 <= i < |rest| && rest[i].0 == x
    {
      MemberOfRemove(s, k, x);
      var i :| 0 <= i < |groups| && groups[i].0 == x;
      assert rest[i - 1].0 == x;
    }
  }

  /** The counts of any grouping sum to the number of rows, as in the volume series. */
  lemma {:induction false} GroupingCoversTotal<T>(groups: seq<(T, nat)>, s: seq<T>)
    requires IsGrouping(groups, s)
    ensures Total(groups) == |s|
    decreases groups
  {
    assert |s| > 0 ==> s[0] in s;
    if groups != [] {
      TailIsGrouping(groups, s);
      RemoveMembers(s, groups[0].0);
      GroupingCoversTotal(groups[1..], Remove(s, groups[0].0));
    }
  }

  // -------------------------------------------------------------------------
  // Services: group by id, then sum by service
  // -------------------------------------------------------------------------

  function LabelSum(names: map<int, string>, groups: seq<(DetectedId, nat)>, service: string): nat {
    if groups == [] then 0
    else LabelSum(names, groups[..|groups| - 1], service) +
         if DetectedIdName(names, groups[|groups| - 1].0) == service then groups[|groups| - 1].1 else 0
  }

  /** The rows whose id maps to the label, counted directly. */
  function CountByLabel(names: map<int, string>, ids: seq<DetectedId>, service: string): nat {
    if ids == [] then 0
    else CountByLabel(names, ids[1..], service) + if DetectedIdName(names, ids[0]) == service then 1 else 0
  }

  function CountOf(counts: map<string, nat>, service: string): nat {
    if service in counts then counts[service] else 0
  }

  /** The rows of a Counter, one per label, in whatever order `most_common` puts them. */
  predicate ListsCounts(rows: seq<(string, nat)>, counts: map<string, nat>) {
    && (forall i, j :: 0 <= i < j < |rows| ==> rows[i].0 != rows[j].0)
    && (forall i :: 0 <= i < |rows| ==> rows[i].0 in counts && rows[i].1 == counts[rows[i].0])
    && (forall k :: k in counts ==> exists i :: 0 <= i < |rows| && rows[i].0 == k)
  }

  function Labels(names: map<int, string>, ids: seq<DetectedId>): seq<string> {
    if ids == [] then [] else [DetectedIdName(names, ids[0])] + Labels(names, ids[1..])
  }

  /** Each label has the sum of the groups that map to it, and only labels of groups are there. */
  ghost predicate SumsLabels(names: map<int, string>, groups: seq<(DetectedId, nat)>, counts: map<string, nat>) {
    && (forall k :: k in counts ==> exists i :: 0 <= i < |groups| && DetectedIdName(names, groups[i].0) == k)
    && (forall i :: 0 <= i < |groups| ==> DetectedIdName(names, groups[i].0) in counts)
    && (forall k :: CountOf(counts, k) == LabelSum(names, groups, k))
  }

  /** The Counter loop over the rows of the first grouping. When those are the groups of the rows'
      ids, the by_service rows are the groups of the rows' labels and sum to the total. */
  method ServiceCounts(names: map<int, string>, groups: seq<(DetectedId, nat)>) returns (counts: map<string, nat>)
    ensures SumsLabels(names, groups, counts)
    ensures forall ids, byService :: IsGrouping(groups, ids) && ListsCounts(byService, counts) ==>
              IsGrouping(byService, Labels(names, ids)) && Total(byService) == |ids|
  {
    hide LabelSum, IsGrouping, ListsCounts, SumsLabels;
    counts := map[];
    NoLabelsYet(names);
    assert groups[..0] == [];
    for i := 0 to |groups|
      invariant SumsLabels(names, groups[..i], counts)
    {
      AddsGroup(names, groups, i, counts);
      var service := DetectedIdName(names, groups[i].0);
      counts := counts[service := CountOf(counts, service) + groups[i].1];
    }
    assert groups[..|groups|] == groups;
    forall ids, byService | IsGrouping(groups, ids) && ListsCounts(byService, counts)
      ensures IsGrouping(byService, Labels(names, ids)) && Total(byService) == |ids|
    {
      ByServiceGroupsTheLabels(names, groups, ids, counts, byService);
    }
  }

  lemma NoLabelsYet(names: map<int, string>)
    ensures SumsLabels(names, [], map[])
  {
  }

  lemma AddsGroup(names: map<int, string>, groups: seq<(DetectedId, nat)>, i: nat, counts: map<string, nat>)
    requires i < |groups| && SumsLabels(names, groups[..i], counts)
    ensures var service := DetectedIdName(names, groups[i].0);
            SumsLabels(names, groups[..i + 1], counts[service := CountOf(counts, service) + groups[i].1])
  {
    hide DetectedIdName;
    var done := groups[..i + 1];
    assert done[..i] == groups[..i];
    assert forall k :: LabelSum(names, done, k) ==
                       LabelSum(names, done[..i], k) + if DetectedIdName(names, done[i].0) == k then done[i].1 else 0;
    assert forall j :: 0 <= j < i ==> done[j] == groups[..i][j];
  }

  lemma {:induction false} LabelsOccur(names: map<int, string>, ids: seq<DetectedId>, service: string)
    ensures |Labels(names, ids)| == |ids|
    ensures CountByLabel(names, ids, service) == Occurrences(Labels(names, ids), service)
    ensures service in Labels(names, ids) <==> exists id :: id in ids && DetectedIdName(names, id) == service
  {
    if ids != [] {
      hide DetectedIdName;
      LabelsOccur(names, ids[1..], service);
      assert ids == [ids[0]] + ids[1..];
      assert Labels(names, ids)[1..] == Labels(names, ids[1..]);
    }
  }

  /** by_service is one row per label of the window, with the number of rows of that label: exactly
      what grouping the labels themselves would give. Its counts sum to the total. */
  lemma ByServiceGroupsTheLabels(
    names: map<int, string>, groups: seq<(DetectedId, nat)>, ids: seq<DetectedId>,
    counts: map<string, nat>, byService: seq<(string, nat)>)
    requires IsGrouping(groups, ids) && SumsLabels(names, groups, counts) && ListsCounts(byService, counts)
    ensures IsGrouping(byService, Labels(names, ids)) && Total(byService) == |ids|
  {
    hide LabelSum, CountByLabel, Occurrences, Total, DetectedIdName;
    var labels := Labels(names, ids);
    LabelsOccur(names, ids, "");
    forall i | 0 <= i < |byService|
      ensures byService[i].1 == Occurrences(labels, byService[i].0) > 0
    {
      var service := byService[i].0;
      TwoStagesCountLabels(names, groups, ids, service);
      LabelsOccur(names, ids, service);
      assert CountOf(counts, service) == counts[service];
      var j :| 0 <= j < |groups| && DetectedIdName(names, groups[j].0) == service;
      OccursIffMember(ids, groups[j].0);
      OccursIffMember(labels, service);
    }
    forall service | service in labels
      ensures exists i :: 0 <= i < |byService| && byService[i].0 == service
    {
      LabelsOccur(names, ids, service);
      var id :| id in ids && DetectedIdName(names, id) == service;
      var j :| 0 <= j < |groups| && groups[j].0 == id;
      assert service in counts;
    }
    GroupingCoversTotal(byService, labels);
  }

  lemma {:induction false} LabelSumOfCons(names: map<int, string>, groups: seq<(DetectedId, nat)>, service: string)
    requires groups != []
    ensures LabelSum(names, groups, service) ==
            LabelSum(names, groups[1..], service) +
            if DetectedIdName(names, groups[0].0) == service then groups[0].1 else 0
    decreases |groups|
  {
    var n := |groups| - 1;
    if n > 0 {
      LabelSumOfCons(names, groups[..n], service);
      assert groups[..n][1..] == groups[1..][..n - 1];
    } else {
      assert groups[1..] == [] && groups[..n] == [];
    }
  }

  lemma {:induction false} CountByLabelWithout(
    names: map<int, string>, ids: seq<DetectedId>, k: DetectedId, service: string)
    ensures CountByLabel(names, ids, service) ==
            CountByLabel(names, Remove(ids, k), service) +
            if DetectedIdName(names, k) == service then Occurrences(ids, k) else 0
  {
    if ids != [] {
      hide DetectedIdName;
      CountByLabelWithout(names, ids[1..], k, service);
      if ids[0] != k {
        assert Remove(ids, k) == [ids[0]] + Remove(ids[1..], k);
        assert Remove(ids, k)[1..] == Remove(ids[1..], k);
      } else {
        assert Remove(ids, k) == Remove(ids[1..], k);
      }
    }
  }

  /** Grouping by id and summing by service counts, for every service, exactly the rows whose id maps
      to it: ids without a name merge into one "unknown" row. */
  lemma {:induction false} TwoStagesCountLabels(
    names: map<int, string>, groups: seq<(DetectedId, nat)>, ids: seq<DetectedId>, service: string)
    requires IsGrouping(groups, ids)
    ensures LabelSum(names, groups, service) == CountByLabel(names, ids, service)
    decreases groups
  {
    assert |ids| > 0 ==> ids[0] in ids;
    if groups != [] {
      TailIsGrouping(groups, ids);
      TwoStagesCountLabels(names, groups[1..], Remove(ids, groups[0].0), service);
      LabelSumOfCons(names, groups, service);
      CountByLabelWithout(names, ids, groups[0].0, service);
    }
  }

  /** The id has this name in the table. */
  predicate IsNamed(names: map<int, string>, id: DetectedId, service: string) {
    id.Some? && id.value in names && names[id.value] == service
  }

  predicate HasName(names: map<int, string>, id: DetectedId) {
    id.Some? && id.value in names
  }

  lemma {:induction false} LabelOccurs(names: map<int, string>, ids: seq<DetectedId>, service: string)
    ensures Occurrences(Labels(names, ids), service) ==
            CountIf(ids, id => IsNamed(names, id, service) || (service == "unknown" && !HasName(names, id)))
  {
    if ids != [] {
      LabelOccurs(names, ids[1..], service);
      assert Labels(names, ids)[1..] == Labels(names, ids[1..]);
    }
  }

  /** A row of by_service counts the captures whose id has that name; the row "unknown" also those
      whose id has no name, NULL ids among them. */
  lemma ServiceRowsCount(names: map<int, string>, ids: seq<DetectedId>, byService: seq<(string, nat)>, i: nat)
    requires IsGrouping(byService, Labels(names, ids)) && i < |byService|
    ensures var (service, count) := byService[i];
            count ==
            CountIf(ids, id => IsNamed(names, id, service) || (service == "unknown" && !HasName(names, id)))
  {
    LabelOccurs(names, ids, byService[i].0);
  }
}
