/** Bringing the live table up to the declared schema (`migrate`, scripts/migrate_db.py). Each ALTER
    commits on its own, so a run can stop half way. */
module SchemaMigration {
  import opened Wrappers
  import opened Text
  import opened Backups
  import opened SchemaParser

  datatype Exit = Code(n: nat) | Raised

  function Missing(target: seq<string>, existing: seq<string>): seq<string> {
    if target == [] then []
    else (if target[0] in existing then [] else [target[0]]) + Missing(target[1..], existing)
  }

  /** SQLite compares column names without regard to case. */
  predicate Addable(columns: seq<string>, name: string) {
    forall i :: 0 <= i < |columns| ==> LowerAscii(columns[i]) != LowerAscii(name)
  }

  /** How many of the columns `wanted` a table holds after the run that starts with the first `k`.
      `alterOk(n)` says whether the statement adding column number n goes through. */
  function Reach(wanted: seq<string>, k: nat, alterOk: nat -> bool): (r: nat)
    requires k <= |wanted|
    ensures k <= r <= |wanted|
    decreases |wanted| - k
  {
    if k < |wanted| && alterOk(k) && Addable(wanted[..k], wanted[k]) then Reach(wanted, k + 1, alterOk) else k
  }

  function Wanted(createSql: string, existing: seq<string>): seq<string>
    requires TargetColumns(createSql) != None
  {
    existing + Missing(TargetColumns(createSql).value, existing)
  }

  class Migration {
    /** The columns of the live table; None when there is no such table. */
    var table: Option<seq<string>>

    constructor (initial: Option<seq<string>>)
      ensures table == initial
    {
      table := initial;
    }

    /** `backup` is None with --no-backup; `opens` covers the connection and the checkpoint. */
    method Migrate(createSql: string, backup: Option<BackupResult>, opens: bool, alterOk: nat -> bool)
      returns (exit: Exit)
      modifies this
      ensures backup == Some(Failed) || !opens ==> exit == Code(1) && table == old(table)
      ensures backup != Some(Failed) && opens && '(' !in createSql ==> exit == Raised && table == old(table)
      ensures backup != Some(Failed) && opens && '(' in createSql && old(table) == None ==>
                && table == None
                && exit == Code(if TargetColumns(createSql).value == [] then 0 else 1)
      ensures backup != Some(Failed) && opens && '(' in createSql && old(table) != None ==>
                var wanted := Wanted(createSql, old(table).value);
                var reach := Reach(wanted, |old(table).value|, alterOk);
                && table == Some(wanted[..reach])
                && exit == Code(if reach == |wanted| then 0 else 1)
    {
      hide TargetColumns, Missing, Addable, Reach;
      if backup == Some(Failed) || !opens {
        return Code(1);
      }
      NeedsParenthesis(createSql);
      var target := ParseTargetColumns(createSql);
      if target == None {
        return Raised;
      }
      var existing := if table == None then [] else table.value;
      var missing := Missing(target.value, existing);
      if table == None {
        MissingFromNothing(target.value);
        return Code(if missing == [] then 0 else 1);
      }
      ghost var wanted := Wanted(createSql, existing);
      for k := 0 to |missing|
        invariant table == Some(wanted[..|existing| + k])
        invariant Reach(wanted, |existing|, alterOk) == Reach(wanted, |existing| + k, alterOk)
      {
        var columns := table.value;
        assert wanted[|existing| + k] == missing[k];
        ReachStep(wanted, |columns|, alterOk);
        if !alterOk(|columns|) || !Addable(columns, missing[k]) {
          return Code(1);
        }
        table := Some(columns + [missing[k]]);
        assert wanted[..|existing| + k + 1] == wanted[..|existing| + k] + [missing[k]];
      }
      assert wanted[..|existing| + |missing|] == wanted;
      return Code(0);
    }
  }

  lemma ReachStep(wanted: seq<string>, k: nat, alterOk: nat -> bool)
    requires k < |wanted|
    ensures Reach(wanted, k, alterOk) ==
            if alterOk(k) && Addable(wanted[..k], wanted[k]) then Reach(wanted, k + 1, alterOk) else k
  {
  }

  lemma NeedsParenthesis(createSql: string)
    ensures TargetColumns(createSql) == None <==> '(' !in createSql
  {
  }

  lemma {:induction false} MissingFromNothing(target: seq<string>)
    ensures Missing(target, []) == target
  {
    if target != [] {
      MissingFromNothing(target[1..]);
      assert target == [target[0]] + target[1..];
    }
  }

  // -------------------------------------------------------------------------
  // What a migration guarantees
  // -------------------------------------------------------------------------

  lemma {:induction false} MissingIff(target: seq<string>, existing: seq<string>, c: string)
    ensures c in Missing(target, existing) <==> c in target && c !in existing
  {
    if target != [] {
      MissingIff(target[1..], existing, c);
      assert target == [target[0]] + target[1..];
    }
  }

  /** A finished migration holds every target column, and a second run has nothing to add. */
  lemma SecondRunAddsNone(target: seq<string>, existing: seq<string>)
    ensures forall c :: c in existing + Missing(target, existing) <==> c in existing || c in target
    ensures Missing(target, existing + Missing(target, existing)) == []
  {
    var full := existing + Missing(target, existing);
    forall c
      ensures c in full <==> c in existing || c in target
    {
      MissingIff(target, existing, c);
    }
    var again := Missing(target, full);
    if again != [] {
      MissingIff(target, full, again[0]);
    }
  }

  /** No name is to be added that another column already has in some other case. */
  predicate NoClash(wanted: seq<string>, k: nat)
    requires k <= |wanted|
  {
    forall j :: k <= j < |wanted| ==> Addable(wanted[..j], wanted[j])
  }

  /** A run completes if and only if no ALTER is refused and no names clash. */
  lemma {:induction false} CompletesIff(wanted: seq<string>, k: nat, alterOk: nat -> bool)
    requires k <= |wanted|
    ensures Reach(wanted, k, alterOk) == |wanted| <==>
            NoClash(wanted, k) && forall j :: k <= j < |wanted| ==> alterOk(j)
    decreases |wanted| - k
  {
    hide Addable;
    if k < |wanted| {
      CompletesIff(wanted, k + 1, alterOk);
    }
  }

  /** An interrupted run, then a run with nothing refused: the table is the same as after one
      uninterrupted run, column order included. */
  lemma InterruptedRunIsMadeGood(target: seq<string>, existing: seq<string>, cut: nat -> bool, whole: nat -> bool)
    requires forall n :: whole(n)
    requires NoClash(existing + Missing(target, existing), |existing|)
    ensures
      var wanted := existing + Missing(target, existing);
      var half := wanted[..Reach(wanted, |existing|, cut)];
      && Reach(wanted, |existing|, whole) == |wanted|
      && half + Missing(target, half) == wanted
      && Reach(half + Missing(target, half), |half|, whole) == |wanted|
  {
    hide Missing, Reach, NoClash;
    var wanted := existing + Missing(target, existing);
    var reach := Reach(wanted, |existing|, cut);
    CompletesIff(wanted, |existing|, whole);
    RestIsMissing(target, existing, reach);
    NoClashLater(wanted, |existing|, reach);
    CompletesIff(wanted, reach, whole);
  }

  lemma NoClashLater(wanted: seq<string>, k: nat, n: nat)
    requires k <= n <= |wanted| && NoClash(wanted, k)
    ensures NoClash(wanted, n)
  {
    hide Addable;
  }

  lemma RestIsMissing(target: seq<string>, existing: seq<string>, reach: nat)
    requires |existing| <= reach <= |existing + Missing(target, existing)|
    requires NoClash(existing + Missing(target, existing), |existing|)
    ensures
      var wanted := existing + Missing(target, existing);
      wanted[..reach] + Missing(target, wanted[..reach]) == wanted
  {
    hide Missing, NoClash;
    var missing := Missing(target, existing);
    var wanted := existing + missing;
    var n := reach - |existing|;
    NoClashIsDistinct(wanted, |existing|);
    forall i, j | 0 <= i < j < |missing|
      ensures missing[i] != missing[j]
    {
      assert missing[i] == wanted[|existing| + i] && missing[j] == wanted[|existing| + j];
    }
    assert wanted[..reach] == existing + missing[..n];
    MissingOneByOne(target, existing, missing[..n]);
    RestOfDistinct(missing, n);
    assert wanted[..reach] + missing[n..] == wanted;
  }

  lemma NoClashIsDistinct(wanted: seq<string>, k: nat)
    requires k <= |wanted| && NoClash(wanted, k)
    ensures forall i, j :: 0 <= i < j < |wanted| && k <= j ==> wanted[i] != wanted[j]
  {
    forall i, j | 0 <= i < j < |wanted| && k <= j
      ensures wanted[i] != wanted[j]
    {
      assert Addable(wanted[..j], wanted[j]);
      assert wanted[..j][i] == wanted[i];
    }
  }

  /** Adding `added` to the table takes exactly those names out of what is missing. */
  lemma {:induction false} MissingOneByOne(target: seq<string>, existing: seq<string>, added: seq<string>)
    ensures Missing(target, existing + added) == Missing(Missing(target, existing), added)
  {
    if target != [] {
      MissingOneByOne(target[1..], existing, added);
      var c := target[0];
      var rest := Missing(target[1..], existing);
      if c !in existing {
        assert ([c] + rest)[1..] == rest;
      } else {
        assert [] + rest == rest;
      }
    }
  }

  lemma {:induction false} RestOfDistinct(s: seq<string>, n: nat)
    requires n <= |s| && Distinct(s)
    ensures Missing(s, s[..n]) == s[n..]
  {
    MissingSuffix(s, n, n);
    MissingPrefix(s, n, n);
  }

  lemma {:induction false} MissingSuffix(s: seq<string>, n: nat, k: nat)
    requires n <= k <= |s| && Distinct(s)
    ensures Missing(s[k..], s[..n]) == s[k..]
    decreases |s| - k
  {
    if k < |s| {
      assert s[k..][1..] == s[k + 1..] && s[k] !in s[..n];
      MissingSuffix(s, n, k + 1);
      assert [s[k]] + s[k + 1..] == s[k..];
    }
  }

  lemma {:induction false} MissingPrefix(s: seq<string>, n: nat, k: nat)
    requires k <= n <= |s|
    ensures Missing(s[n - k..], s[..n]) == Missing(s[n..], s[..n])
  {
    if k > 0 {
      var at := n - k;
      assert s[at..][1..] == s[at + 1..] && s[at] == s[..n][at];
      MissingPrefix(s, n, k - 1);
    }
  }
}
