/** Stamped copies of the database file and their pruning (`_prune_backups`, `_backup`,
    scripts/migrate_db.py). Files are named by the path `os.path.join(directory, name)` gives. */
module Backups {
  import opened Text
  import opened TextOrder

  // -------------------------------------------------------------------------
  // POSIX paths
  // -------------------------------------------------------------------------

  /** One past the last '/'. */
  function LastSlash(p: string): (i: nat)
    ensures i <= |p| && '/' !in p[i..] && (i > 0 ==> p[i - 1] == '/')
  {
    if p == "" then 0
    else if p[|p| - 1] == '/' then |p|
    else
      var i := LastSlash(p[..|p| - 1]);
      assert p[i..] == p[..|p| - 1][i..] + [p[|p| - 1]];
      i
  }

  function Head(p: string): string {
    p[..LastSlash(p)]
  }

  function Base(p: string): string {
    p[LastSlash(p)..]
  }

  predicate AllSlashes(s: string) {
    forall i :: 0 <= i < |s| ==> s[i] == '/'
  }

  function DropSlashes(s: string): string {
    if s != "" && s[|s| - 1] == '/' then DropSlashes(s[..|s| - 1]) else s
  }

  function Dirname(p: string): string {
    if AllSlashes(Head(p)) then Head(p) else DropSlashes(Head(p))
  }

  /** `os.path.dirname(db_path) or '.'` */
  function Directory(dbPath: string): string {
    if Dirname(dbPath) == "" then "." else Dirname(dbPath)
  }

  /** What `os.path.join(directory, name)` puts before a name without '/'. */
  function Prefix(dbPath: string): string {
    var dir := Directory(dbPath);
    if dir[|dir| - 1] == '/' then dir else dir + "/"
  }

  // -------------------------------------------------------------------------
  // Backup names
  // -------------------------------------------------------------------------

  /** `\.\d{14}\.bak$`; the dollar also matches before one final newline. */
  predicate IsStampTail(t: string) {
    && (|t| == 19 || (|t| == 20 && t[19] == '\n'))
    && t[0] == '.' && t[15..19] == ".bak"
    && forall i :: 1 <= i < 15 ==> '0' <= t[i] <= '9'
  }

  predicate Matches(dbPath: string, path: string) {
    StartsWith(path, dbPath) && IsStampTail(path[|dbPath|..])
  }

  /** Where a copy stamped `stamp` shows up in a listing of its directory. */
  function Entry(dbPath: string, stamp: string): string {
    Prefix(dbPath) + Base(dbPath) + "." + stamp + ".bak"
  }

  predicate IsStamp(stamp: string) {
    |stamp| == 14 && IsDigits(stamp)
  }

  /** The path has a directory part that ends in exactly one slash, or is all slashes. */
  predicate DirectoryQualified(dbPath: string) {
    var head := Head(dbPath);
    head != "" && (AllSlashes(head) || (|head| >= 2 && head[|head| - 2] != '/'))
  }

  // -------------------------------------------------------------------------
  // Sorting
  // -------------------------------------------------------------------------

  predicate Ascending(s: seq<string>) {
    forall i, j :: 0 <= i < j < |s| ==> Lte(s[i], s[j])
  }

  function Inserted(x: string, s: seq<string>): (r: seq<string>)
    ensures multiset(r) == multiset(s) + multiset{x}
  {
    if s == [] || Lte(x, s[0]) then [x] + s
    else
      assert s == [s[0]] + s[1..];
      [s[0]] + Inserted(x, s[1..])
  }

  function Sorted(s: seq<string>): (r: seq<string>)
    ensures multiset(r) == multiset(s)
  {
    if s == [] then []
    else
      assert s == [s[0]] + s[1..];
      Inserted(s[0], Sorted(s[1..]))
  }

  lemma {:induction false} InsertedAscends(x: string, s: seq<string>)
    requires Ascending(s)
    ensures Ascending(Inserted(x, s))
  {
    hide Before;
    if s == [] {
    } else if Lte(x, s[0]) {
      forall j | 0 <= j < |s|
        ensures Lte(x, s[j])
      {
        if j > 0 {
          LteTransitive(x, s[0], s[j]);
        }
      }
    } else {
      var rest := Inserted(x, s[1..]);
      InsertedAscends(x, s[1..]);
      BeforeIsStrict(x, s[0]);
      forall j | 0 <= j < |rest|
        ensures Lte(s[0], rest[j])
      {
        assert rest[j] in multiset(s[1..]) + multiset{x};
      }
    }
  }

  lemma {:induction false} SortedAscends(s: seq<string>)
    ensures Ascending(Sorted(s))
  {
    if s != [] {
      SortedAscends(s[1..]);
      InsertedAscends(s[0], Sorted(s[1..]));
    }
  }

  // -------------------------------------------------------------------------
  // Pruning
  // -------------------------------------------------------------------------

  function Matching(dbPath: string, listing: seq<string>): seq<string> {
    if listing == [] then []
    else (if Matches(dbPath, listing[0]) then [listing[0]] else []) + Matching(dbPath, listing[1..])
  }

  /** `backups[:-keep] if keep > 0 else backups` */
  function Excess(backups: seq<string>, keep: nat): seq<string> {
    if |backups| <= keep then [] else backups[..|backups| - keep]
  }

  /** `listing` is a listing of the directory, in any order. */
  ghost predicate IsListing(listing: seq<string>, files: set<string>) {
    && (forall f :: f in files <==> f in listing)
    && Distinct(listing)
  }

  function Doomed(dbPath: string, listing: seq<string>, keep: nat): seq<string> {
    Excess(Sorted(Matching(dbPath, listing)), keep)
  }

  datatype CopyResult = Copied | CopyFailed(partialLeft: bool)

  datatype BackupResult = Skipped | Written(path: string) | Failed

  class BackupDirectory {
    var files: set<string>

    constructor (initial: set<string>)
      ensures files == initial
    {
      files := initial;
    }

    /** `removable` says which removals the operating system lets through; a refusal is ignored. */
    method Prune(dbPath: string, keep: int, listing: seq<string>, removable: string -> bool)
      requires IsListing(listing, files)
      modifies this
      ensures keep < 0 ==> files == old(files)
      ensures keep >= 0 ==>
                forall f :: f in files <==> f in old(files) && !(f in Doomed(dbPath, listing, keep) && removable(f))
      ensures keep >= 0 && (forall f :: removable(f)) ==> OldestWent(dbPath, old(files), files)
    {
      hide OldestWent, Doomed;
      if keep < 0 {
        return;
      }
      var excess := Doomed(dbPath, listing, keep);
      for k := 0 to |excess|
        invariant forall f :: f in files <==> f in old(files) && !(f in excess[..k] && removable(f))
      {
        if removable(excess[k]) {
          files := files - {excess[k]};
        }
        assert excess[..k + 1] == excess[..k] + [excess[k]];
      }
      assert excess[..|excess|] == excess;
      if forall f :: removable(f) {
        PrunedOldestWent(dbPath, keep, listing, old(files), files);
      }
    }

    /** Prune to one less, then copy. A failed copy may take an older copy of the same second along. */
    method Backup(dbPath: string, keep: int, stamp: string, present: bool, listing: seq<string>,
                  removable: string -> bool, room: bool, copy: CopyResult)
      returns (result: BackupResult)
      requires IsListing(listing, files)
      modifies this
      ensures !present ==> result == Skipped && files == old(files)
      ensures present && keep == 0 ==> result == Skipped
      ensures present && keep != 0 ==>
                result == if room && copy == Copied then Written(dbPath + "." + stamp + ".bak") else Failed
      ensures present && keep < 0 ==>
                forall f :: f != Entry(dbPath, stamp) || !room ==> (f in files <==> f in old(files))
      ensures present && keep >= 0 ==>
                forall f :: f != Entry(dbPath, stamp) || keep == 0 || !room ==>
                  (f in files <==>
                   f in old(files)
                   && !(f in Doomed(dbPath, listing, if keep == 0 then 0 else keep - 1) && removable(f)))
      ensures present && keep != 0 && room ==>
                (Entry(dbPath, stamp) in files <==> copy == Copied || copy.partialLeft)
      ensures present && keep > 0 && room && copy == Copied && IsStamp(stamp) && (forall f :: removable(f)) ==>
                CleanBackup(dbPath, keep, stamp, listing, old(files), files)
    {
      if !present {
        return Skipped;
      }
      if keep == 0 {
        Prune(dbPath, 0, listing, removable);
        return Skipped;
      }
      if keep > 0 {
        Prune(dbPath, keep - 1, listing, removable);
      }
      if !room {
        return Failed;
      }
      match copy {
        case Copied =>
          files := files + {Entry(dbPath, stamp)};
          return Written(dbPath + "." + stamp + ".bak");
        case CopyFailed(partialLeft) =>
          files := if partialLeft then files + {Entry(dbPath, stamp)} else files - {Entry(dbPath, stamp)};
          return Failed;
      }
    }
  }

  // -------------------------------------------------------------------------
  // Which copies pruning sees
  // -------------------------------------------------------------------------

  /** Where a copy is listed: beside the database, and for a bare file name under `./`. */
  lemma EntryOfPath(dir: string, name: string, stamp: string)
    requires '/' !in name
    ensures Entry(name, stamp) == "./" + name + "." + stamp + ".bak"
    ensures dir != "" && dir[|dir| - 1] != '/' ==>
              Entry(dir + "/" + name, stamp) == dir + "/" + name + "." + stamp + ".bak"
  {
    hide Prefix, Base, Head;
    HeadOfPath("", name);
    assert "" + name == name;
    PrefixOfHead(name, "");
    if dir != "" && dir[|dir| - 1] != '/' {
      HeadOfPath(dir + "/", name);
      PrefixOfHead(dir + "/" + name, dir);
    }
  }

  lemma PrefixOfHead(dbPath: string, dir: string)
    ensures Head(dbPath) == "" ==> Prefix(dbPath) == "./"
    ensures dir != "" && dir[|dir| - 1] != '/' && Head(dbPath) == dir + "/" ==> Prefix(dbPath) == dir + "/"
  {
    hide Head;
    if dir != "" && dir[|dir| - 1] != '/' && Head(dbPath) == dir + "/" {
      var head := dir + "/";
      assert head[..|head| - 1] == dir && head[|dir| - 1] == dir[|dir| - 1];
      assert DropSlashes(head) == DropSlashes(dir) == dir;
    }
  }

  lemma HeadOfPath(head: string, name: string)
    requires '/' !in name && (head != "" ==> head[|head| - 1] == '/')
    ensures Head(head + name) == head && Base(head + name) == name
  {
    hide LastSlash;
    var p := head + name;
    var i := LastSlash(p);
    assert forall k :: |head| <= k < |p| ==> p[k] == name[k - |head|];
    assert i <= |head|;
    forall k | i <= k < |p|
      ensures p[k] != '/'
    {
      assert p[k] == p[i..][k - i];
    }
    assert head != "" ==> p[|head| - 1] == '/';
    assert i == |head|;
    assert p[..i] == head && p[i..] == name;
  }

  ghost predicate IsStampedName(dbPath: string, f: string) {
    exists stamp :: IsStamp(stamp) && (f == dbPath + "." + stamp + ".bak" || f == dbPath + "." + stamp + ".bak\n")
  }

  /** Pruning sees the path itself followed by a dot, fourteen digits, `.bak` and perhaps one newline,
      and no other name. */
  lemma MatchesIff(dbPath: string, f: string)
    ensures Matches(dbPath, f) <==> IsStampedName(dbPath, f)
  {
    if Matches(dbPath, f) {
      var stamp := StampOf(dbPath, f);
      EndOfName(dbPath, f);
      assert f == dbPath + "." + stamp + f[|dbPath| + 15..];
    }
    if stamp :| IsStamp(stamp) && (f == dbPath + "." + stamp + ".bak" || f == dbPath + "." + stamp + ".bak\n") {
      if f == dbPath + "." + stamp + ".bak" {
        StampedNameMatches(dbPath, f, stamp, "");
      } else {
        StampedNameMatches(dbPath, f, stamp, "\n");
      }
    }
  }

  lemma StampedNameMatches(dbPath: string, f: string, stamp: string, eol: string)
    requires IsStamp(stamp) && (eol == "" || eol == "\n")
    requires f == dbPath + "." + stamp + (".bak" + eol)
    ensures Matches(dbPath, f)
  {
    assert f[..|dbPath|] == dbPath;
    var t := f[|dbPath|..];
    assert t == "." + stamp + (".bak" + eol);
    assert t[15..19] == ".bak";
  }

  /** Pruning sees the copies a run writes if and only if the path is directory-qualified;
      with a bare file name, or doubled slashes before it, it never matches anything. */
  lemma OwnCopiesAreSeenIff(dbPath: string, stamp: string)
    requires IsStamp(stamp)
    ensures Matches(dbPath, Entry(dbPath, stamp)) <==> DirectoryQualified(dbPath)
    ensures !DirectoryQualified(dbPath) ==>
              forall name: string :: '/' !in name ==> !Matches(dbPath, Prefix(dbPath) + name)
  {
    hide Matches, Prefix, DirectoryQualified, IsStampTail;
    PrefixIsHeadIff(dbPath);
    var name := Base(dbPath) + "." + stamp + ".bak";
    assert Entry(dbPath, stamp) == Prefix(dbPath) + name;
    assert '/' !in name;
    if DirectoryQualified(dbPath) {
      OwnCopyMatches(dbPath, stamp);
    }
    forall n: string | '/' !in n && Matches(dbPath, Prefix(dbPath) + n)
      ensures DirectoryQualified(dbPath)
    {
      MatchFixesThePrefix(dbPath, n);
    }
  }

  lemma OwnCopyMatches(dbPath: string, stamp: string)
    requires IsStamp(stamp) && Prefix(dbPath) == Head(dbPath)
    ensures Matches(dbPath, Entry(dbPath, stamp))
  {
    hide Prefix, LastSlash;
    var tail := "." + stamp + ".bak";
    assert dbPath == Head(dbPath) + Base(dbPath);
    assert Entry(dbPath, stamp) == dbPath + tail;
    assert Entry(dbPath, stamp)[|dbPath|..] == tail;
    assert tail[15..19] == ".bak";
    assert forall i :: 1 <= i < 15 ==> tail[i] == stamp[i - 1];
  }

  lemma MatchFixesThePrefix(dbPath: string, name: string)
    requires '/' !in name && Matches(dbPath, Prefix(dbPath) + name)
    ensures Prefix(dbPath) == Head(dbPath)
  {
    hide Directory, Prefix, Dirname;
    var prefix := Prefix(dbPath);
    var path := prefix + name;
    var at := LastSlash(dbPath);
    PrefixEndsInSlash(dbPath);
    assert path[..|dbPath|] == dbPath;
    var tail := path[|dbPath|..];
    forall i | at <= i < |path|
      ensures path[i] != '/'
    {
      if i < |dbPath| {
        assert path[i] == dbPath[i] == dbPath[at..][i - at];
      } else {
        assert path[i] == tail[i - |dbPath|];
        TailHasNoSlash(tail, i - |dbPath|);
      }
    }
    assert path[|prefix| - 1] == '/';
    assert at > 0 ==> path[at - 1] == dbPath[at - 1] == '/';
    assert at == |prefix|;
    assert Head(dbPath) == path[..at] == prefix;
  }

  lemma TailHasNoSlash(t: string, i: nat)
    requires IsStampTail(t) && i < |t|
    ensures t[i] != '/'
  {
    if 15 <= i < 19 {
      assert t[i] == t[15..19][i - 15];
    }
  }

  lemma PrefixEndsInSlash(dbPath: string)
    ensures Prefix(dbPath) != "" && Prefix(dbPath)[|Prefix(dbPath)| - 1] == '/'
  {
  }

  lemma PrefixIsHeadIff(dbPath: string)
    ensures Prefix(dbPath) == Head(dbPath) <==> DirectoryQualified(dbPath)
  {
    var head := Head(dbPath);
    if AllSlashes(head) {
    } else {
      HeadEndsInSlash(dbPath);
      DropSlashesEnd(head);
      var dir := DropSlashes(head);
      assert Prefix(dbPath) == dir + "/";
      if |head| >= 2 && head[|head| - 2] != '/' {
        assert DropSlashes(head) == DropSlashes(head[..|head| - 1]) == head[..|head| - 1];
        assert head == head[..|head| - 1] + "/";
      }
    }
  }

  lemma HeadEndsInSlash(dbPath: string)
    ensures Head(dbPath) != "" ==> Head(dbPath)[|Head(dbPath)| - 1] == '/'
  {
  }

  lemma {:induction false} DropSlashesEnd(s: string)
    ensures AllSlashes(s) <==> DropSlashes(s) == ""
    ensures DropSlashes(s) != "" ==> DropSlashes(s)[|DropSlashes(s)| - 1] != '/'
    ensures |DropSlashes(s)| <= |s|
  {
    if s != "" && s[|s| - 1] == '/' {
      DropSlashesEnd(s[..|s| - 1]);
      if AllSlashes(s[..|s| - 1]) {
        assert forall i :: 0 <= i < |s| - 1 ==> s[i] == s[..|s| - 1][i];
      } else {
        assert !AllSlashes(s);
      }
    }
  }

  // -------------------------------------------------------------------------
  // How many copies stay, and which
  // -------------------------------------------------------------------------

  /** Pruning that is not refused leaves exactly `keep` matching copies, or all when fewer. */
  lemma PruneLeavesExactly(dbPath: string, keep: nat, listing: seq<string>, files: set<string>)
    requires IsListing(listing, files)
    ensures |set f | f in files && Matches(dbPath, f) && f !in Doomed(dbPath, listing, keep)| ==
            var found := |set f | f in files && Matches(dbPath, f)|;
            if found <= keep then found else keep
  {
    hide Matches, Matching, Sorted;
    var backups := Sorted(Matching(dbPath, listing));
    var last := if |backups| <= keep then backups else backups[|backups| - keep..];
    MatchingDistinct(dbPath, listing);
    SortedDistinct(Matching(dbPath, listing));
    forall f
      ensures f in backups <==> f in files && Matches(dbPath, f)
    {
      MatchingIff(dbPath, listing, f);
      assert f in multiset(backups) <==> f in multiset(Matching(dbPath, listing));
    }
    CountDistinct(backups, set f | f in files && Matches(dbPath, f));
    LastOfDistinct(backups, Excess(backups, keep), last);
    CountDistinct(last, set f | f in files && Matches(dbPath, f) && f !in Doomed(dbPath, listing, keep));
  }

  predicate Distinct(s: seq<string>) {
    forall i, j :: 0 <= i < j < |s| ==> s[i] != s[j]
  }

  lemma LastOfDistinct(s: seq<string>, first: seq<string>, last: seq<string>)
    requires Distinct(s) && s == first + last
    ensures Distinct(last) && forall f :: f in last <==> f in s && f !in first
  {
    assert forall i :: 0 <= i < |last| ==> last[i] == s[|first| + i];
    assert forall i :: 0 <= i < |first| ==> first[i] == s[i];
  }

  lemma {:induction false} CountDistinct(s: seq<string>, elements: set<string>)
    requires Distinct(s) && forall f :: f in elements <==> f in s
    ensures |elements| == |s|
  {
    if s == [] {
      assert elements == {};
    } else {
      assert s == [s[0]] + s[1..];
      LastOfDistinct(s, [s[0]], s[1..]);
      CountDistinct(s[1..], elements - {s[0]});
    }
  }

  lemma {:induction false} MatchingDistinct(dbPath: string, listing: seq<string>)
    requires Distinct(listing)
    ensures Distinct(Matching(dbPath, listing))
  {
    hide Matches;
    if listing != [] {
      MatchingDistinct(dbPath, listing[1..]);
      MatchingIff(dbPath, listing[1..], listing[0]);
      assert listing[0] !in listing[1..];
    }
  }

  lemma {:induction false} InsertedDistinct(x: string, s: seq<string>)
    requires Distinct(s) && x !in s
    ensures Distinct(Inserted(x, s))
  {
    hide Lte;
    if s != [] && !Lte(x, s[0]) {
      var rest := Inserted(x, s[1..]);
      InsertedDistinct(x, s[1..]);
      forall j | 0 <= j < |rest|
        ensures s[0] != rest[j]
      {
        assert rest[j] in multiset(s[1..]) + multiset{x};
      }
    }
  }

  lemma {:induction false} SortedDistinct(s: seq<string>)
    requires Distinct(s)
    ensures Distinct(Sorted(s))
  {
    if s != [] {
      SortedDistinct(s[1..]);
      assert s[0] !in s[1..];
      assert s[0] !in multiset(s[1..]);
      InsertedDistinct(s[0], Sorted(s[1..]));
    }
  }

  /** The stamp in the name of a file pruning sees. */
  function StampOf(dbPath: string, f: string): (stamp: string)
    requires Matches(dbPath, f)
    ensures IsStamp(stamp)
  {
    f[|dbPath| + 1..|dbPath| + 15]
  }

  /** The names pruning sees are in the order of the numbers in their stamps; of one stamp there are
      two at most, the second with a final newline. */
  lemma NamesInOrder(dbPath: string, f: string, g: string)
    requires Matches(dbPath, f) && Matches(dbPath, g) && Lte(f, g)
    ensures Value(StampOf(dbPath, f)) <= Value(StampOf(dbPath, g))
    ensures Value(StampOf(dbPath, f)) == Value(StampOf(dbPath, g)) ==> g == f || g == f + "\n"
  {
    hide Before, Value;
    var a, b := StampOf(dbPath, f), StampOf(dbPath, g);
    var x, y := f[|dbPath| + 15..], g[|dbPath| + 15..];
    var front := dbPath + ".";
    assert f == front + a + x && g == front + b + y;
    BeforeIsStrict(front, front);
    BeforeByParts(front, front, b, a);
    BeforeByParts(front + b, front + a, y, x);
    DigitsInOrder(b, a);
    EndOfName(dbPath, f);
    EndOfName(dbPath, g);
    if a == b && x == ".bak\n" && y == ".bak" {
      assert ".bak" + "\n" == x && ".bak" + "" == y;
      assert Before("", "\n") by { ShorterFirst(); }
      BeforeByParts(".bak", ".bak", "", "\n");
      BeforeIsStrict(f, g);
    }
  }

  lemma ShorterFirst()
    ensures Before("", "\n")
  {
  }

  lemma EndOfName(dbPath: string, f: string)
    requires Matches(dbPath, f)
    ensures f[|dbPath| + 15..] == ".bak" || f[|dbPath| + 15..] == ".bak\n"
  {
    var t := f[|dbPath|..];
    assert f[|dbPath| + 15..] == t[15..];
    if |t| == 20 {
      assert t[15..] == t[15..19] + [t[19]];
    }
  }

  /** Every copy that goes carries a smaller number than every copy that stays. */
  lemma PruneKeepsTheNewest(dbPath: string, keep: nat, listing: seq<string>, files: set<string>, a: string, b: string)
    requires IsListing(listing, files) && IsStamp(a) && IsStamp(b)
    requires Entry(dbPath, a) in Doomed(dbPath, listing, keep)
    requires Entry(dbPath, b) in files && Entry(dbPath, b) !in Doomed(dbPath, listing, keep)
    ensures Value(a) < Value(b)
  {
    hide Matches, IsStamp, Doomed, Entry, Value, DirectoryQualified, IsListing, StampOf;
    var gone, kept := Entry(dbPath, a), Entry(dbPath, b);
    DoomedMatches(dbPath, keep, listing, gone);
    OwnCopiesAreSeenIff(dbPath, a);
    OwnCopiesAreSeenIff(dbPath, b);
    PruneKeepsTheLast(dbPath, keep, listing, files, gone, kept);
    NamesInOrder(dbPath, gone, kept);
    StampOfEntry(dbPath, a);
    StampOfEntry(dbPath, b);
  }

  lemma StampOfEntry(dbPath: string, stamp: string)
    requires IsStamp(stamp) && Matches(dbPath, Entry(dbPath, stamp))
    ensures StampOf(dbPath, Entry(dbPath, stamp)) == stamp
    ensures |Entry(dbPath, stamp)| == |dbPath| + 19
  {
    hide IsStampTail;
    OwnCopiesAreSeenIff(dbPath, stamp);
    PrefixIsHeadIff(dbPath);
    hide DirectoryQualified, Prefix, LastSlash;
    assert dbPath == Head(dbPath) + Base(dbPath);
    assert Entry(dbPath, stamp) == dbPath + "." + stamp + ".bak";
  }

  lemma DoomedMatches(dbPath: string, keep: nat, listing: seq<string>, f: string)
    requires f in Doomed(dbPath, listing, keep)
    ensures f in listing && Matches(dbPath, f)
  {
    hide Matches, Sorted;
    var found := Matching(dbPath, listing);
    assert f in Sorted(found);
    assert f in multiset(found);
    MatchingIff(dbPath, listing, f);
  }

  /** What goes sorts before what stays. */
  lemma PruneKeepsTheLast(dbPath: string, keep: nat, listing: seq<string>, files: set<string>,
                          gone: string, kept: string)
    requires IsListing(listing, files)
    requires gone in Doomed(dbPath, listing, keep)
    requires kept in files && Matches(dbPath, kept) && kept !in Doomed(dbPath, listing, keep)
    ensures Lte(gone, kept) && gone != kept
  {
    hide Lte, Matches;
    var backups := Sorted(Matching(dbPath, listing));
    SortedAscends(Matching(dbPath, listing));
    assert gone in backups;
    assert gone in multiset(backups);
    assert gone in multiset(Matching(dbPath, listing));
    MatchingIff(dbPath, listing, gone);
    MatchingIff(dbPath, listing, kept);
    assert kept in multiset(Matching(dbPath, listing));
    assert kept in multiset(backups);
    var i :| 0 <= i < |backups| && backups[i] == kept;
    assert forall k :: 0 <= k < |backups| - keep ==> Excess(backups, keep)[k] == backups[k];
    var j :| 0 <= j < |backups| - keep && backups[j] == gone;
  }

  /** Of the stamped copies there were before, each one gone carries a smaller number than each one left. */
  ghost predicate OldestWent(dbPath: string, before: set<string>, after: set<string>) {
    forall a, b ::
      (IsStamp(a) && IsStamp(b)
       && Entry(dbPath, a) in before && Entry(dbPath, a) !in after
       && Entry(dbPath, b) in before && Entry(dbPath, b) in after) ==> Value(a) < Value(b)
  }

  lemma PrunedOldestWent(dbPath: string, keep: nat, listing: seq<string>, before: set<string>, after: set<string>)
    requires IsListing(listing, before)
    requires forall f :: f in before ==> (f in after <==> f !in Doomed(dbPath, listing, keep))
    ensures OldestWent(dbPath, before, after)
  {
    hide Matches, Doomed, Entry, Value, IsListing;
    forall a, b | IsStamp(a) && IsStamp(b) && Entry(dbPath, a) in before && Entry(dbPath, a) !in after
                  && Entry(dbPath, b) in before && Entry(dbPath, b) in after
      ensures Value(a) < Value(b)
    {
      PruneKeepsTheNewest(dbPath, keep, listing, before, a, b);
    }
  }

  /** A backup whose stamp is no smaller than the stamps there are, as a clock that is not set back
      gives it: every copy it removes carries a smaller number than every copy it leaves. */
  lemma BackupLeavesTheNewest(dbPath: string, keep: nat, stamp: string, listing: seq<string>,
                              before: set<string>, after: set<string>, a: string, b: string)
    requires keep > 0 && CleanBackup(dbPath, keep, stamp, listing, before, after)
    requires forall s :: IsStamp(s) && Entry(dbPath, s) in before ==> Value(s) <= Value(stamp)
    requires IsStamp(a) && IsStamp(b)
    requires Entry(dbPath, a) in before && Entry(dbPath, a) !in after && Entry(dbPath, b) in after
    ensures Value(a) < Value(b)
  {
    hide Doomed, Entry, Value, IsListing;
    if Entry(dbPath, b) == Entry(dbPath, stamp) {
      EntryTellsTheStamp(dbPath, b, stamp);
      DigitsInOrder(a, stamp);
    } else {
      PruneKeepsTheNewest(dbPath, keep - 1, listing, before, a, b);
    }
  }

  lemma {:induction false} MatchingIff(dbPath: string, listing: seq<string>, f: string)
    ensures f in Matching(dbPath, listing) <==> f in listing && Matches(dbPath, f)
  {
    if listing != [] {
      MatchingIff(dbPath, listing[1..], f);
      assert listing == [listing[0]] + listing[1..];
    }
  }

  /** With a path that is not directory-qualified nothing is ever pruned, whatever `keep` is. */
  lemma UnqualifiedPathPrunesNothing(dbPath: string, keep: nat, listing: seq<string>)
    requires !DirectoryQualified(dbPath)
    requires forall f :: f in listing ==> exists name: string :: '/' !in name && f == Prefix(dbPath) + name
    ensures Doomed(dbPath, listing, keep) == []
  {
    hide DirectoryQualified, Matches, Prefix;
    OwnCopiesAreSeenIff(dbPath, "20260101000000");
    var found := Matching(dbPath, listing);
    if found != [] {
      MatchingIff(dbPath, listing, found[0]);
    }
  }

  // -------------------------------------------------------------------------
  // How many copies a backup leaves
  // -------------------------------------------------------------------------

  ghost predicate IsCopy(dbPath: string, f: string) {
    exists stamp :: IsStamp(stamp) && f == Entry(dbPath, stamp)
  }

  /** The stamped copies of the database in a directory, whether or not pruning sees them. */
  ghost function Copies(dbPath: string, files: set<string>): set<string> {
    set f | f in files && IsCopy(dbPath, f)
  }

  /** The files are entries of the directory the database lies in. */
  ghost predicate IsDirectory(dbPath: string, files: set<string>) {
    forall f :: f in files ==> exists name: string :: '/' !in name && f == Prefix(dbPath) + name
  }

  /** A backup that succeeds with no removal refused. */
  ghost predicate CleanBackup(dbPath: string, keep: nat, stamp: string, listing: seq<string>,
                              before: set<string>, after: set<string>)
    requires keep > 0
  {
    && IsStamp(stamp) && IsListing(listing, before)
    && forall f :: f in after <==>
                   f == Entry(dbPath, stamp) || (f in before && f !in Doomed(dbPath, listing, keep - 1))
  }

  ghost predicate AlwaysAtMost(dbPath: string, keep: nat)
    requires keep > 0
  {
    forall stamp, listing, before, after ::
      IsDirectory(dbPath, before) && CleanBackup(dbPath, keep, stamp, listing, before, after) ==>
        |Copies(dbPath, after)| <= keep
  }

  /** There are no more stamps than numbers of fourteen digits. */
  const STAMPS: nat := 100_000_000_000_000

  /** From every starting directory a backup with keep = k > 0 leaves at most k stamped copies, if
      and only if the path is directory-qualified, unless k is no less than the number of stamps.
      With any other path k copies grow to k + 1. */
  lemma BackupKeepsAtMostIff(dbPath: string, keep: nat)
    requires keep > 0
    ensures AlwaysAtMost(dbPath, keep) <==> DirectoryQualified(dbPath) || keep >= STAMPS
  {
    hide IsDirectory, CleanBackup, DirectoryQualified, Copies;
    if DirectoryQualified(dbPath) || keep >= STAMPS {
      forall stamp, listing, before, after |
        IsDirectory(dbPath, before) && CleanBackup(dbPath, keep, stamp, listing, before, after)
        ensures |Copies(dbPath, after)| <= keep
      {
        if DirectoryQualified(dbPath) {
          QualifiedBackupKeepsAtMost(dbPath, keep, stamp, listing, before, after);
        } else {
          CopiesAreLimited(dbPath, after);
        }
      }
    } else {
      UnqualifiedBackupKeepsMore(dbPath, keep);
    }
  }

  lemma QualifiedBackupKeepsAtMost(dbPath: string, keep: nat, stamp: string, listing: seq<string>,
                                   before: set<string>, after: set<string>)
    requires DirectoryQualified(dbPath) && keep > 0
    requires CleanBackup(dbPath, keep, stamp, listing, before, after)
    ensures |Copies(dbPath, after)| <= keep
  {
    hide Doomed, Matches, Entry, DirectoryQualified, IsStamp, IsListing;
    PruneLeavesExactly(dbPath, keep - 1, listing, before);
    var survivors := set f | f in before && Matches(dbPath, f) && f !in Doomed(dbPath, listing, keep - 1);
    var bound := survivors + {Entry(dbPath, stamp)};
    forall f | f in Copies(dbPath, after)
      ensures f in bound
    {
      var s :| IsStamp(s) && f == Entry(dbPath, s);
      OwnCopiesAreSeenIff(dbPath, s);
    }
    FewInSubset(Copies(dbPath, after), bound);
  }

  lemma UnqualifiedBackupKeepsMore(dbPath: string, keep: nat)
    requires !DirectoryQualified(dbPath) && 0 < keep < STAMPS
    ensures !AlwaysAtMost(dbPath, keep)
  {
    hide CleanBackup, IsDirectory, Copies, DirectoryQualified, IsStamp, FirstCopies, Decimal;
    var listing, more := FirstCopies(dbPath, keep), FirstCopies(dbPath, keep + 1);
    var before, after := set f | f in listing, set f | f in more;
    FirstCopiesAreEntries(dbPath, keep);
    EntriesAreADirectory(dbPath, before, listing);
    OneMoreBackup(dbPath, keep, listing, more, before, after);
    CountFirstCopies(dbPath, keep + 1, after);
  }

  lemma CountFirstCopies(dbPath: string, n: nat, files: set<string>)
    requires n <= STAMPS && files == set f | f in FirstCopies(dbPath, n)
    ensures |Copies(dbPath, files)| == n
  {
    hide FirstCopies, IsCopy;
    FirstCopiesAreDistinct(dbPath, n);
    FirstCopiesAreEntries(dbPath, n);
    assert Copies(dbPath, files) == files;
    CountDistinct(FirstCopies(dbPath, n), files);
    FirstCopiesCount(dbPath, n);
  }

  lemma OneMoreBackup(dbPath: string, keep: nat, listing: seq<string>, more: seq<string>,
                      before: set<string>, after: set<string>)
    requires !DirectoryQualified(dbPath) && 0 < keep < STAMPS
    requires listing == FirstCopies(dbPath, keep) && before == set f | f in listing
    requires more == FirstCopies(dbPath, keep + 1) && after == set f | f in more
    ensures CleanBackup(dbPath, keep, Decimal(keep, 14), listing, before, after)
  {
    hide Doomed, Entry, DirectoryQualified, IsStamp, FirstCopies, Decimal, Prefix, IsListing;
    FirstCopiesAreDistinct(dbPath, keep);
    IsListingOfItself(listing, before);
    FirstCopiesAreEntries(dbPath, keep);
    UnqualifiedPathPrunesNothing(dbPath, keep - 1, listing);
    DecimalIsStamp(keep);
    FirstCopiesGrow(dbPath, keep);
  }

  lemma IsListingOfItself(listing: seq<string>, files: set<string>)
    requires Distinct(listing) && files == set f | f in listing
    ensures IsListing(listing, files)
  {
  }

  lemma EntriesAreADirectory(dbPath: string, files: set<string>, listing: seq<string>)
    requires files == set f | f in listing
    requires forall f :: f in listing ==> exists name: string :: '/' !in name && f == Prefix(dbPath) + name
    ensures IsDirectory(dbPath, files)
  {
    hide Prefix;
  }

  lemma CopiesAreLimited(dbPath: string, files: set<string>)
    ensures |Copies(dbPath, files)| <= STAMPS
  {
    hide Entry, Decimal, FirstCopies;
    var all := FirstCopies(dbPath, STAMPS);
    FirstCopiesAreDistinct(dbPath, STAMPS);
    FirstCopiesCount(dbPath, STAMPS);
    var bound := set f | f in all;
    CountDistinct(all, bound);
    forall f | f in Copies(dbPath, files)
      ensures f in bound
    {
      var stamp :| IsStamp(stamp) && f == Entry(dbPath, stamp);
      DecimalOfValue(stamp);
      Pow10Is14();
      FirstCopiesAt(dbPath, STAMPS, Value(stamp));
    }
    FewInSubset(Copies(dbPath, files), bound);
  }

  lemma FewInSubset(a: set<string>, b: set<string>)
    requires a <= b
    ensures |a| <= |b|
  {
    assert b == a + (b - a);
  }

  /** The copies stamped 0, 1, ..., n - 1. */
  function FirstCopies(dbPath: string, n: nat): seq<string> {
    seq(n, i requires 0 <= i < n => Entry(dbPath, Decimal(i, 14)))
  }

  lemma FirstCopiesCount(dbPath: string, n: nat)
    ensures |FirstCopies(dbPath, n)| == n
  {
    hide Entry, Decimal;
  }

  lemma FirstCopiesAt(dbPath: string, n: nat, i: nat)
    requires i < n
    ensures Entry(dbPath, Decimal(i, 14)) in FirstCopies(dbPath, n)
  {
    hide Entry, Decimal;
    assert FirstCopies(dbPath, n)[i] == Entry(dbPath, Decimal(i, 14));
  }

  lemma FirstCopiesGrow(dbPath: string, n: nat)
    ensures FirstCopies(dbPath, n + 1) == FirstCopies(dbPath, n) + [Entry(dbPath, Decimal(n, 14))]
  {
    hide Entry, Decimal;
  }

  lemma FirstCopiesAreEntries(dbPath: string, n: nat)
    requires n <= STAMPS
    ensures forall f :: f in FirstCopies(dbPath, n) ==> IsCopy(dbPath, f)
    ensures forall f :: f in FirstCopies(dbPath, n) ==>
              exists name: string :: '/' !in name && f == Prefix(dbPath) + name
  {
    hide Prefix, Decimal;
    forall i: nat | i < n
      ensures IsCopy(dbPath, FirstCopies(dbPath, n)[i])
      ensures exists name: string :: '/' !in name && FirstCopies(dbPath, n)[i] == Prefix(dbPath) + name
    {
      DecimalIsStamp(i);
      var name := Base(dbPath) + "." + Decimal(i, 14) + ".bak";
      assert FirstCopies(dbPath, n)[i] == Prefix(dbPath) + name;
      assert '/' !in name;
    }
  }

  lemma FirstCopiesAreDistinct(dbPath: string, n: nat)
    requires n <= STAMPS
    ensures Distinct(FirstCopies(dbPath, n))
  {
    hide Decimal, Value, Entry;
    Pow10Is14();
    forall i: nat, j: nat | i < j < n
      ensures FirstCopies(dbPath, n)[i] != FirstCopies(dbPath, n)[j]
    {
      ValueOfDecimal(i, 14);
      ValueOfDecimal(j, 14);
      DecimalIsDigits(i, 14);
      DecimalIsDigits(j, 14);
      EntryTellsTheStamp(dbPath, Decimal(i, 14), Decimal(j, 14));
    }
  }

  lemma EntryTellsTheStamp(dbPath: string, a: string, b: string)
    requires |a| == |b|
    ensures Entry(dbPath, a) == Entry(dbPath, b) ==> a == b
  {
    hide Prefix, Base;
    var front := Prefix(dbPath) + Base(dbPath) + ".";
    assert Entry(dbPath, a) == front + a + ".bak" && Entry(dbPath, b) == front + b + ".bak";
    assert a == Entry(dbPath, a)[|front|..|front| + |a|];
    assert b == Entry(dbPath, b)[|front|..|front| + |b|];
  }

  // -------------------------------------------------------------------------
  // Stamps as numbers
  // -------------------------------------------------------------------------

  lemma Pow10Is14()
    ensures Pow10(14) == STAMPS
  {
    assert Pow10(4) == 10_000 && Pow10(8) == 100_000_000 && Pow10(11) == 100_000_000_000;
  }

  lemma DecimalIsStamp(n: nat)
    ensures IsStamp(Decimal(n, 14))
  {
    DecimalIsDigits(n, 14);
    hide Decimal;
  }
}
