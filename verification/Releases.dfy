/**
 Published releases and their index (cmd/image-publisher/index.go). Every release has a
 directory named after its version with an update.json; index.json lists all of them, newest
 first.
 */
module Releases {
  import opened Versions

  datatype FileType = ImageManifest | Changelog | OtherType(name: string)

  datatype File = File(architecture: string, component: string, filename: string, hash: string, kind: FileType)

  datatype Update = Update(version: string, channels: seq<string>, files: seq<File>, severity: string)

  /** YYYYMMDDhhmm. */
  predicate IsRelease(v: string) {
    |v| == 12 && IsDigits(v)
  }

  predicate AllReleases(us: seq<Update>) {
    forall i :: 0 <= i < |us| ==> IsRelease(us[i].version)
  }

  /** Newest first, no version twice. */
  predicate Descending(us: seq<Update>) {
    forall i, j :: 0 <= i < j < |us| ==> Less(us[j].version, us[i].version)
  }

  function Members(us: seq<Update>): (s: set<Update>) {
    set i | 0 <= i < |us| :: us[i]
  }

  predicate InChannel(u: Update, channel: string) {
    channel in u.channels
  }

  lemma {:induction false} HeadIsNewest(us: seq<Update>, u: Update)
    requires us != [] && Descending(us) && u in Members(us)
    ensures u == us[0] || Less(u.version, us[0].version)
  {
  }

  lemma {:induction false} TailMembers(us: seq<Update>)
    requires us != [] && Descending(us)
    ensures Descending(us[1..]) && Members(us[1..]) == Members(us) - {us[0]}
  {
    LessIrreflexive(us[0].version);
    var tail := us[1..];
    forall u | u in Members(us) - {us[0]} ensures u in Members(tail) {
      var i :| 0 <= i < |us| && us[i] == u;
      assert tail[i - 1] == u;
    }
    forall u | u in Members(tail) ensures u in Members(us) && u != us[0] {
      var i :| 0 <= i < |tail| && tail[i] == u;
      assert us[i + 1] == u;
    }
  }

  /** A set of releases has one descending listing. */
  lemma {:induction false} DescendingIsUnique(a: seq<Update>, b: seq<Update>)
    requires Descending(a) && Descending(b) && Members(a) == Members(b)
    ensures a == b
  {
    assert a != [] ==> a[0] in Members(a);
    assert b != [] ==> b[0] in Members(b);
    if a != [] && b != [] {
      HeadIsNewest(a, b[0]);
      HeadIsNewest(b, a[0]);
      if a[0] != b[0] {
        LessTransitive(a[0].version, b[0].version, a[0].version);
        LessIrreflexive(a[0].version);
      }
      TailMembers(a);
      TailMembers(b);
      DescendingIsUnique(a[1..], b[1..]);
      assert a == [a[0]] + a[1..] && b == [b[0]] + b[1..];
    }
  }
}

module ReleaseIndex {
  import opened Wrappers
  import opened Versions
  import opened Releases

  /** The comparison function handed to slices.SortFunc. */
  function Compare(a: Update, b: Update): (c: int) {
    match (Atoi(a.version), Atoi(b.version))
    case (Some(x), Some(y)) => if x == y then 0 else if x < y then -1 else 1
    case _ => -1
  }

  /** slices.SortFunc, as an insertion of each element after those not greater. */
  function Inserted(u: Update, us: seq<Update>): (r: seq<Update>) {
    if us == [] then [u]
    else if Compare(u, us[0]) < 0 then [u] + us
    else [us[0]] + Inserted(u, us[1..])
  }

  predicate Ascending(us: seq<Update>) {
    forall i, j :: 0 <= i < j < |us| ==> Less(us[i].version, us[j].version)
  }

  lemma {:induction false} CompareIsOrder(a: Update, b: Update)
    requires IsRelease(a.version) && IsRelease(b.version)
    ensures Compare(a, b) < 0 <==> Less(a.version, b.version)
    ensures Compare(a, b) == 0 <==> a.version == b.version
  {
    VersionParses(a.version);
    VersionParses(b.version);
    DigitsOrder(a.version, b.version);
  }

  lemma {:induction false} MembersCons(u: Update, us: seq<Update>)
    ensures Members([u] + us) == {u} + Members(us)
  {
    var r := [u] + us;
    assert r[0] == u && forall i :: 0 <= i < |us| ==> r[i + 1] == us[i];
    forall x | x in Members(us) ensures x in Members(r) {
      var i :| 0 <= i < |us| && us[i] == x;
      assert r[i + 1] == x;
    }
  }

  /** u's version differs from every one listed. */
  predicate IsNew(u: Update, us: seq<Update>) {
    forall i :: 0 <= i < |us| ==> us[i].version != u.version
  }

  lemma {:induction false} InsertedMembers(u: Update, us: seq<Update>)
    ensures Members(Inserted(u, us)) == Members(us) + {u}
  {
    if us == [] {
      MembersCons(u, []);
      assert [u] + [] == [u];
    } else if Compare(u, us[0]) < 0 {
      MembersCons(u, us);
    } else {
      InsertedMembers(u, us[1..]);
      MembersCons(us[0], Inserted(u, us[1..]));
      MembersCons(us[0], us[1..]);
      assert us == [us[0]] + us[1..];
    }
  }

  /** u comes before everything listed. */
  predicate Below(u: Update, us: seq<Update>) {
    forall i :: 0 <= i < |us| ==> Less(u.version, us[i].version)
  }

  lemma {:induction false} AscendingCons(u: Update, us: seq<Update>)
    requires Ascending(us) && AllReleases(us) && IsRelease(u.version) && Below(u, us)
    ensures Ascending([u] + us) && AllReleases([u] + us)
  {
  }

  lemma {:induction false} BelowHead(u: Update, us: seq<Update>)
    requires us != [] && Ascending(us) && Less(u.version, us[0].version)
    ensures Below(u, us)
  {
    forall j | 0 < j < |us| ensures Less(u.version, us[j].version) {
      LessTransitive(u.version, us[0].version, us[j].version);
    }
  }

  lemma {:induction false} BelowInserted(h: Update, u: Update, us: seq<Update>)
    requires Below(h, us) && Less(h.version, u.version)
    ensures Below(h, Inserted(u, us))
  {
    InsertedMembers(u, us);
    var r := Inserted(u, us);
    forall j | 0 <= j < |r| ensures Less(h.version, r[j].version) {
      assert r[j] in Members(r);
    }
  }

  lemma {:induction false} InsertedSorts(u: Update, us: seq<Update>)
    requires Ascending(us) && AllReleases(us) && IsRelease(u.version) && IsNew(u, us)
    ensures Ascending(Inserted(u, us)) && AllReleases(Inserted(u, us))
  {
    if us != [] {
      CompareIsOrder(u, us[0]);
      if Compare(u, us[0]) < 0 {
        BelowHead(u, us);
        AscendingCons(u, us);
      } else {
        LessTotal(u.version, us[0].version);
        InsertedSorts(u, us[1..]);
        BelowInserted(us[0], u, us[1..]);
        AscendingCons(us[0], Inserted(u, us[1..]));
      }
    }
  }

  function Reverse(us: seq<Update>): (r: seq<Update>)
    ensures |r| == |us| && forall i :: 0 <= i < |us| ==> r[i] == us[|us| - 1 - i]
  {
    seq(|us|, i requires 0 <= i < |us| => us[|us| - 1 - i])
  }

  lemma {:induction false} ReverseFacts(us: seq<Update>)
    requires Ascending(us)
    ensures Descending(Reverse(us)) && Members(Reverse(us)) == Members(us)
  {
    var r := Reverse(us);
    forall u | u in Members(us) ensures u in Members(r) {
      var i :| 0 <= i < |us| && us[i] == u;
      assert r[|us| - 1 - i] == u;
    }
  }

  /** A directory per version; one without update.json holds None. */
  type Directories = map<string, Option<Update>>

  /** Each update.json carries the version its directory is named after. */
  predicate Named(dirs: Directories) {
    forall v :: v in dirs && dirs[v].Some? ==> dirs[v].value.version == v && IsRelease(v)
  }

  function Published(dirs: Directories): (s: set<Update>) {
    set v | v in dirs && dirs[v].Some? :: dirs[v].value
  }

  /** What index.json must be. */
  predicate IsIndexOf(index: seq<Update>, dirs: Directories) {
    Descending(index) && AllReleases(index) && Members(index) == Published(dirs)
  }

  lemma {:induction false} IndexIsUnique(a: seq<Update>, b: seq<Update>, dirs: Directories)
    requires IsIndexOf(a, dirs) && IsIndexOf(b, dirs)
    ensures a == b
  {
    DescendingIsUnique(a, b);
  }

  /** generateIndex: read every update.json in any order, sort by number, reverse. */
  method GenerateIndex(dirs: Directories) returns (index: seq<Update>)
    requires Named(dirs)
    ensures IsIndexOf(index, dirs)
  {
    var updates := Collect(dirs);
    index := Sort(updates);
    ReverseFacts(index);
    index := Reverse(index);
  }

  method Collect(dirs: Directories) returns (updates: seq<Update>)
    requires Named(dirs)
    ensures Members(updates) == Published(dirs) && AllReleases(updates) && Distinct(updates)
  {
    updates := [];
    var todo := dirs.Keys;
    while todo != {}
      invariant todo <= dirs.Keys && AllReleases(updates) && Distinct(updates)
      invariant Members(updates) == set v | v in dirs && v !in todo && dirs[v].Some? :: dirs[v].value
    {
      var v :| v in todo;
      if dirs[v].Some? {
        var u := dirs[v].value;
        forall i | 0 <= i < |updates| ensures updates[i].version != u.version {
          assert updates[i] in Members(updates);
        }
        MembersSnoc(updates, u);
        updates := updates + [u];
      }
      todo := todo - {v};
    }
  }

  /** No version twice. */
  predicate Distinct(us: seq<Update>) {
    forall i, j :: 0 <= i < j < |us| ==> us[i].version != us[j].version
  }

  method Sort(updates: seq<Update>) returns (r: seq<Update>)
    requires AllReleases(updates) && Distinct(updates)
    ensures Ascending(r) && AllReleases(r) && Members(r) == Members(updates)
  {
    r := [];
    for k := 0 to |updates|
      invariant Ascending(r) && AllReleases(r) && Members(r) == Members(updates[..k])
    {
      assert IsNew(updates[k], r) by {
        forall i | 0 <= i < |r| ensures r[i].version != updates[k].version {
          assert r[i] in Members(updates[..k]);
        }
      }
      InsertedMembers(updates[k], r);
      InsertedSorts(updates[k], r);
      r := Inserted(updates[k], r);
      MembersSnoc(updates[..k], updates[k]);
      assert updates[..k] + [updates[k]] == updates[..k + 1];
    }
    assert updates[..|updates|] == updates;
  }

  lemma {:induction false} MembersSnoc(us: seq<Update>, u: Update)
    ensures Members(us + [u]) == Members(us) + {u}
  {
    var r := us + [u];
    assert r[|us|] == u;
    forall x | x in Members(us) ensures x in Members(r) {
      var i :| 0 <= i < |us| && us[i] == x;
      assert r[i] == x;
    }
  }
}
