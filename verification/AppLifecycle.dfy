/**
 Application versions over A/B boots (internal/applications/sysext.go, app_common.go and
 load.go; the install step is internal/update/update.go:587-635).

 Each application has versioned images on disk, a symlink to the one in use, and a recorded
 version with the list of versions available locally. `System` and `Do` are the steps of the
 source on values, over which the properties of whole runs are proved; the class in
 AppDevice.dfy performs them in place.
 */
module AppVersions {
  import opened Wrappers
  import opened Versions

  type Version = string

  /** One application: its recorded state, its symlink and its images on disk. */
  datatype App = App(version: Version, available: seq<Version>, link: Option<Version>, images: set<Version>)

  /** A recorded version, a symlink, and an image of that version. */
  predicate Installed(a: App) {
    a.version != "" && a.link.Some? && a.version in a.images
  }

  // ----- greatest version

  ghost predicate IsLatest(s: set<Version>, m: Version) {
    m in s && forall v :: v in s && v != m ==> Less(v, m)
  }

  lemma {:induction false} LatestExists(s: set<Version>)
    requires s != {}
    ensures exists m :: IsLatest(s, m)
    decreases |s|
  {
    var v :| v in s;
    var rest := s - {v};
    if rest == {} {
      assert forall x :: x in s && x != v ==> x in rest;
      assert IsLatest(s, v);
    } else {
      LatestExists(rest);
      var r :| IsLatest(rest, r);
      LessTotal(v, r);
      var m := if Less(r, v) then v else r;
      forall x | x in s && x != m ensures Less(x, m) {
        if x != v && x != r { if m == v { LessTransitive(x, r, v); } }
      }
      assert IsLatest(s, m);
    }
  }

  lemma {:induction false} LatestUnique(s: set<Version>, m: Version, n: Version)
    requires IsLatest(s, m) && IsLatest(s, n)
    ensures m == n
  {
    if m != n {
      LessTransitive(m, n, m);
      LessIrreflexive(m);
    }
  }

  ghost function Latest(s: set<Version>): (m: Version)
    requires s != {}
    ensures IsLatest(s, m)
  {
    LatestExists(s);
    var m :| IsLatest(s, m);
    m
  }

  // ----- sorted lists without duplicates

  predicate Ascending(vs: seq<Version>) {
    forall i, j :: 0 <= i < j < |vs| ==> Less(vs[i], vs[j])
  }

  function Elements(vs: seq<Version>): (s: set<Version>) {
    set i | 0 <= i < |vs| :: vs[i]
  }

  /** Inserting into a sorted list without duplicates. */
  function Insert(v: Version, vs: seq<Version>): (r: seq<Version>) {
    if vs == [] then [v]
    else if Less(v, vs[0]) then [v] + vs
    else if v == vs[0] then vs
    else [vs[0]] + Insert(v, vs[1..])
  }

  /** slices.Sort followed by slices.Compact. */
  function SortCompact(vs: seq<Version>): (r: seq<Version>) {
    if vs == [] then [] else Insert(vs[0], SortCompact(vs[1..]))
  }

  lemma {:induction false} InsertFacts(v: Version, vs: seq<Version>)
    requires Ascending(vs)
    ensures Ascending(Insert(v, vs)) && Elements(Insert(v, vs)) == Elements(vs) + {v}
    ensures |Insert(v, vs)| <= |vs| + 1
  {
    if vs == [] {
      ElementsCons(v, []);
      assert [v] + [] == [v];
    } else if Less(v, vs[0]) {
      var r := [v] + vs;
      forall j | 0 < j < |r| ensures Less(v, r[j]) {
        if j > 1 { LessTransitive(v, vs[0], vs[j - 1]); }
      }
      assert forall i :: 0 <= i < |vs| ==> r[i + 1] == vs[i];
      ElementsCons(v, vs);
    } else if v == vs[0] {
      assert vs[0] in Elements(vs);
    } else {
      var rest := vs[1..];
      InsertFacts(v, rest);
      var r := Insert(v, rest);
      LessTotal(v, vs[0]);
      forall j | 0 <= j < |r| ensures Less(vs[0], r[j]) {
        assert r[j] in Elements(r);
        if r[j] != v {
          var i :| 0 <= i < |rest| && rest[i] == r[j];
          assert rest[i] == vs[i + 1];
        }
      }
      ElementsCons(vs[0], r);
      ElementsCons(vs[0], rest);
      assert vs == [vs[0]] + rest;
    }
  }

  lemma {:induction false} ElementsCons(v: Version, vs: seq<Version>)
    ensures Elements([v] + vs) == {v} + Elements(vs)
  {
    var r := [v] + vs;
    assert forall i :: 0 <= i < |vs| ==> r[i + 1] == vs[i];
    assert r[0] == v;
    forall x | x in Elements(vs) ensures x in Elements(r) {
      var i :| 0 <= i < |vs| && vs[i] == x;
      assert r[i + 1] == x;
    }
  }

  lemma {:induction false} SortCompactFacts(vs: seq<Version>)
    ensures Ascending(SortCompact(vs)) && Elements(SortCompact(vs)) == Elements(vs)
    ensures |SortCompact(vs)| <= |vs|
  {
    if vs != [] {
      SortCompactFacts(vs[1..]);
      InsertFacts(vs[0], SortCompact(vs[1..]));
      ElementsCons(vs[0], vs[1..]);
      assert vs == [vs[0]] + vs[1..];
    }
  }

  // ----- refreshing one application

  /** Corrupt images go, but never the image of the recorded version. */
  function Clean(a: App, corrupt: Version -> bool): (r: App)
    ensures a.version in a.images ==> a.version in r.images
  {
    a.(images := set v | v in a.images && (v == a.version || !corrupt(v)))
  }

  /** The choice of bestApplicationVersion. */
  function Best(images: set<Version>, appVersion: Version, running: Version, latest: Version, prior: Version): (v: Version) {
    if prior == "" || prior == running then
      if appVersion in images then appVersion else if running in images then running else latest
    else if Less(running, prior) then
      if running in images then running else if appVersion in images then appVersion else latest
    else latest
  }

  /** The list SetVersions is given. */
  function AvailableList(images: set<Version>, appVersion: Version, running: Version, other: Version, latest: Version): (vs: seq<Version>) {
    SortCompact([appVersion] + (if running in images then [running] else []) + [latest]
                + (if other in images then [other] else []))
  }

  /** The application once its symlink and versions are set, before stale images are removed. */
  ghost function Linked(a: App, running: Version, other: Version, prior: Version): (r: App)
    requires a.images != {}
  {
    var latest := Latest(a.images);
    var appVersion := if a.version in a.images then a.version else latest;
    var best := Best(a.images, appVersion, running, latest, prior);
    App(best, AvailableList(a.images, appVersion, running, other, latest), Some(best), a.images)
  }

  function Pruned(a: App): (r: App) {
    a.(images := a.images * Elements(a.available))
  }

  /** A whole successful refresh of one installed application. */
  ghost function Refreshed(a: App, corrupt: Version -> bool, running: Version, other: Version, prior: Version): (r: App)
    requires Installed(a)
  {
    Pruned(Linked(Clean(a, corrupt), running, other, prior))
  }

  lemma {:induction false} AvailableFacts(images: set<Version>, appVersion: Version, running: Version, other: Version, latest: Version)
    requires appVersion in images && latest in images
    ensures var vs := AvailableList(images, appVersion, running, other, latest);
      && Ascending(vs) && 1 <= |vs| <= 4
      && Elements(vs) == {appVersion, latest} + ({running, other} * images)
  {
    var list := [appVersion] + (if running in images then [running] else []) + [latest]
              + (if other in images then [other] else []);
    SortCompactFacts(list);
    assert list[0] == appVersion;
    var k := if running in images then 2 else 1;
    assert list[k] == latest;
    assert running in images ==> list[1] == running;
    assert other in images ==> list[k + 1] == other;
    assert Elements(list) == {appVersion, latest} + ({running, other} * images);
    var vs := AvailableList(images, appVersion, running, other, latest);
    assert appVersion in Elements(vs);
  }

  /** After a successful refresh the recorded version is on disk and listed, and the list is
      strictly ascending, has 1 to 4 entries and is exactly what is left on disk. */
  lemma {:induction false} RefreshedIsConsistent(a: App, corrupt: Version -> bool, running: Version, other: Version, prior: Version)
    requires Installed(a)
    ensures var r := Refreshed(a, corrupt, running, other, prior);
      && r.version in r.images && r.link == Some(r.version)
      && Ascending(r.available) && 1 <= |r.available| <= 4
      && Elements(r.available) == r.images && r.images <= a.images
  {
    var c := Clean(a, corrupt);
    assert a.version in c.images;
    AvailableFacts(c.images, a.version, running, other, Latest(c.images));
  }

  /** An uncorrupted image of either bootable release survives a refresh. */
  lemma {:induction false} RefreshKeepsBootable(a: App, corrupt: Version -> bool, running: Version, other: Version, prior: Version, v: Version)
    requires Installed(a) && v in a.images && !corrupt(v) && (v == running || v == other)
    ensures v in Refreshed(a, corrupt, running, other, prior).images
  {
    var c := Clean(a, corrupt);
    AvailableFacts(c.images, a.version, running, other, Latest(c.images));
  }

  /** Which version a refresh settles on, by how this boot compares with the one before. */
  lemma {:induction false} RefreshSelects(a: App, corrupt: Version -> bool, running: Version, other: Version, prior: Version)
    requires Installed(a)
    ensures var r := Refreshed(a, corrupt, running, other, prior);
      && (prior == "" || prior == running ==> r.version == a.version)
      && (prior != "" && Less(running, prior) ==>
            r.version == if running in Clean(a, corrupt).images then running else a.version)
      && (prior != "" && Less(prior, running) ==> IsLatest(Clean(a, corrupt).images, r.version))
  {
    LessIrreflexive(running);
    if Less(running, prior) && Less(prior, running) { LessTransitive(running, prior, running); }
  }

  /** Which recorded versions a refresh leaves alone, by how this boot compares with the one before. */
  ghost predicate Sticks(prior: Version, running: Version, images: set<Version>, v: Version) {
    || prior == "" || prior == running
    || (Less(running, prior) && (v == running || running !in images))
    || (Less(prior, running) && IsLatest(images, v))
  }

  lemma {:induction false} RefreshSticks(a: App, corrupt: Version -> bool, running: Version, other: Version, prior: Version)
    requires Installed(a)
    ensures Refreshed(a, corrupt, running, other, prior).version == a.version
       <==> Sticks(prior, running, Clean(a, corrupt).images, a.version)
  {
    RefreshSelects(a, corrupt, running, other, prior);
    LessTotal(prior, running);
    LessIrreflexive(running);
    if Less(running, prior) { LessAsymmetric(running, prior); }
    var images := Clean(a, corrupt).images;
    if IsLatest(images, a.version) { LatestUnique(images, a.version, Latest(images)); }
  }

  // ----- switching

  /** What SwitchVersion does: nothing with an error, a new version, or an index out of range. */
  datatype SwitchResult = Switched(app: App) | Refused | OutOfRange

  function Index(vs: seq<Version>, v: Version): (i: int)
    ensures -1 <= i < |vs|
    ensures i >= 0 ==> vs[i] == v && v !in vs[..i]
    ensures i == -1 <==> v !in vs
  {
    if vs == [] then -1
    else if vs[0] == v then 0
    else
      var i := Index(vs[1..], v);
      assert vs == [vs[0]] + vs[1..];
      if i == -1 then -1
      else
        assert vs[..i + 1] == [vs[0]] + vs[1..][..i];
        i + 1
  }

  function SwitchTo(a: App, newVersion: Version): (r: SwitchResult) {
    if |a.available| == 1 then Refused
    else if newVersion == "" then
      var i := Index(a.available, a.version);
      if i == 0 then Refused
      else if i == -1 then OutOfRange
      else Switched(a.(version := a.available[i - 1]))
    else if newVersion !in a.available then Refused
    else Switched(a.(version := newVersion))
  }

  /** The index stays in range exactly when the recorded version is listed, or is not needed. */
  lemma {:induction false} SwitchInRange(a: App, newVersion: Version)
    ensures SwitchTo(a, newVersion) != OutOfRange
       <==> newVersion != "" || |a.available| == 1 || a.version in a.available
  {
  }

  /** The list as a refresh left it, then versions held back since, each newer than the recorded one. */
  predicate Rollable(a: App, k: nat) {
    && k <= |a.available| && Ascending(a.available[..k]) && a.version in a.available[..k]
    && forall j :: k <= j < |a.available| ==> Less(a.version, a.available[j])
  }

  /** What an empty request is for: the greatest available version below the current one. */
  predicate RollsBackOne(a: App) {
    match SwitchTo(a, "")
    case Refused => forall v :: v in a.available ==> v == a.version || Less(a.version, v)
    case Switched(b) =>
      && b == a.(version := b.version) && b.version in a.available && Less(b.version, a.version)
      && forall v :: v in a.available && Less(v, a.version) ==> v == b.version || Less(v, b.version)
    case OutOfRange => false
  }

  lemma {:induction false} EmptyRequestRollsBack(a: App, k: nat)
    requires Rollable(a, k)
    ensures RollsBackOne(a)
  {
    var i := Index(a.available, a.version);
    var m :| 0 <= m < k && a.available[..k][m] == a.version;
    assert a.available[m] == a.version;
    forall j | 0 <= j < |a.available| && j != i
      ensures (j < i ==> Less(a.available[j], a.version)) && (i < j ==> Less(a.version, a.available[j]))
      ensures j < i - 1 ==> Less(a.available[j], a.available[i - 1])
    {
      assert forall x :: 0 <= x < k ==> a.available[..k][x] == a.available[x];
    }
    forall v | v in a.available && v != a.version
      ensures i == 0 ==> Less(a.version, v)
      ensures i > 0 && Less(v, a.version) ==> v == a.available[i - 1] || Less(v, a.available[i - 1])
    {
      var j :| 0 <= j < |a.available| && a.available[j] == v;
      if i < j { LessAsymmetric(a.version, v); }
    }
    LessIrreflexive(a.version);
  }

  /** Holding back a newer version, or switching down, keeps the list fit for the next request. */
  lemma {:induction false} StaysRollable(a: App, k: nat, v: Version)
    requires Rollable(a, k)
    ensures Less(a.version, v) ==> Rollable(a.(available := a.available + [v]), k)
    ensures v in a.available && Less(v, a.version) ==> Rollable(a.(version := v), k)
  {
    assert (a.available + [v])[..k] == a.available[..k];
    if v in a.available && Less(v, a.version) {
      LessAsymmetric(v, a.version);
      var j :| 0 <= j < |a.available| && a.available[j] == v;
      assert j < k && a.available[..k][j] == v;
      forall j | k <= j < |a.available| ensures Less(v, a.available[j]) {
        LessTransitive(v, a.version, a.available[j]);
      }
    }
  }
}

module AppLifecycle {
  import opened Wrappers
  import opened Versions
  import opened AppVersions

  /** What the daemon records of an application, in memory and in its saved state. */
  datatype Record = Record(version: Version, available: seq<Version>)

  function RecordOf(a: App): (r: Record) {
    Record(a.version, a.available)
  }

  function WithRecord(a: App, r: Record): (b: App) {
    a.(version := r.version, available := r.available)
  }

  /** Everything the steps read and write. */
  datatype System = System(
    apps: map<string, App>,
    saved: map<string, Record>, // the records as last saved
    priorBoot: Version,         // the process-wide priorBootRelease, "" until the daemon's first refresh
    journal: Version,           // the release the journal reports for the boot before, "" if none
    running: Version,           // the release this boot runs
    other: Version)             // the release of the other UKI, "" if none

  type Corrupt = (string, Version) -> bool

  /** A restart of the daemon, or a reboot, loads the saved records; an orderly one is a `Save`
      before it. */
  datatype Step =
    | Refresh(corrupt: Corrupt, sysextOk: bool)
    | Switch(app: string, version: Version)
    | Install(app: string, version: Version, holdBack: bool)
    | Save
    | Restart
    | Reboot(release: Version, ready: bool)
    | OsUpdate(release: Version)

  predicate Loads(step: Step) {
    step.Restart? || step.Reboot?
  }

  predicate Enabled(s: System, step: Step) {
    match step
    case Refresh(_, _) => true
    case Switch(app, v) => app in s.apps && Installed(s.apps[app])
    case Install(app, v, _) => app in s.apps && v != ""
    case Save => true
    case Restart => true
    case Reboot(r, _) => r != "" && (r == s.running || r == s.other)
    case OsUpdate(r) => r != "" && r != s.running
  }

  function PriorOf(s: System): (p: Version) {
    if s.priorBoot == "" then s.journal else s.priorBoot
  }

  function CorruptFor(c: Corrupt, name: string): (f: Version -> bool) {
    v => c(name, v)
  }

  predicate SomeInstalled(apps: map<string, App>) {
    exists n :: n in apps && Installed(apps[n])
  }

  /** One application after a refresh: symlinks go everywhere, the rest is for installed ones. */
  ghost function AfterRefresh(s: System, n: string, corrupt: Corrupt, sysextOk: bool): (a: App)
    requires n in s.apps
  {
    var a := s.apps[n];
    if !Installed(a) then a.(link := None)
    else if sysextOk then Refreshed(a, CorruptFor(corrupt, n), s.running, s.other, PriorOf(s))
    else Linked(Clean(a, CorruptFor(corrupt, n)), s.running, s.other, PriorOf(s))
  }

  /** A downloaded image in place, with a symlink if there was none. */
  function Placed(a: App, v: Version): (b: App) {
    a.(images := a.images + {v}, link := if a.link.None? then Some(v) else a.link)
  }

  /** Whether the new version is only added to the list. */
  predicate HeldBack(a: App, v: Version, holdBack: bool) {
    holdBack && Installed(Placed(a, v))
  }

  function Installing(a: App, v: Version, holdBack: bool): (r: App) {
    var b := Placed(a, v);
    if HeldBack(a, v, holdBack) then b.(available := b.available + [v])
    else b.(version := v, available := [])
  }

  function Loaded(s: System): (apps: map<string, App>) {
    map n | n in s.apps :: if n in s.saved then WithRecord(s.apps[n], s.saved[n]) else s.apps[n]
  }

  ghost function Do(s: System, step: Step): (r: System)
    requires Enabled(s, step)
  {
    match step
    case Refresh(corrupt, ok) =>
      if !SomeInstalled(s.apps) then s
      else s.(apps := map n | n in s.apps :: AfterRefresh(s, n, corrupt, ok),
              priorBoot := if ok then s.running else PriorOf(s))
    case Switch(n, v) =>
      (match SwitchTo(s.apps[n], v)
       case Switched(a) => s.(apps := s.apps[n := a])
       case _ => s)
    case Install(n, v, hold) => s.(apps := s.apps[n := Installing(s.apps[n], v, hold)])
    case Save => s.(saved := map n | n in s.apps :: RecordOf(s.apps[n]))
    case Restart => s.(apps := Loaded(s), priorBoot := "")
    case Reboot(r, ready) =>
      s.(apps := Loaded(s), priorBoot := "", journal := if ready then s.running else "",
         running := r, other := if r == s.running then s.other else s.running)
    case OsUpdate(r) => s.(other := r)
  }

  ghost predicate Valid(s: System, steps: seq<Step>)
    decreases |steps|
  {
    steps == [] || (Enabled(s, steps[0]) && Valid(Do(s, steps[0]), steps[1..]))
  }

  ghost function Exec(s: System, steps: seq<Step>): (r: System)
    requires Valid(s, steps)
    decreases |steps|
  {
    if steps == [] then s else Exec(Do(s, steps[0]), steps[1..])
  }

  // ----- what every step keeps

  /** No image is in a nameless directory, and every application has a saved record. */
  predicate Ok(s: System) {
    s.running != "" && s.saved.Keys == s.apps.Keys && forall n :: n in s.apps ==> "" !in s.apps[n].images
  }

  lemma {:induction false} LinkedInstalled(a: App, corrupt: Version -> bool, running: Version, other: Version, prior: Version)
    requires Installed(a) && "" !in a.images
    ensures var l := Linked(Clean(a, corrupt), running, other, prior);
      Installed(l) && Installed(Pruned(l)) && l.version in l.available && l.images <= a.images
  {
    var c := Clean(a, corrupt);
    AvailableFacts(c.images, a.version, running, other, Latest(c.images));
    var l := Linked(c, running, other, prior);
    assert l.version in Elements(l.available);
  }

  /** Whether an installed application is still installed after the step: a restart and a reboot
      need the image of the saved version, and a switch that of the version switched to. */
  predicate Survives(s: System, step: Step, n: string)
    requires n in s.apps
  {
    && (Loads(step) && n in s.saved ==> s.saved[n].version in s.apps[n].images)
    && (step.Switch? && step.app == n && SwitchTo(s.apps[n], step.version).Switched? ==>
          SwitchTo(s.apps[n], step.version).app.version in s.apps[n].images)
  }

  /** What a step makes of one application. */
  lemma {:induction false} StepKeepsOne(s: System, step: Step, n: string)
    requires Ok(s) && Enabled(s, step) && n in s.apps
    ensures n in Do(s, step).apps && "" !in Do(s, step).apps[n].images
    ensures Installed(s.apps[n]) ==> (Installed(Do(s, step).apps[n]) <==> Survives(s, step, n))
  {
    match step
    case Refresh(corrupt, ok) =>
      if Installed(s.apps[n]) {
        assert SomeInstalled(s.apps);
        LinkedInstalled(s.apps[n], CorruptFor(corrupt, n), s.running, s.other, PriorOf(s));
      }
    case Switch(m, v) =>
    case Install(m, v, hold) =>
    case Save =>
    case Restart =>
    case Reboot(r, ready) =>
    case OsUpdate(r) =>
  }

  /** Every step keeps the state sound and the set of applications, and leaves an installed one
      installed exactly when it survives. */
  lemma {:induction false} StepKeeps(s: System, step: Step)
    requires Ok(s) && Enabled(s, step)
    ensures Ok(Do(s, step)) && Do(s, step).apps.Keys == s.apps.Keys
    ensures forall n :: n in s.apps && Installed(s.apps[n]) ==> (Installed(Do(s, step).apps[n]) <==> Survives(s, step, n))
  {
    var r := Do(s, step);
    SameApplications(s, step);
    forall n | n in s.apps
      ensures "" !in r.apps[n].images && (Installed(s.apps[n]) ==> (Installed(r.apps[n]) <==> Survives(s, step, n)))
    {
      StepKeepsOne(s, step, n);
    }
  }

  lemma {:induction false} SameApplications(s: System, step: Step)
    requires Ok(s) && Enabled(s, step)
    ensures var r := Do(s, step); r.apps.Keys == s.apps.Keys && r.saved.Keys == s.apps.Keys && r.running != ""
  {
    match step
    case Refresh(_, _) =>
    case Switch(_, _) =>
    case Install(_, _, _) =>
    case Save =>
    case Restart =>
    case Reboot(_, _) =>
    case OsUpdate(_) =>
  }

  // ----- whole runs

  lemma {:induction false} RunKeeps(s: System, steps: seq<Step>)
    requires Ok(s) && Valid(s, steps)
    ensures Ok(Exec(s, steps)) && Exec(s, steps).apps.Keys == s.apps.Keys
    decreases |steps|
  {
    if steps != [] {
      StepKeeps(s, steps[0]);
      RunKeeps(Do(s, steps[0]), steps[1..]);
    }
  }

  /** The application is installed in every state of the run. */
  ghost predicate InstalledThroughout(s: System, steps: seq<Step>, n: string)
    requires Valid(s, steps)
    decreases |steps|
  {
    n in s.apps && Installed(s.apps[n]) && (steps == [] || InstalledThroughout(Do(s, steps[0]), steps[1..], n))
  }

  ghost predicate SurvivesAll(s: System, steps: seq<Step>, n: string)
    requires Valid(s, steps)
    decreases |steps|
  {
    n in s.apps && (steps == [] || (Survives(s, steps[0], n) && SurvivesAll(Do(s, steps[0]), steps[1..], n)))
  }

  /** Over a whole run: an installed application is installed throughout exactly when every restart
      and reboot finds the image of its saved version, and every switch that of its target. */
  lemma {:induction false} InstalledExactly(s: System, steps: seq<Step>, n: string)
    requires Ok(s) && Valid(s, steps) && n in s.apps && Installed(s.apps[n])
    ensures InstalledThroughout(s, steps, n) <==> SurvivesAll(s, steps, n)
    decreases |steps|
  {
    if steps != [] {
      StepKeeps(s, steps[0]);
      if Survives(s, steps[0], n) { InstalledExactly(Do(s, steps[0]), steps[1..], n); }
    }
  }

  /** Every version listed as available is on disk. */
  predicate Backed(a: App) {
    forall i :: 0 <= i < |a.available| ==> a.available[i] in a.images
  }

  /** Every restart and reboot happens with the application's record saved. */
  ghost predicate SavedInTime(s: System, steps: seq<Step>, n: string)
    requires Valid(s, steps)
    decreases |steps|
  {
    && n in s.apps && n in s.saved
    && (steps == [] ||
        ((Loads(steps[0]) ==> s.saved[n] == RecordOf(s.apps[n])) && SavedInTime(Do(s, steps[0]), steps[1..], n)))
  }

  lemma {:induction false} BackedStep(s: System, step: Step, n: string)
    requires Ok(s) && Enabled(s, step) && n in s.apps && Installed(s.apps[n]) && Backed(s.apps[n])
    requires Loads(step) ==> s.saved[n] == RecordOf(s.apps[n])
    ensures n in Do(s, step).apps && Survives(s, step, n) && Backed(Do(s, step).apps[n])
  {
    var a := s.apps[n];
    if step.Refresh? {
      var c := Clean(a, CorruptFor(step.corrupt, n));
      AvailableFacts(c.images, a.version, s.running, s.other, Latest(c.images));
      var l := Linked(c, s.running, s.other, PriorOf(s));
      forall i | 0 <= i < |l.available| ensures l.available[i] in l.images && l.available[i] in Pruned(l).images {
        assert l.available[i] in Elements(l.available);
      }
    } else if step.Switch? && step.app == n && SwitchTo(a, step.version).Switched? {
      var b := SwitchTo(a, step.version).app;
      assert exists i :: 0 <= i < |a.available| && a.available[i] == b.version;
    }
  }

  /** Saved in time, an application is never lost. */
  lemma {:induction false} SavedRunKeeps(s: System, steps: seq<Step>, n: string)
    requires Ok(s) && Valid(s, steps) && n in s.apps && Installed(s.apps[n]) && Backed(s.apps[n])
    requires SavedInTime(s, steps, n)
    ensures InstalledThroughout(s, steps, n)
    decreases |steps|
  {
    if steps != [] {
      BackedStep(s, steps[0], n);
      StepKeeps(s, steps[0]);
      SavedRunKeeps(Do(s, steps[0]), steps[1..], n);
    }
  }

  lemma {:induction false} ExecSplit(s: System, first: seq<Step>, rest: seq<Step>)
    ensures Valid(s, first + rest) <==> Valid(s, first) && Valid(Exec(s, first), rest)
    ensures Valid(s, first + rest) ==> Exec(s, first + rest) == Exec(Exec(s, first), rest)
    decreases |first|
  {
    if first == [] {
      assert first + rest == rest;
    } else {
      assert (first + rest)[1..] == first[1..] + rest;
      if Enabled(s, first[0]) { ExecSplit(Do(s, first[0]), first[1..], rest); }
    }
  }

  lemma {:induction false} ExecOne(s: System, step: Step)
    ensures Valid(s, [step]) <==> Enabled(s, step)
    ensures Enabled(s, step) ==> Exec(s, [step]) == Do(s, step)
  {
    assert [step][1..] == [];
    if Enabled(s, step) { assert Valid(Do(s, step), []); }
  }

  // ----- images over runs

  /** Every refresh of the run finds v bootable and the image of v uncorrupted. */
  ghost predicate Protected(s: System, steps: seq<Step>, n: string, v: Version)
    requires Valid(s, steps)
    decreases |steps|
  {
    steps == [] ||
    (&& (steps[0].Refresh? ==> (v == s.running || v == s.other) && !steps[0].corrupt(n, v))
     && Protected(Do(s, steps[0]), steps[1..], n, v))
  }

  /** The only step that deletes an image is a refresh that finds it corrupt or not bootable,
      and it never deletes the image of the version recorded before it. */
  lemma {:induction false} OnlyRefreshDeletes(s: System, step: Step, n: string, v: Version)
    requires Enabled(s, step) && n in s.apps && v in s.apps[n].images && Ok(s)
    ensures n in Do(s, step).apps
    ensures v !in Do(s, step).apps[n].images ==>
      && step.Refresh? && v != s.apps[n].version
      && (step.corrupt(n, v) || step.sysextOk)
      && (step.corrupt(n, v) || (v != s.running && v != s.other))
  {
    StepKeeps(s, step);
    if step.Refresh? && Installed(s.apps[n]) {
      var c := Clean(s.apps[n], CorruptFor(step.corrupt, n));
      AvailableFacts(c.images, s.apps[n].version, s.running, s.other, Latest(c.images));
    }
  }

  /** Over a whole run, the image of a bootable release is never deleted. */
  lemma {:induction false} BootableImagesKept(s: System, steps: seq<Step>, n: string, v: Version)
    requires Ok(s) && Valid(s, steps) && n in s.apps && v in s.apps[n].images
    requires Protected(s, steps, n, v)
    ensures n in Exec(s, steps).apps && v in Exec(s, steps).apps[n].images
    decreases |steps|
  {
    if steps != [] {
      OnlyRefreshDeletes(s, steps[0], n, v);
      StepKeeps(s, steps[0]);
      BootableImagesKept(Do(s, steps[0]), steps[1..], n, v);
    }
  }

  // ----- boots

  /** Steps between a boot and its first refresh. */
  predicate Between(steps: seq<Step>) {
    forall i :: 0 <= i < |steps| ==> !steps[i].Refresh? && !steps[i].Reboot?
  }

  lemma {:induction false} BetweenKeeps(s: System, steps: seq<Step>, n: string)
    requires Ok(s) && Valid(s, steps) && Between(steps) && n in s.apps && s.priorBoot == ""
    ensures var t := Exec(s, steps);
      && t.priorBoot == "" && t.journal == s.journal && t.running == s.running
      && n in t.apps && s.apps[n].images <= t.apps[n].images
    decreases |steps|
  {
    if steps != [] {
      StepKeeps(s, steps[0]);
      var s' := Do(s, steps[0]);
      forall v | v in s.apps[n].images ensures v in s'.apps[n].images {
        OnlyRefreshDeletes(s, steps[0], n, v);
      }
      BetweenKeeps(s', steps[1..], n);
    }
  }

  /** A boot of release r, other steps, then the boot's first refresh. `ready` says whether the
      boot before got as far as logging that it is ready, which is how it is found. */
  function BootOf(r: Version, ready: bool, mid: seq<Step>, corrupt: Corrupt, ok: bool): (steps: seq<Step>) {
    [Reboot(r, ready)] + mid + [Refresh(corrupt, ok)]
  }

  /** The state the boot's first refresh finds. */
  ghost function Found(s: System, r: Version, ready: bool, mid: seq<Step>): (t: System)
    requires Valid(s, [Reboot(r, ready)] + mid)
  {
    Exec(s, [Reboot(r, ready)] + mid)
  }

  /** What one refresh does to one application. */
  lemma {:induction false} OneRefresh(t: System, corrupt: Corrupt, ok: bool, n: string)
    requires Ok(t) && n in t.apps
    ensures var u := Do(t, Refresh(corrupt, ok));
      && n in u.apps && (Installed(u.apps[n]) <==> Installed(t.apps[n]))
      && (Installed(t.apps[n]) ==>
            u.apps[n].version == Refreshed(t.apps[n], CorruptFor(corrupt, n), t.running, t.other, PriorOf(t)).version)
  {
    if Installed(t.apps[n]) {
      assert SomeInstalled(t.apps);
      LinkedInstalled(t.apps[n], CorruptFor(corrupt, n), t.running, t.other, PriorOf(t));
    }
  }

  /** What a boot leaves for an application, in terms of the state its refresh finds. */
  lemma {:induction false} BootRefreshes(s: System, r: Version, ready: bool, mid: seq<Step>, corrupt: Corrupt, ok: bool, n: string)
    requires Ok(s) && n in s.apps && Between(mid) && Valid(s, BootOf(r, ready, mid, corrupt, ok))
    ensures Valid(s, [Reboot(r, ready)] + mid)
    ensures
      var t := Found(s, r, ready, mid);
      && Ok(t) && n in t.apps && s.apps[n].images <= t.apps[n].images
      && t.running == r && PriorOf(t) == (if ready then s.running else "")
      && Exec(s, BootOf(r, ready, mid, corrupt, ok)) == Do(t, Refresh(corrupt, ok))
  {
    var boot := Reboot(r, ready);
    ExecSplit(s, [boot] + mid, [Refresh(corrupt, ok)]);
    ExecSplit(s, [boot], mid);
    ExecOne(s, boot);
    var b := Do(s, boot);
    StepKeeps(s, boot);
    BetweenKeeps(b, mid, n);
    RunKeeps(b, mid);
    var t := Exec(b, mid);
    assert t == Exec(s, [boot] + mid);
    ExecOne(t, Refresh(corrupt, ok));
  }

  /** Right after a boot an application is installed exactly when it has its symlink and the image
      of its saved version. */
  lemma {:induction false} BootLoads(s: System, r: Version, ready: bool, n: string)
    requires Ok(s) && n in s.apps && Enabled(s, Reboot(r, ready))
    ensures Valid(s, [Reboot(r, ready)] + [])
    ensures var t := Found(s, r, ready, []);
      && t == Do(s, Reboot(r, ready)) && n in t.apps && t.apps[n] == WithRecord(s.apps[n], s.saved[n])
      && (Installed(t.apps[n]) <==> s.apps[n].link.Some? && s.saved[n].version in s.apps[n].images)
  {
    ExecOne(s, Reboot(r, ready));
    assert [Reboot(r, ready)] + [] == [Reboot(r, ready)];
  }

  /** Booting back: if the image for the older side was ever on disk and stayed bootable and
      uncorrupted, the first refresh on that side leaves it selected exactly when it finds the
      application installed, and the boot before in the journal or that version recorded. */
  lemma {:induction false} BootBackSelects(s: System, run: seq<Step>, r: Version, ready: bool, mid: seq<Step>, corrupt: Corrupt, ok: bool, n: string)
    requires Ok(s) && n in s.apps && r in s.apps[n].images
    requires Valid(s, run) && Protected(s, run, n, r) && Between(mid) && !corrupt(n, r)
    requires Less(r, Exec(s, run).running) && Valid(Exec(s, run), BootOf(r, ready, mid, corrupt, ok))
    ensures Valid(Exec(s, run), [Reboot(r, ready)] + mid)
    ensures
      var t := Found(Exec(s, run), r, ready, mid);
      var u := Exec(Exec(s, run), BootOf(r, ready, mid, corrupt, ok));
      && n in t.apps && n in u.apps && r in t.apps[n].images
      && (Installed(u.apps[n]) && u.apps[n].version == r <==> Installed(t.apps[n]) && (ready || t.apps[n].version == r))
  {
    RunKeeps(s, run);
    BootableImagesKept(s, run, n, r);
    var b := Exec(s, run);
    BootRefreshes(b, r, ready, mid, corrupt, ok, n);
    var t := Found(b, r, ready, mid);
    OneRefresh(t, corrupt, ok, n);
    if Installed(t.apps[n]) {
      RefreshSelects(t.apps[n], CorruptFor(corrupt, n), t.running, t.other, PriorOf(t));
    }
  }

  /** Booting forward: the first refresh leaves the greatest version on disk selected, under the
      same condition. */
  lemma {:induction false} BootForwardSelects(s: System, r: Version, ready: bool, mid: seq<Step>, corrupt: Corrupt, ok: bool, n: string)
    requires Ok(s) && n in s.apps && Less(s.running, r)
    requires Between(mid) && Valid(s, BootOf(r, ready, mid, corrupt, ok))
    ensures Valid(s, [Reboot(r, ready)] + mid)
    ensures
      var t := Found(s, r, ready, mid);
      var u := Exec(s, BootOf(r, ready, mid, corrupt, ok));
      && n in t.apps && n in u.apps
      && var images := Clean(t.apps[n], CorruptFor(corrupt, n)).images;
         (Installed(u.apps[n]) && IsLatest(images, u.apps[n].version)
          <==> Installed(t.apps[n]) && (ready || IsLatest(images, t.apps[n].version)))
  {
    BootRefreshes(s, r, ready, mid, corrupt, ok, n);
    var t := Found(s, r, ready, mid);
    OneRefresh(t, corrupt, ok, n);
    if Installed(t.apps[n]) {
      RefreshSelects(t.apps[n], CorruptFor(corrupt, n), t.running, t.other, PriorOf(t));
    }
  }

  // ----- runs in which a boot goes wrong

  /** A refresh after an update drops the version before, unless it is bootable. */
  lemma {:induction false} UpdateDropsOld(a: App, v: Version, corrupt: Version -> bool, running: Version, other: Version, prior: Version)
    requires Installed(a) && a.version != running && a.version != other && v != ""
    requires forall w :: w in a.images ==> Less(w, v)
    ensures var b := Installing(a, v, false);
      Installed(b) && var u := Refreshed(b, corrupt, running, other, prior); a.version !in u.images && v in u.images
  {
    LessIrreflexive(v);
    var c := Clean(Installing(a, v, false), corrupt);
    assert IsLatest(c.images, v);
    LatestUnique(c.images, v, Latest(c.images));
    AvailableFacts(c.images, v, running, other, v);
  }

  /** An application is updated and refreshed, and the power fails before anything is saved: the
      record that comes up names the version before, whose image is gone, and the application
      counts as not installed, although the new image is on disk. */
  lemma {:induction false} PowerLossUninstalls(s: System, n: string, v: Version, corrupt: Corrupt, r: Version, ready: bool)
    requires Ok(s) && n in s.apps && Installed(s.apps[n]) && s.saved[n] == RecordOf(s.apps[n])
    requires s.apps[n].version != s.running && s.apps[n].version != s.other
    requires v != "" && (forall w :: w in s.apps[n].images ==> Less(w, v)) && Enabled(s, Reboot(r, ready))
    ensures
      var refreshed := Do(Do(s, Install(n, v, false)), Refresh(corrupt, true));
      && n in refreshed.apps && Installed(refreshed.apps[n]) && Enabled(refreshed, Reboot(r, ready))
      && var up := Do(refreshed, Reboot(r, ready));
         n in up.apps && !Installed(up.apps[n]) && v in up.apps[n].images
  {
    var s1 := Do(s, Install(n, v, false));
    StepKeeps(s, Install(n, v, false));
    UpdateDropsOld(s.apps[n], v, CorruptFor(corrupt, n), s.running, s.other, PriorOf(s));
    OneRefresh(s1, corrupt, true, n);
    var s2 := Do(s1, Refresh(corrupt, true));
    assert s2.apps[n] == Refreshed(s1.apps[n], CorruptFor(corrupt, n), s.running, s.other, PriorOf(s));
    assert Do(s2, Reboot(r, ready)).apps[n] == WithRecord(s2.apps[n], s.saved[n]);
  }

  /** An upgrade that fails before it is ready: it has refreshed to the newer application and saved
      that, and booting back does not find it in the journal, so the older side keeps that one. */
  lemma {:induction false} FailedUpgradeKeepsNewer(s: System, next: Version, c1: Corrupt, c2: Corrupt, ok: bool, n: string)
    requires Ok(s) && n in s.apps && Installed(s.apps[n]) && s.saved[n] == RecordOf(s.apps[n])
    requires next != "" && s.other == next && Less(s.running, next)
    requires s.running in s.apps[n].images && next in s.apps[n].images
    requires !c1(n, s.running) && !c1(n, next)
    ensures
      var failed := Do(Do(Do(s, Reboot(next, true)), Refresh(c1, true)), Save);
      && Enabled(failed, Reboot(s.running, false)) && n in failed.apps && s.running in failed.apps[n].images
      && var back := Do(Do(failed, Reboot(s.running, false)), Refresh(c2, ok));
         n in back.apps && Installed(back.apps[n]) && Less(s.running, back.apps[n].version)
  {
    LessIrreflexive(next);
    var boot := Do(s, Reboot(next, true));
    StepKeeps(s, Reboot(next, true));
    assert boot.apps[n] == s.apps[n];
    UpgradeSelects(boot, c1, n, s.running, next);
    var up := Do(boot, Refresh(c1, true));
    StepKeeps(boot, Refresh(c1, true));
    OnlyRefreshDeletes(boot, Refresh(c1, true), n, s.running);
    var failed := Do(up, Save);
    StepKeeps(up, Save);
    var again := Do(failed, Reboot(s.running, false));
    StepKeeps(failed, Reboot(s.running, false));
    assert again.apps[n] == up.apps[n];
    OneRefresh(again, c2, ok, n);
    RefreshSelects(again.apps[n], CorruptFor(c2, n), again.running, again.other, "");
  }

  /** The first refresh after an upgrade goes to a version at least as new as the new release. */
  lemma {:induction false} UpgradeSelects(t: System, corrupt: Corrupt, n: string, before: Version, next: Version)
    requires Ok(t) && n in t.apps && Installed(t.apps[n]) && t.running == next && PriorOf(t) == before != "" && Less(before, next)
    requires next in t.apps[n].images && !corrupt(n, next)
    ensures var u := Do(t, Refresh(corrupt, true)); n in u.apps && Less(before, u.apps[n].version)
  {
    OneRefresh(t, corrupt, true, n);
    RefreshSelects(t.apps[n], CorruptFor(corrupt, n), t.running, t.other, before);
    var images := Clean(t.apps[n], CorruptFor(corrupt, n)).images;
    var v := Do(t, Refresh(corrupt, true)).apps[n].version;
    assert IsLatest(images, v) && next in images;
    if next != v { LessTransitive(before, next, v); }
  }
}
