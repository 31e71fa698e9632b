/**
 The device whose disk and records the application steps change in place
 (internal/applications/sysext.go:28-145, 165-235, 289-369, app_common.go:148-190). Every
 method is proved to be the step of the same name in `AppLifecycle`, whose runs carry the
 properties.
 */
module AppDevice {
  import opened Wrappers
  import opened Versions
  import opened AppVersions
  import opened AppLifecycle

  /** What getApplicationsVersions gathers for one application; "" where nothing was found. */
  datatype AvailableApplicationVersions = AvailableApplicationVersions(
    appVersion: Version, currentOSVersion: Version, otherOSVersion: Version, latestDiskVersion: Version)

  datatype Failure = NoImageOnDisk | SysextRefreshFailed

  /** What an application's record must hold, given its images. */
  ghost predicate Gathered(a: App, running: Version, other: Version, g: AvailableApplicationVersions)
    requires a.images != {}
  {
    && g.latestDiskVersion == Latest(a.images)
    && g.appVersion == (if a.version in a.images then a.version else Latest(a.images))
    && g.currentOSVersion == (if running in a.images then running else "")
    && g.otherOSVersion == (if other in a.images then other else "")
  }

  /** The greatest version directory holding an image, "" if there is none; directories are
      visited in any order. */
  method LatestDiskVersion(images: set<Version>) returns (latest: Version)
    requires "" !in images
    ensures images == {} <==> latest == ""
    ensures images != {} ==> latest == Latest(images)
  {
    latest := "";
    var todo := images;
    while todo != {}
      invariant todo <= images
      invariant latest == "" <==> todo == images
      invariant latest != "" ==> IsLatest(images - todo, latest)
    {
      var entry :| entry in todo;
      ghost var seen := images - todo;
      todo := todo - {entry};
      assert images - todo == seen + {entry};
      if latest == "" || Less(latest, entry) {
        Raised(seen, latest, entry);
        latest := entry;
      } else {
        LessTotal(latest, entry);
      }
    }
    if images != {} {
      assert images - todo == images;
      LatestUnique(images, latest, Latest(images));
    }
  }

  lemma {:induction false} Raised(seen: set<Version>, latest: Version, entry: Version)
    requires seen == {} || (IsLatest(seen, latest) && Less(latest, entry))
    ensures IsLatest(seen + {entry}, entry)
  {
    forall v | v in seen && v != entry ensures Less(v, entry) {
      if v != latest { LessTransitive(v, latest, entry); }
    }
  }

  /** bestApplicationVersion: which version to link. */
  method BestApplicationVersion(images: set<Version>, g: AvailableApplicationVersions, prior: Version, running: Version) returns (best: Version)
    requires "" !in images && running != ""
    requires g.currentOSVersion == (if running in images then running else "")
    ensures best == Best(images, g.appVersion, running, g.latestDiskVersion, prior)
  {
    if prior == "" || prior == running {
      if g.appVersion in images { return g.appVersion; }
      if g.currentOSVersion != "" && g.currentOSVersion in images { return g.currentOSVersion; }
      return g.latestDiskVersion;
    }
    if Less(running, prior) {
      if g.currentOSVersion != "" && g.currentOSVersion in images { return g.currentOSVersion; }
      if g.appVersion in images { return g.appVersion; }
      return g.latestDiskVersion;
    }
    return g.latestDiskVersion;
  }

  /** The list handed to SetVersions: built by appending, then sorted and compacted. */
  method AvailableVersions(images: set<Version>, g: AvailableApplicationVersions, running: Version, other: Version) returns (vs: seq<Version>)
    requires "" !in images && g.latestDiskVersion != ""
    requires g.currentOSVersion == (if running in images then running else "")
    requires g.otherOSVersion == (if other in images then other else "")
    ensures vs == AvailableList(images, g.appVersion, running, other, g.latestDiskVersion)
  {
    vs := [g.appVersion];
    if g.currentOSVersion != "" { vs := vs + [g.currentOSVersion]; }
    if g.latestDiskVersion != "" { vs := vs + [g.latestDiskVersion]; }
    if g.otherOSVersion != "" { vs := vs + [g.otherOSVersion]; }
    assert vs == [g.appVersion] + (if running in images then [running] else []) + [g.latestDiskVersion]
              + (if other in images then [other] else []);
    vs := SortCompact(vs);
  }

  // ----- the phases of a refresh

  ghost predicate Cleaned(before: map<string, App>, after: map<string, App>, installed: set<string>, corrupt: Corrupt) {
    && after.Keys == before.Keys
    && forall n :: n in before ==>
         after[n] == if n in installed then Clean(before[n], CorruptFor(corrupt, n)) else before[n]
  }

  ghost predicate AllHaveImages(apps: map<string, App>, installed: set<string>) {
    forall n :: n in installed ==> n in apps && apps[n].images != {}
  }

  ghost predicate Relinked(before: map<string, App>, after: map<string, App>, installed: set<string>,
                           running: Version, other: Version, prior: Version)
    requires AllHaveImages(before, installed)
  {
    && after.Keys == before.Keys
    && forall n :: n in before ==>
         after[n] == if n in installed then Linked(before[n], running, other, prior) else before[n].(link := None)
  }

  ghost predicate AllPruned(before: map<string, App>, after: map<string, App>, installed: set<string>) {
    && after.Keys == before.Keys
    && forall n :: n in before ==> after[n] == if n in installed then Pruned(before[n]) else before[n]
  }

  ghost predicate AreInstalled(apps: map<string, App>, installed: set<string>) {
    forall n :: n in installed <==> n in apps && Installed(apps[n])
  }

  lemma {:induction false} CleanedHaveImages(s: System, a: map<string, App>, installed: set<string>, corrupt: Corrupt)
    requires AreInstalled(s.apps, installed) && Ok(s) && Cleaned(s.apps, a, installed, corrupt)
    ensures AllHaveImages(a, installed) && forall n :: n in installed ==> "" !in a[n].images
  {
  }

  ghost predicate AllAfterRefresh(s: System, apps: map<string, App>, corrupt: Corrupt, ok: bool) {
    apps.Keys == s.apps.Keys && forall n :: n in s.apps ==> apps[n] == AfterRefresh(s, n, corrupt, ok)
  }

  /** Put together, the phases up to the links are a refresh that failed, and all are one that did not. */
  lemma {:induction false} LinkedPhases(s: System, a: map<string, App>, b: map<string, App>, installed: set<string>, corrupt: Corrupt)
    requires AreInstalled(s.apps, installed) && Cleaned(s.apps, a, installed, corrupt) && AllHaveImages(a, installed)
    requires Relinked(a, b, installed, s.running, s.other, PriorOf(s))
    ensures AllAfterRefresh(s, b, corrupt, false)
  {
    forall n | n in s.apps ensures b[n] == AfterRefresh(s, n, corrupt, false) {
      assert n in installed <==> Installed(s.apps[n]);
    }
  }

  lemma {:induction false} PrunedPhases(s: System, b: map<string, App>, c: map<string, App>, installed: set<string>, corrupt: Corrupt)
    requires AreInstalled(s.apps, installed) && AllAfterRefresh(s, b, corrupt, false) && AllPruned(b, c, installed)
    ensures AllAfterRefresh(s, c, corrupt, true)
  {
    forall n | n in s.apps ensures c[n] == AfterRefresh(s, n, corrupt, true) {
      assert b[n] == AfterRefresh(s, n, corrupt, false);
      assert n in installed <==> Installed(s.apps[n]);
    }
  }

  lemma {:induction false} IsRefresh(s: System, apps: map<string, App>, corrupt: Corrupt, ok: bool)
    requires SomeInstalled(s.apps) && AllAfterRefresh(s, apps, corrupt, ok)
    ensures Do(s, Refresh(corrupt, ok)) == s.(apps := apps, priorBoot := if ok then s.running else PriorOf(s))
  {
    assert apps == map n | n in s.apps :: AfterRefresh(s, n, corrupt, ok);
  }

  class Device {
    var apps: map<string, App>
    var saved: map<string, Record>
    var priorBoot: Version
    var journal: Version
    var running: Version
    var other: Version

    /** A device at its first boot. */
    constructor (apps: map<string, App>, running: Version)
      ensures View() == System(apps, map n | n in apps :: RecordOf(apps[n]), "", "", running, "")
    {
      this.apps, this.saved := apps, map n | n in apps :: RecordOf(apps[n]);
      this.priorBoot, this.journal, this.running, this.other := "", "", running, "";
    }

    ghost function View(): (s: System)
      reads this
    {
      System(apps, saved, priorBoot, journal, running, other)
    }

    /** The names of the installed applications. */
    method GetInstalled() returns (installed: set<string>)
      ensures AreInstalled(apps, installed)
    {
      installed := {};
      var todo := apps.Keys;
      while todo != {}
        invariant todo <= apps.Keys
        invariant installed == set n | n in apps && n !in todo && Installed(apps[n])
      {
        var n :| n in todo;
        todo := todo - {n};
        if Installed(apps[n]) { installed := installed + {n}; }
      }
    }

    /** Deletes the corrupt images of one application, but not the one of `currentVersion`. */
    method RemoveCorruptSysextImages(n: string, currentVersion: Version, corrupt: Version -> bool)
      requires n in apps && currentVersion == apps[n].version
      modifies this`apps
      ensures apps == old(apps)[n := Clean(old(apps[n]), corrupt)]
    {
      var todo := apps[n].images;
      ghost var a := apps[n];
      ghost var before := apps;
      while todo != {}
        invariant todo <= a.images && n in apps
        invariant apps == before[n := apps[n]] && apps[n] == a.(images := apps[n].images)
        invariant apps[n].images == set v | v in a.images && (v in todo || v == a.version || !corrupt(v))
      {
        var entry :| entry in todo;
        todo := todo - {entry};
        if corrupt(entry) && currentVersion != entry {
          apps := apps[n := apps[n].(images := apps[n].images - {entry})];
        }
      }
      assert apps[n].images == Clean(a, corrupt).images;
    }

    /** Deletes the images of one application that are not of a version in `skip`. */
    method RemoveStaleSysextImages(n: string, skip: seq<Version>)
      requires n in apps
      modifies this`apps
      ensures apps == old(apps)[n := old(apps[n]).(images := old(apps[n]).images * Elements(skip))]
    {
      var todo := apps[n].images;
      ghost var a := apps[n];
      ghost var before := apps;
      while todo != {}
        invariant todo <= a.images && n in apps
        invariant apps == before[n := apps[n]] && apps[n] == a.(images := apps[n].images)
        invariant apps[n].images == set v | v in a.images && (v in todo || v in Elements(skip))
      {
        var entry :| entry in todo;
        todo := todo - {entry};
        assert entry in skip <==> entry in Elements(skip);
        if entry !in skip {
          apps := apps[n := apps[n].(images := apps[n].images - {entry})];
        }
      }
      assert apps[n].images == a.images * Elements(skip);
    }

    /** The versions on disk of the installed applications. The error is for an application
        without any image. */
    method GetApplicationsVersions(installed: set<string>)
      returns (failure: Option<Failure>, versions: map<string, AvailableApplicationVersions>)
      requires installed <= apps.Keys
      requires forall n :: n in installed ==> "" !in apps[n].images
      ensures failure.None? <==> forall n :: n in installed ==> apps[n].images != {}
      ensures failure.None? ==> versions.Keys == installed
      ensures failure.None? ==> forall n :: n in installed ==> Gathered(apps[n], running, other, versions[n])
    {
      versions := map[];
      failure := None;
      var todo := installed;
      while todo != {}
        invariant todo <= installed && versions.Keys == installed - todo
        invariant failure.None? <==> forall n :: n in installed - todo ==> apps[n].images != {}
        invariant failure.None? ==> forall n :: n in versions ==> Gathered(apps[n], running, other, versions[n])
      {
        var n :| n in todo;
        todo := todo - {n};
        var a := apps[n];
        var latest := LatestDiskVersion(a.images);
        if latest == "" {
          failure := Some(NoImageOnDisk);
          assert n in installed - todo;
        }
        versions := versions[n := AvailableApplicationVersions(
          if a.version in a.images then a.version else latest,
          if running in a.images then running else "",
          if other in a.images then other else "",
          latest)];
      }
    }

    /** Links the best version of one application and records it. */
    method LinkBest(n: string, g: AvailableApplicationVersions)
      requires n in apps && "" !in apps[n].images && apps[n].images != {} && running != ""
      requires Gathered(apps[n], running, other, g)
      modifies this`apps
      ensures apps == old(apps)[n := Linked(old(apps[n]), running, other, priorBoot)]
    {
      var a := apps[n];
      var best := BestApplicationVersion(a.images, g, priorBoot, running);
      var available := AvailableVersions(a.images, g, running, other);
      apps := apps[n := App(best, available, Some(best), a.images)];
    }

    method CleanAll(installed: set<string>, corrupt: Corrupt)
      requires installed <= apps.Keys
      modifies this`apps
      ensures Cleaned(old(apps), apps, installed, corrupt)
    {
      var todo := installed;
      while todo != {}
        invariant todo <= installed && apps.Keys == old(apps).Keys
        invariant forall n :: n in apps ==>
          apps[n] == if n in installed - todo then Clean(old(apps)[n], CorruptFor(corrupt, n)) else old(apps)[n]
      {
        var n :| n in todo;
        todo := todo - {n};
        RemoveCorruptSysextImages(n, apps[n].version, CorruptFor(corrupt, n));
      }
    }

    /** Removes every symlink, of installed applications or not. */
    method RemoveLinks()
      modifies this`apps
      ensures apps == map n | n in old(apps) :: old(apps)[n].(link := None)
    {
      var todo := apps.Keys;
      while todo != {}
        invariant todo <= old(apps).Keys == apps.Keys
        invariant forall n :: n in apps ==> apps[n] == if n in todo then old(apps)[n] else old(apps)[n].(link := None)
      {
        var n :| n in todo;
        todo := todo - {n};
        apps := apps[n := apps[n].(link := None)];
      }
    }

    method LinkAll(versions: map<string, AvailableApplicationVersions>)
      requires versions.Keys <= apps.Keys && running != ""
      requires forall n :: n in versions ==>
        "" !in apps[n].images && apps[n].images != {} && Gathered(apps[n], running, other, versions[n])
      modifies this`apps
      ensures apps.Keys == old(apps).Keys
      ensures forall n :: n in apps ==>
        apps[n] == if n in versions then Linked(old(apps)[n], running, other, priorBoot) else old(apps)[n]
    {
      var todo := versions.Keys;
      while todo != {}
        invariant todo <= versions.Keys && apps.Keys == old(apps).Keys
        invariant forall n :: n in apps ==>
          apps[n] == if n in versions && n !in todo then Linked(old(apps)[n], running, other, priorBoot) else old(apps)[n]
      {
        var n :| n in todo;
        todo := todo - {n};
        LinkBest(n, versions[n]);
      }
    }

    method PruneAll(installed: set<string>)
      requires installed <= apps.Keys
      modifies this`apps
      ensures AllPruned(old(apps), apps, installed)
    {
      var todo := installed;
      while todo != {}
        invariant todo <= installed && apps.Keys == old(apps).Keys
        invariant forall n :: n in apps ==> apps[n] == if n in installed - todo then Pruned(old(apps)[n]) else old(apps)[n]
      {
        var n :| n in todo;
        todo := todo - {n};
        RemoveStaleSysextImages(n, apps[n].available);
      }
    }

    /** Gathers versions, asks for the prior release, and relinks every installed application. */
    method Relink(installed: set<string>) returns (failure: Option<Failure>)
      requires installed <= apps.Keys && running != ""
      requires forall n :: n in installed ==> "" !in apps[n].images
      modifies this`apps, this`priorBoot
      ensures failure.None? <==> AllHaveImages(old(apps), installed)
      ensures failure.Some? ==> apps == old(apps) && priorBoot == old(priorBoot)
      ensures failure.None? ==>
        && priorBoot == old(PriorOf(View()))
        && Relinked(old(apps), apps, installed, running, other, priorBoot)
    {
      var versions;
      failure, versions := GetApplicationsVersions(installed);
      if failure.Some? { return; }
      assert AllHaveImages(apps, installed);
      if priorBoot == "" { priorBoot := journal; }
      RemoveLinks();
      LinkAll(versions);
    }

    /** RefreshExtensions. The only failure left is systemd's own: an installed application
        always has an image. */
    method RefreshExtensions(corrupt: Corrupt, sysextOk: bool) returns (failure: Option<Failure>)
      requires Ok(View())
      modifies this
      ensures View() == Do(old(View()), Refresh(corrupt, sysextOk))
      ensures failure != Some(NoImageOnDisk)
      ensures failure.Some? <==> SomeInstalled(old(apps)) && !sysextOk
    {
      ghost var s := View();
      var installed := GetInstalled();
      if installed == {} {
        assert !SomeInstalled(apps);
        return None;
      }
      assert SomeInstalled(apps) by { var n :| n in installed; assert n in apps && Installed(apps[n]); }
      CleanAll(installed, corrupt);
      ghost var a := apps;
      CleanedHaveImages(s, a, installed, corrupt);
      failure := Relink(installed);
      ghost var b := apps;
      LinkedPhases(s, a, b, installed, corrupt);
      if sysextOk {
        priorBoot := running;
        PruneAll(installed);
        PrunedPhases(s, b, apps, installed, corrupt);
      } else {
        failure := Some(SysextRefreshFailed);
      }
      IsRefresh(s, apps, corrupt, sysextOk);
    }

    /** SwitchVersion: an error or an index out of range, both with the state unchanged, or the
        new version recorded. */
    method SwitchVersion(n: string, newVersion: Version) returns (r: SwitchResult)
      requires n in apps
      modifies this`apps
      ensures r == SwitchTo(old(apps[n]), newVersion)
      ensures Installed(old(apps[n])) ==> View() == Do(old(View()), Switch(n, newVersion))
      ensures apps == if r.Switched? then old(apps)[n := r.app] else old(apps)
    {
      var a := apps[n];
      if |a.available| == 1 { return Refused; }
      var version;
      if newVersion == "" {
        var i := Index(a.available, a.version);
        if i == 0 { return Refused; }
        if i < 0 { return OutOfRange; }
        version := a.available[i - 1];
      } else {
        if newVersion !in a.available { return Refused; }
        version := newVersion;
      }
      a := a.(version := version);
      apps := apps[n := a];
      return Switched(a);
    }

    /** An application update has been downloaded and verified. */
    method InstallApplication(n: string, v: Version, holdBack: bool)
      requires Enabled(View(), Install(n, v, holdBack))
      modifies this`apps
      ensures View() == Do(old(View()), Install(n, v, holdBack))
    {
      var a := apps[n];
      a := a.(images := a.images + {v});
      if a.link.None? { a := a.(link := Some(v)); }
      if Installed(a) && holdBack {
        a := a.(available := a.available + [v]);
      } else {
        a := a.(version := v, available := []);
      }
      apps := apps[n := a];
    }

    /** The daemon's state is saved. */
    method SaveState()
      modifies this`saved
      ensures View() == Do(old(View()), Save)
    {
      saved := map n | n in apps :: RecordOf(apps[n]);
    }

    /** The daemon comes up, again or after a boot, with the records it finds saved. */
    method LoadState()
      modifies this`apps, this`priorBoot
      ensures View() == Do(old(View()), Restart)
    {
      apps := Loaded(System(apps, saved, priorBoot, journal, running, other));
      priorBoot := "";
    }

    method BootRelease(r: Version, ready: bool)
      requires Enabled(View(), Reboot(r, ready))
      modifies this
      ensures View() == Do(old(View()), Reboot(r, ready))
    {
      LoadState();
      journal := if ready then running else "";
      if r != running { running, other := r, running; }
    }
  }
}
