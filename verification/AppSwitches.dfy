/**
 Switching application versions over runs (internal/applications/app_common.go:162-190,
 sysext.go:25-130, update.go:588-634): when a switch sticks, and what the list of available
 versions is good for in between.
 */
module AppSwitches {
  import opened Wrappers
  import opened Versions
  import opened AppVersions
  import opened AppLifecycle

  // ----- switching within a boot

  /** A switch and the refresh after it end at the version switched to exactly when the refresh
      leaves that version alone: within a daemon that has refreshed, always; in one that was
      restarted since, it depends on the boot before. */
  lemma {:induction false} SwitchSticks(t: System, n: string, v: Version, corrupt: Corrupt, ok: bool)
    requires Ok(t) && n in t.apps && Installed(t.apps[n])
    requires SwitchTo(t.apps[n], v).Switched? && SwitchTo(t.apps[n], v).app.version in t.apps[n].images
    ensures Valid(t, [Switch(n, v), Refresh(corrupt, ok)])
    ensures
      var u := Exec(t, [Switch(n, v), Refresh(corrupt, ok)]);
      var b := SwitchTo(t.apps[n], v).app;
      && n in u.apps && Installed(u.apps[n])
      && (u.apps[n].version == b.version <==> Sticks(PriorOf(t), t.running, Clean(b, CorruptFor(corrupt, n)).images, b.version))
  {
    var sw := Switch(n, v);
    assert [sw, Refresh(corrupt, ok)][1..] == [Refresh(corrupt, ok)];
    var w := Do(t, sw);
    StepKeeps(t, sw);
    ExecOne(w, Refresh(corrupt, ok));
    OneRefresh(w, corrupt, ok, n);
    RefreshSticks(w.apps[n], CorruptFor(corrupt, n), w.running, w.other, PriorOf(w));
  }

  predicate NoReboot(steps: seq<Step>) {
    forall i :: 0 <= i < |steps| ==> !steps[i].Reboot?
  }

  /** Whether the daemon has been restarted since its last successful refresh. */
  ghost predicate Forgotten(s: System, steps: seq<Step>, forgotten: bool)
    requires Valid(s, steps)
    decreases |steps|
  {
    if steps == [] then forgotten
    else Forgotten(Do(s, steps[0]), steps[1..],
                   steps[0].Restart? || (forgotten && !(steps[0].Refresh? && steps[0].sysextOk && SomeInstalled(s.apps))))
  }

  /** Within a boot, the release the next refresh compares with is the running one, or, in a daemon
      restarted since its last successful refresh, again the one of the boot before. */
  lemma {:induction false} PriorWithinBoot(s: System, steps: seq<Step>, forgotten: bool)
    requires Valid(s, steps) && NoReboot(steps) && s.running != ""
    requires if forgotten then PriorOf(s) == s.journal else s.priorBoot == s.running
    ensures var t := Exec(s, steps);
      && t.running == s.running && t.journal == s.journal
      && PriorOf(t) == if Forgotten(s, steps, forgotten) then s.journal else s.running
    decreases |steps|
  {
    if steps != [] {
      var step, s' := steps[0], Do(s, steps[0]);
      var f := step.Restart? || (forgotten && !(step.Refresh? && step.sysextOk && SomeInstalled(s.apps)));
      assert if f then PriorOf(s') == s'.journal else s'.priorBoot == s'.running;
      PriorWithinBoot(s', steps[1..], f);
    }
  }

  /** Over runs: after a refresh and whatever else happens in that boot, restarts of the daemon
      included, switching to a version and refreshing ends at exactly that version if and only if
      the daemon was not restarted since its last refresh, or that version stands up to the boot
      before. */
  lemma {:induction false} SwitchSticksInBoot(s: System, first: Corrupt, steps: seq<Step>, n: string, v: Version, second: Corrupt, ok: bool)
    requires Ok(s) && SomeInstalled(s.apps) && NoReboot(steps) && Valid(Do(s, Refresh(first, true)), steps)
    requires
      var t := Exec(Do(s, Refresh(first, true)), steps);
      && n in t.apps && Installed(t.apps[n])
      && SwitchTo(t.apps[n], v).Switched? && SwitchTo(t.apps[n], v).app.version in t.apps[n].images
    ensures
      var r := Do(s, Refresh(first, true));
      var t := Exec(r, steps);
      var b := SwitchTo(t.apps[n], v).app;
      && Valid(t, [Switch(n, v), Refresh(second, ok)])
      && var u := Exec(t, [Switch(n, v), Refresh(second, ok)]);
         && n in u.apps && Installed(u.apps[n])
         && (u.apps[n].version == b.version <==>
               || !Forgotten(r, steps, false)
               || Sticks(s.journal, s.running, Clean(b, CorruptFor(second, n)).images, b.version))
  {
    var r := Do(s, Refresh(first, true));
    StepKeeps(s, Refresh(first, true));
    RunKeeps(r, steps);
    PriorWithinBoot(r, steps, false);
    SwitchSticks(Exec(r, steps), n, v, second, ok);
  }

  ghost predicate NoneCorrupt(c: Corrupt, n: string) {
    forall v: Version :: !c(n, v)
  }

  /** After an upgrade boot a switch to an older version sticks, until the daemon is restarted: its
      first refresh goes back to the greatest version on disk, although the switch was saved. */
  lemma {:induction false} RestartUndoesSwitch(t: System, n: string, v: Version, fine: Corrupt)
    requires Ok(t) && n in t.apps && Installed(t.apps[n]) && t.priorBoot == t.running
    requires t.journal != "" && Less(t.journal, t.running) && NoneCorrupt(fine, n)
    requires v != "" && v in t.apps[n].available && |t.apps[n].available| > 1
    requires v in t.apps[n].images && !IsLatest(t.apps[n].images, v)
    ensures
      var stuck := Do(Do(t, Switch(n, v)), Refresh(fine, true));
      && n in stuck.apps && stuck.apps[n].version == v
      && var u := Do(Do(Do(stuck, Save), Restart), Refresh(fine, true));
         n in u.apps && u.apps[n].version != v
  {
    SwitchedAndRefreshed(t, n, v, fine);
    var stuck := Do(Do(t, Switch(n, v)), Refresh(fine, true));
    SavedAndRestarted(stuck, n);
    var up := Do(Do(stuck, Save), Restart);
    RestartSelects(up, fine, n);
    LatestUnique(up.apps[n].images, Do(up, Refresh(fine, true)).apps[n].version, Latest(t.apps[n].images));
  }

  /** The switch and its refresh, in a boot whose daemon has refreshed before. */
  lemma {:induction false} SwitchedAndRefreshed(t: System, n: string, v: Version, fine: Corrupt)
    requires Ok(t) && n in t.apps && Installed(t.apps[n]) && t.priorBoot == t.running && NoneCorrupt(fine, n)
    requires v != "" && v in t.apps[n].available && |t.apps[n].available| > 1 && v in t.apps[n].images
    ensures
      var u := Do(Do(t, Switch(n, v)), Refresh(fine, true));
      && Ok(u) && n in u.apps && Installed(u.apps[n]) && u.apps[n].version == v && u.journal == t.journal && u.running == t.running
      && IsLatest(u.apps[n].images, Latest(t.apps[n].images))
  {
    var w := Do(t, Switch(n, v));
    StepKeeps(t, Switch(n, v));
    assert w.apps[n] == t.apps[n].(version := v);
    RefreshOfAll(w, fine, n);
    RefreshSelects(w.apps[n], CorruptFor(fine, n), w.running, w.other, w.running);
    StepKeeps(w, Refresh(fine, true));
  }

  lemma {:induction false} SavedAndRestarted(s: System, n: string)
    requires Ok(s) && n in s.apps
    ensures
      var up := Do(Do(s, Save), Restart);
      && Ok(up) && n in up.apps && up.apps[n] == s.apps[n] && up.priorBoot == "" && up.journal == s.journal && up.running == s.running
  {
    StepKeeps(s, Save);
    StepKeeps(Do(s, Save), Restart);
  }

  /** In an upgrade boot, the first refresh of a restarted daemon goes to the greatest version. */
  lemma {:induction false} RestartSelects(up: System, fine: Corrupt, n: string)
    requires Ok(up) && n in up.apps && Installed(up.apps[n]) && NoneCorrupt(fine, n)
    requires up.priorBoot == "" && up.journal != "" && Less(up.journal, up.running)
    ensures n in Do(up, Refresh(fine, true)).apps && IsLatest(up.apps[n].images, Do(up, Refresh(fine, true)).apps[n].version)
  {
    RefreshOfAll(up, fine, n);
    RefreshSelects(up.apps[n], CorruptFor(fine, n), up.running, up.other, up.journal);
  }

  /** With nothing corrupt, a refresh keeps the greatest version, which stays the greatest. */
  lemma {:induction false} RefreshOfAll(t: System, fine: Corrupt, n: string)
    requires Ok(t) && n in t.apps && Installed(t.apps[n]) && NoneCorrupt(fine, n)
    ensures Clean(t.apps[n], CorruptFor(fine, n)).images == t.apps[n].images
    ensures var u := Do(t, Refresh(fine, true));
      && n in u.apps && u.apps[n] == Refreshed(t.apps[n], CorruptFor(fine, n), t.running, t.other, PriorOf(t))
      && IsLatest(u.apps[n].images, Latest(t.apps[n].images))
  {
    var a := t.apps[n];
    assert Clean(a, CorruptFor(fine, n)).images == a.images;
    assert SomeInstalled(t.apps);
    AvailableFacts(a.images, a.version, t.running, t.other, Latest(a.images));
  }

  // ----- the list a switch works on

  /** No step records a new version for n, and whatever is loaded lists the version it records. */
  ghost predicate KeepsListed(s: System, steps: seq<Step>, n: string)
    requires Valid(s, steps)
    decreases |steps|
  {
    && n in s.apps && n in s.saved
    && (steps == [] ||
        (&& (steps[0].Install? && steps[0].app == n ==> HeldBack(s.apps[n], steps[0].version, steps[0].holdBack))
         && (Loads(steps[0]) ==> s.saved[n].version in s.saved[n].available)
         && KeepsListed(Do(s, steps[0]), steps[1..], n)))
  }

  lemma {:induction false} StaysListed(s: System, steps: seq<Step>, n: string)
    requires Ok(s) && Valid(s, steps) && KeepsListed(s, steps, n) && s.apps[n].version in s.apps[n].available
    ensures n in Exec(s, steps).apps && Exec(s, steps).apps[n].version in Exec(s, steps).apps[n].available
    decreases |steps|
  {
    if steps != [] {
      StepKeeps(s, steps[0]);
      if steps[0].Refresh? && Installed(s.apps[n]) {
        LinkedInstalled(s.apps[n], CorruptFor(steps[0].corrupt, n), s.running, s.other, PriorOf(s));
      }
      StaysListed(Do(s, steps[0]), steps[1..], n);
    }
  }

  /** After a refresh, and until an install records a version or an unlisted record is loaded, a
      switch never indexes out of range. */
  lemma {:induction false} SwitchSafeAfterRefresh(s: System, corrupt: Corrupt, ok: bool, steps: seq<Step>, n: string, v: Version)
    requires Ok(s) && n in s.apps && Installed(s.apps[n])
    requires Valid(Do(s, Refresh(corrupt, ok)), steps) && KeepsListed(Do(s, Refresh(corrupt, ok)), steps, n)
    ensures var t := Exec(Do(s, Refresh(corrupt, ok)), steps);
      n in t.apps && SwitchTo(t.apps[n], v) != OutOfRange
  {
    StepKeeps(s, Refresh(corrupt, ok));
    LinkedInstalled(s.apps[n], CorruptFor(corrupt, n), s.running, s.other, PriorOf(s));
    StaysListed(Do(s, Refresh(corrupt, ok)), steps, n);
  }

  /** Since the last refresh: installs only hold back versions newer than the recorded one, as the
      update check demands, switches only go down, and nothing unsaved is lost. */
  ghost predicate Orderly(s: System, steps: seq<Step>, n: string)
    requires Valid(s, steps)
    decreases |steps|
  {
    && n in s.apps && n in s.saved
    && (steps == [] || (OrderlyStep(s, steps[0], n) && Orderly(Do(s, steps[0]), steps[1..], n)))
  }

  predicate OrderlyStep(s: System, step: Step, n: string)
    requires n in s.apps && n in s.saved
  {
    && (step.Install? && step.app == n ==>
          HeldBack(s.apps[n], step.version, step.holdBack) && Less(s.apps[n].version, step.version))
    && (step.Switch? && step.app == n ==> step.version == "" || Less(step.version, s.apps[n].version))
    && (Loads(step) ==> s.saved[n] == RecordOf(s.apps[n]))
  }

  lemma {:induction false} RefreshIsRollable(s: System, corrupt: Corrupt, ok: bool, n: string)
    requires Ok(s) && n in s.apps && Installed(s.apps[n])
    ensures var a := Do(s, Refresh(corrupt, ok)).apps[n]; Rollable(a, |a.available|)
  {
    var c := Clean(s.apps[n], CorruptFor(corrupt, n));
    LinkedInstalled(s.apps[n], CorruptFor(corrupt, n), s.running, s.other, PriorOf(s));
    AvailableFacts(c.images, s.apps[n].version, s.running, s.other, Latest(c.images));
    var a := Do(s, Refresh(corrupt, ok)).apps[n];
    assert a.available[..|a.available|] == a.available;
  }

  lemma {:induction false} RollableStep(s: System, step: Step, n: string, k: nat) returns (k': nat)
    requires Ok(s) && Enabled(s, step) && n in s.apps && Rollable(s.apps[n], k) && OrderlyStep(s, step, n)
    ensures n in Do(s, step).apps && Rollable(Do(s, step).apps[n], k')
  {
    k' := k;
    var a := s.apps[n];
    if step.Refresh? && Installed(a) {
      RefreshIsRollable(s, step.corrupt, step.sysextOk, n);
      k' := |Do(s, step).apps[n].available|;
    } else if step.Install? && step.app == n {
      StaysRollable(a, k, step.version);
    } else if step.Switch? && step.app == n && SwitchTo(a, step.version).Switched? {
      EmptyRequestRollsBack(a, k);
      StaysRollable(a, k, SwitchTo(a, step.version).app.version);
    }
  }

  lemma {:induction false} RollableRun(s: System, steps: seq<Step>, n: string, k: nat) returns (k': nat)
    requires Ok(s) && Valid(s, steps) && Orderly(s, steps, n) && Rollable(s.apps[n], k)
    ensures n in Exec(s, steps).apps && Rollable(Exec(s, steps).apps[n], k')
    decreases |steps|
  {
    k' := k;
    if steps != [] {
      var k1 := RollableStep(s, steps[0], n, k);
      StepKeeps(s, steps[0]);
      k' := RollableRun(Do(s, steps[0]), steps[1..], n, k1);
    }
  }

  /** Whatever happened before the last refresh, and whatever orderly happened since, an empty
      request rolls back to the greatest available version below the current one. */
  lemma {:induction false} RollbackOverRuns(s: System, corrupt: Corrupt, ok: bool, steps: seq<Step>, n: string)
    requires Ok(s) && n in s.apps && Installed(s.apps[n])
    requires Valid(Do(s, Refresh(corrupt, ok)), steps) && Orderly(Do(s, Refresh(corrupt, ok)), steps, n)
    ensures var t := Exec(Do(s, Refresh(corrupt, ok)), steps); n in t.apps && RollsBackOne(t.apps[n])
  {
    var r := Do(s, Refresh(corrupt, ok));
    StepKeeps(s, Refresh(corrupt, ok));
    RefreshIsRollable(s, corrupt, ok, n);
    var k := RollableRun(r, steps, n, |r.apps[n].available|);
    EmptyRequestRollsBack(Exec(r, steps).apps[n], k);
  }

  /** A switch up to a version that was held back out of order is not orderly: the next empty
      request goes up. */
  lemma {:induction false} SwitchUpThenRollsForward(a: App, low: Version, high: Version)
    requires Installed(a) && a.available == [a.version] && Less(a.version, low) && Less(low, high)
    ensures var b := Installing(Installing(a, high, true), low, true);
      && SwitchTo(b, low).Switched?
      && SwitchTo(SwitchTo(b, low).app, "") == Switched(SwitchTo(b, low).app.(version := high))
  {
    LessIrreflexive(low);
    LessIrreflexive(a.version);
    var b := Installing(Installing(a, high, true), low, true);
    assert b.available == [a.version, high, low];
    assert low == b.available[2] && low in b.available;
    var c := SwitchTo(b, low).app;
    assert Index(c.available, low) == 2 by {
      assert c.available[0] != low && c.available[1] != low;
    }
  }

  /** Without the refresh it does: an update leaves the list empty, and a rollback request then
      indexes out of range. */
  lemma {:induction false} SwitchAfterInstallIsOutOfRange(s: System, n: string, v: Version)
    requires Ok(s) && n in s.apps && v != ""
    ensures var t := Do(s, Install(n, v, false));
      && Ok(t) && n in t.apps && Installed(t.apps[n]) && SwitchTo(t.apps[n], "") == OutOfRange
  {
  }

  // ----- single steps, said of the fields

  /** An install puts the image on disk and a symlink if there was none. It only lists the version if
      it is to be held back and the application was there before, with a record whose image exists;
      otherwise, and so on every first install, it records it with an empty list. */
  lemma {:induction false} InstallRecords(a: App, v: Version, holdBack: bool)
    requires v != ""
    ensures var r := Installing(a, v, holdBack);
      && r.images == a.images + {v} && r.link == (if a.link.None? then Some(v) else a.link)
      && (holdBack && a.version != "" && (a.version in a.images || a.version == v) ==>
            r.version == a.version && r.available == a.available + [v])
      && (!holdBack || a.version == "" || (a.version !in a.images && a.version != v) ==> r.version == v && r.available == [])
  {
  }

  /** With a version given, a switch is accepted exactly when that version is listed and is not the
      only one, and records it and nothing else. */
  lemma {:induction false} SwitchExactly(a: App, v: Version)
    requires v != ""
    ensures SwitchTo(a, v).Switched? <==> |a.available| != 1 && v in a.available
    ensures SwitchTo(a, v).Switched? ==> SwitchTo(a, v).app == App(v, a.available, a.link, a.images)
    ensures !SwitchTo(a, v).Switched? ==> SwitchTo(a, v) == Refused
  {
  }

  /** After an update of the operating system the machine can boot the new release, and from there the
      old one again. */
  lemma {:induction false} UpgradeAndBack(s: System, next: Version, ready: bool, again: bool)
    requires s.running != "" && next != "" && next != s.running
    ensures
      && Enabled(s, OsUpdate(next)) && Enabled(Do(s, OsUpdate(next)), Reboot(next, ready))
      && var up := Do(Do(s, OsUpdate(next)), Reboot(next, ready));
         && up.running == next && up.other == s.running && up.journal == (if ready then s.running else "")
         && Enabled(up, Reboot(s.running, again))
         && var back := Do(up, Reboot(s.running, again));
            back.running == s.running && back.other == next && back.journal == (if again then next else "")
  {
  }

  /** A refresh with nothing installed does nothing. With something installed it links each installed
      application to its version, whether systemd goes along or not, and removes every other symlink. */
  lemma {:induction false} RefreshLinks(s: System, corrupt: Corrupt, ok: bool, n: string)
    requires Ok(s) && n in s.apps
    ensures
      var u := Do(s, Refresh(corrupt, ok));
      && n in u.apps
      && ((forall m :: m in s.apps ==> !Installed(s.apps[m])) ==> u == s)
      && (SomeInstalled(s.apps) ==>
            u.apps[n].link == if Installed(s.apps[n]) then Some(u.apps[n].version) else None)
      && (!Installed(s.apps[n]) ==> u.apps[n].images == s.apps[n].images && RecordOf(u.apps[n]) == RecordOf(s.apps[n]))
      && u.saved == s.saved && u.running == s.running && u.other == s.other && u.journal == s.journal
  {
  }
}
