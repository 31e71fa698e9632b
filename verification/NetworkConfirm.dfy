/**
 The confirm-or-roll-back protocol for network changes (internal/rest/api_system_network.go,
 with the boot step of cmd/incus-osd/main.go).

 The PUT handlers, the watcher goroutine, the confirm handler, readers of the network state,
 saves from anywhere in the daemon and crashes interleave freely; a `Step` is one atomic
 section of one of them. The channel is buffered with room for one message
 (internal/state/file.go:28). The flag that is meant to let one apply run at a time is cleared
 by whoever reads the network state (internal/systemd/networkd.go:328), so several may run.
 */
module NetworkConfirm {
  import opened Wrappers

  /** A network configuration, as its JSON text. */
  type Config = string

  /** What a sender puts on the channel: nil, or an error. */
  datatype Message = Confirmed | Failed

  /** A message and what it is about: for a confirmation the change that was pending when it was
      given, for a failure the change whose handler failed, if that was a timed one. */
  datatype Token = Token(message: Message, change: Option<nat>)

  /** A PUT handler: its configuration, and the timed change it belongs to, if any. */
  datatype Job = Job(config: Config, change: Option<nat>)

  /** A handler's run of systemd.ApplyNetworkConfiguration. */
  datatype Apply = Apply(job: Job, installed: bool)

  /** The watcher goroutine, from its spawning until it resets the pending flag. `Restoring` is
      its own run of ApplyNetworkConfiguration. */
  datatype Watcher = NoWatcher | Waiting | RollingBack | Restoring(config: Config, installed: bool) | Leaving

  datatype Disk = Disk(config: Config, prior: Option<Config>)

  /** History: how the current change began and went. None of this is in the program. */
  datatype History = History(
    change: nat,                 // how many timed changes have begun
    base: Config,                // the configuration when the current change began
    baseDisk: Config,            // what a boot would have come up with then
    alone: bool,                 // no earlier watcher was still closing then
    taken: Option<Token>)        // the message the current change's watcher acted on

  datatype State = State(
    config: Config,              // System.Network.Config
    prior: Option<Config>,       // PriorNetworkConfig
    pending: bool,               // NetworkConfigurationPending
    channel: Option<Token>,      // NetworkConfigurationChannel
    senders: seq<Token>,         // handlers past their pending check, about to send
    starting: seq<Job>,          // PUT handlers about to apply
    applies: seq<Apply>,         // PUT handlers applying
    inProcess: bool,             // ConfigurationInProcess
    watcher: Watcher,
    closers: nat,                // watchers that reset pending but have not cleared prior yet
    disk: Disk,
    past: History)

  datatype Step =
    | Put(config: Config, timed: bool)  // lines 116-196: accepted PUT
    | StartApply(i: nat)                // networkd.go:47-52, called at line 207
    | Install(k: nat)                   // networkd.go:102
    | FinishApply(k: nat, ok: bool)     // lines 207-218
    | Look                              // line 84: the state is read, and rebuilt
    | Confirm                           // line 266: the pending check of the confirm handler
    | Send(i: nat)                      // lines 211 and 273
    | Receive                           // line 163
    | Timer                             // line 177
    | StartRollback(filters: bool)      // lines 172 and 182; whether the nft commands worked
    | Restore                           // networkd.go:102 in the watcher
    | FinishRollback(ok: bool)          // lines 172-175 and 182-185
    | Leave                             // line 189
    | ClearPrior                        // line 192
    | Save                              // lines 194 and 238, or any other save in the daemon
    | Crash                             // power loss and boot, main.go:160-164

  /** What the boot step makes of a saved state. */
  function BootConfig(d: Disk): (c: Config) {
    if d.prior.Some? then d.prior.value else d.config
  }

  predicate Enabled(s: State, step: Step) {
    match step
    case Put(_, _) => !s.pending
    case StartApply(i) => i < |s.starting|
    case Install(k) => k < |s.applies| && !s.applies[k].installed
    case FinishApply(k, ok) => k < |s.applies| && (ok ==> s.applies[k].installed)
    case Look => true
    case Confirm => s.pending
    case Send(i) => s.channel.None? && i < |s.senders|
    case Receive => s.watcher.Waiting? && s.channel.Some?
    case Timer => s.watcher.Waiting?
    case StartRollback(_) => s.watcher.RollingBack?
    case Restore => s.watcher.Restoring? && !s.watcher.installed
    case FinishRollback(ok) => s.watcher.Restoring? && (ok ==> s.watcher.installed)
    case Leave => s.watcher.Leaving?
    case ClearPrior => s.closers > 0
    case Save => true
    case Crash => true
  }

  function Saved(s: State): State {
    s.(disk := Disk(s.config, s.prior))
  }

  /** A failed apply in a handler reports to the watcher if a change is pending, whichever that is. */
  function ReportFailure(s: State, job: Job): State {
    if s.pending then s.(senders := s.senders + [Token(Failed, job.change)]) else s
  }

  /** Everyone but the one whose turn it is. */
  function Without<T>(xs: seq<T>, i: nat): (r: seq<T>)
    requires i < |xs|
    ensures |r| == |xs| - 1 && forall k :: 0 <= k < |r| ==> r[k] == xs[if k < i then k else k + 1]
  {
    xs[..i] + xs[i + 1..]
  }

  /** The daemon goes down and the machine or the daemon comes up again. */
  function Crashed(s: State): State {
    State(BootConfig(s.disk), None, false, None, [], [], [], false, NoWatcher, 0, s.disk, s.past)
  }

  /** A rollback without a prior configuration dereferences nil in the watcher's goroutine
      (internal/nftables/nft.go:130), which takes the daemon down. */
  predicate Panics(s: State, step: Step) {
    step == StartRollback(true) && Enabled(s, step) && s.prior.None?
  }

  function Do(s: State, step: Step): (r: State)
    requires Enabled(s, step)
  {
    match step
    case Put(c, timed) =>
      if !timed then s.(starting := s.starting + [Job(c, None)])
      else s.(starting := s.starting + [Job(c, Some(s.past.change + 1))], pending := true, prior := Some(s.config),
              watcher := Waiting,
              past := History(s.past.change + 1, s.config, BootConfig(s.disk), s.closers == 0, None))
    case StartApply(i) =>
      var s' := s.(starting := Without(s.starting, i));
      if s.inProcess then ReportFailure(s', s.starting[i])
      else s'.(applies := s.applies + [Apply(s.starting[i], false)], inProcess := true)
    case Install(k) =>
      s.(config := s.applies[k].job.config, applies := s.applies[k := s.applies[k].(installed := true)])
    case FinishApply(k, ok) =>
      var s' := s.(applies := Without(s.applies, k), inProcess := false);
      if ok then s' else ReportFailure(s', s.applies[k].job)
    case Look => s.(inProcess := false)
    case Confirm => s.(senders := s.senders + [Token(Confirmed, Some(s.past.change))])
    case Send(i) => s.(channel := Some(s.senders[i]), senders := Without(s.senders, i))
    case Receive =>
      var t := s.channel.value;
      s.(channel := None, past := s.past.(taken := Some(t)), watcher := if t.message.Confirmed? then Leaving else RollingBack)
    case Timer => s.(watcher := RollingBack)
    case StartRollback(filters) =>
      if !filters then s.(watcher := Leaving)
      else if s.prior.None? then Crashed(s)
      else if s.inProcess then s.(watcher := Leaving)
      else s.(watcher := Restoring(s.prior.value, false), inProcess := true)
    case Restore => s.(config := s.watcher.config, watcher := s.watcher.(installed := true))
    case FinishRollback(_) => s.(watcher := Leaving, inProcess := false)
    case Leave => s.(pending := false, watcher := NoWatcher, closers := s.closers + 1)
    case ClearPrior => s.(prior := None, closers := s.closers - 1)
    case Save => Saved(s)
    case Crash => Crashed(s)
  }

  /** Every step of the sequence is enabled when its turn comes. */
  predicate Valid(s: State, steps: seq<Step>)
    decreases |steps|
  {
    steps == [] || (Enabled(s, steps[0]) && Valid(Do(s, steps[0]), steps[1..]))
  }

  function Exec(s: State, steps: seq<Step>): (r: State)
    requires Valid(s, steps)
    decreases |steps|
  {
    if steps == [] then s else Exec(Do(s, steps[0]), steps[1..])
  }

  function Initial(c: Config): (s: State) {
    State(c, None, false, None, [], [], [], false, NoWatcher, 0, Disk(c, None), History(0, c, c, true, None))
  }

  // ----- what every step keeps

  predicate UpTo(change: Option<nat>, n: nat) {
    change.Some? ==> change.value <= n
  }

  /** Every message and every handler around is of change `n` or an earlier one. */
  predicate IssuedBy(s: State, n: nat) {
    && (s.channel.Some? ==> UpTo(s.channel.value.change, n))
    && (forall i :: 0 <= i < |s.senders| ==> UpTo(s.senders[i].change, n))
    && (forall i :: 0 <= i < |s.starting| ==> UpTo(s.starting[i].change, n))
    && (forall k :: 0 <= k < |s.applies| ==> UpTo(s.applies[k].job.change, n))
  }

  predicate Core(s: State) {
    // A pending change has exactly one live watcher, and nothing else has one.
    && (s.pending <==> !s.watcher.NoWatcher?)
    // What a pending change keeps to roll back to, and rolls back to, is the configuration it replaced.
    && (s.pending && s.prior.Some? ==> s.prior.value == s.past.base)
    && (s.watcher.Restoring? ==> s.watcher.config == s.past.base)
    // Until its watcher leaves, a change begun alone keeps it, and whatever was saved boots into
    // a configuration from before the change.
    && (s.pending && s.past.alone ==>
          s.prior.Some? && s.closers == 0 && (BootConfig(s.disk) == s.past.base || BootConfig(s.disk) == s.past.baseDisk))
  }

  predicate Inv(s: State) {
    Core(s) && IssuedBy(s, s.past.change)
  }

  lemma {:induction false} InvInitial(c: Config)
    ensures Inv(Initial(c))
  {
  }

  lemma {:induction false} CoreStep(s: State, step: Step)
    requires Core(s) && Enabled(s, step)
    ensures Core(Do(s, step))
  {
    match step
    case Put(_, _) =>
    case StartApply(_) =>
    case Install(_) =>
    case FinishApply(_, _) =>
    case Look =>
    case Confirm =>
    case Send(_) =>
    case Receive =>
    case Timer =>
    case StartRollback(_) =>
    case Restore =>
    case FinishRollback(_) =>
    case Leave =>
    case ClearPrior =>
    case Save =>
    case Crash =>
  }

  lemma {:induction false} IssuedStartApply(s: State, i: nat, n: nat)
    requires IssuedBy(s, n) && i < |s.starting|
    ensures IssuedBy(Do(s, StartApply(i)), n)
  {
    assert UpTo(s.starting[i].change, n);
  }

  lemma {:induction false} IssuedFinishApply(s: State, k: nat, ok: bool, n: nat)
    requires IssuedBy(s, n) && Enabled(s, FinishApply(k, ok))
    ensures IssuedBy(Do(s, FinishApply(k, ok)), n)
  {
    assert UpTo(s.applies[k].job.change, n);
  }

  lemma {:induction false} IssuedPut(s: State, c: Config, timed: bool, n: nat)
    requires IssuedBy(s, n) && !s.pending && n == s.past.change
    ensures IssuedBy(Do(s, Put(c, timed)), Do(s, Put(c, timed)).past.change)
  {
  }

  lemma {:induction false} IssuedSend(s: State, i: nat, n: nat)
    requires IssuedBy(s, n) && Enabled(s, Send(i))
    ensures IssuedBy(Do(s, Send(i)), n)
  {
  }

  lemma {:induction false} IssuedStep(s: State, step: Step)
    requires IssuedBy(s, s.past.change) && Enabled(s, step)
    ensures IssuedBy(Do(s, step), Do(s, step).past.change)
    ensures Do(s, step).past.change == if step.Put? && step.timed then s.past.change + 1 else s.past.change
  {
    match step
    case Put(c, timed) => IssuedPut(s, c, timed, s.past.change);
    case StartApply(i) => IssuedStartApply(s, i, s.past.change);
    case Install(_) =>
    case FinishApply(k, ok) => IssuedFinishApply(s, k, ok, s.past.change);
    case Look =>
    case Confirm =>
    case Send(i) => IssuedSend(s, i, s.past.change);
    case Receive =>
    case Timer =>
    case StartRollback(_) =>
    case Restore =>
    case FinishRollback(_) =>
    case Leave =>
    case ClearPrior =>
    case Save =>
    case Crash =>
  }

  lemma {:induction false} InvStep(s: State, step: Step)
    requires Inv(s) && Enabled(s, step)
    ensures Inv(Do(s, step))
  {
    CoreStep(s, step);
    IssuedStep(s, step);
  }

  lemma {:induction false} InvRun(s: State, steps: seq<Step>)
    requires Inv(s) && Valid(s, steps)
    ensures Inv(Exec(s, steps))
    decreases |steps|
  {
    if steps != [] {
      InvStep(s, steps[0]);
      InvRun(Do(s, steps[0]), steps[1..]);
    }
  }

  ghost predicate Reachable(s: State) {
    exists c, steps :: Valid(Initial(c), steps) && Exec(Initial(c), steps) == s
  }

  lemma {:induction false} PriorRun(s: State, steps: seq<Step>)
    requires Valid(s, steps) && (s.prior.Some? ==> s.pending || s.closers > 0)
    ensures var e := Exec(s, steps); e.prior.Some? ==> e.pending || e.closers > 0
    decreases |steps|
  {
    if steps != [] { PriorRun(Do(s, steps[0]), steps[1..]); }
  }

  /** Once a change is over, confirmed or rolled back, and its watcher is gone, no prior
      configuration is left in memory, nor on disk after the next save. */
  lemma {:induction false} PriorIsCleared(s: State)
    requires Reachable(s) && !s.pending && s.closers == 0
    ensures s.prior == None && Do(s, Save).disk == Disk(s.config, None)
  {
    var c, steps :| Valid(Initial(c), steps) && Exec(Initial(c), steps) == s;
    PriorRun(Initial(c), steps);
  }

  lemma {:induction false} ReachableInv(s: State)
    requires Reachable(s)
    ensures Inv(s)
  {
    var c, steps :| Valid(Initial(c), steps) && Exec(Initial(c), steps) == s;
    InvInitial(c);
    InvRun(Initial(c), steps);
  }

  /** What is remembered about a change stays until the next change begins. */
  lemma {:induction false} HistoryStep(s: State, step: Step)
    requires Enabled(s, step)
    ensures var r := Do(s, step);
      && r.past.change >= s.past.change
      && (r.past.change == s.past.change ==> r.past.base == s.past.base && r.past.baseDisk == s.past.baseDisk && r.past.alone == s.past.alone)
  {
    if !step.Put? && !step.Receive? {
      assert Do(s, step).past == s.past;
    }
  }

  lemma {:induction false} HistoryKept(s: State, steps: seq<Step>)
    requires Valid(s, steps)
    ensures var e := Exec(s, steps);
      && e.past.change >= s.past.change
      && (e.past.change == s.past.change ==> e.past.base == s.past.base && e.past.baseDisk == s.past.baseDisk && e.past.alone == s.past.alone)
    decreases |steps|
  {
    if steps != [] { HistoryStep(s, steps[0]); HistoryKept(Do(s, steps[0]), steps[1..]); }
  }

  lemma {:induction false} ExecAppend(s: State, a: seq<Step>, b: seq<Step>)
    requires Valid(s, a) && Valid(Exec(s, a), b)
    ensures Valid(s, a + b) && Exec(s, a + b) == Exec(Exec(s, a), b)
    decreases |a|
  {
    if a == [] {
      assert a + b == b;
    } else {
      ExecAppend(Do(s, a[0]), a[1..], b);
      assert (a + b)[1..] == a[1..] + b;
    }
  }

  lemma {:induction false} ExecOne(s: State, step: Step)
    requires Enabled(s, step)
    ensures Valid(s, [step]) && Exec(s, [step]) == Do(s, step)
  {
    assert [step][1..] == [];
  }

  lemma {:induction false} ExecCons(s: State, step: Step, rest: seq<Step>)
    requires Enabled(s, step) && Valid(Do(s, step), rest)
    ensures Valid(s, [step] + rest) && Exec(s, [step] + rest) == Exec(Do(s, step), rest)
  {
    assert ([step] + rest)[1..] == rest;
  }

  /** Once a change is no longer pending, it has no watcher until the next one begins. */
  lemma {:induction false} IdleHasNoWatcher(s: State, steps: seq<Step>)
    requires Inv(s) && Valid(s, steps) && !s.pending
    ensures var e := Exec(s, steps); e.past.change == s.past.change ==> e.watcher.NoWatcher? && !e.pending
    decreases |steps|
  {
    if steps != [] {
      var s1 := Do(s, steps[0]);
      InvStep(s, steps[0]);
      if s1.pending {
        HistoryKept(s1, steps[1..]);
      } else {
        IdleHasNoWatcher(s1, steps[1..]);
      }
    }
  }

  // ----- crash safety

  /** A crash at any point of the change that `Put(c, true)` begins in `s`, up to its watcher
      resetting the pending flag, boots into the configuration in memory before the change, or
      into what a crash just before the change would have booted into. */
  ghost predicate CrashSafe(s: State, c: Config)
    requires !s.pending
  {
    forall steps :: Valid(Do(s, Put(c, true)), steps) ==>
      var e := Exec(Do(s, Put(c, true)), steps);
      e.pending && e.past.change == s.past.change + 1 ==> Safe(s, Do(e, Crash).config)
  }

  predicate Safe(s: State, d: Config) {
    d == s.config || d == Do(s, Crash).config
  }

  /** A handler that is about to apply `d`, or is applying it and has not installed it. */
  predicate UnderWay(s: State, d: Config) {
    || (exists i :: 0 <= i < |s.starting| && s.starting[i].config == d)
    || (exists k :: 0 <= k < |s.applies| && !s.applies[k].installed && s.applies[k].job.config == d)
  }

  /** A timed change is crash safe exactly when no earlier watcher still has to clear the prior
      configuration, or there is nothing to be unsafe about: the new configuration, and whatever
      is under way, is one of those a crash before the change could have come up with. */
  lemma {:induction false} CrashSafety(s: State, c: Config)
    requires Reachable(s) && !s.pending
    ensures CrashSafe(s, c) <==> s.closers == 0 || (Safe(s, c) && forall d :: UnderWay(s, d) ==> Safe(s, d))
  {
    ReachableInv(s);
    InvStep(s, Put(c, true));
    if s.closers == 0 {
      AloneIsSafe(s, c);
    } else if Safe(s, c) && forall d :: UnderWay(s, d) ==> Safe(s, d) {
      ConfinedIsSafe(s, c);
    } else {
      var d :| (d == c || UnderWay(s, d)) && !Safe(s, d);
      var steps := ReachBoot(s, c, d);
    }
  }

  lemma {:induction false} AloneIsSafe(s: State, c: Config)
    requires Inv(s) && !s.pending && s.closers == 0
    ensures CrashSafe(s, c)
  {
    var s' := Do(s, Put(c, true));
    InvStep(s, Put(c, true));
    forall steps | Valid(s', steps)
      ensures var e := Exec(s', steps); e.pending && e.past.change == s.past.change + 1 ==> Safe(s, Do(e, Crash).config)
    {
      InvRun(s', steps);
      HistoryKept(s', steps);
    }
  }

  predicate OneOf(d: Config, a: Config, b: Config) {
    d == a || d == b
  }

  /** Every configuration around is `a` or `b`. */
  predicate Confined(s: State, a: Config, b: Config) {
    && OneOf(s.config, a, b) && OneOf(BootConfig(s.disk), a, b)
    && (s.prior.Some? ==> OneOf(s.prior.value, a, b))
    && (s.watcher.Restoring? ==> OneOf(s.watcher.config, a, b))
    && (forall i :: 0 <= i < |s.starting| ==> OneOf(s.starting[i].config, a, b))
    && (forall k :: 0 <= k < |s.applies| && !s.applies[k].installed ==> OneOf(s.applies[k].job.config, a, b))
  }

  lemma {:induction false} ConfinedStep(s: State, step: Step, a: Config, b: Config)
    requires Confined(s, a, b) && Enabled(s, step) && !step.Put?
    ensures Confined(Do(s, step), a, b)
  {
    match step
    case StartApply(i) => ConfinedStartApply(s, i, a, b);
    case Install(_) =>
    case FinishApply(_, _) =>
    case Look =>
    case Confirm =>
    case Send(_) =>
    case Receive =>
    case Timer =>
    case StartRollback(_) =>
    case Restore =>
    case FinishRollback(_) =>
    case Leave =>
    case ClearPrior =>
    case Save =>
    case Crash =>
  }

  lemma {:induction false} ConfinedStartApply(s: State, i: nat, a: Config, b: Config)
    requires Confined(s, a, b) && i < |s.starting|
    ensures Confined(Do(s, StartApply(i)), a, b)
  {
    assert OneOf(s.starting[i].config, a, b);
  }

  /** They stay so until the next change begins. */
  lemma {:induction false} ConfinedRun(s: State, steps: seq<Step>, a: Config, b: Config)
    requires Inv(s) && Valid(s, steps) && s.pending && Confined(s, a, b)
    ensures var e := Exec(s, steps); e.pending && e.past.change == s.past.change ==> Confined(e, a, b)
    decreases |steps|
  {
    if steps != [] {
      var s1 := Do(s, steps[0]);
      ConfinedStep(s, steps[0], a, b);
      InvStep(s, steps[0]);
      IssuedStep(s, steps[0]);
      if s1.pending { ConfinedRun(s1, steps[1..], a, b); } else { IdleHasNoWatcher(s1, steps[1..]); }
    }
  }

  lemma {:induction false} ConfinedIsSafe(s: State, c: Config)
    requires Inv(s) && !s.pending && Safe(s, c) && (forall d :: UnderWay(s, d) ==> Safe(s, d))
    ensures CrashSafe(s, c)
  {
    var s' := Do(s, Put(c, true));
    InvStep(s, Put(c, true));
    var a, b := s.config, BootConfig(s.disk);
    forall i | 0 <= i < |s'.starting| ensures OneOf(s'.starting[i].config, a, b) {
      if i < |s.starting| { assert UnderWay(s, s.starting[i].config); }
    }
    forall k | 0 <= k < |s'.applies| && !s'.applies[k].installed ensures OneOf(s'.applies[k].job.config, a, b) {
      assert UnderWay(s, s.applies[k].job.config);
    }
    assert Confined(s', a, b);
    forall steps | Valid(s', steps)
      ensures var e := Exec(s', steps); e.pending && e.past.change == s.past.change + 1 ==> Safe(s, Do(e, Crash).config)
    {
      ConfinedRun(s', steps, a, b);
    }
  }

  /** A waiting handler can be the next to install: reading the state frees its way. */
  lemma {:induction false} InstallNext(s: State, i: nat)
    requires i < |s.starting|
    ensures var go := [Look, StartApply(i), Install(|s.applies|)];
      Valid(s, go) && Exec(s, go) == s.(config := s.starting[i].config, starting := Without(s.starting, i),
                                        applies := s.applies + [Apply(s.starting[i], true)], inProcess := true)
  {
    var n := |s.applies|;
    var s1 := Do(s, Look);
    var s2 := Do(s1, StartApply(i));
    assert s2.applies[n] == Apply(s.starting[i], false);
    assert (s.applies + [Apply(s.starting[i], false)])[n := Apply(s.starting[i], true)] == s.applies + [Apply(s.starting[i], true)];
    ExecOne(s2, Install(n));
    ExecCons(s1, StartApply(i), [Install(n)]);
    ExecCons(s, Look, [StartApply(i)] + [Install(n)]);
    assert [Look] + ([StartApply(i)] + [Install(n)]) == [Look, StartApply(i), Install(n)];
  }

  /** Whatever is under way can be made the configuration in place, and nothing else that counts
      for the pending change is touched. */
  lemma {:induction false} InstallNow(s: State, d: Config) returns (steps: seq<Step>)
    requires UnderWay(s, d)
    ensures Valid(s, steps) && NoFailure(steps)
    ensures var e := Exec(s, steps);
      e.config == d && e.prior == s.prior && e.pending == s.pending && e.watcher == s.watcher && e.disk == s.disk && e.past == s.past
  {
    if i :| 0 <= i < |s.starting| && s.starting[i].config == d {
      InstallNext(s, i);
      steps := [Look, StartApply(i), Install(|s.applies|)];
    } else {
      var k :| 0 <= k < |s.applies| && !s.applies[k].installed && s.applies[k].job.config == d;
      ExecOne(s, Install(k));
      steps := [Install(k)];
    }
  }

  /** With an earlier watcher still closing, a crash can boot into anything under way. */
  lemma {:induction false} ReachBoot(s: State, c: Config, d: Config) returns (steps: seq<Step>)
    requires Inv(s) && !s.pending && s.closers > 0 && (d == c || UnderWay(s, d))
    ensures var s' := Do(s, Put(c, true));
      Valid(s', steps) && var e := Exec(s', steps);
      e.pending && e.past.change == s.past.change + 1 && Do(e, Crash).config == d
  {
    var s' := Do(s, Put(c, true));
    var clear := Do(s', ClearPrior);
    UnderWayAfterPut(s, c, d);
    var install := InstallNow(clear, d);
    var e := Exec(clear, install);
    ExecOne(e, Save);
    ExecAppend(clear, install, [Save]);
    ExecCons(s', ClearPrior, install + [Save]);
    steps := [ClearPrior] + (install + [Save]);
  }

  lemma {:induction false} UnderWayAfterPut(s: State, c: Config, d: Config)
    requires !s.pending && s.closers > 0 && (d == c || UnderWay(s, d))
    ensures UnderWay(Do(Do(s, Put(c, true)), ClearPrior), d)
  {
    var r := Do(Do(s, Put(c, true)), ClearPrior);
    assert r.applies == s.applies && r.starting[|s.starting|].config == c;
    if i :| 0 <= i < |s.starting| && s.starting[i].config == d { assert r.starting[i].config == d; }
  }

  // ----- the outcome of a rollback

  predicate Fails(step: Step) {
    (step.FinishApply? && !step.ok) || step == FinishRollback(false) || step == StartRollback(false)
  }

  predicate NoFailure(steps: seq<Step>) {
    forall i :: 0 <= i < |steps| ==> !Fails(steps[i])
  }

  /** What makes the watcher roll back: its timer, or the report of a failed apply. */
  predicate Triggers(s: State, start: Step) {
    && Enabled(s, start)
    && (start.Timer? || (start.Receive? && s.channel.value.message.Failed?))
  }

  /** Whatever happens after `start`, short of a failing apply, the daemon does not go down over
      the rollback, and the watcher ends with the old configuration in place. */
  ghost predicate RollsBack(s: State, start: Step)
    requires Triggers(s, start)
  {
    forall steps :: Valid(Do(s, start), steps) && NoFailure(steps) ==>
      RolledBack(Exec(Do(s, start), steps), s.past.change, s.past.base)
  }

  predicate RolledBack(e: State, change: nat, base: Config) {
    e.past.change == change ==> !Panics(e, StartRollback(true)) && (e.watcher.Leaving? ==> e.config == base)
  }

  /** The old configuration is kept, and nobody is left to clear it. */
  predicate Held(s: State) {
    s.prior.Some? && s.closers == 0
  }

  /** No other configuration than the old one is under way. */
  predicate OnlyBaseUnderWay(s: State) {
    && (forall i :: 0 <= i < |s.starting| ==> s.starting[i].config == s.past.base)
    && (forall k :: 0 <= k < |s.applies| && !s.applies[k].installed ==> s.applies[k].job.config == s.past.base)
  }

  /** The way is free for the watcher's apply, and stays so. */
  predicate WayIsFree(s: State) {
    !s.inProcess && s.starting == []
  }

  predicate CanRollBack(s: State) {
    Held(s) && OnlyBaseUnderWay(s) && (s.config == s.past.base || WayIsFree(s))
  }

  /** What holds from the beginning of such a rollback to its end. */
  predicate Sound(s: State) {
    && Held(s) && OnlyBaseUnderWay(s)
    && (s.config == s.past.base
        || (s.watcher.RollingBack? && WayIsFree(s))
        || (s.watcher.Restoring? && !s.watcher.installed && s.starting == []))
  }

  lemma {:induction false} SoundStep(s: State, step: Step)
    requires Inv(s) && Enabled(s, step) && !Fails(step) && s.pending && Sound(s)
    ensures var r := Do(s, step); r.past.base == s.past.base && r.past.change == s.past.change && (r.pending ==> Sound(r))
  {
    match step
    case StartApply(i) => assert s.starting[i].config == s.past.base;
    case Install(_) =>
    case FinishApply(_, _) =>
    case Look =>
    case Confirm =>
    case Send(_) =>
    case Receive =>
    case Timer =>
    case StartRollback(_) =>
    case Restore =>
    case FinishRollback(_) =>
    case Leave =>
    case ClearPrior =>
    case Save =>
    case Crash =>
  }

  lemma {:induction false} SoundRun(s: State, steps: seq<Step>)
    requires Inv(s) && Valid(s, steps) && NoFailure(steps) && s.pending && Sound(s)
    ensures RolledBack(Exec(s, steps), s.past.change, s.past.base)
    decreases |steps|
  {
    if steps != [] {
      var s1, rest := Do(s, steps[0]), steps[1..];
      SoundStep(s, steps[0]);
      InvStep(s, steps[0]);
      assert NoFailure(rest);
      if s1.pending { SoundRun(s1, rest); } else { IdleHasNoWatcher(s1, rest); }
    }
  }

  /** The rollback succeeds, whatever else happens, exactly when the old configuration is safely
      kept, no other one is under way, and it is in place already or nothing stands in the way.
      Otherwise the daemon goes down, the rollback is refused, or a late handler overwrites it. */
  lemma {:induction false} RollbackExact(s: State, start: Step)
    requires Reachable(s) && Triggers(s, start)
    ensures RollsBack(s, start) <==> CanRollBack(s)
  {
    ReachableInv(s);
    var r := Do(s, start);
    InvStep(s, start);
    if CanRollBack(s) {
      forall steps | Valid(r, steps) && NoFailure(steps) ensures RolledBack(Exec(r, steps), s.past.change, s.past.base) {
        SoundRun(r, steps);
      }
    } else {
      var steps := Spoil(r);
      assert !RolledBack(Exec(r, steps), s.past.change, s.past.base);
    }
  }

  /** The watcher by itself ends its rollback, refused or not. */
  lemma {:induction false} EndRollback(r: State) returns (steps: seq<Step>)
    requires Inv(r) && r.watcher.RollingBack? && r.prior.Some?
    ensures Valid(r, steps) && NoFailure(steps)
    ensures Exec(r, steps) == r.(watcher := Leaving, config := if r.inProcess then r.config else r.past.base)
  {
    var start := StartRollback(true);
    if r.inProcess {
      ExecOne(r, start);
      steps := [start];
    } else {
      var s1 := Do(r, start);
      var s2 := Do(s1, Restore);
      ExecOne(s2, FinishRollback(true));
      ExecCons(s1, Restore, [FinishRollback(true)]);
      ExecCons(r, start, [Restore] + [FinishRollback(true)]);
      steps := [start] + ([Restore] + [FinishRollback(true)]);
    }
  }

  lemma {:induction false} Spoil(r: State) returns (steps: seq<Step>)
    requires Inv(r) && r.watcher.RollingBack? && !CanRollBack(r)
    ensures Valid(r, steps) && NoFailure(steps)
    ensures !RolledBack(Exec(r, steps), r.past.change, r.past.base)
  {
    if r.prior.None? {
      steps := [];
    } else if r.closers > 0 {
      ExecOne(r, ClearPrior);
      steps := [ClearPrior];
    } else if !OnlyBaseUnderWay(r) {
      var d := Other(r);
      var ended := EndRollback(r);
      var e := Exec(r, ended);
      assert e.starting == r.starting && e.applies == r.applies;
      var late := InstallNow(e, d);
      ExecAppend(r, ended, late);
      steps := ended + late;
    } else if r.inProcess {
      ExecOne(r, StartRollback(true));
      steps := [StartRollback(true)];
    } else {
      var s1 := Do(r, StartApply(0));
      ExecOne(s1, StartRollback(true));
      ExecCons(r, StartApply(0), [StartRollback(true)]);
      steps := [StartApply(0)] + [StartRollback(true)];
    }
  }

  lemma {:induction false} Other(s: State) returns (d: Config)
    requires !OnlyBaseUnderWay(s)
    ensures UnderWay(s, d) && d != s.past.base
  {
    if i :| 0 <= i < |s.starting| && s.starting[i].config != s.past.base {
      d := s.starting[i].config;
    } else {
      var k :| 0 <= k < |s.applies| && !s.applies[k].installed && s.applies[k].job.config != s.past.base;
      d := s.applies[k].job.config;
    }
  }

  // ----- which messages the watcher acts on

  /** In every continuation, the watcher of the change that `Put(c, true)` begins acts only on a
      confirmation given while that change was pending, or on the failure of its own handler. */
  ghost predicate ActsOnOwnMessages(s: State, c: Config)
    requires !s.pending
  {
    forall steps :: Valid(Do(s, Put(c, true)), steps) ==> ActedOnOwn(Exec(Do(s, Put(c, true)), steps), s.past.change + 1)
  }

  predicate ActedOnOwn(e: State, n: nat) {
    e.past.change == n && e.past.taken.Some? ==> e.past.taken.value.change == Some(n)
  }

  /** While change `n` is pending, all there is to be heard is about it. */
  predicate OwnOnly(s: State, n: nat) {
    && s.past.change >= n && ActedOnOwn(s, n)
    && (s.past.change == n && s.pending ==>
          && (s.channel.Some? ==> s.channel.value.change == Some(n))
          && (forall i :: 0 <= i < |s.senders| ==> s.senders[i].change == Some(n))
          && (forall i :: 0 <= i < |s.starting| ==> s.starting[i].change == Some(n))
          && (forall k :: 0 <= k < |s.applies| ==> s.applies[k].job.change == Some(n)))
  }

  lemma {:induction false} OwnOnlyApply(s: State, step: Step, n: nat)
    requires Core(s) && OwnOnly(s, n) && Enabled(s, step) && (step.StartApply? || step.FinishApply?)
    ensures OwnOnly(Do(s, step), n)
  {
  }

  lemma {:induction false} OwnOnlyStep(s: State, step: Step, n: nat)
    requires Core(s) && OwnOnly(s, n) && Enabled(s, step)
    ensures OwnOnly(Do(s, step), n)
  {
    match step
    case Put(_, _) =>
    case StartApply(_) => OwnOnlyApply(s, step, n);
    case Install(_) =>
    case FinishApply(_, _) => OwnOnlyApply(s, step, n);
    case Look =>
    case Confirm =>
    case Send(_) =>
    case Receive =>
    case Timer =>
    case StartRollback(_) =>
    case Restore =>
    case FinishRollback(_) =>
    case Leave =>
    case ClearPrior =>
    case Save =>
    case Crash =>
  }

  lemma {:induction false} OwnOnlyRun(s: State, n: nat, steps: seq<Step>)
    requires Core(s) && OwnOnly(s, n) && Valid(s, steps)
    ensures OwnOnly(Exec(s, steps), n)
    decreases |steps|
  {
    if steps != [] {
      OwnOnlyStep(s, steps[0], n);
      CoreStep(s, steps[0]);
      OwnOnlyRun(Do(s, steps[0]), n, steps[1..]);
    }
  }

  /** Nothing sent, about to be sent, or able to fail later. */
  predicate NothingToHear(s: State) {
    s.channel.None? && s.senders == [] && s.starting == [] && s.applies == []
  }

  /** The watcher of a new change hears only what is about it exactly when the buffer is empty, no
      handler is about to send, and no handler of another change is applying or about to: the
      pending check does not see a leftover message, and a failure is reported to whatever change
      is pending. */
  lemma {:induction false} OwnMessagesExact(s: State, c: Config)
    requires Reachable(s) && !s.pending
    ensures ActsOnOwnMessages(s, c) <==> NothingToHear(s)
  {
    ReachableInv(s);
    var s' := Do(s, Put(c, true));
    InvStep(s, Put(c, true));
    if NothingToHear(s) {
      forall steps | Valid(s', steps) ensures ActedOnOwn(Exec(s', steps), s.past.change + 1) {
        OwnOnlyRun(s', s.past.change + 1, steps);
      }
    } else {
      var steps := HearOther(s', s.past.change + 1);
      assert !ActedOnOwn(Exec(s', steps), s.past.change + 1);
    }
  }

  predicate Foreign(change: Option<nat>, n: nat) {
    change != Some(n)
  }

  lemma {:induction false} HearSender(s: State, n: nat, i: nat) returns (steps: seq<Step>)
    requires s.watcher.Waiting? && s.past.change == n && s.channel.None? && i < |s.senders| && Foreign(s.senders[i].change, n)
    ensures Valid(s, steps) && !ActedOnOwn(Exec(s, steps), n)
  {
    var s1 := Do(s, Send(i));
    ExecOne(s1, Receive);
    ExecCons(s, Send(i), [Receive]);
    steps := [Send(i)] + [Receive];
  }

  /** A handler of another change that is applying can fail and be heard. */
  lemma {:induction false} HearApply(s: State, n: nat, k: nat) returns (steps: seq<Step>)
    requires s.watcher.Waiting? && s.pending && s.past.change == n && s.channel.None?
    requires k < |s.applies| && Foreign(s.applies[k].job.change, n)
    ensures Valid(s, steps) && !ActedOnOwn(Exec(s, steps), n)
  {
    var s1 := Do(s, FinishApply(k, false));
    assert s1.senders[|s.senders|] == Token(Failed, s.applies[k].job.change);
    var rest := HearSender(s1, n, |s.senders|);
    ExecCons(s, FinishApply(k, false), rest);
    steps := [FinishApply(k, false)] + rest;
  }

  lemma {:induction false} HearOther(s: State, n: nat) returns (steps: seq<Step>)
    requires s.watcher.Waiting? && s.pending && s.past.change == n
    requires
      || (s.channel.Some? && Foreign(s.channel.value.change, n))
      || (s.channel.None? && |s.senders| > 0 && Foreign(s.senders[0].change, n))
      || (s.channel.None? && |s.starting| > 0 && Foreign(s.starting[0].change, n))
      || (s.channel.None? && |s.applies| > 0 && Foreign(s.applies[0].job.change, n))
    ensures Valid(s, steps) && !ActedOnOwn(Exec(s, steps), n)
  {
    if s.channel.Some? {
      ExecOne(s, Receive);
      steps := [Receive];
    } else if |s.senders| > 0 && Foreign(s.senders[0].change, n) {
      steps := HearSender(s, n, 0);
    } else if |s.applies| > 0 && Foreign(s.applies[0].job.change, n) {
      steps := HearApply(s, n, 0);
    } else {
      var s1 := Do(s, Look);
      var s2 := Do(s1, StartApply(0));
      assert s2.applies[|s.applies|].job == s.starting[0];
      var rest := HearApply(s2, n, |s.applies|);
      ExecCons(s1, StartApply(0), rest);
      ExecCons(s, Look, [StartApply(0)] + rest);
      steps := [Look] + ([StartApply(0)] + rest);
    }
  }

  // ----- when messages come into being

  /** A handler's apply fails in this step: refused at its start, or failed at its end. */
  predicate HandlerFails(s: State, step: Step) {
    (step.StartApply? && s.inProcess) || (step.FinishApply? && !step.ok)
  }

  /** Whose apply that is. */
  function Failing(s: State, step: Step): (job: Job)
    requires Enabled(s, step) && HandlerFails(s, step)
  {
    if step.StartApply? then s.starting[step.i] else s.applies[step.k].job
  }

  /** A message comes into being exactly on a confirmation or a handler's failure, and only while a
      change is pending; it is one, and it is about that change, or of that handler. Only sending
      and a crash take one away, and only sending puts one on the channel. */
  lemma {:induction false} MessagesArise(s: State, step: Step)
    requires Core(s) && Enabled(s, step)
    ensures var r := Do(s, step);
      && (|r.senders| > |s.senders| <==> step.Confirm? || (s.pending && HandlerFails(s, step)))
      && (step.Confirm? ==> s.pending && r.senders == s.senders + [Token(Confirmed, Some(s.past.change))])
      && (s.pending && HandlerFails(s, step) ==> r.senders == s.senders + [Token(Failed, Failing(s, step).change)])
      && (!s.pending && HandlerFails(s, step) ==> r.senders == s.senders)
      && (step.Send? ==> r.channel == Some(s.senders[step.i]) && |r.senders| == |s.senders| - 1)
      && (r.channel.Some? && r.channel != s.channel ==> step.Send?)
  {
    match step
    case Put(_, _) =>
    case StartApply(_) =>
    case Install(_) =>
    case FinishApply(_, _) =>
    case Look =>
    case Confirm =>
    case Send(_) =>
    case Receive =>
    case Timer =>
    case StartRollback(_) =>
    case Restore =>
    case FinishRollback(_) =>
    case Leave =>
    case ClearPrior =>
    case Save =>
    case Crash =>
  }

  predicate Silent(s: State) {
    s.channel == None && s.senders == []
  }

  /** While no timed change begins, silence lasts, whatever fails. */
  lemma {:induction false} SilenceLasts(s: State, steps: seq<Step>)
    requires Inv(s) && Valid(s, steps) && !s.pending && Silent(s)
    ensures var e := Exec(s, steps); e.past.change == s.past.change ==> !e.pending && Silent(e)
    decreases |steps|
  {
    if steps != [] {
      var s1 := Do(s, steps[0]);
      InvStep(s, steps[0]);
      IssuedStep(s, steps[0]);
      MessagesArise(s, steps[0]);
      if s1.past.change == s.past.change {
        assert !s1.pending && Silent(s1);
        SilenceLasts(s1, steps[1..]);
      } else {
        HistoryKept(s1, steps[1..]);
      }
    }
  }

  /** Before the first timed change there is never a message. */
  lemma {:induction false} NoMessageBeforeFirstChange(s: State)
    requires Reachable(s) && s.past.change == 0
    ensures Silent(s) && !s.pending
  {
    var c, steps :| Valid(Initial(c), steps) && Exec(Initial(c), steps) == s;
    InvInitial(c);
    SilenceLasts(Initial(c), steps);
  }

  /** A handler that ends, in any way, frees the flag and is gone; a refused one leaves it. */
  lemma {:induction false} HandlersEnd(s: State, step: Step)
    requires Enabled(s, step) && (step.StartApply? || step.FinishApply?)
    ensures var r := Do(s, step);
      && (step.FinishApply? ==> !r.inProcess && |r.applies| == |s.applies| - 1 && r.starting == s.starting)
      && (step.StartApply? ==> r.inProcess && |r.starting| == |s.starting| - 1)
      && (step.StartApply? ==> r.applies == if s.inProcess then s.applies else s.applies + [Apply(s.starting[step.i], false)])
      && r.config == s.config && r.prior == s.prior && r.watcher == s.watcher && r.disk == s.disk
  {
  }

  /** The daemon goes down in this step. */
  predicate GoesDown(s: State, step: Step) {
    step == Crash || Panics(s, step)
  }

  /** Which steps touch what: the shared fields, and the waiting and running handlers. */
  lemma {:induction false} WhoTouchesWhat(s: State, step: Step)
    requires Enabled(s, step) && !GoesDown(s, step)
    ensures var r := Do(s, step);
      && (r.config != s.config ==> step.Install? || step.Restore?)
      && (r.prior != s.prior ==> (step.Put? && step.timed) || step.ClearPrior?)
      && (r.pending != s.pending ==> (step.Put? && step.timed) || step.Leave?)
      && (r.disk != s.disk ==> step.Save?)
      && (r.closers != s.closers ==> step.Leave? || step.ClearPrior?)
      && (r.starting != s.starting ==> step.Put? || step.StartApply?)
      && (r.applies != s.applies ==> step.StartApply? || step.Install? || step.FinishApply?)
      && (r.channel != s.channel ==> step.Send? || step.Receive?)
      && (r.inProcess && !s.inProcess ==> step.StartApply? || step == StartRollback(true))
      && (r.watcher != s.watcher ==> (step.Put? && step.timed) || step.Receive? || step.Timer? || step.StartRollback?
                                     || step.Restore? || step.FinishRollback? || step.Leave?)
  {
  }

  /** What a PUT begins, timed or not. */
  lemma {:induction false} PutBegins(s: State, c: Config, timed: bool)
    requires !s.pending
    ensures var r := Do(s, Put(c, timed));
      && r.starting == s.starting + [Job(c, if timed then Some(s.past.change + 1) else None)]
      && (timed ==> r.pending && r.prior == Some(s.config) && r.watcher == Waiting && r.past.base == s.config && r.past.taken == None)
      && (!timed ==> r == s.(starting := r.starting))
  {
  }

  /** A rollback that fails ends the watcher with everything else as it was. */
  lemma {:induction false} FailedRollbackEnds(s: State, step: Step)
    requires Enabled(s, step) && (step == StartRollback(false) || step == FinishRollback(false))
    ensures var r := Do(s, step);
      && r.watcher == Leaving && r.pending == s.pending && r.config == s.config && r.prior == s.prior && r.disk == s.disk
      && r.starting == s.starting && r.applies == s.applies && (step.FinishRollback? ==> !r.inProcess)
  {
  }

  // ----- a pending state leads out

  predicate WatcherStep(step: Step) {
    step == Timer || step == StartRollback(true) || step == Restore || step == FinishRollback(true) || step == Leave
  }

  /** The steps are the watcher's, and none of them takes the daemon down. */
  predicate UpByWatcher(s: State, steps: seq<Step>)
    decreases |steps|
  {
    steps == [] ||
    (Enabled(s, steps[0]) && WatcherStep(steps[0]) && !Panics(s, steps[0]) && UpByWatcher(Do(s, steps[0]), steps[1..]))
  }

  lemma {:induction false} UpIsValid(s: State, steps: seq<Step>)
    requires UpByWatcher(s, steps)
    ensures Valid(s, steps)
    decreases |steps|
  {
    if steps != [] { UpIsValid(Do(s, steps[0]), steps[1..]); }
  }

  /** The watcher is past its rollback, or in it, or still has something to roll back to. */
  predicate CanEnd(s: State) {
    s.watcher.Leaving? || s.watcher.Restoring? || s.prior.Some?
  }

  /** A pending change leads out of itself, by steps of its watcher alone and with the daemon
      staying up, exactly when it can still be rolled back or is about to end. */
  lemma {:induction false} PendingLeadsOut(s: State)
    requires Reachable(s) && s.pending
    ensures (exists steps :: UpByWatcher(s, steps) && Valid(s, steps) && !Exec(s, steps).pending) <==> CanEnd(s)
  {
    ReachableInv(s);
    if CanEnd(s) {
      var steps := LeadsOut(s);
      UpIsValid(s, steps);
    }
    forall steps | UpByWatcher(s, steps) && Valid(s, steps) && !Exec(s, steps).pending ensures CanEnd(s) {
      if !CanEnd(s) { StaysStuck(s, steps); }
    }
  }

  lemma {:induction false} LeadsOut(s: State) returns (steps: seq<Step>)
    requires Inv(s) && s.pending && CanEnd(s)
    ensures UpByWatcher(s, steps) && Valid(s, steps) && !Exec(s, steps).pending
    decreases match s.watcher case Waiting => 5 case RollingBack => 4
      case Restoring(_, installed) => (if installed then 2 else 3) case Leaving => 1 case NoWatcher => 0
  {
    var step :=
      if s.watcher.Waiting? then Timer
      else if s.watcher.Leaving? then Leave
      else if s.watcher.RollingBack? then StartRollback(true)
      else if !s.watcher.installed then Restore
      else FinishRollback(true);
    InvStep(s, step);
    var rest := [];
    if Do(s, step).pending { rest := LeadsOut(Do(s, step)); }
    steps := [step] + rest;
    assert steps[1..] == rest;
  }

  lemma {:induction false} StaysStuck(s: State, steps: seq<Step>)
    requires Inv(s) && s.pending && !CanEnd(s) && UpByWatcher(s, steps)
    ensures Valid(s, steps) && Exec(s, steps).pending
    decreases |steps|
  {
    if steps != [] {
      InvStep(s, steps[0]);
      StaysStuck(Do(s, steps[0]), steps[1..]);
    }
  }

  // ----- concrete runs in which the conditions above fail

  lemma {:induction false} ReachStep(s: State, step: Step)
    requires Reachable(s) && Enabled(s, step)
    ensures Reachable(Do(s, step))
  {
    var c, steps :| Valid(Initial(c), steps) && Exec(Initial(c), steps) == s;
    ExecOne(s, step);
    ExecAppend(Initial(c), steps, [step]);
  }

  lemma {:induction false} ReachInitial(c: Config)
    ensures Reachable(Initial(c))
  {
    assert Valid(Initial(c), []) && Exec(Initial(c), []) == Initial(c);
  }

  /** Change 1, from `a` to `b`, applied and with its handler done. */
  lemma {:induction false} FirstChange(a: Config, b: Config) returns (s: State)
    ensures Reachable(s)
    ensures s == State(b, Some(a), true, None, [], [], [], false, Waiting, 0, Disk(b, Some(a)),
                       History(1, a, a, true, None))
  {
    ReachInitial(a);
    var s0 := Initial(a);
    ReachStep(s0, Put(b, true));
    var s1 := Do(s0, Put(b, true));
    ReachStep(s1, StartApply(0));
    var s2 := Do(s1, StartApply(0));
    ReachStep(s2, Install(0));
    var s3 := Do(s2, Install(0));
    ReachStep(s3, FinishApply(0, true));
    var s4 := Do(s3, FinishApply(0, true));
    ReachStep(s4, Save);
    s := Do(s4, Save);
  }

  /** Change 1 confirmed twice: the first message ends it, the second stays in the buffer. */
  lemma {:induction false} ConfirmedTwice(a: Config, b: Config) returns (s: State)
    ensures Reachable(s)
    ensures s == State(b, Some(a), false, Some(Token(Confirmed, Some(1))), [], [], [], false, NoWatcher, 1, Disk(b, Some(a)),
                       History(1, a, a, true, Some(Token(Confirmed, Some(1)))))
  {
    var s0 := FirstChange(a, b);
    ReachStep(s0, Confirm);
    var s1 := Do(s0, Confirm);
    ReachStep(s1, Confirm);
    var s2 := Do(s1, Confirm);
    ReachStep(s2, Send(0));
    var s3 := Do(s2, Send(0));
    ReachStep(s3, Receive);
    var s4 := Do(s3, Receive);
    ReachStep(s4, Send(0));
    var s5 := Do(s4, Send(0));
    ReachStep(s5, Leave);
    s := Do(s5, Leave);
  }

  /** Change 2, from `b` to `c`, is kept on the leftover confirmation of change 1. */
  lemma {:induction false} StaleConfirmation(a: Config, b: Config, c: Config) returns (s: State)
    ensures Reachable(s) && s.past.change == 2 && s.past.base == b && s.watcher == Leaving
    ensures s.past.taken == Some(Token(Confirmed, Some(1)))
  {
    var s0 := ConfirmedTwice(a, b);
    ReachStep(s0, ClearPrior);
    var s1 := Do(s0, ClearPrior);
    ReachStep(s1, Put(c, true));
    var s2 := Do(s1, Put(c, true));
    ReachStep(s2, Receive);
    s := Do(s2, Receive);
  }

  /** An untimed change to `b` is waiting to apply when the timed change 1, to `c`, begins and
      applies first. `b` is refused, and its failure makes the watcher of change 1 roll back,
      although the apply of `c` is still running and has not failed. */
  lemma {:induction false} ForeignFailure(a: Config, b: Config, c: Config) returns (s: State)
    ensures Reachable(s) && s.past.change == 1 && s.watcher == RollingBack && s.past.taken == Some(Token(Failed, None))
    ensures s.applies == [Apply(Job(c, Some(1)), false)]
  {
    ReachInitial(a);
    var s0 := Initial(a);
    ReachStep(s0, Put(b, false));
    var s1 := Do(s0, Put(b, false));
    ReachStep(s1, Put(c, true));
    var s2 := Do(s1, Put(c, true));
    ReachStep(s2, StartApply(1));
    var s3 := Do(s2, StartApply(1));
    ReachStep(s3, StartApply(0));
    var s4 := Do(s3, StartApply(0));
    assert s4.senders == [Token(Failed, None)];
    ReachStep(s4, Send(0));
    var s5 := Do(s4, Send(0));
    ReachStep(s5, Receive);
    s := Do(s5, Receive);
  }

  /** Change 2 begins between the two assignments that end the watcher of change 1, which then
      takes its prior configuration away. */
  lemma {:induction false} LosesPrior(a: Config, b: Config, c: Config) returns (s: State)
    ensures Reachable(s)
    ensures s == State(b, None, true, Some(Token(Confirmed, Some(1))), [], [Job(c, Some(2))], [], false, Waiting, 0, Disk(b, Some(a)),
                       History(2, b, a, false, None))
  {
    var s0 := ConfirmedTwice(a, b);
    ReachStep(s0, Put(c, true));
    var s1 := Do(s0, Put(c, true));
    ReachStep(s1, ClearPrior);
    s := Do(s1, ClearPrior);
  }

  /** So when change 2 has to be rolled back, the daemon goes down instead. */
  lemma {:induction false} RollbackPanics(a: Config, b: Config, c: Config) returns (s: State)
    ensures Reachable(s) && s.pending && s.past.change == 2 && !CanEnd(s) && Panics(s, StartRollback(true))
  {
    var s0 := LosesPrior(a, b, c);
    ReachStep(s0, Timer);
    s := Do(s0, Timer);
  }

  /** And a crash after it is applied boots into the unconfirmed configuration. */
  lemma {:induction false} ClosingRace(a: Config, b: Config, c: Config) returns (s: State)
    ensures Reachable(s) && s.pending && s.past.change == 2 && s.past.base == b && s.past.baseDisk == a
    ensures s.watcher == Waiting && Do(s, Crash).config == c
  {
    var s0 := LosesPrior(a, b, c);
    ReachStep(s0, StartApply(0));
    var s1 := Do(s0, StartApply(0));
    ReachStep(s1, Install(0));
    var s2 := Do(s1, Install(0));
    ReachStep(s2, Save);
    s := Do(s2, Save);
  }

  /** The timer of change 1 expires during its apply: the rollback is refused and the
      configuration nobody confirmed is the one saved, with nothing left to restore. */
  lemma {:induction false} TimerDuringApply(a: Config, b: Config) returns (s: State)
    ensures Reachable(s) && !s.pending && s.past.taken == None && s.disk == Disk(b, None)
  {
    ReachInitial(a);
    var s0 := Initial(a);
    ReachStep(s0, Put(b, true));
    var s1 := Do(s0, Put(b, true));
    ReachStep(s1, StartApply(0));
    var s2 := Do(s1, StartApply(0));
    ReachStep(s2, Install(0));
    var s3 := Do(s2, Install(0));
    ReachStep(s3, Timer);
    var s4 := Do(s3, Timer);
    ReachStep(s4, StartRollback(true));
    var s5 := Do(s4, StartRollback(true));
    ReachStep(s5, Leave);
    var s6 := Do(s5, Leave);
    ReachStep(s6, ClearPrior);
    var s7 := Do(s6, ClearPrior);
    ReachStep(s7, Save);
    s := Do(s7, Save);
  }
}
