/**
 Which applications to install (internal/applications/load.go:103-204): what is installed
 already, or else what the seed asks for, completed by a primary application and by
 dependencies, sorted, and refused if there is more than one primary application.
 */
module InstallClosure {
  import opened Wrappers
  import opened Versions
  import opened AppVersions

  const SUPPORTED: seq<string> :=
    ["debug", "gpu-support", "incus", "incus-lts-7.0", "incus-ceph", "incus-linstor", "migration-manager", "openfga", "operations-center"]

  predicate Known(name: string) {
    name in SUPPORTED
  }

  predicate IsPrimary(name: string) {
    name == "incus" || name == "incus-lts-7.0" || name == "migration-manager" || name == "operations-center"
  }

  /** What an application needs: of each entry, one of the alternatives. */
  function Dependencies(name: string): (deps: seq<seq<string>>) {
    if name == "incus-ceph" || name == "incus-linstor" then [["incus", "incus-lts-7.0"]] else []
  }

  datatype Result = ToInstall(names: seq<string>) | SeedError | UnknownApplication(name: string) | ManyPrimaries

  datatype Seed = Applications(names: seq<string>) | NoSeed | BadSeed

  // ----- the specification, on sets

  predicate Provides(names: set<string>, alternatives: seq<string>) {
    exists k :: 0 <= k < |alternatives| && alternatives[k] in names
  }

  predicate Satisfied(names: set<string>, name: string) {
    forall d :: 0 <= d < |Dependencies(name)| ==> Provides(names, Dependencies(name)[d])
  }

  predicate HasPrimary(names: set<string>) {
    exists p :: p in names && IsPrimary(p)
  }

  /** "incus" is missing as the default primary, or as a dependency. */
  predicate NeedsIncus(names: set<string>) {
    !HasPrimary(names) || exists n :: n in names && !Satisfied(names, n)
  }

  function Closure(names: set<string>): (r: set<string>) {
    if NeedsIncus(names) then names + {"incus"} else names
  }

  predicate TwoPrimaries(names: set<string>) {
    exists p, q :: p in names && q in names && p != q && IsPrimary(p) && IsPrimary(q)
  }

  predicate AllKnown(names: set<string>) {
    forall n :: n in names ==> Known(n)
  }

  lemma {:induction false} IncusSatisfies(names: set<string>, n: string)
    requires "incus" in names
    ensures Satisfied(names, n)
  {
    forall d | 0 <= d < |Dependencies(n)| ensures Provides(names, Dependencies(n)[d]) {
      assert Dependencies(n)[d][0] == "incus";
    }
  }

  /** One pass is enough: the closure satisfies every dependency and has a primary application. */
  lemma {:induction false} ClosureIsClosed(names: set<string>)
    ensures HasPrimary(Closure(names))
    ensures forall n :: n in Closure(names) ==> Satisfied(Closure(names), n)
  {
    var c := Closure(names);
    if NeedsIncus(names) {
      assert "incus" in c && IsPrimary("incus");
      forall n | n in c ensures Satisfied(c, n) { IncusSatisfies(c, n); }
    }
  }

  /** When the installation is refused, said of the requests alone: two primary applications, or
      an incus service beside a primary application that is not incus. */
  lemma {:induction false} RefusedExactly(names: set<string>)
    ensures TwoPrimaries(Closure(names)) <==>
      || TwoPrimaries(names)
      || (HasPrimary(names) && exists n :: n in names && !Satisfied(names, n))
  {
    var c := Closure(names);
    if HasPrimary(names) && exists n :: n in names && !Satisfied(names, n) {
      var p :| p in names && IsPrimary(p);
      var n :| n in names && !Satisfied(names, n);
      if "incus" in names { IncusSatisfies(names, n); }
      assert IsPrimary("incus") && p in c && "incus" in c && p != "incus";
    }
    if TwoPrimaries(names) {
      var p, q :| p in names && q in names && p != q && IsPrimary(p) && IsPrimary(q);
      assert p in c && q in c;
    }
  }

  // ----- the computation

  lemma {:induction false} ElementsSnoc(names: seq<string>, n: string)
    ensures Elements(names + [n]) == Elements(names) + {n}
  {
    var r := names + [n];
    assert r[|names|] == n;
    forall x | x in Elements(names) ensures x in Elements(r) {
      var i :| 0 <= i < |names| && names[i] == x;
      assert r[i] == x;
    }
  }

  /** The default primary application is added if none is asked for. */
  method AddPrimary(requested: seq<string>) returns (toInstall: seq<string>)
    ensures HasPrimary(Elements(requested)) ==> toInstall == requested
    ensures !HasPrimary(Elements(requested)) ==> toInstall == requested + ["incus"]
  {
    var found := false;
    for i := 0 to |requested|
      invariant !found
      invariant forall j :: 0 <= j < i ==> !IsPrimary(requested[j])
    {
      if Known(requested[i]) && IsPrimary(requested[i]) {
        assert requested[i] in Elements(requested);
        found := true;
        break;
      }
    }
    toInstall := if found then requested else requested + ["incus"];
  }

  /** The dependencies of one application: the first alternative is added if none is there. */
  method AddDependencies(names: seq<string>, name: string) returns (r: seq<string>)
    ensures r == if Satisfied(Elements(names), name) then names else names + ["incus"]
  {
    r := names;
    var deps := Dependencies(name);
    for d := 0 to |deps|
      invariant |deps| <= 1
      invariant r == if forall e :: 0 <= e < d ==> Provides(Elements(names), deps[e]) then names else names + ["incus"]
    {
      var found := FindAny(r, deps[d]);
      if !found { r := r + [deps[d][0]]; }
    }
  }

  method FindAny(names: seq<string>, alternatives: seq<string>) returns (found: bool)
    ensures found <==> Provides(Elements(names), alternatives)
  {
    for k := 0 to |alternatives|
      invariant forall j :: 0 <= j < k ==> alternatives[j] !in Elements(names)
    {
      assert alternatives[k] in names <==> alternatives[k] in Elements(names);
      if alternatives[k] in names { return true; }
    }
    return false;
  }

  predicate Unsatisfied(names: seq<string>, upto: nat) {
    exists j :: 0 <= j < |names| && j < upto && !Satisfied(Elements(names), names[j])
  }

  lemma {:induction false} PassStep(names: seq<string>, i: nat)
    requires i < |names|
    ensures Unsatisfied(names, i + 1) <==> Unsatisfied(names, i) || !Satisfied(Elements(names), names[i])
    ensures Satisfied(Elements(names + ["incus"]), names[i])
  {
    ElementsSnoc(names, "incus");
    IncusSatisfies(Elements(names + ["incus"]), names[i]);
  }

  /** One pass over the list as it was; what it adds is not visited. */
  method AddAllDependencies(names: seq<string>) returns (unknown: Option<string>, r: seq<string>)
    ensures unknown.Some? ==> unknown.value in names && !Known(unknown.value)
    ensures unknown.None? ==> forall j :: 0 <= j < |names| ==> Known(names[j])
    ensures unknown.None? ==> r == if Unsatisfied(names, |names|) then names + ["incus"] else names
  {
    r := names;
    for i := 0 to |names|
      invariant forall j :: 0 <= j < i ==> Known(names[j])
      invariant r == if Unsatisfied(names, i) then names + ["incus"] else names
    {
      if !Known(names[i]) { return Some(names[i]), r; }
      PassStep(names, i);
      r := AddDependencies(r, names[i]);
    }
    return None, r;
  }

  method CountPrimaries(names: seq<string>) returns (n: nat)
    requires Ascending(names)
    ensures n == 0 <==> !HasPrimary(Elements(names))
    ensures n > 1 <==> TwoPrimaries(Elements(names))
  {
    n := 0;
    ghost var last := 0;
    for i := 0 to |names|
      invariant n == 0 ==> forall j :: 0 <= j < i ==> !IsPrimary(names[j])
      invariant n >= 1 ==> 0 <= last < i && IsPrimary(names[last])
      invariant n == 1 ==> forall j :: 0 <= j < i && IsPrimary(names[j]) ==> j == last
      invariant n > 1 ==> TwoPrimaries(Elements(names))
    {
      if IsPrimary(names[i]) {
        if n >= 1 {
          LessIrreflexive(names[i]);
          assert names[last] in Elements(names) && names[i] in Elements(names) && names[last] != names[i];
        }
        n := n + 1;
        last := i;
      }
    }
    assert n >= 1 ==> names[last] in Elements(names);
  }

  /** The names both stages add make up the closure. */
  lemma {:induction false} StagesAreClosure(requested: seq<string>, first: seq<string>, second: seq<string>)
    requires first == if HasPrimary(Elements(requested)) then requested else requested + ["incus"]
    requires second == if Unsatisfied(first, |first|) then first + ["incus"] else first
    ensures Elements(second) == Closure(Elements(requested))
  {
    var names := Elements(requested);
    ElementsSnoc(requested, "incus");
    ElementsSnoc(first, "incus");
    if !HasPrimary(names) {
      forall j | 0 <= j < |first| ensures Satisfied(Elements(first), first[j]) { IncusSatisfies(Elements(first), first[j]); }
    } else {
      assert Unsatisfied(first, |first|) <==> exists n :: n in names && !Satisfied(names, n);
    }
  }

  /** GetInstallApplications. */
  method GetInstallApplications(installed: seq<string>, seed: Seed) returns (r: Result)
    ensures r.SeedError? <==> installed == [] && seed.BadSeed?
    ensures !r.SeedError? ==>
      var names := Elements(if installed == [] && seed.Applications? then seed.names else installed);
      && (r.ToInstall? <==> AllKnown(names) && !TwoPrimaries(Closure(names)))
      && (r.UnknownApplication? <==> !AllKnown(names))
      && (r.UnknownApplication? ==> r.name in names && !Known(r.name))
      && (r.ToInstall? ==> Ascending(r.names) && Elements(r.names) == Closure(names))
  {
    var requested := installed;
    if installed == [] {
      if seed.BadSeed? { return SeedError; }
      if seed.Applications? { requested := seed.names; }
    }
    ghost var names := Elements(requested);
    var first := AddPrimary(requested);
    ElementsSnoc(requested, "incus");
    assert Known("incus") by { assert SUPPORTED[2] == "incus"; }
    var unknown, second := AddAllDependencies(first);
    if unknown.Some? {
      assert unknown.value in Elements(first);
      return UnknownApplication(unknown.value);
    }
    assert AllKnown(names) by {
      forall n | n in names ensures Known(n) {
        var i :| 0 <= i < |requested| && requested[i] == n;
        assert first[i] == n;
      }
    }
    StagesAreClosure(requested, first, second);
    SortCompactFacts(second);
    var sorted := SortCompact(second);
    var count := CountPrimaries(sorted);
    if count > 1 { return ManyPrimaries; }
    return ToInstall(sorted);
  }

  /** What a caller gets from success: everything asked for, nothing more than "incus", every
      dependency met, and exactly one primary application. */
  lemma {:induction false} SuccessMeans(names: set<string>, list: seq<string>)
    requires !TwoPrimaries(Closure(names)) && Ascending(list) && Elements(list) == Closure(names)
    ensures forall n :: n in names ==> n in list
    ensures forall n :: n in list ==> (n in names || n == "incus") && Satisfied(Elements(list), n)
    ensures exists p :: p in list && IsPrimary(p) && forall q :: q in list && IsPrimary(q) ==> q == p
  {
    ClosureIsClosed(names);
    assert forall n :: n in list <==> n in Elements(list);
    var p :| p in Closure(names) && IsPrimary(p);
    assert p in list && forall q :: q in list && IsPrimary(q) ==> q == p;
  }

  // ----- the applications by name

  /** The known ones are these nine. */
  lemma {:induction false} KnownNames(n: string)
    ensures Known(n) <==> n in {"debug", "gpu-support", "incus", "incus-lts-7.0", "incus-ceph", "incus-linstor",
                                "migration-manager", "openfga", "operations-center"}
  {
  }

  /** Each primary application stands alone. */
  lemma {:induction false} PrimaryAlone(p: string)
    requires p in {"incus", "incus-lts-7.0", "migration-manager", "operations-center"}
    ensures Closure({p}) == {p} && !TwoPrimaries(Closure({p}))
  {
    assert IsPrimary(p) && Satisfied({p}, p);
  }

  /** Everything else gets incus, and works with it. */
  lemma {:induction false} OtherGetsIncus(n: string)
    requires n in {"debug", "gpu-support", "incus-ceph", "incus-linstor", "openfga"}
    ensures Closure({n}) == {n, "incus"} && !TwoPrimaries(Closure({n}))
  {
    assert !IsPrimary(n);
    assert !HasPrimary({n});
    assert forall p :: p in {n, "incus"} && IsPrimary(p) ==> p == "incus";
  }

  /** An incus service beside either incus is complete; beside another primary application it brings
      in a second one and is refused. */
  lemma {:induction false} ServiceBeside(n: string, p: string)
    requires n == "incus-ceph" || n == "incus-linstor"
    ensures p == "incus" || p == "incus-lts-7.0" ==> Closure({n, p}) == {n, p} && !TwoPrimaries(Closure({n, p}))
    ensures p == "migration-manager" || p == "operations-center" ==> TwoPrimaries(Closure({n, p}))
  {
    assert !IsPrimary(n);
    assert Dependencies(n) == [["incus", "incus-lts-7.0"]];
    if p == "incus" || p == "incus-lts-7.0" {
      var names := {n, p};
      assert IsPrimary(p) && HasPrimary(names);
      assert Dependencies(n)[0][if p == "incus" then 0 else 1] == p;
      assert Provides(names, Dependencies(n)[0]);
      assert Satisfied(names, n) && Satisfied(names, p);
    }
    if p == "migration-manager" || p == "operations-center" {
      var names := {n, p};
      assert IsPrimary(p) && IsPrimary("incus");
      assert !Provides(names, Dependencies(n)[0]);
      assert !Satisfied(names, n) && n in names;
      assert p in Closure(names) && "incus" in Closure(names);
    }
  }

  /** Any two different primary applications are refused. */
  lemma {:induction false} TwoRefused(p: string, q: string)
    requires p != q && p in {"incus", "incus-lts-7.0", "migration-manager", "operations-center"}
    requires q in {"incus", "incus-lts-7.0", "migration-manager", "operations-center"}
    ensures TwoPrimaries(Closure({p, q}))
  {
    assert IsPrimary(p) && IsPrimary(q) && p in Closure({p, q}) && q in Closure({p, q});
  }
}
