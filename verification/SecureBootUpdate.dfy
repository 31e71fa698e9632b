/**
 Secure Boot certificate updates (internal/secureboot/efi_vars.go): one appended certificate
 per boot, to KEK first, then db, then dbx.

 The EFI variables are sets of certificate fingerprints. The tool that appends to them
 (appendEFIVarUpdate) is a parameter: it may succeed, refuse, or change the variable and
 then fail. Go iterates maps in any order, so updates come as a sequence in any order.
 */
module SecureBootUpdate {
  import opened Wrappers

  type Fingerprint = string

  datatype Variable = KEK | DB | DBX

  /** One signed update of the archive; `fingerprint` is None if the file name is not hex. */
  datatype Update = Update(name: string, fingerprint: Option<Fingerprint>)

  datatype Outcome = Applied | Refused | AppliedThenFailed

  /** Which variables can be read, and what becomes of an append. */
  datatype Tool = Tool(readable: Variable -> bool, append: (Variable, Update) -> Outcome)

  /** The result pair of the source: an error, or whether a reboot is needed. */
  datatype Result = Ok(needsReboot: bool) | Err

  /** One call of the tool. */
  datatype Attempt = Attempt(variable: Variable, update: Update, outcome: Outcome)

  /** What one pass over the updates of a variable leaves behind. */
  datatype Pass = Pass(certs: set<Fingerprint>, result: Result, attempts: seq<Attempt>)

  /** The pass as a function of the certificates found at its start (`existing`) and those
      present by now (`certs`). */
  function Applying(v: Variable, existing: set<Fingerprint>, certs: set<Fingerprint>, updates: seq<Update>, tool: Tool): (p: Pass)
    decreases |updates|
  {
    if updates == [] then Pass(certs, Ok(false), [])
    else
      var u, rest := updates[0], updates[1..];
      if u.fingerprint.None? then Pass(certs, Err, [])
      else if u.fingerprint.value in existing then Applying(v, existing, certs, rest, tool)
      else
        var attempt := Attempt(v, u, tool.append(v, u));
        var certs' := if attempt.outcome.Refused? then certs else certs + {u.fingerprint.value};
        if attempt.outcome.Applied? then Pass(certs', Ok(true), [attempt])
        else if v != KEK then Pass(certs', Err, [attempt])
        else After([attempt], Applying(v, existing, certs', rest, tool))
  }

  /** The whole pass; a variable that cannot be read is an error. */
  function PassOver(v: Variable, certs: set<Fingerprint>, updates: seq<Update>, tool: Tool): (p: Pass) {
    if tool.readable(v) then Applying(v, certs, certs, updates, tool) else Pass(certs, Err, [])
  }

  function After(before: seq<Attempt>, p: Pass): (r: Pass) {
    p.(attempts := before + p.attempts)
  }

  /** The machine: its EFI variables. */
  class Machine {
    var kek: set<Fingerprint>
    var db: set<Fingerprint>
    var dbx: set<Fingerprint>

    constructor (kek: set<Fingerprint>, db: set<Fingerprint>, dbx: set<Fingerprint>)
      ensures this.kek == kek && this.db == db && this.dbx == dbx
    {
      this.kek, this.db, this.dbx := kek, db, dbx;
    }

    ghost function Certs(): (c: Certificates)
      reads this
    {
      Certificates(kek, db, dbx)
    }

    /** The loop over one variable's updates, changing the variable as the tool does. */
    method ApplySecureBootUpdates(v: Variable, updates: seq<Update>, tool: Tool)
      returns (result: Result, attempts: seq<Attempt>)
      modifies this
      ensures var p := PassOver(v, old(Certs()).Of(v), updates, tool);
        result == p.result && attempts == p.attempts && Certs() == old(Certs()).With(v, p.certs)
    {
      if !tool.readable(v) { return Err, []; }
      var existing := match v case KEK => kek case DB => db case DBX => dbx;
      var certs := existing;
      attempts := [];
      var i := 0;
      ghost var all := Applying(v, existing, existing, updates, tool);
      assert updates[0..] == updates;
      result := Ok(false);
      while i < |updates| && result == Ok(false)
        invariant 0 <= i <= |updates|
        invariant result == Ok(false) ==> all == After(attempts, Applying(v, existing, certs, updates[i..], tool))
        invariant result != Ok(false) ==> all == Pass(certs, result, attempts)
        decreases |updates| - i, if result == Ok(false) then 1 else 0
      {
        var u := updates[i];
        assert updates[i..][1..] == updates[i + 1..];
        i := i + 1;
        if u.fingerprint.None? {
          result := Err;
        } else if u.fingerprint.value !in existing {
          var outcome := tool.append(v, u);
          ghost var sofar := attempts;
          attempts := attempts + [Attempt(v, u, outcome)];
          if outcome != Refused { certs := certs + {u.fingerprint.value}; }
          if outcome == Applied {
            result := Ok(true);
          } else if v != KEK {
            result := Err;
          }
        }
      }
      match v
      case KEK => kek := certs;
      case DB => db := certs;
      case DBX => dbx := certs;
    }

    /** KEK, then db, then dbx, stopping at the first error or needed reboot. */
    method UpdateSecureBootCerts(archive: Archive, tool: Tool) returns (result: Result, attempts: seq<Attempt>)
      modifies this
      ensures var c := Updating(old(Certs()), archive, tool);
        result == c.result && attempts == c.attempts && Certs() == c.certs
    {
      result, attempts := ApplySecureBootUpdates(KEK, archive.kek, tool);
      if result != Ok(false) { return; }
      var more;
      result, more := ApplySecureBootUpdates(DB, archive.db, tool);
      attempts := attempts + more;
      if result != Ok(false) { return; }
      result, more := ApplySecureBootUpdates(DBX, archive.dbx, tool);
      attempts := attempts + more;
    }
  }

  datatype Certificates = Certificates(kek: set<Fingerprint>, db: set<Fingerprint>, dbx: set<Fingerprint>) {
    function Of(v: Variable): (s: set<Fingerprint>) {
      match v case KEK => kek case DB => db case DBX => dbx
    }

    function With(v: Variable, s: set<Fingerprint>): (c: Certificates)
      ensures c.Of(v) == s && forall w :: w != v ==> c.Of(w) == Of(w)
    {
      match v case KEK => this.(kek := s) case DB => this.(db := s) case DBX => this.(dbx := s)
    }
  }

  /** The updates of one archive, in the order the maps happen to be iterated. */
  datatype Archive = Archive(kek: seq<Update>, db: seq<Update>, dbx: seq<Update>) {
    function Of(v: Variable): (s: seq<Update>) {
      match v case KEK => kek case DB => db case DBX => dbx
    }
  }

  datatype Call = Call(certs: Certificates, result: Result, attempts: seq<Attempt>)

  function OnePass(c: Certificates, v: Variable, archive: Archive, tool: Tool): (p: Pass) {
    PassOver(v, c.Of(v), archive.Of(v), tool)
  }

  function Updating(c: Certificates, archive: Archive, tool: Tool): (r: Call) {
    var p1 := OnePass(c, KEK, archive, tool);
    var c1 := c.With(KEK, p1.certs);
    if p1.result != Ok(false) then Call(c1, p1.result, p1.attempts)
    else
      var p2 := OnePass(c1, DB, archive, tool);
      var c2 := c1.With(DB, p2.certs);
      if p2.result != Ok(false) then Call(c2, p2.result, p1.attempts + p2.attempts)
      else
        var p3 := OnePass(c2, DBX, archive, tool);
        Call(c2.With(DBX, p3.certs), p3.result, p1.attempts + p2.attempts + p3.attempts)
  }

  // ----- one pass

  predicate Failed(a: Attempt) {
    a.outcome != Applied
  }

  /** Only the last attempt may have succeeded. */
  predicate OnlyLastApplied(attempts: seq<Attempt>) {
    forall i :: 0 <= i < |attempts| - 1 ==> Failed(attempts[i])
  }

  predicate EndsApplied(attempts: seq<Attempt>) {
    attempts != [] && !Failed(attempts[|attempts| - 1])
  }

  /** Every update of `updates` is present in `existing` or failed in `attempts`. */
  predicate Settled(v: Variable, updates: seq<Update>, existing: set<Fingerprint>, attempts: seq<Attempt>) {
    forall i :: 0 <= i < |updates| ==>
      && updates[i].fingerprint.Some?
      && (updates[i].fingerprint.value in existing || FailedIn(v, updates[i], attempts))
  }

  predicate FailedIn(v: Variable, u: Update, attempts: seq<Attempt>) {
    exists i :: 0 <= i < |attempts| && attempts[i].variable == v && attempts[i].update == u && Failed(attempts[i])
  }

  function Fingerprints(updates: seq<Update>): (s: set<Fingerprint>) {
    set i | 0 <= i < |updates| && updates[i].fingerprint.Some? :: updates[i].fingerprint.value
  }

  lemma {:induction false} PassAttempts(v: Variable, existing: set<Fingerprint>, certs: set<Fingerprint>, updates: seq<Update>, tool: Tool)
    ensures var p := Applying(v, existing, certs, updates, tool);
      && OnlyLastApplied(p.attempts)
      && (p.result == Ok(true) <==> EndsApplied(p.attempts))
      && AllOf(p.attempts, v)
      && (p.result == Ok(false) && v != KEK ==> p.attempts == [])
    decreases |updates|
  {
    if updates != [] {
      var u, rest := updates[0], updates[1..];
      if u.fingerprint.Some? {
        var refused := tool.append(v, u).Refused?;
        PassAttempts(v, existing, certs, rest, tool);
        PassAttempts(v, existing, certs + {u.fingerprint.value}, rest, tool);
      }
    }
  }

  lemma {:induction false} PassSettled(v: Variable, existing: set<Fingerprint>, certs: set<Fingerprint>, updates: seq<Update>, tool: Tool)
    requires Applying(v, existing, certs, updates, tool).result == Ok(false)
    ensures Settled(v, updates, existing, Applying(v, existing, certs, updates, tool).attempts)
    decreases |updates|
  {
    if updates != [] {
      var u, rest := updates[0], updates[1..];
      var attempts := Applying(v, existing, certs, updates, tool).attempts;
      if u.fingerprint.value in existing {
        PassSettled(v, existing, certs, rest, tool);
        assert Settled(v, rest, existing, attempts);
      } else {
        var certs' := if tool.append(v, u).Refused? then certs else certs + {u.fingerprint.value};
        PassSettled(v, existing, certs', rest, tool);
        var more := Applying(v, existing, certs', rest, tool).attempts;
        assert attempts == [Attempt(v, u, tool.append(v, u))] + more;
        SettledMore(v, rest, existing, more, attempts[0]);
        assert attempts[0].update == u && Failed(attempts[0]);
      }
      forall i | 0 <= i < |updates|
        ensures updates[i].fingerprint.Some?
        ensures updates[i].fingerprint.value in existing || FailedIn(v, updates[i], attempts)
      {
        if i > 0 { assert updates[i] == rest[i - 1]; }
      }
    }
  }

  lemma {:induction false} SettledMore(v: Variable, updates: seq<Update>, existing: set<Fingerprint>, attempts: seq<Attempt>, a: Attempt)
    requires Settled(v, updates, existing, attempts)
    ensures Settled(v, updates, existing, [a] + attempts)
  {
    forall i | 0 <= i < |updates| && FailedIn(v, updates[i], attempts) ensures FailedIn(v, updates[i], [a] + attempts) {
      var k :| 0 <= k < |attempts| && attempts[k].variable == v && attempts[k].update == updates[i] && Failed(attempts[k]);
      assert ([a] + attempts)[k + 1] == attempts[k];
    }
  }

  /** Certificates are only ever added, and a successful append adds a wanted, missing one. */
  lemma {:induction false} PassGrows(v: Variable, existing: set<Fingerprint>, certs: set<Fingerprint>, updates: seq<Update>, tool: Tool)
    ensures var p := Applying(v, existing, certs, updates, tool);
      && certs <= p.certs
      && (p.result == Ok(true) ==> Fingerprints(updates) * p.certs - existing != {})
    decreases |updates|
  {
    if updates != [] {
      var u, rest := updates[0], updates[1..];
      assert forall f :: f in Fingerprints(rest) ==> f in Fingerprints(updates) by { TailFingerprints(updates); }
      if u.fingerprint.Some? {
        var f := u.fingerprint.value;
        assert f in Fingerprints(updates) by { assert updates[0].fingerprint.value == f; }
        PassGrows(v, existing, certs, rest, tool);
        PassGrows(v, existing, certs + {f}, rest, tool);
        var p := Applying(v, existing, certs, updates, tool);
        if p.result == Ok(true) {
          if f !in existing && tool.append(v, u).Applied? {
            assert f in Fingerprints(updates) * p.certs - existing;
          } else {
            var certs' := if f in existing || tool.append(v, u).Refused? then certs else certs + {f};
            var g :| g in Fingerprints(rest) * Applying(v, existing, certs', rest, tool).certs - existing;
            assert g in Fingerprints(updates) * p.certs - existing;
          }
        }
      }
    }
  }

  lemma {:induction false} TailFingerprints(updates: seq<Update>)
    requires updates != []
    ensures Fingerprints(updates[1..]) <= Fingerprints(updates)
  {
  }

  // ----- one call

  function Rank(v: Variable): nat {
    match v case KEK => 0 case DB => 1 case DBX => 2
  }

  predicate InOrder(attempts: seq<Attempt>) {
    forall i, j :: 0 <= i < j < |attempts| ==> Rank(attempts[i].variable) <= Rank(attempts[j].variable)
  }

  predicate AllOf(attempts: seq<Attempt>, v: Variable) {
    forall i :: 0 <= i < |attempts| ==> attempts[i].variable == v
  }

  lemma {:induction false} AppendPasses(a: seq<Attempt>, b: seq<Attempt>, v: Variable)
    requires OnlyLastApplied(a) && !EndsApplied(a) && OnlyLastApplied(b) && InOrder(a) && AllOf(b, v)
    requires forall i :: 0 <= i < |a| ==> Rank(a[i].variable) < Rank(v)
    ensures OnlyLastApplied(a + b) && (EndsApplied(a + b) <==> EndsApplied(b)) && InOrder(a + b)
  {
  }

  /** Within a call: at most one append succeeds, it is the last thing tried, and it is what asks
      for the reboot; attempts go KEK, then db, then dbx. */
  lemma {:induction false} OneAppendPerCall(c: Certificates, archive: Archive, tool: Tool)
    ensures var r := Updating(c, archive, tool);
      && OnlyLastApplied(r.attempts)
      && (r.result == Ok(true) <==> EndsApplied(r.attempts))
      && InOrder(r.attempts)
  {
    var p1 := OnePass(c, KEK, archive, tool);
    PassAttempts(KEK, c.kek, c.kek, archive.kek, tool);
    if p1.result == Ok(false) {
      var c1 := c.With(KEK, p1.certs);
      PassAttempts(DB, c1.db, c1.db, archive.db, tool);
      var p2 := OnePass(c1, DB, archive, tool);
      AppendPasses(p1.attempts, p2.attempts, DB);
      if p2.result == Ok(false) {
        var c2 := c1.With(DB, p2.certs);
        PassAttempts(DBX, c2.dbx, c2.dbx, archive.dbx, tool);
        AppendPasses(p1.attempts + p2.attempts, OnePass(c2, DBX, archive, tool).attempts, DBX);
      }
    }
  }

  /** db is touched only when every KEK update is present or has just failed, and dbx only when
      in addition every db update is present. */
  lemma {:induction false} DatabasesWaitForKeys(c: Certificates, archive: Archive, tool: Tool, i: nat)
    requires i < |Updating(c, archive, tool).attempts|
    ensures var r := Updating(c, archive, tool);
      && (r.attempts[i].variable != KEK ==>
            && Settled(KEK, archive.kek, c.kek, OnePass(c, KEK, archive, tool).attempts)
            && OnePass(c, KEK, archive, tool).attempts <= r.attempts)
      && (r.attempts[i].variable == DBX ==> Settled(DB, archive.db, c.db, []))
  {
    var p1 := OnePass(c, KEK, archive, tool);
    PassAttempts(KEK, c.kek, c.kek, archive.kek, tool);
    if p1.result == Ok(false) {
      PassSettled(KEK, c.kek, c.kek, archive.kek, tool);
      var c1 := c.With(KEK, p1.certs);
      PassAttempts(DB, c1.db, c1.db, archive.db, tool);
      var p2 := OnePass(c1, DB, archive, tool);
      if p2.result == Ok(false) {
        PassSettled(DB, c1.db, c1.db, archive.db, tool);
      }
    }
  }

  function Lack(c: Certificates, archive: Archive, v: Variable): (s: set<Fingerprint>) {
    Fingerprints(archive.Of(v)) - c.Of(v)
  }

  /** How many wanted certificates the machine does not have yet. */
  function Missing(c: Certificates, archive: Archive): (n: nat) {
    |Lack(c, archive, KEK)| + |Lack(c, archive, DB)| + |Lack(c, archive, DBX)|
  }

  lemma {:induction false} FewerElements<T>(a: set<T>, b: set<T>)
    requires a <= b
    ensures |a| <= |b| && (a != b ==> |a| < |b|)
  {
    assert b == a + (b - a);
    assert a != b ==> b - a != {};
  }

  lemma {:induction false} PassLack(c: Certificates, v: Variable, archive: Archive, tool: Tool)
    ensures var p := OnePass(c, v, archive, tool); var c' := c.With(v, p.certs);
      && |Lack(c', archive, v)| <= |Lack(c, archive, v)|
      && (p.result == Ok(true) ==> |Lack(c', archive, v)| < |Lack(c, archive, v)|)
  {
    PassGrows(v, c.Of(v), c.Of(v), archive.Of(v), tool);
    var c' := c.With(v, OnePass(c, v, archive, tool).certs);
    FewerElements(Lack(c', archive, v), Lack(c, archive, v));
  }

  /** A call never increases what is missing, and each needed reboot has strictly reduced it. */
  lemma {:induction false} CallProgress(c: Certificates, archive: Archive, tool: Tool)
    ensures var r := Updating(c, archive, tool);
      && Missing(r.certs, archive) <= Missing(c, archive)
      && (r.result == Ok(true) ==> Missing(r.certs, archive) < Missing(c, archive))
  {
    var p1 := OnePass(c, KEK, archive, tool);
    PassLack(c, KEK, archive, tool);
    if p1.result == Ok(false) {
      var c1 := c.With(KEK, p1.certs);
      PassLack(c1, DB, archive, tool);
      var p2 := OnePass(c1, DB, archive, tool);
      if p2.result == Ok(false) {
        PassLack(c1.With(DB, p2.certs), DBX, archive, tool);
      }
    }
  }

  /** All of db and dbx is present, and whatever KEK update is absent failed in `attempts`. */
  predicate Complete(c: Certificates, archive: Archive, attempts: seq<Attempt>) {
    && Settled(KEK, archive.kek, c.kek, attempts)
    && Settled(DB, archive.db, c.db, [])
    && Settled(DBX, archive.dbx, c.dbx, [])
  }

  lemma {:induction false} QuietCallIsComplete(c: Certificates, archive: Archive, tool: Tool)
    requires Updating(c, archive, tool).result == Ok(false)
    ensures Complete(Updating(c, archive, tool).certs, archive, Updating(c, archive, tool).attempts)
  {
    var p1 := OnePass(c, KEK, archive, tool);
    var c1 := c.With(KEK, p1.certs);
    var p2 := OnePass(c1, DB, archive, tool);
    var c2 := c1.With(DB, p2.certs);
    PassSettled(KEK, c.kek, c.kek, archive.kek, tool);
    PassSettled(DB, c1.db, c1.db, archive.db, tool);
    PassSettled(DBX, c2.dbx, c2.dbx, archive.dbx, tool);
    PassAttempts(DB, c1.db, c1.db, archive.db, tool);
    PassAttempts(DBX, c2.dbx, c2.dbx, archive.dbx, tool);
    PassGrows(KEK, c.kek, c.kek, archive.kek, tool);
    PassGrows(DB, c1.db, c1.db, archive.db, tool);
    PassGrows(DBX, c2.dbx, c2.dbx, archive.dbx, tool);
    assert Updating(c, archive, tool).attempts == p1.attempts;
  }

  // ----- repeated calls

  /** One boot: the archive in the order its maps are iterated this time, and the tool. */
  datatype Boot = Boot(archive: Archive, tool: Tool)

  predicate SameUpdates(a: Archive, b: Archive) {
    && multiset(a.kek) == multiset(b.kek) && multiset(a.db) == multiset(b.db) && multiset(a.dbx) == multiset(b.dbx)
  }

  function CertsAfter(c: Certificates, boots: seq<Boot>): (r: Certificates)
    decreases |boots|
  {
    if boots == [] then c
    else CertsAfter(Updating(c, boots[0].archive, boots[0].tool).certs, boots[1..])
  }

  /** The call of boot `k`, after those before it. */
  function CallOf(c: Certificates, boots: seq<Boot>, k: nat): (r: Call)
    requires k < |boots|
  {
    Updating(CertsAfter(c, boots[..k]), boots[k].archive, boots[k].tool)
  }

  lemma {:induction false} ReorderedFingerprints(a: seq<Update>, b: seq<Update>)
    requires multiset(a) == multiset(b)
    ensures Fingerprints(a) == Fingerprints(b)
  {
    forall f ensures f in Fingerprints(a) <==> f in Fingerprints(b) {
      if f in Fingerprints(a) {
        var i :| 0 <= i < |a| && a[i].fingerprint.Some? && a[i].fingerprint.value == f;
        assert a[i] in multiset(b);
      }
      if f in Fingerprints(b) {
        var i :| 0 <= i < |b| && b[i].fingerprint.Some? && b[i].fingerprint.value == f;
        assert b[i] in multiset(a);
      }
    }
  }

  lemma {:induction false} ReorderedMissing(c: Certificates, a: Archive, b: Archive)
    requires SameUpdates(a, b)
    ensures Missing(c, a) == Missing(c, b)
  {
    ReorderedFingerprints(a.kek, b.kek);
    ReorderedFingerprints(a.db, b.db);
    ReorderedFingerprints(a.dbx, b.dbx);
  }

  lemma {:induction false} LaterCall(c: Certificates, boots: seq<Boot>, i: nat)
    requires i + 1 < |boots|
    ensures CallOf(Updating(c, boots[0].archive, boots[0].tool).certs, boots[1..], i) == CallOf(c, boots, i + 1)
  {
    assert boots[..i + 1][1..] == boots[1..][..i] && boots[..i + 1][0] == boots[0];
  }

  predicate ReordersOf(archive: Archive, boots: seq<Boot>) {
    forall i :: 0 <= i < |boots| ==> SameUpdates(archive, boots[i].archive)
  }

  predicate ErrorFree(c: Certificates, boots: seq<Boot>) {
    forall i :: 0 <= i < |boots| ==> CallOf(c, boots, i).result != Err
  }

  lemma {:induction false} ErrorFreeTail(c: Certificates, boots: seq<Boot>)
    requires boots != [] && ErrorFree(c, boots)
    ensures ErrorFree(Updating(c, boots[0].archive, boots[0].tool).certs, boots[1..])
  {
    forall i | 0 <= i < |boots[1..]|
      ensures CallOf(Updating(c, boots[0].archive, boots[0].tool).certs, boots[1..], i).result != Err
    {
      LaterCall(c, boots, i);
    }
  }

  lemma {:induction false} RebootReduces(c: Certificates, archive: Archive, boot: Boot)
    requires SameUpdates(archive, boot.archive) && Updating(c, boot.archive, boot.tool).result == Ok(true)
    ensures Missing(Updating(c, boot.archive, boot.tool).certs, archive) < Missing(c, archive)
  {
    ReorderedMissing(c, archive, boot.archive);
    ReorderedMissing(Updating(c, boot.archive, boot.tool).certs, archive, boot.archive);
    CallProgress(c, boot.archive, boot.tool);
  }

  /** Each reboot leaves less missing, so there cannot be more reboots than missing updates. */
  lemma {:induction false} SomeCallIsQuiet(c: Certificates, archive: Archive, boots: seq<Boot>) returns (k: nat)
    requires |boots| > Missing(c, archive) && ReordersOf(archive, boots) && ErrorFree(c, boots)
    ensures k <= Missing(c, archive) && k < |boots| && CallOf(c, boots, k).result == Ok(false)
    decreases |boots|
  {
    assert boots[..0] == [];
    if CallOf(c, boots, 0).result == Ok(false) {
      k := 0;
    } else {
      RebootReduces(c, archive, boots[0]);
      ErrorFreeTail(c, boots);
      var j := SomeCallIsQuiet(Updating(c, boots[0].archive, boots[0].tool).certs, archive, boots[1..]);
      LaterCall(c, boots, j);
      k := j + 1;
    }
  }

  /** Convergence: among more error-free boots than certificates are missing, some call asks for
      no reboot, and it leaves everything present but the KEK updates that failed in it. */
  lemma {:induction false} UpdatesConverge(c: Certificates, archive: Archive, boots: seq<Boot>) returns (k: nat)
    requires |boots| > Missing(c, archive) && ReordersOf(archive, boots) && ErrorFree(c, boots)
    ensures k <= Missing(c, archive) && k < |boots| && CallOf(c, boots, k).result == Ok(false)
    ensures Complete(CallOf(c, boots, k).certs, boots[k].archive, CallOf(c, boots, k).attempts)
  {
    k := SomeCallIsQuiet(c, archive, boots);
    QuietCallIsComplete(CertsAfter(c, boots[..k]), boots[k].archive, boots[k].tool);
  }

  // ----- when a pass and a call err

  /** An update at which a pass ends: a name that is not hex, or a missing certificate whose append
      succeeds or, outside KEK, is tried at all. */
  predicate Ends(v: Variable, existing: set<Fingerprint>, u: Update, tool: Tool) {
    u.fingerprint.None? || (u.fingerprint.value !in existing && (v != KEK || tool.append(v, u) == Applied))
  }

  predicate EndsAt(v: Variable, existing: set<Fingerprint>, updates: seq<Update>, tool: Tool, k: nat) {
    && k <= |updates| && (k < |updates| ==> Ends(v, existing, updates[k], tool))
    && forall i :: 0 <= i < k ==> !Ends(v, existing, updates[i], tool)
  }

  /** The appends tried for a run of updates: one for each that is missing. */
  function Tried(v: Variable, existing: set<Fingerprint>, updates: seq<Update>, tool: Tool): (a: seq<Attempt>) {
    if updates == [] then []
    else
      var u := updates[0];
      (if u.fingerprint.Some? && u.fingerprint.value !in existing then [Attempt(v, u, tool.append(v, u))] else [])
      + Tried(v, existing, updates[1..], tool)
  }

  /** What a pass is, by the place where it ends: nothing to do, an error at a bad name, a reboot
      after a success, or an error at a failed append; tried is everything missing up to there. */
  lemma {:induction false} PassExactly(v: Variable, existing: set<Fingerprint>, certs: set<Fingerprint>, updates: seq<Update>, tool: Tool, k: nat)
    requires EndsAt(v, existing, updates, tool, k)
    ensures var p := Applying(v, existing, certs, updates, tool);
      && p.result == (if k == |updates| then Ok(false)
                      else if updates[k].fingerprint.None? then Err
                      else if tool.append(v, updates[k]) == Applied then Ok(true) else Err)
      && p.attempts == Tried(v, existing, if k == |updates| then updates else updates[..k + 1], tool)
    decreases |updates|
  {
    if updates != [] {
      var u, rest := updates[0], updates[1..];
      if k == 0 {
        assert updates[..1][1..] == [];
      } else {
        var certs' := if u.fingerprint.value in existing || tool.append(v, u).Refused? then certs else certs + {u.fingerprint.value};
        assert !Ends(v, existing, u, tool);
        assert EndsAt(v, existing, rest, tool, k - 1) by { EndsLater(v, existing, updates, tool, k); }
        PassExactly(v, existing, certs', rest, tool, k - 1);
        assert k < |updates| ==> updates[..k + 1][1..] == rest[..k];
      }
    }
  }

  lemma {:induction false} EndsLater(v: Variable, existing: set<Fingerprint>, updates: seq<Update>, tool: Tool, k: nat)
    requires updates != [] && k > 0 && EndsAt(v, existing, updates, tool, k)
    ensures EndsAt(v, existing, updates[1..], tool, k - 1)
  {
    forall i | 0 <= i < k - 1 ensures !Ends(v, existing, updates[1..][i], tool) {
      assert updates[1..][i] == updates[i + 1];
    }
  }

  lemma {:induction false} SomewhereEnds(v: Variable, existing: set<Fingerprint>, updates: seq<Update>, tool: Tool) returns (k: nat)
    ensures EndsAt(v, existing, updates, tool, k)
  {
    k := 0;
    while k < |updates| && !Ends(v, existing, updates[k], tool)
      invariant k <= |updates| && forall i :: 0 <= i < k ==> !Ends(v, existing, updates[i], tool)
    {
      k := k + 1;
    }
  }

  /** Certificates afterwards: those before, and those of the appends that were not refused. */
  lemma {:induction false} PassCerts(v: Variable, existing: set<Fingerprint>, certs: set<Fingerprint>, updates: seq<Update>, tool: Tool, f: Fingerprint)
    ensures var p := Applying(v, existing, certs, updates, tool);
      f in p.certs <==> f in certs || exists i :: 0 <= i < |p.attempts| && p.attempts[i].outcome != Refused
                                        && p.attempts[i].update.fingerprint == Some(f)
    decreases |updates|
  {
    if updates != [] {
      var u, rest := updates[0], updates[1..];
      var p := Applying(v, existing, certs, updates, tool);
      if u.fingerprint.Some? {
        var g := u.fingerprint.value;
        if g in existing {
          PassCerts(v, existing, certs, rest, tool, f);
        } else {
          var a := Attempt(v, u, tool.append(v, u));
          var certs' := if a.outcome.Refused? then certs else certs + {g};
          assert p.attempts[0] == a;
          if !a.outcome.Applied? && v == KEK {
            PassCerts(v, existing, certs', rest, tool, f);
            var q := Applying(v, existing, certs', rest, tool);
            assert p.attempts == [a] + q.attempts;
            assert forall i :: 0 <= i < |q.attempts| ==> p.attempts[i + 1] == q.attempts[i];
          }
        }
      }
    }
  }

  predicate Hex(updates: seq<Update>) {
    forall i :: 0 <= i < |updates| ==> updates[i].fingerprint.Some?
  }

  /** With proper names, a pass over KEK never errs, however many appends fail, and one over db or
      dbx errs exactly when its last append failed. */
  lemma {:induction false} PassErrs(v: Variable, existing: set<Fingerprint>, certs: set<Fingerprint>, updates: seq<Update>, tool: Tool)
    requires Hex(updates)
    ensures var p := Applying(v, existing, certs, updates, tool);
      && (v == KEK ==> p.result != Err)
      && (v != KEK ==> (p.result == Err <==> p.attempts != [] && Failed(p.attempts[|p.attempts| - 1])))
  {
    var k := SomewhereEnds(v, existing, updates, tool);
    PassExactly(v, existing, certs, updates, tool, k);
    if k < |updates| {
      LastTried(v, existing, updates[..k + 1], tool);
    } else if v != KEK {
      NothingTried(v, existing, updates, tool);
    }
  }

  lemma {:induction false} LastTried(v: Variable, existing: set<Fingerprint>, updates: seq<Update>, tool: Tool)
    requires updates != [] && updates[|updates| - 1].fingerprint.Some? && updates[|updates| - 1].fingerprint.value !in existing
    ensures var a, u := Tried(v, existing, updates, tool), updates[|updates| - 1];
      a != [] && a[|a| - 1] == Attempt(v, u, tool.append(v, u))
    decreases |updates|
  {
    if |updates| > 1 { LastTried(v, existing, updates[1..], tool); }
  }

  lemma {:induction false} NothingTried(v: Variable, existing: set<Fingerprint>, updates: seq<Update>, tool: Tool)
    requires Hex(updates) && v != KEK && EndsAt(v, existing, updates, tool, |updates|)
    ensures Tried(v, existing, updates, tool) == []
    decreases |updates|
  {
    if updates != [] {
      assert !Ends(v, existing, updates[0], tool);
      EndsLater(v, existing, updates, tool, |updates|);
      NothingTried(v, existing, updates[1..], tool);
    }
  }

  /** Everything can be read and is properly named. */
  predicate Proper(archive: Archive, tool: Tool) {
    && tool.readable(KEK) && tool.readable(DB) && tool.readable(DBX)
    && Hex(archive.kek) && Hex(archive.db) && Hex(archive.dbx)
  }

  /** A call then errs exactly when the last thing it tried was an append to db or dbx that failed. */
  lemma {:induction false} CallErrs(c: Certificates, archive: Archive, tool: Tool)
    requires Proper(archive, tool)
    ensures var r := Updating(c, archive, tool);
      r.result == Err <==> r.attempts != [] && Failed(r.attempts[|r.attempts| - 1]) && r.attempts[|r.attempts| - 1].variable != KEK
  {
    var p1 := OnePass(c, KEK, archive, tool);
    PassErrs(KEK, c.kek, c.kek, archive.kek, tool);
    PassAttempts(KEK, c.kek, c.kek, archive.kek, tool);
    if p1.result == Ok(false) {
      var c1 := c.With(KEK, p1.certs);
      var p2 := OnePass(c1, DB, archive, tool);
      PassErrs(DB, c1.db, c1.db, archive.db, tool);
      PassAttempts(DB, c1.db, c1.db, archive.db, tool);
      if p2.result == Ok(false) {
        var c2 := c1.With(DB, p2.certs);
        PassErrs(DBX, c2.dbx, c2.dbx, archive.dbx, tool);
        PassAttempts(DBX, c2.dbx, c2.dbx, archive.dbx, tool);
      }
    }
  }

  /** The tool appends to db and dbx whenever asked; KEK may refuse, as with a custom platform key. */
  ghost predicate AppendsToDatabases(tool: Tool) {
    forall v: Variable, u: Update :: v != KEK ==> tool.append(v, u) == Applied
  }

  lemma {:induction false} AttemptsAreCalls(v: Variable, existing: set<Fingerprint>, certs: set<Fingerprint>, updates: seq<Update>, tool: Tool, i: nat)
    requires i < |Applying(v, existing, certs, updates, tool).attempts|
    ensures var a := Applying(v, existing, certs, updates, tool).attempts[i]; a.variable == v && a.outcome == tool.append(v, a.update)
    decreases |updates|
  {
    if updates != [] && updates[0].fingerprint.Some? {
      var u, rest := updates[0], updates[1..];
      if u.fingerprint.value in existing {
        AttemptsAreCalls(v, existing, certs, rest, tool, i);
      } else if i > 0 {
        var certs' := if tool.append(v, u).Refused? then certs else certs + {u.fingerprint.value};
        AttemptsAreCalls(v, existing, certs', rest, tool, i - 1);
      }
    }
  }

  /** So such calls are free of errors, whatever becomes of the KEK updates. */
  lemma {:induction false} ProperCallSucceeds(c: Certificates, archive: Archive, tool: Tool)
    requires Proper(archive, tool) && AppendsToDatabases(tool)
    ensures Updating(c, archive, tool).result != Err
  {
    var p1 := OnePass(c, KEK, archive, tool);
    PassErrs(KEK, c.kek, c.kek, archive.kek, tool);
    if p1.result == Ok(false) {
      var c1 := c.With(KEK, p1.certs);
      DatabasePassSucceeds(DB, c1.db, archive.db, tool);
      var p2 := OnePass(c1, DB, archive, tool);
      if p2.result == Ok(false) {
        DatabasePassSucceeds(DBX, c1.With(DB, p2.certs).dbx, archive.dbx, tool);
      }
    }
  }

  lemma {:induction false} DatabasePassSucceeds(v: Variable, certs: set<Fingerprint>, updates: seq<Update>, tool: Tool)
    requires v != KEK && Hex(updates) && AppendsToDatabases(tool)
    ensures Applying(v, certs, certs, updates, tool).result != Err
  {
    PassErrs(v, certs, certs, updates, tool);
    var p := Applying(v, certs, certs, updates, tool);
    if p.attempts != [] { AttemptsAreCalls(v, certs, certs, updates, tool, |p.attempts| - 1); }
  }

  /** Convergence from premises on the machine alone: everything readable, proper names, and a tool
      that appends to db and dbx. Failing KEK updates do not stand in the way. */
  lemma {:induction false} ProperBootsConverge(c: Certificates, archive: Archive, boots: seq<Boot>) returns (k: nat)
    requires |boots| > Missing(c, archive) && ReordersOf(archive, boots)
    requires forall i :: 0 <= i < |boots| ==> Proper(boots[i].archive, boots[i].tool) && AppendsToDatabases(boots[i].tool)
    ensures k <= Missing(c, archive) && k < |boots| && CallOf(c, boots, k).result == Ok(false)
    ensures Complete(CallOf(c, boots, k).certs, boots[k].archive, CallOf(c, boots, k).attempts)
  {
    forall i | 0 <= i < |boots| ensures CallOf(c, boots, i).result != Err {
      ProperCallSucceeds(CertsAfter(c, boots[..i]), boots[i].archive, boots[i].tool);
    }
    k := UpdatesConverge(c, archive, boots);
  }
}
