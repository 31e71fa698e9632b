/**
 The TPM event log: its replay (internal/secureboot/tpm.go), the measurement of a log into
 a software TPM (cmd/initrd-utils/main.go), and the writer of the synthesized log
 (internal/secureboot/event_log.go), whose records follow section 10 of the TCG PC Client
 Platform Firmware Profile.
 */
module TpmReplay {
  /** A log entry as far as replay looks at it. */
  datatype Event<D> = Event(pcr: nat, digest: D)

  /** The digests logged for one PCR, in order. */
  function Digests<D>(log: seq<Event<D>>, pcr: nat): (ds: seq<D>) {
    if log == [] then []
    else
      var ds := Digests(log[..|log| - 1], pcr);
      if log[|log| - 1].pcr == pcr then ds + [log[|log| - 1].digest] else ds
  }

  /** A register that starts at `start` and is extended with each digest in turn. */
  function Extended<D>(extend: (D, D) -> D, start: D, ds: seq<D>): (v: D) {
    if ds == [] then start else extend(Extended(extend, start, ds[..|ds| - 1]), ds[|ds| - 1])
  }

  lemma {:induction false} DigestsSnoc<D>(log: seq<Event<D>>, e: Event<D>, pcr: nat)
    ensures Digests(log + [e], pcr) == Digests(log, pcr) + if e.pcr == pcr then [e.digest] else []
  {
  }

  lemma {:induction false} ExtendedSnoc<D>(extend: (D, D) -> D, start: D, ds: seq<D>, d: D)
    ensures Extended(extend, start, ds + [d]) == extend(Extended(extend, start, ds), d)
  {
  }

  /** What PCR `pcr` of a TPM reset to `zero` holds after the whole log was measured. */
  function Measured<D>(extend: (D, D) -> D, zero: D, log: seq<Event<D>>, pcr: nat): (v: D) {
    Extended(extend, zero, Digests(log, pcr))
  }

  lemma {:induction false} MeasuredNext<D>(extend: (D, D) -> D, start: D, log: seq<Event<D>>, i: nat, pcr: nat)
    requires i < |log|
    ensures var v := Extended(extend, start, Digests(log[..i], pcr));
      Extended(extend, start, Digests(log[..i + 1], pcr)) == if log[i].pcr == pcr then extend(v, log[i].digest) else v
  {
    assert log[..i + 1] == log[..i] + [log[i]];
    DigestsSnoc(log[..i], log[i], pcr);
    if log[i].pcr == pcr {
      ExtendedSnoc(extend, start, Digests(log[..i], pcr), log[i].digest);
    } else {
      assert Digests(log[..i], pcr) + [] == Digests(log[..i], pcr);
    }
  }

  /** The replay of the source: two registers updated in one pass over the interleaved log, then
      compared with what the TPM reports. */
  method ValidateEventLog<D(==)>(extend: (D, D) -> D, zero: D, log: seq<Event<D>>, actual4: D, actual7: D)
    returns (valid: bool)
    ensures valid <==> actual4 == Measured(extend, zero, log, 4) && actual7 == Measured(extend, zero, log, 7)
  {
    var untrusted4, untrusted7 := zero, zero;
    for i := 0 to |log|
      invariant untrusted4 == Measured(extend, zero, log[..i], 4)
      invariant untrusted7 == Measured(extend, zero, log[..i], 7)
    {
      MeasuredNext(extend, zero, log, i, 4);
      MeasuredNext(extend, zero, log, i, 7);
      match log[i].pcr {
        case 4 => untrusted4 := extend(untrusted4, log[i].digest);
        case 7 => untrusted7 := extend(untrusted7, log[i].digest);
        case _ =>
      }
    }
    assert log[..|log|] == log;
    return actual4 == untrusted4 && actual7 == untrusted7;
  }

  /** The measurement loop: every event extends its register. A register the TPM does not have
      is an error. */
  method MeasureEvents<D>(extend: (D, D) -> D, tpm: array<D>, log: seq<Event<D>>) returns (ok: bool)
    modifies tpm
    ensures ok <==> forall i :: 0 <= i < |log| ==> log[i].pcr < tpm.Length
    ensures ok ==> forall p :: 0 <= p < tpm.Length ==> tpm[p] == Extended(extend, old(tpm[p]), Digests(log, p))
  {
    for i := 0 to |log|
      invariant forall j :: 0 <= j < i ==> log[j].pcr < tpm.Length
      invariant forall p :: 0 <= p < tpm.Length ==> tpm[p] == Extended(extend, old(tpm[p]), Digests(log[..i], p))
    {
      var e := log[i];
      if e.pcr >= tpm.Length { return false; }
      ghost var before := tpm[..];
      tpm[e.pcr] := extend(tpm[e.pcr], e.digest);
      forall p | 0 <= p < tpm.Length ensures tpm[p] == Extended(extend, old(tpm[p]), Digests(log[..i + 1], p)) {
        assert before[p] == Extended(extend, old(tpm[p]), Digests(log[..i], p));
        MeasuredNext(extend, old(tpm[p]), log, i, p);
      }
    }
    assert log[..|log|] == log;
    return true;
  }

  /** The whole measurement: the log, then the "enter-initrd" digest into PCR 11. */
  method MeasurePCRs<D>(extend: (D, D) -> D, tpm: array<D>, log: seq<Event<D>>, enterInitrd: D) returns (ok: bool)
    requires tpm.Length > 11
    modifies tpm
    ensures ok <==> forall i :: 0 <= i < |log| ==> log[i].pcr < tpm.Length
    ensures ok ==> forall p :: 0 <= p < tpm.Length ==>
      tpm[p] == Extended(extend, old(tpm[p]), if p == 11 then Digests(log, p) + [enterInitrd] else Digests(log, p))
  {
    ok := MeasureEvents(extend, tpm, log);
    if !ok { return; }
    ExtendedSnoc(extend, old(tpm[11]), Digests(log, 11), enterInitrd);
    tpm[11] := extend(tpm[11], enterInitrd);
  }

  // ----- what a validated log says

  /** What two digest sequences with one register value amount to: the same sequence, two
      different inputs with one output, or an input whose output is the reset value. */
  datatype Finding<D> = Same | Collision(p: D, d: D, q: D, e: D) | BackToZero(p: D, d: D)

  /** Walks both sequences back from their ends until they differ. */
  function Compared<D(==)>(extend: (D, D) -> D, zero: D, a: seq<D>, b: seq<D>): (f: Finding<D>)
    decreases |a|
  {
    if a == [] && b == [] then Same
    else if a == [] then BackToZero(Extended(extend, zero, b[..|b| - 1]), b[|b| - 1])
    else if b == [] then BackToZero(Extended(extend, zero, a[..|a| - 1]), a[|a| - 1])
    else
      var a', x, b', y := a[..|a| - 1], a[|a| - 1], b[..|b| - 1], b[|b| - 1];
      var p, q := Extended(extend, zero, a'), Extended(extend, zero, b');
      if p == q && x == y then Compared(extend, zero, a', b') else Collision(p, x, q, y)
  }

  predicate Genuine<D(==)>(extend: (D, D) -> D, zero: D, f: Finding<D>) {
    match f
    case Same => true
    case Collision(p, d, q, e) => (p != q || d != e) && extend(p, d) == extend(q, e)
    case BackToZero(p, d) => extend(p, d) == zero
  }

  /** Two digest sequences that leave a register with the same value are equal, or yield an
      explicit collision of `extend`, or an explicit way back to the reset value. */
  lemma {:induction false} SameValueSameDigests<D>(extend: (D, D) -> D, zero: D, a: seq<D>, b: seq<D>)
    requires Extended(extend, zero, a) == Extended(extend, zero, b)
    ensures var f := Compared(extend, zero, a, b);
      Genuine(extend, zero, f) && (f == Same <==> a == b)
    decreases |a|
  {
    if a != [] && b != [] {
      var a', x, b', y := a[..|a| - 1], a[|a| - 1], b[..|b| - 1], b[|b| - 1];
      assert a == a' + [x] && b == b' + [y];
      if Extended(extend, zero, a') == Extended(extend, zero, b') && x == y {
        SameValueSameDigests(extend, zero, a', b');
      }
    }
  }

  ghost predicate Collides<D(!new)>(extend: (D, D) -> D) {
    exists p, d, q, e :: (p != q || d != e) && extend(p, d) == extend(q, e)
  }

  ghost predicate ReachesZero<D(!new)>(extend: (D, D) -> D, zero: D) {
    exists p, d :: extend(p, d) == zero
  }

  /** Against a TPM that was reset and measured with `measured`, a log validates exactly when its
      PCR 4 and PCR 7 digest sequences are the measured ones, as long as `extend` has no
      collision and never returns to the reset value. */
  lemma {:induction false} ValidatedLogIsMeasuredLog<D(!new)>(extend: (D, D) -> D, zero: D, log: seq<Event<D>>, measured: seq<Event<D>>)
    requires !Collides(extend) && !ReachesZero(extend, zero)
    ensures (Measured(extend, zero, log, 4) == Measured(extend, zero, measured, 4)
             && Measured(extend, zero, log, 7) == Measured(extend, zero, measured, 7))
       <==> (Digests(log, 4) == Digests(measured, 4) && Digests(log, 7) == Digests(measured, 7))
  {
    if Measured(extend, zero, log, 4) == Measured(extend, zero, measured, 4) {
      SameValueSameDigests(extend, zero, Digests(log, 4), Digests(measured, 4));
    }
    if Measured(extend, zero, log, 7) == Measured(extend, zero, measured, 7) {
      SameValueSameDigests(extend, zero, Digests(log, 7), Digests(measured, 7));
    }
  }
}
