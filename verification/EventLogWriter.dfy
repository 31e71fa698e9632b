/**
 The writer of the synthesized TPM event log (internal/secureboot/event_log.go): a
 "Spec ID Event03" header and one record per measurement, laid out as in section 10 of the
 TCG PC Client Platform Firmware Profile, with SHA-256 as the only hash.

 `DecodeLog` reads that layout back, so that what was written can be compared with what a
 parser of the format sees. EFI variables, the UKI's PE sections and the hash function are
 parameters.
 */
module EventLogWriter {
  import opened Wrappers
  import opened Bytes
  import opened TpmReplay

  const NO_ACTION := 0x3
  const SEPARATOR := 0x4
  const IPL := 0xD
  const EFI_VARIABLE_DRIVER_CONFIG := 0x8000_0001
  const EFI_VARIABLE_AUTHORITY := 0x8000_00E0

  const RECORD_HEADER_LEN := 50
  const LOG_HEADER_LEN := 65

  type Word = x: nat | x < TWO32

  datatype LogEvent = LogEvent(name: string, pcr: Word, eventType: Word)

  const EVENTS: seq<LogEvent> := [
    LogEvent("SecureBoot", 7, EFI_VARIABLE_DRIVER_CONFIG),
    LogEvent("PK", 7, EFI_VARIABLE_DRIVER_CONFIG),
    LogEvent("KEK", 7, EFI_VARIABLE_DRIVER_CONFIG),
    LogEvent("db", 7, EFI_VARIABLE_DRIVER_CONFIG),
    LogEvent("dbx", 7, EFI_VARIABLE_DRIVER_CONFIG),
    LogEvent("", 7, SEPARATOR),
    LogEvent("db", 7, EFI_VARIABLE_AUTHORITY),
    LogEvent(".linux", 11, IPL),
    LogEvent(".osrel", 11, IPL),
    LogEvent(".cmdline", 11, IPL),
    LogEvent(".initrd", 11, IPL),
    LogEvent(".ucode", 11, IPL),
    LogEvent(".uname", 11, IPL),
    LogEvent(".sbat", 11, IPL),
    LogEvent(".pcrpkey", 11, IPL)]

  /** What the writer reads: EFI variables, the signing certificate found in a variable's value,
      and PE sections. `None` is a read error. */
  datatype Env = Env(
    variable: string -> Option<seq<Byte>>,
    signingCert: seq<Byte> -> Option<seq<Byte>>,
    section: string -> Option<seq<Byte>>,
    amd64: bool)

  datatype Record = Record(pcr: Word, eventType: Word, contents: seq<Byte>)

  function Ascii(s: string): (b: seq<Byte>) {
    seq(|s|, i requires 0 <= i < |s| => s[i] as int % 256)
  }

  // EFI_IMAGE_SECURITY_DATABASE_GUID and EFI_GLOBAL_VARIABLE_GUID, as they are laid out.
  const DATABASE_GUID: seq<Byte> :=
    [0xcb, 0xb2, 0x19, 0xd7, 0x3a, 0x3d, 0x96, 0x45, 0xa3, 0xbc, 0xda, 0xd0, 0x0e, 0x67, 0x65, 0x6f]
  const GLOBAL_GUID: seq<Byte> :=
    [0x61, 0xdf, 0xe4, 0x8b, 0xca, 0x93, 0xd2, 0x11, 0xaa, 0x0d, 0x00, 0xe0, 0x98, 0x03, 0x2b, 0x8c]

  function PutLe64(n: nat): (b: seq<Byte>)
    ensures |b| == 8 && (n < TWO32 ==> Le32(b) == n)
  {
    PutLe32(n % TWO32) + PutLe32(n / TWO32 % TWO32)
  }

  function Utf16(s: string): (b: seq<Byte>)
    ensures |b| == 2 * |s|
  {
    if s == [] then [] else [s[0] as int % 256, s[0] as int / 256 % 256] + Utf16(s[1..])
  }

  /** The measured form of an EFI variable: GUID, lengths of name and value, name, value. */
  function VariableData(name: string, value: seq<Byte>): (b: seq<Byte>) {
    (if name == "db" || name == "dbx" then DATABASE_GUID else GLOBAL_GUID)
    + (PutLe64(|name|) + (PutLe64(|value|) + (Utf16(name) + value)))
  }

  predicate IsAscii(s: string) {
    forall i :: 0 <= i < |s| ==> s[i] as int < 128
  }

  lemma {:induction false} VariableParts(name: string, value: seq<Byte>)
    ensures var b := VariableData(name, value);
      |b| == 32 + 2 * |name| + |value| && b[16..24] == PutLe64(|name|)
      && b[32..32 + 2 * |name|] == Utf16(name) && b[32 + 2 * |name|..] == value
  {
    var guid := if name == "db" || name == "dbx" then DATABASE_GUID else GLOBAL_GUID;
    var tail := Utf16(name) + value;
    var sized := PutLe64(|value|) + tail;
    var rest := PutLe64(|name|) + sized;
    var b := guid + rest;
    assert b[16..] == rest && rest[..8] == PutLe64(|name|) && rest[8..] == sized && sized[8..] == tail;
    assert b[16..24] == rest[..8];
    assert b[32..] == tail;
    assert b[32..32 + 2 * |name|] == tail[..2 * |name|] && b[32 + 2 * |name|..] == tail[2 * |name|..];
  }

  lemma {:induction false} Utf16Injective(n: string, m: string)
    requires IsAscii(n) && IsAscii(m) && Utf16(n) == Utf16(m)
    ensures n == m
  {
    if n != [] {
      assert |Utf16(n)| == 2 * |n| && |Utf16(m)| == 2 * |m|;
      assert Utf16(n)[0] == n[0] as int && Utf16(m)[0] == m[0] as int;
      assert Utf16(n)[2..] == Utf16(n[1..]) && Utf16(m)[2..] == Utf16(m[1..]);
      Utf16Injective(n[1..], m[1..]);
      assert n == [n[0]] + n[1..] && m == [m[0]] + m[1..];
    }
  }

  lemma {:induction false} Le64Injective(a: nat, b: nat)
    requires a < TWO32 && b < TWO32 && PutLe64(a) == PutLe64(b)
    ensures a == b
  {
    assert Le32(PutLe64(a)) == a && Le32(PutLe64(b)) == b;
  }

  /** Different variables are measured as different data. */
  lemma {:induction false} VariableDataIsInjective(n: string, x: seq<Byte>, m: string, y: seq<Byte>)
    requires IsAscii(n) && IsAscii(m) && |n| < TWO32 && |m| < TWO32
    requires VariableData(n, x) == VariableData(m, y)
    ensures n == m && x == y
  {
    var b, c := VariableData(n, x), VariableData(m, y);
    VariableParts(n, x);
    VariableParts(m, y);
    assert b[16..24] == c[16..24];
    Le64Injective(|n|, |m|);
    Utf16Injective(n, m);
  }

  /** The records one event of the list gives rise to. */
  function RecordsOf(env: Env, e: LogEvent): (r: Option<seq<Record>>) {
    if e.eventType == EFI_VARIABLE_DRIVER_CONFIG then
      match env.variable(e.name)
      case None => None
      case Some(c) => Some([Record(e.pcr, e.eventType, VariableData(e.name, c))])
    else if e.eventType == EFI_VARIABLE_AUTHORITY then
      match Authority(env, e.name)
      case None => None
      case Some(c) => Some([Record(e.pcr, e.eventType, VariableData(e.name, c))])
    else if e.eventType == IPL then
      if e.name == ".ucode" && !env.amd64 then Some([])
      else
        match env.section(e.name)
        case None => None
        case Some(c) => Some([Record(e.pcr, e.eventType, Ascii(e.name) + [0]), Record(e.pcr, e.eventType, c)])
    else if e.eventType == SEPARATOR then Some([Record(e.pcr, e.eventType, [0, 0, 0, 0])])
    else None
  }

  function Authority(env: Env, name: string): (r: Option<seq<Byte>>) {
    match env.variable(name) case None => None case Some(c) => env.signingCert(c)
  }

  function AllRecords(env: Env, events: seq<LogEvent>): (r: Option<seq<Record>>) {
    if events == [] then Some([])
    else
      match (AllRecords(env, events[..|events| - 1]), RecordsOf(env, events[|events| - 1]))
      case (Some(a), Some(b)) => Some(a + b)
      case _ => None
  }

  // ----- the layout

  /** The hash is a parameter; the layout relies on its length only. */
  ghost predicate IsSha256(sha: seq<Byte> -> seq<Byte>) {
    forall x :: |sha(x)| == 32
  }

  /** One record. The size field is the length of the contents cut to 32 bits. */
  function EncodeRecord(sha: seq<Byte> -> seq<Byte>, r: Record): (b: seq<Byte>) {
    Joined(PutLe32(r.pcr), PutLe32(r.eventType), PutLe32(1), [0x0B, 0x00], sha(r.contents),
           PutLe32(|r.contents| % TWO32), r.contents)
  }

  function Joined(a: seq<Byte>, b: seq<Byte>, c: seq<Byte>, d: seq<Byte>, e: seq<Byte>, f: seq<Byte>, g: seq<Byte>): (r: seq<Byte>) {
    a + (b + (c + (d + (e + (f + g)))))
  }

  function EncodeRecords(sha: seq<Byte> -> seq<Byte>, rs: seq<Record>): (b: seq<Byte>) {
    if rs == [] then [] else EncodeRecords(sha, rs[..|rs| - 1]) + EncodeRecord(sha, rs[|rs| - 1])
  }

  function LogHeader(): (b: seq<Byte>)
    ensures |b| == LOG_HEADER_LEN
  {
    PutLe32(0) + PutLe32(NO_ACTION) + seq(20, i => 0) + PutLe32(33)
    + [0x53, 0x70, 0x65, 0x63, 0x20, 0x49, 0x44, 0x20, 0x45, 0x76, 0x65, 0x6e, 0x74, 0x30, 0x33, 0x00]
    + PutLe32(0) + [0, 2, 0, 2] + PutLe32(1) + [0x0B, 0x00] + [32, 0] + [0]
  }

  function EncodeLog(sha: seq<Byte> -> seq<Byte>, rs: seq<Record>): (b: seq<Byte>) {
    LogHeader() + EncodeRecords(sha, rs)
  }

  lemma {:induction false} EncodeSnoc(sha: seq<Byte> -> seq<Byte>, rs: seq<Record>, r: Record)
    ensures EncodeLog(sha, rs + [r]) == EncodeLog(sha, rs) + EncodeRecord(sha, r)
  {
  }

  /** The writer's loop over the event list and its growing buffer; a read error drops it all. */
  method SynthesizeTPMEventLog(sha: seq<Byte> -> seq<Byte>, env: Env, events: seq<LogEvent>)
    returns (log: Option<seq<Byte>>)
    ensures log == match AllRecords(env, events) case None => None case Some(rs) => Some(EncodeLog(sha, rs))
  {
    ghost var written: seq<Record> := [];
    var buf := LogHeader();
    assert EncodeLog(sha, []) == LogHeader();
    for i := 0 to |events|
      invariant AllRecords(env, events[..i]) == Some(written)
      invariant buf == EncodeLog(sha, written)
    {
      RecordsSnoc(env, events, i);
      var ok;
      ok, buf, written := WriteEvent(sha, env, buf, events[i], written);
      if !ok {
        PrefixFails(env, events, i + 1);
        return None;
      }
    }
    assert events[..|events|] == events;
    log := Some(buf);
  }

  /** One turn of that loop. */
  method WriteEvent(sha: seq<Byte> -> seq<Byte>, env: Env, buf: seq<Byte>, e: LogEvent, ghost written: seq<Record>)
    returns (ok: bool, buf': seq<Byte>, ghost written': seq<Record>)
    requires buf == EncodeLog(sha, written)
    ensures ok <==> RecordsOf(env, e).Some?
    ensures ok ==> written' == written + RecordsOf(env, e).value && buf' == EncodeLog(sha, written')
  {
    buf', written' := buf, written;
    var contents: Option<seq<Byte>> := None;
    if e.eventType == EFI_VARIABLE_DRIVER_CONFIG || e.eventType == EFI_VARIABLE_AUTHORITY {
      contents := env.variable(e.name);
      if e.eventType == EFI_VARIABLE_AUTHORITY && contents.Some? {
        contents := env.signingCert(contents.value);
      }
      if contents.Some? { contents := Some(VariableData(e.name, contents.value)); }
    } else if e.eventType == IPL {
      if e.name == ".ucode" && !env.amd64 {
        assert written + [] == written;
        return true, buf, written;
      }
      contents := env.section(e.name);
      if contents.Some? {
        buf' := WriteLogEvent(sha, buf', e, Ascii(e.name) + [0]);
        EncodeSnoc(sha, written', Record(e.pcr, e.eventType, Ascii(e.name) + [0]));
        written' := written' + [Record(e.pcr, e.eventType, Ascii(e.name) + [0])];
      }
    } else if e.eventType == SEPARATOR {
      contents := Some([0, 0, 0, 0]);
    }
    if contents.None? {
      return false, buf', written';
    }
    buf' := WriteLogEvent(sha, buf', e, contents.value);
    EncodeSnoc(sha, written', Record(e.pcr, e.eventType, contents.value));
    written' := written' + [Record(e.pcr, e.eventType, contents.value)];
    return true, buf', written';
  }

  /** Fills in the header of one record, then writes it and the contents. */
  method WriteLogEvent(sha: seq<Byte> -> seq<Byte>, buf: seq<Byte>, e: LogEvent, contents: seq<Byte>) returns (buf': seq<Byte>)
    ensures buf' == buf + EncodeRecord(sha, Record(e.pcr, e.eventType, contents))
  {
    var pcr, kind, count, hash := PutLe32(e.pcr), PutLe32(e.eventType), PutLe32(1), [0x0B, 0x00];
    var digest, size := sha(contents), PutLe32(|contents| % TWO32);
    var header := pcr + (kind + (count + (hash + (digest + size))));
    HeaderThenContents(pcr, kind, count, hash, digest, size, contents);
    Regroup(buf, header, contents);
    buf' := buf + header;
    buf' := buf' + contents;
  }

  lemma {:induction false} HeaderThenContents(a: seq<Byte>, b: seq<Byte>, c: seq<Byte>, d: seq<Byte>, e: seq<Byte>, f: seq<Byte>, g: seq<Byte>)
    ensures a + (b + (c + (d + (e + f)))) + g == Joined(a, b, c, d, e, f, g)
  {
    Regroup(a, b + (c + (d + (e + f))), g);
    Regroup(b, c + (d + (e + f)), g);
    Regroup(c, d + (e + f), g);
    Regroup(d, e + f, g);
    Regroup(e, f, g);
  }

  lemma {:induction false} RecordsSnoc(env: Env, events: seq<LogEvent>, i: nat)
    requires i < |events|
    ensures AllRecords(env, events[..i + 1]) ==
      match (AllRecords(env, events[..i]), RecordsOf(env, events[i]))
      case (Some(a), Some(b)) => Some(a + b)
      case _ => None
  {
    assert events[..i + 1][..i] == events[..i];
  }

  lemma {:induction false} PrefixFails(env: Env, events: seq<LogEvent>, i: nat)
    requires i <= |events| && AllRecords(env, events[..i]).None?
    ensures AllRecords(env, events).None?
    decreases |events| - i
  {
    if i < |events| {
      RecordsSnoc(env, events, i);
      PrefixFails(env, events, i + 1);
    } else {
      assert events[..i] == events;
    }
  }

  // ----- a reader of the layout

  datatype Decoded = Decoded(pcr: nat, eventType: nat, digest: seq<Byte>, contents: seq<Byte>)

  /** The records of a log body: one SHA-256 digest each, then a sized event. */
  function DecodeRecords(b: seq<Byte>): (r: Option<seq<Decoded>>)
    decreases |b|
  {
    if b == [] then Some([])
    else if |b| < RECORD_HEADER_LEN then None
    else
      var afterPcr := b[4..];
      var afterType := afterPcr[4..];
      var afterCount := afterType[4..];
      var afterAlg := afterCount[2..];
      var afterDigest := afterAlg[32..];
      var body := afterDigest[4..];
      var size := Le32(afterDigest);
      if Le32(afterType) != 1 || afterCount[..2] != [0x0B, 0x00] || |body| < size then None
      else
        var d := Decoded(Le32(b), Le32(afterPcr), afterAlg[..32], body[..size]);
        Then(d, DecodeRecords(body[size..]))
  }

  function Then(d: Decoded, more: Option<seq<Decoded>>): Option<seq<Decoded>> {
    match more case None => None case Some(ds) => Some([d] + ds)
  }

  function DecodeLog(b: seq<Byte>): (r: Option<seq<Decoded>>) {
    if |b| >= LOG_HEADER_LEN && b[..LOG_HEADER_LEN] == LogHeader() then DecodeRecords(b[LOG_HEADER_LEN..]) else None
  }

  function AsDecoded(sha: seq<Byte> -> seq<Byte>, r: Record): (d: Decoded) {
    Decoded(r.pcr, r.eventType, sha(r.contents), r.contents)
  }

  function AllDecoded(sha: seq<Byte> -> seq<Byte>, rs: seq<Record>): (ds: seq<Decoded>)
    ensures |ds| == |rs|
    ensures forall i :: 0 <= i < |rs| ==> ds[i] == AsDecoded(sha, rs[i])
  {
    seq(|rs|, i requires 0 <= i < |rs| => AsDecoded(sha, rs[i]))
  }

  lemma {:induction false} Peel(a: seq<Byte>, rest: seq<Byte>)
    ensures (a + rest)[..|a|] == a && (a + rest)[|a|..] == rest
    ensures |a| == 4 ==> Le32(a + rest) == Le32(a)
  {
  }

  lemma {:induction false} Regroup(a: seq<Byte>, b: seq<Byte>, c: seq<Byte>)
    ensures a + b + c == a + (b + c)
  {
  }

  /** The first record of a body is decoded to what was written. */
  lemma {:induction false} DecodeFirst(sha: seq<Byte> -> seq<Byte>, r: Record, tail: seq<Byte>)
    requires IsSha256(sha) && |r.contents| < TWO32
    ensures DecodeRecords(EncodeRecord(sha, r) + tail) == Then(AsDecoded(sha, r), DecodeRecords(tail))
  {
    var digest, size := sha(r.contents), PutLe32(|r.contents|);
    var body := r.contents + tail;
    var afterAlg := digest + (size + body);
    var afterType := PutLe32(1) + ([0x0B, 0x00] + afterAlg);
    var afterPcr := PutLe32(r.eventType) + afterType;
    RecordRegroup(sha, r, tail);
    Peel(PutLe32(r.pcr), afterPcr);
    Peel(PutLe32(r.eventType), afterType);
    Peel(PutLe32(1), [0x0B, 0x00] + afterAlg);
    Peel([0x0B, 0x00], afterAlg);
    Peel(digest, size + body);
    Peel(size, body);
    Peel(r.contents, tail);
  }

  lemma {:induction false} RecordRegroup(sha: seq<Byte> -> seq<Byte>, r: Record, tail: seq<Byte>)
    requires |r.contents| < TWO32
    ensures EncodeRecord(sha, r) + tail == PutLe32(r.pcr) + (PutLe32(r.eventType) + (PutLe32(1) + ([0x0B, 0x00]
      + (sha(r.contents) + (PutLe32(|r.contents|) + (r.contents + tail))))))
  {
  }

  predicate Sized(rs: seq<Record>) {
    forall i :: 0 <= i < |rs| ==> |rs[i].contents| < TWO32
  }

  lemma {:induction false} DecodedSnoc(sha: seq<Byte> -> seq<Byte>, rs: seq<Record>, more: seq<Decoded>)
    requires rs != []
    ensures AllDecoded(sha, rs[..|rs| - 1]) + ([AsDecoded(sha, rs[|rs| - 1])] + more) == AllDecoded(sha, rs) + more
  {
  }

  lemma {:induction false} DecodeAll(sha: seq<Byte> -> seq<Byte>, rs: seq<Record>, tail: seq<Byte>)
    requires IsSha256(sha) && Sized(rs) && DecodeRecords(tail).Some?
    ensures DecodeRecords(EncodeRecords(sha, rs) + tail) == Some(AllDecoded(sha, rs) + DecodeRecords(tail).value)
    decreases |rs|
  {
    if rs == [] {
      assert EncodeRecords(sha, rs) + tail == tail;
      assert AllDecoded(sha, rs) + DecodeRecords(tail).value == DecodeRecords(tail).value;
    } else {
      var init, last := rs[..|rs| - 1], rs[|rs| - 1];
      DecodeFirst(sha, last, tail);
      DecodeAll(sha, init, EncodeRecord(sha, last) + tail);
      Regroup(EncodeRecords(sha, init), EncodeRecord(sha, last), tail);
      DecodedSnoc(sha, rs, DecodeRecords(tail).value);
    }
  }

  /** Every record sequence is read back from its log, whatever its contents. */
  lemma {:induction false} LogRoundTrip(sha: seq<Byte> -> seq<Byte>, rs: seq<Record>)
    requires IsSha256(sha) && Sized(rs)
    ensures DecodeLog(EncodeLog(sha, rs)) == Some(AllDecoded(sha, rs))
  {
    DecodeAll(sha, rs, []);
    var b := EncodeLog(sha, rs);
    assert b[..LOG_HEADER_LEN] == LogHeader() && b[LOG_HEADER_LEN..] == EncodeRecords(sha, rs);
    assert EncodeRecords(sha, rs) + [] == EncodeRecords(sha, rs);
    assert AllDecoded(sha, rs) + [] == AllDecoded(sha, rs);
  }

  // ----- a boot with a software TPM

  function ReplayEvents(ds: seq<Decoded>): (es: seq<Event<seq<Byte>>>)
    ensures |es| == |ds| && forall i :: 0 <= i < |ds| ==> es[i] == Event(ds[i].pcr, ds[i].digest)
  {
    seq(|ds|, i requires 0 <= i < |ds| => Event(ds[i].pcr, ds[i].digest))
  }

  predicate OnlyKnownPcrs(rs: seq<Record>) {
    forall i :: 0 <= i < |rs| ==> rs[i].pcr == 7 || rs[i].pcr == 11
  }

  lemma {:induction false} SynthesizedPcrs(env: Env, events: seq<LogEvent>)
    requires AllRecords(env, events).Some?
    requires forall i :: 0 <= i < |events| ==> events[i].pcr == 7 || events[i].pcr == 11
    ensures OnlyKnownPcrs(AllRecords(env, events).value)
    decreases |events|
  {
    if events != [] { SynthesizedPcrs(env, events[..|events| - 1]); }
  }

  lemma {:induction false} EventPcrs()
    ensures forall i :: 0 <= i < |EVENTS| ==> EVENTS[i].pcr == 7 || EVENTS[i].pcr == 11
  {
  }

  /** What the boot with a software TPM measures: synthesized, parsed, and never out of range. */
  lemma {:induction false} SynthesizedEvents(sha: seq<Byte> -> seq<Byte>, env: Env)
    requires IsSha256(sha) && AllRecords(env, EVENTS).Some? && Sized(AllRecords(env, EVENTS).value)
    ensures var parsed := DecodeLog(EncodeLog(sha, AllRecords(env, EVENTS).value));
      parsed.Some? && forall i :: 0 <= i < |parsed.value| ==> parsed.value[i].pcr == 7 || parsed.value[i].pcr == 11
  {
    LogRoundTrip(sha, AllRecords(env, EVENTS).value);
    EventPcrs();
    SynthesizedPcrs(env, EVENTS);
  }

  // ----- the daemon synthesizes the log again, and replays its own

  /** The value a PCR 7 event is about: a variable, its signing certificate, or nothing. */
  function ValueOf(env: Env, e: LogEvent): (v: Option<seq<Byte>>) {
    if e.eventType == EFI_VARIABLE_DRIVER_CONFIG then env.variable(e.name)
    else if e.eventType == EFI_VARIABLE_AUTHORITY then Authority(env, e.name)
    else Some([])
  }

  /** What is measured of it. */
  function ContentsOf(env: Env, e: LogEvent): (c: seq<Byte>)
    requires ValueOf(env, e).Some?
  {
    if e.eventType == SEPARATOR then [0, 0, 0, 0] else VariableData(e.name, ValueOf(env, e).value)
  }

  /** The events of PCR 7 are single records, the others sections for PCR 11. */
  predicate Usual(e: LogEvent) {
    if e.pcr == 7 then e.eventType == EFI_VARIABLE_DRIVER_CONFIG || e.eventType == EFI_VARIABLE_AUTHORITY || e.eventType == SEPARATOR
    else e.pcr == 11
  }

  lemma {:induction false} EventsAreUsual()
    ensures forall i :: 0 <= i < |EVENTS| ==> Usual(EVENTS[i])
  {
  }

  function RecordDigests(sha: seq<Byte> -> seq<Byte>, rs: seq<Record>, pcr: nat): (ds: seq<seq<Byte>>) {
    if rs == [] then []
    else
      var ds := RecordDigests(sha, rs[..|rs| - 1], pcr);
      if rs[|rs| - 1].pcr == pcr then ds + [sha(rs[|rs| - 1].contents)] else ds
  }

  lemma {:induction false} RecordDigestsSnoc(sha: seq<Byte> -> seq<Byte>, rs: seq<Record>, r: Record, pcr: nat)
    ensures RecordDigests(sha, rs + [r], pcr) ==
      if r.pcr == pcr then RecordDigests(sha, rs, pcr) + [sha(r.contents)] else RecordDigests(sha, rs, pcr)
  {
    assert (rs + [r])[..|rs|] == rs;
  }

  lemma {:induction false} ReplayedDigests(sha: seq<Byte> -> seq<Byte>, rs: seq<Record>, pcr: nat)
    ensures Digests(ReplayEvents(AllDecoded(sha, rs)), pcr) == RecordDigests(sha, rs, pcr)
  {
    if rs != [] {
      var front := rs[..|rs| - 1];
      ReplayedDigests(sha, front, pcr);
      var all := ReplayEvents(AllDecoded(sha, rs));
      assert all[..|all| - 1] == ReplayEvents(AllDecoded(sha, front));
    }
  }

  lemma {:induction false} NoOtherDigests(sha: seq<Byte> -> seq<Byte>, rs: seq<Record>)
    requires OnlyKnownPcrs(rs)
    ensures RecordDigests(sha, rs, 4) == []
  {
    if rs != [] { NoOtherDigests(sha, rs[..|rs| - 1]); }
  }

  /** One event adds one digest to PCR 7, or none. */
  lemma {:induction false} EventDigests(sha: seq<Byte> -> seq<Byte>, env: Env, rs: seq<Record>, e: LogEvent)
    requires Usual(e) && RecordsOf(env, e).Some?
    ensures e.pcr == 7 ==> ValueOf(env, e).Some?
    ensures RecordDigests(sha, rs + RecordsOf(env, e).value, 7) ==
      if e.pcr == 7 then RecordDigests(sha, rs, 7) + [sha(ContentsOf(env, e))] else RecordDigests(sha, rs, 7)
  {
    var more := RecordsOf(env, e).value;
    if e.pcr == 7 {
      assert more == [Record(7, e.eventType, ContentsOf(env, e))];
      RecordDigestsSnoc(sha, rs, more[0], 7);
    } else if |more| == 2 {
      RecordDigestsSnoc(sha, rs, more[0], 7);
      RecordDigestsSnoc(sha, rs + [more[0]], more[1], 7);
      assert rs + more == rs + [more[0]] + [more[1]];
    } else if |more| == 1 {
      RecordDigestsSnoc(sha, rs, more[0], 7);
      assert more == [more[0]];
    } else {
      assert rs + more == rs;
    }
  }

  /** The hash of the event's contents is the same in both environments. */
  predicate SameHash(sha: seq<Byte> -> seq<Byte>, a: Env, b: Env, e: LogEvent) {
    ValueOf(a, e).Some? && ValueOf(b, e).Some? && sha(ContentsOf(a, e)) == sha(ContentsOf(b, e))
  }

  predicate SameHashes(sha: seq<Byte> -> seq<Byte>, a: Env, b: Env, events: seq<LogEvent>) {
    forall i :: 0 <= i < |events| && events[i].pcr == 7 ==> SameHash(sha, a, b, events[i])
  }

  /** The PCR 7 digests of the log of some events. */
  function LogDigests(sha: seq<Byte> -> seq<Byte>, env: Env, events: seq<LogEvent>): (ds: seq<seq<Byte>>)
    requires AllRecords(env, events).Some?
  {
    RecordDigests(sha, AllRecords(env, events).value, 7)
  }

  lemma {:induction false} LogDigestsSnoc(sha: seq<Byte> -> seq<Byte>, env: Env, front: seq<LogEvent>, e: LogEvent)
    requires Usual(e) && AllRecords(env, front + [e]).Some?
    ensures AllRecords(env, front).Some? && (e.pcr == 7 ==> ValueOf(env, e).Some?)
    ensures LogDigests(sha, env, front + [e]) ==
      if e.pcr == 7 then LogDigests(sha, env, front) + [sha(ContentsOf(env, e))] else LogDigests(sha, env, front)
  {
    assert (front + [e])[..|front|] == front;
    EventDigests(sha, env, AllRecords(env, front).value, e);
  }

  lemma {:induction false} SnocEqual<T>(x: seq<T>, p: T, y: seq<T>, q: T)
    requires |x| == |y|
    ensures x + [p] == y + [q] <==> x == y && p == q
  {
    assert (x + [p])[..|x|] == x && (y + [q])[..|y|] == y;
    assert (x + [p])[|x|] == p && (y + [q])[|y|] == q;
  }

  lemma {:induction false} SameDigests(sha: seq<Byte> -> seq<Byte>, a: Env, b: Env, events: seq<LogEvent>)
    requires (forall i :: 0 <= i < |events| ==> Usual(events[i])) && AllRecords(a, events).Some? && AllRecords(b, events).Some?
    ensures |LogDigests(sha, a, events)| == |LogDigests(sha, b, events)|
    ensures LogDigests(sha, a, events) == LogDigests(sha, b, events) <==> SameHashes(sha, a, b, events)
    decreases |events|
  {
    if events != [] {
      var front, e := events[..|events| - 1], events[|events| - 1];
      assert events == front + [e];
      LogDigestsSnoc(sha, a, front, e);
      LogDigestsSnoc(sha, b, front, e);
      SameDigests(sha, a, b, front);
      HashesSnoc(sha, a, b, front, e);
      if e.pcr == 7 {
        SnocEqual(LogDigests(sha, a, front), sha(ContentsOf(a, e)), LogDigests(sha, b, front), sha(ContentsOf(b, e)));
      }
    }
  }

  lemma {:induction false} HashesSnoc(sha: seq<Byte> -> seq<Byte>, a: Env, b: Env, front: seq<LogEvent>, e: LogEvent)
    ensures SameHashes(sha, a, b, front + [e]) <==> SameHashes(sha, a, b, front) && (e.pcr == 7 ==> SameHash(sha, a, b, e))
  {
    var all := front + [e];
    assert all[|front|] == e && forall i :: 0 <= i < |front| ==> all[i] == front[i];
    if SameHashes(sha, a, b, all) {
      forall i | 0 <= i < |front| && front[i].pcr == 7 ensures SameHash(sha, a, b, front[i]) { assert all[i] == front[i]; }
    }
  }

  /** Every variable that PCR 7 covers has the value it had, and so has the signing certificate. */
  predicate Unchanged(a: Env, b: Env) {
    forall i :: 0 <= i < |EVENTS| && EVENTS[i].pcr == 7 ==> ValueOf(a, EVENTS[i]) == ValueOf(b, EVENTS[i])
  }

  /** Two different contents of one event with one hash. */
  predicate HashCollision(sha: seq<Byte> -> seq<Byte>, a: Env, b: Env) {
    exists i :: 0 <= i < |EVENTS| && EVENTS[i].pcr == 7 && SameHash(sha, a, b, EVENTS[i])
      && ContentsOf(a, EVENTS[i]) != ContentsOf(b, EVENTS[i])
  }

  function ExtendBy(sha: seq<Byte> -> seq<Byte>): (f: (seq<Byte>, seq<Byte>) -> seq<Byte>) {
    (pcr, digest) => sha(pcr + digest)
  }

  const ZERO_PCR: seq<Byte> :=
    [0, 0, 0, 0, 0, 0, 0, 0, 0, 0, 0, 0, 0, 0, 0, 0, 0, 0, 0, 0, 0, 0, 0, 0, 0, 0, 0, 0, 0, 0, 0, 0]

  /** Walking the two digest sequences back comes upon a collision of the register extension, or
      a way back to the reset value. */
  predicate ExtendBroken(sha: seq<Byte> -> seq<Byte>, a: Env, b: Env)
    requires AllRecords(a, EVENTS).Some? && AllRecords(b, EVENTS).Some?
  {
    Comparison(sha, a, b) != Same && Genuine(ExtendBy(sha), ZERO_PCR, Comparison(sha, a, b))
  }

  function Comparison(sha: seq<Byte> -> seq<Byte>, a: Env, b: Env): (f: Finding<seq<Byte>>)
    requires AllRecords(a, EVENTS).Some? && AllRecords(b, EVENTS).Some?
  {
    Compared(ExtendBy(sha), ZERO_PCR, LogDigests(sha, a, EVENTS), LogDigests(sha, b, EVENTS))
  }

  lemma {:induction false} ContentsTell(sha: seq<Byte> -> seq<Byte>, a: Env, b: Env, e: LogEvent)
    requires Usual(e) && e.pcr == 7 && ValueOf(a, e).Some? && ValueOf(b, e).Some?
    ensures ContentsOf(a, e) == ContentsOf(b, e) <==> ValueOf(a, e) == ValueOf(b, e)
  {
    if e.eventType != SEPARATOR {
      VariableParts(e.name, ValueOf(a, e).value);
      VariableParts(e.name, ValueOf(b, e).value);
    }
  }

  /** Without a hash collision, the digests are the same exactly when nothing has changed. */
  lemma {:induction false} DigestsTell(sha: seq<Byte> -> seq<Byte>, a: Env, b: Env)
    requires AllRecords(a, EVENTS).Some? && AllRecords(b, EVENTS).Some?
    ensures Unchanged(a, b) ==> LogDigests(sha, a, EVENTS) == LogDigests(sha, b, EVENTS)
    ensures LogDigests(sha, a, EVENTS) == LogDigests(sha, b, EVENTS) && !HashCollision(sha, a, b) ==> Unchanged(a, b)
  {
    EventsAreUsual();
    SameDigests(sha, a, b, EVENTS);
    forall i | 0 <= i < |EVENTS| && EVENTS[i].pcr == 7
      ensures ValueOf(a, EVENTS[i]).Some? && ValueOf(b, EVENTS[i]).Some?
      ensures ContentsOf(a, EVENTS[i]) == ContentsOf(b, EVENTS[i]) <==> ValueOf(a, EVENTS[i]) == ValueOf(b, EVENTS[i])
    {
      EventRead(a, EVENTS, i);
      EventRead(b, EVENTS, i);
      ContentsTell(sha, a, b, EVENTS[i]);
    }
  }

  lemma {:induction false} EventRead(env: Env, events: seq<LogEvent>, i: nat)
    requires AllRecords(env, events).Some? && i < |events|
    ensures RecordsOf(env, events[i]).Some? && (Usual(events[i]) && events[i].pcr == 7 ==> ValueOf(env, events[i]).Some?)
    decreases |events|
  {
    if i < |events| - 1 { EventRead(env, events[..|events| - 1], i); }
  }

  /** Everything can be read, and fits the size fields. */
  predicate Readable(env: Env) {
    AllRecords(env, EVENTS).Some? && Sized(AllRecords(env, EVENTS).value)
  }

  /** The initrd measures the log it synthesizes into a reset TPM; the daemon later synthesizes
      the log again, replays that and compares. It validates if the variables PCR 7 covers are
      what they were, and otherwise only over a collision. */
  method BootWithSwtpm(sha: seq<Byte> -> seq<Byte>, boot: Env, later: Env, enterInitrd: seq<Byte>) returns (valid: Option<bool>)
    requires IsSha256(sha)
    ensures AllRecords(boot, EVENTS).None? || AllRecords(later, EVENTS).None? ==> valid == None
    ensures Readable(boot) && Readable(later) ==>
      && valid.Some?
      && (Unchanged(boot, later) ==> valid.value)
      && (valid.value ==> Unchanged(boot, later) || HashCollision(sha, boot, later) || ExtendBroken(sha, boot, later))
  {
    var log := SynthesizeTPMEventLog(sha, boot, EVENTS);
    if log.None? { return None; }
    var again := SynthesizeTPMEventLog(sha, later, EVENTS);
    if again.None? { return None; }
    ghost var sized := Readable(boot) && Readable(later);
    if sized {
      LogRoundTrip(sha, AllRecords(boot, EVENTS).value);
      LogRoundTrip(sha, AllRecords(later, EVENTS).value);
    }
    var measured := DecodeLog(log.value);
    var replayed := DecodeLog(again.value);
    if measured.None? || replayed.None? { return None; }
    var ok := MeasureThenReplay(sha, measured.value, replayed.value, enterInitrd);
    if sized { ReplayTells(sha, boot, later, measured.value, replayed.value); }
    valid := Some(ok);
  }

  method MeasureThenReplay(sha: seq<Byte> -> seq<Byte>, measured: seq<Decoded>, replayed: seq<Decoded>, enterInitrd: seq<Byte>)
    returns (valid: bool)
    ensures valid <==>
      && (forall i :: 0 <= i < |measured| ==> measured[i].pcr < 24)
      && Measured(ExtendBy(sha), ZERO_PCR, ReplayEvents(measured), 4) == Measured(ExtendBy(sha), ZERO_PCR, ReplayEvents(replayed), 4)
      && Measured(ExtendBy(sha), ZERO_PCR, ReplayEvents(measured), 7) == Measured(ExtendBy(sha), ZERO_PCR, ReplayEvents(replayed), 7)
  {
    var events := ReplayEvents(measured);
    var tpm := new seq<Byte>[24](i => ZERO_PCR);
    valid := MeasurePCRs(ExtendBy(sha), tpm, events, enterInitrd);
    assert valid <==> forall i :: 0 <= i < |measured| ==> measured[i].pcr < 24 by {
      assert forall i :: 0 <= i < |measured| ==> events[i].pcr == measured[i].pcr;
    }
    if valid {
      valid := ValidateEventLog(ExtendBy(sha), ZERO_PCR, ReplayEvents(replayed), tpm[4], tpm[7]);
    }
  }

  lemma {:induction false} ReplayTells(sha: seq<Byte> -> seq<Byte>, boot: Env, later: Env, measured: seq<Decoded>, replayed: seq<Decoded>)
    requires AllRecords(boot, EVENTS).Some? && measured == AllDecoded(sha, AllRecords(boot, EVENTS).value)
    requires AllRecords(later, EVENTS).Some? && replayed == AllDecoded(sha, AllRecords(later, EVENTS).value)
    ensures forall i :: 0 <= i < |measured| ==> measured[i].pcr < 24
    ensures
      var same := Measured(ExtendBy(sha), ZERO_PCR, ReplayEvents(measured), 7) == Measured(ExtendBy(sha), ZERO_PCR, ReplayEvents(replayed), 7);
      && Measured(ExtendBy(sha), ZERO_PCR, ReplayEvents(measured), 4) == Measured(ExtendBy(sha), ZERO_PCR, ReplayEvents(replayed), 4)
      && (Unchanged(boot, later) ==> same)
      && (same ==> Unchanged(boot, later) || HashCollision(sha, boot, later) || ExtendBroken(sha, boot, later))
  {
    var a, b := AllRecords(boot, EVENTS).value, AllRecords(later, EVENTS).value;
    EventPcrs();
    SynthesizedPcrs(boot, EVENTS);
    SynthesizedPcrs(later, EVENTS);
    NoOtherDigests(sha, a);
    NoOtherDigests(sha, b);
    ReplayedDigests(sha, a, 4);
    ReplayedDigests(sha, b, 4);
    ReplayedDigests(sha, a, 7);
    ReplayedDigests(sha, b, 7);
    DigestsTell(sha, boot, later);
    if Extended(ExtendBy(sha), ZERO_PCR, LogDigests(sha, boot, EVENTS)) == Extended(ExtendBy(sha), ZERO_PCR, LogDigests(sha, later, EVENTS)) {
      SameValueSameDigests(ExtendBy(sha), ZERO_PCR, LogDigests(sha, boot, EVENTS), LogDigests(sha, later, EVENTS));
    }
  }

  // ----- what is in the log, event by event

  /** The PE sections measured into PCR 11, in this order. */
  const SECTIONS: seq<string> := [".linux", ".osrel", ".cmdline", ".initrd", ".ucode", ".uname", ".sbat", ".pcrpkey"]

  /** A section is measured unless it is the microcode and the machine is not amd64. */
  predicate IsMeasured(name: string, amd64: bool) {
    amd64 || name != ".ucode"
  }

  /** Everything the log needs of the sections can be read. */
  predicate SectionsRead(env: Env, names: seq<string>) {
    forall i :: 0 <= i < |names| && IsMeasured(names[i], env.amd64) ==> env.section(names[i]).Some?
  }

  /** The hashes of the sections: for each, that of its name with a NUL, then that of its contents. */
  function SectionHashes(sha: seq<Byte> -> seq<Byte>, env: Env, names: seq<string>): (hs: seq<seq<Byte>>)
    requires SectionsRead(env, names)
  {
    if names == [] then []
    else
      var front, name := names[..|names| - 1], names[|names| - 1];
      SectionHashes(sha, env, front)
      + (if IsMeasured(name, env.amd64) then [sha(Ascii(name) + [0]), sha(env.section(name).value)] else [])
  }

  lemma {:induction false} AsciiBytes(s: string, i: nat)
    requires IsAscii(s) && i < |s|
    ensures |Ascii(s)| == |s| && Ascii(s)[i] == s[i] as int
  {
  }

  /** `n` events for PCR 7, then the sections for PCR 11. */
  predicate Listed(events: seq<LogEvent>, n: nat, sections: seq<string>) {
    && |events| == n + |sections|
    && (forall i :: 0 <= i < n ==> events[i].pcr == 7 && Usual(events[i]))
    && (forall i :: n <= i < |events| ==> events[i] == LogEvent(sections[i - n], 11, IPL))
  }

  lemma {:induction false} EventList()
    ensures Listed(EVENTS, 7, SECTIONS)
  {
  }

  lemma {:induction false} RecordsPrefix(env: Env, events: seq<LogEvent>, k: nat)
    requires k <= |events| && AllRecords(env, events).Some?
    ensures AllRecords(env, events[..k]).Some?
    decreases |events|
  {
    if k < |events| {
      RecordsPrefix(env, events[..|events| - 1], k);
      assert events[..|events| - 1][..k] == events[..k];
    } else {
      assert events[..k] == events;
    }
  }

  /** The PCR 11 digests of the log of some events. */
  function SectionLog(sha: seq<Byte> -> seq<Byte>, env: Env, events: seq<LogEvent>): (ds: seq<seq<Byte>>)
    requires AllRecords(env, events).Some?
  {
    RecordDigests(sha, AllRecords(env, events).value, 11)
  }

  lemma {:induction false} NextSection(sha: seq<Byte> -> seq<Byte>, env: Env, events: seq<LogEvent>, m: nat, name: string)
    requires m < |events| && AllRecords(env, events).Some? && events[m] == LogEvent(name, 11, IPL)
    ensures AllRecords(env, events[..m]).Some? && AllRecords(env, events[..m + 1]).Some?
    ensures IsMeasured(name, env.amd64) ==> env.section(name).Some?
    ensures SectionLog(sha, env, events[..m + 1]) == SectionLog(sha, env, events[..m])
      + if IsMeasured(name, env.amd64) then [sha(Ascii(name) + [0]), sha(env.section(name).value)] else []
  {
    RecordsPrefix(env, events, m + 1);
    RecordsSnoc(env, events, m);
    SectionDigests(sha, env, AllRecords(env, events[..m]).value, name);
  }

  /** The PCR 11 digests of some events are the hashes of some sections. */
  predicate Logged(sha: seq<Byte> -> seq<Byte>, env: Env, events: seq<LogEvent>, sections: seq<string>) {
    AllRecords(env, events).Some? && SectionsRead(env, sections) && SectionLog(sha, env, events) == SectionHashes(sha, env, sections)
  }

  lemma {:induction false} LoggedNext(sha: seq<Byte> -> seq<Byte>, env: Env, events: seq<LogEvent>, m: nat, front: seq<string>, name: string)
    requires m < |events| && AllRecords(env, events).Some? && events[m] == LogEvent(name, 11, IPL)
    requires Logged(sha, env, events[..m], front)
    ensures Logged(sha, env, events[..m + 1], front + [name])
  {
    NextSection(sha, env, events, m, name);
    SectionHashesSnoc(sha, env, front, name);
  }

  lemma {:induction false} LoggedNone(sha: seq<Byte> -> seq<Byte>, env: Env, events: seq<LogEvent>)
    requires AllRecords(env, events).Some? && forall i :: 0 <= i < |events| ==> events[i].pcr == 7
    ensures Logged(sha, env, events, [])
  {
    VariablesOnly(sha, env, events);
  }

  lemma {:induction false} DigestsSoFar(sha: seq<Byte> -> seq<Byte>, env: Env, events: seq<LogEvent>, n: nat, sections: seq<string>, k: nat)
    requires k <= |sections| && Listed(events, n, sections) && AllRecords(env, events).Some?
    ensures LoggedTo(sha, env, events, n + k, sections, k)
  {
    if k == 0 {
      RecordsPrefix(env, events, n);
      LoggedNone(sha, env, events[..n]);
      assert sections[..0] == [];
    } else {
      DigestsSoFar(sha, env, events, n, sections, k - 1);
      LoggedStep(sha, env, events, n + k - 1, sections, k - 1);
    }
  }

  predicate LoggedTo(sha: seq<Byte> -> seq<Byte>, env: Env, events: seq<LogEvent>, m: nat, sections: seq<string>, k: nat) {
    m <= |events| && k <= |sections| && Logged(sha, env, events[..m], sections[..k])
  }

  lemma {:induction false} LoggedStep(sha: seq<Byte> -> seq<Byte>, env: Env, events: seq<LogEvent>, m: nat, sections: seq<string>, k: nat)
    requires m < |events| && k < |sections| && AllRecords(env, events).Some? && events[m] == LogEvent(sections[k], 11, IPL)
    requires LoggedTo(sha, env, events, m, sections, k)
    ensures LoggedTo(sha, env, events, m + 1, sections, k + 1)
  {
    LoggedNext(sha, env, events, m, sections[..k], sections[k]);
    assert sections[..k + 1] == sections[..k] + [sections[k]];
  }

  lemma {:induction false} SectionHashesSnoc(sha: seq<Byte> -> seq<Byte>, env: Env, front: seq<string>, name: string)
    requires SectionsRead(env, front) && (IsMeasured(name, env.amd64) ==> env.section(name).Some?)
    ensures SectionsRead(env, front + [name])
    ensures SectionHashes(sha, env, front + [name]) == SectionHashes(sha, env, front)
      + if IsMeasured(name, env.amd64) then [sha(Ascii(name) + [0]), sha(env.section(name).value)] else []
  {
    var names := front + [name];
    assert forall i :: 0 <= i < |front| ==> names[i] == front[i];
    assert names[..|front|] == front && names[|front|] == name;
  }

  /** One section adds its two digests, or none. */
  lemma {:induction false} SectionDigests(sha: seq<Byte> -> seq<Byte>, env: Env, rs: seq<Record>, name: string)
    requires RecordsOf(env, LogEvent(name, 11, IPL)).Some?
    ensures IsMeasured(name, env.amd64) ==> env.section(name).Some?
    ensures RecordDigests(sha, rs + RecordsOf(env, LogEvent(name, 11, IPL)).value, 11) == RecordDigests(sha, rs, 11)
      + if IsMeasured(name, env.amd64) then [sha(Ascii(name) + [0]), sha(env.section(name).value)] else []
  {
    var more := RecordsOf(env, LogEvent(name, 11, IPL)).value;
    if IsMeasured(name, env.amd64) {
      var a, b := more[0], more[1];
      RecordDigestsSnoc(sha, rs, a, 11);
      RecordDigestsSnoc(sha, rs + [a], b, 11);
      assert rs + more == rs + [a] + [b];
    } else {
      assert rs + more == rs;
      assert RecordDigests(sha, rs, 11) + [] == RecordDigests(sha, rs, 11);
    }
  }

  lemma {:induction false} VariablesOnly(sha: seq<Byte> -> seq<Byte>, env: Env, events: seq<LogEvent>)
    requires AllRecords(env, events).Some? && forall i :: 0 <= i < |events| ==> events[i].pcr == 7
    ensures RecordDigests(sha, AllRecords(env, events).value, 11) == []
    decreases |events|
  {
    if events != [] {
      var front, e := events[..|events| - 1], events[|events| - 1];
      VariablesOnly(sha, env, front);
      OthersDoNotCount(sha, AllRecords(env, front).value, RecordsOf(env, e).value, 11);
    }
  }

  lemma {:induction false} OthersDoNotCount(sha: seq<Byte> -> seq<Byte>, rs: seq<Record>, more: seq<Record>, pcr: nat)
    requires forall i :: 0 <= i < |more| ==> more[i].pcr != pcr
    ensures RecordDigests(sha, rs + more, pcr) == RecordDigests(sha, rs, pcr)
    decreases |more|
  {
    if more == [] {
      assert rs + more == rs;
    } else {
      var front, r := more[..|more| - 1], more[|more| - 1];
      OthersDoNotCount(sha, rs, front, pcr);
      RecordDigestsSnoc(sha, rs + front, r, pcr);
      assert rs + more == rs + front + [r];
    }
  }

  lemma {:induction false} AllDigests(sha: seq<Byte> -> seq<Byte>, env: Env, events: seq<LogEvent>, n: nat, sections: seq<string>)
    requires Listed(events, n, sections) && AllRecords(env, events).Some?
    ensures SectionsRead(env, sections)
    ensures RecordDigests(sha, AllRecords(env, events).value, 11) == SectionHashes(sha, env, sections)
  {
    DigestsSoFar(sha, env, events, n, sections, |sections|);
    assert events[..n + |sections|] == events && sections[..|sections|] == sections;
  }

  /** PCR 11 gets, section by section, the hash of the name with its NUL and then the hash of the
      contents; the microcode section only on amd64. */
  lemma {:induction false} SectionsAreMeasured(sha: seq<Byte> -> seq<Byte>, env: Env)
    requires AllRecords(env, EVENTS).Some?
    ensures SectionsRead(env, SECTIONS)
    ensures RecordDigests(sha, AllRecords(env, EVENTS).value, 11) == SectionHashes(sha, env, SECTIONS)
  {
    EventList();
    AllDigests(sha, env, EVENTS, 7, SECTIONS);
  }

  /** A digest of a variable as it is measured. */
  predicate IsVariableDigest(sha: seq<Byte> -> seq<Byte>, env: Env, name: string, h: seq<Byte>) {
    env.variable(name).Some? && h == sha(VariableData(name, env.variable(name).value))
  }

  /** A digest of the signing certificate found in a variable. */
  predicate IsAuthorityDigest(sha: seq<Byte> -> seq<Byte>, env: Env, name: string, h: seq<Byte>) {
    && env.variable(name).Some? && env.signingCert(env.variable(name).value).Some?
    && h == sha(VariableData(name, env.signingCert(env.variable(name).value).value))
  }

  /** PCR 7 gets SecureBoot, PK, KEK, db and dbx, a separator, and the signing certificate of db. */
  lemma {:induction false} VariablesAreMeasured(sha: seq<Byte> -> seq<Byte>, env: Env)
    requires AllRecords(env, EVENTS).Some?
    ensures var d := LogDigests(sha, env, EVENTS);
      && |d| == 7
      && IsVariableDigest(sha, env, "SecureBoot", d[0]) && IsVariableDigest(sha, env, "PK", d[1])
      && IsVariableDigest(sha, env, "KEK", d[2]) && IsVariableDigest(sha, env, "db", d[3])
      && IsVariableDigest(sha, env, "dbx", d[4]) && d[5] == sha([0, 0, 0, 0])
      && IsAuthorityDigest(sha, env, "db", d[6])
  {
    EventList();
    VariableDigests(sha, env, EVENTS, 7, SECTIONS);
    FirstEvents(sha, env, EVENTS, LogDigests(sha, env, EVENTS));
  }

  /** The digest of one event. */
  predicate DigestIs(sha: seq<Byte> -> seq<Byte>, env: Env, e: LogEvent, h: seq<Byte>) {
    ValueOf(env, e).Some? && h == sha(ContentsOf(env, e))
  }

  predicate Leads(sha: seq<Byte> -> seq<Byte>, env: Env, events: seq<LogEvent>, ds: seq<seq<Byte>>) {
    |ds| <= |events| && forall i :: 0 <= i < |ds| ==> DigestIs(sha, env, events[i], ds[i])
  }

  lemma {:induction false} FirstEvents(sha: seq<Byte> -> seq<Byte>, env: Env, events: seq<LogEvent>, d: seq<seq<Byte>>)
    requires events == EVENTS && |d| == 7 && Leads(sha, env, events, d)
    ensures IsVariableDigest(sha, env, "SecureBoot", d[0]) && IsVariableDigest(sha, env, "PK", d[1])
    ensures IsVariableDigest(sha, env, "KEK", d[2]) && IsVariableDigest(sha, env, "db", d[3]) && IsVariableDigest(sha, env, "dbx", d[4])
    ensures d[5] == sha([0, 0, 0, 0]) && IsAuthorityDigest(sha, env, "db", d[6])
  {
    EventNames();
    assert DigestIs(sha, env, events[0], d[0]) && DigestIs(sha, env, events[1], d[1]) && DigestIs(sha, env, events[2], d[2]);
    assert DigestIs(sha, env, events[3], d[3]) && DigestIs(sha, env, events[4], d[4]);
    assert DigestIs(sha, env, events[5], d[5]) && DigestIs(sha, env, events[6], d[6]);
  }

  lemma {:induction false} EventNames()
    ensures EVENTS[0] == LogEvent("SecureBoot", 7, 0x8000_0001) && EVENTS[1] == LogEvent("PK", 7, 0x8000_0001)
    ensures EVENTS[2] == LogEvent("KEK", 7, 0x8000_0001) && EVENTS[3] == LogEvent("db", 7, 0x8000_0001)
    ensures EVENTS[4] == LogEvent("dbx", 7, 0x8000_0001) && EVENTS[5] == LogEvent("", 7, 4)
    ensures EVENTS[6] == LogEvent("db", 7, 0x8000_00E0)
  {
  }

  lemma {:induction false} VariableDigests(sha: seq<Byte> -> seq<Byte>, env: Env, events: seq<LogEvent>, n: nat, sections: seq<string>)
    requires Listed(events, n, sections) && AllRecords(env, events).Some?
    ensures |LogDigests(sha, env, events)| == n && Leads(sha, env, events, LogDigests(sha, env, events))
  {
    LeadingDigests(sha, env, events, n);
    TrailingSections(sha, env, events, n, |events|);
    assert events[..|events|] == events;
  }

  /** One more event. */
  lemma {:induction false} NextDigest(sha: seq<Byte> -> seq<Byte>, env: Env, events: seq<LogEvent>, k: nat)
    requires k < |events| && Usual(events[k]) && AllRecords(env, events).Some?
    ensures AllRecords(env, events[..k]).Some? && AllRecords(env, events[..k + 1]).Some?
    ensures events[k].pcr == 7 ==> ValueOf(env, events[k]).Some?
    ensures LogDigests(sha, env, events[..k + 1]) == if events[k].pcr == 7
      then LogDigests(sha, env, events[..k]) + [sha(ContentsOf(env, events[k]))] else LogDigests(sha, env, events[..k])
  {
    RecordsPrefix(env, events, k + 1);
    assert events[..k + 1] == events[..k] + [events[k]];
    LogDigestsSnoc(sha, env, events[..k], events[k]);
  }

  lemma {:induction false} LeadingDigests(sha: seq<Byte> -> seq<Byte>, env: Env, events: seq<LogEvent>, k: nat)
    requires k <= |events| && AllRecords(env, events).Some? && forall i :: 0 <= i < k ==> events[i].pcr == 7 && Usual(events[i])
    ensures AllRecords(env, events[..k]).Some? && |LogDigests(sha, env, events[..k])| == k
    ensures Leads(sha, env, events, LogDigests(sha, env, events[..k]))
  {
    if k == 0 {
      assert events[..0] == [];
    } else {
      LeadingDigests(sha, env, events, k - 1);
      NextDigest(sha, env, events, k - 1);
      LeadsSnoc(sha, env, events, LogDigests(sha, env, events[..k - 1]), sha(ContentsOf(env, events[k - 1])));
    }
  }

  lemma {:induction false} LeadsSnoc(sha: seq<Byte> -> seq<Byte>, env: Env, events: seq<LogEvent>, ds: seq<seq<Byte>>, h: seq<Byte>)
    requires |ds| < |events| && Leads(sha, env, events, ds) && DigestIs(sha, env, events[|ds|], h)
    ensures Leads(sha, env, events, ds + [h])
  {
  }

  lemma {:induction false} TrailingSections(sha: seq<Byte> -> seq<Byte>, env: Env, events: seq<LogEvent>, n: nat, k: nat)
    requires n <= k <= |events| && AllRecords(env, events).Some? && forall i :: n <= i < |events| ==> events[i].pcr == 11
    ensures AllRecords(env, events[..k]).Some? && AllRecords(env, events[..n]).Some?
    ensures LogDigests(sha, env, events[..k]) == LogDigests(sha, env, events[..n])
  {
    if k > n {
      TrailingSections(sha, env, events, n, k - 1);
      NextDigest(sha, env, events, k - 1);
    } else {
      RecordsPrefix(env, events, n);
    }
  }

  /** What an event needs can be read. */
  predicate CanRead(env: Env, e: LogEvent) {
    if e.eventType == 0x8000_0001 then env.variable(e.name).Some?
    else if e.eventType == 0x8000_00E0 then env.variable(e.name).Some? && env.signingCert(env.variable(e.name).value).Some?
    else if e.eventType == 0xD then IsMeasured(e.name, env.amd64) ==> env.section(e.name).Some?
    else e.eventType == 4
  }

  lemma {:induction false} OneReads(env: Env, e: LogEvent)
    ensures RecordsOf(env, e).Some? <==> CanRead(env, e)
  {
  }

  predicate AllRead(env: Env, events: seq<LogEvent>) {
    forall i :: 0 <= i < |events| ==> CanRead(env, events[i])
  }

  lemma {:induction false} AllOrNothing(env: Env, events: seq<LogEvent>)
    ensures AllRecords(env, events).Some? <==> AllRead(env, events)
    decreases |events|
  {
    if events != [] {
      var front := events[..|events| - 1];
      AllOrNothing(env, front);
      OneReads(env, events[|events| - 1]);
      assert forall i :: 0 <= i < |front| ==> front[i] == events[i];
    }
  }

  predicate VariablesRead(env: Env) {
    && env.variable("SecureBoot").Some? && env.variable("PK").Some? && env.variable("KEK").Some?
    && env.variable("db").Some? && env.variable("dbx").Some? && env.signingCert(env.variable("db").value).Some?
  }

  /** A log is synthesized exactly when the five variables, the signing certificate in db and every
      measured section can be read. */
  lemma {:induction false} SynthesisSucceeds(env: Env)
    ensures AllRecords(env, EVENTS).Some? <==> VariablesRead(env) && SectionsRead(env, SECTIONS)
  {
    AllOrNothing(env, EVENTS);
    EventNames();
    EventList();
    ReadsSplit(env, EVENTS, SECTIONS);
  }

  lemma {:induction false} ReadsSplit(env: Env, events: seq<LogEvent>, sections: seq<string>)
    requires Listed(events, 7, sections)
    requires events[0] == LogEvent("SecureBoot", 7, 0x8000_0001) && events[1] == LogEvent("PK", 7, 0x8000_0001)
    requires events[2] == LogEvent("KEK", 7, 0x8000_0001) && events[3] == LogEvent("db", 7, 0x8000_0001)
    requires events[4] == LogEvent("dbx", 7, 0x8000_0001) && events[5] == LogEvent("", 7, 4) && events[6] == LogEvent("db", 7, 0x8000_00E0)
    ensures AllRead(env, events) <==> VariablesRead(env) && SectionsRead(env, sections)
  {
    if AllRead(env, events) {
      assert CanRead(env, events[0]) && CanRead(env, events[1]) && CanRead(env, events[2]) && CanRead(env, events[3]);
      assert CanRead(env, events[4]) && CanRead(env, events[6]);
      forall i | 0 <= i < |sections| && IsMeasured(sections[i], env.amd64) ensures env.section(sections[i]).Some? {
        assert CanRead(env, events[7 + i]);
      }
    }
    if VariablesRead(env) && SectionsRead(env, sections) {
      forall i | 0 <= i < |events| ensures CanRead(env, events[i]) {
        if i >= 7 { assert events[i] == LogEvent(sections[i - 7], 11, IPL); }
      }
    }
  }

  /** Two different contents of one section with one hash. */
  predicate SectionCollision(sha: seq<Byte> -> seq<Byte>, a: Env, b: Env, names: seq<string>) {
    exists i :: 0 <= i < |names| && CollideIn(sha, a, b, names[i])
  }

  predicate CollideIn(sha: seq<Byte> -> seq<Byte>, a: Env, b: Env, name: string) {
    && a.section(name).Some? && b.section(name).Some?
    && a.section(name) != b.section(name) && sha(a.section(name).value) == sha(b.section(name).value)
  }

  predicate SameSections(a: Env, b: Env, names: seq<string>) {
    forall i :: 0 <= i < |names| && IsMeasured(names[i], a.amd64) ==> a.section(names[i]) == b.section(names[i])
  }

  lemma {:induction false} TwoMore(x: seq<seq<Byte>>, y: seq<seq<Byte>>, p: seq<Byte>, q: seq<Byte>, w: seq<Byte>)
    requires |x| == |y|
    ensures x + [p, q] == y + [p, w] <==> x == y && q == w
  {
    assert x + [p, q] == (x + [p]) + [q] && y + [p, w] == (y + [p]) + [w];
    SnocEqual(x + [p], q, y + [p], w);
    SnocEqual(x, p, y, p);
  }

  lemma {:induction false} SectionsSnoc(sha: seq<Byte> -> seq<Byte>, a: Env, b: Env, front: seq<string>, name: string)
    ensures SameSections(a, b, front + [name]) <==> SameSections(a, b, front) && (IsMeasured(name, a.amd64) ==> a.section(name) == b.section(name))
    ensures SectionCollision(sha, a, b, front) ==> SectionCollision(sha, a, b, front + [name])
    ensures CollideIn(sha, a, b, name) ==> SectionCollision(sha, a, b, front + [name])
  {
    var names := front + [name];
    assert names[|front|] == name && forall i :: 0 <= i < |front| ==> names[i] == front[i];
    if SameSections(a, b, names) {
      forall i | 0 <= i < |front| && IsMeasured(front[i], a.amd64) ensures a.section(front[i]) == b.section(front[i]) {
        assert names[i] == front[i];
      }
    }
    if SectionCollision(sha, a, b, front) {
      var i :| 0 <= i < |front| && CollideIn(sha, a, b, front[i]);
      assert names[i] == front[i];
    }
  }

  lemma {:induction false} HashesTell(sha: seq<Byte> -> seq<Byte>, a: Env, b: Env, names: seq<string>)
    requires a.amd64 == b.amd64 && SectionsRead(a, names) && SectionsRead(b, names)
    ensures |SectionHashes(sha, a, names)| == |SectionHashes(sha, b, names)|
    ensures SameSections(a, b, names) ==> SectionHashes(sha, a, names) == SectionHashes(sha, b, names)
    ensures SectionHashes(sha, a, names) == SectionHashes(sha, b, names) && !SectionCollision(sha, a, b, names) ==> SameSections(a, b, names)
    decreases |names|
  {
    if names != [] {
      var front, name := names[..|names| - 1], names[|names| - 1];
      assert names == front + [name];
      assert forall i :: 0 <= i < |front| ==> front[i] == names[i];
      HashesTell(sha, a, b, front);
      SectionHashesSnoc(sha, a, front, name);
      SectionHashesSnoc(sha, b, front, name);
      SectionsSnoc(sha, a, b, front, name);
      if IsMeasured(name, a.amd64) {
        TwoMore(SectionHashes(sha, a, front), SectionHashes(sha, b, front), sha(Ascii(name) + [0]),
                sha(a.section(name).value), sha(b.section(name).value));
      } else {
        assert SectionHashes(sha, a, front) + [] == SectionHashes(sha, a, front);
        assert SectionHashes(sha, b, front) + [] == SectionHashes(sha, b, front);
      }
    }
  }

  /** Without a hash collision, PCR 11 is the same for two boots exactly when every measured section is;
      for any list of variables followed by sections. */
  lemma {:induction false} SectionDigestsTell(sha: seq<Byte> -> seq<Byte>, a: Env, b: Env, events: seq<LogEvent>, n: nat, sections: seq<string>)
    requires Listed(events, n, sections) && AllRecords(a, events).Some? && AllRecords(b, events).Some? && a.amd64 == b.amd64
    ensures SameSections(a, b, sections) ==> SectionLog(sha, a, events) == SectionLog(sha, b, events)
    ensures SectionLog(sha, a, events) == SectionLog(sha, b, events) && !SectionCollision(sha, a, b, sections) ==>
      SameSections(a, b, sections)
  {
    AllDigests(sha, a, events, n, sections);
    AllDigests(sha, b, events, n, sections);
    HashesTell(sha, a, b, sections);
  }

  /** The GUID that leads a measured variable: the image security database's for db and dbx, the
      global one for the others. */
  lemma {:induction false} VariableGuid(name: string, value: seq<Byte>)
    ensures var g := VariableData(name, value)[..16];
      if name == "db" || name == "dbx" then
        Le32(g) == 0xd719b2cb && g[4..] == [0x3a, 0x3d, 0x96, 0x45, 0xa3, 0xbc, 0xda, 0xd0, 0x0e, 0x67, 0x65, 0x6f]
      else
        Le32(g) == 0x8be4df61 && g[4..] == [0xca, 0x93, 0xd2, 0x11, 0xaa, 0x0d, 0x00, 0xe0, 0x98, 0x03, 0x2b, 0x8c]
  {
    var guid := if name == "db" || name == "dbx" then DATABASE_GUID else GLOBAL_GUID;
    assert VariableData(name, value)[..16] == guid;
  }

  /** The fields of the log's header; its size field counts the bytes after it. */
  lemma {:induction false} HeaderFields()
    ensures var b := LogHeader();
      && |b| == 65 && Le32(b) == 0 && Le32(b[4..]) == 3 && (forall i :: 8 <= i < 28 ==> b[i] == 0)
      && Le32(b[28..]) == |b| - 32
      && b[32..48] == Ascii("Spec ID Event03") + [0] && Le32(b[48..]) == 0 && b[52..56] == [0, 2, 0, 2]
      && Le32(b[56..]) == 1 && b[60..] == [0x0B, 0, 32, 0, 0]
  {
    HeaderParts(PutLe32(0), PutLe32(NO_ACTION), seq(20, i => 0), PutLe32(33),
                [0x53, 0x70, 0x65, 0x63, 0x20, 0x49, 0x44, 0x20, 0x45, 0x76, 0x65, 0x6e, 0x74, 0x30, 0x33, 0x00], PutLe32(0), PutLe32(1));
    SpecId();
  }

  lemma {:induction false} SpecId()
    ensures Ascii("Spec ID Event03") + [0] ==
      [0x53, 0x70, 0x65, 0x63, 0x20, 0x49, 0x44, 0x20, 0x45, 0x76, 0x65, 0x6e, 0x74, 0x30, 0x33, 0x00]
  {
  }

  lemma {:induction false} HeaderParts(a: seq<Byte>, b: seq<Byte>, c: seq<Byte>, d: seq<Byte>, e: seq<Byte>, f: seq<Byte>, g: seq<Byte>)
    requires |a| == |b| == |d| == |f| == |g| == 4 && |c| == 20 && |e| == 16
    ensures var h := a + b + c + d + e + f + [0, 2, 0, 2] + g + [0x0B, 0x00] + [32, 0] + [0];
      && |h| == 65 && h[..4] == a && h[4..8] == b && h[8..28] == c && h[28..32] == d && h[32..48] == e && h[48..52] == f
      && h[52..56] == [0, 2, 0, 2] && h[56..60] == g && h[60..] == [0x0B, 0, 32, 0, 0]
      && Le32(h) == Le32(a) && Le32(h[4..]) == Le32(b) && Le32(h[28..]) == Le32(d) && Le32(h[48..]) == Le32(f) && Le32(h[56..]) == Le32(g)
  {
  }

  lemma {:induction false} Utf16Bytes(s: string, i: nat)
    requires IsAscii(s) && i < |s|
    ensures |Utf16(s)| == 2 * |s| && Utf16(s)[2 * i] == s[i] as int && Utf16(s)[2 * i + 1] == 0
  {
    if i > 0 {
      Utf16Bytes(s[1..], i - 1);
      assert Utf16(s)[2..] == Utf16(s[1..]);
      assert Utf16(s)[2 * i] == Utf16(s)[2..][2 * (i - 1)] && Utf16(s)[2 * i + 1] == Utf16(s)[2..][2 * (i - 1) + 1];
    }
  }

  lemma {:induction false} Le64Bytes(n: nat)
    requires n < TWO32
    ensures Le32(PutLe64(n)) == n && PutLe64(n)[4..] == [0, 0, 0, 0]
  {
    assert n / TWO32 % TWO32 == 0;
    assert PutLe64(n)[4..] == PutLe32(0);
  }

  /** The fields of a measured variable, byte by byte: after the GUID, the lengths of name and value
      in 64 bits, the name in 16-bit characters, and the value. */
  lemma {:induction false} VariableFields(name: string, value: seq<Byte>, i: nat)
    requires IsAscii(name) && |name| < TWO32 && |value| < TWO32
    ensures var b := VariableData(name, value);
      && Le32(b[16..]) == |name| && b[20..24] == [0, 0, 0, 0] && Le32(b[24..]) == |value| && b[28..32] == [0, 0, 0, 0]
      && (i < |name| ==> b[32 + 2 * i] == name[i] as int && b[33 + 2 * i] == 0)
      && b[32 + 2 * |name|..] == value
  {
    VariableParts(name, value);
    VariableSize(name, value);
    var b := VariableData(name, value);
    Le64Bytes(|name|);
    Le64Bytes(|value|);
    assert b[16..][..8] == PutLe64(|name|) && b[24..][..8] == PutLe64(|value|);
    assert b[20..24] == PutLe64(|name|)[4..] && b[28..32] == PutLe64(|value|)[4..];
    if i < |name| {
      Utf16Bytes(name, i);
      var u := b[32..32 + 2 * |name|];
      assert u[2 * i] == b[32 + 2 * i] && u[2 * i + 1] == b[33 + 2 * i];
    }
  }

  lemma {:induction false} VariableSize(name: string, value: seq<Byte>)
    ensures |VariableData(name, value)| >= 32 && VariableData(name, value)[24..32] == PutLe64(|value|)
  {
    var guid := if name == "db" || name == "dbx" then DATABASE_GUID else GLOBAL_GUID;
    FourParts(guid, PutLe64(|name|), PutLe64(|value|), Utf16(name) + value);
  }

  lemma {:induction false} FourParts(a: seq<Byte>, b: seq<Byte>, c: seq<Byte>, d: seq<Byte>)
    ensures var all := a + (b + (c + d)); var n := |a| + |b|;
      |all| == n + |c| + |d| && all[n..n + |c|] == c
  {
    var all := a + (b + (c + d));
    assert all == (a + b) + (c + d);
  }
}
