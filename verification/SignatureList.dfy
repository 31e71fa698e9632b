/**
 The EFI signature-list parser (internal/secureboot/certificates.go), over the format
 of section 32.4.1 of the UEFI Specification.

 `ParseEfiSignatureList` is the nested reader loop of the source, with its uint32
 arithmetic written out. `Parsed` is the same reading as a recursive function. The
 format itself is defined independently by `ValidList` and `EncodeAll`, and
 `ParserIsExact` says that the parser accepts precisely the encodings of valid lists.
 */
module SignatureList {
  import opened Bytes

  const MAX_DATA_LEN := 1024 * 1024
  const HEADER_LEN := 28
  const GUID_LEN := 16

  const CERT_X509: seq<Byte> :=
    [0xa1, 0x59, 0xc0, 0xa5, 0xe4, 0x94, 0xa7, 0x4a, 0x87, 0xb5, 0xab, 0x15, 0x5c, 0x2b, 0xf0, 0x72]
  const CERT_X509_SHA256: seq<Byte> :=
    [0x92, 0xa4, 0xd2, 0x3b, 0xc0, 0x96, 0x79, 0x40, 0xb4, 0x20, 0xfc, 0xf9, 0x8e, 0xf1, 0x03, 0xed]
  const CERT_X509_SHA384: seq<Byte> :=
    [0x6e, 0x87, 0x76, 0x70, 0xc2, 0x80, 0xe6, 0x4e, 0xaa, 0xd2, 0x28, 0xb3, 0x49, 0xa6, 0x86, 0x5b]
  const CERT_X509_SHA512: seq<Byte> :=
    [0x63, 0xbf, 0x6d, 0x44, 0x02, 0x25, 0xda, 0x4c, 0xbc, 0xfa, 0x24, 0x65, 0xd2, 0xb0, 0xfe, 0x9d]
  const HASH_SHA1: seq<Byte> :=
    [0x12, 0xa5, 0x6c, 0x82, 0x10, 0xcf, 0xc9, 0x4a, 0xb1, 0x87, 0xbe, 0x01, 0x49, 0x66, 0x31, 0xbd]
  const HASH_SHA224: seq<Byte> :=
    [0x33, 0x52, 0x6e, 0x0b, 0x5c, 0xa6, 0xc9, 0x44, 0x94, 0x07, 0xd9, 0xab, 0x83, 0xbf, 0xc8, 0xbd]
  const HASH_SHA256: seq<Byte> :=
    [0x26, 0x16, 0xc4, 0xc1, 0x4c, 0x50, 0x92, 0x40, 0xac, 0xa9, 0x41, 0xf9, 0x36, 0x93, 0x43, 0x28]
  const HASH_SHA384: seq<Byte> :=
    [0x07, 0x53, 0x3e, 0xff, 0xd0, 0x9f, 0xc9, 0x48, 0x85, 0xf1, 0x8a, 0xd5, 0x6c, 0x70, 0x1e, 0x01]
  const HASH_SHA512: seq<Byte> :=
    [0xae, 0x0f, 0x3e, 0x09, 0xc4, 0xa6, 0x50, 0x4f, 0x9f, 0x1b, 0xd4, 0x1e, 0x2b, 0x89, 0xc1, 0x9a]

  predicate IsHashType(guid: seq<Byte>) {
    || guid == CERT_X509_SHA256 || guid == CERT_X509_SHA384 || guid == CERT_X509_SHA512
    || guid == HASH_SHA1 || guid == HASH_SHA224 || guid == HASH_SHA256
    || guid == HASH_SHA384 || guid == HASH_SHA512
  }

  /** One EFI_SIGNATURE_DATA. The certificate the source derives from an X.509 entry is a
      function of `data` alone, so the entry keeps the data. */
  datatype Signature = Signature(owner: seq<Byte>, data: seq<Byte>)

  datatype Error = UnexpectedEof | HeaderTooLarge | ListTooLarge | UnhandledType

  datatype Result<T> = Ok(value: T) | Err(error: Error)

  datatype Header = Header(sigType: seq<Byte>, listSize: nat, headerSize: nat, sigSize: nat)

  /** Well-typed header fields: a GUID and three uint32 values. */
  predicate HeaderTyped(h: Header) {
    |h.sigType| == GUID_LEN && h.listSize < TWO32 && h.headerSize < TWO32 && h.sigSize < TWO32
  }

  function ReadHeader(b: seq<Byte>): (h: Header)
    requires |b| >= HEADER_LEN
    ensures HeaderTyped(h)
  {
    Header(b[..16], Le32(b[16..20]), Le32(b[20..24]), Le32(b[24..28]))
  }

  function CheckHeader(h: Header): (e: Result<bool>) {
    if h.headerSize > MAX_DATA_LEN then Err(HeaderTooLarge)
    else if h.listSize > MAX_DATA_LEN then Err(ListTooLarge)
    else if h.sigType == CERT_X509 then Ok(true)
    else if IsHashType(h.sigType) then Ok(false)
    else Err(UnhandledType)
  }

  // ----- the reading of the source as functions

  /** The inner loop from offset `offset`: the entries read and the bytes left over. */
  function ReadSignatures(b: seq<Byte>, h: Header, offset: nat): (r: Result<(seq<Signature>, seq<Byte>)>)
    requires HeaderTyped(h) && offset < TWO32
    ensures r.Ok? ==> |r.value.1| <= |b|
    decreases |b|
  {
    if offset < Sub32(h.listSize, HEADER_LEN) then
      var dataLen := Sub32(h.sigSize, GUID_LEN);
      if |b| < GUID_LEN + dataLen then Err(UnexpectedEof)
      else
        var entry := Signature(b[..GUID_LEN], b[GUID_LEN..GUID_LEN + dataLen]);
        AfterEntries([entry], ReadSignatures(b[GUID_LEN + dataLen..], h, Add32(offset, h.sigSize)))
    else Ok(([], b))
  }

  /** The outer loop: the X.509 entries of every remaining list. */
  function ParsedLists(b: seq<Byte>): (r: Result<seq<Signature>>)
    decreases |b|
  {
    if |b| == 0 then Ok([])
    else if |b| < HEADER_LEN then Err(UnexpectedEof)
    else
      var h := ReadHeader(b);
      match CheckHeader(h)
      case Err(e) => Err(e)
      case Ok(isX509) =>
        match ReadSignatures(b[HEADER_LEN..], h, 0)
        case Err(e) => Err(e)
        case Ok((entries, rest)) =>
          After(if isX509 then entries else [], ParsedLists(rest))
  }

  function Parsed(b: seq<Byte>): (r: Result<seq<Signature>>) {
    if |b| < HEADER_LEN then Ok([]) else ParsedLists(b)
  }

  function After(done: seq<Signature>, r: Result<seq<Signature>>): Result<seq<Signature>> {
    match r case Err(e) => Err(e) case Ok(more) => Ok(done + more)
  }

  function AfterEntries(done: seq<Signature>, r: Result<(seq<Signature>, seq<Byte>)>)
    : Result<(seq<Signature>, seq<Byte>)>
  {
    match r case Err(e) => Err(e) case Ok((more, rest)) => Ok((done + more, rest))
  }

  lemma {:induction false} AfterAssoc(a: seq<Signature>, c: seq<Signature>, r: Result<seq<Signature>>)
    ensures After(a, After(c, r)) == After(a + c, r)
    ensures After([], r) == r
  {
    if r.Ok? { assert a + (c + r.value) == a + c + r.value && [] + r.value == r.value; }
  }

  lemma {:induction false} AfterEntriesAssoc(a: seq<Signature>, c: seq<Signature>, r: Result<(seq<Signature>, seq<Byte>)>)
    ensures AfterEntries(a, AfterEntries(c, r)) == AfterEntries(a + c, r)
    ensures AfterEntries([], r) == r
  {
    if r.Ok? { assert a + (c + r.value.0) == a + c + r.value.0 && [] + r.value.0 == r.value.0; }
  }

  /** The parser of the source: a reader position, an offset and a growing result. */
  method ParseEfiSignatureList(b: seq<Byte>) returns (r: Result<seq<Signature>>)
    ensures r == Parsed(b)
  {
    if |b| < HEADER_LEN { return Ok([]); }
    var certificates: seq<Signature> := [];
    var buf := b;
    AfterAssoc([], [], ParsedLists(b));
    while |buf| > 0
      invariant ParsedLists(b) == After(certificates, ParsedLists(buf))
      decreases |buf|
    {
      if |buf| < HEADER_LEN { return Err(UnexpectedEof); }
      var header := ReadHeader(buf);
      var kind := CheckHeader(header);
      if kind.Err? { return Err(kind.error); }
      ghost var body := buf[HEADER_LEN..];
      ghost var start := buf;
      buf := buf[HEADER_LEN..];
      var sigOffset: nat := 0;
      var entries: seq<Signature> := [];
      AfterEntriesAssoc([], [], ReadSignatures(body, header, 0));
      while sigOffset < Sub32(header.listSize, HEADER_LEN)
        invariant sigOffset < TWO32 && |buf| < |start|
        invariant ReadSignatures(body, header, 0) == AfterEntries(entries, ReadSignatures(buf, header, sigOffset))
        decreases |buf|
      {
        var dataLen := Sub32(header.sigSize, GUID_LEN);
        if |buf| < GUID_LEN + dataLen { return Err(UnexpectedEof); }
        var entry := Signature(buf[..GUID_LEN], buf[GUID_LEN..GUID_LEN + dataLen]);
        buf := buf[GUID_LEN + dataLen..];
        sigOffset := Add32(sigOffset, header.sigSize);
        AfterEntriesAssoc(entries, [entry], ReadSignatures(buf, header, sigOffset));
        entries := entries + [entry];
      }
      AfterAssoc(certificates, if kind.value then entries else [], ParsedLists(buf));
      assert entries + [] == entries && certificates + [] == certificates;
      if kind.value {
        certificates := certificates + entries;
      }
    }
    assert certificates + [] == certificates;
    r := Ok(certificates);
  }

  // ----- the format, independently of the parser

  datatype SigList = SigList(header: Header, entries: seq<Signature>)

  /** `n` entries of `size` bytes are the fewest that hold `need` bytes. */
  predicate Covers(n: nat, size: nat, need: int) {
    (n - 1) * size < need <= n * size
  }

  predicate Sized(es: seq<Signature>, dataLen: int) {
    forall i :: 0 <= i < |es| ==> |es[i].owner| == GUID_LEN && |es[i].data| == dataLen
  }

  /** A list whose size field covers its entries. The list size may end inside the last
      entry, because the reader stops at the first entry boundary at or past it. */
  predicate ValidList(l: SigList) {
    var n := |l.entries|;
    && HeaderTyped(l.header)
    && CheckHeader(l.header).Ok?
    && l.header.listSize >= HEADER_LEN
    && (n == 0 <==> l.header.listSize == HEADER_LEN)
    && (n > 0 ==>
          && l.header.sigSize >= GUID_LEN
          && Covers(n, l.header.sigSize, l.header.listSize - HEADER_LEN))
    && Sized(l.entries, l.header.sigSize - GUID_LEN)
  }

  predicate TypedLists(ls: seq<SigList>) {
    forall i :: 0 <= i < |ls| ==> HeaderTyped(ls[i].header)
  }

  predicate ValidLists(ls: seq<SigList>) {
    && TypedLists(ls)
    && forall i :: 0 <= i < |ls| ==> ValidList(ls[i])
  }

  /** The layout the UEFI Specification gives: no signature header and a list size that is
      exactly the header and the entries. */
  predicate WellFormedList(l: SigList) {
    && HeaderTyped(l.header)
    && (l.header.sigType == CERT_X509 || IsHashType(l.header.sigType))
    && l.header.headerSize == 0
    && l.header.sigSize >= GUID_LEN
    && l.header.listSize == HEADER_LEN + |l.entries| * l.header.sigSize <= MAX_DATA_LEN
    && Sized(l.entries, l.header.sigSize - GUID_LEN)
  }

  function EncodeHeader(h: Header): (b: seq<Byte>)
    requires HeaderTyped(h)
    ensures |b| == HEADER_LEN
  {
    h.sigType + PutLe32(h.listSize) + PutLe32(h.headerSize) + PutLe32(h.sigSize)
  }

  function EncodeEntries(es: seq<Signature>): (b: seq<Byte>) {
    if es == [] then [] else es[0].owner + (es[0].data + EncodeEntries(es[1..]))
  }

  function EncodeAll(ls: seq<SigList>): (b: seq<Byte>)
    requires TypedLists(ls)
  {
    if ls == [] then [] else EncodeHeader(ls[0].header) + (EncodeEntries(ls[0].entries) + EncodeAll(ls[1..]))
  }

  function X509Entries(ls: seq<SigList>): (es: seq<Signature>) {
    if ls == [] then []
    else (if ls[0].header.sigType == CERT_X509 then ls[0].entries else []) + X509Entries(ls[1..])
  }

  // ----- round trip: encodings parse

  lemma {:induction false} HeaderRoundTrip(h: Header, tail: seq<Byte>)
    requires HeaderTyped(h)
    ensures ReadHeader(EncodeHeader(h) + tail) == h
    ensures (EncodeHeader(h) + tail)[HEADER_LEN..] == tail
  {
  }

  /** `n` entries are what the list still holds at `offset`. */
  predicate Remaining(h: Header, offset: nat, n: nat) {
    if n == 0 then h.listSize - HEADER_LEN <= offset < TWO32
    else h.sigSize >= GUID_LEN && offset + h.sigSize < TWO32 && Covers(n, h.sigSize, h.listSize - HEADER_LEN - offset)
  }

  lemma {:induction false} RemainingStep(h: Header, offset: nat, n: nat)
    requires HeaderTyped(h) && HEADER_LEN <= h.listSize <= MAX_DATA_LEN && n > 0 && Remaining(h, offset, n)
    ensures offset < Sub32(h.listSize, HEADER_LEN) && Add32(offset, h.sigSize) == offset + h.sigSize
    ensures Sub32(h.sigSize, GUID_LEN) == h.sigSize - GUID_LEN && Remaining(h, offset + h.sigSize, n - 1)
  {
    CoversOneLess(n, h.sigSize, h.listSize - HEADER_LEN - offset);
  }

  lemma {:induction false} ReadOne(e: Signature, h: Header, offset: nat, rest: seq<Byte>)
    requires HeaderTyped(h) && offset < TWO32 && offset + h.sigSize < TWO32 && Add32(offset, h.sigSize) == offset + h.sigSize
    requires offset < Sub32(h.listSize, HEADER_LEN) && |e.owner| == GUID_LEN && |e.data| == Sub32(h.sigSize, GUID_LEN)
    ensures ReadSignatures(e.owner + (e.data + rest), h, offset) == AfterEntries([e], ReadSignatures(rest, h, offset + h.sigSize))
  {
    Pieces(e.owner, e.data, rest);
  }

  /** The inner loop at `offset` reads back the entries that cover the rest of the list. */
  lemma {:induction false} EntriesRoundTrip(h: Header, es: seq<Signature>, offset: nat, tail: seq<Byte>)
    requires HeaderTyped(h) && HEADER_LEN <= h.listSize <= MAX_DATA_LEN && Sized(es, h.sigSize - GUID_LEN)
    requires Remaining(h, offset, |es|)
    ensures ReadSignatures(EncodeEntries(es) + tail, h, offset) == Ok((es, tail))
    decreases |es|
  {
    if es == [] {
      assert EncodeEntries(es) + tail == tail;
    } else {
      var e, more := es[0], es[1..];
      RemainingStep(h, offset, |es|);
      Regroup(e.owner, e.data, EncodeEntries(more), tail);
      ReadOne(e, h, offset, EncodeEntries(more) + tail);
      EntriesRoundTrip(h, more, offset + h.sigSize, tail);
      assert [e] + more == es;
    }
  }

  lemma {:induction false} CoversOneLess(n: nat, size: nat, need: int)
    requires n > 0 && Covers(n, size, need)
    ensures need > 0 && (if n == 1 then need <= size else need > size && Covers(n - 1, size, need - size))
  {
  }

  lemma {:induction false} FirstListRoundTrip(l: SigList, rest: seq<Byte>)
    requires ValidList(l)
    ensures ParsedLists(EncodeHeader(l.header) + (EncodeEntries(l.entries) + rest))
         == After(if l.header.sigType == CERT_X509 then l.entries else [], ParsedLists(rest))
  {
    HeaderRoundTrip(l.header, EncodeEntries(l.entries) + rest);
    EntriesRoundTrip(l.header, l.entries, 0, rest);
  }

  lemma {:induction false} ListsRoundTrip(ls: seq<SigList>)
    requires ValidLists(ls)
    ensures ParsedLists(EncodeAll(ls)) == Ok(X509Entries(ls))
    decreases |ls|
  {
    if ls == [] {
    } else {
      FirstListRoundTrip(ls[0], EncodeAll(ls[1..]));
      ListsRoundTrip(ls[1..]);
    }
  }

  /** Every well-formed database parses back to its X.509 entries, in order. */
  lemma {:induction false} WellFormedRoundTrip(ls: seq<SigList>)
    requires forall i :: 0 <= i < |ls| ==> WellFormedList(ls[i])
    ensures ValidLists(ls) && Parsed(EncodeAll(ls)) == Ok(X509Entries(ls))
  {
    forall i | 0 <= i < |ls| ensures ValidList(ls[i]) {
      WellFormedIsValid(ls[i]);
    }
    ListsRoundTrip(ls);
    if ls != [] { EncodingIsLong(ls); }
  }

  lemma {:induction false} WellFormedIsValid(l: SigList)
    requires WellFormedList(l)
    ensures ValidList(l)
  {
  }

  lemma {:induction false} EncodingIsLong(ls: seq<SigList>)
    requires TypedLists(ls) && ls != []
    ensures |EncodeAll(ls)| >= HEADER_LEN
  {
  }

  // ----- soundness: what parses is an encoding

  lemma {:induction false} Regroup(a: seq<Byte>, b: seq<Byte>, c: seq<Byte>, d: seq<Byte>)
    ensures a + (b + c) + d == a + (b + (c + d))
  {
  }

  lemma {:induction false} Pieces(a: seq<Byte>, b: seq<Byte>, c: seq<Byte>)
    ensures var all := a + (b + c);
      all[..|a|] == a && all[|a|..|a| + |b|] == b && all[|a| + |b|..] == c
  {
  }

  lemma {:induction false} SplitAt(b: seq<Byte>, i: nat, j: nat)
    requires i <= j <= |b|
    ensures b == b[..i] + (b[i..j] + b[j..])
  {
  }

  /** What the inner loop has read is the encoding of its entries. */
  lemma {:induction false} EntriesBytes(b: seq<Byte>, h: Header, offset: nat)
    requires HeaderTyped(h) && offset < TWO32
    requires ReadSignatures(b, h, offset).Ok?
    ensures var (es, rest) := ReadSignatures(b, h, offset).value;
      b == EncodeEntries(es) + rest
    decreases |b|
  {
    var (es, rest) := ReadSignatures(b, h, offset).value;
    if offset < Sub32(h.listSize, HEADER_LEN) {
      var size := GUID_LEN + Sub32(h.sigSize, GUID_LEN);
      var e, tail := Signature(b[..GUID_LEN], b[GUID_LEN..size]), b[size..];
      EntriesBytes(tail, h, Add32(offset, h.sigSize));
      var more := ReadSignatures(tail, h, Add32(offset, h.sigSize)).value.0;
      assert es == [e] + more && es[1..] == more;
      SplitAt(b, GUID_LEN, size);
      Regroup(e.owner, e.data, EncodeEntries(more), rest);
    } else {
      assert es == [];
    }
  }

  lemma {:induction false} EntriesSized(b: seq<Byte>, h: Header, offset: nat)
    requires HeaderTyped(h) && offset < TWO32
    requires ReadSignatures(b, h, offset).Ok?
    ensures Sized(ReadSignatures(b, h, offset).value.0, Sub32(h.sigSize, GUID_LEN))
    decreases |b|
  {
    if offset < Sub32(h.listSize, HEADER_LEN) {
      EntriesSized(b[GUID_LEN + Sub32(h.sigSize, GUID_LEN)..], h, Add32(offset, h.sigSize));
    }
  }

  /** How many entries the inner loop reads, when it succeeds on fewer than 2^32 bytes: the
      wrapping subtractions and additions never wrapped. */
  lemma {:induction false} EntriesCount(b: seq<Byte>, h: Header, offset: nat)
    requires HeaderTyped(h) && offset + |b| + HEADER_LEN < TWO32
    requires ReadSignatures(b, h, offset).Ok?
    ensures var es := ReadSignatures(b, h, offset).value.0;
      if es == [] then Sub32(h.listSize, HEADER_LEN) <= offset
      else
        && h.listSize >= HEADER_LEN && h.sigSize >= GUID_LEN
        && Covers(|es|, h.sigSize, h.listSize - HEADER_LEN - offset)
    decreases |b|
  {
    if offset < Sub32(h.listSize, HEADER_LEN) {
      var tail := b[GUID_LEN + Sub32(h.sigSize, GUID_LEN)..];
      EntriesCount(tail, h, offset + h.sigSize);
      var more := ReadSignatures(tail, h, offset + h.sigSize).value.0;
      CoversOneMore(|more|, h.sigSize, h.listSize - HEADER_LEN - offset);
    }
  }

  lemma {:induction false} CoversOneMore(n: nat, size: nat, need: int)
    requires need > 0 && (if n == 0 then need <= size else Covers(n, size, need - size))
    ensures Covers(n + 1, size, need)
  {
  }

  lemma {:induction false} HeaderSound(b: seq<Byte>)
    requires |b| >= HEADER_LEN
    ensures EncodeHeader(ReadHeader(b)) + b[HEADER_LEN..] == b
  {
    Le32Unique(b[16..20]);
    Le32Unique(b[20..24]);
    Le32Unique(b[24..28]);
  }

  lemma {:induction false} ValidCons(l: SigList, more: seq<SigList>)
    requires ValidList(l) && ValidLists(more)
    ensures ValidLists([l] + more)
  {
  }

  lemma {:induction false} EncodeCons(l: SigList, more: seq<SigList>)
    requires HeaderTyped(l.header) && TypedLists(more) && TypedLists([l] + more)
    ensures EncodeAll([l] + more) == EncodeHeader(l.header) + (EncodeEntries(l.entries) + EncodeAll(more))
    ensures X509Entries([l] + more) == (if l.header.sigType == CERT_X509 then l.entries else []) + X509Entries(more)
  {
  }

  /** One turn of the outer loop reads one valid list. */
  lemma {:induction false} FirstListSound(b: seq<Byte>) returns (l: SigList, rest: seq<Byte>)
    requires HEADER_LEN <= |b| < TWO32 && ParsedLists(b).Ok?
    ensures ValidList(l) && |rest| < |b|
    ensures b == EncodeHeader(l.header) + (EncodeEntries(l.entries) + rest)
    ensures ParsedLists(b) == After(if l.header.sigType == CERT_X509 then l.entries else [], ParsedLists(rest))
  {
    var h, body := ReadHeader(b), b[HEADER_LEN..];
    HeaderSound(b);
    EntriesBytes(body, h, 0);
    EntriesSized(body, h, 0);
    EntriesCount(body, h, 0);
    l := SigList(h, ReadSignatures(body, h, 0).value.0);
    rest := ReadSignatures(body, h, 0).value.1;
  }

  lemma {:induction false} ListsSound(b: seq<Byte>) returns (ls: seq<SigList>)
    requires |b| < TWO32 && ParsedLists(b).Ok?
    ensures ValidLists(ls) && EncodeAll(ls) == b && X509Entries(ls) == ParsedLists(b).value
    decreases |b|
  {
    if b == [] {
      ls := [];
    } else {
      var l, rest := FirstListSound(b);
      var more := ListsSound(rest);
      ValidCons(l, more);
      EncodeCons(l, more);
      ls := [l] + more;
    }
  }

  /** A list takes its header and as many whole entries as its size field asks for, rounded up. */
  lemma {:induction false} ListLength(l: SigList)
    requires ValidList(l)
    ensures var body, need := |EncodeEntries(l.entries)|, l.header.listSize - HEADER_LEN;
      body == |l.entries| * l.header.sigSize && need <= body && (need > 0 ==> body < need + l.header.sigSize)
  {
    var n, size := |l.entries|, l.header.sigSize;
    EntriesLength(l.entries, size);
    assert n > 0 ==> n * size == (n - 1) * size + size;
  }

  lemma {:induction false} EntriesLength(es: seq<Signature>, size: nat)
    requires Sized(es, size - GUID_LEN)
    ensures |EncodeEntries(es)| == |es| * size
  {
    if es != [] {
      EntriesLength(es[1..], size);
      assert |es| * size == size + |es[1..]| * size;
    }
  }

  // ----- the main result

  /** `b` is a concatenation of valid lists whose X.509 entries are `certs`. */
  ghost predicate Encodes(b: seq<Byte>, certs: seq<Signature>) {
    exists ls :: ValidLists(ls) && EncodeAll(ls) == b && X509Entries(ls) == certs
  }

  /** The parser succeeds with `certs` exactly on the encodings of valid lists with those
      X.509 entries, and on inputs too short to hold a header. In particular no uint32
      wrap-around survives to a successful result. */
  lemma {:induction false} ParserIsExact(b: seq<Byte>, certs: seq<Signature>)
    requires |b| < TWO32
    ensures Parsed(b) == Ok(certs) <==> (|b| < HEADER_LEN && certs == []) || Encodes(b, certs)
  {
    if Parsed(b) == Ok(certs) && |b| >= HEADER_LEN {
      var ls := ListsSound(b);
      assert Encodes(b, certs);
    }
    if Encodes(b, certs) {
      var ls :| ValidLists(ls) && EncodeAll(ls) == b && X509Entries(ls) == certs;
      ListsRoundTrip(ls);
      if ls != [] { EncodingIsLong(ls); }
    }
  }

  // ----- the types, by their names in the UEFI Specification

  /** A GUID written a-b-c-tail, as it is laid out: the first three parts little-endian. */
  function Guid(a: nat, b: nat, c: nat, tail: seq<Byte>): (g: seq<Byte>)
    requires a < TWO32 && b < 0x1_0000 && c < 0x1_0000
  {
    PutLe32(a) + [b % 256, b / 256] + [c % 256, c / 256] + tail
  }

  /** A signature type, by the parts of its name. */
  predicate Named(g: seq<Byte>, a: nat, b: nat, c: nat, tail: seq<Byte>)
    requires a < TWO32 && b < 0x1_0000 && c < 0x1_0000
  {
    g == Guid(a, b, c, tail)
  }

  predicate NamedX509(g: seq<Byte>) {
    Named(g, 0xa5c059a1, 0x94e4, 0x4aa7, [0x87, 0xb5, 0xab, 0x15, 0x5c, 0x2b, 0xf0, 0x72])
  }

  predicate NamedCertificateHash(g: seq<Byte>) {
    || Named(g, 0x3bd2a492, 0x96c0, 0x4079, [0xb4, 0x20, 0xfc, 0xf9, 0x8e, 0xf1, 0x03, 0xed])
    || Named(g, 0x7076876e, 0x80c2, 0x4ee6, [0xaa, 0xd2, 0x28, 0xb3, 0x49, 0xa6, 0x86, 0x5b])
    || Named(g, 0x446dbf63, 0x2502, 0x4cda, [0xbc, 0xfa, 0x24, 0x65, 0xd2, 0xb0, 0xfe, 0x9d])
  }

  predicate NamedBinaryHash(g: seq<Byte>) {
    || Named(g, 0x826ca512, 0xcf10, 0x4ac9, [0xb1, 0x87, 0xbe, 0x01, 0x49, 0x66, 0x31, 0xbd])
    || Named(g, 0x0b6e5233, 0xa65c, 0x44c9, [0x94, 0x07, 0xd9, 0xab, 0x83, 0xbf, 0xc8, 0xbd])
    || Named(g, 0xc1c41626, 0x504c, 0x4092, [0xac, 0xa9, 0x41, 0xf9, 0x36, 0x93, 0x43, 0x28])
    || NamedLongBinaryHash(g)
  }

  predicate NamedLongBinaryHash(g: seq<Byte>) {
    || Named(g, 0xff3e5307, 0x9fd0, 0x48c9, [0x85, 0xf1, 0x8a, 0xd5, 0x6c, 0x70, 0x1e, 0x01])
    || Named(g, 0x093e0fae, 0xa6c4, 0x4f50, [0x9f, 0x1b, 0xd4, 0x1e, 0x2b, 0x89, 0xc1, 0x9a])
  }

  /** The eight types of hashes: of certificates, and of binaries. */
  predicate NamedHash(g: seq<Byte>) {
    NamedCertificateHash(g) || NamedBinaryHash(g)
  }

  lemma {:induction false} ByParts(g: seq<Byte>, a: nat, b: nat, c: nat, tail: seq<Byte>)
    requires a < TWO32 && b < 0x1_0000 && c < 0x1_0000 && |tail| == 8 && |g| == 16
    ensures g == Guid(a, b, c, tail) <==> Le32(g[..4]) == a && g[4..6] == [b % 256, b / 256] && g[6..8] == [c % 256, c / 256] && g[8..] == tail
  {
    var l, m, n := PutLe32(a), [b % 256, b / 256], [c % 256, c / 256];
    var all := Guid(a, b, c, tail);
    assert all[..4] == l && all[4..6] == m && all[6..8] == n && all[8..] == tail;
    Le32Unique(g[..4]);
    assert g == g[..4] + g[4..6] + g[6..8] + g[8..];
  }

  lemma {:induction false} CertX509()
    ensures Guid(0xa5c059a1, 0x94e4, 0x4aa7, [0x87, 0xb5, 0xab, 0x15, 0x5c, 0x2b, 0xf0, 0x72]) == CERT_X509
  {
    ByParts(CERT_X509, 0xa5c059a1, 0x94e4, 0x4aa7, [0x87, 0xb5, 0xab, 0x15, 0x5c, 0x2b, 0xf0, 0x72]);
  }

  lemma {:induction false} CertX509Sha256()
    ensures Guid(0x3bd2a492, 0x96c0, 0x4079, [0xb4, 0x20, 0xfc, 0xf9, 0x8e, 0xf1, 0x03, 0xed]) == CERT_X509_SHA256
  {
    ByParts(CERT_X509_SHA256, 0x3bd2a492, 0x96c0, 0x4079, [0xb4, 0x20, 0xfc, 0xf9, 0x8e, 0xf1, 0x03, 0xed]);
  }

  lemma {:induction false} CertX509Sha384()
    ensures Guid(0x7076876e, 0x80c2, 0x4ee6, [0xaa, 0xd2, 0x28, 0xb3, 0x49, 0xa6, 0x86, 0x5b]) == CERT_X509_SHA384
  {
    ByParts(CERT_X509_SHA384, 0x7076876e, 0x80c2, 0x4ee6, [0xaa, 0xd2, 0x28, 0xb3, 0x49, 0xa6, 0x86, 0x5b]);
  }

  lemma {:induction false} CertX509Sha512()
    ensures Guid(0x446dbf63, 0x2502, 0x4cda, [0xbc, 0xfa, 0x24, 0x65, 0xd2, 0xb0, 0xfe, 0x9d]) == CERT_X509_SHA512
  {
    ByParts(CERT_X509_SHA512, 0x446dbf63, 0x2502, 0x4cda, [0xbc, 0xfa, 0x24, 0x65, 0xd2, 0xb0, 0xfe, 0x9d]);
  }

  lemma {:induction false} HashSha1()
    ensures Guid(0x826ca512, 0xcf10, 0x4ac9, [0xb1, 0x87, 0xbe, 0x01, 0x49, 0x66, 0x31, 0xbd]) == HASH_SHA1
  {
    ByParts(HASH_SHA1, 0x826ca512, 0xcf10, 0x4ac9, [0xb1, 0x87, 0xbe, 0x01, 0x49, 0x66, 0x31, 0xbd]);
  }

  lemma {:induction false} HashSha224()
    ensures Guid(0x0b6e5233, 0xa65c, 0x44c9, [0x94, 0x07, 0xd9, 0xab, 0x83, 0xbf, 0xc8, 0xbd]) == HASH_SHA224
  {
    ByParts(HASH_SHA224, 0x0b6e5233, 0xa65c, 0x44c9, [0x94, 0x07, 0xd9, 0xab, 0x83, 0xbf, 0xc8, 0xbd]);
  }

  lemma {:induction false} HashSha256()
    ensures Guid(0xc1c41626, 0x504c, 0x4092, [0xac, 0xa9, 0x41, 0xf9, 0x36, 0x93, 0x43, 0x28]) == HASH_SHA256
  {
    ByParts(HASH_SHA256, 0xc1c41626, 0x504c, 0x4092, [0xac, 0xa9, 0x41, 0xf9, 0x36, 0x93, 0x43, 0x28]);
  }

  lemma {:induction false} HashSha384()
    ensures Guid(0xff3e5307, 0x9fd0, 0x48c9, [0x85, 0xf1, 0x8a, 0xd5, 0x6c, 0x70, 0x1e, 0x01]) == HASH_SHA384
  {
    ByParts(HASH_SHA384, 0xff3e5307, 0x9fd0, 0x48c9, [0x85, 0xf1, 0x8a, 0xd5, 0x6c, 0x70, 0x1e, 0x01]);
  }

  lemma {:induction false} HashSha512()
    ensures Guid(0x093e0fae, 0xa6c4, 0x4f50, [0x9f, 0x1b, 0xd4, 0x1e, 0x2b, 0x89, 0xc1, 0x9a]) == HASH_SHA512
  {
    ByParts(HASH_SHA512, 0x093e0fae, 0xa6c4, 0x4f50, [0x9f, 0x1b, 0xd4, 0x1e, 0x2b, 0x89, 0xc1, 0x9a]);
  }

  /** The source's constants are those types. */
  lemma {:induction false} TypesByName(g: seq<Byte>)
    ensures NamedX509(g) <==> g == CERT_X509
    ensures NamedHash(g) <==> IsHashType(g)
  {
    CertX509();
    CertX509Sha256();
    CertX509Sha384();
    CertX509Sha512();
    HashSha1();
    HashSha224();
    HashSha256();
    HashSha384();
    HashSha512();
  }

  /** Which headers pass: sizes up to 1 MiB, and the X.509 type or one of the eight types of hashes. */
  lemma {:induction false} HeaderPasses(h: Header)
    ensures CheckHeader(h) == Ok(true) <==> (h.headerSize <= 1048576 && h.listSize <= 1048576 && NamedX509(h.sigType))
    ensures CheckHeader(h) == Ok(false) <==> (h.headerSize <= 1048576 && h.listSize <= 1048576 && NamedHash(h.sigType))
  {
    TypesByName(h.sigType);
    NotX509();
  }

  lemma {:induction false} NotX509()
    ensures !IsHashType(CERT_X509)
  {
    assert CERT_X509[0] == 0xa1;
    assert CERT_X509_SHA256[0] == 0x92 && CERT_X509_SHA384[0] == 0x6e && CERT_X509_SHA512[0] == 0x63;
    assert HASH_SHA1[0] == 0x12 && HASH_SHA224[0] == 0x33 && HASH_SHA256[0] == 0x26 && HASH_SHA384[0] == 0x07 && HASH_SHA512[0] == 0xae;
  }

  /** Where the fields of a list's header are: the type, then the sizes of list, header and signature. */
  lemma {:induction false} HeaderBytes(b: seq<Byte>)
    requires |b| >= 28
    ensures var h := ReadHeader(b);
      && h.sigType == b[..16] && h.listSize == Le32(b[16..20]) && h.headerSize == Le32(b[20..24]) && h.sigSize == Le32(b[24..28])
    ensures EncodeHeader(ReadHeader(b)) == b[..28]
  {
    HeaderSound(b);
    assert EncodeHeader(ReadHeader(b)) == (EncodeHeader(ReadHeader(b)) + b[28..])[..28];
  }

  /** An entry is its owner and then its data. */
  lemma {:induction false} EntryBytes(owner: seq<Byte>, data: seq<Byte>)
    ensures EncodeEntries([Signature(owner, data)]) == owner + data
  {
    assert [Signature(owner, data)][1..] == [];
    assert owner + data + EncodeEntries([]) == owner + data;
  }
}
