/**
 Putting the seed into an OS image. The image customizer does it while streaming the image to
 a client in chunks (cmd/image-customizer/main.go:506-549, 1093-1134); the flasher tool writes
 it into the image file (cmd/flasher-tool/main.go:681-703). Both use the same offset.
 */
module SeedSplice {
  import opened Bytes

  const SEED_OFFSET: nat := 2148532224
  const CHUNK_SIZE: nat := 4194304

  function Min(a: nat, b: nat): (m: nat) {
    if a < b then a else b
  }

  /** The reference: the bytes from `offset` on replaced by the seed, as far as there are any. */
  function Spliced(source: seq<Byte>, offset: nat, seed: seq<Byte>): (r: seq<Byte>) {
    source[..Min(offset, |source|)] + seed + source[Min(offset + |seed|, |source|)..]
  }

  function Concat(chunks: seq<seq<Byte>>): (r: seq<Byte>) {
    if chunks == [] then [] else Concat(chunks[..|chunks| - 1]) + chunks[|chunks| - 1]
  }

  /** The counter the tar writer feeds beside the real output. */
  class WriteCounter {
    var size: nat

    constructor ()
      ensures size == 0
    {
      size := 0;
    }

    method Write(buf: seq<Byte>)
      modifies this
      ensures size == old(size) + |buf|
    {
      size := size + |buf|;
    }
  }

  /** A transfer: the decompressed image, how far it has been read, and what has been sent. */
  class Transfer {
    const source: seq<Byte>
    var pos: nat
    var sent: seq<Byte>

    ghost predicate Valid()
      reads this
    {
      pos <= |source|
    }

    constructor (source: seq<Byte>)
      ensures Valid() && this.source == source && pos == 0 && sent == []
    {
      this.source, pos, sent := source, 0, [];
    }

    /** io.CopyN: n bytes, or what is left and the end of file. */
    method CopyN(n: nat) returns (copied: nat, eof: bool)
      requires Valid()
      modifies this
      ensures Valid() && copied == Min(n, |source| - old(pos)) && (eof <==> copied < n)
      ensures pos == old(pos) + copied && sent == old(sent) + source[old(pos)..pos]
    {
      copied := Min(n, |source| - pos);
      sent := sent + source[pos..pos + copied];
      pos := pos + copied;
      eof := copied < n;
    }

    /** The seed's tar archive, written piece by piece to the counter and to the client. */
    method WriteSeed(pieces: seq<seq<Byte>>) returns (size: nat)
      requires Valid()
      modifies this
      ensures Valid() && pos == old(pos)
      ensures size == |Concat(pieces)| && sent == old(sent) + Concat(pieces)
    {
      var counter := new WriteCounter();
      for i := 0 to |pieces|
        invariant pos == old(pos) && fresh(counter)
        invariant counter.size == |Concat(pieces[..i])| && sent == old(sent) + Concat(pieces[..i])
      {
        assert pieces[..i + 1][..i] == pieces[..i];
        counter.Write(pieces[i]);
        sent := sent + pieces[i];
      }
      assert pieces[..|pieces|] == pieces;
      size := counter.size;
    }

    /** The leading part, in chunks, up to the offset or the end of the image. */
    method SendLeading(offset: nat)
      requires Valid() && pos == 0 && sent == []
      modifies this
      ensures Valid() && pos == Min(offset, |source|) && sent == source[..pos]
    {
      var remainder: nat := offset;
      while true
        invariant Valid() && remainder <= offset && pos == offset - remainder && sent == source[..pos]
        decreases remainder
      {
        var chunk := Min(remainder, CHUNK_SIZE);
        if chunk == 0 { break; }
        ghost var before := pos;
        var n, eof := CopyN(chunk);
        assert source[..before] + source[before..pos] == source[..pos];
        if eof { break; }
        remainder := remainder - n;
      }
    }

    /** The rest, in chunks, until the end of the image. */
    method SendTrailing()
      requires Valid()
      modifies this
      ensures Valid() && sent == old(sent) + source[old(pos)..]
    {
      ghost var start := pos;
      var eof := false;
      while !eof
        invariant Valid() && start <= pos && sent == old(sent) + source[start..pos]
        invariant eof ==> pos == |source|
        decreases |source| - pos, !eof
      {
        ghost var before := pos;
        var n;
        n, eof := CopyN(CHUNK_SIZE);
        assert source[start..before] + source[before..pos] == source[start..pos];
      }
    }

    /** sendOSImage. Moving past the end of the image leaves nothing more to send. */
    method SendOSImage(pieces: seq<seq<Byte>>)
      requires Valid() && pos == 0 && sent == []
      modifies this
      ensures sent == Spliced(source, SEED_OFFSET, Concat(pieces))
    {
      SendLeading(SEED_OFFSET);
      var size := WriteSeed(pieces);
      pos := Min(pos + size, |source|);
      SendTrailing();
      assert Min(SEED_OFFSET + size, |source|) == Min(Min(SEED_OFFSET, |source|) + size, |source|);
    }
  }

  /** The image file the flasher tool writes into. */
  class ImageFile {
    var data: seq<Byte>

    constructor (data: seq<Byte>)
      ensures this.data == data
    {
      this.data := data;
    }

    /** os.File.WriteAt: a file that is too short grows, with zeroes up to the offset; writing
        nothing changes nothing. */
    method WriteAt(seed: seq<Byte>, offset: nat)
      modifies this
      ensures data == Written(old(data), offset, seed)
    {
      if |seed| > 0 {
        if |data| < offset { data := data + seq(offset - |data|, _ => 0); }
        data := data[..offset] + seed + data[Min(offset + |seed|, |data|)..];
      }
    }

    method InjectSeedIntoImage(seed: seq<Byte>)
      modifies this
      ensures data == Written(old(data), SEED_OFFSET, seed)
    {
      WriteAt(seed, SEED_OFFSET);
    }
  }

  function Written(data: seq<Byte>, offset: nat, seed: seq<Byte>): (r: seq<Byte>) {
    if seed == [] then data
    else
      var padded := if |data| < offset then data + seq(offset - |data|, _ => 0) else data;
      padded[..offset] + seed + padded[Min(offset + |seed|, |padded|)..]
  }

  /** The bytes of a splice that fits: the seed where it belongs, the image everywhere else. */
  lemma {:induction false} SplicedBytes(source: seq<Byte>, offset: nat, seed: seq<Byte>)
    requires offset + |seed| <= |source|
    ensures var r := Spliced(source, offset, seed);
      && |r| == |source|
      && (forall i :: 0 <= i < |source| ==>
            r[i] == if offset <= i < offset + |seed| then seed[i - offset] else source[i])
  {
  }

  /** Streaming and writing in place agree exactly when the image reaches the offset (or there
      is no seed): short images are padded in place and not when streamed. */
  lemma {:induction false} StreamedIsWritten(source: seq<Byte>, offset: nat, seed: seq<Byte>)
    ensures Spliced(source, offset, seed) == Written(source, offset, seed) <==> offset <= |source| || seed == []
  {
  }

  /** A file that ends before the offset: its bytes, zeroes up to the offset, then the seed. */
  lemma {:induction false} WrittenShort(data: seq<Byte>, offset: nat, seed: seq<Byte>)
    requires |data| < offset && seed != []
    ensures var r := Written(data, offset, seed);
      && |r| == offset + |seed| && r[..|data|] == data && (forall i :: |data| <= i < offset ==> r[i] == 0) && r[offset..] == seed
  {
    var pad := seq(offset - |data|, _ => 0);
    PaddedThen(data, pad, seed);
    assert (data + pad)[..offset] == data + pad;
    assert Written(data, offset, seed) == (data + pad) + seed + [];
    assert (data + pad) + seed + [] == (data + pad) + seed;
  }

  lemma {:induction false} PaddedThen(data: seq<Byte>, pad: seq<Byte>, seed: seq<Byte>)
    requires forall i :: 0 <= i < |pad| ==> pad[i] == 0
    ensures var r, n := (data + pad) + seed, |data| + |pad|;
      r[..|data|] == data && (forall i :: |data| <= i < n ==> r[i] == 0) && r[n..] == seed
  {
    var r := (data + pad) + seed;
    forall i | |data| <= i < |data| + |pad| ensures r[i] == 0 { assert r[i] == pad[i - |data|]; }
  }
}
