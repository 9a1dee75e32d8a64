/** FNV.get32BitHash: the 32-bit FNV-1 hash of an input stream (multiply by the FNV prime, then
    exclusive-or the byte), computed through a 1024-byte buffer that each read refills. Java `int`
    arithmetic is modelled by `bv32`, whose multiplication wraps modulo 2^32 as Java's does. */
module FNV {
  import opened Seqs

  type byte = bv8

  const FNV_32_PRIME: bv32 := 0x01000193
  const FNV_32_INIT: bv32 := 0x811c9dc5
  const BUFFER_SIZE: nat := 1024

  /** One byte of the hash: multiply, then exclusive-or the byte read as unsigned
      (Byte.toUnsignedInt). */
  function Step(hash: bv32, b: byte): bv32 {
    (hash * FNV_32_PRIME) ^ (b as bv32)
  }

  /** The hash of data continued from `hash`: Step folded from the left. */
  function HashFrom(hash: bv32, data: seq<byte>): bv32
    decreases |data|
  {
    if data == [] then hash else HashFrom(Step(hash, data[0]), data[1..])
  }

  /** The FNV-1 hash of a whole byte sequence. */
  function Hash(data: seq<byte>): bv32 {
    HashFrom(FNV_32_INIT, data)
  }

  /** The hash over the chunks taken chunk by chunk, as the outer loop of get32BitHash does. */
  function HashChunks(hash: bv32, chunks: seq<seq<byte>>): bv32
    decreases |chunks|
  {
    if chunks == [] then hash else HashChunks(HashFrom(hash, chunks[0]), chunks[1..])
  }

  /** Hashing a concatenation is hashing the first part and continuing with the second. */
  lemma {:induction false} HashFromAppend(hash: bv32, a: seq<byte>, b: seq<byte>)
    ensures HashFrom(hash, a + b) == HashFrom(HashFrom(hash, a), b)
    decreases |a|
  {
    if a == [] {
      assert a + b == b;
    } else {
      assert (a + b)[1..] == a[1..] + b;
      HashFromAppend(Step(hash, a[0]), a[1..], b);
    }
  }

  /** One more byte is one more step. */
  lemma HashFromSnoc(hash: bv32, data: seq<byte>, b: byte)
    ensures HashFrom(hash, data + [b]) == Step(HashFrom(hash, data), b)
  {
    HashFromAppend(hash, data, [b]);
    assert [b][1..] == [];
  }

  /** Hashing one more chunk continues the hash of the chunks before it. */
  lemma HashOneMore(done: seq<seq<byte>>, chunk: seq<byte>)
    ensures HashFrom(Hash(Flatten(done)), chunk) == Hash(Flatten(done + [chunk]))
  {
    HashFromAppend(FNV_32_INIT, Flatten(done), chunk);
    FlattenSnoc(done, chunk);
  }

  /** How the chunks cut the stream does not matter: hashing chunk by chunk is hashing their
      concatenation. */
  lemma {:induction false} HashChunksIsHashOfFlatten(hash: bv32, chunks: seq<seq<byte>>)
    ensures HashChunks(hash, chunks) == HashFrom(hash, Flatten(chunks))
    decreases |chunks|
  {
    if chunks != [] {
      assert chunks == [chunks[0]] + chunks[1..];
      FlattenCons(chunks[0], chunks[1..]);
      HashFromAppend(hash, chunks[0], Flatten(chunks[1..]));
      HashChunksIsHashOfFlatten(HashFrom(hash, chunks[0]), chunks[1..]);
    }
  }

  /** Two ways of reading the same bytes give the same hash. */
  lemma SplitIndependent(chunks1: seq<seq<byte>>, chunks2: seq<seq<byte>>)
    requires Flatten(chunks1) == Flatten(chunks2)
    ensures HashChunks(FNV_32_INIT, chunks1) == HashChunks(FNV_32_INIT, chunks2)
  {
    HashChunksIsHashOfFlatten(FNV_32_INIT, chunks1);
    HashChunksIsHashOfFlatten(FNV_32_INIT, chunks2);
  }

  /** An empty stream hashes to the offset basis. */
  lemma EmptyStreamHash()
    ensures Hash([]) == 0x811c9dc5
    ensures forall chunks: seq<seq<byte>> :: Flatten(chunks) == [] ==> HashChunks(FNV_32_INIT, chunks) == 0x811c9dc5
  {
    forall chunks: seq<seq<byte>> | Flatten(chunks) == [] ensures HashChunks(FNV_32_INIT, chunks) == 0x811c9dc5 {
      HashChunksIsHashOfFlatten(FNV_32_INIT, chunks);
    }
  }

  /** The published FNV-1 32-bit values of "a" and "foobar"; the FNV-1a order (exclusive-or first)
      would give 0xe40c292c for "a". */
  lemma TestVectors()
    ensures Hash([0x61]) == 0x050c5d7e
    ensures Hash([0x66, 0x6f, 0x6f, 0x62, 0x61, 0x72]) == 0x31f0b262
    ensures ((FNV_32_INIT ^ 0x61) * FNV_32_PRIME) != 0x050c5d7e
  {
    assert [0x61][1..] == [];
    var foobar: seq<byte> := [0x66, 0x6f, 0x6f, 0x62, 0x61, 0x72];
    assert foobar[1..] == [0x6f, 0x6f, 0x62, 0x61, 0x72];
    assert foobar[1..][1..] == [0x6f, 0x62, 0x61, 0x72];
    assert foobar[1..][1..][1..] == [0x62, 0x61, 0x72];
    assert foobar[1..][1..][1..][1..] == [0x61, 0x72];
    assert foobar[1..][1..][1..][1..][1..] == [0x72];
    assert foobar[1..][1..][1..][1..][1..][1..] == [];
  }

  /** An InputStream whose successive read(buffer) calls deliver the chunks in `pending` and then
      report the end of the stream; a chunk is at most one buffer long. */
  class ChunkedStream {
    var pending: seq<seq<byte>>

    constructor(chunks: seq<seq<byte>>)
      ensures pending == chunks
    {
      pending := chunks;
    }

    /** read(buffer): the next chunk's length, its bytes at the front of the buffer; -1 at the end. */
    method Read(buffer: array<byte>) returns (c: int)
      requires forall k :: 0 <= k < |pending| ==> |pending[k]| <= buffer.Length
      modifies this, buffer
      ensures old(pending) == [] ==> c == -1 && pending == []
      ensures old(pending) != [] ==>
        && c == |old(pending)[0]|
        && buffer[..c] == old(pending)[0]
        && pending == old(pending)[1..]
    {
      if pending == [] {
        c := -1;
      } else {
        var chunk := pending[0];
        var i := 0;
        while i < |chunk|
          invariant 0 <= i <= |chunk|
          invariant pending == old(pending) && chunk == pending[0]
          invariant buffer[..i] == chunk[..i]
        {
          buffer[i] := chunk[i];
          i := i + 1;
        }
        c := |chunk|;
        pending := pending[1..];
      }
    }
  }

  /** The inner loop of get32BitHash: the first c bytes of the buffer, folded into hash. */
  method HashBuffer(hash: bv32, buffer: array<byte>, c: int) returns (r: bv32)
    requires 0 <= c <= buffer.Length
    ensures r == HashFrom(hash, buffer[..c])
  {
    r := hash;
    for i := 0 to c
      invariant r == HashFrom(hash, buffer[..i])
    {
      r := Step(r, buffer[i]);
      HashFromSnoc(hash, buffer[..i], buffer[i]);
      assert buffer[..i + 1] == buffer[..i] + [buffer[i]];
    }
  }

  /** get32BitHash(stream): the hash of every byte the stream delivers, however the chunks cut it. */
  method Get32BitHash(stream: ChunkedStream) returns (hash: bv32)
    requires forall k :: 0 <= k < |stream.pending| ==> |stream.pending[k]| <= BUFFER_SIZE
    modifies stream
    ensures stream.pending == []
    ensures hash == Hash(Flatten(old(stream.pending)))
  {
    ghost var chunks := stream.pending;
    ghost var done: seq<seq<byte>> := [];
    hash := FNV_32_INIT;
    var buffer := new byte[BUFFER_SIZE];
    var c := stream.Read(buffer);
    if c != -1 {
      assert chunks == [buffer[..c]] + stream.pending;
    }
    while c != -1
      invariant c != -1 ==> 0 <= c <= buffer.Length
      invariant c == -1 ==> done == chunks && stream.pending == []
      invariant c != -1 ==> done + [buffer[..c]] + stream.pending == chunks
      invariant forall k :: 0 <= k < |stream.pending| ==> |stream.pending[k]| <= buffer.Length
      invariant hash == Hash(Flatten(done))
      decreases |stream.pending|, c != -1
    {
      ghost var chunk := buffer[..c];
      hash := HashBuffer(hash, buffer, c);
      HashOneMore(done, chunk);
      done := done + [chunk];
      ghost var rest := stream.pending;
      assert done + rest == chunks;
      c := stream.Read(buffer);
      if c != -1 {
        assert rest == [buffer[..c]] + stream.pending;
      }
    }
  }
}
