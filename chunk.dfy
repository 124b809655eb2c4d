/** The frame chunk: a 6-byte header (little-endian frame id, sequence
    number, chunk count) followed by a slice of an encoded frame, and the
    chunker that cuts an encoding into such slices
    (pkg/video/endcoding.go:86-150). */
module Chunk {
  import opened GoTypes
  import opened Arith

  datatype FrameChunk = FrameChunk(frameId: uint32, sequenceNumber: byte, totalChunks: byte, data: seq<byte>)

  /** A Go `error` result: the value, or the error's message. */
  datatype Result<+T> = Success(value: T) | Failure(error: string)

  const HeaderSize: nat := 6
  const TooSmall: string := "frame chunk too small"

  // ---------------------------------------------------------------------
  // binary.LittleEndian
  // ---------------------------------------------------------------------

  /** `binary.LittleEndian.PutUint32`: least significant byte first. */
  function PutUint32(x: uint32): (b: seq<byte>)
    ensures |b| == 4
  {
    [x % 0x100, x / 0x100 % 0x100, x / 0x1_0000 % 0x100, x / 0x100_0000]
  }

  /** `binary.LittleEndian.Uint32`. */
  function Uint32(b: seq<byte>): (x: uint32)
    requires |b| == 4
    ensures x % 0x100 == b[0] && x / 0x100_0000 == b[3]
  {
    var high: int := b[1] as int + b[2] as int * 0x100 + b[3] as int * 0x1_0000;
    var x: int := b[0] as int + high * 0x100;
    DivUnique(x, 0x100, high);
    DivUnique(x, 0x100_0000, b[3]);
    x
  }

  lemma Uint32PutUint32(x: uint32)
    ensures Uint32(PutUint32(x)) == x
  {
    var q1 := x / 0x100;
    var q2 := q1 / 0x100;
    var q3 := q2 / 0x100;
    assert x == q1 * 0x100 + x % 0x100;
    assert q1 == q2 * 0x100 + q1 % 0x100;
    assert q2 == q3 * 0x100 + q2 % 0x100;
    DivUnique(x, 0x1_0000, q2);
    DivUnique(x, 0x100_0000, q3);
  }

  lemma PutUint32Uint32(b: seq<byte>)
    requires |b| == 4
    ensures PutUint32(Uint32(b)) == b
  {
    var x: int := Uint32(b);
    var y1: int := b[1] as int + b[2] as int * 0x100 + b[3] as int * 0x1_0000;
    var y2: int := b[2] as int + b[3] as int * 0x100;
    DivUnique(x, 0x100, y1);
    DivUnique(y1, 0x100, y2);
    DivUnique(x, 0x1_0000, y2);
    DivUnique(y2, 0x100, b[3]);
    DivUnique(x, 0x100_0000, b[3]);
  }

  // ---------------------------------------------------------------------
  // Encode and Decode
  // ---------------------------------------------------------------------

  /** The bytes `Encode` produces for `c`. */
  function Wire(c: FrameChunk): (w: seq<byte>)
    ensures |w| == HeaderSize + |c.data|
    ensures w[..4] == PutUint32(c.frameId) && w[4] == c.sequenceNumber && w[5] == c.totalChunks
    ensures w[HeaderSize..] == c.data
  {
    PutUint32(c.frameId) + [c.sequenceNumber, c.totalChunks] + c.data
  }

  /** `FrameChunk.Encode`: allocates the buffer, writes the header fields and
      copies the data after them. */
  method Encode(c: FrameChunk) returns (buf: seq<byte>)
    ensures |buf| == HeaderSize + |c.data|
    ensures buf[..4] == PutUint32(c.frameId) && buf[4] == c.sequenceNumber && buf[5] == c.totalChunks
    ensures buf[HeaderSize..] == c.data
    ensures buf == Wire(c)
  {
    var a := new byte[HeaderSize + |c.data|](_ => 0);
    var id := PutUint32(c.frameId);
    a[0], a[1], a[2], a[3] := id[0], id[1], id[2], id[3];
    a[4] := c.sequenceNumber;
    a[5] := c.totalChunks;
    forall i | 0 <= i < |c.data| {
      a[HeaderSize + i] := c.data[i];
    }
    WireLayout(c);
    buf := a[..];
    assert forall i :: 0 <= i < |buf| ==> buf[i] == Wire(c)[i];
  }

  lemma WireLayout(c: FrameChunk)
    ensures forall i :: 0 <= i < 4 ==> Wire(c)[i] == PutUint32(c.frameId)[i]
    ensures forall i :: 0 <= i < |c.data| ==> Wire(c)[HeaderSize + i] == c.data[i]
  {
  }

  /** `FrameChunk.Decode`: fails on fewer than 6 bytes, otherwise reads the
      header and keeps the rest as the data. */
  function Decode(bs: seq<byte>): (r: Result<FrameChunk>)
    ensures |bs| < HeaderSize <==> r == Failure(TooSmall)
    ensures |bs| >= HeaderSize ==> r.Success?
    ensures r.Success? ==>
      PutUint32(r.value.frameId) == bs[..4] && r.value.sequenceNumber == bs[4] &&
      r.value.totalChunks == bs[5] && r.value.data == bs[HeaderSize..]
  {
    if |bs| < HeaderSize then Failure(TooSmall)
    else
      PutUint32Uint32(bs[..4]);
      Success(FrameChunk(Uint32(bs[..4]), bs[4], bs[5], bs[HeaderSize..]))
  }

  /** Decoding undoes encoding. */
  lemma DecodeWire(c: FrameChunk)
    ensures Decode(Wire(c)) == Success(c)
  {
    var w := Wire(c);
    assert w[..4] == PutUint32(c.frameId);
    assert w[HeaderSize..] == c.data;
    Uint32PutUint32(c.frameId);
  }

  /** Encoding undoes a successful decode: every datagram of 6 bytes or more
      is the encoding of the chunk it decodes to. */
  lemma WireDecode(bs: seq<byte>)
    requires Decode(bs).Success?
    ensures Wire(Decode(bs).value) == bs
  {
    assert bs == bs[..4] + [bs[4], bs[5]] + bs[HeaderSize..];
  }

  // ---------------------------------------------------------------------
  // ChunkFrameData
  // ---------------------------------------------------------------------

  /** `totalChunks`: the number of pieces of `size` bytes, rounding up. */
  function Count(n: nat, size: nat): nat
    requires size > 0
  {
    (n + size - 1) / size
  }

  /** Chunk `i`: data `d[i*size : min(i*size + size, len d)]`, with the index
      and the count truncated to a byte by `uint8(...)`. */
  function Piece(d: seq<byte>, size: nat, id: uint32, i: nat): (c: FrameChunk)
    requires size > 0 && i < Count(|d|, size)
    ensures 0 < |c.data| <= size
  {
    var start := i * size;
    CeilDiv(|d|, size, i);
    var end := if start + size > |d| then |d| else start + size;
    FrameChunk(id, Uint8(i), Uint8(Count(|d|, size)), d[start..end])
  }

  /** The slice `ChunkFrameData` returns. */
  function Chunks(d: seq<byte>, size: nat, id: uint32): (cs: seq<FrameChunk>)
    requires size > 0
    ensures |cs| == Count(|d|, size)
  {
    seq(Count(|d|, size), i requires 0 <= i < Count(|d|, size) => Piece(d, size, id, i))
  }

  /** `ChunkFrameData`: fills a preallocated slice of `totalChunks` chunks. */
  method ChunkFrameData(d: seq<byte>, size: nat, id: uint32) returns (cs: seq<FrameChunk>)
    requires size > 0
    ensures cs == Chunks(d, size, id)
  {
    var dataLen := |d|;
    var totalChunks := (dataLen + size - 1) / size;
    var chunks := new FrameChunk[totalChunks](_ => FrameChunk(0, 0, 0, []));
    for chunkIdx := 0 to totalChunks
      invariant forall j :: 0 <= j < chunkIdx ==> chunks[j] == Piece(d, size, id, j)
    {
      CeilDiv(dataLen, size, chunkIdx);
      var start := chunkIdx * size;
      var end := start + size;
      if end > dataLen {
        end := dataLen;
      }
      var c := d[start..end];
      chunks[chunkIdx] := FrameChunk(id, Uint8(chunkIdx), Uint8(totalChunks), c);
    }
    cs := chunks[..];
  }

  /** The data of `cs`, concatenated in order. */
  function Join(cs: seq<FrameChunk>): seq<byte>
  {
    if cs == [] then [] else Join(cs[..|cs| - 1]) + cs[|cs| - 1].data
  }

  lemma {:induction false} JoinPrefix(d: seq<byte>, size: nat, id: uint32, k: nat)
    requires size > 0 && k <= Count(|d|, size)
    ensures Join(Chunks(d, size, id)[..k]) == d[..Covered(|d|, size, k)]
  {
    var cs := Chunks(d, size, id);
    if k == 0 {
      assert cs[..0] == [];
    } else {
      JoinPrefix(d, size, id, k - 1);
      assert cs[..k][..k - 1] == cs[..k - 1];
      JoinStep(d, size, id, k - 1);
    }
  }

  /** How many bytes the first `k` chunks hold. */
  function Covered(n: nat, size: nat, k: nat): nat
  {
    if k * size > n then n else k * size
  }

  lemma JoinStep(d: seq<byte>, size: nat, id: uint32, i: nat)
    requires size > 0 && i < Count(|d|, size)
    ensures d[..Covered(|d|, size, i)] + Piece(d, size, id, i).data == d[..Covered(|d|, size, i + 1)]
  {
    MulSucc(i, size);
    CeilDiv(|d|, size, i);
    assert Covered(|d|, size, i) == i * size;
  }

  /** Concatenating the chunks in order gives back the data. */
  lemma JoinChunks(d: seq<byte>, size: nat, id: uint32)
    requires size > 0
    ensures Join(Chunks(d, size, id)) == d
  {
    var cs := Chunks(d, size, id);
    JoinPrefix(d, size, id, |cs|);
    CeilCovers(|d|, size);
    assert Covered(|d|, size, |cs|) == |d|;
    assert cs[..|cs|] == cs;
  }

  /** With at most 255 chunks, chunk `i` carries sequence number `i` and the
      true count, and every chunk but the last is full. */
  lemma ChunkHeaders(d: seq<byte>, size: nat, id: uint32)
    requires size > 0 && Count(|d|, size) <= 255
    ensures var cs := Chunks(d, size, id);
      forall i :: 0 <= i < |cs| ==>
        cs[i].frameId == id && cs[i].sequenceNumber == i && cs[i].totalChunks == |cs| &&
        (i < |cs| - 1 ==> |cs[i].data| == size)
  {
    var cs := Chunks(d, size, id);
    forall i | 0 <= i < |cs| - 1
      ensures |cs[i].data| == size
    {
      CeilDiv(|d|, size, i + 1);
      MulSucc(i, size);
    }
  }

  /** Past 256 chunks the sequence number wraps: chunk 256 claims to be
      chunk 0. */
  lemma SequenceWraps(d: seq<byte>, size: nat, id: uint32)
    requires size > 0 && Count(|d|, size) > 256
    ensures Chunks(d, size, id)[256].sequenceNumber == Chunks(d, size, id)[0].sequenceNumber == 0
  {
  }

  /** pkg/video/encoding_test.go:27-31: 13 bytes in pieces of 2 make 7 chunks. */
  lemma ThirteenBytes(d: seq<byte>, id: uint32)
    requires |d| == 13
    ensures |Chunks(d, 2, id)| == 7 && |Chunks(d, 2, id)[6].data| == 1
  {
  }
}
