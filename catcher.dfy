/** The reassembler: a map from frame id to the chunks received so far
    (pkg/video/endcoding.go:152-195). */
module Catcher {
  import opened GoTypes
  import opened Codec
  import opened Chunk

  // ---------------------------------------------------------------------
  // Ordering by sequence number
  // ---------------------------------------------------------------------

  predicate SortedBySeq(cs: seq<FrameChunk>)
  {
    forall i, j :: 0 <= i < j < |cs| ==> cs[i].sequenceNumber <= cs[j].sequenceNumber
  }

  /** No two chunks share a sequence number, and they come in order. */
  predicate StrictlySortedBySeq(cs: seq<FrameChunk>)
  {
    forall i, j :: 0 <= i < j < |cs| ==> cs[i].sequenceNumber < cs[j].sequenceNumber
  }

  /** Places `c` after every chunk whose sequence number is not larger. */
  function Insert(c: FrameChunk, cs: seq<FrameChunk>): (r: seq<FrameChunk>)
    requires SortedBySeq(cs)
    ensures SortedBySeq(r) && multiset(r) == multiset(cs) + multiset{c}
    ensures r[0] == c || (cs != [] && r[0] == cs[0])
  {
    if cs == [] then [c]
    else if c.sequenceNumber < cs[0].sequenceNumber then
      ConsSorted(c, cs);
      [c] + cs
    else
      assert cs == [cs[0]] + cs[1..];
      var rest := Insert(c, cs[1..]);
      ConsSorted(cs[0], rest);
      [cs[0]] + rest
  }

  lemma ConsSorted(x: FrameChunk, cs: seq<FrameChunk>)
    requires SortedBySeq(cs) && (cs != [] ==> x.sequenceNumber <= cs[0].sequenceNumber)
    ensures SortedBySeq([x] + cs)
  {
  }

  /** The order `sort.Slice` puts the chunks in, by ascending sequence number. */
  function SortBySeq(cs: seq<FrameChunk>): (r: seq<FrameChunk>)
    ensures SortedBySeq(r) && multiset(r) == multiset(cs)
  {
    if cs == [] then []
    else
      assert cs == [cs[0]] + cs[1..];
      Insert(cs[0], SortBySeq(cs[1..]))
  }

  /** A sorted arrangement of chunks with distinct sequence numbers is unique. */
  lemma {:induction false} SortedUnique(s: seq<FrameChunk>, t: seq<FrameChunk>)
    requires SortedBySeq(s) && StrictlySortedBySeq(t) && multiset(s) == multiset(t)
    ensures s == t
    decreases |t|
  {
    assert |s| == |multiset(s)| == |t|;
    if t != [] {
      assert s[0] in multiset(t);
      var j :| 0 <= j < |t| && t[j] == s[0];
      assert t[0] in multiset(s);
      var i :| 0 <= i < |s| && s[i] == t[0];
      assert s[0].sequenceNumber <= s[i].sequenceNumber;
      assert j == 0;
      SameTail(s, t);
      SortedUnique(s[1..], t[1..]);
    }
  }

  /** Sequences with the same multiset and the same head have tails with the
      same multiset. */
  lemma SameTail(s: seq<FrameChunk>, t: seq<FrameChunk>)
    requires s != [] && t != [] && s[0] == t[0] && multiset(s) == multiset(t)
    ensures multiset(s[1..]) == multiset(t[1..])
  {
    assert s == [s[0]] + s[1..];
    assert t == [t[0]] + t[1..];
    assert multiset(s[1..]) == multiset(s) - multiset{s[0]};
    assert multiset(t[1..]) == multiset(t) - multiset{t[0]};
  }

  // ---------------------------------------------------------------------
  // One call of Catch
  // ---------------------------------------------------------------------

  /** `Catch` returning `nil`. */
  const NoFrame: Outcome<Option<Frame>> := Ok(None)

  /** The catcher's map. */
  type Pending = map<uint32, seq<FrameChunk>>

  /** What `Catch` returns for `data` and the map it leaves: `nil` for an
      undecodable datagram; the decoded data of a chunk that says it is the
      only one; otherwise the chunk is appended to its frame id's list, and
      once the list is as long as the arriving chunk's `TotalChunks` the list
      is sorted, joined, removed and decoded. */
  function CatchStep(m: Pending, data: seq<byte>): (r: (Pending, Outcome<Option<Frame>>))
    ensures Decode(data).Failure? ==> r == (m, NoFrame)
    ensures |r.0| <= |m| + 1
  {
    match Decode(data)
    case Failure(_) => (m, Ok(None))
    case Success(c) =>
      if c.totalChunks == 1 then (m, Decoding(c.data))
      else if c.frameId in m then
        var chunks := m[c.frameId] + [c];
        if |chunks| == c.totalChunks as int then
          (m - {c.frameId}, Decoding(Join(SortBySeq(chunks))))
        else (m[c.frameId := chunks], Ok(None))
      else (m[c.frameId := [c]], Ok(None))
  }

  class FrameChunkCatcher {
    var pending: Pending

    /** `NewFrameCatcher`. */
    constructor ()
      ensures pending == map[]
    {
      pending := map[];
    }

    /** `FrameChunkCatcher.Catch`. */
    method Catch(data: seq<byte>) returns (f: Outcome<Option<Frame>>)
      modifies this
      ensures (pending, f) == CatchStep(old(pending), data)
    {
      var decoded := Decode(data);
      if decoded.Failure? {
        return Ok(None);
      }
      var chunk := decoded.value;
      if chunk.totalChunks == 1 {
        f := RunLengthDecode(chunk.data);
        return;
      }
      if chunk.frameId in pending {
        var chunks := pending[chunk.frameId] + [chunk];
        if |chunks| == chunk.totalChunks as int {
          chunks := SortBySeq(chunks);
          var joined: seq<byte> := [];
          for i := 0 to |chunks|
            invariant joined == Join(chunks[..i])
          {
            assert chunks[..i + 1][..i] == chunks[..i];
            joined := joined + chunks[i].data;
          }
          assert chunks[..|chunks|] == chunks;
          pending := pending - {chunk.frameId};
          f := RunLengthDecode(joined);
          return;
        }
        pending := pending[chunk.frameId := chunks];
      } else {
        var chunks := [chunk];
        pending := pending[chunk.frameId := chunks];
      }
      return Ok(None);
    }
  }

  // ---------------------------------------------------------------------
  // Properties of one call
  // ---------------------------------------------------------------------

  /** A datagram shorter than the header is dropped: `nil`, map unchanged. */
  lemma CatchTooSmall(m: Pending, data: seq<byte>)
    requires |data| < HeaderSize
    ensures CatchStep(m, data) == (m, Ok(None))
  {
  }

  /** A chunk that is the whole frame is decoded on the spot and the map is
      not touched, even if its frame id has pending chunks. */
  lemma CatchSingle(m: Pending, c: FrameChunk)
    requires c.totalChunks == 1
    ensures CatchStep(m, Wire(c)) == (m, Decoding(c.data))
  {
    DecodeWire(c);
  }

  /** Only the arriving chunk's frame id is ever touched. */
  lemma CatchOtherIds(m: Pending, data: seq<byte>, other: uint32)
    requires Decode(data).Failure? || Decode(data).value.frameId != other
    ensures var m' := CatchStep(m, data).0;
      (other in m' <==> other in m) && (other in m ==> m'[other] == m[other])
  {
  }

  /** The chunks listed under `id`, none when it has no entry. */
  function Prior(m: Pending, id: uint32): seq<FrameChunk>
  {
    if id in m then m[id] else []
  }

  /** A chunk of a multi-chunk frame that does not complete its list is
      appended to its frame id's list (opening one if need be), and `Catch`
      returns `nil`. */
  lemma CatchStores(m: Pending, c: FrameChunk)
    requires c.totalChunks != 1 && |Prior(m, c.frameId)| + 1 != c.totalChunks as int
    ensures CatchStep(m, Wire(c)) == (m[c.frameId := Prior(m, c.frameId) + [c]], NoFrame)
  {
    DecodeWire(c);
    if c.frameId !in m {
      assert Prior(m, c.frameId) + [c] == [c];
    }
  }

  /** The chunk that brings its list to the announced count completes it:
      the entry is deleted and the sorted, joined data decoded. A fresh frame
      id cannot complete, since a count of 1 takes the fast path. */
  lemma CatchCompletes(m: Pending, c: FrameChunk)
    requires c.totalChunks != 1 && |Prior(m, c.frameId)| + 1 == c.totalChunks as int
    ensures CatchStep(m, Wire(c)) == (m - {c.frameId}, Decoding(Join(SortBySeq(m[c.frameId] + [c]))))
  {
    DecodeWire(c);
  }

  /** Completion counts list entries, not distinct sequence numbers: the same
      chunk of a two-chunk frame caught twice completes the frame with its
      data twice over. */
  lemma DuplicateCompletes(m: Pending, c: FrameChunk)
    requires c.frameId !in m && c.totalChunks == 2
    ensures var m1 := CatchStep(m, Wire(c)).0;
      CatchStep(m, Wire(c)).1 == NoFrame && CatchStep(m1, Wire(c)) == (m, Decoding(c.data + c.data))
  {
    CatchStores(m, c);
    var m1 := m[c.frameId := [c]];
    assert Prior(m, c.frameId) + [c] == [c];
    CatchCompletes(m1, c);
    UpdateRemove(m, c.frameId, [c]);
    assert [c] + [c] == [c, c];
    Twice(c);
  }

  lemma Twice(c: FrameChunk)
    ensures Join(SortBySeq([c, c])) == c.data + c.data
  {
    assert SortBySeq([c]) == [c];
    assert [c, c][1..] == [c];
    assert SortBySeq([c, c]) == [c, c];
    assert [c, c][..1] == [c] && [c][..0] == [];
    assert Join([c]) == Join([]) + c.data;
    assert Join([c, c]) == Join([c]) + c.data;
  }

  /** A chunk announcing 0 chunks never completes: its list only grows. */
  lemma ZeroTotalGrows(m: Pending, c: FrameChunk)
    requires c.totalChunks == 0
    ensures var m' := CatchStep(m, Wire(c)).0;
      CatchStep(m, Wire(c)).1 == NoFrame && c.frameId in m' &&
      |m'[c.frameId]| == |Prior(m, c.frameId)| + 1
  {
    CatchStores(m, c);
  }

  // ---------------------------------------------------------------------
  // A stream of datagrams
  // ---------------------------------------------------------------------

  /** The map and the results after catching `ds` one after the other. */
  function Feed(m: Pending, ds: seq<seq<byte>>): (r: (Pending, seq<Outcome<Option<Frame>>>))
    ensures |r.1| == |ds|
  {
    if ds == [] then (m, [])
    else
      var before := Feed(m, ds[..|ds| - 1]);
      var step := CatchStep(before.0, ds[|ds| - 1]);
      (step.0, before.1 + [step.1])
  }

  function Wires(cs: seq<FrameChunk>): (ds: seq<seq<byte>>)
    ensures |ds| == |cs|
  {
    seq(|cs|, i requires 0 <= i < |cs| => Wire(cs[i]))
  }

  lemma FeedSnoc(m: Pending, ds: seq<seq<byte>>, x: seq<byte>)
    ensures Feed(m, ds + [x]) == (CatchStep(Feed(m, ds).0, x).0, Feed(m, ds).1 + [CatchStep(Feed(m, ds).0, x).1])
  {
    assert (ds + [x])[..|ds|] == ds;
  }

  lemma UpdateRemove(m: Pending, id: uint32, v: seq<FrameChunk>)
    requires id !in m
    ensures m[id := v] - {id} == m
  {
  }

  /** Every chunk `ChunkFrameData` makes carries the frame id and the count. */
  lemma ChunkOfFrame(d: seq<byte>, size: nat, id: uint32, c: FrameChunk)
    requires size > 0 && Count(|d|, size) <= 255
    requires c in multiset(Chunks(d, size, id))
    ensures c.frameId == id && c.totalChunks as int == Count(|d|, size)
  {
    ChunkHeaders(d, size, id);
  }

  /** The chunks of one frame, caught in the order `order` (any rearrangement
      of them), up to but not including the last. */
  lemma {:induction false} FeedPrefix(m: Pending, d: seq<byte>, size: nat, id: uint32, order: seq<FrameChunk>, k: nat)
    requires size > 0 && id !in m
    requires 2 <= Count(|d|, size) <= 255
    requires multiset(order) == multiset(Chunks(d, size, id))
    requires 1 <= k < |order|
    ensures Feed(m, Wires(order)[..k]) == (m[id := order[..k]], Repeat(NoFrame, k))
  {
    var ws := Wires(order);
    assert ws[..k] == ws[..k - 1] + [Wire(order[k - 1])];
    assert Repeat(NoFrame, k) == Repeat(NoFrame, k - 1) + [NoFrame];
    FeedSnoc(m, ws[..k - 1], Wire(order[k - 1]));
    if k == 1 {
      assert ws[..0] == [];
    } else {
      FeedPrefix(m, d, size, id, order, k - 1);
    }
    MiddleChunk(m, d, size, id, order, k);
  }

  /** Chunk `k - 1` of the order is stored, not completed. */
  lemma MiddleChunk(m: Pending, d: seq<byte>, size: nat, id: uint32, order: seq<FrameChunk>, k: nat)
    requires size > 0 && id !in m
    requires 2 <= Count(|d|, size) <= 255
    requires multiset(order) == multiset(Chunks(d, size, id))
    requires 1 <= k < |order|
    ensures CatchStep(if k == 1 then m else m[id := order[..k - 1]], Wire(order[k - 1])) == (m[id := order[..k]], NoFrame)
  {
    var c := order[k - 1];
    assert order[..k] == order[..k - 1] + [c];
    assert |order| == |multiset(order)|;
    var m1 := if k == 1 then m else m[id := order[..k - 1]];
    assert Prior(m1, id) == order[..k - 1];
    assert m1[id := order[..k]] == m[id := order[..k]];
    ChunkOfFrame(d, size, id, c);
    CatchStores(m1, c);
  }

  /** Sorting any rearrangement of a frame's chunks puts them back in the
      order `ChunkFrameData` made them, so joining gives back the data. */
  lemma SortRestores(d: seq<byte>, size: nat, id: uint32, order: seq<FrameChunk>)
    requires size > 0 && Count(|d|, size) <= 255
    requires multiset(order) == multiset(Chunks(d, size, id))
    ensures Join(SortBySeq(order)) == d
  {
    ChunkHeaders(d, size, id);
    SortedUnique(SortBySeq(order), Chunks(d, size, id));
    JoinChunks(d, size, id);
  }

  /** The last chunk of the frame completes its list. */
  lemma LastChunk(m: Pending, d: seq<byte>, size: nat, id: uint32, order: seq<FrameChunk>)
    requires size > 0 && id !in m
    requires 2 <= Count(|d|, size) <= 255
    requires multiset(order) == multiset(Chunks(d, size, id))
    requires |order| == Count(|d|, size)
    ensures CatchStep(m[id := order[..|order| - 1]], Wire(order[|order| - 1])) == (m, Decoding(d))
  {
    var n := |order|;
    var c := order[n - 1];
    assert order[..n - 1] + [c] == order;
    var m1 := m[id := order[..n - 1]];
    assert Prior(m1, id) == order[..n - 1];
    ChunkOfFrame(d, size, id, c);
    CatchCompletes(m1, c);
    UpdateRemove(m, id, order[..n - 1]);
    SortRestores(d, size, id, order);
  }

  /** Catching every chunk of a frame of two or more chunks under a fresh id,
      in any order, yields `nil` for all but the last chunk, the decoded
      frame data for the last, and leaves the map as it was. */
  lemma {:induction false} ReassemblyAnyOrder(m: Pending, d: seq<byte>, size: nat, id: uint32, order: seq<FrameChunk>)
    requires size > 0 && id !in m
    requires 2 <= Count(|d|, size) <= 255
    requires multiset(order) == multiset(Chunks(d, size, id))
    ensures Feed(m, Wires(order)) == (m, Repeat(NoFrame, |order| - 1) + [Decoding(d)])
  {
    var n := |Chunks(d, size, id)|;
    assert |order| == |multiset(order)| == n;
    var ws := Wires(order);
    assert ws == ws[..n - 1] + [Wire(order[n - 1])];
    FeedPrefix(m, d, size, id, order, n - 1);
    FeedSnoc(m, ws[..n - 1], Wire(order[n - 1]));
    LastChunk(m, d, size, id, order);
  }
}
