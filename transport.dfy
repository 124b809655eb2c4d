/** The frame pipeline end to end: encode, chunk, send in any order, catch,
    decode (pkg/video/encoding_test.go:9-61 exercises it). */
module Transport {
  import opened GoTypes
  import opened Codec
  import opened CodecProperties
  import opened Chunk
  import opened Catcher

  /** A frame the codec carries: rectangular, 1 to 255 columns, ASCII cells
      other than rune 0, and no 255 equal cells in a row. */
  predicate Carried(f: Frame)
  {
    Rectangular(f) && |f| > 0 && 1 <= |f[0]| <= 255 &&
    (forall r, c :: 0 <= r < |f| && 0 <= c < |f[r]| ==> 1 <= f[r][c] < 0x80) &&
    NoLongRun(Flatten(f))
  }

  /** A carried frame, cut into 2 to 255 chunks under a fresh frame id and
      caught in any order, comes out whole from the last `Catch`, and the
      catcher forgets the frame id. */
  lemma FrameSurvives(f: Frame, m: Pending, size: nat, id: uint32, order: seq<FrameChunk>)
    requires Carried(f) && size > 0 && id !in m
    requires 2 <= Count(|Encoding(f)|, size) <= 255
    requires multiset(order) == multiset(Chunks(Encoding(f), size, id))
    ensures Feed(m, Wires(order)) == (m, Repeat(NoFrame, |order| - 1) + [Ok(Some(f))])
  {
    ReassemblyAnyOrder(m, Encoding(f), size, id, order);
    DecodeEncode(f);
  }

  /** The grid of pkg/video/encoding_test.go:11-14. */
  function TestFrame(): Frame
  {
    [[35, 35, 35, 46, 37, 37], [35, 35, 35, 46, 37, 37]]
  }

  /** pkg/video/encoding_test.go:9-61: the 13 encoded bytes travel as 7
      chunks of 2, shuffled; only the last `Catch` returns a frame, it is
      the original, and the catcher ends empty. */
  lemma TestEncoding(order: seq<FrameChunk>)
    requires multiset(order) == multiset(Chunks(Encoding(TestFrame()), 2, 1))
    ensures Feed(map[], Wires(order)) == (map[], Repeat(NoFrame, 6) + [Ok(Some(TestFrame()))])
  {
    var f := TestFrame();
    TestFrameEncoding();
    assert |order| == |multiset(order)| == 7;
    var row: seq<Rune> := [35, 35, 35, 46, 37, 37];
    var empty: Frame := [];
    assert f == [row, row] && [row][..0] == empty && f[..1] == [row];
    assert Flatten(f) == row + row;
    ShortNoLongRun(Flatten(f));
    FrameSurvives(f, map[], 2, 1, order);
  }
}
