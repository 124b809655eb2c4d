/** What the run-length encoding means, and when decoding undoes it
    (pkg/video/endcoding.go:11-84, exercised by pkg/video/encoding_test.go). */
module CodecProperties {
  import opened GoTypes
  import opened Codec
  import opened Arith

  // ---------------------------------------------------------------------
  // Shape of an encoding
  // ---------------------------------------------------------------------

  /** Whole (count, character) pairs, every count at least 1. */
  predicate PairsWellFormed(body: seq<byte>)
  {
    |body| % 2 == 0 && forall i :: 0 <= i < |body| && i % 2 == 0 ==> body[i] >= 1
  }

  lemma {:induction false} RunShape(h: byte, cells: seq<Rune>)
    ensures var s := Run(Start(h), cells);
      |s.out| >= 1 && s.out[0] == h && PairsWellFormed(s.out[1..]) &&
      (s.prev != 0 ==> s.tally >= 1) && (cells != [] ==> s.tally >= 1)
  {
    if cells != [] {
      var p := cells[..|cells| - 1];
      var c := cells[|cells| - 1];
      RunShape(h, p);
      var s := Run(Start(h), p);
      if c == s.prev || s.prev == 0 {
        if s.tally + 1 == 255 {
          assert (s.out + [255, Uint8(c as int)])[1..] == s.out[1..] + [255, Uint8(c as int)];
        }
      } else {
        assert (s.out + [s.tally, Uint8(s.prev as int)])[1..] == s.out[1..] + [s.tally, Uint8(s.prev as int)];
      }
    }
  }

  lemma {:induction false} FlattenNonEmpty(f: Frame)
    requires |f| > 0 && |f[0]| > 0
    ensures |Flatten(f)| >= |f[0]|
  {
    if |f| > 1 {
      FlattenNonEmpty(f[..|f| - 1]);
    }
  }

  /** An empty frame (no rows, or an empty first row) encodes to nothing;
      any other frame to its column count, truncated to a byte, followed by
      at least one whole (count, character) pair, every count in 1..255. */
  lemma {:induction false} EncodingShape(f: Frame)
    ensures Encoding(f) == [] <==> |f| == 0 || |f[0]| == 0
    ensures Encoding(f) != [] ==>
      |Encoding(f)| >= 3 && Encoding(f)[0] == Uint8(|f[0]|) && PairsWellFormed(Encoding(f)[1..])
  {
    if |f| > 0 && |f[0]| > 0 {
      var h := Uint8(|f[0]|);
      FlattenNonEmpty(f);
      RunShape(h, Flatten(f));
      var s := Run(Start(h), Flatten(f));
      assert Encoding(f) == s.out + [s.tally, Uint8(s.prev as int)];
      assert Encoding(f)[1..] == s.out[1..] + [s.tally, Uint8(s.prev as int)];
    }
  }

  // ---------------------------------------------------------------------
  // Content of an encoding
  // ---------------------------------------------------------------------

  /** The number of equal cells in the run that ends at cell `i`. */
  function RunLengthAt(cells: seq<Rune>, i: nat): nat
    requires i < |cells|
  {
    if i > 0 && cells[i - 1] == cells[i] then RunLengthAt(cells, i - 1) + 1 else 1
  }

  /** No 255 equal cells in a row (in row-major order). */
  predicate NoLongRun(cells: seq<Rune>)
  {
    forall i :: 0 <= i < |cells| ==> RunLengthAt(cells, i) < 255
  }

  predicate NonZero(cells: seq<Rune>)
  {
    forall i :: 0 <= i < |cells| ==> cells[i] != 0
  }

  /** The byte `byte(r)` the encoder writes for each cell. */
  function Bytes(cells: seq<Rune>): (b: seq<byte>)
    ensures |b| == |cells|
  {
    seq(|cells|, i requires 0 <= i < |cells| => Uint8(cells[i] as int))
  }

  /** While no run saturates, the encoder's state is the pairs written so
      far plus the open run `tally` times `prevChar`, and together they spell
      out the cells seen. */
  lemma {:induction false} RunTracksCells(h: byte, cells: seq<Rune>, k: nat)
    requires 1 <= k <= |cells|
    requires NonZero(cells) && NoLongRun(cells)
    ensures var s := Run(Start(h), cells[..k]);
      s.prev == cells[k - 1] && s.tally as int == RunLengthAt(cells, k - 1) &&
      |s.out| >= 1 && s.out[0] == h && |s.out| % 2 == 1 &&
      Expand(s.out[1..]) + Repeat(Uint8(s.prev as int), s.tally) == Bytes(cells[..k])
  {
    var c := cells[k - 1];
    assert cells[..k][..k - 1] == cells[..k - 1];
    if k == 1 {
      assert Run(Start(h), cells[..k]) == Step(Start(h), c);
      assert Repeat(Uint8(c as int), 1) == [Uint8(c as int)];
    } else {
      RunTracksCells(h, cells, k - 1);
      var s := Run(Start(h), cells[..k - 1]);
      assert cells[..k] == cells[..k - 1] + [c];
      assert RunLengthAt(cells, k - 1) < 255;
      TracksStep(h, s, cells[..k - 1], c);
    }
  }

  /** One step of `RunTracksCells`: a cell equal to the open run extends it,
      any other closes it into a pair and opens a run of 1. */
  lemma TracksStep(h: byte, s: EncState, done: seq<Rune>, c: Rune)
    requires 1 <= s.tally <= 254 && s.prev != 0 && c != 0
    requires c == s.prev ==> s.tally < 254
    requires |s.out| >= 1 && s.out[0] == h && |s.out| % 2 == 1
    requires Expand(s.out[1..]) + Repeat(Uint8(s.prev as int), s.tally) == Bytes(done)
    ensures var t := Step(s, c);
      t.prev == c && t.tally == (if c == s.prev then s.tally + 1 else 1) &&
      |t.out| >= 1 && t.out[0] == h && |t.out| % 2 == 1 &&
      Expand(t.out[1..]) + Repeat(Uint8(c as int), t.tally) == Bytes(done + [c])
  {
    var b := Uint8(c as int);
    assert Bytes(done + [c]) == Bytes(done) + [b];
    if c == s.prev {
      assert Repeat(b, s.tally + 1) == Repeat(b, s.tally) + [b];
    } else {
      ClosePair(s, c);
    }
  }

  lemma ClosePair(s: EncState, c: Rune)
    requires 1 <= s.tally <= 254 && s.prev != 0 && c != 0 && c != s.prev
    requires |s.out| >= 1 && |s.out| % 2 == 1
    ensures var t := Step(s, c);
      t == EncState(1, c, s.out + [s.tally, Uint8(s.prev as int)]) &&
      Expand(t.out[1..]) + Repeat(Uint8(c as int), 1) ==
        Expand(s.out[1..]) + Repeat(Uint8(s.prev as int), s.tally) + [Uint8(c as int)]
  {
    var t := Step(s, c);
    assert t.out[1..] == s.out[1..] + [s.tally, Uint8(s.prev as int)];
    ExpandSnoc(s.out[1..], s.tally, Uint8(s.prev as int));
    assert Repeat(Uint8(c as int), 1) == [Uint8(c as int)];
  }

  lemma {:induction false} RunLengthBound(cells: seq<Rune>, i: nat)
    requires i < |cells|
    ensures RunLengthAt(cells, i) <= i + 1
  {
    if i > 0 && cells[i - 1] == cells[i] {
      RunLengthBound(cells, i - 1);
    }
  }

  /** Fewer than 255 cells cannot hold a run of 255. */
  lemma ShortNoLongRun(cells: seq<Rune>)
    requires |cells| < 255
    ensures NoLongRun(cells)
  {
    forall i | 0 <= i < |cells|
      ensures RunLengthAt(cells, i) < 255
    {
      RunLengthBound(cells, i);
    }
  }

  /** While no run of 255 equal cells occurs and no cell is rune 0, the pairs
      expand to exactly the cells of the frame in row-major order, runs
      crossing row boundaries included. */
  lemma {:induction false} EncodingExpands(f: Frame)
    requires |f| > 0 && |f[0]| > 0
    requires NonZero(Flatten(f)) && NoLongRun(Flatten(f))
    ensures |Encoding(f)| % 2 == 1 && Expand(Encoding(f)[1..]) == Bytes(Flatten(f))
  {
    var cells := Flatten(f);
    var h := Uint8(|f[0]|);
    FlattenNonEmpty(f);
    assert cells[..|cells|] == cells;
    RunTracksCells(h, cells, |cells|);
    FlushExpands(Run(Start(h), cells), Bytes(cells));
  }

  /** The final write closes the open run into the last pair. */
  lemma FlushExpands(s: EncState, b: seq<byte>)
    requires s.tally > 0 && |s.out| >= 1 && |s.out| % 2 == 1
    requires Expand(s.out[1..]) + Repeat(Uint8(s.prev as int), s.tally) == b
    ensures |Flush(s)| % 2 == 1 && Expand(Flush(s)[1..]) == b
  {
    var last := [s.tally, Uint8(s.prev as int)];
    assert (s.out + last)[1..] == s.out[1..] + last;
    ExpandSnoc(s.out[1..], s.tally, Uint8(s.prev as int));
  }

  /** The saturation quirk: a run of 255 equal cells is written as (255, c)
      and the tally restarts at 1, so a second pair (1, c) follows and the
      pairs spell out 256 cells. */
  lemma {:induction false} SaturatedRun(c: Rune, row: seq<Rune>)
    requires c != 0 && |row| == 255 && forall i :: 0 <= i < |row| ==> row[i] == c
    ensures Encoding([row]) == [255, 255, Uint8(c as int), 1, Uint8(c as int)]
    ensures |Expand([255, Uint8(c as int), 1, Uint8(c as int)])| == 256
  {
    var empty: Frame := [];
    assert Flatten([row]) == row by {
      assert [row][..0] == empty;
    }
    var b := Uint8(c as int);
    SaturatedState(c, row);
    assert Encoding([row]) == Flush(EncState(1, c, [255, 255, b]));
    SaturatedPairs(255, b);
  }

  lemma {:induction false} SaturatedState(c: Rune, row: seq<Rune>)
    requires c != 0 && |row| == 255 && forall i :: 0 <= i < |row| ==> row[i] == c
    ensures Run(Start(255), row) == EncState(1, c, [255, 255, Uint8(c as int)])
  {
    RunOfEqual(c, row, 254);
    assert row[..|row|][..254] == row[..254];
    assert row[..|row|] == row;
  }

  lemma SaturatedPairs(n: byte, b: byte)
    ensures |Expand([n, b, 1, b])| == n + 1
  {
    assert Expand([n, b, 1, b]) == Repeat(b, n) + Expand([1, b]);
    assert Expand([1, b]) == Repeat(b, 1) + Expand([]);
  }

  lemma {:induction false} RunOfEqual(c: Rune, row: seq<Rune>, k: nat)
    requires c != 0 && k <= 254 && k <= |row| && forall i :: 0 <= i < |row| ==> row[i] == c
    ensures Run(Start(255), row[..k]) == if k == 0 then Start(255) else EncState(k, c, [255])
  {
    if k > 0 {
      assert row[..k][..k - 1] == row[..k - 1];
      RunOfEqual(c, row, k - 1);
    }
  }

  // ---------------------------------------------------------------------
  // Refolding and the round trip
  // ---------------------------------------------------------------------

  /** The cells `p` cut into rows of `cols`, the last row padded with rune 0
      (the zero value `make([]rune, cols)` leaves). */
  function Grid(p: seq<byte>, cols: nat): (g: Frame)
    requires cols > 0
    ensures |g| == (|p| + cols - 1) / cols
  {
    seq((|p| + cols - 1) / cols, r requires 0 <= r =>
      seq(cols, c requires 0 <= c => if r * cols + c < |p| then p[r * cols + c] as Rune else 0))
  }

  predicate Ascii(p: seq<byte>)
  {
    forall i :: 0 <= i < |p| ==> p[i] < 0x80
  }

  lemma {:induction false} FlattenLength(f: Frame)
    requires Rectangular(f) && |f| > 0
    ensures |Flatten(f)| == |f| * |f[0]|
  {
    var n := |f| - 1;
    if n > 0 {
      FlattenLength(f[..n]);
    }
    MulSucc(n, |f[0]|);
  }

  /** Writing one more ASCII cell at byte index |p| extends the grid by that cell. */
  lemma {:induction false} PlaceGrid(p: seq<byte>, x: byte, cols: nat)
    requires cols > 0 && x < 0x80
    ensures Place(Grid(p, cols), |p|, x, cols) == Ok(Grid(p + [x], cols))
  {
    var n := |p|;
    var q, m := n / cols, n % cols;
    var g, g' := Grid(p, cols), Grid(p + [x], cols);
    DivCeil(n, cols);
    var grown := if m == 0 then g + [Repeat(0, cols)] else g;
    assert |grown| == q + 1 == |g'|;
    var placed := grown[q := grown[q][m := x as Rune]];
    forall r | 0 <= r < q + 1
      ensures placed[r] == g'[r]
    {
      forall c | 0 <= c < cols
        ensures placed[r][c] == g'[r][c]
      {
        GridCell(p, x, cols, r, c);
      }
    }
    assert placed == g';
  }

  /** The cell arithmetic behind `PlaceGrid`, one cell at a time. */
  lemma {:induction false} GridCell(p: seq<byte>, x: byte, cols: nat, r: nat, c: nat)
    requires cols > 0 && r <= |p| / cols && c < cols
    ensures var i := r * cols + c;
      (r < |p| / cols ==> i < |p|) &&
      (r == |p| / cols ==> (c < |p| % cols <==> i < |p|) && (c == |p| % cols <==> i == |p|))
  {
    var n := |p|;
    var q, m := n / cols, n % cols;
    assert n == q * cols + m;
    if r < q {
      RowMajorBound(r, c, q, cols);
    }
  }

  /** Refolding ASCII cells (each one byte wide) cuts them into rows of `cols`. */
  lemma {:induction false} RefoldAscii(p: seq<byte>, cols: nat, k: nat)
    requires cols > 0 && Ascii(p) && k <= |p|
    ensures Refold(Grid(p[..k], cols), k, p[k..], cols) == Ok(Grid(p, cols))
    decreases |p| - k
  {
    if k == |p| {
      assert p[..k] == p;
    } else {
      PlaceGrid(p[..k], p[k], cols);
      assert p[..k] + [p[k]] == p[..k + 1];
      assert p[k..][1..] == p[k + 1..];
      RefoldAscii(p, cols, k + 1);
    }
  }

  lemma {:induction false} FlattenIndex(f: Frame, r: nat, c: nat)
    requires Rectangular(f) && r < |f| && c < |f[0]|
    ensures r * |f[0]| + c < |Flatten(f)| && Flatten(f)[r * |f[0]| + c] == f[r][c]
  {
    var n := |f| - 1;
    var init := f[..n];
    assert Flatten(f) == Flatten(init) + f[n];
    if n > 0 {
      FlattenLength(init);
    }
    if r < n {
      FlattenIndex(init, r, c);
      RowMajorBound(r, c, n, |f[0]|);
    } else {
      assert r * |f[0]| == |Flatten(init)|;
    }
  }

  /** Cell `i` of the row-major order is the one at row `i / cols`, column `i % cols`. */
  lemma {:induction false} CellAt(f: Frame, i: nat)
    requires Rectangular(f) && |f| > 0 && |f[0]| > 0 && i < |Flatten(f)|
    ensures i / |f[0]| < |f| && Flatten(f)[i] == f[i / |f[0]|][i % |f[0]|]
  {
    var cols := |f[0]|;
    FlattenLength(f);
    RowOfIndex(i, cols, |f|);
    FlattenIndex(f, i / cols, i % cols);
  }

  lemma {:induction false} CellsWithin(f: Frame, lo: int, hi: int)
    requires Rectangular(f) && |f| > 0 && |f[0]| > 0
    requires forall r, c :: 0 <= r < |f| && 0 <= c < |f[r]| ==> lo <= f[r][c] as int < hi
    ensures forall i :: 0 <= i < |Flatten(f)| ==> lo <= Flatten(f)[i] as int < hi
  {
    forall i | 0 <= i < |Flatten(f)|
      ensures lo <= Flatten(f)[i] as int < hi
    {
      CellAt(f, i);
    }
  }

  /** Cutting the cells of a rectangular ASCII frame at its width gives the frame back. */
  lemma {:induction false} GridFlatten(f: Frame)
    requires Rectangular(f) && |f| > 0 && |f[0]| > 0
    requires forall i :: 0 <= i < |Flatten(f)| ==> 0 <= Flatten(f)[i] < 0x80
    ensures Ascii(Bytes(Flatten(f)))
    ensures Grid(Bytes(Flatten(f)), |f[0]|) == f
  {
    var cols := |f[0]|;
    var cells := Flatten(f);
    var g := Grid(Bytes(cells), cols);
    FlattenLength(f);
    DivCeil(|f| * cols, cols);
    DivUnique(|f| * cols, cols, |f|);
    assert |g| == |f|;
    forall r, c | 0 <= r < |f| && 0 <= c < cols
      ensures g[r][c] == f[r][c]
    {
      FlattenIndex(f, r, c);
    }
    assert forall r | 0 <= r < |f| :: g[r] == f[r];
  }

  /** A column count and whole pairs spelling out at least one ASCII cell
      decode to those cells cut into rows. */
  lemma {:induction false} DecodingOfAscii(data: seq<byte>)
    requires |data| > 0 && data[0] > 0 && |data[1..]| % 2 == 0
    requires Expand(data[1..]) != [] && Ascii(Expand(data[1..]))
    ensures Decoding(data) == Ok(Some(Grid(Expand(data[1..]), data[0])))
  {
    var s := Expand(data[1..]);
    var cols := data[0] as nat;
    assert Decoding(data) == match Refold([], 0, s, cols) case Panic(m) => Panic(m) case Ok(rows) => Ok(Some(rows));
    RefoldAscii(s, cols, 0);
    assert s[..0] == [] && s[0..] == s;
    DivUnique(cols - 1, cols, 0);
    assert Grid([], cols) == [];
  }

  /** The property the codec's tests check: decoding an encoding gives the
      frame back, for a rectangular frame of 1..255 columns whose cells are
      ASCII characters other than rune 0 and contain no run of 255 equal
      cells in row-major order. */
  lemma {:induction false} DecodeEncode(f: Frame)
    requires Rectangular(f) && |f| > 0 && 1 <= |f[0]| <= 255
    requires forall r, c :: 0 <= r < |f| && 0 <= c < |f[r]| ==> 1 <= f[r][c] < 0x80
    requires NoLongRun(Flatten(f))
    ensures Decoding(Encoding(f)) == Ok(Some(f))
  {
    CellsWithin(f, 1, 0x80);
    EncodingShape(f);
    EncodingExpands(f);
    GridFlatten(f);
    FlattenNonEmpty(f);
    DecodingOfAscii(Encoding(f));
  }

  /** The empty frame and a frame with an empty first row encode to nothing,
      and nothing decodes to the empty (non-nil) frame. */
  lemma {:induction false} EmptyFrames(f: Frame)
    requires |f| == 0 || |f[0]| == 0
    ensures Encoding(f) == [] && Decoding(Encoding(f)) == Ok(Some([]))
  {
  }

  // ---------------------------------------------------------------------
  // Worked examples
  // ---------------------------------------------------------------------

  /** The encoder's state can be computed front to back as well. */
  lemma {:induction false} RunCons(s0: EncState, c: Rune, rest: seq<Rune>)
    requires s0.tally <= 254
    ensures Run(s0, [c] + rest) == Run(Step(s0, c), rest)
    decreases |rest|
  {
    if rest == [] {
      assert ([c] + rest)[..0] == [];
    } else {
      var p := rest[..|rest| - 1];
      assert ([c] + rest)[..|rest|] == [c] + p;
      RunCons(s0, c, p);
    }
  }

  lemma RunFrom(s0: EncState, cells: seq<Rune>, k: nat)
    requires s0.tally <= 254 && k < |cells|
    ensures Run(s0, cells[k..]) == Run(Step(s0, cells[k]), cells[k + 1..])
  {
    assert cells[k..] == [cells[k]] + cells[k + 1..];
    RunCons(s0, cells[k], cells[k + 1..]);
  }

  /** Consumes cell `k` of `cells`, naming the state reached. */
  lemma Walk(s: EncState, cells: seq<Rune>, k: nat, t: EncState)
    requires s.tally <= 254 && k < |cells| && t == Step(s, cells[k])
    ensures Run(s, cells[k..]) == Run(t, cells[k + 1..])
  {
    RunFrom(s, cells, k);
  }

  /** The first row of the grid in pkg/video/encoding_test.go:9-61. */
  lemma RowOne()
    ensures Run(Start(6), [35, 35, 35, 46, 37, 37]) == EncState(2, 37, [6, 3, 35, 1, 46])
  {
    var c: seq<Rune> := [35, 35, 35, 46, 37, 37];
    assert c[0..] == c;
    Walk(Start(6), c, 0, EncState(1, 35, [6]));
    Walk(EncState(1, 35, [6]), c, 1, EncState(2, 35, [6]));
    Walk(EncState(2, 35, [6]), c, 2, EncState(3, 35, [6]));
    Walk(EncState(3, 35, [6]), c, 3, EncState(1, 46, [6, 3, 35]));
    Walk(EncState(1, 46, [6, 3, 35]), c, 4, EncState(1, 37, [6, 3, 35, 1, 46]));
    Walk(EncState(1, 37, [6, 3, 35, 1, 46]), c, 5, EncState(2, 37, [6, 3, 35, 1, 46]));
    assert c[6..] == [];
  }

  /** Its second row: the run of `%` left open by row one is cut by `#`. */
  lemma RowTwo()
    ensures Run(EncState(2, 37, [6, 3, 35, 1, 46]), [35, 35, 35, 46, 37, 37]) == EncState(2, 37, [6, 3, 35, 1, 46, 2, 37, 3, 35, 1, 46])
  {
    var c: seq<Rune> := [35, 35, 35, 46, 37, 37];
    var o: seq<byte> := [6, 3, 35, 1, 46, 2, 37];
    assert c[0..] == c;
    Walk(EncState(2, 37, [6, 3, 35, 1, 46]), c, 0, EncState(1, 35, o));
    Walk(EncState(1, 35, o), c, 1, EncState(2, 35, o));
    Walk(EncState(2, 35, o), c, 2, EncState(3, 35, o));
    Walk(EncState(3, 35, o), c, 3, EncState(1, 46, o + [3, 35]));
    Walk(EncState(1, 46, o + [3, 35]), c, 4, EncState(1, 37, o + [3, 35, 1, 46]));
    Walk(EncState(1, 37, o + [3, 35, 1, 46]), c, 5, EncState(2, 37, o + [3, 35, 1, 46]));
    assert c[6..] == [];
  }

  /** Consuming `a + b` is consuming `a`, then `b`. */
  lemma {:induction false} RunAppend(s0: EncState, a: seq<Rune>, b: seq<Rune>)
    requires s0.tally <= 254
    ensures Run(s0, a + b) == Run(Run(s0, a), b)
    decreases |b|
  {
    if b == [] {
      assert a + b == a;
    } else {
      var p := b[..|b| - 1];
      assert (a + b)[..|a + b| - 1] == a + p;
      RunAppend(s0, a, p);
    }
  }

  /** The expected bytes of pkg/video/encoding_test.go:9-61. */
  lemma TestFrameEncoding()
    ensures Encoding([[35, 35, 35, 46, 37, 37], [35, 35, 35, 46, 37, 37]]) == [6, 3, 35, 1, 46, 2, 37, 3, 35, 1, 46, 2, 37]
  {
    var row: seq<Rune> := [35, 35, 35, 46, 37, 37];
    var f: Frame := [row, row];
    var empty: Frame := [];
    assert [row][..0] == empty;
    assert f[..1] == [row];
    assert Flatten([row]) == Flatten(empty) + row;
    assert Flatten(f) == row + row;
    RunAppend(Start(6), row, row);
    RowOne();
    RowTwo();
  }

  /** A code point of 0x80 or more takes two bytes of Go's string index, so
      the cell after it lands one column too far: the round trip of
      `DecodeEncode` does not extend past ASCII. */
  lemma NonAsciiCell()
    ensures Encoding([[200, 65]]) == [2, 1, 200, 1, 65]
    ensures Decoding([2, 1, 200, 1, 65]) == Ok(Some([[200, 0], [65, 0]]))
  {
    NonAsciiEncoding();
    var body: seq<byte> := [1, 200, 1, 65];
    assert [2, 1, 200, 1, 65][1..] == body;
    assert body[2..] == [1, 65];
    assert Expand(body) == [200, 65];
    NonAsciiRefold();
  }

  lemma NonAsciiEncoding()
    ensures Encoding([[200, 65]]) == [2, 1, 200, 1, 65]
  {
    var row: seq<Rune> := [200, 65];
    var empty: Frame := [];
    assert [row][..0] == empty;
    assert Flatten([row]) == row;
    assert row[0..] == row;
    Walk(Start(2), row, 0, EncState(1, 200, [2]));
    Walk(EncState(1, 200, [2]), row, 1, EncState(1, 65, [2, 1, 200]));
    assert row[2..] == [];
  }

  lemma NonAsciiRefold()
    ensures Refold([], 0, [200, 65], 2) == Ok([[200, 0], [65, 0]])
  {
    var s: seq<byte> := [200, 65];
    assert s[1..] == [65];
    var zeros: seq<Rune> := Repeat(0, 2);
    assert zeros == [0, 0];
    PlaceUnfolds([], 0, 200, 2, [zeros], 0, 0);
    var r0: seq<Rune> := [200, 0];
    assert zeros[0 := 200] == r0;
    assert [zeros][0 := r0] == [r0];
    PlaceUnfolds([r0], 2, 65, 2, [r0, zeros], 1, 0);
    var r1: seq<Rune> := [65, 0];
    assert zeros[0 := 65] == r1;
    assert [r0, zeros][1 := r1] == [r0, r1];
  }
}
