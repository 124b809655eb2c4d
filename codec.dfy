/** Run-length coding of a character grid (pkg/video/endcoding.go:11-84).

    An encoding is the column count as one byte, then (count, character)
    byte pairs for the cells in row-major order; a run continues across a row
    boundary. The decoder rebuilds the rows from the column count alone. */
module Codec {
  import opened GoTypes

  // ---------------------------------------------------------------------
  // Encoder
  // ---------------------------------------------------------------------

  /** The encoder's loop variables: `tally`, `prevChar` and `output`.
      Rune 0 doubles as "no previous character". */
  datatype EncState = EncState(tally: byte, prev: Rune, out: seq<byte>)

  /** The state before the first cell, with the column-count byte written. */
  function Start(cols: byte): EncState
  {
    EncState(0, 0, [cols])
  }

  /** What the loop body does with one cell. A tally that reaches 255 is
      written out and restarts at 1, not 0. */
  function Step(s: EncState, c: Rune): (t: EncState)
    requires s.tally <= 254
    ensures t.tally <= 254
  {
    if c == s.prev || s.prev == 0 then
      if s.tally + 1 == 255 then EncState(1, c, s.out + [255, Uint8(c as int)])
      else EncState(s.tally + 1, c, s.out)
    else
      EncState(1, c, s.out + [s.tally, Uint8(s.prev as int)])
  }

  /** The state after the loop has consumed `cells`. */
  function Run(s0: EncState, cells: seq<Rune>): (s: EncState)
    requires s0.tally <= 254
    ensures s.tally <= 254
  {
    if cells == [] then s0
    else Step(Run(s0, cells[..|cells| - 1]), cells[|cells| - 1])
  }

  /** The final `if tally > 0` write. */
  function Flush(s: EncState): seq<byte>
  {
    if s.tally > 0 then s.out + [s.tally, Uint8(s.prev as int)] else s.out
  }

  /** The bytes `RunLengthEncode` returns for `f`. */
  function Encoding(f: Frame): (out: seq<byte>)
    ensures out == [] <==> |f| == 0 || |f[0]| == 0
    ensures out != [] ==> out[0] == Uint8(|f[0]|)
  {
    if |f| == 0 || |f[0]| == 0 then []
    else
      var s0 := Start(Uint8(|f[0]|));
      RunKeepsOutput(s0, Flatten(f));
      Flush(Run(s0, Flatten(f)))
  }

  /** The loop only ever appends to `output`. */
  lemma {:induction false} RunKeepsOutput(s0: EncState, cells: seq<Rune>)
    requires s0.tally <= 254
    ensures s0.out <= Run(s0, cells).out
  {
    if cells != [] {
      RunKeepsOutput(s0, cells[..|cells| - 1]);
    }
  }

  /** The encoder as the source writes it: two nested loops over rows and
      columns that update `tally`, `prevChar` and `output`. */
  method RunLengthEncode(f: Frame) returns (output: seq<byte>)
    ensures output == Encoding(f)
  {
    var tally: byte := 0;
    var prevChar: Rune := 0;
    output := [];
    if |f| == 0 || |f[0]| == 0 {
      return;
    }
    var numCols := Uint8(|f[0]|);
    output := output + [numCols];
    for r := 0 to |f|
      invariant EncState(tally, prevChar, output) == Run(Start(numCols), Flatten(f[..r]))
    {
      ghost var prefix := Flatten(f[..r]);
      assert prefix + f[r][..0] == prefix;
      for c := 0 to |f[r]|
        invariant EncState(tally, prevChar, output) == Run(Start(numCols), prefix + f[r][..c])
      {
        var ch := f[r][c];
        ghost var before := EncState(tally, prevChar, output);
        RunSnoc(Start(numCols), prefix, f[r], c);
        if ch == prevChar || prevChar == 0 {
          prevChar := ch;
          tally := tally + 1;
          if tally == 255 {
            output := output + [tally, Uint8(prevChar as int)];
            tally := 1;
          }
        } else {
          output := output + [tally, Uint8(prevChar as int)];
          prevChar := ch;
          tally := 1;
        }
        assert EncState(tally, prevChar, output) == Step(before, ch);
      }
      assert f[r][..|f[r]|] == f[r];
      FlattenSnoc(f, r);
    }
    assert f[..|f|] == f;
    if tally > 0 {
      output := output + [tally, Uint8(prevChar as int)];
    }
  }

  lemma RunSnoc(s0: EncState, prefix: seq<Rune>, row: seq<Rune>, c: nat)
    requires s0.tally <= 254 && c < |row|
    ensures Run(s0, prefix + row[..c + 1]) == Step(Run(s0, prefix + row[..c]), row[c])
  {
    assert prefix + row[..c + 1] == (prefix + row[..c]) + [row[c]];
    assert ((prefix + row[..c]) + [row[c]])[..|prefix| + c] == prefix + row[..c];
  }

  lemma FlattenSnoc(f: Frame, r: nat)
    requires r < |f|
    ensures Flatten(f[..r + 1]) == Flatten(f[..r]) + f[r]
  {
    assert f[..r + 1][..r] == f[..r];
  }

  // ---------------------------------------------------------------------
  // Decoder
  // ---------------------------------------------------------------------

  /** The code points that `strings.Repeat(string(char), int(n))` appends,
      pair by pair. */
  function Expand(body: seq<byte>): (s: seq<byte>)
    requires |body| % 2 == 0
    ensures |s| == Total(body)
  {
    if body == [] then [] else Repeat(body[1], body[0]) + Expand(body[2..])
  }

  /** The sum of the counts of the pairs in `body`. */
  function Total(body: seq<byte>): nat
    requires |body| % 2 == 0
  {
    if body == [] then 0 else body[0] + Total(body[2..])
  }

  /** The number of bytes the UTF-8 form of code point `b` takes in a Go
      string: `for i, c := range s` advances `i` by this much. */
  function Width(b: byte): nat
  {
    if b < 0x80 then 1 else 2
  }

  /** Every row has `cols` cells. */
  predicate RowsOf(out: seq<seq<Rune>>, cols: nat)
  {
    forall j :: 0 <= j < |out| ==> |out[j]| == cols
  }

  /** One iteration of the refolding loop: the code point `c` at byte index
      `off` opens a new zeroed row when its column is 0, then lands at
      `output[off / cols][off % cols]`. */
  function Place(out: seq<seq<Rune>>, off: nat, c: byte, cols: nat): (r: Outcome<seq<seq<Rune>>>)
    requires cols > 0 && RowsOf(out, cols)
    ensures r.Ok? ==> RowsOf(r.value, cols)
  {
    var out' := if off % cols == 0 then out + [Repeat(0, cols)] else out;
    var row := off / cols;
    var cell := c as Rune;
    if row < |out'| then Ok(out'[row := out'[row][off % cols := cell]]) else Panic(IndexOutOfRange)
  }

  lemma PlaceUnfolds(out: seq<seq<Rune>>, off: nat, c: byte, cols: nat, grown: seq<seq<Rune>>, row: nat, col: nat)
    requires cols > 0 && RowsOf(out, cols)
    requires row == off / cols && col == off % cols
    requires grown == if col == 0 then out + [Repeat(0, cols)] else out
    ensures row < |grown| ==> col < |grown[row]| && Place(out, off, c, cols) == Ok(grown[row := grown[row][col := c as Rune]])
    ensures row >= |grown| ==> Place(out, off, c, cols) == Panic(IndexOutOfRange)
  {
  }

  /** The refolding loop over the code points `rest`, starting at byte index `off`. */
  function Refold(out: seq<seq<Rune>>, off: nat, rest: seq<byte>, cols: nat): (r: Outcome<seq<seq<Rune>>>)
    requires cols > 0 && RowsOf(out, cols)
    ensures r.Ok? ==> RowsOf(r.value, cols)
    decreases |rest|
  {
    if rest == [] then Ok(out)
    else
      match Place(out, off, rest[0], cols)
      case Panic(m) => Panic(m)
      case Ok(out') => Refold(out', off + Width(rest[0]), rest[1..], cols)
  }

  /** What `RunLengthDecode` returns: `Frame{}` for empty input, nil when no
      cell is decoded, and a panic for an odd number of bytes after the
      column count, for zero columns, or when a two-byte code point makes the
      byte index skip the start of a row. */
  function Decoding(data: seq<byte>): (r: Outcome<Option<Frame>>)
    ensures |data| > 0 && |data| % 2 == 0 ==> r == Panic(IndexOutOfRange)
    ensures r.Ok? && r.value.Some? && |data| > 0 ==> RowsOf(r.value.value, data[0])
  {
    if |data| == 0 then Ok(Some([]))
    else
      var cols := data[0];
      var body := data[1..];
      if |body| % 2 == 1 then Panic(IndexOutOfRange)
      else
        var s := Expand(body);
        if s == [] then Ok(None)
        else if cols == 0 then Panic(DivideByZero)
        else
          match Refold([], 0, s, cols)
          case Panic(m) => Panic(m)
          case Ok(rows) => Ok(Some(rows))
  }

  lemma {:induction false} ExpandSnoc(body: seq<byte>, n: byte, c: byte)
    requires |body| % 2 == 0
    ensures Expand(body + [n, c]) == Expand(body) + Repeat(c, n)
  {
    if body == [] {
      assert Expand([n, c]) == Repeat(c, n) + Expand([]);
    } else {
      assert (body + [n, c])[2..] == body[2..] + [n, c];
      ExpandSnoc(body[2..], n, c);
    }
  }

  lemma ExpandPrefix(body: seq<byte>, i: nat)
    requires i % 2 == 0 && i + 1 < |body|
    ensures Expand(body[..i + 2]) == Expand(body[..i]) + Repeat(body[i + 1], body[i])
  {
    assert body[..i + 2] == body[..i] + [body[i], body[i + 1]];
    ExpandSnoc(body[..i], body[i], body[i + 1]);
  }

  /** The first loop of `RunLengthDecode`: builds the string two bytes at a
      time; `data[i+1]` past the end panics. */
  method ExpandPairs(body: seq<byte>) returns (r: Outcome<seq<byte>>)
    ensures |body| % 2 == 1 <==> r == Panic(IndexOutOfRange)
    ensures |body| % 2 == 0 ==> r == Ok(Expand(body))
  {
    var s: seq<byte> := [];
    var i := 0;
    while i < |body|
      invariant 0 <= i <= |body| && i % 2 == 0
      invariant s == Expand(body[..i])
    {
      if i + 1 >= |body| {
        return Panic(IndexOutOfRange);
      }
      var n := body[i];
      var ch := body[i + 1];
      ExpandPrefix(body, i);
      s := s + Repeat(ch, n);
      i := i + 2;
    }
    assert body[..i] == body;
    return Ok(s);
  }

  /** `Refold` over `s[k..]` is one `Place` followed by `Refold` over the rest. */
  lemma RefoldUnfolds(out: seq<seq<Rune>>, off: nat, s: seq<byte>, k: nat, cols: nat)
    requires cols > 0 && RowsOf(out, cols) && k < |s|
    ensures Place(out, off, s[k], cols).Panic? ==> Refold(out, off, s[k..], cols) == Place(out, off, s[k], cols)
    ensures Place(out, off, s[k], cols).Ok? ==>
      Refold(out, off, s[k..], cols) == Refold(Place(out, off, s[k], cols).value, off + Width(s[k]), s[k + 1..], cols)
  {
    assert s[k..][1..] == s[k + 1..];
  }

  /** The second loop of `RunLengthDecode`: ranges over the string (`off` is
      Go's byte index `i`) and writes each code point into its row. */
  method RefoldCells(s: seq<byte>, cols: byte) returns (r: Outcome<seq<seq<Rune>>>)
    requires |s| > 0
    ensures cols == 0 ==> r == Panic(DivideByZero)
    ensures cols > 0 ==> r == Refold([], 0, s, cols)
  {
    if cols == 0 {
      // the first `i % cols` of the loop divides by zero
      return Panic(DivideByZero);
    }
    var output: seq<seq<Rune>> := [];
    var k: nat, off: nat := 0, 0;
    ghost var goal := Refold([], 0, s, cols);
    while k < |s|
      invariant 0 <= k <= |s|
      invariant RowsOf(output, cols) && Refold(output, off, s[k..], cols) == goal
    {
      ghost var before := output;
      RefoldUnfolds(before, off, s, k, cols);
      var col := off % cols;
      if col == 0 {
        output := output + [Repeat(0, cols)];
      }
      var row := off / cols;
      PlaceUnfolds(before, off, s[k], cols, output, row, col);
      if row >= |output| {
        return Panic(IndexOutOfRange);
      }
      var cell := s[k] as Rune;
      output := output[row := output[row][col := cell]];
      off := off + Width(s[k]);
      k := k + 1;
    }
    return Ok(output);
  }

  /** The decoder: the two loops above, with `nil` when no cell is decoded. */
  method RunLengthDecode(data: seq<byte>) returns (r: Outcome<Option<Frame>>)
    ensures r == Decoding(data)
  {
    if |data| == 0 {
      return Ok(Some([]));
    }
    var cols := data[0];
    var expanded := ExpandPairs(data[1..]);
    if expanded.Panic? {
      return Panic(expanded.reason);
    }
    var s := expanded.value;
    if |s| == 0 {
      return Ok(None);
    }
    var rows := RefoldCells(s, cols);
    if rows.Panic? {
      return Panic(rows.reason);
    }
    return Ok(Some(rows.value));
  }
}
