/** Redrawing a frame in the terminal: the cell-by-cell diff against the
    previous frame, or a full clear-and-print when the diff is `nil`
    (pkg/video/update.go, `Display` and `show` in pkg/video/frame.go). The
    terminal is a trace of effects and, to state what they achieve, a grid
    of runes standing for what is on screen. */
module Render {
  import opened GoTypes

  /** The `update` struct: write `ch` at row `row`, column `col`. */
  datatype Update = Update(row: nat, col: nat, ch: Rune)

  /** The terminal calls the renderer makes. `MoveAndWrite` carries the row
      and column written into the cursor-position escape, which the terminal
      counts from 1. */
  datatype Effect = ClearScreen | PrintFrame(f: Frame) | MoveAndWrite(row: nat, col: nat, ch: Rune)

  // ---------------------------------------------------------------------
  // diff
  // ---------------------------------------------------------------------

  /** The length of the first row, 0 for a frame without rows. */
  function FirstRowLength(f: Frame): nat
  {
    if |f| > 0 then |f[0]| else 0
  }

  /** The only shape check `diff` makes: row counts and first-row lengths. */
  predicate SameShape(nf: Frame, of: Frame)
  {
    |nf| == |of| && FirstRowLength(nf) == FirstRowLength(of)
  }

  /** Every cell of the first `r` rows of `nf` has a cell of `of` to compare
      with; otherwise `oldFrame[rowIdx][colIdx]` is out of range. */
  predicate Covers(nf: Frame, of: Frame, r: nat)
    requires r <= |nf| <= |of|
  {
    forall i :: 0 <= i < r ==> |nf[i]| <= |of[i]|
  }

  /** The updates for the first `c` cells of row `r`. */
  function RowChanges(nf: Frame, of: Frame, r: nat, c: nat): seq<Update>
    requires r < |nf| <= |of| && c <= |nf[r]| && c <= |of[r]|
  {
    if c == 0 then []
    else
      var here := if nf[r][c - 1] != of[r][c - 1] then [Update(r, c - 1, nf[r][c - 1])] else [];
      RowChanges(nf, of, r, c - 1) + here
  }

  /** The updates for the first `r` rows. */
  function Changes(nf: Frame, of: Frame, r: nat): seq<Update>
    requires r <= |nf| <= |of| && Covers(nf, of, r)
  {
    if r == 0 then [] else Changes(nf, of, r - 1) + RowChanges(nf, of, r - 1, |nf[r - 1]|)
  }

  /** What `diff` returns: `nil` for no previous frame, a shape mismatch, or
      no changed cell; a panic when a row of the new frame is longer than the
      old row; otherwise the changed cells in row-major order. */
  function Diffing(nf: Frame, prev: Option<Frame>): (r: Outcome<Option<seq<Update>>>)
    ensures r.Ok? && r.value.Some? ==> prev.Some? && SameShape(nf, prev.value) && r.value.value != []
  {
    if prev.None? || !SameShape(nf, prev.value) then Ok(None)
    else if !Covers(nf, prev.value, |nf|) then Panic(IndexOutOfRange)
    else
      var ups := Changes(nf, prev.value, |nf|);
      if ups == [] then Ok(None) else Ok(Some(ups))
  }

  /** `Frame.diff`: two nested loops appending to a slice that stays `nil`
      until the first append. */
  method Diff(nf: Frame, prev: Option<Frame>) returns (r: Outcome<Option<seq<Update>>>)
    ensures r == Diffing(nf, prev)
  {
    if prev.None? {
      return Ok(None);
    }
    var of := prev.value;
    var nfCols := |nf|;
    var nfRows := 0;
    if nfCols > 0 {
      nfRows := |nf[0]|;
    }
    var ofCols := |of|;
    var ofRows := 0;
    if ofCols > 0 {
      ofRows := |of[0]|;
    }
    if nfRows != ofRows || nfCols != ofCols {
      return Ok(None);
    }
    var updates: seq<Update> := [];
    for rowIdx := 0 to |nf|
      invariant Covers(nf, of, rowIdx) && updates == Changes(nf, of, rowIdx)
    {
      for colIdx := 0 to |nf[rowIdx]|
        invariant colIdx <= |of[rowIdx]|
        invariant updates == Changes(nf, of, rowIdx) + RowChanges(nf, of, rowIdx, colIdx)
      {
        if colIdx >= |of[rowIdx]| {
          return Panic(IndexOutOfRange);
        }
        var oldChar := of[rowIdx][colIdx];
        var newChar := nf[rowIdx][colIdx];
        if newChar != oldChar {
          updates := updates + [Update(rowIdx, colIdx, newChar)];
        }
      }
    }
    if updates == [] {
      return Ok(None);
    }
    return Ok(Some(updates));
  }

  // ---------------------------------------------------------------------
  // do, show and Display
  // ---------------------------------------------------------------------

  /** The writes `do` issues: one `moveAndWrite` per update, in order. */
  function Writes(ups: seq<Update>): (t: seq<Effect>)
    ensures |t| == |ups|
  {
    seq(|ups|, i requires 0 <= i < |ups| => MoveAndWrite(ups[i].row, ups[i].col, ups[i].ch))
  }

  /** `updates.do`. */
  method Do(ups: seq<Update>) returns (trace: seq<Effect>)
    ensures |trace| == |ups|
    ensures forall i :: 0 <= i < |ups| ==> trace[i] == MoveAndWrite(ups[i].row, ups[i].col, ups[i].ch)
  {
    trace := [];
    for i := 0 to |ups|
      invariant |trace| == i
      invariant forall j :: 0 <= j < i ==> trace[j] == MoveAndWrite(ups[j].row, ups[j].col, ups[j].ch)
    {
      var u := ups[i];
      trace := trace + [MoveAndWrite(u.row, u.col, u.ch)];
    }
  }

  /** `Frame.show`: clear the screen, then print the whole frame. */
  function Show(f: Frame): (t: seq<Effect>)
    ensures t != [] && t[0] == ClearScreen && t[|t| - 1] == PrintFrame(f)
  {
    [ClearScreen, PrintFrame(f)]
  }

  /** The effects `Display` produces. */
  function Displaying(nf: Frame, prev: Option<Frame>): (r: Outcome<seq<Effect>>)
    ensures r.Panic? <==> Diffing(nf, prev).Panic?
    ensures r.Ok? ==> r.value != []
  {
    match Diffing(nf, prev)
    case Panic(m) => Panic(m)
    case Ok(None) => Ok(Show(nf))
    case Ok(Some(ups)) => Ok(Writes(ups))
  }

  /** The writes `do` evidently means to issue: `show` prints cell (0, 0)
      at cursor position (1, 1), so cell (row, col) is at (row + 1, col + 1).
      No write goes to row or column 0, which the terminal reads as 1. */
  function CursorWrites(ups: seq<Update>): (t: seq<Effect>)
    ensures |t| == |ups|
    ensures forall i :: 0 <= i < |t| ==> t[i].MoveAndWrite? && t[i].row >= 1 && t[i].col >= 1
  {
    seq(|ups|, i requires 0 <= i < |ups| => MoveAndWrite(ups[i].row + 1, ups[i].col + 1, ups[i].ch))
  }

  /** `Display` with the corrected writes: the same choice between a redraw
      and the updates, and the same panic. */
  function CursorDisplaying(nf: Frame, prev: Option<Frame>): (r: Outcome<seq<Effect>>)
    ensures r.Ok? <==> Displaying(nf, prev).Ok?
    ensures r.Ok? ==> |r.value| == |Displaying(nf, prev).value|
  {
    match Diffing(nf, prev)
    case Panic(m) => Panic(m)
    case Ok(None) => Ok(Show(nf))
    case Ok(Some(ups)) => Ok(CursorWrites(ups))
  }

  /** `Frame.Display`. */
  method Display(nf: Frame, prev: Option<Frame>) returns (r: Outcome<seq<Effect>>)
    ensures r == Displaying(nf, prev)
  {
    var ups := Diff(nf, prev);
    if ups.Panic? {
      return Panic(ups.reason);
    }
    if ups.value.Some? {
      var trace := Do(ups.value.value);
      assert trace == Writes(ups.value.value);
      return Ok(trace);
    }
    return Ok(Show(nf));
  }
}
