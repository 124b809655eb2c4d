/** What the diff means and what the redraw achieves
    (pkg/video/update.go:3-44, pkg/video/frame.go:49-63). */
module RenderProperties {
  import opened GoTypes
  import opened Render

  // ---------------------------------------------------------------------
  // The diff lists exactly the changed cells, in row-major order
  // ---------------------------------------------------------------------

  /** `u` writes the new character of a cell that differs between the frames. */
  predicate Changed(nf: Frame, of: Frame, u: Update)
  {
    u.row < |nf| && u.row < |of| && u.col < |nf[u.row]| && u.col < |of[u.row]| &&
    u.ch == nf[u.row][u.col] && nf[u.row][u.col] != of[u.row][u.col]
  }

  /** Row-major order of two cells. */
  predicate Before(u: Update, v: Update)
  {
    u.row < v.row || (u.row == v.row && u.col < v.col)
  }

  predicate Ordered(ups: seq<Update>)
  {
    forall i, j :: 0 <= i < j < |ups| ==> Before(ups[i], ups[j])
  }

  lemma {:induction false} RowChangesSound(nf: Frame, of: Frame, r: nat, c: nat)
    requires r < |nf| <= |of| && c <= |nf[r]| && c <= |of[r]|
    ensures var ups := RowChanges(nf, of, r, c);
      Ordered(ups) &&
      forall i :: 0 <= i < |ups| ==> Changed(nf, of, ups[i]) && ups[i].row == r && ups[i].col < c
  {
    if c > 0 {
      RowChangesSound(nf, of, r, c - 1);
    }
  }

  lemma {:induction false} RowChangesComplete(nf: Frame, of: Frame, r: nat, c: nat)
    requires r < |nf| <= |of| && c <= |nf[r]| && c <= |of[r]|
    ensures forall j :: 0 <= j < c && nf[r][j] != of[r][j] ==> Update(r, j, nf[r][j]) in RowChanges(nf, of, r, c)
  {
    if c > 0 {
      RowChangesComplete(nf, of, r, c - 1);
    }
  }

  lemma {:induction false} ChangesSound(nf: Frame, of: Frame, r: nat)
    requires r <= |nf| <= |of| && Covers(nf, of, r)
    ensures var ups := Changes(nf, of, r);
      Ordered(ups) && forall i :: 0 <= i < |ups| ==> Changed(nf, of, ups[i]) && ups[i].row < r
  {
    if r > 0 {
      ChangesSound(nf, of, r - 1);
      RowChangesSound(nf, of, r - 1, |nf[r - 1]|);
    }
  }

  lemma {:induction false} ChangesComplete(nf: Frame, of: Frame, r: nat)
    requires r <= |nf| <= |of| && Covers(nf, of, r)
    ensures forall i, j :: 0 <= i < r && 0 <= j < |nf[i]| && nf[i][j] != of[i][j] ==>
      Update(i, j, nf[i][j]) in Changes(nf, of, r)
  {
    if r > 0 {
      ChangesComplete(nf, of, r - 1);
      RowChangesComplete(nf, of, r - 1, |nf[r - 1]|);
    }
  }

  /** When `diff` returns updates, each one writes the new character of a
      changed cell, every changed cell has one, and they come in strict
      row-major order (so no cell twice). */
  lemma DiffExact(nf: Frame, prev: Option<Frame>)
    requires Diffing(nf, prev).Ok? && Diffing(nf, prev).value.Some?
    ensures var ups := Diffing(nf, prev).value.value; var of := prev.value;
      Ordered(ups) &&
      (forall i :: 0 <= i < |ups| ==> Changed(nf, of, ups[i])) &&
      (forall r, c :: 0 <= r < |nf| && 0 <= c < |nf[r]| && nf[r][c] != of[r][c] ==> Update(r, c, nf[r][c]) in ups)
  {
    ChangesSound(nf, prev.value, |nf|);
    ChangesComplete(nf, prev.value, |nf|);
  }

  // ---------------------------------------------------------------------
  // When diff is nil
  // ---------------------------------------------------------------------

  /** No previous frame, or a different number of rows or first-row length:
      `nil`, whatever the cells. */
  lemma DiffNilOnShape(nf: Frame, prev: Option<Frame>)
    requires prev.None? || !SameShape(nf, prev.value)
    ensures Diffing(nf, prev) == Ok(None)
  {
  }

  /** An empty but non-nil previous frame behaves like no previous frame. */
  lemma DiffEmptyPrevious(nf: Frame)
    ensures Diffing(nf, Some([])) == Ok(None)
  {
    if |nf| == 0 {
      assert Changes(nf, [], 0) == [];
    }
  }

  /** Frames of one shape whose rows all have the same length. */
  predicate Aligned(nf: Frame, of: Frame)
  {
    |nf| == |of| && forall i :: 0 <= i < |nf| ==> |nf[i]| == |of[i]|
  }

  lemma RectangularAligned(nf: Frame, of: Frame)
    requires Rectangular(nf) && Rectangular(of) && SameShape(nf, of)
    ensures Aligned(nf, of)
  {
  }

  /** For aligned frames `diff` is `nil` exactly when nothing changed. */
  lemma DiffNilIffEqual(nf: Frame, of: Frame)
    requires Aligned(nf, of)
    ensures Diffing(nf, Some(of)) == Ok(None) <==> nf == of
  {
    assert SameShape(nf, of) && Covers(nf, of, |nf|);
    var ups := Changes(nf, of, |nf|);
    ChangesSound(nf, of, |nf|);
    assert |ups| > 0 ==> Changed(nf, of, ups[0]);
    if nf != of {
      SomeChange(nf, of);
    }
  }

  lemma SomeChange(nf: Frame, of: Frame)
    requires Aligned(nf, of) && nf != of
    ensures Changes(nf, of, |nf|) != []
  {
    ChangesComplete(nf, of, |nf|);
    var i :| 0 <= i < |nf| && nf[i] != of[i];
    var j :| 0 <= j < |nf[i]| && nf[i][j] != of[i][j];
    assert Update(i, j, nf[i][j]) in Changes(nf, of, |nf|);
  }

  // ---------------------------------------------------------------------
  // The number of updates
  // ---------------------------------------------------------------------

  /** The cells the updates write to. */
  function Positions(ups: seq<Update>): set<(nat, nat)>
  {
    if ups == [] then {} else Positions(ups[..|ups| - 1]) + {(ups[|ups| - 1].row, ups[|ups| - 1].col)}
  }

  lemma {:induction false} PositionsMembers(ups: seq<Update>, p: (nat, nat))
    ensures p in Positions(ups) <==> exists i :: 0 <= i < |ups| && (ups[i].row, ups[i].col) == p
  {
    if ups != [] {
      var n := |ups| - 1;
      PositionsMembers(ups[..n], p);
      if p in Positions(ups[..n]) {
        var i :| 0 <= i < n && (ups[..n][i].row, ups[..n][i].col) == p;
        assert (ups[i].row, ups[i].col) == p;
      }
    }
  }

  lemma {:induction false} OrderedPositions(ups: seq<Update>)
    requires Ordered(ups)
    ensures |Positions(ups)| == |ups|
  {
    if ups != [] {
      var n := |ups| - 1;
      var p := (ups[n].row, ups[n].col);
      OrderedPositions(ups[..n]);
      PositionsMembers(ups[..n], p);
    }
  }

  /** The cells that differ between two frames. */
  function ChangedCells(nf: Frame, of: Frame): set<(nat, nat)>
  {
    set r: nat, c: nat | r < |nf| && r < |of| && c < |nf[r]| && c < |of[r]| && nf[r][c] != of[r][c] :: (r, c)
  }

  /** For aligned frames, `diff` makes one update per changed cell. */
  lemma UpdateCount(nf: Frame, of: Frame)
    requires Aligned(nf, of)
    ensures |Changes(nf, of, |nf|)| == |ChangedCells(nf, of)|
  {
    var ups := Changes(nf, of, |nf|);
    ChangesSound(nf, of, |nf|);
    ChangesComplete(nf, of, |nf|);
    OrderedPositions(ups);
    forall p | p in ChangedCells(nf, of)
      ensures p in Positions(ups)
    {
      var (r, c) := p;
      var i :| 0 <= i < |ups| && ups[i] == Update(r, c, nf[r][c]);
      PositionsMembers(ups, p);
    }
    forall p | p in Positions(ups)
      ensures p in ChangedCells(nf, of)
    {
      PositionsMembers(ups, p);
      var i :| 0 <= i < |ups| && (ups[i].row, ups[i].col) == p;
      assert Changed(nf, of, ups[i]);
    }
    assert Positions(ups) == ChangedCells(nf, of);
  }

  // ---------------------------------------------------------------------
  // What the redraw leaves on the screen
  // ---------------------------------------------------------------------

  /** The printed cell a cursor coordinate lands on: the terminal counts
      from 1 and reads 0 as 1. */
  function Cell(n: nat): nat
  {
    if n == 0 then 0 else n - 1
  }

  /** The screen after one effect: clearing empties it, printing shows the
      whole frame from the top-left corner, and a write replaces the cell
      under the cursor when that cell is on screen. */
  function Apply(screen: Frame, e: Effect): Frame
  {
    match e
    case ClearScreen => []
    case PrintFrame(f) => f
    case MoveAndWrite(r, c, ch) =>
      var (i, j) := (Cell(r), Cell(c));
      if i < |screen| && j < |screen[i]| then screen[i := screen[i][j := ch]] else screen
  }

  /** The screen after a trace of effects. */
  function Paint(screen: Frame, t: seq<Effect>): Frame
  {
    if t == [] then screen else Apply(Paint(screen, t[..|t| - 1]), t[|t| - 1])
  }

  /** `show` leaves exactly the frame on screen, whatever was there. */
  lemma ShowPaints(screen: Frame, f: Frame)
    ensures Paint(screen, Show(f)) == f
  {
    assert Show(f)[..1] == [ClearScreen];
    assert [ClearScreen][..0] == [];
  }

  lemma {:induction false} PaintAppend(screen: Frame, t: seq<Effect>, u: seq<Effect>)
    ensures Paint(screen, t + u) == Paint(Paint(screen, t), u)
  {
    if u == [] {
      assert t + u == t;
    } else {
      assert (t + u)[..|t + u| - 1] == t + u[..|u| - 1];
      PaintAppend(screen, t, u[..|u| - 1]);
    }
  }

  /** As written, `do` sends an update's own indices as the cursor position,
      so a change in the bottom-right cell of a 2 x 2 frame is written over
      the top-left cell and the screen does not show the new frame. */
  lemma MisplacedWrite()
    ensures var prev: Frame := [[97, 98], [99, 100]];
      var nf: Frame := [[97, 98], [99, 88]];
      Displaying(nf, Some(prev)) == Ok([MoveAndWrite(1, 1, 88)]) &&
      Paint(prev, Displaying(nf, Some(prev)).value) == [[88, 98], [99, 100]] != nf
  {
    var prev: Frame := [[97, 98], [99, 100]];
    var nf: Frame := [[97, 98], [99, 88]];
    assert RowChanges(nf, prev, 0, 2) == [] by {
      assert RowChanges(nf, prev, 0, 1) == [];
    }
    assert RowChanges(nf, prev, 1, 2) == [Update(1, 1, 88)] by {
      assert RowChanges(nf, prev, 1, 1) == [];
    }
    assert Changes(nf, prev, 2) == [Update(1, 1, 88)] by {
      assert Changes(nf, prev, 1) == [];
    }
    var t := [MoveAndWrite(1, 1, 88)];
    assert Writes([Update(1, 1, 88)]) == t;
    assert t[..0] == [];
    assert Paint(prev, t) == Apply(prev, t[0]);
    assert prev[0][0 := 88] == [88, 98];
  }

  lemma CursorWritesAppend(a: seq<Update>, b: seq<Update>)
    ensures CursorWrites(a + b) == CursorWrites(a) + CursorWrites(b)
  {
    assert forall i :: 0 <= i < |a + b| ==> CursorWrites(a + b)[i] == (CursorWrites(a) + CursorWrites(b))[i];
  }

  lemma PaintWrite(screen: Frame, ups: seq<Update>, u: Update)
    ensures Paint(screen, CursorWrites(ups + [u])) ==
      Apply(Paint(screen, CursorWrites(ups)), MoveAndWrite(u.row + 1, u.col + 1, u.ch))
  {
    CursorWritesAppend(ups, [u]);
    var t := CursorWrites(ups) + [MoveAndWrite(u.row + 1, u.col + 1, u.ch)];
    assert CursorWrites(ups + [u]) == t;
    assert t[..|t| - 1] == CursorWrites(ups);
  }

  lemma WriteCell(screen: Frame, r: nat, row: seq<Rune>, k: nat, ch: Rune)
    requires r < |screen| && k < |row|
    ensures Apply(screen[r := row], MoveAndWrite(r + 1, k + 1, ch)) == screen[r := row[k := ch]]
  {
  }

  /** Moving the boundary between a new row and an old row one cell right. */
  lemma Splice(a: seq<Rune>, b: seq<Rune>, k: nat)
    requires |a| == |b| && k < |a|
    ensures (a[..k] + b[k..])[k := a[k]] == a[..k + 1] + b[k + 1..]
    ensures a[k] == b[k] ==> a[..k] + b[k..] == a[..k + 1] + b[k + 1..]
  {
    assert forall i :: 0 <= i < |a| ==> (a[..k + 1] + b[k + 1..])[i] == if i <= k then a[i] else b[i];
  }

  /** With the corrected cursor positions, painting the updates of the first
      `c` cells of row `r` over a screen showing the old row leaves the new
      row's first `c` cells there. */
  lemma {:induction false} RowPaints(nf: Frame, of: Frame, r: nat, c: nat, screen: Frame)
    requires r < |nf| <= |of| && |nf[r]| == |of[r]| && c <= |nf[r]|
    requires r < |screen| && screen[r] == of[r]
    ensures Paint(screen, CursorWrites(RowChanges(nf, of, r, c))) == screen[r := nf[r][..c] + of[r][c..]]
  {
    if c == 0 {
      assert CursorWrites([]) == [];
      assert nf[r][..0] + of[r][0..] == of[r];
    } else {
      var ups := RowChanges(nf, of, r, c - 1);
      RowPaints(nf, of, r, c - 1, screen);
      Splice(nf[r], of[r], c - 1);
      if nf[r][c - 1] != of[r][c - 1] {
        var u := Update(r, c - 1, nf[r][c - 1]);
        assert RowChanges(nf, of, r, c) == ups + [u];
        PaintWrite(screen, ups, u);
        WriteCell(screen, r, nf[r][..c - 1] + of[r][c - 1..], c - 1, nf[r][c - 1]);
      } else {
        assert RowChanges(nf, of, r, c) == ups;
        assert nf[r][..c - 1] + of[r][c - 1..] == nf[r][..c] + of[r][c..];
      }
    }
  }

  lemma FrameSplice(nf: Frame, of: Frame, r: nat)
    requires |nf| == |of| && r < |nf|
    ensures (nf[..r] + of[r..])[r := nf[r]] == nf[..r + 1] + of[r + 1..]
  {
    assert forall i :: 0 <= i < |nf| ==> (nf[..r + 1] + of[r + 1..])[i] == if i <= r then nf[i] else of[i];
  }

  /** For aligned frames and the corrected cursor positions, painting the
      updates of the first `r` rows over the old frame leaves the new
      frame's first `r` rows and the old rest. */
  lemma {:induction false} ChangesPaint(nf: Frame, of: Frame, r: nat)
    requires Aligned(nf, of) && r <= |nf|
    ensures Covers(nf, of, r) && Paint(of, CursorWrites(Changes(nf, of, r))) == nf[..r] + of[r..]
  {
    if r == 0 {
      assert CursorWrites([]) == [];
      assert nf[..0] + of[0..] == of;
    } else {
      ChangesPaint(nf, of, r - 1);
      var n := |nf[r - 1]|;
      var screen := nf[..r - 1] + of[r - 1..];
      var row := RowChanges(nf, of, r - 1, n);
      CursorWritesAppend(Changes(nf, of, r - 1), row);
      PaintAppend(of, CursorWrites(Changes(nf, of, r - 1)), CursorWrites(row));
      RowPaints(nf, of, r - 1, n, screen);
      assert nf[r - 1][..n] + of[r - 1][n..] == nf[r - 1];
      FrameSplice(nf, of, r - 1);
    }
  }

  /** With the corrected cursor positions, whatever `Display` does, the
      terminal ends up showing the new frame, provided the screen showed the
      previous frame and the two frames have rows of equal length (or differ
      in shape, which forces a redraw). */
  lemma DisplayPaints(nf: Frame, prev: Option<Frame>, screen: Frame)
    requires prev.Some? ==> screen == prev.value && (!SameShape(nf, screen) || Aligned(nf, screen))
    ensures CursorDisplaying(nf, prev).Ok?
    ensures Paint(screen, CursorDisplaying(nf, prev).value) == nf
  {
    ShowPaints(screen, nf);
    if prev.Some? && SameShape(nf, screen) {
      ChangesPaint(nf, screen, |nf|);
      assert nf[..|nf|] + screen[|nf|..] == nf;
    }
  }

  /** Frames whose rows all have one length, as the webcam produces them:
      with the corrected cursor positions the screen always ends up showing
      the new frame. */
  lemma RectangularDisplayPaints(nf: Frame, prev: Frame)
    requires Rectangular(nf) && Rectangular(prev)
    ensures CursorDisplaying(nf, Some(prev)).Ok?
    ensures Paint(prev, CursorDisplaying(nf, Some(prev)).value) == nf
  {
    if SameShape(nf, prev) {
      RectangularAligned(nf, prev);
    }
    DisplayPaints(nf, Some(prev), prev);
  }

  /** `Display` clears and prints the whole frame exactly when `diff` is
      `nil`; otherwise it never clears and only writes changed cells, one
      write per update. */
  lemma DisplayRedrawsIffNil(nf: Frame, prev: Option<Frame>)
    requires Displaying(nf, prev).Ok?
    ensures var t := Displaying(nf, prev).value;
      (t == Show(nf) <==> Diffing(nf, prev) == Ok(None)) &&
      (Diffing(nf, prev) != Ok(None) ==>
        ClearScreen !in t && |t| == |Diffing(nf, prev).value.value| &&
        forall i :: 0 <= i < |t| ==> t[i].MoveAndWrite? && Changed(nf, prev.value, Update(t[i].row, t[i].col, t[i].ch)))
  {
    var d := Diffing(nf, prev);
    if d != Ok(None) {
      var ups := d.value.value;
      var t := Writes(ups);
      DiffExact(nf, prev);
      assert forall i :: 0 <= i < |t| ==> t[i] == MoveAndWrite(ups[i].row, ups[i].col, ups[i].ch);
      assert t[0] != ClearScreen;
    }
  }

  /** Showing the same frame again redraws it in full. */
  lemma DisplaySameFrame(f: Frame)
    ensures Displaying(f, Some(f)) == Ok(Show(f))
  {
    DiffNilIffEqual(f, f);
  }
}
