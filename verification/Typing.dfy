/** Ordinary typing: glyphs on a tape that is longer than the screen, of which the screen shows the end. */
module Typing {
  import opened Arith
  import opened PlainScreen
  import opened ScreenEdit

  /** Glyphs typed one after the other. */
  function TypeAll(s: Screen, gs: seq<Glyph>): (r: Screen)
    requires s.Valid()
    ensures s.SameShape(r)
  {
    if gs == [] then s else TypeAll(s, gs[..|gs| - 1]).Typed(gs[|gs| - 1])
  }

  /** The scroll region is the whole screen, scrolling is on, and no row number reaches the number of columns, where the
      wrap goes wrong. */
  ghost predicate Ordinary(s: Screen) {
    s.Valid() && s.scrollOn && s.top == 0 && s.bottom == s.rows <= s.cols && s.cursorX <= s.cols && s.cursorY < s.rows
  }

  /** By how many rows the screen has scrolled when the tape is written up to position `e`. */
  function ScrolledRows(s: Screen, e: nat): nat
    requires s.cols >= 1
  {
    if e <= |s.cells| then 0 else 1 + ScrolledRows(s, if e > s.cols then e - s.cols else 0)
  }

  /** Cell `i` of the tape: what was typed there, else what was on the screen, else blank. */
  function TapeCell(s: Screen, p: nat, gs: seq<Glyph>, i: nat): Cell {
    if p <= i < p + |gs| then Cell(gs[i - p], s.fg, s.bg)
    else if i < |s.cells| then s.cells[i]
    else s.Blank()
  }

  /** The screen shows the tape from `d` on. */
  ghost predicate Shows(s: Screen, r: Screen, p: nat, gs: seq<Glyph>, d: nat) {
    |r.cells| == |s.cells| && forall j :: 0 <= j < |s.cells| ==> r.cells[j] == TapeCell(s, p, gs, j + d)
  }

  /** The cursor is where the tape ends. */
  ghost predicate EndsAt(s: Screen, r: Screen, e: nat, d: nat) {
    r.cursorX <= s.cols && r.cursorY < s.rows && Start(s, r.cursorY) + r.cursorX + d == e
  }

  lemma {:induction false} ScrolledBounds(s: Screen, e: nat)
    requires s.Valid()
    ensures 0 <= ScrolledRows(s, e) * s.cols && e <= |s.cells| + ScrolledRows(s, e) * s.cols
    ensures ScrolledRows(s, e) > 0 ==> e > |s.cells| + (ScrolledRows(s, e) - 1) * s.cols
    decreases e
  {
    var k := ScrolledRows(s, e);
    if k > 0 {
      MulLe(1, s.rows, s.cols);
      ScrolledBounds(s, e - s.cols);
      MulStep(k - 1, s.cols);
      if k > 1 {
        MulStep(k - 2, s.cols);
      }
    }
  }

  /** One more position needs one more row exactly when all rows so far are full. */
  lemma {:induction false} ScrolledNext(s: Screen, e: nat)
    requires s.Valid()
    ensures ScrolledRows(s, e + 1) ==
            if e == |s.cells| + ScrolledRows(s, e) * s.cols then ScrolledRows(s, e) + 1 else ScrolledRows(s, e)
    decreases e
  {
    MulLe(1, s.rows, s.cols);
    var k := ScrolledRows(s, e);
    if e < |s.cells| {
    } else if e == |s.cells| {
      assert e + 1 - s.cols <= |s.cells|;
    } else {
      ScrolledNext(s, e - s.cols);
      MulStep(k - 1, s.cols);
    }
  }

  /** A glyph at the end of the last row: the screen scrolls and the glyph begins the new last row. */
  lemma TypedScrolls(s: Screen, g: Glyph)
    requires Ordinary(s) && s.cursorX == s.cols && s.cursorY == s.rows - 1
    ensures var q := Start(s, s.rows - 1);
            && 0 <= q < |s.cells| && q + s.cols == |s.cells|
            && |s.ScrolledUp().cells| == |s.cells|
            && s.Typed(g) ==
               s.(cells := s.ScrolledUp().cells[q := Cell(g, s.fg, s.bg)], cursorX := 1, cursorY := s.rows - 1)
  {
    hide Screen.ScrolledUp;
    InBlock(s.rows - 1, 0, s.rows, s.cols);
    MulStep(s.rows - 1, s.cols);
    var t := s.ScrolledUp();
    assert t == s.(cells := t.cells) by {
      OnlyCells(s);
    }
  }

  lemma OnlyCells(s: Screen)
    requires s.Valid()
    ensures s.ScrolledUp() == s.(cells := s.ScrolledUp().cells)
  {
  }

  /** Writing where the tape ends adds one cell to it. */
  lemma ShowsPut(s: Screen, t: Screen, p: nat, gs: seq<Glyph>, d: nat, g: Glyph, q: nat)
    requires Shows(s, t, p, gs, d) && q < |s.cells| && q + d == p + |gs|
    ensures Shows(s, t.(cells := t.cells[q := Cell(g, s.fg, s.bg)]), p, gs + [g], d)
  {
    var r := t.cells[q := Cell(g, s.fg, s.bg)];
    forall j | 0 <= j < |s.cells|
      ensures r[j] == TapeCell(s, p, gs + [g], j + d)
    {
      if j != q {
        assert t.cells[j] == TapeCell(s, p, gs, j + d);
      }
    }
  }

  /** Scrolling when the tape fills the screen shows the tape one row further on. */
  lemma ShowsScrolled(s: Screen, t: Screen, p: nat, gs: seq<Glyph>, d: nat)
    requires Ordinary(t) && s.SameShape(t) && Shows(s, t, p, gs, d) && p + |gs| == |s.cells| + d
    ensures Shows(s, t.ScrolledUp(), p, gs, d + s.cols)
  {
    MulStep(t.rows - 1, t.cols);
    var r := t.ScrolledUp().cells;
    forall j | 0 <= j < |s.cells|
      ensures r[j] == TapeCell(s, p, gs, j + (d + s.cols))
    {
      if j < (t.rows - 1) * t.cols {
        assert r[j] == t.cells[j + t.cols] == TapeCell(s, p, gs, (j + t.cols) + d);
      } else {
        assert r[j] == t.Blank();
      }
    }
  }

  /** What ordinary typing does, for any number of glyphs: they follow each other on the tape from the cursor on, and
      the screen shows the tape from as many rows on as had to be scrolled. */
  lemma {:induction false} TypingMeans(s: Screen, gs: seq<Glyph>)
    requires Ordinary(s)
    ensures var p, r := Start(s, s.cursorY) + s.cursorX, TypeAll(s, gs);
            var k := ScrolledRows(s, p + |gs|);
            0 <= k * s.cols && Shows(s, r, p, gs, k * s.cols) && EndsAt(s, r, p + |gs|, k * s.cols)
    decreases |gs|
  {
    hide Shows, Screen.Typed, ScrolledRows;
    var p := Start(s, s.cursorY) + s.cursorX;
    if gs == [] {
      TypedNothing(s);
    } else {
      var m := |gs| - 1;
      TypingMeans(s, gs[..m]);
      ScrolledBounds(s, p + m);
      TypingStep(s, TypeAll(s, gs[..m]), p, gs[..m], gs[m]);
      assert gs[..m] + [gs[m]] == gs;
    }
  }

  lemma TypedNothing(s: Screen)
    requires Ordinary(s)
    ensures var p := Start(s, s.cursorY) + s.cursorX;
            ScrolledRows(s, p) == 0 && Shows(s, s, p, [], 0) && EndsAt(s, s, p, 0)
  {
    RowFits(s, s.cursorY);
  }

  lemma TypingStep(s: Screen, t: Screen, p: nat, gs: seq<Glyph>, g: Glyph)
    requires Ordinary(s) && s.SameShape(t) && ScrolledRows(s, p + |gs|) * s.cols >= 0
    requires var d := ScrolledRows(s, p + |gs|) * s.cols; Shows(s, t, p, gs, d) && EndsAt(s, t, p + |gs|, d)
    ensures var k, r := ScrolledRows(s, p + |gs| + 1), t.Typed(g);
            0 <= k * s.cols && Shows(s, r, p, gs + [g], k * s.cols) && EndsAt(s, r, p + |gs| + 1, k * s.cols)
  {
    hide Shows, Screen.Typed, Screen.ScrolledUp, ScrolledRows;
    var k := ScrolledRows(s, p + |gs|);
    var d := k * s.cols;
    ScrolledNext(s, p + |gs|);
    RowFits(s, t.cursorY);
    MulStep(k, s.cols);
    if t.cursorX < t.cols {
      TypedInside(t, g);
      ShowsPut(s, t, p, gs, d, g, Start(s, t.cursorY) + t.cursorX);
      ShowsCells(s, t.(cells := t.Typed(g).cells), t.Typed(g), p, gs + [g], d);
    } else if t.cursorY + 1 < t.rows {
      RowFits(s, t.cursorY + 1);
      TypedWraps(t, g);
      ShowsPut(s, t, p, gs, d, g, Start(s, t.cursorY + 1));
      ShowsCells(s, t.(cells := t.Typed(g).cells), t.Typed(g), p, gs + [g], d);
    } else {
      TypedScrolls(t, g);
      ShowsScrolled(s, t, p, gs, d);
      ShowsPut(s, t.ScrolledUp(), p, gs, d + s.cols, g, Start(s, t.rows - 1));
      ShowsCells(s, t.ScrolledUp().(cells := t.Typed(g).cells), t.Typed(g), p, gs + [g], d + s.cols);
    }
  }

  lemma ShowsCells(s: Screen, r: Screen, r': Screen, p: nat, gs: seq<Glyph>, d: nat)
    requires Shows(s, r, p, gs, d) && r.cells == r'.cells
    ensures Shows(s, r', p, gs, d)
  {
  }
}
