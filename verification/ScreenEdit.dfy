/** Control sequences as operations on the plain screen: what the sequences of single backend calls amount to. */
module ScreenEdit {
  import opened Arith
  import opened PlainScreen
  import opened Sizes

  function Min(a: int, b: int): int {
    if a < b then a else b
  }

  function Max(a: int, b: int): int {
    if a > b then a else b
  }

  /** `get_cursor_pos` */
  function PosX(s: Screen): (x: nat)
    requires s.Valid()
    ensures x < s.cols
  {
    if s.cursorX >= s.cols then s.cols - 1 else s.cursorX
  }

  function PosY(s: Screen): (y: nat)
    requires s.Valid()
    ensures y < s.rows
  {
    if s.cursorY >= s.rows then s.rows - 1 else s.cursorY
  }

  /** Subtraction of `size_t`, which wraps around. */
  function SizeSub(a: nat, b: nat): nat {
    if b <= a then a - b else (a - b) % U64
  }

  /** The number of the first cell of a row. */
  function Start(s: Screen, y: nat): nat {
    MulNonneg(y, s.cols);
    y * s.cols
  }

  /** Exactly the cells from `from` up to `to` have become blank. */
  ghost predicate Erased(s: Screen, r: Screen, from: int, to: int) {
    && |r.cells| == |s.cells|
    && (forall j :: 0 <= j < |s.cells| && from <= j < to ==> r.cells[j] == s.Blank())
    && (forall j :: 0 <= j < |s.cells| && !(from <= j < to) ==> r.cells[j] == s.cells[j])
  }

  ghost predicate CursorAt(s: Screen, x: nat, y: nat) {
    s.cursorX == x && s.cursorY == y
  }

  lemma RowFits(s: Screen, y: nat)
    requires s.Valid() && y < s.rows
    ensures Start(s, y) + s.cols <= |s.cells|
  {
    MulLe(y + 1, s.rows, s.cols);
    MulStep(y, s.cols);
  }

  // ----- spaces -----

  /** `n` spaces typed at the cursor. */
  function Spaced(s: Screen, n: nat): (r: Screen)
    requires s.Valid()
    ensures s.SameShape(r)
  {
    if n == 0 then s else Spaced(s, n - 1).Typed(32)
  }

  /** Typing where no wrap is pending. */
  lemma TypedInside(s: Screen, c: Glyph)
    requires s.Valid() && s.cursorX < s.cols && s.cursorY < s.rows
    ensures Start(s, s.cursorY) + s.cursorX < |s.cells|
    ensures s.Typed(c) ==
            s.(cells := s.cells[Start(s, s.cursorY) + s.cursorX := Cell(c, s.fg, s.bg)], cursorX := s.cursorX + 1)
  {
    InBlock(s.cursorY, s.cursorX, s.rows, s.cols);
  }

  /** Spaces that fit in the row blank exactly that part of it. */
  lemma {:induction false} SpacedInside(s: Screen, n: nat)
    requires s.Valid() && s.cursorX + n <= s.cols && s.cursorY < s.rows
    ensures var p := Start(s, s.cursorY) + s.cursorX;
            Erased(s, Spaced(s, n), p, p + n) && CursorAt(Spaced(s, n), s.cursorX + n, s.cursorY)
  {
    hide Screen.Typed;
    if n > 0 {
      SpacedInside(s, n - 1);
      TypedInside(Spaced(s, n - 1), 32);
    }
  }

  /** Without scrolling, a space either changes nothing or blanks one cell. */
  lemma TypedBlanks(s: Screen)
    requires s.Valid() && !s.scrollOn
    ensures forall j :: 0 <= j < |s.cells| ==> s.Typed(32).cells[j] == s.cells[j] || s.Typed(32).cells[j] == s.Blank()
  {
  }

  lemma {:induction false} SpacedBlanks(s: Screen, n: nat)
    requires s.Valid() && !s.scrollOn
    ensures forall j :: 0 <= j < |s.cells| ==>
              Spaced(s, n).cells[j] == s.cells[j] || Spaced(s, n).cells[j] == s.Blank()
  {
    hide Screen.Typed;
    if n > 0 {
      SpacedBlanks(s, n - 1);
      TypedBlanks(Spaced(s, n - 1));
    }
  }

  lemma {:induction false} SpacedAdd(s: Screen, m: nat, n: nat)
    requires s.Valid()
    ensures Spaced(s, m + n) == Spaced(Spaced(s, m), n)
    decreases n
  {
    if n > 0 {
      SpacedAdd(s, m, n - 1);
      assert m + n - 1 == m + (n - 1);
    }
  }

  /** A space in the column after the last goes to the next row when there is one in the region. */
  lemma TypedWraps(s: Screen, c: Glyph)
    requires s.Valid() && s.cursorX == s.cols && s.cursorY + 1 < s.bottom && s.cursorY + 1 < s.cols
    ensures Start(s, s.cursorY + 1) < |s.cells| && Start(s, s.cursorY + 1) == Start(s, s.cursorY) + s.cols
    ensures s.Typed(c) ==
            s.(cells := s.cells[Start(s, s.cursorY + 1) := Cell(c, s.fg, s.bg)], cursorX := 1, cursorY := s.cursorY + 1)
  {
    MulStep(s.cursorY, s.cols);
    InBlock(s.cursorY + 1, 0, s.rows, s.cols);
  }

  /** In the last line of the region, or below it, further spaces have no effect on the cells. */
  lemma {:induction false} SpacedStuck(s: Screen, n: nat)
    requires s.Valid() && !s.scrollOn && s.cursorX >= s.cols && s.cursorY >= s.bottom - 1
    ensures Spaced(s, n) == s.(cursorX := s.cursorX + n)
  {
    if n > 0 {
      SpacedStuck(s, n - 1);
    }
  }

  // ----- where a run of spaces goes -----

  /** How many rows from the top a run of spaces passes through one after the other: up to the bottom margin, or up to
      the row whose number is the number of columns, where the wrap goes wrong. */
  function PassRows(s: Screen): nat {
    if s.bottom <= s.cols then s.bottom else s.cols
  }

  /** The end of the cells that spaces typed from row `y` pass in order. */
  function PassEnd(s: Screen, y: nat): nat {
    MulNonneg(PassRows(s), s.cols);
    MulNonneg(y + 1, s.cols);
    if y < PassRows(s) then PassRows(s) * s.cols else (y + 1) * s.cols
  }

  /** After those cells the spaces go round in row `cols - 1`; otherwise they have no effect. */
  predicate Loops(s: Screen, y: nat) {
    y < s.bottom - 1 && s.cols < s.bottom
  }

  /** Exactly the cells of two ranges have become blank. */
  ghost predicate ErasedBoth(s: Screen, r: Screen, from: int, to: int, from2: int, to2: int) {
    && |r.cells| == |s.cells|
    && (forall j :: 0 <= j < |s.cells| && (from <= j < to || from2 <= j < to2) ==> r.cells[j] == s.Blank())
    && (forall j :: 0 <= j < |s.cells| && !(from <= j < to) && !(from2 <= j < to2) ==> r.cells[j] == s.cells[j])
  }

  /** The number of cells, at most one row, that are blanked in row `cols - 1` after `n` spaces from position `p`. */
  function LoopCells(s: Screen, y: nat, p: nat, n: nat): int {
    if Loops(s, y) then Min(Max(p + n - PassEnd(s, y), 0), s.cols) else 0
  }

  /** Where the cursor is after `n` spaces from position `p` of row `y`. */
  ghost predicate SpacedTo(s: Screen, r: Screen, y: nat, p: nat, n: nat) {
    var e := PassEnd(s, y);
    && (p + n <= e ==> r.cursorX <= s.cols && r.cursorY < s.rows && Start(s, r.cursorY) + r.cursorX == p + n &&
                       (r.cursorY == y || (y <= r.cursorY < PassRows(s))))
    && (p + n > e && !Loops(s, y) ==> r.cursorX >= s.cols && r.cursorY >= s.bottom - 1 && r.cursorY < s.rows)
    && (p + n > e && Loops(s, y) ==> r.cursorY == s.cols - 1 && 1 <= r.cursorX <= s.cols &&
                                      (p + n - e <= s.cols ==> r.cursorX == p + n - e))
  }

  lemma PassBounds(s: Screen, y: nat)
    requires s.Valid() && y < s.rows
    ensures Start(s, y) + s.cols <= PassEnd(s, y) <= |s.cells|
    ensures Loops(s, y) ==> s.cols <= s.rows && Start(s, s.cols - 1) + s.cols <= |s.cells|
    ensures y >= PassRows(s) || PassRows(s) == y + 1 ==> PassEnd(s, y) == Start(s, y) + s.cols
  {
    MulStep(y, s.cols);
    MulLe(y + 1, s.rows, s.cols);
    MulLe(PassRows(s), s.rows, s.cols);
    if y < PassRows(s) {
      MulLe(y + 1, PassRows(s), s.cols);
    }
    if Loops(s, y) {
      RowFits(s, s.cols - 1);
    }
  }

  /** One more space, case by case. */
  lemma SpaceStep(s: Screen, t: Screen, y: nat, p: nat, n: nat)
    requires s.Valid() && !s.scrollOn && y < s.rows && s.SameShape(t)
    requires Start(s, y) <= p <= Start(s, y) + s.cols
    requires SpacedTo(s, t, y, p, n)
    requires var q := Start(s, s.cols - 1);
             ErasedBoth(s, t, p, Min(p + n, PassEnd(s, y)), q, q + LoopCells(s, y, p, n))
    ensures var q, r := Start(s, s.cols - 1), t.Typed(32);
            SpacedTo(s, r, y, p, n + 1) &&
            ErasedBoth(s, r, p, Min(p + n + 1, PassEnd(s, y)), q, q + LoopCells(s, y, p, n + 1))
  {
    hide Screen.Typed;
    PassBounds(s, y);
    if p + n < PassEnd(s, y) {
      StepInPass(s, t, y, p, n);
    } else {
      StepAfterPass(s, t, y, p, n);
    }
  }

  /** At the end of the pass the cursor is just after the last column of its last row. */
  lemma AtPassEnd(s: Screen, t: Screen, y: nat, p: nat, n: nat)
    requires s.Valid() && y < s.rows && p + n == PassEnd(s, y) && SpacedTo(s, t, y, p, n)
    ensures t.cursorX == s.cols && t.cursorY == if y < PassRows(s) then PassRows(s) - 1 else y
  {
    if y < PassRows(s) {
      MulStep(PassRows(s) - 1, s.cols);
      MulStep(t.cursorY, s.cols);
      if t.cursorY < PassRows(s) - 1 {
        MulLe(t.cursorY + 1, PassRows(s) - 1, s.cols);
      }
    } else {
      MulStep(y, s.cols);
    }
  }

  lemma BeforePassEnd(s: Screen, t: Screen, y: nat, p: nat, n: nat)
    requires s.Valid() && y < s.rows && p + n < PassEnd(s, y) && SpacedTo(s, t, y, p, n) && t.cursorX == s.cols
    ensures t.cursorY + 1 < PassRows(s)
  {
    MulStep(t.cursorY, s.cols);
  }

  lemma StepInPass(s: Screen, t: Screen, y: nat, p: nat, n: nat)
    requires s.Valid() && !s.scrollOn && y < s.rows && s.SameShape(t)
    requires Start(s, y) <= p <= Start(s, y) + s.cols && p + n < PassEnd(s, y)
    requires SpacedTo(s, t, y, p, n) && ErasedBoth(s, t, p, p + n, 0, 0)
    ensures SpacedTo(s, t.Typed(32), y, p, n + 1) && ErasedBoth(s, t.Typed(32), p, p + n + 1, 0, 0)
  {
    hide Screen.Typed, PassEnd;
    if t.cursorX < t.cols {
      TypedInside(t, 32);
    } else {
      BeforePassEnd(s, t, y, p, n);
      TypedWraps(t, 32);
    }
  }

  lemma TypedStuck(s: Screen, c: Glyph)
    requires s.Valid() && !s.scrollOn && s.cursorX >= s.cols && s.cursorY >= s.bottom - 1
    ensures s.Typed(c) == s.(cursorX := s.cursorX + 1)
  {
  }

  /** From a row at or beyond the number of columns the wrap goes to row `cols - 1`. */
  lemma TypedBack(s: Screen, c: Glyph)
    requires s.Valid() && !s.scrollOn && s.cursorX == s.cols && s.cols - 1 <= s.cursorY < s.bottom - 1
    ensures Start(s, s.cols - 1) < |s.cells|
    ensures s.Typed(c) ==
            s.(cells := s.cells[Start(s, s.cols - 1) := Cell(c, s.fg, s.bg)], cursorX := 1, cursorY := s.cols - 1)
  {
    InBlock(s.cols - 1, 0, s.rows, s.cols);
  }

  lemma StepAfterPass(s: Screen, t: Screen, y: nat, p: nat, n: nat)
    requires s.Valid() && !s.scrollOn && y < s.rows && s.SameShape(t)
    requires Start(s, y) <= p <= Start(s, y) + s.cols && p + n >= PassEnd(s, y)
    requires SpacedTo(s, t, y, p, n)
    requires var q := Start(s, s.cols - 1);
             ErasedBoth(s, t, p, PassEnd(s, y), q, q + LoopCells(s, y, p, n))
    ensures var q, r := Start(s, s.cols - 1), t.Typed(32);
            SpacedTo(s, r, y, p, n + 1) &&
            ErasedBoth(s, r, p, PassEnd(s, y), q, q + LoopCells(s, y, p, n + 1))
  {
    hide Screen.Typed, PassEnd;
    if p + n == PassEnd(s, y) {
      AtPassEnd(s, t, y, p, n);
    }
    if !Loops(s, y) {
      TypedStuck(t, 32);
    } else if t.cursorX < t.cols {
      TypedInside(t, 32);
    } else {
      TypedBack(t, 32);
    }
  }

  /** What `n` spaces typed in row `y` do, for every scroll region and every shape of the screen: they blank the
      cells in order up to the end of the region; on a screen with more rows than columns they then go round in one
      row. */
  lemma {:induction false} SpacedCells(s: Screen, n: nat)
    requires s.Valid() && !s.scrollOn && s.cursorX <= s.cols && s.cursorY < s.rows
    ensures var y, p, q, r := s.cursorY, Start(s, s.cursorY) + s.cursorX, Start(s, s.cols - 1), Spaced(s, n);
            SpacedTo(s, r, y, p, n) && ErasedBoth(s, r, p, Min(p + n, PassEnd(s, y)), q, q + LoopCells(s, y, p, n))
  {
    hide SpacedTo, ErasedBoth, LoopCells, PassEnd, Screen.Typed;
    var y, p := s.cursorY, Start(s, s.cursorY) + s.cursorX;
    if n == 0 {
      NoSpaces(s);
    } else {
      SpacedCells(s, n - 1);
      SpaceStep(s, Spaced(s, n - 1), y, p, n - 1);
    }
  }

  lemma NoSpaces(s: Screen)
    requires s.Valid() && s.cursorX <= s.cols && s.cursorY < s.rows
    ensures var y, p, q := s.cursorY, Start(s, s.cursorY) + s.cursorX, Start(s, s.cols - 1);
            SpacedTo(s, s, y, p, 0) && ErasedBoth(s, s, p, Min(p, PassEnd(s, y)), q, q + LoopCells(s, y, p, 0))
  {
    hide PassEnd;
    PassBounds(s, s.cursorY);
  }

  /** A cursor further right than the column after the last behaves as if it were there. */
  lemma SpacedFar(s: Screen, n: nat)
    requires s.Valid() && !s.scrollOn && s.cursorX >= s.cols
    ensures Spaced(s, n).cells == Spaced(s.(cursorX := s.cols), n).cells
  {
    var t := s.(cursorX := s.cols);
    if s.cursorY >= s.bottom - 1 {
      SpacedStuck(s, n);
      SpacedStuck(t, n);
    } else if n > 0 {
      SpacedAdd(s, 1, n - 1);
      SpacedAdd(t, 1, n - 1);
      SpacedOne(s);
      SpacedOne(t);
      assert s.Typed(32) == t.Typed(32);
    }
  }

  /** Below the last row nothing is drawn. */
  lemma {:induction false} SpacedBelow(s: Screen, n: nat)
    requires s.Valid() && !s.scrollOn && s.cursorY >= s.rows
    ensures Spaced(s, n) == s.(cursorX := s.cursorX + n)
  {
    if n > 0 {
      SpacedBelow(s, n - 1);
    }
  }

  /** Screen `r` is screen `s` with the cells blanked that `n` spaces at its cursor blank. */
  ghost predicate SpacesErase(s: Screen, r: Screen, n: nat)
    requires s.cols >= 1
  {
    var y, p, q := s.cursorY, Start(s, s.cursorY) + Min(s.cursorX, s.cols), Start(s, s.cols - 1);
    if y < s.rows then ErasedBoth(s, r, p, Min(p + n, PassEnd(s, y)), q, q + LoopCells(s, y, p, n))
    else r.cells == s.cells
  }

  /** The same for every cursor: with a wrap pending, or below the screen. */
  lemma SpacedMeans(s: Screen, n: nat)
    requires s.Valid() && !s.scrollOn
    ensures SpacesErase(s, Spaced(s, n), n)
  {
    hide ErasedBoth, PassEnd, LoopCells, Spaced;
    if s.cursorY >= s.rows {
      SpacedBelow(s, n);
    } else if s.cursorX <= s.cols {
      SpacedCells(s, n);
    } else {
      var t := s.(cursorX := s.cols);
      SpacedFar(s, n);
      SpacedCells(t, n);
      BothFrom(s, t, Spaced(s, n), Spaced(t, n), n);
    }
  }

  lemma BothFrom(s: Screen, t: Screen, r: Screen, r': Screen, n: nat)
    requires s.Valid() && s.cursorY < s.rows && s.cursorX >= s.cols && t == s.(cursorX := s.cols) && r.cells == r'.cells
    requires SpacesErase(t, r', n)
    ensures SpacesErase(s, r, n)
  {
    hide PassEnd, LoopCells, ErasedBoth;
    var y, p, q := s.cursorY, Start(s, s.cursorY) + s.cols, Start(s, s.cols - 1);
    SameReach(s, t, y, p, n);
    SameBoth(s, t, r, r', p, Min(p + n, PassEnd(s, y)), q, q + LoopCells(s, y, p, n));
  }

  lemma SameReach(s: Screen, t: Screen, y: nat, p: nat, n: nat)
    requires s.cols == t.cols && s.bottom == t.bottom
    ensures PassEnd(s, y) == PassEnd(t, y) && LoopCells(s, y, p, n) == LoopCells(t, y, p, n)
  {
  }

  lemma SameBoth(s: Screen, t: Screen, r: Screen, r': Screen, from: int, to: int, from2: int, to2: int)
    requires s.cells == t.cells && s.fg == t.fg && s.bg == t.bg && r.cells == r'.cells
    requires ErasedBoth(t, r', from, to, from2, to2)
    ensures ErasedBoth(s, r, from, to, from2, to2)
  {
  }

  lemma SpacesEraseThen(s: Screen, t: Screen, r: Screen, n: nat)
    requires s.Valid() && SpacesErase(s, t, n) && r.cells == t.cells
    ensures SpacesErase(s, r, n)
  {
  }

  // ----- EL -----

  /** `K` */
  function EraseLine(s: Screen, v: nat): (r: Screen)
    requires s.Valid()
    ensures s.SameShape(r)
  {
    var x, y := PosX(s), PosY(s);
    if v == 0 then Spaced(s, s.cols - x).CursorSet(x, y)
    else if v == 1 then Spaced(s.CursorSet(0, y), x)
    else if v == 2 then Spaced(s.CursorSet(0, y), s.cols).CursorSet(x, y)
    else s
  }

  /** Erasing in the line, with the cursor where it was: to the end when no wrap is pending, up to but not including the
      cursor, or the whole line. With a wrap pending, erasing to the end is one space that goes where the wrap goes. */
  lemma EraseLineMeans(s: Screen, v: nat)
    requires s.Valid()
    ensures var x, p, r := PosX(s), Start(s, PosY(s)), EraseLine(s, v);
            && CursorAt(r, if v <= 2 then x else s.cursorX, if v <= 2 then PosY(s) else s.cursorY)
            && (v == 0 && s.cursorX < s.cols && s.cursorY < s.rows ==> Erased(s, r, p + x, p + s.cols))
            && (v == 0 && !s.scrollOn ==> SpacesErase(s, r, s.cols - x))
            && (v == 1 ==> Erased(s, r, p, p + x))
            && (v == 2 ==> Erased(s, r, p, p + s.cols))
            && (v > 2 ==> r == s)
  {
    hide Spaced, SpacesErase;
    var x, y := PosX(s), PosY(s);
    if v == 0 {
      if s.cursorX < s.cols && s.cursorY < s.rows {
        SpacedInside(s, s.cols - x);
      }
      if !s.scrollOn {
        SpacedMeans(s, s.cols - x);
        SpacesEraseThen(s, Spaced(s, s.cols - x), EraseLine(s, v), s.cols - x);
      }
    } else if v == 1 {
      SpacedInside(s.CursorSet(0, y), x);
    } else if v == 2 {
      SpacedInside(s.CursorSet(0, y), s.cols);
    }
  }

  /** The row that a wrap leads to: the next one, or row `cols - 1` if that is not below the number of columns. */
  function Landing(s: Screen, y: nat): nat
    requires s.cols >= 1
  {
    if y + 1 < s.cols then y + 1 else s.cols - 1
  }

  /** One space with a wrap pending: the first cell of the row that the wrap leads to, or nothing at the end of the
      region. */
  lemma PendingSpace(s: Screen)
    requires s.Valid() && !s.scrollOn && s.cursorX >= s.cols && s.cursorY < s.rows
    ensures var q := Start(s, Landing(s, s.cursorY));
            if s.cursorY < s.bottom - 1 then q < |s.cells| && Erased(s, s.Typed(32), q, q + 1)
            else s.Typed(32).cells == s.cells
  {
    hide Screen.Typed;
    var t := s.(cursorX := s.cols);
    if s.cursorY >= s.bottom - 1 {
      TypedStuck(s, 32);
    } else {
      SpacedFar(s, 1);
      SpacedOne(s);
      SpacedOne(t);
      if s.cursorY + 1 < s.cols {
        TypedWraps(t, 32);
      } else {
        TypedBack(t, 32);
      }
    }
  }

  /** With a wrap pending the character under the cursor survives: erasing to the end of a line whose last character
      is not blank works exactly when no wrap is pending, or when the wrap leads back to the single cell of the first
      row. */
  lemma EraseToEndExact(s: Screen)
    requires s.Valid() && !s.scrollOn && s.cursorY < s.rows
    requires Start(s, s.cursorY) + s.cols <= |s.cells| && s.cells[Start(s, s.cursorY) + s.cols - 1] != s.Blank()
    ensures var p := Start(s, s.cursorY);
            Erased(s, EraseLine(s, 0), p + PosX(s), p + s.cols) <==>
            s.cursorX < s.cols || (s.cols == 1 && s.cursorY == 0 && s.bottom > 1)
  {
    hide Spaced, Screen.Typed, SpacesErase;
    var p, y := Start(s, s.cursorY), s.cursorY;
    if s.cursorX < s.cols {
      EraseLineMeans(s, 0);
    } else {
      var last, q := p + s.cols - 1, Start(s, Landing(s, y));
      SpacedOne(s);
      PendingSpace(s);
      if q == last && y < s.bottom - 1 {
        BlockUnique(Landing(s, y), 0, y, s.cols - 1, s.cols);
      }
    }
  }

  lemma SpacedOne(s: Screen)
    requires s.Valid()
    ensures Spaced(s, 1) == s.Typed(32)
  {
    assert Spaced(s, 0) == s;
  }

  // ----- ED -----

  /** `J` */
  function EraseDisplay(s: Screen, v: nat): (r: Screen)
    requires s.Valid()
    ensures s.SameShape(r)
  {
    var x, y := PosX(s), PosY(s);
    if v == 0 then
      MulNonneg(s.rows - (y + 1), s.cols);
      Spaced(s, (s.rows - (y + 1)) * s.cols + (s.cols - (x + 1)) + 1).CursorSet(x, y)
    else if v == 1 then Spaced(s.CursorSet(0, 0), Start(s, y) + x + 1).CursorSet(x, y)
    else if v == 2 || v == 3 then s.Cleared(false)
    else s
  }

  lemma Remaining(s: Screen, y: nat)
    requires s.Valid() && y < s.rows
    ensures (s.rows - (y + 1)) * s.cols + Start(s, y) + s.cols == |s.cells|
  {
    MulStep(y, s.cols);
    Distribute(s.rows, y + 1, s.cols);
  }

  lemma Distribute(a: int, b: int, c: int)
    ensures (a - b) * c + b * c == a * c
  {
  }

  /** Erasing in the display, for every scroll region and every shape of the screen: from the cursor as far as typed
      spaces get, up to and including the cursor as far as they get from the origin, or all of it. */
  lemma EraseDisplayMeans(s: Screen, v: nat)
    requires s.Valid() && !s.scrollOn
    ensures var p, r := Start(s, PosY(s)) + PosX(s), EraseDisplay(s, v);
            && (v <= 1 ==> CursorAt(r, PosX(s), PosY(s)))
            && (v >= 2 ==> CursorAt(r, s.cursorX, s.cursorY))
            && (v == 0 ==> p < |s.cells| && SpacesErase(s, r, |s.cells| - p))
            && (v == 1 ==> Erased(s, r, 0, Min(p + 1, PassEnd(s, 0))))
            && (v == 2 || v == 3 ==> Erased(s, r, 0, |s.cells|))
            && (v > 3 ==> r == s)
  {
    hide SpacesErase, Erased;
    if v == 0 {
      EraseFromCursor(s);
    } else if v == 1 {
      EraseToCursor(s);
    } else {
      EraseAll(s, v);
    }
  }

  lemma EraseFromCursor(s: Screen)
    requires s.Valid() && !s.scrollOn
    ensures var p := Start(s, PosY(s)) + PosX(s); p < |s.cells| && SpacesErase(s, EraseDisplay(s, 0), |s.cells| - p)
    ensures CursorAt(EraseDisplay(s, 0), PosX(s), PosY(s))
  {
    hide Spaced, Start, SpacesErase;
    var x, y := PosX(s), PosY(s);
    Remaining(s, y);
    var n: int := (s.rows - (y + 1)) * s.cols + (s.cols - (x + 1)) + 1;
    MulNonneg(s.rows - (y + 1), s.cols);
    SpacedMeans(s, n);
    SpacesEraseThen(s, Spaced(s, n), EraseDisplay(s, 0), n);
  }

  lemma EraseToCursor(s: Screen)
    requires s.Valid() && !s.scrollOn
    ensures Erased(s, EraseDisplay(s, 1), 0, Min(Start(s, PosY(s)) + PosX(s) + 1, PassEnd(s, 0)))
    ensures CursorAt(EraseDisplay(s, 1), PosX(s), PosY(s))
  {
    hide Spaced, Erased, ErasedBoth;
    var x, y := PosX(s), PosY(s);
    InBlock(y, x, s.rows, s.cols);
    var t, n := s.CursorSet(0, 0), Start(s, y) + x + 1;
    SpacedCells(t, n);
    OriginOnce(t, Spaced(t, n), n);
    ErasedThen(t, Spaced(t, n), EraseDisplay(s, 1), 0, Min(n, PassEnd(s, 0)));
    ErasedFrom(s, t, EraseDisplay(s, 1), 0, Min(n, PassEnd(s, 0)));
  }

  /** From the origin the row that spaces go round in has already been passed. */
  lemma OriginOnce(s: Screen, r: Screen, n: nat)
    requires s.Valid() && !s.scrollOn
    requires var q := Start(s, s.cols - 1);
             ErasedBoth(s, r, 0, Min(n, PassEnd(s, 0)), q, q + LoopCells(s, 0, 0, n))
    ensures Erased(s, r, 0, Min(n, PassEnd(s, 0)))
  {
    MulStep(s.cols - 1, s.cols);
  }

  lemma EraseAll(s: Screen, v: nat)
    requires s.Valid() && v >= 2
    ensures v <= 3 ==> Erased(s, EraseDisplay(s, v), 0, |s.cells|)
    ensures v > 3 ==> EraseDisplay(s, v) == s
    ensures CursorAt(EraseDisplay(s, v), s.cursorX, s.cursorY)
  {
  }

  /** No cell is blank. */
  ghost predicate Written(s: Screen) {
    forall j :: 0 <= j < |s.cells| ==> s.cells[j] != s.Blank()
  }

  lemma PassAll(s: Screen, y: nat)
    requires s.Valid() && y < s.rows
    ensures PassEnd(s, y) == |s.cells| <==> s.bottom == s.rows <= s.cols || y == s.rows - 1
    ensures PassEnd(s, y) <= |s.cells|
    ensures Loops(s, y) ==> Start(s, s.cols - 1) + s.cols < |s.cells|
  {
    PassBounds(s, y);
    var t := if y < PassRows(s) then PassRows(s) else y + 1;
    if t < s.rows {
      MulLe(t + 1, s.rows, s.cols);
      MulStep(t, s.cols);
    }
    if Loops(s, y) {
      MulLe(s.cols + 1, s.rows, s.cols);
      MulStep(s.cols, s.cols);
      MulStep(s.cols - 1, s.cols);
    }
  }

  /** On a screen without blanks, erasing from the cursor to the end of the display works exactly when the cursor is
      on a cell and either stands in the last row or the scroll region is the whole screen and has no more rows than
      columns. */
  lemma EraseFromCursorExact(s: Screen)
    requires s.Valid() && !s.scrollOn && Written(s)
    ensures Erased(s, EraseDisplay(s, 0), Start(s, PosY(s)) + PosX(s), |s.cells|) <==>
            s.cursorX < s.cols && s.cursorY < s.rows && (s.bottom == s.rows <= s.cols || s.cursorY == s.rows - 1)
  {
    hide EraseDisplay, PassEnd, Loops;
    EraseFromCursor(s);
    var r, x, y := EraseDisplay(s, 0), PosX(s), PosY(s);
    var p := Start(s, y) + x;
    assert s.cells[p] != s.Blank() && s.cells[|s.cells| - 1] != s.Blank();
    if s.cursorY < s.rows {
      PassAll(s, y);
      PassBounds(s, y);
      if s.cursorX < s.cols {
        CursorOnCell(s, r, p);
      } else {
        CursorPastRow(s, r, p);
      }
    }
  }

  lemma CursorOnCell(s: Screen, r: Screen, p: nat)
    requires s.Valid() && s.cursorX < s.cols && s.cursorY < s.rows && Written(s)
    requires p == Start(s, s.cursorY) + s.cursorX < |s.cells| && SpacesErase(s, r, |s.cells| - p)
    ensures Erased(s, r, p, |s.cells|) <==> PassEnd(s, s.cursorY) == |s.cells|
  {
    hide PassEnd, Loops;
    PassAll(s, s.cursorY);
    assert s.cells[|s.cells| - 1] != s.Blank();
  }

  lemma CursorPastRow(s: Screen, r: Screen, p: nat)
    requires s.Valid() && s.cursorX >= s.cols && s.cursorY < s.rows && Written(s)
    requires p == Start(s, s.cursorY) + s.cols - 1 < |s.cells| && SpacesErase(s, r, |s.cells| - p)
    ensures !Erased(s, r, p, |s.cells|)
  {
    hide PassEnd;
    PassAll(s, s.cursorY);
    PassBounds(s, s.cursorY);
    var q := Start(s, s.cols - 1);
    assert s.cells[p] != s.Blank() && s.cells[|s.cells| - 1] != s.Blank();
    if Loops(s, s.cursorY) {
      assert s.cells[q] != s.Blank();
    }
  }

  /** Erasing up to a cursor that stands on a character that is not blank works exactly when its row is above the bottom
      margin and below the number of columns. */
  lemma EraseToCursorExact(s: Screen)
    requires s.Valid() && !s.scrollOn
    requires var p := Start(s, PosY(s)) + PosX(s); p < |s.cells| && s.cells[p] != s.Blank()
    ensures Erased(s, EraseDisplay(s, 1), 0, Start(s, PosY(s)) + PosX(s) + 1) <==>
            PosY(s) < s.bottom && PosY(s) < s.cols
  {
    hide EraseDisplay;
    EraseToCursor(s);
    var y, t := PosY(s), PassRows(s);
    MulStep(y, s.cols);
    if y < t {
      MulLe(y + 1, t, s.cols);
    } else {
      MulLe(t, y, s.cols);
    }
  }

  /** Only the cells and colours matter for what has been erased. */
  lemma ErasedThen(s: Screen, t: Screen, r: Screen, from: int, to: int)
    requires Erased(s, t, from, to) && r.cells == t.cells
    ensures Erased(s, r, from, to)
  {
  }

  lemma ErasedFrom(s: Screen, t: Screen, r: Screen, from: int, to: int)
    requires Erased(t, r, from, to) && s.cells == t.cells && s.fg == t.fg && s.bg == t.bg
    ensures Erased(s, r, from, to)
  {
  }

  // ----- ICH -----

  /** One column of `@`: its character moves right and a space takes its place. */
  function InsertAt(s: Screen, y: nat, v: nat, i: nat): (r: Screen)
    requires s.Valid()
    ensures s.SameShape(r)
  {
    s.Moved(i + v, y, i, y).CursorSet(i, y).Typed(32)
  }

  /** The columns from the last down to `i` done. */
  function InsertTo(s: Screen, y: nat, v: nat, i: nat): (r: Screen)
    requires s.Valid() && i <= s.cols
    ensures s.SameShape(r)
    decreases s.cols - i
  {
    if i == s.cols then s else InsertAt(InsertTo(s, y, v, i + 1), y, v, i)
  }

  function Insert(s: Screen, v: nat): (r: Screen)
    requires s.Valid()
    ensures s.SameShape(r)
  {
    InsertTo(s, PosY(s), v, PosX(s)).CursorSet(PosX(s), PosY(s))
  }

  /** Row `y` from column `i` on: the old characters `v` columns further right, blanks where none came from. */
  ghost predicate Inserted(s: Screen, r: Screen, y: nat, v: nat, i: nat) {
    var p := Start(s, y);
    && |r.cells| == |s.cells|
    && (forall j :: 0 <= j < |s.cells| && !(p + i <= j < p + s.cols) ==> r.cells[j] == s.cells[j])
    && (forall j :: p + i <= j < p + s.cols && j < |s.cells| && (v == 0 || j < p + i + v) ==> r.cells[j] == s.Blank())
    && (forall j :: v > 0 && p + i + v <= j < p + s.cols && j < |s.cells| ==> r.cells[j] == s.cells[j - v])
  }

  lemma InsertAtCells(s: Screen, y: nat, v: nat, i: nat)
    requires s.Valid() && y < s.rows && i < s.cols
    ensures var p, r := Start(s, y), InsertAt(s, y, v, i).cells;
            && p + s.cols <= |s.cells|
            && r == (if i + v < s.cols then s.cells[p + i + v := s.cells[p + i]] else s.cells)[p + i := s.Blank()]
  {
    hide Screen.Typed;
    RowFits(s, y);
    var t := s.Moved(i + v, y, i, y).CursorSet(i, y);
    TypedInside(t, 32);
  }

  lemma InsertedStep(s: Screen, t: Screen, r: Screen, y: nat, v: nat, i: nat)
    requires s.Valid() && y < s.rows && i < s.cols && Start(s, y) + s.cols <= |s.cells|
    requires Inserted(s, t, y, v, i + 1)
    requires var p := Start(s, y);
             r.cells == (if i + v < s.cols then t.cells[p + i + v := t.cells[p + i]] else t.cells)[p + i := s.Blank()]
    ensures Inserted(s, r, y, v, i)
  {
    var p := Start(s, y);
    assert t.cells[p + i] == s.cells[p + i];
    forall j | v > 0 && p + i + v <= j < p + s.cols && j < |s.cells|
      ensures r.cells[j] == s.cells[j - v]
    {
      if j > p + i + v {
        assert t.cells[j] == s.cells[j - v];
      }
    }
  }

  lemma {:induction false} InsertToMeans(s: Screen, y: nat, v: nat, i: nat)
    requires s.Valid() && y < s.rows && i <= s.cols
    ensures Inserted(s, InsertTo(s, y, v, i), y, v, i)
    decreases s.cols - i
  {
    hide InsertAt;
    if i < s.cols {
      hide Inserted;
      InsertToMeans(s, y, v, i + 1);
      var t := InsertTo(s, y, v, i + 1);
      InsertAtCells(t, y, v, i);
      InsertedStep(s, t, InsertAt(t, y, v, i), y, v, i);
    }
  }

  /** Inserting moves the rest of the line to the right by `v`; a parameter of zero blanks it instead. */
  lemma InsertMeans(s: Screen, v: nat)
    requires s.Valid()
    ensures Inserted(s, Insert(s, v), PosY(s), v, PosX(s)) && CursorAt(Insert(s, v), PosX(s), PosY(s))
    ensures var p := Start(s, PosY(s)); v == 0 ==> Erased(s, Insert(s, v), p + PosX(s), p + s.cols)
  {
    hide InsertTo;
    InsertToMeans(s, PosY(s), v, PosX(s));
  }

  // ----- DCH and ECH -----

  /** The columns from `from` up to `i` moved left by `v`. */
  function MoveLeft(s: Screen, y: nat, v: nat, from: nat, i: nat): (r: Screen)
    requires s.Valid() && v <= from
    ensures s.SameShape(r)
    decreases i
  {
    if i <= from then s else MoveLeft(s, y, v, from, i - 1).Moved(i - 1 - v, y, i - 1, y)
  }

  /** `P` */
  function Delete(s: Screen, v: nat): (r: Screen)
    requires s.Valid()
    ensures s.SameShape(r)
  {
    var x, y := PosX(s), PosY(s);
    Spaced(MoveLeft(s, y, v, x + v, s.cols).CursorSet(SizeSub(s.cols, v), y), v).CursorSet(x, y)
  }

  /** Deleting `v` characters at the cursor: the rest of the line moves left and blanks come in at its end. */
  ghost predicate Deleted(s: Screen, r: Screen, y: nat, v: nat, x: nat) {
    var p := Start(s, y);
    && |r.cells| == |s.cells|
    && (forall j :: 0 <= j < |s.cells| && !(p + x <= j < p + s.cols) ==> r.cells[j] == s.cells[j])
    && (forall j :: p + x <= j && j + v < p + s.cols && j + v < |s.cells| ==> r.cells[j] == s.cells[j + v])
    && (forall j :: p + x <= j < p + s.cols && p + s.cols <= j + v && j < |s.cells| ==> r.cells[j] == s.Blank())
  }

  ghost predicate MovedLeft(s: Screen, r: Screen, p: nat, v: nat, from: int, i: int) {
    && |r.cells| == |s.cells|
    && (forall j :: 0 <= j < |s.cells| && !(p + from <= j + v < p + i) ==> r.cells[j] == s.cells[j])
    && (forall j :: 0 <= j < |s.cells| && p + from <= j + v < p + i && j + v < |s.cells| ==>
       r.cells[j] == s.cells[j + v])
  }

  lemma {:induction false} MoveLeftMeans(s: Screen, y: nat, v: nat, from: nat, i: nat)
    requires s.Valid() && y < s.rows && v <= from && i <= s.cols
    ensures MovedLeft(s, MoveLeft(s, y, v, from, i), Start(s, y), v, from, i)
    decreases i
  {
    RowFits(s, y);
    if i > from {
      MoveLeftMeans(s, y, v, from, i - 1);
      var t, p := MoveLeft(s, y, v, from, i - 1), Start(s, y);
      assert t.Moved(i - 1 - v, y, i - 1, y).cells == t.cells[p + i - 1 - v := t.cells[p + i - 1]];
      assert t.cells[p + i - 1] == s.cells[p + i - 1];
    }
  }

  /** What deleting does for a parameter of at most the line length: the blanks may start before the cursor. */
  lemma DeleteCells(s: Screen, v: nat)
    requires s.Valid() && v <= s.cols
    ensures var p, x, r := Start(s, PosY(s)), PosX(s), Delete(s, v);
            && |r.cells| == |s.cells| && p + s.cols <= |s.cells| && CursorAt(r, x, PosY(s))
            && (forall j :: 0 <= j < |s.cells| && !(p <= j < p + s.cols) ==> r.cells[j] == s.cells[j])
            && (forall j :: p <= j < p + s.cols && p + s.cols <= j + v ==> r.cells[j] == s.Blank())
            && (forall j :: p <= j < p + x && j + v < p + s.cols ==> r.cells[j] == s.cells[j])
            && (forall j :: p + x <= j && j + v < p + s.cols ==> r.cells[j] == s.cells[j + v])
  {
    hide Spaced, MoveLeft;
    var x, y := PosX(s), PosY(s);
    RowFits(s, y);
    MoveLeftMeans(s, y, v, x + v, s.cols);
    var t := MoveLeft(s, y, v, x + v, s.cols).CursorSet(SizeSub(s.cols, v), y);
    if v == 0 {
      SpacedNone(t);
    } else {
      SpacedInside(t, v);
    }
  }

  lemma SpacedNone(s: Screen)
    requires s.Valid()
    ensures Spaced(s, 0) == s
  {
  }

  /** A parameter larger than the line sends the cursor to column zero and blanks the whole line. */
  lemma DeleteTooMany(s: Screen, v: nat)
    requires s.Valid() && !s.scrollOn && s.cols < U32 && s.cols < v <= s.cols + 0x8000_0000
    ensures var p := Start(s, PosY(s));
            p + s.cols <= |s.cells| && forall j :: p <= j < p + s.cols ==> Delete(s, v).cells[j] == s.Blank()
  {
    hide Spaced, MoveLeft;
    var x, y := PosX(s), PosY(s);
    RowFits(s, y);
    var t := MoveLeft(s, y, v, x + v, s.cols).CursorSet(SizeSub(s.cols, v), y);
    assert t.cursorX == 0 by {
      assert SizeSub(s.cols, v) == U64 - (v - s.cols);
      assert SizeSub(s.cols, v) % U32 == U32 - (v - s.cols);
    }
    SpacedInside(t, s.cols);
    SpacedAdd(t, s.cols, v - s.cols);
    SpacedBlanks(Spaced(t, s.cols), v - s.cols);
  }

  /** Right of the first column, deleting does what it should exactly when the deleted characters are all in the
      line: beyond that it also erases characters before the cursor. */
  lemma DeleteExact(s: Screen, v: nat)
    requires s.Valid() && !s.scrollOn && s.cols < U32 && v <= s.cols + 0x8000_0000 && PosX(s) > 0
    requires var p := Start(s, PosY(s)) + PosX(s); p <= |s.cells| && s.cells[p - 1] != s.Blank()
    ensures Deleted(s, Delete(s, v), PosY(s), v, PosX(s)) <==> PosX(s) + v <= s.cols
  {
    hide Delete;
    var p, x, r := Start(s, PosY(s)), PosX(s), Delete(s, v);
    if v <= s.cols {
      DeleteCells(s, v);
    } else {
      DeleteTooMany(s, v);
    }
    if x + v > s.cols {
      assert r.cells[p + x - 1] == s.Blank();
    }
  }

  /** In the first column there is no character before the cursor, but a parameter larger than the line runs on into the
      row that the wrap leads to, unless the line is the last of the scroll region or the wrap leads back to it. */
  lemma DeleteFirstExact(s: Screen, v: nat)
    requires s.Valid() && !s.scrollOn && s.cols < U32 && v <= s.cols + 0x8000_0000 && PosX(s) == 0
    requires PosY(s) < s.bottom - 1 ==>
             var q := Start(s, Landing(s, PosY(s))); q < |s.cells| && s.cells[q] != s.Blank()
    ensures Deleted(s, Delete(s, v), PosY(s), v, 0) <==>
            v <= s.cols || PosY(s) >= s.bottom - 1 || PosY(s) + 1 == s.cols
  {
    hide Delete;
    if v <= s.cols {
      DeleteCells(s, v);
    } else {
      var t := s.(cursorX := 0, cursorY := PosY(s));
      DeleteIsErase(s, v);
      EraseCharsExact(t, v);
      WholeLine(s, t, Delete(s, v), EraseChars(t, v), v);
    }
  }

  /** With a parameter larger than the line, deleting in the first column types that many spaces there. */
  lemma DeleteIsErase(s: Screen, v: nat)
    requires s.Valid() && s.cols < U32 && s.cols < v <= s.cols + 0x8000_0000 && PosX(s) == 0
    ensures Delete(s, v).cells == EraseChars(s.(cursorX := 0, cursorY := PosY(s)), v).cells
  {
    hide Spaced;
    var y := PosY(s);
    assert MoveLeft(s, y, v, v, s.cols) == s;
    assert s.CursorSet(SizeSub(s.cols, v), y) == s.(cursorX := 0, cursorY := y) by {
      assert SizeSub(s.cols, v) == U64 - (v - s.cols);
      assert SizeSub(s.cols, v) % U32 == U32 - (v - s.cols);
    }
  }

  /** A 32-bit parameter so large that the wrapped column is not taken for a negative number: the cursor goes to the
      last column instead of the first. Where the characters that could betray it are not blank, deleting is then
      right exactly in the last column of the end of the scroll region or of a line below it, or in the first column
      of a line to which the wrap leads back. */
  lemma DeleteHugeExact(s: Screen, v: nat)
    requires s.Valid() && !s.scrollOn && s.cols + 0x8000_0000 < v < U32
    requires var p := Start(s, PosY(s)) + PosX(s);
             p < |s.cells| && s.cells[p] != s.Blank() && (PosX(s) > 0 ==> s.cells[p - 1] != s.Blank())
    requires PosY(s) < s.bottom - 1 ==>
             var q := Start(s, Landing(s, PosY(s))); q < |s.cells| && s.cells[q] != s.Blank()
    ensures Deleted(s, Delete(s, v), PosY(s), v, PosX(s)) <==>
            if PosY(s) >= s.bottom - 1 then PosX(s) == s.cols - 1 else PosX(s) == 0 && PosY(s) + 1 == s.cols
  {
    hide Delete, EraseChars, SpacesErase, Erased, Deleted, Start, Landing;
    var t, r := s.(cursorX := s.cols - 1, cursorY := PosY(s)), Delete(s, v);
    HugeIsErase(s, v);
    EraseCharsMeans(t, v);
    SpacesEraseThen(t, EraseChars(t, v), r, v);
    RestOfLine(s, r, v);
    if PosY(s) >= s.bottom - 1 {
      HugeAtEnd(s, t, r, v);
    } else if PosY(s) + 1 == s.cols {
      HugeRound(s, t, r, v);
    } else {
      HugeRunsOn(s, t, r, v);
    }
  }

  lemma HugeAtEnd(s: Screen, t: Screen, r: Screen, v: nat)
    requires s.Valid() && t == s.(cursorX := s.cols - 1, cursorY := PosY(s)) && SpacesErase(t, r, v) && v >= 1
    requires PosY(s) >= s.bottom - 1
    requires var p := Start(s, PosY(s)) + PosX(s); p < |s.cells| && s.cells[p] != s.Blank()
    ensures var p := Start(s, PosY(s)); Erased(s, r, p + PosX(s), p + s.cols) <==> PosX(s) == s.cols - 1
  {
    hide SpacesErase, Erased;
    var x, p := PosX(s), Start(s, PosY(s));
    RowFits(s, PosY(s));
    OneRow(t, r, v);
    ErasedFrom(s, t, r, p + s.cols - 1, p + s.cols);
    SameRange(s, r, p + s.cols - 1, p + x, p + s.cols);
  }

  lemma HugeRound(s: Screen, t: Screen, r: Screen, v: nat)
    requires s.Valid() && t == s.(cursorX := s.cols - 1, cursorY := PosY(s)) && SpacesErase(t, r, v) && v > s.cols
    requires PosY(s) < s.bottom - 1 && PosY(s) + 1 == s.cols
    requires var p := Start(s, PosY(s)) + PosX(s);
             p < |s.cells| && s.cells[p] != s.Blank() && (PosX(s) > 0 ==> s.cells[p - 1] != s.Blank())
    ensures var p := Start(s, PosY(s)); Erased(s, r, p + PosX(s), p + s.cols) <==> PosX(s) == 0
  {
    hide SpacesErase, Erased;
    var x, p := PosX(s), Start(s, PosY(s));
    RowFits(s, PosY(s));
    WholeRow(t, r, v);
    ErasedFrom(s, t, r, p, p + s.cols);
    SameRange(s, r, p, p + x, p + s.cols);
  }

  lemma HugeRunsOn(s: Screen, t: Screen, r: Screen, v: nat)
    requires s.Valid() && t == s.(cursorX := s.cols - 1, cursorY := PosY(s)) && SpacesErase(t, r, v) && v > s.cols
    requires PosY(s) < s.bottom - 1 && PosY(s) + 1 != s.cols
    requires var q := Start(s, Landing(s, PosY(s))); q < |s.cells| && s.cells[q] != s.Blank()
    ensures var p := Start(s, PosY(s)); !Erased(s, r, p + PosX(s), p + s.cols)
  {
    hide SpacesErase, Erased;
    var x, y, p := PosX(s), PosY(s), Start(s, PosY(s));
    if y + 1 < s.cols {
      RunsOn(t, r, v);
      NotErased(s, r, p + x, p + s.cols, Start(s, y + 1));
    } else {
      RunsBack(t, r, v);
      NotErased(s, r, p + x, p + s.cols, Start(s, s.cols - 1));
    }
  }

  lemma HugeIsErase(s: Screen, v: nat)
    requires s.Valid() && s.cols + 0x8000_0000 < v < U32
    ensures Delete(s, v).cells == EraseChars(s.(cursorX := s.cols - 1, cursorY := PosY(s)), v).cells
  {
    hide Spaced;
    var x, y := PosX(s), PosY(s);
    assert MoveLeft(s, y, v, x + v, s.cols) == s;
    assert s.CursorSet(SizeSub(s.cols, v), y) == s.(cursorX := s.cols - 1, cursorY := y) by {
      assert SizeSub(s.cols, v) == U64 - (v - s.cols);
      assert SizeSub(s.cols, v) % U32 == U32 - (v - s.cols);
    }
  }

  /** Deleting at least the rest of the line is erasing it. */
  lemma RestOfLine(s: Screen, r: Screen, v: nat)
    requires s.Valid() && PosX(s) + v >= s.cols
    ensures var p := Start(s, PosY(s));
            Deleted(s, r, PosY(s), v, PosX(s)) <==> Erased(s, r, p + PosX(s), p + s.cols)
  {
    RowFits(s, PosY(s));
  }

  /** Of two ranges with the same end only one can be the one erased, if the later start and the cell before it tell. */
  lemma SameRange(s: Screen, r: Screen, from: int, from': int, to: int)
    requires 0 <= from < to <= |s.cells| && 0 <= from' < to && Erased(s, r, from, to) && s.cells[from'] != s.Blank()
    requires from < from' ==> s.cells[from' - 1] != s.Blank()
    ensures Erased(s, r, from', to) <==> from == from'
  {
  }

  lemma WholeRow(s: Screen, r: Screen, n: nat)
    requires s.Valid() && s.cursorX == s.cols - 1 && s.cols - 1 == s.cursorY < s.bottom - 1 && n > s.cols
    requires SpacesErase(s, r, n)
    ensures Erased(s, r, Start(s, s.cursorY), Start(s, s.cursorY) + s.cols)
  {
    hide PassEnd;
    PassBounds(s, s.cursorY);
  }

  lemma WholeLine(s: Screen, t: Screen, r: Screen, r': Screen, v: nat)
    requires s.Valid() && v > s.cols && t == s.(cursorX := 0, cursorY := PosY(s)) && r.cells == r'.cells
    ensures var p := Start(s, PosY(s)); Deleted(s, r, PosY(s), v, 0) <==> Erased(t, r', p, p + s.cols)
  {
    RowFits(s, PosY(s));
  }

  /** Deleting inside the line, with no condition on what the line holds. */
  lemma DeleteMeans(s: Screen, v: nat)
    requires s.Valid() && PosX(s) + v <= s.cols
    ensures Deleted(s, Delete(s, v), PosY(s), v, PosX(s)) && CursorAt(Delete(s, v), PosX(s), PosY(s))
  {
    hide Delete;
    DeleteCells(s, v);
  }

  /** `X` */
  function EraseChars(s: Screen, v: nat): (r: Screen)
    requires s.Valid()
    ensures s.SameShape(r)
  {
    Spaced(s, v).CursorSet(PosX(s), PosY(s))
  }

  /** Erasing characters is typing spaces, for every parameter and every cursor; it stays in the line when they fit
      in it, or when the line is the last of the scroll region or below it. */
  lemma EraseCharsMeans(s: Screen, v: nat)
    requires s.Valid() && !s.scrollOn
    ensures SpacesErase(s, EraseChars(s, v), v) && CursorAt(EraseChars(s, v), PosX(s), PosY(s))
    ensures s.cursorX < s.cols && s.cursorY < s.rows && (s.cursorX + v <= s.cols || s.cursorY >= s.bottom - 1) ==>
            var p := Start(s, s.cursorY) + s.cursorX;
            Erased(s, EraseChars(s, v), p, p + Min(v, s.cols - s.cursorX))
  {
    hide Spaced, SpacesErase;
    SpacedMeans(s, v);
    SpacesEraseThen(s, Spaced(s, v), EraseChars(s, v), v);
    if s.cursorX < s.cols && s.cursorY < s.rows && (s.cursorX + v <= s.cols || s.cursorY >= s.bottom - 1) {
      OneRow(s, EraseChars(s, v), v);
    }
  }

  lemma OneRow(s: Screen, r: Screen, n: nat)
    requires s.Valid() && s.cursorX < s.cols && s.cursorY < s.rows && SpacesErase(s, r, n)
    requires s.cursorX + n <= s.cols || s.cursorY >= s.bottom - 1
    ensures var p := Start(s, s.cursorY) + s.cursorX; Erased(s, r, p, p + Min(n, s.cols - s.cursorX))
  {
    hide PassEnd;
    PassBounds(s, s.cursorY);
  }

  /** Where the row that the wrap leads to does not begin with a blank, erasing characters spares everything after the
      line exactly when they fit in it, the line is the last of the scroll region or below it, or the whole line is
      erased and the wrap leads back to it. */
  lemma EraseCharsExact(s: Screen, v: nat)
    requires s.Valid() && !s.scrollOn && s.cursorX < s.cols && s.cursorY < s.rows
    requires s.cursorY < s.bottom - 1 ==>
             var q := Start(s, Landing(s, s.cursorY)); q < |s.cells| && s.cells[q] != s.Blank()
    ensures var p, n := Start(s, s.cursorY) + s.cursorX, if s.cursorX + v <= s.cols then v else s.cols - s.cursorX;
            Erased(s, EraseChars(s, v), p, p + n) <==>
            s.cursorX + v <= s.cols || s.cursorY >= s.bottom - 1 || (s.cursorX == 0 && s.cursorY + 1 == s.cols)
  {
    hide EraseChars, SpacesErase, Erased, Start;
    EraseCharsMeans(s, v);
    var p, n, r := Start(s, s.cursorY) + s.cursorX, s.cols - s.cursorX, EraseChars(s, v);
    if s.cursorX + v > s.cols && s.cursorY < s.bottom - 1 {
      if s.cursorY + 1 < s.cols {
        RunsOn(s, r, v);
        NotErased(s, r, p, p + n, Start(s, s.cursorY + 1));
      } else {
        RunsBack(s, r, v);
        if s.cursorX > 0 || s.cursorY >= s.cols {
          NotErased(s, r, p, p + n, Start(s, s.cols - 1));
        }
      }
    }
  }

  lemma NotErased(s: Screen, r: Screen, from: int, to: int, q: nat)
    requires q < |s.cells| == |r.cells| && r.cells[q] == s.Blank() && s.cells[q] != s.Blank() && !(from <= q < to)
    ensures !Erased(s, r, from, to)
  {
  }

  lemma RunsOn(s: Screen, r: Screen, n: nat)
    requires s.Valid() && s.cursorX < s.cols && s.cursorX + n > s.cols && SpacesErase(s, r, n)
    requires s.cursorY < s.bottom - 1 && s.cursorY + 1 < s.cols
    ensures var q := Start(s, s.cursorY + 1);
            q < |s.cells| == |r.cells| && q == Start(s, s.cursorY) + s.cols && r.cells[q] == s.Blank()
  {
    hide PassEnd;
    var y := s.cursorY;
    MulStep(y, s.cols);
    RowFits(s, y + 1);
    PassBounds(s, y + 1);
    SameEnd(s, y, y + 1);
  }

  lemma SameEnd(s: Screen, y: nat, y': nat)
    requires y <= y' < PassRows(s)
    ensures PassEnd(s, y) == PassEnd(s, y')
  {
  }

  lemma RunsBack(s: Screen, r: Screen, n: nat)
    requires s.Valid() && s.cursorX < s.cols && s.cursorX + n > s.cols && SpacesErase(s, r, n)
    requires s.cols - 1 <= s.cursorY < s.bottom - 1
    ensures var p, q := Start(s, s.cursorY) + s.cursorX, Start(s, s.cols - 1);
            && q <= Start(s, s.cursorY) && (s.cursorY >= s.cols ==> q < Start(s, s.cursorY))
            && q < |s.cells| == |r.cells| && r.cells[q] == s.Blank()
            && (s.cursorX == 0 && s.cursorY + 1 == s.cols ==> Erased(s, r, p, p + s.cols))
  {
    hide PassEnd;
    PassBounds(s, s.cursorY);
    MulLe(s.cols - 1, s.cursorY, s.cols);
    if s.cursorY >= s.cols {
      MulLe(s.cols, s.cursorY, s.cols);
      MulStep(s.cols - 1, s.cols);
    }
  }

  // ----- scrolling by lines -----

  /** `M` */
  function ScrollTimes(s: Screen, n: nat): (r: Screen)
    requires s.Valid()
    ensures s.SameShape(r)
  {
    if n == 0 then s else ScrollTimes(s, n - 1).ScrolledUp()
  }

  function ScrollDownTimes(s: Screen, n: nat): (r: Screen)
    requires s.Valid()
    ensures s.SameShape(r)
  {
    if n == 0 then s else ScrollDownTimes(s, n - 1).ScrolledDown()
  }

  /** `L`: the top margin is at the cursor line for the duration. */
  function InsertLines(s: Screen, n: nat): (r: Screen)
    requires s.Valid()
    ensures s.SameShape(r)
  {
    ScrollDownTimes(s.(top := PosY(s)), n).(top := s.top)
  }

  /** The cells from `from` to `to` moved up by `d`, with blanks at the end. */
  ghost predicate RegionUp(s: Screen, r: Screen, from: int, to: int, d: nat) {
    && |r.cells| == |s.cells| && 0 <= from && to <= |s.cells|
    && (forall i :: 0 <= i < |s.cells| && !(from <= i < to) ==> r.cells[i] == s.cells[i])
    && (forall i :: from <= i && i + d < to ==> r.cells[i] == s.cells[i + d])
    && (forall i :: from <= i < to && to <= i + d ==> r.cells[i] == s.Blank())
  }

  /** The cells from `from` to `to` moved down by `d`, with blanks at the beginning. */
  ghost predicate RegionDown(s: Screen, r: Screen, from: int, to: int, d: nat) {
    && |r.cells| == |s.cells| && 0 <= from && to <= |s.cells|
    && (forall i :: 0 <= i < |s.cells| && !(from <= i < to) ==> r.cells[i] == s.cells[i])
    && (forall i :: from + d <= i < to ==> r.cells[i] == s.cells[i - d])
    && (forall i :: from <= i < to && i < from + d ==> r.cells[i] == s.Blank())
  }

  lemma RegionBounds(s: Screen)
    requires s.Valid() && s.top < s.bottom
    ensures 0 <= s.top * s.cols && s.top * s.cols + s.cols <= s.bottom * s.cols <= |s.cells|
    ensures (s.top + 1) * s.cols == s.top * s.cols + s.cols && (s.bottom - 1) * s.cols == s.bottom * s.cols - s.cols
  {
    MulNonneg(s.top, s.cols);
    MulLe(s.bottom, s.rows, s.cols);
    MulLe(s.top + 1, s.bottom, s.cols);
    MulStep(s.top, s.cols);
    MulStep(s.bottom - 1, s.cols);
  }

  lemma UpStep(s: Screen, t: Screen, from: int, to: int, d: nat)
    requires t.Valid() && t.top < t.bottom && s.SameShape(t) && from == t.top * t.cols && to == t.bottom * t.cols
    requires RegionUp(s, t, from, to, d)
    ensures RegionUp(s, t.ScrolledUp(), from, to, d + t.cols)
  {
    RegionBounds(t);
    var r := t.ScrolledUp().cells;
    forall i | from <= i && i + d + t.cols < to
      ensures r[i] == s.cells[i + d + t.cols]
    {
      assert r[i] == t.cells[i + t.cols] == s.cells[(i + t.cols) + d];
    }
    forall i | from <= i < to && to <= i + d + t.cols
      ensures r[i] == s.Blank()
    {
      if i < (t.bottom - 1) * t.cols {
        var j := i + t.cols;
        assert r[i] == t.cells[j] && from <= j < to && to <= j + d;
      } else {
        assert r[i] == t.Blank();
      }
    }
  }

  lemma DownStep(s: Screen, t: Screen, from: int, to: int, d: nat)
    requires t.Valid() && t.top < t.bottom && s.SameShape(t) && from == t.top * t.cols && to == t.bottom * t.cols
    requires RegionDown(s, t, from, to, d)
    ensures RegionDown(s, t.ScrolledDown(), from, to, d + t.cols)
  {
    RegionBounds(t);
    var r := t.ScrolledDown().cells;
    forall i | from + d + t.cols <= i < to
      ensures r[i] == s.cells[i - d - t.cols]
    {
      assert r[i] == t.cells[i - t.cols] == s.cells[(i - t.cols) - d];
    }
    forall i | from <= i < to && i < from + d + t.cols
      ensures r[i] == s.Blank()
    {
      if i >= (t.top + 1) * t.cols {
        var j := i - t.cols;
        assert r[i] == t.cells[j] && from <= j < to && j < from + d;
      } else {
        assert r[i] == t.Blank();
      }
    }
  }

  /** `n` single scrolls move the scroll region up by `n` rows at once. */
  lemma {:induction false} ScrollTimesMeans(s: Screen, n: nat)
    requires s.Valid() && s.top < s.bottom
    ensures 0 <= n * s.cols && RegionUp(s, ScrollTimes(s, n), s.top * s.cols, s.bottom * s.cols, n * s.cols)
  {
    hide RegionUp, Screen.ScrolledUp;
    if n == 0 {
      RegionBounds(s);
      UpNone(s, s.top * s.cols, s.bottom * s.cols);
    } else {
      ScrollTimesMeans(s, n - 1);
      MulStep(n - 1, s.cols);
      UpStep(s, ScrollTimes(s, n - 1), s.top * s.cols, s.bottom * s.cols, (n - 1) * s.cols);
    }
  }

  lemma UpNone(s: Screen, from: int, to: int)
    requires 0 <= from && to <= |s.cells|
    ensures RegionUp(s, s, from, to, 0) && RegionDown(s, s, from, to, 0)
  {
  }

  lemma {:induction false} ScrollDownTimesMeans(s: Screen, n: nat)
    requires s.Valid() && s.top < s.bottom
    ensures 0 <= n * s.cols && RegionDown(s, ScrollDownTimes(s, n), s.top * s.cols, s.bottom * s.cols, n * s.cols)
  {
    hide RegionDown, Screen.ScrolledDown;
    if n == 0 {
      RegionBounds(s);
      UpNone(s, s.top * s.cols, s.bottom * s.cols);
    } else {
      ScrollDownTimesMeans(s, n - 1);
      MulStep(n - 1, s.cols);
      DownStep(s, ScrollDownTimes(s, n - 1), s.top * s.cols, s.bottom * s.cols, (n - 1) * s.cols);
    }
  }

  /** Inserting lines at a cursor inside or above the scroll region moves the rows from the cursor line to the bottom
      margin down by `n`; below the region it blanks the cursor line. The margins are left as they were. */
  lemma InsertLinesMeans(s: Screen, n: nat)
    requires s.Valid()
    ensures 0 <= n * s.cols
    ensures PosY(s) < s.bottom ==>
            RegionDown(s, InsertLines(s, n), Start(s, PosY(s)), s.bottom * s.cols, n * s.cols)
    ensures PosY(s) >= s.bottom ==>
            var p := Start(s, PosY(s)); Erased(s, InsertLines(s, n), p, if n == 0 then p else p + s.cols)
  {
    hide RegionDown, Erased;
    MulNonneg(n, s.cols);
    var t := s.(top := PosY(s));
    if PosY(s) < s.bottom {
      ScrollDownTimesMeans(t, n);
      DownFrom(s, t, ScrollDownTimes(t, n), InsertLines(s, n), n * s.cols);
    } else {
      BelowRegion(t, n);
      var p := Start(s, PosY(s));
      ErasedThen(t, ScrollDownTimes(t, n), InsertLines(s, n), p, if n == 0 then p else p + s.cols);
      ErasedFrom(s, t, InsertLines(s, n), p, if n == 0 then p else p + s.cols);
    }
  }

  lemma DownFrom(s: Screen, t: Screen, r': Screen, r: Screen, d: nat)
    requires t == s.(top := t.top) && r.cells == r'.cells && RegionDown(t, r', t.top * s.cols, s.bottom * s.cols, d)
    ensures RegionDown(s, r, t.top * s.cols, s.bottom * s.cols, d)
  {
  }

  lemma {:induction false} BelowRegion(s: Screen, n: nat)
    requires s.Valid() && s.bottom <= s.top < s.rows
    ensures var p := Start(s, s.top); Erased(s, ScrollDownTimes(s, n), p, if n == 0 then p else p + s.cols)
  {
    if n > 0 {
      BelowRegion(s, n - 1);
      RowBelow(ScrollDownTimes(s, n - 1));
    }
  }

  lemma RowBelow(s: Screen)
    requires s.Valid() && s.bottom <= s.top < s.rows
    ensures Erased(s, s.ScrolledDown(), Start(s, s.top), Start(s, s.top) + s.cols)
  {
    MulStep(s.top, s.cols);
    MulLe(s.bottom, s.top, s.cols);
    var r := s.ScrolledDown().cells;
    forall j | 0 <= j < |s.cells|
      ensures r[j] == if Start(s, s.top) <= j < Start(s, s.top) + s.cols then s.Blank() else s.cells[j]
    {
    }
  }

  // ----- cursor movement -----

  /** Up: not past the top margin when the cursor is at or below it, else not past the first row. */
  function UpTo(s: Screen, v: nat): int
    requires s.Valid()
  {
    Max(PosY(s) - v, if PosY(s) >= s.top then s.top else 0)
  }

  /** Down: not past the last row of the region unless the cursor is further below. */
  function DownTo(s: Screen, v: nat): int
    requires s.Valid()
  {
    Min(PosY(s) + v, if PosY(s) <= s.bottom then s.bottom - 1 else s.rows - 1)
  }

  /** On the first row below the scroll region, and nowhere else, "down" takes the cursor up. */
  lemma DownGoesDown(s: Screen, v: nat)
    requires s.Valid()
    ensures DownTo(s, v) >= PosY(s) <==> PosY(s) != s.bottom
  {
  }

  /** A coordinate counted from one, with zero meaning one. */
  function Coordinate(v: nat, n: nat): int {
    Min(Max(v, 1), n) - 1
  }

  /** A coordinate counted from one, where zero wraps around to the largest. */
  function WrapCoordinate(v: nat, n: nat): int {
    Min((v + U32 - 1) % U32, n - 1)
  }

  predicate IsMove(c: char) {
    c in "ABCDEFGHadef`"
  }

  /** Where a cursor movement with parameters `v` and `w` goes. */
  function Destination(c: char, v: nat, w: nat, s: Screen): (int, int)
    requires s.Valid()
  {
    var x, y := PosX(s), PosY(s);
    match c
    case 'A' => (x, UpTo(s, v))
    case 'F' => (0, UpTo(s, v))
    case 'B' => (x, DownTo(s, v))
    case 'e' => (x, DownTo(s, v))
    case 'E' => (0, DownTo(s, v))
    case 'C' => (Min(x + v, s.cols - 1), y)
    case 'a' => (Min(x + v, s.cols - 1), y)
    case 'D' => (Max(x - v, 0), y)
    case 'd' => (x, WrapCoordinate(v, s.rows))
    case 'G' => (WrapCoordinate(v, s.cols), y)
    case '`' => (WrapCoordinate(v, s.cols), y)
    case _ => (Coordinate(w, s.cols), Coordinate(v, s.rows))
  }

  /** Every movement ends on the screen. */
  lemma DestinationOnScreen(c: char, v: nat, w: nat, s: Screen)
    requires s.Valid() && s.top < s.bottom
    ensures 0 <= Destination(c, v, w, s).0 < s.cols && 0 <= Destination(c, v, w, s).1 < s.rows
  {
  }

  function MovedTo(s: Screen, c: char, v: nat, w: nat): Screen
    requires s.Valid() && s.top < s.bottom
  {
    DestinationOnScreen(c, v, w, s);
    s.(cursorX := Destination(c, v, w, s).0, cursorY := Destination(c, v, w, s).1)
  }

  // ----- scroll region -----

  /** DECSTBM with `n` parameters given: absent ones mean the edge, zero means one; a region of less than two rows or
      reaching past the screen is replaced by the whole screen. */
  function RegionOf(n: nat, v: nat, w: nat, rows: nat): (int, int) {
    var top := if n > 0 then Max(v, 1) - 1 else 0;
    var bottom := if n > 1 then Max(w, 1) else rows;
    if top + 2 <= bottom <= rows then (top, bottom) else (0, rows)
  }

  lemma RegionNotEmpty(n: nat, v: nat, w: nat, rows: nat)
    requires rows >= 1
    ensures 0 <= RegionOf(n, v, w, rows).0 < RegionOf(n, v, w, rows).1 <= rows
  {
  }

  function WithRegion(s: Screen, n: nat, v: nat, w: nat): (r: Screen)
    requires s.Valid()
    ensures r.Valid() && r.top < r.bottom
  {
    RegionNotEmpty(n, v, w, s.rows);
    var (top, bottom) := RegionOf(n, v, w, s.rows);
    s.(top := top, bottom := bottom, cursorX := 0, cursorY := 0)
  }

  // ----- single control characters and printing -----

  /** A line feed that ends in column `x`: in the last line of the region the region scrolls. */
  function LineFed(s: Screen, x: nat): (r: Screen)
    requires s.Valid()
    ensures s.SameShape(r)
  {
    if PosY(s) == s.bottom - 1 then s.ScrolledUp().CursorSet(x, PosY(s)) else s.CursorSet(x, PosY(s) + 1)
  }

  function ReverseLineFed(s: Screen): (r: Screen)
    requires s.Valid()
    ensures s.SameShape(r)
  {
    if PosY(s) == s.top then s.ScrolledDown().CursorSet(0, PosY(s)) else s.CursorSet(0, SizeSub(PosY(s), 1))
  }

  predicate IsFormat(c: nat) {
    8 <= c <= 13
  }

  /** Backspace, tab, line feeds and carriage return. */
  function Formatted(c: nat, s: Screen): (r: Screen)
    requires s.Valid() && IsFormat(c)
    ensures s.SameShape(r)
  {
    var x, y := PosX(s), PosY(s);
    if c == 8 then s.CursorSet(SizeSub(x, 1), y)
    else if c == 9 then s.CursorSet(if x / 8 + 1 >= s.cols then s.cols - 1 else (x / 8 + 1) * 8, y)
    else if c == 13 then s.CursorSet(0, y)
    else LineFed(s, 0)
  }

  /** Whether `set_cursor_pos` takes a coordinate past the edge for a negative number. */
  predicate SeemsNegative(v: nat, n: nat) {
    v >= n && v % U32 >= 0x8000_0000
  }

  /** Where they leave the cursor, on any screen whose size is a `size_t`: a column back but not past the first; the
      next tab stop or the last column, and the next row or the last one, unless the coordinate is taken for a
      negative number, which sends the cursor to zero. Only a line feed in the last line of the region changes cells. */
  lemma FormattedMeans(c: nat, s: Screen)
    requires s.Valid() && IsFormat(c) && s.cols < U64 && s.rows < U64
    ensures var r, x, y := Formatted(c, s), PosX(s), PosY(s);
            var stop := x - x % 8 + 8;
            && (c == 8 ==> CursorAt(r, Max(x - 1, 0), y))
            && (c == 9 ==> CursorAt(r, if SeemsNegative(stop, s.cols) then 0 else Min(stop, s.cols - 1), y))
            && (c == 13 ==> CursorAt(r, 0, y))
            && (10 <= c <= 12 ==>
                  CursorAt(r, 0, if y == s.bottom - 1 then y else if SeemsNegative(y + 1, s.rows) then 0
                                 else Min(y + 1, s.rows - 1)))
            && (10 <= c <= 12 && y == s.bottom - 1 ==> r.cells == s.ScrolledUp().cells)
            && (!(10 <= c <= 12 && y == s.bottom - 1) ==> r.cells == s.cells)
  {
    hide Screen.ScrolledUp;
    if c == 9 {
      TabStop(s);
    }
  }

  lemma TabStop(s: Screen)
    requires s.Valid()
    ensures var stop := PosX(s) - PosX(s) % 8 + 8;
            Formatted(9, s).cursorX == (if SeemsNegative(stop, s.cols) then 0 else Min(stop, s.cols - 1)) &&
            Formatted(9, s).cursorY == PosY(s) && Formatted(9, s).cells == s.cells
  {
    var x := PosX(s);
    assert (x / 8 + 1) * 8 == x - x % 8 + 8;
  }

  /** The escapes D, E and M. */
  function EscapeMoved(c: char, s: Screen): (r: Screen)
    requires s.Valid()
    ensures s.SameShape(r)
  {
    match c
    case 'D' => LineFed(s, PosX(s))
    case 'E' => LineFed(s, 0)
    case 'M' => ReverseLineFed(s)
    case _ => s
  }

  /** A reverse line feed undoes a line feed that did not scroll, up to the column. */
  lemma ReverseUndoes(s: Screen)
    requires s.Valid() && PosY(s) != s.bottom - 1 && PosY(s) + 1 < s.rows && PosY(s) + 1 != s.top
    ensures ReverseLineFed(LineFed(s, 0)) == s.(cursorX := 0, cursorY := PosY(s))
  {
  }

  /** Insert mode: the columns from the last down to `i` moved right by one. */
  function GapTo(s: Screen, y: nat, i: nat): (r: Screen)
    requires s.Valid() && i <= s.cols
    ensures s.SameShape(r)
    decreases s.cols - i
  {
    if i == s.cols then s else GapTo(s, y, i + 1).Moved(i + 1, y, i, y)
  }

  /** Exactly the cells after column `i` of row `y` hold their left neighbours. */
  ghost predicate Gap(s: Screen, r: Screen, y: nat, i: nat) {
    var p := Start(s, y);
    && |r.cells| == |s.cells|
    && (forall j :: 0 <= j < |s.cells| && !(p + i < j < p + s.cols) ==> r.cells[j] == s.cells[j])
    && (forall j :: p + i < j < p + s.cols && j < |s.cells| ==> r.cells[j] == s.cells[j - 1])
  }

  lemma {:induction false} GapToMeans(s: Screen, y: nat, i: nat)
    requires s.Valid() && y < s.rows && i <= s.cols
    ensures Gap(s, GapTo(s, y, i), y, i) && GapTo(s, y, i) == s.(cells := GapTo(s, y, i).cells)
    decreases s.cols - i
  {
    if i < s.cols {
      RowFits(s, y);
      GapToMeans(s, y, i + 1);
      var t, p := GapTo(s, y, i + 1), Start(s, y);
      assert t.cells[p + i] == s.cells[p + i];
      assert t.Moved(i + 1, y, i, y).cells == if i + 1 < s.cols then t.cells[p + i + 1 := t.cells[p + i]] else t.cells;
    }
  }

  /** The glyph of a byte: that of the special character set if it has one, else the printable character. */
  function GlyphOf(c: nat, special: int): int {
    if special >= 0 then special else if 0x20 <= c <= 0x7e then c else -1
  }

  function Printed(s: Screen, insertMode: bool, glyph: int): (r: Screen)
    requires s.Valid() && glyph < 256
    ensures s.SameShape(r)
  {
    var t := if insertMode then GapTo(s, PosY(s), PosX(s)) else s;
    if glyph >= 0 then t.Typed(glyph) else t
  }

  /** Printing in insert mode puts the glyph at the cursor and moves the rest of the line right by one; with a wrap
      pending nothing is moved; below the screen a gap opens in the last line and the glyph is lost. */
  lemma PrintedMeans(s: Screen, glyph: Glyph)
    requires s.Valid()
    ensures var r := Printed(s, true, glyph);
            && (s.cursorX < s.cols && s.cursorY < s.rows ==>
                  var p := Start(s, s.cursorY) + s.cursorX;
                  && p < |r.cells| == |s.cells| && CursorAt(r, s.cursorX + 1, s.cursorY)
                  && r.cells[p] == Cell(glyph, s.fg, s.bg)
                  && (forall j :: p < j < Start(s, s.cursorY) + s.cols && j < |s.cells| ==>
                     r.cells[j] == s.cells[j - 1])
                  && (forall j :: 0 <= j < |s.cells| && !(p <= j < Start(s, s.cursorY) + s.cols) ==>
                        r.cells[j] == s.cells[j]))
            && (s.cursorX >= s.cols ==> r == s.Typed(glyph))
            && (s.cursorX < s.cols && s.cursorY >= s.rows ==>
                  Gap(s, r, s.rows - 1, s.cursorX) && CursorAt(r, s.cursorX + 1, s.cursorY))
  {
    hide Screen.Typed, GapTo;
    GapToMeans(s, PosY(s), PosX(s));
    var t := GapTo(s, PosY(s), PosX(s));
    if s.cursorX >= s.cols {
      assert t.cells == s.cells;
    } else if s.cursorY < s.rows {
      TypedInside(t, glyph);
    } else {
      TypedBelow(t, glyph);
    }
  }

  lemma TypedBelow(s: Screen, c: Glyph)
    requires s.Valid() && s.cursorX < s.cols && s.cursorY >= s.rows
    ensures s.Typed(c) == s.(cursorX := s.cursorX + 1)
  {
  }

  // ----- all of them -----

  /** What a finished control sequence with `n` given parameters does to the screen; colours ("m") are not covered, and
      all other final bytes leave the screen alone. */
  function Effect(c: char, n: nat, v: seq<nat>, savedX: nat, savedY: nat, s: Screen): Screen
    requires s.Valid() && s.top < s.bottom && |v| >= 2
  {
    if IsMove(c) then MovedTo(s, c, v[0], v[1])
    else match c
      case 'M' => ScrollTimes(s, v[0])
      case 'L' => InsertLines(s, v[0])
      case 'J' => EraseDisplay(s, v[0])
      case 'K' => EraseLine(s, v[0])
      case '@' => Insert(s, v[0])
      case 'P' => Delete(s, v[0])
      case 'X' => EraseChars(s, v[0])
      case 'u' => s.CursorSet(savedX, savedY)
      case 'r' => WithRegion(s, n, v[0], v[1])
      case _ => s
  }
}
