/** What the bytes of each control sequence, escape and control character do to the screen, in closed form. */
module TerminalMeaning {
  import opened Arith
  import opened BitStream
  import opened PlainScreen
  import opened Sizes
  import opened ScreenEdit
  import opened Parameters
  import opened Sgr
  import opened TerminalSpec
  import opened TerminalRuns
  import Utf8

  /** The value of parameter `k`: the number written, cut to 32 bits, or `missing` if there is none. */
  function Arg(ns: seq<nat>, k: nat, missing: nat): nat {
    if k < |ns| then ns[k] % U32 else missing
  }

  /** Only cells and cursor have changed, and the parser is ready for the next byte. */
  ghost predicate Edits(t: State, r: State) {
    && r.parser.Idle() && r.view == t.view.(screen := r.view.screen)
    && t.view.screen.SameShape(r.view.screen)
  }

  /** Cells, size, colours and modes are as before. */
  ghost predicate OnlyMoves(t: State, r: State, x: int, y: int) {
    && r.parser.Idle() && x >= 0 && y >= 0
    && r.view == t.view.(screen := t.view.screen.(cursorX := x, cursorY := y))
  }

  // ----- from bytes to the operation -----

  lemma Values(ns: seq<nat>, missing: nat)
    ensures Holding(ns).Valid()
    ensures Completed(Holding(ns), missing)[0] == Arg(ns, 0, missing)
    ensures Completed(Holding(ns), missing)[1] == Arg(ns, 1, missing)
    ensures Holding(ns).Given() == if |ns| <= MAX_ESC_VALUES then |ns| else MAX_ESC_VALUES
  {
  }

  /** The sequences that act on the screen. */
  predicate IsScreenByte(c: nat) {
    c != 0x6d && c != 0x6e && c != 0x73 && c != 0x68 && c != 0x6c
  }

  lemma ScreenRun(env: Env, t: State, ns: seq<nat>, c: Byte)
    requires env.Valid() && t.Valid() && t.parser.Idle() && FinalByte(c) && IsScreenByte(c)
    ensures Holding(ns).Valid()
    ensures var r, s := PutBytes(env, t, SequenceBytes(ns, c)), t.view.screen.(scrollOn := false);
            var vs := Completed(Holding(ns), Missing(c as char));
            && s.Valid() && s.top < s.bottom && |vs| == MAX_ESC_VALUES && r.parser.Idle()
            && vs[0] == Arg(ns, 0, Missing(c as char)) && vs[1] == Arg(ns, 1, Missing(c as char))
            && r.view == t.view.WithScreen(Effect(c as char, Holding(ns).Given(), vs, t.view.savedX, t.view.savedY, s)
                                           .(scrollOn := true))
  {
    hide PutBytes, SequenceBytes, Effect, Holding, Completed;
    SequenceRun(env, t, ns, c);
    Values(ns, Missing(c as char));
  }

  /** The operations that change cells and cursor only. */
  predicate IsEdit(c: nat) {
    c == 0x4a || c == 0x4b || c == 0x40 || c == 0x50 || c == 0x58 || c == 0x4d || c == 0x4c
  }

  lemma EditRun(env: Env, t: State, ns: seq<nat>, c: Byte, e: Screen)
    requires env.Valid() && t.Valid() && t.parser.Idle() && IsEdit(c)
    requires var v, s := Arg(ns, 0, Missing(c as char)), t.view.screen.(scrollOn := false);
             e == Effect(c as char, 0, [v, v], 0, 0, s)
    ensures var r := PutBytes(env, t, SequenceBytes(ns, c)); Edits(t, r) && r.view.screen == e.(scrollOn := true)
  {
    hide PutBytes, SequenceBytes, Effect, Holding, Completed, Env.Valid, View.Valid;
    ScreenRun(env, t, ns, c);
    EditOnly(c, Holding(ns).Given(), Completed(Holding(ns), Missing(c as char)), t.view.savedX, t.view.savedY,
             t.view.screen.(scrollOn := false));
  }

  lemma EditOnly(c: Byte, n: nat, vs: seq<nat>, x: nat, y: nat, s: Screen)
    requires IsEdit(c) && s.Valid() && s.top < s.bottom && |vs| >= 2
    ensures Effect(c as char, n, vs, x, y, s) == Effect(c as char, 0, [vs[0], vs[0]], 0, 0, s)
    ensures s.SameShape(Effect(c as char, n, vs, x, y, s))
  {
    hide MovedTo, ScrollTimes, InsertLines, EraseDisplay, EraseLine, Insert, Delete, EraseChars, WithRegion,
         Screen.CursorSet;
  }

  // ----- erasing -----

  /** What `v` of ED erases, and where the cursor is afterwards. */
  ghost predicate DisplayErased(s: Screen, q: Screen, v: nat)
    requires s.Valid()
  {
    var p := Start(s, PosY(s)) + PosX(s);
    && (v <= 1 ==> CursorAt(q, PosX(s), PosY(s)))
    && (v >= 2 ==> CursorAt(q, s.cursorX, s.cursorY))
    && (v == 0 ==> p < |s.cells| && SpacesErase(s, q, |s.cells| - p))
    && (v == 1 ==> Erased(s, q, 0, Min(p + 1, PassEnd(s, 0))))
    && (v == 2 || v == 3 ==> Erased(s, q, 0, |s.cells|))
    && (v > 3 ==> q == s)
  }

  lemma DisplayErasedOn(s: Screen, v: nat)
    requires s.Valid() && s.scrollOn
    ensures DisplayErased(s, EraseDisplay(s.(scrollOn := false), v).(scrollOn := true), v)
  {
    hide EraseDisplay, SpacesErase;
    var u := s.(scrollOn := false);
    var e := EraseDisplay(u, v);
    EraseDisplayMeans(u, v);
    if v == 0 {
      SameSpaces(u, s, e, e.(scrollOn := true), |s.cells| - (Start(s, PosY(s)) + PosX(s)));
    }
  }

  /** The scroll mode plays no part in what has been erased. */
  lemma SameSpaces(s: Screen, s': Screen, e: Screen, e': Screen, n: nat)
    requires s.Valid() && s' == s.(scrollOn := true) && e' == e.(scrollOn := true)
    ensures SpacesErase(s, e, n) <==> SpacesErase(s', e', n)
  {
  }

  /** ESC [ Ps J */
  lemma EraseDisplayBytes(env: Env, t: State, ns: seq<nat>)
    requires env.Valid() && t.Valid() && t.parser.Idle()
    ensures var r := PutBytes(env, t, SequenceBytes(ns, 0x4a));
            Edits(t, r) && DisplayErased(t.view.screen, r.view.screen, Arg(ns, 0, 0))
  {
    hide PutBytes, SequenceBytes, EraseDisplay, DisplayErased, Edits;
    DisplayErasedOn(t.view.screen, Arg(ns, 0, 0));
    EditRun(env, t, ns, 0x4a, EraseDisplay(t.view.screen.(scrollOn := false), Arg(ns, 0, 0)));
  }

  /** What `v` of EL erases; the cursor stays where it is. */
  ghost predicate LineErased(s: Screen, q: Screen, v: nat)
    requires s.Valid()
  {
    var x, p := PosX(s), Start(s, PosY(s));
    && (v <= 2 ==> CursorAt(q, x, PosY(s)))
    && (v == 0 ==> SpacesErase(s, q, s.cols - x))
    && (v == 0 && s.cursorX < s.cols && s.cursorY < s.rows ==> Erased(s, q, p + x, p + s.cols))
    && (v == 1 ==> Erased(s, q, p, p + x))
    && (v == 2 ==> Erased(s, q, p, p + s.cols))
    && (v > 2 ==> q == s)
  }

  lemma LineErasedOn(s: Screen, v: nat)
    requires s.Valid() && s.scrollOn
    ensures LineErased(s, EraseLine(s.(scrollOn := false), v).(scrollOn := true), v)
  {
    hide EraseLine, SpacesErase;
    var u := s.(scrollOn := false);
    var e := EraseLine(u, v);
    EraseLineMeans(u, v);
    SameSpaces(u, s, e, e.(scrollOn := true), s.cols - PosX(s));
  }

  /** ESC [ Ps K */
  lemma EraseLineBytes(env: Env, t: State, ns: seq<nat>)
    requires env.Valid() && t.Valid() && t.parser.Idle()
    ensures var r := PutBytes(env, t, SequenceBytes(ns, 0x4b));
            Edits(t, r) && LineErased(t.view.screen, r.view.screen, Arg(ns, 0, 0))
  {
    hide PutBytes, SequenceBytes, EraseLine, LineErased, Edits;
    LineErasedOn(t.view.screen, Arg(ns, 0, 0));
    EditRun(env, t, ns, 0x4b, EraseLine(t.view.screen.(scrollOn := false), Arg(ns, 0, 0)));
  }

  lemma CharsErasedOn(s: Screen, v: nat)
    requires s.Valid() && s.scrollOn
    ensures var q := EraseChars(s.(scrollOn := false), v).(scrollOn := true);
            SpacesErase(s, q, v) && CursorAt(q, PosX(s), PosY(s))
  {
    hide EraseChars, SpacesErase;
    var u := s.(scrollOn := false);
    EraseCharsMeans(u, v);
    SameSpaces(u, s, EraseChars(u, v), EraseChars(u, v).(scrollOn := true), v);
  }

  /** ESC [ Ps X erases the cells that as many spaces would. */
  lemma EraseCharsBytes(env: Env, t: State, ns: seq<nat>)
    requires env.Valid() && t.Valid() && t.parser.Idle()
    ensures var r, s := PutBytes(env, t, SequenceBytes(ns, 0x58)), t.view.screen;
            && Edits(t, r) && CursorAt(r.view.screen, PosX(s), PosY(s))
            && SpacesErase(s, r.view.screen, Arg(ns, 0, 1))
  {
    hide PutBytes, SequenceBytes, EraseChars, SpacesErase, Edits;
    CharsErasedOn(t.view.screen, Arg(ns, 0, 1));
    EditRun(env, t, ns, 0x58, EraseChars(t.view.screen.(scrollOn := false), Arg(ns, 0, 1)));
  }

  // ----- inserting and deleting -----

  lemma InsertedOn(s: Screen, v: nat)
    requires s.Valid() && s.scrollOn
    ensures var q := Insert(s.(scrollOn := false), v).(scrollOn := true);
            Inserted(s, q, PosY(s), v, PosX(s)) && CursorAt(q, PosX(s), PosY(s))
  {
    hide Insert;
    InsertMeans(s.(scrollOn := false), v);
  }

  /** ESC [ Ps @ */
  lemma InsertBytes(env: Env, t: State, ns: seq<nat>)
    requires env.Valid() && t.Valid() && t.parser.Idle()
    ensures var r, s := PutBytes(env, t, SequenceBytes(ns, 0x40)), t.view.screen;
            && Edits(t, r) && CursorAt(r.view.screen, PosX(s), PosY(s))
            && Inserted(s, r.view.screen, PosY(s), Arg(ns, 0, 1), PosX(s))
  {
    hide PutBytes, SequenceBytes, Insert, Inserted, Edits;
    InsertedOn(t.view.screen, Arg(ns, 0, 1));
    EditRun(env, t, ns, 0x40, Insert(t.view.screen.(scrollOn := false), Arg(ns, 0, 1)));
  }

  /** What deleting `v` characters does, for every parameter and every cursor. Up to the length of the line, its last
      `v` cells become blank and the characters from `v` after the cursor on move left by `v`; beyond that, as many
      spaces are typed from the first column, or from the last when the wrapped column is not taken for a negative
      number. */
  ghost predicate CharsDeleted(s: Screen, q: Screen, v: nat)
    requires s.Valid()
  {
    var x, p := PosX(s), Start(s, PosY(s));
    && CursorAt(q, x, PosY(s)) && |q.cells| == |s.cells|
    && (v <= s.cols ==>
          && (forall j :: 0 <= j < |s.cells| && !(p <= j < p + s.cols) ==> q.cells[j] == s.cells[j])
          && (forall j :: p <= j < p + s.cols && p + s.cols <= j + v && j < |s.cells| ==> q.cells[j] == s.Blank())
          && (forall j :: p <= j < p + x && j + v < p + s.cols && j < |s.cells| ==> q.cells[j] == s.cells[j])
          && (forall j :: p + x <= j && j + v < p + s.cols && j + v < |s.cells| ==> q.cells[j] == s.cells[j + v]))
    && (s.cols < v && s.cols < U32 ==>
          SpacesErase(s.(cursorX := if v <= s.cols + 0x8000_0000 then 0 else s.cols - 1, cursorY := PosY(s)), q, v))
  }

  lemma DeletedOn(s: Screen, v: nat)
    requires s.Valid() && s.scrollOn && v < U32
    ensures CharsDeleted(s, Delete(s.(scrollOn := false), v).(scrollOn := true), v)
  {
    hide Delete, SpacesErase;
    var u := s.(scrollOn := false);
    DeleteCursor(u, v);
    if v <= s.cols {
      DeleteCells(u, v);
    } else if s.cols < U32 {
      var k := if v <= s.cols + 0x8000_0000 then 0 else s.cols - 1;
      var e := EraseChars(u.(cursorX := k, cursorY := PosY(u)), v);
      DeleteBeyond(u, v);
      EraseCharsMeans(u.(cursorX := k, cursorY := PosY(u)), v);
      SpacesEraseThen(u.(cursorX := k, cursorY := PosY(u)), e, Delete(u, v), v);
      SameSpaces(u.(cursorX := k, cursorY := PosY(u)), s.(cursorX := k, cursorY := PosY(u)), Delete(u, v),
                 Delete(u, v).(scrollOn := true), v);
    }
  }

  lemma DeleteCursor(s: Screen, v: nat)
    requires s.Valid()
    ensures CursorAt(Delete(s, v), PosX(s), PosY(s))
  {
    hide Spaced, MoveLeft;
  }

  /** Beyond the length of the line nothing moves: spaces are typed from where the wrapped column leads. */
  lemma DeleteBeyond(s: Screen, v: nat)
    requires s.Valid() && s.cols < U32 && s.cols < v < U32
    ensures var k := if v <= s.cols + 0x8000_0000 then 0 else s.cols - 1;
            Delete(s, v).cells == EraseChars(s.(cursorX := k, cursorY := PosY(s)), v).cells
  {
    hide Spaced;
    var y := PosY(s);
    assert MoveLeft(s, y, v, PosX(s) + v, s.cols) == s;
    var k := if v <= s.cols + 0x8000_0000 then 0 else s.cols - 1;
    assert s.CursorSet(SizeSub(s.cols, v), y) == s.(cursorX := k, cursorY := y) by {
      assert SizeSub(s.cols, v) == U64 - (v - s.cols);
      assert SizeSub(s.cols, v) % U32 == U32 - (v - s.cols);
    }
  }

  /** ESC [ Ps P */
  lemma DeleteBytes(env: Env, t: State, ns: seq<nat>)
    requires env.Valid() && t.Valid() && t.parser.Idle()
    ensures var r := PutBytes(env, t, SequenceBytes(ns, 0x50));
            Edits(t, r) && CharsDeleted(t.view.screen, r.view.screen, Arg(ns, 0, 1))
  {
    hide PutBytes, SequenceBytes, Delete, CharsDeleted, Edits;
    DeletedOn(t.view.screen, Arg(ns, 0, 1));
    EditRun(env, t, ns, 0x50, Delete(t.view.screen.(scrollOn := false), Arg(ns, 0, 1)));
  }

  lemma ScrolledOn(s: Screen, n: nat)
    requires s.Valid() && s.top < s.bottom && s.scrollOn
    ensures var q := ScrollTimes(s.(scrollOn := false), n).(scrollOn := true);
            && 0 <= n * s.cols && RegionUp(s, q, s.top * s.cols, s.bottom * s.cols, n * s.cols)
            && CursorAt(q, s.cursorX, s.cursorY)
  {
    hide ScrollTimes;
    ScrollTimesMeans(s.(scrollOn := false), n);
    ScrollKeepsCursor(s.(scrollOn := false), n);
  }

  lemma {:induction false} ScrollKeepsCursor(s: Screen, n: nat)
    requires s.Valid()
    ensures CursorAt(ScrollTimes(s, n), s.cursorX, s.cursorY) && CursorAt(ScrollDownTimes(s, n), s.cursorX, s.cursorY)
  {
    if n > 0 {
      ScrollKeepsCursor(s, n - 1);
    }
  }

  /** ESC [ Ps M scrolls the region up and leaves the cursor. */
  lemma DeleteLinesBytes(env: Env, t: State, ns: seq<nat>)
    requires env.Valid() && t.Valid() && t.parser.Idle()
    ensures var r, s, n := PutBytes(env, t, SequenceBytes(ns, 0x4d)), t.view.screen, Arg(ns, 0, 1);
            && Edits(t, r) && CursorAt(r.view.screen, s.cursorX, s.cursorY)
            && 0 <= n * s.cols && RegionUp(s, r.view.screen, s.top * s.cols, s.bottom * s.cols, n * s.cols)
  {
    hide PutBytes, SequenceBytes, ScrollTimes, RegionUp, Edits;
    ScrolledOn(t.view.screen, Arg(ns, 0, 1));
    EditRun(env, t, ns, 0x4d, ScrollTimes(t.view.screen.(scrollOn := false), Arg(ns, 0, 1)));
  }

  /** Where lines are inserted: from the cursor line to the bottom margin, or the cursor line alone below it. */
  ghost predicate LinesInserted(s: Screen, q: Screen, n: nat)
    requires s.Valid()
  {
    && CursorAt(q, s.cursorX, s.cursorY) && 0 <= n * s.cols
    && (PosY(s) < s.bottom ==> RegionDown(s, q, Start(s, PosY(s)), s.bottom * s.cols, n * s.cols))
    && (PosY(s) >= s.bottom ==>
          var p := Start(s, PosY(s)); Erased(s, q, p, if n == 0 then p else p + s.cols))
  }

  lemma LinesInsertedOn(s: Screen, n: nat)
    requires s.Valid() && s.scrollOn
    ensures LinesInserted(s, InsertLines(s.(scrollOn := false), n).(scrollOn := true), n)
  {
    hide ScrollDownTimes;
    var u := s.(scrollOn := false);
    InsertLinesMeans(u, n);
    ScrollKeepsCursor(u.(top := PosY(u)), n);
  }

  /** ESC [ Ps L */
  lemma InsertLinesBytes(env: Env, t: State, ns: seq<nat>)
    requires env.Valid() && t.Valid() && t.parser.Idle()
    ensures var r := PutBytes(env, t, SequenceBytes(ns, 0x4c));
            Edits(t, r) && LinesInserted(t.view.screen, r.view.screen, Arg(ns, 0, 1))
  {
    hide PutBytes, SequenceBytes, InsertLines, LinesInserted, Edits;
    LinesInsertedOn(t.view.screen, Arg(ns, 0, 1));
    EditRun(env, t, ns, 0x4c, InsertLines(t.view.screen.(scrollOn := false), Arg(ns, 0, 1)));
  }

  // ----- moving -----

  /** Where each of the cursor movements goes from column `x` and row `y` with the parameters `v` and `w`. */
  ghost predicate MovesTo(c: nat, s: Screen, x: nat, y: nat, v: nat, w: nat, q: Screen)
    requires s.Valid()
  {
    var up := Max(y - v, if y >= s.top then s.top else 0);
    var down := Min(y + v, if y <= s.bottom then s.bottom - 1 else s.rows - 1);
    var from1 := if v == 0 then U32 - 1 else v - 1;
    && (c == 0x41 ==> CursorAt(q, x, up))
    && (c == 0x46 ==> CursorAt(q, 0, up))
    && (c == 0x42 || c == 0x65 ==> CursorAt(q, x, down))
    && (c == 0x45 ==> CursorAt(q, 0, down))
    && (c == 0x43 || c == 0x61 ==> CursorAt(q, Min(x + v, s.cols - 1), y))
    && (c == 0x44 ==> CursorAt(q, Max(x - v, 0), y))
    && (c == 0x64 ==> CursorAt(q, x, Min(from1, s.rows - 1)))
    && (c == 0x47 || c == 0x60 ==> CursorAt(q, Min(from1, s.cols - 1), y))
    && (c == 0x48 || c == 0x66 ==> CursorAt(q, Min(Max(w, 1), s.cols) - 1, Min(Max(v, 1), s.rows) - 1))
  }

  lemma MovesToDestination(c: Byte, s: Screen, v: nat, w: nat)
    requires s.Valid() && s.top < s.bottom && v < U32
    ensures MovesTo(c, s, PosX(s), PosY(s), v, w, MovedTo(s, c as char, v, w))
  {
    hide WrapCoordinate;
    WrapIs(v, s.rows);
    WrapIs(v, s.cols);
  }

  lemma WrapIs(v: nat, n: nat)
    requires v < U32
    ensures WrapCoordinate(v, n) == Min(if v == 0 then U32 - 1 else v - 1, n - 1)
  {
  }

  /** Sends a cursor movement: CUU, CUD, CUF, CUB, CNL, CPL, CHA, CUP, HPR, VPA, VPR, HVP and HPA. */
  lemma MoveBytes(env: Env, t: State, ns: seq<nat>, c: Byte)
    requires env.Valid() && t.Valid() && t.parser.Idle() && IsMove(c as char)
    ensures var r, s := PutBytes(env, t, SequenceBytes(ns, c)), t.view.screen;
            var q := r.view.screen;
            && OnlyMoves(t, r, q.cursorX, q.cursorY)
            && MovesTo(c, s, PosX(s), PosY(s), Arg(ns, 0, 1), Arg(ns, 1, 1), q)
  {
    hide PutBytes, SequenceBytes, Holding, Completed, Destination;
    MoveIsFinal(c);
    ScreenRun(env, t, ns, c);
    var s := t.view.screen.(scrollOn := false);
    MovesToDestination(c, s, Arg(ns, 0, 1), Arg(ns, 1, 1));
  }

  lemma MoveIsFinal(c: Byte)
    requires IsMove(c as char)
    ensures FinalByte(c) && IsScreenByte(c) && Missing(c as char) == 1
  {
  }

  /** ESC [ Pt ; Pb r: the cursor goes to the origin and the region has the rows from `Pt` to `Pb`, where a missing or
      zero `Pt` is the first row, a missing `Pb` the last one and a region of less than two rows, or one that goes past
      the screen, is replaced by the whole screen. */
  lemma MarginsBytes(env: Env, t: State, ns: seq<nat>)
    requires env.Valid() && t.Valid() && t.parser.Idle()
    ensures var r, s := PutBytes(env, t, SequenceBytes(ns, 0x72)), t.view.screen;
            var first := Max(Arg(ns, 0, 1), 1);
            var last := if |ns| < 2 then s.rows else Max(Arg(ns, 1, 1), 1);
            && r.parser.Idle()
            && r.view == t.view.(screen :=
                 if first < last <= s.rows then s.(cursorX := 0, cursorY := 0, top := first - 1, bottom := last)
                 else s.(cursorX := 0, cursorY := 0, top := 0, bottom := s.rows))
  {
    hide PutBytes, SequenceBytes, Holding, Completed;
    ScreenRun(env, t, ns, 0x72);
    Values(ns, 1);
  }

  // ----- position -----

  lemma DispatchRun(env: Env, t: State, ns: seq<nat>, c: Byte)
    requires env.Valid() && t.Valid() && t.parser.Idle() && FinalByte(c)
    ensures Holding(ns).Valid()
    ensures var r, s := PutBytes(env, t, SequenceBytes(ns, c)), t.view.screen.(scrollOn := false);
            var vs := Completed(Holding(ns), Missing(c as char));
            && s.Valid() && t.view.WithScreen(s).Valid() && |vs| == MAX_ESC_VALUES && r.parser.Idle()
            && vs[0] == Arg(ns, 0, Missing(c as char)) && Holding(ns).Given() <= MAX_ESC_VALUES
            && (var d := Dispatched(env, t.view.WithScreen(s), c as char, Holding(ns).Given(), vs);
                r.view == d.WithScreen(d.screen.(scrollOn := true)))
  {
    hide PutBytes, SequenceBytes, Dispatched, Holding, Completed;
    SequenceRun(env, t, ns, c);
    Values(ns, Missing(c as char));
  }

  /** ESC [ 6 n reports the position of the cursor, counted from one; other parameters report nothing. */
  lemma ReportBytes(env: Env, t: State, ns: seq<nat>)
    requires env.Valid() && t.Valid() && t.parser.Idle()
    ensures var r, s := PutBytes(env, t, SequenceBytes(ns, 0x6e)), t.view.screen;
            && r.parser.Idle()
            && r.view == t.view.(reports := t.view.reports + if Arg(ns, 0, 1) == 6
                                                             then [Report(PosX(s) + 1, PosY(s) + 1)] else [])
  {
    hide PutBytes, SequenceBytes, Holding, Completed;
    DispatchRun(env, t, ns, 0x6e);
  }

  /** ESC [ y ; x H followed by ESC [ 6 n reports that position. */
  lemma PositionReported(env: Env, t: State, x: nat, y: nat)
    requires env.Valid() && t.Valid() && t.parser.Idle()
    requires 1 <= x <= t.view.screen.cols && 1 <= y <= t.view.screen.rows && x < U32 && y < U32
    ensures var r := PutBytes(env, t, SequenceBytes([y, x], 0x48) + SequenceBytes([6], 0x6e));
            r.parser.Idle() && r.view.reports == t.view.reports + [Report(x, y)]
  {
    hide PutBytes, SequenceBytes, State.Valid, Env.Valid;
    PutAdd(env, t, SequenceBytes([y, x], 0x48), SequenceBytes([6], 0x6e));
    MoveBytes(env, t, [y, x], 0x48);
    ReportBytes(env, PutBytes(env, t, SequenceBytes([y, x], 0x48)), [6]);
  }

  /** ESC [ s */
  lemma SavePositionBytes(env: Env, t: State, ns: seq<nat>)
    requires env.Valid() && t.Valid() && t.parser.Idle()
    ensures var r, s := PutBytes(env, t, SequenceBytes(ns, 0x73)), t.view.screen;
            r.parser.Idle() && r.view == t.view.(savedX := PosX(s), savedY := PosY(s))
  {
    hide PutBytes, SequenceBytes, Holding, Completed;
    DispatchRun(env, t, ns, 0x73);
  }

  /** A coordinate on the screen is kept; one past its edge goes to the edge, or to zero if its low 32 bits are those of
      a negative number. */
  function Held(v: nat, n: nat): int {
    if v < n then v else if v % U32 >= 0x8000_0000 then 0 else n - 1
  }

  /** ESC [ u */
  lemma RestorePositionBytes(env: Env, t: State, ns: seq<nat>)
    requires env.Valid() && t.Valid() && t.parser.Idle()
    ensures var s := t.view.screen;
            OnlyMoves(t, PutBytes(env, t, SequenceBytes(ns, 0x75)), Held(t.view.savedX, s.cols),
                      Held(t.view.savedY, s.rows))
  {
    hide PutBytes, SequenceBytes, Holding, Completed;
    ScreenRun(env, t, ns, 0x75);
  }

  /** An item that does not overwrite the position saved by ESC [ s. */
  predicate SparesPosition(i: Item) {
    !(i.Sequence? && i.c == 0x73) && i != Escape(0x63)
  }

  ghost predicate SamePosition(v: View, w: View) {
    w.savedX == v.savedX && w.savedY == v.savedY && w.screen.rows == v.screen.rows && w.screen.cols == v.screen.cols
  }

  lemma SequenceSpares(env: Env, v: View, c: char, p: Params)
    requires env.Valid() && v.Valid() && p.Valid() && c != 's'
    ensures SamePosition(v, AfterSequence(env, v, c, p))
  {
    hide Effect, Rendition, Completed;
    var s := v.screen.(scrollOn := false);
    EffectKeeps(c, p.Given(), Completed(p, Missing(c)), v.savedX, v.savedY, s);
  }

  lemma ItemSpares(env: Env, v: View, i: Item)
    requires env.Valid() && v.Valid() && v.screen.scrollOn && i.Valid() && SparesPosition(i)
    ensures SamePosition(v, Applied(env, v, i))
  {
    hide AfterSequence, Drawn, Holding, EscapeMoved;
    if i.Sequence? {
      HoldingValid(i.ns);
      SequenceSpares(env, v, i.c as char, Holding(i.ns));
    }
  }

  lemma {:induction false} ItemsSpare(env: Env, v: View, items: seq<Item>)
    requires env.Valid() && v.Valid() && v.screen.scrollOn && ValidItems(items)
    requires forall k :: 0 <= k < |items| ==> SparesPosition(items[k])
    ensures SamePosition(v, AppliedAll(env, v, items))
    decreases |items|
  {
    hide Applied, Item.Valid, SparesPosition;
    if items != [] {
      var m := |items| - 1;
      ItemsSpare(env, v, items[..m]);
      ItemSpares(env, AppliedAll(env, v, items[..m]), items[m]);
    }
  }

  /** ESC [ s, any text that does not save again or reset the terminal, ESC [ u: the cursor is back where it was, and
      nothing else is different from what the text left. */
  lemma PositionRestored(env: Env, t: State, items: seq<Item>)
    requires env.Valid() && t.Valid() && t.parser.Idle() && ValidItems(items)
    requires forall k :: 0 <= k < |items| ==> SparesPosition(items[k])
    ensures var save, restore, s := SequenceBytes([], 0x73), SequenceBytes([], 0x75), t.view.screen;
            OnlyMoves(PutBytes(env, t, save + ItemsBytes(items)), PutBytes(env, t, save + ItemsBytes(items) + restore),
                      PosX(s), PosY(s))
  {
    hide PutBytes, SequenceBytes, AppliedAll, ItemsBytes, Item.Valid, SparesPosition, OnlyMoves;
    var save, restore := SequenceBytes([], 0x73), SequenceBytes([], 0x75);
    SavePositionBytes(env, t, []);
    PutAdd(env, t, save, ItemsBytes(items));
    var a := PutBytes(env, t, save);
    TextRun(env, a, items);
    ItemsSpare(env, a.view, items);
    PutAdd(env, t, save + ItemsBytes(items), restore);
    RestorePositionBytes(env, PutBytes(env, a, ItemsBytes(items)), []);
  }

  // ----- modes -----

  /** ESC [ 4 h and ESC [ 4 l set and clear insert mode; with any other first parameter they do nothing. */
  lemma InsertModeBytes(env: Env, t: State, ns: seq<nat>, on: bool)
    requires env.Valid() && t.Valid() && t.parser.Idle()
    ensures var r := PutBytes(env, t, SequenceBytes(ns, if on then 0x68 else 0x6c));
            r.parser.Idle() &&
            r.view == t.view.(insertMode := if ns != [] && Arg(ns, 0, 1) == 4 then on else t.view.insertMode)
  {
    hide PutBytes, SequenceBytes, Holding, Completed;
    DispatchRun(env, t, ns, if on then 0x68 else 0x6c);
    Values(ns, 1);
  }

  /** ESC [ ? 25 h and ESC [ ? 25 l switch the cursor on and off; no other private sequence does anything. */
  lemma CursorModeBytes(env: Env, t: State, ns: seq<nat>, c: Byte)
    requires env.Valid() && t.Valid() && t.parser.Idle() && FinalByte(c)
    ensures var r, s := PutBytes(env, t, PrivateBytes(ns, c)), t.view.screen;
            && r.parser.Idle()
            && r.view == t.view.(screen := s.(cursorOn :=
                 if ns != [] && Arg(ns, 0, 1) == 25 && (c == 0x68 || c == 0x6c) then c == 0x68 else s.cursorOn))
  {
    hide PutBytes, PrivateBytes, Holding, Completed;
    PrivateRun(env, t, ns, c);
    Values(ns, Missing(c as char));
  }

  /** Final bytes without a meaning leave everything as it is. */
  lemma OtherBytes(env: Env, t: State, ns: seq<nat>, c: Byte)
    requires env.Valid() && t.Valid() && t.parser.Idle() && FinalByte(c)
    requires c as char !in "ABCDEFGHadef`JK@PXMLrsumnhl"
    ensures var r := PutBytes(env, t, SequenceBytes(ns, c)); r.parser.Idle() && r.view == t.view
  {
    hide PutBytes, SequenceBytes, Holding, Completed;
    ScreenRun(env, t, ns, c);
  }

  // ----- colours -----

  /** The parameters that are taken: the first sixteen, cut to 32 bits. */
  function Taken(ns: seq<nat>): seq<nat> {
    seq(if |ns| <= MAX_ESC_VALUES then |ns| else MAX_ESC_VALUES, i requires 0 <= i < |ns| => ns[i] % U32)
  }

  lemma RenditionRun(env: Env, t: State, ns: seq<nat>)
    requires env.Valid() && t.Valid() && t.parser.Idle()
    ensures var r := PutBytes(env, t, SequenceBytes(ns, 0x6d));
            && r.parser.Idle() && t.view.Text().Valid()
            && r.view == t.view.WithText(Rendition(env.palette, env.table, t.view.Text(), Taken(ns)))
  {
    hide PutBytes, SequenceBytes, Rendition;
    DispatchRun(env, t, ns, 0x6d);
    Values(ns, 1);
    assert Completed(Holding(ns), 1)[..Holding(ns).Given()] == Taken(ns);
  }

  /** ESC [ v m selects the colours and attributes of that parameter. */
  lemma ColourBytes(env: Env, t: State, v: nat)
    requires env.Valid() && t.Valid() && t.parser.Idle() && v % U32 != 38 && v % U32 != 48
    ensures var r := PutBytes(env, t, SequenceBytes([v], 0x6d));
            && r.parser.Idle() && t.view.Text().Valid() && r.view == t.view.WithText(r.view.Text())
            && Selects(env.palette, t.view.Text(), v % U32, r.view.Text())
  {
    hide PutBytes, SequenceBytes, Step, Selects, Colours.Valid;
    RenditionRun(env, t, [v]);
    assert Taken([v]) == [v % U32];
    OneParameter(env.palette, env.table, t.view.Text(), v % U32);
    StepSelects(env.palette, t.view.Text(), v % U32);
  }

  /** A list of palette and attribute parameters does what its parameters do in separate sequences. */
  lemma ColoursInTurn(env: Env, t: State, ns: seq<nat>, v: nat)
    requires env.Valid() && t.Valid() && t.parser.Idle() && 0 < |ns| < MAX_ESC_VALUES
    requires PaletteOnly(ns + [v]) && forall k :: 0 <= k <= |ns| ==> (ns + [v])[k] < U32
    ensures PutBytes(env, t, SequenceBytes(ns + [v], 0x6d)).view ==
            PutBytes(env, t, SequenceBytes(ns, 0x6d) + SequenceBytes([v], 0x6d)).view
  {
    hide PutBytes, SequenceBytes, Step, Colours.Valid, Listed, State.Valid;
    var p, c := env.palette, t.view.Text();
    RenditionRun(env, t, ns + [v]);
    RenditionRun(env, t, ns);
    assert (ns + [v])[|ns|] == v && forall k :: 0 <= k < |ns| ==> (ns + [v])[k] == ns[k];
    assert Taken(ns) == ns && Taken([v]) == [v] && Taken(ns + [v]) == ns + [v];
    ListedIsSteps(p, env.table, c, ns + [v]);
    ListedIsSteps(p, env.table, c, ns);
    assert (ns + [v])[..|ns|] == ns;
    PutAdd(env, t, SequenceBytes(ns, 0x6d), SequenceBytes([v], 0x6d));
    var u := PutBytes(env, t, SequenceBytes(ns, 0x6d));
    RenditionRun(env, u, [v]);
    OneParameter(p, env.table, u.view.Text(), v);
  }

  lemma OneParameter(p: Palette, table: nat -> nat, c: Colours, v: nat)
    requires p.Valid() && c.Valid() && v != 38 && v != 48
    ensures Rendition(p, table, c, [v]) == Step(p, c, v)
  {
    hide Step;
    assert [v][1..] == [];
    assert Listed(p, table, Step(p, c, v), []) == Step(p, c, v);
  }

  /** ESC [ m is ESC [ 0 m: the default colours. */
  lemma NoColourBytes(env: Env, t: State)
    requires env.Valid() && t.Valid() && t.parser.Idle()
    ensures var r := PutBytes(env, t, SequenceBytes([], 0x6d));
            && r.parser.Idle()
            && r.view == t.view.(screen := t.view.screen.(fg := env.palette.defaultFg, bg := TRANSPARENT),
                                 attributes := Attributes(false, false, false, NONE, NONE))
  {
    hide PutBytes, SequenceBytes;
    RenditionRun(env, t, []);
    assert Taken([]) == [];
  }

  /** A list that is one direct or indexed colour. */
  lemma OneExtended(p: Palette, table: nat -> nat, c: Colours, vs: seq<nat>)
    requires p.Valid() && c.Valid() && |vs| > 0 && (vs[0] == 38 || vs[0] == 48)
    requires (|vs| == 5 && vs[1] == 2) || (|vs| == 3 && vs[1] == 5)
    ensures var colour := if vs[1] == 2 then Direct(vs[2], vs[3], vs[4]) else Indexed(p, table, vs[2]);
            Rendition(p, table, c, vs) == if vs[0] == 38 then c.(fg := colour) else c.(bg := colour)
  {
    hide Direct, Indexed;
    assert vs[|vs|..] == [];
    assert Listed(p, table, Extended(p, table, c, vs), []) == Extended(p, table, c, vs);
  }

  /** ESC [ 38 ; 2 ; r ; g ; b m and ESC [ 48 ; 2 ; r ; g ; b m set one plane to that colour, of three bytes. */
  lemma DirectBytes(env: Env, t: State, front: bool, red: nat, green: nat, blue: nat)
    requires env.Valid() && t.Valid() && t.parser.Idle() && red < 256 && green < 256 && blue < 256
    ensures var r := PutBytes(env, t, SequenceBytes([if front then 38 else 48, 2, red, green, blue], 0x6d));
            var colour, s := red * 65536 + green * 256 + blue, t.view.screen;
            r.parser.Idle() && r.view == t.view.(screen := if front then s.(fg := colour) else s.(bg := colour))
  {
    hide PutBytes, SequenceBytes, Direct, Rendition, Extended;
    var vs := [if front then 38 else 48, 2, red, green, blue];
    RenditionRun(env, t, vs);
    assert Taken(vs) == vs;
    OneExtended(env.palette, env.table, t.view.Text(), vs);
    DirectIs(red, green, blue);
  }

  /** ESC [ 38 ; 5 ; i m and ESC [ 48 ; 5 ; i m set one plane to colour `i` of the palette. */
  lemma IndexedBytes(env: Env, t: State, front: bool, i: nat)
    requires env.Valid() && t.Valid() && t.parser.Idle() && i < 256
    ensures var r := PutBytes(env, t, SequenceBytes([if front then 38 else 48, 5, i], 0x6d));
            var p, s := env.palette, t.view.screen;
            var colour := if i < 8 then p.ansi[i] else if i < 16 then p.bright[i - 8] else env.table(i - 16);
            r.parser.Idle() && r.view == t.view.(screen := if front then s.(fg := colour) else s.(bg := colour))
  {
    hide PutBytes, SequenceBytes, Indexed, Rendition, Extended;
    var vs := [if front then 38 else 48, 5, i];
    RenditionRun(env, t, vs);
    assert Taken(vs) == vs;
    OneExtended(env.palette, env.table, t.view.Text(), vs);
    IndexedIs(env.palette, env.table, i);
  }

  // ----- escapes -----

  /** ESC 7 saves colours, attributes, character set and cursor. */
  lemma SaveBytes(env: Env, t: State)
    requires env.Valid() && t.Valid() && t.parser.Idle()
    ensures var r, s := PutBytes(env, t, [0x1b] + [0x37]), t.view.screen;
            && r.parser.Idle()
            && r.view == t.view.(saved := Saved(t.view.Text(), t.view.charset, s.cursorX, s.cursorY))
  {
    hide PutBytes;
    EscapeRun(env, t, 0x37);
  }

  /** ESC 8 brings them back. */
  lemma RestoreBytes(env: Env, t: State)
    requires env.Valid() && t.Valid() && t.parser.Idle()
    ensures var r, c := PutBytes(env, t, [0x1b] + [0x38]), t.view.saved.colours;
            && r.parser.Idle()
            && r.view ==
               t.view.(screen := t.view.screen.(cursorX := t.view.saved.x, cursorY := t.view.saved.y, fg := c.fg,
                                                bg := c.bg),
                       attributes := Attributes(c.reverse, c.bold, c.bgBold, c.primary, c.background),
                       charset := t.view.saved.charset)
  {
    hide PutBytes;
    EscapeRun(env, t, 0x38);
  }

  /** ESC c blanks the screen in the current colours, moves the cursor to the origin and resets margins, modes,
      attributes, character sets and the position saved by ESC [ s. */
  lemma ResetBytes(env: Env, t: State)
    requires env.Valid() && t.Valid() && t.parser.Idle()
    ensures var r, s := PutBytes(env, t, [0x1b] + [0x63]), t.view.screen;
            var q := r.view.screen;
            && r.parser.Idle() && Erased(s, q, 0, |s.cells|)
            && q == s.(cells := q.cells, cursorX := 0, cursorY := 0, top := 0, bottom := s.rows, cursorOn := true)
            && r.view == t.view.(screen := q, attributes := Attributes(false, false, false, NONE, NONE),
                                 savedX := 0, savedY := 0, insertMode := false, charsets := [0, 1], charset := 0)
  {
    hide PutBytes;
    EscapeRun(env, t, 0x63);
  }

  /** The region moves up by one row if the cursor is in its last row; else the cursor moves down, but not past the last
      row, unless the row is taken for a negative number, which sends the cursor to row zero. */
  ghost predicate OneDown(s: Screen, q: Screen, x: nat)
    requires s.Valid()
  {
    var y := PosY(s);
    if y == s.bottom - 1 then CursorAt(q, x, y) && RegionUp(s, q, s.top * s.cols, s.bottom * s.cols, s.cols)
    else q.cells == s.cells && CursorAt(q, x, if SeemsNegative(y + 1, s.rows) then 0 else Min(y + 1, s.rows - 1))
  }

  /** The region moves down by one row if the cursor is in its first row; else the cursor moves up, but not past row
      zero; the column is zero. */
  ghost predicate OneUp(s: Screen, q: Screen)
    requires s.Valid()
  {
    var y := PosY(s);
    if y == s.top then CursorAt(q, 0, y) && RegionDown(s, q, s.top * s.cols, s.bottom * s.cols, s.cols)
    else q.cells == s.cells && CursorAt(q, 0, Max(y - 1, 0))
  }

  /** A single scroll moves the region by one row. */
  lemma ScrolledOnce(s: Screen)
    requires s.Valid() && s.top < s.bottom
    ensures RegionUp(s, s.ScrolledUp(), s.top * s.cols, s.bottom * s.cols, s.cols)
    ensures RegionDown(s, s.ScrolledDown(), s.top * s.cols, s.bottom * s.cols, s.cols)
  {
    hide Screen.ScrolledUp, Screen.ScrolledDown, RegionUp, RegionDown;
    RegionBounds(s);
    UpNone(s, s.top * s.cols, s.bottom * s.cols);
    UpStep(s, s, s.top * s.cols, s.bottom * s.cols, 0);
    DownStep(s, s, s.top * s.cols, s.bottom * s.cols, 0);
  }

  /** Only the cells matter for how the region has moved. */
  lemma SameRegion(s: Screen, t: Screen, q: Screen, d: nat)
    requires q.cells == t.cells
    ensures RegionUp(s, t, s.top * s.cols, s.bottom * s.cols, d) ==>
            RegionUp(s, q, s.top * s.cols, s.bottom * s.cols, d)
    ensures RegionDown(s, t, s.top * s.cols, s.bottom * s.cols, d) ==>
            RegionDown(s, q, s.top * s.cols, s.bottom * s.cols, d)
  {
  }

  lemma LineFedMeans(s: Screen, x: nat)
    requires s.Valid() && s.top < s.bottom && x < s.cols
    ensures OneDown(s, LineFed(s, x), x)
  {
    hide Screen.ScrolledUp, RegionUp, RegionDown;
    ScrolledOnce(s);
    SameRegion(s, s.ScrolledUp(), s.ScrolledUp().CursorSet(x, PosY(s)), s.cols);
  }

  lemma ReverseLineFedMeans(s: Screen)
    requires s.Valid() && s.top < s.bottom && s.rows < U64
    ensures OneUp(s, ReverseLineFed(s))
  {
    hide Screen.ScrolledDown, RegionUp, RegionDown;
    ScrolledOnce(s);
    SameRegion(s, s.ScrolledDown(), s.ScrolledDown().CursorSet(0, PosY(s)), s.cols);
  }

  /** ESC D keeps the column, ESC E goes to column zero. */
  lemma LineFeedBytes(env: Env, t: State, c: Byte)
    requires env.Valid() && t.Valid() && t.parser.Idle() && (c == 0x44 || c == 0x45)
    ensures var r, s := PutBytes(env, t, [0x1b] + [c]), t.view.screen;
            Edits(t, r) && OneDown(s, r.view.screen, if c == 0x44 then PosX(s) else 0)
  {
    hide PutBytes, LineFed, OneDown;
    EscapeRun(env, t, c);
    LineFedMeans(t.view.screen, if c == 0x44 then PosX(t.view.screen) else 0);
  }

  /** ESC M */
  lemma ReverseLineFeedBytes(env: Env, t: State)
    requires env.Valid() && t.Valid() && t.parser.Idle() && t.view.screen.rows < U64
    ensures var r := PutBytes(env, t, [0x1b] + [0x4d]); Edits(t, r) && OneUp(t.view.screen, r.view.screen)
  {
    hide PutBytes, ReverseLineFed, OneUp;
    EscapeRun(env, t, 0x4d);
    ReverseLineFedMeans(t.view.screen);
  }

  // ----- single bytes -----

  /** Backspace, tab, line feeds and carriage return. */
  lemma FormatByte(env: Env, t: State, c: Byte)
    requires env.Valid() && t.Valid() && t.parser.Idle() && 8 <= c <= 13
    requires t.view.screen.cols < U64 && t.view.screen.rows < U64
    ensures var r, s := PutBytes(env, t, [c]), t.view.screen;
            var q, x, y := r.view.screen, PosX(s), PosY(s);
            var stop := x - x % 8 + 8;
            && Edits(t, r)
            && (c == 8 ==> OnlyMoves(t, r, Max(x - 1, 0), y))
            && (c == 9 ==> OnlyMoves(t, r, if SeemsNegative(stop, s.cols) then 0 else Min(stop, s.cols - 1), y))
            && (10 <= c <= 12 ==> OneDown(s, q, 0))
            && (c == 13 ==> OnlyMoves(t, r, 0, y))
  {
    hide PutBytes, LineFed, OneDown;
    SingleRun(env, t, Format(c));
    LineFedMeans(t.view.screen, 0);
    FormattedMeans(c, t.view.screen);
  }

  /** SO and SI choose the character set. */
  lemma ShiftByte(env: Env, t: State, c: Byte)
    requires env.Valid() && t.Valid() && t.parser.Idle() && (c == 14 || c == 15)
    ensures PutBytes(env, t, [c]) == t.(view := t.view.(charset := if c == 14 then 1 else 0))
  {
    hide PutBytes;
    SingleRun(env, t, Shift(c));
  }

  /** ESC ( 0 and ESC ( B give the first character set the special or the ordinary characters, ESC ) 0 and ESC ) B the
      second. */
  lemma DesignateBytes(env: Env, t: State, second: bool, special: bool)
    requires env.Valid() && t.Valid() && t.parser.Idle()
    ensures var g: nat := if second then 1 else 0;
            var r := PutBytes(env, t, [0x1b] + ([if second then 0x29 else 0x28] + [if special then 0x30 else 0x42]));
            && r.parser.Idle() && |t.view.charsets| == 2
            && r.view == t.view.(charsets := t.view.charsets[g := if special then 1 else 0])
  {
    hide PutBytes;
    DesignateRun(env, t, if second then 1 else 0, if special then 0x30 else 0x42);
  }

  /** NUL, BEL and DEL do nothing. */
  lemma IgnoredByte(env: Env, t: State, c: Byte)
    requires env.Valid() && t.Valid() && t.parser.Idle() && (c == 0 || c == 7 || c == 0x7f)
    ensures PutBytes(env, t, [c]) == t
  {
    hide PutBytes;
    SingleRun(env, t, Ignored(c));
  }

  /** ESC [ [ and one more byte, whatever it is, do nothing. */
  lemma DiscardedBytes(env: Env, t: State, c: Byte)
    requires env.Valid() && t.Valid() && t.parser.Idle()
    ensures var r := PutBytes(env, t, [0x1b, 0x5b] + ([0x5b] + [c])); r.parser.Idle() && r.view == t.view
  {
    hide PutByte, PutBytes, PlainByte;
    SequenceStarts(env, t);
    PutAdd(env, t, [0x1b, 0x5b], [0x5b] + [c]);
    var u := t.(parser := Within(t.parser, 1, false, Fresh()));
    PutFirst(env, u, 0x5b, [c]);
    PlainPut(env, u, 0x5b);
    SecondBracket(env, u);
    PutOne(env, PlainByte(env, u, 0x5b), c);
    NextDiscarded(env, PlainByte(env, u, 0x5b), c);
  }

  lemma SecondBracket(env: Env, t: State)
    requires env.Valid() && t.Valid() && t.parser.escape && t.parser.controlSequence && t.parser.escapeOffset == 1
    ensures PlainByte(env, t, 0x5b) ==
            t.(parser := t.parser.(escapeOffset := 2, discardNext := true, controlSequence := false, escape := false))
  {
  }

  lemma NextDiscarded(env: Env, t: State, c: Byte)
    requires env.Valid() && t.Valid() && t.parser.discardNext && !t.parser.decPrivate
    ensures PutByte(env, t, c).parser.Idle() && PutByte(env, t, c).view == t.view
  {
  }

  /** The bytes that are not controls and lead no character. */
  predicate IsText(c: nat) {
    && !(7 <= c <= 15) && c != 0 && c != 0x18 && c != 0x1a && c != 0x1b && c != 0x7f && c != 0x9b
    && !(0xc0 <= c <= 0xf7)
  }

  /** The glyph of a byte: the one that the special character set has for it, if that set is chosen and has one, else
      the byte itself if it is printable; -1 if there is none. */
  ghost function Glyphed(env: Env, v: View, c: nat): int
    requires v.Valid()
  {
    if v.charsets[v.charset] == 1 && env.special(c) >= 0 then env.special(c)
    else if 0x20 <= c <= 0x7e then c
    else -1
  }

  /** A byte of text outside insert mode types its glyph, if it has one. */
  lemma PrintByte(env: Env, t: State, c: Byte)
    requires env.Valid() && t.Valid() && t.parser.Idle() && IsText(c) && !t.view.insertMode
    ensures var g := Glyphed(env, t.view, c);
            g < 256 &&
            PutBytes(env, t, [c]) == if g < 0 then t else t.(view := t.view.(screen := t.view.screen.Typed(g)))
  {
    hide PutBytes, PutByte, Screen.Typed, GapTo;
    TextPut(env, t, c);
  }

  lemma TextPut(env: Env, t: State, c: Byte)
    requires env.Valid() && t.Valid() && t.parser.Idle() && IsText(c)
    ensures var g := Glyphed(env, t.view, c);
            g < 256 && PutBytes(env, t, [c]) ==
            t.(view := t.view.(screen := Printed(t.view.screen, t.view.insertMode, g)))
  {
    hide PutBytes, PutByte, Printed;
    PutOne(env, t, c);
    PlainPut(env, t, c);
  }

  /** In insert mode the rest of the line moves right by one and the glyph takes the free cell; the cursor goes one
      column further. With a wrap pending the glyph is typed without a gap. */
  lemma InsertByte(env: Env, t: State, c: Byte)
    requires env.Valid() && t.Valid() && t.parser.Idle() && IsText(c) && t.view.insertMode
    ensures var r, s, g := PutBytes(env, t, [c]), t.view.screen, Glyphed(env, t.view, c);
            var q, p := r.view.screen, Start(s, s.cursorY) + s.cursorX;
            && Edits(t, r) && g < 256
            && (g < 0 ==> Gap(s, q, PosY(s), PosX(s)) && CursorAt(q, s.cursorX, s.cursorY))
            && (g >= 0 && s.cursorX < s.cols && s.cursorY < s.rows ==>
                  && p < |q.cells| == |s.cells| && CursorAt(q, s.cursorX + 1, s.cursorY)
                  && Gap(s, q.(cells := q.cells[p := s.cells[p]]), s.cursorY, s.cursorX)
                  && q.cells[p] == Cell(g, s.fg, s.bg))
            && (g >= 0 && s.cursorX >= s.cols ==> q == s.Typed(g))
            && (g >= 0 && s.cursorX < s.cols && s.cursorY >= s.rows ==>
                  Gap(s, q, s.rows - 1, s.cursorX) && CursorAt(q, s.cursorX + 1, s.cursorY))
  {
    hide PutBytes, PutByte, Screen.Typed, GapTo;
    TextPut(env, t, c);
    var s, g := t.view.screen, Glyphed(env, t.view, c);
    GapToMeans(s, PosY(s), PosX(s));
    if g >= 0 {
      PrintedMeans(s, g);
    }
  }

  lemma BoxDrawn(env: Env, s: Screen, cp: nat)
    requires env.Valid() && s.Valid() && env.cp437(cp) < 0 && env.width(cp) > 0
    requires s.cursorX + env.width(cp) <= s.cols && s.cursorY < s.rows
    ensures var r, p := WithCharacter(env, s, cp), Start(s, s.cursorY) + s.cursorX;
            && p < |s.cells| && CursorAt(r, s.cursorX + env.width(cp), s.cursorY)
            && Erased(s.(cells := s.cells[p := Cell(0xfe, s.fg, s.bg)]), r, p + 1, p + env.width(cp))
  {
    hide Screen.Typed, Spaced;
    TypedInside(s, 0xfe);
    SpacedInside(s.Typed(0xfe), env.width(cp) - 1);
  }

  /** A character without a glyph that fits in the line: a box, blanks up to the width of the character, and the cursor
      after them. One with a glyph moves the cursor by one, one without glyph or width not at all. */
  lemma CharacterBytes(env: Env, t: State, cp: nat)
    requires env.Valid() && t.Valid() && t.parser.Idle() && 0x80 <= cp <= 0x10FFFF
    ensures var r, s := PutBytes(env, t, Utf8.Encode(cp)), t.view.screen;
            var q, p, w := r.view.screen, Start(s, s.cursorY) + s.cursorX, env.width(cp);
            && Edits(t, r) && env.cp437(cp) < 256
            && (env.cp437(cp) < 0 && w == 0 ==> q == s)
            && (env.cp437(cp) >= 0 ==> q == s.Typed(env.cp437(cp)))
            && (env.cp437(cp) < 0 && w > 0 && s.cursorX + w <= s.cols && s.cursorY < s.rows ==>
                  && p < |s.cells| && CursorAt(q, s.cursorX + w, s.cursorY)
                  && Erased(s.(cells := s.cells[p := Cell(0xfe, s.fg, s.bg)]), q, p + 1, p + w))
  {
    hide PutBytes, Screen.Typed, Spaced, Utf8.Encode, Erased;
    CharacterRun(env, t, cp);
    var s := t.view.screen;
    if env.cp437(cp) < 0 && env.width(cp) > 0 && s.cursorX + env.width(cp) <= s.cols && s.cursorY < s.rows {
      BoxDrawn(env, s, cp);
    }
  }
}
