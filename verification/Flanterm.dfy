/** The terminal's byte-stream state machine on top of the frame buffer terminal, proved against `TerminalSpec`. */
module Flanterm {
  import opened Bits
  import opened BitStream
  import Utf8
  import opened PlainScreen
  import opened Sgr
  import opened FbTerminal
  import opened ScreenEdit
  import opened Sizes
  import opened Parameters
  import opened TerminalSpec

  class Terminal {
    const fb: FbTerm
    const env: Env

    var autoflush: bool
    var controlSequence: bool
    var csi: bool
    var escape: bool
    var osc: bool
    var oscEscape: bool
    /** A digit of the current parameter has been seen. */
    var rrr: bool
    var discardNext: bool
    var bold: bool
    var bgBold: bool
    var reverseVideo: bool
    var decPrivate: bool
    var insertMode: bool
    var unicode: Utf8.Pending
    var gSelect: nat
    var charsets: seq<nat>
    var currentCharset: nat
    var escapeOffset: nat
    var escValuesI: nat
    var escValues: seq<nat>
    var savedCursorX: nat
    var savedCursorY: nat
    var currentPrimary: int
    var currentBg: int
    var savedStateColours: Colours
    var savedStateCharset: nat
    var savedStateX: nat
    var savedStateY: nat
    /** Cursor positions reported to the client, counted from one. */
    var reports: seq<Report>

    ghost function Collected(): Params
      reads this`escValues, this`escValuesI, this`rrr
    {
      Params(escValues, escValuesI, rrr)
    }

    ghost function ParserState(): Parser
      reads this`escape, this`controlSequence, this`csi, this`osc, this`oscEscape, this`discardNext, this`decPrivate,
            this`escapeOffset, this`escValues, this`escValuesI, this`rrr, this`unicode, this`gSelect
    {
      Parser(escape, controlSequence, csi, osc, oscEscape, discardNext, decPrivate, escapeOffset,
             Params(escValues, escValuesI, rrr), unicode, gSelect)
    }

    ghost function ViewState(): View
      reads this`reverseVideo, this`bold, this`bgBold, this`currentPrimary, this`currentBg, this`savedCursorX,
            this`savedCursorY, this`savedStateColours, this`savedStateCharset, this`savedStateX, this`savedStateY,
            this`insertMode, this`charsets, this`currentCharset, this`reports, fb
    {
      View(fb.Abs(), Attributes(reverseVideo, bold, bgBold, currentPrimary, currentBg), savedCursorX, savedCursorY,
           Saved(savedStateColours, savedStateCharset, savedStateX, savedStateY), insertMode, charsets, currentCharset,
           reports)
    }

    /** The fields behind the parser state. */
    lemma Fields()
      ensures ParserState() == Parser(escape, controlSequence, csi, osc, oscEscape, discardNext, decPrivate,
              escapeOffset,
                                      Collected(), unicode, gSelect)
      ensures ViewState().screen == fb.Abs()
    {
    }

    /** The backend is intact and the scroll region is not empty. */
    ghost predicate BackendOk()
      reads fb, fb.queue, fb.slots, fb.grid, fb.framebuffer
    {
      fb.Valid() && fb.scrollTop < fb.scrollBottom <= fb.geo.rows
    }

    /** What holds between any two bytes. */
    ghost predicate Inv()
      reads this, fb, fb.queue, fb.slots, fb.grid, fb.framebuffer
    {
      BackendOk() && env.Valid() && State(ParserState(), ViewState()).Valid()
    }

    /** One backend operation that leaves scroll region and scroll mode alone. */
    method Backend(op: Op)
      requires BackendOk() && !op.SetMargins? && !op.SetScrollOn?
      modifies fb, fb.queue, fb.slots, fb.grid, fb.framebuffer
      ensures BackendOk() && fb.scrollEnabled == old(fb.scrollEnabled)
      ensures fb.scrollTop == old(fb.scrollTop) && fb.scrollBottom == old(fb.scrollBottom)
      ensures old(fb.Abs()).Valid() && Allowed(op, old(fb.Abs())) && fb.Abs() == Apply(op, old(fb.Abs()))
    {
      hide FbTerm.Valid, Apply;
      fb.ValidScreen();
      ApplyKeeps(op, fb.Abs());
      fb.Step(op);
    }

    method SetScrolling(on: bool)
      requires BackendOk()
      modifies fb, fb.queue, fb.slots, fb.grid, fb.framebuffer
      ensures BackendOk() && fb.Abs() == old(fb.Abs()).(scrollOn := on)
    {
      hide FbTerm.Valid, Apply;
      fb.ValidScreen();
      ApplyKeeps(SetScrollOn(on), fb.Abs());
      fb.Step(SetScrollOn(on));
    }

    method SetRegion(top: nat, bottom: nat)
      requires fb.Valid() && top < bottom <= fb.geo.rows
      modifies fb, fb.queue, fb.slots, fb.grid, fb.framebuffer
      ensures BackendOk() && fb.scrollEnabled == old(fb.scrollEnabled)
      ensures fb.Abs() == old(fb.Abs()).(top := top, bottom := bottom)
    {
      hide FbTerm.Valid, Apply;
      fb.ValidScreen();
      ApplyKeeps(SetMargins(top, bottom), fb.Abs());
      fb.Step(SetMargins(top, bottom));
    }

    /** `get_cursor_pos` */
    method CursorPos() returns (x: nat, y: nat)
      requires BackendOk()
      ensures fb.Abs().Valid() && x == PosX(fb.Abs()) && y == PosY(fb.Abs())
    {
      hide FbTerm.Painted, FbTerm.GridShown;
      x := if fb.cursorX >= fb.geo.cols then fb.geo.cols - 1 else fb.cursorX;
      y := if fb.cursorY >= fb.geo.rows then fb.geo.rows - 1 else fb.cursorY;
    }

    /** `n` spaces at the cursor. */
    method Spaces(n: nat)
      requires BackendOk()
      modifies fb, fb.queue, fb.slots, fb.grid, fb.framebuffer
      ensures BackendOk() && fb.Abs() == Spaced(old(fb.Abs()), n)
    {
      hide Terminal.BackendOk, Screen.Typed;
      ghost var s0 := fb.Abs();
      BackendScreen();
      for i := 0 to n
        invariant BackendOk() && s0.Valid() && fb.Abs() == Spaced(s0, i)
      {
        Backend(Type(32));
      }
    }

    lemma BackendScreen()
      requires BackendOk()
      ensures fb.Abs().Valid() && fb.Abs().top < fb.Abs().bottom
    {
      hide FbTerm.Painted, FbTerm.GridShown;
    }

    // ----- control sequences -----

    /** Cursor movements: A B C D E F a d e G ` H f. */
    method MoveCursor(c: nat, x: nat, y: nat)
      requires BackendOk() && fb.Abs().Valid() && x == PosX(fb.Abs()) && y == PosY(fb.Abs())
      requires |escValues| == MAX_ESC_VALUES && c < 256 && IsMove(c as char)
      modifies fb, fb.queue, fb.slots, fb.grid, fb.framebuffer
      ensures BackendOk() && fb.Abs() == MovedTo(old(fb.Abs()), c as char, escValues[0], escValues[1])
    {
      hide Terminal.BackendOk, Destination;
      BackendScreen();
      var toX, toY;
      if c as char in "ABEFe" {
        toX, toY := Vertical(c, x, y);
      } else {
        toX, toY := Horizontal(c, x, y);
      }
      DestinationOnScreen(c as char, escValues[0], escValues[1], fb.Abs());
      Backend(SetCursor(toX, toY));
    }

    method Vertical(c: nat, x0: nat, y: nat) returns (x: nat, toY: nat)
      requires fb.Abs().Valid() && fb.Abs().top < fb.Abs().bottom && x0 == PosX(fb.Abs()) && y == PosY(fb.Abs())
      requires |escValues| == MAX_ESC_VALUES && c < 256 && c as char in "ABEFe"
      ensures (x, toY) == Destination(c as char, escValues[0], escValues[1], fb.Abs())
    {
      var top, bottom, v := fb.scrollTop, fb.scrollBottom, escValues[0];
      x := if c == 'E' as nat || c == 'F' as nat then 0 else x0;
      if c == 'A' as nat || c == 'F' as nat {
        var up := if v > y then y else v;
        toY := y - up;
        if ((top >= toY && top <= y) || (bottom >= toY && bottom <= y)) && toY < top {
          toY := top;
        }
      } else {
        var down := if y + v > fb.geo.rows - 1 then (fb.geo.rows - 1) - y else v;
        toY := y + down;
        if ((top >= y && top <= toY) || (bottom >= y && bottom <= toY)) && toY >= bottom {
          toY := bottom - 1;
        }
      }
    }

    method Horizontal(c: nat, x: nat, y: nat) returns (toX: nat, toY: nat)
      requires fb.Abs().Valid() && x == PosX(fb.Abs()) && y == PosY(fb.Abs())
      requires |escValues| == MAX_ESC_VALUES && c < 256 && c as char in "CDGHadf`"
      ensures (toX, toY) == Destination(c as char, escValues[0], escValues[1], fb.Abs())
    {
      var rows, cols, v := fb.geo.rows, fb.geo.cols, escValues[0];
      toX, toY := x, y;
      if c == 'C' as nat || c == 'a' as nat {
        toX := x + (if x + v > cols - 1 then (cols - 1) - x else v);
      } else if c == 'D' as nat {
        toX := x - (if v > x then x else v);
      } else if c == 'd' as nat {
        var row := (v + U32 - 1) % U32;
        toY := if row >= rows then rows - 1 else row;
      } else if c == 'G' as nat || c == '`' as nat {
        var col := (v + U32 - 1) % U32;
        toX := if col >= cols then cols - 1 else col;
      } else {
        var row := if v != 0 then v - 1 else 0;
        var col := if escValues[1] != 0 then escValues[1] - 1 else 0;
        toX := if col >= cols then cols - 1 else col;
        toY := if row >= rows then rows - 1 else row;
      }
    }

    /** Scrolling by lines: M. */
    method ScrollRegionUp()
      requires BackendOk() && |escValues| == MAX_ESC_VALUES
      modifies fb, fb.queue, fb.slots, fb.grid, fb.framebuffer
      ensures BackendOk() && fb.Abs() == ScrollTimes(old(fb.Abs()), escValues[0])
    {
      hide Terminal.BackendOk, Screen.ScrolledUp;
      ghost var s0 := fb.Abs();
      BackendScreen();
      for i := 0 to escValues[0]
        invariant BackendOk() && s0.Valid() && fb.Abs() == ScrollTimes(s0, i)
      {
        Backend(ScrollUp);
      }
    }

    /** Inserting lines: L. The top margin is at the cursor line for its duration. */
    method InsertBlankLines(y: nat)
      requires BackendOk() && fb.Abs().Valid() && y == PosY(fb.Abs()) && |escValues| == MAX_ESC_VALUES
      modifies fb, fb.queue, fb.slots, fb.grid, fb.framebuffer
      ensures BackendOk() && fb.Abs() == InsertLines(old(fb.Abs()), escValues[0])
    {
      hide FbTerm.Valid, Screen.ScrolledDown;
      ghost var s0 := fb.Abs();
      var oldTop, bottom := fb.scrollTop, fb.scrollBottom;
      fb.Step(SetMargins(y, bottom));
      ghost var s1 := fb.Abs();
      for i := 0 to escValues[0]
        invariant fb.Valid() && s1.Valid() && fb.Abs() == ScrollDownTimes(s1, i)
      {
        fb.ValidScreen();
        fb.Step(ScrollDown);
      }
      SetRegion(oldTop, bottom);
    }

    /** Erasing in the line: K. */
    method EraseInLine(x: nat, y: nat)
      requires BackendOk() && fb.Abs().Valid() && x == PosX(fb.Abs()) && y == PosY(fb.Abs())
      requires |escValues| == MAX_ESC_VALUES
      modifies fb, fb.queue, fb.slots, fb.grid, fb.framebuffer
      ensures BackendOk() && fb.Abs() == EraseLine(old(fb.Abs()), escValues[0])
    {
      hide Terminal.BackendOk, Spaced, Screen.CursorSet;
      var cols, v := fb.geo.cols, escValues[0];
      if v == 0 {
        Spaces(cols - x);
        Backend(SetCursor(x, y));
      } else if v == 1 {
        Backend(SetCursor(0, y));
        Spaces(x);
      } else if v == 2 {
        Backend(SetCursor(0, y));
        Spaces(cols);
        Backend(SetCursor(x, y));
      }
    }

    /** Erasing in the display: J. */
    method EraseInDisplay(x: nat, y: nat)
      requires BackendOk() && fb.Abs().Valid() && x == PosX(fb.Abs()) && y == PosY(fb.Abs())
      requires |escValues| == MAX_ESC_VALUES
      modifies fb, fb.queue, fb.slots, fb.grid, fb.framebuffer
      ensures BackendOk() && fb.Abs() == EraseDisplay(old(fb.Abs()), escValues[0])
    {
      hide Terminal.BackendOk, Spaced, Screen.CursorSet, Screen.Cleared;
      var rows, cols, v := fb.geo.rows, fb.geo.cols, escValues[0];
      if v == 0 {
        Arith.MulNonneg(rows - (y + 1), cols);
        Spaces((rows - (y + 1)) * cols + (cols - (x + 1)) + 1);
        Backend(SetCursor(x, y));
      } else if v == 1 {
        EraseUpTo(x, y);
      } else if v == 2 || v == 3 {
        Backend(Clear(false));
      }
    }

    /** Spaces from the origin until the cursor position has been passed. */
    method EraseUpTo(x: nat, y: nat)
      requires BackendOk() && fb.Abs().Valid() && x < fb.geo.cols && y < fb.geo.rows
      modifies fb, fb.queue, fb.slots, fb.grid, fb.framebuffer
      ensures BackendOk()
      ensures fb.Abs() ==
              Spaced(old(fb.Abs()).CursorSet(0, 0), Start(old(fb.Abs()), y) + x + 1).CursorSet(x, y)
    {
      hide Terminal.BackendOk, Screen.CursorSet, Screen.Typed;
      ghost var s0 := fb.Abs();
      var rows, cols := fb.geo.rows, fb.geo.cols;
      Backend(SetCursor(0, 0));
      ghost var s1 := fb.Abs();
      ghost var goal := Spaced(s1, Start(s0, y) + x + 1).CursorSet(x, y);
      var yc := 0;
      var found := false;
      while yc < rows && !found
        invariant BackendOk() && yc <= rows && s1.Valid()
        invariant !found ==> yc <= y && fb.Abs() == Spaced(s1, Start(s0, yc))
        invariant found ==> fb.Abs() == goal
      {
        var xc := 0;
        while xc < cols && !found
          invariant BackendOk() && xc <= cols
          invariant !found ==> (yc == y ==> xc <= x) && fb.Abs() == Spaced(s1, Start(s0, yc) + xc)
          invariant found ==> fb.Abs() == goal
        {
          Backend(Type(32));
          if xc == x && yc == y {
            Backend(SetCursor(x, y));
            found := true;
          }
          xc := xc + 1;
        }
        Arith.MulStep(yc, cols);
        yc := yc + 1;
      }
    }

    /** Inserting characters: @. The downward loop ends because the cursor column is on screen. */
    method InsertChars(x: nat, y: nat)
      requires BackendOk() && fb.Abs().Valid() && x == PosX(fb.Abs()) && y == PosY(fb.Abs())
      requires |escValues| == MAX_ESC_VALUES
      modifies fb, fb.queue, fb.slots, fb.grid, fb.framebuffer
      ensures BackendOk() && fb.Abs() == Insert(old(fb.Abs()), escValues[0])
    {
      hide Terminal.BackendOk, Screen.CursorSet, Screen.Moved, Screen.Typed;
      ghost var s0 := fb.Abs();
      var v := escValues[0];
      var i := fb.geo.cols - 1;
      while true
        invariant x <= i < fb.geo.cols && BackendOk() && s0.Valid() && fb.Abs() == InsertTo(s0, y, v, i + 1)
        decreases i - x
      {
        Backend(Move(i + v, y, i, y));
        Backend(SetCursor(i, y));
        Backend(Type(32));
        if i == x {
          break;
        }
        i := i - 1;
      }
      Backend(SetCursor(x, y));
    }

    /** Deleting characters: P. */
    method DeleteChars(x: nat, y: nat)
      requires BackendOk() && fb.Abs().Valid() && x == PosX(fb.Abs()) && y == PosY(fb.Abs())
      requires |escValues| == MAX_ESC_VALUES
      modifies fb, fb.queue, fb.slots, fb.grid, fb.framebuffer
      ensures BackendOk() && fb.Abs() == Delete(old(fb.Abs()), escValues[0])
    {
      hide Terminal.BackendOk, Screen.CursorSet, Screen.Moved, Spaced;
      ghost var s0 := fb.Abs();
      var cols, v := fb.geo.cols, escValues[0];
      var i := x + v;
      while i < cols
        invariant x + v <= i && (i <= cols || i == x + v) && BackendOk() && s0.Valid()
        invariant fb.Abs() == MoveLeft(s0, y, v, x + v, i)
      {
        Backend(Move(i - v, y, i, y));
        i := i + 1;
      }
      Backend(SetCursor(SizeSub(cols, v), y));
      Spaces(v);
      Backend(SetCursor(x, y));
    }

    /** Erasing characters: X. */
    method EraseSome(x: nat, y: nat)
      requires BackendOk() && fb.Abs().Valid() && x == PosX(fb.Abs()) && y == PosY(fb.Abs())
      requires |escValues| == MAX_ESC_VALUES
      modifies fb, fb.queue, fb.slots, fb.grid, fb.framebuffer
      ensures BackendOk() && fb.Abs() == EraseChars(old(fb.Abs()), escValues[0])
    {
      hide Terminal.BackendOk, Screen.CursorSet, Spaced;
      Spaces(escValues[0]);
      Backend(SetCursor(x, y));
    }

    /** DECSTBM: an empty or reversed region is replaced by the whole screen. */
    method SetScrollRegion()
      requires BackendOk() && fb.Abs().Valid() && |escValues| == MAX_ESC_VALUES
      modifies fb, fb.queue, fb.slots, fb.grid, fb.framebuffer
      ensures BackendOk()
      ensures fb.Abs() == WithRegion(old(fb.Abs()), escValuesI, escValues[0], escValues[1])
    {
      hide FbTerm.Valid;
      var rows := fb.geo.rows;
      var first := if escValues[0] == 0 then 1 else escValues[0];
      var last := if escValues[1] == 0 then 1 else escValues[1];
      var top := if escValuesI > 0 then first - 1 else 0;
      var bottom := if escValuesI > 1 then last else rows;
      if top >= rows || bottom > rows || top >= bottom - 1 {
        top, bottom := 0, rows;
      }
      SetRegion(top, bottom);
      Backend(SetCursor(0, 0));
    }

    // ----- colours -----

    method StoreColours(c: Colours)
      requires BackendOk()
      modifies this`reverseVideo, this`bold, this`bgBold, this`currentPrimary, this`currentBg, fb, fb.queue, fb.slots,
               fb.grid, fb.framebuffer
      ensures BackendOk() && ViewState() == old(ViewState()).WithText(c)
    {
      hide Terminal.BackendOk;
      StoreAttributes(c);
      Backend(SetColours(c.fg, c.bg));
    }

    method StoreAttributes(c: Colours)
      modifies this`reverseVideo, this`bold, this`bgBold, this`currentPrimary, this`currentBg
      ensures reverseVideo == c.reverse && bold == c.bold && bgBold == c.bgBold
      ensures currentPrimary == c.primary && currentBg == c.background
    {
      reverseVideo, bold, bgBold, currentPrimary, currentBg := c.reverse, c.bold, c.bgBold, c.primary, c.background;
    }

    /** 38 and 48, whose first parameter is number `at` of `n`; the number of parameters used up is returned. */
    method ExtendedColour(c: Colours, at: nat, n: nat) returns (d: Colours, used: nat)
      requires env.palette.Valid() && |escValues| == MAX_ESC_VALUES && at < n <= MAX_ESC_VALUES
      ensures d == Sgr.Extended(env.palette, env.table, c, escValues[at..n]) && used == ExtendedLength(escValues[at..n])
    {
      hide Or, Shl, Low;
      d := c;
      ghost var vs := escValues[at..n];
      var front := escValues[at] == 38;
      var i := at + 1;
      if i >= n {
        return c, n - at;
      }
      assert vs[1] == escValues[i];
      if escValues[i] == 2 {
        if i + 3 >= n {
          return c, n - at;
        }
        assert vs[2] == escValues[i + 1] && vs[3] == escValues[i + 2] && vs[4] == escValues[i + 3];
        var rgb := Low(Or(Or(Shl(escValues[i + 1], 16), Shl(escValues[i + 2], 8)), escValues[i + 3]), WORD);
        d, used := SetPlane(c, front, rgb), 5;
      } else if escValues[i] == 5 {
        if i + 1 >= n {
          return c, n - at;
        }
        assert vs[2] == escValues[i + 1];
        var col := escValues[i + 1];
        var colour := if col < 16 then Pick(env.palette, col >= 8, col % 8) else env.table(col - 16);
        d, used := SetPlane(c, front, colour), 3;
      } else {
        used := 2;
      }
    }

    /** `sgr` */
    method SelectGraphicRendition()
      requires BackendOk() && env.palette.Valid() && |escValues| == MAX_ESC_VALUES && escValuesI <= MAX_ESC_VALUES
      requires ViewState().Text().Valid()
      modifies this`reverseVideo, this`bold, this`bgBold, this`currentPrimary, this`currentBg, fb, fb.queue, fb.slots,
               fb.grid, fb.framebuffer
      ensures BackendOk()
      ensures ViewState() == old(ViewState()).WithText(
                Rendition(env.palette, env.table, old(ViewState()).Text(), escValues[..escValuesI]))
    {
      hide Terminal.BackendOk, Terminal.ParserState, Rendition;
      var c := NewColours();
      StoreColours(c);
    }

    /** The colours after the parameters collected. */
    method NewColours() returns (c: Colours)
      requires env.palette.Valid() && |escValues| == MAX_ESC_VALUES && escValuesI <= MAX_ESC_VALUES
      requires ViewState().Text().Valid()
      ensures c == Rendition(env.palette, env.table, ViewState().Text(), escValues[..escValuesI])
    {
      hide Sgr.Step, Sgr.Extended, ExtendedLength;
      c := Colours(fb.textFg, fb.textBg, reverseVideo, bold, bgBold, currentPrimary, currentBg);
      ghost var c0, vs := c, escValues[..escValuesI];
      if escValuesI == 0 {
        c := Sgr.Step(env.palette, c, 0);
      }
      var i := 0;
      while i < escValuesI
        invariant i <= escValuesI && c.Valid()
        invariant escValuesI > 0 ==>
          Listed(env.palette, env.table, c, vs[i..]) == Listed(env.palette, env.table, c0, vs)
        invariant escValuesI == 0 ==> c == Sgr.Step(env.palette, c0, 0)
      {
        assert vs[i..] == escValues[i..escValuesI];
        if escValues[i] == 38 || escValues[i] == 48 {
          ghost var n := ExtendedLength(vs[i..]);
          assert vs[i..][n..] == vs[i + n..];
          var used;
          c, used := ExtendedColour(c, i, escValuesI);
          i := i + used;
        } else {
          assert vs[i..][1..] == vs[i + 1..];
          c := Sgr.Step(env.palette, c, escValues[i]);
          i := i + 1;
        }
      }
    }

    // ----- control sequences -----

    /** The final byte of a control sequence. */
    method Dispatch(c: nat)
      requires BackendOk() && env.Valid() && ViewState().Valid() && c < 256
      requires |escValues| == MAX_ESC_VALUES && escValuesI <= MAX_ESC_VALUES
      modifies this`reports, this`savedCursorX, this`savedCursorY, this`insertMode, this`reverseVideo, this`bold,
               this`bgBold, this`currentPrimary, this`currentBg, fb, fb.queue, fb.slots, fb.grid, fb.framebuffer
      ensures BackendOk() && ViewState() == Dispatched(env, old(ViewState()), c as char, escValuesI, escValues)
    {
      hide Terminal.BackendOk, Env.Valid, MovedTo, ScrollTimes, InsertLines, EraseDisplay, EraseLine, Insert,
           Delete, EraseChars, WithRegion, Rendition, Screen.CursorSet;
      if c == 'm' as nat {
        EnvPalette();
        SelectGraphicRendition();
      } else if c == 'n' as nat || c == 's' as nat || c == 'h' as nat || c == 'l' as nat {
        OtherSequence(c);
      } else {
        ScreenSequence(c);
      }
    }

    lemma EnvPalette()
      requires env.Valid()
      ensures env.palette.Valid()
    {
    }

    /** The sequences that change the screen. */
    method ScreenSequence(c: nat)
      requires BackendOk() && fb.Abs().Valid() && fb.Abs().top < fb.Abs().bottom && c < 256
      requires |escValues| == MAX_ESC_VALUES && escValuesI <= MAX_ESC_VALUES
      modifies fb, fb.queue, fb.slots, fb.grid, fb.framebuffer
      ensures BackendOk()
      ensures fb.Abs() == Effect(c as char, escValuesI, escValues, savedCursorX, savedCursorY, old(fb.Abs()))
    {
      hide Terminal.BackendOk, MovedTo, ScrollTimes, InsertLines, EraseDisplay, EraseLine, Insert, Delete, EraseChars,
           WithRegion, Screen.CursorSet;
      var x, y := CursorPos();
      if IsMove(c as char) {
        MoveCursor(c, x, y);
      } else if c == 'M' as nat {
        ScrollRegionUp();
      } else if c == 'L' as nat {
        InsertBlankLines(y);
      } else if c == 'J' as nat {
        EraseInDisplay(x, y);
      } else if c == 'K' as nat {
        EraseInLine(x, y);
      } else if c == '@' as nat {
        InsertChars(x, y);
      } else if c == 'P' as nat {
        DeleteChars(x, y);
      } else if c == 'X' as nat {
        EraseSome(x, y);
      } else if c == 'u' as nat {
        Backend(SetCursor(savedCursorX, savedCursorY));
      } else if c == 'r' as nat {
        SetScrollRegion();
      }
    }

    /** Position report, saving the cursor, insert mode. */
    method OtherSequence(c: nat)
      requires BackendOk() && |escValues| == MAX_ESC_VALUES
      requires c == 'n' as nat || c == 's' as nat || c == 'h' as nat || c == 'l' as nat
      modifies this`reports, this`savedCursorX, this`savedCursorY, this`insertMode
      ensures fb.Abs().Valid()
      ensures reports == old(reports) + if c == 'n' as nat && escValues[0] == 6
                                        then [Report(PosX(fb.Abs()) + 1, PosY(fb.Abs()) + 1)] else []
      ensures savedCursorX == (if c == 's' as nat then PosX(fb.Abs()) else old(savedCursorX))
      ensures savedCursorY == (if c == 's' as nat then PosY(fb.Abs()) else old(savedCursorY))
      ensures insertMode == (if (c == 'h' as nat || c == 'l' as nat) && escValuesI != 0 && escValues[0] == 4
                             then c == 'h' as nat else old(insertMode))
    {
      hide Terminal.BackendOk;
      var x, y := CursorPos();
      if c == 'n' as nat {
        if escValues[0] == 6 {
          reports := reports + [Report(x + 1, y + 1)];
        }
      } else if c == 's' as nat {
        savedCursorX, savedCursorY := x, y;
      } else if escValuesI != 0 && escValues[0] == 4 {
        insertMode := c == 'h' as nat;
      }
    }

    /** `control_sequence_parse` */
    method ControlSequenceParse(c: Byte)
      requires Inv() && escape && controlSequence
      modifies this, fb, fb.queue, fb.slots, fb.grid, fb.framebuffer
      ensures BackendOk() && autoflush == old(autoflush)
      ensures State(ParserState(), ViewState()) == SequenceByte(env, old(State(ParserState(), ViewState())), c)
    {
      hide Terminal.BackendOk, Terminal.ParserState, Terminal.ViewState, Env.Valid, Parser.Valid, View.Valid, Digest,
           AfterSequence, AfterPrivate, Completed;
      Fields();
      if escapeOffset == 2 && c == '[' as nat {
        DiscardNext();
      } else if escapeOffset == 2 && c == '?' as nat {
        SetPrivate();
      } else {
        ParamsOk();
        if IsParameterByte(c) {
          TakeParameterByte(c);
        } else {
          ActOn(c);
          EndSequence();
        }
      }
    }

    lemma ParamsOk()
      requires ParserState().Valid()
      ensures Collected().Valid() && ParserState().params == Collected()
    {
    }

    method DiscardNext()
      modifies this`discardNext, this`controlSequence, this`escape
      ensures ParserState() == old(ParserState()).(discardNext := true, controlSequence := false, escape := false)
    {
      discardNext := true;
      controlSequence, escape := false, false;
    }

    method SetPrivate()
      modifies this`decPrivate
      ensures ParserState() == old(ParserState()).(decPrivate := true)
    {
      decPrivate := true;
    }

    method EndSequence()
      modifies this`controlSequence, this`escape
      ensures ParserState() == old(ParserState()).(controlSequence := false, escape := false)
    {
      controlSequence, escape := false, false;
    }

    /** A digit or a semicolon. */
    method TakeParameterByte(c: Byte)
      requires Collected().Valid() && IsParameterByte(c)
      modifies this`escValues, this`escValuesI, this`rrr
      ensures ParserState() == old(ParserState()).(params := Digest(old(Collected()), c))
    {
      if '0' as nat <= c <= '9' as nat {
        if escValuesI == MAX_ESC_VALUES {
          return;
        }
        rrr := true;
        escValues := escValues[escValuesI := (escValues[escValuesI] * 10 + (c - '0' as nat)) % U32];
      } else if rrr {
        escValuesI := escValuesI + 1;
        rrr := false;
      } else {
        if escValuesI == MAX_ESC_VALUES {
          return;
        }
        escValues := escValues[escValuesI := 0];
        escValuesI := escValuesI + 1;
      }
    }

    /** A pending digit ends its parameter; missing parameters get their default. */
    method CompleteParameters(c: nat)
      requires Collected().Valid() && c < 256
      modifies this`escValues, this`escValuesI, this`rrr
      ensures Collected() ==
              Params(Completed(old(Collected()), Missing(c as char)), old(Collected()).Given(), false)
      ensures ParserState() == old(ParserState()).(params := Collected())
    {
      ghost var p := Collected();
      var missing := if c == 'J' as nat || c == 'K' as nat || c == 'q' as nat then 0 else 1;
      if rrr {
        escValuesI := escValuesI + 1;
        rrr := false;
      }
      for i := escValuesI to MAX_ESC_VALUES
        invariant |escValues| == MAX_ESC_VALUES && !rrr && escValuesI == p.Given()
        invariant forall k :: 0 <= k < MAX_ESC_VALUES ==>
          escValues[k] == if escValuesI <= k < i then missing else p.values[k]
      {
        escValues := escValues[i := missing];
      }
      assert escValues == Completed(p, Missing(c as char));
    }

    method ActOn(c: Byte)
      requires BackendOk() && env.Valid() && ViewState().Valid() && Collected().Valid()
      modifies this`escValues, this`escValuesI, this`rrr, this`decPrivate, this`reports, this`savedCursorX,
               this`savedCursorY, this`insertMode, this`reverseVideo, this`bold, this`bgBold, this`currentPrimary,
               this`currentBg, fb, fb.queue, fb.slots, fb.grid, fb.framebuffer
      ensures BackendOk()
      ensures ParserState() == old(ParserState()).(decPrivate := false,
                params := Params(Completed(old(Collected()), Missing(c as char)), old(Collected()).Given(), false))
      ensures ViewState() ==
              if old(decPrivate) then AfterPrivate(old(ViewState()), c as char, old(Collected()))
              else AfterSequence(env, old(ViewState()), c as char, old(Collected()))
    {
      hide Terminal.BackendOk, Terminal.ParserState, Terminal.ViewState, Env.Valid, View.Valid, CarriedOut, Completed,
           View.WithScreen;
      Fields();
      CompleteParameters(c);
      if decPrivate {
        PrivateMode(c);
      } else {
        CarryOut(c);
      }
    }

    /** `dec_private_parse` */
    method PrivateMode(c: Byte)
      requires BackendOk() && |escValues| == MAX_ESC_VALUES
      modifies this`decPrivate, fb, fb.queue, fb.slots, fb.grid, fb.framebuffer
      ensures BackendOk() && ParserState() == old(ParserState()).(decPrivate := false)
      ensures ViewState() ==
              if escValuesI != 0 && escValues[0] == 25 && (c == 'h' as nat || c == 'l' as nat)
              then old(ViewState()).WithScreen(old(ViewState()).screen.(cursorOn := c == 'h' as nat))
              else old(ViewState())
    {
      hide Terminal.BackendOk, Terminal.ParserState, Terminal.ViewState, View.WithScreen;
      ClearPrivate();
      if escValuesI != 0 && (c == 'h' as nat || c == 'l' as nat) && escValues[0] == 25 {
        ShowCursor(c == 'h' as nat);
      }
    }

    method ClearPrivate()
      modifies this`decPrivate
      ensures ParserState() == old(ParserState()).(decPrivate := false) && ViewState() == old(ViewState())
    {
      hide Terminal.ViewState;
      decPrivate := false;
    }

    method ShowCursor(on: bool)
      requires BackendOk()
      modifies fb, fb.queue, fb.slots, fb.grid, fb.framebuffer
      ensures BackendOk() && ParserState() == old(ParserState())
      ensures ViewState() == old(ViewState()).WithScreen(old(ViewState()).screen.(cursorOn := on))
    {
      hide Terminal.BackendOk, Terminal.ParserState;
      Backend(SetCursorOn(on));
    }

    /** Scrolling is off while the sequence is carried out. */
    method CarryOut(c: Byte)
      requires BackendOk() && env.Valid() && ViewState().Valid()
      requires |escValues| == MAX_ESC_VALUES && escValuesI <= MAX_ESC_VALUES
      modifies this`reports, this`savedCursorX, this`savedCursorY, this`insertMode, this`reverseVideo, this`bold,
               this`bgBold, this`currentPrimary, this`currentBg, fb, fb.queue, fb.slots, fb.grid, fb.framebuffer
      ensures BackendOk() && ViewState() == CarriedOut(env, old(ViewState()), c as char, escValuesI, escValues)
      ensures ParserState() == old(ParserState())
    {
      hide Terminal.BackendOk, Terminal.ParserState, Env.Valid, Dispatched;
      var r := fb.scrollEnabled;
      SetScrolling(false);
      Dispatch(c);
      SetScrolling(r);
    }

    // ----- escape sequences -----

    /** `flanterm_context_reinit` */
    method Reinit()
      requires BackendOk()
      modifies this, fb, fb.queue, fb.slots, fb.grid, fb.framebuffer
      ensures BackendOk() && autoflush
      ensures ParserState() ==
              Parser(false, false, false, false, false, false, false, 0, Params(old(escValues), 0, false),
                     old(unicode).(remaining := 0), 0)
      ensures ViewState() ==
              View(old(fb.Abs()).(cursorOn := true, scrollOn := true, top := 0, bottom := fb.geo.rows),
                   Attributes(false, false, false, NONE, NONE), 0, 0, old(ViewState()).saved, false, [0, 1], 0,
                   old(reports))
    {
      hide Terminal.BackendOk;
      ResetModes();
      ResetCounters();
      ResetBackend();
    }

    method ResetModes()
      modifies this`autoflush, this`controlSequence, this`csi, this`escape, this`osc, this`oscEscape, this`rrr,
               this`discardNext, this`decPrivate, this`insertMode
      ensures autoflush && !controlSequence && !csi && !escape && !osc && !oscEscape && !rrr
      ensures !discardNext && !decPrivate && !insertMode
    {
      autoflush := true;
      controlSequence, csi, escape, osc, oscEscape, rrr, discardNext := false, false, false, false, false, false, false;
      decPrivate, insertMode := false, false;
    }

    method ResetCounters()
      modifies this`bold, this`bgBold, this`reverseVideo, this`unicode, this`gSelect, this`charsets,
               this`currentCharset,
               this`escapeOffset, this`escValuesI, this`savedCursorX, this`savedCursorY, this`currentPrimary,
               this`currentBg
      ensures !bold && !bgBold && !reverseVideo && unicode == old(unicode).(remaining := 0)
      ensures gSelect == 0 && charsets == [0, 1] && currentCharset == 0 && escapeOffset == 0 && escValuesI == 0
      ensures savedCursorX == 0 && savedCursorY == 0 && currentPrimary == NONE && currentBg == NONE
    {
      bold, bgBold, reverseVideo := false, false, false;
      unicode := unicode.(remaining := 0);
      gSelect, charsets, currentCharset := 0, [0, 1], 0;
      escapeOffset, escValuesI, savedCursorX, savedCursorY := 0, 0, 0, 0;
      currentPrimary, currentBg := NONE, NONE;
    }

    method ResetBackend()
      requires BackendOk()
      modifies fb, fb.queue, fb.slots, fb.grid, fb.framebuffer
      ensures BackendOk()
      ensures fb.Abs() == old(fb.Abs()).(cursorOn := true, scrollOn := true, top := 0, bottom := fb.geo.rows)
    {
      hide FbTerm.Valid;
      Backend(SetCursorOn(true));
      SetScrolling(true);
      WholeScreen();
      SetRegion(0, fb.geo.rows);
    }

    lemma WholeScreen()
      requires fb.Valid()
      ensures fb.geo.rows >= 1 && fb.geo.cols >= 1
    {
    }

    /** `save_state` */
    method SaveContext()
      modifies this`savedStateColours, this`savedStateCharset, this`savedStateX, this`savedStateY
      ensures ViewState() == old(ViewState()).(saved :=
                Saved(old(ViewState()).Text(), currentCharset, fb.cursorX, fb.cursorY))
    {
      savedStateX, savedStateY := fb.cursorX, fb.cursorY;
      savedStateColours := Colours(fb.textFg, fb.textBg, reverseVideo, bold, bgBold, currentPrimary, currentBg);
      savedStateCharset := currentCharset;
    }

    /** `restore_state` */
    method RestoreContext()
      requires BackendOk() && ViewState().Valid()
      modifies this`bold, this`bgBold, this`reverseVideo, this`currentCharset, this`currentPrimary, this`currentBg,
               fb, fb.queue, fb.slots, fb.grid, fb.framebuffer
      ensures BackendOk() && ViewState() == TerminalSpec.RestoreState(old(ViewState()))
    {
      hide Terminal.BackendOk;
      var s := savedStateColours;
      RestoreAttributes();
      Backend(Restore(savedStateX, savedStateY, s.fg, s.bg));
    }

    method RestoreAttributes()
      modifies this`bold, this`bgBold, this`reverseVideo, this`currentCharset, this`currentPrimary, this`currentBg
      ensures savedStateColours ==
              Colours(savedStateColours.fg, savedStateColours.bg, reverseVideo, bold, bgBold, currentPrimary, currentBg)
      ensures currentCharset == savedStateCharset
    {
      var s := savedStateColours;
      bold, bgBold, reverseVideo := s.bold, s.bgBold, s.reverse;
      currentCharset, currentPrimary, currentBg := savedStateCharset, s.primary, s.background;
    }

    /** `osc_parse`: BEL ends the command, and so does a backslash after ESC. */
    method OscParse(c: Byte)
      requires ParserState().Valid() && osc
      modifies this`osc, this`oscEscape, this`escape
      ensures ParserState() == OscByte(old(ParserState()), c)
    {
      hide Parser.Valid;
      if (oscEscape && c == '\\' as nat) || c == 7 {
        oscEscape, osc, escape := false, false, false;
      } else {
        oscEscape := c == 0x1b;
      }
    }

    method StartControlSequence()
      modifies this`escValues, this`escValuesI, this`rrr, this`controlSequence
      ensures ParserState() == old(ParserState()).(params := Fresh(), controlSequence := true)
    {
      escValues := seq(MAX_ESC_VALUES, _ => 0);
      escValuesI, rrr, controlSequence := 0, false, true;
    }

    method EndCsi()
      modifies this`csi
      ensures ParserState() == old(ParserState()).(csi := false)
    {
      csi := false;
    }

    method StartOsc()
      modifies this`oscEscape, this`osc
      ensures ParserState() == old(ParserState()).(oscEscape := false, osc := true)
    {
      oscEscape, osc := false, true;
    }

    /** Moves down one line, scrolling in the last line of the region. */
    method LineFeed(x: nat, y: nat)
      requires BackendOk() && fb.Abs().Valid() && y == PosY(fb.Abs())
      modifies fb, fb.queue, fb.slots, fb.grid, fb.framebuffer
      ensures BackendOk() && fb.scrollEnabled == old(fb.scrollEnabled) && fb.Abs() == LineFed(old(fb.Abs()), x)
    {
      hide Terminal.BackendOk, Screen.ScrolledUp;
      if y == fb.scrollBottom - 1 {
        Backend(ScrollUp);
        Backend(SetCursor(x, y));
      } else {
        Backend(SetCursor(x, y + 1));
      }
    }

    method ReverseLineFeed(y: nat)
      requires BackendOk() && fb.Abs().Valid() && y == PosY(fb.Abs())
      modifies fb, fb.queue, fb.slots, fb.grid, fb.framebuffer
      ensures BackendOk() && fb.scrollEnabled == old(fb.scrollEnabled) && fb.Abs() == ReverseLineFed(old(fb.Abs()))
    {
      hide Terminal.BackendOk, Screen.ScrolledDown;
      if y == fb.scrollTop {
        Backend(ScrollDown);
        Backend(SetCursor(0, y));
      } else {
        Backend(SetCursor(0, SizeSub(y, 1)));
      }
    }

    /** `escape_parse` */
    method EscapeParse(c: Byte)
      requires Inv() && escape
      modifies this, fb, fb.queue, fb.slots, fb.grid, fb.framebuffer
      ensures BackendOk() && (old(autoflush) ==> autoflush)
      ensures State(ParserState(), ViewState()) == EscapeByte(env, old(State(ParserState(), ViewState())), c)
    {
      hide Terminal.BackendOk, Terminal.ParserState, Terminal.ViewState, Env.Valid, View.Valid, Params.Valid,
           SequenceByte, AfterEscape, AfterLong, AfterShort;
      CountByte();
      Fields();
      if controlSequence {
        ControlSequenceParse(c);
      } else if osc || csi || c == ']' as nat || c == '[' as nat {
        StartLong(c);
      } else {
        PlainEscape(c);
      }
    }

    method CountByte()
      requires Inv() && escape
      modifies this`escapeOffset
      ensures Inv() && ViewState() == old(ViewState())
      ensures ParserState() == old(ParserState()).(escapeOffset := old(ParserState()).escapeOffset + 1)
    {
      hide Terminal.BackendOk, Env.Valid, View.Valid, Params.Valid;
      escapeOffset := escapeOffset + 1;
    }

    /** Commands and the start of control sequences. */
    method StartLong(c: Byte)
      requires ParserState().Valid() && escape && !controlSequence && (osc || csi || c == ']' as nat || c == '[' as nat)
      modifies this`osc, this`oscEscape, this`escape, this`csi, this`escValues, this`escValuesI, this`rrr,
               this`controlSequence
      ensures ParserState() == AfterLong(old(ParserState()), c) && ViewState() == old(ViewState())
    {
      hide Terminal.ParserState, Terminal.ViewState, Params.Valid, OscByte;
      Fields();
      if osc {
        OscParse(c);
      } else if csi {
        EndCsi();
        StartControlSequence();
      } else if c == ']' as nat {
        StartOsc();
      } else {
        StartControlSequence();
      }
    }

    /** ESC and a byte that starts nothing longer. */
    method PlainEscape(c: Byte)
      requires Inv() && !controlSequence && !osc && !csi
      modifies this, fb, fb.queue, fb.slots, fb.grid, fb.framebuffer
      ensures BackendOk() && (old(autoflush) ==> autoflush)
      ensures ViewState() == AfterEscape(old(ViewState()), c as char)
      ensures ParserState() == AfterShort(old(ParserState()), c)
    {
      hide Terminal.BackendOk, Terminal.ParserState, Terminal.ViewState, Env.Valid, Parser.Valid, View.Valid,
           AfterEscape, ResetParser;
      Fields();
      if c == 'c' as nat {
        FullReset();
      } else {
        if c == '(' as nat || c == ')' as nat {
          ChooseSet(c);
        }
        EscapeView(c);
      }
      EndEscape();
    }

    method EndEscape()
      modifies this`escape
      ensures ParserState() == old(ParserState()).(escape := false)
    {
      escape := false;
    }

    method ChooseSet(c: Byte)
      requires c == 0x28 || c == 0x29
      modifies this`gSelect
      ensures ParserState() == old(ParserState()).(gSelect := c - 0x27)
    {
      gSelect := c - 0x27;
    }

    /** ESC c: reset and clear. */
    method FullReset()
      requires BackendOk() && ParserState().Valid() && ViewState().Valid() && fb.scrollEnabled
      modifies this, fb, fb.queue, fb.slots, fb.grid, fb.framebuffer
      ensures BackendOk() && autoflush
      ensures ParserState() == ResetParser(old(ParserState())) && ViewState() == AfterEscape(old(ViewState()), 'c')
    {
      hide Terminal.BackendOk, Screen.Cleared;
      Reinit();
      Backend(Clear(true));
    }

    /** Saving, restoring and moving by a line. */
    method EscapeView(c: Byte)
      requires BackendOk() && ViewState().Valid() && fb.scrollEnabled && c != 'c' as nat
      modifies this`savedStateColours, this`savedStateCharset, this`savedStateX, this`savedStateY, this`bold,
               this`bgBold, this`reverseVideo, this`currentCharset, this`currentPrimary, this`currentBg, fb, fb.queue,
                   fb.slots, fb.grid, fb.framebuffer
      ensures BackendOk() && ViewState() == AfterEscape(old(ViewState()), c as char)
    {
      hide Terminal.BackendOk, EscapeMoved;
      if c == '7' as nat {
        SaveContext();
      } else if c == '8' as nat {
        RestoreContext();
      } else {
        EscapeMove(c);
      }
    }

    method EscapeMove(c: Byte)
      requires BackendOk() && fb.Abs().Valid()
      modifies fb, fb.queue, fb.slots, fb.grid, fb.framebuffer
      ensures BackendOk() && fb.Abs() == EscapeMoved(c as char, old(fb.Abs()))
    {
      hide Terminal.BackendOk, LineFed, ReverseLineFed;
      var x, y := CursorPos();
      if c == 'D' as nat {
        LineFeed(x, y);
      } else if c == 'E' as nat {
        LineFeed(0, y);
      } else if c == 'M' as nat {
        ReverseLineFeed(y);
      }
    }

    // ----- bytes -----

    /** A decoded character: its code page 437 glyph, or a box as wide as the character. */
    method PrintCodePoint(cp: nat)
      requires BackendOk() && env.Valid() && fb.Abs().Valid()
      modifies fb, fb.queue, fb.slots, fb.grid, fb.framebuffer
      ensures BackendOk() && fb.Abs() == WithCharacter(env, old(fb.Abs()), cp)
    {
      hide Terminal.BackendOk, Screen.Typed, Spaced;
      var cc := env.cp437(cp);
      if cc < 0 {
        var width := env.width(cp);
        if width > 0 {
          Backend(Type(0xfe));
          Spaces(width - 1);
        }
      } else {
        Backend(Type(cc));
      }
    }

    /** Tab, line feeds, backspace and carriage return. */
    method Format(c: nat) returns (done: bool)
      requires BackendOk() && fb.Abs().Valid()
      modifies fb, fb.queue, fb.slots, fb.grid, fb.framebuffer
      ensures BackendOk() && fb.scrollEnabled == old(fb.scrollEnabled) && done == IsFormat(c)
      ensures fb.Abs() == if IsFormat(c) then Formatted(c, old(fb.Abs())) else old(fb.Abs())
    {
      hide Terminal.BackendOk, LineFed, Screen.CursorSet;
      done := true;
      var x, y := CursorPos();
      if c == 9 {
        Backend(SetCursor(if x / 8 + 1 >= fb.geo.cols then fb.geo.cols - 1 else (x / 8 + 1) * 8, y));
      } else if c == 0x0b || c == 0x0c || c == 10 {
        LineFeed(0, y);
      } else if c == 8 {
        Backend(SetCursor(SizeSub(x, 1), y));
      } else if c == 13 {
        Backend(SetCursor(0, y));
      } else {
        done := false;
      }
    }

    /** A printable character, with insertion and character set. The downward loop ends because the cursor column is on
        screen. */
    method Print(c: Byte)
      requires BackendOk() && env.Valid() && ViewState().Valid()
      modifies fb, fb.queue, fb.slots, fb.grid, fb.framebuffer
      ensures BackendOk()
      ensures fb.Abs() ==
              Printed(old(fb.Abs()), insertMode, GlyphOf(c, SpecialGlyph(env, old(ViewState()), c)))
    {
      hide Terminal.BackendOk, Screen.Moved, Screen.Typed;
      var x, y := CursorPos();
      if insertMode {
        OpenGap(x, y);
      }
      if charsets[currentCharset] == 1 && env.special(c) >= 0 {
        Backend(Type(env.special(c)));
      } else if 0x20 <= c <= 0x7e {
        Backend(Type(c));
      }
    }

    method OpenGap(x: nat, y: nat)
      requires BackendOk() && fb.Abs().Valid() && x == PosX(fb.Abs()) && y == PosY(fb.Abs())
      modifies fb, fb.queue, fb.slots, fb.grid, fb.framebuffer
      ensures BackendOk() && fb.Abs() == GapTo(old(fb.Abs()), y, x)
    {
      hide Terminal.BackendOk, Screen.Moved;
      ghost var s0 := fb.Abs();
      var i := fb.geo.cols - 1;
      while true
        invariant x <= i < fb.geo.cols && BackendOk() && s0.Valid() && fb.Abs() == GapTo(s0, y, i + 1)
        decreases i - x
      {
        Backend(Move(i + 1, y, i, y));
        if i == x {
          break;
        }
        i := i - 1;
      }
    }

    /** Control characters and printing. */
    method ControlOrPrintByte(c: Byte)
      requires Inv() && !escape
      modifies this`csi, this`escapeOffset, this`escape, this`currentCharset, fb, fb.queue, fb.slots, fb.grid,
               fb.framebuffer
      ensures BackendOk()
      ensures State(ParserState(), ViewState()) == ControlOrPrint(env, old(State(ParserState(), ViewState())), c)
    {
      hide Terminal.BackendOk, Env.Valid, Params.Valid, Formatted, Printed, SpecialGlyph;
      if c == 0x00 || c == 0x7f || c == 7 {
      } else if c == 0x9b || c == 0x1b {
        StartEscape(c);
      } else if c == 14 || c == 15 {
        currentCharset := 15 - c;
      } else {
        FormatOrPrint(c);
      }
    }

    method StartEscape(c: Byte)
      requires !csi
      modifies this`csi, this`escapeOffset, this`escape
      ensures csi == (c == 0x9b) && escapeOffset == 0 && escape
    {
      if c == 0x9b {
        csi := true;
      }
      escapeOffset, escape := 0, true;
    }

    method FormatOrPrint(c: Byte)
      requires BackendOk() && env.Valid() && ViewState().Valid()
      modifies fb, fb.queue, fb.slots, fb.grid, fb.framebuffer
      ensures BackendOk()
      ensures fb.Abs() ==
              if IsFormat(c) then Formatted(c, old(fb.Abs()))
              else Printed(old(fb.Abs()), insertMode, GlyphOf(c, SpecialGlyph(env, old(ViewState()), c)))
    {
      hide Terminal.BackendOk, Env.Valid, Formatted, Printed, SpecialGlyph;
      var done := Format(c);
      if !done {
        Print(c);
      }
    }

    /** `flanterm_putchar` */
    method PutChar(c: Byte)
      requires Inv()
      modifies this, fb, fb.queue, fb.slots, fb.grid, fb.framebuffer
      ensures Inv() && (old(autoflush) ==> autoflush)
      ensures State(ParserState(), ViewState()) == PutByte(env, old(State(ParserState(), ViewState())), c)
    {
      hide Terminal.BackendOk, Terminal.ParserState, Terminal.ViewState, State.Valid, Env.Valid, PutByte;
      TakeByte(c);
    }

    method TakeByte(c: Byte)
      requires Inv()
      modifies this, fb, fb.queue, fb.slots, fb.grid, fb.framebuffer
      ensures BackendOk() && (old(autoflush) ==> autoflush)
      ensures State(ParserState(), ViewState()) == PutByte(env, old(State(ParserState(), ViewState())), c)
    {
      hide Terminal.BackendOk, Terminal.ParserState, Terminal.ViewState, Env.Valid, Parser.Valid, View.Valid, Utf8.Feed,
           WithCharacter, PlainByte, Cancelled;
      Fields();
      if discardNext || c == 0x18 || c == 0x1a {
        Discard();
      } else {
        PendingBound();
        FeedRemaining(unicode, c);
        var (pending, event) := Utf8.Feed(unicode, c);
        StorePending(pending);
        if event.Complete? {
          DrawCharacter(event.codePoint);
        } else if event.Plain? {
          PutPlain(c);
        }
      }
    }

    lemma PendingBound()
      requires ParserState().Valid()
      ensures unicode.remaining <= 3
    {
    }

    method StorePending(pending: Utf8.Pending)
      requires Inv() && pending.remaining <= 3
      modifies this`unicode
      ensures Inv() && ParserState() == old(ParserState()).(unicode := pending)
    {
      hide Terminal.BackendOk, Env.Valid, View.Valid, Params.Valid;
      unicode := pending;
    }

    method DrawCharacter(cp: nat)
      requires Inv()
      modifies fb, fb.queue, fb.slots, fb.grid, fb.framebuffer
      ensures BackendOk() && old(fb.Abs()).Valid()
      ensures ViewState() == old(ViewState()).WithScreen(WithCharacter(env, old(ViewState()).screen, cp))
    {
      hide Terminal.BackendOk, Terminal.ParserState, Env.Valid, WithCharacter;
      PrintCodePoint(cp);
    }

    /** CAN, SUB and the byte after `ESC [ [` end whatever sequence is under way. */
    method Discard()
      requires ParserState().Valid()
      modifies this`discardNext, this`escape, this`csi, this`controlSequence, this`osc, this`oscEscape, this`unicode,
               this`gSelect
      ensures ParserState() == Cancelled(old(ParserState()))
    {
      hide Parser.Valid;
      discardNext, escape, csi, controlSequence, osc, oscEscape := false, false, false, false, false, false;
      unicode, gSelect := unicode.(remaining := 0), 0;
    }

    /** A byte that is not part of a multi-byte character. */
    method PutPlain(c: Byte)
      requires Inv()
      modifies this, fb, fb.queue, fb.slots, fb.grid, fb.framebuffer
      ensures BackendOk() && (old(autoflush) ==> autoflush)
      ensures State(ParserState(), ViewState()) == PlainByte(env, old(State(ParserState(), ViewState())), c)
    {
      hide Terminal.BackendOk, Env.Valid, Params.Valid, EscapeByte, ControlOrPrint;
      if escape {
        EscapeParse(c);
      } else if gSelect != 0 {
        SelectCharset(c);
      } else {
        ControlOrPrintByte(c);
      }
    }

    /** The byte that names a character set. */
    method SelectCharset(c: Byte)
      requires 1 <= gSelect <= |charsets|
      modifies this`gSelect, this`charsets
      ensures gSelect == 0
      ensures charsets == if c == 0x42 then old(charsets)[old(gSelect) - 1 := 0]
                          else if c == 0x30 then old(charsets)[old(gSelect) - 1 := 1] else old(charsets)
    {
      gSelect := gSelect - 1;
      if c == 'B' as nat {
        charsets := charsets[gSelect := 0];
      } else if c == '0' as nat {
        charsets := charsets[gSelect := 1];
      }
      gSelect := 0;
    }

    /** `flanterm_write`: the state is the one the bytes lead to, and after the flush the display shows its screen. */
    method Write(buf: seq<Byte>)
      requires Inv()
      modifies this, fb, fb.queue, fb.slots, fb.grid, fb.framebuffer
      ensures Inv() && Abs() == PutBytes(env, old(Abs()), buf)
      ensures old(autoflush) ==> autoflush && fb.ShowsScreen(Abs().view.screen)
    {
      hide Terminal.BackendOk, Terminal.ParserState, Terminal.ViewState, State.Valid, Env.Valid, FbTerm.ShowsScreen,
           PutByte;
      ghost var t := Abs();
      for i := 0 to |buf|
        invariant Inv() && env.Valid() && t.Valid() && Abs() == PutBytes(env, t, buf[..i])
        invariant old(autoflush) ==> autoflush
      {
        assert buf[..i + 1][..i] == buf[..i];
        PutChar(buf[i]);
      }
      assert buf[..|buf|] == buf;
      if autoflush {
        FlushBackend();
      }
    }

    ghost function Abs(): State
      reads this, fb
    {
      State(ParserState(), ViewState())
    }

    method FlushBackend()
      requires Inv()
      modifies fb, fb.queue, fb.slots, fb.grid, fb.framebuffer
      ensures Inv() && Abs() == old(Abs()) && fb.ShowsScreen(Abs().view.screen)
    {
      hide FbTerm.Valid, FbTerm.ShowsScreen, State.Valid, Env.Valid;
      fb.ValidScreen();
      fb.Step(Flush);
    }

    /** `flanterm_fb_init`: the saved state is zero, everything else as after a reset. */
    constructor (fb: FbTerm, env: Env)
      requires fb.Valid() && fb.scrollTop == 0 && fb.scrollBottom == fb.geo.rows && env.Valid()
      modifies fb, fb.queue, fb.slots, fb.grid, fb.framebuffer
      ensures Inv() && this.fb == fb && this.env == env && autoflush && reports == [] && ParserState().Idle()
    {
      hide FbTerm.Valid;
      this.fb, this.env := fb, env;
      escValues := seq(MAX_ESC_VALUES, _ => 0);
      unicode := Utf8.Pending(0, 0);
      savedStateColours := Colours(0, 0, false, false, false, 0, 0);
      savedStateCharset, savedStateX, savedStateY, reports := 0, 0, 0, [];
      new;
      WholeScreen();
      FirstReset();
    }

    /** The reset of a new terminal. */
    method FirstReset()
      requires BackendOk() && env.Valid() && |escValues| == MAX_ESC_VALUES && reports == []
      requires savedStateColours.Valid() && savedStateCharset < 2
      modifies this, fb, fb.queue, fb.slots, fb.grid, fb.framebuffer
      ensures Inv() && autoflush && reports == [] && ParserState().Idle()
    {
      hide FbTerm.Valid, Env.Valid;
      WholeScreen();
      Reinit();
      BackendScreen();
    }
  }
}
