/** The terminal as a function of the bytes it is given: parser state, screen and settings after each byte. */
module TerminalSpec {
  import opened BitStream
  import opened PlainScreen
  import opened ScreenEdit
  import opened Parameters
  import opened Sgr
  import Utf8
  import Bits

  /** Palette and tables: `col256`, `unicode_to_cp437`, `mk_wcwidth` and `dec_special_print`; -1 where a table has no
      entry. */
  datatype Env = Env(palette: Palette, table: nat -> nat, cp437: nat -> int, width: nat -> nat, special: nat -> int)
  {
    ghost predicate Valid() {
      palette.Valid() && (forall c :: cp437(c) < 256) && (forall c :: special(c) < 256)
    }
  }

  datatype Parser = Parser(
    escape: bool, controlSequence: bool, csi: bool, osc: bool, oscEscape: bool, discardNext: bool, decPrivate: bool,
    escapeOffset: nat, params: Params, unicode: Utf8.Pending, gSelect: nat)
  {
    /** At most 16 values and room for a pending digit; no sequence is under way outside an escape, and at most one
        inside. */
    ghost predicate Valid() {
      && params.Valid() && unicode.remaining <= 3 && gSelect <= 2
      && (!escape ==> !controlSequence && !osc && !csi)
      && (controlSequence ==> !osc && !csi) && (osc ==> !csi)
    }

    /** Nothing is under way. */
    ghost predicate Idle() {
      && !escape && !controlSequence && !osc && !csi && !discardNext && !decPrivate
      && gSelect == 0 && unicode.remaining == 0
    }
  }

  /** Reverse video, brightness and the selected palette entries. */
  datatype Attributes = Attributes(reverse: bool, bold: bool, bgBold: bool, primary: int, background: int)

  datatype Saved = Saved(colours: Colours, charset: nat, x: nat, y: nat)

  datatype Report = Report(x: nat, y: nat)

  /** Screen, text attributes, the two kinds of saved state, modes, character sets and the positions reported to the
      client, counted from one. */
  datatype View = View(
    screen: Screen, attributes: Attributes, savedX: nat, savedY: nat, saved: Saved, insertMode: bool,
    charsets: seq<nat>, charset: nat, reports: seq<Report>)
  {
    /** The scroll region is not empty, palette indices are none or below 8, reported positions are on screen. */
    ghost predicate Valid() {
      && screen.Valid() && screen.top < screen.bottom && Text().Valid()
      && saved.colours.Valid() && saved.charset < 2 && |charsets| == 2 && charset < 2
      && (forall k :: 0 <= k < |reports| ==> 1 <= reports[k].x <= screen.cols && 1 <= reports[k].y <= screen.rows)
    }

    function Text(): Colours {
      Colours(screen.fg, screen.bg, attributes.reverse, attributes.bold, attributes.bgBold, attributes.primary,
              attributes.background)
    }

    function WithText(c: Colours): View {
      this.(screen := screen.(fg := c.fg, bg := c.bg),
            attributes := Attributes(c.reverse, c.bold, c.bgBold, c.primary, c.background))
    }

    function WithScreen(s: Screen): View {
      this.(screen := s)
    }
  }

  datatype State = State(parser: Parser, view: View)
  {
    /** What holds between any two bytes. */
    ghost predicate Valid() {
      parser.Valid() && view.Valid() && view.screen.scrollOn
    }
  }

  // ----- control sequences -----

  /** The default of a missing parameter. */
  function Missing(c: char): nat {
    if c == 'J' || c == 'K' || c == 'q' then 0 else 1
  }

  /** Same size, a scroll region that is not empty, and the same colours and modes. */
  ghost predicate Keeps(s: Screen, r: Screen) {
    r.Valid() && r.top < r.bottom && r.rows == s.rows && r.cols == s.cols && r.fg == s.fg && r.bg == s.bg &&
    r.scrollOn == s.scrollOn && r.cursorOn == s.cursorOn
  }

  lemma EffectKeeps(c: char, n: nat, v: seq<nat>, savedX: nat, savedY: nat, s: Screen)
    requires s.Valid() && s.top < s.bottom && |v| >= 2
    ensures Keeps(s, Effect(c, n, v, savedX, savedY, s))
  {
    hide Destination, ScrollTimes, InsertLines, EraseDisplay, EraseLine, Insert, Delete, EraseChars, Screen.CursorSet;
  }

  /** What a finished control sequence with the values `vs`, of which `n` were given, does. */
  function Dispatched(env: Env, v: View, c: char, n: nat, vs: seq<nat>): (r: View)
    requires env.Valid() && v.Valid() && |vs| == MAX_ESC_VALUES && n <= MAX_ESC_VALUES
    ensures r.Valid() && r.screen.scrollOn == v.screen.scrollOn && r.saved == v.saved
  {
    var s := v.screen;
    if c == 'm' then v.WithText(Rendition(env.palette, env.table, v.Text(), vs[..n]))
    else if c == 'n' then
      if vs[0] == 6 then v.(reports := v.reports + [Report(PosX(s) + 1, PosY(s) + 1)]) else v
    else if c == 's' then v.(savedX := PosX(s), savedY := PosY(s))
    else if c == 'h' || c == 'l' then if n != 0 && vs[0] == 4 then v.(insertMode := c == 'h') else v
    else
      EffectKeeps(c, n, vs, v.savedX, v.savedY, s);
      v.WithScreen(Effect(c, n, vs, v.savedX, v.savedY, s))
  }

  /** Scrolling is off while it is carried out. */
  function CarriedOut(env: Env, v: View, c: char, n: nat, vs: seq<nat>): (r: View)
    requires env.Valid() && v.Valid() && |vs| == MAX_ESC_VALUES && n <= MAX_ESC_VALUES
    ensures r.Valid() && r.screen.scrollOn == v.screen.scrollOn && r.saved == v.saved
  {
    var w := Dispatched(env, v.WithScreen(v.screen.(scrollOn := false)), c, n, vs);
    w.WithScreen(w.screen.(scrollOn := v.screen.scrollOn))
  }

  function AfterSequence(env: Env, v: View, c: char, p: Params): (r: View)
    requires env.Valid() && v.Valid() && p.Valid()
    ensures r.Valid() && r.screen.scrollOn == v.screen.scrollOn && r.saved == v.saved
  {
    CarriedOut(env, v, c, p.Given(), Completed(p, Missing(c)))
  }

  /** Private modes: only 25, the cursor. */
  function AfterPrivate(v: View, c: char, p: Params): (r: View)
    requires v.Valid() && p.Valid()
    ensures r.Valid() && r.screen.scrollOn == v.screen.scrollOn && r.saved == v.saved
  {
    if p.Given() != 0 && Completed(p, Missing(c))[0] == 25 && (c == 'h' || c == 'l')
    then v.WithScreen(v.screen.(cursorOn := c == 'h'))
    else v
  }

  /** `control_sequence_parse` */
  function SequenceByte(env: Env, t: State, c: Byte): (r: State)
    requires env.Valid() && t.Valid() && t.parser.escape && t.parser.controlSequence
    ensures r.Valid()
  {
    var p := t.parser;
    if p.escapeOffset == 2 && c == 0x5b then
      t.(parser := p.(discardNext := true, controlSequence := false, escape := false))
    else if p.escapeOffset == 2 && c == 0x3f then t.(parser := p.(decPrivate := true))
    else if IsParameterByte(c) then t.(parser := p.(params := Digest(p.params, c)))
    else
      State(p.(params := Params(Completed(p.params, Missing(c as char)), p.params.Given(), false),
               decPrivate := false, controlSequence := false, escape := false),
            if p.decPrivate then AfterPrivate(t.view, c as char, p.params)
            else AfterSequence(env, t.view, c as char, p.params))
  }

  // ----- escapes -----

  /** `osc_parse`: BEL ends an operating system command, and so does a backslash after ESC. */
  function OscByte(p: Parser, c: Byte): (r: Parser)
    requires p.Valid() && p.osc
    ensures r.Valid()
  {
    if (p.oscEscape && c == 0x5c) || c == 7 then p.(oscEscape := false, osc := false, escape := false)
    else p.(oscEscape := c == 0x1b)
  }

  function StartSequence(p: Parser): (r: Parser)
    requires p.Valid() && p.escape && !p.osc
    ensures r.Valid()
  {
    p.(csi := false, params := Fresh(), controlSequence := true)
  }

  /** `flanterm_context_reinit`: parser and modes as at the start; colours, cells and saved state stay. */
  function ResetParser(p: Parser): (r: Parser)
    requires p.Valid()
    ensures r.Valid()
  {
    Parser(false, false, false, false, false, false, false, 0, p.params.(count := 0, digit := false),
           p.unicode.(remaining := 0), 0)
  }

  function ResetView(v: View): (r: View)
    requires v.Valid()
    ensures r.Valid() && r.screen.scrollOn && r.saved == v.saved && r.screen.cells == v.screen.cells
  {
    View(v.screen.(cursorOn := true, scrollOn := true, top := 0, bottom := v.screen.rows),
         Attributes(false, false, false, NONE, NONE), 0, 0, v.saved, false, [0, 1], 0, v.reports)
  }

  function SaveState(v: View): (r: View)
    requires v.Valid()
    ensures r.Valid()
  {
    v.(saved := Saved(v.Text(), v.charset, v.screen.cursorX, v.screen.cursorY))
  }

  function RestoreState(v: View): (r: View)
    requires v.Valid()
    ensures r.Valid() && r.saved == v.saved && r.screen.scrollOn == v.screen.scrollOn
  {
    v.(screen := v.screen.(cursorX := v.saved.x, cursorY := v.saved.y)).WithText(v.saved.colours)
     .(charset := v.saved.charset)
  }

  /** The view after ESC and a byte that starts nothing longer. */
  function AfterEscape(v: View, c: char): (r: View)
    requires v.Valid() && v.screen.scrollOn
    ensures r.Valid() && r.screen.scrollOn && (c != '7' ==> r.saved == v.saved)
  {
    match c
    case '7' => SaveState(v)
    case '8' => RestoreState(v)
    case 'c' => var w := ResetView(v); w.WithScreen(w.screen.Cleared(true))
    case _ => v.WithScreen(EscapeMoved(c, v.screen))
  }

  /** Commands and the start of control sequences. */
  predicate LongEscape(p: Parser, c: Byte) {
    p.osc || p.csi || c == 0x5b || c == 0x5d
  }

  function AfterLong(p: Parser, c: Byte): (r: Parser)
    requires p.Valid() && p.escape && !p.controlSequence && LongEscape(p, c)
    ensures r.Valid()
  {
    if p.osc then OscByte(p, c)
    else if p.csi || c == 0x5b then StartSequence(p)
    else p.(oscEscape := false, osc := true)
  }

  /** Anything else ends the escape; a parenthesis waits for the byte that names a character set. */
  function AfterShort(p: Parser, c: Byte): (r: Parser)
    requires p.Valid() && !p.controlSequence && !p.osc && !p.csi
    ensures r.Valid()
  {
    var q := if c == 0x63 then ResetParser(p) else if c == 0x28 || c == 0x29 then p.(gSelect := c - 0x27) else p;
    q.(escape := false)
  }

  /** `escape_parse` */
  function EscapeByte(env: Env, t0: State, c: Byte): (r: State)
    requires env.Valid() && t0.Valid() && t0.parser.escape
    ensures r.Valid()
  {
    var t := t0.(parser := t0.parser.(escapeOffset := t0.parser.escapeOffset + 1));
    if t.parser.controlSequence then SequenceByte(env, t, c)
    else if LongEscape(t.parser, c) then t.(parser := AfterLong(t.parser, c))
    else State(AfterShort(t.parser, c), AfterEscape(t.view, c as char))
  }

  // ----- bytes -----

  /** The screen after a decoded character: its glyph, or a box as wide as the character. */
  function WithCharacter(env: Env, s: Screen, cp: nat): (r: Screen)
    requires env.Valid() && s.Valid()
    ensures s.SameShape(r)
  {
    if env.cp437(cp) >= 0 then s.Typed(env.cp437(cp))
    else if env.width(cp) > 0 then Spaced(s.Typed(0xfe), env.width(cp) - 1)
    else s
  }

  /** The glyph that the special character set has for a byte, or -1. */
  function SpecialGlyph(env: Env, v: View, c: nat): (g: int)
    requires env.Valid() && v.Valid()
    ensures g < 256
  {
    if v.charsets[v.charset] == 1 then env.special(c) else -1
  }

  /** Control characters and printing. */
  function ControlOrPrint(env: Env, t: State, c: Byte): (r: State)
    requires env.Valid() && t.Valid() && !t.parser.escape
    ensures r.Valid()
  {
    var p, v := t.parser, t.view;
    if c == 0 || c == 0x7f || c == 7 then t
    else if c == 0x9b || c == 0x1b then t.(parser := p.(csi := c == 0x9b, escapeOffset := 0, escape := true))
    else if IsFormat(c) then t.(view := v.WithScreen(Formatted(c, v.screen)))
    else if c == 14 || c == 15 then t.(view := v.(charset := 15 - c))
    else t.(view := v.WithScreen(Printed(v.screen, v.insertMode, GlyphOf(c, SpecialGlyph(env, v, c)))))
  }

  /** The byte that names a character set. */
  function Designated(t: State, c: Byte): (r: State)
    requires t.Valid() && t.parser.gSelect != 0
    ensures r.Valid()
  {
    var g := t.parser.gSelect - 1;
    State(t.parser.(gSelect := 0),
          if c == 0x42 then t.view.(charsets := t.view.charsets[g := 0])
          else if c == 0x30 then t.view.(charsets := t.view.charsets[g := 1])
          else t.view)
  }

  function PlainByte(env: Env, t: State, c: Byte): (r: State)
    requires env.Valid() && t.Valid()
    ensures r.Valid()
  {
    if t.parser.escape then EscapeByte(env, t, c)
    else if t.parser.gSelect != 0 then Designated(t, c)
    else ControlOrPrint(env, t, c)
  }

  function Cancelled(p: Parser): (r: Parser)
    requires p.Valid()
    ensures r.Valid()
  {
    p.(discardNext := false, escape := false, csi := false, controlSequence := false, osc := false, oscEscape := false,
       unicode := p.unicode.(remaining := 0), gSelect := 0)
  }

  lemma FeedRemaining(p: Utf8.Pending, c: Byte)
    requires p.remaining <= 3
    ensures Utf8.Feed(p, c).0.remaining <= 3
  {
    hide Bits.Or, Bits.Shl;
  }

  /** `flanterm_putchar` */
  function PutByte(env: Env, t: State, c: Byte): (r: State)
    requires env.Valid() && t.Valid()
    ensures r.Valid()
  {
    if t.parser.discardNext || c == 0x18 || c == 0x1a then t.(parser := Cancelled(t.parser))
    else
      FeedRemaining(t.parser.unicode, c);
      var (pending, event) := Utf8.Feed(t.parser.unicode, c);
      var u := t.(parser := t.parser.(unicode := pending));
      match event
      case Complete(cp) => u.(view := u.view.WithScreen(WithCharacter(env, u.view.screen, cp)))
      case Quiet => u
      case Plain(_) => PlainByte(env, u, c)
  }

  function PutBytes(env: Env, t: State, bs: seq<Byte>): (r: State)
    requires env.Valid() && t.Valid()
    ensures r.Valid()
    decreases |bs|
  {
    if bs == [] then t else PutByte(env, PutBytes(env, t, bs[..|bs| - 1]), bs[|bs| - 1])
  }
}
