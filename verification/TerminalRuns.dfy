/** Whole control sequences, characters and texts: what strings of bytes do to the terminal. */
module TerminalRuns {
  import opened BitStream
  import opened PlainScreen
  import opened ScreenEdit
  import opened Parameters
  import opened Sgr
  import opened TerminalSpec
  import Utf8
  import Flanterm
  import opened Typing

  lemma {:induction false} PutAdd(env: Env, t: State, a: seq<Byte>, b: seq<Byte>)
    requires env.Valid() && t.Valid()
    ensures PutBytes(env, t, a + b) == PutBytes(env, PutBytes(env, t, a), b)
    decreases |b|
  {
    hide PutByte;
    if b == [] {
      assert a + b == a;
    } else {
      var m := |b| - 1;
      PutAdd(env, t, a, b[..m]);
      assert (a + b)[..|a + b| - 1] == a + b[..m];
    }
  }

  lemma PutOne(env: Env, t: State, c: Byte)
    requires env.Valid() && t.Valid()
    ensures PutBytes(env, t, [c]) == PutByte(env, t, c)
  {
    hide PutByte;
    var none: seq<Byte> := [];
    assert [c][..0] == none;
    assert PutBytes(env, t, none) == t;
  }

  lemma PutFirst(env: Env, t: State, c: Byte, b: seq<Byte>)
    requires env.Valid() && t.Valid()
    ensures PutBytes(env, t, [c] + b) == PutBytes(env, PutByte(env, t, c), b)
  {
    hide PutByte, PutBytes;
    PutAdd(env, t, [c], b);
    PutOne(env, t, c);
  }

  /** Bytes other than CAN, SUB and those that lead a character go straight to the rest of the parser. */
  lemma PlainPut(env: Env, t: State, c: Byte)
    requires env.Valid() && t.Valid() && !t.parser.discardNext && t.parser.unicode.remaining == 0
    requires c != 0x18 && c != 0x1a && !(0xc0 <= c <= 0xf7)
    ensures PutByte(env, t, c) == PlainByte(env, t, c)
  {
    hide PlainByte;
  }

  // ----- characters of several bytes -----

  /** The bytes of a character of at least two bytes change the screen once, by that character, and nothing else,
      whatever the parser is in the middle of; an unfinished character before them is dropped. */
  lemma CharacterRun(env: Env, t: State, v: nat)
    requires env.Valid() && t.Valid() && !t.parser.discardNext && 0x80 <= v <= 0x10FFFF
    ensures PutBytes(env, t, Utf8.Encode(v)) ==
            State(t.parser.(unicode := Utf8.Pending(0, v)), t.view.WithScreen(WithCharacter(env, t.view.screen, v)))
  {
    hide Utf8.Encode, Utf8.Feed, Utf8.Stage, WithCharacter, PutBytes, PutByte;
    var e := Utf8.Encode(v);
    var m := |e| - 1;
    Utf8.Stages(v, t.parser.unicode);
    QuietRun(env, t, v, m);
    PutAdd(env, t, e[..m], [e[m]]);
    assert e[..m] + [e[m]] == e;
    var u := t.(parser := t.parser.(unicode := Utf8.Stage(v, m)));
    PutOne(env, u, e[m]);
    FeedPut(env, u, e[m]);
  }

  /** A byte that continues or starts a character. */
  lemma FeedPut(env: Env, t: State, c: Byte)
    requires env.Valid() && t.Valid() && !t.parser.discardNext && c >= 0x80 && !Utf8.Feed(t.parser.unicode, c).1.Plain?
    ensures var (pending, event) := Utf8.Feed(t.parser.unicode, c);
            var p := t.parser.(unicode := pending);
            PutByte(env, t, c) ==
            if event.Quiet? then State(p, t.view)
            else State(p, t.view.WithScreen(WithCharacter(env, t.view.screen, event.codePoint)))
  {
    hide Utf8.Feed, WithCharacter;
  }

  lemma {:induction false} QuietRun(env: Env, t: State, v: nat, i: nat)
    requires env.Valid() && t.Valid() && !t.parser.discardNext && 0x80 <= v <= 0x10FFFF && 1 <= i < |Utf8.Encode(v)|
    ensures Utf8.Stage(v, i).remaining <= 3
    ensures PutBytes(env, t, Utf8.Encode(v)[..i]) == t.(parser := t.parser.(unicode := Utf8.Stage(v, i)))
  {
    hide Utf8.Encode, Utf8.Feed, Utf8.Stage, PutBytes, PutByte;
    var e := Utf8.Encode(v);
    Utf8.Stages(v, t.parser.unicode);
    StageBound(v, i);
    if i == 1 {
      assert e[..1] == [e[0]];
      PutOne(env, t, e[0]);
      FeedPut(env, t, e[0]);
    } else {
      QuietRun(env, t, v, i - 1);
      StageBound(v, i - 1);
      assert e[..i] == e[..i - 1] + [e[i - 1]];
      PutAdd(env, t, e[..i - 1], [e[i - 1]]);
      var u := t.(parser := t.parser.(unicode := Utf8.Stage(v, i - 1)));
      assert Utf8.Feed(Utf8.Stage(v, i - 1), e[i - 1]) == (Utf8.Stage(v, (i - 1) + 1), Utf8.Quiet);
      PutOne(env, u, e[i - 1]);
      FeedPut(env, u, e[i - 1]);
    }
  }

  lemma StageBound(v: nat, i: nat)
    requires v <= 0x10FFFF && 1 <= i < |Utf8.Encode(v)|
    ensures Utf8.Stage(v, i).remaining <= 3
  {
  }

  // ----- control sequences -----

  predicate FinalByte(c: nat) {
    0x40 <= c <= 0x7e && c != 0x5b
  }

  /** Inside a control sequence whose parameters so far are `params`. */
  function Within(p: Parser, offset: nat, private: bool, params: Params): Parser {
    p.(escape := true, controlSequence := true, escapeOffset := offset, decPrivate := private, params := params)
  }

  /** Nothing is under way, but a private sequence may have been cancelled. */
  ghost predicate Resting(p: Parser) {
    p.(decPrivate := false).Idle()
  }

  /** ESC and the bracket. */
  lemma SequenceStarts(env: Env, t: State)
    requires env.Valid() && t.Valid() && Resting(t.parser)
    ensures PutBytes(env, t, [0x1b, 0x5b]) == t.(parser := Within(t.parser, 1, t.parser.decPrivate, Fresh()))
  {
    hide PutByte, PutBytes, PlainByte;
    assert [0x1b, 0x5b] == [0x1b as Byte] + [0x5b];
    PutFirst(env, t, 0x1b, [0x5b]);
    PlainPut(env, t, 0x1b);
    EscapeStarts(env, t);
    var u := t.(parser := t.parser.(escapeOffset := 0, escape := true));
    PutOne(env, u, 0x5b);
    PlainPut(env, u, 0x5b);
    BracketStarts(env, u);
  }

  lemma EscapeStarts(env: Env, t: State)
    requires env.Valid() && t.Valid() && Resting(t.parser)
    ensures PlainByte(env, t, 0x1b) == t.(parser := t.parser.(escapeOffset := 0, escape := true))
  {
  }

  lemma BracketStarts(env: Env, t: State)
    requires env.Valid() && t.Valid() && t.parser.escape && !t.parser.controlSequence && !t.parser.osc
    requires !t.parser.csi && t.parser.escapeOffset == 0
    ensures PlainByte(env, t, 0x5b) ==
            t.(parser := t.parser.(escapeOffset := 1, controlSequence := true, params := Fresh()))
  {
  }

  lemma ParameterPut(env: Env, t: State, c: Byte)
    requires env.Valid() && t.Valid() && t.parser.escape && t.parser.controlSequence && IsParameterByte(c)
    ensures PlainByte(env, t, c) ==
            t.(parser := t.parser.(escapeOffset := t.parser.escapeOffset + 1, params := Digest(t.parser.params, c)))
  {
    hide Digest;
  }

  lemma {:induction false} ParametersPut(env: Env, t: State, s: seq<Byte>)
    requires env.Valid() && t.Valid() && t.parser.escape && t.parser.controlSequence && !t.parser.discardNext
    requires t.parser.unicode.remaining == 0 && ParameterBytes(s)
    ensures PutBytes(env, t, s) ==
            t.(parser := t.parser.(escapeOffset := t.parser.escapeOffset + |s|,
                                   params := DigestAll(t.parser.params, s)))
    decreases |s|
  {
    hide PutByte, PlainByte, Digest;
    if s != [] {
      var m := |s| - 1;
      ParametersPut(env, t, s[..m]);
      var u := PutBytes(env, t, s[..m]);
      PlainPut(env, u, s[m]);
      ParameterPut(env, u, s[m]);
    }
  }

  lemma FinalPut(env: Env, t: State, c: Byte)
    requires env.Valid() && t.Valid() && t.parser.escape && t.parser.controlSequence && FinalByte(c)
    ensures PlainByte(env, t, c) ==
            State(t.parser.(escapeOffset := t.parser.escapeOffset + 1, decPrivate := false, controlSequence := false,
                            escape := false,
                            params := Params(Completed(t.parser.params, Missing(c as char)),
                                             t.parser.params.Given(), false)),
                  if t.parser.decPrivate then AfterPrivate(t.view, c as char, t.parser.params)
                  else AfterSequence(env, t.view, c as char, t.parser.params))
  {
    hide AfterSequence, AfterPrivate, Completed;
  }

  /** The rest of a sequence: parameters and final byte. */
  lemma SequenceEnds(env: Env, t: State, ns: seq<nat>, c: Byte)
    requires env.Valid() && t.Valid() && t.parser.escape && t.parser.controlSequence && !t.parser.discardNext
    requires t.parser.unicode.remaining == 0 && t.parser.gSelect == 0 && t.parser.params == Fresh() && FinalByte(c)
    ensures Holding(ns).Valid()
    ensures var r := PutBytes(env, t, Serialise(ns) + [c]);
            && r.parser.Idle()
            && r.view == if t.parser.decPrivate then AfterPrivate(t.view, c as char, Holding(ns))
                         else AfterSequence(env, t.view, c as char, Holding(ns))
  {
    hide PutByte, PutBytes, PlainByte, AfterSequence, AfterPrivate, Completed, Serialise, Holding, DigestAll;
    SerialiseRead(ns);
    PutAdd(env, t, Serialise(ns), [c]);
    ParametersPut(env, t, Serialise(ns));
    var u := PutBytes(env, t, Serialise(ns));
    PutOne(env, u, c);
    PlainPut(env, u, c);
    FinalPut(env, u, c);
  }

  function SequenceBytes(ns: seq<nat>, c: Byte): seq<Byte> {
    [0x1b, 0x5b] + (Serialise(ns) + [c])
  }

  /** A whole control sequence: ESC, "[", numbers in decimal with semicolons between them, and a final byte. After a
      cancelled private sequence it is taken as private. */
  lemma SequenceRun(env: Env, t: State, ns: seq<nat>, c: Byte)
    requires env.Valid() && t.Valid() && Resting(t.parser) && FinalByte(c)
    ensures Holding(ns).Valid()
    ensures var r := PutBytes(env, t, SequenceBytes(ns, c));
            && r.parser.Idle()
            && r.view == if t.parser.decPrivate then AfterPrivate(t.view, c as char, Holding(ns))
                         else AfterSequence(env, t.view, c as char, Holding(ns))
  {
    hide PutByte, PutBytes, AfterSequence, AfterPrivate, Serialise, Holding;
    SequenceStarts(env, t);
    PutAdd(env, t, [0x1b, 0x5b], Serialise(ns) + [c]);
    SequenceEnds(env, t.(parser := Within(t.parser, 1, t.parser.decPrivate, Fresh())), ns, c);
  }

  function PrivateBytes(ns: seq<nat>, c: Byte): seq<Byte> {
    [0x1b, 0x5b] + ([0x3f] + (Serialise(ns) + [c]))
  }

  lemma PrivateMark(env: Env, t: State)
    requires env.Valid() && t.Valid() && t.parser.escape && t.parser.controlSequence && t.parser.escapeOffset == 1
    ensures PlainByte(env, t, 0x3f) == t.(parser := t.parser.(escapeOffset := 2, decPrivate := true))
  {
  }

  /** The same with a question mark first: a private mode. */
  lemma PrivateRun(env: Env, t: State, ns: seq<nat>, c: Byte)
    requires env.Valid() && t.Valid() && t.parser.Idle() && FinalByte(c)
    ensures Holding(ns).Valid()
    ensures var r := PutBytes(env, t, PrivateBytes(ns, c));
            r.parser.Idle() && r.view == AfterPrivate(t.view, c as char, Holding(ns))
  {
    hide PutByte, PutBytes, PlainByte, AfterSequence, AfterPrivate, Serialise, Holding;
    var rest := Serialise(ns) + [c];
    SequenceStarts(env, t);
    PutAdd(env, t, [0x1b, 0x5b], [0x3f] + rest);
    var u := t.(parser := Within(t.parser, 1, false, Fresh()));
    PutFirst(env, u, 0x3f, rest);
    PlainPut(env, u, 0x3f);
    PrivateMark(env, u);
    SequenceEnds(env, u.(parser := Within(t.parser, 2, true, Fresh())), ns, c);
  }

  // ----- escapes, character sets, commands -----

  /** ESC and a byte that starts nothing longer. */
  predicate ShortEscape(c: Byte) {
    0x20 <= c <= 0x7e && c != 0x5b && c != 0x5d && c != 0x28 && c != 0x29
  }

  lemma EscapeRun(env: Env, t: State, c: Byte)
    requires env.Valid() && t.Valid() && t.parser.Idle() && ShortEscape(c)
    ensures var r := PutBytes(env, t, [0x1b] + [c]); r.parser.Idle() && r.view == AfterEscape(t.view, c as char)
  {
    hide PutByte, PutBytes, PlainByte, AfterEscape;
    PutFirst(env, t, 0x1b, [c]);
    PlainPut(env, t, 0x1b);
    EscapeStarts(env, t);
    var u := t.(parser := t.parser.(escapeOffset := 0, escape := true));
    PutOne(env, u, c);
    PlainPut(env, u, c);
    ShortEscapePut(env, u, c);
  }

  lemma ShortEscapePut(env: Env, t: State, c: Byte)
    requires env.Valid() && t.Valid() && t.parser.escape && !t.parser.controlSequence && !t.parser.osc && !t.parser.csi
    requires ShortEscape(c) && t.parser.(escape := false).Idle()
    ensures PlainByte(env, t, c).parser.Idle() && PlainByte(env, t, c).view == AfterEscape(t.view, c as char)
  {
    hide AfterEscape;
  }

  /** ESC, a parenthesis and the letter of a character set. */
  function Redesignated(v: View, g: nat, c: Byte): View
    requires v.Valid() && g < 2
  {
    if c == 0x42 then v.(charsets := v.charsets[g := 0])
    else if c == 0x30 then v.(charsets := v.charsets[g := 1])
    else v
  }

  lemma DesignateRun(env: Env, t: State, g: nat, c: Byte)
    requires env.Valid() && t.Valid() && t.parser.Idle() && g < 2 && 0x20 <= c <= 0x7e
    ensures var r := PutBytes(env, t, [0x1b] + ([0x28 + g] + [c]));
            r.parser.Idle() && r.view == Redesignated(t.view, g, c)
  {
    hide PutByte, PutBytes, PlainByte;
    PutFirst(env, t, 0x1b, [0x28 + g] + [c]);
    PlainPut(env, t, 0x1b);
    EscapeStarts(env, t);
    var u := t.(parser := t.parser.(escapeOffset := 0, escape := true));
    PutFirst(env, u, 0x28 + g, [c]);
    PlainPut(env, u, 0x28 + g);
    ParenthesisPut(env, u, g);
    var w := t.(parser := t.parser.(escapeOffset := 1, gSelect := g + 1));
    PutOne(env, w, c);
    PlainPut(env, w, c);
    SetPut(env, w, g, c);
  }

  lemma ParenthesisPut(env: Env, t: State, g: nat)
    requires env.Valid() && t.Valid() && t.parser.escape && !t.parser.controlSequence && !t.parser.osc && !t.parser.csi
    requires g < 2 && t.parser.escapeOffset == 0
    ensures PlainByte(env, t, 0x28 + g) == t.(parser := t.parser.(escapeOffset := 1, gSelect := g + 1, escape := false))
  {
    assert EscapeMoved((0x28 + g) as char, t.view.screen) == t.view.screen;
  }

  lemma SetPut(env: Env, t: State, g: nat, c: Byte)
    requires env.Valid() && t.Valid() && !t.parser.escape && g < 2 && t.parser.gSelect == g + 1
    ensures PlainByte(env, t, c) == State(t.parser.(gSelect := 0), Redesignated(t.view, g, c))
  {
  }

  /** A piece of the text of an operating system command: a byte that does not lead a character, or a character. */
  datatype Unit = Raw(c: Byte) | Wide(v: nat)
  {
    ghost predicate Valid() {
      match this
      case Raw(c) => c != 7 && c != 0x18 && c != 0x1a && !(0xc0 <= c <= 0xf7)
      case Wide(v) => 0x80 <= v <= 0x10FFFF
    }

    ghost function Bytes(): seq<Byte>
      requires Valid()
    {
      match this
      case Raw(c) => [c]
      case Wide(v) => Utf8.Encode(v)
    }
  }

  /** Whether the last byte of the text that does not belong to a character is ESC. */
  ghost function EndsInEscape(us: seq<Unit>): bool {
    us != [] && var u := us[|us| - 1]; if u.Raw? then u.c == 0x1b else EndsInEscape(us[..|us| - 1])
  }

  /** Any text that does not end the command: no BEL and no backslash after ESC. */
  ghost predicate OscText(us: seq<Unit>) {
    us == [] ||
    (var m := |us| - 1; OscText(us[..m]) && us[m].Valid() && !(us[m] == Raw(0x5c) && EndsInEscape(us[..m])))
  }

  ghost function UnitsBytes(us: seq<Unit>): seq<Byte>
    requires OscText(us)
  {
    if us == [] then [] else UnitsBytes(us[..|us| - 1]) + us[|us| - 1].Bytes()
  }

  /** The characters of the text are drawn, because they are decoded before the command is looked at. */
  ghost function Leaked(env: Env, s: Screen, us: seq<Unit>): (r: Screen)
    requires env.Valid() && s.Valid() && OscText(us)
    ensures s.SameShape(r)
  {
    if us == [] then s
    else
      var t := Leaked(env, s, us[..|us| - 1]);
      if us[|us| - 1].Wide? then WithCharacter(env, t, us[|us| - 1].v) else t
  }

  /** A text without characters leaks nothing. */
  lemma {:induction false} NothingLeaks(env: Env, s: Screen, us: seq<Unit>)
    requires env.Valid() && s.Valid() && OscText(us) && forall k :: 0 <= k < |us| ==> us[k].Raw?
    ensures Leaked(env, s, us) == s
    decreases |us|
  {
    if us != [] {
      NothingLeaks(env, s, us[..|us| - 1]);
    }
  }

  /** BEL, or ESC and a backslash. */
  function Terminator(bell: bool): seq<Byte> {
    if bell then [7] else [0x1b] + [0x5c]
  }

  function CommandBytes(text: seq<Byte>, bell: bool): seq<Byte> {
    [0x1b] + ([0x5d] + (text + Terminator(bell)))
  }

  /** Inside an operating system command. */
  function InCommand(p: Parser, offset: nat, escaped: bool, pending: Utf8.Pending): Parser {
    p.(escape := true, osc := true, oscEscape := escaped, escapeOffset := offset, unicode := pending)
  }

  /** ESC, "]", any text and a terminator: no effect but that of the characters in the text, which are drawn. */
  lemma OscRun(env: Env, t: State, us: seq<Unit>, bell: bool)
    requires env.Valid() && t.Valid() && t.parser.Idle() && OscText(us)
    ensures var r := PutBytes(env, t, CommandBytes(UnitsBytes(us), bell));
            r.parser.Idle() && r.view == t.view.WithScreen(Leaked(env, t.view.screen, us))
  {
    hide PutByte, PutBytes, PlainByte, UnitsBytes, OscText, Leaked;
    var s := UnitsBytes(us);
    PutFirst(env, t, 0x1b, [0x5d] + (s + Terminator(bell)));
    PlainPut(env, t, 0x1b);
    EscapeStarts(env, t);
    var u := t.(parser := t.parser.(escapeOffset := 0, escape := true));
    PutFirst(env, u, 0x5d, s + Terminator(bell));
    PlainPut(env, u, 0x5d);
    OscStarts(env, u);
    var w := t.(parser := InCommand(t.parser, 1, false, t.parser.unicode));
    PutAdd(env, w, s, Terminator(bell));
    OscTextPut(env, w, us);
    OscEnds(env, PutBytes(env, w, s), bell);
  }

  lemma OscStarts(env: Env, t: State)
    requires env.Valid() && t.Valid() && t.parser.escape && !t.parser.controlSequence && !t.parser.osc && !t.parser.csi
    requires t.parser.escapeOffset == 0
    ensures PlainByte(env, t, 0x5d) == t.(parser := t.parser.(escapeOffset := 1, oscEscape := false, osc := true))
  {
  }

  /** One byte inside a command. */
  lemma OscBytePut(env: Env, t: State, c: Byte)
    requires env.Valid() && t.Valid() && t.parser.escape && t.parser.osc
    ensures PlainByte(env, t, c) ==
            t.(parser := OscByte(t.parser.(escapeOffset := t.parser.escapeOffset + 1), c))
  {
    hide OscByte;
  }

  lemma OscEnds(env: Env, t: State, bell: bool)
    requires env.Valid() && t.Valid() && t.parser.escape && t.parser.osc && !t.parser.discardNext &&
             !t.parser.decPrivate
    requires t.parser.gSelect == 0 && t.parser.unicode.remaining == 0
    ensures var r := PutBytes(env, t, Terminator(bell)); r.parser.Idle() && r.view == t.view
  {
    hide PutByte, PutBytes, PlainByte;
    if bell {
      PutOne(env, t, 7);
      PlainPut(env, t, 7);
      OscBytePut(env, t, 7);
    } else {
      PutFirst(env, t, 0x1b, [0x5c]);
      PlainPut(env, t, 0x1b);
      OscBytePut(env, t, 0x1b);
      var u := PutByte(env, t, 0x1b);
      PutOne(env, u, 0x5c);
      PlainPut(env, u, 0x5c);
      OscBytePut(env, u, 0x5c);
    }
  }

  /** The state after the text so far: the command is still open. */
  ghost predicate OscState(env: Env, t: State, us: seq<Unit>, r: State)
    requires env.Valid() && t.Valid() && OscText(us)
  {
    && r.parser == InCommand(t.parser, r.parser.escapeOffset, EndsInEscape(us), r.parser.unicode)
    && r.parser.unicode.remaining == 0
    && r.view == t.view.WithScreen(Leaked(env, t.view.screen, us))
  }

  lemma {:induction false} OscTextPut(env: Env, t: State, us: seq<Unit>)
    requires env.Valid() && t.Valid() && OscText(us) && t.parser.escape && t.parser.osc && !t.parser.oscEscape
    requires !t.parser.discardNext && t.parser.unicode.remaining == 0
    ensures OscState(env, t, us, PutBytes(env, t, UnitsBytes(us)))
    decreases |us|
  {
    hide PutByte, OscState, OscText, State.Valid;
    if us == [] {
      OscNothing(env, t);
    } else {
      var m := |us| - 1;
      ScreenOk(t);
      UnitsLast(env, t.view.screen, us);
      OscTextPut(env, t, us[..m]);
      PutAdd(env, t, UnitsBytes(us[..m]), us[m].Bytes());
      UnitPut(env, t, us, PutBytes(env, t, UnitsBytes(us[..m])));
    }
  }

  lemma ScreenOk(t: State)
    requires t.Valid()
    ensures t.view.screen.Valid()
  {
  }

  lemma OscNothing(env: Env, t: State)
    requires env.Valid() && t.Valid() && t.parser.escape && t.parser.osc && !t.parser.oscEscape
    requires t.parser.unicode.remaining == 0
    ensures OscText([]) && OscState(env, t, [], t)
  {
  }

  lemma UnitsLast(env: Env, s: Screen, us: seq<Unit>)
    requires env.Valid() && s.Valid() && OscText(us) && us != []
    ensures var m := |us| - 1;
            && OscText(us[..m]) && us[m].Valid() && !(us[m] == Raw(0x5c) && EndsInEscape(us[..m]))
            && UnitsBytes(us) == UnitsBytes(us[..m]) + us[m].Bytes()
            && EndsInEscape(us) == (if us[m].Raw? then us[m].c == 0x1b else EndsInEscape(us[..m]))
            && Leaked(env, s, us) ==
               if us[m].Wide? then WithCharacter(env, Leaked(env, s, us[..m]), us[m].v) else Leaked(env, s, us[..m])
  {
    hide WithCharacter;
  }

  /** One more piece of the text. */
  lemma UnitPut(env: Env, t: State, us: seq<Unit>, u: State)
    requires env.Valid() && t.Valid() && u.Valid() && !t.parser.discardNext && us != [] && OscText(us)
    requires OscText(us[..|us| - 1]) && us[|us| - 1].Valid() && OscState(env, t, us[..|us| - 1], u)
    ensures OscState(env, t, us, PutBytes(env, u, us[|us| - 1].Bytes()))
  {
    hide PutByte, PutBytes, PlainByte, WithCharacter, Utf8.Encode, OscText, EndsInEscape, Leaked, Env.Valid,
         Parser.Valid,
         View.Valid;
    ScreenOk(t);
    UnitsLast(env, t.view.screen, us);
    match us[|us| - 1]
    case Wide(v) =>
      CharacterRun(env, u, v);
    case Raw(c) =>
      PutOne(env, u, c);
      PlainPut(env, u, c);
      OscBytePut(env, u, c);
  }

  // ----- texts -----

  /** What a client writes. */
  datatype Item =
    | Character(v: nat)
    | Printable(c: Byte)
    | Format(c: Byte)
    | Shift(c: Byte)
    | Ignored(c: Byte)
    | Sequence(ns: seq<nat>, c: Byte)
    | Private(ns: seq<nat>, c: Byte)
    | Escape(c: Byte)
    | Designate(g: nat, c: Byte)
    | Command(text: seq<Unit>, bell: bool)
  {
    ghost predicate Valid() {
      match this
      case Character(v) => 0x80 <= v <= 0x10FFFF
      case Printable(c) => 0x20 <= c <= 0x7e
      case Format(c) => IsFormat(c)
      case Shift(c) => c == 14 || c == 15
      case Ignored(c) => c == 0 || c == 7 || c == 0x7f
      case Sequence(_, c) => FinalByte(c)
      case Private(_, c) => FinalByte(c)
      case Escape(c) => ShortEscape(c)
      case Designate(g, c) => g < 2 && 0x20 <= c <= 0x7e
      case Command(text, _) => OscText(text)
    }

    ghost function Bytes(): seq<Byte>
      requires Valid()
    {
      match this
      case Character(v) => Utf8.Encode(v)
      case Printable(c) => [c]
      case Format(c) => [c]
      case Shift(c) => [c]
      case Ignored(c) => [c]
      case Sequence(ns, c) => SequenceBytes(ns, c)
      case Private(ns, c) => PrivateBytes(ns, c)
      case Escape(c) => [0x1b] + [c]
      case Designate(g, c) => [0x1b] + ([0x28 + g] + [c])
      case Command(text, bell) => CommandBytes(UnitsBytes(text), bell)
    }
  }

  lemma HoldingValid(ns: seq<nat>)
    ensures Holding(ns).Valid()
  {
  }

  /** The screen after an item that does nothing else. */
  ghost function Drawn(env: Env, v: View, i: Item): (r: Screen)
    requires env.Valid() && v.Valid() && i.Valid() && (i.Character? || i.Printable? || i.Format? || i.Command?)
    ensures v.screen.SameShape(r)
  {
    match i
    case Character(cp) => WithCharacter(env, v.screen, cp)
    case Printable(c) => Printed(v.screen, v.insertMode, GlyphOf(c, SpecialGlyph(env, v, c)))
    case Format(c) => Formatted(c, v.screen)
    case Command(text, _) => Leaked(env, v.screen, text)
  }

  lemma SameShapeValid(v: View, s: Screen)
    requires v.Valid() && v.screen.SameShape(s)
    ensures v.WithScreen(s).Valid()
  {
  }

  /** What an item does, without any parser. */
  ghost function Applied(env: Env, v: View, i: Item): (r: View)
    requires env.Valid() && v.Valid() && v.screen.scrollOn && i.Valid()
    ensures r.Valid() && r.screen.scrollOn && (i != Escape(0x37) ==> r.saved == v.saved)
  {
    match i
    case Shift(c) => v.(charset := 15 - c)
    case Ignored(_) => v
    case Sequence(ns, c) => HoldingValid(ns); AfterSequence(env, v, c as char, Holding(ns))
    case Private(ns, c) => HoldingValid(ns); AfterPrivate(v, c as char, Holding(ns))
    case Escape(c) => AfterEscape(v, c as char)
    case Designate(g, c) => Redesignated(v, g, c)
    case _ => SameShapeValid(v, Drawn(env, v, i)); v.WithScreen(Drawn(env, v, i))
  }

  lemma SingleRun(env: Env, t: State, i: Item)
    requires env.Valid() && t.Valid() && t.parser.Idle() && i.Valid()
    requires i.Printable? || i.Format? || i.Shift? || i.Ignored?
    ensures PutBytes(env, t, i.Bytes()) == t.(view := Applied(env, t.view, i))
  {
    hide PutByte, PutBytes, Formatted, Printed;
    PutOne(env, t, i.c);
    PlainPut(env, t, i.c);
  }

  /** Every item does through the byte interface what it stands for, and leaves the parser idle. */
  lemma ItemRun(env: Env, t: State, i: Item)
    requires env.Valid() && t.Valid() && t.parser.Idle() && i.Valid()
    ensures var r := PutBytes(env, t, i.Bytes()); r.parser.Idle() && r.view == Applied(env, t.view, i)
  {
    hide PutByte, PutBytes, PlainByte, AfterSequence, AfterPrivate, AfterEscape, SequenceBytes, PrivateBytes, Formatted,
         Printed, WithCharacter, Redesignated, SpecialGlyph;
    match i
    case Character(v) => CharacterRun(env, t, v);
    case Sequence(ns, c) => SequenceRun(env, t, ns, c);
    case Private(ns, c) => PrivateRun(env, t, ns, c);
    case Escape(c) => EscapeRun(env, t, c);
    case Designate(g, c) => DesignateRun(env, t, g, c);
    case Command(text, bell) => OscRun(env, t, text, bell);
    case _ => SingleRun(env, t, i);
  }

  ghost predicate ValidItems(items: seq<Item>) {
    forall k :: 0 <= k < |items| ==> items[k].Valid()
  }

  ghost function ItemsBytes(items: seq<Item>): seq<Byte>
    requires ValidItems(items)
  {
    if items == [] then [] else ItemsBytes(items[..|items| - 1]) + items[|items| - 1].Bytes()
  }

  ghost function AppliedAll(env: Env, v: View, items: seq<Item>): (r: View)
    requires env.Valid() && v.Valid() && v.screen.scrollOn && ValidItems(items)
    ensures r.Valid() && r.screen.scrollOn
    decreases |items|
  {
    if items == [] then v else Applied(env, AppliedAll(env, v, items[..|items| - 1]), items[|items| - 1])
  }

  /** Any text of characters, controls, escapes and control sequences does what its items do one after the other. */
  lemma {:induction false} TextRun(env: Env, t: State, items: seq<Item>)
    requires env.Valid() && t.Valid() && t.parser.Idle() && ValidItems(items)
    ensures var r := PutBytes(env, t, ItemsBytes(items)); r.parser.Idle() && r.view == AppliedAll(env, t.view, items)
    decreases |items|
  {
    hide PutByte, Applied, Item.Bytes, Item.Valid;
    if items != [] {
      var m := |items| - 1;
      TextRun(env, t, items[..m]);
      PutAdd(env, t, ItemsBytes(items[..m]), items[m].Bytes());
      ItemRun(env, PutBytes(env, t, ItemsBytes(items[..m])), items[m]);
    }
  }

  /** `flanterm_write` of such a text: the display shows what the items amount to. */
  method WriteText(terminal: Flanterm.Terminal, buf: seq<Byte>, ghost items: seq<Item>)
    requires terminal.Inv() && terminal.autoflush && terminal.Abs().parser.Idle()
    requires ValidItems(items) && buf == ItemsBytes(items)
    modifies terminal, terminal.fb, terminal.fb.queue, terminal.fb.slots, terminal.fb.grid, terminal.fb.framebuffer
    ensures terminal.Inv() && terminal.autoflush && terminal.Abs().parser.Idle()
    ensures terminal.Abs().view == AppliedAll(terminal.env, old(terminal.Abs().view), items)
    ensures terminal.fb.ShowsScreen(AppliedAll(terminal.env, old(terminal.Abs().view), items).screen)
  {
    hide Flanterm.Terminal.BackendOk, Flanterm.Terminal.Abs, PutBytes, AppliedAll, ItemsBytes;
    ghost var t := terminal.Abs();
    StateValid(terminal);
    TextRun(terminal.env, t, items);
    terminal.Write(buf);
  }

  lemma StateValid(terminal: Flanterm.Terminal)
    requires terminal.Inv()
    ensures terminal.env.Valid() && terminal.Abs().Valid()
  {
  }

  // ----- plain text -----

  /** Printable characters, neither inserting nor in the special character set, are typed one after the other. */
  lemma {:induction false} PlainText(env: Env, v: View, bs: seq<Byte>)
    requires env.Valid() && v.Valid() && v.screen.scrollOn && !v.insertMode && v.charsets[v.charset] != 1
    requires forall k :: 0 <= k < |bs| ==> 0x20 <= bs[k] <= 0x7e
    ensures ValidItems(Printables(bs)) && ItemsBytes(Printables(bs)) == bs
    ensures AppliedAll(env, v, Printables(bs)) == v.WithScreen(TypeAll(v.screen, bs))
    decreases |bs|
  {
    hide Screen.Typed, Applied, Env.Valid, View.Valid, ItemsBytes, Item.Valid;
    PrintablesBytes(bs);
    if bs != [] {
      var m := |bs| - 1;
      PlainText(env, v, bs[..m]);
      assert Printables(bs)[..m] == Printables(bs[..m]);
      PrintableTyped(env, AppliedAll(env, v, Printables(bs[..m])), bs[m]);
    }
  }

  /** The same through the byte interface: what typing means is then known for every text. */
  lemma PlainTextRun(env: Env, t: State, bs: seq<Byte>)
    requires env.Valid() && t.Valid() && t.parser.Idle() && !t.view.insertMode && t.view.charsets[t.view.charset] != 1
    requires forall k :: 0 <= k < |bs| ==> 0x20 <= bs[k] <= 0x7e
    ensures var r := PutBytes(env, t, bs); r.parser.Idle() && r.view == t.view.WithScreen(TypeAll(t.view.screen, bs))
  {
    hide PutBytes, AppliedAll, ItemsBytes, Item.Valid, TypeAll;
    PlainText(env, t.view, bs);
    TextRun(env, t, Printables(bs));
  }

  lemma {:induction false} PrintablesBytes(bs: seq<Byte>)
    requires forall k :: 0 <= k < |bs| ==> 0x20 <= bs[k] <= 0x7e
    ensures ValidItems(Printables(bs)) && ItemsBytes(Printables(bs)) == bs
    decreases |bs|
  {
    if bs != [] {
      var m := |bs| - 1;
      PrintablesBytes(bs[..m]);
      assert Printables(bs)[..m] == Printables(bs[..m]);
      assert bs[..m] + [bs[m]] == bs;
    }
  }

  lemma PrintableTyped(env: Env, v: View, c: Byte)
    requires env.Valid() && v.Valid() && v.screen.scrollOn && !v.insertMode && v.charsets[v.charset] != 1
    requires 0x20 <= c <= 0x7e
    ensures Printable(c).Valid() && Applied(env, v, Printable(c)) == v.WithScreen(v.screen.Typed(c))
  {
    hide Screen.Typed;
  }

  function Printables(bs: seq<Byte>): seq<Item> {
    seq(|bs|, i requires 0 <= i < |bs| => Printable(bs[i]))
  }

  // ----- saving and restoring -----

  lemma {:induction false} SavedKept(env: Env, v: View, items: seq<Item>)
    requires env.Valid() && v.Valid() && v.screen.scrollOn && ValidItems(items) && Escape(0x37) !in items
    ensures AppliedAll(env, v, items).saved == v.saved
    decreases |items|
  {
    hide Applied;
    if items != [] {
      SavedKept(env, v, items[..|items| - 1]);
    }
  }

  /** ESC 7, any text that does not save again, ESC 8: cursor, colours, attributes and character set are back. */
  lemma SaveRestore(env: Env, v: View, items: seq<Item>)
    requires env.Valid() && v.Valid() && v.screen.scrollOn && ValidItems(items) && Escape(0x37) !in items
    ensures Escape(0x37).Valid() && Escape(0x38).Valid()
    ensures var w := Applied(env, AppliedAll(env, Applied(env, v, Escape(0x37)), items), Escape(0x38));
            && w.Text() == v.Text() && w.attributes == v.attributes && w.charset == v.charset
            && w.screen.cursorX == v.screen.cursorX && w.screen.cursorY == v.screen.cursorY
  {
    var a := Applied(env, v, Escape(0x37));
    assert a.saved == Saved(v.Text(), v.charset, v.screen.cursorX, v.screen.cursorY);
    SavedKept(env, a, items);
  }

  // ----- every byte string -----

  /** In every state that any bytes lead to: at most 16 values, room for a pending digit, a scroll region that is not
      empty and inside the screen, scrolling enabled, palette indices none or below 8, reported positions on screen. */
  lemma AlwaysValid(env: Env, t: State, bs: seq<Byte>)
    requires env.Valid() && t.Valid()
    ensures var r := PutBytes(env, t, bs);
            && r.parser.params.count <= 16 && (r.parser.params.digit ==> r.parser.params.count < 16)
            && r.view.screen.top < r.view.screen.bottom <= r.view.screen.rows && r.view.screen.scrollOn
            && NONE <= r.view.attributes.primary < 8 && NONE <= r.view.attributes.background < 8
            && (forall k :: 0 <= k < |r.view.reports| ==>
                  1 <= r.view.reports[k].x <= r.view.screen.cols && 1 <= r.view.reports[k].y <= r.view.screen.rows)
  {
    hide PutBytes;
    assert PutBytes(env, t, bs).Valid();
  }

  /** CAN and SUB end whatever is under way but leave the mark of a private sequence, so the parser is idle exactly when
      there is none. */
  lemma CancelKeepsPrivate(env: Env, t: State, c: Byte)
    requires env.Valid() && t.Valid() && (c == 0x18 || c == 0x1a)
    ensures Resting(PutByte(env, t, c).parser) && PutByte(env, t, c).parser.decPrivate == t.parser.decPrivate
    ensures PutByte(env, t, c).parser.Idle() <==> !t.parser.decPrivate
    ensures PutByte(env, t, c).view == t.view
  {
  }

  /** A cancelled private sequence makes the next sequence private, whatever it is. */
  lemma PrivateAfterCancel(env: Env, t: State, c: Byte, ns: seq<nat>, f: Byte)
    requires env.Valid() && t.Valid() && (c == 0x18 || c == 0x1a) && t.parser.decPrivate && FinalByte(f)
    ensures Holding(ns).Valid()
    ensures var r := PutBytes(env, t, [c] + SequenceBytes(ns, f));
            r.parser.Idle() && r.view == AfterPrivate(t.view, f as char, Holding(ns))
  {
    hide PutByte, PutBytes, SequenceBytes, AfterSequence, AfterPrivate, Holding;
    CancelKeepsPrivate(env, t, c);
    PutFirst(env, t, c, SequenceBytes(ns, f));
    SequenceRun(env, PutByte(env, t, c), ns, f);
  }

  /** The byte after an eight-bit CSI is swallowed, instead of being the first of the sequence, exactly when it is
      not CAN or SUB, which cancel, or a byte that leads a character. */
  lemma EightBitSwallows(env: Env, t: State, c: Byte)
    requires env.Valid() && t.Valid() && t.parser.Idle()
    ensures PutByte(env, PutByte(env, t, 0x9b), c) == t.(parser := Within(t.parser, 1, false, Fresh())) <==>
            !(c == 0x18 || c == 0x1a || 0xc0 <= c <= 0xf7)
  {
    hide PlainByte, Utf8.Feed;
    PlainPut(env, t, 0x9b);
    var u := t.(parser := t.parser.(csi := true, escapeOffset := 0, escape := true));
    CsiStarts(env, t);
    if c == 0x18 || c == 0x1a {
      CancelKeepsPrivate(env, u, c);
    } else if 0xc0 <= c <= 0xf7 {
      LeadQuiet(u.parser.unicode, c);
      FeedPut(env, u, c);
    } else {
      PlainPut(env, u, c);
      CsiSwallows(env, u, c);
    }
  }

  lemma CsiStarts(env: Env, t: State)
    requires env.Valid() && t.Valid() && t.parser.Idle()
    ensures PlainByte(env, t, 0x9b) == t.(parser := t.parser.(csi := true, escapeOffset := 0, escape := true))
  {
  }

  lemma CsiSwallows(env: Env, t: State, c: Byte)
    requires env.Valid() && t.Valid() && t.parser.escape && t.parser.csi && t.parser.escapeOffset == 0
    ensures PlainByte(env, t, c) ==
            t.(parser := t.parser.(csi := false, escapeOffset := 1, params := Fresh(), controlSequence := true))
  {
  }

  lemma LeadQuiet(p: Utf8.Pending, c: Byte)
    requires p.remaining == 0 && 0xc0 <= c <= 0xf7
    ensures Utf8.Feed(p, c).1.Quiet?
  {
  }
}
