/** Short byte strings that do not do what they should. */
module TerminalExamples {
  import opened BitStream
  import opened Bits
  import opened PlainScreen
  import opened ScreenEdit
  import opened Parameters
  import opened Sgr
  import opened TerminalSpec
  import opened TerminalRuns
  import opened ScreenExamples
  import Utf8

  /** A terminal of one row with the letters "ab", the cursor on "a" and nothing selected. */
  function Small(): State {
    State(Parser(false, false, false, false, false, false, false, 0, Fresh(), Utf8.Pending(0, 0), 0),
          View(Page(1, 2, [97, 98], 0, 0, 1).(scrollOn := true), Attributes(false, false, false, NONE, NONE), 0, 0,
               Saved(Colours(0, 0, false, false, false, 0, 0), 0, 0, 0), false, [0, 1], 0, []))
  }

  lemma SmallValid()
    ensures Small().Valid() && Small().parser.Idle()
  {
  }

  /** The colour red, which ESC [ 31 m selects. */
  lemma RedSelects(env: Env)
    requires env.Valid()
    ensures SmallIsValid() && Holding([31]).Valid()
    ensures AfterSequence(env, Small().view, 'm', Holding([31])).attributes.primary == 1
    ensures AfterPrivate(Small().view, 'm', Holding([31])) == Small().view
  {
    SmallValid();
    HoldingValid([31]);
    var v := Small().view;
    var vs := Completed(Holding([31]), Missing('m'));
    assert vs[..1] == [31];
    assert [31][1..] == [];
    assert Listed(env.palette, env.table, v.Text(), [31]) == Step(env.palette, v.Text(), 31);
  }

  ghost predicate SmallIsValid() {
    Small().Valid()
  }

  /** ESC [ ? CAN ESC [ 31 m does not select red: the second sequence is taken as private. */
  lemma CancelLosesColour(env: Env)
    requires env.Valid()
    ensures SmallIsValid()
    ensures PutBytes(env, Small(), ([0x1b, 0x5b] + [0x3f]) + ([0x18] + SequenceBytes([31], 0x6d))).view == Small().view
    ensures PutBytes(env, Small(), SequenceBytes([31], 0x6d)).view.attributes.primary == 1
  {
    hide PutByte, PutBytes, PlainByte, SequenceBytes, AfterSequence, AfterPrivate, Holding, Small, State.Valid;
    SmallValid();
    RedSelects(env);
    var t := Small();
    SequenceStarts(env, t);
    PutAdd(env, t, [0x1b, 0x5b], [0x3f]);
    var u := t.(parser := Within(t.parser, 1, false, Fresh()));
    PutOne(env, u, 0x3f);
    PlainPut(env, u, 0x3f);
    PrivateMark(env, u);
    var w := PutBytes(env, t, [0x1b, 0x5b] + [0x3f]);
    PutAdd(env, t, [0x1b, 0x5b] + [0x3f], [0x18] + SequenceBytes([31], 0x6d));
    PrivateAfterCancel(env, w, 0x18, [31], 0x6d);
    SequenceRun(env, t, [31], 0x6d);
  }

  /** ESC ] é BEL draws the letter over "a". */
  lemma TitleIsDrawn(env: Env)
    requires env.Valid() && env.cp437(0xe9) == 130
    ensures SmallIsValid() && OscText([Wide(0xe9)])
    ensures PutBytes(env, Small(), CommandBytes(UnitsBytes([Wide(0xe9)]), true)).view.screen.cells ==
            [Letter(130), Letter(98)]
  {
    hide PutBytes, CommandBytes, UnitsBytes, Screen.Typed;
    SmallValid();
    var us := [Wide(0xe9)];
    assert us[..0] == [];
    OscRun(env, Small(), us, true);
    var s := Small().view.screen;
    assert Leaked(env, s, us) == WithCharacter(env, s, 0xe9);
    assert Start(s, 0) == 0;
    TypedInside(s, 130);
  }

  /** 0x9b 3 1 m is bold instead of red: the first digit is swallowed. */
  lemma DigitIsSwallowed(env: Env)
    requires env.Valid()
    ensures SmallIsValid() && Holding([1]).Valid()
    ensures PutBytes(env, Small(), ([0x9b] + [0x33]) + (Serialise([1]) + [0x6d])).view ==
            AfterSequence(env, Small().view, 'm', Holding([1]))
    ensures Serialise([1]) == [0x31]
  {
    hide PutByte, PutBytes, AfterSequence, AfterPrivate, Holding, Small, State.Valid;
    SmallValid();
    HoldingValid([1]);
    var t := Small();
    PutFirst(env, t, 0x9b, [0x33]);
    PutOne(env, PutByte(env, t, 0x9b), 0x33);
    EightBitSwallows(env, t, 0x33);
    PutAdd(env, t, [0x9b] + [0x33], Serialise([1]) + [0x6d]);
    SequenceEnds(env, t.(parser := Within(t.parser, 1, false, Fresh())), [1], 0x6d);
  }
}
