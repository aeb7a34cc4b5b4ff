/** Select Graphic Rendition (section 8.3.117 of ECMA-48): colours, brightness and reverse video. */
module Sgr {
  import opened Bits
  import PlainScreen

  const NONE: int := -1

  datatype Palette = Palette(
    ansi: seq<nat>, bright: seq<nat>, defaultFg: nat, defaultFgBright: nat, defaultBgBright: nat)
  {
    ghost predicate Valid() {
      |ansi| == 8 && |bright| == 8
    }
  }

  /** The physical colours, which are swapped while `reverse` is set, and what is known about them. */
  datatype Colours = Colours(
    fg: nat, bg: nat, reverse: bool, bold: bool, bgBold: bool, primary: int, background: int)
  {
    ghost predicate Valid() {
      NONE <= primary < 8 && NONE <= background < 8
    }

    function Swapped(): Colours {
      this.(fg := bg, bg := fg)
    }

    /** The pair before reverse video. */
    function Logical(): Colours {
      if reverse then Swapped().(reverse := false) else this
    }
  }

  /** Sets the physical plane that currently shows the foreground (or the background). */
  function SetPlane(c: Colours, front: bool, colour: nat): Colours {
    if front then c.(fg := colour) else c.(bg := colour)
  }

  function Pick(p: Palette, bright: bool, index: int): nat
    requires p.Valid() && 0 <= index < 8
  {
    if bright then p.bright[index] else p.ansi[index]
  }

  /** The default of a physical plane: foreground and background have different ones. */
  function Default(p: Palette, front: bool, bright: bool): nat {
    if front then (if bright then p.defaultFgBright else p.defaultFg)
    else (if bright then p.defaultBgBright else PlainScreen.TRANSPARENT)
  }

  function Reset(p: Palette): Colours {
    Colours(p.defaultFg, PlainScreen.TRANSPARENT, false, false, false, NONE, NONE)
  }

  /** 1 and 22 (or 5 and 25): brightness of the foreground (or background). */
  function Brighten(p: Palette, c: Colours, front: bool, on: bool): Colours
    requires p.Valid() && c.Valid()
  {
    var d := if front then c.(bold := on) else c.(bgBold := on);
    var index := if front then c.primary else c.background;
    var plane := front != c.reverse;
    if index != NONE then SetPlane(d, plane, Pick(p, on, index)) else SetPlane(d, plane, Default(p, plane, on))
  }

  /** 30 to 37 and 40 to 47. */
  function Select(p: Palette, c: Colours, front: bool, index: nat): Colours
    requires p.Valid() && index < 8
  {
    var d := if front then c.(primary := index) else c.(background := index);
    var plane := front != c.reverse;
    var bright :=
      if plane then (c.bold && !c.reverse) || (c.bgBold && c.reverse)
      else (c.bold && c.reverse) || (c.bgBold && !c.reverse);
    SetPlane(d, plane, Pick(p, bright, index))
  }

  /** 90 to 97 and 100 to 107. */
  function SelectBright(p: Palette, c: Colours, front: bool, index: nat): Colours
    requires p.Valid() && index < 8
  {
    var d := if front then c.(primary := index) else c.(background := index);
    SetPlane(d, front != c.reverse, p.bright[index])
  }

  /** 39 and 49: the planes are put in their logical places, set and swapped back. */
  function SelectDefault(p: Palette, c: Colours, front: bool): Colours {
    var d := if front then c.(primary := NONE) else c.(background := NONE);
    var e := if c.reverse then d.Swapped() else d;
    var f := SetPlane(e, front, Default(p, front, if front then c.bold else c.bgBold));
    if c.reverse then f.Swapped() else f
  }

  function Reverse(c: Colours, on: bool): Colours {
    if c.reverse != on then c.Swapped().(reverse := on) else c
  }

  /** One parameter of `sgr`. Parameters that are not listed have no effect; 38 and 48 are not parameters of this
      function. */
  function Step(p: Palette, c: Colours, v: nat): (d: Colours)
    requires p.Valid() && c.Valid()
    ensures d.Valid()
  {
    if v == 0 then Reset(p)
    else if v == 1 then Brighten(p, c, true, true)
    else if v == 5 then Brighten(p, c, false, true)
    else if v == 22 then Brighten(p, c, true, false)
    else if v == 25 then Brighten(p, c, false, false)
    else if 30 <= v <= 37 then Select(p, c, true, v - 30)
    else if 40 <= v <= 47 then Select(p, c, false, v - 40)
    else if 90 <= v <= 97 then SelectBright(p, c, true, v - 90)
    else if 100 <= v <= 107 then SelectBright(p, c, false, v - 100)
    else if v == 39 then SelectDefault(p, c, true)
    else if v == 49 then SelectDefault(p, c, false)
    else if v == 7 then Reverse(c, true)
    else if v == 27 then Reverse(c, false)
    else c
  }

  /** A parameter list; the empty list is a reset. */
  function Steps(p: Palette, c: Colours, vs: seq<nat>): (d: Colours)
    requires p.Valid() && c.Valid()
    ensures d.Valid()
  {
    if vs == [] then c else Step(p, Steps(p, c, vs[..|vs| - 1]), vs[|vs| - 1])
  }

  predicate Toggles(v: nat) {
    v == 7 || v == 27
  }

  predicate Brightness(v: nat) {
    v == 1 || v == 5 || v == 22 || v == 25
  }

  /** The palette index of the plane whose brightness a parameter changes. */
  function IndexOf(c: Colours, v: nat): int {
    if v == 1 || v == 22 then c.primary else c.background
  }

  /** Which colours `d` a parameter selects after `c`, in terms of the palette alone: the logical colours change in one
      plane and the reverse video mode is kept, except by 0, 7 and 27. A brightness change without a palette colour
      takes the default of the physical plane. 7 and 27 exchange the planes unless they are as asked already. */
  ghost predicate Selects(p: Palette, c: Colours, v: nat, d: Colours)
    requires p.Valid() && c.Valid()
  {
    var k, l := c.Logical(), d.Logical();
    if v == 0 then d == Colours(p.defaultFg, PlainScreen.TRANSPARENT, false, false, false, NONE, NONE)
    else if v == 7 || v == 27 then
      d == if c.reverse == (v == 7) then c else c.(fg := c.bg, bg := c.fg, reverse := v == 7)
    else
      && d.reverse == c.reverse
      && if 30 <= v <= 37 then l == k.(fg := if c.bold then p.bright[v - 30] else p.ansi[v - 30], primary := v - 30)
         else if 40 <= v <= 47 then
           l == k.(bg := if c.bgBold then p.bright[v - 40] else p.ansi[v - 40], background := v - 40)
         else if 90 <= v <= 97 then l == k.(fg := p.bright[v - 90], primary := v - 90)
         else if 100 <= v <= 107 then l == k.(bg := p.bright[v - 100], background := v - 100)
         else if v == 39 then l == k.(fg := if c.bold then p.defaultFgBright else p.defaultFg, primary := NONE)
         else if v == 49 then
           l == k.(bg := if c.bgBold then p.defaultBgBright else PlainScreen.TRANSPARENT, background := NONE)
         else if v == 1 then
           l == k.(bold := true, fg := if c.primary != NONE then p.bright[c.primary]
                                       else if c.reverse then p.defaultBgBright else p.defaultFgBright)
         else if v == 22 then
           l == k.(bold := false, fg := if c.primary != NONE then p.ansi[c.primary]
                                        else if c.reverse then PlainScreen.TRANSPARENT else p.defaultFg)
         else if v == 5 then
           l == k.(bgBold := true, bg := if c.background != NONE then p.bright[c.background]
                                         else if c.reverse then p.defaultFgBright else p.defaultBgBright)
         else if v == 25 then
           l == k.(bgBold := false, bg := if c.background != NONE then p.ansi[c.background]
                                          else if c.reverse then p.defaultFg else PlainScreen.TRANSPARENT)
         else l == k
  }

  /** Every parameter selects those colours, from every colours that may be selected before. */
  lemma StepSelects(p: Palette, c: Colours, v: nat)
    requires p.Valid() && c.Valid()
    ensures Selects(p, c, v, Step(p, c, v))
  {
    hide Brighten, Select, SelectBright, SelectDefault;
    if v == 1 || v == 22 {
      BrightenSelects(p, c, true, v == 1);
    } else if v == 5 || v == 25 {
      BrightenSelects(p, c, false, v == 5);
    } else if 30 <= v <= 37 {
      PaletteSelects(p, c, true, v - 30);
    } else if 40 <= v <= 47 {
      PaletteSelects(p, c, false, v - 40);
    } else if 90 <= v <= 97 {
      PaletteSelects(p, c, true, v - 90);
    } else if 100 <= v <= 107 {
      PaletteSelects(p, c, false, v - 100);
    } else if v == 39 || v == 49 {
      DefaultSelects(p, c, v == 39);
    }
  }

  lemma BrightenSelects(p: Palette, c: Colours, front: bool, on: bool)
    requires p.Valid() && c.Valid()
    ensures Selects(p, c, if front then (if on then 1 else 22) else (if on then 5 else 25), Brighten(p, c, front, on))
  {
  }

  lemma PaletteSelects(p: Palette, c: Colours, front: bool, index: nat)
    requires p.Valid() && c.Valid() && index < 8
    ensures Selects(p, c, if front then 30 + index else 40 + index, Select(p, c, front, index))
    ensures Selects(p, c, if front then 90 + index else 100 + index, SelectBright(p, c, front, index))
  {
  }

  lemma DefaultSelects(p: Palette, c: Colours, front: bool)
    requires p.Valid() && c.Valid()
    ensures Selects(p, c, if front then 39 else 49, SelectDefault(p, c, front))
  {
  }

  /** The colours are determined by that: two that a parameter selects are the same. */
  lemma SelectsOne(p: Palette, c: Colours, v: nat, d: Colours, e: Colours)
    requires p.Valid() && c.Valid() && Selects(p, c, v, d) && Selects(p, c, v, e)
    ensures d == e
  {
    SameLogical(d, e);
  }

  lemma SameLogical(d: Colours, e: Colours)
    ensures d == e <==> d.reverse == e.reverse && d.Logical() == e.Logical()
  {
    assert d == if d.reverse then d.Logical().Swapped().(reverse := true) else d.Logical();
    assert e == if e.reverse then e.Logical().Swapped().(reverse := true) else e.Logical();
  }

  /** Reverse video changes nothing but the order of the planes. */
  lemma ToggleIsInvisible(p: Palette, c: Colours, v: nat)
    requires p.Valid() && c.Valid() && Toggles(v)
    ensures Step(p, c, v).Logical() == c.Logical()
  {
  }

  /** Any other parameter does the same to the logical colours whether or not reverse video is on, provided that a
      brightness change finds a palette colour selected. */
  lemma StepIsLogical(p: Palette, c: Colours, v: nat)
    requires p.Valid() && c.Valid() && !Toggles(v)
    requires Brightness(v) ==> !c.reverse || IndexOf(c, v) != NONE
    ensures Step(p, c, v).Logical() == Step(p, c.Logical(), v)
  {
    hide Brighten, Select, SelectBright, SelectDefault;
    if v == 1 || v == 22 {
      BrightenLogical(p, c, true, v == 1);
    } else if v == 5 || v == 25 {
      BrightenLogical(p, c, false, v == 5);
    } else if 30 <= v <= 37 {
      SelectLogical(p, c, true, v - 30);
    } else if 40 <= v <= 47 {
      SelectLogical(p, c, false, v - 40);
    } else if 90 <= v <= 97 {
      SelectLogical(p, c, true, v - 90);
    } else if 100 <= v <= 107 {
      SelectLogical(p, c, false, v - 100);
    } else if v == 39 || v == 49 {
      DefaultLogical(p, c, v == 39);
    }
  }

  lemma BrightenLogical(p: Palette, c: Colours, front: bool, on: bool)
    requires p.Valid() && c.Valid() && (!c.reverse || (if front then c.primary else c.background) != NONE)
    ensures Brighten(p, c, front, on).Logical() == Brighten(p, c.Logical(), front, on)
  {
  }

  lemma SelectLogical(p: Palette, c: Colours, front: bool, index: nat)
    requires p.Valid() && c.Valid() && index < 8
    ensures Select(p, c, front, index).Logical() == Select(p, c.Logical(), front, index)
    ensures SelectBright(p, c, front, index).Logical() == SelectBright(p, c.Logical(), front, index)
  {
  }

  lemma DefaultLogical(p: Palette, c: Colours, front: bool)
    requires p.Valid() && c.Valid()
    ensures SelectDefault(p, c, front).Logical() == SelectDefault(p, c.Logical(), front)
  {
  }

  /** What a brightness change does to a plane without a palette colour: under reverse video it takes the default of
      the other plane, so it is visible exactly when the two defaults differ. */
  lemma BrightnessWithoutColour(p: Palette, c: Colours, v: nat)
    requires p.Valid() && c.Valid() && Brightness(v) && c.reverse && IndexOf(c, v) == NONE
    ensures Step(p, c, v).Logical() == Step(p, c.Logical(), v) <==>
            (if v == 1 || v == 5 then p.defaultFgBright == p.defaultBgBright
             else p.defaultFg == PlainScreen.TRANSPARENT)
  {
    var front, on := v == 1 || v == 22, v == 1 || v == 5;
    var a, b := Step(p, c, v).Logical(), Step(p, c.Logical(), v);
    assert a == Brighten(p, c, front, on).Logical();
    assert b == Brighten(p, c.Logical(), front, on);
    if front {
      assert a.fg == Default(p, false, on) && b.fg == Default(p, true, on);
    } else {
      assert a.bg == Default(p, true, on) && b.bg == Default(p, false, on);
    }
  }

  /** With the built-in colours, "bold" under reverse video turns the logical foreground grey instead of white. */
  lemma BrightnessExample(ansi: seq<nat>, bright: seq<nat>)
    requires |ansi| == 8 && |bright| == 8
    ensures var p := Palette(ansi, bright, 0xaaaaaa, 0xffffff, 0x555555);
            var c := Colours(PlainScreen.TRANSPARENT, 0xaaaaaa, true, false, false, NONE, NONE);
            Step(p, c, 1).Logical().fg == 0x555555 && Step(p, c.Logical(), 1).fg == 0xffffff
  {
  }

  /** The list without 7 and 27. */
  function Plain(vs: seq<nat>): seq<nat> {
    if vs == [] then []
    else Plain(vs[..|vs| - 1]) + (if Toggles(vs[|vs| - 1]) then [] else [vs[|vs| - 1]])
  }

  /** Whenever a brightness parameter comes up, its plane has a palette colour. */
  ghost predicate Coloured(p: Palette, c: Colours, vs: seq<nat>)
    requires p.Valid() && c.Valid()
  {
    forall k :: 0 <= k < |vs| && Brightness(vs[k]) ==> IndexOf(Steps(p, c, vs[..k]), vs[k]) != NONE
  }

  /** Inserting 7 and 27 anywhere in a parameter list leaves the logical colours, the brightness and the selected
      palette entries unchanged. */
  lemma {:induction false} ReverseVideoInvisible(p: Palette, c: Colours, vs: seq<nat>)
    requires p.Valid() && c.Valid() && Coloured(p, c, vs)
    ensures Steps(p, c, vs).Logical() == Steps(p, c.Logical(), Plain(vs))
    decreases |vs|
  {
    hide Step;
    if vs != [] {
      var m := |vs| - 1;
      var init, v := vs[..m], vs[m];
      forall k | 0 <= k < |init| && Brightness(init[k])
        ensures IndexOf(Steps(p, c, init[..k]), init[k]) != NONE
      {
        assert init[..k] == vs[..k] && init[k] == vs[k];
      }
      ReverseVideoInvisible(p, c, init);
      var d := Steps(p, c, init);
      if Toggles(v) {
        ToggleIsInvisible(p, d, v);
        assert Plain(init) + [] == Plain(init);
      } else {
        if Brightness(v) {
          assert IndexOf(Steps(p, c, vs[..m]), vs[m]) != NONE;
        }
        StepIsLogical(p, d, v);
        assert (Plain(init) + [v])[..|Plain(init)|] == Plain(init);
      }
    }
  }

  // ----- whole parameter lists -----

  /** A colour given by its three parts, cut to 32 bits. */
  function Direct(r: nat, g: nat, b: nat): nat {
    Low(Or(Or(Shl(r, 16), Shl(g, 8)), b), 32)
  }

  /** A colour of the 256-colour palette: the two base palettes and then `col256`, of which the source does not check
      the end; `table` is what the memory from its start on holds. */
  function Indexed(p: Palette, table: nat -> nat, i: nat): nat
    requires p.Valid()
  {
    if i < 16 then Pick(p, i >= 8, i % 8) else table(i - 16)
  }

  /** Three bytes of colour lie next to each other, red highest. */
  lemma DirectIs(r: nat, g: nat, b: nat)
    requires r < 256 && g < 256 && b < 256
    ensures Direct(r, g, b) == r * 65536 + g * 256 + b
  {
    hide Or, Shl, Low, Pow2;
    Pow2Values();
    ShlTimes(r, 16);
    ShlTimes(g, 8);
    OrShifted(g * 256, r, 16);
    ShlTimes(r * 256 + g, 8);
    OrShifted(b, r * 256 + g, 8);
    ShlPow2(16, 16);
    ShlTimes(Pow2(16), 16);
    LowSmall(r * 65536 + g * 256 + b, 32);
  }

  /** Or-ing a number onto one that is shifted past it adds them. */
  lemma OrShifted(low: nat, high: nat, k: nat)
    requires low < Pow2(k)
    ensures Or(Shl(high, k), low) == Shl(high, k) + low
  {
    hide Or, Shl, Pow2;
    OrComm(Shl(high, k), low);
    OrDisjoint(low, high, k);
  }

  /** The first sixteen colours of the large palette are those of the two small ones. */
  lemma IndexedIs(p: Palette, table: nat -> nat, i: nat)
    requires p.Valid()
    ensures Indexed(p, table, i) == if i < 8 then p.ansi[i] else if i < 16 then p.bright[i - 8] else table(i - 16)
  {
  }

  /** How many parameters 38 or 48 uses up. When too few are given, the rest of the list is dropped. */
  function ExtendedLength(vs: seq<nat>): (n: nat)
    requires |vs| > 0
    ensures 1 <= n <= |vs|
  {
    if |vs| >= 5 && vs[1] == 2 then 5
    else if |vs| >= 3 && vs[1] == 5 then 3
    else if |vs| >= 2 && vs[1] != 2 && vs[1] != 5 then 2
    else |vs|
  }

  /** 38 and 48 write the physical plane. */
  function Extended(p: Palette, table: nat -> nat, c: Colours, vs: seq<nat>): (d: Colours)
    requires p.Valid() && |vs| > 0
    ensures c.Valid() ==> d.Valid()
  {
    if |vs| >= 5 && vs[1] == 2 then SetPlane(c, vs[0] == 38, Direct(vs[2], vs[3], vs[4]))
    else if |vs| >= 3 && vs[1] == 5 then SetPlane(c, vs[0] == 38, Indexed(p, table, vs[2]))
    else c
  }

  /** The parameters of a list one after the other. */
  function Listed(p: Palette, table: nat -> nat, c: Colours, vs: seq<nat>): (d: Colours)
    requires p.Valid() && c.Valid()
    ensures d.Valid()
    decreases |vs|
  {
    if vs == [] then c
    else if vs[0] == 38 || vs[0] == 48 then Listed(p, table, Extended(p, table, c, vs), vs[ExtendedLength(vs)..])
    else Listed(p, table, Step(p, c, vs[0]), vs[1..])
  }

  /** `sgr`: an empty list is a reset. */
  function Rendition(p: Palette, table: nat -> nat, c: Colours, vs: seq<nat>): (d: Colours)
    requires p.Valid() && c.Valid()
    ensures d.Valid()
  {
    if vs == [] then Step(p, c, 0) else Listed(p, table, c, vs)
  }

  /** No 256-colour or direct colour among the parameters. */
  predicate PaletteOnly(vs: seq<nat>) {
    38 !in vs && 48 !in vs
  }

  lemma {:induction false} StepsFirst(p: Palette, c: Colours, v: nat, vs: seq<nat>)
    requires p.Valid() && c.Valid()
    ensures Steps(p, c, [v] + vs) == Steps(p, Step(p, c, v), vs)
    decreases |vs|
  {
    hide Step;
    if vs == [] {
      assert [v] + vs == [v];
      assert [v][..0] == [];
      assert Steps(p, c, []) == c;
    } else {
      var m := |vs| - 1;
      StepsFirst(p, c, v, vs[..m]);
      assert ([v] + vs)[..|vs|] == [v] + vs[..m];
    }
  }

  /** Without 38 and 48 each parameter stands for itself. */
  lemma {:induction false} ListedIsSteps(p: Palette, table: nat -> nat, c: Colours, vs: seq<nat>)
    requires p.Valid() && c.Valid() && PaletteOnly(vs)
    ensures Listed(p, table, c, vs) == Steps(p, c, vs)
    decreases |vs|
  {
    hide Step;
    if vs != [] {
      ListedIsSteps(p, table, Step(p, c, vs[0]), vs[1..]);
      StepsFirst(p, c, vs[0], vs[1..]);
      assert [vs[0]] + vs[1..] == vs;
    }
  }

  lemma {:induction false} PlainPalette(vs: seq<nat>)
    requires PaletteOnly(vs)
    ensures PaletteOnly(Plain(vs))
    decreases |vs|
  {
    if vs != [] {
      PlainPalette(vs[..|vs| - 1]);
    }
  }

  /** The same for `sgr` itself, whose empty list is a reset: without 7 and 27 the list has the same effect exactly when
      something is left of it, or nothing was there in the first place, or the colours are those of a reset anyway. */
  lemma RenditionInvisible(p: Palette, table: nat -> nat, c: Colours, vs: seq<nat>)
    requires p.Valid() && c.Valid() && PaletteOnly(vs) && Coloured(p, c, vs)
    ensures Rendition(p, table, c, vs).Logical() == Rendition(p, table, c.Logical(), Plain(vs)) <==>
            Plain(vs) != [] || vs == [] || c.Logical() == Reset(p)
    ensures vs != [] && Plain(vs) == [] ==> Rendition(p, table, c, vs).Logical() == c.Logical()
  {
    hide Step, Coloured;
    ReverseVideoInvisible(p, c, vs);
    PlainPalette(vs);
    ListedIsSteps(p, table, c, vs);
    ListedIsSteps(p, table, c.Logical(), Plain(vs));
    ResetLogical(p, c);
    ResetLogical(p, c.Logical());
  }

  lemma ResetLogical(p: Palette, c: Colours)
    requires p.Valid() && c.Valid()
    ensures Step(p, c, 0) == Reset(p) && Reset(p).Logical() == Reset(p)
  {
  }

  /** Reverse video alone, from any colours but those of a reset: taken out of the list it would leave a reset. */
  lemma ReverseAloneExample(p: Palette, table: nat -> nat)
    requires p.Valid() && p.defaultFg != 1
    ensures var c := Colours(1, 2, false, false, false, NONE, NONE);
            Rendition(p, table, c, [7]).Logical() == c && Rendition(p, table, c, Plain([7])) == Reset(p) != c
  {
    assert [7][1..] == [];
    assert [7][..0] == [];
  }

  lemma ListedUnfold(p: Palette, table: nat -> nat, c: Colours, vs: seq<nat>)
    requires p.Valid() && c.Valid() && |vs| > 0 && (vs[0] == 38 || vs[0] == 48)
    ensures Listed(p, table, c, vs) == Listed(p, table, Extended(p, table, c, vs), vs[ExtendedLength(vs)..])
    ensures Listed(p, table, c, []) == c
  {
    hide Extended, ExtendedLength;
  }

  /** How a list goes on after 38 or 48: behind the colour that is given, behind the kind if that is neither 2 nor 5,
      and not at all if the colour is cut short. */
  lemma ListedExtended(p: Palette, table: nat -> nat, c: Colours, vs: seq<nat>)
    requires p.Valid() && c.Valid() && |vs| > 0 && (vs[0] == 38 || vs[0] == 48)
    ensures var d, front := Listed(p, table, c, vs), vs[0] == 38;
            && (|vs| >= 5 && vs[1] == 2 ==>
                  d == Listed(p, table, SetPlane(c, front, Direct(vs[2], vs[3], vs[4])), vs[5..]))
            && (|vs| >= 3 && vs[1] == 5 ==>
                  d == Listed(p, table, SetPlane(c, front, Indexed(p, table, vs[2])), vs[3..]))
            && (|vs| >= 2 && vs[1] != 2 && vs[1] != 5 ==> d == Listed(p, table, c, vs[2..]))
            && (|vs| == 1 || (vs[1] == 2 && |vs| < 5) || (vs[1] == 5 && |vs| < 3) ==> d == c)
  {
    hide Direct, Indexed, Listed;
    ListedUnfold(p, table, c, vs);
    assert vs[|vs|..] == [];
  }

  /** The parameters that 38 or 48 needs are there. */
  predicate Given(vs: seq<nat>) {
    (|vs| >= 5 && vs[1] == 2) || (|vs| >= 3 && vs[1] == 5)
  }

  /** The colour that they name. */
  function Named(p: Palette, table: nat -> nat, vs: seq<nat>): nat
    requires p.Valid() && Given(vs)
  {
    if |vs| >= 5 && vs[1] == 2 then Direct(vs[2], vs[3], vs[4]) else Indexed(p, table, vs[2])
  }

  /** A direct or indexed colour under reverse video: 38 sets the plane that shows the background, 48 the one that shows
      the foreground. The logical colours are those without reverse video exactly when both planes already have the
      colour that is written. */
  lemma ExtendedUnderReverse(p: Palette, table: nat -> nat, c: Colours, vs: seq<nat>)
    requires p.Valid() && c.Valid() && c.reverse && Given(vs)
    ensures var colour := Named(p, table, vs);
            Extended(p, table, c, vs).Logical() == Extended(p, table, c.Logical(), vs) <==>
            c.fg == colour && c.bg == colour
  {
    hide Direct, Indexed;
  }

  /** Pure red as direct foreground under reverse video, from the built-in colours: the logical background turns red. */
  lemma ExtendedExample(ansi: seq<nat>, bright: seq<nat>, table: nat -> nat)
    requires |ansi| == 8 && |bright| == 8
    ensures var p := Palette(ansi, bright, 0xaaaaaa, 0xffffff, 0x555555);
            var c := Colours(PlainScreen.TRANSPARENT, 0xaaaaaa, true, false, false, NONE, NONE);
            var d := Listed(p, table, c, [38, 2, 255, 0, 0]).Logical();
            d.fg == 0xaaaaaa && d.bg == Direct(255, 0, 0)
  {
    hide Direct;
    var vs := [38, 2, 255, 0, 0];
    assert vs[5..] == [];
  }
}
