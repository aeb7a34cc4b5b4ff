/** UTF-8 (section 3 of RFC 3629): the two decoders of the console. */
module Utf8 {
  import opened Bits
  import opened BitStream

  function Encode(c: nat): (b: seq<Byte>)
    requires c <= 0x10FFFF
    ensures 1 <= |b| <= 4
  {
    if c < 0x80 then [c]
    else if c < 0x800 then [0xC0 + c / 64, 0x80 + c % 64]
    else if c < 0x10000 then [0xE0 + c / 4096, 0x80 + c / 64 % 64, 0x80 + c % 64]
    else [0xF0 + c / 262144, 0x80 + c / 4096 % 64, 0x80 + c / 64 % 64, 0x80 + c % 64]
  }

  function EncodeAll(cs: seq<nat>): seq<Byte>
    requires forall k :: 0 <= k < |cs| ==> cs[k] <= 0x10FFFF
  {
    if cs == [] then [] else Encode(cs[0]) + EncodeAll(cs[1..])
  }

  /** Joining bit fields with `|`: a field of `6 * n` low bits below the bits of `high`. */
  function Join(high: nat, low: nat, n: nat): nat {
    Or(Shl(high, 6 * n), low)
  }

  lemma JoinIsSum(high: nat, low: nat, n: nat)
    requires low < Pow2(6 * n)
    ensures Join(high, low, n) == Shl(high, 6 * n) + low
  {
    OrComm(Shl(high, 6 * n), low);
    OrDisjoint(low, high, 6 * n);
  }

  lemma ShlSix(x: nat)
    ensures Shl(x, 6) == 64 * x && Shl(x, 12) == 4096 * x && Shl(x, 18) == 262144 * x
    ensures Pow2(6) == 64 && Pow2(12) == 4096 && Pow2(18) == 262144
  {
    hide Shl, Pow2;
    ShlTimes(x, 6);
    ShlTimes(x, 12);
    ShlTimes(x, 18);
    Powers();
  }

  lemma Powers()
    ensures Pow2(6) == 64 && Pow2(12) == 4096 && Pow2(18) == 262144
  {
    Pow2Values();
    assert Pow2(18) == 2 * Pow2(17) && Pow2(17) == 2 * Pow2(16);
  }

  // ----- ssfn_utf8 -----

  /** How many bytes the leading byte announces to `ssfn_utf8`. */
  function Length(b: Byte): nat {
    if b / 128 % 2 == 0 then 1
    else if b / 32 % 2 == 0 then 2
    else if b / 16 % 2 == 0 then 3
    else if b / 8 % 2 == 0 then 4
    else 1
  }

  /** The number that `ssfn_utf8` forms from a leading byte and the bytes after it. */
  function Value(s: seq<Byte>, at: nat): nat
    requires at < |s| && at + Length(s[at]) <= |s|
  {
    var b := s[at];
    if b / 128 % 2 == 0 then b
    else if b / 32 % 2 == 0 then 64 * (b % 32 as int) + s[at + 1] % 64
    else if b / 16 % 2 == 0 then 4096 * (b % 16 as int) + 64 * (s[at + 1] % 64 as int) + s[at + 2] % 64
    else if b / 8 % 2 == 0 then
      262144 * (b % 8 as int) + 4096 * (s[at + 1] % 64 as int) + 64 * (s[at + 2] % 64 as int) + s[at + 3] % 64
    else 0
  }

  /** `ssfn_utf8`: decodes the character at `at` and moves past it. The bytes are not checked, so the string must hold
      as many as the leading byte announces. */
  method DecodeAt(s: seq<Byte>, at: nat) returns (c: nat, next: nat)
    requires at < |s| && at + Length(s[at]) <= |s|
    ensures c == Value(s, at) && next == at + Length(s[at])
  {
    hide Or, Shl, Join;
    next := at;
    c := s[at];
    if s[at] / 128 % 2 != 0 {
      if s[at] / 32 % 2 == 0 {
        c := Join(s[at] % 32, s[at + 1] % 64, 1);
        Fields2(s[at] % 32, s[at + 1] % 64);
        next := next + 1;
      } else if s[at] / 16 % 2 == 0 {
        c := Join(Join(s[at] % 16, s[at + 1] % 64, 1), s[at + 2] % 64, 1);
        Fields3(s[at] % 16, s[at + 1] % 64, s[at + 2] % 64);
        next := next + 2;
      } else if s[at] / 8 % 2 == 0 {
        c := Join(Join(Join(s[at] % 8, s[at + 1] % 64, 1), s[at + 2] % 64, 1), s[at + 3] % 64, 1);
        Fields4(s[at] % 8, s[at + 1] % 64, s[at + 2] % 64, s[at + 3] % 64);
        next := next + 3;
      } else {
        c := 0;
      }
    }
    next := next + 1;
  }

  /** On an encoded character the pointer decoder returns its code point and moves to the next character. */
  lemma ValueOfEncoded(s: seq<Byte>, at: nat, v: nat)
    requires v <= 0x10FFFF && at < |s| && Encode(v) <= s[at..]
    ensures Length(s[at]) == |Encode(v)| && at + Length(s[at]) <= |s| && Value(s, at) == v
  {
    hide Length, Value, Encode;
    EncodeShape(s, at, v);
    var e := Encode(v);
    assert s[at + 0] == e[0];
    if v < 0x80 {
      Value1(s, at, v);
    } else if v < 0x800 {
      EncodeBytes(v);
      assert s[at + 1] == e[1];
      Value2(s, at, v);
    } else if v < 0x10000 {
      EncodeBytes(v);
      assert s[at + 1] == e[1] && s[at + 2] == e[2];
      Value3(s, at, v);
    } else {
      EncodeBytes(v);
      assert s[at + 1] == e[1] && s[at + 2] == e[2] && s[at + 3] == e[3];
      Value4(s, at, v);
    }
  }

  lemma EncodeBytes(v: nat)
    requires v <= 0x10FFFF
    ensures |Encode(v)| == if v < 0x80 then 1 else if v < 0x800 then 2 else if v < 0x10000 then 3 else 4
  {
  }

  lemma Value1(s: seq<Byte>, at: nat, v: nat)
    requires v < 0x80 && at < |s| && s[at] == Encode(v)[0]
    ensures |Encode(v)| == 1 && Length(s[at]) == 1 && Value(s, at) == v
  {
  }

  lemma Value2(s: seq<Byte>, at: nat, v: nat)
    requires 0x80 <= v < 0x800 && at + 1 < |s| && |Encode(v)| == 2 && s[at] == Encode(v)[0] && s[at + 1] == Encode(v)[1]
    ensures Length(s[at]) == 2 && Value(s, at) == v
  {
    assert s[at] == 0xC0 + v / 64 && s[at + 1] == 0x80 + v % 64;
    Lead2(v / 64);
  }

  lemma Value3(s: seq<Byte>, at: nat, v: nat)
    requires 0x800 <= v < 0x10000 && at + 2 < |s| && |Encode(v)| == 3
    requires s[at] == Encode(v)[0] && s[at + 1] == Encode(v)[1] && s[at + 2] == Encode(v)[2]
    ensures Length(s[at]) == 3 && Value(s, at) == v
  {
    assert s[at] == 0xE0 + v / 4096 && s[at + 1] == 0x80 + v / 64 % 64 && s[at + 2] == 0x80 + v % 64;
    Lead3(v / 4096);
    Digits(v);
  }

  lemma Value4(s: seq<Byte>, at: nat, v: nat)
    requires 0x10000 <= v <= 0x10FFFF && at + 3 < |s| && |Encode(v)| == 4
    requires s[at] == Encode(v)[0] && s[at + 1] == Encode(v)[1]
    requires s[at + 2] == Encode(v)[2] && s[at + 3] == Encode(v)[3]
    ensures Length(s[at]) == 4 && Value(s, at) == v
  {
    assert s[at] == 0xF0 + v / 262144 && s[at + 1] == 0x80 + v / 4096 % 64;
    assert s[at + 2] == 0x80 + v / 64 % 64 && s[at + 3] == 0x80 + v % 64;
    Lead4(v / 262144);
    Digits(v);
  }

  lemma Lead2(h: nat)
    requires 2 <= h < 32
    ensures (0xC0 + h) / 128 % 2 == 1 && (0xC0 + h) / 32 % 2 == 0 && (0xC0 + h) % 32 == h
  {
  }

  lemma Lead3(h: nat)
    requires h < 16
    ensures (0xE0 + h) / 128 % 2 == 1 && (0xE0 + h) / 32 % 2 == 1 && (0xE0 + h) / 16 % 2 == 0 && (0xE0 + h) % 16 == h
  {
  }

  lemma Lead4(h: nat)
    requires h < 8
    ensures (0xF0 + h) / 128 % 2 == 1 && (0xF0 + h) / 32 % 2 == 1 && (0xF0 + h) / 16 % 2 == 1
    ensures (0xF0 + h) / 8 % 2 == 0 && (0xF0 + h) % 8 == h
  {
  }

  lemma Digits(v: nat)
    ensures v == 64 * (v / 64) + v % 64
    ensures v / 64 == 64 * (v / 4096) + v / 64 % 64
    ensures v / 4096 == 64 * (v / 262144) + v / 4096 % 64
    ensures (0x80 + v % 64) % 64 == v % 64 && (0x80 + v / 64 % 64) % 64 == v / 64 % 64
    ensures (0x80 + v / 4096 % 64) % 64 == v / 4096 % 64
  {
    assert v / 64 / 64 == v / 4096;
    assert v / 4096 / 64 == v / 262144;
  }

  lemma Fields2(a: nat, b: nat)
    requires b < 64
    ensures Join(a, b, 1) == 64 * a + b
  {
    ShlSix(a);
    JoinIsSum(a, b, 1);
  }

  lemma Fields3(a: nat, b: nat, c: nat)
    requires b < 64 && c < 64
    ensures Join(Join(a, b, 1), c, 1) == 4096 * a + 64 * b + c
  {
    Fields2(a, b);
    Fields2(64 * a + b, c);
  }

  lemma Fields4(a: nat, b: nat, c: nat, d: nat)
    requires b < 64 && c < 64 && d < 64
    ensures Join(Join(Join(a, b, 1), c, 1), d, 1) == 262144 * a + 4096 * b + 64 * c + d
  {
    Fields3(a, b, c);
    Fields2(4096 * a + 64 * b + c, d);
  }

  lemma EncodeShape(s: seq<Byte>, at: nat, v: nat)
    requires v <= 0x10FFFF && at < |s| && Encode(v) <= s[at..]
    ensures at + |Encode(v)| <= |s| && forall k :: 0 <= k < |Encode(v)| ==> s[at + k] == Encode(v)[k]
  {
    var e, t := Encode(v), s[at..];
    forall k | 0 <= k < |e|
      ensures s[at + k] == e[k]
    {
      assert t[k] == e[k];
    }
  }

  // ----- the byte-at-a-time decoder of flanterm_putchar -----

  /** `unicode_remaining` and `code_point` */
  datatype Pending = Pending(remaining: nat, codePoint: nat)

  /** What one byte produces: a finished code point, nothing yet, or a byte for the rest of `flanterm_putchar`. */
  datatype Event = Complete(codePoint: nat) | Quiet | Plain(b: Byte)

  function Lead(p: Pending, c: Byte): (Pending, Event) {
    if 0xC0 <= c <= 0xDF then (Pending(1, Shl(c % 32, 6)), Quiet)
    else if 0xE0 <= c <= 0xEF then (Pending(2, Shl(c % 16, 12)), Quiet)
    else if 0xF0 <= c <= 0xF7 then (Pending(3, Shl(c % 8, 18)), Quiet)
    else (p.(remaining := 0), Plain(c))
  }

  /** A byte that does not continue a sequence ends it and is looked at afresh. */
  function Feed(p: Pending, c: Byte): (Pending, Event) {
    if p.remaining != 0 then
      if c / 64 != 2 then Lead(p, c)
      else
        var r := p.remaining - 1;
        var cp := Or(p.codePoint, Shl(c % 64, 6 * r));
        if r != 0 then (Pending(r, cp), Quiet) else (Pending(0, cp), Complete(cp))
    else Lead(p, c)
  }

  function FeedAll(p: Pending, s: seq<Byte>): (Pending, seq<nat>)
    decreases |s|
  {
    if s == [] then (p, [])
    else
      var (q, e) := Feed(p, s[0]);
      var (r, cs) := FeedAll(q, s[1..]);
      (r, if e.Complete? then [e.codePoint] + cs else cs)
  }

  lemma {:induction false} FeedAdd(p: Pending, s: seq<Byte>, t: seq<Byte>)
    ensures FeedAll(p, s + t).0 == FeedAll(FeedAll(p, s).0, t).0
    ensures FeedAll(p, s + t).1 == FeedAll(p, s).1 + FeedAll(FeedAll(p, s).0, t).1
    decreases |s|
  {
    if s == [] {
      assert s + t == t;
    } else {
      assert (s + t)[1..] == s[1..] + t;
      FeedAdd(Feed(p, s[0]).0, s[1..], t);
    }
  }

  /** A continuation byte adds its six bits below the ones already collected. */
  lemma Continue(high: nat, x: nat, r: nat)
    requires x < 64 && 1 <= r <= 3
    ensures Feed(Pending(r, Shl(high, 6 * r)), 0x80 + x) ==
            if r > 1 then (Pending(r - 1, Shl(64 * high + x, 6 * (r - 1))), Quiet)
            else (Pending(0, 64 * high + x), Complete(64 * high + x))
  {
    hide Or, Shl;
    var k := 6 * (r - 1);
    var low := Shl(x, k);
    ShlSix(x);
    ShlMono(x, 64, k);
    ShlPow2(6, k);
    Powers();
    JoinIsSum(high, low, r);
    ShlShl(high, 6, k);
    ShlSix(high);
    ShlAdd(64 * high, x, k);
    ShlNone(64 * high + x);
  }

  lemma ShlNone(x: nat)
    ensures Shl(x, 0) == x
  {
  }

  /** The bytes of one character of at least two bytes give back its code point and end at a boundary, also when they
      interrupt an unfinished character. */
  lemma FeedCharacter(c: nat, p: Pending)
    requires 0x80 <= c <= 0x10FFFF
    ensures FeedAll(p, Encode(c)) == (Pending(0, c), [c])
  {
    hide Or, Shl, Feed, FeedAll;
    var p1, p2 := Pending(1, Shl(c / 64, 6)), Pending(2, Shl(c / 4096, 12));
    var last: Byte := 0x80 + c % 64;
    LeadBytes(c, p);
    Digits(c);
    Continue(c / 64, c % 64, 1);
    FeedLast(p1, last, c);
    if c < 0x800 {
      var b0: Byte := 0xC0 + c / 64;
      assert Encode(c) == [b0] + [last];
      FeedQuiet(p, b0, [last], p1);
    } else {
      var b1: Byte := 0x80 + c / 64 % 64;
      Continue(c / 4096, c / 64 % 64, 2);
      FeedQuiet(p2, b1, [last], p1);
      if c < 0x10000 {
        var b0: Byte := 0xE0 + c / 4096;
        assert Encode(c) == [b0] + ([b1] + [last]);
        FeedQuiet(p, b0, [b1] + [last], p2);
      } else {
        var b0: Byte, b2: Byte := 0xF0 + c / 262144, 0x80 + c / 4096 % 64;
        var p3 := Pending(3, Shl(c / 262144, 18));
        Continue(c / 262144, c / 4096 % 64, 3);
        FeedQuiet(p3, b2, [b1] + [last], p2);
        assert Encode(c) == [b0] + ([b2] + ([b1] + [last]));
        FeedQuiet(p, b0, [b2] + ([b1] + [last]), p3);
      }
    }
  }

  /** The decoder state after the first `i` bytes of a character. */
  function Stage(c: nat, i: nat): Pending
    requires c <= 0x10FFFF && 1 <= i < |Encode(c)|
  {
    var left := |Encode(c)| - i;
    Pending(left, Shl(c / (if left == 1 then 64 else if left == 2 then 4096 else 262144), 6 * left))
  }

  /** Every byte of a character but the last is quiet and leads to the next stage; the last one completes it. */
  lemma Stages(c: nat, p: Pending)
    requires 0x80 <= c <= 0x10FFFF
    ensures var e := Encode(c);
            && |e| >= 2 && (forall k :: 0 <= k < |e| ==> e[k] >= 0x80)
            && Feed(p, e[0]) == (Stage(c, 1), Quiet)
            && (forall i :: 1 <= i < |e| - 1 ==> Feed(Stage(c, i), e[i]) == (Stage(c, i + 1), Quiet))
            && Feed(Stage(c, |e| - 1), e[|e| - 1]) == (Pending(0, c), Complete(c))
  {
    hide Or, Shl, Feed;
    LeadBytes(c, p);
    Digits(c);
    Continue(c / 64, c % 64, 1);
    if c >= 0x800 {
      Continue(c / 4096, c / 64 % 64, 2);
    }
    if c >= 0x10000 {
      Continue(c / 262144, c / 4096 % 64, 3);
    }
  }

  /** A byte that completes nothing only changes the pending state. */
  lemma FeedQuiet(p: Pending, c: Byte, t: seq<Byte>, q: Pending)
    requires Feed(p, c) == (q, Quiet)
    ensures FeedAll(p, [c] + t) == FeedAll(q, t)
  {
    hide Feed;
    FeedOne(p, c, t);
    assert [] + FeedAll(q, t).1 == FeedAll(q, t).1;
  }

  lemma FeedLast(p: Pending, c: Byte, v: nat)
    requires Feed(p, c) == (Pending(0, v), Complete(v))
    ensures FeedAll(p, [c]) == (Pending(0, v), [v])
  {
    hide Feed;
    var none: seq<Byte> := [];
    FeedOne(p, c, none);
    assert [c] + none == [c];
    assert FeedAll(Pending(0, v), none).1 == [];
    assert [v] + FeedAll(Pending(0, v), none).1 == [v];
  }

  lemma FeedOne(p: Pending, c: Byte, t: seq<Byte>)
    ensures FeedAll(p, [c] + t).0 == FeedAll(Feed(p, c).0, t).0
    ensures FeedAll(p, [c] + t).1 ==
            (if Feed(p, c).1.Complete? then [Feed(p, c).1.codePoint] else []) + FeedAll(Feed(p, c).0, t).1
    ensures t == [] ==> FeedAll(Feed(p, c).0, t) == (Feed(p, c).0, [])
  {
    assert ([c] + t)[1..] == t;
  }

  /** Whatever came before, the leading byte leaves its bits at the top and announces the continuation bytes. */
  lemma LeadBytes(c: nat, p: Pending)
    requires 0x80 <= c <= 0x10FFFF
    ensures c < 0x800 ==> Feed(p, 0xC0 + c / 64) == (Pending(1, Shl(c / 64, 6)), Quiet)
    ensures 0x800 <= c < 0x10000 ==> Feed(p, 0xE0 + c / 4096) == (Pending(2, Shl(c / 4096, 12)), Quiet)
    ensures c >= 0x10000 ==> Feed(p, 0xF0 + c / 262144) == (Pending(3, Shl(c / 262144, 18)), Quiet)
  {
    hide Shl;
  }

  /** Every sequence of characters of at least two bytes comes out as it went in, from any previous state. */
  lemma {:induction false} FeedEncoded(cs: seq<nat>, p: Pending)
    requires forall k :: 0 <= k < |cs| ==> 0x80 <= cs[k] <= 0x10FFFF
    ensures cs != [] ==> FeedAll(p, EncodeAll(cs)).0.remaining == 0
    ensures FeedAll(p, EncodeAll(cs)).1 == cs
    decreases |cs|
  {
    hide Feed, Encode;
    if cs != [] {
      FeedAdd(p, Encode(cs[0]), EncodeAll(cs[1..]));
      FeedCharacter(cs[0], p);
      FeedEncoded(cs[1..], Pending(0, cs[0]));
    }
  }

  /** Repeated calls of the pointer decoder recover the same values and stop at the end of the string. */
  method DecodeString(s: seq<Byte>, ghost cs: seq<nat>) returns (out: seq<nat>)
    requires forall k :: 0 <= k < |cs| ==> 0x80 <= cs[k] <= 0x10FFFF
    requires s == EncodeAll(cs)
    ensures out == cs && out == FeedAll(Pending(0, 0), s).1
  {
    hide Encode, FeedAll, EncodeAll, Value, Length;
    FeedEncoded(cs, Pending(0, 0));
    var at := 0;
    out := [];
    ghost var rest := cs;
    while at < |s|
      invariant 0 <= at <= |s| && out + rest == cs
      invariant forall k :: 0 <= k < |rest| ==> 0x80 <= rest[k] <= 0x10FFFF
      invariant s[at..] == EncodeAll(rest)
      decreases |s| - at
    {
      FirstCharacter(s, at, rest);
      ValueOfEncoded(s, at, rest[0]);
      var c, next := DecodeAt(s, at);
      assert out + [c] + rest[1..] == out + rest;
      out, rest, at := out + [c], rest[1..], next;
    }
    RestEmpty(rest);
  }

  lemma FirstCharacter(s: seq<Byte>, at: nat, rest: seq<nat>)
    requires forall k :: 0 <= k < |rest| ==> 0x80 <= rest[k] <= 0x10FFFF
    requires at < |s| && s[at..] == EncodeAll(rest)
    ensures rest != [] && Encode(rest[0]) <= s[at..]
    ensures at + |Encode(rest[0])| <= |s| && s[at + |Encode(rest[0])|..] == EncodeAll(rest[1..])
  {
    hide Encode;
    var e := Encode(rest[0]);
    assert s[at..] == e + EncodeAll(rest[1..]);
    assert s[at + |e|..] == s[at..][|e|..];
  }

  lemma RestEmpty(rest: seq<nat>)
    requires forall k :: 0 <= k < |rest| ==> rest[k] <= 0x10FFFF
    ensures |EncodeAll(rest)| == 0 ==> rest == []
  {
  }
}
