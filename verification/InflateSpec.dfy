/** The meaning of a DEFLATE bit stream, written from section 3.2 of RFC 1951: symbols are found by
    their canonical codes, without tables and without a bit buffer. */
module InflateSpec {
  import opened Bits
  import opened BitStream
  import opened Huffman

  /** `Bad`: the stream is malformed. `Reserved`: it uses a symbol that never occurs in valid data
      (286 and 287, or distances 30 and 31). `OutOfFuel`: undecided within the given number of steps. */
  datatype Outcome<T> = Done(value: T, pos: nat) | Bad | Reserved | OutOfFuel

  // ----- lengths, distances and the order of the code length alphabet (sections 3.2.5 and 3.2.7) -----

  /** Symbols 257 to 264 stand for one length each, and so does 285; between them every four symbols have one extra bit
      more than the four before. */
  function LengthExtra(z: nat): (r: nat)
    requires 257 <= z <= 285
    ensures r <= 5
  {
    if z < 265 || z == 285 then 0 else (z - 261) / 4
  }

  function LengthBase(z: nat): (r: nat)
    requires 257 <= z <= 285
    ensures r >= 3
  {
    if z == 285 then 258
    else if z < 265 then z - 254
    else (4 + (z - 261) % 4) * Pow2(LengthExtra(z)) + 3
  }

  /** The first four distances have a symbol each; after them every two symbols have one extra bit more. */
  function DistExtra(d: nat): (r: nat)
    requires d <= 29
    ensures r <= 13
  {
    if d < 4 then 0 else d / 2 - 1
  }

  function DistBase(d: nat): (r: nat)
    requires d <= 29
    ensures r >= 1
  {
    if d < 4 then d + 1 else (2 + d % 2) * Pow2(DistExtra(d)) + 1
  }

  /** The lengths of neighbouring symbols follow each other without gap or overlap, from 3 to 257 and then 258. */
  lemma LengthsContiguous(z: nat)
    requires 257 <= z < 284
    ensures LengthBase(257) == 3 && LengthBase(285) == 258
    ensures LengthBase(z + 1) == LengthBase(z) + Pow2(LengthExtra(z))
  {
    if z >= 265 {
      LengthStep((z - 261) / 4, (z - 261) % 4);
      assert (z - 261) % 4 < 3 ==> (z - 260) / 4 == (z - 261) / 4 && (z - 260) % 4 == (z - 261) % 4 + 1;
      assert (z - 261) % 4 == 3 ==> (z - 260) / 4 == (z - 261) / 4 + 1 && (z - 260) % 4 == 0;
    }
  }

  lemma LengthStep(e: nat, r: nat)
    requires r < 4
    ensures (4 + r) * Pow2(e) + Pow2(e) == if r < 3 then (4 + (r + 1)) * Pow2(e) else 4 * Pow2(e + 1)
  {
  }

  /** The distances of neighbouring symbols follow each other without gap or overlap, from 1 on. */
  lemma DistancesContiguous(d: nat)
    requires d < 29
    ensures DistBase(0) == 1 && DistBase(d + 1) == DistBase(d) + Pow2(DistExtra(d))
  {
    if d >= 4 {
      LargeDistances(d);
    }
  }

  lemma LargeDistances(d: nat)
    requires 4 <= d < 29
    ensures DistBase(d + 1) == DistBase(d) + Pow2(DistExtra(d))
  {
    hide Pow2;
    DistanceStep(d / 2 - 1, d % 2);
    if d % 2 == 0 {
      assert (d + 1) / 2 == d / 2 && (d + 1) % 2 == 1;
    } else {
      assert (d + 1) / 2 == d / 2 + 1 && (d + 1) % 2 == 0;
    }
  }

  lemma DistanceStep(e: nat, r: nat)
    requires r < 2
    ensures (2 + r) * Pow2(e) + Pow2(e) == if r == 0 then 3 * Pow2(e) else 2 * Pow2(e + 1)
  {
  }

  /** The symbol, at least `z`, whose lengths include `len`. */
  function LengthSymbolFrom(len: nat, z: nat): (r: nat)
    requires 257 <= z <= 284 && LengthBase(z) <= len <= 257
    ensures z <= r <= 284 && LengthBase(r) <= len < LengthBase(r) + Pow2(LengthExtra(r))
    decreases 284 - z
  {
    if z == 284 then
      LastLength();
      z
    else
      LengthsContiguous(z);
      if len < LengthBase(z + 1) then z else LengthSymbolFrom(len, z + 1)
  }

  lemma LastLength()
    ensures LengthBase(284) == 227 && Pow2(LengthExtra(284)) == 32
  {
    Pow2Values();
  }

  /** Every length from 3 to 258 has a symbol. */
  function LengthSymbol(len: nat): (r: nat)
    requires 3 <= len <= 258
    ensures 257 <= r <= 285 && LengthBase(r) <= len < LengthBase(r) + Pow2(LengthExtra(r))
  {
    if len == 258 then 285 else LengthSymbolFrom(len, 257)
  }

  function DistSymbolFrom(dist: nat, d: nat): (r: nat)
    requires d <= 29 && DistBase(d) <= dist <= 32768
    ensures d <= r <= 29 && DistBase(r) <= dist < DistBase(r) + Pow2(DistExtra(r))
    decreases 29 - d
  {
    if d == 29 then
      LastDistance();
      d
    else
      DistancesContiguous(d);
      if dist < DistBase(d + 1) then d else DistSymbolFrom(dist, d + 1)
  }

  lemma LastDistance()
    ensures DistBase(29) == 24577 && Pow2(DistExtra(29)) == 8192
  {
    Pow2Values();
  }

  /** Every distance from 1 to 32768 has a symbol. */
  function DistSymbol(dist: nat): (r: nat)
    requires 1 <= dist <= 32768
    ensures r <= 29 && DistBase(r) <= dist < DistBase(r) + Pow2(DistExtra(r))
  {
    DistSymbolFrom(dist, 0)
  }

  /** The order in which the lengths of the code length alphabet are sent: the three run symbols, zero, and then the
      lengths from 8 on alternately upwards and downwards. */
  function Order(i: nat): (c: nat)
    requires i < 19
    ensures c < 19
  {
    if i < 3 then 16 + i
    else if i == 3 then 0
    else if i % 2 == 0 then 8 + (i - 4) / 2
    else 8 - (i - 3) / 2
  }

  function Place(c: nat): (i: nat)
    requires c < 19
    ensures i < 19
  {
    if c >= 16 then c - 16
    else if c == 0 then 3
    else if c >= 8 then 2 * (c - 8) + 4
    else 2 * (8 - c) + 3
  }

  lemma OrderInverse(i: nat)
    requires i < 19
    ensures Place(Order(i)) == i && Order(Place(i)) == i
  {
  }

  function Repeat(v: nat, n: nat): (r: seq<nat>)
    ensures |r| == n && forall i :: 0 <= i < n ==> r[i] == v
  {
    seq(n, _ => v)
  }

  /** The fixed codes of section 3.2.6. */
  function FixedLengths(): (r: seq<nat>)
    ensures |r| == 288
    ensures forall n :: 0 <= n < 288 ==> r[n] == if n < 144 then 8 else if n < 256 then 9 else if n < 280 then 7 else 8
  {
    Repeat(8, 144) + Repeat(9, 112) + Repeat(7, 24) + Repeat(8, 8)
  }

  function FixedDistances(): (r: seq<nat>)
    ensures |r| == 32 && forall n :: 0 <= n < 32 ==> r[n] == 5
  {
    Repeat(5, 32)
  }

  /** The symbol whose canonical code starts at `p`, or -1. */
  ghost function Decode(lens: seq<nat>, s: Stream, p: nat): (z: int)
    ensures z == -1 || (z >= 0 && Matches(lens, s, p, z))
    ensures z == -1 ==> forall n: nat :: !Matches(lens, s, p, n)
  {
    if exists n: nat :: Matches(lens, s, p, n) then
      var n: nat :| Matches(lens, s, p, n);
      n
    else -1
  }

  lemma DecodeUnique(lens: seq<nat>, s: Stream, p: nat, n: nat)
    requires ValidLengths(lens) && KraftAtMostOne(lens) && Matches(lens, s, p, n)
    ensures Decode(lens, s, p) == n
  {
    MatchUnique(lens, s, p, n, Decode(lens, s, p));
  }

  /** A length-distance pair repeats earlier output; the copy may run into what it has itself written. */
  function CopyBack(out: seq<Byte>, len: nat, dist: nat): (r: seq<Byte>)
    requires 1 <= dist <= |out|
    ensures |r| == |out| + len && r[..|out|] == out
    ensures forall k :: |out| <= k < |r| ==> r[k] == r[k - dist]
    decreases len
  {
    if len == 0 then out else CopyBack(out + [out[|out| - dist]], len - 1, dist)
  }

  /** `CopyBack` is the only extension in which every new byte equals the one `dist` places before it. */
  lemma CopyBackUnique(out: seq<Byte>, len: nat, dist: nat, r: seq<Byte>)
    requires 1 <= dist <= |out|
    requires |r| == |out| + len && r[..|out|] == out
    requires forall k :: |out| <= k < |r| ==> r[k] == r[k - dist]
    ensures r == CopyBack(out, len, dist)
  {
    var c := CopyBack(out, len, dist);
    var k := |out|;
    while k < |r|
      invariant |out| <= k <= |r| && r[..k] == c[..k]
    {
      assert r[k - dist] == r[..k][k - dist] == c[..k][k - dist] == c[k - dist];
      assert r[..k + 1] == r[..k] + [r[k]];
      assert c[..k + 1] == c[..k] + [c[k]];
      k := k + 1;
    }
    assert r == r[..k] && c == c[..k];
  }

  datatype Pair = Pair(len: nat, dist: nat)

  /** The rest of a length-distance pair after its length symbol `z` (section 3.2.5). */
  ghost function PairAt(s: Stream, p: nat, z: nat, dl: seq<nat>): Outcome<Pair>
    requires 257 <= z
  {
    if z > 285 then Reserved
    else
      var q := p + LengthExtra(z);
      var d := Decode(dl, s, q);
      if d < 0 then Bad
      else if d > 29 then Reserved
      else
        Done(Pair(LengthBase(z) + Lsb(s, p, LengthExtra(z)), DistBase(d) + Lsb(s, q + dl[d], DistExtra(d))),
             q + dl[d] + DistExtra(d))
  }

  /** The compressed data of one block, up to the end-of-block symbol. */
  ghost function Tokens(s: Stream, p: nat, ll: seq<nat>, dl: seq<nat>, out: seq<Byte>, fuel: nat): Outcome<seq<Byte>>
    decreases fuel
  {
    if fuel == 0 then OutOfFuel
    else
      var z := Decode(ll, s, p);
      if z < 0 then Bad
      else if z < 256 then Tokens(s, p + ll[z], ll, dl, out + [z], fuel - 1)
      else if z == 256 then Done(out, p + ll[z])
      else
        match PairAt(s, p + ll[z], z, dl)
        case Done(pair, q) =>
          if 1 <= pair.dist <= |out| then Tokens(s, q, ll, dl, CopyBack(out, pair.len, pair.dist), fuel - 1) else Bad
        case Bad => Bad
        case Reserved => Reserved
        case OutOfFuel => OutOfFuel
  }

  /** The three run symbols 16, 17 and 18 of the code length alphabet (section 3.2.7). */
  function RunBits(c: nat): nat {
    if c == 16 then 2 else if c == 17 then 3 else 7
  }

  function RunAt(s: Stream, p: nat, c: nat): nat {
    (if c == 18 then 11 else 3) + Lsb(s, p, RunBits(c))
  }

  /** The run-length coded list of code lengths. */
  ghost function Lengths(s: Stream, p: nat, cl: seq<nat>, total: nat, acc: seq<nat>): Outcome<seq<nat>>
    decreases total - |acc|
  {
    if |acc| >= total then Done(acc, p)
    else
      var c := Decode(cl, s, p);
      if c < 0 || c > 18 then Bad
      else if c < 16 then Lengths(s, p + cl[c], cl, total, acc + [c])
      else
        var n := RunAt(s, p + cl[c], c);
        if (c == 16 && |acc| == 0) || n > total - |acc| then Bad
        else Lengths(s, p + cl[c] + RunBits(c), cl, total, acc + Repeat(if c == 16 then acc[|acc| - 1] else 0, n))
  }

  /** The first `n` three-bit lengths of the code length alphabet, put in symbol order. */
  function CodeLengthSizes(s: Stream, p: nat, n: nat): (r: seq<nat>)
    ensures |r| == 19
  {
    seq(19, c requires 0 <= c < 19 => if Place(c) < n then Lsb(s, p + 3 * Place(c), 3) else 0)
  }

  datatype Codes = Codes(ll: seq<nat>, dl: seq<nat>)

  ghost predicate UsableCodes(c: Codes) {
    ValidLengths(c.ll) && ValidLengths(c.dl) && KraftAtMostOne(c.ll) && KraftAtMostOne(c.dl)
  }

  /** Both code length lists, sent as one list of `hlit + hdist` lengths. */
  ghost function CodesAt(s: Stream, p: nat, cl: seq<nat>, hlit: nat, hdist: nat): Outcome<Codes> {
    if !(ValidLengths(cl) && KraftAtMostOne(cl)) then Bad
    else
      match Lengths(s, p, cl, hlit + hdist, [])
      case Done(lens, q) =>
        if |lens| == hlit + hdist && UsableCodes(Codes(lens[..hlit], lens[hlit..]))
        then Done(Codes(lens[..hlit], lens[hlit..]), q) else Bad
      case _ => Bad
  }

  /** The header of a block with dynamic codes. */
  ghost function Header(s: Stream, p: nat): Outcome<Codes> {
    var hclen := Lsb(s, p + 10, 4) + 4;
    CodesAt(s, p + 14 + 3 * hclen, CodeLengthSizes(s, p + 14, hclen), Lsb(s, p, 5) + 257, Lsb(s, p + 5, 5) + 1)
  }

  function Align(p: nat): nat {
    (p + 7) / 8 * 8
  }

  function Bytes(s: Stream, at: nat, n: nat): (r: seq<Byte>)
    ensures |r| == n && forall k :: 0 <= k < n ==> r[k] == s(at + k)
  {
    if n == 0 then [] else Bytes(s, at, n - 1) + [s(at + n - 1)]
  }

  /** A block without compression (section 3.2.4), from just after its three header bits. */
  ghost function Stored(s: Stream, p: nat, out: seq<Byte>): Outcome<seq<Byte>> {
    var q := Align(p);
    var len := Lsb(s, q, 16);
    if Lsb(s, q + 16, 16) + len != 0xffff then Bad
    else Done(out + Bytes(s, q / 8 + 4, len), q + 32 + 8 * len)
  }

  ghost function BlockBody(s: Stream, p: nat, kind: nat, out: seq<Byte>, fuel: nat): Outcome<seq<Byte>> {
    if kind == 0 then Stored(s, p, out)
    else if kind == 1 then Tokens(s, p, FixedLengths(), FixedDistances(), out, fuel)
    else if kind == 2 then
      match Header(s, p)
      case Done(codes, q) => Tokens(s, q, codes.ll, codes.dl, out, fuel)
      case _ => Bad
    else Bad
  }

  /** The whole stream: blocks up to and including the one marked final (section 3.2.3). */
  ghost function Inflate(s: Stream, p: nat, out: seq<Byte>, fuel: nat): Outcome<seq<Byte>>
    decreases fuel
  {
    if fuel == 0 then OutOfFuel
    else
      match BlockBody(s, p + 3, Lsb(s, p + 1, 2), out, fuel)
      case Done(o, q) => if Lsb(s, p, 1) == 1 then Done(o, q) else Inflate(s, q, o, fuel - 1)
      case Bad => Bad
      case Reserved => Reserved
      case OutOfFuel => OutOfFuel
  }

  // ----- the reference, one step at a time -----

  lemma TokensLiteral(s: Stream, p: nat, ll: seq<nat>, dl: seq<nat>, out: seq<Byte>, fuel: nat, z: nat)
    requires fuel > 0 && Decode(ll, s, p) == z < 256
    ensures Tokens(s, p, ll, dl, out, fuel) == Tokens(s, p + ll[z], ll, dl, out + [z], fuel - 1)
  {
    hide CopyBack, PairAt, Lsb;
  }

  lemma TokensEnd(s: Stream, p: nat, ll: seq<nat>, dl: seq<nat>, out: seq<Byte>, fuel: nat)
    requires fuel > 0 && Decode(ll, s, p) == 256
    ensures Tokens(s, p, ll, dl, out, fuel) == Done(out, p + ll[256])
  {
    hide CopyBack, PairAt, Lsb;
  }

  lemma TokensPair(s: Stream, p: nat, ll: seq<nat>, dl: seq<nat>, out: seq<Byte>, fuel: nat, z: nat)
    requires fuel > 0 && Decode(ll, s, p) == z > 256
    ensures var r := PairAt(s, p + ll[z], z, dl);
            && !r.OutOfFuel?
            && (r.Done? ==> r.value.len >= 3 && r.value.dist >= 1)
            && (r.Bad? ==> Tokens(s, p, ll, dl, out, fuel).Bad?)
            && (r.Reserved? ==> Tokens(s, p, ll, dl, out, fuel).Reserved?)
            && (r.Done? && r.value.dist > |out| ==> Tokens(s, p, ll, dl, out, fuel).Bad?)
            && (r.Done? && r.value.dist <= |out| ==>
                  Tokens(s, p, ll, dl, out, fuel) ==
                  Tokens(s, r.pos, ll, dl, CopyBack(out, r.value.len, r.value.dist), fuel - 1))
  {
    hide CopyBack;
  }

  lemma TokensStart(s: Stream, p: nat, ll: seq<nat>, dl: seq<nat>, out: seq<Byte>, fuel: nat)
    ensures fuel == 0 ==> Tokens(s, p, ll, dl, out, fuel).OutOfFuel?
    ensures fuel > 0 && Decode(ll, s, p) < 0 ==> Tokens(s, p, ll, dl, out, fuel).Bad?
  {
    hide CopyBack, PairAt, Lsb;
  }

  /** More fuel does not change a result: what a block means is a property of the stream. */
  lemma {:induction false} TokensFuel(s: Stream, p: nat, ll: seq<nat>, dl: seq<nat>, out: seq<Byte>, f: nat, g: nat)
    requires f <= g && !Tokens(s, p, ll, dl, out, f).OutOfFuel?
    ensures Tokens(s, p, ll, dl, out, g) == Tokens(s, p, ll, dl, out, f)
    decreases f
  {
    hide Decode, PairAt, CopyBack, Tokens;
    TokensStart(s, p, ll, dl, out, f);
    TokensStart(s, p, ll, dl, out, g);
    var z := Decode(ll, s, p);
    if z == 256 {
      TokensEnd(s, p, ll, dl, out, f);
      TokensEnd(s, p, ll, dl, out, g);
    } else if 0 <= z < 256 {
      TokensLiteral(s, p, ll, dl, out, f, z);
      TokensLiteral(s, p, ll, dl, out, g, z);
      TokensFuel(s, p + ll[z], ll, dl, out + [z], f - 1, g - 1);
    } else if z > 256 {
      TokensPair(s, p, ll, dl, out, f, z);
      TokensPair(s, p, ll, dl, out, g, z);
      var r := PairAt(s, p + ll[z], z, dl);
      if r.Done? && r.value.dist <= |out| {
        TokensFuel(s, r.pos, ll, dl, CopyBack(out, r.value.len, r.value.dist), f - 1, g - 1);
      }
    }
  }

  lemma BlockFuel(s: Stream, p: nat, kind: nat, out: seq<Byte>, f: nat, g: nat)
    requires f <= g && !BlockBody(s, p, kind, out, f).OutOfFuel?
    ensures BlockBody(s, p, kind, out, g) == BlockBody(s, p, kind, out, f)
  {
    hide Tokens, Header, Stored, FixedLengths, FixedDistances;
    if kind == 1 {
      TokensFuel(s, p, FixedLengths(), FixedDistances(), out, f, g);
    } else if kind == 2 && Header(s, p).Done? {
      var h := Header(s, p);
      TokensFuel(s, h.pos, h.value.ll, h.value.dl, out, f, g);
    }
  }

  /** What a stream means does not depend on the fuel, as soon as there is enough of it. */
  lemma {:induction false} InflateFuel(s: Stream, p: nat, out: seq<Byte>, f: nat, g: nat)
    requires f <= g && !Inflate(s, p, out, f).OutOfFuel?
    ensures Inflate(s, p, out, g) == Inflate(s, p, out, f)
    decreases f
  {
    hide BlockBody, Lsb;
    var b := BlockBody(s, p + 3, Lsb(s, p + 1, 2), out, f);
    BlockFuel(s, p + 3, Lsb(s, p + 1, 2), out, f, g);
    if b.Done? && Lsb(s, p, 1) != 1 {
      InflateFuel(s, b.pos, b.value, f - 1, g - 1);
    }
  }

  lemma LengthsPlain(s: Stream, p: nat, cl: seq<nat>, total: nat, acc: seq<nat>, c: nat)
    requires |acc| < total && Decode(cl, s, p) == c < 16
    ensures Lengths(s, p, cl, total, acc) == Lengths(s, p + cl[c], cl, total, acc + [c])
  {
  }

  lemma LengthsRun(s: Stream, p: nat, cl: seq<nat>, total: nat, acc: seq<nat>, c: nat)
    requires |acc| < total && Decode(cl, s, p) == c && 16 <= c <= 18
    ensures var n := RunAt(s, p + cl[c], c);
            if (c == 16 && |acc| == 0) || n > total - |acc| then Lengths(s, p, cl, total, acc).Bad?
            else n >= 3 && Lengths(s, p, cl, total, acc) ==
                 Lengths(s, p + cl[c] + RunBits(c), cl, total,
                         acc + Repeat(if c == 16 then acc[|acc| - 1] else 0, n))
  {
  }

  lemma LengthsEnds(s: Stream, p: nat, cl: seq<nat>, total: nat, acc: seq<nat>)
    ensures |acc| >= total ==> Lengths(s, p, cl, total, acc) == Done(acc, p)
    ensures |acc| < total && (Decode(cl, s, p) < 0 || Decode(cl, s, p) > 18) ==> Lengths(s, p, cl, total, acc).Bad?
  {
  }

  lemma CodesAtCases(s: Stream, p: nat, cl: seq<nat>, hlit: nat, hdist: nat)
    requires ValidLengths(cl)
    ensures var r := Lengths(s, p, cl, hlit + hdist, []);
            if KraftAtMostOne(cl) && r.Done? && |r.value| == hlit + hdist &&
               UsableCodes(Codes(r.value[..hlit], r.value[hlit..]))
            then CodesAt(s, p, cl, hlit, hdist) == Done(Codes(r.value[..hlit], r.value[hlit..]), r.pos)
            else CodesAt(s, p, cl, hlit, hdist).Bad?
  {
    hide Lengths, KraftTo;
  }

  lemma InflateStep(s: Stream, p: nat, out: seq<Byte>, fuel: nat)
    requires !Inflate(s, p, out, fuel).OutOfFuel?
    ensures fuel > 0
    ensures var b := BlockBody(s, p + 3, Lsb(s, p + 1, 2), out, fuel);
            if !b.Done? then Inflate(s, p, out, fuel) == b
            else if Lsb(s, p, 1) == 1 then Inflate(s, p, out, fuel) == b
            else Inflate(s, p, out, fuel) == Inflate(s, b.pos, b.value, fuel - 1)
  {
    hide BlockBody;
  }

  // ----- properties of the reference -----

  lemma {:induction false} LengthsBound(s: Stream, p: nat, cl: seq<nat>, total: nat, acc: seq<nat>)
    requires forall i :: 0 <= i < |acc| ==> acc[i] <= 15
    requires |acc| <= total
    ensures var r := Lengths(s, p, cl, total, acc);
            !r.Reserved? && !r.OutOfFuel? &&
            (r.Done? ==> |r.value| == total && forall i :: 0 <= i < total ==> r.value[i] <= 15)
    decreases total - |acc|
  {
    if |acc| < total {
      var c := Decode(cl, s, p);
      if 0 <= c < 16 {
        LengthsBound(s, p + cl[c], cl, total, acc + [c]);
      } else if 16 <= c <= 18 {
        var n := RunAt(s, p + cl[c], c);
        if !((c == 16 && |acc| == 0) || n > total - |acc|) {
          LengthsBound(s, p + cl[c] + RunBits(c), cl, total, acc + Repeat(if c == 16 then acc[|acc| - 1] else 0, n));
        }
      }
    }
  }

  lemma CodeLengthSizesValid(s: Stream, p: nat, n: nat)
    ensures ValidLengths(CodeLengthSizes(s, p, n))
  {
    var cl := CodeLengthSizes(s, p, n);
    forall c | 0 <= c < 19
      ensures cl[c] <= 15
    {
      LsbBound(s, p + 3 * Place(c), 3);
    }
  }
}
