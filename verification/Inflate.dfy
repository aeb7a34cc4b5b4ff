/** The inflater: a 32-bit bit buffer that prefetches bytes, table-driven symbol decoding, and the block
    parsers. Every method is specified by the reference meaning of the stream. */
module Inflater {
  import opened Bits
  import opened BitStream
  import opened Huffman
  import opened HuffmanTable
  import opened InflateSpec

  /** `_ssfn__zlength_base`, `_ssfn__zlength_extra`, `_ssfn__zdist_base`, `_ssfn__zdist_extra`; the last two entries of
      each are for the reserved symbols. */
  const ZLENGTH_BASE: seq<nat> :=
    [3, 4, 5, 6, 7, 8, 9, 10, 11, 13, 15, 17, 19, 23, 27, 31, 35, 43, 51, 59, 67, 83, 99, 115, 131, 163, 195, 227, 258,
     0, 0]
  const ZLENGTH_EXTRA: seq<nat> :=
    [0, 0, 0, 0, 0, 0, 0, 0, 1, 1, 1, 1, 2, 2, 2, 2, 3, 3, 3, 3, 4, 4, 4, 4, 5, 5, 5, 5, 0, 0, 0]
  const ZDIST_BASE: seq<nat> :=
    [1, 2, 3, 4, 5, 7, 9, 13, 17, 25, 33, 49, 65, 97, 129, 193, 257, 385, 513, 769, 1025, 1537, 2049, 3073, 4097,
     6145, 8193, 12289, 16385, 24577, 0, 0]
  const ZDIST_EXTRA: seq<nat> :=
    [0, 0, 0, 0, 1, 1, 2, 2, 3, 3, 4, 4, 5, 5, 6, 6, 7, 7, 8, 8, 9, 9, 10, 10, 11, 11, 12, 12, 13, 13, 0, 0]

  /** `length_dezigzag` */
  const LENGTH_DEZIGZAG: seq<nat> := [16, 17, 18, 0, 8, 7, 9, 6, 10, 5, 11, 4, 12, 3, 13, 2, 14, 1, 15]

  /** An entry of a table of bases and the one of its table of extra bits. */
  function LengthEntry(i: nat): (nat, nat)
    requires i < 31
  {
    (ZLENGTH_BASE[i], ZLENGTH_EXTRA[i])
  }

  function DistanceEntry(i: nat): (nat, nat)
    requires i < 32
  {
    (ZDIST_BASE[i], ZDIST_EXTRA[i])
  }

  /** The tables hold the lengths and distances of the symbols. */
  lemma LengthTables(z: nat)
    requires 257 <= z <= 285
    ensures LengthEntry(z - 257) == (LengthBase(z), LengthExtra(z))
  {
    Pow2Values();
    assert LengthExtra(z) == 0 || LengthExtra(z) == 1 || LengthExtra(z) == 2 || LengthExtra(z) == 3 ||
           LengthExtra(z) == 4 || LengthExtra(z) == 5;
  }

  lemma DistanceTables(d: nat)
    requires d <= 29
    ensures DistanceEntry(d) == (DistBase(d), DistExtra(d))
  {
    if d < 14 {
      NearDistances(d);
    } else {
      FarDistances(d);
    }
  }

  lemma NearDistances(d: nat)
    requires d < 14
    ensures DistanceEntry(d) == (DistBase(d), DistExtra(d))
  {
    Pow2Values();
    assert DistExtra(d) < 6;
  }

  lemma FarDistances(d: nat)
    requires 14 <= d <= 29
    ensures DistanceEntry(d) == (DistBase(d), DistExtra(d))
  {
    Pow2Values();
    assert 6 <= DistExtra(d) <= 13;
  }

  lemma OrderTable(i: nat)
    requires i < 19
    ensures LENGTH_DEZIGZAG[i] == Order(i)
  {
  }

  /** `_ssfn__zbuf`; the output grows instead of being reallocated. */
  class ZBuf {
    const input: Stream
    var zbuffer: nat
    var numBits: nat
    var codeBuffer: nat
    var out: seq<Byte>
    const zLength: ZHuffman
    const zDistance: ZHuffman

    constructor (input: Stream)
      ensures this.input == input && Valid() && Pos() == 0 && numBits == 0 && out == []
      ensures Tables() && fresh(zLength.Repr()) && fresh(zDistance.Repr())
    {
      this.input := input;
      zbuffer, numBits, codeBuffer, out := 0, 0, 0, [];
      var l := new ZHuffman();
      var d := new ZHuffman();
      zLength, zDistance := l, d;
    }

    ghost predicate Tables() {
      zLength.Allocated() && zDistance.Allocated() && zLength.Repr() !! zDistance.Repr()
    }

    /** The position of the first unread bit. */
    ghost function Pos(): int
      reads this
    {
      8 * zbuffer - numBits
    }

    /** The buffer holds the unread bits between `Pos()` and the byte pointer, first bit lowest. */
    ghost predicate Valid()
      reads this
    {
      && numBits <= WORD && Pos() >= 0
      && codeBuffer == Lsb(input, Pos(), numBits)
    }

    /** `_ssfn__fill_bits`: no shift reaches the word size and no bit is lost. */
    method FillBits()
      requires Valid() && numBits <= 24
      modifies this`zbuffer, this`numBits, this`codeBuffer
      ensures Valid() && Pos() == old(Pos()) && 25 <= numBits <= 32
    {
      hide Lsb;
      FillByte();
      while numBits <= 24
        invariant Valid() && Pos() == old(Pos()) && numBits <= 32
        decreases 32 - numBits
      {
        FillByte();
      }
    }

    method FillByte()
      requires Valid() && numBits <= 24
      modifies this`zbuffer, this`numBits, this`codeBuffer
      ensures Valid() && Pos() == old(Pos()) && numBits == old(numBits) + 8
    {
      hide Lsb, Or, Shl32;
      var b := input(zbuffer);
      AppendByte(input, zbuffer, Pos(), numBits);
      codeBuffer := Or(codeBuffer, Shl32(b, numBits));
      zbuffer := zbuffer + 1;
      numBits := numBits + 8;
    }

    method Skip(n: nat)
      requires Valid() && n <= numBits
      modifies this`numBits, this`codeBuffer
      ensures Valid() && Pos() == old(Pos()) + n && numBits == old(numBits) - n
    {
      LsbTake(input, Pos(), n, numBits - n);
      codeBuffer := Shr(codeBuffer, n);
      numBits := numBits - n;
    }

    /** `_ssfn__zreceive`: the next `n` bits of the stream. */
    method Receive(n: nat) returns (k: nat)
      requires Valid() && n <= 25
      modifies this`zbuffer, this`numBits, this`codeBuffer
      ensures Valid() && Pos() == old(Pos()) + n
      ensures k == Lsb(input, old(Pos()), n)
      ensures numBits <= 32 - n
    {
      hide Lsb, Low, Shr;
      if numBits < n {
        FillBits();
      }
      LsbTake(input, Pos(), n, numBits - n);
      k := Low(codeBuffer, n);
      Skip(n);
    }

    /** `_ssfn__zhuffman_decode_slowpath`: the search may start above nine bits once the fast table missed. */
    method DecodeSlow(z: ZHuffman, ghost lens: seq<nat>) returns (sym: int)
      requires Valid() && numBits >= 16 && z.TableFor(lens)
      requires Msb(input, Pos(), 16) >= MaxCode(lens, 9)
      modifies this`numBits, this`codeBuffer
      ensures Valid()
      ensures sym == Decode(lens, input, old(Pos()))
      ensures Pos() == old(Pos()) + (if sym >= 0 then lens[sym] else 0)
    {
      hide Lsb, Msb, Shr, Shl, Decode, BitReverse;
      ghost var p := Pos();
      var k := BitReverse(codeBuffer, 16);
      SlowKey(input, p, numBits);
      var s := FAST_BITS + 1;
      while k >= z.maxcode[s]
        invariant 10 <= s <= 16
        invariant MaxCode(lens, s - 1) <= k
        decreases 16 - s
      {
        s := s + 1;
      }
      if s == 16 {
        NoMatchAbove(lens, input, p);
        return -1;
      }
      ghost var n := IntervalMatch(lens, input, p, s);
      MsbTake(input, p, s, 16 - s);
      DecodeUnique(lens, input, p, n);
      var b := Shr(k, 16 - s) - z.firstcode[s] + z.firstsymbol[s];
      assert b == Slot(lens, n);
      Skip(s);
      sym := z.value[b];
    }

    /** `_ssfn__zhuffman_decode`: the symbol whose canonical code comes next, or -1 when no code matches. */
    method DecodeSymbol(z: ZHuffman, ghost lens: seq<nat>) returns (sym: int)
      requires Valid() && z.TableFor(lens)
      modifies this`zbuffer, this`numBits, this`codeBuffer
      ensures Valid()
      ensures sym == Decode(lens, input, old(Pos()))
      ensures Pos() == old(Pos()) + (if sym >= 0 then lens[sym] else 0)
    {
      hide Lsb, Msb, Shr, Shl, Decode, Low;
      if numBits < 16 {
        FillBits();
      }
      ghost var p := Pos();
      LsbTake(input, p, 9, numBits - 9);
      LsbBound(input, p, 9);
      Pow2Values();
      ghost var j := Lsb(input, p, 9);
      var b := z.fast[Low(codeBuffer, 9)];
      assert FastEntry(lens, |lens|, j, b);
      if b != 0 {
        ghost var n: nat :| n < |lens| && Hits(lens, n, j) && b == FastValue(lens[n], n);
        FastValueParts(lens[n], n);
        HitsIsMatch(lens, input, p, n);
        DecodeUnique(lens, input, p, n);
        Skip(Shr(b, FAST_BITS));
        return Low(b, FAST_BITS);
      }
      FastMiss(lens, input, p);
      sym := DecodeSlow(z, lens);
    }

    /** Length extra bits, distance symbol and distance extra bits. */
    method ReadPair(z: nat, ghost dl: seq<nat>) returns (ok: bool, len: nat, dist: nat)
      requires Valid() && zDistance.TableFor(dl) && 257 <= z
      requires var r := PairAt(input, Pos(), z, dl); r.Done? || r.Bad?
      modifies this`zbuffer, this`numBits, this`codeBuffer
      ensures Valid()
      ensures var r := old(PairAt(input, Pos(), z, dl));
              && ok == r.Done?
              && (ok ==> r.value == Pair(len, dist) && Pos() == r.pos)
    {
      hide Lsb, Decode, LengthBase, LengthExtra, DistBase, DistExtra, LengthEntry, DistanceEntry, ZHuffman.TableFor;
      LengthTables(z);
      var (lengthBase, lengthExtra) := LengthEntry(z - 257);
      len, dist := lengthBase, 0;
      NoBits(input, Pos());
      if lengthExtra != 0 {
        var e := Receive(lengthExtra);
        len := len + e;
      }
      var d := DecodeSymbol(zDistance, dl);
      if d < 0 {
        return false, len, dist;
      }
      DistanceTables(d);
      var (distBase, distExtra) := DistanceEntry(d);
      dist := distBase;
      NoBits(input, Pos());
      if distExtra != 0 {
        var e := Receive(distExtra);
        dist := dist + e;
      }
      ok := true;
    }

    /** The compressed data of a block (`_ssfn__parse_huffman_block`). */
    method ParseHuffmanBlock(ghost codes: Codes, ghost fuel: nat) returns (ok: bool)
      requires Valid() && zLength.TableFor(codes.ll) && zDistance.TableFor(codes.dl)
      requires var r := Tokens(input, Pos(), codes.ll, codes.dl, out, fuel); r.Done? || r.Bad?
      modifies this
      ensures Valid()
      ensures var r := old(Tokens(input, Pos(), codes.ll, codes.dl, out, fuel));
              && ok == r.Done?
              && (ok ==> out == r.value && Pos() == r.pos)
    {
      hide Lsb, Decode, PairAt, CopyBack, Tokens, ZHuffman.TableFor;
      ghost var r := Tokens(input, Pos(), codes.ll, codes.dl, out, fuel);
      ghost var f := fuel;
      var zout: seq<Byte> := out;
      while true
        invariant Valid()
        invariant Tokens(input, Pos(), codes.ll, codes.dl, zout, f) == r
        decreases f
      {
        ghost var p := Pos();
        TokensStart(input, p, codes.ll, codes.dl, zout, f);
        var z := DecodeSymbol(zLength, codes.ll);
        if z < 256 {
          if z < 0 {
            return false;
          }
          TokensLiteral(input, p, codes.ll, codes.dl, zout, f, z);
          zout := zout + [z];
        } else {
          if z == 256 {
            TokensEnd(input, p, codes.ll, codes.dl, zout, f);
            out := zout;
            return true;
          }
          TokensPair(input, p, codes.ll, codes.dl, zout, f, z);
          var good, len, dist := ReadPair(z, codes.dl);
          if !good {
            return false;
          }
          if |zout| < dist {
            return false;
          }
          zout := Copy(zout, len, dist);
        }
        f := f - 1;
      }
    }

    /** `_ssfn__parse_uncompressed_block`: after alignment at most three whole bytes are left in the
        buffer, so the four header bytes empty it and the byte pointer stands at the data. */
    method ParseUncompressedBlock() returns (ok: bool)
      requires Valid() && numBits <= 31
      modifies this
      ensures Valid()
      ensures var r := old(Stored(input, Pos(), out));
              && ok == r.Done?
              && (ok ==> out == r.value && Pos() == r.pos)
    {
      hide Lsb, Bytes, Align;
      ghost var q := Align(Pos());
      ByteAlign();
      var header := ReadStoredHeader();
      var len := (header[1] as int) * 256 + header[0];
      var nlen := (header[3] as int) * 256 + header[2];
      TwoBytes(input, q / 8);
      TwoBytes(input, q / 8 + 2);
      if nlen != 0xffff - len {
        return false;
      }
      CopyStored(len);
      ok := true;
    }

    method ByteAlign()
      requires Valid() && numBits <= 31
      modifies this`zbuffer, this`numBits, this`codeBuffer
      ensures Valid() && Pos() == Align(old(Pos())) && numBits % 8 == 0 && numBits <= 24
    {
      hide Lsb;
      ghost var p := Pos();
      if numBits % 8 != 0 {
        var _ := Receive(numBits % 8);
      }
      AlignIsNext(p, Pos());
    }

    /** Empties the bit buffer and then reads from the byte pointer. */
    method ReadStoredHeader() returns (header: seq<Byte>)
      requires Valid() && numBits % 8 == 0 && numBits <= 24
      modifies this`zbuffer, this`numBits, this`codeBuffer
      ensures Valid() && numBits == 0 && Pos() == old(Pos()) + 32
      ensures |header| == 4 && forall i :: 0 <= i < 4 ==> header[i] == input(old(Pos()) / 8 + i)
    {
      hide Low, Lsb;
      ghost var b := Pos() / 8;
      assert Pos() == 8 * b;
      header := [];
      while numBits > 0
        invariant Valid() && numBits % 8 == 0 && numBits + 8 * |header| <= 24
        invariant Pos() == 8 * (b + |header|)
        invariant forall i :: 0 <= i < |header| ==> header[i] == input(b + i)
        decreases numBits
      {
        assert codeBuffer == Lsb(input, 8 * (b + |header|), numBits);
        FirstByte(input, b + |header|, numBits);
        header := header + [Low(codeBuffer, 8)];
        Skip(8);
      }
      while |header| < 4
        invariant Valid() && numBits == 0 && |header| <= 4
        invariant Pos() == 8 * (b + |header|)
        invariant forall i :: 0 <= i < |header| ==> header[i] == input(b + i)
      {
        NoBits(input, Pos());
        NoBits(input, Pos() + 8);
        header := header + [input(zbuffer)];
        zbuffer := zbuffer + 1;
      }
    }

    method CopyStored(len: nat)
      requires Valid() && numBits == 0
      modifies this`zbuffer, this`out
      ensures Valid() && numBits == 0 && Pos() == old(Pos()) + 8 * len
      ensures out == old(out) + Bytes(input, old(Pos()) / 8, len)
    {
      ghost var out0 := out;
      for k := 0 to len
        invariant zbuffer == old(zbuffer) && out == out0 + Bytes(input, zbuffer, k)
      {
        out := out + [input(zbuffer + k)];
      }
      zbuffer := zbuffer + len;
    }

    method ReadCodeLengthSizes(hclen: nat) returns (sizes: seq<nat>)
      requires Valid() && hclen <= 19
      modifies this`zbuffer, this`numBits, this`codeBuffer
      ensures Valid() && Pos() == old(Pos()) + 3 * hclen
      ensures sizes == CodeLengthSizes(input, old(Pos()), hclen)
    {
      hide Lsb, Order, Place;
      ghost var p := Pos();
      sizes := Repeat(0, 19);
      for i := 0 to hclen
        invariant Valid() && Pos() == p + 3 * i && |sizes| == 19
        invariant forall c :: 0 <= c < 19 ==>
          sizes[c] == if Place(c) < i then Lsb(input, p + 3 * Place(c), 3) else 0
      {
        var s := Receive(3);
        OrderInverses();
        OrderTable(i);
        sizes := sizes[LENGTH_DEZIGZAG[i] := s];
      }
    }

    method ReadRun(c: nat) returns (n: nat)
      requires Valid() && 16 <= c <= 18
      modifies this`zbuffer, this`numBits, this`codeBuffer
      ensures Valid() && Pos() == old(Pos()) + RunBits(c) && n == RunAt(input, old(Pos()), c)
    {
      hide Lsb;
      if c == 16 {
        n := Receive(2);
        n := n + 3;
      } else if c == 17 {
        n := Receive(3);
        n := n + 3;
      } else {
        n := Receive(7);
        n := n + 11;
      }
    }

    method ReadLengths(z: ZHuffman, ghost cl: seq<nat>, ntot: nat) returns (ok: bool, lencodes: seq<nat>)
      requires Valid() && z.TableFor(cl)
      modifies this`zbuffer, this`numBits, this`codeBuffer
      ensures Valid()
      ensures var r := old(Lengths(input, Pos(), cl, ntot, []));
              && ok == r.Done?
              && (ok ==> lencodes == r.value && Pos() == r.pos)
    {
      hide Lsb, Decode, RunAt, Repeat, Lengths, ZHuffman.TableFor;
      ghost var r := Lengths(input, Pos(), cl, ntot, []);
      lencodes := [];
      while |lencodes| < ntot
        invariant Valid() && |lencodes| <= ntot
        invariant Lengths(input, Pos(), cl, ntot, lencodes) == r
      {
        ghost var p := Pos();
        LengthsEnds(input, p, cl, ntot, lencodes);
        var c := DecodeSymbol(z, cl);
        if c < 0 || c >= 19 {
          return false, [];
        }
        if c < 16 {
          LengthsPlain(input, p, cl, ntot, lencodes, c);
          lencodes := lencodes + [c];
        } else {
          LengthsRun(input, p, cl, ntot, lencodes, c);
          var fill := 0;
          var n := ReadRun(c);
          if c == 16 {
            if |lencodes| == 0 {
              return false, [];
            }
            fill := lencodes[|lencodes| - 1];
          }
          if ntot - |lencodes| < n {
            return false, [];
          }
          lencodes := lencodes + Repeat(fill, n);
        }
      }
      LengthsEnds(input, Pos(), cl, ntot, lencodes);
      ok := true;
    }

    /** `_ssfn__compute_huffman_codes`: reads a dynamic header and builds both tables. */
    method ComputeHuffmanCodes() returns (ok: bool)
      requires Valid() && Tables()
      modifies this`zbuffer, this`numBits, this`codeBuffer, zLength.Repr(), zDistance.Repr()
      ensures Valid()
      ensures var r := old(Header(input, Pos()));
              && ok == r.Done?
              && (ok ==> zLength.TableFor(r.value.ll) && zDistance.TableFor(r.value.dl) && Pos() == r.pos)
    {
      hide Lsb, CodesAt, CodeLengthSizes, ValidLengths, ZHuffman.TableFor, Header;
      ghost var p := Pos();
      HeaderIs(input, p);
      var hlit, hdist, hclen := ReadCounts();
      HeaderBounds(input, p);
      var sizes := ReadCodeLengthSizes(hclen);
      CodeLengthSizesValid(input, p + 14, hclen);
      ok := ReadCodes(sizes, hlit, hdist);
    }

    /** The three counts at the head of a dynamic block. */
    method ReadCounts() returns (hlit: nat, hdist: nat, hclen: nat)
      requires Valid()
      modifies this`zbuffer, this`numBits, this`codeBuffer
      ensures Valid() && Pos() == old(Pos()) + 14
      ensures hlit == Lsb(input, old(Pos()), 5) + 257 && hdist == Lsb(input, old(Pos()) + 5, 5) + 1
      ensures hclen == Lsb(input, old(Pos()) + 10, 4) + 4
    {
      hide Lsb;
      hlit := Receive(5);
      hdist := Receive(5);
      hclen := Receive(4);
      hlit, hdist, hclen := hlit + 257, hdist + 1, hclen + 4;
    }

    method ReadCodes(sizes: seq<nat>, hlit: nat, hdist: nat) returns (ok: bool)
      requires Valid() && Tables() && ValidLengths(sizes) && hlit <= 288 && hdist <= 288
      modifies this`zbuffer, this`numBits, this`codeBuffer, zLength.Repr(), zDistance.Repr()
      ensures Valid()
      ensures var r := old(CodesAt(input, Pos(), sizes, hlit, hdist));
              && ok == r.Done?
              && (ok ==> zLength.TableFor(r.value.ll) && zDistance.TableFor(r.value.dl) && Pos() == r.pos)
    {
      hide Lsb, Lengths, KraftTo, KraftAtMostOne, CodesAt, ZHuffman.TableFor, ValidLengths, UsableCodes;
      CodesAtCases(input, Pos(), sizes, hlit, hdist);
      var lencodes;
      ok, lencodes := ReadLencodes(sizes, hlit + hdist);
      if !ok {
        return;
      }
      SplitLengths(lencodes, hlit);
      ok := BuildBoth(lencodes[..hlit], lencodes[hlit..]);
    }

    method ReadLencodes(sizes: seq<nat>, ntot: nat) returns (ok: bool, lencodes: seq<nat>)
      requires Valid() && ValidLengths(sizes)
      modifies this`zbuffer, this`numBits, this`codeBuffer
      ensures Valid()
      ensures var r := old(Lengths(input, Pos(), sizes, ntot, []));
              && ok == (KraftAtMostOne(sizes) && r.Done?)
              && (ok ==> lencodes == r.value && Pos() == r.pos)
      ensures ok ==> |lencodes| == ntot && forall i :: 0 <= i < ntot ==> lencodes[i] <= 15
    {
      hide Lsb, Lengths, KraftTo, ZHuffman.TableFor;
      var zCodelength := new ZHuffman();
      ok := zCodelength.Build(sizes);
      if !ok {
        return false, [];
      }
      LengthsBound(input, Pos(), sizes, ntot, []);
      ok, lencodes := ReadLengths(zCodelength, sizes, ntot);
    }

    method BuildBoth(ll: seq<nat>, dl: seq<nat>) returns (ok: bool)
      requires Tables() && ValidLengths(ll) && ValidLengths(dl)
      modifies zLength.Repr(), zDistance.Repr()
      ensures ok <==> KraftAtMostOne(ll) && KraftAtMostOne(dl)
      ensures ok ==> zLength.TableFor(ll) && zDistance.TableFor(dl)
    {
      hide KraftTo, ZHuffman.TableFor;
      ok := zLength.Build(ll);
      if ok {
        ok := zDistance.Build(dl);
      }
    }

    /** One block after its three header bits. */
    method ParseBlock(kind: nat, ghost fuel: nat) returns (ok: bool)
      requires Valid() && Tables() && numBits <= 31 && kind < 4
      requires var r := BlockBody(input, Pos(), kind, out, fuel); r.Done? || r.Bad?
      modifies this, zLength.Repr(), zDistance.Repr()
      ensures Valid()
      ensures var r := old(BlockBody(input, Pos(), kind, out, fuel));
              && ok == r.Done?
              && (ok ==> out == r.value && Pos() == r.pos)
    {
      hide Lsb, Tokens, Stored, Header;
      if kind == 0 {
        ok := ParseUncompressedBlock();
      } else if kind == 3 {
        ok := false;
      } else if kind == 1 {
        ok := ParseFixedBlock(fuel);
      } else {
        ok := ParseDynamicBlock(fuel);
      }
    }

    method ParseFixedBlock(ghost fuel: nat) returns (ok: bool)
      requires Valid() && Tables()
      requires var r := Tokens(input, Pos(), FixedLengths(), FixedDistances(), out, fuel); r.Done? || r.Bad?
      modifies this, zLength.Repr(), zDistance.Repr()
      ensures Valid()
      ensures var r := old(Tokens(input, Pos(), FixedLengths(), FixedDistances(), out, fuel));
              && ok == r.Done?
              && (ok ==> out == r.value && Pos() == r.pos)
    {
      hide Lsb, Tokens, KraftTo, FixedLengths, FixedDistances, ZHuffman.TableFor;
      FixedCodesUsable();
      ok := BuildBoth(FixedLengths(), FixedDistances());
      ok := ParseHuffmanBlock(Codes(FixedLengths(), FixedDistances()), fuel);
    }

    method ParseDynamicBlock(ghost fuel: nat) returns (ok: bool)
      requires Valid() && Tables()
      requires var r := BlockBody(input, Pos(), 2, out, fuel); r.Done? || r.Bad?
      modifies this, zLength.Repr(), zDistance.Repr()
      ensures Valid()
      ensures var r := old(BlockBody(input, Pos(), 2, out, fuel));
              && ok == r.Done?
              && (ok ==> out == r.value && Pos() == r.pos)
    {
      hide Lsb, Tokens, Header, ZHuffman.TableFor;
      ghost var h := Header(input, Pos());
      ok := ComputeHuffmanCodes();
      if !ok {
        return;
      }
      ok := ParseHuffmanBlock(h.value, fuel);
    }

    /** `_ssfn__parse_zlib`: succeeds exactly on the streams that have a meaning, and produces it. */
    method ParseZlib(ghost fuel: nat) returns (ok: bool)
      requires Tables()
      requires var r := Inflate(input, 8 * zbuffer, out, fuel); r.Done? || r.Bad?
      modifies this, zLength.Repr(), zDistance.Repr()
      ensures Valid()
      ensures var r := old(Inflate(input, 8 * zbuffer, out, fuel));
              && ok == r.Done?
              && (ok ==> out == r.value && Pos() == r.pos)
    {
      hide BlockBody, Inflate, Lsb;
      ghost var r := Inflate(input, 8 * zbuffer, out, fuel);
      numBits, codeBuffer := 0, 0;
      NoBits(input, 8 * zbuffer);
      ghost var f := fuel;
      var fin := 0;
      while fin == 0
        invariant Valid()
        invariant fin == 0 ==> Inflate(input, Pos(), out, f) == r
        invariant fin != 0 ==> r == Done(out, Pos())
        decreases if fin == 0 then f + 1 else 0
      {
        ghost var p := Pos();
        InflateStep(input, p, out, f);
        fin := Receive(1);
        var kind := Receive(2);
        BlockBounds(input, p);
        ok := ParseBlock(kind, f);
        if !ok {
          return;
        }
        f := f - 1;
      }
      ok := true;
    }
  }

  /** The two copy loops of a length-distance pair; distance 1 repeats one byte. */
  method Copy(out: seq<Byte>, len: nat, dist: nat) returns (zout: seq<Byte>)
    requires len >= 1 && 1 <= dist <= |out|
    ensures zout == CopyBack(out, len, dist)
  {
    hide CopyBack;
    zout := out;
    var p := |zout| - dist;
    var n := len;
    if dist == 1 {
      var v := zout[p];
      while n > 0
        invariant |zout| == |out| + (len - n) && zout[|zout| - 1] == v
        invariant CopyBack(zout, n, dist) == CopyBack(out, len, dist)
      {
        CopyStep(zout, n, dist);
        zout := zout + [v];
        n := n - 1;
      }
    } else {
      while n > 0
        invariant |zout| == |out| + (len - n) && p == |zout| - dist
        invariant CopyBack(zout, n, dist) == CopyBack(out, len, dist)
      {
        CopyStep(zout, n, dist);
        zout := zout + [zout[p]];
        p := p + 1;
        n := n - 1;
      }
    }
    CopyNothing(zout, dist);
  }

  lemma CopyStep(out: seq<Byte>, n: nat, dist: nat)
    requires 1 <= dist <= |out| && n > 0
    ensures CopyBack(out, n, dist) == CopyBack(out + [out[|out| - dist]], n - 1, dist)
  {
  }

  lemma CopyNothing(out: seq<Byte>, dist: nat)
    requires 1 <= dist <= |out|
    ensures CopyBack(out, 0, dist) == out
  {
  }

  /** Or-ing the next byte in above the buffered bits extends the buffer by eight bits. */
  lemma AppendByte(s: Stream, k: nat, p: nat, n: nat)
    requires n <= 24 && p + n == 8 * k
    ensures Or(Lsb(s, p, n), Shl32(s(k), n)) == Lsb(s, p, n + 8)
  {
    hide Or, Lsb, Shl;
    LsbSplit(s, p, n, 8);
    LsbByte(s, k);
    LsbBound(s, p, n);
    Shl32Exact(s(k), n, 8);
    OrDisjoint(Lsb(s, p, n), s(k), n);
  }

  /** Reversing the buffer gives the next 16 bits as a left-justified code. */
  lemma SlowKey(s: Stream, p: nat, n: nat)
    requires n >= 16
    ensures BitReverse(Lsb(s, p, n), 16) == Msb(s, p, 16)
    ensures Msb(s, p, 16) < 0x10000
  {
    BitReverse16IsRev(Lsb(s, p, n));
    LsbTake(s, p, 16, n - 16);
    RevLow(Lsb(s, p, n), 16);
    MsbIsRev(s, p, 16);
    Pow2Values();
  }

  /** A miss in the fast table means that the next bits lie beyond all codes of up to nine bits. */
  lemma FastMiss(lens: seq<nat>, s: Stream, p: nat)
    requires ValidLengths(lens) && KraftAtMostOne(lens)
    requires FastEntry(lens, |lens|, Lsb(s, p, 9), 0)
    ensures Msb(s, p, 16) >= MaxCode(lens, 9)
  {
    if Msb(s, p, 16) < MaxCode(lens, 9) {
      var n := MatchBelow(lens, s, p, 9);
      HitsIsMatch(lens, s, p, n);
    }
  }

  lemma NoMatchAbove(lens: seq<nat>, s: Stream, p: nat)
    requires ValidLengths(lens) && KraftAtMostOne(lens) && Msb(s, p, 16) >= MaxCode(lens, 15)
    ensures Decode(lens, s, p) == -1
  {
    var n := Decode(lens, s, p);
    if n != -1 {
      MatchInterval(lens, s, p, n);
      MaxCodeMono(lens, lens[n], 15);
    }
  }

  lemma AlignIsNext(p: nat, q: nat)
    requires p <= q < p + 8 && q % 8 == 0
    ensures Align(p) == q
  {
  }

  lemma FirstByte(s: Stream, k: nat, n: nat)
    requires n >= 8
    ensures Low(Lsb(s, 8 * k, n), 8) == s(k)
  {
    LsbByte(s, k);
    LsbTake(s, 8 * k, 8, n - 8);
  }

  lemma TwoBytes(s: Stream, k: nat)
    ensures Lsb(s, 8 * k, 16) == s(k + 1) * 256 + s(k)
  {
    LsbSplit(s, 8 * k, 8, 8);
    LsbByte(s, k);
    LsbByte(s, k + 1);
    ShlByte(s(k + 1));
  }

  lemma ShlByte(x: nat)
    ensures Shl(x, 8) == 256 * x
  {
    assert Shl(x, 0) == x;
    assert Shl(x, 1) == 2 * Shl(x, 0);
    assert Shl(x, 2) == 2 * Shl(x, 1);
    assert Shl(x, 3) == 2 * Shl(x, 2);
    assert Shl(x, 4) == 2 * Shl(x, 3);
    assert Shl(x, 5) == 2 * Shl(x, 4);
    assert Shl(x, 6) == 2 * Shl(x, 5);
    assert Shl(x, 7) == 2 * Shl(x, 6);
    assert Shl(x, 8) == 2 * Shl(x, 7);
  }

  lemma SplitLengths(lens: seq<nat>, k: nat)
    requires k <= |lens| && k <= 288 && |lens| - k <= 288 && forall i :: 0 <= i < |lens| ==> lens[i] <= 15
    ensures ValidLengths(lens[..k]) && ValidLengths(lens[k..])
    ensures UsableCodes(Codes(lens[..k], lens[k..])) <==> KraftAtMostOne(lens[..k]) && KraftAtMostOne(lens[k..])
  {
    hide KraftTo;
  }

  lemma HeaderIs(s: Stream, p: nat)
    ensures var hclen := Lsb(s, p + 10, 4) + 4;
            Header(s, p) ==
            CodesAt(s, p + 14 + 3 * hclen, CodeLengthSizes(s, p + 14, hclen), Lsb(s, p, 5) + 257, Lsb(s, p + 5, 5) + 1)
  {
    hide CodesAt, CodeLengthSizes, Lsb;
  }

  lemma HeaderBounds(s: Stream, p: nat)
    ensures Lsb(s, p, 5) < 32 && Lsb(s, p + 5, 5) < 32 && Lsb(s, p + 10, 4) < 16
  {
    LsbBound(s, p, 5);
    LsbBound(s, p + 5, 5);
    LsbBound(s, p + 10, 4);
    Pow2Values();
  }

  lemma OrderInverses()
    ensures forall i: nat :: i < 19 ==> Place(Order(i)) == i
    ensures forall c: nat :: c < 19 ==> Order(Place(c)) == c
  {
    forall i: nat | i < 19
      ensures Place(Order(i)) == i && Order(Place(i)) == i
    {
      OrderInverse(i);
    }
  }

  lemma NoBits(s: Stream, p: nat)
    ensures Lsb(s, p, 0) == 0
  {
  }

  lemma BlockBounds(s: Stream, p: nat)
    ensures Lsb(s, p, 1) < 2 && Lsb(s, p + 1, 2) < 4
  {
    LsbBound(s, p, 1);
    LsbBound(s, p + 1, 2);
    Pow2Values();
  }

  // ----- the fixed codes satisfy the Kraft equality -----

  lemma {:induction false} KraftRun(lens: seq<nat>, i: nat, n: nat, l: nat)
    requires ValidLengths(lens) && i + n <= |lens| && 1 <= l <= 15
    requires forall k :: i <= k < i + n ==> lens[k] == l
    ensures KraftTo(lens, i + n) == KraftTo(lens, i) + Shl(n, 15 - l)
    decreases n
  {
    if n == 0 {
      ShlZero(15 - l);
    } else {
      KraftRun(lens, i, n - 1, l);
      ShlAdd(n - 1, 1, 15 - l);
      ShlOne(15 - l);
    }
  }

  lemma FixedCodesUsable()
    ensures UsableCodes(Codes(FixedLengths(), FixedDistances()))
  {
    hide KraftTo, FixedLengths, FixedDistances;
    FixedLengthsKraft(FixedLengths());
    FixedDistancesKraft(FixedDistances());
  }

  lemma KraftOfNone(lens: seq<nat>)
    requires ValidLengths(lens)
    ensures KraftTo(lens, 0) == 0
  {
  }

  lemma FixedLengthsKraft(ll: seq<nat>)
    requires ll == FixedLengths()
    ensures KraftAtMostOne(ll)
  {
    hide KraftTo, FixedLengths;
    KraftOfNone(ll);
    KraftRun(ll, 0, 144, 8);
    KraftRun(ll, 144, 112, 9);
    KraftRun(ll, 256, 24, 7);
    KraftRun(ll, 280, 8, 8);
    assert Shl(144, 7) == 18432 && Shl(112, 6) == 7168 && Shl(24, 8) == 6144 && Shl(8, 7) == 1024;
    assert Pow2(15) == 32768;
  }

  lemma FixedDistancesKraft(dl: seq<nat>)
    requires dl == FixedDistances()
    ensures KraftAtMostOne(dl)
  {
    hide KraftTo, FixedDistances;
    KraftOfNone(dl);
    KraftRun(dl, 0, 32, 5);
    assert Shl(32, 10) == 32768;
    assert Pow2(15) == 32768;
  }

  lemma {:induction false} CountRun(lens: seq<nat>, l: nat, from: nat, n: nat, v: nat)
    requires from + n <= |lens| && forall i :: from <= i < from + n ==> lens[i] == v
    ensures CountTo(lens, l, from + n) == CountTo(lens, l, from) + if v == l then n else 0
    decreases n
  {
    if n > 0 {
      CountRun(lens, l, from, n - 1, v);
    }
  }

  /** How many of the first `i` symbols of the fixed code have length `l`. */
  lemma FixedCounts(l: nat, i: nat)
    requires i <= 288
    ensures CountTo(FixedLengths(), l, i) ==
            if l == 8 then (if i < 144 then i else if i < 280 then 144 else i - 136)
            else if l == 9 then (if i < 144 then 0 else if i < 256 then i - 144 else 112)
            else if l == 7 then (if i < 256 then 0 else if i < 280 then i - 256 else 24)
            else 0
  {
    hide FixedLengths;
    var ll := FixedLengths();
    assert CountTo(ll, l, 0) == 0;
    var a, b, c := if i < 144 then i else 144, if i < 256 then i else 256, if i < 280 then i else 280;
    CountRun(ll, l, 0, a, 8);
    if i > 144 {
      CountRun(ll, l, 144, b - 144, 9);
    }
    if i > 256 {
      CountRun(ll, l, 256, c - 256, 7);
    }
    if i > 280 {
      CountRun(ll, l, 280, i - 280, 8);
    }
  }

  lemma {:induction false} NoShortCodes(l: nat)
    requires l <= 7
    ensures FirstCode(FixedLengths(), l) == 0
  {
    hide FixedLengths;
    if l > 0 {
      NoShortCodes(l - 1);
      FixedCounts(l - 1, 288);
    }
  }

  /** The fixed codes are those of the table in section 3.2.6 of RFC 1951. */
  lemma FixedCodes(n: nat)
    requires n < 288
    ensures Code(FixedLengths(), n) ==
            if n < 144 then 0x30 + n else if n < 256 then 0x190 + (n - 144)
            else if n < 280 then n - 256 else 0xC0 + (n - 280)
  {
    hide FixedLengths, CountTo;
    var ll := FixedLengths();
    NoShortCodes(7);
    FixedCounts(7, 288);
    FixedCounts(8, 288);
    FixedCounts(ll[n], n);
    assert FirstCode(ll, 8) == 2 * (FirstCode(ll, 7) + BlCount(ll, 7)) == 48;
    assert FirstCode(ll, 9) == 2 * (FirstCode(ll, 8) + BlCount(ll, 8)) == 400;
  }
}
