/** The decoding tables of the inflater and the routine that builds them. */
module HuffmanTable {
  import opened Bits
  import opened BitStream
  import opened Huffman

  const FAST_BITS: nat := 9

  /** A fast-table entry packs a code length and a symbol. */
  function FastValue(l: nat, n: nat): nat {
    Shl(l, FAST_BITS) + n
  }

  lemma FastValueParts(l: nat, n: nat)
    requires l > 0 && n < 512
    ensures FastValue(l, n) > 0
    ensures Shr(FastValue(l, n), FAST_BITS) == l && Low(FastValue(l, n), FAST_BITS) == n
    ensures Or(Shl(l, FAST_BITS), n) == FastValue(l, n)
  {
    Pow2Values();
    Parts(n, l, FAST_BITS);
    ShlGrow(l, FAST_BITS);
    OrDisjoint(n, l, FAST_BITS);
    OrComm(Shl(l, FAST_BITS), n);
  }

  /** What entry `j` must hold once the first `i` symbols are entered. */
  ghost predicate FastEntry(lens: seq<nat>, i: nat, j: nat, v: nat) {
    if v == 0 then forall n: nat :: n < i ==> !Hits(lens, n, j)
    else exists n: nat :: n < i && Hits(lens, n, j) && v == FastValue(lens[n], n)
  }

  /** Counts how often each code length occurs. */
  method CountSizes(sizelist: seq<nat>) returns (sizes: seq<nat>)
    requires ValidLengths(sizelist)
    ensures |sizes| == 17
    ensures forall l :: 0 <= l < 16 ==> sizes[l] == BlCount(sizelist, l)
  {
    sizes := seq(17, _ => 0);
    for i := 0 to |sizelist|
      invariant |sizes| == 17
      invariant forall l :: 0 <= l < 16 ==> sizes[l] == CountTo(sizelist, l, i)
    {
      sizes := sizes[sizelist[i] := sizes[sizelist[i]] + 1];
    }
    sizes := sizes[0 := 0];
  }

  /** `_ssfn__zhuffman` */
  class ZHuffman {
    const fast: array<nat>
    const firstcode: array<nat>
    const maxcode: array<nat>
    const firstsymbol: array<nat>
    const size: array<nat>
    const value: array<nat>

    ghost predicate Allocated() {
      && fast.Length == 512 && firstcode.Length == 16 && maxcode.Length == 17
      && firstsymbol.Length == 16 && size.Length == 288 && value.Length == 288
      && firstcode != firstsymbol && size != value
    }

    ghost function Repr(): set<object> {
      {fast, firstcode, maxcode, firstsymbol, size, value}
    }

    constructor ()
      ensures Allocated() && fresh(Repr())
    {
      fast := new nat[512];
      firstcode := new nat[16];
      maxcode := new nat[17];
      firstsymbol := new nat[16];
      size := new nat[288];
      value := new nat[288];
    }

    /** The per-length rows below `l` describe the canonical code. */
    ghost predicate RowsTo(lens: seq<nat>, l: nat)
      requires Allocated() && l <= 16
      reads firstcode, maxcode, firstsymbol
    {
      && (forall i :: 1 <= i < l ==> firstcode[i] == FirstCode(lens, i))
      && (forall i :: 1 <= i < l ==> firstsymbol[i] == FirstSymbol(lens, i))
      && (forall i :: 1 <= i < l ==> maxcode[i] == MaxCode(lens, i))
    }

    ghost predicate ValuesTo(lens: seq<nat>, i: nat)
      requires Allocated()
      reads value, size
    {
      forall n :: 0 <= n < i && n < |lens| && lens[n] > 0 ==>
        Slot(lens, n) < 288 && value[Slot(lens, n)] == n && size[Slot(lens, n)] == lens[n]
    }

    ghost predicate FastTo(lens: seq<nat>, i: nat)
      requires Allocated()
      reads fast
    {
      forall j :: 0 <= j < 512 ==> FastEntry(lens, i, j, fast[j])
    }

    /** The tables are those of the canonical code with lengths `lens`. */
    ghost predicate TableFor(lens: seq<nat>)
      reads fast, firstcode, maxcode, firstsymbol, value, size
    {
      && Allocated() && ValidLengths(lens) && KraftAtMostOne(lens)
      && RowsTo(lens, 16) && maxcode[16] == 0x10000
      && ValuesTo(lens, |lens|) && FastTo(lens, |lens|)
    }

    method ClearFast()
      requires Allocated()
      modifies fast
      ensures forall j :: 0 <= j < 512 ==> fast[j] == 0
    {
      for j := 0 to 512
        invariant forall j' :: 0 <= j' < j ==> fast[j'] == 0
      {
        fast[j] := 0;
      }
    }

    method StoreRow(ghost lens: seq<nat>, i: nat, code: nat, k: nat, count: nat)
      requires Allocated() && ValidLengths(lens) && 1 <= i <= 15 && RowsTo(lens, i)
      requires EndCode(lens, i - 1) <= Pow2(i - 1)
      requires code == FirstCode(lens, i) && k == FirstSymbol(lens, i) && count == BlCount(lens, i)
      modifies firstcode, maxcode, firstsymbol
      ensures RowsTo(lens, i + 1)
    {
      hide FirstCode, FirstSymbol, BlCount, CountTo, Low, Shl;
      RowFits(lens, i);
      firstcode[i] := Low(code, 16);
      firstsymbol[i] := Low(k, 16);
      maxcode[i] := Shl(code + count, 16 - i);
    }

    /** First codes and left-justified limits of every length; fails as soon as a length overflows. */
    method BuildRows(ghost lens: seq<nat>, sizes: seq<nat>) returns (ok: bool, next_code: seq<nat>)
      requires Allocated() && ValidLengths(lens) && |sizes| == 17
      requires forall l :: 0 <= l < 16 ==> sizes[l] == BlCount(lens, l)
      modifies firstcode, maxcode, firstsymbol
      ensures ok <==> KraftAtMostOne(lens)
      ensures ok ==> RowsTo(lens, 16) && maxcode[16] == 0x10000
      ensures ok ==> |next_code| == 16 && forall l :: 1 <= l < 16 ==> next_code[l] == FirstCode(lens, l)
    {
      hide FirstCode, FirstSymbol, EndCode, BlCount, KraftTo, MaxCode, Low, Shl, ValidLengths, ZHuffman.RowsTo;
      KraftIsEndCode(lens);
      next_code := seq(16, _ => 0);
      var code, k := 0, 0;
      NoRows(lens);
      RowStep(lens, 0);
      for i := 1 to 16
        invariant code == FirstCode(lens, i) && k == FirstSymbol(lens, i)
        invariant EndCode(lens, i - 1) <= Pow2(i - 1)
        invariant |next_code| == 16 && forall l :: 1 <= l < i ==> next_code[l] == FirstCode(lens, l)
        invariant RowsTo(lens, i)
      {
        next_code := next_code[i := code];
        RowFits(lens, i);
        RowStep(lens, i);
        StoreRow(lens, i, code, k, sizes[i]);
        code := code + sizes[i];
        if sizes[i] != 0 {
          if code - 1 >= Pow2(i) {
            OverflowGrows(lens, i);
            return false, next_code;
          }
        }
        code := 2 * code;
        k := k + sizes[i];
      }
      EndRows(lens);
      ok := true;
    }

    lemma NoRows(lens: seq<nat>)
      requires Allocated()
      ensures RowsTo(lens, 1)
    {
    }

    method EndRows(ghost lens: seq<nat>)
      requires Allocated() && RowsTo(lens, 16)
      modifies maxcode
      ensures RowsTo(lens, 16) && maxcode[16] == 0x10000
    {
      hide FirstCode, FirstSymbol, MaxCode;
      maxcode[16] := 0x10000;
    }

    /** Enters `v` at every index whose low `s` bits are `first`. */
    method FillFast(first: nat, s: nat, v: nat)
      requires Allocated() && 1 <= s <= FAST_BITS && first < Pow2(s)
      modifies fast
      ensures forall j :: 0 <= j < 512 ==> fast[j] == if Low(j, s) == first then v else old(fast[j])
    {
      var j := first;
      Pow2Values();
      Pow2Mono(s, FAST_BITS);
      LowSmall(first, s);
      FirstOfClass(first, s);
      while j < 512
        invariant first <= j && Low(j, s) == first
        invariant forall i :: 0 <= i < 512 ==> fast[i] == if Low(i, s) == first && i < j then v else old(fast[i])
        decreases 512 - j
      {
        fast[j] := v;
        NextOfClass(j, s);
        j := j + Pow2(s);
      }
    }

    /** Enters symbol `i` in the sorted table and, if its code is short, in the fast table. */
    method EnterSymbol(lens: seq<nat>, i: nat, next_code: seq<nat>) returns (next: seq<nat>)
      requires Allocated() && ValidLengths(lens) && KraftAtMostOne(lens)
      requires i < |lens| && RowsTo(lens, 16) && ValuesTo(lens, i) && FastTo(lens, i)
      requires |next_code| == 16
      requires forall l :: 1 <= l < 16 ==> next_code[l] == FirstCode(lens, l) + CountTo(lens, l, i)
      modifies fast, size, value
      ensures ValuesTo(lens, i + 1) && FastTo(lens, i + 1)
      ensures |next| == 16
      ensures forall l :: 1 <= l < 16 ==> next[l] == FirstCode(lens, l) + CountTo(lens, l, i + 1)
    {
      hide Or, Shl, Rev, KraftTo, BitReverse, ZHuffman.FastTo, ZHuffman.ValuesTo;
      next := next_code;
      var s := lens[i];
      if s != 0 {
        CodeFits(lens, i);
        var c := next_code[s] - firstcode[s] + firstsymbol[s];
        EnterValue(lens, i, c);
        FastValueParts(s, i);
        var fastv := Or(Shl(s, FAST_BITS), i);
        if s <= FAST_BITS {
          var j := BitReverse(next_code[s], s);
          BitReverseIsRev(next_code[s], s);
          RevBound(next_code[s], s);
          EnterFast(lens, i, j, fastv);
        } else {
          SkipFast(lens, i);
        }
        next := next[s := next[s] + 1];
      } else {
        SkipFast(lens, i);
        SkipValue(lens, i);
      }
    }

    lemma SkipValue(lens: seq<nat>, i: nat)
      requires Allocated() && i < |lens| && ValuesTo(lens, i) && lens[i] == 0
      ensures ValuesTo(lens, i + 1)
    {
    }

    method EnterValue(lens: seq<nat>, i: nat, c: nat)
      requires Allocated() && ValidLengths(lens) && i < |lens| && lens[i] > 0
      requires ValuesTo(lens, i) && c == Slot(lens, i)
      modifies size, value
      ensures ValuesTo(lens, i + 1)
    {
      SlotBound(lens, i);
      size[c] := lens[i];
      value[c] := i;
      forall n | 0 <= n < i && lens[n] > 0
        ensures Slot(lens, n) != c
      {
        if Slot(lens, n) == c {
          SlotInjective(lens, n, i);
        }
      }
    }

    method EnterFast(lens: seq<nat>, i: nat, first: nat, v: nat)
      requires Allocated() && ValidLengths(lens) && KraftAtMostOne(lens)
      requires i < |lens| && 1 <= lens[i] <= FAST_BITS && FastTo(lens, i)
      requires v == FastValue(lens[i], i) && v > 0
      requires first == Rev(Code(lens, i), lens[i]) && first < Pow2(lens[i])
      modifies fast
      ensures FastTo(lens, i + 1)
    {
      FillFast(first, lens[i], v);
      forall j | 0 <= j < 512
        ensures FastEntry(lens, i + 1, j, fast[j])
      {
        var u := old(fast[j]);
        assert FastEntry(lens, i, j, u);
        if Low(j, lens[i]) == first {
          assert Hits(lens, i, j);
        } else {
          assert !Hits(lens, i, j);
          FastEntrySkip(lens, i, j, u);
        }
      }
    }

    lemma SkipFast(lens: seq<nat>, i: nat)
      requires Allocated() && i < |lens| && FastTo(lens, i)
      requires lens[i] == 0 || lens[i] > 9
      ensures FastTo(lens, i + 1)
    {
      forall j | 0 <= j < 512
        ensures FastEntry(lens, i + 1, j, fast[j])
      {
        assert FastEntry(lens, i, j, fast[j]);
        FastEntrySkip(lens, i, j, fast[j]);
      }
    }

    /** `_ssfn__zbuild_huffman`: accepts exactly the length lists whose Kraft sum is at most one. */
    method Build(sizelist: seq<nat>) returns (ok: bool)
      requires Allocated() && ValidLengths(sizelist)
      modifies fast, firstcode, maxcode, firstsymbol, size, value
      ensures ok <==> KraftAtMostOne(sizelist)
      ensures ok ==> TableFor(sizelist)
    {
      var sizes := CountSizes(sizelist);
      ClearFast();
      for i := 1 to 16 {
        if sizes[i] > Pow2(i) {
          KraftIsEndCode(sizelist);
          OverflowGrows(sizelist, i);
          return false;
        }
      }
      var next_code;
      ok, next_code := BuildRows(sizelist, sizes);
      if !ok {
        return;
      }
      for i := 0 to |sizelist|
        invariant RowsTo(sizelist, 16) && maxcode[16] == 0x10000
        invariant ValuesTo(sizelist, i) && FastTo(sizelist, i)
        invariant |next_code| == 16
        invariant forall l :: 1 <= l < 16 ==> next_code[l] == FirstCode(sizelist, l) + CountTo(sizelist, l, i)
      {
        next_code := EnterSymbol(sizelist, i, next_code);
      }
    }
  }

  lemma RowStep(lens: seq<nat>, i: nat)
    ensures FirstCode(lens, i + 1) == 2 * EndCode(lens, i)
    ensures EndCode(lens, i) == FirstCode(lens, i) + BlCount(lens, i)
    ensures i > 0 ==> FirstSymbol(lens, i + 1) == FirstSymbol(lens, i) + BlCount(lens, i)
    ensures i == 0 ==> EndCode(lens, 0) == 0 && FirstSymbol(lens, 1) == 0
  {
  }

  lemma RowFits(lens: seq<nat>, i: nat)
    requires ValidLengths(lens) && 1 <= i <= 15 && EndCode(lens, i - 1) <= Pow2(i - 1)
    ensures Low(FirstCode(lens, i), 16) == FirstCode(lens, i)
    ensures Low(FirstSymbol(lens, i), 16) == FirstSymbol(lens, i)
    ensures BlCount(lens, i) == 0 ==> EndCode(lens, i) <= Pow2(i)
  {
    Pow2Values();
    Pow2Mono(i, 15);
    FirstSymbolCounts(lens, i);
    ShorterBound(lens, i, |lens|);
    LowSmall(FirstCode(lens, i), 16);
    LowSmall(FirstSymbol(lens, i), 16);
  }

  lemma FastEntrySkip(lens: seq<nat>, i: nat, j: nat, v: nat)
    requires FastEntry(lens, i, j, v) && !Hits(lens, i, j)
    ensures FastEntry(lens, i + 1, j, v)
  {
    if v != 0 {
      var n: nat :| n < i && Hits(lens, n, j) && v == FastValue(lens[n], n);
      assert n < i + 1;
    }
  }

  /** Below `first` itself no number has `first` as its low bits. */
  lemma FirstOfClass(first: nat, s: nat)
    ensures forall i: nat :: Low(i, s) == first ==> first <= i
  {
    forall i: nat | Low(i, s) == first
      ensures first <= i
    {
      SplitAt(i, s);
    }
  }

  /** Numbers with the same low `s` bits are exactly `2^s` apart. */
  lemma NextOfClass(j: nat, s: nat)
    ensures Low(j + Pow2(s), s) == Low(j, s)
    ensures forall i: nat :: j < i < j + Pow2(s) ==> Low(i, s) != Low(j, s)
  {
    var r, q := Low(j, s), Shr(j, s);
    SplitAt(j, s);
    LowBound(j, s);
    ShlAdd(q, 1, s);
    ShlOne(s);
    Parts(r, q + 1, s);
    forall i: nat | j < i < j + Pow2(s) && Low(i, s) == r
      ensures false
    {
      SplitAt(i, s);
      var q' := Shr(i, s);
      if q' <= q {
        ShlMono(q', q, s);
      } else {
        ShlMono(q, q', s);
      }
    }
  }
}
