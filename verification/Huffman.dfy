/** Canonical Huffman codes (section 3.2.2 of RFC 1951). */
module Huffman {
  import opened Bits
  import opened BitStream

  /** A list of code lengths, one for each symbol; length 0 means the symbol has no code. */
  ghost predicate ValidLengths(lens: seq<nat>) {
    |lens| <= 288 && forall n :: 0 <= n < |lens| ==> lens[n] <= 15
  }

  /** How many of the first `i` symbols have length `l`. */
  function CountTo(lens: seq<nat>, l: nat, i: nat): nat
    requires i <= |lens|
  {
    if i == 0 then 0 else CountTo(lens, l, i - 1) + (if lens[i - 1] == l then 1 else 0)
  }

  /** `bl_count` of the RFC. */
  function BlCount(lens: seq<nat>, l: nat): nat {
    if l == 0 then 0 else CountTo(lens, l, |lens|)
  }

  /** `next_code` of the RFC: the code of the first symbol of length `l`. */
  function FirstCode(lens: seq<nat>, l: nat): nat {
    if l == 0 then 0 else 2 * (FirstCode(lens, l - 1) + BlCount(lens, l - 1))
  }

  /** One more than the last code of length `l`. */
  function EndCode(lens: seq<nat>, l: nat): nat {
    FirstCode(lens, l) + BlCount(lens, l)
  }

  /** The canonical code of symbol `n`: codes of one length are consecutive, in symbol order. */
  function Code(lens: seq<nat>, n: nat): nat
    requires n < |lens|
  {
    FirstCode(lens, lens[n]) + CountTo(lens, lens[n], n)
  }

  /** The Kraft sum of the first `i` symbols, in units of 2^-15. */
  function KraftTo(lens: seq<nat>, i: nat): nat
    requires i <= |lens|
    requires forall n :: 0 <= n < |lens| ==> lens[n] <= 15
  {
    if i == 0 then 0
    else KraftTo(lens, i - 1) + (if lens[i - 1] == 0 then 0 else Pow2(15 - lens[i - 1]))
  }

  ghost predicate KraftAtMostOne(lens: seq<nat>)
    requires ValidLengths(lens)
  {
    KraftTo(lens, |lens|) <= Pow2(15)
  }

  /** Symbol `n` has a code, and that code is what the stream holds at position `p`. */
  ghost predicate Matches(lens: seq<nat>, s: Stream, p: nat, n: nat) {
    n < |lens| && lens[n] > 0 && Msb(s, p, lens[n]) == Code(lens, n)
  }

  /** The first code of length `l + 1`, left-justified in 16 bits. */
  function MaxCode(lens: seq<nat>, l: nat): nat
    requires l <= 16
  {
    Shl(EndCode(lens, l), 16 - l)
  }

  /** The index of the first symbol of length `l` when symbols are sorted by length. */
  function FirstSymbol(lens: seq<nat>, l: nat): nat {
    if l == 0 then 0 else FirstSymbol(lens, l - 1) + BlCount(lens, l - 1)
  }

  // ----- counting -----

  lemma {:induction false} CountMono(lens: seq<nat>, l: nat, i: nat, j: nat)
    requires i <= j <= |lens|
    ensures CountTo(lens, l, i) <= CountTo(lens, l, j)
    decreases j
  {
    if i < j {
      CountMono(lens, l, i, j - 1);
    }
  }

  lemma {:induction false} CountBound(lens: seq<nat>, l: nat, i: nat)
    requires i <= |lens|
    ensures CountTo(lens, l, i) <= i
  {
    if i > 0 {
      CountBound(lens, l, i - 1);
    }
  }

  lemma RankBelowCount(lens: seq<nat>, n: nat)
    requires n < |lens|
    ensures CountTo(lens, lens[n], n) < CountTo(lens, lens[n], |lens|)
  {
    CountMono(lens, lens[n], n + 1, |lens|);
  }

  /** Two symbols of one length have different ranks. */
  lemma {:induction false} RankInjective(lens: seq<nat>, n: nat, m: nat)
    requires n < |lens| && m < |lens| && lens[n] == lens[m]
    requires CountTo(lens, lens[n], n) == CountTo(lens, lens[m], m)
    ensures n == m
  {
    if n < m {
      CountMono(lens, lens[n], n + 1, m);
    } else if m < n {
      CountMono(lens, lens[n], m + 1, n);
    }
  }

  /** Every rank below the count is taken by a symbol. */
  lemma {:induction false} SymbolOfRank(lens: seq<nat>, l: nat, r: nat, i: nat) returns (n: nat)
    requires i <= |lens| && r < CountTo(lens, l, i)
    ensures n < i && lens[n] == l && CountTo(lens, l, n) == r
  {
    if r == CountTo(lens, l, i - 1) {
      n := i - 1;
    } else {
      n := SymbolOfRank(lens, l, r, i - 1);
    }
  }

  // ----- the Kraft sum -----

  /** `EndCode` of the code made of the first `i` symbols only. */
  function EndCodeTo(lens: seq<nat>, l: nat, i: nat): nat
    requires i <= |lens|
  {
    if l == 0 then 0 else 2 * EndCodeTo(lens, l - 1, i) + CountTo(lens, l, i)
  }

  lemma {:induction false} EndCodeToAll(lens: seq<nat>, l: nat)
    ensures EndCodeTo(lens, l, |lens|) == EndCode(lens, l)
  {
    if l > 0 {
      EndCodeToAll(lens, l - 1);
    }
  }

  lemma {:induction false} EndCodeToNone(lens: seq<nat>, l: nat)
    ensures EndCodeTo(lens, l, 0) == 0
  {
    if l > 0 {
      EndCodeToNone(lens, l - 1);
    }
  }

  lemma {:induction false} EndCodeToStep(lens: seq<nat>, l: nat, i: nat)
    requires 0 < i <= |lens|
    ensures EndCodeTo(lens, l, i) ==
            EndCodeTo(lens, l, i - 1) + (if 1 <= lens[i - 1] <= l then Pow2(l - lens[i - 1]) else 0)
  {
    if l > 0 {
      EndCodeToStep(lens, l - 1, i);
    }
  }

  lemma {:induction false} KraftToIsEndCode(lens: seq<nat>, i: nat)
    requires ValidLengths(lens) && i <= |lens|
    ensures KraftTo(lens, i) == EndCodeTo(lens, 15, i)
  {
    if i == 0 {
      EndCodeToNone(lens, 15);
    } else {
      KraftToIsEndCode(lens, i - 1);
      EndCodeToStep(lens, 15, i);
    }
  }

  /** The Kraft sum is where the codes of length 15 end. */
  lemma KraftIsEndCode(lens: seq<nat>)
    requires ValidLengths(lens)
    ensures KraftTo(lens, |lens|) == EndCode(lens, 15)
  {
    KraftToIsEndCode(lens, |lens|);
    EndCodeToAll(lens, 15);
  }

  /** Once the codes of some length overflow, the Kraft sum exceeds one. */
  lemma {:induction false} OverflowGrows(lens: seq<nat>, l: nat)
    requires l <= 15 && EndCode(lens, l) > Pow2(l)
    ensures EndCode(lens, 15) > Pow2(15)
    decreases 15 - l
  {
    if l < 15 {
      OverflowGrows(lens, l + 1);
    }
  }

  /** Under the Kraft inequality the codes of every length fit. */
  lemma CodesFit(lens: seq<nat>, l: nat)
    requires ValidLengths(lens) && KraftAtMostOne(lens) && l <= 15
    ensures EndCode(lens, l) <= Pow2(l)
  {
    KraftIsEndCode(lens);
    if EndCode(lens, l) > Pow2(l) {
      OverflowGrows(lens, l);
    }
  }

  lemma CodeFits(lens: seq<nat>, n: nat)
    requires ValidLengths(lens) && KraftAtMostOne(lens) && n < |lens| && lens[n] > 0
    ensures FirstCode(lens, lens[n]) <= Code(lens, n) < EndCode(lens, lens[n])
    ensures Code(lens, n) < Pow2(lens[n])
  {
    RankBelowCount(lens, n);
    CodesFit(lens, lens[n]);
  }

  // ----- left-justified codes -----

  /** The codes of length `l` start, left-justified, where those of length `l - 1` end. */
  lemma FirstCodeJustified(lens: seq<nat>, l: nat)
    requires 1 <= l <= 16
    ensures Shl(FirstCode(lens, l), 16 - l) == MaxCode(lens, l - 1)
  {
    ShlDouble(EndCode(lens, l - 1), 16 - l);
  }

  lemma {:induction false} MaxCodeMono(lens: seq<nat>, l: nat, m: nat)
    requires l <= m <= 16
    ensures MaxCode(lens, l) <= MaxCode(lens, m)
    decreases m
  {
    if l < m {
      MaxCodeMono(lens, l, m - 1);
      FirstCodeJustified(lens, m);
      ShlMono(FirstCode(lens, m), EndCode(lens, m), 16 - m);
    }
  }

  /** The 16 bits at `p` lie in the interval of length `l` exactly when some symbol of that length matches. */
  lemma IntervalOfLength(lens: seq<nat>, s: Stream, p: nat, l: nat)
    requires 1 <= l <= 15
    ensures FirstCode(lens, l) <= Msb(s, p, l) < EndCode(lens, l)
       <==> MaxCode(lens, l - 1) <= Msb(s, p, 16) < MaxCode(lens, l)
  {
    MsbTake(s, p, l, 16 - l);
    ShrLess(Msb(s, p, 16), EndCode(lens, l), 16 - l);
    ShrLess(Msb(s, p, 16), FirstCode(lens, l), 16 - l);
    FirstCodeJustified(lens, l);
  }

  lemma MatchInterval(lens: seq<nat>, s: Stream, p: nat, n: nat)
    requires ValidLengths(lens) && KraftAtMostOne(lens) && Matches(lens, s, p, n)
    ensures MaxCode(lens, lens[n] - 1) <= Msb(s, p, 16) < MaxCode(lens, lens[n])
  {
    CodeFits(lens, n);
    IntervalOfLength(lens, s, p, lens[n]);
  }

  /** In an interval of length `l`, the symbol of the right rank matches. */
  lemma IntervalMatch(lens: seq<nat>, s: Stream, p: nat, l: nat) returns (n: nat)
    requires ValidLengths(lens) && 1 <= l <= 15
    requires MaxCode(lens, l - 1) <= Msb(s, p, 16) < MaxCode(lens, l)
    ensures Matches(lens, s, p, n) && lens[n] == l
    ensures CountTo(lens, l, n) == Msb(s, p, l) - FirstCode(lens, l)
  {
    IntervalOfLength(lens, s, p, l);
    n := SymbolOfRank(lens, l, Msb(s, p, l) - FirstCode(lens, l), |lens|);
  }

  /** Canonical codes are prefix-free: at most one symbol matches at a position. */
  lemma MatchUnique(lens: seq<nat>, s: Stream, p: nat, n: nat, m: nat)
    requires ValidLengths(lens) && KraftAtMostOne(lens)
    requires Matches(lens, s, p, n) && Matches(lens, s, p, m)
    ensures n == m
  {
    MatchInterval(lens, s, p, n);
    MatchInterval(lens, s, p, m);
    if lens[n] < lens[m] {
      MaxCodeMono(lens, lens[n], lens[m] - 1);
    } else if lens[m] < lens[n] {
      MaxCodeMono(lens, lens[m], lens[n] - 1);
    } else {
      RankInjective(lens, n, m);
    }
  }

  /** Below the end of the codes of length `l`, some code of length at most `l` matches. */
  lemma {:induction false} MatchBelow(lens: seq<nat>, s: Stream, p: nat, l: nat) returns (n: nat)
    requires ValidLengths(lens) && l <= 15 && Msb(s, p, 16) < MaxCode(lens, l)
    ensures Matches(lens, s, p, n) && lens[n] <= l
  {
    if l == 0 {
      ShlZero(16);
    } else if Msb(s, p, 16) < MaxCode(lens, l - 1) {
      n := MatchBelow(lens, s, p, l - 1);
    } else {
      n := IntervalMatch(lens, s, p, l);
    }
  }

  // ----- sorted symbols -----

  lemma {:induction false} FirstSymbolMono(lens: seq<nat>, l: nat, m: nat)
    requires l < m
    ensures FirstSymbol(lens, l) + BlCount(lens, l) <= FirstSymbol(lens, m)
    decreases m
  {
    if l < m - 1 {
      FirstSymbolMono(lens, l, m - 1);
    }
  }

  /** Number of the first `i` symbols whose length is between 1 and `l - 1`. */
  function ShorterTo(lens: seq<nat>, l: nat, i: nat): nat
    requires i <= |lens|
  {
    if i == 0 then 0 else ShorterTo(lens, l, i - 1) + (if 1 <= lens[i - 1] < l then 1 else 0)
  }

  lemma {:induction false} ShorterStep(lens: seq<nat>, l: nat, i: nat)
    requires i <= |lens| && l > 0
    ensures ShorterTo(lens, l + 1, i) == ShorterTo(lens, l, i) + CountTo(lens, l, i)
  {
    if i > 0 {
      ShorterStep(lens, l, i - 1);
    }
  }

  lemma {:induction false} ShorterBound(lens: seq<nat>, l: nat, i: nat)
    requires i <= |lens|
    ensures ShorterTo(lens, l, i) <= i
    ensures l <= 1 ==> ShorterTo(lens, l, i) == 0
  {
    if i > 0 {
      ShorterBound(lens, l, i - 1);
    }
  }

  lemma {:induction false} FirstSymbolCounts(lens: seq<nat>, l: nat)
    ensures FirstSymbol(lens, l) == ShorterTo(lens, l, |lens|)
  {
    ShorterBound(lens, l, |lens|);
    if l > 1 {
      FirstSymbolCounts(lens, l - 1);
      ShorterStep(lens, l - 1, |lens|);
    }
  }

  /** The slot of a symbol in the sorted symbol table. */
  function Slot(lens: seq<nat>, n: nat): nat
    requires n < |lens|
  {
    FirstSymbol(lens, lens[n]) + CountTo(lens, lens[n], n)
  }

  lemma SlotBound(lens: seq<nat>, n: nat)
    requires n < |lens| && lens[n] > 0
    ensures Slot(lens, n) < |lens|
  {
    RankBelowCount(lens, n);
    FirstSymbolCounts(lens, lens[n] + 1);
    ShorterBound(lens, lens[n] + 1, |lens|);
  }

  lemma SlotInjective(lens: seq<nat>, n: nat, m: nat)
    requires n < |lens| && m < |lens| && lens[n] > 0 && lens[m] > 0
    requires Slot(lens, n) == Slot(lens, m)
    ensures n == m
  {
    RankBelowCount(lens, n);
    RankBelowCount(lens, m);
    if lens[n] < lens[m] {
      FirstSymbolMono(lens, lens[n], lens[m]);
    } else if lens[m] < lens[n] {
      FirstSymbolMono(lens, lens[m], lens[n]);
    } else {
      RankInjective(lens, n, m);
    }
  }

  // ----- the nine-bit fast table -----

  /** Symbol `n` has a code of at most nine bits which, reversed, ends the index `j`. */
  ghost predicate Hits(lens: seq<nat>, n: nat, j: nat) {
    n < |lens| && 1 <= lens[n] <= 9 && Low(j, lens[n]) == Rev(Code(lens, n), lens[n])
  }

  /** Indexing with the next nine bits finds exactly the short codes that match. */
  lemma HitsIsMatch(lens: seq<nat>, s: Stream, p: nat, n: nat)
    requires ValidLengths(lens) && KraftAtMostOne(lens)
    requires n < |lens| && 1 <= lens[n] <= 9
    ensures Hits(lens, n, Lsb(s, p, 9)) <==> Matches(lens, s, p, n)
  {
    var l := lens[n];
    LsbTake(s, p, l, 9 - l);
    MsbIsRev(s, p, l);
    CodeFits(lens, n);
    RevRev(Code(lens, n), l);
    LsbBound(s, p, l);
    RevRev(Lsb(s, p, l), l);
  }
}
