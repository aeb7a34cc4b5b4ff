/** Machine words as natural numbers. Shifts and masks are defined by doubling and halving, so that
    every fact about them is linear: `Shl(x, k)` is `x << k`, `Shr(x, k)` is `x >> k` and
    `Low(x, k)` is `x & ((1 << k) - 1)`. */
module Bits {

  function Pow2(n: nat): (p: nat)
    ensures p >= 1
  {
    if n == 0 then 1 else 2 * Pow2(n - 1)
  }

  function Shl(x: nat, k: nat): nat {
    if k == 0 then x else 2 * Shl(x, k - 1)
  }

  function Shr(x: nat, k: nat): nat {
    if k == 0 then x else Shr(x / 2, k - 1)
  }

  function Low(x: nat, k: nat): nat {
    if k == 0 then 0 else x % 2 + 2 * Low(x / 2, k - 1)
  }

  function Bit(x: nat, i: nat): nat {
    Shr(x, i) % 2
  }

  function Or(a: nat, b: nat): nat {
    if a == 0 && b == 0 then 0
    else 2 * Or(a / 2, b / 2) + (if a % 2 == 1 || b % 2 == 1 then 1 else 0)
  }

  function And(a: nat, b: nat): nat {
    if a == 0 || b == 0 then 0
    else 2 * And(a / 2, b / 2) + (if a % 2 == 1 && b % 2 == 1 then 1 else 0)
  }

  /** The low `n` bits of `v` in the opposite order. */
  function Rev(v: nat, n: nat): nat {
    if n == 0 then 0 else Shl(v % 2, n - 1) + Rev(v / 2, n - 1)
  }

  const WORD: nat := 32

  /** A left shift of a 32-bit word, which drops the bits that leave the word. */
  function Shl32(x: nat, k: nat): nat
    requires k < WORD
  {
    Low(Shl(x, k), WORD)
  }

  // ----- powers of two -----

  lemma {:induction false} Pow2Mono(a: nat, b: nat)
    requires a <= b
    ensures Pow2(a) <= Pow2(b)
    ensures a < b ==> Pow2(a) < Pow2(b)
    decreases b
  {
    if a < b {
      Pow2Mono(a, b - 1);
    }
  }

  lemma Pow2Values()
    ensures Pow2(1) == 2 && Pow2(2) == 4 && Pow2(3) == 8 && Pow2(4) == 16 && Pow2(5) == 32
    ensures Pow2(6) == 64 && Pow2(7) == 128 && Pow2(8) == 256 && Pow2(9) == 512 && Pow2(10) == 1024
    ensures Pow2(11) == 2048 && Pow2(12) == 4096 && Pow2(13) == 8192 && Pow2(14) == 16384
    ensures Pow2(15) == 32768 && Pow2(16) == 65536
  {
  }

  lemma {:induction false} ShlOne(k: nat)
    ensures Shl(1, k) == Pow2(k)
  {
    if k > 0 {
      ShlOne(k - 1);
    }
  }

  lemma {:induction false} ShlPow2(a: nat, k: nat)
    ensures Shl(Pow2(a), k) == Pow2(a + k)
  {
    if k > 0 {
      ShlPow2(a, k - 1);
    }
  }

  // ----- shifts -----

  lemma {:induction false} ShlZero(k: nat)
    ensures Shl(0, k) == 0
  {
    if k > 0 {
      ShlZero(k - 1);
    }
  }

  lemma {:induction false} ShlAdd(x: nat, y: nat, k: nat)
    ensures Shl(x + y, k) == Shl(x, k) + Shl(y, k)
  {
    if k > 0 {
      ShlAdd(x, y, k - 1);
    }
  }

  lemma {:induction false} ShlShl(x: nat, a: nat, b: nat)
    ensures Shl(Shl(x, a), b) == Shl(x, a + b)
    decreases b
  {
    if b > 0 {
      ShlShl(x, a, b - 1);
    }
  }

  lemma {:induction false} ShlMono(x: nat, y: nat, k: nat)
    requires x <= y
    ensures Shl(x, k) <= Shl(y, k)
    ensures x < y ==> Shl(x, k) + Pow2(k) <= Shl(y, k)
  {
    if k > 0 {
      ShlMono(x, y, k - 1);
    }
  }

  lemma {:induction false} ShlGrow(x: nat, k: nat)
    ensures x <= Shl(x, k)
  {
    if k > 0 {
      ShlGrow(x, k - 1);
    }
  }

  lemma {:induction false} ShlDouble(x: nat, k: nat)
    ensures Shl(2 * x, k) == 2 * Shl(x, k)
  {
    if k > 0 {
      ShlDouble(x, k - 1);
    }
  }

  lemma {:induction false} ShlTimes(q: nat, k: nat)
    ensures Shl(q, k) == Pow2(k) * q
  {
    if k > 0 {
      ShlTimes(q, k - 1);
      assert 2 * (Pow2(k - 1) * q) == (2 * Pow2(k - 1)) * q;
    }
  }

  lemma {:induction false} ShrZero(k: nat)
    ensures Shr(0, k) == 0
  {
    if k > 0 {
      ShrZero(k - 1);
    }
  }

  lemma {:induction false} ShrShr(x: nat, a: nat, b: nat)
    ensures Shr(Shr(x, a), b) == Shr(x, a + b)
    decreases a
  {
    if a > 0 {
      ShrShr(x / 2, a - 1, b);
    }
  }

  /** A shifted word compares with a bound as the word compares with the shifted bound. */
  lemma {:induction false} ShrLess(x: nat, y: nat, k: nat)
    ensures Shr(x, k) < y <==> x < Shl(y, k)
  {
    if k > 0 {
      ShrLess(x / 2, y, k - 1);
    }
  }

  lemma {:induction false} ShrMono(x: nat, y: nat, k: nat)
    requires x <= y
    ensures Shr(x, k) <= Shr(y, k)
  {
    if k > 0 {
      ShrMono(x / 2, y / 2, k - 1);
    }
  }

  lemma {:induction false} ShrBound(x: nat, n: nat, k: nat)
    requires x < Pow2(n + k)
    ensures Shr(x, k) < Pow2(n)
  {
    if k > 0 {
      ShrBound(x / 2, n, k - 1);
    }
  }

  lemma {:induction false} LowBound(x: nat, k: nat)
    ensures Low(x, k) < Pow2(k)
  {
    if k > 0 {
      LowBound(x / 2, k - 1);
    }
  }

  /** A word is its low `k` bits plus the rest shifted back. */
  lemma {:induction false} SplitAt(x: nat, k: nat)
    ensures x == Low(x, k) + Shl(Shr(x, k), k)
  {
    if k > 0 {
      SplitAt(x / 2, k - 1);
    }
  }

  /** Low bits and rest of a word put together from two parts. */
  lemma {:induction false} Parts(r: nat, q: nat, k: nat)
    requires r < Pow2(k)
    ensures Low(r + Shl(q, k), k) == r
    ensures Shr(r + Shl(q, k), k) == q
  {
    if k > 0 {
      var x := r + Shl(q, k);
      assert x / 2 == r / 2 + Shl(q, k - 1);
      Parts(r / 2, q, k - 1);
    }
  }

  lemma {:induction false} LowLow(x: nat, a: nat, b: nat)
    requires a <= b
    ensures Low(Low(x, b), a) == Low(x, a)
  {
    if a > 0 {
      LowLow(x / 2, a - 1, b - 1);
    }
  }

  lemma LowSmall(x: nat, k: nat)
    requires x < Pow2(k)
    ensures Low(x, k) == x && Shr(x, k) == 0
  {
    ShlZero(k);
    Parts(x, 0, k);
  }

  /** A shift that keeps the value inside the word drops nothing. */
  lemma Shl32Exact(x: nat, k: nat, n: nat)
    requires x < Pow2(n) && n + k <= WORD && k < WORD
    ensures Shl32(x, k) == Shl(x, k)
  {
    ShlMono(x, Pow2(n), k);
    ShlPow2(n, k);
    Pow2Mono(n + k, WORD);
    LowSmall(Shl(x, k), WORD);
  }

  // ----- single bits and bitwise operators -----

  lemma {:induction false} BitOr(a: nat, b: nat, i: nat)
    ensures Bit(Or(a, b), i) == (if Bit(a, i) == 1 || Bit(b, i) == 1 then 1 else 0)
    decreases i
  {
    if a == 0 && b == 0 {
      ShrZero(i);
    } else if i > 0 {
      assert Or(a, b) / 2 == Or(a / 2, b / 2);
      BitOr(a / 2, b / 2, i - 1);
    }
  }

  lemma {:induction false} BitAnd(a: nat, b: nat, i: nat)
    ensures Bit(And(a, b), i) == (if Bit(a, i) == 1 && Bit(b, i) == 1 then 1 else 0)
    decreases i
  {
    if a == 0 || b == 0 {
      ShrZero(i);
    } else if i > 0 {
      assert And(a, b) / 2 == And(a / 2, b / 2);
      BitAnd(a / 2, b / 2, i - 1);
    }
  }

  lemma BitShr(x: nat, k: nat, i: nat)
    ensures Bit(Shr(x, k), i) == Bit(x, i + k)
  {
    ShrShr(x, k, i);
  }

  lemma {:induction false} BitShl(x: nat, k: nat, i: nat)
    ensures Bit(Shl(x, k), i) == if i < k then 0 else Bit(x, i - k)
  {
    if k > 0 && i > 0 {
      assert Shl(x, k) / 2 == Shl(x, k - 1);
      BitShl(x, k - 1, i - 1);
    }
  }

  lemma BitAbove(x: nat, n: nat, i: nat)
    requires x < Pow2(n) && n <= i
    ensures Bit(x, i) == 0
  {
    LowSmall(x, n);
    ShrShr(x, n, i - n);
    ShrZero(i - n);
  }

  /** Two words of `n` bits that agree on every bit are equal. */
  lemma {:induction false} BitsExtensional(x: nat, y: nat, n: nat)
    requires x < Pow2(n) && y < Pow2(n)
    requires forall i: nat :: i < n ==> Bit(x, i) == Bit(y, i)
    ensures x == y
    decreases n
  {
    if n > 0 {
      assert Bit(x, 0) == Bit(y, 0);
      forall i: nat | i < n - 1
        ensures Bit(x / 2, i) == Bit(y / 2, i)
      {
        assert Bit(x, i + 1) == Bit(y, i + 1);
      }
      BitsExtensional(x / 2, y / 2, n - 1);
    }
  }

  lemma {:induction false} OrBound(a: nat, b: nat, n: nat)
    requires a < Pow2(n) && b < Pow2(n)
    ensures Or(a, b) < Pow2(n)
    decreases n
  {
    if n > 0 {
      OrBound(a / 2, b / 2, n - 1);
    }
  }

  lemma {:induction false} AndBound(a: nat, b: nat)
    ensures And(a, b) <= b && And(a, b) <= a
    decreases a
  {
    if a == 0 || b == 0 {
    } else {
      AndBound(a / 2, b / 2);
    }
  }

  lemma {:induction false} OrZero(b: nat)
    ensures Or(0, b) == b
    decreases b
  {
    if b > 0 {
      OrZero(b / 2);
    }
  }

  /** Or-ing in a value shifted above the bits already present is addition. */
  lemma {:induction false} OrDisjoint(a: nat, b: nat, n: nat)
    requires a < Pow2(n)
    ensures Or(a, Shl(b, n)) == a + Shl(b, n)
    decreases n
  {
    if n == 0 {
      OrZero(b);
    } else {
      OrDisjoint(a / 2, b, n - 1);
    }
  }

  lemma {:induction false} OrComm(a: nat, b: nat)
    ensures Or(a, b) == Or(b, a)
    decreases a + b
  {
    if a == 0 && b == 0 {
    } else {
      OrComm(a / 2, b / 2);
    }
  }

  /** Masking with a run of ones keeps the low bits. */
  lemma {:induction false} AndMask(a: nat, n: nat)
    ensures And(a, Pow2(n) - 1) == Low(a, n)
    decreases n
  {
    if n == 0 {
    } else if a == 0 {
      LowSmall(0, n);
    } else {
      AndMask(a / 2, n - 1);
      assert (Pow2(n) - 1) / 2 == Pow2(n - 1) - 1;
    }
  }

  /** Masking with a shifted mask and shifting the field down again. */
  lemma {:induction false} AndShl(a: nat, m: nat, k: nat)
    ensures And(a, Shl(m, k)) == Shl(And(Shr(a, k), m), k)
    decreases k
  {
    if k > 0 {
      AndShl(a / 2, m, k - 1);
      if a == 0 {
        ShrZero(k);
        ShlZero(k);
      } else if Shl(m, k) == 0 {
        assert Shl(m, k - 1) == 0;
      }
    }
  }

  /** Testing one bit with a one-bit mask. */
  lemma AndOneBit(w: nat, k: nat)
    ensures And(w, Shl(1, k)) != 0 <==> Bit(w, k) == 1
  {
    AndShl(w, 1, k);
    AndMask(Shr(w, k), 1);
    ShlGrow(And(Shr(w, k), 1), k);
    ShlZero(k);
  }

  lemma BitOfOne(k: nat, i: nat)
    ensures Bit(Shl(1, k), i) == if i == k then 1 else 0
  {
    BitShl(1, k, i);
    if i > k {
      ShrZero(i - k - 1);
    }
  }

  /** The complement of an `n`-bit word. */
  lemma {:induction false} BitNot(x: nat, n: nat, i: nat)
    requires x < Pow2(n) && i < n
    ensures Bit(Pow2(n) - 1 - x, i) == 1 - Bit(x, i)
    decreases n
  {
    if i > 0 {
      assert (Pow2(n) - 1 - x) / 2 == Pow2(n - 1) - 1 - x / 2;
      BitNot(x / 2, n - 1, i - 1);
    }
  }

  // ----- reversal -----

  lemma {:induction false} RevBound(v: nat, n: nat)
    ensures Rev(v, n) < Pow2(n)
    decreases n
  {
    if n > 0 {
      RevBound(v / 2, n - 1);
      ShlMono(v % 2, 1, n - 1);
      ShlOne(n - 1);
    }
  }

  lemma {:induction false} BitLow(x: nat, n: nat, b: nat, i: nat)
    requires i < n
    ensures Bit(Shl(b, n) + x, i) == Bit(x, i)
    decreases i
  {
    if i > 0 {
      assert (Shl(b, n) + x) / 2 == Shl(b, n - 1) + x / 2;
      BitLow(x / 2, n - 1, b, i - 1);
    }
  }

  lemma {:induction false} BitRev(v: nat, n: nat, i: nat)
    requires i < n
    ensures Bit(Rev(v, n), i) == Bit(v, n - 1 - i)
    decreases n
  {
    RevBound(v / 2, n - 1);
    if i == n - 1 {
      Parts(Rev(v / 2, n - 1), v % 2, n - 1);
    } else {
      BitLow(Rev(v / 2, n - 1), n - 1, v % 2, i);
      BitRev(v / 2, n - 1, i);
    }
  }

  /** Only the low bits take part in a reversal. */
  lemma {:induction false} RevLow(v: nat, n: nat)
    ensures Rev(Low(v, n), n) == Rev(v, n)
    decreases n
  {
    if n > 0 {
      RevLow(v / 2, n - 1);
    }
  }

  /** Reversing twice gives the value back. */
  lemma RevRev(v: nat, n: nat)
    requires v < Pow2(n)
    ensures Rev(v, n) < Pow2(n)
    ensures Rev(Rev(v, n), n) == v
  {
    RevBound(v, n);
    RevBound(Rev(v, n), n);
    forall i: nat | i < n
      ensures Bit(Rev(Rev(v, n), n), i) == Bit(v, i)
    {
      BitRev(Rev(v, n), n, i);
      BitRev(v, n, n - 1 - i);
    }
    BitsExtensional(Rev(Rev(v, n), n), v, n);
  }

  /** Reversing a short value in a wide word and shifting right is the short reversal. */
  lemma RevShift(v: nat, n: nat, w: nat)
    requires n <= w && v < Pow2(n)
    ensures Shr(Rev(v, w), w - n) == Rev(v, n)
  {
    RevBound(v, w);
    RevBound(v, n);
    ShrBound(Rev(v, w), n, w - n);
    forall i: nat | i < n
      ensures Bit(Shr(Rev(v, w), w - n), i) == Bit(Rev(v, n), i)
    {
      BitShr(Rev(v, w), w - n, i);
      BitRev(v, w, i + (w - n));
      BitRev(v, n, i);
    }
    BitsExtensional(Shr(Rev(v, w), w - n), Rev(v, n), n);
  }

  // ----- the swap network of _ssfn__bitreverse16 -----

  /** One line of the network: swap neighbouring groups of `k` bits. */
  function SwapGroups(n: nat, hi: nat, lo: nat, k: nat): nat {
    Or(Shr(And(n, hi), k), Shl(And(n, lo), k))
  }

  function BitReverse16(n: nat): nat {
    var n1 := SwapGroups(n, 0xAAAA, 0x5555, 1);
    var n2 := SwapGroups(n1, 0xCCCC, 0x3333, 2);
    var n3 := SwapGroups(n2, 0xF0F0, 0x0F0F, 4);
    SwapGroups(n3, 0xFF00, 0x00FF, 8)
  }

  /** Whether position `i` lies in an odd group of `k` bits, for the group sizes 1, 2, 4 and 8. */
  predicate OddGroup(i: nat, k: nat) {
    if k == 1 then i % 2 == 1
    else if k == 2 then i / 2 % 2 == 1
    else if k == 4 then i / 4 % 2 == 1
    else i / 8 % 2 == 1
  }

  /** Where bit `i` of the swapped word comes from. */
  function Partner(i: nat, k: nat): nat {
    if OddGroup(i, k) && i >= k then i - k else i + k
  }

  /** Mask `m` selects the odd (or the even) groups of `k` bits at position `i` of a 16-bit word. */
  ghost predicate SelectsAt(m: nat, odd: bool, k: nat, i: nat) {
    Bit(m, i) == 1 <==> i < 16 && OddGroup(i, k) == odd
  }

  lemma SwapGroupsBit(n: nat, hi: nat, lo: nat, k: nat, i: nat)
    requires k == 1 || k == 2 || k == 4 || k == 8
    requires i < 16 && SelectsAt(hi, true, k, i + k)
    requires i >= k ==> SelectsAt(lo, false, k, i - k)
    ensures Partner(i, k) < 16
    ensures Bit(SwapGroups(n, hi, lo, k), i) == Bit(n, Partner(i, k))
  {
    var a, b := And(n, hi), And(n, lo);
    BitOr(Shr(a, k), Shl(b, k), i);
    BitShr(a, k, i);
    BitShl(b, k, i);
    BitAnd(n, hi, i + k);
    PartnerGroups(i, k);
    if i >= k {
      BitAnd(n, lo, i - k);
    }
  }

  lemma PartnerGroups(i: nat, k: nat)
    requires k == 1 || k == 2 || k == 4 || k == 8
    requires i < 16
    ensures Partner(i, k) < 16
    ensures OddGroup(i, k) ==> i >= k
    ensures OddGroup(i + k, k) <==> !OddGroup(i, k)
    ensures i >= k ==> (OddGroup(i - k, k) <==> !OddGroup(i, k))
  {
    if k == 1 {
    } else if k == 2 {
      assert (i + 2) / 2 == i / 2 + 1;
      assert i >= 2 ==> (i - 2) / 2 == i / 2 - 1;
    } else if k == 4 {
      assert (i + 4) / 4 == i / 4 + 1;
      assert i >= 4 ==> (i - 4) / 4 == i / 4 - 1;
    } else {
      assert (i + 8) / 8 == i / 8 + 1;
      assert i >= 8 ==> (i - 8) / 8 == i / 8 - 1;
    }
  }

  lemma ShrTable(m: nat, i: nat)
    requires i < 16
    ensures Shr(m, i) == m / [1, 2, 4, 8, 16, 32, 64, 128, 256, 512, 1024, 2048, 4096, 8192, 16384, 32768][i]
  {
    if i > 0 {
      ShrTable(m, i - 1);
      ShrShr(m, i - 1, 1);
    }
  }

  lemma Odd1(i: nat)
    ensures SelectsAt(0xAAAA, true, 1, i)
  {
    if i < 16 {
      ShrTable(0xAAAA, i);
    } else {
      MaskEnds(0xAAAA, i);
    }
  }

  lemma Even1(i: nat)
    ensures SelectsAt(0x5555, false, 1, i)
  {
    if i < 16 {
      ShrTable(0x5555, i);
    } else {
      MaskEnds(0x5555, i);
    }
  }

  lemma Odd2(i: nat)
    ensures SelectsAt(0xCCCC, true, 2, i)
  {
    if i < 16 {
      ShrTable(0xCCCC, i);
    } else {
      MaskEnds(0xCCCC, i);
    }
  }

  lemma Even2(i: nat)
    ensures SelectsAt(0x3333, false, 2, i)
  {
    if i < 16 {
      ShrTable(0x3333, i);
    } else {
      MaskEnds(0x3333, i);
    }
  }

  lemma Odd4(i: nat)
    ensures SelectsAt(0xF0F0, true, 4, i)
  {
    if i < 16 {
      ShrTable(0xF0F0, i);
    } else {
      MaskEnds(0xF0F0, i);
    }
  }

  lemma Even4(i: nat)
    ensures SelectsAt(0x0F0F, false, 4, i)
  {
    if i < 16 {
      ShrTable(0x0F0F, i);
    } else {
      MaskEnds(0x0F0F, i);
    }
  }

  lemma Odd8(i: nat)
    ensures SelectsAt(0xFF00, true, 8, i)
  {
    if i < 16 {
      ShrTable(0xFF00, i);
    } else {
      MaskEnds(0xFF00, i);
    }
  }

  lemma Even8(i: nat)
    ensures SelectsAt(0x00FF, false, 8, i)
  {
    if i < 16 {
      ShrTable(0x00FF, i);
    } else {
      MaskEnds(0x00FF, i);
    }
  }

  lemma MaskEnds(m: nat, i: nat)
    requires m < 0x10000 && i >= 16
    ensures Bit(m, i) == 0
  {
    Pow2Values();
    BitAbove(m, 16, i);
  }

  lemma PartnersReverse(i: nat)
    requires i < 16
    ensures Partner(Partner(Partner(Partner(i, 8), 4), 2), 1) == 15 - i
  {
  }

  /** The four-line swap network is the reversal of the low 16 bits. */
  lemma BitReverse16IsRev(n: nat)
    ensures BitReverse16(n) == Rev(n, 16)
    ensures BitReverse16(n) < Pow2(16)
  {
    var n1 := SwapGroups(n, 0xAAAA, 0x5555, 1);
    var n2 := SwapGroups(n1, 0xCCCC, 0x3333, 2);
    var n3 := SwapGroups(n2, 0xF0F0, 0x0F0F, 4);
    var n4 := SwapGroups(n3, 0xFF00, 0x00FF, 8);
    LastLineBound(n3);
    RevBound(n, 16);
    forall i: nat | i < 16
      ensures Bit(n4, i) == Bit(Rev(n, 16), i)
    {
      PartnersReverse(i);
      Swap8(n3, i);
      Swap4(n2, Partner(i, 8));
      Swap2(n1, Partner(Partner(i, 8), 4));
      Swap1(n, Partner(Partner(Partner(i, 8), 4), 2));
      BitRev(n, 16, i);
    }
    BitsExtensional(n4, Rev(n, 16), 16);
  }

  lemma Swap1(n: nat, i: nat)
    requires i < 16
    ensures Partner(i, 1) < 16
    ensures Bit(SwapGroups(n, 0xAAAA, 0x5555, 1), i) == Bit(n, Partner(i, 1))
  {
    Odd1(i + 1);
    if i >= 1 {
      Even1(i - 1);
    }
    SwapGroupsBit(n, 0xAAAA, 0x5555, 1, i);
  }

  lemma Swap2(n: nat, i: nat)
    requires i < 16
    ensures Partner(i, 2) < 16
    ensures Bit(SwapGroups(n, 0xCCCC, 0x3333, 2), i) == Bit(n, Partner(i, 2))
  {
    Odd2(i + 2);
    if i >= 2 {
      Even2(i - 2);
    }
    SwapGroupsBit(n, 0xCCCC, 0x3333, 2, i);
  }

  lemma Swap4(n: nat, i: nat)
    requires i < 16
    ensures Partner(i, 4) < 16
    ensures Bit(SwapGroups(n, 0xF0F0, 0x0F0F, 4), i) == Bit(n, Partner(i, 4))
  {
    Odd4(i + 4);
    if i >= 4 {
      Even4(i - 4);
    }
    SwapGroupsBit(n, 0xF0F0, 0x0F0F, 4, i);
  }

  lemma Swap8(n: nat, i: nat)
    requires i < 16
    ensures Partner(i, 8) < 16
    ensures Bit(SwapGroups(n, 0xFF00, 0x00FF, 8), i) == Bit(n, Partner(i, 8))
  {
    Odd8(i + 8);
    if i >= 8 {
      Even8(i - 8);
    }
    SwapGroupsBit(n, 0xFF00, 0x00FF, 8, i);
  }

  lemma LastLineBound(n: nat)
    ensures SwapGroups(n, 0xFF00, 0x00FF, 8) < Pow2(16)
  {
    Pow2Values();
    AndBound(n, 0xFF00);
    AndBound(n, 0x00FF);
    ShrLess(And(n, 0xFF00), 256, 8);
    ShlMono(And(n, 0x00FF), 0xFF, 8);
    Pow2Mono(8, 16);
    OrBound(Shr(And(n, 0xFF00), 8), Shl(And(n, 0x00FF), 8), 16);
  }

  function BitReverse(v: nat, bits: nat): nat
    requires bits <= 16
  {
    Shr(BitReverse16(v), 16 - bits)
  }

  /** _ssfn__bit_reverse reverses the low `bits` bits of a value that has no more. */
  lemma BitReverseIsRev(v: nat, bits: nat)
    requires bits <= 16 && v < Pow2(bits)
    ensures BitReverse(v, bits) == Rev(v, bits)
  {
    BitReverse16IsRev(v);
    RevShift(v, bits, 16);
  }
}
