/** An unbounded stream of bytes seen as a stream of bits, as in section 3.1.1 of RFC 1951:
    the bits of a byte are taken starting with the least significant one. */
module BitStream {
  import opened Bits

  type Byte = x: nat | x < 256
  type Stream = nat -> Byte

  function BitAt(s: Stream, i: nat): (b: nat)
    ensures b < 2
  {
    Bit(s(i / 8), i % 8)
  }

  /** The `n` bits at position `p` read as a number, first bit least significant. */
  function Lsb(s: Stream, p: nat, n: nat): nat
    decreases n, p
  {
    if n == 0 then 0 else BitAt(s, p) + 2 * Lsb(s, p + 1, n - 1)
  }

  /** The `n` bits at position `p` read as a Huffman code, first bit most significant. */
  function Msb(s: Stream, p: nat, n: nat): nat
    decreases n, p
  {
    if n == 0 then 0 else Shl(BitAt(s, p), n - 1) + Msb(s, p + 1, n - 1)
  }

  lemma {:induction false} LsbBound(s: Stream, p: nat, n: nat)
    ensures Lsb(s, p, n) < Pow2(n)
    decreases n
  {
    if n > 0 {
      LsbBound(s, p + 1, n - 1);
    }
  }

  lemma {:induction false} LsbSplit(s: Stream, p: nat, n: nat, m: nat)
    ensures Lsb(s, p, n + m) == Lsb(s, p, n) + Shl(Lsb(s, p + n, m), n)
    decreases n
  {
    if n > 0 {
      LsbSplit(s, p + 1, n - 1, m);
    }
  }

  /** Reading the first `n` of `n + m` bits: mask and shift. */
  lemma LsbTake(s: Stream, p: nat, n: nat, m: nat)
    ensures Low(Lsb(s, p, n + m), n) == Lsb(s, p, n)
    ensures Shr(Lsb(s, p, n + m), n) == Lsb(s, p + n, m)
  {
    LsbSplit(s, p, n, m);
    LsbBound(s, p, n);
    Parts(Lsb(s, p, n), Lsb(s, p + n, m), n);
  }

  lemma {:induction false} LsbInByte(s: Stream, k: nat, j: nat, n: nat)
    requires j + n <= 8
    ensures Lsb(s, 8 * k + j, n) == Low(Shr(s(k), j), n)
    decreases n
  {
    if n > 0 {
      LsbInByte(s, k, j + 1, n - 1);
      assert (8 * k + j) / 8 == k && (8 * k + j) % 8 == j;
      ShrShr(s(k), j, 1);
    }
  }

  lemma LsbByte(s: Stream, k: nat)
    ensures Lsb(s, 8 * k, 8) == s(k)
  {
    WholeByte(s, k, 8);
  }

  lemma WholeByte(s: Stream, k: nat, n: nat)
    requires n == 8
    ensures Lsb(s, 8 * k, n) == s(k)
  {
    LsbInByte(s, k, 0, n);
    Pow2Values();
    LowSmall(s(k), n);
  }

  lemma {:induction false} MsbIsRev(s: Stream, p: nat, n: nat)
    ensures Msb(s, p, n) == Rev(Lsb(s, p, n), n)
    ensures Msb(s, p, n) < Pow2(n)
    decreases n
  {
    RevBound(Lsb(s, p, n), n);
    if n > 0 {
      MsbIsRev(s, p + 1, n - 1);
    }
  }

  lemma {:induction false} MsbPrefix(s: Stream, p: nat, n: nat, m: nat)
    ensures Msb(s, p, n + m) == Shl(Msb(s, p, n), m) + Msb(s, p + n, m)
    decreases n
  {
    if n == 0 {
      ShlZero(m);
    } else {
      MsbPrefix(s, p + 1, n - 1, m);
      ShlShl(BitAt(s, p), n - 1, m);
      ShlAdd(Shl(BitAt(s, p), n - 1), Msb(s, p + 1, n - 1), m);
    }
  }

  /** A shorter code read at the same place is the longer one shifted right. */
  lemma MsbTake(s: Stream, p: nat, n: nat, m: nat)
    ensures Shr(Msb(s, p, n + m), m) == Msb(s, p, n)
  {
    MsbPrefix(s, p, n, m);
    MsbIsRev(s, p + n, m);
    Parts(Msb(s, p + n, m), Msb(s, p, n), m);
  }
}
