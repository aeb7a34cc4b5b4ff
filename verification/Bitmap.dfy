/** First-fit search over a bitmap of 64-bit words, as used by the page allocator and the heap. */
module Bitmap {
  import opened Bits

  /** A word with all 64 bits set. */
  const FULL: nat := 0xFFFF_FFFF_FFFF_FFFF

  /** Bit `i` of the map is bit `i % 64` of word `i / 64`. */
  predicate IsSet(w: seq<nat>, i: nat)
    requires i < 64 * |w|
  {
    Bit(w[i / 64], i % 64) == 1
  }

  /** Units `s` to `s + n` are all free. */
  ghost predicate FreeRun(w: seq<nat>, s: nat, n: nat) {
    s + n <= 64 * |w| && forall i :: s <= i < s + n ==> !IsSet(w, i)
  }

  /** `s` is the lowest start of a free run of length `n`. */
  ghost predicate LowestRun(w: seq<nat>, s: nat, n: nat) {
    FreeRun(w, s, n) && forall t :: 0 <= t < s ==> !FreeRun(w, t, n)
  }

  /** Every run has a lowest one of the same length. */
  lemma {:induction false} LowestExists(w: seq<nat>, s: nat, n: nat) returns (l: nat)
    requires FreeRun(w, s, n)
    ensures l <= s && LowestRun(w, l, n)
  {
    if t :| 0 <= t < s && FreeRun(w, t, n) {
      l := LowestExists(w, t, n);
    } else {
      l := s;
    }
  }

  lemma LowestUnique(w: seq<nat>, s: nat, t: nat, n: nat)
    requires LowestRun(w, s, n) && LowestRun(w, t, n)
    ensures s == t
  {
  }

  lemma FullWordSet(k: nat)
    requires k < 64
    ensures Bit(FULL, k) == 1
  {
    FullIsPow();
    ShrZero(k);
    BitNot(0, 64, k);
  }

  lemma FullIsPow()
    ensures FULL == Pow2(64) - 1
  {
    hide Pow2, Shl;
    Pow2Values();
    Pow2Square(16);
    Pow2Square(32);
  }

  lemma Pow2Square(k: nat)
    ensures Pow2(k + k) == Pow2(k) * Pow2(k)
  {
    ShlPow2(k, k);
    ShlTimes(Pow2(k), k);
  }

  method TestBit(words: array<nat>, i: nat) returns (used: bool)
    requires i < 64 * words.Length
    ensures used == IsSet(words[..], i)
  {
    AndOneBit(words[i / 64], i % 64);
    used := And(words[i / 64], Shl(1, i % 64)) != 0;
  }

  /** `bitmap_set_bit` */
  method SetBit(words: array<nat>, i: nat)
    requires i < 64 * words.Length
    modifies words
    ensures forall j :: 0 <= j < 64 * words.Length ==> IsSet(words[..], j) == (j == i || old(IsSet(words[..], j)))
    ensures forall k :: 0 <= k < words.Length && k != i / 64 ==> words[k] == old(words[k])
  {
    hide Bit, Or, Shl;
    ghost var w := words[i / 64];
    words[i / 64] := Or(words[i / 64], Shl(1, i % 64));
    forall k: nat
      ensures Bit(Or(w, Shl(1, i % 64)), k) == 1 <==> k == i % 64 || Bit(w, k) == 1
    {
      BitOr(w, Shl(1, i % 64), k);
      BitOfOne(i % 64, k);
    }
  }

  /** `pmm_bitmap_clear_bit` */
  method ClearBit(words: array<nat>, i: nat)
    requires i < 64 * words.Length
    modifies words
    ensures forall j :: 0 <= j < 64 * words.Length ==> IsSet(words[..], j) == (j != i && old(IsSet(words[..], j)))
  {
    hide Bit, And, Shl, Pow2;
    ghost var w := words[i / 64];
    FullIsPow();
    OneFits(i % 64);
    words[i / 64] := And(words[i / 64], FULL - Shl(1, i % 64));
    forall k: nat | k < 64
      ensures Bit(And(w, FULL - Shl(1, i % 64)), k) == 1 <==> k != i % 64 && Bit(w, k) == 1
    {
      BitAnd(w, FULL - Shl(1, i % 64), k);
      BitNot(Shl(1, i % 64), 64, k);
      BitOfOne(i % 64, k);
    }
    forall j | 0 <= j < 64 * words.Length
      ensures IsSet(words[..], j) == (j != i && old(IsSet(words[..], j)))
    {
      assert j / 64 == i / 64 && j % 64 == i % 64 ==> j == i;
      assert j % 64 < 64;
    }
  }

  lemma OneFits(k: nat)
    requires k < 64
    ensures Shl(1, k) < Pow2(64)
  {
    ShlOne(k);
    Pow2Mono(k, 64);
  }

  /** Scans the rest of one word. */
  method ScanWord(words: array<nat>, block: nat, from: nat) returns (r: int)
    requires block < words.Length && from <= 64
    ensures r == -1 || 64 * block + from <= r < 64 * block + 64
    ensures r >= 0 ==> !IsSet(words[..], r)
    ensures forall j :: 64 * block + from <= j < (if r >= 0 then r else 64 * block + 64) ==> IsSet(words[..], j)
  {
    for i := from to 64
      invariant forall j :: 64 * block + from <= j < 64 * block + i ==> IsSet(words[..], j)
    {
      assert (64 * block + i) / 64 == block && (64 * block + i) % 64 == i;
      var used := TestBit(words, 64 * block + i);
      if !used {
        return 64 * block + i;
      }
    }
    r := -1;
  }

  /** A free unit at or after `start`. */
  ghost predicate HasFree(w: seq<nat>, start: nat) {
    exists i :: start <= i < 64 * |w| && !IsSet(w, i)
  }

  /** `find_first_free` and `pmm_first_free`: the first free unit at or after `start` in the first `size` words.
      `size` may exceed the map as long as there is a free unit to stop at. */
  method FindFirstFree(start: nat, words: array<nat>, size: nat) returns (r: int)
    requires start % 64 == 0 || start / 64 < words.Length
    requires size <= words.Length || HasFree(words[..], start)
    ensures r == -1 || (start <= r < 64 * words.Length && !IsSet(words[..], r))
    ensures forall j :: start <= j < 64 * words.Length && (if r >= 0 then j < r else j < 64 * size) ==>
            IsSet(words[..], j)
  {
    hide Bit;
    ghost var stop := 64 * words.Length;
    if size > words.Length {
      stop :| start <= stop < 64 * words.Length && !IsSet(words[..], stop);
    }
    var block := start / 64;
    if start % 64 != 0 {
      r := ScanWord(words, block, start % 64);
      if r >= 0 {
        return;
      }
      block := block + 1;
    }
    while block < size
      invariant start <= 64 * block
      invariant forall j :: start <= j < 64 * block && j < 64 * words.Length ==> IsSet(words[..], j)
    {
      assert block < words.Length;
      if words[block] != FULL {
        r := ScanWord(words, block, 0);
        if r >= 0 {
          return;
        }
      } else {
        forall k: nat | k < 64
          ensures Bit(FULL, k) == 1
        {
          FullWordSet(k);
        }
      }
      block := block + 1;
    }
    r := -1;
  }

  /** `is_free_region_big_enough` and `check_region_size`: 0 if all `count` units are free, else the first one in use.
      No unit at or beyond `limit` is looked at. */
  method CheckRegion(start: nat, words: array<nat>, count: nat, ghost limit: nat) returns (r: nat)
    requires limit <= 64 * words.Length
    requires start + count <= limit || exists i :: start <= i < limit && IsSet(words[..], i)
    requires count > 0 ==> start < limit && !IsSet(words[..], start)
    ensures r == 0 && count > 0 ==> start + count <= limit && FreeRun(words[..], start, count)
    ensures r != 0 ==> start < r < start + count && r < limit && IsSet(words[..], r)
    ensures r != 0 ==> forall i :: start <= i < r ==> !IsSet(words[..], i)
  {
    for i := 0 to count
      invariant start + i <= limit || i == 0
      invariant forall j :: start <= j < start + i ==> !IsSet(words[..], j)
    {
      assert start + i < limit;
      var used := TestBit(words, start + i);
      if used {
        return start + i;
      }
    }
    r := 0;
  }

  function AtLeastOne(n: nat): nat {
    if n == 0 then 1 else n
  }

  /** The search loop of `pmm_alloc` and `malloc`: if a free run exists, it finds the lowest one. The search
      resumes at each collision and never looks at a unit beyond the run it returns. */
  method FindRun(words: array<nat>, size: nat, count: nat, ghost free: nat) returns (start: int)
    requires 64 * words.Length < 0x8000_0000
    requires FreeRun(words[..], free, AtLeastOne(count)) && free < 64 * size
    ensures start >= 0 && LowestRun(words[..], start, AtLeastOne(count))
  {
    hide IsSet;
    ghost var n := AtLeastOne(count);
    ghost var low := LowestExists(words[..], free, n);
    assert !IsSet(words[..], low) && HasFree(words[..], 0);
    start := FindFirstFree(0, words, size);
    NoRunAmongSet(words[..], 0, start, n);
    while true
      invariant 0 <= start <= low && !IsSet(words[..], start)
      invariant forall t :: 0 <= t < start ==> !FreeRun(words[..], t, n)
      decreases low - start
    {
      CollisionBefore(words[..], start, low, n);
      var next := CheckRegion(start, words, count, low + n);
      if next != 0 {
        NoRunAcross(words[..], start, next, n);
        assert next < low;
        assert HasFree(words[..], next);
        var s := FindFirstFree(next, words, size);
        NoRunAmongSet(words[..], next, s, n);
        start := s;
      } else {
        if count == 0 {
          assert FreeRun(words[..], start, 1);
        }
        break;
      }
    }
  }

  /** Before the lowest run there is always a unit in use to collide with. */
  lemma CollisionBefore(w: seq<nat>, start: nat, low: nat, n: nat)
    requires n >= 1 && start <= low && LowestRun(w, low, n)
    ensures start == low || exists i :: start <= i < low + n && IsSet(w, i)
  {
    if start < low {
      assert !FreeRun(w, start, n);
    }
  }

  /** A run cannot start on a unit in use. */
  lemma NoRunAmongSet(w: seq<nat>, from: nat, to: nat, n: nat)
    requires n >= 1 && to <= 64 * |w| && forall j :: from <= j < to ==> IsSet(w, j)
    ensures forall t :: from <= t < to ==> !FreeRun(w, t, n)
  {
    forall t | from <= t < to
      ensures !FreeRun(w, t, n)
    {
      assert IsSet(w, t);
    }
  }

  /** A run that starts between `start` and a unit in use less than `n` further on would contain that unit. */
  lemma NoRunAcross(w: seq<nat>, start: nat, used: nat, n: nat)
    requires start <= used < start + n && used < 64 * |w| && IsSet(w, used)
    ensures forall t :: start <= t <= used ==> !FreeRun(w, t, n)
  {
  }

  /** Marks a run as in use. */
  method MarkRun(words: array<nat>, start: nat, count: nat)
    requires start + count <= 64 * words.Length
    modifies words
    ensures forall j :: 0 <= j < 64 * words.Length ==>
      IsSet(words[..], j) == (start <= j < start + count || old(IsSet(words[..], j)))
  {
    hide IsSet;
    for i := 0 to count
      invariant forall j :: 0 <= j < 64 * words.Length ==>
        IsSet(words[..], j) == (start <= j < start + i || old(IsSet(words[..], j)))
    {
      SetBit(words, start + i);
    }
  }
}
