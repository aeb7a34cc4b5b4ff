/** The physical page allocator and the kernel heap, both on top of the bitmap search. */
module Allocators {
  import opened Bitmap
  import Bits
  import opened Sizes

  const BLOCK_SIZE: nat := 16
  /** `heap_addr` is a `uint64_t *`, so adding `start * BLOCK_SIZE` moves by this many bytes for each block. */
  const BLOCK_SPACING: nat := 128

  /** The free units of a map. */
  ghost function FreeUnits(w: seq<nat>): set<nat> {
    set i: nat | i < 64 * |w| && !IsSet(w, i)
  }

  ghost function Units(start: nat, n: nat): (r: set<nat>)
    ensures |r| == n && forall i :: i in r <==> start <= i < start + n
    decreases n
  {
    if n == 0 then {} else Units(start, n - 1) + {start + n - 1}
  }

  /** Marking a free run takes exactly its units out of the free set. */
  lemma MarkedFree(v: seq<nat>, w: seq<nat>, start: nat, n: nat)
    requires |v| == |w| && FreeRun(v, start, n)
    requires forall j :: 0 <= j < 64 * |v| ==> IsSet(w, j) == (start <= j < start + n || IsSet(v, j))
    ensures FreeUnits(w) == FreeUnits(v) - Units(start, n)
    ensures |FreeUnits(w)| == |FreeUnits(v)| - n
  {
    assert Units(start, n) <= FreeUnits(v);
    assert FreeUnits(w) == FreeUnits(v) - Units(start, n);
  }

  lemma ClearedFree(v: seq<nat>, w: seq<nat>, i: nat)
    requires |v| == |w| && i < 64 * |v| && IsSet(v, i)
    requires forall j :: 0 <= j < 64 * |v| ==> IsSet(w, j) == (j != i && IsSet(v, j))
    ensures FreeUnits(w) == FreeUnits(v) + {i}
    ensures |FreeUnits(w)| == |FreeUnits(v)| + 1
  {
    assert FreeUnits(w) == FreeUnits(v) + {i};
  }

  /** `align_up(size) / PAGE_SIZE` */
  function PagesFor(size: nat): (n: nat)
    ensures n * PAGE_SIZE >= size && (n > 0 ==> (n - 1) * PAGE_SIZE < size)
  {
    (if size % PAGE_SIZE == 0 then size else size + (PAGE_SIZE - size % PAGE_SIZE)) / PAGE_SIZE
  }

  /** Pages `start` to `start + count`, handed out together. */
  datatype PageRun = PageRun(start: nat, count: nat)
  {
    predicate Holds(p: nat) {
      start <= p < start + count
    }
  }

  /** The bitmap, the counters, every run ever handed out, and which of them a page not yet freed belongs to. */
  datatype Pages = Pages(w: seq<nat>, used: nat, available: nat, runs: seq<PageRun>, owner: map<nat, nat>)
  {
    /** Pages that were handed out are marked and belong to one run; the counter covers the free pages. */
    ghost predicate Valid() {
      && available >= |FreeUnits(w)|
      && used >= |owner|
      && (forall p :: p in owner ==> p < 64 * |w| && IsSet(w, p))
      && (forall p :: p in owner ==> owner[p] < |runs| && runs[owner[p]].Holds(p))
    }

    /** Available pages that the map does not show as free; the count fixed at start-up. */
    ghost function Surplus(): int {
      available - |FreeUnits(w)|
    }

    /** None of the pages of run `k` has been freed. */
    ghost predicate Live(k: nat)
      requires k < |runs|
    {
      forall p :: runs[k].Holds(p) ==> p in owner && owner[p] == k
    }
  }

  datatype PageOp = Allocated(size: nat, start: nat) | Refused | Released(page: nat)

  /** The lowest free run of the right length is marked and handed out. */
  ghost predicate Allocates(s: Pages, t: Pages, start: nat, n: nat) {
    && s.available > 0 && LowestRun(s.w, start, AtLeastOne(n)) && |t.w| == |s.w|
    && (forall p :: 0 <= p < 64 * |s.w| ==> IsSet(t.w, p) == (start <= p < start + n || IsSet(s.w, p)))
    && t.available == s.available - n && t.used == s.used + n
    && t.runs == s.runs + [PageRun(start, n)]
    && (forall p :: start <= p < start + n ==> p !in s.owner && p in t.owner && t.owner[p] == |s.runs|)
    && (forall p :: p in s.owner ==> p in t.owner && t.owner[p] == s.owner[p])
    && (forall p :: p in t.owner ==> p in s.owner || start <= p < start + n)
  }

  /** One page of some run is unmarked. */
  ghost predicate Releases(s: Pages, t: Pages, page: nat) {
    && page in s.owner && |t.w| == |s.w|
    && (forall p :: 0 <= p < 64 * |s.w| ==> IsSet(t.w, p) == (p != page && IsSet(s.w, p)))
    && t.available == s.available + 1 && t.used == s.used - 1
    && t.runs == s.runs && t.owner == s.owner - {page}
  }

  ghost predicate PageStep(s: Pages, t: Pages, op: PageOp) {
    match op
    case Allocated(size, start) => Allocates(s, t, start, PagesFor(size))
    case Refused => s.available == 0 && t == s
    case Released(page) => Releases(s, t, page)
  }

  class Pmm {
    const bits: array<nat>
    const totalPages: nat
    var usedPages: nat
    var availablePages: nat
    ghost var runs: seq<PageRun>
    ghost var owner: map<nat, nat>

    constructor (words: array<nat>, totalPages: nat, usedPages: nat, availablePages: nat)
      requires totalPages / 64 <= words.Length && 64 * words.Length < 0x8000_0000
      requires availablePages >= |FreeUnits(words[..])|
      ensures Valid() && bits == words && Abs() == Pages(words[..], usedPages, availablePages, [], map[])
    {
      bits, this.totalPages, this.usedPages, this.availablePages := words, totalPages, usedPages, availablePages;
      owner, runs := map[], [];
    }

    ghost function Abs(): Pages
      reads this, bits
    {
      Pages(bits[..], usedPages, availablePages, runs, owner)
    }

    ghost predicate Valid()
      reads this, bits
    {
      totalPages / 64 <= bits.Length && 64 * bits.Length < 0x8000_0000 && Abs().Valid()
    }

    /** `pmm_alloc`: fails when no page is available, else gives the lowest free run of pages; none of them was
        handed out before. */
    method Alloc(size: nat, ghost free: nat) returns (addr: int)
      requires Valid()
      requires availablePages > 0 ==>
        FreeRun(bits[..], free, AtLeastOne(PagesFor(size))) && free < 64 * (totalPages / 64)
      modifies this, bits
      ensures Valid() && (addr == -1 <==> old(availablePages) == 0)
      ensures addr != -1 ==> addr >= 0 && addr % PAGE_SIZE == 0
      ensures PageStep(old(Abs()), Abs(), if addr == -1 then Refused else Allocated(size, addr / PAGE_SIZE))
    {
      hide IsSet, FreeUnits;
      if availablePages <= 0 {
        return -1;
      }
      var page := Reserve(PagesFor(size), free);
      NotOwned(old(bits[..]), page, PagesFor(size));
      GiveOut(page, PagesFor(size));
      addr := page * PAGE_SIZE;
      assert addr / PAGE_SIZE == page;
      StepKeeps(old(Abs()), Abs(), Allocated(size, page));
    }

    /** Finds and marks `n` pages and adjusts the counters. */
    method Reserve(n: nat, ghost free: nat) returns (page: nat)
      requires totalPages / 64 <= bits.Length && 64 * bits.Length < 0x8000_0000
      requires availablePages >= |FreeUnits(bits[..])|
      requires FreeRun(bits[..], free, AtLeastOne(n)) && free < 64 * (totalPages / 64)
      modifies this`availablePages, this`usedPages, bits
      ensures LowestRun(old(bits[..]), page, AtLeastOne(n)) && FreeRun(old(bits[..]), page, n)
      ensures availablePages == old(availablePages) - n && usedPages == old(usedPages) + n
      ensures forall p :: 0 <= p < 64 * bits.Length ==>
        IsSet(bits[..], p) == (page <= p < page + n || old(IsSet(bits[..], p)))
    {
      hide IsSet;
      page := FindRun(bits, totalPages / 64, n, free);
      ghost var w0 := bits[..];
      RunFree(w0, page, n);
      MarkRun(bits, page, n);
      MarkedFree(w0, bits[..], page, n);
      availablePages := availablePages - n;
      usedPages := usedPages + n;
    }

    /** A free run of the map as it was holds no page that had been handed out. */
    lemma NotOwned(w: seq<nat>, start: nat, n: nat)
      requires FreeRun(w, start, n) && forall p :: p in owner ==> p < 64 * |w| && IsSet(w, p)
      ensures forall p :: start <= p < start + n ==> p !in owner
    {
    }

    ghost method GiveOut(start: nat, n: nat)
      requires forall p :: start <= p < start + n ==> p !in owner
      modifies this`owner, this`runs
      ensures runs == old(runs) + [PageRun(start, n)]
      ensures forall p :: start <= p < start + n ==> p in owner && owner[p] == |old(runs)|
      ensures forall p :: p in old(owner) ==> p in owner && owner[p] == old(owner)[p]
      ensures forall p :: p in owner ==> p in old(owner) || start <= p < start + n
    {
      for i := 0 to n
        invariant runs == old(runs)
        invariant forall p :: start <= p < start + i ==> p in owner && owner[p] == |old(runs)|
        invariant forall p :: p in old(owner) ==> p in owner && owner[p] == old(owner)[p]
        invariant forall p :: p in owner ==> p in old(owner) || start <= p < start + i
      {
        owner := owner[start + i := |runs|];
      }
      runs := runs + [PageRun(start, n)];
    }

    /** `pmm_free_page` of a page that is in use by its caller. */
    method FreePage(addr: nat)
      requires Valid() && addr / PAGE_SIZE in owner
      modifies this, bits
      ensures Valid() && PageStep(old(Abs()), Abs(), Released(addr / PAGE_SIZE))
    {
      hide IsSet, FreeUnits;
      OwnedUsed(owner, addr / PAGE_SIZE);
      ClearBit(bits, addr / PAGE_SIZE);
      availablePages := availablePages + 1;
      usedPages := usedPages - 1;
      owner := owner - {addr / PAGE_SIZE};
      StepKeeps(old(Abs()), Abs(), Released(addr / PAGE_SIZE));
    }
  }

  lemma OwnedUsed(m: map<nat, nat>, k: nat)
    requires k in m
    ensures |m| >= 1
  {
    SmallerMap(m, k);
  }

  lemma LargerMap(m: map<nat, nat>, m': map<nat, nat>, start: nat, n: nat)
    requires forall p :: start <= p < start + n ==> p !in m && p in m'
    requires forall p :: p in m ==> p in m'
    requires forall p :: p in m' ==> p in m || start <= p < start + n
    ensures |m'| == |m| + n
  {
    assert m'.Keys == m.Keys + Units(start, n);
  }

  /** Every step keeps the pages consistent, the sum of the counters and the surplus. */
  lemma StepKeeps(s: Pages, t: Pages, op: PageOp)
    requires s.Valid() && PageStep(s, t, op)
    ensures t.Valid() && t.used + t.available == s.used + s.available && t.Surplus() == s.Surplus()
  {
    hide Pages.Valid, Allocates, Releases, FreeUnits;
    match op
    case Allocated(size, start) => AllocationKeeps(s, t, start, PagesFor(size));
    case Refused =>
    case Released(page) => ReleaseKeeps(s, t, page);
  }

  lemma AllocationKeeps(s: Pages, t: Pages, start: nat, n: nat)
    requires s.Valid() && Allocates(s, t, start, n)
    ensures t.Valid() && t.used + t.available == s.used + s.available && t.Surplus() == s.Surplus()
  {
    hide IsSet, FreeUnits, Allocates;
    AllocationCounts(s, t, start, n);
    OwnersKept(s, t, start, n);
  }

  lemma AllocationCounts(s: Pages, t: Pages, start: nat, n: nat)
    requires Allocates(s, t, start, n)
    ensures |FreeUnits(t.w)| == |FreeUnits(s.w)| - n && |t.owner| == |s.owner| + n
    ensures t.available == s.available - n && t.used == s.used + n
  {
    hide IsSet, FreeUnits, Bitmap.LowestRun;
    RunFree(s.w, start, n);
    MarkedFree(s.w, t.w, start, n);
    LargerMap(s.owner, t.owner, start, n);
  }

  lemma OwnersKept(s: Pages, t: Pages, start: nat, n: nat)
    requires s.Valid() && Allocates(s, t, start, n)
    ensures forall p :: p in t.owner ==> p < 64 * |t.w| && IsSet(t.w, p)
    ensures forall p :: p in t.owner ==> t.owner[p] < |t.runs| && t.runs[t.owner[p]].Holds(p)
  {
    hide IsSet, FreeUnits;
    forall p | p in t.owner
      ensures p < 64 * |t.w| && IsSet(t.w, p) && t.owner[p] < |t.runs| && t.runs[t.owner[p]].Holds(p)
    {
      if p in s.owner {
        assert s.owner[p] < |s.runs| && s.runs[s.owner[p]].Holds(p);
      } else {
        assert start <= p < start + n;
      }
    }
  }

  lemma ReleaseKeeps(s: Pages, t: Pages, page: nat)
    requires s.Valid() && Releases(s, t, page)
    ensures t.Valid() && t.used + t.available == s.used + s.available && t.Surplus() == s.Surplus()
  {
    hide IsSet, FreeUnits;
    ClearedFree(s.w, t.w, page);
    SmallerMap(s.owner, page);
  }

  /** A run of allocations and frees. */
  ghost predicate PageHistory(states: seq<Pages>, ops: seq<PageOp>) {
    && |states| == |ops| + 1 && states[0].Valid()
    && forall k :: 0 <= k < |ops| ==> PageStep(states[k], states[k + 1], ops[k])
  }

  /** In every state of every run the sum of the counters and the surplus are those of the start. */
  lemma {:induction false} PagesAlways(states: seq<Pages>, ops: seq<PageOp>, k: nat)
    requires PageHistory(states, ops) && k < |states|
    ensures states[k].Valid() && states[k].used + states[k].available == states[0].used + states[0].available
    ensures states[k].Surplus() == states[0].Surplus()
    ensures |states[0].runs| <= |states[k].runs| && states[0].runs <= states[k].runs
  {
    hide Pages.Valid, PageStep;
    if k > 0 {
      PagesAlways(states, ops, k - 1);
      StepKeeps(states[k - 1], states[k], ops[k - 1]);
      StepRuns(states[k - 1], states[k], ops[k - 1]);
    }
  }

  lemma StepRuns(s: Pages, t: Pages, op: PageOp)
    requires PageStep(s, t, op)
    ensures s.runs <= t.runs
  {
  }

  /** In every state of every run, two runs of pages that are still held share no page, and what is held is marked as
      used, so it is not handed out again. */
  lemma LiveRunsDisjoint(states: seq<Pages>, ops: seq<PageOp>, i: nat, j: nat, k: nat, p: nat)
    requires PageHistory(states, ops) && i < |states| && j < |states[i].runs| && k < |states[i].runs| && j != k
    requires states[i].Live(j) && states[i].Live(k) && states[i].runs[j].Holds(p)
    ensures !states[i].runs[k].Holds(p)
    ensures p < 64 * |states[i].w| && IsSet(states[i].w, p)
  {
    PagesAlways(states, ops, i);
  }

  /** Whatever else is allocated and freed in between, a run stays held as long as none of its own pages is freed. */
  lemma {:induction false} RunStaysLive(states: seq<Pages>, ops: seq<PageOp>, i: nat, k: nat, n: nat)
    requires PageHistory(states, ops) && i <= k < |states| && n < |states[i].runs| && states[i].Live(n)
    requires forall j :: i <= j < k && ops[j].Released? ==> !states[i].runs[n].Holds(ops[j].page)
    ensures n < |states[k].runs| && states[k].runs[n] == states[i].runs[n] && states[k].Live(n)
    decreases k
  {
    hide Pages.Live, PageStep;
    if i < k {
      RunStaysLive(states, ops, i, k - 1, n);
      assert PageStep(states[k - 1], states[k], ops[k - 1]);
      LiveStep(states[k - 1], states[k], ops[k - 1], n);
    }
  }

  /** Two allocations of a run share no page if no page of the first is released before the second. */
  lemma AllocationsApart(states: seq<Pages>, ops: seq<PageOp>, i: nat, j: nat, p: nat)
    requires PageHistory(states, ops) && i < j < |ops| && ops[i].Allocated? && ops[j].Allocated?
    requires var first := PageRun(ops[i].start, PagesFor(ops[i].size));
             first.Holds(p) && forall k :: i < k < j && ops[k].Released? ==> !first.Holds(ops[k].page)
    ensures !PageRun(ops[j].start, PagesFor(ops[j].size)).Holds(p)
  {
    hide IsSet, Bitmap.LowestRun;
    var n := |states[i].runs|;
    assert PageStep(states[i], states[i + 1], ops[i]) && PageStep(states[j], states[j + 1], ops[j]);
    RunStaysLive(states, ops, i + 1, j, n);
    assert states[j].runs[n].Holds(p);
  }

  lemma LiveStep(s: Pages, t: Pages, op: PageOp, n: nat)
    requires PageStep(s, t, op) && n < |s.runs| && s.Live(n)
    requires op.Released? ==> !s.runs[n].Holds(op.page)
    ensures n < |t.runs| && t.runs[n] == s.runs[n] && t.Live(n)
  {
    hide IsSet, Bitmap.LowestRun;
  }

  lemma SmallerMap(m: map<nat, nat>, k: nat)
    requires k in m
    ensures |m - {k}| == |m| - 1
  {
    assert (m - {k}).Keys == m.Keys - {k};
  }

  /** The run found for a request of zero units still starts on a free one. */
  lemma RunFree(w: seq<nat>, start: nat, n: nat)
    requires LowestRun(w, start, AtLeastOne(n))
    ensures FreeRun(w, start, n)
  {
  }

  // ----- the heap -----

  /** A block of memory returned by `malloc`: its first block number and its size in bytes. */
  datatype Chunk = Chunk(start: nat, size: nat)
  {
    function Blocks(): nat {
      size / BLOCK_SIZE
    }

    function First(): nat {
      start * BLOCK_SPACING
    }

    /** One more than the last byte, relative to the start of the heap. */
    function End(): nat {
      First() + size
    }
  }

  ghost predicate Apart(a: Chunk, b: Chunk) {
    a.End() <= b.First() || b.End() <= a.First()
  }

  /** The blocks of two chunks that have any do not meet. */
  ghost predicate BlocksApart(a: Chunk, b: Chunk) {
    a.Blocks() == 0 || b.Blocks() == 0 || a.start + a.Blocks() <= b.start || b.start + b.Blocks() <= a.start
  }

  /** Rounding the block count down is covered by the spacing of the blocks, from 16 bytes on. */
  lemma SpacingCovers(a: Chunk, b: Chunk)
    requires a.size >= BLOCK_SIZE && b.size >= BLOCK_SIZE && BlocksApart(a, b)
    ensures Apart(a, b)
  {
  }

  class Heap {
    const bitmap: array<nat>
    var freeBlocks: nat
    var usedBlocks: nat
    /** Everything that `malloc` has returned. */
    ghost var live: seq<Chunk>

    /** `heap_init`: the bitmap is cleared and every block of the heap is counted as free. */
    constructor (bitmap: array<nat>)
      requires 64 * bitmap.Length < 0x8000_0000
      modifies bitmap
      ensures Valid() && this.bitmap == bitmap && live == [] && freeBlocks == 64 * bitmap.Length && usedBlocks == 0
      ensures forall i :: 0 <= i < 64 * bitmap.Length ==> !IsSet(bitmap[..], i)
    {
      this.bitmap, freeBlocks, usedBlocks, live := bitmap, 64 * bitmap.Length, 0, [];
      new;
      for k := 0 to bitmap.Length
        invariant forall j :: 0 <= j < k ==> bitmap[j] == 0
        modifies bitmap
      {
        bitmap[k] := 0;
      }
      ZeroWordsFree(bitmap[..]);
    }

    /** The size in bytes of the region that the blocks of the bitmap stand for. */
    ghost function Bytes(): nat {
      64 * bitmap.Length * BLOCK_SIZE
    }

    ghost predicate Taken(c: Chunk)
      reads bitmap
    {
      c.start + c.Blocks() <= 64 * bitmap.Length &&
      forall i :: c.start <= i < c.start + c.Blocks() ==> IsSet(bitmap[..], i)
    }

    ghost predicate Valid()
      reads this, bitmap
    {
      && 64 * bitmap.Length < 0x8000_0000
      && freeBlocks >= |FreeUnits(bitmap[..])|
      && (forall k :: 0 <= k < |live| ==> Taken(live[k]))
      && (forall j, k :: 0 <= j < k < |live| ==> BlocksApart(live[j], live[k]))
    }

    /** `malloc`: fails when the counter shows too few blocks, else takes the lowest free run. The bound passed to
        the search is eight times the number of words, but the search stops at the run. */
    method Malloc(size: nat, ghost free: nat) returns (ok: bool, chunk: Chunk)
      requires Valid()
      requires freeBlocks >= size / BLOCK_SIZE ==> FreeRun(bitmap[..], free, AtLeastOne(size / BLOCK_SIZE))
      modifies this, bitmap
      ensures Valid() && ok == (old(freeBlocks) >= size / BLOCK_SIZE)
      ensures !ok ==> live == old(live) && bitmap[..] == old(bitmap[..]) && freeBlocks == old(freeBlocks)
      ensures ok ==> live == old(live) + [chunk] && chunk.size == size
      ensures ok ==> LowestRun(old(bitmap[..]), chunk.start, AtLeastOne(size / BLOCK_SIZE))
      ensures freeBlocks + usedBlocks == old(freeBlocks + usedBlocks)
      ensures ok ==> freeBlocks == old(freeBlocks) - size / BLOCK_SIZE
      ensures ok ==> forall i :: 0 <= i < 64 * bitmap.Length ==>
        IsSet(bitmap[..], i) == (chunk.start <= i < chunk.start + size / BLOCK_SIZE || old(IsSet(bitmap[..], i)))
      ensures ok ==> (chunk.End() <= Bytes() <==> 8 * chunk.start + (size + 15) / 16 <= 64 * bitmap.Length)
    {
      hide IsSet, Bitmap.LowestRun;
      ok, chunk := false, Chunk(0, size);
      if freeBlocks < size / BLOCK_SIZE {
        return;
      }
      ghost var w0 := bitmap[..];
      var start := Reserve(size / BLOCK_SIZE, free);
      chunk := Chunk(start, size);
      forall k | 0 <= k < |live|
        ensures Taken(live[k]) && BlocksApart(live[k], chunk)
      {
        StillTaken(w0, bitmap[..], live[k], chunk);
      }
      live := live + [chunk];
      ok := true;
    }

    /** Finds and marks `n` blocks and adjusts the counters. */
    method Reserve(n: nat, ghost free: nat) returns (start: nat)
      requires 64 * bitmap.Length < 0x8000_0000 && freeBlocks >= |FreeUnits(bitmap[..])|
      requires FreeRun(bitmap[..], free, AtLeastOne(n))
      modifies this`freeBlocks, this`usedBlocks, bitmap
      ensures LowestRun(old(bitmap[..]), start, AtLeastOne(n)) && FreeRun(old(bitmap[..]), start, n)
      ensures freeBlocks == old(freeBlocks) - n && usedBlocks == old(usedBlocks) + n
      ensures freeBlocks >= |FreeUnits(bitmap[..])|
      ensures forall i :: 0 <= i < 64 * bitmap.Length ==>
        IsSet(bitmap[..], i) == (start <= i < start + n || old(IsSet(bitmap[..], i)))
    {
      hide IsSet;
      start := FindRun(bitmap, bitmap.Length * 8, n, free);
      ghost var w0 := bitmap[..];
      RunFree(w0, start, n);
      MarkRun(bitmap, start, n);
      MarkedFree(w0, bitmap[..], start, n);
      freeBlocks := freeBlocks - n;
      usedBlocks := usedBlocks + n;
    }

    /** Chunks of at least 16 bytes never share a byte. */
    lemma LiveApart(j: nat, k: nat)
      requires Valid() && j < k < |live| && live[j].size >= BLOCK_SIZE && live[k].size >= BLOCK_SIZE
      ensures Apart(live[j], live[k])
    {
      SpacingCovers(live[j], live[k]);
    }
  }

  /** A chunk taken before lies outside a run that was free. */
  lemma StillTaken(v: seq<nat>, w: seq<nat>, old_: Chunk, new_: Chunk)
    requires |v| == |w| && FreeRun(v, new_.start, new_.Blocks())
    requires old_.start + old_.Blocks() <= 64 * |v|
    requires forall i :: old_.start <= i < old_.start + old_.Blocks() ==> IsSet(v, i)
    requires forall j :: 0 <= j < 64 * |v| ==>
      IsSet(w, j) == (new_.start <= j < new_.start + new_.Blocks() || IsSet(v, j))
    ensures BlocksApart(old_, new_)
    ensures forall i :: old_.start <= i < old_.start + old_.Blocks() ==> IsSet(w, i)
  {
    var i := if old_.start <= new_.start then new_.start else old_.start;
    assert old_.start <= i < old_.start + old_.Blocks() ==> IsSet(v, i);
  }

  lemma ZeroWordsFree(w: seq<nat>)
    requires forall k :: 0 <= k < |w| ==> w[k] == 0
    ensures forall i :: 0 <= i < 64 * |w| ==> !IsSet(w, i)
    ensures |FreeUnits(w)| == 64 * |w|
  {
    forall i | 0 <= i < 64 * |w|
      ensures !IsSet(w, i)
    {
      Bits.ShrZero(i % 64);
    }
    assert FreeUnits(w) == Units(0, 64 * |w|);
  }

  /** Two calls one after the other get disjoint memory exactly when the first request was of at least 16 bytes, or the
      lowest free block has no room for the second: a smaller request marks no block, so the second search starts from
      the same map. */
  method MallocTwice(heap: Heap, a: nat, b: nat, ghost low: nat, ghost free: nat) returns (p: Chunk, q: Chunk)
    requires heap.Valid() && 1 <= a && 1 <= b && heap.freeBlocks >= a / BLOCK_SIZE + b / BLOCK_SIZE
    requires LowestRun(heap.bitmap[..], low, AtLeastOne(a / BLOCK_SIZE))
    requires FreeRun(heap.bitmap[..], free, AtLeastOne(b / BLOCK_SIZE))
    requires a < BLOCK_SIZE || free + AtLeastOne(b / BLOCK_SIZE) <= low || low + a / BLOCK_SIZE <= free
    modifies heap, heap.bitmap
    ensures p == Chunk(low, a) && q.size == b
    ensures Apart(p, q) <==> a >= BLOCK_SIZE || !FreeRun(old(heap.bitmap[..]), low, AtLeastOne(b / BLOCK_SIZE))
  {
    hide IsSet;
    ghost var v := heap.bitmap[..];
    var ok;
    ok, p := heap.Malloc(a, low);
    ghost var w := heap.bitmap[..];
    LowestUnique(v, p.start, low, AtLeastOne(a / BLOCK_SIZE));
    assert FreeRun(w, free, AtLeastOne(b / BLOCK_SIZE));
    ok, q := heap.Malloc(b, free);
    if a < BLOCK_SIZE {
      SameMap(v, w);
      SecondAfterSmall(v, p, q);
    } else {
      SecondAfterLarge(w, p, q);
    }
  }

  /** The second search over the same map: the same block if there is room, else one further on. */
  lemma SecondAfterSmall(w: seq<nat>, p: Chunk, q: Chunk)
    requires 1 <= p.size < BLOCK_SIZE && 1 <= q.size
    requires LowestRun(w, p.start, 1) && LowestRun(w, q.start, AtLeastOne(q.Blocks()))
    ensures Apart(p, q) <==> !FreeRun(w, p.start, AtLeastOne(q.Blocks()))
  {
    hide IsSet;
    assert FreeRun(w, q.start, 1);
    if FreeRun(w, p.start, AtLeastOne(q.Blocks())) {
      assert p.start == q.start;
    } else {
      assert p.start < q.start;
    }
  }

  lemma SecondAfterLarge(w: seq<nat>, p: Chunk, q: Chunk)
    requires p.size >= BLOCK_SIZE && FreeRun(w, q.start, AtLeastOne(q.Blocks()))
    requires p.start + p.Blocks() <= 64 * |w| && forall i :: p.start <= i < p.start + p.Blocks() ==> IsSet(w, i)
    ensures Apart(p, q)
  {
    hide IsSet;
    var i := if p.start <= q.start then q.start else p.start;
    assert p.start <= i < p.start + p.Blocks() ==> IsSet(w, i);
    assert q.start <= i < q.start + AtLeastOne(q.Blocks()) ==> !IsSet(w, i);
  }

  // ----- everything a new heap hands out -----

  /** Exactly the blocks before `m` are in use. */
  ghost predicate UsedBelow(w: seq<nat>, m: nat) {
    m <= 64 * |w| && forall i :: 0 <= i < 64 * |w| ==> (IsSet(w, i) <==> i < m)
  }

  /** Since nothing is ever freed, the search finds the first block after those in use. */
  lemma LowestIsNext(w: seq<nat>, m: nat, start: nat, n: nat)
    requires UsedBelow(w, m) && n >= 1 && m + n <= 64 * |w| && LowestRun(w, start, n)
    ensures start == m
  {
    assert !IsSet(w, start);
    assert FreeRun(w, m, n);
  }

  /** The blocks taken by the first `k` requests. */
  function BlocksBefore(sizes: seq<nat>, k: nat): nat
    requires k <= |sizes|
  {
    if k == 0 then 0 else BlocksBefore(sizes, k - 1) + sizes[k - 1] / BLOCK_SIZE
  }

  lemma {:induction false} BlocksGrow(sizes: seq<nat>, j: nat, k: nat)
    requires j <= k <= |sizes|
    ensures BlocksBefore(sizes, j) <= BlocksBefore(sizes, k)
    ensures j < k ==> BlocksBefore(sizes, j) + sizes[j] / BLOCK_SIZE <= BlocksBefore(sizes, k)
    decreases k
  {
    if j < k {
      BlocksGrow(sizes, j, k - 1);
    }
  }

  /** Any list of requests to a new heap, as long as a free block is left: the exact place of every chunk. */
  method MallocAll(heap: Heap, sizes: seq<nat>) returns (chunks: seq<Chunk>)
    requires heap.Valid() && UsedBelow(heap.bitmap[..], 0) && heap.freeBlocks == 64 * heap.bitmap.Length
    requires BlocksBefore(sizes, |sizes|) < 64 * heap.bitmap.Length
    modifies heap, heap.bitmap
    ensures heap.Valid() && |chunks| == |sizes|
    ensures forall k :: 0 <= k < |sizes| ==> chunks[k] == Chunk(BlocksBefore(sizes, k), sizes[k])
  {
    hide Heap.Valid, UsedBelow, IsSet, BlocksBefore, AtLeastOne;
    NoBlocks(sizes);
    chunks := [];
    for k := 0 to |sizes|
      invariant heap.Valid() && |chunks| == k && UsedBelow(heap.bitmap[..], BlocksBefore(sizes, k))
      invariant heap.freeBlocks == 64 * heap.bitmap.Length - BlocksBefore(sizes, k)
      invariant forall j :: 0 <= j < k ==> chunks[j] == Chunk(BlocksBefore(sizes, j), sizes[j])
    {
      NextBlocks(sizes, k);
      var c := MallocNext(heap, sizes[k], BlocksBefore(sizes, k));
      chunks := chunks + [c];
    }
  }

  lemma NoBlocks(sizes: seq<nat>)
    ensures BlocksBefore(sizes, 0) == 0
  {
  }

  lemma NextBlocks(sizes: seq<nat>, k: nat)
    requires k < |sizes|
    ensures BlocksBefore(sizes, k + 1) == BlocksBefore(sizes, k) + sizes[k] / BLOCK_SIZE
    ensures BlocksBefore(sizes, k) + AtLeastOne(sizes[k] / BLOCK_SIZE) <= BlocksBefore(sizes, |sizes|) + 1
  {
    BlocksGrow(sizes, k, |sizes|);
  }

  method MallocNext(heap: Heap, size: nat, ghost m: nat) returns (c: Chunk)
    requires heap.Valid() && UsedBelow(heap.bitmap[..], m) && heap.freeBlocks == 64 * heap.bitmap.Length - m
    requires m + AtLeastOne(size / BLOCK_SIZE) <= 64 * heap.bitmap.Length
    modifies heap, heap.bitmap
    ensures heap.Valid() && c == Chunk(m, size)
    ensures UsedBelow(heap.bitmap[..], m + size / BLOCK_SIZE)
    ensures heap.freeBlocks == old(heap.freeBlocks) - size / BLOCK_SIZE
  {
    hide Heap.Valid, IsSet, Bitmap.LowestRun;
    ghost var w := heap.bitmap[..];
    assert FreeRun(w, m, AtLeastOne(size / BLOCK_SIZE));
    var ok;
    ok, c := heap.Malloc(size, m);
    LowestIsNext(w, m, c.start, AtLeastOne(size / BLOCK_SIZE));
  }

  /** Of everything a new heap hands out, two chunks share no byte exactly when some request from the first up to the
      second was of at least 16 bytes. */
  lemma ChunksApart(sizes: seq<nat>, j: nat, k: nat)
    requires j < k < |sizes| && sizes[j] >= 1 && sizes[k] >= 1
    ensures Apart(Chunk(BlocksBefore(sizes, j), sizes[j]), Chunk(BlocksBefore(sizes, k), sizes[k])) <==>
            exists i :: j <= i < k && sizes[i] >= BLOCK_SIZE
  {
    BlocksGrow(sizes, j, k);
    SomeBlock(sizes, j, k);
  }

  lemma {:induction false} SomeBlock(sizes: seq<nat>, j: nat, k: nat)
    requires j <= k <= |sizes|
    ensures BlocksBefore(sizes, j) < BlocksBefore(sizes, k) <==> exists i :: j <= i < k && sizes[i] >= BLOCK_SIZE
    decreases k
  {
    if j < k {
      SomeBlock(sizes, j, k - 1);
      BlocksGrow(sizes, j, k - 1);
      assert sizes[k - 1] / BLOCK_SIZE > 0 <==> sizes[k - 1] >= BLOCK_SIZE;
    }
  }

  /** A chunk lies inside the heap region exactly when eight times the blocks taken before it and its own size, rounded
      up to blocks, fit: only one eighth of the blocks can be used. */
  lemma ChunkInside(sizes: seq<nat>, k: nat, blocks: nat)
    requires k < |sizes|
    ensures Chunk(BlocksBefore(sizes, k), sizes[k]).End() <= blocks * BLOCK_SIZE <==>
            8 * BlocksBefore(sizes, k) + (sizes[k] + 15) / 16 <= blocks
  {
  }

  /** The heap of 64 blocks: the ninth request of 16 bytes gets memory that begins where the heap region ends. */
  lemma NinthChunkOutside()
    ensures var sizes := seq(9, _ => 16);
            forall k :: 0 <= k < 9 ==>
              (Chunk(BlocksBefore(sizes, k), sizes[k]).End() <= 64 * BLOCK_SIZE <==> k < 8)
  {
    var sizes := seq(9, _ => 16);
    forall k | 0 <= k < 9
      ensures BlocksBefore(sizes, k) == k
    {
      OneEach(sizes, k);
    }
  }

  lemma {:induction false} OneEach(sizes: seq<nat>, k: nat)
    requires k <= |sizes| && forall i :: 0 <= i < |sizes| ==> sizes[i] == 16
    ensures BlocksBefore(sizes, k) == k
  {
    if k > 0 {
      OneEach(sizes, k - 1);
    }
  }

  /** Two requests of eight bytes to a new heap get the same memory. */
  method SmallRequestsOverlap() returns (p: Chunk, q: Chunk)
    ensures p == Chunk(0, 8) && q == Chunk(0, 8) && !Apart(p, q)
  {
    hide IsSet;
    var bitmap := new nat[1];
    var heap := new Heap(bitmap);
    ghost var w := bitmap[..];
    assert FreeRun(w, 0, 1);
    p, q := MallocTwice(heap, 8, 8, 0, 0);
  }

  lemma SameMap(v: seq<nat>, w: seq<nat>)
    requires |v| == |w| && forall j :: 0 <= j < 64 * |v| ==> IsSet(w, j) == IsSet(v, j)
    ensures forall s: nat, n: nat :: FreeRun(v, s, n) == FreeRun(w, s, n)
    ensures forall s: nat, n: nat :: LowestRun(v, s, n) == LowestRun(w, s, n)
  {
    hide IsSet;
    assert forall s: nat, n: nat :: FreeRun(v, s, n) == FreeRun(w, s, n);
  }
}
