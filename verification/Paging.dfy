/** Four-level page tables (section 4.5 of the Intel SDM, volume 3A) in physical memory. */
module Paging {
  import opened Bits
  import opened Sizes
  import opened Arith

  const FLAG_BITS: nat := 9

  datatype Option<T> = None | Some(value: T)

  /** Table frames by physical address; each frame holds 512 entries. */
  type Tables = map<nat, seq<nat>>

  type Index = i: nat | i < 512

  // ----- entries and addresses -----

  predicate Present(e: nat) {
    And(e, 1) != 0
  }

  /** `e & ~INDEX_MASK` */
  function Target(e: nat): nat {
    Shl(Shr(e, FLAG_BITS), FLAG_BITS)
  }

  lemma PresentIsOdd(e: nat)
    ensures Present(e) <==> e % 2 == 1
  {
    AndMask(e, 1);
  }

  /** An aligned frame address or-ed with flags below 512 keeps both apart. */
  lemma EntryParts(frame: nat, flags: nat)
    requires frame % 512 == 0 && flags < 512
    ensures Or(frame, flags) == frame + flags
    ensures Target(Or(frame, flags)) == frame
    ensures Present(Or(frame, flags)) <==> flags % 2 == 1
  {
    hide Or, Shl, Shr, Present;
    var q := Shr(frame, FLAG_BITS);
    EntrySum(frame, flags, q);
    Pow2Nine();
    Parts(flags, q, FLAG_BITS);
    PresentIsOdd(frame + flags);
  }

  lemma EntrySum(frame: nat, flags: nat, q: nat)
    requires frame % 512 == 0 && flags < 512 && q == Shr(frame, FLAG_BITS)
    ensures frame == Shl(q, FLAG_BITS) && Or(frame, flags) == frame + flags
  {
    hide Or, Shl, Shr, Low;
    SplitAt(frame, FLAG_BITS);
    LowNine(frame);
    Pow2Nine();
    OrComm(frame, flags);
    OrDisjoint(flags, q, FLAG_BITS);
  }

  lemma PageEntry(page: nat, flags: nat)
    requires page % PAGE_SIZE == 0 && flags < 512
    ensures Or(page, flags) == page + flags && Target(Or(page, flags)) == page
    ensures Present(Or(page, flags)) <==> flags % 2 == 1
  {
    EntryParts(page, flags);
  }

  lemma EntryClean(page: nat, flags: nat)
    requires page % PAGE_SIZE == 0 && flags < 512
    ensures Or(page, flags) % 4096 < 512
    ensures Frame(page + flags) == page
  {
    hide Or, Present, Target;
    PageEntry(page, flags);
    DivModOf(page / PAGE_SIZE, flags, PAGE_SIZE);
  }

  lemma Pow2Nine()
    ensures Pow2(FLAG_BITS) == 512
  {
    Pow2Values();
  }

  lemma LowNine(x: nat)
    requires x % 512 == 0
    ensures Low(x, FLAG_BITS) == 0
  {
    LowIsMod(x, x / 512);
  }

  lemma LowIsMod(x: nat, q: nat)
    requires x == 512 * q
    ensures Low(x, FLAG_BITS) == 0
  {
    ShlNine(q);
    Pow2Nine();
    Parts(0, q, FLAG_BITS);
  }

  lemma ShlNine(q: nat)
    ensures Shl(q, FLAG_BITS) == 512 * q
  {
    ShlTimes(q, FLAG_BITS);
    Pow2Nine();
  }

  /** The index that a virtual address has at the level with the given shift (39, 30, 21 or 12). */
  function IndexAt(virt: nat, shift: nat): nat {
    Shr(And(virt, Shl(511, shift)), shift)
  }

  lemma IndexIsField(virt: nat, shift: nat)
    ensures IndexAt(virt, shift) == Low(Shr(virt, shift), FLAG_BITS)
    ensures IndexAt(virt, shift) < 512
  {
    Pow2Nine();
    AndShl(virt, 511, shift);
    AndMask(Shr(virt, shift), FLAG_BITS);
    var r := Low(Shr(virt, shift), FLAG_BITS);
    LowBound(Shr(virt, shift), FLAG_BITS);
    Parts(0, r, shift);
  }

  function PathOf(virt: nat): (p: seq<Index>)
    ensures |p| == 4
  {
    IndexIsField(virt, 39);
    IndexIsField(virt, 30);
    IndexIsField(virt, 21);
    IndexIsField(virt, 12);
    [IndexAt(virt, 39), IndexAt(virt, 30), IndexAt(virt, 21), IndexAt(virt, 12)]
  }

  /** Bits 63 to 47 of a 64-bit address are all equal. */
  ghost predicate Canonical(virt: nat) {
    Shr(virt, 47) == 0 || Shr(virt, 47) == Pow2(17) - 1
  }

  /** The four indices of a page-aligned address are its bits 12 to 47. */
  lemma PathIsBits(virt: nat)
    requires Low(virt, 12) == 0
    ensures Low(virt, 48) ==
            Shl(Shl(Shl(Shl(IndexAt(virt, 39), 9) + IndexAt(virt, 30), 9) + IndexAt(virt, 21), 9) +
                IndexAt(virt, 12), 12)
  {
    hide Low, Shl, Shr;
    IndexIsField(virt, 39);
    IndexIsField(virt, 30);
    IndexIsField(virt, 21);
    IndexIsField(virt, 12);
    LowExtend(virt, 12, 9);
    LowExtend(virt, 21, 9);
    LowExtend(virt, 30, 9);
    LowExtend(virt, 39, 9);
    var a, b, c, d := IndexAt(virt, 39), IndexAt(virt, 30), IndexAt(virt, 21), IndexAt(virt, 12);
    ShlAdd(Shl(Shl(Shl(a, 9) + b, 9) + c, 9), d, 12);
    ShlShl(Shl(Shl(a, 9) + b, 9) + c, 9, 12);
    ShlAdd(Shl(Shl(a, 9) + b, 9), c, 21);
    ShlShl(Shl(a, 9) + b, 9, 21);
    ShlAdd(Shl(a, 9), b, 30);
    ShlShl(a, 9, 30);
  }

  lemma {:induction false} LowExtend(x: nat, a: nat, b: nat)
    ensures Low(x, a + b) == Low(x, a) + Shl(Low(Shr(x, a), b), a)
    decreases a
  {
    if a > 0 {
      LowExtend(x / 2, a - 1, b);
    }
  }

  /** Canonical page-aligned addresses with the same indices are the same address. */
  lemma PathInjective(v: nat, w: nat)
    requires Canonical(v) && Canonical(w) && Low(v, 12) == 0 && Low(w, 12) == 0
    requires PathOf(v) == PathOf(w)
    ensures v == w
  {
    hide Low, Shl, Shr, Pow2, IndexAt;
    assert PathOf(v)[0] == PathOf(w)[0] && PathOf(v)[1] == PathOf(w)[1];
    assert PathOf(v)[2] == PathOf(w)[2] && PathOf(v)[3] == PathOf(w)[3];
    PathIsBits(v);
    PathIsBits(w);
    SplitAt(v, 47);
    SplitAt(w, 47);
    LowLow(v, 47, 48);
    LowLow(w, 47, 48);
    SignBit(v);
    SignBit(w);
  }

  /** Bit 47, which the top index contains, decides which half of the address space it is. */
  lemma SignBit(v: nat)
    requires Canonical(v)
    ensures Low(v, 48) == Low(v, 47) + Shl(Low(Shr(v, 47), 1), 47)
    ensures Shr(v, 47) == 0 <==> Low(v, 48) == Low(v, 47)
  {
    hide Shl, Shr, Pow2;
    LowExtend(v, 47, 1);
    TopBits();
    ShlZero(47);
    ShlGrow(1, 47);
  }

  lemma TopBits()
    ensures Low(0, 1) == 0 && Low(Pow2(17) - 1, 1) == 1 && Pow2(17) - 1 != 0
  {
    assert Pow2(17) == 2 * Pow2(16);
    Pow2Values();
  }

  // ----- walking -----

  /** The table that entry `i` of table `t` points to. */
  function Next(m: Tables, t: nat, i: Index): Option<nat> {
    if t in m && i < |m[t]| && Present(m[t][i]) then Some(Target(m[t][i])) else None
  }

  /** The table reached from `t` along `path`. */
  function TableAt(m: Tables, t: nat, path: seq<Index>): Option<nat>
    decreases |path|
  {
    if path == [] then Some(t)
    else match Next(m, t, path[0])
         case None => None
         case Some(u) => TableAt(m, u, path[1..])
  }

  /** The leaf entry that maps the page with the four indices `path`, if it is mapped. */
  function Lookup(m: Tables, root: nat, path: seq<Index>): Option<nat>
    requires |path| == 4
  {
    match TableAt(m, root, path[..3])
    case None => None
    case Some(t) => if t in m && path[3] < |m[t]| && Present(m[t][path[3]]) then Some(m[t][path[3]]) else None
  }

  lemma {:induction false} TableAtExtend(m: Tables, t: nat, path: seq<Index>, i: Index)
    ensures TableAt(m, t, path + [i]) ==
            (match TableAt(m, t, path) case None => None case Some(u) => Next(m, u, i))
    decreases |path|
  {
    if path == [] {
      assert [i][1..] == [];
      if Next(m, t, i).Some? {
        assert TableAt(m, Next(m, t, i).value, []) == Next(m, t, i);
      }
    } else {
      assert (path + [i])[1..] == path[1..] + [i];
      if Next(m, t, path[0]).Some? {
        TableAtExtend(m, Next(m, t, path[0]).value, path[1..], i);
      }
    }
  }

  // ----- the tree invariant -----

  /** `owner` gives each table frame the index path it was allocated for, and every present entry of an
      inner table leads to a table of the extended path. */
  ghost predicate Tree(m: Tables, owner: map<nat, seq<Index>>, root: nat) {
    && root in m && m.Keys == owner.Keys && owner[root] == []
    && (forall t :: t in m ==> |m[t]| == 512 && |owner[t]| <= 3)
    && (forall t, i: Index :: t in m && |owner[t]| < 3 && Present(m[t][i]) ==> EdgeOk(m, owner, t, i))
  }

  ghost predicate EdgeOk(m: Tables, owner: map<nat, seq<Index>>, t: nat, i: Index)
    requires t in m && t in owner && |m[t]| == 512
  {
    Target(m[t][i]) in m && Target(m[t][i]) in owner && owner[Target(m[t][i])] == owner[t] + [i]
  }

  /** Following a path leads to a table that belongs to that path. */
  lemma {:induction false} WalkOwner(m: Tables, owner: map<nat, seq<Index>>, root: nat, t: nat, path: seq<Index>)
    requires Tree(m, owner, root) && t in m && |owner[t]| + |path| <= 3
    ensures var r := TableAt(m, t, path); r.Some? ==> r.value in m && owner[r.value] == owner[t] + path
    decreases |path|
  {
    if path != [] {
      var r := Next(m, t, path[0]);
      if r.Some? {
        assert EdgeOk(m, owner, t, path[0]);
        WalkOwner(m, owner, root, r.value, path[1..]);
        assert owner[t] + [path[0]] + path[1..] == owner[t] + path;
      }
    }
  }

  /** No table frame is reached along two different paths. */
  lemma NoSharing(m: Tables, owner: map<nat, seq<Index>>, root: nat, p: seq<Index>, q: seq<Index>)
    requires Tree(m, owner, root) && |p| <= 3 && |q| <= 3
    requires TableAt(m, root, p).Some? && TableAt(m, root, p) == TableAt(m, root, q)
    ensures p == q
  {
    WalkOwner(m, owner, root, root, p);
    WalkOwner(m, owner, root, root, q);
    assert [] + p == p && [] + q == q;
  }

  function Zeroed(): (s: seq<nat>)
    ensures |s| == 512 && forall i :: 0 <= i < 512 ==> s[i] == 0
  {
    seq(512, _ => 0)
  }

  lemma ZeroNotPresent()
    ensures !Present(0)
  {
    PresentIsOdd(0);
  }

  // ----- hanging a fresh table into the tree -----

  /** Memory after entry `i` of table `t` is set to `e` and the zeroed frame `f` becomes a table. */
  function Grown(m: Tables, t: nat, i: Index, e: nat, f: nat): Tables
    requires t in m && |m[t]| == 512
  {
    var entries: seq<nat> := m[t][i := e];
    m[t := entries][f := Zeroed()]
  }

  lemma GrownTree(m: Tables, owner: map<nat, seq<Index>>, root: nat, t: nat, i: Index, e: nat, f: nat)
    requires Tree(m, owner, root) && t in m && |owner[t]| < 3 && f !in m
    requires Present(e) ==> Target(e) == f
    ensures Tree(Grown(m, t, i, e, f), owner[f := owner[t] + [i]], root)
  {
    hide Present, Target;
    ZeroNotPresent();
    var m', owner' := Grown(m, t, i, e, f), owner[f := owner[t] + [i]];
    forall u, j: Index | u in m' && |owner'[u]| < 3 && Present(m'[u][j])
      ensures EdgeOk(m', owner', u, j)
    {
      if u != f && !(u == t && j == i) {
        assert m'[u][j] == m[u][j];
        assert EdgeOk(m, owner, u, j);
      }
    }
  }

  /** Walks are unchanged, except that the path of the new entry now leads to the new table. */
  lemma {:induction false} GrownWalk(m: Tables, owner: map<nat, seq<Index>>, root: nat,
                                     t: nat, i: Index, e: nat, f: nat, u: nat, path: seq<Index>)
    requires Tree(m, owner, root) && t in m && |owner[t]| < 3 && f !in m
    requires !Present(m[t][i]) && (Present(e) ==> Target(e) == f)
    requires u in m && |owner[u]| + |path| <= 3
    ensures TableAt(Grown(m, t, i, e, f), u, path) ==
            if Present(e) && |path| > 0 && path[|path| - 1] == i && TableAt(m, u, path[..|path| - 1]) == Some(t)
            then Some(f) else TableAt(m, u, path)
    decreases |path|
  {
    hide Present, Target;
    var m' := Grown(m, t, i, e, f);
    if path != [] {
      var j, rest := path[0], path[1..];
      if u == t && j == i {
        assert TableAt(m, u, []) == Some(t);
        if Present(e) {
          FreshWalk(m', f, rest);
          WalkOwner(m, owner, root, u, path[..|path| - 1]);
          if rest == [] {
            assert path[..0] == [];
          }
        } else {
          if |path| > 1 {
            assert path[..|path| - 1][0] == j;
          }
        }
      } else {
        assert Next(m', u, j) == Next(m, u, j);
        if Next(m, u, j).Some? {
          assert EdgeOk(m, owner, u, j);
          GrownWalk(m, owner, root, t, i, e, f, Next(m, u, j).value, rest);
          if |path| > 1 {
            assert path[..|path| - 1][0] == j && path[..|path| - 1][1..] == rest[..|rest| - 1];
          } else {
            assert path[..0] == [];
          }
        } else if |path| > 1 {
          assert path[..|path| - 1][0] == j;
        } else {
          assert path[..0] == [];
        }
      }
    }
  }

  lemma FreshWalk(m: Tables, f: nat, path: seq<Index>)
    requires f in m && m[f] == Zeroed()
    ensures TableAt(m, f, path) == if path == [] then Some(f) else None
  {
    ZeroNotPresent();
  }

  /** Hanging in an empty table maps and unmaps nothing. */
  lemma GrownLookup(m: Tables, owner: map<nat, seq<Index>>, root: nat, t: nat, i: Index, e: nat, f: nat, q: seq<Index>)
    requires Tree(m, owner, root) && t in m && |owner[t]| < 3 && f !in m && |q| == 4
    requires !Present(m[t][i]) && (Present(e) ==> Target(e) == f)
    ensures Lookup(Grown(m, t, i, e, f), root, q) == Lookup(m, root, q)
  {
    hide Present, Target, TableAt;
    ZeroNotPresent();
    GrownWalk(m, owner, root, t, i, e, f, root, q[..3]);
    WalkOwner(m, owner, root, root, q[..3]);
    var r := TableAt(m, root, q[..3]);
    if Present(e) && q[2] == i && TableAt(m, root, q[..3][..2]) == Some(t) {
      TableAtExtend(m, root, q[..3][..2], i);
      assert q[..3] == q[..3][..2] + [i];
    } else if r.Some? {
      assert r.value != t;
    }
  }

  // ----- writing a leaf entry -----

  function LeafWritten(m: Tables, t: nat, i: Index, e: nat): Tables
    requires t in m && |m[t]| == 512
  {
    var entries: seq<nat> := m[t][i := e];
    m[t := entries]
  }

  lemma {:induction false} LeafWalk(m: Tables, owner: map<nat, seq<Index>>, root: nat,
                                    t: nat, i: Index, e: nat, u: nat, path: seq<Index>)
    requires Tree(m, owner, root) && t in m && |owner[t]| == 3 && u in m && |owner[u]| + |path| <= 3
    ensures TableAt(LeafWritten(m, t, i, e), u, path) == TableAt(m, u, path)
    decreases |path|
  {
    if path != [] {
      assert Next(LeafWritten(m, t, i, e), u, path[0]) == Next(m, u, path[0]);
      if Next(m, u, path[0]).Some? {
        assert EdgeOk(m, owner, u, path[0]);
        LeafWalk(m, owner, root, t, i, e, Next(m, u, path[0]).value, path[1..]);
      }
    }
  }

  lemma LeafTree(m: Tables, owner: map<nat, seq<Index>>, root: nat, t: nat, i: Index, e: nat)
    requires Tree(m, owner, root) && t in m && |owner[t]| == 3
    ensures Tree(LeafWritten(m, t, i, e), owner, root)
  {
    hide Present, Target;
    var m' := LeafWritten(m, t, i, e);
    forall u, j: Index | u in m' && |owner[u]| < 3 && Present(m'[u][j])
      ensures EdgeOk(m', owner, u, j)
    {
      assert EdgeOk(m, owner, u, j);
    }
  }

  /** Writing a leaf entry changes the mapping of one page at most. */
  lemma LeafLookup(m: Tables, owner: map<nat, seq<Index>>, root: nat, t: nat, i: Index, e: nat, q: seq<Index>)
    requires Tree(m, owner, root) && t in m && |owner[t]| == 3 && |q| == 4
    ensures Lookup(LeafWritten(m, t, i, e), root, q) ==
            if q[3] == i && TableAt(m, root, q[..3]) == Some(t)
            then (if Present(e) then Some(e) else None) else Lookup(m, root, q)
  {
    hide Present, Target, TableAt;
    LeafWalk(m, owner, root, t, i, e, root, q[..3]);
    WalkOwner(m, owner, root, root, q[..3]);
  }

  // ----- the processor's view -----

  /** Bits 47 to 12 of an address: the page it lies in. */
  function PageNumber(a: nat): nat {
    a / 4096 % 0x10_0000_0000
  }

  /** A present entry of a table; bit 0 is the present bit. */
  function Entry(m: Tables, t: nat, i: nat): Option<nat> {
    if t in m && i < |m[t]| && m[t][i] % 2 == 1 then Some(m[t][i]) else None
  }

  /** The frame address of an entry: bits 12 and up. */
  function Frame(e: nat): nat {
    e / 4096 * 4096
  }

  /** The walk of the processor from the table at `cr3`: bits 47 to 39 of the address select an entry of the first
      table, bits 38 to 30 one of the second, 29 to 21 one of the third and 20 to 12 the page; bits 11 to 0 are the
      offset. */
  function Translate(m: Tables, cr3: nat, a: nat): Option<nat> {
    match Entry(m, cr3, a / 0x80_0000_0000 % 512)
    case None => None
    case Some(e4) =>
      match Entry(m, Frame(e4), a / 0x4000_0000 % 512)
      case None => None
      case Some(e3) =>
        match Entry(m, Frame(e3), a / 0x20_0000 % 512)
        case None => None
        case Some(e2) =>
          match Entry(m, Frame(e2), a / 0x1000 % 512)
          case None => None
          case Some(e1) => Some(Frame(e1) + a % 4096)
  }

  /** Between flags and frame address entries have no bits set. */
  ghost predicate Clean(m: Tables) {
    forall t, i :: t in m && 0 <= i < |m[t]| ==> m[t][i] % 4096 < 512
  }

  lemma ShrIsDiv(x: nat, k: nat)
    ensures Pow2(k) > 0 && Shr(x, k) == x / Pow2(k) && Low(x, k) == x % Pow2(k)
  {
    hide Shr, Low, Shl;
    SplitAt(x, k);
    LowBound(x, k);
    ShlTimes(Shr(x, k), k);
    DivModOf(Shr(x, k), Low(x, k), Pow2(k));
  }

  lemma LevelPowers()
    ensures Pow2(9) == 512 && Pow2(12) == 0x1000 && Pow2(21) == 0x20_0000 && Pow2(30) == 0x4000_0000
    ensures Pow2(39) == 0x80_0000_0000
  {
    hide Pow2, Shl;
    Pow2Values();
    PowerSum(12, 9);
    PowerSum(21, 9);
    PowerSum(30, 9);
  }

  lemma PowerSum(a: nat, b: nat)
    ensures Pow2(a + b) == Pow2(a) * Pow2(b)
  {
    ShlPow2(a, b);
    ShlTimes(Pow2(a), b);
  }

  /** Masking and shifting selects the same index as the processor does. */
  lemma PathIsFields(a: nat)
    ensures PathOf(a)[0] == a / 0x80_0000_0000 % 512 && PathOf(a)[1] == a / 0x4000_0000 % 512
    ensures PathOf(a)[2] == a / 0x20_0000 % 512 && PathOf(a)[3] == a / 0x1000 % 512
  {
    hide IndexAt, Shr, Low, Pow2;
    LevelPowers();
    FieldIs(a, 39);
    FieldIs(a, 30);
    FieldIs(a, 21);
    FieldIs(a, 12);
  }

  lemma FieldIs(a: nat, shift: nat)
    ensures Pow2(shift) > 0 && IndexAt(a, shift) == a / Pow2(shift) % 512
  {
    hide IndexAt, Shr, Low, Pow2;
    IndexIsField(a, shift);
    ShrIsDiv(a, shift);
    ShrIsDiv(a / Pow2(shift), FLAG_BITS);
    Pow2Nine();
  }

  /** The number with the given digits in base 512. */
  function FromDigits(p: seq<Index>): nat
    requires |p| == 4
  {
    ((p[0] as nat * 512 + p[1]) * 512 + p[2]) * 512 + p[3]
  }

  lemma DigitsUnique(p: seq<Index>, q: seq<Index>)
    requires |p| == 4 && |q| == 4 && FromDigits(p) == FromDigits(q)
    ensures p == q
  {
    var a: nat, b: nat := p[0], q[0];
    BlockUnique((a * 512 + p[1]) * 512 + p[2], p[3], (b * 512 + q[1]) * 512 + q[2], q[3], 512);
    BlockUnique(a * 512 + p[1], p[2], b * 512 + q[1], q[2], 512);
    BlockUnique(a, p[1], b, q[1], 512);
  }

  lemma PathNumber(a: nat)
    ensures PageNumber(a) == FromDigits(PathOf(a))
  {
    hide PathOf, PageNumber;
    PathIsFields(a);
    PageDigits(a);
  }

  /** Two addresses have the same indices exactly when they lie in the same page. */
  lemma SamePage(a: nat, b: nat)
    ensures PathOf(a) == PathOf(b) <==> PageNumber(a) == PageNumber(b)
  {
    hide PathOf, PageNumber, FromDigits;
    PathNumber(a);
    PathNumber(b);
    if PageNumber(a) == PageNumber(b) {
      DigitsUnique(PathOf(a), PathOf(b));
    }
  }

  /** The indices are the digits of the page number in base 512. */
  lemma PageDigits(a: nat)
    ensures PageNumber(a) ==
            ((a / 0x80_0000_0000 % 512 * 512 + a / 0x4000_0000 % 512) * 512 + a / 0x20_0000 % 512) * 512 +
            a / 0x1000 % 512
  {
    var n := a / 0x1000;
    var n1, n2, n3 := n / 512, n / 512 / 512, n / 512 / 512 / 512;
    DivTwice(a);
    assert n == n1 * 512 + n % 512 && n1 == n2 * 512 + n1 % 512 && n2 == n3 * 512 + n2 % 512;
    assert n3 == n3 / 512 * 512 + n3 % 512;
    var r := ((n3 % 512 * 512 + n2 % 512) * 512 + n1 % 512) * 512 + n % 512;
    assert n == n3 / 512 * 0x10_0000_0000 + r;
    DivModOf(n3 / 512, r, 0x10_0000_0000);
  }

  lemma DivTwice(a: nat)
    ensures a / 0x20_0000 == a / 0x1000 / 512 && a / 0x4000_0000 == a / 0x1000 / 512 / 512
    ensures a / 0x80_0000_0000 == a / 0x1000 / 512 / 512 / 512
  {
    assert a / 0x20_0000 == a / 0x1000 / 512;
    assert a / 0x4000_0000 == a / 0x20_0000 / 512;
    assert a / 0x80_0000_0000 == a / 0x4000_0000 / 512;
  }

  lemma NextIsEntry(m: Tables, t: nat, i: Index)
    requires Clean(m)
    ensures Next(m, t, i) == match Entry(m, t, i) case None => None case Some(e) => Some(Frame(e))
  {
    hide Present, Target;
    if t in m && i < |m[t]| {
      PresentIsOdd(m[t][i]);
      TargetIsFrame(m[t][i]);
    }
  }

  lemma TargetIsFrame(e: nat)
    requires e % 4096 < 512
    ensures Target(e) == Frame(e)
  {
    hide Shr, Shl, Low, Pow2;
    ShrIsDiv(e, FLAG_BITS);
    ShlNine(e / 512);
    Pow2Nine();
    SamePart(e, e / 4096, e % 4096);
  }

  lemma SamePart(e: nat, q: nat, r: nat)
    requires e == q * 4096 + r && r < 512
    ensures e / 512 * 512 == q * 4096
  {
    DivModOf(8 * q, r, 512);
  }

  /** The processor translates an address exactly as the walk along its indices says. */
  lemma TranslateIsLookup(m: Tables, root: nat, a: nat)
    requires Clean(m)
    ensures Translate(m, root, a) ==
            match Lookup(m, root, PathOf(a)) case None => None case Some(e) => Some(Frame(e) + a % 4096)
  {
    hide Next, PathOf, Entry, Frame, TableAt, Present;
    PathIsFields(a);
    var p := PathOf(a);
    assert p[..3] == [p[0]] + [p[1]] + [p[2]];
    ThreeLevels(m, root, p[0], p[1], p[2]);
    NextIsEntry(m, root, p[0]);
    if Entry(m, root, p[0]).Some? {
      var t3 := Frame(Entry(m, root, p[0]).value);
      NextIsEntry(m, t3, p[1]);
      if Entry(m, t3, p[1]).Some? {
        var t2 := Frame(Entry(m, t3, p[1]).value);
        NextIsEntry(m, t2, p[2]);
        if Entry(m, t2, p[2]).Some? {
          LeafIsEntry(m, Frame(Entry(m, t2, p[2]).value), p[3]);
        }
      }
    }
  }

  lemma ThreeLevels(m: Tables, root: nat, i: Index, j: Index, k: Index)
    ensures TableAt(m, root, [i] + [j] + [k]) ==
            match Next(m, root, i)
            case None => None
            case Some(t) => match Next(m, t, j) case None => None case Some(u) => Next(m, u, k)
  {
    hide Next;
    var none: seq<Index> := [];
    assert none + [i] == [i] && TableAt(m, root, none) == Some(root);
    TableAtExtend(m, root, none, i);
    TableAtExtend(m, root, [i], j);
    TableAtExtend(m, root, [i] + [j], k);
  }

  lemma LeafIsEntry(m: Tables, t: nat, i: Index)
    ensures Entry(m, t, i) == if t in m && i < |m[t]| && Present(m[t][i]) then Some(m[t][i]) else None
  {
    if t in m && i < |m[t]| {
      PresentIsOdd(m[t][i]);
    }
  }

  // ----- the kernel's operations -----

  class AddressSpace {
    const root: nat
    var tables: Tables
    /** Frames that `pmm_alloc` will hand out; they are zeroed and not in use. */
    var pool: seq<nat>
    ghost var owner: map<nat, seq<Index>>

    ghost predicate Valid()
      reads this
    {
      && Tree(tables, owner, root) && Clean(tables)
      && (forall k :: 0 <= k < |pool| ==> pool[k] % PAGE_SIZE == 0 && pool[k] !in tables)
      && (forall j, k :: 0 <= j < k < |pool| ==> pool[j] != pool[k])
    }

    /** `vmm_new_page_dir`: one zeroed frame maps nothing. */
    constructor (root: nat, pool: seq<nat>)
      requires forall k :: 0 <= k < |pool| ==> pool[k] % PAGE_SIZE == 0 && pool[k] != root
      requires forall j, k :: 0 <= j < k < |pool| ==> pool[j] != pool[k]
      ensures Valid() && this.root == root && this.pool == pool
      ensures forall q: seq<Index> :: |q| == 4 ==> Lookup(tables, root, q) == None
      ensures Represents(tables, root, map[])
    {
      this.root, this.pool := root, pool;
      tables := map[root := Zeroed()];
      owner := map[root := []];
      ZeroNotPresent();
      forall q: seq<Index> | |q| == 4
        ensures Lookup(map[root := Zeroed()], root, q) == None
      {
        FreshWalk(map[root := Zeroed()], root, q[..3]);
      }
      NothingRepresents(map[root := Zeroed()], root);
    }

    /** Table `t` is either in the tree at its path, or nothing is. */
    ghost predicate Settled(t: nat)
      requires Valid()
      reads this
    {
      t in tables && (TableAt(tables, root, owner[t]) == Some(t) || TableAt(tables, root, owner[t]) == None)
    }

    /** `vmm_get_next_map_level`: follows a present entry or hangs in a new table. */
    method NextMapLevel(t: nat, i: Index, flags: nat) returns (next: nat)
      requires Valid() && Settled(t) && |owner[t]| < 3 && |pool| > 0 && flags < 512
      modifies this
      ensures Valid() && Settled(next) && owner[next] == old(owner[t]) + [i]
      ensures flags % 2 == 1 && old(TableAt(tables, root, owner[t])).Some? ==>
        TableAt(tables, root, owner[next]) == Some(next)
      ensures |pool| >= |old(pool)| - 1
      ensures forall q: seq<Index> :: |q| == 4 ==> Lookup(tables, root, q) == old(Lookup(tables, root, q))
    {
      hide Present, Target, Lookup, TableAt;
      TableAtExtend(tables, root, owner[t], i);
      if Present(tables[t][i]) {
        next := Target(tables[t][i]);
        assert EdgeOk(tables, owner, t, i);
      } else {
        var frame := pool[0];
        PageEntry(frame, flags);
        EntryClean(frame, flags);
        var e := Or(frame, flags);
        HangIn(t, i, e, frame);
        next := Target(e);
      }
    }

    method HangIn(t: nat, i: Index, e: nat, frame: nat)
      requires Valid() && Settled(t) && |owner[t]| < 3 && |pool| > 0 && frame == pool[0]
      requires !Present(tables[t][i]) && Target(e) == frame && e % 4096 < 512
      modifies this
      ensures Valid() && Settled(frame) && owner[frame] == old(owner[t]) + [i] && pool == old(pool)[1..]
      ensures Present(e) && old(TableAt(tables, root, owner[t])).Some? ==>
        TableAt(tables, root, owner[frame]) == Some(frame)
      ensures forall q: seq<Index> :: |q| == 4 ==> Lookup(tables, root, q) == old(Lookup(tables, root, q))
    {
      hide Present, Target, Lookup, TableAt, Next;
      ghost var path := owner[t] + [i];
      assert path[..|path| - 1] == owner[t];
      TableAtExtend(tables, root, owner[t], i);
      NotPresentNext(tables, t, i);
      GrownTree(tables, owner, root, t, i, e, frame);
      GrownWalk(tables, owner, root, t, i, e, frame, root, path);
      forall q: seq<Index> | |q| == 4
        ensures Lookup(Grown(tables, t, i, e, frame), root, q) == Lookup(tables, root, q)
      {
        GrownLookup(tables, owner, root, t, i, e, frame, q);
      }
      tables := Grown(tables, t, i, e, frame);
      owner := owner[frame := path];
      pool := pool[1..];
    }

    /** The three upper levels of a walk, creating what is missing. */
    method WalkToLeaf(idx4: Index, idx3: Index, idx2: Index, flags: nat) returns (level1: nat)
      requires Valid() && |pool| >= 3 && flags < 512
      modifies this
      ensures Valid() && Settled(level1) && owner[level1] == [idx4] + [idx3] + [idx2]
      ensures flags % 2 == 1 ==> TableAt(tables, root, [idx4] + [idx3] + [idx2]) == Some(level1)
      ensures |pool| >= |old(pool)| - 3
      ensures forall q: seq<Index> :: |q| == 4 ==> Lookup(tables, root, q) == old(Lookup(tables, root, q))
    {
      hide Present, Target, Lookup, Next, Tree, Clean;
      RootSettled();
      var level3 := NextMapLevel(root, idx4, flags);
      var level2 := NextMapLevel(level3, idx3, flags);
      level1 := NextMapLevel(level2, idx2, flags);
      assert [] + [idx4] + [idx3] + [idx2] == [idx4] + [idx3] + [idx2];
    }

    lemma RootSettled()
      requires Valid()
      ensures Settled(root) && owner[root] == [] && TableAt(tables, root, []) == Some(root)
    {
    }

    method WriteLeaf(t: nat, i: Index, e: nat)
      requires Valid() && Settled(t) && |owner[t]| == 3
      requires (Present(e) ==> TableAt(tables, root, owner[t]) == Some(t)) && e % 4096 < 512
      modifies this`tables
      ensures Valid()
      ensures forall q: seq<Index> :: |q| == 4 ==>
        Lookup(tables, root, q) ==
        if q == old(owner)[t] + [i] then (if Present(e) then Some(e) else None) else old(Lookup(tables, root, q))
    {
      hide Present, Target, Lookup, Next;
      LeafTree(tables, owner, root, t, i, e);
      forall q: seq<Index> | |q| == 4
        ensures Lookup(LeafWritten(tables, t, i, e), root, q) ==
                if q == owner[t] + [i] then (if Present(e) then Some(e) else None) else Lookup(tables, root, q)
      {
        LeafLookup(tables, owner, root, t, i, e, q);
        LeafCases(tables, owner, root, t, i, q);
      }
      tables := LeafWritten(tables, t, i, e);
    }

    /** `vmm_map_page`: the old translation updated at one page. */
    method MapPage(phys: nat, virt: nat, flags: nat)
      requires Valid() && |pool| >= 3 && phys % PAGE_SIZE == 0 && flags < 512
      modifies this
      ensures Valid() && |pool| >= |old(pool)| - 3
      ensures forall q: seq<Index> :: |q| == 4 ==>
        Lookup(tables, root, q) ==
        if q == PathOf(virt) then (if flags % 2 == 1 then Some(phys + flags) else None)
        else old(Lookup(tables, root, q))
      ensures forall a: nat ::
        Translate(tables, root, a) ==
        if PageNumber(a) == PageNumber(virt) then (if flags % 2 == 1 then Some(phys + a % 4096) else None)
        else old(Translate(tables, root, a))
    {
      hide Present, Target, Lookup, TableAt, Tree, PathOf, Or, IndexAt, Translate, PageNumber, Clean;
      ghost var m0 := tables;
      var idx4, idx3, idx2, idx1 := Indices(virt);
      PageEntry(phys, flags);
      EntryClean(phys, flags);
      var level1 := WalkToLeaf(idx4, idx3, idx2, flags);
      WriteLeaf(level1, idx1, Or(phys, flags));
      assert [idx4] + [idx3] + [idx2] + [idx1] == PathOf(virt);
      forall a: nat
        ensures Translate(tables, root, a) ==
                if PageNumber(a) == PageNumber(virt) then (if flags % 2 == 1 then Some(phys + a % 4096) else None)
                else Translate(m0, root, a)
      {
        TranslateIsLookup(m0, root, a);
        TranslateIsLookup(tables, root, a);
        SamePage(a, virt);
      }
    }

    /** The four index computations. */
    method Indices(virt: nat) returns (idx4: Index, idx3: Index, idx2: Index, idx1: Index)
      ensures [idx4] + [idx3] + [idx2] + [idx1] == PathOf(virt)
    {
      hide Shr, And, Shl;
      IndexIsField(virt, 39);
      IndexIsField(virt, 30);
      IndexIsField(virt, 21);
      IndexIsField(virt, 12);
      idx4 := Shr(And(virt, Shl(511, 39)), 39);
      idx3 := Shr(And(virt, Shl(511, 30)), 30);
      idx2 := Shr(And(virt, Shl(511, 21)), 21);
      idx1 := Shr(And(virt, Shl(511, 12)), 12);
    }

    /** `vmm_unmap_page`: removes one page and nothing else, also when its tables do not exist. */
    method UnmapPage(virt: nat)
      requires Valid() && |pool| >= 3
      modifies this
      ensures Valid() && |pool| >= |old(pool)| - 3
      ensures forall q: seq<Index> :: |q| == 4 ==>
        Lookup(tables, root, q) == if q == PathOf(virt) then None else old(Lookup(tables, root, q))
      ensures forall a: nat ::
        Translate(tables, root, a) ==
        if PageNumber(a) == PageNumber(virt) then None else old(Translate(tables, root, a))
    {
      hide Present, Target, Lookup, TableAt, Tree, PathOf, Translate, PageNumber, Clean;
      ghost var m0 := tables;
      var idx4, idx3, idx2, idx1 := Indices(virt);
      var level1 := WalkToLeaf(idx4, idx3, idx2, 0);
      ZeroNotPresent();
      WriteLeaf(level1, idx1, 0);
      assert [idx4] + [idx3] + [idx2] + [idx1] == PathOf(virt);
      forall a: nat
        ensures Translate(tables, root, a) ==
                if PageNumber(a) == PageNumber(virt) then None else Translate(m0, root, a)
      {
        TranslateIsLookup(m0, root, a);
        TranslateIsLookup(tables, root, a);
        SamePage(a, virt);
      }
    }
  }

  /** The two operations on the plain finite map from pages to physical pages. */
  datatype VmOp = Map(phys: nat, virt: nat, flags: nat) | Unmap(virt: nat)

  function Applied(op: VmOp, f: map<nat, nat>): map<nat, nat> {
    match op
    case Map(phys, virt, flags) => if flags % 2 == 1 then f[PageNumber(virt) := phys] else f - {PageNumber(virt)}
    case Unmap(virt) => f - {PageNumber(virt)}
  }

  function AppliedAll(ops: seq<VmOp>, f: map<nat, nat>): map<nat, nat> {
    if ops == [] then f else Applied(ops[|ops| - 1], AppliedAll(ops[..|ops| - 1], f))
  }

  /** The processor translates every address as the finite map `f` says. */
  ghost predicate Represents(m: Tables, root: nat, f: map<nat, nat>) {
    forall a: nat ::
      Translate(m, root, a) == if PageNumber(a) in f then Some(f[PageNumber(a)] + a % 4096) else None
  }

  ghost predicate Sound(op: VmOp) {
    op.Map? ==> op.phys % PAGE_SIZE == 0 && op.flags < 512
  }

  /** A new directory translates no address. */
  lemma NothingRepresents(m: Tables, root: nat)
    requires Clean(m) && forall q: seq<Index> :: |q| == 4 ==> Lookup(m, root, q) == None
    ensures Represents(m, root, map[])
  {
    hide Lookup, PathOf, Translate, Clean;
    forall a: nat
      ensures Translate(m, root, a) == None
    {
      TranslateIsLookup(m, root, a);
    }
  }

  /** Any run of map and unmap operations refines the same run on a finite map. */
  method RunOps(a: AddressSpace, ops: seq<VmOp>, ghost f: map<nat, nat>)
    requires a.Valid() && |a.pool| >= 3 * |ops| && Represents(a.tables, a.root, f)
    requires forall i :: 0 <= i < |ops| ==> Sound(ops[i])
    modifies a
    ensures a.Valid() && Represents(a.tables, a.root, AppliedAll(ops, f))
  {
    hide Lookup, PathOf, Tree, Translate, PageNumber, Clean;
    for i := 0 to |ops|
      invariant a.Valid() && |a.pool| >= 3 * (|ops| - i)
      invariant Represents(a.tables, a.root, AppliedAll(ops[..i], f))
    {
      assert ops[..i + 1][..i] == ops[..i];
      assert Sound(ops[i]);
      match ops[i]
      case Map(phys, virt, flags) => a.MapPage(phys, virt, flags);
      case Unmap(virt) => a.UnmapPage(virt);
    }
    assert ops[..|ops|] == ops;
  }

  lemma NotPresentNext(m: Tables, t: nat, i: Index)
    requires t in m && |m[t]| == 512 && !Present(m[t][i])
    ensures Next(m, t, i) == None
  {
  }

  /** A leaf table that is not in the tree maps nothing, so its path is unmapped. */
  lemma LeafCases(m: Tables, owner: map<nat, seq<Index>>, root: nat, t: nat, i: Index, q: seq<Index>)
    requires Tree(m, owner, root) && t in m && |owner[t]| == 3 && |q| == 4
    ensures q[3] == i && TableAt(m, root, q[..3]) == Some(t) ==> q == owner[t] + [i]
    ensures q == owner[t] + [i] ==> q[3] == i && q[..3] == owner[t]
    ensures TableAt(m, root, q[..3]) == None ==> Lookup(m, root, q) == None
  {
    WalkOwner(m, owner, root, root, q[..3]);
    assert q == q[..3] + [q[3]];
    assert [] + q[..3] == q[..3];
  }
}
