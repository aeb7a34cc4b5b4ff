/** The skip-encoded character table of an SSFN font and the walk that looks a code point up in it. */
module GlyphTable {

  import opened BitStream

  const LIMIT: nat := 0x110000

  /** A glyph: the low six bits of its first byte, the other four bytes of its header, and the references to its
      fragments, which have five bytes each, or six in the long form. */
  datatype Record = Record(low: nat, long: bool, metrics: seq<Byte>, fragments: seq<seq<Byte>>)
  {
    ghost predicate Valid() {
      && low < 0x40 && |metrics| == 4 && |fragments| < 256
      && forall k :: 0 <= k < |fragments| ==> |fragments[k]| == if long then 6 else 5
    }

    /** A header of six bytes, then the fragments. */
    function Bytes(): (b: seq<Byte>)
      requires Valid()
      ensures |b| >= 6
    {
      [low + (if long then 0x40 else 0), |fragments|] + metrics + Joined(fragments)
    }

    /** The first two bytes tell where a record ends. */
    lemma Size()
      requires Valid()
      ensures var b := Bytes();
              b[0] < 0x80 && |b| == 6 + b[1] as nat * (if b[0] / 0x40 % 2 == 1 then 6 else 5)
    {
      JoinedSize(fragments, if long then 6 else 5);
    }
  }

  function Joined(fs: seq<seq<Byte>>): seq<Byte> {
    if fs == [] then [] else fs[0] + Joined(fs[1..])
  }

  lemma {:induction false} JoinedSize(fs: seq<seq<Byte>>, n: nat)
    requires forall k :: 0 <= k < |fs| ==> |fs[k]| == n
    ensures |Joined(fs)| == |fs| * n
    decreases |fs|
  {
    if fs != [] {
      JoinedSize(fs[1..], n);
      assert |fs| * n == n + (|fs| - 1) * n;
    }
  }

  /** One token of the table. A glyph record starts with a byte below 0x80. */
  datatype Item =
    | SkipWide              // 0xFF: 65536 code points
    | SkipLong(j: nat)      // two bytes: j + 1 code points
    | SkipShort(j: nat)     // one byte: j + 1 code points
    | Glyph(record: Record)

  ghost predicate ValidItem(i: Item) {
    match i
    case SkipWide => true
    case SkipLong(j) => j < 0x3F00
    case SkipShort(j) => j < 0x40
    case Glyph(r) => r.Valid()
  }

  function ItemBytes(i: Item): (b: seq<Byte>)
    requires ValidItem(i)
    ensures |b| >= 1
  {
    match i
    case SkipWide => [0xFF]
    case SkipLong(j) => [0xC0 + j / 256, j % 256]
    case SkipShort(j) => [0x80 + j]
    case Glyph(r) => r.Bytes()
  }

  /** How many code points an item stands for. */
  function Width(i: Item): (w: nat)
    ensures w >= 1
  {
    match i
    case SkipWide => 65536
    case SkipLong(j) => j + 1
    case SkipShort(j) => j + 1
    case Glyph(_) => 1
  }

  ghost predicate ValidItems(items: seq<Item>) {
    forall k :: 0 <= k < |items| ==> ValidItem(items[k])
  }

  function Bytes(items: seq<Item>): seq<Byte>
    requires ValidItems(items)
  {
    if items == [] then [] else ItemBytes(items[0]) + Bytes(items[1..])
  }

  function Total(items: seq<Item>): nat {
    if items == [] then 0 else Width(items[0]) + Total(items[1..])
  }

  /** The record of the code point `u`, if the items starting at code point `at` hold one. */
  function Find(items: seq<Item>, at: nat, u: nat): seq<Byte>
    requires ValidItems(items)
  {
    if items == [] then []
    else if items[0].Glyph? && at == u then items[0].record.Bytes()
    else Find(items[1..], at + Width(items[0]), u)
  }

  // ----- the walk -----

  datatype Result = Missing | Found(ptr: nat)

  /** The loop of `ssfn_putc` and of `_ssfn_c`: it stops at the record of `unicode`, or after the last code point. */
  method Walk(table: seq<Byte>, unicode: nat, ghost items: seq<Item>) returns (r: Result)
    requires ValidItems(items) && Bytes(items) <= table && Total(items) >= LIMIT && unicode < LIMIT
    ensures r.Missing? <==> Find(items, 0, unicode) == []
    ensures r.Found? ==> r.ptr <= |table| && Find(items, 0, unicode) <= table[r.ptr..]
  {
    hide ItemBytes, Bytes, Find, Total, Record.Bytes;
    var ptr: nat, i: nat := 0, 0;
    ghost var rest := items;
    while i < LIMIT
      invariant ptr <= |table| && ValidItems(rest) && Bytes(rest) <= table[ptr..]
      invariant Total(rest) + i >= LIMIT
      invariant Find(rest, i, unicode) == Find(items, 0, unicode)
      decreases |rest|
    {
      NextItem(rest, i, unicode);
      ghost var item := rest[0];
      Token(item, table, ptr, Bytes(rest[1..]));
      rest := rest[1..];
      if table[ptr] == 0xFF {
        i := i + 65535;
        ptr := ptr + 1;
      } else if table[ptr] / 0x40 == 3 {
        i := i + (table[ptr] as int) % 0x40 * 256 + table[ptr + 1];
        ptr := ptr + 2;
      } else if table[ptr] / 0x40 == 2 {
        i := i + table[ptr] % 0x40;
        ptr := ptr + 1;
      } else {
        if i == unicode {
          return Found(ptr);
        }
        ptr := ptr + 6 + table[ptr + 1] as nat * (if table[ptr] / 0x40 % 2 == 1 then 6 else 5);
      }
      i := i + 1;
    }
    PastEnd(rest, i, unicode);
    r := Missing;
  }

  /** Before the last code point there is always a next item, and only a record at `u` is the one looked for. */
  lemma NextItem(items: seq<Item>, at: nat, u: nat)
    requires ValidItems(items) && Total(items) + at >= LIMIT && at < LIMIT
    ensures |items| > 0 && ValidItem(items[0]) && ValidItems(items[1..])
    ensures Bytes(items) == ItemBytes(items[0]) + Bytes(items[1..])
    ensures Total(items) == Width(items[0]) + Total(items[1..])
    ensures items[0].Glyph? && at == u ==> Find(items, at, u) == items[0].record.Bytes() != []
    ensures !(items[0].Glyph? && at == u) ==> Find(items, at, u) == Find(items[1..], at + Width(items[0]), u)
  {
  }

  lemma {:induction false} PastEnd(items: seq<Item>, at: nat, u: nat)
    requires ValidItems(items) && u < at
    ensures Find(items, at, u) == []
    decreases |items|
  {
    if items != [] {
      PastEnd(items[1..], at + Width(items[0]), u);
    }
  }

  /** The leading byte tells the four kinds of token apart, and the walk moves to the byte after the token. */
  lemma Token(item: Item, table: seq<Byte>, ptr: nat, tail: seq<Byte>)
    requires ValidItem(item) && ptr <= |table| && ItemBytes(item) + tail <= table[ptr..]
    ensures ptr + |ItemBytes(item)| <= |table| && tail <= table[ptr + |ItemBytes(item)|..]
    ensures ptr < |table|
    ensures item.SkipWide? <==> table[ptr] == 0xFF
    ensures item.SkipLong? <==> table[ptr] != 0xFF && table[ptr] / 0x40 == 3
    ensures item.SkipShort? <==> table[ptr] / 0x40 == 2
    ensures item.SkipWide? || item.SkipShort? ==> |ItemBytes(item)| == 1
    ensures item.SkipLong? ==> ptr + 1 < |table| && |ItemBytes(item)| == 2 &&
                               (table[ptr] as int) % 0x40 * 256 + table[ptr + 1] == item.j
    ensures item.SkipShort? ==> table[ptr] % 0x40 == item.j
    ensures item.Glyph? ==>
              && ptr + 1 < |table| && item.record.Bytes() <= table[ptr..]
              && |ItemBytes(item)| == 6 + table[ptr + 1] as nat * (if table[ptr] / 0x40 % 2 == 1 then 6 else 5)
  {
    hide Joined;
    if item.Glyph? {
      item.record.Size();
    }
    var b, t := ItemBytes(item), table[ptr..];
    assert forall k :: 0 <= k < |b| ==> t[k] == (b + tail)[k] == b[k];
    assert table[ptr] == t[0];
    if |b| > 1 {
      assert table[ptr + 1] == t[1];
    }
    assert table[ptr + |b|..] == t[|b|..];
    assert tail == (b + tail)[|b|..];
  }

  // ----- serialising a sparse set of glyphs -----

  /** Tokens for a gap of `g` code points. */
  function GapItems(g: nat): (r: seq<Item>)
    ensures ValidItems(r) && Total(r) == g
    ensures forall k :: 0 <= k < |r| ==> !r[k].Glyph?
  {
    if g == 0 then []
    else if g >= 65536 then [SkipWide] + GapItems(g - 65536)
    else if g > 0x3F00 then [SkipLong(0x3EFF)] + GapItems(g - 0x3F00)
    else if g > 0x40 then [SkipLong(g - 1)]
    else [SkipShort(g - 1)]
  }

  ghost predicate ValidGlyphs(m: map<nat, Record>) {
    forall u :: u in m ==> u < LIMIT && m[u].Valid()
  }

  /** The table of the glyphs `m` from code point `c` on, after `gap` code points without a glyph. */
  function Items(m: map<nat, Record>, c: nat, gap: nat): (r: seq<Item>)
    requires ValidGlyphs(m) && c <= LIMIT
    ensures ValidItems(r)
    decreases LIMIT - c
  {
    if c == LIMIT then GapItems(gap)
    else if c in m then GapItems(gap) + [Glyph(m[c])] + Items(m, c + 1, 0)
    else Items(m, c + 1, gap + 1)
  }

  lemma {:induction false} TotalAdd(a: seq<Item>, b: seq<Item>)
    ensures Total(a + b) == Total(a) + Total(b)
    decreases |a|
  {
    if a == [] {
      assert a + b == b;
    } else {
      assert (a + b)[1..] == a[1..] + b;
      TotalAdd(a[1..], b);
    }
  }

  lemma {:induction false} FindSkips(a: seq<Item>, b: seq<Item>, at: nat, u: nat)
    requires ValidItems(a) && ValidItems(b) && forall k :: 0 <= k < |a| ==> !a[k].Glyph?
    ensures Find(a + b, at, u) == Find(b, at + Total(a), u)
    decreases |a|
  {
    if a == [] {
      assert a + b == b;
    } else {
      assert (a + b)[1..] == a[1..] + b;
      FindSkips(a[1..], b, at + Width(a[0]), u);
    }
  }

  /** The serialised table covers the code points up to the limit and finds exactly the glyphs of the set. */
  lemma {:induction false} ItemsFind(m: map<nat, Record>, c: nat, gap: nat, u: nat)
    requires ValidGlyphs(m) && gap <= c <= LIMIT
    ensures Total(Items(m, c, gap)) == gap + (LIMIT - c)
    ensures Find(Items(m, c, gap), c - gap, u) == if c <= u && u in m then m[u].Bytes() else []
    decreases LIMIT - c
  {
    hide GapItems, Record.Bytes, Record.Valid, Items, Find, Total;
    ItemsUnfold(m, c, gap);
    var g := GapItems(gap);
    if c == LIMIT {
      FindSkips(g, [], c - gap, u);
      assert g + [] == g;
      NoItems(c, u);
    } else if c in m {
      var t := [Glyph(m[c])] + Items(m, c + 1, 0);
      ItemsFind(m, c + 1, 0, u);
      FirstItem(t, c, u);
      TotalAdd(g, t);
      FindSkips(g, t, c - gap, u);
      if u <= c {
        PastEnd(Items(m, c + 1, 0), c + 1, u);
      }
    } else {
      ItemsFind(m, c + 1, gap + 1, u);
    }
  }

  lemma ItemsUnfold(m: map<nat, Record>, c: nat, gap: nat)
    requires ValidGlyphs(m) && c <= LIMIT
    ensures c == LIMIT ==> Items(m, c, gap) == GapItems(gap)
    ensures c < LIMIT && c in m ==> Items(m, c, gap) == GapItems(gap) + ([Glyph(m[c])] + Items(m, c + 1, 0))
    ensures c < LIMIT && c !in m ==> Items(m, c, gap) == Items(m, c + 1, gap + 1)
  {
    hide GapItems;
  }

  lemma NoItems(at: nat, u: nat)
    ensures Find([], at, u) == []
  {
  }

  lemma FirstItem(t: seq<Item>, at: nat, u: nat)
    requires |t| > 0 && t[0].Glyph? && ValidItems(t)
    ensures ValidItem(t[0]) && ValidItems(t[1..]) && Total(t) == 1 + Total(t[1..])
    ensures Find(t, at, u) == if at == u then t[0].record.Bytes() else Find(t[1..], at + 1, u)
  {
  }

  /** For every sparse set of glyphs, the walk over its serialised table finds the record of a code point that has
      one and nothing for any other. */
  method WalkSerialised(m: map<nat, Record>, unicode: nat) returns (r: Result)
    requires ValidGlyphs(m) && unicode < LIMIT
    ensures r.Found? <==> unicode in m
    ensures r.Found? ==> r.ptr <= |Bytes(Items(m, 0, 0))| && m[unicode].Bytes() <= Bytes(Items(m, 0, 0))[r.ptr..]
  {
    hide Items, Find, Bytes;
    ItemsFind(m, 0, 0, unicode);
    var table := Bytes(Items(m, 0, 0));
    r := Walk(table, unicode, Items(m, 0, 0));
  }
}
