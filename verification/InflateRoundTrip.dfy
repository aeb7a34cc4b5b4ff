/** An encoder for DEFLATE streams and the proof that the inflater undoes it. The encoder may choose any
    block kinds, any codes, any tokens and any run-length coding of the code lengths. */
module InflateRoundTrip {
  import opened Bits
  import opened BitStream
  import opened Huffman
  import opened InflateSpec
  import opened Inflater

  // ----- bit sequences -----

  type OneBit = b: nat | b < 2
  type BitSeq = seq<OneBit>

  function LsbBits(v: nat, n: nat): (b: BitSeq)
    ensures |b| == n
    decreases n, v
  {
    if n == 0 then [] else [v % 2] + LsbBits(v / 2, n - 1)
  }

  function MsbBits(v: nat, n: nat): (b: BitSeq)
    ensures |b| == n
    decreases n, v
  {
    if n == 0 then [] else [Shr(v, n - 1) % 2] + MsbBits(Low(v, n - 1), n - 1)
  }

  ghost predicate Holds(s: Stream, p: nat, b: BitSeq) {
    forall i :: 0 <= i < |b| ==> BitAt(s, p + i) == b[i]
  }

  lemma HoldsSplit(s: Stream, p: nat, a: BitSeq, b: BitSeq)
    requires Holds(s, p, a + b)
    ensures Holds(s, p, a) && Holds(s, p + |a|, b)
  {
    forall i | 0 <= i < |a|
      ensures BitAt(s, p + i) == a[i]
    {
      assert (a + b)[i] == a[i];
    }
    forall i | 0 <= i < |b|
      ensures BitAt(s, p + |a| + i) == b[i]
    {
      assert (a + b)[|a| + i] == b[i];
      assert BitAt(s, p + (|a| + i)) == (a + b)[|a| + i];
    }
  }

  lemma {:induction false} LsbBitsRead(s: Stream, p: nat, v: nat, n: nat)
    requires v < Pow2(n) && Holds(s, p, LsbBits(v, n))
    ensures Lsb(s, p, n) == v
    decreases n
  {
    if n > 0 {
      var low: OneBit := v % 2;
      HoldsSplit(s, p, [low], LsbBits(v / 2, n - 1));
      LsbBitsRead(s, p + 1, v / 2, n - 1);
      assert BitAt(s, p + 0) == [low][0];
    }
  }

  lemma {:induction false} MsbBitsRead(s: Stream, p: nat, v: nat, n: nat)
    requires v < Pow2(n) && Holds(s, p, MsbBits(v, n))
    ensures Msb(s, p, n) == v
    decreases n
  {
    if n > 0 {
      var top: OneBit := Shr(v, n - 1) % 2;
      HoldsSplit(s, p, [top], MsbBits(Low(v, n - 1), n - 1));
      ShrBound(v, 1, n - 1);
      LowBound(v, n - 1);
      MsbBitsRead(s, p + 1, Low(v, n - 1), n - 1);
      assert BitAt(s, p + 0) == [top][0];
      SplitAt(v, n - 1);
    }
  }

  // ----- tokens -----

  datatype Token =
    | Literal(b: Byte)
    | Match(lsym: nat, lextra: nat, dsym: nat, dextra: nat)

  ghost predicate HasCode(lens: seq<nat>, n: nat) {
    n < |lens| && lens[n] > 0
  }

  function CodeBits(lens: seq<nat>, n: nat): BitSeq
    requires n < |lens|
  {
    MsbBits(Code(lens, n), lens[n])
  }

  lemma CodeBitsRead(s: Stream, p: nat, lens: seq<nat>, n: nat)
    requires ValidLengths(lens) && KraftAtMostOne(lens) && HasCode(lens, n)
    requires Holds(s, p, CodeBits(lens, n))
    ensures Decode(lens, s, p) == n
  {
    CodeFits(lens, n);
    MsbBitsRead(s, p, Code(lens, n), lens[n]);
    DecodeUnique(lens, s, p, n);
  }

  ghost predicate ValidToken(t: Token, c: Codes) {
    match t
    case Literal(b) => HasCode(c.ll, b)
    case Match(lsym, lextra, dsym, dextra) =>
      && 257 <= lsym <= 285 && HasCode(c.ll, lsym) && lextra < Pow2(LengthExtra(lsym))
      && dsym <= 29 && HasCode(c.dl, dsym) && dextra < Pow2(DistExtra(dsym))
  }

  function MatchBits(t: Token, c: Codes): BitSeq
    requires t.Match? && 257 <= t.lsym <= 285 && t.lsym < |c.ll| && t.dsym <= 29 && t.dsym < |c.dl|
  {
    LsbBits(t.lextra, LengthExtra(t.lsym)) + (CodeBits(c.dl, t.dsym) + LsbBits(t.dextra, DistExtra(t.dsym)))
  }

  ghost function TokenBits(t: Token, c: Codes): BitSeq
    requires ValidToken(t, c)
  {
    match t
    case Literal(b) => CodeBits(c.ll, b)
    case Match(lsym, _, _, _) => CodeBits(c.ll, lsym) + MatchBits(t, c)
  }

  /** What one token appends (section 3.2.3). */
  function Meaning(t: Token, out: seq<Byte>): seq<Byte>
    requires t.Match? ==> 257 <= t.lsym <= 285 && t.dsym <= 29
  {
    match t
    case Literal(b) => out + [b]
    case Match(lsym, lextra, dsym, dextra) =>
      if DistBase(dsym) + dextra <= |out|
      then CopyBack(out, LengthBase(lsym) + lextra, DistBase(dsym) + dextra) else out
  }

  /** Every token is valid and no distance reaches before the start of the output. */
  ghost predicate ValidTokens(ts: seq<Token>, c: Codes, out: seq<Byte>) {
    if ts == [] then HasCode(c.ll, 256)
    else
      && ValidToken(ts[0], c)
      && (ts[0].Match? ==> DistBase(ts[0].dsym) + ts[0].dextra <= |out|)
      && ValidTokens(ts[1..], c, Meaning(ts[0], out))
  }

  ghost function TokensBits(ts: seq<Token>, c: Codes, out: seq<Byte>): BitSeq
    requires ValidTokens(ts, c, out)
  {
    if ts == [] then CodeBits(c.ll, 256)
    else TokenBits(ts[0], c) + TokensBits(ts[1..], c, Meaning(ts[0], out))
  }

  ghost function Expand(ts: seq<Token>, c: Codes, out: seq<Byte>): seq<Byte>
    requires ValidTokens(ts, c, out)
  {
    if ts == [] then out else Expand(ts[1..], c, Meaning(ts[0], out))
  }

  lemma MatchRead(s: Stream, p: nat, t: Token, c: Codes)
    requires UsableCodes(c) && t.Match? && ValidToken(t, c) && Holds(s, p, MatchBits(t, c))
    ensures PairAt(s, p, t.lsym, c.dl) ==
            Done(Pair(LengthBase(t.lsym) + t.lextra, DistBase(t.dsym) + t.dextra), p + |MatchBits(t, c)|)
  {
    hide LengthBase, LengthExtra, DistBase, DistExtra, LsbBits, MsbBits, Lsb, Holds, KraftTo, Code, Decode, Pow2;
    var a, b, d := LsbBits(t.lextra, LengthExtra(t.lsym)), CodeBits(c.dl, t.dsym), LsbBits(t.dextra, DistExtra(t.dsym));
    HoldsSplit(s, p, a, b + d);
    HoldsSplit(s, p + |a|, b, d);
    LsbBitsRead(s, p, t.lextra, LengthExtra(t.lsym));
    CodeBitsRead(s, p + |a|, c.dl, t.dsym);
    LsbBitsRead(s, p + |a| + |b|, t.dextra, DistExtra(t.dsym));
  }

  lemma LiteralRead(s: Stream, p: nat, t: Token, c: Codes, out: seq<Byte>, fuel: nat)
    requires UsableCodes(c) && t.Literal? && ValidToken(t, c) && Holds(s, p, TokenBits(t, c)) && fuel > 0
    ensures Tokens(s, p, c.ll, c.dl, out, fuel) ==
            Tokens(s, p + |TokenBits(t, c)|, c.ll, c.dl, Meaning(t, out), fuel - 1)
  {
    hide MsbBits, Lsb, Holds, KraftTo, Code, Tokens;
    CodeBitsRead(s, p, c.ll, t.b);
    TokensLiteral(s, p, c.ll, c.dl, out, fuel, t.b);
  }

  lemma MatchStep(s: Stream, p: nat, t: Token, c: Codes, out: seq<Byte>, fuel: nat)
    requires UsableCodes(c) && t.Match? && ValidToken(t, c) && Holds(s, p, TokenBits(t, c)) && fuel > 0
    requires DistBase(t.dsym) + t.dextra <= |out|
    ensures Tokens(s, p, c.ll, c.dl, out, fuel) ==
            Tokens(s, p + |TokenBits(t, c)|, c.ll, c.dl, Meaning(t, out), fuel - 1)
  {
    hide LengthBase, LengthExtra, DistBase, DistExtra, LsbBits, MsbBits, Lsb, Holds, KraftTo, Code, Tokens, PairAt,
         CopyBack;
    var a := CodeBits(c.ll, t.lsym);
    HoldsSplit(s, p, a, MatchBits(t, c));
    CodeBitsRead(s, p, c.ll, t.lsym);
    MatchRead(s, p + |a|, t, c);
    TokensPair(s, p, c.ll, c.dl, out, fuel, t.lsym);
  }

  /** Decoding the encoded tokens of a block gives what the tokens mean. */
  lemma {:induction false} TokensRead(s: Stream, p: nat, ts: seq<Token>, c: Codes, out: seq<Byte>, fuel: nat)
    requires UsableCodes(c) && ValidTokens(ts, c, out) && fuel > |ts|
    requires Holds(s, p, TokensBits(ts, c, out))
    ensures Tokens(s, p, c.ll, c.dl, out, fuel) == Done(Expand(ts, c, out), p + |TokensBits(ts, c, out)|)
    decreases |ts|
  {
    hide MsbBits, Lsb, Holds, KraftTo, Code, Tokens, TokenBits, Meaning, CodeBits;
    if ts == [] {
      CodeBitsRead(s, p, c.ll, 256);
      TokensEnd(s, p, c.ll, c.dl, out, fuel);
      CodeBitsLength(c.ll, 256);
    } else {
      var t := ts[0];
      var out1 := Meaning(t, out);
      HoldsSplit(s, p, TokenBits(t, c), TokensBits(ts[1..], c, out1));
      if t.Literal? {
        LiteralRead(s, p, t, c, out, fuel);
      } else {
        MatchStep(s, p, t, c, out, fuel);
      }
      TokensRead(s, p + |TokenBits(t, c)|, ts[1..], c, out1, fuel - 1);
    }
  }

  lemma CodeBitsLength(lens: seq<nat>, n: nat)
    requires n < |lens|
    ensures |CodeBits(lens, n)| == lens[n]
  {
  }

  // ----- code lengths -----

  datatype LengthOp =
    | Plain(l: nat)
    | Run(c: nat, extra: nat)

  ghost predicate ValidOp(op: LengthOp, cl: seq<nat>) {
    match op
    case Plain(l) => l < 16 && HasCode(cl, l)
    case Run(c, extra) => 16 <= c <= 18 && HasCode(cl, c) && extra < Pow2(RunBits(c))
  }

  ghost function OpBits(op: LengthOp, cl: seq<nat>): BitSeq
    requires ValidOp(op, cl)
  {
    match op
    case Plain(l) => CodeBits(cl, l)
    case Run(c, extra) => CodeBits(cl, c) + LsbBits(extra, RunBits(c))
  }

  function OpMeaning(op: LengthOp, acc: seq<nat>): seq<nat> {
    match op
    case Plain(l) => acc + [l]
    case Run(c, extra) =>
      acc + Repeat(if c == 16 && |acc| > 0 then acc[|acc| - 1] else 0, (if c == 18 then 11 else 3) + extra)
  }

  /** Every run has an operation: 3 to 6 copies of the last length, 3 to 10 zeros, 11 to 138 zeros. */
  lemma RunLengths(cl: seq<nat>, acc: seq<nat>, n: nat)
    requires HasCode(cl, 16) && HasCode(cl, 17) && HasCode(cl, 18)
    ensures 3 <= n <= 6 && |acc| > 0 ==>
              ValidOp(Run(16, n - 3), cl) && OpMeaning(Run(16, n - 3), acc) == acc + Repeat(acc[|acc| - 1], n)
    ensures 3 <= n <= 10 ==> ValidOp(Run(17, n - 3), cl) && OpMeaning(Run(17, n - 3), acc) == acc + Repeat(0, n)
    ensures 11 <= n <= 138 ==> ValidOp(Run(18, n - 11), cl) && OpMeaning(Run(18, n - 11), acc) == acc + Repeat(0, n)
    ensures forall op: LengthOp :: op.Run? && op.c == 16 && ValidOp(op, cl) ==> op.extra + 3 <= 6
    ensures forall op: LengthOp :: op.Run? && op.c == 17 && ValidOp(op, cl) ==> op.extra + 3 <= 10
    ensures forall op: LengthOp :: op.Run? && op.c == 18 && ValidOp(op, cl) ==> op.extra + 11 <= 138
  {
    Pow2Values();
  }

  /** Applied one after the other, the operations produce exactly `total` lengths. */
  ghost predicate ValidOps(ops: seq<LengthOp>, cl: seq<nat>, total: nat, acc: seq<nat>) {
    if ops == [] then |acc| == total
    else
      && ValidOp(ops[0], cl)
      && (ops[0].Run? && ops[0].c == 16 ==> |acc| > 0)
      && |OpMeaning(ops[0], acc)| <= total
      && ValidOps(ops[1..], cl, total, OpMeaning(ops[0], acc))
  }

  ghost function OpsBits(ops: seq<LengthOp>, cl: seq<nat>, total: nat, acc: seq<nat>): BitSeq
    requires ValidOps(ops, cl, total, acc)
  {
    if ops == [] then [] else OpBits(ops[0], cl) + OpsBits(ops[1..], cl, total, OpMeaning(ops[0], acc))
  }

  function ExpandOps(ops: seq<LengthOp>, acc: seq<nat>): seq<nat> {
    if ops == [] then acc else ExpandOps(ops[1..], OpMeaning(ops[0], acc))
  }

  lemma OpStep(s: Stream, p: nat, op: LengthOp, cl: seq<nat>, total: nat, acc: seq<nat>)
    requires ValidLengths(cl) && KraftAtMostOne(cl) && ValidOp(op, cl) && Holds(s, p, OpBits(op, cl))
    requires op.Run? && op.c == 16 ==> |acc| > 0
    requires |OpMeaning(op, acc)| <= total
    ensures |acc| < total
    ensures Lengths(s, p, cl, total, acc) == Lengths(s, p + |OpBits(op, cl)|, cl, total, OpMeaning(op, acc))
  {
    hide MsbBits, Lsb, Holds, KraftTo, Code, Lengths, LsbBits;
    match op
    case Plain(l) =>
      CodeBitsRead(s, p, cl, l);
      LengthsPlain(s, p, cl, total, acc, l);
    case Run(c, extra) =>
      HoldsSplit(s, p, CodeBits(cl, c), LsbBits(extra, RunBits(c)));
      CodeBitsRead(s, p, cl, c);
      LsbBitsRead(s, p + cl[c], extra, RunBits(c));
      LengthsRun(s, p, cl, total, acc, c);
  }

  lemma {:induction false} OpsRead(s: Stream, p: nat, ops: seq<LengthOp>, cl: seq<nat>, total: nat, acc: seq<nat>)
    requires ValidLengths(cl) && KraftAtMostOne(cl) && ValidOps(ops, cl, total, acc)
    requires Holds(s, p, OpsBits(ops, cl, total, acc))
    ensures Lengths(s, p, cl, total, acc) == Done(ExpandOps(ops, acc), p + |OpsBits(ops, cl, total, acc)|)
    ensures |ExpandOps(ops, acc)| == total
    decreases |ops|
  {
    hide Holds, KraftTo, Lengths, OpMeaning, OpBits, ValidOp;
    if ops == [] {
      LengthsEnds(s, p, cl, total, acc);
    } else {
      var acc1 := OpMeaning(ops[0], acc);
      HoldsSplit(s, p, OpBits(ops[0], cl), OpsBits(ops[1..], cl, total, acc1));
      OpStep(s, p, ops[0], cl, total, acc);
      OpsRead(s, p + |OpBits(ops[0], cl)|, ops[1..], cl, total, acc1);
    }
  }

  /** The lengths of the code length alphabet as sent: `sent[i]` is the length of symbol `Order(i)`. */
  function SymbolOrder(sent: seq<nat>): (r: seq<nat>)
    ensures |r| == 19
  {
    seq(19, c requires 0 <= c < 19 => if Place(c) < |sent| then sent[Place(c)] else 0)
  }

  function SentBits(sent: seq<nat>): (b: BitSeq)
    ensures |b| == 3 * |sent|
  {
    if sent == [] then [] else SentBits(sent[..|sent| - 1]) + LsbBits(sent[|sent| - 1], 3)
  }

  lemma {:induction false} SentRead(s: Stream, p: nat, sent: seq<nat>, i: nat)
    requires Holds(s, p, SentBits(sent)) && i < |sent|
    requires forall k :: 0 <= k < |sent| ==> sent[k] < 8
    ensures Lsb(s, p + 3 * i, 3) == sent[i]
    decreases |sent|
  {
    var m := |sent| - 1;
    HoldsSplit(s, p, SentBits(sent[..m]), LsbBits(sent[m], 3));
    if i == m {
      Pow2Values();
      LsbBitsRead(s, p + 3 * m, sent[m], 3);
    } else {
      SentRead(s, p, sent[..m], i);
    }
  }

  lemma SymbolOrderRead(s: Stream, p: nat, sent: seq<nat>)
    requires Holds(s, p, SentBits(sent)) && |sent| <= 19
    requires forall k :: 0 <= k < |sent| ==> sent[k] < 8
    ensures CodeLengthSizes(s, p, |sent|) == SymbolOrder(sent)
  {
    hide Lsb, Holds, SentBits, Place;
    var r, t := CodeLengthSizes(s, p, |sent|), SymbolOrder(sent);
    forall c | 0 <= c < 19
      ensures r[c] == t[c]
    {
      if Place(c) < |sent| {
        SentRead(s, p, sent, Place(c));
      }
    }
  }

  // ----- blocks -----

  datatype Dynamic = Dynamic(sent: seq<nat>, ops: seq<LengthOp>, hlit: nat, hdist: nat)

  function DynamicCodes(d: Dynamic): Codes
    requires |ExpandOps(d.ops, [])| >= d.hlit
  {
    Codes(ExpandOps(d.ops, [])[..d.hlit], ExpandOps(d.ops, [])[d.hlit..])
  }

  ghost predicate ValidDynamic(d: Dynamic) {
    && 4 <= |d.sent| <= 19 && (forall k :: 0 <= k < |d.sent| ==> d.sent[k] < 8)
    && 257 <= d.hlit <= 288 && 1 <= d.hdist <= 32
    && ValidLengths(SymbolOrder(d.sent)) && KraftAtMostOne(SymbolOrder(d.sent))
    && ValidOps(d.ops, SymbolOrder(d.sent), d.hlit + d.hdist, [])
    && |ExpandOps(d.ops, [])| >= d.hlit && UsableCodes(DynamicCodes(d))
  }

  /** The three counts at the head of a dynamic block. */
  function CountBits(d: Dynamic): (b: BitSeq)
    requires 4 <= |d.sent| && 257 <= d.hlit && 1 <= d.hdist
    ensures |b| == 14
  {
    LsbBits(d.hlit - 257, 5) + (LsbBits(d.hdist - 1, 5) + LsbBits(|d.sent| - 4, 4))
  }

  ghost function DynamicBits(d: Dynamic): BitSeq
    requires ValidDynamic(d)
  {
    CountBits(d) + (SentBits(d.sent) + OpsBits(d.ops, SymbolOrder(d.sent), d.hlit + d.hdist, []))
  }

  lemma CountsRead(s: Stream, p: nat, d: Dynamic)
    requires 4 <= |d.sent| <= 19 && 257 <= d.hlit <= 288 && 1 <= d.hdist <= 32
    requires Holds(s, p, CountBits(d))
    ensures Lsb(s, p, 5) == d.hlit - 257 && Lsb(s, p + 5, 5) == d.hdist - 1 && Lsb(s, p + 10, 4) == |d.sent| - 4
  {
    hide Lsb, Holds, LsbBits;
    Pow2Values();
    var a, b, c := LsbBits(d.hlit - 257, 5), LsbBits(d.hdist - 1, 5), LsbBits(|d.sent| - 4, 4);
    HoldsSplit(s, p, a, b + c);
    HoldsSplit(s, p + 5, b, c);
    LsbBitsRead(s, p, d.hlit - 257, 5);
    LsbBitsRead(s, p + 5, d.hdist - 1, 5);
    LsbBitsRead(s, p + 10, |d.sent| - 4, 4);
  }

  /** The dynamic header gives back both code length lists. */
  lemma DynamicRead(s: Stream, p: nat, d: Dynamic)
    requires ValidDynamic(d) && Holds(s, p, DynamicBits(d))
    ensures Header(s, p) == Done(DynamicCodes(d), p + |DynamicBits(d)|)
  {
    hide Lsb, Holds, SentBits, CountBits, OpsBits, ExpandOps, KraftTo, CodesAt, SymbolOrder, CodeLengthSizes,
         UsableCodes, ValidOps, Lengths, Code;
    var cl, total := SymbolOrder(d.sent), d.hlit + d.hdist;
    var ob := OpsBits(d.ops, cl, total, []);
    HoldsSplit(s, p, CountBits(d), SentBits(d.sent) + ob);
    HoldsSplit(s, p + 14, SentBits(d.sent), ob);
    CountsRead(s, p, d);
    SymbolOrderRead(s, p + 14, d.sent);
    OpsRead(s, p + 14 + 3 * |d.sent|, d.ops, cl, total, []);
    CodesAtCases(s, p + 14 + 3 * |d.sent|, cl, d.hlit, d.hdist);
  }

  datatype Block =
    | StoredBlock(data: seq<Byte>)
    | FixedBlock(tokens: seq<Token>)
    | DynamicBlock(d: Dynamic, tokens: seq<Token>)

  function Fixed(): Codes {
    Codes(FixedLengths(), FixedDistances())
  }

  ghost predicate ValidBlock(b: Block, out: seq<Byte>) {
    match b
    case StoredBlock(data) => |data| < 0x10000
    case FixedBlock(ts) => ValidTokens(ts, Fixed(), out)
    case DynamicBlock(d, ts) => ValidDynamic(d) && ValidTokens(ts, DynamicCodes(d), out)
  }

  function DataBits(data: seq<Byte>): (b: BitSeq)
    ensures |b| == 8 * |data|
  {
    if data == [] then [] else DataBits(data[..|data| - 1]) + LsbBits(data[|data| - 1], 8)
  }

  /** Padding to a byte boundary, length, complemented length and data; `at` is where the bits go. */
  function StoredBits(data: seq<Byte>, at: nat): BitSeq
    requires |data| < 0x10000
  {
    LsbBits(0, Align(at) - at) + ((LsbBits(|data|, 16) + LsbBits(0xffff - |data|, 16)) + DataBits(data))
  }

  ghost function BodyBits(b: Block, at: nat, out: seq<Byte>): BitSeq
    requires ValidBlock(b, out)
  {
    match b
    case StoredBlock(data) => StoredBits(data, at)
    case FixedBlock(ts) => TokensBits(ts, Fixed(), out)
    case DynamicBlock(d, ts) => DynamicBits(d) + TokensBits(ts, DynamicCodes(d), out)
  }

  ghost function BlockMeaning(b: Block, out: seq<Byte>): seq<Byte>
    requires ValidBlock(b, out)
  {
    match b
    case StoredBlock(data) => out + data
    case FixedBlock(ts) => Expand(ts, Fixed(), out)
    case DynamicBlock(d, ts) => Expand(ts, DynamicCodes(d), out)
  }

  function Kind(b: Block): nat {
    match b case StoredBlock(_) => 0 case FixedBlock(_) => 1 case DynamicBlock(_, _) => 2
  }

  function TokenCount(b: Block): nat {
    match b case StoredBlock(_) => 0 case FixedBlock(ts) => |ts| case DynamicBlock(_, ts) => |ts|
  }

  lemma {:induction false} DataRead(s: Stream, k: nat, data: seq<Byte>)
    requires Holds(s, 8 * k, DataBits(data))
    ensures Bytes(s, k, |data|) == data
    decreases |data|
  {
    hide Lsb, Holds, LsbBits, Pow2;
    if data != [] {
      var m := |data| - 1;
      HoldsSplit(s, 8 * k, DataBits(data[..m]), LsbBits(data[m], 8));
      DataRead(s, k, data[..m]);
      Pow2Values();
      LsbBitsRead(s, 8 * (k + m), data[m], 8);
      LsbByte(s, k + m);
    }
  }

  lemma StoredRead(s: Stream, p: nat, data: seq<Byte>, out: seq<Byte>)
    requires |data| < 0x10000 && Holds(s, p, StoredBits(data, p))
    ensures Stored(s, p, out) == Done(out + data, p + |StoredBits(data, p)|)
  {
    hide Lsb, Holds, LsbBits, DataBits, Bytes;
    Pow2Values();
    var q, n := Align(p), |data|;
    var a, b := LsbBits(n, 16), LsbBits(0xffff - n, 16);
    HoldsSplit(s, p, LsbBits(0, q - p), (a + b) + DataBits(data));
    HoldsSplit(s, q, a + b, DataBits(data));
    HoldsSplit(s, q, a, b);
    LsbBitsRead(s, q, n, 16);
    LsbBitsRead(s, q + 16, 0xffff - n, 16);
    DataRead(s, q / 8 + 4, data);
  }

  lemma BodyRead(s: Stream, p: nat, b: Block, out: seq<Byte>, fuel: nat)
    requires ValidBlock(b, out) && Holds(s, p, BodyBits(b, p, out)) && fuel > TokenCount(b)
    ensures BlockBody(s, p, Kind(b), out, fuel) == Done(BlockMeaning(b, out), p + |BodyBits(b, p, out)|)
  {
    hide Holds, Stored, StoredBits, TokensBits, DynamicBits, Expand, ValidTokens, Tokens, Header, ValidDynamic,
         FixedLengths, FixedDistances;
    match b
    case StoredBlock(data) =>
      StoredRead(s, p, data, out);
    case FixedBlock(ts) =>
      FixedBody(s, p, ts, out, fuel);
    case DynamicBlock(d, ts) =>
      DynamicBody(s, p, d, ts, out, fuel);
  }

  lemma FixedBody(s: Stream, p: nat, ts: seq<Token>, out: seq<Byte>, fuel: nat)
    requires ValidBlock(FixedBlock(ts), out) && Holds(s, p, BodyBits(FixedBlock(ts), p, out)) && fuel > |ts|
    ensures BlockBody(s, p, 1, out, fuel) ==
            Done(BlockMeaning(FixedBlock(ts), out), p + |BodyBits(FixedBlock(ts), p, out)|)
  {
    hide Holds, Stored, TokensBits, Expand, ValidTokens, Tokens, Header, FixedLengths, FixedDistances;
    FixedCodesUsable();
    TokensRead(s, p, ts, Fixed(), out, fuel);
  }

  lemma DynamicBody(s: Stream, p: nat, d: Dynamic, ts: seq<Token>, out: seq<Byte>, fuel: nat)
    requires ValidBlock(DynamicBlock(d, ts), out) && Holds(s, p, BodyBits(DynamicBlock(d, ts), p, out)) && fuel > |ts|
    ensures BlockBody(s, p, 2, out, fuel) ==
            Done(BlockMeaning(DynamicBlock(d, ts), out), p + |BodyBits(DynamicBlock(d, ts), p, out)|)
  {
    hide Holds, Stored, TokensBits, DynamicBits, DynamicCodes, UsableCodes, Expand, ExpandOps, ValidTokens, Tokens,
         Header,
         ValidDynamic;
    DynamicUsable(d);
    HoldsSplit(s, p, DynamicBits(d), TokensBits(ts, DynamicCodes(d), out));
    DynamicRead(s, p, d);
    TokensRead(s, p + |DynamicBits(d)|, ts, DynamicCodes(d), out, fuel);
  }

  lemma DynamicUsable(d: Dynamic)
    requires ValidDynamic(d)
    ensures |ExpandOps(d.ops, [])| >= d.hlit && UsableCodes(DynamicCodes(d))
  {
  }

  // ----- whole streams -----

  ghost predicate ValidBlocks(bs: seq<Block>, out: seq<Byte>) {
    |bs| > 0 && ValidBlock(bs[0], out) && (|bs| > 1 ==> ValidBlocks(bs[1..], BlockMeaning(bs[0], out)))
  }

  /** The final bit, the block type and the body. */
  ghost function BlockBits(b: Block, fin: nat, at: nat, out: seq<Byte>): BitSeq
    requires ValidBlock(b, out)
  {
    (LsbBits(fin, 1) + LsbBits(Kind(b), 2)) + BodyBits(b, at + 3, out)
  }

  ghost function Encode(bs: seq<Block>, at: nat, out: seq<Byte>): BitSeq
    requires ValidBlocks(bs, out)
    decreases |bs|
  {
    if |bs| == 1 then BlockBits(bs[0], 1, at, out)
    else
      var b := BlockBits(bs[0], 0, at, out);
      b + Encode(bs[1..], at + |b|, BlockMeaning(bs[0], out))
  }

  ghost function ExpandBlocks(bs: seq<Block>, out: seq<Byte>): seq<Byte>
    requires ValidBlocks(bs, out)
    decreases |bs|
  {
    var o := BlockMeaning(bs[0], out);
    if |bs| == 1 then o else ExpandBlocks(bs[1..], o)
  }

  /** More steps than any block has tokens, and than there are blocks. */
  function Steps(bs: seq<Block>): nat {
    if bs == [] then 1 else 1 + TokenCount(bs[0]) + Steps(bs[1..])
  }

  lemma BlockRead(s: Stream, p: nat, b: Block, fin: nat, out: seq<Byte>, fuel: nat)
    requires fin < 2 && ValidBlock(b, out) && Holds(s, p, BlockBits(b, fin, p, out)) && fuel > TokenCount(b)
    ensures Lsb(s, p, 1) == fin && Lsb(s, p + 1, 2) == Kind(b)
    ensures BlockBody(s, p + 3, Kind(b), out, fuel) == Done(BlockMeaning(b, out), p + |BlockBits(b, fin, p, out)|)
  {
    hide Lsb, Holds, LsbBits, BodyBits, BlockMeaning, BlockBody, ValidBlock;
    Pow2Values();
    var a, k := LsbBits(fin, 1), LsbBits(Kind(b), 2);
    HoldsSplit(s, p, a + k, BodyBits(b, p + 3, out));
    HoldsSplit(s, p, a, k);
    LsbBitsRead(s, p, fin, 1);
    LsbBitsRead(s, p + 1, Kind(b), 2);
    BodyRead(s, p + 3, b, out, fuel);
  }

  /** Inflating an encoded sequence of blocks gives what the blocks mean. */
  lemma {:induction false} InflateRead(s: Stream, p: nat, bs: seq<Block>, out: seq<Byte>, fuel: nat)
    requires ValidBlocks(bs, out) && Holds(s, p, Encode(bs, p, out)) && fuel >= Steps(bs)
    ensures Inflate(s, p, out, fuel) == Done(ExpandBlocks(bs, out), p + |Encode(bs, p, out)|)
    decreases |bs|
  {
    hide Lsb, Holds, BlockBits, BlockMeaning, BlockBody, ValidBlock;
    if |bs| == 1 {
      BlockRead(s, p, bs[0], 1, out, fuel);
    } else {
      var b := BlockBits(bs[0], 0, p, out);
      var o := BlockMeaning(bs[0], out);
      HoldsSplit(s, p, b, Encode(bs[1..], p + |b|, o));
      BlockRead(s, p, bs[0], 0, out, fuel);
      InflateRead(s, p + |b|, bs[1..], o, fuel - 1);
    }
  }

  // ----- a stream that holds given bits -----

  function Value(b: BitSeq, i: nat, n: nat): (v: nat)
    decreases n, i
  {
    if n == 0 then 0 else (if i < |b| then b[i] else 0) + 2 * Value(b, i + 1, n - 1)
  }

  lemma {:induction false} ValueBits(b: BitSeq, i: nat, n: nat, j: nat)
    requires j < n
    ensures Bit(Value(b, i, n), j) == if i + j < |b| then b[i + j] else 0
    decreases n
  {
    if j > 0 {
      ValueBits(b, i + 1, n - 1, j - 1);
    }
  }

  lemma {:induction false} ValueBound(b: BitSeq, i: nat, n: nat)
    ensures Value(b, i, n) < Pow2(n)
    decreases n
  {
    if n > 0 {
      ValueBound(b, i + 1, n - 1);
    }
  }

  function ByteOf(b: BitSeq, k: nat): Byte {
    ValueBound(b, 8 * k, 8);
    Pow2Values();
    Value(b, 8 * k, 8)
  }

  /** Bits packed into bytes, least significant bit first, followed by zero bytes. */
  function StreamOf(b: BitSeq): Stream {
    k => ByteOf(b, k)
  }

  /** Every bit sequence is held by some stream, so the encoder always has an output. */
  lemma StreamOfHolds(b: BitSeq)
    ensures Holds(StreamOf(b), 0, b)
  {
    hide Value;
    forall i | 0 <= i < |b|
      ensures BitAt(StreamOf(b), 0 + i) == b[i]
    {
      ValueBits(b, 8 * (i / 8), 8, i % 8);
    }
  }

  /** The inflater recovers the data of every encoded sequence of stored, fixed and dynamic blocks. */
  method InflateEncoded(s: Stream, ghost bs: seq<Block>) returns (ok: bool, out: seq<Byte>)
    requires ValidBlocks(bs, []) && Holds(s, 0, Encode(bs, 0, []))
    ensures ok && out == ExpandBlocks(bs, [])
  {
    hide Inflate, ValidBlocks, Holds, Encode, ExpandBlocks;
    InflateRead(s, 0, bs, [], Steps(bs));
    var z := new ZBuf(s);
    ok := z.ParseZlib(Steps(bs));
    out := z.out;
  }

  // ----- literals and copies -----

  /** What a compressor finds: bytes and repetitions of `len` bytes from `dist` bytes before. */
  datatype Piece = Single(b: Byte) | Copy(len: nat, dist: nat)

  /** Every length and distance of section 3.2.5 is allowed, as long as it stays within the output. */
  ghost predicate ValidPieces(ps: seq<Piece>, out: seq<Byte>) {
    ps == [] ||
    match ps[0]
    case Single(b) => ValidPieces(ps[1..], out + [b])
    case Copy(len, dist) =>
      3 <= len <= 258 && 1 <= dist <= 32768 && dist <= |out| && ValidPieces(ps[1..], CopyBack(out, len, dist))
  }

  /** The data that the pieces stand for. */
  ghost function Pieced(ps: seq<Piece>, out: seq<Byte>): seq<Byte>
    requires ValidPieces(ps, out)
  {
    if ps == [] then out
    else
      match ps[0]
      case Single(b) => Pieced(ps[1..], out + [b])
      case Copy(len, dist) => Pieced(ps[1..], CopyBack(out, len, dist))
  }

  function TokenOf(p: Piece): Token
    requires p.Copy? ==> 3 <= p.len <= 258 && 1 <= p.dist <= 32768
  {
    match p
    case Single(b) => Literal(b)
    case Copy(len, dist) =>
      var z, d := LengthSymbol(len), DistSymbol(dist);
      Match(z, len - LengthBase(z), d, dist - DistBase(d))
  }

  function TokensOf(ps: seq<Piece>): seq<Token>
    requires forall k :: 0 <= k < |ps| && ps[k].Copy? ==> 3 <= ps[k].len <= 258 && 1 <= ps[k].dist <= 32768
  {
    if ps == [] then [] else [TokenOf(ps[0])] + TokensOf(ps[1..])
  }

  /** Codes that have every symbol a piece can need. */
  ghost predicate Complete(c: Codes) {
    && |c.ll| >= 286 && |c.dl| >= 30
    && (forall n :: 0 <= n < 286 ==> c.ll[n] > 0) && (forall n :: 0 <= n < 30 ==> c.dl[n] > 0)
  }

  lemma FixedComplete()
    ensures Complete(Fixed())
  {
  }

  /** Every copy of every length and distance has a token that means exactly that copy. */
  lemma PieceToken(p: Piece, c: Codes, out: seq<Byte>)
    requires Complete(c) && (p.Copy? ==> 3 <= p.len <= 258 && 1 <= p.dist <= 32768 && p.dist <= |out|)
    ensures ValidToken(TokenOf(p), c)
    ensures p.Single? ==> Meaning(TokenOf(p), out) == out + [p.b]
    ensures p.Copy? ==> Meaning(TokenOf(p), out) == CopyBack(out, p.len, p.dist)
    ensures p.Copy? ==> DistBase(TokenOf(p).dsym) + TokenOf(p).dextra <= |out|
  {
    hide LengthBase, LengthExtra, DistBase, DistExtra, CopyBack, LengthSymbol, DistSymbol, Pow2;
  }

  lemma {:induction false} PiecesInRange(ps: seq<Piece>, out: seq<Byte>)
    requires ValidPieces(ps, out)
    ensures forall k :: 0 <= k < |ps| && ps[k].Copy? ==> 3 <= ps[k].len <= 258 && 1 <= ps[k].dist <= 32768
    decreases |ps|
  {
    if ps != [] {
      PiecesInRange(ps[1..], match ps[0] case Single(b) => out + [b] case Copy(len, dist) => CopyBack(out, len, dist));
      assert forall k :: 1 <= k < |ps| ==> ps[k] == ps[1..][k - 1];
    }
  }

  /** The tokens of the pieces are valid and mean the data. */
  lemma {:induction false} PiecesTokens(ps: seq<Piece>, c: Codes, out: seq<Byte>)
    requires Complete(c) && |c.ll| > 256 && ValidPieces(ps, out)
    ensures forall k :: 0 <= k < |ps| && ps[k].Copy? ==> 3 <= ps[k].len <= 258 && 1 <= ps[k].dist <= 32768
    ensures ValidTokens(TokensOf(ps), c, out) && Expand(TokensOf(ps), c, out) == Pieced(ps, out)
    decreases |ps|
  {
    hide TokenOf, Meaning, ValidToken, CopyBack;
    PiecesInRange(ps, out);
    if ps != [] {
      var out1 := match ps[0] case Single(b) => out + [b] case Copy(len, dist) => CopyBack(out, len, dist);
      PieceToken(ps[0], c, out);
      PiecesTokens(ps[1..], c, out1);
      assert TokensOf(ps)[1..] == TokensOf(ps[1..]);
      KindOfToken(ps[0]);
    }
  }

  lemma KindOfToken(p: Piece)
    requires p.Copy? ==> 3 <= p.len <= 258 && 1 <= p.dist <= 32768
    ensures TokenOf(p).Match? == p.Copy?
    ensures p.Copy? ==> 257 <= TokenOf(p).lsym <= 285 && TokenOf(p).dsym <= 29
  {
  }

  /** For all data cut into bytes and copies of any length from 3 to 258 and any distance from 1 to 32768, the inflater
      returns the data from the fixed-code block of the pieces. */
  method InflatePieces(s: Stream, ghost ps: seq<Piece>) returns (ok: bool, out: seq<Byte>)
    requires ValidPieces(ps, [])
    requires forall k :: 0 <= k < |ps| && ps[k].Copy? ==> 3 <= ps[k].len <= 258 && 1 <= ps[k].dist <= 32768
    requires ValidBlocks([FixedBlock(TokensOf(ps))], []) ==> Holds(s, 0, Encode([FixedBlock(TokensOf(ps))], 0, []))
    ensures ok && out == Pieced(ps, [])
  {
    hide ValidPieces, Pieced, TokensOf, Holds, FixedLengths, FixedDistances;
    FixedComplete();
    PiecesTokens(ps, Fixed(), []);
    ok, out := InflateEncoded(s, [FixedBlock(TokensOf(ps))]);
  }
}
