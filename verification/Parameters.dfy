/** The numeric parameters of a control sequence, collected byte by byte. */
module Parameters {
  import opened BitStream
  import opened Sizes

  const MAX_ESC_VALUES: nat := 16

  /** `esc_values`, `esc_values_i` and `rrr`: a digit of the current parameter has been seen. */
  datatype Params = Params(values: seq<nat>, count: nat, digit: bool)
  {
    ghost predicate Valid() {
      && |values| == MAX_ESC_VALUES && count <= MAX_ESC_VALUES
      && (digit ==> count < MAX_ESC_VALUES)
    }

    /** How many parameters have been given when the sequence ends here. */
    function Given(): nat {
      if digit then count + 1 else count
    }
  }

  const SEMICOLON: Byte := 0x3b

  predicate IsDigit(c: Byte) {
    0x30 <= c <= 0x39
  }

  predicate IsParameterByte(c: Byte) {
    IsDigit(c) || c == SEMICOLON
  }

  function Fresh(): Params {
    Params(seq(MAX_ESC_VALUES, _ => 0), 0, false)
  }

  /** One parameter byte; once all values are taken further ones are ignored. */
  function Digest(p: Params, c: Byte): (r: Params)
    requires p.Valid() && IsParameterByte(c)
    ensures r.Valid()
  {
    if IsDigit(c) then
      if p.count == MAX_ESC_VALUES then p
      else p.(values := p.values[p.count := (p.values[p.count] * 10 + (c - 0x30)) % U32], digit := true)
    else if p.digit then p.(count := p.count + 1, digit := false)
    else if p.count == MAX_ESC_VALUES then p
    else p.(values := p.values[p.count := 0], count := p.count + 1)
  }

  ghost predicate ParameterBytes(s: seq<Byte>) {
    forall k :: 0 <= k < |s| ==> IsParameterByte(s[k])
  }

  function DigestAll(p: Params, s: seq<Byte>): (r: Params)
    requires p.Valid() && ParameterBytes(s)
    ensures r.Valid()
  {
    if s == [] then p else Digest(DigestAll(p, s[..|s| - 1]), s[|s| - 1])
  }

  lemma {:induction false} DigestAdd(p: Params, s: seq<Byte>, t: seq<Byte>)
    requires p.Valid() && ParameterBytes(s) && ParameterBytes(t)
    ensures ParameterBytes(s + t) && DigestAll(p, s + t) == DigestAll(DigestAll(p, s), t)
    decreases |t|
  {
    hide Digest;
    if t == [] {
      assert s + t == s;
    } else {
      var m := |t| - 1;
      DigestAdd(p, s, t[..m]);
      assert (s + t)[..|s + t| - 1] == s + t[..m];
    }
  }

  /** Decimal notation. */
  function Decimal(n: nat): (s: seq<Byte>)
    ensures forall k :: 0 <= k < |s| ==> IsDigit(s[k])
  {
    if n < 10 then [0x30 + n] else Decimal(n / 10) + [0x30 + n % 10]
  }

  /** Numbers separated by semicolons. */
  function Serialise(ns: seq<nat>): (s: seq<Byte>)
    ensures ParameterBytes(s)
  {
    if ns == [] then []
    else if |ns| == 1 then Decimal(ns[0])
    else Serialise(ns[..|ns| - 1]) + [SEMICOLON] + Decimal(ns[|ns| - 1])
  }

  /** The parser state that holds the numbers `ns`: the first sixteen of them, cut to 32 bits. */
  function Holding(ns: seq<nat>): Params {
    Params(seq(MAX_ESC_VALUES, i requires 0 <= i => if i < |ns| then ns[i] % U32 else 0),
           if |ns| == 0 then 0 else if |ns| <= MAX_ESC_VALUES then |ns| - 1 else MAX_ESC_VALUES,
           0 < |ns| <= MAX_ESC_VALUES)
  }

  lemma AppendDigit(n: nat)
    ensures (n / 10 % U32 * 10 + n % 10) % U32 == n % U32
  {
    var q := n / 10;
    var k := q / U32;
    assert n == (q % U32 * 10 + n % 10) + U32 * (10 * k);
    ModMultiple(q % U32 * 10 + n % 10, 10 * k);
  }

  lemma {:induction false} ModMultiple(a: nat, k: nat)
    ensures (a + U32 * k) % U32 == a % U32
  {
  }

  lemma DigestOne(p: Params, c: Byte)
    requires p.Valid() && IsParameterByte(c)
    ensures DigestAll(p, [c]) == Digest(p, c)
  {
    var none: seq<Byte> := [];
    assert [c][..0] == none;
    assert DigestAll(p, none) == p;
  }

  /** Where a value is still free, the digits of a number put it there. */
  lemma {:induction false} DecimalRead(p: Params, n: nat)
    requires p.Valid() && p.count < MAX_ESC_VALUES && p.values[p.count] == 0
    ensures DigestAll(p, Decimal(n)) == p.(values := p.values[p.count := n % U32], digit := true)
    decreases n
  {
    hide DigestAll;
    if n < 10 {
      DigestOne(p, 0x30 + n);
      assert Decimal(n) == [0x30 + n];
    } else {
      DecimalRead(p, n / 10);
      DigestAdd(p, Decimal(n / 10), [0x30 + n % 10]);
      var q := DigestAll(p, Decimal(n / 10));
      DigestOne(q, 0x30 + n % 10);
      AppendDigit(n);
    }
  }

  /** Where none is free, they are ignored. */
  lemma {:induction false} DigitsIgnored(p: Params, s: seq<Byte>)
    requires p.Valid() && p.count == MAX_ESC_VALUES && forall k :: 0 <= k < |s| ==> IsDigit(s[k])
    ensures DigestAll(p, s) == p
    decreases |s|
  {
    if s != [] {
      DigitsIgnored(p, s[..|s| - 1]);
    }
  }

  /** Any list of numbers, written in decimal and separated by semicolons, is what the parser then holds. */
  lemma {:induction false} SerialiseRead(ns: seq<nat>)
    ensures DigestAll(Fresh(), Serialise(ns)) == Holding(ns)
    decreases |ns|
  {
    hide DigestAll, Digest, Decimal;
    if ns == [] {
      DigestNone(Fresh());
      assert Fresh().values == Holding(ns).values;
    } else if |ns| == 1 {
      DecimalRead(Fresh(), ns[0]);
      assert Fresh().values[0 := ns[0] % U32] == Holding(ns).values;
    } else {
      var m := |ns| - 1;
      var init, a := ns[..m], Serialise(ns[..m]);
      SerialiseRead(init);
      DigestAdd(Fresh(), a + [SEMICOLON], Decimal(ns[m]));
      DigestAdd(Fresh(), a, [SEMICOLON]);
      DigestOne(Holding(init), SEMICOLON);
      NextNumber(init, ns[m]);
      assert init + [ns[m]] == ns;
    }
  }

  lemma DigestNone(p: Params)
    requires p.Valid()
    ensures DigestAll(p, []) == p
  {
  }

  lemma NextNumber(ns: seq<nat>, n: nat)
    requires |ns| > 0
    ensures Holding(ns).Valid()
    ensures DigestAll(Digest(Holding(ns), SEMICOLON), Decimal(n)) == Holding(ns + [n])
  {
    hide DigestAll, Decimal;
    var p := Digest(Holding(ns), SEMICOLON);
    if |ns| < MAX_ESC_VALUES {
      DecimalRead(p, n);
      assert p.values[p.count := n % U32] == Holding(ns + [n]).values;
    } else {
      DigitsIgnored(p, Decimal(n));
      assert p.values == Holding(ns + [n]).values;
    }
  }

  /** The values a finished sequence sees: the given ones, then the default. */
  function Completed(p: Params, missing: nat): (vs: seq<nat>)
    requires p.Valid()
    ensures |vs| == MAX_ESC_VALUES
  {
    p.values[..p.Given()] + seq(MAX_ESC_VALUES - p.Given(), _ => missing)
  }

  /** The first sixteen numbers of 32 bits arrive as they were written, and the rest is the default. */
  lemma CompletedNumbers(ns: seq<nat>, missing: nat)
    requires |ns| <= MAX_ESC_VALUES && forall k :: 0 <= k < |ns| ==> ns[k] < U32
    ensures Holding(ns).Given() == |ns|
    ensures Completed(Holding(ns), missing) == ns + seq(MAX_ESC_VALUES - |ns|, _ => missing)
  {
    assert Holding(ns).values[..|ns|] == ns;
  }
}
