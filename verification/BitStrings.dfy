/** Bit strings, most significant bit first, and the numbers they denote. */
module BitStrings {
  import opened Words

  /** The n low-order bits of v, most significant first. */
  function Bits(v: nat, n: nat): (bs: seq<bit>)
    ensures |bs| == n
  {
    if n == 0 then [] else Bits(v / 2, n - 1) + [v % 2]
  }

  function Value(bs: seq<bit>): nat {
    if bs == [] then 0 else 2 * Value(bs[..|bs| - 1]) + bs[|bs| - 1]
  }

  lemma {:induction false} ValueBound(bs: seq<bit>)
    ensures Value(bs) < Pow2(|bs|)
  {
    if bs != [] {
      ValueBound(bs[..|bs| - 1]);
    }
  }

  lemma {:induction false} ValueOfBits(v: nat, n: nat)
    requires v < Pow2(n)
    ensures Value(Bits(v, n)) == v
  {
    if n > 0 {
      ValueOfBits(v / 2, n - 1);
      assert Bits(v, n)[..n - 1] == Bits(v / 2, n - 1);
    }
  }

  lemma {:induction false} BitsOfValue(bs: seq<bit>)
    ensures Bits(Value(bs), |bs|) == bs
  {
    if bs != [] {
      BitsOfValue(bs[..|bs| - 1]);
    }
  }

  lemma {:induction false} ValueConcat(a: seq<bit>, b: seq<bit>)
    ensures Value(a + b) == Value(a) * Pow2(|b|) + Value(b)
  {
    if b == [] {
      assert a + b == a;
    } else {
      var front, last := b[..|b| - 1], b[|b| - 1];
      assert (a + b)[..|a + b| - 1] == a + front && (a + b)[|a + b| - 1] == last;
      ValueConcat(a, front);
      Double(Value(a), Pow2(|front|));
    }
  }

  lemma Double(x: nat, y: nat)
    ensures 2 * (x * y) == x * (2 * y)
  {
  }

  /** The high-order part of a bit string is the quotient. */
  lemma {:induction false} BitsPrefix(v: nat, m: nat, n: nat)
    ensures Bits(v, m + n)[..m] == Bits(v / Pow2(n), m)
  {
    if n == 0 {
      assert v / Pow2(0) == v;
    } else {
      BitsPrefix(v / 2, m, n - 1);
      assert Bits(v, m + n)[..m] == Bits(v / 2, m + n - 1)[..m];
      DivDiv(v, Pow2(n - 1));
    }
  }

  lemma DivDiv(v: nat, p: nat)
    requires p > 0
    ensures v / 2 / p == v / (2 * p)
  {
    var q, r := v / (2 * p), v % (2 * p);
    assert v == 2 * p * q + r;
    assert v / 2 == p * q + r / 2;
    assert r / 2 < p;
    DivUnique(v / 2, p, q, r / 2);
  }

  lemma HalfMod(v: nat, p: nat)
    requires p > 0
    ensures v % (2 * p) % 2 == v % 2
    ensures v % (2 * p) / 2 == v / 2 % p
  {
    var q, r := v / (2 * p), v % (2 * p);
    assert v == 2 * (p * q) + r;
    assert v / 2 == p * q + r / 2 && r / 2 < p;
    DivUnique(v / 2, p, q, r / 2);
  }

  /** Only the low-order n bits matter. */
  lemma {:induction false} BitsMod(v: nat, k: nat, n: nat)
    requires n <= k
    ensures Bits(v % Pow2(k), n) == Bits(v, n)
  {
    if n > 0 {
      HalfMod(v, Pow2(k - 1));
      BitsMod(v / 2, k - 1, n - 1);
    }
  }

  lemma BitsInjective(u: nat, v: nat, n: nat)
    requires u < Pow2(n) && v < Pow2(n) && Bits(u, n) == Bits(v, n)
    ensures u == v
  {
    ValueOfBits(u, n);
    ValueOfBits(v, n);
  }

  /** A prefix denotes the interval of its extensions. */
  lemma PrefixInterval(a: seq<bit>, b: seq<bit>)
    requires a <= b
    ensures Value(a) * Pow2(|b| - |a|) <= Value(b) < (Value(a) + 1) * Pow2(|b| - |a|)
  {
    var rest := b[|a|..];
    assert b == a + rest;
    ValueConcat(a, rest);
    ValueBound(rest);
    assert (Value(a) + 1) * Pow2(|rest|) == Value(a) * Pow2(|rest|) + Pow2(|rest|);
  }

  // ----- bytes as bits -----

  /** The bits of a byte string, byte by byte. */
  function BytesBits(b: seq<byte>): (bs: seq<bit>)
    ensures |bs| == 8 * |b|
  {
    if b == [] then [] else BytesBits(b[..|b| - 1]) + Bits(b[|b| - 1], 8)
  }

  lemma {:induction false} BytesBitsConcat(a: seq<byte>, b: seq<byte>)
    ensures BytesBits(a + b) == BytesBits(a) + BytesBits(b)
  {
    if b == [] {
      assert a + b == a;
    } else {
      assert (a + b)[..|a + b| - 1] == a + b[..|b| - 1];
      BytesBitsConcat(a, b[..|b| - 1]);
    }
  }

  /** Bits packed into bytes, the last byte filled up with zeros. */
  function Pack(bs: seq<bit>): (b: seq<byte>)
    ensures |b| == (|bs| + 7) / 8
    decreases |bs|
  {
    if bs == [] then []
    else if |bs| <= 8 then [ByteOf(bs + Zeros(8 - |bs|))]
    else [ByteOf(bs[..8])] + Pack(bs[8..])
  }

  function Zeros(n: nat): (bs: seq<bit>)
    ensures |bs| == n
  {
    seq(n, _ => 0)
  }

  function ByteOf(bs: seq<bit>): (b: byte)
    requires |bs| == 8
    ensures Bits(b, 8) == bs
  {
    ValueBound(bs);
    Pow2Values();
    BitsOfValue(bs);
    Value(bs)
  }

  /** Packed bits can be read back, followed by fewer than eight zeros. */
  lemma {:induction false} PackBits(bs: seq<bit>)
    ensures BytesBits(Pack(bs)) == bs + Zeros(8 * |Pack(bs)| - |bs|)
    decreases |bs|
  {
    if bs == [] {
    } else if |bs| <= 8 {
      assert Pack(bs)[..0] == [];
    } else {
      var head := [ByteOf(bs[..8])];
      PackBits(bs[8..]);
      BytesBitsConcat(head, Pack(bs[8..]));
      assert head[..0] == [];
      assert BytesBits(head) == bs[..8];
    }
  }
}
