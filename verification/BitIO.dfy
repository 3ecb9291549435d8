/** The bit writer and the bit reader, as refinements of appending to and taking from a bit string. */
module BitIO {
  import opened Words
  import opened BitStrings

  const U64_MODULUS: nat := 0x1_0000_0000_0000_0000

  // ----- cutting a number into its high byte and the rest -----

  lemma {:induction false} BitsSuffix(v: nat, m: nat, n: nat)
    ensures Bits(v, m + n)[m..] == Bits(v, n)
  {
    if n > 0 {
      BitsSuffix(v / 2, m, n - 1);
      assert Bits(v, m + n)[m..] == Bits(v / 2, m + n - 1)[m..] + [v % 2];
    }
  }

  lemma TopByteValue(v: nat, c: nat)
    requires 8 <= c && v < Pow2(c)
    ensures v / Pow2(c - 8) < 256
  {
    hide Pow2;
    var p := Pow2(c - 8);
    Pow2Values();
    Pow2Add(8, c - 8);
    assert v == p * (v / p) + v % p;
    if v / p >= 256 {
      MulMonotone(256, v / p, p);
    }
  }

  /** Emitting the top eight of c buffered bits. */
  lemma TopByte(v: nat, c: nat)
    requires 8 <= c && v < Pow2(c)
    ensures v / Pow2(c - 8) < 256
    ensures v % Pow2(c - 8) < Pow2(c - 8)
    ensures Bits(v, c) == Bits(v / Pow2(c - 8), 8) + Bits(v % Pow2(c - 8), c - 8)
  {
    hide Pow2, BitStrings.Bits;
    TopByteValue(v, c);
    BitsPrefix(v, 8, c - 8);
    BitsSuffix(v, 8, c - 8);
    BitsMod(v, c - 8, c - 8);
    assert Bits(v, c) == Bits(v, c)[..8] + Bits(v, c)[8..];
  }

  /** Shifting n bits into a buffer that holds c bits loses nothing. */
  lemma ShiftedValue(buf: nat, c: nat, code: nat, n: nat)
    requires buf < Pow2(c) && c + n <= 64
    ensures buf * Pow2(n) % U64_MODULUS == buf * Pow2(n)
    ensures buf * Pow2(n) + code % Pow2(n) < Pow2(c + n) <= U64_MODULUS
  {
    hide Pow2;
    MulMonotone(buf + 1, Pow2(c), Pow2(n));
    Pow2Add(c, n);
    Pow2Monotone(c + n, 64);
    Pow2Values();
    var v := buf * Pow2(n);
    assert 0 <= v < U64_MODULUS;
  }

  lemma ShiftIn(buf: nat, c: nat, code: nat, n: nat)
    requires buf < Pow2(c) && c + n <= 64
    ensures buf * Pow2(n) % U64_MODULUS == buf * Pow2(n)
    ensures buf * Pow2(n) + code % Pow2(n) < Pow2(c + n) <= U64_MODULUS
    ensures Bits(buf * Pow2(n) + code % Pow2(n), c + n) == Bits(buf, c) + Bits(code, n)
  {
    hide Pow2, BitStrings.Bits;
    ShiftedValue(buf, c, code, n);
    var p := Pow2(n);
    var v := buf * p + code % p;
    DivUnique(v, p, buf, code % p);
    BitsPrefix(v, c, n);
    BitsSuffix(v, c, n);
    BitsMod(v, n, n);
    BitsMod(code, n, n);
    assert Bits(v, c + n) == Bits(v, c + n)[..c] + Bits(v, c + n)[c..];
  }

  // ----- writer -----

  class BitWriter {
    const dst: array<byte>
    const cap: nat
    const start: nat
    var pos: nat
    var bitbuf: nat
    var bitcount: nat

    /** Between calls fewer than eight bits wait, and the buffer holds nothing else. */
    ghost predicate Valid()
      reads this
    {
      start <= pos <= cap <= dst.Length && bitcount <= 7 && bitbuf < Pow2(bitcount)
    }

    /** Everything put so far: the bytes out in the buffer, then the waiting bits. */
    ghost function Written(): seq<bit>
      requires start <= pos <= dst.Length
      reads this, dst
    {
      BytesBits(dst[start..pos]) + Bits(bitbuf, bitcount)
    }

    /** bitw_init */
    constructor (dst: array<byte>, cap: nat, start: nat)
      requires start <= cap <= dst.Length
      ensures this.dst == dst && this.cap == cap && this.start == start && pos == start
      ensures Valid() && bitcount == 0 && Written() == []
    {
      this.dst, this.cap, this.start := dst, cap, start;
      pos, bitbuf, bitcount := start, 0, 0;
      new;
      assert dst[start..start] == [];
    }

    /** Everything outside the bytes from lo to below pos is as it was. */
    twostate predicate Frame(lo: nat)
      reads this, dst
    {
      forall k :: 0 <= k < dst.Length && (k < lo || pos <= k) ==> dst[k] == old(dst[k])
    }

    /** Put one byte that stands for the first eight of the waiting bits. */
    method PutByte(outb: byte, rest: nat, left: nat, ghost waiting: seq<bit>)
      requires start <= pos < cap <= dst.Length
      requires |waiting| == 8 + left && Bits(outb, 8) + Bits(rest, left) == waiting
      modifies this, dst
      ensures pos == old(pos) + 1 && bitbuf == rest && bitcount == left
      ensures Written() == old(BytesBits(dst[start..pos])) + waiting
      ensures Frame(old(pos))
    {
      hide BytesBits, BitStrings.Bits;
      ghost var before := dst[start..pos];
      dst[pos] := outb;
      assert dst[start..pos + 1] == before + [outb];
      pos := pos + 1;
      bitbuf := rest;
      bitcount := left;
      AppendByte(before, outb, Bits(rest, left));
    }

    /** The while loop of bitw_put_bits: full bytes leave the buffer until the capacity is reached. */
    method Drain() returns (status: Status)
      requires start <= pos <= cap <= dst.Length && bitbuf < Pow2(bitcount)
      modifies this, dst
      ensures status == if old(pos) + old(bitcount) / 8 > cap then NoMem else Ok
      ensures status == Ok ==> Valid() && pos == old(pos) + old(bitcount) / 8
      ensures status == Ok ==> bitcount == old(bitcount) % 8 && Written() == old(Written())
      ensures old(pos) <= pos && Frame(old(pos))
    {
      hide BytesBits, BitStrings.Bits, Pow2;
      ghost var goal := Written();
      while bitcount >= 8
        invariant old(pos) <= pos <= cap && bitbuf < Pow2(bitcount)
        invariant pos + bitcount / 8 == old(pos) + old(bitcount) / 8 && bitcount % 8 == old(bitcount) % 8
        invariant Written() == goal
        invariant Frame(old(pos))
        decreases bitcount
      {
        if pos >= cap {
          return NoMem;
        }
        TopByte(bitbuf, bitcount);
        PutByte(bitbuf / Pow2(bitcount - 8), bitbuf % Pow2(bitcount - 8), bitcount - 8, Bits(bitbuf, bitcount));
      }
      status := Ok;
    }

    /**
     bitw_put_bits: append the low nbits bits of code, most significant first. The
     64-bit overflow check never fires, because at most 7 bits wait.
     */
    method PutBits(code: u32, nbits: nat) returns (status: Status)
      requires Valid()
      modifies this, dst
      ensures status == if nbits > 32 then InvalidSize
                        else if old(pos) + (old(bitcount) + nbits) / 8 > cap then NoMem
                        else Ok
      ensures status == Ok ==> Valid() && pos == old(pos) + (old(bitcount) + nbits) / 8
      ensures status == Ok ==> bitcount == (old(bitcount) + nbits) % 8
      ensures status == Ok ==> Written() == old(Written()) + Bits(code, nbits)
      ensures old(pos) <= pos && Frame(old(pos))
    {
      hide BytesBits, BitStrings.Bits, Pow2;
      if nbits == 0 {
        return Ok;
      }
      if nbits > 32 || bitcount + nbits > 64 {
        return InvalidSize;
      }
      ShiftIn(bitbuf, bitcount, code, nbits);
      ghost var out := BytesBits(dst[start..pos]);
      ghost var waiting := Bits(bitbuf, bitcount);
      // the two operands of C's | have no bit in common, so it is an addition
      bitbuf := bitbuf * Pow2(nbits) % U64_MODULUS + code % Pow2(nbits);
      bitcount := bitcount + nbits;
      assert Written() == out + waiting + Bits(code, nbits);
      status := Drain();
    }

    /** bitw_flush: the waiting bits, filled up with zeros, make the last byte. */
    method Flush() returns (status: Status)
      requires Valid()
      modifies this, dst
      ensures status == if old(bitcount) > 0 && old(pos) >= cap then NoMem else Ok
      ensures status == Ok ==> Valid() && bitcount == 0
      ensures status == Ok ==> pos == old(pos) + (if old(bitcount) == 0 then 0 else 1)
      ensures status == Ok ==> Written() == old(Written()) + Zeros(8 * (pos - start) - |old(Written())|)
      ensures old(pos) <= pos && Frame(old(pos))
    {
      hide BytesBits, BitStrings.Bits, Pow2;
      if bitcount == 0 {
        return Ok;
      }
      if pos >= cap {
        return NoMem;
      }
      FillUp(bitbuf, bitcount);
      ghost var bits := Bits(bitbuf, bitcount) + Zeros(8 - bitcount);
      ghost var old_bits := Written();
      PutByte(bitbuf * Pow2(8 - bitcount) % 256, 0, 0, bits);
      assert Written() == old_bits + Zeros(8 * (pos - start) - |old_bits|);
      status := Ok;
    }
  }

  lemma AppendByte(before: seq<byte>, b: byte, waiting: seq<bit>)
    ensures BytesBits(before + [b]) + waiting == BytesBits(before) + (Bits(b, 8) + waiting)
  {
    assert (before + [b])[..|before|] == before;
  }

  lemma FillUp(buf: nat, c: nat)
    requires 0 < c < 8 && buf < Pow2(c)
    ensures buf * Pow2(8 - c) < 256
    ensures Bits(buf * Pow2(8 - c), 8) == Bits(buf, c) + Zeros(8 - c)
  {
    hide Pow2, BitStrings.Bits;
    Pow2Values();
    ShiftIn(buf, c, 0, 8 - c);
    BitsOfZero(8 - c);
  }

  lemma {:induction false} BitsOfZero(n: nat)
    ensures Bits(0, n) == Zeros(n)
  {
    if n > 0 {
      BitsOfZero(n - 1);
    }
  }

  // ----- reader -----

  class BitReader {
    const src: seq<byte>
    var pos: nat
    var bitbuf: nat
    var bitcount: nat

    ghost predicate Valid()
      reads this
    {
      pos <= |src| && bitcount <= 8
    }

    /** The bits still to come. */
    ghost function Remaining(): seq<bit>
      requires Valid()
      reads this
    {
      Bits(bitbuf, bitcount) + BytesBits(src[pos..])
    }

    /** bitr_init */
    constructor (src: seq<byte>, start: nat)
      requires start <= |src|
      ensures Valid() && this.src == src && Remaining() == BytesBits(src[start..])
    {
      this.src := src;
      pos, bitbuf, bitcount := start, 0, 0;
    }

    /** bitr_get_bit: take the next bit, or fail exactly when none is left. */
    method GetBit() returns (status: Status, bit: bit)
      requires Valid()
      modifies this
      ensures Valid()
      ensures status == if old(Remaining()) == [] then InvalidSize else Ok
      ensures status == Ok ==> [bit] + Remaining() == old(Remaining())
    {
      hide BytesBits, BitStrings.Bits, Pow2;
      bit := 0;
      if bitcount == 0 {
        if pos >= |src| {
          return InvalidSize, 0;
        }
        FirstByte(src[pos..]);
        assert src[pos..][1..] == src[pos + 1..];
        bitbuf := src[pos];
        pos := pos + 1;
        bitcount := 8;
      }
      FirstBit(bitbuf, bitcount);
      bit := bitbuf / Pow2(bitcount - 1) % 2;
      bitcount := bitcount - 1;
      status := Ok;
    }
  }

  lemma FirstByte(b: seq<byte>)
    requires b != []
    ensures BytesBits(b) == Bits(b[0], 8) + BytesBits(b[1..])
  {
    BytesBitsConcat([b[0]], b[1..]);
    assert b == [b[0]] + b[1..];
    assert [b[0]][..0] == [];
    assert BytesBits([b[0]]) == Bits(b[0], 8);
  }

  lemma FirstBit(v: nat, c: nat)
    requires c > 0
    ensures Bits(v, c) == [v / Pow2(c - 1) % 2] + Bits(v, c - 1)
  {
    hide Pow2, BitStrings.Bits;
    BitsPrefix(v, 1, c - 1);
    BitsSuffix(v, 1, c - 1);
    OneBit(v / Pow2(c - 1));
    assert Bits(v, c) == Bits(v, c)[..1] + Bits(v, c)[1..];
  }

  lemma OneBit(v: nat)
    ensures Bits(v, 1) == [v % 2]
  {
    assert Bits(v / 2, 0) == [];
  }
}
