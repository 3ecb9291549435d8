/**
 huffman_compress and huffman_decompress: the framed format, both directions as
 imperative methods tied to functions on byte strings, and the round trip.
 */
module HuffmanCodec {
  import opened Words
  import opened Endian
  import opened BitStrings
  import opened HuffmanTree
  import opened HuffmanLengths
  import opened HuffmanBuild
  import opened CanonicalCodes
  import opened DecodeTrie
  import opened TrieSize
  import opened BitIO

  const HUF_MAGIC: u32 := 0x48554631
  const HEADER_SIZE: nat := 264
  const TREE_CAP: nat := 2048

  datatype Outcome = Success(data: seq<byte>) | Failure(status: Status)

  // ----- the header -----

  function LensBytes(lens: Table): (b: seq<byte>)
    requires forall s :: 0 <= s < 256 ==> lens[s] <= 32
    ensures |b| == 256
  {
    seq(256, s requires 0 <= s < 256 => lens[s])
  }

  function Header(n: u32, lens: Table): (b: seq<byte>)
    requires forall s :: 0 <= s < 256 ==> lens[s] <= 32
    ensures |b| == HEADER_SIZE
  {
    Le32(HUF_MAGIC) + Le32(n) + LensBytes(lens)
  }

  // ----- what the encoder writes -----

  function Occurrences(input: seq<byte>, s: byte): (n: nat)
    ensures n <= |input|
  {
    if input == [] then 0
    else Occurrences(input[..|input| - 1], s) + (if input[|input| - 1] == s then 1 else 0)
  }

  /** The frequencies are those of the bytes in the input. */
  lemma {:induction false} OccurrencesCount(input: seq<byte>, s: byte)
    ensures Occurrences(input, s) == multiset(input)[s]
  {
    if input != [] {
      OccurrencesCount(input[..|input| - 1], s);
      assert input == input[..|input| - 1] + [input[|input| - 1]];
    }
  }

  function Frequencies(input: seq<byte>): (freq: Table) {
    seq(256, s requires 0 <= s < 256 => Occurrences(input, s))
  }

  /** The codewords of the input, one after the other. */
  function EncodeBits(lens: Table, input: seq<byte>): seq<bit> {
    if input == [] then []
    else EncodeBits(lens, input[..|input| - 1]) + Codeword(lens, input[|input| - 1])
  }

  lemma LengthsAreShort(freq: Table)
    requires CodeLengths(freq).Lengths?
    ensures ValidLengths(CodeLengths(freq).lens)
  {
    forall s | 0 <= s < 256
      ensures CodeLengths(freq).lens[s] <= 32
    {
      UsedSymbolsGetCodes(freq, s);
    }
  }

  /** The complete compressed form of an input, or the status that refuses it. */
  function Compressed(input: seq<byte>): Outcome {
    if |input| >= U32_MODULUS then Failure(InvalidSize)
    else match CodeLengths(Frequencies(input))
      case Refused(e) => Failure(e)
      case Lengths(lens) =>
        LengthsAreShort(Frequencies(input));
        Success(Header(|input|, lens) + Pack(EncodeBits(lens, input)))
  }

  // ----- frequency counting -----

  lemma {:induction false} FrequencyStep(input: seq<byte>, n: nat)
    requires input != [] && n <= 256
    ensures SumOf(Frequencies(input), n)
         == SumOf(Frequencies(input[..|input| - 1]), n) + (if input[|input| - 1] < n then 1 else 0)
  {
    if n > 0 {
      FrequencyStep(input, n - 1);
    }
  }

  lemma {:induction false} FrequenciesOfNothing(n: nat)
    requires n <= 256
    ensures SumOf(Frequencies([]), n) == 0
  {
    if n > 0 {
      FrequenciesOfNothing(n - 1);
    }
  }

  /** The frequencies add up to the input length. */
  lemma {:induction false} FrequenciesSum(input: seq<byte>)
    ensures SumOf(Frequencies(input), 256) == |input|
  {
    if input == [] {
      FrequenciesOfNothing(256);
    } else {
      FrequencyStep(input, 256);
      FrequenciesSum(input[..|input| - 1]);
    }
  }

  method CountBytes(input: seq<byte>) returns (freq: array<u32>)
    requires |input| < U32_MODULUS
    ensures fresh(freq) && freq.Length == 256 && freq[..] == Frequencies(input)
  {
    freq := new u32[256](_ => 0);
    for i := 0 to |input|
      invariant forall s: byte :: freq[s] == Occurrences(input[..i], s)
    {
      assert input[..i + 1][..i] == input[..i];
      freq[input[i]] := (freq[input[i]] + 1) % U32_MODULUS;
    }
    assert input[..|input|] == input;
  }

  // ----- huffman_compress -----

  method WriteU32(out: array<byte>, at: nat, v: u32)
    requires at + 4 <= out.Length
    modifies out
    ensures out[at..at + 4] == Le32(v)
    ensures forall k :: 0 <= k < out.Length && (k < at || at + 4 <= k) ==> out[k] == old(out[k])
  {
    out[at] := v % 256;
    out[at + 1] := v / 256 % 256;
    out[at + 2] := v / 65536 % 256;
    out[at + 3] := v / 16777216 % 256;
  }

  method WriteHeader(out: array<byte>, n: u32, lens: array<byte>, ghost table: Table)
    requires HEADER_SIZE <= out.Length && lens.Length == 256 && lens != out
    requires lens[..] == table && ValidLengths(table)
    modifies out
    ensures out[..HEADER_SIZE] == Header(n, table)
    ensures forall k :: HEADER_SIZE <= k < out.Length ==> out[k] == old(out[k])
  {
    WriteU32(out, 0, HUF_MAGIC);
    WriteU32(out, 4, n);
    assert out[..8] == out[0..4] + out[4..8];
    for i := 0 to 256
      invariant out[..8] == Le32(HUF_MAGIC) + Le32(n)
      invariant forall k :: 0 <= k < i ==> out[8 + k] == table[k]
      invariant forall k :: HEADER_SIZE <= k < out.Length ==> out[k] == old(out[k])
      invariant lens[..] == table
    {
      assert lens[i] == table[i];
      out[8 + i] := lens[i];
    }
    assert out[8..HEADER_SIZE] == LensBytes(table);
    assert out[..HEADER_SIZE] == out[..8] + out[8..HEADER_SIZE];
  }

  lemma {:induction false} BytesBitsInjective(a: seq<byte>, b: seq<byte>)
    requires |a| == |b| && BytesBits(a) == BytesBits(b)
    ensures a == b
  {
    if a != [] {
      var x, y := a[|a| - 1], b[|b| - 1];
      var fa, fb := a[..|a| - 1], b[..|b| - 1];
      assert BytesBits(fa) == BytesBits(a)[..8 * |fa|] && BytesBits(fb) == BytesBits(b)[..8 * |fb|];
      assert Bits(x, 8) == BytesBits(a)[8 * |fa|..] && Bits(y, 8) == BytesBits(b)[8 * |fb|..];
      BytesBitsInjective(fa, fb);
      Pow2Values();
      BitsInjective(x, y, 8);
    }
  }

  lemma {:induction false} EncodePrefixIsShorter(lens: Table, input: seq<byte>, i: nat)
    requires i <= |input|
    ensures |EncodeBits(lens, input[..i])| <= |EncodeBits(lens, input)|
  {
    if i < |input| {
      EncodePrefixIsShorter(lens, input[..|input| - 1], i);
      assert input[..|input| - 1][..i] == input[..i];
    } else {
      assert input[..i] == input;
    }
  }

  lemma EncodeStep(lens: Table, codes: Codes, input: seq<byte>, i: nat)
    requires i < |input| && AreCanonical(lens, codes) && 0 < lens[input[i]] <= 32
    ensures EncodeBits(lens, input[..i + 1]) == EncodeBits(lens, input[..i]) + Word(lens, codes, input[i])
    ensures |EncodeBits(lens, input[..i + 1])| <= |EncodeBits(lens, input)|
  {
    CanonicalWord(lens, codes, input[i]);
    EncodePrefixIsShorter(lens, input, i + 1);
    assert input[..i + 1][..i] == input[..i];
  }

  /** The bits written and flushed are the packed bits. */
  lemma FlushedIsPack(bytes: seq<byte>, bits: seq<bit>)
    requires |bytes| == (|bits| + 7) / 8
    requires BytesBits(bytes) == bits + Zeros(8 * |bytes| - |bits|)
    ensures bytes == Pack(bits)
  {
    hide BytesBits, Pack;
    PackBits(bits);
    BytesBitsInjective(bytes, Pack(bits));
  }

  /** The bitstream part: one put per input byte, then the flush. */
  method WriteBody(input: seq<byte>, lens: Table, codes: Codes, out: array<byte>, outMax: nat)
    returns (status: Status, outLen: nat)
    requires HEADER_SIZE <= outMax <= out.Length
    requires ValidLengths(lens) && AreCanonical(lens, codes)
    requires forall i :: 0 <= i < |input| ==> lens[input[i]] > 0
    modifies out
    ensures var body := Pack(EncodeBits(lens, input));
      && status == (if HEADER_SIZE + |body| > outMax then NoMem else Ok)
      && (status == Ok ==> outLen == HEADER_SIZE + |body| && out[HEADER_SIZE..outLen] == body)
    ensures out[..HEADER_SIZE] == old(out[..HEADER_SIZE])
    ensures status == Ok ==> forall k :: outLen <= k < out.Length ==> out[k] == old(out[k])
  {
    hide EncodeBits, Pack, BitStrings.Bits, BytesBits, CanonicalCode;
    var w := new BitWriter(out, outMax, HEADER_SIZE);
    NothingEncoded(lens);
    assert input[..0] == [];
    ghost var total := |EncodeBits(lens, input)|;
    for i := 0 to |input|
      invariant w.Valid() && w.dst == out && w.cap == outMax && w.start == HEADER_SIZE && fresh(w)
      invariant w.Written() == EncodeBits(lens, input[..i])
      invariant forall k :: 0 <= k < out.Length && (k < HEADER_SIZE || w.pos <= k) ==> out[k] == old(out[k])
      modifies w, out
    {
      var l := lens[input[i]];
      if l == 0 {
        assert false;
      }
      EncodeStep(lens, codes, input, i);
      status := w.PutBits(codes[input[i]], l);
      if status != Ok {
        outLen := 0;
        return;
      }
    }
    assert input[..|input|] == input;
    status := w.Flush();
    if status != Ok {
      outLen := 0;
      return;
    }
    outLen := w.pos;
    FlushedIsPack(out[HEADER_SIZE..outLen], EncodeBits(lens, input));
  }

  lemma NothingEncoded(lens: Table)
    ensures EncodeBits(lens, []) == []
  {
  }

  lemma {:induction false} OccursPositive(input: seq<byte>, i: nat)
    requires i < |input|
    ensures Occurrences(input, input[i]) > 0
  {
    if i < |input| - 1 {
      OccursPositive(input[..|input| - 1], i);
    }
  }

  lemma InputSymbolsAreUsed(input: seq<byte>)
    requires CodeLengths(Frequencies(input)).Lengths?
    ensures forall i :: 0 <= i < |input| ==> CodeLengths(Frequencies(input)).lens[input[i]] > 0
  {
    forall i | 0 <= i < |input|
      ensures CodeLengths(Frequencies(input)).lens[input[i]] > 0
    {
      OccursPositive(input, i);
      UsedSymbolsGetCodes(Frequencies(input), input[i]);
    }
  }

  /** At least one length is positive when any symbol is used. */
  lemma SomeLength(freq: Table)
    requires CodeLengths(freq).Lengths?
    ensures !AllZero(CodeLengths(freq).lens)
  {
    LeavesFacts(freq, 256, 0);
    assert Leaves(freq, 256)[0] in Leaves(freq, 256);
    UsedSymbolsGetCodes(freq, Leaves(freq, 256)[0].sym);
  }

  /**
   huffman_compress. It succeeds with exactly the compressed form, and nothing beyond it
   is written; otherwise the status says why. mem tells whether the heap has room.
   */
  method HuffmanCompress(input: seq<byte>, out: array<byte>, outMax: nat, mem: bool)
    returns (status: Status, outLen: nat)
    requires outMax <= out.Length
    modifies out
    ensures |input| < U32_MODULUS && !mem ==> status == NoMem
    ensures |input| >= U32_MODULUS || mem ==> match Compressed(input) {
      case Failure(e) => status == e
      case Success(bytes) =>
        && status == (if |bytes| > outMax then NoMem else Ok)
        && (status == Ok ==> outLen == |bytes| && out[..outLen] == bytes)
        && (status == Ok ==> forall k :: outLen <= k < out.Length ==> out[k] == old(out[k]))
    }
  {
    hide CodeLengths, Occurrences, Pack, EncodeBits, Header, SumOf, AllZero;
    outLen := 0;
    if |input| > 0xFFFF_FFFF {
      return InvalidSize, 0;
    }
    var freq := CountBytes(input);
    FrequenciesSum(input);
    var lens := new byte[256];
    var maxLen;
    status, maxLen := BuildCodeLengths(freq[..], lens, mem);
    if status != Ok {
      return;
    }
    LengthsAreShort(Frequencies(input));
    SomeLength(Frequencies(input));
    InputSymbolsAreUsed(input);
    ghost var table := CodeLengths(Frequencies(input)).lens;
    var codes := new u32[256];
    var maxBits;
    status, maxBits := BuildCanonicalCodes(lens[..], codes);
    if outMax < HEADER_SIZE {
      return NoMem, 0;
    }
    WriteHeader(out, |input|, lens, table);
    status, outLen := WriteBody(input, lens[..], codes[..], out, outMax);
    if status == Ok {
      assert out[..outLen] == out[..HEADER_SIZE] + out[HEADER_SIZE..outLen];
    }
  }
}
