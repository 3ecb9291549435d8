/** huffman_decompress, on every input well-formed or not, and the round trip of the codec. */
module HuffmanDecode {
  import opened Words
  import opened Endian
  import opened BitStrings
  import opened PrefixCodes
  import opened HuffmanTree
  import opened HuffmanLengths
  import opened HuffmanTheorems
  import opened HuffmanDepth
  import opened CanonicalCodes
  import opened DecodeTrie
  import opened TrieSize
  import opened BitIO
  import opened HuffmanCodec

  // ----- decoding against a codebook -----

  function Prepend(front: seq<byte>, o: Outcome): Outcome {
    match o
    case Success(d) => Success(front + d)
    case Failure(e) => Failure(e)
  }

  /**
   Reading n symbols when the bits p have been read since the last one: a symbol is
   complete as soon as the bits read are a codeword, and reading fails as soon as they
   are no prefix of any.
   */
  ghost function DecodeFrom(lens: Table, codes: Codes, p: seq<bit>, bits: seq<bit>, n: nat): Outcome
    decreases |bits|
  {
    if n == 0 then Success([])
    else if bits == [] then Failure(InvalidSize)
    else
      var q := p + [bits[0]];
      if q !in PrefixSet(lens, codes, 256) then Failure(Fail)
      else
        var s := SymAt(lens, codes, q, 256);
        if s >= 0 then Prepend([s], DecodeFrom(lens, codes, [], bits[1..], n - 1))
        else DecodeFrom(lens, codes, q, bits[1..], n)
  }

  function WrappedCodes(lens: Table): (codes: Codes)
    ensures AreCanonical(lens, codes)
  {
    seq(256, s requires 0 <= s < 256 => if lens[s] == 0 then 0 else CanonicalCode(lens, s) % U32_MODULUS)
  }

  function TableOf(b: seq<byte>): (lens: Table)
    requires |b| == 256
  {
    seq(256, s requires 0 <= s < 256 => b[s])
  }

  /** What decompression yields, with mem telling whether the trie can be allocated. */
  ghost function Decompressed(input: seq<byte>, outMax: nat, mem: bool): Outcome {
    if |input| < HEADER_SIZE then Failure(InvalidSize)
    else if Rd32(input[0..4]) != HUF_MAGIC then Failure(InvalidArg)
    else if Rd32(input[4..8]) > outMax then Failure(NoMem)
    else
      var lens := TableOf(input[8..HEADER_SIZE]);
      if !ValidLengths(lens) then Failure(InvalidSize)
      else if AllZero(lens) then Failure(InvalidArg)
      else if !mem || |PrefixSet(lens, WrappedCodes(lens), 256)| > TREE_CAP then Failure(NoMem)
      else DecodeFrom(lens, WrappedCodes(lens), [], BytesBits(input[HEADER_SIZE..]), Rd32(input[4..8]))
  }

  /** The codewords of the data, one after the other. */
  ghost function WordsOf(lens: Table, codes: Codes, data: seq<byte>): seq<bit> {
    if data == [] then [] else Word(lens, codes, data[0]) + WordsOf(lens, codes, data[1..])
  }

  /**
   What reading n symbols means, for any table: the bits start with the codewords of the
   data read. It succeeds with n symbols; for InvalidSize the bits end in the middle of a
   codeword or in front of one, and for Fail they leave the codewords behind.
   */
  lemma {:induction false} DecodeOutcome(lens: Table, codes: Codes, p: seq<bit>, bits: seq<bit>, n: nat)
    returns (data: seq<byte>, q: seq<bit>, rest: seq<bit>)
    requires p in PrefixSet(lens, codes, 256)
    ensures p + bits == WordsOf(lens, codes, data) + q + rest
    ensures match DecodeFrom(lens, codes, p, bits, n)
      case Success(d) => d == data && |data| == n
      case Failure(e) =>
        && |data| < n && (e == InvalidSize || e == Fail)
        && (e == InvalidSize ==> rest == [] && q in PrefixSet(lens, codes, 256))
        && (e == Fail ==> q != [] && q[..|q| - 1] in PrefixSet(lens, codes, 256) && q !in PrefixSet(lens, codes, 256))
    decreases |bits|
  {
    hide PrefixSet, SymAt, Word;
    data, q, rest := [], p, bits;
    if n > 0 && bits != [] {
      var longer := p + [bits[0]];
      assert p + bits == longer + bits[1..];
      if longer !in PrefixSet(lens, codes, 256) {
        q, rest := longer, bits[1..];
        assert q[..|q| - 1] == p;
      } else if SymAt(lens, codes, longer, 256) >= 0 {
        var s: byte := SymAt(lens, codes, longer, 256);
        SymAtIsWord(lens, codes, longer, 256);
        PrefixSetGrows(lens, codes, 0, 256);
        data, q, rest := DecodeOutcome(lens, codes, [], bits[1..], n - 1);
        WordsFirst(lens, codes, s, data, bits[1..], q, rest);
        data := [s] + data;
      } else {
        data, q, rest := DecodeOutcome(lens, codes, longer, bits[1..], n);
      }
    }
  }

  lemma WordsFirst(lens: Table, codes: Codes, s: byte, data: seq<byte>, bits: seq<bit>, q: seq<bit>, rest: seq<bit>)
    requires [] + bits == WordsOf(lens, codes, data) + q + rest
    ensures Word(lens, codes, s) + bits == WordsOf(lens, codes, [s] + data) + q + rest
  {
    var w, words := Word(lens, codes, s), WordsOf(lens, codes, data);
    assert ([s] + data)[1..] == data;
    assert [] + bits == bits;
    assert w + (words + q + rest) == w + words + q + rest;
  }

  /** What is refused in front of the decoding, in the order of the checks, by the bytes of the header. */
  lemma Refusals(input: seq<byte>, outMax: nat, mem: bool)
    ensures |input| < 264 ==> Decompressed(input, outMax, mem) == Failure(InvalidSize)
    ensures |input| >= 264 && WordAt(input, 0) != 0x48554631 ==>
      Decompressed(input, outMax, mem) == Failure(InvalidArg)
    ensures |input| >= 264 && WordAt(input, 0) == 0x48554631 ==>
      var lens := TableOf(input[8..264]);
      var d := Decompressed(input, outMax, mem);
      && (forall s :: 0 <= s < 256 ==> lens[s] == input[8 + s])
      && (WordAt(input, 4) > outMax ==> d == Failure(NoMem))
      && (WordAt(input, 4) <= outMax ==>
           if exists i :: 8 <= i < 264 && input[i] > 32 then d == Failure(InvalidSize)
           else if forall i :: 8 <= i < 264 ==> input[i] == 0 then d == Failure(InvalidArg)
           else if !mem || |PrefixSet(lens, WrappedCodes(lens), 256)| > 2048 then d == Failure(NoMem)
           else d == DecodeFrom(lens, WrappedCodes(lens), [], BytesBits(input[264..]), WordAt(input, 4)))
  {
    hide DecodeFrom, PrefixSet, BytesBits, WrappedCodes, Rd32, WordAt;
    if |input| >= 264 {
      RdIsWord(input, 0);
      RdIsWord(input, 4);
      var lens := TableOf(input[8..264]);
      forall s | 0 <= s < 256
        ensures lens[s] == input[8 + s]
      {
      }
      assert forall i :: 8 <= i < 264 ==> input[i] == lens[i - 8];
      assert ValidLengths(lens) <==> forall i :: 8 <= i < 264 ==> input[i] <= 32;
      assert AllZero(lens) <==> forall i :: 8 <= i < 264 ==> input[i] == 0;
    }
  }

  // ----- huffman_decompress -----

  /** The decoding loop: walk the trie bit by bit, a symbol at each marked node. */
  method DecodeLoop(input: seq<byte>, lens: Table, codes: Codes, tree: array<DecNode>, n: nat, out: array<byte>,
                    ghost paths: seq<seq<bit>>)
    returns (status: Status, produced: nat)
    requires HEADER_SIZE <= |input| && n <= out.Length
    requires TrieOk(tree[..], paths) && SymsOk(tree[..], paths, lens, codes, 256)
    requires PathSet(paths) == PrefixSet(lens, codes, 256)
    modifies out
    ensures match DecodeFrom(lens, codes, [], BytesBits(input[HEADER_SIZE..]), n) {
      case Failure(e) => status == e
      case Success(data) => status == Ok && produced == |data| <= out.Length && out[..produced] == data
    }
    ensures status == Ok ==> produced == n
    ensures forall k :: n <= k < out.Length ==> out[k] == old(out[k])
  {
    hide BytesBits, PrefixSet, SymAt, TrieOk, SymsOk, DecodeFrom;
    ghost var nodes := tree[..];
    ghost var goal := DecodeFrom(lens, codes, [], BytesBits(input[HEADER_SIZE..]), n);
    var r := new BitReader(input, HEADER_SIZE);
    produced := 0;
    var cur := 0;
    RootPath(tree[..], paths);
    ghost var p: seq<bit> := [];
    assert out[..0] == [];
    while produced < n
      invariant r.Valid() && fresh(r) && tree[..] == nodes && |paths| <= tree.Length
      invariant produced <= n && 0 <= cur < |paths| && paths[cur] == p
      invariant Prepend(out[..produced], DecodeFrom(lens, codes, p, r.Remaining(), n - produced)) == goal
      invariant forall k :: n <= k < out.Length ==> out[k] == old(out[k])
      decreases |r.Remaining()|
      modifies r, out
    {
      ghost var bits := r.Remaining();
      var bit;
      status, bit := r.GetBit();
      if status != Ok {
        StepOutOfBits(lens, codes, p, bits, n - produced);
        return;
      }
      assert bits[0] == bit && bits[1..] == r.Remaining();
      WalkBit(nodes, paths, lens, codes, cur, bit);
      StepBit(lens, codes, p, bits, n - produced);
      cur := if bit == 1 then tree[cur].right else tree[cur].left;
      if cur < 0 {
        return Fail, produced;
      }
      p := p + [bit];
      if tree[cur].sym >= 0 {
        ghost var front := out[..produced];
        out[produced] := tree[cur].sym;
        assert out[..produced + 1] == front + [out[produced]];
        produced := produced + 1;
        cur := 0;
        p := [];
      }
    }
    Done(lens, codes, p, r.Remaining());
    status := Ok;
  }

  lemma RootPath(tree: seq<DecNode>, paths: seq<seq<bit>>)
    requires TrieOk(tree, paths)
    ensures 1 <= |paths| <= |tree| && paths[0] == []
  {
  }

  lemma Done(lens: Table, codes: Codes, p: seq<bit>, bits: seq<bit>)
    ensures DecodeFrom(lens, codes, p, bits, 0) == Success([])
  {
  }

  lemma StepOutOfBits(lens: Table, codes: Codes, p: seq<bit>, bits: seq<bit>, n: nat)
    requires bits == [] && n > 0
    ensures DecodeFrom(lens, codes, p, bits, n) == Failure(InvalidSize)
  {
  }

  lemma StepBit(lens: Table, codes: Codes, p: seq<bit>, bits: seq<bit>, n: nat)
    requires bits != [] && n > 0
    ensures var q := p + [bits[0]];
            DecodeFrom(lens, codes, p, bits, n) ==
              if q !in PrefixSet(lens, codes, 256) then Failure(Fail)
              else if SymAt(lens, codes, q, 256) >= 0
              then Prepend([SymAt(lens, codes, q, 256)], DecodeFrom(lens, codes, [], bits[1..], n - 1))
              else DecodeFrom(lens, codes, q, bits[1..], n)
  {
    hide PrefixSet, SymAt;
  }

  /** One step down the trie answers whether the longer path exists and which symbol it carries. */
  lemma WalkBit(tree: seq<DecNode>, paths: seq<seq<bit>>, lens: Table, codes: Codes, cur: nat, b: bit)
    requires TrieOk(tree, paths) && SymsOk(tree, paths, lens, codes, 256)
    requires PathSet(paths) == PrefixSet(lens, codes, 256) && cur < |paths|
    ensures var q := paths[cur] + [b];
            var c := if b == 1 then tree[cur].right else tree[cur].left;
            && (c < 0 <==> q !in PrefixSet(lens, codes, 256))
            && (c >= 0 ==> c < |paths| && paths[c] == q && tree[c].sym == SymAt(lens, codes, q, 256))
  {
    hide PrefixSet, SymAt;
    assert ChildOk(tree, paths, cur, b);
    var q := paths[cur] + [b];
    assert q in PathSet(paths) <==> q in paths;
  }

  /**
   huffman_decompress. For every input its status and output are those of Decompressed;
   the branch for a tree whose root is a leaf is never taken, as codewords are not empty.
   */
  method HuffmanDecompress(input: seq<byte>, out: array<byte>, outMax: nat, mem: bool)
    returns (status: Status, outLen: nat)
    requires outMax <= out.Length
    modifies out
    ensures match Decompressed(input, outMax, mem) {
      case Failure(e) => status == e
      case Success(data) => status == Ok && outLen == |data| <= out.Length && out[..outLen] == data
    }
    ensures forall k :: (if status == Ok then outLen else outMax) <= k < out.Length ==> out[k] == old(out[k])
  {
    hide BytesBits, PrefixSet, SymAt, DecodeFrom, CanonicalCode, TrieOk, PathSet;
    outLen := 0;
    if |input| < HEADER_SIZE {
      return InvalidSize, 0;
    }
    var magic := Rd32(input[0..4]);
    if magic != HUF_MAGIC {
      return InvalidArg, 0;
    }
    var origLen := Rd32(input[4..8]);
    if origLen > outMax {
      return NoMem, 0;
    }
    var lens := TableOf(input[8..HEADER_SIZE]);
    for i := 0 to 256
      invariant forall k :: 0 <= k < i ==> lens[k] <= 32
    {
      if lens[i] > 32 {
        return InvalidSize, 0;
      }
    }
    var codes := new u32[256];
    var maxLen;
    status, maxLen := BuildCanonicalCodes(lens, codes);
    if status != Ok {
      return;
    }
    assert codes[..] == WrappedCodes(lens);
    if !mem {
      return NoMem, 0;
    }
    var tree := new DecNode[TREE_CAP](_ => EMPTY_NODE);
    var root, used;
    ghost var paths;
    status, root, used, paths := BuildDecodeTree(lens, codes[..], tree, TREE_CAP);
    if status != Ok {
      return;
    }
    RootHasNoSymbol(tree[..], paths, lens, codes[..]);
    var top := tree[root];
    if top.sym >= 0 && top.left < 0 && top.right < 0 {
      assert false;
    }
    status, outLen := DecodeLoop(input, lens, codes[..], tree, origLen, out, paths);
  }

  lemma {:induction false} EmptyIsNoCodeword(lens: Table, codes: Codes, n: nat)
    requires n <= 256
    ensures SymAt(lens, codes, [], n) == -1
  {
    if n > 0 {
      EmptyIsNoCodeword(lens, codes, n - 1);
    }
  }

  lemma RootHasNoSymbol(tree: seq<DecNode>, paths: seq<seq<bit>>, lens: Table, codes: Codes)
    requires TrieOk(tree, paths) && SymsOk(tree, paths, lens, codes, 256)
    ensures |paths| >= 1 && tree[0].sym == -1
  {
    EmptyIsNoCodeword(lens, codes, 256);
  }

  // ----- reading codewords back -----

  /** The codebook an encoder uses: canonical codes of lengths that satisfy Kraft's inequality. */
  ghost predicate Codebook(lens: Table, codes: Codes) {
    AreCanonical(lens, codes) && ValidLengths(lens) && TableKraft(lens, 256) <= Pow2(32)
  }

  lemma WordsIncomparable(lens: Table, codes: Codes, s: byte, t: byte)
    requires Codebook(lens, codes) && lens[s] > 0 && lens[t] > 0 && s != t
    ensures Incomparable(Word(lens, codes, s), Word(lens, codes, t))
  {
    hide TableKraft, Pow2, CanonicalCode;
    CanonicalWord(lens, codes, s);
    CanonicalWord(lens, codes, t);
    CodewordsIncomparable(lens, s, t);
  }

  lemma {:induction false} SymAtIsWord(lens: Table, codes: Codes, p: seq<bit>, n: nat)
    requires n <= 256
    ensures var t := SymAt(lens, codes, p, n);
            t >= 0 ==> lens[t] > 0 && Word(lens, codes, t) == p
    ensures forall s :: 0 <= s < n && lens[s] > 0 && Word(lens, codes, s) == p ==> SymAt(lens, codes, p, n) >= 0
  {
    if n > 0 {
      SymAtIsWord(lens, codes, p, n - 1);
    }
  }

  /** A complete codeword carries its own symbol, a proper prefix of it none. */
  lemma SymbolAlongWord(lens: Table, codes: Codes, s: byte, k: nat)
    requires Codebook(lens, codes) && lens[s] > 0 && k <= lens[s]
    ensures SymAt(lens, codes, Word(lens, codes, s)[..k], 256) == if k == lens[s] then s else -1
    ensures Word(lens, codes, s)[..k] in PrefixSet(lens, codes, 256)
  {
    hide TableKraft, Pow2, CanonicalCode, SymAt, PrefixSet;
    var w := Word(lens, codes, s);
    SymAtIsWord(lens, codes, w[..k], 256);
    assert w[..lens[s]] == w;
    var t := SymAt(lens, codes, w[..k], 256);
    if t >= 0 && t != s {
      WordsIncomparable(lens, codes, s, t);
    }
    PrefixInSet(lens, codes, s, k);
  }

  lemma PrefixInSet(lens: Table, codes: Codes, s: byte, k: nat)
    requires lens[s] > 0 && k <= lens[s]
    ensures Word(lens, codes, s)[..k] in PrefixSet(lens, codes, 256)
  {
    assert Word(lens, codes, s)[..k] in PrefixesOf(lens, codes, s, lens[s]);
    PrefixSetGrows(lens, codes, s + 1, 256);
  }

  /** Reading the rest of a codeword yields its symbol and leaves the bits behind it. */
  lemma {:induction false} ReadWord(lens: Table, codes: Codes, s: byte, k: nat, rest: seq<bit>, n: nat)
    requires Codebook(lens, codes) && k < lens[s] && n > 0
    ensures var w := Word(lens, codes, s);
            DecodeFrom(lens, codes, w[..k], w[k..] + rest, n)
            == Prepend([s], DecodeFrom(lens, codes, [], rest, n - 1))
    decreases lens[s] - k
  {
    hide Codebook, SymAt, PrefixSet, DecodeFrom, BitStrings.Bits;
    var w := Word(lens, codes, s);
    var bits := w[k..] + rest;
    StepBit(lens, codes, w[..k], bits, n);
    assert w[..k] + [bits[0]] == w[..k + 1];
    assert bits[1..] == w[k + 1..] + rest;
    SymbolAlongWord(lens, codes, s, k + 1);
    if k + 1 < lens[s] {
      ReadWord(lens, codes, s, k + 1, rest, n);
    } else {
      assert w[k + 1..] + rest == rest;
    }
  }

  /** Decoding undoes encoding, whatever follows the encoded bits. */
  lemma {:induction false} DecodeEncoded(lens: Table, codes: Codes, input: seq<byte>, i: nat, rest: seq<bit>)
    requires Codebook(lens, codes) && i <= |input|
    requires forall k :: 0 <= k < |input| ==> lens[input[k]] > 0
    ensures DecodeFrom(lens, codes, [], EncodeTail(lens, codes, input, i) + rest, |input| - i) == Success(input[i..])
    decreases |input| - i
  {
    hide Codebook, DecodeFrom, BitStrings.Bits;
    if i == |input| {
      Done(lens, codes, [], EncodeTail(lens, codes, input, i) + rest);
    } else {
      var s := input[i];
      var w := Word(lens, codes, s);
      var tail := EncodeTail(lens, codes, input, i + 1);
      DecodeEncoded(lens, codes, input, i + 1, rest);
      ReadWord(lens, codes, s, 0, tail + rest, |input| - i);
      assert w[..0] == [] && w[0..] == w;
      assert w + tail + rest == w + (tail + rest);
      assert [s] + input[i + 1..] == input[i..];
    }
  }

  /** The codewords from position i on, in reading order. */
  ghost function EncodeTail(lens: Table, codes: Codes, input: seq<byte>, i: nat): seq<bit>
    requires i <= |input|
    decreases |input| - i
  {
    if i == |input| then [] else Word(lens, codes, input[i]) + EncodeTail(lens, codes, input, i + 1)
  }

  lemma {:induction false} EncodeSplits(lens: Table, codes: Codes, input: seq<byte>, i: nat)
    requires AreCanonical(lens, codes) && ValidLengths(lens) && i <= |input|
    requires forall k :: 0 <= k < |input| ==> lens[input[k]] > 0
    ensures EncodeBits(lens, input) == EncodeBits(lens, input[..i]) + EncodeTail(lens, codes, input, i)
    decreases |input| - i
  {
    hide EncodeBits, BitStrings.Bits, CanonicalCode;
    if i == |input| {
      assert input[..i] == input;
    } else {
      EncodeSplits(lens, codes, input, i + 1);
      EncodeStep(lens, codes, input, i);
    }
  }

  // ----- the round trip -----

  /** The header is parsed back into the length and the table. */
  lemma HeaderRoundTrip(n: u32, lens: Table, body: seq<byte>)
    requires ValidLengths(lens)
    ensures var b := Header(n, lens) + body;
            && Rd32(b[0..4]) == HUF_MAGIC && Rd32(b[4..8]) == n
            && TableOf(b[8..HEADER_SIZE]) == lens && b[HEADER_SIZE..] == body
  {
    var b := Header(n, lens) + body;
    Le32RoundTrip(HUF_MAGIC);
    Le32RoundTrip(n);
    assert b[0..4] == Le32(HUF_MAGIC) && b[4..8] == Le32(n);
    assert b[8..HEADER_SIZE] == LensBytes(lens);
    assert TableOf(b[8..HEADER_SIZE]) == lens;
  }

  lemma EncoderCodebook(freq: Table)
    requires CodeLengths(freq).Lengths?
    ensures Codebook(CodeLengths(freq).lens, WrappedCodes(CodeLengths(freq).lens))
  {
    hide CodeLengths, TableKraft, CanonicalCode;
    KraftEquality(freq);
    LengthsAreShort(freq);
    Pow2Monotone(31, 32);
  }

  lemma BodyRoundTrip(lens: Table, input: seq<byte>, junk: seq<byte>)
    requires Codebook(lens, WrappedCodes(lens))
    requires forall k :: 0 <= k < |input| ==> lens[input[k]] > 0
    ensures DecodeFrom(lens, WrappedCodes(lens), [], BytesBits(Pack(EncodeBits(lens, input)) + junk), |input|)
         == Success(input)
  {
    hide EncodeBits, DecodeFrom, BytesBits, Pack, TableKraft, Pow2;
    var codes := WrappedCodes(lens);
    var bits := EncodeBits(lens, input);
    PackBits(bits);
    BytesBitsConcat(Pack(bits), junk);
    EncodeSplits(lens, codes, input, 0);
    NothingEncoded(lens);
    assert input[..0] == [] && input[0..] == input;
    var tail := EncodeTail(lens, codes, input, 0);
    assert bits == tail;
    var rest := Zeros(8 * |Pack(bits)| - |bits|) + BytesBits(junk);
    assert BytesBits(Pack(bits) + junk) == tail + rest;
    DecodeEncoded(lens, codes, input, 0, rest);
  }

  /**
   The codec's round trip: whatever compresses successfully decompresses to the input,
   for any bytes that follow and any output buffer that is large enough.
   */
  lemma CodecRoundTrip(input: seq<byte>, junk: seq<byte>, outMax: nat)
    requires Compressed(input).Success? && |input| <= outMax
    ensures Decompressed(Compressed(input).data + junk, outMax, true) == Success(input)
  {
    hide CodeLengths, EncodeBits, DecodeFrom, BytesBits, Pack, Header, TableKraft, Pow2, PrefixSet, AllZero;
    hide Occurrences, CanonicalCode;
    var freq := Frequencies(input);
    var lens := CodeLengths(freq).lens;
    var body := Pack(EncodeBits(lens, input));
    LengthsAreShort(freq);
    SomeLength(freq);
    InputSymbolsAreUsed(input);
    EncoderCodebook(freq);
    EncoderTrieFits(freq, WrappedCodes(lens));
    assert Header(|input|, lens) + body + junk == Header(|input|, lens) + (body + junk);
    HeaderRoundTrip(|input|, lens, body + junk);
    BodyRoundTrip(lens, input, junk);
  }

  /** Compressing into one buffer and decompressing into another gives the input back. */
  method RoundTrip(input: seq<byte>, packed: array<byte>, out: array<byte>) returns (status: Status, outLen: nat)
    requires packed != out && |input| <= out.Length
    modifies packed, out
    ensures Compressed(input).Success? && |Compressed(input).data| <= packed.Length
        ==> status == Ok && outLen == |input| && out[..outLen] == input
  {
    hide Compressed, Decompressed;
    var n;
    status, n := HuffmanCompress(input, packed, packed.Length, true);
    outLen := 0;
    if status == Ok && Compressed(input).Success? {
      CodecRoundTrip(input, packed[n..], out.Length);
      assert packed[..] == packed[..n] + packed[n..];
      status, outLen := HuffmanDecompress(packed[..], out, out.Length, true);
    }
  }

  // ----- sizes -----

  lemma {:induction false} EncodedSize(lens: Table, input: seq<byte>)
    ensures |EncodeBits(lens, input)| == TotalBits(Frequencies(input), lens, 256)
  {
    if input == [] {
      NoBitsForNothing(lens, 256);
    } else {
      EncodedSize(lens, input[..|input| - 1]);
      OneMoreByte(lens, input, 256);
    }
  }

  lemma {:induction false} NoBitsForNothing(lens: Table, n: nat)
    requires n <= 256
    ensures TotalBits(Frequencies([]), lens, n) == 0
  {
    if n > 0 {
      NoBitsForNothing(lens, n - 1);
    }
  }

  lemma {:induction false} OneMoreByte(lens: Table, input: seq<byte>, n: nat)
    requires input != [] && n <= 256
    ensures var s := input[|input| - 1];
            TotalBits(Frequencies(input), lens, n)
            == TotalBits(Frequencies(input[..|input| - 1]), lens, n) + (if s < n then lens[s] else 0)
  {
    if n > 0 {
      OneMoreByte(lens, input, n - 1);
      if input[|input| - 1] == n - 1 {
      }
    }
  }

  /** A compressed input takes the header and at most one byte per input byte. */
  lemma CompressedSize(input: seq<byte>)
    requires Compressed(input).Success?
    ensures |Compressed(input).data| <= HEADER_SIZE + |input|
  {
    hide CodeLengths, EncodeBits, TotalBits, Occurrences, SumOf, Pack, Header;
    var freq := Frequencies(input);
    LengthsAreShort(freq);
    EncodedSize(CodeLengths(freq).lens, input);
    AtMostEightBitsPerByte(freq);
    FrequenciesSum(input);
  }

  /** Every non-empty input shorter than 11,405,773 bytes compresses. */
  lemma ShortInputsCompress(input: seq<byte>)
    requires 0 < |input| < 11_405_773
    ensures Compressed(input).Success?
  {
    hide CodeLengths, EncodeBits, Occurrences, SumOf, Pack, Header;
    FrequenciesSum(input);
    ShortInputsAreAccepted(Frequencies(input));
  }

  /** Why an input does not compress: it is empty, or a codeword, or the input itself, is too long. */
  lemma RefusedBecause(input: seq<byte>)
    ensures input == [] ==> Compressed(input) == Failure(InvalidArg)
    ensures input != [] && Compressed(input).Failure? ==> Compressed(input) == Failure(InvalidSize)
  {
    hide EncodeBits, Occurrences, Pack, Header, HuffmanOf, Height, Leaves, Frequencies;
    if input == [] {
      EmptyIsRefused();
    } else {
      FrequenciesSum(input);
      LeavesFacts(Frequencies(input), 256, 0);
    }
  }

  // ----- exactly which lengths can be refused -----

  /** freq[s] copies of each symbol s below n. */
  function Spread(freq: Table, n: nat): seq<byte>
    requires n <= 256
  {
    if n == 0 then [] else Spread(freq, n - 1) + Repeat(n - 1, freq[n - 1])
  }

  function Repeat(b: byte, k: nat): (r: seq<byte>)
    ensures |r| == k
  {
    seq(k, _ => b)
  }

  lemma {:induction false} RepeatOccurs(front: seq<byte>, b: byte, k: nat, s: byte)
    ensures Occurrences(front + Repeat(b, k), s) == Occurrences(front, s) + (if s == b then k else 0)
  {
    if k == 0 {
      assert front + Repeat(b, k) == front;
    } else {
      var all := front + Repeat(b, k);
      assert all[..|all| - 1] == front + Repeat(b, k - 1);
      RepeatOccurs(front, b, k - 1, s);
    }
  }

  lemma {:induction false} SpreadOccurs(freq: Table, n: nat, s: byte)
    requires n <= 256
    ensures Occurrences(Spread(freq, n), s) == if s < n then freq[s] else 0
  {
    if n > 0 {
      SpreadOccurs(freq, n - 1, s);
      RepeatOccurs(Spread(freq, n - 1), n - 1, freq[n - 1], s);
    }
  }

  /** Every table is the frequency table of an input. */
  lemma EveryTableOccurs(freq: Table)
    ensures Frequencies(Spread(freq, 256)) == freq && |Spread(freq, 256)| == SumOf(freq, 256)
  {
    hide SumOf, Occurrences, Spread;
    var input := Spread(freq, 256);
    forall s: byte
      ensures Frequencies(input)[s] == freq[s]
    {
      SpreadOccurs(freq, 256, s);
    }
    assert Frequencies(input) == freq;
    FrequenciesSum(input);
  }

  /** Some input of n bytes does not compress if and only if n is at least 11,405,773 (or 0). */
  lemma RefusedLengths(n: nat)
    ensures (exists input: seq<byte> :: |input| == n && Compressed(input).Failure?) <==> n == 0 || n >= 11_405_773
  {
    hide CodeLengths, EncodeBits, Occurrences, SumOf, Pack, Header, Spread, Frequencies;
    if n == 0 {
      EmptyIsRefused();
    } else if n >= U32_MODULUS {
      var input := Repeat(0, n);
      assert Compressed(input).Failure?;
    } else if n >= 11_405_773 {
      RefusedFrom(n);
      var freq: Table :| SumOf(freq, 256) == n && CodeLengths(freq) == Refused(InvalidSize);
      EveryTableOccurs(freq);
      assert Compressed(Spread(freq, 256)).Failure?;
    } else {
      forall input: seq<byte> | |input| == n
        ensures Compressed(input).Success?
      {
        ShortInputsCompress(input);
      }
    }
  }

  lemma EmptyIsRefused()
    ensures Compressed([]) == Failure(InvalidArg)
  {
    NoLeaves(Frequencies([]), 256);
  }

  lemma {:induction false} NoLeaves(freq: Table, n: nat)
    requires n <= 256 && forall s :: 0 <= s < 256 ==> freq[s] == 0
    ensures Leaves(freq, n) == []
  {
    if n > 0 {
      NoLeaves(freq, n - 1);
    }
  }

  /** huffman_bound with the 32-bit size_t of the target. */
  function HuffmanBound(n: u32): u32 {
    (HEADER_SIZE + (n * 32 % U32_MODULUS + 7) % U32_MODULUS / 8) % U32_MODULUS
  }

  /** The bound is the documented one exactly for inputs below 2^27 bytes; there it suffices. */
  lemma BoundSuffices(input: seq<byte>)
    requires |input| < U32_MODULUS
    ensures HuffmanBound(|input|) == HEADER_SIZE + 4 * |input| <==> |input| < 0x800_0000
    ensures Compressed(input).Success? && |input| < 0x800_0000
        ==> |Compressed(input).data| <= HuffmanBound(|input|)
  {
    hide Compressed;
    if Compressed(input).Success? {
      CompressedSize(input);
    }
  }

  /** From 2^27 bytes on the product wraps around: the bound is then just the header. */
  lemma BoundWraps()
    ensures HuffmanBound(0x800_0000) == HEADER_SIZE
  {
  }
}
