/** How many trie nodes a complete canonical code needs: 2n - 1 for n symbols, so at most 511. */
module TrieSize {
  import opened Words
  import opened BitStrings
  import opened HuffmanTree
  import opened HuffmanLengths
  import opened CanonicalCodes
  import opened DecodeTrie

  /** The codes are the canonical ones of the lengths, as both ends of the codec compute them. */
  ghost predicate AreCanonical(lens: Table, codes: Codes) {
    forall s: byte :: codes[s] == if lens[s] == 0 then 0 else CanonicalCode(lens, s) % U32_MODULUS
  }

  /** Cutting the code to 32 bits does not change the codeword's bits. */
  lemma CanonicalWord(lens: Table, codes: Codes, s: byte)
    requires AreCanonical(lens, codes) && 0 < lens[s] <= 32
    ensures Word(lens, codes, s) == Codeword(lens, s)
  {
    hide CanonicalCode, Pow2, BitStrings.Bits;
    Pow2Values();
    BitsMod(CanonicalCode(lens, s), 32, lens[s]);
  }

  // ----- the tree levels -----

  /** The places left on level d once the shorter codewords are in. */
  function Room(lens: Table, d: nat): int {
    Pow2(d) - FirstCode(lens, d)
  }

  lemma RoomNotNegative(lens: Table, d: nat)
    requires d <= 32 && TableKraft(lens, 256) <= Pow2(32)
    ensures Room(lens, d) >= 0
  {
    if d > 0 {
      FirstCodeInterval(lens, d);
      BeforeWithinKraft(lens, d, 0, 256);
      Pow2Add(d, 32 - d);
      hide Pow2, FirstCode, Before, TableKraft;
      if FirstCode(lens, d) > Pow2(d) {
        MulStrict(Pow2(d), FirstCode(lens, d), Pow2(32 - d));
      }
    }
  }

  /** Used symbols of length at most d. */
  function UpTo(lens: Table, d: nat): nat {
    if d == 0 then 0 else UpTo(lens, d - 1) + LengthCount(lens, d, 256)
  }

  function RoomSum(lens: Table, d: nat): int {
    if d == 0 then Room(lens, 0) else RoomSum(lens, d - 1) + Room(lens, d)
  }

  /** Places on the levels up to d: twice those above, less two for each codeword. */
  lemma {:induction false} RoomRecurrence(lens: Table, d: nat)
    ensures RoomSum(lens, d) == 1 + 2 * (RoomSum(lens, d) - Room(lens, d)) - 2 * (UpTo(lens, d) - CountAt(lens, d))
  {
    if d > 0 {
      RoomRecurrence(lens, d - 1);
    }
  }

  function CountAt(lens: Table, d: nat): nat {
    if d == 0 then 0 else LengthCount(lens, d, 256)
  }

  /** With Kraft equality the last level is used up. */
  lemma LastLevelFull(lens: Table)
    requires ValidLengths(lens) && TableKraft(lens, 256) == Pow2(32)
    ensures Room(lens, 32) == LengthCount(lens, 32, 256)
  {
    hide FirstCode, LengthCount, Before, TableKraft;
    FirstCodeInterval(lens, 32);
    BeforeNextLength(lens, 32, 256);
    BeforeEverything(lens, 256);
  }

  lemma {:induction false} BeforeEverything(lens: Table, n: nat)
    requires ValidLengths(lens) && n <= 256
    ensures Before(lens, 33, 0, n) == TableKraft(lens, n)
  {
    if n > 0 {
      BeforeEverything(lens, n - 1);
    }
  }

  // ----- counting symbols -----

  function UsedBelow(lens: Table, n: nat): (r: nat)
    requires n <= 256
    ensures r <= n
  {
    if n == 0 then 0 else UsedBelow(lens, n - 1) + (if lens[n - 1] > 0 then 1 else 0)
  }

  function ShortBelow(lens: Table, d: nat, n: nat): nat
    requires n <= 256
  {
    if n == 0 then 0 else ShortBelow(lens, d, n - 1) + (if 0 < lens[n - 1] <= d then 1 else 0)
  }

  lemma {:induction false} ShortStep(lens: Table, d: nat, n: nat)
    requires n <= 256 && d > 0
    ensures ShortBelow(lens, d, n) == ShortBelow(lens, d - 1, n) + LengthCount(lens, d, n)
  {
    if n > 0 {
      ShortStep(lens, d, n - 1);
    }
  }

  lemma {:induction false} ShortOfNoLength(lens: Table, n: nat)
    requires n <= 256
    ensures ShortBelow(lens, 0, n) == 0
  {
    if n > 0 {
      ShortOfNoLength(lens, n - 1);
    }
  }

  lemma {:induction false} UpToIsShort(lens: Table, d: nat)
    ensures UpTo(lens, d) == ShortBelow(lens, d, 256)
  {
    if d == 0 {
      ShortOfNoLength(lens, 256);
    } else {
      UpToIsShort(lens, d - 1);
      ShortStep(lens, d, 256);
    }
  }

  lemma {:induction false} AllAreShort(lens: Table, n: nat)
    requires n <= 256 && ValidLengths(lens)
    ensures ShortBelow(lens, 32, n) == UsedBelow(lens, n)
  {
    if n > 0 {
      AllAreShort(lens, n - 1);
    }
  }

  /** A complete code with n symbols has 2n - 1 places in its tree. */
  lemma PlacesOfCompleteCode(lens: Table)
    requires ValidLengths(lens) && TableKraft(lens, 256) == Pow2(32)
    ensures RoomSum(lens, 32) == 2 * UsedBelow(lens, 256) - 1
  {
    hide Room, LengthCount, ShortBelow, UpTo, TableKraft, RoomSum, Pow2;
    RoomRecurrence(lens, 32);
    LastLevelFull(lens);
    UpToIsShort(lens, 32);
    AllAreShort(lens, 256);
  }

  // ----- prefixes sit in those places -----

  /** The bit strings of length d that denote numbers from lo to below hi. */
  ghost function Level(lo: nat, hi: nat, d: nat): set<seq<bit>> {
    if hi <= lo then {} else Level(lo, hi - 1, d) + {Bits(hi - 1, d)}
  }

  lemma {:induction false} LevelSize(lo: nat, hi: nat, d: nat)
    requires lo <= hi <= Pow2(d)
    ensures |Level(lo, hi, d)| == hi - lo
  {
    if hi > lo {
      LevelSize(lo, hi - 1, d);
      if Bits(hi - 1, d) in Level(lo, hi - 1, d) {
        var v := LevelNumber(lo, hi - 1, d, Bits(hi - 1, d));
        BitsInjective(v, hi - 1, d);
      }
    }
  }

  lemma {:induction false} LevelNumber(lo: nat, hi: nat, d: nat, p: seq<bit>) returns (v: nat)
    requires p in Level(lo, hi, d)
    ensures lo <= v < hi && p == Bits(v, d)
  {
    if p == Bits(hi - 1, d) {
      v := hi - 1;
    } else {
      v := LevelNumber(lo, hi - 1, d, p);
    }
  }

  lemma {:induction false} LevelMember(lo: nat, hi: nat, d: nat, v: nat)
    requires lo <= v < hi
    ensures Bits(v, d) in Level(lo, hi, d)
  {
    if v < hi - 1 {
      LevelMember(lo, hi - 1, d, v);
    }
  }

  ghost function Levels(lens: Table, d: nat): set<seq<bit>> {
    if d == 0 then Level(0, 1, 0)
    else Levels(lens, d - 1) + Level(FirstCode(lens, d), Pow2(d), d)
  }

  lemma {:induction false} LevelsLength(lens: Table, d: nat, p: seq<bit>)
    requires p in Levels(lens, d)
    ensures |p| <= d
  {
    if d == 0 {
      var v := LevelNumber(0, 1, 0, p);
    } else if p in Levels(lens, d - 1) {
      LevelsLength(lens, d - 1, p);
    } else {
      var v := LevelNumber(FirstCode(lens, d), Pow2(d), d, p);
    }
  }

  lemma {:induction false} LevelsSize(lens: Table, d: nat)
    requires d <= 32 && TableKraft(lens, 256) <= Pow2(32)
    ensures |Levels(lens, d)| == RoomSum(lens, d)
  {
    hide TableKraft, FirstCode;
    RoomNotNegative(lens, d);
    if d == 0 {
      LevelSize(0, 1, 0);
      NoFirstCode(lens);
    } else {
      LevelsSize(lens, d - 1);
      LevelSize(FirstCode(lens, d), Pow2(d), d);
      forall p | p in Levels(lens, d - 1)
        ensures p !in Level(FirstCode(lens, d), Pow2(d), d)
      {
        LevelsLength(lens, d - 1, p);
        if p in Level(FirstCode(lens, d), Pow2(d), d) {
          var v := LevelNumber(FirstCode(lens, d), Pow2(d), d, p);
        }
      }
    }
  }

  lemma NoFirstCode(lens: Table)
    ensures FirstCode(lens, 0) == 0
  {
  }

  lemma {:induction false} FirstCodeGrows(lens: Table, d: nat, l: nat)
    requires d <= l
    ensures FirstCode(lens, d) * Pow2(l - d) <= FirstCode(lens, l)
    decreases l - d
  {
    if d < l {
      FirstCodeGrows(lens, d, l - 1);
      Double(FirstCode(lens, d), Pow2(l - 1 - d));
    }
  }

  lemma {:induction false} LevelInLevels(lens: Table, m: nat, d: nat, p: seq<bit>)
    requires m <= d
    requires p in if m == 0 then Level(0, 1, 0) else Level(FirstCode(lens, m), Pow2(m), m)
    ensures p in Levels(lens, d)
  {
    if m < d {
      LevelInLevels(lens, m, d - 1, p);
    }
  }

  lemma QuotientBounds(c: nat, f: nat, q: nat, p: nat)
    requires p > 0 && f * p <= c < q * p
    ensures f <= c / p < q
  {
    assert c == p * (c / p) + c % p;
    if c / p < f {
      MulMonotone(c / p + 1, f, p);
    }
    if c / p >= q {
      MulMonotone(q, c / p, p);
    }
  }

  /** Every prefix of a canonical codeword has its place on its level. */
  lemma PrefixHasPlace(lens: Table, codes: Codes, s: byte, k: nat)
    requires AreCanonical(lens, codes) && TableKraft(lens, 256) <= Pow2(32)
    requires 0 < lens[s] <= 32 && k <= lens[s]
    ensures Word(lens, codes, s)[..k] in Levels(lens, 32)
  {
    hide Levels, TableKraft, FirstCode, Pow2, BitStrings.Bits, LengthCount;
    CanonicalWord(lens, codes, s);
    var l := lens[s];
    var code := CanonicalCode(lens, s);
    BitsPrefix(code, k, l - k);
    FirstCodeGrows(lens, k, l);
    CodeFits(lens, s);
    Pow2Add(k, l - k);
    QuotientBounds(code, FirstCode(lens, k), Pow2(k), Pow2(l - k));
    if k == 0 {
      EmptyHasPlace(lens);
      assert Word(lens, codes, s)[..0] == [];
    } else {
      LevelMember(FirstCode(lens, k), Pow2(k), k, code / Pow2(l - k));
      LevelInLevels(lens, k, 32, Word(lens, codes, s)[..k]);
    }
  }

  lemma EmptyHasPlace(lens: Table)
    ensures [] in Levels(lens, 32)
  {
    LevelMember(0, 1, 0, 0);
    LevelInLevels(lens, 0, 32, []);
  }

  lemma {:induction false} PrefixesHavePlaces(lens: Table, codes: Codes, n: nat)
    requires AreCanonical(lens, codes) && TableKraft(lens, 256) <= Pow2(32) && ValidLengths(lens)
    requires n <= 256
    ensures PrefixSet(lens, codes, n) <= Levels(lens, 32)
  {
    hide TableKraft, Levels, CanonicalCode;
    EmptyHasPlace(lens);
    if n > 0 {
      PrefixesHavePlaces(lens, codes, n - 1);
      forall p | p in PrefixesOf(lens, codes, n - 1, lens[n - 1])
        ensures p in Levels(lens, 32)
      {
        var k :| 0 <= k <= lens[n - 1] && p == Word(lens, codes, n - 1)[..k];
        PrefixHasPlace(lens, codes, n - 1, k);
      }
    }
  }

  // ----- and every place is a prefix -----

  /** Each rank below the count of a length belongs to a symbol. */
  lemma {:induction false} RankedSymbol(lens: Table, l: nat, n: nat, r: nat) returns (s: byte)
    requires n <= 256 && r < LengthCount(lens, l, n)
    ensures s < n && lens[s] == l && LengthCount(lens, l, s) == r
  {
    if lens[n - 1] == l && LengthCount(lens, l, n - 1) == r {
      s := n - 1;
    } else {
      s := RankedSymbol(lens, l, n - 1, r);
    }
  }

  lemma {:induction false} PrefixSetClosed(lens: Table, codes: Codes, n: nat, p: seq<bit>, k: nat)
    requires n <= 256 && p in PrefixSet(lens, codes, n) && k <= |p|
    ensures p[..k] in PrefixSet(lens, codes, n)
  {
    if n == 0 {
      assert p[..k] == [];
    } else if p in PrefixSet(lens, codes, n - 1) {
      PrefixSetClosed(lens, codes, n - 1, p, k);
    } else {
      var w := Word(lens, codes, n - 1);
      var i :| 0 <= i <= lens[n - 1] && p == w[..i];
      assert p[..k] == w[..k];
    }
  }

  lemma WordIsPrefix(lens: Table, codes: Codes, s: byte)
    requires lens[s] > 0
    ensures Word(lens, codes, s) in PrefixSet(lens, codes, 256)
  {
    var w := Word(lens, codes, s);
    assert w[..lens[s]] == w;
    assert w in PrefixSet(lens, codes, s + 1);
    PrefixSetGrows(lens, codes, s + 1, 256);
  }

  /** A place on level d is a codeword, or its left child is a place on the next level. */
  lemma {:induction false} PlaceIsPrefix(lens: Table, codes: Codes, d: nat, v: nat)
    requires AreCanonical(lens, codes) && ValidLengths(lens) && TableKraft(lens, 256) == Pow2(32)
    requires d <= 32 && FirstCode(lens, d) <= v < Pow2(d)
    ensures Bits(v, d) in PrefixSet(lens, codes, 256)
    decreases 32 - d
  {
    hide TableKraft, PrefixSet, LengthCount, Word, AreCanonical, ValidLengths;
    if d == 32 {
      LastLevelFull(lens);
    }
    var r := v - FirstCode(lens, d);
    if d > 0 && r < LengthCount(lens, d, 256) {
      var s := RankedSymbol(lens, d, 256, r);
      CanonicalWord(lens, codes, s);
      WordIsPrefix(lens, codes, s);
    } else {
      PlaceIsPrefix(lens, codes, d + 1, 2 * v);
      PrefixSetClosed(lens, codes, 256, Bits(2 * v, d + 1), d);
      assert Bits(2 * v, d + 1) == Bits(v, d) + [0];
    }
  }

  lemma {:induction false} PlacesArePrefixes(lens: Table, codes: Codes, d: nat)
    requires AreCanonical(lens, codes) && ValidLengths(lens) && TableKraft(lens, 256) == Pow2(32) && d <= 32
    ensures Levels(lens, d) <= PrefixSet(lens, codes, 256)
  {
    hide TableKraft, PrefixSet, LengthCount, FirstCode, Pow2;
    if d > 0 {
      PlacesArePrefixes(lens, codes, d - 1);
    }
    forall p | p in Levels(lens, d)
      ensures p in PrefixSet(lens, codes, 256)
    {
      if d == 0 {
        PrefixSetGrows(lens, codes, 0, 256);
        var v := LevelNumber(0, 1, 0, p);
      } else if p !in Levels(lens, d - 1) {
        var v := LevelNumber(FirstCode(lens, d), Pow2(d), d, p);
        PlaceIsPrefix(lens, codes, d, v);
      }
    }
  }

  /** The trie of a complete canonical code has exactly 2n - 1 nodes. */
  lemma CompleteTrieSize(lens: Table, codes: Codes)
    requires AreCanonical(lens, codes) && ValidLengths(lens) && TableKraft(lens, 256) == Pow2(32)
    ensures |PrefixSet(lens, codes, 256)| == 2 * UsedBelow(lens, 256) - 1 <= 511
  {
    hide TableKraft, PrefixSet, Levels, RoomSum, UsedBelow, CanonicalCode, Pow2;
    PrefixesHavePlaces(lens, codes, 256);
    PlacesArePrefixes(lens, codes, 32);
    assert PrefixSet(lens, codes, 256) == Levels(lens, 32);
    LevelsSize(lens, 32);
    PlacesOfCompleteCode(lens);
  }

  /** The trie of a single one-bit codeword has two nodes. */
  lemma {:induction false} OneSymbolTrieSize(lens: Table, codes: Codes, s: byte, n: nat)
    requires lens[s] == 1 && n <= 256
    requires forall t: byte :: t != s ==> lens[t] == 0
    ensures PrefixSet(lens, codes, n) == if s < n then {[], Word(lens, codes, s)} else {[]}
  {
    if n > 0 {
      OneSymbolTrieSize(lens, codes, s, n - 1);
      if n - 1 == s {
        var w := Word(lens, codes, s);
        assert w[..0] == [] && w[..1] == w;
        assert PrefixesOf(lens, codes, s, 1) == {w[..0], w[..1]};
      }
    }
  }

  /** The decode trie of any table the encoder writes fits the 2048-node array. */
  lemma EncoderTrieFits(freq: Table, codes: Codes)
    requires CodeLengths(freq).Lengths? && AreCanonical(CodeLengths(freq).lens, codes)
    ensures |PrefixSet(CodeLengths(freq).lens, codes, 256)| <= 511
  {
    hide CodeLengths, UsedCount, PrefixSet, CanonicalCode, Pow2;
    var lens := CodeLengths(freq).lens;
    forall s | 0 <= s < 256
      ensures lens[s] <= 32
    {
      UsedSymbolsGetCodes(freq, s);
    }
    KraftEquality(freq);
    if UsedCount(freq) > 1 || UsedCount(freq) == 0 {
      CompleteTrieSize(lens, codes);
    } else {
      var s := TheOneSymbol(freq);
      OneSymbolTrieSize(lens, codes, s, 256);
    }
  }

  lemma TheOneSymbol(freq: Table) returns (s: byte)
    requires CodeLengths(freq).Lengths? && UsedCount(freq) == 1
    ensures CodeLengths(freq).lens[s] == 1
    ensures forall t: byte :: t != s ==> CodeLengths(freq).lens[t] == 0
  {
    LeavesFacts(freq, 256, 0);
    assert Leaves(freq, 256)[0] in Leaves(freq, 256);
    s := Leaves(freq, 256)[0].sym;
    forall t: byte
      ensures freq[t] > 0 <==> t == s
    {
      LeavesFacts(freq, 256, t);
      assert Leaves(freq, 256)[1..] == [];
    }
  }
}
