/** The main results about the code lengths: optimality among prefix codes and the 8-bit bound. */
module HuffmanTheorems {
  import opened Words
  import opened PrefixCodes
  import opened HuffmanTree
  import opened HuffmanOptimal
  import opened HuffmanLengths

  // ----- optimality among prefix codes -----

  /** A codeword per symbol, none a prefix of another among the used symbols. */
  ghost predicate IsPrefixCode(freq: Table, code: seq<seq<bit>>) {
    && |code| == 256
    && forall s, t :: 0 <= s < t < 256 && freq[s] > 0 && freq[t] > 0 ==> Incomparable(code[s], code[t])
  }

  function LengthsOf(code: seq<seq<bit>>): (ks: Table)
    requires |code| == 256
  {
    seq(256, s requires 0 <= s < 256 => |code[s]|)
  }

  ghost function UsedWords(freq: Table, code: seq<seq<bit>>, n: nat): seq<seq<bit>>
    requires |code| == 256 && n <= 256
  {
    if n == 0 then []
    else UsedWords(freq, code, n - 1) + (if freq[n - 1] == 0 then [] else [code[n - 1]])
  }

  lemma {:induction false} UsedWordsMembers(freq: Table, code: seq<seq<bit>>, n: nat)
    requires |code| == 256 && n <= 256
    ensures forall c :: c in UsedWords(freq, code, n) ==> exists s :: 0 <= s < n && freq[s] > 0 && code[s] == c
  {
    if n > 0 {
      UsedWordsMembers(freq, code, n - 1);
    }
  }

  lemma {:induction false} UsedWordsPrefixFree(freq: Table, code: seq<seq<bit>>, n: nat)
    requires IsPrefixCode(freq, code) && n <= 256
    ensures PrefixFree(UsedWords(freq, code, n))
  {
    if n > 0 {
      UsedWordsPrefixFree(freq, code, n - 1);
      UsedWordsMembers(freq, code, n - 1);
      var ws := UsedWords(freq, code, n - 1);
      if freq[n - 1] > 0 {
        forall i | 0 <= i < |ws|
          ensures Incomparable(ws[i], code[n - 1])
        {
          assert ws[i] in ws;
        }
      }
    }
  }

  lemma {:induction false} KraftSumAppend(cs: seq<seq<bit>>, c: seq<bit>, D: nat)
    requires NoLongerThan(cs, D) && |c| <= D
    ensures NoLongerThan(cs + [c], D)
    ensures KraftSum(cs + [c], D) == KraftSum(cs, D) + Pow2(D - |c|)
  {
    if cs != [] {
      assert (cs + [c])[1..] == cs[1..] + [c];
      KraftSumAppend(cs[1..], c, D);
    }
  }

  lemma KraftAppend(ls: seq<nat>, l: nat, D: nat)
    requires Below(ls, D) && l <= D
    ensures Below(ls + [l], D) && Kraft(ls + [l], D) == Kraft(ls, D) + Pow2(D - l)
  {
    DotAppend(ls, ls, 0, l, D);
  }

  lemma {:induction false} UsedKraft(freq: Table, code: seq<seq<bit>>, D: nat, n: nat)
    requires |code| == 256 && n <= 256
    requires forall s :: 0 <= s < 256 ==> |code[s]| <= D
    ensures NoLongerThan(UsedWords(freq, code, n), D)
    ensures Below(UsedLengths(freq, LengthsOf(code), n), D)
    ensures Kraft(UsedLengths(freq, LengthsOf(code), n), D) == KraftSum(UsedWords(freq, code, n), D)
  {
    if n > 0 {
      UsedKraft(freq, code, D, n - 1);
      var ws, ls := UsedWords(freq, code, n - 1), UsedLengths(freq, LengthsOf(code), n - 1);
      if freq[n - 1] > 0 {
        KraftSumAppend(ws, code[n - 1], D);
        KraftAppend(ls, |code[n - 1]|, D);
      } else {
        assert UsedWords(freq, code, n) == ws && UsedLengths(freq, LengthsOf(code), n) == ls;
      }
    }
  }

  /** The Kraft sum of a table of lengths is the one of its used lengths. */
  lemma {:induction false} TableKraftIsKraft(lens: Table, n: nat)
    requires n <= 256 && forall s :: 0 <= s < 256 ==> lens[s] <= 32
    ensures Below(UsedLengths(lens, lens, n), 32)
    ensures TableKraft(lens, n) == Kraft(UsedLengths(lens, lens, n), 32)
  {
    if n > 0 {
      TableKraftIsKraft(lens, n - 1);
      var ls := UsedLengths(lens, lens, n - 1);
      if lens[n - 1] > 0 {
        KraftAppend(ls, lens[n - 1], 32);
      } else {
        assert UsedLengths(lens, lens, n) == ls;
      }
    }
  }

  lemma {:induction false} LongestWord(code: seq<seq<bit>>) returns (D: nat)
    ensures NoLongerThan(code, D)
  {
    D := 0;
    if code != [] {
      var d := LongestWord(code[1..]);
      D := d + |code[0]|;
      assert forall i :: 1 <= i < |code| ==> code[i] == code[1..][i - 1];
    }
  }

  /** No prefix code spends fewer bits on the input than the greedy lengths do. */
  lemma OptimalAmongPrefixCodes(freq: Table, code: seq<seq<bit>>)
    requires CodeLengths(freq).Lengths? && UsedCount(freq) > 1
    requires IsPrefixCode(freq, code)
    ensures TotalBits(freq, CodeLengths(freq).lens, 256) <= TotalBits(freq, LengthsOf(code), 256)
  {
    var D := LongestWord(code);
    UsedKraft(freq, code, D, 256);
    UsedWordsPrefixFree(freq, code, 256);
    KraftInequality(UsedWords(freq, code, 256), D);
    OptimalAmongKraft(freq, LengthsOf(code), D);
  }

  // ----- at most eight bits per input byte -----

  const EIGHTS: Table := seq(256, _ => 8)

  lemma {:induction false} EightsKraft(freq: Table, n: nat)
    requires n <= 256
    ensures Below(UsedLengths(freq, EIGHTS, n), 8)
    ensures Kraft(UsedLengths(freq, EIGHTS, n), 8) <= n
  {
    if n > 0 {
      EightsKraft(freq, n - 1);
      var ls := UsedLengths(freq, EIGHTS, n - 1);
      if freq[n - 1] > 0 {
        assert UsedLengths(freq, EIGHTS, n) == ls + [8];
        KraftAppend(ls, 8, 8);
      } else {
        assert UsedLengths(freq, EIGHTS, n) == ls;
      }
    }
  }

  lemma {:induction false} EightsBits(freq: Table, n: nat)
    requires n <= 256
    ensures TotalBits(freq, EIGHTS, n) == 8 * SumOf(freq, n)
  {
    if n > 0 {
      EightsBits(freq, n - 1);
    }
  }

  lemma {:induction false} OneSymbolBits(freq: Table, lens: Table, n: nat)
    requires n <= 256
    requires forall s :: 0 <= s < 256 ==> lens[s] <= 1
    ensures TotalBits(freq, lens, n) <= SumOf(freq, n)
  {
    if n > 0 {
      OneSymbolBits(freq, lens, n - 1);
      MulMonotone(lens[n - 1], 1, freq[n - 1]);
    }
  }

  /** The bitstream never takes more than eight bits per input byte. */
  lemma AtMostEightBitsPerByte(freq: Table)
    requires CodeLengths(freq).Lengths?
    ensures TotalBits(freq, CodeLengths(freq).lens, 256) <= 8 * SumOf(freq, 256)
  {
    if UsedCount(freq) == 1 {
      OneSymbolBits(freq, CodeLengths(freq).lens, 256);
    } else {
      EightsKraft(freq, 256);
      Pow2Values();
      OptimalAmongKraft(freq, EIGHTS, 8);
      EightsBits(freq, 256);
    }
  }
}
