/**
 build_canonical_codes: sorting by (length, symbol), shifting and counting, proved
 to give the code of section 3.2.2 of RFC 1951, and that code's prefix property.
 */
module CanonicalCodes {
  import opened Words
  import opened BitStrings
  import opened PrefixCodes
  import opened HuffmanLengths

  // ----- the code of RFC 1951 -----

  /** How many symbols below n have length l. */
  function LengthCount(lens: Table, l: nat, n: nat): nat
    requires n <= 256
  {
    if n == 0 then 0 else LengthCount(lens, l, n - 1) + (if lens[n - 1] == l then 1 else 0)
  }

  /** The numerically smallest code of length l (step 2 of the RFC's algorithm). */
  function FirstCode(lens: Table, l: nat): nat {
    if l == 0 then 0
    else 2 * (FirstCode(lens, l - 1) + (if l == 1 then 0 else LengthCount(lens, l - 1, 256)))
  }

  /** The code of symbol s: consecutive values within a length, in symbol order (step 3). */
  function CanonicalCode(lens: Table, s: byte): nat {
    FirstCode(lens, lens[s]) + LengthCount(lens, lens[s], s)
  }

  /** The codeword as bits; meaningful for used symbols. */
  function Codeword(lens: Table, s: byte): (c: seq<bit>)
    ensures |c| == lens[s]
  {
    Bits(CanonicalCode(lens, s), lens[s])
  }

  ghost predicate ValidLengths(lens: Table) {
    forall s :: 0 <= s < 256 ==> lens[s] <= 32
  }

  // ----- the interval of code space a codeword owns -----

  /** The shares of the used symbols below n that precede (l, s) in the (length, symbol) order. */
  function Before(lens: Table, l: nat, s: nat, n: nat): nat
    requires n <= 256
  {
    if n == 0 then 0
    else Before(lens, l, s, n - 1)
         + (if lens[n - 1] < l || (lens[n - 1] == l && n - 1 < s) then Share(lens[n - 1]) else 0)
  }

  lemma {:induction false} BeforeNextLength(lens: Table, l: nat, n: nat)
    requires 1 <= l <= 32 && n <= 256
    ensures Before(lens, l + 1, 0, n) == Before(lens, l, 0, n) + LengthCount(lens, l, n) * Pow2(32 - l)
  {
    if n > 0 {
      BeforeNextLength(lens, l, n - 1);
      if lens[n - 1] == l {
        OneMore(LengthCount(lens, l, n - 1), Pow2(32 - l));
      }
    }
  }

  lemma OneMore(k: nat, p: nat)
    ensures (k + 1) * p == k * p + p
  {
  }

  lemma {:induction false} BeforeNothing(lens: Table, l: nat, n: nat)
    requires l <= 1 && n <= 256
    ensures Before(lens, l, 0, n) == 0
  {
    if n > 0 {
      BeforeNothing(lens, l, n - 1);
    }
  }

  /** The symbols shorter than l fill the code space up to the first code of length l. */
  lemma {:induction false} FirstCodeInterval(lens: Table, l: nat)
    requires 1 <= l <= 32
    ensures Before(lens, l, 0, 256) == FirstCode(lens, l) * Pow2(32 - l)
  {
    if l == 1 {
      BeforeNothing(lens, 1, 256);
    } else {
      FirstCodeInterval(lens, l - 1);
      BeforeNextLength(lens, l - 1, 256);
      Regroup(FirstCode(lens, l - 1), LengthCount(lens, l - 1, 256), Pow2(32 - l));
    }
  }

  lemma Regroup(a: nat, b: nat, p: nat)
    ensures a * (2 * p) + b * (2 * p) == 2 * (a + b) * p
  {
  }

  lemma {:induction false} BeforeRank(lens: Table, l: nat, s: nat, n: nat)
    requires 1 <= l <= 32 && n <= 256 && s <= 256
    ensures Before(lens, l, s, n)
         == Before(lens, l, 0, n) + LengthCount(lens, l, Min(s, n)) * Pow2(32 - l)
  {
    if n > 0 {
      BeforeRank(lens, l, s, n - 1);
      if lens[n - 1] == l && n - 1 < s {
        OneMore(LengthCount(lens, l, n - 1), Pow2(32 - l));
      }
    }
  }

  /** The RFC code of a used symbol marks the start of its interval. */
  lemma CodeInterval(lens: Table, s: byte)
    requires 1 <= lens[s] <= 32
    ensures Before(lens, lens[s], s, 256) == CanonicalCode(lens, s) * Pow2(32 - lens[s])
  {
    hide FirstCode, LengthCount, Before, Pow2;
    FirstCodeInterval(lens, lens[s]);
    BeforeRank(lens, lens[s], s, 256);
    Distribute(Pow2(32 - lens[s]), FirstCode(lens, lens[s]), LengthCount(lens, lens[s], s));
  }

  /** The next interval starts where this one ends, or later; all end inside the Kraft sum. */
  lemma {:induction false} IntervalEnds(lens: Table, s: byte, l: nat, t: nat, n: nat)
    requires n <= 256 && 1 <= lens[s] <= 32
    requires lens[s] < l || (lens[s] == l && s < t)
    ensures Before(lens, lens[s], s, n) + (if s < n then Share(lens[s]) else 0) <= Before(lens, l, t, n)
  {
    if n > 0 {
      IntervalEnds(lens, s, l, t, n - 1);
    }
  }

  lemma {:induction false} BeforeWithinKraft(lens: Table, l: nat, s: nat, n: nat)
    requires n <= 256
    ensures Before(lens, l, s, n) <= TableKraft(lens, n)
  {
    if n > 0 {
      BeforeWithinKraft(lens, l, s, n - 1);
    }
  }

  /** Under Kraft's inequality every code fits its length, so no shift loses a bit. */
  lemma CodeFits(lens: Table, s: byte)
    requires 1 <= lens[s] <= 32 && TableKraft(lens, 256) <= Pow2(32)
    ensures CanonicalCode(lens, s) < Pow2(lens[s])
    ensures CanonicalCode(lens, s) < U32_MODULUS
    ensures Value(Codeword(lens, s)) == CanonicalCode(lens, s)
  {
    hide CanonicalCode, Before, TableKraft, Pow2;
    var l := lens[s];
    CodeInterval(lens, s);
    IntervalEnds(lens, s, 33, 0, 256);
    BeforeWithinKraft(lens, 33, 0, 256);
    Pow2Add(l, 32 - l);
    if CanonicalCode(lens, s) >= Pow2(l) {
      MulMonotone(Pow2(l), CanonicalCode(lens, s), Pow2(32 - l));
    }
    Pow2Monotone(l, 32);
    Pow2Values();
    ValueOfBits(CanonicalCode(lens, s), l);
  }

  /** Under Kraft's inequality no codeword is a prefix of another. */
  lemma CodewordsIncomparable(lens: Table, s: byte, t: byte)
    requires 1 <= lens[s] <= 32 && 1 <= lens[t] <= 32 && s != t
    requires TableKraft(lens, 256) <= Pow2(32)
    ensures Incomparable(Codeword(lens, s), Codeword(lens, t))
  {
    if lens[s] < lens[t] || (lens[s] == lens[t] && s < t) {
      EarlierIsNoPrefix(lens, s, t);
    } else {
      EarlierIsNoPrefix(lens, t, s);
    }
  }

  lemma EarlierIsNoPrefix(lens: Table, s: byte, t: byte)
    requires 1 <= lens[s] <= 32 && 1 <= lens[t] <= 32
    requires lens[s] < lens[t] || (lens[s] == lens[t] && s < t)
    requires TableKraft(lens, 256) <= Pow2(32)
    ensures Incomparable(Codeword(lens, s), Codeword(lens, t))
  {
    hide CanonicalCode, Before, TableKraft, Pow2, Value, Bits;
    var a, b := lens[s], lens[t];
    CodeInterval(lens, s);
    CodeInterval(lens, t);
    IntervalEnds(lens, s, b, t, 256);
    CodeFits(lens, s);
    CodeFits(lens, t);
    OneMore(CanonicalCode(lens, s), Pow2(32 - a));
    Pow2Add(b - a, 32 - b);
    if Codeword(lens, s) <= Codeword(lens, t) {
      PrefixInterval(Codeword(lens, s), Codeword(lens, t));
      Cancel(CanonicalCode(lens, s) + 1, Pow2(b - a), CanonicalCode(lens, t), Pow2(32 - b));
    }
  }

  lemma Cancel(c: nat, q: nat, d: nat, p: nat)
    requires p > 0 && c * (q * p) <= d * p
    ensures c * q <= d
  {
    if c * q > d {
      MulMonotone(d + 1, c * q, p);
      Assoc(c, q, p);
    }
  }

  lemma Assoc(c: nat, q: nat, p: nat)
    ensures c * (q * p) == c * q * p
  {
  }

  // ----- build_canonical_codes -----

  datatype SymLen = SymLen(sym: byte, len: nat)

  /** cmp_sym_len: negative, zero or positive, as C's qsort wants it. */
  function CmpSymLen(x: SymLen, y: SymLen): int {
    if x.len != y.len then x.len - y.len else x.sym - y.sym
  }

  predicate Ordered(list: seq<SymLen>) {
    forall i, j :: 0 <= i < j < |list| ==> CmpSymLen(list[i], list[j]) < 0
  }

  function Insert(list: seq<SymLen>, x: SymLen): (r: seq<SymLen>)
    ensures |r| == |list| + 1
  {
    if list == [] || CmpSymLen(x, list[0]) < 0 then [x] + list
    else [list[0]] + Insert(list[1..], x)
  }

  /** The library's qsort on a list; any correct sort returns this list (see SortIsUnique). */
  function Sorted(list: seq<SymLen>): (r: seq<SymLen>)
    ensures |r| == |list|
  {
    if list == [] then [] else Insert(Sorted(list[..|list| - 1]), list[|list| - 1])
  }

  lemma {:induction false} InsertMembers(list: seq<SymLen>, x: SymLen)
    ensures forall y :: y in Insert(list, x) <==> y == x || y in list
  {
    if list == [] || CmpSymLen(x, list[0]) < 0 {
    } else {
      InsertMembers(list[1..], x);
      assert list == [list[0]] + list[1..];
    }
  }

  lemma {:induction false} InsertOrdered(list: seq<SymLen>, x: SymLen)
    requires Ordered(list) && x !in list
    ensures Ordered(Insert(list, x))
  {
    if list == [] || CmpSymLen(x, list[0]) < 0 {
    } else {
      InsertOrdered(list[1..], x);
      InsertMembers(list[1..], x);
      var tail := Insert(list[1..], x);
      forall j | 0 <= j < |tail|
        ensures CmpSymLen(list[0], tail[j]) < 0
      {
        assert tail[j] in tail;
      }
    }
  }

  predicate Distinct(list: seq<SymLen>) {
    forall i, j :: 0 <= i < j < |list| ==> list[i] != list[j]
  }

  lemma {:induction false} SortedIsOrdered(list: seq<SymLen>)
    requires Distinct(list)
    ensures Ordered(Sorted(list))
    ensures forall y :: y in Sorted(list) <==> y in list
  {
    if list != [] {
      var front, x := list[..|list| - 1], list[|list| - 1];
      SortedIsOrdered(front);
      InsertOrdered(Sorted(front), x);
      InsertMembers(Sorted(front), x);
      assert list == front + [x];
    }
  }

  /** An ordered list is determined by its members: whatever algorithm qsort uses, it returns this one. */
  lemma {:induction false} SortIsUnique(a: seq<SymLen>, b: seq<SymLen>)
    requires Ordered(a) && Ordered(b) && |a| == |b|
    requires forall y :: y in a <==> y in b
    ensures a == b
  {
    if a != [] {
      assert a[0] in b && b[0] in a;
      assert a[0] == b[0];
      forall y
        ensures y in a[1..] <==> y in b[1..]
      {
        assert y in a <==> y == a[0] || y in a[1..];
        assert y in b <==> y == b[0] || y in b[1..];
        assert a[0] !in a[1..] && b[0] !in b[1..];
      }
      SortIsUnique(a[1..], b[1..]);
    }
  }

  // ----- code space in front of a list entry -----

  /** The shares of the list entries in front of x. */
  function ListBefore(list: seq<SymLen>, x: SymLen): nat {
    if list == [] then 0
    else ListBefore(list[..|list| - 1], x)
         + (if CmpSymLen(list[|list| - 1], x) < 0 then Share(list[|list| - 1].len) else 0)
  }

  lemma {:induction false} ListBeforeConcat(a: seq<SymLen>, b: seq<SymLen>, x: SymLen)
    ensures ListBefore(a + b, x) == ListBefore(a, x) + ListBefore(b, x)
  {
    if b == [] {
      assert a + b == a;
    } else {
      assert (a + b)[..|a + b| - 1] == a + b[..|b| - 1];
      ListBeforeConcat(a, b[..|b| - 1], x);
    }
  }

  lemma {:induction false} InsertKeepsBefore(list: seq<SymLen>, y: SymLen, x: SymLen)
    ensures ListBefore(Insert(list, y), x) == ListBefore(list + [y], x)
  {
    ListBeforeConcat(list, [y], x);
    if list == [] || CmpSymLen(y, list[0]) < 0 {
      ListBeforeConcat([y], list, x);
    } else {
      InsertKeepsBefore(list[1..], y, x);
      ListBeforeConcat(list[1..], [y], x);
      ListBeforeConcat([list[0]], Insert(list[1..], y), x);
      ListBeforeConcat([list[0]], list[1..], x);
      assert list == [list[0]] + list[1..];
    }
  }

  lemma {:induction false} SortKeepsBefore(list: seq<SymLen>, x: SymLen)
    ensures ListBefore(Sorted(list), x) == ListBefore(list, x)
  {
    if list != [] {
      var front, y := list[..|list| - 1], list[|list| - 1];
      SortKeepsBefore(front, x);
      InsertKeepsBefore(Sorted(front), y, x);
      ListBeforeConcat(Sorted(front), [y], x);
      ListBeforeConcat(front, [y], x);
      assert list == front + [y];
    }
  }

  /** In an ordered list the shares in front of entry i are those of the first i entries. */
  function PrefixShares(list: seq<SymLen>, i: nat): nat
    requires i <= |list|
  {
    if i == 0 then 0 else PrefixShares(list, i - 1) + Share(list[i - 1].len)
  }

  lemma OrderedCmp(list: seq<SymLen>, j: nat, i: nat)
    requires Ordered(list) && i < |list| && j < |list|
    ensures CmpSymLen(list[j], list[i]) < 0 <==> j < i
  {
    if j > i {
      assert CmpSymLen(list[i], list[j]) < 0;
    }
  }

  lemma {:induction false} OrderedBefore(list: seq<SymLen>, i: nat, n: nat)
    requires Ordered(list) && i < |list| && n <= |list|
    ensures ListBefore(list[..n], list[i]) == PrefixShares(list, Min(i, n))
  {
    if n == 0 {
      assert ListBefore([], list[i]) == 0;
    } else {
      hide ListBefore, Ordered, CmpSymLen, Share, PrefixShares;
      OrderedBefore(list, i, n - 1);
      assert list[..n] == list[..n - 1] + [list[n - 1]];
      ListBeforeAppend(list[..n - 1], list[n - 1], list[i]);
      OrderedCmp(list, n - 1, i);
      PrefixSharesStep(list, i, n);
    }
  }

  lemma PrefixSharesStep(list: seq<SymLen>, i: nat, n: nat)
    requires i < |list| && 0 < n <= |list|
    ensures PrefixShares(list, Min(i, n))
         == PrefixShares(list, Min(i, n - 1)) + (if n - 1 < i then Share(list[n - 1].len) else 0)
  {
  }

  /** The used symbols below n with their lengths, in symbol order. */
  function UsedList(lens: Table, n: nat): (list: seq<SymLen>)
    requires n <= 256
    ensures |list| <= n
    ensures forall x :: x in list ==> x.sym < n && lens[x.sym] == x.len > 0
    ensures forall s :: 0 <= s < n && lens[s] > 0 ==> SymLen(s, lens[s]) in list
    ensures Distinct(list)
  {
    if n == 0 then []
    else UsedList(lens, n - 1) + (if lens[n - 1] == 0 then [] else [SymLen(n - 1, lens[n - 1])])
  }

  lemma ListBeforeAppend(list: seq<SymLen>, y: SymLen, x: SymLen)
    ensures ListBefore(list + [y], x) == ListBefore(list, x) + (if CmpSymLen(y, x) < 0 then Share(y.len) else 0)
  {
    assert (list + [y])[..|list|] == list;
  }

  lemma UsedListStep(lens: Table, n: nat)
    requires n < 256
    ensures UsedList(lens, n + 1)
         == if lens[n] == 0 then UsedList(lens, n) else UsedList(lens, n) + [SymLen(n, lens[n])]
  {
  }

  lemma {:induction false} UsedListBefore(lens: Table, s: byte, n: nat)
    requires n <= 256
    ensures ListBefore(UsedList(lens, n), SymLen(s, lens[s])) == Before(lens, lens[s], s, n)
  {
    if n == 0 {
      assert ListBefore([], SymLen(s, lens[s])) == 0;
    } else {
      hide ListBefore, UsedList;
      UsedListBefore(lens, s, n - 1);
      UsedListStep(lens, n - 1);
      if lens[n - 1] > 0 {
        ListBeforeAppend(UsedList(lens, n - 1), SymLen(n - 1, lens[n - 1]), SymLen(s, lens[s]));
      }
    }
  }

  /** Entry i of the sorted list has its code interval right behind the first i entries. */
  lemma SortedInterval(lens: Table, i: nat)
    requires ValidLengths(lens) && i < |UsedList(lens, 256)|
    ensures var list := Sorted(UsedList(lens, 256));
            && 1 <= list[i].len <= 32 && list[i].len == lens[list[i].sym]
            && PrefixShares(list, i) == CanonicalCode(lens, list[i].sym) * Pow2(32 - list[i].len)
  {
    hide CanonicalCode, Before, ListBefore, PrefixShares, Sorted, UsedList;
    var used := UsedList(lens, 256);
    var list := Sorted(used);
    SortedIsOrdered(used);
    assert list[i] in list;
    var s := list[i].sym;
    OrderedBefore(list, i, |list|);
    assert list[..|list|] == list;
    SortKeepsBefore(used, list[i]);
    UsedListBefore(lens, s, 256);
    CodeInterval(lens, s);
  }

  /** The running code in front of entry i is the wrapped ideal code, scaled to length len. */
  ghost predicate Running(list: seq<SymLen>, i: nat, len: nat, code: u32, ideal: nat) {
    && i <= |list| && 1 <= len <= 32
    && code == ideal % U32_MODULUS
    && ideal * Pow2(32 - len) == PrefixShares(list, i)
  }

  /** Shifting to a longer length keeps the running code. */
  lemma ShiftRunning(list: seq<SymLen>, i: nat, prev: nat, l: nat, code: u32, ideal: nat)
    requires Running(list, i, prev, code, ideal) && prev <= l <= 32
    ensures Running(list, i, l, code * Pow2(l - prev) % U32_MODULUS, ideal * Pow2(l - prev))
  {
    hide Pow2, PrefixShares;
    ModMul(ideal, Pow2(l - prev), U32_MODULUS);
    Pow2Add(l - prev, 32 - l);
    Assoc(ideal, Pow2(l - prev), Pow2(32 - l));
  }

  lemma CancelPow2(a: nat, b: nat, p: nat)
    requires p > 0 && a * p == b * p
    ensures a == b
  {
    if a < b {
      MulStrict(a, b, p);
    } else if b < a {
      MulStrict(b, a, p);
    }
  }

  lemma MulStrict(a: nat, b: nat, p: nat)
    requires p > 0 && a < b
    ensures a * p < b * p
  {
    MulMonotone(a + 1, b, p);
  }

  /** At entry i the running code is the RFC code of the entry's symbol; counting up goes on to the next. */
  lemma StepRunning(lens: Table, i: nat, code: u32, ideal: nat)
    requires ValidLengths(lens) && i < |UsedList(lens, 256)|
    requires var list := Sorted(UsedList(lens, 256)); Running(list, i, list[i].len, code, ideal)
    ensures var list := Sorted(UsedList(lens, 256));
      && code == CanonicalCode(lens, list[i].sym) % U32_MODULUS
      && Running(list, i + 1, list[i].len, (code + 1) % U32_MODULUS, ideal + 1)
  {
    hide CanonicalCode, Sorted, UsedList, Pow2;
    var list := Sorted(UsedList(lens, 256));
    SortedInterval(lens, i);
    CancelPow2(ideal, CanonicalCode(lens, list[i].sym), Pow2(32 - list[i].len));
    OneMore(ideal, Pow2(32 - list[i].len));
    ModSucc(ideal, U32_MODULUS);
  }

  /** What the list being coded looks like. */
  lemma SortedFacts(lens: Table)
    requires ValidLengths(lens)
    ensures var list := Sorted(UsedList(lens, 256));
            && (forall i :: 0 <= i < |list| ==> 1 <= list[i].len <= 32 && list[i].len == lens[list[i].sym])
            && (forall i, j :: 0 <= i < j < |list| ==> list[i].len <= list[j].len && list[i].sym != list[j].sym)
            && (forall s: byte :: lens[s] > 0 ==> SymLen(s, lens[s]) in list)
  {
    hide Sorted, UsedList;
    var used := UsedList(lens, 256);
    var list := Sorted(used);
    SortedIsOrdered(used);
    assert forall i :: 0 <= i < |list| ==> list[i] in list;
    forall i, j | 0 <= i < j < |list|
      ensures list[i].len <= list[j].len && list[i].sym != list[j].sym
    {
      assert CmpSymLen(list[i], list[j]) < 0;
      assert list[i] in used && list[j] in used;
    }
  }

  predicate AllZero(lens: Table) {
    forall s :: 0 <= s < 256 ==> lens[s] == 0
  }

  /** The first loop: the used symbols, unless some length is over 32. */
  method CollectUsed(lens: Table) returns (status: Status, list: seq<SymLen>, maxLen: nat)
    ensures status == if !ValidLengths(lens) then InvalidSize else if AllZero(lens) then InvalidArg else Ok
    ensures status == Ok ==> list == UsedList(lens, 256) && list != []
    ensures status == Ok ==> (forall s :: 0 <= s < 256 ==> lens[s] <= maxLen) && maxLen in lens
  {
    maxLen := 0;
    list := [];
    for s := 0 to 256
      invariant list == UsedList(lens, s)
      invariant forall t :: 0 <= t < s ==> lens[t] <= 32 && lens[t] <= maxLen
      invariant list == [] <==> forall t :: 0 <= t < s ==> lens[t] == 0
      invariant if list == [] then maxLen == 0 else maxLen in lens
    {
      var l := lens[s];
      if l != 0 {
        if l > 32 {
          return InvalidSize, list, maxLen;
        }
        list := list + [SymLen(s, l)];
        if l > maxLen {
          maxLen := l;
        }
      }
    }
    status := if list == [] then InvalidArg else Ok;
  }

  /** The second loop, over the sorted list. */
  method AssignCodes(ghost lens: Table, list: seq<SymLen>, codes: array<u32>)
    requires codes.Length == 256 && ValidLengths(lens)
    requires list == Sorted(UsedList(lens, 256)) && list != []
    modifies codes
    ensures forall j :: 0 <= j < |list| ==> codes[list[j].sym] == CanonicalCode(lens, list[j].sym) % U32_MODULUS
    ensures forall s: byte :: lens[s] == 0 ==> codes[s] == old(codes[s])
  {
    hide CanonicalCode, Sorted, Running, Pow2, UsedList;
    SortedFacts(lens);
    var code: u32 := 0;
    ghost var ideal: nat := 0;
    var prevLen := list[0].len;
    StartRunning(list, prevLen);
    for i := 0 to |list|
      invariant 1 <= prevLen <= 32 && (i < |list| ==> prevLen <= list[i].len)
      invariant Running(list, i, prevLen, code, ideal)
      invariant forall j :: 0 <= j < i ==> codes[list[j].sym] == CanonicalCode(lens, list[j].sym) % U32_MODULUS
      invariant forall s: byte :: lens[s] == 0 ==> codes[s] == old(codes[s])
    {
      var l := list[i].len;
      if l > prevLen {
        ShiftRunning(list, i, prevLen, l, code, ideal);
        ideal := ideal * Pow2(l - prevLen);
        code := code * Pow2(l - prevLen) % U32_MODULUS;
        prevLen := l;
      }
      StepRunning(lens, i, code, ideal);
      codes[list[i].sym] := code;
      ideal := ideal + 1;
      code := (code + 1) % U32_MODULUS;
    }
  }

  lemma StartRunning(list: seq<SymLen>, len: nat)
    requires 1 <= len <= 32
    ensures Running(list, 0, len, 0, 0)
  {
  }

  /**
   build_canonical_codes. Every used symbol gets its RFC code, cut to 32 bits: the
   lengths may come from an untrusted header and need not satisfy Kraft's inequality.
   */
  method BuildCanonicalCodes(lens: Table, codes: array<u32>) returns (status: Status, maxLen: nat)
    requires codes.Length == 256
    modifies codes
    ensures status == if !ValidLengths(lens) then InvalidSize else if AllZero(lens) then InvalidArg else Ok
    ensures status == Ok ==> forall s: byte ::
              codes[s] == if lens[s] == 0 then 0 else CanonicalCode(lens, s) % U32_MODULUS
    ensures status == Ok ==> (forall s :: 0 <= s < 256 ==> lens[s] <= maxLen) && maxLen in lens
  {
    hide CanonicalCode, Sorted, UsedList;
    for s := 0 to 256
      invariant forall t :: 0 <= t < s ==> codes[t] == 0
    {
      codes[s] := 0;
    }
    var list;
    status, list, maxLen := CollectUsed(lens);
    if status != Ok {
      return;
    }
    SortedFacts(lens);
    list := Sorted(list);
    AssignCodes(lens, list, codes);
    forall s: byte | lens[s] > 0
      ensures codes[s] == CanonicalCode(lens, s) % U32_MODULUS
    {
      var j :| 0 <= j < |list| && list[j] == SymLen(s, lens[s]);
    }
  }
}
