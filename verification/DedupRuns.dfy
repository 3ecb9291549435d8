/** What the duplicate filter guarantees over whole runs of packets. */
module DedupRuns {
  import opened Words
  import opened Dedup

  /** One received reading; locked is false when the table mutex could not be taken in time. */
  datatype Event = Event(node: u32, s: u32, now: nat, locked: bool)

  /** The table after the first i packets; a packet without the mutex bypasses it. */
  function Run(es: seq<Event>, i: nat): (t: seq<Memory>)
    requires i <= |es|
    ensures ValidTable(t)
  {
    if i == 0 then []
    else
      var t := Run(es, i - 1);
      var e := es[i - 1];
      StepKeepsValid(t, e.node, e.s, e.now);
      if e.locked then Step(t, e.node, e.s, e.now).table else t
  }

  /** process_packet's decision to store packet i: the filter's, or yes without the mutex. */
  predicate Accepts(es: seq<Event>, i: nat)
    requires i < |es|
  {
    var e := es[i];
    !e.locked || Step(Run(es, i), e.node, e.s, e.now).store
  }

  /** Packet k of node n was let through the filter with number x. */
  ghost predicate Passed(es: seq<Event>, k: nat, n: u32, x: u32) {
    k < |es| && es[k].locked && es[k].node == n && es[k].s == x && Accepts(es, k)
  }

  ghost predicate Heard(es: seq<Event>, k: nat, n: u32) {
    k < |es| && es[k].locked && es[k].node == n
  }

  // ----- reading a table -----

  predicate Has(t: seq<Memory>, n: u32) {
    Find(t, n) < |t|
  }

  function RingFor(t: seq<Memory>, n: u32): seq<u32> {
    if Has(t, n) then t[Find(t, n)].ring else []
  }

  function LastFor(t: seq<Memory>, n: u32): nat {
    if Has(t, n) then t[Find(t, n)].lastSeen else 0
  }

  lemma FindUnique(t: seq<Memory>, n: u32, i: nat)
    requires ValidTable(t) && i < |t| && t[i].node == n
    ensures Find(t, n) == i
  {
  }

  lemma FindNone(t: seq<Memory>, n: u32)
    ensures !Has(t, n) <==> forall i :: 0 <= i < |t| ==> t[i].node != n
  {
  }

  /** After a step the packet's node is in the table, refreshed, with its number pushed if accepted. */
  lemma StepOwn(t: seq<Memory>, node: u32, s: u32, now: nat)
    requires ValidTable(t)
    ensures var v := Step(t, node, s, now);
      && Has(v.table, node) && LastFor(v.table, node) == now
      && (v.store <==> s !in RingFor(t, node))
      && |RingFor(t, node)| <= DEDUP_HISTORY
      && RingFor(v.table, node) == (if v.store then Push(RingFor(t, node), s) else RingFor(t, node))
  {
    StepKeepsValid(t, node, s, now);
    FindUnique(Step(t, node, s, now).table, node, Slot(t, node));
  }

  /** A step touches one slot: the node's own, a new one at the end, or the oldest one. */
  lemma StepEntries(t: seq<Memory>, node: u32, s: u32, now: nat)
    requires ValidTable(t)
    ensures var t' := Step(t, node, s, now).table;
            var at := Slot(t, node);
      && ValidTable(t') && at < |t'| && t'[at].node == node
      && |t'| == Max(|t|, at + 1)
      && (forall k :: 0 <= k < |t| && k != at ==> t'[k] == t[k])
      && (at < |t| && t[at].node != node ==> !Has(t, node) && |t| == DEDUP_MAX_NODES && at == Oldest(t))
  {
    StepKeepsValid(t, node, s, now);
  }

  /** Other nodes keep their entries, unless the full table gives up the oldest one. */
  lemma StepOther(t: seq<Memory>, node: u32, s: u32, now: nat, n: u32)
    requires ValidTable(t) && n != node
    ensures var t' := Step(t, node, s, now).table;
      && (Has(t', n) ==> Has(t, n) && RingFor(t', n) == RingFor(t, n) && LastFor(t', n) == LastFor(t, n))
      && (Has(t, n) && !Has(t', n) ==> !Has(t, node) && |t| == DEDUP_MAX_NODES && t[Oldest(t)].node == n)
  {
    hide Step, Slot, Find, ValidTable;
    StepEntries(t, node, s, now);
    var t' := Step(t, node, s, now).table;
    var i, j := Find(t', n), Find(t, n);
    if i < |t'| {
      FindUnique(t, n, i);
    }
  }

  // ----- a number in a ring has passed before -----

  lemma {:induction false} RingHasPassed(es: seq<Event>, i: nat, n: u32, x: u32) returns (k: nat)
    requires i <= |es| && x in RingFor(Run(es, i), n)
    ensures k < i && Passed(es, k, n, x)
  {
    hide Step, Find, RingFor, LastFor, Has, ValidTable;
    NoRing(Run(es, i), n);
    EmptyRun(es, n);
    var e := es[i - 1];
    if e.locked {
      if e.node == n {
        StepOwn(Run(es, i - 1), e.node, e.s, e.now);
        if x == e.s && Accepts(es, i - 1) {
          k := i - 1;
          return;
        }
      } else {
        StepOther(Run(es, i - 1), e.node, e.s, e.now, n);
      }
    }
    k := RingHasPassed(es, i - 1, n, x);
  }

  lemma NoRing(t: seq<Memory>, n: u32)
    ensures !Has(t, n) ==> RingFor(t, n) == []
  {
  }

  lemma EmptyRun(es: seq<Event>, n: u32)
    ensures !Has(Run(es, 0), n) && RingFor(Run(es, 0), n) == []
  {
  }

  /** A packet is rejected only when the same number of the same node has passed before. */
  lemma NeverRejectsNew(es: seq<Event>, i: nat) returns (k: nat)
    requires i < |es| && !Accepts(es, i)
    ensures k < i && Passed(es, k, es[i].node, es[i].s)
  {
    hide Step, Find;
    var e := es[i];
    StepOwn(Run(es, i), e.node, e.s, e.now);
    k := RingHasPassed(es, i, e.node, e.s);
  }

  // ----- when the table forgets a node -----

  /** Packets are handled one after the other; several may carry the same millisecond. */
  ghost predicate Chronological(es: seq<Event>) {
    forall i, j :: 0 <= i < j < |es| ==> es[i].now <= es[j].now
  }

  /** lastSeen is the time of the node's last packet. */
  lemma {:induction false} LastHeard(es: seq<Event>, i: nat, n: u32) returns (p: nat)
    requires i <= |es| && Has(Run(es, i), n)
    ensures p < i && Heard(es, p, n) && es[p].now == LastFor(Run(es, i), n)
    ensures forall q :: p < q < i ==> !Heard(es, q, n)
  {
    hide Step, Find;
    EmptyRun(es, n);
    var e := es[i - 1];
    if e.locked {
      if e.node == n {
        StepOwn(Run(es, i - 1), e.node, e.s, e.now);
        p := i - 1;
        return;
      }
      StepOther(Run(es, i - 1), e.node, e.s, e.now, n);
    }
    p := LastHeard(es, i - 1, n);
  }

  function NodesOf(t: seq<Memory>): (ns: set<u32>) {
    set i | 0 <= i < |t| :: t[i].node
  }

  function OtherNodes(t: seq<Memory>, n: u32, speaker: u32): set<u32> {
    NodesOf(t) - {n} + {speaker}
  }

  lemma {:induction false} NodesCount(t: seq<Memory>)
    requires forall i, j :: 0 <= i < j < |t| ==> t[i].node != t[j].node
    ensures |NodesOf(t)| == |t|
  {
    if t != [] {
      var front := t[..|t| - 1];
      NodesCount(front);
      assert NodesOf(t) == NodesOf(front) + {t[|t| - 1].node};
      assert t[|t| - 1].node !in NodesOf(front);
    }
  }

  /** Node n was heard after packet p, or in the same millisecond, and up to packet m. */
  ghost predicate HeardBetween(es: seq<Event>, p: nat, m: nat, n: u32)
    requires p < |es|
  {
    exists q :: 0 <= q <= m && Heard(es, q, n) && (p < q || es[q].now == es[p].now)
  }

  ghost predicate PassedBetween(es: seq<Event>, i: nat, m: nat, n: u32, x: u32) {
    exists k :: i < k < m && Passed(es, k, n, x)
  }

  ghost predicate AllHeard(es: seq<Event>, p: nat, m: nat, n: u32, ns: set<u32>)
    requires p < |es|
  {
    n !in ns && forall x :: x in ns ==> HeardBetween(es, p, m, x)
  }

  ghost predicate AllPassed(es: seq<Event>, i: nat, m: nat, n: u32, s: u32, xs: set<u32>) {
    s !in xs && forall x :: x in xs ==> PassedBetween(es, i, m, n, x)
  }

  /** Eight other nodes were heard since packet p of node n and up to packet m. */
  ghost predicate EightOthers(es: seq<Event>, p: nat, m: nat, n: u32)
    requires p < |es|
  {
    exists ns: set<u32> :: |ns| >= 8 && AllHeard(es, p, m, n, ns)
  }

  /** Packet k costs node n its entry. */
  ghost predicate LosesEntry(es: seq<Event>, k: nat, n: u32) {
    k < |es| && Has(Run(es, k), n) && !Has(Run(es, k + 1), n)
  }

  /** Packet p is the last one of node n before packet k. */
  ghost predicate LastBefore(es: seq<Event>, p: nat, k: nat, n: u32) {
    p < k && Heard(es, p, n) && forall q :: p < q <= k ==> !Heard(es, q, n)
  }

  /** Node n loses its entry at packet m only after eight other nodes spoke since its last packet. */
  lemma EvictionNeedsEight(es: seq<Event>, m: nat, n: u32) returns (p: nat)
    requires Chronological(es) && LosesEntry(es, m, n)
    ensures LastBefore(es, p, m, n) && EightOthers(es, p, m, n)
  {
    hide Step, Find, HeardBetween, Chronological, ValidTable;
    var t, e := Run(es, m), es[m];
    p := LosesToOldest(es, m, n);
    NodesCount(t);
    InTable(t, n);
    InTable(t, e.node);
    assert |OtherNodes(t, n, e.node)| == DEDUP_MAX_NODES;
    forall x: u32
      ensures x in OtherNodes(t, n, e.node) ==> HeardBetween(es, p, m, x)
    {
      if x in OtherNodes(t, n, e.node) {
        InTable(t, x);
        OtherHeard(es, p, m, n, x);
      }
    }
    assert AllHeard(es, p, m, n, OtherNodes(t, n, e.node));
  }

  /** The full table gives up the node whose last packet is the oldest. */
  lemma LosesToOldest(es: seq<Event>, m: nat, n: u32) returns (p: nat)
    requires LosesEntry(es, m, n)
    ensures LastBefore(es, p, m, n) && es[p].now == LastFor(Run(es, m), n)
    ensures es[m].locked && es[m].node != n && !Has(Run(es, m), es[m].node)
    ensures var t := Run(es, m);
      |t| == DEDUP_MAX_NODES && t[Oldest(t)].node == n && forall i, j :: 0 <= i < j < |t| ==> t[i].node != t[j].node
  {
    var t, e := Run(es, m), es[m];
    DistinctNodes(t);
    hide Step, Find, ValidTable;
    assert e.locked;
    StepOwn(t, e.node, e.s, e.now);
    StepOther(t, e.node, e.s, e.now, n);
    p := LastHeard(es, m, n);
  }

  lemma DistinctNodes(t: seq<Memory>)
    requires ValidTable(t)
    ensures forall i, j :: 0 <= i < j < |t| ==> t[i].node != t[j].node
  {
  }

  lemma OtherHeard(es: seq<Event>, p: nat, m: nat, n: u32, x: u32)
    requires Chronological(es) && m < |es| && p < m && es[m].locked && x != n
    requires Has(Run(es, m), n) && es[p].now == LastFor(Run(es, m), n) && Heard(es, p, n)
    requires Run(es, m) != [] && Run(es, m)[Oldest(Run(es, m))].node == n
    requires x == es[m].node || Has(Run(es, m), x)
    ensures HeardBetween(es, p, m, x)
  {
    hide Step, Find, Run, Has, LastFor, Oldest;
    if x == es[m].node {
      assert Heard(es, m, x);
    } else {
      var q := LastHeard(es, m, x);
      OldestIsLast(Run(es, m), n, x);
      assert es[p].now <= es[q].now;
    }
  }

  lemma InTable(t: seq<Memory>, n: u32)
    ensures n in NodesOf(t) <==> Has(t, n)
  {
    FindNone(t, n);
  }

  lemma OldestIsLast(t: seq<Memory>, n: u32, x: u32)
    requires ValidTable(t) && t != [] && t[Oldest(t)].node == n && Has(t, x)
    ensures LastFor(t, n) <= LastFor(t, x)
  {
    FindUnique(t, n, Oldest(t));
  }

  // ----- a number that passes twice -----

  /** At least 32 other numbers of node n passed between packets i and m. */
  ghost predicate Flushed(es: seq<Event>, i: nat, m: nat, n: u32, s: u32) {
    exists xs: set<u32> :: |xs| >= 32 && AllPassed(es, i, m, n, s, xs)
  }

  /** Node n lost its entry between packets i and m, to the eighth other node since its last packet. */
  ghost predicate Evicted(es: seq<Event>, i: nat, m: nat, n: u32) {
    exists p: nat, k: nat ::
      i <= p && k < m && LosesEntry(es, k, n) && LastBefore(es, p, k, n) && EightOthers(es, p, k, n)
  }

  /** The number is still in the ring, and everything behind it passed since packet i. */
  ghost predicate Remembered(es: seq<Event>, i: nat, m: nat, n: u32, s: u32)
    requires m <= |es|
  {
    var ring := RingFor(Run(es, m), n);
    exists q :: 0 <= q < |ring| && ring[q] == s
      && forall r :: q < r < |ring| ==> PassedBetween(es, i, m, n, ring[r])
  }

  /** From the packet that passes on, the number is remembered until one of the two things happens. */
  lemma {:induction false} Tracking(es: seq<Event>, i: nat, m: nat, n: u32, s: u32)
    requires Chronological(es) && i < m <= |es| && Passed(es, i, n, s)
    ensures Remembered(es, i, m, n, s) || Flushed(es, i, m, n, s) || Evicted(es, i, m, n)
    decreases m
  {
    hide Step, Find, EightOthers;
    if m == i + 1 {
      var e := es[i];
      StepOwn(Run(es, i), e.node, e.s, e.now);
      var ring := RingFor(Run(es, m), n);
      assert ring[|ring| - 1] == s;
    } else {
      Tracking(es, i, m - 1, n, s);
      if Flushed(es, i, m - 1, n, s) {
        KeepFlushed(es, i, m - 1, n, s);
      } else if Evicted(es, i, m - 1, n) {
        KeepEvicted(es, i, m - 1, n);
      } else {
        TrackStep(es, i, m - 1, n, s);
      }
    }
  }

  lemma KeepFlushed(es: seq<Event>, i: nat, m: nat, n: u32, s: u32)
    requires Flushed(es, i, m, n, s)
    ensures Flushed(es, i, m + 1, n, s)
  {
    hide Passed;
    var xs: set<u32> :| |xs| >= 32 && AllPassed(es, i, m, n, s, xs);
    assert AllPassed(es, i, m + 1, n, s, xs);
  }

  lemma KeepEvicted(es: seq<Event>, i: nat, m: nat, n: u32)
    requires Evicted(es, i, m, n)
    ensures Evicted(es, i, m + 1, n)
  {
    hide EightOthers, LosesEntry;
    var p: nat, k: nat :|
      i <= p && k < m && LosesEntry(es, k, n) && LastBefore(es, p, k, n) && EightOthers(es, p, k, n);
  }

  /** One packet: the number stays, is flushed out by the thirty-second other one, or its node is evicted. */
  lemma TrackStep(es: seq<Event>, i: nat, m: nat, n: u32, s: u32)
    requires Chronological(es) && i < m < |es| && Passed(es, i, n, s)
    requires Remembered(es, i, m, n, s)
    ensures Remembered(es, i, m + 1, n, s) || Flushed(es, i, m + 1, n, s) || Evicted(es, i, m + 1, n)
  {
    hide Step, Find, EightOthers, Passed;
    var e := es[m];
    var t := Run(es, m);
    var ring := RingFor(t, n);
    if e.locked && e.node == n {
      StepOwn(t, n, e.s, e.now);
      if Accepts(es, m) {
        PassedNow(es, m);
        PushStep(es, i, m, n, s, ring, e.s);
      } else {
        SameRing(es, i, m, n, s);
      }
    } else {
      if e.locked {
        StepOther(t, e.node, e.s, e.now, n);
      }
      if Has(Run(es, m + 1), n) {
        SameRing(es, i, m, n, s);
      } else {
        assert LosesEntry(es, m, n);
        var p := EvictionNeedsEight(es, m, n);
        HeardBefore(es, i, p, m, n, s);
      }
    }
  }

  lemma PassedNow(es: seq<Event>, m: nat)
    requires m < |es| && es[m].locked && Accepts(es, m)
    ensures Passed(es, m, es[m].node, es[m].s)
  {
  }

  lemma HeardBefore(es: seq<Event>, i: nat, p: nat, m: nat, n: u32, s: u32)
    requires i < m && Passed(es, i, n, s) && LastBefore(es, p, m, n)
    ensures i <= p
  {
    assert Heard(es, i, n);
  }

  lemma SameRing(es: seq<Event>, i: nat, m: nat, n: u32, s: u32)
    requires m < |es| && Remembered(es, i, m, n, s)
    requires RingFor(Run(es, m + 1), n) == RingFor(Run(es, m), n)
    ensures Remembered(es, i, m + 1, n, s)
  {
    hide Step, Find, Passed, Run;
    var ring := RingFor(Run(es, m), n);
    var q :| 0 <= q < |ring| && ring[q] == s
      && forall r :: q < r < |ring| ==> PassedBetween(es, i, m, n, ring[r]);
    assert forall r :: q < r < |ring| ==> PassedBetween(es, i, m + 1, n, ring[r]);
  }

  /** Pushing a new number: s moves one place up, or falls out with 32 others behind it. */
  lemma PushStep(es: seq<Event>, i: nat, m: nat, n: u32, s: u32, ring: seq<u32>, x: u32)
    requires i < m < |es| && ring == RingFor(Run(es, m), n) && |ring| <= DEDUP_HISTORY
    requires Remembered(es, i, m, n, s) && Passed(es, m, n, x) && x !in ring
    requires RingFor(Run(es, m + 1), n) == Push(ring, x)
    ensures Remembered(es, i, m + 1, n, s) || Flushed(es, i, m + 1, n, s)
  {
    hide Step, Find, Passed, Run, RingFor;
    var q :| 0 <= q < |ring| && ring[q] == s
      && forall r :: q < r < |ring| ==> PassedBetween(es, i, m, n, ring[r]);
    var ring' := Push(ring, x);
    var drop := |ring'| == |ring|;
    assert forall r :: q < r < |ring| ==> PassedBetween(es, i, m + 1, n, ring[r]);
    assert PassedBetween(es, i, m + 1, n, x);
    if drop && q == 0 {
      RingDistinct(es, m, n);
      assert ring'[..|ring'| - 1] == ring[1..];
      DistinctCount(ring');
      var xs := Members(ring');
      assert AllPassed(es, i, m + 1, n, s, xs);
    } else {
      var q' := if drop then q - 1 else q;
      assert ring'[q'] == s;
      forall r | q' < r < |ring'|
        ensures PassedBetween(es, i, m + 1, n, ring'[r])
      {
        assert r == |ring'| - 1 || ring'[r] == ring[if drop then r + 1 else r];
      }
    }
  }

  lemma RingDistinct(es: seq<Event>, m: nat, n: u32)
    requires m <= |es|
    ensures DistinctSeqs(RingFor(Run(es, m), n))
  {
  }

  function Members(xs: seq<u32>): set<u32> {
    set y | y in xs
  }

  lemma {:induction false} DistinctCount(xs: seq<u32>)
    requires DistinctSeqs(xs)
    ensures |Members(xs)| == |xs|
  {
    if xs != [] {
      var front := xs[..|xs| - 1];
      DistinctCount(front);
      assert Members(xs) == Members(front) + {xs[|xs| - 1]};
      assert xs[|xs| - 1] !in front;
    }
  }

  /**
   A pair that passes the filter twice: in between, 32 other numbers of the node passed,
   or the node lost its entry, and eight other nodes had spoken since its last packet.
   */
  lemma PassesTwice(es: seq<Event>, i: nat, j: nat, n: u32, s: u32)
    requires Chronological(es) && i < j && Passed(es, i, n, s) && Passed(es, j, n, s)
    ensures Flushed(es, i, j, n, s) || Evicted(es, i, j, n)
  {
    hide Step, Find, Flushed, Evicted;
    Tracking(es, i, j, n, s);
    if Remembered(es, i, j, n, s) {
      StepOwn(Run(es, j), n, s, es[j].now);
    }
  }

  // ----- the window is exactly 32 -----

  /** One node's numbers 0 to 32, and then 0 again. */
  const FLOOD: seq<Event> := 
    seq(34, i requires 0 <= i < 34 => Event(1, if i == 33 then 0 else i, i, true))

  function UpTo(lo: nat, hi: nat): (r: seq<u32>)
    requires lo <= hi < U32_MODULUS
  {
    seq(hi - lo, i requires 0 <= i < hi - lo => lo + i)
  }

  lemma {:induction false} FloodRun(i: nat)
    requires i <= 32
    ensures Run(FLOOD, i) == if i == 0 then [] else [Memory(1, UpTo(0, i), i - 1)]
  {
    if i > 0 {
      FloodRun(i - 1);
      assert FLOOD[i - 1] == Event(1, i - 1, i - 1, true);
      assert UpTo(0, i) == UpTo(0, i - 1) + [i - 1];
      assert Find(Run(FLOOD, i - 1), 1) == 0;
    }
  }

  /** A number comes through again as soon as 32 others did: the bound of PassesTwice is tight. */
  lemma WindowIsTight()
    ensures Chronological(FLOOD) && Passed(FLOOD, 0, 1, 0) && Passed(FLOOD, 33, 1, 0)
  {
    FloodRun(32);
    assert FLOOD[0] == Event(1, 0, 0, true);
    assert FLOOD[32] == Event(1, 32, 32, true);
    assert FLOOD[33] == Event(1, 0, 33, true);
    assert Find([Memory(1, UpTo(0, 32), 31)], 1) == 0;
    assert UpTo(0, 32)[1..] + [32] == UpTo(1, 33);
    assert Run(FLOOD, 33) == [Memory(1, UpTo(1, 33), 32)];
    assert Find([Memory(1, UpTo(1, 33), 32)], 1) == 0;
  }

  // ----- runs that grow -----

  lemma {:induction false} RunPrefix(es: seq<Event>, more: seq<Event>, i: nat)
    requires i <= |es|
    ensures Run(es + more, i) == Run(es, i)
  {
    hide Step;
    if i > 0 {
      RunPrefix(es, more, i - 1);
    }
  }

  lemma AcceptsPrefix(es: seq<Event>, more: seq<Event>, i: nat)
    requires i < |es|
    ensures Accepts(es + more, i) == Accepts(es, i)
  {
    hide Step;
    RunPrefix(es, more, i);
  }
}
