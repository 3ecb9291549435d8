/**
 The receive-side duplicate filter: eight nodes with least-recently-used eviction and a
 ring of the last 32 sequence numbers per node, in place and over whole runs.
 */
module Dedup {
  import opened Words

  const DEDUP_MAX_NODES: nat := 8
  const DEDUP_HISTORY: nat := 32

  // ----- the filter on values -----

  /** What an entry remembers: the last accepted numbers of its node, oldest first. */
  datatype Memory = Memory(node: u32, ring: seq<u32>, lastSeen: nat)

  datatype Verdict = Verdict(table: seq<Memory>, store: bool)

  /** The position of a node in the table, |t| when it is not there. */
  function Find(t: seq<Memory>, node: u32): (i: nat)
    ensures i <= |t| && (i < |t| ==> t[i].node == node)
    ensures forall k :: 0 <= k < i ==> t[k].node != node
  {
    if t == [] then 0 else if t[0].node == node then 0 else 1 + Find(t[1..], node)
  }

  /** The first position of the oldest lastSeen. */
  function Oldest(t: seq<Memory>): (i: nat)
    requires t != []
    ensures i < |t|
    ensures forall k :: 0 <= k < |t| ==> t[i].lastSeen <= t[k].lastSeen
    ensures forall k :: 0 <= k < i ==> t[i].lastSeen < t[k].lastSeen
  {
    if |t| == 1 then 0
    else
      var m := Oldest(t[..|t| - 1]);
      assert forall k :: 0 <= k < |t| - 1 ==> t[..|t| - 1][k] == t[k];
      if t[|t| - 1].lastSeen < t[m].lastSeen then |t| - 1 else m
  }

  function Push(ring: seq<u32>, s: u32): (r: seq<u32>)
    requires |ring| <= DEDUP_HISTORY
    ensures |r| <= DEDUP_HISTORY
  {
    if |ring| < DEDUP_HISTORY then ring + [s] else ring[1..] + [s]
  }

  /** The table with the node's entry refreshed, added, or put in place of the oldest. */
  function Touch(t: seq<Memory>, node: u32, now: nat): (t': seq<Memory>)
    requires |t| <= DEDUP_MAX_NODES
    ensures |t| <= |t'| <= DEDUP_MAX_NODES
  {
    var i := Find(t, node);
    if i < |t| then t[i := t[i].(lastSeen := now)]
    else if |t| < DEDUP_MAX_NODES then t + [Memory(node, [], now)]
    else t[Oldest(t) := Memory(node, [], now)]
  }

  /** Where Touch leaves the node's entry. */
  function Slot(t: seq<Memory>, node: u32): (i: nat)
    requires |t| <= DEDUP_MAX_NODES
    ensures i <= |t| && i < DEDUP_MAX_NODES
  {
    var i := Find(t, node);
    if i < |t| || |t| < DEDUP_MAX_NODES then i else Oldest(t)
  }

  /** dedup_should_store on values. */
  function Step(t: seq<Memory>, node: u32, s: u32, now: nat): (v: Verdict)
    requires ValidTable(t)
    ensures |v.table| <= DEDUP_MAX_NODES
  {
    var t' := Touch(t, node, now);
    var i := Slot(t, node);
    if s in t'[i].ring then Verdict(t', false)
    else Verdict(t'[i := t'[i].(ring := Push(t'[i].ring, s))], true)
  }

  /** At most eight nodes, each once, with at most 32 numbers, each once. */
  ghost predicate ValidTable(t: seq<Memory>) {
    && |t| <= 8
    && (forall i :: 0 <= i < |t| ==> |t[i].ring| <= 32)
    && (forall i, j :: 0 <= i < j < |t| ==> t[i].node != t[j].node)
    && (forall i :: 0 <= i < |t| ==> DistinctSeqs(t[i].ring))
  }

  ghost predicate DistinctSeqs(ring: seq<u32>) {
    forall i, j :: 0 <= i < j < |ring| ==> ring[i] != ring[j]
  }

  /** Every step keeps the table small, its nodes distinct, and no number twice in a ring. */
  lemma StepKeepsValid(t: seq<Memory>, node: u32, s: u32, now: nat)
    requires ValidTable(t)
    ensures ValidTable(Step(t, node, s, now).table)
  {
  }

  // ----- the table in place -----

  /** dedup_entry_t */
  datatype Entry = Entry(node: u32, recent: seq<u32>, seqIdx: nat, count: nat, lastSeen: nat)

  /** The ring of a valid entry, oldest number first. */
  function RingOf(e: Entry): (r: seq<u32>)
    requires ValidEntry(e)
    ensures |r| == e.count
  {
    if e.count < DEDUP_HISTORY then e.recent[..e.count] else From(e.recent, e.seqIdx)
  }

  /** A circular buffer read from position k on. */
  function From(r: seq<u32>, k: nat): seq<u32>
    requires k <= |r|
  {
    r[k..] + r[..k]
  }

  predicate ValidEntry(e: Entry) {
    && |e.recent| == DEDUP_HISTORY && e.count <= DEDUP_HISTORY && e.seqIdx < DEDUP_HISTORY
    && (e.count < DEDUP_HISTORY ==> e.seqIdx == e.count)
  }

  ghost function MemoryOf(e: Entry): Memory
    requires ValidEntry(e)
  {
    Memory(e.node, RingOf(e), e.lastSeen)
  }

  ghost function Memories(es: seq<Entry>): (t: seq<Memory>)
    requires forall i :: 0 <= i < |es| ==> ValidEntry(es[i])
    ensures |t| == |es|
  {
    seq(|es|, i requires 0 <= i < |es| => MemoryOf(es[i]))
  }

  /** add to circular buffer: write at the index, advance it, count up to the capacity. */
  function Add(e: Entry, s: u32): (r: Entry)
    requires ValidEntry(e)
    ensures ValidEntry(r)
  {
    e.(recent := e.recent[e.seqIdx := s], seqIdx := (e.seqIdx + 1) % DEDUP_HISTORY,
       count := if e.count < DEDUP_HISTORY then e.count + 1 else e.count)
  }

  lemma AddPartial(r: seq<u32>, c: nat, s: u32)
    requires c < |r|
    ensures r[c := s][..c + 1] == r[..c] + [s]
  {
  }

  lemma AddWrapped(r: seq<u32>, k: nat, s: u32)
    requires k < |r|
    ensures From(r[k := s], if k + 1 == |r| then 0 else k + 1) == From(r, k)[1..] + [s]
  {
    assert From(r, k)[1..] == r[k + 1..] + r[..k];
    if k + 1 == |r| {
      assert From(r[k := s], 0) == r[k := s];
    }
  }

  lemma FromZero(r: seq<u32>)
    ensures From(r, 0) == r
  {
  }

  lemma AddFields(e: Entry, s: u32)
    requires ValidEntry(e)
    ensures Add(e, s) == Entry(e.node, e.recent[e.seqIdx := s],
                               if e.seqIdx + 1 == DEDUP_HISTORY then 0 else e.seqIdx + 1,
                               Min(e.count + 1, DEDUP_HISTORY), e.lastSeen)
  {
  }

  lemma AddToPartialRing(e: Entry, s: u32)
    requires ValidEntry(e) && e.count < DEDUP_HISTORY
    ensures RingOf(Add(e, s)) == RingOf(e) + [s]
  {
    hide From, Add;
    AddFields(e, s);
    AddPartial(e.recent, e.count, s);
    FromZero(Add(e, s).recent);
  }

  lemma AddToFullRing(e: Entry, s: u32)
    requires ValidEntry(e) && e.count == DEDUP_HISTORY
    ensures RingOf(Add(e, s)) == RingOf(e)[1..] + [s]
  {
    hide From, Add;
    AddFields(e, s);
    AddWrapped(e.recent, e.seqIdx, s);
  }

  /** Writing at the ring index and advancing it is a push. */
  lemma AddIsPush(e: Entry, s: u32)
    requires ValidEntry(e)
    ensures MemoryOf(Add(e, s)) == MemoryOf(e).(ring := Push(RingOf(e), s))
  {
    if e.count < DEDUP_HISTORY {
      AddToPartialRing(e, s);
    } else {
      AddToFullRing(e, s);
    }
  }

  lemma RefreshKeepsRing(e: Entry, now: nat)
    requires ValidEntry(e)
    ensures MemoryOf(e.(lastSeen := now)) == MemoryOf(e).(lastSeen := now)
  {
  }

  /** The check loop looks at the first count slots, which hold exactly the ring. */
  lemma RingMembers(e: Entry, s: u32)
    requires ValidEntry(e)
    ensures s in RingOf(e) <==> s in e.recent[..e.count]
  {
    if e.count == DEDUP_HISTORY {
      assert e.recent == e.recent[..e.seqIdx] + e.recent[e.seqIdx..];
      assert e.recent[..e.count] == e.recent;
    }
  }

  class DedupTable {
    const table: array<Entry>
    var n: nat

    ghost predicate Valid()
      reads this, table
    {
      && table.Length == DEDUP_MAX_NODES && n <= DEDUP_MAX_NODES
      && (forall i :: 0 <= i < n ==> ValidEntry(table[i]))
      && (forall i :: n <= i < DEDUP_MAX_NODES ==> |table[i].recent| == DEDUP_HISTORY)
    }

    ghost function Contents(): (t: seq<Memory>)
      requires Valid()
      reads this, table
      ensures |t| == n
    {
      Memories(table[..n])
    }

    constructor ()
      ensures Valid() && Contents() == []
    {
      table := new Entry[DEDUP_MAX_NODES](_ => Entry(0, seq(DEDUP_HISTORY, _ => 0), 0, 0, 0));
      n := 0;
    }

    /** The lookup loop. */
    method FindNode(node: u32) returns (i: nat)
      requires Valid()
      ensures i == Find(Contents(), node)
    {
      i := 0;
      while i < n && table[i].node != node
        invariant i <= n && forall k :: 0 <= k < i ==> table[k].node != node
      {
        i := i + 1;
      }
      FindIs(Contents(), node, i);
    }

    /** The eviction loop. */
    method FindOldest() returns (lru: nat)
      requires Valid() && n == DEDUP_MAX_NODES
      ensures lru == Oldest(Contents())
    {
      lru := 0;
      var oldest := table[0].lastSeen;
      for i := 1 to DEDUP_MAX_NODES
        invariant lru < i && oldest == table[lru].lastSeen
        invariant forall k :: 0 <= k < i ==> oldest <= table[k].lastSeen
        invariant forall k :: 0 <= k < lru ==> oldest < table[k].lastSeen
      {
        if table[i].lastSeen < oldest {
          oldest := table[i].lastSeen;
          lru := i;
        }
      }
      OldestIs(Contents(), lru);
    }

    /** The first half: find the node's entry or make one. */
    method TouchNode(node: u32, now: nat) returns (at: nat)
      requires Valid()
      modifies this, table
      ensures Valid() && at < n
      ensures Contents() == Touch(old(Contents()), node, now) && at == Slot(old(Contents()), node)
    {
      hide RingOf;
      ghost var t := Contents();
      at := FindNode(node);
      if at < n {
        RefreshKeepsRing(table[at], now);
        assert MemoryOf(table[at]) == t[at];
        table[at] := table[at].(lastSeen := now);
        assert Contents() == t[at := t[at].(lastSeen := now)];
      } else {
        if n < DEDUP_MAX_NODES {
          at := n;
          n := n + 1;
        } else {
          at := FindOldest();
        }
        table[at] := table[at].(node := node, seqIdx := 0, count := 0, lastSeen := now);
        NewEntry(table[at]);
        assert Contents() == if |t| < DEDUP_MAX_NODES then t + [Memory(node, [], now)] else t[at := Memory(node, [], now)];
      }
    }

    /** dedup_should_store: the table goes through Step, and the answer is Step's. */
    method ShouldStore(node: u32, s: u32, now: nat) returns (store: bool)
      requires Valid() && ValidTable(Contents())
      modifies this, table
      ensures Valid() && ValidTable(Contents())
      ensures Contents() == old(Step(Contents(), node, s, now).table)
      ensures store == old(Step(Contents(), node, s, now).store)
    {
      hide RingOf, Touch, Slot, Add, Push;
      StepKeepsValid(Contents(), node, s, now);
      var at := TouchNode(node, now);
      var e := table[at];
      assert MemoryOf(e) == Contents()[at];
      RingMembers(e, s);
      if s in e.recent[..e.count] {
        return false;
      }
      AddIsPush(e, s);
      ghost var t := Contents();
      table[at] := Add(e, s);
      assert Contents() == t[at := t[at].(ring := Push(t[at].ring, s))];
      return true;
    }
  }

  lemma NewEntry(e: Entry)
    requires ValidEntry(e) && e.count == 0
    ensures RingOf(e) == []
  {
  }

  lemma {:induction false} FindIs(t: seq<Memory>, node: u32, i: nat)
    requires i <= |t| && (i < |t| ==> t[i].node == node)
    requires forall k :: 0 <= k < i ==> t[k].node != node
    ensures Find(t, node) == i
  {
    var j := Find(t, node);
  }

  lemma OldestIs(t: seq<Memory>, i: nat)
    requires i < |t|
    requires forall k :: 0 <= k < |t| ==> t[i].lastSeen <= t[k].lastSeen
    requires forall k :: 0 <= k < i ==> t[i].lastSeen < t[k].lastSeen
    ensures Oldest(t) == i
  {
    var j := Oldest(t);
  }
}
