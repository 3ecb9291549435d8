/**
 Store and forward as a protocol: the member's log and burst drain, interleaved with the
 writes of other tasks, and the cluster head that receives the records of all members.
 Every step is one critical section or one send.
 */
module Pipeline {
  import opened Words
  import opened StorageManager
  import opened Drain
  import opened DedupRuns

  datatype Reading = Reading(node: u32, s: u32)

  /** The node and number that process_packet reads out of a record; None when it finds none, or node 0. */
  type Key = seq<byte> -> Option<Reading>

  /**
   A received frame and what its processing meets: whether it is taken for a record and its
   copy allocated, whether the filter's mutex is free, the role flag, and the write's outcome.
   */
  datatype Packet = Packet(data: seq<byte>, now: nat, copied: bool, locked: bool, isHead: bool, write: Outcome)

  /** The copy is terminated behind the frame, so the record ends at its first NUL. */
  function Text(p: Packet): seq<byte> {
    UpToNul(p.data)
  }

  /** What the filter sees; a frame without a key passes it by. */
  function EventOf(p: Packet, key: Key): Event {
    match key(Text(p))
    case Some(r) => Event(r.node, r.s, p.now, p.copied && p.locked)
    case None => Event(0, 0, p.now, false)
  }

  function Events(ps: seq<Packet>, key: Key): (es: seq<Event>)
    ensures |es| == |ps|
  {
    seq(|ps|, i requires 0 <= i < |ps| => EventOf(ps[i], key))
  }

  predicate Passes(ps: seq<Packet>, k: nat, key: Key)
    requires k < |ps|
  {
    ps[k].copied && Accepts(Events(ps, key), k)
  }

  /** Packet k is written: it passes the filter, and the node is the cluster head at that moment. */
  predicate Writes(ps: seq<Packet>, k: nat, key: Key)
    requires k < |ps|
  {
    Passes(ps, k, key) && ps[k].isHead
  }

  /** The head's log after the last of the packets. */
  function HeadAfter(log: seq<Record>, ps: seq<Packet>, key: Key): seq<Record>
    requires ps != []
  {
    var p := ps[|ps| - 1];
    if Writes(ps, |ps| - 1, key) then AfterWrite(log, Text(p), p.write) else log
  }

  // ----- the state machine -----

  datatype Phase = Idle | Sending | Requeueing

  /**
   appended, garbled, lost and acked are histories: records written by other tasks, texts put
   back that differ from the record, records dropped, and records acknowledged. hand is what
   the drain has popped and not yet dealt with; packets is what the head has received, from
   this member and from others.
   */
  datatype State = State(log: seq<Record>, hand: seq<Record>, phase: Phase, appended: multiset<Record>,
                         garbled: multiset<Record>, lost: multiset<Record>, acked: seq<seq<byte>>,
                         packets: seq<Packet>, headLog: seq<Record>)

  datatype Step =
    | Append(data: seq<byte>, o: Outcome)
    | Purge
    | Pop(k: nat)
    | Acked(p: Packet)
    | Stop
    | PutBack(data: seq<byte>, o: Outcome)
    | Hear(p: Packet)

  const START := State([], [], Idle, multiset{}, multiset{}, multiset{}, [], [], [])

  ghost predicate Enabled(st: State, step: Step) {
    match step
    case Append(_, _) => true
    case Purge => true
    case Pop(k) => st.phase == Idle && 0 < k <= Min(BATCH_POP_MAX, |st.log|)
    case Acked(p) => st.phase == Sending && st.hand != [] && st.hand[0] == Some(p.data)
    case Stop => st.phase == Sending && st.hand != []
    case PutBack(_, _) => st.phase == Requeueing && st.hand != []
    case Hear(_) => true
  }

  /** The pass is over with the last record of the batch. */
  function Onward(phase: Phase, hand: seq<Record>): Phase {
    if |hand| == 1 then Idle else phase
  }

  ghost function Next(st: State, step: Step, key: Key): State
    requires Enabled(st, step)
  {
    match step
    case Append(d, o) =>
      st.(log := AfterWrite(st.log, d, o), appended := st.appended + multiset{Some(d)},
          lost := st.lost + DroppedBy(st.log, d, o))
    case Purge => st.(log := [], lost := st.lost + multiset(st.log))
    case Pop(k) => st.(hand := st.log[..k], log := st.log[k..], phase := Sending)
    case Acked(p) =>
      Receive(st, p, key).(hand := st.hand[1..], phase := Onward(Sending, st.hand), acked := st.acked + [p.data])
    case Stop => st.(phase := Requeueing)
    case PutBack(d, o) =>
      st.(hand := st.hand[1..], phase := Onward(Requeueing, st.hand), log := AfterWrite(st.log, d, o),
          garbled := st.garbled + (if Some(d) == st.hand[0] then multiset{} else multiset{Some(d)}),
          lost := st.lost + (if Some(d) == st.hand[0] then multiset{} else multiset{st.hand[0]})
                  + DroppedBy(st.log, d, o))
    case Hear(p) => Receive(st, p, key)
  }

  ghost function Receive(st: State, p: Packet, key: Key): State {
    st.(packets := st.packets + [p], headLog := HeadAfter(st.headLog, st.packets + [p], key))
  }

  ghost predicate Run(st: State, steps: seq<Step>, end: State, key: Key)
    decreases |steps|
  {
    if steps == [] then st == end
    else Enabled(st, steps[0]) && Run(Next(st, steps[0], key), steps[1..], end, key)
  }

  lemma {:induction false} RunConcat(a: State, s: seq<Step>, b: State, t: seq<Step>, c: State, key: Key)
    requires Run(a, s, b, key) && Run(b, t, c, key)
    ensures Run(a, s + t, c, key)
    decreases |s|
  {
    hide Enabled, Next;
    if s == [] {
      assert s + t == t;
    } else {
      assert (s + t)[1..] == s[1..] + t;
      RunConcat(Next(a, s[0], key), s[1..], b, t, c, key);
    }
  }

  lemma OneStep(st: State, step: Step, key: Key)
    requires Enabled(st, step)
    ensures Run(st, [step], Next(st, step, key), key)
  {
    assert [step][1..] == [];
  }

  // ----- conservation -----

  /** Every record there ever was is acknowledged, in hand, in the log, or accounted as lost. */
  ghost predicate Conserved(st: State) {
    st.appended + st.garbled == multiset(Somes(st.acked)) + multiset(st.hand) + multiset(st.log) + st.lost
  }

  ghost predicate HandOk(st: State) {
    |st.hand| <= BATCH_POP_MAX && (st.phase == Idle <==> st.hand == [])
  }

  lemma HeadTail(hand: seq<Record>)
    requires hand != []
    ensures multiset(hand) == multiset{hand[0]} + multiset(hand[1..])
  {
    assert hand == [hand[0]] + hand[1..];
  }

  lemma Split(log: seq<Record>, k: nat)
    requires k <= |log|
    ensures multiset(log) == multiset(log[..k]) + multiset(log[k..])
  {
    assert log == log[..k] + log[k..];
  }

  /** Each step of any task keeps the accounts. */
  lemma StepConserves(st: State, step: Step, key: Key)
    requires Conserved(st) && HandOk(st) && Enabled(st, step)
    ensures Conserved(Next(st, step, key)) && HandOk(Next(st, step, key))
  {
    hide AfterWrite, DroppedBy, HeadAfter, Somes;
    match step
    case Append(d, o) => AppendConserves(st, d, o, key);
    case Purge =>
    case Pop(k) => Split(st.log, k);
    case Acked(p) => AckConserves(st, p, key);
    case Stop =>
    case PutBack(d, o) => PutBackConserves(st, d, o, key);
    case Hear(_) =>
  }

  lemma AppendConserves(st: State, d: seq<byte>, o: Outcome, key: Key)
    requires Conserved(st)
    ensures Conserved(Next(st, Append(d, o), key))
  {
    hide AfterWrite, DroppedBy, Somes;
    WriteConserves(st.log, d, o);
    AppendAccounts(st.appended, st.garbled, multiset(Somes(st.acked)) + multiset(st.hand), multiset(st.log), st.lost,
                   multiset{Some(d)}, multiset(AfterWrite(st.log, d, o)), DroppedBy(st.log, d, o));
  }

  lemma AckConserves(st: State, p: Packet, key: Key)
    requires Conserved(st) && Enabled(st, Acked(p))
    ensures Conserved(Next(st, Acked(p), key))
  {
    hide HeadAfter, Somes;
    HeadTail(st.hand);
    assert Somes(st.acked + [p.data]) == Somes(st.acked) + [Some(p.data)] by {
      SomesMore(st.acked, p.data);
    }
  }

  lemma SomesMore(ds: seq<seq<byte>>, d: seq<byte>)
    ensures Somes(ds + [d]) == Somes(ds) + [Some(d)]
  {
  }

  lemma PutBackConserves(st: State, d: seq<byte>, o: Outcome, key: Key)
    requires Conserved(st) && Enabled(st, PutBack(d, o))
    ensures Conserved(Next(st, PutBack(d, o), key))
  {
    hide AfterWrite, DroppedBy, Somes;
    HeadTail(st.hand);
    WriteConserves(st.log, d, o);
    PutBackAccounts(st.appended, st.garbled, multiset(Somes(st.acked)), multiset{st.hand[0]}, multiset(st.hand[1..]),
                    multiset(st.log), st.lost, multiset{Some(d)}, multiset(AfterWrite(st.log, d, o)),
                    DroppedBy(st.log, d, o), Some(d) == st.hand[0]);
  }

  lemma AppendAccounts<T>(appended: multiset<T>, garbled: multiset<T>, rest: multiset<T>, log: multiset<T>,
                          lost: multiset<T>, d: multiset<T>, after: multiset<T>, dropped: multiset<T>)
    requires appended + garbled == rest + log + lost && after + dropped == log + d
    ensures appended + d + garbled == rest + after + (lost + dropped)
  {
    forall x
      ensures (appended + d + garbled)[x] == (rest + after + (lost + dropped))[x]
    {
      assert (appended + garbled)[x] == (rest + log + lost)[x] && (after + dropped)[x] == (log + d)[x];
    }
  }

  lemma PutBackAccounts<T>(appended: multiset<T>, garbled: multiset<T>, acked: multiset<T>, h: multiset<T>,
                           rest: multiset<T>, log: multiset<T>, lost: multiset<T>, d: multiset<T>, after: multiset<T>,
                           dropped: multiset<T>, same: bool)
    requires appended + garbled == acked + (h + rest) + log + lost && after + dropped == log + d && (same ==> h == d)
    ensures appended + (garbled + (if same then multiset{} else d))
         == acked + rest + after + (lost + (if same then multiset{} else h) + dropped)
  {
    var lhs := appended + (garbled + (if same then multiset{} else d));
    var rhs := acked + rest + after + (lost + (if same then multiset{} else h) + dropped);
    forall x
      ensures lhs[x] == rhs[x]
    {
      assert (appended + garbled)[x] == (acked + (h + rest) + log + lost)[x] && (after + dropped)[x] == (log + d)[x];
    }
  }

  // ----- the head's log -----

  /** The head's log as made by the first n packets. */
  ghost function HeadLogOf(ps: seq<Packet>, n: nat, key: Key): seq<Record>
    requires n <= |ps|
  {
    if n == 0 then [] else HeadAfter(HeadLogOf(ps, n - 1, key), ps[..n], key)
  }

  /** Packets that come later do not change what happened to packet k. */
  lemma WritesPrefix(ps: seq<Packet>, more: seq<Packet>, k: nat, key: Key)
    requires k < |ps|
    ensures Passes(ps + more, k, key) == Passes(ps, k, key)
    ensures Writes(ps + more, k, key) == Writes(ps, k, key)
  {
    assert Events(ps + more, key) == Events(ps, key) + Events(more, key);
    AcceptsPrefix(Events(ps, key), Events(more, key), k);
  }

  lemma {:induction false} HeadLogPrefix(ps: seq<Packet>, more: seq<Packet>, n: nat, key: Key)
    requires n <= |ps|
    ensures HeadLogOf(ps + more, n, key) == HeadLogOf(ps, n, key)
  {
    hide HeadAfter;
    if n > 0 {
      HeadLogPrefix(ps, more, n - 1, key);
      assert (ps + more)[..n] == ps[..n];
    }
  }

  /** The state's log of the head is what its packets make of it. */
  ghost predicate HeadMatches(st: State, key: Key) {
    st.headLog == HeadLogOf(st.packets, |st.packets|, key)
  }

  lemma ReceiveMatches(st: State, p: Packet, key: Key)
    requires HeadMatches(st, key)
    ensures HeadMatches(Receive(st, p, key), key)
  {
    hide HeadAfter;
    HeadLogPrefix(st.packets, [p], |st.packets|, key);
    assert (st.packets + [p])[..|st.packets| + 1] == st.packets + [p];
  }

  /** Packet k's record was stored, and no later write of the head purged its log, up to packet n. */
  ghost predicate Remains(ps: seq<Packet>, k: nat, n: nat, key: Key) {
    && k < n <= |ps| && Writes(ps, k, key) && ps[k].write.stored
    && forall m :: k < m < n ==> !Purges(ps, m, key)
  }

  ghost predicate RemainsAs(ps: seq<Packet>, k: nat, n: nat, key: Key, d: seq<byte>) {
    Remains(ps, k, n, key) && Text(ps[k]) == d
  }

  ghost predicate Purges(ps: seq<Packet>, m: nat, key: Key)
    requires m < |ps|
  {
    Writes(ps, m, key) && ps[m].write.purged
  }

  /**
   The head's log holds exactly the records of the packets that passed the filter, met the
   head's role set and a write that succeeded, with no purging write since.
   */
  lemma {:induction false} HeadHolds(ps: seq<Packet>, n: nat, key: Key, d: seq<byte>)
    requires n <= |ps|
    ensures Some(d) in HeadLogOf(ps, n, key) <==> exists k: nat :: RemainsAs(ps, k, n, key, d)
  {
    hide Writes, Text;
    if n > 0 {
      HeadHolds(ps, n - 1, key, d);
      WritesPrefix(ps[..n], ps[n..], n - 1, key);
      assert ps[..n] + ps[n..] == ps;
      var log := HeadLogOf(ps, n - 1, key);
      var w, p := Writes(ps, n - 1, key), ps[n - 1];
      assert HeadLogOf(ps, n, key) == if w then AfterWrite(log, Text(p), p.write) else log;
      if k: nat :| RemainsAs(ps, k, n, key, d) {
        if k < n - 1 {
          assert RemainsAs(ps, k, n - 1, key, d);
          assert !Purges(ps, n - 1, key);
        }
      }
      if Some(d) in HeadLogOf(ps, n, key) {
        if w && p.write.stored && Text(p) == d {
          assert RemainsAs(ps, n - 1, n, key, d);
        } else {
          assert Some(d) in log && !Purges(ps, n - 1, key);
          var k: nat :| RemainsAs(ps, k, n - 1, key, d);
          assert RemainsAs(ps, k, n, key, d);
        }
      }
    }
  }

  // ----- the packets of one reading -----

  ghost predicate IsPacket(ps: seq<Packet>, k: nat, r: Reading, key: Key) {
    k < |ps| && key(Text(ps[k])) == Some(r)
  }

  ghost predicate InHeadLog(st: State, r: Reading, key: Key) {
    exists d :: Some(d) in st.headLog && key(d) == Some(r)
  }

  /** Of a reading whose frame was copied, this packet or an earlier one passed the filter. */
  lemma DeliveredPasses(ps: seq<Packet>, k: nat, r: Reading, key: Key) returns (m: nat)
    requires IsPacket(ps, k, r, key) && ps[k].copied
    ensures m <= k && IsPacket(ps, m, r, key) && Passes(ps, m, key)
  {
    var es := Events(ps, key);
    m := k;
    if !Accepts(es, k) {
      m := NeverRejectsNew(es, k);
      PassedIsPacket(ps, m, r, key);
    }
  }

  /** What the filter recorded for a reading was a packet of it. */
  lemma PassedIsPacket(ps: seq<Packet>, m: nat, r: Reading, key: Key)
    requires Passed(Events(ps, key), m, r.node, r.s)
    ensures IsPacket(ps, m, r, key) && Passes(ps, m, key)
  {
    hide Accepts;
  }

  /** Every acknowledged record arrived at the head. */
  ghost predicate AckedArrived(st: State) {
    forall d :: d in st.acked ==> Arrived(st.packets, d)
  }

  ghost predicate Arrived(ps: seq<Packet>, d: seq<byte>) {
    exists k :: 0 <= k < |ps| && ps[k].data == d
  }

  lemma ArrivedStays(ps: seq<Packet>, p: Packet, d: seq<byte>)
    requires Arrived(ps, d) || p.data == d
    ensures Arrived(ps + [p], d)
  {
    if Arrived(ps, d) {
      var k :| 0 <= k < |ps| && ps[k].data == d;
      assert (ps + [p])[k].data == d;
    } else {
      assert (ps + [p])[|ps|].data == d;
    }
  }

  lemma StepArrives(st: State, step: Step, key: Key)
    requires AckedArrived(st) && HeadMatches(st, key) && Enabled(st, step)
    ensures AckedArrived(Next(st, step, key)) && HeadMatches(Next(st, step, key), key)
  {
    hide Arrived, HeadAfter, HeadLogOf, AfterWrite, DroppedBy;
    if step.Acked? || step.Hear? {
      ReceiveMatches(st, step.p, key);
      forall d | d in Next(st, step, key).acked
        ensures Arrived(st.packets + [step.p], d)
      {
        ArrivedStays(st.packets, step.p, d);
      }
    }
  }

  // ----- whole runs -----

  lemma {:induction false} RunKeeps(st: State, steps: seq<Step>, end: State, key: Key)
    requires Run(st, steps, end, key)
    requires Conserved(st) && HandOk(st) && AckedArrived(st) && HeadMatches(st, key)
    ensures Conserved(end) && HandOk(end) && AckedArrived(end) && HeadMatches(end, key)
    decreases |steps|
  {
    hide Conserved, HandOk, AckedArrived, HeadMatches, Enabled, Next;
    if steps != [] {
      StepConserves(st, steps[0], key);
      StepArrives(st, steps[0], key);
      RunKeeps(Next(st, steps[0], key), steps[1..], end, key);
    }
  }

  lemma RunFromStart(steps: seq<Step>, end: State, key: Key)
    requires Run(START, steps, end, key)
    ensures Conserved(end) && HandOk(end) && AckedArrived(end) && HeadMatches(end, key)
  {
    assert Somes([]) == [];
    RunKeeps(START, steps, end, key);
  }

  /** Over every interleaving the accounts balance, and every acknowledged record arrived at the head. */
  lemma StoreAndForward(steps: seq<Step>, end: State, key: Key)
    requires Run(START, steps, end, key)
    ensures end.appended + end.garbled
         == multiset(Somes(end.acked)) + multiset(end.hand) + multiset(end.log) + end.lost
    ensures forall d :: d in end.acked ==> Arrived(end.packets, d)
  {
    RunFromStart(steps, end, key);
  }

  /** A record of reading r is still in the head's log. */
  ghost predicate SomeRemains(ps: seq<Packet>, r: Reading, key: Key) {
    exists k: nat :: IsPacket(ps, k, r, key) && Remains(ps, k, |ps|, key)
  }

  /**
   Acknowledged or not, a reading is in the head's log if and only if one of its packets
   passed the filter, found the role set and was written, and no later write purged the log.
   */
  lemma StoredIff(steps: seq<Step>, end: State, r: Reading, key: Key)
    requires Run(START, steps, end, key)
    ensures InHeadLog(end, r, key) <==> SomeRemains(end.packets, r, key)
  {
    hide Remains, Text;
    RunFromStart(steps, end, key);
    var ps := end.packets;
    if InHeadLog(end, r, key) {
      var d :| Some(d) in end.headLog && key(d) == Some(r);
      HeadHolds(ps, |ps|, key, d);
      var k: nat :| RemainsAs(ps, k, |ps|, key, d);
      RemainsIsPacket(ps, k, key);
      assert IsPacket(ps, k, r, key);
    }
    if SomeRemains(ps, r, key) {
      var k: nat :| IsPacket(ps, k, r, key) && Remains(ps, k, |ps|, key);
      HeadHolds(ps, |ps|, key, Text(ps[k]));
      assert RemainsAs(ps, k, |ps|, key, Text(ps[k]));
    }
  }

  lemma RemainsIsPacket(ps: seq<Packet>, k: nat, key: Key)
    requires Remains(ps, k, |ps|, key)
    ensures k < |ps|
  {
  }

  // ----- the first packet decides -----

  /** Packet f is the first one of its reading that could be copied. */
  ghost predicate First(ps: seq<Packet>, f: nat, r: Reading, key: Key) {
    && IsPacket(ps, f, r, key) && ps[f].copied
    && forall k: nat :: k < f && IsPacket(ps, k, r, key) ==> !ps[k].copied
  }

  /** No packet of the reading finds the filter's mutex busy, which would let it pass unfiltered. */
  ghost predicate Filtered(ps: seq<Packet>, r: Reading, key: Key) {
    forall k: nat :: IsPacket(ps, k, r, key) && ps[k].copied ==> ps[k].locked
  }

  /** The filter did not forget the reading: no 32 other numbers, no eviction of its node. */
  ghost predicate NeverForgotten(es: seq<Event>, r: Reading) {
    forall i: nat, j: nat :: i < j < |es| ==> !Flushed(es, i, j, r.node, r.s) && !Evicted(es, i, j, r.node)
  }

  /**
   While the filter remembers, only a reading's first packet passes: its role check and its
   write decide, and no retransmission makes up for them.
   */
  lemma FirstDecides(ps: seq<Packet>, f: nat, r: Reading, key: Key)
    requires First(ps, f, r, key) && Filtered(ps, r, key)
    requires Chronological(Events(ps, key)) && NeverForgotten(Events(ps, key), r)
    ensures forall k: nat :: IsPacket(ps, k, r, key) ==> (Passes(ps, k, key) <==> k == f)
    ensures (exists k: nat :: IsPacket(ps, k, r, key) && Writes(ps, k, key) && ps[k].write.stored)
       <==> ps[f].isHead && ps[f].write.stored
  {
    hide Passed, Flushed, Evicted, Chronological;
    var es := Events(ps, key);
    var m := DeliveredPasses(ps, f, r, key);
    assert m == f;
    FilteredPassed(ps, f, r, key);
    forall k: nat | IsPacket(ps, k, r, key) && Passes(ps, k, key)
      ensures k == f
    {
      if k != f {
        FilteredPassed(ps, k, r, key);
        PassesTwice(es, f, k, r.node, r.s);
      }
    }
    assert IsPacket(ps, f, r, key);
  }

  lemma FilteredPassed(ps: seq<Packet>, k: nat, r: Reading, key: Key)
    requires IsPacket(ps, k, r, key) && Passes(ps, k, key) && Filtered(ps, r, key)
    ensures Passed(Events(ps, key), k, r.node, r.s)
  {
    hide Accepts;
  }

  /**
   A run that loses an acknowledged reading: its first packet is delivered while the role
   flag is not set, the acknowledgement is lost, and the retransmission is acknowledged but
   rejected as a duplicate. It is then in neither log, and nothing counts it as lost.
   */
  lemma AckedButNowhere(d: seq<byte>, r: Reading, key: Key) returns (steps: seq<Step>, end: State)
    requires key(UpToNul(d)) == Some(r)
    ensures Run(START, steps, end, key) && d in end.acked
    ensures end.log == [] && end.hand == [] && end.headLog == [] && end.lost == multiset{}
    ensures var ps := end.packets;
            |ps| == 2 && Passes(ps, 0, key) && !ps[0].isHead && !Passes(ps, 1, key) && ps[1].isHead
  {
    var early, late := Packet(d, 0, true, true, false, KEPT), Packet(d, 1, true, true, true, KEPT);
    RoleComesLate(early, late, r, key);
    var s1, s2 := OnePopped(d, key);
    var s3;
    s3, end := HeardTwice(s2, early, late, key);
    hide *;
    OneStep(START, Append(d, KEPT), key);
    OneStep(s1, Pop(1), key);
    OneStep(s2, Hear(early), key);
    OneStep(s3, Acked(late), key);
    RunConcat(START, [Append(d, KEPT)], s1, [Pop(1)], s2, key);
    RunConcat(START, [Append(d, KEPT)] + [Pop(1)], s2, [Hear(early)], s3, key);
    steps := [Append(d, KEPT)] + [Pop(1)] + [Hear(early)] + [Acked(late)];
    RunConcat(START, [Append(d, KEPT)] + [Pop(1)] + [Hear(early)], s3, [Acked(late)], end, key);
  }

  lemma OnePopped(d: seq<byte>, key: Key) returns (s1: State, s2: State)
    ensures s1 == Next(START, Append(d, KEPT), key)
    ensures Enabled(s1, Pop(1)) && s2 == Next(s1, Pop(1), key)
    ensures s2 == State([], [Some(d)], Sending, multiset{Some(d)}, multiset{}, multiset{}, [], [], [])
  {
    s1 := Next(START, Append(d, KEPT), key);
    assert s1.log == [Some(d)];
    s2 := Next(s1, Pop(1), key);
  }

  lemma HeardTwice(s2: State, early: Packet, late: Packet, key: Key) returns (s3: State, end: State)
    requires early.data == late.data && s2.hand == [Some(late.data)] && s2.phase == Sending && s2.packets == []
    requires s2.headLog == [] && s2.acked == [] && s2.log == []
    requires HeadAfter([], [early], key) == [] && HeadAfter([], [early, late], key) == []
    ensures s3 == Next(s2, Hear(early), key)
    ensures Enabled(s3, Acked(late)) && end == Next(s3, Acked(late), key)
    ensures end.acked == [late.data] && end.packets == [early, late] && end.lost == s2.lost
    ensures end.log == [] && end.hand == [] && end.headLog == []
  {
    hide HeadAfter;
    assert [] + [early] == [early] && [early] + [late] == [early, late];
    s3 := Next(s2, Hear(early), key);
    end := Next(s3, Acked(late), key);
  }

  lemma RoleComesLate(early: Packet, late: Packet, r: Reading, key: Key)
    requires early.data == late.data && key(Text(early)) == Some(r) && !early.isHead
    requires early.copied && early.locked && late.copied && late.locked
    ensures Passes([early, late], 0, key) && !Passes([early, late], 1, key)
    ensures HeadAfter([], [early], key) == [] && HeadAfter([], [early, late], key) == []
  {
    var es := Events([early, late], key);
    assert es[0] == Event(r.node, r.s, early.now, true);
    StepOwn(DedupRuns.Run(es, 0), r.node, r.s, early.now);
    assert DedupRuns.Run(es, 0) == [];
    StepOwn(DedupRuns.Run(es, 1), r.node, r.s, late.now);
    WritesPrefix([early], [late], 0, key);
    assert [early] + [late] == [early, late];
  }

  // ----- when nothing is lost -----

  /** A step that neither fails to write, nor purges, nor finds a changed text in a buffer. */
  ghost predicate Lossless(st: State, step: Step) {
    match step
    case Append(_, o) => o == KEPT
    case PutBack(d, o) => o == KEPT && (st.hand != [] ==> Some(d) == st.hand[0])
    case Purge => false
    case _ => true
  }

  lemma LosslessStep(st: State, step: Step, key: Key)
    requires Enabled(st, step) && Lossless(st, step)
    ensures Next(st, step, key).lost == st.lost && Next(st, step, key).garbled == st.garbled
  {
    hide HeadAfter;
  }

  /** A head that always is one, with memory and room. */
  ghost predicate GoodHead(ps: seq<Packet>) {
    forall k :: 0 <= k < |ps| ==> ps[k].copied && ps[k].isHead && ps[k].write == KEPT
  }

  /** The head's log holds the record itself, or another one of the same reading. */
  ghost predicate Carried(st: State, d: seq<byte>, key: Key) {
    Some(UpToNul(d)) in st.headLog || exists r: Reading :: key(UpToNul(d)) == Some(r) && InHeadLog(st, r, key)
  }

  lemma GoodHeadKeeps(ps: seq<Packet>, m: nat, key: Key)
    requires GoodHead(ps) && m < |ps| && Passes(ps, m, key)
    ensures Remains(ps, m, |ps|, key)
  {
    hide Passes;
  }

  /** At such a head every acknowledged reading is in the log. */
  lemma AckedIsCarried(steps: seq<Step>, end: State, d: seq<byte>, key: Key)
    requires Run(START, steps, end, key) && GoodHead(end.packets) && d in end.acked
    ensures Carried(end, d, key)
  {
    hide Remains, InHeadLog, GoodHead;
    RunFromStart(steps, end, key);
    var ps := end.packets;
    assert Arrived(ps, d);
    var k :| 0 <= k < |ps| && ps[k].data == d;
    match key(UpToNul(d))
    case None =>
      KeylessPasses(ps, k, key);
      GoodHeadKeeps(ps, k, key);
      HeadHolds(ps, |ps|, key, Text(ps[k]));
      assert RemainsAs(ps, k, |ps|, key, Text(ps[k]));
    case Some(r) =>
      var m := DeliveredPassesAtGoodHead(ps, k, r, key);
      GoodHeadKeeps(ps, m, key);
      StoredIff(steps, end, r, key);
  }

  lemma KeylessPasses(ps: seq<Packet>, k: nat, key: Key)
    requires GoodHead(ps) && k < |ps| && key(Text(ps[k])) == None
    ensures Passes(ps, k, key)
  {
  }

  lemma DeliveredPassesAtGoodHead(ps: seq<Packet>, k: nat, r: Reading, key: Key) returns (m: nat)
    requires GoodHead(ps) && IsPacket(ps, k, r, key)
    ensures IsPacket(ps, m, r, key) && Passes(ps, m, key)
  {
    m := DeliveredPasses(ps, k, r, key);
  }

  /** With such a head and nothing lost, every record is logged, in hand, or in the head's log. */
  lemma LoggedOrCarried(steps: seq<Step>, end: State, d: seq<byte>, key: Key)
    requires Run(START, steps, end, key) && GoodHead(end.packets) && end.lost == multiset{}
    requires Some(d) in end.appended
    ensures Some(d) in end.log || Some(d) in end.hand || Carried(end, d, key)
  {
    hide Carried, GoodHead;
    RunFromStart(steps, end, key);
    if Some(d) !in end.log && Some(d) !in end.hand {
      assert Some(d) in end.appended + end.garbled;
      assert Some(d) in multiset(Somes(end.acked)) + multiset(end.hand) + multiset(end.log) + end.lost;
      assert Some(d) in Somes(end.acked);
      AckedIsCarried(steps, end, d, key);
    }
  }

  // ----- an undisturbed pass is what the drain method does -----

  /** The records of the hand behind its first one. */
  lemma HandRest(hand: seq<Record>, ds: seq<seq<byte>>)
    requires ds != [] && |ds| <= |hand| && Somes(ds) == hand[..|ds|]
    ensures hand[0] == Some(ds[0]) && Somes(ds[1..]) == hand[1..][..|ds| - 1]
    ensures hand[1..][|ds| - 1..] == hand[|ds|..]
  {
    assert hand[..|ds|][0] == hand[0];
    forall i | 0 <= i < |ds| - 1
      ensures Somes(ds[1..])[i] == hand[1..][..|ds| - 1][i]
    {
      assert Somes(ds)[i + 1] == hand[..|ds|][i + 1];
    }
  }

  lemma FirstAndRest(acked: seq<seq<byte>>, ds: seq<seq<byte>>)
    requires ds != []
    ensures acked + [ds[0]] + ds[1..] == acked + ds
  {
  }

  /** The first record of the hand acknowledged, received by a node that ignores it. */
  lemma AckOne(st: State, d: seq<byte>, key: Key) returns (step: Step)
    requires st.phase == Sending && st.hand != [] && st.hand[0] == Some(d)
    ensures Enabled(st, step)
    ensures var n := Next(st, step, key);
      && n.hand == st.hand[1..] && n.log == st.log && n.acked == st.acked + [d]
      && n.phase == if |st.hand| == 1 then Idle else Sending
  {
    hide HeadAfter;
    step := Acked(Packet(d, 0, false, false, false, KEPT));
  }

  lemma {:induction false} AckMany(st: State, ds: seq<seq<byte>>, key: Key) returns (steps: seq<Step>, end: State)
    requires st.phase == Sending && |ds| <= |st.hand| && Somes(ds) == st.hand[..|ds|] && st.hand != []
    ensures Run(st, steps, end, key)
    ensures end.hand == st.hand[|ds|..] && end.log == st.log && end.acked == st.acked + ds
    ensures end.phase == if end.hand == [] then Idle else Sending
    decreases |ds|
  {
    hide Somes, Enabled, Next;
    if ds == [] {
      steps, end := [], st;
    } else {
      HandRest(st.hand, ds);
      FirstAndRest(st.acked, ds);
      var step := AckOne(st, ds[0], key);
      var st' := Next(st, step, key);
      var rest;
      if |st.hand| == 1 {
        rest, end := [], st';
      } else {
        rest, end := AckMany(st', ds[1..], key);
      }
      hide Run;
      OneStep(st, step, key);
      NoSteps(end, key);
      RunConcat(st, [step], st', rest, end, key);
      steps := [step] + rest;
    }
  }

  lemma NoSteps(st: State, key: Key)
    ensures Run(st, [], st, key)
  {
  }

  /** The whole hand put back, as these texts and with these outcomes. */
  lemma {:induction false} PutAll(st: State, texts: seq<seq<byte>>, outs: seq<Outcome>, key: Key)
    returns (steps: seq<Step>, end: State)
    requires st.phase == Requeueing && |texts| == |outs| == |st.hand| > 0
    ensures Run(st, steps, end, key)
    ensures end.phase == Idle && end.hand == [] && end.acked == st.acked
    ensures end.log == AfterWrites(st.log, texts, outs)
    decreases |st.hand|
  {
    hide AfterWrite, DroppedBy;
    var step := PutBack(texts[0], outs[0]);
    var st' := Next(st, step, key);
    FirstWrite(st.log, texts[0], outs[0], texts[1..], outs[1..]);
    assert texts == [texts[0]] + texts[1..] && outs == [outs[0]] + outs[1..];
    if |st.hand| == 1 {
      OneStep(st, step, key);
      steps, end := [step], st';
      NoWrites(st'.log, texts[1..]);
    } else {
      var rest;
      rest, end := PutAll(st', texts[1..], outs[1..], key);
      steps := [step] + rest;
      assert steps[1..] == rest;
    }
  }

  /** One pass with nothing in between, whatever is acknowledged and whatever the writes do. */
  lemma UndisturbedPass(st: State, k: nat, ds: seq<seq<byte>>, texts: seq<seq<byte>>, outs: seq<Outcome>, key: Key)
    returns (steps: seq<Step>, end: State)
    requires Enabled(st, Pop(k)) && |ds| <= k && Somes(ds) == st.log[..|ds|] && |texts| == |outs| == k - |ds|
    ensures Run(st, steps, end, key) && end.hand == [] && end.phase == Idle
    ensures end.acked == st.acked + ds
    ensures end.log == AfterWrites(st.log[k..], texts, outs)
  {
    hide AfterWrites;
    var popped := Next(st, Pop(k), key);
    OneStep(st, Pop(k), key);
    assert st.log[..k][..|ds|] == st.log[..|ds|];
    var s1, a1 := AckMany(popped, ds, key);
    RunConcat(st, [Pop(k)], popped, s1, a1, key);
    steps, end := [Pop(k)] + s1, a1;
    if |ds| == k {
      NoWrites(st.log[k..], texts);
    } else {
      var a2 := Next(a1, Stop, key);
      OneStep(a1, Stop, key);
      var s2, a3 := PutAll(a2, texts, outs, key);
      RunConcat(st, steps, a1, [Stop], a2, key);
      RunConcat(st, steps + [Stop], a2, s2, a3, key);
      steps, end := steps + [Stop] + s2, a3;
    }
  }
}
