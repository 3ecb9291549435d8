/**
 A member and a head carried out on their logs and the filter table: a schedule interleaves
 the drain's critical sections and sends with everything else that happens, and each call
 is a run of the step machine.
 */
module Network {
  import opened Words
  import opened MslgFormat
  import opened StorageManager
  import opened Dedup
  import opened DedupRuns
  import opened Drain
  import opened Pipeline

  // ----- the head -----

  /** What process_packet meets while it handles one frame. */
  datatype HeadEnv = HeadEnv(now: nat, copied: bool, locked: bool, isHead: bool, stackFree: nat, bufferOk: bool,
                             stamp: u32, write: WriteEnv)

  class Head {
    const store: Storage
    const table: DedupTable

    ghost predicate Valid()
      reads this, store, table, table.table
    {
      store.Valid() && Undoes(store.codec) && table.Valid() && ValidTable(table.Contents())
    }

    constructor (store: Storage, table: DedupTable)
      ensures this.store == store && this.table == table
    {
      this.store, this.table := store, table;
    }

    /**
     process_packet for a record: filter, role check, write. ps are the packets so far; p
     says what happened to this one, with KEPT where nothing was written.
     */
    method Process(data: seq<byte>, key: Key, env: HeadEnv, ghost ps: seq<Packet>) returns (ghost p: Packet)
      requires Valid() && |data| < U32_MODULUS && FilterMatches(table.Contents(), ps, key)
      modifies store, table, table.table
      ensures Valid() && FilterMatches(table.Contents(), ps + [p], key)
      ensures p.data == data && p.now == env.now
      ensures p.copied == env.copied && p.locked == env.locked && p.isHead == env.isHead
      ensures p.write == if Writes(ps + [p], |ps|, key) then OutcomeOf(env.write) else KEPT
      ensures Records(store.chunks, store.codec) == HeadAfter(Records(old(store.chunks), store.codec), ps + [p], key)
    {
      hide Storage.Valid, Storage.Synced, DedupTable.Valid, DedupTable.Contents, Records, HeadAfter, AfterWrite,
           Dedup.Step, FilterMatches, Writes, UpToNul, OutcomeOf, Undoes, ValidTable, TextOnly, ShortText;
      p := Packet(data, env.now, env.copied, env.locked, env.isHead, KEPT);
      ghost var t := table.Contents();
      FilterStep(t, ps, p, key);
      if !env.copied {
        return;
      }
      var text := UpToNul(data);
      var shouldStore := true;
      match key(text) {
        case Some(r) =>
          if env.locked {
            shouldStore := table.ShouldStore(r.node, r.s, env.now);
          }
        case None =>
      }
      FilterStep(t, ps, p, key);
      if !shouldStore || !env.isHead {
        return;
      }
      ghost var log := Records(store.chunks, store.codec);
      ghost var o;
      var status;
      status, o := WriteRecord(store, text, true, env.stackFree, env.bufferOk, env.stamp, env.write);
      p := p.(write := o);
      FilterStep(t, ps, p, key);
    }
  }

  /** The table is what the filter makes of the packets. */
  ghost predicate FilterMatches(t: seq<Memory>, ps: seq<Packet>, key: Key) {
    t == DedupRuns.Run(Events(ps, key), |ps|)
  }

  ghost predicate Filters(p: Packet, key: Key) {
    p.copied && p.locked && key(Text(p)).Some?
  }

  /** One more packet, as far as the filter and the head's log are concerned. */
  lemma FilterStep(t: seq<Memory>, ps: seq<Packet>, p: Packet, key: Key)
    requires ValidTable(t) && FilterMatches(t, ps, key)
    ensures !Filters(p, key) ==> FilterMatches(t, ps + [p], key)
    ensures Filters(p, key) ==>
      var r := key(Text(p)).value;
      FilterMatches(Dedup.Step(t, r.node, r.s, p.now).table, ps + [p], key)
    ensures Writes(ps + [p], |ps|, key) <==>
      p.copied && p.isHead
      && (Filters(p, key) ==> var r := key(Text(p)).value; Dedup.Step(t, r.node, r.s, p.now).store)
    ensures forall log ::
      HeadAfter(log, ps + [p], key) == if Writes(ps + [p], |ps|, key) then AfterWrite(log, Text(p), p.write) else log
  {
    hide Dedup.Step, AfterWrite;
    var es := Events(ps, key);
    assert Events(ps + [p], key) == es + [EventOf(p, key)];
    RunPrefix(es, [EventOf(p, key)], |ps|);
  }

  // ----- member and head -----

  /** Where the drain task is: in front of a pop, of a send, or of a write that puts a chunk back. */
  datatype Control = AtPop | AtSend | AtPutBack(late: bool, failed: bool)

  function PhaseOf(c: Control): Phase {
    match c
    case AtPop => Idle
    case AtSend => Sending
    case AtPutBack(_, _) => Requeueing
  }

  /** One call, with what it meets. The drain's three calls happen only where the drain is at that point. */
  datatype Call =
    | CallWrite(data: seq<byte>, enable: bool, stackFree: nat, bufferOk: bool, now: u32, write: WriteEnv)
    | CallPurge(info: Option<Space>)
    | CallPop(pop: PopEnv)
    | CallSend(late: bool, unpack: bool, sent: bool, rcv: HeadEnv)
    | CallPutBack(behind: seq<byte>, stackFree: nat, bufferOk: bool, now: u32, write: WriteEnv)
    | CallFrame(data: seq<byte>, rcv: HeadEnv)

  ghost predicate ValidCall(call: Call) {
    call.CallWrite? || call.CallFrame? ==> |call.data| < U32_MODULUS
  }

  /** The records that a schedule writes. */
  ghost function Written(calls: seq<Call>): multiset<Record> {
    if calls == [] then multiset{} else Written(calls[..|calls| - 1]) + WrittenBy(calls[|calls| - 1])
  }

  ghost function WrittenBy(call: Call): multiset<Record> {
    if call.CallWrite? then multiset{Some(call.data)} else multiset{}
  }

  /** A call that neither purges nor fails to write, on short texts, with a NUL behind every buffer. */
  predicate Safe(call: Call) {
    match call
    case CallWrite(data, _, _, _, _, write) => ShortText(data) && Calm(write)
    case CallPurge(info) => !NearlyFull(info)
    case CallPutBack(behind, _, _, _, write) => (behind == [] || behind[0] == 0) && Calm(write)
    case _ => true
  }

  /** A frame that finds the head in its role, with memory and room. */
  predicate GoodFrame(call: Call) {
    call.CallSend? || call.CallFrame? ==> call.rcv.copied && call.rcv.isHead && Calm(call.rcv.write)
  }

  ghost predicate SmallBatch(batch: seq<Popped>) {
    forall i :: 0 <= i < |batch| ==> |batch[i].payload| < U32_MODULUS
  }

  class Cluster {
    const member: Storage
    const head: Head
    const key: Key
    var control: Control
    var hand: seq<Popped>
    ghost var st: State

    constructor (member: Storage, head: Head, key: Key)
      requires member != head.store && member.Valid() && Undoes(member.codec) && head.Valid()
      requires member.chunks == [] && head.store.chunks == [] && head.table.Contents() == []
      ensures Valid() && st == START && this.member == member && this.head == head && this.key == key
      ensures Texts()
    {
      this.member, this.head, this.key := member, head, key;
      control, hand, st := AtPop, [], START;
      new;
      assert Events([], key) == [];
    }

    /** The objects are well formed, and the state is what they hold. */
    ghost predicate Valid()
      reads this, member, head, head.store, head.table, head.table.table
    {
      && member != head.store && member.Valid() && Undoes(member.codec) && head.Valid()
      && HandValid() && Matches()
    }

    ghost predicate HandValid()
      reads this
    {
      && (hand == [] <==> control == AtPop)
      && SmallBatch(hand)
      && (control.AtPutBack? && control.failed ==> RecordOf(hand[0], member.codec).Some?)
    }

    ghost predicate Matches()
      requires member.Valid() && head.Valid()
      reads this, member, head, head.store, head.table, head.table.table
    {
      && MemberMatches()
      && st.headLog == Records(head.store.chunks, head.store.codec)
      && FilterMatches(head.table.Contents(), st.packets, key)
    }

    ghost predicate MemberMatches()
      reads this, member
    {
      && st.phase == PhaseOf(control)
      && st.log == Records(member.chunks, member.codec)
      && st.hand == BatchRecords(hand, member.codec)
    }

    /** Log and hand hold the firmware's own short texts only. */
    ghost predicate Texts()
      reads this, member
    {
      TextOnly(member.chunks) && TextBatch(hand)
    }

    /** storage_manager_write_compressed in another task. */
    method Write(data: seq<byte>, enable: bool, stackFree: nat, bufferOk: bool, now: u32, write: WriteEnv)
      returns (ghost o: Outcome)
      requires Valid() && |data| < U32_MODULUS
      modifies this, member
      ensures Valid() && st == Next(old(st), Append(data, o), key)
      ensures o == OutcomeOf(write) && control == old(control) && hand == old(hand)
      ensures old(Texts()) && ShortText(data) ==> Texts()
    {
      hide Storage.Valid, Storage.Synced, DedupTable.Valid, DedupTable.Contents, Records, AfterWrite, BatchRecords,
           RecordOf, FilterMatches, OutcomeOf, Undoes, ValidTable, TextOnly, TextBatch, ShortText, DroppedBy;
      var status;
      status, o := WriteRecord(member, data, enable, stackFree, bufferOk, now, write);
      st := Next(st, Append(data, o), key);
    }

    /** storage_manager_purge_if_full_public in another task. */
    method PurgeStore(info: Option<Space>) returns (purged: bool)
      requires Valid()
      modifies this, member
      ensures Valid() && st == if purged then Next(old(st), Purge, key) else old(st)
      ensures purged == NearlyFull(info) && control == old(control) && hand == old(hand)
      ensures old(Texts()) ==> Texts()
    {
      hide Storage.Valid, Storage.Synced, DedupTable.Valid, DedupTable.Contents, RecordOf, BatchRecords, FilterMatches,
           Undoes, ValidTable, TextChunk, TextBatch, NearlyFull;
      purged := member.PurgeIfFull(info);
      if purged {
        st := Next(st, Purge, key);
      }
    }

    /** The lock is free, a chunk can be taken, and what is left of the log can be copied. */
    ghost predicate CanPop(cs: seq<Chunk>, env: PopEnv)
      requires ValidChunks(cs)
    {
      var k := BatchSize(|cs|, 0, 24, env.alloc);
      env.lock && k > 0 && (k == |cs| || (env.temp && member.CopySucceeds(cs[k..], env)))
    }

    /** The drain's batch pop; the state takes a step when it succeeds. */
    method PopSome(env: PopEnv) returns (popErr: Status)
      requires Valid() && control == AtPop
      modifies this, member
      ensures Valid()
      ensures popErr == Ok ==> Enabled(old(st), Pop(|hand|)) && st == Next(old(st), Pop(|hand|), key)
      ensures popErr == Ok ==> control == AtSend && |hand| == BatchSize(|old(member.chunks)|, 0, 24, env.alloc)
      ensures popErr == Ok <==> CanPop(old(member.chunks), env)
      ensures popErr != Ok ==> st == old(st) && control == AtPop
      ensures old(Texts()) ==> Texts()
    {
      hide Storage.Valid, Storage.Synced, DedupTable.Valid, DedupTable.Contents, RecordOf, FilterMatches,
           Undoes, ValidTable, TextChunk, BatchSize;
      ghost var chunks := member.chunks;
      PopBounds(chunks, env);
      ChunksAreSmall(member);
      var batch;
      popErr, batch := member.PopBatch(BATCH_POP_MAX, env);
      if popErr == Ok {
        BatchSlices(chunks, |batch|, member.codec);
        hand, control := batch, AtSend;
        st := Next(st, Pop(|batch|), key);
      }
    }

    /** A frame at the head, from this member or from another one, acknowledged or not. */
    method Frame(data: seq<byte>, rcv: HeadEnv) returns (ghost p: Packet)
      requires Valid() && |data| < U32_MODULUS
      modifies this`st, head.store, head.table, head.table.table
      ensures Valid() && st == Next(old(st), Hear(p), key) && IsPacketOf(p, data, rcv, old(st).packets, key)
      ensures old(Texts()) ==> Texts()
    {
      hide Storage.Valid, Storage.Synced, DedupTable.Valid, DedupTable.Contents, Records, BatchRecords, RecordOf,
           FilterMatches, OutcomeOf, Writes, Undoes, ValidTable, HeadAfter;
      p := head.Process(data, key, rcv, st.packets);
      st := Next(st, Hear(p), key);
    }

    /** The drain at its next chunk: time, decompression, and the send with what it does at the head. */
    method SendNext(late: bool, unpack: bool, sent: bool, rcv: HeadEnv) returns (ghost step: Step)
      requires Valid() && control == AtSend
      modifies this, head.store, head.table, head.table.table
      ensures Valid() && Enabled(old(st), step) && st == Next(old(st), step, key)
      ensures step.Stop? || step.Acked?
      ensures step.Acked? <==> !late && CanSend(old(hand)[0], unpack, member.codec) && sent
      ensures step.Acked? ==>
        IsPacketOf(step.p, RecordOf(old(hand)[0], member.codec).value, rcv, old(st).packets, key)
      ensures hand == if step.Stop? then old(hand) else old(hand)[1..]
      ensures step.Stop? ==> control == AtPutBack(late, !late && CanSend(old(hand)[0], unpack, member.codec))
      ensures step.Acked? ==> control == if hand == [] then AtPop else AtSend
      ensures old(Texts()) ==> Texts()
    {
      hide Storage.Valid, Storage.Synced, DedupTable.Valid, DedupTable.Contents, Records, RecordOf, Decoded,
           FilterMatches, OutcomeOf, Writes, IsPacketOf, CanSend, Undoes, ValidTable, HeadAfter, UpToNul, SmallBatch,
           TextBatch, BatchRecords;
      var p := hand[0];
      CanSendIff(p, unpack, member.codec);
      RestOfBatch(hand, member.codec);
      step := Stop;
      if late {
        control := AtPutBack(true, false);
      } else if p.algo == 1 && (!unpack || RecordOf(p, member.codec).None?) {
        control := AtPutBack(false, false);
      } else {
        RecordIsSmall(p, unpack, member.codec);
        if !sent {
          control := AtPutBack(false, true);
        } else {
          ghost var packet := head.Process(RecordOf(p, member.codec).value, key, rcv, st.packets);
          PacketOf(packet, RecordOf(p, member.codec).value, rcv, st.packets, key);
          step := Acked(packet);
          hand := hand[1..];
          control := if hand == [] then AtPop else AtSend;
        }
      }
      st := Next(st, step, key);
    }

    /** The drain's next write of a requeue loop. */
    method PutBackNext(behind: seq<byte>, stackFree: nat, bufferOk: bool, now: u32, write: WriteEnv)
      returns (ghost text: seq<byte>, ghost o: Outcome)
      requires Valid() && control.AtPutBack?
      modifies this, member
      ensures Valid() && Enabled(old(st), PutBack(text, o)) && st == Next(old(st), PutBack(text, o), key)
      ensures o == OutcomeOf(write)
      ensures var p := old(hand)[0];
        && text == TextIn(if old(control).failed then RecordOf(p, member.codec).value else p.payload, behind)
        && hand == old(hand)[1..]
        && control == (if hand == [] then AtPop else AtPutBack(old(control).late, false))
        && (Calm(write) ==> member.chunks == old(member.chunks) + [
             Form(member, text, if old(control).failed then p.algo != 1 else old(control).late ==> p.algo == 1,
                  stackFree, bufferOk, now)])
      ensures old(Texts()) && (behind == [] || behind[0] == 0) ==> Texts() && Some(text) == old(st).hand[0]
    {
      hide Storage.Valid, Storage.Synced, DedupTable.Valid, DedupTable.Contents, Records, RecordOf, AfterWrite,
           FilterMatches, Calm, OutcomeOf, Form, Undoes, ValidTable, TextIn, TextOnly, TextChunk, ShortText, DroppedBy,
           SmallBatch, TextBatch, BatchRecords, Next;
      var p, codec := hand[0], member.codec;
      var data := if control.failed then TextIn(RecordOf(p, codec).value, behind) else TextIn(p.payload, behind);
      var enable := if control.failed then p.algo != 1 else if control.late then p.algo == 1 else true;
      if behind == [] || behind[0] == 0 {
        FoundAgain(p, behind, codec);
      }
      RestOfBatch(hand, codec);
      var status;
      status, o := WriteRecord(member, data, enable, stackFree, bufferOk, now, write);
      text := data;
      PutBackFields(st, text, o, key);
      hand := hand[1..];
      control := if hand == [] then AtPop else AtPutBack(control.late, false);
      st := Next(st, PutBack(text, o), key);
    }

    /** Whether a call does anything: the drain's calls only at their point, a purge only of a nearly full store. */
    ghost predicate Acts(control: Control, cs: seq<Chunk>, call: Call)
      requires ValidChunks(cs)
    {
      match call
      case CallPurge(info) => NearlyFull(info)
      case CallPop(pop) => control == AtPop && CanPop(cs, pop)
      case CallSend(_, _, _, _) => control == AtSend
      case CallPutBack(_, _, _, _, _) => control.AtPutBack?
      case _ => true
    }

    /** One call. The drain's calls do nothing where the drain is not at that point. */
    method Perform(call: Call) returns (ghost steps: seq<Step>)
      requires Valid() && ValidCall(call)
      modifies this, member, head.store, head.table, head.table.table
      ensures Valid() && Pipeline.Run(old(st), steps, st, key) && CallEffects(old(st), st, call)
      ensures |steps| == if Acts(old(control), old(member.chunks), call) then 1 else 0
      ensures steps != [] ==> StepOf(old(st), steps[0], call, key)
      ensures call.CallSend? && old(control) == AtSend ==>
        (steps[0].Acked? <==> !call.late && CanSend(old(hand)[0], call.unpack, member.codec) && call.sent)
      ensures old(Texts()) && Safe(call) ==> Texts() && st.lost == old(st.lost) && st.garbled == old(st.garbled)
    {
      hide Cluster.Valid, Cluster.Texts, Storage.Valid, Next, Calm, NearlyFull, ShortText, Writes, OutcomeOf, GoodFrame,
           GoodHead, Pipeline.Run, CallEffects;
      ghost var before := st;
      steps := [];
      match call {
        case CallWrite(data, enable, stackFree, bufferOk, now, write) =>
          ghost var o := Write(data, enable, stackFree, bufferOk, now, write);
          steps := [Append(data, o)];
        case CallPurge(info) =>
          var purged := PurgeStore(info);
          if purged {
            steps := [Purge];
          }
        case CallPop(pop) =>
          if control == AtPop {
            var status := PopSome(pop);
            if status == Ok {
              steps := [Pop(|hand|)];
            }
          }
        case CallSend(late, unpack, sent, rcv) =>
          if control == AtSend {
            ghost var step := SendNext(late, unpack, sent, rcv);
            steps := [step];
          }
        case CallPutBack(behind, stackFree, bufferOk, now, write) =>
          if control.AtPutBack? {
            ghost var text, o := PutBackNext(behind, stackFree, bufferOk, now, write);
            steps := [PutBack(text, o)];
          }
        case CallFrame(data, rcv) =>
          ghost var p := Frame(data, rcv);
          steps := [Hear(p)];
      }
      CallIsRun(before, steps, st, call, key);
    }
  }

  /** What a call does to the record of appended texts and of packets. */
  ghost predicate CallEffects(st: State, end: State, call: Call) {
    && end.appended == st.appended + WrittenBy(call)
    && (GoodHead(st.packets) && GoodFrame(call) ==> GoodHead(end.packets))
  }

  /** The step a call takes, if it takes one. */
  ghost predicate StepOf(st: State, step: Step, call: Call, key: Key) {
    match call
    case CallWrite(data, _, _, _, _, write) => step == Append(data, OutcomeOf(write))
    case CallPurge(info) => step == Purge && NearlyFull(info)
    case CallPop(_) => step.Pop?
    case CallSend(late, _, sent, rcv) =>
      step.Stop? || (step.Acked? && !late && sent && IsPacketOf(step.p, step.p.data, rcv, st.packets, key))
    case CallPutBack(behind, _, _, _, write) => step.PutBack? && step.o == OutcomeOf(write)
    case CallFrame(data, rcv) => step.Hear? && IsPacketOf(step.p, data, rcv, st.packets, key)
  }

  lemma CallIsRun(st: State, steps: seq<Step>, end: State, call: Call, key: Key)
    requires |steps| <= 1 && (steps == [] ==> end == st && WrittenBy(call) == multiset{})
    requires steps != [] ==> Enabled(st, steps[0]) && end == Next(st, steps[0], key) && StepOf(st, steps[0], call, key)
    ensures Pipeline.Run(st, steps, end, key) && CallEffects(st, end, call)
    ensures Safe(call) && (call.CallPutBack? && steps != [] ==> Some(steps[0].data) == st.hand[0]) ==>
      end.lost == st.lost && end.garbled == st.garbled
  {
    hide Calm, OutcomeOf, Next, Enabled, GoodHead, NearlyFull, Pipeline.Run, IsPacketOf, ShortText;
    if steps == [] {
      NoSteps(st, key);
    } else {
      OneStep(st, steps[0], key);
      assert steps == [steps[0]];
      StepEffects(st, steps[0], call, key);
      if Lossless(st, steps[0]) {
        LosslessStep(st, steps[0], key);
      }
    }
  }

  lemma StepEffects(st: State, step: Step, call: Call, key: Key)
    requires Enabled(st, step) && StepOf(st, step, call, key)
    ensures CallEffects(st, Next(st, step, key), call)
  {
    hide Calm, OutcomeOf, Writes, HeadAfter, AfterWrite, DroppedBy, ShortText, NearlyFull;
    if step.Acked? || step.Hear? {
      assert Next(st, step, key).packets == st.packets + [step.p];
    }
  }

  /** The packet that records a frame and how the head met it. */
  ghost predicate IsPacketOf(p: Packet, data: seq<byte>, rcv: HeadEnv, ps: seq<Packet>, key: Key) {
    p == Packet(data, rcv.now, rcv.copied, rcv.locked, rcv.isHead,
                if Writes(ps + [p], |ps|, key) then OutcomeOf(rcv.write) else KEPT)
  }

  lemma PacketOf(p: Packet, data: seq<byte>, rcv: HeadEnv, ps: seq<Packet>, key: Key)
    requires p.data == data && p.now == rcv.now
    requires p.copied == rcv.copied && p.locked == rcv.locked && p.isHead == rcv.isHead
    requires p.write == if Writes(ps + [p], |ps|, key) then OutcomeOf(rcv.write) else KEPT
    ensures IsPacketOf(p, data, rcv, ps, key)
  {
  }

  lemma CanSendIff(p: Popped, unpack: bool, codec: Codec)
    ensures CanSend(p, unpack, codec) <==> !(p.algo == 1 && (!unpack || RecordOf(p, codec).None?))
  {
  }

  /** A chunk that need not be decompressed, or can be. */
  ghost predicate CanSend(p: Popped, unpack: bool, codec: Codec) {
    p.algo != 1 || (unpack && RecordOf(p, codec).Some?)
  }

  /** What a put-back changes in the state, its accounts aside. */
  lemma PutBackFields(st: State, d: seq<byte>, o: Outcome, key: Key)
    requires Enabled(st, PutBack(d, o))
    ensures var n := Next(st, PutBack(d, o), key);
      && n.hand == st.hand[1..] && n.phase == (if |st.hand| == 1 then Idle else Requeueing)
      && n.log == AfterWrite(st.log, d, o) && n.headLog == st.headLog && n.packets == st.packets
  {
  }

  lemma RecordIsSmall(p: Popped, unpack: bool, codec: Codec)
    requires !(p.algo == 1 && (!unpack || RecordOf(p, codec).None?)) && |p.payload| < U32_MODULUS
    ensures RecordOf(p, codec).Some? && |RecordOf(p, codec).value| < U32_MODULUS
  {
  }

  lemma RestOfBatch(batch: seq<Popped>, codec: Codec)
    requires batch != []
    ensures BatchRecords(batch, codec)[1..] == BatchRecords(batch[1..], codec)
    ensures BatchRecords(batch, codec)[0] == RecordOf(batch[0], codec)
    ensures SmallBatch(batch) ==> |batch[0].payload| < U32_MODULUS && SmallBatch(batch[1..])
    ensures TextBatch(batch) ==> TextChunk(batch[0]) && TextBatch(batch[1..])
  {
  }

  /** A short text with a NUL behind its buffer is put back as it was. */
  lemma FoundAgain(p: Popped, behind: seq<byte>, codec: Codec)
    requires behind == [] || behind[0] == 0
    ensures TextChunk(p) ==>
      RecordOf(p, codec) == Some(p.payload) && TextIn(p.payload, behind) == p.payload && ShortText(p.payload)
  {
    if TextChunk(p) {
      TextKeptIff(p.payload, behind);
    }
  }

  lemma PopBounds(cs: seq<Chunk>, env: PopEnv)
    ensures BatchSize(|cs|, 0, BATCH_POP_MAX, env.alloc) <= Min(BATCH_POP_MAX, |cs|)
  {
  }

  lemma ChunksAreSmall(s: Storage)
    requires s.Valid()
    ensures forall i :: 0 <= i < |s.chunks| ==> |s.chunks[i].payload| < U32_MODULUS
  {
  }

  // ----- whole schedules -----

  /**
   Any schedule of calls on a fresh cluster is a run of the step machine, and the accounts
   are about the objects: what was written is acknowledged, in the drain's hand, in the
   member's log or lost, plus what was put back changed; the head's log is what its packets
   made of it. Safe calls lose nothing.
   */
  method RunSchedule(net: Cluster, calls: seq<Call>) returns (ghost steps: seq<Step>)
    requires net.Valid() && net.st == START && net.Texts()
    requires forall i :: 0 <= i < |calls| ==> ValidCall(calls[i])
    modifies net, net.member, net.head.store, net.head.table, net.head.table.table
    ensures net.Valid() && Pipeline.Run(START, steps, net.st, net.key)
    ensures Written(calls) + net.st.garbled
         == multiset(Somes(net.st.acked)) + multiset(BatchRecords(net.hand, net.member.codec))
          + multiset(Records(net.member.chunks, net.member.codec)) + net.st.lost
    ensures net.st.headLog == Records(net.head.store.chunks, net.head.store.codec)
    ensures net.st.appended == Written(calls)
    ensures AllSafe(calls) ==> net.st.lost == multiset{} && net.st.garbled == multiset{}
    ensures AllGood(calls) ==> GoodHead(net.st.packets)
  {
    hide *;
    hide Cluster.Valid, Cluster.Texts, Storage.Valid;
    steps := [];
    NoCalls(net.st, net.key);
    assert calls[..0] == [];
    for i := 0 to |calls|
      invariant net.Valid() && Pipeline.Run(START, steps, net.st, net.key)
      invariant ScheduleEffects(net.st, calls[..i])
      invariant AllSafe(calls[..i]) ==> net.Texts() && net.st.lost == multiset{} && net.st.garbled == multiset{}
    {
      ghost var before := net.st;
      ghost var more := net.Perform(calls[i]);
      RunConcat(START, steps, before, more, net.st, net.key);
      steps := steps + more;
      OneMoreCall(before, net.st, calls[..i], calls[i]);
      assert calls[..i + 1] == calls[..i] + [calls[i]];
    }
    assert calls[..|calls|] == calls;
    StoreAndForward(steps, net.st, net.key);
    ScheduleFacts(net, calls);
  }

  ghost predicate AllSafe(calls: seq<Call>) {
    forall i :: 0 <= i < |calls| ==> Safe(calls[i])
  }

  ghost predicate AllGood(calls: seq<Call>) {
    forall i :: 0 <= i < |calls| ==> GoodFrame(calls[i])
  }

  ghost predicate ScheduleEffects(st: State, calls: seq<Call>) {
    st.appended == Written(calls) && (AllGood(calls) ==> GoodHead(st.packets))
  }

  lemma NoCalls(st: State, key: Key)
    requires st == START
    ensures Pipeline.Run(START, [], st, key) && ScheduleEffects(st, [])
    ensures st.lost == st.garbled == multiset{}
  {
  }

  lemma OneMoreCall(st: State, end: State, calls: seq<Call>, call: Call)
    requires ScheduleEffects(st, calls) && CallEffects(st, end, call)
    ensures ScheduleEffects(end, calls + [call])
    ensures AllSafe(calls + [call]) ==> AllSafe(calls) && Safe(call)
  {
    hide GoodFrame, Safe, GoodHead, WrittenBy;
    var all := calls + [call];
    assert all[..|all| - 1] == calls && all[|all| - 1] == call;
    assert forall i :: 0 <= i < |calls| ==> all[i] == calls[i];
  }

  /** What the state's record says about the objects. */
  lemma ScheduleFacts(net: Cluster, calls: seq<Call>)
    requires net.Valid() && ScheduleEffects(net.st, calls)
    ensures net.st.appended == Written(calls) && (AllGood(calls) ==> GoodHead(net.st.packets))
    ensures net.st.log == Records(net.member.chunks, net.member.codec)
    ensures net.st.hand == BatchRecords(net.hand, net.member.codec)
    ensures net.st.headLog == Records(net.head.store.chunks, net.head.store.codec)
  {
  }

  /**
   When no call purges or fails to write, every buffer is terminated, and the head always
   finds its role, memory and room, then every record a schedule writes is in one of the
   two logs or in the drain's hand.
   */
  method NothingIsLost(net: Cluster, calls: seq<Call>)
    requires net.Valid() && net.st == START && net.Texts()
    requires forall i :: 0 <= i < |calls| ==> ValidCall(calls[i])
    requires AllSafe(calls) && AllGood(calls)
    modifies net, net.member, net.head.store, net.head.table, net.head.table.table
    ensures net.Valid() && net.st.headLog == Records(net.head.store.chunks, net.head.store.codec)
    ensures forall d :: Some(d) in Written(calls) ==>
      Some(d) in Records(net.member.chunks, net.member.codec) || Some(d) in BatchRecords(net.hand, net.member.codec)
      || Carried(net.st, d, net.key)
  {
    hide *;
    hide Cluster.Valid, Cluster.Texts, Storage.Valid;
    ghost var steps := RunSchedule(net, calls);
    StateFacts(net);
    forall d | Some(d) in Written(calls)
      ensures Some(d) in net.st.log || Some(d) in net.st.hand || Carried(net.st, d, net.key)
    {
      LoggedOrCarried(steps, net.st, d, net.key);
    }
  }

  lemma StateFacts(net: Cluster)
    requires net.Valid()
    ensures net.st.log == Records(net.member.chunks, net.member.codec)
    ensures net.st.hand == BatchRecords(net.hand, net.member.codec)
  {
  }

  /** The drain method, which runs a pass in one go, does a run of the same step machine. */
  method PassIsRun(machine: StateMachine, env: DrainEnv, key: Key, ghost st: State)
    returns (compSent: nat, ghost steps: seq<Step>, ghost end: State)
    requires machine.storage.Valid() && machine.storage.Synced() && machine.storage.count >= 0
    requires Undoes(machine.storage.codec)
    requires st.log == Records(machine.storage.chunks, machine.storage.codec) && st.phase == Idle && st.hand == []
    modifies machine, machine.storage
    ensures machine.storage.Valid() && Pipeline.Run(st, steps, end, key)
    ensures end.log == Records(machine.storage.chunks, machine.storage.codec) && end.phase == Idle && end.hand == []
    ensures |end.acked| == |st.acked| + compSent
  {
    hide Storage.Valid, Storage.Synced, Records, AfterWrites, Undoes, BatchSize, FirstUnsent, PutTexts, AsMet, Next,
         Pipeline.Run;
    ghost var chunks, codec := machine.storage.chunks, machine.storage.codec;
    ghost var outs, delivered;
    ChunksAreSmall(machine.storage);
    ghost var pops := machine.Pops(chunks, env);
    compSent, outs, delivered := machine.DrainPass(env);
    if pops {
      ghost var k := BatchSize(|chunks|, 0, BATCH_POP_MAX, env.pop.alloc);
      ghost var texts := PutTexts(PoppedAll(chunks[..k]), compSent, env, codec);
      PopBounds(chunks, env.pop);
      steps, end := UndisturbedPass(st, k, delivered, texts, outs, key);
    } else {
      steps, end := [], st;
      NoSteps(st, key);
    }
  }
}
