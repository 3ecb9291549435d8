/** The member's burst drain: pop a batch, send it chunk by chunk, put back what could not be sent. */
module Drain {
  import opened Words
  import opened MslgFormat
  import opened StorageManager

  const BATCH_POP_MAX: nat := 24

  // ----- what a log stands for -----

  /** The data a chunk stands for; None when it cannot be decoded. */
  type Record = Option<seq<byte>>

  function RecordOf(p: Popped, codec: Codec): Record {
    Decoded(p.algo, p.rawLen, p.payload, codec)
  }

  function Records(cs: seq<Chunk>, codec: Codec): (rs: seq<Record>)
    ensures |rs| == |cs|
  {
    seq(|cs|, i requires 0 <= i < |cs| => RecordOf(PoppedOf(cs[i]), codec))
  }

  function BatchRecords(batch: seq<Popped>, codec: Codec): (rs: seq<Record>)
    ensures |rs| == |batch|
  {
    seq(|batch|, i requires 0 <= i < |batch| => RecordOf(batch[i], codec))
  }

  function Somes(ds: seq<seq<byte>>): (rs: seq<Record>)
    ensures |rs| == |ds|
    ensures forall i :: 0 <= i < |ds| ==> rs[i] == Some(ds[i])
  {
    seq(|ds|, i requires 0 <= i < |ds| => Some(ds[i]))
  }

  /** Chunks as the firmware's own records make them: raw texts, too short to be compressed. */
  ghost predicate TextOnly(cs: seq<Chunk>) {
    forall i :: 0 <= i < |cs| ==> TextChunk(PoppedOf(cs[i]))
  }

  ghost predicate TextBatch(batch: seq<Popped>) {
    forall i :: 0 <= i < |batch| ==> TextChunk(batch[i])
  }

  predicate TextChunk(p: Popped) {
    p.algo == 0 && ShortText(p.payload)
  }

  predicate ShortText(data: seq<byte>) {
    |data| < COMPRESSION_MIN_BYTES && 0 !in data
  }

  // ----- texts in buffers -----

  function UpToNul(s: seq<byte>): (t: seq<byte>)
    ensures |t| <= |s| && t == s[..|t|] && 0 !in t
    ensures |t| < |s| ==> s[|t|] == 0
  {
    if s == [] || s[0] == 0 then [] else [s[0]] + UpToNul(s[1..])
  }

  /**
   The string at the start of a buffer. Popped payloads and decompressed data carry no
   terminator, so strlen goes on into the memory behind the buffer, as far as addresses go.
   */
  function TextIn(buffer: seq<byte>, behind: seq<byte>): (t: seq<byte>)
    ensures |t| < U32_MODULUS
  {
    var t := UpToNul(buffer + behind);
    t[..Min(|t|, U32_MODULUS - 1)]
  }

  lemma {:induction false} UpToNulSplit(buffer: seq<byte>, behind: seq<byte>)
    ensures UpToNul(buffer + behind) == if 0 in buffer then UpToNul(buffer) else buffer + UpToNul(behind)
  {
    if buffer == [] {
      assert buffer + behind == behind;
    } else {
      assert (buffer + behind)[1..] == buffer[1..] + behind;
      assert buffer == [buffer[0]] + buffer[1..];
      UpToNulSplit(buffer[1..], behind);
    }
  }

  /** The text is the buffer's contents if and only if these hold no NUL and one follows by chance. */
  lemma TextKeptIff(buffer: seq<byte>, behind: seq<byte>)
    requires |buffer| + 1 < U32_MODULUS
    ensures TextIn(buffer, behind) == buffer <==> 0 !in buffer && (behind == [] || behind[0] == 0)
  {
    UpToNulSplit(buffer, behind);
  }

  // ----- one write, as the log sees it -----

  /** Whether a write stored its chunk, and whether it purged the log first. */
  datatype Outcome = Outcome(stored: bool, purged: bool)

  const KEPT := Outcome(true, false)

  function AfterWrite(log: seq<Record>, data: seq<byte>, o: Outcome): seq<Record> {
    (if o.purged then [] else log) + (if o.stored then [Some(data)] else [])
  }

  /** Several writes in a row. */
  function AfterWrites(log: seq<Record>, texts: seq<seq<byte>>, outs: seq<Outcome>): seq<Record>
    requires |texts| == |outs|
  {
    if outs == [] then log
    else
      var n := |outs| - 1;
      AfterWrite(AfterWrites(log, texts[..n], outs[..n]), texts[n], outs[n])
  }

  /** The chunk that stores a text: compressed where that is allowed, possible, and saves more than a twentieth. */
  function Form(s: Storage, data: seq<byte>, enable: bool, stackFree: nat, bufferOk: bool, now: u32): (c: Chunk)
    requires |data| < U32_MODULUS
  {
    var packed := s.codec.compress(data);
    if enable && stackFree >= 1024 && |data| >= 1024 && bufferOk && packed.Some?
       && 20 * (36 + |packed.value|) < 19 * (36 + |data|)
    then Chunk(1, 3, |data|, s.nodeId, now, packed.value)
    else Chunk(0, 0, |data|, s.nodeId, now, data)
  }

  /** A write stores at once, or in one retry after a purge; it purges a nearly full store before and in between. */
  ghost function OutcomeOf(env: WriteEnv): (o: Outcome)
    ensures Calm(env) ==> o == KEPT
  {
    Outcome(env.lock && env.open && (env.write || (NearlyFull(env.after) && env.reopen && env.rewrite)),
            env.lock && (NearlyFull(env.before) || (env.open && !env.write && NearlyFull(env.after))))
  }

  /** storage_manager_write_compressed, in terms of records. */
  method WriteRecord(s: Storage, data: seq<byte>, enable: bool, stackFree: nat, bufferOk: bool, now: u32, env: WriteEnv)
    returns (status: Status, ghost o: Outcome)
    requires s.Valid() && Undoes(s.codec) && |data| < U32_MODULUS
    modifies s
    ensures s.Valid() && (old(s.Synced()) ==> s.Synced()) && (old(s.count) >= 0 ==> s.count >= 0)
    ensures Records(s.chunks, s.codec) == AfterWrite(Records(old(s.chunks), s.codec), data, o)
    ensures o.stored <==> status == Ok
    ensures o == OutcomeOf(env) && (Calm(env) ==> o == KEPT)
    ensures Calm(env) ==> s.chunks == old(s.chunks) + [Form(s, data, enable, stackFree, bufferOk, now)]
    ensures TextOnly(old(s.chunks)) && ShortText(data) ==> TextOnly(s.chunks)
  {
    hide LogBytes, NearlyFull, Undoes, Decoded;
    ghost var before := s.chunks;
    ghost var purged;
    status, purged := s.WriteCompressed(data, enable, stackFree, bufferOk, now, env);
    o := Outcome(status == Ok, purged);
    if status == Ok {
      s.HoldsDecodes(s.chunks[|s.chunks| - 1], data, now);
      assert s.chunks == (if purged then [] else before) + [s.chunks[|s.chunks| - 1]];
    }
  }

  /** The writes for the chunks from i on, below n, are all calm. */
  ghost predicate AllCalm(env: DrainEnv, i: nat, n: nat) {
    forall b :: i <= b < n ==> Calm(env.write(b))
  }

  /** These are the outcomes of the writes, the one for chunk i first; a calm one keeps its text and the log. */
  ghost predicate AsMet(env: DrainEnv, i: nat, outs: seq<Outcome>) {
    forall b :: 0 <= b < |outs| ==> outs[b] == OutcomeOf(env.write(i + b))
  }

  lemma NoneMet(env: DrainEnv, i: nat)
    ensures AsMet(env, i, [])
  {
  }

  lemma AsMetLast(env: DrainEnv, i: nat, outs: seq<Outcome>, o: Outcome)
    requires AsMet(env, i, outs) && o == OutcomeOf(env.write(i + |outs|))
    ensures AsMet(env, i, outs + [o])
  {
    hide OutcomeOf;
  }

  lemma AsMetFirst(env: DrainEnv, i: nat, o: Outcome, outs: seq<Outcome>)
    requires o == OutcomeOf(env.write(i)) && AsMet(env, i + 1, outs)
    ensures AsMet(env, i, [o] + outs)
  {
    hide OutcomeOf;
    forall b | 0 <= b < |outs| + 1
      ensures ([o] + outs)[b] == OutcomeOf(env.write(i + b))
    {
      if b > 0 {
        assert i + 1 + (b - 1) == i + b;
      }
    }
  }

  /** What the drain meets outside: clock, memory, radio, and file system, for each chunk of the batch. */
  datatype DrainEnv = DrainEnv(pop: PopEnv, late: nat -> bool, unpack: nat -> bool, sent: nat -> bool,
                               behind: nat -> seq<byte>, stackFree: nat -> nat, bufferOk: nat -> bool,
                               now: nat -> u32, write: nat -> WriteEnv)

  /** A compressed chunk is decompressed before it is sent, which takes a buffer and may fail. */
  predicate Ready(p: Popped, unpack: bool, codec: Codec) {
    p.algo == 1 ==> unpack && RecordOf(p, codec).Some?
  }

  /** The first chunk from i on that is not acknowledged: time is up, it cannot be unpacked, or its send fails. */
  function FirstUnsent(batch: seq<Popped>, env: DrainEnv, codec: Codec, i: nat): (j: nat)
    requires i <= |batch|
    ensures i <= j <= |batch|
    ensures forall b :: i <= b < j ==> !env.late(b) && Ready(batch[b], env.unpack(b), codec) && env.sent(b)
    ensures j < |batch| ==> env.late(j) || !Ready(batch[j], env.unpack(j), codec) || !env.sent(j)
    decreases |batch| - i
  {
    if i == |batch| || env.late(i) || !Ready(batch[i], env.unpack(i), codec) || !env.sent(i) then i
    else FirstUnsent(batch, env, codec, i + 1)
  }

  /**
   What is put back for chunk b when chunk j is the first unsent one: its stored payload,
   or its decompressed data when its own send failed.
   */
  function PutText(batch: seq<Popped>, j: nat, b: nat, env: DrainEnv, codec: Codec): (t: seq<byte>)
    requires j <= b < |batch|
    ensures |t| < U32_MODULUS
  {
    if b == j && !env.late(b) && Ready(batch[b], env.unpack(b), codec) && RecordOf(batch[b], codec).Some? then
      TextIn(RecordOf(batch[b], codec).value, env.behind(b))
    else TextIn(batch[b].payload, env.behind(b))
  }

  function PutTexts(batch: seq<Popped>, j: nat, env: DrainEnv, codec: Codec): (ts: seq<seq<byte>>)
    requires j <= |batch|
    ensures |ts| == |batch| - j
  {
    seq(|batch| - j, i requires 0 <= i < |batch| - j => PutText(batch, j, j + i, env, codec))
  }

  /** The stored payloads from chunk i on, as texts. */
  function Payloads(batch: seq<Popped>, i: nat, n: nat, env: DrainEnv): (ts: seq<seq<byte>>)
    requires i + n <= |batch|
    ensures |ts| == n
  {
    seq(n, b requires 0 <= b < n => TextIn(batch[i + b].payload, env.behind(i + b)))
  }

  /** The chunks that calm writes make of them; after the time limit only compressed chunks may be compressed again. */
  function Forms(s: Storage, batch: seq<Popped>, i: nat, n: nat, late: bool, env: DrainEnv): (cs: seq<Chunk>)
    requires i + n <= |batch|
    ensures |cs| == n
  {
    seq(n, b requires 0 <= b < n =>
      Form(s, TextIn(batch[i + b].payload, env.behind(i + b)), late ==> batch[i + b].algo == 1, env.stackFree(i + b),
           env.bufferOk(i + b), env.now(i + b)))
  }

  lemma OneMoreForm(s: Storage, before: seq<Chunk>, batch: seq<Popped>, i: nat, n: nat, late: bool, env: DrainEnv)
    requires i + n < |batch|
    ensures before + Forms(s, batch, i, n + 1, late, env)
         == before + Forms(s, batch, i, n, late, env)
          + [Form(s, TextIn(batch[i + n].payload, env.behind(i + n)), late ==> batch[i + n].algo == 1,
                  env.stackFree(i + n), env.bufferOk(i + n), env.now(i + n))]
  {
    hide TextIn, Form;
    assert Forms(s, batch, i, n + 1, late, env) == Forms(s, batch, i, n, late, env) +
      [Form(s, TextIn(batch[i + n].payload, env.behind(i + n)), late ==> batch[i + n].algo == 1,
            env.stackFree(i + n), env.bufferOk(i + n), env.now(i + n))];
  }

  /**
   The chunks put back when chunk j is the first unsent one: after the time limit each as it was
   allowed before; after a failed send the decompressed data raw; anything else compressed where it can be.
   */
  function PutForms(s: Storage, batch: seq<Popped>, j: nat, env: DrainEnv): (cs: seq<Chunk>)
    requires j <= |batch|
    ensures |cs| == |batch| - j
  {
    seq(|batch| - j, b requires 0 <= b < |batch| - j =>
      Form(s, PutText(batch, j, j + b, env, s.codec), MayCompress(s, batch, j, j + b, env), env.stackFree(j + b),
           env.bufferOk(j + b), env.now(j + b)))
  }

  function MayCompress(s: Storage, batch: seq<Popped>, j: nat, b: nat, env: DrainEnv): (enable: bool)
    requires j <= b < |batch|
  {
    if env.late(j) then batch[b].algo == 1
    else if b == j && Ready(batch[b], env.unpack(b), s.codec) then batch[b].algo != 1
    else true
  }

  lemma OneMorePayload(batch: seq<Popped>, i: nat, n: nat, env: DrainEnv)
    requires i + n < |batch|
    ensures Payloads(batch, i, n + 1, env)
         == Payloads(batch, i, n, env) + [TextIn(batch[i + n].payload, env.behind(i + n))]
  {
    hide TextIn;
  }

  /** A chunk is decoded exactly when it need not be decompressed, or can be. */
  lemma ReadyRecord(p: Popped, unpack: bool, codec: Codec)
    requires !(p.algo == 1 && (!unpack || RecordOf(p, codec).None?))
    ensures Ready(p, unpack, codec) && RecordOf(p, codec).Some?
  {
  }

  lemma NotReady(p: Popped, unpack: bool, codec: Codec)
    requires p.algo == 1 && (!unpack || RecordOf(p, codec).None?)
    ensures !Ready(p, unpack, codec)
  {
  }

  /** The first i chunks were sent, with these data, and the loop goes on. */
  ghost predicate AllSent(batch: seq<Popped>, env: DrainEnv, codec: Codec, i: nat, delivered: seq<seq<byte>>) {
    && i <= |batch|
    && FirstUnsent(batch, env, codec, i) == FirstUnsent(batch, env, codec, 0)
    && Somes(delivered) == BatchRecords(batch, codec)[..i]
  }

  lemma NoneSent(batch: seq<Popped>, env: DrainEnv, codec: Codec)
    ensures AllSent(batch, env, codec, 0, [])
  {
  }

  lemma OneMoreSent(batch: seq<Popped>, env: DrainEnv, codec: Codec, i: nat, delivered: seq<seq<byte>>, data: seq<byte>)
    requires i < |batch| && AllSent(batch, env, codec, i, delivered) && RecordOf(batch[i], codec) == Some(data)
    requires !env.late(i) && Ready(batch[i], env.unpack(i), codec) && env.sent(i)
    ensures AllSent(batch, env, codec, i + 1, delivered + [data])
  {
    hide Ready, RecordOf;
    assert Somes(delivered + [data]) == Somes(delivered) + [Some(data)];
    assert BatchRecords(batch, codec)[..i + 1] == BatchRecords(batch, codec)[..i] + [RecordOf(batch[i], codec)];
  }

  lemma Unsent(batch: seq<Popped>, env: DrainEnv, codec: Codec, i: nat, delivered: seq<seq<byte>>)
    requires AllSent(batch, env, codec, i, delivered)
    requires i < |batch| ==> env.late(i) || !Ready(batch[i], env.unpack(i), codec) || !env.sent(i)
    ensures i == FirstUnsent(batch, env, codec, 0) && Somes(delivered) == BatchRecords(batch, codec)[..i]
  {
    hide Ready, RecordOf;
  }

  class StateMachine {
    const storage: Storage
    /** s_window_mslg_sent */
    var windowSent: nat

    constructor (storage: Storage)
      ensures this.storage == storage && windowSent == 0
    {
      this.storage := storage;
      windowSent := 0;
    }

    /** The requeue loops: write the popped payloads from position i on back, in order. */
    method Requeue(batch: seq<Popped>, i: nat, late: bool, env: DrainEnv) returns (ghost outs: seq<Outcome>)
      requires storage.Valid() && storage.Synced() && Undoes(storage.codec) && i <= |batch|
      modifies storage
      ensures storage.Valid() && storage.Synced() && (old(storage.count) >= 0 ==> storage.count >= 0)
      ensures |outs| == |batch| - i
      ensures AsMet(env, i, outs)
      ensures Records(storage.chunks, storage.codec)
           == AfterWrites(Records(old(storage.chunks), storage.codec), Payloads(batch, i, |batch| - i, env), outs)
      ensures AllCalm(env, i, |batch|) ==>
        storage.chunks == old(storage.chunks) + Forms(storage, batch, i, |batch| - i, late, env)
    {
      hide *;
      outs := [];
      NoneMet(env, i);
      NoForms(storage, storage.chunks, batch, i, late, env);
      ghost var log := Records(storage.chunks, storage.codec);
      NoWrites(log, Payloads(batch, i, 0, env));
      var ri := i;
      while ri < |batch|
        invariant i <= ri <= |batch| && |outs| == ri - i
        invariant storage.Valid() && storage.Synced() && (old(storage.count) >= 0 ==> storage.count >= 0)
        invariant AsMet(env, i, outs)
        invariant Records(storage.chunks, storage.codec) == AfterWrites(log, Payloads(batch, i, ri - i, env), outs)
        invariant AllCalm(env, i, |batch|) ==>
          storage.chunks == old(storage.chunks) + Forms(storage, batch, i, ri - i, late, env)
      {
        var text := TextIn(batch[ri].payload, env.behind(ri));
        var enable := if late then batch[ri].algo == 1 else true;
        ghost var status, o := WriteRecord(storage, text, enable, env.stackFree(ri), env.bufferOk(ri), env.now(ri),
                                           env.write(ri));
        OneMoreWrite(log, Payloads(batch, i, ri - i, env), outs, text, o);
        OneMorePayload(batch, i, ri - i, env);
        OneMoreForm(storage, old(storage.chunks), batch, i, ri - i, late, env);
        CalmOne(env, i, |batch|, ri);
        AsMetLast(env, i, outs, o);
        outs := outs + [o];
        ri := ri + 1;
      }
    }

    /** The branch of a failed send: the chunk itself, decompressed or not, and then all behind it. */
    method RequeueFailed(batch: seq<Popped>, i: nat, env: DrainEnv) returns (ghost outs: seq<Outcome>)
      requires storage.Valid() && storage.Synced() && Undoes(storage.codec) && i < |batch|
      requires !env.late(i) && Ready(batch[i], env.unpack(i), storage.codec) && RecordOf(batch[i], storage.codec).Some?
      modifies storage
      ensures storage.Valid() && storage.Synced() && (old(storage.count) >= 0 ==> storage.count >= 0)
      ensures |outs| == |batch| - i
      ensures AsMet(env, i, outs)
      ensures Records(storage.chunks, storage.codec)
           == AfterWrites(Records(old(storage.chunks), storage.codec), PutTexts(batch, i, env, storage.codec), outs)
      ensures AllCalm(env, i, |batch|) ==> storage.chunks == old(storage.chunks) + PutForms(storage, batch, i, env)
    {
      hide *;
      ghost var log := Records(storage.chunks, storage.codec);
      FailedForms(storage, storage.chunks, batch, i, env);
      CalmOne(env, i, |batch|, i);
      var text := TextIn(RecordOf(batch[i], storage.codec).value, env.behind(i));
      ghost var status, o := WriteRecord(storage, text, batch[i].algo != 1, env.stackFree(i), env.bufferOk(i), env.now(i),
                                         env.write(i));
      outs := Requeue(batch, i + 1, false, env);
      FirstWrite(log, text, o, Payloads(batch, i + 1, |batch| - i - 1, env), outs);
      PutFailed(batch, i, env, storage.codec);
      AsMetFirst(env, i, o, outs);
      outs := [o] + outs;
    }

    /** The send loop over a popped batch; delivered is what the acknowledged sends carried. */
    method SendBatch(batch: seq<Popped>, env: DrainEnv)
      returns (compSent: nat, ghost outs: seq<Outcome>, ghost delivered: seq<seq<byte>>)
      requires storage.Valid() && storage.Synced() && Undoes(storage.codec) && storage.count >= 0
      modifies this, storage
      ensures storage.Valid() && storage.Synced() && storage.count >= 0
      ensures windowSent == old(windowSent) + compSent
      ensures compSent == FirstUnsent(batch, env, storage.codec, 0) && |outs| == |batch| - compSent
      ensures Somes(delivered) == BatchRecords(batch, storage.codec)[..compSent]
      ensures AsMet(env, compSent, outs)
      ensures Records(storage.chunks, storage.codec)
           == AfterWrites(Records(old(storage.chunks), storage.codec), PutTexts(batch, compSent, env, storage.codec), outs)
      ensures AllCalm(env, compSent, |batch|) ==>
        storage.chunks == old(storage.chunks) + PutForms(storage, batch, compSent, env)
    {
      hide *;
      compSent, outs, delivered := 0, [], [];
      var codec := storage.codec;
      NoneSent(batch, env, codec);
      for bi := 0 to |batch|
        invariant compSent == bi && windowSent == old(windowSent) + bi && |delivered| == bi
        invariant AllSent(batch, env, codec, bi, delivered)
        invariant storage.Valid() && storage.Synced() && storage.count >= 0 && storage.chunks == old(storage.chunks)
      {
        if env.late(bi) {
          outs := Requeue(batch, bi, true, env);
          PutPayloads(batch, bi, env, codec);
          PutPayloadForms(storage, batch, bi, env);
          Unsent(batch, env, codec, bi, delivered);
          return;
        }
        if batch[bi].algo == 1 && (!env.unpack(bi) || RecordOf(batch[bi], codec).None?) {
          NotReady(batch[bi], env.unpack(bi), codec);
          outs := Requeue(batch, bi, false, env);
          PutPayloads(batch, bi, env, codec);
          PutPayloadForms(storage, batch, bi, env);
          Unsent(batch, env, codec, bi, delivered);
          return;
        }
        ReadyRecord(batch[bi], env.unpack(bi), codec);
        if !env.sent(bi) {
          outs := RequeueFailed(batch, bi, env);
          Unsent(batch, env, codec, bi, delivered);
          return;
        }
        ghost var data := RecordOf(batch[bi], codec).value;
        OneMoreSent(batch, env, codec, bi, delivered, data);
        delivered := delivered + [data];
        compSent := compSent + 1;
        windowSent := windowSent + 1;
      }
      Unsent(batch, env, codec, |batch|, delivered);
      NoneMet(env, |batch|);
      NoWrites(Records(storage.chunks, codec), PutTexts(batch, |batch|, env, codec));
      NoPutForms(storage, storage.chunks, batch, env);
    }

    /**
     One drain pass over any log. The first j records of the batch are acknowledged, in
     order; the log becomes what lay behind the batch, followed by the texts that are found
     in the other chunks' buffers, except where a write fails or purges.
     */
    method DrainPass(env: DrainEnv) returns (compSent: nat, ghost outs: seq<Outcome>, ghost delivered: seq<seq<byte>>)
      requires storage.Valid() && storage.Synced() && Undoes(storage.codec) && storage.count >= 0
      modifies this, storage
      ensures storage.Valid() && storage.Synced() && storage.count >= 0
      ensures windowSent == old(windowSent) + compSent
      ensures !Pops(old(storage.chunks), env) ==> compSent == 0 && storage.chunks == old(storage.chunks)
      ensures Pops(old(storage.chunks), env) ==>
        var codec, log := storage.codec, Records(old(storage.chunks), storage.codec);
        var k := BatchSize(|log|, 0, 24, env.pop.alloc);
        var batch := PoppedAll(old(storage.chunks)[..k]);
        var j := FirstUnsent(batch, env, codec, 0);
        && compSent == j && Somes(delivered) == log[..j] && |outs| == k - j
        && AsMet(env, j, outs)
        && Records(storage.chunks, codec) == AfterWrites(log[k..], PutTexts(batch, j, env, codec), outs)
        && (AllCalm(env, j, k) ==> storage.chunks == old(storage.chunks)[k..] + PutForms(storage, batch, j, env))
    {
      hide LogBytes, BatchSize, Calm, Undoes, AfterWrites, TextIn, FirstUnsent, PutText, RecordOf, AllCalm, PutForms;
      compSent, outs, delivered := 0, [], [];
      ghost var chunks := storage.chunks;
      var popErr, batch := storage.PopBatch(BATCH_POP_MAX, env.pop);
      if popErr != Ok || |batch| == 0 {
        return;
      }
      BatchSlices(chunks, |batch|, storage.codec);
      compSent, outs, delivered := SendBatch(batch, env);
    }

    /** Whether the pop that opens the pass succeeds. */
    ghost predicate Pops(cs: seq<Chunk>, env: DrainEnv)
      requires ValidChunks(cs)
    {
      var k := BatchSize(|cs|, 0, BATCH_POP_MAX, env.pop.alloc);
      env.pop.lock && k > 0 && (k == |cs| || (env.pop.temp && storage.CopySucceeds(cs[k..], env.pop)))
    }
  }

  lemma BatchSlices(cs: seq<Chunk>, k: nat, codec: Codec)
    requires k <= |cs|
    ensures BatchRecords(PoppedAll(cs[..k]), codec) == Records(cs, codec)[..k]
    ensures Records(cs[k..], codec) == Records(cs, codec)[k..]
  {
  }

  /** Without a failed send all put texts come from the payloads. */
  lemma PutPayloads(batch: seq<Popped>, j: nat, env: DrainEnv, codec: Codec)
    requires j < |batch| && (env.late(j) || !Ready(batch[j], env.unpack(j), codec))
    ensures PutTexts(batch, j, env, codec) == Payloads(batch, j, |batch| - j, env)
  {
    hide TextIn, Ready, RecordOf;
    var ts, ps := PutTexts(batch, j, env, codec), Payloads(batch, j, |batch| - j, env);
    forall i | 0 <= i < |batch| - j
      ensures ts[i] == ps[i]
    {
      assert ts[i] == PutText(batch, j, j + i, env, codec);
    }
  }

  lemma NoForms(s: Storage, before: seq<Chunk>, batch: seq<Popped>, i: nat, late: bool, env: DrainEnv)
    requires i <= |batch|
    ensures before == before + Forms(s, batch, i, 0, late, env)
  {
  }

  lemma NoPutForms(s: Storage, before: seq<Chunk>, batch: seq<Popped>, env: DrainEnv)
    ensures before == before + PutForms(s, batch, |batch|, env)
  {
  }

  lemma CalmOne(env: DrainEnv, i: nat, n: nat, b: nat)
    requires i <= b < n
    ensures AllCalm(env, i, n) ==> Calm(env.write(b)) && AllCalm(env, i + 1, n)
  {
    hide Calm;
  }

  /** Without a failed send the payloads are put back, and whether they may be compressed depends on the time limit. */
  lemma PutPayloadForms(s: Storage, batch: seq<Popped>, j: nat, env: DrainEnv)
    requires j < |batch| && (env.late(j) || !Ready(batch[j], env.unpack(j), s.codec))
    ensures PutForms(s, batch, j, env) == Forms(s, batch, j, |batch| - j, env.late(j), env)
  {
    hide TextIn, Ready, RecordOf, Form;
    var ps, fs := PutForms(s, batch, j, env), Forms(s, batch, j, |batch| - j, env.late(j), env);
    forall b | 0 <= b < |batch| - j
      ensures ps[b] == fs[b]
    {
      assert PutText(batch, j, j + b, env, s.codec) == TextIn(batch[j + b].payload, env.behind(j + b));
      assert MayCompress(s, batch, j, j + b, env) == (env.late(j) ==> batch[j + b].algo == 1);
    }
  }

  /** After a failed send the chunk itself goes back first, raw if it was compressed. */
  lemma FailedForms(s: Storage, before: seq<Chunk>, batch: seq<Popped>, i: nat, env: DrainEnv)
    requires i < |batch| && !env.late(i) && Ready(batch[i], env.unpack(i), s.codec) && RecordOf(batch[i], s.codec).Some?
    ensures before + PutForms(s, batch, i, env)
         == before + [Form(s, TextIn(RecordOf(batch[i], s.codec).value, env.behind(i)), batch[i].algo != 1,
                           env.stackFree(i), env.bufferOk(i), env.now(i))]
          + Forms(s, batch, i + 1, |batch| - i - 1, false, env)
  {
    hide TextIn, Ready, RecordOf, Form;
    var front := Form(s, TextIn(RecordOf(batch[i], s.codec).value, env.behind(i)), batch[i].algo != 1,
                      env.stackFree(i), env.bufferOk(i), env.now(i));
    var ps, fs := PutForms(s, batch, i, env), [front] + Forms(s, batch, i + 1, |batch| - i - 1, false, env);
    forall b | 0 <= b < |batch| - i
      ensures ps[b] == fs[b]
    {
      assert PutText(batch, i, i + b, env, s.codec)
          == if b == 0 then TextIn(RecordOf(batch[i], s.codec).value, env.behind(i))
             else TextIn(batch[i + b].payload, env.behind(i + b));
      assert MayCompress(s, batch, i, i + b, env) == (b == 0 ==> batch[i].algo != 1);
      assert i + 1 + (b - 1) == i + b;
    }
  }

  /** After a failed send the first put text is the data that was sent. */
  lemma PutFailed(batch: seq<Popped>, i: nat, env: DrainEnv, codec: Codec)
    requires i < |batch| && !env.late(i) && Ready(batch[i], env.unpack(i), codec) && RecordOf(batch[i], codec).Some?
    ensures PutTexts(batch, i, env, codec)
         == [TextIn(RecordOf(batch[i], codec).value, env.behind(i))] + Payloads(batch, i + 1, |batch| - i - 1, env)
  {
    hide TextIn, Ready, RecordOf;
    var front := TextIn(RecordOf(batch[i], codec).value, env.behind(i));
    var rest := Payloads(batch, i + 1, |batch| - i - 1, env);
    forall b | 0 <= b < |batch| - i
      ensures PutTexts(batch, i, env, codec)[b] == ([front] + rest)[b]
    {
      assert PutTexts(batch, i, env, codec)[b] == PutText(batch, i, i + b, env, codec);
      assert i + 1 + (b - 1) == i + b;
    }
  }

  lemma NoWrites(log: seq<Record>, texts: seq<seq<byte>>)
    requires texts == []
    ensures AfterWrites(log, texts, []) == log
  {
  }

  lemma OneMoreWrite(log: seq<Record>, texts: seq<seq<byte>>, outs: seq<Outcome>, text: seq<byte>, o: Outcome)
    requires |texts| == |outs|
    ensures AfterWrites(log, texts + [text], outs + [o]) == AfterWrite(AfterWrites(log, texts, outs), text, o)
  {
    assert (texts + [text])[..|texts|] == texts && (outs + [o])[..|outs|] == outs;
  }

  lemma {:induction false} FirstWrite(log: seq<Record>, text: seq<byte>, o: Outcome, texts: seq<seq<byte>>,
                                      outs: seq<Outcome>)
    requires |texts| == |outs|
    ensures AfterWrites(log, [text] + texts, [o] + outs) == AfterWrites(AfterWrite(log, text, o), texts, outs)
  {
    if outs == [] {
      OneMoreWrite(log, [], [], text, o);
      assert [text] + texts == [] + [text] && [o] + outs == [] + [o];
    } else {
      var n := |outs| - 1;
      FirstWrite(log, text, o, texts[..n], outs[..n]);
      OneMoreWrite(log, [text] + texts[..n], [o] + outs[..n], texts[n], outs[n]);
      assert [text] + texts == [text] + texts[..n] + [texts[n]];
      assert [o] + outs == [o] + outs[..n] + [outs[n]];
    }
  }

  // ----- what a pass keeps -----

  lemma {:induction false} AllKept(log: seq<Record>, texts: seq<seq<byte>>, outs: seq<Outcome>)
    requires |texts| == |outs| && forall i :: 0 <= i < |outs| ==> outs[i] == KEPT
    ensures AfterWrites(log, texts, outs) == log + Somes(texts)
  {
    if outs != [] {
      var n := |outs| - 1;
      AllKept(log, texts[..n], outs[..n]);
      assert Somes(texts) == Somes(texts[..n]) + [Some(texts[n])];
    }
  }

  /**
   When every write succeeds without a purge, the pass rotates the unsent records to the
   back if and only if each of them is found again in its buffer.
   */
  lemma {:induction false} PassRotatesIff(rs: seq<Record>, batch: seq<Popped>, j: nat, env: DrainEnv, codec: Codec,
                                          outs: seq<Outcome>)
    requires j <= |batch| <= |rs| && |outs| == |batch| - j
    requires forall i :: 0 <= i < |outs| ==> outs[i] == KEPT
    ensures var k := |batch|;
      AfterWrites(rs[k..], PutTexts(batch, j, env, codec), outs) == rs[k..] + rs[j..k]
      <==> forall b :: j <= b < k ==> Some(PutText(batch, j, b, env, codec)) == rs[b]
  {
    AllKept(rs[|batch|..], PutTexts(batch, j, env, codec), outs);
    SameEnding(rs[|batch|..], Somes(PutTexts(batch, j, env, codec)), rs[j..|batch|]);
    AllFound(rs, batch, j, env, codec);
  }

  lemma {:induction false} AllFound(rs: seq<Record>, batch: seq<Popped>, j: nat, env: DrainEnv, codec: Codec)
    requires j <= |batch| <= |rs|
    ensures Somes(PutTexts(batch, j, env, codec)) == rs[j..|batch|]
       <==> forall b :: j <= b < |batch| ==> Some(PutText(batch, j, b, env, codec)) == rs[b]
  {
    hide PutText;
    var found := Somes(PutTexts(batch, j, env, codec));
    assert forall i :: 0 <= i < |batch| - j ==> found[i] == Some(PutText(batch, j, j + i, env, codec));
    forall b | j <= b < |batch|
      ensures Some(PutText(batch, j, b, env, codec)) == found[b - j]
    {
      assert j + (b - j) == b;
    }
  }

  lemma SameEnding<T>(a: seq<T>, x: seq<T>, y: seq<T>)
    ensures a + x == a + y <==> x == y
  {
    assert (a + x)[|a|..] == x && (a + y)[|a|..] == y;
  }

  /** The firmware's own records are found again if and only if a NUL happens to follow their buffer. */
  lemma TextFoundIff(batch: seq<Popped>, j: nat, b: nat, env: DrainEnv, codec: Codec)
    requires j <= b < |batch| && TextChunk(batch[b])
    ensures Some(PutText(batch, j, b, env, codec)) == RecordOf(batch[b], codec)
       <==> env.behind(b) == [] || env.behind(b)[0] == 0
  {
    hide TextIn;
    TextKeptIff(batch[b].payload, env.behind(b));
  }

  ghost predicate Terminated(env: DrainEnv, j: nat, k: nat) {
    forall b :: j <= b < k ==> env.behind(b) == [] || env.behind(b)[0] == 0
  }

  /** Over the firmware's own records the pass is a rotation if and only if a NUL follows each of these buffers. */
  lemma TextPassRotatesIff(cs: seq<Chunk>, k: nat, j: nat, env: DrainEnv, codec: Codec, outs: seq<Outcome>)
    requires j <= k <= |cs| && TextOnly(cs) && |outs| == k - j
    requires forall i :: 0 <= i < |outs| ==> outs[i] == KEPT
    ensures var rs := Records(cs, codec);
      AfterWrites(rs[k..], PutTexts(PoppedAll(cs[..k]), j, env, codec), outs) == rs[k..] + rs[j..k]
      <==> Terminated(env, j, k)
  {
    hide AfterWrites, PutText, TextChunk, RecordOf;
    var batch := PoppedAll(cs[..k]);
    PassRotatesIff(Records(cs, codec), batch, j, env, codec, outs);
    forall b | j <= b < k
      ensures Some(PutText(batch, j, b, env, codec)) == Records(cs, codec)[b]
         <==> env.behind(b) == [] || env.behind(b)[0] == 0
    {
      TextFoundIff(batch, j, b, env, codec);
    }
  }

  /** A compressed chunk that is put back as it was stored is never found again with a NUL behind it. */
  lemma CompressedIsNotFound(c: Chunk, data: seq<byte>, behind: seq<byte>, s: Storage, now: u32)
    requires s.Holds(c, data, now) && c.algo == 1 && Undoes(s.codec) && (behind == [] || behind[0] == 0)
    ensures RecordOf(PoppedOf(c), s.codec) == Some(data) && TextIn(c.payload, behind) != data
  {
    s.HoldsDecodes(c, data, now);
    UpToNulSplit(c.payload, behind);
  }

  /** What writes that fail or purge drop. */
  ghost function Dropped(log: seq<Record>, texts: seq<seq<byte>>, outs: seq<Outcome>): multiset<Record>
    requires |texts| == |outs|
  {
    if outs == [] then multiset{}
    else
      var n := |outs| - 1;
      Dropped(log, texts[..n], outs[..n]) + DroppedBy(AfterWrites(log, texts[..n], outs[..n]), texts[n], outs[n])
  }

  ghost function DroppedBy(log: seq<Record>, text: seq<byte>, o: Outcome): multiset<Record> {
    (if o.purged then multiset(log) else multiset{}) + (if o.stored then multiset{} else multiset{Some(text)})
  }

  lemma WriteConserves(log: seq<Record>, text: seq<byte>, o: Outcome)
    ensures multiset(AfterWrite(log, text, o)) + DroppedBy(log, text, o) == multiset(log) + multiset{Some(text)}
  {
  }

  lemma AddUp<T>(a: multiset<T>, d: multiset<T>, mid: multiset<T>, t: multiset<T>, e: multiset<T>, log: multiset<T>,
                 ts: multiset<T>)
    requires a + d == mid + t && mid + e == log + ts
    ensures a + (e + d) == log + (ts + t)
  {
    calc {
      a + (e + d);
      (a + d) + e;
      (mid + e) + t;
    }
  }

  lemma {:induction false} WritesConserve(log: seq<Record>, texts: seq<seq<byte>>, outs: seq<Outcome>)
    requires |texts| == |outs|
    ensures multiset(AfterWrites(log, texts, outs)) + Dropped(log, texts, outs)
         == multiset(log) + multiset(Somes(texts))
  {
    hide AfterWrite, DroppedBy;
    if outs == [] {
      assert Somes(texts) == [];
    } else {
      var n := |outs| - 1;
      WritesConserve(log, texts[..n], outs[..n]);
      var mid := AfterWrites(log, texts[..n], outs[..n]);
      WriteConserves(mid, texts[n], outs[n]);
      assert Somes(texts) == Somes(texts[..n]) + [Some(texts[n])];
      AddUp(multiset(AfterWrite(mid, texts[n], outs[n])), DroppedBy(mid, texts[n], outs[n]), multiset(mid),
            multiset{Some(texts[n])}, Dropped(log, texts[..n], outs[..n]), multiset(log), multiset(Somes(texts[..n])));
    }
  }

  /** A pass makes or loses no record beyond those its own writes drop or find changed in the buffer. */
  lemma PassConserves(rs: seq<Record>, j: nat, k: nat, texts: seq<seq<byte>>, outs: seq<Outcome>)
    requires j <= k <= |rs| && |texts| == |outs| == k - j
    ensures multiset(rs[..j]) + multiset(AfterWrites(rs[k..], texts, outs)) + Dropped(rs[k..], texts, outs)
          + multiset(rs[j..k])
         == multiset(rs) + multiset(Somes(texts))
  {
    hide AfterWrites, Dropped, Somes;
    WritesConserve(rs[k..], texts, outs);
    assert rs == rs[..j] + rs[j..k] + rs[k..];
    Regroup(multiset(rs[..j]), multiset(rs[j..k]), multiset(rs[k..]), multiset(AfterWrites(rs[k..], texts, outs)),
            Dropped(rs[k..], texts, outs), multiset(Somes(texts)));
  }

  lemma Regroup<T>(sent: multiset<T>, put: multiset<T>, rest: multiset<T>, after: multiset<T>, dropped: multiset<T>,
                   texts: multiset<T>)
    requires after + dropped == rest + texts
    ensures sent + after + dropped + put == sent + put + rest + texts
  {
    calc {
      sent + after + dropped + put;
      sent + put + (after + dropped);
    }
  }
}
