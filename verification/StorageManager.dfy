/**
 The storage manager: data.lz as a byte file that is rewritten step by step, with the
 cached chunk count beside it. Each method is one critical section of the mutex.
 */
module StorageManager {
  import opened Endian
  import opened Words
  import opened MslgFormat

  const COMPRESSION_MIN_BYTES: nat := 1024
  const COMPRESSION_MIN_SAVINGS_DIV: nat := 20
  const COMPRESSION_LEVEL: byte := 3
  const COMPRESSION_MIN_STACK_FREE: nat := 1024
  const SPIFFS_PURGE_THRESHOLD_PCT: nat := 90
  const COPY_BLOCK: nat := 1024

  /** The miniz codec: it may refuse; decompression is given the expected length. */
  datatype Codec = Codec(compress: seq<byte> -> Option<seq<byte>>, decompress: (seq<byte>, nat) -> Option<seq<byte>>)

  /** Decompression undoes compression. */
  ghost predicate Undoes(codec: Codec) {
    forall d, p :: codec.compress(d) == Some(p) ==> codec.decompress(p, |d|) == Some(d)
  }

  /** esp_spiffs_info: None when it fails. */
  datatype Space = Space(total: u32, used: u32)

  /** Which of the fallible steps of a chunk write succeed. */
  datatype WriteEnv = WriteEnv(lock: bool, before: Option<Space>, open: bool, write: bool,
                               after: Option<Space>, reopen: bool, rewrite: bool)

  /** Which of the fallible steps of a pop succeed; a copy may fail from some block on. */
  datatype PopEnv = PopEnv(lock: bool, alloc: nat -> bool, temp: bool, copyFailsAt: Option<nat>)

  /** At least 90 percent are used, as the 32-bit product used * 100 tells; never when nothing is known of the space. */
  predicate NearlyFull(info: Option<Space>) {
    info.Some? && info.value.total > 0
    && info.value.used * 100 % U32_MODULUS >= SPIFFS_PURGE_THRESHOLD_PCT * info.value.total
  }

  /** From 42,949,673 used bytes on, the product loses a multiple q of 2^32 before it is compared. */
  lemma WrappedUsage(info: Space, q: nat)
    requires info.total > 0 && q * U32_MODULUS <= info.used * 100 < (q + 1) * U32_MODULUS
    ensures NearlyFull(Some(info)) <==> info.used * 100 - q * U32_MODULUS >= 90 * info.total
    ensures q == 0 <==> info.used < 42_949_673
  {
    DivUnique(info.used * 100, U32_MODULUS, q, info.used * 100 - q * U32_MODULUS);
  }

  /** The smallest store whose full state the wrapped product hides. */
  lemma FullStoreIsMissed()
    ensures !NearlyFull(Some(Space(42_949_673, 42_949_673))) && NearlyFull(Some(Space(42_949_672, 42_949_672)))
  {
  }

  /** Reading a header at the front of the bytes at pos, as fread does. */
  lemma FrontHeaderAt(f: seq<byte>, pos: nat)
    requires pos <= |f|
    ensures FrontHeader(f[pos..]) == if pos + HDR <= |f| then Some(ReadHeader(f[pos..pos + HDR])) else None
  {
    if pos + HDR <= |f| {
      assert f[pos..][..HDR] == f[pos..pos + HDR];
    }
  }

  /** The header scan of storage_manager_get_mslg_chunk_count. */
  method CountHeaders(f: seq<byte>) returns (count: nat)
    ensures count == ScanCount(f)
  {
    hide ReadHeader;
    count := 0;
    var pos := 0;
    assert f[0..] == f;
    while pos + HDR <= |f|
      invariant ScanCount(f) == count + (if pos <= |f| then ScanCount(f[pos..]) else 0)
      decreases |f| - pos
    {
      FrontHeaderAt(f, pos);
      var h := ReadHeader(f[pos..pos + HDR]);
      if h.magic != MSLG_MAGIC {
        return;
      }
      count := count + 1;
      if pos + HDR + h.dataLen <= |f| {
        assert f[pos..][HDR + h.dataLen..] == f[pos + HDR + h.dataLen..];
      }
      pos := pos + HDR + h.dataLen;
    }
    if pos <= |f| {
      FrontHeaderAt(f, pos);
    }
  }

  /** The tail copy, 1024 bytes at a time; it fails when one of the blocks cannot be written. */
  method CopyTail(f: seq<byte>, start: nat, failsAt: Option<nat>) returns (ok: bool, out: seq<byte>)
    requires start <= |f|
    ensures ok <==> failsAt == None || |f| - start <= failsAt.value * 1024
    ensures ok ==> out == f[start..]
  {
    out := [];
    var pos, block := start, 0;
    while pos < |f|
      invariant start <= pos <= |f| && out == f[start..pos]
      invariant pos == Min(start + block * COPY_BLOCK, |f|)
      invariant failsAt.Some? && start + block * COPY_BLOCK <= |f| ==> block <= failsAt.value
      invariant failsAt.Some? ==> |f| - start <= failsAt.value * COPY_BLOCK || block <= failsAt.value
    {
      var n := Min(COPY_BLOCK, |f| - pos);
      if failsAt == Some(block) {
        return false, out;
      }
      out := out + f[pos..pos + n];
      pos := pos + n;
      block := block + 1;
    }
    ok := true;
  }

  /** One round of the batch read, with the file read at a position. */
  lemma ReadBatchAt(f: seq<byte>, pos: nat, i: nat, max: nat, alloc: nat -> bool)
    requires pos + HDR <= |f| && i < max
    ensures var h := ReadHeader(f[pos..pos + HDR]);
            var end := pos + HDR + h.dataLen;
            ReadBatch(f[pos..], i, max, alloc) ==
              if h.magic != MSLG_MAGIC then Batch([], f[pos + HDR..])
              else if !alloc(i) then Batch([], f[pos..])
              else if end > |f| then Batch([], [])
              else
                var next := ReadBatch(f[end..], i + 1, max, alloc);
                Batch([Popped(f[pos + HDR..end], h.rawLen, h.algo, h.timestamp)] + next.taken, next.rest)
  {
    hide ReadHeader;
    FrontHeaderAt(f, pos);
    var h := ReadHeader(f[pos..pos + HDR]);
    var end := pos + HDR + h.dataLen;
    assert f[pos..][HDR..] == f[pos + HDR..];
    if end <= |f| {
      assert f[pos..][HDR..HDR + h.dataLen] == f[pos + HDR..end];
      assert f[pos..][HDR + h.dataLen..] == f[end..];
    }
  }

  lemma ReadBatchEnds(f: seq<byte>, i: nat, max: nat, alloc: nat -> bool)
    requires i <= max && (i == max || |f| < HDR)
    ensures ReadBatch(f, i, max, alloc) == Batch([], if i == max then f else [])
  {
  }

  /** Phase 1 of the batch pop over any file. */
  method TakeBatch(f: seq<byte>, max: nat, alloc: nat -> bool) returns (taken: seq<Popped>, pos: nat)
    ensures pos <= |f|
    ensures ReadBatch(f, 0, max, alloc) == Batch(taken, f[pos..])
  {
    hide ReadHeader, ReadBatch;
    taken := [];
    pos := 0;
    assert f[0..] == f;
    ghost var goal := ReadBatch(f, 0, max, alloc);
    var i := 0;
    while i < max
      invariant i <= max && pos <= |f|
      invariant var b := ReadBatch(f[pos..], i, max, alloc); goal == Batch(taken + b.taken, b.rest)
      decreases max - i
    {
      if pos + HDR > |f| {
        ReadBatchEnds(f[pos..], i, max, alloc);
        pos := |f|;
        return;
      }
      ReadBatchAt(f, pos, i, max, alloc);
      var h := ReadHeader(f[pos..pos + HDR]);
      if h.magic != MSLG_MAGIC {
        pos := pos + HDR;
        return;
      }
      if !alloc(i) {
        // the header is given back
        return;
      }
      var end := pos + HDR + h.dataLen;
      if end > |f| {
        pos := |f|;
        return;
      }
      taken := taken + [Popped(f[pos + HDR..end], h.rawLen, h.algo, h.timestamp)];
      pos := end;
      i := i + 1;
    }
    ReadBatchEnds(f[pos..], max, max, alloc);
  }

  // ----- reading everything back -----

  /** The raw data a stored chunk stands for, when its payload can be decoded. */
  function Decoded(algo: byte, rawLen: u32, payload: seq<byte>, codec: Codec): Option<seq<byte>> {
    if algo == 1 then
      match codec.decompress(payload, rawLen)
      case Some(d) => if |d| == rawLen then Some(d) else None
      case None => None
    else Some(payload)
  }

  /** Which buffers for chunk i of a read can be allocated: for its payload, and for decompressing it. */
  datatype ReadEnv = ReadEnv(chunk: nat -> bool, raw: nat -> bool)

  /**
   What read_all_decompressed collects into room bytes, chunk i next: chunk after chunk,
   until the room is full, a buffer is missing, or a chunk is damaged (bad magic, short,
   wrong CRC, or undecodable).
   */
  function ReadLog(f: seq<byte>, i: nat, room: nat, env: ReadEnv, crc: Crc, codec: Codec): (out: seq<byte>)
    ensures |out| <= room
    decreases |f|
  {
    if room == 0 then []
    else match FrontHeader(f)
      case None => []
      case Some(h) =>
        if h.magic != MSLG_MAGIC || !env.chunk(i) || HDR + h.dataLen > |f| then []
        else
          var payload := f[HDR..HDR + h.dataLen];
          if crc(payload) != h.crc || (h.algo == 1 && !env.raw(i)) then []
          else match Decoded(h.algo, h.rawLen, payload, codec)
            case None => []
            case Some(d) =>
              if |d| >= room then d[..room]
              else d + ReadLog(f[HDR + h.dataLen..], i + 1, room - |d|, env, crc, codec)
  }

  /**
   What reading makes of the front of any file, by its bytes: nothing when the chunk there is
   damaged, the checksum at byte 16 included, or a buffer is missing; else its data and what follows.
   */
  lemma ReadFront(f: seq<byte>, i: nat, room: nat, env: ReadEnv, crc: Crc, codec: Codec)
    ensures room == 0 || !env.chunk(i) || !WholeChunk(f) ==> ReadLog(f, i, room, env, crc, codec) == []
    ensures room > 0 && env.chunk(i) && WholeChunk(f) ==>
      var end, out := 36 + WordAt(f, 12), ReadLog(f, i, room, env, crc, codec);
      var data := f[36..end];
      if crc(data) != WordAt(f, 16) then out == []
      else if f[6] != 1 then Continues(out, data, f[end..], i, room, env, crc, codec)
      else if !env.raw(i) || codec.decompress(data, WordAt(f, 8)).None? then out == []
      else
        var d := codec.decompress(data, WordAt(f, 8)).value;
        if |d| != WordAt(f, 8) then out == [] else Continues(out, d, f[end..], i, room, env, crc, codec)
  {
    hide FrontHeader, WordAt, Decoded;
    HeaderInFront(f);
    if WholeChunk(f) {
      DecodedIs(f[6], WordAt(f, 8), f[36..36 + WordAt(f, 12)], codec);
    }
  }

  lemma DecodedIs(algo: byte, rawLen: u32, data: seq<byte>, codec: Codec)
    ensures algo != 1 ==> Decoded(algo, rawLen, data, codec) == Some(data)
    ensures algo == 1 ==>
      var d := codec.decompress(data, rawLen);
      Decoded(algo, rawLen, data, codec) == if d.Some? && |d.value| == rawLen then d else None
  {
  }

  /** The data d and what is read of the rest, cut to the room. */
  ghost predicate Continues(out: seq<byte>, d: seq<byte>, rest: seq<byte>, i: nat, room: nat, env: ReadEnv, crc: Crc,
                            codec: Codec) {
    out == if |d| >= room then d[..room] else d + ReadLog(rest, i + 1, room - |d|, env, crc, codec)
  }

  /** One round of the decoding, with the file read at a position. */
  lemma ReadLogAt(f: seq<byte>, pos: nat, i: nat, room: nat, env: ReadEnv, crc: Crc, codec: Codec)
    requires pos + HDR <= |f| && room > 0
    ensures var h := ReadHeader(f[pos..pos + HDR]);
            var end := pos + HDR + h.dataLen;
            ReadLog(f[pos..], i, room, env, crc, codec) ==
              if h.magic != MSLG_MAGIC || !env.chunk(i) || end > |f| || crc(f[pos + HDR..end]) != h.crc
                 || (h.algo == 1 && !env.raw(i)) then []
              else match Decoded(h.algo, h.rawLen, f[pos + HDR..end], codec)
                case None => []
                case Some(d) =>
                  if |d| >= room then d[..room] else d + ReadLog(f[end..], i + 1, room - |d|, env, crc, codec)
  {
    hide ReadHeader, Decoded;
    FrontHeaderAt(f, pos);
    var h := ReadHeader(f[pos..pos + HDR]);
    var end := pos + HDR + h.dataLen;
    if end <= |f| {
      assert f[pos..][HDR..HDR + h.dataLen] == f[pos + HDR..end];
      assert f[pos..][HDR + h.dataLen..] == f[end..];
    }
  }

  lemma ReadLogEnds(f: seq<byte>, i: nat, room: nat, env: ReadEnv, crc: Crc, codec: Codec)
    requires |f| < HDR || room == 0
    ensures ReadLog(f, i, room, env, crc, codec) == []
  {
  }

  /** The decoding loop of storage_manager_read_all_decompressed. */
  method CollectLog(f: seq<byte>, room: nat, env: ReadEnv, crc: Crc, codec: Codec) returns (out: seq<byte>)
    ensures out == ReadLog(f, 0, room, env, crc, codec)
  {
    hide ReadHeader, Decoded, ReadLog;
    out := [];
    var pos, i := 0, 0;
    assert f[0..] == f;
    ghost var goal := ReadLog(f, 0, room, env, crc, codec);
    while |out| < room
      invariant pos <= |f| && |out| <= room
      invariant goal == out + ReadLog(f[pos..], i, room - |out|, env, crc, codec)
      decreases |f| - pos
    {
      if pos + HDR > |f| {
        ReadLogEnds(f[pos..], i, room - |out|, env, crc, codec);
        return;
      }
      ReadLogAt(f, pos, i, room - |out|, env, crc, codec);
      var h := ReadHeader(f[pos..pos + HDR]);
      if h.magic != MSLG_MAGIC || !env.chunk(i) {
        return;
      }
      var end := pos + HDR + h.dataLen;
      if end > |f| {
        return;
      }
      var payload := f[pos + HDR..end];
      if crc(payload) != h.crc || (h.algo == 1 && !env.raw(i)) {
        return;
      }
      var d := Decoded(h.algo, h.rawLen, payload, codec);
      if d == None {
        return;
      }
      var n := Min(|d.value|, room - |out|);
      if n == room - |out| {
        ReadLogEnds(f[end..], i + 1, 0, env, crc, codec);
      }
      out := out + d.value[..n];
      pos := end;
      i := i + 1;
    }
    ReadLogEnds(f[pos..], i, 0, env, crc, codec);
  }

  function Concat(rs: seq<seq<byte>>): seq<byte> {
    if rs == [] then [] else rs[0] + Concat(rs[1..])
  }

  /** Chunk i stores record i, raw or compressed. */
  ghost predicate Stores(cs: seq<Chunk>, rs: seq<seq<byte>>, codec: Codec) {
    && |cs| == |rs|
    && forall i :: 0 <= i < |cs| ==> Decoded(cs[i].algo, cs[i].rawLen, cs[i].payload, codec) == Some(rs[i])
  }

  /** How many chunks are read before a buffer is missing, chunk i first. */
  function Readable(cs: seq<Chunk>, i: nat, env: ReadEnv): (m: nat)
    ensures m <= |cs|
  {
    if cs == [] || !env.chunk(i) || (cs[0].algo == 1 && !env.raw(i)) then 0 else 1 + Readable(cs[1..], i + 1, env)
  }

  function Cut(s: seq<byte>, room: nat): (r: seq<byte>)
    ensures |r| == Min(room, |s|)
  {
    s[..Min(room, |s|)]
  }

  /**
   Reading a log back gives the records it stores, cut to the room, whichever mix of raw
   and compressed chunks holds them; it ends early where a buffer is missing.
   */
  lemma {:induction false} ReadBack(cs: seq<Chunk>, rs: seq<seq<byte>>, i: nat, room: nat, env: ReadEnv, crc: Crc,
                                    codec: Codec)
    requires ValidChunks(cs) && Stores(cs, rs, codec)
    ensures ReadLog(LogBytes(cs, crc), i, room, env, crc, codec) == Cut(Concat(rs[..Readable(cs, i, env)]), room)
  {
    hide ReadHeader, LogBytes, Decoded, ReadLog, Concat, Cut;
    var m := Readable(cs, i, env);
    if cs == [] {
      LogEmpty(cs, crc);
      ReadLogEnds([], i, room, env, crc, codec);
      CutNothing(room);
    } else if room == 0 {
      ReadLogEnds(LogBytes(cs, crc), i, room, env, crc, codec);
    } else {
      ReadFirst(cs, i, room, env, crc, codec);
      CutNothing(room);
      if m > 0 {
        assert rs[..m] == [rs[0]] + rs[1..][..m - 1];
        CutFirst(rs[0], rs[1..][..m - 1], room);
        if |rs[0]| < room {
          ReadBack(cs[1..], rs[1..], i + 1, room - |rs[0]|, env, crc, codec);
        }
      }
    }
  }

  /** Reading a log, up to its first chunk. */
  lemma ReadFirst(cs: seq<Chunk>, i: nat, room: nat, env: ReadEnv, crc: Crc, codec: Codec)
    requires ValidChunks(cs) && cs != [] && room > 0
    ensures ReadLog(LogBytes(cs, crc), i, room, env, crc, codec) ==
      if !env.chunk(i) || (cs[0].algo == 1 && !env.raw(i)) then []
      else match Decoded(cs[0].algo, cs[0].rawLen, cs[0].payload, codec)
        case None => []
        case Some(d) =>
          if |d| >= room then d[..room]
          else d + ReadLog(LogBytes(cs[1..], crc), i + 1, room - |d|, env, crc, codec)
  {
    hide ReadHeader, LogBytes, Decoded, ReadLog;
    var f, n := LogBytes(cs, crc), |cs[0].payload|;
    FrontChunk(cs, crc);
    ReadLogAt(f, 0, i, room, env, crc, codec);
    assert f[0..] == f && f[0..HDR] == f[..HDR] && f[0 + HDR..0 + HDR + n] == f[HDR..HDR + n];
  }

  lemma CutNothing(room: nat)
    ensures Cut(Concat([]), room) == []
  {
  }

  lemma CutFirst(d: seq<byte>, rs: seq<seq<byte>>, room: nat)
    ensures Cut(Concat([d] + rs), room)
         == if |d| >= room then d[..room] else d + Cut(Concat(rs), room - |d|)
  {
    assert ([d] + rs)[1..] == rs;
  }

  // ----- the manager -----

  class Storage {
    const crc: Crc
    const codec: Codec
    const nodeId: u64
    var dataLz: Option<seq<byte>>
    var dataTxt: Option<seq<byte>>
    var count: int
    ghost var chunks: seq<Chunk>

    /** data.lz is the log of the chunks; a missing file is the empty log. */
    ghost predicate Valid()
      reads this
    {
      && ValidChunks(chunks)
      && count >= -1
      && match dataLz {
           case None => chunks == []
           case Some(f) => f == LogBytes(chunks, crc)
         }
    }

    /** The cached count, once seeded, is what a full header scan would find. */
    ghost predicate Synced()
      reads this
    {
      count >= 0 ==> count == (match dataLz case None => 0 case Some(f) => ScanCount(f))
    }

    /** The scan sees the chunks, so a seeded count is their number. */
    lemma ScanIsChunks()
      requires Valid()
      ensures (match dataLz case None => 0 case Some(f) => ScanCount(f)) == |chunks|
      ensures Synced() <==> (count >= 0 ==> count == |chunks|)
    {
      ScanCountsChunks(chunks, crc);
    }

    constructor (crc: Crc, codec: Codec, nodeId: u64)
      ensures Valid() && Synced() && chunks == [] && count == -1
      ensures this.crc == crc && this.codec == codec
    {
      this.crc, this.codec, this.nodeId := crc, codec, nodeId;
      dataLz, dataTxt, count, chunks := None, None, -1, [];
    }

    /** storage_manager_purge_if_full: all data is dropped at 90 percent usage. */
    method PurgeIfFull(info: Option<Space>) returns (purged: bool)
      requires Valid()
      modifies this
      ensures Valid() && purged == NearlyFull(info)
      ensures info == None || info.value.total == 0 ==> !purged
      ensures info.Some? && info.value.total > 0 && info.value.used * 100 < U32_MODULUS ==>
        (purged <==> 10 * info.value.used >= 9 * info.value.total)
      ensures purged ==> chunks == [] && count == 0 && Synced() && dataLz == None && dataTxt == None
      ensures !purged ==> chunks == old(chunks) && count == old(count)
      ensures !purged ==> dataLz == old(dataLz) && dataTxt == old(dataTxt)
    {
      if info == None || info.value.total == 0 {
        return false;
      }
      var usedPct := info.value.used * 100 % U32_MODULUS / info.value.total;
      PercentIsProduct(info.value.used * 100 % U32_MODULUS, info.value.total);
      if usedPct < SPIFFS_PURGE_THRESHOLD_PCT {
        return false;
      }
      dataLz, dataTxt, count, chunks := None, None, 0, [];
      purged := true;
    }

    /** Opening data.lz for appending and writing one chunk to its end. */
    method Append(c: Chunk)
      requires Valid() && |c.payload| < U32_MODULUS
      modifies `dataLz, `chunks
      ensures Valid() && chunks == old(chunks) + [c]
    {
      LogConcat(chunks, [c], crc);
      OneChunk(c, crc);
      var f := match dataLz case None => [] case Some(b) => b;
      LogEmpty(chunks, crc);
      dataLz := Some(f + ChunkBytes(c, crc));
      chunks := chunks + [c];
    }

    /**
     write_mslg_chunk: purge when nearly full, append, and on a failed write purge and
     retry once. The chunk is appended exactly when the status is Ok; nothing else is
     lost unless the store was purged.
     */
    method WriteMslgChunk(payload: seq<byte>, rawLen: u32, compressed: bool, now: u32, env: WriteEnv)
      returns (status: Status, ghost purged: bool)
      requires Valid() && |payload| < U32_MODULUS
      modifies this
      ensures Valid() && (old(Synced()) ==> Synced())
      ensures var c := Chunk(if compressed then 1 else 0, if compressed then COMPRESSION_LEVEL else 0,
                             rawLen, nodeId, now, payload);
        && (status == Ok || status == Fail || status == Timeout)
        && (status == Timeout <==> !env.lock)
        && (status == Ok ==> chunks == (if purged then [] else old(chunks)) + [c])
        && (status != Ok ==> chunks == if purged then [] else old(chunks))
      ensures status == Ok <==>
        env.lock && env.open && (env.write || (NearlyFull(env.after) && env.reopen && env.rewrite))
      ensures purged <==>
        env.lock && (NearlyFull(env.before) || (env.open && !env.write && NearlyFull(env.after)))
      ensures old(count) >= 0 ==> count >= 0
    {
      purged := false;
      if !env.lock {
        return Timeout, false;
      }
      ghost var wasSynced := Synced();
      ScanIsChunks();
      var full := PurgeIfFull(env.before);
      purged := full;
      if !env.open {
        return Fail, purged;
      }
      var c := Chunk(if compressed then 1 else 0, if compressed then COMPRESSION_LEVEL else 0,
                     rawLen, nodeId, now, payload);
      var writeOk := env.write;
      if writeOk {
        Append(c);
      } else {
        full := PurgeIfFull(env.after);
        purged := purged || full;
        if full && env.reopen {
          writeOk := env.rewrite;
          if writeOk {
            Append(c);
          }
        }
        if !writeOk {
          ScanIsChunks();
          return Fail, purged;
        }
      }
      if count >= 0 {
        count := count + 1;
      }
      ScanIsChunks();
      status := Ok;
    }

    /** storage_manager_write_compressed: compress from 1024 bytes on, when it saves more than a twentieth. */
    method WriteCompressed(data: seq<byte>, enable: bool, stackFree: nat, bufferOk: bool, now: u32, env: WriteEnv)
      returns (status: Status, ghost purged: bool)
      requires Valid() && |data| < U32_MODULUS
      modifies this
      ensures Valid() && (old(Synced()) ==> Synced())
      ensures status != Ok ==> chunks == if purged then [] else old(chunks)
      ensures status == Ok ==>
        && |chunks| > 0
        && chunks[..|chunks| - 1] == (if purged then [] else old(chunks))
        && Holds(chunks[|chunks| - 1], data, now)
      ensures status == Ok ==>
        var packed := codec.compress(data);
        chunks[|chunks| - 1] ==
          if enable && stackFree >= 1024 && |data| >= 1024 && bufferOk && packed.Some?
             && 20 * (HDR + |packed.value|) < 19 * (HDR + |data|)
          then Chunk(1, 3, |data|, nodeId, now, packed.value)
          else Chunk(0, 0, |data|, nodeId, now, data)
      ensures status == Timeout <==> !env.lock
      ensures status == Ok <==>
        env.lock && env.open && (env.write || (NearlyFull(env.after) && env.reopen && env.rewrite))
      ensures purged <==>
        env.lock && (NearlyFull(env.before) || (env.open && !env.write && NearlyFull(env.after)))
      ensures old(count) >= 0 ==> count >= 0
    {
      hide Valid, Synced, NearlyFull;
      var enabled := enable && stackFree >= COMPRESSION_MIN_STACK_FREE;
      if enabled && |data| >= COMPRESSION_MIN_BYTES && bufferOk {
        var packed := codec.compress(data);
        var rawOverhead := HDR + |data|;
        Twentieth(HDR + (if packed.Some? then |packed.value| else 0), rawOverhead);
        if packed.Some? && HDR + |packed.value| < rawOverhead - rawOverhead / COMPRESSION_MIN_SAVINGS_DIV {
          status, purged := WriteMslgChunk(packed.value, |data|, true, now, env);
          return;
        }
      }
      status, purged := WriteMslgChunk(data, |data|, false, now, env);
    }

    /** A chunk written for data: raw, or its compressed form when that is small enough. */
    ghost predicate Holds(c: Chunk, data: seq<byte>, now: u32)
    {
      && c.timestamp == now && c.nodeId == nodeId && c.rawLen == |data|
      && ((c.algo == 0 && c.level == 0 && c.payload == data)
          || (c.algo == 1 && c.level == COMPRESSION_LEVEL && |data| >= COMPRESSION_MIN_BYTES
              && codec.compress(data) == Some(c.payload)
              && HDR + |c.payload| < HDR + |data| - (HDR + |data|) / COMPRESSION_MIN_SAVINGS_DIV))
    }

    /** With a codec whose decompression undoes its compression, a stored chunk decodes to the data. */
    lemma HoldsDecodes(c: Chunk, data: seq<byte>, now: u32)
      requires Holds(c, data, now)
      requires Undoes(codec)
      ensures Decoded(c.algo, c.rawLen, c.payload, codec) == Some(data)
    {
    }

    /** storage_manager_clear */
    method Clear()
      requires Valid()
      modifies this
      ensures Valid() && Synced() && chunks == [] && count == 0 && dataLz == None && dataTxt == None
    {
      dataTxt := None;
      dataLz, chunks := None, [];
      count := 0;
    }

    /** storage_manager_get_mslg_chunk_count: the cached count, or one scan that seeds it. */
    method GetChunkCount(lock: bool) returns (n: int)
      requires Valid() && Synced()
      modifies `count
      ensures Valid() && Synced()
      ensures old(count) >= 0 || lock ==> n == |chunks| && count == |chunks|
      ensures old(count) < 0 && !lock ==> n == 0 && count == old(count)
    {
      ScanIsChunks();
      if count >= 0 {
        return count;
      }
      if !lock {
        return 0;
      }
      if dataLz == None {
        count := 0;
        return 0;
      }
      n := CountHeaders(dataLz.value);
      count := n;
    }

    /** Whether the copy of the remaining log gets through. */
    ghost predicate CopySucceeds(rest: seq<Chunk>, env: PopEnv)
      requires ValidChunks(rest)
    {
      env.copyFailsAt == None || |LogBytes(rest, crc)| <= env.copyFailsAt.value * 1024
    }

    /** storage_manager_pop_mslg_chunk: the first chunk, or the log as it was. */
    method PopChunk(env: PopEnv) returns (status: Status, out: Option<Popped>)
      requires Valid()
      modifies this
      ensures Valid() && (old(Synced()) ==> Synced())
      ensures status == Ok <==> (
        && env.lock && old(chunks) != [] && env.alloc(0) && env.temp
        && CopySucceeds(old(chunks)[1..], env))
      ensures status != Ok ==>
        status == if !env.lock then Timeout else if old(chunks) == [] then NotFound
                  else if !env.alloc(0) then NoMem else Fail
      ensures status == Ok ==> out == Some(PoppedOf(old(chunks)[0])) && chunks == old(chunks)[1..]
      ensures status != Ok ==> out == None && chunks == old(chunks) && dataLz == old(dataLz) && count == old(count)
      ensures old(count) >= 0 ==> count >= 0
      ensures dataTxt == old(dataTxt)
    {
      hide ReadHeader, LogBytes;
      out := None;
      if !env.lock {
        return Timeout, None;
      }
      if dataLz == None {
        return NotFound, None;
      }
      var f := dataLz.value;
      ScanIsChunks();
      LogEmpty(chunks, crc);
      if |f| < HDR {
        if chunks != [] {
          FrontChunk(chunks, crc);
        }
        return NotFound, None;
      }
      FrontChunk(chunks, crc);
      var h := ReadHeader(f[..HDR]);
      if h.magic != MSLG_MAGIC {
        return InvalidState, None;
      }
      if !env.alloc(0) {
        return NoMem, None;
      }
      if HDR + h.dataLen > |f| || !env.temp {
        return Fail, None;
      }
      var payload := f[HDR..HDR + h.dataLen];
      var ok, tail := CopyTail(f, HDR + h.dataLen, env.copyFailsAt);
      if !ok {
        return Fail, None;
      }
      dataLz := Some(tail);
      chunks := chunks[1..];
      if count > 0 {
        count := count - 1;
      }
      ScanIsChunks();
      return Ok, Some(Popped(payload, h.rawLen, h.algo, h.timestamp));
    }

    /**
     storage_manager_pop_mslg_chunks_batch: up to max chunks off the front in one rewrite.
     Every other status leaves the log and the count alone. A seeded count stays right; an
     unseeded one becomes 0, which is right exactly when nothing is left.
     */
    method PopBatch(max: int, env: PopEnv) returns (status: Status, out: seq<Popped>)
      requires Valid()
      modifies this
      ensures Valid() && dataTxt == old(dataTxt)
      ensures max <= 0 ==> status == InvalidArg
      ensures max > 0 && !env.lock ==> status == Timeout
      ensures max > 0 && env.lock ==>
        var k := BatchSize(|old(chunks)|, 0, max, env.alloc);
        && (k == 0 ==> status == NotFound)
        && (k > 0 ==> status == if |old(chunks)| == k || (env.temp && CopySucceeds(old(chunks)[k..], env)) then Ok else Fail)
        && (status == Ok ==> out == PoppedAll(old(chunks)[..k]) && chunks == old(chunks)[k..])
      ensures status != Ok ==> out == [] && chunks == old(chunks) && dataLz == old(dataLz) && count == old(count)
      ensures status == Ok && old(count) >= 0 ==> count >= 0 && (old(Synced()) ==> Synced())
      ensures status == Ok && old(count) < 0 ==> count == 0 && (Synced() <==> chunks == [])
    {
      hide ReadHeader, LogBytes, ReadBatch, ScanCount;
      out := [];
      if max <= 0 {
        return InvalidArg, [];
      }
      if !env.lock {
        return Timeout, [];
      }
      if dataLz == None {
        return NotFound, [];
      }
      var f := dataLz.value;
      ScanIsChunks();
      BatchOfLog(chunks, crc, 0, max, env.alloc);
      ghost var k := BatchSize(|chunks|, 0, max, env.alloc);
      var taken, pos := TakeBatch(f, max, env.alloc);
      if |taken| == 0 {
        return NotFound, [];
      }
      ghost var rest := chunks[k..];
      LogEmpty(rest, crc);
      if pos < |f| {
        if !env.temp {
          return Fail, [];
        }
        var ok, tail := CopyTail(f, pos, env.copyFailsAt);
        if !ok {
          return Fail, [];
        }
        dataLz := Some(tail);
      } else {
        dataLz := None;
      }
      chunks := rest;
      count := if count >= |taken| then count - |taken| else 0;
      ScanIsChunks();
      return Ok, taken;
    }

    /**
     storage_manager_read_all_decompressed with a buffer of maxLen bytes: the decoded log,
     cut to maxLen - 1 bytes, or the plain-text file when the log yields nothing.
     */
    method ReadAllDecompressed(maxLen: nat, bufferOk: bool, env: ReadEnv) returns (status: Status, out: seq<byte>)
      requires Valid()
      ensures maxLen == 0 ==> status == InvalidArg
      ensures maxLen > 0 && dataLz.Some? && !bufferOk ==> status == NoMem
      ensures maxLen > 0 && (dataLz.Some? ==> bufferOk) ==>
        var log := if dataLz.Some? then ReadLog(dataLz.value, 0, maxLen - 1, env, crc, codec) else [];
        if log != [] then status == Ok && out == log
        else if dataTxt.Some? && bufferOk then
          status == Ok && out == dataTxt.value[..Min(maxLen - 1, |dataTxt.value|)]
        else status == NotFound
    {
      hide ReadLog, LogBytes, ReadHeader;
      out := [];
      if maxLen == 0 {
        return InvalidArg, [];
      }
      if dataLz.Some? {
        if !bufferOk {
          return NoMem, [];
        }
        var log := CollectLog(dataLz.value, maxLen - 1, env, crc, codec);
        if |log| > 0 {
          return Ok, log;
        }
      }
      if dataTxt.Some? && bufferOk {
        return Ok, dataTxt.value[..Min(maxLen - 1, |dataTxt.value|)];
      }
      status := NotFound;
    }
  }

  /** An environment in which a write neither fails nor finds the store nearly full. */
  predicate Calm(env: WriteEnv) {
    env.lock && env.open && env.write && !NearlyFull(env.before)
  }

  /** Storing records one after the other. */
  method StoreAll(s: Storage, records: seq<seq<byte>>, enable: nat -> bool, stackFree: nat -> nat,
                  bufferOk: nat -> bool, now: nat -> u32, env: nat -> WriteEnv)
    requires s.Valid() && s.chunks == [] && Undoes(s.codec)
    requires forall i :: 0 <= i < |records| ==> |records[i]| < U32_MODULUS
    requires forall i :: Calm(env(i))
    modifies s
    ensures s.Valid() && Stores(s.chunks, records, s.codec)
  {
    hide Decoded, LogBytes, NearlyFull, Undoes;
    for i := 0 to |records|
      invariant s.Valid() && Stores(s.chunks, records[..i], s.codec)
    {
      ghost var before := s.chunks;
      ghost var status, purged := s.WriteCompressed(records[i], enable(i), stackFree(i), bufferOk(i), now(i), env(i));
      assert s.chunks == before + [s.chunks[|s.chunks| - 1]];
      s.HoldsDecodes(s.chunks[|s.chunks| - 1], records[i], now(i));
    }
    assert records[..|records|] == records;
  }

  /**
   Writing records and reading everything back: their concatenation up to the first missing
   read buffer, cut to maxLen - 1 bytes, whichever of them the flags and sizes made compressed.
   */
  method WriteThenRead(s: Storage, records: seq<seq<byte>>, enable: nat -> bool, stackFree: nat -> nat,
                       bufferOk: nat -> bool, now: nat -> u32, env: nat -> WriteEnv, maxLen: nat, renv: ReadEnv)
    returns (status: Status, out: seq<byte>)
    requires s.Valid() && s.chunks == [] && Undoes(s.codec) && maxLen > 0
    requires forall i :: 0 <= i < |records| ==> |records[i]| < U32_MODULUS
    requires forall i :: Calm(env(i))
    modifies s
    ensures s.Valid() && |s.chunks| == |records|
    ensures var text := Cut(Concat(records[..Readable(s.chunks, 0, renv)]), maxLen - 1);
            text != [] ==> status == Ok && out == text
    ensures (forall i :: renv.chunk(i) && renv.raw(i)) ==> Readable(s.chunks, 0, renv) == |records|
  {
    hide Decoded, LogBytes, ReadLog, NearlyFull, Undoes;
    StoreAll(s, records, enable, stackFree, bufferOk, now, env);
    ReadBack(s.chunks, records, 0, maxLen - 1, renv, s.crc, s.codec);
    LogEmpty(s.chunks, s.crc);
    AllReadable(s.chunks, 0, renv);
    status, out := s.ReadAllDecompressed(maxLen, true, renv);
  }

  lemma {:induction false} AllReadable(cs: seq<Chunk>, i: nat, env: ReadEnv)
    ensures (forall i :: env.chunk(i) && env.raw(i)) ==> Readable(cs, i, env) == |cs|
  {
    if cs != [] {
      AllReadable(cs[1..], i + 1, env);
    }
  }

  // ----- the cached count over whole runs -----

  /** One call of the storage manager, with what its environment does. */
  datatype Op =
    | OpWrite(data: seq<byte>, enable: bool, stackFree: nat, bufferOk: bool, now: u32, wenv: WriteEnv)
    | OpPop(penv: PopEnv)
    | OpPopBatch(max: int, penv: PopEnv)
    | OpPurge(info: Option<Space>)
    | OpClear
    | OpCount(lock: bool)

  ghost predicate ValidOp(op: Op) {
    op.OpWrite? ==> |op.data| < U32_MODULUS
  }

  method Perform(s: Storage, op: Op)
    requires s.Valid() && s.Synced() && s.count >= 0 && ValidOp(op)
    modifies s
    ensures s.Valid() && s.Synced() && s.count >= 0
  {
    hide ScanCount, LogBytes, BatchSize, NearlyFull;
    match op {
      case OpWrite(data, enable, stackFree, bufferOk, now, wenv) =>
        ghost var st, p := s.WriteCompressed(data, enable, stackFree, bufferOk, now, wenv);
      case OpPop(penv) =>
        var st, o := s.PopChunk(penv);
      case OpPopBatch(max, penv) =>
        var st, o := s.PopBatch(max, penv);
      case OpPurge(info) =>
        var p := s.PurgeIfFull(info);
      case OpClear =>
        s.Clear();
      case OpCount(lock) =>
        var n := s.GetChunkCount(lock);
    }
  }

  /** Once seeded, the cached count equals the header scan after every run of operations. */
  method RunKeepsCount(s: Storage, ops: seq<Op>)
    requires s.Valid() && s.Synced() && s.count >= 0
    requires forall i :: 0 <= i < |ops| ==> ValidOp(ops[i])
    modifies s
    ensures s.Valid() && s.count >= 0
    ensures s.count == |s.chunks| == (match s.dataLz case None => 0 case Some(f) => ScanCount(f))
  {
    hide ScanCount, LogBytes;
    for i := 0 to |ops|
      invariant s.Valid() && s.Synced() && s.count >= 0
    {
      Perform(s, ops[i]);
    }
    s.ScanIsChunks();
  }

  /** Comparing the quotient is comparing the product. */
  lemma PercentIsProduct(x: nat, total: nat)
    requires total > 0
    ensures x / total < SPIFFS_PURGE_THRESHOLD_PCT <==> x < SPIFFS_PURGE_THRESHOLD_PCT * total
  {
    var d := x / total;
    assert x == total * d + x % total;
    if d < SPIFFS_PURGE_THRESHOLD_PCT {
      MulMonotone(d + 1, SPIFFS_PURGE_THRESHOLD_PCT, total);
    } else {
      MulMonotone(SPIFFS_PURGE_THRESHOLD_PCT, d, total);
    }
  }

  /** Saving more than the whole twentieths is saving more than a twentieth. */
  lemma Twentieth(a: nat, b: nat)
    ensures a < b - b / COMPRESSION_MIN_SAVINGS_DIV <==> 20 * a < 19 * b
  {
    var q := b / COMPRESSION_MIN_SAVINGS_DIV;
    assert b == 20 * q + b % 20;
  }

  lemma OneChunk(c: Chunk, crc: Crc)
    requires |c.payload| < U32_MODULUS
    ensures ValidChunks([c]) && LogBytes([c], crc) == ChunkBytes(c, crc)
  {
    assert LogBytes([c], crc) == ChunkBytes(c, crc) + LogBytes([c][1..], crc);
  }
}
