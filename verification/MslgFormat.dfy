/**
 The byte format of the MSLG log: a 36-byte packed header and a payload per chunk,
 and what the readers make of any byte string, a log or not.
 */
module MslgFormat {
  import opened Words
  import opened Endian

  const MSLG_MAGIC: u32 := 0x4D534C47
  const MSLG_VERSION: nat := 2
  const HDR: nat := 36

  type u64 = x: int | 0 <= x < 0x1_0000_0000_0000_0000

  /** The header fields a writer chooses; magic, version, data_len, crc32 and reserved follow. */
  datatype Chunk = Chunk(algo: byte, level: byte, rawLen: u32, nodeId: u64, timestamp: u32, payload: seq<byte>)

  /** The header fields the readers look at. */
  datatype Header = Header(magic: u32, algo: byte, rawLen: u32, dataLen: u32, crc: u32, timestamp: u32)

  type Crc = seq<byte> -> u32

  /** The packed header struct. */
  function HeaderBytes(c: Chunk, crc: Crc): (b: seq<byte>)
    requires |c.payload| < U32_MODULUS
    ensures |b| == HDR
  {
    Le32(MSLG_MAGIC) + Le16(MSLG_VERSION) + [c.algo, c.level] + Le32(c.rawLen) + Le32(|c.payload|)
    + Le32(crc(c.payload)) + Le64(c.nodeId) + Le32(c.timestamp) + Le32(0)
  }

  function ReadHeader(b: seq<byte>): Header
    requires |b| == HDR
  {
    Header(Rd32(b[0..4]), b[6], Rd32(b[8..12]), Rd32(b[12..16]), Rd32(b[16..20]), Rd32(b[28..32]))
  }

  function ChunkBytes(c: Chunk, crc: Crc): (b: seq<byte>)
    requires |c.payload| < U32_MODULUS
    ensures |b| == HDR + |c.payload|
  {
    HeaderBytes(c, crc) + c.payload
  }

  /** A header is read back field by field. */
  lemma HeaderRoundTrip(c: Chunk, crc: Crc)
    requires |c.payload| < U32_MODULUS
    ensures ReadHeader(HeaderBytes(c, crc))
         == Header(MSLG_MAGIC, c.algo, c.rawLen, |c.payload|, crc(c.payload), c.timestamp)
  {
    hide Le16, Le32, Le64, Rd32;
    var b := HeaderBytes(c, crc);
    assert b[0..4] == Le32(MSLG_MAGIC);
    assert b[6] == c.algo;
    assert b[8..12] == Le32(c.rawLen);
    assert b[12..16] == Le32(|c.payload|);
    assert b[16..20] == Le32(crc(c.payload));
    assert b[28..32] == Le32(c.timestamp);
    Le32RoundTrip(MSLG_MAGIC);
    Le32RoundTrip(c.rawLen);
    Le32RoundTrip(|c.payload|);
    Le32RoundTrip(crc(c.payload));
    Le32RoundTrip(c.timestamp);
  }

  /** Every byte of the header, by its offset: the words with their least byte first. */
  lemma HeaderLayout(c: Chunk, crc: Crc)
    requires |c.payload| < U32_MODULUS
    ensures var b := HeaderBytes(c, crc);
      && WordAt(b, 0) == 0x4D534C47 && b[4..8] == [2, 0, c.algo, c.level]
      && WordAt(b, 8) == c.rawLen && WordAt(b, 12) == |c.payload| && WordAt(b, 16) == crc(c.payload)
      && WordAt(b, 20) + 0x1_0000_0000 * WordAt(b, 24) == c.nodeId
      && WordAt(b, 28) == c.timestamp && WordAt(b, 32) == 0
  {
    var b := HeaderBytes(c, crc);
    var low, high := c.nodeId % U32_MODULUS, c.nodeId / U32_MODULUS;
    assert Le64(c.nodeId) == Le32(low) + Le32(high);
    assert b[4..6] == [2, 0] by {
      assert Le16(MSLG_VERSION) == [2, 0];
    }
    WordIs(b, 0, MSLG_MAGIC);
    WordIs(b, 8, c.rawLen);
    WordIs(b, 12, |c.payload|);
    WordIs(b, 16, crc(c.payload));
    WordIs(b, 20, low);
    WordIs(b, 24, high);
    WordIs(b, 28, c.timestamp);
    WordIs(b, 32, 0);
  }

  lemma WordIs(b: seq<byte>, i: nat, v: u32)
    requires i + 4 <= |b| && b[i..i + 4] == Le32(v)
    ensures WordAt(b, i) == v
  {
    Le32RoundTrip(v);
    var w := b[i..i + 4];
    assert w[0] == b[i] && w[1] == b[i + 1] && w[2] == b[i + 2] && w[3] == b[i + 3];
    hide Le32;
  }

  // ----- logs -----

  predicate ValidChunks(cs: seq<Chunk>) {
    forall i :: 0 <= i < |cs| ==> |cs[i].payload| < U32_MODULUS
  }

  /** The file that holds these chunks. */
  function LogBytes(cs: seq<Chunk>, crc: Crc): seq<byte>
    requires ValidChunks(cs)
  {
    if cs == [] then [] else ChunkBytes(cs[0], crc) + LogBytes(cs[1..], crc)
  }

  lemma {:induction false} LogConcat(cs: seq<Chunk>, ds: seq<Chunk>, crc: Crc)
    requires ValidChunks(cs) && ValidChunks(ds)
    ensures ValidChunks(cs + ds)
    ensures LogBytes(cs + ds, crc) == LogBytes(cs, crc) + LogBytes(ds, crc)
  {
    hide ChunkBytes;
    if cs == [] {
      assert cs + ds == ds;
    } else {
      assert (cs + ds)[1..] == cs[1..] + ds;
      LogConcat(cs[1..], ds, crc);
    }
  }

  /** A log is empty exactly when its file is. */
  lemma LogEmpty(cs: seq<Chunk>, crc: Crc)
    requires ValidChunks(cs)
    ensures LogBytes(cs, crc) == [] <==> cs == []
  {
  }

  /** What a reader finds at the front of a file that starts with a chunk. */
  lemma FrontChunk(cs: seq<Chunk>, crc: Crc)
    requires ValidChunks(cs) && cs != []
    ensures var f := LogBytes(cs, crc);
            var n := |cs[0].payload|;
      && |f| >= HDR + n
      && ReadHeader(f[..HDR]) == Header(MSLG_MAGIC, cs[0].algo, cs[0].rawLen, n, crc(cs[0].payload), cs[0].timestamp)
      && f[HDR..HDR + n] == cs[0].payload
      && f[HDR + n..] == LogBytes(cs[1..], crc)
  {
    hide HeaderBytes, ReadHeader;
    HeaderRoundTrip(cs[0], crc);
    var f := LogBytes(cs, crc);
    assert f[..HDR] == HeaderBytes(cs[0], crc);
  }

  // ----- readers over arbitrary bytes -----

  datatype Popped = Popped(payload: seq<byte>, rawLen: u32, algo: byte, timestamp: u32)

  function PoppedOf(c: Chunk): Popped {
    Popped(c.payload, c.rawLen, c.algo, c.timestamp)
  }

  /** The header at the front of the unread bytes, when there are enough of them. */
  function FrontHeader(f: seq<byte>): Option<Header> {
    if |f| < HDR then None else Some(ReadHeader(f[..HDR]))
  }

  /** The header scan: headers are counted while they carry the magic, payloads skipped even past the end. */
  function ScanCount(f: seq<byte>): nat
    decreases |f|
  {
    match FrontHeader(f)
    case None => 0
    case Some(h) =>
      if h.magic != MSLG_MAGIC then 0
      else if HDR + h.dataLen > |f| then 1
      else 1 + ScanCount(f[HDR + h.dataLen..])
  }

  /** On a log the scan counts the chunks. */
  lemma {:induction false} ScanCountsChunks(cs: seq<Chunk>, crc: Crc)
    requires ValidChunks(cs)
    ensures ScanCount(LogBytes(cs, crc)) == |cs|
  {
    hide ReadHeader, LogBytes;
    if cs == [] {
      LogEmpty(cs, crc);
    } else {
      FrontChunk(cs, crc);
      ScanCountsChunks(cs[1..], crc);
    }
  }

  /** A batch read: the chunks taken, and the unread bytes left in the file. */
  datatype Batch = Batch(taken: seq<Popped>, rest: seq<byte>)

  /**
   Phase 1 of the batch pop, chunk i next. A partial header, a short payload or a bad
   magic swallows the bytes read; a failed allocation gives the header back.
   */
  function ReadBatch(f: seq<byte>, i: nat, max: nat, alloc: nat -> bool): (b: Batch)
    requires i <= max
    ensures |b.taken| <= max - i
    decreases max - i
  {
    if i == max then Batch([], f)
    else match FrontHeader(f)
      case None => Batch([], [])
      case Some(h) =>
        if h.magic != MSLG_MAGIC then Batch([], f[HDR..])
        else if !alloc(i) then Batch([], f)
        else if HDR + h.dataLen > |f| then Batch([], [])
        else
          var next := ReadBatch(f[HDR + h.dataLen..], i + 1, max, alloc);
          Batch([Popped(f[HDR..HDR + h.dataLen], h.rawLen, h.algo, h.timestamp)] + next.taken, next.rest)
  }

  /** How many chunks a batch takes from a log of n chunks: up to max, stopped by a failed allocation. */
  function BatchSize(n: nat, i: nat, max: nat, alloc: nat -> bool): (k: nat)
    requires i <= max
    ensures k <= n && k <= max - i && forall j :: i <= j < i + k ==> alloc(j)
    ensures k == n || k == max - i || !alloc(i + k)
    decreases max - i
  {
    if i == max || n == 0 || !alloc(i) then 0 else 1 + BatchSize(n - 1, i + 1, max, alloc)
  }

  function PoppedAll(cs: seq<Chunk>): (ps: seq<Popped>)
    ensures |ps| == |cs|
    ensures forall i :: 0 <= i < |cs| ==> ps[i] == PoppedOf(cs[i])
  {
    seq(|cs|, i requires 0 <= i < |cs| => PoppedOf(cs[i]))
  }

  /** On a log a batch takes whole chunks from the front and leaves the log of the others. */
  lemma {:induction false} BatchOfLog(cs: seq<Chunk>, crc: Crc, i: nat, max: nat, alloc: nat -> bool)
    requires ValidChunks(cs) && i <= max
    ensures var k := BatchSize(|cs|, i, max, alloc);
            var b := ReadBatch(LogBytes(cs, crc), i, max, alloc);
            b.taken == PoppedAll(cs[..k]) && b.rest == LogBytes(cs[k..], crc)
    decreases max - i
  {
    hide ReadHeader, LogBytes;
    if i == max {
      assert cs[0..] == cs;
    } else if cs == [] {
      LogEmpty(cs, crc);
    } else {
      FrontChunk(cs, crc);
      if alloc(i) {
        BatchOfLog(cs[1..], crc, i + 1, max, alloc);
        var k := BatchSize(|cs| - 1, i + 1, max, alloc);
        assert cs[1..][k..] == cs[k + 1..];
        assert PoppedAll(cs[..k + 1]) == [PoppedOf(cs[0])] + PoppedAll(cs[1..][..k]);
      } else {
        assert cs[0..] == cs;
      }
    }
  }

  /** One single pop: the chunk and the remaining file, or the status that leaves the file as it is. */
  datatype PopOutcome = Took(chunk: Popped, rest: seq<byte>) | Kept(status: Status)

  function PopFront(f: seq<byte>, alloc: bool): PopOutcome {
    match FrontHeader(f)
    case None => Kept(NotFound)
    case Some(h) =>
      if h.magic != MSLG_MAGIC then Kept(InvalidState)
      else if !alloc then Kept(NoMem)
      else if HDR + h.dataLen > |f| then Kept(Fail)
      else Took(Popped(f[HDR..HDR + h.dataLen], h.rawLen, h.algo, h.timestamp), f[HDR + h.dataLen..])
  }

  /** Up to k single pops in a row, stopping at the first that fails. */
  function PopMany(f: seq<byte>, k: nat): Batch {
    if k == 0 then Batch([], f)
    else match PopFront(f, true)
      case Kept(_) => Batch([], f)
      case Took(c, rest) =>
        var next := PopMany(rest, k - 1);
        Batch([c] + next.taken, next.rest)
  }

  /** A batch pop of a log does what that many single pops do. */
  lemma {:induction false} BatchRefinesSinglePops(cs: seq<Chunk>, crc: Crc, i: nat, max: nat, alloc: nat -> bool)
    requires ValidChunks(cs) && i <= max
    ensures var f := LogBytes(cs, crc);
            ReadBatch(f, i, max, alloc) == PopMany(f, BatchSize(|cs|, i, max, alloc))
    decreases max - i
  {
    hide ReadHeader, LogBytes;
    if cs == [] {
      LogEmpty(cs, crc);
    } else if i < max {
      FrontChunk(cs, crc);
      if alloc(i) {
        BatchRefinesSinglePops(cs[1..], crc, i + 1, max, alloc);
      }
    }
  }

  /** The file starts with a whole chunk: magic at byte 0, the payload's length at byte 12, and enough bytes. */
  ghost predicate WholeChunk(f: seq<byte>) {
    |f| >= 36 && WordAt(f, 0) == 0x4D534C47 && 36 + WordAt(f, 12) <= |f|
  }

  /** What the readers do with the front of any file, by its bytes; a cut-off last chunk is counted, but not popped. */
  lemma FrontOfFile(f: seq<byte>, alloc: bool)
    ensures |f| < 36 ==> ScanCount(f) == 0 && PopFront(f, alloc) == Kept(NotFound)
    ensures |f| >= 36 && WordAt(f, 0) != 0x4D534C47 ==> ScanCount(f) == 0 && PopFront(f, alloc) == Kept(InvalidState)
    ensures |f| >= 36 && WordAt(f, 0) == 0x4D534C47 && !WholeChunk(f) ==>
      ScanCount(f) == 1 && PopFront(f, alloc) == Kept(if alloc then Fail else NoMem)
    ensures WholeChunk(f) ==>
      var end := 36 + WordAt(f, 12);
      var c := Popped(f[36..end], WordAt(f, 8), f[6], WordAt(f, 28));
      ScanCount(f) == 1 + ScanCount(f[end..]) && PopFront(f, alloc) == if alloc then Took(c, f[end..]) else Kept(NoMem)
  {
    hide FrontHeader, WordAt;
    HeaderInFront(f);
  }

  lemma HeaderInFront(f: seq<byte>)
    ensures FrontHeader(f) == if |f| < 36 then None
      else Some(Header(WordAt(f, 0), f[6], WordAt(f, 8), WordAt(f, 12), WordAt(f, 16), WordAt(f, 28)))
  {
    hide ReadHeader, WordAt;
    if |f| >= 36 {
      HeaderAtFront(f);
    }
  }

  lemma HeaderAtFront(f: seq<byte>)
    requires |f| >= 36
    ensures ReadHeader(f[..36])
         == Header(WordAt(f, 0), f[6], WordAt(f, 8), WordAt(f, 12), WordAt(f, 16), WordAt(f, 28))
  {
    var b := f[..36];
    RdIsWord(b, 0);
    RdIsWord(b, 8);
    RdIsWord(b, 12);
    RdIsWord(b, 16);
    RdIsWord(b, 28);
    assert forall i :: 0 <= i < 36 ==> b[i] == f[i];
    hide Rd32;
  }

  /** The batch stopped at its limit, at the end of the file, or for lack of memory. */
  ghost predicate StopsCleanly(left: seq<byte>, k: nat, max: nat, alloc: nat -> bool) {
    || k == max
    || left == []
    || (|left| >= HDR && ReadHeader(left[..HDR]).magic == MSLG_MAGIC && !alloc(k))
  }

  /** A damaged tail without what a batch reads of it: all of it, or just the header when that has no magic. */
  ghost predicate CutOff(tail: seq<byte>, rest: seq<byte>) {
    rest == if |tail| >= 36 && WordAt(tail, 0) != 0x4D534C47 then tail[36..] else []
  }

  /**
   On any file, log or not, a batch takes what as many single pops take. It also leaves
   the same file exactly when it stops cleanly: a damaged tail, which single pops keep,
   is cut by the batch.
   */
  lemma {:induction false} BatchOfAnyFile(f: seq<byte>, i: nat, max: nat, alloc: nat -> bool)
    requires i <= max
    ensures var b := ReadBatch(f, i, max, alloc);
            var k := |b.taken|;
      && PopMany(f, k).taken == b.taken
      && (b.rest == PopMany(f, k).rest <==> StopsCleanly(PopMany(f, k).rest, i + k, max, alloc))
      && (b.rest != PopMany(f, k).rest ==> CutOff(PopMany(f, k).rest, b.rest))
    decreases max - i
  {
    hide ReadHeader, WordAt;
    if i < max && |f| >= HDR {
      HeaderAtFront(f);
      var h := ReadHeader(f[..HDR]);
      if h.magic == MSLG_MAGIC && alloc(i) && HDR + h.dataLen <= |f| {
        BatchOfAnyFile(f[HDR + h.dataLen..], i + 1, max, alloc);
      }
    }
  }
}
