/**
 Uploading a payload into a ChadBuffer account: the chunk list, the write instruction with its 24-bit offset, the
 concurrent batches with retries (contracts/scripts/test-e2e-onchain.ts) and the sequential loop
 (scripts/verify-deposits.ts).
 */
module BufferUpload {
  import opened Common
  import opened BitcoinTx

  const AUTHORITY_SIZE: nat := 32
  const FIRST_CHUNK_SIZE: nat := 800
  const MAX_DATA_PER_WRITE: nat := 950
  const BATCH_SIZE: nat := 5
  const MAX_ATTEMPTS: nat := 3
  const OFFSET_LIMIT: nat := 0x100_0000

  datatype Chunk = Chunk(offset: nat, data: bytes)

  function FirstChunkSize(payload: bytes): nat {
    Min(FIRST_CHUNK_SIZE, |payload|)
  }

  /** The chunks of the payload from `from` on. */
  function ChunksFrom(payload: bytes, from: nat): seq<Chunk>
    requires from <= |payload|
    decreases |payload| - from
  {
    if from == |payload| then [] else
      var size := Min(MAX_DATA_PER_WRITE, |payload| - from);
      [Chunk(from, payload[from..from + size])] + ChunksFrom(payload, from + size)
  }

  function Chunks(payload: bytes): seq<Chunk> {
    ChunksFrom(payload, FirstChunkSize(payload))
  }

  method BuildChunks(payload: bytes) returns (chunks: seq<Chunk>)
    ensures chunks == Chunks(payload)
  {
    chunks := [];
    var currentOffset := FirstChunkSize(payload);
    while currentOffset < |payload|
      invariant currentOffset <= |payload|
      invariant chunks + ChunksFrom(payload, currentOffset) == Chunks(payload)
    {
      var chunkSize := Min(MAX_DATA_PER_WRITE, |payload| - currentOffset);
      var chunk := Chunk(currentOffset, payload[currentOffset..currentOffset + chunkSize]);
      assert ChunksFrom(payload, currentOffset) == [chunk] + ChunksFrom(payload, currentOffset + chunkSize);
      chunks := chunks + [chunk];
      currentOffset := currentOffset + chunkSize;
    }
  }

  /** Each chunk carries a slice of the payload, within the payload. */
  lemma {:induction false} ChunksAreSlices(payload: bytes, from: nat, i: nat)
    requires from <= |payload| && i < |ChunksFrom(payload, from)|
    ensures var c := ChunksFrom(payload, from)[i];
            && from <= c.offset < |payload| && c.offset == from + MAX_DATA_PER_WRITE * i
            && 0 < |c.data| <= 950 && At(payload, c.offset, c.data)
            && (|c.data| < 950 ==> c.offset + |c.data| == |payload|)
    decreases i
  {
    var size := Min(MAX_DATA_PER_WRITE, |payload| - from);
    if i > 0 {
      ChunksAreSlices(payload, from + size, i - 1);
    }
  }

  /** Every payload byte after the first chunk lies in some chunk. */
  lemma {:induction false} ChunksCover(payload: bytes, from: nat, p: nat) returns (i: nat)
    requires from <= p < |payload|
    ensures i < |ChunksFrom(payload, from)|
    ensures var c := ChunksFrom(payload, from)[i]; c.offset <= p < c.offset + |c.data|
    decreases |payload| - from
  {
    var size := Min(MAX_DATA_PER_WRITE, |payload| - from);
    if p < from + size {
      i := 0;
    } else {
      var rest := ChunksCover(payload, from + size, p);
      i := rest + 1;
    }
  }

  // ---- The write instruction ---------------------------------------------------------------------------------

  /** Discriminator 2, the low 24 bits of the offset, then the data. */
  function WriteIx(offset: nat, data: bytes): (ix: bytes)
    ensures |ix| == 4 + |data| && ix[0] == 2 && ix[4..] == data
  {
    [2, offset % 256, offset / 256 % 256, offset / 65536 % 256] + data
  }

  function WriteOffset(ix: bytes): nat
    requires |ix| >= 4
  {
    (ix[1] as int) + 256 * (ix[2] as int) + 65536 * (ix[3] as int)
  }

  /** The three offset bytes carry the offset exactly when it is below 2^24. */
  lemma OffsetSurvivesEncoding(offset: nat, data: bytes)
    ensures WriteOffset(WriteIx(offset, data)) == offset <==> offset < OFFSET_LIMIT
    ensures WriteIx(offset, data)[4..] == data
  {
  }

  /** The offset bytes are the low three of its little-endian form; at offset 832 the instruction reads 02 40 03 00. */
  lemma WriteIxLayout(offset: nat, data: bytes)
    requires offset < TWO32
    ensures WriteIx(offset, data) == [2] + LE32(offset)[..3] + data
    ensures WriteIx(832, [7]) == [2, 0x40, 0x03, 0, 7]
  {
  }

  /** Discriminator 0 and the first bytes. */
  function CreateIx(data: bytes): (ix: bytes)
    ensures |ix| == 1 + |data| && ix[1..] == data
  {
    [0] + data
  }

  /** An offset beyond 2^24 loses at least that much. */
  lemma OffsetWraps(offset: nat, data: bytes)
    requires offset >= OFFSET_LIMIT
    ensures WriteOffset(WriteIx(offset, data)) <= offset - OFFSET_LIMIT
  {
    var low, high := offset / 256, offset / 65536;
    assert high == low / 256 && high >= 256;
    LowDigits(offset % 256, low % 256, offset, low, high);
  }

  lemma LowDigits(a: nat, b: nat, offset: nat, low: nat, high: nat)
    requires offset == 256 * low + a && low == 256 * high + b && high >= 256
    ensures a + 256 * b + 65536 * (high % 256) <= offset - OFFSET_LIMIT
  {
  }

  /** Payload offset of the last chunk of an n-byte payload. */
  function LastOffset(n: nat): nat
    requires n > FIRST_CHUNK_SIZE
  {
    FIRST_CHUNK_SIZE + MAX_DATA_PER_WRITE * ((n - FIRST_CHUNK_SIZE - 1) / MAX_DATA_PER_WRITE)
  }

  /** The sizes whose every write offset fits in 24 bits. */
  predicate OffsetsFit(n: nat) {
    n <= FIRST_CHUNK_SIZE || AUTHORITY_SIZE + LastOffset(n) < OFFSET_LIMIT
  }

  lemma OffsetOfChunk(payload: bytes, i: nat)
    requires i < |Chunks(payload)|
    ensures |payload| > FIRST_CHUNK_SIZE
    ensures var c := Chunks(payload)[i];
            && c.offset <= LastOffset(|payload|) < |payload|
            && (c.offset < LastOffset(|payload|) ==> c.offset + MAX_DATA_PER_WRITE <= LastOffset(|payload|))
  {
    ChunksAreSlices(payload, FirstChunkSize(payload), i);
  }

  /**
   The ChadBuffer program on an existing account. Instruction 2 replaces bytes in place and is refused if it would leave
   the account; 3 closes the account; anything else is refused.
   */
  function Process(buffer: bytes, ix: bytes): (after: bytes)
    ensures |ix| >= 4 && ix[0] == 2 ==> |after| == |buffer|
  {
    if |ix| >= 4 && ix[0] == 2 then
      var offset, data := WriteOffset(ix), ix[4..];
      if offset + |data| <= |buffer| then buffer[..offset] + data + buffer[offset + |data|..] else buffer
    else if ix != [] && ix[0] == 3 then []
    else buffer
  }

  /** Creation of an account of the given size with its first instruction, which must be 0: authority, data, zeros. */
  function Initialize(authority: bytes, space: nat, ix: bytes): Option<bytes> {
    if ix != [] && ix[0] == 0 && |authority| + |ix| - 1 <= space
    then Some(authority + ix[1..] + Repeat(0, space - |authority| - (|ix| - 1))) else None
  }

  /** Account creation and CREATE in one transaction leave authority, first chunk, and zeros up to the reserved space. */
  function Created(authority: bytes, payload: bytes): (buffer: bytes)
    ensures |buffer| == |authority| + |payload|
    ensures var first := Min(800, |payload|);
            buffer == authority + payload[..first] + Repeat(0, |payload| - first)
  {
    Initialize(authority, |authority| + |payload|, CreateIx(payload[..FirstChunkSize(payload)])).value
  }

  function Target(authority: bytes, payload: bytes): bytes {
    authority + payload
  }

  function Landed(buffer: bytes, chunk: Chunk): (after: bytes)
    ensures |after| == |buffer|
  {
    Process(buffer, WriteIx(AUTHORITY_SIZE + chunk.offset, chunk.data))
  }

  /** A landed chunk puts the target's bytes in its own range and touches nothing else. */
  lemma LandingEffect(authority: bytes, payload: bytes, buffer: bytes, i: nat)
    requires |authority| == AUTHORITY_SIZE && |buffer| == AUTHORITY_SIZE + |payload| && OffsetsFit(|payload|)
    requires i < |Chunks(payload)|
    ensures var c := Chunks(payload)[i]; var after := Landed(buffer, c);
            forall p | 0 <= p < |buffer| ::
              after[p] == if AUTHORITY_SIZE + c.offset <= p < AUTHORITY_SIZE + c.offset + |c.data|
                          then Target(authority, payload)[p] else buffer[p]
  {
    hide Landed;
    var c := Chunks(payload)[i];
    ChunksAreSlices(payload, FirstChunkSize(payload), i);
    OffsetOfChunk(payload, i);
    LandsInPlace(buffer, c);
  }

  // ---- Concurrent batches with retries -----------------------------------------------------------------------

  datatype Status = Waiting | Trying(retries: nat) | Done | Failed

  datatype Upload = Upload(buffer: bytes, status: seq<Status>, attempts: seq<nat>)

  /**
   What can happen next. A failed attempt may have landed all the same, at once or at any later time. Writes of
   different chunks interleave freely.
   */
  datatype Event =
    | Start(i: nat)
    | Confirm(i: nat)
    | FailAfterLanding(i: nat)
    | FailWithoutLanding(i: nat)
    | LateLanding(i: nat)

  function Begin(authority: bytes, payload: bytes): Upload {
    var n := |Chunks(payload)|;
    Upload(Created(authority, payload), seq(n, _ => Waiting), seq(n, _ => 0))
  }

  /** All batches before the one holding chunk `i` have resolved. */
  predicate EarlierBatchesDone(u: Upload, i: nat) {
    forall j | 0 <= j < |u.status| && j / BATCH_SIZE < i / BATCH_SIZE :: u.status[j] == Done
  }

  predicate Enabled(u: Upload, e: Event) {
    && e.i < |u.status| == |u.attempts|
    && match e
       case Start(i) => u.status[i] == Waiting && EarlierBatchesDone(u, i)
       case Confirm(i) => u.status[i].Trying?
       case FailAfterLanding(i) => u.status[i].Trying?
       case FailWithoutLanding(i) => u.status[i].Trying?
       case LateLanding(i) => u.attempts[i] > 0
  }

  function AfterFailure(s: Status): Status
    requires s.Trying?
  {
    if s.retries <= 1 then Failed else Trying(s.retries - 1)
  }

  function Step(payload: bytes, u: Upload, e: Event): Upload
    requires Enabled(u, e) && |u.status| == |Chunks(payload)|
  {
    var i := e.i;
    var landed := Landed(u.buffer, Chunks(payload)[i]);
    var tried := u.attempts[i := u.attempts[i] + 1];
    match e
    case Start(_) => u.(status := u.status[i := Trying(MAX_ATTEMPTS)])
    case Confirm(_) => Upload(landed, u.status[i := Done], tried)
    case FailAfterLanding(_) => Upload(landed, u.status[i := AfterFailure(u.status[i])], tried)
    case FailWithoutLanding(_) => u.(status := u.status[i := AfterFailure(u.status[i])], attempts := tried)
    case LateLanding(_) => u.(buffer := landed)
  }

  /** The state after the events, or None if one of them could not happen. */
  function Exec(authority: bytes, payload: bytes, events: seq<Event>): (u: Option<Upload>)
    ensures u.Some? ==> |u.value.status| == |Chunks(payload)|
  {
    if events == [] then Some(Begin(authority, payload)) else
      var before := Exec(authority, payload, events[..|events| - 1]);
      var e := events[|events| - 1];
      if before.Some? && Enabled(before.value, e) then Some(Step(payload, before.value, e)) else None
  }

  /** Byte `p` of the buffer is final. */
  predicate Final(authority: bytes, payload: bytes, buffer: bytes, p: nat) {
    p < |buffer| == |Target(authority, payload)| && buffer[p] == Target(authority, payload)[p]
  }

  predicate InChunk(c: Chunk, p: nat) {
    AUTHORITY_SIZE + c.offset <= p < AUTHORITY_SIZE + c.offset + |c.data|
  }

  /** The bytes that must be right: header and first chunk always, and every chunk that is done. */
  ghost predicate BufferInv(authority: bytes, payload: bytes, u: Upload)
    requires |u.status| == |Chunks(payload)|
  {
    && |u.buffer| == |Target(authority, payload)|
    && (forall p | 0 <= p < |authority| + FirstChunkSize(payload) :: Final(authority, payload, u.buffer, p))
    && (forall i, p | 0 <= i < |u.status| && u.status[i] == Done && 0 <= p && InChunk(Chunks(payload)[i], p) ::
          Final(authority, payload, u.buffer, p))
    && (forall p | 0 <= p < |u.buffer| :: Final(authority, payload, u.buffer, p) || u.buffer[p] == 0)
  }

  /** Retries, attempts and batch order. */
  predicate ScheduleInv(u: Upload) {
    && |u.status| == |u.attempts|
    && (forall i | 0 <= i < |u.status| && u.status[i] == Waiting :: u.attempts[i] == 0)
    && (forall i | 0 <= i < |u.status| && u.status[i].Trying? ::
          u.status[i].retries > 0 && u.attempts[i] + u.status[i].retries == MAX_ATTEMPTS)
    && (forall i | 0 <= i < |u.status| && u.status[i] == Failed :: u.attempts[i] == MAX_ATTEMPTS)
    && (forall i | 0 <= i < |u.status| :: u.attempts[i] <= MAX_ATTEMPTS)
    && (forall i | 0 <= i < |u.status| && u.status[i] != Waiting :: EarlierBatchesDone(u, i))
  }

  lemma StepKeepsSchedule(payload: bytes, u: Upload, e: Event)
    requires |u.status| == |Chunks(payload)| && ScheduleInv(u) && Enabled(u, e)
    ensures ScheduleInv(Step(payload, u, e))
  {
    hide Chunks, Landed;
    var v := Step(payload, u, e);
    forall i | 0 <= i < |v.status| && v.status[i] != Waiting
      ensures EarlierBatchesDone(v, i)
    {
      if u.status[i] == Waiting {
        assert EarlierBatchesDone(u, e.i);
      }
    }
  }

  lemma ScheduleMeans(u: Upload)
    requires ScheduleInv(u)
    ensures |u.attempts| == |u.status|
    ensures forall i | 0 <= i < |u.status| :: u.attempts[i] <= 3 && (u.status[i] == Failed ==> u.attempts[i] == 3)
    ensures forall i, j | 0 <= i < |u.status| && 0 <= j < |u.status| && j / 5 < i / 5 && u.status[i] != Waiting ::
              u.status[j] == Done
  {
    forall i, j | 0 <= i < |u.status| && 0 <= j < |u.status| && j / 5 < i / 5 && u.status[i] != Waiting
      ensures u.status[j] == Done
    {
      assert EarlierBatchesDone(u, i);
    }
  }

  /** Exactly the events that land put their chunk in place; the others leave the account alone. */
  lemma EventsLand(authority: bytes, payload: bytes, u: Upload, e: Event, p: nat)
    requires |authority| == AUTHORITY_SIZE && OffsetsFit(|payload|) && |u.buffer| == AUTHORITY_SIZE + |payload|
    requires |u.status| == |Chunks(payload)| && Enabled(u, e) && p < |u.buffer|
    ensures var c, after := Chunks(payload)[e.i], Step(payload, u, e).buffer;
            && |after| == |u.buffer|
            && after[p] == if (e.Confirm? || e.FailAfterLanding? || e.LateLanding?) && InChunk(c, p)
                           then (authority + payload)[p] else u.buffer[p]
  {
    hide Landed, Chunks;
    LandingEffect(authority, payload, u.buffer, e.i);
  }

  lemma LandingKeepsFinal(authority: bytes, payload: bytes, buffer: bytes, i: nat, p: nat)
    requires |authority| == AUTHORITY_SIZE && |buffer| == AUTHORITY_SIZE + |payload| && OffsetsFit(|payload|)
    requires i < |Chunks(payload)| && p < |buffer|
    ensures var after := Landed(buffer, Chunks(payload)[i]);
            && (Final(authority, payload, buffer, p) ==> Final(authority, payload, after, p))
            && (InChunk(Chunks(payload)[i], p) ==> Final(authority, payload, after, p))
            && (after[p] == buffer[p] || Final(authority, payload, after, p))
  {
    hide Landed, Chunks;
    LandingEffect(authority, payload, buffer, i);
  }

  lemma StepKeepsBuffer(authority: bytes, payload: bytes, u: Upload, e: Event)
    requires |authority| == AUTHORITY_SIZE && OffsetsFit(|payload|)
    requires |u.status| == |Chunks(payload)| && Enabled(u, e) && BufferInv(authority, payload, u)
    ensures BufferInv(authority, payload, Step(payload, u, e))
  {
    hide Landed, Chunks, Final, InChunk, FirstChunkSize;
    var v := Step(payload, u, e);
    forall p | 0 <= p < |u.buffer|
      ensures Final(authority, payload, u.buffer, p) ==> Final(authority, payload, v.buffer, p)
      ensures e.Confirm? && InChunk(Chunks(payload)[e.i], p) ==> Final(authority, payload, v.buffer, p)
      ensures v.buffer[p] == u.buffer[p] || Final(authority, payload, v.buffer, p)
    {
      LandingKeepsFinal(authority, payload, u.buffer, e.i, p);
    }
    forall i, p | 0 <= i < |v.status| && v.status[i] == Done && 0 <= p && InChunk(Chunks(payload)[i], p)
      ensures Final(authority, payload, v.buffer, p)
    {
      ChunkInside(authority, payload, i, p);
    }
    HeaderInside(authority, payload);
  }

  lemma HeaderInside(authority: bytes, payload: bytes)
    ensures |authority| + FirstChunkSize(payload) <= |Target(authority, payload)|
  {
  }

  lemma ChunkInside(authority: bytes, payload: bytes, i: nat, p: nat)
    requires |authority| == AUTHORITY_SIZE && i < |Chunks(payload)| && InChunk(Chunks(payload)[i], p)
    ensures p < |Target(authority, payload)|
  {
    ChunksAreSlices(payload, FirstChunkSize(payload), i);
  }

  lemma BeginIsFine(authority: bytes, payload: bytes)
    requires |authority| == AUTHORITY_SIZE
    ensures BufferInv(authority, payload, Begin(authority, payload)) && ScheduleInv(Begin(authority, payload))
  {
  }

  /** At most three attempts per chunk and one batch at a time, in every run of every upload. */
  lemma {:induction false} EveryRunIsScheduled(authority: bytes, payload: bytes, events: seq<Event>)
    requires |authority| == AUTHORITY_SIZE && Exec(authority, payload, events).Some?
    ensures ScheduleInv(Exec(authority, payload, events).value)
    ensures var u := Exec(authority, payload, events).value;
            && |u.attempts| == |u.status|
            && (forall i | 0 <= i < |u.status| :: u.attempts[i] <= 3 && (u.status[i] == Failed ==> u.attempts[i] == 3))
            && (forall i, j | 0 <= i < |u.status| && 0 <= j < |u.status| && j / 5 < i / 5 && u.status[i] != Waiting ::
                  u.status[j] == Done)
  {
    hide Step, Enabled, Begin, BufferInv, ScheduleInv, Chunks;
    if events == [] {
      BeginIsFine(authority, payload);
    } else {
      var earlier := events[..|events| - 1];
      EveryRunIsScheduled(authority, payload, earlier);
      StepKeepsSchedule(payload, Exec(authority, payload, earlier).value, events[|events| - 1]);
    }
    ScheduleMeans(Exec(authority, payload, events).value);
  }

  /** Safety in every state any run can reach, whether or not the upload ever finishes. */
  lemma {:induction false} EveryRunIsSafe(authority: bytes, payload: bytes, events: seq<Event>)
    requires |authority| == AUTHORITY_SIZE && OffsetsFit(|payload|)
    requires Exec(authority, payload, events).Some?
    ensures BufferInv(authority, payload, Exec(authority, payload, events).value)
  {
    hide Step, Enabled, Begin, BufferInv, ScheduleInv, Chunks;
    if events == [] {
      BeginIsFine(authority, payload);
    } else {
      var earlier := events[..|events| - 1];
      EveryRunIsSafe(authority, payload, earlier);
      var u := Exec(authority, payload, earlier).value;
      StepKeepsBuffer(authority, payload, u, events[|events| - 1]);
    }
  }

  /** If every batch resolves, the account holds exactly the authority and the payload. */
  lemma ResolvedUploadIsExact(authority: bytes, payload: bytes, events: seq<Event>)
    requires |authority| == AUTHORITY_SIZE && OffsetsFit(|payload|)
    requires Exec(authority, payload, events).Some?
    requires var u := Exec(authority, payload, events).value; forall i | 0 <= i < |u.status| :: u.status[i] == Done
    ensures Exec(authority, payload, events).value.buffer == authority + payload
  {
    hide Exec, Chunks, ScheduleInv;
    EveryRunIsSafe(authority, payload, events);
    var u := Exec(authority, payload, events).value;
    var first := FirstChunkSize(payload);
    forall p | 0 <= p < |u.buffer|
      ensures u.buffer[p] == (authority + payload)[p]
    {
      if p < AUTHORITY_SIZE + first {
        assert Final(authority, payload, u.buffer, p);
      } else {
        var i := CoveringChunk(payload, p - AUTHORITY_SIZE);
        assert u.status[i] == Done;
        assert Final(authority, payload, u.buffer, p);
      }
    }
  }

  /** Past the limit no write reaches the last byte: the wrapped writes all end before it. */
  lemma LastByteIsMissed(payload: bytes, buffer: bytes, i: nat)
    requires |buffer| == AUTHORITY_SIZE + |payload| && !OffsetsFit(|payload|) && i < |Chunks(payload)|
    ensures Landed(buffer, Chunks(payload)[i])[|buffer| - 1] == buffer[|buffer| - 1]
  {
    hide Chunks;
    var c := Chunks(payload)[i];
    ChunkSize(payload, i);
    OffsetOfChunk(payload, i);
    OffsetSurvivesEncoding(AUTHORITY_SIZE + c.offset, c.data);
    if AUTHORITY_SIZE + c.offset >= OFFSET_LIMIT {
      OffsetWraps(AUTHORITY_SIZE + c.offset, c.data);
    }
    hide WriteIx, WriteOffset;
  }

  lemma ChunkSize(payload: bytes, i: nat)
    requires i < |Chunks(payload)|
    ensures |Chunks(payload)[i].data| <= MAX_DATA_PER_WRITE
  {
    ChunksAreSlices(payload, FirstChunkSize(payload), i);
  }

  /** So no run of an oversized upload ever gets a payload right that does not end in a zero byte. */
  lemma {:induction false} OversizedUploadIsNeverExact(authority: bytes, payload: bytes, events: seq<Event>)
    requires |authority| == AUTHORITY_SIZE && !OffsetsFit(|payload|) && Exec(authority, payload, events).Some?
    ensures var b := Exec(authority, payload, events).value.buffer;
            |b| == AUTHORITY_SIZE + |payload| && b[|b| - 1] == 0
    ensures payload[|payload| - 1] != 0 ==> Exec(authority, payload, events).value.buffer != authority + payload
  {
    hide Landed, Chunks;
    if events != [] {
      var earlier, e := events[..|events| - 1], events[|events| - 1];
      OversizedUploadIsNeverExact(authority, payload, earlier);
      LastByteIsMissed(payload, Exec(authority, payload, earlier).value.buffer, e.i);
    }
  }

  lemma CoveringChunk(payload: bytes, p: nat) returns (i: nat)
    requires FirstChunkSize(payload) <= p < |payload|
    ensures i < |Chunks(payload)| && InChunk(Chunks(payload)[i], AUTHORITY_SIZE + p)
  {
    i := ChunksCover(payload, FirstChunkSize(payload), p);
  }

  /** Unless a chunk has used up its attempts, an unfinished upload can always go on. */
  lemma UnfinishedUploadCanGoOn(authority: bytes, payload: bytes, events: seq<Event>)
    requires |authority| == AUTHORITY_SIZE && Exec(authority, payload, events).Some?
    ensures var u := Exec(authority, payload, events).value;
            (exists i :: 0 <= i < |u.status| && u.status[i] == Failed)
            || (forall i | 0 <= i < |u.status| :: u.status[i] == Done)
            || (exists e: Event :: (e.Start? || e.Confirm?) && Enabled(u, e))
  {
    hide Exec, Chunks, BufferInv;
    EveryRunIsScheduled(authority, payload, events);
    var u := Exec(authority, payload, events).value;
    if i :| 0 <= i < |u.status| && u.status[i] != Done {
      var k := FirstUnfinished(u.status, i);
      if u.status[k] == Waiting {
        assert Enabled(u, Start(k));
      } else if u.status[k].Trying? {
        assert Enabled(u, Confirm(k));
      }
    }
  }

  lemma {:induction false} FirstUnfinished(status: seq<Status>, i: nat) returns (k: nat)
    requires i < |status| && status[i] != Done
    ensures k <= i && status[k] != Done && forall j | 0 <= j < k :: status[j] == Done
  {
    if j :| 0 <= j < i && status[j] != Done {
      k := FirstUnfinished(status, j);
    } else {
      k := i;
    }
  }

  // ---- Sequential uploader and reader ------------------------------------------------------------------------

  /** The chunks landing one after the other. */
  function LandAll(buffer: bytes, chunks: seq<Chunk>): (after: bytes)
    ensures |after| == |buffer|
    decreases |chunks|
  {
    if chunks == [] then buffer else LandAll(Landed(buffer, chunks[0]), chunks[1..])
  }

  function Uploaded(authority: bytes, payload: bytes): bytes {
    LandAll(Created(authority, payload), Chunks(payload))
  }

  method UploadToChadBuffer(authority: bytes, rawTx: bytes) returns (buffer: bytes)
    requires |authority| == AUTHORITY_SIZE
    ensures buffer == Uploaded(authority, rawTx)
    ensures |rawTx| <= 16_777_800 ==> buffer == authority + rawTx
  {
    hide Process, WriteIx;
    var firstChunkSize := Min(FIRST_CHUNK_SIZE, |rawTx|);
    buffer := Created(authority, rawTx);
    var dataOffset := firstChunkSize;
    while dataOffset < |rawTx|
      invariant firstChunkSize <= dataOffset <= |rawTx|
      invariant LandAll(buffer, ChunksFrom(rawTx, dataOffset)) == Uploaded(authority, rawTx)
    {
      var chunkSize := Min(MAX_DATA_PER_WRITE, |rawTx| - dataOffset);
      var chunk := rawTx[dataOffset..dataOffset + chunkSize];
      buffer := Process(buffer, WriteIx(AUTHORITY_SIZE + dataOffset, chunk));
      dataOffset := dataOffset + chunkSize;
    }
    UploadIsExactIff(authority, |rawTx|);
  }

  lemma {:induction false} LandingTheRest(authority: bytes, payload: bytes, buffer: bytes, from: nat)
    requires |authority| == AUTHORITY_SIZE && FirstChunkSize(payload) <= from <= |payload|
    requires (from - FirstChunkSize(payload)) % MAX_DATA_PER_WRITE == 0 || from == |payload|
    requires OffsetsFit(|payload|) && |buffer| == AUTHORITY_SIZE + |payload|
    requires buffer[..AUTHORITY_SIZE + from] == authority + payload[..from]
    ensures LandAll(buffer, ChunksFrom(payload, from)) == authority + payload
    decreases |payload| - from
  {
    hide Landed, OffsetsFit;
    if from < |payload| {
      var size := Min(MAX_DATA_PER_WRITE, |payload| - from);
      var chunk := Chunk(from, payload[from..from + size]);
      var after := Landed(buffer, chunk);
      StartFits(payload, from);
      LandsInPlace(buffer, chunk);
      WriteExtends(authority, payload, buffer, after, from, size);
      LandingTheRest(authority, payload, after, from + size);
    } else {
      assert buffer[..AUTHORITY_SIZE + from] == buffer && payload[..from] == payload;
    }
  }

  lemma LandsInPlace(buffer: bytes, c: Chunk)
    requires AUTHORITY_SIZE + c.offset < OFFSET_LIMIT && AUTHORITY_SIZE + c.offset + |c.data| <= |buffer|
    ensures Landed(buffer, c)
            == buffer[..AUTHORITY_SIZE + c.offset] + c.data + buffer[AUTHORITY_SIZE + c.offset + |c.data|..]
  {
    OffsetSurvivesEncoding(AUTHORITY_SIZE + c.offset, c.data);
  }

  lemma StartFits(payload: bytes, from: nat)
    requires FirstChunkSize(payload) <= from < |payload| && OffsetsFit(|payload|)
    requires (from - FirstChunkSize(payload)) % MAX_DATA_PER_WRITE == 0
    ensures AUTHORITY_SIZE + from < OFFSET_LIMIT
  {
    var i := (from - FIRST_CHUNK_SIZE) / MAX_DATA_PER_WRITE;
    assert from == FIRST_CHUNK_SIZE + MAX_DATA_PER_WRITE * i;
  }

  lemma {:induction false} MissesLast(payload: bytes, buffer: bytes, n: nat)
    requires |buffer| == AUTHORITY_SIZE + |payload| && !OffsetsFit(|payload|) && n <= |Chunks(payload)|
    ensures LandAll(buffer, Chunks(payload)[n..])[|buffer| - 1] == buffer[|buffer| - 1]
    decreases |Chunks(payload)| - n
  {
    hide Landed, Chunks;
    if n < |Chunks(payload)| {
      LastByteIsMissed(payload, buffer, n);
      MissesLast(payload, Landed(buffer, Chunks(payload)[n]), n + 1);
      assert Chunks(payload)[n..][1..] == Chunks(payload)[n + 1..];
    }
  }

  /** The largest size that fits. */
  lemma LargestUpload(n: nat)
    ensures OffsetsFit(n) <==> n <= 16_777_800
  {
    if n > FIRST_CHUNK_SIZE {
      var q := (n - FIRST_CHUNK_SIZE - 1) / MAX_DATA_PER_WRITE;
      assert n - FIRST_CHUNK_SIZE - 1 == MAX_DATA_PER_WRITE * q + (n - FIRST_CHUNK_SIZE - 1) % MAX_DATA_PER_WRITE;
      assert q <= 17_659 <==> AUTHORITY_SIZE + LastOffset(n) < OFFSET_LIMIT;
    }
  }

  /** Every payload of a given size is uploaded exactly precisely up to 16777800 bytes. */
  lemma UploadIsExactIff(authority: bytes, n: nat)
    requires |authority| == AUTHORITY_SIZE
    ensures n <= 16_777_800
            <==> forall payload: bytes | |payload| == n :: Uploaded(authority, payload) == authority + payload
  {
    hide LandAll, Landed, OffsetsFit, Chunks, Created;
    LargestUpload(n);
    if OffsetsFit(n) {
      forall payload: bytes | |payload| == n
        ensures Uploaded(authority, payload) == authority + payload
      {
        UploadedIsExact(authority, payload);
      }
    } else {
      var payload := OversizedWitness(authority, n);
      assert Uploaded(authority, payload) != authority + payload;
    }
  }

  lemma UploadedIsExact(authority: bytes, payload: bytes)
    requires |authority| == AUTHORITY_SIZE && OffsetsFit(|payload|)
    ensures Uploaded(authority, payload) == authority + payload
  {
    hide LandAll, Landed, OffsetsFit, Initialize;
    var first, buffer := FirstChunkSize(payload), Created(authority, payload);
    assert buffer[..AUTHORITY_SIZE + first] == authority + payload[..first];
    LandingTheRest(authority, payload, buffer, first);
  }

  lemma OversizedWitness(authority: bytes, n: nat) returns (payload: bytes)
    requires |authority| == AUTHORITY_SIZE && !OffsetsFit(n)
    ensures |payload| == n && Uploaded(authority, payload) != authority + payload
  {
    hide LandAll, Landed, Chunks, Initialize;
    payload := Repeat<byte>(0, n)[n - 1 := 1];
    var buffer := Created(authority, payload);
    MissesLast(payload, buffer, 0);
    assert Chunks(payload)[0..] == Chunks(payload);
    assert buffer[|buffer| - 1] == 0;
    assert (authority + payload)[|buffer| - 1] == 1;
  }

  lemma WriteExtends(authority: bytes, rawTx: bytes, before: bytes, after: bytes, from: nat, size: nat)
    requires |authority| == AUTHORITY_SIZE && from + size <= |rawTx| && |before| == AUTHORITY_SIZE + |rawTx|
    requires before[..AUTHORITY_SIZE + from] == authority + rawTx[..from]
    requires after == before[..AUTHORITY_SIZE + from] + rawTx[from..from + size] + before[AUTHORITY_SIZE + from + size..]
    ensures after[..AUTHORITY_SIZE + (from + size)] == authority + rawTx[..from + size]
  {
    assert rawTx[..from + size] == rawTx[..from] + rawTx[from..from + size];
  }

  /** The program's reader: header and at least one byte must be present. */
  function ReadTransaction(buffer: bytes, size: nat): Option<bytes> {
    if |buffer| < AUTHORITY_SIZE + 1 || |buffer| < AUTHORITY_SIZE + size then None
    else Some(buffer[AUTHORITY_SIZE..AUTHORITY_SIZE + size])
  }

  /** Of an uploaded transaction any number of leading bytes can be read; an empty upload cannot be read at all. */
  lemma UploadReadsBack(authority: bytes, rawTx: bytes, size: nat)
    requires |authority| == AUTHORITY_SIZE
    ensures ReadTransaction(authority + rawTx, size)
            == (if rawTx != [] && size <= |rawTx| then Some(rawTx[..size]) else None)
    ensures rawTx != [] ==> ReadTransaction(authority + rawTx, |rawTx|) == Some(rawTx)
  {
    assert rawTx[..|rawTx|] == rawTx;
    assert (authority + rawTx)[AUTHORITY_SIZE..AUTHORITY_SIZE + |rawTx|] == rawTx;
    if size <= |rawTx| {
      assert (authority + rawTx)[AUTHORITY_SIZE..AUTHORITY_SIZE + size] == rawTx[..size];
    }
  }
}
