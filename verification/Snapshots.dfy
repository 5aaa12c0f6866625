/** Sending a snapshot to a follower and receiving it: as a file in chunks (V003) and as a stream
    of records in batches (V004). Short reads, read errors, cancellation and a receiver that goes
    away are arbitrary. */
module Snapshots {
  import opened KvTypes
  import opened Wrappers

  /** How a sender ends: it was done, it was cancelled, reading failed, or the channel was closed. */
  datatype SendOutcome = Finished | Cancelled | ReadFailed | ChannelClosed

  // ---------------------------------------------------------- V003: sender

  const SNAPSHOT_FORMAT := "rotbl::v001"

  /** What the end chunk says about the snapshot. */
  datatype SnapshotMeta = SnapshotMeta(vote: nat, snapshotId: string)

  datatype Chunk = Chunk(bytes: Bytes, endMeta: Option<(string, SnapshotMeta)>)

  function DataChunk(bytes: Bytes): Chunk { Chunk(bytes, None) }

  function EndChunk(meta: SnapshotMeta): Chunk { Chunk([], Some((SNAPSHOT_FORMAT, meta))) }

  /** The bytes of a sequence of chunks. */
  function Payload(chunks: seq<Chunk>): Bytes {
    if chunks == [] then [] else Payload(chunks[..|chunks| - 1]) + chunks[|chunks| - 1].bytes
  }

  predicate AllData(chunks: seq<Chunk>) { forall i :: 0 <= i < |chunks| ==> chunks[i].endMeta.None? }

  predicate Shaped(chunks: seq<Chunk>, chunkSize: nat) {
    && AllData(chunks)
    && (forall i :: 0 <= i < |chunks| ==> 0 < |chunks[i].bytes| <= chunkSize)
    && (forall i :: 0 <= i < |chunks| - 1 ==> |chunks[i].bytes| == chunkSize)
  }

  /** Data chunks are non-empty and no larger than the buffer; all but the last fill it; together
      they are the file up to some position, the end of the file if the last does not fill it. */
  ghost predicate ChunksOf(chunks: seq<Chunk>, file: Bytes, chunkSize: nat) {
    && Shaped(chunks, chunkSize)
    && Payload(chunks) <= file
    && (chunks != [] && |chunks[|chunks| - 1].bytes| < chunkSize ==> Payload(chunks) == file)
  }

  function Min(a: nat, b: nat): nat { if a < b then a else b }

  /** How much one read delivers: at least one byte unless the file or the buffer is at its end, at
      most what the file system is willing to give. */
  function ReadSize(want: nat, room: nat, left: nat): (n: nat)
    ensures n <= room && n <= left && (n == 0 <==> room == 0 || left == 0)
  {
    Min(if want == 0 then 1 else want, Min(room, left))
  }

  /** Read into the buffer after the `offset` bytes of the file it holds from `start` on. */
  method ReadSome(file: Bytes, start: nat, buf: array<Byte>, offset: nat, want: nat) returns (n: nat)
    requires HoldsPart(buf, offset, file, start)
    modifies buf
    ensures n == ReadSize(want, buf.Length - offset, |file| - start - offset)
    ensures HoldsPart(buf, offset + n, file, start)
  {
    n := ReadSize(want, buf.Length - offset, |file| - start - offset);
    for i := offset to offset + n
      invariant HoldsPart(buf, i, file, start)
    {
      buf[i] := file[start + i];
      assert buf[..i + 1] == buf[..i] + [file[start + i]];
    }
  }

  /** Why a sender stops after `n` messages, whatever it then sends last: all rounds so far went
      through, and the outcome names what happened next. A cancellation is noticed before the round
      it falls into; a finished sender has checked the first `checked` rounds for one. */
  predicate EndsAfter(outcome: SendOutcome, n: nat, checked: nat, cancelled: nat -> bool, accepts: nat -> bool) {
    && RoundsPassed(n, cancelled, accepts)
    && match outcome
       case Cancelled => cancelled(n)
       case ChannelClosed => !cancelled(n) && !accepts(n)
       case Finished => checked <= n + 1 && (n < checked ==> !cancelled(n))
       case ReadFailed => true
  }

  predicate RoundsPassed(n: nat, cancelled: nat -> bool, accepts: nat -> bool) {
    forall i :: 0 <= i < n ==> !cancelled(i) && accepts(i)
  }

  /** The bytes a fill gets, if no read fails, and the number of reads made so far. */
  datatype Filled = Filled(size: Option<nat>, calls: nat)

  /** Reads until the buffer is full, the file ends or a read fails: the reads from `call` on, one
      after the other, none skipped and none made after the end. */
  function Fill(room: nat, left: nat, readSizes: nat -> Option<nat>, call: nat): Filled {
    FillOn(room, left, readSizes, call, 0)
  }

  /** The same with `got` bytes already there. */
  function FillOn(room: nat, left: nat, readSizes: nat -> Option<nat>, call: nat, got: nat): Filled
    decreases room
  {
    if room == 0 then Filled(Some(got), call)
    else
      match readSizes(call)
      case None => Filled(None, call + 1)
      case Some(want) =>
        var n := ReadSize(want, room, left);
        if n == 0 then Filled(Some(got), call + 1) else FillOn(room - n, left - n, readSizes, call + 1, got + n)
  }

  /** A fill gets as much as there is and fails exactly on the first read that fails. */
  lemma {:induction false} FillMeaning(room: nat, left: nat, readSizes: nat -> Option<nat>, call: nat, got: nat)
    ensures var r := FillOn(room, left, readSizes, call, got);
      && (r.size.Some? ==> r.size.value == got + Min(room, left) && SucceedFrom(readSizes, call, r.calls))
      && (r.size.None? ==>
            call < r.calls && readSizes(r.calls - 1).None? && SucceedFrom(readSizes, call, r.calls - 1))
      && call <= r.calls <= call + Min(room, left) + 1 && (room > 0 ==> call < r.calls)
    decreases room
  {
    if room > 0 && readSizes(call).Some? {
      var n := ReadSize(readSizes(call).value, room, left);
      if n > 0 { FillMeaning(room - n, left - n, readSizes, call + 1, got + n); }
    }
  }

  predicate SucceedFrom(readSizes: nat -> Option<nat>, from: nat, to: nat) {
    forall i :: from <= i < to ==> readSizes(i).Some?
  }

  /** Fill the buffer with as many reads as it takes, or up to the end of the file. */
  method FillBuffer(file: Bytes, start: nat, buf: array<Byte>, readSizes: nat -> Option<nat>, firstCall: nat)
    returns (filled: Option<nat>, calls: nat)
    requires start <= |file|
    modifies buf
    ensures Filled(filled, calls) == Fill(buf.Length, |file| - start, readSizes, firstCall)
    ensures filled.Some? ==> HoldsPart(buf, filled.value, file, start)
  {
    var offset: nat := 0;
    calls := firstCall;
    ghost var room: nat, left: nat := buf.Length, |file| - start;
    ghost var goal := Fill(room, left, readSizes, firstCall);
    while offset < buf.Length
      invariant HoldsPart(buf, offset, file, start) && room == buf.Length - offset && left == |file| - start - offset
      invariant goal == FillOn(room, left, readSizes, calls, offset)
      decreases room
    {
      var want := readSizes(calls);
      calls := calls + 1;
      if want.None? {
        return None, calls;
      }
      var n := ReadSome(file, start, buf, offset, want.value);
      if n == 0 {
        return Some(offset), calls;
      }
      offset, room, left := offset + n, room - n, left - n;
    }
    filled := Some(offset);
  }

  /** The buffer begins with `n` bytes of the file from `start` on. */
  predicate HoldsPart(buf: array<Byte>, n: nat, file: Bytes, start: nat)
    reads buf
  {
    n <= buf.Length && start + n <= |file| && buf[..n] == file[start..start + n]
  }

  lemma {:induction false} PayloadSnoc(chunks: seq<Chunk>, c: Chunk)
    ensures Payload(chunks + [c]) == Payload(chunks) + c.bytes
  {
    assert (chunks + [c])[..|chunks|] == chunks;
  }

  predicate NextPart(file: Bytes, start: nat, size: nat, bytes: Bytes) {
    start <= |file| && |bytes| == Min(size, |file| - start) && bytes == file[start..start + |bytes|]
  }

  /** The next part of the file, as much as fits, continues the chunks. */
  lemma {:induction false} NextChunk(chunks: seq<Chunk>, file: Bytes, chunkSize: nat, bytes: Bytes)
    requires ChunksOf(chunks, file, chunkSize)
    requires bytes != [] && NextPart(file, |Payload(chunks)|, chunkSize, bytes)
    ensures ChunksOf(chunks + [DataChunk(bytes)], file, chunkSize)
    ensures |Payload(chunks + [DataChunk(bytes)])| == |Payload(chunks)| + |bytes|
  {
    PayloadSnoc(chunks, DataChunk(bytes));
    PrefixGrows(file, Payload(chunks), bytes);
    ShapeGrows(chunks, DataChunk(bytes), chunkSize);
  }

  lemma ShapeGrows(chunks: seq<Chunk>, c: Chunk, chunkSize: nat)
    requires Shaped(chunks, chunkSize) && c.endMeta.None? && 0 < |c.bytes| <= chunkSize
    requires chunks != [] ==> |chunks[|chunks| - 1].bytes| == chunkSize
    ensures Shaped(chunks + [c], chunkSize)
  {
  }

  lemma PrefixGrows(file: Bytes, done: Bytes, next: Bytes)
    requires done <= file && |done| + |next| <= |file| && next == file[|done|..|done| + |next|]
    ensures done + next <= file
    ensures |done| + |next| == |file| ==> done + next == file
  {
    assert file[..|done| + |next|] == file[..|done|] + next;
    assert file[..|file|] == file;
  }

  /** Read the next chunk through the buffer. */
  method ReadChunk(file: Bytes, start: nat, buf: array<Byte>, readSizes: nat -> Option<nat>, firstCall: nat)
    returns (bytes: Option<Bytes>, calls: nat)
    requires start <= |file|
    modifies buf
    ensures Fill(buf.Length, |file| - start, readSizes, firstCall)
            == Filled(if bytes.Some? then Some(|bytes.value|) else None, calls)
    ensures bytes.Some? ==> NextPart(file, start, buf.Length, bytes.value)
  {
    var filled;
    filled, calls := FillBuffer(file, start, buf, readSizes, firstCall);
    FillMeaning(buf.Length, |file| - start, readSizes, firstCall, 0);
    bytes := if filled.Some? then Some(buf[..filled.value]) else None;
  }

  /** Read the next chunk and see whether the channel takes it; without one, how sending ends. */
  method NextToSend(file: Bytes, start: nat, buf: array<Byte>, readSizes: nat -> Option<nat>, firstCall: nat,
                    accepted: bool)
    returns (outcome: SendOutcome, next: Option<Bytes>, calls: nat)
    requires start <= |file|
    modifies buf
    ensures next.Some? ==>
      && accepted && next.value != [] && NextPart(file, start, buf.Length, next.value)
      && Fill(buf.Length, |file| - start, readSizes, firstCall) == Filled(Some(|next.value|), calls)
    ensures next.None? ==>
      && outcome != Cancelled && (outcome == ChannelClosed ==> !accepted)
      && ReadsLeadTo(outcome, Position(|file| - start, firstCall), buf.Length, readSizes, calls)
  {
    var bytes;
    bytes, calls := ReadChunk(file, start, buf, readSizes, firstCall);
    outcome, next := Finished, None;
    if bytes.None? {
      outcome := ReadFailed;
    } else if bytes.value != [] {
      if accepted {
        next := bytes;
      } else {
        outcome := ChannelClosed;
      }
    }
  }

  /** What is left of the file and how many reads were made. */
  datatype Position = Position(left: nat, call: nat)

  /** The position after `k` chunks, if no read failed. */
  function PositionAfter(total: nat, chunkSize: nat, readSizes: nat -> Option<nat>, k: nat): Option<Position> {
    if k == 0 then Some(Position(total, 0))
    else
      match PositionAfter(total, chunkSize, readSizes, k - 1)
      case None => None
      case Some(p) =>
        var fill := Fill(chunkSize, p.left, readSizes, p.call);
        if fill.size.Some? && fill.size.value <= p.left
        then Some(Position(p.left - fill.size.value, fill.calls)) else None
  }

  /** How an outcome after `k` chunks follows from the reads: a cancellation is seen before the next
      read; otherwise the next fill fails, finds the end of the file, or has something to send. */
  predicate ReadsLeadTo(outcome: SendOutcome, p: Position, chunkSize: nat, readSizes: nat -> Option<nat>, calls: nat) {
    var fill := Fill(chunkSize, p.left, readSizes, p.call);
    match outcome
    case Cancelled => calls == p.call
    case ReadFailed => fill == Filled(None, calls)
    case Finished => fill == Filled(Some(0), calls)
    case ChannelClosed => fill.size.Some? && fill.size.value > 0 && calls == fill.calls
  }

  /** Everything about a run of the data sender: the chunks, the oracles and the reads at its end. */
  ghost predicate DataSent(file: Bytes, chunkSize: nat, readSizes: nat -> Option<nat>, cancelled: nat -> bool,
                           accepts: nat -> bool, outcome: SendOutcome, data: seq<Chunk>, calls: nat)
  {
    var p := PositionAfter(|file|, chunkSize, readSizes, |data|);
    && ChunksOf(data, file, chunkSize)
    && EndsAfter(outcome, |data|, |data| + 1, cancelled, accepts)
    && p.Some? && p.value.left + |Payload(data)| == |file|
    && ReadsLeadTo(outcome, p.value, chunkSize, readSizes, calls)
  }

  /** The chunks so far took `calls` reads. */
  ghost predicate ReadUpTo(file: Bytes, chunkSize: nat, readSizes: nat -> Option<nat>, data: seq<Chunk>, calls: nat) {
    && ChunksOf(data, file, chunkSize)
    && PositionAfter(|file|, chunkSize, readSizes, |data|) == Some(Position(|file| - |Payload(data)|, calls))
  }

  lemma {:induction false} ChunkRead(
    file: Bytes, chunkSize: nat, readSizes: nat -> Option<nat>, data: seq<Chunk>, calls: nat, bytes: Bytes,
    next: nat)
    requires ReadUpTo(file, chunkSize, readSizes, data, calls)
    requires bytes != [] && NextPart(file, |Payload(data)|, chunkSize, bytes)
    requires Fill(chunkSize, |file| - |Payload(data)|, readSizes, calls) == Filled(Some(|bytes|), next)
    ensures ReadUpTo(file, chunkSize, readSizes, data + [DataChunk(bytes)], next)
    ensures |Payload(data + [DataChunk(bytes)])| > |Payload(data)|
  {
    NextChunk(data, file, chunkSize, bytes);
  }

  lemma {:induction false} DataEnds(
    file: Bytes, chunkSize: nat, readSizes: nat -> Option<nat>, cancelled: nat -> bool, accepts: nat -> bool,
    outcome: SendOutcome, data: seq<Chunk>, before: nat, calls: nat)
    requires ReadUpTo(file, chunkSize, readSizes, data, before)
    requires EndsAfter(outcome, |data|, |data| + 1, cancelled, accepts)
    requires ReadsLeadTo(outcome, Position(|file| - |Payload(data)|, before), chunkSize, readSizes, calls)
    ensures DataSent(file, chunkSize, readSizes, cancelled, accepts, outcome, data, calls)
  {
  }

  /** Send the file in chunks until it ends or something goes wrong. `calls` counts the reads. */
  method SendData(file: Bytes, chunkSize: nat,
                  readSizes: nat -> Option<nat>, cancelled: nat -> bool, accepts: nat -> bool)
    returns (outcome: SendOutcome, data: seq<Chunk>, calls: nat)
    ensures DataSent(file, chunkSize, readSizes, cancelled, accepts, outcome, data, calls)
  {
    data, calls := [], 0;
    var buf := new Byte[chunkSize];
    while true
      invariant ReadUpTo(file, chunkSize, readSizes, data, calls) && RoundsPassed(|data|, cancelled, accepts)
      decreases |file| - |Payload(data)|
    {
      ghost var before := calls;
      var next := None;
      if cancelled(|data|) {
        outcome := Cancelled;
      } else {
        outcome, next, calls := NextToSend(file, |Payload(data)|, buf, readSizes, calls, accepts(|data|));
      }
      if next.None? {
        DataEnds(file, chunkSize, readSizes, cancelled, accepts, outcome, data, before, calls);
        return;
      }
      ChunkRead(file, chunkSize, readSizes, data, before, next.value, calls);
      data := data + [DataChunk(next.value)];
    }
  }

  /** What the end of a run says about the file and the reads: all bytes are sent exactly when it
      finishes, unless the chunk size is zero, and reading failed exactly when the last read did. */
  lemma {:induction false} DataSentMeaning(
    file: Bytes, chunkSize: nat, readSizes: nat -> Option<nat>, cancelled: nat -> bool, accepts: nat -> bool,
    outcome: SendOutcome, data: seq<Chunk>, calls: nat)
    requires DataSent(file, chunkSize, readSizes, cancelled, accepts, outcome, data, calls)
    ensures outcome == Finished ==> chunkSize == 0 || Payload(data) == file
    ensures outcome == ChannelClosed ==> Payload(data) < file
    ensures outcome != ReadFailed ==> SucceedFrom(readSizes, 0, calls)
    ensures outcome == ReadFailed ==> calls > 0 && readSizes(calls - 1).None? && SucceedFrom(readSizes, 0, calls - 1)
    ensures chunkSize > 0 ==> |data| <= calls && (outcome != Cancelled ==> |data| < calls)
    ensures calls <= |Payload(data)| + |data| + chunkSize + 1
  {
    var p := PositionAfter(|file|, chunkSize, readSizes, |data|).value;
    CallsBound(|file|, chunkSize, readSizes, |data|);
    FillMeaning(chunkSize, p.left, readSizes, p.call, 0);
  }

  lemma {:induction false} CallsBound(total: nat, chunkSize: nat, readSizes: nat -> Option<nat>, k: nat)
    ensures var p := PositionAfter(total, chunkSize, readSizes, k);
      p.Some? ==>
        && p.value.left <= total && p.value.call <= total - p.value.left + k
        && (chunkSize > 0 ==> k <= p.value.call) && SucceedFrom(readSizes, 0, p.value.call)
  {
    if k > 0 {
      CallsBound(total, chunkSize, readSizes, k - 1);
      match PositionAfter(total, chunkSize, readSizes, k - 1)
      case Some(p) => FillMeaning(chunkSize, p.left, readSizes, p.call, 0);
      case None =>
    }
  }

  /** Send the file and then, if nothing went wrong, the end chunk. */
  method SendFile(file: Bytes, meta: SnapshotMeta, chunkSize: nat,
                  readSizes: nat -> Option<nat>, cancelled: nat -> bool, accepts: nat -> bool)
    returns (outcome: SendOutcome, data: seq<Chunk>, end: seq<Chunk>, calls: nat)
    ensures DataSent(file, chunkSize, readSizes, cancelled, accepts, outcome, data, calls)
    ensures outcome == Finished ==> chunkSize == 0 || Payload(data) == file
    ensures end == if outcome == Finished && accepts(|data|) then [Chunk([], Some(("rotbl::v001", meta)))] else []
  {
    outcome, data, calls := SendData(file, chunkSize, readSizes, cancelled, accepts);
    DataSentMeaning(file, chunkSize, readSizes, cancelled, accepts, outcome, data, calls);
    end := [];
    if outcome == Finished && accepts(|data|) {
      end := [EndChunk(meta)];
    }
  }

  // -------------------------------------------------------- V003: receiver

  datatype ReceiveError = UnexpectedEof | UnsupportedFormat

  /** Write chunks to a file until the end chunk, whose format must be known. */
  function ReceiveFile(chunks: seq<Chunk>, written: Bytes): Result<(Bytes, SnapshotMeta), ReceiveError>
    decreases |chunks|
  {
    if chunks == [] then Err(UnexpectedEof)
    else
      var file := written + chunks[0].bytes;
      match chunks[0].endMeta
      case None => ReceiveFile(chunks[1..], file)
      case Some((format, meta)) => if format == SNAPSHOT_FORMAT then Ok((file, meta)) else Err(UnsupportedFormat)
  }

  lemma {:induction false} ReceiveData(data: seq<Chunk>, tail: seq<Chunk>, written: Bytes)
    requires AllData(data)
    ensures ReceiveFile(data + tail, written) == ReceiveFile(tail, written + Payload(data))
    decreases |data|
  {
    if data == [] {
      assert data + tail == tail && written + [] == written;
    } else {
      var init, c := data[..|data| - 1], data[|data| - 1];
      assert data + tail == init + ([c] + tail);
      ReceiveData(init, [c] + tail, written);
      assert ([c] + tail)[1..] == tail;
      assert written + Payload(init) + c.bytes == written + Payload(data);
    }
  }

  /** All chunk sequences, cut at the first end chunk: without one the file is incomplete; with one of
      an unknown format it is refused; otherwise it is all bytes up to there. */
  lemma {:induction false} ReceiveFileExact(data: seq<Chunk>, tail: seq<Chunk>)
    requires AllData(data) && (tail == [] || tail[0].endMeta.Some?)
    ensures ReceiveFile(data + tail, []) ==
              if tail == [] then Err(UnexpectedEof)
              else if tail[0].endMeta.value.0 != "rotbl::v001" then Err(UnsupportedFormat)
              else Ok((Payload(data) + tail[0].bytes, tail[0].endMeta.value.1))
  {
    ReceiveData(data, tail, []);
    assert [] + Payload(data) == Payload(data);
  }

  /** A receiver that finishes has the sender's file, one that is cut off knows it. With a chunk
      size of zero only the end chunk is sent, so the received file is right exactly when the chunk
      size is positive or the file is empty. */
  lemma {:induction false} FileTransfer(
    file: Bytes, meta: SnapshotMeta, chunkSize: nat, data: seq<Chunk>, end: seq<Chunk>)
    requires ChunksOf(data, file, chunkSize) && (end == [] || end == [EndChunk(meta)])
    requires end != [] ==> chunkSize == 0 || Payload(data) == file
    ensures end == [] ==> ReceiveFile(data + end, []) == Err(UnexpectedEof)
    ensures end != [] ==>
      (ReceiveFile(data + end, []) == Ok((file, meta)) <==> chunkSize > 0 || file == [])
  {
    ReceiveData(data, end, []);
    assert [] + Payload(data) == Payload(data) == Payload(data) + [];
    assert data != [] ==> 0 < |data[0].bytes| <= chunkSize;
  }

  // ---------------------------------------------------------- V004: sender

  const BATCH: nat := 64

  /** What reading the snapshot yields: a stored record or an error. */
  datatype SnapshotItem = Stored(key: string, marked: SeqMarked) | BadRead

  datatype StreamItem = StreamItem(key: string, value: Option<SeqV>)

  datatype Commit = Commit(snapshotId: string, sysData: string, vote: nat)

  datatype InstallEntry = InstallEntry(version: nat, keyValues: seq<StreamItem>, commit: Option<Commit>)

  /** The live records of a snapshot in its order; tombstones are skipped. */
  function LiveItems(items: seq<SnapshotItem>): seq<StreamItem> {
    if items == [] then []
    else
      var last := items[|items| - 1];
      LiveItems(items[..|items| - 1])
      + if last.Stored? && last.marked.Normal? then [StreamItem(last.key, Some(last.marked.v))] else []
  }

  function KeyValues(entries: seq<InstallEntry>): seq<StreamItem> {
    if entries == [] then [] else KeyValues(entries[..|entries| - 1]) + entries[|entries| - 1].keyValues
  }

  /** Batches hold 1 to 64 records, all but the last 64, and no commit. */
  predicate Batches(entries: seq<InstallEntry>) {
    && (forall i :: 0 <= i < |entries| ==>
          entries[i].version == 4 && entries[i].commit == None && 1 <= |entries[i].keyValues| <= 64)
    && (forall i :: 0 <= i < |entries| - 1 ==> |entries[i].keyValues| == 64)
  }

  lemma LiveItemsSnoc(items: seq<SnapshotItem>, n: nat)
    requires n < |items|
    ensures LiveItems(items[..n + 1]) == LiveItems(items[..n])
      + if items[n].Stored? && items[n].marked.Normal? then [StreamItem(items[n].key, Some(items[n].marked.v))] else []
  {
    assert items[..n + 1][..n] == items[..n];
  }

  lemma {:induction false} KeyValuesSnoc(entries: seq<InstallEntry>, e: InstallEntry)
    ensures KeyValues(entries + [e]) == KeyValues(entries) + e.keyValues
  {
    assert (entries + [e])[..|entries|] == entries;
  }

  predicate FirstBadRead(items: seq<SnapshotItem>, start: nat, pos: nat) {
    start <= pos < |items| && items[pos].BadRead? && forall i :: start <= i < pos ==> items[i].Stored?
  }

  /** The items before `pos` are read and their live records are in the batches, which are full
      unless the snapshot has ended. */
  ghost predicate BatchedUpTo(items: seq<SnapshotItem>, batches: seq<InstallEntry>, pos: nat) {
    && pos <= |items| && (forall i :: 0 <= i < pos ==> items[i].Stored?)
    && Batches(batches) && KeyValues(batches) == LiveItems(items[..pos])
    && (batches != [] && |batches[|batches| - 1].keyValues| < BATCH ==> pos == |items|)
  }

  lemma BatchesGrow(batches: seq<InstallEntry>, e: InstallEntry)
    requires Batches(batches) && e.version == 4 && e.commit == None && 1 <= |e.keyValues| <= BATCH
    requires batches != [] ==> |batches[|batches| - 1].keyValues| == BATCH
    ensures Batches(batches + [e])
  {
  }

  lemma BatchAppended(
    items: seq<SnapshotItem>, batches: seq<InstallEntry>, pos: nat, batch: seq<StreamItem>, next: nat)
    requires BatchedUpTo(items, batches, pos) && pos < next <= |items| && 1 <= |batch| <= BATCH
    requires LiveItems(items[..next]) == LiveItems(items[..pos]) + batch
    requires forall i :: pos <= i < next ==> items[i].Stored?
    requires |batch| < BATCH ==> next == |items|
    ensures BatchedUpTo(items, batches + [InstallEntry(4, batch, None)], next)
  {
    KeyValuesSnoc(batches, InstallEntry(4, batch, None));
    BatchesGrow(batches, InstallEntry(4, batch, None));
  }

  lemma BatchesInterrupted(items: seq<SnapshotItem>, batches: seq<InstallEntry>, pos: nat, bad: nat)
    requires BatchedUpTo(items, batches, pos) && FirstBadRead(items, pos, bad)
    requires |LiveItems(items[..bad])| < |LiveItems(items[..pos])| + BATCH
    ensures InterruptedAt(items, batches, bad)
  {
  }

  /** Reading fails at `p`, and less than a batch of the live records before it is not sent. */
  predicate InterruptedAt(items: seq<SnapshotItem>, batches: seq<InstallEntry>, p: nat) {
    FirstBadRead(items, 0, p) && |LiveItems(items[..p])| < |KeyValues(batches)| + BATCH
  }

  /** While there is another batch, something is left to send and no bad read comes before its end. */
  lemma {:induction false} BatchReady(
    items: seq<SnapshotItem>, batches: seq<InstallEntry>, pos: nat, batch: seq<StreamItem>, next: nat)
    requires BatchedUpTo(items, batches, pos) && pos < next <= |items| && 1 <= |batch|
    requires LiveItems(items[..next]) == LiveItems(items[..pos]) + batch
    requires forall i :: pos <= i < next ==> items[i].Stored?
    requires |batch| < BATCH ==> next == |items|
    ensures KeyValues(batches) < LiveItems(items)
    ensures forall p: nat :: !InterruptedAt(items, batches, p)
  {
    LiveItemsPrefix(items, next);
    forall p: nat | FirstBadRead(items, 0, p) ensures |LiveItems(items[..p])| >= |KeyValues(batches)| + BATCH {
      assert next <= p;
      LiveItemsPrefix(items[..p], next);
      assert items[..p][..next] == items[..next];
    }
  }

  /** Collect live records from position `start` until the batch is full, the snapshot ends or
      reading fails. */
  method NextBatch(items: seq<SnapshotItem>, start: nat) returns (batch: Option<seq<StreamItem>>, pos: nat)
    requires start <= |items|
    ensures start <= pos <= |items|
    ensures batch.Some? ==>
      && LiveItems(items[..pos]) == LiveItems(items[..start]) + batch.value
      && |batch.value| <= BATCH && (|batch.value| < BATCH ==> pos == |items|)
      && (batch.value != [] ==> start < pos)
      && (forall i :: start <= i < pos ==> items[i].Stored?)
    ensures batch.None? ==>
      FirstBadRead(items, start, pos) && |LiveItems(items[..pos])| < |LiveItems(items[..start])| + BATCH
  {
    var got := [];
    pos := start;
    while pos < |items| && |got| < BATCH
      invariant start <= pos <= |items| && |got| <= BATCH
      invariant LiveItems(items[..pos]) == LiveItems(items[..start]) + got
      invariant got != [] ==> start < pos
      invariant forall i :: start <= i < pos ==> items[i].Stored?
    {
      LiveItemsSnoc(items, pos);
      match items[pos] {
        case BadRead => return None, pos;
        case Stored(key, Normal(v)) => got := got + [StreamItem(key, Some(v))];
        case Stored(_, Tombstone(_)) =>
      }
      pos := pos + 1;
    }
    batch := Some(got);
  }

  /** Send live records in batches until the snapshot ends or something goes wrong. */
  method SendBatches(items: seq<SnapshotItem>, cancelled: nat -> bool, accepts: nat -> bool)
    returns (outcome: SendOutcome, batches: seq<InstallEntry>, ghost pos: nat)
    ensures BatchedUpTo(items, batches, pos)
    ensures EndsAfter(outcome, |batches|, |batches|, cancelled, accepts)
    ensures outcome == Finished ==> pos == |items|
    ensures outcome in {Cancelled, ChannelClosed} ==> KeyValues(batches) < LiveItems(items)
    ensures outcome == ReadFailed <==> exists p: nat :: InterruptedAt(items, batches, p)
  {
    batches, pos := [], 0;
    var at := 0;
    assert items[..0] == [];
    while true
      invariant at == pos && BatchedUpTo(items, batches, at)
      invariant RoundsPassed(|batches|, cancelled, accepts)
      decreases |items| - at
    {
      var batch, next := NextBatch(items, at);
      if batch.None? {
        BatchesInterrupted(items, batches, at, next);
        return ReadFailed, batches, pos;
      }
      if batch.value == [] {
        return Finished, batches, next;
      }
      BatchReady(items, batches, at, batch.value, next);
      if cancelled(|batches|) {
        return Cancelled, batches, pos;
      }
      if !accepts(|batches|) {
        return ChannelClosed, batches, pos;
      }
      BatchAppended(items, batches, at, batch.value, next);
      batches := batches + [InstallEntry(4, batch.value, None)];
      at, pos := next, next;
    }
  }

  /** Send the live records and then, if nothing went wrong, the commit entry. */
  method SendRecords(items: seq<SnapshotItem>, commit: Commit, cancelled: nat -> bool, accepts: nat -> bool)
    returns (outcome: SendOutcome, batches: seq<InstallEntry>, end: seq<InstallEntry>)
    ensures Batches(batches) && KeyValues(batches) <= LiveItems(items)
    ensures EndsAfter(outcome, |batches|, |batches|, cancelled, accepts)
    ensures outcome == Finished ==> KeyValues(batches) == LiveItems(items)
    ensures outcome in {Cancelled, ChannelClosed} ==> KeyValues(batches) < LiveItems(items)
    ensures outcome == Finished ==> forall i :: 0 <= i < |items| ==> items[i].Stored?
    ensures outcome == ReadFailed <==> exists p: nat :: InterruptedAt(items, batches, p)
    ensures end == if outcome == Finished && accepts(|batches|) then [InstallEntry(4, [], Some(commit))] else []
  {
    ghost var pos;
    outcome, batches, pos := SendBatches(items, cancelled, accepts);
    LiveItemsPrefix(items, pos);
    assert items[..|items|] == items;
    end := [];
    if outcome == Finished && accepts(|batches|) {
      end := [InstallEntry(4, [], Some(commit))];
    }
  }

  lemma {:induction false} LiveItemsPrefix(items: seq<SnapshotItem>, n: nat)
    requires n <= |items|
    ensures LiveItems(items[..n]) <= LiveItems(items)
    decreases |items| - n
  {
    if n < |items| {
      LiveItemsSnoc(items, n);
      LiveItemsPrefix(items, n + 1);
    } else {
      assert items[..n] == items;
    }
  }

  // -------------------------------------------------------- V004: receiver

  /** The records that an install entry writes. */
  function Written(kvs: seq<StreamItem>): seq<(string, SeqV)> {
    if kvs == [] then []
    else
      var last := kvs[|kvs| - 1];
      Written(kvs[..|kvs| - 1]) + if last.value.Some? then [(last.key, last.value.value)] else []
  }

  /** Write records until the commit entry; without one the snapshot is refused. */
  function ReceiveRecords(entries: seq<InstallEntry>, written: seq<(string, SeqV)>)
    : Result<(seq<(string, SeqV)>, Commit), ReceiveError>
    decreases |entries|
  {
    if entries == [] then Err(UnexpectedEof)
    else
      var all := written + Written(entries[0].keyValues);
      match entries[0].commit
      case Some(c) => Ok((all, c))
      case None => ReceiveRecords(entries[1..], all)
  }

  lemma {:induction false} WrittenConcat(a: seq<StreamItem>, b: seq<StreamItem>)
    ensures Written(a + b) == Written(a) + Written(b)
    decreases |b|
  {
    if b == [] {
      assert a + b == a;
    } else {
      assert (a + b)[..|a + b| - 1] == a + b[..|b| - 1];
      WrittenConcat(a, b[..|b| - 1]);
    }
  }

  lemma {:induction false} ReceiveBatches(
    batches: seq<InstallEntry>, tail: seq<InstallEntry>, written: seq<(string, SeqV)>)
    requires forall i :: 0 <= i < |batches| ==> batches[i].commit == None
    ensures ReceiveRecords(batches + tail, written) == ReceiveRecords(tail, written + Written(KeyValues(batches)))
    decreases |batches|
  {
    if batches == [] {
      assert batches + tail == tail && written + [] == written;
    } else {
      var init, b := batches[..|batches| - 1], batches[|batches| - 1];
      assert batches + tail == init + ([b] + tail);
      ReceiveBatches(init, [b] + tail, written);
      assert ([b] + tail)[1..] == tail;
      WrittenConcat(KeyValues(init), b.keyValues);
      assert written + Written(KeyValues(init)) + Written(b.keyValues)
             == written + (Written(KeyValues(init)) + Written(b.keyValues));
    }
  }

  /** The live records of a snapshot as key and value. */
  function LiveRecords(items: seq<SnapshotItem>): seq<(string, SeqV)> {
    if items == [] then []
    else
      var last := items[|items| - 1];
      LiveRecords(items[..|items| - 1])
      + if last.Stored? && last.marked.Normal? then [(last.key, last.marked.v)] else []
  }

  lemma {:induction false} WrittenIsLive(items: seq<SnapshotItem>)
    ensures Written(LiveItems(items)) == LiveRecords(items)
  {
    if items != [] {
      var init, last := items[..|items| - 1], items[|items| - 1];
      WrittenIsLive(init);
      if last.Stored? && last.marked.Normal? {
        var x := StreamItem(last.key, Some(last.marked.v));
        WrittenConcat(LiveItems(init), [x]);
        assert [x][..0] == [] && Written([x]) == [(last.key, last.marked.v)];
      } else {
        assert LiveItems(items) == LiveItems(init);
      }
    }
  }

  /** All entry sequences, cut at the first commit: without one the snapshot is refused, otherwise it is
      all records up to there, in order. */
  lemma {:induction false} ReceiveRecordsExact(batches: seq<InstallEntry>, tail: seq<InstallEntry>)
    requires forall i :: 0 <= i < |batches| ==> batches[i].commit == None
    requires tail == [] || tail[0].commit.Some?
    ensures ReceiveRecords(batches + tail, []) ==
              if tail == [] then Err(UnexpectedEof)
              else Ok((Written(KeyValues(batches)) + Written(tail[0].keyValues), tail[0].commit.value))
  {
    ReceiveBatches(batches, tail, []);
    assert [] + Written(KeyValues(batches)) == Written(KeyValues(batches));
  }

  /** A receiver that finishes wrote exactly the live records of the snapshot, in order, under the
      sender's commit; one that is cut off refuses the snapshot. */
  lemma {:induction false} RecordTransfer(
    items: seq<SnapshotItem>, commit: Commit, batches: seq<InstallEntry>, end: seq<InstallEntry>)
    requires Batches(batches) && (end == [] || end == [InstallEntry(4, [], Some(commit))])
    requires end != [] ==> KeyValues(batches) == LiveItems(items)
    ensures ReceiveRecords(batches + end, [])
            == if end == [] then Err(UnexpectedEof) else Ok((LiveRecords(items), commit))
  {
    ReceiveBatches(batches, end, []);
    var w := Written(KeyValues(batches));
    assert [] + w == w;
    if end != [] {
      WrittenIsLive(items);
      assert Written([]) == [] && w + [] == w;
    }
  }
}
