/** Raw-UART framing of SMP messages: no envelope, so message boundaries are found by plausible headers. */
module RawUart {
  import opened Bytes
  import opened Framing
  import SP = StreamPieces
  import opened Wrappers

  /** When a byte arrived, and with which capture sequence number. */
  datatype Stamp = Stamp(timestamp: int, captureSeq: Option<nat>)

  datatype Segment = Segment(endOffset: nat, stamp: Stamp)

  datatype Kind = Message | Noise | TimedOut

  datatype Record = Record(kind: Kind, data: seq<byte>, offset: nat, stamp: Stamp)

  function RecordBytes(records: seq<Record>): seq<byte> {
    if records == [] then [] else records[0].data + RecordBytes(records[1..])
  }

  function Messages(records: seq<Record>): seq<ParsedFrame> {
    if records == [] then []
    else Shown(records[0]) + Messages(records[1..])
  }

  function Shown(r: Record): seq<ParsedFrame> {
    if r.kind == Message then [ParsedFrame(r.data, r.offset)] else []
  }

  /** What timed out, in order. */
  function TimedOuts(records: seq<Record>): seq<ParsedFrame> {
    if records == [] then []
    else GivenUp(records[0]) + TimedOuts(records[1..])
  }

  function GivenUp(r: Record): seq<ParsedFrame> {
    if r.kind == TimedOut then [ParsedFrame(r.data, r.offset)] else []
  }

  lemma NoMessages()
    ensures Messages([]) == [] && TimedOuts([]) == []
  {
  }

  lemma {:induction false} RecordsAppend(a: seq<Record>, r: Record)
    ensures RecordBytes(a + [r]) == RecordBytes(a) + r.data
    ensures Messages(a + [r]) == Messages(a) + Shown(r)
  {
    if a != [] {
      assert (a + [r])[1..] == a[1..] + [r];
      RecordsAppend(a[1..], r);
    }
  }

  lemma {:induction false} RecordsConcat(a: seq<Record>, b: seq<Record>)
    ensures RecordBytes(a + b) == RecordBytes(a) + RecordBytes(b)
    ensures Messages(a + b) == Messages(a) + Messages(b)
  {
    if b == [] {
      assert a + b == a;
    } else {
      var r := b[|b| - 1];
      var front := b[..|b| - 1];
      assert b == front + [r] && a + b == (a + front) + [r];
      RecordsConcat(a, front);
      RecordsAppend(a + front, r);
      RecordsAppend(front, r);
    }
  }

  lemma {:induction false} TimedOutsConcat(a: seq<Record>, b: seq<Record>)
    ensures TimedOuts(a + b) == TimedOuts(a) + TimedOuts(b)
  {
    if a == [] {
      assert a + b == b;
    } else {
      assert (a + b)[1..] == a[1..] + b;
      TimedOutsConcat(a[1..], b);
    }
  }

  lemma TimedOutsAppend(a: seq<Record>, r: Record)
    ensures TimedOuts(a + [r]) == TimedOuts(a) + GivenUp(r)
  {
    TimedOutsConcat(a, [r]);
    assert [r][1..] == [];
  }

  lemma OneGivenUp(r: Record)
    requires r.kind == TimedOut
    ensures Messages([r]) == [] && TimedOuts([r]) == [ParsedFrame(r.data, r.offset)]
  {
    RecordsAppend([], r);
    TimedOutsAppend([], r);
    assert [] + [r] == [r];
  }

  /** The record shows the bytes of the stream at its offset, stamped by the feed that brought its first byte. */
  predicate Attributed(r: Record, stream: seq<byte>, origin: seq<Stamp>)
    requires |stream| == |origin|
  {
    && r.data != [] && r.offset + |r.data| <= |stream|
    && stream[r.offset..r.offset + |r.data|] == r.data
    && origin[r.offset] == r.stamp
  }

  /**
   * The record is rightly called what it is: a message has a header that states its length; no header begins anywhere in
   * noise; and what timed out could still have become a message.
   */
  predicate Apt(r: Record, stream: seq<byte>, limit: nat) {
    match r.kind
    case Message => SP.IsHeader(r.data, limit) && |r.data| == 8 + (r.data[2] as int) * 256 + r.data[3]
    case Noise =>
      forall at | r.offset <= at < r.offset + |r.data| :: NoHeaderAt(stream, at, limit)
    case TimedOut => |r.data| < 8 || (SP.IsHeader(r.data, limit) && |r.data| < 8 + (r.data[2] as int) * 256 + r.data[3])
  }

  predicate NoHeaderAt(stream: seq<byte>, at: nat, limit: nat) {
    at + 8 <= |stream| && !SP.IsHeader(stream[at..at + 8], limit)
  }

  predicate AllApt(log: seq<Record>, stream: seq<byte>, limit: nat) {
    forall r | r in log :: Apt(r, stream, limit)
  }

  lemma AptAppends(log: seq<Record>, r: Record, stream: seq<byte>, limit: nat)
    requires AllApt(log, stream, limit) && Apt(r, stream, limit)
    ensures AllApt(log + [r], stream, limit)
  {
    hide Apt;
  }

  lemma AptExtends(log: seq<Record>, stream: seq<byte>, data: seq<byte>, limit: nat)
    requires AllApt(log, stream, limit)
    ensures AllApt(log, stream + data, limit)
  {
    forall r | r in log ensures Apt(r, stream + data, limit) {
      assert Apt(r, stream, limit);
      if r.kind == Noise {
        forall at | r.offset <= at < r.offset + |r.data| ensures NoHeaderAt(stream + data, at, limit) {
          assert NoHeaderAt(stream, at, limit);
          assert (stream + data)[at..at + 8] == stream[at..at + 8];
        }
      }
    }
  }

  lemma HeaderIsPlausible(view: seq<byte>, limit: nat)
    ensures PlausibleHeader(view, limit) <==> SP.IsHeader(view, limit)
    ensures |view| >= 8 ==> SP.IsHeader(view[..8], limit) == SP.IsHeader(view, limit)
  {
  }

  lemma MessageApt(r: Record, stream: seq<byte>, limit: nat, buffer: seq<byte>)
    requires PlausibleHeader(buffer, limit) && |buffer| >= SMP_HEADER_BYTES + ReadU16(buffer, 2)
    requires r.kind == Message && r.data == buffer[..SMP_HEADER_BYTES + ReadU16(buffer, 2)]
    ensures Apt(r, stream, limit)
  {
  }

  lemma NoiseApt(r: Record, stream: seq<byte>, limit: nat, buffer: seq<byte>)
    requires r.offset + |buffer| == |stream| && buffer == stream[r.offset..] && r.kind == Noise && |r.data| <= |buffer|
    requires forall i | 0 <= i < |r.data| :: i + SMP_HEADER_BYTES <= |buffer| && !PlausibleHeader(buffer[i..], limit)
    ensures Apt(r, stream, limit)
  {
    hide PlausibleHeader, SP.IsHeader;
    forall at | r.offset <= at < r.offset + |r.data| ensures NoHeaderAt(stream, at, limit) {
      var i := at - r.offset;
      assert !PlausibleHeader(buffer[i..], limit);
      HeaderIsPlausible(buffer[i..], limit);
      assert buffer[i..][..8] == stream[at..at + 8];
    }
  }

  lemma TimedOutApt(r: Record, stream: seq<byte>, limit: nat)
    requires SMP_HEADER_BYTES <= limit && r.kind == TimedOut && Decide(RawSmp(limit), r.data).Wait?
    ensures Apt(r, stream, limit)
  {
  }

  /** Segments, in order, say which feed delivered each byte in [from, to). */
  predicate Covers(segments: seq<Segment>, origin: seq<Stamp>, from: nat, to: nat)
    requires to <= |origin|
  {
    && segments != [] && from < segments[0].endOffset && segments[|segments| - 1].endOffset == to
    && (forall i, j | 0 <= i < j < |segments| :: segments[i].endOffset < segments[j].endOffset)
    && (forall k | from <= k < segments[0].endOffset && k < to :: origin[k] == segments[0].stamp)
    && (forall i, k | 0 < i < |segments| && segments[i - 1].endOffset <= k < segments[i].endOffset && k < to ::
          origin[k] == segments[i].stamp)
  }

  /** What is buffered is the end of the stream, and the stamps and segments kept for it are those of the feeds it came with. */
  predicate Follows(buffer: seq<byte>, offset: nat, first: Stamp, lastTimestamp: int, segments: seq<Segment>, stream: seq<byte>,
                    origin: seq<Stamp>)
    requires |stream| == |origin|
  {
    && (buffer == [] ==> segments == [])
    && (buffer != [] ==>
          && offset + |buffer| == |stream|
          && buffer == stream[offset..]
          && Covers(segments, origin, offset, |stream|)
          && first == origin[offset]
          && lastTimestamp == origin[|stream| - 1].timestamp)
  }

  class RawUartDecoder {
    const maxPacketBytes: nat
    const reassemblyTimeoutMs: int
    var inputOffset: nat
    var rawBuffer: seq<byte>
    var rawOffset: nat
    var raw: Stamp
    var rawLastTimestamp: int
    var rawSegments: seq<Segment>

    /** All bytes fed, who delivered each, and where the stream was last cut by a timeout. */
    ghost var stream: seq<byte>
    ghost var origin: seq<Stamp>
    ghost var epoch: nat
    /** All records produced. */
    ghost var log: seq<Record>

    ghost predicate Valid()
      reads this
    {
      && SMP_HEADER_BYTES <= maxPacketBytes && 1 <= reassemblyTimeoutMs
      && inputOffset == |stream| == |origin| && epoch <= |stream|
      && rawBuffer == Scan(RawSmp(maxPacketBytes), stream[epoch..], epoch).rest
      && Tracked()
      && RecordBytes(log) + rawBuffer == stream && AllApt(log, stream, maxPacketBytes)
      && forall r | r in log :: Attributed(r, stream, origin)
    }

    ghost predicate Tracked()
      requires inputOffset == |stream| == |origin|
      reads `inputOffset, `rawBuffer, `rawOffset, `raw, `rawLastTimestamp, `rawSegments, `stream, `origin
    {
      Follows(rawBuffer, rawOffset, raw, rawLastTimestamp, rawSegments, stream, origin)
    }

    constructor (maxPacketBytes: nat, reassemblyTimeoutMs: int)
      requires SMP_HEADER_BYTES <= maxPacketBytes && 1 <= reassemblyTimeoutMs
      ensures Valid() && stream == [] && log == [] && epoch == 0
      ensures this.maxPacketBytes == maxPacketBytes && this.reassemblyTimeoutMs == reassemblyTimeoutMs
    {
      this.maxPacketBytes, this.reassemblyTimeoutMs := maxPacketBytes, reassemblyTimeoutMs;
      inputOffset, rawBuffer, rawOffset, raw, rawLastTimestamp, rawSegments := 0, [], 0, Stamp(0, None), 0, [];
      stream, origin, epoch, log := [], [], 0, [];
    }

    /** The left-to-right scan of the bytes since the last timeout: what decoding has to agree with. */
    ghost function Decoded(): seq<ParsedFrame>
      requires Valid()
      reads this
    {
      Frames(Scan(RawSmp(maxPacketBytes), stream[epoch..], epoch).pieces)
    }

    /** A partial packet is always shorter than the largest message. */
    function Buffered(): (n: nat)
      requires Valid()
      reads this
      ensures n == |rawBuffer| && n < maxPacketBytes
    {
      ScanRest(RawSmp(maxPacketBytes), stream[epoch..], epoch);
      WaitIsShort(RawSmp(maxPacketBytes), rawBuffer);
      |rawBuffer|
    }

    /** Gives up on a partial packet after a silence. */
    method FlushExpired(now: int) returns (records: seq<Record>)
      requires Valid()
      modifies this
      ensures Valid() && stream == old(stream) && origin == old(origin) && log == old(log) + records
      ensures var due := old(rawBuffer != [] && now - rawLastTimestamp >= reassemblyTimeoutMs);
              && (!due ==> records == [] && epoch == old(epoch) && rawBuffer == old(rawBuffer) && rawLastTimestamp == old(rawLastTimestamp))
              && (due ==> |records| == 1 && records[0].kind == TimedOut && records[0].data == old(rawBuffer)
                          && records[0].offset == |stream| - |old(rawBuffer)| && epoch == |stream| && rawBuffer == [])
              && Messages(records) == [] && Decoded() == (if due then [] else old(Decoded()))
              && TimedOuts(records) == (if due then [ParsedFrame(old(rawBuffer), |stream| - |old(rawBuffer)|)] else [])
    {
      hide Covers, Decide, Scan, Frames, Attributed, RecordBytes, AllApt, Apt, Messages, TimedOuts, Tracked;
      records := [];
      NoMessages();
      if |rawBuffer| > 0 && now - rawLastTimestamp >= reassemblyTimeoutMs {
        var record := Record(TimedOut, rawBuffer, rawOffset, raw);
        records := [record];
        Front();
        LogFront(log, record, rawBuffer, stream, origin);
        ScanRest(RawSmp(maxPacketBytes), stream[epoch..], epoch);
        TimedOutApt(record, stream, maxPacketBytes);
        AptAppends(log, record, stream, maxPacketBytes);
        OneGivenUp(record);
        assert rawBuffer[|record.data|..] == [];
        rawBuffer, raw, rawLastTimestamp, rawSegments := [], raw.(captureSeq := None), 0, [];
        log, epoch := log + records, |stream|;
        NothingTracked();
        assert stream[epoch..] == [];
        WaitScan(maxPacketBytes, [], epoch);
      }
    }

    lemma NothingTracked()
      requires inputOffset == |stream| == |origin| && rawBuffer == [] && rawSegments == []
      ensures Tracked()
    {
    }

    /** A silence before the chunk cuts the stream; then the chunk is framed. */
    method Feed(data: seq<byte>, stamp: Stamp) returns (records: seq<Record>)
      requires Valid()
      modifies this
      ensures Valid() && stream == old(stream) + data && log == old(log) + records
      ensures origin == old(origin) + Stamps(|data|, stamp)
      ensures var due := old(rawBuffer != [] && stamp.timestamp - rawLastTimestamp >= reassemblyTimeoutMs);
              && epoch == (if due then |old(stream)| else old(epoch))
              && Decoded() == (if due then [] else old(Decoded())) + Messages(records)
              && TimedOuts(records) == (if due then [ParsedFrame(old(rawBuffer), |old(stream)| - |old(rawBuffer)|)] else [])
              && (data == [] ==> rawBuffer == if due then [] else old(rawBuffer))
      ensures rawBuffer != [] ==> rawLastTimestamp == if data == [] then old(rawLastTimestamp) else stamp.timestamp
    {
      hide Covers, Decide, Scan, Frames, Attributed, RecordBytes, AllApt, Messages, TimedOuts, Tracked;
      records := FlushExpired(stamp.timestamp);
      if |data| == 0 {
        assert stream + data == stream && origin + Stamps(|data|, stamp) == origin;
        return;
      }
      var decoded := FeedRaw(data, stamp);
      RecordsConcat(records, decoded);
      TimedOutsConcat(records, decoded);
      records := records + decoded;
    }

    method FeedRaw(data: seq<byte>, stamp: Stamp) returns (records: seq<Record>)
      requires Valid() && data != []
      modifies this
      ensures Valid() && stream == old(stream) + data && log == old(log) + records
      ensures origin == old(origin) + Stamps(|data|, stamp)
      ensures epoch == old(epoch) && Decoded() == old(Decoded()) + Messages(records) && TimedOuts(records) == []
      ensures rawBuffer != [] ==> rawLastTimestamp == stamp.timestamp
    {
      hide Covers, Decide, Scan, Frames, Attributed, RecordBytes, AllApt, Messages, TimedOuts, Tracked;
      ghost var earlier := Decoded();
      Receive(data, stamp);
      NoMessages();
      records := [];
      ghost var start := log;
      assert earlier + Messages([]) == earlier;
      while |rawBuffer| >= SMP_HEADER_BYTES
        invariant Framed(earlier + Messages(records)) && log == start + records && TimedOuts(records) == []
        invariant stream == old(stream) + data && origin == old(origin) + Stamps(|data|, stamp) && epoch == old(epoch)
        decreases |rawBuffer|
      {
        ghost var before := Messages(records);
        var next := FrameOne(earlier + before);
        if next.None? { break; }
        RecordsAppend(records, next.value);
        TimedOutsAppend(records, next.value);
        ghost var shown := Shown(next.value);
        assert earlier + before + shown == earlier + (before + shown);
        records := records + [next.value];
      }
      WaitScan(maxPacketBytes, rawBuffer, rawOffset);
      NoMessages();
      assert earlier + Messages(records) + [] == earlier + Messages(records);
      LastStamp();
    }

    /** The last byte of a pending packet came with the last feed. */
    lemma LastStamp()
      requires inputOffset == |stream| == |origin| && Tracked()
      ensures rawBuffer != [] ==> rawLastTimestamp == origin[inputOffset - 1].timestamp
    {
    }

    /** One turn of the framing loop: a stretch of noise, a message, or nothing while its bytes are missing. */
    method FrameOne(ghost done: seq<ParsedFrame>) returns (next: Option<Record>)
      requires Framed(done) && |rawBuffer| >= SMP_HEADER_BYTES
      modifies this
      ensures stream == old(stream) && origin == old(origin) && epoch == old(epoch)
      ensures next.None? ==> Framed(done) && rawBuffer == old(rawBuffer) && log == old(log)
                             && PlausibleHeader(rawBuffer, maxPacketBytes)
                             && |rawBuffer| < SMP_HEADER_BYTES + ReadU16(rawBuffer, 2)
      ensures next.Some? ==> Framed(done + Shown(next.value)) && |rawBuffer| < old(|rawBuffer|)
                             && log == old(log) + [next.value] && next.value.kind != TimedOut
    {
      hide Covers, Decide, Scan, Frames, PlausibleHeader, Attributed, RecordBytes, Tracked, Apt, AllApt;
      Front();
      if !IsPlausible(rawBuffer, maxPacketBytes) {
        var discard := FindDiscard();
        NoiseScan(maxPacketBytes, rawBuffer, discard, rawOffset);
        NoiseApt(Record(Noise, rawBuffer[..discard], rawOffset, raw), stream, maxPacketBytes, rawBuffer);
        var record := TakeFront(Noise, discard);
        assert done + [] == done;
        return Some(record);
      }
      var messageLength := SMP_HEADER_BYTES + ReadU16(rawBuffer, 2);
      if |rawBuffer| < messageLength { return None; }
      MessageScan(maxPacketBytes, rawBuffer, rawOffset);
      ghost var tail := Scan(RawSmp(maxPacketBytes), rawBuffer[messageLength..], rawOffset + messageLength);
      MessageApt(Record(Message, rawBuffer[..messageLength], rawOffset, raw), stream, maxPacketBytes, rawBuffer);
      var record := TakeFront(Message, messageLength);
      assert done + ([ParsedFrame(record.data, record.offset)] + Frames(tail.pieces)) == done + Shown(record) + Frames(tail.pieces);
      return Some(record);
    }

    /** In the middle of a feed: `done` was decoded from the bytes before rawOffset, the rest is in rawBuffer. */
    ghost predicate Framed(done: seq<ParsedFrame>)
      reads this
    {
      && SMP_HEADER_BYTES <= maxPacketBytes && 1 <= reassemblyTimeoutMs
      && inputOffset == |stream| == |origin| && epoch <= |stream|
      && rawOffset + |rawBuffer| == inputOffset
      && Tracked()
      && RecordBytes(log) + rawBuffer == stream && AllApt(log, stream, maxPacketBytes)
      && (forall r | r in log :: Attributed(r, stream, origin))
      && var whole, tail := Scan(RawSmp(maxPacketBytes), stream[epoch..], epoch), Scan(RawSmp(maxPacketBytes), rawBuffer, rawOffset);
         whole.rest == tail.rest && Frames(whole.pieces) == done + Frames(tail.pieces)
    }

    /** Appends a chunk to the buffer and notes which feed it came with. */
    method Receive(data: seq<byte>, stamp: Stamp)
      requires Valid() && data != []
      modifies this
      ensures Framed(old(Decoded())) && log == old(log)
      ensures stream == old(stream) + data && origin == old(origin) + Stamps(|data|, stamp) && epoch == old(epoch)
    {
      hide Follows, Decide, Scan, Frames, Attributed, RecordBytes, AllApt, Messages, ValidRule, Stamps;
      ArrivalFollows(rawBuffer, rawOffset, raw, rawLastTimestamp, rawSegments, stream, origin, data, stamp);
      var chunkOffset := inputOffset;
      inputOffset := inputOffset + |data|;
      if |rawBuffer| == 0 {
        rawOffset, raw := chunkOffset, stamp;
      }
      Regrouped(RecordBytes(log), rawBuffer, data);
      ArrivalScan(maxPacketBytes, stream, data, epoch, rawBuffer, rawOffset);
      AttributedExtends(log, stream, origin, data, stamp);
      AptExtends(log, stream, data, maxPacketBytes);
      rawSegments := rawSegments + [Segment(inputOffset, stamp)];
      rawLastTimestamp := stamp.timestamp;
      rawBuffer := rawBuffer + data;
      stream, origin := stream + data, origin + Stamps(|data|, stamp);
    }

    /** How many leading bytes cannot start a message: up to the next plausible header, or all but seven. */
    method FindDiscard() returns (discard: nat)
      requires |rawBuffer| >= SMP_HEADER_BYTES && !PlausibleHeader(rawBuffer, maxPacketBytes)
      ensures 1 <= discard <= |rawBuffer| - 7
      ensures discard == |rawBuffer| - 7 || PlausibleHeader(rawBuffer[discard..], maxPacketBytes)
      ensures forall i | 0 <= i < discard :: i + SMP_HEADER_BYTES <= |rawBuffer| && !PlausibleHeader(rawBuffer[i..], maxPacketBytes)
    {
      assert rawBuffer[0..] == rawBuffer;
      var index := 1;
      while index + SMP_HEADER_BYTES <= |rawBuffer|
        invariant 1 <= index <= |rawBuffer| - 7
        invariant forall i | 0 <= i < index :: !PlausibleHeader(rawBuffer[i..], maxPacketBytes)
      {
        if IsPlausible(rawBuffer[index..], maxPacketBytes) { return index; }
        index := index + 1;
      }
      discard := Max(1, |rawBuffer| - 7);
    }

    /** Turns the first `count` buffered bytes into a record. */
    method TakeFront(kind: Kind, count: nat) returns (record: Record)
      requires rawOffset + |rawBuffer| == inputOffset == |stream| == |origin| && Tracked()
      requires 1 <= count <= |rawBuffer|
      requires RecordBytes(log) + rawBuffer == stream && AllApt(log, stream, maxPacketBytes)
      requires Apt(Record(kind, rawBuffer[..count], rawOffset, raw), stream, maxPacketBytes)
      requires forall r | r in log :: Attributed(r, stream, origin)
      modifies this
      ensures record.kind == kind && record.data == old(rawBuffer)[..count] && record.offset == old(rawOffset)
      ensures rawBuffer == old(rawBuffer)[count..] && rawOffset == old(rawOffset) + count && inputOffset == old(inputOffset)
      ensures stream == old(stream) && origin == old(origin) && epoch == old(epoch) && Tracked()
      ensures log == old(log) + [record] && RecordBytes(log) + rawBuffer == stream && AllApt(log, stream, maxPacketBytes)
      ensures forall r | r in log :: Attributed(r, stream, origin)
    {
      hide Covers, Attributed, RecordBytes, Tracked, Apt, AllApt;
      record := Record(kind, rawBuffer[..count], rawOffset, raw);
      Front();
      LogFront(log, record, rawBuffer, stream, origin);
      AptAppends(log, record, stream, maxPacketBytes);
      log := log + [record];
      ConsumeRawBytes(count);
    }

    lemma Front()
      requires inputOffset == |stream| == |origin| && Tracked() && rawBuffer != []
      ensures rawOffset + |rawBuffer| == inputOffset && rawBuffer == stream[rawOffset..] && raw == origin[rawOffset]
    {
    }

    method ConsumeRawBytes(count: nat)
      requires rawOffset + |rawBuffer| == inputOffset == |stream| == |origin| && Tracked()
      requires 1 <= count <= |rawBuffer|
      modifies `rawBuffer, `rawOffset, `raw, `rawLastTimestamp, `rawSegments
      ensures rawBuffer == old(rawBuffer)[count..] && rawOffset == old(rawOffset) + count && Tracked()
    {
      hide Covers;
      ghost var from := rawOffset;
      rawBuffer := rawBuffer[count..];
      rawOffset := rawOffset + count;
      if |rawBuffer| == 0 {
        raw, rawLastTimestamp, rawSegments := raw.(captureSeq := None), 0, [];
        return;
      }
      rawSegments := DropDelivered(rawSegments, rawOffset, origin, from, inputOffset);
      CoversEnds(rawSegments, origin, rawOffset, inputOffset);
      raw := rawSegments[0].stamp;
      rawLastTimestamp := rawSegments[|rawSegments| - 1].stamp.timestamp;
    }
  }

  /** Forgets the segments whose bytes are all taken. */
  method DropDelivered(segments: seq<Segment>, offset: nat, ghost origin: seq<Stamp>, ghost from: nat, ghost to: nat)
    returns (live: seq<Segment>)
    requires from <= offset < to <= |origin| && Covers(segments, origin, from, to)
    ensures Covers(live, origin, offset, to)
  {
    live := segments;
    ghost var at := from;
    while live[0].endOffset <= offset
      invariant from <= at <= offset && Covers(live, origin, at, to)
      decreases |live|
    {
      CoversShift(live, origin, at, to);
      at := live[0].endOffset;
      live := live[1..];
    }
  }

  datatype Chunk = Chunk(data: seq<byte>, stamp: Stamp)

  function AllData(chunks: seq<Chunk>): seq<byte> {
    if chunks == [] then [] else AllData(chunks[..|chunks| - 1]) + chunks[|chunks| - 1].data
  }

  function AllStamps(chunks: seq<Chunk>): seq<Stamp> {
    if chunks == [] then []
    else
      var last := chunks[|chunks| - 1];
      AllStamps(chunks[..|chunks| - 1]) + seq(|last.data|, _ => last.stamp)
  }

  lemma {:induction false} DataAndStamps(chunks: seq<Chunk>)
    ensures |AllData(chunks)| == |AllStamps(chunks)|
  {
    if chunks != [] {
      DataAndStamps(chunks[..|chunks| - 1]);
    }
  }

  /**
   * A listener who waits no longer than the timeout: the messages and the losses of all stretches behind it, the stretch of
   * the stream heard since the last loss, where that began, and when its last byte came.
   */
  datatype Heard = Heard(messages: seq<ParsedFrame>, lost: seq<ParsedFrame>, stretch: seq<byte>, at: nat, last: int)

  /** A silence too long for a partial packet loses it and begins a new stretch. */
  function Hear(limit: nat, timeoutMs: int, h: Heard, chunk: Chunk): Heard
    requires SMP_HEADER_BYTES <= limit
  {
    var o := Scan(RawSmp(limit), h.stretch, h.at);
    ScanRest(RawSmp(limit), h.stretch, h.at);
    var end := h.at + |h.stretch|;
    var last := if chunk.data == [] then h.last else chunk.stamp.timestamp;
    if o.rest != [] && chunk.stamp.timestamp - h.last >= timeoutMs then
      Heard(h.messages + Frames(o.pieces), h.lost + [ParsedFrame(o.rest, end - |o.rest|)], chunk.data, end, last)
    else
      Heard(h.messages, h.lost, h.stretch + chunk.data, h.at, last)
  }

  function HearAll(limit: nat, timeoutMs: int, chunks: seq<Chunk>): Heard
    requires SMP_HEADER_BYTES <= limit
  {
    if chunks == [] then Heard([], [], [], 0, 0)
    else Hear(limit, timeoutMs, HearAll(limit, timeoutMs, chunks[..|chunks| - 1]), chunks[|chunks| - 1])
  }

  /** The records are those of the listener, and so are the stretch not yet given up and what is left of it. */
  ghost predicate Agree(h: Heard, limit: nat, records: seq<Record>, stream: seq<byte>, epoch: nat, buffer: seq<byte>, last: int)
    requires SMP_HEADER_BYTES <= limit && epoch <= |stream|
  {
    var o := Scan(RawSmp(limit), h.stretch, h.at);
    && Messages(records) == h.messages + Frames(o.pieces) && TimedOuts(records) == h.lost && buffer == o.rest
    && epoch == h.at && stream[epoch..] == h.stretch && (buffer != [] ==> last == h.last)
  }

  lemma AgreeMeans(h: Heard, limit: nat, records: seq<Record>, stream: seq<byte>, epoch: nat, buffer: seq<byte>, last: int)
    requires SMP_HEADER_BYTES <= limit && epoch <= |stream| && Agree(h, limit, records, stream, epoch, buffer, last)
    ensures var o := Scan(RawSmp(limit), h.stretch, h.at);
            Messages(records) == h.messages + Frames(o.pieces) && TimedOuts(records) == h.lost && buffer == o.rest
  {
  }

  lemma AgreeStarts(limit: nat, timeoutMs: int, chunks: seq<Chunk>, last: int)
    requires SMP_HEADER_BYTES <= limit
    ensures Agree(HearAll(limit, timeoutMs, chunks[..0]), limit, [], [], 0, [], last)
  {
    WaitScan(limit, [], 0);
  }

  lemma AgreeNext(h: Heard, limit: nat, timeoutMs: int, chunk: Chunk, records: seq<Record>, stream: seq<byte>, epoch: nat,
                  buffer: seq<byte>, last: int, batch: seq<Record>, cut: nat, buffer': seq<byte>, last': int)
    requires SMP_HEADER_BYTES <= limit && epoch <= |stream| && Agree(h, limit, records, stream, epoch, buffer, last)
    requires |buffer| <= |stream|
    requires var due := buffer != [] && chunk.stamp.timestamp - last >= timeoutMs;
             && cut == (if due then |stream| else epoch)
             && var after := Scan(RawSmp(limit), (stream + chunk.data)[cut..], cut);
             && var before := Scan(RawSmp(limit), stream[epoch..], epoch);
             && Frames(after.pieces) == (if due then [] else Frames(before.pieces)) + Messages(batch) && buffer' == after.rest
             && TimedOuts(batch) == (if due then [ParsedFrame(buffer, |stream| - |buffer|)] else [])
    requires buffer' != [] ==> last' == if chunk.data == [] then last else chunk.stamp.timestamp
    requires chunk.data == [] ==> buffer' == [] || buffer' == buffer
    ensures Agree(Hear(limit, timeoutMs, h, chunk), limit, records + batch, stream + chunk.data, cut, buffer', last')
  {
    hide Scan, Frames, Messages, TimedOuts, Decide;
    RecordsConcat(records, batch);
    TimedOutsConcat(records, batch);
    StretchNext(stream, chunk.data, epoch);
    var due := buffer != [] && chunk.stamp.timestamp - last >= timeoutMs;
    var after := Scan(RawSmp(limit), (stream + chunk.data)[cut..], cut);
    if due {
      assert Messages(batch) == Frames(after.pieces) by { assert [] + Messages(batch) == Messages(batch); }
    } else {
      assert Messages(records) + Messages(batch) == h.messages + Frames(after.pieces);
      assert h.lost + [] == h.lost;
    }
  }

  lemma StretchNext(stream: seq<byte>, data: seq<byte>, epoch: nat)
    requires epoch <= |stream|
    ensures epoch + |stream[epoch..]| == |stream|
    ensures (stream + data)[|stream|..] == data && (stream + data)[epoch..] == stream[epoch..] + data
  {
  }

  lemma NextChunk(chunks: seq<Chunk>, i: nat, limit: nat, timeoutMs: int)
    requires i < |chunks| && SMP_HEADER_BYTES <= limit
    ensures AllData(chunks[..i + 1]) == AllData(chunks[..i]) + chunks[i].data
    ensures AllStamps(chunks[..i + 1]) == AllStamps(chunks[..i]) + Stamps(|chunks[i].data|, chunks[i].stamp)
    ensures HearAll(limit, timeoutMs, chunks[..i + 1]) == Hear(limit, timeoutMs, HearAll(limit, timeoutMs, chunks[..i]), chunks[i])
  {
    hide Hear;
    assert chunks[..i + 1][..i] == chunks[..i];
  }

  lemma NoChunks()
    ensures AllData([]) == [] && AllStamps([]) == []
  {
  }

  /**
   * Any run of feeds, whatever the chunks and the silences between them: each stretch between two timeouts is read by one
   * scan, and what that scan leaves over is what times out.  The bytes of the records followed by the
   * buffer are the input, and each record carries the stamp of the feed that delivered its first byte.  Without a
   * silence as long as the timeout, the messages and their offsets are those of one scan of the whole input.
   */
  method Replay(maxPacketBytes: nat, reassemblyTimeoutMs: int, chunks: seq<Chunk>) returns (records: seq<Record>, buffered: seq<byte>)
    requires SMP_HEADER_BYTES <= maxPacketBytes && 1 <= reassemblyTimeoutMs
    ensures RecordBytes(records) + buffered == AllData(chunks) && |buffered| < maxPacketBytes
    ensures |AllData(chunks)| == |AllStamps(chunks)|
    ensures forall r | r in records :: Attributed(r, AllData(chunks), AllStamps(chunks)) && Apt(r, AllData(chunks), maxPacketBytes)
    ensures var h := HearAll(maxPacketBytes, reassemblyTimeoutMs, chunks);
            var o := Scan(RawSmp(maxPacketBytes), h.stretch, h.at);
            Messages(records) == h.messages + Frames(o.pieces) && TimedOuts(records) == h.lost && buffered == o.rest
    ensures Prompt(chunks, reassemblyTimeoutMs) ==>
              Messages(records) == Frames(Scan(RawSmp(maxPacketBytes), AllData(chunks), 0).pieces)
  {
    hide Decide, Scan, Frames, RecordBytes, Covers, Attributed, Apt, Messages, TimedOuts, Hear, HearAll, Agree, AllData, AllStamps, Prompt;
    var decoder := new RawUartDecoder(maxPacketBytes, reassemblyTimeoutMs);
    records := [];
    NoChunks();
    assert chunks[..0] == [];
    AgreeStarts(maxPacketBytes, reassemblyTimeoutMs, chunks, decoder.rawLastTimestamp);
    var i := 0;
    while i < |chunks|
      invariant 0 <= i <= |chunks| && decoder.Valid() && fresh(decoder)
      invariant decoder.maxPacketBytes == maxPacketBytes && decoder.reassemblyTimeoutMs == reassemblyTimeoutMs
      invariant decoder.stream == AllData(chunks[..i]) && decoder.origin == AllStamps(chunks[..i])
      invariant records == decoder.log
      invariant Agree(HearAll(maxPacketBytes, reassemblyTimeoutMs, chunks[..i]), maxPacketBytes, records, decoder.stream, decoder.epoch,
                      decoder.rawBuffer, decoder.rawLastTimestamp)
    {
      NextChunk(chunks, i, maxPacketBytes, reassemblyTimeoutMs);
      ghost var was, cut, held, last := decoder.stream, decoder.epoch, decoder.rawBuffer, decoder.rawLastTimestamp;
      ghost var h := HearAll(maxPacketBytes, reassemblyTimeoutMs, chunks[..i]);
      var batch := decoder.Feed(chunks[i].data, chunks[i].stamp);
      RecordsConcat(records, batch);
      AgreeNext(h, maxPacketBytes, reassemblyTimeoutMs, chunks[i], records, was, cut, held, last, batch, decoder.epoch, decoder.rawBuffer,
                decoder.rawLastTimestamp);
      records := records + batch;
      i := i + 1;
    }
    assert chunks[..i] == chunks;
    if Prompt(chunks, reassemblyTimeoutMs) {
      PromptHeard(chunks, maxPacketBytes, reassemblyTimeoutMs);
      assert forall o: Outcome :: [] + Frames(o.pieces) == Frames(o.pieces);
    }
    AgreeMeans(HearAll(maxPacketBytes, reassemblyTimeoutMs, chunks), maxPacketBytes, records, decoder.stream, decoder.epoch, decoder.rawBuffer,
               decoder.rawLastTimestamp);
    buffered := decoder.rawBuffer;
    var n := decoder.Buffered();
  }

  /** No empty chunk, and no silence as long as the timeout. */
  predicate Prompt(chunks: seq<Chunk>, timeoutMs: int) {
    && (forall c | c in chunks :: c.data != [])
    && forall i | 0 < i < |chunks| :: chunks[i].stamp.timestamp - chunks[i - 1].stamp.timestamp < timeoutMs
  }

  /** Then nothing times out, and the whole input is one stretch. */
  lemma {:induction false} PromptHeard(chunks: seq<Chunk>, limit: nat, timeoutMs: int)
    requires SMP_HEADER_BYTES <= limit && Prompt(chunks, timeoutMs)
    ensures var h := HearAll(limit, timeoutMs, chunks);
            && h.messages == h.lost == [] && h.at == 0 && h.stretch == AllData(chunks)
            && (chunks != [] ==> h.last == chunks[|chunks| - 1].stamp.timestamp)
  {
    hide Scan, Frames;
    if chunks != [] {
      var most, n := chunks[..|chunks| - 1], |chunks| - 1;
      assert forall c | c in most :: c in chunks;
      PromptHeard(most, limit, timeoutMs);
      if n == 0 {
        WaitScan(limit, [], 0);
      } else {
        assert chunks[n].stamp.timestamp - chunks[n - 1].stamp.timestamp < timeoutMs;
      }
    }
  }

  predicate IsPlausible(bytes: seq<byte>, maxPacketBytes: nat)
    ensures IsPlausible(bytes, maxPacketBytes) == PlausibleHeader(bytes, maxPacketBytes)
  {
    if |bytes| < SMP_HEADER_BYTES then false
    else if bytes[0] / 32 != 0 || bytes[0] % 8 > 3 then false
    else
      var messageLength := SMP_HEADER_BYTES + ReadU16(bytes, 2);
      SMP_HEADER_BYTES <= messageLength <= maxPacketBytes
  }

  // ----- segments

  /** The stamp of one feed, for each of its bytes. */
  function Stamps(count: nat, stamp: Stamp): (stamps: seq<Stamp>)
    ensures |stamps| == count && forall i | 0 <= i < count :: stamps[i] == stamp
  {
    seq(count, _ => stamp)
  }

  lemma CoversAppend(segments: seq<Segment>, origin: seq<Stamp>, from: nat, to: nat, count: nat, stamp: Stamp, live: bool)
    requires to == |origin| && count > 0
    requires if live then Covers(segments, origin, from, to) && from < to else segments == [] && from == to
    ensures Covers(segments + [Segment(to + count, stamp)], origin + Stamps(count, stamp), from, to + count)
  {
  }

  lemma CoversShift(segments: seq<Segment>, origin: seq<Stamp>, from: nat, to: nat)
    requires to <= |origin| && Covers(segments, origin, from, to) && segments[0].endOffset < to
    ensures |segments| > 1 && Covers(segments[1..], origin, segments[0].endOffset, to)
  {
  }

  /** The first live segment brought the first byte, the last one the last byte. */
  lemma CoversEnds(segments: seq<Segment>, origin: seq<Stamp>, from: nat, to: nat)
    requires from < to <= |origin| && Covers(segments, origin, from, to)
    ensures segments != [] && origin[from] == segments[0].stamp && origin[to - 1] == segments[|segments| - 1].stamp
  {
    var last := |segments| - 1;
    assert last > 0 ==> segments[last - 1].endOffset <= to - 1 < segments[last].endOffset;
  }

  /** Logging the front of the buffer keeps the account of the stream. */
  lemma LogFront(log: seq<Record>, r: Record, buffer: seq<byte>, stream: seq<byte>, origin: seq<Stamp>)
    requires |stream| == |origin| && r.data != [] && r.data <= buffer
    requires r.offset + |buffer| == |stream| && stream[r.offset..] == buffer && origin[r.offset] == r.stamp
    requires RecordBytes(log) + buffer == stream && forall x | x in log :: Attributed(x, stream, origin)
    ensures RecordBytes(log + [r]) + buffer[|r.data|..] == stream
    ensures forall x | x in log + [r] :: Attributed(x, stream, origin)
  {
    hide RecordBytes, Attributed;
    assert Attributed(r, stream, origin) by { FrontAttributed(r, buffer, stream, origin); }
    RecordsAppend(log, r);
    FrontMoves(RecordBytes(log), r.data, buffer);
  }

  lemma FrontAttributed(r: Record, buffer: seq<byte>, stream: seq<byte>, origin: seq<Stamp>)
    requires |stream| == |origin| && r.data != [] && r.data <= buffer
    requires r.offset + |buffer| == |stream| && stream[r.offset..] == buffer && origin[r.offset] == r.stamp
    ensures Attributed(r, stream, origin)
  {
    assert stream[r.offset..r.offset + |r.data|] == buffer[..|r.data|];
  }

  lemma FrontMoves(before: seq<byte>, front: seq<byte>, buffer: seq<byte>)
    requires front <= buffer
    ensures (before + front) + buffer[|front|..] == before + buffer
  {
    assert buffer == front + buffer[|front|..];
  }

  lemma AttributedExtends(log: seq<Record>, stream: seq<byte>, origin: seq<Stamp>, data: seq<byte>, stamp: Stamp)
    requires |stream| == |origin| && forall r | r in log :: Attributed(r, stream, origin)
    ensures forall r | r in log :: Attributed(r, stream + data, origin + Stamps(|data|, stamp))
  {
    forall r | r in log ensures Attributed(r, stream + data, origin + Stamps(|data|, stamp)) {
      assert Attributed(r, stream, origin);
      assert (stream + data)[r.offset..r.offset + |r.data|] == stream[r.offset..r.offset + |r.data|];
    }
  }

  lemma Regrouped(a: seq<byte>, b: seq<byte>, c: seq<byte>)
    ensures a + (b + c) == (a + b) + c
  {
  }

  lemma ArrivalFollows(buffer: seq<byte>, offset: nat, first: Stamp, lastTimestamp: int, segments: seq<Segment>, stream: seq<byte>,
                       origin: seq<Stamp>, data: seq<byte>, stamp: Stamp)
    requires |stream| == |origin| && data != [] && Follows(buffer, offset, first, lastTimestamp, segments, stream, origin)
    ensures var from, one := if buffer == [] then |stream| else offset, if buffer == [] then stamp else first;
            && from + |buffer| == |stream|
            && Follows(buffer + data, from, one, stamp.timestamp, segments + [Segment(|stream| + |data|, stamp)], stream + data,
                       origin + Stamps(|data|, stamp))
  {
    hide Covers;
    var from := if buffer == [] then |stream| else offset;
    CoversAppend(segments, origin, from, |stream|, |data|, stamp, buffer != []);
    assert (stream + data)[from..] == stream[from..] + data && stream[from..] == buffer;
    var all := origin + Stamps(|data|, stamp);
    assert all[|all| - 1] == stamp && (buffer != [] ==> all[offset] == origin[offset]);
  }

  // ----- the scan, as the loop meets it

  /** A chunk is scanned together with what was still buffered, just as if the whole stream were scanned again. */
  lemma ArrivalScan(limit: nat, stream: seq<byte>, data: seq<byte>, epoch: nat, buffer: seq<byte>, offset: nat)
    requires SMP_HEADER_BYTES <= limit && epoch <= |stream| && offset + |buffer| == |stream|
    requires buffer == Scan(RawSmp(limit), stream[epoch..], epoch).rest
    ensures var before, tail := Scan(RawSmp(limit), stream[epoch..], epoch), Scan(RawSmp(limit), buffer + data, offset);
            var whole := Scan(RawSmp(limit), (stream + data)[epoch..], epoch);
            whole.rest == tail.rest && Frames(whole.pieces) == Frames(before.pieces) + Frames(tail.pieces)
  {
    hide Scan, Frames, Decide;
    assert stream[epoch..] + data == (stream + data)[epoch..];
    ScanExtend(RawSmp(limit), stream[epoch..], data, epoch);
    FramesAppend(Scan(RawSmp(limit), stream[epoch..], epoch).pieces, Scan(RawSmp(limit), buffer + data, offset).pieces);
  }

  /** Skipping bytes one at a time is what discarding a stretch of noise amounts to. */
  lemma {:induction false} NoiseScan(limit: nat, view: seq<byte>, discard: nat, at: nat)
    requires SMP_HEADER_BYTES <= limit && discard + 7 <= |view|
    requires forall i | 0 <= i < discard :: !PlausibleHeader(view[i..], limit)
    ensures var all, tail := Scan(RawSmp(limit), view, at), Scan(RawSmp(limit), view[discard..], at + discard);
            all.rest == tail.rest && Frames(all.pieces) == Frames(tail.pieces)
    decreases discard
  {
    hide PlausibleHeader, Scan;
    assert view[0..] == view;
    if discard > 0 {
      ScanStep(RawSmp(limit), view, at);
      forall i | 0 <= i < discard - 1 ensures !PlausibleHeader(view[1..][i..], limit) {
        assert view[1..][i..] == view[i + 1..];
      }
      NoiseScan(limit, view[1..], discard - 1, at + 1);
      assert view[1..][discard - 1..] == view[discard..];
      var later := Scan(RawSmp(limit), view[1..], at + 1);
      var piece := Cut(Decide(RawSmp(limit), view), view, at);
      assert ([piece] + later.pieces)[1..] == later.pieces;
    }
  }

  lemma MessageScan(limit: nat, view: seq<byte>, at: nat)
    requires SMP_HEADER_BYTES <= limit && PlausibleHeader(view, limit) && SMP_HEADER_BYTES + ReadU16(view, 2) <= |view|
    ensures var size := SMP_HEADER_BYTES + ReadU16(view, 2);
            var all, tail := Scan(RawSmp(limit), view, at), Scan(RawSmp(limit), view[size..], at + size);
            all.rest == tail.rest && Frames(all.pieces) == [ParsedFrame(view[..size], at)] + Frames(tail.pieces)
  {
    hide PlausibleHeader, Scan;
    ScanStep(RawSmp(limit), view, at);
    var size := SMP_HEADER_BYTES + ReadU16(view, 2);
    var tail := Scan(RawSmp(limit), view[size..], at + size);
    var piece := Cut(Decide(RawSmp(limit), view), view, at);
    assert ([piece] + tail.pieces)[1..] == tail.pieces;
  }

  lemma WaitScan(limit: nat, view: seq<byte>, at: nat)
    requires SMP_HEADER_BYTES <= limit
    requires |view| < SMP_HEADER_BYTES || (PlausibleHeader(view, limit) && |view| < SMP_HEADER_BYTES + ReadU16(view, 2))
    ensures Scan(RawSmp(limit), view, at) == Outcome([], view) && Frames([]) == []
  {
    hide PlausibleHeader;
  }
}
