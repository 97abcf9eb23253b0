/** The receive queue of a serial connection: keeps the newest bytes and counts exactly what it gave up. */
module SerialReceiving {
  import opened Bytes
  import opened Wrappers

  datatype EnqueueResult = EnqueueResult(droppedBytes: nat, droppedSinceDrain: nat, totalDroppedBytes: nat,
                                         overflowStarted: bool, pendingBytes: nat, pendingChunks: nat)

  datatype DrainResult = DrainResult(chunks: seq<seq<byte>>, byteLength: nat, droppedSinceDrain: nat)

  /** A configured limit: any finite number from one up, rounded down. */
  function PositiveInteger(value: real): (limit: Option<nat>)
    ensures limit.None? <==> value < 1.0
    ensures limit.Some? ==> 1 <= limit.value && limit.value as real <= value < limit.value as real + 1.0
  {
    if value < 1.0 then None else Some(value.Floor)
  }

  /** `live` holds what is left of `fed` behind its first `dropped` bytes. */
  predicate Newest(live: seq<seq<byte>>, fed: seq<byte>, dropped: nat) {
    dropped <= |fed| && Flatten(live) == fed[dropped..]
  }

  /** With these chunks still queued, `incoming` more bytes in one more chunk would break a limit. */
  predicate Crowded(live: seq<seq<byte>>, incoming: nat, maxBytes: nat, maxChunks: nat) {
    live != [] && (|Flatten(live)| + incoming > maxBytes || |live| >= maxChunks)
  }

  /** Which chunk the queue should be cut down to: the oldest ones go, one by one, while it is crowded. */
  function Evicted(live: seq<seq<byte>>, incoming: nat, maxBytes: nat, maxChunks: nat): (kept: seq<seq<byte>>) {
    if Crowded(live, incoming, maxBytes, maxChunks) then Evicted(live[1..], incoming, maxBytes, maxChunks) else live
  }

  /** What one more chunk leaves in the queue. */
  function Queued(live: seq<seq<byte>>, bytes: seq<byte>, maxBytes: nat, maxChunks: nat): seq<seq<byte>> {
    Evicted(live, |bytes|, maxBytes, maxChunks) + [bytes[Max(0, |bytes| - maxBytes)..]]
  }

  /** Eviction keeps the longest run of newest chunks that leaves room: nothing is given up without need. */
  lemma {:induction false} EvictedIsLongest(live: seq<seq<byte>>, incoming: nat, maxBytes: nat, maxChunks: nat, k: nat)
    requires k <= |live|
    ensures var kept := Evicted(live, incoming, maxBytes, maxChunks);
            && (kept != [] ==> |Flatten(kept)| + incoming <= maxBytes && |kept| + 1 <= maxChunks)
            && |kept| <= |live| && kept == live[|live| - |kept|..]
            && (|Flatten(live[k..])| + incoming <= maxBytes && |live| - k + 1 <= maxChunks ==> |live| - k <= |kept|)
  {
    if Crowded(live, incoming, maxBytes, maxChunks) {
      if k > 0 {
        EvictedIsLongest(live[1..], incoming, maxBytes, maxChunks, k - 1);
        assert live[1..][k - 1..] == live[k..];
      } else {
        EvictedIsLongest(live[1..], incoming, maxBytes, maxChunks, 0);
        assert live[0..] == live;
      }
    } else {
      assert live[0..] == live;
    }
  }

  /** The limits hold after every chunk, and what is queued is again the newest part of everything fed. */
  lemma QueuedKeeps(live: seq<seq<byte>>, fed: seq<byte>, dropped: nat, bytes: seq<byte>, maxBytes: nat, maxChunks: nat)
    requires Newest(live, fed, dropped) && 1 <= maxBytes && 1 <= maxChunks
    ensures var after := Queued(live, bytes, maxBytes, maxChunks);
            && |Flatten(after)| <= maxBytes && 1 <= |after| <= maxChunks
            && |Flatten(after)| <= |fed + bytes| && Newest(after, fed + bytes, |fed + bytes| - |Flatten(after)|)
            && |Flatten(after)| == |Flatten(Evicted(live, |bytes|, maxBytes, maxChunks))| + Min(|bytes|, maxBytes)
  {
    hide Evicted, Flatten, Newest;
    var kept := Evicted(live, |bytes|, maxBytes, maxChunks);
    var retained := bytes[Max(0, |bytes| - maxBytes)..];
    EvictedIsLongest(live, |bytes|, maxBytes, maxChunks, 0);
    NothingQueued(kept);
    SuffixIsNewest(live, fed, dropped, kept);
    NewestAppend(kept, fed, bytes, retained);
  }

  lemma NothingQueued(kept: seq<seq<byte>>)
    ensures kept == [] ==> Flatten(kept) == []
  {
  }

  /** The newest chunks of a queue hold the newest bytes. */
  lemma SuffixIsNewest(live: seq<seq<byte>>, fed: seq<byte>, dropped: nat, kept: seq<seq<byte>>)
    requires Newest(live, fed, dropped) && |kept| <= |live| && kept == live[|live| - |kept|..]
    ensures |Flatten(kept)| <= |fed| && Newest(kept, fed, |fed| - |Flatten(kept)|)
  {
    hide Flatten;
    var gone := live[..|live| - |kept|];
    assert live == gone + kept;
    FlattenAppend(gone, kept);
    SuffixOf(fed, dropped, Flatten(gone), Flatten(kept));
  }

  lemma SuffixOf(fed: seq<byte>, dropped: nat, gone: seq<byte>, kept: seq<byte>)
    requires dropped <= |fed| && fed[dropped..] == gone + kept
    ensures |kept| <= |fed| && fed[|fed| - |kept|..] == kept
  {
    assert |fed| == dropped + |gone| + |kept|;
    assert fed[dropped..][|gone|..] == fed[dropped + |gone|..];
  }

  lemma NewestAppend(kept: seq<seq<byte>>, fed: seq<byte>, bytes: seq<byte>, retained: seq<byte>)
    requires |Flatten(kept)| <= |fed| && Newest(kept, fed, |fed| - |Flatten(kept)|)
    requires |retained| <= |bytes| && retained == bytes[|bytes| - |retained|..] && (Flatten(kept) == [] || retained == bytes)
    ensures |Flatten(kept + [retained])| == |Flatten(kept)| + |retained| <= |fed + bytes|
    ensures Newest(kept + [retained], fed + bytes, |fed + bytes| - |Flatten(kept + [retained])|)
  {
    hide Flatten;
    FlattenAppend(kept, [retained]);
    FlattenOne(retained);
    SuffixAppend(fed, Flatten(kept), bytes, retained);
  }

  lemma FlattenOne(chunk: seq<byte>)
    ensures Flatten([chunk]) == chunk
  {
    assert [chunk][1..] == [];
  }

  lemma SuffixAppend(fed: seq<byte>, kept: seq<byte>, bytes: seq<byte>, retained: seq<byte>)
    requires |kept| <= |fed| && fed[|fed| - |kept|..] == kept
    requires |retained| <= |bytes| && retained == bytes[|bytes| - |retained|..] && (kept == [] || retained == bytes)
    ensures (fed + bytes)[|fed + bytes| - |kept + retained|..] == kept + retained
  {
  }

  /** Dropped chunks are no longer referenced. */
  predicate Released(chunks: seq<seq<byte>>, head: nat)
    requires head <= |chunks|
  {
    forall i | 0 <= i < head :: chunks[i] == []
  }

  lemma ReleaseNext(chunks: seq<seq<byte>>, head: nat)
    requires head < |chunks| && Released(chunks, head)
    ensures var after := chunks[head := []];
            && Released(after, head + 1) && after[head + 1..] == chunks[head + 1..] == chunks[head..][1..]
            && chunks[head..] != [] && chunks[head..][0] == chunks[head]
  {
  }

  class SerialRxQueue {
    const maxBytes: nat
    const maxChunks: nat
    var chunks: seq<seq<byte>>
    var head: nat
    var byteLength: nat
    var droppedSinceDrainBytes: nat
    var totalDropped: nat
    var overflowNotified: bool

    /** Bytes enqueued since the last drain or clear, and since the last reset; what left the queue other than dropped. */
    ghost var fed: seq<byte>
    ghost var enqueued: nat
    ghost var handedOut: nat
    /** Chunks dropped from the front, and chunks copied by compaction, over the whole life. */
    ghost var droppedChunks: nat
    ghost var copiedChunks: nat

    ghost predicate Valid()
      reads this
    {
      && 1 <= maxBytes && 1 <= maxChunks && head <= |chunks|
      && byteLength == |Flatten(chunks[head..])| <= maxBytes
      && Newest(chunks[head..], fed, droppedSinceDrainBytes)
      && |chunks| - head <= maxChunks && |chunks| < 2 * maxChunks
      && Released(chunks, head)
      && copiedChunks + head <= droppedChunks
      && Accounted()
    }

    ghost predicate Accounted()
      reads this
    {
      && droppedSinceDrainBytes <= totalDropped && overflowNotified == (totalDropped > 0)
      && totalDropped + handedOut + byteLength == enqueued
    }

    constructor (bytesLimit: nat, chunksLimit: nat)
      requires 1 <= bytesLimit && 1 <= chunksLimit
      ensures Valid() && maxBytes == bytesLimit && maxChunks == chunksLimit && fed == [] && enqueued == 0
    {
      maxBytes, maxChunks, chunks, head, byteLength := bytesLimit, chunksLimit, [], 0, 0;
      droppedSinceDrainBytes, totalDropped, overflowNotified := 0, 0, false;
      fed, enqueued, handedOut, droppedChunks, copiedChunks := [], 0, 0, 0, 0;
    }

    method Enqueue(bytes: seq<byte>) returns (r: EnqueueResult)
      requires Valid()
      modifies this
      ensures Valid() && fed == old(fed) + bytes && enqueued == old(enqueued) + |bytes| && handedOut == old(handedOut)
      ensures chunks[head..] == Queued(old(chunks[head..]), bytes, maxBytes, maxChunks)
      ensures droppedSinceDrainBytes + byteLength == |fed|
      ensures r.droppedBytes == totalDropped - old(totalDropped) == droppedSinceDrainBytes - old(droppedSinceDrainBytes)
      ensures r.overflowStarted <==> old(totalDropped) == 0 && totalDropped > 0
      ensures r.droppedSinceDrain == droppedSinceDrainBytes && r.totalDroppedBytes == totalDropped
      ensures r.pendingBytes == |Flatten(chunks[head..])| && r.pendingChunks == |chunks[head..]|
    {
      hide Evicted, Flatten, Newest, Released;
      var droppedBefore, wasOverflowNotified := totalDropped, overflowNotified;
      ghost var live := chunks[head..];
      QueuedKeeps(live, fed, droppedSinceDrainBytes, bytes, maxBytes, maxChunks);
      MakeRoom(|bytes|);
      NewestCounts(chunks[head..], fed, droppedSinceDrainBytes);
      if head == |chunks| { assert chunks[head..] == []; }
      if |bytes| > maxBytes {
        var retained := bytes[|bytes| - maxBytes..];
        RecordDrop(|bytes| - |retained|);
        PushLive(retained);
        byteLength := byteLength + |retained|;
      } else {
        PushLive(bytes);
        byteLength := byteLength + |bytes|;
      }
      fed, enqueued := fed + bytes, enqueued + |bytes|;
      r := EnqueueResult(totalDropped - droppedBefore, droppedSinceDrainBytes, totalDropped,
                         !wasOverflowNotified && overflowNotified, byteLength, |chunks| - head);
    }

    /** Drops the oldest chunks while the incoming one would break a limit. */
    method MakeRoom(incoming: nat)
      requires Valid()
      modifies `chunks, `head, `byteLength, `droppedSinceDrainBytes, `totalDropped, `overflowNotified, `droppedChunks
      ensures Valid() && chunks[head..] == Evicted(old(chunks[head..]), incoming, maxBytes, maxChunks)
      ensures totalDropped - old(totalDropped) == droppedSinceDrainBytes - old(droppedSinceDrainBytes) >= 0
      ensures head < |chunks| ==> byteLength + incoming <= maxBytes && |chunks| - head < maxChunks
    {
      ghost var live := chunks[head..];
      hide Flatten;
      while head < |chunks| && (byteLength + incoming > maxBytes || |chunks| - head >= maxChunks)
        invariant Valid()
        invariant Evicted(chunks[head..], incoming, maxBytes, maxChunks) == Evicted(live, incoming, maxBytes, maxChunks)
        invariant totalDropped - old(totalDropped) == droppedSinceDrainBytes - old(droppedSinceDrainBytes) >= 0
        decreases |chunks| - head
      {
        assert chunks[head..][1..] == chunks[head + 1..];
        DropOldest();
      }
    }

    method DropOldest()
      requires Valid() && head < |chunks|
      modifies `chunks, `head, `byteLength, `droppedSinceDrainBytes, `totalDropped, `overflowNotified, `droppedChunks
      ensures Valid() && head == old(head) + 1 && |chunks| == |old(chunks)| && chunks[head..] == old(chunks[head + 1..])
      ensures totalDropped - old(totalDropped) == droppedSinceDrainBytes - old(droppedSinceDrainBytes) >= 0
    {
      hide Flatten, Newest, Released;
      var dropped := chunks[head];
      ghost var live := chunks[head..];
      FirstDropped(live, fed, droppedSinceDrainBytes);
      ReleaseNext(chunks, head);
      chunks := chunks[head := []];
      head, droppedChunks := head + 1, droppedChunks + 1;
      byteLength := byteLength - |dropped|;
      assert chunks[head..] == live[1..];
      RecordDrop(|dropped|);
    }

    method RecordDrop(count: int)
      modifies `droppedSinceDrainBytes, `totalDropped, `overflowNotified
      ensures droppedSinceDrainBytes == old(droppedSinceDrainBytes) + Max(count, 0)
      ensures totalDropped == old(totalDropped) + Max(count, 0)
      ensures overflowNotified == (old(overflowNotified) || count > 0)
    {
      if count <= 0 { return; }
      droppedSinceDrainBytes := droppedSinceDrainBytes + count;
      totalDropped := totalDropped + count;
      overflowNotified := true;
    }

    /** Pushes one chunk; the dead front is cut off first once it is at least half of the array. */
    method PushLive(chunk: seq<byte>)
      requires head <= |chunks| && 1 <= maxChunks && |chunks| - head < maxChunks && |chunks| < 2 * maxChunks
      requires copiedChunks + head <= droppedChunks && Released(chunks, head)
      modifies `chunks, `head, `copiedChunks
      ensures head <= |chunks| && chunks[head..] == old(chunks[head..]) + [chunk] && |chunks| < 2 * maxChunks
      ensures copiedChunks + head <= droppedChunks && Released(chunks, head)
    {
      if head > 0 && 2 * head >= |chunks| {
        copiedChunks := copiedChunks + (|chunks| - head);
        chunks := chunks[head..];
        head := 0;
      }
      chunks := chunks + [chunk];
    }

    /** Hands out everything queued: the newest bytes fed since the last drain, and how many older ones are missing. */
    method Drain() returns (r: DrainResult)
      requires Valid()
      modifies this
      ensures Valid() && fed == [] && chunks == [] && totalDropped == old(totalDropped) && enqueued == old(enqueued)
      ensures r.byteLength + r.droppedSinceDrain == |old(fed)|
      ensures Flatten(r.chunks) == old(fed)[r.droppedSinceDrain..] && |r.chunks| <= maxChunks && r.byteLength <= maxBytes
    {
      r := DrainResult(if head == 0 then chunks else chunks[head..], byteLength, droppedSinceDrainBytes);
      assert chunks[0..] == chunks;
      handedOut := handedOut + byteLength;
      chunks, head, byteLength, droppedSinceDrainBytes, fed := [], 0, 0, 0, [];
    }

    method ClearPending()
      requires Valid()
      modifies `chunks, `head, `byteLength, `droppedSinceDrainBytes, `fed, `handedOut
      ensures Valid() && fed == [] && chunks == []
    {
      handedOut := handedOut + byteLength;
      chunks, head, byteLength, droppedSinceDrainBytes, fed := [], 0, 0, 0, [];
    }

    method Reset()
      requires Valid()
      modifies this
      ensures Valid() && fed == [] && chunks == [] && totalDropped == 0 && !overflowNotified && enqueued == 0
    {
      ClearPending();
      totalDropped, overflowNotified, enqueued, handedOut := 0, false, 0, 0;
    }
  }

  /** A queue with the configured limits, or none if one of them is below one. */
  method Configure(maxBytes: real, maxChunks: real) returns (queue: Option<SerialRxQueue>)
    ensures queue.None? <==> maxBytes < 1.0 || maxChunks < 1.0
    ensures queue.Some? ==>
              && fresh(queue.value) && queue.value.Valid() && queue.value.fed == [] && queue.value.enqueued == 0
              && queue.value.maxBytes as real <= maxBytes < queue.value.maxBytes as real + 1.0
              && queue.value.maxChunks as real <= maxChunks < queue.value.maxChunks as real + 1.0
  {
    var bytesLimit, chunksLimit := PositiveInteger(maxBytes), PositiveInteger(maxChunks);
    if bytesLimit.None? || chunksLimit.None? { return None; }
    var q := new SerialRxQueue(bytesLimit.value, chunksLimit.value);
    return Some(q);
  }

  lemma NewestCounts(live: seq<seq<byte>>, fed: seq<byte>, dropped: nat)
    requires Newest(live, fed, dropped)
    ensures dropped + |Flatten(live)| == |fed|
    ensures live == [] ==> Flatten(live) == []
  {
  }

  lemma FirstDropped(live: seq<seq<byte>>, fed: seq<byte>, dropped: nat)
    requires Newest(live, fed, dropped) && live != []
    ensures Newest(live[1..], fed, dropped + |live[0]|)
    ensures |Flatten(live)| == |live[0]| + |Flatten(live[1..])|
  {
    assert fed[dropped..][|live[0]|..] == fed[dropped + |live[0]|..];
  }
}
