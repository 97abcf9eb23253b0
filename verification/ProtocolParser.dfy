/** The streaming frame parser: a growable window buffer fed with arbitrarily chunked bytes. */
module ProtocolParsing {
  import opened Bytes
  import opened Framing
  import StreamPieces
  import opened Wrappers

  const BUFFER_COMPACT_THRESHOLD: nat := 64 * 1024

  // ----- configuration

  datatype ParserConfig =
    | DelimiterConfig(delimiter: seq<int>, includeDelimiter: bool)
    | LengthConfig(lengthOffset: int, lengthSize: int, bigEndian: bool, lengthAdjust: int)
    | FixedConfig(frameSize: int)
    | SmpConfig

  /** The optional pending limit: left out, infinite or not a number, or any finite number. */
  datatype RequestedLimit = Unspecified | NotFinite | Finite(value: real)

  datatype Result<T> = Ok(value: T) | RangeError

  predicate IsByte(n: int) {
    0 <= n < 256
  }

  predicate AllBytes(ns: seq<int>) {
    forall i | 0 <= i < |ns| :: IsByte(ns[i])
  }

  function ToBytes(ns: seq<int>): (bytes: seq<byte>)
    requires AllBytes(ns)
    ensures |bytes| == |ns| && forall i | 0 <= i < |ns| :: bytes[i] == ns[i]
  {
    seq(|ns|, i requires 0 <= i < |ns| => assert IsByte(ns[i]); ns[i])
  }

  function NormalizedLimit(requested: RequestedLimit): int {
    match requested
    case Finite(value) => Max(1, value.Floor)
    case _ => MAX_PENDING_BYTES
  }

  /** Checks a configuration and fixes the pending limit of delimiter mode. */
  function Configure(config: ParserConfig, requested: RequestedLimit): (r: Result<Rule>)
    ensures r.Ok? ==> ValidRule(r.value)
    ensures config.SmpConfig? ==> r.RangeError?
    ensures config.FixedConfig? ==> (r.Ok? <==> 1 <= config.frameSize <= 65_535)
    ensures config.LengthConfig? ==>
              (r.Ok? <==> && (config.lengthSize == 1 || config.lengthSize == 2 || config.lengthSize == 4)
                          && 0 <= config.lengthOffset && config.lengthOffset + config.lengthSize <= 0x10_0000
                          && 0 <= config.lengthAdjust <= 0x10_0000)
    ensures config.DelimiterConfig? ==> (r.Ok? <==> 1 <= |config.delimiter| <= 256 && AllBytes(config.delimiter))
    // A limit never exceeds one MiB and never makes the delimiter itself unrecognizable.
    ensures r.Ok? && r.value.Delimited? && requested.Finite? ==>
              && (requested.value < |r.value.delimiter| as real ==> r.value.limit == |r.value.delimiter|)
              && (requested.value >= 0x10_0000 as real ==> r.value.limit == 0x10_0000)
              && (|r.value.delimiter| as real <= requested.value < 0x10_0000 as real ==>
                    r.value.limit as real <= requested.value < (r.value.limit + 1) as real)
  {
    match config
    case SmpConfig => RangeError
    case FixedConfig(n) => if 1 <= n <= MAX_FIXED_FRAME_BYTES then Ok(Fixed(n)) else RangeError
    case DelimiterConfig(d, keep) =>
      if 1 <= |d| <= MAX_DELIMITER_BYTES && AllBytes(d) then
        Ok(Delimited(ToBytes(d), keep, Min(MAX_PENDING_BYTES, Max(NormalizedLimit(requested), |d|))))
      else RangeError
    case LengthConfig(offset, size, bigEndian, adjust) =>
      if size !in {1, 2, 4} then RangeError
      else if !(0 <= offset <= MAX_LENGTH_FRAME_BYTES - size) then RangeError
      else if !(0 <= adjust <= MAX_LENGTH_FRAME_BYTES) then RangeError
      else Ok(LengthPrefixed(offset, size, bigEndian, adjust))
  }

  // ----- delimiter search

  /** First index of `needle` in `haystack` at or after `from`: compares both ends before the middle. */
  method IndexOfArrayLike(haystack: seq<byte>, needle: seq<byte>, from: int) returns (r: int)
    ensures needle == [] ==> r == 0
    ensures needle != [] ==> r == FirstMatch(haystack, needle, Max(0, from))
  {
    if |needle| == 0 { return 0; }
    if |needle| > |haystack| { return -1; }
    var last := |haystack| - |needle|;
    var first, final := needle[0], needle[|needle| - 1];
    var i := Max(0, from);
    while i <= last
      invariant Max(0, from) <= i
      invariant FirstMatch(haystack, needle, Max(0, from)) == FirstMatch(haystack, needle, i)
    {
      var part := haystack[i..i + |needle|];
      if haystack[i] == first && haystack[i + |needle| - 1] == final {
        var match_ := true;
        var j := 1;
        while j < |needle| - 1
          invariant 1 <= j && (|needle| > 1 ==> j <= |needle| - 1)
          invariant match_ ==> forall k | 0 <= k < j && k < |needle| :: part[k] == needle[k]
          invariant !match_ ==> part != needle
        {
          if haystack[i + j] != needle[j] {
            assert part[j] != needle[j];
            match_ := false;
            break;
          }
          assert part[j] == needle[j];
          j := j + 1;
        }
        if match_ {
          assert part == needle;
          return i;
        }
      } else {
        assert part[0] != needle[0] || part[|needle| - 1] != needle[|needle| - 1];
      }
      i := i + 1;
    }
    return -1;
  }

  /** A search may start late if nothing occurs earlier. */
  lemma {:induction false} LateStart(haystack: seq<byte>, needle: seq<byte>, from: nat)
    requires forall i | 0 <= i < from :: !MatchAt(haystack, needle, i)
    ensures FirstMatch(haystack, needle, from) == FirstMatch(haystack, needle, 0)
  {
    var late, early := FirstMatch(haystack, needle, from), FirstMatch(haystack, needle, 0);
    assert early >= 0 ==> MatchAt(haystack, needle, early);
    assert late >= 0 ==> MatchAt(haystack, needle, late);
  }

  // ----- the parser

  class ProtocolParser {
    /** Backing capacity: only bytes in [start, end) are stream data. */
    var buffer: array<byte>
    var start: nat
    var end: nat
    /** Absolute stream offset of buffer[start]. */
    var absoluteStartOffset: nat
    /** First absolute stream offset the delimiter search still has to inspect. */
    var delimiterSearchOffset: nat
    var discardedBytes: nat
    var overflowEvents: nat
    var resyncEvents: nat
    const config: Rule

    /** Everything fed since construction or reset. */
    ghost var fed: seq<byte>

    ghost predicate Window()
      reads `start, `end, `buffer, `absoluteStartOffset, `delimiterSearchOffset, buffer
    {
      && start <= end <= buffer.Length
      && ValidRule(config) && !config.RawSmp?
      && (config.Delimited? ==> SearchedClean())
    }

    ghost function View(): seq<byte>
      requires start <= end <= buffer.Length
      reads `start, `end, `buffer, buffer
    {
      buffer[start..end]
    }

    /** The search offset never passes a match, nor the place where one might still be completed. */
    ghost predicate SearchedClean()
      requires start <= end <= buffer.Length && config.Delimited?
      reads `start, `end, `buffer, `absoluteStartOffset, `delimiterSearchOffset, buffer
    {
      && delimiterSearchOffset - absoluteStartOffset <= Max(0, |View()| - |config.delimiter| + 1)
      && forall i | 0 <= i < delimiterSearchOffset - absoluteStartOffset :: !MatchAt(View(), config.delimiter, i)
    }

    /** The parser has done exactly what one scan of the whole stream does. */
    ghost predicate Valid()
      reads this, buffer
    {
      && Window()
      && var o := Scan(config, fed, 0);
         && View() == o.rest
         && absoluteStartOffset == |fed| - |o.rest|
         && discardedBytes == DroppedBytes(o.pieces)
         && resyncEvents == Drops(o.pieces)
         && overflowEvents == (if config.Delimited? then Drops(o.pieces) else 0)
    }

    constructor (rule: Rule)
      requires ValidRule(rule) && !rule.RawSmp?
      ensures Valid() && config == rule && fed == [] && fresh(buffer)
    {
      config := rule;
      buffer := new byte[0];
      start, end, absoluteStartOffset, delimiterSearchOffset := 0, 0, 0, 0;
      discardedBytes, overflowEvents, resyncEvents := 0, 0, 0;
      fed := [];
      new;
      EmptyScan(config);
    }

    method Reset()
      requires Valid()
      modifies this
      ensures Valid() && fed == [] && fresh(buffer)
    {
      buffer := new byte[0];
      start, end, absoluteStartOffset, delimiterSearchOffset := 0, 0, 0, 0;
      discardedBytes, overflowEvents, resyncEvents := 0, 0, 0;
      fed := [];
      EmptyScan(config);
    }

    /** Bytes held in the partial buffer. */
    function Pending(): (n: nat)
      requires Valid()
      reads this, buffer
      ensures n == |View()| && n < PendingBound(config)
    {
      ScanRest(config, fed, 0);
      WaitIsShort(config, View());
      end - start
    }

    /** Appends bytes and returns the frames that became complete. */
    method Feed(input: seq<byte>) returns (frames: seq<ParsedFrame>)
      requires Valid()
      modifies this, buffer
      ensures Valid() && fed == old(fed) + input
      ensures buffer == old(buffer) || fresh(buffer)
      ensures Frames(Scan(config, fed, 0).pieces) == old(Frames(Scan(config, fed, 0).pieces)) + frames
    {
      hide Scan, Decide, Frames, MatchAt, Drops, DroppedBytes;
      if |input| == 0 {
        assert fed + input == fed;
        return [];
      }
      if config.Delimited? {
        frames := [];
        var inputOffset := 0;
        while inputOffset < |input|
          invariant 0 <= inputOffset <= |input|
          invariant Valid() && fed == old(fed) + input[..inputOffset]
          invariant buffer == old(buffer) || fresh(buffer)
          invariant Frames(Scan(config, fed, 0).pieces) == old(Frames(Scan(config, fed, 0).pieces)) + frames
        {
          var room := config.limit - Pending();
          var take := Min(|input| - inputOffset, Max(1, room + 1));
          var slice := input[inputOffset..inputOffset + take];
          assert input[..inputOffset + take] == input[..inputOffset] + slice;
          var emitted := FeedSlice(slice);
          inputOffset := inputOffset + take;
          frames := frames + emitted;
        }
        assert input[..inputOffset] == input;
        return;
      }
      frames := FeedSlice(input);
    }

    /** One round of append, drain, limit and compaction. */
    method FeedSlice(slice: seq<byte>) returns (frames: seq<ParsedFrame>)
      requires Valid()
      requires config.Delimited? ==> |View()| + |slice| <= config.limit + 1
      modifies this, buffer
      ensures Valid() && fed == old(fed) + slice
      ensures buffer == old(buffer) || fresh(buffer)
      ensures Frames(Scan(config, fed, 0).pieces) == old(Frames(Scan(config, fed, 0).pieces)) + frames
    {
      hide Scan, Decide, Frames, Drops, DroppedBytes, MatchAt, SearchedClean;
      Append(slice);
      frames := TakeFrames();
      Instalment(config, fed, slice);
      fed := fed + slice;
    }

    /** Scans the window to the end: frames, losses, and the rest that stays. */
    method TakeFrames() returns (frames: seq<ParsedFrame>)
      requires Window() && (config.Delimited? ==> |View()| <= config.limit + 1)
      modifies this, buffer
      ensures Window() && Kept(old(buffer), old(fed))
      ensures var o := old(Scan(config, View(), absoluteStartOffset));
              && frames == Frames(o.pieces) && View() == o.rest
              && absoluteStartOffset + |o.rest| == old(absoluteStartOffset + |View()|)
              && discardedBytes == old(discardedBytes) + DroppedBytes(o.pieces)
              && resyncEvents == old(resyncEvents) + Drops(o.pieces)
              && overflowEvents == old(overflowEvents) + (if config.Delimited? then Drops(o.pieces) else 0)
    {
      hide Scan, Decide, Frames, Drops, DroppedBytes, MatchAt, SearchedClean, Settled;
      ghost var drained;
      frames, drained := Drain();
      ghost var dropped := EnforcePendingLimit();
      FramesAppend(drained, dropped);
      DropsAppend(drained, dropped);
      assert frames + [] == frames;
      CompactBuffer();
    }

    /** Takes frames off the window until no more progress is made. */
    method Drain() returns (frames: seq<ParsedFrame>, ghost pieces: seq<Piece>)
      requires Window() && (config.Delimited? ==> |View()| <= config.limit + 1)
      modifies this
      ensures Window() && Kept(old(buffer), old(fed)) && Settled()
      ensures absoluteStartOffset + |View()| == old(absoluteStartOffset + |View()|) && |View()| <= old(|View()|)
      ensures var tail := Scan(config, View(), absoluteStartOffset);
              old(Scan(config, View(), absoluteStartOffset)) == Outcome(pieces + tail.pieces, tail.rest)
      ensures frames == Frames(pieces)
      ensures overflowEvents == old(overflowEvents) && resyncEvents == old(resyncEvents) + Drops(pieces)
      ensures discardedBytes == old(discardedBytes) + DroppedBytes(pieces)
      ensures config.Delimited? ==> Drops(pieces) == DroppedBytes(pieces) == 0
    {
      hide Scan, Decide, Frames, Drops, DroppedBytes, MatchAt;
      NoPieces();
      frames, pieces := [], [];
      while true
        invariant Window() && Kept(old(buffer), old(fed))
        invariant absoluteStartOffset + |View()| == old(absoluteStartOffset + |View()|) && |View()| <= old(|View()|)
        invariant var tail := Scan(config, View(), absoluteStartOffset);
                  old(Scan(config, View(), absoluteStartOffset)) == Outcome(pieces + tail.pieces, tail.rest)
        invariant frames == Frames(pieces)
        invariant overflowEvents == old(overflowEvents) && resyncEvents == old(resyncEvents) + Drops(pieces)
        invariant discardedBytes == old(discardedBytes) + DroppedBytes(pieces)
        invariant config.Delimited? ==> Drops(pieces) == DroppedBytes(pieces) == 0
        decreases |View()|
      {
        var startBefore := start;
        ghost var view, at := View(), absoluteStartOffset;
        var frame := ExtractOne();
        if frame.Some? { frames := frames + [frame.value]; }
        if start == startBefore { break; }
        pieces := DrainStep(config, view, at, pieces);
      }
    }

    /** Nothing more can be extracted: the decoder waits, or delimiter mode has overflowed. */
    ghost predicate Settled()
      requires Window()
      reads `start, `end, `buffer, `absoluteStartOffset, `delimiterSearchOffset, buffer
    {
      var move := Decide(config, View());
      move.Wait? || (move.Skip? && config.Delimited?)
    }

    ghost predicate Kept(buffer: array<byte>, fed: seq<byte>)
      reads `buffer, `fed
    {
      this.buffer == buffer && this.fed == fed
    }

    /** The decided move has been made: a frame, one resynchronizing step, or nothing yet. */
    twostate predicate Extracted(new frame: Option<ParsedFrame>)
      requires old(Window())
      reads this
    {
      var move := old(Decide(config, View()));
      var size := if move.Emit? || (move.Skip? && !config.Delimited?) then move.size else 0;
      && Kept(old(buffer), old(fed))
      && start == old(start) + size && end == old(end)
      && absoluteStartOffset == old(absoluteStartOffset) + size
      && frame == (if move.Emit? then Some(ParsedFrame(old(View())[..move.length], old(absoluteStartOffset))) else None)
      && var dropped := if move.Skip? then size else 0;
         && discardedBytes == old(discardedBytes) + dropped
         && resyncEvents == old(resyncEvents) + (if dropped > 0 then 1 else 0)
         && overflowEvents == old(overflowEvents)
    }

    method ExtractOne() returns (frame: Option<ParsedFrame>)
      requires Window() && (config.Delimited? ==> |View()| <= config.limit + 1)
      modifies this
      ensures Window() && Extracted(frame)
    {
      match config {
        case Fixed(size) =>
          if end - start < size { return None; }
          frame := Some(ParsedFrame(buffer[start..end][..size], absoluteStartOffset));
          Consume(size);
        case Delimited(_, _, _) =>
          frame := ExtractDelimited();
        case LengthPrefixed(_, _, _, _) =>
          frame := ExtractLengthPrefixed();
      }
    }

    method ExtractDelimited() returns (frame: Option<ParsedFrame>)
      requires Window() && config.Delimited? && |View()| <= config.limit + 1
      modifies this
      ensures Window() && Extracted(frame)
    {
      hide FirstMatch, MatchAt;
      var view, delim, frameOffset := buffer[start..end], config.delimiter, absoluteStartOffset;
      var relativeSearchFrom := Max(0, delimiterSearchOffset - absoluteStartOffset);
      var index := IndexOfArrayLike(view, delim, relativeSearchFrom);
      LateStart(view, delim, relativeSearchFrom);
      assert view[..Min(|view|, config.limit + 1)] == view;
      if index == -1 {
        // Only the suffix that could begin a delimiter is inspected again.
        delimiterSearchOffset := absoluteStartOffset + Max(0, |view| - |delim| + 1);
        return None;
      }
      var dataLength := if config.includeDelimiter then index + |delim| else index;
      if dataLength > config.limit { return None; }
      Consume(index + |delim|);
      delimiterSearchOffset := absoluteStartOffset;
      return Some(ParsedFrame(view[..dataLength], frameOffset));
    }

    method ExtractLengthPrefixed() returns (frame: Option<ParsedFrame>)
      requires Window() && config.LengthPrefixed?
      modifies this
      ensures Window() && Extracted(frame)
    {
      hide FieldValue;
      var view, frameOffset := buffer[start..end], absoluteStartOffset;
      var headerEnd := config.lengthOffset + config.lengthSize;
      if |view| < headerEnd { return None; }
      var lengthValue := ReadField(view, config.lengthOffset, config.lengthSize, config.bigEndian);
      var total := config.lengthAdjust + lengthValue;
      if total < headerEnd || total > MAX_LENGTH_FRAME_BYTES {
        Consume(1);
        discardedBytes, resyncEvents := discardedBytes + 1, resyncEvents + 1;
        return None;
      }
      if |view| < total { return None; }
      Consume(total);
      return Some(ParsedFrame(view[..total], frameOffset));
    }

    method Consume(count: nat)
      requires start + count <= end
      modifies `start, `absoluteStartOffset
      ensures start == old(start) + count && absoluteStartOffset == old(absoluteStartOffset) + count
    {
      start := start + count;
      absoluteStartOffset := absoluteStartOffset + count;
    }

    /** Overflow: no delimiter in a full window, so only a possible beginning of one is kept. */
    method EnforcePendingLimit() returns (ghost pieces: seq<Piece>)
      requires Window() && Settled() && (config.Delimited? ==> |View()| <= config.limit + 1)
      modifies this
      ensures Window() && Kept(old(buffer), old(fed))
      ensures absoluteStartOffset + |View()| == old(absoluteStartOffset + |View()|)
      ensures old(Scan(config, View(), absoluteStartOffset)) == Outcome(pieces, View())
      ensures Frames(pieces) == []
      ensures discardedBytes == old(discardedBytes) + DroppedBytes(pieces)
      ensures resyncEvents == old(resyncEvents) + Drops(pieces)
      ensures overflowEvents == old(overflowEvents) + (if config.Delimited? then Drops(pieces) else 0)
    {
      pieces := old(Scan(config, View(), absoluteStartOffset)).pieces;
      if !config.Delimited? || end - start <= config.limit { return; }
      ghost var view, at := View(), absoluteStartOffset;
      OverflowScan(config, view, at);
      var retain := |config.delimiter| - 1;
      var discard := end - start - retain;
      Consume(discard);
      discardedBytes, overflowEvents, resyncEvents := discardedBytes + discard, overflowEvents + 1, resyncEvents + 1;
      delimiterSearchOffset := Max(delimiterSearchOffset, absoluteStartOffset);
      assert View() == view[discard..];
    }

    method GrowInPlace(input: seq<byte>)
      requires start <= end && end + |input| <= buffer.Length
      modifies `end, buffer
      ensures end == old(end) + |input| && View() == old(View()) + input
    {
      ghost var view := View();
      CopyIn(buffer, end, input);
      assert buffer[start..end] == buffer[..end][start..];
      assert buffer[start..end + |input|] == buffer[start..end] + buffer[end..end + |input|];
      end := end + |input|;
    }

    /** Adds bytes behind the window, in place, after sliding it down, or in a larger buffer. */
    method Append(input: seq<byte>)
      requires Window()
      modifies this, buffer
      ensures Window() && fed == old(fed)
      ensures buffer == old(buffer) || fresh(buffer)
      ensures View() == old(View()) + input
      ensures unchanged(`absoluteStartOffset, `delimiterSearchOffset, `discardedBytes, `overflowEvents, `resyncEvents)
    {
      hide Decide, MatchAt;
      ghost var view := View();
      var live := end - start;
      var need := live + |input|;
      if buffer.Length - end >= |input| {
        GrowInPlace(input);
      } else if start > 0 && buffer.Length >= need {
        CopyWithin(buffer, start, end);
        start, end := 0, live;
        assert View() == view;
        GrowInPlace(input);
      } else {
        var grown := Grow(buffer.Length, buffer[start..end], input);
        buffer, start, end := grown, 0, need;
      }
      assert View() == view + input;
      if config.Delimited? {
        CleanExtends(view, input, config.delimiter, delimiterSearchOffset - absoluteStartOffset);
      }
    }

    /** Reclaims the dead prefix when the window is empty, the prefix is long, or at least as long as the window. */
    method CompactBuffer()
      requires Window()
      modifies this, buffer
      ensures Window() && Kept(old(buffer), old(fed)) && View() == old(View())
      ensures unchanged(`absoluteStartOffset, `discardedBytes, `overflowEvents, `resyncEvents)
      ensures start == 0 || (start < BUFFER_COMPACT_THRESHOLD && start < |View()|)
    {
      if start == 0 { return; }
      if start >= end {
        start, end := 0, 0;
        delimiterSearchOffset := absoluteStartOffset;
        return;
      }
      if start >= BUFFER_COMPACT_THRESHOLD || start >= end - start {
        ghost var view := View();
        CopyWithin(buffer, start, end);
        start, end := 0, end - start;
        assert View() == view;
      }
    }
  }

  /**
   * Chunking never matters: however a stream is cut into feeds, a fresh parser emits exactly the frames of one
   * scan of the stream and keeps exactly its rest, with the same loss counters.
   */
  method FeedAll(rule: Rule, chunks: seq<seq<byte>>) returns (frames: seq<ParsedFrame>, pending: seq<byte>, counters: (nat, nat, nat))
    requires ValidRule(rule) && !rule.RawSmp?
    ensures var o := Scan(rule, Flatten(chunks), 0);
            && frames == Frames(o.pieces) && pending == o.rest
            && StreamPieces.Reads(rule, o.pieces, pending, Flatten(chunks), 0)
            && counters == (DroppedBytes(o.pieces), if rule.Delimited? then Drops(o.pieces) else 0, Drops(o.pieces))
  {
    hide Scan, Decide, Frames, Drops, DroppedBytes, MatchAt, StreamPieces.Reads;
    StreamPieces.ScanReads(rule, Flatten(chunks), 0);
    var parser := new ProtocolParser(rule);
    frames := [];
    EmptyScan(rule);
    NoPieces();
    var i := 0;
    while i < |chunks|
      invariant 0 <= i <= |chunks|
      invariant parser.Valid() && parser.config == rule && parser.fed == Flatten(chunks[..i])
      invariant fresh(parser) && fresh(parser.buffer)
      invariant frames == Frames(Scan(rule, parser.fed, 0).pieces)
    {
      assert chunks[..i + 1] == chunks[..i] + [chunks[i]];
      FlattenAppend(chunks[..i], [chunks[i]]);
      assert Flatten([chunks[i]]) == chunks[i];
      var emitted := parser.Feed(chunks[i]);
      frames := frames + emitted;
      i := i + 1;
    }
    assert chunks[..i] == chunks;
    pending := parser.buffer[parser.start..parser.end];
    counters := (parser.discardedBytes, parser.overflowEvents, parser.resyncEvents);
  }

  /** A larger buffer, its capacity doubled as often as needed, that begins with the window and the input. */
  method Grow(capacityBefore: nat, window: seq<byte>, input: seq<byte>) returns (grown: array<byte>)
    ensures fresh(grown) && grown.Length >= Max(64, |window| + |input|) && grown[..|window| + |input|] == window + input
  {
    var need := |window| + |input|;
    var capacity := Max(64, capacityBefore);
    while capacity < need
      invariant capacity >= 64
      decreases need - capacity
    {
      capacity := capacity * 2;
    }
    grown := new byte[capacity];
    CopyIn(grown, 0, window);
    assert grown[..|window|] == grown[0..|window|];
    CopyIn(grown, |window|, input);
    assert grown[..need] == grown[..|window|] + grown[|window|..need];
  }

  /** Writes `input` at index `at`; everything before it stays. */
  method CopyIn(target: array<byte>, at: nat, input: seq<byte>)
    requires at + |input| <= target.Length
    modifies target
    ensures target[at..at + |input|] == input
    ensures target[..at] == old(target[..at])
  {
    forall i | 0 <= i < |input| { target[at + i] := input[i]; }
  }

  /** Slides [from, to) down to the front. */
  method CopyWithin(target: array<byte>, from: nat, to: nat)
    requires from <= to <= target.Length
    modifies target
    ensures target[..to - from] == old(target[from..to])
  {
    forall i | 0 <= i < to - from { target[i] := target[from + i]; }
  }

  /** The length field, most significant byte first in either byte order. */
  method ReadField(view: seq<byte>, offset: nat, size: nat, bigEndian: bool) returns (value: nat)
    requires offset + size <= |view|
    ensures value == FieldValue(view[offset..offset + size], bigEndian)
  {
    value := 0;
    ghost var field := view[offset..offset + size];
    if bigEndian {
      var i := 0;
      while i < size
        invariant 0 <= i <= size && value == FieldValue(field[..i], true)
      {
        assert field[..i + 1][..i] == field[..i];
        value := value * 256 + view[offset + i];
        i := i + 1;
      }
      assert field[..size] == field;
    } else {
      var i := size - 1;
      while i >= 0
        invariant -1 <= i < size && value == FieldValue(field[i + 1..], false)
      {
        assert field[i..][1..] == field[i + 1..];
        value := value * 256 + view[offset + i];
        i := i - 1;
      }
      assert field[0..] == field;
    }
  }

  lemma CleanExtends(view: seq<byte>, more: seq<byte>, needle: seq<byte>, searched: int)
    requires searched <= Max(0, |view| - |needle| + 1)
    requires forall i | 0 <= i < searched :: !MatchAt(view, needle, i)
    ensures forall i | 0 <= i < searched :: !MatchAt(view + more, needle, i)
  {
    forall i | 0 <= i < searched ensures !MatchAt(view + more, needle, i) {
      MatchAtExtends(view, more, needle, i);
    }
  }

  /** Draining one more move keeps the account of the pieces. */
  ghost method DrainStep(rule: Rule, view: seq<byte>, at: nat, pieces: seq<Piece>) returns (next: seq<Piece>)
    requires ValidRule(rule) && !Decide(rule, view).Wait?
    ensures var piece := Cut(Decide(rule, view), view, at);
            && next == pieces + [piece]
            && Frames(next) == Frames(pieces) + piece.Shown()
            && Drops(next) == Drops(pieces) + (if piece.Dropped? then 1 else 0)
            && DroppedBytes(next) == DroppedBytes(pieces) + (if piece.Dropped? then |piece.data| else 0)
            && var tail := Scan(rule, view[Decide(rule, view).size..], at + Decide(rule, view).size);
               Outcome(pieces + Scan(rule, view, at).pieces, Scan(rule, view, at).rest)
               == Outcome(next + tail.pieces, tail.rest)
  {
    hide Decide, Scan, Cut, Frames, Drops, DroppedBytes;
    ScanStep(rule, view, at);
    var piece := Cut(Decide(rule, view), view, at);
    next := pieces + [piece];
    OnePiece(piece);
    FramesAppend(pieces, [piece]);
    DropsAppend(pieces, [piece]);
    var tail := Scan(rule, view[Decide(rule, view).size..], at + Decide(rule, view).size);
    assert pieces + ([piece] + tail.pieces) == next + tail.pieces;
  }

  /** A full window without a usable delimiter drops all but a possible beginning of one. */
  lemma OverflowScan(rule: Rule, view: seq<byte>, at: nat)
    requires ValidRule(rule) && rule.Delimited? && |view| == rule.limit + 1 && Decide(rule, view).Skip?
    ensures var discard := |view| - (|rule.delimiter| - 1);
            Scan(rule, view, at) == Outcome([Dropped(at, view[..discard])], view[discard..])
  {
    hide MatchAt;
    var discard := |view| - (|rule.delimiter| - 1);
    var rest := view[discard..];
    assert rest[..Min(|rest|, rule.limit + 1)] == rest;
    assert Decide(rule, rest).Wait?;
    ScanStep(rule, rest, at + discard);
    ScanStep(rule, view, at);
  }

  lemma OnePiece(piece: Piece)
    ensures Frames([piece]) == piece.Shown() && Drops([piece]) == (if piece.Dropped? then 1 else 0)
    ensures DroppedBytes([piece]) == if piece.Dropped? then |piece.data| else 0
  {
    assert [piece][1..] == [];
  }

  lemma NoPieces()
    ensures Frames([]) == [] && Drops([]) == DroppedBytes([]) == 0
  {
  }

  /** The account of a stream after one more instalment. */
  lemma Instalment(rule: Rule, stream: seq<byte>, more: seq<byte>)
    requires ValidRule(rule)
    ensures var before, after := Scan(rule, stream, 0), Scan(rule, stream + more, 0);
            var o := Scan(rule, before.rest + more, |stream| - |before.rest|);
            && after.rest == o.rest
            && Frames(after.pieces) == Frames(before.pieces) + Frames(o.pieces)
            && Drops(after.pieces) == Drops(before.pieces) + Drops(o.pieces)
            && DroppedBytes(after.pieces) == DroppedBytes(before.pieces) + DroppedBytes(o.pieces)
  {
    hide Scan, Decide, Frames, Drops, DroppedBytes;
    ScanExtend(rule, stream, more, 0);
    var before := Scan(rule, stream, 0);
    var o := Scan(rule, before.rest + more, |stream| - |before.rest|);
    FramesAppend(before.pieces, o.pieces);
    DropsAppend(before.pieces, o.pieces);
  }

  lemma EmptyScan(rule: Rule)
    requires ValidRule(rule) && !rule.RawSmp?
    ensures Scan(rule, [], 0) == Outcome([], [])
  {
  }
}
