/**
 * What a stream decoder computes, stated on the whole stream at once.
 *
 * A decoder only ever looks at the unread front of its stream and makes one move:
 * wait for more bytes, emit a frame, or skip bytes that cannot start a frame.
 * `Scan` repeats that move over a complete stream, without any chunks, buffers or
 * saved search positions.  The stateful decoders are proved against it.
 */
module Framing {
  import opened Bytes

  const MAX_PENDING_BYTES: nat := 1024 * 1024
  const MAX_LENGTH_FRAME_BYTES: nat := MAX_PENDING_BYTES
  const MAX_FIXED_FRAME_BYTES: nat := 65_535
  const MAX_DELIMITER_BYTES: nat := 256
  const SMP_HEADER_BYTES: nat := 8

  datatype Rule =
    | Fixed(frameSize: nat)
    | Delimited(delimiter: seq<byte>, includeDelimiter: bool, limit: nat)
    | LengthPrefixed(lengthOffset: nat, lengthSize: nat, bigEndian: bool, lengthAdjust: nat)
    | RawSmp(maxPacketBytes: nat)

  predicate ValidRule(rule: Rule) {
    match rule
    case Fixed(n) => 1 <= n <= MAX_FIXED_FRAME_BYTES
    case Delimited(d, _, limit) => 1 <= |d| <= MAX_DELIMITER_BYTES && |d| <= limit <= MAX_PENDING_BYTES
    case LengthPrefixed(offset, size, _, adjust) =>
      size in {1, 2, 4} && offset + size <= MAX_LENGTH_FRAME_BYTES && adjust <= MAX_LENGTH_FRAME_BYTES
    case RawSmp(limit) => SMP_HEADER_BYTES <= limit
  }

  /** One move: a frame shows `length` of the `size` bytes it takes off the stream. */
  datatype Move = Wait | Emit(length: nat, size: nat) | Skip(size: nat)

  /** Index of the first occurrence of `needle` at or after `from`, or -1. */
  function FirstMatch(haystack: seq<byte>, needle: seq<byte>, from: nat): (r: int)
    ensures r == -1 || (from <= r <= |haystack| - |needle| && MatchAt(haystack, needle, r))
    ensures forall i :: from <= i && (r == -1 || i < r) ==> !MatchAt(haystack, needle, i)
    decreases |haystack| - from
  {
    if from + |needle| > |haystack| then -1
    else if MatchAt(haystack, needle, from) then from
    else FirstMatch(haystack, needle, from + 1)
  }

  /** The unsigned integer in `field`. */
  function FieldValue(field: seq<byte>, bigEndian: bool): (value: nat) {
    if field == [] then 0
    else if bigEndian then FieldValue(field[..|field| - 1], true) * 256 + field[|field| - 1]
    else FieldValue(field[1..], false) * 256 + field[0]
  }

  /** A byte string can begin an SMP message: no reserved bits, a known operation, a total length in bounds. */
  predicate PlausibleHeader(view: seq<byte>, maxPacketBytes: nat) {
    |view| >= SMP_HEADER_BYTES
    && view[0] / 32 == 0 && view[0] % 8 <= 3
    && SMP_HEADER_BYTES + ReadU16(view, 2) <= maxPacketBytes
  }

  /** The move a decoder makes when `view` is everything it has not read yet. */
  function Decide(rule: Rule, view: seq<byte>): (move: Move)
    requires ValidRule(rule)
    ensures move.Emit? ==> 1 <= move.size <= |view| && move.length <= move.size
    ensures move.Skip? ==> 1 <= move.size <= |view|
  {
    match rule
    case Fixed(n) => if |view| < n then Wait else Emit(n, n)
    case Delimited(d, keep, limit) =>
      // Only `limit + 1` bytes are ever inspected, so a later delimiter cannot make an oversized frame.
      var window := view[..Min(|view|, limit + 1)];
      var m := FirstMatch(window, d, 0);
      if m >= 0 && (if keep then m + |d| else m) <= limit then
        Emit(if keep then m + |d| else m, m + |d|)
      else if |window| > limit then Skip(limit + 1 - (|d| - 1))
      else Wait
    case LengthPrefixed(offset, size, bigEndian, adjust) =>
      if |view| < offset + size then Wait
      else
        var total := adjust + FieldValue(view[offset..offset + size], bigEndian);
        if total < offset + size || total > MAX_LENGTH_FRAME_BYTES then Skip(1)
        else if |view| < total then Wait
        else Emit(total, total)
    case RawSmp(limit) =>
      if |view| < SMP_HEADER_BYTES then Wait
      else if !PlausibleHeader(view, limit) then Skip(1)
      else
        var total := SMP_HEADER_BYTES + ReadU16(view, 2);
        if |view| < total then Wait else Emit(total, total)
  }

  /** A stretch of the stream that has been dealt with, at its absolute offset. */
  datatype ParsedFrame = ParsedFrame(data: seq<byte>, offset: nat)

  datatype Piece =
    | Frame(offset: nat, data: seq<byte>, trailer: seq<byte>)
    | Dropped(offset: nat, data: seq<byte>)
  {
    /** Every stream byte the piece accounts for. */
    function Raw(): seq<byte> {
      if Frame? then data + trailer else data
    }

    /** What the caller of a decoder sees of it. */
    function Shown(): seq<ParsedFrame> {
      if Frame? then [ParsedFrame(data, offset)] else []
    }
  }

  datatype Outcome = Outcome(pieces: seq<Piece>, rest: seq<byte>) {
    function After(piece: Piece): Outcome {
      Outcome([piece] + pieces, rest)
    }
  }

  function Cut(move: Move, view: seq<byte>, at: nat): (piece: Piece)
    requires move.Emit? ==> 1 <= move.size <= |view| && move.length <= move.size
    requires move.Skip? ==> 1 <= move.size <= |view|
    requires !move.Wait?
    ensures piece.Raw() == view[..move.size] && piece.offset == at
    ensures piece.Frame? == move.Emit?
    ensures piece.Frame? ==> piece.data == view[..move.length]
  {
    if move.Emit? then
      assert view[..move.length] + view[move.length..move.size] == view[..move.size];
      Frame(at, view[..move.length], view[move.length..move.size])
    else Dropped(at, view[..move.size])
  }

  /** The whole stream, move by move.  `at` is the absolute offset of its first byte. */
  function Scan(rule: Rule, stream: seq<byte>, at: nat): (o: Outcome)
    requires ValidRule(rule)
    ensures |o.rest| <= |stream|
    decreases |stream|
  {
    var move := Decide(rule, stream);
    if move.Wait? then Outcome([], stream)
    else
      Scan(rule, stream[move.size..], at + move.size).After(Cut(move, stream, at))
  }

  /** Carry on a scan that stopped at absolute offset `at` with `o`, once `more` bytes have arrived. */
  function Resume(rule: Rule, o: Outcome, more: seq<byte>, at: nat): Outcome
    requires ValidRule(rule) && |o.rest| <= at
  {
    var second := Scan(rule, o.rest + more, at - |o.rest|);
    Outcome(o.pieces + second.pieces, second.rest)
  }

  // ----- what callers see of the pieces

  function Frames(pieces: seq<Piece>): seq<ParsedFrame> {
    if pieces == [] then []
    else pieces[0].Shown() + Frames(pieces[1..])
  }

  function DroppedBytes(pieces: seq<Piece>): nat {
    if pieces == [] then 0
    else (if pieces[0].Dropped? then |pieces[0].data| else 0) + DroppedBytes(pieces[1..])
  }

  function Drops(pieces: seq<Piece>): nat {
    if pieces == [] then 0 else (if pieces[0].Dropped? then 1 else 0) + Drops(pieces[1..])
  }

  function RawBytes(pieces: seq<Piece>): seq<byte> {
    if pieces == [] then [] else pieces[0].Raw() + RawBytes(pieces[1..])
  }

  lemma {:induction false} FramesAppend(a: seq<Piece>, b: seq<Piece>)
    ensures Frames(a + b) == Frames(a) + Frames(b)
  {
    if a == [] {
      assert a + b == b;
    } else {
      assert (a + b)[1..] == a[1..] + b;
      FramesAppend(a[1..], b);
      var head := a[0].Shown();
      assert head + (Frames(a[1..]) + Frames(b)) == (head + Frames(a[1..])) + Frames(b);
    }
  }

  lemma {:induction false} DropsAppend(a: seq<Piece>, b: seq<Piece>)
    ensures Drops(a + b) == Drops(a) + Drops(b)
    ensures DroppedBytes(a + b) == DroppedBytes(a) + DroppedBytes(b)
  {
    if a == [] {
      assert a + b == b;
    } else {
      assert (a + b)[1..] == a[1..] + b;
      DropsAppend(a[1..], b);
    }
  }

  // ----- moves are stable, so a stream can be scanned in any number of instalments

  lemma {:induction false} FirstMatchExtends(haystack: seq<byte>, more: seq<byte>, needle: seq<byte>, from: nat)
    requires FirstMatch(haystack, needle, from) >= 0
    ensures FirstMatch(haystack + more, needle, from) == FirstMatch(haystack, needle, from)
    decreases |haystack| - from
  {
    MatchAtExtends(haystack, more, needle, from);
    if !MatchAt(haystack, needle, from) {
      FirstMatchExtends(haystack, more, needle, from + 1);
    }
  }

  lemma WindowExtends(view: seq<byte>, more: seq<byte>, needle: seq<byte>, bound: nat)
    requires FirstMatch(view[..Min(|view|, bound)], needle, 0) >= 0 || |view| >= bound
    ensures var all := view + more;
            && FirstMatch(all[..Min(|all|, bound)], needle, 0) == FirstMatch(view[..Min(|view|, bound)], needle, 0)
            && (|view| >= bound ==> all[..bound] == view[..bound])
  {
    hide FirstMatch;
    var all := view + more;
    var window, wider := view[..Min(|view|, bound)], all[..Min(|all|, bound)];
    if |view| >= bound {
      assert wider == window;
    } else {
      var extra := more[..|wider| - |view|];
      assert window == view;
      assert wider == window + extra;
      FirstMatchExtends(window, extra, needle, 0);
    }
  }

  /** More input never changes a move that has already been decided. */
  lemma DecideStable(rule: Rule, view: seq<byte>, more: seq<byte>)
    requires ValidRule(rule) && !Decide(rule, view).Wait?
    ensures Decide(rule, view + more) == Decide(rule, view)
  {
    hide FirstMatch, FieldValue;
    var all := view + more;
    match rule
    case Fixed(_) =>
    case Delimited(d, _, limit) =>
      WindowExtends(view, more, d, limit + 1);
    case LengthPrefixed(offset, size, _, _) =>
      assert all[offset..offset + size] == view[offset..offset + size];
    case RawSmp(_) =>
  }

  lemma CutExtends(move: Move, view: seq<byte>, more: seq<byte>, at: nat)
    requires !move.Wait? && 1 <= move.size <= |view| && (move.Emit? ==> move.length <= move.size)
    ensures Cut(move, view + more, at) == Cut(move, view, at)
  {
    assert (view + more)[..move.size] == view[..move.size];
    if move.Emit? {
      assert (view + more)[..move.length] == view[..move.length];
      assert (view + more)[move.length..move.size] == view[move.length..move.size];
    }
  }

  /** One unfolding of Scan. */
  lemma ScanStep(rule: Rule, stream: seq<byte>, at: nat)
    requires ValidRule(rule)
    ensures var move := Decide(rule, stream);
            Scan(rule, stream, at) ==
            if move.Wait? then Outcome([], stream)
            else Scan(rule, stream[move.size..], at + move.size).After(Cut(move, stream, at))
  {
  }

  /** Scanning can stop after any prefix and go on from the rest. */
  lemma {:induction false} ScanExtend(rule: Rule, stream: seq<byte>, more: seq<byte>, at: nat)
    requires ValidRule(rule)
    ensures Scan(rule, stream + more, at) == Resume(rule, Scan(rule, stream, at), more, at + |stream|)
    decreases |stream|
  {
    hide Decide, Cut, Scan;
    var move := Decide(rule, stream);
    ScanStep(rule, stream, at);
    if !move.Wait? {
      DecideStable(rule, stream, more);
      CutExtends(move, stream, more, at);
      var tail := stream[move.size..];
      assert (stream + more)[move.size..] == tail + more;
      ScanExtend(rule, tail, more, at + move.size);
      ScanStep(rule, stream + more, at);
      var later, head := Scan(rule, tail, at + move.size), Cut(move, stream, at);
      var second := Scan(rule, later.rest + more, at + |stream| - |later.rest|);
      assert [head] + (later.pieces + second.pieces) == ([head] + later.pieces) + second.pieces;
    }
  }

  /** What is left over is exactly what the decoder still waits on, and it is short. */
  lemma {:induction false} ScanRest(rule: Rule, stream: seq<byte>, at: nat)
    requires ValidRule(rule)
    ensures var rest := Scan(rule, stream, at).rest;
            Decide(rule, rest).Wait? && |rest| <= |stream| && rest == stream[|stream| - |rest|..]
    decreases |stream|
  {
    hide Decide, PlausibleHeader, FirstMatch, FieldValue;
    var move := Decide(rule, stream);
    if !move.Wait? {
      ScanRest(rule, stream[move.size..], at + move.size);
    }
  }

  // ----- meaning of a scan

  /** The number of unread bytes stays below this bound. */
  function PendingBound(rule: Rule): nat {
    match rule
    case Fixed(n) => n
    case Delimited(_, _, limit) => limit + 1
    case LengthPrefixed(_, _, _, _) => MAX_LENGTH_FRAME_BYTES
    case RawSmp(limit) => limit
  }

  lemma WaitIsShort(rule: Rule, view: seq<byte>)
    requires ValidRule(rule) && Decide(rule, view).Wait?
    ensures |view| < PendingBound(rule)
  {
  }

  /** No frame shows more bytes than this. */
  function FrameBound(rule: Rule): nat {
    match rule
    case Fixed(n) => n
    case Delimited(_, _, limit) => limit
    case LengthPrefixed(_, _, _, _) => MAX_LENGTH_FRAME_BYTES
    case RawSmp(limit) => limit
  }

  lemma DecideBounded(rule: Rule, view: seq<byte>)
    requires ValidRule(rule) && Decide(rule, view).Emit?
    ensures Decide(rule, view).length <= FrameBound(rule)
  {
  }

  /** The piece sits in the stream where its offset says, before the unread rest, and is not oversized. */
  predicate Placed(rule: Rule, p: Piece, stream: seq<byte>, unread: nat, at: nat) {
    && |p.Raw()| > 0 && at <= p.offset && p.offset - at + |p.Raw()| <= |stream| - unread
    && stream[p.offset - at..p.offset - at + |p.Raw()|] == p.Raw()
    && (p.Frame? ==> |p.data| <= FrameBound(rule))
  }

  lemma PlacedShifts(rule: Rule, p: Piece, stream: seq<byte>, cut: nat, unread: nat, at: nat)
    requires cut <= |stream| && Placed(rule, p, stream[cut..], unread, at + cut)
    ensures Placed(rule, p, stream, unread, at)
  {
    var from := p.offset - at;
    assert stream[cut..][from - cut..from - cut + |p.Raw()|] == stream[from..from + |p.Raw()|];
  }

  lemma FirstPlaced(rule: Rule, stream: seq<byte>, unread: nat, at: nat)
    requires ValidRule(rule) && !Decide(rule, stream).Wait?
    requires unread <= |stream| - Decide(rule, stream).size
    ensures Placed(rule, Cut(Decide(rule, stream), stream, at), stream, unread, at)
  {
    hide Decide, Cut, FrameBound, ValidRule;
    var move := Decide(rule, stream);
    if move.Emit? {
      DecideBounded(rule, stream);
    }
    PlacedInFront(rule, Cut(move, stream, at), stream, move.size, unread, at);
  }

  lemma PlacedInFront(rule: Rule, p: Piece, stream: seq<byte>, size: nat, unread: nat, at: nat)
    requires 1 <= size <= |stream| - unread && p.Raw() == stream[..size] && p.offset == at
    requires p.Frame? ==> |p.data| <= FrameBound(rule)
    ensures Placed(rule, p, stream, unread, at)
  {
    hide FrameBound;
    assert stream[0..size] == stream[..size];
  }

  lemma AllPlaced(rule: Rule, stream: seq<byte>, at: nat, later: seq<Piece>, unread: nat)
    requires ValidRule(rule) && !Decide(rule, stream).Wait? && unread <= |stream| - Decide(rule, stream).size
    requires forall p | p in later :: Placed(rule, p, stream[Decide(rule, stream).size..], unread, at + Decide(rule, stream).size)
    ensures forall p | p in [Cut(Decide(rule, stream), stream, at)] + later :: Placed(rule, p, stream, unread, at)
  {
    hide Decide, Cut, Placed;
    forall p | p in [Cut(Decide(rule, stream), stream, at)] + later ensures Placed(rule, p, stream, unread, at) {
      if p in later {
        PlacedShifts(rule, p, stream, Decide(rule, stream).size, unread, at);
      } else {
        FirstPlaced(rule, stream, unread, at);
      }
    }
  }

  lemma RawBytesOfMore(first: Piece, later: seq<Piece>)
    ensures RawBytes([first] + later) == first.Raw() + RawBytes(later)
  {
    assert ([first] + later)[1..] == later;
  }

  /**
   * Every stream byte is in exactly one frame, consumed delimiter, dropped stretch or the rest:
   * the pieces and the rest, in order, are the stream, and each piece sits at its offset.
   */
  lemma {:induction false} ScanConserves(rule: Rule, stream: seq<byte>, at: nat)
    requires ValidRule(rule)
    ensures var o := Scan(rule, stream, at);
            && RawBytes(o.pieces) + o.rest == stream
            && forall p | p in o.pieces :: Placed(rule, p, stream, |o.rest|, at)
    decreases |stream|
  {
    hide Decide, Cut, Scan, RawBytes, Placed;
    ScanStep(rule, stream, at);
    var move := Decide(rule, stream);
    if move.Wait? {
      NoRawBytes();
    } else {
      var tail := stream[move.size..];
      ScanConserves(rule, tail, at + move.size);
      var later, first := Scan(rule, tail, at + move.size), Cut(move, stream, at);
      RawBytesOfMore(first, later.pieces);
      assert first.Raw() + RawBytes(later.pieces) + later.rest == first.Raw() + (RawBytes(later.pieces) + later.rest);
      assert stream == stream[..move.size] + tail;
      AllPlaced(rule, stream, at, later.pieces, |later.rest|);
    }
  }

  lemma NoRawBytes()
    ensures RawBytes([]) == []
  {
  }

  /** Pieces come in stream order without gaps or overlaps. */
  lemma {:induction false} ScanOrdered(rule: Rule, stream: seq<byte>, at: nat, i: nat)
    requires ValidRule(rule) && i < |Scan(rule, stream, at).pieces|
    ensures var ps := Scan(rule, stream, at).pieces;
            ps[i].offset == (if i == 0 then at else ps[i - 1].offset + |ps[i - 1].Raw()|)
    decreases |stream|
  {
    hide Decide, Cut, Scan, ValidRule;
    ScanStep(rule, stream, at);
    var move := Decide(rule, stream);
    var later, first := Scan(rule, stream[move.size..], at + move.size), Cut(move, stream, at);
    assert Scan(rule, stream, at).pieces == [first] + later.pieces && |first.Raw()| == move.size;
    if i == 1 {
      ScanOrdered(rule, stream[move.size..], at + move.size, 0);
    } else if i > 1 {
      ScanOrdered(rule, stream[move.size..], at + move.size, i - 1);
      assert ([first] + later.pieces)[i - 1] == later.pieces[i - 2];
    }
  }

  // ----- round trips: streams of well-formed units decode to exactly those units

  /** A unit the decoder takes off the stream whole, showing its first `shown` bytes. */
  predicate Decodes(rule: Rule, part: seq<byte>, shown: nat)
    requires ValidRule(rule)
  {
    Decide(rule, part) == Emit(shown, |part|)
  }

  /** Frames in, the same frames out: for any units that decode on their own, and any tail it waits on. */
  lemma {:induction false} RoundTrip(rule: Rule, units: seq<seq<byte>>, shown: seq<nat>, tail: seq<byte>, at: nat)
    requires ValidRule(rule) && |shown| == |units| && Decide(rule, tail).Wait?
    requires forall i | 0 <= i < |units| :: shown[i] <= |units[i]| && Decodes(rule, units[i], shown[i])
    ensures var o := Scan(rule, Flatten(units) + tail, at);
            && o.rest == tail && Drops(o.pieces) == 0
            && |Frames(o.pieces)| == |units|
            && forall i | 0 <= i < |units| :: Frames(o.pieces)[i].data == units[i][..shown[i]]
  {
    hide Decide, Scan, Decodes, Frames, Drops;
    if units == [] {
      assert Flatten(units) + tail == tail;
      ScanStep(rule, tail, at);
      NothingShown();
    } else {
      var more := Flatten(units[1..]) + tail;
      assert Flatten(units) + tail == units[0] + more;
      UnitScans(rule, units[0], shown[0], more, at);
      RoundTrip(rule, units[1..], shown[1..], tail, at + |units[0]|);
      var all, later := Frames(Scan(rule, units[0] + more, at).pieces), Frames(Scan(rule, more, at + |units[0]|).pieces);
      forall i | 0 <= i < |units| ensures all[i].data == units[i][..shown[i]] {
        if i > 0 {
          assert all[i] == later[i - 1];
        }
      }
    }
  }

  lemma NothingShown()
    ensures Frames([]) == [] && Drops([]) == 0
  {
  }

  /** A unit in front of a stream is taken off it whole. */
  lemma UnitScans(rule: Rule, part: seq<byte>, shown: nat, more: seq<byte>, at: nat)
    requires ValidRule(rule) && shown <= |part| && Decodes(rule, part, shown)
    ensures var all, later := Scan(rule, part + more, at), Scan(rule, more, at + |part|);
            && all.rest == later.rest && Drops(all.pieces) == Drops(later.pieces)
            && Frames(all.pieces) == [ParsedFrame(part[..shown], at)] + Frames(later.pieces)
  {
    hide Decide, Scan;
    DecideStable(rule, part, more);
    ScanStep(rule, part + more, at);
    assert (part + more)[|part|..] == more && (part + more)[..shown] == part[..shown];
    var piece, later := Cut(Emit(shown, |part|), part + more, at), Scan(rule, more, at + |part|);
    assert ([piece] + later.pieces)[1..] == later.pieces;
  }

  /**
   * A delimiter-terminated message decodes exactly when the delimiter does not occur earlier and message and
   * delimiter together fit the limit; one byte more is allowed if the delimiter is not part of the frame.
   */
  lemma DelimitedUnit(d: seq<byte>, keep: bool, limit: nat, message: seq<byte>)
    requires ValidRule(Delimited(d, keep, limit))
    ensures Decodes(Delimited(d, keep, limit), message + d, if keep then |message| + |d| else |message|)
            <==> FirstMatch(message + d, d, 0) == |message| && |message| + |d| <= limit + (if keep then 0 else 1)
  {
    hide FirstMatch, MatchAt;
    var part := message + d;
    var window := part[..Min(|part|, limit + 1)];
    var m := FirstMatch(window, d, 0);
    if |part| <= limit + 1 {
      assert window == part;
    }
  }

  /** A raw SMP message decodes exactly when its header is plausible and states its length. */
  lemma RawSmpUnit(limit: nat, message: seq<byte>)
    requires SMP_HEADER_BYTES <= limit
    ensures Decodes(RawSmp(limit), message, |message|)
            <==> PlausibleHeader(message, limit) && |message| == SMP_HEADER_BYTES + ReadU16(message, 2)
  {
  }

  /** A length-prefixed frame decodes exactly when it is long enough for its header and its field states its length. */
  lemma LengthUnit(offset: nat, size: nat, bigEndian: bool, adjust: nat, frame: seq<byte>)
    requires ValidRule(LengthPrefixed(offset, size, bigEndian, adjust))
    ensures Decodes(LengthPrefixed(offset, size, bigEndian, adjust), frame, |frame|)
            <==> && offset + size <= |frame| <= MAX_LENGTH_FRAME_BYTES
                 && adjust + FieldValue(frame[offset..offset + size], bigEndian) == |frame|
  {
  }
}
