/** Console framing of SMP packets: marked base64 lines among ordinary log lines. */
module Console {
  import opened Bytes
  import Base64
  import Crc16
  import opened Framing
  import opened Wrappers

  const LF: byte := 0x0a
  const CR: byte := 0x0d
  const MAX_RECOVERY_DEPTH: nat := 32

  // ----- lines

  function Trim(line: seq<byte>): seq<byte> {
    if line != [] && line[|line| - 1] == CR then line[..|line| - 1] else line
  }

  function IndexOf(bytes: seq<byte>, b: byte): (r: int)
    ensures r == -1 ==> b !in bytes
    ensures r != -1 ==> 0 <= r < |bytes| && bytes[r] == b && b !in bytes[..r]
  {
    if bytes == [] then -1
    else if bytes[0] == b then 0
    else
      var later := IndexOf(bytes[1..], b);
      if later == -1 then -1
      else
        assert bytes[..later + 1] == [bytes[0]] + bytes[1..][..later];
        later + 1
  }

  datatype Split = Split(lines: seq<seq<byte>>, rest: seq<byte>)

  /** The complete lines of a stream, without their terminators, and what follows the last of them. */
  function Lines(stream: seq<byte>): Split
    decreases |stream|
  {
    var newline := IndexOf(stream, LF);
    if newline == -1 then Split([], stream)
    else
      var later := Lines(stream[newline + 1..]);
      Split([Trim(stream[..newline])] + later.lines, later.rest)
  }

  lemma {:induction false} IndexOfConcat(a: seq<byte>, c: seq<byte>, b: byte)
    ensures b in a ==> IndexOf(a + c, b) == IndexOf(a, b) != -1
    ensures b !in a && c != [] && c[0] == b ==> IndexOf(a + c, b) == |a|
  {
    if a != [] {
      assert (a + c)[1..] == a[1..] + c;
      IndexOfConcat(a[1..], c, b);
    } else {
      assert a + c == c;
    }
  }

  /** A stream can be cut into lines in any instalments. */
  lemma {:induction false} LinesExtend(stream: seq<byte>, more: seq<byte>)
    ensures var first := Lines(stream);
            var second := Lines(first.rest + more);
            Lines(stream + more) == Split(first.lines + second.lines, second.rest)
    decreases |stream|
  {
    hide IndexOf, Trim, Lines;
    LinesStep(stream);
    var newline := IndexOf(stream, LF);
    if newline != -1 {
      IndexOfConcat(stream, more, LF);
      LinesStep(stream + more);
      var tail := stream[newline + 1..];
      assert (stream + more)[newline + 1..] == tail + more && (stream + more)[..newline] == stream[..newline];
      LinesExtend(tail, more);
      var head, later := [Trim(stream[..newline])], Lines(tail);
      var second := Lines(later.rest + more);
      assert head + (later.lines + second.lines) == (head + later.lines) + second.lines;
    }
  }

  lemma LinesStep(stream: seq<byte>)
    ensures var newline := IndexOf(stream, LF);
            Lines(stream) ==
            if newline == -1 then Split([], stream)
            else
              var later := Lines(stream[newline + 1..]);
              Split([Trim(stream[..newline])] + later.lines, later.rest)
  {
    hide IndexOf, Trim;
  }

  lemma {:induction false} RestHasNoNewline(stream: seq<byte>)
    ensures LF !in Lines(stream).rest
    decreases |stream|
  {
    var newline := IndexOf(stream, LF);
    if newline != -1 {
      RestHasNoNewline(stream[newline + 1..]);
    }
  }

  // ----- markers

  datatype Kind = Initial | Continuation

  datatype Marker = Marker(kind: Kind, index: nat)

  predicate InitialAt(line: seq<byte>, i: nat) {
    i + 1 < |line| && line[i] == 0x06 && line[i + 1] == 0x09
  }

  predicate ContinuationAt(line: seq<byte>, i: nat) {
    i + 1 < |line| && line[i] == 0x04 && line[i + 1] == 0x14
  }

  predicate IsMarker(line: seq<byte>, m: Marker) {
    if m.kind.Initial? then InitialAt(line, m.index) else ContinuationAt(line, m.index)
  }

  /** Leftmost marker of either kind. */
  method FindConsoleMarker(line: seq<byte>) returns (m: Option<Marker>)
    ensures m == FirstMarker(line, 0)
  {
    for index := 0 to |line|
      invariant FirstMarker(line, 0) == FirstMarker(line, index)
    {
      if InitialAt(line, index) { return Some(Marker(Initial, index)); }
      if ContinuationAt(line, index) { return Some(Marker(Continuation, index)); }
    }
    return None;
  }

  function FirstMarker(line: seq<byte>, from: nat): (m: Option<Marker>)
    ensures m.None? ==> forall i | from <= i :: !InitialAt(line, i) && !ContinuationAt(line, i)
    ensures m.Some? ==> from <= m.value.index && m.value.index + 1 < |line| && IsMarker(line, m.value)
    ensures m.Some? ==> forall i | from <= i < m.value.index :: !InitialAt(line, i) && !ContinuationAt(line, i)
    decreases |line| - from
  {
    if from + 1 >= |line| then None
    else if InitialAt(line, from) then Some(Marker(Initial, from))
    else if ContinuationAt(line, from) then Some(Marker(Continuation, from))
    else FirstMarker(line, from + 1)
  }

  function NextInitial(line: seq<byte>, from: nat): (r: Option<nat>)
    ensures r.Some? ==> from <= r.value && InitialAt(line, r.value)
    decreases |line| - from
  {
    if from + 1 >= |line| then None
    else if InitialAt(line, from) then Some(from)
    else NextInitial(line, from + 1)
  }

  method FindConsoleInitialMarker(line: seq<byte>, start: nat) returns (r: Option<nat>)
    ensures r == NextInitial(line, start)
  {
    var index := start;
    while index + 1 < |line|
      invariant start <= index && NextInitial(line, start) == NextInitial(line, index)
    {
      if InitialAt(line, index) { return Some(index); }
      index := index + 1;
    }
    return None;
  }

  // ----- the text of a fragment

  const C1_TABLE: seq<Base64.CodeUnit> :=
    [0x20ac, 0x81, 0x201a, 0x0192, 0x201e, 0x2026, 0x2020, 0x2021, 0x02c6, 0x2030, 0x0160, 0x2039, 0x0152, 0x8d, 0x017d, 0x8f,
     0x90, 0x2018, 0x2019, 0x201c, 0x201d, 0x2022, 0x2013, 0x2014, 0x02dc, 0x2122, 0x0161, 0x203a, 0x0153, 0x9d, 0x017e, 0x0178]

  /** The platform decodes the label "ascii" as windows-1252. */
  function DecodeByte(b: byte): Base64.CodeUnit {
    if 0x80 <= b < 0xa0 then C1_TABLE[b - 0x80] else b
  }

  predicate IsSpace(c: Base64.CodeUnit) {
    9 <= c <= 13 || c == 32 || c == 160 || c == 0x1680 || 0x2000 <= c <= 0x200a || c == 0x2028 || c == 0x2029
    || c == 0x202f || c == 0x205f || c == 0x3000 || c == 0xfeff
  }

  function Compact(bytes: seq<byte>): Base64.Text {
    if bytes == [] then []
    else
      var c := DecodeByte(bytes[0]);
      (if IsSpace(c) then [] else [c]) + Compact(bytes[1..])
  }

  function DecodeFragment(bytes: seq<byte>): Option<seq<byte>> {
    var text := Compact(bytes);
    if Base64.Canonical(text) then Some(Base64.Decode(text)) else None
  }

  // ----- what one line does, on the bytes alone

  datatype Partial = Partial(expectedBytes: nat, body: seq<byte>)

  datatype FaultCode = Restarted | InvalidBase64 | LengthMissing | LengthInvalid | OrphanContinuation | LineOverflow | TimedOut

  /** What the caller gets: a packet, or a fault of the transport. */
  datatype Record =
    | Packet(packet: seq<byte>, crcValid: bool, extraBytes: nat)
    | Fault(code: FaultCode)

  function Packets(records: seq<Record>): seq<Record> {
    if records == [] then []
    else (if records[0].Packet? then [records[0]] else []) + Packets(records[1..])
  }

  lemma {:induction false} PacketsConcat(a: seq<Record>, b: seq<Record>)
    ensures Packets(a + b) == Packets(a) + Packets(b)
  {
    if a == [] {
      assert a + b == b;
    } else {
      var head := if a[0].Packet? then [a[0]] else [];
      assert (a + b)[1..] == a[1..] + b;
      PacketsConcat(a[1..], b);
      assert head + (Packets(a[1..]) + Packets(b)) == (head + Packets(a[1..])) + Packets(b);
    }
  }

  datatype Effect = Effect(partial: Option<Partial>, records: seq<Record>) {
    /** The same effect, after these records. */
    function After(earlier: seq<Record>): Effect {
      Effect(partial, earlier + records)
    }
  }

  function Finish(p: Partial): Effect {
    if |p.body| < p.expectedBytes || p.expectedBytes < 2 then Effect(Some(p), [])
    else
      var framed := p.body[..p.expectedBytes];
      Effect(None, [Packet(framed[..|framed| - 2], Crc16.CrcValid(framed), |p.body| - p.expectedBytes)])
  }

  function Accept(max: nat, partial: Option<Partial>, line: seq<byte>, depth: nat): (e: Effect)
    decreases |line|
  {
    var marker := FirstMarker(line, 0);
    if marker.None? then Effect(partial, [])
    else
      var start := marker.value.index + 2;
      var restarted := if marker.value.kind.Initial? && partial.Some? then [Fault(Restarted)] else [];
      var fragment := DecodeFragment(line[start..]);
      if fragment.None? then AcceptLater(max, line, start, depth).After(restarted + [Fault(InvalidBase64)])
      else if marker.value.kind.Initial? then
        if |fragment.value| < 2 then AcceptLater(max, line, start, depth).After(restarted + [Fault(LengthMissing)])
        else
          var expected := ReadU16(fragment.value, 0);
          if expected < SMP_HEADER_BYTES + 2 || expected > max + 2 then
            AcceptLater(max, line, start, depth).After(restarted + [Fault(LengthInvalid)])
          else Finish(Partial(expected, fragment.value[2..])).After(restarted)
      else if partial.None? then AcceptLater(max, line, start, depth).After([Fault(OrphanContinuation)])
      else Finish(partial.value.(body := partial.value.body + fragment.value))
  }

  /** A line that failed at one marker is tried again at its next initial marker, a bounded number of times. */
  function AcceptLater(max: nat, line: seq<byte>, start: nat, depth: nat): Effect
    requires 0 < start
    decreases |line|, 0
  {
    var next := NextInitial(line, start);
    if depth >= MAX_RECOVERY_DEPTH || next.None? then Effect(None, [])
    else Accept(max, None, line[next.value..], depth + 1)
  }

  function AcceptAll(max: nat, partial: Option<Partial>, lines: seq<seq<byte>>): Effect
    decreases |lines|
  {
    if lines == [] then Effect(partial, [])
    else
      var first := Accept(max, partial, lines[0], 0);
      var later := AcceptAll(max, first.partial, lines[1..]);
      Effect(later.partial, first.records + later.records)
  }

  lemma {:induction false} AcceptAllConcat(max: nat, partial: Option<Partial>, a: seq<seq<byte>>, b: seq<seq<byte>>)
    ensures var first := AcceptAll(max, partial, a);
            var second := AcceptAll(max, first.partial, b);
            AcceptAll(max, partial, a + b) == Effect(second.partial, first.records + second.records)
    decreases |a|
  {
    hide Accept;
    if a == [] {
      assert a + b == b;
    } else {
      assert (a + b)[1..] == a[1..] + b;
      AcceptAllConcat(max, Accept(max, partial, a[0], 0).partial, a[1..], b);
    }
  }

  // ----- a packet, cut into fragments, among log lines

  predicate MarkerFree(line: seq<byte>) {
    FirstMarker(line, 0).None?
  }

  /** The first marker of the line is of this kind, and the text after it is this fragment. */
  predicate Carries(line: seq<byte>, kind: Kind, fragment: seq<byte>) {
    var m := FirstMarker(line, 0);
    m.Some? && m.value.kind == kind && DecodeFragment(line[m.value.index + 2..]) == Some(fragment)
  }

  /** The lines carry the fragments in order, the first one initial, with any log lines in between. */
  predicate Script(lines: seq<seq<byte>>, fragments: seq<seq<byte>>, kind: Kind) {
    if lines == [] then fragments == []
    else
      || (MarkerFree(lines[0]) && Script(lines[1..], fragments, kind))
      || (fragments != [] && Carries(lines[0], kind, fragments[0]) && Script(lines[1..], fragments[1..], Continuation))
  }

  function Framed(packet: seq<byte>): (framed: seq<byte>)
    ensures |framed| == |packet| + 2 && framed[..|packet|] == packet && Crc16.CrcValid(framed)
  {
    var framed := packet + WriteU16(Crc16.Crc(packet));
    assert framed[..|packet|] == packet;
    framed
  }

  lemma {:induction false} CanonicalCharacters(text: Base64.Text)
    requires Base64.Canonical(text)
    ensures 0x06 !in text
  {
    if |text| > 4 {
      CanonicalCharacters(text[4..]);
      assert text == text[..4] + text[4..];
    }
  }

  lemma {:induction false} CompactKeeps(bytes: seq<byte>)
    ensures 0x06 in bytes ==> 0x06 in Compact(bytes)
  {
    if bytes != [] {
      CompactKeeps(bytes[1..]);
      assert bytes == [bytes[0]] + bytes[1..];
    }
  }

  /** Behind a marker whose text decodes there is no initial marker to recover at. */
  lemma FragmentHides(line: seq<byte>, start: nat)
    requires start <= |line| && DecodeFragment(line[start..]).Some?
    ensures NextInitial(line, start).None?
  {
    CanonicalCharacters(Compact(line[start..]));
    CompactKeeps(line[start..]);
    assert forall i | start <= i < |line| :: line[i] == line[start..][i - start];
  }

  /** The stream ends with nothing pending and has shown these packets. */
  predicate Yields(e: Effect, packets: seq<Record>) {
    e.partial.None? && Packets(e.records) == packets
  }

  lemma AcceptNext(max: nat, partial: Option<Partial>, lines: seq<seq<byte>>)
    requires lines != []
    ensures var first := Accept(max, partial, lines[0], 0);
            var all, later := AcceptAll(max, partial, lines), AcceptAll(max, first.partial, lines[1..]);
            all.partial == later.partial && Packets(all.records) == Packets(first.records) + Packets(later.records)
    ensures MarkerFree(lines[0]) ==> Accept(max, partial, lines[0], 0) == Effect(partial, [])
    ensures Packets([]) == []
  {
    hide FirstMarker;
    var first := Accept(max, partial, lines[0], 0);
    PacketsConcat(first.records, AcceptAll(max, first.partial, lines[1..]).records);
  }

  /** Continuation lines without a packet to continue show none. */
  lemma {:induction false} OrphansPass(max: nat, lines: seq<seq<byte>>, fragments: seq<seq<byte>>)
    requires Script(lines, fragments, Continuation)
    ensures Yields(AcceptAll(max, None, lines), [])
    decreases |lines|
  {
    hide FirstMarker, DecodeFragment, NextInitial;
    if lines != [] {
      AcceptNext(max, None, lines);
      if MarkerFree(lines[0]) && Script(lines[1..], fragments, Continuation) {
        OrphansPass(max, lines[1..], fragments);
      } else {
        FragmentHides(lines[0], FirstMarker(lines[0], 0).value.index + 2);
        assert Accept(max, None, lines[0], 0) == Effect(None, [Fault(OrphanContinuation)]);
        OrphansPass(max, lines[1..], fragments[1..]);
      }
    }
  }

  /** Continuation lines complete the packet with its last byte and not before. */
  lemma {:induction false} ContinuationsComplete(max: nat, packet: seq<byte>, body: seq<byte>, lines: seq<seq<byte>>, fragments: seq<seq<byte>>)
    requires Script(lines, fragments, Continuation) && |body| < |packet| + 2
    requires body + Flatten(fragments) == Framed(packet)
    ensures Yields(AcceptAll(max, Some(Partial(|packet| + 2, body)), lines), [Packet(packet, true, 0)])
    decreases |lines|
  {
    hide FirstMarker, DecodeFragment, Framed, Crc16.CrcValid;
    var p := Partial(|packet| + 2, body);
    AcceptNext(max, Some(p), lines);
    if MarkerFree(lines[0]) && Script(lines[1..], fragments, Continuation) {
      ContinuationsComplete(max, packet, body, lines[1..], fragments);
    } else {
      var longer := body + fragments[0];
      assert longer + Flatten(fragments[1..]) == Framed(packet);
      var first := Accept(max, Some(p), lines[0], 0);
      assert first == Finish(Partial(|packet| + 2, longer));
      if |longer| == |packet| + 2 {
        assert longer == Framed(packet) && longer[..|longer|] == longer;
        assert first == Effect(None, [Packet(packet, true, 0)]);
        OrphansPass(max, lines[1..], fragments[1..]);
      } else {
        ContinuationsComplete(max, packet, longer, lines[1..], fragments[1..]);
      }
    }
  }

  /**
   * Reassembly: a legal packet, prefixed by its length and followed by its checksum, cut into any fragments carried by
   * any marked lines among any marker-free lines, is delivered once, intact, with a valid checksum, exactly when the
   * first fragment is long enough to hold the length; otherwise nothing is delivered.
   */
  lemma {:induction false} Reassembly(max: nat, packet: seq<byte>, lines: seq<seq<byte>>, fragments: seq<seq<byte>>)
    requires SMP_HEADER_BYTES <= |packet| <= max && |packet| + 2 < 0x1_0000
    requires fragments != [] && Flatten(fragments) == WriteU16(|packet| + 2) + Framed(packet)
    requires Script(lines, fragments, Initial)
    ensures Yields(AcceptAll(max, None, lines), if |fragments[0]| >= 2 then [Packet(packet, true, 0)] else [])
    decreases |lines|
  {
    hide FirstMarker, DecodeFragment, NextInitial, Framed, Crc16.CrcValid;
    AcceptNext(max, None, lines);
    if MarkerFree(lines[0]) && Script(lines[1..], fragments, Initial) {
      Reassembly(max, packet, lines[1..], fragments);
    } else if |fragments[0]| < 2 {
      FragmentHides(lines[0], FirstMarker(lines[0], 0).value.index + 2);
      assert Accept(max, None, lines[0], 0) == Effect(None, [Fault(LengthMissing)]);
      OrphansPass(max, lines[1..], fragments[1..]);
    } else {
      var head := fragments[0];
      var body := head[2..];
      var length := WriteU16(|packet| + 2);
      var all := Flatten(fragments);
      assert all == head + Flatten(fragments[1..]);
      assert head[0] == all[0] && head[1] == all[1];
      assert ReadU16(head, 0) == |packet| + 2;
      assert body + Flatten(fragments[1..]) == all[2..] == Framed(packet);
      assert Accept(max, None, lines[0], 0) == Finish(Partial(|packet| + 2, body));
      if |body| == |packet| + 2 {
        assert body == Framed(packet) && body[..|body|] == body;
        OrphansPass(max, lines[1..], fragments[1..]);
      } else {
        ContinuationsComplete(max, packet, body, lines[1..], fragments[1..]);
      }
    }
  }

  // ----- a transmitter, and its lines on the wire

  predicate Plain(text: Base64.Text) {
    forall i | 0 <= i < |text| :: Base64.IsDigit(text[i]) || text[i] == Base64.PAD
  }

  function WireText(text: Base64.Text): (bytes: seq<byte>)
    requires Plain(text)
    ensures |bytes| == |text| && forall i | 0 <= i < |text| :: bytes[i] == text[i]
  {
    seq(|text|, i requires 0 <= i < |text| => assert text[i] < 128; text[i])
  }

  lemma {:induction false} EncodePlain(bytes: seq<byte>)
    ensures Plain(Base64.Encode(bytes))
  {
    if 0 < |bytes| <= 3 {
      GroupPlain(bytes);
    } else if |bytes| > 3 {
      GroupPlain(bytes[..3]);
      EncodePlain(bytes[3..]);
    }
  }

  lemma GroupPlain(bytes: seq<byte>)
    requires 1 <= |bytes| <= 3
    ensures Plain(Base64.EncodeGroup(bytes))
  {
    hide Base64.Digit, Base64.IsDigit;
    forall n: Base64.Sextet ensures Base64.IsDigit(Base64.Digit(n)) {
      Base64.DigitValue(n);
    }
  }

  lemma {:induction false} CompactPlain(text: Base64.Text)
    requires Plain(text)
    ensures Compact(WireText(text)) == text
  {
    if text != [] {
      var bytes := WireText(text);
      assert Base64.IsDigit(text[0]) || text[0] == Base64.PAD;
      assert bytes[1..] == WireText(text[1..]);
      CompactPlain(text[1..]);
    }
  }

  function MarkerBytes(kind: Kind): seq<byte> {
    if kind.Initial? then [0x06, 0x09] else [0x04, 0x14]
  }

  function EncodedLine(kind: Kind, fragment: seq<byte>): seq<byte> {
    EncodePlain(fragment);
    MarkerBytes(kind) + WireText(Base64.Encode(fragment))
  }

  lemma SameMarkers(line: seq<byte>, quiet: seq<byte>, i: nat)
    requires quiet <= line && i + 1 < |quiet|
    ensures InitialAt(line, i) == InitialAt(quiet, i) && ContinuationAt(line, i) == ContinuationAt(quiet, i)
  {
  }

  /** What a device sends for a fragment is carried, also behind noise that hides no marker. */
  lemma EncodedLineCarries(noise: seq<byte>, kind: Kind, fragment: seq<byte>)
    requires MarkerFree(noise + MarkerBytes(kind)[..1])
    ensures Carries(noise + EncodedLine(kind, fragment), kind, fragment)
  {
    hide DecodeFragment;
    EncodePlain(fragment);
    var text := WireText(Base64.Encode(fragment));
    var line := noise + EncodedLine(kind, fragment);
    var quiet := noise + MarkerBytes(kind)[..1];
    var m := FirstMarker(line, 0);
    assert if kind.Initial? then InitialAt(line, |noise|) else ContinuationAt(line, |noise|);
    if m.value.index < |noise| {
      SameMarkers(line, quiet, m.value.index);
      assert false;
    }
    assert line[|noise| + 2..] == text;
    CarriedText(fragment);
  }

  lemma CarriedText(fragment: seq<byte>)
    ensures Plain(Base64.Encode(fragment)) && DecodeFragment(WireText(Base64.Encode(fragment))) == Some(fragment)
  {
    hide Compact, Base64.Encode, Base64.Canonical, Base64.Decode, Plain;
    EncodePlain(fragment);
    CompactPlain(Base64.Encode(fragment));
    Base64.RoundTrip(fragment);
  }

  /** Lines on the wire, each ended by carriage return and line feed. */
  function OnWire(lines: seq<seq<byte>>): seq<byte> {
    if lines == [] then [] else lines[0] + [CR, LF] + OnWire(lines[1..])
  }

  lemma FirstOnWire(lines: seq<seq<byte>>)
    requires lines != [] && LF !in lines[0]
    ensures var wire, n := OnWire(lines), |lines[0]| + 1;
            && IndexOf(wire, LF) == n && wire[n + 1..] == OnWire(lines[1..]) && Trim(wire[..n]) == lines[0]
  {
    hide IndexOf;
    var first, tail := lines[0] + [CR], OnWire(lines[1..]);
    assert OnWire(lines) == first + ([LF] + tail);
    IndexOfConcat(first, [LF] + tail, LF);
  }

  lemma {:induction false} WireLines(lines: seq<seq<byte>>)
    requires forall l | l in lines :: LF !in l
    ensures Lines(OnWire(lines)) == Split(lines, [])
  {
    hide IndexOf, Lines, Trim;
    if lines != [] {
      FirstOnWire(lines);
      WireLines(lines[1..]);
      LinesStep(OnWire(lines));
      assert [lines[0]] + lines[1..] == lines;
    } else {
      LinesStep([]);
    }
  }

  // ----- the decoder of one direction

  datatype Assembly = Assembly(expectedBytes: nat, body: seq<byte>, lastTimestamp: int)

  function Assembled(console: Option<Assembly>): Option<Partial> {
    if console.None? then None else Some(Partial(console.value.expectedBytes, console.value.body))
  }

  class ConsoleDecoder {
    const maxPacketBytes: nat
    const reassemblyTimeoutMs: int
    var lineBuffer: seq<byte>
    var lineLastTimestamp: int
    var console: Option<Assembly>

    /** What was assembled, and the bytes heard, since the last time the stream was cut by a timeout or an overflow. */
    ghost var base: Option<Partial>
    ghost var heard: seq<byte>
    ghost var since: seq<Record>

    ghost predicate Valid()
      reads this
    {
      && SMP_HEADER_BYTES <= maxPacketBytes && 1 <= reassemblyTimeoutMs
      && (console.Some? ==> console.value.expectedBytes >= SMP_HEADER_BYTES + 2)
      && lineBuffer == Lines(heard).rest
      && AcceptAll(maxPacketBytes, base, Lines(heard).lines) == Effect(Assembled(console), since)
    }

    constructor (maxPacketBytes: nat, reassemblyTimeoutMs: int)
      requires SMP_HEADER_BYTES <= maxPacketBytes && 1 <= reassemblyTimeoutMs
      ensures Valid() && base == None && heard == [] && since == [] && console == None && lineBuffer == []
      ensures this.maxPacketBytes == maxPacketBytes && this.reassemblyTimeoutMs == reassemblyTimeoutMs
    {
      this.maxPacketBytes, this.reassemblyTimeoutMs := maxPacketBytes, reassemblyTimeoutMs;
      lineBuffer, lineLastTimestamp, console := [], 0, None;
      base, heard, since := None, [], [];
    }

    function MaxBufferedLine(): nat {
      LineLimit(maxPacketBytes)
    }

    /** The unfinished line could still matter: it has a marker, or ends with what may be the first byte of one. */
    predicate PartialLine()
      reads this
      ensures PartialLine() <==> (exists i :: InitialAt(lineBuffer, i) || ContinuationAt(lineBuffer, i))
                                 || (lineBuffer != [] && lineBuffer[|lineBuffer| - 1] in {0x04, 0x06})
    {
      FirstMarker(lineBuffer, 0).Some? || LastMarkerPrefix(lineBuffer) != []
    }

    /** When the pending packet or line times out, if nothing else arrives. */
    function NextExpiry(): Option<int>
      reads this
    {
      if PartialLine() then Some(lineLastTimestamp + reassemblyTimeoutMs)
      else if console.Some? then Some(console.value.lastTimestamp + reassemblyTimeoutMs)
      else None
    }

    /** Expiry does something exactly from the announced time on. */
    method FlushExpired(now: int) returns (records: seq<Record>)
      requires Valid()
      modifies this
      ensures Valid()
      // A line that could matter is timed from the last byte, and only without one the packet from its last fragment.
      ensures old(NextExpiry().Some? && NextExpiry().value <= now) <==>
                if old(PartialLine()) then now - old(lineLastTimestamp) >= reassemblyTimeoutMs
                else old(console.Some? && now - console.value.lastTimestamp >= reassemblyTimeoutMs)
      ensures var due := old(NextExpiry().Some? && NextExpiry().value <= now);
              && records == (if due then [Fault(TimedOut)] else [])
              && console == (if due then None else old(console))
              && lineBuffer == (if due && old(PartialLine()) then [] else old(lineBuffer))
              && (!due ==> heard == old(heard) && base == old(base) && since == old(since) && lineLastTimestamp == old(lineLastTimestamp))
              && (due ==> heard == lineBuffer && base == None && since == [])
    {
      hide FirstMarker, Accept;
      records := [];
      var partialLine := PartialLine();
      if (console.Some? || partialLine)
         && now - (if partialLine then lineLastTimestamp else console.value.lastTimestamp) >= reassemblyTimeoutMs {
        records := [Fault(TimedOut)];
        console := None;
        if partialLine { lineBuffer, lineLastTimestamp := [], 0; }
        RestHasNoNewline(heard);
        Cut();
      }
    }

    /** From here on the stream starts afresh with what is buffered. */
    ghost method Cut()
      requires LF !in lineBuffer && SMP_HEADER_BYTES <= maxPacketBytes && 1 <= reassemblyTimeoutMs
      requires console.Some? ==> console.value.expectedBytes >= SMP_HEADER_BYTES + 2
      modifies `base, `heard, `since
      ensures Valid() && heard == lineBuffer && base == Assembled(console) && since == []
    {
      base, heard, since := Assembled(console), lineBuffer, [];
      LinesStep(lineBuffer);
    }

    /**
     * Whatever the chunks, the packets delivered are those of the complete lines heard; an unfinished line that has
     * outgrown the limit is thrown away, all but a possible first byte of a marker.
     */
    method FeedConsole(data: seq<byte>, now: int) returns (records: seq<Record>)
      requires Valid()
      modifies this
      ensures Valid() && lineLastTimestamp == now
      ensures console == old(console) || console.None? || console.value.lastTimestamp == now
      ensures var all := Lines(old(heard) + data);
              var effect := AcceptAll(maxPacketBytes, old(base), all.lines);
              && Assembled(console) == effect.partial
              && old(since) + records == effect.records + (if |all.rest| > MaxBufferedLine() then [Fault(LineOverflow)] else [])
              && (|all.rest| <= MaxBufferedLine() ==> heard == old(heard) + data && base == old(base) && since == effect.records)
              && (|all.rest| > MaxBufferedLine() ==> lineBuffer == LastMarkerPrefix(all.rest) == heard && base == effect.partial && since == [])
      ensures Heard(maxPacketBytes, Listener(old(Assembled(console)), old(lineBuffer), []), data)
              == Listener(Assembled(console), lineBuffer, records)
    {
      hide Accept, Lines, FirstMarker, AcceptAll, LastMarkerPrefix, Trim;
      LinesExtend(heard, data);
      AcceptAllConcat(maxPacketBytes, base, Lines(heard).lines, Lines(lineBuffer + data).lines);
      ghost var alone := Lines(lineBuffer + data);
      ghost var effect := AcceptAll(maxPacketBytes, Assembled(console), alone.lines);
      lineLastTimestamp := now;
      records := TakeLines(lineBuffer + data, now);
      heard, since := heard + data, since + records;
      if |lineBuffer| > MaxBufferedLine() {
        var marker := LastMarkerPrefix(lineBuffer);
        var discarded := lineBuffer[..|lineBuffer| - |marker|];
        RestHasNoNewline(heard);
        lineBuffer := marker;
        if |discarded| > 0 {
          records := records + [Fault(LineOverflow)];
        }
        Cut();
      }
    }

    /** Consumes the complete lines of the buffer one by one. */
    method TakeLines(buffer: seq<byte>, now: int) returns (records: seq<Record>)
      requires console.Some? ==> console.value.expectedBytes >= SMP_HEADER_BYTES + 2
      modifies `lineBuffer, `console
      ensures console.Some? ==> console.value.expectedBytes >= SMP_HEADER_BYTES + 2
      ensures console == old(console) || console.None? || console.value.lastTimestamp == now
      ensures lineBuffer == Lines(buffer).rest
      ensures AcceptAll(maxPacketBytes, old(Assembled(console)), Lines(buffer).lines) == Effect(Assembled(console), records)
    {
      hide Accept, Lines, IndexOf, AcceptAll, Trim, Effect.After;
      AfterNothing(AcceptAll(maxPacketBytes, Assembled(console), Lines(buffer).lines));
      lineBuffer := buffer;
      records := [];
      while true
        invariant console.Some? ==> console.value.expectedBytes >= SMP_HEADER_BYTES + 2
        invariant console == old(console) || console.None? || console.value.lastTimestamp == now
        invariant Lines(buffer).rest == Lines(lineBuffer).rest
        invariant AcceptAll(maxPacketBytes, old(Assembled(console)), Lines(buffer).lines)
                  == AcceptAll(maxPacketBytes, Assembled(console), Lines(lineBuffer).lines).After(records)
        decreases |lineBuffer|
      {
        NextLine(maxPacketBytes, Assembled(console), lineBuffer, records);
        var newline := IndexOf(lineBuffer, LF);
        if newline < 0 { break; }
        var batch := TakeLine(newline, now);
        AfterTwice(AcceptAll(maxPacketBytes, Assembled(console), Lines(lineBuffer).lines), records, batch);
        records := records + batch;
      }
    }

    method TakeLine(newline: nat, now: int) returns (records: seq<Record>)
      requires console.Some? ==> console.value.expectedBytes >= SMP_HEADER_BYTES + 2
      requires newline == IndexOf(lineBuffer, LF)
      modifies `lineBuffer, `console
      ensures console.Some? ==> console.value.expectedBytes >= SMP_HEADER_BYTES + 2
      ensures console == old(console) || console.None? || console.value.lastTimestamp == now
      ensures |lineBuffer| < |old(lineBuffer)| && Lines(lineBuffer).rest == Lines(old(lineBuffer)).rest
      ensures AcceptAll(maxPacketBytes, old(Assembled(console)), Lines(old(lineBuffer)).lines)
              == AcceptAll(maxPacketBytes, Assembled(console), Lines(lineBuffer).lines).After(records)
    {
      hide Accept, Lines, IndexOf, AcceptAll, Trim, Effect.After;
      NextLine(maxPacketBytes, Assembled(console), lineBuffer, []);
      var line := Trim(lineBuffer[..newline]);
      lineBuffer := lineBuffer[newline + 1..];
      records := ConsumeConsoleLine(line, now, 0);
    }

    /** Checks and delivers the packet once all its bytes are there. */
    method DeliverIfComplete() returns (records: seq<Record>)
      requires console.Some? && console.value.expectedBytes >= SMP_HEADER_BYTES + 2
      modifies `console
      ensures console == None || console == old(console)
      ensures Finish(old(Assembled(console)).value) == Effect(Assembled(console), records)
    {
      hide Crc16.CrcValid, Crc16.Crc, ReadU16, Finish;
      var assembly := console.value;
      FinishCases(Assembled(console).value);
      if |assembly.body| < assembly.expectedBytes { return []; }
      var extraBytes := |assembly.body| - assembly.expectedBytes;
      var framed := assembly.body[..assembly.expectedBytes];
      var packet := framed[..|framed| - 2];
      var expectedCrc := ReadU16(framed, |framed| - 2);
      var actualCrc := Crc16.Crc16Xmodem(packet);
      CrcTest(framed);
      console := None;
      records := [Packet(packet, actualCrc == expectedCrc, extraBytes)];
    }

    /** One line: a marker, its fragment, and the packet it may complete. */
    method ConsumeConsoleLine(line: seq<byte>, now: int, recoveryDepth: nat) returns (records: seq<Record>)
      requires console.Some? ==> console.value.expectedBytes >= SMP_HEADER_BYTES + 2
      modifies `console
      ensures console.Some? ==> console.value.expectedBytes >= SMP_HEADER_BYTES + 2
      ensures console == old(console) || console.None? || console.value.lastTimestamp == now
      ensures Accept(maxPacketBytes, old(Assembled(console)), line, recoveryDepth) == Effect(Assembled(console), records)
      decreases |line|, 1
    {
      hide FirstMarker, DecodeFragment, NextInitial, Finish, AcceptLater;
      var found := FindConsoleMarker(line);
      if found.None? { return []; }
      var marker := found.value;
      records := [];
      if marker.kind.Initial? && console.Some? {
        records := [Fault(Restarted)];
        console := None;
      }
      var decoded := DecodeFragment(line[marker.index + 2..]);
      if decoded.None? {
        records := Recover(records + [Fault(InvalidBase64)], line, now, marker.index + 2, recoveryDepth);
        return;
      }
      var fragment := decoded.value;
      if marker.kind.Initial? {
        if |fragment| < 2 {
          records := Recover(records + [Fault(LengthMissing)], line, now, marker.index + 2, recoveryDepth);
          return;
        }
        var expectedBytes := ReadU16(fragment, 0);
        if expectedBytes < SMP_HEADER_BYTES + 2 || expectedBytes > maxPacketBytes + 2 {
          records := Recover(records + [Fault(LengthInvalid)], line, now, marker.index + 2, recoveryDepth);
          return;
        }
        console := Some(Assembly(expectedBytes, fragment[2..], now));
      } else {
        if console.None? {
          records := Recover(records + [Fault(OrphanContinuation)], line, now, marker.index + 2, recoveryDepth);
          return;
        }
        console := Some(Assembly(console.value.expectedBytes, console.value.body + fragment, now));
      }
      var completed := DeliverIfComplete();
      records := records + completed;
    }

    /** Gives up the packet and tries the next initial marker of the line, at most 32 times. */
    method Recover(faults: seq<Record>, line: seq<byte>, now: int, searchStart: nat, recoveryDepth: nat) returns (records: seq<Record>)
      requires 0 < searchStart
      modifies `console
      ensures console.Some? ==> console.value.expectedBytes >= SMP_HEADER_BYTES + 2 && console.value.lastTimestamp == now
      ensures AcceptLater(maxPacketBytes, line, searchStart, recoveryDepth).After(faults) == Effect(Assembled(console), records)
      decreases |line|, 0
    {
      hide Accept, NextInitial;
      console := None;
      if recoveryDepth >= MAX_RECOVERY_DEPTH { return faults; }
      var next := FindConsoleInitialMarker(line, searchStart);
      if next.None? { return faults; }
      var more := ConsumeConsoleLine(line[next.value..], now, recoveryDepth + 1);
      records := faults + more;
    }
  }

  lemma AfterTwice(e: Effect, a: seq<Record>, b: seq<Record>)
    ensures e.After(b).After(a) == e.After(a + b)
  {
    assert a + (b + e.records) == (a + b) + e.records;
  }

  lemma AfterNothing(e: Effect)
    ensures e.After([]) == e
  {
  }

  /** The buffer's next line, and what is left after it. */
  lemma NextLine(max: nat, partial: Option<Partial>, buffer: seq<byte>, records: seq<Record>)
    ensures var newline := IndexOf(buffer, LF);
            var all := AcceptAll(max, partial, Lines(buffer).lines);
            && (newline == -1 ==> Lines(buffer) == Split([], buffer) && all.After(records) == Effect(partial, records))
            && (newline != -1 ==>
                  var tail := Lines(buffer[newline + 1..]);
                  var first := Accept(max, partial, Trim(buffer[..newline]), 0);
                  && Lines(buffer).rest == tail.rest
                  && all == AcceptAll(max, first.partial, tail.lines).After(first.records))
  {
    hide IndexOf, Lines, Accept, Trim;
    LinesStep(buffer);
    var newline := IndexOf(buffer, LF);
    if newline != -1 {
      var tail := Lines(buffer[newline + 1..]);
      assert ([Trim(buffer[..newline])] + tail.lines)[1..] == tail.lines;
    }
  }

  lemma FinishCases(p: Partial)
    requires p.expectedBytes >= 2
    ensures |p.body| < p.expectedBytes ==> Finish(p) == Effect(Some(p), [])
    ensures |p.body| >= p.expectedBytes ==>
              var framed := p.body[..p.expectedBytes];
              Finish(p) == Effect(None, [Packet(framed[..|framed| - 2], Crc16.CrcValid(framed), |p.body| - p.expectedBytes)])
  {
  }

  lemma CrcTest(framed: seq<byte>)
    requires |framed| >= 2
    ensures Crc16.CrcValid(framed) <==> Crc16.Crc(framed[..|framed| - 2]) == ReadU16(framed, |framed| - 2)
  {
  }

  /** The last byte, if it could begin a marker. */
  function LastMarkerPrefix(bytes: seq<byte>): (r: seq<byte>)
    ensures LF !in r && |r| <= |bytes| && r == bytes[|bytes| - |r|..]
    ensures r != [] <==> bytes != [] && bytes[|bytes| - 1] in {0x04, 0x06}
    ensures |r| <= 1
  {
    if bytes != [] && (bytes[|bytes| - 1] == 0x06 || bytes[|bytes| - 1] == 0x04) then [bytes[|bytes| - 1]] else []
  }

  function LineLimit(max: nat): (limit: nat)
    ensures limit >= 8_192 && limit >= 2 * max && (limit == 8_192 || limit == 2 * max)
  {
    Max(8_192, max * 2)
  }

  /** What a listener remembers between feeds, and all it has reported. */
  datatype Listener = Listener(partial: Option<Partial>, rest: seq<byte>, records: seq<Record>)

  function Heard(max: nat, l: Listener, data: seq<byte>): Listener {
    var all := Lines(l.rest + data);
    var effect := AcceptAll(max, l.partial, all.lines);
    if |all.rest| <= LineLimit(max) then Listener(effect.partial, all.rest, l.records + effect.records)
    else Listener(effect.partial, LastMarkerPrefix(all.rest), l.records + effect.records + [Fault(LineOverflow)])
  }

  function Listen(max: nat, chunks: seq<seq<byte>>): Listener {
    if chunks == [] then Listener(None, [], []) else Heard(max, Listen(max, chunks[..|chunks| - 1]), chunks[|chunks| - 1])
  }

  lemma HeardAppends(max: nat, l: Listener, data: seq<byte>)
    ensures var alone := Heard(max, l.(records := []), data);
            Heard(max, l, data) == Listener(alone.partial, alone.rest, l.records + alone.records)
  {
    hide Lines, AcceptAll;
    var effect := AcceptAll(max, l.partial, Lines(l.rest + data).lines);
    assert l.records + effect.records + [Fault(LineOverflow)] == l.records + ([] + effect.records + [Fault(LineOverflow)]);
  }

  /** Feeding any chunks, without a timeout, is listening to them one after the other. */
  method Replay(maxPacketBytes: nat, chunks: seq<seq<byte>>, now: int) returns (records: seq<Record>)
    requires SMP_HEADER_BYTES <= maxPacketBytes
    ensures records == Listen(maxPacketBytes, chunks).records
  {
    hide Accept, Lines, AcceptAll, Heard;
    var decoder := new ConsoleDecoder(maxPacketBytes, 1);
    records := [];
    var i := 0;
    while i < |chunks|
      invariant 0 <= i <= |chunks| && decoder.Valid() && fresh(decoder) && decoder.maxPacketBytes == maxPacketBytes
      invariant Listen(maxPacketBytes, chunks[..i]) == Listener(Assembled(decoder.console), decoder.lineBuffer, records)
    {
      assert chunks[..i + 1][..i] == chunks[..i];
      HeardAppends(maxPacketBytes, Listen(maxPacketBytes, chunks[..i]), chunks[i]);
      var batch := decoder.FeedConsole(chunks[i], now);
      records := records + batch;
      i := i + 1;
    }
    assert chunks[..i] == chunks;
  }

  /** No feed leaves an unfinished line longer than the limit. */
  predicate ShortLines(chunks: seq<seq<byte>>, limit: nat) {
    forall i | 0 <= i <= |chunks| :: |Lines(Flatten(chunks[..i])).rest| <= limit
  }

  /** As long as unfinished lines stay within the limit, the chunks do not matter, only the lines of the whole stream. */
  lemma {:induction false} ListenIsLines(max: nat, chunks: seq<seq<byte>>)
    requires ShortLines(chunks, LineLimit(max))
    ensures var all := Lines(Flatten(chunks));
            var effect := AcceptAll(max, None, all.lines);
            Listen(max, chunks) == Listener(effect.partial, all.rest, effect.records)
  {
    hide Lines, AcceptAll, ShortLines;
    if chunks == [] {
      NoLines(max);
    } else {
      var most, last := chunks[..|chunks| - 1], chunks[|chunks| - 1];
      FewerShortLines(chunks, LineLimit(max));
      ListenIsLines(max, most);
      FlattenAppend(most, [last]);
      assert chunks == most + [last] && Flatten([last]) == last;
      LinesExtend(Flatten(most), last);
      AcceptAllConcat(max, None, Lines(Flatten(most)).lines, Lines(Lines(Flatten(most)).rest + last).lines);
    }
  }

  lemma NoLines(max: nat)
    ensures Lines(Flatten([])) == Split([], []) && AcceptAll(max, None, []) == Effect(None, [])
  {
    LinesStep([]);
  }

  lemma FewerShortLines(chunks: seq<seq<byte>>, limit: nat)
    requires chunks != [] && ShortLines(chunks, limit)
    ensures ShortLines(chunks[..|chunks| - 1], limit) && |Lines(Flatten(chunks)).rest| <= limit
  {
    hide Lines, Flatten;
    assert chunks[..|chunks|] == chunks;
    var most := chunks[..|chunks| - 1];
    forall i | 0 <= i <= |most| ensures |Lines(Flatten(most[..i])).rest| <= limit {
      assert most[..i] == chunks[..i];
    }
  }

  // ----- a sender, and the decoder at the other end

  /** End to end: the wire form of such lines, in any chunks, decodes to the packet or, without its length, to nothing. */
  lemma WireRoundTrip(max: nat, packet: seq<byte>, lines: seq<seq<byte>>, fragments: seq<seq<byte>>, chunks: seq<seq<byte>>)
    requires SMP_HEADER_BYTES <= |packet| <= max && |packet| + 2 < 0x1_0000
    requires fragments != [] && Flatten(fragments) == WriteU16(|packet| + 2) + Framed(packet)
    requires Script(lines, fragments, Initial) && (forall l | l in lines :: LF !in l)
    requires Flatten(chunks) == OnWire(lines)
    ensures Yields(AcceptAll(max, None, Lines(Flatten(chunks)).lines),
                   if |fragments[0]| >= 2 then [Packet(packet, true, 0)] else [])
  {
    hide Script, Framed;
    WireLines(lines);
    Reassembly(max, packet, lines, fragments);
  }

  /** The lines of a sender that adds nothing of its own. */
  function Send(fragments: seq<seq<byte>>, kind: Kind): seq<seq<byte>> {
    if fragments == [] then [] else [EncodedLine(kind, fragments[0])] + Send(fragments[1..], Continuation)
  }

  lemma {:induction false} SendScript(fragments: seq<seq<byte>>, kind: Kind)
    ensures Script(Send(fragments, kind), fragments, kind)
    ensures forall l | l in Send(fragments, kind) :: LF !in l
  {
    hide Carries, EncodedLine, FirstMarker;
    if fragments != [] {
      var line := EncodedLine(kind, fragments[0]);
      SendScript(fragments[1..], Continuation);
      assert Send(fragments, kind)[1..] == Send(fragments[1..], Continuation);
      LoneMarkerByte(kind);
      EncodedLineCarries([], kind, fragments[0]);
      assert [] + line == line;
      EncodedLineIsLine(kind, fragments[0]);
    }
  }

  lemma LoneMarkerByte(kind: Kind)
    ensures MarkerFree([] + MarkerBytes(kind)[..1])
  {
  }

  lemma EncodedLineIsLine(kind: Kind, fragment: seq<byte>)
    ensures LF !in EncodedLine(kind, fragment)
  {
    EncodePlain(fragment);
    var text := Base64.Encode(fragment);
    assert forall i | 0 <= i < |text| :: WireText(text)[i] == text[i] != LF;
  }

  /** Whatever cut of the packet a sender makes, its lines are read as the packet. */
  lemma SendRoundTrip(max: nat, packet: seq<byte>, fragments: seq<seq<byte>>, chunks: seq<seq<byte>>)
    requires SMP_HEADER_BYTES <= |packet| <= max && |packet| + 2 < 0x1_0000
    requires fragments != [] && Flatten(fragments) == WriteU16(|packet| + 2) + Framed(packet)
    requires Flatten(chunks) == OnWire(Send(fragments, Initial))
    ensures Packets(AcceptAll(max, None, Lines(Flatten(chunks)).lines).records) == [Packet(packet, true, 0)] <==> |fragments[0]| >= 2
  {
    hide Send, OnWire, Lines, AcceptAll, Framed;
    SendScript(fragments, Initial);
    WireRoundTrip(max, packet, Send(fragments, Initial), fragments, chunks);
  }

  /** On the wire no unfinished line is longer than the longest line and its carriage return. */
  lemma {:induction false} UnfinishedIsShort(lines: seq<seq<byte>>, limit: nat, n: nat)
    requires (forall l | l in lines :: |l| < limit && LF !in l) && n <= |OnWire(lines)|
    ensures |Lines(OnWire(lines)[..n]).rest| <= limit
  {
    hide IndexOf, Lines, OnWire;
    var wire := OnWire(lines);
    OnWireStep(lines);
    if lines == [] {
      LinesStep([]);
    } else {
      var first, tail := lines[0] + [CR], OnWire(lines[1..]);
      if n <= |first| {
        assert wire[..n] == first[..n];
        NoTerminator(first[..n]);
      } else {
        var more := tail[..n - |first| - 1];
        assert wire[..n] == first + ([LF] + more);
        AfterTerminator(first, more);
        UnfinishedIsShort(lines[1..], limit, n - |first| - 1);
      }
    }
  }

  lemma OnWireStep(lines: seq<seq<byte>>)
    ensures lines == [] ==> OnWire(lines) == []
    ensures lines != [] ==> lines[0] in lines && OnWire(lines) == lines[0] + [CR] + ([LF] + OnWire(lines[1..]))
  {
  }

  lemma NoTerminator(bytes: seq<byte>)
    requires LF !in bytes
    ensures Lines(bytes) == Split([], bytes)
  {
    LinesStep(bytes);
  }

  lemma AfterTerminator(first: seq<byte>, more: seq<byte>)
    requires LF !in first
    ensures Lines(first + ([LF] + more)).rest == Lines(more).rest
  {
    hide IndexOf, Lines;
    IndexOfConcat(first, [LF] + more, LF);
    assert (first + ([LF] + more))[|first| + 1..] == more;
    LinesStep(first + ([LF] + more));
  }

  lemma WireIsShort(lines: seq<seq<byte>>, chunks: seq<seq<byte>>, limit: nat)
    requires (forall l | l in lines :: |l| < limit && LF !in l) && Flatten(chunks) == OnWire(lines)
    ensures ShortLines(chunks, limit)
  {
    hide Lines, OnWire;
    forall i | 0 <= i <= |chunks| ensures |Lines(Flatten(chunks[..i])).rest| <= limit {
      assert chunks == chunks[..i] + chunks[i..];
      FlattenAppend(chunks[..i], chunks[i..]);
      UnfinishedIsShort(lines, limit, |Flatten(chunks[..i])|);
    }
  }

  /**
   * The decoder, fed any chunks whose lines carry the fragments in order among other lines, whatever ends the lines,
   * delivers the packet, or nothing if the first fragment does not hold the length.
   */
  method Receive(max: nat, packet: seq<byte>, fragments: seq<seq<byte>>, chunks: seq<seq<byte>>, now: int) returns (records: seq<Record>)
    requires SMP_HEADER_BYTES <= |packet| <= max && |packet| + 2 < 0x1_0000
    requires fragments != [] && Flatten(fragments) == WriteU16(|packet| + 2) + Framed(packet)
    requires Script(Lines(Flatten(chunks)).lines, fragments, Initial) && ShortLines(chunks, LineLimit(max))
    ensures Packets(records) == if |fragments[0]| >= 2 then [Packet(packet, true, 0)] else []
  {
    hide Script, Framed, Lines, AcceptAll, Listen, Packets;
    ListenIsLines(max, chunks);
    Reassembly(max, packet, Lines(Flatten(chunks)).lines, fragments);
    records := Replay(max, chunks, now);
  }

  /** A sender's lines are always short enough. */
  lemma {:induction false} SendIsShort(max: nat, fragments: seq<seq<byte>>, kind: Kind)
    requires |Flatten(fragments)| <= max + 4
    ensures forall l | l in Send(fragments, kind) :: |l| < LineLimit(max)
  {
    hide EncodedLine;
    if fragments != [] {
      EncodedLength(kind, fragments[0]);
      SendIsShort(max, fragments[1..], Continuation);
    }
  }

  lemma EncodedLength(kind: Kind, fragment: seq<byte>)
    ensures 3 * |EncodedLine(kind, fragment)| <= 4 * |fragment| + 14
  {
    hide Base64.Encode, Base64.Decode, Base64.Canonical;
    EncodePlain(fragment);
    Base64.RoundTrip(fragment);
    Base64.DecodeLength(Base64.Encode(fragment));
  }

  /** Every legal packet, every cut of it into fragments and every chunking: what was sent is what is received. */
  method SendAndReceive(max: nat, packet: seq<byte>, fragments: seq<seq<byte>>, chunks: seq<seq<byte>>, now: int)
    returns (records: seq<Record>)
    requires SMP_HEADER_BYTES <= |packet| <= max && |packet| + 2 < 0x1_0000
    requires fragments != [] && Flatten(fragments) == WriteU16(|packet| + 2) + Framed(packet)
    requires Flatten(chunks) == OnWire(Send(fragments, Initial))
    ensures Packets(records) == [Packet(packet, true, 0)] <==> |fragments[0]| >= 2
  {
    hide Send, OnWire, Lines, Script, Framed, Packets, ShortLines;
    var lines := Send(fragments, Initial);
    SendScript(fragments, Initial);
    SendIsShort(max, fragments, Initial);
    WireLines(lines);
    WireIsShort(lines, chunks, LineLimit(max));
    records := Receive(max, packet, fragments, chunks, now);
  }

  /** The failing cut, on the smallest packet: its first fragment is the first byte of the length alone. */
  lemma LostPacket()
    ensures var packet: seq<byte> := [0, 0, 0, 0, 0, 0, 0, 0];
            var fragments: seq<seq<byte>> := [[0], [10] + Framed(packet)];
            && Flatten(fragments) == WriteU16(|packet| + 2) + Framed(packet)
            && Yields(AcceptAll(8, None, Send(fragments, Initial)), [])
  {
    hide *;
    var packet: seq<byte> := [0, 0, 0, 0, 0, 0, 0, 0];
    var fragments: seq<seq<byte>> := [[0], [10] + Framed(packet)];
    FlattenTwo([0], [10] + Framed(packet));
    TenInTwoBytes();
    assert [0] + ([10] + Framed(packet)) == WriteU16(|packet| + 2) + Framed(packet);
    SendScript(fragments, Initial);
    Reassembly(8, packet, Send(fragments, Initial), fragments);
  }

  lemma FlattenTwo<T>(a: seq<T>, b: seq<T>)
    ensures Flatten([a, b]) == a + b
  {
    assert [a, b][1..] == [b] && [b][1..] == [];
    assert Flatten([b]) == b + Flatten<T>([]) == b;
  }

  lemma TenInTwoBytes()
    ensures WriteU16(10) == [0, 10] && SMP_HEADER_BYTES == 8
  {
  }
}
