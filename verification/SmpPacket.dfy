/** Splitting one transport packet into its SMP messages, each starting at a multiple of four bytes. */
module SmpPacket {
  import opened Bytes
  import opened Framing

  /** A message is warned about when the padding behind it is not all zero. */
  datatype Part =
    | Message(offset: nat, data: seq<byte>, oddPadding: bool)
    | ShortTail(offset: nat, data: seq<byte>)
    | BadLength(offset: nat, data: seq<byte>)

  function Align(n: nat): (r: nat)
    ensures n <= r < n + 4 && r % 4 == 0
  {
    (n + 3) / 4 * 4
  }

  predicate AllZero(bytes: seq<byte>) {
    forall i | 0 <= i < |bytes| :: bytes[i] == 0
  }

  /** The bytes between the end of a message and the next aligned offset. */
  function PaddingAt(packet: seq<byte>, end: nat): seq<byte>
    requires end <= |packet|
  {
    packet[end..Min(|packet|, Align(end))]
  }

  function SplitFrom(max: nat, packet: seq<byte>, at: nat): seq<Part>
    decreases |packet| - at
  {
    if at >= |packet| then []
    else if |packet| - at < SMP_HEADER_BYTES then [ShortTail(at, packet[at..])]
    else
      var length := SMP_HEADER_BYTES + ReadU16(packet, at + 2);
      if length > max || at + length > |packet| then [BadLength(at, packet[at..])]
      else
        [Message(at, packet[at..at + length], !AllZero(PaddingAt(packet, at + length)))]
        + SplitFrom(max, packet, Align(at + length))
  }

  method DecodeTransportPacket(max: nat, packet: seq<byte>) returns (parts: seq<Part>)
    ensures parts == SplitFrom(max, packet, 0)
  {
    hide SplitFrom, Align, AllZero;
    parts := [];
    var packetOffset := 0;
    assert [] + SplitFrom(max, packet, 0) == SplitFrom(max, packet, 0);
    while packetOffset < |packet|
      invariant parts + SplitFrom(max, packet, packetOffset) == SplitFrom(max, packet, 0)
      decreases |packet| - packetOffset
    {
      SplitCases(max, packet, packetOffset);
      if |packet| - packetOffset < SMP_HEADER_BYTES {
        return parts + [ShortTail(packetOffset, packet[packetOffset..])];
      }
      var dataLength := ReadU16(packet, packetOffset + 2);
      var messageLength := SMP_HEADER_BYTES + dataLength;
      if messageLength > max || packetOffset + messageLength > |packet| {
        return parts + [BadLength(packetOffset, packet[packetOffset..])];
      }
      var message := Message(packetOffset, packet[packetOffset..packetOffset + messageLength], false);
      ghost var before, whole := parts, SplitFrom(max, packet, packetOffset);
      parts := parts + [message];
      packetOffset := packetOffset + messageLength;
      AlignmentEnds(max, packet, packetOffset);
      NoPadding(packet, packetOffset);
      if packetOffset < |packet| {
        var aligned := Min(|packet|, (packetOffset + 3) / 4 * 4);
        if !AllZero(packet[packetOffset..aligned]) {
          parts := parts[|parts| - 1 := message.(oddPadding := true)];
        }
        packetOffset := aligned;
      }
      ghost var tail := SplitFrom(max, packet, packetOffset);
      assert parts == before + [parts[|parts| - 1]] && whole == [parts[|parts| - 1]] + tail;
      assert before + ([parts[|parts| - 1]] + tail) == parts + tail;
    }
    SplitDone(max, packet, packetOffset);
    assert parts + [] == parts;
  }

  lemma SplitCases(max: nat, packet: seq<byte>, at: nat)
    requires at < |packet|
    ensures |packet| - at < SMP_HEADER_BYTES ==> SplitFrom(max, packet, at) == [ShortTail(at, packet[at..])]
    ensures |packet| - at >= SMP_HEADER_BYTES ==>
              var length := SMP_HEADER_BYTES + ReadU16(packet, at + 2);
              if length > max || at + length > |packet| then SplitFrom(max, packet, at) == [BadLength(at, packet[at..])]
              else SplitFrom(max, packet, at) ==
                   [Message(at, packet[at..at + length], !AllZero(PaddingAt(packet, at + length)))]
                   + SplitFrom(max, packet, Align(at + length))
  {
    hide Align, AllZero;
  }

  lemma NoPadding(packet: seq<byte>, end: nat)
    requires end <= |packet|
    ensures end == |packet| ==> AllZero(PaddingAt(packet, end))
    ensures PaddingAt(packet, end) == packet[end..Min(|packet|, (end + 3) / 4 * 4)]
  {
  }

  /** Stopping at the end of the packet, before or after alignment, is the same. */
  lemma AlignmentEnds(max: nat, packet: seq<byte>, at: nat)
    requires at <= |packet|
    ensures SplitFrom(max, packet, Min(|packet|, (at + 3) / 4 * 4)) == SplitFrom(max, packet, Align(at))
    ensures at == |packet| ==> SplitFrom(max, packet, at) == SplitFrom(max, packet, Align(at))
  {
  }

  predicate WellFormed(max: nat, message: seq<byte>) {
    SMP_HEADER_BYTES <= |message| <= max && |message| == SMP_HEADER_BYTES + ReadU16(message, 2)
  }

  function Zeros(n: nat): (z: seq<byte>)
    ensures |z| == n && AllZero(z)
  {
    seq(n, _ => 0)
  }

  /** Messages one after the other, padded with zero bytes to multiples of four in between. */
  function Join(messages: seq<seq<byte>>): seq<byte> {
    if messages == [] then []
    else if |messages| == 1 then messages[0]
    else messages[0] + Zeros(Align(|messages[0]|) - |messages[0]|) + Join(messages[1..])
  }

  /** A well-formed message is split off wherever it begins. */
  lemma SplitHead(max: nat, packet: seq<byte>, at: nat, message: seq<byte>)
    requires WellFormed(max, message) && at + |message| <= |packet| && packet[at..at + |message|] == message
    ensures SplitFrom(max, packet, at) ==
            [Message(at, message, !AllZero(PaddingAt(packet, at + |message|)))] + SplitFrom(max, packet, Align(at + |message|))
  {
    hide Align, SplitFrom, AllZero;
    assert packet[at + 2] == message[2] && packet[at + 3] == message[3];
    SplitCases(max, packet, at);
  }

  /** A packet assembled from well-formed messages splits into exactly those messages, each at an aligned offset. */
  lemma {:induction false} SplitJoin(max: nat, before: seq<byte>, messages: seq<seq<byte>>)
    requires |before| % 4 == 0 && forall m | m in messages :: WellFormed(max, m)
    ensures var parts := SplitFrom(max, before + Join(messages), |before|);
            && |parts| == |messages|
            && forall i | 0 <= i < |messages| ::
                 parts[i].Message? && parts[i].data == messages[i] && parts[i].offset % 4 == 0 && !parts[i].oddPadding
    decreases |messages|
  {
    hide SplitFrom, WellFormed, Zeros, AllZero, Align, PaddingAt, Join;
    var packet := before + Join(messages);
    if messages == [] {
      JoinCases(before, messages);
      SplitDone(max, packet, |before|);
    } else {
      var m := messages[0];
      JoinCases(before, messages);
      SplitHead(max, packet, |before|, m);
      if |messages| == 1 {
        SplitDone(max, packet, Align(|before| + |m|));
      } else {
        SplitJoin(max, before + m + Gap(m), messages[1..]);
      }
    }
  }

  function Gap(message: seq<byte>): seq<byte> {
    Zeros(Align(|message|) - |message|)
  }

  /** Where the first message of a joined packet is, what follows it, and where the next one begins. */
  lemma JoinCases(before: seq<byte>, messages: seq<seq<byte>>)
    requires |before| % 4 == 0
    ensures messages == [] ==> Join(messages) == []
    ensures messages != [] ==>
              var packet, m := before + Join(messages), messages[0];
              && |before| + |m| <= |packet| && packet[|before|..|before| + |m|] == m
              && AllZero(PaddingAt(packet, |before| + |m|))
              && (|messages| == 1 ==> Align(|before| + |m|) >= |packet|)
              && (|messages| > 1 ==>
                    var longer := before + m + Gap(m);
                    packet == longer + Join(messages[1..]) && |longer| % 4 == 0 && Align(|before| + |m|) == |longer|)
  {
    hide AllZero, PaddingAt, Zeros, Align;
    if messages != [] {
      var m := messages[0];
      AlignShifts(|before|, |m|);
      if |messages| == 1 {
        Slice(before, m, []);
        PaddedWithZeros(before, m, Gap(m), []);
        assert m + [] == m;
      } else {
        var rest := Join(messages[1..]);
        Slice(before, m, Gap(m) + rest);
        PaddedWithZeros(before, m, Gap(m), Gap(m) + rest);
        Regrouped(before, m, Gap(m), rest);
      }
    }
  }

  lemma AlignShifts(b: nat, n: nat)
    requires b % 4 == 0
    ensures Align(b + n) == b + Align(n)
  {
  }

  lemma Regrouped(a: seq<byte>, b: seq<byte>, c: seq<byte>, d: seq<byte>)
    ensures b + c + d == b + (c + d) && a + (b + (c + d)) == a + b + c + d
  {
  }

  lemma PaddedWithZeros(before: seq<byte>, m: seq<byte>, gap: seq<byte>, after: seq<byte>)
    requires |before| % 4 == 0 && AllZero(gap) && |gap| == Align(|m|) - |m| && (after == [] || gap <= after)
    ensures AllZero(PaddingAt(before + (m + after), |before| + |m|))
  {
    hide Align, AllZero, PaddingAt;
    if after == [] {
      NoPadding(before + (m + after), |before| + |m|);
    } else {
      assert after == gap + after[|gap|..];
      GapIsPadding(before, m, gap, after[|gap|..]);
    }
  }

  lemma GapIsPadding(before: seq<byte>, m: seq<byte>, gap: seq<byte>, rest: seq<byte>)
    requires |before| % 4 == 0 && |gap| == Align(|m|) - |m|
    ensures PaddingAt(before + (m + (gap + rest)), |before| + |m|) == gap
  {
    hide Align;
    AlignShifts(|before|, |m|);
    Reassociated(before, m, gap + rest);
    Slice(before + m, gap, rest);
  }

  lemma Reassociated(a: seq<byte>, b: seq<byte>, c: seq<byte>)
    ensures a + (b + c) == (a + b) + c
  {
  }

  lemma Slice(before: seq<byte>, middle: seq<byte>, after: seq<byte>)
    ensures (before + (middle + after))[|before|..|before| + |middle|] == middle
  {
  }

  lemma SplitDone(max: nat, packet: seq<byte>, at: nat)
    requires at >= |packet|
    ensures SplitFrom(max, packet, at) == []
  {
  }

  // ----- what the parts are, read off the packet

  /** The first multiple of four from n on. */
  function NextFour(n: nat): nat {
    if n % 4 == 0 then n else n + 4 - n % 4
  }

  /** The parts account for the packet from `at` on: messages at multiples of four, and at most one broken part, the last. */
  ghost predicate Splits(max: nat, packet: seq<byte>, parts: seq<Part>, at: nat)
    decreases |parts|
  {
    if parts == [] then at >= |packet|
    else
      && at < |packet|
      && match parts[0]
         case Message(offset, data, oddPadding) =>
           var end := at + |data|;
           && offset == at && 8 <= |data| <= max && end <= |packet| && data == packet[at..end]
           && |data| == 8 + (data[2] as int) * 256 + data[3]
           && (oddPadding <==> exists i :: end <= i < NextFour(end) && i < |packet| && packet[i] != 0)
           && Splits(max, packet, parts[1..], NextFour(end))
         case ShortTail(offset, data) =>
           offset == at && data == packet[at..] && |data| < 8 && |parts| == 1
         case BadLength(offset, data) =>
           && offset == at && data == packet[at..] && |data| >= 8 && |parts| == 1
           && var stated := 8 + (data[2] as int) * 256 + data[3]; stated > max || stated > |data|
  }

  lemma NextFourIsAlign(n: nat)
    ensures NextFour(n) == Align(n) >= n
  {
  }

  lemma OddIsNotZero(packet: seq<byte>, end: nat)
    requires end <= |packet|
    ensures !AllZero(PaddingAt(packet, end)) <==> exists i :: end <= i < NextFour(end) && i < |packet| && packet[i] != 0
  {
    hide Align;
    NextFourIsAlign(end);
    var padding := PaddingAt(packet, end);
    assert forall i | 0 <= i < |padding| :: padding[i] == packet[end + i];
    if i :| end <= i < NextFour(end) && i < |packet| && packet[i] != 0 {
      assert padding[i - end] == packet[i];
    }
  }

  /** The split accounts for the packet. */
  lemma {:induction false} SplitAccounts(max: nat, packet: seq<byte>, at: nat)
    ensures Splits(max, packet, SplitFrom(max, packet, at), at)
    decreases |packet| - at
  {
    hide SplitFrom, Align, AllZero, NextFour;
    if at >= |packet| {
      SplitDone(max, packet, at);
    } else {
      SplitCases(max, packet, at);
      var length := if |packet| - at >= 8 then 8 + ReadU16(packet, at + 2) else 0;
      if |packet| - at >= 8 && length <= max && at + length <= |packet| {
        NextFourIsAlign(at + length);
        OddIsNotZero(packet, at + length);
        SplitAccounts(max, packet, NextFour(at + length));
        var first := SplitFrom(max, packet, at)[0];
        assert SplitFrom(max, packet, at)[1..] == SplitFrom(max, packet, NextFour(at + length));
      }
    }
  }

  /** And no other list of parts does. */
  lemma {:induction false} OnlySplitAccounts(max: nat, packet: seq<byte>, parts: seq<Part>, at: nat)
    requires Splits(max, packet, parts, at)
    ensures parts == SplitFrom(max, packet, at)
    decreases |parts|
  {
    hide SplitFrom, Align, AllZero, NextFour;
    if parts == [] {
      SplitDone(max, packet, at);
    } else {
      SplitCases(max, packet, at);
      if parts[0].Message? {
        var end := at + |parts[0].data|;
        NextFourIsAlign(end);
        OddIsNotZero(packet, end);
        OnlySplitAccounts(max, packet, parts[1..], NextFour(end));
        assert parts == [parts[0]] + parts[1..];
      } else {
        assert parts == [parts[0]];
      }
    }
  }
}
