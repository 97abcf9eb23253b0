/** What a console line does, by the bytes in it: which marker counts, what is recovered, and what a packet needs. */
module ConsoleLines {
  import opened Bytes
  import opened Wrappers
  import opened Console
  import Base64
  import Crc16

  /** The line's first marker is at i. */
  predicate FirstAt(line: seq<byte>, i: nat) {
    && (InitialAt(line, i) || ContinuationAt(line, i))
    && forall k | 0 <= k < i :: !InitialAt(line, k) && !ContinuationAt(line, k)
  }

  lemma FirstMarkerIs(line: seq<byte>, i: nat)
    requires FirstAt(line, i)
    ensures FirstMarker(line, 0) == Some(Marker(if InitialAt(line, i) then Initial else Continuation, i))
  {
    hide FirstMarker;
    var m := FirstMarker(line, 0);
    assert m.Some? && m.value.index == i;
  }

  // ----- a line whose text decodes

  function Restart(partial: Option<Partial>): seq<Record> {
    if partial.Some? then [Fault(Restarted)] else []
  }

  /** What becomes of a packet that now has these bytes: it is out as soon as there are enough of them. */
  predicate Turned(e: Effect, before: seq<Record>, expected: nat, body: seq<byte>) {
    if |body| < expected then e == Effect(Some(Partial(expected, body)), before)
    else
      && expected >= 2
      && var packet, sum := body[..expected - 2], (body[expected - 2] as int) * 256 + body[expected - 1];
         e == Effect(None, before + [Packet(packet, Crc16.Crc(packet) == sum, |body| - expected)])
  }

  lemma FinishTurns(p: Partial, before: seq<Record>)
    requires p.expectedBytes >= 2
    ensures Turned(Finish(p).After(before), before, p.expectedBytes, p.body)
  {
    hide Crc16.Crc, Crc16.CrcValid;
    if |p.body| >= p.expectedBytes {
      CrcTest(p.body[..p.expectedBytes]);
      assert p.body[..p.expectedBytes][..p.expectedBytes - 2] == p.body[..p.expectedBytes - 2];
    } else {
      assert before + [] == before;
    }
  }

  /** An initial marker: a packet in the making is given up, and the fragment must hold a legal length. */
  lemma InitialLine(max: nat, partial: Option<Partial>, line: seq<byte>, i: nat, fragment: seq<byte>)
    requires FirstAt(line, i) && InitialAt(line, i) && DecodeFragment(line[i + 2..]) == Some(fragment)
    ensures var e := Accept(max, partial, line, 0);
            if |fragment| < 2 then e == Effect(None, Restart(partial) + [Fault(LengthMissing)])
            else
              var expected := (fragment[0] as int) * 256 + fragment[1];
              if expected < 10 || expected > max + 2 then e == Effect(None, Restart(partial) + [Fault(LengthInvalid)])
              else Turned(e, Restart(partial), expected, fragment[2..])
  {
    hide FirstMarker, DecodeFragment, Finish, NextInitial, Turned;
    FirstMarkerIs(line, i);
    FragmentHides(line, i + 2);
    if |fragment| >= 2 {
      var expected := ReadU16(fragment, 0);
      if 10 <= expected { FinishTurns(Partial(expected, fragment[2..]), Restart(partial)); }
    }
  }

  /** A continuation marker: its fragment goes to the packet in the making, and without one it is an orphan. */
  lemma ContinuationLine(max: nat, partial: Option<Partial>, line: seq<byte>, i: nat, fragment: seq<byte>)
    requires FirstAt(line, i) && ContinuationAt(line, i) && DecodeFragment(line[i + 2..]) == Some(fragment)
    requires partial.Some? ==> partial.value.expectedBytes >= 2
    ensures var e := Accept(max, partial, line, 0);
            if partial.None? then e == Effect(None, [Fault(OrphanContinuation)])
            else Turned(e, [], partial.value.expectedBytes, partial.value.body + fragment)
  {
    hide FirstMarker, DecodeFragment, Finish, NextInitial, Turned;
    FirstMarkerIs(line, i);
    FragmentHides(line, i + 2);
    if partial.Some? {
      var p := partial.value.(body := partial.value.body + fragment);
      FinishTurns(p, []);
      assert [] + Finish(p).records == Finish(p).records;
    }
  }

  // ----- a line whose text does not decode

  function Broken(n: nat): seq<Record> {
    seq(n, _ => Fault(InvalidBase64))
  }

  /** Each initial marker of the line is the next one behind the text of the one before, which does not decode. */
  predicate Chain(line: seq<byte>, js: seq<nat>) {
    && js != [] && (forall k | 0 <= k < |js| :: InitialAt(line, js[k]))
    && forall k, l | 0 <= k < |js| && 0 <= l < |js| && l == k + 1 ::
         && js[k] + 2 <= js[l] && DecodeFragment(line[js[k] + 2..]).None?
         && forall x | js[k] + 2 <= x < js[l] :: !InitialAt(line, x)
  }

  lemma {:induction false} NextInitialIs(line: seq<byte>, from: nat, j: nat)
    requires from <= j && InitialAt(line, j) && forall x | from <= x < j :: !InitialAt(line, x)
    ensures NextInitial(line, from) == Some(j)
    decreases j - from
  {
    if from < j { NextInitialIs(line, from + 1, j); }
  }

  lemma InitialShifts(line: seq<byte>, from: nat, k: nat)
    requires from <= |line|
    ensures InitialAt(line[from..], k) == InitialAt(line, from + k)
  {
  }

  lemma NextInSuffix(line: seq<byte>, i: nat, j: nat)
    requires i + 2 <= j && InitialAt(line, j) && forall x | i + 2 <= x < j :: !InitialAt(line, x)
    ensures i <= |line| && NextInitial(line[i..], 2) == Some(j - i)
  {
    hide InitialAt;
    assert j + 1 < |line| by { AtMarker(line, j); }
    InitialShifts(line, i, j - i);
    forall x | 2 <= x < j - i ensures !InitialAt(line[i..], x) {
      InitialShifts(line, i, x);
    }
    NextInitialIs(line[i..], 2, j - i);
  }

  lemma AtMarker(line: seq<byte>, j: nat)
    requires InitialAt(line, j)
    ensures j + 1 < |line|
  {
  }

  /** One turn of the recovery: the fault, and the rest of the line from the next initial marker on. */
  lemma RecoveryStep(max: nat, line: seq<byte>, i: nat, j: nat, depth: nat)
    requires InitialAt(line, i) && DecodeFragment(line[i + 2..]).None?
    requires i + 2 <= j && InitialAt(line, j) && forall x | i + 2 <= x < j :: !InitialAt(line, x)
    ensures Accept(max, None, line[i..], depth) ==
            if depth >= 32 then Effect(None, [Fault(InvalidBase64)])
            else Accept(max, None, line[j..], depth + 1).After([Fault(InvalidBase64)])
  {
    hide FirstMarker, DecodeFragment, NextInitial, Finish;
    InitialShifts(line, i, 0);
    FirstMarkerIs(line[i..], 0);
    NextInSuffix(line, i, j);
    assert line[i..][2..] == line[i + 2..] && line[i..][j - i..] == line[j..];
  }

  /** At the end of the chain: a text that decodes to a whole packet. */
  lemma ChainEnd(max: nat, packet: seq<byte>, line: seq<byte>, j: nat, depth: nat)
    requires 8 <= |packet| <= max && |packet| + 2 < 0x1_0000 && InitialAt(line, j)
    requires DecodeFragment(line[j + 2..]) == Some(WriteU16(|packet| + 2) + Framed(packet))
    ensures Accept(max, None, line[j..], depth) == Effect(None, [Packet(packet, true, 0)])
  {
    hide FirstMarker, DecodeFragment, NextInitial, Framed, Crc16.CrcValid;
    InitialShifts(line, j, 0);
    FirstMarkerIs(line[j..], 0);
    assert line[j..][2..] == line[j + 2..];
    var length, framed := WriteU16(|packet| + 2), Framed(packet);
    var fragment := length + framed;
    assert fragment[2..] == framed && framed[..|framed|] == framed && fragment[0] == length[0] && fragment[1] == length[1];
    assert ReadU16(fragment, 0) == |packet| + 2;
  }

  lemma {:induction false} ChainRecovers(max: nat, packet: seq<byte>, line: seq<byte>, js: seq<nat>, depth: nat)
    requires 8 <= |packet| <= max && |packet| + 2 < 0x1_0000 && Chain(line, js) && depth <= 32
    requires DecodeFragment(line[js[|js| - 1] + 2..]) == Some(WriteU16(|packet| + 2) + Framed(packet))
    ensures var broken := |js| - 1;
            Accept(max, None, line[js[0]..], depth) ==
            if depth + broken <= 32 then Effect(None, Broken(broken) + [Packet(packet, true, 0)])
            else Effect(None, Broken(33 - depth))
    decreases |js|
  {
    hide DecodeFragment, Framed, Accept, InitialAt;
    if |js| == 1 {
      ChainEnd(max, packet, line, js[0], depth);
      assert Broken(0) == [];
    } else {
      assert js[0] + 2 <= js[1];
      RecoveryStep(max, line, js[0], js[1], depth);
      if depth < 32 {
        ShorterChain(line, js);
        ChainRecovers(max, packet, line, js[1..], depth + 1);
        assert [Fault(InvalidBase64)] + (Broken(|js| - 2) + [Packet(packet, true, 0)]) == Broken(|js| - 1) + [Packet(packet, true, 0)];
        assert [Fault(InvalidBase64)] + Broken(32 - depth) == Broken(33 - depth);
      }
    }
  }

  lemma ShorterChain(line: seq<byte>, js: seq<nat>)
    requires Chain(line, js) && |js| > 1
    ensures Chain(line, js[1..])
  {
    hide DecodeFragment;
    var rest := js[1..];
    forall k, l | 0 <= k < |rest| && 0 <= l < |rest| && l == k + 1
      ensures rest[k] + 2 <= rest[l] && DecodeFragment(line[rest[k] + 2..]).None?
      ensures forall x | rest[k] + 2 <= x < rest[l] :: !InitialAt(line, x)
    {
      assert rest[k] == js[k + 1] && rest[l] == js[l + 1];
    }
  }

  /**
   * Recovery.  The line's first marker and those behind it are followed by text that does not decode, up to one that is
   * followed by a whole packet: the packet is delivered if and only if at most 32 markers came before, and each of the
   * first 33 that fail is reported.
   */
  lemma Recovered(max: nat, partial: Option<Partial>, packet: seq<byte>, line: seq<byte>, i: nat, js: seq<nat>)
    requires 8 <= |packet| <= max && |packet| + 2 < 0x1_0000
    requires FirstAt(line, i) && DecodeFragment(line[i + 2..]).None?
    requires Chain(line, js) && i + 2 <= js[0] && forall x | i + 2 <= x < js[0] :: !InitialAt(line, x)
    requires DecodeFragment(line[js[|js| - 1] + 2..]) == Some(WriteU16(|packet| + 2) + Framed(packet))
    ensures var restart := if InitialAt(line, i) then Restart(partial) else [];
            Accept(max, partial, line, 0) ==
            if |js| <= 32 then Effect(None, restart + Broken(|js|) + [Packet(packet, true, 0)])
            else Effect(None, restart + Broken(33))
  {
    hide FirstMarker, DecodeFragment, NextInitial, Finish, Framed, Chain;
    FirstMarkerIs(line, i);
    ChainHead(line, js);
    NextInitialIs(line, i + 2, js[0]);
    ChainRecovers(max, packet, line, js, 1);
    var restart := if InitialAt(line, i) then Restart(partial) else [];
    var fault := [Fault(InvalidBase64)];
    assert (restart + fault) + (Broken(|js| - 1) + [Packet(packet, true, 0)]) == restart + Broken(|js|) + [Packet(packet, true, 0)];
    assert (restart + fault) + Broken(32) == restart + Broken(33);
  }

  lemma ChainHead(line: seq<byte>, js: seq<nat>)
    requires Chain(line, js)
    ensures js != [] && InitialAt(line, js[0])
  {
  }

  /** Nothing to recover: the text does not decode and no initial marker follows it. */
  lemma NotRecovered(max: nat, partial: Option<Partial>, line: seq<byte>, i: nat)
    requires FirstAt(line, i) && DecodeFragment(line[i + 2..]).None? && forall x | i + 2 <= x :: !InitialAt(line, x)
    ensures Accept(max, partial, line, 0) ==
            Effect(None, (if InitialAt(line, i) then Restart(partial) else []) + [Fault(InvalidBase64)])
  {
    hide FirstMarker, DecodeFragment, Finish;
    FirstMarkerIs(line, i);
    assert NextInitial(line, i + 2).None?;
    var restart := if InitialAt(line, i) then Restart(partial) else [];
    assert (restart + [Fault(InvalidBase64)]) + [] == restart + [Fault(InvalidBase64)];
  }

  /** A line without a marker does nothing. */
  lemma PlainLine(max: nat, partial: Option<Partial>, line: seq<byte>)
    requires forall k: nat :: !InitialAt(line, k) && !ContinuationAt(line, k)
    ensures Accept(max, partial, line, 0) == Effect(partial, [])
  {
    hide FirstMarker;
    var m := FirstMarker(line, 0);
  }

  /** A damaged line in front of a whole one: the marker, anything but another marker's first byte, then the whole line. */
  lemma DamagedThenWhole(max: nat, partial: Option<Partial>, packet: seq<byte>, kind: Kind, junk: seq<byte>)
    requires 8 <= |packet| <= max && |packet| + 2 < 0x1_0000 && 0x06 !in junk
    ensures var line := MarkerBytes(kind) + junk + EncodedLine(Initial, WriteU16(|packet| + 2) + Framed(packet));
            var restart := if kind == Initial then Restart(partial) else [];
            Accept(max, partial, line, 0) == Effect(None, restart + [Fault(InvalidBase64), Packet(packet, true, 0)])
  {
    hide DecodeFragment, Framed, Accept, EncodedLine, NextInitial;
    var full := WriteU16(|packet| + 2) + Framed(packet);
    var whole := EncodedLine(Initial, full);
    var line := MarkerBytes(kind) + junk + whole;
    var j := 2 + |junk|;
    WholeLine(full);
    assert line[j..] == whole && line[j + 2..] == whole[2..];
    assert line[j] == 0x06 && line[j + 1] == 0x09;
    assert FirstAt(line, 0);
    assert forall x | 2 <= x < j :: line[x] == junk[x - 2];
    if DecodeFragment(line[2..]).Some? {
      FragmentHides(line, 2);
      NextInitialIs(line, 2, j);
      assert false;
    }
    assert Chain(line, [j]);
    Recovered(max, partial, packet, line, 0, [j]);
    assert Broken(1) == [Fault(InvalidBase64)];
  }

  lemma WholeLine(fragment: seq<byte>)
    ensures var line := EncodedLine(Initial, fragment);
            |line| >= 2 && line[0] == 0x06 && line[1] == 0x09 && DecodeFragment(line[2..]) == Some(fragment)
  {
    hide DecodeFragment;
    EncodePlain(fragment);
    CarriedText(fragment);
    assert EncodedLine(Initial, fragment)[2..] == WireText(Base64.Encode(fragment));
  }

  // ----- packets of any content, right or wrong

  /** How many fragments it takes until there are `needed` bytes, counting from `size`. */
  function Enough(size: nat, fragments: seq<seq<byte>>, needed: nat): (k: nat)
    ensures k <= |fragments|
    decreases |fragments|
  {
    if size >= needed || fragments == [] then 0 else 1 + Enough(size + |fragments[0]|, fragments[1..], needed)
  }

  lemma {:induction false} EnoughIs(size: nat, fragments: seq<seq<byte>>, needed: nat)
    ensures var k := Enough(size, fragments, needed);
            && (k < |fragments| ==> size + |Flatten(fragments[..k])| >= needed)
            && forall l | 0 <= l < k :: size + |Flatten(fragments[..l])| < needed
    decreases |fragments|
  {
    if size < needed && fragments != [] {
      EnoughIs(size + |fragments[0]|, fragments[1..], needed);
      FlattenFront(fragments);
      var k := Enough(size, fragments, needed);
      forall l | 0 <= l < k ensures size + |Flatten(fragments[..l])| < needed {
        if l > 0 {
          assert Flatten(fragments[..(l - 1) + 1]) == fragments[0] + Flatten(fragments[1..][..l - 1]);
        } else {
          assert fragments[..0] == [];
        }
      }
    } else {
      assert fragments[..0] == [];
    }
  }

  lemma FlattenFront(fragments: seq<seq<byte>>)
    requires fragments != []
    ensures forall l | 0 <= l < |fragments| :: Flatten(fragments[..l + 1]) == fragments[0] + Flatten(fragments[1..][..l])
  {
    forall l | 0 <= l < |fragments| ensures Flatten(fragments[..l + 1]) == fragments[0] + Flatten(fragments[1..][..l]) {
      assert fragments[..l + 1][1..] == fragments[1..][..l];
    }
  }

  /** The packets shown when these bytes have come together: one if they are enough, with its checksum tested. */
  predicate ShowsOnce(e: Effect, expected: nat, body: seq<byte>) {
    if |body| < expected then Packets(e.records) == [] && e.partial == Some(Partial(expected, body))
    else
      && expected >= 2
      && var packet, sum := body[..expected - 2], (body[expected - 2] as int) * 256 + body[expected - 1];
         Yields(e, [Packet(packet, Crc16.Crc(packet) == sum, |body| - expected)])
  }

  lemma CarriedContinues(max: nat, p: Partial, line: seq<byte>, fragment: seq<byte>)
    requires Carries(line, Continuation, fragment) && p.expectedBytes >= 2
    ensures Turned(Accept(max, Some(p), line, 0), [], p.expectedBytes, p.body + fragment)
  {
    hide FirstMarker, DecodeFragment, Accept, Turned;
    ContinuationLine(max, Some(p), line, FirstMarker(line, 0).value.index, fragment);
  }

  lemma EnoughNext(size: nat, fragments: seq<seq<byte>>, needed: nat)
    requires size < needed && fragments != []
    ensures Enough(size, fragments, needed) == 1 + Enough(size + |fragments[0]|, fragments[1..], needed)
    ensures size + |fragments[0]| >= needed ==> Enough(size, fragments, needed) == 1
    ensures Flatten(fragments[..1]) == fragments[0]
  {
    var one := fragments[..1];
    assert one[1..] == [] && one[0] == fragments[0];
  }

  lemma OnePacket(r: Record)
    requires r.Packet?
    ensures Packets([r]) == [r]
  {
    assert [r][1..] == [];
  }

  lemma SameShow(a: Effect, b: Effect, expected: nat, body: seq<byte>)
    requires a.partial == b.partial && Packets(a.records) == Packets(b.records) && ShowsOnce(b, expected, body)
    ensures ShowsOnce(a, expected, body)
  {
    hide Crc16.Crc, Packets;
  }

  /** A line with enough bytes, and only orphans after it. */
  lemma TurnedShows(all: Effect, first: Effect, later: Effect, expected: nat, body: seq<byte>)
    requires Turned(first, [], expected, body) && |body| >= expected && Yields(later, [])
    requires all.partial == later.partial && Packets(all.records) == Packets(first.records) + Packets(later.records)
    ensures first.partial.None? && ShowsOnce(all, expected, body)
  {
    hide Crc16.Crc;
    assert first.records == [first.records[0]];
    OnePacket(first.records[0]);
  }

  lemma TurnedWaits(first: Effect, expected: nat, body: seq<byte>)
    requires Turned(first, [], expected, body) && |body| < expected
    ensures first == Effect(Some(Partial(expected, body)), [])
  {
  }

  lemma NothingMore(max: nat, expected: nat, body: seq<byte>)
    requires |body| < expected
    ensures ShowsOnce(AcceptAll(max, Some(Partial(expected, body)), []), expected, body + Flatten([]))
  {
    assert body + Flatten([]) == body;
  }

  lemma ScriptCases(lines: seq<seq<byte>>, fragments: seq<seq<byte>>, kind: Kind)
    requires Script(lines, fragments, kind)
    ensures lines == [] ==> fragments == []
    ensures lines != [] ==>
              || (MarkerFree(lines[0]) && Script(lines[1..], fragments, kind))
              || (fragments != [] && Carries(lines[0], kind, fragments[0]) && Script(lines[1..], fragments[1..], Continuation))
  {
    hide MarkerFree, Carries;
  }

  lemma {:induction false} Assembles(max: nat, expected: nat, body: seq<byte>, lines: seq<seq<byte>>, fragments: seq<seq<byte>>)
    requires Script(lines, fragments, Continuation) && |body| < expected && expected >= 2
    ensures var k := Enough(|body|, fragments, expected);
            ShowsOnce(AcceptAll(max, Some(Partial(expected, body)), lines), expected, body + Flatten(fragments[..k]))
    decreases |lines|
  {
    hide *;
    var p := Partial(expected, body);
    ScriptCases(lines, fragments, Continuation);
    var k := Enough(|body|, fragments, expected);
    if lines == [] {
      assert fragments[..k] == [];
      NothingMore(max, expected, body);
    } else {
      AcceptNext(max, Some(p), lines);
      var all := AcceptAll(max, Some(p), lines);
      var first := Accept(max, Some(p), lines[0], 0);
      var later := AcceptAll(max, first.partial, lines[1..]);
      if MarkerFree(lines[0]) && Script(lines[1..], fragments, Continuation) {
        Assembles(max, expected, body, lines[1..], fragments);
        assert Packets(all.records) == Packets(later.records);
        SameShow(all, later, expected, body + Flatten(fragments[..k]));
      } else {
        var longer := body + fragments[0];
        CarriedContinues(max, p, lines[0], fragments[0]);
        EnoughNext(|body|, fragments, expected);
        if |longer| >= expected {
          OrphansPass(max, lines[1..], fragments[1..]);
          if first.partial.None? { TurnedShows(all, first, later, expected, longer); }
          TurnedEnds(first, expected, longer);
        } else {
          TurnedWaits(first, expected, longer);
          Assembles(max, expected, longer, lines[1..], fragments[1..]);
          var rest := Enough(|longer|, fragments[1..], expected);
          FlattenFront(fragments);
          assert rest < |fragments| && k == rest + 1;
          Joined(body, fragments[0], Flatten(fragments[1..][..rest]));
          assert Packets(all.records) == Packets(later.records);
          SameShow(all, later, expected, body + Flatten(fragments[..k]));
        }
      }
    }
  }

  lemma TurnedEnds(first: Effect, expected: nat, body: seq<byte>)
    requires Turned(first, [], expected, body) && |body| >= expected
    ensures first.partial.None?
  {
  }

  lemma Joined(a: seq<byte>, b: seq<byte>, c: seq<byte>)
    ensures a + (b + c) == (a + b) + c
  {
  }

  /**
   * Any packet, right or wrong: lines carry fragments among other lines, the first of them states a legal length.  As soon
   * as there are that many bytes behind the length, they are delivered, once, with the checksum tested against their
   * last two and what is too much counted; while there are fewer, nothing is.
   */
  lemma {:induction false} AnyPacket(max: nat, lines: seq<seq<byte>>, fragments: seq<seq<byte>>)
    requires fragments != [] && |fragments[0]| >= 2 && Script(lines, fragments, Initial)
    requires 10 <= (fragments[0][0] as int) * 256 + fragments[0][1] <= max + 2
    ensures var expected := (fragments[0][0] as int) * 256 + fragments[0][1];
            var k := Enough(|fragments[0]| - 2, fragments[1..], expected);
            ShowsOnce(AcceptAll(max, None, lines), expected, fragments[0][2..] + Flatten(fragments[1..][..k]))
    decreases |lines|
  {
    hide *;
    ScriptCases(lines, fragments, Initial);
    AcceptNext(max, None, lines);
    var head := fragments[0];
    var expected, body: seq<byte> := (head[0] as int) * 256 + head[1], head[2..];
    var k := Enough(|body|, fragments[1..], expected);
    var all, first := AcceptAll(max, None, lines), Accept(max, None, lines[0], 0);
    var later := AcceptAll(max, first.partial, lines[1..]);
    if MarkerFree(lines[0]) && Script(lines[1..], fragments, Initial) {
      AnyPacket(max, lines[1..], fragments);
      assert Packets(all.records) == Packets(later.records);
      SameShow(all, later, expected, body + Flatten(fragments[1..][..k]));
    } else {
      CarriedBegins(max, lines[0], head);
      if |body| >= expected {
        EnoughAtOnce(body, fragments[1..], expected);
        TurnedEnds(first, expected, body);
        OrphansPass(max, lines[1..], fragments[1..]);
        TurnedShows(all, first, later, expected, body);
      } else {
        TurnedWaits(first, expected, body);
        Assembles(max, expected, body, lines[1..], fragments[1..]);
        assert Packets(all.records) == Packets(later.records);
        SameShow(all, later, expected, body + Flatten(fragments[1..][..k]));
      }
    }
  }

  lemma CarriedBegins(max: nat, line: seq<byte>, fragment: seq<byte>)
    requires Carries(line, Initial, fragment) && |fragment| >= 2 && 10 <= (fragment[0] as int) * 256 + fragment[1] <= max + 2
    ensures Turned(Accept(max, None, line, 0), [], (fragment[0] as int) * 256 + fragment[1], fragment[2..])
  {
    hide FirstMarker, DecodeFragment, Accept, Turned;
    InitialLine(max, None, line, FirstMarker(line, 0).value.index, fragment);
  }

  lemma EnoughAtOnce(body: seq<byte>, fragments: seq<seq<byte>>, expected: nat)
    requires |body| >= expected
    ensures Enough(|body|, fragments, expected) == 0 && body + Flatten(fragments[..0]) == body
  {
    assert fragments[..0] == [];
  }

  /** A burst of up to sixteen bits on the way is reported: the packet arrives, and not as a valid one. */
  lemma BurstReported(max: nat, lines: seq<seq<byte>>, fragments: seq<seq<byte>>, sent: seq<byte>, received: seq<byte>,
                      i: nat, burst: Crc16.word, k: nat)
    requires Script(lines, fragments, Initial) && fragments != [] && |fragments[0]| >= 2
    requires 10 <= |sent| <= max + 2 && |sent| < 0x1_0000 && Crc16.CrcValid(sent)
    requires Crc16.DiffersByBurst(sent, received, i, burst, k) && Flatten(fragments) == WriteU16(|sent|) + received
    ensures Packets(AcceptAll(max, None, lines).records) == [Packet(received[..|received| - 2], false, 0)]
  {
    hide Script, AcceptAll, Crc16.Crc, Crc16.DiffersByBurst, Enough, Flatten, Packets;
    Crc16.BurstDetected(sent, received, i, burst, k);
    SameSize(sent, received, i, burst, k);
    var head, rest := fragments[0], fragments[1..];
    WholeIs(fragments, |sent|, received);
    AnyPacket(max, lines, fragments);
    var n := Enough(|head| - 2, rest, |sent|);
    EnoughIs(|head| - 2, rest, |sent|);
    PrefixIs(rest, n);
    var front := Flatten(rest[..n]);
    assert |head[2..] + front| == |sent| && head[2..] + front == received;
  }

  lemma PrefixIs(fragments: seq<seq<byte>>, n: nat)
    requires n <= |fragments|
    ensures Flatten(fragments) == Flatten(fragments[..n]) + Flatten(fragments[n..])
    ensures n == |fragments| ==> Flatten(fragments[..n]) == Flatten(fragments)
  {
    assert fragments == fragments[..n] + fragments[n..];
    FlattenAppend(fragments[..n], fragments[n..]);
    assert n == |fragments| ==> fragments[..n] == fragments;
  }

  lemma WholeIs(fragments: seq<seq<byte>>, length: nat, bytes: seq<byte>)
    requires fragments != [] && |fragments[0]| >= 2 && length < 0x1_0000 && Flatten(fragments) == WriteU16(length) + bytes
    ensures (fragments[0][0] as int) * 256 + fragments[0][1] == length && fragments[0][2..] + Flatten(fragments[1..]) == bytes
  {
    var all, head := WriteU16(length), fragments[0];
    assert Flatten(fragments) == head + Flatten(fragments[1..]);
    assert Flatten(fragments)[0] == head[0] == all[0] && Flatten(fragments)[1] == head[1] == all[1];
    assert (head + Flatten(fragments[1..]))[2..] == head[2..] + Flatten(fragments[1..]) && (all + bytes)[2..] == bytes;
  }

  lemma SameSize(sent: seq<byte>, received: seq<byte>, i: nat, burst: Crc16.word, k: nat)
    requires Crc16.DiffersByBurst(sent, received, i, burst, k)
    ensures |sent| == |received|
  {
  }

  // ----- the text behind a marker

  /** The bytes that count as white space: tab to carriage return, blank, and the no-break space of windows-1252. */
  predicate IsBlank(b: byte) {
    9 <= b <= 13 || b == 32 || b == 160
  }

  lemma {:induction false} CompactConcat(a: seq<byte>, b: seq<byte>)
    ensures Compact(a + b) == Compact(a) + Compact(b)
  {
    hide DecodeByte, IsSpace;
    if a == [] {
      assert a + b == b;
    } else {
      assert (a + b)[1..] == a[1..] + b;
      CompactConcat(a[1..], b);
    }
  }

  lemma CompactOne(b: byte)
    ensures Compact([b]) == if IsBlank(b) then [] else [DecodeByte(b)]
    ensures b < 128 ==> DecodeByte(b) == b
    ensures b >= 128 ==> DecodeByte(b) >= 128
  {
    assert [b][1..] == [];
    assert forall i | 0 <= i < |C1_TABLE| :: C1_TABLE[i] >= 128 && !IsSpace(C1_TABLE[i]);
  }

  /** White space does not matter, wherever it is. */
  lemma BlanksDoNotMatter(a: seq<byte>, blank: byte, b: seq<byte>)
    requires IsBlank(blank)
    ensures DecodeFragment(a + [blank] + b) == DecodeFragment(a + b)
  {
    hide Compact;
    CompactOne(blank);
    CompactConcat(a, b);
    CompactConcat(a, [blank]);
    CompactConcat(a + [blank], b);
    assert Compact(a + [blank] + b) == Compact(a + b);
  }

  /** The letters of the alphabet, the digits, plus, slash and the pad. */
  predicate OfAlphabet(b: byte) {
    65 <= b <= 90 || 97 <= b <= 122 || 48 <= b <= 57 || b == 43 || b == 47 || b == 61
  }

  /** Any other byte spoils the fragment. */
  lemma OthersSpoil(a: seq<byte>, other: byte, b: seq<byte>)
    requires !IsBlank(other) && !OfAlphabet(other)
    ensures DecodeFragment(a + [other] + b).None?
  {
    hide Compact;
    CompactOne(other);
    CompactConcat(a, [other]);
    CompactConcat(a + [other], b);
    var text := Compact(a + [other] + b);
    assert text[|Compact(a)|] == DecodeByte(other);
    if Base64.Canonical(text) {
      CanonicalIsAlphabet(text, |Compact(a)|);
    }
  }

  lemma {:induction false} CanonicalIsAlphabet(text: Base64.Text, i: nat)
    requires Base64.Canonical(text) && i < |text|
    ensures text[i] < 128 && OfAlphabet(text[i])
  {
    if |text| > 4 && i >= 4 {
      CanonicalIsAlphabet(text[4..], i - 4);
    } else if |text| > 4 {
      assert text[i] == text[..4][i];
    }
  }
}
