/** Delimiter mode once more, as an automaton that reads one byte at a time and never searches. */
module DelimiterAutomaton {
  import opened Bytes
  import opened Framing

  datatype State = State(pending: seq<byte>, pieces: seq<Piece>)

  predicate EndsWith(s: seq<byte>, suffix: seq<byte>) {
    |suffix| <= |s| && s[|s| - |suffix|..] == suffix
  }

  function Step(rule: Rule, s: State, at: nat, b: byte): (next: State)
    requires ValidRule(rule) && rule.Delimited?
  {
    var p, d := s.pending + [b], |rule.delimiter|;
    var shown := if rule.includeDelimiter then |p| else |p| - d;
    if EndsWith(p, rule.delimiter) && shown <= rule.limit then
      State([], s.pieces + [Frame(at, p[..shown], p[shown..])])
    else if |p| > rule.limit then
      State(p[|p| - (d - 1)..], s.pieces + [Dropped(at, p[..|p| - (d - 1)])])
    else
      State(p, s.pieces)
  }

  function Run(rule: Rule, stream: seq<byte>): (s: State)
    requires ValidRule(rule) && rule.Delimited?
    ensures |s.pending| <= |stream|
  {
    if stream == [] then State([], [])
    else
      var before := Run(rule, stream[..|stream| - 1]);
      Step(rule, before, |stream| - 1 - |before.pending|, stream[|stream| - 1])
  }

  /** The first match, if any, in a window that had none before its last byte is at the very end. */
  lemma LastByteMatch(rest: seq<byte>, b: byte, d: seq<byte>)
    requires d != [] && FirstMatch(rest, d, 0) == -1
    ensures FirstMatch(rest + [b], d, 0) == if EndsWith(rest + [b], d) then |rest| + 1 - |d| else -1
  {
    hide FirstMatch, MatchAt, EndsWith;
    var p := rest + [b];
    var m, last := FirstMatch(p, d, 0), |p| - |d|;
    EndsWithIsMatch(p, d);
    if 0 <= m < last {
      MatchAtExtends(rest, [b], d, m);
      assert false;
    } else if m == -1 && 0 <= last {
      assert !MatchAt(p, d, last);
    }
  }

  lemma EndsWithIsMatch(p: seq<byte>, d: seq<byte>)
    ensures EndsWith(p, d) == MatchAt(p, d, |p| - |d|)
    ensures EndsWith(p, d) ==> |d| <= |p|
  {
    if |d| <= |p| {
      assert p[|p| - |d|..] == p[|p| - |d|..|p| - |d| + |d|];
    }
  }

  lemma WaitingHasNoMatch(rule: Rule, rest: seq<byte>)
    requires ValidRule(rule) && rule.Delimited?
    ensures Decide(rule, rest).Wait? <==> |rest| <= rule.limit && FirstMatch(rest, rule.delimiter, 0) == -1
  {
    hide FirstMatch, MatchAt;
    if |rest| <= rule.limit + 1 {
      assert rest[..Min(|rest|, rule.limit + 1)] == rest;
    }
  }

  /** On one more byte the scan and the automaton make the same move. */
  lemma OneByte(rule: Rule, s: State, at: nat, b: byte)
    requires ValidRule(rule) && rule.Delimited? && Decide(rule, s.pending).Wait?
    ensures var o := Scan(rule, s.pending + [b], at);
            Step(rule, s, at, b) == State(o.rest, s.pieces + o.pieces)
  {
    hide FirstMatch, MatchAt, EndsWith, Scan;
    var p, d := s.pending + [b], rule.delimiter;
    WaitingHasNoMatch(rule, s.pending);
    LastByteMatch(s.pending, b, d);
    assert p[..Min(|p|, rule.limit + 1)] == p;
    EndsFits(p, d);
    ScanStep(rule, p, at);
    var move := Decide(rule, p);
    if move.Wait? {
      assert s.pieces + [] == s.pieces;
    } else {
      var tail := p[move.size..];
      assert FirstMatch(tail, d, 0) == -1;
      WaitingHasNoMatch(rule, tail);
      ScanStep(rule, tail, at + move.size);
    }
  }

  lemma EndsFits(p: seq<byte>, d: seq<byte>)
    ensures EndsWith(p, d) ==> |d| <= |p|
  {
  }

  /** The whole-stream scan is exactly the byte-at-a-time automaton. */
  lemma {:induction false} AutomatonIsScan(rule: Rule, stream: seq<byte>)
    requires ValidRule(rule) && rule.Delimited?
    ensures var o := Scan(rule, stream, 0);
            Run(rule, stream) == State(o.rest, o.pieces)
  {
    hide Decide, Step, Scan;
    if stream == [] {
      WaitingHasNoMatch(rule, []);
      ScanStep(rule, [], 0);
    } else {
      var prefix, b := stream[..|stream| - 1], stream[|stream| - 1];
      assert stream == prefix + [b];
      AutomatonIsScan(rule, prefix);
      ScanRest(rule, prefix, 0);
      var before := Run(rule, prefix);
      OneByte(rule, before, |prefix| - |before.pending|, b);
      ScanExtend(rule, prefix, [b], 0);
    }
  }

  /** Every frame ends at the first occurrence of the delimiter in its own bytes, and nowhere else has one. */
  lemma {:induction false} FramesEndAtFirstDelimiter(rule: Rule, stream: seq<byte>, at: nat)
    requires ValidRule(rule) && rule.Delimited?
    ensures forall p | p in Scan(rule, stream, at).pieces && p.Frame? ::
              FirstMatch(p.Raw(), rule.delimiter, 0) == |p.Raw()| - |rule.delimiter|
    decreases |stream|
  {
    hide Decide, FirstMatch, Scan, Cut;
    ScanStep(rule, stream, at);
    var move := Decide(rule, stream);
    if !move.Wait? {
      FramesEndAtFirstDelimiter(rule, stream[move.size..], at + move.size);
      if move.Emit? {
        FirstFrameMinimal(rule, stream);
      }
    }
  }

  lemma FirstFrameMinimal(rule: Rule, stream: seq<byte>)
    requires ValidRule(rule) && rule.Delimited? && Decide(rule, stream).Emit?
    ensures var size := Decide(rule, stream).size;
            FirstMatch(stream[..size], rule.delimiter, 0) == size - |rule.delimiter|
  {
    var window := stream[..Min(|stream|, rule.limit + 1)];
    var d := rule.delimiter;
    var m := FirstMatch(window, d, 0);
    var frame := window[..m + |d|];
    assert frame == stream[..m + |d|];
    assert frame[m..m + |d|] == d;
    assert window == frame + window[m + |d|..];
    assert MatchAt(frame, d, m);
    FirstMatchExtends(frame, window[m + |d|..], d, 0);
  }
}
