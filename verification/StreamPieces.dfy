/**
 * What the frames and dropped stretches of a stream are, read off its bytes alone.
 *
 * Nothing here knows how a decoder decides or what it waits for: a list of pieces is judged by the bytes it covers, and
 * exactly one list passes, that of the scan.
 */
module StreamPieces {
  import opened Bytes
  import opened Framing

  /** The bytes `pattern` stand at index i. */
  predicate StandsAt(view: seq<byte>, pattern: seq<byte>, i: nat) {
    i + |pattern| <= |view| && forall k | 0 <= k < |pattern| :: view[i + k] == pattern[k]
  }

  /** The value of a length field of one, two or four bytes. */
  function Length(f: seq<byte>, bigEndian: bool): nat
    requires |f| in {1, 2, 4}
  {
    if |f| == 1 then f[0]
    else if |f| == 2 then
      if bigEndian then (f[0] as int) * 0x100 + f[1] else f[0] + (f[1] as int) * 0x100
    else if bigEndian then (f[0] as int) * 0x100_0000 + (f[1] as int) * 0x1_0000 + (f[2] as int) * 0x100 + f[3]
    else f[0] + (f[1] as int) * 0x100 + (f[2] as int) * 0x1_0000 + (f[3] as int) * 0x100_0000
  }

  /** The eight bytes of an SMP header: three bits zero, an operation up to 3, and a total length within the limit. */
  predicate IsHeader(view: seq<byte>, limit: nat) {
    |view| >= 8 && view[0] < 32 && view[0] % 8 <= 3 && 8 + (view[2] as int) * 256 + view[3] <= limit
  }

  /** How far into the stream a delimited frame may reach: one byte more if its delimiter is not shown. */
  function Reach(limit: nat, keep: bool): nat {
    if keep then limit else limit + 1
  }

  /** `p` is what comes first in `view`. */
  predicate ComesFirst(rule: Rule, p: Piece, view: seq<byte>)
    requires ValidRule(rule)
  {
    match rule
    case Fixed(n) => p.Frame? && n <= |view| && p.data == view[..n] && p.trailer == []
    case Delimited(d, keep, limit) =>
      if p.Frame? then
        // The message ends where the delimiter stands first.
        var m := |p.data| + |p.trailer| - |d|;
        && m >= 0 && m + |d| <= |view| && m + |d| <= Reach(limit, keep) && StandsAt(view, d, m)
        && (forall i: nat | i < m :: !StandsAt(view, d, i))
        && p.data + p.trailer == view[..m + |d|] && |p.trailer| == (if keep then 0 else |d|)
      else
        // Too much without a delimiter: all goes but what could begin one.
        && |view| > limit && p.data == view[..limit + 2 - |d|]
        && forall i: nat | i + |d| <= Reach(limit, keep) :: !StandsAt(view, d, i)
    case LengthPrefixed(offset, size, bigEndian, adjust) =>
      && offset + size <= |view|
      && var total := adjust + Length(view[offset..offset + size], bigEndian);
         if p.Frame? then offset + size <= total <= 0x10_0000 && total <= |view| && p.data == view[..total] && p.trailer == []
         else (total < offset + size || total > 0x10_0000) && p.data == view[..1]
    case RawSmp(limit) =>
      && |view| >= 8
      && if p.Frame? then
           var total := 8 + (view[2] as int) * 256 + view[3];
           IsHeader(view, limit) && total <= |view| && p.data == view[..total] && p.trailer == []
         else !IsHeader(view, limit) && p.data == view[..1]
  }

  /** Nothing comes first in `view` yet. */
  predicate NothingYet(rule: Rule, view: seq<byte>)
    requires ValidRule(rule)
  {
    match rule
    case Fixed(n) => |view| < n
    case Delimited(d, keep, limit) => |view| <= limit && forall i: nat | i < |view| :: !StandsAt(view, d, i)
    case LengthPrefixed(offset, size, bigEndian, adjust) =>
      offset + size <= |view| ==>
        var total := adjust + Length(view[offset..offset + size], bigEndian);
        offset + size <= total <= 0x10_0000 && |view| < total
    case RawSmp(limit) => |view| >= 8 ==> IsHeader(view, limit) && |view| < 8 + (view[2] as int) * 256 + view[3]
  }

  /** The pieces cover the stream from `at` on, one after the other, and each comes first in what was left for it. */
  ghost predicate Reads(rule: Rule, pieces: seq<Piece>, rest: seq<byte>, stream: seq<byte>, at: nat)
    requires ValidRule(rule)
    decreases |pieces|
  {
    if pieces == [] then rest == stream && NothingYet(rule, stream)
    else
      var p, size := pieces[0], |pieces[0].Raw()|;
      && p.offset == at && 0 < size <= |stream| && ComesFirst(rule, p, stream)
      && Reads(rule, pieces[1..], rest, stream[size..], at + size)
  }

  // ----- the scan reads the stream

  lemma FieldIsLength(f: seq<byte>, bigEndian: bool)
    requires |f| in {1, 2, 4}
    ensures FieldValue(f, bigEndian) == Length(f, bigEndian)
  {
    if bigEndian {
      BigField(f);
    } else {
      LittleField(f);
    }
  }

  lemma BigField(f: seq<byte>)
    requires |f| in {1, 2, 4}
    ensures FieldValue(f, true) == Length(f, true)
  {
    var n := |f|;
    assert f[..n - 1][..n - 1] == f[..n - 1];
    if n == 1 {
      assert f[..0] == [];
    } else if n == 2 {
      assert f[..1] == [f[0]] && [f[0]][..0] == [];
      BigField([f[0]]);
    } else {
      var three := f[..3];
      assert three[..2] == [f[0], f[1]] && three[2] == f[2];
      BigField([f[0], f[1]]);
      assert FieldValue(three, true) == FieldValue([f[0], f[1]], true) * 256 + f[2];
    }
  }

  lemma LittleField(f: seq<byte>)
    requires |f| in {1, 2, 4}
    ensures FieldValue(f, false) == Length(f, false)
  {
    var n := |f|;
    if n == 1 {
      assert f[1..] == [];
    } else if n == 2 {
      assert f[1..] == [f[1]];
      LittleField([f[1]]);
    } else {
      var three := f[1..];
      assert three[1..] == [f[2], f[3]] && three[0] == f[1];
      LittleField([f[2], f[3]]);
      assert FieldValue(three, false) == FieldValue([f[2], f[3]], false) * 256 + f[1];
    }
  }

  lemma StandsIsMatch(view: seq<byte>, d: seq<byte>, i: nat)
    ensures StandsAt(view, d, i) <==> MatchAt(view, d, i)
  {
    if i + |d| <= |view| {
      var part := view[i..i + |d|];
      assert forall k | 0 <= k < |d| :: part[k] == view[i + k];
    }
  }

  /** The one way to read the front of a stream. */
  lemma FrontIsRead(rule: Rule, stream: seq<byte>, at: nat)
    requires ValidRule(rule)
    ensures var move := Decide(rule, stream);
            if move.Wait? then NothingYet(rule, stream)
            else ComesFirst(rule, Cut(move, stream, at), stream) && !NothingYet(rule, stream)
  {
    hide *;
    match rule
    case Fixed(n) => FixedFront(n, stream, at);
    case Delimited(d, keep, limit) => DelimitedFront(d, keep, limit, stream, at);
    case LengthPrefixed(offset, size, bigEndian, adjust) => LengthFront(offset, size, bigEndian, adjust, stream, at);
    case RawSmp(limit) => RawFront(limit, stream, at);
  }

  lemma FixedFront(n: nat, stream: seq<byte>, at: nat)
    requires ValidRule(Fixed(n))
    ensures var rule := Fixed(n); var move := Decide(rule, stream);
            if move.Wait? then NothingYet(rule, stream)
            else ComesFirst(rule, Cut(move, stream, at), stream) && !NothingYet(rule, stream)
  {
  }

  lemma LengthFront(offset: nat, size: nat, bigEndian: bool, adjust: nat, stream: seq<byte>, at: nat)
    requires ValidRule(LengthPrefixed(offset, size, bigEndian, adjust))
    ensures var rule := LengthPrefixed(offset, size, bigEndian, adjust); var move := Decide(rule, stream);
            if move.Wait? then NothingYet(rule, stream)
            else ComesFirst(rule, Cut(move, stream, at), stream) && !NothingYet(rule, stream)
  {
    hide Length, FieldValue;
    if offset + size <= |stream| { FieldIsLength(stream[offset..offset + size], bigEndian); }
  }

  lemma RawFront(limit: nat, stream: seq<byte>, at: nat)
    requires ValidRule(RawSmp(limit))
    ensures var rule := RawSmp(limit); var move := Decide(rule, stream);
            if move.Wait? then NothingYet(rule, stream)
            else ComesFirst(rule, Cut(move, stream, at), stream) && !NothingYet(rule, stream)
  {
  }

  lemma DelimitedFront(d: seq<byte>, keep: bool, limit: nat, stream: seq<byte>, at: nat)
    requires ValidRule(Delimited(d, keep, limit))
    ensures var rule := Delimited(d, keep, limit); var move := Decide(rule, stream);
            if move.Wait? then NothingYet(rule, stream)
            else ComesFirst(rule, Cut(move, stream, at), stream) && !NothingYet(rule, stream)
  {
    hide FirstMatch, MatchAt, StandsAt;
    var window := stream[..Min(|stream|, limit + 1)];
    var m := FirstMatch(window, d, 0);
    forall i: nat ensures StandsAt(stream, d, i) && i + |d| <= |window| <==> MatchAt(window, d, i) {
      WindowStands(stream, |window|, d, i);
      StandsIsMatch(window, d, i);
    }
    forall i: nat | StandsAt(stream, d, i) ensures i + |d| <= |stream| {
      StandsWithin(stream, d, i);
    }
  }

  lemma StandsWithin(view: seq<byte>, d: seq<byte>, i: nat)
    requires StandsAt(view, d, i)
    ensures i + |d| <= |view|
  {
  }

  lemma WindowStands(view: seq<byte>, n: nat, d: seq<byte>, i: nat)
    requires n <= |view|
    ensures StandsAt(view[..n], d, i) <==> StandsAt(view, d, i) && i + |d| <= n
  {
  }

  /** There is no other. */
  lemma FrontIsOnly(rule: Rule, p: Piece, q: Piece, view: seq<byte>)
    requires ValidRule(rule) && ComesFirst(rule, p, view) && ComesFirst(rule, q, view) && p.offset == q.offset
    ensures p == q && !NothingYet(rule, view)
  {
    match rule
    case Fixed(_) =>
    case Delimited(d, keep, limit) => DelimitedOnly(d, keep, limit, p, q, view);
    case LengthPrefixed(_, _, _, _) =>
    case RawSmp(_) =>
  }

  lemma DelimitedOnly(d: seq<byte>, keep: bool, limit: nat, p: Piece, q: Piece, view: seq<byte>)
    requires ValidRule(Delimited(d, keep, limit)) && p.offset == q.offset
    requires ComesFirst(Delimited(d, keep, limit), p, view) && ComesFirst(Delimited(d, keep, limit), q, view)
    ensures p == q && !NothingYet(Delimited(d, keep, limit), view)
  {
    hide StandsAt;
    if p.Frame? && q.Frame? {
      var m, n := |p.data| + |p.trailer| - |d|, |q.data| + |q.trailer| - |d|;
      assert m == n;
      var whole := view[..m + |d|];
      assert p.data == whole[..|p.data|] && q.data == whole[..|q.data|];
      assert p.trailer == whole[|p.data|..] && q.trailer == whole[|q.data|..];
    }
  }

  /** The scan reads every stream. */
  lemma {:induction false} ScanReads(rule: Rule, stream: seq<byte>, at: nat)
    requires ValidRule(rule)
    ensures var o := Scan(rule, stream, at); Reads(rule, o.pieces, o.rest, stream, at)
    decreases |stream|
  {
    hide Decide, Scan, Cut, ComesFirst, NothingYet, ValidRule;
    ScanStep(rule, stream, at);
    FrontIsRead(rule, stream, at);
    var move := Decide(rule, stream);
    if !move.Wait? {
      ScanReads(rule, stream[move.size..], at + move.size);
      var first, later := Cut(move, stream, at), Scan(rule, stream[move.size..], at + move.size);
      assert ([first] + later.pieces)[1..] == later.pieces && |first.Raw()| == move.size;
    }
  }

  /** And nothing else does: what passes for a reading of the stream is its scan. */
  lemma {:induction false} OnlyScanReads(rule: Rule, pieces: seq<Piece>, rest: seq<byte>, stream: seq<byte>, at: nat)
    requires ValidRule(rule) && Reads(rule, pieces, rest, stream, at)
    ensures Scan(rule, stream, at) == Outcome(pieces, rest)
    decreases |pieces|
  {
    hide Decide, Scan, Cut, ComesFirst, NothingYet, ValidRule;
    ScanStep(rule, stream, at);
    FrontIsRead(rule, stream, at);
    var move := Decide(rule, stream);
    if pieces != [] {
      var size := |pieces[0].Raw()|;
      FrontIsOnly(rule, pieces[0], pieces[0], stream);
      FrontIsOnly(rule, pieces[0], Cut(move, stream, at), stream);
      OnlyScanReads(rule, pieces[1..], rest, stream[size..], at + size);
      assert pieces == [pieces[0]] + pieces[1..];
    }
  }

  // ----- the simplest rule, spelt out

  /** Fixed frames are the consecutive blocks of the stream, nothing is dropped, and the rest is too short for a block. */
  lemma FixedBlocks(n: nat, stream: seq<byte>, at: nat)
    requires ValidRule(Fixed(n))
    ensures var o := Scan(Fixed(n), stream, at);
            && |o.pieces| * n + |o.rest| == |stream| && |o.rest| < n && o.rest == stream[|stream| - |o.rest|..]
            && Drops(o.pieces) == 0 && |Frames(o.pieces)| == |o.pieces|
            && forall i | 0 <= i < |o.pieces| ::
                 0 <= i * n <= i * n + n <= |stream| && Frames(o.pieces)[i] == ParsedFrame(stream[i * n..i * n + n], at + i * n)
  {
    hide Scan, Frames, Drops;
    FixedCounts(n, stream, at);
    ScanRest(Fixed(n), stream, at);
    forall i | 0 <= i < |Scan(Fixed(n), stream, at).pieces|
      ensures 0 <= i * n <= i * n + n <= |stream|
      ensures Frames(Scan(Fixed(n), stream, at).pieces)[i] == ParsedFrame(stream[i * n..i * n + n], at + i * n)
    {
      FixedBlock(n, stream, at, i);
    }
  }

  lemma FixedStep(n: nat, stream: seq<byte>, at: nat)
    requires ValidRule(Fixed(n))
    ensures var o := Scan(Fixed(n), stream, at);
            if |stream| < n then o.pieces == [] && o.rest == stream && Frames(o.pieces) == [] && Drops(o.pieces) == 0
            else
              var later := Scan(Fixed(n), stream[n..], at + n);
              && |o.pieces| == 1 + |later.pieces| && o.rest == later.rest && Drops(o.pieces) == Drops(later.pieces)
              && Frames(o.pieces) == [ParsedFrame(stream[..n], at)] + Frames(later.pieces)
  {
    hide Scan, Frames, Drops;
    ScanStep(Fixed(n), stream, at);
    if |stream| < n {
      NothingShown();
    } else {
      FramesOfMore(Frame(at, stream[..n], stream[n..n]), Scan(Fixed(n), stream[n..], at + n).pieces);
    }
  }

  lemma {:induction false} FixedCounts(n: nat, stream: seq<byte>, at: nat)
    requires ValidRule(Fixed(n))
    ensures var o := Scan(Fixed(n), stream, at);
            && |o.pieces| * n + |o.rest| == |stream| && |o.rest| < n
            && Drops(o.pieces) == 0 && |Frames(o.pieces)| == |o.pieces|
    decreases |stream|
  {
    hide Scan, Frames, Drops;
    FixedStep(n, stream, at);
    if |stream| >= n {
      FixedCounts(n, stream[n..], at + n);
      BlocksOfMore(n, |Scan(Fixed(n), stream[n..], at + n).pieces|);
    }
  }

  lemma {:induction false} FixedBlock(n: nat, stream: seq<byte>, at: nat, i: nat)
    requires ValidRule(Fixed(n)) && i < |Frames(Scan(Fixed(n), stream, at).pieces)|
    ensures 0 <= i * n <= i * n + n <= |stream|
    ensures Frames(Scan(Fixed(n), stream, at).pieces)[i] == ParsedFrame(stream[i * n..i * n + n], at + i * n)
    decreases i
  {
    hide Scan, Frames, Drops;
    FixedStep(n, stream, at);
    if i == 0 {
      assert stream[0..n] == stream[..n];
    } else {
      var j, tail := i - 1, stream[n..];
      FixedBlock(n, tail, at + n, j);
      BlocksOfMore(n, j);
      Shifted(stream, n, j * n);
    }
  }

  lemma Shifted(stream: seq<byte>, n: nat, from: nat)
    requires from + n + n <= |stream|
    ensures stream[n..][from..from + n] == stream[from + n..from + n + n]
  {
  }

  lemma BlocksOfMore(n: nat, j: nat)
    ensures (j + 1) * n == j * n + n
  {
  }

  lemma FramesOfMore(first: Piece, later: seq<Piece>)
    ensures Frames([first] + later) == first.Shown() + Frames(later)
    ensures Drops([first] + later) == (if first.Dropped? then 1 else 0) + Drops(later)
    ensures DroppedBytes([first] + later) == (if first.Dropped? then |first.data| else 0) + DroppedBytes(later)
  {
    assert ([first] + later)[1..] == later;
  }

  /** What is shown and what is counted, piece by piece. */
  lemma {:induction false} WhatIsCounted(pieces: seq<Piece>)
    ensures |Frames(pieces)| + Drops(pieces) == |pieces|
    ensures DroppedBytes(pieces) == |Flatten(DroppedData(pieces))| && Drops(pieces) == |DroppedData(pieces)|
    ensures forall f | f in Frames(pieces) :: exists p :: p in pieces && p.Frame? && p.data == f.data && p.offset == f.offset
  {
    if pieces != [] {
      WhatIsCounted(pieces[1..]);
      assert pieces == [pieces[0]] + pieces[1..];
      FramesOfMore(pieces[0], pieces[1..]);
      if pieces[0].Dropped? {
        assert DroppedData(pieces)[1..] == DroppedData(pieces[1..]) && DroppedData(pieces)[0] == pieces[0].data;
        assert Flatten(DroppedData(pieces)) == pieces[0].data + Flatten(DroppedData(pieces[1..]));
      } else {
        assert DroppedData(pieces) == DroppedData(pieces[1..]);
      }
    }
  }

  /** The dropped stretches. */
  function DroppedData(pieces: seq<Piece>): seq<seq<byte>> {
    if pieces == [] then []
    else (if pieces[0].Dropped? then [pieces[0].data] else []) + DroppedData(pieces[1..])
  }
}
