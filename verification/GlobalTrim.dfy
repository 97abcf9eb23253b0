/** The aggregate byte cap over all sessions: always the oldest first frame goes. */
module GlobalTrim {
  import opened Bytes
  import opened WorkspaceTables
  import opened SessionFrames
  import opened Wrappers

  datatype GlobalTrimResult = GlobalTrimResult(retainedBytes: int, droppedBytes: map<string, nat>, droppedFrames: map<string, nat>)

  /** What the sessions retain, one sequence each. */
  type Views = seq<seq<DataFrame>>

  datatype Outcome = Outcome(views: Views, retainedBytes: int)

  /** A time that is not a number counts as zero. */
  function Time(f: DataFrame): (t: int)
    ensures f.timestamp == At(t) || (f.timestamp.NotFinite? && t == 0)
  {
    if f.timestamp.At? then f.timestamp.ms else 0
  }

  /** Session `b` begins with the oldest first frame; of equally old ones, the first session's. */
  predicate IsOldest(views: Views, b: nat) {
    && b < |views| && views[b] != []
    && (forall j | 0 <= j < |views| && views[j] != [] :: Time(views[b][0]) <= Time(views[j][0]))
    && forall j | 0 <= j < b && views[j] != [] :: Time(views[b][0]) < Time(views[j][0])
  }

  function Oldest(views: Views): (r: Option<nat>)
    ensures r.None? <==> forall i | 0 <= i < |views| :: views[i] == []
    ensures r.Some? ==> r.value < |views| && views[r.value] != [] && IsOldest(views, r.value)
  {
    if views == [] then None
    else
      var n := |views| - 1;
      var best := Oldest(views[..n]);
      if views[n] == [] then best
      else if best.Some? && Time(views[n][0]) >= Time(views[best.value][0]) then best
      else Some(n)
  }

  function WithoutHead(views: Views, b: nat): Views
    requires b < |views| && views[b] != []
  {
    views[b := views[b][1..]]
  }

  lemma HeadCounts(views: Views, b: nat)
    requires b < |views| && views[b] != []
    ensures |Flatten(WithoutHead(views, b))| == |Flatten(views)| - 1
    ensures BytesOf(Flatten(WithoutHead(views, b))) == BytesOf(Flatten(views)) - |views[b][0].data|
  {
    var front, v, back := views[..b], views[b], views[b + 1..];
    assert views == front + ([v] + back) && WithoutHead(views, b) == front + ([v[1..]] + back);
    FlattenAppend(front, [v] + back);
    FlattenAppend(front, [v[1..]] + back);
    assert ([v] + back)[1..] == back && ([v[1..]] + back)[1..] == back;
    var a, c := Flatten(front), Flatten(back);
    BytesOfConcat(a, v + c);
    BytesOfConcat(a, v[1..] + c);
    assert (v + c)[1..] == v[1..] + c;
  }

  /** The cap as a function of what is retained: what stays, and the count of its bytes. */
  function TrimAll(views: Views, retained: int, maxBytes: nat): Outcome
    decreases |Flatten(views)|
  {
    if retained <= maxBytes then Outcome(views, retained)
    else if Oldest(views).None? then Outcome(views, 0)
    else
      var b := Oldest(views).value;
      HeadCounts(views, b);
      TrimAll(WithoutHead(views, b), retained - |views[b][0].data|, maxBytes)
  }

  lemma TrimStep(views: Views, retained: int, maxBytes: nat)
    ensures retained <= maxBytes ==> TrimAll(views, retained, maxBytes) == Outcome(views, retained)
    ensures retained > maxBytes && Oldest(views).None? ==> TrimAll(views, retained, maxBytes) == Outcome(views, 0)
    ensures retained > maxBytes && Oldest(views).Some? ==>
              var b := Oldest(views).value;
              && |Flatten(WithoutHead(views, b))| < |Flatten(views)|
              && TrimAll(views, retained, maxBytes) == TrimAll(WithoutHead(views, b), retained - |views[b][0].data|, maxBytes)
  {
    hide Oldest;
    if Oldest(views).Some? { HeadCounts(views, Oldest(views).value); }
  }

  lemma NothingToTrim(views: Views, retained: int, maxBytes: nat)
    requires retained > maxBytes && Oldest(views).None?
    ensures TrimAll(views, 0, maxBytes) == TrimAll(views, retained, maxBytes)
  {
    hide Oldest;
  }

  lemma TrimRound(views: Views, retained: int, maxBytes: nat, b: nat, size: nat)
    requires retained > maxBytes && Oldest(views) == Some(b) && size == |views[b][0].data|
    ensures TrimAll(WithoutHead(views, b), retained - size, maxBytes) == TrimAll(views, retained, maxBytes)
    ensures |Flatten(WithoutHead(views, b))| < |Flatten(views)|
  {
    TrimStep(views, retained, maxBytes);
  }

  /** Every session lost a prefix, possibly nothing. */
  predicate Cut(before: Views, after: Views) {
    && |after| == |before|
    && forall i | 0 <= i < |after| :: |after[i]| <= |before[i]| && after[i] == before[i][|before[i]| - |after[i]|..]
  }

  /** Only prefixes go, and with an exact count to begin with the cap is met and the count stays exact. */
  lemma {:induction false} TrimAllCuts(views: Views, retained: int, maxBytes: nat)
    ensures var Outcome(after, left) := TrimAll(views, retained, maxBytes);
            && Cut(views, after) && left <= maxBytes
            && (retained == BytesOf(Flatten(views)) ==> left == BytesOf(Flatten(after)))
    decreases |Flatten(views)|
  {
    hide Oldest, IsOldest, TrimAll, Flatten, WithoutHead, Cut;
    TrimStep(views, retained, maxBytes);
    CutNothing(views);
    if retained > maxBytes {
      if Oldest(views).None? {
        AllEmpty(views);
      } else {
        var b := Oldest(views).value;
        HeadCounts(views, b);
        TrimAllCuts(WithoutHead(views, b), retained - |views[b][0].data|, maxBytes);
        CutNext(views, b, TrimAll(views, retained, maxBytes).views);
      }
    }
  }

  lemma {:induction false} AllEmpty(views: Views)
    requires forall i | 0 <= i < |views| :: views[i] == []
    ensures Flatten(views) == []
  {
    if views != [] { AllEmpty(views[1..]); }
  }

  lemma CutNothing(views: Views)
    ensures Cut(views, views) && BytesOf([]) == 0
  {
  }

  lemma CutNext(views: Views, b: nat, after: Views)
    requires b < |views| && views[b] != [] && Cut(WithoutHead(views, b), after)
    ensures Cut(views, after)
  {
    var next := WithoutHead(views, b);
    forall i | 0 <= i < |after|
      ensures |after[i]| <= |views[i]| && after[i] == views[i][|views[i]| - |after[i]|..]
    {
      assert after[i] == next[i][|next[i]| - |after[i]|..];
    }
  }

  /** Some session lost a last frame with which the cap was still exceeded. */
  predicate LastWasNeeded(before: Views, after: Views, left: int, maxBytes: nat) {
    && |after| == |before|
    && exists b :: 0 <= b < |after| && |after[b]| < |before[b]| && left + |before[b][|before[b]| - |after[b]| - 1].data| > maxBytes
  }

  /** No frame is dropped without need: with an exact count, the last one dropped was still above the cap. */
  lemma {:induction false} TrimAllIsLeast(views: Views, maxBytes: nat)
    ensures var Outcome(after, left) := TrimAll(views, BytesOf(Flatten(views)), maxBytes);
            after == views || LastWasNeeded(views, after, left, maxBytes)
    decreases |Flatten(views)|
  {
    hide Oldest, IsOldest, TrimAll, Flatten, WithoutHead, LastWasNeeded, BytesOf;
    var retained := BytesOf(Flatten(views));
    TrimStep(views, retained, maxBytes);
    if retained > maxBytes && Oldest(views).Some? {
      var b := Oldest(views).value;
      HeadCounts(views, b);
      var next := WithoutHead(views, b);
      TrimAllIsLeast(next, maxBytes);
      TrimStep(next, BytesOf(Flatten(next)), maxBytes);
      var Outcome(after, left) := TrimAll(views, retained, maxBytes);
      if after == next {
        NextTrimDone(next, maxBytes);
        FirstWasNeeded(views, b, left, maxBytes);
      } else {
        TrimAllCuts(next, BytesOf(Flatten(next)), maxBytes);
        NeededEarlier(views, b, after, left, maxBytes);
      }
    } else if retained > maxBytes {
      AllEmpty(views);
      NoFrames();
    }
  }

  lemma NextTrimDone(views: Views, maxBytes: nat)
    requires TrimAll(views, BytesOf(Flatten(views)), maxBytes).views == views
    ensures TrimAll(views, BytesOf(Flatten(views)), maxBytes).retainedBytes == BytesOf(Flatten(views))
  {
    TrimAllCuts(views, BytesOf(Flatten(views)), maxBytes);
  }

  lemma FirstWasNeeded(views: Views, b: nat, left: int, maxBytes: nat)
    requires b < |views| && views[b] != [] && left + |views[b][0].data| > maxBytes
    ensures LastWasNeeded(views, WithoutHead(views, b), left, maxBytes)
  {
    assert |WithoutHead(views, b)[b]| == |views[b]| - 1;
  }

  lemma NeededEarlier(views: Views, b: nat, after: Views, left: int, maxBytes: nat)
    requires b < |views| && views[b] != [] && LastWasNeeded(WithoutHead(views, b), after, left, maxBytes)
    ensures LastWasNeeded(views, after, left, maxBytes)
  {
    var next: Views := WithoutHead(views, b);
    var s: nat :| s < |after| && |after[s]| < |next[s]| && left + |next[s][|next[s]| - |after[s]| - 1].data| > maxBytes;
    assert next[s][|next[s]| - |after[s]| - 1] == views[s][|views[s]| - |after[s]| - 1];
  }

  predicate InTimeOrder(view: seq<DataFrame>) {
    forall i, j | 0 <= i < j < |view| :: Time(view[i]) <= Time(view[j])
  }

  /** Whose sessions are in time order: nothing dropped anywhere is younger than anything kept anywhere. */
  lemma {:induction false} OldestGoFirst(views: Views, retained: int, maxBytes: nat, i: nat, j: nat, dropped: nat, kept: nat)
    requires forall s | 0 <= s < |views| :: InTimeOrder(views[s])
    requires i < |views| && j < |views|
    requires |TrimAll(views, retained, maxBytes).views| == |views|
    requires dropped < |views[i]| - |TrimAll(views, retained, maxBytes).views[i]|
    requires kept < |TrimAll(views, retained, maxBytes).views[j]|
    ensures Time(views[i][dropped]) <= Time(TrimAll(views, retained, maxBytes).views[j][kept])
    decreases |Flatten(views)|
  {
    hide Oldest, TrimAll, Flatten, InTimeOrder;
    TrimStep(views, retained, maxBytes);
    if retained > maxBytes && Oldest(views).Some? {
      var b := Oldest(views).value;
      if i == b && dropped == 0 {
        TrimAllCuts(views, retained, maxBytes);
        HeadIsOldest(views, b, TrimAll(views, retained, maxBytes).views, j, kept);
      } else {
        StillInOrder(views, b);
        OldestGoFirst(WithoutHead(views, b), retained - |views[b][0].data|, maxBytes, i, j,
                      if i == b then dropped - 1 else dropped, kept);
      }
    }
  }

  lemma HeadIsOldest(views: Views, b: nat, after: Views, j: nat, kept: nat)
    requires forall s | 0 <= s < |views| :: InTimeOrder(views[s])
    requires IsOldest(views, b) && Cut(views, after) && j < |views| && kept < |after[j]|
    ensures Time(views[b][0]) <= Time(after[j][kept])
  {
    assert after[j][kept] == views[j][|views[j]| - |after[j]| + kept];
    assert InTimeOrder(views[j]);
  }

  lemma StillInOrder(views: Views, b: nat)
    requires forall s | 0 <= s < |views| :: InTimeOrder(views[s])
    requires b < |views| && views[b] != []
    ensures forall s | 0 <= s < |views| :: InTimeOrder(WithoutHead(views, b)[s])
  {
    assert InTimeOrder(views[b]);
  }

  // ----- the sessions themselves

  predicate Holds(sessions: seq<SerialSession>, views: Views)
    reads sessions
  {
    |views| == |sessions| && forall i | 0 <= i < |sessions| :: sessions[i].All() == views[i]
  }

  /** What the sessions retain, as values. */
  function Nows(sessions: seq<SerialSession>): (captures: seq<Capture>)
    reads sessions
    ensures |captures| == |sessions| && forall i | 0 <= i < |sessions| :: captures[i] == sessions[i].Now()
  {
    seq(|sessions|, i requires 0 <= i < |sessions| reads sessions => sessions[i].Now())
  }

  /** Pausing and counting are as before, and of the frames held back only those are gone that had to go. */
  predicate Shrunk(before: seq<Capture>, now: seq<Capture>) {
    && |before| == |now|
    && forall i | 0 <= i < |now| ::
         && now[i].paused == before[i].paused && now[i].counted == before[i].counted && |now[i].all| <= |before[i].all|
         && now[i].held == Min(before[i].held, |now[i].all|)
  }

  lemma ShrunkTwice(a: seq<Capture>, b: seq<Capture>, c: seq<Capture>)
    requires Shrunk(a, b) && Shrunk(b, c)
    ensures Shrunk(a, c)
  {
  }

  lemma ShrunkSelf(sessions: seq<SerialSession>)
    ensures Shrunk(Nows(sessions), Nows(sessions))
  {
  }

  predicate Distinct(sessions: seq<SerialSession>) {
    forall i, j | 0 <= i < j < |sessions| :: sessions[i] != sessions[j] && sessions[i].id != sessions[j].id
  }

  function Lookup(counts: map<string, nat>, id: string): nat {
    if id in counts then counts[id] else 0
  }

  /** The two tables say exactly how much each session lost. */
  predicate Tallied(sessions: seq<SerialSession>, before: Views, now: Views, bytes: map<string, nat>, frames: map<string, nat>) {
    && |before| == |sessions| && Cut(before, now)
    && forall i | 0 <= i < |sessions| ::
         && Lookup(frames, sessions[i].id) == |before[i]| - |now[i]|
         && Lookup(bytes, sessions[i].id) == BytesOf(before[i][..|before[i]| - |now[i]|])
  }

  lemma TallyNext(sessions: seq<SerialSession>, before: Views, now: Views, bytes: map<string, nat>, frames: map<string, nat>, b: nat)
    requires Tallied(sessions, before, now, bytes, frames) && Distinct(sessions) && b < |sessions| && now[b] != []
    ensures var id := sessions[b].id;
            Tallied(sessions, before, WithoutHead(now, b), bytes[id := Lookup(bytes, id) + |now[b][0].data|],
                    frames[id := Lookup(frames, id) + 1])
  {
    hide BytesOf;
    BytesOfNext(before[b], |before[b]| - |now[b]|);
    var next := WithoutHead(now, b);
    forall i | 0 <= i < |before|
      ensures |next[i]| <= |before[i]| && next[i] == before[i][|before[i]| - |next[i]|..]
    {
      assert now[i] == before[i][|before[i]| - |now[i]|..];
    }
  }

  /** The session whose first frame is the oldest. */
  method FindOldest(sessions: seq<SerialSession>, ghost views: Views) returns (best: Option<nat>)
    requires Holds(sessions, views)
    ensures best == Oldest(views) && (best.Some? ==> best.value < |sessions|)
  {
    best := None;
    var oldestTimestamp := 0;
    for i := 0 to |sessions|
      invariant best == Oldest(views[..i])
      invariant best.Some? ==> best.value < i && views[best.value] != [] && oldestTimestamp == Time(views[best.value][0])
    {
      assert views[..i + 1][..i] == views[..i];
      var session := sessions[i];
      assert session.All() == views[i];
      if |session.frames| > 0 || |session.pausedFrames| > 0 {
        var candidate := if |session.frames| > 0 then session.frames[0] else session.pausedFrames[0];
        if best.None? || Time(candidate) < oldestTimestamp {
          best, oldestTimestamp := Some(i), Time(candidate);
        }
      }
    }
    assert views[..|sessions|] == views;
  }

  /** Drops first frames, oldest first, until the byte count fits. */
  method TrimSessionsToGlobalByteLimit(sessions: seq<SerialSession>, currentBytes: nat, maxBytes: nat, ghost views: Views)
    returns (r: GlobalTrimResult)
    requires Holds(sessions, views) && Distinct(sessions)
    modifies sessions
    ensures Holds(sessions, TrimAll(views, currentBytes, maxBytes).views)
    ensures r.retainedBytes == TrimAll(views, currentBytes, maxBytes).retainedBytes
    ensures Tallied(sessions, views, TrimAll(views, currentBytes, maxBytes).views, r.droppedBytes, r.droppedFrames)
    ensures Shrunk(old(Nows(sessions)), Nows(sessions))
  {
    hide *;
    NothingLost(sessions, views);
    ShrunkSelf(sessions);
    r := GlobalTrimResult(currentBytes, map[], map[]);
    ghost var now := views;
    while r.retainedBytes > maxBytes
      invariant Holds(sessions, now) && Tallied(sessions, views, now, r.droppedBytes, r.droppedFrames)
      invariant TrimAll(now, r.retainedBytes, maxBytes) == TrimAll(views, currentBytes, maxBytes)
      invariant Shrunk(old(Nows(sessions)), Nows(sessions))
      decreases |Flatten(now)|, r.retainedBytes
    {
      TrimStep(now, r.retainedBytes, maxBytes);
      ghost var before, held := now, Nows(sessions);
      r, now := DropOldestHead(sessions, maxBytes, views, before, r);
      ShrunkTwice(old(Nows(sessions)), held, Nows(sessions));
    }
    TrimStep(now, r.retainedBytes, maxBytes);
  }

  /** One round of the loop; when there is nothing left to drop, the count is corrected to zero and the loop ends. */
  method DropOldestHead(sessions: seq<SerialSession>, maxBytes: nat, ghost views: Views, ghost before: Views, r: GlobalTrimResult)
    returns (next: GlobalTrimResult, ghost now: Views)
    requires Holds(sessions, before) && Distinct(sessions) && r.retainedBytes > maxBytes
    requires Tallied(sessions, views, before, r.droppedBytes, r.droppedFrames)
    modifies sessions
    ensures Holds(sessions, now) && Tallied(sessions, views, now, next.droppedBytes, next.droppedFrames)
    ensures TrimAll(now, next.retainedBytes, maxBytes) == TrimAll(before, r.retainedBytes, maxBytes)
    ensures |Flatten(now)| < |Flatten(before)| || (now == before && next.retainedBytes <= maxBytes)
    ensures Shrunk(old(Nows(sessions)), Nows(sessions))
  {
    hide *;
    var best := FindOldest(sessions, before);
    if best.None? {
      ShrunkSelf(sessions);
      NothingToTrim(before, r.retainedBytes, maxBytes);
      return r.(retainedBytes := 0), before;
    }
    var b := best.value;
    var size, bytes, frames := DropHead(sessions, b, views, before, r.droppedBytes, r.droppedFrames);
    TrimRound(before, r.retainedBytes, maxBytes, b, size);
    return GlobalTrimResult(r.retainedBytes - size, bytes, frames), WithoutHead(before, b);
  }

  lemma NothingLost(sessions: seq<SerialSession>, views: Views)
    requires Holds(sessions, views)
    ensures Tallied(sessions, views, views, map[], map[])
  {
    NoFrames();
  }

  method DropHead(sessions: seq<SerialSession>, b: nat, ghost views: Views, ghost now: Views, bytes: map<string, nat>,
                  frames: map<string, nat>)
    returns (size: nat, newBytes: map<string, nat>, newFrames: map<string, nat>)
    requires Holds(sessions, now) && Distinct(sessions) && b < |sessions| && b < |now| && now[b] != []
    requires Tallied(sessions, views, now, bytes, frames)
    modifies sessions[b]
    ensures Holds(sessions, WithoutHead(now, b)) && size == |now[b][0].data|
    ensures Tallied(sessions, views, WithoutHead(now, b), newBytes, newFrames)
    ensures Shrunk(old(Nows(sessions)), Nows(sessions))
  {
    hide Tallied, Lookup;
    ghost var held := Nows(sessions);
    TallyNext(sessions, views, now, bytes, frames, b);
    var id := sessions[b].id;
    var first := sessions[b].ShiftOldest();
    assert forall i | 0 <= i < |sessions| && i != b :: sessions[i].Now() == held[i];
    size := |first.value.data|;
    newBytes := bytes[id := Lookup(bytes, id) + size];
    newFrames := frames[id := Lookup(frames, id) + 1];
  }
}
