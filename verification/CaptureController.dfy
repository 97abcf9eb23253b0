/** Capturing into several sessions: appending, pausing and clearing, with byte accounts and every drop recorded. */
module CaptureControl {
  import opened Bytes
  import opened Wrappers
  import opened WorkspaceTables
  import opened CaptureMirror
  import opened CaptureRun
  import GT = GlobalTrim
  import SF = SessionFrames

  function Ids(sessions: seq<SF.SerialSession>): (ids: seq<string>)
    ensures |ids| == |sessions| && forall i | 0 <= i < |ids| :: ids[i] == sessions[i].id
  {
    seq(|sessions|, i requires 0 <= i < |sessions| => sessions[i].id)
  }

  /** The accounts say exactly how many bytes each session and all of them retain. */
  predicate Exact(bytes: seq<int>, workspaceBytes: int, captures: seq<SF.Capture>) {
    && |bytes| == |captures| && workspaceBytes == TotalBytes(captures)
    && forall i | 0 <= i < |captures| :: bytes[i] == SF.BytesOf(captures[i].all)
  }

  predicate AllRetained(captures: seq<SF.Capture>) {
    forall i | 0 <= i < |captures| :: captures[i].held <= |captures[i].all| && (captures[i].paused || captures[i].held == 0)
  }

  class CaptureController {
    const sessions: seq<SF.SerialSession>
    /** Retained bytes and next sequence number of each session, retained bytes of all, and what is recorded. */
    var bytes: seq<int>
    var nextSeq: seq<nat>
    var workspaceBytes: int
    var log: seq<Entry>

    ghost predicate Valid()
      reads this, sessions
    {
      && GT.Distinct(sessions) && AllRetained(GT.Nows(sessions)) && |nextSeq| == |sessions|
      && Exact(bytes, workspaceBytes, GT.Nows(sessions))
    }

    /** The state as a value. */
    ghost function Now(): (d: Desk)
      requires Valid()
      reads this, sessions
      ensures Serves(d, Ids(sessions)) && d.captures == GT.Nows(sessions)
    {
      Desk(GT.Nows(sessions), nextSeq, log)
    }

    constructor (sessions: seq<SF.SerialSession>, nextSeq: seq<nat>)
      requires GT.Distinct(sessions) && |nextSeq| == |sessions| && AllRetained(GT.Nows(sessions))
      ensures Valid() && this.sessions == sessions && Now() == Desk(GT.Nows(sessions), nextSeq, [])
    {
      hide Exact, AllRetained, GT.Distinct, SF.BytesOf;
      this.sessions, this.nextSeq, log := sessions, nextSeq, [];
      bytes, workspaceBytes := [], 0;
      new;
      NoSessions(GT.Nows(sessions));
      for i := 0 to |sessions|
        invariant this.nextSeq == nextSeq && log == []
        invariant Exact(bytes, workspaceBytes, GT.Nows(sessions)[..i])
      {
        var retained := sessions[i].FrameBuffersByteLength();
        OneMoreSession(bytes, workspaceBytes, GT.Nows(sessions), i);
        bytes, workspaceBytes := bytes + [retained], workspaceBytes + retained;
      }
      assert GT.Nows(sessions)[..|sessions|] == GT.Nows(sessions);
    }

    method SetSessionBytes(k: nat, captureBytes: int)
      requires k < |bytes|
      modifies `bytes, `workspaceBytes
      ensures bytes == old(bytes)[k := captureBytes] && workspaceBytes == old(workspaceBytes) + captureBytes - old(bytes)[k]
    {
      workspaceBytes := workspaceBytes + captureBytes - bytes[k];
      bytes := bytes[k := captureBytes];
    }

    /** A frame arrives: its session is trimmed, then all sessions to the aggregate cap, and each drop is recorded. */
    method AddFrame(k: nat, frame: StorableFrame, maxFrames: nat)
      requires Valid() && k < |sessions|
      modifies this, sessions
      ensures Valid() && Now() == Perform(Ids(sessions), old(Now()), Add(k, frame, maxFrames))
    {
      hide Perform, Exact, Capped, Lost, Trims, SF.Arrived, GT.Distinct, AllRetained, GT.Nows, Views, Dropped, Projected, Ids;
      ghost var before := Now();
      var own, affected, lost := TrimForArrival(k, frame, maxFrames);
      PerformAdd(Ids(sessions), before, k, frame, maxFrames, Now().captures, lost);
      RecordFrame(k, frame);
      RecordTrims(k, own, affected, lost);
    }

    /** The own trim and the aggregate trim; how many frames each session lost in them. */
    method TrimForArrival(k: nat, frame: StorableFrame, maxFrames: nat) returns (own: nat, affected: map<string, nat>, ghost lost: seq<nat>)
      requires Valid() && k < |sessions|
      modifies `bytes, `workspaceBytes, sessions
      ensures Valid()
      ensures var before := old(Now()).captures;
              && Now().captures == Capped(before[k := SF.Arrived(before[k], frame, maxFrames)])
              && lost == Lost(Views(before)[k := before[k].all + [frame]], Now().captures)
      ensures |lost| == |sessions| && forall i | 0 <= i < |sessions| :: lost[i] == Dropped(sessions, k, own, affected, i)
    {
      hide Exact, Capped, Lost, SF.Arrived, GT.Distinct, AllRetained, GT.Nows, Views, LossesOf, Dropped;
      ghost var before := Now().captures;
      own := Append(k, frame, maxFrames);
      ghost var appended := Now().captures;
      affected := EnforceGlobalFrameByteLimit();
      lost := BothTrims(sessions, k, own, affected, before, frame, appended, Now().captures);
    }

    /** The arriving frame's own session is trimmed to its limits. */
    method Append(k: nat, frame: StorableFrame, maxFrames: nat) returns (own: nat)
      requires Valid() && k < |sessions|
      modifies `bytes, `workspaceBytes, sessions[k]
      ensures Valid() && Now().captures == old(Now()).captures[k := SF.Arrived(old(Now()).captures[k], frame, maxFrames)]
      ensures own <= |old(Now()).captures[k].all| + 1
      ensures Now().captures[k].all == (old(Now()).captures[k].all + [frame])[own..]
    {
      hide SF.LeastCut, SF.BytesOf, TotalBytes, SF.Arrived, SF.CountCut;
      ghost var before := Now().captures;
      var session := sessions[k];
      Accounted(bytes, workspaceBytes, before, k);
      var trim := session.AppendFrame(frame, maxFrames, SF.Limits(None, Some(SF.MAX_SESSION_FRAME_BYTES), Some(bytes[k])));
      SF.ArrivedBy(before[k], frame, maxFrames, trim.droppedFrames, session.Now());
      assert GT.Nows(sessions) == before[k := session.Now()];
      ArrivedBytes(before[k].all, frame, trim.droppedFrames);
      ExactAfter(bytes, workspaceBytes, before, k, session.Now());
      SetSessionBytes(k, trim.retainedBytes);
      return trim.droppedFrames;
    }

    /** Over the aggregate cap the oldest first frames go; how many each session lost. */
    method EnforceGlobalFrameByteLimit() returns (affected: map<string, nat>)
      requires Valid()
      modifies `bytes, `workspaceBytes, sessions
      ensures Valid() && Now().captures == Capped(old(Now()).captures)
      ensures GT.Distinct(sessions) && LossesOf(sessions, affected, Views(old(Now()).captures), Now().captures)
    {
      hide SF.BytesOf, Flatten, GT.TrimAll, GT.Distinct, GT.Tallied, GT.Shrunk, GT.Holds, AllRetained, Exact, Capped, Kept, LossesOf, TotalBytes, GT.Nows, Views, Adjusted;
      ghost var before := Now().captures;
      Accounts(bytes, workspaceBytes, before);
      if workspaceBytes <= MAX_GLOBAL_FRAME_BYTES {
        NothingCapped(before);
        NothingLost(sessions, before);
        return map[];
      }
      NowsHold(sessions);
      var result := GT.TrimSessionsToGlobalByteLimit(sessions, workspaceBytes, MAX_GLOBAL_FRAME_BYTES, Views(before));
      ghost var after := GT.Nows(sessions);
      GlobalTrimCaps(sessions, before, result);
      NothingAdjusted(bytes, workspaceBytes, before, after);
      AdjustAccounts(result.droppedBytes, before, after, result.droppedFrames);
      workspaceBytes := result.retainedBytes;
      AdjustedIsExact(bytes, workspaceBytes, before, after);
      return result.droppedFrames;
    }

    /** What a trim took is taken off the sessions' accounts. */
    method AdjustAccounts(droppedBytes: map<string, nat>, ghost before: seq<SF.Capture>, ghost after: seq<SF.Capture>,
                          ghost droppedFrames: map<string, nat>)
      requires |before| == |sessions| && Adjusted(bytes, before, after, 0)
      requires GT.Tallied(sessions, Views(before), Views(after), droppedBytes, droppedFrames)
      modifies `bytes, `workspaceBytes
      ensures Adjusted(bytes, before, after, |before|)
    {
      hide GT.Tallied, SF.BytesOf;
      for i := 0 to |sessions|
        invariant Adjusted(bytes, before, after, i)
      {
        TalliedBytes(sessions, Views(before), Views(after), droppedBytes, droppedFrames, i);
        if sessions[i].id in droppedBytes {
          SetSessionBytes(i, Max(0, bytes[i] - droppedBytes[sessions[i].id]));
        }
      }
    }

    /** The frame is recorded under the session's next sequence number. */
    method RecordFrame(k: nat, frame: StorableFrame)
      requires k < |sessions| == |nextSeq|
      modifies `log, `nextSeq
      ensures log == old(log) + [Entry(Ids(sessions)[k], Captured(old(nextSeq)[k], [frame], [Projected(frame)]))]
      ensures nextSeq == old(nextSeq)[k := old(nextSeq)[k] + 1]
    {
      log := log + [Entry(sessions[k].id, Captured(nextSeq[k], [frame], [Projected(frame)]))];
      nextSeq := nextSeq[k := nextSeq[k] + 1];
    }

    /** One entry for every session that lost frames, own trim and aggregate trim together. */
    method RecordTrims(k: nat, own: nat, affected: map<string, nat>, ghost lost: seq<nat>)
      requires |lost| == |sessions| && forall i | 0 <= i < |sessions| :: lost[i] == Dropped(sessions, k, own, affected, i)
      modifies `log
      ensures log == old(log) + Trims(Ids(sessions), lost)
    {
      hide Trims, GT.Lookup;
      ghost var ids := Ids(sessions);
      NoTrims(ids, lost);
      for i := 0 to |sessions|
        invariant log == old(log) + Trims(ids[..i], lost[..i])
      {
        TrimsNext(ids, lost, i);
        var count := Dropped(sessions, k, own, affected, i);
        if count > 0 { log := log + [Entry(sessions[i].id, Trimmed(count))]; }
      }
      assert ids[..|ids|] == ids && lost[..|lost|] == lost;
    }

    /** Pausing holds frames back; resuming releases them and trims as an append does. */
    method SetCapturePaused(k: nat, paused: bool, maxFrames: nat)
      requires Valid() && k < |sessions|
      modifies this, sessions[k]
      ensures Valid() && Now() == Perform(Ids(sessions), old(Now()), SetPaused(k, paused, maxFrames))
    {
      hide Perform, Exact, Lost, Trims, SF.Switched, GT.Distinct, AllRetained, GT.Nows, Views, Dropped, Ids;
      ghost var before := Now();
      var own, lost := Switch(k, paused, maxFrames);
      PerformSwitch(Ids(sessions), before, k, paused, maxFrames, Now().captures, lost);
      RecordTrims(k, own, map[], lost);
    }

    /** The flag is set; resuming with frames held back releases them and trims. */
    method Switch(k: nat, paused: bool, maxFrames: nat) returns (own: nat, ghost lost: seq<nat>)
      requires Valid() && k < |sessions|
      modifies `bytes, `workspaceBytes, sessions[k]
      ensures Valid() && Now().captures == old(Now()).captures[k := SF.Switched(old(Now()).captures[k], paused, maxFrames)]
      ensures lost == Lost(Views(old(Now()).captures), Now().captures)
      ensures |lost| == |sessions| && forall i | 0 <= i < |sessions| :: lost[i] == Dropped(sessions, k, own, map[], i)
    {
      hide SF.BytesOf, TotalBytes, SF.Trimmed, Exact, Lost, Dropped, Views;
      ghost var before := Now().captures;
      var session := sessions[k];
      own := 0;
      assert before[k].all[0..] == before[k].all;
      if session.capturePaused != paused {
        if !paused && |session.pausedFrames| > 0 {
          own := Resume(k, maxFrames);
        } else {
          session.capturePaused := paused;
          assert GT.Nows(sessions) == before[k := session.Now()];
          ExactSame(bytes, workspaceBytes, before, GT.Nows(sessions));
        }
      } else {
        assert before[k := before[k]] == before;
      }
      lost := OneTrim(sessions, k, own, before, Now().captures);
    }

    method Resume(k: nat, maxFrames: nat) returns (own: nat)
      requires Valid() && k < |sessions| && sessions[k].capturePaused && sessions[k].pausedFrames != []
      modifies `bytes, `workspaceBytes, sessions[k]
      ensures Valid() && Now().captures == old(Now()).captures[k := SF.Switched(old(Now()).captures[k], false, maxFrames)]
      ensures own <= |old(Now()).captures[k].all| && Now().captures[k].all == old(Now()).captures[k].all[own..]
    {
      hide SF.LeastCut, SF.BytesOf, TotalBytes, SF.CountCut, SF.Trimmed, SF.Switched, Exact;
      ghost var before := Now().captures;
      var session := sessions[k];
      Accounted(bytes, workspaceBytes, before, k);
      session.capturePaused := false;
      var trim := session.FlushPausedFramesToLive(maxFrames, SF.Limits(None, Some(SF.MAX_SESSION_FRAME_BYTES), Some(bytes[k])));
      own := trim.droppedFrames;
      SF.SwitchedBy(before[k], maxFrames, own, session.Now());
      SF.BytesOfParts(before[k].all, own);
      SetSessionBytes(k, trim.retainedBytes);
      assert GT.Nows(sessions) == before[k := session.Now()];
      ExactAfter(old(bytes), old(workspaceBytes), before, k, session.Now());
    }

    /** A capture with frames or counters is cleared, and numbering starts again. */
    method ClearFrames(k: nat)
      requires Valid() && k < |sessions|
      modifies this, sessions[k]
      ensures Valid() && Now() == Perform(Ids(sessions), old(Now()), Clear(k))
    {
      hide Exact, GT.Distinct, AllRetained, Capped, Lost, Trims, SF.Arrived, SF.Switched, SF.SerialSession.HasClearableCapture;
      if !sessions[k].HasClearableCapture() { return; }
      Wipe(k);
      nextSeq := nextSeq[k := 0];
      log := log + [Entry(sessions[k].id, Cleared)];
    }

    method Wipe(k: nat)
      requires Valid() && k < |sessions|
      modifies `bytes, `workspaceBytes, sessions[k]
      ensures Valid() && Now().captures == old(Now()).captures[k := SF.NOTHING_RETAINED]
    {
      hide SF.BytesOf, TotalBytes, Exact;
      ghost var before := Now().captures;
      var session := sessions[k];
      Accounted(bytes, workspaceBytes, before, k);
      SF.NoFrames();
      if |session.frames| > 0 || |session.pausedFrames| > 0 {
        SetSessionBytes(k, 0);
      } else {
        assert before[k].all == [];
      }
      session.Reset();
      assert GT.Nows(sessions) == before[k := SF.NOTHING_RETAINED];
      ExactAfter(old(bytes), old(workspaceBytes), before, k, SF.NOTHING_RETAINED);
      assert bytes == old(bytes)[k := 0];
    }

    /** One event; one that names no session does nothing. */
    method Handle(event: Event)
      requires Valid()
      modifies this, sessions
      ensures Valid() && Now() == Perform(Ids(sessions), old(Now()), event)
    {
      hide Exact, GT.Distinct, AllRetained, Capped, Lost, Trims, SF.Arrived, SF.Switched;
      if event.session >= |sessions| { return; }
      match event {
        case Add(k, frame, maxFrames) => AddFrame(k, frame, maxFrames);
        case SetPaused(k, paused, maxFrames) => SetCapturePaused(k, paused, maxFrames);
        case Clear(k) => ClearFrames(k);
      }
    }
  }

  // ----- byte accounts

  lemma NoSessions(captures: seq<SF.Capture>)
    ensures Exact([], 0, captures[..0])
  {
    assert Views(captures[..0]) == [];
    SF.NoFrames();
  }

  lemma OneMoreSession(bytes: seq<int>, workspaceBytes: int, captures: seq<SF.Capture>, i: nat)
    requires i < |captures| && Exact(bytes, workspaceBytes, captures[..i])
    ensures var retained := SF.BytesOf(captures[i].all);
            Exact(bytes + [retained], workspaceBytes + retained, captures[..i + 1])
  {
    hide SF.BytesOf;
    var all := captures[i].all;
    assert Views(captures[..i + 1]) == Views(captures[..i]) + [all];
    FlattenAppend(Views(captures[..i]), [all]);
    assert Flatten([all]) == all;
    SF.BytesOfConcat(Flatten(Views(captures[..i])), all);
  }

  lemma NothingAdjusted(bytes: seq<int>, workspaceBytes: int, captures: seq<SF.Capture>, after: seq<SF.Capture>)
    requires Exact(bytes, workspaceBytes, captures) && |after| == |captures|
    ensures Adjusted(bytes, captures, after, 0)
  {
  }

  lemma Accounts(bytes: seq<int>, workspaceBytes: int, captures: seq<SF.Capture>)
    requires Exact(bytes, workspaceBytes, captures)
    ensures workspaceBytes == TotalBytes(captures)
  {
  }

  lemma NowsHold(sessions: seq<SF.SerialSession>)
    ensures GT.Holds(sessions, Views(GT.Nows(sessions)))
  {
  }

  lemma HeldViews(sessions: seq<SF.SerialSession>, views: GT.Views)
    requires GT.Holds(sessions, views)
    ensures Views(GT.Nows(sessions)) == views
  {
  }

  lemma KeptIs(captures: seq<SF.Retained>)
    ensures var outcome := GT.TrimAll(Views(captures), TotalBytes(captures), MAX_GLOBAL_FRAME_BYTES);
            Kept(captures) == outcome.views && outcome.retainedBytes == SF.BytesOf(Flatten(Kept(captures)))
  {
    hide SF.BytesOf, Flatten, GT.TrimAll;
    GT.TrimAllCuts(Views(captures), TotalBytes(captures), MAX_GLOBAL_FRAME_BYTES);
  }

  /** The trim leaves the capped captures, reports their bytes, and says what each session lost. */
  lemma GlobalTrimCaps(sessions: seq<SF.SerialSession>, before: seq<SF.Retained>, result: GT.GlobalTrimResult)
    requires |before| == |sessions| && GT.Shrunk(before, GT.Nows(sessions))
    requires var outcome := GT.TrimAll(Views(before), TotalBytes(before), MAX_GLOBAL_FRAME_BYTES);
             && GT.Holds(sessions, outcome.views) && result.retainedBytes == outcome.retainedBytes
             && GT.Tallied(sessions, Views(before), outcome.views, result.droppedBytes, result.droppedFrames)
    ensures var after := GT.Nows(sessions);
            && after == Capped(before) && AllRetained(after) && result.retainedBytes == TotalBytes(after)
            && GT.Tallied(sessions, Views(before), Views(after), result.droppedBytes, result.droppedFrames)
            && LossesOf(sessions, result.droppedFrames, Views(before), after)
  {
    hide GT.Shrunk, GT.TrimAll, GT.Tallied, GT.Holds, AllRetained, Capped, Kept, LossesOf, GT.Nows, Views, SF.BytesOf, Flatten;
    var after := GT.Nows(sessions);
    KeptIs(before);
    HeldViews(sessions, Kept(before));
    CappedBy(before, after);
    TallyLosses(sessions, before, after, result.droppedBytes, result.droppedFrames);
    CappedAreRetained(before);
  }

  lemma CappedAreRetained(captures: seq<SF.Retained>)
    ensures AllRetained(Capped(captures))
  {
    hide Capped;
    var capped := Capped(captures);
  }

  lemma AdjustedIsExact(bytes: seq<int>, workspaceBytes: int, before: seq<SF.Capture>, after: seq<SF.Capture>)
    requires Adjusted(bytes, before, after, |before|) && workspaceBytes == TotalBytes(after)
    ensures Exact(bytes, workspaceBytes, after)
  {
  }

  lemma TallyLosses(sessions: seq<SF.SerialSession>, before: seq<SF.Capture>, after: seq<SF.Capture>, bytes: map<string, nat>,
                    frames: map<string, nat>)
    requires |after| == |sessions| && GT.Tallied(sessions, Views(before), Views(after), bytes, frames)
    ensures LossesOf(sessions, frames, Views(before), after)
  {
    hide SF.BytesOf, GT.Lookup;
  }

  lemma NothingLost(sessions: seq<SF.SerialSession>, captures: seq<SF.Capture>)
    requires |sessions| == |captures|
    ensures LossesOf(sessions, map[], Views(captures), captures)
  {
  }

  lemma Accounted(bytes: seq<int>, workspaceBytes: int, captures: seq<SF.Capture>, k: nat)
    requires Exact(bytes, workspaceBytes, captures) && k < |captures|
    ensures k < |bytes| && bytes[k] == SF.BytesOf(captures[k].all)
  {
  }

  lemma ExactAfter(bytes: seq<int>, workspaceBytes: int, captures: seq<SF.Capture>, k: nat, r: SF.Capture)
    requires Exact(bytes, workspaceBytes, captures) && k < |captures|
    ensures |bytes| == |captures|
    ensures Exact(bytes[k := SF.BytesOf(r.all)], workspaceBytes + SF.BytesOf(r.all) - bytes[k], captures[k := r])
  {
    hide SF.BytesOf, Flatten;
    BytesAfterUpdate(Views(captures), k, r.all);
    assert Views(captures[k := r]) == Views(captures)[k := r.all];
  }

  lemma ExactSame(bytes: seq<int>, workspaceBytes: int, before: seq<SF.Capture>, after: seq<SF.Capture>)
    requires Exact(bytes, workspaceBytes, before) && |after| == |before| && forall i | 0 <= i < |after| :: after[i].all == before[i].all
    ensures Exact(bytes, workspaceBytes, after)
  {
    assert Views(after) == Views(before);
  }

  lemma ArrivedBytes(all: seq<SF.DataFrame>, frame: SF.DataFrame, dropped: nat)
    requires dropped <= |all| + 1
    ensures SF.BytesOf((all + [frame])[dropped..]) == SF.BytesOf(all) + |frame.data| - SF.BytesOf((all + [frame])[..dropped])
  {
    hide SF.BytesOf;
    var more := all + [frame];
    assert more == more[..dropped] + more[dropped..];
    SF.BytesOfConcat(more[..dropped], more[dropped..]);
    SF.BytesOfConcat(all, [frame]);
    SF.OneFrame(frame);
  }

  /** The accounts of the first `n` sessions are those after a trim, the others still those before it. */
  predicate Adjusted(bytes: seq<int>, before: seq<SF.Capture>, after: seq<SF.Capture>, n: nat) {
    && |bytes| == |before| == |after|
    && (forall i | 0 <= i < n && i < |bytes| :: bytes[i] == SF.BytesOf(after[i].all))
    && forall i | n <= i < |bytes| :: bytes[i] == SF.BytesOf(before[i].all)
  }

  lemma TalliedBytes(sessions: seq<SF.SerialSession>, before: GT.Views, now: GT.Views, bytes: map<string, nat>, frames: map<string, nat>,
                     i: nat)
    requires GT.Tallied(sessions, before, now, bytes, frames) && i < |sessions|
    ensures |before| == |now| == |sessions| && SF.BytesOf(now[i]) == SF.BytesOf(before[i]) - GT.Lookup(bytes, sessions[i].id)
  {
    hide SF.BytesOf;
    SF.BytesOfParts(before[i], |before[i]| - |now[i]|);
  }

  // ----- counting losses

  /** What the own trim of session k and the aggregate trim took from session i together. */
  function Dropped(sessions: seq<SF.SerialSession>, k: nat, own: nat, affected: map<string, nat>, i: nat): nat
    requires i < |sessions|
  {
    GT.Lookup(affected, sessions[i].id) + if i == k then own else 0
  }

  /** The counts say what each session lost. */
  predicate LossesOf(sessions: seq<SF.SerialSession>, affected: map<string, nat>, before: GT.Views, after: seq<SF.Capture>) {
    && |sessions| == |before| == |after|
    && forall i | 0 <= i < |sessions| ::
         && |after[i].all| <= |before[i]| && GT.Lookup(affected, sessions[i].id) == |before[i]| - |after[i].all|
  }

  lemma BothTrims(sessions: seq<SF.SerialSession>, k: nat, own: nat, affected: map<string, nat>, before: seq<SF.Retained>,
                  frame: SF.DataFrame, appended: seq<SF.Retained>, after: seq<SF.Retained>)
    returns (lost: seq<nat>)
    requires k < |sessions| == |before| == |after| && own <= |before[k].all| + 1
    requires |appended| == |before| && appended == before[k := appended[k]] && appended[k].all == (before[k].all + [frame])[own..]
    requires LossesOf(sessions, affected, Views(appended), after)
    ensures lost == Lost(Views(before)[k := before[k].all + [frame]], after)
    ensures |lost| == |sessions| && forall i | 0 <= i < |sessions| :: lost[i] == Dropped(sessions, k, own, affected, i)
  {
    hide GT.Lookup;
    lost := Lost(Views(before)[k := before[k].all + [frame]], after);
  }

  lemma PerformAdd(ids: seq<string>, d: Desk, k: nat, frame: StorableFrame, maxFrames: nat, after: seq<SF.Retained>, lost: seq<nat>)
    requires Serves(d, ids) && k < |ids| && after == Capped(d.captures[k := SF.Arrived(d.captures[k], frame, maxFrames)])
    requires lost == Lost(Views(d.captures)[k := d.captures[k].all + [frame]], after)
    ensures var entry := Entry(ids[k], Captured(d.nextSeq[k], [frame], [Projected(frame)]));
            Perform(ids, d, Add(k, frame, maxFrames)) ==
            Desk(after, d.nextSeq[k := d.nextSeq[k] + 1], (d.log + [entry]) + Trims(ids, lost))
  {
    hide Capped, Lost, Trims, SF.Arrived, Views;
    var entry := Entry(ids[k], Captured(d.nextSeq[k], [frame], [Projected(frame)]));
    assert d.log + ([entry] + Trims(ids, lost)) == (d.log + [entry]) + Trims(ids, lost);
  }

  lemma OneTrim(sessions: seq<SF.SerialSession>, k: nat, own: nat, before: seq<SF.Retained>, after: seq<SF.Retained>)
    returns (lost: seq<nat>)
    requires k < |sessions| == |before| == |after| && own <= |before[k].all|
    requires after == before[k := after[k]] && after[k].all == before[k].all[own..]
    ensures lost == Lost(Views(before), after)
    ensures |lost| == |sessions| && forall i | 0 <= i < |sessions| :: lost[i] == Dropped(sessions, k, own, map[], i)
  {
    lost := Lost(Views(before), after);
  }

  lemma PerformSwitch(ids: seq<string>, d: Desk, k: nat, paused: bool, maxFrames: nat, after: seq<SF.Retained>, lost: seq<nat>)
    requires Serves(d, ids) && k < |ids| && after == d.captures[k := SF.Switched(d.captures[k], paused, maxFrames)]
    requires lost == Lost(Views(d.captures), after)
    ensures Perform(ids, d, SetPaused(k, paused, maxFrames)) == Desk(after, d.nextSeq, d.log + Trims(ids, lost))
  {
    hide Lost, Trims, SF.Switched, Views;
  }

  /**
   * A whole run.  Whatever frames arrive where, and however captures are paused, resumed and cleared: the sessions end
   * as the events say, the mutations are those the events record, and once they are applied the rows stored for each
   * session are the frames it retains, in order.  If the sessions were stored as retained, numbers suffice and frame
   * ids are new, the store takes all of them.
   */
  method CaptureAll(sessions: seq<SF.SerialSession>, nextSeq: seq<nat>, events: seq<Event>, ghost db: Database)
    returns (mutations: seq<Mutation>, ghost last: Desk)
    requires GT.Distinct(sessions) && |nextSeq| == |sessions| && AllRetained(GT.Nows(sessions))
    modifies sessions
    ensures var start := Desk(old(GT.Nows(sessions)), nextSeq, []);
            && last == PerformAll(Ids(sessions), start, events)
            && GT.Nows(sessions) == last.captures && mutations == Mutations(last.log)
            && (Ready(db, Ids(sessions), start, events) ==>
                  && ApplyAll(db, mutations).Ok?
                  && AllStored(ApplyAll(db, mutations).value, Ids(sessions), Views(last.captures), last.nextSeq))
            && (WithinCaps(start.captures) ==> WithinCaps(last.captures))
  {
    hide Perform, Ready, AllStored, ApplyAll, Exact, WithinCaps;
    ghost var ids, start := Ids(sessions), Desk(GT.Nows(sessions), nextSeq, []);
    var c := new CaptureController(sessions, nextSeq);
    for i := 0 to |events|
      invariant c.Valid() && fresh(c) && c.sessions == sessions && c.Now() == PerformAll(ids, start, events[..i])
    {
      assert events[..i + 1][..i] == events[..i];
      c.Handle(events[i]);
    }
    assert events[..|events|] == events;
    last := c.Now();
    mutations := Mutations(c.log);
    if Ready(db, ids, start, events) {
      ReadyIsStored(db, ids, start, events);
    }
    if WithinCaps(start.captures) {
      RunFits(ids, start, events);
    }
  }
}
