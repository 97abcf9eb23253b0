/** What a run of captures comes to, on values: what each session retains, and what is recorded for the store. */
module CaptureRun {
  import opened Bytes
  import opened WorkspaceTables
  import opened CaptureMirror
  import GT = GlobalTrim
  import SF = SessionFrames

  const MAX_GLOBAL_FRAME_BYTES: nat := 256 * 1024 * 1024

  // ----- frames that can be stored

  predicate PlainIdentifier(id: string) {
    && 1 <= |id| <= 128 && Alphanumeric(id[0])
    && forall i | 0 <= i < |id| :: Alphanumeric(id[i]) || id[i] == '.' || id[i] == '_' || id[i] == ':' || id[i] == '-'
  }

  predicate Alphanumeric(c: char) {
    'A' <= c <= 'Z' || 'a' <= c <= 'z' || '0' <= c <= '9'
  }

  /** Frames get a fresh id and the clock's time when they arrive, and the size of their data has been checked. */
  predicate Storable(f: SF.DataFrame) {
    && PlainIdentifier(f.id) && f.timestamp.At? && 0 <= f.timestamp.ms <= MAX_SAFE_INTEGER
    && |f.data| <= MAX_WORKSPACE_FRAME_BYTES
  }

  type StorableFrame = f: SF.DataFrame | Storable(f) witness SF.DataFrame("0", SF.RX, SF.At(0), [])

  function Projected(f: StorableFrame): Frame {
    Frame(f.id, f.data, f.timestamp.ms)
  }

  // ----- a run

  datatype Event =
    | Add(session: nat, frame: StorableFrame, maxFrames: nat)
    | SetPaused(session: nat, paused: bool, maxFrames: nat)
    | Clear(session: nat)

  /** What each session retains, its next sequence number, and everything recorded so far. */
  datatype Desk = Desk(captures: seq<SF.Retained>, nextSeq: seq<nat>, log: seq<Entry>)

  predicate Serves(d: Desk, ids: seq<string>) {
    |d.captures| == |d.nextSeq| == |ids|
  }

  function Views(captures: seq<SF.Capture>): (views: GT.Views)
    ensures |views| == |captures| && forall i | 0 <= i < |views| :: views[i] == captures[i].all
  {
    seq(|captures|, i requires 0 <= i < |captures| => captures[i].all)
  }

  function TotalBytes(captures: seq<SF.Capture>): nat {
    SF.BytesOf(Flatten(Views(captures)))
  }

  /** What is left of the views when the aggregate cap is enforced. */
  function Kept(captures: seq<SF.Retained>): (views: GT.Views)
    ensures |views| == |captures| && forall i | 0 <= i < |views| :: |views[i]| <= |captures[i].all|
  {
    GT.TrimAllCuts(Views(captures), TotalBytes(captures), MAX_GLOBAL_FRAME_BYTES);
    GT.TrimAll(Views(captures), TotalBytes(captures), MAX_GLOBAL_FRAME_BYTES).views
  }

  function Capped(captures: seq<SF.Retained>): (capped: seq<SF.Retained>)
    ensures |capped| == |captures|
  {
    var kept := Kept(captures);
    seq(|captures|, i requires 0 <= i < |captures| => SF.Without(captures[i], |captures[i].all| - |kept[i]|))
  }

  /** How many frames each session lost. */
  function Lost(before: GT.Views, after: seq<SF.Retained>): (lost: seq<nat>)
    requires |before| == |after|
    ensures |lost| == |after|
  {
    seq(|after|, i requires 0 <= i < |after| => if |before[i]| < |after[i].all| then 0 else |before[i]| - |after[i].all|)
  }

  /** One entry for every session that lost anything. */
  function Trims(ids: seq<string>, lost: seq<nat>): seq<Entry>
    requires |ids| == |lost|
  {
    if ids == [] then []
    else
      var n := |ids| - 1;
      Trims(ids[..n], lost[..n]) + if lost[n] > 0 then [Entry(ids[n], Trimmed(lost[n]))] else []
  }

  predicate Clearable(r: SF.Retained) {
    r.all != [] || r.counted
  }

  function Perform(ids: seq<string>, d: Desk, event: Event): (next: Desk)
    requires Serves(d, ids)
    ensures Serves(next, ids)
  {
    if event.session >= |ids| then d
    else
      match event
      case Add(k, frame, maxFrames) =>
        var arrived := Views(d.captures)[k := d.captures[k].all + [frame]];
        var captures := Capped(d.captures[k := SF.Arrived(d.captures[k], frame, maxFrames)]);
        var entry := Entry(ids[k], Captured(d.nextSeq[k], [frame], [Projected(frame)]));
        Desk(captures, d.nextSeq[k := d.nextSeq[k] + 1], d.log + ([entry] + Trims(ids, Lost(arrived, captures))))
      case SetPaused(k, paused, maxFrames) =>
        var captures := d.captures[k := SF.Switched(d.captures[k], paused, maxFrames)];
        Desk(captures, d.nextSeq, d.log + Trims(ids, Lost(Views(d.captures), captures)))
      case Clear(k) =>
        if !Clearable(d.captures[k]) then d
        else Desk(d.captures[k := SF.NOTHING_RETAINED], d.nextSeq[k := 0], d.log + [Entry(ids[k], Cleared)])
  }

  function PerformAll(ids: seq<string>, d: Desk, events: seq<Event>): (next: Desk)
    requires Serves(d, ids)
    ensures Serves(next, ids)
    decreases |events|
  {
    if events == [] then d else Perform(ids, PerformAll(ids, d, events[..|events| - 1]), events[|events| - 1])
  }

  // ----- what an event does

  /** The others keep their numbers and pause flags, and lose at most the front of what they retain. */
  predicate OthersKeep(d: Desk, next: Desk, k: nat) {
    && |next.captures| == |d.captures| == |next.nextSeq| == |d.nextSeq|
    && forall i | 0 <= i < |d.captures| && i != k ::
         && next.nextSeq[i] == d.nextSeq[i] && next.captures[i].paused == d.captures[i].paused
         && next.captures[i].counted == d.captures[i].counted && EndOf(next.captures[i].all, d.captures[i].all)
  }

  predicate EndOf(now: seq<SF.DataFrame>, was: seq<SF.DataFrame>) {
    |now| <= |was| && now == was[|was| - |now|..]
  }

  /** An event that names no session does nothing. */
  lemma UnknownMeans(ids: seq<string>, d: Desk, event: Event)
    requires Serves(d, ids) && event.session >= |ids|
    ensures Perform(ids, d, event) == d
  {
  }

  /** A frame is recorded under the next number, before any loss is, and comes last in its session. */
  lemma AddMeans(ids: seq<string>, d: Desk, k: nat, frame: StorableFrame, maxFrames: nat)
    requires Serves(d, ids) && k < |ids|
    ensures var next := Perform(ids, d, Add(k, frame, maxFrames)); var was, now := d.captures[k], next.captures[k];
            && OthersKeep(d, next, k) && next.nextSeq[k] == d.nextSeq[k] + 1
            && now.paused == was.paused && now.counted && EndOf(now.all, was.all + [frame])
            && |next.log| > |d.log| && next.log[..|d.log|] == d.log
            && next.log[|d.log|] == Entry(ids[k], Captured(d.nextSeq[k], [frame], [Frame(frame.id, frame.data, frame.timestamp.ms)]))
            && (forall i | |d.log| < i < |next.log| :: next.log[i].step.Trimmed? && next.log[i].step.count > 0)
  {
    hide SF.BytesOf, Flatten, Capped, Trims, Lost, SF.Arrived, OthersKeep, EndOf;
    var was := d.captures[k];
    var arrived := d.captures[k := SF.Arrived(was, frame, maxFrames)];
    var lost := Lost(Views(d.captures)[k := was.all + [frame]], Capped(arrived));
    var next := Perform(ids, d, Add(k, frame, maxFrames));
    CappedEnds(arrived);
    ArrivedEnds(was, frame, maxFrames);
    EndOfEnd(Capped(arrived)[k].all, arrived[k].all, was.all + [frame]);
    OthersAdded(d, next, k, arrived);
    TrimsAreTrims(ids, lost);
    var entry := Entry(ids[k], Captured(d.nextSeq[k], [frame], [Projected(frame)]));
    assert next.log == d.log + ([entry] + Trims(ids, lost));
    LogGrows(d.log, entry, Trims(ids, lost));
  }

  lemma ArrivedEnds(was: SF.Retained, frame: SF.DataFrame, maxFrames: nat)
    ensures SF.Arrived(was, frame, maxFrames).paused == was.paused && SF.Arrived(was, frame, maxFrames).counted
    ensures EndOf(SF.Arrived(was, frame, maxFrames).all, was.all + [frame])
  {
    hide SF.Arrived;
    SF.ArrivedMeans(was, frame, maxFrames);
  }

  lemma OthersAdded(d: Desk, next: Desk, k: nat, arrived: seq<SF.Retained>)
    requires |d.captures| == |d.nextSeq| == |arrived| && k < |d.captures| && next.captures == Capped(arrived)
    requires arrived == d.captures[k := arrived[k]] && next.nextSeq == d.nextSeq[k := d.nextSeq[k] + 1]
    ensures OthersKeep(d, next, k)
  {
    hide Capped, EndOf;
    CappedEnds(arrived);
  }

  lemma LogGrows(log: seq<Entry>, entry: Entry, trims: seq<Entry>)
    ensures var next := log + ([entry] + trims);
            && next[..|log|] == log && next[|log|] == entry
            && forall i | |log| < i < |next| :: next[i] in trims
  {
    var next := log + ([entry] + trims);
    forall i | |log| < i < |next| ensures next[i] in trims {
      assert next[i] == trims[i - |log| - 1];
    }
  }

  /** If neither the number of frames nor the bytes of the session or of all sessions are over the limits, nothing is lost. */
  lemma NothingIsLost(ids: seq<string>, d: Desk, k: nat, frame: StorableFrame, maxFrames: nat)
    requires Serves(d, ids) && k < |ids|
    requires (if d.captures[k].paused then d.captures[k].held + 1 else |d.captures[k].all| + 1) <= maxFrames + 500
    requires SF.BytesOf(d.captures[k].all + [frame]) <= 64 * 1024 * 1024
    requires SF.BytesOf(Flatten(Views(d.captures)[k := d.captures[k].all + [frame]])) <= 256 * 1024 * 1024
    ensures var next := Perform(ids, d, Add(k, frame, maxFrames));
            next.captures[k].all == d.captures[k].all + [frame] && forall i | 0 <= i < |ids| && i != k :: next.captures[i] == d.captures[i]
  {
    hide SF.BytesOf, Flatten, Capped, Trims, Lost, SF.Arrived;
    var arrived := d.captures[k := SF.Arrived(d.captures[k], frame, maxFrames)];
    NothingTrimmed(d.captures[k], frame, maxFrames);
    assert Views(arrived) == Views(d.captures)[k := d.captures[k].all + [frame]];
    NothingCapped(arrived);
  }

  lemma EndOfEnd(a: seq<SF.DataFrame>, b: seq<SF.DataFrame>, c: seq<SF.DataFrame>)
    requires EndOf(a, b) && EndOf(b, c)
    ensures EndOf(a, c)
  {
  }

  lemma CappedEnds(captures: seq<SF.Retained>)
    ensures var capped := Capped(captures);
            forall i | 0 <= i < |captures| ::
              && EndOf(capped[i].all, captures[i].all) && capped[i].paused == captures[i].paused
              && capped[i].counted == captures[i].counted
  {
    hide Kept;
  }

  lemma NothingTrimmed(was: SF.Retained, frame: SF.DataFrame, maxFrames: nat)
    requires (if was.paused then was.held + 1 else |was.all| + 1) <= maxFrames + 500
    requires SF.BytesOf(was.all + [frame]) <= 64 * 1024 * 1024
    ensures SF.Arrived(was, frame, maxFrames).all == was.all + [frame]
  {
    hide SF.BytesOf;
    var all := was.all + [frame];
    assert all[..0] == [] && all[0..] == all;
    SF.NoFrames();
  }

  lemma {:induction false} TrimsAreTrims(ids: seq<string>, lost: seq<nat>)
    requires |ids| == |lost|
    ensures forall e | e in Trims(ids, lost) :: e.step.Trimmed? && e.step.count > 0
  {
    if ids != [] { TrimsAreTrims(ids[..|ids| - 1], lost[..|ids| - 1]); }
  }

  /** The flag is set.  Pausing loses nothing; resuming holds nothing back any more and loses at most the front. */
  lemma SetPausedMeans(ids: seq<string>, d: Desk, k: nat, paused: bool, maxFrames: nat)
    requires Serves(d, ids) && k < |ids|
    ensures var next := Perform(ids, d, SetPaused(k, paused, maxFrames)); var was, now := d.captures[k], next.captures[k];
            && next.nextSeq == d.nextSeq && (forall i | 0 <= i < |ids| && i != k :: next.captures[i] == d.captures[i])
            && now.paused == paused && EndOf(now.all, was.all) && (!paused ==> now.held == 0)
            && (paused || was.held == 0 ==> now.all == was.all)
            && d.log <= next.log && forall i | |d.log| <= i < |next.log| :: next.log[i].step.Trimmed? && next.log[i].step.count > 0
  {
    hide SF.Switched, Trims, Lost;
    SF.SwitchedMeans(d.captures[k], paused, maxFrames);
    var captures := d.captures[k := SF.Switched(d.captures[k], paused, maxFrames)];
    TrimsAreTrims(ids, Lost(Views(d.captures), captures));
  }

  /** If there are frames or counters they go, numbering starts again, and that is recorded. */
  lemma ClearMeans(ids: seq<string>, d: Desk, k: nat)
    requires Serves(d, ids) && k < |ids|
    ensures var next := Perform(ids, d, Clear(k)); var was, now := d.captures[k], next.captures[k];
            && (forall i | 0 <= i < |ids| && i != k :: next.captures[i] == d.captures[i] && next.nextSeq[i] == d.nextSeq[i])
            && (was.all != [] || was.counted ==>
                  && now.all == [] && now.held == 0 && !now.paused && !now.counted && next.nextSeq[k] == 0
                  && next.log == d.log + [Entry(ids[k], Cleared)])
            && (was.all == [] && !was.counted ==> next == d)
  {
  }

  // ----- the byte caps

  predicate WithinCaps(captures: seq<SF.Retained>) {
    && TotalBytes(captures) <= 256 * 1024 * 1024
    && forall i | 0 <= i < |captures| :: SF.BytesOf(captures[i].all) <= 64 * 1024 * 1024
  }

  lemma BytesAfterUpdate(views: GT.Views, k: nat, v: seq<SF.DataFrame>)
    requires k < |views|
    ensures SF.BytesOf(Flatten(views[k := v])) == SF.BytesOf(Flatten(views)) - SF.BytesOf(views[k]) + SF.BytesOf(v)
  {
    hide SF.BytesOf;
    FlattenAround(views, k);
    FlattenAround(views[k := v], k);
    assert views[k := v][..k] == views[..k] && views[k := v][k + 1..] == views[k + 1..];
    var a, c := Flatten(views[..k]), Flatten(views[k + 1..]);
    SF.BytesOfConcat(a, views[k] + c);
    SF.BytesOfConcat(views[k], c);
    SF.BytesOfConcat(a, v + c);
    SF.BytesOfConcat(v, c);
  }

  lemma FlattenAround(views: GT.Views, k: nat)
    requires k < |views|
    ensures Flatten(views) == Flatten(views[..k]) + (views[k] + Flatten(views[k + 1..]))
  {
    assert views == views[..k] + views[k..] && views[k..][0] == views[k] && views[k..][1..] == views[k + 1..];
    FlattenAppend(views[..k], views[k..]);
  }

  /** Enforcing the aggregate cap meets it, and only takes from the front of sessions. */
  lemma CappedFits(captures: seq<SF.Retained>)
    ensures Views(Capped(captures)) == Kept(captures) && TotalBytes(Capped(captures)) <= MAX_GLOBAL_FRAME_BYTES
    ensures forall i | 0 <= i < |captures| :: SF.BytesOf(Capped(captures)[i].all) <= SF.BytesOf(captures[i].all)
  {
    hide SF.BytesOf, Flatten, GT.TrimAll, Kept;
    var capped, kept := Capped(captures), Kept(captures);
    KeptCuts(captures);
    forall i | 0 <= i < |captures| ensures capped[i].all == kept[i] && SF.BytesOf(capped[i].all) <= SF.BytesOf(captures[i].all) {
      SF.BytesOfParts(captures[i].all, |captures[i].all| - |kept[i]|);
    }
    assert Views(capped) == kept;
  }

  /** Sessions that shrank to what is kept are capped. */
  lemma CappedBy(before: seq<SF.Retained>, now: seq<SF.Capture>)
    requires GT.Shrunk(before, now) && Views(now) == Kept(before)
    ensures now == Capped(before)
  {
    hide SF.BytesOf, Flatten, GT.TrimAll, Kept;
    var kept := Kept(before);
    KeptCuts(before);
    forall i | 0 <= i < |now| ensures now[i] == Capped(before)[i] {
      assert now[i].all == Views(now)[i] == kept[i];
    }
  }

  lemma NothingCapped(captures: seq<SF.Retained>)
    requires TotalBytes(captures) <= MAX_GLOBAL_FRAME_BYTES
    ensures Capped(captures) == captures
  {
    hide SF.BytesOf, Flatten;
    GT.TrimStep(Views(captures), TotalBytes(captures), MAX_GLOBAL_FRAME_BYTES);
    forall i | 0 <= i < |captures| ensures Capped(captures)[i] == captures[i] {
      assert captures[i].all[0..] == captures[i].all;
    }
  }

  lemma KeptCuts(captures: seq<SF.Retained>)
    ensures GT.Cut(Views(captures), Kept(captures)) && SF.BytesOf(Flatten(Kept(captures))) <= MAX_GLOBAL_FRAME_BYTES
  {
    hide SF.BytesOf, Flatten, GT.TrimAll;
    GT.TrimAllCuts(Views(captures), TotalBytes(captures), MAX_GLOBAL_FRAME_BYTES);
  }

  /** Every event keeps every session within its byte cap and all of them together within the aggregate cap. */
  lemma PerformFits(ids: seq<string>, d: Desk, event: Event)
    requires Serves(d, ids) && WithinCaps(d.captures)
    ensures WithinCaps(Perform(ids, d, event).captures)
  {
    hide SF.BytesOf, Flatten, Capped, SF.Trimmed, Trims, Lost;
    var k := event.session;
    if k < |ids| {
      match event
      case Add(_, frame, maxFrames) =>
        ArrivedFits(d.captures[k], frame, maxFrames);
        CappedFits(d.captures[k := SF.Arrived(d.captures[k], frame, maxFrames)]);
      case SetPaused(_, paused, maxFrames) =>
        SwitchedFits(d.captures[k], paused, maxFrames);
        ShrunkFits(d.captures, k, SF.Switched(d.captures[k], paused, maxFrames));
      case Clear(_) =>
        SF.NoFrames();
        ShrunkFits(d.captures, k, SF.NOTHING_RETAINED);
    }
  }

  lemma ShrunkFits(captures: seq<SF.Retained>, k: nat, r: SF.Retained)
    requires WithinCaps(captures) && k < |captures| && SF.BytesOf(r.all) <= SF.BytesOf(captures[k].all)
    ensures WithinCaps(captures[k := r])
  {
    hide SF.BytesOf, Flatten;
    BytesAfterUpdate(Views(captures), k, r.all);
    assert Views(captures[k := r]) == Views(captures)[k := r.all];
  }

  lemma ArrivedFits(r: SF.Retained, frame: SF.DataFrame, maxFrames: nat)
    ensures SF.BytesOf(SF.Arrived(r, frame, maxFrames).all) <= SF.MAX_SESSION_FRAME_BYTES
  {
    hide SF.BytesOf, SF.Trimmed;
    var pushed := SF.Capture(r.all + [frame], if r.paused then r.held + 1 else 0, r.paused, true);
    SF.TrimmedFits(pushed, if r.paused then pushed.held else |pushed.all|, maxFrames);
  }

  lemma SwitchedFits(r: SF.Retained, paused: bool, maxFrames: nat)
    ensures SF.BytesOf(SF.Switched(r, paused, maxFrames).all) <= SF.BytesOf(r.all)
  {
    hide SF.BytesOf, SF.Least;
    if paused != r.paused && !paused && r.held > 0 {
      var all := r.(held := 0, paused := false);
      SF.BytesOfParts(r.all, |r.all| - |SF.Trimmed(all, |r.all|, maxFrames).all|);
    }
  }

  lemma {:induction false} RunFits(ids: seq<string>, d: Desk, events: seq<Event>)
    requires Serves(d, ids) && WithinCaps(d.captures)
    ensures WithinCaps(PerformAll(ids, d, events).captures)
    decreases |events|
  {
    hide Perform, WithinCaps;
    if events != [] {
      RunFits(ids, d, events[..|events| - 1]);
      PerformFits(ids, PerformAll(ids, d, events[..|events| - 1]), events[|events| - 1]);
    }
  }

  // ----- the log accounts for what is retained

  predicate DistinctNames(ids: seq<string>) {
    forall i, j | 0 <= i < j < |ids| :: ids[i] != ids[j]
  }

  /** What the log says of each session: what it retains and its next sequence number. */
  predicate Tracks(ids: seq<string>, starts: GT.Views, firsts: seq<nat>, log: seq<Entry>, views: GT.Views, nexts: seq<nat>) {
    && |ids| == |starts| == |firsts| == |views| == |nexts|
    && forall i | 0 <= i < |ids| ::
         && InMemory(starts[i], ids[i], log) == views[i]
         && Faithful(firsts[i], ids[i], log) && NextSeq(firsts[i], ids[i], log) == nexts[i]
  }

  /** One more entry, of session k. */
  lemma TracksEntry(ids: seq<string>, starts: GT.Views, firsts: seq<nat>, log: seq<Entry>, views: GT.Views, nexts: seq<nat>,
                    k: nat, step: Step)
    requires DistinctNames(ids) && Tracks(ids, starts, firsts, log, views, nexts) && k < |ids| && FaithfulStep(nexts[k], step)
    ensures Tracks(ids, starts, firsts, log + [Entry(ids[k], step)], views[k := StepInMemory(views[k], step)],
                   nexts[k := SeqAfter(nexts[k], step)])
  {
    hide InMemory, Faithful, NextSeq, StepInMemory, SeqAfter, FaithfulStep;
    forall i | 0 <= i < |ids| ensures ids[i] == ids[k] <==> i == k {
    }
    forall i | 0 <= i < |ids| {
      LogEntry(starts[i], firsts[i], ids[i], log, Entry(ids[k], step));
    }
  }

  /** The views with what was lost taken off the first `n` of them. */
  function Shortened(views: GT.Views, lost: seq<nat>, n: nat): GT.Views
    requires n <= |views| == |lost|
  {
    seq(|views|, i requires 0 <= i < |views| => if i < n then views[i][Min(lost[i], |views[i]|)..] else views[i])
  }

  lemma ShortenedNext(views: GT.Views, lost: seq<nat>, n: nat)
    requires n < |views| == |lost|
    ensures Shortened(views, lost, 0) == views
    ensures Shortened(views, lost, n + 1) == Shortened(views, lost, n)[n := views[n][Min(lost[n], |views[n]|)..]]
    ensures lost[n] == 0 ==> Shortened(views, lost, n + 1) == Shortened(views, lost, n)
  {
    assert views[n][0..] == views[n];
  }

  lemma {:induction false} TracksTrims(ids: seq<string>, starts: GT.Views, firsts: seq<nat>, log: seq<Entry>, views: GT.Views,
                                       nexts: seq<nat>, lost: seq<nat>, n: nat)
    requires DistinctNames(ids) && Tracks(ids, starts, firsts, log, views, nexts) && n <= |ids| == |lost|
    ensures |views| == |ids| && Tracks(ids, starts, firsts, log + Trims(ids[..n], lost[..n]), Shortened(views, lost, n), nexts)
    decreases n
  {
    hide Tracks, Shortened, DistinctNames, Trims, FaithfulStep;
    TracksSize(ids, starts, firsts, log, views, nexts);
    if n == 0 {
      NoTrims(ids, lost);
      assert log + [] == log;
      ShortenedNone(views, lost);
    } else {
      var m := n - 1;
      TracksTrims(ids, starts, firsts, log, views, nexts, lost, m);
      ShortenedNext(views, lost, m);
      TrimsNext(ids, lost, m);
      if lost[m] > 0 {
        var step := Step.Trimmed(lost[m]);
        assert FaithfulStep(nexts[m], step) by { TrimIsFaithful(nexts[m], step); }
        var before := log + Trims(ids[..m], lost[..m]);
        ShortenedAt(views, lost, m);
        TracksEntry(ids, starts, firsts, before, Shortened(views, lost, m), nexts, m, step);
        assert nexts[m := nexts[m]] == nexts;
        assert before + [Entry(ids[m], step)] == log + (Trims(ids[..m], lost[..m]) + [Entry(ids[m], step)]);
      } else {
        assert Trims(ids[..n], lost[..n]) == Trims(ids[..m], lost[..m]);
      }
    }
  }

  lemma TrimIsFaithful(next: nat, step: Step)
    requires step.Trimmed?
    ensures FaithfulStep(next, step)
  {
  }

  lemma NoTrims(ids: seq<string>, lost: seq<nat>)
    ensures Trims(ids[..0], lost[..0]) == []
  {
  }

  lemma ShortenedNone(views: GT.Views, lost: seq<nat>)
    requires |views| == |lost|
    ensures Shortened(views, lost, 0) == views
  {
  }

  lemma ShortenedAt(views: GT.Views, lost: seq<nat>, n: nat)
    requires n < |views| == |lost|
    ensures |Shortened(views, lost, n)| == |views| && Shortened(views, lost, n)[n] == views[n]
  {
  }

  lemma TracksSize(ids: seq<string>, starts: GT.Views, firsts: seq<nat>, log: seq<Entry>, views: GT.Views, nexts: seq<nat>)
    requires Tracks(ids, starts, firsts, log, views, nexts)
    ensures |ids| == |starts| == |firsts| == |views| == |nexts|
  {
  }

  lemma TrimsNext(ids: seq<string>, lost: seq<nat>, n: nat)
    requires n < |ids| == |lost|
    ensures Trims(ids[..n + 1], lost[..n + 1]) ==
            Trims(ids[..n], lost[..n]) + if lost[n] > 0 then [Entry(ids[n], Trimmed(lost[n]))] else []
  {
    assert ids[..n + 1][..n] == ids[..n] && lost[..n + 1][..n] == lost[..n];
  }

  /** Where only prefixes went, the counts of what was lost say what is left. */
  predicate FrontsLost(before: GT.Views, after: seq<SF.Retained>) {
    && |before| == |after|
    && forall i | 0 <= i < |after| :: |after[i].all| <= |before[i]| && after[i].all == before[i][|before[i]| - |after[i].all|..]
  }

  lemma ShortenedAll(before: GT.Views, after: seq<SF.Retained>)
    requires FrontsLost(before, after)
    ensures Shortened(before, Lost(before, after), |before|) == Views(after)
  {
  }

  lemma TracksLost(ids: seq<string>, starts: GT.Views, firsts: seq<nat>, log: seq<Entry>, before: GT.Views, nexts: seq<nat>,
                   after: seq<SF.Retained>)
    requires DistinctNames(ids) && Tracks(ids, starts, firsts, log, before, nexts) && FrontsLost(before, after) && |after| == |ids|
    ensures Tracks(ids, starts, firsts, log + Trims(ids, Lost(before, after)), Views(after), nexts)
  {
    hide Tracks, Shortened, FrontsLost, Lost, Trims, DistinctNames;
    var lost := LostSize(before, after);
    TracksTrims(ids, starts, firsts, log, before, nexts, lost, |ids|);
    ShortenedAll(before, after);
    assert ids[..|ids|] == ids && lost[..|ids|] == lost;
  }

  lemma LostSize(before: GT.Views, after: seq<SF.Retained>) returns (lost: seq<nat>)
    requires FrontsLost(before, after)
    ensures |before| == |after| == |lost| && lost == Lost(before, after)
  {
    lost := Lost(before, after);
  }

  /** Every trim takes from the front. */
  lemma FrontsOfArrival(captures: seq<SF.Retained>, k: nat, frame: SF.DataFrame, maxFrames: nat)
    requires k < |captures|
    ensures FrontsLost(Views(captures)[k := captures[k].all + [frame]],
                       Capped(captures[k := SF.Arrived(captures[k], frame, maxFrames)]))
  {
    hide SF.BytesOf, Flatten, GT.TrimAll, Kept, SF.Least, SF.CountCut;
    var arrived := captures[k := SF.Arrived(captures[k], frame, maxFrames)];
    var before := Views(captures)[k := captures[k].all + [frame]];
    KeptCuts(arrived);
    var after, kept := Capped(arrived), Kept(arrived);
    forall i | 0 <= i < |after|
      ensures |after[i].all| <= |before[i]| && after[i].all == before[i][|before[i]| - |after[i].all|..]
    {
      assert after[i].all == arrived[i].all[|arrived[i].all| - |kept[i]|..];
      assert arrived[i].all == before[i][|before[i]| - |arrived[i].all|..];
    }
  }

  lemma FrontsOfSwitch(captures: seq<SF.Retained>, k: nat, paused: bool, maxFrames: nat)
    requires k < |captures|
    ensures FrontsLost(Views(captures), captures[k := SF.Switched(captures[k], paused, maxFrames)])
  {
    hide SF.BytesOf, SF.Least, SF.CountCut;
  }

  lemma {:induction false} PerformTracks(ids: seq<string>, starts: GT.Views, firsts: seq<nat>, d: Desk, event: Event)
    requires Serves(d, ids) && DistinctNames(ids) && Tracks(ids, starts, firsts, d.log, Views(d.captures), d.nextSeq)
    ensures var next := Perform(ids, d, event);
            Tracks(ids, starts, firsts, next.log, Views(next.captures), next.nextSeq)
  {
    hide Tracks, DistinctNames, Views, Capped, Trims, Lost, SF.Arrived, SF.Switched, FrontsLost;
    var k := event.session;
    if k < |ids| {
      match event
      case Add(_, frame, maxFrames) =>
        ArrivalTracks(ids, starts, firsts, d, k, frame, maxFrames);
      case SetPaused(_, paused, maxFrames) =>
        var captures := d.captures[k := SF.Switched(d.captures[k], paused, maxFrames)];
        FrontsOfSwitch(d.captures, k, paused, maxFrames);
        TracksLost(ids, starts, firsts, d.log, Views(d.captures), d.nextSeq, captures);
      case Clear(_) =>
        ViewsUpdate(d.captures, k, SF.NOTHING_RETAINED);
        TracksEntry(ids, starts, firsts, d.log, Views(d.captures), d.nextSeq, k, Cleared);
    }
  }

  lemma ViewsUpdate(captures: seq<SF.Retained>, k: nat, r: SF.Retained)
    requires k < |captures|
    ensures Views(captures[k := r]) == Views(captures)[k := r.all]
  {
  }

  lemma ArrivalTracks(ids: seq<string>, starts: GT.Views, firsts: seq<nat>, d: Desk, k: nat, frame: StorableFrame, maxFrames: nat)
    requires Serves(d, ids) && DistinctNames(ids) && Tracks(ids, starts, firsts, d.log, Views(d.captures), d.nextSeq) && k < |ids|
    ensures var next := Perform(ids, d, Add(k, frame, maxFrames));
            Tracks(ids, starts, firsts, next.log, Views(next.captures), next.nextSeq)
  {
    hide Tracks, DistinctNames, Capped, Trims, Lost, SF.Arrived, FrontsLost;
    var arrived := Views(d.captures)[k := d.captures[k].all + [frame]];
    var captures := Capped(d.captures[k := SF.Arrived(d.captures[k], frame, maxFrames)]);
    var step := Captured(d.nextSeq[k], [frame], [Projected(frame)]);
    TracksEntry(ids, starts, firsts, d.log, Views(d.captures), d.nextSeq, k, step);
    FrontsOfArrival(d.captures, k, frame, maxFrames);
    var entry := [Entry(ids[k], step)];
    TracksLost(ids, starts, firsts, d.log + entry, arrived, d.nextSeq[k := d.nextSeq[k] + 1], captures);
    assert (d.log + entry) + Trims(ids, Lost(arrived, captures)) == d.log + (entry + Trims(ids, Lost(arrived, captures)));
  }

  lemma TracksNothing(ids: seq<string>, starts: GT.Views, firsts: seq<nat>)
    requires |ids| == |starts| == |firsts|
    ensures Tracks(ids, starts, firsts, [], starts, firsts)
  {
  }

  lemma {:induction false} RunTracks(ids: seq<string>, d: Desk, events: seq<Event>)
    requires Serves(d, ids) && DistinctNames(ids) && d.log == []
    ensures var last := PerformAll(ids, d, events);
            Tracks(ids, Views(d.captures), d.nextSeq, last.log, Views(last.captures), last.nextSeq)
    decreases |events|
  {
    hide Perform, Tracks, DistinctNames, Views;
    if events == [] {
      assert |Views(d.captures)| == |ids| by { ViewsSize(d.captures); }
      TracksNothing(ids, Views(d.captures), d.nextSeq);
    } else {
      var most, last := events[..|events| - 1], events[|events| - 1];
      RunTracks(ids, d, most);
      PerformTracks(ids, Views(d.captures), d.nextSeq, PerformAll(ids, d, most), last);
    }
  }

  lemma ViewsSize(captures: seq<SF.Retained>)
    ensures |Views(captures)| == |captures|
  {
  }

  // ----- the store takes what is recorded

  /** The sessions are there and not archived. */
  predicate Open(db: Database, ids: seq<string>) {
    forall i | 0 <= i < |ids| :: ValidIdentifier(ids[i]) && Visible(db, ids[i])
  }

  /** Each session is stored as it is retained. */
  predicate AllStored(db: Database, ids: seq<string>, views: GT.Views, nexts: seq<nat>) {
    && |ids| == |views| == |nexts|
    && forall i | 0 <= i < |ids| :: Stored(db, ids[i], views[i], nexts[i])
  }

  /** What has been recorded goes into the store without an error. */
  predicate Applied(db: Database, ids: seq<string>, log: seq<Entry>) {
    ApplyAll(db, Mutations(log)).Ok? && Open(ApplyAll(db, Mutations(log)).value, ids)
  }

  /** Every frame that arrives has an id of its own within its session. */
  predicate NewIds(captures: seq<SF.Retained>, events: seq<Event>) {
    forall j | 0 <= j < |events| && events[j].Add? && events[j].session < |captures| ::
      && NewId(captures[events[j].session].all, events[j].frame.id)
      && forall i | 0 <= i < j && events[i].Add? && events[i].session == events[j].session :: events[i].frame.id != events[j].frame.id
  }

  predicate NewId(all: seq<SF.DataFrame>, id: string) {
    forall f | f in all :: f.id != id
  }

  lemma PlainIsValid(id: string)
    requires PlainIdentifier(id)
    ensures ValidIdentifier(id)
  {
  }

  /** Appends, trims and replacements leave every session where it is. */
  lemma StaysOpen(db: Database, ids: seq<string>, m: Mutation)
    requires Open(db, ids) && Apply(db, m).Ok? && (m.AppendFrames? || m.TrimCapture? || m.ReplaceCapture?)
    ensures Open(Apply(db, m).value, ids)
  {
    hide InsertAll, ValidIdentifier, TrimRows;
  }

  lemma EntryApplies(db: Database, ids: seq<string>, log: seq<Entry>, e: Entry)
    requires Applied(db, ids, log) && Apply(ApplyAll(db, Mutations(log)).value, MutationOf(e)).Ok?
    ensures Applied(db, ids, log + [e])
  {
    hide Apply, Open;
    var before := ApplyAll(db, Mutations(log)).value;
    assert Mutations(log + [e]) == Mutations(log) + [MutationOf(e)];
    ApplyAllConcat(db, Mutations(log), [MutationOf(e)]);
    assert [MutationOf(e)][1..] == [];
    StaysOpen(before, ids, MutationOf(e));
  }

  lemma {:induction false} TrimsApply(db: Database, ids: seq<string>, log: seq<Entry>, lost: seq<nat>, n: nat)
    requires Applied(db, ids, log) && n <= |ids| == |lost|
    ensures Applied(db, ids, log + Trims(ids[..n], lost[..n]))
    decreases n
  {
    hide Applied, Trims;
    if n == 0 {
      NoTrims(ids, lost);
      assert log + [] == log;
    } else {
      var m := n - 1;
      TrimsApply(db, ids, log, lost, m);
      TrimsNext(ids, lost, m);
      var before := log + Trims(ids[..m], lost[..m]);
      if lost[m] > 0 {
        TrimApplies(db, ids, before, m, lost[m]);
        assert before + [Entry(ids[m], Trimmed(lost[m]))] == log + (Trims(ids[..m], lost[..m]) + [Entry(ids[m], Trimmed(lost[m]))]);
      } else {
        assert Trims(ids[..n], lost[..n]) == Trims(ids[..m], lost[..m]);
      }
    }
  }

  lemma TrimApplies(db: Database, ids: seq<string>, log: seq<Entry>, k: nat, count: nat)
    requires Applied(db, ids, log) && k < |ids| && count > 0
    ensures Applied(db, ids, log + [Entry(ids[k], Trimmed(count))])
  {
    hide ApplyAll, ValidIdentifier;
    EntryApplies(db, ids, log, Entry(ids[k], Trimmed(count)));
  }

  lemma ClearApplies(db: Database, ids: seq<string>, log: seq<Entry>, k: nat)
    requires Applied(db, ids, log) && k < |ids|
    ensures Applied(db, ids, log + [Entry(ids[k], Cleared)])
  {
    hide ApplyAll, ValidIdentifier;
    EntryApplies(db, ids, log, Entry(ids[k], Cleared));
  }

  /** A frame with a new id goes behind the rows of its session. */
  lemma CaptureApplies(db: Database, ids: seq<string>, log: seq<Entry>, k: nat, all: seq<SF.DataFrame>, next: nat, frame: StorableFrame)
    requires Applied(db, ids, log) && k < |ids| && NewId(all, frame.id) && next <= MAX_I64
    requires Stored(ApplyAll(db, Mutations(log)).value, ids[k], all, next)
    ensures Applied(db, ids, log + [Entry(ids[k], Captured(next, [frame], [Projected(frame)]))])
  {
    hide ApplyAll, ValidIdentifier, InsertAll;
    var now := ApplyAll(db, Mutations(log)).value;
    var rows := now.sessions[ids[k]].content.rows;
    InsertOne(rows, all, next, frame);
    EntryApplies(db, ids, log, Entry(ids[k], Captured(next, [frame], [Projected(frame)])));
  }

  lemma InsertOne(rows: seq<Row>, all: seq<SF.DataFrame>, next: nat, frame: StorableFrame)
    requires Mirrors(rows, all) && Below(rows, next) && NewId(all, frame.id) && next <= MAX_I64
    ensures InsertAll(rows, next, [Projected(frame)]).Ok?
  {
    PlainIsValid(frame.id);
    var row := Row(next, Projected(frame));
    forall i | 0 <= i < |rows| ensures rows[i].frame.id != frame.id {
      assert SameFrame(all[i], rows[i].frame) && all[i] in all;
    }
    assert InsertRow(rows, row).Ok?;
    assert [Projected(frame)][1..] == [];
  }

  /** One event: what it records is taken. */
  lemma PerformApplies(db: Database, ids: seq<string>, d: Desk, event: Event)
    requires Serves(d, ids) && Applied(db, ids, d.log)
    requires AllStored(ApplyAll(db, Mutations(d.log)).value, ids, Views(d.captures), d.nextSeq)
    requires event.Add? && event.session < |ids| ==>
               NewId(d.captures[event.session].all, event.frame.id) && d.nextSeq[event.session] <= MAX_I64
    ensures Applied(db, ids, Perform(ids, d, event).log)
  {
    hide Applied, ApplyAll, Capped, Trims, Lost, SF.Arrived, SF.Switched, Stored, NewId;
    var k := event.session;
    if k < |ids| {
      match event
      case Add(_, frame, maxFrames) =>
        var arrived := Views(d.captures)[k := d.captures[k].all + [frame]];
        var captures := Capped(d.captures[k := SF.Arrived(d.captures[k], frame, maxFrames)]);
        var entry := [Entry(ids[k], Captured(d.nextSeq[k], [frame], [Projected(frame)]))];
        CaptureApplies(db, ids, d.log, k, Views(d.captures)[k], d.nextSeq[k], frame);
        AllTrimsApply(db, ids, d.log + entry, Lost(arrived, captures));
        assert d.log + entry + Trims(ids, Lost(arrived, captures)) == d.log + (entry + Trims(ids, Lost(arrived, captures)));
      case SetPaused(_, paused, maxFrames) =>
        AllTrimsApply(db, ids, d.log, Lost(Views(d.captures), d.captures[k := SF.Switched(d.captures[k], paused, maxFrames)]));
      case Clear(_) =>
        ClearApplies(db, ids, d.log, k);
    }
  }

  lemma AllTrimsApply(db: Database, ids: seq<string>, log: seq<Entry>, lost: seq<nat>)
    requires Applied(db, ids, log) && |ids| == |lost|
    ensures Applied(db, ids, log + Trims(ids, lost))
  {
    hide Applied, Trims;
    TrimsApply(db, ids, log, lost, |ids|);
    assert ids[..|ids|] == ids && lost[..|ids|] == lost;
  }

  /** What a session retains it retained before, or it has just arrived. */
  lemma PerformFrom(ids: seq<string>, d: Desk, event: Event, k: nat, f: SF.DataFrame)
    requires Serves(d, ids) && k < |ids| && f in Perform(ids, d, event).captures[k].all
    ensures f in d.captures[k].all || (event.Add? && event.session == k && event.frame == f)
  {
    hide SF.BytesOf, Flatten, GT.TrimAll, Kept, SF.Least, SF.CountCut, Trims, Lost;
  }

  lemma PerformCounts(ids: seq<string>, d: Desk, event: Event, k: nat)
    requires Serves(d, ids) && k < |ids|
    ensures Perform(ids, d, event).nextSeq[k] <= d.nextSeq[k] + 1
  {
    hide Capped, Trims, Lost, SF.Arrived, SF.Switched;
  }

  lemma {:induction false} RunCounts(ids: seq<string>, d: Desk, events: seq<Event>, k: nat)
    requires Serves(d, ids) && k < |ids|
    ensures PerformAll(ids, d, events).nextSeq[k] <= d.nextSeq[k] + |events|
    decreases |events|
  {
    hide Perform;
    if events != [] {
      RunCounts(ids, d, events[..|events| - 1], k);
      PerformCounts(ids, PerformAll(ids, d, events[..|events| - 1]), events[|events| - 1], k);
    }
  }

  lemma {:induction false} RunFrom(ids: seq<string>, d: Desk, events: seq<Event>, k: nat, f: SF.DataFrame)
    requires Serves(d, ids) && k < |ids| && f in PerformAll(ids, d, events).captures[k].all
    ensures f in d.captures[k].all || exists i :: 0 <= i < |events| && events[i].Add? && events[i].session == k && events[i].frame == f
    decreases |events|
  {
    hide Perform;
    if events != [] {
      var most, last := events[..|events| - 1], events[|events| - 1];
      PerformFrom(ids, PerformAll(ids, d, most), last, k, f);
      if f in PerformAll(ids, d, most).captures[k].all {
        RunFrom(ids, d, most, k, f);
        if f !in d.captures[k].all {
          var i :| 0 <= i < |most| && most[i].Add? && most[i].session == k && most[i].frame == f;
          assert events[i] == most[i];
        }
      } else {
        assert events[|events| - 1] == last;
      }
    }
  }

  /** Before its last event a run leaves that event's id unused. */
  lemma LastIsNew(ids: seq<string>, d: Desk, events: seq<Event>)
    requires Serves(d, ids) && NewIds(d.captures, events) && events != []
    ensures NewIds(d.captures, events[..|events| - 1])
    ensures var most, last := events[..|events| - 1], events[|events| - 1];
            last.Add? && last.session < |ids| ==> NewId(PerformAll(ids, d, most).captures[last.session].all, last.frame.id)
  {
    hide PerformAll;
    var most, last := events[..|events| - 1], events[|events| - 1];
    assert forall i | 0 <= i < |most| :: most[i] == events[i];
    if last.Add? && last.session < |ids| {
      var k := last.session;
      forall f | f in PerformAll(ids, d, most).captures[k].all ensures f.id != last.frame.id {
        RunFrom(ids, d, most, k, f);
      }
    }
  }

  /** What can be checked before a run: the sessions are open and stored as retained, ids are new, numbers suffice. */
  predicate Ready(db: Database, ids: seq<string>, d: Desk, events: seq<Event>) {
    && Serves(d, ids) && DistinctNames(ids) && d.log == [] && Open(db, ids)
    && AllStored(db, ids, Views(d.captures), d.nextSeq) && NewIds(d.captures, events)
    && forall k | 0 <= k < |ids| :: d.nextSeq[k] + |events| <= MAX_I64
  }

  /** Once the recorded mutations are applied, each session is stored as it is retained. */
  lemma RunStored(db: Database, ids: seq<string>, d: Desk, events: seq<Event>)
    requires Serves(d, ids) && DistinctNames(ids) && d.log == [] && AllStored(db, ids, Views(d.captures), d.nextSeq)
    requires ApplyAll(db, Mutations(PerformAll(ids, d, events).log)).Ok?
    ensures var last := PerformAll(ids, d, events);
            AllStored(ApplyAll(db, Mutations(last.log)).value, ids, Views(last.captures), last.nextSeq)
  {
    hide PerformAll, ApplyAll, InMemory, NextSeq, Faithful, Stored, Mutations;
    var last := PerformAll(ids, d, events);
    RunTracks(ids, d, events);
    forall i | 0 <= i < |ids|
      ensures Stored(ApplyAll(db, Mutations(last.log)).value, ids[i], Views(last.captures)[i], last.nextSeq[i])
    {
      StoredEqualsRetained(db, ids[i], Views(d.captures)[i], d.nextSeq[i], last.log);
    }
  }

  /** A run that is ready records nothing that the store refuses. */
  lemma {:induction false} RunApplies(db: Database, ids: seq<string>, d: Desk, events: seq<Event>)
    requires Ready(db, ids, d, events)
    ensures Applied(db, ids, PerformAll(ids, d, events).log)
    decreases |events|
  {
    hide Perform, Applied, AllStored, NewIds, NewId, DistinctNames, Open;
    if events == [] {
      NothingApplied(db, ids);
    } else {
      var most, last := events[..|events| - 1], events[|events| - 1];
      LastIsNew(ids, d, events);
      RunApplies(db, ids, d, most);
      var before := PerformAll(ids, d, most);
      assert ApplyAll(db, Mutations(before.log)).Ok? by { AppliedIsOk(db, ids, before.log); }
      RunStored(db, ids, d, most);
      if last.session < |ids| { RunCounts(ids, d, most, last.session); }
      PerformApplies(db, ids, before, last);
    }
  }

  lemma ReadyIsStored(db: Database, ids: seq<string>, d: Desk, events: seq<Event>)
    requires Ready(db, ids, d, events)
    ensures var last := PerformAll(ids, d, events);
            && ApplyAll(db, Mutations(last.log)).Ok?
            && AllStored(ApplyAll(db, Mutations(last.log)).value, ids, Views(last.captures), last.nextSeq)
  {
    hide PerformAll, ApplyAll, AllStored, NewIds, DistinctNames, Open, Applied;
    RunApplies(db, ids, d, events);
    AppliedIsOk(db, ids, PerformAll(ids, d, events).log);
    RunStored(db, ids, d, events);
  }

  lemma NothingApplied(db: Database, ids: seq<string>)
    requires Open(db, ids)
    ensures Applied(db, ids, [])
  {
  }

  lemma AppliedIsOk(db: Database, ids: seq<string>, log: seq<Entry>)
    requires Applied(db, ids, log)
    ensures ApplyAll(db, Mutations(log)).Ok?
  {
  }
}
