/** The frame rows of a project stay equal to the captures retained in memory, session by session. */
module CaptureMirror {
  import opened Bytes
  import opened WorkspaceTables
  import SF = SessionFrames

  /** What happens to a capture: frames arrive with fresh sequence numbers, the oldest ones are dropped, or all of them. */
  datatype Step =
    | Captured(startSeq: nat, frames: seq<SF.DataFrame>, stored: seq<Frame>)
    | Trimmed(count: nat)
    | Cleared

  /** What is recorded, and for which session. */
  datatype Entry = Entry(sessionId: string, step: Step)

  predicate SameFrame(f: SF.DataFrame, stored: Frame) {
    f.id == stored.id && f.data == stored.data && (f.timestamp.At? ==> stored.timestampMs == f.timestamp.ms)
  }

  predicate Mirrors(rows: seq<Row>, all: seq<SF.DataFrame>) {
    |rows| == |all| && forall i | 0 <= i < |all| :: SameFrame(all[i], rows[i].frame)
  }

  function StepInMemory(all: seq<SF.DataFrame>, step: Step): seq<SF.DataFrame> {
    match step
    case Captured(_, frames, _) => all + frames
    case Trimmed(count) => all[Min(count, |all|)..]
    case Cleared => []
  }

  /** What the entries, one after the other, make of one session's capture in memory. */
  function InMemory(all: seq<SF.DataFrame>, id: string, log: seq<Entry>): seq<SF.DataFrame> {
    if log == [] then all
    else
      var before, last := InMemory(all, id, log[..|log| - 1]), log[|log| - 1];
      if last.sessionId == id then StepInMemory(before, last.step) else before
  }

  function MutationOf(e: Entry): Mutation {
    match e.step
    case Captured(startSeq, _, stored) => AppendFrames(e.sessionId, startSeq, stored)
    case Trimmed(count) => TrimCapture(e.sessionId, count)
    case Cleared => ReplaceCapture(e.sessionId, [])
  }

  /** The entries as the batches carry them. */
  function Mutations(log: seq<Entry>): (mutations: seq<Mutation>)
    ensures |mutations| == |log| && forall i | 0 <= i < |log| :: mutations[i] == MutationOf(log[i])
  {
    seq(|log|, i requires 0 <= i < |log| => MutationOf(log[i]))
  }

  function SeqAfter(next: nat, step: Step): nat {
    match step
    case Captured(startSeq, frames, _) => startSeq + |frames|
    case Trimmed(_) => next
    case Cleared => 0
  }

  /** The first sequence number of a session that has not been used since it was last cleared. */
  function NextSeq(first: nat, id: string, log: seq<Entry>): nat {
    if log == [] then first
    else
      var before, last := NextSeq(first, id, log[..|log| - 1]), log[|log| - 1];
      if last.sessionId == id then SeqAfter(before, last.step) else before
  }

  predicate FaithfulStep(next: nat, step: Step) {
    step.Captured? ==>
      && next <= step.startSeq && |step.stored| == |step.frames|
      && forall i | 0 <= i < |step.frames| :: SameFrame(step.frames[i], step.stored[i])
  }

  /** Frames of the session are projected faithfully, and none of its sequence numbers is in use twice. */
  predicate Faithful(first: nat, id: string, log: seq<Entry>) {
    if log == [] then true
    else
      var before, last := log[..|log| - 1], log[|log| - 1];
      Faithful(first, id, before) && (last.sessionId == id ==> FaithfulStep(NextSeq(first, id, before), last.step))
  }

  predicate Below(rows: seq<Row>, next: nat) {
    forall i | 0 <= i < |rows| :: rows[i].seqNo < next
  }

  /** The session is stored as it is retained, in key order, below its next sequence number. */
  predicate Stored(db: Database, id: string, all: seq<SF.DataFrame>, next: nat) {
    && id in db.sessions && GoodContent(db.sessions[id].content)
    && Mirrors(db.sessions[id].content.rows, all) && Below(db.sessions[id].content.rows, next)
  }

  /**
   * Whatever mixture of captures and drops the sessions go through: once the mutations are all applied, the rows stored
   * for a session are its retained frames, in order.  Dropping by count is enough because only a prefix is ever dropped.
   */
  lemma {:induction false} StoredEqualsRetained(db: Database, id: string, all: seq<SF.DataFrame>, first: nat, log: seq<Entry>)
    requires Stored(db, id, all, first) && Faithful(first, id, log) && ApplyAll(db, Mutations(log)).Ok?
    ensures Stored(ApplyAll(db, Mutations(log)).value, id, InMemory(all, id, log), NextSeq(first, id, log))
    decreases |log|
  {
    hide Apply, Stored, FaithfulStep, MutationOf;
    if log == [] {
      assert Mutations(log) == [];
    } else {
      var most, last := log[..|log| - 1], log[|log| - 1];
      assert Mutations(log) == Mutations(most) + [MutationOf(last)];
      ApplyAllConcat(db, Mutations(most), [MutationOf(last)]);
      assert [MutationOf(last)][1..] == [];
      StoredEqualsRetained(db, id, all, first, most);
      var before := ApplyAll(db, Mutations(most)).value;
      EntryStored(before, id, InMemory(all, id, most), NextSeq(first, id, most), last);
    }
  }

  lemma EntryStored(db: Database, id: string, all: seq<SF.DataFrame>, next: nat, e: Entry)
    requires Stored(db, id, all, next) && Apply(db, MutationOf(e)).Ok? && (e.sessionId == id ==> FaithfulStep(next, e.step))
    ensures Stored(Apply(db, MutationOf(e)).value, id, if e.sessionId == id then StepInMemory(all, e.step) else all,
                   if e.sessionId == id then SeqAfter(next, e.step) else next)
  {
    hide Apply, Mirrors, Below, GoodContent;
    if e.sessionId != id {
      OthersUntouched(db, MutationOf(e), id);
    } else if e.step.Captured? {
      CaptureStored(db, id, all, next, e.step);
    } else if e.step.Trimmed? {
      TrimStored(db, id, all, next, e.step.count);
    } else {
      ClearStored(db, id);
    }
  }

  lemma CaptureStored(db: Database, id: string, all: seq<SF.DataFrame>, next: nat, step: Step)
    requires Stored(db, id, all, next) && step.Captured? && FaithfulStep(next, step)
    requires Apply(db, AppendFrames(id, step.startSeq, step.stored)).Ok?
    ensures Stored(Apply(db, AppendFrames(id, step.startSeq, step.stored)).value, id, all + step.frames, step.startSeq + |step.frames|)
  {
    hide InsertAll, SortedRows, DistinctIds, ValidIdentifier;
    var rows := db.sessions[id].content.rows;
    InsertAllKeeps(rows, step.startSeq, step.stored);
    AppendedRows(rows, step.startSeq, step.stored);
    var after := Apply(db, AppendFrames(id, step.startSeq, step.stored)).value;
    assert after.sessions[id].content.rows == rows + NewRows(step.startSeq, step.stored);
  }

  function NewRows(startSeq: nat, frames: seq<Frame>): (rows: seq<Row>)
    ensures |rows| == |frames| && forall i | 0 <= i < |frames| :: rows[i] == Row(startSeq + i, frames[i])
  {
    seq(|frames|, i requires 0 <= i < |frames| => Row(startSeq + i, frames[i]))
  }

  lemma {:induction false} AppendedRows(rows: seq<Row>, startSeq: nat, frames: seq<Frame>)
    requires SortedRows(rows) && Below(rows, startSeq) && InsertAll(rows, startSeq, frames).Ok?
    ensures InsertAll(rows, startSeq, frames).value == rows + NewRows(startSeq, frames)
    decreases |frames|
  {
    hide SortedRows, InsertRow, ValidIdentifier, NewRows, Below;
    if frames == [] {
      assert rows + NewRows(startSeq, frames) == rows;
    } else {
      var row := Row(startSeq, frames[0]);
      BelowNext(rows, startSeq, frames[0]);
      InsertAtEnd(rows, row);
      AppendedRows(rows + [row], startSeq + 1, frames[1..]);
      NewRowsNext(rows, startSeq, frames);
    }
  }

  lemma NewRowsNext(rows: seq<Row>, startSeq: nat, frames: seq<Frame>)
    requires frames != []
    ensures rows + NewRows(startSeq, frames) == rows + [Row(startSeq, frames[0])] + NewRows(startSeq + 1, frames[1..])
  {
  }

  lemma BelowNext(rows: seq<Row>, startSeq: nat, frame: Frame)
    requires Below(rows, startSeq)
    ensures Below(rows + [Row(startSeq, frame)], startSeq + 1)
    ensures rows != [] ==> rows[|rows| - 1].seqNo < startSeq
  {
  }

  lemma TrimStored(db: Database, id: string, all: seq<SF.DataFrame>, next: nat, count: nat)
    requires Stored(db, id, all, next) && Apply(db, TrimCapture(id, count)).Ok?
    ensures Stored(Apply(db, TrimCapture(id, count)).value, id, all[Min(count, |all|)..], next)
  {
    hide InsertAll, SortedRows, DistinctIds, ValidIdentifier;
    var rows := db.sessions[id].content.rows;
    TrimKeeps(rows, count);
    assert Apply(db, TrimCapture(id, count)).value.sessions[id].content.rows == TrimRows(rows, count);
  }

  lemma ClearStored(db: Database, id: string)
    requires id in db.sessions && GoodContent(db.sessions[id].content) && Apply(db, ReplaceCapture(id, [])).Ok?
    ensures Stored(Apply(db, ReplaceCapture(id, [])).value, id, [], 0)
  {
    ReplaceStores(db, id, []);
    InsertAllKeeps([], 0, []);
  }

  // ----- growing the log

  lemma LogEntry(all: seq<SF.DataFrame>, first: nat, id: string, log: seq<Entry>, e: Entry)
    ensures InMemory(all, id, log + [e]) ==
            if e.sessionId == id then StepInMemory(InMemory(all, id, log), e.step) else InMemory(all, id, log)
    ensures NextSeq(first, id, log + [e]) ==
            if e.sessionId == id then SeqAfter(NextSeq(first, id, log), e.step) else NextSeq(first, id, log)
    ensures Faithful(first, id, log + [e]) <==>
              Faithful(first, id, log) && (e.sessionId == id ==> FaithfulStep(NextSeq(first, id, log), e.step))
  {
    assert (log + [e])[..|log|] == log;
  }
}
