/** Revisioned, idempotent batch commits with a pruned ledger, and paged reads of the stored frames. */
module WorkspaceStore {
  import opened Bytes
  import opened WorkspaceTables
  import W = Waveform
  import opened Wrappers

  const MAX_WORKSPACE_MUTATIONS_PER_BATCH: nat := 256
  const MAX_WORKSPACE_FRAMES_PER_BATCH: nat := 256
  const MAX_WORKSPACE_BATCH_BYTES: nat := 512 * 1024
  const COMMITTED_BATCH_RETENTION_ROWS: nat := 1024
  const COMMITTED_BATCH_PRUNE_INTERVAL: nat := 64
  const MAX_HYDRATE_PAGE_FRAMES: nat := 2048
  const MAX_HYDRATE_PAGE_BYTES: nat := 4 * 1024 * 1024
  const SOURCE_PAGE_FRAMES: nat := 256

  // ----- requests

  /** A mutation with its sequence number in the batch and the size of its serialized form. */
  datatype Step = Step(sequence: nat, mutation: Mutation, jsonBytes: nat)

  datatype Request = Request(workspaceId: string, clientBatchId: string, baseRevision: nat, steps: seq<Step>)

  function Mutations(steps: seq<Step>): (ms: seq<Mutation>)
    ensures |ms| == |steps| && forall i | 0 <= i < |steps| :: ms[i] == steps[i].mutation
  {
    seq(|steps|, i requires 0 <= i < |steps| => steps[i].mutation)
  }

  function CarriedFrames(m: Mutation): seq<Frame> {
    match m
    case AppendFrames(_, _, frames) => frames
    case ReplaceCapture(_, frames) => frames
    case _ => []
  }

  function DataBytes(frames: seq<Frame>): nat {
    if frames == [] then 0 else |frames[0].data| + DataBytes(frames[1..])
  }

  datatype Size = Size(frames: nat, frameBytes: nat, structuredBytes: nat)

  /** A batch is measured in frames, bytes of frame data, and serialized bytes of everything else. */
  function LogicalSize(steps: seq<Step>): Size {
    if steps == [] then Size(0, 0, 0)
    else
      var before, last := LogicalSize(steps[..|steps| - 1]), steps[|steps| - 1];
      if last.mutation.AppendFrames? || last.mutation.ReplaceCapture? then
        before.(frames := before.frames + |CarriedFrames(last.mutation)|,
                frameBytes := before.frameBytes + DataBytes(CarriedFrames(last.mutation)))
      else before.(structuredBytes := before.structuredBytes + last.jsonBytes)
  }

  /** A batch fits its byte budget, or is one frame alone that fits the larger budget of a frame. */
  predicate FitsBudget(steps: seq<Step>) {
    var size := LogicalSize(steps);
    && size.frames <= MAX_WORKSPACE_FRAMES_PER_BATCH
    && (size.structuredBytes + size.frameBytes <= MAX_WORKSPACE_BATCH_BYTES
        || (|steps| == 1 && size.frames == 1 && size.structuredBytes == 0 && size.frameBytes <= MAX_WORKSPACE_FRAME_BYTES))
  }

  method ValidateLogicalBatchSize(steps: seq<Step>) returns (ok: bool)
    ensures ok == FitsBudget(steps)
  {
    var frameCount: nat, frameBytes: nat, structuredBytes: nat := 0, 0, 0;
    for i := 0 to |steps|
      invariant Size(frameCount, frameBytes, structuredBytes) == LogicalSize(steps[..i])
    {
      assert steps[..i + 1][..i] == steps[..i];
      var mutation := steps[i].mutation;
      if mutation.AppendFrames? || mutation.ReplaceCapture? {
        var frames := CarriedFrames(mutation);
        frameCount := frameCount + |frames|;
        ghost var before := frameBytes;
        for j := 0 to |frames|
          invariant frameBytes + DataBytes(frames[j..]) == before + DataBytes(frames)
        {
          assert frames[j..][1..] == frames[j + 1..];
          frameBytes := frameBytes + |frames[j].data|;
        }
      } else {
        structuredBytes := structuredBytes + steps[i].jsonBytes;
      }
    }
    assert steps[..|steps|] == steps;
    if frameCount > MAX_WORKSPACE_FRAMES_PER_BATCH { return false; }
    if structuredBytes + frameBytes <= MAX_WORKSPACE_BATCH_BYTES { return true; }
    return |steps| == 1 && frameCount == 1 && structuredBytes == 0 && frameBytes <= MAX_WORKSPACE_FRAME_BYTES;
  }

  predicate ValidPayload(m: Mutation) {
    && (forall f | f in CarriedFrames(m) :: |f.data| <= MAX_WORKSPACE_FRAME_BYTES)
    && (m.AppendAiMessages? ==>
          && m.messages != []
          && (forall x | x in m.messages :: ValidIdentifier(x.id) && |x.content| <= MAX_WORKSPACE_AI_MESSAGE_BYTES)
          && forall i, j | 0 <= i < j < |m.messages| :: m.messages[i].id != m.messages[j].id)
    && (m.UpsertFeatureState? && m.feature.Plugin? ==> |m.state| <= MAX_PLUGIN_STATE_BYTES)
    && (m.ReplaceWaveformChannels? ==> W.ValidChannels(m.channels)) && (m.AppendWaveformSamples? ==> W.ValidSamples(m.samples))
  }

  /** Everything that is checked before the transaction begins. */
  predicate Acceptable(request: Request) {
    && ValidIdentifier(request.workspaceId) && ValidIdentifier(request.clientBatchId)
    && 1 <= |request.steps| <= MAX_WORKSPACE_MUTATIONS_PER_BATCH
    && (forall i | 0 < i < |request.steps| :: request.steps[i].sequence == request.steps[i - 1].sequence + 1)
    && (forall s | s in request.steps :: ValidPayload(s.mutation))
    && FitsBudget(request.steps)
  }

  // ----- the ledger

  /** The request hash is modelled as the request itself. */
  datatype LedgerRow = LedgerRow(clientBatchId: string, requestHash: Request, committedRevision: nat)

  datatype Response = Response(clientBatchId: string, committedRevision: nat)

  datatype SaveHealth = Clean | Degraded

  /** What the database engine and the file system answer during one call. */
  datatype Environment = Environment(projectedFits: bool, filesFit: bool, commits: bool, checkpoints: bool)

  /** The commit behind ledger row j: the ledger is always the newest part of the log of commits. */
  predicate Recorded(ledger: seq<LedgerRow>, log: seq<Request>) {
    && |ledger| <= |log|
    && var older := |log| - |ledger|;
       forall j | 0 <= j < |ledger| ::
         ledger[j] == LedgerRow(log[older + j].clientBatchId, log[older + j], older + j + 1)
  }

  predicate DistinctBatches(ledger: seq<LedgerRow>) {
    forall i, j | 0 <= i < j < |ledger| :: ledger[i].clientBatchId != ledger[j].clientBatchId
  }

  /** Commits in order: the i-th was made on revision i. */
  predicate Consecutive(log: seq<Request>) {
    forall i | 0 <= i < |log| :: log[i].baseRevision == i
  }

  /** No request ever commits twice. */
  lemma AtMostOnce(log: seq<Request>, i: nat, j: nat)
    requires Consecutive(log) && i < j < |log|
    ensures log[i] != log[j]
  {
    assert log[i].baseRevision == i && log[j].baseRevision == j;
  }

  function Bounds(commits: nat): (r: (nat, nat)) {
    (Min(commits, COMMITTED_BATCH_RETENTION_ROWS), COMMITTED_BATCH_RETENTION_ROWS + commits % COMMITTED_BATCH_PRUNE_INTERVAL)
  }

  class WorkspaceService {
    const workspaceId: string
    const readOnly: bool
    var tables: Database
    var revision: nat
    var ledger: seq<LedgerRow>
    var saveHealth: SaveHealth

    /** Every request that ever committed. */
    ghost var log: seq<Request>

    ghost predicate Valid()
      reads this
    {
      && Sound(tables) && FirstExceeded(tables).None?
      && revision == |log| && Consecutive(log)
      && Recorded(ledger, log) && DistinctBatches(ledger)
      && Bounds(|log|).0 <= |ledger| <= Bounds(|log|).1
      && forall q | q in log :: Acceptable(q) && q.workspaceId == workspaceId
    }

    constructor (workspaceId: string, name: string)
      ensures Valid() && log == [] && !readOnly && this.workspaceId == workspaceId
    {
      this.workspaceId, readOnly := workspaceId, false;
      tables := Database(name, None, map[], map[]);
      revision, ledger, saveHealth, log := 0, [], Clean, [];
      NothingExceeded(name);
    }

    method FindBatch(clientBatchId: string) returns (row: Option<LedgerRow>)
      ensures row.None? ==> forall j | 0 <= j < |ledger| :: ledger[j].clientBatchId != clientBatchId
      ensures row.Some? ==> row.value in ledger && row.value.clientBatchId == clientBatchId
    {
      for j := 0 to |ledger|
        invariant forall k | 0 <= k < j :: ledger[k].clientBatchId != clientBatchId
      {
        if ledger[j].clientBatchId == clientBatchId { return Some(ledger[j]); }
      }
      return None;
    }

    /** The state one commit leads to. */
    ghost predicate Committed(request: Request, before: Database)
      reads this
    {
      && ApplyAll(before, Mutations(request.steps)).Ok?
      && tables == ApplyAll(before, Mutations(request.steps)).value
    }

    /**
     * One submission.  Either it commits, or nothing changes.  A request that has committed before never takes effect
     * again: while its ledger row survives it is answered with its original revision, and after that it is rejected,
     * because of its stale base revision or because its id has since been used for another batch.
     */
    method ApplyBatch(request: Request, env: Environment) returns (r: Result<Response>)
      requires Valid()
      modifies this
      ensures Valid() && old(log) <= log
      ensures log == old(log) ==> tables == old(tables) && revision == old(revision) && ledger == old(ledger)
      ensures log != old(log) ==> log == old(log) + [request] && Committed(request, old(tables))
                                  && r == Ok(Response(request.clientBatchId, revision)) && revision == old(revision) + 1
      ensures saveHealth == if log == old(log) then old(saveHealth) else if env.checkpoints then Clean else Degraded
      ensures r.Ok? <==> log != old(log) || (!readOnly && Acceptable(request) && request.workspaceId == workspaceId
                                             && exists j :: 0 <= j < |old(ledger)| && old(ledger)[j].requestHash == request)
      ensures log != old(log) <==>
                && !readOnly && Acceptable(request) && request.workspaceId == workspaceId
                && (forall j | 0 <= j < |old(ledger)| :: old(ledger)[j].clientBatchId != request.clientBatchId)
                && request.baseRevision == old(revision) && BatchOutcome(old(tables), Mutations(request.steps)).Ok?
                && old(revision) < MAX_I64 && env.projectedFits && env.filesFit && env.commits
      // The first reason for a refusal.
      ensures r.Err? ==>
                r == if readOnly then Err(ReadOnly)
                     else if !Acceptable(request) then Err(InvalidInput("request"))
                     else if request.workspaceId != workspaceId then Err(InvalidInput("workspaceId"))
                     else if exists j :: 0 <= j < |old(ledger)| && old(ledger)[j].clientBatchId == request.clientBatchId then Err(BatchIdReuse)
                     else if request.baseRevision != old(revision) then Err(RevisionConflict(request.baseRevision, old(revision)))
                     else if BatchOutcome(old(tables), Mutations(request.steps)).Err? then
                       Err(BatchOutcome(old(tables), Mutations(request.steps)).error)
                     else if old(revision) >= MAX_I64 then Err(Corrupt("revision"))
                     else if !env.projectedFits || !env.filesFit then Err(LimitExceeded("databaseBytes"))
                     else Err(DatabaseError)
      ensures !readOnly && request in old(log) ==>
                var i, older := request.baseRevision, |old(log)| - |old(ledger)|;
                && i < |old(log)| && old(log)[i] == request && log == old(log)
                && (older <= i ==> r == Ok(Response(request.clientBatchId, i + 1)))
                && (i < older ==>
                      r == (if exists j :: 0 <= j < |old(ledger)| && old(ledger)[j].clientBatchId == request.clientBatchId
                            then Err(BatchIdReuse) else Err(RevisionConflict(i, old(revision)))))
    {
      hide ApplyAll, Sound, Acceptable, FirstExceeded;
      if readOnly { return Err(ReadOnly); }
      if !Acceptable(request) { return Err(InvalidInput("request")); }
      if request.workspaceId != workspaceId { return Err(InvalidInput("workspaceId")); }
      if request in log { Locate(request); }
      var existing := FindBatch(request.clientBatchId);
      if existing.Some? {
        if existing.value.requestHash != request { return Err(BatchIdReuse); }
        return Ok(Response(request.clientBatchId, existing.value.committedRevision));
      }
      if request.baseRevision != revision { return Err(RevisionConflict(request.baseRevision, revision)); }
      var applied := ApplyMutations(tables, Mutations(request.steps));
      if applied.Err? { return Err(applied.error); }
      var committedRevision := revision + 1;
      if committedRevision > MAX_I64 { return Err(Corrupt("revision")); }
      var rows := ledger + [LedgerRow(request.clientBatchId, request, committedRevision)];
      if committedRevision % COMMITTED_BATCH_PRUNE_INTERVAL == 0 {
        rows := rows[Max(0, |rows| - COMMITTED_BATCH_RETENTION_ROWS)..];
      }
      if !env.projectedFits { return Err(LimitExceeded("databaseBytes")); }
      if !env.filesFit { return Err(LimitExceeded("databaseBytes")); }
      if !env.commits { return Err(DatabaseError); }
      ApplyAllKeeps(tables, Mutations(request.steps));
      LedgerKeeps(ledger, log, request, rows);
      tables, revision, ledger, log := applied.value, committedRevision, rows, log + [request];
      saveHealth := if env.checkpoints then Clean else Degraded;
      return Ok(Response(request.clientBatchId, committedRevision));
    }

    /** The header is refused as corrupt if the active session is not among the visible ones; that never happens. */
    method ReadHeader() returns (r: Result<(nat, Option<string>)>)
      requires Valid()
      ensures r == Ok((revision, tables.active))
    {
      hide Acceptable, FirstExceeded;
      if tables.active.Some? && !Visible(tables, tables.active.value) { return Err(Corrupt("active_session_id")); }
      return Ok((revision, tables.active));
    }

    /** One page of a session's frames, in sequence order from `fromSeq` on. */
    method HydrateFrames(sessionId: string, fromSeq: nat, requestedLimit: nat) returns (r: Result<Page>)
      requires Valid()
      ensures r.Ok? <==> ValidIdentifier(sessionId) && Visible(tables, sessionId)
                         && 1 <= requestedLimit <= 2048 && fromSeq <= MAX_I64
      ensures r.Ok? ==> GoodPage(tables.sessions[sessionId].content.rows, fromSeq, requestedLimit, r.value)
    {
      hide Acceptable, FirstExceeded;
      if !ValidIdentifier(sessionId) { return Err(InvalidInput("sessionId")); }
      if !Visible(tables, sessionId) { return Err(InvalidInput("sessionId")); }
      if requestedLimit == 0 || requestedLimit > MAX_HYDRATE_PAGE_FRAMES { return Err(LimitExceeded("pageFrames")); }
      if fromSeq > MAX_I64 { return Err(InvalidInput("fromSeq")); }
      var page := ReadPage(tables.sessions[sessionId].content.rows, fromSeq, requestedLimit);
      return Ok(page);
    }

    /** A committed request sits in the log at its base revision, and in the ledger while that is recent enough. */
    lemma Locate(request: Request)
      requires Valid() && request in log
      ensures var i, older := request.baseRevision, |log| - |ledger|;
              && i < |log| && log[i] == request && Acceptable(request) && request.workspaceId == workspaceId
              && (older <= i ==> ledger[i - older] == LedgerRow(request.clientBatchId, request, i + 1))
              && forall j | 0 <= j < |ledger| && ledger[j].requestHash == request :: older <= i && j == i - older
    {
      hide Sound, Acceptable, DistinctBatches, Bounds, FirstExceeded;
      var k :| 0 <= k < |log| && log[k] == request;
    }
  }

  lemma NothingExceeded(name: string)
    ensures FirstExceeded(Database(name, None, map[], map[])).None?
  {
    var db := Database(name, None, map[], map[]);
    assert forall measure :: Weights(db, measure) == map[];
    assert PluginBytes(db) == map[];
  }

  lemma LedgerKeeps(ledger: seq<LedgerRow>, log: seq<Request>, request: Request, rows: seq<LedgerRow>)
    requires Recorded(ledger, log) && DistinctBatches(ledger) && Bounds(|log|).0 <= |ledger| <= Bounds(|log|).1
    requires forall j | 0 <= j < |ledger| :: ledger[j].clientBatchId != request.clientBatchId
    requires var all := ledger + [LedgerRow(request.clientBatchId, request, |log| + 1)];
             rows == if (|log| + 1) % COMMITTED_BATCH_PRUNE_INTERVAL == 0 then all[Max(0, |all| - COMMITTED_BATCH_RETENTION_ROWS)..] else all
    ensures Recorded(rows, log + [request]) && DistinctBatches(rows)
    ensures Bounds(|log| + 1).0 <= |rows| <= Bounds(|log| + 1).1
  {
    var all := ledger + [LedgerRow(request.clientBatchId, request, |log| + 1)];
    RecordedAppends(ledger, log, request);
    RecordedPruned(all, log + [request], Max(0, |all| - COMMITTED_BATCH_RETENTION_ROWS));
  }

  lemma RecordedAppends(ledger: seq<LedgerRow>, log: seq<Request>, request: Request)
    requires Recorded(ledger, log) && DistinctBatches(ledger)
    requires forall j | 0 <= j < |ledger| :: ledger[j].clientBatchId != request.clientBatchId
    ensures Recorded(ledger + [LedgerRow(request.clientBatchId, request, |log| + 1)], log + [request])
    ensures DistinctBatches(ledger + [LedgerRow(request.clientBatchId, request, |log| + 1)])
  {
  }

  lemma RecordedPruned(ledger: seq<LedgerRow>, log: seq<Request>, n: nat)
    requires n <= |ledger| && Recorded(ledger, log) && DistinctBatches(ledger)
    ensures Recorded(ledger[n..], log) && DistinctBatches(ledger[n..])
  {
  }

  // ----- whole runs of submissions

  datatype Submission = Submission(request: Request, env: Environment)

  /** Everything these requests ask for, one after the other. */
  function AllMutations(log: seq<Request>): seq<Mutation> {
    if log == [] then [] else AllMutations(log[..|log| - 1]) + Mutations(log[|log| - 1].steps)
  }

  /** The tables are the effect of what has been committed since the log had `from` entries. */
  ghost predicate Effect(before: Database, log: seq<Request>, from: nat, after: Database) {
    from <= |log| && ApplyAll(before, AllMutations(log[from..])) == Result.Ok(after)
  }

  lemma EffectNext(before: Database, log: seq<Request>, from: nat, middle: Database, request: Request)
    requires Effect(before, log, from, middle) && ApplyAll(middle, Mutations(request.steps)).Ok?
    ensures Effect(before, log + [request], from, ApplyAll(middle, Mutations(request.steps)).value)
  {
    hide ApplyAll, Mutations;
    var tail := (log + [request])[from..];
    assert tail == log[from..] + [request] && tail[..|tail| - 1] == log[from..];
    ApplyAllConcat(before, AllMutations(log[from..]), Mutations(request.steps));
  }

  lemma EffectMeans(before: Database, log: seq<Request>, from: nat, after: Database)
    requires Effect(before, log, from, after)
    ensures from <= |log| && ApplyAll(before, AllMutations(log[from..])) == Result.Ok(after)
  {
  }

  lemma NoEffect(before: Database, log: seq<Request>)
    ensures Effect(before, log, |log|, before)
  {
    assert log[|log|..] == [];
  }

  /**
   * Any run of submissions, retries and lost replies: the revision counts the commits, no request takes effect twice,
   * the tables are the effect of the commits in order and of nothing else and within every limit, and the ledger always holds the newest
   * batches, at least min(n, 1024) and at most 1087 of them.
   */
  method Serve(s: WorkspaceService, submissions: seq<Submission>)
    requires s.Valid()
    modifies s
    ensures s.Valid() && s.revision == |s.log|
    ensures old(s.log) <= s.log && forall i, j | 0 <= i < j < |s.log| :: s.log[i] != s.log[j]
    ensures ApplyAll(old(s.tables), AllMutations(s.log[|old(s.log)|..])) == Result.Ok(s.tables)
    ensures FirstExceeded(s.tables).None?
    ensures Min(|s.log|, 1024) <= |s.ledger| <= 1087
    ensures forall j | 0 <= j < |s.ledger| :: s.ledger[j].requestHash == s.log[|s.log| - |s.ledger| + j]
  {
    hide Sound, Acceptable, ApplyAll, Effect, FirstExceeded;
    NoEffect(s.tables, s.log);
    for i := 0 to |submissions|
      invariant s.Valid() && old(s.log) <= s.log && Effect(old(s.tables), s.log, |old(s.log)|, s.tables)
    {
      ghost var log, tables := s.log, s.tables;
      var request := submissions[i].request;
      var r := s.ApplyBatch(request, submissions[i].env);
      if s.log != log { EffectNext(old(s.tables), log, |old(s.log)|, tables, request); }
    }
    EffectMeans(old(s.tables), s.log, |old(s.log)|, s.tables);
    forall i, j | 0 <= i < j < |s.log| ensures s.log[i] != s.log[j] {
      AtMostOnce(s.log, i, j);
    }
  }

  // ----- pages

  datatype Page = Page(rows: seq<Row>, nextSeq: Option<nat>)

  /** The rows from `fromSeq` on, cut where the frame limit or the byte budget is reached, and never empty before the end. */
  predicate GoodPage(rows: seq<Row>, fromSeq: nat, limit: nat, page: Page) {
    var start := Position(rows, fromSeq);
    var stop := start + |page.rows|;
    && stop <= |rows| && page.rows == rows[start..stop]
    && |page.rows| <= limit && (RowBytes(page.rows) <= 4 * 1024 * 1024 || |page.rows| == 1)
    && page.nextSeq == (if stop < |rows| then Some(rows[stop].seqNo) else None)
    && (stop < |rows| ==> page.rows != [] && (|page.rows| == limit || RowBytes(rows[start..stop + 1]) > 4 * 1024 * 1024))
  }

  method ReadPage(rows: seq<Row>, fromSeq: nat, limit: nat) returns (page: Page)
    requires limit > 0
    ensures GoodPage(rows, fromSeq, limit, page)
  {
    hide Position, RowBytes;
    NoRows();
    var start := Position(rows, fromSeq);
    // The query stops one row past the limit.
    var fetched := rows[start..Min(|rows|, start + limit + 1)];
    var frames, pageBytes := [], 0;
    for i := 0 to |fetched|
      invariant i <= limit && frames == rows[start..start + i] && pageBytes == RowBytes(frames)
      invariant pageBytes <= MAX_HYDRATE_PAGE_BYTES || i == 1
    {
      var row := fetched[i];
      assert row == rows[start + i];
      assert rows[start..start + i + 1] == frames + [row];
      OneMoreRow(frames, row);
      if |frames| == limit || (|frames| > 0 && pageBytes + |row.frame.data| > MAX_HYDRATE_PAGE_BYTES) {
        return Page(frames, Some(row.seqNo));
      }
      pageBytes := pageBytes + |row.frame.data|;
      frames := frames + [row];
    }
    return Page(frames, None);
  }

  lemma NextPageStarts(rows: seq<Row>, fromSeq: nat, limit: nat, page: Page)
    requires SortedRows(rows) && limit > 0 && GoodPage(rows, fromSeq, limit, page) && page.nextSeq.Some?
    ensures Position(rows, page.nextSeq.value) == Position(rows, fromSeq) + |page.rows|
    ensures fromSeq < page.nextSeq.value
  {
    var start := Position(rows, fromSeq);
    PositionOf(rows, start + |page.rows|);
    assert fromSeq <= rows[start].seqNo < rows[start + |page.rows|].seqNo;
  }

  lemma PositionSplits(rows: seq<Row>, seqNo: nat)
    requires SortedRows(rows)
    ensures forall i | 0 <= i < |rows| :: i < Position(rows, seqNo) <==> rows[i].seqNo < seqNo
  {
    hide Position;
    var p := Position(rows, seqNo);
    if p < |rows| { SortedFrom(rows, p); }
  }

  lemma PositionOf(rows: seq<Row>, i: nat)
    requires SortedRows(rows) && i < |rows|
    ensures Position(rows, rows[i].seqNo) == i
  {
    hide Position;
    PositionSplits(rows, rows[i].seqNo);
    SortedFrom(rows, i);
  }

  /** Following the next sequence number from zero visits every frame exactly once, in order, and ends. */
  method ReadAll(rows: seq<Row>, limit: nat) returns (all: seq<Row>)
    requires SortedRows(rows) && 1 <= limit <= MAX_HYDRATE_PAGE_FRAMES
    ensures all == rows
  {
    hide RowBytes, Position;
    all := [];
    var from := 0;
    PositionZero(rows);
    while true
      invariant Position(rows, from) <= |rows| && all == rows[..Position(rows, from)]
      decreases |rows| - Position(rows, from)
    {
      var page := ReadPage(rows, from, limit);
      ghost var start := Position(rows, from);
      assert rows[..start] + rows[start..start + |page.rows|] == rows[..start + |page.rows|];
      all := all + page.rows;
      if page.nextSeq.None? {
        assert rows[..|rows|] == rows;
        return;
      }
      NextPageStarts(rows, from, limit, page);
      from := page.nextSeq.value;
    }
  }

  lemma PositionZero(rows: seq<Row>)
    ensures Position(rows, 0) == 0
  {
  }

  // ----- export

  /** The rows strictly below the sequence ceiling. */
  function Below(rows: seq<Row>, ceiling: nat): seq<Row> {
    rows[..Position(rows, ceiling)]
  }

  /** A page truncated at the ceiling, which also ends the read. */
  method HydrateBoundedPage(rows: seq<Row>, ceiling: nat, fromSeq: nat) returns (page: Page)
    requires SortedRows(rows)
    ensures var start, end := Position(rows, fromSeq), Position(rows, ceiling);
            var stop := start + |page.rows|;
            && stop <= |rows| && page.rows == rows[start..stop]
            && (stop <= end || page.rows == [])
            && (page.nextSeq.None? ==> stop == end || (page.rows == [] && end <= start))
            && (page.nextSeq.Some? ==> stop < |rows| && page.nextSeq == Some(rows[stop].seqNo) && page.rows != [] && fromSeq < page.nextSeq.value)
  {
    hide RowBytes, Position;
    var full := ReadPage(rows, fromSeq, SOURCE_PAGE_FRAMES);
    ghost var start, end := Position(rows, fromSeq), Position(rows, ceiling);
    PositionSplits(rows, ceiling);
    var frames := [];
    for i := 0 to |full.rows|
      invariant frames == rows[start..start + i] && start + i <= |rows|
      invariant forall k | start <= k < start + i :: rows[k].seqNo < ceiling
    {
      assert full.rows[i] == rows[start + i];
      if full.rows[i].seqNo >= ceiling {
        return Page(frames, None);
      }
      frames := frames + [full.rows[i]];
      assert frames == rows[start..start + i + 1];
    }
    assert frames == full.rows;
    if full.nextSeq.Some? { NextPageStarts(rows, fromSeq, SOURCE_PAGE_FRAMES, full); }
    return Page(frames, full.nextSeq);
  }

  datatype Totals = Totals(frames: nat, rawBytes: nat)

  /** The totals announced for an export are those of the frames below the ceiling. */
  method ExpectedTotals(rows: seq<Row>, ceiling: nat) returns (totals: Totals)
    requires SortedRows(rows)
    ensures totals == Totals(|Below(rows, ceiling)|, RowBytes(Below(rows, ceiling)))
  {
    hide RowBytes, Position;
    var frames: nat, rawBytes: nat, fromSeq: nat := 0, 0, 0;
    PositionZero(rows);
    NoRows();
    ghost var end := Position(rows, ceiling);
    while true
      invariant frames == Position(rows, fromSeq) <= end && rawBytes == RowBytes(rows[..frames])
      decreases |rows| - Position(rows, fromSeq)
    {
      ghost var start := Position(rows, fromSeq);
      var page := HydrateBoundedPage(rows, ceiling, fromSeq);
      if |page.rows| == 0 { break; }
      var added := 0;
      for j := 0 to |page.rows|
        invariant RowBytes(rows[..start]) + added == RowBytes(rows[..start + j]) && rawBytes == RowBytes(rows[..start]) + added
      {
        RowBytesNext(rows, start + j);
        added := added + |page.rows[j].frame.data|;
        rawBytes := rawBytes + |page.rows[j].frame.data|;
      }
      frames := frames + |page.rows|;
      if page.nextSeq.None? { break; }
      PositionOf(rows, frames);
      if page.nextSeq.value <= fromSeq || page.nextSeq.value >= ceiling { break; }
      fromSeq := page.nextSeq.value;
    }
    return Totals(frames, rawBytes);
  }

  lemma OneMoreRow(rows: seq<Row>, row: Row)
    ensures RowBytes(rows + [row]) == RowBytes(rows) + |row.frame.data|
  {
    assert (rows + [row])[..|rows|] == rows;
  }

  lemma NoRows()
    ensures RowBytes([]) == 0
  {
  }

  lemma RowBytesNext(rows: seq<Row>, i: nat)
    requires i < |rows|
    ensures RowBytes(rows[..i + 1]) == RowBytes(rows[..i]) + |rows[i].frame.data|
  {
    assert rows[..i + 1][..i] == rows[..i];
  }
}
