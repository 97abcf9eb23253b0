/** The tables of a project and what each mutation of a batch does to them. */
module WorkspaceTables {
  import opened Bytes
  import W = Waveform
  import opened Wrappers

  const MAX_WORKSPACE_FRAME_BYTES: nat := 2 * 1024 * 1024
  const MAX_I64: nat := 0x7fff_ffff_ffff_ffff
  const MAX_PLUGIN_STATE_BYTES: nat := 16 * 1024 * 1024
  const MAX_WORKSPACE_PLUGIN_STATE_BYTES: nat := 64 * 1024 * 1024
  const MAX_WORKSPACE_SESSIONS: nat := 64
  const MAX_WORKSPACE_FRAMES: nat := 250_000
  const MAX_WORKSPACE_FRAMES_PER_SESSION: nat := 100_000
  const MAX_WORKSPACE_CAPTURE_BYTES: nat := 256 * 1024 * 1024
  const MAX_WORKSPACE_AI_MESSAGES: nat := 10_000
  const MAX_WORKSPACE_AI_MESSAGE_BYTES: nat := 256 * 1024
  const MAX_WORKSPACE_AI_BYTES: nat := 32 * 1024 * 1024

  datatype Error =
    | ReadOnly
    | InvalidInput(field: string)
    | LimitExceeded(field: string)
    | BatchIdReuse
    | RevisionConflict(expected: nat, actual: nat)
    | Corrupt(reason: string)
    | DatabaseError

  datatype Result<T> = Ok(value: T) | Err(error: Error)

  datatype Frame = Frame(id: string, data: seq<byte>, timestampMs: nat)

  /** Frame rows of one session in primary-key order. */
  datatype Row = Row(seqNo: nat, frame: Frame)

  datatype Message = Message(id: string, content: string)

  datatype Feature = Preferences | Parser | Modbus | Waveform | Shell | Mcumgr | Plugin

  /** Everything of a session that its upsert does not carry. */
  datatype Content = Content(rows: seq<Row>, messages: seq<Message>, collections: seq<string>,
                             channels: map<nat, string>, samples: map<W.Key, W.Sample>, features: map<Feature, seq<byte>>)

  datatype Profile = Profile(name: string, sortOrder: nat)

  datatype Session = Session(profile: Profile, undoPending: bool, content: Content)

  datatype Database = Database(name: string, active: Option<string>, sessions: map<string, Session>, plugins: map<string, seq<byte>>)

  datatype Mutation =
    | SetMetadata(name: Option<string>)
    | SetActiveSession(selected: Option<string>)
    | UpsertSession(sessionId: string, profile: Profile)
    | RemoveSession(sessionId: string)
    | AppendFrames(sessionId: string, startSeq: nat, frames: seq<Frame>)
    | ReplaceCapture(sessionId: string, frames: seq<Frame>)
    | TrimCapture(sessionId: string, frameCount: nat)
    | ReplaceCollections(sessionId: string, collections: seq<string>)
    | AppendAiMessages(sessionId: string, startPosition: nat, messages: seq<Message>)
    | ClearAiMessages(sessionId: string)
    | ReplaceWaveformChannels(sessionId: string, channels: seq<W.Channel>)
    | AppendWaveformSamples(sessionId: string, samples: seq<W.Sample>)
    | UpsertFeatureState(entityId: string, feature: Feature, state: seq<byte>)

  const EMPTY_CONTENT := Content([], [], [], map[], map[], map[])

  /** The session a mutation is about. */
  function Target(m: Mutation): Option<string> {
    match m
    case SetMetadata(_) => None
    case SetActiveSession(_) => None
    case UpsertFeatureState(id, feature, _) => if feature.Plugin? then None else Some(id)
    case _ => Some(m.sessionId)
  }

  predicate ValidIdentifier(id: string) {
    1 <= |id| <= 128 && forall i | 0 <= i < |id| :: ' ' <= id[i] && !('\U{7F}' <= id[i] <= '\U{9F}')
  }

  predicate Visible(db: Database, id: string) {
    id in db.sessions && !db.sessions[id].undoPending
  }

  // ----- frame rows

  predicate SortedRows(rows: seq<Row>) {
    forall i, j | 0 <= i < j < |rows| :: rows[i].seqNo < rows[j].seqNo
  }

  predicate DistinctIds(rows: seq<Row>) {
    forall i, j | 0 <= i < j < |rows| :: rows[i].frame.id != rows[j].frame.id
  }

  /** Number of rows before sequence number `seqNo`. */
  function Position(rows: seq<Row>, seqNo: nat): (p: nat)
    ensures p <= |rows|
    ensures forall i | 0 <= i < p :: rows[i].seqNo < seqNo
    ensures p < |rows| ==> seqNo <= rows[p].seqNo
  {
    if rows == [] || seqNo <= rows[0].seqNo then 0 else 1 + Position(rows[1..], seqNo)
  }

  predicate HasFrameId(rows: seq<Row>, id: string) {
    exists i | 0 <= i < |rows| :: rows[i].frame.id == id
  }

  /** An insert fails on a duplicate sequence number or frame id. */
  function InsertRow(rows: seq<Row>, row: Row): (r: Result<seq<Row>>) {
    var p := Position(rows, row.seqNo);
    if (p < |rows| && rows[p].seqNo == row.seqNo) || HasFrameId(rows, row.frame.id) then Err(DatabaseError)
    else Ok(rows[..p] + [row] + rows[p..])
  }

  lemma InsertKeeps(rows: seq<Row>, row: Row)
    requires SortedRows(rows) && DistinctIds(rows) && InsertRow(rows, row).Ok?
    ensures SortedRows(InsertRow(rows, row).value) && DistinctIds(InsertRow(rows, row).value)
  {
    hide Position;
    var p := Position(rows, row.seqNo);
    if p < |rows| {
      SortedFrom(rows, p);
    }
    SplicedSorted(rows, p, row);
    SplicedDistinct(rows, p, row);
  }

  lemma SortedFrom(rows: seq<Row>, p: nat)
    requires SortedRows(rows) && p < |rows|
    ensures forall i | p <= i < |rows| :: rows[p].seqNo <= rows[i].seqNo
  {
  }

  lemma SplicedSorted(rows: seq<Row>, p: nat, row: Row)
    requires SortedRows(rows) && p <= |rows|
    requires (forall i | 0 <= i < p :: rows[i].seqNo < row.seqNo) && (forall i | p <= i < |rows| :: row.seqNo < rows[i].seqNo)
    ensures SortedRows(rows[..p] + [row] + rows[p..])
  {
  }

  lemma SplicedDistinct(rows: seq<Row>, p: nat, row: Row)
    requires DistinctIds(rows) && p <= |rows| && !HasFrameId(rows, row.frame.id)
    ensures DistinctIds(rows[..p] + [row] + rows[p..])
  {
    assert forall i | 0 <= i < |rows| :: rows[i].frame.id != row.frame.id;
  }

  /** Rows for consecutive sequence numbers, inserted in order; any failure fails the batch. */
  function InsertAll(rows: seq<Row>, startSeq: nat, frames: seq<Frame>): (r: Result<seq<Row>>)
    decreases |frames|
  {
    if frames == [] then Ok(rows)
    else if !ValidIdentifier(frames[0].id) || frames[0].timestampMs > MAX_I64 then Err(InvalidInput("frame"))
    else if startSeq > MAX_I64 then Err(InvalidInput("sequence"))
    else
      var inserted := InsertRow(rows, Row(startSeq, frames[0]));
      if inserted.Err? then inserted else InsertAll(inserted.value, startSeq + 1, frames[1..])
  }

  lemma {:induction false} InsertAllKeeps(rows: seq<Row>, startSeq: nat, frames: seq<Frame>)
    requires SortedRows(rows) && DistinctIds(rows) && InsertAll(rows, startSeq, frames).Ok?
    ensures SortedRows(InsertAll(rows, startSeq, frames).value) && DistinctIds(InsertAll(rows, startSeq, frames).value)
    decreases |frames|
  {
    hide InsertRow, SortedRows, DistinctIds;
    if frames != [] {
      var row := Row(startSeq, frames[0]);
      InsertKeeps(rows, row);
      InsertAllKeeps(InsertRow(rows, row).value, startSeq + 1, frames[1..]);
    }
  }

  /** The prepared insert, once per frame. */
  method InsertFrames(rows: seq<Row>, startSeq: nat, frames: seq<Frame>) returns (r: Result<seq<Row>>)
    ensures r == InsertAll(rows, startSeq, frames)
  {
    var table := rows;
    for offset := 0 to |frames|
      invariant InsertAll(rows, startSeq, frames) == InsertAll(table, startSeq + offset, frames[offset..])
    {
      var frame := frames[offset];
      assert frames[offset..][1..] == frames[offset + 1..];
      if !ValidIdentifier(frame.id) || frame.timestampMs > MAX_I64 { return Err(InvalidInput("frame")); }
      if startSeq + offset > MAX_I64 { return Err(InvalidInput("sequence")); }
      var inserted := InsertRow(table, Row(startSeq + offset, frame));
      if inserted.Err? { return inserted; }
      table := inserted.value;
    }
    return Ok(table);
  }

  /** The rows with the lowest sequence numbers go first. */
  function TrimRows(rows: seq<Row>, count: nat): seq<Row> {
    rows[Min(count, |rows|)..]
  }

  function FramesOf(rows: seq<Row>): (frames: seq<Frame>)
    ensures |frames| == |rows| && forall i | 0 <= i < |rows| :: frames[i] == rows[i].frame
  {
    seq(|rows|, i requires 0 <= i < |rows| => rows[i].frame)
  }

  /** Frames appended behind the highest sequence number are stored behind all others, in order. */
  lemma {:induction false} AppendStores(rows: seq<Row>, startSeq: nat, frames: seq<Frame>)
    requires SortedRows(rows) && (rows != [] ==> rows[|rows| - 1].seqNo < startSeq) && InsertAll(rows, startSeq, frames).Ok?
    ensures FramesOf(InsertAll(rows, startSeq, frames).value) == FramesOf(rows) + frames
    decreases |frames|
  {
    hide SortedRows, InsertRow, ValidIdentifier;
    if frames == [] {
      assert FramesOf(rows) + frames == FramesOf(rows);
    } else {
      var row := Row(startSeq, frames[0]);
      InsertAtEnd(rows, row);
      AppendStores(rows + [row], startSeq + 1, frames[1..]);
      assert FramesOf(rows + [row]) == FramesOf(rows) + [frames[0]];
      assert FramesOf(rows) + [frames[0]] + frames[1..] == FramesOf(rows) + frames;
    }
  }

  lemma InsertAtEnd(rows: seq<Row>, row: Row)
    requires SortedRows(rows) && (rows != [] ==> rows[|rows| - 1].seqNo < row.seqNo)
    ensures InsertRow(rows, row).Ok? ==> InsertRow(rows, row).value == rows + [row]
    ensures SortedRows(rows + [row])
  {
    var p := Position(rows, row.seqNo);
    if p < |rows| {
      SortedFrom(rows, p);
      assert false;
    }
  }

  // ----- mutations

  function WithContent(db: Database, id: string, content: Content): Database
    requires id in db.sessions
  {
    db.(sessions := db.sessions[id := db.sessions[id].(content := content)])
  }

  /** The sessions that remain when every other undo slot is purged. */
  function PurgeUndoExcept(sessions: map<string, Session>, id: string): map<string, Session> {
    map s | s in sessions && (!sessions[s].undoPending || s == id) :: sessions[s]
  }

  function AllMessageIds(messages: seq<Message>): set<string> {
    set i | 0 <= i < |messages| :: messages[i].id
  }

  function Apply(db: Database, m: Mutation): Result<Database> {
    match m
    case SetMetadata(name) =>
      if name.Some? && !(1 <= |name.value| <= 256) then Err(InvalidInput("name"))
      else Ok(if name.Some? then db.(name := name.value) else db)
    case SetActiveSession(selected) =>
      if selected.Some? && (!ValidIdentifier(selected.value) || !Visible(db, selected.value)) then Err(InvalidInput("sessionId"))
      else Ok(db.(active := selected))
    case UpsertSession(id, profile) =>
      if !ValidIdentifier(id) then Err(InvalidInput("sessionId"))
      else if !(1 <= |profile.name| <= 256) then Err(InvalidInput("session.name"))
      else
        var content := if id in db.sessions then db.sessions[id].content else EMPTY_CONTENT;
        Ok(db.(sessions := db.sessions[id := Session(profile, false, content)]))
    case UpsertFeatureState(id, feature, state) =>
      if !ValidIdentifier(id) then Err(InvalidInput("entityId"))
      else if feature.Plugin? then
        if |state| > MAX_PLUGIN_STATE_BYTES then Err(LimitExceeded("pluginState")) else Ok(db.(plugins := db.plugins[id := state]))
      else if !Visible(db, id) then Err(InvalidInput("sessionId"))
      else
        var content := db.sessions[id].content;
        Ok(WithContent(db, id, content.(features := content.features[feature := state])))
    case _ =>
      if !ValidIdentifier(m.sessionId) || !Visible(db, m.sessionId) then Err(InvalidInput("sessionId"))
      else ApplyVisible(db, m)
  }

  /** Mutations of a session that must exist and must not be archived. */
  function ApplyVisible(db: Database, m: Mutation): Result<Database>
    requires !m.SetMetadata? && !m.SetActiveSession? && !m.UpsertSession? && !m.UpsertFeatureState? && Visible(db, m.sessionId)
  {
    var id := m.sessionId;
    var session := db.sessions[id];
    var content := session.content;
    match m
    case RemoveSession(_) =>
      var kept := PurgeUndoExcept(db.sessions, id);
      var active := if db.active == Some(id) || (db.active.Some? && db.active.value !in kept) then None else db.active;
      Ok(db.(active := active, sessions := kept[id := session.(undoPending := true)]))
    case AppendFrames(_, startSeq, frames) =>
      if frames == [] then Err(InvalidInput("frames"))
      else
        var rows := InsertAll(content.rows, startSeq, frames);
        if rows.Err? then Err(rows.error) else Ok(WithContent(db, id, content.(rows := rows.value)))
    case ReplaceCapture(_, frames) =>
      var rows := InsertAll([], 0, frames);
      if rows.Err? then Err(rows.error) else Ok(WithContent(db, id, content.(rows := rows.value)))
    case TrimCapture(_, count) =>
      if count == 0 then Err(InvalidInput("frameCount"))
      else Ok(WithContent(db, id, content.(rows := TrimRows(content.rows, count))))
    case ReplaceCollections(_, collections) => Ok(WithContent(db, id, content.(collections := collections)))
    case AppendAiMessages(_, startPosition, messages) =>
      if |content.messages| != startPosition then Err(InvalidInput("aiMessages.startPosition"))
      else if AllMessageIds(messages) !! AllMessageIds(content.messages) then
        Ok(WithContent(db, id, content.(messages := content.messages + messages)))
      else Err(DatabaseError)
    case ClearAiMessages(_) => Ok(WithContent(db, id, content.(messages := [])))
    case ReplaceWaveformChannels(_, channels) =>
      // Deleting the channel rows takes their samples with them.
      if !W.ValidChannels(channels) then Err(InvalidInput("waveformChannels"))
      else Ok(WithContent(db, id, content.(channels := W.ChannelTable(channels), samples := map[])))
    case AppendWaveformSamples(_, samples) =>
      if !W.ValidSamples(samples) then Err(InvalidInput("waveformSample"))
      else
        match W.Append(content.samples, content.channels.Keys, samples)
        case Ok(table) => Ok(WithContent(db, id, content.(samples := table)))
        case UnknownChannel => Err(InvalidInput("waveformSample.channelIndex"))
        case DuplicateKey => Err(DatabaseError)
  }

  function ApplyAll(db: Database, mutations: seq<Mutation>): Result<Database>
    decreases |mutations|
  {
    if mutations == [] then Ok(db)
    else
      var first := Apply(db, mutations[0]);
      if first.Err? then first else ApplyAll(first.value, mutations[1..])
  }

  // ----- the limits of a whole project

  /** Sum of all values. */
  ghost function Sum(weights: map<string, nat>): nat {
    if weights == map[] then 0
    else
      var id :| id in weights;
      weights[id] + Sum(weights - {id})
  }

  /** Whichever entry is counted first. */
  lemma {:induction false} SumWithout(weights: map<string, nat>, id: string)
    requires id in weights
    ensures Sum(weights) == weights[id] + Sum(weights - {id})
    decreases |weights|
  {
    var first :| first in weights && Sum(weights) == weights[first] + Sum(weights - {first});
    if first != id {
      SumWithout(weights - {first}, id);
      SumWithout(weights - {id}, first);
      assert weights - {first} - {id} == weights - {id} - {first};
    }
  }

  method Total(weights: map<string, nat>) returns (total: nat)
    ensures total == Sum(weights)
  {
    var left := weights;
    total := 0;
    while left != map[]
      invariant total + Sum(left) == Sum(weights)
      decreases |left|
    {
      var id :| id in left;
      SumWithout(left, id);
      total, left := total + left[id], left - {id};
    }
  }

  function RowBytes(rows: seq<Row>): nat {
    if rows == [] then 0 else RowBytes(rows[..|rows| - 1]) + |rows[|rows| - 1].frame.data|
  }

  function MessageBytes(messages: seq<Message>): nat {
    if messages == [] then 0 else MessageBytes(messages[..|messages| - 1]) + |messages[|messages| - 1].content|
  }

  /** What of the sessions that are not archived is counted. */
  datatype Measure = Sessions | Frames | FrameBytes | Messages | ContentBytes

  function Weight(content: Content, measure: Measure): nat {
    match measure
    case Sessions => 1
    case Frames => |content.rows|
    case FrameBytes => RowBytes(content.rows)
    case Messages => |content.messages|
    case ContentBytes => MessageBytes(content.messages)
  }

  function Weights(db: Database, measure: Measure): map<string, nat> {
    map id | id in db.sessions && Visible(db, id) :: Weight(db.sessions[id].content, measure)
  }

  function PluginBytes(db: Database): map<string, nat> {
    map id | id in db.plugins :: |db.plugins[id]|
  }

  predicate ShortCaptures(db: Database) {
    forall id | id in db.sessions && Visible(db, id) :: |db.sessions[id].content.rows| <= MAX_WORKSPACE_FRAMES_PER_SESSION
  }

  predicate ShortMessages(db: Database) {
    forall id | id in db.sessions && Visible(db, id) ::
      forall x | x in db.sessions[id].content.messages :: |x.content| <= MAX_WORKSPACE_AI_MESSAGE_BYTES
  }

  /** The first limit that is exceeded, in the order in which they are checked. */
  ghost function FirstExceeded(db: Database): Option<string> {
    if Sum(Weights(db, Sessions)) > MAX_WORKSPACE_SESSIONS then Some("sessions")
    else if Sum(Weights(db, Frames)) > MAX_WORKSPACE_FRAMES then Some("frames")
    else if !ShortCaptures(db) then Some("framesPerSession")
    else if Sum(Weights(db, FrameBytes)) > MAX_WORKSPACE_CAPTURE_BYTES then Some("captureBytes")
    else if Sum(Weights(db, Messages)) > MAX_WORKSPACE_AI_MESSAGES then Some("aiMessages")
    else if !ShortMessages(db) then Some("aiMessageBytes")
    else if Sum(Weights(db, ContentBytes)) > MAX_WORKSPACE_AI_BYTES then Some("aiBytes")
    else if Sum(PluginBytes(db)) > MAX_WORKSPACE_PLUGIN_STATE_BYTES then Some("pluginStateBytes")
    else None
  }

  method ValidateWorkspaceLimits(db: Database) returns (exceeded: Option<string>)
    ensures exceeded == FirstExceeded(db)
  {
    var total := Total(Weights(db, Sessions));
    if total > MAX_WORKSPACE_SESSIONS { return Some("sessions"); }
    total := Total(Weights(db, Frames));
    if total > MAX_WORKSPACE_FRAMES { return Some("frames"); }
    if !ShortCaptures(db) { return Some("framesPerSession"); }
    total := Total(Weights(db, FrameBytes));
    if total > MAX_WORKSPACE_CAPTURE_BYTES { return Some("captureBytes"); }
    total := Total(Weights(db, Messages));
    if total > MAX_WORKSPACE_AI_MESSAGES { return Some("aiMessages"); }
    if !ShortMessages(db) { return Some("aiMessageBytes"); }
    total := Total(Weights(db, ContentBytes));
    if total > MAX_WORKSPACE_AI_BYTES { return Some("aiBytes"); }
    total := Total(PluginBytes(db));
    if total > MAX_WORKSPACE_PLUGIN_STATE_BYTES { return Some("pluginStateBytes"); }
    return None;
  }

  /** What a batch makes of the tables: all its mutations, unless one fails or the outcome exceeds a limit. */
  ghost function BatchOutcome(db: Database, mutations: seq<Mutation>): Result<Database> {
    var applied := ApplyAll(db, mutations);
    if applied.Err? then applied
    else if FirstExceeded(applied.value).Some? then Err(LimitExceeded(FirstExceeded(applied.value).value))
    else applied
  }

  /** The mutations of a batch, one after the other, inside its transaction, and the limits on what they come to. */
  method ApplyMutations(db: Database, mutations: seq<Mutation>) returns (r: Result<Database>)
    ensures r == BatchOutcome(db, mutations)
  {
    hide Apply, FirstExceeded;
    var transaction := db;
    for i := 0 to |mutations|
      invariant ApplyAll(db, mutations) == ApplyAll(transaction, mutations[i..])
    {
      assert mutations[i..][1..] == mutations[i + 1..];
      var applied := Apply(transaction, mutations[i]);
      if applied.Err? { return applied; }
      transaction := applied.value;
    }
    var exceeded := ValidateWorkspaceLimits(transaction);
    if exceeded.Some? { return Err(LimitExceeded(exceeded.value)); }
    return Ok(transaction);
  }

  // ----- what every mutation keeps

  predicate GoodContent(content: Content) {
    SortedRows(content.rows) && DistinctIds(content.rows) && W.GoodSamples(content.samples, content.channels.Keys)
  }

  /** The active session is visible, at most one session is archived, and frame rows are in key order. */
  predicate Sound(db: Database) {
    && (db.active.Some? ==> Visible(db, db.active.value))
    && (forall a, b | a in db.sessions && b in db.sessions && db.sessions[a].undoPending && db.sessions[b].undoPending :: a == b)
    && forall id | id in db.sessions :: GoodContent(db.sessions[id].content)
  }

  lemma ContentKeeps(db: Database, m: Mutation)
    requires Sound(db) && Apply(db, m).Ok?
    ensures forall id | id in Apply(db, m).value.sessions :: GoodContent(Apply(db, m).value.sessions[id].content)
  {
    hide InsertAll, SortedRows, DistinctIds, ValidIdentifier, W.GoodSamples, W.Append, W.ValidSamples, W.ValidChannels, W.ChannelTable;
    EmptyRowsGood();
    W.NoSamples(EMPTY_CONTENT.channels.Keys);
    if m.ReplaceWaveformChannels? {
      W.NoSamples(W.ChannelTable(m.channels).Keys);
    } else if m.AppendWaveformSamples? {
      var content := db.sessions[m.sessionId].content;
      assert GoodContent(content);
      W.AppendKeeps(content.samples, content.channels.Keys, m.samples);
    } else if m.AppendFrames? {
      assert GoodContent(db.sessions[m.sessionId].content);
      InsertAllKeeps(db.sessions[m.sessionId].content.rows, m.startSeq, m.frames);
    } else if m.ReplaceCapture? {
      InsertAllKeeps([], 0, m.frames);
    } else if m.TrimCapture? {
      assert GoodContent(db.sessions[m.sessionId].content);
      TrimKeeps(db.sessions[m.sessionId].content.rows, m.frameCount);
    }
  }

  lemma EmptyRowsGood()
    ensures SortedRows([]) && DistinctIds([])
  {
  }

  lemma TrimKeeps(rows: seq<Row>, count: nat)
    requires SortedRows(rows) && DistinctIds(rows)
    ensures SortedRows(TrimRows(rows, count)) && DistinctIds(TrimRows(rows, count))
  {
  }

  lemma ApplyKeeps(db: Database, m: Mutation)
    requires Sound(db) && Apply(db, m).Ok?
    ensures Sound(Apply(db, m).value)
  {
    hide InsertAll, GoodContent, ValidIdentifier, TrimRows;
    ContentKeeps(db, m);
  }

  lemma {:induction false} ApplyAllKeeps(db: Database, mutations: seq<Mutation>)
    requires Sound(db) && ApplyAll(db, mutations).Ok?
    ensures Sound(ApplyAll(db, mutations).value)
    decreases |mutations|
  {
    hide Apply, Sound;
    if mutations != [] {
      ApplyKeeps(db, mutations[0]);
      ApplyAllKeeps(Apply(db, mutations[0]).value, mutations[1..]);
    }
  }

  // ----- undo

  predicate Archived(db: Database, id: string, content: Content) {
    id in db.sessions && db.sessions[id].undoPending && db.sessions[id].content == content
  }

  /** No other removal, and the archived session is not brought back. */
  predicate LeavesArchived(m: Mutation, id: string) {
    !m.RemoveSession? && !(m.UpsertSession? && m.sessionId == id)
  }

  lemma {:induction false} StaysArchived(db: Database, id: string, content: Content, mutations: seq<Mutation>)
    requires Archived(db, id, content) && ApplyAll(db, mutations).Ok?
    requires forall m | m in mutations :: LeavesArchived(m, id)
    ensures Archived(ApplyAll(db, mutations).value, id, content)
    decreases |mutations|
  {
    hide InsertAll, ValidIdentifier, TrimRows;
    if mutations != [] {
      assert LeavesArchived(mutations[0], id);
      StaysArchived(Apply(db, mutations[0]).value, id, content, mutations[1..]);
    }
  }

  /**
   * Undo: removing a session and upserting it again, with anything but another removal in between, gives it back all
   * its frames, messages, collections, channels, samples and feature states; only the profile is that of the upsert.
   */
  lemma UndoRestores(db: Database, id: string, between: seq<Mutation>, profile: Profile)
    requires forall m | m in between :: LeavesArchived(m, id)
    requires ApplyAll(db, [RemoveSession(id)] + between + [UpsertSession(id, profile)]).Ok?
    ensures var after := ApplyAll(db, [RemoveSession(id)] + between + [UpsertSession(id, profile)]).value;
            && Visible(db, id) && Visible(after, id)
            && after.sessions[id] == Session(profile, false, db.sessions[id].content)
  {
    hide Apply, LeavesArchived;
    var removal, upsert := RemoveSession(id), UpsertSession(id, profile);
    var all := [removal] + between + [upsert];
    assert all[1..] == between + [upsert];
    ApplyAllConcat(Apply(db, removal).value, between, [upsert]);
    RemoveArchives(db, id);
    var archived := Apply(db, removal).value;
    StaysArchived(archived, id, db.sessions[id].content, between);
    var later := ApplyAll(archived, between).value;
    assert [upsert][1..] == [];
    UpsertRestores(later, id, profile);
  }

  lemma RemoveArchives(db: Database, id: string)
    requires Apply(db, RemoveSession(id)).Ok?
    ensures Visible(db, id) && Archived(Apply(db, RemoveSession(id)).value, id, db.sessions[id].content)
  {
  }

  lemma UpsertRestores(db: Database, id: string, profile: Profile)
    requires id in db.sessions && Apply(db, UpsertSession(id, profile)).Ok?
    ensures id in Apply(db, UpsertSession(id, profile)).value.sessions
    ensures Apply(db, UpsertSession(id, profile)).value.sessions[id] == Session(profile, false, db.sessions[id].content)
  {
  }

  lemma {:induction false} ApplyAllConcat(db: Database, a: seq<Mutation>, b: seq<Mutation>)
    ensures ApplyAll(db, a + b) == if ApplyAll(db, a).Err? then ApplyAll(db, a) else ApplyAll(ApplyAll(db, a).value, b)
    decreases |a|
  {
    hide Apply;
    if a == [] {
      assert a + b == b;
    } else {
      assert (a + b)[1..] == a[1..] + b;
      if Apply(db, a[0]).Ok? {
        ApplyAllConcat(Apply(db, a[0]).value, a[1..], b);
      }
    }
  }

  /** A mutation of one session leaves every other as it is, except that a removal gives up the one archived before. */
  lemma OthersUntouched(db: Database, m: Mutation, other: string)
    requires Apply(db, m).Ok? && other in db.sessions
    requires Target(m) != Some(other)
    ensures other in Apply(db, m).value.sessions <==> !(m.RemoveSession? && db.sessions[other].undoPending)
    ensures other in Apply(db, m).value.sessions ==> Apply(db, m).value.sessions[other] == db.sessions[other]
  {
    hide InsertAll, ValidIdentifier, TrimRows;
  }

  /** A replaced capture is stored as given, whatever was there before. */
  lemma ReplaceStores(db: Database, id: string, frames: seq<Frame>)
    requires Apply(db, ReplaceCapture(id, frames)).Ok?
    ensures id in Apply(db, ReplaceCapture(id, frames)).value.sessions
    ensures var content := Apply(db, ReplaceCapture(id, frames)).value.sessions[id].content;
            && FramesOf(content.rows) == frames && content == db.sessions[id].content.(rows := content.rows)
  {
    EmptyRowsGood();
    AppendStores([], 0, frames);
    assert FramesOf([]) + frames == frames;
  }
}
