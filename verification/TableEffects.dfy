/** What each mutation does to the fields of a project, and when it is refused. */
module TableEffects {
  import opened Bytes
  import opened Wrappers
  import opened WorkspaceTables
  import W = Waveform

  /** No control character, and neither empty nor longer than 128. */
  predicate GoodName(id: string) {
    1 <= |id| <= 128 && forall c | c in id :: ' ' <= c && !('\U{7F}' <= c <= '\U{9F}')
  }

  /** There, and not in the undo slot. */
  predicate InUse(db: Database, id: string) {
    GoodName(id) && id in db.sessions && !db.sessions[id].undoPending
  }

  lemma GoodNames(id: string)
    ensures GoodName(id) <==> ValidIdentifier(id)
  {
    assert forall i | 0 <= i < |id| :: id[i] in id;
    assert ValidIdentifier(id) ==> forall c | c in id :: exists i :: 0 <= i < |id| && id[i] == c;
  }

  /** Apart from the sessions nothing has changed. */
  predicate SameProject(db: Database, after: Database) {
    after.name == db.name && after.active == db.active && after.plugins == db.plugins
  }

  /** All that has changed is the content of one session. */
  predicate OnlyContent(db: Database, after: Database, id: string) {
    && SameProject(db, after) && after.sessions.Keys == db.sessions.Keys && id in db.sessions
    && (forall s | s in db.sessions && s != id :: after.sessions[s] == db.sessions[s])
    && after.sessions[id].profile == db.sessions[id].profile && after.sessions[id].undoPending == db.sessions[id].undoPending
  }

  function Done(db: Database, m: Mutation): Database
    requires Apply(db, m).Ok?
  {
    Apply(db, m).value
  }

  function ContentOf(db: Database, id: string): Content
    requires id in db.sessions
  {
    db.sessions[id].content
  }

  // ----- the project

  lemma MetadataMeans(db: Database, name: Option<string>)
    ensures var m := SetMetadata(name);
            && (Apply(db, m).Ok? <==> name.None? || 1 <= |name.value| <= 256)
            && (Apply(db, m).Ok? ==>
                  var after := Done(db, m);
                  && (name.Some? ==> after.name == name.value) && (name.None? ==> after.name == db.name)
                  && after.active == db.active && after.sessions == db.sessions && after.plugins == db.plugins)
  {
  }

  lemma ActiveMeans(db: Database, selected: Option<string>)
    ensures var m := SetActiveSession(selected);
            && (Apply(db, m).Ok? <==> selected.None? || InUse(db, selected.value))
            && (Apply(db, m).Ok? ==>
                  var after := Done(db, m);
                  after.active == selected && after.name == db.name && after.sessions == db.sessions && after.plugins == db.plugins)
  {
    hide ValidIdentifier, GoodName;
    if selected.Some? { GoodNames(selected.value); }
  }

  /** A new session starts empty; one that was removed, or is there, keeps its content; either way it is in use. */
  lemma UpsertMeans(db: Database, id: string, profile: Profile)
    ensures var m := UpsertSession(id, profile);
            && (Apply(db, m).Ok? <==> GoodName(id) && 1 <= |profile.name| <= 256)
            && (Apply(db, m).Ok? ==>
                  var after := Done(db, m);
                  && SameProject(db, after) && after.sessions.Keys == db.sessions.Keys + {id}
                  && (forall s | s in db.sessions && s != id :: after.sessions[s] == db.sessions[s])
                  && after.sessions[id].profile == profile && !after.sessions[id].undoPending
                  && var content := ContentOf(after, id);
                     && (id in db.sessions ==> content == ContentOf(db, id))
                     && (id !in db.sessions ==>
                           && content.rows == [] && content.messages == [] && content.collections == []
                           && content.channels == map[] && content.samples == map[] && content.features == map[]))
  {
    hide ValidIdentifier, GoodName;
    GoodNames(id);
  }

  /** A removed session takes the undo slot, out of which the one before it goes; it is no longer the active one. */
  lemma RemoveMeans(db: Database, id: string)
    requires db.active.Some? ==> Visible(db, db.active.value)
    ensures var m := RemoveSession(id);
            && (Apply(db, m).Ok? <==> InUse(db, id))
            && (Apply(db, m).Ok? ==>
                  var after := Done(db, m);
                  && after.name == db.name && after.plugins == db.plugins
                  && after.active == (if db.active == Some(id) then None else db.active)
                  && id in after.sessions && after.sessions[id].undoPending
                  && after.sessions[id].profile == db.sessions[id].profile && ContentOf(after, id) == ContentOf(db, id)
                  && forall s | s != id ::
                       && (s in after.sessions <==> s in db.sessions && !db.sessions[s].undoPending)
                       && (s in after.sessions ==> after.sessions[s] == db.sessions[s]))
  {
    hide ValidIdentifier, GoodName;
    GoodNames(id);
  }

  lemma PluginMeans(db: Database, id: string, state: seq<byte>)
    ensures var m := UpsertFeatureState(id, Plugin, state);
            && (Apply(db, m).Ok? <==> GoodName(id) && |state| <= 16 * 1024 * 1024)
            && (Apply(db, m).Ok? ==>
                  var after := Done(db, m);
                  && after.plugins.Keys == db.plugins.Keys + {id} && after.plugins[id] == state
                  && (forall p | p in db.plugins && p != id :: after.plugins[p] == db.plugins[p])
                  && after.name == db.name && after.active == db.active && after.sessions == db.sessions)
  {
    hide ValidIdentifier, GoodName;
    GoodNames(id);
  }

  // ----- one session

  lemma FeatureMeans(db: Database, id: string, feature: Feature, state: seq<byte>)
    requires feature != Plugin
    ensures var m := UpsertFeatureState(id, feature, state);
            && (Apply(db, m).Ok? <==> InUse(db, id))
            && (Apply(db, m).Ok? ==>
                  var after := Done(db, m); var was, now := ContentOf(db, id), ContentOf(after, id);
                  && OnlyContent(db, after, id)
                  && now.features.Keys == was.features.Keys + {feature} && now.features[feature] == state
                  && (forall f | f in was.features && f != feature :: now.features[f] == was.features[f])
                  && now == was.(features := now.features))
  {
    hide ValidIdentifier, GoodName;
    GoodNames(id);
  }

  lemma CollectionsMean(db: Database, id: string, collections: seq<string>)
    ensures var m := ReplaceCollections(id, collections);
            && (Apply(db, m).Ok? <==> InUse(db, id))
            && (Apply(db, m).Ok? ==>
                  var after := Done(db, m);
                  OnlyContent(db, after, id) && ContentOf(after, id) == ContentOf(db, id).(collections := collections))
  {
    hide ValidIdentifier, GoodName;
    GoodNames(id);
  }

  /** Messages go behind those that are there, if the writer knows how many there are and no id is used twice. */
  lemma MessagesMean(db: Database, id: string, start: nat, messages: seq<Message>)
    ensures var m := AppendAiMessages(id, start, messages);
            && (Apply(db, m).Ok? <==>
                  InUse(db, id) && start == |ContentOf(db, id).messages| && NewIds(messages, ContentOf(db, id).messages))
            && (Apply(db, m).Ok? ==>
                  var after := Done(db, m); var was, now := ContentOf(db, id), ContentOf(after, id);
                  && OnlyContent(db, after, id) && |now.messages| == |was.messages| + |messages|
                  && (forall i | 0 <= i < |was.messages| :: now.messages[i] == was.messages[i])
                  && (forall i | 0 <= i < |messages| :: now.messages[start + i] == messages[i])
                  && now == was.(messages := now.messages))
  {
    hide ValidIdentifier, GoodName, NewIds, AllMessageIds;
    GoodNames(id);
    if InUse(db, id) {
      IdsApart(messages, ContentOf(db, id).messages);
    }
  }

  predicate NewIds(a: seq<Message>, b: seq<Message>) {
    forall x, y | x in a && y in b :: x.id != y.id
  }

  lemma IdsApart(a: seq<Message>, b: seq<Message>)
    ensures AllMessageIds(a) !! AllMessageIds(b) <==> NewIds(a, b)
  {
    if AllMessageIds(a) !! AllMessageIds(b) {
      forall x, y | x in a && y in b ensures x.id != y.id {
        assert x.id in AllMessageIds(a) && y.id in AllMessageIds(b);
      }
    }
  }

  lemma ClearMeans(db: Database, id: string)
    ensures var m := ClearAiMessages(id);
            && (Apply(db, m).Ok? <==> InUse(db, id))
            && (Apply(db, m).Ok? ==>
                  var after := Done(db, m);
                  OnlyContent(db, after, id) && ContentOf(after, id) == ContentOf(db, id).(messages := []))
  {
    hide ValidIdentifier, GoodName;
    GoodNames(id);
  }

  lemma TrimMeans(db: Database, id: string, count: nat)
    ensures var m := TrimCapture(id, count);
            && (Apply(db, m).Ok? <==> InUse(db, id) && count > 0)
            && (Apply(db, m).Ok? ==>
                  var after := Done(db, m); var was, now := ContentOf(db, id).rows, ContentOf(after, id).rows;
                  && OnlyContent(db, after, id) && ContentOf(after, id) == ContentOf(db, id).(rows := now)
                  && (count >= |was| ==> now == []) && (count < |was| ==> now == was[count..]))
  {
    hide ValidIdentifier, GoodName;
    GoodNames(id);
  }

  // ----- frame rows

  /** The frame can be stored under this number: it is valid, and neither the number nor the id is taken. */
  predicate Takes(rows: seq<Row>, seqNo: nat, frame: Frame) {
    && GoodName(frame.id) && frame.timestampMs <= 0x7fff_ffff_ffff_ffff && seqNo <= 0x7fff_ffff_ffff_ffff
    && forall r | r in rows :: r.seqNo != seqNo && r.frame.id != frame.id
  }

  /** The frames can be stored under consecutive numbers. */
  predicate FitsIn(rows: seq<Row>, startSeq: nat, frames: seq<Frame>) {
    && (forall k | 0 <= k < |frames| :: Takes(rows, startSeq + k, frames[k]))
    && forall k, l | 0 <= k < l < |frames| :: frames[k].id != frames[l].id
  }

  lemma {:induction false} InsertMeans(rows: seq<Row>, startSeq: nat, frames: seq<Frame>)
    requires SortedRows(rows) && DistinctIds(rows)
    ensures InsertAll(rows, startSeq, frames).Ok? <==> FitsIn(rows, startSeq, frames)
    ensures InsertAll(rows, startSeq, frames).Ok? ==>
              var after := InsertAll(rows, startSeq, frames).value;
              && SortedRows(after)
              && forall r :: r in after <==> r in rows || exists k :: 0 <= k < |frames| && r == Row(startSeq + k, frames[k])
    decreases |frames|
  {
    hide InsertRow, SortedRows, DistinctIds, GoodName, ValidIdentifier, FitsIn;
    NothingToFit(rows, startSeq);
    if frames != [] {
      if FitsIn(rows, startSeq, frames) { FitsFirst(rows, startSeq, frames); }
      var row := Row(startSeq, frames[0]);
      GoodNames(frames[0].id);
      RowMeans(rows, row);
      if InsertRow(rows, row).Ok? && GoodName(frames[0].id) && frames[0].timestampMs <= 0x7fff_ffff_ffff_ffff
         && startSeq <= 0x7fff_ffff_ffff_ffff {
        var next := InsertRow(rows, row).value;
        InsertKeeps(rows, row);
        InsertMeans(next, startSeq + 1, frames[1..]);
        FitsNext(rows, next, startSeq, frames);
        if InsertAll(rows, startSeq, frames).Ok? {
          RowsNext(rows, next, InsertAll(rows, startSeq, frames).value, startSeq, frames);
        }
      }
    }
  }

  lemma NothingToFit(rows: seq<Row>, startSeq: nat)
    ensures FitsIn(rows, startSeq, [])
  {
  }

  lemma FitsFirst(rows: seq<Row>, startSeq: nat, frames: seq<Frame>)
    requires frames != [] && FitsIn(rows, startSeq, frames)
    ensures Takes(rows, startSeq, frames[0])
  {
    hide Takes;
    assert Takes(rows, startSeq + 0, frames[0]);
  }

  lemma RowMeans(rows: seq<Row>, row: Row)
    requires SortedRows(rows)
    ensures InsertRow(rows, row).Ok? <==> forall r | r in rows :: r.seqNo != row.seqNo && r.frame.id != row.frame.id
    ensures InsertRow(rows, row).Ok? ==> forall r :: r in InsertRow(rows, row).value <==> r in rows || r == row
  {
    hide Position, SortedRows, HasFrameId;
    var p := Position(rows, row.seqNo);
    NumberTaken(rows, row.seqNo);
    IdTaken(rows, row.frame.id);
    Spliced(rows, p, row);
  }

  lemma NumberTaken(rows: seq<Row>, seqNo: nat)
    requires SortedRows(rows)
    ensures var p := Position(rows, seqNo);
            (p < |rows| && rows[p].seqNo == seqNo) <==> exists r :: r in rows && r.seqNo == seqNo
  {
    hide Position, SortedRows;
    var p := Position(rows, seqNo);
    if p < |rows| {
      SortedFrom(rows, p);
      assert rows[p] in rows;
    }
    if r :| r in rows && r.seqNo == seqNo {
      var i :| 0 <= i < |rows| && rows[i] == r;
      assert i >= p;
    }
  }

  lemma IdTaken(rows: seq<Row>, id: string)
    ensures HasFrameId(rows, id) <==> exists r :: r in rows && r.frame.id == id
  {
  }

  lemma Spliced(rows: seq<Row>, p: nat, row: Row)
    requires p <= |rows|
    ensures forall r :: r in rows[..p] + [row] + rows[p..] <==> r in rows || r == row
  {
    assert rows == rows[..p] + rows[p..];
  }

  lemma FitsNext(rows: seq<Row>, next: seq<Row>, startSeq: nat, frames: seq<Frame>)
    requires frames != [] && forall r :: r in next <==> r in rows || r == Row(startSeq, frames[0])
    requires Takes(rows, startSeq, frames[0])
    ensures FitsIn(next, startSeq + 1, frames[1..]) <==> FitsIn(rows, startSeq, frames)
  {
    hide FitsIn;
    if FitsIn(rows, startSeq, frames) { FitsLess(rows, next, startSeq, frames); }
    if FitsIn(next, startSeq + 1, frames[1..]) { FitsMore(rows, next, startSeq, frames); }
  }

  lemma TakesNext(rows: seq<Row>, next: seq<Row>, first: Row, seqNo: nat, frame: Frame)
    requires forall r :: r in next <==> r in rows || r == first
    ensures Takes(next, seqNo, frame) <==> Takes(rows, seqNo, frame) && seqNo != first.seqNo && frame.id != first.frame.id
  {
    hide GoodName;
    assert first in next;
  }

  lemma FitsLess(rows: seq<Row>, next: seq<Row>, startSeq: nat, frames: seq<Frame>)
    requires frames != [] && forall r :: r in next <==> r in rows || r == Row(startSeq, frames[0])
    requires FitsIn(rows, startSeq, frames)
    ensures FitsIn(next, startSeq + 1, frames[1..])
  {
    hide Takes;
    var rest := frames[1..];
    forall k | 0 <= k < |rest| ensures Takes(next, startSeq + 1 + k, rest[k]) {
      assert rest[k] == frames[k + 1];
      assert Takes(rows, startSeq + (k + 1), frames[k + 1]);
      TakesNext(rows, next, Row(startSeq, frames[0]), startSeq + 1 + k, rest[k]);
    }
  }

  lemma FitsMore(rows: seq<Row>, next: seq<Row>, startSeq: nat, frames: seq<Frame>)
    requires frames != [] && forall r :: r in next <==> r in rows || r == Row(startSeq, frames[0])
    requires Takes(rows, startSeq, frames[0]) && FitsIn(next, startSeq + 1, frames[1..])
    ensures FitsIn(rows, startSeq, frames)
  {
    hide Takes;
    var rest, first := frames[1..], Row(startSeq, frames[0]);
    forall k | 0 <= k < |frames| ensures Takes(rows, startSeq + k, frames[k]) && (k > 0 ==> frames[k].id != frames[0].id) {
      if k > 0 {
        assert rest[k - 1] == frames[k];
        assert Takes(next, startSeq + 1 + (k - 1), rest[k - 1]);
        TakesNext(rows, next, first, startSeq + k, frames[k]);
      }
    }
    forall k, l | 0 <= k < l < |frames| ensures frames[k].id != frames[l].id {
      if k > 0 { assert rest[k - 1] == frames[k] && rest[l - 1] == frames[l]; }
    }
  }

  lemma RowsNext(rows: seq<Row>, next: seq<Row>, after: seq<Row>, startSeq: nat, frames: seq<Frame>)
    requires frames != [] && forall r :: r in next <==> r in rows || r == Row(startSeq, frames[0])
    requires forall r :: r in after <==> r in next || exists k :: 0 <= k < |frames[1..]| && r == Row(startSeq + 1 + k, frames[1..][k])
    ensures forall r :: r in after <==> r in rows || exists k :: 0 <= k < |frames| && r == Row(startSeq + k, frames[k])
  {
    forall r ensures r in after <==> r in rows || exists k :: 0 <= k < |frames| && r == Row(startSeq + k, frames[k]) {
      if k :| 0 <= k < |frames| && r == Row(startSeq + k, frames[k]) {
        if k > 0 { assert r == Row(startSeq + 1 + (k - 1), frames[1..][k - 1]); }
      }
      if k :| 0 <= k < |frames[1..]| && r == Row(startSeq + 1 + k, frames[1..][k]) {
        assert r == Row(startSeq + (k + 1), frames[k + 1]);
      }
    }
  }

  lemma AppendMeans(db: Database, id: string, startSeq: nat, frames: seq<Frame>)
    requires id in db.sessions ==> GoodContent(ContentOf(db, id))
    ensures var m := AppendFrames(id, startSeq, frames);
            && (Apply(db, m).Ok? <==> InUse(db, id) && frames != [] && FitsIn(ContentOf(db, id).rows, startSeq, frames))
            && (Apply(db, m).Ok? ==>
                  var after := Done(db, m); var was, now := ContentOf(db, id).rows, ContentOf(after, id).rows;
                  && OnlyContent(db, after, id) && ContentOf(after, id) == ContentOf(db, id).(rows := now) && SortedRows(now)
                  && forall r :: r in now <==> r in was || exists k :: 0 <= k < |frames| && r == Row(startSeq + k, frames[k]))
  {
    hide ValidIdentifier, GoodName, InsertAll, SortedRows, DistinctIds, FitsIn, W.GoodSamples;
    GoodNames(id);
    if id in db.sessions { InsertMeans(ContentOf(db, id).rows, startSeq, frames); }
  }

  lemma ReplaceMeans(db: Database, id: string, frames: seq<Frame>)
    ensures var m := ReplaceCapture(id, frames);
            && (Apply(db, m).Ok? <==> InUse(db, id) && FitsIn([], 0, frames))
            && (Apply(db, m).Ok? ==>
                  var after := Done(db, m);
                  && OnlyContent(db, after, id) && FramesOf(ContentOf(after, id).rows) == frames
                  && ContentOf(after, id) == ContentOf(db, id).(rows := ContentOf(after, id).rows))
  {
    hide ValidIdentifier, GoodName, InsertAll, FitsIn;
    GoodNames(id);
    EmptyRowsGood();
    InsertMeans([], 0, frames);
    if Apply(db, ReplaceCapture(id, frames)).Ok? { ReplaceStores(db, id, frames); }
  }

  // ----- waveforms

  lemma {:induction false} TableHas(channels: seq<W.Channel>)
    requires forall i, j | 0 <= i < j < |channels| :: channels[i].index != channels[j].index
    ensures forall n: nat :: n in W.ChannelTable(channels) <==> exists i :: 0 <= i < |channels| && channels[i].index == n
    ensures forall i | 0 <= i < |channels| ::
              channels[i].index in W.ChannelTable(channels) && W.ChannelTable(channels)[channels[i].index] == channels[i].config
  {
    if channels != [] {
      var n := |channels| - 1;
      var most := channels[..n];
      TableHas(most);
      assert forall i | 0 <= i < n :: most[i] == channels[i];
      forall k: nat ensures k in W.ChannelTable(channels) <==> exists i :: 0 <= i < |channels| && channels[i].index == k {
        if i :| 0 <= i < |channels| && channels[i].index == k {
          if i < n { assert most[i].index == k; }
        }
        if k == channels[n].index {
          assert channels[n].index == k;
        } else if k in W.ChannelTable(channels) {
          var i :| 0 <= i < |most| && most[i].index == k;
          assert channels[i].index == k;
        }
      }
    }
  }

  /** New channels replace the old ones, and with them all samples. */
  lemma ChannelsMean(db: Database, id: string, channels: seq<W.Channel>)
    ensures var m := ReplaceWaveformChannels(id, channels);
            && (Apply(db, m).Ok? <==>
                  && InUse(db, id) && |channels| <= 8 && (forall c | c in channels :: c.index <= 7)
                  && forall i, j | 0 <= i < j < |channels| :: channels[i].index != channels[j].index)
            && (Apply(db, m).Ok? ==>
                  var after := Done(db, m); var table := ContentOf(after, id).channels;
                  && OnlyContent(db, after, id)
                  && (forall n: nat :: n in table <==> exists i :: 0 <= i < |channels| && channels[i].index == n)
                  && (forall i | 0 <= i < |channels| :: channels[i].index in table && table[channels[i].index] == channels[i].config)
                  && ContentOf(after, id) == ContentOf(db, id).(channels := table, samples := map[]))
  {
    hide ValidIdentifier, GoodName, W.ChannelTable;
    GoodNames(id);
    if W.ValidChannels(channels) { TableHas(channels); }
  }

  /** Samples with finite values, of the eight channels, with keys of their own and numbers the database can hold. */
  predicate Readable(samples: seq<W.Sample>) {
    && |samples| > 0 && (forall i, j | 0 <= i < j < |samples| :: samples[i].key != samples[j].key)
    && forall s | s in samples ::
         s.reading.Finite? && s.key.channel in {0, 1, 2, 3, 4, 5, 6, 7}
         && s.key.seqNo <= 0x7fff_ffff_ffff_ffff && s.timestampMs <= 0x7fff_ffff_ffff_ffff
  }

  lemma ReadableIsValid(samples: seq<W.Sample>)
    ensures Readable(samples) <==> W.ValidSamples(samples)
  {
  }

  /** Samples of new keys in channels that exist; the newest 600 groups of all samples are kept. */
  lemma SamplesMean(db: Database, id: string, samples: seq<W.Sample>)
    ensures var m := AppendWaveformSamples(id, samples);
            && (Apply(db, m).Ok? <==>
                  && InUse(db, id) && Readable(samples)
                  && forall s | s in samples :: s.key.channel in ContentOf(db, id).channels && s.key !in ContentOf(db, id).samples)
            && (Apply(db, m).Ok? ==>
                  var after := Done(db, m); var was, now := ContentOf(db, id).samples, ContentOf(after, id).samples;
                  && OnlyContent(db, after, id) && ContentOf(after, id) == ContentOf(db, id).(samples := now)
                  && (exists all: map<W.Key, W.Sample> ::
                        && (forall k :: k in all <==> k in was || exists s :: s in samples && s.key == k)
                        && (forall k | k in was :: all[k] == was[k]) && (forall s | s in samples :: all[s.key] == s)
                        && now == W.Prune(all)))
  {
    hide ValidIdentifier, GoodName, W.InsertAll, W.Prune, W.ValidSamples, Readable;
    GoodNames(id);
    ReadableIsValid(samples);
    if InUse(db, id) && W.ValidSamples(samples) {
      var content := ContentOf(db, id);
      KeysApart(samples);
      SamplesFit(content.samples, content.channels.Keys, samples);
      if W.InsertAll(content.samples, content.channels.Keys, samples).Ok? {
        W.InsertedAll(content.samples, content.channels.Keys, samples);
        var all := W.InsertAll(content.samples, content.channels.Keys, samples).table;
        assert forall k :: k in all <==> k in content.samples || exists s :: s in samples && s.key == k;
      }
    }
  }

  lemma KeysApart(samples: seq<W.Sample>)
    requires W.ValidSamples(samples)
    ensures forall i, j | 0 <= i < j < |samples| :: samples[i].key != samples[j].key
  {
  }

  lemma {:induction false} SamplesFit(table: map<W.Key, W.Sample>, channels: set<nat>, samples: seq<W.Sample>)
    requires forall i, j | 0 <= i < j < |samples| :: samples[i].key != samples[j].key
    ensures W.InsertAll(table, channels, samples).Ok? <==> forall s | s in samples :: s.key.channel in channels && s.key !in table
    decreases |samples|
  {
    if samples != [] {
      var first, rest := samples[0], samples[1..];
      assert samples == [first] + rest;
      SamplesFit(table[first.key := first], channels, rest);
      assert forall i | 0 <= i < |rest| :: rest[i] == samples[i + 1];
      assert forall s | s in rest :: s.key != first.key;
    }
  }

  // ----- the limits

  function Data(rows: seq<Row>): seq<seq<byte>> {
    seq(|rows|, i requires 0 <= i < |rows| => rows[i].frame.data)
  }

  function Contents(messages: seq<Message>): seq<string> {
    seq(|messages|, i requires 0 <= i < |messages| => messages[i].content)
  }

  lemma {:induction false} RowBytesAre(rows: seq<Row>)
    ensures RowBytes(rows) == |Flatten(Data(rows))|
  {
    if rows != [] {
      var most, last := rows[..|rows| - 1], rows[|rows| - 1];
      RowBytesAre(most);
      assert Data(rows) == Data(most) + [last.frame.data];
      FlattenAppend(Data(most), [last.frame.data]);
      FlattenOne(last.frame.data);
    }
  }

  lemma {:induction false} MessageBytesAre(messages: seq<Message>)
    ensures MessageBytes(messages) == |Flatten(Contents(messages))|
  {
    if messages != [] {
      var most, last := messages[..|messages| - 1], messages[|messages| - 1];
      MessageBytesAre(most);
      assert Contents(messages) == Contents(most) + [last.content];
      FlattenAppend(Contents(most), [last.content]);
      FlattenOne(last.content);
    }
  }

  lemma FlattenOne<T>(part: seq<T>)
    ensures Flatten([part]) == part
  {
    assert [part][1..] == [];
    assert Flatten([part]) == part + Flatten<T>([]);
  }

  lemma {:induction false} SumOfOnes(weights: map<string, nat>)
    requires forall id | id in weights :: weights[id] == 1
    ensures Sum(weights) == |weights|
    decreases |weights|
  {
    if weights != map[] {
      var id :| id in weights;
      SumWithout(weights, id);
      SumOfOnes(weights - {id});
    }
  }

  /** The sessions that count: those that are not archived. */
  function Counted(db: Database): set<string> {
    set id | id in db.sessions && !db.sessions[id].undoPending
  }

  function FrameCounts(db: Database): map<string, nat> {
    map id | id in Counted(db) :: |ContentOf(db, id).rows|
  }

  function FrameSizes(db: Database): map<string, nat> {
    map id | id in Counted(db) :: |Flatten(Data(ContentOf(db, id).rows))|
  }

  function MessageCounts(db: Database): map<string, nat> {
    map id | id in Counted(db) :: |ContentOf(db, id).messages|
  }

  function MessageSizes(db: Database): map<string, nat> {
    map id | id in Counted(db) :: |Flatten(Contents(ContentOf(db, id).messages))|
  }

  function PluginSizes(db: Database): map<string, nat> {
    map id | id in db.plugins :: |db.plugins[id]|
  }

  /** A project is within its limits exactly if all of these hold of the sessions that count. */
  lemma LimitsMean(db: Database)
    ensures FirstExceeded(db).None? <==>
              && |Counted(db)| <= 64
              && Sum(FrameCounts(db)) <= 250_000 && Sum(FrameSizes(db)) <= 256 * 1024 * 1024
              && (forall id | id in Counted(db) :: |ContentOf(db, id).rows| <= 100_000)
              && Sum(MessageCounts(db)) <= 10_000 && Sum(MessageSizes(db)) <= 32 * 1024 * 1024
              && (forall id, x | id in Counted(db) && x in ContentOf(db, id).messages :: |x.content| <= 256 * 1024)
              && Sum(PluginSizes(db)) <= 64 * 1024 * 1024
  {
    hide Sum, Weights, PluginBytes, ShortCaptures, ShortMessages, Counted, FrameCounts, FrameSizes, MessageCounts, MessageSizes, PluginSizes;
    CountedSessions(db);
    CountedFrames(db);
    CountedMessages(db);
    ShortMeans(db);
  }

  lemma CountedSessions(db: Database)
    ensures Sum(Weights(db, Sessions)) == |Counted(db)| && PluginBytes(db) == PluginSizes(db)
  {
    hide Sum;
    SumOfOnes(Weights(db, Sessions));
    assert Weights(db, Sessions).Keys == Counted(db);
  }

  lemma CountedFrames(db: Database)
    ensures Weights(db, Measure.Frames) == FrameCounts(db) && Weights(db, FrameBytes) == FrameSizes(db)
  {
    hide RowBytes;
    forall id | id in Counted(db)
      ensures RowBytes(ContentOf(db, id).rows) == |Flatten(Data(ContentOf(db, id).rows))|
    {
      RowBytesAre(ContentOf(db, id).rows);
    }
  }

  lemma CountedMessages(db: Database)
    ensures Weights(db, Measure.Messages) == MessageCounts(db) && Weights(db, ContentBytes) == MessageSizes(db)
  {
    hide MessageBytes;
    forall id | id in Counted(db)
      ensures MessageBytes(ContentOf(db, id).messages) == |Flatten(Contents(ContentOf(db, id).messages))|
    {
      MessageBytesAre(ContentOf(db, id).messages);
    }
  }

  lemma ShortMeans(db: Database)
    ensures ShortCaptures(db) <==> forall id | id in Counted(db) :: |ContentOf(db, id).rows| <= 100_000
    ensures ShortMessages(db) <==> forall id, x | id in Counted(db) && x in ContentOf(db, id).messages :: |x.content| <= 256 * 1024
  {
    assert forall id | id in db.sessions :: Visible(db, id) <==> id in Counted(db);
  }
}
