/** Merged terminal rows: direction runs kept as chunk lists, with a bounded cache of their display tails. */
module MergedFrameRope {
  import opened Bytes
  import opened Wrappers

  const MAX_MERGED_VISIBLE_BYTES: nat := 64 * 1024
  const TAIL_CACHE_CAPACITY: nat := 8

  datatype Direction = TX | RX

  datatype DataFrame = DataFrame(id: string, direction: Direction, timestamp: int, data: seq<byte>)

  /** One run; the row shown for it is identified by the run's position in the table of runs. */
  datatype Run = Run(id: string, direction: Direction, timestamp: int, chunks: seq<seq<byte>>, totalBytes: nat,
                     contentVersion: nat, detached: bool)

  datatype TailEntry = TailEntry(run: nat, contentVersion: nat, tail: seq<byte>)

  datatype LineCount = LineCount(contentVersion: nat, count: nat)

  datatype Materialized = Materialized(id: string, direction: Direction, timestamp: int, data: seq<byte>, contentVersion: nat)

  // ----- what the rows are

  /** A maximal stretch of frames in one direction: the first frame's identity, and all the bytes. */
  datatype Row = Row(id: string, direction: Direction, timestamp: int, data: seq<byte>)

  /** Merging source frames into rows, from left to right. */
  function Rows(source: seq<DataFrame>): seq<Row> {
    if source == [] then [] else Merge(Rows(source[..|source| - 1]), source[|source| - 1])
  }

  function Merge(before: seq<Row>, f: DataFrame): seq<Row> {
    var n := |before|;
    if n > 0 && before[n - 1].direction == f.direction then
      before[..n - 1] + [before[n - 1].(data := before[n - 1].data + f.data)]
    else before + [Row("merged-" + f.id, f.direction, f.timestamp, f.data)]
  }

  /** The rows are the maximal same-direction stretches: whichever way the source is cut into them, one row each. */
  lemma {:induction false} RowsAreMaximalRuns(stretches: seq<seq<DataFrame>>)
    requires MaximalRuns(stretches)
    ensures Rows(Join(stretches)) == RowsOf(stretches)
    decreases |Join(stretches)|
  {
    hide Rows, Join, RowsOf, Merge, MaximalRuns;
    var n := |stretches|;
    JoinLast(stretches);
    RunsSize(stretches);
    if n == 0 {
      NoRows();
    } else {
      var before, g := stretches[..n - 1], stretches[n - 1];
      var f := g[|g| - 1];
      if |g| == 1 {
        RunsBefore(stretches);
        RowsAreMaximalRuns(before);
        RowsAppend(Join(before), f);
        FirstOfRun(stretches);
      } else {
        var shorter := before + [g[..|g| - 1]];
        RunShortened(stretches);
        RowsAreMaximalRuns(shorter);
        RowsAppend(Join(shorter), f);
        NextOfRun(stretches);
      }
    }
  }

  lemma RunsSize(stretches: seq<seq<DataFrame>>)
    requires MaximalRuns(stretches)
    ensures forall i | 0 <= i < |stretches| :: stretches[i] != []
    ensures stretches == [] ==> RowsOf(stretches) == []
  {
  }

  lemma RunsBefore(stretches: seq<seq<DataFrame>>)
    requires MaximalRuns(stretches) && stretches != []
    ensures MaximalRuns(stretches[..|stretches| - 1])
  {
    hide OneDirection;
  }

  /** Joining ends with the last stretch's last frame. */
  lemma JoinLast(stretches: seq<seq<DataFrame>>)
    ensures stretches == [] ==> Join(stretches) == []
    ensures stretches != [] && stretches[|stretches| - 1] != [] ==>
              var before, g := stretches[..|stretches| - 1], stretches[|stretches| - 1];
              && (|g| == 1 ==> Join(stretches) == Join(before) + [g[0]])
              && Join(stretches) == Join(before + [g[..|g| - 1]]) + [g[|g| - 1]]
  {
    if stretches != [] && stretches[|stretches| - 1] != [] {
      var before, g := stretches[..|stretches| - 1], stretches[|stretches| - 1];
      var shorter := before + [g[..|g| - 1]];
      assert shorter[..|before|] == before;
      assert g == g[..|g| - 1] + [g[|g| - 1]];
      assert Join(before) + (g[..|g| - 1] + [g[|g| - 1]]) == (Join(before) + g[..|g| - 1]) + [g[|g| - 1]];
    }
  }

  /** A stretch's first frame begins a row. */
  lemma FirstOfRun(stretches: seq<seq<DataFrame>>)
    requires MaximalRuns(stretches) && stretches != [] && |stretches[|stretches| - 1]| == 1
    ensures forall i | 0 <= i < |stretches| :: stretches[i] != []
    ensures RowsOf(stretches) == Merge(RowsOf(stretches[..|stretches| - 1]), stretches[|stretches| - 1][0])
  {
    hide OneDirection;
    var g := stretches[|stretches| - 1];
    assert AllData(g) == g[0].data by { assert g[..0] == []; }
    if |stretches| > 1 {
      assert stretches[|stretches| - 2][0].direction != g[0].direction;
    }
  }

  lemma RunShortened(stretches: seq<seq<DataFrame>>)
    requires MaximalRuns(stretches) && stretches != [] && |stretches[|stretches| - 1]| > 1
    ensures var n := |stretches| - 1; var g := stretches[n]; MaximalRuns(stretches[..n] + [g[..|g| - 1]])
  {
    assert OneDirection(stretches[|stretches| - 1]);
  }

  /** Its other frames continue the row. */
  lemma NextOfRun(stretches: seq<seq<DataFrame>>)
    requires MaximalRuns(stretches) && stretches != [] && |stretches[|stretches| - 1]| > 1
    ensures forall i | 0 <= i < |stretches| :: stretches[i] != []
    ensures var n := |stretches| - 1; var g := stretches[n];
            var shorter := stretches[..n] + [g[..|g| - 1]];
            && (forall i | 0 <= i < |shorter| :: shorter[i] != [])
            && RowsOf(stretches) == Merge(RowsOf(shorter), g[|g| - 1])
  {
    var n := |stretches| - 1;
    var g := stretches[n];
    var shorter := stretches[..n] + [g[..|g| - 1]];
    assert shorter[..n] == stretches[..n];
    assert OneDirection(g) && g[|g| - 1].direction == g[0].direction;
  }

  predicate MaximalRuns(stretches: seq<seq<DataFrame>>) {
    && (forall i | 0 <= i < |stretches| :: stretches[i] != [] && OneDirection(stretches[i]))
    && forall i, j | 0 <= i && j == i + 1 < |stretches| :: stretches[i][0].direction != stretches[j][0].direction
  }

  predicate OneDirection(g: seq<DataFrame>) {
    forall i | 0 <= i < |g| :: g[i].direction == g[0].direction
  }

  function Join(stretches: seq<seq<DataFrame>>): seq<DataFrame> {
    if stretches == [] then [] else Join(stretches[..|stretches| - 1]) + stretches[|stretches| - 1]
  }

  function RowsOf(stretches: seq<seq<DataFrame>>): (rows: seq<Row>)
    requires forall i | 0 <= i < |stretches| :: stretches[i] != []
    ensures |rows| == |stretches|
    ensures rows != [] ==> rows[|rows| - 1] == RowOf(stretches[|stretches| - 1])
  {
    if stretches == [] then [] else RowsOf(stretches[..|stretches| - 1]) + [RowOf(stretches[|stretches| - 1])]
  }

  function RowOf(g: seq<DataFrame>): Row
    requires g != []
  {
    Row("merged-" + g[0].id, g[0].direction, g[0].timestamp, AllData(g))
  }

  lemma NoRows()
    ensures Rows([]) == []
  {
  }

  /** Rows lose no byte and keep the order. */
  lemma {:induction false} RowsKeepBytes(source: seq<DataFrame>)
    ensures RowData(Rows(source)) == AllData(source)
  {
    hide Rows, Merge;
    if source == [] {
      NoRows();
    } else {
      var most, f := source[..|source| - 1], source[|source| - 1];
      RowsKeepBytes(most);
      RowsAppend(most, f);
      assert source == most + [f];
      MergeKeepsBytes(Rows(most), f);
    }
  }

  lemma MergeKeepsBytes(before: seq<Row>, f: DataFrame)
    ensures RowData(Merge(before, f)) == RowData(before) + f.data
  {
    hide RowData;
    var n := |before|;
    if n > 0 && before[n - 1].direction == f.direction {
      RowDataLast(before[..n - 1], before[n - 1]);
      assert before == before[..n - 1] + [before[n - 1]];
      RowDataLast(before[..n - 1], before[n - 1].(data := before[n - 1].data + f.data));
    } else {
      RowDataLast(before, Row("merged-" + f.id, f.direction, f.timestamp, f.data));
    }
  }

  lemma RowDataLast(rows: seq<Row>, row: Row)
    ensures RowData(rows + [row]) == RowData(rows) + row.data
  {
    assert (rows + [row])[..|rows|] == rows;
  }

  function AllData(source: seq<DataFrame>): seq<byte> {
    if source == [] then [] else AllData(source[..|source| - 1]) + source[|source| - 1].data
  }

  function RowData(rows: seq<Row>): seq<byte> {
    if rows == [] then [] else RowData(rows[..|rows| - 1]) + rows[|rows| - 1].data
  }

  function Newest(data: seq<byte>): seq<byte> {
    data[Max(0, |data| - MAX_MERGED_VISIBLE_BYTES)..]
  }

  /** The tail of a row is its last 64 KiB, or all of it. */
  lemma NewestMeans(data: seq<byte>)
    ensures var tail := Newest(data);
            |tail| <= 64 * 1024 && (|tail| < 64 * 1024 ==> tail == data) && tail == data[|data| - |tail|..]
  {
  }

  predicate Shows(m: Materialized, row: Row) {
    m.id == row.id && m.direction == row.direction && m.timestamp == row.timestamp && m.data == row.data
  }

  predicate RunHolds(r: Run, row: Row) {
    && !r.detached && r.id == row.id && r.direction == row.direction && r.timestamp == row.timestamp
    && Flatten(r.chunks) == row.data && r.totalBytes == |row.data| && r.contentVersion >= 1
  }

  /** The live runs are exactly the rows of everything appended since the last clear. */
  predicate LiveRuns(table: seq<Run>, live: seq<nat>, source: seq<DataFrame>) {
    && |live| == |Rows(source)|
    && (forall k | 0 <= k < |live| :: live[k] < |table| && RunHolds(table[live[k]], Rows(source)[k]))
    && (forall k, l | 0 <= k < l < |live| :: live[k] < live[l])
    && forall r | 0 <= r < |table| && r !in live :: Gone(table[r])
  }

  /** A run that was cleared away: its row shows nothing any more. */
  predicate Gone(r: Run) {
    r.detached && r.chunks == [] && r.totalBytes == 0
  }

  /** Cached tails belong to different live runs, and a tail of the current version shows the current bytes. */
  predicate Cached(table: seq<Run>, live: seq<nat>, cache: seq<TailEntry>) {
    && |cache| <= TAIL_CACHE_CAPACITY
    && (forall i | 0 <= i < |cache| :: cache[i].run in live && cache[i].run < |table|)
    && (forall i, j | 0 <= i < j < |cache| :: cache[i].run != cache[j].run)
    && forall i | 0 <= i < |cache| ::
         && cache[i].contentVersion <= table[cache[i].run].contentVersion
         && (cache[i].contentVersion == table[cache[i].run].contentVersion ==>
               cache[i].tail == Newest(Flatten(table[cache[i].run].chunks)))
  }

  /** A memoized line count of the current version is that of the current bytes. */
  ghost predicate Counted(table: seq<Run>, counts: map<nat, LineCount>, compute: seq<byte> -> nat) {
    forall r | r in counts ::
      && r < |table| && counts[r].contentVersion <= table[r].contentVersion
      && (!table[r].detached && counts[r].contentVersion == table[r].contentVersion ==>
            counts[r].count == compute(Flatten(table[r].chunks)))
  }

  class MergedFrameRopeIndex {
    var table: seq<Run>
    var runs: seq<nat>
    var tailCache: seq<TailEntry>
    var lineCounts: map<nat, LineCount>
    /** How many lines the display makes of a row's bytes. */
    const compute: seq<byte> -> nat

    /** The frames appended since the last clear. */
    ghost var source: seq<DataFrame>

    ghost predicate Valid()
      reads this
    {
      LiveRuns(table, runs, source) && Cached(table, runs, tailCache) && Counted(table, lineCounts, compute)
    }

    constructor (compute: seq<byte> -> nat)
      ensures Valid() && source == [] && this.compute == compute
    {
      this.compute := compute;
      table, runs, tailCache, lineCounts, source := [], [], [], map[], [];
      new;
      hide LiveRuns, Cached, Counted;
      NothingShown(compute);
    }

    method Clear()
      requires Valid()
      modifies this
      ensures Valid() && source == [] && |table| == |old(table)| && runs == [] && tailCache == []
    {
      hide LiveRuns, Cached, Counted;
      LiveIndices(table, runs, source);
      for k := 0 to |runs|
        invariant |table| == |old(table)| && runs == old(runs) && lineCounts == old(lineCounts)
        invariant forall r | 0 <= r < |table| && r !in runs[k..] :: Gone(table[r])
        invariant forall r | 0 <= r < |table| :: Gone(table[r]) || table[r] == old(table)[r]
        invariant forall r | 0 <= r < |table| :: table[r].contentVersion == old(table)[r].contentVersion
      {
        var r := runs[k];
        assert runs[k..] == [r] + runs[k + 1..];
        table := table[r := table[r].(detached := true, chunks := [], totalBytes := 0)];
      }
      ClearKeeps(old(table), table, lineCounts, compute);
      runs, tailCache, source := [], [], [];
    }

    method Append(frame: DataFrame)
      requires Valid()
      modifies this
      ensures Valid() && source == old(source) + [frame]
    {
      hide LiveRuns, Cached, Counted;
      LiveIndices(table, runs, source);
      if |runs| > 0 {
        var last := table[runs[|runs| - 1]];
        if !last.detached && last.direction == frame.direction {
          GrowLast(frame);
          return;
        }
      }
      AddRun(frame);
    }

    method GrowLast(frame: DataFrame)
      requires Valid() && runs != [] && runs[|runs| - 1] < |table| && table[runs[|runs| - 1]].direction == frame.direction
      modifies `table, `tailCache, `source
      ensures Valid() && source == old(source) + [frame]
    {
      hide LiveRuns, Cached, Counted;
      var last := runs[|runs| - 1];
      var run := table[last];
      GrowKeeps(table, runs, source, frame);
      DropKeeps(table, runs, tailCache, last, Grown(run, frame));
      CountsKeep(table, lineCounts, compute, last, Grown(run, frame));
      table := table[last := run.(chunks := run.chunks + [frame.data], totalBytes := run.totalBytes + |frame.data|,
                                  contentVersion := run.contentVersion + 1)];
      source := source + [frame];
      if |tailCache| > 0 { DropTailCacheEntry(last); }
    }

    method AddRun(frame: DataFrame)
      requires Valid() && (runs == [] || (runs[|runs| - 1] < |table| && table[runs[|runs| - 1]].direction != frame.direction))
      modifies `table, `runs, `source
      ensures Valid() && source == old(source) + [frame]
    {
      hide LiveRuns, Cached, Counted;
      var run := Run("merged-" + frame.id, frame.direction, frame.timestamp, [frame.data], |frame.data|, 1, false);
      NewRunKeeps(table, runs, source, frame);
      AddKeeps(table, runs, tailCache, lineCounts, compute, run);
      runs := runs + [|table|];
      table := table + [run];
      source := source + [frame];
    }

    /** Rebuilding is clearing and appending everything, so it agrees with having appended it all along. */
    method Rebuild(frames: seq<DataFrame>)
      requires Valid()
      modifies this
      ensures Valid() && source == frames
    {
      hide LiveRuns, Cached, Counted;
      Clear();
      for index := 0 to |frames|
        invariant Valid() && source == frames[..index]
      {
        assert frames[..index + 1] == frames[..index] + [frames[index]];
        Append(frames[index]);
      }
      assert frames[..|frames|] == frames;
    }

    method DropTailCacheEntry(run: nat)
      modifies `tailCache
      ensures tailCache == WithoutRun(old(tailCache), run)
    {
      var index := 0;
      while index < |tailCache| && tailCache[index].run != run
        invariant 0 <= index <= |tailCache| && tailCache == old(tailCache)
        invariant forall i | 0 <= i < index :: tailCache[i].run != run
      {
        index := index + 1;
      }
      WithoutFirst(tailCache, run, index);
      if index < |tailCache| {
        tailCache := tailCache[..index] + tailCache[index + 1..];
      }
    }

    // ----- reads

    /** Bytes of a row that its display tail leaves out. */
    function OmittedBytes(run: nat): (n: nat)
      requires Valid() && run < |table|
      reads this
      ensures |runs| == |Rows(source)|
      ensures forall k | 0 <= k < |runs| && runs[k] == run :: n + |Newest(Rows(source)[k].data)| == |Rows(source)[k].data|
    {
      RowBytes(table, runs, source);
      Max(0, table[run].totalBytes - MAX_MERGED_VISIBLE_BYTES)
    }

    /** The display tail of a row: the newest 64 KiB of exactly its current bytes, whether cached or copied. */
    method TailFor(run: nat) returns (tail: seq<byte>)
      requires Valid() && run < |table|
      modifies `tailCache
      ensures Valid() && (run !in runs ==> tail == [])
      ensures |runs| == |Rows(source)| && forall k | 0 <= k < |runs| && runs[k] == run :: tail == Newest(Rows(source)[k].data)
      ensures tailCache == if tail == [] then old(tailCache) else Used(old(tailCache), TailEntry(run, table[run].contentVersion, tail))
    {
      hide LiveRuns, Counted, Rows;
      RowBytes(table, runs, source);
      if run in runs { LiveHolds(table, runs, source, run); } else { DetachedIsEmpty(table, runs, source, run); }
      if table[run].detached || table[run].totalBytes == 0 { return []; }
      var cached := FreshTailEntry(run);
      if cached.Some? { return cached.value; }
      WithoutTwice(old(tailCache), run);
      tail := CopyTail(table[run].chunks, table[run].totalBytes);
      RememberTail(run, tail);
    }

    /** The cached tail of a run, moved to the front if it is current and dropped if it is stale. */
    method FreshTailEntry(run: nat) returns (r: Option<seq<byte>>)
      requires Cached(table, runs, tailCache) && run in runs && run < |table|
      modifies `tailCache
      ensures Cached(table, runs, tailCache)
      ensures r.None? ==> tailCache == WithoutRun(old(tailCache), run) && forall i | 0 <= i < |tailCache| :: tailCache[i].run != run
      ensures r.Some? ==> r.value == Newest(Flatten(table[run].chunks))
                          && tailCache == Used(old(tailCache), TailEntry(run, table[run].contentVersion, r.value))
      ensures r.Some? <==> exists i :: 0 <= i < |old(tailCache)| && old(tailCache)[i].run == run
                                       && old(tailCache)[i].contentVersion == table[run].contentVersion
    {
      hide Newest, Flatten;
      var index := 0;
      while index < |tailCache|
        invariant 0 <= index <= |tailCache| && tailCache == old(tailCache)
        invariant forall i | 0 <= i < index :: tailCache[i].run != run
      {
        var entry := tailCache[index];
        if entry.run == run {
          MoveKeeps(table, runs, tailCache, index);
          WithoutFirst(tailCache, run, index);
          tailCache := tailCache[..index] + tailCache[index + 1..];
          if entry.contentVersion != table[run].contentVersion { return None; }
          tailCache := [entry] + tailCache;
          return Some(entry.tail);
        }
        index := index + 1;
      }
      WithoutFirst(tailCache, run, index);
      return None;
    }

    method RememberTail(run: nat, tail: seq<byte>)
      requires Cached(table, runs, tailCache) && run in runs && run < |table| && tail == Newest(Flatten(table[run].chunks))
      requires forall i | 0 <= i < |tailCache| :: tailCache[i].run != run
      modifies `tailCache
      ensures Cached(table, runs, tailCache)
      ensures tailCache == Used(old(tailCache), TailEntry(run, table[run].contentVersion, tail))
    {
      hide Newest, Flatten;
      WithoutFirst(tailCache, run, |tailCache|);
      tailCache := [TailEntry(run, table[run].contentVersion, tail)] + tailCache;
      if |tailCache| > TAIL_CACHE_CAPACITY {
        tailCache := tailCache[..TAIL_CACHE_CAPACITY];
      }
    }

    /** The whole run, for copy and export; a row that is no longer live has nothing to give. */
    method Materialize(run: nat) returns (m: Option<Materialized>)
      requires Valid() && run < |table|
      ensures m.Some? <==> run in runs
      ensures m.Some? ==> exists k :: 0 <= k < |runs| && runs[k] == run && k < |Rows(source)| && Shows(m.value, Rows(source)[k])
    {
      hide Rows, Cached, Counted;
      if run !in runs {
        return None;
      }
      LiveHolds(table, runs, source, run);
      var r := table[run];
      var data := JoinChunks(r.chunks, r.totalBytes);
      return Some(Materialized(r.id, r.direction, r.timestamp, data, r.contentVersion));
    }

    /** The memoized line count of a row, computed anew only when the row has grown since. */
    method LineCountFor(run: nat) returns (count: nat)
      requires Valid() && run < |table|
      modifies `lineCounts
      ensures Valid()
      ensures |runs| == |Rows(source)| && forall k | 0 <= k < |runs| && runs[k] == run :: count == compute(Rows(source)[k].data)
      ensures lineCounts == old(lineCounts)[run := LineCount(table[run].contentVersion, count)]
      ensures run in old(lineCounts) && old(lineCounts)[run].contentVersion == table[run].contentVersion ==> lineCounts == old(lineCounts)
    {
      hide LiveRuns, Cached, Rows;
      RowBytes(table, runs, source);
      LiveIndices(table, runs, source);
      if run in lineCounts && lineCounts[run].contentVersion == table[run].contentVersion {
        assert lineCounts == lineCounts[run := lineCounts[run]];
        return lineCounts[run].count;
      }
      count := compute(Flatten(table[run].chunks));
      lineCounts := lineCounts[run := LineCount(table[run].contentVersion, count)];
    }
  }

  /** Copies all chunks in order into one buffer. */
  method JoinChunks(chunks: seq<seq<byte>>, totalBytes: nat) returns (all: seq<byte>)
    requires totalBytes == |Flatten(chunks)|
    ensures all == Flatten(chunks)
  {
    hide Flatten;
    var data := new byte[totalBytes];
    var offset: nat := 0;
    NoChunks(chunks);
    for i := 0 to |chunks|
      invariant offset + |Flatten(chunks[i..])| == data.Length
      invariant data[..offset] + Flatten(chunks[i..]) == Flatten(chunks)
    {
      var chunk := chunks[i];
      NextChunk(chunks, i);
      SetNext(data, offset, chunk);
      offset := offset + |chunk|;
    }
    assert data[..offset] == data[..];
    return data[..];
  }

  lemma NextChunk(chunks: seq<seq<byte>>, i: nat)
    requires i < |chunks|
    ensures Flatten(chunks[i..]) == chunks[i] + Flatten(chunks[i + 1..])
  {
    assert chunks[i..][1..] == chunks[i + 1..];
  }

  /** Copies the last bytes of the chunks, newest chunk first, into one buffer. */
  method CopyTail(chunks: seq<seq<byte>>, totalBytes: nat) returns (tail: seq<byte>)
    requires totalBytes == |Flatten(chunks)|
    ensures tail == Newest(Flatten(chunks))
  {
    hide Flatten, Last, Newest, HoldsLast;
    var buffer := new byte[Min(totalBytes, MAX_MERGED_VISIBLE_BYTES)];
    var destinationEnd := buffer.Length;
    var index := |chunks| - 1;
    NothingCopied(chunks, buffer[buffer.Length..]);
    while index >= 0 && destinationEnd > 0
      invariant -1 <= index < |chunks| && 0 <= destinationEnd <= buffer.Length
      invariant HoldsLast(chunks, index + 1, destinationEnd, buffer[destinationEnd..])
    {
      destinationEnd := CopyChunk(chunks, index, buffer, destinationEnd);
      index := index - 1;
    }
    AllCopied(chunks, index + 1, destinationEnd, buffer[destinationEnd..]);
    assert buffer[0..] == buffer[..];
    return buffer[..];
  }

  /** The bytes copied so far are the last ones; with room left, they are all those of the chunks from `next` on. */
  predicate HoldsLast(chunks: seq<seq<byte>>, next: nat, room: nat, copied: seq<byte>) {
    && next <= |chunks| && copied == Last(Flatten(chunks), |copied|)
    && (room > 0 ==> |copied| == |Flatten(chunks[next..])|)
  }

  lemma NothingCopied(chunks: seq<seq<byte>>, copied: seq<byte>)
    requires copied == []
    ensures forall room: nat :: HoldsLast(chunks, |chunks|, room, copied)
  {
    assert chunks[|chunks|..] == [];
  }

  lemma AllCopied(chunks: seq<seq<byte>>, next: nat, room: nat, copied: seq<byte>)
    requires HoldsLast(chunks, next, room, copied) && (next == 0 || room == 0)
    requires |copied| + room == Min(|Flatten(chunks)|, MAX_MERGED_VISIBLE_BYTES)
    ensures room == 0 && copied == Newest(Flatten(chunks))
  {
    assert chunks[0..] == chunks;
    LastIsNewest(Flatten(chunks));
  }

  method CopyChunk(chunks: seq<seq<byte>>, index: nat, buffer: array<byte>, end: nat) returns (start: nat)
    requires index < |chunks| && 0 < end <= buffer.Length && HoldsLast(chunks, index + 1, end, buffer[end..])
    modifies buffer
    ensures start <= end && HoldsLast(chunks, index, start, buffer[start..])
  {
    hide Flatten, Last;
    var chunk := chunks[index];
    var copyLength := Min(end, |chunk|);
    LastOfChunks(chunks, index, buffer.Length - end, copyLength);
    SetBefore(buffer, end, chunk, copyLength);
    start := end - copyLength;
  }

  lemma LastIsNewest(data: seq<byte>)
    ensures Last(data, 0) == [] && Last(data, Min(|data|, MAX_MERGED_VISIBLE_BYTES)) == Newest(data)
  {
  }

  /** Writes `part` behind the first `at` bytes. */
  method SetNext(buffer: array<byte>, at: nat, part: seq<byte>)
    requires at + |part| <= buffer.Length
    modifies buffer
    ensures buffer[..at + |part|] == old(buffer[..at]) + part
  {
    forall j | 0 <= j < |part| { buffer[at + j] := part[j]; }
  }

  /** Writes the last `n` bytes of a chunk in front of what starts at `end`. */
  method SetBefore(buffer: array<byte>, end: nat, chunk: seq<byte>, n: nat)
    requires n <= end <= buffer.Length && n <= |chunk|
    modifies buffer
    ensures buffer[end - n..] == chunk[|chunk| - n..] + old(buffer[end..])
  {
    forall j | 0 <= j < n { buffer[end - n + j] := chunk[|chunk| - n + j]; }
  }

  lemma NoChunks(chunks: seq<seq<byte>>)
    ensures Flatten(chunks[|chunks|..]) == [] && Flatten(chunks[0..]) == Flatten(chunks)
  {
    assert chunks[0..] == chunks;
  }

  function Last(data: seq<byte>, n: nat): seq<byte> {
    data[Max(0, |data| - n)..]
  }

  lemma LastOfChunks(chunks: seq<seq<byte>>, index: nat, copied: nat, more: nat)
    requires index < |chunks| && copied == |Flatten(chunks[index + 1..])| && more <= |chunks[index]|
    ensures Last(Flatten(chunks), copied + more) == chunks[index][|chunks[index]| - more..] + Last(Flatten(chunks), copied)
    ensures |Flatten(chunks[index..])| == copied + |chunks[index]|
  {
    hide Last;
    var a, b, c := Flatten(chunks[..index]), chunks[index], Flatten(chunks[index + 1..]);
    assert chunks[index..][1..] == chunks[index + 1..];
    assert Flatten(chunks[index..]) == b + c;
    assert chunks == chunks[..index] + chunks[index..];
    FlattenAppend(chunks[..index], chunks[index..]);
    LastOfThree(a, b, c, more);
  }

  lemma LastOfThree(a: seq<byte>, b: seq<byte>, c: seq<byte>, more: nat)
    requires more <= |b|
    ensures Last(a + (b + c), |c| + more) == b[|b| - more..] + Last(a + (b + c), |c|)
  {
  }

  // ----- what a step keeps

  lemma LiveHolds(table: seq<Run>, live: seq<nat>, source: seq<DataFrame>, run: nat)
    requires LiveRuns(table, live, source) && run in live
    ensures run < |table| && !table[run].detached && table[run].totalBytes == |Flatten(table[run].chunks)|
    ensures exists k :: 0 <= k < |live| && live[k] == run && k < |Rows(source)| && RunHolds(table[run], Rows(source)[k])
  {
    hide Rows;
    var k :| 0 <= k < |live| && live[k] == run;
    assert RunHolds(table[live[k]], Rows(source)[k]);
  }

  lemma RowBytes(table: seq<Run>, live: seq<nat>, source: seq<DataFrame>)
    requires LiveRuns(table, live, source)
    ensures |live| == |Rows(source)|
    ensures forall k | 0 <= k < |live| ::
              && live[k] < |table| && table[live[k]].totalBytes == |Rows(source)[k].data|
              && Flatten(table[live[k]].chunks) == Rows(source)[k].data
  {
    hide Rows, Flatten;
    forall k | 0 <= k < |live| ensures live[k] < |table| && RunHolds(table[live[k]], Rows(source)[k]) {
    }
  }

  lemma DetachedIsEmpty(table: seq<Run>, live: seq<nat>, source: seq<DataFrame>, run: nat)
    requires LiveRuns(table, live, source) && run < |table| && run !in live
    ensures table[run].detached
  {
    hide Rows;
  }

  lemma RowsAppend(source: seq<DataFrame>, f: DataFrame)
    ensures Rows(source + [f]) == Merge(Rows(source), f)
  {
    assert (source + [f])[..|source|] == source;
  }

  function Grown(run: Run, f: DataFrame): Run {
    run.(chunks := run.chunks + [f.data], totalBytes := run.totalBytes + |f.data|, contentVersion := run.contentVersion + 1)
  }

  /** Appending a chunk to the last run is appending the frame to the last row. */
  lemma GrowKeeps(table: seq<Run>, live: seq<nat>, source: seq<DataFrame>, f: DataFrame)
    requires LiveRuns(table, live, source) && live != [] && live[|live| - 1] < |table|
    requires table[live[|live| - 1]].direction == f.direction
    ensures LiveRuns(table[live[|live| - 1] := Grown(table[live[|live| - 1]], f)], live, source + [f])
  {
    hide Rows, Flatten;
    RowsAppend(source, f);
    var n := |live| - 1;
    GrownHolds(table[live[n]], Rows(source)[n], f);
    hide RunHolds;
    forall k | 0 <= k < n ensures live[k] < |table| && live[k] != live[n] && RunHolds(table[live[k]], Rows(source)[k]) {
    }
  }

  lemma GrownHolds(run: Run, row: Row, f: DataFrame)
    requires RunHolds(run, row)
    ensures RunHolds(Grown(run, f), row.(data := row.data + f.data))
  {
    FlattenAppend(run.chunks, [f.data]);
    assert Flatten([f.data]) == f.data;
  }

  lemma NewRunKeeps(table: seq<Run>, live: seq<nat>, source: seq<DataFrame>, f: DataFrame)
    requires LiveRuns(table, live, source)
    requires live == [] || table[live[|live| - 1]].direction != f.direction
    ensures LiveRuns(table + [Run("merged-" + f.id, f.direction, f.timestamp, [f.data], |f.data|, 1, false)], live + [|table|], source + [f])
  {
    hide Rows;
    RowsAppend(source, f);
    if live != [] {
      assert RunHolds(table[live[|live| - 1]], Rows(source)[|live| - 1]);
    }
    assert Flatten([f.data]) == f.data;
  }

  /** The entry just used is in front, and the least recently used one goes when there are too many. */
  function Used(cache: seq<TailEntry>, entry: TailEntry): seq<TailEntry> {
    var all := [entry] + WithoutRun(cache, entry.run);
    all[..Min(|all|, TAIL_CACHE_CAPACITY)]
  }

  /** Eight entries at most: the one just used, and behind it the others. */
  lemma UsedMeans(cache: seq<TailEntry>, entry: TailEntry)
    requires forall i, j | 0 <= i < j < |cache| :: cache[i].run != cache[j].run
    ensures var after := Used(cache, entry);
            && 1 <= |after| <= 8 && after[0] == entry
            && (forall k | 1 <= k < |after| :: after[k] in cache && after[k].run != entry.run)
            && (|after| < 8 ==> forall e | e in cache && e.run != entry.run :: e in after)
  {
    WithoutRunFilters(cache, entry.run);
    WithoutRunKeeps(cache, entry.run);
    var w := WithoutRun(cache, entry.run);
    var all := [entry] + w;
    forall k | 1 <= k < |Used(cache, entry)| ensures Used(cache, entry)[k] in cache && Used(cache, entry)[k].run != entry.run {
      assert all[k] == w[k - 1] && w[k - 1] in w;
    }
    if |Used(cache, entry)| < 8 {
      assert Used(cache, entry) == all && all[1..] == w;
      forall e | e in w ensures e in all {
        var i :| 0 <= i < |w| && w[i] == e;
        assert all[i + 1] == e;
      }
    }
  }

  lemma {:induction false} WithoutRunKeeps(cache: seq<TailEntry>, run: nat)
    ensures forall e | e in cache && e.run != run :: e in WithoutRun(cache, run)
  {
    if cache != [] {
      WithoutRunKeeps(cache[1..], run);
      assert cache == [cache[0]] + cache[1..];
    }
  }

  lemma WithoutTwice(cache: seq<TailEntry>, run: nat)
    requires forall i, j | 0 <= i < j < |cache| :: cache[i].run != cache[j].run
    ensures WithoutRun(WithoutRun(cache, run), run) == WithoutRun(cache, run)
  {
    WithoutRunFilters(cache, run);
    var w := WithoutRun(cache, run);
    forall i | 0 <= i < |w| ensures w[i].run != run {
      assert w[i] in w;
    }
    WithoutFirst(w, run, |w|);
  }

  function WithoutRun(cache: seq<TailEntry>, run: nat): seq<TailEntry> {
    if cache == [] then []
    else if cache[0].run == run then cache[1..]
    else [cache[0]] + WithoutRun(cache[1..], run)
  }

  lemma Rejoined(cache: seq<TailEntry>, index: nat)
    requires 0 < index <= |cache|
    ensures [cache[0]] + cache[1..] == cache
    ensures index < |cache| ==> [cache[0]] + (cache[1..][..index - 1] + cache[1..][index..]) == cache[..index] + cache[index + 1..]
  {
  }

  lemma {:induction false} WithoutFirst(cache: seq<TailEntry>, run: nat, index: nat)
    requires index <= |cache| && forall i | 0 <= i < index :: cache[i].run != run
    requires index < |cache| ==> cache[index].run == run
    ensures WithoutRun(cache, run) == if index < |cache| then cache[..index] + cache[index + 1..] else cache
  {
    if index > 0 {
      var rest := cache[1..];
      WithoutFirst(rest, run, index - 1);
      assert WithoutRun(cache, run) == [cache[0]] + WithoutRun(rest, run);
      Rejoined(cache, index);
    }
  }

  lemma {:induction false} WithoutRunFilters(cache: seq<TailEntry>, run: nat)
    requires forall i, j | 0 <= i < j < |cache| :: cache[i].run != cache[j].run
    ensures var w := WithoutRun(cache, run);
            && |w| <= |cache| && (forall e | e in w :: e in cache && e.run != run)
            && forall i, j | 0 <= i < j < |w| :: w[i].run != w[j].run
  {
    if cache != [] && cache[0].run != run {
      WithoutRunFilters(cache[1..], run);
      forall e | e in WithoutRun(cache[1..], run) ensures e.run != cache[0].run {
        var j :| 0 < j < |cache| && cache[j] == e;
      }
    }
  }

  /** A grown run has no cached tail any more; all other tails stay good. */
  lemma DropKeeps(table: seq<Run>, live: seq<nat>, cache: seq<TailEntry>, last: nat, grown: Run)
    requires Cached(table, live, cache) && last < |table| && grown.contentVersion >= table[last].contentVersion
    ensures Cached(table[last := grown], live, WithoutRun(cache, last))
  {
    hide Newest;
    WithoutRunFilters(cache, last);
    var w := WithoutRun(cache, last);
    forall i | 0 <= i < |w| ensures w[i] in cache && w[i].run != last {
      assert w[i] in w;
    }
  }

  lemma CountsKeep(table: seq<Run>, counts: map<nat, LineCount>, compute: seq<byte> -> nat, last: nat, grown: Run)
    requires Counted(table, counts, compute) && last < |table| && grown.contentVersion > table[last].contentVersion
    ensures Counted(table[last := grown], counts, compute)
  {
  }

  lemma AddKeeps(table: seq<Run>, live: seq<nat>, cache: seq<TailEntry>, counts: map<nat, LineCount>, compute: seq<byte> -> nat, run: Run)
    requires Cached(table, live, cache) && Counted(table, counts, compute)
    ensures Cached(table + [run], live + [|table|], cache) && Counted(table + [run], counts, compute)
  {
    hide Newest, Flatten;
  }

  lemma NothingShown(compute: seq<byte> -> nat)
    ensures LiveRuns([], [], []) && Cached([], [], []) && Counted([], map[], compute)
  {
    hide Flatten, Newest;
    NoRows();
  }

  lemma ClearKeeps(before: seq<Run>, table: seq<Run>, counts: map<nat, LineCount>, compute: seq<byte> -> nat)
    requires Counted(before, counts, compute) && |table| == |before|
    requires forall r | 0 <= r < |table| :: Gone(table[r]) && table[r].contentVersion == before[r].contentVersion
    ensures LiveRuns(table, [], []) && Cached(table, [], []) && Counted(table, counts, compute)
  {
    NoRows();
  }

  lemma LiveIndices(table: seq<Run>, live: seq<nat>, source: seq<DataFrame>)
    requires LiveRuns(table, live, source)
    ensures forall k | 0 <= k < |live| :: live[k] < |table| && !table[live[k]].detached
    ensures forall r | 0 <= r < |table| && r !in live :: Gone(table[r])
  {
    hide Rows;
    forall k | 0 <= k < |live| ensures live[k] < |table| && !table[live[k]].detached {
      assert RunHolds(table[live[k]], Rows(source)[k]);
    }
  }

  lemma MoveKeeps(table: seq<Run>, live: seq<nat>, cache: seq<TailEntry>, index: nat)
    requires Cached(table, live, cache) && index < |cache|
    ensures var w := cache[..index] + cache[index + 1..];
            && Cached(table, live, w) && Cached(table, live, [cache[index]] + w)
            && forall i | 0 <= i < |w| :: w[i].run != cache[index].run
  {
    hide Newest;
  }
}
