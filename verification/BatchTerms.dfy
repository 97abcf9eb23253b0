/** Which batches are accepted at all, before any of their mutations is tried. */
module BatchTerms {
  import opened Bytes
  import opened Wrappers
  import opened WorkspaceTables
  import opened WorkspaceStore
  import T = TableEffects
  import W = Waveform

  /** All frames a batch carries, appended or as a whole capture. */
  function FramesIn(steps: seq<Step>): seq<Frame> {
    if steps == [] then []
    else FramesIn(steps[..|steps| - 1]) + FramesOf(steps[|steps| - 1].mutation)
  }

  function FramesOf(m: Mutation): seq<Frame> {
    match m
    case AppendFrames(_, _, frames) => frames
    case ReplaceCapture(_, frames) => frames
    case _ => []
  }

  /** The serialized sizes of everything else. */
  function OthersIn(steps: seq<Step>): seq<nat> {
    if steps == [] then []
    else
      var last := steps[|steps| - 1];
      OthersIn(steps[..|steps| - 1]) + if last.mutation.AppendFrames? || last.mutation.ReplaceCapture? then [] else [last.jsonBytes]
  }

  function Total(sizes: seq<nat>): nat {
    if sizes == [] then 0 else Total(sizes[..|sizes| - 1]) + sizes[|sizes| - 1]
  }

  function Data(frames: seq<Frame>): seq<seq<byte>> {
    seq(|frames|, i requires 0 <= i < |frames| => frames[i].data)
  }

  lemma {:induction false} DataBytesAre(frames: seq<Frame>)
    ensures DataBytes(frames) == |Flatten(Data(frames))|
  {
    if frames != [] {
      DataBytesAre(frames[1..]);
      assert Data(frames)[1..] == Data(frames[1..]);
    }
  }

  lemma {:induction false} SizeIs(steps: seq<Step>)
    ensures LogicalSize(steps) == Size(|FramesIn(steps)|, |Flatten(Data(FramesIn(steps)))|, Total(OthersIn(steps)))
  {
    hide Data, Flatten, FramesIn, DataBytes;
    NoFrames();
    if steps != [] {
      var most, m := steps[..|steps| - 1], steps[|steps| - 1].mutation;
      SizeIs(most);
      FramesStep(steps);
      if !m.AppendFrames? && !m.ReplaceCapture? {
        OneMore(OthersIn(most), steps[|steps| - 1].jsonBytes);
      } else {
        assert OthersIn(most) + [] == OthersIn(most);
      }
    }
  }

  lemma NoFrames()
    ensures FramesIn([]) == [] && |Flatten(Data([]))| == 0 && DataBytes([]) == 0
  {
  }

  lemma FramesStep(steps: seq<Step>)
    requires steps != []
    ensures var before, more := FramesIn(steps[..|steps| - 1]), FramesOf(steps[|steps| - 1].mutation);
            && |FramesIn(steps)| == |before| + |more|
            && |Flatten(Data(FramesIn(steps)))| == |Flatten(Data(before))| + DataBytes(more)
  {
    hide Flatten, Data, DataBytes, FramesOf;
    MoreFrames(FramesIn(steps[..|steps| - 1]), FramesOf(steps[|steps| - 1].mutation));
  }

  lemma MoreFrames(before: seq<Frame>, more: seq<Frame>)
    ensures |Flatten(Data(before + more))| == |Flatten(Data(before))| + DataBytes(more)
  {
    hide Flatten, DataBytes;
    assert Data(before + more) == Data(before) + Data(more);
    FlattenAppend(Data(before), Data(more));
    DataBytesAre(more);
  }

  lemma OneMore(sizes: seq<nat>, size: nat)
    ensures Total(sizes + [size]) == Total(sizes) + size
  {
    assert (sizes + [size])[..|sizes|] == sizes;
  }

  /** The budget: 256 frames and 512 KiB, or one frame of up to 2 MiB alone. */
  lemma BudgetMeans(steps: seq<Step>)
    ensures var frames := FramesIn(steps);
            var frameBytes, otherBytes := |Flatten(Data(frames))|, Total(OthersIn(steps));
            FitsBudget(steps) <==>
              && |frames| <= 256
              && (frameBytes + otherBytes <= 512 * 1024
                  || (|steps| == 1 && |frames| == 1 && otherBytes == 0 && frameBytes <= 2 * 1024 * 1024))
  {
    SizeIs(steps);
  }

  /** What a mutation may carry. */
  predicate FairPayload(m: Mutation) {
    match m
    case AppendFrames(_, _, frames) => forall f | f in frames :: |f.data| <= 2 * 1024 * 1024
    case ReplaceCapture(_, frames) => forall f | f in frames :: |f.data| <= 2 * 1024 * 1024
    case AppendAiMessages(_, _, messages) =>
      && |messages| > 0 && (forall x | x in messages :: T.GoodName(x.id) && |x.content| <= 256 * 1024)
      && forall i, j | 0 <= i < j < |messages| :: messages[i].id != messages[j].id
    case ReplaceWaveformChannels(_, channels) =>
      && |channels| <= 8 && (forall c | c in channels :: c.index <= 7)
      && forall i, j | 0 <= i < j < |channels| :: channels[i].index != channels[j].index
    case AppendWaveformSamples(_, samples) => T.Readable(samples)
    case UpsertFeatureState(_, feature, state) => feature == Plugin ==> |state| <= 16 * 1024 * 1024
    case _ => true
  }

  lemma PayloadMeans(m: Mutation)
    ensures ValidPayload(m) <==> FairPayload(m)
  {
    hide T.GoodName, ValidIdentifier;
    match m
    case AppendAiMessages(_, _, messages) =>
      forall x | x in messages ensures T.GoodName(x.id) <==> ValidIdentifier(x.id) {
        T.GoodNames(x.id);
      }
    case AppendWaveformSamples(_, samples) => T.ReadableIsValid(samples);
    case _ =>
  }

  /** A batch is acceptable exactly if its names are good, its steps are numbered without gaps, and all of it fits. */
  lemma AcceptableMeans(request: Request)
    ensures Acceptable(request) <==>
              && T.GoodName(request.workspaceId) && T.GoodName(request.clientBatchId) && 1 <= |request.steps| <= 256
              && (forall i, j | 0 <= i < |request.steps| && 0 <= j < |request.steps| && j == i + 1 ::
                    request.steps[j].sequence == request.steps[i].sequence + 1)
              && (forall s | s in request.steps :: FairPayload(s.mutation))
              && FitsBudget(request.steps)
  {
    hide T.GoodName, ValidIdentifier, FitsBudget, FairPayload, ValidPayload;
    T.GoodNames(request.workspaceId);
    T.GoodNames(request.clientBatchId);
    forall s | s in request.steps ensures FairPayload(s.mutation) <==> ValidPayload(s.mutation) {
      PayloadMeans(s.mutation);
    }
    var steps := request.steps;
    if forall i, j | 0 <= i < |steps| && 0 <= j < |steps| && j == i + 1 :: steps[j].sequence == steps[i].sequence + 1 {
      forall i | 0 < i < |steps| ensures steps[i].sequence == steps[i - 1].sequence + 1 {
        var before := i - 1;
        assert steps[before] == steps[i - 1];
      }
    }
  }
}
