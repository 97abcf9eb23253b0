/** The retained capture of a session in memory: appending, resuming and trimming, always from the oldest end. */
module SessionFrames {
  import opened Bytes
  import opened WorkspaceTables
  import opened Wrappers

  const SESSION_FRAME_TRIM_THRESHOLD: nat := 500
  const MAX_SESSION_FRAME_BYTES: nat := 64 * 1024 * 1024

  datatype Direction = TX | RX

  /** A capture time; anything that is not a finite number counts as zero when ages are compared. */
  datatype Clock = At(ms: int) | NotFinite

  datatype DataFrame = DataFrame(id: string, direction: Direction, timestamp: Clock, data: seq<byte>)

  datatype Limits = Limits(trimThreshold: Option<nat>, maxBytes: Option<nat>, currentBytes: Option<nat>)

  datatype TrimResult = TrimResult(retainedBytes: int, droppedBytes: nat, droppedFrames: nat)

  function OrElse(limit: Option<nat>, default: nat): nat {
    if limit.Some? then limit.value else default
  }

  function BytesOf(frames: seq<DataFrame>): nat {
    if frames == [] then 0 else |frames[0].data| + BytesOf(frames[1..])
  }

  lemma {:induction false} BytesOfConcat(a: seq<DataFrame>, b: seq<DataFrame>)
    ensures BytesOf(a + b) == BytesOf(a) + BytesOf(b)
  {
    if a == [] {
      assert a + b == b;
    } else {
      assert (a + b)[1..] == a[1..] + b;
      BytesOfConcat(a[1..], b);
    }
  }

  lemma BytesOfParts(all: seq<DataFrame>, k: nat)
    requires k <= |all|
    ensures BytesOf(all) == BytesOf(all[..k]) + BytesOf(all[k..])
  {
    assert all == all[..k] + all[k..];
    BytesOfConcat(all[..k], all[k..]);
  }

  lemma BytesOfNext(frames: seq<DataFrame>, k: nat)
    requires k < |frames|
    ensures BytesOf(frames[..k + 1]) == BytesOf(frames[..k]) + |frames[k].data|
  {
    assert frames[..k + 1] == frames[..k] + [frames[k]];
    BytesOfConcat(frames[..k], [frames[k]]);
    assert BytesOf([frames[k]]) == |frames[k].data| + BytesOf([]);
  }

  /** What is gone is the front, counted in frames and bytes. */
  predicate FrontGone(all: seq<DataFrame>, now: seq<DataFrame>, r: TrimResult) {
    r.droppedFrames <= |all| && now == all[r.droppedFrames..] && r.droppedBytes == BytesOf(all[..r.droppedFrames])
  }

  /** How many frames the frame-count limit takes off the front. */
  function CountCut(length: nat, maxFrames: nat, trimThreshold: nat): (cut: nat)
    ensures cut <= length
    // Up to the threshold more than wanted are tolerated; then exactly what is wanted is kept.
    ensures cut > 0 <==> length > maxFrames + trimThreshold
    ensures cut > 0 ==> length - cut == maxFrames
  {
    if length > maxFrames + trimThreshold then length - maxFrames else 0
  }

  /** Dropping `k` frames is the least, from `cut` on, that brings `bytes` down to the cap, or all there are. */
  predicate LeastCut(all: seq<DataFrame>, cut: nat, k: nat, bytes: int, maxBytes: nat) {
    && cut <= k <= |all|
    && (k > cut ==> bytes - BytesOf(all[..k - 1]) > maxBytes)
    && (bytes - BytesOf(all[..k]) <= maxBytes || k == |all|)
  }

  /** Any cut that meets the cap drops at least as much; so the least one is unique. */
  lemma LeastCutIsLeast(all: seq<DataFrame>, cut: nat, k: nat, j: nat, bytes: int, maxBytes: nat)
    requires LeastCut(all, cut, k, bytes, maxBytes) && cut <= j <= |all|
    requires bytes - BytesOf(all[..j]) <= maxBytes || j == |all|
    ensures k <= j
  {
    if j < k {
      assert all[..k - 1] == all[..j] + all[j..k - 1];
      BytesOfConcat(all[..j], all[j..k - 1]);
      assert false;
    }
  }

  /** With an exact byte count, the cap is met, and what is left is counted exactly. */
  lemma CapMet(all: seq<DataFrame>, cut: nat, k: nat, maxBytes: nat)
    requires LeastCut(all, cut, k, BytesOf(all), maxBytes)
    ensures BytesOf(all) - BytesOf(all[..k]) == BytesOf(all[k..]) <= maxBytes
  {
    BytesOfParts(all, k);
    if k == |all| { assert all[k..] == []; }
  }

  // ----- what a session retains, as a value

  /**
   * Everything retained in capture order; the last `held` frames are held back while capture is paused.  Whether any
   * traffic counter is above zero decides with the frames if there is something to clear.
   */
  datatype Capture = Capture(all: seq<DataFrame>, held: nat, paused: bool, counted: bool)

  const NOTHING_RETAINED := Capture([], 0, false, false)

  type Retained = c: Capture | c.held <= |c.all| && (c.paused || c.held == 0) witness NOTHING_RETAINED

  function Without(r: Retained, k: nat): Retained
    requires k <= |r.all|
  {
    r.(all := r.all[k..], held := Min(r.held, |r.all| - k))
  }

  /** The least cut. */
  function Least(all: seq<DataFrame>, cut: nat, bytes: int, maxBytes: nat): (k: nat)
    requires cut <= |all|
    ensures k <= |all|
    decreases |all| - cut
  {
    if cut == |all| || bytes - BytesOf(all[..cut]) <= maxBytes then cut else Least(all, cut + 1, bytes, maxBytes)
  }

  lemma {:induction false} LeastIsCut(all: seq<DataFrame>, cut: nat, bytes: int, maxBytes: nat)
    requires cut <= |all|
    ensures LeastCut(all, cut, Least(all, cut, bytes, maxBytes), bytes, maxBytes)
    decreases |all| - cut
  {
    hide BytesOf;
    if cut < |all| && bytes - BytesOf(all[..cut]) > maxBytes {
      LeastIsCut(all, cut + 1, bytes, maxBytes);
    }
  }

  lemma OnlyLeast(all: seq<DataFrame>, cut: nat, k: nat, bytes: int, maxBytes: nat)
    requires cut <= |all| && LeastCut(all, cut, k, bytes, maxBytes)
    ensures k == Least(all, cut, bytes, maxBytes)
  {
    hide BytesOf, Least;
    var least := Least(all, cut, bytes, maxBytes);
    LeastIsCut(all, cut, bytes, maxBytes);
    LeastCutIsLeast(all, cut, k, least, bytes, maxBytes);
    LeastCutIsLeast(all, cut, least, k, bytes, maxBytes);
  }

  /** The front trimmed to a number of frames and to the byte cap. */
  function Trimmed(r: Retained, length: nat, maxFrames: nat): Retained
    requires length <= |r.all|
  {
    Without(r, Least(r.all, CountCut(length, maxFrames, SESSION_FRAME_TRIM_THRESHOLD), BytesOf(r.all), MAX_SESSION_FRAME_BYTES))
  }

  /** After a frame has arrived: while paused the held-back frames are counted, else the live ones. */
  function Arrived(r: Retained, frame: DataFrame, maxFrames: nat): Retained {
    var pushed := Capture(r.all + [frame], if r.paused then r.held + 1 else 0, r.paused, true);
    Trimmed(pushed, if r.paused then pushed.held else |pushed.all|, maxFrames)
  }

  /** After pausing or resuming; only resuming with frames held back trims. */
  function Switched(r: Retained, paused: bool, maxFrames: nat): Retained {
    if paused == r.paused then r
    else if paused || r.held == 0 then r.(paused := paused)
    else Trimmed(r.(held := 0, paused := false), |r.all|, maxFrames)
  }

  lemma ArrivedMeans(r: Retained, frame: DataFrame, maxFrames: nat)
    ensures var now := Arrived(r, frame, maxFrames);
            && now.paused == r.paused && now.counted
            && |now.all| <= |r.all| + 1 && now.all == (r.all + [frame])[|r.all| + 1 - |now.all|..]
  {
    hide BytesOf, Least, CountCut;
  }

  lemma SwitchedMeans(r: Retained, paused: bool, maxFrames: nat)
    ensures var now := Switched(r, paused, maxFrames);
            && now.paused == paused && now.counted == r.counted && (!paused ==> now.held == 0)
            && |now.all| <= |r.all| && now.all == r.all[|r.all| - |now.all|..]
            && (paused || r.held == 0 ==> now.all == r.all && now.held == r.held)
  {
    hide BytesOf, Least, CountCut;
  }

  /** What an append with exact byte count and the session's own limits amounts to. */
  lemma ArrivedBy(r: Retained, frame: DataFrame, maxFrames: nat, dropped: nat, now: Capture)
    requires dropped <= |r.all| + 1 && now == Capture((r.all + [frame])[dropped..], now.held, r.paused, true)
    requires now.held == Min(r.held + (if r.paused then 1 else 0), |now.all|)
    requires LeastCut(r.all + [frame], CountCut(1 + if r.paused then r.held else |r.all|, maxFrames, SESSION_FRAME_TRIM_THRESHOLD),
                      dropped, BytesOf(r.all) + |frame.data|, MAX_SESSION_FRAME_BYTES)
    ensures now == Arrived(r, frame, maxFrames)
  {
    hide BytesOf, LeastCut, Least;
    BytesOfConcat(r.all, [frame]);
    OneFrame(frame);
    OnlyLeast(r.all + [frame], CountCut(1 + if r.paused then r.held else |r.all|, maxFrames, SESSION_FRAME_TRIM_THRESHOLD),
              dropped, BytesOf(r.all) + |frame.data|, MAX_SESSION_FRAME_BYTES);
  }

  /** What resuming with frames held back amounts to. */
  lemma SwitchedBy(r: Retained, maxFrames: nat, dropped: nat, now: Capture)
    requires r.paused && r.held > 0 && dropped <= |r.all| && now == Capture(r.all[dropped..], 0, false, r.counted)
    requires LeastCut(r.all, CountCut(|r.all|, maxFrames, SESSION_FRAME_TRIM_THRESHOLD), dropped, BytesOf(r.all), MAX_SESSION_FRAME_BYTES)
    ensures now == Switched(r, false, maxFrames)
  {
    hide BytesOf, LeastCut, Least;
    OnlyLeast(r.all, CountCut(|r.all|, maxFrames, SESSION_FRAME_TRIM_THRESHOLD), dropped, BytesOf(r.all), MAX_SESSION_FRAME_BYTES);
  }

  /** Trimming a session meets its byte cap. */
  lemma TrimmedFits(r: Retained, length: nat, maxFrames: nat)
    requires length <= |r.all|
    ensures BytesOf(Trimmed(r, length, maxFrames).all) <= MAX_SESSION_FRAME_BYTES
  {
    hide BytesOf, Least;
    var cut := CountCut(length, maxFrames, SESSION_FRAME_TRIM_THRESHOLD);
    LeastIsCut(r.all, cut, BytesOf(r.all), MAX_SESSION_FRAME_BYTES);
    CapMet(r.all, cut, Least(r.all, cut, BytesOf(r.all), MAX_SESSION_FRAME_BYTES), MAX_SESSION_FRAME_BYTES);
  }

  class SerialSession {
    const id: string
    var frames: seq<DataFrame>
    var pausedFrames: seq<DataFrame>
    var capturePaused: bool
    var txBytes: nat
    var rxBytes: nat
    var txFrames: nat
    var rxFrames: nat

    /** Everything retained, in capture order. */
    function All(): seq<DataFrame>
      reads `frames, `pausedFrames
    {
      frames + pausedFrames
    }

    /** Frames are held back only while capture is paused. */
    predicate Ordered()
      reads `pausedFrames, `capturePaused
    {
      capturePaused || pausedFrames == []
    }

    /** What is retained, as a value. */
    function Now(): Capture
      reads this
    {
      Capture(All(), |pausedFrames|, capturePaused, txBytes > 0 || rxBytes > 0 || txFrames > 0 || rxFrames > 0)
    }

    /** Clearing would reset frames or counters. */
    predicate HasClearableCapture()
      reads this
      ensures HasClearableCapture() <==> Now().all != [] || Now().counted
    {
      |frames| > 0 || |pausedFrames| > 0 || txBytes > 0 || rxBytes > 0 || txFrames > 0 || rxFrames > 0
    }

    constructor (id: string)
      ensures Ordered() && All() == [] && this.id == id
    {
      this.id := id;
      frames, pausedFrames, capturePaused := [], [], false;
      txBytes, rxBytes, txFrames, rxFrames := 0, 0, 0, 0;
    }

    method FrameBuffersByteLength() returns (total: nat)
      ensures total == BytesOf(All())
    {
      total := 0;
      for i := 0 to |frames|
        invariant total == BytesOf(frames[..i])
      {
        BytesOfNext(frames, i);
        total := total + |frames[i].data|;
      }
      assert frames[..|frames|] == frames;
      for i := 0 to |pausedFrames|
        invariant total == BytesOf(frames) + BytesOf(pausedFrames[..i])
      {
        BytesOfNext(pausedFrames, i);
        total := total + |pausedFrames[i].data|;
      }
      assert pausedFrames[..|pausedFrames|] == pausedFrames;
      BytesOfConcat(frames, pausedFrames);
    }

    /** Takes the first frame in capture order: a held-back one only when no live one is left. */
    method ShiftOldest() returns (r: Option<DataFrame>)
      modifies `frames, `pausedFrames
      ensures old(All()) == [] <==> r.None?
      ensures r.None? ==> All() == []
      ensures r.Some? ==> All() == old(All())[1..] && r.value == old(All())[0]
      ensures |pausedFrames| == Min(old(|pausedFrames|), |All()|)
    {
      if |frames| > 0 {
        r := Some(frames[0]);
        frames := frames[1..];
      } else if |pausedFrames| > 0 {
        r := Some(pausedFrames[0]);
        pausedFrames := pausedFrames[1..];
      } else {
        r := None;
      }
    }

    /** Drops a given number of frames. */
    method ShiftCount(count: nat) returns (droppedBytes: nat, droppedFrames: nat)
      requires count <= |All()|
      modifies `frames, `pausedFrames
      ensures droppedFrames == count && All() == old(All())[count..] && droppedBytes == BytesOf(old(All())[..count])
      ensures |pausedFrames| == Min(old(|pausedFrames|), |All()|)
    {
      ghost var all := All();
      droppedBytes, droppedFrames := 0, 0;
      while droppedFrames < count
        invariant droppedFrames <= count && All() == all[droppedFrames..] && droppedBytes == BytesOf(all[..droppedFrames])
        invariant |pausedFrames| == Min(old(|pausedFrames|), |All()|)
      {
        BytesOfNext(all, droppedFrames);
        var dropped := ShiftOldest();
        if dropped.None? { break; }
        droppedBytes, droppedFrames := droppedBytes + |dropped.value.data|, droppedFrames + 1;
      }
    }

    /** Drops frames while more than `maxBytes` are retained. */
    method ShiftBytes(bytes: int, maxBytes: nat) returns (retainedBytes: int, droppedBytes: nat, droppedFrames: nat)
      modifies `frames, `pausedFrames
      ensures LeastCut(old(All()), 0, droppedFrames, bytes, maxBytes) && All() == old(All())[droppedFrames..]
      ensures droppedBytes == BytesOf(old(All())[..droppedFrames]) && retainedBytes == bytes - droppedBytes
      ensures |pausedFrames| == Min(old(|pausedFrames|), |All()|)
    {
      ghost var all := All();
      retainedBytes, droppedBytes, droppedFrames := bytes, 0, 0;
      while retainedBytes > maxBytes
        invariant droppedFrames <= |all| && All() == all[droppedFrames..] && droppedBytes == BytesOf(all[..droppedFrames])
        invariant retainedBytes == bytes - droppedBytes
        invariant droppedFrames > 0 ==> bytes - BytesOf(all[..droppedFrames - 1]) > maxBytes
        invariant |pausedFrames| == Min(old(|pausedFrames|), |All()|)
        decreases |all| - droppedFrames
      {
        if droppedFrames < |all| { BytesOfNext(all, droppedFrames); }
        var dropped := ShiftOldest();
        if dropped.None? { break; }
        retainedBytes := retainedBytes - |dropped.value.data|;
        droppedBytes, droppedFrames := droppedBytes + |dropped.value.data|, droppedFrames + 1;
      }
    }

    /** Appends a frame behind everything retained and trims the front; the counters count it even if it is dropped. */
    method AppendFrame(frame: DataFrame, maxFrames: nat, limits: Limits) returns (r: TrimResult)
      requires Ordered()
      modifies this
      ensures Ordered() && capturePaused == old(capturePaused)
      ensures |pausedFrames| == Min(old(|pausedFrames|) + (if capturePaused then 1 else 0), |All()|)
      ensures FrontGone(old(All()) + [frame], All(), r)
      ensures var bytes := OrElse(limits.currentBytes, BytesOf(old(All()))) + |frame.data|;
              && r.retainedBytes == bytes - r.droppedBytes
              && LeastCut(old(All()) + [frame],
                          CountCut(1 + if capturePaused then |old(pausedFrames)| else |old(frames)|,
                                   maxFrames, OrElse(limits.trimThreshold, SESSION_FRAME_TRIM_THRESHOLD)),
                          r.droppedFrames, bytes, OrElse(limits.maxBytes, MAX_SESSION_FRAME_BYTES))
      ensures frame.direction == TX ==> txBytes == old(txBytes) + |frame.data| && txFrames == old(txFrames) + 1
                                        && rxBytes == old(rxBytes) && rxFrames == old(rxFrames)
      ensures frame.direction == RX ==> rxBytes == old(rxBytes) + |frame.data| && rxFrames == old(rxFrames) + 1
                                        && txBytes == old(txBytes) && txFrames == old(txFrames)
    {
      hide BytesOf, LeastCut, CountCut, All, FrontGone;
      var length := Push(frame);
      var total := FrameBuffersByteLength();
      BytesOfConcat(old(All()), [frame]);
      OneFrame(frame);
      var bytes := (if limits.currentBytes.Some? then limits.currentBytes.value else total - |frame.data|) + |frame.data|;
      r := TrimFront(length, bytes, maxFrames, limits);
      if frame.direction == TX {
        txBytes, txFrames := txBytes + |frame.data|, txFrames + 1;
      } else {
        rxBytes, rxFrames := rxBytes + |frame.data|, rxFrames + 1;
      }
    }

    /** Trims to the number of frames first, and then to the bytes. */
    method TrimFront(length: nat, bytes: int, maxFrames: nat, limits: Limits) returns (r: TrimResult)
      requires length <= |All()|
      modifies `frames, `pausedFrames
      ensures FrontGone(old(All()), All(), r) && r.retainedBytes == bytes - r.droppedBytes
      ensures LeastCut(old(All()), CountCut(length, maxFrames, OrElse(limits.trimThreshold, SESSION_FRAME_TRIM_THRESHOLD)),
                       r.droppedFrames, bytes, OrElse(limits.maxBytes, MAX_SESSION_FRAME_BYTES))
      ensures |pausedFrames| == Min(old(|pausedFrames|), |All()|)
    {
      hide BytesOf, LeastCut;
      ghost var all := All();
      var maxBytes := OrElse(limits.maxBytes, MAX_SESSION_FRAME_BYTES);
      var cut := CountCut(length, maxFrames, OrElse(limits.trimThreshold, SESSION_FRAME_TRIM_THRESHOLD));
      var droppedBytes, droppedFrames := ShiftCount(cut);
      var retained, moreBytes, moreFrames := ShiftBytes(bytes - droppedBytes, maxBytes);
      TwoCuts(all, cut, moreFrames, bytes, maxBytes);
      return TrimResult(retained, droppedBytes + moreBytes, droppedFrames + moreFrames);
    }

    /** Pushes onto the held-back frames while paused, else onto the live ones; the length of that buffer. */
    method Push(frame: DataFrame) returns (length: nat)
      requires Ordered()
      modifies `frames, `pausedFrames
      ensures Ordered() && All() == old(All()) + [frame] && length <= |All()|
      ensures length == 1 + if capturePaused then |old(pausedFrames)| else |old(frames)|
      ensures |pausedFrames| == old(|pausedFrames|) + if capturePaused then 1 else 0
    {
      if capturePaused {
        pausedFrames := pausedFrames + [frame];
        length := |pausedFrames|;
      } else {
        frames := frames + [frame];
        length := |frames|;
      }
    }

    /** Clears everything, counters included. */
    method Reset()
      modifies this
      ensures Now() == NOTHING_RETAINED
    {
      frames, pausedFrames, capturePaused := [], [], false;
      txBytes, rxBytes, txFrames, rxFrames := 0, 0, 0, 0;
    }

    /** Resuming: what was held back follows the live frames, and the front is trimmed as on an append. */
    method FlushPausedFramesToLive(maxFrames: nat, limits: Limits) returns (r: TrimResult)
      modifies `frames, `pausedFrames
      ensures pausedFrames == [] && Ordered()
      ensures FrontGone(old(All()), All(), r)
      ensures r.retainedBytes == OrElse(limits.currentBytes, BytesOf(old(All()))) - r.droppedBytes
      ensures if old(pausedFrames) == [] then r.droppedFrames == 0
              else LeastCut(old(All()), CountCut(|old(All())|, maxFrames, OrElse(limits.trimThreshold, SESSION_FRAME_TRIM_THRESHOLD)),
                            r.droppedFrames, OrElse(limits.currentBytes, BytesOf(old(All()))),
                            OrElse(limits.maxBytes, MAX_SESSION_FRAME_BYTES))
    {
      NoFrames();
      hide BytesOf, LeastCut;
      ghost var all := All();
      var total := FrameBuffersByteLength();
      var bytes: int := OrElse(limits.currentBytes, total);
      if |pausedFrames| == 0 {
        assert all[0..] == all && all[..0] == [];
        return TrimResult(bytes, 0, 0);
      }
      frames, pausedFrames := frames + pausedFrames, [];
      assert All() == all;
      r := TrimFront(|frames|, bytes, maxFrames, limits);
    }
  }

  lemma NoFrames()
    ensures BytesOf([]) == 0
  {
  }

  lemma OneFrame(frame: DataFrame)
    ensures BytesOf([frame]) == |frame.data|
  {
    assert BytesOf([frame]) == |frame.data| + BytesOf([]);
  }

  /** Cutting off `cut` frames and then the least number for the bytes is the least cut from `cut` on. */
  lemma TwoCuts(all: seq<DataFrame>, cut: nat, more: nat, bytes: int, maxBytes: nat)
    requires cut <= |all| && LeastCut(all[cut..], 0, more, bytes - BytesOf(all[..cut]), maxBytes)
    ensures LeastCut(all, cut, cut + more, bytes, maxBytes)
    ensures BytesOf(all[..cut + more]) == BytesOf(all[..cut]) + BytesOf(all[cut..][..more])
    ensures all[cut..][more..] == all[cut + more..]
  {
    hide BytesOf;
    Slices(all, cut, more);
    BytesOfConcat(all[..cut], all[cut..][..more]);
    if more > 0 {
      Slices(all, cut, more - 1);
      BytesOfConcat(all[..cut], all[cut..][..more - 1]);
    }
  }

  lemma Slices<T>(s: seq<T>, i: nat, j: nat)
    requires i + j <= |s|
    ensures s[..i + j] == s[..i] + s[i..][..j] && s[i..][j..] == s[i + j..]
  {
  }
}
