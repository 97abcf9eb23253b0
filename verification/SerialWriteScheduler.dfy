/**
 * The single-flight write scheduler of one connection, as the steps its coroutines take between awaits.
 *
 * Operation records live in one table in admission order; the queue and the active operation refer to them by index.
 * Answers of the driver, of the admission gate and of the write-started callback are arguments of the steps.
 */
module SerialWriting {
  import opened Bytes
  import opened WriteAccounting
  import opened Wrappers

  /** Where the drain loop and the write it awaits have got to. */
  datatype Phase =
    | Asleep
    | Starting(op: nat)
    | Ready(op: nat, chunkEnd: nat)
    | Calling(op: nat, chunkEnd: nat)
    | Returning(op: nat, result: Result)

  datatype Ticket = Refused(result: Result) | Admitted(op: nat)

  datatype IdleWait = Idle | AlreadyAborted | Waiting(waiter: nat)

  /** A driver call: bytes [from, to) of a payload, inside one chunk-aligned block. */
  datatype DriverCall = DriverCall(op: nat, block: nat, from: nat, to: nat, whileAccepting: bool)

  predicate GoodCall(c: DriverCall, payloads: seq<seq<byte>>, chunkBytes: nat) {
    && c.whileAccepting && c.op < |payloads|
    && c.block * chunkBytes <= c.from < c.to <= c.block * chunkBytes + chunkBytes && c.to <= |payloads[c.op]|
  }

  /** A count the driver may honestly report for a call of `asked` bytes. */
  predicate Plausible(written: Option<int>, asked: int) {
    written.Some? && 0 < written.value <= asked
  }

  /** The result of a write whose driver call failed, or answered nonsense. */
  function Broken(accepting: bool, requested: nat, sent: nat): (r: Result)
    ensures r.requestedBytes == requested && r.sentBytes == sent
    ensures r.outcome.Cancelled? <==> !accepting
    ensures accepting ==> FellShort(r) && r.error.PartialWrite?
    ensures !accepting ==> r.error.CancelledError?
  {
    if accepting then WriteFailure(requested, sent) else CancelledResult(requested, sent)
  }

  /** A write that the driver stopped: a cancellation after shutdown, and before it a failure, in part or in full. */
  predicate Stopped(r: Result, sent: nat, accepting: bool) {
    && r.sentBytes == sent
    && (if !accepting then r.outcome == Cancelled && r.error == CancelledError
        else r.outcome == (if sent > 0 then Partial else Failed) && r.error == PartialWrite)
  }

  /** Everything that can happen between two awaits, in any order. */
  datatype Event =
    | Submit(payload: seq<byte>, authorized: bool)
    | Start(authorized: bool, throws: bool)
    | Call(authorized: bool)
    | Return(written: Option<int>)
    | Throw
    | Resume
    | Shutdown
    | Grace(index: nat)
    | Observe(index: nat)
    | Wait(aborted: bool)
    | Abort(waiter: nat)

  /** What never changes back: a later history extends an earlier one. */
  datatype History = History(payloads: seq<seq<byte>>, operations: seq<Operation>, wire: seq<byte>, calls: seq<DriverCall>, accepting: bool)

  predicate Extends(h: History, g: History) {
    && h.payloads <= g.payloads && h.wire <= g.wire && h.calls <= g.calls && |h.operations| <= |g.operations|
    && (forall i | 0 <= i < |h.operations| && h.operations[i].Settled() :: g.operations[i] == h.operations[i])
    // Nothing is admitted and no driver call starts once the scheduler has stopped accepting.
    && (!h.accepting ==> !g.accepting && g.payloads == h.payloads && g.calls == h.calls)
  }

  lemma ExtendsSelf(a: History)
    ensures Extends(a, a)
  {
  }

  lemma PushExtends(h: History, payload: seq<byte>)
    requires h.accepting
    ensures Extends(h, h.(payloads := h.payloads + [payload], operations := h.operations + [Operation(payload, 0, None)]))
  {
  }

  lemma ExtendsTransitive(a: History, b: History, c: History)
    requires Extends(a, b) && Extends(b, c)
    ensures Extends(a, c)
  {
  }

  /** The queue holds the newest operations; below it everything is settled but the active one. */
  predicate Ordered(operations: seq<Operation>, queue: seq<nat>, active: Option<nat>, delivered: seq<nat>) {
    && |queue| <= |operations| == |delivered|
    && var low := |operations| - |queue|;
       && (forall j | 0 <= j < |queue| :: queue[j] == low + j)
       && (forall i | 0 <= i < low :: operations[i].Settled() || active == Some(i))
       && (active.Some? ==> active.value < low)
       && (forall i | 0 <= i < |operations| && (low <= i || (active.Some? && active.value < i)) ::
             operations[i].sentBytes == 0 && delivered[i] == 0)
  }

  /** The reported prefix is what the driver took, but for a call that outlived the shutdown grace. */
  predicate Told(operations: seq<Operation>, delivered: seq<nat>, late: set<nat>, chunkBytes: nat) {
    && |operations| == |delivered|
    && forall i | 0 <= i < |operations| ::
         && delivered[i] <= |operations[i].payload|
         && (delivered[i] == operations[i].sentBytes
             || (i in late && operations[i].Settled() && operations[i].sentBytes <= delivered[i] <= operations[i].sentBytes + chunkBytes))
  }

  predicate Tables(operations: seq<Operation>, payloads: seq<seq<byte>>, settlements: seq<nat>) {
    && |operations| == |payloads| == |settlements| && AllValid(operations)
    && forall i | 0 <= i < |operations| ::
         operations[i].payload == payloads[i] && settlements[i] == (if operations[i].Settled() then 1 else 0)
  }

  lemma NextBlock(block: nat, chunkBytes: nat)
    ensures (block + 1) * chunkBytes == block * chunkBytes + chunkBytes
  {
  }

  predicate OnlyOpen(operations: seq<Operation>, k: nat) {
    k < |operations| && forall i | 0 <= i < |operations| && i != k :: operations[i].Settled()
  }

  /** The tables of the scheduler, with what the driver took of each payload and how often each was settled. */
  datatype Book = Book(operations: seq<Operation>, queue: seq<nat>, payloads: seq<seq<byte>>, delivered: seq<nat>,
                       settlements: seq<nat>, late: set<nat>, openOperations: int, openBytes: int, wire: seq<byte>)

  predicate Balanced(b: Book, active: Option<nat>, chunkBytes: nat) {
    && Tables(b.operations, b.payloads, b.settlements)
    && Ordered(b.operations, b.queue, active, b.delivered)
    && Told(b.operations, b.delivered, b.late, chunkBytes)
    && b.openOperations == Unsettled(b.operations) && b.openBytes == UnsentBytes(b.operations)
    && b.wire == Wire(b.payloads, b.delivered)
    && forall k | k in b.late :: k < |b.operations| && b.operations[k].Settled()
  }

  function Admit(b: Book, payload: seq<byte>): Book {
    Book(b.operations + [Operation(payload, 0, None)], b.queue + [|b.operations|], b.payloads + [payload], b.delivered + [0],
         b.settlements + [0], b.late, b.openOperations + 1, b.openBytes + |payload|, b.wire)
  }

  /** The driver took `count` more bytes of operation k, and that is reported. */
  function Progress(b: Book, k: nat, count: nat): Book
    requires k < |b.operations| == |b.delivered| && b.operations[k].sentBytes + count <= |b.operations[k].payload|
  {
    var o := b.operations[k];
    b.(operations := b.operations[k := o.(sentBytes := o.sentBytes + count)], openBytes := b.openBytes - count,
       delivered := b.delivered[k := b.delivered[k] + count], wire := b.wire + o.payload[o.sentBytes..o.sentBytes + count])
  }

  /** The driver took `count` more bytes of operation k after it had been settled. */
  function TookLate(b: Book, k: nat, count: nat): Book
    requires k < |b.operations| == |b.delivered| && b.operations[k].sentBytes + count <= |b.operations[k].payload|
  {
    var o := b.operations[k];
    b.(delivered := b.delivered[k := b.delivered[k] + count], late := b.late + {k},
       wire := b.wire + o.payload[o.sentBytes..o.sentBytes + count])
  }

  function Settled(b: Book, k: nat, result: Result): Book
    requires k < |b.operations| == |b.settlements| && b.operations[k].sentBytes <= |b.operations[k].payload|
  {
    var o := b.operations[k];
    b.(operations := b.operations[k := o.(result := Some(result))], openOperations := b.openOperations - 1,
       openBytes := b.openBytes - (|o.payload| - o.sentBytes), settlements := b.settlements[k := b.settlements[k] + 1])
  }

  predicate EachSettled(operations: seq<Operation>) {
    forall i | 0 <= i < |operations| :: operations[i].Settled()
  }

  /**
   * The one exception: only the operation whose driver call was in flight when a shutdown's grace expired may have had
   * more taken than it reports, and that within its last call.  It was settled then as cancelled, all others have been
   * settled before, and nothing is accepted any more.
   */
  predicate Excused(operations: seq<Operation>, delivered: seq<nat>, late: set<nat>, interrupted: Option<nat>, accepting: bool,
                    calls: seq<DriverCall>)
  {
    if interrupted.None? then late == {}
    else
      var k := interrupted.value;
      && !accepting && EachSettled(operations) && late <= {k} && k < |operations| == |delivered| && calls != []
      && operations[k].result == Some(CancelledResult(|operations[k].payload|, operations[k].sentBytes))
      && var c := calls[|calls| - 1];
         c.op == k && c.from == operations[k].sentBytes && (k in late ==> c.from < delivered[k] <= c.to)
  }

  /** The call in flight is the last one made; if its operation is settled already, the grace has expired on it. */
  predicate InFlight(operations: seq<Operation>, interrupted: Option<nat>, calls: seq<DriverCall>, phase: Phase) {
    phase.Calling? && phase.op < |operations| ==>
      && calls != []
      && var c := calls[|calls| - 1];
         && c.op == phase.op && c.from == operations[phase.op].sentBytes && c.to == phase.chunkEnd
         && (operations[phase.op].Settled() ==> interrupted == Some(phase.op))
  }

  /** While the scheduler accepts, nothing is cancelled, and the operation in work is open. */
  predicate Uncancelled(operations: seq<Operation>, accepting: bool, phase: Phase) {
    accepting ==>
      && (forall i | 0 <= i < |operations| && operations[i].Settled() :: !operations[i].result.value.outcome.Cancelled?)
      && (phase.Returning? ==> !phase.result.outcome.Cancelled?)
      && (!phase.Asleep? && !phase.Returning? && phase.op < |operations| ==> !operations[phase.op].Settled())
  }

  /** While an operation is open, no grace has expired on a call. */
  lemma OpenNotExcused(operations: seq<Operation>, delivered: seq<nat>, late: set<nat>, interrupted: Option<nat>, accepting: bool,
                       calls: seq<DriverCall>, k: nat)
    requires Excused(operations, delivered, late, interrupted, accepting, calls)
    requires accepting || (k < |operations| && !operations[k].Settled())
    ensures interrupted.None? && late == {}
  {
  }

  lemma NothingExcused(operations: seq<Operation>, delivered: seq<nat>, accepting: bool, calls: seq<DriverCall>)
    ensures Excused(operations, delivered, {}, None, accepting, calls)
  {
  }

  lemma NotInFlight(operations: seq<Operation>, interrupted: Option<nat>, calls: seq<DriverCall>, phase: Phase)
    requires !phase.Calling?
    ensures InFlight(operations, interrupted, calls, phase)
  {
  }

  /** The grace expires on the call in flight. */
  lemma GraceExcuses(operations: seq<Operation>, delivered: seq<nat>, calls: seq<DriverCall>, phase: Phase, k: nat)
    requires phase.Calling? && phase.op == k < |operations| == |delivered| && InFlight(operations, None, calls, phase)
    requires !operations[k].Settled() && OnlyOpen(operations, k)
    ensures var o := operations[k];
            var after := operations[k := o.(result := Some(CancelledResult(|o.payload|, o.sentBytes)))];
            Excused(after, delivered, {}, Some(k), false, calls) && InFlight(after, Some(k), calls, phase)
  {
  }

  /** What the call in flight still took is excused. */
  lemma LateExcused(operations: seq<Operation>, delivered: seq<nat>, late: set<nat>, interrupted: Option<nat>, accepting: bool,
                    calls: seq<DriverCall>, phase: Phase, count: nat)
    requires Excused(operations, delivered, late, interrupted, accepting, calls) && InFlight(operations, interrupted, calls, phase)
    requires phase.Calling? && phase.op < |operations| == |delivered| && operations[phase.op].Settled()
    requires 0 < count <= phase.chunkEnd - operations[phase.op].sentBytes
    ensures Excused(operations, delivered[phase.op := operations[phase.op].sentBytes + count], late + {phase.op}, interrupted, accepting, calls)
  {
  }

  /** Cancelling what is queued touches neither an interrupted operation nor the one in flight. */
  lemma ShutdownExcused(before: seq<Operation>, after: seq<Operation>, delivered: seq<nat>, late: set<nat>, interrupted: Option<nat>,
                        accepting: bool, calls: seq<DriverCall>, phase: Phase, queue: seq<nat>)
    requires Excused(before, delivered, late, interrupted, accepting, calls) && InFlight(before, interrupted, calls, phase)
    requires CancelledUnsent(before, after, queue) && (interrupted.Some? ==> after == before)
    requires phase.Calling? ==> phase.op < |before| && phase.op !in queue
    ensures Excused(after, delivered, late, interrupted, false, calls) && InFlight(after, interrupted, calls, phase)
  {
  }

  predicate SettledUpTo(operations: seq<Operation>, waiting: seq<nat>, n: nat) {
    n <= |waiting| && forall j | 0 <= j < n :: waiting[j] < |operations| && operations[waiting[j]].Settled()
  }

  /** The first open operation of those waiting has become the active one; if there is none, the loop sleeps. */
  predicate TakesUp(operations: seq<Operation>, waiting: seq<nat>, queue: seq<nat>, phase: Phase) {
    if phase.Asleep? then queue == [] && SettledUpTo(operations, waiting, |waiting|)
    else
      && |queue| < |waiting|
      && var n := |waiting| - 1 - |queue|;
         && queue == waiting[n + 1..] && phase == Starting(waiting[n]) && SettledUpTo(operations, waiting, n)
         && waiting[n] < |operations| && !operations[waiting[n]].Settled()
  }

  lemma NothingTaken(operations: seq<Operation>, waiting: seq<nat>)
    ensures SettledUpTo(operations, waiting, 0) && waiting[0..] == waiting
  {
  }

  lemma TakesUpNext(operations: seq<Operation>, waiting: seq<nat>, n: nat)
    requires n < |waiting| && SettledUpTo(operations, waiting, n) && waiting[n] < |operations|
    ensures if operations[waiting[n]].Settled() then SettledUpTo(operations, waiting, n + 1)
            else TakesUp(operations, waiting, waiting[n + 1..], Starting(waiting[n]))
    ensures waiting[n..][1..] == waiting[n + 1..] && waiting[n..][0] == waiting[n]
  {
  }

  lemma SleepsAtEnd(operations: seq<Operation>, waiting: seq<nat>, n: nat)
    requires SettledUpTo(operations, waiting, n) && waiting[n..] == []
    ensures TakesUp(operations, waiting, [], Asleep)
  {
  }

  /** The operations named were cancelled before anything of them was sent; all others are as before. */
  predicate CancelledUnsent(before: seq<Operation>, after: seq<Operation>, named: seq<nat>) {
    && |after| == |before|
    && forall i | 0 <= i < |before| ::
         after[i] == if i in named && !before[i].Settled() then before[i].(result := Some(CancelledResult(|before[i].payload|, 0)))
                     else before[i]
  }

  function CancelOne(operations: seq<Operation>, k: nat): seq<Operation>
    requires k < |operations|
  {
    var o := operations[k];
    if o.Settled() then operations else operations[k := o.(result := Some(CancelledResult(|o.payload|, 0)))]
  }

  lemma CancelNext(before: seq<Operation>, now: seq<Operation>, named: seq<nat>, next: nat)
    requires CancelledUnsent(before, now, named) && next < |now| && next !in named
    ensures CancelledUnsent(before, CancelOne(now, next), named + [next])
  {
  }

  lemma OpenKeeps(closing: seq<nat>, operations: seq<Operation>, op: nat, changed: Operation)
    requires op < |operations| && (operations[op].Settled() ==> changed.Settled())
    requires forall k | k in closing :: OnlyOpen(operations, k)
    ensures forall k | k in closing :: OnlyOpen(operations[op := changed], k)
  {
  }

  class SerialWriteScheduler {
    const maxOperations: nat
    const maxQueuedBytes: nat
    const chunkBytes: nat
    var operations: seq<Operation>
    var queue: seq<nat>
    var activeOperation: Option<nat>
    var draining: bool
    var phase: Phase
    var accepting: bool
    var outstandingOperations: int
    var outstandingBytes: int
    var idleWaiters: set<nat>
    var nextWaiter: nat
    /** Shutdowns that wait for an operation to settle or for their grace timer. */
    var closing: seq<nat>

    /** Admitted payloads; how much of each the driver took; all it took; every call; how often each settled. */
    ghost var payloads: seq<seq<byte>>
    ghost var delivered: seq<nat>
    ghost var wire: seq<byte>
    ghost var calls: seq<DriverCall>
    ghost var settlements: seq<nat>
    /** The operation whose driver call was in flight when a grace expired, and whether the driver took anything then. */
    ghost var interrupted: Option<nat>
    ghost var late: set<nat>
    /** Block of the current call, and for each waiter woken whether the scheduler was idle. */
    ghost var block: nat
    ghost var woken: seq<bool>

    ghost function Now(): History
      reads `payloads, `operations, `wire, `calls, `accepting
    {
      History(payloads, operations, wire, calls, accepting)
    }

    ghost function Accounts(): Book
      reads `operations, `queue, `payloads, `delivered, `settlements, `late, `outstandingOperations, `outstandingBytes, `wire
    {
      Book(operations, queue, payloads, delivered, settlements, late, outstandingOperations, outstandingBytes, wire)
    }

    /** The accounts, apart from what shutdown promises and where the coroutine is. */
    ghost predicate Books(active: Option<nat>)
      reads `operations, `queue, `payloads, `delivered, `settlements, `late, `outstandingOperations, `outstandingBytes, `wire, `calls
    {
      && 0 < maxOperations && 0 < maxQueuedBytes && 0 < chunkBytes
      && Balanced(Accounts(), active, chunkBytes)
      && outstandingOperations <= maxOperations && outstandingBytes <= maxQueuedBytes
      && forall c | c in calls :: GoodCall(c, payloads, chunkBytes)
    }

    /** Waiters were only ever woken when nothing was queued or in flight. */
    ghost predicate WokenIdle()
      reads `woken
    {
      forall w | w in woken :: w
    }

    /** After shutdown nothing is queued, and at most the operation a shutdown still waits for is unsettled. */
    ghost predicate Closed()
      reads `accepting, `queue, `closing, `operations
    {
      && (!accepting ==> queue == [])
      && (!accepting && closing == [] ==> EachSettled(operations))
      && forall k | k in closing :: !accepting && OnlyOpen(operations, k)
    }

    /** The program counter agrees with the active operation. */
    ghost predicate Control()
      reads `draining, `phase, `activeOperation, `queue, `idleWaiters, `operations, `late, `block
    {
      && draining == !phase.Asleep?
      && activeOperation == (if phase.Asleep? then None else Some(phase.op))
      && (phase.Asleep? ==> queue == [] && idleWaiters == {})
      && (!phase.Asleep? && phase.op < |operations| ==>
            var o := operations[phase.op];
            && (phase.Starting? ==> o.sentBytes == 0)
            && (phase.Ready? || phase.Calling? ==> BlockHolds(o, phase.chunkEnd))
            && (phase.Calling? ==> o.sentBytes < phase.chunkEnd)
            && (!phase.Returning? ==> phase.op !in late)
            && (phase.Returning? && !o.Settled() ==> o.Fits(phase.result)))
    }

    /** The unsent part of the current chunk lies in block number `block`, which ends at chunkEnd. */
    ghost predicate BlockHolds(o: Operation, chunkEnd: nat)
      reads `block
    {
      && o.sentBytes <= chunkEnd <= |o.payload|
      && block * chunkBytes <= o.sentBytes && chunkEnd <= block * chunkBytes + chunkBytes
      && (chunkEnd == |o.payload| || chunkEnd == block * chunkBytes || chunkEnd == block * chunkBytes + chunkBytes)
    }

    ghost predicate Excusable()
      reads `operations, `delivered, `late, `interrupted, `accepting, `calls, `phase
    {
      && Excused(operations, delivered, late, interrupted, accepting, calls) && InFlight(operations, interrupted, calls, phase)
      && Uncancelled(operations, accepting, phase)
    }

    ghost predicate Valid()
      reads this
    {
      Books(activeOperation) && Closed() && Control() && WokenIdle() && Excusable()
    }

    constructor (maxOperations: nat, maxQueuedBytes: nat, chunkBytes: nat)
      requires 0 < maxOperations && 0 < maxQueuedBytes && 0 < chunkBytes
      ensures Valid() && accepting && payloads == [] && wire == [] && calls == [] && interrupted == None
      ensures this.maxOperations == maxOperations && this.maxQueuedBytes == maxQueuedBytes && this.chunkBytes == chunkBytes
    {
      this.maxOperations, this.maxQueuedBytes, this.chunkBytes := maxOperations, maxQueuedBytes, chunkBytes;
      operations, queue, activeOperation, draining, phase := [], [], None, false, Asleep;
      accepting, outstandingOperations, outstandingBytes := true, 0, 0;
      idleWaiters, nextWaiter, closing := {}, 0, [];
      payloads, delivered, wire, calls, settlements, interrupted, late, block, woken := [], [], [], [], [], None, {}, 0, [];
    }

    // ----- admission

    method Enqueue(payload: seq<byte>, authorized: bool) returns (ticket: Ticket)
      requires Valid()
      modifies this
      ensures Valid() && Extends(old(Now()), Now())
      ensures ticket.Admitted? <==>
                payload != [] && old(accepting) && authorized && old(outstandingOperations) < maxOperations
                && old(outstandingBytes) + |payload| <= maxQueuedBytes
      ensures ticket.Admitted? ==>
                && ticket.op == |old(operations)| && operations == old(operations) + [Operation(payload, 0, None)]
                && payloads == old(payloads) + [payload] && interrupted == old(interrupted)
                && outstandingOperations == old(outstandingOperations) + 1
                && outstandingBytes == old(outstandingBytes) + |payload|
                && Resumed(old(draining), old(phase), old(queue) + [ticket.op])
      ensures ticket.Refused? ==>
                && unchanged(this)
                && ticket.result == (if payload == [] then Result(Failed, 0, 0, InvalidInput)
                                     else if !accepting then CancelledResult(|payload|, 0)
                                     else if !authorized then Denied(|payload|, 0)
                                     else Result(Failed, |payload|, 0, QueueFull))
    {
      hide Balanced, GoodCall, Control, Books, Closed, Extends, Wakeable, WokenIdle, Excusable, TakesUp;
      ExtendsSelf(Now());
      if |payload| == 0 { return Refused(Result(Failed, 0, 0, InvalidInput)); }
      if !accepting { return Refused(CancelledResult(|payload|, 0)); }
      if !authorized { return Refused(Denied(|payload|, 0)); }
      if outstandingOperations >= maxOperations || outstandingBytes + |payload| > maxQueuedBytes {
        return Refused(Result(Failed, |payload|, 0, QueueFull));
      }
      ticket := Admitted(|operations|);
      Push(payload);
      Drain();
    }

    method Push(payload: seq<byte>)
      requires Valid() && payload != [] && accepting
      requires outstandingOperations < maxOperations && outstandingBytes + |payload| <= maxQueuedBytes
      modifies `queue, `operations, `outstandingOperations, `outstandingBytes, `payloads, `delivered, `settlements
      ensures Books(activeOperation) && Closed() && Wakeable() && Excusable() && Extends(old(Now()), Now())
      ensures payloads == old(payloads) + [payload] && operations == old(operations) + [Operation(payload, 0, None)]
      ensures outstandingOperations == old(outstandingOperations) + 1 && outstandingBytes == old(outstandingBytes) + |payload|
      ensures queue == old(queue) + [|old(operations)|]
    {
      hide Valid, Books, Closed, Extends, Excusable, WokenIdle, Wakeable, Control, Now;
      queue := queue + [|operations|];
      operations := operations + [Operation(payload, 0, None)];
      outstandingOperations := outstandingOperations + 1;
      outstandingBytes := outstandingBytes + |payload|;
      payloads, delivered, settlements := payloads + [payload], delivered + [0], settlements + [0];
      PushBalances(payload);
      PushStaysOpen(payload);
      PushWakes(payload);
      PushExcusable(payload);
    }

    /** One more operation in the tables and in the queue, and nothing else. */
    twostate predicate Pushed(payload: seq<byte>)
      reads this
    {
      && old(accepting) && accepting && payload != []
      && operations == old(operations) + [Operation(payload, 0, None)] && queue == old(queue) + [|old(operations)|]
      && outstandingOperations == old(outstandingOperations) + 1 <= maxOperations
      && outstandingBytes == old(outstandingBytes) + |payload| <= maxQueuedBytes
      && payloads == old(payloads) + [payload] && delivered == old(delivered) + [0] && settlements == old(settlements) + [0]
      && unchanged(`draining, `phase, `activeOperation, `idleWaiters, `closing, `block, `calls, `wire, `late, `interrupted)
    }

    twostate lemma PushBalances(payload: seq<byte>)
      requires old(Valid()) && Pushed(payload)
      ensures Books(activeOperation) && Extends(old(Now()), Now())
    {
      hide Balanced, GoodCall, Extends, Closed, Control, Excusable, WokenIdle;
      assert Accounts() == Admit(old(Accounts()), payload);
      AdmitKeeps(old(Accounts()), activeOperation, chunkBytes, payload);
      CallsKeep(calls, old(payloads), chunkBytes, payload);
      PushExtends(old(Now()), payload);
    }

    twostate lemma PushStaysOpen(payload: seq<byte>)
      requires old(Valid()) && Pushed(payload)
      ensures Closed()
    {
      hide OnlyOpen, EachSettled, Books, Control, Excusable, WokenIdle;
      assert closing != [] ==> closing[0] in closing;
    }

    /** What the coroutine knows about its own operation is not touched by one more admission. */
    twostate lemma PushWakes(payload: seq<byte>)
      requires old(Valid()) && Pushed(payload)
      ensures Wakeable()
    {
      hide Books, WokenIdle, Closed, Excusable;
      if draining { ActiveBefore(); }
    }

    twostate lemma PushExcusable(payload: seq<byte>)
      requires old(Valid()) && Pushed(payload)
      ensures Excusable()
    {
      hide Books, WokenIdle, Closed, Excused;
      OpenNotExcused(old(operations), old(delivered), late, interrupted, true, calls, 0);
      NothingExcused(operations, delivered, true, calls);
      if phase.Calling? { ActiveBefore(); }
    }

    twostate lemma ActiveBefore()
      requires old(Valid()) && old(draining)
      ensures old(phase.op < |operations|)
    {
      hide Balanced, GoodCall, WokenIdle, Closed, Excusable;
      BalancedOrder(old(Accounts()), old(activeOperation), chunkBytes);
    }

    ghost predicate Wakeable()
      reads `draining, `phase, `activeOperation, `queue, `idleWaiters, `operations, `late, `block
    {
      if draining then Control() else activeOperation == None
    }

    /** The loop goes on where it was, or has taken up the first open operation of the queue. */
    ghost predicate Resumed(wasDraining: bool, wasPhase: Phase, waiting: seq<nat>)
      reads `draining, `phase, `queue, `operations
    {
      if wasDraining then draining && phase == wasPhase && queue == waiting
      else TakesUp(operations, waiting, queue, phase)
    }

    /** Wakes the drain loop unless it is running. */
    method Drain()
      requires Books(activeOperation) && Closed() && Wakeable() && WokenIdle() && Excusable()
      modifies `activeOperation, `draining, `phase, `queue, `idleWaiters, `woken
      ensures Valid() && Now() == old(Now())
      ensures Resumed(old(draining), old(phase), old(queue))
    {
      hide Books, Closed, WokenIdle, Excusable, TakesUp, Now;
      if draining { return; }
      draining := true;
      NextOperation();
    }

    /** The head of the drain loop: take up the next queued operation, or fall asleep. */
    method NextOperation()
      requires Books(None) && Closed() && draining && WokenIdle() && Excusable()
      modifies `activeOperation, `draining, `phase, `queue, `idleWaiters, `woken
      ensures Valid() && Now() == old(Now())
      ensures TakesUp(operations, old(queue), queue, phase)
      ensures idleWaiters == if phase.Asleep? then {} else old(idleWaiters)
    {
      hide Balanced, GoodCall, OnlyOpen, BlockHolds, Books, Closed, WokenIdle, Excused, TakesUp, SettledUpTo, InFlight, Now;
      activeOperation, phase := None, Asleep;
      ghost var waiting, taken := queue, 0;
      NotInFlight(operations, interrupted, calls, phase);
      NothingTaken(operations, waiting);
      while |queue| > 0
        invariant Books(None) && Closed() && WokenIdle() && activeOperation == None && phase == Asleep && draining && Now() == old(Now())
        invariant Excusable() && idleWaiters == old(idleWaiters)
        invariant taken <= |waiting| && queue == waiting[taken..] && SettledUpTo(operations, waiting, taken)
        decreases |queue|
      {
        var operation := TakeQueued();
        TakesUpNext(operations, waiting, taken);
        taken := taken + 1;
        if operations[operation].Settled() { continue; }
        activeOperation := Some(operation);
        phase := Starting(operation);
        NotInFlight(operations, interrupted, calls, phase);
        return;
      }
      SleepsAtEnd(operations, waiting, taken);
      draining := false;
      ResolveIdleWaiters();
    }

    method TakeQueued() returns (operation: nat)
      requires Books(None) && Closed() && queue != []
      modifies `queue
      ensures operation == old(queue[0]) < |operations| && queue == old(queue)[1..] && Closed()
      ensures Books(if operations[operation].Settled() then None else Some(operation))
      ensures !operations[operation].Settled() ==> operation !in late && operations[operation].sentBytes == 0
    {
      hide Balanced, GoodCall, OnlyOpen;
      BalancedOrder(Accounts(), None, chunkBytes);
      DequeueKeeps(Accounts(), None, chunkBytes);
      operation := queue[0];
      BalancedAt(Accounts(), None, chunkBytes, operation);
      queue := queue[1..];
    }

    // ----- one write, call by call

    lemma ActiveInRange()
      requires Books(activeOperation) && activeOperation.Some?
      ensures var k := activeOperation.value;
              && k < |operations| == |payloads| == |delivered| == |settlements|
              && operations[k].Valid() && operations[k].payload == payloads[k] && 0 < chunkBytes
              && (!operations[k].Settled() ==> k !in late) && (k !in late ==> delivered[k] == operations[k].sentBytes)
    {
      hide Balanced;
      BalancedOrder(Accounts(), activeOperation, chunkBytes);
      BalancedAt(Accounts(), activeOperation, chunkBytes, activeOperation.value);
    }

    /** Admission is checked again and the caller is told, before the first driver call. */
    method StartOperation(authorized: bool, callbackThrows: bool)
      requires Valid() && phase.Starting?
      modifies `phase, `block
      ensures Valid() && Now() == old(Now())
      ensures phase.op == old(phase.op) && (authorized && !callbackThrows <==> phase.Ready?)
      ensures phase.Ready? ==> phase.chunkEnd == 0
      ensures !phase.Ready? ==>
                && phase.Returning? && old(phase.op) < |operations|
                && var o := operations[old(phase.op)];
                   phase.result == if !authorized then Denied(|o.payload|, o.sentBytes) else WriteFailure(|o.payload|, 0)
    {
      hide Balanced, GoodCall;
      var op := phase.op;
      ActiveInRange();
      var operation := operations[op];
      if !authorized {
        phase := Returning(op, Denied(|operation.payload|, operation.sentBytes));
      } else if callbackThrows {
        phase := Returning(op, WriteFailure(|operation.payload|, 0));
      } else {
        block := 0;
        phase := Ready(op, 0);
      }
    }

    /** The two write loops up to the next driver call: a new block when the last one is used up, then its unsent suffix. */
    method BeginCall(authorized: bool)
      requires Valid() && phase.Ready?
      modifies `phase, `block, `calls
      ensures Valid() && Extends(old(Now()), Now())
      ensures phase.Calling? <==> old(accepting) && authorized && !operations[old(phase.op)].Settled()
                                  && operations[old(phase.op)].sentBytes < |operations[old(phase.op)].payload|
      ensures operations == old(operations) && old(phase.op) < |operations|
      // The call asks for the unsent rest of the chunk; a new chunk begins only where the last one has been used up.
      ensures var o, end := operations[old(phase.op)], old(phase.chunkEnd);
              && (phase.Calling? ==>
                    && phase == Calling(old(phase.op), if o.sentBytes == end then Min(end + chunkBytes, |o.payload|) else end)
                    && |calls| == |old(calls)| + 1 && calls[|old(calls)|].op == phase.op
                    && calls[|old(calls)|].from == o.sentBytes && calls[|old(calls)|].to == phase.chunkEnd)
              && (!phase.Calling? ==>
                    && calls == old(calls) && phase.Returning? && phase.op == old(phase.op)
                    && phase.result == (if o.sentBytes == |o.payload| && o.sentBytes == end then Completed(|o.payload|)
                                        else if accepting && !o.Settled() then Denied(|o.payload|, o.sentBytes)
                                        else CancelledResult(|o.payload|, o.sentBytes)))
    {
      hide Books, Closed, Excused, WokenIdle, Extends;
      ActiveInRange();
      ExtendsSelf(Now());
      var op := phase.op;
      var operation := operations[op];
      var requested := |operation.payload|;
      if operation.sentBytes == phase.chunkEnd {
        if operation.sentBytes == requested {
          phase := Returning(op, Completed(requested));
          return;
        }
        if !accepting {
          phase := Returning(op, CancelledResult(requested, operation.sentBytes));
          return;
        }
        NextChunk();
      }
      if operation.Settled() {
        phase := Returning(op, CancelledResult(requested, operation.sentBytes));
      } else if !accepting {
        phase := Returning(op, CancelledResult(requested, operation.sentBytes));
      } else if !authorized {
        phase := Returning(op, Denied(requested, operation.sentBytes));
      } else {
        MakeCall();
      }
    }

    /** The current chunk is used up; the next one begins where it ended. */
    method NextChunk()
      requires Valid() && phase.Ready? && phase.op < |operations|
      requires operations[phase.op].sentBytes == phase.chunkEnd < |operations[phase.op].payload|
      modifies `phase, `block
      ensures Valid()
      ensures phase == Ready(old(phase.op), Min(old(phase.chunkEnd) + chunkBytes, |operations[old(phase.op)].payload|))
    {
      hide Balanced, Closed, Excused, WokenIdle, GoodCall;
      NextBlock(block, chunkBytes);
      var operation := operations[phase.op];
      if phase.chunkEnd != block * chunkBytes { block := block + 1; }
      phase := Ready(phase.op, Min(operation.sentBytes + chunkBytes, |operation.payload|));
    }

    method MakeCall()
      requires Valid() && phase.Ready? && accepting && phase.op < |operations| && !operations[phase.op].Settled()
      requires operations[phase.op].sentBytes < phase.chunkEnd
      modifies `phase, `calls
      ensures Valid() && Extends(old(Now()), Now())
      ensures phase == Calling(old(phase.op), old(phase.chunkEnd))
      ensures calls == old(calls) + [DriverCall(old(phase.op), block, operations[old(phase.op)].sentBytes, phase.chunkEnd, true)]
    {
      hide Balanced, Closed, Excused, WokenIdle;
      ActiveInRange();
      var op, chunkEnd := phase.op, phase.chunkEnd;
      OpenNotExcused(operations, delivered, late, interrupted, accepting, calls, op);
      calls := calls + [DriverCall(op, block, operations[op].sentBytes, chunkEnd, accepting)];
      phase := Calling(op, chunkEnd);
      NothingExcused(operations, delivered, accepting, calls);
    }

    /** The driver reports a count: any number, or something that is no integer. */
    method DriverReturned(written: Option<int>)
      requires Valid() && phase.Calling?
      modifies `phase, `operations, `outstandingBytes, `delivered, `wire, `late
      ensures Valid() && Extends(old(Now()), Now())
      ensures old(phase.op < |operations| && operations[phase.op].sentBytes <= phase.chunkEnd <= |operations[phase.op].payload|)
      // The wire takes what the driver took; it is credited unless the operation has been settled meanwhile.
      ensures var k, end := old(phase.op), old(phase.chunkEnd);
              var o := old(operations[phase.op]);
              var sent, took := o.sentBytes, if written.Some? && 0 < written.value <= end - o.sentBytes then written.value else 0;
              && wire == old(wire) + o.payload[sent..sent + took]
              && operations == (if o.Settled() then old(operations) else old(operations)[k := o.(sentBytes := sent + took)])
              && phase == (if o.Settled() then Returning(k, CancelledResult(|o.payload|, sent))
                           else if took == 0 then Returning(k, Broken(accepting, |o.payload|, sent))
                           else if !accepting then Returning(k, CancelledResult(|o.payload|, sent + took))
                           else Ready(k, end))
      ensures var o := old(operations[phase.op]);
              !o.Settled() && !(written.Some? && 0 < written.value <= old(phase.chunkEnd) - o.sentBytes) ==>
                phase.Returning? && Stopped(phase.result, o.sentBytes, accepting)
    {
      hide Books, Closed, Excused, InFlight, WokenIdle, Extends;
      ActiveInRange();
      var operation := operations[phase.op];
      var sent := operation.sentBytes;
      if operation.Settled() {
        StaleReturn(written);
      } else if !Plausible(written, phase.chunkEnd - sent) {
        ExtendsSelf(Now());
        NotInFlight(operations, interrupted, calls, Returning(phase.op, Broken(accepting, |operation.payload|, sent)));
        assert operations[phase.op := operation.(sentBytes := sent + 0)] == operations;
        phase := Returning(phase.op, Broken(accepting, |operation.payload|, sent));
      } else {
        Credit(written.value);
      }
    }

    /** A completion of a call that outlived the grace is ignored, whatever the driver took. */
    method StaleReturn(written: Option<int>)
      requires Valid() && phase.Calling? && phase.op < |operations| && operations[phase.op].Settled()
      requires operations[phase.op].sentBytes <= phase.chunkEnd <= |operations[phase.op].payload|
      modifies `phase, `delivered, `wire, `late
      ensures Valid() && Extends(old(Now()), Now())
      ensures var o := operations[old(phase.op)];
              var took := if written.Some? && 0 < written.value <= old(phase.chunkEnd) - o.sentBytes then written.value else 0;
              && phase == Returning(old(phase.op), CancelledResult(|o.payload|, o.sentBytes))
              && wire == old(wire) + o.payload[o.sentBytes..o.sentBytes + took]
    {
      hide Balanced, GoodCall, OnlyOpen, Excused, InFlight, WokenIdle;
      ActiveInRange();
      var op, operation := phase.op, operations[phase.op];
      NotInFlight(operations, interrupted, calls, Returning(op, CancelledResult(|operation.payload|, operation.sentBytes)));
      if Plausible(written, phase.chunkEnd - operation.sentBytes) {
        LateExcused(operations, delivered, late, interrupted, accepting, calls, phase, written.value);
        CountLate(written.value);
      }
      phase := Returning(op, CancelledResult(|operation.payload|, operation.sentBytes));
    }

    /** An honest answer is credited, and the write goes on unless the scheduler has stopped accepting. */
    method Credit(count: nat)
      requires Valid() && phase.Calling? && phase.op < |operations| && !operations[phase.op].Settled()
      requires 0 < count <= phase.chunkEnd - operations[phase.op].sentBytes && phase.chunkEnd <= |operations[phase.op].payload|
      modifies `phase, `operations, `outstandingBytes, `delivered, `wire
      ensures Valid() && Extends(old(Now()), Now())
      ensures var k, o := old(phase.op), old(operations[phase.op]);
              && operations == old(operations)[k := o.(sentBytes := o.sentBytes + count)]
              && wire == old(wire) + o.payload[o.sentBytes..o.sentBytes + count]
              && phase == (if !accepting then Returning(k, CancelledResult(|o.payload|, o.sentBytes + count)) else Ready(k, old(phase.chunkEnd)))
    {
      hide Balanced, GoodCall, OnlyOpen, Excused, InFlight, WokenIdle;
      ActiveInRange();
      var op, chunkEnd, operation := phase.op, phase.chunkEnd, operations[phase.op];
      OpenNotExcused(operations, delivered, late, interrupted, accepting, calls, op);
      Count(count);
      NothingExcused(operations, delivered, accepting, calls);
      phase := if !accepting then Returning(op, CancelledResult(|operation.payload|, operation.sentBytes + count)) else Ready(op, chunkEnd);
      NotInFlight(operations, interrupted, calls, phase);
    }

    ghost method CountLate(count: nat)
      requires Books(activeOperation) && activeOperation.Some? && activeOperation.value < |operations| && activeOperation.value !in late
      requires var o := operations[activeOperation.value]; o.Settled() && count <= chunkBytes && o.sentBytes + count <= |o.payload|
      modifies `delivered, `wire, `late
      ensures Books(activeOperation) && late == old(late) + {activeOperation.value} && |old(delivered)| == |operations|
      ensures delivered == old(delivered)[activeOperation.value := operations[activeOperation.value].sentBytes + count]
      ensures wire == old(wire) + operations[activeOperation.value].payload[operations[activeOperation.value].sentBytes..][..count]
    {
      hide Balanced, GoodCall;
      ActiveInRange();
      var op := activeOperation.value;
      var o := operations[op];
      LateKeeps(Accounts(), op, chunkBytes, count);
      delivered, late, wire := delivered[op := delivered[op] + count], late + {op}, wire + o.payload[o.sentBytes..o.sentBytes + count];
      assert Accounts() == TookLate(old(Accounts()), op, count);
    }

    /** Credits what the driver took. */
    method Count(count: nat)
      requires Books(activeOperation) && Closed() && activeOperation.Some? && activeOperation.value < |operations|
      requires var o := operations[activeOperation.value]; !o.Settled() && o.sentBytes + count <= |o.payload|
      modifies `operations, `outstandingBytes, `delivered, `wire
      ensures Books(activeOperation) && Closed() && Extends(old(Now()), Now())
      ensures var op := activeOperation.value;
              && operations == old(operations)[op := old(operations[op]).(sentBytes := old(operations[op]).sentBytes + count)]
              && wire == old(wire) + old(operations[op]).payload[old(operations[op]).sentBytes..old(operations[op]).sentBytes + count]
    {
      hide Balanced, GoodCall, OnlyOpen;
      ActiveInRange();
      var op := activeOperation.value;
      var operation := operations[op];
      var sent := operation.sentBytes;
      var progressed := operation.(sentBytes := sent + count);
      ProgressKeeps(Accounts(), op, chunkBytes, count);
      OpenKeeps(closing, operations, op, progressed);
      operations := operations[op := progressed];
      outstandingBytes := outstandingBytes - count;
      delivered := delivered[op := delivered[op] + count];
      wire := wire + operation.payload[sent..sent + count];
      assert Accounts() == Progress(old(Accounts()), op, count);
    }

    method DriverThrew()
      requires Valid() && phase.Calling?
      modifies `phase
      ensures Valid() && Now() == old(Now()) && old(phase.op) < |operations|
      ensures phase == Returning(old(phase.op), Broken(accepting, |operations[old(phase.op)].payload|, operations[old(phase.op)].sentBytes))
      ensures Stopped(phase.result, operations[old(phase.op)].sentBytes, accepting)
    {
      hide Balanced, GoodCall;
      ActiveInRange();
      var operation := operations[phase.op];
      phase := Returning(phase.op, Broken(accepting, |operation.payload|, operation.sentBytes));
    }

    /** The drain loop resumes with the write's result. */
    method FinishOperation()
      requires Valid() && phase.Returning?
      modifies this
      ensures Valid() && Extends(old(Now()), Now())
      ensures old(phase.op < |operations|)
      ensures operations == (if old(operations[phase.op]).Settled() then old(operations)
                             else old(operations)[old(phase.op) := old(operations[phase.op]).(result := Some(old(phase.result)))])
      ensures TakesUp(operations, old(queue), queue, phase) && interrupted == old(interrupted)
    {
      hide Balanced, GoodCall, OnlyOpen;
      ActiveInRange();
      var op, result := phase.op, phase.result;
      if !operations[op].Settled() {
        OpenKeeps(closing, operations, op, operations[op].(result := Some(result)));
        Settle(op, result);
      }
      ActiveDoneKeeps(Accounts(), op, chunkBytes);
      NextOperation();
    }

    /** Gives an operation its one result and takes it off the account. */
    method Settle(op: nat, result: Result)
      requires Books(activeOperation) && op < |operations| && (!operations[op].Settled() ==> operations[op].Fits(result))
      modifies `operations, `outstandingOperations, `outstandingBytes, `settlements
      ensures Books(activeOperation) && Extends(old(Now()), Now())
      ensures operations == (if old(operations[op]).Settled() then old(operations)
                             else old(operations)[op := old(operations[op]).(result := Some(result))])
    {
      hide Balanced, GoodCall;
      if operations[op].Settled() { return; }
      SettleKeeps(Accounts(), activeOperation, chunkBytes, op, result);
      var remaining := |operations[op].payload| - operations[op].sentBytes;
      // The account covers the operation, so the floors of zero never act.
      assert outstandingBytes - remaining >= 0 && outstandingOperations - 1 >= 0;
      operations := operations[op := operations[op].(result := Some(result))];
      outstandingBytes := Max(0, outstandingBytes - remaining);
      outstandingOperations := Max(0, outstandingOperations - 1);
      settlements := settlements[op := settlements[op] + 1];
      assert Accounts() == Settled(old(Accounts()), op, result);
    }

    // ----- shutdown

    method StopAccepting()
      requires Valid()
      modifies `accepting, `queue, `operations, `outstandingOperations, `outstandingBytes, `settlements
      ensures Books(activeOperation) && Control() && Excusable() && Extends(old(Now()), Now()) && !accepting && queue == []
      ensures CancelledUnsent(old(operations), operations, old(queue)) && (old(queue) == [] ==> operations == old(operations))
    {
      hide Books, Control, CancelledUnsent, Excused, InFlight, WokenIdle;
      ActiveNotQueued();
      InterruptedClosed();
      accepting := false;
      SettleQueued();
      ShutdownExcused(old(operations), operations, delivered, late, interrupted, old(accepting), calls, phase, old(queue));
    }

    /** Stops admission and settles everything queued; waits for the active operation if there is one. */
    method BeginShutdown() returns (done: bool)
      requires Valid()
      modifies this
      ensures Valid() && Extends(old(Now()), Now()) && !accepting && queue == []
      ensures CancelledUnsent(old(operations), operations, old(queue)) && phase == old(phase) && interrupted == old(interrupted)
      ensures done ==> outstandingOperations == 0 && outstandingBytes == 0 && closing == old(closing)
      ensures !done ==> activeOperation.Some? && closing == old(closing) + [activeOperation.value]
    {
      hide Balanced, GoodCall, Control, CancelledUnsent, Excused, InFlight, WokenIdle, Extends;
      assert closing != [] ==> closing[0] in closing;
      StopAccepting();
      BalancedOrder(Accounts(), activeOperation, chunkBytes);
      if activeOperation.None? || operations[activeOperation.value].Settled() {
        NothingOpen(Accounts(), activeOperation, chunkBytes);
        return true;
      }
      closing := closing + [activeOperation.value];
      return false;
    }

    /** Settles the queued operations as cancelled, oldest first. */
    method SettleQueued()
      requires Books(activeOperation) && Control()
      modifies `queue, `operations, `outstandingOperations, `outstandingBytes, `settlements
      ensures Books(activeOperation) && Control() && Extends(old(Now()), Now()) && queue == []
      ensures CancelledUnsent(old(operations), operations, old(queue))
      ensures old(queue) == [] ==> operations == old(operations)
    {
      hide Books, Control, Extends, CancelledUnsent;
      ExtendsSelf(Now());
      QueueAscends();
      NothingCancelled(operations);
      ghost var taken, whole := 0, queue;
      while |queue| > 0
        invariant Books(activeOperation) && Control() && Extends(old(Now()), Now())
        invariant 0 <= taken <= |whole| && queue == whole[taken..]
        invariant CancelledUnsent(old(operations), operations, whole[..taken])
        invariant taken == 0 ==> operations == old(operations)
        decreases |queue|
      {
        ghost var before, earlier := Now(), operations;
        assert whole[taken] !in whole[..taken];
        CancelHead();
        CancelNext(old(operations), earlier, whole[..taken], whole[taken]);
        assert whole[..taken + 1] == whole[..taken] + [whole[taken]];
        taken := taken + 1;
        ExtendsTransitive(old(Now()), before, Now());
      }
      assert whole[..taken] == whole;
    }

    method CancelHead()
      requires Books(activeOperation) && Control() && queue != []
      modifies `queue, `operations, `outstandingOperations, `outstandingBytes, `settlements
      ensures Books(activeOperation) && Control() && Extends(old(Now()), Now()) && queue == old(queue)[1..]
      ensures old(queue[0]) < |old(operations)|
      ensures operations == CancelOne(old(operations), old(queue[0]))
    {
      hide Balanced, GoodCall, Extends;
      var queued := queue[0];
      BalancedOrder(Accounts(), activeOperation, chunkBytes);
      BalancedAt(Accounts(), activeOperation, chunkBytes, queued);
      Settle(queued, CancelledResult(|operations[queued].payload|, 0));
      DequeueKeeps(Accounts(), activeOperation, chunkBytes);
      queue := queue[1..];
    }

    lemma InterruptedClosed()
      requires Closed() && Excusable()
      ensures interrupted.Some? ==> queue == []
    {
    }

    lemma ActiveNotQueued()
      requires Books(activeOperation) && Control()
      ensures phase.Calling? ==> phase.op !in queue && phase.op < |operations|
      ensures activeOperation.Some? ==> activeOperation.value !in queue && activeOperation.value < |operations|
    {
      hide Unsettled, UnsentBytes, Wire, Tables, Told;
    }

    /** Operations are queued in the order of their admission, so none is queued twice. */
    lemma QueueAscends()
      requires Books(activeOperation)
      ensures forall i, j | 0 <= i < j < |queue| :: queue[i] < queue[j]
    {
      hide Unsettled, UnsentBytes, Wire, Tables, Told;
    }

    /** The grace timer of a shutdown fires: its operation is settled even though the driver may still work on it. */
    method GraceExpired(index: nat)
      requires Valid() && index < |closing|
      modifies `closing, `operations, `outstandingOperations, `outstandingBytes, `settlements, `interrupted
      ensures Valid() && Extends(old(Now()), Now())
      ensures outstandingOperations == 0 && outstandingBytes == 0
      ensures closing == old(closing)[..index] + old(closing)[index + 1..]
      ensures old(closing[index]) < |old(operations)|
      ensures interrupted == if !old(operations[closing[index]]).Settled() && phase.Calling? then Some(phase.op) else old(interrupted)
      ensures var k := old(closing[index]);
              var o := old(operations)[k];
              operations == if o.Settled() then old(operations)
                            else old(operations)[k := o.(result := Some(CancelledResult(|o.payload|, o.sentBytes)))]
      ensures interrupted != old(interrupted) ==> old(phase.Calling?) && interrupted == Some(old(phase.op))
    {
      hide Balanced, GoodCall, Excused, InFlight, WokenIdle;
      var active := closing[index];
      assert active in closing && OnlyOpen(operations, active);
      BalancedAt(Accounts(), activeOperation, chunkBytes, active);
      closing := closing[..index] + closing[index + 1..];
      var operation := operations[active];
      assert forall k | k in closing :: k in old(closing) && OnlyOpen(operations, k);
      if !operation.Settled() {
        OpenKeeps(closing, operations, active, operation.(result := Some(CancelledResult(|operation.payload|, operation.sentBytes))));
        CancelActive(active);
      }
      NothingOpen(Accounts(), activeOperation, chunkBytes);
    }

    /** Settles the active operation, and notes it if its driver call is in flight. */
    method CancelActive(active: nat)
      requires Books(activeOperation) && Control() && Excusable() && !accepting && queue == []
      requires active < |operations| && !operations[active].Settled() && OnlyOpen(operations, active)
      modifies `operations, `outstandingOperations, `outstandingBytes, `settlements, `interrupted
      ensures Books(activeOperation) && Control() && Excusable() && Extends(old(Now()), Now())
      ensures var o := old(operations[active]);
              operations == old(operations)[active := o.(result := Some(CancelledResult(|o.payload|, o.sentBytes)))]
      ensures interrupted == if phase.Calling? then Some(phase.op) else old(interrupted)
    {
      hide Balanced, GoodCall, Excused, InFlight, Extends, OnlyOpen;
      var operation := operations[active];
      BalancedOrder(Accounts(), activeOperation, chunkBytes);
      BalancedAt(Accounts(), activeOperation, chunkBytes, active);
      OpenNotExcused(operations, delivered, late, interrupted, accepting, calls, active);
      if phase.Calling? {
        GraceExcuses(operations, delivered, calls, phase, active);
        Settle(active, CancelledResult(|operation.payload|, operation.sentBytes));
        interrupted := Some(active);
      } else {
        Settle(active, CancelledResult(|operation.payload|, operation.sentBytes));
        NothingExcused(operations, delivered, accepting, calls);
        NotInFlight(operations, interrupted, calls, phase);
      }
    }

    /** A waiting shutdown learns that its operation has settled. */
    method ShutdownCompleted(index: nat)
      requires Valid() && index < |closing| && closing[index] < |operations| && operations[closing[index]].Settled()
      modifies `closing
      ensures Valid() && Now() == old(Now())
      ensures outstandingOperations == 0 && outstandingBytes == 0
      ensures closing == old(closing)[..index] + old(closing)[index + 1..]
    {
      hide Balanced, GoodCall;
      assert closing[index] in closing && OnlyOpen(operations, closing[index]);
      NothingOpen(Accounts(), activeOperation, chunkBytes);
      closing := closing[..index] + closing[index + 1..];
    }

    // ----- waiting for idleness

    predicate IsIdle()
      reads `queue, `activeOperation, `draining
    {
      |queue| == 0 && activeOperation.None? && !draining
    }

    method WaitForIdle(aborted: bool) returns (r: IdleWait)
      requires Valid()
      modifies `idleWaiters, `nextWaiter, `woken
      ensures Valid() && Now() == old(Now())
      ensures r.Idle? <==> old(queue == [] && activeOperation.None? && !draining)
      ensures r.AlreadyAborted? <==> !r.Idle? && aborted
      ensures idleWaiters == old(idleWaiters) + if r.Waiting? then {r.waiter} else {}
    {
      hide Balanced, GoodCall;
      if IsIdle() { return Idle; }
      if aborted { return AlreadyAborted; }
      r := Waiting(nextWaiter);
      idleWaiters, nextWaiter := idleWaiters + {nextWaiter}, nextWaiter + 1;
      ResolveIdleWaiters();
    }

    method AbortWaiter(waiter: nat)
      requires Valid()
      modifies `idleWaiters
      ensures Valid() && Now() == old(Now()) && idleWaiters == old(idleWaiters) - {waiter}
    {
      hide Balanced, GoodCall;
      idleWaiters := idleWaiters - {waiter};
    }

    /** Wakes every waiter, but only when nothing is queued or in flight. */
    method ResolveIdleWaiters()
      requires WokenIdle()
      modifies `idleWaiters, `woken
      ensures idleWaiters == (if IsIdle() then {} else old(idleWaiters)) && WokenIdle()
    {
      if !IsIdle() || idleWaiters == {} { return; }
      woken := woken + [IsIdle()];
      idleWaiters := {};
    }

    // ----- whole runs

    /** One step of whatever comes next; a step that is not enabled does nothing. */
    method Perform(event: Event)
      requires Valid()
      modifies this
      ensures Valid() && Extends(old(Now()), Now())
      // Only an expired grace makes an exception, and only of the operation whose call is in flight.
      ensures interrupted != old(interrupted) ==> event.Grace? && old(phase.Calling?) && interrupted == Some(old(phase.op))
    {
      hide Books, Closed, Control, WokenIdle, Extends;
      ExtendsSelf(Now());
      match event {
        case Submit(payload, authorized) =>
          var ticket := Enqueue(payload, authorized);
        case Start(authorized, throws) =>
          if phase.Starting? { StartOperation(authorized, throws); }
        case Call(authorized) =>
          if phase.Ready? { BeginCall(authorized); }
        case Return(written) =>
          if phase.Calling? { DriverReturned(written); }
        case Throw =>
          if phase.Calling? { DriverThrew(); }
        case Resume =>
          if phase.Returning? { FinishOperation(); }
        case Shutdown =>
          var done := BeginShutdown();
        case Grace(index) =>
          if index < |closing| { GraceExpired(index); }
        case Observe(index) =>
          if index < |closing| && closing[index] < |operations| && operations[closing[index]].Settled() { ShutdownCompleted(index); }
        case Wait(aborted) =>
          var r := WaitForIdle(aborted);
        case Abort(waiter) =>
          AbortWaiter(waiter);
      }
    }
  }

  /** The grace of a shutdown expires in this run. */
  predicate GraceAmong(events: seq<Event>) {
    exists j :: 0 <= j < |events| && events[j].Grace?
  }

  /** Any continuation extends the history; after a shutdown it admits nothing and starts no driver call. */
  method Continue(s: SerialWriteScheduler, events: seq<Event>)
    requires s.Valid()
    modifies s
    ensures s.Valid() && Extends(old(s.Now()), s.Now())
    ensures s.interrupted != old(s.interrupted) ==> GraceAmong(events)
  {
    hide Extends;
    ExtendsSelf(s.Now());
    for i := 0 to |events|
      invariant s.Valid() && Extends(old(s.Now()), s.Now())
      invariant s.interrupted != old(s.interrupted) ==> GraceAmong(events)
    {
      ghost var before := s.Now();
      s.Perform(events[i]);
      ExtendsTransitive(old(s.Now()), before, s.Now());
    }
  }

  // ----- what a step does to the accounts

  lemma BalancedAt(b: Book, active: Option<nat>, chunkBytes: nat, k: nat)
    requires Balanced(b, active, chunkBytes) && k < |b.operations|
    ensures |b.operations| == |b.payloads| == |b.delivered| == |b.settlements|
    ensures b.operations[k].Valid() && b.operations[k].payload == b.payloads[k]
    ensures k !in b.late ==> b.delivered[k] == b.operations[k].sentBytes
    ensures !b.operations[k].Settled() ==> k !in b.late
  {
    hide Unsettled, UnsentBytes, Wire;
  }

  lemma NothingCancelled(operations: seq<Operation>)
    ensures CancelledUnsent(operations, operations, [])
  {
  }

  /** The active operation is in the tables; the head of the queue has not been touched. */
  lemma BalancedOrder(b: Book, active: Option<nat>, chunkBytes: nat)
    requires Balanced(b, active, chunkBytes)
    ensures active.Some? ==> active.value < |b.operations|
    ensures b.queue != [] ==> b.queue[0] < |b.operations| && b.operations[b.queue[0]].sentBytes == 0 && active != Some(b.queue[0])
    ensures b.queue == [] ==> forall i | 0 <= i < |b.operations| :: b.operations[i].Settled() || active == Some(i)
  {
    hide Unsettled, UnsentBytes, Wire, Tables, Told;
  }

  lemma NothingOpen(b: Book, active: Option<nat>, chunkBytes: nat)
    requires Balanced(b, active, chunkBytes) && forall i | 0 <= i < |b.operations| :: b.operations[i].Settled()
    ensures b.openOperations == 0 && b.openBytes == 0
  {
    AllSettled(b.operations);
  }

  lemma DequeueKeeps(b: Book, active: Option<nat>, chunkBytes: nat)
    requires Balanced(b, active, chunkBytes) && b.queue != []
    ensures b.queue[0] < |b.operations|
    ensures b.operations[b.queue[0]].Settled() ==> Balanced(b.(queue := b.queue[1..]), active, chunkBytes)
    ensures active.None? ==> Balanced(b.(queue := b.queue[1..]), if b.operations[b.queue[0]].Settled() then None else Some(b.queue[0]), chunkBytes)
  {
    hide Unsettled, UnsentBytes, Wire, Tables, Told;
  }

  lemma ActiveDoneKeeps(b: Book, k: nat, chunkBytes: nat)
    requires Balanced(b, Some(k), chunkBytes) && k < |b.operations| && b.operations[k].Settled()
    ensures Balanced(b, None, chunkBytes)
  {
    hide Unsettled, UnsentBytes, Wire, Tables, Told;
  }

  lemma AdmitKeeps(b: Book, active: Option<nat>, chunkBytes: nat, payload: seq<byte>)
    requires Balanced(b, active, chunkBytes) && payload != []
    ensures Balanced(Admit(b, payload), active, chunkBytes)
  {
    hide Unsettled, UnsentBytes, Wire;
    AppendSums(b.operations, Operation(payload, 0, None));
    WireAdmits(b.payloads, b.delivered, payload);
    AdmitTables(b, payload);
    AdmitOrdered(b, active, payload);
    AdmitTold(b, chunkBytes, payload);
  }

  lemma AdmitTables(b: Book, payload: seq<byte>)
    requires Tables(b.operations, b.payloads, b.settlements) && payload != []
    ensures Tables(b.operations + [Operation(payload, 0, None)], b.payloads + [payload], b.settlements + [0])
  {
  }

  lemma AdmitOrdered(b: Book, active: Option<nat>, payload: seq<byte>)
    requires Ordered(b.operations, b.queue, active, b.delivered)
    ensures Ordered(b.operations + [Operation(payload, 0, None)], b.queue + [|b.operations|], active, b.delivered + [0])
  {
  }

  lemma AdmitTold(b: Book, chunkBytes: nat, payload: seq<byte>)
    requires Told(b.operations, b.delivered, b.late, chunkBytes)
    ensures Told(b.operations + [Operation(payload, 0, None)], b.delivered + [0], b.late, chunkBytes)
  {
  }

  lemma CallsKeep(calls: seq<DriverCall>, payloads: seq<seq<byte>>, chunkBytes: nat, payload: seq<byte>)
    requires forall c | c in calls :: GoodCall(c, payloads, chunkBytes)
    ensures forall c | c in calls :: GoodCall(c, payloads + [payload], chunkBytes)
  {
  }

  lemma ProgressKeeps(b: Book, k: nat, chunkBytes: nat, count: nat)
    requires Balanced(b, Some(k), chunkBytes) && k < |b.operations| && !b.operations[k].Settled()
    requires b.operations[k].sentBytes + count <= |b.operations[k].payload|
    ensures Balanced(Progress(b, k, count), Some(k), chunkBytes)
  {
    hide Unsettled, UnsentBytes, Wire;
    BalancedAt(b, Some(k), chunkBytes, k);
    UpdateSums(b.operations, k, b.operations[k].(sentBytes := b.operations[k].sentBytes + count));
    WireGrows(b.payloads, b.delivered, k, count);
  }

  lemma LateKeeps(b: Book, k: nat, chunkBytes: nat, count: nat)
    requires Balanced(b, Some(k), chunkBytes) && k < |b.operations| && b.operations[k].Settled() && k !in b.late
    requires count <= chunkBytes && b.operations[k].sentBytes + count <= |b.operations[k].payload|
    ensures Balanced(TookLate(b, k, count), Some(k), chunkBytes)
  {
    hide Unsettled, UnsentBytes, Wire;
    BalancedAt(b, Some(k), chunkBytes, k);
    WireGrows(b.payloads, b.delivered, k, count);
  }

  /** Settling takes exactly one open operation and its unsent bytes off the account, which covers both. */
  lemma SettleKeeps(b: Book, active: Option<nat>, chunkBytes: nat, k: nat, result: Result)
    requires Balanced(b, active, chunkBytes) && k < |b.operations| && !b.operations[k].Settled() && b.operations[k].Fits(result)
    ensures |b.settlements| == |b.operations| && b.operations[k].Valid()
    ensures Balanced(Settled(b, k, result), active, chunkBytes)
    ensures Settled(b, k, result).openOperations >= 0 && Settled(b, k, result).openBytes >= 0
  {
    hide Unsettled, UnsentBytes, Wire;
    BalancedAt(b, active, chunkBytes, k);
    UpdateSums(b.operations, k, b.operations[k].(result := Some(result)));
  }

  /** What a result says of its operation, and that nothing is cancelled while the scheduler accepts. */
  predicate Truthful(o: Operation, r: Result, accepting: bool) {
    && r.requestedBytes == |o.payload| && r.sentBytes == o.sentBytes
    && (r.outcome == Complete <==> r.error == NoError) && (r.outcome == Complete ==> r.sentBytes == |o.payload|)
    && (r.outcome == Cancelled <==> r.error == CancelledError) && (r.outcome == Cancelled ==> !accepting)
    && (r.error == PartialWrite || r.error == SecurityDenied <==> r.outcome == (if r.sentBytes > 0 then Partial else Failed))
  }

  /**
   * Every interleaving.  Whatever the callers, the gate, the driver and the timers do: the wire carries one prefix of
   * each admitted payload, in admission order, with nothing repeated or skipped; every driver call lies in one block and
   * starts while the scheduler accepts; the counters are exact and within their limits; an operation settles at most
   * once, and truthfully, but for the one whose call was in flight when the shutdown grace expired; every one has when
   * the drain loop sleeps or no shutdown is pending any more; and waiters are only woken when the scheduler is idle.
   */
  method Run(maxOperations: nat, maxQueuedBytes: nat, chunkBytes: nat, events: seq<Event>) returns (s: SerialWriteScheduler)
    requires 0 < maxOperations && 0 < maxQueuedBytes && 0 < chunkBytes
    ensures s.Valid() && fresh(s)
    ensures |s.payloads| == |s.operations| == |s.delivered| == |s.settlements|
    ensures (forall i | 0 <= i < |s.payloads| :: s.delivered[i] <= |s.payloads[i]|) && s.wire == Wire(s.payloads, s.delivered)
    ensures forall i | 0 <= i < |s.operations| ::
              && s.operations[i].payload == s.payloads[i] && s.operations[i].Valid()
              && s.settlements[i] == (if s.operations[i].Settled() then 1 else 0)
              && (s.delivered[i] == s.operations[i].sentBytes || (i in s.late && s.interrupted == Some(i)))
    ensures Excused(s.operations, s.delivered, s.late, s.interrupted, s.accepting, s.calls)
    ensures s.interrupted.Some? ==> GraceAmong(events)
    ensures forall i | 0 <= i < |s.operations| && s.operations[i].Settled() :: Truthful(s.operations[i], s.operations[i].result.value, s.accepting)
    ensures forall c | c in s.calls :: GoodCall(c, s.payloads, chunkBytes)
    ensures s.phase.Asleep? || (!s.accepting && s.closing == []) ==> EachSettled(s.operations)
    ensures s.outstandingOperations == Unsettled(s.operations) <= maxOperations
    ensures AllValid(s.operations) && s.outstandingBytes == UnsentBytes(s.operations) <= maxQueuedBytes
    ensures forall w | w in s.woken :: w
  {
    hide Truthful, Excused, InFlight, Uncancelled, Balanced, GoodCall;
    s := new SerialWriteScheduler(maxOperations, maxQueuedBytes, chunkBytes);
    Continue(s, events);
    BalancedTables(s.Accounts(), s.activeOperation, chunkBytes);
    BalancedOrder(s.Accounts(), s.activeOperation, chunkBytes);
    BalancedSums(s.Accounts(), s.activeOperation, chunkBytes);
    AllTruthful(s.operations, s.accepting, s.phase);
    OnlyInterrupted(s.operations, s.delivered, s.late, s.interrupted, s.accepting, s.calls);
  }

  lemma AllTruthful(operations: seq<Operation>, accepting: bool, phase: Phase)
    requires AllValid(operations) && Uncancelled(operations, accepting, phase)
    ensures forall i | 0 <= i < |operations| && operations[i].Settled() :: Truthful(operations[i], operations[i].result.value, accepting)
  {
  }

  lemma OnlyInterrupted(operations: seq<Operation>, delivered: seq<nat>, late: set<nat>, interrupted: Option<nat>, accepting: bool,
                        calls: seq<DriverCall>)
    requires Excused(operations, delivered, late, interrupted, accepting, calls)
    ensures forall i | i in late :: interrupted == Some(i)
  {
  }

  lemma BalancedSums(b: Book, active: Option<nat>, chunkBytes: nat)
    requires Balanced(b, active, chunkBytes)
    ensures AllValid(b.operations) && b.openOperations == Unsettled(b.operations) && b.openBytes == UnsentBytes(b.operations)
    ensures b.wire == Wire(b.payloads, b.delivered)
  {
    hide Unsettled, UnsentBytes, Wire;
  }

  lemma BalancedTables(b: Book, active: Option<nat>, chunkBytes: nat)
    requires Balanced(b, active, chunkBytes)
    ensures |b.payloads| == |b.operations| == |b.delivered| == |b.settlements|
    ensures forall i | 0 <= i < |b.operations| ::
              && b.operations[i].payload == b.payloads[i] && b.operations[i].Valid() && b.delivered[i] <= |b.payloads[i]|
              && b.settlements[i] == (if b.operations[i].Settled() then 1 else 0)
              && (b.delivered[i] == b.operations[i].sentBytes || i in b.late)
  {
    hide Unsettled, UnsentBytes, Wire;
  }
}
