/** Pairing SMP requests with their responses through a bounded table with expiry. */
module Correlation {
  import opened Bytes
  import opened Wrappers

  const DEFAULT_SMP_MAX_PENDING_REQUESTS: nat := 256
  const DEFAULT_SMP_REQUEST_TIMEOUT_MS: int := 30_000

  datatype Direction = TX | RX

  datatype Header = Header(op: nat, sequence: nat, group: nat, command: nat)

  datatype Status = Ok | Warning | Error | Pending

  /** A decoded record; `own` is the status its own diagnostics give it. */
  datatype Record = Record(
    direction: Direction, timestamp: int, header: Header, own: Status, status: Status,
    requestId: Option<nat>, responseId: Option<nat>, rttMs: Option<int>, unmatched: bool, orphan: bool)

  datatype PendingRequest = PendingRequest(record: nat, expectedOp: nat, expiresAt: int)

  function ExpectedResponseOp(op: nat): Option<nat> {
    if op == 0 then Some(1) else if op == 2 then Some(3) else None
  }

  predicate IsRequest(r: Record) {
    r.header.op == 0 || r.header.op == 2
  }

  predicate IsResponse(r: Record) {
    r.header.op == 1 || r.header.op == 3
  }

  /** A warning on top of what the record's own diagnostics say. */
  function Warned(own: Status): Status {
    if own == Error then Error else Warning
  }

  predicate Fresh(r: Record) {
    && r.own != Pending && r.status == r.own && r.requestId.None? && r.responseId.None? && r.rttMs.None?
    && !r.unmatched && !r.orphan
  }

  /** The response answers the request: opposite direction, read or write both, same sequence, group and command. */
  predicate Answers(request: Record, response: Record) {
    && request.direction != response.direction
    && ((request.header.op == 0 && response.header.op == 1) || (request.header.op == 2 && response.header.op == 3))
    && request.header.sequence == response.header.sequence
    && request.header.group == response.header.group && request.header.command == response.header.command
  }

  /** Time from request to response; clocks running backwards count as zero. */
  function RoundTrip(request: Record, response: Record): int {
    Max(0, response.timestamp - request.timestamp)
  }

  /** What a record shows follows from what became of it. */
  predicate Consistent(r: Record) {
    && (r.orphan <==> IsResponse(r) && r.requestId.None?)
    && (r.requestId.Some? ==> IsResponse(r)) && (r.responseId.Some? || r.unmatched ==> IsRequest(r))
    && (r.rttMs.Some? <==> r.requestId.Some? || r.responseId.Some?)
    && r.status == (if r.unmatched || r.orphan then if r.own == Error then Error else Warning
                    else if IsRequest(r) && r.responseId.None? && r.own == Ok then Pending
                    else r.own)
  }

  predicate AllConsistent(records: seq<Record>) {
    forall i | 0 <= i < |records| :: Consistent(records[i])
  }

  predicate Pair(request: Record, response: Record) {
    && Answers(request, response)
    && request.rttMs == response.rttMs
    && request.rttMs == Some(if response.timestamp < request.timestamp then 0 else response.timestamp - request.timestamp)
  }

  /** Identifiers are positions in the table; links are mutual and only join what belongs together. */
  predicate Linked(records: seq<Record>) {
    && (forall i | 0 <= i < |records| && records[i].responseId.Some? ::
          var j := records[i].responseId.value;
          j < |records| && records[j].requestId == Some(i) && Pair(records[i], records[j]))
    && (forall j | 0 <= j < |records| && records[j].requestId.Some? ::
          var i := records[j].requestId.value;
          i < |records| && records[i].responseId == Some(j))
  }

  predicate Outstanding(pending: seq<PendingRequest>, i: nat) {
    exists k :: 0 <= k < |pending| && pending[k].record == i
  }

  /** Each request is exactly one of outstanding, answered and unmatched; nothing else is any of them. */
  predicate Settled(records: seq<Record>, pending: seq<PendingRequest>) {
    forall i | 0 <= i < |records| ::
      var r := records[i];
      if IsRequest(r) then
        if Outstanding(pending, i) then r.responseId.None? && !r.unmatched
        else r.responseId.Some? != r.unmatched
      else r.responseId.None? && !r.unmatched && !Outstanding(pending, i)
  }

  /** The pending table lists requests in the order of their admission, oldest first. */
  predicate Queued(records: seq<Record>, pending: seq<PendingRequest>) {
    && (forall k | 0 <= k < |pending| ::
          var p := pending[k];
          && p.record < |records| && ExpectedResponseOp(records[p.record].header.op) == Some(p.expectedOp)
          && p.expiresAt == records[p.record].timestamp + DEFAULT_SMP_REQUEST_TIMEOUT_MS)
    && forall k, l | 0 <= k < l < |pending| :: pending[k].record < pending[l].record
  }

  predicate Sound(records: seq<Record>, pending: seq<PendingRequest>) {
    Linked(records) && Settled(records, pending) && Queued(records, pending) && AllConsistent(records)
  }

  /** What a removed request becomes: answered by nobody. */
  function MarkUnmatched(r: Record): Record {
    r.(unmatched := true, status := Warned(r.own))
  }

  class Correlator {
    var records: seq<Record>
    var pendingRequests: seq<PendingRequest>

    ghost predicate Valid()
      reads this
    {
      Sound(records, pendingRequests) && |pendingRequests| <= DEFAULT_SMP_MAX_PENDING_REQUESTS
    }

    constructor ()
      ensures Valid() && records == [] && pendingRequests == []
    {
      records, pendingRequests := [], [];
    }

    /** The earliest time at which expiry has something to do. */
    method NextExpiry() returns (next: Option<int>)
      ensures next.None? <==> pendingRequests == []
      ensures next.Some? ==> (forall k | 0 <= k < |pendingRequests| :: next.value <= pendingRequests[k].expiresAt)
                             && exists k :: 0 <= k < |pendingRequests| && next.value == pendingRequests[k].expiresAt
    {
      next := None;
      for index := 0 to |pendingRequests|
        invariant next.None? <==> index == 0
        invariant next.Some? ==> (forall k | 0 <= k < index :: next.value <= pendingRequests[k].expiresAt)
                                 && exists k :: 0 <= k < index && next.value == pendingRequests[k].expiresAt
      {
        var candidate := pendingRequests[index].expiresAt;
        if next.None? || candidate < next.value { next := Some(candidate); }
      }
    }

    /** Removes the requests whose time has come, newest first, and marks each of them unmatched. */
    method ExpirePendingRequests(now: int)
      requires Valid()
      modifies this
      ensures Valid() && Preserved(old(records), records)
      ensures pendingRequests == Alive(old(pendingRequests), now)
      ensures |pendingRequests| == |old(pendingRequests)| ==> records == old(records) && pendingRequests == old(pendingRequests)
      ensures KeepsAnswers(old(records), records)
    {
      hide Sound, Preserved, Alive, KeepsAnswers;
      PreservedSelf(records);
      AnswersSelf(records);
      NoneAlive(now);
      var index := |pendingRequests| - 1;
      ghost var all, kept: seq<PendingRequest> := pendingRequests, [];
      assert all[..|all|] + [] == all && all[|all|..] == [];
      while index >= 0
        invariant -1 <= index < |all| && Valid() && Preserved(old(records), records) && KeepsAnswers(old(records), records)
        invariant pendingRequests == all[..index + 1] + kept && kept == Alive(all[index + 1..], now)
        invariant |kept| <= |all| - index - 1
        invariant |kept| == |all| - index - 1 ==> records == old(records) && pendingRequests == all
      {
        AliveStep(all, index, now);
        ghost var before := records;
        assert pendingRequests[index] == all[index];
        if pendingRequests[index].expiresAt <= now {
          Removed(all, index, kept);
          Drop(index);
          PreservedTransitive(old(records), before, records);
          AnswersTransitive(old(records), before, records);
        } else {
          assert all[..index] + ([all[index]] + kept) == all[..index + 1] + kept;
          kept := [all[index]] + kept;
        }
        index := index - 1;
      }
      assert all[..0] + kept == kept && all[0..] == all;
    }

    /** Takes one request out of the table as unmatched. */
    method Drop(index: nat)
      requires Valid() && index < |pendingRequests|
      modifies this
      ensures Valid() && Preserved(old(records), records) && KeepsAnswers(old(records), records)
      ensures pendingRequests == old(pendingRequests)[..index] + old(pendingRequests)[index + 1..]
    {
      hide Sound;
      DropKeeps(records, pendingRequests, index);
      var evicted := pendingRequests[index];
      pendingRequests := pendingRequests[..index] + pendingRequests[index + 1..];
      records := records[evicted.record := MarkUnmatched(records[evicted.record])];
    }

    /**
     * Correlates a new record.  A request joins the table, which never holds more than 256; a response takes the
     * oldest outstanding request it answers, or is an orphan.
     */
    method Correlate(record: Record)
      requires Valid() && Fresh(record)
      modifies this
      ensures Valid() && |records| == |old(records)| + 1 && Preserved(old(records) + [record], records)
      ensures IsRequest(record) ==>
                pendingRequests == NewestRequests(Alive(old(pendingRequests), record.timestamp) + [Expecting(|old(records)|, record)])
      ensures IsResponse(record) ==>
                && TakesOldest(old(records), Alive(old(pendingRequests), record.timestamp), record, records[|old(records)|])
                && pendingRequests == WithoutRecord(Alive(old(pendingRequests), record.timestamp), records[|old(records)|].requestId)
      ensures !IsRequest(record) && !IsResponse(record) ==> pendingRequests == Alive(old(pendingRequests), record.timestamp)
      ensures KeepsAnswers(old(records), records) && (!IsResponse(record) ==> records[|old(records)|].requestId.None?)
    {
      hide Sound, Preserved, Alive, TakesOldest, KeepsAnswers;
      ExpirePendingRequests(record.timestamp);
      PreservedAppends(old(records), records, record);
      ghost var aged := records;
      PreservedSize(old(records), aged);
      if ExpectedResponseOp(record.header.op).Some? {
        AdmitRequest(record);
      } else if !IsResponse(record) {
        AppendKeeps(records, pendingRequests, record);
        AnswersAppend(records, record);
        records := records + [record];
        PreservedSelf(records);
      } else {
        TakeResponse(record);
        TakesOldestSame(old(records), aged, pendingRequests, record, records[|records| - 1]);
      }
      PreservedTransitive(old(records) + [record], aged + [record], records);
      AnswersTransitive(old(records), aged, records);
    }

    method AdmitRequest(record: Record)
      requires Valid() && Fresh(record) && IsRequest(record)
      modifies this
      ensures Valid() && |records| == |old(records)| + 1 && Preserved(old(records) + [record], records)
      ensures pendingRequests == NewestRequests(old(pendingRequests) + [Expecting(|old(records)|, record)])
      ensures KeepsAnswers(old(records), records) && records[|old(records)|].requestId.None?
    {
      hide Sound, Preserved, KeepsAnswers;
      var expectedOp := ExpectedResponseOp(record.header.op);
      AdmitKeeps(records, pendingRequests, record);
      pendingRequests := pendingRequests + [PendingRequest(|records|, expectedOp.value, record.timestamp + DEFAULT_SMP_REQUEST_TIMEOUT_MS)];
      AdmittedPreserved(records, record);
      records := records + [Admitted(record)];
      ghost var before := records;
      Evict();
      PreservedTransitive(old(records) + [record], before, records);
      PreservedSize(before, records);
      AnswersAppend(old(records), Admitted(record));
      AnswersTransitive(old(records), before, records);
      AnswersAt(before, records, |old(records)|);
    }

    method TakeResponse(record: Record)
      requires Valid() && Fresh(record) && IsResponse(record)
      modifies this
      ensures Valid() && |records| == |old(records)| + 1 && Preserved(old(records) + [record], records)
      ensures pendingRequests == WithoutRecord(old(pendingRequests), records[|old(records)|].requestId)
      ensures TakesOldest(old(records), old(pendingRequests), record, records[|old(records)|])
      ensures KeepsAnswers(old(records), records)
    {
      hide Sound;
      var matchIndex := FindRequest(record);
      if matchIndex.None? {
        var orphaned := record.(orphan := true, status := Warned(record.own));
        AppendKeeps(records, pendingRequests, orphaned);
        records := records + [orphaned];
        return;
      }
      var id, request := |records|, pendingRequests[matchIndex.value].record;
      var rttMs := Max(0, record.timestamp - records[request].timestamp);
      LinkKeeps(records, pendingRequests, matchIndex.value, record);
      TakenOut(records, pendingRequests, matchIndex.value);
      pendingRequests := pendingRequests[..matchIndex.value] + pendingRequests[matchIndex.value + 1..];
      var answered := records[request].(responseId := Some(id), rttMs := Some(rttMs), status := records[request].own);
      records := records[request := answered] + [record.(requestId := Some(request), rttMs := Some(rttMs))];
    }

    method Evict()
      requires Sound(records, pendingRequests) && 1 <= |pendingRequests| <= DEFAULT_SMP_MAX_PENDING_REQUESTS + 1
      modifies this
      ensures Valid() && Preserved(old(records), records) && KeepsAnswers(old(records), records)
      ensures pendingRequests == NewestRequests(old(pendingRequests))
    {
      hide Sound, Preserved, KeepsAnswers;
      PreservedSelf(records);
      AnswersSelf(records);
      while |pendingRequests| > DEFAULT_SMP_MAX_PENDING_REQUESTS
        invariant Sound(records, pendingRequests) && 1 <= |pendingRequests| <= DEFAULT_SMP_MAX_PENDING_REQUESTS + 1
        invariant Preserved(old(records), records) && KeepsAnswers(old(records), records)
        invariant NewestRequests(pendingRequests) == NewestRequests(old(pendingRequests))
        decreases |pendingRequests|
      {
        DropKeeps(records, pendingRequests, 0);
        var evicted := pendingRequests[0];
        assert pendingRequests[..0] + pendingRequests[1..] == pendingRequests[1..];
        pendingRequests := pendingRequests[1..];
        ghost var before := records;
        MarkPreserves(records, evicted.record);
        records := records[evicted.record := MarkUnmatched(records[evicted.record])];
        PreservedTransitive(old(records), before, records);
        AnswersTransitive(old(records), before, records);
      }
    }

    method FindRequest(response: Record) returns (matchIndex: Option<nat>)
      requires Valid()
      ensures matchIndex.None? ==> forall k | 0 <= k < |pendingRequests| :: !Eligible(records, pendingRequests[k], response)
      ensures matchIndex.Some? ==> matchIndex.value < |pendingRequests| && Eligible(records, pendingRequests[matchIndex.value], response)
      ensures matchIndex.Some? ==> forall k | 0 <= k < matchIndex.value :: !Eligible(records, pendingRequests[k], response)
    {
      hide Linked, Settled;
      for k := 0 to |pendingRequests|
        invariant forall l | 0 <= l < k :: !Eligible(records, pendingRequests[l], response)
      {
        var p := pendingRequests[k];
        var request := records[p.record];
        if request.direction != response.direction && p.expectedOp == response.header.op
           && request.header.sequence == response.header.sequence
           && request.header.group == response.header.group && request.header.command == response.header.command {
          return Some(k);
        }
      }
      return None;
    }
  }

  /** A request as the table notes it. */
  function Expecting(id: nat, request: Record): PendingRequest
    requires IsRequest(request)
  {
    PendingRequest(id, ExpectedResponseOp(request.header.op).value, request.timestamp + DEFAULT_SMP_REQUEST_TIMEOUT_MS)
  }

  /** The table gives up its oldest requests. */
  function NewestRequests(pending: seq<PendingRequest>): seq<PendingRequest> {
    pending[Max(0, |pending| - DEFAULT_SMP_MAX_PENDING_REQUESTS)..]
  }

  function WithoutRecord(pending: seq<PendingRequest>, id: Option<nat>): seq<PendingRequest> {
    if pending == [] || id.None? then pending
    else if pending[0].record == id.value then pending[1..]
    else [pending[0]] + WithoutRecord(pending[1..], id)
  }

  lemma {:induction false} WithoutIndex(records: seq<Record>, pending: seq<PendingRequest>, index: nat)
    requires Queued(records, pending) && index < |pending|
    ensures WithoutRecord(pending, Some(pending[index].record)) == pending[..index] + pending[index + 1..]
  {
    if index > 0 {
      WithoutIndex(records, pending[1..], index - 1);
      assert pending == [pending[0]] + pending[1..];
    }
  }

  lemma TakenOut(records: seq<Record>, pending: seq<PendingRequest>, index: nat)
    requires Sound(records, pending) && index < |pending|
    ensures WithoutRecord(pending, Some(pending[index].record)) == pending[..index] + pending[index + 1..]
  {
    WithoutIndex(records, pending, index);
  }

  predicate Eligible(records: seq<Record>, p: PendingRequest, response: Record) {
    p.record < |records| && Answers(records[p.record], response)
  }

  /** The first request in the table that the response answers is the one it is linked to; without one it is an orphan. */
  predicate TakesOldest(records: seq<Record>, pending: seq<PendingRequest>, response: Record, linked: Record) {
    && linked.orphan == linked.requestId.None?
    && (if linked.requestId.None? then forall k | 0 <= k < |pending| :: !Eligible(records, pending[k], response)
        else exists k :: 0 <= k < |pending| && pending[k].record == linked.requestId.value && Eligible(records, pending[k], response)
                         && forall l | 0 <= l < k :: !Eligible(records, pending[l], response))
  }

  lemma TakesOldestSame(a: seq<Record>, b: seq<Record>, pending: seq<PendingRequest>, response: Record, linked: Record)
    requires Preserved(a, b)
    ensures forall p: seq<PendingRequest> :: TakesOldest(a, p, response, linked) == TakesOldest(b, p, response, linked)
  {
    forall p: PendingRequest ensures Eligible(a, p, response) == Eligible(b, p, response) {
      assert p.record < |a| ==> SameIdentity(a[p.record], b[p.record]);
    }
  }

  /** No response that was linked, or left without a request, is linked otherwise later. */
  predicate KeepsAnswers(a: seq<Record>, b: seq<Record>) {
    |a| <= |b| && forall i | 0 <= i < |a| :: b[i].requestId == a[i].requestId
  }

  lemma AnswersSelf(a: seq<Record>)
    ensures KeepsAnswers(a, a)
  {
  }

  lemma AnswersAppend(a: seq<Record>, r: Record)
    ensures KeepsAnswers(a, a + [r])
  {
  }

  lemma AnswersTransitive(a: seq<Record>, b: seq<Record>, c: seq<Record>)
    requires KeepsAnswers(a, b) && KeepsAnswers(b, c)
    ensures KeepsAnswers(a, c)
  {
  }

  lemma AnswersAt(a: seq<Record>, b: seq<Record>, i: nat)
    requires KeepsAnswers(a, b) && i < |a|
    ensures b[i].requestId == a[i].requestId
  {
  }

  // ----- what a whole run amounts to

  /** The oldest open request that the response answers. */
  function FirstEligible(records: seq<Record>, pending: seq<PendingRequest>, response: Record): Option<nat> {
    if pending == [] then None
    else if Eligible(records, pending[0], response) then Some(pending[0].record)
    else FirstEligible(records, pending[1..], response)
  }

  lemma {:induction false} OldestIsFirst(records: seq<Record>, pending: seq<PendingRequest>, response: Record, linked: Record)
    requires TakesOldest(records, pending, response, linked)
    ensures linked.requestId == FirstEligible(records, pending, response)
  {
    hide Eligible;
    if pending != [] && !Eligible(records, pending[0], response) {
      var rest := pending[1..];
      if linked.requestId.None? {
        assert forall k | 0 <= k < |rest| :: rest[k] == pending[k + 1];
      } else {
        var k :| 0 <= k < |pending| && pending[k].record == linked.requestId.value && Eligible(records, pending[k], response)
                 && forall l | 0 <= l < k :: !Eligible(records, pending[l], response);
        assert rest[k - 1] == pending[k];
        assert forall l | 0 <= l < k - 1 :: rest[l] == pending[l + 1];
      }
      OldestIsFirst(records, rest, response, linked);
    }
  }

  lemma {:induction false} FirstEligibleSame(a: seq<Record>, b: seq<Record>, pending: seq<PendingRequest>, response: Record)
    requires Preserved(a, b)
    ensures FirstEligible(a, pending, response) == FirstEligible(b, pending, response)
  {
    if pending != [] {
      FirstEligibleSame(a, b, pending[1..], response);
      assert pending[0].record < |a| ==> SameIdentity(a[pending[0].record], b[pending[0].record]);
    }
  }

  /** The requests still open after these records have been seen: not answered, not timed out, not crowded out. */
  function OpenAfter(input: seq<Record>): seq<PendingRequest> {
    if input == [] then []
    else
      var n := |input| - 1;
      var alive := Alive(OpenAfter(input[..n]), input[n].timestamp);
      if IsRequest(input[n]) then NewestRequests(alive + [Expecting(n, input[n])])
      else if IsResponse(input[n]) then WithoutRecord(alive, FirstEligible(input[..n], alive, input[n]))
      else alive
  }

  /** The request that record j answers: the oldest one open at its time. */
  function AnswerOf(input: seq<Record>, j: nat): Option<nat>
    requires j < |input|
  {
    if IsResponse(input[j]) then FirstEligible(input[..j], Alive(OpenAfter(input[..j]), input[j].timestamp), input[j]) else None
  }

  /** Links and marks may have come, but the records are the same. */
  predicate Preserved(a: seq<Record>, b: seq<Record>) {
    |a| == |b| && forall i | 0 <= i < |a| :: SameIdentity(a[i], b[i])
  }

  lemma PreservedSelf(a: seq<Record>)
    ensures Preserved(a, a)
  {
  }

  lemma PreservedSize(a: seq<Record>, b: seq<Record>)
    requires Preserved(a, b)
    ensures |a| == |b|
  {
  }

  lemma PreservedTransitive(a: seq<Record>, b: seq<Record>, c: seq<Record>)
    requires Preserved(a, b) && Preserved(b, c)
    ensures Preserved(a, c)
  {
  }

  lemma PreservedAppends(a: seq<Record>, b: seq<Record>, record: Record)
    requires Preserved(a, b)
    ensures Preserved(a + [record], b + [record])
  {
  }

  lemma AdmittedPreserved(a: seq<Record>, record: Record)
    ensures Preserved(a + [record], a + [Admitted(record)])
  {
  }

  lemma MarkPreserves(a: seq<Record>, i: nat)
    requires i < |a|
    ensures Preserved(a, a[i := MarkUnmatched(a[i])])
  {
  }

  /** A request that joins the table shows as pending unless its own diagnostics say worse. */
  function Admitted(record: Record): Record {
    if record.status == Ok then record.(status := Pending) else record
  }

  /** Links and marks may come, but what a record is does not change. */
  predicate SameIdentity(a: Record, b: Record) {
    a.direction == b.direction && a.timestamp == b.timestamp && a.header == b.header && a.own == b.own
  }

  /** The requests that are still waiting at time `now`, in order. */
  function Alive(pending: seq<PendingRequest>, now: int): seq<PendingRequest> {
    if pending == [] then []
    else (if pending[0].expiresAt <= now then [] else [pending[0]]) + Alive(pending[1..], now)
  }

  lemma AliveStep(pending: seq<PendingRequest>, index: nat, now: int)
    requires index < |pending|
    ensures Alive(pending[index..], now) ==
            (if pending[index].expiresAt <= now then [] else [pending[index]]) + Alive(pending[index + 1..], now)
    ensures pending[..index + 1] == pending[..index] + [pending[index]]
  {
    assert pending[index..][1..] == pending[index + 1..];
  }

  /** Expiry has nothing to do exactly while the time is before every deadline, so before the announced next expiry. */
  lemma {:induction false} AliveAll(pending: seq<PendingRequest>, now: int)
    ensures |Alive(pending, now)| <= |pending|
    ensures Alive(pending, now) == pending <==> forall k | 0 <= k < |pending| :: now < pending[k].expiresAt
  {
    if pending != [] {
      AliveAll(pending[1..], now);
      if now < pending[0].expiresAt {
        assert Alive(pending, now)[1..] == Alive(pending[1..], now);
        assert forall k | 0 < k < |pending| :: pending[k] == pending[1..][k - 1];
      }
    }
  }

  /**
   * Every run of records: each response is joined to the oldest request open at its time and to no other, the links are
   * mutual, each request is exactly one of outstanding, answered and unmatched, and the table holds the open requests.
   */
  method CorrelateAll(input: seq<Record>) returns (c: Correlator)
    requires forall r | r in input :: Fresh(r)
    ensures c.Valid() && Preserved(input, c.records) && c.pendingRequests == OpenAfter(input) && |c.pendingRequests| <= 256
    ensures forall j | 0 <= j < |input| :: c.records[j].requestId == AnswerOf(input, j)
    ensures Linked(c.records) && Settled(c.records, c.pendingRequests) && AllConsistent(c.records)
  {
    hide Sound, Preserved, KeepsAnswers, Alive, FirstEligible, AnswerOf, TakesOldest;
    c := new Correlator();
    PreservedSelf([]);
    for i := 0 to |input|
      invariant fresh(c) && c.Valid() && Preserved(input[..i], c.records) && c.pendingRequests == OpenAfter(input[..i])
      invariant Answered(input, i, c.records)
    {
      ghost var before, open := c.records, c.pendingRequests;
      var record := input[i];
      assert input[..i + 1] == input[..i] + [record] && input[..i + 1][..i] == input[..i];
      PreservedAppends(input[..i], before, record);
      PreservedSize(input[..i], before);
      c.Correlate(record);
      PreservedTransitive(input[..i + 1], before + [record], c.records);
      NextAnswer(input, i, before, open, c.records);
    }
    assert input[..|input|] == input;
    PreservedSize(input, c.records);
    SoundParts(c.records, c.pendingRequests);
  }

  predicate Answered(input: seq<Record>, i: nat, records: seq<Record>) {
    i <= |input| && i <= |records| && forall j | 0 <= j < i :: records[j].requestId == AnswerOf(input, j)
  }

  lemma NextAnswer(input: seq<Record>, i: nat, before: seq<Record>, open: seq<PendingRequest>, after: seq<Record>)
    requires i < |input| && Preserved(input[..i], before) && open == OpenAfter(input[..i]) && Answered(input, i, before)
    requires |after| == i + 1 && KeepsAnswers(before, after)
    requires if IsResponse(input[i]) then TakesOldest(before, Alive(open, input[i].timestamp), input[i], after[i]) else after[i].requestId.None?
    ensures Answered(input, i + 1, after)
    ensures IsResponse(input[i]) ==> after[i].requestId == FirstEligible(input[..i], Alive(open, input[i].timestamp), input[i])
  {
    hide Alive, TakesOldest, FirstEligible, OpenAfter;
    if IsResponse(input[i]) {
      OldestIsFirst(before, Alive(open, input[i].timestamp), input[i], after[i]);
      FirstEligibleSame(input[..i], before, Alive(open, input[i].timestamp), input[i]);
    }
  }

  lemma SoundParts(records: seq<Record>, pending: seq<PendingRequest>)
    requires Sound(records, pending)
    ensures Linked(records) && Settled(records, pending) && AllConsistent(records)
  {
  }

  lemma Removed(all: seq<PendingRequest>, index: nat, kept: seq<PendingRequest>)
    requires index < |all|
    ensures var pending := all[..index + 1] + kept;
            pending[..index] + pending[index + 1..] == all[..index] + kept
  {
  }

  lemma NoneAlive(now: int)
    ensures Alive([], now) == []
  {
  }

  // ----- what a step does to the table

  lemma DropKeeps(records: seq<Record>, pending: seq<PendingRequest>, index: nat)
    requires Sound(records, pending) && index < |pending|
    ensures pending[index].record < |records|
    ensures Sound(records[pending[index].record := MarkUnmatched(records[pending[index].record])], pending[..index] + pending[index + 1..])
  {
    var i := pending[index].record;
    var r, p := records[i := MarkUnmatched(records[i])], pending[..index] + pending[index + 1..];
    RemovedOutstanding(records, pending, index);
    LinkedSame(records, i, MarkUnmatched(records[i]));
    assert Queued(r, p);
  }

  /** Taking a request out of the table makes exactly that request no longer outstanding. */
  lemma RemovedOutstanding(records: seq<Record>, pending: seq<PendingRequest>, index: nat)
    requires Queued(records, pending) && index < |pending|
    ensures var p := pending[..index] + pending[index + 1..];
            && Outstanding(pending, pending[index].record)
            && forall i: nat :: Outstanding(p, i) <==> Outstanding(pending, i) && i != pending[index].record
  {
    var p := pending[..index] + pending[index + 1..];
    forall i: nat ensures Outstanding(p, i) <==> Outstanding(pending, i) && i != pending[index].record {
      if Outstanding(p, i) { StillListed(pending, index, i); }
      if Outstanding(pending, i) && i != pending[index].record { ListedElsewhere(pending, index, i); }
    }
  }

  lemma StillListed(pending: seq<PendingRequest>, index: nat, i: nat)
    requires index < |pending| && Outstanding(pending[..index] + pending[index + 1..], i)
    requires forall k, l | 0 <= k < l < |pending| :: pending[k].record < pending[l].record
    ensures Outstanding(pending, i) && i != pending[index].record
  {
    var p := pending[..index] + pending[index + 1..];
    var k :| 0 <= k < |p| && p[k].record == i;
    assert p[k] == pending[if k < index then k else k + 1];
  }

  lemma ListedElsewhere(pending: seq<PendingRequest>, index: nat, i: nat)
    requires index < |pending| && Outstanding(pending, i) && i != pending[index].record
    ensures Outstanding(pending[..index] + pending[index + 1..], i)
  {
    var p := pending[..index] + pending[index + 1..];
    var k :| 0 <= k < |pending| && pending[k].record == i;
    assert p[if k < index then k else k - 1] == pending[k];
  }

  lemma PairSame(a: Record, b: Record, c: Record, d: Record)
    requires Pair(a, b) && SameIdentity(a, c) && SameIdentity(b, d) && c.rttMs == a.rttMs && d.rttMs == b.rttMs
    ensures Pair(c, d)
  {
  }

  lemma LinkedSame(records: seq<Record>, i: nat, changed: Record)
    requires Linked(records) && i < |records| && SameIdentity(records[i], changed)
    requires changed.requestId == records[i].requestId && changed.responseId == records[i].responseId
    requires changed.rttMs == records[i].rttMs
    ensures Linked(records[i := changed])
  {
    hide Pair;
    var after := records[i := changed];
    forall k | 0 <= k < |after| && after[k].responseId.Some?
      ensures var j := after[k].responseId.value; j < |after| && after[j].requestId == Some(k) && Pair(after[k], after[j])
    {
      PairSame(records[k], records[records[k].responseId.value], after[k], after[records[k].responseId.value]);
    }
  }

  lemma AppendKeeps(records: seq<Record>, pending: seq<PendingRequest>, record: Record)
    requires Sound(records, pending) && !IsRequest(record) && record.requestId.None? && Consistent(record)
    ensures Sound(records + [record], pending)
  {
    hide Linked, AllConsistent;
    LinkedAppend(records, record);
    ConsistentAppend(records, record);
  }

  lemma LinkedAppend(records: seq<Record>, record: Record)
    requires Linked(records) && record.requestId.None? && record.responseId.None?
    ensures Linked(records + [record])
  {
    hide Pair;
  }

  lemma AdmitKeeps(records: seq<Record>, pending: seq<PendingRequest>, record: Record)
    requires Sound(records, pending) && IsRequest(record) && Fresh(record)
    ensures Sound(records + [Admitted(record)], pending + [Expecting(|records|, record)])
  {
    hide Linked, Settled, Queued, AllConsistent;
    LinkedAppend(records, Admitted(record));
    SettledAdmit(records, pending, Admitted(record), Expecting(|records|, record));
    QueuedAdmit(records, pending, Admitted(record), Expecting(|records|, record));
    ConsistentAppend(records, Admitted(record));
  }

  lemma ConsistentAppend(records: seq<Record>, record: Record)
    requires AllConsistent(records) && Consistent(record)
    ensures AllConsistent(records + [record])
  {
    hide Consistent;
  }

  lemma SettledAdmit(records: seq<Record>, pending: seq<PendingRequest>, record: Record, entry: PendingRequest)
    requires Settled(records, pending) && Queued(records, pending) && IsRequest(record) && entry.record == |records|
    requires record.responseId.None? && !record.unmatched
    ensures Settled(records + [record], pending + [entry])
  {
    hide IsRequest;
    var p := pending + [entry];
    assert p[|pending|].record == |records|;
    forall i: nat ensures Outstanding(p, i) <==> Outstanding(pending, i) || i == |records| {
      if Outstanding(pending, i) {
        var k :| 0 <= k < |pending| && pending[k].record == i;
        assert p[k].record == i;
      }
    }
    hide Outstanding;
  }

  lemma QueuedAdmit(records: seq<Record>, pending: seq<PendingRequest>, record: Record, entry: PendingRequest)
    requires Queued(records, pending) && IsRequest(record) && entry == Expecting(|records|, record)
    ensures Queued(records + [record], pending + [entry])
  {
  }

  lemma LinkKeeps(records: seq<Record>, pending: seq<PendingRequest>, index: nat, response: Record)
    requires Sound(records, pending) && index < |pending| && Fresh(response) && IsResponse(response)
    requires Eligible(records, pending[index], response)
    ensures var i, id := pending[index].record, |records|;
            var rtt := Some(RoundTrip(records[i], response));
            Sound(records[i := records[i].(responseId := Some(id), rttMs := rtt, status := records[i].own)]
                  + [response.(requestId := Some(i), rttMs := rtt)],
                  pending[..index] + pending[index + 1..])
  {
    hide Linked, Settled, Queued, AllConsistent, Outstanding;
    var i, id := pending[index].record, |records|;
    var p := pending[..index] + pending[index + 1..];
    var rtt := Some(RoundTrip(records[i], response));
    var answered := records[i].(responseId := Some(id), rttMs := rtt, status := records[i].own);
    var linked := response.(requestId := Some(i), rttMs := rtt);
    OpenRequest(records, pending, index);
    RemovedOutstanding(records, pending, index);
    LinkedLinks(records, i, answered, linked);
    SettledLinks(records, pending, p, i, answered, linked);
    QueuedLinks(records, pending, index, answered, linked);
    ConsistentLinks(records, i, answered, linked);
  }

  /** A request in the table has not been answered or given up, and nothing beyond the records is in the table. */
  lemma OpenRequest(records: seq<Record>, pending: seq<PendingRequest>, index: nat)
    requires Sound(records, pending) && index < |pending|
    ensures var i := pending[index].record;
            && i < |records| && IsRequest(records[i]) && records[i].responseId.None? && records[i].requestId.None?
            && !records[i].unmatched && !records[i].orphan && Outstanding(pending, i)
    ensures !Outstanding(pending, |records|)
  {
    hide Linked;
    var i := pending[index].record;
    assert Outstanding(pending, i) && Consistent(records[i]);
  }

  lemma ConsistentLinks(records: seq<Record>, i: nat, answered: Record, linked: Record)
    requires AllConsistent(records) && i < |records| && Consistent(answered) && Consistent(linked)
    ensures AllConsistent(records[i := answered] + [linked])
  {
    hide Consistent;
  }

  lemma LinkedLinks(records: seq<Record>, i: nat, answered: Record, linked: Record)
    requires Linked(records) && i < |records| && records[i].responseId.None? && records[i].requestId.None?
    requires answered.responseId == Some(|records|) && answered.requestId.None? && SameIdentity(records[i], answered)
    requires linked.requestId == Some(i) && linked.responseId.None? && Answers(answered, linked)
    requires answered.rttMs == linked.rttMs == Some(RoundTrip(answered, linked))
    ensures Linked(records[i := answered] + [linked])
  {
  }

  lemma SettledLinks(records: seq<Record>, pending: seq<PendingRequest>, p: seq<PendingRequest>, i: nat, answered: Record, linked: Record)
    requires Settled(records, pending) && i < |records| && Outstanding(pending, i) && IsRequest(records[i])
    requires forall j: nat :: Outstanding(p, j) <==> Outstanding(pending, j) && j != i
    requires !Outstanding(pending, |records|)
    requires answered.responseId.Some? && answered.unmatched == records[i].unmatched && SameIdentity(records[i], answered)
    requires linked.responseId.None? && !linked.unmatched && IsResponse(linked)
    ensures Settled(records[i := answered] + [linked], p)
  {
    hide Outstanding;
  }

  lemma QueuedLinks(records: seq<Record>, pending: seq<PendingRequest>, index: nat, answered: Record, linked: Record)
    requires Queued(records, pending) && index < |pending| && SameIdentity(records[pending[index].record], answered)
    ensures Queued(records[pending[index].record := answered] + [linked], pending[..index] + pending[index + 1..])
  {
  }
}
