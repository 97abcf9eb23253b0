/** Which request a response answers, said of the records alone: no table, no order of bookkeeping. */
module CorrelationRuns {
  import opened Bytes
  import opened Wrappers
  import opened Correlation

  /** Read response to read request, write response to write request, and all else equal but the direction. */
  predicate Matches(request: Record, response: Record) {
    && (request.header.op, response.header.op) in {(0, 1), (2, 3)}
    && request.header.sequence == response.header.sequence && request.header.group == response.header.group
    && request.header.command == response.header.command && request.direction != response.direction
  }

  /** The time of record n has not reached the deadline of request i. */
  predicate InTime(input: seq<Record>, n: nat, i: nat) {
    n < |input| && i < |input| && input[n].timestamp < input[i].timestamp + 30_000
  }

  /**
   * Request i still waits when record n arrives: nothing in between has answered it, none came at or after its deadline,
   * and no request in between found 255 newer ones waiting.
   */
  ghost predicate Waits(input: seq<Record>, answers: seq<Option<nat>>, n: nat, i: nat)
    decreases n, 0
  {
    && i < n <= |input| && n <= |answers| && input[i].header.op in {0, 2}
    && (forall j | i < j < n :: answers[j] != Some(i) && InTime(input, j, i))
    && forall k | i < k < n && input[k].header.op in {0, 2} :: |Newer(input, answers, k, i)| < 255
  }

  /** The requests after i that still wait when request k has arrived, and are in time for it. */
  ghost function Newer(input: seq<Record>, answers: seq<Option<nat>>, k: nat, i: nat): set<nat>
    decreases k, 1
  {
    set m | i < m < k && Waits(input, answers, k, m) && InTime(input, k, m)
  }

  /** The oldest request that waits, is in time and matches; no answer without one. */
  ghost predicate RightAnswer(input: seq<Record>, answers: seq<Option<nat>>, j: nat)
    requires j < |input| == |answers|
  {
    var could := (i: nat) => i < j && Waits(input, answers, j, i) && InTime(input, j, i) && Matches(input[i], input[j]);
    match answers[j]
    case None => forall i: nat :: !could(i)
    case Some(i) => could(i) && forall earlier: nat | earlier < i :: !could(earlier)
  }

  // ----- the table says the same

  predicate Ascending(pending: seq<PendingRequest>) {
    forall k, l | 0 <= k < l < |pending| :: pending[k].record < pending[l].record
  }

  /** The table of a prefix: requests of the prefix in order, with their deadlines. */
  predicate Shaped(input: seq<Record>, n: nat, pending: seq<PendingRequest>) {
    && n <= |input| && Ascending(pending)
    && forall k | 0 <= k < |pending| ::
         pending[k].record < n && pending[k].expiresAt == input[pending[k].record].timestamp + 30_000
  }

  lemma {:induction false} AliveHas(pending: seq<PendingRequest>, now: int)
    requires Ascending(pending)
    ensures var alive := Alive(pending, now);
            && Ascending(alive) && |alive| <= |pending|
            && (forall p :: p in alive <==> p in pending && now < p.expiresAt)
  {
    if pending != [] {
      var rest := pending[1..];
      AliveHas(rest, now);
      var alive, later := Alive(pending, now), Alive(rest, now);
      assert pending == [pending[0]] + rest;
      forall k, l | 0 <= k < l < |alive| ensures alive[k].record < alive[l].record {
        if alive != later {
          assert alive == [pending[0]] + later;
          if k == 0 { assert later[l - 1] in rest; }
        }
      }
    }
  }

  lemma {:induction false} WithoutHas(pending: seq<PendingRequest>, id: nat)
    requires Ascending(pending)
    ensures var left := WithoutRecord(pending, Some(id));
            Ascending(left) && |left| <= |pending| && forall p :: p in left <==> p in pending && p.record != id
  {
    if pending != [] {
      var rest := pending[1..];
      assert pending == [pending[0]] + rest;
      if pending[0].record == id {
        assert forall p | p in rest :: p.record != id;
      } else {
        WithoutHas(rest, id);
        var left, later := WithoutRecord(pending, Some(id)), WithoutRecord(rest, Some(id));
        assert left == [pending[0]] + later;
        forall k, l | 0 <= k < l < |left| ensures left[k].record < left[l].record {
          if k == 0 { assert later[l - 1] in rest; }
        }
      }
    }
  }

  /** The records of the table behind position p are as many as there are positions. */
  lemma {:induction false} CountBehind(pending: seq<PendingRequest>, p: nat) returns (behind: set<nat>)
    requires Ascending(pending) && p < |pending|
    ensures |behind| == |pending| - 1 - p
    ensures forall m: nat :: m in behind <==> m > pending[p].record && Recorded(pending, m)
    decreases |pending| - p
  {
    hide Ascending, Recorded;
    if p == |pending| - 1 {
      behind := {};
      forall m: nat ensures m > pending[p].record ==> !Recorded(pending, m) { NothingBehind(pending, m); }
    } else {
      var rest := CountBehind(pending, p + 1);
      behind := rest + {pending[p + 1].record};
      forall m: nat ensures m in behind <==> m > pending[p].record && Recorded(pending, m) { NextBehind(pending, p, m); }
    }
  }

  predicate Recorded(pending: seq<PendingRequest>, m: nat) {
    exists k :: 0 <= k < |pending| && pending[k].record == m
  }

  lemma NothingBehind(pending: seq<PendingRequest>, m: nat)
    requires Ascending(pending) && pending != []
    ensures m > pending[|pending| - 1].record ==> !Recorded(pending, m)
  {
  }

  lemma NextBehind(pending: seq<PendingRequest>, p: nat, m: nat)
    requires Ascending(pending) && p + 1 < |pending|
    ensures m > pending[p].record && Recorded(pending, m)
            <==> m == pending[p + 1].record || (m > pending[p + 1].record && Recorded(pending, m))
  {
  }

  lemma {:induction false} FirstHas(records: seq<Record>, pending: seq<PendingRequest>, response: Record)
    requires Ascending(pending)
    ensures match FirstEligible(records, pending, response)
            case None => forall p | p in pending :: !Eligible(records, p, response)
            case Some(i) =>
              && (exists p :: p in pending && p.record == i && Eligible(records, p, response))
              && forall p | p in pending && p.record < i :: !Eligible(records, p, response)
  {
    hide Eligible;
    if pending != [] {
      var rest := pending[1..];
      assert pending == [pending[0]] + rest;
      FirstHas(records, rest, response);
    }
  }

  predicate InTable(pending: seq<PendingRequest>, i: nat) {
    exists p :: p in pending && p.record == i
  }

  /** One record later. */
  lemma WaitsNext(input: seq<Record>, answers: seq<Option<nat>>, n: nat, i: nat)
    requires n < |input| && n < |answers|
    ensures i < n ==>
              (Waits(input, answers, n + 1, i) <==>
                && Waits(input, answers, n, i) && answers[n] != Some(i) && InTime(input, n, i)
                && (input[n].header.op in {0, 2} ==> |Newer(input, answers, n, i)| < 255))
    ensures i == n ==> (Waits(input, answers, n + 1, i) <==> input[n].header.op in {0, 2})
    ensures i > n ==> !Waits(input, answers, n + 1, i)
  {
    hide InTime;
  }

  /** The answers so far are those of the table. */
  predicate FromTable(input: seq<Record>, answers: seq<Option<nat>>, n: nat) {
    n <= |input| && n <= |answers| && forall j | 0 <= j < n :: answers[j] == AnswerOf(input, j)
  }

  ghost predicate SaysWho(input: seq<Record>, answers: seq<Option<nat>>, n: nat, pending: seq<PendingRequest>) {
    Shaped(input, n, pending) && forall i: nat :: InTable(pending, i) <==> Waits(input, answers, n, i)
  }

  lemma {:induction false} TableSays(input: seq<Record>, answers: seq<Option<nat>>, n: nat)
    requires FromTable(input, answers, n)
    ensures SaysWho(input, answers, n, OpenAfter(input[..n]))
    decreases n
  {
    hide Waits, AnswerOf, Alive, NewestRequests, WithoutRecord, SaysWho, FirstEligible;
    if n == 0 {
      NobodyWaits(input, answers);
    } else {
      var m := n - 1;
      TableSays(input, answers, m);
      assert input[..n][..m] == input[..m];
      var open, alive := OpenAfter(input[..m]), Alive(OpenAfter(input[..m]), input[m].timestamp);
      AliveSays(input, answers, m, open);
      if IsRequest(input[m]) {
        AnswerIs(input, m);
        RequestSays(input, answers, m, alive);
      } else if IsResponse(input[m]) {
        AnswerIs(input, m);
        ResponseSays(input, answers, m, alive);
      } else {
        AnswerIs(input, m);
        OtherSays(input, answers, m, alive);
      }
    }
  }

  lemma AnswerIs(input: seq<Record>, j: nat)
    requires j < |input|
    ensures AnswerOf(input, j) ==
            if IsResponse(input[j]) then FirstEligible(input[..j], Alive(OpenAfter(input[..j]), input[j].timestamp), input[j]) else None
  {
  }

  lemma NobodyWaits(input: seq<Record>, answers: seq<Option<nat>>)
    ensures SaysWho(input, answers, 0, OpenAfter(input[..0]))
  {
  }

  /** Those in time for record n. */
  ghost predicate SaysWhoInTime(input: seq<Record>, answers: seq<Option<nat>>, n: nat, alive: seq<PendingRequest>) {
    && n < |input| && Shaped(input, n, alive)
    && forall i: nat :: InTable(alive, i) <==> Waits(input, answers, n, i) && InTime(input, n, i)
  }

  lemma AliveSays(input: seq<Record>, answers: seq<Option<nat>>, n: nat, open: seq<PendingRequest>)
    requires n < |input| && SaysWho(input, answers, n, open)
    ensures SaysWhoInTime(input, answers, n, Alive(open, input[n].timestamp))
  {
    hide Waits, Alive;
    var alive := Alive(open, input[n].timestamp);
    AliveHas(open, input[n].timestamp);
    forall k | 0 <= k < |alive|
      ensures alive[k].record < n && alive[k].expiresAt == input[alive[k].record].timestamp + 30_000
    {
      assert alive[k] in open;
    }
    forall i: nat ensures InTable(alive, i) <==> InTable(open, i) && InTime(input, n, i) {
      if InTable(open, i) && InTime(input, n, i) {
        var p :| p in open && p.record == i;
        assert p in alive;
      }
    }
  }

  /** A request joins, and the oldest goes if 255 others wait behind it. */
  lemma RequestSays(input: seq<Record>, answers: seq<Option<nat>>, n: nat, alive: seq<PendingRequest>)
    requires SaysWhoInTime(input, answers, n, alive) && n < |answers| && IsRequest(input[n]) && answers[n].None?
    ensures SaysWho(input, answers, n + 1, NewestRequests(alive + [Expecting(n, input[n])]))
  {
    hide Waits, InTime, Newer;
    var all := alive + [Expecting(n, input[n])];
    var kept := NewestRequests(all);
    assert Shaped(input, n + 1, all);
    assert Shaped(input, n + 1, kept);
    forall i: nat ensures InTable(kept, i) <==> Waits(input, answers, n + 1, i) {
      WaitsNext(input, answers, n, i);
      if InTable(kept, i) { KeptWereThere(alive, Expecting(n, input[n]), i); }
      if i < n {
        if InTable(alive, i) {
          var p := PositionOf(alive, i);
          NewerBehind(input, answers, n, alive, p);
          KeptFrom(all, p);
          assert all[p].record == i;
        }
      } else if i == n {
        KeptFrom(all, |alive|);
        assert all[|alive|].record == n;
      }
    }
  }

  lemma KeptWereThere(alive: seq<PendingRequest>, last: PendingRequest, i: nat)
    requires InTable(NewestRequests(alive + [last]), i)
    ensures InTable(alive, i) || i == last.record
  {
    var q :| q in NewestRequests(alive + [last]) && q.record == i;
    assert q in alive + [last];
  }

  lemma PositionOf(pending: seq<PendingRequest>, i: nat) returns (p: nat)
    requires InTable(pending, i)
    ensures p < |pending| && pending[p].record == i
  {
    var q :| q in pending && q.record == i;
    p :| 0 <= p < |pending| && pending[p] == q;
  }

  /** The newest 256 stay. */
  lemma KeptFrom(all: seq<PendingRequest>, p: nat)
    requires Ascending(all) && p < |all|
    ensures InTable(NewestRequests(all), all[p].record) <==> |all| - 1 - p < 256
  {
    var cut := Max(0, |all| - 256);
    assert NewestRequests(all) == all[cut..];
    if p >= cut {
      assert all[cut..][p - cut] == all[p];
    } else {
      assert forall k | cut <= k < |all| :: all[k].record > all[p].record;
    }
  }

  lemma NewerBehind(input: seq<Record>, answers: seq<Option<nat>>, n: nat, alive: seq<PendingRequest>, p: nat)
    requires SaysWhoInTime(input, answers, n, alive) && p < |alive|
    ensures |Newer(input, answers, n, alive[p].record)| == |alive| - 1 - p
  {
    hide Waits, InTime;
    var behind := CountBehind(alive, p);
    var i := alive[p].record;
    forall m: nat ensures m in behind <==> m in Newer(input, answers, n, i) {
      assert Recorded(alive, m) <==> InTable(alive, m);
    }
    assert behind == Newer(input, answers, n, i);
  }

  /** The request that is answered leaves. */
  lemma ResponseSays(input: seq<Record>, answers: seq<Option<nat>>, n: nat, alive: seq<PendingRequest>)
    requires SaysWhoInTime(input, answers, n, alive) && n < |answers| && IsResponse(input[n])
    ensures SaysWho(input, answers, n + 1, WithoutRecord(alive, answers[n]))
  {
    hide Waits, InTime, WithoutRecord;
    var left := WithoutRecord(alive, answers[n]);
    if answers[n].Some? { WithoutHas(alive, answers[n].value); } else { WithoutNobody(alive); }
    StillShaped(input, n, alive, left);
    forall i: nat ensures InTable(left, i) <==> Waits(input, answers, n + 1, i) {
      WaitsNext(input, answers, n, i);
      if InTable(alive, i) && answers[n] != Some(i) {
        var p :| p in alive && p.record == i;
        assert p in left;
      }
    }
  }

  lemma WithoutNobody(pending: seq<PendingRequest>)
    ensures WithoutRecord(pending, None) == pending
  {
  }

  lemma StillShaped(input: seq<Record>, n: nat, pending: seq<PendingRequest>, left: seq<PendingRequest>)
    requires n < |input| && Shaped(input, n, pending) && Ascending(left) && forall p | p in left :: p in pending
    ensures Shaped(input, n + 1, left)
  {
    forall k | 0 <= k < |left|
      ensures left[k].record < n + 1 && left[k].expiresAt == input[left[k].record].timestamp + 30_000
    {
      assert left[k] in pending;
    }
  }

  lemma OtherSays(input: seq<Record>, answers: seq<Option<nat>>, n: nat, alive: seq<PendingRequest>)
    requires SaysWhoInTime(input, answers, n, alive) && n < |answers| && !IsResponse(input[n]) && !IsRequest(input[n]) && answers[n].None?
    ensures SaysWho(input, answers, n + 1, alive)
  {
    hide Waits, InTime;
    forall i: nat ensures InTable(alive, i) <==> Waits(input, answers, n + 1, i) {
      WaitsNext(input, answers, n, i);
    }
  }

  /** What the table answers is right. */
  lemma AnswerIsRight(input: seq<Record>, answers: seq<Option<nat>>, j: nat)
    requires FromTable(input, answers, |input|) && |answers| == |input| && j < |input|
    ensures RightAnswer(input, answers, j)
  {
    hide Waits, InTime, Alive, FirstEligible, AnswerOf;
    TableSays(input, answers, j);
    AnswerIs(input, j);
    var alive := Alive(OpenAfter(input[..j]), input[j].timestamp);
    AliveSays(input, answers, j, OpenAfter(input[..j]));
    if IsResponse(input[j]) {
      FirstHas(input[..j], alive, input[j]);
      forall i: nat | i < j && InTable(alive, i)
        ensures forall p | p in alive && p.record == i :: Eligible(input[..j], p, input[j]) <==> Matches(input[i], input[j])
      {
      }
      if answers[j].Some? {
        var p :| p in alive && p.record == answers[j].value && Eligible(input[..j], p, input[j]);
        assert InTable(alive, p.record);
      }
    }
  }

  /**
   * Every run of records: a response is given the oldest request that waits for it, is in time and matches, and none if
   * there is none; and the table holds those that still wait when all has been seen.
   */
  method CorrelateRun(input: seq<Record>) returns (c: Correlator, ghost answers: seq<Option<nat>>)
    requires forall r | r in input :: Fresh(r)
    ensures c.Valid() && Preserved(input, c.records) && |answers| == |input| == |c.records|
    ensures forall j | 0 <= j < |input| :: c.records[j].requestId == answers[j] && RightAnswer(input, answers, j)
    ensures forall i: nat :: Outstanding(c.pendingRequests, i) <==> Waits(input, answers, |input|, i)
    ensures Linked(c.records) && Settled(c.records, c.pendingRequests) && AllConsistent(c.records)
  {
    hide Waits, AnswerOf, RightAnswer, Preserved, SaysWho, OpenAfter;
    c := CorrelateAll(input);
    PreservedSize(input, c.records);
    answers := seq(|input|, j requires 0 <= j < |input| => AnswerOf(input, j));
    forall j | 0 <= j < |input| ensures RightAnswer(input, answers, j) {
      AnswerIsRight(input, answers, j);
    }
    TableSays(input, answers, |input|);
    assert input[..|input|] == input;
    WhoIsOutstanding(input, answers, |input|, c.pendingRequests);
  }

  lemma WhoIsOutstanding(input: seq<Record>, answers: seq<Option<nat>>, n: nat, pending: seq<PendingRequest>)
    requires SaysWho(input, answers, n, pending)
    ensures forall i: nat :: Outstanding(pending, i) <==> Waits(input, answers, n, i)
  {
    hide Waits;
    forall i: nat ensures Outstanding(pending, i) <==> InTable(pending, i) {
      if InTable(pending, i) { var p := PositionOf(pending, i); }
    }
  }
}
