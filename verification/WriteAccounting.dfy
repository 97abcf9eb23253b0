/** The write scheduler's bookkeeping, on values: operations, sums over them, and the bytes on the wire. */
module WriteAccounting {
  import opened Bytes
  import opened Wrappers

  datatype Outcome = Complete | Partial | Failed | Cancelled

  datatype ErrorCode = NoError | InvalidInput | QueueFull | SecurityDenied | PartialWrite | CancelledError

  datatype Result = Result(outcome: Outcome, requestedBytes: nat, sentBytes: nat, error: ErrorCode)

  /** Some of the bytes had been sent, or none. */
  predicate FellShort(r: Result) {
    (r.outcome.Partial? && r.sentBytes > 0) || (r.outcome.Failed? && r.sentBytes == 0)
  }

  function WriteFailure(requested: nat, sent: nat): (r: Result)
    ensures r.requestedBytes == requested && r.sentBytes == sent && FellShort(r) && r.error.PartialWrite?
  {
    Result(if sent > 0 then Partial else Failed, requested, sent, PartialWrite)
  }

  function CancelledResult(requested: nat, sent: nat): (r: Result)
    ensures r.requestedBytes == requested && r.sentBytes == sent && r.outcome.Cancelled? && r.error.CancelledError?
  {
    Result(Cancelled, requested, sent, CancelledError)
  }

  function Denied(requested: nat, sent: nat): (r: Result)
    ensures r.requestedBytes == requested && r.sentBytes == sent && FellShort(r) && r.error.SecurityDenied?
  {
    Result(if sent > 0 then Partial else Failed, requested, sent, SecurityDenied)
  }

  function Completed(requested: nat): (r: Result)
    ensures r.requestedBytes == r.sentBytes == requested && r.outcome.Complete? && r.error.NoError?
  {
    Result(Complete, requested, requested, NoError)
  }

  /** One logical write; it is settled once it has a result. */
  datatype Operation = Operation(payload: seq<byte>, sentBytes: nat, result: Option<Result>) {
    predicate Settled() {
      result.Some?
    }

    predicate Valid() {
      payload != [] && sentBytes <= |payload| && (Settled() ==> Fits(result.value))
    }

    /** The result tells the truth about how much was sent. */
    predicate Fits(r: Result) {
      && r.requestedBytes == |payload| && r.sentBytes == sentBytes
      && match r.outcome
         case Complete => sentBytes == |payload| && r.error.NoError?
         case Partial => sentBytes > 0 && (r.error.PartialWrite? || r.error.SecurityDenied?)
         case Failed => sentBytes == 0 && (r.error.PartialWrite? || r.error.SecurityDenied?)
         case Cancelled => r.error.CancelledError?
    }

    function Open(): nat {
      if Settled() then 0 else 1
    }

    function Remaining(): nat
      requires Valid()
    {
      if Settled() then 0 else |payload| - sentBytes
    }
  }

  predicate AllValid(ops: seq<Operation>) {
    forall i | 0 <= i < |ops| :: ops[i].Valid()
  }

  function Unsettled(ops: seq<Operation>): nat {
    if ops == [] then 0 else Unsettled(ops[..|ops| - 1]) + ops[|ops| - 1].Open()
  }

  function UnsentBytes(ops: seq<Operation>): nat
    requires AllValid(ops)
  {
    if ops == [] then 0 else UnsentBytes(ops[..|ops| - 1]) + ops[|ops| - 1].Remaining()
  }

  lemma {:induction false} UpdateSums(ops: seq<Operation>, i: nat, op: Operation)
    requires i < |ops| && AllValid(ops) && op.Valid()
    ensures AllValid(ops[i := op])
    ensures Unsettled(ops[i := op]) + ops[i].Open() == Unsettled(ops) + op.Open()
    ensures UnsentBytes(ops[i := op]) + ops[i].Remaining() == UnsentBytes(ops) + op.Remaining()
  {
    var n := |ops| - 1;
    if i < n {
      assert ops[i := op][..n] == ops[..n][i := op];
      UpdateSums(ops[..n], i, op);
    } else {
      assert ops[i := op][..n] == ops[..n];
    }
  }

  lemma AppendSums(ops: seq<Operation>, op: Operation)
    requires AllValid(ops) && op.Valid()
    ensures AllValid(ops + [op])
    ensures Unsettled(ops + [op]) == Unsettled(ops) + op.Open()
    ensures UnsentBytes(ops + [op]) == UnsentBytes(ops) + op.Remaining()
  {
    assert (ops + [op])[..|ops|] == ops;
  }

  lemma {:induction false} SumsCover(ops: seq<Operation>, i: nat)
    requires i < |ops| && AllValid(ops)
    ensures Unsettled(ops) >= ops[i].Open() && UnsentBytes(ops) >= ops[i].Remaining()
  {
    if i < |ops| - 1 {
      SumsCover(ops[..|ops| - 1], i);
    }
  }

  lemma {:induction false} AllSettled(ops: seq<Operation>)
    requires AllValid(ops) && forall i | 0 <= i < |ops| :: ops[i].Settled()
    ensures Unsettled(ops) == 0 && UnsentBytes(ops) == 0
  {
    if ops != [] {
      AllSettled(ops[..|ops| - 1]);
    }
  }

  /** Everything the driver took: one prefix of each payload, in admission order. */
  function Wire(payloads: seq<seq<byte>>, delivered: seq<nat>): seq<byte>
    requires |payloads| == |delivered| && forall i | 0 <= i < |payloads| :: delivered[i] <= |payloads[i]|
  {
    if payloads == [] then []
    else
      var n := |payloads| - 1;
      Wire(payloads[..n], delivered[..n]) + payloads[n][..delivered[n]]
  }

  /** Extending the prefix of the last payload that has started extends the wire. */
  lemma {:induction false} WireGrows(payloads: seq<seq<byte>>, delivered: seq<nat>, k: nat, count: nat)
    requires k < |payloads| == |delivered| && forall i | 0 <= i < |payloads| :: delivered[i] <= |payloads[i]|
    requires delivered[k] + count <= |payloads[k]| && forall i | k < i < |payloads| :: delivered[i] == 0
    ensures var longer := delivered[k := delivered[k] + count];
            Wire(payloads, longer) == Wire(payloads, delivered) + payloads[k][delivered[k]..delivered[k] + count]
  {
    var n := |payloads| - 1;
    var longer := delivered[k := delivered[k] + count];
    if k < n {
      assert longer[..n] == delivered[..n][k := delivered[k] + count];
      WireGrows(payloads[..n], delivered[..n], k, count);
      assert payloads[n][..0] == [];
      assert Wire(payloads, longer) == Wire(payloads[..n], longer[..n]);
      assert Wire(payloads, delivered) == Wire(payloads[..n], delivered[..n]);
    } else {
      assert longer[..n] == delivered[..n];
      assert payloads[n][..longer[n]] == payloads[n][..delivered[n]] + payloads[n][delivered[n]..longer[n]];
    }
  }

  lemma WireAdmits(payloads: seq<seq<byte>>, delivered: seq<nat>, payload: seq<byte>)
    requires |payloads| == |delivered| && forall i | 0 <= i < |payloads| :: delivered[i] <= |payloads[i]|
    ensures Wire(payloads + [payload], delivered + [0]) == Wire(payloads, delivered)
  {
    var p, d := payloads + [payload], delivered + [0];
    assert p[..|payloads|] == payloads && d[..|payloads|] == delivered;
  }
}
