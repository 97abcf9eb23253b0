/** The traffic parser as a whole: both directions, either transport, and the table of open requests share one clock. */
module McumgrSmp {
  import C = Console
  import Correlation
  import R = RawUart
  import opened Wrappers

  class McumgrSmpParser {
    const txConsole: C.ConsoleDecoder
    const rxConsole: C.ConsoleDecoder
    const txRaw: R.RawUartDecoder
    const rxRaw: R.RawUartDecoder
    const requests: Correlation.Correlator

    ghost predicate Valid()
      reads txConsole, rxConsole, txRaw, rxRaw, requests
    {
      && txConsole != rxConsole && txRaw != rxRaw
      && txConsole.Valid() && rxConsole.Valid() && txRaw.Valid() && rxRaw.Valid() && requests.Valid()
    }

    constructor (maxPacketBytes: nat, reassemblyTimeoutMs: int)
      requires 8 <= maxPacketBytes && 1 <= reassemblyTimeoutMs
      ensures Valid() && fresh(txConsole) && fresh(rxConsole) && fresh(txRaw) && fresh(rxRaw) && fresh(requests)
    {
      txConsole := new C.ConsoleDecoder(maxPacketBytes, reassemblyTimeoutMs);
      rxConsole := new C.ConsoleDecoder(maxPacketBytes, reassemblyTimeoutMs);
      txRaw := new R.RawUartDecoder(maxPacketBytes, reassemblyTimeoutMs);
      rxRaw := new R.RawUartDecoder(maxPacketBytes, reassemblyTimeoutMs);
      requests := new Correlation.Correlator();
    }

    /** Something has waited too long at time `now`: a console packet or line, a raw packet, or a request. */
    ghost predicate Due(now: int)
      reads txConsole, rxConsole, txRaw, rxRaw, requests
    {
      || ConsoleDue(txConsole, now) || ConsoleDue(rxConsole, now) || RawDue(txRaw, now) || RawDue(rxRaw, now)
      || exists k :: 0 <= k < |requests.pendingRequests| && requests.pendingRequests[k].expiresAt <= now
    }

    ghost predicate ConsoleDue(c: C.ConsoleDecoder, now: int)
      reads c
    {
      c.NextExpiry().Some? && c.NextExpiry().value <= now
    }

    ghost predicate RawDue(r: R.RawUartDecoder, now: int)
      reads r
    {
      r.rawBuffer != [] && now - r.rawLastTimestamp >= r.reassemblyTimeoutMs
    }

    /** The announced time is exactly the first at which anything is due. */
    method NextExpiryTimestamp() returns (next: Option<int>)
      requires Valid()
      ensures next.Some? ==> Due(next.value)
      ensures forall now | Due(now) :: next.Some? && next.value <= now
    {
      hide C.ConsoleDecoder.NextExpiry, C.ConsoleDecoder.Valid, R.RawUartDecoder.Valid, Correlation.Correlator.Valid;
      next := None;
      next := EarlierConsole(next, txConsole.NextExpiry());
      if |txRaw.rawBuffer| > 0 { next := Earlier(next, txRaw.rawLastTimestamp + txRaw.reassemblyTimeoutMs); }
      next := EarlierConsole(next, rxConsole.NextExpiry());
      if |rxRaw.rawBuffer| > 0 { next := Earlier(next, rxRaw.rawLastTimestamp + rxRaw.reassemblyTimeoutMs); }
      var pending := requests.NextExpiry();
      if pending.Some? { next := Earlier(next, pending.value); }
    }

    /** Flushing does something exactly when something is due, and otherwise leaves everything as it is. */
    method FlushExpired(now: int) returns (faults: nat)
      requires Valid()
      modifies txConsole, rxConsole, txRaw, rxRaw, requests
      ensures Valid()
      ensures old(Due(now)) <==> faults > 0 || requests.pendingRequests != old(requests.pendingRequests)
      ensures !old(Due(now)) ==>
                && ConsoleKept(txConsole) && ConsoleKept(rxConsole) && RawKept(txRaw) && RawKept(rxRaw)
                && requests.records == old(requests.records)
    {
      hide C.ConsoleDecoder.NextExpiry, C.ConsoleDecoder.Valid, R.RawUartDecoder.Valid, R.RawUartDecoder.Decoded,
           Correlation.Correlator.Valid, Correlation.Alive, Correlation.Preserved, C.ConsoleDecoder.PartialLine, R.Messages;
      var a := txConsole.FlushExpired(now);
      var b := txRaw.FlushExpired(now);
      var c := rxConsole.FlushExpired(now);
      var d := rxRaw.FlushExpired(now);
      Correlation.AliveAll(requests.pendingRequests, now);
      requests.ExpirePendingRequests(now);
      faults := |a| + |b| + |c| + |d|;
    }

    twostate predicate ConsoleKept(c: C.ConsoleDecoder)
      reads c
    {
      && c.lineBuffer == old(c.lineBuffer) && c.console == old(c.console) && c.lineLastTimestamp == old(c.lineLastTimestamp)
      && c.heard == old(c.heard) && c.base == old(c.base) && c.since == old(c.since)
    }

    twostate predicate RawKept(r: R.RawUartDecoder)
      reads r
    {
      && r.rawBuffer == old(r.rawBuffer) && r.rawLastTimestamp == old(r.rawLastTimestamp) && r.epoch == old(r.epoch)
      && r.stream == old(r.stream) && r.log == old(r.log)
    }

    static function Earlier(current: Option<int>, candidate: int): (r: Option<int>)
      ensures r.Some? && r.value <= candidate && (current.Some? ==> r.value <= current.value)
      ensures r.value == candidate || r == current
    {
      if current.None? || candidate < current.value then Some(candidate) else current
    }

    static function EarlierConsole(current: Option<int>, candidate: Option<int>): Option<int> {
      if candidate.Some? then Earlier(current, candidate.value) else current
    }
  }
}
