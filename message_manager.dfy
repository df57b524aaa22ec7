/** `MessageManager`, its sequential part: a keyed table of message entries,
    each counting the acknowledgements and failures reported for it, and the
    classification of an entry as succeeded, failed or still waiting. */
module Messaging {

  import opened Bits

  /** `StatusResult`. */
  datatype StatusResult = MsgTimeout | MsgSuccess | MsgFailure

  /** `ReportedResult`. */
  datatype ReportedResult = ResultSuccess | ResultFailure

  /** `detail::MsgEntry`: the two fixed targets, the two counters and the
      payload. */
  datatype MsgEntry<M> = MsgEntry(needed: uint32, threshold: uint32, acks: uint32, failures: uint32, msg: M)

  /** An entry as the `MsgEntry` constructors make it: no responses yet. */
  function NewEntry<M>(needed: uint32, threshold: uint32, msg: M): (e: MsgEntry<M>)
    ensures e.acks == 0 && e.failures == 0
    ensures e.needed == needed && e.threshold == threshold && e.msg == msg
  {
    MsgEntry(needed, threshold, 0, 0, msg)
  }

  /** `incrementNumAcknowledgementsReceived` / `incrementNumFailuresReceived`
      as selected by `updateMessageStatus`: one counter goes up by one
      (wrapping as `uint32_t`), and nothing else in the entry changes. The
      node id is not used. */
  function Report<M>(e: MsgEntry<M>, reported: ReportedResult): (r: MsgEntry<M>)
    ensures r.needed == e.needed && r.threshold == e.threshold && r.msg == e.msg
    ensures reported == ResultSuccess ==> r.acks == Add32(e.acks, 1) && r.failures == e.failures
    ensures reported == ResultFailure ==> r.failures == Add32(e.failures, 1) && r.acks == e.acks
  {
    match reported
    case ResultSuccess => e.(acks := Add32(e.acks, 1))
    case ResultFailure => e.(failures := Add32(e.failures, 1))
  }

  /** The wait's resolution test as intended: every needed response has
      arrived. The sum is a `uint32_t` sum. */
  predicate Resolved<M>(e: MsgEntry<M>)
  {
    Add32(e.acks, e.failures) >= e.needed
  }

  /** The wait's predicate as written: true while responses are still
      missing, the opposite of the resolution test. */
  predicate ResolvedAsWritten<M>(e: MsgEntry<M>)
  {
    e.needed > Add32(e.acks, e.failures)
  }

  /** `MsgEntry::waitOnMessage` with the resolution test as intended, in a
      model without other threads: the counters cannot change during the
      wait, so `wait_for` yields the predicate on the current counters.
      A resolved entry succeeds iff its acknowledgements reach the
      threshold; an unresolved one times out. */
  function WaitOutcome<M>(e: MsgEntry<M>): (r: StatusResult)
    ensures r == MsgTimeout <==> !Resolved(e)
    ensures r == MsgSuccess <==> Resolved(e) && e.acks >= e.threshold
    ensures r == MsgFailure <==> Resolved(e) && e.acks < e.threshold
  {
    if Resolved(e) then (if e.acks >= e.threshold then MsgSuccess else MsgFailure)
    else MsgTimeout
  }

  /** `MsgEntry::waitOnMessage` as written: the classification computed from
      the inverted predicate. (As written the function also never returns
      the value it computes.) */
  function WaitOutcomeAsWritten<M>(e: MsgEntry<M>): (r: StatusResult)
    ensures r == MsgTimeout <==> !ResolvedAsWritten(e)
  {
    if ResolvedAsWritten(e) then (if e.acks >= e.threshold then MsgSuccess else MsgFailure)
    else MsgTimeout
  }

  /** The inverted predicate yields the wrong outcome both ways: a fresh
      entry waiting for two responses fails at once, and the same entry
      after two acknowledgements times out instead of succeeding. */
  lemma WaitAsWrittenInverted(msg: int)
    ensures WaitOutcomeAsWritten(NewEntry(2, 2, msg)) == MsgFailure
    ensures WaitOutcome(NewEntry(2, 2, msg)) == MsgTimeout
    ensures WaitOutcomeAsWritten(Report(Report(NewEntry(2, 2, msg), ResultSuccess), ResultSuccess)) == MsgTimeout
    ensures WaitOutcome(Report(Report(NewEntry(2, 2, msg), ResultSuccess), ResultSuccess)) == MsgSuccess
  {
  }

  /** An entry after a sequence of reports, applied in order. */
  function ReportAll<M>(e: MsgEntry<M>, reports: seq<ReportedResult>): MsgEntry<M>
    decreases |reports|
  {
    if reports == [] then e else ReportAll(Report(e, reports[0]), reports[1..])
  }

  /** The number of successes in a sequence of reports. */
  function Successes(reports: seq<ReportedResult>): (r: nat)
    ensures r <= |reports|
  {
    if reports == [] then 0
    else (if reports[0] == ResultSuccess then 1 else 0) + Successes(reports[1..])
  }

  /** Short of 2^32 reports, each counter counts its kind of report exactly
      and the targets and payload stay as created. */
  lemma {:induction false} ReportAllCounts<M>(e: MsgEntry<M>, reports: seq<ReportedResult>)
    requires e.acks + e.failures + |reports| < UINT32_LIMIT
    ensures ReportAll(e, reports).acks == e.acks + Successes(reports)
    ensures ReportAll(e, reports).failures == e.failures + |reports| - Successes(reports)
    ensures ReportAll(e, reports).needed == e.needed
    ensures ReportAll(e, reports).threshold == e.threshold
    ensures ReportAll(e, reports).msg == e.msg
    decreases |reports|
  {
    if reports != [] {
      ReportAllCounts(Report(e, reports[0]), reports[1..]);
    }
  }

  /** The life of one registered message: fewer reports than needed leave it
      waiting (timeout); once enough have arrived it succeeds iff the
      successes among them reach the threshold. */
  lemma ClassifyAfterReports<M>(needed: uint32, threshold: uint32, msg: M, reports: seq<ReportedResult>)
    requires |reports| < UINT32_LIMIT
    ensures var r := WaitOutcome(ReportAll(NewEntry(needed, threshold, msg), reports));
      && (r == MsgTimeout <==> |reports| < needed)
      && (r == MsgSuccess <==> |reports| >= needed && Successes(reports) >= threshold)
      && (r == MsgFailure <==> |reports| >= needed && Successes(reports) < threshold)
  {
    ReportAllCounts(NewEntry(needed, threshold, msg), reports);
  }

  /** `MessageManager`: the table `m_MsgTable`. */
  class MessageManager<K(==), M> {
    var table: map<K, MsgEntry<M>>

    /** A manager starts with an empty table. */
    constructor ()
      ensures table == map[]
    {
      table := map[];
    }

    /** `registerMessage(msgId, needed, threshold, msg)`: `emplace` into the
        map, which inserts only an absent key; the result says whether it
        did. */
    method RegisterMessage(msgId: K, numResponsesNeeded: uint32, numSuccessResponsesNeeded: uint32, msg: M)
      returns (inserted: bool)
      modifies this
      ensures inserted <==> msgId !in old(table)
      ensures table == if inserted then old(table)[msgId := NewEntry(numResponsesNeeded, numSuccessResponsesNeeded, msg)]
                       else old(table)
    {
      if msgId in table {
        inserted := false;
      } else {
        table := table[msgId := NewEntry(numResponsesNeeded, numSuccessResponsesNeeded, msg)];
        inserted := true;
      }
    }

    /** `registerMessage(msgId, needed, msg)`: every needed response must be
        a success. */
    method RegisterMessageAllNeeded(msgId: K, numResponsesNeeded: uint32, msg: M) returns (inserted: bool)
      modifies this
      ensures inserted <==> msgId !in old(table)
      ensures table == if inserted then old(table)[msgId := NewEntry(numResponsesNeeded, numResponsesNeeded, msg)]
                       else old(table)
    {
      inserted := RegisterMessage(msgId, numResponsesNeeded, numResponsesNeeded, msg);
    }

    /** `tryRetrieveMessage(msgId, msg_out)`: copies the payload into
        `msg_out` when the key is present; `msgOut` is the caller's value
        and `out` its value afterwards. */
    method TryRetrieveMessage(msgId: K, msgOut: M) returns (found: bool, out: M)
      ensures found <==> msgId in table
      ensures out == if found then table[msgId].msg else msgOut
    {
      found := false;
      out := msgOut;
      if msgId in table {
        out := table[msgId].msg;
        found := true;
      }
    }

    /** `updateMessageStatus(nodeId, msgId, reported)`: bumps one counter of
        a present entry; a no-op on an unknown key. */
    method UpdateMessageStatus<N>(nodeId: N, msgId: K, reported: ReportedResult)
      modifies this
      ensures table == if msgId in old(table) then old(table)[msgId := Report(old(table)[msgId], reported)]
                       else old(table)
    {
      if msgId in table {
        table := table[msgId := Report(table[msgId], reported)];
      }
    }

    /** `removeMessage(msgId)`: erases a present key; a no-op otherwise. */
    method RemoveMessage(msgId: K)
      modifies this
      ensures table == old(table) - {msgId}
    {
      if msgId in table {
        table := table - {msgId};
      }
    }

    /** `waitOnMessage(msgId, duration)`: MSG_FAILURE for an unknown key,
        otherwise the entry's own wait. */
    method WaitOnMessage(msgId: K) returns (status: StatusResult)
      ensures msgId !in table ==> status == MsgFailure
      ensures msgId in table ==> status == WaitOutcome(table[msgId])
    {
      status := MsgFailure;
      if msgId in table {
        status := WaitOutcome(table[msgId]);
      }
    }
  }
}
