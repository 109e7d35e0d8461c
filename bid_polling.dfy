/**
  The two `while (true)` waits of the bid lifecycle: waiting for the award after
  the bid is placed, and waiting for the fulfillment confirmation after the
  update is reported. Each poll's chain reads are an observation; a run is a
  trace of observations, one per poll. The loops have no deadline: a trace that
  ends without a resolving poll leaves the wait still polling. Nothing retries a
  failed read: the error escapes the loop, polling stops, and the awaited promise
  never receives a value (Aborted).
 */
module BidPolling {
  import opened Wrappers
  import opened Bytes

  /** How many blocks back each poll's log query reaches: `fromBlock = currentBlock - 10n`. */
  const LookbackBlocks: nat := 10

  /** The bid status the auction house reports for an awarded bid. */
  const AwardedStatus: int := 2

  datatype EventName = AwardedBid | ConfirmedFulfillment

  /** One event log of the auction house, with its indexed bid topic and bid id and its data payload. */
  datatype EventLog = EventLog(name: EventName, block: nat, bidTopic: Bytes32, bidId: Bytes32, payload: seq<byte>)

  /** A log the `getLogs` query for `name` over [fromBlock, toBlock] filtered by (topic, bidId) returns. */
  predicate Matches(e: EventLog, name: EventName, fromBlock: int, toBlock: int, topic: Bytes32, bidId: Bytes32) {
    e.name == name && fromBlock <= e.block <= toBlock && e.bidTopic == topic && e.bidId == bidId
  }

  /** events[k] is the earliest log that matches. */
  predicate FirstMatchAt(events: seq<EventLog>, k: int, name: EventName, fromBlock: int, toBlock: int, topic: Bytes32, bidId: Bytes32) {
    && 0 <= k < |events|
    && Matches(events[k], name, fromBlock, toBlock, topic, bidId)
    && forall j :: 0 <= j < k ==> !Matches(events[j], name, fromBlock, toBlock, topic, bidId)
  }

  /** `getLogs`: the matching logs, in chain order. */
  function QueryLogs(events: seq<EventLog>, name: EventName, fromBlock: int, toBlock: int, topic: Bytes32, bidId: Bytes32): (r: seq<EventLog>)
    ensures |r| <= |events|
    ensures forall e :: e in r <==> e in events && Matches(e, name, fromBlock, toBlock, topic, bidId)
    ensures r != [] ==> exists k :: FirstMatchAt(events, k, name, fromBlock, toBlock, topic, bidId) && events[k] == r[0]
  {
    if events == [] then []
    else
      var rest := QueryLogs(events[1..], name, fromBlock, toBlock, topic, bidId);
      if Matches(events[0], name, fromBlock, toBlock, topic, bidId) then [events[0]] + rest
      else
        assert rest != [] ==> exists k :: FirstMatchAt(events, k, name, fromBlock, toBlock, topic, bidId) && events[k] == rest[0] by {
          if rest != [] {
            var k' :| FirstMatchAt(events[1..], k', name, fromBlock, toBlock, topic, bidId) && events[1..][k'] == rest[0];
            assert events[k' + 1] == rest[0];
            forall j | 0 <= j < k' + 1
              ensures !Matches(events[j], name, fromBlock, toBlock, topic, bidId)
            {
              if j > 0 { assert events[j] == events[1..][j - 1]; }
            }
            assert FirstMatchAt(events, k' + 1, name, fromBlock, toBlock, topic, bidId);
          }
        }
        rest
  }

  /**
    What one poll of the award wait observes: the bid's status and the auction
    house's logs at the current block, or a failed read.
   */
  datatype AwardPoll = AwardPoll(status: int, currentBlock: nat, events: seq<EventLog>) | AwardReadFailed

  /**
    A log query whose lower bound `currentBlock - 10` is negative is refused by
    the client, like any other failed read.
   */
  predicate LookbackUnderflows(currentBlock: nat)
  {
    currentBlock < LookbackBlocks
  }

  /**
    A poll of the award wait fails when a read fails, or when the status is
    awarded and the log query that follows has a negative lower bound.
   */
  predicate AwardPollFails(p: AwardPoll)
  {
    p.AwardReadFailed? || (p.status == AwardedStatus && LookbackUnderflows(p.currentBlock))
  }

  /**
    What one poll of the award wait yields: the award details of the first
    AwardedBid log in the lookback window, provided the status is awarded and
    the poll does not fail.
   */
  function AwardFromPoll(p: AwardPoll, topic: Bytes32, bidId: Bytes32): (r: Option<seq<byte>>)
    ensures r.Some? ==> !AwardPollFails(p) && p.status == AwardedStatus
  {
    if AwardPollFails(p) || p.status != AwardedStatus then None
    else
      var logs := QueryLogs(p.events, AwardedBid, p.currentBlock - LookbackBlocks, p.currentBlock, topic, bidId);
      if |logs| > 0 then Some(logs[0].payload) else None
  }

  /**
    A poll yields award details exactly when it does not fail, the status is
    awarded and some AwardedBid log for the bid lies in the lookback window; the
    details are those of the earliest such log.
   */
  lemma AwardFromPollMeaning(p: AwardPoll, topic: Bytes32, bidId: Bytes32)
    ensures var r := AwardFromPoll(p, topic, bidId);
      && (r.Some? <==> (p.AwardPoll? && p.status == AwardedStatus && p.currentBlock >= LookbackBlocks &&
           exists e :: e in p.events && Matches(e, AwardedBid, p.currentBlock - LookbackBlocks, p.currentBlock, topic, bidId)))
      && (r.Some? ==> p.AwardPoll? && exists k ::
           FirstMatchAt(p.events, k, AwardedBid, p.currentBlock - LookbackBlocks, p.currentBlock, topic, bidId) &&
           p.events[k].payload == r.value)
  {
    if !AwardPollFails(p) && p.status == AwardedStatus {
      var logs := QueryLogs(p.events, AwardedBid, p.currentBlock - LookbackBlocks, p.currentBlock, topic, bidId);
      if |logs| > 0 {
        assert logs[0] in logs;
      }
    }
  }

  /**
    How a wait ends on a finite trace: resolved at some poll, aborted by a
    failed read at some poll, or still polling when the trace runs out.
   */
  datatype PollOutcome<T> = Resolved(value: T, poll: nat) | Aborted(poll: nat) | StillPolling

  /**
    The award wait of `placeBid`: resolves at the first poll whose status is
    awarded and whose lookback window holds a matching AwardedBid log, with that
    log's award details; every earlier poll leaves it waiting. A failing poll
    ends the wait at that poll.
   */
  method AwaitAward(topic: Bytes32, bidId: Bytes32, polls: seq<AwardPoll>) returns (o: PollOutcome<seq<byte>>)
    ensures !o.StillPolling? ==> o.poll < |polls|
    ensures o.Resolved? ==> AwardFromPoll(polls[o.poll], topic, bidId) == Some(o.value)
    ensures o.Aborted? ==> AwardPollFails(polls[o.poll])
    ensures forall j :: 0 <= j < (if o.StillPolling? then |polls| else o.poll) ==>
      !AwardPollFails(polls[j]) && AwardFromPoll(polls[j], topic, bidId).None?
  {
    var i := 0;
    while i < |polls|
      invariant 0 <= i <= |polls|
      invariant forall j :: 0 <= j < i ==> !AwardPollFails(polls[j]) && AwardFromPoll(polls[j], topic, bidId).None?
    {
      var poll := polls[i];
      if poll.AwardReadFailed? {
        return Aborted(i);
      }
      if poll.status == AwardedStatus {
        if poll.currentBlock < LookbackBlocks {
          return Aborted(i);
        }
        var fromBlock := poll.currentBlock - LookbackBlocks;
        var logs := QueryLogs(poll.events, AwardedBid, fromBlock, poll.currentBlock, topic, bidId);
        if |logs| > 0 {
          assert AwardFromPoll(poll, topic, bidId) == Some(logs[0].payload);
          return Resolved(logs[0].payload, i);
        }
      }
      assert AwardFromPoll(poll, topic, bidId).None?;
      i := i + 1;
    }
    return StillPolling;
  }

  /** What one poll of the confirmation wait observes: the current block and the auction house's logs, or a failed read. */
  datatype ConfirmationPoll = ConfirmationPoll(currentBlock: nat, events: seq<EventLog>) | ConfirmationReadFailed

  /** A poll of the confirmation wait fails when a read fails or its log query has a negative lower bound. */
  predicate ConfirmationPollFails(p: ConfirmationPoll)
  {
    p.ConfirmationReadFailed? || LookbackUnderflows(p.currentBlock)
  }

  /** The ConfirmedFulfillment logs one poll of the confirmation wait finds in its lookback window. */
  function ConfirmationsFromPoll(p: ConfirmationPoll, topic: Bytes32, bidId: Bytes32): (logs: seq<EventLog>)
    ensures forall e :: e in logs <==> (!ConfirmationPollFails(p) && e in p.events &&
      Matches(e, ConfirmedFulfillment, p.currentBlock - LookbackBlocks, p.currentBlock, topic, bidId))
  {
    if ConfirmationPollFails(p) then []
    else QueryLogs(p.events, ConfirmedFulfillment, p.currentBlock - LookbackBlocks, p.currentBlock, topic, bidId)
  }

  /**
    The confirmation wait of `reportFulfillment`: resolves with the log list of
    the first poll that finds any matching ConfirmedFulfillment log. A failing
    poll ends the wait at that poll.
   */
  method AwaitConfirmation(topic: Bytes32, bidId: Bytes32, polls: seq<ConfirmationPoll>) returns (o: PollOutcome<seq<EventLog>>)
    ensures !o.StillPolling? ==> o.poll < |polls|
    ensures o.Resolved? ==> o.value != [] && o.value == ConfirmationsFromPoll(polls[o.poll], topic, bidId)
    ensures o.Aborted? ==> ConfirmationPollFails(polls[o.poll])
    ensures forall j :: 0 <= j < (if o.StillPolling? then |polls| else o.poll) ==>
      !ConfirmationPollFails(polls[j]) && ConfirmationsFromPoll(polls[j], topic, bidId) == []
  {
    var i := 0;
    while i < |polls|
      invariant 0 <= i <= |polls|
      invariant forall j :: 0 <= j < i ==> !ConfirmationPollFails(polls[j]) && ConfirmationsFromPoll(polls[j], topic, bidId) == []
    {
      var poll := polls[i];
      if poll.ConfirmationReadFailed? || poll.currentBlock < LookbackBlocks {
        return Aborted(i);
      }
      var fromBlock := poll.currentBlock - LookbackBlocks;
      var logs := QueryLogs(poll.events, ConfirmedFulfillment, fromBlock, poll.currentBlock, topic, bidId);
      if |logs| > 0 {
        return Resolved(logs, i);
      }
      i := i + 1;
    }
    return StillPolling;
  }

  /**
    The lookback window: a poll whose status is awarded, whose current block is
    at least 10 (so the log query is accepted) and at most 10 blocks past a
    matching AwardedBid log resolves the wait.
   */
  lemma AwardSeenWithinLookback(p: AwardPoll, topic: Bytes32, bidId: Bytes32, e: EventLog)
    requires p.AwardPoll? && p.status == AwardedStatus && e in p.events
    requires e.name == AwardedBid && e.bidTopic == topic && e.bidId == bidId
    requires LookbackBlocks <= p.currentBlock
    requires e.block <= p.currentBlock <= e.block + LookbackBlocks
    ensures AwardFromPoll(p, topic, bidId).Some?
  {
    assert Matches(e, AwardedBid, p.currentBlock - LookbackBlocks, p.currentBlock, topic, bidId);
    AwardFromPollMeaning(p, topic, bidId);
  }

  /** A status other than awarded never resolves a poll, whatever logs exist. */
  lemma StatusGatesAward(p: AwardPoll, topic: Bytes32, bidId: Bytes32)
    requires p.AwardPoll? && p.status != AwardedStatus
    ensures AwardFromPoll(p, topic, bidId) == None
  {
  }
}
