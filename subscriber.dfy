/**
  PeerSubscriber: collects one registration per test instance from the sync
  service and keeps the collected list for later calls. The subscription
  channel is modelled as the sequence of events the receive loop observes.
 */
module Subscriber {
  import opened Wrappers
  import opened Registration

  /** What one iteration of the receive loop observes: a record, the closed channel, or the cancelled context. */
  datatype Event = Received(reg: PeerRegistration) | ChannelClosed | ContextDone

  /** Panics of make() with a negative capacity and of rand.Intn(0). */
  const MakeSlicePanic: Error := Panic("makeslice: cap out of range")
  const IntnPanic: Error := Panic("invalid argument to Intn")

  /** How the receive loop ends: its returned value, the list held in ps.peers, and the events taken. */
  datatype LoopEnd = LoopEnd(result: Result<seq<PeerRegistration>, Error>, acc: seq<PeerRegistration>, consumed: nat)

  /**
    The receive loop of waitForPeers: `remaining` more records are wanted, `acc`
    holds those appended so far. Running out of events stands for the run's
    deadline firing, which cancels the context.
   */
  function ReceiveLoop(expected: int, acc: seq<PeerRegistration>, remaining: nat, events: seq<Event>): LoopEnd
    decreases remaining
  {
    if remaining == 0 then LoopEnd(Success(acc), acc, 0)
    else if events == [] then LoopEnd(Failure(Cancelled), acc, 0)
    else
      match events[0]
      case Received(p) =>
        var o := ReceiveLoop(expected, acc + [p], remaining - 1, events[1..]);
        LoopEnd(o.result, o.acc, o.consumed + 1)
      case ChannelClosed => LoopEnd(Failure(NotEnoughPeerInfos(expected, |acc|)), acc, 1)
      case ContextDone => LoopEnd(Failure(Cancelled), acc, 1)
  }

  /** The first k events are records. */
  predicate RecordsFirst(events: seq<Event>, k: nat)
  {
    k <= |events| && forall i :: 0 <= i < k ==> events[i].Received?
  }

  /**
    The receive loop appends the records in arrival order; it succeeds exactly
    when it gets all `remaining` records, and otherwise stops at the event after
    the records it took: a closed channel is "not enough peer infos", a
    cancelled context or no further event is cancellation.
   */
  lemma {:induction false} ReceiveLoopSpec(expected: int, acc: seq<PeerRegistration>, remaining: nat, events: seq<Event>)
    ensures var o := ReceiveLoop(expected, acc, remaining, events);
      var k := |o.acc| - |acc|;
      && 0 <= k <= remaining
      && o.acc[..|acc|] == acc
      && RecordsFirst(events, k)
      && (forall i :: 0 <= i < k ==> events[i].reg == o.acc[|acc| + i])
      && (o.result.Success? <==> k == remaining)
      && (o.result.Failure? ==> o.result.error == NotEnoughPeerInfos(expected, |o.acc|) || o.result.error == Cancelled)
      && (o.result.Success? ==> o.result.value == o.acc && o.consumed == remaining)
      && (o.result == Failure(NotEnoughPeerInfos(expected, |o.acc|)) <==> k < remaining && k < |events| && events[k] == ChannelClosed)
      && (o.result == Failure(Cancelled) <==> k < remaining && (k == |events| || events[k] == ContextDone))
    decreases remaining
  {
    var o := ReceiveLoop(expected, acc, remaining, events);
    if remaining > 0 && events != [] && events[0].Received? {
      var p := events[0].reg;
      ReceiveLoopSpec(expected, acc + [p], remaining - 1, events[1..]);
      var k := |o.acc| - |acc|;
      assert o.acc[..|acc| + 1] == acc + [p];
      assert o.acc[..|acc|] == (acc + [p])[..|acc|];
      forall i | 0 <= i < k ensures events[i].Received? && events[i].reg == o.acc[|acc| + i] {
        if i > 0 {
          assert events[i] == events[1..][i - 1];
        }
      }
      if k < remaining && k < |events| {
        assert events[k] == events[1..][k - 1];
      }
    }
  }

  /** The outcome of one waitForPeers call: returned value, new ps.peers, and events taken. */
  datatype WaitStep = WaitStep(result: Result<seq<PeerRegistration>, Error>, peers: Option<seq<PeerRegistration>>, consumed: nat)

  /**
    waitForPeers given the cached list `cached` (None is Go's nil slice), the
    expected count, whether Subscribe succeeded, and the events of the channel.
   */
  function WaitForPeersSpec(cached: Option<seq<PeerRegistration>>, containerCount: int, subscribed: bool, events: seq<Event>): WaitStep
  {
    if cached.Some? then WaitStep(Success(cached.value), cached, 0)
    else if containerCount < 0 then WaitStep(Failure(MakeSlicePanic), None, 0)
    else if containerCount == 0 then WaitStep(Failure(IntnPanic), Some([]), 0)
    else if !subscribed then WaitStep(Failure(SubscribeFailed), Some([]), 0)
    else
      var o := ReceiveLoop(containerCount, [], containerCount, events);
      WaitStep(if o.result.Success? then o.result else Failure(o.result.error), Some(o.acc), o.consumed)
  }

  class PeerSubscriber {
    /** ps.peers: None while no collection pass has started (Go's nil slice). */
    var peers: Option<seq<PeerRegistration>>
    /** The number of registrations to wait for. */
    const containerCount: int

    /** NewPeerSubscriber. */
    constructor (containerCount: int)
      ensures this.containerCount == containerCount && peers == None
    {
      this.containerCount := containerCount;
      peers := None;
    }

    /** waitForPeers: the memoised collection pass. */
    method WaitForPeers(subscribed: bool, events: seq<Event>) returns (r: Result<seq<PeerRegistration>, Error>, consumed: nat)
      modifies this
      ensures WaitStep(r, peers, consumed) == WaitForPeersSpec(old(peers), containerCount, subscribed, events)
    {
      if peers.Some? {
        return Success(peers.value), 0;
      }
      if containerCount < 0 {
        return Failure(MakeSlicePanic), 0;
      }
      peers := Some([]);
      if containerCount == 0 {
        return Failure(IntnPanic), 0;
      }
      if !subscribed {
        return Failure(SubscribeFailed), 0;
      }
      ghost var whole := ReceiveLoop(containerCount, [], containerCount, events);
      var i := 0;
      while i < containerCount
        invariant 0 <= i <= containerCount && i <= |events|
        invariant peers.Some? && |peers.value| == i
        invariant var o := ReceiveLoop(containerCount, peers.value, containerCount - i, events[i..]);
          whole == LoopEnd(o.result, o.acc, o.consumed + i)
        decreases containerCount - i
      {
        if i == |events| {
          return Failure(Cancelled), i;
        }
        match events[i] {
          case Received(p) =>
            assert events[i..][1..] == events[i + 1..];
            peers := Some(peers.value + [p]);
          case ChannelClosed =>
            return Failure(NotEnoughPeerInfos(containerCount, |peers.value|)), i + 1;
          case ContextDone =>
            return Failure(Cancelled), i + 1;
        }
        i := i + 1;
      }
      return Success(peers.value), i;
    }
  }

  /** A list already held is returned as it is, and no event is taken. */
  lemma WaitForPeersCached(cached: seq<PeerRegistration>, containerCount: int, subscribed: bool, events: seq<Event>)
    ensures WaitForPeersSpec(Some(cached), containerCount, subscribed, events) == WaitStep(Success(cached), Some(cached), 0)
  {
  }

  /**
    A first pass that succeeds returns the first containerCount events, all of
    them records, in arrival order, and caches that same list.
   */
  lemma WaitForPeersSuccess(containerCount: int, subscribed: bool, events: seq<Event>)
    requires WaitForPeersSpec(None, containerCount, subscribed, events).result.Success?
    ensures var w := WaitForPeersSpec(None, containerCount, subscribed, events);
      && |w.result.value| == containerCount
      && RecordsFirst(events, containerCount)
      && (forall i :: 0 <= i < containerCount ==> w.result.value[i] == events[i].reg)
      && w.peers == Some(w.result.value)
      && w.consumed == containerCount
  {
    ReceiveLoopSpec(containerCount, [], containerCount, events);
  }

  /**
    A first pass fails exactly when the channel closes or the context is
    cancelled before containerCount records arrive; either way ps.peers keeps
    the non-nil partial list of the records that did arrive.
   */
  lemma WaitForPeersFailure(containerCount: int, events: seq<Event>)
    requires containerCount > 0
    ensures var w := WaitForPeersSpec(None, containerCount, true, events);
      w.result.Failure? <==> !RecordsFirst(events, containerCount)
    ensures var w := WaitForPeersSpec(None, containerCount, true, events);
      w.result.Failure? ==>
        && w.peers.Some?
        && |w.peers.value| < containerCount
        && RecordsFirst(events, |w.peers.value|)
        && (forall i :: 0 <= i < |w.peers.value| ==> w.peers.value[i] == events[i].reg)
        && (w.result.error == NotEnoughPeerInfos(containerCount, |w.peers.value|) || w.result.error == Cancelled)
  {
    var o := ReceiveLoop(containerCount, [], containerCount, events);
    ReceiveLoopSpec(containerCount, [], containerCount, events);
    if o.result.Failure? {
      var k := |o.acc|;
      if k < |events| {
        assert events[k] == ChannelClosed || events[k] == ContextDone;
      }
    }
  }

  /**
    A pass that failed is not retried: the next call returns the partial list
    it left behind, with no error and without receiving anything.
   */
  lemma FailedPassIsCached(containerCount: int, events: seq<Event>, subscribedAgain: bool, later: seq<Event>)
    requires containerCount > 0
    requires WaitForPeersSpec(None, containerCount, true, events).result.Failure?
    ensures var first := WaitForPeersSpec(None, containerCount, true, events);
      var second := WaitForPeersSpec(first.peers, containerCount, subscribedAgain, later);
      && second.result.Success?
      && |second.result.value| < containerCount
      && second.consumed == 0
  {
    WaitForPeersFailure(containerCount, events);
  }
}
