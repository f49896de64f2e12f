/**
  SyncDiscovery: registers the local node, collects every node's registration,
  drops its own, and connects to the peers its Topology selects, remembering
  every peer it has dispatched a connection attempt to.
 */
module Discovery {
  import opened Wrappers
  import opened Registration
  import opened Topology
  import opened Subscriber

  /** The panic of ConnectTopology and ConnectingToPeers on an empty selection. */
  const LonelyPanic: Error := Panic("topology selected zero peers. so lonely!!!")

  // ---------------------------------------------------------------------------
  // The self-filter of registerAndWait
  // ---------------------------------------------------------------------------

  /** The collected registrations without those carrying the local identity, in collected order. */
  function WithoutSelf(peers: seq<PeerRegistration>, local: PeerId): seq<PeerRegistration>
  {
    if peers == [] then []
    else
      var last := peers[|peers| - 1];
      WithoutSelf(peers[..|peers| - 1], local) + (if last.id != local then [last] else [])
  }

  /** Exactly the registrations of other nodes survive the filter. */
  lemma {:induction false} WithoutSelfMembers(peers: seq<PeerRegistration>, local: PeerId)
    ensures forall p :: p in WithoutSelf(peers, local) <==> p in peers && p.id != local
    ensures Excludes(WithoutSelf(peers, local), local)
    ensures multiset(WithoutSelf(peers, local)) <= multiset(peers)
  {
    if peers != [] {
      var init := peers[..|peers| - 1];
      WithoutSelfMembers(init, local);
      assert peers == init + [peers[|peers| - 1]];
    }
  }

  /** A list without the local identity is left as it is. */
  lemma {:induction false} WithoutSelfKeepsOthers(peers: seq<PeerRegistration>, local: PeerId)
    requires Excludes(peers, local)
    ensures WithoutSelf(peers, local) == peers
  {
    if peers != [] {
      var init := peers[..|peers| - 1];
      WithoutSelfKeepsOthers(init, local);
      assert peers == init + [peers[|peers| - 1]];
    }
  }

  /** When the local node registered exactly once, the filter removes exactly one entry. */
  lemma {:induction false} WithoutSelfDropsOne(peers: seq<PeerRegistration>, local: PeerId, k: nat)
    requires DistinctIds(peers) && k < |peers| && peers[k].id == local
    ensures |WithoutSelf(peers, local)| == |peers| - 1
  {
    var n := |peers|;
    var init := peers[..n - 1];
    if k == n - 1 {
      WithoutSelfKeepsOthers(init, local);
    } else {
      WithoutSelfDropsOne(init, local, k);
      assert peers[n - 1].id != peers[k].id;
    }
  }

  /** What one registerAndWait call returns and leaves in ps.peers and s.allPeers. */
  datatype RegisterStep = RegisterStep(outcome: Outcome<Error>, subscriberPeers: Option<seq<PeerRegistration>>, allPeers: seq<PeerRegistration>)

  /**
    registerAndWait: publish, wait for the registrations, then filter out the
    local node. An empty list makes make() panic on the capacity len(peers)-1.
   */
  function RegisterAndWaitSpec(allPeers: seq<PeerRegistration>, cached: Option<seq<PeerRegistration>>, containerCount: int,
                               local: PeerId, published: bool, subscribed: bool, events: seq<Event>): RegisterStep
  {
    if !published then RegisterStep(Fail(PublishFailed), cached, allPeers)
    else
      var w := WaitForPeersSpec(cached, containerCount, subscribed, events);
      if w.result.Failure? then RegisterStep(Fail(w.result.error), w.peers, allPeers)
      else if |w.result.value| == 0 then RegisterStep(Fail(MakeSlicePanic), w.peers, allPeers)
      else RegisterStep(Pass, w.peers, WithoutSelf(w.result.value, local))
  }

  /**
    A first registerAndWait that succeeds leaves in allPeers the first
    containerCount records received, in arrival order, without the local node's;
    with one record per node, that is containerCount - 1 peers.
   */
  lemma RegisterAndWaitSuccess(allPeers: seq<PeerRegistration>, containerCount: int, local: PeerId,
                               subscribed: bool, events: seq<Event>)
    requires RegisterAndWaitSpec(allPeers, None, containerCount, local, true, subscribed, events).outcome.Pass?
    ensures var step := RegisterAndWaitSpec(allPeers, None, containerCount, local, true, subscribed, events);
      var collected := WaitForPeersSpec(None, containerCount, subscribed, events).result.value;
      && RecordsFirst(events, containerCount)
      && |collected| == containerCount
      && (forall i :: 0 <= i < containerCount ==> collected[i] == events[i].reg)
      && step.allPeers == WithoutSelf(collected, local)
      && Excludes(step.allPeers, local)
      && (DistinctIds(collected) && (exists k :: 0 <= k < |collected| && collected[k].id == local) ==>
            |step.allPeers| == containerCount - 1)
  {
    var collected := WaitForPeersSpec(None, containerCount, subscribed, events).result.value;
    WaitForPeersSuccess(containerCount, subscribed, events);
    WithoutSelfMembers(collected, local);
    if DistinctIds(collected) && exists k :: 0 <= k < |collected| && collected[k].id == local {
      var k :| 0 <= k < |collected| && collected[k].id == local;
      WithoutSelfDropsOne(collected, local, k);
    }
  }

  /**
    After a collection pass that failed, calling registerAndWait again does not
    wait: it panics when no record had arrived, and otherwise succeeds with
    fewer than containerCount - 1 peers.
   */
  lemma RetryAfterFailedPass(allPeers: seq<PeerRegistration>, containerCount: int, local: PeerId,
                             events: seq<Event>, later: seq<Event>, subscribedAgain: bool)
    requires containerCount > 0
    requires RegisterAndWaitSpec(allPeers, None, containerCount, local, true, true, events).outcome.Fail?
    ensures var first := RegisterAndWaitSpec(allPeers, None, containerCount, local, true, true, events);
      var partial := first.subscriberPeers.value;
      var second := RegisterAndWaitSpec(first.allPeers, first.subscriberPeers, containerCount, local, true, subscribedAgain, later);
      && first.subscriberPeers.Some?
      && |partial| < containerCount
      && first.allPeers == allPeers
      && (|partial| == 0 ==> second.outcome == Fail(MakeSlicePanic))
      && (|partial| > 0 ==> second.outcome.Pass? && second.allPeers == WithoutSelf(partial, local))
  {
    WaitForPeersFailure(containerCount, events);
    if WaitForPeersSpec(None, containerCount, true, events).result.Success? {
      WaitForPeersSuccess(containerCount, true, events);
    }
  }

  // ---------------------------------------------------------------------------
  // The connected map of ConnectTopology / ConnectingToPeers
  // ---------------------------------------------------------------------------

  /** The identities of a list of registrations. */
  function IdSet(peers: seq<PeerRegistration>): set<PeerId>
  {
    set i | 0 <= i < |peers| :: peers[i].id
  }

  /** Every entry of the connected map is keyed by its own identity. */
  predicate KeyedById(connected: map<PeerId, PeerRegistration>)
  {
    forall k :: k in connected ==> connected[k].id == k
  }

  /** The connected map and the peers attempts were dispatched to, in dispatch order. */
  datatype DispatchState = DispatchState(connected: map<PeerId, PeerRegistration>, dispatched: seq<PeerRegistration>)

  /** The dispatch loop: test-and-insert of each selected peer into the connected map. */
  function Dispatch(connected: map<PeerId, PeerRegistration>, selected: seq<PeerRegistration>): DispatchState
  {
    if selected == [] then DispatchState(connected, [])
    else
      var st := Dispatch(connected, selected[..|selected| - 1]);
      var p := selected[|selected| - 1];
      if p.id in st.connected then st
      else DispatchState(st.connected[p.id := p], st.dispatched + [p])
  }

  /** Position i of the selection is the first with its identity. */
  predicate FirstOccurrence(selected: seq<PeerRegistration>, i: int)
    requires 0 <= i < |selected|
  {
    forall j :: 0 <= j < i ==> selected[j].id != selected[i].id
  }

  /** Appending a registration adds its identity. */
  lemma IdSetAppend(peers: seq<PeerRegistration>, p: PeerRegistration)
    ensures IdSet(peers + [p]) == IdSet(peers) + {p.id}
  {
    var q := peers + [p];
    assert q[|peers|] == p;
    assert forall i :: 0 <= i < |peers| ==> q[i] == peers[i];
    assert forall x :: x in IdSet(peers) ==> x in IdSet(q);
  }

  /** The map after dispatch: old entries kept, every selected identity present, keyed by identity. */
  lemma {:induction false} DispatchKeys(connected: map<PeerId, PeerRegistration>, selected: seq<PeerRegistration>)
    ensures var st := Dispatch(connected, selected);
      && st.connected.Keys == connected.Keys + IdSet(selected)
      && (forall k :: k in connected ==> st.connected[k] == connected[k])
      && (KeyedById(connected) ==> KeyedById(st.connected))
  {
    if selected != [] {
      var init := selected[..|selected| - 1];
      var p := selected[|selected| - 1];
      DispatchKeys(connected, init);
      assert selected == init + [p];
      IdSetAppend(init, p);
      var st0 := Dispatch(connected, init);
      if p.id !in st0.connected {
        assert Dispatch(connected, selected).connected == st0.connected[p.id := p];
      }
    }
  }

  /** A new identity is stored with its first occurrence in the selection. */
  lemma {:induction false} DispatchFirstOccurrence(connected: map<PeerId, PeerRegistration>, selected: seq<PeerRegistration>)
    ensures forall i :: 0 <= i < |selected| && selected[i].id !in connected && FirstOccurrence(selected, i) ==>
      selected[i].id in Dispatch(connected, selected).connected &&
      Dispatch(connected, selected).connected[selected[i].id] == selected[i]
  {
    if selected != [] {
      var n := |selected|;
      var init := selected[..n - 1];
      var p := selected[n - 1];
      DispatchFirstOccurrence(connected, init);
      DispatchKeys(connected, init);
      DispatchKeys(connected, selected);
      var st0 := Dispatch(connected, init);
      forall i | 0 <= i < n && selected[i].id !in connected && FirstOccurrence(selected, i)
        ensures selected[i].id in Dispatch(connected, selected).connected
        ensures Dispatch(connected, selected).connected[selected[i].id] == selected[i]
      {
        if i < n - 1 {
          assert init[i] == selected[i];
          assert FirstOccurrence(init, i);
          assert selected[i].id in IdSet(init);
        } else {
          assert p.id !in IdSet(init) by {
            forall j | 0 <= j < n - 1 ensures init[j].id != p.id {
              assert init[j] == selected[j];
            }
          }
        }
      }
    }
  }

  /** One attempt per newly inserted identity, each for the peer stored under it. */
  lemma {:induction false} DispatchAttempts(connected: map<PeerId, PeerRegistration>, selected: seq<PeerRegistration>)
    ensures var st := Dispatch(connected, selected);
      && DistinctIds(st.dispatched)
      && IdSet(st.dispatched) == st.connected.Keys - connected.Keys
      && (forall i :: 0 <= i < |st.dispatched| ==>
            st.dispatched[i] in selected && st.dispatched[i].id in st.connected && st.connected[st.dispatched[i].id] == st.dispatched[i])
  {
    if selected != [] {
      var n := |selected|;
      var init := selected[..n - 1];
      var p := selected[n - 1];
      DispatchAttempts(connected, init);
      DispatchKeys(connected, init);
      var st0 := Dispatch(connected, init);
      assert forall x :: x in init ==> x in selected;
      if p.id !in st0.connected {
        IdSetAppend(st0.dispatched, p);
        var d := st0.dispatched + [p];
        forall i, j | 0 <= i < j < |d| ensures d[i].id != d[j].id {
          if j == |d| - 1 {
            assert d[i].id in IdSet(st0.dispatched);
          }
        }
      }
    }
  }

  /**
    The dispatch loop adds every selected identity, keeps every existing entry,
    stores for a new identity its first occurrence in the selection, and
    dispatches exactly one attempt per newly inserted identity.
   */
  lemma DispatchSpec(connected: map<PeerId, PeerRegistration>, selected: seq<PeerRegistration>)
    ensures var st := Dispatch(connected, selected);
      && st.connected.Keys == connected.Keys + IdSet(selected)
      && (forall k :: k in connected ==> st.connected[k] == connected[k])
      && (forall i :: 0 <= i < |selected| && selected[i].id !in connected && FirstOccurrence(selected, i) ==>
            st.connected[selected[i].id] == selected[i])
      && DistinctIds(st.dispatched)
      && IdSet(st.dispatched) == st.connected.Keys - connected.Keys
      && (forall i :: 0 <= i < |st.dispatched| ==> st.dispatched[i] in selected && st.connected[st.dispatched[i].id] == st.dispatched[i])
      && (KeyedById(connected) ==> KeyedById(st.connected))
  {
    DispatchKeys(connected, selected);
    DispatchFirstOccurrence(connected, selected);
    DispatchAttempts(connected, selected);
  }

  /** A selection whose identities are all present dispatches nothing and changes nothing. */
  lemma {:induction false} DispatchNothingNew(connected: map<PeerId, PeerRegistration>, selected: seq<PeerRegistration>)
    requires IdSet(selected) <= connected.Keys
    ensures Dispatch(connected, selected) == DispatchState(connected, [])
  {
    if selected != [] {
      var init := selected[..|selected| - 1];
      assert IdSet(init) <= IdSet(selected) by {
        assert forall i :: 0 <= i < |init| ==> init[i] == selected[i];
      }
      DispatchNothingNew(connected, init);
      assert selected[|selected| - 1].id in IdSet(selected);
    }
  }

  /** Dispatching the same selection a second time starts no further attempt. */
  lemma DispatchIdempotent(connected: map<PeerId, PeerRegistration>, selected: seq<PeerRegistration>)
    ensures var st := Dispatch(connected, selected);
      Dispatch(st.connected, selected) == DispatchState(st.connected, [])
  {
    DispatchSpec(connected, selected);
    DispatchNothingNew(Dispatch(connected, selected).connected, selected);
  }

  /**
    errgrp.Wait(): an error when the retries of some dispatched attempt are
    exhausted (`failing` names the peers connectWithRetry cannot reach).
   */
  function AttemptsOutcome(dispatched: seq<PeerRegistration>, failing: set<PeerId>): Outcome<Error>
  {
    if exists i :: 0 <= i < |dispatched| && dispatched[i].id in failing then Fail(ConnectFailed) else Pass
  }

  class SyncDiscovery {
    const localId: PeerId
    const nodeTypeSeq: Int64
    const isPublisher: bool
    const peerSubscriber: PeerSubscriber
    const topology: Topology

    /** All peers in the test but the local one. */
    var allPeers: seq<PeerRegistration>
    /** The peers this node has dispatched a connection attempt to, by identity. */
    var connected: map<PeerId, PeerRegistration>

    ghost predicate Valid()
      reads this
    {
      KeyedById(connected) && Excludes(allPeers, localId)
    }

    /** NewSyncDiscovery: isPublisher is never set, so it stays false. */
    constructor (localId: PeerId, sequence: Int64, peerSubscriber: PeerSubscriber, topology: Topology)
      ensures Valid()
      ensures this.localId == localId && nodeTypeSeq == sequence && !isPublisher
      ensures this.peerSubscriber == peerSubscriber && this.topology == topology
      ensures allPeers == [] && connected == map[]
    {
      this.localId := localId;
      nodeTypeSeq := sequence;
      isPublisher := false;
      this.peerSubscriber := peerSubscriber;
      this.topology := topology;
      allPeers := [];
      connected := map[];
    }

    /**
      registerAndWait: `published` is whether publishing the local registration
      (localId, nodeTypeSeq, isPublisher) succeeded,
      `subscribed` and `events` are what the sync service does in waitForPeers.
     */
    method RegisterAndWait(published: bool, subscribed: bool, events: seq<Event>) returns (r: Outcome<Error>)
      requires Valid()
      modifies this, peerSubscriber
      ensures Valid()
      ensures connected == old(connected)
      ensures var step := RegisterAndWaitSpec(old(allPeers), old(peerSubscriber.peers), peerSubscriber.containerCount,
                                              localId, published, subscribed, events);
        r == step.outcome && allPeers == step.allPeers && peerSubscriber.peers == step.subscriberPeers
    {
      if !published {
        return Fail(PublishFailed);
      }
      var waited, _ := peerSubscriber.WaitForPeers(subscribed, events);
      if waited.Failure? {
        return Fail(waited.error);
      }
      var peers := waited.value;
      if |peers| == 0 {
        return Fail(MakeSlicePanic);
      }
      var others := [];
      for i := 0 to |peers|
        invariant others == WithoutSelf(peers[..i], localId)
      {
        assert peers[..i + 1][..i] == peers[..i];
        if peers[i].id != localId {
          others := others + [peers[i]];
        }
      }
      assert peers[..|peers|] == peers;
      WithoutSelfMembers(peers, localId);
      allPeers := others;
      return Pass;
    }

    /**
      ConnectingToPeers: an empty selection panics; otherwise each selected
      peer not yet in the connected map is inserted and gets one attempt.
     */
    method ConnectingToPeers(selected: seq<PeerRegistration>, failing: set<PeerId>)
      returns (r: Outcome<Error>, dispatched: seq<PeerRegistration>)
      requires Valid()
      modifies this
      ensures Valid()
      ensures allPeers == old(allPeers)
      ensures selected == [] ==> r == Fail(LonelyPanic) && connected == old(connected) && dispatched == []
      ensures selected != [] ==>
        DispatchState(connected, dispatched) == Dispatch(old(connected), selected) && r == AttemptsOutcome(dispatched, failing)
    {
      if |selected| == 0 {
        return Fail(LonelyPanic), [];
      }
      dispatched := [];
      ghost var before := connected;
      for i := 0 to |selected|
        invariant DispatchState(connected, dispatched) == Dispatch(before, selected[..i])
        invariant allPeers == old(allPeers)
      {
        assert selected[..i + 1][..i] == selected[..i];
        var p := selected[i];
        if p.id !in connected {
          connected := connected[p.id := p];
          dispatched := dispatched + [p];
        }
      }
      assert selected[..|selected|] == selected;
      DispatchSpec(before, selected);
      r := AttemptsOutcome(dispatched, failing);
    }

    /**
      ConnectTopology: select peers among allPeers with the topology (the
      selection is Selection of the topology), then dispatch as
      ConnectingToPeers does. The local node is never selected, so
      it never enters the connected map through this call.
     */
    method ConnectTopology(indices: seq<int>, failing: set<PeerId>)
      returns (r: Outcome<Error>, selected: seq<PeerRegistration>, dispatched: seq<PeerRegistration>)
      requires Valid() && IsPermutation(indices, PoolSize(topology, allPeers))
      modifies this
      ensures Valid()
      ensures allPeers == old(allPeers)
      ensures var choice := Selection(topology, old(allPeers), indices);
        && (choice.Success? ==> selected == choice.value)
        && (choice.Failure? ==> selected == [] && r == Fail(choice.error))
      ensures forall i :: 0 <= i < |selected| ==> selected[i] in allPeers && selected[i].id != localId
      ensures SelectionPanics(topology, old(allPeers)) ==> r.Fail? && selected == []
      ensures !SelectionPanics(topology, old(allPeers)) && selected == [] ==> r == Fail(LonelyPanic)
      ensures selected == [] ==> connected == old(connected) && dispatched == []
      ensures selected != [] ==>
        DispatchState(connected, dispatched) == Dispatch(old(connected), selected) && r == AttemptsOutcome(dispatched, failing)
      ensures localId !in old(connected) ==> localId !in connected
    {
      var choice := SelectPeers(topology, localId, allPeers, indices);
      if choice.Failure? {
        return Fail(choice.error), [], [];
      }
      selected := choice.value;
      if |selected| > 0 {
        DispatchSpec(connected, selected);
        assert localId !in IdSet(selected);
      }
      r, dispatched := ConnectingToPeers(selected, failing);
    }

    /** Connected: one entry per identity in the connected map, in map iteration order. */
    method Connected() returns (d: seq<PeerRegistration>)
      requires Valid()
      ensures |d| == |connected|
      ensures DistinctIds(d)
      ensures forall p :: p in d <==> p in connected.Values
    {
      d := [];
      var rest := connected.Keys;
      while rest != {}
        invariant rest <= connected.Keys
        invariant forall i :: 0 <= i < |d| ==> d[i].id in connected && d[i].id !in rest && connected[d[i].id] == d[i]
        invariant DistinctIds(d)
        invariant |d| + |rest| == |connected.Keys|
        invariant forall k :: k in connected && k !in rest ==> connected[k] in d
        decreases |rest|
      {
        var k :| k in rest;
        d := d + [connected[k]];
        rest := rest - {k};
      }
    }
  }
}
