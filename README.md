# Peer discovery of the gossipsub test plan, in Dafny

This project models the peer-discovery layer of a gossipsub test plan (`discovery.go`).
Every test node publishes a `PeerRegistration` on the sync service's `pubsub-test-peers` topic.
A `PeerSubscriber` collects one registration per node, once, and keeps the list.
`SyncDiscovery` drops the node's own registration and asks a `Topology` which peers to connect to.
It then dispatches one connection attempt per peer identity it has not yet dispatched to.

Modules, one file each:

- `Wrappers` (`wrappers.dfy`): `Option`, `Result` and `Outcome`.
- `Registration` (`registration.dfy`): the registration record, with `int64` sequence numbers, and the error kinds. A Go panic is the error `Panic(message)`.
- `Decimal` (`decimal.dfy`): `strconv.Itoa` and `strings.Split` on one separator character. `FixedTopology` needs both.
- `Topology` (`topology.dfy`): the four topology strategies. The selectors are methods whose loops are proved against specification functions or direct postconditions. In `discovery.go` only `RandomTopology` defines both `SelectPeers` and `SelectNPeers` and so implements the `Topology` interface (discovery.go:62-65), and `test.go` installs only `RandomTopology`. The datatype `Topology` over all four strategies, dispatched by `Topology.SelectPeers`, is a modelling convenience that lets `SyncDiscovery` be stated once for any of them.
- `Subscriber` (`subscriber.dfy`): the class `PeerSubscriber` with its memoised `waitForPeers`. The subscription channel is the sequence of events the receive loop observes.
- `Discovery` (`discovery.dfy`): the class `SyncDiscovery`, with the self-filter of `registerAndWait`, the `connected`-map dedupe of `ConnectTopology` and `ConnectingToPeers`, and `Connected`.

Inputs that come from outside the program are parameters:

- The permutation `rand.Perm` returns is the parameter `indices`, required to be a permutation of `0 .. len-1`.
- Whether `Publish` and `Subscribe` succeed are booleans.
- What arrives on the channel is a sequence of `Event`s:
  - `Received(reg)`: a record arrives;
  - `ChannelClosed`: the channel is closed;
  - `ContextDone`: the context is cancelled.
- Which peers `connectWithRetry` cannot reach within its retries is a set of identities, `failing`.

Behaviour of the code worth knowing when reading the contracts:

- No selector looks at `local`; a selection leaves out the local node only because `registerAndWait` filters it out of `allPeers`, and `SyncDiscovery.ConnectTopology` proves that form.
- An empty selection is a Go panic, "topology selected zero peers. so lonely!!!", not a returned error value. So is a malformed fixed-topology specifier. Both are `Failure(Panic(..))` / `Fail(Panic(..))` here.
- A negative `Count` or `n` with a non-empty list reaches `make` with a negative length and panics. The model returns that panic as a failure rather than excluding negative counts.
- A `waitForPeers` pass that failed is cached: `ps.peers` was already set to a non-nil slice. The next call returns the partial list with no error and no new subscription.
- `NewSyncDiscovery` never sets `isPublisher`, so a node always registers itself as a non-publisher.
- `selectSinglePublisher` tests `lowest < 0` both for "nothing found yet" and for a negative scaled sequence. A publisher with a negative sequence number is therefore replaced by any later publisher. The minimum is proved for sequence numbers in `0 .. 9223372036854`. Above that, `seq * 1000000` wraps around in `int64`; the wrap is modelled explicitly.

## Model

| member | source | states |
|---|---|---|
| Decimal.ItoaRoundTrip | discovery.go:187 | The decimal form written by strconv.Itoa reads back as the same integer. |
| Decimal.ItoaInjective | discovery.go:187 | Two sequence numbers have the same decimal form exactly when they are equal. |
| Decimal.ItoaDash | discovery.go:187 | The decimal form contains a dash exactly when the number is negative. |
| Decimal.Split | discovery.go:178 | strings.Split yields one more piece than there are separators. |
| Decimal.SplitPiecesHaveNoSeparator | discovery.go:178 | No piece of strings.Split contains the separator. |
| Decimal.JoinSplit | discovery.go:178 | Joining the pieces with the separator restores the string, so splitting loses nothing. |
| Decimal.SplitJoin | discovery.go:178 | Splitting a join of separator-free pieces returns those pieces. |
| Topology.SelectNPeers | discovery.go:91-105 | Empty for an empty remote or n = 0. A panic exactly when remote is non-empty and n < 0. Otherwise the result has min(n, len(remote)) entries, entry i is remote[indices[i]], it is a sub-multiset of remote, and all of remote when n >= len(remote). |
| Topology.RandomSelectPeers | discovery.go:73-89 | As SelectNPeers with n = Count: empty for an empty remote or Count = 0, a panic exactly for a negative Count on a non-empty remote, else a length-min prefix of the permutation. |
| Topology.SelectionKeepsDistinctIds | discovery.go:83-87 | Positions taken from a permutation are distinct, so a remote with distinct identities yields a selection with distinct identities. |
| Topology.FilterEligible | discovery.go:122-129 | The filter loop yields the order-preserving sublist of peers with !PublishersOnly or IsPublisher. |
| Topology.EligibleAll | discovery.go:126 | With PublishersOnly false the filter keeps remote unchanged. |
| Topology.EligibleMembers | discovery.go:122-129 | A peer survives the filter exactly when it is in remote and eligible; the filtered list is a sub-multiset of remote. |
| Topology.RandomHonestSelectPeers | discovery.go:117-132 | Empty for an empty remote. Otherwise RandomTopology{Count} on the eligible sublist: entry i is eligible[indices[i]], every entry is eligible, the length is min(Count, len(eligible)), and it panics exactly when the eligible list is non-empty and Count < 0. |
| Topology.SelectSinglePublisher | discovery.go:147-163 | The loop over lowest and lowestp computes SinglePublisher(peers), whose properties are the lemmas below. |
| Topology.SinglePublisherSelectPeers | discovery.go:138-144 | The single chosen publisher as a one-element list, or an empty list when selectSinglePublisher returns nil. |
| Topology.WrapOfDoubleIsNotMinusOne | discovery.go:152 | The int64 wrap-around of an even number is never -1. |
| Topology.ScaledIsNotSentinel | discovery.go:152-159 | int64(seq * 1000000) is even, so it never equals the sentinel -1. |
| Topology.ScaledUnwrapped | discovery.go:152 | For 0 <= seq <= 9223372036854 the scaled value is the exact non-negative product, so order is preserved. |
| Topology.ScanSentinel | discovery.go:148-159 | The sentinel survives the first n iterations exactly when none of those peers is a publisher. |
| Topology.ScanPicksPublisher | discovery.go:150-156 | Whatever the loop records is a publisher among the peers scanned. |
| Topology.SinglePublisherNoneIff | discovery.go:159-161 | selectSinglePublisher returns nil exactly when no peer is a publisher. |
| Topology.SinglePublisherIsPublisher | discovery.go:147-163 | A non-nil result is one of the peers and a publisher. |
| Topology.ScanFindsFirstLowest | discovery.go:150-157 | With sequences in range, after n iterations the loop holds the first publisher of least sequence among the first n peers, or the sentinel when there is none. |
| Topology.SinglePublisherIsFirstLowest | discovery.go:146-163 | With sequences in range, the result is a publisher of minimal sequence, and the first in list order on a tie (strict <). |
| Topology.NegativeSequenceIsOverwritten | discovery.go:153 | Publishers of sequence -5 then 3: the one of sequence 3 is returned, since lowest < 0 lets it replace -5. |
| Topology.SinglePublisherExample | discovery.go:147-163 | Publishers of sequence 3 and 1 and a lurker of sequence 2: the publisher of sequence 1 is returned. |
| Topology.FixedSelectPeers | discovery.go:171-193 | The nested loops compute FixedSelection: empty for an empty remote, otherwise a panic at a malformed specifier, else for each specifier in turn the peers of remote, in remote order, whose decimal sequence is its first field. |
| Topology.AppendMatching | discovery.go:185-190 | The inner loop appends to out exactly the peers of remote, in order, whose decimal sequence equals the field. |
| Topology.MatchingMembers | discovery.go:185-190 | A peer is matched by a field exactly when it is in remote and its decimal sequence number equals the field. |
| Topology.MatchingSequence | discovery.go:187 | The field Itoa(k) matches exactly the peers of remote whose sequence number is k. |
| Topology.FixedScanFails | discovery.go:177-181 | Scanning the first n specifiers fails exactly when one of them does not split into three fields, and the error is the "Badly formatted topology file" panic. |
| Topology.FixedScanMembers | discovery.go:177-191 | A successful scan selects exactly the peers of remote named by the first field of one of the specifiers. |
| Topology.FixedSelectionFails | discovery.go:171-181 | FixedTopology panics exactly when remote is non-empty and some specifier is malformed. |
| Topology.FixedSelectionMembers | discovery.go:171-192 | On success the selection is exactly the peers named by some specifier's first field, and none has a negative sequence number. |
| Topology.FixedExample | discovery.go:171-192 | Specifier "5-x-y" over peers of sequence 5 and 7 selects just the peer of sequence 5. |
| Topology.FixedMalformedExample | discovery.go:178-180 | The two-field specifier "5-x" is the malformed-specifier panic. |
| Topology.RandomSelectionSpec | discovery.go:73-105 | RandomTopology's selection fails exactly for a negative count on a non-empty list, with the make() panic, and otherwise holds only peers of the list. |
| Topology.SelectionSpec | discovery.go:73-193 | The selection of every strategy fails exactly where the Go code panics, with one of the two panics; every selected peer is one of remote, so a remote without the local identity gives a selection without it. |
| Topology.SelectPeers | discovery.go:62-65 | The dispatch over the four strategies returns exactly Selection of the configured strategy: RandomTopology's permutation prefix, RandomHonestTopology's over the eligible peers, the single publisher, or FixedTopology's matches; hence the properties of SelectionSpec. |
| Subscriber.ReceiveLoopSpec | discovery.go:265-281 | The receive loop appends the received records in order. It succeeds exactly when containerCount records arrive. Otherwise a closed channel is "not enough peer infos" with the count received, and a cancelled context is cancellation. |
| Subscriber.PeerSubscriber.constructor | discovery.go:214-220 | A new subscriber holds no list (nil) and the given container count. |
| Subscriber.PeerSubscriber.WaitForPeers | discovery.go:237-286 | The call matches WaitForPeersSpec: it returns the cached list if there is one; it panics in make for a negative count; it panics in rand.Intn for count 0 after setting an empty list; it fails on a Subscribe error; otherwise it runs the receive loop, leaving in ps.peers what arrived. |
| Subscriber.WaitForPeersCached | discovery.go:241-243 | A non-nil ps.peers is returned unchanged, without error, and no event is consumed. |
| Subscriber.WaitForPeersSuccess | discovery.go:263-285 | A successful first pass returns the first containerCount events, all records, in arrival order, and caches that list. |
| Subscriber.WaitForPeersFailure | discovery.go:247-281 | A first pass fails exactly when containerCount records do not arrive first. It then leaves a non-nil partial list of what arrived, with the not-enough or cancelled error. |
| Subscriber.FailedPassIsCached | discovery.go:241-247 | After a failed pass, the next call succeeds with the partial list (fewer than containerCount) and consumes nothing. |
| Discovery.WithoutSelfMembers | discovery.go:345-351 | A registration survives the self-filter exactly when it is collected and not the local node's. The result excludes the local identity and is a sub-multiset of the list. |
| Discovery.WithoutSelfKeepsOthers | discovery.go:345-351 | A list without the local identity passes the filter unchanged. |
| Discovery.WithoutSelfDropsOne | discovery.go:345-351 | With distinct identities including the local one, the filter removes exactly one entry. |
| Discovery.RegisterAndWaitSuccess | discovery.go:317-356 | A successful first call leaves in allPeers the first containerCount records, in order, without the local one. With distinct identities including the local node, that is containerCount - 1 peers. |
| Discovery.RetryAfterFailedPass | discovery.go:338-346 | After a failed collection, a second call does not wait: it panics in make when nothing had arrived, and otherwise succeeds with the filtered partial list. |
| Discovery.DispatchKeys | discovery.go:380-399 | After the dispatch loop the map's keys are the old keys plus the selected identities, old entries are unchanged, and entries stay keyed by their identity. |
| Discovery.DispatchFirstOccurrence | discovery.go:380-384 | A newly inserted identity maps to its first occurrence in the selection. |
| Discovery.DispatchAttempts | discovery.go:380-399 | Exactly one attempt is dispatched per newly inserted identity, for the peer stored under it; dispatched identities are distinct. |
| Discovery.DispatchSpec | discovery.go:380-399 | The three dispatch lemmas together: the new map is the old one plus each new identity's first occurrence, and one attempt per new identity. |
| Discovery.DispatchNothingNew | discovery.go:382 | A selection whose identities are all present changes nothing and dispatches nothing. |
| Discovery.DispatchIdempotent | discovery.go:380-399 | Dispatching the same selection again starts no further attempt. |
| Discovery.SyncDiscovery.constructor | discovery.go:303-314 | A new SyncDiscovery has an empty connected map, no peers, the given sequence number, and isPublisher false. |
| Discovery.SyncDiscovery.RegisterAndWait | discovery.go:317-356 | Matches RegisterAndWaitSpec: a publish error is returned; a waitForPeers error is returned; an empty list panics in make; otherwise allPeers becomes the collected list without the local node. Valid() holds, so allPeers never holds the local identity, and connected is unchanged. |
| Discovery.SyncDiscovery.ConnectingToPeers | discovery.go:407-443 | An empty selection panics and changes nothing. Otherwise the new connected map and the dispatched attempts are those of the dispatch loop, and the result fails exactly when some dispatched peer cannot be reached. |
| Discovery.SyncDiscovery.ConnectTopology | discovery.go:359-404 | The selected peers are exactly the topology's Selection of allPeers (discovery.go:370); when the selector panics the call fails with that panic and changes nothing. An empty selection is the "so lonely" panic. Otherwise the call dispatches the selection as ConnectingToPeers does, so the local identity never enters the connected map. |
| Discovery.SyncDiscovery.Connected | discovery.go:470-479 | The snapshot holds exactly the map's values, one per identity (length equals the map's size, identities distinct). |

## Left out

- `connectWithRetry` (discovery.go:445-468): its behaviour is that of the `retry-go` library, which is not part of this model. Its random pre-dial delay, per-attempt timeout (`PeerConnectTimeout`, 10 s) and `MaxConnectRetries` (10) are recorded only as constants. Whether an attempt finally fails is the input `failing`.
- Goroutines, `errgroup`, and the `sync.Mutex`/`RWMutex` locking: only the sequential dispatch loop is modelled. `errgrp.Wait` is "some dispatched attempt failed".
- The `select` on `time.After(delay)` at the start of `ConnectTopology` (discovery.go:360-366): timing is not modelled. A context cancelled during that delay would return before selection.
- `rand.Perm` and `rand.Intn`: the permutation is a parameter. The pre-subscribe random sleep is not modelled.
- Sync-service I/O: `Publish` in `register` (discovery.go:225-234) and `Subscribe` are booleans, and the channel is an event sequence. Running out of events stands for the run's deadline cancelling the context.
- Peer addresses (`Info.Addrs`): a registration carries only its identity, sequence number and publisher flag.
- `RecordMessage` logging and the `ConnsToPeer` logging loop.
- `test.go`: host creation, network shaping, the ready barrier and run orchestration are not part of this model.
- `Subscriber.PeerSubscriber.WaitForPeers`: the `%500` progress message is not modelled. The channel's 16-slot buffer is not observable in the model.
- `Topology.SinglePublisherIsFirstLowest`: minimality is stated only for sequence numbers in `0 .. 9223372036854`. Outside that range, negative values and `int64` wrap-around make the source's result not the minimum (see `Topology.NegativeSequenceIsOverwritten`).
- Strings: Go strings are byte strings, while the model's `string` is a sequence of characters. Splitting on `-` and comparing with the output of `strconv.Itoa` agree between the two only because `-` and the decimal digits are single ASCII bytes; specifiers with multi-byte characters are compared character by character here.
- `strconv.Itoa(int(p.NodeTypeSeq))` (discovery.go:187): the conversion to `int` is modelled as lossless, which holds on a 64-bit platform; a 32-bit `int` would truncate the sequence number first.
