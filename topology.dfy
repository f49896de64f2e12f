/**
  The Topology strategies of the discovery layer: given every other test node's
  registration, choose the peers to connect to. None of them looks at the local
  peer id; leaving the local node out is the job of the self-filter that runs
  when the registrations are collected (see module Discovery).
 */
module Topology {
  import opened Wrappers
  import opened Registration
  import Decimal

  /** The four implementations of the Topology interface, with their configuration. */
  datatype Topology =
    | RandomTopology(count: int)
    | RandomHonestTopology(count: int, publishersOnly: bool)
    | SinglePublisherTopology
    | FixedTopology(connections: seq<string>)

  function Min(a: int, b: int): int
  {
    if a < b then a else b
  }

  // ---------------------------------------------------------------------------
  // Random selection: a prefix of a permutation of the indices of `remote`.
  // rand.Perm is the only source of randomness; its result is a parameter.
  // ---------------------------------------------------------------------------

  predicate ValidIndices(idx: seq<int>, n: int)
  {
    forall i :: 0 <= i < |idx| ==> 0 <= idx[i] < n
  }

  predicate DistinctIndices(idx: seq<int>)
  {
    forall i, j :: 0 <= i < j < |idx| ==> idx[i] != idx[j]
  }

  /** What rand.Perm(n) returns: each of 0 .. n-1 once. */
  predicate IsPermutation(idx: seq<int>, n: nat)
  {
    |idx| == n && ValidIndices(idx, n) && DistinctIndices(idx)
  }

  /** The entries of `remote` at the positions `idx`, in the order of `idx`. */
  function Pick(remote: seq<PeerRegistration>, idx: seq<int>): seq<PeerRegistration>
    requires ValidIndices(idx, |remote|)
  {
    seq(|idx|, i requires 0 <= i < |idx| => remote[idx[i]])
  }

  /** Picking along a concatenation of positions concatenates the picks. */
  lemma PickConcat(remote: seq<PeerRegistration>, a: seq<int>, b: seq<int>)
    requires ValidIndices(a, |remote|) && ValidIndices(b, |remote|)
    ensures ValidIndices(a + b, |remote|)
    ensures Pick(remote, a + b) == Pick(remote, a) + Pick(remote, b)
  {
  }

  /** Positions below the last one pick the same entries from `remote` without its last entry. */
  lemma PickFromInit(remote: seq<PeerRegistration>, idx: seq<int>)
    requires |remote| > 0 && ValidIndices(idx, |remote| - 1)
    ensures Pick(remote, idx) == Pick(remote[..|remote| - 1], idx)
  {
  }

  /** Picking at pairwise distinct positions never takes an entry more often than `remote` holds it. */
  lemma {:induction false} PickSubMultiset(remote: seq<PeerRegistration>, idx: seq<int>)
    requires ValidIndices(idx, |remote|) && DistinctIndices(idx)
    ensures multiset(Pick(remote, idx)) <= multiset(remote)
    decreases |remote|
  {
    if |remote| == 0 {
      if |idx| > 0 {
        FirstIndexInRange(idx, 0);
        assert false;
      }
    } else {
      var last := |remote| - 1;
      var init := remote[..last];
      assert remote == init + [remote[last]];
      assert multiset(remote) == multiset(init) + multiset{remote[last]};
      if p :| 0 <= p < |idx| && idx[p] == last {
        var before, after := idx[..p], idx[p + 1..];
        assert idx == before + [last] + after;
        assert ValidIndices(before, last) && ValidIndices(after, last) && DistinctIndices(before + after) by {
          RemovePosition(idx, p, last);
        }
        PickSubMultiset(init, before + after);
        PickConcat(remote, before, [last]);
        PickConcat(remote, before + [last], after);
        PickConcat(init, before, after);
        PickFromInit(remote, before);
        PickFromInit(remote, after);
        assert Pick(remote, [last]) == [remote[last]];
        assert multiset(Pick(remote, idx)) == multiset(Pick(init, before + after)) + multiset{remote[last]};
      } else {
        assert ValidIndices(idx, last);
        PickFromInit(remote, idx);
        PickSubMultiset(init, idx);
      }
    }
  }

  lemma FirstIndexInRange(idx: seq<int>, n: int)
    requires |idx| > 0 && ValidIndices(idx, n)
    ensures 0 <= idx[0] < n
  {
  }

  /** Removing the position that holds the largest index leaves distinct indices below it. */
  lemma RemovePosition(idx: seq<int>, p: int, last: int)
    requires ValidIndices(idx, last + 1) && DistinctIndices(idx)
    requires 0 <= p < |idx| && idx[p] == last
    ensures ValidIndices(idx[..p], last) && ValidIndices(idx[p + 1..], last)
    ensures DistinctIndices(idx[..p] + idx[p + 1..])
  {
    var rest := idx[..p] + idx[p + 1..];
    assert forall i :: 0 <= i < |rest| ==> rest[i] == (if i < p then idx[i] else idx[i + 1]);
    forall i | 0 <= i < |idx| && i != p ensures idx[i] < last {
      if i < p { assert idx[i] != idx[p]; } else { assert idx[p] != idx[i]; }
    }
  }

  /** A sub-multiset as large as the whole is the whole. */
  lemma SubMultisetOfSameSize<T>(a: multiset<T>, b: multiset<T>)
    requires a <= b && |a| == |b|
    ensures a == b
  {
    assert b == a + (b - a);
    assert |b - a| == 0;
  }

  /** The panic of make() on a negative length. */
  const MakeLenPanic: Error := Panic("makeslice: len out of range")

  /**
    What RandomTopology{n} selects from `remote` given the permutation `indices`:
    nothing for an empty `remote` or n = 0, the make() panic for a negative n,
    otherwise the entries at the first min(n, |remote|) positions of `indices`.
   */
  function RandomSelection(n: int, remote: seq<PeerRegistration>, indices: seq<int>): Result<seq<PeerRegistration>, Error>
    requires IsPermutation(indices, |remote|)
  {
    if |remote| == 0 || n == 0 then Success([])
    else if n < 0 then Failure(MakeLenPanic)
    else Success(Pick(remote, indices[..Min(n, |remote|)]))
  }

  /**
    RandomTopology.SelectNPeers (and, with n = Count, RandomTopology.SelectPeers):
    the first min(n, |remote|) entries of `remote` in the order of the permutation
    `indices`; nothing for an empty `remote` or n = 0. A negative n reaches
    make() and panics.
   */
  method SelectNPeers(n: int, local: PeerId, remote: seq<PeerRegistration>, indices: seq<int>)
    returns (r: Result<seq<PeerRegistration>, Error>)
    requires IsPermutation(indices, |remote|)
    ensures r == RandomSelection(n, remote, indices)
    ensures r.Failure? <==> |remote| > 0 && n < 0
    ensures r.Failure? ==> r.error == MakeLenPanic
    ensures remote == [] || n == 0 ==> r == Success([])
    ensures r.Success? ==> |r.value| == (if remote == [] then 0 else Min(n, |remote|))
    ensures r.Success? ==> forall i :: 0 <= i < |r.value| ==> r.value[i] == remote[indices[i]]
    ensures r.Success? ==> multiset(r.value) <= multiset(remote)
    ensures r.Success? && n >= |remote| ==> multiset(r.value) == multiset(remote)
  {
    if |remote| == 0 || n == 0 {
      return Success([]);
    }
    var m := n;
    if m > |remote| {
      m := |remote|;
    }
    if m < 0 {
      return Failure(MakeLenPanic);
    }
    var out := new PeerRegistration[m];
    for i := 0 to m
      invariant forall k :: 0 <= k < i ==> out[k] == remote[indices[k]]
    {
      out[i] := remote[indices[i]];
    }
    var s := out[..];
    assert s == Pick(remote, indices[..m]);
    PickSubMultiset(remote, indices[..m]);
    if n >= |remote| {
      SubMultisetOfSameSize(multiset(s), multiset(remote));
    }
    r := Success(s);
  }

  /** RandomTopology.SelectPeers: SelectNPeers with the configured Count. */
  method RandomSelectPeers(count: int, local: PeerId, remote: seq<PeerRegistration>, indices: seq<int>)
    returns (r: Result<seq<PeerRegistration>, Error>)
    requires IsPermutation(indices, |remote|)
    ensures r == RandomSelection(count, remote, indices)
    ensures r.Failure? <==> |remote| > 0 && count < 0
    ensures r.Failure? ==> r.error == MakeLenPanic
    ensures remote == [] || count == 0 ==> r == Success([])
    ensures r.Success? ==> |r.value| == (if remote == [] then 0 else Min(count, |remote|))
    ensures r.Success? ==> forall i :: 0 <= i < |r.value| ==> r.value[i] == remote[indices[i]]
    ensures r.Success? ==> multiset(r.value) <= multiset(remote)
  {
    r := SelectNPeers(count, local, remote, indices);
  }

  /** Positions chosen from a permutation are distinct, so distinct identities stay distinct. */
  lemma SelectionKeepsDistinctIds(remote: seq<PeerRegistration>, indices: seq<int>, r: seq<PeerRegistration>)
    requires IsPermutation(indices, |remote|) && |r| <= |remote|
    requires forall i :: 0 <= i < |r| ==> r[i] == remote[indices[i]]
    requires DistinctIds(remote)
    ensures DistinctIds(r)
  {
    forall i, j | 0 <= i < j < |r| ensures r[i].id != r[j].id {
      assert indices[i] != indices[j];
      if indices[i] < indices[j] {
        assert remote[indices[i]].id != remote[indices[j]].id;
      } else {
        assert remote[indices[j]].id != remote[indices[i]].id;
      }
    }
  }

  // ---------------------------------------------------------------------------
  // RandomHonestTopology
  // ---------------------------------------------------------------------------

  /** A peer RandomHonestTopology may choose: any peer, or only publishers. */
  predicate IsEligible(p: PeerRegistration, publishersOnly: bool)
  {
    !publishersOnly || p.isPublisher
  }

  /** The eligible peers of `remote`, in `remote` order. */
  function Eligible(remote: seq<PeerRegistration>, publishersOnly: bool): seq<PeerRegistration>
  {
    if remote == [] then []
    else
      var last := remote[|remote| - 1];
      Eligible(remote[..|remote| - 1], publishersOnly) + (if IsEligible(last, publishersOnly) then [last] else [])
  }

  /** Without the publishers-only flag nothing is filtered out. */
  lemma {:induction false} EligibleAll(remote: seq<PeerRegistration>)
    ensures Eligible(remote, false) == remote
  {
    if remote != [] {
      EligibleAll(remote[..|remote| - 1]);
      assert remote == remote[..|remote| - 1] + [remote[|remote| - 1]];
    }
  }

  /** A peer survives the filter exactly when it is in `remote` and eligible; none is added. */
  lemma {:induction false} EligibleMembers(remote: seq<PeerRegistration>, publishersOnly: bool)
    ensures forall p :: p in Eligible(remote, publishersOnly) <==> p in remote && IsEligible(p, publishersOnly)
    ensures multiset(Eligible(remote, publishersOnly)) <= multiset(remote)
  {
    if remote != [] {
      var init := remote[..|remote| - 1];
      EligibleMembers(init, publishersOnly);
      assert remote == init + [remote[|remote| - 1]];
    }
  }

  /** The filtering loop of RandomHonestTopology.SelectPeers. */
  method FilterEligible(remote: seq<PeerRegistration>, publishersOnly: bool) returns (filtered: seq<PeerRegistration>)
    ensures filtered == Eligible(remote, publishersOnly)
  {
    filtered := [];
    for i := 0 to |remote|
      invariant filtered == Eligible(remote[..i], publishersOnly)
    {
      assert remote[..i + 1][..i] == remote[..i];
      if !publishersOnly || remote[i].isPublisher {
        filtered := filtered + [remote[i]];
      }
    }
    assert remote[..|remote|] == remote;
  }

  /**
    RandomHonestTopology.SelectPeers: RandomTopology{Count} applied to the eligible
    peers; `indices` is the permutation drawn for the filtered list.
   */
  method RandomHonestSelectPeers(count: int, publishersOnly: bool, local: PeerId,
                                 remote: seq<PeerRegistration>, indices: seq<int>)
    returns (r: Result<seq<PeerRegistration>, Error>)
    requires IsPermutation(indices, |Eligible(remote, publishersOnly)|)
    ensures r == if remote == [] then Success([]) else RandomSelection(count, Eligible(remote, publishersOnly), indices)
    ensures r.Failure? <==> |Eligible(remote, publishersOnly)| > 0 && count < 0
    ensures r.Failure? ==> r.error == MakeLenPanic
    ensures remote == [] ==> r == Success([])
    ensures r.Success? ==> |r.value| == (if Eligible(remote, publishersOnly) == [] then 0 else Min(count, |Eligible(remote, publishersOnly)|))
    ensures r.Success? ==> forall i :: 0 <= i < |r.value| ==> r.value[i] == Eligible(remote, publishersOnly)[indices[i]]
    ensures r.Success? ==> forall i :: 0 <= i < |r.value| ==> IsEligible(r.value[i], publishersOnly)
    ensures r.Success? ==> multiset(r.value) <= multiset(remote)
  {
    if |remote| == 0 {
      return Success([]);
    }
    var filtered := FilterEligible(remote, publishersOnly);
    r := RandomSelectPeers(count, local, filtered, indices);
    EligibleMembers(remote, publishersOnly);
    if r.Success? {
      forall i | 0 <= i < |r.value| ensures IsEligible(r.value[i], publishersOnly) {
        assert r.value[i] in multiset(r.value);
      }
    }
  }

  // ---------------------------------------------------------------------------
  // SinglePublisherTopology
  // ---------------------------------------------------------------------------

  const SeqScale: int := 1000000
  const Int64Span: int := 0x1_0000_0000_0000_0000
  /** The largest sequence number whose scaled value does not wrap around. */
  const MaxUnwrappedSeq: int := 9223372036854

  /** Two's complement wrap-around of an integer into int64. */
  function Wrap64(x: int): Int64
  {
    (x - Int64Min) % Int64Span + Int64Min
  }

  /** int64(seq * 1000000) as computed by selectSinglePublisher. */
  function Scaled(sequence: Int64): Int64
  {
    Wrap64(sequence * SeqScale)
  }

  /** The loop variables lowest and lowestp of selectSinglePublisher. */
  datatype ScanState = ScanState(lowest: Int64, lowestp: PeerRegistration)

  const NoRegistration: PeerRegistration := PeerRegistration("", 0, false)

  /** One iteration of selectSinglePublisher's loop. */
  function ScanStep(st: ScanState, p: PeerRegistration): ScanState
  {
    if p.isPublisher && (st.lowest < 0 || Scaled(p.nodeTypeSeq) < st.lowest) then ScanState(Scaled(p.nodeTypeSeq), p)
    else st
  }

  /** The loop state of selectSinglePublisher after the first n peers. */
  function ScanLowest(peers: seq<PeerRegistration>, n: nat): ScanState
    requires n <= |peers|
  {
    if n == 0 then ScanState(-1, NoRegistration) else ScanStep(ScanLowest(peers, n - 1), peers[n - 1])
  }

  /** selectSinglePublisher: nil (None) when the sentinel -1 survives the loop. */
  function SinglePublisher(peers: seq<PeerRegistration>): Option<PeerRegistration>
  {
    var st := ScanLowest(peers, |peers|);
    if st.lowest == -1 then None else Some(st.lowestp)
  }

  /** The loop of selectSinglePublisher. */
  method SelectSinglePublisher(peers: seq<PeerRegistration>) returns (r: Option<PeerRegistration>)
    ensures r == SinglePublisher(peers)
  {
    var lowest: Int64 := -1;
    var lowestp := NoRegistration;
    for i := 0 to |peers|
      invariant ScanState(lowest, lowestp) == ScanLowest(peers, i)
    {
      var p := peers[i];
      if p.isPublisher {
        var current := Scaled(p.nodeTypeSeq);
        if lowest < 0 || current < lowest {
          lowest := current;
          lowestp := p;
        }
      }
    }
    if lowest == -1 {
      return None;
    }
    return Some(lowestp);
  }

  /** SinglePublisherTopology.SelectPeers: the selected publisher as a one-element list, or nothing. */
  method SinglePublisherSelectPeers(local: PeerId, remote: seq<PeerRegistration>) returns (r: seq<PeerRegistration>)
    ensures SinglePublisher(remote).None? ==> r == []
    ensures SinglePublisher(remote).Some? ==> r == [SinglePublisher(remote).value]
  {
    var publisher := SelectSinglePublisher(remote);
    if publisher.Some? {
      return [publisher.value];
    }
    return [];
  }

  /** The int64 wrap-around of an even number is never -1, which is odd. */
  lemma WrapOfDoubleIsNotMinusOne(h: int)
    ensures Wrap64(2 * h) != -1
  {
    var y := 2 * h + 0x8000_0000_0000_0000;
    var q, m := y / 0x1_0000_0000_0000_0000, y % 0x1_0000_0000_0000_0000;
    assert y == 0x1_0000_0000_0000_0000 * q + m;
    assert Wrap64(2 * h) == m - 0x8000_0000_0000_0000;
  }

  /** The scaled value of a sequence number is even, so it never equals the sentinel -1. */
  lemma ScaledIsNotSentinel(sequence: Int64)
    ensures Scaled(sequence) != -1
  {
    var h := sequence * 500000;
    assert sequence * SeqScale == 2 * h;
    WrapOfDoubleIsNotMinusOne(h);
  }

  /** In the unwrapped range the scaled value is the true product, and the order of sequence numbers is kept. */
  lemma ScaledUnwrapped(sequence: Int64)
    requires 0 <= sequence <= MaxUnwrappedSeq
    ensures Scaled(sequence) == sequence * SeqScale >= 0
  {
    var y := sequence * SeqScale - Int64Min;
    assert 0 <= y < Int64Span;
  }

  predicate HasPublisher(peers: seq<PeerRegistration>, n: nat)
    requires n <= |peers|
  {
    exists i :: 0 <= i < n && peers[i].isPublisher
  }

  /** The sentinel survives the first n steps exactly when none of those peers is a publisher. */
  lemma {:induction false} ScanSentinel(peers: seq<PeerRegistration>, n: nat)
    requires n <= |peers|
    ensures ScanLowest(peers, n).lowest == -1 <==> !HasPublisher(peers, n)
  {
    if n > 0 {
      ScanSentinel(peers, n - 1);
      ScaledIsNotSentinel(peers[n - 1].nodeTypeSeq);
      if HasPublisher(peers, n - 1) {
        var i :| 0 <= i < n - 1 && peers[i].isPublisher;
        assert 0 <= i < n && peers[i].isPublisher;
      }
    }
  }

  /** Whatever selectSinglePublisher returns is one of the peers and a publisher. */
  lemma {:induction false} ScanPicksPublisher(peers: seq<PeerRegistration>, n: nat)
    requires n <= |peers|
    ensures var st := ScanLowest(peers, n);
      st.lowest != -1 ==> st.lowestp.isPublisher && st.lowestp in peers[..n]
  {
    if n > 0 {
      ScanPicksPublisher(peers, n - 1);
      ScanSentinel(peers, n - 1);
      assert peers[..n - 1] <= peers[..n];
    }
  }

  /** selectSinglePublisher returns nil exactly when `peers` holds no publisher. */
  lemma SinglePublisherNoneIff(peers: seq<PeerRegistration>)
    ensures SinglePublisher(peers).None? <==> forall i :: 0 <= i < |peers| ==> !peers[i].isPublisher
  {
    ScanSentinel(peers, |peers|);
  }

  /** Otherwise the chosen registration is a publisher of `peers`. */
  lemma SinglePublisherIsPublisher(peers: seq<PeerRegistration>)
    ensures SinglePublisher(peers).Some? ==> SinglePublisher(peers).value in peers && SinglePublisher(peers).value.isPublisher
  {
    ScanPicksPublisher(peers, |peers|);
    assert peers[..|peers|] == peers;
  }

  /** Every publisher among `peers` has a sequence number in 0 .. MaxUnwrappedSeq. */
  predicate SequencesInRange(peers: seq<PeerRegistration>)
  {
    forall i :: 0 <= i < |peers| && peers[i].isPublisher ==> 0 <= peers[i].nodeTypeSeq <= MaxUnwrappedSeq
  }

  /** Among the first n peers, position k holds the first publisher of least sequence number. */
  predicate FirstLowestAt(peers: seq<PeerRegistration>, n: nat, k: int)
    requires n <= |peers|
  {
    && 0 <= k < n
    && peers[k].isPublisher
    && (forall j :: 0 <= j < k && peers[j].isPublisher ==> peers[j].nodeTypeSeq > peers[k].nodeTypeSeq)
    && (forall j :: k < j < n && peers[j].isPublisher ==> peers[j].nodeTypeSeq >= peers[k].nodeTypeSeq)
  }

  /** The loop state after n steps points at the first lowest publisher so far (witness k), or at none (k = -1). */
  lemma {:induction false} ScanFindsFirstLowest(peers: seq<PeerRegistration>, n: nat) returns (k: int)
    requires n <= |peers| && SequencesInRange(peers)
    ensures k == -1 ==> ScanLowest(peers, n).lowest == -1
    ensures k != -1 ==> FirstLowestAt(peers, n, k) && ScanLowest(peers, n) == ScanState(Scaled(peers[k].nodeTypeSeq), peers[k])
  {
    if n == 0 {
      return -1;
    }
    var prev := ScanLowest(peers, n - 1);
    var k0 := ScanFindsFirstLowest(peers, n - 1);
    var p := peers[n - 1];
    if !p.isPublisher {
      return k0;
    }
    ScaledUnwrapped(p.nodeTypeSeq);
    if k0 == -1 {
      ScanSentinel(peers, n - 1);
      return n - 1;
    }
    ScaledUnwrapped(peers[k0].nodeTypeSeq);
    if p.nodeTypeSeq < peers[k0].nodeTypeSeq {
      k := n - 1;
      forall j | 0 <= j < k && peers[j].isPublisher ensures peers[j].nodeTypeSeq > p.nodeTypeSeq {
        if j != k0 {
          assert peers[j].nodeTypeSeq >= peers[k0].nodeTypeSeq;
        }
      }
    } else {
      k := k0;
    }
  }

  /**
    For sequence numbers in 0 .. MaxUnwrappedSeq, selectSinglePublisher returns the
    publisher of least sequence number, the first one in list order on a tie.
   */
  lemma SinglePublisherIsFirstLowest(peers: seq<PeerRegistration>)
    requires SequencesInRange(peers)
    ensures SinglePublisher(peers).Some? ==>
      exists k :: FirstLowestAt(peers, |peers|, k) && SinglePublisher(peers).value == peers[k]
  {
    var k := ScanFindsFirstLowest(peers, |peers|);
  }

  /**
    With a negative sequence number the minimum is not found: `lowest < 0` lets
    every later publisher replace the one recorded.
   */
  lemma NegativeSequenceIsOverwritten()
    ensures SinglePublisher([PeerRegistration("a", -5, true), PeerRegistration("b", 3, true)])
         == Some(PeerRegistration("b", 3, true))
  {
    var peers := [PeerRegistration("a", -5, true), PeerRegistration("b", 3, true)];
    assert Scaled(-5) == -5000000;
    ScaledUnwrapped(3);
    assert ScanLowest(peers, 1) == ScanState(-5000000, peers[0]);
  }

  /** Publishers of sequence 3 and 1 and a lurker of sequence 2: the publisher of sequence 1 is chosen. */
  lemma SinglePublisherExample()
    ensures SinglePublisher([PeerRegistration("a", 3, true), PeerRegistration("b", 1, true), PeerRegistration("c", 2, false)])
         == Some(PeerRegistration("b", 1, true))
  {
    var peers := [PeerRegistration("a", 3, true), PeerRegistration("b", 1, true), PeerRegistration("c", 2, false)];
    ScaledUnwrapped(3);
    ScaledUnwrapped(1);
    assert ScanLowest(peers, 1) == ScanState(3000000, peers[0]);
    assert ScanLowest(peers, 2) == ScanState(1000000, peers[1]);
  }

  // ---------------------------------------------------------------------------
  // FixedTopology
  // ---------------------------------------------------------------------------

  /** The panic of FixedTopology.SelectPeers on a malformed specifier. */
  const MalformedSpec: Error := Panic("Badly formatted topology file")

  /** A connection specifier is well formed when it splits on "-" into exactly three fields. */
  predicate WellFormedSpec(spec: string)
  {
    |Decimal.Split(spec, '-')| == 3
  }

  /** The first field of a specifier: the sequence number it names. */
  function SeqField(spec: string): string
  {
    Decimal.Split(spec, '-')[0]
  }

  /** The peers of `remote` whose decimal sequence number is `field`, in `remote` order. */
  function Matching(field: string, remote: seq<PeerRegistration>): seq<PeerRegistration>
  {
    if remote == [] then []
    else
      var last := remote[|remote| - 1];
      Matching(field, remote[..|remote| - 1]) + (if field == Decimal.Itoa(last.nodeTypeSeq) then [last] else [])
  }

  /** The selection of the first n specifiers, failing at the first malformed one. */
  function FixedScan(specs: seq<string>, n: nat, remote: seq<PeerRegistration>): Result<seq<PeerRegistration>, Error>
    requires n <= |specs|
  {
    if n == 0 then Success([])
    else
      match FixedScan(specs, n - 1, remote)
      case Failure(e) => Failure(e)
      case Success(out) =>
        if !WellFormedSpec(specs[n - 1]) then Failure(MalformedSpec)
        else Success(out + Matching(SeqField(specs[n - 1]), remote))
  }

  /** FixedTopology.SelectPeers: nothing for an empty `remote`, otherwise every specifier's matches in turn. */
  function FixedSelection(specs: seq<string>, remote: seq<PeerRegistration>): Result<seq<PeerRegistration>, Error>
  {
    if |remote| == 0 then Success([]) else FixedScan(specs, |specs|, remote)
  }

  /** Extending the scanned prefix of `remote` by one peer appends that peer when it matches. */
  lemma MatchingExtend(field: string, remote: seq<PeerRegistration>, j: nat)
    requires j < |remote|
    ensures Matching(field, remote[..j + 1])
         == Matching(field, remote[..j]) + (if field == Decimal.Itoa(remote[j].nodeTypeSeq) then [remote[j]] else [])
  {
    assert remote[..j + 1][..j] == remote[..j];
  }

  /** The inner loop of FixedTopology.SelectPeers: append the peers matching one field. */
  method AppendMatching(out: seq<PeerRegistration>, field: string, remote: seq<PeerRegistration>)
    returns (r: seq<PeerRegistration>)
    ensures r == out + Matching(field, remote)
  {
    r := out;
    for j := 0 to |remote|
      invariant r == out + Matching(field, remote[..j])
    {
      MatchingExtend(field, remote, j);
      if field == Decimal.Itoa(remote[j].nodeTypeSeq) {
        r := r + [remote[j]];
      }
    }
    assert remote[..|remote|] == remote;
  }

  /** The nested loops of FixedTopology.SelectPeers. */
  method FixedSelectPeers(specs: seq<string>, local: PeerId, remote: seq<PeerRegistration>)
    returns (r: Result<seq<PeerRegistration>, Error>)
    ensures r == FixedSelection(specs, remote)
  {
    if |remote| == 0 {
      return Success([]);
    }
    var out := [];
    for c := 0 to |specs|
      invariant FixedScan(specs, c, remote) == Success(out)
    {
      var parts := Decimal.Split(specs[c], '-');
      if |parts| != 3 {
        FixedScanFails(specs, |specs|, remote);
        assert !WellFormedSpec(specs[c]);
        return Failure(MalformedSpec);
      }
      out := AppendMatching(out, parts[0], remote);
    }
    return Success(out);
  }

  /** A peer matches a field exactly when it is in `remote` and its decimal sequence number is the field. */
  lemma {:induction false} MatchingMembers(field: string, remote: seq<PeerRegistration>)
    ensures forall p :: p in Matching(field, remote) <==> p in remote && field == Decimal.Itoa(p.nodeTypeSeq)
  {
    if remote != [] {
      var init := remote[..|remote| - 1];
      MatchingMembers(field, init);
      assert remote == init + [remote[|remote| - 1]];
    }
  }

  /** The field written by Itoa(k) matches exactly the peers with sequence number k. */
  lemma MatchingSequence(k: int, remote: seq<PeerRegistration>)
    ensures forall p :: p in Matching(Decimal.Itoa(k), remote) <==> p in remote && p.nodeTypeSeq == k
  {
    MatchingMembers(Decimal.Itoa(k), remote);
    forall p | p in remote ensures Decimal.Itoa(k) == Decimal.Itoa(p.nodeTypeSeq) <==> p.nodeTypeSeq == k {
      Decimal.ItoaInjective(k, p.nodeTypeSeq);
    }
  }

  /** The scan fails exactly when one of the first n specifiers is malformed. */
  lemma {:induction false} FixedScanFails(specs: seq<string>, n: nat, remote: seq<PeerRegistration>)
    requires n <= |specs|
    ensures FixedScan(specs, n, remote).Failure? <==> exists i :: 0 <= i < n && !WellFormedSpec(specs[i])
    ensures FixedScan(specs, n, remote).Failure? ==> FixedScan(specs, n, remote).error == MalformedSpec
  {
    if n > 0 {
      FixedScanFails(specs, n - 1, remote);
      if exists i :: 0 <= i < n - 1 && !WellFormedSpec(specs[i]) {
        var i :| 0 <= i < n - 1 && !WellFormedSpec(specs[i]);
        assert 0 <= i < n;
      }
    }
  }

  /** A successful scan selects exactly the peers named by the first field of one of the first n specifiers. */
  lemma {:induction false} FixedScanMembers(specs: seq<string>, n: nat, remote: seq<PeerRegistration>)
    requires n <= |specs| && FixedScan(specs, n, remote).Success?
    ensures forall p :: p in FixedScan(specs, n, remote).value <==>
      p in remote && exists i :: 0 <= i < n && SeqField(specs[i]) == Decimal.Itoa(p.nodeTypeSeq)
  {
    if n > 0 {
      FixedScanMembers(specs, n - 1, remote);
      MatchingMembers(SeqField(specs[n - 1]), remote);
      forall p ensures p in FixedScan(specs, n, remote).value <==>
        p in remote && exists i :: 0 <= i < n && SeqField(specs[i]) == Decimal.Itoa(p.nodeTypeSeq)
      {
        if p in remote && exists i :: 0 <= i < n && SeqField(specs[i]) == Decimal.Itoa(p.nodeTypeSeq) {
          var i :| 0 <= i < n && SeqField(specs[i]) == Decimal.Itoa(p.nodeTypeSeq);
          if i < n - 1 {
            assert exists i' :: 0 <= i' < n - 1 && SeqField(specs[i']) == Decimal.Itoa(p.nodeTypeSeq);
          }
        }
      }
    }
  }

  /** FixedTopology fails (the Go panic) exactly when `remote` is non-empty and some specifier is malformed. */
  lemma FixedSelectionFails(specs: seq<string>, remote: seq<PeerRegistration>)
    ensures FixedSelection(specs, remote).Failure? <==>
      |remote| > 0 && exists i :: 0 <= i < |specs| && !WellFormedSpec(specs[i])
    ensures FixedSelection(specs, remote).Failure? ==> FixedSelection(specs, remote).error == MalformedSpec
  {
    FixedScanFails(specs, |specs|, remote);
  }

  /**
    On success FixedTopology selects exactly the peers of `remote` whose decimal
    sequence number is the first field of some specifier; such a field holds no
    dash, so a peer with a negative sequence number is never selected.
   */
  lemma FixedSelectionMembers(specs: seq<string>, remote: seq<PeerRegistration>)
    requires FixedSelection(specs, remote).Success?
    ensures forall p :: p in FixedSelection(specs, remote).value <==>
      p in remote && exists i :: 0 <= i < |specs| && SeqField(specs[i]) == Decimal.Itoa(p.nodeTypeSeq)
    ensures forall p :: p in FixedSelection(specs, remote).value ==> p.nodeTypeSeq >= 0
  {
    if |remote| > 0 {
      FixedScanMembers(specs, |specs|, remote);
      forall p | p in FixedSelection(specs, remote).value ensures p.nodeTypeSeq >= 0 {
        var i :| 0 <= i < |specs| && SeqField(specs[i]) == Decimal.Itoa(p.nodeTypeSeq);
        Decimal.SplitPiecesHaveNoSeparator(specs[i], '-');
        Decimal.ItoaDash(p.nodeTypeSeq);
      }
    }
  }

  // ---------------------------------------------------------------------------
  // The Topology interface
  // ---------------------------------------------------------------------------

  /** The length of the list whose permutation the policy draws from rand.Perm (0: it draws none). */
  function PoolSize(t: Topology, remote: seq<PeerRegistration>): nat
  {
    match t
    case RandomTopology(_) => |remote|
    case RandomHonestTopology(_, publishersOnly) => |Eligible(remote, publishersOnly)|
    case _ => 0
  }

  /** Whether Topology.SelectPeers panics: a negative count reaching make(), or a malformed specifier. */
  predicate SelectionPanics(t: Topology, remote: seq<PeerRegistration>)
  {
    match t
    case RandomTopology(count) => |remote| > 0 && count < 0
    case RandomHonestTopology(count, publishersOnly) => |Eligible(remote, publishersOnly)| > 0 && count < 0
    case SinglePublisherTopology => false
    case FixedTopology(connections) => |remote| > 0 && exists i :: 0 <= i < |connections| && !WellFormedSpec(connections[i])
  }

  /** What Topology.SelectPeers returns for each implementation, given the permutation rand.Perm draws. */
  function Selection(t: Topology, remote: seq<PeerRegistration>, indices: seq<int>): Result<seq<PeerRegistration>, Error>
    requires IsPermutation(indices, PoolSize(t, remote))
  {
    match t
    case RandomTopology(count) => RandomSelection(count, remote, indices)
    case RandomHonestTopology(count, publishersOnly) =>
      if remote == [] then Success([]) else RandomSelection(count, Eligible(remote, publishersOnly), indices)
    case SinglePublisherTopology =>
      if SinglePublisher(remote).Some? then Success([SinglePublisher(remote).value]) else Success([])
    case FixedTopology(connections) => FixedSelection(connections, remote)
  }

  /** RandomTopology fails exactly for a negative count on a non-empty list, and selects only peers of the list. */
  lemma RandomSelectionSpec(n: int, remote: seq<PeerRegistration>, indices: seq<int>)
    requires IsPermutation(indices, |remote|)
    ensures var r := RandomSelection(n, remote, indices);
      && (r.Failure? <==> |remote| > 0 && n < 0)
      && (r.Failure? ==> r.error == MakeLenPanic)
      && (r.Success? ==> forall i :: 0 <= i < |r.value| ==> r.value[i] in remote)
  {
    if |remote| > 0 && n > 0 {
      var v := Pick(remote, indices[..Min(n, |remote|)]);
      forall i | 0 <= i < |v| ensures v[i] in remote {
        assert indices[..Min(n, |remote|)][i] == indices[i];
      }
    }
  }

  /** A list drawn from `remote` leaves out every identity `remote` leaves out. */
  lemma ExcludesDrawn(v: seq<PeerRegistration>, remote: seq<PeerRegistration>, local: PeerId)
    requires forall i :: 0 <= i < |v| ==> v[i] in remote
    requires Excludes(remote, local)
    ensures Excludes(v, local)
  {
    forall i | 0 <= i < |v| ensures v[i].id != local {
      var j :| 0 <= j < |remote| && remote[j] == v[i];
    }
  }

  /**
    Every implementation fails exactly where the Go code panics, with one of the
    two panics, and selects only peers of `remote`; so a `remote` without the
    local peer yields a selection without it.
   */
  lemma SelectionSpec(t: Topology, local: PeerId, remote: seq<PeerRegistration>, indices: seq<int>)
    requires IsPermutation(indices, PoolSize(t, remote))
    ensures var r := Selection(t, remote, indices);
      && (r.Failure? <==> SelectionPanics(t, remote))
      && (r.Failure? ==> r.error == MakeLenPanic || r.error == MalformedSpec)
      && (r.Success? ==> forall i :: 0 <= i < |r.value| ==> r.value[i] in remote)
      && (r.Success? && Excludes(remote, local) ==> Excludes(r.value, local))
  {
    var r := Selection(t, remote, indices);
    match t {
      case RandomTopology(count) =>
        RandomSelectionSpec(count, remote, indices);
      case RandomHonestTopology(count, publishersOnly) =>
        var e := Eligible(remote, publishersOnly);
        EligibleMembers(remote, publishersOnly);
        RandomSelectionSpec(count, e, indices);
        if remote == [] {
          assert e == [];
        }
      case SinglePublisherTopology =>
        SinglePublisherIsPublisher(remote);
      case FixedTopology(connections) =>
        FixedSelectionFails(connections, remote);
        if r.Success? {
          FixedSelectionMembers(connections, remote);
        }
    }
    if r.Success? && Excludes(remote, local) {
      ExcludesDrawn(r.value, remote, local);
    }
  }

  /** Topology.SelectPeers for every implementation: the selection of the configured strategy. */
  method SelectPeers(t: Topology, local: PeerId, remote: seq<PeerRegistration>, indices: seq<int>)
    returns (r: Result<seq<PeerRegistration>, Error>)
    requires IsPermutation(indices, PoolSize(t, remote))
    ensures r == Selection(t, remote, indices)
    ensures r.Failure? <==> SelectionPanics(t, remote)
    ensures r.Success? ==> forall i :: 0 <= i < |r.value| ==> r.value[i] in remote
    ensures r.Success? && Excludes(remote, local) ==> Excludes(r.value, local)
  {
    SelectionSpec(t, local, remote, indices);
    match t
    case RandomTopology(count) =>
      r := RandomSelectPeers(count, local, remote, indices);
    case RandomHonestTopology(count, publishersOnly) =>
      r := RandomHonestSelectPeers(count, publishersOnly, local, remote, indices);
    case SinglePublisherTopology =>
      var s := SinglePublisherSelectPeers(local, remote);
      r := Success(s);
    case FixedTopology(connections) =>
      r := FixedSelectPeers(connections, local, remote);
  }

  /** The specifier "5-x-y" over peers of sequence 5 and 7 selects the peer of sequence 5. */
  lemma FixedExample()
    ensures FixedSelection(["5-x-y"], [PeerRegistration("a", 5, false), PeerRegistration("b", 7, false)])
         == Success([PeerRegistration("a", 5, false)])
  {
    var remote := [PeerRegistration("a", 5, false), PeerRegistration("b", 7, false)];
    assert "5-x-y" == Decimal.Join(["5", "x", "y"], '-');
    Decimal.SplitJoin(["5", "x", "y"], '-');
    assert Decimal.Itoa(5) == "5" && Decimal.Itoa(7) == "7";
    assert SeqField("5-x-y") == "5";
    assert Matching("5", remote[..1]) == [remote[0]];
    assert Matching("5", remote) == [remote[0]];
    assert FixedScan(["5-x-y"], 1, remote) == Success([] + Matching("5", remote));
  }

  /** The two-field specifier "5-x" is malformed. */
  lemma FixedMalformedExample()
    ensures FixedSelection(["5-x"], [PeerRegistration("a", 5, false)]) == Failure(MalformedSpec)
  {
    assert "5-x" == Decimal.Join(["5", "x"], '-');
    Decimal.SplitJoin(["5", "x"], '-');
  }
}
