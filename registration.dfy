/**
  The record every test node publishes on the "pubsub-test-peers" topic, and
  the error kinds of the discovery layer.
 */
module Registration {

  /** Go's peer.ID is a string type; only equality on it is used. */
  type PeerId = string

  const Int64Min: int := -0x8000_0000_0000_0000
  const Int64Max: int := 0x7fff_ffff_ffff_ffff

  /** Go's int64. */
  type Int64 = x: int | Int64Min <= x <= Int64Max

  /** PeerRegistration: Info.ID, NodeTypeSeq and IsPublisher (the addresses of Info are not modelled). */
  datatype PeerRegistration = PeerRegistration(id: PeerId, nodeTypeSeq: Int64, isPublisher: bool)

  /** What makes an operation of the discovery layer fail; Panic stands for a Go panic. */
  datatype Error =
    | PublishFailed
    | SubscribeFailed
    | NotEnoughPeerInfos(expected: int, got: nat)
    | Cancelled
    | Panic(reason: string)
    | ConnectFailed

  /** Per-attempt dial timeout of connectWithRetry, in seconds. */
  const PeerConnectTimeoutSeconds: nat := 10
  /** Number of attempts connectWithRetry makes before giving up. */
  const MaxConnectRetries: nat := 10

  /** No two registrations of the list share an identity. */
  predicate DistinctIds(peers: seq<PeerRegistration>)
  {
    forall i, j :: 0 <= i < j < |peers| ==> peers[i].id != peers[j].id
  }

  /** No registration of the list carries the identity `local`. */
  predicate Excludes(peers: seq<PeerRegistration>, local: PeerId)
  {
    forall i :: 0 <= i < |peers| ==> peers[i].id != local
  }
}
