/**
 * `CrossNetworkInternalPeerId`: one peer handle over every network zone, a
 * closed sum of the zones' internal peer IDs with a total conversion from each.
 */
module NetworkAddress {
  import GarlicAddress

  /** A clear-net socket address; left abstract. */
  type SocketAddr(==)

  /** A Tor onion address; left abstract. */
  type OnionAddr(==)

  /** `InternalPeerID<A>`: a process-local peer handle within one zone; left
      abstract, with equality. */
  type InternalPeerID(==)<A>

  /** An identifier for a peer on any network; equality is derived. */
  datatype CrossNetworkInternalPeerId =
    | ClearNet(clearNet: InternalPeerID<SocketAddr>)
    | Tor(tor: InternalPeerID<OnionAddr>)
    | I2p(i2p: InternalPeerID<GarlicAddress.GarlicAddr>)

  /** `From<InternalPeerID<SocketAddr>>`: always the `ClearNet` variant around the ID. */
  function FromClearNet(id: InternalPeerID<SocketAddr>): (r: CrossNetworkInternalPeerId)
    ensures r.ClearNet? && r.clearNet == id
  {
    ClearNet(id)
  }

  /** `From<InternalPeerID<OnionAddr>>`: always the `Tor` variant around the ID. */
  function FromTor(id: InternalPeerID<OnionAddr>): (r: CrossNetworkInternalPeerId)
    ensures r.Tor? && r.tor == id
  {
    Tor(id)
  }

  /** `From<InternalPeerID<GarlicAddr>>`: always the `I2p` variant around the ID. */
  function FromI2p(id: InternalPeerID<GarlicAddress.GarlicAddr>): (r: CrossNetworkInternalPeerId)
    ensures r.I2p? && r.i2p == id
  {
    I2p(id)
  }

  /** Each conversion is injective: converted IDs are equal exactly when the
      typed IDs are. */
  lemma ConversionsInjective(
    c1: InternalPeerID<SocketAddr>, c2: InternalPeerID<SocketAddr>,
    t1: InternalPeerID<OnionAddr>, t2: InternalPeerID<OnionAddr>,
    g1: InternalPeerID<GarlicAddress.GarlicAddr>, g2: InternalPeerID<GarlicAddress.GarlicAddr>)
    ensures FromClearNet(c1) == FromClearNet(c2) <==> c1 == c2
    ensures FromTor(t1) == FromTor(t2) <==> t1 == t2
    ensures FromI2p(g1) == FromI2p(g2) <==> g1 == g2
  {
  }

  /** IDs converted from different zones never collide. */
  lemma ZonesNeverCollide(
    c: InternalPeerID<SocketAddr>, t: InternalPeerID<OnionAddr>,
    g: InternalPeerID<GarlicAddress.GarlicAddr>)
    ensures FromClearNet(c) != FromTor(t)
    ensures FromClearNet(c) != FromI2p(g)
    ensures FromTor(t) != FromI2p(g)
  {
  }

  /** Every value is exactly one variant, and is the conversion of its payload. */
  lemma EveryIdIsOneConversion(id: CrossNetworkInternalPeerId)
    ensures id.ClearNet? || id.Tor? || id.I2p?
    ensures !(id.ClearNet? && id.Tor?) && !(id.ClearNet? && id.I2p?) && !(id.Tor? && id.I2p?)
    ensures id.ClearNet? ==> id == FromClearNet(id.clearNet)
    ensures id.Tor? ==> id == FromTor(id.tor)
    ensures id.I2p? ==> id == FromI2p(id.i2p)
  {
  }
}
