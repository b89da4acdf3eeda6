/**
 * The I2P network zone: the `NetZoneAddress` capability of `GarlicAddr` and
 * the zone's three policy constants.
 */
module I2pZone {
  import opened Bytes
  import opened GarlicAddress

  /** The ban key of an I2P address: its 32-byte destination. */
  type BanId = Destination

  /** `ban_id`: the destination, whatever the port. */
  function BanIdOf(a: GarlicAddr): (id: BanId)
    ensures id == a.destination
  {
    a.destination
  }

  /** Two addresses share a ban key exactly when they share a destination, so
      addresses that differ only in port are banned together. */
  lemma BanIdIgnoresPort(a: GarlicAddr, b: GarlicAddr)
    ensures BanIdOf(a) == BanIdOf(b) <==> a.destination == b.destination
    ensures BanIdOf(a) == BanIdOf(GarlicAddr(a.destination, b.port))
  {
  }

  /** `should_add_to_peer_list`: every I2P address is admitted. */
  function ShouldAddToPeerList(a: GarlicAddr): (admit: bool)
    ensures admit
  {
    true
  }

  /** The place a `&mut GarlicAddr` points to, for the capability's in-place methods. */
  class AddrSlot {
    var addr: GarlicAddr

    constructor (a: GarlicAddr)
      ensures addr == a
    {
      addr := a;
    }

    /** `set_port`: the port becomes `port`; the destination, and so the ban key, stay. */
    method SetPort(port: u16)
      modifies this
      ensures addr.port == port
      ensures addr.destination == old(addr.destination)
      ensures BanIdOf(addr) == old(BanIdOf(addr))
    {
      addr := addr.(port := port);
    }

    /** `make_canonical`: a stored destination is already canonical, so nothing
        changes; applying it again changes nothing either. */
    method MakeCanonical()
      modifies this
      ensures addr == old(addr)
    {
    }
  }

  /** `NetworkZone::NAME` of `I2p`. */
  const Name: string := "I2p"

  /** `CHECK_NODE_ID`: node IDs are not checked, which would fingerprint peers. */
  const CheckNodeId: bool := false

  /** `BROADCAST_OWN_ADDR`: the node advertises its own address in this zone. */
  const BroadcastOwnAddr: bool := true

  /** The zone's fixed policy. */
  lemma ZonePolicy()
    ensures Name == "I2p"
    ensures !CheckNodeId && BroadcastOwnAddr
  {
  }
}
