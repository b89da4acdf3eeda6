/**
 * Zone orchestration of the node binary: start the mandatory clearnet zone,
 * then the optional I2P zone when it is enabled, and collect each started
 * zone's oneshot sender for the incoming-transaction handler.
 */
module P2p {
  import opened Wrappers

  /** Zone markers for the type parameter of `NetworkInterface<N>`. */
  datatype ClearNet = ClearNet
  datatype I2p = I2p

  /** `cuprate_p2p::NetworkInterface<N>`, the running network of one zone; left abstract. */
  type NetworkInterface<N>

  /** `tower::BoxError`; left abstract. */
  type BoxError

  /** `IncomingTxHandler`; left abstract. */
  type IncomingTxHandler(!new)

  /** The two ends of one `oneshot` channel for the incoming-transaction
      handler; `channel` names the channel they belong to. */
  datatype Sender = Sender(channel: nat)
  datatype Receiver = Receiver(channel: nat)

  /** `P2pProtocolRequestHandlerMaker`, reduced to its two handler fields (the
      read handles and the context service it also holds are left out). */
  datatype RequestHandlerMaker =
    RequestHandlerMaker(incomingTxHandler: Option<IncomingTxHandler>, incomingTxHandlerFut: Receiver)

  /** A maker that has no handler yet and waits on the receiving end of `channel`. */
  predicate AwaitsHandler(m: RequestHandlerMaker, channel: nat)
  {
    m.incomingTxHandler.None? && m.incomingTxHandlerFut == Receiver(channel)
  }

  /** What `start_zone_p2p` returns for a zone. */
  type ZoneStart<N> = Result<(NetworkInterface<N>, Sender), BoxError>

  /**
   * `start_zone_p2p`: open the channel `channel`, build the request-handler maker
   * around its receiver, and run `initialize_network` on it (`initializeNetwork`
   * stands for that call with the zone's configuration). Its error passes
   * through unchanged (`?`); on success the sender of the same channel is
   * returned with the interface.
   */
  function StartZoneP2p<N>(channel: nat, initializeNetwork: RequestHandlerMaker -> Result<NetworkInterface<N>, BoxError>)
    : (r: ZoneStart<N>)
    ensures r.Err? ==> exists m :: AwaitsHandler(m, channel) && initializeNetwork(m) == Err(r.error)
    ensures r.Ok? ==> r.value.1 == Sender(channel)
    ensures r.Ok? ==> exists m :: AwaitsHandler(m, channel) && initializeNetwork(m) == Ok(r.value.0)
  {
    var maker := RequestHandlerMaker(None, Receiver(channel));
    assert AwaitsHandler(maker, channel);
    match initializeNetwork(maker)
    case Err(e) => Err(e)
    case Ok(network) => Ok((network, Sender(channel)))
  }

  /** A maker waiting on a given channel is unique, so the existentials of
      `StartZoneP2p` speak of one maker. */
  lemma AwaitingMakerIsUnique(m1: RequestHandlerMaker, m2: RequestHandlerMaker, channel: nat)
    requires AwaitsHandler(m1, channel) && AwaitsHandler(m2, channel)
    ensures m1 == m2
  {
  }

  /** The interfaces of every supported zone: clearnet always, I2P maybe. */
  datatype NetworkInterfaces = NetworkInterfaces(
    clearnetNetworkInterface: NetworkInterface<ClearNet>,
    i2pNetworkInterface: Option<NetworkInterface<I2p>>)
  {
    /** `NetworkInterfaces::new`: both arguments are stored unchanged. */
    static function New(clearnet: NetworkInterface<ClearNet>, i2p: Option<NetworkInterface<I2p>>)
      : (n: NetworkInterfaces)
      ensures n.clearnetNetworkInterface == clearnet && n.i2pNetworkInterface == i2p
    {
      NetworkInterfaces(clearnet, i2p)
    }
  }

  /** How `initialize_zones_p2p` ends: the clearnet `unwrap` panics with the
      start error, or the interfaces and the senders are returned. */
  datatype ZonesStartup =
    | Panicked(cause: BoxError)
    | Started(interfaces: NetworkInterfaces, txHandlerSubscribers: seq<Sender>)

  datatype Zone = ClearNetZone | I2pZone

  /**
   * The surroundings of the startup routine: what `initialize_network` yields
   * for each zone, the zone starts attempted so far, in order, and the number of
   * oneshot channels opened, which names the next one.
   */
  class ZoneLauncher {
    const initClearnet: RequestHandlerMaker -> Result<NetworkInterface<ClearNet>, BoxError>
    const initI2p: RequestHandlerMaker -> Result<NetworkInterface<I2p>, BoxError>
    var attempted: seq<Zone>
    var channelsOpened: nat

    constructor (
      initClearnet: RequestHandlerMaker -> Result<NetworkInterface<ClearNet>, BoxError>,
      initI2p: RequestHandlerMaker -> Result<NetworkInterface<I2p>, BoxError>)
      ensures this.initClearnet == initClearnet && this.initI2p == initI2p
      ensures attempted == [] && channelsOpened == 0
    {
      this.initClearnet := initClearnet;
      this.initI2p := initI2p;
      attempted := [];
      channelsOpened := 0;
    }

    /** `start_zone_p2p::<ClearNet, Tcp>` on a new channel. */
    method StartClearnet() returns (r: ZoneStart<ClearNet>)
      modifies this
      ensures r == StartZoneP2p(old(channelsOpened), initClearnet)
      ensures attempted == old(attempted) + [ClearNetZone]
      ensures channelsOpened == old(channelsOpened) + 1
    {
      r := StartZoneP2p(channelsOpened, initClearnet);
      channelsOpened := channelsOpened + 1;
      attempted := attempted + [ClearNetZone];
    }

    /** `start_zone_p2p::<I2p, I2pTransport>` on a new channel. */
    method StartI2p() returns (r: ZoneStart<I2p>)
      modifies this
      ensures r == StartZoneP2p(old(channelsOpened), initI2p)
      ensures attempted == old(attempted) + [I2pZone]
      ensures channelsOpened == old(channelsOpened) + 1
    {
      r := StartZoneP2p(channelsOpened, initI2p);
      channelsOpened := channelsOpened + 1;
      attempted := attempted + [I2pZone];
    }
  }

  /**
   * `initialize_zones_p2p`. Clearnet is started first and unconditionally; its
   * failure panics before anything else is attempted. I2P is started only when
   * enabled, and its failure is swallowed: no interface, no sender, and the
   * clearnet half of the result is the same as with I2P disabled. The senders
   * come clearnet first, one per started zone, each on its own channel.
   */
  method InitializeZonesP2p(launcher: ZoneLauncher, i2pEnabled: bool) returns (r: ZonesStartup)
    modifies launcher
    ensures var clearnet := StartZoneP2p(old(launcher.channelsOpened), launcher.initClearnet);
            clearnet.Err? ==> r == Panicked(clearnet.error) && launcher.attempted == old(launcher.attempted) + [ClearNetZone]
    ensures var clearnet := StartZoneP2p(old(launcher.channelsOpened), launcher.initClearnet);
            clearnet.Ok? ==>
              && r.Started?
              && r.interfaces.clearnetNetworkInterface == clearnet.value.0
              && |r.txHandlerSubscribers| >= 1
              && r.txHandlerSubscribers[0] == clearnet.value.1
    ensures var clearnet := StartZoneP2p(old(launcher.channelsOpened), launcher.initClearnet);
            clearnet.Ok? && !i2pEnabled ==>
              && launcher.attempted == old(launcher.attempted) + [ClearNetZone]
              && r.interfaces.i2pNetworkInterface.None?
              && r.txHandlerSubscribers == [clearnet.value.1]
    ensures var clearnet := StartZoneP2p(old(launcher.channelsOpened), launcher.initClearnet);
            var i2p := StartZoneP2p(old(launcher.channelsOpened) + 1, launcher.initI2p);
            clearnet.Ok? && i2pEnabled ==>
              && launcher.attempted == old(launcher.attempted) + [ClearNetZone, I2pZone]
              && (i2p.Ok? ==> r.interfaces.i2pNetworkInterface == Some(i2p.value.0) &&
                              r.txHandlerSubscribers == [clearnet.value.1, i2p.value.1])
              && (i2p.Err? ==> r.interfaces.i2pNetworkInterface.None? &&
                               r.txHandlerSubscribers == [clearnet.value.1])
    ensures r.Started? ==>
              && 1 <= |r.txHandlerSubscribers| <= 2
              && (|r.txHandlerSubscribers| == 2 <==> r.interfaces.i2pNetworkInterface.Some?)
              && (|r.txHandlerSubscribers| == 2 ==> r.txHandlerSubscribers[0] != r.txHandlerSubscribers[1])
  {
    var clearnet := launcher.StartClearnet();
    if clearnet.Err? {
      // `.unwrap()` on the clearnet start.
      return Panicked(clearnet.error);
    }
    var (clearnetInterface, incomingTxHandlerTx) := clearnet.value;
    var txHandlerSubscribers := [incomingTxHandlerTx];
    var i2pInterface: Option<NetworkInterface<I2p>> := None;
    if i2pEnabled {
      var i2p := launcher.StartI2p();
      match i2p {
        case Ok((network, i2pTxHandler)) =>
          txHandlerSubscribers := txHandlerSubscribers + [i2pTxHandler];
          i2pInterface := Some(network);
        case Err(_) =>
          i2pInterface := None;
      }
    }
    r := Started(NetworkInterfaces.New(clearnetInterface, i2pInterface), txHandlerSubscribers);
  }
}
