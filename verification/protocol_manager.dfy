/**
 * The protocol manager of both desktop crates: a fixed-order,
 * first-available choice among four transports. The chosen transport's
 * send or receive runs once; its error is passed on unchanged and no later
 * transport is tried.
 */
module ProtocolManager {
  import opened Wrappers
  import Framing

  datatype Protocol = WifiDirect | WebRtc | Bluetooth | MobileData

  /** The order in which the manager asks the transports. */
  const PRIORITY: seq<Protocol> := [WifiDirect, WebRtc, Bluetooth, MobileData]

  /** What each transport's `is_available` answered. */
  datatype Availability = Availability(wifiDirect: bool, webRtc: bool, bluetooth: bool, mobileData: bool)

  function Available(a: Availability, p: Protocol): bool {
    match p
    case WifiDirect => a.wifiDirect
    case WebRtc => a.webRtc
    case Bluetooth => a.bluetooth
    case MobileData => a.mobileData
  }

  function Rank(p: Protocol): (i: nat)
    ensures i < |PRIORITY| && PRIORITY[i] == p
  {
    match p
    case WifiDirect => 0
    case WebRtc => 1
    case Bluetooth => 2
    case MobileData => 3
  }

  /** The if-chain of `send_file_via_best` and `start_receiver`. */
  function Select(a: Availability): (choice: Option<Protocol>)
    ensures choice.None? <==> forall p :: !Available(a, p)
    ensures choice.Some? ==> Available(a, choice.value)
    ensures choice.Some? ==> forall p | Rank(p) < Rank(choice.value) :: !Available(a, p)
  {
    if a.wifiDirect then assert Available(a, WifiDirect); Some(WifiDirect)
    else if a.webRtc then assert Available(a, WebRtc); Some(WebRtc)
    else if a.bluetooth then assert Available(a, Bluetooth); Some(Bluetooth)
    else if a.mobileData then assert Available(a, MobileData); Some(MobileData)
    else None
  }

  /** Reference definition: the first protocol of `order` that is available. */
  function FirstAvailable(a: Availability, order: seq<Protocol>): (choice: Option<Protocol>)
    ensures choice.Some? ==> choice.value in order && Available(a, choice.value)
  {
    if order == [] then None
    else if Available(a, order[0]) then Some(order[0])
    else FirstAvailable(a, order[1..])
  }

  /** The if-chain is the first-available rule over the priority list. */
  lemma SelectIsFirstAvailable(a: Availability)
    ensures Select(a) == FirstAvailable(a, PRIORITY)
  {
    var rest := [WebRtc, Bluetooth, MobileData];
    assert PRIORITY[1..] == rest && rest[1..] == [Bluetooth, MobileData];
    assert [Bluetooth, MobileData][1..] == [MobileData] && [MobileData][1..] == [];
    assert FirstAvailable(a, [MobileData]) == if a.mobileData then Some(MobileData) else None;
    assert FirstAvailable(a, [Bluetooth, MobileData])
        == if a.bluetooth then Some(Bluetooth) else FirstAvailable(a, [MobileData]);
    assert FirstAvailable(a, rest) == if a.webRtc then Some(WebRtc) else FirstAvailable(a, [Bluetooth, MobileData]);
  }

  /** The protocol a name in the manager's messages stands for, if any. */
  function ProtocolNamed(name: string): Option<Protocol> {
    if name == "Wi\U{2011}Fi Direct" then Some(WifiDirect)
    else if name == "WebRTC" then Some(WebRtc)
    else if name == "Bluetooth" then Some(Bluetooth)
    else if name == "Mobile Data" then Some(MobileData)
    else None
  }

  /** How the messages name a protocol; the name identifies the protocol again. */
  function Name(p: Protocol): (name: string)
    ensures ProtocolNamed(name) == Some(p)
  {
    match p
    case WifiDirect => "Wi\U{2011}Fi Direct"
    case WebRtc => "WebRTC"
    case Bluetooth => "Bluetooth"
    case MobileData => "Mobile Data"
  }

  lemma NameInjective(p: Protocol, q: Protocol)
    ensures Name(p) == Name(q) <==> p == q
  {
  }

  const NO_SEND_PROTOCOL: string := "No available protocol found for file transfer."
  const NO_RECEIVE_PROTOCOL: string := "No available protocol found for receiving file."

  /** Which transport was asked to act (if any), and what the manager returned. */
  datatype Dispatch = Dispatch(invoked: Option<Protocol>, result: Result<string, string>)

  /**
   * `send_file_via_best`. `send(p)` stands for transport `p`'s `send_file`
   * on the caller's path and destination, with its error text.
   */
  function SendFileViaBest(a: Availability, send: Protocol -> Result<(), string>): (d: Dispatch)
    ensures d.invoked == Select(a)
    ensures d.invoked.None? ==> d.result == Err(NO_SEND_PROTOCOL)
    ensures d.invoked.Some? && send(d.invoked.value).Err? ==> d.result == Err(send(d.invoked.value).error)
    ensures d.invoked.Some? && send(d.invoked.value).Ok? ==> d.result == Ok("File sent via " + Name(d.invoked.value))
  {
    if a.wifiDirect then Via(WifiDirect, send(WifiDirect), "File sent via ")
    else if a.webRtc then Via(WebRtc, send(WebRtc), "File sent via ")
    else if a.bluetooth then Via(Bluetooth, send(Bluetooth), "File sent via ")
    else if a.mobileData then Via(MobileData, send(MobileData), "File sent via ")
    else Dispatch(None, Err(NO_SEND_PROTOCOL))
  }

  /** `start_receiver`: the same chain, with its own messages. */
  function StartReceiver(a: Availability, receive: Protocol -> Result<(), string>): (d: Dispatch)
    ensures d.invoked == Select(a)
    ensures d.invoked.None? ==> d.result == Err(NO_RECEIVE_PROTOCOL)
    ensures d.invoked.Some? && receive(d.invoked.value).Err? ==> d.result == Err(receive(d.invoked.value).error)
    ensures d.invoked.Some? && receive(d.invoked.value).Ok? ==> d.result == Ok("Receiver started using " + Name(d.invoked.value))
  {
    if a.wifiDirect then Via(WifiDirect, receive(WifiDirect), "Receiver started using ")
    else if a.webRtc then Via(WebRtc, receive(WebRtc), "Receiver started using ")
    else if a.bluetooth then Via(Bluetooth, receive(Bluetooth), "Receiver started using ")
    else if a.mobileData then Via(MobileData, receive(MobileData), "Receiver started using ")
    else Dispatch(None, Err(NO_RECEIVE_PROTOCOL))
  }

  /** One branch of the chain: the `?` propagates the transport's error, otherwise the success text. */
  function Via(p: Protocol, outcome: Result<(), string>, verb: string): (d: Dispatch)
    ensures d.invoked == Some(p)
    ensures d.result.Ok? <==> outcome.Ok?
    ensures outcome.Err? ==> d.result.error == outcome.error
    ensures outcome.Ok? ==> |d.result.value| > |verb| && d.result.value[..|verb|] == verb
                            && ProtocolNamed(d.result.value[|verb|..]) == Some(p)
  {
    match outcome
    case Err(e) => Dispatch(Some(p), Err(e))
    case Ok(_) => Dispatch(Some(p), Ok(verb + Name(p)))
  }

  /**
   * No fallback: only the chosen transport's outcome matters. Two sets of
   * transports that agree on the chosen one give the same dispatch, however
   * the others would have behaved.
   */
  lemma NoFallback(a: Availability, send: Protocol -> Result<(), string>, other: Protocol -> Result<(), string>)
    requires Select(a).Some? ==> send(Select(a).value) == other(Select(a).value)
    ensures SendFileViaBest(a, send) == SendFileViaBest(a, other)
    ensures StartReceiver(a, send) == StartReceiver(a, other)
  {
  }

  /** A success message names exactly the transport that was used. */
  lemma SuccessNamesProtocol(a: Availability, send: Protocol -> Result<(), string>, p: Protocol)
    requires SendFileViaBest(a, send).result == Ok("File sent via " + Name(p))
    ensures SendFileViaBest(a, send).invoked == Some(p)
    ensures Available(a, p) && forall q | Rank(q) < Rank(p) :: !Available(a, q)
  {
    var d := SendFileViaBest(a, send);
    if d.invoked.Some? && send(d.invoked.value).Ok? {
      var prefix := "File sent via ";
      assert (prefix + Name(d.invoked.value))[|prefix|..] == Name(d.invoked.value);
      assert (prefix + Name(p))[|prefix|..] == Name(p);
      NameInjective(d.invoked.value, p);
    }
  }

  /** Sender and receiver pick the same transport for the same availability. */
  lemma ReceiverMirrorsSender(a: Availability, send: Protocol -> Result<(), string>, receive: Protocol -> Result<(), string>)
    ensures StartReceiver(a, receive).invoked == SendFileViaBest(a, send).invoked
  {
  }

  /**
   * On Linux the Wi-Fi Direct module reports itself always available, so
   * it is chosen whatever the others answer, and WebRTC, Bluetooth and
   * Mobile Data are never invoked.
   */
  lemma {:induction false} LinuxAlwaysWifiDirect(webRtc: bool, bluetooth: bool, mobileData: bool,
                                                 send: Protocol -> Result<(), string>)
    ensures var a := Availability(Framing.IsAvailable(Framing.WifiDirect), webRtc, bluetooth, mobileData);
            && SendFileViaBest(a, send).invoked == Some(WifiDirect)
            && StartReceiver(a, send).invoked == Some(WifiDirect)
  {
  }
}
