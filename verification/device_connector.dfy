/**
 * The device list of the connector panel: four sample devices whose
 * Connect/Disconnect button flips the status of the device it belongs to,
 * and the connection-code field whose Connect button needs six characters.
 */
module DeviceConnector {
  import Utf8
  import Utf16
  import opened Ui

  datatype DeviceKind = Desktop | Laptop | Mobile
  datatype ConnectionKind = Wifi | Bluetooth | Internet
  datatype Status = Available | Connected | Offline

  datatype Device = Device(id: string, name: string, kind: DeviceKind, connection: ConnectionKind, status: Status)

  /** A connected device becomes available; an available or offline one becomes connected. */
  function Flipped(s: Status): (t: Status)
    ensures t != s && t != Offline
    ensures t == Available <==> s == Connected
  {
    if s == Connected then Available else Connected
  }

  /** The list `connectToDevice` stores: the toggle applied to every device carrying `id`. */
  function Toggled(devices: seq<Device>, id: string): (r: seq<Device>)
    ensures |r| == |devices|
    ensures forall i | 0 <= i < |r| ::
              && r[i].id == devices[i].id && r[i].name == devices[i].name
              && r[i].kind == devices[i].kind && r[i].connection == devices[i].connection
    ensures forall i | 0 <= i < |r| :: r[i] == devices[i] <==> devices[i].id != id
    ensures forall i | 0 <= i < |r| && devices[i].id == id :: r[i].status == Flipped(devices[i].status)
  {
    seq(|devices|, i requires 0 <= i < |devices| =>
      if devices[i].id == id then devices[i].(status := Flipped(devices[i].status)) else devices[i])
  }

  /** An id that matches no device leaves the list as it was. */
  lemma ToggleAbsent(devices: seq<Device>, id: string)
    requires forall d | d in devices :: d.id != id
    ensures Toggled(devices, id) == devices
  {
    var r := Toggled(devices, id);
    assert forall i | 0 <= i < |r| :: r[i] == devices[i] by {
      forall i | 0 <= i < |r| ensures r[i] == devices[i] {
        assert devices[i] in devices;
      }
    }
  }

  /** Toggling the same id twice restores the list, unless a matching device started offline. */
  lemma ToggleTwice(devices: seq<Device>, id: string)
    requires forall d | d in devices && d.id == id :: d.status != Offline
    ensures Toggled(Toggled(devices, id), id) == devices
  {
    var r := Toggled(Toggled(devices, id), id);
    assert forall i | 0 <= i < |r| :: r[i] == devices[i] by {
      forall i | 0 <= i < |r| ensures r[i] == devices[i] {
        assert devices[i] in devices;
      }
    }
  }

  /** The exception: an offline device toggled twice ends up available, not offline. */
  lemma OfflineToggledTwice(devices: seq<Device>, id: string, i: nat)
    requires i < |devices| && devices[i].id == id && devices[i].status == Offline
    ensures Toggled(Toggled(devices, id), id)[i].status == Available
  {
  }

  /** The device's Connect button is enabled exactly when the device is not offline. */
  function ConnectEnabled(d: Device): (enabled: bool)
    ensures enabled <==> d.status in {Available, Connected}
  {
    d.status != Offline
  }

  function StatusBadge(s: Status): (v: BadgeVariant)
    ensures v != Destructive
  {
    match s
    case Connected => Default
    case Available => Outline
    case Offline => Secondary
  }

  /** Each status shows its own badge. */
  lemma StatusBadgeDistinct(s: Status, t: Status)
    ensures StatusBadge(s) == StatusBadge(t) <==> s == t
  {
  }

  /** The text of the code field as Unicode scalar values. */
  function Scalars(code: string): (cs: seq<int>)
    ensures |cs| == |code|
    ensures forall c | c in cs :: Utf8.IsScalar(c)
  {
    seq(|code|, i requires 0 <= i < |code| => code[i] as int)
  }

  /** `connectionCode.length`: JavaScript counts UTF-16 code units. */
  function CodeLength(code: string): (n: nat)
    ensures |code| <= n <= 2 * |code|
  {
    Utf16.EncodeLength(Scalars(code));
    |Utf16.Encode(Scalars(code))|
  }

  /** The code field's Connect button is enabled when the length is exactly six. */
  function CodeConnectEnabled(code: string): (enabled: bool)
    ensures enabled ==> 3 <= |code| <= 6
  {
    CodeLength(code) == 6
  }

  /**
   * For text made of Basic Multilingual Plane characters (digits, say) the
   * gate asks for exactly six characters.
   */
  lemma CodeGateCountsCharacters(code: string)
    requires forall c | c in code :: (c as int) < 0x1_0000
    ensures CodeConnectEnabled(code) <==> |code| == 6
  {
    var cs := Scalars(code);
    forall c | c in cs ensures c < 0x1_0000 {
      var i :| 0 <= i < |cs| && cs[i] == c;
      assert code[i] in code;
    }
    Utf16.EncodeLength(cs);
  }

  /** A code of fewer than six characters enables the button only if some character is outside the BMP. */
  lemma ShortCodeGate(code: string)
    requires |code| < 6 && CodeConnectEnabled(code)
    ensures exists c | c in code :: (c as int) >= 0x1_0000
  {
    if forall c | c in code :: (c as int) < 0x1_0000 {
      CodeGateCountsCharacters(code);
    }
  }

  const INITIAL_DEVICES: seq<Device> := [
    Device("1", "MacBook Pro", Laptop, Wifi, Available),
    Device("2", "iPhone 13", Mobile, Wifi, Available),
    Device("3", "Windows PC", Desktop, Internet, Available),
    Device("4", "Android Tablet", Mobile, Bluetooth, Offline)
  ]

  /** The component's state: the device list and the code field. */
  class ConnectorState {
    var devices: seq<Device>
    var connectionCode: string

    constructor()
      ensures devices == INITIAL_DEVICES && connectionCode == ""
    {
      devices := INITIAL_DEVICES;
      connectionCode := "";
    }

    /** `connectToDevice`. */
    method ConnectToDevice(id: string)
      modifies this
      ensures devices == Toggled(old(devices), id)
      ensures connectionCode == old(connectionCode)
    {
      devices := Toggled(devices, id);
    }

    /** The code field's `onChange`. */
    method SetConnectionCode(code: string)
      modifies this
      ensures connectionCode == code && devices == old(devices)
    {
      connectionCode := code;
    }
  }
}
