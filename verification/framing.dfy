/**
 * The single-file wire frame shared by the TCP-backed "Wi-Fi Direct" and
 * "Bluetooth" transports: an 8-byte big-endian length, then the payload.
 * Addresses and output file names are formed here too; the two transports
 * differ only in the port and the file-name prefix.
 */
module Framing {
  import opened Bytes
  import opened Wrappers
  import Decimal

  /** Width of the length header: one `u64`. */
  const HEADER_LEN: nat := 8

  datatype Transport = WifiDirect | Bluetooth

  function Port(t: Transport): (port: string)
    ensures |port| == 4
  {
    match t
    case WifiDirect => "9000"
    case Bluetooth => "9001"
  }

  /** The address `send_file` dials: the destination as given, a colon, the port. */
  function DialAddress(t: Transport, destination: string): (address: string)
    ensures |address| == |destination| + 5
    ensures address[..|destination|] == destination
    ensures address[|destination|..] == ":" + Port(t)
  {
    destination + ":" + Port(t)
  }

  /** The address `start_receiver` binds: every interface, same port the sender dials. */
  function ListenAddress(t: Transport): (address: string)
    ensures |address| == 12
    ensures address[..8] == "0.0.0.0:"
    ensures address[8..] == Port(t)
  {
    "0.0.0.0:" + Port(t)
  }

  /** Dialling and listening agree on the port, and the two transports never share one. */
  lemma PortsAgree(t: Transport, u: Transport, destination: string)
    ensures DialAddress(t, destination)[|destination| + 1..] == ListenAddress(t)[8..]
    ensures t != u ==> Port(t) != Port(u)
  {
    assert DialAddress(t, destination)[|destination|..] == ":" + Port(t);
  }

  function NamePrefix(t: Transport): string {
    match t
    case WifiDirect => "received_file_"
    case Bluetooth => "received_bt_file_"
  }

  /** The file the receiver creates: prefix, the Unix timestamp in decimal, ".bin". */
  function OutputName(t: Transport, timestamp: int): (name: string)
    ensures |name| > |NamePrefix(t)| + 4
    ensures name[..|NamePrefix(t)|] == NamePrefix(t)
    ensures name[|name| - 4..] == ".bin"
  {
    NamePrefix(t) + Decimal.IntToString(timestamp) + ".bin"
  }

  /**
   * Distinct timestamps give distinct names, and the two transports never
   * produce the same name, so one receiver never overwrites the other's file.
   */
  lemma OutputNameInjective(t: Transport, a: int, u: Transport, b: int)
    ensures OutputName(t, a) == OutputName(u, b) <==> t == u && a == b
  {
    var na, nb := OutputName(t, a), OutputName(u, b);
    if na == nb {
      assert na[9] == NamePrefix(t)[9] && nb[9] == NamePrefix(u)[9];
      assert NamePrefix(WifiDirect)[9] == 'f' && NamePrefix(Bluetooth)[9] == 'b';
      var da, db := Decimal.IntToString(a), Decimal.IntToString(b);
      assert na[|NamePrefix(t)|..|na| - 4] == da;
      assert nb[|NamePrefix(u)|..|nb| - 4] == db;
      Decimal.IntToStringInjective(a, b);
    }
  }

  /** Both transports report themselves available unconditionally. */
  function IsAvailable(t: Transport): (available: bool)
    ensures available
  {
    true
  }

  function Pow256(n: nat): (p: nat)
    ensures p >= 1
  {
    if n == 0 then 1 else 256 * Pow256(n - 1)
  }

  lemma Pow256Eight()
    ensures Pow256(HEADER_LEN) == UINT64_LIMIT
  {
    assert Pow256(4) == 0x1_0000_0000;
  }

  /** The low `width` base-256 digits of `n`, most significant first. */
  function BigEndian(n: nat, width: nat): (b: seq<uint8>)
    ensures |b| == width
  {
    if width == 0 then [] else BigEndian(n / 256, width - 1) + [n % 256]
  }

  /** The number a sequence of big-endian base-256 digits denotes. */
  function FromBigEndian(b: seq<uint8>): (n: nat)
    ensures n < Pow256(|b|)
  {
    if b == [] then 0 else FromBigEndian(b[..|b| - 1]) * 256 + b[|b| - 1]
  }

  lemma {:induction false} FromBigEndianInverse(n: nat, width: nat)
    requires n < Pow256(width)
    ensures FromBigEndian(BigEndian(n, width)) == n
  {
    if width > 0 {
      var b := BigEndian(n, width);
      assert b[..|b| - 1] == BigEndian(n / 256, width - 1);
      FromBigEndianInverse(n / 256, width - 1);
    }
  }

  lemma {:induction false} BigEndianInverse(b: seq<uint8>)
    ensures BigEndian(FromBigEndian(b), |b|) == b
  {
    if b != [] {
      var init := b[..|b| - 1];
      var n := FromBigEndian(b);
      assert n / 256 == FromBigEndian(init) && n % 256 == b[|b| - 1];
      BigEndianInverse(init);
      assert b == init + [b[|b| - 1]];
    }
  }

  /** `u64::to_be_bytes`. */
  function ToBeBytes(n: nat): (b: seq<uint8>)
    requires n < UINT64_LIMIT
    ensures |b| == HEADER_LEN
  {
    BigEndian(n, HEADER_LEN)
  }

  /** `u64::from_be_bytes`. */
  function FromBeBytes(b: seq<uint8>): (n: nat)
    requires |b| == HEADER_LEN
    ensures n < UINT64_LIMIT
  {
    Pow256Eight();
    FromBigEndian(b)
  }

  /** The receiver's decoding inverts the sender's encoding for every u64, and vice versa. */
  lemma BeBytesRoundTrip(n: nat, b: seq<uint8>)
    requires n < UINT64_LIMIT && |b| == HEADER_LEN
    ensures FromBeBytes(ToBeBytes(n)) == n
    ensures ToBeBytes(FromBeBytes(b)) == b
  {
    Pow256Eight();
    FromBigEndianInverse(n, HEADER_LEN);
    BigEndianInverse(b);
  }

  /** What the sender writes to the stream: the length header, then the file bytes. */
  function EncodeFrame(data: seq<uint8>): (frame: seq<uint8>)
    requires |data| < UINT64_LIMIT
    ensures |frame| == HEADER_LEN + |data|
    ensures FromBeBytes(frame[..HEADER_LEN]) == |data|
    ensures frame[HEADER_LEN..] == data
  {
    BeBytesRoundTrip(|data|, ToBeBytes(|data|));
    assert (ToBeBytes(|data|) + data)[..HEADER_LEN] == ToBeBytes(|data|);
    ToBeBytes(|data|) + data
  }

  /** Why `read_exact` gave up: the stream ended inside the header or inside the payload. */
  datatype FrameError = ShortHeader | ShortPayload

  /** A decoded frame: the payload and how many stream bytes it took. */
  datatype Frame = Frame(payload: seq<uint8>, consumed: nat)

  /** What the receiver makes of the bytes its peer sends. */
  function DecodeFrame(stream: seq<uint8>): (r: Result<Frame, FrameError>)
    ensures r.Ok? ==> r.value.consumed == HEADER_LEN + |r.value.payload| <= |stream|
    ensures r.Ok? ==> r.value.payload == stream[HEADER_LEN..r.value.consumed]
  {
    if |stream| < HEADER_LEN then Err(ShortHeader)
    else
      var size := FromBeBytes(stream[..HEADER_LEN]);
      if |stream| - HEADER_LEN < size then Err(ShortPayload)
      else Ok(Frame(stream[HEADER_LEN..HEADER_LEN + size], HEADER_LEN + size))
  }

  /**
   * Round trip: a frame followed by anything decodes to exactly the data
   * sent, and the bytes after the frame are not consumed.
   */
  lemma DecodeEncodeFrame(data: seq<uint8>, rest: seq<uint8>)
    requires |data| < UINT64_LIMIT
    ensures DecodeFrame(EncodeFrame(data) + rest) == Ok(Frame(data, HEADER_LEN + |data|))
  {
    var frame := EncodeFrame(data);
    assert (frame + rest)[..HEADER_LEN] == frame[..HEADER_LEN];
    assert (frame + rest)[HEADER_LEN..HEADER_LEN + |data|] == frame[HEADER_LEN..];
  }

  /** The other direction: whatever decodes is, up to what it consumed, a frame of its payload. */
  lemma EncodeDecodeFrame(stream: seq<uint8>)
    requires DecodeFrame(stream).Ok?
    ensures var f := DecodeFrame(stream).value;
            |f.payload| < UINT64_LIMIT && stream[..f.consumed] == EncodeFrame(f.payload)
  {
    var f := DecodeFrame(stream).value;
    var header := stream[..HEADER_LEN];
    BeBytesRoundTrip(0, header);
    assert stream[..f.consumed] == header + f.payload;
  }

  /** Decoding fails exactly when the stream is shorter than the header or than the length it declares. */
  lemma DecodeFrameFails(stream: seq<uint8>)
    ensures DecodeFrame(stream) == Err(ShortHeader) <==> |stream| < HEADER_LEN
    ensures DecodeFrame(stream) == Err(ShortPayload) <==>
              HEADER_LEN <= |stream| < HEADER_LEN + FromBeBytes(stream[..HEADER_LEN])
  {
  }
}
