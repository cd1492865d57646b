/**
 * `send_file` and `start_receiver` of the TCP-backed transports, one model
 * for both: the transport only picks the port and the file-name prefix.
 * The connected stream, the accepted socket and the receiver's working
 * directory are objects whose state the operations update step by step.
 */
module Transfer {
  import opened Bytes
  import opened Wrappers
  import opened Framing

  datatype TransferError = OpenFailed | ConnectFailed | UnexpectedEof

  /** The sending end of a TCP connection: everything written to it so far. */
  class Connection {
    const peer: string
    var sent: seq<uint8>

    constructor(peer: string)
      ensures this.peer == peer && sent == []
    {
      this.peer := peer;
      sent := [];
    }

    /** `write_all`: the whole buffer goes out after what was sent before. */
    method WriteAll(bytes: seq<uint8>)
      modifies this
      ensures sent == old(sent) + bytes
    {
      sent := sent + bytes;
    }
  }

  /**
   * Sends one file. `file` is the content `read_to_end` produced, or None
   * when opening or reading the file failed; `listening` is the set of
   * addresses at which a connection is accepted. Returns the address
   * dialled, if any, and the bytes the peer receives.
   */
  method SendFile(t: Transport, file: Option<seq<uint8>>, destination: string, listening: set<string>)
    returns (r: Result<(), TransferError>, dialled: Option<string>, wire: seq<uint8>)
    requires file.Some? ==> |file.value| < UINT64_LIMIT
    ensures file.None? ==> r == Err(OpenFailed) && dialled == None && wire == []
    ensures file.Some? ==> dialled == Some(DialAddress(t, destination))
    ensures file.Some? && DialAddress(t, destination) !in listening ==> r == Err(ConnectFailed) && wire == []
    ensures file.Some? && DialAddress(t, destination) in listening ==> r == Ok(()) && wire == EncodeFrame(file.value)
  {
    if file.None? {
      return Err(OpenFailed), None, [];
    }
    var fileData := file.value;
    var destAddr := DialAddress(t, destination);
    dialled := Some(destAddr);
    if destAddr !in listening {
      return Err(ConnectFailed), dialled, [];
    }
    var stream := new Connection(destAddr);
    var fileSize := |fileData|;
    stream.WriteAll(ToBeBytes(fileSize));
    stream.WriteAll(fileData);
    r, wire := Ok(()), stream.sent;
  }

  /** An accepted connection: the bytes the peer sent and how many have been read. */
  class Socket {
    const incoming: seq<uint8>
    var pos: nat

    ghost predicate Valid()
      reads this
    {
      pos <= |incoming|
    }

    /** What has not been read yet. */
    ghost function Unread(): seq<uint8>
      reads this
      requires Valid()
    {
      incoming[pos..]
    }

    constructor(incoming: seq<uint8>)
      ensures Valid() && this.incoming == incoming && pos == 0
    {
      this.incoming := incoming;
      pos := 0;
    }

    /**
     * `read_exact`: fills the whole buffer from the stream, or fails with
     * the stream drained when it ends first.
     */
    method ReadExact(buf: array<uint8>) returns (ok: bool)
      requires Valid()
      modifies this, buf
      ensures Valid()
      ensures ok <==> buf.Length <= |old(Unread())|
      ensures ok ==> buf[..] == old(Unread())[..buf.Length] && pos == old(pos) + buf.Length
      ensures !ok ==> pos == |incoming|
    {
      var available := |incoming| - pos;
      var n := if buf.Length <= available then buf.Length else available;
      for j := 0 to n
        invariant pos == old(pos)
        invariant forall k | 0 <= k < j :: buf[k] == incoming[pos + k]
      {
        buf[j] := incoming[pos + j];
      }
      pos := pos + n;
      ok := n == buf.Length;
      if ok {
        assert buf[..] == old(Unread())[..buf.Length];
      }
    }
  }

  /** The receiver's working directory: file name to content. */
  class Directory {
    var files: map<string, seq<uint8>>

    constructor(files: map<string, seq<uint8>>)
      ensures this.files == files
    {
      this.files := files;
    }

    /** `File::create` then `write_all`: the named file holds exactly `data`. */
    method CreateAndWrite(name: string, data: seq<uint8>)
      modifies this
      ensures files == old(files)[name := data]
    {
      files := files[name := data];
    }
  }

  /**
   * Receives one file from an accepted connection: the 8-byte header, then
   * exactly the announced number of bytes, saved under a name built from
   * `timestamp` (the clock reading). On a short stream no file is created.
   */
  method StartReceiver(t: Transport, socket: Socket, timestamp: int, dir: Directory)
    returns (r: Result<string, TransferError>)
    requires socket.Valid()
    modifies socket, dir
    ensures socket.Valid()
    ensures match DecodeFrame(old(socket.Unread()))
            case Err(_) =>
              && r == Err(UnexpectedEof)
              && dir.files == old(dir.files)
            case Ok(frame) =>
              && r == Ok(OutputName(t, timestamp))
              && dir.files == old(dir.files)[OutputName(t, timestamp) := frame.payload]
              && socket.pos == old(socket.pos) + frame.consumed
  {
    ghost var stream := socket.Unread();
    var sizeBuf := new uint8[HEADER_LEN];
    var ok := socket.ReadExact(sizeBuf);
    if !ok {
      return Err(UnexpectedEof);
    }
    var fileSize := FromBeBytes(sizeBuf[..]);
    assert sizeBuf[..] == stream[..HEADER_LEN];
    ghost var rest := socket.Unread();
    assert rest == stream[HEADER_LEN..];
    var fileData := new uint8[fileSize];
    ok := socket.ReadExact(fileData);
    if !ok {
      return Err(UnexpectedEof);
    }
    assert fileData[..] == rest[..fileSize] == stream[HEADER_LEN..HEADER_LEN + fileSize];
    var fileName := OutputName(t, timestamp);
    dir.CreateAndWrite(fileName, fileData[..]);
    r := Ok(fileName);
  }

  /**
   * The loopback scenario of the transports' tests: a receiver in a
   * directory holding `files` (the tests' own `test.txt`, say), a sender
   * aiming at 127.0.0.1. The directory gains exactly the file named with the
   * transport's prefix, the timestamp and ".bin", holding what was sent, and
   * every other file is as it was.
   */
  method Loopback(t: Transport, content: seq<uint8>, timestamp: int, files: map<string, seq<uint8>>)
    returns (received: map<string, seq<uint8>>)
    requires |content| < UINT64_LIMIT
    ensures received == files[OutputName(t, timestamp) := content]
    ensures forall name | name in received && name !in files ::
              name == OutputName(t, timestamp) && received[name] == content
  {
    var address := DialAddress(t, "127.0.0.1");
    var sent, dialled, wire := SendFile(t, Some(content), "127.0.0.1", {address});
    var socket := new Socket(wire);
    var dir := new Directory(files);
    DecodeEncodeFrame(content, []);
    assert wire + [] == wire;
    var result := StartReceiver(t, socket, timestamp, dir);
    received := dir.files;
  }
}
