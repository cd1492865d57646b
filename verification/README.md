# unishare: a verified model of its file-transfer core

unishare is a desktop file-sharing app built with Tauri and React. This project models the parts of
it that hold logic, in Dafny, and proves what they promise:

- **The streaming re-encoder** (`convert_encoding`). It reads a file into a 1024-byte buffer. It
  puts each read after the bytes left over from the previous round. It cuts that chunk at its
  longest well-formed UTF-8 prefix (section 4 of RFC 3629) and prints that prefix as UTF-16
  (section 2.1 of RFC 2781). The rest is carried into the next round.
- **The single-file wire frame** of the TCP-backed "Wi-Fi Direct" transport (port 9000) and
  "Bluetooth" transport (port 9001). The sender writes an 8-byte big-endian length and then the
  file bytes. The receiver reads exactly 8 bytes and then exactly that many bytes. It saves them
  as `received_file_<timestamp>.bin` or `received_bt_file_<timestamp>.bin`.
- **The protocol manager** of both desktop crates. It asks four transports in the fixed order
  Wi-Fi Direct, WebRTC, Bluetooth, Mobile Data. The first available one runs, with no fallback.
- **Three React components.** The device connector toggles the status of a device. The transfer
  history deletes entries, clears the list and picks badges. The file uploader appends dropped
  files, removes them and classifies MIME types.

Files:

- `utf8.dfy` and `utf16.dfy` hold the two encodings. They give the longest valid prefix and round
  trips in both directions.
- `converter.dfy` holds the re-encoder. The loop is a method. The function `Convert` specifies it
  round by round, and lemmas state what the whole run amounts to.
- `decimal.dfy` and `framing.dfy` hold the timestamp text, the addresses, the file names and the
  frame codec.
- `transfer.dfy` holds the sender and the receiver. They act on a connection, an accepted socket
  and a directory, which are objects updated in place.
- `protocol_manager.dfy` holds the priority chain. `device_connector.dfy`, `transfer_history.dfy`
  and `file_uploader.dfy` hold the components' state as classes. `lists.dfy` holds the id filter
  they share.

The transfer protocol is one length-prefixed frame per file, with no chunking, checksum or session
state.

`converter.rs` line 27 calls `encode_utf16` on the byte slice of the valid prefix. Rust defines
that method on `str`, not on byte slices. The model follows the evident intent: it decodes the
validated prefix to scalar values and encodes those as UTF-16.

In `unishare/src-tauri/src/protocols/protocol_manager.rs`, lines 19 and 45 test
`bluetooth::is_available()` without `.await`. That crate's `bluetooth::is_available` is `async`, so
the condition is a future, not a `bool`. The Linux crate's copy awaits it. The model takes the
evident intent: each transport's availability is a boolean input.

## Model

| member | source | states |
|---|---|---|
| Utf8.ValidUpTo | unishare_linux/src-tauri/src/converter.rs:22 | the valid prefix never exceeds the input, and it is empty exactly when no complete character starts the input; `Utf8.LongestValidPrefix` proves it is the longest well-formed prefix |
| Utf8.LongestValidPrefix | unishare_linux/src-tauri/src/converter.rs:20-23 | `ValidUpTo(s)` is the length of the longest well-formed prefix: that prefix is well formed and no longer prefix is, which is what `Utf8Error::valid_up_to` reports |
| Utf8.WellFormedIffValidUpToAll | unishare_linux/src-tauri/src/converter.rs:20-21 | a byte string is well formed exactly when its longest valid prefix is all of it, so `from_utf8` succeeding and returning `chunk.len()` agree |
| Utf8.ValidUpToAppend | unishare_linux/src-tauri/src/converter.rs:17-23 | a well-formed prefix is skipped whole: the valid prefix of `p + x` is `p` followed by that of `x` |
| Utf8.WellFormedAppend | unishare_linux/src-tauri/src/converter.rs:17-25 | concatenating well-formed strings gives a well-formed string |
| Utf8.DecodeEncode | unishare_linux/src-tauri/src/converter.rs:27 | encoding scalar values gives well-formed UTF-8 that decodes back to the same values |
| Utf8.EncodeDecode | unishare_linux/src-tauri/src/converter.rs:27 | decoding then re-encoding a well-formed string gives back its bytes |
| Utf8.EncodeAppend | unishare_linux/src-tauri/src/converter.rs:27 | UTF-8 encoding distributes over concatenation of scalar sequences |
| Utf8.DecodeAppend | unishare_linux/src-tauri/src/converter.rs:27 | decoding distributes over concatenation of well-formed strings |
| Utf8.EncodeScalarIsChar | unishare_linux/src-tauri/src/converter.rs:27 | the encoding of one scalar value is exactly one well-formed character whose value is that scalar |
| Utf8.EncodeCharValue | unishare_linux/src-tauri/src/converter.rs:27 | re-encoding the value of a well-formed character gives back exactly the bytes it occupies |
| Utf8.CharValueExtend | unishare_linux/src-tauri/src/converter.rs:17-23 | a character's length and value depend only on the bytes it occupies, not on what follows |
| Utf16.EncodeScalar | unishare_linux/src-tauri/src/converter.rs:27 | a value below U+10000 becomes one unit equal to it that is not a surrogate; a larger one becomes a high then a low surrogate that recombine to it |
| Utf16.DecodeEncode | unishare_linux/src-tauri/src/converter.rs:27 | the UTF-16 encoding of scalar values decodes back to them, so no information is lost |
| Utf16.EncodeAppend | unishare_linux/src-tauri/src/converter.rs:27 | UTF-16 encoding distributes over concatenation |
| Utf16.EncodeLength | unishare_linux/src-tauri/src/converter.rs:27 | the encoding has one unit per scalar value plus one per value above U+FFFF, so between one and two units per value, and exactly one when all values are below U+10000 |
| Converter.FromUtf8 | unishare_linux/src-tauri/src/converter.rs:20-23 | `from_utf8` succeeds exactly on well-formed input and then returns it unchanged; its error reports a `valid_up_to` shorter than the input, whose prefix is well formed and no longer prefix is |
| Converter.ToUtf16 | unishare_linux/src-tauri/src/converter.rs:27 | the UTF-16 chunk decodes back to exactly the scalar values of the valid prefix |
| Converter.SplitPoint | unishare_linux/src-tauri/src/converter.rs:20-23 | the split point is the chunk's longest valid prefix, and it equals the chunk length exactly when the chunk is well formed |
| Converter.PrefixSplit | unishare_linux/src-tauri/src/converter.rs:25 | the part before the split is well formed and the part after it starts with no complete character |
| Converter.Convert | unishare_linux/src-tauri/src/converter.rs:12-31 | the loop, round by round: every prefix it emits is well-formed UTF-8 |
| Converter.ConvertRound | unishare_linux/src-tauri/src/converter.rs:17-30 | one round takes the chunk, which is the leftover followed by the read, emits its valid prefix and carries the rest |
| Converter.ReadInto | unishare_linux/src-tauri/src/converter.rs:12-18 | a read fills the buffer's first `n` bytes with exactly the delivered data and returns `n`, or fails |
| Converter.ConvertEncoding | unishare_linux/src-tauri/src/converter.rs:5-34 | open failure is an error; otherwise it returns `Ok` even with bytes left over; each printed chunk is the UTF-16 of its well-formed prefix; all emitted bytes are the longest valid prefix of everything read and the leftover is the rest |
| Converter.ConvertIsLongestPrefix | unishare_linux/src-tauri/src/converter.rs:12-31 | whatever the read boundaries, the emitted prefixes concatenate to the longest valid prefix of the starting leftover followed by all reads, and the leftover is the rest |
| Converter.ConvertConserves | unishare_linux/src-tauri/src/converter.rs:17-30 | emitted prefixes followed by the final leftover are exactly the bytes read, in order |
| Converter.WellFormedFileFullyConverted | unishare_linux/src-tauri/src/converter.rs:20-30 | a well-formed file is emitted completely with no leftover, so a character split across two reads is carried and never half-emitted |
| Converter.SplitCharacterCarried | unishare_linux/src-tauri/src/converter.rs:17-30 | the euro sign cut after its second byte is carried and emitted whole in the next round |
| Converter.PrintedConcat | unishare_linux/src-tauri/src/converter.rs:27-28 | the printed chunks, concatenated, are the UTF-16 encoding of the scalar values of everything emitted |
| Converter.IllFormedOnceFourBytes | unishare_linux/src-tauri/src/converter.rs:20-30 | a leftover of four or more bytes that starts no character can never start one, whatever is appended |
| Converter.IllFormedLead | unishare_linux/src-tauri/src/converter.rs:20-30 | a leftover whose first byte cannot lead a character can never start one |
| Converter.IllFormedUnlessTruncated | unishare_linux/src-tauri/src/converter.rs:20-30 | a leftover that starts no character and is not a truncated character can never start one: a bad lead byte, a second byte out of range (E0 80, say) or a later byte that is no continuation |
| Converter.TruncatedCanComplete | unishare_linux/src-tauri/src/converter.rs:20-30 | a truncated character in the leftover can still be completed by later bytes |
| Converter.IllFormedStartExactly | unishare_linux/src-tauri/src/converter.rs:20-30 | a leftover can never start a character exactly when it is non-empty, starts none now and is not a truncated character, so `Converter.ConvertStuck` covers every leftover that is not a truncated character |
| Converter.ConvertStuck | unishare_linux/src-tauri/src/converter.rs:20-30 | once the leftover starts ill-formed, every later split point is 0: only empty prefixes are emitted and the leftover grows by exactly what is read |
| Decimal.IntToString | unishare_linux/src-tauri/src/protocols/wifi_direct.rs:68 | the `{}` text of a timestamp is non-empty, starts with "-" exactly for negative values and with a digit otherwise, and is digits after its first character |
| Decimal.ParseIntToString | unishare_linux/src-tauri/src/protocols/wifi_direct.rs:68 | the decimal text of a timestamp is a sign and digits that parse back to the same number |
| Decimal.IntToStringInjective | unishare_linux/src-tauri/src/protocols/wifi_direct.rs:68 | distinct timestamps have distinct decimal texts |
| Framing.DialAddress | unishare_linux/src-tauri/src/protocols/wifi_direct.rs:28 | the dialled address is the destination unchanged, then ":" and the transport's port |
| Framing.ListenAddress | unishare_linux/src-tauri/src/protocols/wifi_direct.rs:51 | the receiver binds "0.0.0.0:" followed by the transport's port |
| Framing.PortsAgree | unishare-frontend/src-tauri/src/protocols/bluetooth.rs:23-39 | the sender dials the port the receiver of the same transport binds, and Wi-Fi Direct and Bluetooth never share a port |
| Framing.OutputName | unishare_linux/src-tauri/src/protocols/wifi_direct.rs:68 | the saved file's name starts with the transport's prefix and ends with ".bin", the shape the loopback tests look for |
| Framing.OutputNameInjective | unishare-frontend/src-tauri/src/protocols/bluetooth.rs:57 | two receptions get the same file name exactly when they use the same transport and the same timestamp |
| Framing.IsAvailable | unishare-frontend/src-tauri/src/protocols/bluetooth.rs:9-11 | both TCP-backed transports always report themselves available |
| Framing.ToBeBytes | unishare_linux/src-tauri/src/protocols/wifi_direct.rs:33-34 | the header of a length below 2^64 is exactly 8 bytes |
| Framing.FromBeBytes | unishare_linux/src-tauri/src/protocols/wifi_direct.rs:59-61 | 8 header bytes decode to a value below 2^64 |
| Framing.BeBytesRoundTrip | unishare_linux/src-tauri/src/protocols/wifi_direct.rs:58-61 | `from_be_bytes` inverts `to_be_bytes` for every u64, and `to_be_bytes` inverts `from_be_bytes` for every 8 bytes |
| Framing.EncodeFrame | unishare_linux/src-tauri/src/protocols/wifi_direct.rs:32-37 | the frame is 8 + length bytes long: a header that decodes to the payload length, then the payload unchanged |
| Framing.DecodeFrame | unishare_linux/src-tauri/src/protocols/wifi_direct.rs:58-65 | a decoded frame consumes exactly 8 + payload length bytes, and its payload is the bytes right after the header |
| Framing.DecodeEncodeFrame | unishare_linux/src-tauri/src/protocols/wifi_direct.rs:58-65 | a frame followed by any further bytes decodes to exactly the data sent, and the further bytes are not consumed |
| Framing.EncodeDecodeFrame | unishare_linux/src-tauri/src/protocols/wifi_direct.rs:58-65 | whatever decodes is, up to what it consumed, the frame of its payload |
| Framing.DecodeFrameFails | unishare_linux/src-tauri/src/protocols/wifi_direct.rs:59-65 | decoding fails with a short header exactly when fewer than 8 bytes arrive, and with a short payload exactly when fewer bytes follow than the header announces |
| Transfer.Connection.WriteAll | unishare_linux/src-tauri/src/protocols/wifi_direct.rs:34-37 | each write appends its whole buffer after what was sent before |
| Transfer.SendFile | unishare_linux/src-tauri/src/protocols/wifi_direct.rs:21-41 | an unreadable file fails before dialling; an unreachable address fails with nothing sent; otherwise the peer receives exactly the frame of the file's bytes; the Bluetooth sender (unishare-frontend/src-tauri/src/protocols/bluetooth.rs:14-35) is the same over port 9001 |
| Transfer.Socket.ReadExact | unishare_linux/src-tauri/src/protocols/wifi_direct.rs:59-65 | fills the whole buffer with the next unread bytes and advances by its length, or fails exactly when fewer bytes remain |
| Transfer.Directory.CreateAndWrite | unishare_linux/src-tauri/src/protocols/wifi_direct.rs:69-70 | the named file holds exactly the data written, and every other file is unchanged |
| Transfer.StartReceiver | unishare_linux/src-tauri/src/protocols/wifi_direct.rs:49-75 | on a stream that decodes, saves exactly its payload under the timestamped name and consumes exactly 8 + length bytes; on a short stream fails with no file created; the Bluetooth receiver (unishare-frontend/src-tauri/src/protocols/bluetooth.rs:38-63) is the same over port 9001 with the "received_bt_file_" prefix |
| Transfer.Loopback | unishare/src-tauri/tests/wifi_direct_test.rs:19-60 | sending to 127.0.0.1 into a directory that already holds other files (the test's `test.txt`) adds exactly one file, named with the transport's prefix, the timestamp and ".bin", holding exactly the content sent, and leaves every other file as it was |
| ProtocolManager.Select | unishare/src-tauri/src/protocols/protocol_manager.rs:7-30 | the choice is available and no protocol ranked before it is; nothing is chosen exactly when no protocol is available |
| ProtocolManager.SelectIsFirstAvailable | unishare/src-tauri/src/protocols/protocol_manager.rs:3-30 | the if-chain equals the first available protocol of the list Wi-Fi Direct, WebRTC, Bluetooth, Mobile Data |
| ProtocolManager.SendFileViaBest | unishare/src-tauri/src/protocols/protocol_manager.rs:5-31 | only the selected protocol's send runs; its error is returned as is; success names it; with none available the result is the no-protocol error; the Linux crate's chain (unishare_linux/src-tauri/src/protocols/protocol_manager.rs:4-26) is the same |
| ProtocolManager.StartReceiver | unishare/src-tauri/src/protocols/protocol_manager.rs:34-56 | the same chain for receiving, with "Receiver started using" and its own no-protocol error, also in the Linux crate (unishare_linux/src-tauri/src/protocols/protocol_manager.rs:28-50) |
| ProtocolManager.NoFallback | unishare/src-tauri/src/protocols/protocol_manager.rs:9-27 | the outcome depends only on the selected protocol's behaviour, so a failure is never followed by trying a later protocol |
| ProtocolManager.Name | unishare/src-tauri/src/protocols/protocol_manager.rs:10-28 | the name a message gives a protocol identifies that protocol again |
| ProtocolManager.Via | unishare/src-tauri/src/protocols/protocol_manager.rs:9-28 | one branch of the chain: the chosen transport is the one invoked; `?` passes its error on unchanged; on success the message is the verb followed by a name that identifies the transport |
| ProtocolManager.NameInjective | unishare/src-tauri/src/protocols/protocol_manager.rs:10-28 | the four protocol names in the messages are pairwise distinct |
| ProtocolManager.SuccessNamesProtocol | unishare/src-tauri/src/protocols/protocol_manager.rs:10-28 | a success message naming a protocol means that protocol was used, and it was the first available one |
| ProtocolManager.ReceiverMirrorsSender | unishare/src-tauri/src/protocols/protocol_manager.rs:34-55 | sender and receiver select the same protocol for the same availability |
| ProtocolManager.LinuxAlwaysWifiDirect | unishare_linux/src-tauri/src/protocols/protocol_manager.rs:4-9 | with the Linux Wi-Fi Direct module always available, Wi-Fi Direct is used for both sending and receiving, and the other three branches are never reached |
| DeviceConnector.Flipped | unishare-frontend/src/components/device-connector.tsx:70 | connected becomes available; available and offline become connected; the status always changes |
| DeviceConnector.Toggled | unishare-frontend/src/components/device-connector.tsx:64-74 | the length and order of the list are kept; a device changes exactly when its id matches; only its status changes, and it is flipped |
| DeviceConnector.ToggleAbsent | unishare-frontend/src/components/device-connector.tsx:66-73 | an id matching no device leaves the list unchanged |
| DeviceConnector.ToggleTwice | unishare-frontend/src/components/device-connector.tsx:70 | toggling an id twice restores the list when no matching device started offline |
| DeviceConnector.OfflineToggledTwice | unishare-frontend/src/components/device-connector.tsx:70 | an offline device toggled twice ends up available, not offline |
| DeviceConnector.ConnectEnabled | unishare-frontend/src/components/device-connector.tsx:141 | a device's Connect button is enabled exactly when it is available or connected |
| DeviceConnector.StatusBadge | unishare-frontend/src/components/device-connector.tsx:125-132 | a device badge is never the destructive variant |
| DeviceConnector.StatusBadgeDistinct | unishare-frontend/src/components/device-connector.tsx:125-132 | each device status has its own badge |
| DeviceConnector.Scalars | unishare-frontend/src/components/device-connector.tsx:164 | the code text as one Unicode scalar value per character |
| DeviceConnector.CodeLength | unishare-frontend/src/components/device-connector.tsx:166 | `connectionCode.length` counts UTF-16 units: at least one and at most two per character |
| DeviceConnector.CodeConnectEnabled | unishare-frontend/src/components/device-connector.tsx:166 | the code's Connect button is enabled only for codes of three to six characters |
| DeviceConnector.CodeGateCountsCharacters | unishare-frontend/src/components/device-connector.tsx:166 | for a code of Basic Multilingual Plane characters, the Connect button is enabled exactly when the code has six characters |
| DeviceConnector.ShortCodeGate | unishare-frontend/src/components/device-connector.tsx:166 | a code shorter than six characters enables the button only if it holds a character outside the Basic Multilingual Plane, since JavaScript counts UTF-16 units |
| DeviceConnector.ConnectorState.constructor | unishare-frontend/src/components/device-connector.tsx:30-61 | the panel starts with the four sample devices and an empty code |
| DeviceConnector.ConnectorState.ConnectToDevice | unishare-frontend/src/components/device-connector.tsx:64-75 | the stored list becomes the toggled list and the code is untouched |
| DeviceConnector.ConnectorState.SetConnectionCode | unishare-frontend/src/components/device-connector.tsx:164 | the code field takes the typed text and the devices are untouched |
| Lists.RemoveKey | unishare-frontend/src/components/transfer-history.tsx:91 | an entry is kept exactly when it was there and its id differs from the one removed |
| Lists.RemoveKeyKeepsOthers | unishare-frontend/src/components/transfer-history.tsx:90-92 | removing by id keeps the other entries in their original order, each as often as before, and drops every entry with that id; the uploader's `removeFile` (unishare-frontend/src/components/file-uploader.tsx:49-51) filters the same way |
| Lists.RemoveKeyLength | unishare-frontend/src/components/transfer-history.tsx:90-92 | the new length is the old one minus the number of entries with that id |
| Lists.RemoveAbsentKey | unishare-frontend/src/components/transfer-history.tsx:90-92 | removing an id no entry has leaves the list unchanged |
| Lists.RemoveKeyIdempotent | unishare-frontend/src/components/transfer-history.tsx:90-92 | removing the same id twice equals removing it once |
| TransferHistory.StatusBadge | unishare-frontend/src/components/transfer-history.tsx:149-156 | a transfer badge is never the secondary variant |
| TransferHistory.StatusBadgeDistinct | unishare-frontend/src/components/transfer-history.tsx:149-156 | completed, failed and cancelled show three different badges |
| TransferHistory.CanOpenFile | unishare-frontend/src/components/transfer-history.tsx:170-171 | "Open file" is offered exactly for transfers that are both completed and received |
| TransferHistory.InitialOpenable | unishare-frontend/src/components/transfer-history.tsx:42-88 | in the sample history only the completed download can be opened |
| TransferHistory.HistoryState.constructor | unishare-frontend/src/components/transfer-history.tsx:42-88 | the panel starts with the five sample transfers |
| TransferHistory.HistoryState.DeleteTransfer | unishare-frontend/src/components/transfer-history.tsx:90-92 | the list becomes the entries whose id differs, in order |
| TransferHistory.HistoryState.ClearHistory | unishare-frontend/src/components/transfer-history.tsx:94-96 | the list becomes empty |
| TransferHistory.HistoryState.ClearEnabled | unishare-frontend/src/components/transfer-history.tsx:111 | Clear History is enabled exactly when the list is not empty |
| FileUploader.NewEntries | unishare-frontend/src/components/file-uploader.tsx:31-39 | one entry per dropped file, in order, with its id, progress 0 and its MIME type; a preview exactly for images, holding that file's URL |
| FileUploader.GetFileIcon | unishare-frontend/src/components/file-uploader.tsx:77-83 | the image icon is shown exactly for the MIME types that get a preview in `onDrop`, and the generic icon exactly when no family prefix matches |
| FileUploader.IconByFamily | unishare-frontend/src/components/file-uploader.tsx:77-83 | each specific icon is chosen exactly when its prefix matches, and the generic icon exactly when none does; the prefixes exclude each other, so their order does not matter |
| FileUploader.UploaderState.constructor | unishare-frontend/src/components/file-uploader.tsx:27-28 | the uploader starts empty and not uploading |
| FileUploader.UploaderState.OnDrop | unishare-frontend/src/components/file-uploader.tsx:30-42 | the new entries go after the existing ones, which stay as they were |
| FileUploader.UploaderState.RemoveFile | unishare-frontend/src/components/file-uploader.tsx:49-51 | the list becomes the entries whose id differs, in order |
| FileUploader.UploaderState.SimulateUpload | unishare-frontend/src/components/file-uploader.tsx:53-56 | on an empty list nothing changes; otherwise the uploading flag is set and the list is unchanged |

## Left out

- Socket and file I/O are abstract values. Streams are byte sequences and the receiver's working
  directory is a map. Opening the file is an `Option`, and reachability of the dialled address is
  a set.
- `Utc::now()` is the `timestamp` parameter of `Transfer.StartReceiver`.
- Transfer.SendFile: requires the file to be shorter than 2^64 bytes, so that the `as u64` length
  cast is exact. No file that `read_to_end` can produce is longer.
- Transfer.SendFile: does not model a failure of `write_all` partway through. Once connected, the
  whole frame is delivered.
- Transfer.StartReceiver: does not model `TcpListener::bind` or `accept` failing, nor
  `File::create` or `write_all` failing. The socket passed in is the accepted connection, and
  saving always succeeds. `Framing.ListenAddress` states the address that is bound.
- Transfer.StartReceiver: allocates the announced number of bytes whatever it is. The source's
  `vec![0u8; file_size as usize]` aborts when the allocation fails, and truncates the size on a
  platform whose `usize` is narrower than 64 bits.
- The `println!` lines of the transports and of the protocol manager carry no result and are left
  out. The converter's printed UTF-16 chunks are modelled as a returned sequence.
- The concurrency of the loopback tests (a spawned receiver task, sleeps) is left out. Sender and
  receiver run one after the other in `Transfer.Loopback`.
- ProtocolManager.SendFileViaBest: the transports' `is_available` answers are inputs. Their
  `send_file` and `start_receiver` calls are an abstract function returning success or an error
  text. WebRTC, Mobile Data and the btleplug-based Bluetooth of the other crate are stubs or
  library wrappers, and `webrtc_transfer.rs` is not part of this model.
- Connectivity probing (`connectivity.rs`), device discovery events (`device_discovery.rs`), the
  `main.rs` command wrappers and the purely presentational React files are not part of this model.
- The timer-driven progress simulation of `simulateUpload` (file-uploader.tsx:55-74) uses
  `Math.random`, floating point and `setInterval`. Only its empty-list guard and the uploading
  flag are modelled.
- DeviceConnector.Scalars: a JavaScript string may hold unpaired surrogates, which a Dafny string
  cannot. The code field is modelled as a sequence of Unicode scalar values, so such input is not
  covered by `DeviceConnector.CodeLength`.
- `Math.random` ids and `URL.createObjectURL` previews in `onDrop` are inputs (`ids`, `urls`).
- Converter.ConvertEncoding: a read error and end of file both end the loop, as `while let Ok(n)`
  does. The error kind is not distinguished, so an interrupted read also ends it.
- Converter.ConvertEncoding: requires each read to deliver at most 1024 bytes. That is what
  `Read::read` guarantees for a 1024-byte buffer, not a demand on callers.
