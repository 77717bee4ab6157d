# tracereplay: trace-file recorder and replay client, modelled in Dafny

`tracereplay` captures the messages a sandbox sends to a remote trace checker
over a Unix `SOCK_SEQPACKET` socket, and later plays them back. The `save`
command runs a server that gives every client its own trace file. The
`replay` command reads one trace file, performs the protocol handshake with a
live endpoint, and resends the recorded messages.

A trace file has this layout:

    signature <size>Config JSON [<size>message]*

Each size is an unsigned 64-bit integer stored in 8 bytes.

The model has these modules:

- `Types` (types.dfy): bytes, `uint32`, `Option`, and the 2^64 limit of a Go `uint64`.
- `Framing` (framing.dfy): the size prefix in either byte order and the frame writer (`Sized`). It also has the frame reader (`ReadSized`), the frame list read from an offset (`Frames`), the whole-file layout a session produces (`Layout`) and the header parse the replay client performs (`Parse`). The signature bytes and the byte order are parameters (`Format`).
- `Names` (names.dfy): `%04d` formatting, `filepath.Join` and the trace file name.
- `Wire` (wire.dfy): the JSON config encoding and the protobuf handshake encoding, as encode/decode function pairs that may fail. `ConfigRoundTrips` is the one assumption made of them.
- `Save` (save.dfy): an open file (`File`), the per-client `MsgHandler` and the `SaveServer`. These are classes whose methods update fields in place. Write failures are inputs (`WriteOutcome`, `ClientIo`).
- `Replay` (replay.dfy): the endpoint as seen by the client (`Target`: its handshake reply, how reading it ends, and how many writes it accepts) and a `Socket` class. It also has the `Handshake` and `Execute` methods, the streaming loop `SendFrames`, and the specification functions `HandshakeSpec`, `Stream` and `ReplaySpec` they are proved against.
- `RoundTrip` (roundtrip.dfy): recording followed by replay.

## Model

| member | source | states |
|---|---|---|
| `Framing.LERoundTrip` | tools/tracereplay/save.go:125-126 | 8 little-endian bytes of a size below 2^64 decode back to that size |
| `Framing.BERoundTrip` | tools/tracereplay/save.go:125-126 | the same for big-endian bytes |
| `Framing.U64RoundTrip` | tools/tracereplay/save.go:125-126 | a uint64 size prefix decodes to the size written, in either byte order |
| `Framing.Sized` | tools/tracereplay/save.go:125-126 | a frame is 8 bytes longer than its payload and ends with the payload unchanged |
| `Framing.ReadSized` | tools/tracereplay/replay.go:114-120 | reading a frame reports end of file exactly at the end of the data; whenever 8 prefix bytes are followed by at least as many bytes as they announce, a frame is read; a frame read returns the bytes after the 8-byte prefix, as many as the prefix says, and the next offset |
| `Framing.ReadSizedOfSized` | tools/tracereplay/save.go:125-129 | a frame written by `Sized` is read back whole at its offset, whatever surrounds it |
| `Framing.Frames` | tools/tracereplay/replay.go:113-120 | reading frames one after another from an offset: every frame read fits a uint64 size and costs at least its 8-byte prefix, and reading yields no frame and a clean end exactly when the offset is the end of the data |
| `Framing.Parse` | tools/tracereplay/replay.go:92-103 | the header checks: a file shorter than the signature is `ShortFile` and one whose first bytes differ is `BadSignature`, each if and only if; a file parses to `Trace` if and only if it starts with the signature and a complete config frame follows it; the config is then the payload of that frame, exactly as long as its 8-byte size prefix says |
| `Framing.EncodeFramesAppend` | tools/tracereplay/save.go:128-129 | the frames of m1..mn,m are the frames of m1..mn followed by the frame of m |
| `Framing.FramesOfEncoded` | tools/tracereplay/save.go:128-129 | reading frames back from encoded messages yields the same messages, in order, and stops at a clean end of file |
| `Framing.ParseLayout` | tools/tracereplay/save.go:122-129 | parsing `signature ++ sized(config) ++ sized(m1) ++ ... ++ sized(mn)` passes the signature check and recovers the config and m1..mn, with a clean end |
| `Names.Pad4` | tools/tracereplay/save.go:132 | `%04d` produces only decimal digits; its width and value are stated by `Pad4Shape` and `Pad4Parses` |
| `Names.Join` | tools/tracereplay/save.go:132 | the joined path ends with the base name |
| `Names.FileName` | tools/tracereplay/save.go:132 | the file name ends with the prefix followed by the `%04d` sequence number |
| `Names.Pad4Parses` | tools/tracereplay/save.go:132 | `%04d` never truncates: the padded digits read back as the number |
| `Names.Pad4Shape` | tools/tracereplay/save.go:132 | `%04d` is exactly 4 characters wide for numbers of fewer than 4 digits and adds nothing to longer ones (so exactly 4 below 10000), with the number's decimal digits right-aligned after zeros |
| `Names.FileNameInjective` | tools/tracereplay/save.go:131-132 | two different sequence numbers never give the same file name |
| `Names.FirstClientFileName` | tools/tracereplay/save.go:131-132 | sequence number 1 with prefix `client-` gives `client-0001` in the output directory |
| `Save.File.Create` | tools/tracereplay/save.go:135 | a created file is open, empty and carries the given name |
| `Save.File.Write` | tools/tracereplay/save.go:139-141 | a write to an open file appends the bytes it managed to write and succeeds only if it wrote them all; a closed file takes nothing and fails |
| `Save.File.Close` | tools/tracereplay/save.go:177 | the file is closed; its name and bytes stay as they were, only its open flag changes |
| `Save.WriteWithSize` | tools/tracereplay/save.go:149-151 | writing a frame appends the size prefix and the payload, or a prefix of them on failure |
| `Save.MsgHandler.constructor` | tools/tracereplay/save.go:143 | a new handler owns the file and has counted no message |
| `Save.MsgHandler.Version` | tools/tracereplay/save.go:164-166 | the version is always the protocol's current version; the function reads no mutable field |
| `Save.MsgHandler.Message` | tools/tracereplay/save.go:169-172 | the count goes up by one (mod 2^64) whether or not the write then fails; the file grows by exactly `sized(raw)` on success or by a prefix of it on failure; nothing else changes; while every write has succeeded the file stays `Layout(config, messages so far)` and the count equals their number |
| `Save.MsgHandler.Close` | tools/tracereplay/save.go:175-178 | reports the final message count and closes the file without changing its bytes; later `Message` calls cannot change them |
| `Save.FrameAppended` | tools/tracereplay/save.go:169-172 | appending one whole frame turns the layout of n messages into the layout of n+1, and keeps the wrapped counter equal to their number |
| `Save.CounterStep` | tools/tracereplay/save.go:170 | incrementing a uint64 counter that held n mod 2^64 gives n+1 mod 2^64 |
| `Save.SaveServer.constructor` | tools/tracereplay/save.go:106-110 | a new server has handed out no sequence number |
| `Save.SaveServer.NewClient` | tools/tracereplay/save.go:130-154 | the counter goes up by one (mod 2^64) before anything can fail, and the new value is the client's number. On success the handler's file is named `dir/prefix%04d` and holds exactly `signature ++ sized(encodeConfig(CurrentVersion))`. Each failure (create, signature write, marshal, config write) returns its own error and no handler, and when none occurs a handler is returned |
| `Replay.Received` | tools/tracereplay/replay.go:157-158 | the one read returns a prefix of the reply: the whole reply when it fits the buffer, otherwise exactly a full buffer; a read ending at end of file or in an error returns nothing |
| `Replay.Socket.Connect` | tools/tracereplay/replay.go:80-84 | a new connection has delivered nothing |
| `Replay.Socket.Write` | tools/tracereplay/replay.go:122-124 | a write delivers the whole message as one record, or fails and delivers nothing |
| `Replay.Socket.Read` | tools/tracereplay/replay.go:157-158 | the read returns what `Received` describes and the target's read status |
| `Replay.Handshake` | tools/tracereplay/replay.go:147-174 | sends the encoded version once, reads one reply into a 10240-byte buffer, and ends as `HandshakeSpec` says |
| `Replay.TooBigExactly` | tools/tracereplay/replay.go:157-165 | the handshake fails as "too big" if and only if the handshake was sent and the read filled all 10240 bytes |
| `Replay.OnlyReadErrorsFail` | tools/tracereplay/replay.go:158-161 | a read error fails the handshake if and only if it is not end of file; at end of file the empty reply is decoded |
| `Replay.AnyDecodedVersionAccepted` | tools/tracereplay/replay.go:166-173 | once a reply is read, the handshake succeeds if and only if the reply decodes, whatever version it carries |
| `Replay.HandshakeSendsVersion` | tools/tracereplay/replay.go:147-155 | the handshake sends nothing or exactly the encoding of the version it was given, and after success the target has taken one write |
| `Replay.StreamSendsPrefix` | tools/tracereplay/replay.go:113-125 | streaming sends the frames in file order, each unchanged, stopping at the first refused write; it succeeds if and only if the frames end cleanly and the target takes them all, and then it has sent all of them |
| `Replay.SendFrames` | tools/tracereplay/replay.go:113-127 | the loop sends frame after frame as `Stream` prescribes: a clean end of file is success, a bad frame or a failed write stops it at once, and frames already sent stay sent |
| `Replay.StreamStep` | tools/tracereplay/replay.go:114-126 | one frame the target takes moves from the rest of the stream to what was sent, leaving the outcome of the stream unchanged |
| `Replay.Execute` | tools/tracereplay/replay.go:79-128 | one replay run sends and fails exactly as `ReplaySpec` describes: connect, open, signature check, config frame, config decode, handshake, then streaming |
| `Replay.BadHeaderSendsNothing` | tools/tracereplay/replay.go:92-98 | a file shorter than the signature fails at the signature read, and a file whose first bytes differ fails as "not a replay file", in both cases before any handshake or frame is sent |
| `Replay.HandshakeThenFileOrder` | tools/tracereplay/replay.go:100-125 | whatever is sent starts with the handshake carrying the version decoded from the file's config frame, followed by a prefix of the file's frames, in file order |
| `Replay.ReplaySucceedsIff` | tools/tracereplay/replay.go:100-127 | a run succeeds if and only if the header parses, the config decodes, the handshake succeeds, the frames end at a clean end of file and every write is taken; it has then sent the handshake followed by all frames |
| `Replay.HandshakeFailureSendsNoFrame` | tools/tracereplay/replay.go:108-110 | a run whose handshake fails returns before the frame loop: it has sent at most the one handshake message, exactly what the handshake alone sends |
| `Replay.ConnectComesFirst` | tools/tracereplay/replay.go:79-90 | a connection failure is reported whatever the file holds, since connecting precedes opening the file |
| `RoundTrip.RecordThenReplay` | tools/tracereplay/replay.go:100-127 | replaying the file recorded from m1..mn (save.go:139-151, 169-172) against a cooperating target sends the handshake with the current version, then exactly m1..mn, and succeeds |
| `RoundTrip.EmptySessionReplay` | tools/tracereplay/replay.go:113-127 | a recording with no message replays as the handshake alone, without error |
| `RoundTrip.HandlerFileReplays` | tools/tracereplay/save.go:169-172 | the file of a recorder session in which every write succeeded replays as the handshake followed by the session's messages in arrival order |

`replay.execute` connects to the endpoint (replay.go:80) before it opens the
file and checks its signature (replay.go:86-98). `ReplaySpec` and `Execute`
follow that order, so a connection failure is reported before any file error.
For a bad file the model promises only that no handshake and no frame is sent.

## Left out

- main.go (subcommand registration) and the `Name`, `Synopsis`, `Usage`, `SetFlags` and `Execute` command methods: flag checks and printing only.
- The ctrl-C signal handling, removing the stale socket file and `os.MkdirAll` in `save` (save.go:72-93, 113-118): process and file-system set-up outside the sessions.
- `server.CommonServer` is not part of this model: it holds the accept loop and runs one goroutine per connection. `clientCount` is an atomic counter in the source; here `NewClient` calls are sequential, so concurrent sessions are not modelled.
- `connect` (replay.go:130-144): the socket syscalls are replaced by an `Option<Target>` input, where `None` means connecting failed.
- `json.Marshal`/`json.Unmarshal` and `proto.Marshal`/`proto.Unmarshal` are library code. They are the function fields of `Wire.Protocol`, about which only `ConfigRoundTrips` is assumed. The value of `wire.CurrentVersion` is `Protocol.currentVersion`.
- `writeWithSize`, `readWithSize`, `readFull` and the `signature` constant are defined in a file that is not part of this model. They are modelled from the layout comment at save.go:122-129. The byte order and the signature bytes are parameters. A partial size prefix or a payload shorter than its prefix reads as an error that is not end of file. A file that ends exactly at a frame boundary reads as end of file.
- Names.Join: `filepath.Join`'s path cleaning (removing `.`, `..` and repeated separators) is not modelled; the contract promises only that the path ends with the base name.
- Names.FileName: `filepath.Join`'s path cleaning is not modelled. The name is `dir + "/" + base`, or `base` when `dir` is empty. For example, `./replay` is not shortened to `replay`.
- Save.MsgHandler.Message: the parsed header and payload arguments, which the source ignores, are dropped from the signature.
- Save.SaveServer.NewClient: on the failure paths the source leaves the created file open and partly written. The model returns no handle to that file, so it says nothing about the file's contents then.
- The replay client's deferred `socket.Close()` and `f.Close()` (replay.go:84, 90): closing the socket and the file at the end of a run is not modelled.
- Save.MsgHandler.Close: the error returned by closing the file is ignored by the source and not modelled.
- Progress and log output (`fmt.Printf`, `log.Debugf`) and the replay loop's `count`, which is used only for printing.
- Replay.Socket.Read: a read that ends at end of file is taken to return no bytes, as `os.File.Read` does.
