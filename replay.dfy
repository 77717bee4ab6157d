/**
 * The replay client: check a trace file's header, hand its recorded version
 * to the target in a handshake, then send every recorded message as one
 * socket write each, in file order.
 */
module Replay {
  import opened Types
  import opened Framing
  import opened Wire

  /** Size of the buffer the handshake reply is read into. */
  const HandshakeBufferSize: nat := 10240

  /** How the one read of the handshake reply ends. */
  datatype ReadStatus = ReadOk | ReadEof | ReadError

  /**
   * The process listening on the endpoint, as the replay client sees it: the
   * reply it sends to the handshake, how reading that reply ends, and how many
   * messages it takes before writes to it fail (None: it never refuses one).
   */
  datatype Target = Target(reply: Bytes, replyStatus: ReadStatus, writeLimit: Option<nat>)

  /** Whether the first n writes on a connection to t all go through. */
  predicate TakesWrites(t: Target, n: nat)
  {
    t.writeLimit.None? || n <= t.writeLimit.value
  }

  /** Whether the write numbered n (from 0) on a connection to t goes through. */
  predicate AcceptsWrite(t: Target, n: nat)
  {
    t.writeLimit.None? || n < t.writeLimit.value
  }

  /**
   * The bytes one read into a buffer of the given capacity returns. The socket
   * keeps message boundaries, so a longer reply is cut to the buffer; at end
   * of input or on an error nothing is returned.
   */
  function Received(t: Target, capacity: nat): (r: Bytes)
    ensures |r| <= capacity
    ensures r <= t.reply
    ensures |r| == capacity <==> (t.replyStatus == ReadOk && |t.reply| >= capacity) || (capacity == 0)
    ensures t.replyStatus == ReadOk ==> |r| == Min(|t.reply|, capacity)
    ensures t.replyStatus != ReadOk ==> r == []
  {
    if t.replyStatus == ReadOk then t.reply[..Min(|t.reply|, capacity)] else []
  }

  /** A connected socket and the messages it has delivered so far. */
  class Socket {
    const target: Target
    var sent: seq<Bytes>

    constructor Connect(target: Target)
      ensures this.target == target && sent == []
    {
      this.target := target;
      sent := [];
    }

    /** Sends one message, kept whole, or fails and sends nothing. */
    method Write(msg: Bytes) returns (ok: bool)
      modifies this`sent
      ensures ok == AcceptsWrite(target, |old(sent)|)
      ensures sent == if ok then old(sent) + [msg] else old(sent)
    {
      ok := AcceptsWrite(target, |sent|);
      if ok {
        sent := sent + [msg];
      }
    }

    method Read(capacity: nat) returns (data: Bytes, status: ReadStatus)
      ensures status == target.replyStatus
      ensures data == Received(target, capacity)
    {
      data := Received(target, capacity);
      status := target.replyStatus;
    }
  }

  /** The messages a run has sent, and the error it stopped with, if any. */
  datatype Run<E> = Run(sent: seq<Bytes>, err: Option<E>)

  datatype HandshakeError = MarshalFailed | SendFailed | ReadFailed | TooBig | UnmarshalFailed

  /** The handshake on a fresh connection to t, as a value. */
  function HandshakeSpec(w: Protocol, version: uint32, t: Target): Run<HandshakeError>
  {
    match w.encodeHandshake(version)
    case None => Run([], Some(MarshalFailed))
    case Some(msg) =>
      if !AcceptsWrite(t, 0) then Run([], Some(SendFailed))
      else if t.replyStatus == ReadError then Run([msg], Some(ReadFailed))
      else
        var got := Received(t, HandshakeBufferSize);
        if |got| == HandshakeBufferSize then Run([msg], Some(TooBig))
        else if w.decodeHandshake(got).None? then Run([msg], Some(UnmarshalFailed))
        else Run([msg], None)
  }

  /**
   * Sends the handshake carrying version, then reads one reply into a
   * 10240-byte buffer. A reply that fills the buffer is refused; any reply
   * that decodes is accepted, whatever version it names.
   */
  method Handshake(socket: Socket, w: Protocol, version: uint32) returns (err: Option<HandshakeError>)
    requires socket.sent == []
    modifies socket
    ensures Run(socket.sent, err) == HandshakeSpec(w, version, socket.target)
  {
    var out := w.encodeHandshake(version);
    if out.None? {
      return Some(MarshalFailed);
    }
    var ok := socket.Write(out.value);
    if !ok {
      return Some(SendFailed);
    }
    var data, status := socket.Read(HandshakeBufferSize);
    if status == ReadError {
      return Some(ReadFailed);
    }
    if |data| == HandshakeBufferSize {
      return Some(TooBig);
    }
    var reply := w.decodeHandshake(data);
    if reply.None? {
      return Some(UnmarshalFailed);
    }
    return None;
  }

  datatype ReplayError =
    | ConnectFailed
    | OpenFailed
    | SignatureShort      // readFull of the signature failed
    | NotReplayFile
    | ConfigRead          // readWithSize of the config frame failed (end of file included)
    | ConfigDecode
    | HandshakeFailed(cause: HandshakeError)
    | FrameRead           // a frame after the config is truncated
    | SocketWrite

  /**
   * Streaming after a successful handshake that sent `before`: each frame is
   * one write, numbered after the handshake's; the first refused write stops
   * the run, otherwise the end of the frames decides the outcome.
   */
  function Stream(frames: seq<Bytes>, end: FrameEnd, t: Target, before: seq<Bytes>): Run<ReplayError>
  {
    var fit := if t.writeLimit.None? || t.writeLimit.value - |before| >= |frames| then |frames|
               else if t.writeLimit.value <= |before| then 0
               else t.writeLimit.value - |before|;
    if fit < |frames| then Run(before + frames[..fit], Some(SocketWrite))
    else Run(before + frames, if end == CleanEnd then None else Some(FrameRead))
  }

  /**
   * One replay of a file against an endpoint, as a value. endpoint is None
   * when connecting fails, file is None when opening it fails. Connecting
   * comes first.
   */
  function ReplaySpec(fmt: Format, w: Protocol, endpoint: Option<Target>, file: Option<Bytes>): Run<ReplayError>
  {
    if endpoint.None? then Run([], Some(ConnectFailed))
    else if file.None? then Run([], Some(OpenFailed))
    else match Parse(fmt, file.value)
      case ShortFile => Run([], Some(SignatureShort))
      case BadSignature => Run([], Some(NotReplayFile))
      case NoConfig => Run([], Some(ConfigRead))
      case Trace(config, frames, end) =>
        match w.decodeConfig(config)
        case None => Run([], Some(ConfigDecode))
        case Some(version) =>
          var hs := HandshakeSpec(w, version, endpoint.value);
          if hs.err.Some? then Run(hs.sent, Some(HandshakeFailed(hs.err.value)))
          else Stream(frames, end, endpoint.value, hs.sent)
  }

  /** replay.execute: connect, check the file's header, hand-shake, then stream the frames. */
  method Execute(fmt: Format, w: Protocol, endpoint: Option<Target>, file: Option<Bytes>)
    returns (sent: seq<Bytes>, err: Option<ReplayError>)
    ensures Run(sent, err) == ReplaySpec(fmt, w, endpoint, file)
  {
    if endpoint.None? {
      return [], Some(ConnectFailed);
    }
    var socket := new Socket.Connect(endpoint.value);
    if file.None? {
      return [], Some(OpenFailed);
    }
    var data := file.value;
    var sigLen := |fmt.signature|;
    if |data| < sigLen {
      return [], Some(SignatureShort);
    }
    if data[..sigLen] != fmt.signature {
      return [], Some(NotReplayFile);
    }
    var cfgFrame := ReadSized(fmt, data, sigLen);
    if !cfgFrame.Frame? {
      return [], Some(ConfigRead);
    }
    var version := w.decodeConfig(cfgFrame.payload);
    if version.None? {
      return [], Some(ConfigDecode);
    }
    var hsErr := Handshake(socket, w, version.value);
    if hsErr.Some? {
      return socket.sent, Some(HandshakeFailed(hsErr.value));
    }
    err := SendFrames(fmt, data, cfgFrame.next, socket);
    sent := socket.sent;
  }

  /**
   * The loop of replay.execute after the handshake: read the next frame, stop
   * cleanly at the end of the file, stop with an error on a bad frame or a
   * refused write, otherwise send the frame and go on.
   */
  method SendFrames(fmt: Format, data: Bytes, start: nat, socket: Socket) returns (err: Option<ReplayError>)
    requires start <= |data|
    modifies socket`sent
    ensures var all := Frames(fmt, data, start);
            Run(socket.sent, err) == Stream(all.frames, all.end, socket.target, old(socket.sent))
  {
    ghost var all := Frames(fmt, data, start);
    ghost var goal := Stream(all.frames, all.end, socket.target, socket.sent);
    var pos := start;
    ghost var i := 0;
    while true
      invariant pos <= |data|
      invariant 0 <= i <= |all.frames|
      invariant Frames(fmt, data, pos) == FrameList(all.frames[i..], all.end)
      invariant Stream(all.frames[i..], all.end, socket.target, socket.sent) == goal
      decreases |data| - pos
    {
      var frame := ReadSized(fmt, data, pos);
      if frame.EndOfInput? {
        break;
      }
      if frame.Truncated? {
        return Some(FrameRead);
      }
      assert all.frames[i..][0] == frame.payload;
      ghost var prev := socket.sent;
      var ok := socket.Write(frame.payload);
      if !ok {
        return Some(SocketWrite);
      }
      StreamStep(all.frames[i..], all.end, socket.target, prev);
      assert all.frames[i..][1..] == all.frames[i + 1..];
      pos := frame.next;
      i := i + 1;
    }
    return None;
  }

  /** Sending one frame that the target takes leaves the rest of the stream as it was. */
  lemma StreamStep(frames: seq<Bytes>, end: FrameEnd, t: Target, before: seq<Bytes>)
    requires frames != [] && AcceptsWrite(t, |before|)
    ensures Stream(frames[1..], end, t, before + [frames[0]]) == Stream(frames, end, t, before)
  {
  }

  // ---------------------------------------------------------------------------
  // Properties of the handshake.

  /** The reply is refused as too big exactly when the one read fills the whole buffer. */
  lemma TooBigExactly(w: Protocol, version: uint32, t: Target)
    ensures HandshakeSpec(w, version, t).err == Some(TooBig) <==>
              w.encodeHandshake(version).Some? && AcceptsWrite(t, 0) &&
              t.replyStatus == ReadOk && |t.reply| >= HandshakeBufferSize
  {
  }

  /** End of input on the reply read is tolerated; only another read error fails it. */
  lemma OnlyReadErrorsFail(w: Protocol, version: uint32, t: Target)
    ensures HandshakeSpec(w, version, t).err == Some(ReadFailed) <==>
              w.encodeHandshake(version).Some? && AcceptsWrite(t, 0) && t.replyStatus == ReadError
    ensures t.replyStatus == ReadEof && w.encodeHandshake(version).Some? && AcceptsWrite(t, 0) ==>
              (HandshakeSpec(w, version, t).err.None? <==> w.decodeHandshake([]).Some?)
  {
  }

  /**
   * Once the reply has been read and fits the buffer, the handshake succeeds
   * exactly when the reply decodes, whatever version it carries.
   */
  lemma AnyDecodedVersionAccepted(w: Protocol, version: uint32, t: Target)
    requires w.encodeHandshake(version).Some? && AcceptsWrite(t, 0)
    requires t.replyStatus != ReadError && |Received(t, HandshakeBufferSize)| < HandshakeBufferSize
    ensures HandshakeSpec(w, version, t).err.None? <==> w.decodeHandshake(Received(t, HandshakeBufferSize)).Some?
    ensures HandshakeSpec(w, version, t).err.None? ==>
              HandshakeSpec(w, version, t).sent == [w.encodeHandshake(version).value]
  {
  }

  /** The handshake sends at most its own message, which carries the version it was given. */
  lemma HandshakeSendsVersion(w: Protocol, version: uint32, t: Target)
    ensures HandshakeSpec(w, version, t).sent == [] || HandshakeSpec(w, version, t).sent == [w.encodeHandshake(version).value]
    ensures HandshakeSpec(w, version, t).err.None? ==> |HandshakeSpec(w, version, t).sent| == 1 && TakesWrites(t, 1)
  {
  }

  // ---------------------------------------------------------------------------
  // Properties of a replay run.

  /** Streaming sends a prefix of the frames, in order, and finishes cleanly only when it sent them all up to a clean end. */
  lemma StreamSendsPrefix(frames: seq<Bytes>, end: FrameEnd, t: Target, before: seq<Bytes>)
    requires TakesWrites(t, |before|)
    ensures var r := Stream(frames, end, t, before);
            |before| <= |r.sent| <= |before| + |frames| &&
            r.sent[..|before|] == before && r.sent[|before|..] == frames[..|r.sent| - |before|]
    ensures Stream(frames, end, t, before).err.None? <==> end == CleanEnd && TakesWrites(t, |before| + |frames|)
    ensures Stream(frames, end, t, before).err.None? ==> Stream(frames, end, t, before).sent == before + frames
  {
  }

  /**
   * A file whose header is wrong stops the run before anything is sent: too
   * short to hold the signature, or not starting with it.
   */
  lemma BadHeaderSendsNothing(fmt: Format, w: Protocol, t: Target, data: Bytes)
    ensures var r := ReplaySpec(fmt, w, Some(t), Some(data));
            (r.err == Some(SignatureShort) <==> |data| < |fmt.signature|) &&
            (r.err == Some(NotReplayFile) <==> |data| >= |fmt.signature| && data[..|fmt.signature|] != fmt.signature) &&
            (r.err == Some(SignatureShort) || r.err == Some(NotReplayFile) ==> r.sent == [])
  {
  }

  /**
   * Whatever a run sends starts with the handshake carrying the version decoded
   * from the file's config frame, followed by the file's frames in file order,
   * each exactly as stored.
   */
  lemma HandshakeThenFileOrder(fmt: Format, w: Protocol, endpoint: Option<Target>, file: Option<Bytes>)
    requires ReplaySpec(fmt, w, endpoint, file).sent != []
    ensures endpoint.Some? && file.Some?
    ensures Parse(fmt, file.value).Trace?
    ensures var p := Parse(fmt, file.value);
            var r := ReplaySpec(fmt, w, endpoint, file);
            w.decodeConfig(p.config).Some? &&
            w.encodeHandshake(w.decodeConfig(p.config).value) == Some(r.sent[0]) &&
            r.sent[1..] <= p.frames
  {
  }

  /**
   * A run succeeds exactly when the file parses, its config decodes, the
   * handshake succeeds, frame reading ends at a clean end of file, and the
   * target takes every write; it then has sent the handshake and every frame.
   */
  lemma ReplaySucceedsIff(fmt: Format, w: Protocol, endpoint: Option<Target>, file: Option<Bytes>)
    ensures ReplaySpec(fmt, w, endpoint, file).err.None? <==>
              endpoint.Some? && file.Some? &&
              Parse(fmt, file.value).Trace? && Parse(fmt, file.value).end == CleanEnd &&
              w.decodeConfig(Parse(fmt, file.value).config).Some? &&
              HandshakeSpec(w, w.decodeConfig(Parse(fmt, file.value).config).value, endpoint.value).err.None? &&
              TakesWrites(endpoint.value, 1 + |Parse(fmt, file.value).frames|)
    ensures ReplaySpec(fmt, w, endpoint, file).err.None? ==>
              var p := Parse(fmt, file.value);
              ReplaySpec(fmt, w, endpoint, file).sent ==
                HandshakeSpec(w, w.decodeConfig(p.config).value, endpoint.value).sent + p.frames
  {
  }

  /**
   * A run whose handshake fails stops before any frame: it has sent at most
   * the handshake itself, exactly as the handshake alone would.
   */
  lemma HandshakeFailureSendsNoFrame(fmt: Format, w: Protocol, endpoint: Option<Target>, file: Option<Bytes>)
    ensures var r := ReplaySpec(fmt, w, endpoint, file);
            r.err.Some? && r.err.value.HandshakeFailed? ==>
              |r.sent| <= 1 &&
              endpoint.Some? && file.Some? && Parse(fmt, file.value).Trace? &&
              w.decodeConfig(Parse(fmt, file.value).config).Some? &&
              r.sent == HandshakeSpec(w, w.decodeConfig(Parse(fmt, file.value).config).value, endpoint.value).sent
  {
  }

  /** A failed connection is reported before the file is even opened. */
  lemma ConnectComesFirst(fmt: Format, w: Protocol, file: Option<Bytes>)
    ensures ReplaySpec(fmt, w, None, file) == Run([], Some(ConnectFailed))
  {
  }
}
