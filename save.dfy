/**
 * The recorder: a server that gives every new client its own trace file, and
 * the per-client handler that appends each received message to that file.
 */
module Save {
  import opened Types
  import opened Framing
  import opened Names
  import opened Wire

  /** How one write to a file ends: all bytes written, or an error after some of them. */
  datatype WriteOutcome = Complete | Failed(written: nat)

  /** The bytes a write with this outcome leaves in the file. */
  function Written(data: Bytes, outcome: WriteOutcome): (r: Bytes)
    ensures r <= data
    ensures outcome.Complete? ==> r == data
  {
    match outcome
    case Complete => data
    case Failed(k) => data[..Min(k, |data|)]
  }

  /** An open file on disk: a name and the bytes written to it so far. */
  class File {
    const name: string
    var content: Bytes
    var open: bool

    /** os.Create: a new, empty, open file. */
    constructor Create(name: string)
      ensures this.name == name && content == [] && open
    {
      this.name := name;
      content := [];
      open := true;
    }

    /** Appends data; a closed file accepts nothing and reports an error. */
    method Write(data: Bytes, outcome: WriteOutcome) returns (ok: bool)
      modifies this`content
      ensures ok <==> open && outcome.Complete?
      ensures content == old(content) + (if open then Written(data, outcome) else [])
    {
      ok := open && outcome.Complete?;
      if open {
        content := content + Written(data, outcome);
      }
    }

    method Close()
      modifies this`open
      ensures !open
    {
      open := false;
    }
  }

  /** writeWithSize: one frame, its size prefix then its payload. */
  method WriteWithSize(fmt: Format, out: File, payload: Bytes, outcome: WriteOutcome) returns (ok: bool)
    modifies out`content
    ensures ok <==> out.open && outcome.Complete?
    ensures out.content == old(out.content) + (if out.open then Written(Sized(fmt, payload), outcome) else [])
  {
    ok := out.Write(Sized(fmt, payload), outcome);
  }

  /** The handler of one client session. */
  class MsgHandler {
    const fmt: Format
    const wire: Protocol
    const out: File
    var messageCount: nat              // uint64, counts every Message call
    ghost var config: Bytes            // the config frame's payload written by NewClient
    ghost var recorded: seq<Bytes>     // the messages whose frames were written whole
    ghost var intact: bool             // no Message call has failed yet

    /**
     * While every write has succeeded, the file is exactly the header followed
     * by one frame per message, in arrival order, and the counter is their number.
     */
    ghost predicate Valid()
      reads this, out
    {
      messageCount < Uint64Limit && AllFit(recorded) &&
      (intact ==> out.content == Layout(fmt, config, recorded) && messageCount == |recorded| % Uint64Limit)
    }

    constructor (fmt: Format, wire: Protocol, out: File)
      ensures this.fmt == fmt && this.wire == wire && this.out == out
      ensures messageCount == 0 && recorded == [] && intact
    {
      this.fmt := fmt;
      this.wire := wire;
      this.out := out;
      messageCount := 0;
      config := [];
      recorded := [];
      intact := true;
    }

    /** The protocol version this handler speaks; it reads no mutable state. */
    function Version(): (v: uint32)
      ensures v == wire.currentVersion
    {
      wire.currentVersion
    }

    /**
     * Saves one message: the counter goes up first, then its frame is appended.
     * The message's parsed header and payload are not used.
     */
    method Message(raw: Bytes, outcome: WriteOutcome) returns (ok: bool)
      requires Valid()
      requires |raw| < Uint64Limit  // the length of a Go slice
      modifies this, out`content
      ensures Valid()
      ensures messageCount == (old(messageCount) + 1) % Uint64Limit
      ensures ok <==> out.open && outcome.Complete?
      ensures out.content == old(out.content) + (if out.open then Written(Sized(fmt, raw), outcome) else [])
      ensures recorded == (if ok then old(recorded) + [raw] else old(recorded))
      ensures intact == (old(intact) && ok)
      ensures config == old(config)
    {
      ghost var count := messageCount;
      messageCount := (messageCount + 1) % Uint64Limit;
      ok := WriteWithSize(fmt, out, raw, outcome);
      if ok {
        if intact {
          FrameAppended(fmt, config, recorded, raw, count);
        }
        AllFitAppend(recorded, raw);
        recorded := recorded + [raw];
      } else {
        intact := false;
      }
    }

    /** Closes the file and reports how many messages the session received. */
    method Close() returns (count: nat)
      requires Valid()
      modifies out`open
      ensures Valid()
      ensures count == messageCount
      ensures !out.open && out.content == old(out.content)
    {
      count := messageCount;
      out.Close();
    }
  }

  /** One more whole frame keeps the file equal to the layout of one more message, and the counter in step. */
  lemma FrameAppended(fmt: Format, config: Bytes, msgs: seq<Bytes>, m: Bytes, count: nat)
    requires count == |msgs| % Uint64Limit
    ensures Layout(fmt, config, msgs) + Sized(fmt, m) == Layout(fmt, config, msgs + [m])
    ensures (count + 1) % Uint64Limit == |msgs + [m]| % Uint64Limit
  {
    EncodeFramesAppend(fmt, msgs, m);
    CounterStep(|msgs|, count);
  }

  /** A wrapped counter that tracked n still tracks n + 1 after one more increment. */
  lemma CounterStep(n: nat, count: nat)
    requires count == n % Uint64Limit
    ensures (count + 1) % Uint64Limit == (n + 1) % Uint64Limit
  {
  }

  /** What each I/O step of NewClient does, decided by the file system. */
  datatype ClientIo = ClientIo(create: bool, signatureWrite: WriteOutcome, configWrite: WriteOutcome)

  datatype SaveError = CreateFailed | SignatureWriteFailed | ConfigMarshalFailed | ConfigWriteFailed

  class SaveServer {
    const fmt: Format
    const wire: Protocol
    const dir: string
    const prefix: string
    var clientCount: nat               // uint64

    ghost predicate Valid()
      reads this
    {
      clientCount < Uint64Limit
    }

    constructor (fmt: Format, wire: Protocol, dir: string, prefix: string)
      ensures Valid()
      ensures this.fmt == fmt && this.wire == wire && this.dir == dir && this.prefix == prefix
      ensures clientCount == 0
    {
      this.fmt := fmt;
      this.wire := wire;
      this.dir := dir;
      this.prefix := prefix;
      clientCount := 0;
    }

    /**
     * A new client takes the next sequence number (even if it then fails) and
     * gets a file holding the signature and one config frame.
     */
    method NewClient(io: ClientIo) returns (h: MsgHandler?, err: Option<SaveError>)
      requires Valid()
      modifies this`clientCount
      ensures Valid()
      ensures clientCount == (old(clientCount) + 1) % Uint64Limit
      ensures h != null <==> err.None?
      ensures err == Some(CreateFailed) <==> !io.create
      ensures err == Some(SignatureWriteFailed) <==> io.create && !io.signatureWrite.Complete?
      ensures err == Some(ConfigMarshalFailed) <==>
                io.create && io.signatureWrite.Complete? && wire.encodeConfig(wire.currentVersion).None?
      ensures err == Some(ConfigWriteFailed) <==>
                io.create && io.signatureWrite.Complete? && wire.encodeConfig(wire.currentVersion).Some? &&
                !io.configWrite.Complete?
      ensures (io.create && io.signatureWrite.Complete? && wire.encodeConfig(wire.currentVersion).Some? &&
               io.configWrite.Complete?) ==> h != null
      ensures h != null ==>
                fresh(h) && fresh(h.out) && h.Valid() &&
                h.fmt == fmt && h.wire == wire &&
                h.out.name == FileName(dir, prefix, clientCount) && h.out.open &&
                h.config == wire.encodeConfig(wire.currentVersion).value &&
                h.out.content == Layout(fmt, h.config, []) &&
                h.messageCount == 0 && h.recorded == [] && h.intact
    {
      clientCount := (clientCount + 1) % Uint64Limit;
      var number := clientCount;
      var filename := FileName(dir, prefix, number);
      if !io.create {
        return null, Some(CreateFailed);
      }
      var out := new File.Create(filename);
      var ok := out.Write(fmt.signature, io.signatureWrite);
      if !ok {
        return null, Some(SignatureWriteFailed);
      }
      assert out.content == fmt.signature;
      var handler := new MsgHandler(fmt, wire, out);
      var cfg := wire.encodeConfig(handler.Version());
      if cfg.None? {
        return null, Some(ConfigMarshalFailed);
      }
      ok := WriteWithSize(fmt, out, cfg.value, io.configWrite);
      if !ok {
        return null, Some(ConfigWriteFailed);
      }
      assert out.content == fmt.signature + Sized(fmt, cfg.value);
      handler.config := cfg.value;
      LayoutOfNoMessage(fmt, cfg.value);
      assert handler.Valid();
      return handler, None;
    }
  }
}
