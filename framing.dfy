/**
 * The trace-file container:
 *
 *   signature <size>Config JSON [<size>message]*
 *
 * Every frame is an unsigned 64-bit length, stored in 8 bytes in one
 * process-wide byte order, followed by that many payload bytes. The helpers
 * that write and read frames live outside the two session files; they are
 * modelled here from that layout, with the signature literal and the byte
 * order as parameters.
 */
module Framing {
  import opened Types

  datatype ByteOrder = LittleEndian | BigEndian

  /** The container constants: the signature at offset 0 and the byte order of size prefixes. */
  datatype Format = Format(signature: Bytes, order: ByteOrder)

  /** Width in bytes of a size prefix. */
  const SizeWidth: nat := 8

  function Pow256(k: nat): (p: nat)
    ensures p >= 1
  {
    if k == 0 then 1 else 256 * Pow256(k - 1)
  }

  lemma Pow256Eight()
    ensures Pow256(SizeWidth) == Uint64Limit
  {
  }

  // ---------------------------------------------------------------------------
  // Fixed-width unsigned integers. Only the low k bytes of n are kept, as a
  // conversion to a k-byte unsigned integer does.

  /** k bytes of n, least significant first. */
  function EncodeLE(n: nat, k: nat): (r: Bytes)
    ensures |r| == k
  {
    if k == 0 then [] else [(n % 256) as byte] + EncodeLE(n / 256, k - 1)
  }

  function DecodeLE(s: Bytes): (n: nat)
    ensures n < Pow256(|s|)
  {
    if s == [] then 0 else s[0] as nat + 256 * DecodeLE(s[1..])
  }

  /** k bytes of n, most significant first. */
  function EncodeBE(n: nat, k: nat): (r: Bytes)
    ensures |r| == k
  {
    if k == 0 then [] else EncodeBE(n / 256, k - 1) + [(n % 256) as byte]
  }

  function DecodeBE(s: Bytes): (n: nat)
    ensures n < Pow256(|s|)
  {
    if s == [] then 0 else 256 * DecodeBE(s[..|s| - 1]) + s[|s| - 1] as nat
  }

  lemma {:induction false} LERoundTrip(n: nat, k: nat)
    requires n < Pow256(k)
    ensures DecodeLE(EncodeLE(n, k)) == n
  {
    if k > 0 {
      var s := EncodeLE(n, k);
      assert s[1..] == EncodeLE(n / 256, k - 1);
      LERoundTrip(n / 256, k - 1);
    }
  }

  lemma {:induction false} BERoundTrip(n: nat, k: nat)
    requires n < Pow256(k)
    ensures DecodeBE(EncodeBE(n, k)) == n
  {
    if k > 0 {
      var s := EncodeBE(n, k);
      assert s[..|s| - 1] == EncodeBE(n / 256, k - 1);
      BERoundTrip(n / 256, k - 1);
    }
  }

  function EncodeU64(n: nat, order: ByteOrder): (r: Bytes)
    ensures |r| == SizeWidth
  {
    match order
    case LittleEndian => EncodeLE(n, SizeWidth)
    case BigEndian => EncodeBE(n, SizeWidth)
  }

  function DecodeU64(s: Bytes, order: ByteOrder): (n: nat)
    requires |s| == SizeWidth
    ensures n < Uint64Limit
  {
    Pow256Eight();
    match order
    case LittleEndian => DecodeLE(s)
    case BigEndian => DecodeBE(s)
  }

  /** A size prefix decodes to the size that was written, in either byte order. */
  lemma U64RoundTrip(n: nat, order: ByteOrder)
    requires n < Uint64Limit
    ensures DecodeU64(EncodeU64(n, order), order) == n
  {
    Pow256Eight();
    match order
    case LittleEndian => LERoundTrip(n, SizeWidth);
    case BigEndian => BERoundTrip(n, SizeWidth);
  }

  // ---------------------------------------------------------------------------
  // Frames.

  /** The bytes writeWithSize emits for one payload: its length, then the payload itself. */
  function Sized(fmt: Format, payload: Bytes): (r: Bytes)
    ensures |r| == SizeWidth + |payload|
    ensures r[SizeWidth..] == payload
  {
    EncodeU64(|payload|, fmt.order) + payload
  }

  /** What one readWithSize call at offset pos yields. */
  datatype FrameRead =
    | EndOfInput                       // no byte left: io.EOF at a frame boundary
    | Truncated                        // a partial prefix or a short payload: some other error
    | Frame(payload: Bytes, next: nat) // one payload, and the offset just after it

  function ReadSized(fmt: Format, data: Bytes, pos: nat): (r: FrameRead)
    requires pos <= |data|
    ensures r.EndOfInput? <==> pos == |data|
    ensures r.Frame? ==> pos + SizeWidth <= r.next <= |data|
    ensures r.Frame? ==> r.payload == data[pos + SizeWidth..r.next]
    ensures r.Frame? ==> |r.payload| == DecodeU64(data[pos..pos + SizeWidth], fmt.order)
    ensures pos + SizeWidth <= |data| && DecodeU64(data[pos..pos + SizeWidth], fmt.order) <= |data| - (pos + SizeWidth)
            ==> r.Frame?
  {
    if pos == |data| then EndOfInput
    else if |data| - pos < SizeWidth then Truncated
    else
      var n := DecodeU64(data[pos..pos + SizeWidth], fmt.order);
      if |data| - (pos + SizeWidth) < n then Truncated
      else Frame(data[pos + SizeWidth..pos + SizeWidth + n], pos + SizeWidth + n)
  }

  /** A frame written by Sized is read back whole, whatever precedes or follows it. */
  lemma ReadSizedOfSized(fmt: Format, before: Bytes, payload: Bytes, after: Bytes)
    requires |payload| < Uint64Limit
    ensures ReadSized(fmt, before + Sized(fmt, payload) + after, |before|)
         == Frame(payload, |before| + SizeWidth + |payload|)
  {
    var data := before + Sized(fmt, payload) + after;
    var pos := |before|;
    assert data[pos..pos + SizeWidth] == EncodeU64(|payload|, fmt.order);
    U64RoundTrip(|payload|, fmt.order);
    assert data[pos + SizeWidth..pos + SizeWidth + |payload|] == payload;
  }

  /** The frames of the messages m1..mn, one after the other. */
  function EncodeFrames(fmt: Format, msgs: seq<Bytes>): (r: Bytes)
  {
    if msgs == [] then [] else Sized(fmt, msgs[0]) + EncodeFrames(fmt, msgs[1..])
  }

  lemma {:induction false} EncodeFramesAppend(fmt: Format, msgs: seq<Bytes>, m: Bytes)
    ensures EncodeFrames(fmt, msgs + [m]) == EncodeFrames(fmt, msgs) + Sized(fmt, m)
  {
    if msgs == [] {
      assert msgs + [m] == [m];
      assert EncodeFrames(fmt, [m]) == Sized(fmt, m) + EncodeFrames(fmt, []);
    } else {
      assert (msgs + [m])[1..] == msgs[1..] + [m];
      EncodeFramesAppend(fmt, msgs[1..], m);
    }
  }

  predicate AllFit(msgs: seq<Bytes>)
  {
    forall i :: 0 <= i < |msgs| ==> |msgs[i]| < Uint64Limit
  }

  lemma AllFitAppend(msgs: seq<Bytes>, m: Bytes)
    requires AllFit(msgs) && |m| < Uint64Limit
    ensures AllFit(msgs + [m])
  {
  }

  datatype FrameEnd = CleanEnd | BadFrame

  /** The frames read one after another from offset pos, and how reading stopped. */
  datatype FrameList = FrameList(frames: seq<Bytes>, end: FrameEnd)

  function Frames(fmt: Format, data: Bytes, pos: nat): (r: FrameList)
    requires pos <= |data|
    ensures SizeWidth * |r.frames| <= |data| - pos
    ensures forall i :: 0 <= i < |r.frames| ==> |r.frames[i]| < Uint64Limit
    ensures r.frames == [] && r.end == CleanEnd <==> pos == |data|
    decreases |data| - pos
  {
    match ReadSized(fmt, data, pos)
    case EndOfInput => FrameList([], CleanEnd)
    case Truncated => FrameList([], BadFrame)
    case Frame(payload, next) =>
      var rest := Frames(fmt, data, next);
      FrameList([payload] + rest.frames, rest.end)
  }

  /** Reading back encoded frames yields the same messages, in order, and ends cleanly. */
  lemma {:induction false} FramesOfEncoded(fmt: Format, before: Bytes, msgs: seq<Bytes>)
    requires AllFit(msgs)
    ensures Frames(fmt, before + EncodeFrames(fmt, msgs), |before|) == FrameList(msgs, CleanEnd)
    decreases |msgs|
  {
    if msgs != [] {
      var rest := EncodeFrames(fmt, msgs[1..]);
      assert before + EncodeFrames(fmt, msgs) == before + Sized(fmt, msgs[0]) + rest;
      ReadSizedOfSized(fmt, before, msgs[0], rest);
      assert AllFit(msgs[1..]) by {
        forall i | 0 <= i < |msgs[1..]| ensures |msgs[1..][i]| < Uint64Limit {
          assert msgs[1..][i] == msgs[i + 1];
        }
      }
      FramesOfEncoded(fmt, before + Sized(fmt, msgs[0]), msgs[1..]);
      assert before + Sized(fmt, msgs[0]) + rest == (before + Sized(fmt, msgs[0])) + rest;
      assert [msgs[0]] + msgs[1..] == msgs;
    }
  }

  // ---------------------------------------------------------------------------
  // Whole files.

  /** The file a recording session leaves behind after its messages were all written. */
  function Layout(fmt: Format, config: Bytes, msgs: seq<Bytes>): Bytes
  {
    fmt.signature + Sized(fmt, config) + EncodeFrames(fmt, msgs)
  }

  /** A session with no message leaves just the signature and the config frame. */
  lemma LayoutOfNoMessage(fmt: Format, config: Bytes)
    ensures Layout(fmt, config, []) == fmt.signature + Sized(fmt, config)
  {
    assert EncodeFrames(fmt, []) == [];
  }

  /** How far a file gets through the header checks the replay client makes. */
  datatype Parsed =
    | ShortFile                                           // fewer bytes than the signature
    | BadSignature                                        // the first bytes differ from the signature
    | NoConfig                                            // the config frame is missing or truncated
    | Trace(config: Bytes, frames: seq<Bytes>, end: FrameEnd)

  function Parse(fmt: Format, data: Bytes): (r: Parsed)
    ensures r.ShortFile? <==> |data| < |fmt.signature|
    ensures r.BadSignature? <==> |data| >= |fmt.signature| && data[..|fmt.signature|] != fmt.signature
    ensures r.Trace? ==> data[..|fmt.signature|] == fmt.signature && |r.config| < Uint64Limit
    ensures r.Trace? ==> |fmt.signature| + SizeWidth + |r.config| <= |data| &&
                         r.config == data[|fmt.signature| + SizeWidth..|fmt.signature| + SizeWidth + |r.config|]
    ensures r.Trace? ==> |r.config| == DecodeU64(data[|fmt.signature|..|fmt.signature| + SizeWidth], fmt.order)
    ensures r.Trace? <==> |data| >= |fmt.signature| && data[..|fmt.signature|] == fmt.signature &&
                          ReadSized(fmt, data, |fmt.signature|).Frame?
  {
    var sigLen := |fmt.signature|;
    if |data| < sigLen then ShortFile
    else if data[..sigLen] != fmt.signature then BadSignature
    else match ReadSized(fmt, data, sigLen)
      case Frame(config, next) =>
        var body := Frames(fmt, data, next);
        Trace(config, body.frames, body.end)
      case _ => NoConfig
  }

  /** Parsing what a recording produced recovers its config and its messages, in order. */
  lemma ParseLayout(fmt: Format, config: Bytes, msgs: seq<Bytes>)
    requires |config| < Uint64Limit && AllFit(msgs)
    ensures Parse(fmt, Layout(fmt, config, msgs)) == Trace(config, msgs, CleanEnd)
  {
    var sig := fmt.signature;
    var data := Layout(fmt, config, msgs);
    assert data[..|sig|] == sig;
    ReadSizedOfSized(fmt, sig, config, EncodeFrames(fmt, msgs));
    FramesOfEncoded(fmt, sig + Sized(fmt, config), msgs);
  }
}
