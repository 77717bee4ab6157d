/**
 * The two encodings the sessions rely on but do not define: the JSON text of
 * the config record (`{"Version": ...}`) and the protobuf handshake message
 * (`{version: uint32}`). Each is an encoder that may fail and a decoder that
 * may reject its input; which bytes they produce is left open.
 */
module Wire {
  import opened Types

  datatype Protocol = Protocol(
    currentVersion: uint32,                 // wire.CurrentVersion
    encodeConfig: uint32 -> Option<Bytes>,  // json.Marshal(Config{Version: v})
    decodeConfig: Bytes -> Option<uint32>,  // json.Unmarshal into Config{}
    encodeHandshake: uint32 -> Option<Bytes>, // proto.Marshal(&pb.Handshake{Version: v})
    decodeHandshake: Bytes -> Option<uint32>  // proto.Unmarshal into pb.Handshake{}
  )

  /** The assumption made of the JSON library: a config it encodes decodes to the same version. */
  ghost predicate ConfigRoundTrips(w: Protocol)
  {
    forall v: uint32 :: w.encodeConfig(v).Some? ==> w.decodeConfig(w.encodeConfig(v).value) == Some(v)
  }
}
