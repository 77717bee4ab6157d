/** Machine-level types shared by the recorder and the replay client. */
module Types {

  /** One octet of a file or of a socket message. */
  newtype byte = x: int | 0 <= x < 256

  /** The protocol version carried by the config record and the handshake. */
  newtype uint32 = x: int | 0 <= x < 0x1_0000_0000

  type Bytes = seq<byte>

  /** 2^64: the first value a Go uint64 cannot hold. */
  const Uint64Limit: nat := 0x1_0000_0000_0000_0000

  datatype Option<+T> = None | Some(value: T)

  function Min(a: nat, b: nat): nat { if a <= b then a else b }
}
