/** Shared vocabulary of the GPS-to-LoRa forwarder: bytes, the few byte
    values the loop reacts to, and the ways one forwarding cycle can fail. */
module Common {

  /** A `u8` as read from the GPS serial port and handed to the radio. */
  newtype byte = x: int | 0 <= x < 0x100

  /** Capacity of every `heapless::Vec<u8, 80>` the loop uses. */
  const Capacity: nat := 80

  /** `$`, the first byte of every NMEA sentence. */
  const Dollar: byte := 36
  /** `\r`, the byte that ends a sentence. */
  const CR: byte := 13
  /** `b' '`, the separator the composer inserts. */
  const Space: byte := 32

  datatype Option<T> = None | Some(value: T)

  /** Why a forwarding cycle stopped or what it reported. The first two are
      Rust panics inside the composer (`unwrap` on a full `Vec`, a slice index
      past the end of the sentence); the others are radio results. */
  datatype Fault =
    | FrameOverflow
    | SliceOutOfRange
    | StartTransmitFailed
    | CheckTransmitFailed
    | TxNotComplete
    | DelayFailed

  datatype Result<T> = Ok(value: T) | Err(fault: Fault)

  /** `n` spaces, as in the literals `b" "`, `b"  "` and `b"   "`. */
  function Spaces(n: nat): (r: seq<byte>)
    ensures |r| == n && forall i :: 0 <= i < n ==> r[i] == Space
  {
    seq(n, _ => Space)
  }

  /** The head and tail of a concatenation with a non-empty left part. */
  lemma ConsAppend<T>(a: seq<T>, b: seq<T>)
    requires a != []
    ensures (a + b)[0] == a[0] && (a + b)[1..] == a[1..] + b
  {
  }

  /** Concatenation is associative. */
  lemma AppendAssoc<T>(x: seq<T>, y: seq<T>, z: seq<T>)
    ensures x + y + z == x + (y + z)
  {
  }
}
