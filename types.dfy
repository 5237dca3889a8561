/** Shared value types of the beacon: bytes, 32-byte digests, 64-bit words,
    and the external signature and hash primitives, which the model treats as
    parameters because their internals lie outside the core. */
module Types {

  /** One byte (`u8`), as its numeric value. */
  type Byte = x: nat | x < 256

  /** All-zero 32-byte string, the initial value of every ring slot. */
  const ZERO_DIGEST: seq<Byte> := seq(32, _ => 0)

  /** A 32-byte value: a SHA-256 output, a RANDAO mix or a seed (`[u8; 32]`). */
  type Digest = s: seq<Byte> | |s| == 32 witness ZERO_DIGEST

  const TWO_POW_64: nat := 0x1_0000_0000_0000_0000

  /** An unsigned 64-bit integer (`u64`; `usize` is assumed 64 bits wide). */
  type U64 = x: nat | x < TWO_POW_64

  /** A four-byte duty-domain tag (`[u8; 4]`). */
  type DomainTag = s: seq<Byte> | |s| == 4 witness [0, 0, 0, 0]

  /** SHA-256, kept uninterpreted: any function from bytes to 32 bytes. */
  type Hasher = seq<Byte> -> Digest

  /** A BLS public key, opaque apart from its identity. */
  datatype PublicKey = PublicKey(keyBytes: seq<Byte>)

  /** A BLS signature; `bytes` is what `to_bytes` returns. */
  datatype Signature = Signature(bytes: seq<Byte>)

  /** BLS verification `verify(msg, dst, pk, sig)`, kept uninterpreted;
      `true` stands for `BLST_SUCCESS`. */
  type Verifier = (seq<Byte>, seq<Byte>, PublicKey, Signature) -> bool

  datatype Option<T> = None | Some(value: T)

  /** `Result<(), E>`: success carries nothing. */
  datatype Outcome<E> = Ok | Err(error: E)
}
