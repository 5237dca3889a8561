/** The byte-level library operations the core relies on: little-endian
    integer encoding (`to_le_bytes` / `from_le_bytes`), byte-wise XOR of two
    digests, and `rotate_left` on a byte buffer. */
module Bytes {
  import opened Types

  function Pow256(k: nat): (p: nat)
    ensures p >= 1
  {
    if k == 0 then 1 else 256 * Pow256(k - 1)
  }

  /** The `k` low-order bytes of `x`, least significant first. */
  function LeBytes(x: nat, k: nat): (r: seq<Byte>)
    ensures |r| == k
  {
    if k == 0 then [] else [x % 256] + LeBytes(x / 256, k - 1)
  }

  /** `from_le_bytes`: the number whose little-endian encoding is `s`. */
  function FromLe(s: seq<Byte>): (v: nat)
    ensures v < Pow256(|s|)
  {
    if s == [] then 0 else s[0] + 256 * FromLe(s[1..])
  }

  /** `u64::to_le_bytes`. */
  function Le64(x: U64): (r: seq<Byte>)
    ensures |r| == 8
  {
    LeBytes(x, 8)
  }

  lemma Pow256Of8()
    ensures Pow256(8) == TWO_POW_64
  {
  }

  /** Decoding undoes encoding for every value that fits in `k` bytes. */
  lemma {:induction false} LeRoundTrip(x: nat, k: nat)
    requires x < Pow256(k)
    ensures FromLe(LeBytes(x, k)) == x
  {
    if k > 0 {
      assert x / 256 < Pow256(k - 1) by {
        assert Pow256(k) == 256 * Pow256(k - 1);
      }
      LeRoundTrip(x / 256, k - 1);
      LeBytesUnfold(x, k);
    }
  }

  /** Unfolding step: decoding `k` bytes peels off the lowest byte of `x`. */
  lemma LeBytesUnfold(x: nat, k: nat)
    requires k > 0
    ensures FromLe(LeBytes(x, k)) == x % 256 + 256 * FromLe(LeBytes(x / 256, k - 1))
  {
    var rest := LeBytes(x / 256, k - 1);
    var s := LeBytes(x, k);
    assert s == [x % 256] + rest;
    assert s != [];
    assert s[0] == x % 256;
    assert s[1..] == rest;
    assert FromLe(s) == s[0] + 256 * FromLe(s[1..]);
  }

  /** `from_le_bytes(to_le_bytes(x)) == x` for 64-bit words. */
  lemma Le64RoundTrip(x: U64)
    ensures FromLe(Le64(x)) == x
  {
    Pow256Of8();
    LeRoundTrip(x, 8);
  }

  /** Distinct 64-bit words have distinct encodings. */
  lemma Le64Injective(x: U64, y: U64)
    requires Le64(x) == Le64(y)
    ensures x == y
  {
    Le64RoundTrip(x);
    Le64RoundTrip(y);
  }

  function Pow2(k: nat): (p: nat)
    ensures p >= 1
  {
    if k == 0 then 1 else 2 * Pow2(k - 1)
  }

  /** Exclusive or of `a` and `b`, bit by bit from the lowest. */
  function XorBits(a: nat, b: nat): (r: nat)
    decreases a + b
  {
    if a == 0 && b == 0 then 0 else (a + b) % 2 + 2 * XorBits(a / 2, b / 2)
  }

  /** The lowest bit of an exclusive or, and the rest of it. */
  lemma XorBitsSplit(a: nat, b: nat)
    ensures XorBits(a, b) % 2 == (a + b) % 2
    ensures XorBits(a, b) / 2 == XorBits(a / 2, b / 2)
  {
    if !(a == 0 && b == 0) {
      BitThenRest((a + b) % 2, XorBits(a / 2, b / 2));
    }
  }

  lemma BitThenRest(c: nat, q: nat)
    requires c < 2
    ensures (c + 2 * q) % 2 == c && (c + 2 * q) / 2 == q
  {
  }

  /** Exclusive or of two `k`-bit numbers has `k` bits. */
  lemma {:induction false} XorBitsBound(a: nat, b: nat, k: nat)
    requires a < Pow2(k) && b < Pow2(k)
    ensures XorBits(a, b) < Pow2(k)
    decreases a + b
  {
    if !(a == 0 && b == 0) {
      assert k > 0;
      XorBitsBound(a / 2, b / 2, k - 1);
    }
  }

  lemma {:induction false} XorBitsCommutes(a: nat, b: nat)
    ensures XorBits(a, b) == XorBits(b, a)
    decreases a + b
  {
    if !(a == 0 && b == 0) {
      XorBitsCommutes(a / 2, b / 2);
    }
  }

  lemma {:induction false} XorBitsAssociates(a: nat, b: nat, c: nat)
    ensures XorBits(XorBits(a, b), c) == XorBits(a, XorBits(b, c))
    decreases a + b + c
  {
    var ab, bc := XorBits(a, b), XorBits(b, c);
    XorBitsSplit(a, b);
    XorBitsSplit(b, c);
    if a == 0 && b == 0 && c == 0 {
    } else {
      XorBitsAssociates(a / 2, b / 2, c / 2);
      var hi := XorBits(a / 2, bc / 2);
      assert XorBits(ab / 2, c / 2) == hi;
      ParityRegroup(a, b, c, ab, bc);
      XorBitsSplit(ab, c);
      XorBitsSplit(a, bc);
      assert XorBits(ab, c) == (ab + c) % 2 + 2 * hi;
      assert XorBits(a, bc) == (a + bc) % 2 + 2 * hi;
    }
  }

  /** `(a ^ b) ^ b == a`. */
  lemma {:induction false} XorBitsCancels(a: nat, b: nat)
    ensures XorBits(XorBits(a, b), b) == a
    decreases a + b
  {
    var ab := XorBits(a, b);
    XorBitsSplit(a, b);
    if !(a == 0 && b == 0) {
      XorBitsCancels(a / 2, b / 2);
      assert XorBits(ab / 2, b / 2) == a / 2;
      ParityRegroup(a, b, b, ab, (b + b) % 2);
      XorBitsSplit(ab, b);
      assert XorBits(ab, b) == (ab + b) % 2 + 2 * (a / 2);
    }
  }

  /** Parity of a three-way sum does not depend on grouping. */
  lemma ParityRegroup(a: nat, b: nat, c: nat, ab: nat, bc: nat)
    requires ab % 2 == (a + b) % 2 && bc % 2 == (b + c) % 2
    ensures (ab + c) % 2 == (a + bc) % 2
  {
    ParityShift(ab, c);
    ParityShift(a + b, c);
    ParityShift(bc, a);
    ParityShift(b + c, a);
  }

  /** Only the parity of `x` matters for the parity of `x + y`. */
  lemma ParityShift(x: nat, y: nat)
    ensures (x % 2 + y) % 2 == (x + y) % 2
  {
  }

  lemma Pow2Of8()
    ensures Pow2(8) == 256
  {
  }

  /** `u8` exclusive or: the lowest bit is the sum of the operands' lowest
      bits modulo 2, and the higher bits are the exclusive or of the
      operands' higher bits. */
  function XorByte(a: Byte, b: Byte): (r: Byte)
    ensures r % 2 == (a + b) % 2
    ensures r / 2 == XorBits(a / 2, b / 2)
  {
    Pow2Of8();
    XorBitsBound(a, b, 8);
    XorBitsSplit(a, b);
    XorBits(a, b)
  }

  /** Byte-wise XOR of two equally long strings. */
  function Xor(a: seq<Byte>, b: seq<Byte>): (r: seq<Byte>)
    requires |a| == |b|
    ensures |r| == |a|
  {
    seq(|a|, i requires 0 <= i < |a| => XorByte(a[i], b[i]))
  }

  /** Unfolding step: byte `i` of the XOR is the XOR of the two bytes `i`. */
  lemma XorAt(a: seq<Byte>, b: seq<Byte>, i: nat)
    requires |a| == |b| && i < |a|
    ensures Xor(a, b)[i] == XorByte(a[i], b[i])
  {
  }

  lemma XorCommutes(a: seq<Byte>, b: seq<Byte>)
    requires |a| == |b|
    ensures Xor(a, b) == Xor(b, a)
  {
    forall i | 0 <= i < |a|
      ensures Xor(a, b)[i] == Xor(b, a)[i]
    {
      XorBitsCommutes(a[i], b[i]);
    }
  }

  lemma XorAssociates(a: seq<Byte>, b: seq<Byte>, c: seq<Byte>)
    requires |a| == |b| == |c|
    ensures Xor(Xor(a, b), c) == Xor(a, Xor(b, c))
  {
    forall i | 0 <= i < |a|
      ensures Xor(Xor(a, b), c)[i] == Xor(a, Xor(b, c))[i]
    {
      XorBitsAssociates(a[i], b[i], c[i]);
    }
  }

  /** XOR-ing the same string in twice restores the original. */
  lemma XorCancels(a: seq<Byte>, b: seq<Byte>)
    requires |a| == |b|
    ensures Xor(Xor(a, b), b) == a
  {
    forall i | 0 <= i < |a|
      ensures Xor(Xor(a, b), b)[i] == a[i]
    {
      XorBitsCancels(a[i], b[i]);
    }
  }

  /** `rotate_left(mid)`: the first `mid` bytes move to the end. */
  function RotateLeft(s: seq<Byte>, mid: nat): (r: seq<Byte>)
    requires mid <= |s|
    ensures |r| == |s|
  {
    s[mid..] + s[..mid]
  }

  /** One more single-byte rotation of a buffer already rotated by `k`
      gives the buffer rotated by `k + 1`, wrapping around at its length. */
  lemma RotateLeftStep(s: seq<Byte>, k: nat)
    requires k < |s|
    ensures RotateLeft(RotateLeft(s, k), 1) == RotateLeft(s, (k + 1) % |s|)
  {
    var t := RotateLeft(s, k);
    assert t[0] == s[k];
    if k + 1 < |s| {
      assert (k + 1) % |s| == k + 1;
      assert t[1..] == s[k + 1..] + s[..k];
      assert s[..k + 1] == s[..k] + [s[k]];
    } else {
      assert (k + 1) % |s| == 0;
      assert t[1..] == s[..k];
      assert s == s[..k] + [s[k]];
    }
  }
}
