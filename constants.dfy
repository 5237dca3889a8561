/** Protocol constants shared by the accumulator and the seed derivation
    (proposed/src/constants.rs). */
module Constants {
  import opened Types
  import opened Bytes

  /** Number of epochs the mix ring remembers, `1 << 16`. */
  const EPOCHS_PER_HISTORICAL_VECTOR: nat := 0x1_0000

  /** Epochs of lookahead for seed derivation. */
  const MIN_SEED_LOOKAHEAD: U64 := 1

  /** Four-byte duty-domain tags. */
  const DOMAIN_BEACON_PROPOSER: DomainTag := [0x00, 0x00, 0x00, 0x00]
  const DOMAIN_BEACON_ATTESTER: DomainTag := [0x01, 0x00, 0x00, 0x00]
  const DOMAIN_RANDAO: DomainTag := [0x02, 0x00, 0x00, 0x00]

  /** Domain-separation tag handed to every BLS verification: the ASCII
      name of the BLS ciphersuite. */
  const DST: seq<Byte> := Ascii("BLS_SIG_BLS12381G2_XMD:SHA-256_SSWU_RO_NUL_")

  /** The bytes of a string literal written in 8-bit characters. */
  function Ascii(s: string): (r: seq<Byte>)
    requires forall i :: 0 <= i < |s| ==> s[i] as int < 256
    ensures |r| == |s|
  {
    seq(|s|, i requires 0 <= i < |s| => s[i] as int)
  }

  /** The ring length is the positive power of two `2^16`. */
  lemma HistoryLengthIsPowerOfTwo()
    ensures EPOCHS_PER_HISTORICAL_VECTOR == Pow2(16) == 65536
    ensures EPOCHS_PER_HISTORICAL_VECTOR > 0
  {
    assert Pow2(8) == 256;
    assert Pow2(16) == 256 * Pow2(8) by {
      Pow2Add(8, 8);
    }
  }

  lemma {:induction false} Pow2Add(a: nat, b: nat)
    ensures Pow2(a + b) == Pow2(a) * Pow2(b)
  {
    if a > 0 {
      Pow2Add(a - 1, b);
      assert Pow2(a + b) == 2 * Pow2(a - 1 + b);
    }
  }

  /** Seeds for epoch `t` are drawn from the mix of epoch `t - 2`. */
  lemma LookbackIsTwoEpochs()
    ensures MIN_SEED_LOOKAHEAD + 1 == 2
  {
  }

  /** The domain tags are the 4-byte little-endian encodings of 0, 1 and 2,
      and no two of them are equal. */
  lemma DomainTagsDistinct()
    ensures DOMAIN_BEACON_PROPOSER == LeBytes(0, 4)
    ensures DOMAIN_BEACON_ATTESTER == LeBytes(1, 4)
    ensures DOMAIN_RANDAO == LeBytes(2, 4)
    ensures DOMAIN_BEACON_PROPOSER != DOMAIN_BEACON_ATTESTER
    ensures DOMAIN_BEACON_PROPOSER != DOMAIN_RANDAO
    ensures DOMAIN_BEACON_ATTESTER != DOMAIN_RANDAO
  {
    assert DOMAIN_BEACON_PROPOSER[0] != DOMAIN_BEACON_ATTESTER[0];
    assert DOMAIN_BEACON_ATTESTER[0] != DOMAIN_RANDAO[0];
    assert DOMAIN_BEACON_PROPOSER[0] != DOMAIN_RANDAO[0];
  }

  /** The verification tag is a fixed, non-empty 43-byte string. */
  lemma DstNonEmpty()
    ensures |DST| == 43
  {
  }
}
