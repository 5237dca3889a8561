/** The threshold variant of the beacon (proposed/src/threshold.rs): next to
    the RANDAO mix ring, a ring of optional group signatures, one per epoch;
    a seed prefers the stored signature, delayed by one extra hash, and falls
    back to the mix. The shuffle and proposer selection are the ones of the
    `Randao` module. */
module Threshold {
  import opened Types
  import opened Bytes
  import opened Constants
  import opened Randao

  /** The two messages `process_reveal` can fail with. */
  datatype RevealError = InvalidThresholdSignature(epoch: U64) | InvalidFallbackReveal

  /** `hash` applied `rounds` times to `data`; after at least one round the
      result is a digest. */
  function Iterate(hash: Hasher, data: seq<Byte>, rounds: nat): (r: seq<Byte>)
    ensures rounds == 0 ==> r == data
    ensures rounds > 0 ==> |r| == 32
  {
    if rounds == 0 then data else hash(Iterate(hash, data, rounds - 1))
  }

  /** The first round may be taken first: after hashing `data` once the
      chain continues from `hash(data)` for the remaining rounds. */
  lemma {:induction false} IterateFirstRound(hash: Hasher, data: seq<Byte>, rounds: nat)
    requires rounds > 0
    ensures Iterate(hash, data, rounds) == Iterate(hash, hash(data), rounds - 1)
  {
    if rounds > 1 {
      IterateFirstRound(hash, data, rounds - 1);
    }
  }

  /** `sha2_chain`: the digest after `rounds` rounds of re-hashing, each round
      hashing the previous round's digest; 32 zero bytes when no round runs. */
  method Sha2Chain(hash: Hasher, data: seq<Byte>, rounds: nat) returns (h: Digest)
    ensures rounds == 0 ==> h == ZERO_DIGEST
    ensures rounds > 0 ==> h == Iterate(hash, data, rounds)
  {
    h := ZERO_DIGEST;
    var current := data;
    for r := 0 to rounds
      invariant current == Iterate(hash, data, r)
      invariant r == 0 ==> h == ZERO_DIGEST
      invariant r > 0 ==> h == current
    {
      var digest := hash(current);
      current := digest;
      h := digest;
    }
  }

  // ---------------------------------------------------------------------
  // The signature ring as a value

  /** The signature ring after `sig` was accepted as the group signature of
      `epoch`. */
  function Store(sigs: seq<Option<Signature>>, epoch: U64, sig: Signature): (r: seq<Option<Signature>>)
    requires |sigs| == N
    ensures |r| == N
  {
    sigs[SlotOf(epoch) := Some(sig)]
  }

  /** A later group signature for the same epoch replaces an earlier one. */
  lemma LastWriteWins(sigs: seq<Option<Signature>>, epoch: U64, first: Signature, second: Signature)
    requires |sigs| == N
    ensures Store(Store(sigs, epoch, first), epoch, second) == Store(sigs, epoch, second)
    ensures Store(Store(sigs, epoch, first), epoch, second)[SlotOf(epoch)] == Some(second)
  {
  }

  /** The raw entropy a seed for `target` is drawn from: one more hash of the
      group signature stored for the mix epoch if there is one, otherwise
      that epoch's mix. */
  function RawEntropy(hash: Hasher, mixes: seq<Mix>, sigs: seq<Option<Signature>>, target: U64): (r: Digest)
    requires |mixes| == N && |sigs| == N
    ensures sigs[MixEpoch(target)].Some? ==> r == Iterate(hash, sigs[MixEpoch(target)].value.bytes, 1)
    ensures sigs[MixEpoch(target)].None? ==> r == mixes[MixEpoch(target)]
  {
    match sigs[MixEpoch(target)]
    case Some(sigma) => hash(sigma.bytes)
    case None => mixes[MixEpoch(target)]
  }

  /** The threshold-preferred seed for duty `domain` in epoch `target`. */
  function ThresholdSeed(hash: Hasher, mixes: seq<Mix>, sigs: seq<Option<Signature>>, target: U64, domain: DomainTag): (r: Digest)
    requires |mixes| == N && |sigs| == N
    ensures r == hash(domain + Le64(target) + RawEntropy(hash, mixes, sigs, target))
    ensures sigs[MixEpoch(target)].None? ==> r == Seed(hash, mixes, target, domain)
  {
    hash(SeedPreimage(domain, target, RawEntropy(hash, mixes, sigs, target)))
  }

  /** With no group signature at the mix epoch the seed is exactly the one
      the RANDAO-only beacon derives from the same mixes. */
  lemma FallbackSeedIsRandaoSeed(hash: Hasher, mixes: seq<Mix>, sigs: seq<Option<Signature>>, target: U64, domain: DomainTag)
    requires |mixes| == N && |sigs| == N
    requires sigs[MixEpoch(target)] == None
    ensures ThresholdSeed(hash, mixes, sigs, target, domain) == Seed(hash, mixes, target, domain)
  {
  }

  /** Once a group signature is stored for the epoch a seed reads, the seed
      comes from that signature's chained hash and no longer from the mix. */
  lemma StoredSignatureIsPreferred(hash: Hasher, mixes: seq<Mix>, sigs: seq<Option<Signature>>,
                                   epoch: U64, sig: Signature, target: U64, domain: DomainTag)
    requires |mixes| == N && |sigs| == N
    requires MixEpoch(target) == SlotOf(epoch)
    ensures ThresholdSeed(hash, mixes, Store(sigs, epoch, sig), target, domain)
         == hash(SeedPreimage(domain, target, Iterate(hash, sig.bytes, 1)))
  {
  }

  /** A threshold seed depends on nothing but the two slots at `MixEpoch(target)`. */
  lemma ThresholdSeedReadsOnlyMixEpoch(hash: Hasher, m1: seq<Mix>, s1: seq<Option<Signature>>,
                                       m2: seq<Mix>, s2: seq<Option<Signature>>, target: U64, domain: DomainTag)
    requires |m1| == N && |s1| == N && |m2| == N && |s2| == N
    requires m1[MixEpoch(target)] == m2[MixEpoch(target)] && s1[MixEpoch(target)] == s2[MixEpoch(target)]
    ensures ThresholdSeed(hash, m1, s1, target, domain) == ThresholdSeed(hash, m2, s2, target, domain)
  {
  }

  // ---------------------------------------------------------------------
  // The beacon state

  class ThresholdBeaconState {
    /** `randao_mixes`: the fallback mix ring, updated in place. */
    const randaoMixes: array<Mix>
    /** `threshold_pk`: the group public key every reveal is verified against. */
    var thresholdPk: PublicKey
    /** `threshold_sigs`: the latest verified group signature of each epoch. */
    var thresholdSigs: seq<Option<Signature>>

    ghost predicate Valid()
      reads this
    {
      randaoMixes.Length == N && |thresholdSigs| == N
    }

    ghost function Mixes(): (m: seq<Mix>)
      reads randaoMixes
      requires randaoMixes.Length == N
      ensures |m| == N
    {
      randaoMixes[..]
    }

    /** `BeaconState::new(group_pk)`. */
    constructor (groupPk: PublicKey)
      ensures Valid() && fresh(randaoMixes)
      ensures forall j :: 0 <= j < N ==> Mixes()[j] == ZERO_DIGEST
      ensures forall j :: 0 <= j < N ==> thresholdSigs[j] == None
      ensures thresholdPk == groupPk
    {
      randaoMixes := new Mix[N](_ => ZERO_DIGEST);
      thresholdPk := groupPk;
      thresholdSigs := seq(N, _ => None);
    }

    /** `process_reveal`: both branches verify `sig` over `le64(epoch)`
        against the group key; a threshold signature is stored in its slot,
        any other reveal is hashed and XOR-ed into the mix ring. */
    method ProcessReveal(hash: Hasher, verify: Verifier, epoch: U64, sig: Signature, isThreshold: bool)
      returns (res: Outcome<RevealError>)
      requires Valid()
      modifies this`thresholdSigs, randaoMixes
      ensures Valid()
      ensures thresholdPk == old(thresholdPk)
      ensures res.Ok? <==> verify(Le64(epoch), DST, thresholdPk, sig)
      ensures res.Err? ==> res.error == (if isThreshold then InvalidThresholdSignature(epoch) else InvalidFallbackReveal)
      ensures res.Err? ==> Mixes() == old(Mixes()) && thresholdSigs == old(thresholdSigs)
      ensures res.Ok? && isThreshold ==>
                thresholdSigs == Store(old(thresholdSigs), epoch, sig) && Mixes() == old(Mixes())
      ensures res.Ok? && !isThreshold ==>
                Mixes() == Ingest(old(Mixes()), epoch, hash(sig.bytes)) && thresholdSigs == old(thresholdSigs)
    {
      var idx := epoch % N;
      if isThreshold {
        var msg := Le64(epoch);
        if !verify(msg, DST, thresholdPk, sig) {
          return Err(InvalidThresholdSignature(epoch));
        }
        thresholdSigs := thresholdSigs[idx := Some(sig)];
      } else {
        var msg := Le64(epoch);
        if !verify(msg, DST, thresholdPk, sig) {
          return Err(InvalidFallbackReveal);
        }
        var h := hash(sig.bytes);
        FoldIntoSlot(randaoMixes, epoch, h);
      }
      return Ok;
    }

    /** `get_seed`: the mix epoch as in the RANDAO-only beacon; the stored
        group signature, hashed once more, is preferred over the mix. Reads
        the state and changes nothing. */
    method GetSeed(hash: Hasher, target: U64, domain: DomainTag) returns (seed: Digest)
      requires Valid()
      ensures seed == ThresholdSeed(hash, Mixes(), thresholdSigs, target, domain)
    {
      var mixEpoch := MixEpoch(target);
      var raw: Digest;
      match thresholdSigs[mixEpoch] {
        case Some(sigma) =>
          raw := Sha2Chain(hash, sigma.bytes, 1);
        case None =>
          raw := randaoMixes[mixEpoch];
      }
      seed := hash(domain + Le64(target) + raw);
    }
  }
}
