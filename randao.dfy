/** The RANDAO beacon of existing/src/randao.rs: a ring of 2^16 mixes that
    accumulates verified reveals by XOR, the domain-separated seed read from
    it two epochs back, and the seed-driven Fisher-Yates shuffle. */
module Randao {
  import opened Types
  import opened Bytes
  import opened Constants

  /** One ring slot: the XOR of the hashes of every reveal of one epoch. */
  type Mix = Digest

  const N: nat := EPOCHS_PER_HISTORICAL_VECTOR

  /** The only error `process_randao` reports: the reveal did not verify. */
  datatype RandaoError = InvalidRandaoReveal

  // ---------------------------------------------------------------------
  // The ring as a value

  /** The ring slot an epoch lands in, `(epoch as usize) % N`. */
  function SlotOf(epoch: U64): (slot: nat)
    ensures slot < N
  {
    epoch % N
  }

  /** The ring after the hash `h` of an accepted reveal for `epoch` has been
      folded into it. */
  function Ingest(mixes: seq<Mix>, epoch: U64, h: Digest): (r: seq<Mix>)
    requires |mixes| == N
    ensures |r| == N
  {
    mixes[SlotOf(epoch) := Xor(mixes[SlotOf(epoch)], h)]
  }

  /** Folding two reveals in gives the same ring in either order, whether
      they belong to the same epoch or not. */
  lemma IngestCommutes(mixes: seq<Mix>, e1: U64, a: Digest, e2: U64, b: Digest)
    requires |mixes| == N
    ensures Ingest(Ingest(mixes, e1, a), e2, b) == Ingest(Ingest(mixes, e2, b), e1, a)
  {
    if SlotOf(e1) == SlotOf(e2) {
      var m := mixes[SlotOf(e1)];
      XorAssociates(m, a, b);
      XorAssociates(m, b, a);
      XorCommutes(a, b);
    }
  }

  /** Folding the same reveal in twice restores the ring. */
  lemma IngestTwiceRestores(mixes: seq<Mix>, e: U64, h: Digest)
    requires |mixes| == N
    ensures Ingest(Ingest(mixes, e, h), e, h) == mixes
  {
    XorCancels(mixes[SlotOf(e)], h);
  }

  // ---------------------------------------------------------------------
  // Seed derivation

  /** The ring slot a seed for `target` is read from:
      `target.checked_sub(MIN_SEED_LOOKAHEAD + 1).unwrap_or(0) % N`. */
  function MixEpoch(target: U64): (slot: nat)
    ensures slot < N
  {
    (if target >= MIN_SEED_LOOKAHEAD + 1 then target - (MIN_SEED_LOOKAHEAD + 1) else 0) % N
  }

  /** From epoch 2 on, a seed reads the slot that the reveals of the epoch
      two earlier were folded into. */
  lemma MixEpochLooksBackTwo(target: U64)
    requires target >= 2
    ensures MixEpoch(target) == SlotOf(target - 2)
  {
  }

  /** Targets 0, 1 and 2 all read slot 0. */
  lemma EarlyTargetsReadSlotZero(target: U64)
    requires target <= 2
    ensures MixEpoch(target) == 0
  {
  }

  /** The hash input `domain ‖ le64(target) ‖ raw`; its first four bytes are
      the domain and the next eight decode to the target epoch. */
  function SeedPreimage(domain: DomainTag, target: U64, raw: Digest): (p: seq<Byte>)
    ensures |p| == 44
    ensures p[..4] == domain && p[12..] == raw
    ensures FromLe(p[4..12]) == target
  {
    var p := domain + Le64(target) + raw;
    assert p[4..12] == Le64(target);
    Le64RoundTrip(target);
    p
  }

  /** Equal pre-images come only from equal domain, target and raw entropy,
      so no two (domain, target, raw) triples share a hash input. */
  lemma SeedPreimageInjective(d1: DomainTag, t1: U64, r1: Digest, d2: DomainTag, t2: U64, r2: Digest)
    requires SeedPreimage(d1, t1, r1) == SeedPreimage(d2, t2, r2)
    ensures d1 == d2 && t1 == t2 && r1 == r2
  {
    var p := SeedPreimage(d1, t1, r1);
    assert FromLe(p[4..12]) == t1 && FromLe(p[4..12]) == t2;
  }

  /** Domain separation: pre-images for different domains already differ in
      their first four bytes, whatever the target and entropy. */
  lemma DomainSeparation(d1: DomainTag, d2: DomainTag, t1: U64, t2: U64, r1: Digest, r2: Digest)
    requires d1 != d2
    ensures SeedPreimage(d1, t1, r1)[..4] != SeedPreimage(d2, t2, r2)[..4]
    ensures SeedPreimage(d1, t1, r1) != SeedPreimage(d2, t2, r2)
  {
  }

  /** The seed for duty `domain` in epoch `target`, read from a ring: the
      hash of the domain, the little-endian target and the mix two epochs
      back, fed to the hasher in that order. */
  function Seed(hash: Hasher, mixes: seq<Mix>, target: U64, domain: DomainTag): (r: Digest)
    requires |mixes| == N
    ensures r == hash(domain + Le64(target) + mixes[MixEpoch(target)])
  {
    hash(SeedPreimage(domain, target, mixes[MixEpoch(target)]))
  }

  /** A seed depends on no slot but `MixEpoch(target)`. */
  lemma SeedReadsOnlyMixEpoch(hash: Hasher, m1: seq<Mix>, m2: seq<Mix>, target: U64, domain: DomainTag)
    requires |m1| == N && |m2| == N
    requires m1[MixEpoch(target)] == m2[MixEpoch(target)]
    ensures Seed(hash, m1, target, domain) == Seed(hash, m2, target, domain)
  {
  }

  /** A reveal folded into any other slot than the one a seed reads leaves
      that seed as it was. */
  lemma IngestKeepsOtherSeeds(hash: Hasher, mixes: seq<Mix>, e: U64, h: Digest, target: U64, domain: DomainTag)
    requires |mixes| == N
    requires SlotOf(e) != MixEpoch(target)
    ensures Seed(hash, Ingest(mixes, e, h), target, domain) == Seed(hash, mixes, target, domain)
  {
  }

  /** The XOR loop of `process_randao`: `ring[epoch % N][i] ^= h[i]` for
      every byte `i`, in place. */
  method FoldIntoSlot(ring: array<Mix>, epoch: U64, h: Digest)
    requires ring.Length == N
    modifies ring
    ensures ring[..] == Ingest(old(ring[..]), epoch, h)
  {
    var idx := epoch % N;
    ghost var before := ring[idx];
    for i := 0 to 32
      invariant forall j :: 0 <= j < N && j != idx ==> ring[j] == old(ring[j])
      invariant forall b :: 0 <= b < i ==> ring[idx][b] == XorByte(before[b], h[b])
      invariant forall b :: i <= b < 32 ==> ring[idx][b] == before[b]
    {
      ring[idx] := ring[idx][i := XorByte(ring[idx][i], h[i])];
    }
    ghost var after := Xor(before, h);
    forall b | 0 <= b < 32
      ensures ring[idx][b] == after[b]
    {
      XorAt(before, h, b);
    }
    assert ring[idx] == after;
    assert ring[..] == old(ring[..])[idx := after];
  }

  // ---------------------------------------------------------------------
  // The beacon state

  class BeaconState {
    /** `randao_mixes`: a fixed array of `N` mixes, updated in place. */
    const randaoMixes: array<Mix>

    ghost predicate Valid()
    {
      randaoMixes.Length == N
    }

    ghost function Mixes(): (m: seq<Mix>)
      reads randaoMixes
      requires Valid()
      ensures |m| == N
    {
      randaoMixes[..]
    }

    /** `BeaconState::new`: every one of the `N` mixes is 32 zero bytes. */
    constructor ()
      ensures Valid() && fresh(randaoMixes)
      ensures forall j :: 0 <= j < N ==> Mixes()[j] == ZERO_DIGEST
    {
      randaoMixes := new Mix[N](_ => ZERO_DIGEST);
    }

    /** `process_randao`: verify `randaoReveal` over `le64(epoch)` against `pk`;
        on success XOR `hash(randaoReveal.bytes)` into the epoch's slot, byte by byte. */
    method ProcessRandao(hash: Hasher, verify: Verifier, randaoReveal: Signature, pk: PublicKey, epoch: U64)
      returns (res: Outcome<RandaoError>)
      requires Valid()
      modifies randaoMixes
      ensures Valid()
      ensures res.Ok? <==> verify(Le64(epoch), DST, pk, randaoReveal)
      ensures res.Err? ==> res.error == InvalidRandaoReveal && Mixes() == old(Mixes())
      ensures res.Ok? ==> Mixes() == Ingest(old(Mixes()), epoch, hash(randaoReveal.bytes))
      ensures res.Ok? ==> Mixes()[SlotOf(epoch)] == Xor(old(Mixes())[SlotOf(epoch)], hash(randaoReveal.bytes))
      ensures forall j :: 0 <= j < N && j != SlotOf(epoch) ==> Mixes()[j] == old(Mixes())[j]
    {
      var epochBytes := Le64(epoch);
      if !verify(epochBytes, DST, pk, randaoReveal) {
        return Err(InvalidRandaoReveal);
      }
      var h := hash(randaoReveal.bytes);
      FoldIntoSlot(randaoMixes, epoch, h);
      return Ok;
    }

    /** `get_seed`: `hash(domain ‖ le64(target) ‖ mix)` for the mix of epoch
        `max(0, target - 2)`; reads the state and changes nothing. */
    method GetSeed(hash: Hasher, target: U64, domain: DomainTag) returns (seed: Digest)
      requires Valid()
      ensures seed == Seed(hash, Mixes(), target, domain)
    {
      var mixEpoch := MixEpoch(target);
      var mix := randaoMixes[mixEpoch];
      seed := hash(domain + Le64(target) + mix);
    }
  }

  // ---------------------------------------------------------------------
  // Shuffle and proposer selection

  /** `(0..n).collect()`. */
  function Identity(n: nat): (s: seq<nat>)
    ensures |s| == n
  {
    seq(n, i => i)
  }

  /** The starting vector of the shuffle is the permutation that moves
      nothing. */
  lemma IdentityIsPermutation(n: nat)
    ensures IsPermutation(Identity(n), n)
  {
    var ids := Identity(n);
    forall v | 0 <= v < n
      ensures v in ids
    {
      assert ids[v] == v;
    }
  }

  /** `Vec::swap`. */
  function Swap(s: seq<nat>, i: nat, j: nat): (r: seq<nat>)
    requires i < |s| && j < |s|
    ensures |r| == |s|
  {
    s[i := s[j]][j := s[i]]
  }

  /** `Vec::swap` in place. */
  method SwapInPlace(a: array<nat>, i: nat, j: nat)
    requires i < a.Length && j < a.Length
    modifies a
    ensures a[..] == Swap(old(a[..]), i, j)
  {
    var t := a[i];
    a[i] := a[j];
    a[j] := t;
  }

  /** `s` holds every index of `[0, n)` exactly once. */
  ghost predicate IsPermutation(s: seq<nat>, n: nat)
  {
    && |s| == n
    && (forall p :: 0 <= p < n ==> s[p] < n)
    && (forall p, q :: 0 <= p < q < n ==> s[p] != s[q])
    && (forall v :: 0 <= v < n ==> v in s)
  }

  /** The swap target of the step at index `i`, after `k` earlier steps:
      the first 8 bytes of the seed rotated left by `k mod 32`, read as a
      little-endian `u64`, modulo `i + 1`. */
  function SwapTarget(seed: Digest, i: nat, k: nat): (r: nat)
    ensures r <= i
  {
    FromLe(RotateLeft(seed, k % 32)[..8]) % (i + 1)
  }

  /** The index vector after the first `k` steps of the shuffle, which swap
      at indices `n - 1` down to `n - k`. */
  function ShuffleAfter(n: nat, seed: Digest, k: nat): (s: seq<nat>)
    requires k < n
    ensures |s| == n
  {
    if k == 0 then Identity(n)
    else Swap(ShuffleAfter(n, seed, k - 1), n - k, SwapTarget(seed, n - k, k - 1))
  }

  /** The full shuffle: `n - 1` steps, the last at index 1. */
  function Shuffle(n: nat, seed: Digest): (s: seq<nat>)
    ensures |s| == n
  {
    if n == 0 then [] else ShuffleAfter(n, seed, n - 1)
  }

  lemma SwapKeepsPermutation(s: seq<nat>, n: nat, i: nat, j: nat)
    requires IsPermutation(s, n) && i < n && j < n
    ensures IsPermutation(Swap(s, i, j), n)
  {
    var t := Swap(s, i, j);
    forall v | 0 <= v < n
      ensures v in t
    {
      assert v in s;
      var p :| 0 <= p < n && s[p] == v;
      if p == i {
        assert t[j] == v;
      } else if p == j {
        assert t[i] == v;
      } else {
        assert t[p] == v;
      }
    }
  }

  lemma {:induction false} ShuffleAfterIsPermutation(n: nat, seed: Digest, k: nat)
    requires k < n
    ensures IsPermutation(ShuffleAfter(n, seed, k), n)
  {
    if k == 0 {
      IdentityIsPermutation(n);
    } else {
      ShuffleAfterIsPermutation(n, seed, k - 1);
      SwapKeepsPermutation(ShuffleAfter(n, seed, k - 1), n, n - k, SwapTarget(seed, n - k, k - 1));
    }
  }

  /** Every shuffle is a bijection on `[0, n)`. */
  lemma ShuffleIsPermutation(n: nat, seed: Digest)
    ensures IsPermutation(Shuffle(n, seed), n)
  {
    if n > 0 {
      ShuffleAfterIsPermutation(n, seed, n - 1);
    }
  }

  /** With at most one index there is nothing to swap. */
  lemma ShuffleOfAtMostOne(n: nat, seed: Digest)
    requires n <= 1
    ensures Shuffle(n, seed) == Identity(n)
  {
  }

  /** After `k + 1` steps the running buffer is the seed rotated left by
      `(k + 1) mod 32`. */
  lemma BufferStep(seed: Digest, k: nat)
    ensures RotateLeft(RotateLeft(seed, k % 32), 1) == RotateLeft(seed, (k + 1) % 32)
  {
    RotateLeftStep(seed, k % 32);
    assert (k % 32 + 1) % 32 == (k + 1) % 32;
  }

  /** Unfolding step: the step of the shuffle at index `i` applied to the
      vector of the steps before it, with the step count written as the loop
      counts it. */
  lemma ShuffleStep(n: nat, seed: Digest, i: nat, steps: nat)
    requires 1 <= i < n && steps == n - 1 - i
    ensures ShuffleAfter(n, seed, steps + 1) == Swap(ShuffleAfter(n, seed, steps), i, SwapTarget(seed, i, steps))
  {
    var k := steps + 1;
    assert k - 1 == steps && n - k == i;
    assert ShuffleAfter(n, seed, k) == Swap(ShuffleAfter(n, seed, k - 1), n - k, SwapTarget(seed, n - k, k - 1));
  }

  /** One iteration of the shuffle loop at index `i`, after `steps` earlier
      iterations, on values: swapping `i` with the target `r` read from the
      running buffer turns the vector of the earlier steps into the vector of
      one step more, and rotating the buffer once more keeps it in step. */
  lemma ShuffleLoopStep(n: nat, seed: Digest, i: nat, steps: nat, before: seq<nat>, rnd: Digest, r: nat)
    requires 1 <= i < n && steps == n - 1 - i
    requires before == ShuffleAfter(n, seed, steps)
    requires rnd == RotateLeft(seed, steps % 32)
    requires r == FromLe(rnd[..8]) % (i + 1)
    ensures r <= i
    ensures Swap(before, i, r) == ShuffleAfter(n, seed, steps + 1)
    ensures RotateLeft(rnd, 1) == RotateLeft(seed, (steps + 1) % 32)
  {
    assert r == SwapTarget(seed, i, steps);
    ShuffleStep(n, seed, i, steps);
    BufferStep(seed, steps);
  }

  /** `shuffle_indices`: Fisher-Yates over `0..n`, `i` running down from
      `n - 1` to 1, with the running buffer rotated one byte per step. */
  method ShuffleIndices(n: nat, seed: Digest) returns (idx: seq<nat>)
    ensures idx == Shuffle(n, seed)
  {
    var a := new nat[n](j => j);
    assert a[..] == Identity(n);
    var rnd := seed;
    if n > 0 {
      ghost var steps := 0;
      for i := n downto 1
        invariant steps == n - i
        invariant a[..] == ShuffleAfter(n, seed, steps)
        invariant rnd == RotateLeft(seed, steps % 32)
      {
        var r := FromLe(rnd[..8]) % (i + 1);
        ShuffleLoopStep(n, seed, i, steps, a[..], rnd, r);
        SwapInPlace(a, i, r);
        rnd := RotateLeft(rnd, 1);
        steps := steps + 1;
      }
    }
    idx := a[..];
  }

  /** `select_proposer`: the first index of the shuffle; the source indexes
      element 0, so at least one validator is required. */
  method SelectProposer(validatorCount: nat, seed: Digest) returns (proposer: nat)
    requires validatorCount >= 1
    ensures proposer == Shuffle(validatorCount, seed)[0]
    ensures proposer < validatorCount
  {
    var shuffled := ShuffleIndices(validatorCount, seed);
    proposer := shuffled[0];
    ShuffleIsPermutation(validatorCount, seed);
  }
}
