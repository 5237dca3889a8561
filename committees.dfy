/** Duty assignment from shuffled validator indices (existing/src/main.rs):
    the sync committee is a prefix of one shuffle, and the attester shuffle
    is cut into `committees_per_slot * slots_per_epoch` contiguous committees
    of equal size. */
module Committees {
  import opened Types
  import opened Randao

  /** Number of validators in the sync committee. */
  const SYNC_COMMITTEE_SIZE: nat := 512

  /** Slots per epoch, the second factor of the committee count. */
  const SLOTS_PER_EPOCH: nat := 32

  /** `committees_per_slot` as main.rs sets it. */
  const COMMITTEES_PER_SLOT: nat := 64

  /** One attestation committee as the partition loop produces it: the slot,
      the committee index within the slot and the validators in it. */
  datatype Committee = Committee(slot: nat, index: nat, members: seq<nat>)

  /** The sync committee: the first 512 indices of the shuffle of all
      validators; slicing `[..512]` requires that many validators. */
  method SyncCommittee(validatorCount: nat, randaoSeed: Digest) returns (committee: seq<nat>)
    requires validatorCount >= SYNC_COMMITTEE_SIZE
    ensures committee == Shuffle(validatorCount, randaoSeed)[..SYNC_COMMITTEE_SIZE]
    ensures |committee| == SYNC_COMMITTEE_SIZE
    ensures forall i :: 0 <= i < |committee| ==> committee[i] < validatorCount
    ensures forall i, j :: 0 <= i < j < |committee| ==> committee[i] != committee[j]
  {
    var shuffled := ShuffleIndices(validatorCount, randaoSeed);
    committee := shuffled[..SYNC_COMMITTEE_SIZE];
    ShuffleIsPermutation(validatorCount, randaoSeed);
  }

  // ---------------------------------------------------------------------
  // Partition arithmetic

  /** `committee_size = validator_count / (committees_per_slot * slots_per_epoch)`. */
  function CommitteeSize(validatorCount: nat, committeesPerSlot: nat, slotsPerEpoch: nat): (size: nat)
    requires committeesPerSlot > 0 && slotsPerEpoch > 0
    ensures (committeesPerSlot * slotsPerEpoch) * size <= validatorCount < (committeesPerSlot * slotsPerEpoch) * (size + 1)
  {
    var total := committeesPerSlot * slotsPerEpoch;
    var size := validatorCount / total;
    assert validatorCount == total * size + validatorCount % total;
    size
  }

  lemma MulMono(a: nat, b: nat, c: nat)
    requires a <= b
    ensures a * c <= b * c
  {
  }

  /** All committees together never need more validators than there are. */
  lemma PartitionFits(validatorCount: nat, committeesPerSlot: nat, slotsPerEpoch: nat)
    requires committeesPerSlot > 0 && slotsPerEpoch > 0
    ensures committeesPerSlot * slotsPerEpoch * CommitteeSize(validatorCount, committeesPerSlot, slotsPerEpoch) <= validatorCount
  {
    var total := committeesPerSlot * slotsPerEpoch;
    var size := validatorCount / total;
    assert validatorCount == total * size + validatorCount % total;
  }

  /** Committee `k`'s slice `[k * size, k * size + size)` lies inside the
      shuffled list. */
  lemma SliceInBounds(validatorCount: nat, committeesPerSlot: nat, slotsPerEpoch: nat, k: nat)
    requires committeesPerSlot > 0 && slotsPerEpoch > 0
    requires k < committeesPerSlot * slotsPerEpoch
    ensures k * CommitteeSize(validatorCount, committeesPerSlot, slotsPerEpoch)
            + CommitteeSize(validatorCount, committeesPerSlot, slotsPerEpoch) <= validatorCount
  {
    var size := CommitteeSize(validatorCount, committeesPerSlot, slotsPerEpoch);
    PartitionFits(validatorCount, committeesPerSlot, slotsPerEpoch);
    MulMono(k + 1, committeesPerSlot * slotsPerEpoch, size);
  }

  /** `m` occurs in `s` as the slice starting at `start`. */
  ghost predicate SliceAt(s: seq<nat>, start: nat, m: seq<nat>)
  {
    start + |m| <= |s| && s[start .. start + |m|] == m
  }

  /** Committee `k` of the partition of `shuffled`. */
  function CommitteeAt(shuffled: seq<nat>, committeesPerSlot: nat, slotsPerEpoch: nat, k: nat): (c: Committee)
    requires committeesPerSlot > 0 && slotsPerEpoch > 0
    requires k < committeesPerSlot * slotsPerEpoch
    ensures |c.members| == CommitteeSize(|shuffled|, committeesPerSlot, slotsPerEpoch)
    ensures SliceAt(shuffled, k * CommitteeSize(|shuffled|, committeesPerSlot, slotsPerEpoch), c.members)
  {
    var size := CommitteeSize(|shuffled|, committeesPerSlot, slotsPerEpoch);
    SliceInBounds(|shuffled|, committeesPerSlot, slotsPerEpoch, k);
    var start := k * size;
    Committee(k / committeesPerSlot, k % committeesPerSlot, shuffled[start .. start + size])
  }

  /** The attestation partition loop: for each `i` in `0..total` the
      committee `(i / committees_per_slot, i % committees_per_slot)` gets the
      slice `[i * size, i * size + size)`; the loop's output, collected in order.
      The committee size is computed from `|attesterIndices|`, which equals
      `validator_count` because the attester list is the shuffle of
      `validator_count` indices (see `Shuffle`'s length). */
  method PartitionCommittees(attesterIndices: seq<nat>, committeesPerSlot: nat, slotsPerEpoch: nat)
    returns (committees: seq<Committee>)
    requires committeesPerSlot > 0 && slotsPerEpoch > 0
    ensures |committees| == committeesPerSlot * slotsPerEpoch
    ensures forall k :: 0 <= k < |committees| ==>
              committees[k] == CommitteeAt(attesterIndices, committeesPerSlot, slotsPerEpoch, k)
  {
    var validatorCount := |attesterIndices|;
    var committeeSize := CommitteeSize(validatorCount, committeesPerSlot, slotsPerEpoch);
    var totalCommittees := committeesPerSlot * slotsPerEpoch;
    committees := [];
    for i := 0 to totalCommittees
      invariant |committees| == i
      invariant forall k :: 0 <= k < i ==>
                  committees[k] == CommitteeAt(attesterIndices, committeesPerSlot, slotsPerEpoch, k)
    {
      var slot := i / committeesPerSlot;
      var committee := i % committeesPerSlot;
      var start := i * committeeSize;
      var end := start + committeeSize;
      SliceInBounds(validatorCount, committeesPerSlot, slotsPerEpoch, i);
      committees := committees + [Committee(slot, committee, attesterIndices[start..end])];
    }
  }

  // ---------------------------------------------------------------------
  // Properties of the partition

  /** Every committee has `committee_size` members, a slot below
      `slots_per_epoch`, an index below `committees_per_slot`, and its
      position is `slot * committees_per_slot + index`. */
  lemma CommitteeShape(shuffled: seq<nat>, committeesPerSlot: nat, slotsPerEpoch: nat, k: nat)
    requires committeesPerSlot > 0 && slotsPerEpoch > 0
    requires k < committeesPerSlot * slotsPerEpoch
    ensures var c := CommitteeAt(shuffled, committeesPerSlot, slotsPerEpoch, k);
            && |c.members| == CommitteeSize(|shuffled|, committeesPerSlot, slotsPerEpoch)
            && c.slot < slotsPerEpoch && c.index < committeesPerSlot
            && k == c.slot * committeesPerSlot + c.index
  {
    SliceInBounds(|shuffled|, committeesPerSlot, slotsPerEpoch, k);
    var q := k / committeesPerSlot;
    DivLowerBound(k, committeesPerSlot);
    if q >= slotsPerEpoch {
      MulMono(slotsPerEpoch, q, committeesPerSlot);
      assert false;
    }
  }

  /** `(k / m) * m <= k`, with `k == (k / m) * m + k % m`. */
  lemma DivLowerBound(k: nat, m: nat)
    requires m > 0
    ensures (k / m) * m + k % m == k
    ensures (k / m) * m <= k
  {
  }

  /** Every (slot, index) pair names exactly one committee: the one at
      position `slot * committees_per_slot + index`. */
  lemma CommitteeOfSlotAndIndex(shuffled: seq<nat>, committeesPerSlot: nat, slotsPerEpoch: nat, slot: nat, index: nat)
    requires committeesPerSlot > 0 && slotsPerEpoch > 0
    requires slot < slotsPerEpoch && index < committeesPerSlot
    ensures slot * committeesPerSlot + index < committeesPerSlot * slotsPerEpoch
    ensures var c := CommitteeAt(shuffled, committeesPerSlot, slotsPerEpoch, slot * committeesPerSlot + index);
            c.slot == slot && c.index == index
  {
    var k := slot * committeesPerSlot + index;
    MulMono(slot + 1, slotsPerEpoch, committeesPerSlot);
    assert k < committeesPerSlot * slotsPerEpoch;
    DivModOfPosition(k, committeesPerSlot, slot, index);
  }

  /** Euclidean division is unique: `q * m + r` with `r < m` divides back
      to `q` with remainder `r`. */
  lemma DivModOfPosition(k: nat, m: nat, q: nat, r: nat)
    requires m > 0 && r < m && k == q * m + r
    ensures k / m == q && k % m == r
  {
    var q', r' := k / m, k % m;
    DivLowerBound(k, m);
    if q > q' {
      MulMono(q' + 1, q, m);
      assert false;
    } else if q < q' {
      MulMono(q + 1, q', m);
      assert false;
    }
  }

  /** Member `i` of committee `k` is the validator at shuffled position
      `pos == k * size + i`. */
  lemma MemberAt(shuffled: seq<nat>, committeesPerSlot: nat, slotsPerEpoch: nat, k: nat, i: nat) returns (pos: nat)
    requires committeesPerSlot > 0 && slotsPerEpoch > 0
    requires k < committeesPerSlot * slotsPerEpoch
    requires i < CommitteeSize(|shuffled|, committeesPerSlot, slotsPerEpoch)
    ensures pos == k * CommitteeSize(|shuffled|, committeesPerSlot, slotsPerEpoch) + i
    ensures pos < |shuffled|
    ensures CommitteeAt(shuffled, committeesPerSlot, slotsPerEpoch, k).members[i] == shuffled[pos]
  {
    SliceInBounds(|shuffled|, committeesPerSlot, slotsPerEpoch, k);
    pos := k * CommitteeSize(|shuffled|, committeesPerSlot, slotsPerEpoch) + i;
  }

  /** Committees are contiguous, in order: committee `k + 1` begins where
      committee `k` ends, so together they are the slice at `k * size`. */
  lemma CommitteesContiguous(shuffled: seq<nat>, committeesPerSlot: nat, slotsPerEpoch: nat, k: nat)
    requires committeesPerSlot > 0 && slotsPerEpoch > 0
    requires k + 1 < committeesPerSlot * slotsPerEpoch
    ensures var size := CommitteeSize(|shuffled|, committeesPerSlot, slotsPerEpoch);
            && SliceAt(shuffled, k * size + size, CommitteeAt(shuffled, committeesPerSlot, slotsPerEpoch, k + 1).members)
            && SliceAt(shuffled, k * size, CommitteeAt(shuffled, committeesPerSlot, slotsPerEpoch, k).members
                                           + CommitteeAt(shuffled, committeesPerSlot, slotsPerEpoch, k + 1).members)
  {
    var size := CommitteeSize(|shuffled|, committeesPerSlot, slotsPerEpoch);
    SliceInBounds(|shuffled|, committeesPerSlot, slotsPerEpoch, k);
    SliceInBounds(|shuffled|, committeesPerSlot, slotsPerEpoch, k + 1);
    var start := k * size;
    assert (k + 1) * size == start + size;
    assert shuffled[start .. start + size + size]
        == shuffled[start .. start + size] + shuffled[start + size .. start + size + size];
  }

  /** The validators shuffled to positions at or past `total * size` (the
      remainder of the division) sit in no committee. */
  lemma RemainderUncovered(shuffled: seq<nat>, committeesPerSlot: nat, slotsPerEpoch: nat, p: nat)
    requires committeesPerSlot > 0 && slotsPerEpoch > 0
    requires IsPermutation(shuffled, |shuffled|)
    requires committeesPerSlot * slotsPerEpoch * CommitteeSize(|shuffled|, committeesPerSlot, slotsPerEpoch) <= p < |shuffled|
    ensures forall k :: 0 <= k < committeesPerSlot * slotsPerEpoch ==>
              shuffled[p] !in CommitteeAt(shuffled, committeesPerSlot, slotsPerEpoch, k).members
  {
    var size := CommitteeSize(|shuffled|, committeesPerSlot, slotsPerEpoch);
    forall k | 0 <= k < committeesPerSlot * slotsPerEpoch
      ensures shuffled[p] !in CommitteeAt(shuffled, committeesPerSlot, slotsPerEpoch, k).members
    {
      var m := CommitteeAt(shuffled, committeesPerSlot, slotsPerEpoch, k).members;
      MulMono(k + 1, committeesPerSlot * slotsPerEpoch, size);
      assert k * size + size <= p;
      forall j | 0 <= j < |m|
        ensures m[j] != shuffled[p]
      {
        var pos := MemberAt(shuffled, committeesPerSlot, slotsPerEpoch, k, j);
      }
    }
  }

  /** Every position below `total * size` lies in the committee
      `position / size`, which therefore holds that validator; with a
      permutation as input, `CommitteesDisjoint` makes that committee the
      only one holding it. */
  lemma PositionCovered(shuffled: seq<nat>, committeesPerSlot: nat, slotsPerEpoch: nat, p: nat)
    requires committeesPerSlot > 0 && slotsPerEpoch > 0
    requires p < committeesPerSlot * slotsPerEpoch * CommitteeSize(|shuffled|, committeesPerSlot, slotsPerEpoch)
    ensures CommitteeSize(|shuffled|, committeesPerSlot, slotsPerEpoch) > 0
    ensures var k := p / CommitteeSize(|shuffled|, committeesPerSlot, slotsPerEpoch);
            && k < committeesPerSlot * slotsPerEpoch
            && p < |shuffled|
            && shuffled[p] in CommitteeAt(shuffled, committeesPerSlot, slotsPerEpoch, k).members
  {
    var size := CommitteeSize(|shuffled|, committeesPerSlot, slotsPerEpoch);
    var total := committeesPerSlot * slotsPerEpoch;
    PartitionFits(|shuffled|, committeesPerSlot, slotsPerEpoch);
    assert size > 0;
    var k := p / size;
    DivLowerBound(p, size);
    if k >= total {
      MulMono(total, k, size);
      assert false;
    }
    var pos := MemberAt(shuffled, committeesPerSlot, slotsPerEpoch, k, p % size);
  }

  /** Unfolding step of the permutation predicate: different positions hold
      different validators. */
  lemma DistinctPositions(shuffled: seq<nat>, p1: nat, p2: nat)
    requires IsPermutation(shuffled, |shuffled|)
    requires p1 < p2 < |shuffled|
    ensures shuffled[p1] != shuffled[p2]
  {
  }

  /** With a permutation as input, two different committees share no
      validator. */
  lemma CommitteesDisjoint(shuffled: seq<nat>, committeesPerSlot: nat, slotsPerEpoch: nat, k1: nat, k2: nat)
    requires committeesPerSlot > 0 && slotsPerEpoch > 0
    requires IsPermutation(shuffled, |shuffled|)
    requires k1 < k2 < committeesPerSlot * slotsPerEpoch
    ensures var m1 := CommitteeAt(shuffled, committeesPerSlot, slotsPerEpoch, k1).members;
            var m2 := CommitteeAt(shuffled, committeesPerSlot, slotsPerEpoch, k2).members;
            forall i, j :: 0 <= i < |m1| && 0 <= j < |m2| ==> m1[i] != m2[j]
  {
    var size := CommitteeSize(|shuffled|, committeesPerSlot, slotsPerEpoch);
    var m1 := CommitteeAt(shuffled, committeesPerSlot, slotsPerEpoch, k1).members;
    var m2 := CommitteeAt(shuffled, committeesPerSlot, slotsPerEpoch, k2).members;
    MulMono(k1 + 1, k2, size);
    assert k1 * size + size <= k2 * size;
    forall i, j | 0 <= i < |m1| && 0 <= j < |m2|
      ensures m1[i] != m2[j]
    {
      var p1 := MemberAt(shuffled, committeesPerSlot, slotsPerEpoch, k1, i);
      var p2 := MemberAt(shuffled, committeesPerSlot, slotsPerEpoch, k2, j);
      DistinctPositions(shuffled, p1, p2);
    }
  }

  /** With a permutation as input, no committee names a validator twice. */
  lemma CommitteeHasNoRepeats(shuffled: seq<nat>, committeesPerSlot: nat, slotsPerEpoch: nat, k: nat)
    requires committeesPerSlot > 0 && slotsPerEpoch > 0
    requires IsPermutation(shuffled, |shuffled|)
    requires k < committeesPerSlot * slotsPerEpoch
    ensures var m := CommitteeAt(shuffled, committeesPerSlot, slotsPerEpoch, k).members;
            forall i, j :: 0 <= i < j < |m| ==> m[i] != m[j]
  {
    var size := CommitteeSize(|shuffled|, committeesPerSlot, slotsPerEpoch);
    var m := CommitteeAt(shuffled, committeesPerSlot, slotsPerEpoch, k).members;
    forall i, j | 0 <= i < j < |m|
      ensures m[i] != m[j]
    {
      var p1 := MemberAt(shuffled, committeesPerSlot, slotsPerEpoch, k, i);
      var p2 := MemberAt(shuffled, committeesPerSlot, slotsPerEpoch, k, j);
      DistinctPositions(shuffled, p1, p2);
    }
  }

  /** The main.rs parameters: 16384 validators, 64 committees per slot and
      32 slots give committees of 8 and leave no validator out. */
  lemma MainnetPartitionIsExact()
    ensures CommitteeSize(16384, COMMITTEES_PER_SLOT, SLOTS_PER_EPOCH) == 8
    ensures COMMITTEES_PER_SLOT * SLOTS_PER_EPOCH * 8 == 16384
  {
  }
}
