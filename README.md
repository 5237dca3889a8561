# RANDAO randomness beacon — Dafny model

This project models the core of a RANDAO-style randomness beacon for a
proof-of-stake chain. It has two variants.

The existing beacon (`existing/src/randao.rs`) keeps a ring of 2^16 32-byte
mixes in its `BeaconState`:

- Each block reveal is a BLS signature over the little-endian epoch number.
- A verified reveal is hashed and XOR-ed into the slot `epoch % 2^16`.
- A seed for duty domain `d` in epoch `t` is
  `Hash(d ‖ le64(t) ‖ mix[(t − 2, clamped to 0) % 2^16])`.
- Seeds drive a Fisher–Yates shuffle of validator indices. The block
  proposer is element 0 of the shuffle.

The proposed variant (`proposed/src/threshold.rs`) adds a second ring. It
holds one optional group (threshold) signature per epoch:

- Every reveal is verified against the group key.
- A threshold reveal is stored in its slot; the latest one wins.
- Any other reveal is folded into the mix ring as before.
- A seed prefers a stored signature, hashed once more, over the mix.

Duty assignment is the arithmetic of `existing/src/main.rs`. The sync
committee is the first 512 shuffled indices. The attester shuffle is cut
into `committees_per_slot × 32` contiguous committees of equal size.

Modules, one per file:

- `Types`: bytes, 32-byte digests, `u64`, and the signature and key records.
  SHA-256 is a function-valued parameter `Hasher` that returns a 32-byte
  digest. BLS verification is a function-valued parameter `Verifier`. Both
  are passed in by the caller.
- `Bytes`: little-endian encoding, bytewise XOR (defined bit by bit) and
  left rotation, with their algebra. `Le64` is `u64::to_le_bytes` and
  `FromLe` is `u64::from_le_bytes`.
- `Constants`: `proposed/src/constants.rs`.
- `Randao`: `existing/src/randao.rs`.
  - The ring is a fixed-size `array<Mix>` inside the class `BeaconState`.
  - The per-byte XOR loop updates a slot in place.
  - `ShuffleIndices` swaps entries of an array in place while rotating the
    random buffer.
  - Each method is proved against a value-level function:
    `Ingest`, `Seed` or `Shuffle`.
- `Threshold`: `proposed/src/threshold.rs`, as the class
  `ThresholdBeaconState`. Its signature ring is a `seq<Option<Signature>>`
  that the methods reassign.
- `Committees`: lines 42 and 46–57 of `existing/src/main.rs`. The partition
  loop is a method that returns the committees it would print, in order.

## Model

| member | source | states |
|---|---|---|
| Bytes.Le64RoundTrip | existing/src/randao.rs:25 | decoding the 8-byte little-endian encoding of an epoch gives the epoch back |
| Bytes.Le64Injective | existing/src/randao.rs:25 | distinct epochs have distinct signed messages |
| Bytes.Le64 | existing/src/randao.rs:25 | `to_le_bytes` of a `u64`: 8 bytes, lowest first (decoded back by `Le64RoundTrip`) |
| Bytes.FromLe | existing/src/randao.rs:68 | `from_le_bytes`: the value of a little-endian byte string is below 256^length |
| Bytes.LeRoundTrip | existing/src/randao.rs:68 | little-endian decoding inverts little-endian encoding at any width that fits the value |
| Bytes.XorBitsCommutes | existing/src/randao.rs:38 | the bitwise XOR of two bytes does not depend on operand order |
| Bytes.XorBitsAssociates | existing/src/randao.rs:38 | bitwise XOR is associative |
| Bytes.XorBitsCancels | existing/src/randao.rs:38 | XOR-ing the same value twice restores the original |
| Bytes.XorBitsBound | existing/src/randao.rs:38 | XOR of two values below 2^k stays below 2^k, so a byte stays a byte |
| Bytes.XorByte | existing/src/randao.rs:38 | `u8 ^`: the lowest bit is the operands' lowest bits added modulo 2, the higher bits the XOR of the higher bits |
| Bytes.Xor | existing/src/randao.rs:37-39 | XOR of two equally long byte strings, byte by byte; keeps the length |
| Bytes.XorCommutes | existing/src/randao.rs:37-39 | the 32-byte XOR into a mix is commutative |
| Bytes.XorAssociates | existing/src/randao.rs:37-39 | the 32-byte XOR is associative |
| Bytes.XorCancels | existing/src/randao.rs:37-39 | XOR-ing the same digest in twice restores the mix |
| Bytes.RotateLeft | existing/src/randao.rs:71 | `rotate_left(mid)` on a byte buffer keeps its length |
| Bytes.RotateLeftStep | existing/src/randao.rs:71 | one more one-byte left rotation of a k-rotated buffer is the (k+1 mod length)-rotated buffer |
| Constants.HistoryLengthIsPowerOfTwo | proposed/src/constants.rs:2 | the ring length is 65536 = 2^16 and positive |
| Constants.LookbackIsTwoEpochs | proposed/src/constants.rs:4 | the seed lookback `MIN_SEED_LOOKAHEAD + 1` is 2 epochs |
| Constants.DomainTagsDistinct | proposed/src/constants.rs:6-9 | the three domain tags are the 4-byte little-endian encodings of 0, 1 and 2, and pairwise distinct |
| Constants.Ascii | proposed/src/constants.rs:10 | the byte string of an 8-bit literal has one byte per character |
| Constants.DstNonEmpty | proposed/src/constants.rs:10 | the verification tag is a fixed non-empty 43-byte string |
| Randao.SlotOf | existing/src/randao.rs:36 | the slot of an epoch is inside the ring |
| Randao.Ingest | existing/src/randao.rs:32-39 | folding a digest into a ring keeps its length of 2^16 mixes |
| Randao.IngestCommutes | existing/src/randao.rs:37-39 | folding reveal A then B gives the same ring as B then A, for any epochs |
| Randao.IngestTwiceRestores | existing/src/randao.rs:37-39 | folding the same reveal twice into the same epoch restores the ring |
| Randao.MixEpoch | existing/src/randao.rs:45 | the slot a seed reads is inside the ring |
| Randao.MixEpochLooksBackTwo | existing/src/randao.rs:45 | for targets of at least 2 the seed reads the slot of epoch target − 2 |
| Randao.EarlyTargetsReadSlotZero | existing/src/randao.rs:45 | targets 0, 1 and 2 all read slot 0, because the subtraction saturates at 0 |
| Randao.SeedPreimage | existing/src/randao.rs:48-51 | the hash input is 44 bytes: the domain, then 8 bytes decoding to the target epoch, then the raw mix |
| Randao.SeedPreimageInjective | existing/src/randao.rs:48-51 | equal hash inputs mean equal domain, target and mix |
| Randao.DomainSeparation | existing/src/randao.rs:48-51 | hash inputs for two different domains differ in their first 4 bytes, and so differ |
| Randao.Seed | existing/src/randao.rs:44-56 | the seed is the hash of domain, then le64(target), then the mix at `MixEpoch(target)`, in that order |
| Randao.SeedReadsOnlyMixEpoch | existing/src/randao.rs:44-56 | a seed depends only on the mix at its mix epoch |
| Randao.IngestKeepsOtherSeeds | existing/src/randao.rs:32-56 | folding a reveal into slot s leaves every seed that reads another slot unchanged |
| Randao.FoldIntoSlot | existing/src/randao.rs:36-39 | the in-place per-byte XOR loop leaves the ring equal to `Ingest` of the old ring |
| Randao.BeaconState.constructor | existing/src/randao.rs:11-13 | a new state has 65536 mixes, all 32 zero bytes |
| Randao.BeaconState.ProcessRandao | existing/src/randao.rs:19-41 | succeeds iff the reveal verifies over le64(epoch) with the tag; on failure returns the error and leaves the ring unchanged; on success slot `epoch % N` becomes old XOR Hash(reveal bytes), and every other slot is unchanged |
| Randao.BeaconState.GetSeed | existing/src/randao.rs:44-56 | returns `Seed` of the current ring and changes nothing |
| Randao.Identity | existing/src/randao.rs:62 | `(0..n).collect()`: n entries |
| Randao.IdentityIsPermutation | existing/src/randao.rs:62 | the starting vector holds each index of [0, n) exactly once |
| Randao.Swap | existing/src/randao.rs:69 | exchanging two entries keeps the length |
| Randao.SwapInPlace | existing/src/randao.rs:69 | the in-place swap leaves the array equal to `Swap` of its old contents |
| Randao.SwapTarget | existing/src/randao.rs:64-68 | the swap target at index i is at most i, so every swap is in bounds |
| Randao.BufferStep | existing/src/randao.rs:71 | after k+1 rotations the buffer is the seed rotated by (k+1) mod 32 |
| Randao.ShuffleStep | existing/src/randao.rs:64-72 | the step at index i, after the n−1−i steps above it, swaps i with its target in the vector those steps left |
| Randao.ShuffleLoopStep | existing/src/randao.rs:64-72 | one loop iteration: the target read from the running buffer is at most i, swapping i with it gives the vector after one more step, and rotating the buffer once more keeps it at the seed rotated by the new step count |
| Randao.ShuffleAfter | existing/src/randao.rs:61-74 | the vector after the first k swap steps at indices n−1 down to n−k keeps length n (a permutation by `ShuffleAfterIsPermutation`) |
| Randao.Shuffle | existing/src/randao.rs:61-74 | the result of all n−1 steps, or the empty vector for n = 0, has length n (a permutation by `ShuffleIsPermutation`) |
| Randao.ShuffleIndices | existing/src/randao.rs:61-74 | the in-place Fisher–Yates loop, with its rotating buffer, returns exactly `Shuffle(n, seed)` |
| Randao.SwapKeepsPermutation | existing/src/randao.rs:69 | swapping two in-range entries of a permutation gives a permutation |
| Randao.ShuffleAfterIsPermutation | existing/src/randao.rs:64-72 | every partial shuffle is a permutation of [0, n) |
| Randao.ShuffleIsPermutation | existing/src/randao.rs:61-74 | the shuffle has length n and holds each index of [0, n) exactly once |
| Randao.ShuffleOfAtMostOne | existing/src/randao.rs:64 | for n ≤ 1 the loop does not run and the result is the identity |
| Randao.SelectProposer | existing/src/randao.rs:77-82 | the proposer is element 0 of the shuffle and is below the validator count |
| Threshold.Sha2Chain | proposed/src/threshold.rs:103-113 | k ≥ 1 rounds give the hash applied k times to the input; 0 rounds give 32 zero bytes |
| Threshold.Iterate | proposed/src/threshold.rs:103-113 | zero rounds leave the input; one or more rounds give a 32-byte digest |
| Threshold.IterateFirstRound | proposed/src/threshold.rs:106-111 | k rounds on `data` equal k−1 rounds on `hash(data)` |
| Threshold.Store | proposed/src/threshold.rs:54 | storing a group signature keeps the ring length |
| Threshold.LastWriteWins | proposed/src/threshold.rs:54 | a second group signature for the same epoch replaces the first |
| Threshold.RawEntropy | proposed/src/threshold.rs:80-88 | with a signature stored at the mix epoch the raw entropy is its one-round hash chain, otherwise the mix of that epoch |
| Threshold.ThresholdSeed | proposed/src/threshold.rs:75-99 | the hash of domain, le64(target) and the raw entropy, in that order; with no signature at the mix epoch it equals the existing seed |
| Threshold.FallbackSeedIsRandaoSeed | proposed/src/threshold.rs:75-99 | with no signature at the mix epoch, the threshold seed equals the RANDAO-only seed on the same mixes |
| Threshold.StoredSignatureIsPreferred | proposed/src/threshold.rs:80-88 | once a signature is stored for the mix epoch, the seed comes from its one-round hash chain, not from the mix |
| Threshold.ThresholdSeedReadsOnlyMixEpoch | proposed/src/threshold.rs:75-99 | a threshold seed depends only on the two slots at its mix epoch |
| Threshold.ThresholdBeaconState.constructor | proposed/src/threshold.rs:28-34 | all mixes are zero, all 65536 signature slots are empty, and the group key is the one supplied |
| Threshold.ThresholdBeaconState.ProcessReveal | proposed/src/threshold.rs:40-70 | both branches succeed iff the signature verifies over le64(epoch) against the group key; each branch has its own error, and on error nothing changes; the threshold branch stores the signature and leaves the mixes alone; the fallback branch XORs Hash(sig bytes) into one mix and leaves the signatures alone; the group key never changes |
| Threshold.ThresholdBeaconState.GetSeed | proposed/src/threshold.rs:75-99 | returns `ThresholdSeed` of the current state, using the existing mix-epoch rule, and changes nothing |
| Committees.SyncCommittee | existing/src/main.rs:42 | the sync committee is the first 512 entries of the shuffle; its members are distinct and below the validator count |
| Committees.CommitteeSize | existing/src/main.rs:48 | the committee size is the floor of validator_count / (committees_per_slot × 32): total × size ≤ validator_count < total × (size + 1) |
| Committees.PartitionFits | existing/src/main.rs:47-48 | all committees together need no more than the validator count |
| Committees.SliceInBounds | existing/src/main.rs:52-54 | every committee slice `[start, end)` is inside the shuffled list |
| Committees.CommitteeAt | existing/src/main.rs:49-54 | committee i has committee_size members and is the slice at i × committee_size |
| Committees.PartitionCommittees | existing/src/main.rs:46-57 | the loop yields `committees_per_slot × 32` committees, the i-th being `CommitteeAt(i)` |
| Committees.CommitteeShape | existing/src/main.rs:50-51 | slot < slots per epoch, committee < committees per slot, and i == slot × committees_per_slot + committee |
| Committees.CommitteeOfSlotAndIndex | existing/src/main.rs:50-51 | every (slot, committee) pair is produced, at position slot × committees_per_slot + committee |
| Committees.MemberAt | existing/src/main.rs:52-54 | member j of committee i is the validator at shuffled position i × committee_size + j |
| Committees.CommitteesContiguous | existing/src/main.rs:52-54 | committee i+1 starts where committee i ends, and together they form one contiguous slice |
| Committees.RemainderUncovered | existing/src/main.rs:47-54 | validators shuffled past total × committee_size sit in no committee |
| Committees.PositionCovered | existing/src/main.rs:47-54 | every position below total × committee_size is in committee position / committee_size |
| Committees.CommitteesDisjoint | existing/src/main.rs:46-54 | with a permutation as input, two different committees share no validator |
| Committees.CommitteeHasNoRepeats | existing/src/main.rs:46-54 | with a permutation as input, no committee names a validator twice |
| Committees.MainnetPartitionIsExact | existing/src/main.rs:36-48 | 16384 validators in 64 × 32 committees give committees of 8, with nothing left over |

## Left out

- SHA-256 and BLS verification are parameters: `Hasher` returns an arbitrary
  32-byte digest and `Verifier` an arbitrary verdict. Nothing about collision
  resistance or signature security is assumed. Domain separation is stated on
  the hash inputs.
- Signing, key generation, the RNG, the distributed key generation and the
  threshold-BLS demo wiring (`proposed/src/main.rs`) are not modelled. The
  demo driving of `existing/src/main.rs` is not modelled either, except for
  lines 42 and 46–57. `existing/threshold.rs` is commented out.
- `println!` output is not modelled. `PartitionCommittees` returns the
  (slot, committee, members) triples the loop prints, in order.
- The reveal errors are `Err(String)` built with `format!`. Here they are the
  datatype constructors `InvalidRandaoReveal`, `InvalidThresholdSignature(epoch)`
  and `InvalidFallbackReveal`. The text of `blst`'s error code is not kept.
- `shuffle_indices` and `select_proposer` in `proposed/src/threshold.rs:116-117`
  are bodiless stubs, declared to be the existing ones. The `Randao`
  definitions serve both variants.
- `proposed/src/threshold.rs:15` imports `DOMAIN_RANDOMNESS`, which
  `proposed/src/constants.rs` does not define. The model uses `DOMAIN_RANDAO`.
- `proposed/src/threshold.rs:109` assigns a borrow of the loop-local digest
  to `data`, so it would not compile. The model follows the evident intent:
  each round hashes the previous round's digest.
- `usize` is taken to be 64 bits wide, so the `as usize` casts of epochs and
  of the decoded `u64` lose nothing. Validator counts are unbounded naturals.
- Slicing past the end of a vector panics in the source. That panic appears
  here as a precondition:
  - `SyncCommittee` requires at least 512 validators;
  - `SelectProposer` requires at least one.
- Concurrency: the source is single-threaded.
- Randao.ShuffleIndices: its ensures states equality with `Shuffle`. That the
  result is a permutation of `[0, n)` is proved separately, in the lemma
  `ShuffleIsPermutation`.
