# BlackCoin proof-of-stake eligibility rules in Dafny

A model of the three consensus decisions in BlackCoin's `src/pos.cpp`:

- **Stake modifier chaining** (`StakeModifier`): the genesis block's modifier is zero; every
  later block's modifier is the hash of its kernel followed by its predecessor's stored
  modifier. A fold over the kernel history (`ChainModifier`) is proved to be what a chain
  built block by block stores.
- **Coinstake timestamp rules** (`StakeTimestamp`): under protocol v2 the block and
  coinstake times must agree and the coinstake time must have no bit set under the stake
  timestamp mask; under the legacy protocol only agreement is required. For a mask of the
  k low bits this is proved to mean "starts a 2^k-second slot", so two accepted v2 times
  are at least one slot apart.
- **Kernel check** (`StakeKernel`): a zero-value output never passes; otherwise the kernel
  hash divided (truncating) by the value must not exceed the decoded target. This is proved
  equivalent to `hash < (target + 1) * value`. It follows that the check is monotone in the
  value and in the target. A quotient equal to the target passes.

The comment above `CheckStakeKernelHash` (pos.cpp:49) writes the rule as
`hash < bnTarget * nWeight`. The code is more permissive than that formula: it accepts
every hash below `(target + 1) * value`. `CommentedFormulaSufficient` and
`CommentedFormulaNotNecessary` state the exact relation. The model follows the code.

The network hash (serialization through `CHashWriter` plus double SHA-256) and the
compact-target decoder (`arith_uint256::SetCompact`) are uninterpreted. They are the fields
of a `Primitives` value that every operation takes. The consensus parameters are an explicit
`ConsensusParams` value. It holds the protocol-v2 predicate on block times and the stake
timestamp mask, and it replaces the global `Params()`. The two hash preimages are
constructors of `Preimage`, whose fields appear in serialization order.

Files: `pos_types.dfy` (data model), `bits.dfy` (bitwise AND on non-negative integers),
`stake_modifier.dfy`, `stake_timestamp.dfy`, `stake_kernel.dfy`.

## Model

| member | source | states |
|---|---|---|
| StakeModifier.ComputeStakeModifier | src/pos.cpp:20-23 | With no predecessor (genesis), the modifier is zero for every kernel. |
| StakeModifier.ModifierHashesKernelThenPrevious | src/pos.cpp:25-27 | With a predecessor, the modifier is the hash of the kernel followed by the predecessor's stored modifier, in that order. |
| StakeModifier.ModifierReadsOnlyPreviousModifier | src/pos.cpp:20-27 | Predecessors with the same stored modifier give the same result: of the predecessor only its modifier is read. |
| StakeModifier.ChainedModifierIsUnrolled | src/pos.cpp:15-28 | In a chain where each block stores the modifier computed from its predecessor, block i stores the modifier unrolled from genesis over kernels 0..i. |
| StakeModifier.ModifierDeterminedByKernelHistory | src/pos.cpp:15-28 | Two chains built from the same kernels hold equal modifiers at every height, whatever their blocks' times and heights. |
| StakeTimestamp.CheckCoinStakeTimestamp | src/pos.cpp:31-38 | Mismatched block and coinstake times are always rejected. Under v2 (chosen by the block time) it accepts iff the times match and the mask AND is zero. Under legacy it accepts iff the times match. |
| StakeTimestamp.CheckStakeBlockTimestamp | src/pos.cpp:41-44 | Always accepts under legacy. Under v2 it accepts iff the block time has no bit set under the mask. |
| StakeTimestamp.V2AcceptsSlotBoundaries | src/pos.cpp:34-35 | With mask 2^k - 1, v2 accepts exactly the matching times that are multiples of 2^k. |
| StakeTimestamp.V2AcceptedTimesAreSlotsApart | src/pos.cpp:34-35 | With mask 2^k - 1, two different v2-accepted block times differ by at least 2^k. |
| StakeTimestamp.TwoBitMaskExamples | src/pos.cpp:31-38 | With mask 3 under v2: (100,100) passes, (101,101) and (100,101) fail. Under legacy: (50,50) passes and (50,51) fails. |
| Bits.BitAndBit | src/pos.cpp:35 | The modelled `&` sets bit i of its result iff bit i is set in both operands, for every i. |
| Bits.BitAndLowMask | src/pos.cpp:35 | ANDing with 2^k - 1 leaves exactly the remainder modulo 2^k. |
| StakeKernel.KernelHashesFieldsInOrder | src/pos.cpp:77-79 | The proof-of-stake hash is the hash of the previous block's stake modifier, the staked transaction's time, the outpoint's hash, the outpoint's index and the coinstake time, in that order. |
| StakeKernel.CheckStakeKernelHash | src/pos.cpp:65-70 | An output of value zero is rejected, whatever the other inputs. |
| StakeKernel.KernelCheckIsQuotientRule | src/pos.cpp:72-85 | For a positive value, it accepts iff the kernel hash divided by the value (truncating) is at most the decoded target. |
| StakeKernel.KernelCheckAsProduct | src/pos.cpp:65-85 | It accepts iff the value is positive and the kernel hash is below (target + 1) * value. |
| StakeKernel.QuotientAtMostIff | src/pos.cpp:82 | For a positive divisor v, h / v <= t iff h < (t + 1) * v. |
| StakeKernel.QuotientEqualToTargetPasses | src/pos.cpp:82-85 | A quotient exactly equal to the target passes. |
| StakeKernel.QuotientAboveTargetFails | src/pos.cpp:82-83 | A quotient one above the target fails. |
| StakeKernel.LargerValueKeepsPassing | src/pos.cpp:47-51 | A passing output still passes when its value is raised and every other input stays the same. |
| StakeKernel.LargerTargetKeepsPassing | src/pos.cpp:72-85 | A passing output still passes under compact bits that decode to a target at least as large. |
| StakeKernel.CommentedFormulaSufficient | src/pos.cpp:49 | A hash below target * value always passes. |
| StakeKernel.CommentedFormulaNotNecessary | src/pos.cpp:49 | A hash equal to target * value with a positive value passes, although the commented formula rejects it. |

## Left out

- The byte layout of `CHashWriter` serialization and double SHA-256 are not modelled. They are foreign library code, so the hash is an uninterpreted function over the ordered preimage fields. Collision resistance therefore cannot be stated. In particular, nothing shows that different predecessor modifiers give different modifiers.
- `arith_uint256::SetCompact` is not modelled. Its source is not part of this model, so it is an uninterpreted map from 32-bit compact bits to a 256-bit target, and its sign and overflow rules are not modelled.
- `Params()` and the protocol-v2 switch time are not modelled. They become the explicit `ConsensusParams` argument, and the v2 predicate is left abstract.
- The `CBlockIndex` and `CCoins` lookups and the unchecked `vout[prevout.n]` index are not modelled. The predecessor's modifier, the staked value and the staked transaction's time are given as inputs.
- StakeKernel.CheckStakeKernelHash: the staked value is a `nat`, so the `int64_t` range of `nValueIn` is not modelled. This assumes callers never pass an output with a negative value. The code itself does not reject one: a negative value passes the zero test at src/pos.cpp:69 and reaches the 256-bit division at line 82.
- StakeTimestamp.CheckCoinStakeTimestamp: timestamps and the mask are non-negative integers, so negative `int64_t` timestamps and their two's-complement AND are not modelled.
