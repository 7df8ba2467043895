/**
 Coinstake timestamp rules. Under protocol v2 a coinstake may only claim a time with no bit
 set under the stake timestamp mask, which confines stakers to coarse time slots; under the
 legacy protocol the block and transaction times only have to agree.
 */
module StakeTimestamp {
  import opened PosTypes
  import opened Bits

  /** Whether a coinstake with time `timeTx` may sit in a block with time `timeBlock`. */
  function CheckCoinStakeTimestamp(params: ConsensusParams, timeBlock: nat, timeTx: nat): (ok: bool)
    ensures timeBlock != timeTx ==> !ok
    ensures params.isProtocolV2(timeBlock) ==> (ok <==> timeBlock == timeTx && MaskClear(timeTx, params.stakeTimestampMask))
    ensures !params.isProtocolV2(timeBlock) ==> (ok <==> timeBlock == timeTx)
  {
    if params.isProtocolV2(timeBlock) then
      timeBlock == timeTx && BitAnd(timeTx, params.stakeTimestampMask) == 0
    else
      timeBlock == timeTx
  }

  /** The header-only form, where the block time also stands for the coinstake time. */
  function CheckStakeBlockTimestamp(params: ConsensusParams, timeBlock: nat): (ok: bool)
    ensures !params.isProtocolV2(timeBlock) ==> ok
    ensures params.isProtocolV2(timeBlock) ==> (ok <==> MaskClear(timeBlock, params.stakeTimestampMask))
  {
    CheckCoinStakeTimestamp(params, timeBlock, timeBlock)
  }

  /**
   With a mask of the k low bits (nStakeTimestampMask = 2^k - 1), protocol v2 accepts a
   coinstake time exactly when it matches the block time and starts a 2^k-second slot.
   */
  lemma V2AcceptsSlotBoundaries(params: ConsensusParams, k: nat, timeBlock: nat, timeTx: nat)
    requires params.stakeTimestampMask == Pow2(k) - 1
    requires params.isProtocolV2(timeBlock)
    ensures CheckCoinStakeTimestamp(params, timeBlock, timeTx) <==> timeBlock == timeTx && timeTx % Pow2(k) == 0
  {
    LowMaskClearIffMultiple(timeTx, k);
  }

  /**
   Under protocol v2 with a mask of the k low bits, two different accepted block times are at
   least one 2^k-second slot apart: a staker has one candidate time per slot to grind.
   */
  lemma V2AcceptedTimesAreSlotsApart(params: ConsensusParams, k: nat, t1: nat, t2: nat)
    requires params.stakeTimestampMask == Pow2(k) - 1
    requires params.isProtocolV2(t1) && params.isProtocolV2(t2)
    requires CheckStakeBlockTimestamp(params, t1) && CheckStakeBlockTimestamp(params, t2)
    requires t1 < t2
    ensures t2 - t1 >= Pow2(k)
  {
    V2AcceptsSlotBoundaries(params, k, t1, t1);
    V2AcceptsSlotBoundaries(params, k, t2, t2);
    MultiplesAreSpaced(t1, t2, Pow2(k));
  }

  /**
   The cases worked through for a two-bit mask: 100 is aligned, 101 is not, and a time
   mismatch always fails; under the legacy protocol 50 passes although it is not aligned.
   */
  lemma TwoBitMaskExamples()
    ensures CheckCoinStakeTimestamp(ConsensusParams(_ => true, 3), 100, 100)
    ensures !CheckCoinStakeTimestamp(ConsensusParams(_ => true, 3), 101, 101)
    ensures !CheckCoinStakeTimestamp(ConsensusParams(_ => true, 3), 100, 101)
    ensures CheckCoinStakeTimestamp(ConsensusParams(_ => false, 3), 50, 50)
    ensures !CheckCoinStakeTimestamp(ConsensusParams(_ => false, 3), 50, 51)
  {
    assert Pow2(2) == 4;
    BitAndLowMask(100, 2);
    BitAndLowMask(101, 2);
  }
}
