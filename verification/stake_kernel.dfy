/**
 The kernel check (BlackCoin kernel protocol v3). A staked output passes when the hash of
 the kernel tuple, divided by the staked value, does not exceed the target decoded from the
 block's compact bits. Dividing by the value makes the chance of passing, per timestamp
 tried, proportional to the amount staked.
 */
module StakeKernel {
  import opened PosTypes
  import opened Bits

  /**
   The proof-of-stake hash: the previous block's stake modifier, the staked transaction's
   time, the outpoint's transaction hash and index, then the coinstake time, in that order.
   */
  function StakeKernelHash(prims: Primitives, prev: BlockRef, coin: StakeSource, prevout: OutPoint, timeTx: uint32): (h: U256)
  {
    prims.hash(KernelPreimage(prev.stakeModifier, coin.time, prevout.hash, prevout.n, timeTx))
  }

  /** The kernel hash reads its five fields in serialization order and nothing else of its inputs. */
  lemma KernelHashesFieldsInOrder(prims: Primitives, prev: BlockRef, coin: StakeSource, prevout: OutPoint, timeTx: uint32)
    ensures StakeKernelHash(prims, prev, coin, prevout, timeTx)
         == prims.hash(KernelPreimage(stakeModifier := prev.stakeModifier, txPrevTime := coin.time,
                                      prevoutHash := prevout.hash, prevoutN := prevout.n, timeTx := timeTx))
  {
  }

  /** Whether the staked output meets the target encoded by `nBits` at time `timeTx`. */
  function CheckStakeKernelHash(prims: Primitives, prev: BlockRef, nBits: uint32, coin: StakeSource, prevout: OutPoint, timeTx: uint32): (ok: bool)
    ensures coin.value == 0 ==> !ok
  {
    if coin.value == 0 then false
    else
      var target := prims.decodeCompact(nBits);
      var hashProofOfStake := StakeKernelHash(prims, prev, coin, prevout, timeTx);
      !(hashProofOfStake / coin.value > target)
  }

  /** Truncating division against a bound, restated without division. */
  lemma QuotientAtMostIff(h: nat, v: nat, t: nat)
    requires v > 0
    ensures h / v <= t <==> h < (t + 1) * v
  {
    var q := h / v;
    assert h == q * v + h % v;
    assert (t + 1) * v == t * v + v;
    if q <= t {
      assert q * v <= t * v by { MulLeft(q, t, v); }
    } else {
      assert (t + 1) * v <= q * v by { MulLeft(t + 1, q, v); }
    }
  }

  /** For a positive value the check is exactly "quotient at most target". */
  lemma KernelCheckIsQuotientRule(prims: Primitives, prev: BlockRef, nBits: uint32, coin: StakeSource, prevout: OutPoint, timeTx: uint32)
    requires coin.value > 0
    ensures CheckStakeKernelHash(prims, prev, nBits, coin, prevout, timeTx)
        <==> StakeKernelHash(prims, prev, coin, prevout, timeTx) / coin.value <= prims.decodeCompact(nBits)
  {
  }

  /**
   The same rule without division: the hash must lie below (target + 1) * value, so the
   set of passing hashes grows linearly with the staked value.
   */
  lemma KernelCheckAsProduct(prims: Primitives, prev: BlockRef, nBits: uint32, coin: StakeSource, prevout: OutPoint, timeTx: uint32)
    ensures CheckStakeKernelHash(prims, prev, nBits, coin, prevout, timeTx)
        <==> coin.value > 0
             && StakeKernelHash(prims, prev, coin, prevout, timeTx) < (prims.decodeCompact(nBits) + 1) * coin.value
  {
    if coin.value > 0 {
      QuotientAtMostIff(StakeKernelHash(prims, prev, coin, prevout, timeTx), coin.value, prims.decodeCompact(nBits));
    }
  }

  /** A quotient exactly equal to the target passes: only a strictly greater one fails. */
  lemma QuotientEqualToTargetPasses(prims: Primitives, prev: BlockRef, nBits: uint32, coin: StakeSource, prevout: OutPoint, timeTx: uint32)
    requires coin.value > 0
    requires StakeKernelHash(prims, prev, coin, prevout, timeTx) / coin.value == prims.decodeCompact(nBits)
    ensures CheckStakeKernelHash(prims, prev, nBits, coin, prevout, timeTx)
  {
  }

  /** A quotient one above the target fails. */
  lemma QuotientAboveTargetFails(prims: Primitives, prev: BlockRef, nBits: uint32, coin: StakeSource, prevout: OutPoint, timeTx: uint32)
    requires coin.value > 0
    requires StakeKernelHash(prims, prev, coin, prevout, timeTx) / coin.value == prims.decodeCompact(nBits) + 1
    ensures !CheckStakeKernelHash(prims, prev, nBits, coin, prevout, timeTx)
  {
  }

  /**
   Staking more never hurts: an output that passes still passes with a larger value, all
   else equal (the value is not part of the hashed kernel).
   */
  lemma LargerValueKeepsPassing(prims: Primitives, prev: BlockRef, nBits: uint32, coin: StakeSource, prevout: OutPoint, timeTx: uint32, value: nat)
    requires CheckStakeKernelHash(prims, prev, nBits, coin, prevout, timeTx)
    requires coin.value <= value
    ensures CheckStakeKernelHash(prims, prev, nBits, coin.(value := value), prevout, timeTx)
  {
    var t := prims.decodeCompact(nBits);
    KernelCheckAsProduct(prims, prev, nBits, coin, prevout, timeTx);
    KernelCheckAsProduct(prims, prev, nBits, coin.(value := value), prevout, timeTx);
    MulLeft(coin.value, value, t + 1);
    assert (t + 1) * coin.value <= (t + 1) * value;
  }

  /** An easier target never hurts: an output that passes under `nBits` passes under any `nBits'` decoding to a target at least as large. */
  lemma LargerTargetKeepsPassing(prims: Primitives, prev: BlockRef, nBits: uint32, nBits': uint32, coin: StakeSource, prevout: OutPoint, timeTx: uint32)
    requires CheckStakeKernelHash(prims, prev, nBits, coin, prevout, timeTx)
    requires prims.decodeCompact(nBits) <= prims.decodeCompact(nBits')
    ensures CheckStakeKernelHash(prims, prev, nBits', coin, prevout, timeTx)
  {
  }

  /**
   The formula `hash < target * weight` written beside the check is sufficient for passing,
   but not necessary: the check also admits hash == target * weight (and up to
   (target + 1) * weight - 1).
   */
  lemma CommentedFormulaSufficient(prims: Primitives, prev: BlockRef, nBits: uint32, coin: StakeSource, prevout: OutPoint, timeTx: uint32)
    requires StakeKernelHash(prims, prev, coin, prevout, timeTx) < prims.decodeCompact(nBits) * coin.value
    ensures CheckStakeKernelHash(prims, prev, nBits, coin, prevout, timeTx)
  {
  }

  /** A hash equal to target * weight passes the check although the commented formula rejects it. */
  lemma CommentedFormulaNotNecessary(prims: Primitives, prev: BlockRef, nBits: uint32, coin: StakeSource, prevout: OutPoint, timeTx: uint32)
    requires coin.value > 0
    requires StakeKernelHash(prims, prev, coin, prevout, timeTx) == prims.decodeCompact(nBits) * coin.value
    ensures CheckStakeKernelHash(prims, prev, nBits, coin, prevout, timeTx)
    ensures !(StakeKernelHash(prims, prev, coin, prevout, timeTx) < prims.decodeCompact(nBits) * coin.value)
  {
    var t := prims.decodeCompact(nBits);
    KernelCheckAsProduct(prims, prev, nBits, coin, prevout, timeTx);
    assert (t + 1) * coin.value == t * coin.value + coin.value;
  }
}
