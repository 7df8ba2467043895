/**
 The stake modifier: a 256-bit seed chained from block to block, so that the owner of an
 output cannot compute its future proof-of-stake hashes when the output is confirmed.
 */
module StakeModifier {
  import opened PosTypes

  /**
   The modifier of a new block from its predecessor (None for the genesis block) and the
   new block's kernel value.
   */
  function ComputeStakeModifier(prims: Primitives, prev: Option<BlockRef>, kernel: U256): (r: U256)
    ensures prev.None? ==> r == 0
  {
    match prev
    case None => 0
    case Some(b) => prims.hash(ModifierPreimage(kernel, b.stakeModifier))
  }

  /** With a predecessor, the kernel is hashed first and the predecessor's modifier second. */
  lemma ModifierHashesKernelThenPrevious(prims: Primitives, b: BlockRef, kernel: U256)
    ensures ComputeStakeModifier(prims, Some(b), kernel)
         == prims.hash(ModifierPreimage(kernel := kernel, prevStakeModifier := b.stakeModifier))
  {
  }

  /** Of the predecessor only its stored modifier matters, not its time or height. */
  lemma ModifierReadsOnlyPreviousModifier(prims: Primitives, b1: BlockRef, b2: BlockRef, kernel: U256)
    requires b1.stakeModifier == b2.stakeModifier
    ensures ComputeStakeModifier(prims, Some(b1), kernel) == ComputeStakeModifier(prims, Some(b2), kernel)
  {
  }

  /**
   The modifier of the last block of a chain whose blocks carry `kernels` (genesis first),
   unrolled from genesis: zero for the genesis block, then one hash per later block.
   */
  function ChainModifier(prims: Primitives, kernels: seq<U256>): (modifier: U256)
    requires |kernels| > 0
    decreases |kernels|
  {
    if |kernels| == 1 then 0
    else prims.hash(ModifierPreimage(kernels[|kernels| - 1], ChainModifier(prims, kernels[..|kernels| - 1])))
  }

  /** A block's stored modifier is the one ComputeStakeModifier gives for its predecessor. */
  predicate StoredAsComputed(prims: Primitives, chain: seq<BlockRef>, kernels: seq<U256>, i: nat)
    requires |chain| == |kernels| && i < |chain|
  {
    chain[i].stakeModifier
      == ComputeStakeModifier(prims, if i == 0 then None else Some(chain[i - 1]), kernels[i])
  }

  /**
   Every block of `chain` (genesis first) stores the modifier computed from its predecessor
   and its own kernel, as the chain index does when it persists each result.
   */
  predicate ChainedFromGenesis(prims: Primitives, chain: seq<BlockRef>, kernels: seq<U256>)
  {
    && |chain| == |kernels|
    && forall i: nat :: i < |chain| ==> StoredAsComputed(prims, chain, kernels, i)
  }

  /** In a chain built block by block, each stored modifier is the unrolled chain modifier. */
  lemma {:induction false} ChainedModifierIsUnrolled(prims: Primitives, chain: seq<BlockRef>, kernels: seq<U256>, i: nat)
    requires ChainedFromGenesis(prims, chain, kernels)
    requires i < |chain|
    ensures chain[i].stakeModifier == ChainModifier(prims, kernels[..i + 1])
  {
    assert StoredAsComputed(prims, chain, kernels, i);
    if i > 0 {
      ChainedModifierIsUnrolled(prims, chain, kernels, i - 1);
      assert kernels[..i + 1][..i] == kernels[..i];
    }
  }

  /**
   Two chains built from the same kernels hold the same modifier at every height, whatever
   their blocks' times: the modifier is a function of the kernel history alone.
   */
  lemma ModifierDeterminedByKernelHistory(prims: Primitives, chain1: seq<BlockRef>, chain2: seq<BlockRef>, kernels: seq<U256>, i: nat)
    requires ChainedFromGenesis(prims, chain1, kernels)
    requires ChainedFromGenesis(prims, chain2, kernels)
    requires i < |kernels|
    ensures chain1[i].stakeModifier == chain2[i].stakeModifier
  {
    ChainedModifierIsUnrolled(prims, chain1, kernels, i);
    ChainedModifierIsUnrolled(prims, chain2, kernels, i);
  }
}
