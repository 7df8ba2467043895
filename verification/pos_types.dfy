/**
 The values the proof-of-stake rules read: 256-bit digests, block index entries,
 stake sources and outpoints, and the two things this core takes from outside —
 the network-wide hash with its serialization, and the consensus parameters.
 */
module PosTypes {

  /** 2^256: every uint256 / arith_uint256 value lies below it. */
  const U256_BOUND: nat := 0x1_0000_0000_0000_0000_0000_0000_0000_0000_0000_0000_0000_0000_0000_0000_0000_0000

  /** An unsigned 256-bit integer (uint256, arith_uint256). */
  type U256 = x: nat | x < U256_BOUND

  /** An `unsigned int` / `uint32_t` field as it is serialized into a hash preimage. */
  type uint32 = x: int | 0 <= x < 0x1_0000_0000

  datatype Option<+T> = None | Some(value: T)

  /**
   The preimages the network hash is applied to, with their fields in serialization order.
   Each constructor fixes one field order; the byte layout itself is not modelled.
   */
  datatype Preimage =
    | ModifierPreimage(kernel: U256, prevStakeModifier: U256)
    | KernelPreimage(stakeModifier: U256, txPrevTime: uint32, prevoutHash: U256, prevoutN: uint32, timeTx: uint32)

  /**
   The external primitives: `hash` stands for serialize-then-double-SHA256 (CHashWriter),
   `decodeCompact` for arith_uint256::SetCompact. Both are left uninterpreted.
   */
  datatype Primitives = Primitives(hash: Preimage -> U256, decodeCompact: uint32 -> U256)

  /**
   The consensus parameters this core consults: which block times fall under protocol v2,
   and the stake timestamp mask (nStakeTimestampMask).
   */
  datatype ConsensusParams = ConsensusParams(isProtocolV2: nat -> bool, stakeTimestampMask: nat)

  /** The part of a CBlockIndex entry this core reads. */
  datatype BlockRef = BlockRef(stakeModifier: U256, time: nat, height: nat)

  /** The staked output: its value (nValue) and the time of the transaction holding it (nTime). */
  datatype StakeSource = StakeSource(value: nat, time: uint32)

  /** A reference to a transaction output (COutPoint). */
  datatype OutPoint = OutPoint(hash: U256, n: uint32)
}
