/**
  Proof-of-work sealing (`mine_block`) and the fixed genesis block
  (`create_genesis_block`) of server.py.
 */
module Mining {
  import opened JsonValue
  import opened Crypto
  import opened Blocks

  /** The digest `b` would get with nonce `n`. */
  function HashWithNonce(p: Primitives, b: Block, n: int): string
  {
    ComputeBlockHash(p, b.(nonce := n))
  }

  /** Some nonce counting up from 0 meets the target, so the search ends. */
  ghost predicate Minable(p: Primitives, b: Block)
  {
    exists n: nat :: MeetsTarget(HashWithNonce(p, b, n))
  }

  /** Every block content can be sealed: the search always ends. */
  ghost predicate AlwaysMinable(p: Primitives)
  {
    forall b :: Minable(p, b)
  }

  /**
    `r` is `b` sealed by the search: only `nonce` and `block_hash` change,
    `nonce` is the least n >= 0 whose digest meets the target, and
    `block_hash` is that digest.
   */
  predicate IsMinedFrom(p: Primitives, b: Block, r: Block)
  {
    && r.nonce >= 0
    && r == b.(nonce := r.nonce, blockHash := r.blockHash)
    && r.blockHash == HashWithNonce(p, b, r.nonce)
    && MeetsTarget(r.blockHash)
    && forall n :: 0 <= n < r.nonce ==> !MeetsTarget(HashWithNonce(p, b, n))
  }

  /** `mine_block`: count the nonce up from 0 until the digest meets the target. */
  method MineBlock(p: Primitives, b: Block) returns (r: Block)
    requires Minable(p, b)
    ensures r.index == b.index && r.timestamp == b.timestamp && r.payload == b.payload
    ensures r.signature == b.signature && r.publicKey == b.publicKey && r.previousHash == b.previousHash
    ensures r.nonce >= 0 && r.blockHash == ComputeBlockHash(p, r)
    ensures MeetsTarget(r.blockHash) && PowOk(r) && DigestOk(p, r)
    ensures forall n :: 0 <= n < r.nonce ==> !MeetsTarget(ComputeBlockHash(p, r.(nonce := n)))
    ensures IsMinedFrom(p, b, r)
  {
    ghost var w: nat :| MeetsTarget(HashWithNonce(p, b, w));
    var n := 0;
    var h := ComputeBlockHash(p, b.(nonce := n));
    while !MeetsTarget(h)
      invariant 0 <= n <= w
      invariant h == HashWithNonce(p, b, n)
      invariant forall k :: 0 <= k < n ==> !MeetsTarget(HashWithNonce(p, b, k))
      decreases w - n
    {
      n := n + 1;
      h := ComputeBlockHash(p, b.(nonce := n));
    }
    r := b.(nonce := n, blockHash := h);
    HashIgnoresBlockHash(p, b.(nonce := n), h);
    forall k | 0 <= k < n ensures !MeetsTarget(ComputeBlockHash(p, r.(nonce := k)))
    {
      assert r.(nonce := k) == b.(nonce := k).(blockHash := h);
      HashIgnoresBlockHash(p, b.(nonce := k), h);
      assert ComputeBlockHash(p, r.(nonce := k)) == HashWithNonce(p, b, k);
      assert !MeetsTarget(HashWithNonce(p, b, k));
    }
  }

  /** The search is deterministic: a block content has exactly one sealed form. */
  lemma {:induction false} MinedUnique(p: Primitives, b: Block, r1: Block, r2: Block)
    requires IsMinedFrom(p, b, r1) && IsMinedFrom(p, b, r2)
    ensures r1 == r2
  {
    // Each nonce meets the target, so neither can lie below the other.
    assert MeetsTarget(HashWithNonce(p, b, r1.nonce));
    assert MeetsTarget(HashWithNonce(p, b, r2.nonce));
  }

  const GENESIS_TIMESTAMP: int := 1700000000

  /** The genesis dictionary before mining (nonce and block_hash are set by the search). */
  function GenesisDraft(): Block
  {
    Block(0, GENESIS_TIMESTAMP, Str("GENESIS"), ABSENT, ABSENT, Zeros(64), 0, "")
  }

  predicate IsGenesis(p: Primitives, g: Block)
  {
    IsMinedFrom(p, GenesisDraft(), g)
  }

  /** `create_genesis_block`: the fixed literal, mined. */
  method CreateGenesisBlock(p: Primitives) returns (g: Block)
    requires Minable(p, GenesisDraft())
    ensures g.index == 0 && g.timestamp == 1700000000 && g.payload == Str("GENESIS")
    ensures g.signature == "None" && g.publicKey == "None" && g.previousHash == Zeros(64)
    ensures PowOk(g) && DigestOk(p, g)
    ensures IsGenesis(p, g)
  {
    g := MineBlock(p, GenesisDraft());
  }

  /** Independently initialised nodes produce the identical genesis block. */
  lemma GenesisIdentical(p: Primitives, g1: Block, g2: Block)
    requires IsGenesis(p, g1) && IsGenesis(p, g2)
    ensures g1 == g2
  {
    MinedUnique(p, GenesisDraft(), g1, g2);
  }
}
