/**
  Blocks, their digest, the proof-of-work target and the per-block checks
  shared by the node's validator (server.py) and the client's audit
  (client.py). Both programs hash a block the same way
  (server.py:53-57, client.py:15-19), so the digest is defined once here.
 */
module Blocks {
  import opened Wrappers
  import opened JsonValue
  import opened Crypto

  /** Number of leading '0' hex digits a block hash must have. */
  const DIFFICULTY: nat := 4

  /** The marker that stands for an absent signature or public key. */
  const ABSENT: string := "None"

  datatype Block = Block(
    index: int,
    timestamp: int,
    payload: Json,
    signature: string,
    publicKey: string,
    previousHash: string,
    nonce: int,
    blockHash: string)

  type Chain = seq<Block>

  /** The block as the dictionary that is stored and sent to peers. */
  function BlockDict(b: Block): map<string, Json>
  {
    map[
      "index" := Num(b.index),
      "timestamp" := Num(b.timestamp),
      "payload" := b.payload,
      "signature" := Str(b.signature),
      "public_key" := Str(b.publicKey),
      "previous_hash" := Str(b.previousHash),
      "nonce" := Num(b.nonce),
      "block_hash" := Str(b.blockHash)]
  }

  /** The copy of the block with the `block_hash` key deleted. */
  function HashedContent(b: Block): Json
  {
    Obj(BlockDict(b) - {"block_hash"})
  }

  /** `compute_block_hash`: the hex digest of the canonical encoding of the hashed content. */
  function ComputeBlockHash(p: Primitives, b: Block): string
  {
    p.sha256Hex(p.canonical(HashedContent(b)))
  }

  /** The digest does not depend on the stored `block_hash`. */
  lemma HashIgnoresBlockHash(p: Primitives, b: Block, h: string)
    ensures HashedContent(b.(blockHash := h)) == HashedContent(b)
    ensures ComputeBlockHash(p, b.(blockHash := h)) == ComputeBlockHash(p, b)
  {
    assert BlockDict(b.(blockHash := h)) - {"block_hash"} == BlockDict(b) - {"block_hash"};
  }

  /**
    The hashed content covers every other field: two blocks have the same
    hashed content exactly when they agree on everything but `block_hash`.
   */
  lemma SameHashedContent(b1: Block, b2: Block)
    ensures HashedContent(b1) == HashedContent(b2) <==> b1.(blockHash := "") == b2.(blockHash := "")
  {
    var m1, m2 := BlockDict(b1) - {"block_hash"}, BlockDict(b2) - {"block_hash"};
    if m1 == m2 {
      assert m1["index"] == m2["index"];
      assert m1["timestamp"] == m2["timestamp"];
      assert m1["payload"] == m2["payload"];
      assert m1["signature"] == m2["signature"];
      assert m1["public_key"] == m2["public_key"];
      assert m1["previous_hash"] == m2["previous_hash"];
      assert m1["nonce"] == m2["nonce"];
    }
    if b1.(blockHash := "") == b2.(blockHash := "") {
      assert m1 == m2;
    }
  }

  /** `"0" * n` */
  function Zeros(n: nat): (z: string)
    ensures |z| == n && forall k :: 0 <= k < n ==> z[k] == '0'
  {
    seq(n, _ => '0')
  }

  /** `h.startswith("0" * DIFFICULTY)` */
  predicate MeetsTarget(h: string)
  {
    Zeros(DIFFICULTY) <= h
  }

  /** The `tx_id` of a payload that is a dictionary holding one; otherwise none. */
  function TxIdOf(payload: Json): (r: Option<Json>)
    ensures r.Some? <==> payload.Obj? && "tx_id" in payload.fields
    ensures r.Some? ==> r.value == payload.fields["tx_id"]
  {
    if payload.Obj? && "tx_id" in payload.fields then Some(payload.fields["tx_id"]) else None
  }

  function BlockTxIds(b: Block): set<Json>
  {
    match TxIdOf(b.payload)
    case Some(x) => {x}
    case None => {}
  }

  /** The `tx_id`s carried by blocks `lo` .. `hi - 1` of `c`. */
  function TxIdsIn(c: Chain, lo: nat, hi: nat): set<Json>
    requires hi <= |c|
    decreases hi
  {
    if hi <= lo then {} else TxIdsIn(c, lo, hi - 1) + BlockTxIds(c[hi - 1])
  }

  /** Every `tx_id` of a dictionary payload in the chain. */
  function ChainTxIds(c: Chain): set<Json>
  {
    TxIdsIn(c, 0, |c|)
  }

  lemma {:induction false} TxIdsInMembers(c: Chain, lo: nat, hi: nat, x: Json)
    requires hi <= |c|
    ensures x in TxIdsIn(c, lo, hi) <==> exists k :: lo <= k < hi && TxIdOf(c[k].payload) == Some(x)
    decreases hi
  {
    if hi > lo {
      TxIdsInMembers(c, lo, hi - 1, x);
      if TxIdOf(c[hi - 1].payload) == Some(x) {
        assert x in BlockTxIds(c[hi - 1]);
      }
    }
  }

  /** Blocks added after position `hi` do not change the `tx_id`s of the blocks before it. */
  lemma {:induction false} TxIdsInExtend(c: Chain, ext: Chain, lo: nat, hi: nat)
    requires hi <= |c|
    ensures TxIdsIn(c + ext, lo, hi) == TxIdsIn(c, lo, hi)
    decreases hi
  {
    if hi > lo {
      TxIdsInExtend(c, ext, lo, hi - 1);
      assert (c + ext)[hi - 1] == c[hi - 1];
    }
  }

  /** Appending a block adds exactly its own `tx_id`, if any. */
  lemma ChainTxIdsAppend(c: Chain, b: Block)
    ensures ChainTxIds(c + [b]) == ChainTxIds(c) + BlockTxIds(b)
  {
    TxIdsInExtend(c, [b], 0, |c|);
    assert (c + [b])[|c|] == b;
  }

  /** Blocks 1 .. |c| - 1 carry pairwise different `tx_id`s (block 0 is not tracked). */
  predicate TxIdsDistinct(c: Chain)
  {
    forall i, j :: 1 <= i < j < |c| && TxIdOf(c[j].payload).Some? ==> TxIdOf(c[i].payload) != TxIdOf(c[j].payload)
  }

  // The individual checks, each named after the source's own test.

  predicate IndexOk(b: Block, i: int) { b.index == i }

  predicate TimeOk(prev: Block, b: Block) { b.timestamp >= prev.timestamp }

  predicate PowOk(b: Block) { MeetsTarget(b.blockHash) }

  predicate LinkOk(prev: Block, b: Block) { b.previousHash == prev.blockHash }

  predicate DigestOk(p: Primitives, b: Block) { ComputeBlockHash(p, b) == b.blockHash }

  /** The block's `tx_id`, if any, is not among `seen`. */
  predicate FreshTx(b: Block, seen: set<Json>)
  {
    TxIdOf(b.payload).None? || TxIdOf(b.payload).value !in seen
  }

  /** Skipped when either field is the absent marker; any exception is a failure. */
  predicate SignatureOk(p: Primitives, b: Block)
  {
    b.signature == ABSENT || b.publicKey == ABSENT ||
    p.rsaVerify(b.publicKey, p.canonical(b.payload), b.signature) == Verified
  }

  /** Block `i`'s `tx_id`, if any, is not carried by any of blocks 1 .. i - 1. */
  predicate NoEarlierDuplicate(c: Chain, i: int)
    requires 1 <= i < |c|
  {
    FreshTx(c[i], TxIdsIn(c, 1, i))
  }

  /**
    Checking each block against the `tx_id`s of the blocks before it (from
    block 1 on) is the same as asking that those blocks' `tx_id`s be distinct.
   */
  lemma {:induction false} FreshPrefixesIffDistinct(c: Chain)
    ensures (forall i :: 1 <= i < |c| ==> NoEarlierDuplicate(c, i)) <==> TxIdsDistinct(c)
  {
    if forall i :: 1 <= i < |c| ==> NoEarlierDuplicate(c, i) {
      forall i, j | 1 <= i < j < |c| && TxIdOf(c[j].payload).Some?
        ensures TxIdOf(c[i].payload) != TxIdOf(c[j].payload)
      {
        TxIdsInMembers(c, 1, j, TxIdOf(c[j].payload).value);
        assert NoEarlierDuplicate(c, j);
      }
    }
    if TxIdsDistinct(c) {
      forall i | 1 <= i < |c| ensures NoEarlierDuplicate(c, i)
      {
        if TxIdOf(c[i].payload).Some? {
          TxIdsInMembers(c, 1, i, TxIdOf(c[i].payload).value);
        }
      }
    }
  }
}
