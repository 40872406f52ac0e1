/** `valid_chain` of server.py: the audit a peer's chain must pass before adoption. */
module Validator {
  import opened Wrappers
  import opened JsonValue
  import opened Crypto
  import opened Blocks

  /** Block `i >= 1` passes every check of the node's validator except the duplicate check. */
  predicate BlockAccepted(p: Primitives, c: Chain, i: int)
    requires 1 <= i < |c|
  {
    && IndexOk(c[i], i)
    && TimeOk(c[i - 1], c[i])
    && PowOk(c[i])
    && LinkOk(c[i - 1], c[i])
    && DigestOk(p, c[i])
    && SignatureOk(p, c[i])
  }

  /**
    What the node's validator accepts: a non-empty chain whose blocks from
    index 1 on pass every check and carry distinct `tx_id`s. Block 0 itself
    is never inspected.
   */
  predicate IsValidChain(p: Primitives, c: Chain)
  {
    && |c| > 0
    && (forall i :: 1 <= i < |c| ==> BlockAccepted(p, c, i))
    && TxIdsDistinct(c)
  }

  /**
    `valid_chain`: walks blocks 1 .. |chain| - 1 checking, in order, index,
    timestamp, proof of work, link, digest, duplicate `tx_id` (against a set
    local to this call) and signature; returns false at the first failure.
   */
  method ValidChain(p: Primitives, chain: Chain) returns (ok: bool)
    ensures ok <==> IsValidChain(p, chain)
    ensures chain == [] ==> !ok
    ensures |chain| == 1 ==> ok
  {
    if chain == [] {
      return false;
    }
    var chainTxs: set<Json> := {};
    var i := 1;
    while i < |chain|
      invariant 1 <= i <= |chain|
      invariant chainTxs == TxIdsIn(chain, 1, i)
      invariant forall k :: 1 <= k < i ==> BlockAccepted(p, chain, k)
      invariant forall k :: 1 <= k < i ==> NoEarlierDuplicate(chain, k)
    {
      var curr, prev := chain[i], chain[i - 1];
      if curr.index != i {
        assert !BlockAccepted(p, chain, i);
        return false;
      }
      if curr.timestamp < prev.timestamp {
        assert !BlockAccepted(p, chain, i);
        return false;
      }
      if !MeetsTarget(curr.blockHash) {
        assert !BlockAccepted(p, chain, i);
        return false;
      }
      if curr.previousHash != prev.blockHash {
        assert !BlockAccepted(p, chain, i);
        return false;
      }
      if ComputeBlockHash(p, curr) != curr.blockHash {
        assert !BlockAccepted(p, chain, i);
        return false;
      }
      match TxIdOf(curr.payload) {
        case Some(txId) =>
          if txId in chainTxs {
            assert !NoEarlierDuplicate(chain, i);
            FreshPrefixesIffDistinct(chain);
            return false;
          }
          chainTxs := chainTxs + {txId};
        case None =>
      }
      if curr.signature != ABSENT && curr.publicKey != ABSENT {
        if p.rsaVerify(curr.publicKey, p.canonical(curr.payload), curr.signature) != Verified {
          assert !BlockAccepted(p, chain, i);
          return false;
        }
      }
      assert BlockAccepted(p, chain, i) && NoEarlierDuplicate(chain, i);
      i := i + 1;
    }
    FreshPrefixesIffDistinct(chain);
    return true;
  }

  /**
    Appending a block the way `append_block` builds it keeps a valid chain
    valid, provided the clock has not gone backwards, the signature verified
    and the `tx_id` is new to the chain.
   */
  lemma {:induction false} AppendKeepsChainValid(p: Primitives, c: Chain, b: Block)
    requires IsValidChain(p, c) && c[0].index == 0
    requires b.index == c[|c| - 1].index + 1 && b.previousHash == c[|c| - 1].blockHash
    requires b.timestamp >= c[|c| - 1].timestamp
    requires PowOk(b) && DigestOk(p, b) && SignatureOk(p, b)
    requires FreshTx(b, ChainTxIds(c))
    ensures IsValidChain(p, c + [b])
  {
    var c' := c + [b];
    var n := |c|;
    assert c[n - 1].index == n - 1 by {
      if n > 1 { assert BlockAccepted(p, c, n - 1); }
    }
    forall i | 1 <= i < |c'| ensures BlockAccepted(p, c', i)
    {
      if i < n {
        assert BlockAccepted(p, c, i);
        assert c'[i] == c[i] && c'[i - 1] == c[i - 1];
      }
    }
    forall i, j | 1 <= i < j < |c'| && TxIdOf(c'[j].payload).Some?
      ensures TxIdOf(c'[i].payload) != TxIdOf(c'[j].payload)
    {
      if j == n {
        var x := TxIdOf(b.payload).value;
        if TxIdOf(c[i].payload) == Some(x) {
          TxIdsInMembers(c, 0, n, x);
          assert false;
        }
      } else {
        assert c'[i] == c[i] && c'[j] == c[j];
      }
    }
  }
}
