/**
  `verify_locally` of client.py: the client's own audit of a fetched chain,
  which names the first failing check and the block it failed at.
 */
module ClientAudit {
  import opened Wrappers
  import opened JsonValue
  import opened Crypto
  import opened Blocks
  import opened Validator

  /** The checks in the order the audit runs them on each block. */
  datatype Check = Index | Pow | Digest | Link | Time | Duplicate | Signature

  datatype Verdict = EmptyChain | Accepted | Rejected(check: Check, at: nat)

  function Rank(k: Check): nat
  {
    match k
    case Index => 0
    case Pow => 1
    case Digest => 2
    case Link => 3
    case Time => 4
    case Duplicate => 5
    case Signature => 6
  }

  /**
    Check `k` fails on block `i`. Index, proof of work and digest apply to
    every block; link, time, duplicate and signature only from block 1 on.
   */
  predicate Fails(p: Primitives, c: Chain, i: nat, k: Check)
    requires i < |c|
  {
    match k
    case Index => !IndexOk(c[i], i)
    case Pow => !PowOk(c[i])
    case Digest => !DigestOk(p, c[i])
    case Link => i > 0 && !LinkOk(c[i - 1], c[i])
    case Time => i > 0 && !TimeOk(c[i - 1], c[i])
    case Duplicate => i > 0 && !NoEarlierDuplicate(c, i)
    case Signature => i > 0 && !SignatureOk(p, c[i])
  }

  /** The first check, in audit order, that block `i` fails. */
  function FirstFailure(p: Primitives, c: Chain, i: nat): Option<Check>
    requires i < |c|
  {
    if !IndexOk(c[i], i) then Some(Index)
    else if !PowOk(c[i]) then Some(Pow)
    else if !DigestOk(p, c[i]) then Some(Digest)
    else if i > 0 && !LinkOk(c[i - 1], c[i]) then Some(Link)
    else if i > 0 && !TimeOk(c[i - 1], c[i]) then Some(Time)
    else if i > 0 && !NoEarlierDuplicate(c, i) then Some(Duplicate)
    else if i > 0 && !SignatureOk(p, c[i]) then Some(Signature)
    else None
  }

  /** The verdict on blocks `i` onward, all earlier blocks having passed. */
  function AuditFrom(p: Primitives, c: Chain, i: nat): Verdict
    requires i <= |c|
    decreases |c| - i
  {
    if i == |c| then Accepted
    else match FirstFailure(p, c, i)
      case Some(k) => Rejected(k, i)
      case None => AuditFrom(p, c, i + 1)
  }

  function Audit(p: Primitives, c: Chain): Verdict
  {
    if c == [] then EmptyChain else AuditFrom(p, c, 0)
  }

  predicate IsDigit(ch: char) { '0' <= ch <= '9' }

  function DigitChar(d: nat): (ch: char)
    requires d < 10
    ensures IsDigit(ch)
  {
    ('0' as int + d) as char
  }

  /** Python's `str(n)` for a non-negative integer. */
  function DecimalString(n: nat): (s: string)
    ensures |s| > 0 && forall k :: 0 <= k < |s| ==> IsDigit(s[k])
    ensures |s| == 1 <==> n < 10
  {
    if n < 10 then [DigitChar(n)] else DecimalString(n / 10) + [DigitChar(n % 10)]
  }

  /** The text before the block index in each rejection reason. */
  function Prefix(k: Check): string
  {
    match k
    case Index => "invalid_index_at_block_"
    case Pow => "invalid_pow_at_"
    case Digest => "bad_block_hash_at_"
    case Link => "bad_link_at_"
    case Time => "time_travel_detected_at_block_"
    case Duplicate => "replay_attack_detected_at_block_"
    case Signature => "invalid_signature_at_block_"
  }

  /** The reason string `verify_locally` returns with its verdict. */
  function Reason(v: Verdict): string
  {
    match v
    case EmptyChain => "empty_chain"
    case Accepted => "ok"
    case Rejected(k, i) => Prefix(k) + DecimalString(i)
  }

  /** Once the audit has reached block `i` and `k` is the first check it fails, `k` at `i` is the verdict. */
  lemma RejectedAt(p: Primitives, c: Chain, i: nat, k: Check)
    requires i < |c| && c != [] && Audit(p, c) == AuditFrom(p, c, i)
    requires FirstFailure(p, c, i) == Some(k)
    ensures Audit(p, c) == Rejected(k, i)
    ensures Reason(Audit(p, c)) == Prefix(k) + DecimalString(i)
  {
  }

  /**
    `verify_locally`: walks every block, running the checks in audit order
    with a set of `tx_id`s local to this call, and returns at the first
    failure with a reason naming the check and the block.
   */
  method VerifyLocally(p: Primitives, chain: Chain) returns (ok: bool, reason: string)
    ensures ok <==> Audit(p, chain) == Accepted
    ensures reason == Reason(Audit(p, chain))
    ensures chain == [] ==> !ok && reason == "empty_chain"
  {
    if chain == [] {
      return false, "empty_chain";
    }
    var seenTxIds: set<Json> := {};
    var i := 0;
    while i < |chain|
      invariant 0 <= i <= |chain|
      invariant seenTxIds == TxIdsIn(chain, 1, i)
      invariant Audit(p, chain) == AuditFrom(p, chain, i)
    {
      var curr := chain[i];
      if curr.index != i {
        RejectedAt(p, chain, i, Index);
        return false, Prefix(Index) + DecimalString(i);
      }
      if !MeetsTarget(curr.blockHash) {
        RejectedAt(p, chain, i, Pow);
        return false, Prefix(Pow) + DecimalString(i);
      }
      if ComputeBlockHash(p, curr) != curr.blockHash {
        RejectedAt(p, chain, i, Digest);
        return false, Prefix(Digest) + DecimalString(i);
      }
      if i > 0 {
        var prev := chain[i - 1];
        if curr.previousHash != prev.blockHash {
          RejectedAt(p, chain, i, Link);
          return false, Prefix(Link) + DecimalString(i);
        }
        if curr.timestamp < prev.timestamp {
          RejectedAt(p, chain, i, Time);
          return false, Prefix(Time) + DecimalString(i);
        }
        var payload := curr.payload;
        if payload.Obj? && "tx_id" in payload.fields {
          var txId := payload.fields["tx_id"];
          if txId in seenTxIds {
            RejectedAt(p, chain, i, Duplicate);
            return false, Prefix(Duplicate) + DecimalString(i);
          }
          seenTxIds := seenTxIds + {txId};
        }
        if curr.signature != ABSENT && curr.publicKey != ABSENT {
          if p.rsaVerify(curr.publicKey, p.canonical(curr.payload), curr.signature) != Verified {
            RejectedAt(p, chain, i, Signature);
            return false, Prefix(Signature) + DecimalString(i);
          }
        }
      }
      assert FirstFailure(p, chain, i) == None;
      i := i + 1;
    }
    return true, "ok";
  }

  /**
    The reported check is the first one that fails, in audit order; no
    report means every check passes on that block.
   */
  lemma FirstFailureIsFirst(p: Primitives, c: Chain, i: nat)
    requires i < |c|
    ensures FirstFailure(p, c, i).None? <==> forall k :: !Fails(p, c, i, k)
    ensures FirstFailure(p, c, i).Some? ==>
      var k := FirstFailure(p, c, i).value;
      Fails(p, c, i, k) && forall k' :: Rank(k') < Rank(k) ==> !Fails(p, c, i, k')
  {
    match FirstFailure(p, c, i)
    case None =>
      forall k ensures !Fails(p, c, i, k) {
        match k
        case Index =>
        case Pow =>
        case Digest =>
        case Link =>
        case Time =>
        case Duplicate =>
        case Signature =>
      }
    case Some(k) =>
      assert Fails(p, c, i, k);
      forall k' | Rank(k') < Rank(k) ensures !Fails(p, c, i, k') {
        match k'
        case Index =>
        case Pow =>
        case Digest =>
        case Link =>
        case Time =>
        case Duplicate =>
        case Signature =>
      }
  }

  /** The audit accepts from block `i` on exactly when no block from `i` on fails a check. */
  lemma {:induction false} AuditFromAccepts(p: Primitives, c: Chain, i: nat)
    requires i <= |c|
    ensures AuditFrom(p, c, i) == Accepted <==> forall j :: i <= j < |c| ==> FirstFailure(p, c, j).None?
    decreases |c| - i
  {
    if i < |c| {
      AuditFromAccepts(p, c, i + 1);
    }
  }

  /** A rejection names a block that fails and every block before it passes. */
  lemma {:induction false} AuditFromRejects(p: Primitives, c: Chain, i: nat, k: Check, j: nat)
    requires i <= |c|
    requires AuditFrom(p, c, i) == Rejected(k, j)
    ensures i <= j < |c| && FirstFailure(p, c, j) == Some(k)
    ensures forall m :: i <= m < j ==> FirstFailure(p, c, m).None?
    decreases |c| - i
  {
    if FirstFailure(p, c, i).None? {
      AuditFromRejects(p, c, i + 1, k, j);
    }
  }

  /**
    The audit reports the lowest failing block, and at that block the first
    failing check in the order index, proof of work, digest, link, time,
    duplicate `tx_id`, signature.
   */
  lemma AuditRejectsAtFirstFailure(p: Primitives, c: Chain, k: Check, j: nat)
    requires Audit(p, c) == Rejected(k, j)
    ensures j < |c| && Fails(p, c, j, k)
    ensures forall k' :: Rank(k') < Rank(k) ==> !Fails(p, c, j, k')
    ensures forall m, k' :: 0 <= m < j ==> !Fails(p, c, m, k')
  {
    AuditFromRejects(p, c, 0, k, j);
    FirstFailureIsFirst(p, c, j);
    forall m, k' | 0 <= m < j ensures !Fails(p, c, m, k')
    {
      FirstFailureIsFirst(p, c, m);
    }
  }

  /** Every check the client runs, stated over the whole chain. */
  predicate AuditPasses(p: Primitives, c: Chain)
  {
    && |c| > 0
    && (forall i :: 0 <= i < |c| ==> IndexOk(c[i], i) && PowOk(c[i]) && DigestOk(p, c[i]))
    && (forall i :: 1 <= i < |c| ==> LinkOk(c[i - 1], c[i]) && TimeOk(c[i - 1], c[i]) && SignatureOk(p, c[i]))
    && TxIdsDistinct(c)
  }

  /** `verify_locally` returns `(True, "ok")` exactly when no check fails on any block. */
  lemma AuditAcceptsIff(p: Primitives, c: Chain)
    ensures Audit(p, c) == Accepted <==> AuditPasses(p, c)
  {
    if c != [] {
      AuditFromAccepts(p, c, 0);
      FreshPrefixesIffDistinct(c);
      if AuditPasses(p, c) {
        forall j | 0 <= j < |c| ensures FirstFailure(p, c, j).None?
        {
          if j > 0 { assert NoEarlierDuplicate(c, j); }
        }
      }
      if Audit(p, c) == Accepted {
        forall j | 0 <= j < |c| ensures IndexOk(c[j], j) && PowOk(c[j]) && DigestOk(p, c[j])
        {
          assert FirstFailure(p, c, j).None?;
        }
        forall j | 1 <= j < |c|
          ensures LinkOk(c[j - 1], c[j]) && TimeOk(c[j - 1], c[j]) && SignatureOk(p, c[j])
          ensures NoEarlierDuplicate(c, j)
        {
          assert FirstFailure(p, c, j).None?;
        }
      }
    }
  }

  /**
    The client accepts exactly the chains the node's validator accepts whose
    block 0 also has the right index, proof of work and digest.
   */
  lemma ClientAcceptsExactly(p: Primitives, c: Chain)
    ensures AuditPasses(p, c) <==>
      |c| > 0 && IsValidChain(p, c) && IndexOk(c[0], 0) && PowOk(c[0]) && DigestOk(p, c[0])
  {
    if |c| > 0 && IsValidChain(p, c) && IndexOk(c[0], 0) && PowOk(c[0]) && DigestOk(p, c[0]) {
      forall i | 0 <= i < |c| ensures IndexOk(c[i], i) && PowOk(c[i]) && DigestOk(p, c[i])
      {
        if i > 0 { assert BlockAccepted(p, c, i); }
      }
      forall i | 1 <= i < |c|
        ensures LinkOk(c[i - 1], c[i]) && TimeOk(c[i - 1], c[i]) && SignatureOk(p, c[i])
      {
        assert BlockAccepted(p, c, i);
      }
    }
    if AuditPasses(p, c) {
      forall i | 1 <= i < |c| ensures BlockAccepted(p, c, i)
      {
        assert IndexOk(c[i], i) && PowOk(c[i]) && DigestOk(p, c[i]);
        assert LinkOk(c[i - 1], c[i]) && TimeOk(c[i - 1], c[i]) && SignatureOk(p, c[i]);
      }
    }
  }

  /** A chain the client's audit accepts is also accepted by the node's `valid_chain`. */
  lemma ClientAcceptImpliesServerAccept(p: Primitives, c: Chain)
    requires Audit(p, c) == Accepted
    ensures IsValidChain(p, c)
  {
    AuditAcceptsIff(p, c);
    ClientAcceptsExactly(p, c);
  }

  /** Distinct indices print differently. */
  lemma {:induction false} DecimalStringInjective(a: nat, b: nat)
    requires DecimalString(a) == DecimalString(b)
    ensures a == b
    decreases a
  {
    var sa, sb := DecimalString(a), DecimalString(b);
    if a >= 10 && b >= 10 {
      var ha, hb := DecimalString(a / 10), DecimalString(b / 10);
      assert |ha| == |hb|;
      assert ha == sa[..|ha|] && hb == sb[..|hb|];
      assert DigitChar(a % 10) == sa[|ha|] && DigitChar(b % 10) == sb[|hb|];
      DecimalStringInjective(a / 10, b / 10);
    } else if a < 10 && b < 10 {
      assert DigitChar(a) == sa[0] && DigitChar(b) == sb[0];
    } else {
      assert false;
    }
  }

  /** Every prefix ends in an underscore, and no two have the same length. */
  lemma PrefixShape(k1: Check, k2: Check)
    ensures |Prefix(k1)| >= 12 && Prefix(k1)[|Prefix(k1)| - 1] == '_'
    ensures |Prefix(k1)| == |Prefix(k2)| ==> k1 == k2
  {
  }

  /** Splitting `prefix + digits` where the prefix ends in a non-digit is unambiguous. */
  lemma SplitAtLastNonDigit(p1: string, d1: string, p2: string, d2: string)
    requires |p1| > 0 && !IsDigit(p1[|p1| - 1]) && |p2| > 0 && !IsDigit(p2[|p2| - 1])
    requires forall n :: 0 <= n < |d1| ==> IsDigit(d1[n])
    requires forall n :: 0 <= n < |d2| ==> IsDigit(d2[n])
    requires p1 + d1 == p2 + d2
    ensures p1 == p2 && d1 == d2
  {
    var r := p1 + d1;
    assert forall n :: |p1| <= n < |r| ==> r[n] == d1[n - |p1|];
    assert forall n :: |p2| <= n < |r| ==> r[n] == d2[n - |p2|];
    assert r[|p1| - 1] == p1[|p1| - 1] && r[|p2| - 1] == p2[|p2| - 1];
    assert p1 == r[..|p1|] && p2 == r[..|p2|];
    assert d1 == r[|p1|..] && d2 == r[|p2|..];
  }

  /**
    Different verdicts give different reason strings, so the reason names
    the failing check and the block index unambiguously.
   */
  lemma ReasonInjective(v1: Verdict, v2: Verdict)
    requires Reason(v1) == Reason(v2)
    ensures v1 == v2
  {
    match v1
    case Rejected(k1, i1) => {
      match v2
      case Rejected(k2, i2) =>
        PrefixShape(k1, k2);
        SplitAtLastNonDigit(Prefix(k1), DecimalString(i1), Prefix(k2), DecimalString(i2));
        DecimalStringInjective(i1, i2);
      case _ =>
        PrefixShape(k1, k1);
    }
    case _ =>
      if v2.Rejected? { PrefixShape(v2.check, v2.check); }
  }
}
