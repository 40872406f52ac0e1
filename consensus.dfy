/**
  The longest-valid-chain rule of `resolve_conflicts` (server.py), stated as a
  fold over the peers' responses in the order they are polled. A response is
  `None` when the fetch failed (a request exception or a status other than 200).
 */
module Consensus {
  import opened Wrappers
  import opened Crypto
  import opened Blocks
  import opened Validator

  /** The loop state: `max_length` and `new_chain`. */
  datatype Candidate = Candidate(maxLength: int, chain: Option<Chain>)

  /** One peer: its chain becomes the candidate when strictly longer and valid. */
  function Consider(p: Primitives, best: Candidate, response: Option<Chain>): Candidate
  {
    match response
    case None => best
    case Some(c) => if |c| > best.maxLength && IsValidChain(p, c) then Candidate(|c|, Some(c)) else best
  }

  /** The loop state after polling every response, starting from the local length. */
  function Scan(p: Primitives, localLength: nat, responses: seq<Option<Chain>>): Candidate
    decreases |responses|
  {
    if responses == [] then Candidate(localLength, None)
    else Consider(p, Scan(p, localLength, responses[..|responses| - 1]), responses[|responses| - 1])
  }

  /** A response is valid and longer than `n`. */
  predicate LongerValid(p: Primitives, r: Option<Chain>, n: int)
  {
    r.Some? && |r.value| > n && IsValidChain(p, r.value)
  }

  /**
    The length kept is the local length or the adopted chain's; an adopted
    chain is one of the responses, passes the validator and is strictly
    longer than the local chain.
   */
  lemma {:induction false} ScanAdoptsOnlyLongerValid(p: Primitives, localLength: nat, responses: seq<Option<Chain>>)
    ensures var best := Scan(p, localLength, responses);
      && best.maxLength >= localLength
      && (best.chain.None? ==> best.maxLength == localLength)
      && (best.chain.Some? ==>
            && best.maxLength == |best.chain.value|
            && |best.chain.value| > localLength
            && IsValidChain(p, best.chain.value)
            && best.chain in responses)
    decreases |responses|
  {
    if responses != [] {
      var init := responses[..|responses| - 1];
      ScanAdoptsOnlyLongerValid(p, localLength, init);
      var prev := Scan(p, localLength, init);
      if prev.chain.Some? {
        assert prev.chain in responses by {
          var k :| 0 <= k < |init| && init[k] == prev.chain;
          assert responses[k] == prev.chain;
        }
      }
    }
  }

  /** No valid response is longer than what the scan keeps. */
  lemma {:induction false} ScanIsLongest(p: Primitives, localLength: nat, responses: seq<Option<Chain>>, k: nat)
    requires k < |responses|
    ensures !LongerValid(p, responses[k], Scan(p, localLength, responses).maxLength)
    decreases |responses|
  {
    var init := responses[..|responses| - 1];
    ScanNeverShrinks(p, Scan(p, localLength, init), responses[|responses| - 1]);
    if k < |init| {
      ScanIsLongest(p, localLength, init, k);
      assert responses[k] == init[k];
    }
  }

  lemma ScanNeverShrinks(p: Primitives, best: Candidate, r: Option<Chain>)
    ensures Consider(p, best, r).maxLength >= best.maxLength
    ensures !LongerValid(p, r, Consider(p, best, r).maxLength)
  {
  }

  /** The chain is replaced exactly when some response is valid and longer than the local chain. */
  lemma {:induction false} ScanReplacesIff(p: Primitives, localLength: nat, responses: seq<Option<Chain>>)
    ensures Scan(p, localLength, responses).chain.Some? <==>
            exists k :: 0 <= k < |responses| && LongerValid(p, responses[k], localLength)
  {
    ScanAdoptsOnlyLongerValid(p, localLength, responses);
    var best := Scan(p, localLength, responses);
    if best.chain.Some? {
      var k :| 0 <= k < |responses| && responses[k] == best.chain;
      assert LongerValid(p, responses[k], localLength);
    } else {
      forall k | 0 <= k < |responses| ensures !LongerValid(p, responses[k], localLength)
      {
        ScanIsLongest(p, localLength, responses, k);
      }
    }
  }

  /**
    Ties go to the earliest peer: the adopted chain is the response at some
    position `k`, and every valid response before `k` is strictly shorter.
   */
  lemma {:induction false} ScanPicksFirstLongest(p: Primitives, localLength: nat, responses: seq<Option<Chain>>)
    requires Scan(p, localLength, responses).chain.Some?
    ensures var c := Scan(p, localLength, responses).chain.value;
      exists k :: 0 <= k < |responses| && responses[k] == Some(c) &&
        forall j :: 0 <= j < k && responses[j].Some? && IsValidChain(p, responses[j].value) ==> |responses[j].value| < |c|
    decreases |responses|
  {
    var init := responses[..|responses| - 1];
    var last := responses[|responses| - 1];
    var prev := Scan(p, localLength, init);
    var c := Scan(p, localLength, responses).chain.value;
    ScanAdoptsOnlyLongerValid(p, localLength, init);
    if Consider(p, prev, last) == prev {
      ScanPicksFirstLongest(p, localLength, init);
      var k :| 0 <= k < |init| && init[k] == Some(c) &&
        forall j :: 0 <= j < k && init[j].Some? && IsValidChain(p, init[j].value) ==> |init[j].value| < |c|;
      assert responses[k] == Some(c);
      forall j | 0 <= j < k && responses[j].Some? && IsValidChain(p, responses[j].value)
        ensures |responses[j].value| < |c|
      {
        assert responses[j] == init[j];
      }
    } else {
      var k := |responses| - 1;
      assert responses[k] == Some(c) && |c| > prev.maxLength;
      forall j | 0 <= j < k && responses[j].Some? && IsValidChain(p, responses[j].value)
        ensures |responses[j].value| < |c|
      {
        ScanIsLongest(p, localLength, init, j);
        assert responses[j] == init[j];
      }
    }
  }
}
