/**
  The node of server.py: its persisted chain, the replay guard `seen_tx_ids`
  and the peer set `peer_nodes`, and the operations that change them.
  The chain file is the field `chain`: an absent, empty or unparsable file
  is the empty chain, and every `save_chain` is an assignment to it.
 */
module Server {
  import opened Wrappers
  import opened JsonValue
  import opened Crypto
  import opened Blocks
  import opened Mining
  import opened Validator
  import opened Consensus
  import opened Whitelist

  /** The result of `api_update_data`; `Crashed` is an exception that escapes the handler. */
  datatype SubmitOutcome =
    | Added(block: Block)
    | MissingTxId       // "missing_tx_id", status 400
    | Replay            // "replay_attack_detected_transaction_already_processed", status 403
    | InvalidSignature  // "invalid_signature", status 401
    | Crashed

  /** The result of `register_nodes`. */
  datatype RegisterOutcome =
    | NoNodes                             // "Error: Please supply a valid list of nodes", status 400
    | Registered(totalNodes: set<string>) // "Authorized nodes added" with the whole peer set, status 201

  /** The dictionary `append_block` builds before mining. */
  function NextDraft(last: Block, payload: Json, signature: string, publicKey: string, now: int): Block
  {
    Block(last.index + 1, now, payload, signature, publicKey, last.blockHash, 0, "")
  }

  /**
    The checks `api_update_data` makes before it records anything, in its
    order: a payload that is not a dictionary makes `payload.get` raise; a
    missing or falsy `tx_id`; a `tx_id` already in `guard`; then the
    signature, where only `rsa.VerificationError` is caught. `None` admits.
   */
  function Screen(p: Primitives, guard: set<Json>, payload: Json, signatureHex: string, publicKeyPem: string): Option<SubmitOutcome>
  {
    if !payload.Obj? then Some(Crashed)
    else match Get(payload.fields, "tx_id")
      case None => Some(MissingTxId)
      case Some(txId) =>
        if !Truthy(txId) then Some(MissingTxId)
        else if txId in guard then Some(Replay)
        else match p.rsaVerify(publicKeyPem, p.canonical(payload), signatureHex)
          case Verified => None
          case Mismatch => Some(InvalidSignature)
          case Malformed => Some(Crashed)
  }

  /** A submission is admitted exactly when its `tx_id` is present, truthy, unseen and its signature verifies. */
  lemma ScreenAdmitsIff(p: Primitives, guard: set<Json>, payload: Json, signatureHex: string, publicKeyPem: string)
    ensures Screen(p, guard, payload, signatureHex, publicKeyPem).None? <==>
      && TxIdOf(payload).Some?
      && Truthy(TxIdOf(payload).value)
      && TxIdOf(payload).value !in guard
      && p.rsaVerify(publicKeyPem, p.canonical(payload), signatureHex) == Verified
  {
  }

  /**
    The order of the rejections: a payload that is not a mapping crashes, a
    missing or falsy `tx_id` is reported before the guard is consulted, a
    recorded `tx_id` before the signature is checked; only then does the
    signature decide.
   */
  lemma ScreenRejectionOrder(p: Primitives, guard: set<Json>, payload: Json, signatureHex: string, publicKeyPem: string)
    ensures !payload.Obj? ==> Screen(p, guard, payload, signatureHex, publicKeyPem) == Some(Crashed)
    ensures payload.Obj? && (TxIdOf(payload).None? || !Truthy(TxIdOf(payload).value)) ==>
      Screen(p, guard, payload, signatureHex, publicKeyPem) == Some(MissingTxId)
    ensures TxIdOf(payload).Some? && Truthy(TxIdOf(payload).value) && TxIdOf(payload).value in guard ==>
      Screen(p, guard, payload, signatureHex, publicKeyPem) == Some(Replay)
    ensures TxIdOf(payload).Some? && Truthy(TxIdOf(payload).value) && TxIdOf(payload).value !in guard ==>
      var outcome := p.rsaVerify(publicKeyPem, p.canonical(payload), signatureHex);
      && (outcome == Mismatch ==> Screen(p, guard, payload, signatureHex, publicKeyPem) == Some(InvalidSignature))
      && (outcome == Malformed ==> Screen(p, guard, payload, signatureHex, publicKeyPem) == Some(Crashed))
  {
  }

  /**
    Once a payload is admitted and its `tx_id` recorded, any later submission
    whose payload carries the same `tx_id` is a replay, whatever the rest of
    that payload and whatever its signature.
   */
  lemma ResubmitIsReplay(p: Primitives, guard: set<Json>, payload: Json, signatureHex: string, publicKeyPem: string,
                         p': Primitives, guard': set<Json>, payload': Json, signatureHex': string, publicKeyPem': string)
    requires Screen(p, guard, payload, signatureHex, publicKeyPem).None?
    requires TxIdOf(payload).Some? && TxIdOf(payload).value in guard'
    requires TxIdOf(payload') == TxIdOf(payload)
    ensures Screen(p', guard', payload', signatureHex', publicKeyPem') == Some(Replay)
  {
  }

  /**
    A block sealed from an admitted submission extends a valid chain to a
    valid chain, provided the clock has not gone backwards.
   */
  lemma AdmittedBlockKeepsChainValid(p: Primitives, c: Chain, guard: set<Json>, payload: Json,
                                     signatureHex: string, publicKeyPem: string, now: int, b: Block)
    requires IsValidChain(p, c) && c[0].index == 0 && c[|c| - 1].timestamp <= now
    requires ChainTxIds(c) <= guard
    requires Screen(p, guard, payload, signatureHex, publicKeyPem).None?
    requires IsMinedFrom(p, NextDraft(c[|c| - 1], payload, signatureHex, publicKeyPem, now), b)
    ensures IsValidChain(p, c + [b])
  {
    HashIgnoresBlockHash(p, b, NextDraft(c[|c| - 1], payload, signatureHex, publicKeyPem, now).blockHash);
    AppendKeepsChainValid(p, c, b);
  }

  /** The `tx_id` scan of `load_chain` and `resolve_conflicts`. */
  method CollectTxIds(chain: Chain, seen: set<Json>) returns (r: set<Json>)
    ensures r == seen + ChainTxIds(chain)
    ensures forall x :: x in r <==> x in seen || exists k :: 0 <= k < |chain| && TxIdOf(chain[k].payload) == Some(x)
  {
    r := seen;
    var i := 0;
    while i < |chain|
      invariant 0 <= i <= |chain|
      invariant r == seen + TxIdsIn(chain, 0, i)
    {
      var payload := chain[i].payload;
      if payload.Obj? && "tx_id" in payload.fields {
        r := r + {payload.fields["tx_id"]};
      }
      i := i + 1;
    }
    forall x ensures x in r <==> x in seen || exists k :: 0 <= k < |chain| && TxIdOf(chain[k].payload) == Some(x)
    {
      TxIdsInMembers(chain, 0, |chain|, x);
    }
  }

  class Node {
    var chain: Chain
    var seen: set<Json>
    var peers: set<string>

    /** The replay guard covers every `tx_id` in the stored chain. */
    ghost predicate Synced()
      reads this
    {
      ChainTxIds(chain) <= seen
    }

    /** A process starting on a stored chain: both sets start empty. */
    constructor (stored: Chain)
      ensures chain == stored && seen == {} && peers == {}
    {
      chain, seen, peers := stored, {}, {};
    }

    /** `load_chain`: reads the store and merges its `tx_id`s into the guard. */
    method LoadChain() returns (c: Chain)
      modifies this`seen
      ensures c == chain && seen == old(seen) + ChainTxIds(chain)
      ensures Synced()
    {
      seen := CollectTxIds(chain, seen);
      c := chain;
    }

    /** `ensure_chain_initialized`: writes the genesis block only when the store is empty. */
    method EnsureChainInitialized(p: Primitives)
      requires Minable(p, GenesisDraft())
      modifies this`chain, this`seen
      ensures seen == old(seen) + ChainTxIds(old(chain))
      ensures old(chain) != [] ==> chain == old(chain)
      ensures old(chain) == [] ==> |chain| == 1 && IsGenesis(p, chain[0])
      ensures chain != [] && Synced()
    {
      var c := LoadChain();
      if c == [] {
        var g := CreateGenesisBlock(p);
        chain := [g];
        assert ChainTxIds(chain) == {} by {
          ChainTxIdsAppend([], g);
          assert [] + [g] == chain;
        }
      }
    }

    /**
      `append_block`: links a new block to the tail, mines it and stores the
      chain one block longer. The store must not be empty (`chain[-1]`).
     */
    method AppendBlock(p: Primitives, payload: Json, signature: string, publicKey: string, now: int) returns (b: Block)
      requires chain != []
      requires Minable(p, NextDraft(chain[|chain| - 1], payload, signature, publicKey, now))
      modifies this`chain, this`seen
      ensures seen == old(seen) + ChainTxIds(old(chain))
      ensures chain == old(chain) + [b]
      ensures var last := old(chain)[|old(chain)| - 1];
        && b.index == last.index + 1
        && b.previousHash == last.blockHash
        && b.timestamp == now && b.payload == payload
        && b.signature == signature && b.publicKey == publicKey
        && PowOk(b) && DigestOk(p, b)
        && IsMinedFrom(p, NextDraft(last, payload, signature, publicKey, now), b)
    {
      var c := LoadChain();
      var last := c[|c| - 1];
      b := MineBlock(p, NextDraft(last, payload, signature, publicKey, now));
      chain := c + [b];
    }

    /**
      `api_update_data`: initialise the store, screen the submission, then
      record its `tx_id` and append exactly one block carrying the payload.
      `base` is the chain after initialisation; `now` is `int(time.time())`.
     */
    method UpdateData(p: Primitives, payload: Json, signatureHex: string, publicKeyPem: string, now: int)
      returns (r: SubmitOutcome, ghost base: Chain)
      requires AlwaysMinable(p)
      modifies this`chain, this`seen
      ensures old(chain) != [] ==> base == old(chain)
      ensures old(chain) == [] ==> |base| == 1 && IsGenesis(p, base[0])
      ensures var guard := old(seen) + ChainTxIds(base);
        var verdict := Screen(p, guard, payload, signatureHex, publicKeyPem);
        && (verdict.Some? ==> r == verdict.value && chain == base && seen == guard)
        && (verdict.None? ==>
              && r.Added?
              && seen == guard + {TxIdOf(payload).value}
              && chain == base + [r.block]
              && r.block.payload == payload
              && IsMinedFrom(p, NextDraft(base[|base| - 1], payload, signatureHex, publicKeyPem, now), r.block))
      ensures Synced() && old(seen) <= seen
      ensures old(Synced()) && old(chain) != [] && !r.Added? ==> chain == old(chain) && seen == old(seen)
      ensures r.Added? && IsValidChain(p, base) && base[0].index == 0 && base[|base| - 1].timestamp <= now
              ==> IsValidChain(p, chain)
    {
      EnsureChainInitialized(p);
      base := chain;
      ghost var guard := seen;
      var verdict := Screen(p, seen, payload, signatureHex, publicKeyPem);
      if verdict.Some? {
        return verdict.value, base;
      }
      var txId := payload.fields["tx_id"];
      seen := seen + {txId};
      var b := AppendBlock(p, payload, signatureHex, publicKeyPem, now);
      r := Added(b);
      ChainTxIdsAppend(base, b);
      if IsValidChain(p, base) && base[0].index == 0 && base[|base| - 1].timestamp <= now {
        AdmittedBlockKeepsChainValid(p, base, guard, payload, signatureHex, publicKeyPem, now, b);
      }
    }

    /**
      `resolve_conflicts`: poll the peers' chains, adopt the longest one that
      is strictly longer than the stored chain and passes `valid_chain`, and
      merge its `tx_id`s into the guard. `responses` holds one answer per
      registered peer, in the iteration order of the set `peers`.
     */
    method ResolveConflicts(p: Primitives, responses: seq<Option<Chain>>) returns (replaced: bool)
      requires |responses| == |peers|
      modifies this`chain, this`seen
      ensures var best := Scan(p, |old(chain)|, responses);
        && replaced == best.chain.Some?
        && chain == (if replaced then best.chain.value else old(chain))
        && seen == old(seen) + ChainTxIds(old(chain)) + (if replaced then ChainTxIds(chain) else {})
      ensures replaced ==> |chain| > |old(chain)| && IsValidChain(p, chain) && Some(chain) in responses
      ensures peers == {} ==> !replaced && chain == old(chain)
      ensures Synced() && old(seen) <= seen
      ensures old(Synced()) && !replaced ==> chain == old(chain) && seen == old(seen)
    {
      var local := LoadChain();
      var maxLength := |local|;
      var newChain: Option<Chain> := None;
      var i := 0;
      while i < |responses|
        invariant 0 <= i <= |responses|
        invariant chain == local == old(chain) && seen == old(seen) + ChainTxIds(old(chain))
        invariant Candidate(maxLength, newChain) == Scan(p, |local|, responses[..i])
      {
        assert responses[..i + 1][..i] == responses[..i];
        match responses[i] {
          case Some(c) =>
            if |c| > maxLength {
              var ok := ValidChain(p, c);
              if ok {
                maxLength := |c|;
                newChain := Some(c);
              }
            }
          case None =>
        }
        i := i + 1;
      }
      assert responses[..i] == responses;
      ScanAdoptsOnlyLongerValid(p, |local|, responses);
      if newChain.Some? {
        chain := newChain.value;
        seen := CollectTxIds(chain, seen);
        return true;
      }
      return false;
    }

    /**
      `register_nodes`: adds each node's network location that is on the
      whitelist; `nodes` is `None` when the request has no `nodes` entry.
     */
    method RegisterNodes(netlocOf: string -> string, nodes: Option<seq<string>>) returns (r: RegisterOutcome)
      modifies this`peers
      ensures nodes.None? ==> r == NoNodes && peers == old(peers)
      ensures nodes.Some? ==> peers == old(peers) + Admitted(netlocOf, nodes.value) && r == Registered(peers)
      ensures peers - old(peers) <= AUTHORIZED_PEERS
      ensures old(peers) <= AUTHORIZED_PEERS ==> peers <= AUTHORIZED_PEERS
    {
      if nodes.None? {
        return NoNodes;
      }
      var ns := nodes.value;
      var i := 0;
      while i < |ns|
        invariant 0 <= i <= |ns|
        invariant peers == old(peers) + Admitted(netlocOf, ns[..i])
      {
        assert ns[..i + 1][..i] == ns[..i];
        var netloc := netlocOf(ns[i]);
        if netloc in AUTHORIZED_PEERS {
          peers := peers + {netloc};
        }
        i := i + 1;
      }
      assert ns[..i] == ns;
      forall x | x in Admitted(netlocOf, ns) ensures x in AUTHORIZED_PEERS
      {
        AdmittedMembers(netlocOf, ns, x);
      }
      r := Registered(peers);
    }
  }

  /**
    Two submissions to one node whose payloads carry the same `tx_id`: when
    the first is added, the second is a replay.
   */
  method SubmitTwice(p: Primitives, stored: Chain,
                     payload1: Json, signatureHex1: string, publicKeyPem1: string, now1: int,
                     payload2: Json, signatureHex2: string, publicKeyPem2: string, now2: int)
    returns (first: SubmitOutcome, second: SubmitOutcome)
    requires AlwaysMinable(p)
    requires TxIdOf(payload2) == TxIdOf(payload1)
    ensures first.Added? ==> second == Replay
  {
    var node := new Node(stored);
    ghost var base;
    first, base := node.UpdateData(p, payload1, signatureHex1, publicKeyPem1, now1);
    second, base := node.UpdateData(p, payload2, signatureHex2, publicKeyPem2, now2);
  }

  /**
    A process restarted on a stored chain rebuilds its guard from the store
    before screening, so a `tx_id` already in the stored chain is a replay.
   */
  method RestartThenSubmit(p: Primitives, stored: Chain, payload: Json, signatureHex: string, publicKeyPem: string, now: int)
    returns (r: SubmitOutcome)
    requires AlwaysMinable(p)
    requires TxIdOf(payload).Some? && TxIdOf(payload).value in ChainTxIds(stored)
    ensures r == (if Truthy(TxIdOf(payload).value) then Replay else MissingTxId)
  {
    var node := new Node(stored);
    ghost var base;
    r, base := node.UpdateData(p, payload, signatureHex, publicKeyPem, now);
  }

  /**
    A fresh node starts on an empty store, initialises it with genesis,
    registers the peer at 127.0.0.1:5000 and resolves against that peer's
    chain `c`. A valid chain longer than genesis replaces the store.
   */
  method JoinNetwork(p: Primitives, netlocOf: string -> string, c: Chain) returns (b: Node, replaced: bool)
    requires AlwaysMinable(p)
    requires netlocOf("127.0.0.1:5000") == "127.0.0.1:5000"
    ensures fresh(b) && b.peers == {"127.0.0.1:5000"}
    ensures replaced <==> |c| > 1 && IsValidChain(p, c)
    ensures replaced ==> b.chain == c && ChainTxIds(c) <= b.seen
  {
    b := new Node([]);
    b.EnsureChainInitialized(p);
    var registered := b.RegisterNodes(netlocOf, Some(["127.0.0.1:5000"]));
    assert Admitted(netlocOf, ["127.0.0.1:5000"]) == {"127.0.0.1:5000"} by {
      assert ["127.0.0.1:5000"][..0] == [];
    }
    replaced := b.ResolveConflicts(p, [Some(c)]);
    assert [Some(c)][..0] == [];
  }

  /**
    Node A, listening on 127.0.0.1:5000, starts empty and accepts one signed
    transaction; node B joins the network (`JoinNetwork`) and adopts A's
    two-block chain; the same transaction submitted to B is then a replay.
   */
  method ReplicateThenReplay(p: Primitives, netlocOf: string -> string,
                             payload: Json, signatureHex: string, publicKeyPem: string, now: int)
    returns (first: SubmitOutcome, replaced: bool, second: SubmitOutcome)
    requires AlwaysMinable(p)
    requires netlocOf("127.0.0.1:5000") == "127.0.0.1:5000"
    requires now >= GENESIS_TIMESTAMP
    ensures first.Added? ==> replaced && second == Replay
  {
    var a := new Node([]);
    ghost var base;
    first, base := a.UpdateData(p, payload, signatureHex, publicKeyPem, now);
    if first.Added? {
      assert |a.chain| == 2 && IsValidChain(p, a.chain);
      assert TxIdOf(payload).value in ChainTxIds(a.chain) by {
        TxIdsInMembers(a.chain, 0, |a.chain|, TxIdOf(payload).value);
        assert a.chain[1].payload == payload;
      }
    }
    var b;
    b, replaced := JoinNetwork(p, netlocOf, a.chain);
    second, base := b.UpdateData(p, payload, signatureHex, publicKeyPem, now);
  }
}
