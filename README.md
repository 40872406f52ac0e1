# Ledger integrity of a small proof-of-work blockchain

This project models the ledger core of a small proof-of-work blockchain. It has
two parts:

- a node (`server.py`), which keeps a hash-linked chain of signed blocks, a
  replay guard of transaction ids (`seen_tx_ids`) and a whitelisted peer set;
- a client (`client.py`), which fetches a chain and audits it on its own.

The model covers these operations of the node:

- block hashing;
- mining at difficulty 4;
- the fixed genesis block;
- initialising the store;
- appending a block;
- the chain validator `valid_chain`;
- longest-valid-chain conflict resolution;
- the `tx_id` scan of `load_chain`;
- the submission handler `api_update_data`;
- the whitelist filter of `register_nodes`.

It also covers the client's `verify_locally`.

Modules:

- `Wrappers`: the `Option` type.
- `JsonValue`: decoded JSON values and Python truthiness.
- `Crypto`: the canonical encoder, SHA-256 and RSA verification. These are
  uninterpreted function values handed in as a `Primitives` parameter.
- `Blocks`: the block record, the hashed content, the proof-of-work target,
  the `tx_id` collection and the per-block checks.
- `Mining`: the nonce search and the genesis block.
- `Validator`: `valid_chain`, proved against the declarative `IsValidChain`.
- `Consensus`: the peer-polling loop of `resolve_conflicts`, as a fold over
  the responses.
- `Whitelist`: `AUTHORIZED_PEERS` and the netloc filter.
- `Server`: the admission screen of `api_update_data`. It also holds the
  class `Node`, whose fields are the store, the replay guard and the peer set.
- `ClientAudit`: `verify_locally`, proved against the verdict function
  `Audit`, with the reason strings it returns.

The chain file is the field `Node.chain`. Every `save_chain` is an assignment
to that field. An absent, empty or unparsable file is the empty chain.
`load_chain` also merges the stored chain's `tx_id`s into the replay guard.
The model keeps that side effect on every path that calls it:

- `ensure_chain_initialized`;
- `append_block`;
- `resolve_conflicts`.

Three behaviours of the code are easy to misread; the model follows the code:

- `valid_chain` starts at block 1, so block 0 is never checked. The client
  checks index, proof of work and digest on block 0 too.
  `ClientAudit.ClientAcceptsExactly` states the exact relation between the two
  checks.
- A block whose signature or public key is the string `"None"` skips
  signature verification at any height, not only at genesis.
- In `api_update_data` only `rsa.VerificationError` is caught. A malformed key
  or non-hex signature raises out of the handler. This is the `Crashed`
  outcome, not an `invalid_signature` rejection.

## Model

| member | source | states |
|---|---|---|
| JsonValue.Truthy | server.py:177 | definition of Python truthiness of a JSON value (`not tx_id`); used by `Server.ScreenRejectionOrder` and `Server.ScreenAdmitsIff` |
| Blocks.ComputeBlockHash | server.py:53-57 | definition: the digest of the canonical encoding of the block with `block_hash` removed; `Blocks.HashIgnoresBlockHash` and `Blocks.SameHashedContent` state its properties (client.py:15-19 is the same function) |
| Blocks.HashIgnoresBlockHash | server.py:53-57 | the digest of a block does not depend on its `block_hash` field, whatever value it holds |
| Blocks.SameHashedContent | server.py:53-57 | two blocks have the same hashed content exactly when they agree on every field except `block_hash` |
| Blocks.TxIdsInMembers | server.py:40-42 | a value is among the collected `tx_id`s of a block range exactly when some block in that range carries it |
| Blocks.TxIdsInExtend | server.py:40-42 | appending blocks to a chain does not change the `tx_id`s collected from its existing blocks |
| Blocks.ChainTxIdsAppend | server.py:101 | the `tx_id`s of a chain with one more block are the old chain's plus that block's |
| Blocks.FreshPrefixesIffDistinct | server.py:121-127 | checking each block's `tx_id` against the ids of the earlier blocks (from block 1) passes exactly when the `tx_id`s of blocks 1 .. n-1 are pairwise distinct |
| Mining.MineBlock | server.py:60-67 | the mined block keeps every other field, its hash is the digest with the chosen nonce, it meets the four-zero target, and no smaller nonce does |
| Mining.MinedUnique | server.py:60-67 | mining is deterministic: two blocks mined from the same draft are identical |
| Mining.CreateGenesisBlock | server.py:70-81 | genesis has index 0, timestamp 1700000000, payload `"GENESIS"`, signature and key `"None"`, previous hash of 64 zeros, and a valid proof of work and digest |
| Mining.GenesisIdentical | server.py:70-81 | any two genesis blocks are equal, so independent nodes produce the same root |
| Validator.ValidChain | server.py:106-138 | returns true exactly when the chain is non-empty, every block from 1 on passes the index, time, proof-of-work, link, digest and signature checks, and no two of those blocks share a `tx_id`; an empty chain is rejected and a one-block chain accepted |
| Validator.AppendKeepsChainValid | server.py:89-103 | a valid chain rooted at index 0, extended by a correctly linked, mined, signed block with a fresh `tx_id` and a timestamp no earlier than the tail's, is still valid |
| Consensus.Consider | server.py:150-155 | definition of one polling step: a fetched chain becomes the candidate when strictly longer than `max_length` and valid; `Consensus.ScanNeverShrinks` states its properties |
| Consensus.Scan | server.py:146-158 | definition of the polling loop as a fold over the responses; `Consensus.ScanAdoptsOnlyLongerValid`, `Consensus.ScanIsLongest`, `Consensus.ScanReplacesIff` and `Consensus.ScanPicksFirstLongest` state its properties |
| Consensus.ScanAdoptsOnlyLongerValid | server.py:146-158 | the chain adopted by the polling loop is one of the responses, passes `valid_chain` and is strictly longer than the local chain, and `max_length` is its length |
| Consensus.ScanIsLongest | server.py:146-158 | after polling, no response is both valid and longer than the final `max_length` |
| Consensus.ScanNeverShrinks | server.py:153-155 | considering one more response never lowers `max_length` and leaves no longer valid candidate behind |
| Consensus.ScanReplacesIff | server.py:146-159 | the chain is replaced exactly when some response is valid and strictly longer than the local chain |
| Consensus.ScanPicksFirstLongest | server.py:146-158 | the adopted chain is the response at some position, and every valid response before it is strictly shorter (ties go to the earliest peer) |
| Whitelist.Admitted | server.py:210-217 | definition of the whitelisted netlocs among the submitted nodes; `Whitelist.AdmittedMembers` states its members |
| Whitelist.AdmittedMembers | server.py:210-217 | a location is added exactly when it is in `AUTHORIZED_PEERS` and is the netloc of one of the submitted nodes |
| Server.Screen | server.py:176-189 | definition of the checks `api_update_data` makes before recording anything; `Server.ScreenAdmitsIff`, `Server.ScreenRejectionOrder` and `Server.ResubmitIsReplay` state its properties |
| Server.ScreenRejectionOrder | server.py:176-189 | a non-mapping payload crashes; a missing or falsy `tx_id` is reported whatever the guard and signature; a recorded `tx_id` is a replay whatever the signature; only then does a mismatch give `invalid_signature` and a malformed key a crash |
| Server.ScreenAdmitsIff | server.py:176-189 | a submission is admitted exactly when its payload has a truthy `tx_id` not yet in the guard and the signature verifies over the canonical payload |
| Server.ResubmitIsReplay | server.py:180-181 | once an admitted payload's `tx_id` is in the guard, any later submission whose payload carries the same `tx_id` is rejected as a replay, whatever the rest of its payload and its signature |
| Server.AdmittedBlockKeepsChainValid | server.py:183-192 | the block sealed for an admitted submission extends a valid chain to a valid chain when the clock has not gone backwards |
| Server.CollectTxIds | server.py:40-42 | the scan adds to the guard exactly the `tx_id`s of the blocks whose payload is a mapping with a `tx_id` |
| Server.Node.constructor | server.py:17-18 | a process starts on its stored chain with an empty replay guard and no peers |
| Server.Node.LoadChain | server.py:33-45 | returns the stored chain and merges its `tx_id`s into the guard, so the guard covers the store |
| Server.Node.EnsureChainInitialized | server.py:84-86 | a non-empty store is left as it is; an empty store becomes the one-block genesis chain; the store is non-empty and covered by the guard afterwards |
| Server.Node.AppendBlock | server.py:89-103 | the store grows by exactly one mined block that carries the payload, signature and key, links to the old tail's hash and has the next index and the given time |
| Server.Node.UpdateData | server.py:169-193 | a rejection (missing or falsy `tx_id`, replay, bad signature, crash) appends nothing and records nothing; an admission records the `tx_id` and appends exactly one block carrying the payload; the guard covers the store, only grows, and a valid chain stays valid |
| Server.Node.ResolveConflicts | server.py:141-166 | with one response per registered peer (a node with no peers polls nothing and keeps its chain), the store becomes the longest strictly longer valid response (first one on ties) or is left unchanged; a replacement is valid, longer and one of the responses, and its `tx_id`s join the guard |
| Server.Node.RegisterNodes | server.py:202-221 | a request without `nodes` changes nothing; otherwise the whitelisted netlocs are added to the peers, and nothing outside `AUTHORIZED_PEERS` is ever added |
| Server.SubmitTwice | server.py:176-181 | two submissions to one node whose payloads carry the same `tx_id`: when the first is added, the second is a replay |
| Server.RestartThenSubmit | server.py:171-181 | a process restarted on a stored chain rebuilds its guard from the store, so a truthy `tx_id` already in the stored chain is a replay (a falsy one is `missing_tx_id`) |
| Server.JoinNetwork | server.py:202-234 | a fresh node that initialises its store, registers 127.0.0.1:5000 and resolves against that peer's chain replaces its store exactly when the peer's chain is valid and longer than genesis, and then its guard covers that chain |
| Server.ReplicateThenReplay | server.py:141-234 | node A (127.0.0.1:5000) accepts a transaction; node B starts empty, initialises its store with genesis, registers A through the whitelist and resolves against A's chain; then B has replaced its chain and rejects the same transaction as a replay |
| ClientAudit.DigitChar | client.py:33 | each digit 0-9 prints as a decimal digit character |
| ClientAudit.DecimalString | client.py:33 | `str(i)` is a non-empty run of decimal digits, one character long exactly for i below 10 |
| ClientAudit.Prefix | client.py:33-68 | definition of the seven rejection tags; `ClientAudit.PrefixShape` states their shape |
| ClientAudit.Reason | client.py:22-70 | definition of the reason string for each verdict; `ClientAudit.VerifyLocally` returns it and `ClientAudit.ReasonInjective` states that it is unambiguous |
| ClientAudit.RejectedAt | client.py:28-68 | when the audit reaches block i and a check fails there, the verdict and the reason name that check and that block |
| ClientAudit.VerifyLocally | client.py:22-70 | returns ok exactly when the audit accepts, with the reason text for the verdict: `empty_chain`, `ok`, or the failing check's tag followed by the block index |
| ClientAudit.FirstFailureIsFirst | client.py:31-68 | the check reported for a block fails there and every check run before it passes; no report means every check passes |
| ClientAudit.AuditFromAccepts | client.py:28-70 | auditing from block i accepts exactly when no block from i on fails any check |
| ClientAudit.AuditFromRejects | client.py:28-68 | a rejection names a block that fails that check, and every block before it passes |
| ClientAudit.AuditRejectsAtFirstFailure | client.py:28-68 | a rejection is at the lowest failing block, on the first failing check in the order index, proof of work, digest, link, time, duplicate, signature |
| ClientAudit.AuditAcceptsIff | client.py:22-70 | the audit accepts exactly when the chain is non-empty, every block passes index, proof of work and digest, every later block passes link, time and signature, and the `tx_id`s of blocks 1 .. n-1 are distinct |
| ClientAudit.ClientAcceptsExactly | client.py:22-70 | the client's checks hold exactly when the node's `valid_chain` accepts and block 0 also has index 0, a valid proof of work and a correct digest |
| ClientAudit.ClientAcceptImpliesServerAccept | client.py:22-70 | a chain the client accepts is accepted by the node's validator |
| ClientAudit.DecimalStringInjective | client.py:33 | different block indices print differently |
| ClientAudit.PrefixShape | client.py:33-68 | every rejection tag ends in `_`, is at least 12 characters long, and no two tags have the same length |
| ClientAudit.SplitAtLastNonDigit | client.py:33 | a tag ending in a non-digit followed by a run of digits splits in only one way |
| ClientAudit.ReasonInjective | client.py:22-70 | different verdicts give different reason strings, so a reason identifies the failing check and block |

## Left out

- HTTP and Flask routing, request parsing, status codes and JSON responses are not modelled. Each handler's result is a datatype (`SubmitOutcome`, `RegisterOutcome`), with the response's meaning named in a comment.
- File I/O (`save_chain`, `json.load`) is not modelled. The store is the field `Node.chain`, and an unreadable file is the empty chain.
- The canonical JSON encoder, SHA-256 and RSA PKCS#1 verification are opaque functions passed in as `Primitives`. Their own behaviour (collision resistance, unforgeability) is not modelled.
- RSA verification has three outcomes: verified, mismatch (`rsa.VerificationError`) or any other exception. The validator and the client audit reject both failures; `api_update_data` crashes on the third.
- `urlparse(node).netloc or urlparse(node).path` is the function parameter `netlocOf`.
- `int(time.time())` is the parameter `now`. Peer fetches over the network are a sequence of responses, one per registered peer, in the iteration order of the set `peer_nodes`, with `None` for a failed request or a status other than 200. That order is arbitrary, so "first on ties" (`Consensus.ScanPicksFirstLongest`) means first in that iteration order.
- `requests.get` is called without a timeout (server.py:148): a peer that accepts the connection and never answers blocks `resolve_conflicts` forever. The model assumes every fetch returns, with a response or `None`.
- Mining.MineBlock: assumes that some nonce meets the target (`Minable`). Mining that never terminates is not modelled; the node's mining methods require `AlwaysMinable`.
- The diagnostic `print` calls (server.py:125, 137, 219) are not modelled; they do not affect any result or state.
- Concurrency between Flask request threads is not modelled: each handler runs as one atomic method.
- `tx_id`s are JSON values compared structurally. Python's `1 == True` set membership and the `TypeError` raised by an unhashable (list or mapping) `tx_id` are not modelled.
- Blocks with missing keys, extra keys or ill-typed fields are not modelled: every block has exactly these eight fields with their intended types. The source hashes whatever keys a block holds (server.py:54-57, client.py:16-19), so a block carrying an extra key, which changes its digest, cannot be represented. So the `KeyError` paths of `valid_chain` and `verify_locally` are absent, and so is the request body missing `payload`, `signature` or `public_key`.
- Floating-point values are not modelled: JSON numbers are integers only. This drops float timestamps, float payload values and float `tx_id`s, including `0.0` being falsy in `not tx_id` (server.py:177) and `1.0 == 1` in set membership.
- The list `registered_nodes` built in `register_nodes` is never used; the response lists the whole peer set, which `Registered` carries.
- `api_get_chain` and the `/api/nodes/resolve` route only wrap the modelled operations and return JSON.
- The command-line scripts `register.py`, `update.py` and `setup_keys.py` are not part of this model, nor is the client's `__main__` block, which fetches a chain and prints the audit.
