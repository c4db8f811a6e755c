# Beerus: proof checking, felts, cached reads and head tracking

A Dafny model of the parts of Beerus that decide which data from an untrusted Starknet node is believed:

- the Merkle-Patricia proof checker (`src/proof.rs`): the fold of a proof from leaf to root, the contract
  state hash, the global root, and `verify`, which puts them together;
- the bit and hexadecimal arithmetic beneath it (`src/util.rs`, `src/gen.rs`, `src/exe/map.rs`, `src/client.rs`);
- the process-wide caches in front of the verifying reader (`src/exe/cache.rs`, `src/exe/mod.rs`);
- the head of the chain, the resolution of requested blocks against it, and the reads and calls made on it
  (`src/bin/beerus.rs`, `src/rpc.rs`);
- the answering of JSON-RPC batches (`src/rpc.rs`).

`dafny verify dfyconfig.toml` checks the whole project.

## How it is modelled

What the program calls but does not define is a member of a `Platform` value: the two hashes, what the field
library makes of unusual hexadecimal text, how the execution engine writes a storage key, and whether the
build checks for integer overflow. Every theorem holds for all platforms. Nothing is assumed of the hashes, so
soundness is stated by extraction: the claim holds, or a named function of the inputs returns two different
nodes (or two Poseidon inputs) with one hash, or a node with hash 0 where a trie is empty, taken from the proofs
themselves or from the trie.

Integers are those of a 64-bit machine: lengths are `i64`, converted to `u64` and `usize` as the code does,
and the outcomes of a call are `Ok`, `Err(code)` and `Panic`.

The chain of results about proofs:

1. `parse_proof` is the recursive `Parse` (`ParseProof`), and returns a hash exactly for `Consistent` nodes
   (`ExactAcceptance`), for all lengths and in both builds. It panics exactly where `PanicExact` says.
2. Acceptance checks an edge against what lies below it only next to the leaf, and never compares the summed
   lengths with 251. So the promise that an accepted proof ties the value to the returned root does not hold
   of acceptance alone: below any edge of an accepted proof the rest can be exchanged for an edge to any value
   (`AcceptanceStopsAtEdges`), and the empty proof returns its own value (`EmptyProofAccepted`). Module `Extent`
   gives the exact condition for a caller that checks only the lengths: that they are at least 1 and make up the
   key. For a trie and a key, it is whether the first edge on the way to the key, if there is one, ends above the
   leaves (`InnerEdge`); the key need not be held, nor agree with the edge's path. If it does, every value is
   accepted with the trie's root (`EdgeLeavesValueOpen`); if not, every accepted proof carries the trie's value or
   exhibits a collision (`FullLengthBinds`). For `verify` and a state the same is decided by the way to the
   address in the contract trie, where such an edge leaves the whole contract open (`EdgeLeavesContractOpen`),
   and the way to the key in the contract's storage trie (`EdgeLeavesStorageOpen`): with either any value is
   accepted (`FullLengthLeavesOpen`), with neither only the state's (`FullLengthMatchesState`).
3. A caller can close the gap by checking the links of the edges as well, from the key and the nodes without the
   value (`Linked`). `AcceptedIsPath` shows that this is exact for every accepted proof: its nodes form an
   authentication path if and only if they are linked. Authentication paths bind (`PathsBind`), agree with every
   trie that has their root (`PathMatchesTrie`), and exist for every key of a trie (`ProveAuthenticates`).
4. A proof is `Tied` to a trie if it has full length and, where the way to the key has an inner edge, is linked. So a
   linked proof is tied to every trie (`LinkedIsTied`). For tied proofs follow the soundness of `parse_proof`
   (`AcceptedProofMatchesTrie`), of `verify` over two-level states in which a contract may have no storage
   (`AcceptedResultMatchesState`), of every value served through the caches (`ServedMatchesState`), and, while the
   head moves, of every value `getStorageAt` returns (`ReturnedMatchesState`) or a call is served
   (`CallsMatchState`). That a value "was verified" always means the recorded reply that gave it: since any value
   has some proof behind an edge, it would say nothing that some proof of it exists.

The theorems share one definition of each hash and of reading a text. Module `Formulas` and `ContractAccepted` write
the hashes out, down to the names and numbers that go into them, and module `KeyTexts` what key texts are read as.

`verify` compares three roots as texts. `VerifyExact` shows the consequence: it accepts exactly when the chain
of hashes closes as numbers and those three texts are written in lower case without leading zeros.

Where the code and its documentation differ, the model follows the code: `contract_state_hash_version` is
documented as the version used for the state hash, but the code hashes the constant 0; the storage-key
expression in `src/gen.rs` leaves its first alternative unanchored and refuses short keys whose first digit is
above 7 (`KeyEightRefused`); a request for a block above the head is
answered with the head.

## Model

| member | source | states |
|---|---|---|
| Proofs.ParseProof | src/proof.rs:208-315 | the reversed loop with `hold` and `path_len` computes the root-first fold `Parse`, early returns and panics included |
| Proofs.HashEdge | src/proof.rs:234-278 | the edge arm, with the mask subtraction and the length sum wrapping or panicking as the build does |
| Proofs.HashBinary | src/proof.rs:279-310 | the binary arm, with the key index out of range exactly when the height is not 1 to 251 |
| Proofs.EdgeHash | src/proof.rs:255-265 | for every child, path and i64 length, the edge's hash is Pedersen(child, path) + length modulo P, a negative length counting as its 64-bit pattern; edges that differ in length alone have different hashes |
| Acceptance.FoldGoing | src/proof.rs:231-314 | the fold gets to the top iff all nodes parse and are consistent, and then holds the first node's hash and the sum of the lengths as an i64 |
| Acceptance.ExactAcceptance | src/proof.rs:208-315 | over every input, `parse_proof` returns r iff everything parses, the leaf edge hashes like (value, low key bits), every binary node hashes the same with its key-selected child replaced by the hash below, and r is the canonical text of the first node's hash |
| Acceptance.KeyIndexSafety | src/proof.rs:231-308 | with nonnegative lengths summing to at most 251: no panic, no wrap, the same result in both builds, and `path_len` is the height |
| Acceptance.BitReadIsBitAtDepth | src/proof.rs:298-303 | when the lengths sum to 251, the bit read at a binary node is the key bit at its depth from the root |
| Acceptance.PanicExact | src/proof.rs:259-300 | for all lengths and both builds, the fold panics iff a node with no key bit to read, or under overflow checks with a sum or mask out of range, lies above nodes it gets through |
| Acceptance.ParseErrorExact | src/proof.rs:208-315 | for all inputs, `parse_proof` fails, always with -32701, iff the key or the value does not parse or the fold reaches a node that does not parse and has not panicked there; all else it refuses is `None` |
| Soundness.AcceptedIsPath | src/proof.rs:229-314 | an accepted proof is an authentication path with the same root iff its edges are linked and its lengths sum to 251 |
| Soundness.PathsBind | src/proof.rs:229-314 | two paths for one key and root are equal and carry one value, or the first nodes in which they differ collide |
| Soundness.AcceptedProofsBind | src/proof.rs:229-314 | two accepted linked proofs with one key and result carry one value, whatever their shapes, or a collision is extracted |
| Soundness.PathMatchesTrie | src/proof.rs:229-314 | a path to a trie's root carries the value the trie has at the key, or it and the trie's own nodes exhibit a collision |
| Soundness.ProveAuthenticates | etc/spec/pathfinder_api_openrpc.json:146-153 | the root-first node list of an honest prover is a path from the trie's root to the key's value |
| Soundness.PathIsAccepted | src/proof.rs:229-314 | every authentication path is accepted and linked |
| Soundness.HonestProofAccepted | src/proof.rs:208-315 | for every well-formed trie of height 251 and every key in it, the honest proof makes `parse_proof` return exactly the trie's root |
| Extent.AcceptanceStopsAtEdges | src/proof.rs:257-277 | cutting an accepted proof with nonnegative lengths within the key off under any of its edges and completing it by an edge to any value gives an accepted proof with the same result and the same length |
| Extent.CutAtEdgeAccepted | src/proof.rs:229-314 | for every trie, every key whose way meets an edge, held or not, and every value: the trie's nodes down to the first edge and an edge to the value are accepted with the trie's root, the lengths make up the height, and are at least 1 if the edge is an inner one |
| Extent.EdgeLeavesValueOpen | src/proof.rs:208-315 | so `parse_proof` returns the trie's root for every such key and every value, from a proof of length 251, without lengths under 1 where the edge is an inner one |
| Extent.FullLengthBinds | src/proof.rs:229-314 | the converse: where the way to a key has no inner edge, every accepted proof with lengths of at least 1 that sum to 251 and with the trie's root carries the trie's value, or a collision is extracted |
| Extent.EmptyProofAccepted | src/proof.rs:229-314 | for every key and value the empty proof returns the value itself, so with a trie's root as value it returns that root |
| Extent.AcceptedProofMatchesTrie | src/proof.rs:208-315 | if `parse_proof` returns a trie's root for a proof that is linked, or has full length where the way to the key has no inner edge, the trie maps the key to the value, or a collision is extracted |
| Formulas.AcceptedRebuilds | src/proof.rs:208-315 | what an accepted linked proof returns is the text of the root rebuilt with the two hash formulas from the value, the key bits, the siblings and the lengths alone |
| Formulas.RootIsCommitted | src/proof.rs:255-305 | the root of a trie in all the theorems is, at every node, Pedersen(left, right) or Pedersen(child, path number) + path length modulo P |
| Formulas.OneEdgeProof | src/proof.rs:234-278 | for every key, value and length 0 to 251, the one-edge proof returns the text of Pedersen(value, key mod 2^length) + length modulo P |
| Formulas.OneBinaryProof | src/proof.rs:279-310 | a proof of one binary node is accepted iff Pedersen(left, right) is unchanged by putting the value right for an odd key and left for an even one |
| EndToEnd.StorageAccepted | src/proof.rs:44-73 | `verify_storage_proofs` accepts iff the first storage proof is accepted and the contract's root is the canonical text of its result |
| EndToEnd.VersionIsName | src/proof.rs:179-180 | the first input of the global root is "STARKNET_STATE_V0" as a big-endian number |
| EndToEnd.ContractAccepted | src/proof.rs:75-198 | `verify_contract_proof` accepts iff the contract proof is accepted for H(H(H(class hash, root), nonce), 0) and both commitments are the canonical text of Poseidon over the number of "STARKNET_STATE_V0", the proof's result and the class commitment |
| EndToEnd.VerifyExact | src/proof.rs:30-206 | `verify` accepts iff the chain of hashes closes as numbers and the three roots are canonical texts |
| EndToEnd.WrittenAccepted | src/proof.rs:30-206 | every chain of hashes that closes as numbers, written canonically, is accepted by `verify` for its root, address, key and value |
| EndToEnd.VerifyPanicExact | src/proof.rs:30-132 | for every result, `verify` panics iff the list of storage proofs is present and is empty, or its first fold panics, or the storage part is accepted, the state hash computes and the contract fold panics |
| EndToEnd.VerifyErrorExact | src/proof.rs:30-206 | `verify` fails with -32701 iff the storage fold fails, or, after an accepted storage part, the state hash or the contract fold does; every other refusal, missing data included, is -32700 |
| EndToEnd.VerifyPanicInRange | src/proof.rs:30-132 | with lengths within the key only the empty list panics, and the only error codes are -32700 and -32701 |
| States.HonestAnswerAccepted | src/proof.rs:30-206 | for every valid two-level state, its other contracts with storage or without, and every key it holds, `verify` accepts the honest answer against the state's root |
| States.EdgeLeavesStorageOpen | src/proof.rs:30-206 | for every valid state, every contract with storage, every key behind an edge of its storage trie, held or not, and every value, `verify` accepts a result against the state's root, its contract proof linked, its storage proof of full length where the edge is an inner one |
| States.EdgeLeavesContractOpen | src/proof.rs:30-206 | at every address behind an edge of the contract trie, whether or not a contract lives there, `verify` accepts a result for every class hash, nonce, key and value, with both proofs of full length where the edge is an inner one |
| States.FullLengthLeavesOpen | src/proof.rs:30-206 | for every valid state, address and key, if the way to the address or to the contract's key has an inner edge, `verify` accepts a full-length result for every value |
| States.FullLengthMatchesState | src/proof.rs:30-206 | the converse: without such an edge every accepted full-length result gives the value the state holds, or a collision (or a node hashing to the root 0 of an empty trie) is extracted |
| States.AcceptedResultMatchesState | src/proof.rs:30-206 | a result accepted against a state's root, each proof linked or of full length where its trie has no inner edge on the way, gives the value the state holds at the address and key, or a Pedersen or Poseidon collision, or a node hashing to the root 0 of an empty trie, is extracted |
| States.AcceptedResultsBind | src/proof.rs:30-206 | two results accepted for one global root, address and key, with linked proofs, carry one value, or a collision is extracted |
| States.ClaimsBind | src/proof.rs:75-206 | besides the value, two closing claims agree on class hash, nonce, storage root and class commitment, or a collision is extracted |
| States.StateHashBinds | src/proof.rs:134-174 | equal state hashes have equal inputs, or the outermost level at which they differ is a collision |
| States.SingleContractIsValid | src/proof.rs:137-137 | the states the theorems speak of exist: one contract, with storage or without, under its own state hash |
| BitSlices.KeyBitsAreLowBits | src/util.rs:6-8 | `felt_to_bits` of an element's bytes is its 251 low bits, most significant first |
| BitSlices.FeltFromBits | src/util.rs:10-32 | on the 32-byte buffer: fails iff the length is not 251 or the mask exceeds 251, and otherwise gives the number of the unmasked bits |
| BitSlices.CopyFromBitslice | src/util.rs:28-29 | writing the slice at an offset replaces exactly the bits from there to the end of the buffer |
| BitSlices.MaskedKeyIsRemainder | src/util.rs:6-32 | converting to bits and back with m bits masked is reduction modulo 2^(251 - m) |
| BitSlices.KeyOfUnmasked | src/util.rs:6-32 | `felt_to_bits` inverts the unmasked `felt_from_bits` on every 251-bit string |
| BitSlices.KeysAlias | src/util.rs:6-8 | two elements give the same key iff they agree modulo 2^251, so keys below 2^251 are distinct |
| Platforms.FieldBounds | src/util.rs:31-31 | 2^251 < P < 2^252, so a key never wraps around and a hash always has at most 63 digits |
| Platforms.ModulusIsStarkPrime | src/util.rs:31-31 | P is 2^251 + 17 * 2^192 + 1 |
| FeltText.TryNewExact | src/gen.rs:1000-1036 | exactly which texts `try_new` takes; the number is kept, and every refusal is error 1001 |
| FeltText.TryNewKeepsDigits | src/gen.rs:1007-1025 | the result is "0x0" or the digits given, in their letter case, without leading zeros |
| FeltText.CaseIsIrrelevant | src/gen.rs:1000-1036 | a text is taken iff its lower-case form is |
| FeltText.OneDigitTaken | src/gen.rs:1000-1002 | the one-character texts taken are the 22 hexadecimal digits of both cases |
| FeltText.TryNewIdempotent | src/gen.rs:1000-1036 | a felt read again is unchanged |
| FeltText.NonzeroAccepted | src/gen.rs:1000-1036 | every 0x text of nonzero value with at most 63 significant digits is taken with its value |
| FeltText.EqualNumbersNormaliseAlike | src/gen.rs:1000-1036 | two accepted texts denote one number iff their felts are equal up to letter case |
| FeltText.PrintOfValue | src/gen.rs:1000-1036 | printing a felt's number gives its lower-case text; it is below 2^252, and zero only for "0x0" |
| FeltText.PrintersAgree | src/client.rs:165-172 | `as_felt` and the conversion in `map.rs` agree on every byte string and succeed iff the number is below 2^252, with its lower-case text |
| Platforms.PrintersGiveText | src/exe/map.rs:18-31 | on the bytes of a field element both printers give the text that `{:x}` and `try_new` give |
| Platforms.PrintParseRoundTrip | src/exe/map.rs:9-31 | every field element printed is accepted and parses back to itself, checked or unchecked |
| Cache.LruCache.Put | src/exe/cache.rs:28-31 | after a put the entry is there, the bound holds, at most old entries remain, and nothing is lost while there is room |
| Cache.ReadThrough | src/exe/cache.rs:134-147 | a hit is returned whatever the inner read would answer; a failed read leaves the cache as it was; a success is stored |
| Cache.CachedState.GetStorageAt | src/exe/cache.rs:129-148 | the read through the storage cache, under block hash number, address and key |
| Cache.CachedState.GetClassHashAt | src/exe/cache.rs:158-172 | the same through the class-hash cache |
| Cache.CachedState.GetCompiledContractClass | src/exe/cache.rs:174-192 | the same through the contract-class cache |
| Cache.ProxyVerifies | src/exe/mod.rs:161-205 | the proxy returns a value iff the key it displays is a storage key and the very reply it got is "0x0", or its own proof passed `verify` for that text against the reader's root, the canonical address and the key; the value is the reply's |
| Cache.ProxyFails | src/exe/mod.rs:161-205 | every other outcome of the proxy is 1001 for a text that is no storage key, or the failure of the node's value, of its proof, or of `verify`, in this order |
| CacheRuns.SharedEntry | src/exe/cache.rs:33-43 | two reads share an entry iff their block hashes are equal up to letter case and they ask the same |
| CacheRuns.ServedIsFetched | src/exe/cache.rs:129-192 | at every point of every run, a value served, cached or not, is the answer to a fetch made before that point, for the same request, by a reader whose session missed it on the same block |
| CacheRuns.CachedReadsAgree | src/exe/cache.rs:129-192 | in every interleaving with any evictions, where each block hash fixes one state, every successful read equals the uncached read |
| CacheRuns.ServedIsVerified | src/exe/cache.rs:129-148 | at every point of every run, whatever the node replies, a storage value served was fetched before for its block, address and key, and in every such fetch of it the fetch's own reply was "0x0" or its own proof was verified against the fetching reader's root |
| CacheRuns.ServedClassesAreReplies | src/exe/mod.rs:228-275 | at every point of every run, a class or class hash served, cached or not, is the node's own reply to a fetch made before for the same request on the same block |
| CacheRuns.ServedIsVerifiedOwnRoot | src/exe/mod.rs:184-204 | where the readers on its block hold one root, those replies were verified against the served reader's own root |
| ServedStates.VerifiedAnswerMatchesState | src/exe/mod.rs:189-204 | a nonzero reply verified against a state's root with proofs tied to the state's tries, its text read alike by both parsers, gives the value the state holds at the address and key, or a collision is extracted from it |
| ServedStates.ServedMatchesState | src/exe/cache.rs:129-148 | at every point of every run, whatever the node replies, for every block whose readers hold one state's root: a storage value served, cached or not, was fetched before for the same request, and in every such fetch of it, if the fetch's reply is "0x0" or its proofs are tied and its text is read alike, the value is zero or the state's, or that reply exhibits a collision |
| Calls.CallsReadPublishedHeads | src/rpc.rs:284-298 | in every interleaving of polls, storage reads and calls, every reader of the caches holds a published head, and the published heads are the gateway's answers without repetitions, the last perhaps still to be written |
| Calls.CallOpens | src/rpc.rs:284-298 | from every state a call can start under a free number, and holds the hash and the root of the head shared at that moment |
| Calls.CallReadsSharedHead | src/exe/mod.rs:133-141 | a read of such a call, run alone, is answered from the cache of that block, or else with the uncached outcome for that root |
| Calls.SidesAreIndependent | src/rpc.rs:284-298 | polls and storage reads neither wait for calls nor change their readers, and the other way round |
| Calls.CallsAreVerified | src/rpc.rs:284-298 | where the heads published with a block hash have one root, a storage value served to a call on it, cached or not, was fetched by a call on that block and verified, in the fetch's own reply, against the root the served call holds, or that reply was "0x0" |
| Calls.CallsMatchState | src/rpc.rs:284-298 | where the heads published with a block hash carry a state's root, every storage value served to calls on that block is settled against the state as in the row of `ServedMatchesState` |
| ServedStates.ReturnedMatchesState | src/rpc.rs:410-443 | in every interleaving of polls and requests, a value `getStorageAt` returns was asked for and verified against the root of a safe target; if that is a state's root and the proofs are tied to its tries, it is the value the state holds at the address and key asked for, or a collision is extracted |
| Platforms.BelowPParsedAlike | src/exe/map.rs:9-16 | below P the checked and the unchecked parser read one number |
| KeyTexts.KeyTextRead | src/proof.rs:213-218 | a "0x" text of 1 to 64 digits below P is read as the number its normalised form denotes, whose canonical text is that form in lower case; a run of zeros, which cannot be normalised, is read as 0 |
| KeyTexts.PaddedKeyRead | src/proof.rs:213-218 | a number written with any leading zeros up to 64 digits is read as that number |
| KeyTexts.SameKeySameAnswer | src/proof.rs:30-73 | `parse_proof` and `verify` answer alike for key texts of one number, a text and its normalised form in particular |
| KeyTexts.DisplayedKeyExact | src/gen.rs:1650-1653 | the canonical text of a number is a storage key iff it is zero or has at most 63 digits and a first digit of at most 7 |
| KeyTexts.KeyEightRefused | src/exe/mod.rs:171-172 | so the key 8, below 2^251, is refused with 1001 where it is displayed canonically |
| KeyTexts.ZeroReplyAnswered | src/exe/mod.rs:171-187 | a zero reply is answered with zero for every key displayed with a leading zero, or canonically with a first digit of at most 7 |
| CacheRuns.CachesHoldServedReads | src/exe/cache.rs:142-147 | in every run the caches hold only results of successful reads, within 1024, 256 and 256 entries |
| CacheRuns.ReadAloneIsReadThrough | src/exe/cache.rs:129-148 | the separate get, fetch and put steps, uninterrupted, do what the reading methods promise |
| CacheRuns.MissedReadAlone | src/exe/cache.rs:129-192 | a read that misses and runs alone returns the node's own outcome for a class or class hash, and the proxy's for a storage value, errors included |
| CacheRuns.NeverStuck | src/exe/cache.rs:129-192 | in every run, whatever the other readers do, a reader's next step can happen: any lookup, any reply, and storing what it fetched within the cache's size |
| CacheRuns.ChangesAreInvisible | src/exe/cache.rs:204-254 | the `set_*` and `increment_nonce` calls, which do nothing in the code, can be left out of a run without changing a read, cache or answer |
| Heads.Poll | src/bin/beerus.rs:28-44 | the loop keeps `current` equal to the shared head and publishes exactly the compressed successes |
| Heads.CompressExact | src/bin/beerus.rs:32-37 | the published sequence keeps one head of every run of equal ones, in order, and no two neighbours are equal |
| Heads.PublishedHistory | src/bin/beerus.rs:20-45 | in every interleaving with requests, what is published or about to be is the gateway's successes without repetitions |
| Heads.HistoryGrows | src/bin/beerus.rs:28-44 | a longer run only adds to the history, and at every point `current` is the shared head and the last published |
| Heads.ResolutionExact | src/rpc.rs:138-217 | a request resolves to (block, root) iff that pair is the snapshot's own, or is an upstream header that matches the request and lies below the snapshot |
| Heads.ResolutionErrors | src/rpc.rs:119-217 | a refused request fails with the node's code if the node was asked and failed, with 1001 if the head's number is no block number, and otherwise with -1; the node is asked below the head's number and for a hash other than the head's |
| Heads.ReadCompletes | src/rpc.rs:410-443 | from every state, for every block with a safe target and all replies of the node, a `getStorageAt` can run to its end and is answered once, with its own outcome |
| Heads.GetStorageAtExact | src/rpc.rs:418-442 | that outcome is the node's value iff its proof verifies it, and otherwise the failure of the value, of the proof, or of `verify`, in this order |
| Heads.UpdateArrives | src/bin/beerus.rs:32-37 | with no request resolving, an answer of the gateway other than the current head becomes the shared and the current head and is published once |
| Heads.OnlyWritesWait | src/bin/beerus.rs:28-44 | a pending update can be written iff no request resolves; polls and requests never wait for each other |
| Heads.ReadsAreVerified | src/rpc.rs:410-443 | in every interleaving, each answered `getStorageAt` was asked for, resolved to such a pair for a published snapshot, and returned the node's value iff that passed `verify` against the pair's root, zero values included; a resolving request's snapshot is the shared head |
| Batch.HandleRequest | src/rpc.rs:219-244 | responses correspond in order to the requests with an id, each with that id and its own result; notifications get none |
| Batch.CallsExact | src/rpc.rs:232-242 | the answered positions are exactly those with an id, once each and ascending |

## Left out

- Extent.AcceptedProofMatchesTrie: asks for linked nodes where the way to the key has an inner edge, because the code does not check the links; Extent.EdgeLeavesValueOpen shows that it has to.
- Soundness.AcceptedProofsBind: asks for linked nodes; Extent.AcceptanceStopsAtEdges shows two accepted proofs that do not bind.
- States.AcceptedResultMatchesState: asks for tied proofs; States.FullLengthLeavesOpen shows that full length is not enough.
- States.AcceptedResultsBind: asks for linked proofs, for the same reason.
- ServedStates.VerifiedAnswerMatchesState: asks for tied proofs, for the same reason, and for a value text that both parsers of the field library read alike, as all below P are.
- ServedStates.ServedMatchesState: says what a value is worth only if a reply that gave it passes those two checks.
- Calls.CallsMatchState: the same, and the execution between the reads of a call is not modelled.
- ServedStates.ReturnedMatchesState: asks for tied proofs, for the same reason, and that the root is a state's: below the head the root comes from the node's own header.
- Cache.LruCache.Put: which entry makes room is left open; the order of recency is that of a library which is not part of this model.
- Heads.Poll: covers every finite part of the endless loop; timing and liveness of polling are not modelled.
- Hash functions: the internals of Pedersen and Poseidon are not part of this model.
- 32-bit targets: on WebAssembly `usize` has 32 bits and a length is truncated when cast; the model has the 64-bit casts.
- Error messages: only the codes are modelled, and the error types of the layers are merged into one.
- Requests to a node, HTTP, the RPC server's life cycle and the browser bindings: replies are inputs of the model.
- Execution of calls, class decoding and compilation: foreign libraries; reads of classes and nonces are unverified in the code, too.
- The pass-through reads `get_nonce_at` and `get_compiled_class_hash`: they touch no cache.
- Generated RPC stubs, most data types, configuration and gateway field extraction: single-branch code.
- Proofs that a key is absent: the checker has none, and zero values are served without one.
