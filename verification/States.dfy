/** Two-level states, the honest answers about them, and what an accepted answer establishes. */
module States {
  import opened Wrappers
  import opened Numbers
  import opened Platforms
  import opened FeltText
  import opened BitSlices
  import opened Proofs
  import opened Acceptance
  import opened Tries
  import opened Soundness
  import opened Extent
  import opened EndToEnd

  /** A contract; one that never stored anything has no storage trie. */
  datatype Contract = Contract(classHash: Field, nonce: Field, storage: Option<Trie>)

  /** A state: a trie from contract addresses to the state hashes of contracts, none while there are no contracts. */
  datatype State = State(contracts: map<seq<bool>, Contract>, trie: Option<Trie>, classCommitment: Field)

  predicate ValidTrie(t: Option<Trie>) {
    t.Some? ==> WellFormed(t.value, KEY_BITS)
  }

  /** The root of a possibly empty trie: an empty one has root 0 and no keys. */
  function RootOf(pl: Platform, t: Option<Trie>): Field
    requires ValidTrie(t)
  {
    if t.None? then 0 else RootHash(pl, t.value, KEY_BITS)
  }

  function LookupIn(t: Option<Trie>, key: seq<bool>): Option<Field> {
    if t.None? then None else Lookup(t.value, key)
  }

  function ContractHash(pl: Platform, c: Contract): Field
    requires ValidTrie(c.storage)
  {
    StateHash(pl, c.classHash, RootOf(pl, c.storage), c.nonce)
  }

  ghost predicate ValidState(pl: Platform, s: State) {
    && ValidTrie(s.trie)
    && (forall a :: a in s.contracts ==> ValidTrie(s.contracts[a].storage))
    && (forall a :: |a| == KEY_BITS ==>
          LookupIn(s.trie, a) == if a in s.contracts then Some(ContractHash(pl, s.contracts[a])) else None)
  }

  function StateRoot(pl: Platform, s: State): Field
    requires ValidTrie(s.trie)
  {
    GlobalRoot(pl, RootOf(pl, s.trie), s.classCommitment)
  }

  /** There are valid states: one contract, with storage or without, at the end of a single edge. */
  lemma SingleContractIsValid(pl: Platform, address: seq<bool>, c: Contract, classCommitment: Field)
    requires |address| == KEY_BITS && ValidTrie(c.storage)
    ensures ValidState(pl, State(map[address := c], Some(Path(address, Leaf(ContractHash(pl, c)))), classCommitment))
  {
    var leaf := Leaf(ContractHash(pl, c));
    forall a | |a| == KEY_BITS
      ensures Lookup(Path(address, leaf), a) == if a == address then Some(leaf.value) else None
    {
      OnlyItsKey(address, leaf.value, a);
    }
  }

  lemma OnlyItsKey(bits: seq<bool>, value: Field, key: seq<bool>)
    requires |key| == |bits|
    ensures Lookup(Path(bits, Leaf(value)), key) == if key == bits then Some(value) else None
  {
    assert bits <= key ==> key == bits;
    assert key[|bits|..] == [];
  }

  /** The value a state holds for a storage key of a contract. */
  function Read(s: State, address: seq<bool>, key: seq<bool>): Option<Field> {
    if address in s.contracts then LookupIn(s.contracts[address].storage, key) else None
  }

  /** The state has a contract at an address, and the contract has a storage trie. */
  predicate HasStorage(s: State, address: seq<bool>) {
    && s.trie.Some? && ValidTrie(s.trie)
    && address in s.contracts && s.contracts[address].storage.Some? && ValidTrie(s.contracts[address].storage)
  }

  function StorageTrie(s: State, address: seq<bool>): (t: Trie)
    requires HasStorage(s, address)
    ensures WellFormed(t, KEY_BITS)
  {
    s.contracts[address].storage.value
  }

  /** The claim about a state made with `storage` as the storage proof and the rest as an honest node gives it. */
  function ClaimWith(pl: Platform, s: State, address: seq<bool>, key: seq<bool>, storage: seq<Node<Field>>,
                     value: Field): Claim
    requires HasStorage(s, address) && |address| == KEY_BITS
  {
    var c := s.contracts[address];
    Claim(key, value, storage, c.classHash, RootOf(pl, c.storage), c.nonce,
          address, Prove(pl, s.trie.value, KEY_BITS, address), s.classCommitment, StateRoot(pl, s))
  }

  /** The claim of an honest node. */
  function HonestClaim(pl: Platform, s: State, address: seq<bool>, key: seq<bool>, value: Field): Claim
    requires HasStorage(s, address) && |address| == |key| == KEY_BITS
  {
    ClaimWith(pl, s, address, key, Prove(pl, StorageTrie(s, address), KEY_BITS, key), value)
  }

  /** Such a claim closes if its storage proof is accepted with the contract's own root. */
  lemma ClaimWithCloses(pl: Platform, s: State, address: seq<bool>, key: seq<bool>, storage: seq<Node<Field>>,
                        value: Field)
    requires ValidState(pl, s) && |address| == |key| == KEY_BITS && HasStorage(s, address)
    requires Consistent(pl, key, value, storage)
    requires Top(pl, storage, value) == RootHash(pl, StorageTrie(s, address), KEY_BITS)
    ensures Closes(pl, ClaimWith(pl, s, address, key, storage, value))
    ensures Linked(pl, address, Prove(pl, s.trie.value, KEY_BITS, address))
  {
    hide StateHash, GlobalRoot, Prove, RootHash, Consistent, Linked;
    var hash := ContractHash(pl, s.contracts[address]);
    ProveAuthenticates(pl, s.trie.value, address, hash);
    PathIsAccepted(pl, Prove(pl, s.trie.value, KEY_BITS, address), address, hash);
  }

  lemma StateHasTrie(pl: Platform, s: State)
    requires ValidState(pl, s)
    ensures ValidTrie(s.trie)
  {
  }

  lemma HeldKeyHasStorage(pl: Platform, s: State, address: seq<bool>, key: seq<bool>)
    requires ValidState(pl, s) && |address| == KEY_BITS && Read(s, address, key).Some?
    ensures HasStorage(s, address) && Lookup(StorageTrie(s, address), key) == Read(s, address, key)
  {
    assert LookupIn(s.trie, address).Some?;
  }

  /** End-to-end completeness: for every state and every key it holds, `verify` accepts the honest answer
      against the state's root. */
  lemma HonestAnswerAccepted(pl: Platform, s: State, addressText: Felt, keyText: string, value: Field)
    requires ValidState(pl, s) && FromHex(pl, addressText).Some? && FromHex(pl, keyText).Some?
    requires Read(s, KeyBits(FromHex(pl, addressText).value), KeyBits(FromHex(pl, keyText).value)) == Some(value)
    ensures
      var address, key := KeyBits(FromHex(pl, addressText).value), KeyBits(FromHex(pl, keyText).value);
      && HasStorage(s, address)
      && var result := Written(pl, HonestClaim(pl, s, address, key, value));
      Verify(pl, result, Text(StateRoot(pl, s)), addressText, keyText, Text(value)).Ok?
  {
    var address, key := KeyBits(FromHex(pl, addressText).value), KeyBits(FromHex(pl, keyText).value);
    StateHasTrie(pl, s);
    HeldKeyHasStorage(pl, s, address, key);
    hide Verify, FromHex, Text, Prove, RootHash, Lookup, ValidState, Consistent, Authenticates, StateRoot, Written;
    hide KeyBits, Linked, Closes;
    var t := StorageTrie(s, address);
    ProveAuthenticates(pl, t, key, value);
    PathIsAccepted(pl, Prove(pl, t, KEY_BITS, key), key, value);
    ClaimWithCloses(pl, s, address, key, Prove(pl, t, KEY_BITS, key), value);
    WrittenAccepted(pl, HonestClaim(pl, s, address, key, value), addressText, keyText);
  }

  /** The honest claim with its storage proof cut off at the first edge and completed to any value. */
  function StorageCut(pl: Platform, s: State, address: seq<bool>, key: seq<bool>, w: Field): Claim
    requires HasStorage(s, address) && |address| == |key| == KEY_BITS && EdgeOnWay(StorageTrie(s, address), key)
  {
    ClaimWith(pl, s, address, key, CutAtEdge(pl, StorageTrie(s, address), key, key, w), w)
  }

  /** Acceptance by `verify` does not tie the value to the state's root behind an edge of the contract's storage
      trie: for every key there, held or not, and every value some result is accepted, its contract proof the
      honest one, its storage proof of full length if the edge ends above the leaves. */
  lemma EdgeLeavesStorageOpen(pl: Platform, s: State, addressText: Felt, keyText: string, w: Field)
    requires ValidState(pl, s) && FromHex(pl, addressText).Some? && FromHex(pl, keyText).Some?
    requires
      var address, key := KeyBits(FromHex(pl, addressText).value), KeyBits(FromHex(pl, keyText).value);
      HasStorage(s, address) && EdgeOnWay(StorageTrie(s, address), key)
    ensures
      var address, key := KeyBits(FromHex(pl, addressText).value), KeyBits(FromHex(pl, keyText).value);
      var c := StorageCut(pl, s, address, key, w);
      && Verify(pl, Written(pl, c), Text(StateRoot(pl, s)), addressText, keyText, Text(w)).Ok?
      && Linked(pl, address, c.contract)
      && Span(c.storage) == KEY_BITS && (InnerEdge(StorageTrie(s, address), key) ==> FullLength(c.storage))
  {
    var address, key := KeyBits(FromHex(pl, addressText).value), KeyBits(FromHex(pl, keyText).value);
    hide Verify, FromHex, Text, Prove, RootHash, ValidState, Consistent, StateRoot, Written, KeyBits, Linked, Closes;
    hide CutAtEdge, EdgeOnWay, InnerEdge;
    var t := StorageTrie(s, address);
    assert KeyBelow(key, KEY_BITS) == key;
    CutAtEdgeAccepted(pl, t, key, KEY_BITS, w);
    ClaimWithCloses(pl, s, address, key, CutAtEdge(pl, t, key, key, w), w);
    WrittenAccepted(pl, StorageCut(pl, s, address, key, w), addressText, keyText);
  }

  /** A claim about a contract that is made up: any class hash and nonce, a storage trie of one edge to the
      value, and the contract proof cut off at the first edge and completed to the state hash of all that. */
  function ContractCut(pl: Platform, s: State, address: seq<bool>, key: seq<bool>, classHash: Field, nonce: Field,
                       w: Field): Claim
    requires s.trie.Some? && ValidTrie(s.trie) && |address| == |key| == KEY_BITS && EdgeOnWay(s.trie.value, address)
  {
    var storage := [EdgeToLeaf(key, w, KEY_BITS)];
    var root := Top(pl, storage, w);
    var contract := CutAtEdge(pl, s.trie.value, address, address, StateHash(pl, classHash, root, nonce));
    Claim(key, w, storage, classHash, root, nonce, address, contract, s.classCommitment, StateRoot(pl, s))
  }

  lemma ContractCutCloses(pl: Platform, s: State, address: seq<bool>, key: seq<bool>, classHash: Field, nonce: Field,
                          w: Field)
    requires s.trie.Some? && ValidTrie(s.trie) && |address| == |key| == KEY_BITS && EdgeOnWay(s.trie.value, address)
    ensures
      var c := ContractCut(pl, s, address, key, classHash, nonce, w);
      && Closes(pl, c) && FullLength(c.storage)
      && Span(c.contract) == KEY_BITS && (InnerEdge(s.trie.value, address) ==> FullLength(c.contract))
  {
    hide StateHash, GlobalRoot, RootHash, Consistent, CutAtEdge, EdgeOnWay, InnerEdge, HashOf;
    var c := ContractCut(pl, s, address, key, classHash, nonce, w);
    EdgeAlone(pl, key, w);
    assert KeyBelow(address, KEY_BITS) == address;
    CutAtEdgeAccepted(pl, s.trie.value, address, KEY_BITS, ClaimedState(pl, c));
  }

  /** The edge from the root to a leaf is an accepted proof by itself. */
  lemma EdgeAlone(pl: Platform, key: seq<bool>, w: Field)
    requires |key| == KEY_BITS
    ensures Consistent(pl, key, w, [EdgeToLeaf(key, w, KEY_BITS)]) && FullLength([EdgeToLeaf(key, w, KEY_BITS)])
  {
    hide HashOf, Masked;
    ConsistentCons(pl, key, w, EdgeToLeaf(key, w, KEY_BITS), []);
    assert [EdgeToLeaf(key, w, KEY_BITS)] + [] == [EdgeToLeaf(key, w, KEY_BITS)];
  }

  /** Behind an edge of the contract trie the whole contract is open: at every address there, whether or not a
      contract lives at it, and for every class hash, nonce, key and value, some result is accepted, with both
      proofs of full length if the edge ends above the leaves. */
  lemma EdgeLeavesContractOpen(pl: Platform, s: State, addressText: Felt, keyText: string,
                               classHash: Field, nonce: Field, w: Field)
    requires FromHex(pl, addressText).Some? && FromHex(pl, keyText).Some?
    requires s.trie.Some? && ValidTrie(s.trie) && EdgeOnWay(s.trie.value, KeyBits(FromHex(pl, addressText).value))
    ensures
      var address, key := KeyBits(FromHex(pl, addressText).value), KeyBits(FromHex(pl, keyText).value);
      var c := ContractCut(pl, s, address, key, classHash, nonce, w);
      && Verify(pl, Written(pl, c), Text(StateRoot(pl, s)), addressText, keyText, Text(w)).Ok?
      && FullLength(c.storage)
      && Span(c.contract) == KEY_BITS && (InnerEdge(s.trie.value, address) ==> FullLength(c.contract))
  {
    var address, key := KeyBits(FromHex(pl, addressText).value), KeyBits(FromHex(pl, keyText).value);
    hide Verify, FromHex, Text, StateRoot, Written, KeyBits, Closes, CutAtEdge, EdgeOnWay, InnerEdge, EdgeToLeaf;
    ContractCutCloses(pl, s, address, key, classHash, nonce, w);
    WrittenAccepted(pl, ContractCut(pl, s, address, key, classHash, nonce, w), addressText, keyText);
  }

  /** What a disagreement yields: two nodes, or two Poseidon inputs, with one hash, or a node with hash 0,
      which is the root of an empty trie. */
  datatype Collision = Nodes(pair: Pair) | Poseidon(xs: seq<Field>, ys: seq<Field>) | ZeroHash(node: Node<Field>)

  predicate IsCollision(pl: Platform, c: Collision) {
    match c
    case Nodes(pair) => Collides(pl, pair.x, pair.y)
    case ZeroHash(node) => HashOf(pl, node) == 0 && (node.EdgeNode? ==> 1 <= node.len <= KEY_BITS)
    case Poseidon(xs, ys) => xs != ys && pl.poseidon(xs) == pl.poseidon(ys)
  }

  /** The outermost level of the state hash at which two contracts differ. */
  function StateDifference(pl: Platform, c: (Field, Field, Field), d: (Field, Field, Field)): Pair {
    var c0, d0 := pl.pedersen(c.0, c.1), pl.pedersen(d.0, d.1);
    var c1, d1 := pl.pedersen(c0, c.2), pl.pedersen(d0, d.2);
    if c1 != d1 then Pair(BinaryNode(c1, CONTRACT_STATE_HASH_VERSION), BinaryNode(d1, CONTRACT_STATE_HASH_VERSION))
    else if (c0, c.2) != (d0, d.2) then Pair(BinaryNode(c0, c.2), BinaryNode(d0, d.2))
    else Pair(BinaryNode(c.0, c.1), BinaryNode(d.0, d.1))
  }

  lemma StateHashBinds(pl: Platform, c: (Field, Field, Field), d: (Field, Field, Field))
    requires StateHash(pl, c.0, c.1, c.2) == StateHash(pl, d.0, d.1, d.2)
    ensures c == d || Collides(pl, StateDifference(pl, c, d).x, StateDifference(pl, c, d).y)
  {
  }

  function GlobalInput(pl: Platform, c: Claim): seq<Field> {
    [GLOBAL_STATE_VERSION, Top(pl, c.contract, ClaimedState(pl, c)), c.classCommitment]
  }

  function ContractFields(c: Claim): (Field, Field, Field) {
    (c.classHash, c.root, c.nonce)
  }

  /** The collision behind two claims that disagree, looked for from the global root down. */
  function Disagreement(pl: Platform, c: Claim, d: Claim): Collision
    requires |c.key| == |c.address| == KEY_BITS
  {
    if GlobalInput(pl, c) != GlobalInput(pl, d) then Poseidon(GlobalInput(pl, c), GlobalInput(pl, d))
    else if ClaimedState(pl, c) != ClaimedState(pl, d) then
      Nodes(Difference(pl, c.address, c.contract, ClaimedState(pl, c), d.contract, ClaimedState(pl, d)))
    else if ContractFields(c) != ContractFields(d) then Nodes(StateDifference(pl, ContractFields(c), ContractFields(d)))
    else Nodes(Difference(pl, c.key, c.storage, c.value, d.storage, d.value))
  }

  /** Both proofs of a claim are linked. */
  ghost predicate LinkedClaim(pl: Platform, c: Claim) {
    && |c.key| == |c.address| == KEY_BITS
    && Linked(pl, c.key, c.storage) && Linked(pl, c.address, c.contract)
  }

  lemma ClaimsBind(pl: Platform, c: Claim, d: Claim)
    requires Closes(pl, c) && LinkedClaim(pl, c) && Closes(pl, d) && LinkedClaim(pl, d)
    requires c.key == d.key && c.address == d.address && c.globalRoot == d.globalRoot
    ensures
      || (c.value == d.value && ContractFields(c) == ContractFields(d) && c.classCommitment == d.classCommitment)
      || IsCollision(pl, Disagreement(pl, c, d))
  {
    hide Consistent, Linked, StateHash, Difference;
    if GlobalInput(pl, c) == GlobalInput(pl, d) {
      assert GlobalInput(pl, c)[1] == GlobalInput(pl, d)[1] && GlobalInput(pl, c)[2] == GlobalInput(pl, d)[2];
      AcceptedProofsBind(pl, c.address, c.contract, ClaimedState(pl, c), d.contract, ClaimedState(pl, d));
      if ClaimedState(pl, c) == ClaimedState(pl, d) {
        StateHashBinds(pl, ContractFields(c), ContractFields(d));
        if ContractFields(c) == ContractFields(d) {
          AcceptedProofsBind(pl, c.key, c.storage, c.value, d.storage, d.value);
        }
      }
    }
  }

  /** End-to-end binding: two results that `verify` accepts for one global root, address and key, with linked
      proofs, carry the same value, or the collision found between them is one. */
  lemma AcceptedResultsBind(pl: Platform, globalRoot: Felt, address: Felt, key: string,
                            result: GetProofResult, value: Felt, other: GetProofResult, otherValue: Felt)
    requires Verify(pl, result, globalRoot, address, key, value).Ok?
    requires Verify(pl, other, globalRoot, address, key, otherValue).Ok?
    requires
      var c := Decoded(pl, result, globalRoot, address, key, value);
      var d := Decoded(pl, other, globalRoot, address, key, otherValue);
      && (c.Some? ==> LinkedClaim(pl, c.value)) && (d.Some? ==> LinkedClaim(pl, d.value))
    ensures
      var c := Decoded(pl, result, globalRoot, address, key, value);
      var d := Decoded(pl, other, globalRoot, address, key, otherValue);
      && c.Some? && d.Some? && |c.value.key| == |c.value.address| == KEY_BITS
      && (FromHex(pl, value) == FromHex(pl, otherValue) || IsCollision(pl, Disagreement(pl, c.value, d.value)))
  {
    VerifyExact(pl, result, globalRoot, address, key, value);
    VerifyExact(pl, other, globalRoot, address, key, otherValue);
    hide Verify, FromHex, Decode, LinkedClaim, Closes, Disagreement, IsCollision, CanonicalRoots;
    var c := Decoded(pl, result, globalRoot, address, key, value).value;
    var d := Decoded(pl, other, globalRoot, address, key, otherValue).value;
    ClaimsBind(pl, c, d);
  }

  /** The collision behind a proof that disagrees with a possibly empty trie; for an empty one, the first node
      of the proof itself. */
  function RootContradiction(pl: Platform, t: Option<Trie>, key: seq<bool>, nodes: seq<Node<Field>>, v: Field):
    Collision
    requires |key| == KEY_BITS && ValidTrie(t)
  {
    if t.Some? then Nodes(TrieDifference(pl, t.value, key, nodes, v))
    else ZeroHash(if nodes == [] then NO_PAIR.x else nodes[0])
  }

  lemma AcceptedMatchesRoot(pl: Platform, t: Option<Trie>, key: seq<bool>, nodes: seq<Node<Field>>, v: Field)
    requires |key| == KEY_BITS && ValidTrie(t)
    requires Consistent(pl, key, v, nodes) && Tied(pl, t, key, nodes)
    requires Top(pl, nodes, v) == RootOf(pl, t)
    ensures LookupIn(t, key) == Some(v) || IsCollision(pl, RootContradiction(pl, t, key, nodes, v))
    ensures t.None? ==> nodes != [] && RootContradiction(pl, t, key, nodes, v) == ZeroHash(nodes[0])
  {
    if t.Some? {
      TiedBinds(pl, t.value, key, nodes, v);
    } else {
      SpanNonnegative(nodes[1..]);
    }
  }

  /** The collision behind a claim that disagrees with a state. */
  function Contradiction(pl: Platform, s: State, c: Claim): Collision
    requires ValidTrie(s.trie) && |c.key| == |c.address| == KEY_BITS
    requires c.address in s.contracts ==> ValidTrie(s.contracts[c.address].storage)
  {
    var stateInput := [GLOBAL_STATE_VERSION, RootOf(pl, s.trie), s.classCommitment];
    if GlobalInput(pl, c) != stateInput then Poseidon(GlobalInput(pl, c), stateInput)
    else if LookupIn(s.trie, c.address) != Some(ClaimedState(pl, c)) || c.address !in s.contracts then
      RootContradiction(pl, s.trie, c.address, c.contract, ClaimedState(pl, c))
    else
      var contract := s.contracts[c.address];
      var fields := (contract.classHash, RootOf(pl, contract.storage), contract.nonce);
      if ContractFields(c) != fields then Nodes(StateDifference(pl, ContractFields(c), fields))
      else RootContradiction(pl, contract.storage, c.key, c.storage, c.value)
  }

  /** Both proofs of a claim are tied to the tries of a state: of full length, and linked wherever the way to
      the key has an edge that ends above the leaves. */
  ghost predicate TiedClaim(pl: Platform, s: State, c: Claim) {
    && |c.key| == |c.address| == KEY_BITS
    && Tied(pl, s.trie, c.address, c.contract)
    && (c.address in s.contracts ==> Tied(pl, s.contracts[c.address].storage, c.key, c.storage))
  }

  /** Links are enough in every state. */
  lemma LinkedIsTied(pl: Platform, s: State, c: Claim)
    requires LinkedClaim(pl, c)
    ensures TiedClaim(pl, s, c)
  {
  }

  lemma ClaimMatchesState(pl: Platform, s: State, c: Claim)
    requires ValidState(pl, s) && Closes(pl, c) && TiedClaim(pl, s, c) && c.globalRoot == StateRoot(pl, s)
    ensures Read(s, c.address, c.key) == Some(c.value) || IsCollision(pl, Contradiction(pl, s, c))
  {
    hide Consistent, Tied, StateHash, RootContradiction, RootOf, LookupIn, Top, Collides, ValidTrie;
    var stateInput := [GLOBAL_STATE_VERSION, RootOf(pl, s.trie), s.classCommitment];
    if GlobalInput(pl, c) == stateInput {
      assert GlobalInput(pl, c)[1] == stateInput[1];
      AcceptedMatchesRoot(pl, s.trie, c.address, c.contract, ClaimedState(pl, c));
      if LookupIn(s.trie, c.address) == Some(ClaimedState(pl, c)) {
        var contract := s.contracts[c.address];
        var fields := (contract.classHash, RootOf(pl, contract.storage), contract.nonce);
        StateHashBinds(pl, ContractFields(c), fields);
        if ContractFields(c) == fields {
          AcceptedMatchesRoot(pl, contract.storage, c.key, c.storage, c.value);
        }
      }
    }
  }

  /** End-to-end soundness: a result that `verify` accepts against a state's root, with its proofs tied to the
      state's tries, gives the value the state holds, or the collision found between it and the state is one. */
  lemma AcceptedResultMatchesState(pl: Platform, s: State, globalRoot: Felt, addressText: Felt, keyText: string,
                                   result: GetProofResult, valueText: Felt)
    requires ValidState(pl, s) && FromHex(pl, globalRoot) == Some(StateRoot(pl, s))
    requires Verify(pl, result, globalRoot, addressText, keyText, valueText).Ok?
    requires
      var c := Decoded(pl, result, globalRoot, addressText, keyText, valueText);
      c.Some? ==> TiedClaim(pl, s, c.value)
    ensures
      var c := Decoded(pl, result, globalRoot, addressText, keyText, valueText);
      var a, k, v := FromHex(pl, addressText), FromHex(pl, keyText), FromHex(pl, valueText);
      && c.Some? && |c.value.key| == |c.value.address| == KEY_BITS && a.Some? && k.Some? && v.Some?
      && (Read(s, KeyBits(a.value), KeyBits(k.value)) == v || IsCollision(pl, Contradiction(pl, s, c.value)))
  {
    VerifyExact(pl, result, globalRoot, addressText, keyText, valueText);
    hide Verify, FromHex, Decode, TiedClaim, Closes, Contradiction, IsCollision, CanonicalRoots, KeyBits;
    ClaimMatchesState(pl, s, Decoded(pl, result, globalRoot, addressText, keyText, valueText).value);
  }

  /** On the way to an address, or to a key of the contract there, is an edge that ends above the leaves. */
  predicate InnerEdgeToKey(s: State, address: seq<bool>, key: seq<bool>) {
    || (s.trie.Some? && InnerEdge(s.trie.value, address))
    || (address in s.contracts && s.contracts[address].storage.Some?
        && InnerEdge(s.contracts[address].storage.value, key))
  }

  /** Both proofs of a claim have full length. */
  predicate FullLengthClaim(c: Claim) {
    FullLength(c.storage) && FullLength(c.contract)
  }

  lemma {:induction false} InnerEdgeIsOnWay(t: Trie, key: seq<bool>)
    requires InnerEdge(t, key)
    ensures EdgeOnWay(t, key)
    decreases t
  {
    if t.Branch? { InnerEdgeIsOnWay(Child(t, key), key[1..]); }
  }

  /** A claim for any value where there is such an edge. */
  function OpenClaim(pl: Platform, s: State, address: seq<bool>, key: seq<bool>, w: Field): Claim
    requires ValidState(pl, s) && |address| == |key| == KEY_BITS && InnerEdgeToKey(s, address, key)
  {
    if s.trie.Some? && InnerEdge(s.trie.value, address) then
      InnerEdgeIsOnWay(s.trie.value, address);
      ContractCut(pl, s, address, key, 0, 0, w)
    else
      assert LookupIn(s.trie, address).Some?;
      InnerEdgeIsOnWay(StorageTrie(s, address), key);
      StorageCut(pl, s, address, key, w)
  }

  /** `verify` with a check of the lengths alone, behind an inner edge: for every value some result of full
      length is accepted against the state's root. */
  lemma FullLengthLeavesOpen(pl: Platform, s: State, addressText: Felt, keyText: string, w: Field)
    requires ValidState(pl, s) && FromHex(pl, addressText).Some? && FromHex(pl, keyText).Some?
    requires InnerEdgeToKey(s, KeyBits(FromHex(pl, addressText).value), KeyBits(FromHex(pl, keyText).value))
    ensures
      var address, key := KeyBits(FromHex(pl, addressText).value), KeyBits(FromHex(pl, keyText).value);
      var c, root := OpenClaim(pl, s, address, key, w), Text(StateRoot(pl, s));
      && FullLengthClaim(c)
      && Decoded(pl, Written(pl, c), root, addressText, keyText, Text(w)) == Some(c)
      && Verify(pl, Written(pl, c), root, addressText, keyText, Text(w)).Ok?
  {
    var address, key := KeyBits(FromHex(pl, addressText).value), KeyBits(FromHex(pl, keyText).value);
    hide Verify, FromHex, Text, StateRoot, Written, Decoded, KeyBits, CutAtEdge, EdgeOnWay, InnerEdge, Linked, Prove;
    hide EdgeToLeaf, StateHash;
    if s.trie.Some? && InnerEdge(s.trie.value, address) {
      InnerEdgeIsOnWay(s.trie.value, address);
      EdgeLeavesContractOpen(pl, s, addressText, keyText, 0, 0, w);
    } else {
      assert LookupIn(s.trie, address).Some?;
      InnerEdgeIsOnWay(StorageTrie(s, address), key);
      EdgeLeavesStorageOpen(pl, s, addressText, keyText, w);
      LinkedHasFullLength(pl, address, Prove(pl, s.trie.value, KEY_BITS, address));
    }
    WrittenDecodes(pl, OpenClaim(pl, s, address, key, w), addressText, keyText);
  }

  lemma LinkedHasFullLength(pl: Platform, key: seq<bool>, nodes: seq<Node<Field>>)
    requires |key| == KEY_BITS && Linked(pl, key, nodes)
    ensures FullLength(nodes)
  {
  }

  /** The converse: where there is no inner edge, every accepted result of full length gives the value the
      state holds, or exhibits a collision. */
  lemma FullLengthMatchesState(pl: Platform, s: State, globalRoot: Felt, addressText: Felt, keyText: string,
                               result: GetProofResult, valueText: Felt)
    requires ValidState(pl, s) && FromHex(pl, globalRoot) == Some(StateRoot(pl, s))
    requires Verify(pl, result, globalRoot, addressText, keyText, valueText).Ok?
    requires
      var c := Decoded(pl, result, globalRoot, addressText, keyText, valueText);
      c.Some? ==> FullLengthClaim(c.value) && !InnerEdgeToKey(s, c.value.address, c.value.key)
    ensures
      var c := Decoded(pl, result, globalRoot, addressText, keyText, valueText);
      var a, k, v := FromHex(pl, addressText), FromHex(pl, keyText), FromHex(pl, valueText);
      && c.Some? && |c.value.key| == |c.value.address| == KEY_BITS && a.Some? && k.Some? && v.Some?
      && (Read(s, KeyBits(a.value), KeyBits(k.value)) == v || IsCollision(pl, Contradiction(pl, s, c.value)))
  {
    hide Verify, FromHex, Decode, StateRoot, Contradiction, IsCollision, InnerEdge, FullLength, Linked, ValidState;
    hide Read;
    AcceptedResultMatchesState(pl, s, globalRoot, addressText, keyText, result, valueText);
  }
}
