/** `GetProofResult::verify`: the storage trie, the contract state hash, the contract trie and the global root. */
module EndToEnd {
  import opened Wrappers
  import opened Numbers
  import opened Platforms
  import opened FeltText
  import opened BitSlices
  import opened Proofs
  import opened Acceptance
  import opened Tries
  import opened Soundness

  type Proof = seq<Node<Felt>>

  /** `contract_state_hash_version` is received but never read: the hash uses the constant 0. */
  datatype ContractData = ContractData(
    classHash: Felt, nonce: Felt, root: Felt, contractStateHashVersion: Felt, storageProofs: Option<seq<Proof>>)

  datatype GetProofResult = GetProofResult(
    classCommitment: Option<Felt>, contractData: Option<ContractData>, contractProof: Proof,
    stateCommitment: Option<Felt>)

  const CONTRACT_STATE_HASH_VERSION: Field := 0

  /** The bytes of "STARKNET_STATE_V0" as a number */
  const GLOBAL_STATE_VERSION: Field := 0x535441524b4e45545f53544154455f5630

  /** The character codes of a text */
  function Ascii(s: string): (bytes: seq<byte>)
    requires forall i :: 0 <= i < |s| ==> s[i] < 128 as char
    ensures |bytes| == |s|
  {
    seq(|s|, i requires 0 <= i < |s| => s[i] as int)
  }

  lemma {:induction false} NextByte(bytes: seq<byte>, n: nat, x: nat)
    requires n < |bytes| && BytesValue(bytes[..n]) == x
    ensures BytesValue(bytes[..n + 1]) == 256 * x + bytes[n]
  {
    assert bytes[..n + 1][..n] == bytes[..n];
  }

  /** The version constant is the name of the state format as a big-endian number. */
  lemma VersionIsName()
    ensures GLOBAL_STATE_VERSION == BytesValue(Ascii("STARKNET_STATE_V0"))
  {
    var bytes := Ascii("STARKNET_STATE_V0");
    NextByte(bytes, 0, 0);
    NextByte(bytes, 1, 0x53);
    NextByte(bytes, 2, 0x5354);
    NextByte(bytes, 3, 0x535441);
    NextByte(bytes, 4, 0x53544152);
    NextByte(bytes, 5, 0x535441524b);
    NextByte(bytes, 6, 0x535441524b4e);
    NextByte(bytes, 7, 0x535441524b4e45);
    NextByte(bytes, 8, 0x535441524b4e4554);
    NextByte(bytes, 9, 0x535441524b4e45545f);
    NextByte(bytes, 10, 0x535441524b4e45545f53);
    NextByte(bytes, 11, 0x535441524b4e45545f5354);
    NextByte(bytes, 12, 0x535441524b4e45545f535441);
    NextByte(bytes, 13, 0x535441524b4e45545f53544154);
    NextByte(bytes, 14, 0x535441524b4e45545f5354415445);
    NextByte(bytes, 15, 0x535441524b4e45545f53544154455f);
    NextByte(bytes, 16, 0x535441524b4e45545f53544154455f56);
    assert bytes[..17] == bytes;
  }

  /** The hash a contract's leaf carries: H(H(H(class hash, storage root), nonce), version). */
  function StateHash(pl: Platform, classHash: Field, root: Field, nonce: Field): Field {
    pl.pedersen(pl.pedersen(pl.pedersen(classHash, root), nonce), CONTRACT_STATE_HASH_VERSION)
  }

  /** The commitment to a whole state. */
  function GlobalRoot(pl: Platform, storageCommitment: Field, classCommitment: Field): Field {
    pl.poseidon([GLOBAL_STATE_VERSION, storageCommitment, classCommitment])
  }

  /** `calculate_contract_state_hash` */
  function CalculateContractStateHash(pl: Platform, data: ContractData): Outcome<Felt> {
    var classHash, root, nonce := FromHex(pl, data.classHash), FromHex(pl, data.root), FromHex(pl, data.nonce);
    if classHash.None? || root.None? then Err(INVALID_FIELD)
    else
      var hash := pl.pedersen(classHash.value, root.value);
      if nonce.None? then Err(INVALID_FIELD)
      else
        var hash := pl.pedersen(hash, nonce.value);
        var hash := pl.pedersen(hash, CONTRACT_STATE_HASH_VERSION);
        Ok(Text(hash))
  }

  /** `calculate_global_root` */
  function CalculateGlobalRoot(pl: Platform, classCommitment: Felt, storageCommitment: Felt): Outcome<Felt> {
    var storage, classes := FromHex(pl, storageCommitment), FromHex(pl, classCommitment);
    if storage.None? || classes.None? then Err(INVALID_FIELD)
    else Ok(Text(pl.poseidon([GLOBAL_STATE_VERSION, storage.value, classes.value])))
  }

  /** `verify_storage_proofs`; indexing an empty list panics. */
  function VerifyStorageProofs(pl: Platform, data: ContractData, key: string, value: Felt): Outcome<()> {
    match data.storageProofs
    case None => Err(INVALID_PROOF)
    case Some(proofs) =>
      if proofs == [] then Panic
      else
        match Parse(pl, key, value, proofs[0])
        case Ok(Some(computed)) => if computed == data.root then Ok(()) else Err(INVALID_PROOF)
        case Ok(None) => Err(INVALID_PROOF)
        case Err(code) => Err(code)
        case Panic => Panic
  }

  /** The second half of `verify_contract_proof`, from the state hash on. */
  function VerifyCommitment(pl: Platform, result: GetProofResult, globalRoot: Felt, parsed: Outcome<Option<Felt>>):
    Outcome<()>
  {
    match parsed
    case Err(code) => Err(code)
    case Panic => Panic
    case Ok(None) => Err(INVALID_PROOF)
    case Ok(Some(storageCommitment)) =>
      if result.classCommitment.None? then Err(INVALID_PROOF)
      else
        match CalculateGlobalRoot(pl, result.classCommitment.value, storageCommitment)
        case Err(_) => Err(INVALID_PROOF)
        case Panic => Panic
        case Ok(root) =>
          if result.stateCommitment.None? then Err(INVALID_PROOF)
          else if result.stateCommitment.value == root && globalRoot == root then Ok(())
          else Err(INVALID_PROOF)
  }

  /** `verify_contract_proof` */
  function VerifyContractProof(pl: Platform, result: GetProofResult, data: ContractData, globalRoot: Felt,
                               address: Felt): Outcome<()>
  {
    match CalculateContractStateHash(pl, data)
    case Err(code) => Err(code)
    case Panic => Panic
    case Ok(stateHash) => VerifyCommitment(pl, result, globalRoot, Parse(pl, address, stateHash, result.contractProof))
  }

  /** `GetProofResult::verify` */
  function Verify(pl: Platform, result: GetProofResult, globalRoot: Felt, address: Felt, key: string, value: Felt):
    Outcome<()>
  {
    if result.contractData.None? then Err(INVALID_PROOF)
    else
      match VerifyStorageProofs(pl, result.contractData.value, key, value)
      case Err(code) => Err(code)
      case Panic => Panic
      case Ok(_) => VerifyContractProof(pl, result, result.contractData.value, globalRoot, address)
  }

  /** A proof result and the question it answers, as numbers. */
  datatype Claim = Claim(
    key: seq<bool>, value: Field, storage: seq<Node<Field>>,
    classHash: Field, root: Field, nonce: Field,
    address: seq<bool>, contract: seq<Node<Field>>,
    classCommitment: Field, globalRoot: Field)

  function Decoded(pl: Platform, result: GetProofResult, globalRoot: Felt, address: Felt, key: string, value: Felt):
    Option<Claim>
  {
    if result.contractData.None? || result.classCommitment.None? then None
    else if result.contractData.value.storageProofs.None? then None
    else
      var data, proofs := result.contractData.value, result.contractData.value.storageProofs.value;
      if proofs == [] then None
      else
        var k, v, a, g := FromHex(pl, key), FromHex(pl, value), FromHex(pl, address), FromHex(pl, globalRoot);
        var ch, r, n := FromHex(pl, data.classHash), FromHex(pl, data.root), FromHex(pl, data.nonce);
        var c := FromHex(pl, result.classCommitment.value);
        var s, p := Decode(pl, proofs[0]), Decode(pl, result.contractProof);
        if k.None? || v.None? || a.None? || g.None? || ch.None? || r.None? || n.None? then None
        else if c.None? || s.None? || p.None? then None
        else Some(Claim(KeyBits(k.value), v.value, s.value, ch.value, r.value, n.value,
                        KeyBits(a.value), p.value, c.value, g.value))
  }

  /** The state hash a claim is about. */
  function ClaimedState(pl: Platform, c: Claim): Field {
    StateHash(pl, c.classHash, c.root, c.nonce)
  }

  /** The chain of hashes of a claim closes: both proofs are accepted, the storage proof with the contract's
      root, and the contract proof with a commitment that hashes to the global root. */
  ghost predicate Closes(pl: Platform, c: Claim) {
    && |c.key| == KEY_BITS && |c.address| == KEY_BITS
    && Consistent(pl, c.key, c.value, c.storage)
    && Top(pl, c.storage, c.value) == c.root
    && Consistent(pl, c.address, ClaimedState(pl, c), c.contract)
    && GlobalRoot(pl, Top(pl, c.contract, ClaimedState(pl, c)), c.classCommitment) == c.globalRoot
  }

  /** A felt written the way the program prints its number: lower case. */
  predicate Canonical(pl: Platform, f: Felt) {
    FromHex(pl, f).Some? && f == Text(FromHex(pl, f).value)
  }

  /** The three texts `verify` compares as texts. */
  predicate CanonicalRoots(pl: Platform, result: GetProofResult, globalRoot: Felt) {
    && Canonical(pl, globalRoot)
    && (result.contractData.Some? ==> Canonical(pl, result.contractData.value.root))
    && result.stateCommitment == Some(globalRoot)
  }

  lemma CanonicalText(pl: Platform, f: Felt, x: Field)
    ensures f == Text(x) <==> Canonical(pl, f) && FromHex(pl, f) == Some(x)
  {
    TextRoundTrip(pl, x);
  }

  lemma StorageAccepted(pl: Platform, data: ContractData, key: string, value: Felt)
    ensures VerifyStorageProofs(pl, data, key, value).Ok? <==>
      && data.storageProofs.Some? && data.storageProofs.value != []
      && var k, v, s := FromHex(pl, key), FromHex(pl, value), Decode(pl, data.storageProofs.value[0]);
      && k.Some? && v.Some? && s.Some?
      && Consistent(pl, KeyBits(k.value), v.value, s.value)
      && data.root == Text(Top(pl, s.value, v.value))
  {
    if data.storageProofs.Some? && data.storageProofs.value != [] {
      ExactAcceptance(pl, key, value, data.storageProofs.value[0], data.root);
    }
  }

  lemma CommitmentAccepted(pl: Platform, result: GetProofResult, globalRoot: Felt, address: Felt, state: Field)
    ensures VerifyCommitment(pl, result, globalRoot, Parse(pl, address, Text(state), result.contractProof)).Ok? <==>
      && result.classCommitment.Some? && result.stateCommitment == Some(globalRoot)
      && var a, c := FromHex(pl, address), FromHex(pl, result.classCommitment.value);
      && var p := Decode(pl, result.contractProof);
      && a.Some? && c.Some? && p.Some?
      && Consistent(pl, KeyBits(a.value), state, p.value)
      && globalRoot == Text(GlobalRoot(pl, Top(pl, p.value, state), c.value))
  {
    hide Parse, Consistent, Top, Text, FromHex, Decode;
    TextRoundTrip(pl, state);
    var p := Decode(pl, result.contractProof);
    if p.Some? {
      ExactAcceptance(pl, address, Text(state), result.contractProof, Text(Top(pl, p.value, state)));
      TextRoundTrip(pl, Top(pl, p.value, state));
    }
    var parsed := Parse(pl, address, Text(state), result.contractProof);
    if parsed.Ok? && parsed.value.Some? {
      ExactAcceptance(pl, address, Text(state), result.contractProof, parsed.value.value);
    }
  }

  /** The state hash is computed as the nested hash the design defines, when its three inputs parse. */
  lemma StateHashComputed(pl: Platform, data: ContractData)
    ensures
      var ch, r, n := FromHex(pl, data.classHash), FromHex(pl, data.root), FromHex(pl, data.nonce);
      CalculateContractStateHash(pl, data) ==
        if ch.Some? && r.Some? && n.Some? then Ok(Text(StateHash(pl, ch.value, r.value, n.value)))
        else Err(INVALID_FIELD)
  {
    hide FromHex, Text;
  }

  lemma ContractAcceptedByName(pl: Platform, result: GetProofResult, data: ContractData, globalRoot: Felt,
                               address: Felt)
    ensures VerifyContractProof(pl, result, data, globalRoot, address).Ok? <==>
      && result.classCommitment.Some? && result.stateCommitment == Some(globalRoot)
      && var ch, r, n := FromHex(pl, data.classHash), FromHex(pl, data.root), FromHex(pl, data.nonce);
      && var a, c := FromHex(pl, address), FromHex(pl, result.classCommitment.value);
      && var p := Decode(pl, result.contractProof);
      && ch.Some? && r.Some? && n.Some? && a.Some? && c.Some? && p.Some?
      && var state := StateHash(pl, ch.value, r.value, n.value);
      && Consistent(pl, KeyBits(a.value), state, p.value)
      && globalRoot == Text(GlobalRoot(pl, Top(pl, p.value, state), c.value))
  {
    StateHashComputed(pl, data);
    var ch, r, n := FromHex(pl, data.classHash), FromHex(pl, data.root), FromHex(pl, data.nonce);
    if ch.Some? && r.Some? && n.Some? {
      var state := StateHash(pl, ch.value, r.value, n.value);
      hide VerifyCommitment, CalculateContractStateHash, StateHash, GlobalRoot, Parse;
      hide Consistent, Top, Text, FromHex, Decode;
      CommitmentAccepted(pl, result, globalRoot, address, state);
    }
  }

  /** The two hashes of a state as their definitions spell them out. */
  lemma StateFormulas(pl: Platform, classHash: Field, root: Field, nonce: Field, storage: Field, classes: Field)
    ensures StateHash(pl, classHash, root, nonce) == pl.pedersen(pl.pedersen(pl.pedersen(classHash, root), nonce), 0)
    ensures BytesValue(Ascii("STARKNET_STATE_V0")) < P
    ensures GlobalRoot(pl, storage, classes) == pl.poseidon([BytesValue(Ascii("STARKNET_STATE_V0")), storage, classes])
  {
    VersionIsName();
  }

  /** Exactly when `verify_contract_proof` accepts, with the hashes spelled out. */
  lemma ContractAccepted(pl: Platform, result: GetProofResult, data: ContractData, globalRoot: Felt, address: Felt)
    ensures BytesValue(Ascii("STARKNET_STATE_V0")) < P
    ensures VerifyContractProof(pl, result, data, globalRoot, address).Ok? <==>
      && result.classCommitment.Some? && result.stateCommitment == Some(globalRoot)
      && var ch, r, n := FromHex(pl, data.classHash), FromHex(pl, data.root), FromHex(pl, data.nonce);
      && var a, c := FromHex(pl, address), FromHex(pl, result.classCommitment.value);
      && var p := Decode(pl, result.contractProof);
      && ch.Some? && r.Some? && n.Some? && a.Some? && c.Some? && p.Some?
      && var state := pl.pedersen(pl.pedersen(pl.pedersen(ch.value, r.value), n.value), 0);
      && Consistent(pl, KeyBits(a.value), state, p.value)
      && var version: Field := BytesValue(Ascii("STARKNET_STATE_V0"));
      globalRoot == Text(pl.poseidon([version, Top(pl, p.value, state), c.value]))
  {
    StateFormulas(pl, 0, 0, 0, 0, 0);
    ContractAcceptedByName(pl, result, data, globalRoot, address);
    hide *;
    var ch, r, n := FromHex(pl, data.classHash), FromHex(pl, data.root), FromHex(pl, data.nonce);
    if ch.Some? && r.Some? && n.Some? && result.classCommitment.Some? {
      var c, p := FromHex(pl, result.classCommitment.value), Decode(pl, result.contractProof);
      if c.Some? && p.Some? {
        var state := StateHash(pl, ch.value, r.value, n.value);
        StateFormulas(pl, ch.value, r.value, n.value, Top(pl, p.value, state), c.value);
      }
    }
  }

  /** Exactly when `verify` accepts: the chain closes as numbers, and the three roots it compares as texts
      are canonical. A claim that closes but writes a root with upper-case digits is refused. */
  lemma VerifyExact(pl: Platform, result: GetProofResult, globalRoot: Felt, address: Felt, key: string, value: Felt)
    ensures Verify(pl, result, globalRoot, address, key, value).Ok? <==>
      && Decoded(pl, result, globalRoot, address, key, value).Some?
      && Closes(pl, Decoded(pl, result, globalRoot, address, key, value).value)
      && CanonicalRoots(pl, result, globalRoot)
  {
    hide StateHash, GlobalRoot, Consistent, Top, FromHex, Decode, Text, VerifyStorageProofs, VerifyContractProof;
    if result.contractData.Some? {
      var data := result.contractData.value;
      StorageAccepted(pl, data, key, value);
      ContractAcceptedByName(pl, result, data, globalRoot, address);
      GlobalRootParses(pl, result, data, globalRoot, address);
      var d := Decoded(pl, result, globalRoot, address, key, value);
      if d.Some? {
        var c := d.value;
        CanonicalText(pl, data.root, Top(pl, c.storage, c.value));
        CanonicalText(pl, globalRoot, GlobalRoot(pl, Top(pl, c.contract, ClaimedState(pl, c)), c.classCommitment));
      }
    }
  }

  /** The proof result that carries a claim, every felt written in canonical form. */
  function Written(pl: Platform, c: Claim): GetProofResult {
    GetProofResult(
      Some(Text(c.classCommitment)),
      Some(ContractData(Text(c.classHash), Text(c.nonce), Text(c.root), Text(0), Some([Texts(c.storage)]))),
      Texts(c.contract),
      Some(Text(c.globalRoot)))
  }

  lemma WrittenDecodes(pl: Platform, c: Claim, addressText: Felt, keyText: string)
    requires FromHex(pl, addressText).Some? && KeyBits(FromHex(pl, addressText).value) == c.address
    requires FromHex(pl, keyText).Some? && KeyBits(FromHex(pl, keyText).value) == c.key
    ensures Decoded(pl, Written(pl, c), Text(c.globalRoot), addressText, keyText, Text(c.value)) == Some(c)
    ensures CanonicalRoots(pl, Written(pl, c), Text(c.globalRoot))
  {
    hide FromHex, Text, Decode, Texts, KeyBits;
    DecodeTexts(pl, c.storage);
    DecodeTexts(pl, c.contract);
    TextRoundTrip(pl, c.value);
    TextRoundTrip(pl, c.globalRoot);
    TextRoundTrip(pl, c.root);
    TextRoundTrip(pl, c.classHash);
    TextRoundTrip(pl, c.nonce);
    TextRoundTrip(pl, c.classCommitment);
  }

  /** Every claim whose chain closes is accepted once it is written canonically. */
  lemma WrittenAccepted(pl: Platform, c: Claim, addressText: Felt, keyText: string)
    requires Closes(pl, c)
    requires FromHex(pl, addressText).Some? && KeyBits(FromHex(pl, addressText).value) == c.address
    requires FromHex(pl, keyText).Some? && KeyBits(FromHex(pl, keyText).value) == c.key
    ensures Verify(pl, Written(pl, c), Text(c.globalRoot), addressText, keyText, Text(c.value)).Ok?
  {
    hide *;
    WrittenDecodes(pl, c, addressText, keyText);
    VerifyExact(pl, Written(pl, c), Text(c.globalRoot), addressText, keyText, Text(c.value));
  }

  lemma GlobalRootParses(pl: Platform, result: GetProofResult, data: ContractData, globalRoot: Felt, address: Felt)
    ensures VerifyContractProof(pl, result, data, globalRoot, address).Ok? ==> FromHex(pl, globalRoot).Some?
  {
    ContractAcceptedByName(pl, result, data, globalRoot, address);
    hide VerifyContractProof, FromHex;
    if VerifyContractProof(pl, result, data, globalRoot, address).Ok? {
      var root :| globalRoot == Text(root);
      TextRoundTrip(pl, root);
    }
  }

  lemma ParseOutcomes(pl: Platform, key: string, value: Felt, proof: Proof)
    requires SpanFits(proof)
    ensures
      var r := Parse(pl, key, value, proof);
      r.Ok? || r == Err(INVALID_FIELD)
  {
    var k, v := FromHex(pl, key), FromHex(pl, value);
    if k.Some? && v.Some? {
      KeyIndexSafety(pl, KeyBits(k.value), v.value, proof);
      FoldStopsShort(pl, KeyBits(k.value), v.value, proof);
    }
  }

  /** Exactly when `verify` panics, for every result: the list of storage proofs is empty, or the fold of the
      first one panics, or the storage part is accepted, the state hash computes and the contract fold panics. */
  lemma VerifyPanicExact(pl: Platform, result: GetProofResult, globalRoot: Felt, address: Felt, key: string,
                         value: Felt)
    ensures Verify(pl, result, globalRoot, address, key, value).Panic? <==>
      && result.contractData.Some? && result.contractData.value.storageProofs.Some?
      && var data, proofs := result.contractData.value, result.contractData.value.storageProofs.value;
      var stateHash := CalculateContractStateHash(pl, data);
      || proofs == []
      || ParsePanics(pl, key, value, proofs[0])
      || (VerifyStorageProofs(pl, data, key, value).Ok? && stateHash.Ok?
          && ParsePanics(pl, address, stateHash.value, result.contractProof))
  {
    hide Parse, ParsePanics, FromHex, CalculateContractStateHash;
    if result.contractData.Some? {
      var data := result.contractData.value;
      StateHashComputed(pl, data);
      if data.storageProofs.Some? && data.storageProofs.value != [] {
        ParsePanicExact(pl, key, value, data.storageProofs.value[0]);
      }
      var stateHash := CalculateContractStateHash(pl, data);
      if stateHash.Ok? { ParsePanicExact(pl, address, stateHash.value, result.contractProof); }
    }
  }

  /** Exactly which error `verify` gives: -32701 where a fold it gets to fails, or the state hash does after an
      accepted storage part; every other refusal, missing data included, is -32700. */
  lemma VerifyErrorExact(pl: Platform, result: GetProofResult, globalRoot: Felt, address: Felt, key: string,
                         value: Felt)
    ensures Verify(pl, result, globalRoot, address, key, value) == Err(-32701) <==>
      && result.contractData.Some? && result.contractData.value.storageProofs.Some?
      && var data, proofs := result.contractData.value, result.contractData.value.storageProofs.value;
      && proofs != []
      && (|| ParseFails(pl, key, value, proofs[0])
          || (VerifyStorageProofs(pl, data, key, value).Ok?
              && var ch, r, n := FromHex(pl, data.classHash), FromHex(pl, data.root), FromHex(pl, data.nonce);
              || ch.None? || r.None? || n.None?
              || ParseFails(pl, address, Text(StateHash(pl, ch.value, r.value, n.value)), result.contractProof)))
    ensures
      var r := Verify(pl, result, globalRoot, address, key, value);
      r.Err? ==> r.code == -32700 || r.code == -32701
  {
    hide Parse, ParseFails, FromHex, CalculateContractStateHash, CalculateGlobalRoot, StateHash, Text;
    if result.contractData.Some? {
      var data := result.contractData.value;
      StateHashComputed(pl, data);
      if data.storageProofs.Some? && data.storageProofs.value != [] {
        ParseErrorExact(pl, key, value, data.storageProofs.value[0]);
      }
      var stateHash := CalculateContractStateHash(pl, data);
      if stateHash.Ok? { ParseErrorExact(pl, address, stateHash.value, result.contractProof); }
    }
  }

  /** With lengths within the key only the empty list is left, and `verify` fails with no more than the two
      codes of the proof checker. */
  lemma VerifyPanicInRange(pl: Platform, result: GetProofResult, globalRoot: Felt, address: Felt, key: string,
                           value: Felt)
    requires SpanFits(result.contractProof)
    requires result.contractData.Some? && result.contractData.value.storageProofs.Some? ==>
      forall i :: 0 <= i < |result.contractData.value.storageProofs.value| ==>
        SpanFits(result.contractData.value.storageProofs.value[i])
    ensures
      var r := Verify(pl, result, globalRoot, address, key, value);
      && (r.Panic? <==> result.contractData.Some? && result.contractData.value.storageProofs == Some([]))
      && (r.Err? ==> r.code == -32700 || r.code == -32701)
  {
    hide Parse, FromHex, SpanFits, CalculateContractStateHash;
    if result.contractData.Some? {
      var data := result.contractData.value;
      StateHashComputed(pl, data);
      if data.storageProofs.Some? && data.storageProofs.value != [] {
        assert SpanFits(data.storageProofs.value[0]);
        ParseOutcomes(pl, key, value, data.storageProofs.value[0]);
      }
      var state := CalculateContractStateHash(pl, data);
      if state.Ok? { ParseOutcomes(pl, address, state.value, result.contractProof); }
    }
  }
}
