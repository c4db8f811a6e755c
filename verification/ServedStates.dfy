/** What the values served are worth, through the caches and by the RPC read: the verified readers joined to the
    states their roots commit to. */
module ServedStates {
  import opened Wrappers
  import opened Platforms
  import opened FeltText
  import opened BitSlices
  import opened EndToEnd
  import opened States
  import opened Cache
  import opened CacheRuns
  import Heads

  /** The claim a reader gets to verify for a storage request. */
  function FetchedClaim(pl: Platform, root: Felt, address: Field, key: Field, upstream: Upstream): Option<Claim> {
    if upstream.storage.Ok? && upstream.proof.Ok? then
      Decoded(pl, upstream.proof.value, root, Text(address), pl.displayKey(key), upstream.storage.value)
    else None
  }

  /** What a verified reply is worth: if the root it passed against is a state's root and its proofs are
      tied to the state's tries, the value it gives is the one the state holds, or it exhibits a collision. */
  lemma VerifiedAnswerMatchesState(pl: Platform, s: State, root: Felt, address: Field, key: Field, value: Field,
                                   upstream: Upstream)
    requires VerifiedReply(pl, root, address, key, value, upstream)
    requires upstream.storage.value != "0x0" && ParsedAlike(pl, upstream.storage.value)
    requires ValidState(pl, s) && FromHex(pl, root) == Some(StateRoot(pl, s))
    requires
      var c := FetchedClaim(pl, root, address, key, upstream);
      c.Some? ==> TiedClaim(pl, s, c.value)
    ensures
      var c, k := FetchedClaim(pl, root, address, key, upstream), FromHex(pl, pl.displayKey(key));
      && c.Some? && |c.value.key| == |c.value.address| == KEY_BITS && k.Some?
      && (Read(s, KeyBits(address), KeyBits(k.value)) == Some(value) || IsCollision(pl, Contradiction(pl, s, c.value)))
  {
    var proof, text := upstream.proof.value, upstream.storage.value;
    AcceptedResultMatchesState(pl, s, root, Text(address), pl.displayKey(key), proof, text);
    TextRoundTrip(pl, address);
  }

  /** The checks on the reply to a storage fetch that the code leaves to its caller, asked for only where the value
      is verified: its text is one that both parsers read alike, as every text below P is, and the proofs are tied
      to the tries of the state. */
  ghost predicate CheckedReply(pl: Platform, s: State, f: FetchMade)
    requires f.request.StorageAt?
  {
    var upstream := f.replies.upstream;
    Inner(pl, f.reader, f.request, f.replies).Ok? && upstream.storage.Ok? && upstream.storage.value != "0x0" ==>
      && ParsedAlike(pl, upstream.storage.value)
      && var c := FetchedClaim(pl, f.reader.root, f.request.address, f.request.key, upstream);
      (c.Some? ==> TiedClaim(pl, s, c.value))
  }

  /** The reply to a fetch disagrees with a state and so exhibits a collision. */
  ghost predicate Contradicts(pl: Platform, s: State, f: FetchMade)
    requires f.request.StorageAt? && ValidState(pl, s)
  {
    var c := FetchedClaim(pl, f.reader.root, f.request.address, f.request.key, f.replies.upstream);
    && c.Some? && |c.value.key| == |c.value.address| == KEY_BITS
    && IsCollision(pl, Contradiction(pl, s, c.value))
  }

  /** A fetched storage answer is zero or what the state holds, or the reply that gave it exhibits a collision. */
  ghost predicate MatchesState(pl: Platform, s: State, f: FetchMade, answer: Answer)
    requires f.request.StorageAt? && ValidState(pl, s)
  {
    && answer.Word?
    && var k := FromHex(pl, pl.displayKey(f.request.key));
    || (answer.word == 0 && f.replies.upstream.storage == Ok("0x0"))
    || (k.Some? && Read(s, KeyBits(f.request.address), KeyBits(k.value)) == Some(answer.word))
    || Contradicts(pl, s, f)
  }

  /** If the reply to a storage fetch passes the checks, the answer matches the state. */
  ghost predicate MatchesIfChecked(pl: Platform, s: State, f: FetchMade, answer: Answer)
    requires ValidState(pl, s)
  {
    f.request.StorageAt? && (CheckedReply(pl, s, f) ==> MatchesState(pl, s, f, answer))
  }

  /** A storage answer was fetched in the first `n` events, and in every fetch of the run that gives it, if the
      reply to the fetch passes the checks, the answer matches the state. */
  ghost predicate Settled(pl: Platform, s: State, events: seq<Event>, n: nat, key: Key, answer: Answer)
    requires ValidState(pl, s)
  {
    key.1.StorageAt? ==>
      && FetchedBefore(pl, events, n, key, answer)
      && forall j: nat :: FetchedAt(pl, events, j, key, answer) ==>
           MatchesIfChecked(pl, s, FetchAt(pl, events, j).value, answer)
  }

  /** All readers on a block hold the root of a state. */
  ghost predicate RootsAreState(pl: Platform, readers: set<Reader>, block: nat, s: State) {
    && ValidState(pl, s)
    && forall r :: r in readers && BlockKey(r.blockHash) == block ==> FromHex(pl, r.root) == Some(StateRoot(pl, s))
  }

  lemma GivenMatches(pl: Platform, s: State, f: FetchMade, key: Key, answer: Answer)
    requires key.1.StorageAt? && Gives(pl, f, key, answer)
    requires ValidState(pl, s) && FromHex(pl, f.reader.root) == Some(StateRoot(pl, s))
    ensures MatchesIfChecked(pl, s, f, answer)
  {
    GivenIsVerified(pl, f, key, answer);
    if CheckedReply(pl, s, f) {
      var upstream := f.replies.upstream;
      ZeroUnchecked(upstream.storage.value);
      if upstream.storage.value != "0x0" {
        hide Verify, ProxyStorageAt, FromHex, Read, Contradiction, TiedClaim, IsCollision, FetchedClaim, ValidState;
        hide VerifiedReply;
        var address, slot := f.request.address, f.request.key;
        VerifiedAnswerMatchesState(pl, s, f.reader.root, address, slot, answer.word, upstream);
      }
    }
  }

  lemma FetchSettled(pl: Platform, s: State, events: seq<Event>, n: nat, key: Key, answer: Answer)
    requires Run(pl, INITIAL, events).Some? && RootsAreState(pl, Run(pl, INITIAL, events).value.readers, key.0, s)
    requires FetchedBefore(pl, events, n, key, answer)
    ensures Settled(pl, s, events, n, key, answer)
  {
    hide FetchAt, Inner, MatchesIfChecked, Run, StateRoot, ValidState, FromHex;
    if key.1.StorageAt? {
      forall j: nat | FetchedAt(pl, events, j, key, answer)
        ensures MatchesIfChecked(pl, s, FetchAt(pl, events, j).value, answer)
      {
        FetchedByReader(pl, events, j);
        GivenMatches(pl, s, FetchAt(pl, events, j).value, key, answer);
      }
    }
  }

  /** Served values at every point of a run, from the cache or not, whatever the node replies and whatever the
      other blocks: where the readers on a block hold the root of one state, every storage value served for the
      block was fetched before for the same request, and if the reply that gave it passes the caller's checks,
      the value is zero or the one the state holds, or that reply exhibits a collision. */
  lemma ServedMatchesState(pl: Platform, events: seq<Event>, n: nat, block: nat, s: State)
    requires n <= |events| && Run(pl, INITIAL, events).Some?
    requires RootsAreState(pl, Run(pl, INITIAL, events).value.readers, block, s)
    ensures Run(pl, INITIAL, events[..n]).Some?
    ensures
      var log := Run(pl, INITIAL, events[..n]).value.log;
      forall i :: 0 <= i < |log| && log[i].result.Ok? && BlockKey(log[i].reader.blockHash) == block ==>
        Settled(pl, s, events, n, (block, log[i].request), log[i].result.value)
  {
    ServedIsFetched(pl, events, n);
    var log := Run(pl, INITIAL, events[..n]).value.log;
    hide Run, FetchedBefore, Settled, BlockKey;
    forall i | 0 <= i < |log| && log[i].result.Ok? && BlockKey(log[i].reader.blockHash) == block
      ensures Settled(pl, s, events, n, (block, log[i].request), log[i].result.value)
    {
      FetchSettled(pl, s, events, n, (block, log[i].request), log[i].result.value);
    }
  }

  /** The claim a read of `getStorageAt` had to verify. */
  function AnsweredClaim(pl: Platform, r: Heads.Answered): Option<Claim> {
    if r.value.Ok? && r.proof.Ok? then
      Decoded(pl, r.proof.value, r.check.root, r.query.address, r.query.key, r.value.value)
    else None
  }

  /** Values returned by `getStorageAt` in every interleaving of polls and requests: each was asked for, and its
      root is that of a safe target. If that is the root of a state, and the proofs are tied to the state's tries,
      it is the value the state holds at the address and key asked for, or its result exhibits a collision. */
  lemma ReturnedMatchesState(pl: Platform, initial: Heads.Head, events: seq<Heads.Event>, i: nat, s: State)
    requires Heads.Run(pl, Heads.Started(initial), events).Some?
    requires
      var log := Heads.Run(pl, Heads.Started(initial), events).value.log;
      && i < |log| && log[i].result.Ok?
      && ValidState(pl, s) && FromHex(pl, log[i].check.root) == Some(StateRoot(pl, s))
      && var c := AnsweredClaim(pl, log[i]);
      (c.Some? ==> TiedClaim(pl, s, c.value))
    ensures
      var end := Heads.Run(pl, Heads.Started(initial), events).value;
      var r := end.log[i];
      && Heads.Requested(r.id, r.query) in events
      && r.check.requested == r.query.block && Heads.SafeCheck(end.history, r.check)
      && var a, k, v := FromHex(pl, r.query.address), FromHex(pl, r.query.key), FromHex(pl, r.result.value);
      var c := AnsweredClaim(pl, r);
      && a.Some? && k.Some? && v.Some? && c.Some? && |c.value.key| == |c.value.address| == KEY_BITS
      && (Read(s, KeyBits(a.value), KeyBits(k.value)) == v || IsCollision(pl, Contradiction(pl, s, c.value)))
  {
    hide Verify, FromHex, Read, Contradiction, TiedClaim, IsCollision, Decoded, ValidState, StateRoot, KeyBits;
    hide Heads.Run, Heads.SafeCheck;
    Heads.ReadsAreVerified(pl, initial, events);
    var r := Heads.Run(pl, Heads.Started(initial), events).value.log[i];
    AcceptedResultMatchesState(pl, s, r.check.root, r.query.address, r.query.key, r.proof.value, r.result.value);
  }
}
