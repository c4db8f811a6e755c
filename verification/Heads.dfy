/** The head of the chain: the poller that publishes it (`bin/beerus.rs`), the resolution of a requested
    block against it, and the storage read that follows (`rpc.rs`). */
module Heads {
  import opened Wrappers
  import opened Platforms
  import opened FeltText
  import opened EndToEnd

  type U64Value = n: nat | n < U64

  type BlockNumber = n: nat | n < 0x8000_0000_0000_0000

  /** `client::State`; its `==` compares the number and the two texts, which is equality here. */
  datatype Head = Head(blockNumber: U64Value, blockHash: Felt, root: Felt)

  /** A sequence with every element that equals its predecessor left out. */
  function Compress<T(==)>(s: seq<T>): (r: seq<T>)
    ensures s == [] <==> r == []
    ensures s != [] ==> r[|r| - 1] == s[|s| - 1]
  {
    if |s| <= 1 then s
    else
      var init := Compress(s[..|s| - 1]);
      if s[|s| - 1] == s[|s| - 2] then init else init + [s[|s| - 1]]
  }

  /** Changes of value up to position `i`. */
  function Changes<T(==)>(s: seq<T>, i: nat): nat
    requires i < |s|
  {
    if i == 0 then 0 else Changes(s, i - 1) + (if s[i] == s[i - 1] then 0 else 1)
  }

  lemma {:induction false} ChangesOfPrefix<T>(s: seq<T>, n: nat, i: nat)
    requires i < n <= |s|
    ensures Changes(s[..n], i) == Changes(s, i)
  {
    if i > 0 { ChangesOfPrefix(s, n, i - 1); }
  }

  /** Element `i` is found in `c` at as many places from the start as the value has changed before it. */
  ghost predicate Placed<T>(s: seq<T>, c: seq<T>, i: nat)
    requires i < |s|
  {
    Changes(s, i) < |c| && c[Changes(s, i)] == s[i]
  }

  /** `Compress` keeps one element a run of equal ones, in order, and neighbours in the result differ. */
  lemma {:induction false} CompressExact<T>(s: seq<T>)
    requires s != []
    ensures |Compress(s)| == Changes(s, |s| - 1) + 1
    ensures forall i :: 0 <= i < |s| ==> Placed(s, Compress(s), i)
    ensures forall j :: 0 < j < |Compress(s)| ==> Compress(s)[j - 1] != Compress(s)[j]
  {
    if |s| > 1 {
      var init, last := s[..|s| - 1], |s| - 1;
      CompressExact(init);
      ChangesOfPrefix(s, last, last - 1);
      forall i | 0 <= i < last ensures Placed(s, Compress(s), i) {
        assert Placed(init, Compress(init), i);
        ChangesOfPrefix(s, last, i);
      }
    }
  }

  /** The answers of the gateway that gave a head. */
  function Successes(outcomes: seq<Outcome<Head>>): seq<Head> {
    if outcomes == [] then []
    else
      var last := outcomes[|outcomes| - 1];
      Successes(outcomes[..|outcomes| - 1]) + (if last.Ok? then [last.value] else [])
  }

  /** The head shared between the poller and the request handlers, with all it has been. */
  class Shared {
    var head: Head
    ghost var history: seq<Head>

    constructor (initial: Head)
      ensures head == initial && history == [initial]
    {
      head := initial;
      history := [initial];
    }

    method Publish(update: Head)
      modifies this
      ensures head == update && history == old(history) + [update]
    {
      head := update;
      history := history + [update];
    }
  }

  /** What the gateway's answers amount to: the initial head and the successful answers, with those equal to
      their predecessor left out. */
  function Published(initial: Head, outcomes: seq<Outcome<Head>>): (heads: seq<Head>)
    ensures heads != []
  {
    Compress([initial] + Successes(outcomes))
  }

  /** The published heads after one more outcome. */
  lemma NextOutcome(initial: Head, outcomes: seq<Outcome<Head>>, next: Outcome<Head>)
    ensures
      var before := Published(initial, outcomes);
      Published(initial, outcomes + [next]) ==
        if next.Ok? && next.value != before[|before| - 1] then before + [next.value] else before
  {
    var before, after := [initial] + Successes(outcomes), [initial] + Successes(outcomes + [next]);
    assert (outcomes + [next])[..|outcomes|] == outcomes;
    if next.Ok? {
      assert after[..|after| - 1] == before;
    } else {
      assert after == before;
    }
  }

  /** Before any answer the initial head is all there is. */
  lemma NothingPolled(initial: Head)
    ensures Published(initial, []) == [initial]
  {
    assert [initial] + [] == [initial];
  }

  /** The polling loop over any finite part of its run. */
  method Poll(shared: Shared, outcomes: seq<Outcome<Head>>)
    requires shared.history == [shared.head]
    modifies shared
    ensures shared.history == Published(old(shared.head), outcomes)
    ensures shared.head == shared.history[|shared.history| - 1]
  {
    hide Published;
    ghost var initial := shared.head;
    NothingPolled(initial);
    var current := shared.head;
    assert outcomes[..0] == [];
    for i := 0 to |outcomes|
      invariant current == shared.head
      invariant shared.history == Published(initial, outcomes[..i])
      invariant shared.history[|shared.history| - 1] == current
    {
      NextOutcome(initial, outcomes[..i], outcomes[i]);
      assert outcomes[..i + 1] == outcomes[..i] + [outcomes[i]];
      match outcomes[i] {
        case Ok(update) =>
          if update != current {
            shared.Publish(update);
            current := update;
          }
        case Err(_) =>
        case Panic =>
      }
    }
    assert outcomes[..|outcomes|] == outcomes;
  }

  datatype BlockId = Number(number: BlockNumber) | Hash(hash: Felt) | Latest | Pending

  datatype Header = Header(blockNumber: BlockNumber, blockHash: Felt, newRoot: Felt)

  /** The upstream's reply to a request for a block. */
  datatype BlockReply = Failed(code: int) | PendingBlock | Block(header: Header)

  const UNSUPPORTED := -1

  /** `BlockNumber::try_new(x as i64)` */
  function TryBlockNumber(x: U64Value): Outcome<BlockNumber> {
    var n := WrapI64(x);
    if n < 0 then Err(INVALID_TEXT) else Ok(n)
  }

  function GetState(reply: BlockReply): Outcome<Head> {
    match reply
    case Failed(code) => Err(code)
    case PendingBlock => Err(UNSUPPORTED)
    case Block(header) => Ok(Head(header.blockNumber, header.blockHash, header.newRoot))
  }

  function HeadNumber(current: Head): Outcome<(BlockId, Felt)> {
    match TryBlockNumber(current.blockNumber)
    case Ok(n) => Ok((Number(n), current.root))
    case Err(code) => Err(code)
    case Panic => Panic
  }

  function ResolveByNumber(number: BlockNumber, current: Head, reply: BlockReply): Outcome<(BlockId, Felt)> {
    if number >= current.blockNumber then HeadNumber(current)
    else
      match GetState(reply)
      case Err(code) => Err(code)
      case Panic => Panic
      case Ok(state) => if state.blockNumber != number then Err(UNSUPPORTED) else Ok((Number(number), state.root))
  }

  function ResolveByHash(hash: Felt, current: Head, reply: BlockReply): Outcome<(BlockId, Felt)> {
    if hash == current.blockHash then Ok((Hash(hash), current.root))
    else
      match GetState(reply)
      case Err(code) => Err(code)
      case Panic => Panic
      case Ok(state) =>
        if hash != state.blockHash || state.blockNumber >= current.blockNumber then Err(UNSUPPORTED)
        else Ok((Hash(hash), state.root))
  }

  /** `resolve_block_id`; the upstream's reply is used only if the head does not answer the request. */
  function ResolveBlockId(id: BlockId, current: Head, reply: BlockReply): Outcome<(BlockId, Felt)> {
    match id
    case Number(number) => ResolveByNumber(number, current, reply)
    case Hash(hash) => ResolveByHash(hash, current, reply)
    case Latest => HeadNumber(current)
    case Pending => Err(UNSUPPORTED)
  }

  /** A block and the root it is checked against come from one place: the snapshot's own number or hash with
      its root, or an upstream header that is the block asked for and lies below the snapshot. */
  predicate SafeTarget(requested: BlockId, snapshot: Head, reply: BlockReply, target: BlockId, root: Felt) {
    || (target == Hash(snapshot.blockHash) && root == snapshot.root && requested == target)
    || (target.Number? && target.number == snapshot.blockNumber && root == snapshot.root
        && (requested.Latest? || (requested.Number? && requested.number >= snapshot.blockNumber)))
    || (reply.Block? && target == requested && root == reply.header.newRoot
        && reply.header.blockNumber < snapshot.blockNumber
        && (target == Number(reply.header.blockNumber) || target == Hash(reply.header.blockHash)))
  }

  /** Resolution succeeds with exactly the safe targets, the snapshot's own root winning for its own hash. */
  lemma ResolutionExact(id: BlockId, current: Head, reply: BlockReply, target: BlockId, root: Felt)
    ensures ResolveBlockId(id, current, reply) == Ok((target, root)) <==>
      && SafeTarget(id, current, reply, target, root)
      && (id == Hash(current.blockHash) ==> root == current.root)
  {
    WrapAdd(current.blockNumber, 0);
  }

  /** Resolution never panics, and fails with the node's own code if the node was asked and failed, with 1001 if the
      head's number is no block number, and with -1 for every other refusal. The node is asked for a number below the
      head and for a hash other than the head's. */
  lemma ResolutionErrors(id: BlockId, current: Head, reply: BlockReply)
    ensures
      var r := ResolveBlockId(id, current, reply);
      var asked := (id.Number? && id.number < current.blockNumber) || (id.Hash? && id.hash != current.blockHash);
      && !r.Panic?
      && (r.Err? ==>
            r.code == if asked && reply.Failed? then reply.code else if asked || id.Pending? then -1 else 1001)
  {
  }

  /** A storage read as the client sends it. */
  datatype Query = Query(block: BlockId, address: Felt, key: string)

  /** A request on its way: resolving under the read lock, or resolved with the lock released. */
  datatype Phase =
    | Resolving(query: Query, snapshot: Head)
    | Resolved(query: Query, check: Check)

  /** What a request hands to `verify`, with the snapshot and the reply it was resolved from. */
  datatype Check = Check(requested: BlockId, snapshot: Head, reply: BlockReply, target: BlockId, root: Felt)

  /** A resolved read that was answered, with the node's replies for the value and its proof. */
  datatype Answered = Answered(
    id: nat, query: Query, check: Check, value: Outcome<Felt>, proof: Outcome<GetProofResult>, result: Outcome<Felt>)

  /** `getStorageAt` from the resolved root on; the proof is asked for even when the value is zero. */
  function GetStorageAt(pl: Platform, root: Felt, query: Query, value: Outcome<Felt>, proof: Outcome<GetProofResult>):
    Outcome<Felt>
  {
    match value
    case Err(code) => Err(code)
    case Panic => Panic
    case Ok(text) =>
      match proof
      case Err(code) => Err(code)
      case Panic => Panic
      case Ok(result) =>
        match Verify(pl, result, root, query.address, query.key, text)
        case Err(code) => Err(code)
        case Panic => Panic
        case Ok(_) => Ok(text)
  }

  /** The poller's `current` and an update it has not written yet, the shared head and all it has been, the
      requests under way, and the reads answered. */
  datatype Server = Server(
    current: Head, update: Option<Head>, shared: Head, history: seq<Head>, requests: map<nat, Phase>,
    log: seq<Answered>)

  function Started(initial: Head): Server {
    Server(initial, None, initial, [initial], map[], [])
  }

  datatype Event =
    | Polled(outcome: Outcome<Head>)
    | Written
    | Requested(id: nat, query: Query)
    | Replied(id: nat, reply: BlockReply)
    | Fetched(id: nat, value: Outcome<Felt>, proof: Outcome<GetProofResult>)

  predicate ReadLocked(s: Server) {
    exists id :: id in s.requests && s.requests[id].Resolving?
  }

  /** The server after an event, if the event can happen. A write waits for every read lock; a request holds
      its read lock from the start until its block is resolved. */
  function Step(pl: Platform, s: Server, e: Event): Option<Server> {
    match e
    case Polled(outcome) =>
      if s.update.Some? then None
      else if outcome.Ok? && outcome.value != s.current then Some(s.(update := Some(outcome.value)))
      else Some(s)
    case Written =>
      if s.update.None? || ReadLocked(s) then None
      else
        var head := s.update.value;
        Some(s.(shared := head, history := s.history + [head], current := head, update := None))
    case Requested(id, query) =>
      if id in s.requests then None
      else Some(s.(requests := s.requests[id := Resolving(query, s.shared)]))
    case Replied(id, reply) =>
      if id !in s.requests || !s.requests[id].Resolving? then None
      else
        var query, snapshot := s.requests[id].query, s.requests[id].snapshot;
        var r := ResolveBlockId(query.block, snapshot, reply);
        if r.Ok? then
          var check := Check(query.block, snapshot, reply, r.value.0, r.value.1);
          Some(s.(requests := s.requests[id := Resolved(query, check)]))
        else Some(s.(requests := s.requests - {id}))
    case Fetched(id, value, proof) =>
      if id !in s.requests || !s.requests[id].Resolved? then None
      else
        var query, check := s.requests[id].query, s.requests[id].check;
        var result := GetStorageAt(pl, check.root, query, value, proof);
        Some(s.(requests := s.requests - {id}, log := s.log + [Answered(id, query, check, value, proof, result)]))
  }

  function Run(pl: Platform, s: Server, events: seq<Event>): Option<Server> {
    if events == [] then Some(s)
    else
      var last := |events| - 1;
      var before := Run(pl, s, events[..last]);
      if before.None? then None else Step(pl, before.value, events[last])
  }

  lemma RunOneMore(pl: Platform, s: Server, events: seq<Event>, e: Event)
    requires Run(pl, s, events).Some?
    ensures Run(pl, s, events + [e]) == Step(pl, Run(pl, s, events).value, e)
  {
    hide Step;
    assert (events + [e])[..|events|] == events;
  }

  function Outcomes(events: seq<Event>): seq<Outcome<Head>> {
    if events == [] then []
    else
      var last := |events| - 1;
      Outcomes(events[..last]) + (if events[last].Polled? then [events[last].outcome] else [])
  }

  /** What has been published, and what is about to be. */
  function Announced(s: Server): seq<Head> {
    s.history + (if s.update.Some? then [s.update.value] else [])
  }

  predicate SafeCheck(history: seq<Head>, c: Check) {
    c.snapshot in history && SafeTarget(c.requested, c.snapshot, c.reply, c.target, c.root)
  }

  /** An answered read was resolved to a safe target for the block it asks for. It returns a value exactly if the
      node's value passed `verify` against that target's root, and then that value. */
  predicate SafeRead(pl: Platform, history: seq<Head>, r: Answered) {
    && r.check.requested == r.query.block && SafeCheck(history, r.check)
    && (r.result.Ok? <==>
          && r.value.Ok? && r.proof.Ok?
          && Verify(pl, r.proof.value, r.check.root, r.query.address, r.query.key, r.value.value).Ok?)
    && (r.result.Ok? ==> r.result == r.value)
  }

  /** What every event keeps. */
  ghost predicate Invariant(pl: Platform, s: Server) {
    && s.history != [] && s.history[|s.history| - 1] == s.shared == s.current
    && (s.update.Some? ==> s.update.value != s.current)
    && (forall id :: id in s.requests && s.requests[id].Resolving? ==> s.requests[id].snapshot == s.shared)
    && (forall id :: id in s.requests && s.requests[id].Resolved? ==>
          && s.requests[id].check.requested == s.requests[id].query.block
          && SafeCheck(s.history, s.requests[id].check))
    && (forall i :: 0 <= i < |s.log| ==> SafeRead(pl, s.history, s.log[i]))
  }

  lemma StepInvariant(pl: Platform, s: Server, e: Event)
    requires Invariant(pl, s) && Step(pl, s, e).Some?
    ensures Invariant(pl, Step(pl, s, e).value)
  {
    match e
    case Replied(id, reply) => ReplyInvariant(pl, s, id, reply);
    case Fetched(id, value, proof) => FetchInvariant(pl, s, id, value, proof);
    case Written =>
      hide SafeTarget, Verify;
      assert forall h :: h in s.history ==> h in Step(pl, s, e).value.history;
    case _ =>
      hide SafeCheck, SafeRead;
  }

  lemma ReplyInvariant(pl: Platform, s: Server, id: nat, reply: BlockReply)
    requires Invariant(pl, s) && Step(pl, s, Replied(id, reply)).Some?
    ensures Invariant(pl, Step(pl, s, Replied(id, reply)).value)
  {
    hide SafeTarget, ResolveBlockId, SafeRead;
    var requested, snapshot := s.requests[id].query.block, s.requests[id].snapshot;
    var r := ResolveBlockId(requested, snapshot, reply);
    if r.Ok? { ResolutionExact(requested, snapshot, reply, r.value.0, r.value.1); }
  }

  lemma FetchInvariant(pl: Platform, s: Server, id: nat, value: Outcome<Felt>, proof: Outcome<GetProofResult>)
    requires Invariant(pl, s) && Step(pl, s, Fetched(id, value, proof)).Some?
    ensures Invariant(pl, Step(pl, s, Fetched(id, value, proof)).value)
  {
    hide SafeCheck, Verify;
  }

  lemma {:induction false} RunInvariant(pl: Platform, initial: Head, events: seq<Event>)
    requires Run(pl, Started(initial), events).Some?
    ensures Invariant(pl, Run(pl, Started(initial), events).value)
  {
    hide Step;
    if events != [] {
      var last := |events| - 1;
      RunInvariant(pl, initial, events[..last]);
      StepInvariant(pl, Run(pl, Started(initial), events[..last]).value, events[last]);
    }
  }

  /** Every request under way and every read answered is one that was asked. */
  ghost predicate Asked(s: Server, events: seq<Event>) {
    && (forall id :: id in s.requests ==> Requested(id, s.requests[id].query) in events)
    && (forall i :: 0 <= i < |s.log| ==> Requested(s.log[i].id, s.log[i].query) in events)
  }

  lemma {:induction false} RunAsked(pl: Platform, initial: Head, events: seq<Event>)
    requires Run(pl, Started(initial), events).Some?
    ensures Asked(Run(pl, Started(initial), events).value, events)
  {
    hide ResolveBlockId, GetStorageAt;
    if events != [] {
      var last := |events| - 1;
      RunAsked(pl, initial, events[..last]);
      assert forall e :: e in events[..last] ==> e in events;
    }
  }

  /** Safety of `getStorageAt` in every interleaving of polls and requests: every read answered is one that was
      asked, was resolved to a safe target for a snapshot that was published, and returned the node's value exactly
      if that passed `verify` against the target's root. While a request resolves, its snapshot is the shared head. */
  lemma ReadsAreVerified(pl: Platform, initial: Head, events: seq<Event>)
    requires Run(pl, Started(initial), events).Some?
    ensures
      var end := Run(pl, Started(initial), events).value;
      && (forall i :: 0 <= i < |end.log| ==>
            Requested(end.log[i].id, end.log[i].query) in events && SafeRead(pl, end.history, end.log[i]))
      && (forall id :: id in end.requests && end.requests[id].Resolving? ==> end.requests[id].snapshot == end.shared)
  {
    hide Run, SafeRead;
    RunInvariant(pl, initial, events);
    RunAsked(pl, initial, events);
  }

  /** What `getStorageAt` returns once resolved: the node's value exactly if its proof verifies it, and otherwise the
      failure of the node or of `verify`. */
  lemma GetStorageAtExact(pl: Platform, root: Felt, q: Query, value: Outcome<Felt>, proof: Outcome<GetProofResult>)
    ensures
      var r := GetStorageAt(pl, root, q, value, proof);
      if !value.Ok? then FailAlike(r, value)
      else if !proof.Ok? then FailAlike(r, proof)
      else
        var verified := Verify(pl, proof.value, root, q.address, q.key, value.value);
        if verified.Ok? then r == value else FailAlike(r, verified)
  {
    hide Verify;
  }

  /** Every read gets answered: from any server, for a free number, a block with a safe target and any replies, the
      three steps of a read can happen in a row, and leave behind one answer with the outcome of the read. */
  lemma ReadCompletes(pl: Platform, s: Server, id: nat, q: Query, reply: BlockReply, target: BlockId, root: Felt,
                      value: Outcome<Felt>, proof: Outcome<GetProofResult>)
    requires id !in s.requests && SafeTarget(q.block, s.shared, reply, target, root)
    requires q.block == Hash(s.shared.blockHash) ==> root == s.shared.root
    ensures
      var check := Check(q.block, s.shared, reply, target, root);
      var answered := Answered(id, q, check, value, proof, GetStorageAt(pl, root, q, value, proof));
      Run(pl, s, [Requested(id, q), Replied(id, reply), Fetched(id, value, proof)])
        == Some(s.(log := s.log + [answered]))
  {
    ResolutionExact(q.block, s.shared, reply, target, root);
    hide ResolveBlockId, SafeTarget, GetStorageAt;
    var events := [Requested(id, q), Replied(id, reply), Fetched(id, value, proof)];
    ThreeSteps(pl, s, events);
    assert s.requests[id := Resolving(q, s.shared)] - {id} == s.requests;
    var check := Check(q.block, s.shared, reply, target, root);
    assert s.requests[id := Resolving(q, s.shared)][id := Resolved(q, check)] - {id} == s.requests;
  }

  /** A read whose block does not resolve ends there and leaves nothing behind. */
  lemma ReadRefused(pl: Platform, s: Server, id: nat, q: Query, reply: BlockReply)
    requires id !in s.requests && !ResolveBlockId(q.block, s.shared, reply).Ok?
    ensures Run(pl, s, [Requested(id, q), Replied(id, reply)]) == Some(s)
  {
    hide ResolveBlockId;
    TwoSteps(pl, s, [Requested(id, q), Replied(id, reply)]);
    assert s.requests[id := Resolving(q, s.shared)] - {id} == s.requests;
  }

  lemma OneStep(pl: Platform, s: Server, events: seq<Event>)
    requires |events| == 1
    ensures Run(pl, s, events) == Step(pl, s, events[0])
  {
    assert events[..0] == [];
  }

  lemma TwoSteps(pl: Platform, s: Server, events: seq<Event>)
    requires |events| == 2
    ensures
      var one := Step(pl, s, events[0]);
      Run(pl, s, events) == if one.None? then None else Step(pl, one.value, events[1])
  {
    hide Step;
    assert events[..1][0] == events[0];
    OneStep(pl, s, events[..1]);
  }

  lemma ThreeSteps(pl: Platform, s: Server, events: seq<Event>)
    requires |events| == 3
    ensures
      var one := Step(pl, s, events[0]);
      var two := if one.None? then None else Step(pl, one.value, events[1]);
      Run(pl, s, events) == if two.None? then None else Step(pl, two.value, events[2])
  {
    hide Step;
    assert events[..2][0] == events[0] && events[..2][1] == events[1];
    TwoSteps(pl, s, events[..2]);
  }

  /** An answer of the gateway reaches the requests: with none of them resolving, a head other than the current one is
      published at once and is then the current and the shared head. */
  lemma UpdateArrives(pl: Platform, s: Server, head: Head)
    requires s.update.None? && !ReadLocked(s) && head != s.current
    ensures Run(pl, s, [Polled(Ok(head)), Written])
         == Some(s.(current := head, shared := head, history := s.history + [head]))
  {
    TwoSteps(pl, s, [Polled(Ok(head)), Written]);
    assert !ReadLocked(s.(update := Some(head)));
  }

  /** Nobody waits for anything but the read lock: polls go on unless an update is pending, a pending update is
      written exactly when no request resolves, and requests take every reply. */
  lemma OnlyWritesWait(pl: Platform, s: Server)
    ensures forall outcome :: Step(pl, s, Polled(outcome)).Some? <==> s.update.None?
    ensures forall outcome: Outcome<Head> :: s.update.None? && (outcome.Ok? ==> outcome.value == s.current) ==>
              Step(pl, s, Polled(outcome)) == Some(s)
    ensures Step(pl, s, Written).Some? <==> s.update.Some? && !ReadLocked(s)
    ensures forall id, query :: Step(pl, s, Requested(id, query)).Some? <==> id !in s.requests
    ensures forall id, reply :: Step(pl, s, Replied(id, reply)).Some? <==> id in s.requests && s.requests[id].Resolving?
    ensures forall id, value, proof ::
              Step(pl, s, Fetched(id, value, proof)).Some? <==> id in s.requests && s.requests[id].Resolved?
  {
    hide ResolveBlockId, GetStorageAt, ReadLocked;
  }

  lemma StepAnnounced(pl: Platform, s: Server, e: Event)
    requires Invariant(pl, s) && Step(pl, s, e).Some?
    ensures
      var next := Step(pl, s, e).value;
      && Announced(s) != []
      && Announced(next) ==
           if e.Polled? && e.outcome.Ok? && e.outcome.value != Announced(s)[|Announced(s)| - 1]
           then Announced(s) + [e.outcome.value] else Announced(s)
  {
    hide SafeRead, SafeCheck, ResolveBlockId, GetStorageAt;
  }

  /** Published history in every interleaving: requests do not disturb it. It is what the gateway's answers
      amount to, the last of it perhaps still to be written. */
  lemma {:induction false} PublishedHistory(pl: Platform, initial: Head, events: seq<Event>)
    requires Run(pl, Started(initial), events).Some?
    ensures Announced(Run(pl, Started(initial), events).value) == Published(initial, Outcomes(events))
  {
    hide Published, Step, Announced, Invariant;
    if events == [] {
      NothingPolled(initial);
      StartedAnnounced(initial);
    } else {
      var last := |events| - 1;
      var before := events[..last];
      PublishedHistory(pl, initial, before);
      RunInvariant(pl, initial, before);
      StepAnnounced(pl, Run(pl, Started(initial), before).value, events[last]);
      if events[last].Polled? {
        NextOutcome(initial, Outcomes(before), events[last].outcome);
      } else {
        assert Outcomes(events) == Outcomes(before);
      }
    }
  }

  lemma StartedAnnounced(initial: Head)
    ensures Announced(Started(initial)) == [initial]
  {
  }

  lemma StepGrows(pl: Platform, s: Server, e: Event)
    requires Step(pl, s, e).Some?
    ensures s.history <= Step(pl, s, e).value.history && s.log <= Step(pl, s, e).value.log
  {
  }

  /** A longer run only adds to what has been published, and at every point of it the poller's own copy is the
      shared head, the last one published. */
  lemma {:induction false} HistoryGrows(pl: Platform, initial: Head, events: seq<Event>, k: nat)
    requires k <= |events| && Run(pl, Started(initial), events).Some?
    ensures Run(pl, Started(initial), events[..k]).Some?
    ensures
      var earlier, later := Run(pl, Started(initial), events[..k]).value, Run(pl, Started(initial), events).value;
      && earlier.history <= later.history && earlier.log <= later.log
      && earlier.current == earlier.shared
      && earlier.history != [] && earlier.history[|earlier.history| - 1] == earlier.shared
  {
    hide Step;
    if k == |events| {
      assert events[..k] == events;
      RunInvariant(pl, initial, events);
    } else {
      var last := |events| - 1;
      HistoryGrows(pl, initial, events[..last], k);
      assert events[..last][..k] == events[..k];
      StepGrows(pl, Run(pl, Started(initial), events[..last]).value, events[last]);
    }
  }
}
