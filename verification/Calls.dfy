/** The RPC server as a whole (`rpc.rs`): the poller, the storage reads, and `call`, which gives its cached reader
    a copy of the shared head, in any interleaving. */
module Calls {
  import opened Wrappers
  import opened Platforms
  import opened FeltText
  import opened States
  import opened Cache
  import Heads
  import CacheRuns
  import ServedStates

  /** The head with the requests about it, the cached reads, and the events that each side has seen. */
  datatype Rpc = Rpc(
    server: Heads.Server, system: CacheRuns.System, polls: seq<Heads.Event>, steps: seq<CacheRuns.Event>)

  function Started(initial: Heads.Head): Rpc {
    Rpc(Heads.Started(initial), CacheRuns.INITIAL, [], [])
  }

  /** `InCall` is a step of a reader that a `Call` has opened. */
  datatype Event =
    | OnServer(poll: Heads.Event)
    | Call(id: nat)
    | InCall(read: CacheRuns.Event)

  /** What a call keeps of the head it copies. */
  function ReaderOf(head: Heads.Head): Reader {
    Reader(head.blockHash, head.root)
  }

  ghost function Read(pl: Platform, rpc: Rpc, e: CacheRuns.Event): Option<Rpc> {
    var next := CacheRuns.Step(pl, rpc.system, e);
    if next.None? then None else Some(rpc.(system := next.value, steps := rpc.steps + [e]))
  }

  ghost function Step(pl: Platform, rpc: Rpc, e: Event): Option<Rpc> {
    match e
    case OnServer(poll) =>
      var next := Heads.Step(pl, rpc.server, poll);
      if next.None? then None else Some(rpc.(server := next.value, polls := rpc.polls + [poll]))
    case Call(id) => Read(pl, rpc, CacheRuns.Open(id, ReaderOf(rpc.server.shared)))
    case InCall(read) => if read.Open? then None else Read(pl, rpc, read)
  }

  ghost function Run(pl: Platform, rpc: Rpc, events: seq<Event>): Option<Rpc> {
    if events == [] then Some(rpc)
    else
      var last := |events| - 1;
      var before := Run(pl, rpc, events[..last]);
      if before.None? then None else Step(pl, before.value, events[last])
  }

  /** Every reader holds a published head. */
  ghost predicate ReadPublished(rpc: Rpc) {
    forall r :: r in rpc.system.readers ==> exists head :: head in rpc.server.history && r == ReaderOf(head)
  }

  /** What every event keeps: both sides are runs of their own, and readers hold published heads. */
  ghost predicate Invariant(pl: Platform, initial: Heads.Head, rpc: Rpc) {
    && Heads.Run(pl, Heads.Started(initial), rpc.polls) == Some(rpc.server)
    && CacheRuns.Run(pl, CacheRuns.INITIAL, rpc.steps) == Some(rpc.system)
    && ReadPublished(rpc)
  }

  lemma StepInvariant(pl: Platform, initial: Heads.Head, rpc: Rpc, e: Event)
    requires Invariant(pl, initial, rpc) && Step(pl, rpc, e).Some?
    ensures Invariant(pl, initial, Step(pl, rpc, e).value)
  {
    hide Heads.Run, Heads.Step, CacheRuns.Run, CacheRuns.Step;
    match e
    case OnServer(poll) => PollInvariant(pl, initial, rpc, poll);
    case Call(id) =>
      Heads.RunInvariant(pl, initial, rpc.polls);
      ReadInvariant(pl, initial, rpc, CacheRuns.Open(id, ReaderOf(rpc.server.shared)));
    case InCall(read) => ReadInvariant(pl, initial, rpc, read);
  }

  lemma PollInvariant(pl: Platform, initial: Heads.Head, rpc: Rpc, poll: Heads.Event)
    requires Invariant(pl, initial, rpc) && Step(pl, rpc, OnServer(poll)).Some?
    ensures Invariant(pl, initial, Step(pl, rpc, OnServer(poll)).value)
  {
    Heads.StepGrows(pl, rpc.server, poll);
    hide Heads.Run, Heads.Step, CacheRuns.Run, CacheRuns.Step;
    Heads.RunOneMore(pl, Heads.Started(initial), rpc.polls, poll);
  }

  lemma ReadInvariant(pl: Platform, initial: Heads.Head, rpc: Rpc, read: CacheRuns.Event)
    requires Invariant(pl, initial, rpc) && Read(pl, rpc, read).Some?
    requires read.Open? ==> exists head :: head in rpc.server.history && read.reader == ReaderOf(head)
    ensures Invariant(pl, initial, Read(pl, rpc, read).value)
  {
    OnlyOpenAddsReaders(pl, rpc.system, read);
    hide Heads.Run, CacheRuns.Run, CacheRuns.Step;
    CacheRuns.RunOneMore(pl, CacheRuns.INITIAL, rpc.steps, read);
  }

  lemma OnlyOpenAddsReaders(pl: Platform, s: CacheRuns.System, e: CacheRuns.Event)
    requires CacheRuns.Step(pl, s, e).Some?
    ensures CacheRuns.Step(pl, s, e).value.readers == if e.Open? then s.readers + {e.reader} else s.readers
  {
    hide CacheRuns.Inner, CacheRuns.KeyOf, Stored;
  }

  /** In every interleaving of polls, storage reads and calls, both sides run as if alone, and every reader of the
      caches holds a head that was published, one of the gateway's answers. */
  lemma CallsReadPublishedHeads(pl: Platform, initial: Heads.Head, events: seq<Event>)
    requires Run(pl, Started(initial), events).Some?
    ensures
      var end := Run(pl, Started(initial), events).value;
      && Invariant(pl, initial, end)
      && end.server.history <= Heads.Published(initial, Heads.Outcomes(end.polls))
  {
    RunInvariant(pl, initial, events);
    Heads.PublishedHistory(pl, initial, Run(pl, Started(initial), events).value.polls);
    hide Run, Heads.Run, CacheRuns.Run;
  }

  lemma {:induction false} RunInvariant(pl: Platform, initial: Heads.Head, events: seq<Event>)
    requires Run(pl, Started(initial), events).Some?
    ensures Invariant(pl, initial, Run(pl, Started(initial), events).value)
  {
    hide Step, Invariant;
    if events == [] {
      StartedInvariant(pl, initial);
    } else {
      var last := |events| - 1;
      RunInvariant(pl, initial, events[..last]);
      StepInvariant(pl, initial, Run(pl, Started(initial), events[..last]).value, events[last]);
    }
  }

  lemma StartedInvariant(pl: Platform, initial: Heads.Head)
    ensures Invariant(pl, initial, Started(initial))
  {
  }

  /** Heads of one block, as the caches tell blocks apart, have one root. */
  predicate OneRootPublished(history: seq<Heads.Head>, block: nat, root: Felt) {
    forall head :: head in history && BlockKey(head.blockHash) == block ==> head.root == root
  }

  /** Values served to calls: where the heads published with a block hash have one root, every storage value served
      for that block, cached or not, was fetched for the same request by a call on the block, and its own reply
      was zero or verified against the very root the served call holds. */
  lemma CallsAreVerified(pl: Platform, initial: Heads.Head, events: seq<Event>, i: nat)
    requires Run(pl, Started(initial), events).Some?
    requires
      var end := Run(pl, Started(initial), events).value;
      && i < |end.system.log| && end.system.log[i].result.Ok? && end.system.log[i].request.StorageAt?
      && var reader := end.system.log[i].reader;
      OneRootPublished(end.server.history, BlockKey(reader.blockHash), reader.root)
    ensures
      var end := Run(pl, Started(initial), events).value;
      var served := end.system.log[i];
      var key, answer := CacheRuns.KeyOf(served.reader, served.request), served.result.value;
      && (exists head :: head in end.server.history && served.reader == ReaderOf(head))
      && CacheRuns.FetchedBefore(pl, end.steps, |end.steps|, key, answer)
      && forall j: nat :: CacheRuns.FetchedAt(pl, end.steps, j, key, answer) ==>
           CacheRuns.FetchVerified(pl, CacheRuns.FetchAt(pl, end.steps, j).value, served.reader.root, answer)
  {
    RunInvariant(pl, initial, events);
    var end := Run(pl, Started(initial), events).value;
    assert end.steps[..|end.steps|] == end.steps;
    CacheRuns.RunRegistered(pl, CacheRuns.INITIAL, end.steps);
    hide Run, Heads.Run, CacheRuns.Run, CacheRuns.FetchedBefore, CacheRuns.FetchVerified;
    CacheRuns.ServedIsVerifiedOwnRoot(pl, end.steps, |end.steps|, i);
  }

  /** Where the heads published with a block hash carry the root of a state, every storage value served to a call on
      that block is settled against the state: fetched for the same request, and if the reply that gave it passes
      the caller's checks, zero or the value the state holds, or that reply exhibits a collision. */
  lemma CallsMatchState(pl: Platform, initial: Heads.Head, events: seq<Event>, block: nat, s: State)
    requires Run(pl, Started(initial), events).Some? && ValidState(pl, s)
    requires
      var history := Run(pl, Started(initial), events).value.server.history;
      forall head :: head in history && BlockKey(head.blockHash) == block ==>
        FromHex(pl, head.root) == Some(StateRoot(pl, s))
    ensures
      var end := Run(pl, Started(initial), events).value;
      var log := end.system.log;
      forall i :: 0 <= i < |log| && log[i].result.Ok? && BlockKey(log[i].reader.blockHash) == block ==>
        ServedStates.Settled(pl, s, end.steps, |end.steps|, (block, log[i].request), log[i].result.value)
  {
    RunInvariant(pl, initial, events);
    var end := Run(pl, Started(initial), events).value;
    assert end.steps[..|end.steps|] == end.steps;
    hide Run, Heads.Run, CacheRuns.Run, ServedStates.Settled, StateRoot, ValidState, FromHex;
    ServedStates.ServedMatchesState(pl, end.steps, |end.steps|, block, s);
  }

  /** Each side goes on as if alone: polls and storage reads do not wait for calls, nor change what they see, and a
      call's reads do not wait for the head. */
  lemma SidesAreIndependent(pl: Platform, rpc: Rpc, poll: Heads.Event, read: CacheRuns.Event)
    ensures
      var next := Step(pl, rpc, OnServer(poll));
      if next.None? then Heads.Step(pl, rpc.server, poll).None?
      else Heads.Step(pl, rpc.server, poll) == Some(next.value.server) && next.value.system == rpc.system
    ensures
      var next := Step(pl, rpc, InCall(read));
      !read.Open? ==>
        if next.None? then CacheRuns.Step(pl, rpc.system, read).None?
        else CacheRuns.Step(pl, rpc.system, read) == Some(next.value.system) && next.value.server == rpc.server
  {
    hide Heads.Step, CacheRuns.Step;
  }

  function InCalls(steps: seq<CacheRuns.Event>): (events: seq<Event>)
    ensures |events| == |steps|
  {
    seq(|steps|, i requires 0 <= i < |steps| => InCall(steps[i]))
  }

  lemma {:induction false} InCallsRun(pl: Platform, rpc: Rpc, steps: seq<CacheRuns.Event>)
    requires CacheRuns.Run(pl, rpc.system, steps).Some?
    requires forall i :: 0 <= i < |steps| ==> !steps[i].Open?
    ensures
      var end := Run(pl, rpc, InCalls(steps));
      && end.Some? && end.value.server == rpc.server
      && CacheRuns.Run(pl, rpc.system, steps) == Some(end.value.system)
  {
    hide CacheRuns.Run, CacheRuns.Step, Heads.Step;
    if steps == [] {
      NothingRead(pl, rpc);
    } else {
      var last := |steps| - 1;
      var init := steps[..last];
      CacheRuns.RunSplit(pl, rpc.system, steps, last);
      InCallsRun(pl, rpc, init);
      CacheRuns.RunOneMore(pl, rpc.system, init, steps[last]);
      assert init + [steps[last]] == steps;
      assert InCalls(steps)[..last] == InCalls(init);
    }
  }

  lemma NothingRead(pl: Platform, rpc: Rpc)
    ensures CacheRuns.Run(pl, rpc.system, []) == Some(rpc.system)
  {
  }

  /** A reader that is idle reads by itself to the end. */
  lemma IdleReads(pl: Platform, rpc: Rpc, id: nat, reader: Reader, request: CacheRuns.Request,
                  replies: CacheRuns.Replies, contents: CacheRuns.Contents)
    requires id in rpc.system.sessions && rpc.system.sessions[id] == CacheRuns.Session(reader, CacheRuns.Idle)
    requires
      var cache, key := CacheRuns.Select(rpc.system.caches, request), CacheRuns.KeyOf(reader, request);
      var inner := CacheRuns.Inner(pl, reader, request, replies);
      key !in cache && inner.Ok? ==> Stored(cache, key, inner.value, contents) && |contents| <= CacheRuns.Size(request)
    ensures
      var end := Run(pl, rpc, InCalls(CacheRuns.ReadAlone(pl, rpc.system, id, request, replies, contents)));
      && end.Some? && end.value.server == rpc.server
      && var cache, key := CacheRuns.Select(rpc.system.caches, request), CacheRuns.KeyOf(reader, request);
      var result := if key in cache then Ok(cache[key]) else CacheRuns.Inner(pl, reader, request, replies);
      end.value.system.log == rpc.system.log + [CacheRuns.Served(reader, request, result)]
  {
    hide CacheRuns.Run, CacheRuns.Step, CacheRuns.Inner, CacheRuns.KeyOf, CacheRuns.Select, Run, Step, Stored;
    hide CacheRuns.Size, CacheRuns.Replace;
    CacheRuns.ReadAloneIsReadThrough(pl, rpc.system, id, request, replies, contents);
    InCallsRun(pl, rpc, CacheRuns.ReadAlone(pl, rpc.system, id, request, replies, contents));
  }

  /** A call reads the head as it is when it starts: from any state, under a free number, it gets a reader of the
      shared head's hash and root. */
  lemma CallOpens(pl: Platform, rpc: Rpc, id: nat)
    requires id !in rpc.system.sessions
    ensures
      var called := Step(pl, rpc, Call(id));
      && called.Some? && called.value.server == rpc.server && id in called.value.system.sessions
      && called.value.system.caches == rpc.system.caches && called.value.system.log == rpc.system.log
      && var reader := Reader(rpc.server.shared.blockHash, rpc.server.shared.root);
      called.value.system.sessions[id] == CacheRuns.Session(reader, CacheRuns.Idle)
  {
    CacheRuns.OpenedReader(pl, rpc.system, id, ReaderOf(rpc.server.shared));
    hide CacheRuns.Step;
  }

  /** And a read of it, run alone, is served as that reader's. */
  lemma CallReadsSharedHead(pl: Platform, rpc: Rpc, id: nat, request: CacheRuns.Request, replies: CacheRuns.Replies,
                            contents: CacheRuns.Contents)
    requires id !in rpc.system.sessions
    requires
      var reader := Reader(rpc.server.shared.blockHash, rpc.server.shared.root);
      var cache, key := CacheRuns.Select(rpc.system.caches, request), CacheRuns.KeyOf(reader, request);
      var inner := CacheRuns.Inner(pl, reader, request, replies);
      key !in cache && inner.Ok? ==> Stored(cache, key, inner.value, contents) && |contents| <= CacheRuns.Size(request)
    ensures
      var called := Step(pl, rpc, Call(id));
      && called.Some? && id in called.value.system.sessions
      && var end := Run(pl, called.value,
                        InCalls(CacheRuns.ReadAlone(pl, called.value.system, id, request, replies, contents)));
      && end.Some? && end.value.server == rpc.server
      && var reader := Reader(rpc.server.shared.blockHash, rpc.server.shared.root);
      var cache, key := CacheRuns.Select(rpc.system.caches, request), CacheRuns.KeyOf(reader, request);
      var result := if key in cache then Ok(cache[key]) else CacheRuns.Inner(pl, reader, request, replies);
      end.value.system.log == rpc.system.log + [CacheRuns.Served(reader, request, result)]
  {
    CallOpens(pl, rpc, id);
    hide Step, Run, CacheRuns.Inner, CacheRuns.KeyOf, CacheRuns.Select, Stored, CacheRuns.ReadAlone, CacheRuns.Size;
    var reader := Reader(rpc.server.shared.blockHash, rpc.server.shared.root);
    IdleReads(pl, Step(pl, rpc, Call(id)).value, id, reader, request, replies, contents);
  }
}
