/** The shared caches under any interleaving of any number of readers: looking up, fetching and storing are
    separate steps, and other readers' steps may come between them. */
module CacheRuns {
  import opened Wrappers
  import opened Platforms
  import opened FeltText
  import opened EndToEnd
  import opened Cache
  import Hex

  datatype Request =
    | StorageAt(address: Field, key: Field)
    | ClassHashAt(address: Field)
    | CompiledClass(classHash: Field)

  datatype Answer = Word(word: Field) | Class(code: string)

  type Key = (nat, Request)

  type Contents = map<Key, Answer>

  /** The three process-wide caches. */
  datatype Caches = Caches(storage: Contents, classHash: Contents, contractClass: Contents)

  function Select(c: Caches, request: Request): Contents {
    match request
    case StorageAt(_, _) => c.storage
    case ClassHashAt(_) => c.classHash
    case CompiledClass(_) => c.contractClass
  }

  function Replace(c: Caches, request: Request, contents: Contents): Caches {
    match request
    case StorageAt(_, _) => c.(storage := contents)
    case ClassHashAt(_) => c.(classHash := contents)
    case CompiledClass(_) => c.(contractClass := contents)
  }

  function Size(request: Request): nat {
    if request.StorageAt? then STORAGE_SIZE else if request.ClassHashAt? then CLASS_HASH_SIZE else CONTRACT_CLASS_SIZE
  }

  function KeyOf(reader: Reader, request: Request): (k: Key)
    ensures k.1 == request
  {
    (BlockKey(reader.blockHash), request)
  }

  /** The replies a fetch gets: those for a storage read, and the outcome of an unverified class read. */
  datatype Replies = Replies(upstream: Upstream, classRead: Outcome<Answer>)

  /** The uncached read. */
  function Inner(pl: Platform, reader: Reader, request: Request, replies: Replies): Outcome<Answer> {
    match request
    case StorageAt(address, key) =>
      (match ProxyStorageAt(pl, reader, address, key, replies.upstream)
       case Ok(word) => Ok(Word(word))
       case Err(code) => Err(code)
       case Panic => Panic)
    case _ => replies.classRead
  }

  datatype Phase = Idle | Missed(request: Request) | Fetched(request: Request, answer: Answer)

  datatype Session = Session(reader: Reader, phase: Phase)

  datatype Served = Served(reader: Reader, request: Request, result: Outcome<Answer>)

  datatype System = System(sessions: map<nat, Session>, caches: Caches, readers: set<Reader>, log: seq<Served>)

  const INITIAL := System(map[], Caches(map[], map[], map[]), {}, [])

  /** The write half of the state interface: each call reaches `StateProxy`, which only logs it. */
  datatype Write =
    | SetStorageAt(address: Field, key: Field, value: Field)
    | IncrementNonce(address: Field)
    | SetClassHashAt(address: Field, classHash: Field)
    | SetContractClass(classHash: Field, code: string)
    | SetCompiledClassHash(classHash: Field, compiled: Field)
    | AddVisitedPcs(classHash: Field)

  datatype Event =
    | Open(id: nat, reader: Reader)
    | Get(id: nat, request: Request)
    | Fetch(id: nat, replies: Replies)
    | Put(id: nat, contents: Contents)
    | Change(id: nat, write: Write)

  function Serve(s: System, id: nat, request: Request, result: Outcome<Answer>): System
    requires id in s.sessions
  {
    var session := s.sessions[id];
    s.(sessions := s.sessions[id := session.(phase := Idle)], log := s.log + [Served(session.reader, request, result)])
  }

  /** The system after an event, if the event can happen. `contents` is what the cache chooses to hold. */
  ghost function Step(pl: Platform, s: System, e: Event): Option<System> {
    match e
    case Open(id, reader) =>
      if id in s.sessions then None
      else Some(s.(sessions := s.sessions[id := Session(reader, Idle)], readers := s.readers + {reader}))
    case Get(id, request) =>
      if id !in s.sessions || !s.sessions[id].phase.Idle? then None
      else
        var key, cache := KeyOf(s.sessions[id].reader, request), Select(s.caches, request);
        if key in cache then Some(Serve(s, id, request, Ok(cache[key])))
        else Some(s.(sessions := s.sessions[id := s.sessions[id].(phase := Missed(request))]))
    case Fetch(id, replies) =>
      if id !in s.sessions || !s.sessions[id].phase.Missed? then None
      else
        var request := s.sessions[id].phase.request;
        (match Inner(pl, s.sessions[id].reader, request, replies)
         case Ok(answer) => Some(s.(sessions := s.sessions[id := s.sessions[id].(phase := Fetched(request, answer))]))
         case Err(code) => Some(Serve(s, id, request, Err(code)))
         case Panic => Some(Serve(s, id, request, Panic)))
    case Put(id, contents) =>
      if id !in s.sessions || !s.sessions[id].phase.Fetched? then None
      else
        var request, answer := s.sessions[id].phase.request, s.sessions[id].phase.answer;
        if Stored(Select(s.caches, request), KeyOf(s.sessions[id].reader, request), answer, contents)
           && |contents| <= Size(request)
        then Some(Serve(s, id, request, Ok(answer)).(caches := Replace(s.caches, request, contents)))
        else None
    case Change(id, _) =>
      if id in s.sessions && s.sessions[id].phase.Idle? then Some(s) else None
  }

  /** The system after a sequence of events, if each can happen in its turn. */
  ghost function Run(pl: Platform, s: System, events: seq<Event>): Option<System>
    decreases |events|
  {
    if events == [] then Some(s)
    else
      var next := Step(pl, s, events[0]);
      if next.None? then None else Run(pl, next.value, events[1..])
  }

  /** A property of answers holds of all that a system stores, carries or has served. */
  ghost predicate AllAnswers(s: System, good: (Key, Answer) -> bool) {
    && (forall k: Key :: k in Select(s.caches, k.1) ==> good(k, Select(s.caches, k.1)[k]))
    && (forall id :: id in s.sessions && s.sessions[id].phase.Fetched? ==>
          good(KeyOf(s.sessions[id].reader, s.sessions[id].phase.request), s.sessions[id].phase.answer))
    && (forall i :: 0 <= i < |s.log| && s.log[i].result.Ok? ==>
          good(KeyOf(s.log[i].reader, s.log[i].request), s.log[i].result.value))
  }

  /** An uncached read that succeeds has the property. */
  ghost predicate GoodFetch(pl: Platform, s: System, e: Event, good: (Key, Answer) -> bool) {
    e.Fetch? && e.id in s.sessions && s.sessions[e.id].phase.Missed? ==>
      var reader, request := s.sessions[e.id].reader, s.sessions[e.id].phase.request;
      var answer := Inner(pl, reader, request, e.replies);
      answer.Ok? ==> good(KeyOf(reader, request), answer.value)
  }

  lemma StepAnswers(pl: Platform, s: System, e: Event, good: (Key, Answer) -> bool)
    requires AllAnswers(s, good) && GoodFetch(pl, s, e, good) && Step(pl, s, e).Some?
    ensures AllAnswers(Step(pl, s, e).value, good)
  {
    hide Inner, Size, Stored;
    if e.Put? {
      var session := s.sessions[e.id];
      var request, answer := session.phase.request, session.phase.answer;
      PutAnswers(s, KeyOf(session.reader, request), answer, e.contents, good);
    }
  }

  lemma PutAnswers(s: System, key: Key, answer: Answer, contents: Contents, good: (Key, Answer) -> bool)
    requires AllAnswers(s, good) && good(key, answer)
    requires Stored(Select(s.caches, key.1), key, answer, contents)
    ensures AllAnswers(s.(caches := Replace(s.caches, key.1, contents)), good)
  {
  }

  /** A run up to a point, and one step on. */
  lemma {:induction false} RunSplit(pl: Platform, s: System, events: seq<Event>, n: nat)
    requires n <= |events| && Run(pl, s, events).Some?
    ensures Run(pl, s, events[..n]).Some?
    ensures Run(pl, Run(pl, s, events[..n]).value, events[n..]) == Run(pl, s, events)
    decreases n
  {
    hide Step;
    if n == 0 {
      assert events[..0] == [] && events[0..] == events;
    } else {
      RunSplit(pl, Step(pl, s, events[0]).value, events[1..], n - 1);
      assert events[..n][1..] == events[1..][..n - 1] && events[1..][n - 1..] == events[n..];
    }
  }

  lemma {:induction false} RunOneMore(pl: Platform, s: System, events: seq<Event>, e: Event)
    requires Run(pl, s, events).Some?
    ensures Run(pl, s, events + [e]) == Step(pl, Run(pl, s, events).value, e)
    decreases |events|
  {
    hide Step;
    if events == [] {
      assert [] + [e] == [e] && [e][1..] == [];
    } else {
      RunOneMore(pl, Step(pl, s, events[0]).value, events[1..], e);
      assert (events + [e])[1..] == events[1..] + [e];
    }
  }

  lemma RunStep(pl: Platform, events: seq<Event>, n: nat)
    requires n < |events| && Run(pl, INITIAL, events).Some?
    ensures Run(pl, INITIAL, events[..n]).Some? && Run(pl, INITIAL, events[..n + 1]).Some?
    ensures Step(pl, Run(pl, INITIAL, events[..n]).value, events[n]) == Run(pl, INITIAL, events[..n + 1])
  {
    hide Step, Run;
    RunSplit(pl, INITIAL, events, n);
    RunSplit(pl, INITIAL, events, n + 1);
    RunOneMore(pl, INITIAL, events[..n], events[n]);
    assert events[..n + 1] == events[..n] + [events[n]];
  }

  /** A fetch that was made: who asked, for what, and the replies to it. */
  datatype FetchMade = FetchMade(reader: Reader, request: Request, replies: Replies)

  /** The fetch that event `j` of a run is, by a reader whose session missed the request. */
  ghost function FetchAt(pl: Platform, events: seq<Event>, j: nat): Option<FetchMade> {
    if j >= |events| || !events[j].Fetch? then None
    else
      var before, e := Run(pl, INITIAL, events[..j]), events[j];
      if before.None? || e.id !in before.value.sessions || !before.value.sessions[e.id].phase.Missed? then None
      else Some(FetchMade(before.value.sessions[e.id].reader, before.value.sessions[e.id].phase.request, e.replies))
  }

  /** The replies to a fetch make it the answer for a cache key. */
  predicate Gives(pl: Platform, f: FetchMade, key: Key, answer: Answer) {
    KeyOf(f.reader, f.request) == key && Inner(pl, f.reader, f.request, f.replies) == Ok(answer)
  }

  /** Event `j` is a fetch that gives the answer. */
  ghost predicate FetchedAt(pl: Platform, events: seq<Event>, j: nat, key: Key, answer: Answer) {
    FetchAt(pl, events, j).Some? && Gives(pl, FetchAt(pl, events, j).value, key, answer)
  }

  /** One of the first `n` events is such a fetch. */
  ghost predicate FetchedBefore(pl: Platform, events: seq<Event>, n: nat, key: Key, answer: Answer) {
    exists j: nat :: j < n && FetchedAt(pl, events, j, key, answer)
  }

  ghost function FetchedIn(pl: Platform, events: seq<Event>, n: nat): (Key, Answer) -> bool {
    (key: Key, answer: Answer) => FetchedBefore(pl, events, n, key, answer)
  }

  /** Whatever is stored, carried or has been served at a point of a run was fetched before that point, for the
      same request and by a reader on the same block. */
  lemma {:induction false} AnswersAreFetched(pl: Platform, events: seq<Event>, n: nat)
    requires n <= |events| && Run(pl, INITIAL, events).Some?
    ensures Run(pl, INITIAL, events[..n]).Some?
    ensures AllAnswers(Run(pl, INITIAL, events[..n]).value, FetchedIn(pl, events, n))
  {
    if n > 0 {
      hide Step, Run, AllAnswers, GoodFetch, FetchedIn;
      AnswersAreFetched(pl, events, n - 1);
      RunStep(pl, events, n - 1);
      var before := Run(pl, INITIAL, events[..n - 1]).value;
      AnswersStay(pl, before, events, n - 1);
      FetchIsGood(pl, before, events, n - 1);
      StepAnswers(pl, before, events[n - 1], FetchedIn(pl, events, n));
    } else {
      assert events[..0] == [];
    }
  }

  lemma AnswersStay(pl: Platform, s: System, events: seq<Event>, n: nat)
    requires AllAnswers(s, FetchedIn(pl, events, n))
    ensures AllAnswers(s, FetchedIn(pl, events, n + 1))
  {
    hide FetchedAt;
    assert forall key: Key, answer ::
        FetchedBefore(pl, events, n, key, answer) ==> FetchedBefore(pl, events, n + 1, key, answer);
  }

  lemma FetchIsGood(pl: Platform, s: System, events: seq<Event>, n: nat)
    requires n < |events| && Run(pl, INITIAL, events[..n]) == Some(s)
    ensures GoodFetch(pl, s, events[n], FetchedIn(pl, events, n + 1))
  {
    hide Inner, Run;
    var e := events[n];
    if e.Fetch? && e.id in s.sessions && s.sessions[e.id].phase.Missed? {
      var reader, request := s.sessions[e.id].reader, s.sessions[e.id].phase.request;
      var answer := Inner(pl, reader, request, e.replies);
      if answer.Ok? {
        assert FetchedAt(pl, events, n, KeyOf(reader, request), answer.value);
      }
    }
  }

  /** Every value served in a run, from the cache or not, is the answer of a fetch made before it was served. */
  lemma ServedIsFetched(pl: Platform, events: seq<Event>, n: nat)
    requires n <= |events| && Run(pl, INITIAL, events).Some?
    ensures Run(pl, INITIAL, events[..n]).Some?
    ensures
      var log := Run(pl, INITIAL, events[..n]).value.log;
      forall i :: 0 <= i < |log| && log[i].result.Ok? ==>
        FetchedBefore(pl, events, n, KeyOf(log[i].reader, log[i].request), log[i].result.value)
  {
    AnswersAreFetched(pl, events, n);
    hide Run, FetchedBefore;
  }

  /** Two reads share a cache entry exactly when they ask the same of block hashes equal up to letter case. */
  lemma SharedEntry(r: Reader, x: Request, q: Reader, y: Request)
    ensures KeyOf(r, x) == KeyOf(q, y) <==> Hex.ToLower(r.blockHash) == Hex.ToLower(q.blockHash) && x == y
  {
    EqualValueIsEqualText(r.blockHash, q.blockHash);
  }

  /** The uncached reads of a run that succeed give one answer per block hash number and request. */
  ghost predicate OneStatePerBlock(pl: Platform, events: seq<Event>, truth: (nat, Request) -> Answer) {
    forall j: nat, key: Key, answer :: FetchedAt(pl, events, j, key, answer) ==> answer == truth(key.0, key.1)
  }

  /** Coherence in every interleaving: where each block hash fixes one state, every read of a run that
      succeeds, from the cache or not, returns what the uncached read of that block and request returns. */
  lemma CachedReadsAgree(pl: Platform, events: seq<Event>, truth: (nat, Request) -> Answer)
    requires Run(pl, INITIAL, events).Some? && OneStatePerBlock(pl, events, truth)
    ensures
      var log := Run(pl, INITIAL, events).value.log;
      forall i :: 0 <= i < |log| && log[i].result.Ok? ==>
        log[i].result.value == truth(Value(log[i].reader.blockHash), log[i].request)
  {
    ServedIsFetched(pl, events, |events|);
    assert events[..|events|] == events;
    hide Run, FetchedAt;
  }

  /** A fetch of a class hash or a class gives exactly what the node replied. */
  lemma ClassGiven(pl: Platform, f: FetchMade, key: Key, answer: Answer)
    requires !f.request.StorageAt?
    ensures Gives(pl, f, key, answer) <==> KeyOf(f.reader, f.request) == key && f.replies.classRead == Ok(answer)
  {
  }

  /** Event `j` is a fetch of a class or a class hash to which the node replied the answer. */
  ghost predicate RepliedAt(pl: Platform, events: seq<Event>, j: nat, block: nat, request: Request, answer: Answer) {
    && FetchAt(pl, events, j).Some?
    && var f := FetchAt(pl, events, j).value;
    f.request == request && BlockKey(f.reader.blockHash) == block && f.replies.classRead == Ok(answer)
  }

  /** Every class or class hash served in a run, from the cache or not, is the node's own reply to a fetch made before
      for the same request on the same block. Nothing verifies it. */
  lemma ServedClassesAreReplies(pl: Platform, events: seq<Event>, n: nat)
    requires n <= |events| && Run(pl, INITIAL, events).Some?
    ensures Run(pl, INITIAL, events[..n]).Some?
    ensures
      var log := Run(pl, INITIAL, events[..n]).value.log;
      forall i :: 0 <= i < |log| && log[i].result.Ok? && !log[i].request.StorageAt? ==>
        exists j: nat :: j < n && RepliedAt(pl, events, j, Value(log[i].reader.blockHash), log[i].request,
                                            log[i].result.value)
  {
    ServedIsFetched(pl, events, n);
    var log := Run(pl, INITIAL, events[..n]).value.log;
    hide Run, Inner, FetchAt;
    forall i | 0 <= i < |log| && log[i].result.Ok? && !log[i].request.StorageAt?
      ensures exists j: nat :: j < n && RepliedAt(pl, events, j, Value(log[i].reader.blockHash), log[i].request,
                                                  log[i].result.value)
    {
      var key, answer := KeyOf(log[i].reader, log[i].request), log[i].result.value;
      var j: nat :| j < n && FetchedAt(pl, events, j, key, answer);
      ClassGiven(pl, FetchAt(pl, events, j).value, key, answer);
      assert RepliedAt(pl, events, j, Value(log[i].reader.blockHash), log[i].request, answer);
    }
  }

  /** Only opened readers work. */
  ghost predicate Registered(s: System, readers: set<Reader>) {
    && s.readers <= readers
    && (forall id :: id in s.sessions ==> s.sessions[id].reader in s.readers)
    && (forall i :: 0 <= i < |s.log| ==> s.log[i].reader in s.readers)
  }

  lemma {:induction false} RunRegistered(pl: Platform, s: System, events: seq<Event>)
    requires Registered(s, s.readers) && Run(pl, s, events).Some?
    ensures
      var end := Run(pl, s, events).value;
      && Registered(end, end.readers) && s.readers <= end.readers
    decreases |events|
  {
    if events != [] {
      StepRegistered(pl, s, events[0]);
      RunRegistered(pl, Step(pl, s, events[0]).value, events[1..]);
    }
  }

  lemma StepRegistered(pl: Platform, s: System, e: Event)
    requires Registered(s, s.readers) && Step(pl, s, e).Some?
    ensures
      var next := Step(pl, s, e).value;
      Registered(next, next.readers) && s.readers <= next.readers
  {
    hide Inner, Stored, KeyOf;
  }

  /** Whoever fetches in a run was opened in it. */
  lemma FetchedByReader(pl: Platform, events: seq<Event>, j: nat)
    requires Run(pl, INITIAL, events).Some? && FetchAt(pl, events, j).Some?
    ensures FetchAt(pl, events, j).value.reader in Run(pl, INITIAL, events).value.readers
  {
    ReadersStay(pl, events, j);
  }

  lemma ReadersStay(pl: Platform, events: seq<Event>, n: nat)
    requires n <= |events| && Run(pl, INITIAL, events).Some?
    ensures Run(pl, INITIAL, events[..n]).Some?
    ensures
      var there, end := Run(pl, INITIAL, events[..n]).value, Run(pl, INITIAL, events).value;
      Registered(there, there.readers) && there.readers <= end.readers
  {
    RunSplit(pl, INITIAL, events, n);
    RunRegistered(pl, INITIAL, events[..n]);
    RunRegistered(pl, Run(pl, INITIAL, events[..n]).value, events[n..]);
  }

  /** The reply to a storage fetch gave the word: it is zero, or its proof verified it against a root. */
  predicate FetchVerified(pl: Platform, f: FetchMade, root: Felt, answer: Answer) {
    f.request.StorageAt? && answer.Word?
    && VerifiedReply(pl, root, f.request.address, f.request.key, answer.word, f.replies.upstream)
  }

  /** A storage answer was fetched in the first `n` events, and in every fetch of the run that gives it the very
      reply to the fetch was zero, or was verified against the fetching reader's root. */
  ghost predicate Justified(pl: Platform, events: seq<Event>, n: nat, key: Key, answer: Answer) {
    key.1.StorageAt? ==>
      && FetchedBefore(pl, events, n, key, answer)
      && forall j: nat :: FetchedAt(pl, events, j, key, answer) ==>
           var f := FetchAt(pl, events, j).value;
           FetchVerified(pl, f, f.reader.root, answer)
  }

  /** A fetch of a storage value gives what its own reply verifies. */
  lemma GivenIsVerified(pl: Platform, f: FetchMade, key: Key, answer: Answer)
    requires key.1.StorageAt? && Gives(pl, f, key, answer)
    ensures FetchVerified(pl, f, f.reader.root, answer)
  {
    hide ProxyStorageAt, VerifiedReply;
    ProxyVerifies(pl, f.reader, key.1.address, key.1.key, f.replies.upstream, answer.word);
  }

  lemma FetchJustified(pl: Platform, events: seq<Event>, n: nat, key: Key, answer: Answer)
    requires FetchedBefore(pl, events, n, key, answer)
    ensures Justified(pl, events, n, key, answer)
  {
    hide FetchAt, Gives, FetchVerified;
    if key.1.StorageAt? {
      forall j: nat | FetchedAt(pl, events, j, key, answer)
        ensures FetchVerified(pl, FetchAt(pl, events, j).value, FetchAt(pl, events, j).value.reader.root, answer)
      {
        GivenIsVerified(pl, FetchAt(pl, events, j).value, key, answer);
      }
    }
  }

  /** Verified or zero, over whole runs and whatever the node replies: every storage value a reader is served,
      from the cache or not, was fetched before for the same block and request, and the reply that gave it is
      zero or was verified against the root of the reader that fetched it. */
  lemma ServedIsVerified(pl: Platform, events: seq<Event>, n: nat)
    requires n <= |events| && Run(pl, INITIAL, events).Some?
    ensures Run(pl, INITIAL, events[..n]).Some?
    ensures
      var log := Run(pl, INITIAL, events[..n]).value.log;
      forall i :: 0 <= i < |log| && log[i].result.Ok? ==>
        Justified(pl, events, n, KeyOf(log[i].reader, log[i].request), log[i].result.value)
  {
    ServedIsFetched(pl, events, n);
    hide Run, FetchedBefore, Justified, KeyOf;
    var log := Run(pl, INITIAL, events[..n]).value.log;
    forall i | 0 <= i < |log| && log[i].result.Ok?
      ensures Justified(pl, events, n, KeyOf(log[i].reader, log[i].request), log[i].result.value)
    {
      FetchJustified(pl, events, n, KeyOf(log[i].reader, log[i].request), log[i].result.value);
    }
  }

  /** The readers on a block all hold one root. */
  predicate OneRoot(readers: set<Reader>, block: nat, root: Felt) {
    forall r :: r in readers && BlockKey(r.blockHash) == block ==> r.root == root
  }

  /** Where the readers on its block hold one root, the replies were verified against the served reader's own. */
  lemma ServedIsVerifiedOwnRoot(pl: Platform, events: seq<Event>, n: nat, i: nat)
    requires n <= |events| && Run(pl, INITIAL, events).Some? && Run(pl, INITIAL, events[..n]).Some?
    requires
      var log := Run(pl, INITIAL, events[..n]).value.log;
      && i < |log| && log[i].result.Ok? && log[i].request.StorageAt?
      && OneRoot(Run(pl, INITIAL, events).value.readers, BlockKey(log[i].reader.blockHash), log[i].reader.root)
    ensures
      var served := Run(pl, INITIAL, events[..n]).value.log[i];
      var key, answer := KeyOf(served.reader, served.request), served.result.value;
      && FetchedBefore(pl, events, n, key, answer)
      && forall j: nat :: FetchedAt(pl, events, j, key, answer) ==>
           FetchVerified(pl, FetchAt(pl, events, j).value, served.reader.root, answer)
  {
    ServedIsVerified(pl, events, n);
    var served := Run(pl, INITIAL, events[..n]).value.log[i];
    var key, answer := KeyOf(served.reader, served.request), served.result.value;
    ReadersStay(pl, events, n);
    hide Run, FetchedBefore, FetchVerified, FetchAt;
    forall j: nat | FetchedAt(pl, events, j, key, answer)
      ensures FetchVerified(pl, FetchAt(pl, events, j).value, served.reader.root, answer)
    {
      FetchedByReader(pl, events, j);
    }
  }

  /** Every cached entry is the result of a successful read in the log, and no cache is over its size: a read
      that fails leaves nothing behind. */
  ghost predicate BackedByReads(s: System) {
    && (forall k: Key :: k in Select(s.caches, k.1) ==>
          exists i :: 0 <= i < |s.log| && KeyOf(s.log[i].reader, s.log[i].request) == k
                      && s.log[i].result == Ok(Select(s.caches, k.1)[k]))
    && |s.caches.storage| <= 1024 && |s.caches.classHash| <= 256 && |s.caches.contractClass| <= 256
  }

  lemma {:induction false} RunBacked(pl: Platform, s: System, events: seq<Event>)
    requires BackedByReads(s) && Run(pl, s, events).Some?
    ensures BackedByReads(Run(pl, s, events).value)
    decreases |events|
  {
    if events != [] {
      StepBacked(pl, s, events[0]);
      RunBacked(pl, Step(pl, s, events[0]).value, events[1..]);
    }
  }

  lemma StepBacked(pl: Platform, s: System, e: Event)
    requires BackedByReads(s) && Step(pl, s, e).Some?
    ensures BackedByReads(Step(pl, s, e).value)
  {
    hide Inner, Size, Stored, KeyOf, BackedByReads, Select, Replace;
    var next := Step(pl, s, e).value;
    if e.Put? {
      var session := s.sessions[e.id];
      BackedPut(s, next, session.reader, session.phase.request, session.phase.answer, e.contents);
    } else {
      BackedLonger(s, next);
    }
  }

  /** A longer log backs the same caches. */
  lemma BackedLonger(s: System, next: System)
    requires BackedByReads(s) && next.caches == s.caches && s.log <= next.log
    ensures BackedByReads(next)
  {
    forall k: Key | k in Select(next.caches, k.1)
      ensures exists i :: 0 <= i < |next.log| && KeyOf(next.log[i].reader, next.log[i].request) == k
                          && next.log[i].result == Ok(Select(next.caches, k.1)[k])
    {
      var i :| 0 <= i < |s.log| && KeyOf(s.log[i].reader, s.log[i].request) == k
               && s.log[i].result == Ok(Select(s.caches, k.1)[k]);
      assert next.log[i] == s.log[i];
    }
  }

  lemma BackedPut(s: System, next: System, reader: Reader, request: Request, answer: Answer, contents: Contents)
    requires BackedByReads(s) && next.log == s.log + [Served(reader, request, Ok(answer))]
    requires Stored(Select(s.caches, request), KeyOf(reader, request), answer, contents) && |contents| <= Size(request)
    requires next.caches == Replace(s.caches, request, contents)
    ensures BackedByReads(next)
  {
    BackedLonger(s, s.(log := next.log));
    var key := KeyOf(reader, request);
    PutContents(s.caches, key, answer, contents);
    assert next.log[|s.log|] == Served(reader, request, Ok(answer));
    hide KeyOf, Select, Replace, Stored, Size;
    forall k: Key | k in Select(next.caches, k.1)
      ensures exists i :: 0 <= i < |next.log| && KeyOf(next.log[i].reader, next.log[i].request) == k
                          && next.log[i].result == Ok(Select(next.caches, k.1)[k])
    {
      if k == key {
        assert next.log[|s.log|].result == Ok(Select(next.caches, k.1)[k]);
      }
    }
  }

  lemma PutContents(c: Caches, key: Key, answer: Answer, contents: Contents)
    requires Stored(Select(c, key.1), key, answer, contents) && |contents| <= Size(key.1)
    ensures
      var after := Replace(c, key.1, contents);
      && (forall k: Key :: k in Select(after, k.1) ==>
            if k == key then Select(after, k.1)[k] == answer
            else k in Select(c, k.1) && Select(c, k.1)[k] == Select(after, k.1)[k])
      && forall request: Request ::
           |Select(after, request)| <= Size(request) || Select(after, request) == Select(c, request)
  {
  }

  /** In every run from the start, the caches hold only results of successful reads, within their sizes. */
  lemma CachesHoldServedReads(pl: Platform, events: seq<Event>)
    requires Run(pl, INITIAL, events).Some?
    ensures BackedByReads(Run(pl, INITIAL, events).value)
  {
    RunBacked(pl, INITIAL, events);
  }

  /** A run without its writes. */
  function WithoutChanges(events: seq<Event>): seq<Event> {
    if events == [] then []
    else (if events[0].Change? then [] else [events[0]]) + WithoutChanges(events[1..])
  }

  /** No sequence of writes changes any read: leaving the writes out of a run leaves its caches, its sessions and
      everything it served as they are. */
  lemma {:induction false} ChangesAreInvisible(pl: Platform, s: System, events: seq<Event>)
    requires Run(pl, s, events).Some?
    ensures Run(pl, s, WithoutChanges(events)) == Run(pl, s, events)
    decreases |events|
  {
    if events != [] {
      var next := Step(pl, s, events[0]).value;
      ChangesAreInvisible(pl, next, events[1..]);
      if events[0].Change? {
        assert WithoutChanges(events) == WithoutChanges(events[1..]);
      } else {
        assert WithoutChanges(events)[1..] == WithoutChanges(events[1..]);
      }
    }
  }

  /** The steps of one read when no other reader comes between them. */
  function ReadAlone(pl: Platform, s: System, id: nat, request: Request, replies: Replies, contents: Contents):
    seq<Event>
    requires id in s.sessions
  {
    if KeyOf(s.sessions[id].reader, request) in Select(s.caches, request) then [Get(id, request)]
    else if !Inner(pl, s.sessions[id].reader, request, replies).Ok? then [Get(id, request), Fetch(id, replies)]
    else [Get(id, request), Fetch(id, replies), Put(id, contents)]
  }

  /** Run alone, the steps do what the reading methods of `CachedState` promise. */
  lemma ReadAloneIsReadThrough(pl: Platform, s: System, id: nat, request: Request, replies: Replies, contents: Contents)
    requires id in s.sessions && s.sessions[id].phase.Idle?
    requires
      var cache, key := Select(s.caches, request), KeyOf(s.sessions[id].reader, request);
      var inner := Inner(pl, s.sessions[id].reader, request, replies);
      key !in cache && inner.Ok? ==> Stored(cache, key, inner.value, contents) && |contents| <= Size(request)
    ensures
      var cache, key := Select(s.caches, request), KeyOf(s.sessions[id].reader, request);
      var inner := Inner(pl, s.sessions[id].reader, request, replies);
      Run(pl, s, ReadAlone(pl, s, id, request, replies, contents)) == Some(System(
        s.sessions,
        if key !in cache && inner.Ok? then Replace(s.caches, request, contents) else s.caches,
        s.readers,
        s.log + [Served(s.sessions[id].reader, request, if key in cache then Ok(cache[key]) else inner)]))
  {
    hide Inner, KeyOf, Stored, Size;
    var events := ReadAlone(pl, s, id, request, replies, contents);
    var one := Step(pl, s, events[0]).value;
    assert Run(pl, one, []) == Some(one);
    assert s.sessions[id := s.sessions[id].(phase := Idle)] == s.sessions;
    if |events| > 1 {
      var two := Step(pl, one, events[1]).value;
      assert one.sessions[id := one.sessions[id].(phase := Idle)] == s.sessions;
      assert events[1..][0] == events[1] && Run(pl, one, events[1..]) == Run(pl, two, events[1..][1..]);
      if |events| > 2 {
        var three := Step(pl, two, events[2]).value;
        assert two.sessions[id := two.sessions[id].(phase := Idle)] == s.sessions;
        assert events[1..][1..] == [events[2]] && Run(pl, two, [events[2]]) == Run(pl, three, []);
      } else {
        assert events[1..][1..] == [];
      }
    } else {
      assert events[1..] == [];
    }
  }

  /** The outcome of a read that misses the cache, by itself: the node's own reply for a class or a class hash,
      errors included, and the proxy's outcome for a storage value. */
  lemma MissedReadAlone(pl: Platform, s: System, id: nat, request: Request, replies: Replies, contents: Contents)
    requires id in s.sessions && s.sessions[id].phase.Idle?
    requires
      var cache, key := Select(s.caches, request), KeyOf(s.sessions[id].reader, request);
      var inner := Inner(pl, s.sessions[id].reader, request, replies);
      && key !in cache
      && (inner.Ok? ==> Stored(cache, key, inner.value, contents) && |contents| <= Size(request))
    ensures
      var reader, end := s.sessions[id].reader, Run(pl, s, ReadAlone(pl, s, id, request, replies, contents));
      && end.Some? && |end.value.log| == |s.log| + 1 && s.log <= end.value.log
      && var served := end.value.log[|s.log|];
      && served.reader == reader && served.request == request
      && if request.StorageAt? then
           var proxy := ProxyStorageAt(pl, reader, request.address, request.key, replies.upstream);
           if proxy.Ok? then served.result == Ok(Word(proxy.value)) else FailAlike(served.result, proxy)
         else served.result == replies.classRead
  {
    ReadAloneIsReadThrough(pl, s, id, request, replies, contents);
    hide Run, ReadAlone, ProxyStorageAt, Stored, Size, Select, Replace, KeyOf;
  }

  /** A reader can be opened under every free number, and then reads. */
  lemma OpenedReader(pl: Platform, s: System, id: nat, reader: Reader)
    requires id !in s.sessions
    ensures
      var next := Step(pl, s, Open(id, reader));
      && next.Some? && next.value.caches == s.caches && next.value.log == s.log
      && next.value.readers == s.readers + {reader}
      && id in next.value.sessions && next.value.sessions[id] == Session(reader, Idle)
      && forall other :: other in s.sessions ==>
           other in next.value.sessions && next.value.sessions[other] == s.sessions[other]
  {
  }

  /** A cache within its size has room for one more entry, if need be in place of others. */
  lemma RoomForEntry(cache: Contents, key: Key, answer: Answer, size: nat)
    requires 0 < size && |cache| <= size
    ensures exists contents: Contents :: Stored(cache, key, answer, contents) && |contents| <= size
  {
    var alone: Contents := map[key := answer];
    assert alone.Keys == {key};
    assert |alone| == |alone.Keys|;
    assert Stored(cache, key, answer, alone);
  }

  lemma CanPut(pl: Platform, s: System, id: nat)
    requires BackedByReads(s) && id in s.sessions && s.sessions[id].phase.Fetched?
    ensures exists contents :: Step(pl, s, Put(id, contents)).Some?
  {
    hide Inner, Stored;
    var reader, request, answer := s.sessions[id].reader, s.sessions[id].phase.request, s.sessions[id].phase.answer;
    var cache, key := Select(s.caches, request), KeyOf(reader, request);
    RoomForEntry(cache, key, answer, Size(request));
    var contents: Contents :| Stored(cache, key, answer, contents) && |contents| <= Size(request);
    assert Step(pl, s, Put(id, contents)).Some?;
  }

  /** No reader is ever stuck, whatever the others do: an idle one can look up and write, one that missed can take any
      reply, and what it fetched can be stored. */
  lemma NeverStuck(pl: Platform, events: seq<Event>, id: nat)
    requires Run(pl, INITIAL, events).Some? && id in Run(pl, INITIAL, events).value.sessions
    ensures
      var s := Run(pl, INITIAL, events).value;
      match s.sessions[id].phase
      case Idle =>
        && (forall request :: Step(pl, s, Get(id, request)).Some?)
        && (forall write :: Step(pl, s, Change(id, write)) == Some(s))
      case Missed(_) => forall replies :: Step(pl, s, Fetch(id, replies)).Some?
      case Fetched(_, _) => exists contents :: Step(pl, s, Put(id, contents)).Some?
  {
    RunBacked(pl, INITIAL, events);
    var s := Run(pl, INITIAL, events).value;
    hide Run, Inner, Stored;
    if s.sessions[id].phase.Fetched? { CanPut(pl, s, id); }
  }
}
