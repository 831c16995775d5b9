/**
 The caching request handler under concurrency: every request is a process that moves
 through classification, the negative check, the cache check, singleflight, the store
 write and the reply, interleaved with health rounds, sweeps and the clock.
 */
module HandlerRun {
  import opened Common
  import opened LruSpec
  import opened Finality
  import opened HealthSpec
  import LruTraces

  /** `cap` limits the store when positive; durations are in nanoseconds. */
  datatype Config = Config(cap: int, mutableTTL: int, depth: uint64, lag: uint64)

  const SECOND: int := 1_000_000_000

  /** `id` is the raw text of the JSON-RPC id. */
  datatype Request = Request(id: string, rpc: string, params: Params)

  function CacheKey(req: Request): string {
    req.rpc + ":" + req.params.canonical
  }

  function NegKey(key: string): string {
    "neg::" + key
  }

  const NEG_SENTINEL: string := "\U{01}"

  /** What a fetch brings back: a failure, or the parsed body of a 2xx response. */
  datatype Fetched =
    | FetchError(rateLimited: bool, retryAfter: string)
    | NonJson(body: string)
    | RpcError(error: string)
    | NoResult(body: string)
    | Result(result: string)

  /** An empty result field counts as absent, and an empty body is not JSON. */
  predicate Possible(f: Fetched) {
    (f.Result? ==> f.result != "") && (f.NoResult? ==> f.body != "")
  }

  datatype Reply =
    | NegHit
    | CacheHit(id: string, result: string)
    | ResultReply(id: string, result: string)
    | ErrorReply(id: string, error: string)
    | RawReply(body: string)
    | RateLimitedReply(retryAfter: string)
    | BadGateway

  /**
   How a caller renders the flight's outcome with its own id. An empty raw body is
   indistinguishable from an absent one and falls through to a result envelope.
   */
  function Render(f: Fetched, id: string): Reply {
    match f
    case FetchError(rl, after) => if rl then RateLimitedReply(after) else BadGateway
    case NonJson(body) => if body == "" then ResultReply(id, "") else RawReply(body)
    case RpcError(e) => ErrorReply(id, e)
    case NoResult(body) => RawReply(body)
    case Result(r) => ResultReply(id, r)
  }

  // ---- Processes ----

  datatype Phase =
    | Direct
    | NegCheck
    | CacheCheck
    | Joining
    | Leading
    | HasFetched(outcome: Fetched)
    | HasStored(outcome: Fetched)
    | Following(leader: nat)
    | Got(leader: nat, outcome: Fetched)
    | Replied(reply: Reply, at: int)

  /** What a request saw when it was classified. */
  datatype Sight = Sight(head: uint64, nodes: seq<NodeState>, settled: bool)

  datatype Proc = Proc(req: Request, layer: Layer, sight: Sight, phase: Phase)

  /** A fetch completed by process `leader`. */
  datatype Fetch = Fetch(key: string, leader: nat, outcome: Fetched)

  /** A positive store write: by whom, with which clock reading. */
  datatype Write = Write(req: Request, layer: Layer, sight: Sight, leader: nat, result: string, at: int)

  /** A negative store write. */
  datatype Failure = Failure(key: string, leader: nat, retryAfter: string, at: int)

  /**
   `flights` maps a key to its leader. `settled` says that no probe has touched the nodes
   since the head was last published. `fetches`, `writes` and `failures` record history.
   */
  datatype State = State(
    clock: int,
    nodes: seq<NodeState>,
    head: uint64,
    marked: Option<uint64>,
    settled: bool,
    store: seq<Entry>,
    flights: map<string, nat>,
    procs: map<nat, Proc>,
    fetches: set<Fetch>,
    writes: set<Write>,
    failures: set<Failure>)

  function Initial(clock: int, pool: nat): State {
    State(clock, seq(pool, i => NodeState(0, true)), 0, None, true, [], map[], map[], {}, {}, {})
  }

  datatype Action =
    | Tick(d: nat)
    | ProbeNode(i: nat, probe: Probe)
    | MarkNodes
    | PublishHead
    | SweepStore(reading: int)
    | Arrive(pid: nat, req: Request)
    | CheckNeg(pid: nat)
    | CheckCache(pid: nat)
    | Join(pid: nat)
    | FetchReturns(pid: nat, outcome: Fetched)
    | WriteStore(pid: nat, reading: int)
    | Complete(pid: nat)
    | Respond(pid: nat)

  predicate Enabled(st: State, a: Action) {
    match a
    case Tick(_) => true
    case ProbeNode(i, _) => i < |st.nodes| && st.marked.None?
    case MarkNodes => st.marked.None?
    case PublishHead => st.marked.Some?
    case SweepStore(r) => r <= st.clock
    case Arrive(pid, _) => pid !in st.procs
    case CheckNeg(pid) => pid in st.procs && st.procs[pid].phase.NegCheck?
    case CheckCache(pid) => pid in st.procs && st.procs[pid].phase.CacheCheck?
    case Join(pid) => pid in st.procs && st.procs[pid].phase.Joining?
    case FetchReturns(pid, f) => pid in st.procs && st.procs[pid].phase.Leading? && Possible(f)
    case WriteStore(pid, r) => pid in st.procs && st.procs[pid].phase.HasFetched? && r <= st.clock
    case Complete(pid) => pid in st.procs && st.procs[pid].phase.HasStored?
    case Respond(pid) => pid in st.procs && st.procs[pid].phase.Got?
  }

  function Key(p: Proc): string {
    CacheKey(p.req)
  }

  function Move(st: State, pid: nat, phase: Phase): State
    requires pid in st.procs
  {
    st.(procs := st.procs[pid := st.procs[pid].(phase := phase)])
  }

  /** The time to live of a positive entry. */
  function Ttl(cfg: Config, layer: Layer): int {
    if layer == Mutable then cfg.mutableTTL else 0
  }

  /** The store write of a completed fetch: only results and non-429 failures are stored. */
  function StoreAfter(cfg: Config, store: seq<Entry>, p: Proc, f: Fetched, reading: int): seq<Entry> {
    match f
    case FetchError(rl, _) =>
      if rl then store else Set(store, cfg.cap, NegKey(Key(p)), NEG_SENTINEL, SECOND, reading)
    case Result(r) => Set(store, cfg.cap, Key(p), r, Ttl(cfg, p.layer), reading)
    case _ => store
  }

  /** Everyone waiting on `leader`, and the leader itself, receives the outcome. */
  function Deliver(procs: map<nat, Proc>, leader: nat, f: Fetched): map<nat, Proc> {
    map q | q in procs ::
      if q == leader || procs[q].phase == Following(leader) then procs[q].(phase := Got(leader, f)) else procs[q]
  }

  function Step(cfg: Config, st: State, a: Action): State {
    if !Enabled(st, a) then st
    else match a
      case Tick(d) => st.(clock := st.clock + d)
      case ProbeNode(i, p) => st.(nodes := st.nodes[i := Probed(st.nodes[i], p)], settled := false)
      case MarkNodes => st.(nodes := MarkLagging(st.nodes, cfg.lag), marked := Some(Best(st.nodes)), settled := false)
      case PublishHead => st.(head := st.marked.value, marked := None, settled := true)
      case SweepStore(r) => st.(store := Sweep(st.store, r))
      case Arrive(pid, req) =>
        var layer := Classify(req.rpc, req.params, st.head, cfg.depth);
        st.(procs := st.procs[pid := Proc(req, layer, Sight(st.head, st.nodes, st.settled),
                                          if layer == Uncacheable then Direct else NegCheck)])
      case CheckNeg(pid) =>
        var (s, v) := Get(st.store, NegKey(Key(st.procs[pid])), st.clock);
        Move(st, pid, if v.Some? then Replied(NegHit, st.clock) else CacheCheck).(store := s)
      case CheckCache(pid) =>
        var (s, v) := Get(st.store, Key(st.procs[pid]), st.clock);
        Move(st, pid, if v.Some? then Replied(CacheHit(st.procs[pid].req.id, v.value), st.clock) else Joining).(store := s)
      case Join(pid) =>
        var k := Key(st.procs[pid]);
        if k in st.flights then Move(st, pid, Following(st.flights[k]))
        else Move(st, pid, Leading).(flights := st.flights[k := pid])
      case FetchReturns(pid, f) =>
        Move(st, pid, HasFetched(f)).(fetches := st.fetches + {Fetch(Key(st.procs[pid]), pid, f)})
      case WriteStore(pid, r) =>
        var p := st.procs[pid];
        var f := p.phase.outcome;
        Move(st, pid, HasStored(f)).(
          store := StoreAfter(cfg, st.store, p, f, r),
          writes := if f.Result? then st.writes + {Write(p.req, p.layer, p.sight, pid, f.result, r)} else st.writes,
          failures := if f.FetchError? && !f.rateLimited
                      then st.failures + {Failure(Key(p), pid, f.retryAfter, r)} else st.failures)
      case Complete(pid) =>
        st.(procs := Deliver(st.procs, pid, st.procs[pid].phase.outcome), flights := st.flights - {Key(st.procs[pid])})
      case Respond(pid) =>
        Move(st, pid, Replied(Render(st.procs[pid].phase.outcome, st.procs[pid].req.id), st.clock))
  }

  // ---- Keys ----

  /** Positive keys of cacheable requests and negative keys never coincide. */
  lemma KeysNeverAlias(req: Request, other: Request, head: uint64, depth: uint64)
    requires Classify(req.rpc, req.params, head, depth) != Uncacheable
    ensures CacheKey(req) != NegKey(CacheKey(other))
  {
    CacheableIsEth(req.rpc, req.params, head, depth);
    assert CacheKey(req)[0] == 'e';
    assert NegKey(CacheKey(other))[0] == 'n';
  }

  /** The text after the first colon, and the text before it, determine each other's sum. */
  lemma SplitAtColon(a: string, x: string, b: string, y: string)
    requires a + ":" + x == b + ":" + y && ':' !in a && ':' !in b
    ensures a == b && x == y
  {
    var s, t := a + ":" + x, b + ":" + y;
    assert s[|a|] == ':' && t[|b|] == ':';
    assert |a| == |b|;
    assert a == s[..|a|] && b == t[..|b|];
    assert x == s[|a| + 1..] && y == t[|b| + 1..];
  }

  /** Two cacheable requests share a key only if method and canonical parameters agree. */
  lemma KeyDeterminesRequest(a: Request, b: Request, head: uint64, head': uint64, depth: uint64)
    requires Classify(a.rpc, a.params, head, depth) != Uncacheable
    requires Classify(b.rpc, b.params, head', depth) != Uncacheable
    ensures CacheKey(a) == CacheKey(b) <==> a.rpc == b.rpc && a.params.canonical == b.params.canonical
  {
    CacheableHasNoColon(a.rpc, a.params, head, depth);
    CacheableHasNoColon(b.rpc, b.params, head', depth);
    if CacheKey(a) == CacheKey(b) {
      SplitAtColon(a.rpc, a.params.canonical, b.rpc, b.params.canonical);
    }
  }

  /** The requests ask for the same: same method, same canonical parameters. */
  predicate SameCall(a: Request, b: Request) {
    a.rpc == b.rpc && a.params.canonical == b.params.canonical
  }

  // ---- The store invariant ----

  /** Why an entry is in the store. */
  ghost predicate Positive(e: Entry, cfg: Config, w: Write) {
    e == Stored(CacheKey(w.req), w.result, Ttl(cfg, w.layer), w.at)
  }

  ghost predicate Negative(e: Entry, f: Failure) {
    e == Stored(NegKey(f.key), NEG_SENTINEL, SECOND, f.at)
  }

  ghost predicate Accounted(e: Entry, cfg: Config, writes: set<Write>, failures: set<Failure>) {
    (exists w :: w in writes && Positive(e, cfg, w)) || (exists f :: f in failures && Negative(e, f))
  }

  ghost predicate StoreInv(store: seq<Entry>, cfg: Config, writes: set<Write>, failures: set<Failure>) {
    forall e :: e in store ==> Accounted(e, cfg, writes, failures)
  }

  /** A positive write was made by a cacheable request with the result of its own fetch. */
  ghost predicate GoodWrite(cfg: Config, w: Write, clock: int, fetches: set<Fetch>) {
    && w.layer == Classify(w.req.rpc, w.req.params, w.sight.head, cfg.depth) && w.layer != Uncacheable
    && (w.sight.settled ==> Settled(w.sight.nodes, w.sight.head, cfg.lag))
    && w.result != "" && w.at <= clock
    && Fetch(CacheKey(w.req), w.leader, Result(w.result)) in fetches
  }

  ghost predicate GoodFailure(f: Failure, clock: int, fetches: set<Fetch>) {
    f.at <= clock && Fetch(f.key, f.leader, FetchError(false, f.retryAfter)) in fetches
  }

  ghost predicate HistoryInv(cfg: Config, st: State) {
    && (forall w :: w in st.writes ==> GoodWrite(cfg, w, st.clock, st.fetches))
    && (forall f :: f in st.failures ==> GoodFailure(f, st.clock, st.fetches))
    && (forall x :: x in st.fetches ==> Possible(x.outcome))
  }

  lemma GetMembers(s: seq<Entry>, k: string, now: int)
    ensures forall e :: e in Get(s, k, now).0 ==> e in s
    ensures Get(s, k, now).1.Some? ==>
      exists e :: e in s && e.key == k && e.value == Get(s, k, now).1.value && !Expired(e, now)
  {
    LookupMember(s, k);
    DropMembers(s, {k});
  }

  lemma SetMembers(s: seq<Entry>, cap: int, k: string, v: string, ttl: int, now: int)
    ensures forall e :: e in Set(s, cap, k, v, ttl, now) ==> e in s || e == Stored(k, v, ttl, now)
  {
    DropMembers(s, {k});
  }

  /** A positive hit is a recorded write, recent enough if it was mutable. */
  lemma HitIsWrite(cfg: Config, st: State, key: string, req: Request, head: uint64) returns (w: Write)
    requires StoreInv(st.store, cfg, st.writes, st.failures)
    requires key == CacheKey(req) && Classify(req.rpc, req.params, head, cfg.depth) != Uncacheable
    requires Get(st.store, key, st.clock).1.Some?
    ensures w in st.writes && CacheKey(w.req) == key && w.result == Get(st.store, key, st.clock).1.value
    ensures w.layer == Mutable && cfg.mutableTTL > 0 ==> st.clock - w.at <= cfg.mutableTTL
  {
    GetMembers(st.store, key, st.clock);
    var e :| e in st.store && e.key == key && e.value == Get(st.store, key, st.clock).1.value && !Expired(e, st.clock);
    CacheableIsEth(req.rpc, req.params, head, cfg.depth);
    assert key[0] == 'e';
    assert forall f: Failure :: NegKey(f.key)[0] == 'n';
    w :| w in st.writes && Positive(e, cfg, w);
  }

  /** An entry under a negative key stems from a failure of that very key. */
  lemma NegEntryIsFailure(cfg: Config, st: State, key: string, e: Entry) returns (f: Failure)
    requires StoreInv(st.store, cfg, st.writes, st.failures) && HistoryInv(cfg, st)
    requires e in st.store && e.key == NegKey(key)
    ensures f in st.failures && f.key == key && e.expiry == Some(f.at + SECOND)
  {
    forall w | w in st.writes ensures !Positive(e, cfg, w) {
      CacheableIsEth(w.req.rpc, w.req.params, w.sight.head, cfg.depth);
      assert CacheKey(w.req)[0] == 'e';
      assert NegKey(key)[0] == 'n';
    }
    assert Accounted(e, cfg, st.writes, st.failures);
    f :| f in st.failures && Negative(e, f);
    assert NegKey(key)[5..] == key && NegKey(f.key)[5..] == f.key;
  }

  /** A negative hit is a recorded failure of the same key, at most a second old. */
  lemma NegHitIsFailure(cfg: Config, st: State, key: string) returns (f: Failure)
    requires StoreInv(st.store, cfg, st.writes, st.failures) && HistoryInv(cfg, st)
    requires Get(st.store, NegKey(key), st.clock).1.Some?
    ensures f in st.failures && f.key == key && st.clock - f.at <= SECOND
  {
    var k := NegKey(key);
    GetMembers(st.store, k, st.clock);
    var e :| e in st.store && e.key == k && e.value == Get(st.store, k, st.clock).1.value && !Expired(e, st.clock);
    f := NegEntryIsFailure(cfg, st, key, e);
  }

  // ---- The cluster invariant ----

  /** No healthy node lags behind a head that is published or about to be. */
  ghost predicate ClusterInv(cfg: Config, st: State) {
    && (st.settled ==> st.head == Best(st.nodes) && Settled(st.nodes, st.head, cfg.lag))
    && (st.marked.Some? ==> st.marked.value == Best(st.nodes) && Settled(st.nodes, st.marked.value, cfg.lag))
  }

  // ---- The process invariant ----

  predicate IsLeader(p: Phase) {
    p.Leading? || p.HasFetched? || p.HasStored?
  }

  /** A hit served a write for the same key, fresh enough at that moment. */
  ghost predicate ServesWrite(cfg: Config, key: string, result: string, at: int, w: Write) {
    && CacheKey(w.req) == key && w.result == result && w.at <= at
    && (w.layer == Mutable && cfg.mutableTTL > 0 ==> at - w.at <= cfg.mutableTTL)
  }

  ghost predicate ServesFailure(key: string, at: int, f: Failure) {
    f.key == key && f.at <= at <= f.at + SECOND
  }

  ghost predicate ReplyWarranted(cfg: Config, p: Proc, reply: Reply, at: int,
                                 fetches: set<Fetch>, writes: set<Write>, failures: set<Failure>) {
    match reply
    case NegHit => exists f :: f in failures && ServesFailure(Key(p), at, f)
    case CacheHit(id, result) => id == p.req.id && exists w :: w in writes && ServesWrite(cfg, Key(p), result, at, w)
    case _ => exists x :: x in fetches && x.key == Key(p) && reply == Render(x.outcome, p.req.id)
  }

  /** What history must say for a process to be where it is. */
  ghost predicate Warranted(cfg: Config, pid: nat, p: Proc,
                            fetches: set<Fetch>, writes: set<Write>, failures: set<Failure>) {
    && p.layer == Classify(p.req.rpc, p.req.params, p.sight.head, cfg.depth)
    && (p.sight.settled ==> Settled(p.sight.nodes, p.sight.head, cfg.lag))
    && (p.phase.Direct? <==> p.layer == Uncacheable)
    && match p.phase
       case HasFetched(f) => Fetch(Key(p), pid, f) in fetches
       case HasStored(f) => Fetch(Key(p), pid, f) in fetches
       case Got(l, f) => Fetch(Key(p), l, f) in fetches
       case Replied(r, at) => ReplyWarranted(cfg, p, r, at, fetches, writes, failures)
       case _ => true
  }

  /** Leaders own their key's flight and followers follow its owner. */
  ghost predicate Placed(flights: map<string, nat>, pid: nat, p: Proc) {
    && (IsLeader(p.phase) ==> Key(p) in flights && flights[Key(p)] == pid)
    && (p.phase.Following? ==> Key(p) in flights && flights[Key(p)] == p.phase.leader)
  }

  ghost predicate AllWarranted(cfg: Config, procs: map<nat, Proc>,
                               fetches: set<Fetch>, writes: set<Write>, failures: set<Failure>) {
    forall q :: q in procs ==> Warranted(cfg, q, procs[q], fetches, writes, failures)
  }

  ghost predicate FlightInv(flights: map<string, nat>, procs: map<nat, Proc>) {
    && (forall q :: q in procs ==> Placed(flights, q, procs[q]))
    && (forall k :: k in flights ==>
          flights[k] in procs && Key(procs[flights[k]]) == k && IsLeader(procs[flights[k]].phase))
  }

  ghost predicate Inv(cfg: Config, st: State) {
    && ClusterInv(cfg, st)
    && StoreInv(st.store, cfg, st.writes, st.failures)
    && HistoryInv(cfg, st)
    && AllWarranted(cfg, st.procs, st.fetches, st.writes, st.failures)
    && FlightInv(st.flights, st.procs)
  }

  lemma WarrantedGrows(cfg: Config, pid: nat, p: Proc, fetches: set<Fetch>, writes: set<Write>, failures: set<Failure>,
                       fetches': set<Fetch>, writes': set<Write>, failures': set<Failure>)
    requires Warranted(cfg, pid, p, fetches, writes, failures)
    requires fetches <= fetches' && writes <= writes' && failures <= failures'
    ensures Warranted(cfg, pid, p, fetches', writes', failures')
  {
  }

  lemma AllWarrantedGrows(cfg: Config, procs: map<nat, Proc>, fetches: set<Fetch>, writes: set<Write>, failures: set<Failure>,
                          fetches': set<Fetch>, writes': set<Write>, failures': set<Failure>)
    requires AllWarranted(cfg, procs, fetches, writes, failures)
    requires fetches <= fetches' && writes <= writes' && failures <= failures'
    ensures AllWarranted(cfg, procs, fetches', writes', failures')
  {
    forall q | q in procs ensures Warranted(cfg, q, procs[q], fetches', writes', failures') {
      WarrantedGrows(cfg, q, procs[q], fetches, writes, failures, fetches', writes', failures');
    }
  }

  /** Moving one process needs a warrant for that process only. */
  lemma MoveWarranted(cfg: Config, procs: map<nat, Proc>, pid: nat, phase: Phase,
                      fetches: set<Fetch>, writes: set<Write>, failures: set<Failure>)
    requires AllWarranted(cfg, procs, fetches, writes, failures) && pid in procs
    requires Warranted(cfg, pid, procs[pid].(phase := phase), fetches, writes, failures)
    ensures AllWarranted(cfg, procs[pid := procs[pid].(phase := phase)], fetches, writes, failures)
  {
  }

  /** Moving a process that is neither leader nor follower, to such a phase, keeps the flights. */
  lemma MoveKeepsFlights(flights: map<string, nat>, procs: map<nat, Proc>, pid: nat, phase: Phase)
    requires FlightInv(flights, procs) && pid in procs
    requires IsLeader(procs[pid].phase) <==> IsLeader(phase)
    requires phase.Following? ==> Key(procs[pid]) in flights && flights[Key(procs[pid])] == phase.leader
    ensures FlightInv(flights, procs[pid := procs[pid].(phase := phase)])
  {
  }

  lemma AcceptsNewProc(flights: map<string, nat>, procs: map<nat, Proc>, pid: nat, p: Proc)
    requires FlightInv(flights, procs) && pid !in procs && !IsLeader(p.phase) && !p.phase.Following?
    ensures FlightInv(flights, procs[pid := p])
  {
  }

  lemma LeadKeepsFlights(flights: map<string, nat>, procs: map<nat, Proc>, pid: nat)
    requires FlightInv(flights, procs) && pid in procs && procs[pid].phase.Joining? && Key(procs[pid]) !in flights
    ensures FlightInv(flights[Key(procs[pid]) := pid], procs[pid := procs[pid].(phase := Leading)])
  {
  }

  lemma DeliverKeepsFlights(flights: map<string, nat>, procs: map<nat, Proc>, pid: nat, f: Fetched)
    requires FlightInv(flights, procs) && pid in procs && procs[pid].phase.HasStored?
    ensures FlightInv(flights - {Key(procs[pid])}, Deliver(procs, pid, f))
  {
  }

  lemma DeliverWarranted(cfg: Config, flights: map<string, nat>, procs: map<nat, Proc>, pid: nat, f: Fetched,
                         fetches: set<Fetch>, writes: set<Write>, failures: set<Failure>)
    requires FlightInv(flights, procs) && pid in procs && procs[pid].phase == HasStored(f)
    requires AllWarranted(cfg, procs, fetches, writes, failures)
    ensures AllWarranted(cfg, Deliver(procs, pid, f), fetches, writes, failures)
  {
    forall q | q in procs ensures Warranted(cfg, q, Deliver(procs, pid, f)[q], fetches, writes, failures) {
      assert Warranted(cfg, q, procs[q], fetches, writes, failures);
      assert Warranted(cfg, pid, procs[pid], fetches, writes, failures);
      if procs[q].phase == Following(pid) {
        assert Placed(flights, q, procs[q]);
        assert Key(procs[q]) == Key(procs[pid]);
      }
    }
  }

  lemma SubsetStore(cfg: Config, s: seq<Entry>, t: seq<Entry>, writes: set<Write>, failures: set<Failure>)
    requires StoreInv(s, cfg, writes, failures) && forall e :: e in t ==> e in s
    ensures StoreInv(t, cfg, writes, failures)
  {
  }

  lemma InitialInv(cfg: Config, clock: int, pool: nat)
    ensures Inv(cfg, Initial(clock, pool))
  {
    BestUnique(Initial(clock, pool).nodes, 0);
  }

  lemma ClusterStep(cfg: Config, st: State, a: Action)
    requires Inv(cfg, st) && Enabled(st, a) && (a.ProbeNode? || a.MarkNodes? || a.PublishHead? || a.Tick?)
    ensures Inv(cfg, Step(cfg, st, a))
  {
    if a.MarkNodes? {
      MarkKeepsBest(st.nodes, cfg.lag);
      assert Best(MarkLagging(st.nodes, cfg.lag)) == Best(st.nodes);
    }
  }

  lemma SweepStep(cfg: Config, st: State, r: int)
    requires Inv(cfg, st)
    ensures Inv(cfg, Step(cfg, st, SweepStore(r)))
  {
    DropMembers(st.store, ExpiredKeys(st.store, r));
    SubsetStore(cfg, st.store, Sweep(st.store, r), st.writes, st.failures);
  }

  lemma ArriveStep(cfg: Config, st: State, pid: nat, req: Request)
    requires Inv(cfg, st) && pid !in st.procs
    ensures Inv(cfg, Step(cfg, st, Arrive(pid, req)))
  {
    AcceptsNewProc(st.flights, st.procs, pid, Step(cfg, st, Arrive(pid, req)).procs[pid]);
  }

  lemma CheckNegStep(cfg: Config, st: State, pid: nat)
    requires Inv(cfg, st) && Enabled(st, CheckNeg(pid))
    ensures Inv(cfg, Step(cfg, st, CheckNeg(pid)))
  {
    var k := Key(st.procs[pid]);
    var next := Step(cfg, st, CheckNeg(pid));
    GetMembers(st.store, NegKey(k), st.clock);
    SubsetStore(cfg, st.store, next.store, st.writes, st.failures);
    MoveKeepsFlights(st.flights, st.procs, pid, next.procs[pid].phase);
    assert Warranted(cfg, pid, st.procs[pid], st.fetches, st.writes, st.failures);
    if Get(st.store, NegKey(k), st.clock).1.Some? {
      var f := NegHitIsFailure(cfg, st, k);
      assert GoodFailure(f, st.clock, st.fetches);
      assert ServesFailure(k, st.clock, f);
    }
    MoveWarranted(cfg, st.procs, pid, next.procs[pid].phase, st.fetches, st.writes, st.failures);
  }

  lemma CheckCacheStep(cfg: Config, st: State, pid: nat)
    requires Inv(cfg, st) && Enabled(st, CheckCache(pid))
    ensures Inv(cfg, Step(cfg, st, CheckCache(pid)))
  {
    var p := st.procs[pid];
    var k := Key(p);
    var next := Step(cfg, st, CheckCache(pid));
    GetMembers(st.store, k, st.clock);
    SubsetStore(cfg, st.store, next.store, st.writes, st.failures);
    MoveKeepsFlights(st.flights, st.procs, pid, next.procs[pid].phase);
    assert Warranted(cfg, pid, p, st.fetches, st.writes, st.failures);
    if Get(st.store, k, st.clock).1.Some? {
      var w := HitIsWrite(cfg, st, k, p.req, p.sight.head);
      assert GoodWrite(cfg, w, st.clock, st.fetches);
      assert ServesWrite(cfg, k, w.result, st.clock, w);
    }
    MoveWarranted(cfg, st.procs, pid, next.procs[pid].phase, st.fetches, st.writes, st.failures);
  }

  lemma JoinStep(cfg: Config, st: State, pid: nat)
    requires Inv(cfg, st) && Enabled(st, Join(pid))
    ensures Inv(cfg, Step(cfg, st, Join(pid)))
  {
    var k := Key(st.procs[pid]);
    assert Warranted(cfg, pid, st.procs[pid], st.fetches, st.writes, st.failures);
    MoveWarranted(cfg, st.procs, pid, if k in st.flights then Following(st.flights[k]) else Leading,
                  st.fetches, st.writes, st.failures);
    if k in st.flights {
      MoveKeepsFlights(st.flights, st.procs, pid, Following(st.flights[k]));
    } else {
      LeadKeepsFlights(st.flights, st.procs, pid);
    }
  }

  lemma FetchStep(cfg: Config, st: State, pid: nat, f: Fetched)
    requires Inv(cfg, st) && Enabled(st, FetchReturns(pid, f))
    ensures Inv(cfg, Step(cfg, st, FetchReturns(pid, f)))
  {
    var next := Step(cfg, st, FetchReturns(pid, f));
    AllWarrantedGrows(cfg, st.procs, st.fetches, st.writes, st.failures, next.fetches, next.writes, next.failures);
    assert Warranted(cfg, pid, st.procs[pid], next.fetches, next.writes, next.failures);
    MoveWarranted(cfg, st.procs, pid, HasFetched(f), next.fetches, next.writes, next.failures);
    MoveKeepsFlights(st.flights, st.procs, pid, HasFetched(f));
  }

  lemma StoreGrows(cfg: Config, s: seq<Entry>, writes: set<Write>, failures: set<Failure>,
                   writes': set<Write>, failures': set<Failure>)
    requires StoreInv(s, cfg, writes, failures) && writes <= writes' && failures <= failures'
    ensures StoreInv(s, cfg, writes', failures')
  {
    forall e | e in s ensures Accounted(e, cfg, writes', failures') {
      assert Accounted(e, cfg, writes, failures);
    }
  }

  lemma WrittenStore(cfg: Config, st: State, pid: nat, r: int)
    requires Inv(cfg, st) && Enabled(st, WriteStore(pid, r))
    ensures var next := Step(cfg, st, WriteStore(pid, r));
      StoreInv(next.store, cfg, next.writes, next.failures)
  {
    var p := st.procs[pid];
    var next := Step(cfg, st, WriteStore(pid, r));
    var f := p.phase.outcome;
    StoreGrows(cfg, st.store, st.writes, st.failures, next.writes, next.failures);
    if f.Result? {
      var w := Write(p.req, p.layer, p.sight, pid, f.result, r);
      SetMembers(st.store, cfg.cap, Key(p), f.result, Ttl(cfg, p.layer), r);
      assert Positive(Stored(Key(p), f.result, Ttl(cfg, p.layer), r), cfg, w);
    } else if f.FetchError? && !f.rateLimited {
      var x := Failure(Key(p), pid, f.retryAfter, r);
      SetMembers(st.store, cfg.cap, NegKey(Key(p)), NEG_SENTINEL, SECOND, r);
      assert Negative(Stored(NegKey(Key(p)), NEG_SENTINEL, SECOND, r), x);
    }
  }

  lemma WriteStep(cfg: Config, st: State, pid: nat, r: int)
    requires Inv(cfg, st) && Enabled(st, WriteStore(pid, r))
    ensures Inv(cfg, Step(cfg, st, WriteStore(pid, r)))
  {
    var next := Step(cfg, st, WriteStore(pid, r));
    WrittenStore(cfg, st, pid, r);
    AllWarrantedGrows(cfg, st.procs, st.fetches, st.writes, st.failures, next.fetches, next.writes, next.failures);
    assert Warranted(cfg, pid, st.procs[pid], next.fetches, next.writes, next.failures);
    MoveWarranted(cfg, st.procs, pid, next.procs[pid].phase, next.fetches, next.writes, next.failures);
    MoveKeepsFlights(st.flights, st.procs, pid, next.procs[pid].phase);
    WrittenHistory(cfg, st, pid, r);
  }

  lemma WrittenHistory(cfg: Config, st: State, pid: nat, r: int)
    requires Inv(cfg, st) && Enabled(st, WriteStore(pid, r))
    ensures HistoryInv(cfg, Step(cfg, st, WriteStore(pid, r)))
  {
    var p := st.procs[pid];
    assert Warranted(cfg, pid, p, st.fetches, st.writes, st.failures);
    assert Possible(Fetch(Key(p), pid, p.phase.outcome).outcome);
  }

  lemma CompleteStep(cfg: Config, st: State, pid: nat)
    requires Inv(cfg, st) && Enabled(st, Complete(pid))
    ensures Inv(cfg, Step(cfg, st, Complete(pid)))
  {
    var f := st.procs[pid].phase.outcome;
    DeliverKeepsFlights(st.flights, st.procs, pid, f);
    DeliverWarranted(cfg, st.flights, st.procs, pid, f, st.fetches, st.writes, st.failures);
  }

  lemma RespondStep(cfg: Config, st: State, pid: nat)
    requires Inv(cfg, st) && Enabled(st, Respond(pid))
    ensures Inv(cfg, Step(cfg, st, Respond(pid)))
  {
    var p := st.procs[pid];
    var next := Step(cfg, st, Respond(pid));
    MoveKeepsFlights(st.flights, st.procs, pid, next.procs[pid].phase);
    assert Warranted(cfg, pid, p, st.fetches, st.writes, st.failures);
    var x := Fetch(Key(p), p.phase.leader, p.phase.outcome);
    assert x in st.fetches && x.key == Key(p);
    MoveWarranted(cfg, st.procs, pid, next.procs[pid].phase, st.fetches, st.writes, st.failures);
  }

  lemma StepKeepsInv(cfg: Config, st: State, a: Action)
    requires Inv(cfg, st)
    ensures Inv(cfg, Step(cfg, st, a))
  {
    if Enabled(st, a) {
      match a
      case Tick(_) => ClusterStep(cfg, st, a);
      case ProbeNode(_, _) => ClusterStep(cfg, st, a);
      case MarkNodes => ClusterStep(cfg, st, a);
      case PublishHead => ClusterStep(cfg, st, a);
      case SweepStore(r) => SweepStep(cfg, st, r);
      case Arrive(pid, req) => ArriveStep(cfg, st, pid, req);
      case CheckNeg(pid) => CheckNegStep(cfg, st, pid);
      case CheckCache(pid) => CheckCacheStep(cfg, st, pid);
      case Join(pid) => JoinStep(cfg, st, pid);
      case FetchReturns(pid, f) => FetchStep(cfg, st, pid, f);
      case WriteStore(pid, r) => WriteStep(cfg, st, pid, r);
      case Complete(pid) => CompleteStep(cfg, st, pid);
      case Respond(pid) => RespondStep(cfg, st, pid);
    }
  }

  // ---- Runs ----

  /** The state after the first `t` actions, from an empty store and a pool of fresh nodes. */
  function Run(cfg: Config, clock: int, pool: nat, acts: seq<Action>, t: nat): State
    requires t <= |acts|
  {
    if t == 0 then Initial(clock, pool) else Step(cfg, Run(cfg, clock, pool, acts, t - 1), acts[t - 1])
  }

  lemma {:induction false} ReachableInv(cfg: Config, clock: int, pool: nat, acts: seq<Action>, t: nat)
    requires t <= |acts|
    ensures Inv(cfg, Run(cfg, clock, pool, acts, t))
  {
    if t == 0 {
      InitialInv(cfg, clock, pool);
    } else {
      ReachableInv(cfg, clock, pool, acts, t - 1);
      StepKeepsInv(cfg, Run(cfg, clock, pool, acts, t - 1), acts[t - 1]);
    }
  }

  /**
   Every cache hit in every interleaving carries the result of an error-free, non-empty
   upstream success for its own key, under the caller's own id; if that was stored as
   mutable, it was stored at most `mutableTTL` before the hit.
   */
  lemma CacheHitIsGenuine(cfg: Config, clock: int, pool: nat, acts: seq<Action>, t: nat, pid: nat) returns (w: Write)
    requires t <= |acts|
    requires var st := Run(cfg, clock, pool, acts, t);
      pid in st.procs && st.procs[pid].phase.Replied? && st.procs[pid].phase.reply.CacheHit?
    ensures var st := Run(cfg, clock, pool, acts, t);
      var p := st.procs[pid];
      && w in st.writes && p.phase.reply == CacheHit(p.req.id, w.result)
      && SameCall(w.req, p.req)
      && w.result != "" && Fetch(Key(p), w.leader, Result(w.result)) in st.fetches
      && w.at <= p.phase.at && (w.layer == Mutable && cfg.mutableTTL > 0 ==> p.phase.at - w.at <= cfg.mutableTTL)
  {
    ReachableInv(cfg, clock, pool, acts, t);
    var st := Run(cfg, clock, pool, acts, t);
    var p := st.procs[pid];
    assert Warranted(cfg, pid, p, st.fetches, st.writes, st.failures);
    w :| w in st.writes && ServesWrite(cfg, Key(p), p.phase.reply.result, p.phase.at, w);
    assert GoodWrite(cfg, w, st.clock, st.fetches);
    KeyDeterminesRequest(w.req, p.req, w.sight.head, p.sight.head, cfg.depth);
  }

  /**
   An entry that never expires was written by a request that was immutable when it was
   classified, for one of the three admissible reasons.
   */
  lemma NeverExpiringIsJustified(cfg: Config, clock: int, pool: nat, acts: seq<Action>, t: nat, e: Entry)
    returns (w: Write, r: Reason)
    requires t <= |acts| && cfg.mutableTTL > 0
    requires e in Run(cfg, clock, pool, acts, t).store && e.expiry.None?
    ensures w in Run(cfg, clock, pool, acts, t).writes && e.key == CacheKey(w.req) && e.value == w.result
    ensures Justifies(r, w.req.rpc, w.req.params, w.sight.head, cfg.depth)
    ensures r.FinalBlock? && w.sight.settled && cfg.lag <= cfg.depth ==>
      forall i :: 0 <= i < |w.sight.nodes| && w.sight.nodes[i].healthy ==> r.block <= w.sight.nodes[i].height
  {
    ReachableInv(cfg, clock, pool, acts, t);
    var st := Run(cfg, clock, pool, acts, t);
    assert Accounted(e, cfg, st.writes, st.failures);
    w :| w in st.writes && Positive(e, cfg, w);
    assert GoodWrite(cfg, w, st.clock, st.fetches);
    ImmutableIffJustified(w.req.rpc, w.req.params, w.sight.head, cfg.depth);
    r :| Justifies(r, w.req.rpc, w.req.params, w.sight.head, cfg.depth);
    if r.FinalBlock? && w.sight.settled && cfg.lag <= cfg.depth {
      FinalIsServableByAll(w.sight.nodes, w.sight.head, cfg.lag, cfg.depth, r.block);
    }
  }

  lemma FinalIsServableByAll(nodes: seq<NodeState>, head: uint64, lag: uint64, depth: uint64, block: uint64)
    requires Settled(nodes, head, lag) && lag <= depth && block + depth <= head
    ensures forall i :: 0 <= i < |nodes| && nodes[i].healthy ==> block <= nodes[i].height
  {
    FinalizedIsDeep(head, depth, block);
    forall i | 0 <= i < |nodes| && nodes[i].healthy ensures block <= nodes[i].height {
      FinalIsServable(nodes, head, lag, depth, block, i);
    }
  }

  /** At most one fetch per key is in flight, whatever the interleaving. */
  lemma OneFetchPerKey(cfg: Config, clock: int, pool: nat, acts: seq<Action>, t: nat, a: nat, b: nat)
    requires t <= |acts|
    requires var st := Run(cfg, clock, pool, acts, t);
      && a in st.procs && b in st.procs && Key(st.procs[a]) == Key(st.procs[b])
      && IsLeader(st.procs[a].phase) && IsLeader(st.procs[b].phase)
    ensures a == b
  {
    ReachableInv(cfg, clock, pool, acts, t);
    var st := Run(cfg, clock, pool, acts, t);
    assert Placed(st.flights, a, st.procs[a]) && Placed(st.flights, b, st.procs[b]);
  }

  /**
   Every other reply is the caller's own rendering of a fetch for its key: an envelope
   with the caller's id and the fetched result or error, or the raw body as is.
   */
  lemma ReplyRendersFetch(cfg: Config, clock: int, pool: nat, acts: seq<Action>, t: nat, pid: nat) returns (x: Fetch)
    requires t <= |acts|
    requires var st := Run(cfg, clock, pool, acts, t);
      && pid in st.procs && st.procs[pid].phase.Replied?
      && !st.procs[pid].phase.reply.NegHit? && !st.procs[pid].phase.reply.CacheHit?
    ensures var st := Run(cfg, clock, pool, acts, t);
      var p := st.procs[pid];
      && x in st.fetches && x.key == Key(p)
      && x.leader in st.procs && SameCall(st.procs[x.leader].req, p.req)
      && p.phase.reply == Render(x.outcome, p.req.id)
      && (p.phase.reply.ErrorReply? ==> p.phase.reply.id == p.req.id && x.outcome == RpcError(p.phase.reply.error))
      && (p.phase.reply.ResultReply? ==>
            && p.phase.reply.id == p.req.id
            && (x.outcome == Result(p.phase.reply.result) || (p.phase.reply.result == "" && x.outcome == NonJson(""))))
      && (p.phase.reply.RawReply? ==> x.outcome == NonJson(p.phase.reply.body) || x.outcome == NoResult(p.phase.reply.body))
      && (p.phase.reply.RateLimitedReply? ==> x.outcome == FetchError(true, p.phase.reply.retryAfter))
      && (p.phase.reply.BadGateway? ==> x.outcome.FetchError? && !x.outcome.rateLimited)
  {
    ReachableInv(cfg, clock, pool, acts, t);
    var st := Run(cfg, clock, pool, acts, t);
    var p := st.procs[pid];
    assert Warranted(cfg, pid, p, st.fetches, st.writes, st.failures);
    x :| x in st.fetches && x.key == Key(p) && p.phase.reply == Render(x.outcome, p.req.id);
    FetchedForSameCall(cfg, clock, pool, acts, t, x, pid);
  }

  /** A coalesced caller waits on the leader of its key and receives what that leader fetched. */
  lemma FollowerGetsLeadersOutcome(cfg: Config, clock: int, pool: nat, acts: seq<Action>, t: nat, pid: nat)
    requires t <= |acts|
    requires var st := Run(cfg, clock, pool, acts, t); pid in st.procs
    ensures var st := Run(cfg, clock, pool, acts, t);
      var p := st.procs[pid];
      && (p.phase.Following? ==>
            && p.phase.leader in st.procs && Key(st.procs[p.phase.leader]) == Key(p)
            && IsLeader(st.procs[p.phase.leader].phase))
      && (p.phase.Got? ==> Fetch(Key(p), p.phase.leader, p.phase.outcome) in st.fetches)
  {
    ReachableInv(cfg, clock, pool, acts, t);
    var st := Run(cfg, clock, pool, acts, t);
    assert Warranted(cfg, pid, st.procs[pid], st.fetches, st.writes, st.failures);
    assert Placed(st.flights, pid, st.procs[pid]);
  }

  // ---- A flight from joining to the reply ----

  predicate InFlight(p: Phase) {
    IsLeader(p) || p.Following?
  }

  /** The leader of the flight that `pid` takes part in. */
  function LeaderOf(pid: nat, p: Phase): nat
    requires InFlight(p)
  {
    if p.Following? then p.leader else pid
  }

  /** Process `pid`, serving `req`, is in the flight led by `l`, holds its outcome, or has sent it. */
  ghost predicate Rides(p: Proc, pid: nat, req: Request, l: nat, fetches: set<Fetch>) {
    && p.req == req
    && match p.phase
       case Leading => pid == l
       case HasFetched(f) => pid == l && Fetch(CacheKey(req), l, f) in fetches
       case HasStored(f) => pid == l && Fetch(CacheKey(req), l, f) in fetches
       case Following(m) => m == l
       case Got(m, f) => m == l && Fetch(CacheKey(req), l, f) in fetches
       case Replied(r, _) => exists f :: Fetch(CacheKey(req), l, f) in fetches && r == Render(f, req.id)
       case _ => false
  }

  ghost predicate Aboard(st: State, pid: nat, req: Request, l: nat) {
    pid in st.procs && Rides(st.procs[pid], pid, req, l, st.fetches)
  }

  /** Only a process's own actions, and the completion of a flight, move it. */
  lemma OthersStay(cfg: Config, st: State, a: Action, pid: nat)
    requires pid in st.procs && !a.Complete?
    ensures var next := Step(cfg, st, a);
      && pid in next.procs && st.fetches <= next.fetches
      && (next.procs[pid] == st.procs[pid]
          || ((a.CheckNeg? || a.CheckCache? || a.Join? || a.FetchReturns? || a.WriteStore? || a.Respond?)
              && a.pid == pid && Enabled(st, a)))
  {
  }

  lemma CompleteKeepsAboard(cfg: Config, st: State, leader: nat, pid: nat, req: Request, l: nat)
    requires Inv(cfg, st) && Enabled(st, Complete(leader)) && Aboard(st, pid, req, l)
    ensures Aboard(Step(cfg, st, Complete(leader)), pid, req, l)
  {
    var f := st.procs[leader].phase.outcome;
    assert Warranted(cfg, leader, st.procs[leader], st.fetches, st.writes, st.failures);
    if st.procs[pid].phase == Following(leader) {
      assert Placed(st.flights, pid, st.procs[pid]);
      assert Fetch(CacheKey(req), leader, f) in st.fetches;
    }
  }

  lemma OwnStepKeepsAboard(cfg: Config, st: State, a: Action, pid: nat, req: Request, l: nat)
    requires Aboard(st, pid, req, l) && Enabled(st, a)
    requires a == Respond(pid) || (a.FetchReturns? && a.pid == pid) || (a.WriteStore? && a.pid == pid)
    ensures Aboard(Step(cfg, st, a), pid, req, l)
  {
    if a.Respond? {
      assert Fetch(CacheKey(req), l, st.procs[pid].phase.outcome) in st.fetches;
    }
  }

  lemma StepKeepsAboard(cfg: Config, st: State, a: Action, pid: nat, req: Request, l: nat)
    requires Inv(cfg, st) && Aboard(st, pid, req, l)
    ensures Aboard(Step(cfg, st, a), pid, req, l)
  {
    var next := Step(cfg, st, a);
    if a.Complete? {
      if Enabled(st, a) {
        CompleteKeepsAboard(cfg, st, a.pid, pid, req, l);
      }
    } else {
      OthersStay(cfg, st, a, pid);
      if next.procs[pid] != st.procs[pid] {
        OwnStepKeepsAboard(cfg, st, a, pid, req, l);
      }
    }
  }

  lemma {:induction false} StaysAboard(cfg: Config, clock: int, pool: nat, acts: seq<Action>, t: nat, u: nat,
                                       pid: nat, req: Request, l: nat)
    requires t <= u <= |acts| && Aboard(Run(cfg, clock, pool, acts, t), pid, req, l)
    ensures Aboard(Run(cfg, clock, pool, acts, u), pid, req, l)
    decreases u - t
  {
    if t < u {
      StaysAboard(cfg, clock, pool, acts, t, u - 1, pid, req, l);
      ReachableInv(cfg, clock, pool, acts, u - 1);
      StepKeepsAboard(cfg, Run(cfg, clock, pool, acts, u - 1), acts[u - 1], pid, req, l);
    }
  }

  predicate BeforeFetch(p: Phase) {
    p.Direct? || p.NegCheck? || p.CacheCheck? || p.Joining? || p.Leading?
  }

  /** A process fetches at most once. */
  ghost predicate FetchesOnce(procs: map<nat, Proc>, fetches: set<Fetch>) {
    && (forall x :: x in fetches ==>
          x.leader in procs && !BeforeFetch(procs[x.leader].phase) && x.key == Key(procs[x.leader]))
    && (forall x, y :: x in fetches && y in fetches && x.leader == y.leader ==> x == y)
  }

  lemma MoveFetchesOnce(procs: map<nat, Proc>, fetches: set<Fetch>, pid: nat, phase: Phase)
    requires FetchesOnce(procs, fetches) && pid in procs && (BeforeFetch(phase) ==> BeforeFetch(procs[pid].phase))
    ensures FetchesOnce(procs[pid := procs[pid].(phase := phase)], fetches)
  {
  }

  lemma FetchFetchesOnce(procs: map<nat, Proc>, fetches: set<Fetch>, pid: nat, f: Fetched)
    requires FetchesOnce(procs, fetches) && pid in procs && procs[pid].phase.Leading?
    ensures FetchesOnce(procs[pid := procs[pid].(phase := HasFetched(f))], fetches + {Fetch(Key(procs[pid]), pid, f)})
  {
  }

  lemma DeliverFetchesOnce(procs: map<nat, Proc>, fetches: set<Fetch>, leader: nat, f: Fetched)
    requires FetchesOnce(procs, fetches)
    ensures FetchesOnce(Deliver(procs, leader, f), fetches)
  {
  }

  lemma StepFetchesOnce(cfg: Config, st: State, a: Action)
    requires FetchesOnce(st.procs, st.fetches)
    ensures FetchesOnce(Step(cfg, st, a).procs, Step(cfg, st, a).fetches)
  {
    if Enabled(st, a) {
      var next := Step(cfg, st, a);
      match a
      case CheckNeg(pid) => MoveFetchesOnce(st.procs, st.fetches, pid, next.procs[pid].phase);
      case CheckCache(pid) => MoveFetchesOnce(st.procs, st.fetches, pid, next.procs[pid].phase);
      case Join(pid) => MoveFetchesOnce(st.procs, st.fetches, pid, next.procs[pid].phase);
      case FetchReturns(pid, f) => FetchFetchesOnce(st.procs, st.fetches, pid, f);
      case WriteStore(pid, _) => MoveFetchesOnce(st.procs, st.fetches, pid, next.procs[pid].phase);
      case Complete(pid) => DeliverFetchesOnce(st.procs, st.fetches, pid, st.procs[pid].phase.outcome);
      case Respond(pid) => MoveFetchesOnce(st.procs, st.fetches, pid, next.procs[pid].phase);
      case _ =>
    }
  }

  lemma {:induction false} ReachableFetchesOnce(cfg: Config, clock: int, pool: nat, acts: seq<Action>, t: nat)
    requires t <= |acts|
    ensures FetchesOnce(Run(cfg, clock, pool, acts, t).procs, Run(cfg, clock, pool, acts, t).fetches)
  {
    if t > 0 {
      ReachableFetchesOnce(cfg, clock, pool, acts, t - 1);
      StepFetchesOnce(cfg, Run(cfg, clock, pool, acts, t - 1), acts[t - 1]);
    }
  }

  /** A fetch under a process's key was made by a process that asked for the same. */
  lemma FetchedForSameCall(cfg: Config, clock: int, pool: nat, acts: seq<Action>, t: nat, x: Fetch, pid: nat)
    requires t <= |acts|
    requires var st := Run(cfg, clock, pool, acts, t);
      x in st.fetches && pid in st.procs && !st.procs[pid].phase.Direct? && x.key == Key(st.procs[pid])
    ensures var st := Run(cfg, clock, pool, acts, t);
      x.leader in st.procs && SameCall(st.procs[x.leader].req, st.procs[pid].req)
  {
    ReachableInv(cfg, clock, pool, acts, t);
    ReachableFetchesOnce(cfg, clock, pool, acts, t);
    var st := Run(cfg, clock, pool, acts, t);
    var p, l := st.procs[pid], st.procs[x.leader];
    assert Warranted(cfg, pid, p, st.fetches, st.writes, st.failures);
    assert Warranted(cfg, x.leader, l, st.fetches, st.writes, st.failures);
    KeyDeterminesRequest(l.req, p.req, l.sight.head, p.sight.head, cfg.depth);
  }

  /**
   Everyone in a flight, leader or follower, is sent the one outcome its leader fetched for
   the shared key, rendered with its own request id.
   */
  lemma FlightSharesOutcome(cfg: Config, clock: int, pool: nat, acts: seq<Action>, t: nat, u: nat, pid: nat)
    returns (f: Fetched)
    requires t <= u <= |acts|
    requires var st := Run(cfg, clock, pool, acts, t); pid in st.procs && InFlight(st.procs[pid].phase)
    requires var st := Run(cfg, clock, pool, acts, u); pid in st.procs && st.procs[pid].phase.Replied?
    ensures var before := Run(cfg, clock, pool, acts, t).procs[pid];
      var st := Run(cfg, clock, pool, acts, u);
      var l := LeaderOf(pid, before.phase);
      && st.procs[pid].phase.reply == Render(f, before.req.id)
      && Fetch(Key(before), l, f) in st.fetches
      && l in st.procs && SameCall(st.procs[l].req, before.req)
      && forall x :: x in st.fetches && x.leader == l ==> x == Fetch(Key(before), l, f)
  {
    var st := Run(cfg, clock, pool, acts, t);
    var p := st.procs[pid];
    var l := LeaderOf(pid, p.phase);
    ReachableInv(cfg, clock, pool, acts, t);
    assert Warranted(cfg, pid, p, st.fetches, st.writes, st.failures);
    StaysAboard(cfg, clock, pool, acts, t, u, pid, p.req, l);
    var end := Run(cfg, clock, pool, acts, u);
    f :| Fetch(Key(p), l, f) in end.fetches && end.procs[pid].phase.reply == Render(f, p.req.id);
    ReachableFetchesOnce(cfg, clock, pool, acts, u);
    FetchedForSameCall(cfg, clock, pool, acts, u, Fetch(Key(p), l, f), pid);
  }

  /** A negative hit implies a non-429 fetch failure for the key, stored within the last second. */
  lemma NegHitIsRecentFailure(cfg: Config, clock: int, pool: nat, acts: seq<Action>, t: nat, pid: nat) returns (f: Failure)
    requires t <= |acts|
    requires var st := Run(cfg, clock, pool, acts, t);
      pid in st.procs && st.procs[pid].phase.Replied? && st.procs[pid].phase.reply.NegHit?
    ensures var st := Run(cfg, clock, pool, acts, t);
      var p := st.procs[pid];
      && f in st.failures && f.key == Key(p) && f.at <= p.phase.at <= f.at + 1_000_000_000
      && Fetch(Key(p), f.leader, FetchError(false, f.retryAfter)) in st.fetches
      && f.leader in st.procs && SameCall(st.procs[f.leader].req, p.req)
  {
    ReachableInv(cfg, clock, pool, acts, t);
    var st := Run(cfg, clock, pool, acts, t);
    var p := st.procs[pid];
    assert Warranted(cfg, pid, p, st.fetches, st.writes, st.failures);
    f :| f in st.failures && ServesFailure(Key(p), p.phase.at, f);
    assert GoodFailure(f, st.clock, st.fetches);
    FetchedForSameCall(cfg, clock, pool, acts, t, Fetch(f.key, f.leader, FetchError(false, f.retryAfter)), pid);
  }

  /** A result, or a failure other than a 429. */
  predicate Storable(f: Fetched) {
    f.Result? || (f.FetchError? && !f.rateLimited)
  }

  /** The action completes a fetch with something to store. */
  predicate Stores(st: State, a: Action) {
    a.WriteStore? && Enabled(st, a) && Storable(st.procs[a.pid].phase.outcome)
  }

  /** `t` holds entries of `s` only, and all of those that have not expired. */
  ghost predicate OnlyExpires(s: seq<Entry>, t: seq<Entry>, now: int) {
    && (forall e :: e in t ==> e in s)
    && (forall e :: e in s && e !in t ==> Expired(e, now))
  }

  lemma GetOnlyExpires(s: seq<Entry>, k: string, now: int)
    requires Unique(s)
    ensures OnlyExpires(s, Get(s, k, now).0, now)
  {
    GetMembers(s, k, now);
    DropMembers(s, {k});
    forall e | e in s && e.key == k ensures Lookup(s, k) == Some(e) {
      LookupUnique(s, e);
    }
  }

  lemma StepOnlyExpires(cfg: Config, st: State, a: Action)
    requires Unique(st.store) && !Stores(st, a)
    ensures OnlyExpires(st.store, Step(cfg, st, a).store, st.clock)
  {
    if Enabled(st, a) {
      match a
      case CheckNeg(pid) => GetOnlyExpires(st.store, NegKey(Key(st.procs[pid])), st.clock);
      case CheckCache(pid) => GetOnlyExpires(st.store, Key(st.procs[pid]), st.clock);
      case SweepStore(r) => SweepExact(st.store, r);
      case _ =>
    }
  }

  lemma OnlyExpiresTwice(s: seq<Entry>, t: seq<Entry>, u: seq<Entry>, now: int, later: int)
    requires OnlyExpires(s, t, now) && OnlyExpires(t, u, later) && now <= later
    ensures OnlyExpires(s, u, later)
  {
  }

  /** From `st` to `later` the clock has not gone back, nothing was stored, and only expired entries went. */
  ghost predicate NothingStored(st: State, later: State) {
    st.clock <= later.clock && OnlyExpires(st.store, later.store, later.clock)
  }

  ghost predicate StoresAt(cfg: Config, clock: int, pool: nat, acts: seq<Action>, t: nat)
    requires t < |acts|
  {
    Stores(Run(cfg, clock, pool, acts, t), acts[t])
  }

  lemma NothingStoredNext(cfg: Config, clock: int, pool: nat, acts: seq<Action>, t: nat)
    requires t < |acts| && !StoresAt(cfg, clock, pool, acts, t)
    ensures NothingStored(Run(cfg, clock, pool, acts, t), Run(cfg, clock, pool, acts, t + 1))
  {
    StoreStaysWellFormed(cfg, clock, pool, acts, t);
    StepOnlyExpires(cfg, Run(cfg, clock, pool, acts, t), acts[t]);
  }

  /**
   429s, RPC errors, non-JSON and result-less bodies never change the store: over any stretch
   of a run in which nothing else completes, nothing is added and only expired entries go.
   */
  lemma {:induction false} OnlyResultsAndFailuresAreStored(cfg: Config, clock: int, pool: nat, acts: seq<Action>,
                                                           from: nat, upto: nat)
    requires from <= upto <= |acts|
    requires forall t :: from <= t < upto ==> !StoresAt(cfg, clock, pool, acts, t)
    ensures NothingStored(Run(cfg, clock, pool, acts, from), Run(cfg, clock, pool, acts, upto))
    decreases upto - from
  {
    if from < upto {
      var a, b, c := Run(cfg, clock, pool, acts, from), Run(cfg, clock, pool, acts, from + 1), Run(cfg, clock, pool, acts, upto);
      NothingStoredNext(cfg, clock, pool, acts, from);
      OnlyResultsAndFailuresAreStored(cfg, clock, pool, acts, from + 1, upto);
      OnlyExpiresTwice(a.store, b.store, c.store, b.clock, c.clock);
    }
  }

  /** The store stays a well-formed cache within its cap throughout. */
  lemma {:induction false} StoreStaysWellFormed(cfg: Config, clock: int, pool: nat, acts: seq<Action>, t: nat)
    requires t <= |acts|
    ensures Unique(Run(cfg, clock, pool, acts, t).store)
    ensures cfg.cap > 0 ==> |Run(cfg, clock, pool, acts, t).store| <= cfg.cap
  {
    if t > 0 {
      StoreStaysWellFormed(cfg, clock, pool, acts, t - 1);
      StoreStep(cfg, Run(cfg, clock, pool, acts, t - 1), acts[t - 1]);
    }
  }

  /** The cache operation an action performs on the store, if any. */
  function StoreOp(cfg: Config, st: State, a: Action): Option<LruTraces.Op> {
    if !Enabled(st, a) then None
    else match a
      case SweepStore(r) => Some(LruTraces.OpSweep(r))
      case CheckNeg(pid) => Some(LruTraces.OpGet(NegKey(Key(st.procs[pid])), st.clock))
      case CheckCache(pid) => Some(LruTraces.OpGet(Key(st.procs[pid]), st.clock))
      case WriteStore(pid, r) =>
        var p := st.procs[pid];
        (match p.phase.outcome
         case FetchError(rl, _) =>
           if rl then None else Some(LruTraces.OpSet(NegKey(Key(p)), NEG_SENTINEL, SECOND, r))
         case Result(v) => Some(LruTraces.OpSet(Key(p), v, Ttl(cfg, p.layer), r))
         case _ => None)
      case _ => None
  }

  /** What an action does to the store is that operation, or nothing. */
  lemma StoreStepIsOp(cfg: Config, st: State, a: Action)
    ensures Step(cfg, st, a).store ==
      match StoreOp(cfg, st, a)
      case None => st.store
      case Some(op) => LruTraces.Step(st.store, cfg.cap, op)
  {
  }

  lemma StoreStep(cfg: Config, st: State, a: Action)
    requires Unique(st.store) && (cfg.cap > 0 ==> |st.store| <= cfg.cap)
    ensures Unique(Step(cfg, st, a).store)
    ensures cfg.cap > 0 ==> |Step(cfg, st, a).store| <= cfg.cap
  {
    StoreStepIsOp(cfg, st, a);
    var op := StoreOp(cfg, st, a);
    if op.Some? {
      LruTraces.StepUnique(st.store, cfg.cap, op.value);
      if cfg.cap > 0 {
        LruTraces.StepWithinCap(st.store, cfg.cap, op.value);
      }
    }
  }

  /**
   Between rounds the published head is the greatest height of a routable node, and no
   routable node is more than the lag threshold behind it.
   */
  lemma SettledBetweenRounds(cfg: Config, clock: int, pool: nat, acts: seq<Action>, t: nat, block: uint64)
    requires t <= |acts| && Run(cfg, clock, pool, acts, t).settled
    ensures var st := Run(cfg, clock, pool, acts, t);
      && (forall i :: 0 <= i < |st.nodes| && st.nodes[i].healthy ==>
            st.nodes[i].height <= st.head <= st.nodes[i].height + cfg.lag)
      && (st.head == 0 || exists i :: 0 <= i < |st.nodes| && st.nodes[i].healthy && st.nodes[i].height == st.head)
      && (cfg.lag <= cfg.depth && IsFinalized(st.head, cfg.depth, block) ==>
            forall i :: 0 <= i < |st.nodes| && st.nodes[i].healthy ==> block <= st.nodes[i].height)
  {
    ReachableInv(cfg, clock, pool, acts, t);
    BestIsMaximum(Run(cfg, clock, pool, acts, t).nodes);
  }

  // ---- One request on its own ----

  /** The two lookups of a request: the negative key first, then the positive one. */
  function LookUp(store: seq<Entry>, req: Request, now: int): (seq<Entry>, Option<Reply>) {
    var (s1, neg) := Get(store, NegKey(CacheKey(req)), now);
    if neg.Some? then (s1, Some(NegHit))
    else
      var (s2, hit) := Get(s1, CacheKey(req), now);
      (s2, if hit.Some? then Some(CacheHit(req.id, hit.value)) else None)
  }

  /** A live entry of `store` has this key and value. */
  ghost predicate HoldsLive(store: seq<Entry>, k: string, v: string, now: int) {
    exists e :: e in store && e.key == k && e.value == v && Live(e, now)
  }

  lemma GetAnswers(store: seq<Entry>, k: string, now: int)
    requires Unique(store)
    ensures forall v :: Get(store, k, now).1 == Some(v) <==> HoldsLive(store, k, v, now)
    ensures Get(store, k, now).1.Some? <==> exists v :: HoldsLive(store, k, v, now)
    ensures forall k', v :: k' != k ==> (HoldsLive(Get(store, k, now).0, k', v, now) <==> HoldsLive(store, k', v, now))
  {
    GetExact(store, k, now);
    if Get(store, k, now).1.Some? {
      assert HoldsLive(store, k, Get(store, k, now).1.value, now);
    }
  }

  /**
   What the store answers, from its entries alone: a live failure of the call wins, then a
   live result of it is served under the caller's id.
   */
  lemma LookUpExact(store: seq<Entry>, req: Request, now: int)
    requires Unique(store)
    ensures var key := req.rpc + ":" + req.params.canonical;
      var found := LookUp(store, req, now).1;
      var failed := exists v :: HoldsLive(store, "neg::" + key, v, now);
      && (found == Some(NegHit) <==> failed)
      && (found.Some? ==> found.value.NegHit? || found.value.CacheHit?)
      && (forall id, v :: found == Some(CacheHit(id, v)) <==> !failed && id == req.id && HoldsLive(store, key, v, now))
  {
    var key := CacheKey(req);
    var s1 := Get(store, NegKey(key), now).0;
    GetAnswers(store, NegKey(key), now);
    LruTraces.StepUnique(store, 0, LruTraces.OpGet(NegKey(key), now));
    GetAnswers(s1, key, now);
    assert NegKey(key) != key by {
      assert |NegKey(key)| == |key| + 5;
    }
    assert forall v :: HoldsLive(s1, key, v, now) <==> HoldsLive(store, key, v, now);
  }

  /** A fetched result is found for the same call while its layer allows, for ever if it is immutable. */
  lemma ResultIsServed(cfg: Config, store: seq<Entry>, p: Proc, v: string, reading: int, now: int)
    ensures Get(StoreAfter(cfg, store, p, Result(v), reading), p.req.rpc + ":" + p.req.params.canonical, now).1 ==
      if p.layer == Mutable && cfg.mutableTTL > 0 && now > reading + cfg.mutableTTL then None else Some(v)
  {
    SetThenGet(store, cfg.cap, Key(p), v, Ttl(cfg, p.layer), reading, now);
  }

  /** A failure other than a 429 is remembered for the same call for exactly a second. */
  lemma FailureIsRemembered(cfg: Config, store: seq<Entry>, p: Proc, after: string, reading: int, now: int)
    ensures Get(StoreAfter(cfg, store, p, FetchError(false, after), reading),
                "neg::" + (p.req.rpc + ":" + p.req.params.canonical), now).1.Some?
      <==> now <= reading + 1_000_000_000
  {
    SetThenGet(store, cfg.cap, NegKey(Key(p)), NEG_SENTINEL, SECOND, reading, now);
  }

  /** A cacheable request served without interference; `f` is what its fetch would bring. */
  function ServeAlone(cfg: Config, store: seq<Entry>, req: Request, layer: Layer, now: int, f: Fetched, reading: int)
    : (seq<Entry>, Reply)
  {
    var (s, found) := LookUp(store, req, now);
    if found.Some? then (s, found.value)
    else (StoreAfter(cfg, s, Proc(req, layer, Sight(0, [], false), HasFetched(f)), f, reading), Render(f, req.id))
  }

  lemma SoloNegCheck(cfg: Config, st: State, pid: nat, req: Request)
    requires pid !in st.procs && Classify(req.rpc, req.params, st.head, cfg.depth) != Uncacheable
    ensures var t := Step(cfg, Step(cfg, st, Arrive(pid, req)), CheckNeg(pid));
      var (s, neg) := Get(st.store, NegKey(CacheKey(req)), st.clock);
      && t.clock == st.clock && t.flights == st.flights && t.store == s && pid in t.procs
      && t.procs[pid] == Proc(req, Classify(req.rpc, req.params, st.head, cfg.depth),
                              Sight(st.head, st.nodes, st.settled),
                              if neg.Some? then Replied(NegHit, st.clock) else CacheCheck)
  {
  }

  lemma SoloCacheCheck(cfg: Config, st: State, pid: nat)
    requires pid in st.procs && (st.procs[pid].phase.CacheCheck? || st.procs[pid].phase.Replied?)
    requires Key(st.procs[pid]) !in st.flights
    ensures var t := Step(cfg, Step(cfg, st, CheckCache(pid)), Join(pid));
      var p := st.procs[pid];
      var (s, hit) := Get(st.store, Key(p), st.clock);
      && t.clock == st.clock
      && (if p.phase.Replied? then t == st
          else
            && t.store == s && pid in t.procs
            && t.procs[pid] ==
                 p.(phase := if hit.Some? then Replied(CacheHit(p.req.id, hit.value), st.clock) else Leading))
  {
  }

  lemma SoloFetch(cfg: Config, st: State, pid: nat, f: Fetched, reading: int)
    requires pid in st.procs && Possible(f) && reading <= st.clock
    requires st.procs[pid].phase.Leading? || st.procs[pid].phase.Replied?
    ensures var t := Step(cfg, Step(cfg, st, FetchReturns(pid, f)), WriteStore(pid, reading));
      var end := Step(cfg, Step(cfg, t, Complete(pid)), Respond(pid));
      var p := st.procs[pid];
      && (if p.phase.Replied? then end == st
          else
            && pid in end.procs && end.procs[pid].phase == Replied(Render(f, p.req.id), st.clock)
            && end.store == StoreAfter(cfg, st.store, p, f, reading))
  {
  }

  /**
   The interleaved model contains the sequential one: a request whose steps are not
   interrupted ends with the store and the reply of `ServeAlone`.
   */
  lemma SoloRunIsServeAlone(cfg: Config, st: State, pid: nat, req: Request, f: Fetched, reading: int)
    requires pid !in st.procs && CacheKey(req) !in st.flights && Possible(f) && reading <= st.clock
    requires Classify(req.rpc, req.params, st.head, cfg.depth) != Uncacheable
    ensures var s2 := Step(cfg, Step(cfg, st, Arrive(pid, req)), CheckNeg(pid));
      var s4 := Step(cfg, Step(cfg, s2, CheckCache(pid)), Join(pid));
      var s6 := Step(cfg, Step(cfg, s4, FetchReturns(pid, f)), WriteStore(pid, reading));
      var s8 := Step(cfg, Step(cfg, s6, Complete(pid)), Respond(pid));
      var (s, reply) :=
        ServeAlone(cfg, st.store, req, Classify(req.rpc, req.params, st.head, cfg.depth), st.clock, f, reading);
      s8.store == s && pid in s8.procs && s8.procs[pid].phase == Replied(reply, st.clock)
  {
    SoloNegCheck(cfg, st, pid, req);
    var s2 := Step(cfg, Step(cfg, st, Arrive(pid, req)), CheckNeg(pid));
    SoloCacheCheck(cfg, s2, pid);
    SoloFetch(cfg, Step(cfg, Step(cfg, s2, CheckCache(pid)), Join(pid)), pid, f, reading);
  }
}
