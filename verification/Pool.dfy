/** The pool of upstream nodes and the loops that walk it: routing, retrying and dialling. */
module Pool {
  import opened Common
  import opened RoundRobin
  import opened HealthSpec
  import opened Finality

  /** A bit mask of what a node can serve. */
  type Capability = bv16

  const CAP_BASIC: Capability := 1
  const CAP_DEBUG: Capability := 4
  const CAP_TRACE: Capability := 8

  predicate Has(c: Capability, other: Capability) {
    c & other == other
  }

  /** The capability a method needs from the node it is routed to. */
  function MethodCapability(rpc: string): Capability {
    if "debug_" <= rpc then CAP_DEBUG
    else if "trace_" <= rpc then CAP_TRACE
    else CAP_BASIC
  }

  class Upstream {
    var blockHeight: uint64
    var healthy: bool
    var capabilities: Capability

    constructor (capabilities: Capability)
      ensures healthy && blockHeight == 0
      ensures this.capabilities == if capabilities == 0 then 1 else capabilities
    {
      blockHeight, healthy := 0, true;
      this.capabilities := if capabilities == 0 then CAP_BASIC else capabilities;
    }

    ghost function State(): NodeState
      reads this
    {
      NodeState(blockHeight, healthy)
    }

    /** Records the outcome of one health probe. */
    method CheckNode(probe: Probe)
      modifies this
      ensures State() == Probed(old(State()), probe)
      ensures capabilities == old(capabilities)
    {
      healthy := probe.healthy;
      if probe.height > 0 {
        blockHeight := probe.height;
      }
    }
  }

  ghost function StatesOf(nodes: seq<Upstream>): (s: seq<NodeState>)
    reads nodes
    ensures |s| == |nodes|
    ensures forall i :: 0 <= i < |nodes| ==> s[i] == nodes[i].State()
  {
    seq(|nodes|, i requires 0 <= i < |nodes| reads nodes => nodes[i].State())
  }

  ghost function HealthOf(nodes: seq<Upstream>): (ok: seq<bool>)
    reads nodes
    ensures |ok| == |nodes|
    ensures forall i :: 0 <= i < |nodes| ==> ok[i] == nodes[i].healthy
  {
    seq(|nodes|, i requires 0 <= i < |nodes| reads nodes => nodes[i].healthy)
  }

  ghost function EligibleFor(nodes: seq<Upstream>, required: Capability): (ok: seq<bool>)
    reads nodes
    ensures |ok| == |nodes|
    ensures forall i :: 0 <= i < |nodes| ==>
      ok[i] == (nodes[i].healthy && Has(nodes[i].capabilities, required))
  {
    seq(|nodes|, i requires 0 <= i < |nodes| reads nodes =>
      nodes[i].healthy && Has(nodes[i].capabilities, required))
  }

  /** The node is healthy and carries the bit of the method's namespace. */
  ghost predicate CanServe(node: Upstream, rpc: string)
    reads node
  {
    && node.healthy
    && (if "debug_" <= rpc then node.capabilities & 4 == 4
        else if "trace_" <= rpc then node.capabilities & 8 == 8
        else node.capabilities & 1 == 1)
  }

  lemma EligibleCanServe(nodes: seq<Upstream>, rpc: string)
    ensures forall i :: 0 <= i < |nodes| ==>
      (EligibleFor(nodes, MethodCapability(rpc))[i] <==> CanServe(nodes[i], rpc))
  {
  }

  /** A node is returned as its position in the pool. */
  class NodePool {
    const nodes: seq<Upstream>
    var counter: uint64

    ghost predicate Valid() {
      forall i, j :: 0 <= i < j < |nodes| ==> nodes[i] != nodes[j]
    }

    constructor (nodes: seq<Upstream>)
      ensures this.nodes == nodes && counter == 0
    {
      this.nodes := nodes;
      counter := 0;
    }

    method Next() returns (node: Option<nat>)
      modifies this`counter
      ensures (node, counter) == RoundRobin.Next(HealthOf(nodes), old(counter))
    {
      var n := |nodes|;
      var i := 0;
      while i < n
        invariant 0 <= i <= n
        invariant NextFrom(HealthOf(nodes), counter, n - i) == RoundRobin.Next(HealthOf(nodes), old(counter))
      {
        var slot := counter;
        counter := Increment(counter);
        SlotIsMod(slot, n);
        var idx := slot % n;
        if nodes[idx].healthy {
          return Some(idx);
        }
        i := i + 1;
      }
      return None;
    }

    method NextWithCapability(required: Capability) returns (node: Option<nat>)
      modifies this`counter
      ensures node == Pick(EligibleFor(nodes, required), old(counter))
      ensures counter == Inc(old(counter))
    {
      var n := |nodes|;
      var start := counter;
      counter := Increment(counter);
      ghost var ok := EligibleFor(nodes, required);
      var i := 0;
      while i < n
        invariant 0 <= i <= n
        invariant counter == Inc(start)
        invariant PickFrom(ok, start, i) == Pick(ok, start)
      {
        var idx := IndexAt(start, i, n);
        if nodes[idx].healthy && Has(nodes[idx].capabilities, required) {
          return Some(idx);
        }
        i := i + 1;
      }
      return None;
    }

    /** Takes lagging nodes out of rotation and reports the best height among healthy nodes. */
    method MarkLaggingNodes(threshold: uint64) returns (best: uint64)
      requires Valid()
      modifies nodes
      ensures best == Best(old(StatesOf(nodes)))
      ensures StatesOf(nodes) == MarkLagging(old(StatesOf(nodes)), threshold)
    {
      ghost var before := StatesOf(nodes);
      best := 0;
      for i := 0 to |nodes|
        invariant StatesOf(nodes) == before
        invariant best == Best(before[..i])
      {
        BestAppend(before, i);
        if nodes[i].healthy && nodes[i].blockHeight > best {
          best := nodes[i].blockHeight;
        }
      }
      assert before[..|nodes|] == before;
      for i := 0 to |nodes|
        invariant forall k :: 0 <= k < |nodes| ==>
          nodes[k].State() == if k < i then Marked(before[k], best, threshold) else before[k]
      {
        if nodes[i].healthy && best > threshold && nodes[i].blockHeight < Minus(best, threshold) {
          nodes[i].healthy := false;
        }
      }
    }

    /** One health round: probe every node, mark the laggards, publish the head. */
    method HealthRound(probes: seq<Probe>, lag: uint64, fc: FinalityChecker)
      requires Valid() && |probes| == |nodes|
      modifies nodes, fc`head
      ensures StatesOf(nodes) == MarkLagging(ProbedAll(old(StatesOf(nodes)), probes), lag)
      ensures fc.head == Best(StatesOf(nodes))
      ensures forall i :: 0 <= i < |nodes| && nodes[i].healthy ==> nodes[i].blockHeight + lag >= fc.head
    {
      ghost var before := StatesOf(nodes);
      for i := 0 to |nodes|
        invariant forall k :: 0 <= k < |nodes| ==>
          nodes[k].State() == if k < i then Probed(before[k], probes[k]) else before[k]
      {
        nodes[i].CheckNode(probes[i]);
      }
      assert StatesOf(nodes) == ProbedAll(before, probes);
      var best := MarkLaggingNodes(lag);
      RoundEnd(before, probes, lag);
      fc.SetHead(best);
    }

    method Route(rpc: string) returns (node: Option<nat>)
      modifies this`counter
      ensures node == Pick(EligibleFor(nodes, MethodCapability(rpc)), old(counter))
      ensures counter == Inc(old(counter))
      ensures node.Some? ==> node.value < |nodes| && CanServe(nodes[node.value], rpc)
      ensures node.None? && (nodes != [] ==> Intact(old(counter), |nodes|, |nodes|)) ==>
        forall i :: 0 <= i < |nodes| ==> !CanServe(nodes[i], rpc)
    {
      ghost var ok := EligibleFor(nodes, MethodCapability(rpc));
      EligibleCanServe(nodes, rpc);
      PickInRange(ok, counter, 0);
      if nodes != [] ==> Intact(counter, |nodes|, |nodes|) {
        PickNilIffNone(ok, counter);
      }
      node := NextWithCapability(MethodCapability(rpc));
    }
  }

  /** The node inspected `i` positions after `start`, in 64-bit arithmetic. */
  method IndexAt(start: uint64, i: nat, n: nat) returns (idx: nat)
    requires n > 0
    ensures idx == Slot(Wrap(start + i), n)
  {
    WrappedSlotIsMod(start + i, n);
    idx := (start + i) % TWO64 % n;
  }

  /** 64-bit addition of one. */
  method Increment(c: uint64) returns (r: uint64)
    ensures r == Inc(c)
  {
    r := (c + 1) % TWO64;
  }

  // ---- Retry over HTTP upstreams ----

  /** What one forwarded request came back with. */
  datatype HttpReply = HttpReply(status: int, body: string, retryAfter: string)

  datatype FetchResult = Body(body: string) | RateLimited(retryAfter: string) | Unavailable

  predicate Success(status: int) {
    200 <= status < 300
  }

  /** The nodes tried are the answers of consecutive routing calls. */
  ghost predicate TriedInOrder(tried: seq<nat>, ok: seq<bool>, c: uint64) {
    |tried| <= |ok| && forall k :: 0 <= k < |tried| ==> PickCalls(ok, c, |ok|)[k] == Some(tried[k])
  }

  /** Giving up: a whole turn was spent, or the next routing call finds no node. */
  ghost predicate GaveUp(tried: seq<nat>, ok: seq<bool>, c: uint64) {
    |tried| < |ok| ==> PickCalls(ok, c, |ok|)[|tried|] == None
  }

  /** Success or a 429 ends the fetch. */
  predicate EndsFetch(status: int) {
    Success(status) || status == 429
  }

  /**
   What a fetch over the nodes `ok` from counter `c` comes to: nodes are tried in routing
   order, the first success or 429 ends it, and otherwise it goes on until it must give up.
   */
  ghost predicate FetchedBy(ok: seq<bool>, c: uint64, replies: seq<HttpReply>, r: FetchResult, tried: seq<nat>)
    requires |replies| >= |ok|
  {
    && TriedInOrder(tried, ok, c)
    && (forall k :: 0 <= k < |tried| - 1 ==> !EndsFetch(replies[k].status))
    && match r
       case Body(b) =>
         tried != [] && Success(replies[|tried| - 1].status) && b == replies[|tried| - 1].body
       case RateLimited(after) =>
         tried != [] && replies[|tried| - 1].status == 429 && after == replies[|tried| - 1].retryAfter
       case Unavailable =>
         (tried != [] ==> !EndsFetch(replies[|tried| - 1].status)) && GaveUp(tried, ok, c)
  }

  /** How each attempt came out, by status: only the last may be a 2xx or a 429. */
  lemma FetchStatuses(ok: seq<bool>, c: uint64, replies: seq<HttpReply>, r: FetchResult, tried: seq<nat>)
    requires |replies| >= |ok| && FetchedBy(ok, c, replies, r, tried)
    ensures forall k :: 0 <= k < |tried| - 1 ==> !(200 <= replies[k].status < 300) && replies[k].status != 429
    ensures r.Body? <==> tried != [] && 200 <= replies[|tried| - 1].status < 300
    ensures r.Body? ==> r.body == replies[|tried| - 1].body
    ensures r.RateLimited? <==> tried != [] && replies[|tried| - 1].status == 429
    ensures r.RateLimited? ==> r.retryAfter == replies[|tried| - 1].retryAfter
  {
  }

  /** Every node tried may serve the method. */
  lemma TriedCanServe(nodes: seq<Upstream>, rpc: string, c: uint64, tried: seq<nat>)
    requires TriedInOrder(tried, EligibleFor(nodes, MethodCapability(rpc)), c)
    ensures forall k :: 0 <= k < |tried| ==> tried[k] < |nodes| && CanServe(nodes[tried[k]], rpc)
  {
    var ok := EligibleFor(nodes, MethodCapability(rpc));
    EligibleCanServe(nodes, rpc);
    forall k | 0 <= k < |tried| ensures tried[k] < |nodes| && CanServe(nodes[tried[k]], rpc) {
      PickCallsAt(ok, c, |ok|, k);
      PickInRange(ok, Wrap(c + k), 0);
    }
  }

  /** The nodes tried and the outcome are determined by the pool and the replies. */
  lemma FetchDetermined(ok: seq<bool>, c: uint64, replies: seq<HttpReply>,
                        r: FetchResult, tried: seq<nat>, r': FetchResult, tried': seq<nat>)
    requires |replies| >= |ok|
    requires FetchedBy(ok, c, replies, r, tried) && FetchedBy(ok, c, replies, r', tried')
    ensures r == r' && tried == tried'
  {
    assert |tried| == |tried'|;
    forall k | 0 <= k < |tried| ensures tried[k] == tried'[k] {
      assert PickCalls(ok, c, |ok|)[k] == Some(tried[k]);
    }
  }

  /** One more routing call: either it extends the nodes tried, or the loop must give up. */
  lemma RoutingCall(tried: seq<nat>, ok: seq<bool>, c: uint64)
    requires TriedInOrder(tried, ok, c) && |tried| < |ok|
    ensures var node := Pick(ok, Wrap(c + |tried|));
      if node.Some? then TriedInOrder(tried + [node.value], ok, c) else GaveUp(tried, ok, c)
    ensures Inc(Wrap(c + |tried|)) == Wrap(c + |tried| + 1)
  {
    PickCallsAt(ok, c, |ok|, |tried|);
    WrapInc(c + |tried|);
  }

  /** The counter after a loop over `n` nodes: one routing call per node tried, one more if that found none. */
  function CounterAfter(c: uint64, n: nat, tried: seq<nat>, gaveUp: bool): uint64 {
    Wrap(c + |tried| + if gaveUp && |tried| < n then 1 else 0)
  }

  /**
   Tries capable healthy nodes until one answers; `replies[i]` is the outcome of the i-th
   attempt. Giving up means that every eligible node was tried and failed.
   */
  method FetchFromUpstream(pool: NodePool, rpc: string, replies: seq<HttpReply>)
    returns (r: FetchResult, tried: seq<nat>)
    requires |replies| >= |pool.nodes|
    modifies pool`counter
    ensures FetchedBy(EligibleFor(pool.nodes, MethodCapability(rpc)), old(pool.counter), replies, r, tried)
    ensures pool.counter == CounterAfter(old(pool.counter), |pool.nodes|, tried, r.Unavailable?)
    ensures forall k :: 0 <= k < |tried| ==> tried[k] < |pool.nodes| && CanServe(pool.nodes[tried[k]], rpc)
    ensures forall k :: 0 <= k < |tried| - 1 ==> !(200 <= replies[k].status < 300) && replies[k].status != 429
    ensures r.Body? <==> tried != [] && 200 <= replies[|tried| - 1].status < 300
    ensures r.RateLimited? <==> tried != [] && replies[|tried| - 1].status == 429
    ensures r.Unavailable? && (pool.nodes != [] ==> Intact(old(pool.counter), |pool.nodes|, |pool.nodes|)) ==>
      forall j :: 0 <= j < |pool.nodes| && CanServe(pool.nodes[j], rpc) ==> j in tried
  {
    ghost var c := pool.counter;
    r, tried := TryUntilAnswer(pool, rpc, replies);
    ghost var ok := EligibleFor(pool.nodes, MethodCapability(rpc));
    FetchStatuses(ok, c, replies, r, tried);
    TriedCanServe(pool.nodes, rpc, c, tried);
    if r.Unavailable? {
      AllTried(tried, ok, c);
      EligibleCanServe(pool.nodes, rpc);
    }
  }

  method TryUntilAnswer(pool: NodePool, rpc: string, replies: seq<HttpReply>)
    returns (r: FetchResult, tried: seq<nat>)
    requires |replies| >= |pool.nodes|
    modifies pool`counter
    ensures FetchedBy(EligibleFor(pool.nodes, MethodCapability(rpc)), old(pool.counter), replies, r, tried)
    ensures pool.counter == CounterAfter(old(pool.counter), |pool.nodes|, tried, r.Unavailable?)
  {
    var n := |pool.nodes|;
    ghost var ok := EligibleFor(pool.nodes, MethodCapability(rpc));
    ghost var c := pool.counter;
    tried := [];
    var i := 0;
    SlotSmall(c, TWO64);
    while i < n
      invariant 0 <= i <= n && |tried| == i
      invariant EligibleFor(pool.nodes, MethodCapability(rpc)) == ok
      invariant pool.counter == Wrap(c + i)
      invariant TriedInOrder(tried, ok, c)
      invariant forall k :: 0 <= k < i ==> !EndsFetch(replies[k].status)
    {
      var node := pool.Route(rpc);
      RoutingCall(tried, ok, c);
      if node == None {
        return Unavailable, tried;
      }
      tried := tried + [node.value];
      if replies[i].status == 429 {
        return RateLimited(replies[i].retryAfter), tried;
      }
      if Success(replies[i].status) {
        return Body(replies[i].body), tried;
      }
      i := i + 1;
    }
    return Unavailable, tried;
  }

  /** What the uncached path comes to: as `FetchedBy`, but only a success ends it. */
  ghost predicate ProxiedBy(ok: seq<bool>, c: uint64, replies: seq<HttpReply>, served: Option<nat>, tried: seq<nat>)
    requires |replies| >= |ok|
  {
    && TriedInOrder(tried, ok, c)
    && (forall k :: 0 <= k < |tried| - 1 ==> !Success(replies[k].status))
    && match served
       case Some(i) => |tried| == i + 1 && Success(replies[i].status)
       case None => (tried != [] ==> !Success(replies[|tried| - 1].status)) && GaveUp(tried, ok, c)
  }

  /**
   The uncached path: as above, but a 429 is just another failure. Answers the index of the
   attempt that succeeded.
   */
  method ProxyDirect(pool: NodePool, rpc: string, replies: seq<HttpReply>)
    returns (served: Option<nat>, tried: seq<nat>)
    requires |replies| >= |pool.nodes|
    modifies pool`counter
    ensures ProxiedBy(EligibleFor(pool.nodes, MethodCapability(rpc)), old(pool.counter), replies, served, tried)
    ensures pool.counter == CounterAfter(old(pool.counter), |pool.nodes|, tried, served.None?)
    ensures forall k :: 0 <= k < |tried| ==> tried[k] < |pool.nodes| && CanServe(pool.nodes[tried[k]], rpc)
    ensures forall k :: 0 <= k < |tried| ==>
      (200 <= replies[k].status < 300 <==> served == Some(k))
    ensures served.None? && (pool.nodes != [] ==> Intact(old(pool.counter), |pool.nodes|, |pool.nodes|)) ==>
      forall j :: 0 <= j < |pool.nodes| && CanServe(pool.nodes[j], rpc) ==> j in tried
  {
    ghost var c := pool.counter;
    served, tried := TryUntilSuccess(pool, rpc, replies);
    TriedCanServe(pool.nodes, rpc, c, tried);
    if served.None? {
      AllTried(tried, EligibleFor(pool.nodes, MethodCapability(rpc)), c);
      EligibleCanServe(pool.nodes, rpc);
    }
  }

  method TryUntilSuccess(pool: NodePool, rpc: string, replies: seq<HttpReply>)
    returns (served: Option<nat>, tried: seq<nat>)
    requires |replies| >= |pool.nodes|
    modifies pool`counter
    ensures ProxiedBy(EligibleFor(pool.nodes, MethodCapability(rpc)), old(pool.counter), replies, served, tried)
    ensures pool.counter == CounterAfter(old(pool.counter), |pool.nodes|, tried, served.None?)
  {
    var n := |pool.nodes|;
    ghost var ok := EligibleFor(pool.nodes, MethodCapability(rpc));
    ghost var c := pool.counter;
    tried := [];
    var i := 0;
    SlotSmall(c, TWO64);
    while i < n
      invariant 0 <= i <= n && |tried| == i
      invariant EligibleFor(pool.nodes, MethodCapability(rpc)) == ok
      invariant pool.counter == Wrap(c + i)
      invariant TriedInOrder(tried, ok, c)
      invariant forall k :: 0 <= k < i ==> !Success(replies[k].status)
    {
      var node := pool.Route(rpc);
      RoutingCall(tried, ok, c);
      if node == None {
        return None, tried;
      }
      tried := tried + [node.value];
      if Success(replies[i].status) {
        return Some(i), tried;
      }
      i := i + 1;
    }
    return None, tried;
  }

  /** A loop that gave up has tried every eligible node. */
  lemma AllTried(tried: seq<nat>, ok: seq<bool>, c: uint64)
    requires TriedInOrder(tried, ok, c) && GaveUp(tried, ok, c)
    ensures (ok != [] ==> Intact(c, |ok|, |ok|)) ==> forall j :: 0 <= j < |ok| && ok[j] ==> j in tried
  {
    if ok != [] ==> Intact(c, |ok|, |ok|) {
      PickReachesAll(ok, c);
      ReachedAreListed(PickCalls(ok, c, |ok|), ok, tried);
    }
  }

  /** A loop that follows the answers up to the first nil meets every node they reach. */
  lemma ReachedAreListed(rs: seq<Option<nat>>, ok: seq<bool>, listed: seq<nat>)
    requires ReachesAll(rs, ok) && |listed| <= |rs|
    requires forall k :: 0 <= k < |listed| ==> rs[k] == Some(listed[k])
    requires |listed| < |rs| ==> rs[|listed|] == None
    ensures forall j :: 0 <= j < |ok| && ok[j] ==> j in listed
  {
    forall j: nat | j < |ok| && ok[j] ensures j in listed {
      var k :| 0 <= k < |rs| && rs[k] == Some(j) && None !in rs[..k];
      assert listed[k] == j;
    }
  }

  // ---- Dialling WebSocket upstreams ----

  /** Consecutive calls of `Next`, threading the counter. */
  function NextCounter(ok: seq<bool>, c: uint64, m: nat): uint64
    decreases m
  {
    if m == 0 then c else NextCounter(ok, RoundRobin.Next(ok, c).1, m - 1)
  }

  lemma {:induction false} NextCallsAt(ok: seq<bool>, c: uint64, m: nat, k: nat)
    requires k < m
    ensures NextCalls(ok, c, m)[k] == RoundRobin.Next(ok, NextCounter(ok, c, k)).0
    ensures NextCounter(ok, c, k + 1) == RoundRobin.Next(ok, NextCounter(ok, c, k)).1
    decreases k
  {
    if k > 0 {
      NextCallsAt(ok, RoundRobin.Next(ok, c).1, m - 1, k - 1);
    }
  }

  /**
   Dials healthy nodes until one accepts; `accepts[i]` is the outcome of the i-th dial.
   Giving up means that every healthy node was dialled and refused.
   */
  method ConnectUpstream(pool: NodePool, accepts: seq<bool>) returns (conn: Option<nat>, dialled: seq<nat>)
    requires |accepts| >= |pool.nodes|
    modifies pool`counter
    ensures |dialled| <= |pool.nodes|
    ensures forall k :: 0 <= k < |dialled| ==>
      NextCalls(HealthOf(pool.nodes), old(pool.counter), |pool.nodes|)[k] == Some(dialled[k])
    ensures forall k :: 0 <= k < |dialled| - 1 ==> !accepts[k]
    ensures conn.Some? <==> dialled != [] && accepts[|dialled| - 1]
    ensures conn.Some? ==> conn.value == dialled[|dialled| - 1]
    ensures conn.None? && |dialled| < |pool.nodes| ==>
      NextCalls(HealthOf(pool.nodes), old(pool.counter), |pool.nodes|)[|dialled|] == None
    ensures conn.None? && (pool.nodes != [] ==> Intact(old(pool.counter), |pool.nodes|, |pool.nodes|)) ==>
      forall j :: 0 <= j < |pool.nodes| && pool.nodes[j].healthy ==> j in dialled
  {
    var n := |pool.nodes|;
    ghost var ok := HealthOf(pool.nodes);
    ghost var c := pool.counter;
    dialled := [];
    var i := 0;
    while i < n
      invariant 0 <= i <= n && |dialled| == i
      invariant HealthOf(pool.nodes) == ok
      invariant pool.counter == NextCounter(ok, c, i)
      invariant forall k :: 0 <= k < i ==> NextCalls(ok, c, n)[k] == Some(dialled[k]) && !accepts[k]
    {
      var node := pool.Next();
      NextCallsAt(ok, c, n, i);
      if node == None {
        DialledAll(ok, c, dialled);
        return None, dialled;
      }
      dialled := dialled + [node.value];
      if accepts[i] {
        return node, dialled;
      }
      i := i + 1;
    }
    DialledAll(ok, c, dialled);
    return None, dialled;
  }

  /** Once `Next` answers nil or a whole turn is spent, every healthy node has been dialled. */
  lemma DialledAll(ok: seq<bool>, c: uint64, dialled: seq<nat>)
    requires |dialled| <= |ok|
    requires forall k :: 0 <= k < |dialled| ==> NextCalls(ok, c, |ok|)[k] == Some(dialled[k])
    requires |dialled| < |ok| ==> NextCalls(ok, c, |ok|)[|dialled|] == None
    ensures (ok != [] ==> Intact(c, |ok|, |ok|)) ==> forall j :: 0 <= j < |ok| && ok[j] ==> j in dialled
  {
    if ok != [] ==> Intact(c, |ok|, |ok|) {
      NextReachesAll(ok, c);
      ReachedAreListed(NextCalls(ok, c, |ok|), ok, dialled);
    }
  }
}
