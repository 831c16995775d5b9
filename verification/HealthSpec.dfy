/** The pure content of a health round: probe outcomes, lag marking and the published head. */
module HealthSpec {
  import opened Common
  import opened Finality

  datatype NodeState = NodeState(height: uint64, healthy: bool)

  /** What a probe reports; height 0 means that no fresh height was observed. */
  datatype Probe = Probe(healthy: bool, height: uint64)

  /** The HTTP answer to a health probe; `result` is None when the body is not usable JSON. */
  datatype ProbeReply =
    | Unreachable
    | Answer(status: int, rpcError: bool, result: Option<string>)

  /** A rate-limited node counts as reachable but reports no height. */
  function Assess(r: ProbeReply): Probe {
    match r
    case Unreachable => Probe(false, 0)
    case Answer(status, rpcError, result) =>
      if status == 429 then Probe(true, 0)
      else if status != 200 || rpcError || result.None? then Probe(false, 0)
      else match ParseBlockNumber(result.value)
        case None => Probe(false, 0)
        case Some(h) => Probe(true, h)
  }

  function Probed(n: NodeState, p: Probe): NodeState {
    NodeState(if p.height > 0 then p.height else n.height, p.healthy)
  }

  function ProbedAll(nodes: seq<NodeState>, probes: seq<Probe>): (r: seq<NodeState>)
    requires |nodes| == |probes|
    ensures |r| == |nodes|
  {
    seq(|nodes|, i requires 0 <= i < |nodes| => Probed(nodes[i], probes[i]))
  }

  /** The greatest height among healthy nodes, 0 if there is none. */
  function Best(nodes: seq<NodeState>): uint64 {
    if nodes == [] then 0
    else
      var n := nodes[|nodes| - 1];
      var b := Best(nodes[..|nodes| - 1]);
      if n.healthy && n.height > b then n.height else b
  }

  lemma BestAppend(nodes: seq<NodeState>, i: nat)
    requires i < |nodes|
    ensures Best(nodes[..i + 1]) ==
      if nodes[i].healthy && nodes[i].height > Best(nodes[..i]) then nodes[i].height else Best(nodes[..i])
  {
    assert nodes[..i + 1][..i] == nodes[..i];
  }

  lemma {:induction false} BestIsMaximum(nodes: seq<NodeState>)
    ensures forall i :: 0 <= i < |nodes| && nodes[i].healthy ==> nodes[i].height <= Best(nodes)
    ensures Best(nodes) == 0 || exists i :: 0 <= i < |nodes| && nodes[i].healthy && nodes[i].height == Best(nodes)
  {
    if nodes != [] {
      var m := |nodes| - 1;
      BestIsMaximum(nodes[..m]);
      if Best(nodes) != 0 && Best(nodes) == Best(nodes[..m]) {
        var i :| 0 <= i < m && nodes[..m][i].healthy && nodes[..m][i].height == Best(nodes[..m]);
        assert nodes[i] == nodes[..m][i];
      }
      forall i | 0 <= i < |nodes| && nodes[i].healthy ensures nodes[i].height <= Best(nodes) {
        if i < m {
          assert nodes[..m][i] == nodes[i];
        }
      }
    }
  }

  /** Lagging, in unbounded integers. */
  predicate Lags(n: NodeState, best: uint64, threshold: uint64) {
    n.height + threshold < best
  }

  function Marked(n: NodeState, best: uint64, threshold: uint64): NodeState {
    if n.healthy && Lags(n, best, threshold) then n.(healthy := false) else n
  }

  function MarkLagging(nodes: seq<NodeState>, threshold: uint64): (r: seq<NodeState>)
    ensures |r| == |nodes|
  {
    seq(|nodes|, i requires 0 <= i < |nodes| => Marked(nodes[i], Best(nodes), threshold))
  }

  /** A maximum is determined by bounding and attaining. */
  lemma BestUnique(nodes: seq<NodeState>, b: uint64)
    requires forall i :: 0 <= i < |nodes| && nodes[i].healthy ==> nodes[i].height <= b
    requires b == 0 || exists i :: 0 <= i < |nodes| && nodes[i].healthy && nodes[i].height == b
    ensures Best(nodes) == b
  {
    BestIsMaximum(nodes);
  }

  /** Marking keeps the best node, so it does not change the best height. */
  lemma MarkKeepsBest(nodes: seq<NodeState>, threshold: uint64)
    ensures Best(MarkLagging(nodes, threshold)) == Best(nodes)
  {
    BestIsMaximum(nodes);
    var r := MarkLagging(nodes, threshold);
    var b := Best(nodes);
    if b != 0 {
      var i :| 0 <= i < |nodes| && nodes[i].healthy && nodes[i].height == b;
      assert r[i] == nodes[i];
    }
    BestUnique(r, b);
  }

  /**
   Lag marking takes out exactly the healthy nodes more than `threshold` behind, keeps
   every best node, revives none, changes no height, and is idempotent.
   */
  lemma MarkLaggingExact(nodes: seq<NodeState>, threshold: uint64)
    ensures forall i :: 0 <= i < |nodes| ==>
      var r := MarkLagging(nodes, threshold);
      && r[i].height == nodes[i].height
      && (r[i].healthy <==> nodes[i].healthy && nodes[i].height + threshold >= Best(nodes))
      && (nodes[i].healthy && nodes[i].height == Best(nodes) ==> r[i].healthy)
    ensures MarkLagging(MarkLagging(nodes, threshold), threshold) == MarkLagging(nodes, threshold)
  {
    MarkKeepsBest(nodes, threshold);
  }

  /** At the end of a round the head is the best healthy height and no healthy node lags. */
  lemma RoundEnd(nodes: seq<NodeState>, probes: seq<Probe>, lag: uint64)
    requires |nodes| == |probes|
    ensures var r := MarkLagging(ProbedAll(nodes, probes), lag);
      && Best(r) == Best(ProbedAll(nodes, probes))
      && forall i :: 0 <= i < |r| && r[i].healthy ==> r[i].height + lag >= Best(r)
  {
    MarkKeepsBest(ProbedAll(nodes, probes), lag);
  }

  function AssessAll(replies: seq<ProbeReply>): (probes: seq<Probe>)
    ensures |probes| == |replies| && forall i :: 0 <= i < |replies| ==> probes[i] == Assess(replies[i])
  {
    seq(|replies|, i requires 0 <= i < |replies| => Assess(replies[i]))
  }

  /** The node answered with height `h` in the quantity encoding of the JSON-RPC interface. */
  predicate Reports(r: ProbeReply, h: uint64) {
    r == Answer(200, false, Some("0x" + HexDigits(h)))
  }

  /**
   A whole round from the wire: a node that reported its height ends up recorded at it (a
   reported 0 keeps the old record), and is routable exactly when it is within the lag
   threshold of the published head; so is a rate-limited node, at its old record; a node that
   did not answer, or answered otherwise, is not routable.
   */
  lemma RoundFromReplies(nodes: seq<NodeState>, replies: seq<ProbeReply>, lag: uint64, i: nat, h: uint64)
    requires |nodes| == |replies| && i < |nodes|
    ensures var r := MarkLagging(ProbedAll(nodes, AssessAll(replies)), lag);
      && (Reports(replies[i], h) ==>
            && r[i].height == (if h > 0 then h else nodes[i].height)
            && (r[i].healthy <==> r[i].height + lag >= Best(r)))
      && (replies[i].Answer? && replies[i].status == 429 ==>
            && r[i].height == nodes[i].height
            && (r[i].healthy <==> r[i].height + lag >= Best(r)))
      && (replies[i].Unreachable?
          || (replies[i].status != 200 && replies[i].status != 429)
          || (replies[i].status == 200 && (replies[i].rpcError || replies[i].result.None?)) ==>
            r[i] == NodeState(nodes[i].height, false))
  {
    BlockNumberRoundTrip(h);
    MarkKeepsBest(ProbedAll(nodes, AssessAll(replies)), lag);
  }

  /** Where a published head comes from: a parsed height, or a recorded one without a fresh height. */
  ghost predicate HeadSource(n: NodeState, r: ProbeReply, head: uint64) {
    && r.Answer?
    && (|| (r.status == 200 && !r.rpcError && r.result.Some? && ParseBlockNumber(r.result.value) == Some(head))
        || (n.height == head
            && (r.status == 429
                || (r.status == 200 && !r.rpcError && r.result.Some? && ParseBlockNumber(r.result.value) == Some(0)))))
  }

  /** The head published after a round is never invented: some routable node stands for it. */
  lemma HeadHasSource(nodes: seq<NodeState>, replies: seq<ProbeReply>, lag: uint64)
    requires |nodes| == |replies|
    ensures var r := MarkLagging(ProbedAll(nodes, AssessAll(replies)), lag);
      Best(r) == 0
      || exists i :: 0 <= i < |nodes| && r[i].healthy && r[i].height == Best(r) && HeadSource(nodes[i], replies[i], Best(r))
  {
    var r := MarkLagging(ProbedAll(nodes, AssessAll(replies)), lag);
    BestIsMaximum(r);
    if Best(r) != 0 {
      var i :| 0 <= i < |r| && r[i].healthy && r[i].height == Best(r);
      assert HeadSource(nodes[i], replies[i], Best(r));
    }
  }

  /** No healthy node is more than `lag` behind the head. */
  ghost predicate Settled(nodes: seq<NodeState>, head: uint64, lag: uint64) {
    forall i :: 0 <= i < |nodes| && nodes[i].healthy ==> nodes[i].height + lag >= head
  }

  /**
   With the lag threshold at most the finality depth, a block judged final is at or below
   the recorded height of every node that may be routed to.
   */
  lemma FinalIsServable(nodes: seq<NodeState>, head: uint64, lag: uint64, depth: uint64, block: uint64, i: nat)
    requires Settled(nodes, head, lag) && lag <= depth
    requires IsFinalized(head, depth, block)
    requires i < |nodes| && nodes[i].healthy
    ensures block <= nodes[i].height
  {
  }

  /** The threshold matters: a larger lag than depth admits a final block the node lacks. */
  lemma LagBeyondDepth(lag: uint64, depth: uint64)
    requires depth < lag
    ensures var nodes := [NodeState(0, true), NodeState(lag, true)];
      && MarkLagging(nodes, lag) == nodes
      && Best(nodes) == lag
      && IsFinalized(lag, depth, lag - depth)
      && lag - depth > nodes[0].height
  {
    var nodes := [NodeState(0, true), NodeState(lag, true)];
    BestUnique(nodes, lag) by {
      assert nodes[1].height == lag;
    }
  }
}
