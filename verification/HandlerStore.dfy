/**
 The handler's store as a trace of cache operations, so that the laws of the cache hold for
 it: a fetched result is served to later requests for the same call for as long as they say.
 */
module HandlerStore {
  import opened Common
  import opened LruSpec
  import opened Finality
  import opened HandlerRun
  import T = LruTraces

  function OpSeq(op: Option<T.Op>): seq<T.Op> {
    match op
    case None => []
    case Some(o) => [o]
  }

  /** The store operations of the first `t` actions. */
  function Ops(cfg: Config, clock: int, pool: nat, acts: seq<Action>, t: nat): seq<T.Op>
    requires t <= |acts|
  {
    if t == 0 then []
    else
      Ops(cfg, clock, pool, acts, t - 1) + OpSeq(StoreOp(cfg, Run(cfg, clock, pool, acts, t - 1), acts[t - 1]))
  }

  lemma {:induction false} TracePrefix(cap: int, ops: seq<T.Op>, more: seq<T.Op>, t: nat)
    requires t <= |ops|
    ensures T.Run(cap, ops + more, t) == T.Run(cap, ops, t)
  {
    if t > 0 {
      TracePrefix(cap, ops, more, t - 1);
    }
  }

  lemma PrefixRun(cap: int, part: seq<T.Op>, all: seq<T.Op>)
    requires part <= all
    ensures T.Run(cap, all, |part|) == T.Run(cap, part, |part|)
  {
    assert all == part + all[|part|..];
    TracePrefix(cap, part, all[|part|..], |part|);
  }

  /** `store` is what the cache makes of the trace. */
  ghost predicate IsTrace(store: seq<Entry>, cap: int, ops: seq<T.Op>) {
    store == T.Run(cap, ops, |ops|)
  }

  lemma TraceNext(store: seq<Entry>, cap: int, ops: seq<T.Op>, op: Option<T.Op>)
    requires IsTrace(store, cap, ops)
    ensures IsTrace(match op case None => store case Some(o) => T.Step(store, cap, o), cap, ops + OpSeq(op))
  {
    if op.Some? {
      TracePrefix(cap, ops, [op.value], |ops|);
    } else {
      assert ops + OpSeq(op) == ops;
    }
  }

  ghost predicate StoreIsTraceAt(cfg: Config, clock: int, pool: nat, acts: seq<Action>, t: nat)
    requires t <= |acts|
  {
    IsTrace(Run(cfg, clock, pool, acts, t).store, cfg.cap, Ops(cfg, clock, pool, acts, t))
  }

  /** The store of a run is what the cache makes of the trace of its operations. */
  lemma {:induction false} StoreIsTrace(cfg: Config, clock: int, pool: nat, acts: seq<Action>, t: nat)
    requires t <= |acts|
    ensures StoreIsTraceAt(cfg, clock, pool, acts, t)
  {
    if t > 0 {
      StoreIsTrace(cfg, clock, pool, acts, t - 1);
      StoreIsTraceNext(cfg, clock, pool, acts, t - 1);
    }
  }

  lemma StoreIsTraceNext(cfg: Config, clock: int, pool: nat, acts: seq<Action>, t: nat)
    requires t < |acts| && StoreIsTraceAt(cfg, clock, pool, acts, t)
    ensures StoreIsTraceAt(cfg, clock, pool, acts, t + 1)
  {
    var st := Run(cfg, clock, pool, acts, t);
    StoreStepIsOp(cfg, st, acts[t]);
    TraceNext(st.store, cfg.cap, Ops(cfg, clock, pool, acts, t), StoreOp(cfg, st, acts[t]));
  }

  lemma {:induction false} OpsGrow(cfg: Config, clock: int, pool: nat, acts: seq<Action>, t: nat, u: nat)
    requires t <= u <= |acts|
    ensures Ops(cfg, clock, pool, acts, t) <= Ops(cfg, clock, pool, acts, u)
    decreases u
  {
    if t < u {
      OpsGrow(cfg, clock, pool, acts, t, u - 1);
    }
  }

  /** The store after the first `t` actions, as a point of a longer trace. */
  lemma StoreInTrace(cfg: Config, clock: int, pool: nat, acts: seq<Action>, t: nat, u: nat)
    requires t <= u <= |acts|
    ensures var part, all := Ops(cfg, clock, pool, acts, t), Ops(cfg, clock, pool, acts, u);
      part <= all && Run(cfg, clock, pool, acts, t).store == T.Run(cfg.cap, all, |part|)
  {
    OpsGrow(cfg, clock, pool, acts, t, u);
    StoreIsTrace(cfg, clock, pool, acts, t);
    PrefixRun(cfg.cap, Ops(cfg, clock, pool, acts, t), Ops(cfg, clock, pool, acts, u));
  }

  /** The operation of action `t` is `op`. */
  ghost predicate Performs(cfg: Config, clock: int, pool: nat, acts: seq<Action>, t: nat, op: T.Op)
    requires t < |acts|
  {
    StoreOp(cfg, Run(cfg, clock, pool, acts, t), acts[t]) == Some(op)
  }

  /** Every operation between two points of a run is that of an action between them. */
  lemma {:induction false} OpIsPerformed(cfg: Config, clock: int, pool: nat, acts: seq<Action>, t: nat, u: nat, m: nat)
    returns (a: nat)
    requires t <= u <= |acts|
    requires |Ops(cfg, clock, pool, acts, t)| <= m < |Ops(cfg, clock, pool, acts, u)|
    ensures t <= a < u && Performs(cfg, clock, pool, acts, a, Ops(cfg, clock, pool, acts, u)[m])
    decreases u
  {
    if t == u || m == |Ops(cfg, clock, pool, acts, u - 1)| {
      a := u - 1;
    } else {
      a := OpIsPerformed(cfg, clock, pool, acts, t, u - 1, m);
    }
  }

  lemma {:induction false} ClockGoesOn(cfg: Config, clock: int, pool: nat, acts: seq<Action>, t: nat, u: nat)
    requires t <= u <= |acts|
    ensures Run(cfg, clock, pool, acts, t).clock <= Run(cfg, clock, pool, acts, u).clock
    decreases u
  {
    if t < u {
      ClockGoesOn(cfg, clock, pool, acts, t, u - 1);
    }
  }

  /** Operations read the clock no later than the run does, and never delete. */
  lemma OpReading(cfg: Config, st: State, a: Action)
    ensures var op := StoreOp(cfg, st, a);
      op.Some? ==> !op.value.OpDelete? && (op.value.OpGet? || op.value.OpSweep? ==> op.value.now <= st.clock)
  {
  }

  /** Action `t` writes the entry of key `k`. */
  ghost predicate WritesKey(cfg: Config, clock: int, pool: nat, acts: seq<Action>, t: nat, k: string)
    requires t < |acts|
  {
    var op := StoreOp(cfg, Run(cfg, clock, pool, acts, t), acts[t]);
    op.Some? && op.value.OpSet? && op.value.key == k
  }

  ghost predicate NotRewritten(cfg: Config, clock: int, pool: nat, acts: seq<Action>, t: nat, u: nat, k: string)
    requires t <= u <= |acts|
  {
    forall a :: t <= a < u ==> !WritesKey(cfg, clock, pool, acts, a, k)
  }

  /** An entry not yet expired and not written again is undisturbed. */
  lemma EntryUndisturbed(cfg: Config, clock: int, pool: nat, acts: seq<Action>, t: nat, u: nat, e: Entry)
    requires t <= u < |acts| && Live(e, Run(cfg, clock, pool, acts, u).clock)
    requires NotRewritten(cfg, clock, pool, acts, t, u, e.key)
    ensures var part, upto, all :=
        Ops(cfg, clock, pool, acts, t), Ops(cfg, clock, pool, acts, u), Ops(cfg, clock, pool, acts, u + 1);
      |part| <= |upto| <= |all| && T.Undisturbed(all, e, |part|, |upto|)
  {
    var part, upto, all :=
      Ops(cfg, clock, pool, acts, t), Ops(cfg, clock, pool, acts, u), Ops(cfg, clock, pool, acts, u + 1);
    OpsGrow(cfg, clock, pool, acts, t, u);
    OpsGrow(cfg, clock, pool, acts, u, u + 1);
    forall m | |part| <= m < |upto| ensures T.UndisturbedAt(all, e, m) {
      assert all[m] == upto[m];
      var a := OpIsPerformed(cfg, clock, pool, acts, t, u, m);
      assert !WritesKey(cfg, clock, pool, acts, a, e.key);
      OpReading(cfg, Run(cfg, clock, pool, acts, a), acts[a]);
      ClockGoesOn(cfg, clock, pool, acts, a, u);
    }
  }

  /** What a result leaves in the store. */
  function ResultEntry(cfg: Config, p: Proc, v: string, r: int): Entry {
    Stored(Key(p), v, Ttl(cfg, p.layer), r)
  }

  /** The last of the first `t` actions writes the result `v` that process `l`, here `p`, fetched, with clock reading `r`. */
  ghost predicate WritesResult(cfg: Config, clock: int, pool: nat, acts: seq<Action>, t: nat,
                               l: nat, p: Proc, r: int, v: string)
    requires t <= |acts|
  {
    && t > 0 && acts[t - 1] == WriteStore(l, r)
    && var st := Run(cfg, clock, pool, acts, t - 1);
       Enabled(st, acts[t - 1]) && st.procs[l] == p && p.phase.outcome == Result(v)
  }

  lemma WrittenInFront(cfg: Config, st: State, l: nat, r: int, v: string)
    requires Enabled(st, WriteStore(l, r)) && st.procs[l].phase.outcome == Result(v)
    ensures var store := Step(cfg, st, WriteStore(l, r)).store;
      store != [] && store[0] == ResultEntry(cfg, st.procs[l], v, r)
  {
    assert Step(cfg, st, WriteStore(l, r)).store == StoreAfter(cfg, st.store, st.procs[l], Result(v), r);
  }

  lemma ResultIsInFront(cfg: Config, clock: int, pool: nat, acts: seq<Action>, t: nat, u: nat,
                        l: nat, p: Proc, r: int, v: string)
    requires t <= u <= |acts| && WritesResult(cfg, clock, pool, acts, t, l, p, r, v)
    ensures InFrontAt(cfg, clock, pool, acts, t, u, ResultEntry(cfg, p, v, r))
  {
    StoreInTrace(cfg, clock, pool, acts, t, u);
    WrittenInFront(cfg, Run(cfg, clock, pool, acts, t - 1), l, r, v);
  }

  /** Fewer than the cap's number of other keys were written or hit between two actions. */
  ghost predicate RoomBetween(cfg: Config, clock: int, pool: nat, acts: seq<Action>, t: nat, u: nat, k: string)
    requires t <= u < |acts|
  {
    var from, m, all :=
      |Ops(cfg, clock, pool, acts, t)|, |Ops(cfg, clock, pool, acts, u)|, Ops(cfg, clock, pool, acts, u + 1);
    from <= m <= |all| && T.RoomSince(cfg.cap, all, from, m, k)
  }

  ghost predicate ClockAt(cfg: Config, clock: int, pool: nat, acts: seq<Action>, t: nat, now: int)
    requires t <= |acts|
  {
    Run(cfg, clock, pool, acts, t).clock == now
  }

  /** At action `j`, at time `now`, process `pid`, here `q`, looks its key up. */
  ghost predicate ChecksAt(cfg: Config, clock: int, pool: nat, acts: seq<Action>, j: nat, pid: nat, q: Proc, now: int)
    requires j < |acts|
  {
    var st := Run(cfg, clock, pool, acts, j);
    acts[j] == CheckCache(pid) && Enabled(st, acts[j]) && st.procs[pid] == q && st.clock == now
  }

  /** After `t` actions process `pid` has been sent `reply` at time `at`. */
  ghost predicate RepliedAt(cfg: Config, clock: int, pool: nat, acts: seq<Action>, t: nat, pid: nat, reply: Reply, at: int)
    requires t <= |acts|
  {
    var st := Run(cfg, clock, pool, acts, t);
    pid in st.procs && st.procs[pid].phase == Replied(reply, at)
  }

  /** A lookup of the run is a lookup of the trace. */
  lemma CheckIsLookup(cfg: Config, clock: int, pool: nat, acts: seq<Action>, j: nat, pid: nat, q: Proc, now: int)
    requires j < |acts| && ChecksAt(cfg, clock, pool, acts, j, pid, q, now)
    ensures LooksUpAt(cfg, clock, pool, acts, j, Key(q), now) && ClockAt(cfg, clock, pool, acts, j, now)
  {
    StoreInTrace(cfg, clock, pool, acts, j, j + 1);
  }

  lemma CheckReplies(cfg: Config, clock: int, pool: nat, acts: seq<Action>, j: nat, pid: nat, q: Proc, now: int, v: string)
    requires j < |acts| && ChecksAt(cfg, clock, pool, acts, j, pid, q, now)
    requires FindsAt(cfg, clock, pool, acts, j, v)
    ensures RepliedAt(cfg, clock, pool, acts, j + 1, pid, CacheHit(q.req.id, v), now)
  {
    StoreInTrace(cfg, clock, pool, acts, j, j + 1);
    CheckIsLookup(cfg, clock, pool, acts, j, pid, q, now);
    assert Get(Run(cfg, clock, pool, acts, j).store, Key(q), now).1 == Some(v);
  }

  /** The operation of action `u` looks up `k`, and finds `v`. */
  ghost predicate FindsAt(cfg: Config, clock: int, pool: nat, acts: seq<Action>, u: nat, v: string)
    requires u < |acts|
  {
    var m, all := |Ops(cfg, clock, pool, acts, u)|, Ops(cfg, clock, pool, acts, u + 1);
    m < |all| && all[m].OpGet? && T.Answer(cfg.cap, all, m) == Some(v)
  }

  ghost predicate LooksUpAt(cfg: Config, clock: int, pool: nat, acts: seq<Action>, u: nat, k: string, now: int)
    requires u < |acts|
  {
    var m, all := |Ops(cfg, clock, pool, acts, u)|, Ops(cfg, clock, pool, acts, u + 1);
    m < |all| && all[m] == T.OpGet(k, now)
  }

  /** The entry was in front after the first `t` actions. */
  ghost predicate InFrontAt(cfg: Config, clock: int, pool: nat, acts: seq<Action>, t: nat, u: nat, e: Entry)
    requires t <= u <= |acts|
  {
    var part, all := Ops(cfg, clock, pool, acts, t), Ops(cfg, clock, pool, acts, u);
    |part| <= |all| && T.FrontAt(cfg.cap, all, |part|, e)
  }

  /** The entry is still there when it is looked up. */
  lemma EntryIsFound(cfg: Config, clock: int, pool: nat, acts: seq<Action>, t: nat, u: nat, e: Entry, now: int)
    requires t <= u < |acts| && InFrontAt(cfg, clock, pool, acts, t, u + 1, e)
    requires LooksUpAt(cfg, clock, pool, acts, u, e.key, now)
    requires ClockAt(cfg, clock, pool, acts, u, now) && Live(e, now)
    requires NotRewritten(cfg, clock, pool, acts, t, u, e.key) && RoomBetween(cfg, clock, pool, acts, t, u, e.key)
    ensures FindsAt(cfg, clock, pool, acts, u, e.value)
  {
    EntryUndisturbed(cfg, clock, pool, acts, t, u, e);
    FoundInTrace(cfg.cap, Ops(cfg, clock, pool, acts, u + 1),
                 |Ops(cfg, clock, pool, acts, t)|, |Ops(cfg, clock, pool, acts, u)|, e, now);
  }

  lemma FoundInTrace(cap: int, all: seq<T.Op>, from: nat, m: nat, e: Entry, now: int)
    requires from <= m < |all| && all[m] == T.OpGet(e.key, now) && Live(e, now)
    requires T.FrontAt(cap, all, from, e) && T.Undisturbed(all, e, from, m) && T.RoomSince(cap, all, from, m, e.key)
    ensures T.Answer(cap, all, m) == Some(e.value)
  {
    T.FirstIsRetained(cap, all, from, m, e);
    assert T.Hits(cap, all, m, e);
  }

  /** An entry in front after `t` actions answers the process that looks it up at action `u`. */
  lemma EntryServes(cfg: Config, clock: int, pool: nat, acts: seq<Action>, t: nat, u: nat, e: Entry,
                    pid: nat, q: Proc, now: int)
    requires t <= u < |acts| && InFrontAt(cfg, clock, pool, acts, t, u + 1, e)
    requires ChecksAt(cfg, clock, pool, acts, u, pid, q, now) && Key(q) == e.key && Live(e, now)
    requires NotRewritten(cfg, clock, pool, acts, t, u, e.key) && RoomBetween(cfg, clock, pool, acts, t, u, e.key)
    ensures RepliedAt(cfg, clock, pool, acts, u + 1, pid, CacheHit(q.req.id, e.value), now)
  {
    CheckIsLookup(cfg, clock, pool, acts, u, pid, q, now);
    EntryIsFound(cfg, clock, pool, acts, t, u, e, now);
    CheckReplies(cfg, clock, pool, acts, u, pid, q, now, e.value);
  }

  /**
   Across requests and whatever runs in between: a result written by action `t - 1` is served
   from the store to a request for the same call that looks it up at action `u`, under that
   request's own id, unless it was written again or has expired, or as many other keys as the
   store holds were written or hit in between.
   */
  lemma ResultServesLaterRequests(cfg: Config, clock: int, pool: nat, acts: seq<Action>, t: nat, u: nat,
                                  l: nat, p: Proc, r: int, v: string, pid: nat, q: Proc, now: int)
    requires t <= u < |acts| && WritesResult(cfg, clock, pool, acts, t, l, p, r, v)
    requires ChecksAt(cfg, clock, pool, acts, u, pid, q, now) && SameCall(q.req, p.req)
    requires p.layer == Mutable && cfg.mutableTTL > 0 ==> now <= r + cfg.mutableTTL
    requires NotRewritten(cfg, clock, pool, acts, t, u, Key(p)) && RoomBetween(cfg, clock, pool, acts, t, u, Key(p))
    ensures RepliedAt(cfg, clock, pool, acts, u + 1, pid, CacheHit(q.req.id, v), now)
  {
    ResultIsInFront(cfg, clock, pool, acts, t, u + 1, l, p, r, v);
    EntryServes(cfg, clock, pool, acts, t, u, ResultEntry(cfg, p, v, r), pid, q, now);
  }
}
