/**
 `Next` with concurrent callers: the counter increment is the only shared step, so callers
 interleave draw by draw. Each call is a caller of its own; node health is fixed.
 */
module NextRace {
  import opened Common
  import opened RoundRobin

  /** A call under way, with the number of nodes it has inspected, or its answer. */
  datatype Caller = Scanning(tries: nat) | Done(node: Option<nat>)

  /** One atomic increment, and the slot its caller then inspects. */
  datatype Draw = Draw(pid: nat, slot: nat)

  /** `draws` records every increment in order. */
  datatype State = State(counter: uint64, callers: map<nat, Caller>, draws: seq<Draw>)

  function CallerOf(st: State, pid: nat): Caller {
    if pid in st.callers then st.callers[pid] else Scanning(0)
  }

  /** What a caller does with the slot it drew. */
  function Inspect(ok: seq<bool>, tries: nat, slot: nat): Caller
    requires slot < |ok|
  {
    if ok[slot] then Done(Some(slot))
    else if tries + 1 < |ok| then Scanning(tries + 1)
    else Done(None)
  }

  /** One turn of the loop of caller `pid`; a finished caller does nothing. */
  function Step(ok: seq<bool>, st: State, pid: nat): State
    requires ok != []
  {
    match CallerOf(st, pid)
    case Done(_) => st
    case Scanning(tries) =>
      var slot := Slot(st.counter, |ok|);
      State(Inc(st.counter), st.callers[pid := Inspect(ok, tries, slot)], st.draws + [Draw(pid, slot)])
  }

  /** The state after the first `t` turns of a schedule, from counter `c`. */
  function Run(ok: seq<bool>, c: uint64, schedule: seq<nat>, t: nat): State
    requires ok != [] && t <= |schedule|
  {
    if t == 0 then State(c, map[], []) else Step(ok, Run(ok, c, schedule, t - 1), schedule[t - 1])
  }

  /** The schedule of a caller that nobody interrupts. */
  function Alone(n: nat): (schedule: seq<nat>)
    ensures |schedule| == n && forall i :: 0 <= i < n ==> schedule[i] == 0
  {
    seq(n, i => 0)
  }

  /** After `t` turns alone the caller is `t` nodes into the scan of `Next`, or has its answer. */
  lemma {:induction false} SoloScan(ok: seq<bool>, c: uint64, t: nat)
    requires ok != [] && t <= |ok|
    ensures var st := Run(ok, c, Alone(|ok|), t);
      || (CallerOf(st, 0) == Scanning(t) && t < |ok| && NextFrom(ok, st.counter, |ok| - t) == Next(ok, c))
      || (CallerOf(st, 0).Done? && Next(ok, c) == (CallerOf(st, 0).node, st.counter))
  {
    if t > 0 {
      SoloScan(ok, c, t - 1);
    }
  }

  /** Uninterrupted, a call answers as `Next` does and leaves the same counter. */
  lemma SoloCallIsNext(ok: seq<bool>, c: uint64)
    requires ok != []
    ensures var st := Run(ok, c, Alone(|ok|), |ok|);
      CallerOf(st, 0) == Done(Next(ok, c).0) && st.counter == Next(ok, c).1
  {
    SoloScan(ok, c, |ok|);
  }

  /** The draws go round the pool, and a permitted draw is its caller's answer. */
  ghost predicate Inv(ok: seq<bool>, c: uint64, st: State)
    requires ok != []
  {
    && st.counter == Wrap(c + |st.draws|)
    && (forall k :: 0 <= k < |st.draws| ==> st.draws[k].slot == Slot(Wrap(c + k), |ok|))
    && (forall k :: 0 <= k < |st.draws| && ok[st.draws[k].slot] ==>
          CallerOf(st, st.draws[k].pid) == Done(Some(st.draws[k].slot)))
  }

  lemma StepKeepsInv(ok: seq<bool>, c: uint64, st: State, pid: nat)
    requires ok != [] && Inv(ok, c, st)
    ensures Inv(ok, c, Step(ok, st, pid))
  {
    WrapInc(c + |st.draws|);
  }

  lemma {:induction false} ReachableInv(ok: seq<bool>, c: uint64, schedule: seq<nat>, t: nat)
    requires ok != [] && t <= |schedule|
    ensures Inv(ok, c, Run(ok, c, schedule, t))
  {
    if t == 0 {
      SlotSmall(c, TWO64);
    } else {
      ReachableInv(ok, c, schedule, t - 1);
      StepKeepsInv(ok, c, Run(ok, c, schedule, t - 1), schedule[t - 1]);
    }
  }

  /**
   Whoever makes them, any `n` consecutive draws inspect every node exactly once, and hand
   each permitted node to exactly one caller.
   */
  lemma TurnServesEachOnce(ok: seq<bool>, c: uint64, schedule: seq<nat>, t: nat, lo: nat, j: nat) returns (k: nat)
    requires ok != [] && t <= |schedule| && j < |ok|
    requires lo + |ok| <= |Run(ok, c, schedule, t).draws| && Intact(Wrap(c + lo), |ok|, |ok|)
    ensures var st := Run(ok, c, schedule, t);
      && lo <= k < lo + |ok| && st.draws[k].slot == j
      && (forall i :: lo <= i < lo + |ok| && st.draws[i].slot == j ==> i == k)
      && (ok[j] ==> CallerOf(st, st.draws[k].pid) == Done(Some(j)))
  {
    var n := |ok|;
    ReachableInv(ok, c, schedule, t);
    var st := Run(ok, c, schedule, t);
    var d := TurnCovers(n, Wrap(c + lo), j);
    var ds := Draws(Wrap(c + lo), n, n);
    forall i | lo <= i < lo + n ensures st.draws[i].slot == ds[i - lo] {
      WrapPlus(c + lo, i - lo);
    }
    k := lo + d;
    forall i | lo <= i < lo + n && st.draws[i].slot == j ensures i == k {
      assert ds[i - lo] == j;
    }
  }

  /** So a caller that comes away with nil although a node is permitted was interrupted by another. */
  lemma NilMeansInterrupted(ok: seq<bool>, c: uint64, schedule: seq<nat>, t: nat, lo: nat, pid: nat, j: nat)
    requires ok != [] && t <= |schedule| && j < |ok| && ok[j]
    requires lo + |ok| <= |Run(ok, c, schedule, t).draws| && Intact(Wrap(c + lo), |ok|, |ok|)
    requires CallerOf(Run(ok, c, schedule, t), pid) == Done(None)
    ensures exists k :: lo <= k < lo + |ok| && Run(ok, c, schedule, t).draws[k].pid != pid
  {
    var k := TurnServesEachOnce(ok, c, schedule, t, lo, j);
    assert Run(ok, c, schedule, t).draws[k].pid != pid;
  }

  /**
   That does happen: of two nodes only the first is healthy; caller 0 draws
   the second, caller 1 takes the first, caller 0 draws the second again and gives up.
   */
  lemma InterruptedMisses()
    ensures var ok, schedule := [true, false], [0, 1, 0];
      var st := Run(ok, 1, schedule, 3);
      CallerOf(st, 0) == Done(None) && CallerOf(st, 1) == Done(Some(0))
  {
    var ok, schedule := [true, false], [0, 1, 0];
    SlotIsMod(1, 2);
    SlotIsMod(2, 2);
    SlotIsMod(3, 2);
    var s1 := Run(ok, 1, schedule, 1);
    assert s1 == State(2, map[0 := Scanning(1)], [Draw(0, 1)]);
    var s2 := Run(ok, 1, schedule, 2);
    assert s2 == State(3, map[0 := Scanning(1), 1 := Done(Some(0))], [Draw(0, 1), Draw(1, 0)]);
  }

  // ---- Exactly when nil can be trusted ----

  /** The state at the end of a schedule. */
  function End(ok: seq<bool>, c: uint64, schedule: seq<nat>): State
    requires ok != []
  {
    Run(ok, c, schedule, |schedule|)
  }

  lemma {:induction false} RunPrefix(ok: seq<bool>, c: uint64, schedule: seq<nat>, pid: nat, t: nat)
    requires ok != [] && t <= |schedule|
    ensures Run(ok, c, schedule + [pid], t) == Run(ok, c, schedule, t)
  {
    if t > 0 {
      RunPrefix(ok, c, schedule, pid, t - 1);
    }
  }

  lemma EndNext(ok: seq<bool>, c: uint64, schedule: seq<nat>, pid: nat)
    requires ok != []
    ensures End(ok, c, schedule + [pid]) == Step(ok, End(ok, c, schedule), pid)
  {
    RunPrefix(ok, c, schedule, pid, |schedule|);
  }

  /** No caller from `bound` on has made a draw. */
  ghost predicate Unused(st: State, bound: nat) {
    forall p :: p in st.callers ==> p < bound
  }

  /** New callers can move the counter on by any amount without disturbing caller 0. */
  lemma {:induction false} Advance(ok: seq<bool>, c: uint64, schedule: seq<nat>, bound: nat, m: nat)
    returns (longer: seq<nat>, bound': nat)
    requires ok != [] && bound > 0 && Unused(End(ok, c, schedule), bound)
    ensures bound' > 0 && Unused(End(ok, c, longer), bound')
    ensures End(ok, c, longer).counter == Wrap(End(ok, c, schedule).counter + m)
    ensures CallerOf(End(ok, c, longer), 0) == CallerOf(End(ok, c, schedule), 0)
    decreases m
  {
    var st := End(ok, c, schedule);
    if m == 0 {
      longer, bound' := schedule, bound;
      SlotSmall(st.counter, TWO64);
    } else {
      longer, bound' := Advance(ok, c, schedule, bound, m - 1);
      WrapInc(st.counter + m - 1);
      EndNext(ok, c, longer, bound');
      longer, bound' := longer + [bound'], bound' + 1;
    }
  }

  /** While others take the permitted nodes, caller 0 can be made to draw slot `f` every time. */
  lemma {:induction false} Starve(ok: seq<bool>, c: uint64, f: nat, k: nat) returns (schedule: seq<nat>, bound: nat)
    requires f < |ok| <= TWO64 && !ok[f] && k <= |ok|
    ensures bound > 0 && Unused(End(ok, c, schedule), bound)
    ensures CallerOf(End(ok, c, schedule), 0) == if k < |ok| then Scanning(k) else Done(None)
    decreases k
  {
    if k == 0 {
      schedule, bound := [], 1;
    } else {
      schedule, bound := Starve(ok, c, f, k - 1);
      var at := End(ok, c, schedule).counter;
      var gap := if at <= f then f - at else f - at + TWO64;
      SlotSmall(f, TWO64);
      schedule, bound := Advance(ok, c, schedule, bound, gap);
      SlotSmall(f, |ok|);
      EndNext(ok, c, schedule, 0);
      schedule := schedule + [0];
    }
  }

  /** When every node is permitted, no draw is in vain. */
  lemma {:induction false} NeverNil(ok: seq<bool>, c: uint64, schedule: seq<nat>, t: nat, pid: nat)
    requires ok != [] && t <= |schedule| && forall j :: 0 <= j < |ok| ==> ok[j]
    ensures CallerOf(Run(ok, c, schedule, t), pid) != Done(None)
  {
    if t > 0 {
      NeverNil(ok, c, schedule, t - 1, pid);
    }
  }

  /** Under every interleaving from counter `c`, nil means that no node is permitted. */
  ghost predicate NilIsHonest(ok: seq<bool>, c: uint64)
    requires ok != []
  {
    forall schedule: seq<nat>, pid: nat :: CallerOf(End(ok, c, schedule), pid) == Done(None) ==>
      forall j :: 0 <= j < |ok| ==> !ok[j]
  }

  /**
   The exact condition, from any counter: among concurrent callers nil can be trusted if and
   only if the nodes are all permitted or all not.
   */
  lemma NilIsHonestIff(ok: seq<bool>, c: uint64)
    requires 0 < |ok| <= TWO64
    ensures NilIsHonest(ok, c) <==>
      (forall j :: 0 <= j < |ok| ==> ok[j]) || (forall j :: 0 <= j < |ok| ==> !ok[j])
  {
    if forall j :: 0 <= j < |ok| ==> ok[j] {
      forall schedule: seq<nat>, pid: nat ensures CallerOf(End(ok, c, schedule), pid) != Done(None) {
        NeverNil(ok, c, schedule, |schedule|, pid);
      }
    } else if j :| 0 <= j < |ok| && ok[j] {
      var f: nat :| f < |ok| && !ok[f];
      var schedule, bound := Starve(ok, c, f, |ok|);
      assert CallerOf(End(ok, c, schedule), 0) == Done(None);
      assert !NilIsHonest(ok, c);
    }
  }
}
