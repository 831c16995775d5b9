/**
 The loops over the pool among other callers: between any two draws of a loop, others may
 draw the counter any number of times. Node health and capabilities are fixed.
 */
module LoopRace {
  import opened Common
  import opened RoundRobin

  // ---- The retry loops over NextWithCapability ----

  /** The answers of consecutive calls when others draw `gaps[i]` times before the i-th. */
  function PickCallsAmong(ok: seq<bool>, c: uint64, gaps: seq<nat>): (rs: seq<Option<nat>>)
    ensures |rs| == |gaps|
    decreases |gaps|
  {
    if gaps == [] then []
    else
      var p := Wrap(c + gaps[0]);
      [Pick(ok, p)] + PickCallsAmong(ok, Inc(p), gaps[1..])
  }

  function Zeros(m: nat): (gaps: seq<nat>)
    ensures |gaps| == m
  {
    if m == 0 then [] else [0] + Zeros(m - 1)
  }

  /** With nobody else about, these are the calls of a single caller. */
  lemma {:induction false} PickCallsAlone(ok: seq<bool>, c: uint64, m: nat)
    ensures PickCallsAmong(ok, c, Zeros(m)) == PickCalls(ok, c, m)
    decreases m
  {
    if m > 0 {
      SlotSmall(c, TWO64);
      assert Zeros(m)[1..] == Zeros(m - 1);
      PickCallsAlone(ok, Inc(c), m - 1);
    }
  }

  /** How many draws take the counter from `c` to `p`. */
  function GapTo(c: uint64, p: uint64): (g: nat)
    ensures Wrap(c + g) == p
  {
    SlotSmall(p, TWO64);
    if c <= p then p - c else p - c + TWO64
  }

  /** Gaps after which each of `m` draws finds the counter at `p`. */
  function GapsTo(c: uint64, p: uint64, m: nat): (gaps: seq<nat>)
    ensures |gaps| == m
    decreases m
  {
    if m == 0 then [] else [GapTo(c, p)] + GapsTo(Inc(p), p, m - 1)
  }

  lemma {:induction false} PickCallsSteered(ok: seq<bool>, c: uint64, p: uint64, m: nat)
    ensures forall k :: 0 <= k < m ==> PickCallsAmong(ok, c, GapsTo(c, p, m))[k] == Pick(ok, p)
    decreases m
  {
    if m > 0 {
      assert GapsTo(c, p, m)[1..] == GapsTo(Inc(p), p, m - 1);
      PickCallsSteered(ok, Inc(p), p, m - 1);
    }
  }

  /** The counter from which a scan of `n` slots passes over `j`, for `j` not below 2^64 mod `n`. */
  function BlindSpot(n: nat, j: nat): uint64
    requires j < n < TWO64
  {
    TWO64 - (n - j)
  }

  lemma BlindTo(n: nat, j: nat, i: nat)
    requires j < n < TWO64 && 0 < Slot(TWO64, n) <= j && i < n
    ensures Slot(Wrap(BlindSpot(n, j) + i), n) != j
  {
    var a, r := n - j, Slot(TWO64, n);
    if i < a {
      var d := a - i;
      SlotSmall(TWO64 - d, TWO64);
      if d <= r {
        SlotBefore(TWO64, d, n);
      } else {
        SlotBeforeTurn(TWO64, d, n);
      }
    } else {
      SlotSmall(i - a, TWO64);
      assert Wrap(TWO64 + (i - a)) == i - a;
      SlotSmall(i - a, n);
    }
  }

  /** `j` is the only permitted node. */
  ghost predicate Sole(ok: seq<bool>, j: nat) {
    j < |ok| && ok[j] && forall i: nat :: i < |ok| && ok[i] ==> i == j
  }

  lemma {:induction false} PickBlind(ok: seq<bool>, j: nat, i: nat)
    requires Sole(ok, j) && |ok| < TWO64 && 0 < Slot(TWO64, |ok|) <= j && i <= |ok|
    ensures PickFrom(ok, BlindSpot(|ok|, j), i) == None
    decreases |ok| - i
  {
    if i < |ok| {
      BlindTo(|ok|, j, i);
      PickBlind(ok, j, i + 1);
    }
  }

  /** A slot below 2^64 mod `n` is shown within any `n` consecutive counter values. */
  lemma LowSlotShown(c: uint64, n: nat, j: nat) returns (i: nat)
    requires j < n < TWO64 && (Slot(TWO64, n) == 0 || j < Slot(TWO64, n))
    ensures i < n && Slot(Wrap(c + i), n) == j
  {
    var a, r := TWO64 - c, Slot(TWO64, n);
    if Intact(c, n, n) {
      i := TurnCovers(n, c, j);
    } else if a + j < n {
      i := a + j;
      SlotSmall(j, TWO64);
      assert Wrap(c + i) == j;
      SlotSmall(j, n);
    } else {
      i := a - (r - j);
      SlotSmall(c + i, TWO64);
      SlotBefore(TWO64, r - j, n);
    }
  }

  lemma {:induction false} PickSole(ok: seq<bool>, c: uint64, j: nat, i: nat, k: nat)
    requires Sole(ok, j) && i <= k < |ok| && Slot(Wrap(c + k), |ok|) == j
    ensures PickFrom(ok, c, i) == Some(j)
    decreases |ok| - i
  {
    if !ok[Slot(Wrap(c + i), |ok|)] {
      PickSole(ok, c, j, i + 1, k);
    }
  }

  /** A retry loop tries every permitted node, whatever others draw in between. */
  ghost predicate RetriesAll(ok: seq<bool>, c: uint64) {
    forall gaps: seq<nat> :: |gaps| == |ok| ==> ReachesAll(PickCallsAmong(ok, c, gaps), ok)
  }

  /** Every answer is the same, so every other permitted node is missed. */
  lemma OneAnswerMisses(rs: seq<Option<nat>>, ok: seq<bool>, r: Option<nat>, j: nat)
    requires j < |ok| && ok[j] && r != Some(j) && forall k :: 0 <= k < |rs| ==> rs[k] == r
    ensures !ReachesAll(rs, ok)
  {
    assert forall k :: 0 <= k < |rs| ==> rs[k] != Some(j);
  }

  /** If others can steer every call to an answer other than `j`, the loop may miss `j`. */
  lemma SteeredMisses(ok: seq<bool>, c: uint64, p: uint64, j: nat)
    requires j < |ok| && ok[j] && Pick(ok, p) != Some(j)
    ensures !RetriesAll(ok, c)
  {
    var gaps := GapsTo(c, p, |ok|);
    PickCallsSteered(ok, c, p, |ok|);
    OneAnswerMisses(PickCallsAmong(ok, c, gaps), ok, Pick(ok, p), j);
  }

  lemma SoleIsRetried(ok: seq<bool>, c: uint64, j: nat)
    requires Sole(ok, j) && |ok| < TWO64 && (Slot(TWO64, |ok|) == 0 || j < Slot(TWO64, |ok|))
    ensures RetriesAll(ok, c)
  {
    forall gaps: seq<nat> | |gaps| == |ok| ensures ReachesAll(PickCallsAmong(ok, c, gaps), ok) {
      var p := Wrap(c + gaps[0]);
      var k := LowSlotShown(p, |ok|, j);
      PickSole(ok, p, j, 0, k);
      var rs := PickCallsAmong(ok, c, gaps);
      assert rs[0] == Some(j) && None !in rs[..0];
    }
  }

  /**
   The exact condition: among other callers a retry loop is sure to try every permitted node
   if and only if there is at most one, and that one lies below 2^64 mod `n` or `n` divides 2^64.
   */
  lemma RetriesAllIff(ok: seq<bool>, c: uint64)
    requires 0 < |ok| < TWO64
    ensures RetriesAll(ok, c) <==>
      forall j: nat :: j < |ok| && ok[j] ==> Sole(ok, j) && (Slot(TWO64, |ok|) == 0 || j < Slot(TWO64, |ok|))
  {
    if j: nat :| j < |ok| && ok[j] && !(Sole(ok, j) && (Slot(TWO64, |ok|) == 0 || j < Slot(TWO64, |ok|))) {
      if Sole(ok, j) {
        PickBlind(ok, j, 0);
        SteeredMisses(ok, c, BlindSpot(|ok|, j), j);
      } else {
        var i: nat :| i < |ok| && ok[i] && i != j;
        SlotSmall(i, TWO64);
        SlotSmall(i, |ok|);
        SteeredMisses(ok, c, i, j);
      }
    } else if j: nat :| j < |ok| && ok[j] {
      SoleIsRetried(ok, c, j);
    }
  }

  // ---- The dialling loop over Next ----

  /** One call of `Next` when others draw `gaps[i]` times before its i-th draw. */
  function NextAmong(ok: seq<bool>, c: uint64, gaps: seq<nat>): (Option<nat>, uint64)
    requires ok != []
    decreases |gaps|
  {
    if gaps == [] then (None, c)
    else
      var p := Wrap(c + gaps[0]);
      if ok[Slot(p, |ok|)] then (Some(Slot(p, |ok|)), Inc(p)) else NextAmong(ok, Inc(p), gaps[1..])
  }

  /** With nobody else about, this is a call of `Next`. */
  lemma {:induction false} NextAlone(ok: seq<bool>, c: uint64, m: nat)
    requires ok != []
    ensures NextAmong(ok, c, Zeros(m)) == NextFrom(ok, c, m)
    decreases m
  {
    if m > 0 {
      SlotSmall(c, TWO64);
      assert Zeros(m)[1..] == Zeros(m - 1);
      NextAlone(ok, Inc(c), m - 1);
    }
  }

  /** The answers of consecutive calls, `gaps[i]` being the gaps of the i-th. */
  function DialsAmong(ok: seq<bool>, c: uint64, gaps: seq<seq<nat>>): (rs: seq<Option<nat>>)
    requires ok != []
    ensures |rs| == |gaps|
    decreases |gaps|
  {
    if gaps == [] then []
    else
      var (r, p) := NextAmong(ok, c, gaps[0]);
      [r] + DialsAmong(ok, p, gaps[1..])
  }

  /** One gap for each draw a loop over `n` nodes can make. */
  ghost predicate Square(gaps: seq<seq<nat>>, n: nat) {
    |gaps| == n && forall i :: 0 <= i < n ==> |gaps[i]| == n
  }

  /** The dialling loop dials every healthy node, whatever others draw in between. */
  ghost predicate DialsAll(ok: seq<bool>, c: uint64)
    requires ok != []
  {
    forall gaps: seq<seq<nat>> :: Square(gaps, |ok|) ==> ReachesAll(DialsAmong(ok, c, gaps), ok)
  }

  lemma {:induction false} SteeredToNil(ok: seq<bool>, c: uint64, f: nat, m: nat)
    requires f < |ok| < TWO64 && !ok[f]
    ensures NextAmong(ok, c, GapsTo(c, f, m)).0 == None
    decreases m
  {
    if m > 0 {
      SlotSmall(f, |ok|);
      assert GapsTo(c, f, m)[1..] == GapsTo(Inc(f), f, m - 1);
      SteeredToNil(ok, Inc(f), f, m - 1);
    }
  }

  /** Gaps after which every call of the loop finds the counter at 0. */
  function AllToZero(c: uint64, n: nat, m: nat): (gaps: seq<seq<nat>>)
    ensures |gaps| == m && forall i :: 0 <= i < m ==> |gaps[i]| == n
    decreases m
  {
    if m == 0 then [] else [GapsTo(c, 0, n)] + AllToZero(1, n, m - 1)
  }

  lemma {:induction false} AlwaysFirst(ok: seq<bool>, c: uint64, m: nat)
    requires ok != [] && ok[0]
    ensures forall k :: 0 <= k < m ==> DialsAmong(ok, c, AllToZero(c, |ok|, m))[k] == Some(0)
    decreases m
  {
    if m > 0 {
      SlotSmall(0, |ok|);
      assert NextAmong(ok, c, GapsTo(c, 0, |ok|)) == (Some(0), 1);
      assert AllToZero(c, |ok|, m)[1..] == AllToZero(1, |ok|, m - 1);
      AlwaysFirst(ok, 1, m - 1);
    }
  }

  lemma NilFirstMisses(ok: seq<bool>, c: uint64, f: nat, j: nat)
    requires f < |ok| < TWO64 && !ok[f] && j < |ok| && ok[j]
    ensures !DialsAll(ok, c)
  {
    var n := |ok|;
    var g := GapsTo(c, f, n);
    var gaps := [g] + seq(n - 1, i => Zeros(n));
    SteeredToNil(ok, c, f, n);
    assert gaps[0] == g;
    MissedAtOnce(DialsAmong(ok, c, gaps), ok, j);
    assert Square(gaps, n);
  }

  /** A single node comes up whatever others draw. */
  lemma SingleIsDialled(ok: seq<bool>, c: uint64)
    requires |ok| == 1 && ok[0]
    ensures DialsAll(ok, c)
  {
    forall gaps: seq<seq<nat>> | Square(gaps, 1) ensures ReachesAll(DialsAmong(ok, c, gaps), ok) {
      var rs := DialsAmong(ok, c, gaps);
      assert |gaps[0]| == 1;
      assert rs[0] == Some(0) && None !in rs[..0];
    }
  }

  /**
   The exact condition: among other callers the dialling loop is sure to dial every healthy
   node if and only if there is none, or the pool has a single node.
   */
  lemma DialsAllIff(ok: seq<bool>, c: uint64)
    requires 0 < |ok| < TWO64
    ensures DialsAll(ok, c) <==> |ok| == 1 || forall j :: 0 <= j < |ok| ==> !ok[j]
  {
    if j: nat :| j < |ok| && ok[j] {
      if |ok| == 1 {
        SingleIsDialled(ok, c);
      } else if f: nat :| f < |ok| && !ok[f] {
        NilFirstMisses(ok, c, f, j);
      } else {
        AlwaysFirst(ok, c, |ok|);
        var gaps := AllToZero(c, |ok|, |ok|);
        OneAnswerMisses(DialsAmong(ok, c, gaps), ok, Some(0), 1);
        assert Square(gaps, |ok|);
      }
    }
  }
}
