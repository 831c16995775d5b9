/**
 The timed read side of `pump`: a read deadline that only Pong frames push forward, and a
 Ping sent every period. Times are integers; ticker and first deadline start together.
 */
module Heartbeat {
  datatype Arrival = Arrival(at: int, pong: bool)

  datatype Timing = Timing(start: int, pingPeriod: nat, pongWait: nat) {
    function Window(): nat {
      pingPeriod + pongWait
    }

    /** When the k-th Ping is sent. */
    function PingAt(k: nat): int {
      start + k * pingPeriod
    }
  }

  ghost predicate Ordered(xs: seq<Arrival>) {
    forall i, j :: 0 <= i < j < |xs| ==> xs[i].at <= xs[j].at
  }

  /** The read deadline once the first `i` frames have been read. */
  function Deadline(t: Timing, xs: seq<Arrival>, i: nat): int
    requires i <= |xs|
  {
    if i == 0 then t.start + t.Window()
    else if xs[i - 1].pong then xs[i - 1].at + t.Window()
    else Deadline(t, xs, i - 1)
  }

  /** Frame `i` is read: it and every frame before it arrived within the deadline then set. */
  ghost predicate Read(t: Timing, xs: seq<Arrival>, i: nat)
    requires i < |xs|
  {
    forall j :: 0 <= j <= i ==> xs[j].at <= Deadline(t, xs, j)
  }

  /**
   The reader loop: reads frames while they meet the deadline. Answers how many were read
   and when the read finally times out.
   */
  method ReadUntilTimeout(t: Timing, xs: seq<Arrival>) returns (n: nat, droppedAt: int)
    ensures n <= |xs| && droppedAt == Deadline(t, xs, n)
    ensures forall i :: 0 <= i < |xs| ==> (Read(t, xs, i) <==> i < n)
  {
    var deadline := t.start + t.Window();
    n := 0;
    while n < |xs| && xs[n].at <= deadline
      invariant 0 <= n <= |xs|
      invariant deadline == Deadline(t, xs, n)
      invariant forall j :: 0 <= j < n ==> xs[j].at <= Deadline(t, xs, j)
    {
      if xs[n].pong {
        deadline := xs[n].at + t.Window();
      }
      n := n + 1;
    }
    droppedAt := deadline;
  }

  /** The deadline is one window past the last Pong read, or past the start if there was none. */
  lemma {:induction false} DeadlineIsLastPong(t: Timing, xs: seq<Arrival>, i: nat)
    requires i <= |xs|
    ensures
      || (Deadline(t, xs, i) == t.start + t.Window() && forall j :: 0 <= j < i ==> !xs[j].pong)
      || (exists k :: 0 <= k < i && xs[k].pong && Deadline(t, xs, i) == xs[k].at + t.Window()
                      && forall j :: k < j < i ==> !xs[j].pong)
  {
    if i > 0 && !xs[i - 1].pong {
      DeadlineIsLastPong(t, xs, i - 1);
      if k :| 0 <= k < i - 1 && xs[k].pong && Deadline(t, xs, i - 1) == xs[k].at + t.Window()
              && forall j :: k < j < i - 1 ==> !xs[j].pong {
        assert xs[k].pong && Deadline(t, xs, i) == xs[k].at + t.Window();
      }
    }
  }

  /**
   Whatever else it sends, an upstream with no Pong after time `s` is dropped by one window
   past `s`: the read deadline is no later, and no frame after that is read.
   */
  lemma {:induction false} SilentUpstreamIsDropped(t: Timing, xs: seq<Arrival>, s: int, i: nat)
    requires i <= |xs| && s >= t.start
    requires forall j :: 0 <= j < i && xs[j].pong ==> xs[j].at <= s
    ensures Deadline(t, xs, i) <= s + t.Window()
    ensures i < |xs| && xs[i].at > s + t.Window() ==> !Read(t, xs, i)
  {
    DeadlineIsLastPong(t, xs, i);
  }

  /** A Pong pushes every later deadline at least one window past itself. */
  lemma {:induction false} DeadlineAfterPong(t: Timing, xs: seq<Arrival>, k: nat, i: nat)
    requires k < i <= |xs| && Ordered(xs) && xs[k].pong
    ensures Deadline(t, xs, i) >= xs[k].at + t.Window()
    decreases i
  {
    if i - 1 > k {
      DeadlineAfterPong(t, xs, k, i - 1);
    }
  }

  lemma {:induction false} DeadlineNeverBeforeFirst(t: Timing, xs: seq<Arrival>, i: nat)
    requires i <= |xs| && forall j :: 0 <= j < i ==> xs[j].at >= t.start
    ensures Deadline(t, xs, i) >= t.start + t.Window()
  {
    if i > 0 {
      DeadlineNeverBeforeFirst(t, xs, i - 1);
    }
  }

  /** Each of the first `m` Pings is answered by a Pong within `pongWait`. */
  ghost predicate Responsive(t: Timing, xs: seq<Arrival>, m: nat) {
    forall k: nat :: 1 <= k <= m ==> AnswersPing(t, xs, k)
  }

  ghost predicate AnswersPing(t: Timing, xs: seq<Arrival>, k: nat) {
    exists i :: 0 <= i < |xs| && xs[i].pong && t.PingAt(k) <= xs[i].at <= t.PingAt(k) + t.pongWait
  }

  /**
   A responsive upstream is never timed out: every frame that arrives by the time the m-th
   Pong is due, or before the ping after that goes unanswered, is read.
   */
  lemma {:induction false} ResponsiveIsKept(t: Timing, xs: seq<Arrival>, m: nat, i: nat)
    requires Ordered(xs) && (forall j :: 0 <= j < |xs| ==> xs[j].at >= t.start)
    requires Responsive(t, xs, m)
    requires i < |xs| && xs[i].at <= t.PingAt(m + 1) + t.pongWait
    ensures Read(t, xs, i)
  {
    forall j | 0 <= j <= i ensures xs[j].at <= Deadline(t, xs, j) {
      MeetsDeadline(t, xs, m, j);
    }
  }

  /**
   So the reader that has read `n` frames times out no sooner than `pongWait` past the first
   Ping that may go unanswered.
   */
  lemma {:induction false} ResponsiveOutlivesPings(t: Timing, xs: seq<Arrival>, m: nat, n: nat)
    requires Ordered(xs) && (forall j :: 0 <= j < |xs| ==> xs[j].at >= t.start)
    requires Responsive(t, xs, m)
    requires n <= |xs| && forall i :: 0 <= i < |xs| ==> (Read(t, xs, i) <==> i < n)
    ensures Deadline(t, xs, n) >= t.PingAt(m + 1) + t.pongWait
  {
    NextPing(t, m);
    if m == 0 {
      DeadlineNeverBeforeFirst(t, xs, n);
    } else {
      assert AnswersPing(t, xs, m);
      var p :| 0 <= p < |xs| && xs[p].pong && t.PingAt(m) <= xs[p].at <= t.PingAt(m) + t.pongWait;
      ResponsiveIsKept(t, xs, m, p);
      DeadlineAfterPong(t, xs, p, n);
    }
  }

  lemma {:induction false} MeetsDeadline(t: Timing, xs: seq<Arrival>, m: nat, j: nat)
    requires Ordered(xs) && (forall j :: 0 <= j < |xs| ==> xs[j].at >= t.start)
    requires Responsive(t, xs, m)
    requires j < |xs| && xs[j].at <= t.PingAt(m + 1) + t.pongWait
    ensures xs[j].at <= Deadline(t, xs, j)
    decreases m
  {
    NextPing(t, m);
    if m == 0 {
      DeadlineNeverBeforeFirst(t, xs, j);
    } else if xs[j].at <= t.PingAt(m) + t.pongWait {
      MeetsDeadline(t, xs, m - 1, j);
    } else {
      assert AnswersPing(t, xs, m);
      var p :| 0 <= p < |xs| && xs[p].pong && t.PingAt(m) <= xs[p].at <= t.PingAt(m) + t.pongWait;
      DeadlineAfterPong(t, xs, p, j);
    }
  }

  lemma NextPing(t: Timing, m: nat)
    ensures t.PingAt(m + 1) == t.PingAt(m) + t.pingPeriod
    ensures t.PingAt(0) == t.start
  {
    assert (m + 1) * t.pingPeriod == m * t.pingPeriod + t.pingPeriod;
  }

  /**
   Whether an upstream that leaves Ping `k` unanswered is dropped within `pongWait` of that
   Ping: exactly when no Pong came later than the Ping before it. Each tick by which a Pong
   is later than that delays the drop.
   */
  lemma {:induction false} DroppedWithinPongWaitIff(t: Timing, xs: seq<Arrival>, k: nat, i: nat)
    requires 1 <= k && i <= |xs| && Ordered(xs)
    ensures Deadline(t, xs, i) <= t.PingAt(k) + t.pongWait <==>
      forall j :: 0 <= j < i && xs[j].pong ==> xs[j].at <= t.PingAt(k - 1)
  {
    NextPing(t, k - 1);
    PingAfterStart(t, k - 1);
    if forall j :: 0 <= j < i && xs[j].pong ==> xs[j].at <= t.PingAt(k - 1) {
      SilentUpstreamIsDropped(t, xs, t.PingAt(k - 1), i);
    } else {
      var j :| 0 <= j < i && xs[j].pong && xs[j].at > t.PingAt(k - 1);
      DeadlineAfterPong(t, xs, j, i);
    }
  }

  lemma PingAfterStart(t: Timing, k: nat)
    ensures t.PingAt(k) >= t.start
  {
    assert k * t.pingPeriod >= 0;
  }

  /**
   For instance, with a Ping every 30 and `pongWait` 10: after a Pong 9 past the first Ping,
   an upstream that falls silent is dropped 19 past the second Ping.
   */
  lemma LatePongDelaysDrop()
    ensures var t, xs := Timing(0, 30, 10), [Arrival(39, true)];
      && t.PingAt(1) <= xs[0].at <= t.PingAt(1) + t.pongWait
      && Read(t, xs, 0)
      && Deadline(t, xs, 1) == t.PingAt(2) + t.pongWait + 9
  {
  }
}
