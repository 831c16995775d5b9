/**
 The two round-robin disciplines of the upstream pool, over a counter that wraps at 2^64.
 `ok[i]` says whether node `i` may be returned: healthy for `Next`, healthy and capable
 for `NextWithCapability`. All results hold for a fixed `ok` and a single caller.
 */
module RoundRobin {
  import opened Common

  /** The counter after an atomic increment. */
  function Inc(c: uint64): uint64 {
    if c + 1 == TWO64 then 0 else c + 1
  }

  /** `p` modulo `n`, by repeated subtraction; see `SlotIsMod`. */
  function Slot(p: nat, n: nat): (r: nat)
    requires n > 0
    ensures r < n
  {
    if p < n then p else Slot(p - n, n)
  }

  lemma ModPeriod(a: nat, n: nat)
    requires n > 0
    ensures (a + n) % n == a % n
  {
    var q, s := a / n, a % n;
    var q', r := (a + n) / n, (a + n) % n;
    assert a == q * n + s && a + n == q' * n + r;
    var d := q' - q - 1;
    assert d * n == s - r;
    MultipleAtLeast(d, n);
  }

  lemma MultipleAtLeast(d: int, n: nat)
    ensures d >= 1 ==> d * n >= n
    ensures d <= -1 ==> d * n <= -1 * n
  {
  }

  lemma {:induction false} SlotIsMod(p: nat, n: nat)
    requires n > 0
    ensures Slot(p, n) == p % n
  {
    if p >= n {
      SlotIsMod(p - n, n);
      ModPeriod(p - n, n);
    }
  }

  lemma {:induction false} SlotPlus(a: nat, m: nat, n: nat)
    requires n > 0 && Slot(m, n) == 0
    ensures Slot(a + m, n) == Slot(a, n)
    decreases m
  {
    if m >= n {
      SlotPlus(a, m - n, n);
    }
  }

  /** The counter value after `q` increments of a fresh counter. */
  function Wrap(q: nat): uint64 {
    Slot(q, TWO64)
  }

  lemma WrappedSlotIsMod(q: nat, n: nat)
    requires n > 0
    ensures Slot(Wrap(q), n) == q % TWO64 % n
  {
    SlotIsMod(q, TWO64);
    SlotIsMod(Wrap(q), n);
  }

  lemma {:induction false} WrapInc(q: nat)
    ensures Wrap(q + 1) == Inc(Wrap(q))
    decreases q
  {
    if q >= TWO64 {
      WrapInc(q - TWO64);
    }
  }

  lemma {:induction false} WrapPlus(c: nat, k: nat)
    ensures Wrap(Wrap(c) + k) == Wrap(c + k)
    decreases c
  {
    if c >= TWO64 {
      WrapPlus(c - TWO64, k);
    }
  }

  /** The slot read at each position is the slot of the unwrapped position. */
  ghost predicate Aligned(lo: nat, hi: nat, n: nat)
    requires n > 0
  {
    forall q :: lo <= q < hi ==> Slot(Wrap(q), n) == Slot(q, n)
  }

  /** The `m` positions from `c` do not cross a wrap, or the wrap falls on a turn boundary. */
  ghost predicate Intact(c: uint64, m: nat, n: nat)
    requires n > 0
  {
    c + m <= TWO64 || Slot(TWO64, n) == 0
  }

  lemma {:induction false} WrapOnTurn(q: nat, n: nat)
    requires n > 0 && Slot(TWO64, n) == 0
    ensures Slot(Wrap(q), n) == Slot(q, n)
  {
    if q >= TWO64 {
      WrapOnTurn(q - TWO64, n);
      SlotPlus(q - TWO64, TWO64, n);
    }
  }

  lemma IntactAligned(c: uint64, m: nat, n: nat)
    requires n > 0 && Intact(c, m, n)
    ensures Aligned(c, c + m, n)
  {
    forall q | c <= q < c + m ensures Slot(Wrap(q), n) == Slot(q, n) {
      if c + m > TWO64 {
        WrapOnTurn(q, n);
      }
    }
  }

  /** Two positions less than a turn apart are different slots. */
  lemma {:induction false} SlotDistinct(a: nat, b: nat, n: nat)
    requires n > 0 && a < b < a + n
    ensures Slot(a, n) != Slot(b, n)
    decreases a
  {
    if a >= n {
      SlotDistinct(a - n, b - n, n);
    }
  }

  // ---- Next: the counter advances past every node inspected ----

  function NextFrom(ok: seq<bool>, c: uint64, tries: nat): (Option<nat>, uint64)
    requires tries > 0 ==> ok != []
    decreases tries
  {
    if tries == 0 then (None, c)
    else if ok[Slot(c, |ok|)] then (Some(Slot(c, |ok|)), Inc(c))
    else NextFrom(ok, Inc(c), tries - 1)
  }

  function Next(ok: seq<bool>, c: uint64): (Option<nat>, uint64) {
    NextFrom(ok, c, |ok|)
  }

  /** The answers of `m` consecutive calls. */
  function NextCalls(ok: seq<bool>, c: uint64, m: nat): (rs: seq<Option<nat>>)
    ensures |rs| == m
    decreases m
  {
    if m == 0 then [] else [Next(ok, c).0] + NextCalls(ok, Next(ok, c).1, m - 1)
  }

  // ---- NextWithCapability: the counter advances by one per call ----

  /** Inspects slots `start + i`, `start + i + 1`, ..., `start + |ok| - 1`. */
  function PickFrom(ok: seq<bool>, start: uint64, i: nat): Option<nat>
    requires i <= |ok|
    decreases |ok| - i
  {
    if i == |ok| then None
    else
      var idx := Slot(Wrap(start + i), |ok|);
      if ok[idx] then Some(idx) else PickFrom(ok, start, i + 1)
  }

  function Pick(ok: seq<bool>, c: uint64): Option<nat> {
    PickFrom(ok, c, 0)
  }

  function PickCalls(ok: seq<bool>, c: uint64, m: nat): (rs: seq<Option<nat>>)
    ensures |rs| == m
    decreases m
  {
    if m == 0 then [] else [Pick(ok, c)] + PickCalls(ok, Inc(c), m - 1)
  }

  // ---- Next visits the permitted slots in order ----

  /** The slot of a position, if it is permitted. */
  function Shows(ok: seq<bool>, p: nat): seq<nat>
    requires ok != []
  {
    if ok[Slot(p, |ok|)] then [Slot(p, |ok|)] else []
  }

  /** The permitted slots among positions `lo` up to `hi`, in order. */
  function Slots(ok: seq<bool>, lo: nat, hi: nat): seq<nat>
    requires ok != [] && lo <= hi
    decreases hi - lo
  {
    if lo == hi then [] else Shows(ok, lo) + Slots(ok, lo + 1, hi)
  }

  lemma {:induction false} SlotsAppend(ok: seq<bool>, lo: nat, hi: nat)
    requires ok != [] && lo <= hi
    ensures Slots(ok, lo, hi + 1) == Slots(ok, lo, hi) + Shows(ok, hi)
    decreases hi - lo
  {
    var last := Shows(ok, hi);
    if lo == hi {
      assert Slots(ok, hi + 1, hi + 1) == [];
      assert last + [] == [] + last;
    } else {
      SlotsAppend(ok, lo + 1, hi);
      ConcatAssociates(Shows(ok, lo), Slots(ok, lo + 1, hi), last);
    }
  }

  lemma ConcatAssociates<T>(a: seq<T>, b: seq<T>, c: seq<T>)
    ensures a + (b + c) == (a + b) + c
  {
  }

  function Count<T(==)>(s: seq<T>, x: T): nat {
    if s == [] then 0 else (if s[0] == x then 1 else 0) + Count(s[1..], x)
  }

  lemma {:induction false} CountConcat<T>(s: seq<T>, t: seq<T>, x: T)
    ensures Count(s + t, x) == Count(s, x) + Count(t, x)
  {
    if s == [] {
      assert s + t == t;
    } else {
      assert (s + t)[1..] == s[1..] + t;
      CountConcat(s[1..], t, x);
    }
  }

  lemma CountSingle<T>(x: T, y: T)
    ensures Count([x], y) == if x == y then 1 else 0
  {
    assert [x][1..] == [];
    assert Count<T>([], y) == 0;
  }

  /** A window of one full turn holds the same slots wherever it starts. */
  lemma {:induction false} SlotsTurn(ok: seq<bool>, c: nat, j: nat)
    requires ok != []
    ensures |Slots(ok, c, c + |ok|)| == |Slots(ok, 0, |ok|)|
    ensures Count(Slots(ok, c, c + |ok|), j) == Count(Slots(ok, 0, |ok|), j)
  {
    if c > 0 {
      var b := c - 1;
      SlotsTurn(ok, b, j);
      assert Slot(b + |ok|, |ok|) == Slot(b, |ok|);
      var mid := Slots(ok, c, b + |ok|);
      var first := Shows(ok, b);
      SlotsAppend(ok, c, b + |ok|);
      CountConcat(first, mid, j);
      CountConcat(mid, first, j);
    }
  }

  function Permitted(ok: seq<bool>, n: nat): set<nat>
    requires n <= |ok|
  {
    set j: nat | j < n && ok[j]
  }

  lemma PermittedNext(ok: seq<bool>, m: nat)
    requires m < |ok|
    ensures |Permitted(ok, m + 1)| == |Permitted(ok, m)| + |Shows(ok, m)|
  {
    assert Permitted(ok, m + 1) == Permitted(ok, m) + if ok[m] then {m} else {};
  }

  lemma CountShows(ok: seq<bool>, m: nat, j: nat)
    requires m < |ok|
    ensures Count(Shows(ok, m), j) == if m == j && ok[m] then 1 else 0
  {
    if ok[m] {
      CountSingle(m, j);
    }
  }

  /** The first turn lists every permitted slot once. */
  lemma {:induction false} SlotsFirstTurn(ok: seq<bool>, n: nat, j: nat)
    requires ok != [] && n <= |ok|
    ensures |Slots(ok, 0, n)| == |Permitted(ok, n)|
    ensures Count(Slots(ok, 0, n), j) == if j < n && ok[j] then 1 else 0
  {
    if n > 0 {
      var m: nat := n - 1;
      SlotsFirstTurn(ok, m, j);
      SlotsAppend(ok, 0, m);
      CountConcat(Slots(ok, 0, m), Shows(ok, m), j);
      CountShows(ok, m, j);
      PermittedNext(ok, m);
    }
  }

  /** The first permitted position from `c` on. */
  ghost predicate FirstAt(ok: seq<bool>, c: nat, p: nat)
    requires ok != []
  {
    c <= p && ok[Slot(p, |ok|)] && forall i :: c <= i < p ==> !ok[Slot(i, |ok|)]
  }

  lemma SlotsSkip(ok: seq<bool>, c: nat, hi: nat)
    requires ok != [] && c < hi && !ok[Slot(c, |ok|)]
    ensures Slots(ok, c, hi) == Slots(ok, c + 1, hi)
  {
  }

  lemma FirstAtBack(ok: seq<bool>, c: nat, p: nat)
    requires ok != [] && FirstAt(ok, c + 1, p) && !ok[Slot(c, |ok|)]
    ensures FirstAt(ok, c, p)
  {
  }

  lemma {:induction false} SlotsFirst(ok: seq<bool>, c: nat, hi: nat) returns (p: nat)
    requires ok != [] && c <= hi && Slots(ok, c, hi) != []
    ensures p < hi && FirstAt(ok, c, p)
    ensures Slots(ok, c, hi) == [Slot(p, |ok|)] + Slots(ok, p + 1, hi)
    decreases hi - c
  {
    if ok[Slot(c, |ok|)] {
      p := c;
    } else {
      SlotsSkip(ok, c, hi);
      p := SlotsFirst(ok, c + 1, hi);
      FirstAtBack(ok, c, p);
    }
  }

  /** One call stops at the first permitted position. */
  lemma {:induction false} NextFindsFirst(ok: seq<bool>, c: nat, p: nat, tries: nat)
    requires ok != [] && FirstAt(ok, c, p) && p < c + tries && Aligned(c, p + 1, |ok|)
    ensures NextFrom(ok, Wrap(c), tries) == (Some(Slot(p, |ok|)), Wrap(p + 1))
    decreases tries
  {
    assert Slot(Wrap(c), |ok|) == Slot(c, |ok|);
    WrapInc(c);
    if c < p {
      NextFindsFirst(ok, c + 1, p, tries - 1);
    }
  }

  function Found(s: seq<nat>): (rs: seq<Option<nat>>)
    ensures |rs| == |s|
  {
    if s == [] then [] else [Some(s[0])] + Found(s[1..])
  }

  lemma {:induction false} CountFound(s: seq<nat>, j: nat)
    ensures Count(Found(s), Some(j)) == Count(s, j)
    ensures None !in Found(s)
  {
    if s != [] {
      CountFound(s[1..], j);
      assert Found(s)[1..] == Found(s[1..]);
    }
  }

  lemma {:induction false} NextCallsAreSlots(ok: seq<bool>, p: nat, hi: nat)
    requires ok != [] && p <= hi <= p + |ok| && Aligned(p, hi, |ok|)
    ensures NextCalls(ok, Wrap(p), |Slots(ok, p, hi)|) == Found(Slots(ok, p, hi))
    decreases hi - p
  {
    var s := Slots(ok, p, hi);
    if s != [] {
      var q := SlotsFirst(ok, p, hi);
      NextFindsFirst(ok, p, q, |ok|);
      NextCallsAreSlots(ok, q + 1, hi);
      assert s[1..] == Slots(ok, q + 1, hi);
    }
  }

  /** Over `h` consecutive calls, `h` the number of permitted nodes, each comes up exactly once. */
  ghost predicate Fair(ok: seq<bool>, c: uint64) {
    var rs := NextCalls(ok, c, |Permitted(ok, |ok|)|);
    && None !in rs
    && forall j: nat :: Count(rs, Some(j)) == if j < |ok| && ok[j] then 1 else 0
  }

  /** Fairness of `Next` when no wrap disturbs the turn. */
  lemma NextReturnsEachOnce(ok: seq<bool>, c: uint64)
    requires ok != [] ==> Intact(c, |ok|, |ok|)
    ensures Fair(ok, c)
  {
    if ok == [] {
      assert Permitted(ok, |ok|) == {};
    } else {
      IntactAligned(c, |ok|, |ok|);
      assert Wrap(c) == c;
      NextCallsAreSlots(ok, c, c + |ok|);
      var s := Slots(ok, c, c + |ok|);
      forall j: nat ensures |s| == |Permitted(ok, |ok|)|
                    ensures Count(s, j) == if j < |ok| && ok[j] then 1 else 0 {
        SlotsTurn(ok, c, j);
        SlotsFirstTurn(ok, |ok|, j);
      }
      CountFound(s, 0);
      assert |s| == |Permitted(ok, |ok|)| by { SlotsTurn(ok, c, 0); SlotsFirstTurn(ok, |ok|, 0); }
      forall j: nat ensures Count(Found(s), Some(j)) == Count(s, j) {
        CountFound(s, j);
      }
    }
  }

  lemma {:induction false} NextGivesUp(ok: seq<bool>, c: uint64, tries: nat)
    requires tries > 0 ==> ok != []
    requires forall j :: 0 <= j < |ok| ==> !ok[j]
    ensures NextFrom(ok, c, tries).0 == None
    decreases tries
  {
    if tries > 0 {
      NextGivesUp(ok, Inc(c), tries - 1);
    }
  }

  /** `Next` answers nil exactly when no node is permitted. */
  lemma NextNilIffNone(ok: seq<bool>, c: uint64)
    requires ok != [] ==> Intact(c, |ok|, |ok|)
    ensures Next(ok, c).0 == None <==> Permitted(ok, |ok|) == {}
  {
    if Permitted(ok, |ok|) == {} {
      assert forall j: nat :: j < |ok| && ok[j] ==> j in Permitted(ok, |ok|);
      NextGivesUp(ok, c, |ok|);
    } else {
      IntactAligned(c, |ok|, |ok|);
      SlotsTurn(ok, c, 0);
      SlotsFirstTurn(ok, |ok|, 0);
      var p := SlotsFirst(ok, c, c + |ok|);
      NextFindsFirst(ok, c, p, |ok|);
    }
  }

  // ---- Exactly when `Next` is fair ----

  lemma {:induction false} AllPermittedCall(ok: seq<bool>, c: uint64, m: nat, k: nat)
    requires ok != [] && (forall j :: 0 <= j < |ok| ==> ok[j]) && k < m
    ensures NextCalls(ok, c, m)[k] == Some(Slot(Wrap(c + k), |ok|))
    decreases k
  {
    assert Next(ok, c) == (Some(Slot(c, |ok|)), Inc(c));
    if k > 0 {
      AllPermittedCall(ok, Inc(c), m - 1, k - 1);
      WrapInc(c);
      WrapPlus(c + 1, k - 1);
    }
  }

  lemma {:induction false} CountTwice<T>(s: seq<T>, i: nat, j: nat)
    requires i < j < |s| && s[i] == s[j]
    ensures Count(s, s[i]) >= 2
  {
    assert s == s[..j] + s[j..];
    CountConcat(s[..j], s[j..], s[i]);
    CountAtLeastOne(s[..j], i);
    CountAtLeastOne(s[j..], 0);
  }

  lemma {:induction false} CountAtLeastOne<T>(s: seq<T>, i: nat)
    requires i < |s|
    ensures Count(s, s[i]) >= 1
  {
    if i > 0 {
      CountAtLeastOne(s[1..], i - 1);
    }
  }

  /** Two positions of a broken turn that show the same slot. */
  lemma WrapRepeatsSlot(c: uint64, n: nat) returns (i: nat, j: nat)
    requires 0 < n < TWO64 && !Intact(c, n, n)
    ensures i < j < n && Slot(Wrap(c + i), n) == Slot(Wrap(c + j), n)
  {
    var a, r := TWO64 - c, Slot(TWO64, n);
    if r <= a {
      // position 2^64 - r is slot 0, and so is the position after the wrap
      i, j := a - r, a;
      SlotBefore(TWO64, r, n);
      assert Wrap(c + i) == TWO64 - r;
      assert Wrap(c + j) == 0;
    } else {
      // the first slot of the turn comes up again r positions later
      i, j := 0, r;
      SlotBefore(TWO64, a, n);
      assert Wrap(c + i) == TWO64 - a;
      SlotSmall(r - a, TWO64);
      assert c + j == (r - a) + TWO64;
    }
  }

  /** A wrap inside a turn, off the turn boundary, makes one node come up twice. */
  lemma WrapRepeats(ok: seq<bool>, c: uint64)
    requires ok != [] && (forall j :: 0 <= j < |ok| ==> ok[j])
    requires !Intact(c, |ok|, |ok|) && |ok| < TWO64
    ensures exists j: nat :: Count(NextCalls(ok, c, |ok|), Some(j)) >= 2
    ensures !Fair(ok, c)
  {
    var n := |ok|;
    PermittedAll(ok, n);
    var rs := NextCalls(ok, c, n);
    var i, j := WrapRepeatsSlot(c, n);
    AllPermittedCall(ok, c, n, i);
    AllPermittedCall(ok, c, n, j);
    CountTwice(rs, i, j);
    assert Count(rs, Some(rs[i].value)) >= 2;
  }

  lemma {:induction false} PermittedAll(ok: seq<bool>, n: nat)
    requires n <= |ok| && forall j :: 0 <= j < |ok| ==> ok[j]
    ensures |Permitted(ok, n)| == n
  {
    if n > 0 {
      PermittedAll(ok, n - 1);
      assert Permitted(ok, n) == Permitted(ok, n - 1) + {n - 1};
    }
  }

  /** Going back `d` positions goes back `d` slots, while that stays within the turn. */
  lemma {:induction false} SlotBefore(p: nat, d: nat, n: nat)
    requires n > 0 && d <= Slot(p, n) && d <= p
    ensures Slot(p - d, n) == Slot(p, n) - d
    decreases p
  {
    if p >= n {
      if p - d >= n {
        SlotBefore(p - n, d, n);
      } else {
        SlotSmall(p - n, n);
      }
    }
  }

  lemma SlotSmall(p: nat, n: nat)
    requires p < n
    ensures Slot(p, n) == p
  {
  }

  /**
   The exact condition: `Next` is fair for every health pattern of an `n`-node pool if
   and only if the turn starting at the counter is not broken by a wrap, or `n` divides 2^64.
   */
  lemma FairIffIntact(n: nat, c: uint64)
    requires 0 < n < TWO64
    ensures (forall ok: seq<bool> :: |ok| == n ==> Fair(ok, c)) <==> Intact(c, n, n)
  {
    if Intact(c, n, n) {
      forall ok: seq<bool> | |ok| == n ensures Fair(ok, c) {
        NextReturnsEachOnce(ok, c);
      }
    } else {
      var all := seq(n, i => true);
      WrapRepeats(all, c);
    }
  }

  // ---- NextWithCapability: how often each permitted node comes up ----

  /** The cyclic distance back from `j` to the previous permitted slot, `|ok|` if `j` is alone. */
  function Gap(ok: seq<bool>, j: nat): (g: nat)
    requires j < |ok| && ok[j]
    ensures 1 <= g <= |ok|
    ensures ok[Slot(j + |ok| - g, |ok|)]
    ensures forall i :: j + |ok| - g < i < j + |ok| ==> !ok[Slot(i, |ok|)]
  {
    GapFrom(ok, j, 1)
  }

  function GapFrom(ok: seq<bool>, j: nat, d: nat): (g: nat)
    requires j < |ok| && ok[j] && 1 <= d <= |ok|
    requires forall i :: j + |ok| - d < i < j + |ok| ==> !ok[Slot(i, |ok|)]
    ensures d <= g <= |ok|
    ensures ok[Slot(j + |ok| - g, |ok|)]
    ensures forall i :: j + |ok| - g < i < j + |ok| ==> !ok[Slot(i, |ok|)]
    decreases |ok| - d
  {
    if d == |ok| || ok[Slot(j + |ok| - d, |ok|)] then d else GapFrom(ok, j, d + 1)
  }

  /** One call answers the first permitted slot at or after its start. */
  lemma {:induction false} PickFindsFirst(ok: seq<bool>, p: nat, i: nat, q: nat)
    requires ok != [] && i < |ok| && FirstAt(ok, p + i, q) && q < p + |ok|
    requires Aligned(p, q + 1, |ok|)
    ensures PickFrom(ok, Wrap(p), i) == Some(Slot(q, |ok|))
    decreases |ok| - i
  {
    WrapPlus(p, i);
    assert Slot(Wrap(p + i), |ok|) == Slot(p + i, |ok|);
    if p + i < q {
      PickFindsFirst(ok, p, i + 1, q);
    }
  }

  /** The next permitted slot from position `p` is `j`. */
  ghost predicate LeadsTo(ok: seq<bool>, p: nat, j: nat)
    requires ok != []
  {
    exists q :: p <= q < p + |ok| && FirstAt(ok, p, q) && Slot(q, |ok|) == j
  }

  /** The same, as 0 or 1. */
  ghost function Leads(ok: seq<bool>, p: nat, j: nat): nat
    requires ok != []
  {
    if LeadsTo(ok, p, j) then 1 else 0
  }

  /** How many of the `m` positions from `p` lead to `j`. */
  ghost function LeadCount(ok: seq<bool>, p: nat, m: nat, j: nat): nat
    requires ok != []
    decreases m
  {
    if m == 0 then 0 else Leads(ok, p, j) + LeadCount(ok, p + 1, m - 1, j)
  }

  lemma {:induction false} LeadCountAppend(ok: seq<bool>, p: nat, m: nat, j: nat)
    requires ok != []
    ensures LeadCount(ok, p, m + 1, j) == LeadCount(ok, p, m, j) + Leads(ok, p + m, j)
    decreases m
  {
    if m > 0 {
      LeadCountAppend(ok, p + 1, m - 1, j);
    }
  }

  lemma FirstAtShift(ok: seq<bool>, p: nat, q: nat)
    requires ok != [] && p <= q
    ensures FirstAt(ok, p + |ok|, q + |ok|) <==> FirstAt(ok, p, q)
  {
    var n := |ok|;
    assert Slot(q + n, n) == Slot(q, n);
    if FirstAt(ok, p, q) {
      forall i | p + n <= i < q + n ensures !ok[Slot(i, n)] {
        assert Slot(i, n) == Slot(i - n, n);
      }
    }
    if FirstAt(ok, p + n, q + n) {
      forall i | p <= i < q ensures !ok[Slot(i, n)] {
        assert Slot(i + n, n) == Slot(i, n);
      }
    }
  }

  lemma LeadsToLater(ok: seq<bool>, p: nat, j: nat)
    requires ok != [] && LeadsTo(ok, p, j)
    ensures LeadsTo(ok, p + |ok|, j)
  {
    var q :| p <= q < p + |ok| && FirstAt(ok, p, q) && Slot(q, |ok|) == j;
    FirstAtShift(ok, p, q);
    assert Slot(q + |ok|, |ok|) == j;
  }

  lemma LeadsToEarlier(ok: seq<bool>, p: nat, j: nat)
    requires ok != [] && LeadsTo(ok, p + |ok|, j)
    ensures LeadsTo(ok, p, j)
  {
    var n := |ok|;
    var q :| p + n <= q < p + n + n && FirstAt(ok, p + n, q) && Slot(q, n) == j;
    FirstAtShift(ok, p, q - n);
    assert Slot(q - n, n) == j;
  }

  lemma LeadsPeriod(ok: seq<bool>, p: nat, j: nat)
    requires ok != []
    ensures Leads(ok, p + |ok|, j) == Leads(ok, p, j)
  {
    if LeadsTo(ok, p, j) {
      LeadsToLater(ok, p, j);
    } else if LeadsTo(ok, p + |ok|, j) {
      LeadsToEarlier(ok, p, j);
    }
  }

  /** The count over one full turn does not depend on where it starts. */
  lemma {:induction false} LeadCountTurn(ok: seq<bool>, p: nat, j: nat)
    requires ok != []
    ensures LeadCount(ok, p + 1, |ok|, j) == LeadCount(ok, p, |ok|, j)
  {
    LeadCountAppend(ok, p + 1, |ok| - 1, j);
    LeadsPeriod(ok, p, j);
  }

  lemma {:induction false} LeadCountAnywhere(ok: seq<bool>, p: nat, q: nat, j: nat)
    requires ok != [] && p <= q
    ensures LeadCount(ok, p, |ok|, j) == LeadCount(ok, q, |ok|, j)
    decreases q - p
  {
    if p < q {
      LeadCountAnywhere(ok, p, q - 1, j);
      LeadCountTurn(ok, q - 1, j);
    }
  }

  /** In the turn that ends at `j`, exactly the last `Gap` positions lead to `j`. */
  lemma LeadsInTurn(ok: seq<bool>, j: nat, p: nat)
    requires j < |ok| && ok[j] && j < p <= j + |ok|
    ensures Leads(ok, p, j) == if p + Gap(ok, j) > j + |ok| then 1 else 0
  {
    var n, g := |ok|, Gap(ok, j);
    var e := j + n;
    assert Slot(e, n) == j;
    if p + g > e {
      assert FirstAt(ok, p, e);
    } else {
      var b: nat := e - g;
      assert ok[Slot(b, n)];
      forall q | p <= q < p + n && FirstAt(ok, p, q) ensures Slot(q, n) != j {
        assert q <= b;
        SlotDistinct(q, e, n);
      }
    }
  }

  lemma {:induction false} LeadCountTail(ok: seq<bool>, j: nat, p: nat)
    requires j < |ok| && ok[j] && j < p <= j + |ok| + 1
    ensures var left: nat := j + |ok| + 1 - p;
      LeadCount(ok, p, left, j) == if left <= Gap(ok, j) then left else Gap(ok, j)
    decreases j + |ok| + 1 - p
  {
    if p <= j + |ok| {
      LeadsInTurn(ok, j, p);
      LeadCountTail(ok, j, p + 1);
    }
  }

  lemma LeadsNotPermitted(ok: seq<bool>, p: nat, j: nat)
    requires ok != [] && !(j < |ok| && ok[j])
    ensures Leads(ok, p, j) == 0
  {
  }

  lemma {:induction false} LeadCountNotPermitted(ok: seq<bool>, p: nat, m: nat, j: nat)
    requires ok != [] && !(j < |ok| && ok[j])
    ensures LeadCount(ok, p, m, j) == 0
    decreases m
  {
    if m > 0 {
      LeadsNotPermitted(ok, p, j);
      LeadCountNotPermitted(ok, p + 1, m - 1, j);
    }
  }

  lemma {:induction false} FirstExists(ok: seq<bool>, p: nat, k: nat) returns (q: nat)
    requires ok != [] && p <= k && ok[Slot(k, |ok|)]
    ensures p <= q <= k && FirstAt(ok, p, q)
    decreases k - p
  {
    if ok[Slot(p, |ok|)] {
      q := p;
    } else {
      q := FirstExists(ok, p + 1, k);
    }
  }

  /** Some position of every turn shows slot `j`. */
  lemma {:induction false} SlotInTurn(p: nat, n: nat, j: nat) returns (k: nat)
    requires j < n
    ensures p <= k < p + n && Slot(k, n) == j
    decreases p
  {
    if p <= j {
      k := j;
    } else if p >= n {
      k := SlotInTurn(p - n, n, j);
      k := k + n;
    } else {
      k := j + n;
    }
  }

  /** A call from `p` answers `j` exactly when `p` leads to `j`. */
  lemma PickLeads(ok: seq<bool>, p: nat, j: nat, k: nat)
    requires k < |ok| && ok[k] && Aligned(p, p + |ok|, |ok|)
    ensures Pick(ok, Wrap(p)).Some?
    ensures (if Pick(ok, Wrap(p)) == Some(j) then 1 else 0) == Leads(ok, p, j)
  {
    var t := SlotInTurn(p, |ok|, k);
    var q := FirstExists(ok, p, t);
    PickFindsFirst(ok, p, 0, q);
    forall q' | FirstAt(ok, p, q') ensures q' == q {
      assert !(q' < q) && !(q < q');
    }
  }

  lemma {:induction false} PickCallsLead(ok: seq<bool>, p: nat, m: nat, j: nat, k: nat)
    requires k < |ok| && ok[k] && (m > 0 ==> Aligned(p, p + |ok| + m - 1, |ok|))
    ensures Count(PickCalls(ok, Wrap(p), m), Some(j)) == LeadCount(ok, p, m, j)
    ensures None !in PickCalls(ok, Wrap(p), m)
    decreases m
  {
    if m > 0 {
      PickLeads(ok, p, j, k);
      PickCallsLead(ok, p + 1, m - 1, j, k);
      WrapInc(p);
      var rs := PickCalls(ok, Wrap(p), m);
      assert rs[1..] == PickCalls(ok, Wrap(p + 1), m - 1);
    }
  }

  lemma LeadCountIsGap(ok: seq<bool>, p: nat, j: nat)
    requires ok != []
    ensures LeadCount(ok, p, |ok|, j) == if j < |ok| && ok[j] then Gap(ok, j) else 0
  {
    if j < |ok| && ok[j] {
      LeadCountTail(ok, j, j + 1);
      if p <= j + 1 {
        LeadCountAnywhere(ok, p, j + 1, j);
      } else {
        LeadCountAnywhere(ok, j + 1, p, j);
      }
    } else {
      LeadCountNotPermitted(ok, p, |ok|, j);
    }
  }

  /**
   Shares of `NextWithCapability`: over one full turn of calls each permitted node is
   returned exactly as often as its cyclic distance from the previous permitted node, and
   no other node is returned.
   */
  lemma PickShares(ok: seq<bool>, c: uint64, j: nat, k: nat)
    requires k < |ok| && ok[k] && Intact(c, 2 * |ok| - 1, |ok|)
    ensures Count(PickCalls(ok, c, |ok|), Some(j)) == if j < |ok| && ok[j] then Gap(ok, j) else 0
    ensures None !in PickCalls(ok, c, |ok|)
  {
    IntactAligned(c, 2 * |ok| - 1, |ok|);
    SlotSmall(c, TWO64);
    PickCallsLead(ok, c, |ok|, j, k);
    LeadCountIsGap(ok, c, j);
  }

  lemma {:induction false} PickGivesUp(ok: seq<bool>, c: uint64, i: nat)
    requires i <= |ok| && forall j :: 0 <= j < |ok| ==> !ok[j]
    ensures PickFrom(ok, c, i) == None
    decreases |ok| - i
  {
    if i < |ok| {
      PickGivesUp(ok, c, i + 1);
    }
  }

  /** Only permitted nodes are ever returned. */
  lemma {:induction false} PickInRange(ok: seq<bool>, c: uint64, i: nat)
    requires i <= |ok|
    ensures PickFrom(ok, c, i).Some? ==> PickFrom(ok, c, i).value < |ok| && ok[PickFrom(ok, c, i).value]
    decreases |ok| - i
  {
    if i < |ok| {
      PickInRange(ok, c, i + 1);
    }
  }

  /** `NextWithCapability` answers nil exactly when no node is permitted. */
  lemma PickNilIffNone(ok: seq<bool>, c: uint64)
    requires ok != [] ==> Intact(c, |ok|, |ok|)
    ensures Pick(ok, c) == None <==> forall j :: 0 <= j < |ok| ==> !ok[j]
  {
    if k :| 0 <= k < |ok| && ok[k] {
      IntactAligned(c, |ok|, |ok|);
      assert Wrap(c) == c;
      PickLeads(ok, c, 0, k);
    } else {
      PickGivesUp(ok, c, 0);
    }
  }

  /** The share of slot `j`: its distance if it is permitted. */
  function Share(ok: seq<bool>, j: nat): nat {
    if j < |ok| && ok[j] then Gap(ok, j) else 0
  }

  /** The permitted nodes' distances, summed over the first `m` slots. */
  function SumGaps(ok: seq<bool>, m: nat): nat
    requires m <= |ok|
  {
    if m == 0 then 0 else SumGaps(ok, m - 1) + Share(ok, m - 1)
  }

  /** How many of the first `m` slots position `p` leads to. */
  ghost function SumLeads(ok: seq<bool>, p: nat, m: nat): nat
    requires ok != []
  {
    if m == 0 then 0 else SumLeads(ok, p, m - 1) + Leads(ok, p, m - 1)
  }

  /** The lead counts of the first `m` slots over `k` positions, added up. */
  ghost function SumCounts(ok: seq<bool>, p: nat, k: nat, m: nat): nat
    requires ok != []
  {
    if m == 0 then 0 else SumCounts(ok, p, k, m - 1) + LeadCount(ok, p, k, m - 1)
  }

  /** A position leads to one slot only. */
  lemma {:induction false} SumLeadsIsOne(ok: seq<bool>, p: nat, m: nat, q: nat)
    requires ok != [] && q < p + |ok| && FirstAt(ok, p, q)
    ensures SumLeads(ok, p, m) == if Slot(q, |ok|) < m then 1 else 0
    decreases m
  {
    if m > 0 {
      SumLeadsIsOne(ok, p, m - 1, q);
      forall r: nat | FirstAt(ok, p, r) ensures r == q {
        assert !(r < q) && !(q < r);
      }
      assert Leads(ok, p, m - 1) == if Slot(q, |ok|) == m - 1 then 1 else 0;
    }
  }

  lemma {:induction false} SumCountsFirst(ok: seq<bool>, p: nat, k: nat, m: nat)
    requires ok != [] && k > 0
    ensures SumCounts(ok, p, k, m) == SumLeads(ok, p, m) + SumCounts(ok, p + 1, k - 1, m)
    decreases m
  {
    if m > 0 {
      SumCountsFirst(ok, p, k, m - 1);
    }
  }

  lemma {:induction false} SumCountsNone(ok: seq<bool>, p: nat, m: nat)
    requires ok != []
    ensures SumCounts(ok, p, 0, m) == 0
    decreases m
  {
    if m > 0 {
      SumCountsNone(ok, p, m - 1);
    }
  }

  /** Each of `k` positions leads to exactly one slot of the pool. */
  lemma {:induction false} SumCountsAll(ok: seq<bool>, p: nat, k: nat, j: nat)
    requires j < |ok| && ok[j]
    ensures SumCounts(ok, p, k, |ok|) == k
    decreases k
  {
    if k == 0 {
      SumCountsNone(ok, p, |ok|);
    } else {
      var t := SlotInTurn(p, |ok|, j);
      var q := FirstExists(ok, p, t);
      SumLeadsIsOne(ok, p, |ok|, q);
      SumCountsFirst(ok, p, k, |ok|);
      SumCountsAll(ok, p + 1, k - 1, j);
    }
  }

  lemma LeadCountIsShare(ok: seq<bool>, j: nat)
    requires ok != []
    ensures LeadCount(ok, 0, |ok|, j) == Share(ok, j)
  {
    LeadCountIsGap(ok, 0, j);
  }

  lemma {:induction false} GapsAreCounts(ok: seq<bool>, m: nat)
    requires ok != [] && m <= |ok|
    ensures SumGaps(ok, m) == SumCounts(ok, 0, |ok|, m)
    decreases m
  {
    if m > 0 {
      GapsAreCounts(ok, m - 1);
      LeadCountIsShare(ok, m - 1);
    }
  }

  /** The shares of one turn add up to the number of calls. */
  lemma GapsSumToPoolSize(ok: seq<bool>, k: nat)
    requires k < |ok| && ok[k]
    ensures SumGaps(ok, |ok|) == |ok|
  {
    GapsAreCounts(ok, |ok|);
    SumCountsAll(ok, 0, |ok|, k);
  }

  lemma {:induction false} CountMember<T>(s: seq<T>, x: T)
    ensures Count(s, x) > 0 <==> x in s
  {
    if s != [] {
      CountMember(s[1..], x);
      assert s == [s[0]] + s[1..];
    }
  }

  // ---- Across a wrap: exactly when no node is missed ----

  /** Going back past the start of a turn. */
  lemma {:induction false} SlotBeforeTurn(p: nat, d: nat, n: nat)
    requires n > 0 && Slot(p, n) < d < n && d <= p
    ensures Slot(p - d, n) == Slot(p, n) + n - d
    decreases p
  {
    if p >= n + n {
      SlotBeforeTurn(p - n, d, n);
    } else if p >= n {
      SlotSmall(p - n, n);
      SlotSmall(p - d, n);
    }
  }

  /** The slot that none of the `n` positions from `c` shows when a wrap breaks the turn. */
  function MissedSlot(c: uint64, n: nat): (s: nat)
    requires 0 < n < TWO64 && !Intact(c, n, n)
    ensures s < n
  {
    var a, r := TWO64 - c, Slot(TWO64, n);
    if r <= a then n - a + r - 1 else n - 1
  }

  lemma NeverShown(c: uint64, n: nat, i: nat)
    requires 0 < n < TWO64 && !Intact(c, n, n) && i < n
    ensures Slot(Wrap(c + i), n) != MissedSlot(c, n)
  {
    var a, r := TWO64 - c, Slot(TWO64, n);
    if i < a {
      var d := a - i;
      SlotSmall(c + i, TWO64);
      assert Wrap(c + i) == TWO64 - d;
      if d <= r {
        SlotBefore(TWO64, d, n);
      } else {
        SlotBeforeTurn(TWO64, d, n);
      }
    } else {
      SlotSmall(i - a, TWO64);
      assert Wrap(c + i) == i - a;
      SlotSmall(i - a, n);
    }
  }

  /** The slots inspected by `m` consecutive draws of the counter, whoever makes them. */
  function Draws(c: uint64, m: nat, n: nat): (ds: seq<nat>)
    requires n > 0
    ensures |ds| == m && forall k :: 0 <= k < m ==> ds[k] == Slot(Wrap(c + k), n)
  {
    seq<nat>(m, k requires 0 <= k => Slot(Wrap(c + k), n))
  }

  lemma TurnCovers(n: nat, c: uint64, j: nat) returns (k: nat)
    requires j < n && Intact(c, n, n)
    ensures k < n && Draws(c, n, n)[k] == j
    ensures forall i :: 0 <= i < n && Draws(c, n, n)[i] == j ==> i == k
  {
    IntactAligned(c, n, n);
    var q := SlotInTurn(c, n, j);
    k := q - c;
    forall i | 0 <= i < n && Draws(c, n, n)[i] == j ensures i == k {
      assert Slot(c + i, n) == Slot(c + k, n);
      if i < k {
        SlotDistinct(c + i, c + k, n);
      } else if k < i {
        SlotDistinct(c + k, c + i, n);
      }
    }
  }

  /** `n` consecutive draws cover the pool if and only if no wrap breaks the turn or `n` divides 2^64. */
  lemma TurnCoversIffIntact(n: nat, c: uint64)
    requires 0 < n < TWO64
    ensures (forall j :: 0 <= j < n ==> j in Draws(c, n, n)) <==> Intact(c, n, n)
  {
    if Intact(c, n, n) {
      forall j | 0 <= j < n ensures j in Draws(c, n, n) {
        var k := TurnCovers(n, c, j);
      }
    } else {
      var ds := Draws(c, n, n);
      forall k | 0 <= k < n ensures ds[k] != MissedSlot(c, n) {
        NeverShown(c, n, k);
      }
      assert MissedSlot(c, n) !in ds;
    }
  }

  /** A pool in which only node `s` is permitted. */
  function Only(n: nat, s: nat): (ok: seq<bool>)
    ensures |ok| == n && forall j :: 0 <= j < n ==> (ok[j] <==> j == s)
  {
    seq(n, j => j == s)
  }

  lemma {:induction false} PickMisses(c: uint64, n: nat, i: nat)
    requires 0 < n < TWO64 && !Intact(c, n, n) && i <= n
    ensures PickFrom(Only(n, MissedSlot(c, n)), c, i) == None
    decreases n - i
  {
    if i < n {
      NeverShown(c, n, i);
      PickMisses(c, n, i + 1);
    }
  }

  lemma {:induction false} NextMisses(c: uint64, n: nat, i: nat)
    requires 0 < n < TWO64 && !Intact(c, n, n) && i <= n
    ensures NextFrom(Only(n, MissedSlot(c, n)), Wrap(c + i), n - i).0 == None
    decreases n - i
  {
    if i < n {
      NeverShown(c, n, i);
      WrapInc(c + i);
      NextMisses(c, n, i + 1);
    }
  }

  /** Broken by a wrap, either discipline answers nil although a node is permitted. */
  lemma BrokenTurnMisses(c: uint64, n: nat)
    requires 0 < n < TWO64 && !Intact(c, n, n)
    ensures var ok := Only(n, MissedSlot(c, n));
      ok[MissedSlot(c, n)] && Pick(ok, c) == None && Next(ok, c).0 == None
  {
    PickMisses(c, n, 0);
    NextMisses(c, n, 0);
    SlotSmall(c, TWO64);
  }

  /** For instance: three nodes, only the last permitted, and the counter one short of the wrap. */
  lemma WrapMissesNode()
    ensures Pick([false, false, true], TWO64 - 1) == None
    ensures Next([false, false, true], TWO64 - 1).0 == None
  {
    SlotIsMod(TWO64, 3);
    BrokenTurnMisses(TWO64 - 1, 3);
    assert Only(3, 2) == [false, false, true];
  }

  /** The exact condition under which `NextWithCapability` answers nil only for want of a node. */
  lemma PickNilIffIntact(n: nat, c: uint64)
    requires 0 < n < TWO64
    ensures (forall ok: seq<bool> :: |ok| == n && Pick(ok, c) == None ==> forall j :: 0 <= j < n ==> !ok[j])
      <==> Intact(c, n, n)
  {
    if Intact(c, n, n) {
      forall ok: seq<bool> | |ok| == n && Pick(ok, c) == None ensures forall j :: 0 <= j < n ==> !ok[j] {
        PickNilIffNone(ok, c);
      }
    } else {
      BrokenTurnMisses(c, n);
    }
  }

  /** The same for `Next`. */
  lemma NextNilIffIntact(n: nat, c: uint64)
    requires 0 < n < TWO64
    ensures (forall ok: seq<bool> :: |ok| == n && Next(ok, c).0 == None ==> forall j :: 0 <= j < n ==> !ok[j])
      <==> Intact(c, n, n)
  {
    if Intact(c, n, n) {
      forall ok: seq<bool> | |ok| == n && Next(ok, c).0 == None ensures forall j :: 0 <= j < n ==> !ok[j] {
        NextNilIffNone(ok, c);
        assert forall j: nat :: j < n && ok[j] ==> j in Permitted(ok, n);
      }
    } else {
      BrokenTurnMisses(c, n);
    }
  }

  lemma {:induction false} PickCallsAt(ok: seq<bool>, c: uint64, m: nat, k: nat)
    requires k < m
    ensures PickCalls(ok, c, m)[k] == Pick(ok, Wrap(c + k))
    decreases k
  {
    SlotSmall(c, TWO64);
    if k > 0 {
      PickCallsAt(ok, Inc(c), m - 1, k - 1);
      WrapInc(c);
      WrapPlus(c + 1, k - 1);
    }
  }

  /** `NextWithCapability` shares one turn of calls out by cyclic distance. */
  ghost predicate SharesByGap(ok: seq<bool>, c: uint64) {
    var rs := PickCalls(ok, c, |ok|);
    && None !in rs
    && forall j: nat :: Count(rs, Some(j)) == if j < |ok| && ok[j] then Gap(ok, j) else 0
  }

  /** Some call of the turn starts at a counter from which a wrap breaks the scan. */
  lemma BrokenCall(n: nat, c: uint64) returns (k: nat)
    requires 0 < n < TWO64 && !Intact(c, 2 * n - 1, n)
    ensures k < n && !Intact(Wrap(c + k), n, n)
  {
    SlotSmall(c, TWO64);
    if c + n - 1 < TWO64 {
      k := n - 1;
      SlotSmall(c + k, TWO64);
    } else {
      k := 0;
    }
  }

  /**
   The exact condition: the shares are right for every pattern of permitted nodes if and
   only if no wrap breaks the scans of the turn, or `n` divides 2^64.
   */
  lemma SharesIffIntact(n: nat, c: uint64)
    requires 0 < n < TWO64
    ensures (forall ok: seq<bool>, k: nat :: |ok| == n && k < n && ok[k] ==> SharesByGap(ok, c))
      <==> Intact(c, 2 * n - 1, n)
  {
    if Intact(c, 2 * n - 1, n) {
      forall ok: seq<bool>, k: nat | |ok| == n && k < n && ok[k] ensures SharesByGap(ok, c) {
        forall j: nat { PickShares(ok, c, j, k); }
      }
    } else {
      var k := BrokenCall(n, c);
      var s := MissedSlot(Wrap(c + k), n);
      var ok := Only(n, s);
      BrokenTurnMisses(Wrap(c + k), n);
      PickCallsAt(ok, c, n, k);
      assert PickCalls(ok, c, n)[k] in PickCalls(ok, c, n);
      assert |ok| == n && s < n && ok[s] && !SharesByGap(ok, c);
    }
  }

  /** A loop that stops at the first nil still meets every permitted node. */
  ghost predicate ReachesAll(rs: seq<Option<nat>>, ok: seq<bool>) {
    forall j: nat :: j < |ok| && ok[j] ==> exists k :: 0 <= k < |rs| && rs[k] == Some(j) && None !in rs[..k]
  }

  /** A call that starts no later than a permitted position of the turn is answered. */
  lemma PickAnswers(ok: seq<bool>, p: nat, q: nat)
    requires ok != [] && p <= q < p + |ok| && ok[Slot(q, |ok|)] && Aligned(p, q + 1, |ok|)
    ensures Pick(ok, Wrap(p)).Some?
    ensures p == q ==> Pick(ok, Wrap(p)) == Some(Slot(q, |ok|))
  {
    var f := FirstExists(ok, p, q);
    PickFindsFirst(ok, p, 0, f);
  }

  lemma PickReachesAll(ok: seq<bool>, c: uint64)
    requires ok != [] ==> Intact(c, |ok|, |ok|)
    ensures ReachesAll(PickCalls(ok, c, |ok|), ok)
  {
    var n := |ok|;
    var rs := PickCalls(ok, c, n);
    forall j: nat | j < n && ok[j]
      ensures exists k :: 0 <= k < n && rs[k] == Some(j) && None !in rs[..k]
    {
      IntactAligned(c, n, n);
      var q := SlotInTurn(c, n, j);
      var k := q - c;
      forall i: nat | i <= k ensures rs[i].Some? && (i == k ==> rs[i] == Some(j)) {
        PickCallsAt(ok, c, n, i);
        PickAnswers(ok, c + i, q);
      }
      assert rs[k] == Some(j);
    }
  }

  /**
   The exact condition for a retry loop: for every pattern of permitted nodes it meets them
   all before it can give up, if and only if no wrap breaks the turn or `n` divides 2^64.
   */
  lemma PickReachesIffIntact(n: nat, c: uint64)
    requires 0 < n < TWO64
    ensures (forall ok: seq<bool> :: |ok| == n ==> ReachesAll(PickCalls(ok, c, n), ok)) <==> Intact(c, n, n)
  {
    if Intact(c, n, n) {
      forall ok: seq<bool> | |ok| == n ensures ReachesAll(PickCalls(ok, c, n), ok) {
        PickReachesAll(ok, c);
      }
    } else {
      BrokenTurnMisses(c, n);
      MissedAtOnce(PickCalls(Only(n, MissedSlot(c, n)), c, n), Only(n, MissedSlot(c, n)), MissedSlot(c, n));
    }
  }

  lemma MissedAtOnce(rs: seq<Option<nat>>, ok: seq<bool>, j: nat)
    requires j < |ok| && ok[j] && rs != [] && rs[0] == None
    ensures !ReachesAll(rs, ok)
  {
    forall k | 0 <= k < |rs| && rs[k] == Some(j) ensures None in rs[..k] {
      assert rs[..k][0] == None;
    }
  }

  lemma {:induction false} NextCallsPrefix(ok: seq<bool>, c: uint64, m: nat, n: nat)
    requires m <= n
    ensures NextCalls(ok, c, n)[..m] == NextCalls(ok, c, m)
    decreases m
  {
    if m > 0 {
      NextCallsPrefix(ok, Next(ok, c).1, m - 1, n - 1);
    }
  }

  lemma {:induction false} PermittedAtMost(ok: seq<bool>, n: nat)
    requires n <= |ok|
    ensures |Permitted(ok, n)| <= n
  {
    if n > 0 {
      PermittedAtMost(ok, n - 1);
      PermittedNext(ok, n - 1);
    }
  }

  lemma NextReachesAll(ok: seq<bool>, c: uint64)
    requires ok != [] ==> Intact(c, |ok|, |ok|)
    ensures ReachesAll(NextCalls(ok, c, |ok|), ok)
  {
    NextReturnsEachOnce(ok, c);
    PermittedAtMost(ok, |ok|);
    var h := |Permitted(ok, |ok|)|;
    var few, rs := NextCalls(ok, c, h), NextCalls(ok, c, |ok|);
    NextCallsPrefix(ok, c, h, |ok|);
    forall j: nat | j < |ok| && ok[j]
      ensures exists k :: 0 <= k < |rs| && rs[k] == Some(j) && None !in rs[..k]
    {
      CountMember(few, Some(j));
      var k :| 0 <= k < h && few[k] == Some(j);
      assert rs[..k] == few[..k];
      assert rs[k] == few[k];
    }
  }

  /** The same for the dialling loop over `Next`. */
  lemma NextReachesIffIntact(n: nat, c: uint64)
    requires 0 < n < TWO64
    ensures (forall ok: seq<bool> :: |ok| == n ==> ReachesAll(NextCalls(ok, c, n), ok)) <==> Intact(c, n, n)
  {
    if Intact(c, n, n) {
      forall ok: seq<bool> | |ok| == n ensures ReachesAll(NextCalls(ok, c, n), ok) {
        NextReachesAll(ok, c);
      }
    } else {
      BrokenTurnMisses(c, n);
      MissedAtOnce(NextCalls(Only(n, MissedSlot(c, n)), c, n), Only(n, MissedSlot(c, n)), MissedSlot(c, n));
    }
  }
}
