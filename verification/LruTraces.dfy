/**
 Laws of the cache over arbitrary operation traces: well-formedness, inclusion between
 caches of different capacity, agreement with a plain TTL map, and LRU retention.
 */
module LruTraces {
  import opened Common
  import opened LruSpec

  /** One operation, with the clock reading it took. */
  datatype Op =
    | OpGet(key: string, now: int)
    | OpSet(key: string, value: string, ttl: int, now: int)
    | OpDelete(key: string)
    | OpSweep(now: int)

  function Step(s: seq<Entry>, cap: int, op: Op): seq<Entry> {
    match op
    case OpGet(k, now) => Get(s, k, now).0
    case OpSet(k, v, ttl, now) => Set(s, cap, k, v, ttl, now)
    case OpDelete(k) => Delete(s, k)
    case OpSweep(now) => Sweep(s, now)
  }

  /** The cache after the first `t` operations of the trace, starting empty. */
  function Run(cap: int, ops: seq<Op>, t: nat): seq<Entry>
    requires t <= |ops|
  {
    if t == 0 then [] else Step(Run(cap, ops, t - 1), cap, ops[t - 1])
  }

  /** What the lookup at position `i` of the trace answers. */
  function Answer(cap: int, ops: seq<Op>, i: nat): Option<string>
    requires i < |ops| && ops[i].OpGet?
  {
    Get(Run(cap, ops, i), ops[i].key, ops[i].now).1
  }

  // ---- Well-formedness ----

  lemma StepUnique(s: seq<Entry>, cap: int, op: Op)
    requires Unique(s)
    ensures Unique(Step(s, cap, op))
  {
    match op
    case OpGet(k, now) =>
      LookupMember(s, k);
      DropUnique(s, {k});
      DropMembers(s, {k});
      if Lookup(s, k).Some? {
        UniqueCons(Lookup(s, k).value, Drop(s, {k}));
      }
    case OpSet(k, v, ttl, now) =>
      var e := Stored(k, v, ttl, now);
      DropUnique(s, {k});
      DropMembers(s, {k});
      UniqueCons(e, Drop(s, {k}));
      if k !in Keys(s) {
        UniqueCons(e, s);
        assert Keys(Evict(s)) <= Keys(s);
        UniqueCons(e, Evict(s));
      }
    case OpDelete(k) =>
      DropUnique(s, {k});
    case OpSweep(now) =>
      SweepExact(s, now);
  }

  lemma StepWithinCap(s: seq<Entry>, cap: int, op: Op)
    requires Unique(s) && cap > 0 && |s| <= cap
    ensures |Step(s, cap, op)| <= cap
  {
    match op
    case OpGet(k, _) => FrontLength(s, k);
    case OpSet(k, _, _, _) => FrontLength(s, k);
    case OpDelete(k) => DropMembers(s, {k});
    case OpSweep(now) => DropMembers(s, ExpiredKeys(s, now));
  }

  /** Moving a key to the front does not change the length. */
  lemma FrontLength(s: seq<Entry>, k: string)
    requires Unique(s)
    ensures Lookup(s, k).Some? <==> k in Keys(s)
    ensures |Drop(s, {k})| == if k in Keys(s) then |s| - 1 else |s|
  {
    LookupMember(s, k);
    DropMembers(s, {k});
    DropUnique(s, {k});
    UniqueLength(s);
    UniqueLength(Drop(s, {k}));
  }

  /** Every reachable cache has distinct keys and never exceeds a positive cap. */
  lemma {:induction false} ReachableWellFormed(cap: int, ops: seq<Op>, t: nat)
    requires t <= |ops|
    ensures Unique(Run(cap, ops, t))
    ensures cap > 0 ==> |Run(cap, ops, t)| <= cap
  {
    if t > 0 {
      ReachableWellFormed(cap, ops, t - 1);
      StepUnique(Run(cap, ops, t - 1), cap, ops[t - 1]);
      if cap > 0 {
        StepWithinCap(Run(cap, ops, t - 1), cap, ops[t - 1]);
      }
    }
  }

  // ---- Inclusion between capacities ----

  /** `n` is at most `N`, where a non-positive `N` means no limit. */
  ghost predicate CapAtMost(n: int, N: int) {
    N <= 0 || 0 < n <= N
  }

  /** `s` is `l` with some keys left out: same values, expiries and relative order. */
  ghost predicate Thinned(s: seq<Entry>, l: seq<Entry>) {
    s == Drop(l, Keys(l) - Keys(s))
  }

  /** The larger cache is ahead by no more than the difference of the caps. */
  ghost predicate Included(s: seq<Entry>, n: int, l: seq<Entry>, N: int) {
    && Unique(s) && Unique(l)
    && Thinned(s, l)
    && (N > 0 ==> |l| <= N && |s| <= n && |l| - |s| <= N - n)
  }

  lemma ThinnedBy(s: seq<Entry>, l: seq<Entry>, d: set<string>)
    requires s == Drop(l, d)
    ensures Thinned(s, l)
  {
    DropMembers(l, d);
    var rest := d - Keys(l);
    var c := Keys(l) - Keys(s);
    assert d == c + rest;
    DropDrop(l, c, rest);
    DropMembers(l, c);
    DropAbsent(Drop(l, c), rest);
  }

  lemma ThinnedLookup(s: seq<Entry>, l: seq<Entry>, k: string)
    requires Thinned(s, l)
    ensures Keys(s) <= Keys(l)
    ensures k in Keys(s) ==> Lookup(s, k) == Lookup(l, k)
  {
    var c := Keys(l) - Keys(s);
    DropMembers(l, c);
    LookupDrop(l, c, k);
  }

  /** Dropping the same keys from both, or further keys that the smaller lacks, keeps the relation. */
  lemma ThinnedDrop(s: seq<Entry>, l: seq<Entry>, a: set<string>)
    requires Thinned(s, l)
    ensures Thinned(Drop(s, a), Drop(l, a))
  {
    var c := Keys(l) - Keys(s);
    DropDrop(l, c, a);
    DropDrop(l, a, c);
    assert c + a == a + c;
    ThinnedBy(Drop(s, a), Drop(l, a), c);
  }

  lemma ThinnedCons(e: Entry, s: seq<Entry>, l: seq<Entry>)
    requires Thinned(s, l) && e.key !in Keys(l)
    ensures Thinned([e] + s, [e] + l)
  {
    var c := Keys(l) - Keys(s);
    assert ([e] + l)[1..] == l;
    ThinnedBy([e] + s, [e] + l, c);
  }

  /** A key moved to the front of the larger cache only. */
  lemma ThinnedPromote(e: Entry, s: seq<Entry>, l: seq<Entry>)
    requires Thinned(s, l) && e.key !in Keys(s)
    ensures Thinned(s, [e] + Drop(l, {e.key}))
  {
    var c := Keys(l) - Keys(s) + {e.key};
    DropDrop(l, {e.key}, c);
    assert {e.key} + c == c;
    assert ([e] + Drop(l, {e.key}))[1..] == Drop(l, {e.key});
    DropDrop(l, Keys(l) - Keys(s), {e.key});
    DropAbsent(s, {e.key});
    assert Drop(l, c) == s;
    ThinnedBy(s, [e] + Drop(l, {e.key}), c);
  }

  lemma ThinnedEvictSmall(s: seq<Entry>, l: seq<Entry>)
    requires Unique(s) && Thinned(s, l) && s != []
    ensures Thinned(Evict(s), l)
  {
    var c := Keys(l) - Keys(s);
    EvictIsDrop(s);
    DropDrop(l, c, {s[|s| - 1].key});
    ThinnedBy(Evict(s), l, c + {s[|s| - 1].key});
  }

  /** A last entry of the larger cache that the smaller one still holds is last there too. */
  lemma LastStaysLast(s: seq<Entry>, l: seq<Entry>)
    requires Thinned(s, l) && l != [] && l[|l| - 1].key in Keys(s)
    ensures s != [] && s[|s| - 1] == l[|l| - 1]
  {
    var z := l[|l| - 1];
    var c := Keys(l) - Keys(s);
    assert l == l[..|l| - 1] + [z];
    DropConcat(l[..|l| - 1], [z], c);
    assert Drop([z], c) == [z];
  }

  lemma ThinnedEvictBoth(s: seq<Entry>, l: seq<Entry>)
    requires Unique(s) && Unique(l) && Thinned(s, l) && s != [] && l != []
    ensures Thinned(Evict(s), Evict(l))
  {
    var z := l[|l| - 1].key;
    ThinnedEvictSmall(s, l);
    EvictIsDrop(l);
    ThinnedDrop(Evict(s), l, {z});
    assert Keys(Evict(s)) <= Keys(s);
    if z in Keys(s) {
      LastStaysLast(s, l);
      EvictIsDrop(s);
      DropMembers(s, {z});
    }
    DropAbsent(Evict(s), {z});
  }

  lemma IncludedGet(s: seq<Entry>, n: int, l: seq<Entry>, N: int, k: string, now: int)
    requires CapAtMost(n, N) && Included(s, n, l, N)
    ensures Included(Get(s, k, now).0, n, Get(l, k, now).0, N)
    ensures Get(s, k, now).1.Some? ==> Get(l, k, now).1 == Get(s, k, now).1
  {
    StepUnique(s, n, OpGet(k, now));
    StepUnique(l, N, OpGet(k, now));
    ThinnedLookup(s, l, k);
    FrontLength(s, k);
    FrontLength(l, k);
    ThinnedDrop(s, l, {k});
    DropMembers(l, {k});
    if k in Keys(l) {
      var e := Lookup(l, k).value;
      LookupMember(l, k);
      if k in Keys(s) {
        if !Expired(e, now) {
          ThinnedCons(e, Drop(s, {k}), Drop(l, {k}));
        }
      } else {
        DropAbsent(s, {k});
        ThinnedPromote(e, s, l);
      }
    }
  }

  lemma IncludedSet(s: seq<Entry>, n: int, l: seq<Entry>, N: int, k: string, v: string, ttl: int, now: int)
    requires CapAtMost(n, N) && Included(s, n, l, N)
    ensures Included(Set(s, n, k, v, ttl, now), n, Set(l, N, k, v, ttl, now), N)
  {
    var e := Stored(k, v, ttl, now);
    StepUnique(s, n, OpSet(k, v, ttl, now));
    StepUnique(l, N, OpSet(k, v, ttl, now));
    ThinnedLookup(s, l, k);
    FrontLength(s, k);
    FrontLength(l, k);
    DropMembers(l, {k});
    ThinnedDrop(s, l, {k});
    if k in Keys(s) {
      ThinnedCons(e, Drop(s, {k}), Drop(l, {k}));
    } else {
      DropAbsent(s, {k});
      var s' := if Full(s, n) then Evict(s) else s;
      if k in Keys(l) {
        if Full(s, n) {
          ThinnedEvictSmall(s, l);
        }
        assert Keys(s') <= Keys(s);
        DropAbsent(s', {k});
        ThinnedDrop(s', l, {k});
        ThinnedCons(e, s', Drop(l, {k}));
      } else if Full(l, N) {
        ThinnedEvictBoth(s, l);
        assert Keys(Evict(l)) <= Keys(l);
        ThinnedCons(e, Evict(s), Evict(l));
      } else {
        if Full(s, n) {
          ThinnedEvictSmall(s, l);
        }
        ThinnedCons(e, s', l);
      }
    }
  }

  /** Sizes after dropping the same keys from both. */
  lemma IncludedDrop(s: seq<Entry>, n: int, l: seq<Entry>, N: int, a: set<string>, b: set<string>)
    requires Included(s, n, l, N)
    requires a <= Keys(s) && b <= Keys(l) && a == b * Keys(s)
    ensures Included(Drop(s, a), n, Drop(l, b), N)
  {
    ThinnedLookup(s, l, "");
    DropDrop(s, a, b);
    DropMembers(s, a);
    assert (a + b) * Keys(s) == a;
    assert Drop(s, a) == Drop(s, b) by {
      DropDrop(s, a, b - a);
      assert a + (b - a) == b;
      DropAbsent(Drop(s, a), b - a);
    }
    ThinnedDrop(s, l, b);
    DropUnique(s, a);
    DropUnique(l, b);
    DropLength(s, a);
    DropLength(l, b);
    assert |a| <= |b| by { assert b == a + (b - a); }
  }

  lemma DropLength(s: seq<Entry>, a: set<string>)
    requires Unique(s) && a <= Keys(s)
    ensures |Drop(s, a)| == |s| - |a|
  {
    DropUnique(s, a);
    DropMembers(s, a);
    UniqueLength(s);
    UniqueLength(Drop(s, a));
    assert |Keys(s) - a| == |Keys(s)| - |a|;
  }

  lemma IncludedStep(s: seq<Entry>, n: int, l: seq<Entry>, N: int, op: Op)
    requires CapAtMost(n, N) && Included(s, n, l, N)
    ensures Included(Step(s, n, op), n, Step(l, N, op), N)
  {
    match op
    case OpGet(k, now) => IncludedGet(s, n, l, N, k, now);
    case OpSet(k, v, ttl, now) => IncludedSet(s, n, l, N, k, v, ttl, now);
    case OpDelete(k) =>
      var a, b := {k} * Keys(s), {k} * Keys(l);
      ThinnedLookup(s, l, k);
      IncludedDrop(s, n, l, N, a, b);
      DropPresent(s, k);
      DropPresent(l, k);
    case OpSweep(now) =>
      var a, b := ExpiredKeys(s, now), ExpiredKeys(l, now);
      ThinnedExpired(s, l, now);
      IncludedDrop(s, n, l, N, a, b);
  }

  lemma DropPresent(s: seq<Entry>, k: string)
    ensures Drop(s, {k} * Keys(s)) == Drop(s, {k})
  {
    if k in Keys(s) {
      assert {k} * Keys(s) == {k};
    } else {
      assert {k} * Keys(s) == {};
      DropAbsent(s, {k});
      DropAbsent(s, {});
    }
  }

  lemma ThinnedExpired(s: seq<Entry>, l: seq<Entry>, now: int)
    requires Unique(s) && Unique(l) && Thinned(s, l)
    ensures ExpiredKeys(s, now) == ExpiredKeys(l, now) * Keys(s)
  {
    DropMembers(l, Keys(l) - Keys(s));
    forall k | k in ExpiredKeys(l, now) && k in Keys(s) ensures k in ExpiredKeys(s, now) {
      var e :| e in l && Expired(e, now) && e.key == k;
      assert e in s;
    }
  }

  /**
   The inclusion law: under the same trace and clock readings the smaller cache is the
   larger one with keys left out.
   */
  lemma {:induction false} SmallerCacheIncluded(n: int, N: int, ops: seq<Op>, t: nat)
    requires CapAtMost(n, N) && t <= |ops|
    ensures Included(Run(n, ops, t), n, Run(N, ops, t), N)
  {
    if t > 0 {
      SmallerCacheIncluded(n, N, ops, t - 1);
      IncludedStep(Run(n, ops, t - 1), n, Run(N, ops, t - 1), N, ops[t - 1]);
    }
  }

  /** Every hit at the smaller capacity is the same hit at the larger one. */
  lemma SmallerCacheHits(n: int, N: int, ops: seq<Op>, i: nat)
    requires CapAtMost(n, N) && i < |ops| && ops[i].OpGet?
    requires Answer(n, ops, i).Some?
    ensures Answer(N, ops, i) == Answer(n, ops, i)
  {
    SmallerCacheIncluded(n, N, ops, i);
    IncludedGet(Run(n, ops, i), n, Run(N, ops, i), N, ops[i].key, ops[i].now);
  }

  // ---- Agreement with a plain TTL map ----

  /** The entry that a map with no eviction and no removal of expired entries would hold. */
  function LastWrite(ops: seq<Op>, t: nat, k: string): Option<Entry>
    requires t <= |ops|
  {
    if t == 0 then None
    else
      var op := ops[t - 1];
      if op.OpSet? && op.key == k then Some(Stored(k, op.value, op.ttl, op.now))
      else if op.OpDelete? && op.key == k then None
      else LastWrite(ops, t - 1, k)
  }

  /** What a plain TTL map answers to the lookup at position `i`. */
  function TtlMapAnswer(ops: seq<Op>, i: nat): Option<string>
    requires i < |ops| && ops[i].OpGet?
  {
    match LastWrite(ops, i, ops[i].key)
    case None => None
    case Some(e) => if Expired(e, ops[i].now) then None else Some(e.value)
  }

  /** Lookups read the clock no earlier than the lookups and sweeps before them. */
  ghost predicate ReadingsOrdered(ops: seq<Op>) {
    forall i, j :: 0 <= i < j < |ops| && (ops[i].OpGet? || ops[i].OpSweep?) && ops[j].OpGet? ==>
      ops[i].now <= ops[j].now
  }

  /** Some lookup or sweep among the first `t` operations already saw `e` expired. */
  ghost predicate SeenExpired(ops: seq<Op>, t: nat, e: Entry)
    requires t <= |ops|
  {
    exists i :: 0 <= i < t && (ops[i].OpGet? || ops[i].OpSweep?) && Expired(e, ops[i].now)
  }

  /** What is held for `k` after `t` operations is the last write of `k`. */
  ghost predicate HoldsLastWrite(cap: int, ops: seq<Op>, t: nat, k: string)
    requires t <= |ops|
  {
    Lookup(Run(cap, ops, t), k).Some? ==> Lookup(Run(cap, ops, t), k) == LastWrite(ops, t, k)
  }

  lemma HeldNext(cap: int, ops: seq<Op>, t: nat, k: string)
    requires t < |ops| && HoldsLastWrite(cap, ops, t, k)
    ensures HoldsLastWrite(cap, ops, t + 1, k)
  {
    ReachableWellFormed(cap, ops, t);
    StepLookup(Run(cap, ops, t), cap, ops[t], k);
  }

  lemma {:induction false} HeldIsLastWrite(cap: int, ops: seq<Op>, t: nat, k: string)
    requires t <= |ops|
    ensures HoldsLastWrite(cap, ops, t, k)
  {
    if t > 0 {
      HeldIsLastWrite(cap, ops, t - 1, k);
      HeldNext(cap, ops, t - 1, k);
    }
  }

  /** What one operation does to the entry held for `k`. */
  lemma StepLookup(s: seq<Entry>, cap: int, op: Op, k: string)
    requires Unique(s)
    ensures op.OpSet? && op.key == k ==>
      Lookup(Step(s, cap, op), k) == Some(Stored(k, op.value, op.ttl, op.now))
    ensures op.OpDelete? && op.key == k ==> Lookup(Step(s, cap, op), k) == None
    ensures !((op.OpSet? || op.OpDelete?) && op.key == k) ==>
      || Lookup(Step(s, cap, op), k) == Lookup(s, k)
      || (Lookup(Step(s, cap, op), k) == None && Lookup(s, k).Some? &&
          (|| (op.OpGet? && op.key == k && Expired(Lookup(s, k).value, op.now))
           || (op.OpSweep? && Expired(Lookup(s, k).value, op.now))
           || (op.OpSet? && Full(s, cap) && op.key !in Keys(s) && s[|s| - 1].key == k)))
  {
    match op
    case OpGet(g, now) =>
      LookupMember(s, g);
      LookupDrop(s, {g}, k);
      if Lookup(s, g).Some? {
        var e := Lookup(s, g).value;
        assert ([e] + Drop(s, {g}))[1..] == Drop(s, {g});
      }
    case OpSet(g, v, ttl, now) =>
      var e := Stored(g, v, ttl, now);
      LookupDrop(s, {g}, k);
      assert ([e] + Drop(s, {g}))[1..] == Drop(s, {g});
      assert ([e] + s)[1..] == s;
      if Full(s, cap) {
        EvictIsDrop(s);
        LookupDrop(s, {s[|s| - 1].key}, k);
        LookupMember(s, k);
        assert s[|s| - 1].key in Keys(s);
        assert ([e] + Evict(s))[1..] == Evict(s);
      }
    case OpDelete(g) =>
      LookupDrop(s, {g}, k);
    case OpSweep(now) =>
      var ks := ExpiredKeys(s, now);
      LookupDrop(s, ks, k);
      LookupMember(s, k);
      if k in ks {
        var d :| d in s && Expired(d, now) && d.key == k;
        LookupUnique(s, d);
      }
  }

  /** Whatever its capacity, the cache never answers anything a TTL map would not. */
  lemma HitsAgreeWithTtlMap(cap: int, ops: seq<Op>, i: nat)
    requires i < |ops| && ops[i].OpGet?
    requires Answer(cap, ops, i).Some?
    ensures Answer(cap, ops, i) == TtlMapAnswer(ops, i)
  {
    HeldIsLastWrite(cap, ops, i, ops[i].key);
  }

  lemma {:induction false} UnlimitedHoldsLastWrite(cap: int, ops: seq<Op>, t: nat, k: string)
    requires cap <= 0 && t <= |ops|
    requires LastWrite(ops, t, k).Some? && !SeenExpired(ops, t, LastWrite(ops, t, k).value)
    ensures Lookup(Run(cap, ops, t), k) == LastWrite(ops, t, k)
  {
    var op := ops[t - 1];
    ReachableWellFormed(cap, ops, t - 1);
    StepLookup(Run(cap, ops, t - 1), cap, op, k);
    if !((op.OpSet? || op.OpDelete?) && op.key == k) {
      UnlimitedHoldsLastWrite(cap, ops, t - 1, k);
    }
  }

  /** Without a cap the cache is observationally a TTL map: lazy removal is invisible. */
  lemma UnlimitedIsTtlMap(cap: int, ops: seq<Op>, i: nat)
    requires cap <= 0 && i < |ops| && ops[i].OpGet? && ReadingsOrdered(ops)
    ensures Answer(cap, ops, i) == TtlMapAnswer(ops, i)
  {
    var k := ops[i].key;
    HeldIsLastWrite(cap, ops, i, k);
    if LastWrite(ops, i, k).Some? && !SeenExpired(ops, i, LastWrite(ops, i, k).value) {
      UnlimitedHoldsLastWrite(cap, ops, i, k);
    }
  }

  // ---- LRU retention ----

  /** The entries used more recently than `k`. */
  function Ahead(s: seq<Entry>, k: string): seq<Entry> {
    if s == [] || s[0].key == k then [] else [s[0]] + Ahead(s[1..], k)
  }

  /** The key an operation inserts or promotes, given the state it meets. */
  function Touch(s: seq<Entry>, op: Op): set<string> {
    match op
    case OpSet(k, _, _, _) => {k}
    case OpGet(k, now) => if Get(s, k, now).1.Some? then {k} else {}
    case _ => {}
  }

  /** The keys inserted or promoted by the operations at positions `from` up to `upto`. */
  function Touched(cap: int, ops: seq<Op>, from: nat, upto: nat): set<string>
    requires from <= upto <= |ops|
  {
    if from == upto then {}
    else Touched(cap, ops, from, upto - 1) + Touch(Run(cap, ops, upto - 1), ops[upto - 1])
  }

  /** Operation `t` neither overwrites nor deletes the entry `e`, nor finds it expired. */
  ghost predicate UndisturbedAt(ops: seq<Op>, e: Entry, t: nat)
    requires t < |ops|
  {
    && !((ops[t].OpSet? || ops[t].OpDelete?) && ops[t].key == e.key)
    && ((ops[t].OpGet? && ops[t].key == e.key) || ops[t].OpSweep? ==> !Expired(e, ops[t].now))
  }

  ghost predicate Undisturbed(ops: seq<Op>, e: Entry, from: nat, upto: nat)
    requires from <= upto <= |ops|
  {
    forall t :: from <= t < upto ==> UndisturbedAt(ops, e, t)
  }

  lemma {:induction false} AheadDrop(s: seq<Entry>, k: string, a: set<string>)
    requires k !in a
    ensures Ahead(Drop(s, a), k) == Drop(Ahead(s, k), a)
  {
    if s != [] {
      AheadDrop(s[1..], k, a);
      if s[0].key !in a {
        assert Drop(s, a)[1..] == Drop(s[1..], a);
      }
      if s[0].key != k {
        assert Ahead(s, k)[1..] == Ahead(s[1..], k);
      }
    }
  }

  lemma AheadCons(e: Entry, s: seq<Entry>, k: string)
    ensures Ahead([e] + s, k) == if e.key == k then [] else [e] + Ahead(s, k)
  {
    assert ([e] + s)[1..] == s;
  }

  /** If `k` is last, everything else is ahead of it. */
  lemma {:induction false} AheadOfLast(s: seq<Entry>, k: string)
    requires Unique(s) && s != [] && s[|s| - 1].key == k
    ensures Ahead(s, k) == s[..|s| - 1]
  {
    if |s| > 1 {
      assert s[0].key != k;
      AheadOfLast(s[1..], k);
      assert s[..|s| - 1] == [s[0]] + s[1..][..|s[1..]| - 1];
    }
  }

  /** `e` is held for its key and every key used more recently is among `touched`. */
  ghost predicate Holds(s: seq<Entry>, e: Entry, touched: set<string>) {
    && Unique(s)
    && Lookup(s, e.key) == Some(e)
    && Keys(Ahead(s, e.key)) <= touched - {e.key}
  }

  lemma HoldsDrop(s: seq<Entry>, e: Entry, touched: set<string>, a: set<string>)
    requires Holds(s, e, touched) && e.key !in a
    ensures Holds(Drop(s, a), e, touched)
  {
    DropUnique(s, a);
    LookupDrop(s, a, e.key);
    AheadDrop(s, e.key, a);
    DropMembers(Ahead(s, e.key), a);
  }

  lemma HoldsCons(d: Entry, s: seq<Entry>, e: Entry, touched: set<string>)
    requires Holds(s, e, touched) && d.key !in Keys(s) && d.key != e.key
    ensures Holds([d] + s, e, touched + {d.key})
  {
    UniqueCons(d, s);
    AheadCons(d, s, e.key);
    KeysCons(d, Ahead(s, e.key));
    assert ([d] + s)[1..] == s;
  }

  lemma RetainGet(s: seq<Entry>, g: string, now: int, e: Entry, touched: set<string>)
    requires Holds(s, e, touched)
    requires g == e.key ==> !Expired(e, now)
    ensures Holds(Get(s, g, now).0, e, touched + Touch(s, OpGet(g, now)))
  {
    LookupMember(s, g);
    DropMembers(s, {g});
    if Lookup(s, g).Some? {
      var d := Lookup(s, g).value;
      if g == e.key {
        StepUnique(s, 0, OpGet(g, now));
        AheadCons(e, Drop(s, {g}), g);
      } else {
        HoldsDrop(s, e, touched, {g});
        if !Expired(d, now) {
          HoldsCons(d, Drop(s, {g}), e, touched);
        }
      }
    }
  }

  lemma RetainSet(s: seq<Entry>, cap: int, g: string, v: string, ttl: int, now: int, e: Entry, touched: set<string>)
    requires Holds(s, e, touched) && g != e.key
    requires cap > 0 ==> |(touched + {g}) - {e.key}| < cap
    ensures Holds(Set(s, cap, g, v, ttl, now), e, touched + {g})
  {
    var d := Stored(g, v, ttl, now);
    if g in Keys(s) {
      HoldsDrop(s, e, touched, {g});
      DropMembers(s, {g});
      HoldsCons(d, Drop(s, {g}), e, touched);
    } else if Full(s, cap) {
      var z := s[|s| - 1].key;
      assert z != e.key by {
        if z == e.key {
          LastIsCrowdedOut(s, cap, g, z, touched);
        }
      }
      EvictIsDrop(s);
      HoldsDrop(s, e, touched, {z});
      DropMembers(s, {z});
      HoldsCons(d, Evict(s), e, touched);
    } else {
      HoldsCons(d, s, e, touched);
    }
  }

  /** One undisturbing operation keeps the entry unless the touched keys fill the cache. */
  lemma RetainStep(s: seq<Entry>, cap: int, op: Op, e: Entry, touched: set<string>)
    requires Holds(s, e, touched)
    requires !((op.OpSet? || op.OpDelete?) && op.key == e.key)
    requires (op.OpGet? && op.key == e.key) || op.OpSweep? ==> !Expired(e, op.now)
    requires cap > 0 ==> |(touched + Touch(s, op)) - {e.key}| < cap
    ensures Holds(Step(s, cap, op), e, touched + Touch(s, op))
  {
    match op
    case OpGet(g, now) => RetainGet(s, g, now, e, touched);
    case OpSet(g, v, ttl, now) => RetainSet(s, cap, g, v, ttl, now, e, touched);
    case OpDelete(g) => HoldsDrop(s, e, touched, {g});
    case OpSweep(now) =>
      var ks := ExpiredKeys(s, now);
      LookupMember(s, e.key);
      forall d | d in s && d.key == e.key ensures d == e {
        LookupUnique(s, d);
      }
      HoldsDrop(s, e, touched, ks);
  }

  /** If the victim of an eviction is `k`, at least `cap` other keys have been touched. */
  lemma LastIsCrowdedOut(s: seq<Entry>, cap: int, g: string, k: string, touched: set<string>)
    requires Unique(s) && Full(s, cap) && s[|s| - 1].key == k && g !in Keys(s)
    requires Keys(Ahead(s, k)) <= touched - {k}
    ensures |(touched + {g}) - {k}| >= cap
  {
    AheadOfLast(s, k);
    var rest := s[..|s| - 1];
    assert Unique(rest);
    UniqueLength(rest);
    assert Keys(rest) <= Keys(s);
    assert s[|s| - 1] in s;
    var all := Keys(rest) + {g};
    assert |all| == |s|;
    var others := (touched + {g}) - {k};
    assert all <= others;
    assert others == all + (others - all);
  }

  /** Fewer than `cap` keys other than `k` are among `touched`. */
  ghost predicate Room(cap: int, touched: set<string>, k: string) {
    cap > 0 ==> |touched - {k}| < cap
  }

  lemma RoomForFewer(cap: int, a: set<string>, b: set<string>, k: string)
    requires a <= b && Room(cap, b, k)
    ensures Room(cap, a, k)
  {
    assert b - {k} == (a - {k}) + (b - a - {k});
  }

  lemma {:induction false} TouchedGrows(cap: int, ops: seq<Op>, from: nat, t: nat, upto: nat)
    requires from <= t <= upto <= |ops|
    ensures Touched(cap, ops, from, t) <= Touched(cap, ops, from, upto)
    decreases upto
  {
    if t < upto {
      TouchedGrows(cap, ops, from, t, upto - 1);
    }
  }

  /** After `t` operations `e` is held, and only keys touched since `from` are ahead of it. */
  ghost predicate HoldsAt(cap: int, ops: seq<Op>, e: Entry, from: nat, t: nat)
    requires from <= t <= |ops|
  {
    Holds(Run(cap, ops, t), e, Touched(cap, ops, from, t))
  }

  /** Everything touched from `from` up to `t` is among `all`. */
  ghost predicate TouchedWithin(cap: int, ops: seq<Op>, from: nat, t: nat, all: set<string>)
    requires from <= t <= |ops|
  {
    Touched(cap, ops, from, t) <= all
  }

  lemma RetainAt(cap: int, ops: seq<Op>, e: Entry, from: nat, t: nat, all: set<string>)
    requires from <= t < |ops| && HoldsAt(cap, ops, e, from, t) && UndisturbedAt(ops, e, t)
    requires TouchedWithin(cap, ops, from, t + 1, all) && Room(cap, all, e.key)
    ensures HoldsAt(cap, ops, e, from, t + 1)
  {
    RoomForFewer(cap, Touched(cap, ops, from, t + 1), all, e.key);
    RetainStep(Run(cap, ops, t), cap, ops[t], e, Touched(cap, ops, from, t));
  }

  lemma {:induction false} Retained(cap: int, ops: seq<Op>, e: Entry, from: nat, t: nat, upto: nat, all: set<string>)
    requires from <= t <= upto <= |ops| && HoldsAt(cap, ops, e, from, t)
    requires Undisturbed(ops, e, from, upto) && Room(cap, all, e.key)
    requires forall u :: from <= u <= upto ==> TouchedWithin(cap, ops, from, u, all)
    ensures HoldsAt(cap, ops, e, from, upto)
    decreases upto - t
  {
    if t < upto {
      assert UndisturbedAt(ops, e, t) && TouchedWithin(cap, ops, from, t + 1, all);
      RetainAt(cap, ops, e, from, t, all);
      Retained(cap, ops, e, from, t + 1, upto, all);
    }
  }

  /** `e` is at the front after `t` operations. */
  ghost predicate FrontAt(cap: int, ops: seq<Op>, t: nat, e: Entry)
    requires t <= |ops|
  {
    var s := Run(cap, ops, t);
    s != [] && s[0] == e
  }

  /** Operation `i` sets or looks up the key of `e` and leaves `e` at the front: it was stored or hit. */
  ghost predicate Refreshes(cap: int, ops: seq<Op>, i: nat, e: Entry)
    requires i < |ops|
  {
    (ops[i].OpSet? || ops[i].OpGet?) && ops[i].key == e.key && FrontAt(cap, ops, i + 1, e)
  }

  /** In terms of the operation: a set stores `e`, or a lookup hits it. */
  lemma RefreshesExact(cap: int, ops: seq<Op>, i: nat, e: Entry)
    requires i < |ops|
    ensures Refreshes(cap, ops, i, e) <==>
      match ops[i]
      case OpSet(k, v, ttl, now) => e == Stored(k, v, ttl, now)
      case OpGet(k, now) => Lookup(Run(cap, ops, i), k) == Some(e) && Answer(cap, ops, i).Some?
      case _ => false
  {
    var s := Run(cap, ops, i);
    if ops[i].OpGet? {
      var k := ops[i].key;
      LookupMember(s, k);
      LookupMember(Drop(s, {k}), k);
      LookupDrop(s, {k}, k);
    }
  }

  lemma FrontIsHeld(cap: int, ops: seq<Op>, t: nat, e: Entry)
    requires t <= |ops| && FrontAt(cap, ops, t, e)
    ensures HoldsAt(cap, ops, e, t, t)
  {
    ReachableWellFormed(cap, ops, t);
  }

  /** Fewer than `cap` keys other than `k` were inserted or promoted from `from` up to `t`. */
  ghost predicate RoomSince(cap: int, ops: seq<Op>, from: nat, t: nat, k: string)
    requires from <= t <= |ops|
  {
    Room(cap, Touched(cap, ops, from, t), k)
  }

  /** The lookup at `j` is a hit on `e`. */
  ghost predicate Hits(cap: int, ops: seq<Op>, j: nat, e: Entry)
    requires j < |ops| && ops[j].OpGet?
  {
    Answer(cap, ops, j) == Some(e.value)
  }

  lemma FirstIsRetained(cap: int, ops: seq<Op>, from: nat, j: nat, e: Entry)
    requires from <= j < |ops| && FrontAt(cap, ops, from, e)
    requires Undisturbed(ops, e, from, j)
    requires ops[j].OpGet? && ops[j].key == e.key && !Expired(e, ops[j].now)
    requires RoomSince(cap, ops, from, j, e.key)
    ensures Hits(cap, ops, j, e)
  {
    var all := Touched(cap, ops, from, j);
    forall u | from <= u <= j ensures TouchedWithin(cap, ops, from, u, all) {
      TouchedGrows(cap, ops, from, u, j);
    }
    FrontIsHeld(cap, ops, from, e);
    Retained(cap, ops, e, from, from, j, all);
    assert HoldsAt(cap, ops, e, from, j);
  }

  /**
   LRU retention: once set or hit, a key stays a hit with the same value until it is
   overwritten, deleted or expires, or `cap` distinct other keys have been inserted or
   promoted since.
   */
  lemma RecentlyUsedIsRetained(cap: int, ops: seq<Op>, i: nat, j: nat, e: Entry)
    requires i < j < |ops| && Refreshes(cap, ops, i, e)
    requires Undisturbed(ops, e, i + 1, j)
    requires ops[j].OpGet? && ops[j].key == e.key && !Expired(e, ops[j].now)
    requires RoomSince(cap, ops, i + 1, j, e.key)
    ensures Hits(cap, ops, j, e)
  {
    FirstIsRetained(cap, ops, i + 1, j, e);
  }

  // ---- The converse: exactly when a key is retained ----

  /** The operation removes nothing but by eviction: it deletes, sweeps and finds expired nothing. */
  ghost predicate EvictsOnly(s: seq<Entry>, op: Op) {
    match op
    case OpGet(g, now) => Lookup(s, g).Some? ==> !Expired(Lookup(s, g).value, now)
    case OpSet(_, _, _, _) => true
    case _ => false
  }

  /** The entries ahead of a held key are a proper prefix, and the key comes next. */
  lemma {:induction false} AheadIsPrefix(s: seq<Entry>, k: string)
    requires k in Keys(s)
    ensures var a := Ahead(s, k);
      |a| < |s| && a == s[..|a|] && s[|a|].key == k
  {
    if s[0].key != k {
      var t := s[1..];
      assert s == [s[0]] + t;
      KeysCons(s[0], t);
      AheadIsPrefix(t, k);
    }
  }

  lemma LastNotAhead(s: seq<Entry>, k: string)
    requires Unique(s) && k in Keys(s) && s[|s| - 1].key != k
    ensures s[|s| - 1].key !in Keys(Ahead(s, k))
  {
    AheadIsPrefix(s, k);
  }

  lemma AheadIsShorter(s: seq<Entry>, k: string)
    requires Unique(s) && k in Keys(s)
    ensures Unique(Ahead(s, k)) && |Ahead(s, k)| < |s| && k !in Keys(Ahead(s, k))
  {
    AheadIsPrefix(s, k);
  }

  /** Moving or adding another key to the front puts it ahead of `k`. */
  lemma AheadOfFront(d: Entry, s: seq<Entry>, k: string)
    requires d.key != k
    ensures Keys(Ahead([d] + Drop(s, {d.key}), k)) == {d.key} + Keys(Ahead(s, k))
    ensures Keys(Ahead([d] + s, k)) == {d.key} + Keys(Ahead(s, k))
  {
    AheadCons(d, s, k);
    AheadCons(d, Drop(s, {d.key}), k);
    AheadDrop(s, k, {d.key});
    DropMembers(Ahead(s, k), {d.key});
    KeysCons(d, Ahead(s, k));
    KeysCons(d, Drop(Ahead(s, k), {d.key}));
  }

  lemma EvictedStep(d: Entry, s: seq<Entry>, k: string)
    requires Unique(s) && s != [] && d.key != k && k in Keys([d] + Evict(s))
    ensures k in Keys(s) && Keys(Ahead([d] + Evict(s), k)) == {d.key} + Keys(Ahead(s, k))
  {
    var z := s[|s| - 1].key;
    EvictIsDrop(s);
    DropMembers(s, {z});
    KeysCons(d, Evict(s));
    LastNotAhead(s, k);
    AheadDrop(s, k, {z});
    DropAbsent(Ahead(s, k), {z});
    AheadCons(d, Evict(s), k);
    KeysCons(d, Ahead(s, k));
  }

  /** While `k` is held, what was ahead of it stays ahead and what is touched joins in. */
  lemma AheadGrows(s: seq<Entry>, cap: int, op: Op, k: string)
    requires Unique(s) && EvictsOnly(s, op) && op.key != k && k in Keys(Step(s, cap, op))
    ensures k in Keys(s) && Keys(Ahead(s, k)) + Touch(s, op) <= Keys(Ahead(Step(s, cap, op), k))
  {
    match op
    case OpGet(g, now) =>
      LookupMember(s, g);
      if Lookup(s, g).Some? {
        var d := Lookup(s, g).value;
        AheadOfFront(d, s, k);
        DropMembers(s, {g});
        KeysCons(d, Drop(s, {g}));
      }
    case OpSet(g, v, ttl, now) =>
      var d := Stored(g, v, ttl, now);
      AheadOfFront(d, s, k);
      if g in Keys(s) {
        DropMembers(s, {g});
        KeysCons(d, Drop(s, {g}));
      } else if Full(s, cap) {
        EvictedStep(d, s, k);
      } else {
        KeysCons(d, s);
      }
  }

  /** Operation `t` neither names `k` nor removes anything but by eviction. */
  ghost predicate QuietAt(cap: int, ops: seq<Op>, t: nat, k: string)
    requires t < |ops|
  {
    EvictsOnly(Run(cap, ops, t), ops[t]) && ops[t].key != k
  }

  ghost predicate Quiet(cap: int, ops: seq<Op>, from: nat, upto: nat, k: string)
    requires from <= upto <= |ops|
  {
    forall t :: from <= t < upto ==> QuietAt(cap, ops, t, k)
  }

  /** After `t` operations `k` is held behind everything touched since `from`. */
  ghost predicate BehindTouched(cap: int, ops: seq<Op>, from: nat, t: nat, k: string)
    requires from <= t <= |ops|
  {
    Touched(cap, ops, from, t) <= Keys(Ahead(Run(cap, ops, t), k))
  }

  lemma BehindTouchedNext(cap: int, ops: seq<Op>, from: nat, t: nat, k: string)
    requires from <= t < |ops| && QuietAt(cap, ops, t, k) && k in Keys(Run(cap, ops, t + 1))
    ensures k in Keys(Run(cap, ops, t))
    ensures BehindTouched(cap, ops, from, t, k) ==> BehindTouched(cap, ops, from, t + 1, k)
  {
    ReachableWellFormed(cap, ops, t);
    AheadGrows(Run(cap, ops, t), cap, ops[t], k);
  }

  lemma {:induction false} TouchedAreAhead(cap: int, ops: seq<Op>, from: nat, t: nat, k: string)
    requires from <= t <= |ops| && forall u :: from <= u < t ==> QuietAt(cap, ops, u, k)
    requires k in Keys(Run(cap, ops, t))
    ensures BehindTouched(cap, ops, from, t, k)
    decreases t
  {
    if from < t {
      BehindTouchedNext(cap, ops, from, t - 1, k);
      TouchedAreAhead(cap, ops, from, t - 1, k);
    }
  }

  lemma HeldLeavesRoom(cap: int, ops: seq<Op>, from: nat, t: nat, k: string)
    requires cap > 0 && from <= t <= |ops| && Quiet(cap, ops, from, t, k)
    requires k in Keys(Run(cap, ops, t))
    ensures |Touched(cap, ops, from, t) - {k}| < cap
  {
    var s := Run(cap, ops, t);
    ReachableWellFormed(cap, ops, t);
    TouchedAreAhead(cap, ops, from, t, k);
    AheadIsShorter(s, k);
    UniqueLength(Ahead(s, k));
    var others, ahead := Touched(cap, ops, from, t) - {k}, Keys(Ahead(s, k));
    assert ahead == others + (ahead - others);
  }

  lemma CrowdedOutMisses(cap: int, ops: seq<Op>, from: nat, j: nat)
    requires from <= j < |ops| && ops[j].OpGet?
    requires Quiet(cap, ops, from, j, ops[j].key)
    requires !RoomSince(cap, ops, from, j, ops[j].key)
    ensures Answer(cap, ops, j) == None
  {
    LookupMember(Run(cap, ops, j), ops[j].key);
    if ops[j].key in Keys(Run(cap, ops, j)) {
      HeldLeavesRoom(cap, ops, from, j, ops[j].key);
    }
  }

  lemma QuietIsUndisturbed(cap: int, ops: seq<Op>, e: Entry, from: nat, upto: nat)
    requires from <= upto <= |ops| && Quiet(cap, ops, from, upto, e.key)
    ensures Undisturbed(ops, e, from, upto)
  {
    forall t | from <= t < upto ensures UndisturbedAt(ops, e, t) {
      assert QuietAt(cap, ops, t, e.key);
    }
  }

  /** The lookup at `j` finds `e` exactly if fewer than `cap` other keys were touched since `from`. */
  ghost predicate HitIffRoom(cap: int, ops: seq<Op>, from: nat, j: nat, e: Entry)
    requires from <= j < |ops| && ops[j].OpGet?
  {
    if RoomSince(cap, ops, from, j, e.key) then Hits(cap, ops, j, e) else Answer(cap, ops, j) == None
  }

  /**
   The stack-distance law: over a stretch without deletes, sweeps and expired lookups, a key
   set or hit just before it is a hit at its end if and only if fewer than `cap` distinct
   other keys were inserted or promoted in between.
   */
  lemma RetainedIffRoom(cap: int, ops: seq<Op>, i: nat, j: nat, e: Entry)
    requires i < j < |ops| && Refreshes(cap, ops, i, e)
    requires Quiet(cap, ops, i + 1, j, e.key)
    requires ops[j].OpGet? && ops[j].key == e.key && !Expired(e, ops[j].now)
    ensures HitIffRoom(cap, ops, i + 1, j, e)
  {
    FirstRetainedIffRoom(cap, ops, i + 1, j, e);
  }

  lemma FirstRetainedIffRoom(cap: int, ops: seq<Op>, from: nat, j: nat, e: Entry)
    requires from <= j < |ops| && FrontAt(cap, ops, from, e)
    requires Quiet(cap, ops, from, j, e.key)
    requires ops[j].OpGet? && ops[j].key == e.key && !Expired(e, ops[j].now)
    ensures HitIffRoom(cap, ops, from, j, e)
  {
    if RoomSince(cap, ops, from, j, e.key) {
      QuietIsUndisturbed(cap, ops, e, from, j);
      FirstIsRetained(cap, ops, from, j, e);
    } else {
      CrowdedOutMisses(cap, ops, from, j);
    }
  }

  // ---- The recency list is sorted by last use ----

  /** The position of the last operation among the first `t` that inserted or promoted `k`, -1 if none. */
  function LastTouch(cap: int, ops: seq<Op>, t: nat, k: string): (r: int)
    requires t <= |ops|
    ensures r < t
  {
    if t == 0 then -1
    else if k in Touch(Run(cap, ops, t - 1), ops[t - 1]) then t - 1
    else LastTouch(cap, ops, t - 1, k)
  }

  /** Entries of `s` appear from the latest last use to the earliest. */
  ghost predicate ByRecency(cap: int, ops: seq<Op>, t: nat, s: seq<Entry>)
    requires t <= |ops|
  {
    s == [] ||
    (&& (forall e :: e in s[1..] ==> LastTouch(cap, ops, t, e.key) < LastTouch(cap, ops, t, s[0].key))
     && ByRecency(cap, ops, t, s[1..]))
  }

  lemma {:induction false} ByRecencyDrop(cap: int, ops: seq<Op>, t: nat, s: seq<Entry>, a: set<string>)
    requires t <= |ops| && ByRecency(cap, ops, t, s)
    ensures ByRecency(cap, ops, t, Drop(s, a))
    decreases |s|
  {
    if s != [] {
      ByRecencyDrop(cap, ops, t, s[1..], a);
      DropMembers(s[1..], a);
      if s[0].key !in a {
        assert Drop(s, a)[1..] == Drop(s[1..], a);
      }
    }
  }

  /** An operation changes the last use only of the key it touches. */
  lemma {:induction false} ByRecencyNext(cap: int, ops: seq<Op>, t: nat, s: seq<Entry>)
    requires t < |ops| && ByRecency(cap, ops, t, s)
    requires Touch(Run(cap, ops, t), ops[t]) !! Keys(s)
    ensures ByRecency(cap, ops, t + 1, s)
    decreases |s|
  {
    if s != [] {
      assert s[0] in s && forall e :: e in s[1..] ==> e in s;
      assert Keys(s[1..]) <= Keys(s);
      forall e | e in s ensures LastTouch(cap, ops, t + 1, e.key) == LastTouch(cap, ops, t, e.key) {
        assert e.key in Keys(s);
      }
      ByRecencyNext(cap, ops, t, s[1..]);
    }
  }

  lemma ByRecencyFront(cap: int, ops: seq<Op>, t: nat, e: Entry, s: seq<Entry>)
    requires t < |ops| && ByRecency(cap, ops, t, s) && e.key !in Keys(s)
    requires Touch(Run(cap, ops, t), ops[t]) == {e.key}
    ensures ByRecency(cap, ops, t + 1, [e] + s)
  {
    ByRecencyNext(cap, ops, t, s);
    assert ([e] + s)[1..] == s;
    forall d | d in s ensures LastTouch(cap, ops, t + 1, d.key) < t {
      assert d.key in Keys(s);
    }
  }

  /** In every reachable cache the list is in order of last use. */
  lemma {:induction false} ReachableByRecency(cap: int, ops: seq<Op>, t: nat)
    requires t <= |ops|
    ensures ByRecency(cap, ops, t, Run(cap, ops, t))
  {
    if t > 0 {
      ReachableByRecency(cap, ops, t - 1);
      ReachableWellFormed(cap, ops, t - 1);
      RecencyStep(cap, ops, t - 1);
    }
  }

  lemma RecencyStep(cap: int, ops: seq<Op>, t: nat)
    requires t < |ops| && ByRecency(cap, ops, t, Run(cap, ops, t)) && Unique(Run(cap, ops, t))
    ensures ByRecency(cap, ops, t + 1, Step(Run(cap, ops, t), cap, ops[t]))
  {
    var s := Run(cap, ops, t);
    match ops[t]
    case OpGet(k, now) =>
      LookupMember(s, k);
      DropMembers(s, {k});
      ByRecencyDrop(cap, ops, t, s, {k});
      if Get(s, k, now).1.Some? {
        ByRecencyFront(cap, ops, t, Lookup(s, k).value, Drop(s, {k}));
      } else {
        ByRecencyNext(cap, ops, t, Get(s, k, now).0);
      }
    case OpSet(k, v, ttl, now) =>
      var e := Stored(k, v, ttl, now);
      DropMembers(s, {k});
      ByRecencyDrop(cap, ops, t, s, {k});
      if k in Keys(s) {
        ByRecencyFront(cap, ops, t, e, Drop(s, {k}));
      } else if Full(s, cap) {
        EvictIsDrop(s);
        ByRecencyDrop(cap, ops, t, s, {s[|s| - 1].key});
        assert Keys(Evict(s)) <= Keys(s);
        ByRecencyFront(cap, ops, t, e, Evict(s));
      } else {
        ByRecencyFront(cap, ops, t, e, s);
      }
    case OpDelete(k) =>
      ByRecencyDrop(cap, ops, t, s, {k});
      ByRecencyNext(cap, ops, t, Drop(s, {k}));
    case OpSweep(now) =>
      ByRecencyDrop(cap, ops, t, s, ExpiredKeys(s, now));
      ByRecencyNext(cap, ops, t, Sweep(s, now));
  }

  lemma {:induction false} LastIsOldest(cap: int, ops: seq<Op>, t: nat, s: seq<Entry>, e: Entry)
    requires t <= |ops| && ByRecency(cap, ops, t, s) && e in s
    ensures LastTouch(cap, ops, t, s[|s| - 1].key) <= LastTouch(cap, ops, t, e.key)
    decreases |s|
  {
    if |s| > 1 {
      var r := s[1..];
      assert r[|r| - 1] == s[|s| - 1] && r[|r| - 1] in r;
      if e != s[0] {
        LastIsOldest(cap, ops, t, r, e);
      }
    }
  }

  /**
   The eviction law: inserting a new key into a full cache removes exactly one entry, the
   one whose last use is the earliest of all.
   */
  lemma VictimIsLeastRecentlyUsed(cap: int, ops: seq<Op>, t: nat) returns (victim: string)
    requires t < |ops| && ops[t].OpSet?
    requires Full(Run(cap, ops, t), cap) && ops[t].key !in Keys(Run(cap, ops, t))
    ensures victim in Keys(Run(cap, ops, t))
    ensures Keys(Run(cap, ops, t + 1)) == Keys(Run(cap, ops, t)) - {victim} + {ops[t].key}
    ensures forall k :: k in Keys(Run(cap, ops, t)) ==>
      LastTouch(cap, ops, t, victim) <= LastTouch(cap, ops, t, k)
  {
    var s := Run(cap, ops, t);
    ReachableByRecency(cap, ops, t);
    ReachableWellFormed(cap, ops, t);
    victim := s[|s| - 1].key;
    EvictIsDrop(s);
    DropMembers(s, {victim});
    KeysCons(Stored(ops[t].key, ops[t].value, ops[t].ttl, ops[t].now), Evict(s));
    forall e | e in s ensures LastTouch(cap, ops, t, victim) <= LastTouch(cap, ops, t, e.key) {
      LastIsOldest(cap, ops, t, s, e);
    }
  }
}
