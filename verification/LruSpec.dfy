/**
 The abstract cache: a sequence of entries with distinct keys, most recently used
 first. Removing an expired entry, deleting a key, sweeping and evicting all remove a
 set of keys, so a single filter, `Drop`, carries the algebra the theorems rest on.
 */
module LruSpec {
  import opened Common

  /** `expiry` is None for an entry that never expires. */
  datatype Entry = Entry(key: string, value: string, expiry: Option<int>)

  predicate Expired(e: Entry, now: int) {
    e.expiry.Some? && e.expiry.value < now
  }

  function Keys(s: seq<Entry>): set<string> {
    set e | e in s :: e.key
  }

  ghost predicate Unique(s: seq<Entry>) {
    forall i, j :: 0 <= i < j < |s| ==> s[i].key != s[j].key
  }

  /** The entries whose key is outside `ks`, in the same order. */
  function Drop(s: seq<Entry>, ks: set<string>): seq<Entry> {
    if s == [] then []
    else if s[0].key in ks then Drop(s[1..], ks)
    else [s[0]] + Drop(s[1..], ks)
  }

  function Lookup(s: seq<Entry>, k: string): Option<Entry> {
    if s == [] then None
    else if s[0].key == k then Some(s[0])
    else Lookup(s[1..], k)
  }

  function ExpiredKeys(s: seq<Entry>, now: int): set<string> {
    set e | e in s && Expired(e, now) :: e.key
  }

  // ---- Operations ----

  /** A live entry moves to the front; an expired one is removed. */
  function Get(s: seq<Entry>, k: string, now: int): (seq<Entry>, Option<string>) {
    match Lookup(s, k)
    case None => (s, None)
    case Some(e) =>
      if Expired(e, now) then (Drop(s, {k}), None)
      else ([e] + Drop(s, {k}), Some(e.value))
  }

  function Stored(k: string, v: string, ttl: int, now: int): Entry {
    Entry(k, v, if ttl > 0 then Some(now + ttl) else None)
  }

  /** `cap` is the limit when positive; otherwise the cache is unlimited. */
  predicate Full(s: seq<Entry>, cap: int) {
    cap > 0 && |s| >= cap
  }

  function Evict(s: seq<Entry>): seq<Entry> {
    if s == [] then [] else s[..|s| - 1]
  }

  function Set(s: seq<Entry>, cap: int, k: string, v: string, ttl: int, now: int): seq<Entry> {
    var e := Stored(k, v, ttl, now);
    if k in Keys(s) then [e] + Drop(s, {k})
    else if Full(s, cap) then [e] + Evict(s)
    else [e] + s
  }

  function Delete(s: seq<Entry>, k: string): seq<Entry> {
    Drop(s, {k})
  }

  function Sweep(s: seq<Entry>, now: int): seq<Entry> {
    Drop(s, ExpiredKeys(s, now))
  }

  // ---- Algebra of Drop ----

  lemma {:induction false} DropDrop(s: seq<Entry>, a: set<string>, b: set<string>)
    ensures Drop(Drop(s, a), b) == Drop(s, a + b)
  {
    if s != [] {
      DropDrop(s[1..], a, b);
      if s[0].key !in a {
        var t := Drop(s, a);
        assert t[1..] == Drop(s[1..], a);
      }
    }
  }

  lemma {:induction false} DropConcat(s: seq<Entry>, t: seq<Entry>, a: set<string>)
    ensures Drop(s + t, a) == Drop(s, a) + Drop(t, a)
  {
    if s == [] {
      assert s + t == t;
    } else {
      assert (s + t)[1..] == s[1..] + t;
      DropConcat(s[1..], t, a);
    }
  }

  lemma {:induction false} DropAbsent(s: seq<Entry>, a: set<string>)
    requires a !! Keys(s)
    ensures Drop(s, a) == s
  {
    if s != [] {
      assert s[0] in s;
      assert Keys(s[1..]) <= Keys(s);
      DropAbsent(s[1..], a);
    }
  }

  lemma {:induction false} DropMembers(s: seq<Entry>, a: set<string>)
    ensures forall e :: e in Drop(s, a) <==> e in s && e.key !in a
    ensures Keys(Drop(s, a)) == Keys(s) - a
    ensures |Drop(s, a)| <= |s|
  {
    if s != [] {
      DropMembers(s[1..], a);
      assert s == [s[0]] + s[1..];
    }
  }

  lemma {:induction false} DropUnique(s: seq<Entry>, a: set<string>)
    requires Unique(s)
    ensures Unique(Drop(s, a))
  {
    if s != [] {
      var t := s[1..];
      DropUnique(t, a);
      DropMembers(t, a);
      forall e | e in Drop(t, a) ensures e.key != s[0].key {
        assert e in t;
      }
    }
  }

  lemma {:induction false} LookupDrop(s: seq<Entry>, a: set<string>, k: string)
    ensures Lookup(Drop(s, a), k) == if k in a then None else Lookup(s, k)
  {
    if s != [] {
      LookupDrop(s[1..], a, k);
      if s[0].key !in a {
        assert Drop(s, a)[1..] == Drop(s[1..], a);
      }
    }
  }

  lemma {:induction false} LookupMember(s: seq<Entry>, k: string)
    ensures Lookup(s, k).Some? <==> k in Keys(s)
    ensures Lookup(s, k).Some? ==> Lookup(s, k).value in s && Lookup(s, k).value.key == k
  {
    if s != [] {
      LookupMember(s[1..], k);
      assert s == [s[0]] + s[1..];
    }
  }

  lemma {:induction false} LookupUnique(s: seq<Entry>, e: Entry)
    requires Unique(s) && e in s
    ensures Lookup(s, e.key) == Some(e)
  {
    if s[0] != e {
      assert e in s[1..];
      LookupUnique(s[1..], e);
    }
  }

  lemma KeysCons(e: Entry, s: seq<Entry>)
    ensures Keys([e] + s) == {e.key} + Keys(s)
  {
    assert forall x :: x in [e] + s <==> x == e || x in s;
  }

  lemma UniqueCons(e: Entry, s: seq<Entry>)
    requires Unique(s) && e.key !in Keys(s)
    ensures Unique([e] + s)
  {
    forall i, j | 0 <= i < j < |[e] + s| ensures ([e] + s)[i].key != ([e] + s)[j].key {
      assert ([e] + s)[j] == s[j - 1];
      assert s[j - 1].key in Keys(s);
    }
  }

  lemma {:induction false} UniqueLength(s: seq<Entry>)
    requires Unique(s)
    ensures |s| == |Keys(s)|
  {
    if s != [] {
      var t := s[1..];
      UniqueLength(t);
      assert s == [s[0]] + t;
      KeysCons(s[0], t);
      assert s[0].key !in Keys(t);
    }
  }

  /** Evicting drops exactly the key of the last entry. */
  lemma {:induction false} EvictIsDrop(s: seq<Entry>)
    requires Unique(s) && s != []
    ensures Evict(s) == Drop(s, {s[|s| - 1].key})
  {
    if |s| > 1 {
      var t := s[1..];
      EvictIsDrop(t);
      assert s[0].key != s[|s| - 1].key;
      assert s[..|s| - 1] == [s[0]] + t[..|t| - 1];
    }
  }

  /** A sweep removes exactly the entries whose expiry has passed. */
  lemma SweepExact(s: seq<Entry>, now: int)
    requires Unique(s)
    ensures forall e :: e in Sweep(s, now) <==> e in s && !Expired(e, now)
    ensures Unique(Sweep(s, now))
  {
    var ks := ExpiredKeys(s, now);
    DropMembers(s, ks);
    DropUnique(s, ks);
    forall e | e in s && e.key in ks ensures Expired(e, now) {
      var d :| d in s && Expired(d, now) && d.key == e.key;
      LookupUnique(s, d);
      LookupUnique(s, e);
    }
  }

  /** The entry may be served at time `now`: it never expires, or its expiry has not passed. */
  predicate Live(e: Entry, now: int) {
    e.expiry.None? || now <= e.expiry.value
  }

  /**
   A lookup answers exactly what is held live for its key, and takes nothing out of the
   cache but an entry of its key that has expired.
   */
  lemma GetExact(s: seq<Entry>, k: string, now: int)
    requires Unique(s)
    ensures forall v :: Get(s, k, now).1 == Some(v) <==> exists e :: e in s && e.key == k && e.value == v && Live(e, now)
    ensures forall e :: e in Get(s, k, now).0 <==> e in s && (e.key == k ==> Live(e, now))
  {
    LookupMember(s, k);
    DropMembers(s, {k});
    forall e | e in s && e.key == k ensures Lookup(s, k) == Some(e) {
      LookupUnique(s, e);
    }
  }

  /** What was just set is found for exactly as long as its time to live says, and for ever without one. */
  lemma SetThenGet(s: seq<Entry>, cap: int, k: string, v: string, ttl: int, at: int, now: int)
    ensures Get(Set(s, cap, k, v, ttl, at), k, now).1 == if ttl <= 0 || now <= at + ttl then Some(v) else None
  {
    assert Set(s, cap, k, v, ttl, at)[0].key == k;
  }

  /** Setting a key leaves every other entry alone but the one at the back of a full cache. */
  lemma SetExact(s: seq<Entry>, cap: int, k: string, v: string, ttl: int, at: int)
    requires Unique(s)
    ensures forall e :: e in Set(s, cap, k, v, ttl, at) && e.key != k ==> e in s
    ensures forall e :: e in s && e.key != k && e !in Set(s, cap, k, v, ttl, at) ==>
      cap > 0 && |s| >= cap && k !in Keys(s) && e == s[|s| - 1]
  {
    DropMembers(s, {k});
    if s != [] {
      EvictIsDrop(s);
      DropMembers(s, {s[|s| - 1].key});
      forall e | e in s && e.key == s[|s| - 1].key ensures e == s[|s| - 1] {
        LookupUnique(s, e);
        LookupUnique(s, s[|s| - 1]);
      }
    }
  }
}
