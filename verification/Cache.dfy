/**
 The in-memory store: a map from keys to list elements plus the recency list, updated in
 place. Each method is proved to act on the recency list as the operation of `LruSpec`.
 */
module CacheStore {
  import opened Common
  import opened LruSpec

  /** A list element: the map and the list refer to the same object. */
  class Element {
    const key: string
    var value: string
    var expiry: Option<int>

    constructor (key: string, value: string, expiry: Option<int>)
      ensures this.key == key && this.value == value && this.expiry == expiry
    {
      this.key, this.value, this.expiry := key, value, expiry;
    }

    function Content(): Entry
      reads this
    {
      Entry(key, value, expiry)
    }
  }

  /** The entries held by a list of elements. */
  function Snapshot(l: seq<Element>): seq<Entry>
    reads l
  {
    if l == [] then [] else [l[0].Content()] + Snapshot(l[1..])
  }

  ghost predicate Distinct(l: seq<Element>) {
    l == [] || ((forall e :: e in l[1..] ==> e.key != l[0].key) && Distinct(l[1..]))
  }

  /** `items` finds every element of the list under its key, and nothing else. */
  ghost predicate Indexes(items: map<string, Element>, l: seq<Element>) {
    && (forall el :: el in l ==> el.key in items && items[el.key] == el)
    && (forall k :: k in items ==> items[k] in l && items[k].key == k)
  }

  function Without(l: seq<Element>, el: Element): (r: seq<Element>)
    ensures forall e :: e in r ==> e in l && e != el
    ensures forall e :: e in l && e != el ==> e in r
  {
    if l == [] then []
    else
      assert l == [l[0]] + l[1..];
      if l[0] == el then Without(l[1..], el) else [l[0]] + Without(l[1..], el)
  }

  lemma {:induction false} WithoutDistinct(l: seq<Element>, el: Element)
    requires Distinct(l)
    ensures Distinct(Without(l, el))
  {
    if l != [] {
      WithoutDistinct(l[1..], el);
      assert Without(l, el) == Without(l[1..], el) || Without(l, el)[1..] == Without(l[1..], el);
    }
  }

  lemma {:induction false} SnapshotWithout(l: seq<Element>, el: Element)
    requires Distinct(l) && el in l
    ensures Snapshot(Without(l, el)) == Drop(Snapshot(l), {el.key})
  {
    assert Snapshot(l)[1..] == Snapshot(l[1..]);
    if l[0] == el {
      SnapshotAbsent(l[1..], el);
    } else {
      assert el in l[1..];
      SnapshotWithout(l[1..], el);
      assert Without(l, el)[1..] == Without(l[1..], el);
      assert l[0].key != el.key;
    }
  }

  lemma {:induction false} SnapshotAbsent(l: seq<Element>, el: Element)
    requires forall e :: e in l ==> e.key != el.key
    ensures Without(l, el) == l
    ensures Drop(Snapshot(l), {el.key}) == Snapshot(l)
  {
    if l != [] {
      assert l[0] in l;
      SnapshotAbsent(l[1..], el);
      assert Snapshot(l)[1..] == Snapshot(l[1..]);
    }
  }

  lemma {:induction false} SnapshotUnique(l: seq<Element>)
    requires Distinct(l)
    ensures Unique(Snapshot(l)) && |Snapshot(l)| == |l|
    ensures forall k :: k in Keys(Snapshot(l)) ==> exists el :: el in l && el.key == k
  {
    if l != [] {
      var t := l[1..];
      SnapshotUnique(t);
      assert l == [l[0]] + t;
      UniqueCons(l[0].Content(), Snapshot(t));
      KeysCons(l[0].Content(), Snapshot(t));
    }
  }

  lemma {:induction false} SnapshotLookup(l: seq<Element>, el: Element)
    requires Distinct(l) && el in l
    ensures Lookup(Snapshot(l), el.key) == Some(el.Content())
  {
    assert Snapshot(l)[1..] == Snapshot(l[1..]);
    if l[0] != el {
      SnapshotLookup(l[1..], el);
    }
  }

  lemma {:induction false} SnapshotLast(l: seq<Element>)
    requires l != []
    ensures |Snapshot(l)| == |l| && Snapshot(l)[|l| - 1] == l[|l| - 1].Content()
  {
    if |l| > 1 {
      SnapshotLast(l[1..]);
    }
  }

  lemma SnapshotFacts(items: map<string, Element>, l: seq<Element>)
    requires Distinct(l) && Indexes(items, l)
    ensures Unique(Snapshot(l)) && |Snapshot(l)| == |l|
    ensures Keys(Snapshot(l)) == items.Keys
    ensures forall k :: k in items ==> Lookup(Snapshot(l), k) == Some(items[k].Content())
  {
    SnapshotUnique(l);
    forall k | k in items
      ensures k in Keys(Snapshot(l)) && Lookup(Snapshot(l), k) == Some(items[k].Content())
    {
      SnapshotLookup(l, items[k]);
      LookupMember(Snapshot(l), k);
    }
  }

  class Cache {
    var items: map<string, Element>
    var lru: seq<Element>
    const maxEntries: int

    ghost predicate Valid()
      reads this
    {
      Distinct(lru) && Indexes(items, lru)
    }

    /** The abstract cache this object stands for. */
    ghost function View(): seq<Entry>
      reads this, lru
    {
      Snapshot(lru)
    }

    constructor (maxEntries: int)
      ensures Valid() && View() == [] && this.maxEntries == maxEntries && lru == []
    {
      this.maxEntries := maxEntries;
      items := map[];
      lru := [];
    }

    /** Unlinks an element from the list and the map. */
    method RemoveElement(el: Element)
      requires Valid() && el in lru
      modifies this
      ensures Valid()
      ensures View() == Drop(old(View()), {el.key})
      ensures forall e :: e in lru <==> e in old(lru) && e != el
      ensures items == old(items) - {el.key}
    {
      SnapshotWithout(lru, el);
      WithoutDistinct(lru, el);
      lru := Without(lru, el);
      items := items - {el.key};
    }

    method MoveToFront(el: Element)
      requires Valid() && el in lru
      modifies this`lru
      ensures Valid()
      ensures lru == [el] + Without(old(lru), el)
      ensures View() == [el.Content()] + Drop(old(View()), {el.key})
    {
      SnapshotWithout(lru, el);
      WithoutDistinct(lru, el);
      ghost var rest := Without(lru, el);
      lru := [el] + Without(lru, el);
      assert lru[1..] == rest;
      assert forall e :: e in rest ==> e.key != el.key;
    }

    method Get(key: string, now: int) returns (value: Option<string>)
      requires Valid()
      modifies this
      ensures Valid()
      ensures (View(), value) == LruSpec.Get(old(View()), key, now)
      ensures forall e :: e in lru ==> e in old(lru)
    {
      SnapshotFacts(items, lru);
      LookupMember(View(), key);
      if key !in items {
        return None;
      }
      var el := items[key];
      if el.expiry.Some? && el.expiry.value < now {
        RemoveElement(el);
        return None;
      }
      MoveToFront(el);
      return Some(el.value);
    }

    method EvictLRU()
      requires Valid()
      modifies this
      ensures Valid()
      ensures View() == Evict(old(View()))
      ensures items.Keys <= old(items.Keys)
    {
      SnapshotFacts(items, lru);
      if lru != [] {
        SnapshotLast(lru);
        EvictIsDrop(View());
        RemoveElement(lru[|lru| - 1]);
      }
    }

    /** Links a new element at the front. */
    method PushFront(key: string, value: string, expiry: Option<int>)
      requires Valid() && key !in items
      modifies this
      ensures Valid()
      ensures View() == [Entry(key, value, expiry)] + old(View())
    {
      var el := new Element(key, value, expiry);
      ghost var rest := lru;
      lru := [el] + lru;
      items := items[key := el];
      assert lru[1..] == rest;
      assert forall e :: e in lru <==> e == el || e in rest;
    }

    /** Overwrites the element already linked for `el.key`. */
    method Overwrite(el: Element, value: string, expiry: Option<int>)
      requires Valid() && el in lru
      modifies this`lru, el
      ensures Valid()
      ensures View() == [Entry(el.key, value, expiry)] + Drop(old(View()), {el.key})
    {
      MoveToFront(el);
      ghost var rest := Without(old(lru), el);
      assert lru[1..] == rest;
      ghost var tail := Snapshot(rest);
      assert tail == Drop(old(View()), {el.key}) by {
        assert ([el.Content()] + tail)[1..] == tail;
        assert ([el.Content()] + Drop(old(View()), {el.key}))[1..] == Drop(old(View()), {el.key});
      }
      el.value, el.expiry := value, expiry;
      assert Snapshot(rest) == tail;
    }

    method Set(key: string, value: string, ttl: int, now: int)
      requires Valid()
      modifies this, lru
      ensures Valid()
      ensures View() == LruSpec.Set(old(View()), maxEntries, key, value, ttl, now)
    {
      SnapshotFacts(items, lru);
      var expiry := if ttl > 0 then Some(now + ttl) else None;
      if key in items {
        Overwrite(items[key], value, expiry);
        return;
      }
      if maxEntries > 0 && |lru| >= maxEntries {
        EvictLRU();
      }
      PushFront(key, value, expiry);
    }

    method Delete(key: string)
      requires Valid()
      modifies this
      ensures Valid()
      ensures View() == LruSpec.Delete(old(View()), key)
    {
      SnapshotFacts(items, lru);
      if key in items {
        RemoveElement(items[key]);
      } else {
        DropAbsent(View(), {key});
      }
    }

    method RemoveIfExpired(key: string, now: int)
      requires Valid() && key in items
      modifies this
      ensures Valid() && old(items.Keys) - {key} <= items.Keys
      ensures old(Lookup(View(), key)).Some?
      ensures View() == if Expired(old(Lookup(View(), key)).value, now)
                        then Drop(old(View()), {key}) else old(View())
    {
      SnapshotFacts(items, lru);
      var el := items[key];
      if el.expiry.Some? && el.expiry.value < now {
        RemoveElement(el);
      }
    }

    /** The sweep visits the map in an arbitrary order, removing elements as it goes. */
    method DeleteExpired(now: int)
      requires Valid()
      modifies this
      ensures Valid()
      ensures View() == Sweep(old(View()), now)
    {
      SnapshotFacts(items, lru);
      ghost var before := View();
      var todo := items.Keys;
      SweepStart(before, todo, now);
      while todo != {}
        invariant Valid() && todo <= items.Keys
        invariant View() == Unswept(before, todo, now)
        decreases todo
      {
        var k :| k in todo;
        SnapshotFacts(items, lru);
        SweepVisit(before, todo, k, now);
        RemoveIfExpired(k, now);
        todo := todo - {k};
      }
      SweepEnd(before, now);
    }

    method Size() returns (n: nat)
      requires Valid()
      ensures n == |View()| == |items|
    {
      SnapshotFacts(items, lru);
      UniqueLength(View());
      assert items.Keys == Keys(View());
      n := |lru|;
    }
  }

  /** The sweep's intermediate state: expired keys are gone unless still to be visited. */
  ghost function Unswept(before: seq<Entry>, todo: set<string>, now: int): seq<Entry> {
    Drop(before, ExpiredKeys(before, now) - todo)
  }

  lemma SweepStart(before: seq<Entry>, todo: set<string>, now: int)
    requires todo == Keys(before)
    ensures Unswept(before, todo, now) == before
  {
    assert ExpiredKeys(before, now) - todo == {};
    DropAbsent(before, {});
  }

  lemma SweepEnd(before: seq<Entry>, now: int)
    ensures Unswept(before, {}, now) == Sweep(before, now)
  {
    assert ExpiredKeys(before, now) - {} == ExpiredKeys(before, now);
  }

  lemma SweepVisit(before: seq<Entry>, todo: set<string>, k: string, now: int)
    requires Unique(before) && k in todo
    requires Lookup(Unswept(before, todo, now), k).Some?
    ensures var s := Unswept(before, todo, now);
      (if Expired(Lookup(s, k).value, now) then Drop(s, {k}) else s) == Unswept(before, todo - {k}, now)
  {
    var ks := ExpiredKeys(before, now);
    LookupDrop(before, ks - todo, k);
    LookupMember(before, k);
    forall e | e in before && e.key == k ensures e == Lookup(before, k).value {
      LookupUnique(before, e);
    }
    if k in ks {
      DropDrop(before, ks - todo, {k});
      assert ks - (todo - {k}) == ks - todo + {k};
    } else {
      assert ks - (todo - {k}) == ks - todo;
    }
  }
}
