/** The client's attribute cache: bounded, expiring, over the hash table. */
module AttrCaches {
  import opened Options
  import opened Bits
  import opened HashChains
  import opened HashArrays
  import opened HashOrder
  import opened HashTables
  import opened HashScans

  datatype Entry<+S> = Entry(stat: S, created: int)

  datatype Item<+K, +S> = Item(path: K, entry: Entry<S>)

  const ATTRCACHE_DEFAULT_BATCH_SIZE := 50

  // ---------------------------------------------------------------- eviction on values

  /** `AttrCache_entry_is_deprecated` */
  predicate Expired<S>(e: Entry<S>, maxAge: nat, now: int) {
    e.created + maxAge < now
  }

  /** An unexpired entry for the path is among the entries. */
  predicate Held<K, S>(entries: map<K, Entry<S>>, path: K, maxAge: nat, now: int) {
    path in entries && !Expired(entries[path], maxAge, now)
  }

  ghost predicate Within<K, S>(small: map<K, Entry<S>>, big: map<K, Entry<S>>) {
    forall k | k in small :: k in big && small[k] == big[k]
  }

  /** The unexpired items, in their order. */
  function Live<K, S>(l: seq<Item<K, S>>, maxAge: nat, now: int): (r: seq<Item<K, S>>)
    ensures |r| <= |l|
  {
    if l == [] then []
    else
      var front := Live(l[..|l| - 1], maxAge, now);
      if Expired(l[|l| - 1].entry, maxAge, now) then front else front + [l[|l| - 1]]
  }

  /** What `AttrCache_shrink` leaves of the items in scan order. */
  function Shrunk<K, S>(l: seq<Item<K, S>>, batch: nat, maxAge: nat, now: int): seq<Item<K, S>> {
    var want := if batch < |l| then batch else |l|;
    if want == 0 then l
    else
      var live := Live(l, maxAge, now);
      var expired := |l| - |live|;
      if expired < want then live[want - expired..] else live
  }

  ghost predicate DistinctPaths<K, S>(l: seq<Item<K, S>>) {
    forall i, j | 0 <= i < j < |l| :: l[i].path != l[j].path
  }

  /** The items as a map. */
  ghost function MapOf<K, S>(l: seq<Item<K, S>>): map<K, Entry<S>> {
    if l == [] then map[] else MapOf(l[..|l| - 1])[l[|l| - 1].path := l[|l| - 1].entry]
  }

  lemma SubsetSize<T>(a: set<T>, b: set<T>)
    requires a <= b
    ensures |a| <= |b|
  {
    assert b == a + (b - a);
  }

  lemma {:induction false} MapOfDistinct<K, S>(l: seq<Item<K, S>>)
    requires DistinctPaths(l)
    ensures |MapOf(l)| == |l|
    ensures forall k | k in MapOf(l) :: exists i :: 0 <= i < |l| && l[i].path == k
    ensures forall i | 0 <= i < |l| :: l[i].path in MapOf(l) && MapOf(l)[l[i].path] == l[i].entry
    decreases |l|
  {
    if l != [] {
      var front, x := l[..|l| - 1], l[|l| - 1];
      MapOfDistinct(front);
      assert x.path !in MapOf(front);
      assert forall i | 0 <= i < |front| :: front[i] == l[i];
    }
  }

  lemma DistinctAppend<K, S>(l: seq<Item<K, S>>, x: Item<K, S>)
    requires DistinctPaths(l) && forall y | y in l :: y.path != x.path
    ensures DistinctPaths(l + [x])
  {
  }

  lemma DistinctSuffix<K, S>(l: seq<Item<K, S>>, n: nat)
    requires DistinctPaths(l) && n <= |l|
    ensures DistinctPaths(l[n..])
  {
  }

  lemma {:induction false} LiveItems<K, S>(l: seq<Item<K, S>>, maxAge: nat, now: int)
    ensures forall x | x in Live(l, maxAge, now) :: x in l && !Expired(x.entry, maxAge, now)
    ensures forall x | x in l && !Expired(x.entry, maxAge, now) :: x in Live(l, maxAge, now)
    ensures DistinctPaths(l) ==> DistinctPaths(Live(l, maxAge, now))
    decreases |l|
  {
    if l != [] {
      var front, x := l[..|l| - 1], l[|l| - 1];
      LiveItems(front, maxAge, now);
      assert l == front + [x];
      if DistinctPaths(l) {
        assert forall i | 0 <= i < |front| :: front[i] == l[i] && l[i].path != x.path;
        assert forall y | y in front :: y.path != x.path;
        DistinctAppend(Live(front, maxAge, now), x);
      }
    }
  }

  /**
   * Shrinking removes exactly the larger of the number expired and the batch size (or everything),
   * among them everything expired; what it removes beyond that comes first in scan order.
   */
  lemma ShrunkExactly<K, S>(l: seq<Item<K, S>>, batch: nat, maxAge: nat, now: int)
    requires batch > 0
    ensures var live, left := Live(l, maxAge, now), Shrunk(l, batch, maxAge, now);
            var expired, want := |l| - |live|, (if batch < |l| then batch else |l|);
            && |l| - |left| == (if expired < want then want else expired)
            && left == live[|live| - |left|..]
            && forall x | x in left :: x in l && !Expired(x.entry, maxAge, now)
  {
    hide Live, Expired;
    LiveItems(l, maxAge, now);
    var live := Live(l, maxAge, now);
    assert live[0..] == live;
    assert |l| == 0 ==> l == live;
  }

  /** Shrinking never invents or changes an entry. */
  lemma ShrunkIsSubmap<K, S>(l: seq<Item<K, S>>, batch: nat, maxAge: nat, now: int)
    requires DistinctPaths(l)
    ensures var left := Shrunk(l, batch, maxAge, now);
            && DistinctPaths(left) && |MapOf(left)| == |left|
            && Within(MapOf(left), MapOf(l))
  {
    hide Live, Expired, MapOf, DistinctPaths, Within;
    LiveItems(l, maxAge, now);
    var live, left := Live(l, maxAge, now), Shrunk(l, batch, maxAge, now);
    var want, expired := (if batch < |l| then batch else |l|), |l| - |live|;
    if 0 < want && expired < want {
      DistinctSuffix(live, want - expired);
    }
    FewerItems(left, l);
  }

  lemma FewerItems<K, S>(left: seq<Item<K, S>>, l: seq<Item<K, S>>)
    requires DistinctPaths(left) && DistinctPaths(l) && forall x | x in left :: x in l
    ensures |MapOf(left)| == |left| && Within(MapOf(left), MapOf(l))
  {
    hide MapOf, DistinctPaths;
    MapOfDistinct(l);
    MapOfDistinct(left);
    forall k | k in MapOf(left)
      ensures k in MapOf(l) && MapOf(left)[k] == MapOf(l)[k]
    {
      var i :| 0 <= i < |left| && left[i].path == k;
      assert left[i] in l;
    }
  }

  /** No item that goes is younger than one that stays. */
  ghost predicate OldestFirst<K, S>(l: seq<Item<K, S>>, left: seq<Item<K, S>>) {
    forall x, y | x in l && x !in left && y in left :: x.entry.created <= y.entry.created
  }

  /** None of the first `n` items is younger than one behind them. */
  ghost predicate OlderInFront<K, S>(l: seq<Item<K, S>>, n: nat) {
    forall i, j | 0 <= i < n <= j < |l| :: l[i].entry.created <= l[j].entry.created
  }

  lemma EvictedIsOlder<K, S>(live: seq<Item<K, S>>, gone: nat, x: Item<K, S>, y: Item<K, S>, maxAge: nat, now: int)
    requires gone <= |live| && OlderInFront(live, gone)
    requires x !in live ==> Expired(x.entry, maxAge, now)
    requires x !in live[gone..] && y in live[gone..] && !Expired(y.entry, maxAge, now)
    ensures x.entry.created <= y.entry.created
  {
    var j :| 0 <= j < |live[gone..]| && live[gone..][j] == y;
    if x in live {
      var i :| 0 <= i < |live| && live[i] == x;
      assert forall k | gone <= k < |live| :: live[k] in live[gone..];
      assert live[gone + j] == y;
    }
  }

  lemma OldestFirstAt<K, S>(l: seq<Item<K, S>>, live: seq<Item<K, S>>, gone: nat, i: nat, j: nat)
    requires i < gone <= j < |live| && DistinctPaths(live) && live[i] in l && OldestFirst(l, live[gone..])
    ensures live[i].entry.created <= live[j].entry.created
  {
    var left := live[gone..];
    assert left[j - gone] == live[j];
    assert forall k | 0 <= k < |left| :: left[k] == live[gone + k] && left[k] != live[i];
  }

  /**
   * Oldest entries get removed first exactly if, among the unexpired items, none of those that must go
   * beyond the expired ones to make up a batch is younger than one behind them.
   */
  lemma ShrunkOldestFirst<K, S>(l: seq<Item<K, S>>, batch: nat, maxAge: nat, now: int)
    requires DistinctPaths(l) && batch > 0
    ensures var live := Live(l, maxAge, now);
            var expired, want := |l| - |live|, (if batch < |l| then batch else |l|);
            OldestFirst(l, Shrunk(l, batch, maxAge, now)) <==>
            OlderInFront(live, if expired < want then want - expired else 0)
  {
    hide Live, Shrunk, DistinctPaths, OldestFirst, OlderInFront, Expired;
    LiveItems(l, maxAge, now);
    ShrunkExactly(l, batch, maxAge, now);
    var live, left := Live(l, maxAge, now), Shrunk(l, batch, maxAge, now);
    var gone := |live| - |left|;
    if OldestFirst(l, left) {
      forall i, j | 0 <= i < gone <= j < |live|
        ensures live[i].entry.created <= live[j].entry.created
      {
        OldestFirstAt(l, live, gone, i, j);
      }
      assert OlderInFront(live, gone) by { MakeOlderInFront(live, gone); }
    }
    if OlderInFront(live, gone) {
      forall x, y | x in l && x !in left && y in left
        ensures x.entry.created <= y.entry.created
      {
        EvictedIsOlder(live, gone, x, y, maxAge, now);
      }
      assert OldestFirst(l, left) by { MakeOldestFirst(l, left); }
    }
  }

  lemma MakeOlderInFront<K, S>(l: seq<Item<K, S>>, n: nat)
    requires forall i, j | 0 <= i < n <= j < |l| :: l[i].entry.created <= l[j].entry.created
    ensures OlderInFront(l, n)
  {
  }

  lemma MakeOldestFirst<K, S>(l: seq<Item<K, S>>, left: seq<Item<K, S>>)
    requires forall x, y | x in l && x !in left && y in left :: x.entry.created <= y.entry.created
    ensures OldestFirst(l, left)
  {
  }

  /** An old item at the end of the scan order outlives a whole batch of items with younger ones among them. */
  lemma EvictionIsNotByAge<K, S>(l: seq<Item<K, S>>, maxAge: nat, now: int, young: nat)
    requires DistinctPaths(l) && |l| == ATTRCACHE_DEFAULT_BATCH_SIZE + 1 && young < |l| - 1
    requires !Expired(l[|l| - 1].entry, maxAge, now)
    requires l[|l| - 1].entry.created < l[young].entry.created
    ensures var left := Shrunk(l, ATTRCACHE_DEFAULT_BATCH_SIZE, maxAge, now);
            left == [l[|l| - 1]] && !OldestFirst(l, left)
  {
    assert Shrunk(l, ATTRCACHE_DEFAULT_BATCH_SIZE, maxAge, now) == [l[|l| - 1]];
    assert l[young] in l && l[young].path != l[|l| - 1].path;
  }

  /** `Live` takes the unexpired items and keeps their order: it is fixed by its values on short lists. */
  lemma {:induction false} LiveSplits<K, S>(a: seq<Item<K, S>>, b: seq<Item<K, S>>, maxAge: nat, now: int)
    ensures Live(a + b, maxAge, now) == Live(a, maxAge, now) + Live(b, maxAge, now)
    ensures |a| == 1 ==> Live(a, maxAge, now) == if a[0].entry.created + maxAge < now then [] else a
    decreases |b|
  {
    if |a| == 1 {
      assert a == [a[0]] && a[..0] == [];
    }
    if b == [] {
      assert a + b == a;
    } else {
      LiveSplits(a, b[..|b| - 1], maxAge, now);
      assert (a + b)[..|a + b| - 1] == a + b[..|b| - 1];
    }
  }

  /** What `AttrCache_set` makes of a cache for `max` entries that holds these items. */
  ghost predicate SetInto<K, S>(l: seq<Item<K, S>>, max: nat, path: K, entry: Entry<S>, maxAge: nat, now: int,
                                e: map<K, Entry<S>>) {
    if max == 0 then e == map[]
    else if |l| < max then e == MapOf(l)[path := entry]
    else
      var live := Live(l, maxAge, now);
      var expired, want := |l| - |live|, (if |l| < 50 then |l| else 50);
      e == MapOf(live[if expired < want then want - expired else 0..])[path := entry]
  }

  /** Some items as a map, with one more binding. */
  ghost predicate BoundTo<K, S>(l: seq<Item<K, S>>, path: K, entry: Entry<S>, e: map<K, Entry<S>>) {
    && path in e && e[path] == entry
    && (forall k | k in e && k != path :: exists i :: 0 <= i < |l| && l[i] == Item(k, e[k]))
    && (forall i | 0 <= i < |l| && l[i].path != path :: l[i].path in e)
  }

  lemma MapIsBound<K, S>(l: seq<Item<K, S>>, path: K, entry: Entry<S>)
    requires DistinctPaths(l)
    ensures BoundTo(l, path, entry, MapOf(l)[path := entry])
  {
    hide MapOf, DistinctPaths;
    MapOfDistinct(l);
    var m := MapOf(l);
    forall k | k in m
      ensures exists i :: 0 <= i < |l| && l[i] == Item(k, m[k])
    {
      var i :| 0 <= i < |l| && l[i].path == k;
      assert l[i] == Item(k, m[k]);
    }
  }

  lemma SuffixIsBound<K, S>(l: seq<Item<K, S>>, gone: nat, path: K, entry: Entry<S>, e: map<K, Entry<S>>)
    requires DistinctPaths(l) && gone <= |l| && BoundTo(l[gone..], path, entry, e)
    ensures forall i | 0 <= i < |l| && l[i].path != path :: l[i].path in e <==> i >= gone
    ensures forall k | k in e && k != path :: Item(k, e[k]) in l
  {
    var left := l[gone..];
    forall k | k in e && k != path
      ensures exists j :: gone <= j < |l| && l[j] == Item(k, e[k])
    {
      var i :| 0 <= i < |left| && left[i] == Item(k, e[k]);
      assert l[gone + i] == left[i];
    }
    forall i | 0 <= i < |l| && l[i].path != path
      ensures l[i].path in e <==> i >= gone
    {
      if i >= gone {
        assert left[i - gone] == l[i];
      }
    }
  }

  /**
   * The path is bound to the new entry, and no other entry changes. Nothing else goes unless the cache is
   * full. From a full cache go the expired items and, if these are fewer than 50 and not all, so many of the
   * unexpired ones from the front of the scan order as make up a batch of 50, or all there are.
   */
  lemma SetIntoExactly<K, S>(l: seq<Item<K, S>>, max: nat, path: K, entry: Entry<S>, maxAge: nat, now: int,
                             e: map<K, Entry<S>>)
    requires DistinctPaths(l) && |l| <= max && 0 < max && SetInto(l, max, path, entry, maxAge, now, e)
    ensures path in e && e[path] == entry
    ensures forall k | k in e && k != path :: Item(k, e[k]) in l
    ensures |l| < max ==> forall i | 0 <= i < |l| && l[i].path != path :: l[i].path in e
    ensures var live := Live(l, maxAge, now);
            var expired, batch := |l| - |live|, (if |l| < 50 then |l| else 50);
            var gone := if expired < batch then batch - expired else 0;
            |l| == max ==>
              && expired + gone == (if expired < batch then batch else expired)
              && (forall x | x in l && x.entry.created + maxAge < now && x.path != path :: x.path !in e)
              && (forall i | 0 <= i < |live| && live[i].path != path :: live[i].path in e <==> i >= gone)
  {
    hide Live, MapOf, DistinctPaths, BoundTo;
    LiveItems(l, maxAge, now);
    var live := Live(l, maxAge, now);
    var expired, batch := |l| - |live|, (if |l| < 50 then |l| else 50);
    var gone := if expired < batch then batch - expired else 0;
    if |l| == max {
      DistinctSuffix(live, gone);
      MapIsBound(live[gone..], path, entry);
      SuffixIsBound(live, gone, path, entry, e);
      forall x | x in l && x.entry.created + maxAge < now && x.path != path
        ensures x.path !in e
      {
        ExpiredGone(l, live, x, path, maxAge, now, e);
      }
      BoundPath(live[gone..], path, entry, e);
    } else {
      MapIsBound(l, path, entry);
      assert l[0..] == l;
      SuffixIsBound(l, 0, path, entry, e);
      BoundPath(l, path, entry, e);
    }
  }

  lemma BoundPath<K, S>(l: seq<Item<K, S>>, path: K, entry: Entry<S>, e: map<K, Entry<S>>)
    requires BoundTo(l, path, entry, e)
    ensures path in e && e[path] == entry
  {
  }

  lemma ExpiredGone<K, S>(l: seq<Item<K, S>>, live: seq<Item<K, S>>, x: Item<K, S>, path: K, maxAge: nat, now: int,
                          e: map<K, Entry<S>>)
    requires DistinctPaths(l) && x in l && x.path != path && x.entry.created + maxAge < now
    requires forall y | y in live :: y in l && !Expired(y.entry, maxAge, now)
    requires forall k | k in e && k != path :: Item(k, e[k]) in live
    ensures x.path !in e
  {
    hide DistinctPaths;
    if x.path in e {
      SamePath(l, x, Item(x.path, e[x.path]));
    }
  }

  lemma SamePath<K, S>(l: seq<Item<K, S>>, x: Item<K, S>, y: Item<K, S>)
    requires DistinctPaths(l) && x in l && y in l && x.path == y.path
    ensures x == y
  {
  }

  // ---------------------------------------------------------------- the cache

  ghost function ItemsOf<K, S>(s: seq<Node<K, Entry<S>>>): seq<Item<K, S>>
    reads s
  {
    seq(|s|, i requires 0 <= i < |s| reads s => Item(s[i].key, s[i].data))
  }

  /** Nothing but links changes in the nodes: their keys and entries stay. */
  twostate predicate SameItems<K, S>(nodes: set<Node<K, Entry<S>>>)
    reads nodes
  {
    forall n | n in nodes :: n.key == old(n.key) && n.data == old(n.data)
  }

  lemma WithoutMiddle<K, V>(a: seq<Node<K, V>>, x: Node<K, V>, b: seq<Node<K, V>>, p: nat)
    requires Distinct(a + ([x] + b)) && p < |a + ([x] + b)| && (a + ([x] + b))[p] == x
    ensures Without(a + ([x] + b), p) == a + b && x !in b && x !in a
    ensures Distinct(a + b)
  {
    var t := a + ([x] + b);
    assert t[|a|] == x;
    assert p == |a|;
    assert forall i | 0 <= i < |a| :: t[i] == a[i];
    assert forall j | 0 <= j < |b| :: t[|a| + 1 + j] == b[j];
    forall i, j | 0 <= i < j < |a + b|
      ensures (a + b)[i] != (a + b)[j]
    {
      assert (a + b)[i] == t[if i < |a| then i else i + 1] && (a + b)[j] == t[if j < |a| then j else j + 1];
    }
  }

  /** Delete the node a scan has just returned. */
  method DropNode<K, S>(scan: Scan<K, Entry<S>>, node: Node<K, Entry<S>>, ghost kept: seq<Node<K, Entry<S>>>)
    requires scan.table.Valid() && scan.Positioned()
    requires Flat(scan.table.chains, 0) == kept + ([node] + scan.todo)
    modifies scan.table, scan.table.table, scan.table.M.Values
    ensures scan.table.Valid() && scan.Positioned()
    ensures Flat(scan.table.chains, 0) == kept + scan.todo
    ensures scan.table.table == old(scan.table.table) && scan.table.maxcount == old(scan.table.maxcount)
    ensures scan.table.M.Values <= old(scan.table.M.Values)
    ensures SameItems(old(scan.table.M.Values))
  {
    hide *;
    ghost var flat := Flat(scan.table.chains, 0);
    scan.table.FlatOfTable();
    InElements(flat, |kept|);
    WithoutMiddle(kept, node, scan.todo, |kept|);
    ghost var p := scan.Delete(node);
    WithoutMiddle(kept, node, scan.todo, p);
    SameItemsHolds(old(scan.table.M.Values));
  }

  lemma InElements<K, V>(s: seq<Node<K, V>>, i: nat)
    requires i < |s|
    ensures s[i] in Elements(s)
  {
  }

  twostate lemma SameItemsHolds<K, S>(nodes: set<Node<K, Entry<S>>>)
    requires forall n | n in nodes :: n.data == old(n.data) && n.key == old(n.key)
    ensures SameItems(nodes)
  {
  }

  /** `hash_scan_next`, seen from the nodes still to come. */
  method Advance<K, V>(scan: Scan<K, V>) returns (node: Node?<K, V>)
    requires scan.table.Valid() && scan.Positioned()
    modifies scan
    ensures scan.table == old(scan.table) && scan.table.Valid() && scan.Positioned()
    ensures Returned(node, scan.todo, old(scan.todo))
  {
    hide Scan.Positioned, HashTable.Valid;
    node := scan.Next();
    assert old(scan.todo) != [] ==> old(scan.todo) == [node] + scan.todo;
  }

  /** One round of the first pass: delete the node if it is expired, and fetch the next one. */
  method SweepStep<K, S>(scan: Scan<K, Entry<S>>, node: Node<K, Entry<S>>, maxAge: nat, now: int,
                         ghost kept: seq<Node<K, Entry<S>>>)
    returns (next: Node?<K, Entry<S>>, dropped: bool, ghost kept': seq<Node<K, Entry<S>>>)
    requires scan.table.Valid() && scan.Positioned()
    requires Flat(scan.table.chains, 0) == kept + ([node] + scan.todo)
    modifies scan, scan.table, scan.table.table, scan.table.M.Values
    ensures scan.table == old(scan.table) && scan.table.Valid() && scan.Positioned()
    ensures scan.table.table == old(scan.table.table) && scan.table.maxcount == old(scan.table.maxcount)
    ensures scan.table.M.Values <= old(scan.table.M.Values)
    ensures dropped <==> Expired(old(node.data), maxAge, now)
    ensures kept' == if dropped then kept else kept + [node]
    ensures Flat(scan.table.chains, 0) == kept' + old(scan.todo)
    ensures ItemsOf(kept') == old(ItemsOf(kept')) && ItemsOf(old(scan.todo)) == old(ItemsOf(scan.todo))
    ensures Returned(next, scan.todo, old(scan.todo))
  {
    hide HashTable.Valid, Scan.Positioned, Flat, Expired, Returned;
    ghost var rest, before := scan.todo, scan.table.M.Values;
    ghost var flat := Flat(scan.table.chains, 0);
    scan.table.FlatOfTable();
    assert forall n | n in kept + [node] + rest :: n in flat && n in Elements(flat);
    kept' := kept;
    dropped := false;
    if Expired(node.data, maxAge, now) {
      DropNode(scan, node, kept);
      dropped := true;
    } else {
      kept' := kept + [node];
      assert kept + ([node] + rest) == kept' + rest;
    }
    assert forall n | n in kept' + rest :: n in before;
    next := Advance(scan);
    SameItemSeq(kept');
    SameItemSeq(rest);
  }

  twostate lemma SameItemSeq<K, S>(s: seq<Node<K, Entry<S>>>)
    requires forall n | n in s :: n.key == old(n.key) && n.data == old(n.data)
    ensures ItemsOf(s) == old(ItemsOf(s))
  {
  }

  lemma LiveNext<K, S>(items: seq<Item<K, S>>, i: nat, maxAge: nat, now: int)
    requires i < |items|
    ensures Live(items[..i + 1], maxAge, now)
         == Live(items[..i], maxAge, now) + (if Expired(items[i].entry, maxAge, now) then [] else [items[i]])
  {
    assert items[..i + 1][..i] == items[..i];
  }

  lemma ItemsAppend<K, S>(a: seq<Node<K, Entry<S>>>, x: Node<K, Entry<S>>, b: seq<Node<K, Entry<S>>>)
    ensures ItemsOf(a + [x]) == ItemsOf(a) + [Item(x.key, x.data)]
    ensures ItemsOf([x] + b) == [Item(x.key, x.data)] + ItemsOf(b)
  {
    assert forall i | 0 < i < |[x] + b| :: ([x] + b)[i] == b[i - 1];
  }

  /** After `i` items: those kept are the live ones among them, those pending are the others. */
  ghost predicate Swept<K, S>(items: seq<Item<K, S>>, i: nat, kept: seq<Item<K, S>>, pending: seq<Item<K, S>>,
                              maxAge: nat, now: int) {
    i <= |items| && kept == Live(items[..i], maxAge, now) && pending == items[i..]
  }

  lemma SweepStarts<K, S>(all: seq<Node<K, Entry<S>>>, maxAge: nat, now: int)
    ensures Swept(ItemsOf(all), 0, ItemsOf([]), ItemsOf(all), maxAge, now)
    ensures |ItemsOf(all)| == |all| && all == [] + all
  {
  }

  lemma SweepOne<K, S>(items: seq<Item<K, S>>, i: nat, kept: seq<Node<K, Entry<S>>>, node: Node<K, Entry<S>>,
                       rest: seq<Node<K, Entry<S>>>, maxAge: nat, now: int)
    requires Swept(items, i, ItemsOf(kept), ItemsOf([node] + rest), maxAge, now)
    ensures var kept' := if Expired(node.data, maxAge, now) then kept else kept + [node];
            Swept(items, i + 1, ItemsOf(kept'), ItemsOf(rest), maxAge, now)
  {
    ItemsAppend(kept, node, rest);
    assert items[i..][0] == Item(node.key, node.data);
    assert items[i + 1..] == items[i..][1..];
    LiveNext(items, i, maxAge, now);
  }

  lemma SweepEnds<K, S>(items: seq<Item<K, S>>, i: nat, kept: seq<Node<K, Entry<S>>>, todo: seq<Node<K, Entry<S>>>,
                        pending: seq<Node<K, Entry<S>>>, maxAge: nat, now: int)
    requires Swept(items, i, ItemsOf(kept), ItemsOf(pending), maxAge, now) && Returned(null, todo, pending)
    ensures ItemsOf(kept + pending) == Live(items, maxAge, now) && |kept + pending| == |kept| && i == |items|
  {
    assert kept + pending == kept;
    assert |ItemsOf(pending)| == |pending|;
    assert items[..i] == items;
  }

  lemma PendingHead<K, V>(node: Node<K, V>, todo: seq<Node<K, V>>, pending: seq<Node<K, V>>)
    requires Returned(node, todo, pending)
    ensures pending == [node] + todo
  {
  }

  /** The first pass of `AttrCache_shrink`: delete everything expired, and keep the order of the rest. */
  method DropExpired<K, S>(hash: HashTable<K, Entry<S>>, maxAge: nat, now: int) returns (removed: nat)
    requires hash.Valid()
    modifies hash, hash.table, hash.M.Values
    ensures hash.Valid() && hash.table == old(hash.table) && hash.maxcount == old(hash.maxcount)
    ensures hash.M.Values <= old(hash.M.Values)
    ensures ItemsOf(Flat(hash.chains, 0)) == Live(old(ItemsOf(Flat(hash.chains, 0))), maxAge, now)
    ensures removed + |Flat(hash.chains, 0)| == |old(Flat(hash.chains, 0))|
  {
    hide *;
    ghost var items := ItemsOf(Flat(hash.chains, 0));
    ghost var kept: seq<Node<K, Entry<S>>>, i: nat := [], 0;
    removed := 0;
    var scan := new Scan(hash);
    ghost var pending := scan.todo;
    SweepStarts(pending, maxAge, now);
    var node := Advance(scan);
    while node != null
      invariant scan.table == hash && hash.Valid() && scan.Positioned()
      invariant hash.table == old(hash.table) && hash.maxcount == old(hash.maxcount)
      invariant hash.M.Values <= old(hash.M.Values)
      invariant Flat(hash.chains, 0) == kept + pending && Returned(node, scan.todo, pending)
      invariant Swept(items, i, ItemsOf(kept), ItemsOf(pending), maxAge, now)
      invariant removed + |kept| == i && i + |pending| == |items|
      decreases |pending|
    {
      PendingHead(node, scan.todo, pending);
      ghost var next := scan.todo;
      SweepOne(items, i, kept, node, next, maxAge, now);
      var dropped;
      node, dropped, kept := SweepStep(scan, node, maxAge, now, kept);
      pending, i := next, i + 1;
      if dropped {
        removed := removed + 1;
      }
    }
    SweepEnds(items, i, kept, scan.todo, pending, maxAge, now);
  }

  /** The second pass: delete in scan order until `want` nodes are gone. */
  method DropFirst<K, S>(hash: HashTable<K, Entry<S>>, already: nat, want: nat)
    requires hash.Valid() && already <= want <= already + |Flat(hash.chains, 0)|
    modifies hash, hash.table, hash.M.Values
    ensures hash.Valid() && hash.table == old(hash.table) && hash.maxcount == old(hash.maxcount)
    ensures hash.M.Values <= old(hash.M.Values)
    ensures ItemsOf(Flat(hash.chains, 0)) == old(ItemsOf(Flat(hash.chains, 0)))[want - already..]
  {
    hide *;
    ghost var items := ItemsOf(Flat(hash.chains, 0));
    var removed := already;
    var scan := new Scan(hash);
    SizeOfItems(scan.todo);
    assert items[0..] == items;
    while removed < want
      invariant already <= removed <= want && want - already <= |items|
      invariant scan.table == hash && hash.Valid() && scan.Positioned()
      invariant hash.table == old(hash.table) && hash.maxcount == old(hash.maxcount)
      invariant hash.M.Values <= old(hash.M.Values)
      invariant Flat(hash.chains, 0) == scan.todo
      invariant ItemsOf(scan.todo) == items[removed - already..]
    {
      SizeOfItems(scan.todo);
      ghost var pending := scan.todo;
      var node := Advance(scan);
      NotOver(node, scan.todo, pending);
      ghost var rest := scan.todo;
      ItemsAppend([], node, rest);
      assert items[removed - already..][1..] == items[removed + 1 - already..];
      assert ItemsOf(rest) == ItemsOf(pending)[1..];
      DropHead(scan, node);
      removed := removed + 1;
    }
  }

  lemma SizeOfItems<K, S>(s: seq<Node<K, Entry<S>>>)
    ensures |ItemsOf(s)| == |s|
  {
  }

  lemma NotOver<K, V>(node: Node?<K, V>, todo: seq<Node<K, V>>, pending: seq<Node<K, V>>)
    requires Returned(node, todo, pending) && |pending| > 0
    ensures node != null && pending == [node] + todo
  {
  }

  method DropHead<K, S>(scan: Scan<K, Entry<S>>, node: Node<K, Entry<S>>)
    requires scan.table.Valid() && scan.Positioned()
    requires Flat(scan.table.chains, 0) == [node] + scan.todo
    modifies scan.table, scan.table.table, scan.table.M.Values
    ensures scan.table.Valid() && scan.Positioned()
    ensures scan.table.table == old(scan.table.table) && scan.table.maxcount == old(scan.table.maxcount)
    ensures scan.table.M.Values <= old(scan.table.M.Values)
    ensures Flat(scan.table.chains, 0) == scan.todo && ItemsOf(scan.todo) == old(ItemsOf(scan.todo))
  {
    hide HashTable.Valid, Scan.Positioned, Flat;
    ghost var rest, before, flat := scan.todo, scan.table.M.Values, Flat(scan.table.chains, 0);
    scan.table.FlatOfTable();
    assert forall n | n in rest :: n in flat && n in Elements(flat);
    assert [] + ([node] + rest) == [node] + rest && [] + rest == rest;
    DropNode(scan, node, []);
    assert forall n | n in rest :: n in before;
    SameItemSeq(rest);
  }

  class AttrCache<K(==), S> {
    const hashtable: HashTable<K, Entry<S>>
    const maxAge: nat
    const batchSize: nat

    ghost function Footprint(): set<object>
      reads hashtable
    {
      {hashtable, hashtable.table} + hashtable.M.Values
    }

    ghost predicate Valid()
      reads Footprint()
    {
      batchSize == ATTRCACHE_DEFAULT_BATCH_SIZE && hashtable.Valid()
    }

    /** What the cache holds, expired or not. */
    ghost function Entries(): map<K, Entry<S>>
      reads hashtable, hashtable.M.Values
    {
      map k | k in hashtable.M :: hashtable.M[k].data
    }

    /** The same in scan order. */
    ghost function Listing(): seq<Item<K, S>>
      reads hashtable, Elements(Flat(hashtable.chains, 0))
    {
      ItemsOf(Flat(hashtable.chains, 0))
    }

    /** `AttrCache_init` */
    constructor (maxSize: nat, maxAge: nat, hashFun: K -> nat)
      ensures Valid() && fresh(Footprint()) && Entries() == map[]
      ensures hashtable.maxcount == maxSize && hashtable.hashFun == hashFun && this.maxAge == maxAge
      ensures batchSize == ATTRCACHE_DEFAULT_BATCH_SIZE
    {
      this.maxAge, batchSize := maxAge, ATTRCACHE_DEFAULT_BATCH_SIZE;
      hashtable := new HashTable(maxSize, hashFun);
    }

    /** `AttrCache_get`: an unexpired entry is a hit; an expired one is dropped. */
    method Get(path: K, now: int) returns (r: Option<Entry<S>>)
      requires Valid()
      modifies Footprint()
      ensures Valid() && fresh(Footprint() - old(Footprint())) && hashtable.maxcount == old(hashtable.maxcount)
      ensures var e := old(Entries());
              if Held(e, path, maxAge, now) then r == Some(e[path]) && Entries() == e && Listing() == old(Listing())
              else r == None && Entries() == e - {path} && (path !in e ==> Listing() == old(Listing()))
    {
      hide HashTable.Valid, Expired, Flat;
      r := None;
      var node := hashtable.Lookup(path);
      SameItemSeq(Flat(hashtable.chains, 0));
      if node != null {
        NodeKey(path);
        if Expired(node.data, maxAge, now) {
          DeleteNode(path, node);
        } else {
          r := Some(node.data);
        }
      }
    }

    /** `AttrCache_copy_stat` */
    method CopyStat(path: K, now: int) returns (r: Option<S>)
      requires Valid()
      modifies Footprint()
      ensures Valid() && fresh(Footprint() - old(Footprint())) && hashtable.maxcount == old(hashtable.maxcount)
      ensures var e := old(Entries());
              if Held(e, path, maxAge, now) then r == Some(e[path].stat) && Entries() == e
              else r == None && Entries() == e - {path} && (path !in e ==> Listing() == old(Listing()))
    {
      hide Valid, Listing;
      var entry := Get(path, now);
      r := match entry case None => None case Some(e) => Some(e.stat);
    }

    /** `AttrCache_remove` */
    method Remove(path: K)
      requires Valid()
      modifies Footprint()
      ensures Valid() && fresh(Footprint() - old(Footprint())) && hashtable.maxcount == old(hashtable.maxcount)
      ensures Entries() == old(Entries()) - {path}
      ensures path !in old(Entries()) ==>
                Listing() == old(Listing()) && hashtable.mask == old(hashtable.mask)
                && hashtable.nodecount == old(hashtable.nodecount)
    {
      hide HashTable.Valid, Flat;
      NotMapped(path);
      var node := hashtable.Lookup(path);
      SameItemSeq(Flat(hashtable.chains, 0));
      if node != null {
        NodeKey(path);
        DeleteNode(path, node);
      }
    }

    lemma NodeKey(path: K)
      requires Valid() && path in hashtable.M
      ensures hashtable.M[path].key == path
    {
      assert NodeOk(hashtable.M[path], hashtable.chains, hashtable.mask, hashtable.hashFun, path);
    }

    method DeleteNode(path: K, node: Node<K, Entry<S>>)
      requires Valid() && path in hashtable.M && hashtable.M[path] == node && node.key == path
      modifies Footprint()
      ensures Valid() && fresh(Footprint() - old(Footprint())) && hashtable.maxcount == old(hashtable.maxcount)
      ensures Entries() == old(Entries()) - {path} && hashtable.nodecount == old(hashtable.nodecount) - 1
      ensures hashtable.M == old(hashtable.M) - {path}
    {
      hide HashTable.Valid;
      ghost var m := hashtable.M;
      hashtable.Delete(node);
      forall k | k in hashtable.M
        ensures hashtable.M[k].data == old(hashtable.M[k].data)
      {
        assert m[k] in m.Values;
      }
    }

    lemma NotMapped(path: K)
      ensures path in Entries() <==> path in hashtable.M
    {
    }

    lemma RightBatch()
      requires Valid()
      ensures hashtable.Valid() && batchSize == ATTRCACHE_DEFAULT_BATCH_SIZE
    {
    }

    /** Each node comes once in a scan, and each is the one the map holds for its key. */
    lemma FlatIsKeyed()
      requires Valid()
      ensures var m, flat := hashtable.M, Flat(hashtable.chains, 0);
              && |flat| == hashtable.nodecount == |m| && Distinct(flat)
              && (forall i | 0 <= i < |flat| :: flat[i].key in m && m[flat[i].key] == flat[i])
              && (forall k | k in m :: m[k] in flat && m[k].key == k)
    {
      hide HashTable.Valid, Flat, Distinct;
      var m, flat := hashtable.M, Flat(hashtable.chains, 0);
      hashtable.FlatOfTable();
      SizedTable();
      forall i | 0 <= i < |flat|
        ensures flat[i].key in m && m[flat[i].key] == flat[i]
      {
        assert flat[i] in Elements(flat);
        hashtable.Held(flat[i]);
      }
      forall k | k in m
        ensures m[k] in flat && m[k].key == k
      {
        NodeKey(k);
        assert m[k] in Elements(flat);
      }
    }

    lemma SizedTable()
      requires Valid()
      ensures hashtable.nodecount == |hashtable.M| <= hashtable.maxcount
      ensures hashtable.nodecount < 2 * INIT_SIZE ==> hashtable.nodecount < hashtable.highmark
    {
      hide And, Pow2, MapOk, AllChains;
    }

    /** The listing is the map, without repetition. */
    lemma ListingIsEntries()
      requires Valid()
      ensures DistinctPaths(Listing()) && Entries() == MapOf(Listing())
      ensures |Listing()| == hashtable.nodecount == |Entries()|
    {
      hide Valid, Flat, MapOf, Distinct, Entries;
      FlatIsKeyed();
      EntriesAre();
      KeyedItems(Flat(hashtable.chains, 0), hashtable.M, Entries());
    }

    lemma EntriesAre()
      ensures Entries().Keys == hashtable.M.Keys && |Entries()| == |hashtable.M|
      ensures forall k | k in hashtable.M :: hashtable.M[k] in hashtable.M.Values && Entries()[k] == hashtable.M[k].data
    {
      assert Entries().Keys == hashtable.M.Keys;
      assert |Entries()| == |Entries().Keys| && |hashtable.M.Keys| == |hashtable.M|;
    }

    static lemma KeyedItems(flat: seq<Node<K, Entry<S>>>, m: map<K, Node<K, Entry<S>>>, e: map<K, Entry<S>>)
      requires Distinct(flat) && e.Keys == m.Keys && forall k | k in m :: e[k] == m[k].data
      requires forall i | 0 <= i < |flat| :: flat[i].key in m && m[flat[i].key] == flat[i]
      requires forall k | k in m :: m[k] in flat && m[k].key == k
      ensures DistinctPaths(ItemsOf(flat)) && e == MapOf(ItemsOf(flat)) && |ItemsOf(flat)| == |flat|
    {
      hide MapOf;
      var l := ItemsOf(flat);
      forall i, j | 0 <= i < j < |l|
        ensures l[i].path != l[j].path
      {
        assert flat[i] != flat[j];
      }
      MapOfDistinct(l);
      forall k | k in m
        ensures k in MapOf(l) && MapOf(l)[k] == e[k]
      {
        var i :| 0 <= i < |flat| && flat[i] == m[k];
        assert l[i].path == k;
      }
      forall k | k in MapOf(l)
        ensures k in m
      {
        var i :| 0 <= i < |l| && l[i].path == k;
        assert flat[i].key == k;
      }
    }

    /** The scan order goes by the hash values of the paths under the table's mask. */
    lemma ListingByHash(i: nat, j: nat)
      requires Valid() && i <= j < |Listing()|
      ensures var f, mask := hashtable.hashFun, hashtable.mask;
              And(f(Listing()[i].path), mask) <= And(f(Listing()[j].path), mask)
    {
      hide HashTable.Valid, Flat, And;
      hashtable.FlatOfTable();
      hashtable.FlatByChain(i, j);
    }

    /** `AttrCache_shrink` */
    method Shrink(now: int)
      requires Valid()
      modifies Footprint()
      ensures Valid() && fresh(Footprint() - old(Footprint())) && hashtable.maxcount == old(hashtable.maxcount)
      ensures Listing() == Shrunk(old(Listing()), batchSize, maxAge, now)
    {
      hide HashTable.Valid, Flat, Live;
      ghost var items := Listing();
      ListingIsEntries();
      var shrinkNum := if batchSize < hashtable.nodecount then batchSize else hashtable.nodecount;
      if shrinkNum == 0 { return; }
      var removed := DropExpired(hashtable, maxAge, now);
      SizeOfItems(Flat(hashtable.chains, 0));
      ghost var live := Live(items, maxAge, now);
      assert Listing() == live;
      if removed < shrinkNum {
        DropFirst(hashtable, removed, shrinkNum);
      }
    }

    /** What the cache holds once room has been made for a new entry. */
    ghost function WithRoom(now: int): map<K, Entry<S>>
      reads hashtable, hashtable.M.Values, Elements(Flat(hashtable.chains, 0))
    {
      if hashtable.nodecount == hashtable.maxcount then MapOf(Shrunk(Listing(), batchSize, maxAge, now)) else Entries()
    }

    /** `AttrCache_set`; a cache of size 0 ignores it, a full one is shrunk first. */
    method Set(path: K, entry: Entry<S>, now: int) returns (ok: bool)
      requires Valid()
      modifies Footprint()
      ensures Valid() && fresh(Footprint() - old(Footprint())) && hashtable.maxcount == old(hashtable.maxcount)
      ensures ok && (hashtable.maxcount == 0 ==> Entries() == old(Entries()))
      ensures hashtable.maxcount > 0 ==> Entries() == old(WithRoom(now))[path := entry]
      ensures |Entries()| <= hashtable.maxcount
      ensures SetInto(old(Listing()), hashtable.maxcount, path, entry, maxAge, now, Entries())
      ensures old(hashtable.nodecount < hashtable.maxcount) ==> Entries() == old(Entries())[path := entry]
      ensures path !in old(Entries()) && old(hashtable.nodecount < hashtable.maxcount)
              && old(hashtable.nodecount) < 2 * INIT_SIZE ==>
                && hashtable.mask == old(hashtable.mask)
                && Entered(old(Listing()), Item(path, entry), Listing(), hashtable.hashFun, hashtable.mask)
    {
      hide *;
      CountIsSize();
      SetsInto(path, entry, now);
      if hashtable.maxcount == 0 { return true; }
      ghost var room, f := WithRoom(now), Footprint();
      EnoughRoom(now);
      if hashtable.nodecount == hashtable.maxcount {
        MakeRoom(now);
      }
      ghost var f1 := Footprint();
      assert fresh(f1 - f);
      label L:
      Replace(path, entry);
      assert fresh@L(Footprint() - f1);
      ghost var f2: set<object> := Footprint();
      assert forall o: object | o in f2 && o !in f :: if o in f1 then o in f1 - f else o in f2 - f1;
      assert forall o: object | o in f2 - f1 :: old(allocated(o)) ==> old@L(allocated(o));
      return true;
    }

    /** Remove the old entry if there is one, then insert the new one. */
    method Replace(path: K, entry: Entry<S>)
      requires Valid() && hashtable.nodecount < hashtable.maxcount
      modifies Footprint()
      ensures Valid() && fresh(Footprint() - old(Footprint())) && hashtable.maxcount == old(hashtable.maxcount)
      ensures Entries() == old(Entries())[path := entry] && |Entries()| <= hashtable.maxcount
      ensures path !in old(Entries()) && old(hashtable.nodecount) < 2 * INIT_SIZE ==>
                && hashtable.mask == old(hashtable.mask)
                && Entered(old(Listing()), Item(path, entry), Listing(), hashtable.hashFun, hashtable.mask)
    {
      hide *;
      ghost var e, f := Entries(), Footprint();
      CountIsSize();
      Remove(path);
      ghost var f1 := Footprint();
      assert fresh(f1 - f);
      label L:
      assert |Entries()| <= |e| by { SmallerMap(e, path); }
      AddEntry(path, entry);
      assert fresh@L(Footprint() - f1);
      ghost var f2: set<object> := Footprint();
      assert forall o: object | o in f2 && o !in f :: if o in f1 then o in f1 - f else o in f2 - f1;
      assert forall o: object | o in f2 - f1 :: old(allocated(o)) ==> old@L(allocated(o));
      CountIsSize();
      assert (e - {path})[path := entry] == e[path := entry];
    }

    lemma SmallerMap(e: map<K, Entry<S>>, path: K)
      ensures |e - {path}| <= |e|
    {
      assert (e - {path}).Keys == e.Keys - {path};
      assert |(e - {path}).Keys| == |e - {path}| && |e.Keys| == |e|;
    }

    lemma EnoughRoom(now: int)
      requires Valid()
      ensures hashtable.nodecount != hashtable.maxcount ==> WithRoom(now) == Entries()
    {
    }

    lemma SetsInto(path: K, entry: Entry<S>, now: int)
      requires Valid()
      ensures hashtable.maxcount == 0 ==> SetInto(Listing(), 0, path, entry, maxAge, now, Entries())
      ensures hashtable.maxcount > 0 ==>
                SetInto(Listing(), hashtable.maxcount, path, entry, maxAge, now, WithRoom(now)[path := entry])
    {
      hide HashTable.Valid, Flat, Live, MapOf, Entries, Listing;
      ListingIsEntries();
      CountIsSize();
      ShrunkExactly(Listing(), batchSize, maxAge, now);
      assert |Entries()| == 0 ==> Entries() == map[];
    }

    /** Making room only forgets. */
    lemma RoomIsSubmap(now: int)
      requires Valid()
      ensures Within(WithRoom(now), Entries())
    {
      hide HashTable.Valid, Flat, Live, MapOf, Shrunk;
      ListingIsEntries();
      ShrunkIsSubmap(Listing(), batchSize, maxAge, now);
    }

    /**
     * Setting a path leaves all other entries exactly if the cache is not full or holds nothing but that
     * path; that the path is in the cache already does not help.
     */
    lemma SetKeepsOthers(path: K, entry: Entry<S>, now: int)
      requires Valid() && hashtable.maxcount > 0
      ensures WithRoom(now)[path := entry] == Entries()[path := entry]
         <==> hashtable.nodecount < hashtable.maxcount || Entries().Keys == {path}
    {
      hide HashTable.Valid, Flat, Live, MapOf, Shrunk, Entries, Listing;
      var e, l := Entries(), Listing();
      CountIsSize();
      if hashtable.nodecount == hashtable.maxcount {
        ListingIsEntries();
        RoomIsSubmap(now);
        ShrunkExactly(l, batchSize, maxAge, now);
        ShrunkIsSubmap(l, batchSize, maxAge, now);
        var room := WithRoom(now);
        KeepsOthers(room, e, path, entry);
      }
    }

    /** Of two or more entries at least two go, of one that one. */
    static lemma KeepsOthers(room: map<K, Entry<S>>, e: map<K, Entry<S>>, path: K, entry: Entry<S>)
      requires Within(room, e) && e != map[]
      requires |e| >= 2 ==> |room| + 2 <= |e|
      requires |e| == 1 ==> room == map[]
      ensures room[path := entry] == e[path := entry] <==> e.Keys == {path}
    {
      assert |e| == |e.Keys| && |room| == |room.Keys|;
      if e.Keys == {path} {
        assert |e| == |{path}| == 1;
        assert room[path := entry] == map[path := entry] == e[path := entry];
      } else if room[path := entry] == e[path := entry] {
        var k :| k in e.Keys && k != path;
        assert k in e[path := entry] && k in room;
        forall q | q in e.Keys
          ensures q in room.Keys + {path}
        {
          assert q in e[path := entry];
        }
        SubsetSize(e.Keys, room.Keys + {path});
        assert false;
      }
    }

    /** So does shrinking. */
    lemma ShrunkEntries(l: seq<Item<K, S>>, now: int)
      requires Valid() && DistinctPaths(l) && Listing() == Shrunk(l, batchSize, maxAge, now)
      ensures Within(Entries(), MapOf(l))
    {
      hide HashTable.Valid, Flat, Live, MapOf, Shrunk;
      ListingIsEntries();
      ShrunkIsSubmap(l, batchSize, maxAge, now);
    }

    lemma CountIsSize()
      requires Valid()
      ensures |Entries()| == hashtable.nodecount <= hashtable.maxcount
    {
      ListingIsEntries();
    }

    /** Shrinking a full cache leaves room for at least one entry. */
    method MakeRoom(now: int)
      requires Valid() && hashtable.nodecount == hashtable.maxcount > 0
      modifies Footprint()
      ensures Valid() && fresh(Footprint() - old(Footprint())) && hashtable.maxcount == old(hashtable.maxcount)
      ensures Entries() == old(WithRoom(now)) && hashtable.nodecount < hashtable.maxcount
    {
      hide HashTable.Valid, Flat, Live, MapOf, Shrunk;
      ghost var items := Listing();
      ListingIsEntries();
      ShrunkExactly(items, batchSize, maxAge, now);
      Shrink(now);
      ListingIsEntries();
    }

    lemma InsertAllowed(path: K)
      requires Valid() && path !in Entries() && |Entries()| < hashtable.maxcount
      ensures batchSize == ATTRCACHE_DEFAULT_BATCH_SIZE
      ensures hashtable.Valid() && hashtable.nodecount < hashtable.maxcount && path !in hashtable.M
    {
      hide HashTable.Valid;
      CountIsSize();
    }

    /** `hash_alloc_insert`: both of its preconditions are those of `hash_insert`. */
    method AddEntry(path: K, entry: Entry<S>)
      requires Valid() && path !in Entries() && |Entries()| < hashtable.maxcount
      modifies Footprint()
      ensures Valid() && fresh(Footprint() - old(Footprint())) && hashtable.maxcount == old(hashtable.maxcount)
      ensures Entries() == old(Entries())[path := entry]
      ensures old(hashtable.nodecount) < 2 * INIT_SIZE ==>
                && hashtable.mask == old(hashtable.mask)
                && Entered(old(Listing()), Item(path, entry), Listing(), hashtable.hashFun, hashtable.mask)
    {
      hide *;
      ghost var m, e := hashtable.M, Entries();
      InsertAllowed(path);
      EntriesAre();
      FootprintIs();
      ghost var node := InsertNew(path, entry);
      assert forall k | k in m :: m[k] in m.Values;
      EntriesAdded(m, e, path, node);
      FootprintIs();
      assert hashtable.M.Values <= m.Values + {node};
    }

    /** The insertion, with what it does to the scan order of a table that it does not double. */
    method InsertNew(path: K, entry: Entry<S>) returns (ghost node: Node<K, Entry<S>>)
      requires Valid() && hashtable.Valid() && hashtable.nodecount < hashtable.maxcount && path !in hashtable.M
      modifies hashtable, hashtable.table, hashtable.M.Values
      ensures hashtable.Valid() && hashtable.M == old(hashtable.M)[path := node]
      ensures hashtable.maxcount == old(hashtable.maxcount)
      ensures hashtable.table == old(hashtable.table) || fresh(hashtable.table)
      ensures fresh(node) && node.data == entry && forall n | n in old(hashtable.M.Values) :: n.data == old(n.data)
      ensures old(hashtable.nodecount) < 2 * INIT_SIZE ==>
                && hashtable.mask == old(hashtable.mask)
                && Entered(old(Listing()), Item(path, entry), Listing(), hashtable.hashFun, hashtable.mask)
    {
      hide *;
      ghost var l, flat := Listing(), Flat(hashtable.chains, 0);
      SizedTable();
      ListingItems();
      var added := new Node(path, entry);
      node := added;
      ghost var p := hashtable.FlatInFront(node, path);
      hashtable.Insert(added, path);
      if old(hashtable.nodecount) < 2 * INIT_SIZE {
        NodeEntered(flat, p, node, l);
        ItemEntered(l, p, Item(path, entry), hashtable.hashFun, hashtable.mask);
        KeyOf(path);
      }
    }

    lemma KeyOf(path: K)
      requires hashtable.Valid() && path in hashtable.M
      ensures hashtable.M[path].key == path
    {
      assert NodeOk(hashtable.M[path], hashtable.chains, hashtable.mask, hashtable.hashFun, path);
    }

    lemma FootprintIs()
      ensures Footprint() == {hashtable, hashtable.table} + hashtable.M.Values
    {
    }

    lemma EntriesAdded(m: map<K, Node<K, Entry<S>>>, e: map<K, Entry<S>>, path: K, node: Node<K, Entry<S>>)
      requires hashtable.Valid() && batchSize == ATTRCACHE_DEFAULT_BATCH_SIZE && hashtable.M == m[path := node]
      requires e.Keys == m.Keys && forall k | k in m :: e[k] == m[k].data
      ensures Valid() && Entries() == e[path := node.data] && node.key == path
    {
      hide HashTable.Valid;
      NodeKey(path);
    }

    lemma ListingItems()
      requires Valid()
      ensures var flat := Flat(hashtable.chains, 0);
              && |Listing()| == |flat|
              && forall i | 0 <= i < |flat| :: flat[i] in hashtable.M.Values && Listing()[i] == Item(flat[i].key, flat[i].data)
    {
      hide HashTable.Valid, Flat;
      FlatIsKeyed();
    }

    /** The listing as the table's chains have it now. */
    lemma NodeEntered(flat: seq<Node<K, Entry<S>>>, p: nat, node: Node<K, Entry<S>>, l: seq<Item<K, S>>)
      requires p <= |flat| == |l| && forall i | 0 <= i < |flat| :: l[i] == Item(flat[i].key, flat[i].data)
      requires Flat(hashtable.chains, 0) == flat[..p] + [node] + flat[p..]
      ensures Listing() == l[..p] + [Item(node.key, node.data)] + l[p..]
    {
      hide Flat;
    }
  }

  /** The item has entered the scan order right behind all those whose paths have lower masked hash values. */
  ghost predicate Entered<K, S>(l: seq<Item<K, S>>, x: Item<K, S>, l': seq<Item<K, S>>, f: K -> nat, mask: nat) {
    exists p | 0 <= p <= |l| ::
      && l' == l[..p] + [x] + l[p..]
      && forall i | 0 <= i < p :: And(f(l[i].path), mask) < And(f(x.path), mask)
  }

  lemma ItemEntered<K, S>(l: seq<Item<K, S>>, p: nat, x: Item<K, S>, f: K -> nat, mask: nat)
    requires p <= |l| && forall i | 0 <= i < p :: And(f(l[i].path), mask) < And(f(x.path), mask)
    ensures Entered(l, x, l[..p] + [x] + l[p..], f, mask)
  {
  }
}
