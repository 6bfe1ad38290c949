/** What the cache does not promise, shown on caches with an arbitrary hash function. */
module CacheEvictions {
  import opened Options
  import opened Bits
  import opened HashArrays
  import opened AttrCaches

  // ---------------------------------------------------------------- setting a path again

  /** Setting a path while there is a free slot. */
  method SetWithRoom<K, S>(cache: AttrCache<K, S>, path: K, entry: Entry<S>, now: int)
    requires cache.Valid() && |cache.Entries()| < cache.hashtable.maxcount
    modifies cache.Footprint()
    ensures cache.Valid() && fresh(cache.Footprint() - old(cache.Footprint()))
    ensures cache.hashtable.maxcount == old(cache.hashtable.maxcount)
    ensures cache.Entries() == old(cache.Entries())[path := entry]
  {
    hide *;
    cache.CountIsSize();
    cache.EnoughRoom(now);
    var _ := cache.Set(path, entry, now);
  }

  /**
   * In a cache for two paths, which holds both, setting one of them again evicts the other, whatever the
   * hash function.
   */
  method FullCacheForgets<K(==), S>(hashFun: K -> nat, p: K, q: K, stat: S, maxAge: nat, now: int)
    returns (before: Option<Entry<S>>, after: Option<Entry<S>>)
    requires p != q
    ensures before == Some(Entry(stat, now)) && after == None
  {
    hide AttrCache.Valid, AttrCache.Entries, AttrCache.WithRoom, Expired;
    var cache := new AttrCache(2, maxAge, hashFun);
    var e := Entry(stat, now);
    SetWithRoom(cache, p, e, now);
    SetWithRoom(cache, q, e, now);
    assert !Expired(e, maxAge, now) by { NotYet(e, maxAge, now); }
    before := cache.Get(q, now);
    ForgetsOther(cache, p, q, e, now);
    var _ := cache.Set(p, e, now);
    after := cache.Get(q, now);
  }

  lemma NotYet<S>(e: Entry<S>, maxAge: nat, now: int)
    requires e.created == now
    ensures !Expired(e, maxAge, now)
  {
  }

  lemma ForgetsOther<K, S>(cache: AttrCache<K, S>, p: K, q: K, e: Entry<S>, now: int)
    requires cache.Valid() && p != q && cache.Entries() == map[p := e, q := e] && cache.hashtable.maxcount == 2
    ensures q !in cache.WithRoom(now)
  {
    hide *;
    var entries, room := cache.Entries(), cache.WithRoom(now);
    cache.CountIsSize();
    cache.SetKeepsOthers(p, e, now);
    cache.RoomIsSubmap(now);
    assert p in entries.Keys && q in entries.Keys;
    assert |entries.Keys| == |{p, q}|;
    RoomHolds(room, entries, q);
    assert q in room ==> room[p := e] == entries[p := e];
  }

  lemma RoomHolds<K, S>(room: map<K, Entry<S>>, entries: map<K, Entry<S>>, q: K)
    requires Within(room, entries)
    ensures forall k | k in room :: k in entries && room[k] == entries[k]
  {
  }

  // ---------------------------------------------------------------- evicting the younger

  /** One path more than a batch, without repetition. */
  ghost predicate BatchAndOne<K>(paths: seq<K>) {
    |paths| == ATTRCACHE_DEFAULT_BATCH_SIZE + 1 && forall i, j | 0 <= i < j < |paths| :: paths[i] != paths[j]
  }

  /** No path has a higher masked hash value than the one at `top`. */
  ghost predicate Highest<K>(paths: seq<K>, f: K -> nat, mask: nat, top: nat) {
    top < |paths| && forall i | 0 <= i < |paths| :: And(f(paths[i]), mask) <= And(f(paths[top]), mask)
  }

  method FindHighest<K>(paths: seq<K>, f: K -> nat, mask: nat) returns (top: nat)
    requires paths != []
    ensures Highest(paths, f, mask, top)
  {
    hide And;
    top := 0;
    for n := 1 to |paths|
      invariant top < n && forall i | 0 <= i < n :: And(f(paths[i]), mask) <= And(f(paths[top]), mask)
    {
      if And(f(paths[top]), mask) < And(f(paths[n]), mask) { top := n; }
    }
  }

  /** The path at `top` at time 0, the first `n` others at time 1. */
  ghost function Aged<K, S>(paths: seq<K>, n: nat, top: nat, stat: S): map<K, Entry<S>>
    requires n <= |paths| && top < |paths|
  {
    if n == 0 then map[paths[top] := Entry(stat, 0)]
    else if n - 1 == top then Aged(paths, n - 1, top, stat)
    else Aged(paths, n - 1, top, stat)[paths[n - 1] := Entry(stat, 1)]
  }

  lemma {:induction false} AgedHolds<K, S>(paths: seq<K>, n: nat, top: nat, stat: S)
    requires BatchAndOne(paths) && n <= |paths| && top < |paths|
    ensures var m := Aged(paths, n, top, stat);
            && |m| == (if n <= top then n + 1 else n)
            && paths[top] in m && m[paths[top]] == Entry(stat, 0)
            && (forall k | k in m && k != paths[top] :: m[k] == Entry(stat, 1))
            && (forall i | 0 <= i < |paths| :: paths[i] in m <==> i < n || i == top)
    decreases n
  {
    if n > 0 {
      AgedHolds(paths, n - 1, top, stat);
    }
  }

  /** The path at `top` is the last one in scan order. */
  ghost predicate LastIs<K, S>(l: seq<Item<K, S>>, path: K) {
    l != [] && l[|l| - 1].path == path
  }

  lemma LastStays<K, S>(l: seq<Item<K, S>>, x: Item<K, S>, l': seq<Item<K, S>>, f: K -> nat, mask: nat, path: K)
    requires Entered(l, x, l', f, mask)
    requires if l == [] then x.path == path else LastIs(l, path) && And(f(x.path), mask) <= And(f(path), mask)
    ensures LastIs(l', path)
  {
    hide And;
    var p :| 0 <= p <= |l| && l' == l[..p] + [x] + l[p..]
             && forall i | 0 <= i < p :: And(f(l[i].path), mask) < And(f(x.path), mask);
  }

  /** Set one more path, keeping the last one last. */
  method SetBelow<K, S>(cache: AttrCache<K, S>, paths: seq<K>, n: nat, top: nat, entry: Entry<S>)
    requires cache.Valid() && Highest(paths, cache.hashtable.hashFun, cache.hashtable.mask, top) && n < |paths|
    requires paths[n] !in cache.Entries() && |cache.Entries()| < cache.hashtable.maxcount
    requires |cache.Entries()| <= ATTRCACHE_DEFAULT_BATCH_SIZE
    requires if cache.Entries() == map[] then n == top else LastIs(cache.Listing(), paths[top])
    modifies cache.Footprint()
    ensures cache.Valid() && fresh(cache.Footprint() - old(cache.Footprint()))
    ensures cache.hashtable.maxcount == old(cache.hashtable.maxcount)
    ensures Highest(paths, cache.hashtable.hashFun, cache.hashtable.mask, top)
    ensures cache.Entries() == old(cache.Entries())[paths[n] := entry] && LastIs(cache.Listing(), paths[top])
  {
    hide *;
    cache.CountIsSize();
    cache.EnoughRoom(1);
    cache.ListingIsEntries();
    ghost var l := cache.Listing();
    HighestAt(paths, cache.hashtable.hashFun, cache.hashtable.mask, top, n);
    FitsInitialTable(cache.hashtable.nodecount);
    var _ := cache.Set(paths[n], entry, 1);
    LastStays(l, Item(paths[n], entry), cache.Listing(), cache.hashtable.hashFun, cache.hashtable.mask, paths[top]);
  }

  lemma FitsInitialTable(n: nat)
    requires n <= ATTRCACHE_DEFAULT_BATCH_SIZE
    ensures n < 2 * INIT_SIZE
  {
  }

  lemma HighestAt<K>(paths: seq<K>, f: K -> nat, mask: nat, top: nat, n: nat)
    requires Highest(paths, f, mask, top) && n < |paths|
    ensures top < |paths| && And(f(paths[n]), mask) <= And(f(paths[top]), mask)
  {
  }

  /** The oldest first, then the others one by one. */
  method FillAged<K, S>(cache: AttrCache<K, S>, paths: seq<K>, top: nat, stat: S)
    requires cache.Valid() && cache.Entries() == map[] && BatchAndOne(paths)
    requires Highest(paths, cache.hashtable.hashFun, cache.hashtable.mask, top) && top < |paths|
    requires cache.hashtable.maxcount > ATTRCACHE_DEFAULT_BATCH_SIZE
    modifies cache.Footprint()
    ensures cache.Valid() && fresh(cache.Footprint() - old(cache.Footprint()))
    ensures cache.Entries() == Aged(paths, |paths|, top, stat) && LastIs(cache.Listing(), paths[top])
  {
    hide *;
    ghost var f0: set<object> := cache.Footprint();
    BatchSize(paths);
    SetBelow(cache, paths, top, top, Entry(stat, 0));
    AgedStarts(paths, top, stat);
    var n := 0;
    while n < |paths|
      invariant 0 <= n <= |paths| && cache.Valid() && fresh(cache.Footprint() - f0)
      invariant cache.hashtable.maxcount == old(cache.hashtable.maxcount)
      invariant Highest(paths, cache.hashtable.hashFun, cache.hashtable.mask, top)
      invariant cache.Entries() == Aged(paths, n, top, stat) && LastIs(cache.Listing(), paths[top])
    {
      AgedNext(paths, n, top, stat);
      ghost var f1: set<object> := cache.Footprint();
      label L:
      if n != top {
        SetBelow(cache, paths, n, top, Entry(stat, 1));
      }
      ghost var f2: set<object> := cache.Footprint();
      assert fresh@L(f2 - f1);
      assert forall o: object | o in f2 && o !in f0 :: if o in f1 then o in f1 - f0 else o in f2 - f1;
      assert forall o: object | o in f2 - f1 :: old(allocated(o)) ==> old@L(allocated(o));
      n := n + 1;
    }
  }

  lemma BatchSize<K>(paths: seq<K>)
    requires BatchAndOne(paths)
    ensures |paths| == ATTRCACHE_DEFAULT_BATCH_SIZE + 1
  {
  }

  lemma AgedStarts<K, S>(paths: seq<K>, top: nat, stat: S)
    requires top < |paths|
    ensures Aged(paths, 0, top, stat) == map[paths[top] := Entry(stat, 0)]
  {
  }

  lemma AgedNext<K, S>(paths: seq<K>, n: nat, top: nat, stat: S)
    requires BatchAndOne(paths) && n < |paths| && top < |paths|
    ensures var m := Aged(paths, n, top, stat);
            && m != map[] && (n != top ==> |m| <= ATTRCACHE_DEFAULT_BATCH_SIZE && paths[n] !in m)
            && Aged(paths, n + 1, top, stat) == if n == top then m else m[paths[n] := Entry(stat, 1)]
  {
    AgedHolds(paths, n, top, stat);
    AgedHolds(paths, n + 1, top, stat);
  }

  /** Of the aged entries, shrinking leaves the oldest alone. */
  method ShrinkAged<K, S>(cache: AttrCache<K, S>, paths: seq<K>, top: nat, stat: S)
    requires cache.Valid() && cache.maxAge == 3 && BatchAndOne(paths) && top < |paths|
    requires cache.Entries() == Aged(paths, |paths|, top, stat) && LastIs(cache.Listing(), paths[top])
    modifies cache.Footprint()
    ensures cache.Valid() && fresh(cache.Footprint() - old(cache.Footprint()))
    ensures cache.Entries() == map[paths[top] := Entry(stat, 0)]
  {
    hide *;
    ghost var l := cache.Listing();
    cache.ListingIsEntries();
    AgedHolds(paths, |paths|, top, stat);
    BatchSize(paths);
    LastOutlives(l, paths[top], stat);
    cache.RightBatch();
    cache.Shrink(1);
    cache.ListingIsEntries();
    OneItem(l[|l| - 1]);
  }

  lemma LastOutlives<K, S>(l: seq<Item<K, S>>, path: K, stat: S)
    requires DistinctPaths(l) && |l| == ATTRCACHE_DEFAULT_BATCH_SIZE + 1 && LastIs(l, path)
    requires path in MapOf(l) && MapOf(l)[path] == Entry(stat, 0)
    requires forall k | k in MapOf(l) && k != path :: MapOf(l)[k] == Entry(stat, 1)
    ensures var left := Shrunk(l, ATTRCACHE_DEFAULT_BATCH_SIZE, 3, 1);
            left == [Item(path, Entry(stat, 0))] == [l[|l| - 1]] && !OldestFirst(l, left)
  {
    hide MapOf, Shrunk, Live, OldestFirst;
    MapOfDistinct(l);
    assert l[0].path != l[|l| - 1].path && l[0].entry == Entry(stat, 1);
    EvictionIsNotByAge(l, 3, 1, 0);
  }

  lemma OneItem<K, S>(x: Item<K, S>)
    ensures MapOf([x]) == map[x.path := x.entry]
  {
    assert [x][..0] == [];
  }

  /** Look up each of the paths. */
  method GetAll<K, S>(cache: AttrCache<K, S>, paths: seq<K>, now: int) returns (replies: seq<Option<Entry<S>>>)
    requires cache.Valid() && forall k | k in cache.Entries() :: !Expired(cache.Entries()[k], cache.maxAge, now)
    modifies cache.Footprint()
    ensures cache.Valid() && fresh(cache.Footprint() - old(cache.Footprint()))
    ensures cache.Entries() == old(cache.Entries()) && |replies| == |paths|
    ensures (forall i | 0 <= i < |paths| :: paths[i] in cache.Entries()) ==> cache.Listing() == old(cache.Listing())
    ensures forall i | 0 <= i < |paths| ::
              replies[i] == if paths[i] in cache.Entries() then Some(cache.Entries()[paths[i]]) else None
  {
    hide AttrCache.Valid, AttrCache.Entries, AttrCache.Listing, Expired;
    replies := [];
    ghost var e, all := cache.Entries(), forall i | 0 <= i < |paths| :: paths[i] in cache.Entries();
    while |replies| < |paths|
      invariant |replies| <= |paths| && cache.Valid() && fresh(cache.Footprint() - old(cache.Footprint()))
      invariant cache.Entries() == e && (all ==> cache.Listing() == old(cache.Listing()))
      invariant forall i | 0 <= i < |replies| :: replies[i] == if paths[i] in e then Some(e[paths[i]]) else None
    {
      var path := paths[|replies|];
      var reply := cache.Get(path, now);
      assert path !in e ==> e - {path} == e;
      replies := replies + [reply];
    }
  }

  lemma NotYetExpired<S>(stat: S)
    ensures !Expired(Entry(stat, 0), 3, 1) && !Expired(Entry(stat, 1), 3, 1)
  {
  }

  lemma OthersDiffer<K>(paths: seq<K>, top: nat)
    requires BatchAndOne(paths) && top < |paths|
    ensures forall i | 0 <= i < |paths| && i != top :: paths[i] != paths[top]
  {
  }

  /** What the cache answers for each path before and after it is shrunk. */
  method ShrinkBetween<K, S>(cache: AttrCache<K, S>, paths: seq<K>, top: nat, stat: S)
    returns (before: seq<Option<Entry<S>>>, after: seq<Option<Entry<S>>>)
    requires cache.Valid() && cache.maxAge == 3 && BatchAndOne(paths) && top < |paths|
    requires cache.Entries() == Aged(paths, |paths|, top, stat) && LastIs(cache.Listing(), paths[top])
    modifies cache.Footprint()
    ensures |paths| == |before| == |after|
    ensures forall i | 0 <= i < |paths| :: before[i] == Some(Entry(stat, if i == top then 0 else 1))
    ensures forall i | 0 <= i < |paths| :: after[i] == if i == top then before[i] else None
  {
    hide AttrCache.Valid, AttrCache.Entries, AttrCache.Listing, Aged, Expired, Highest, BatchAndOne, LastIs, And;
    AgedHolds(paths, |paths|, top, stat);
    NotYetExpired(stat);
    OthersDiffer(paths, top);
    before := GetAll(cache, paths, 1);
    ShrinkAged(cache, paths, top, stat);
    after := GetAll(cache, paths, 1);
  }

  /**
   * Whatever the hash function and whichever the paths, there is an order of setting fifty-one of them, the
   * oldest first and the others a second later, after which shrinking drops the fifty younger ones and
   * leaves the oldest; none of them has expired.
   */
  method EvictYounger<K(==), S>(hashFun: K -> nat, paths: seq<K>, stat: S)
    returns (top: nat, before: seq<Option<Entry<S>>>, after: seq<Option<Entry<S>>>)
    requires BatchAndOne(paths)
    ensures top < |paths| == |before| == |after|
    ensures forall i | 0 <= i < |paths| :: before[i] == Some(Entry(stat, if i == top then 0 else 1))
    ensures forall i | 0 <= i < |paths| :: after[i] == if i == top then before[i] else None
  {
    hide AttrCache.Valid, AttrCache.Entries, AttrCache.Listing, Aged, Highest, BatchAndOne, LastIs, And;
    BatchSize(paths);
    var cache := new AttrCache(1000, 3, hashFun);
    top := FindHighest(paths, hashFun, cache.hashtable.mask);
    HighestAt(paths, hashFun, cache.hashtable.mask, top, 0);
    FillAged(cache, paths, top, stat);
    before, after := ShrinkBetween(cache, paths, top, stat);
  }
}
