/** What a whole run of calls on the attribute cache can and cannot return. */
module CacheRuns {
  import opened Options
  import opened AttrCaches

  datatype Op<K, S> =
    | Set(path: K, entry: Entry<S>)
    | Get(path: K)
    | Remove(path: K)
    | Shrink

  /** A call and the time at which it is made. */
  datatype Call<K, S> = Call(op: Op<K, S>, now: int)

  /** What was last set for each path since it was last removed: a cache without bound or age. */
  function Ideal<K, S>(calls: seq<Call<K, S>>): map<K, Entry<S>> {
    if calls == [] then map[]
    else
      var m, op := Ideal(calls[..|calls| - 1]), calls[|calls| - 1].op;
      match op
      case Set(p, e) => m[p := e]
      case Remove(p) => m - {p}
      case _ => m
  }

  function Fresh<K, S>(m: map<K, Entry<S>>, path: K, maxAge: nat, now: int): Option<Entry<S>> {
    if Held(m, path, maxAge, now) then Some(m[path]) else None
  }

  /** One call on a cache for at most `max` entries of at most `maxAge` seconds. */
  ghost predicate CacheStep<K, S>(held: map<K, Entry<S>>, call: Call<K, S>, reply: Option<Entry<S>>,
                                  held': map<K, Entry<S>>, max: nat, maxAge: nat) {
    match call.op
    case Set(p, e) =>
      Within(held', held[p := e]) && reply == None && (|held| < max ==> held' == held[p := e])
    case Get(p) =>
      reply == Fresh(held, p, maxAge, call.now) && held' == if reply.Some? then held else held - {p}
    case Remove(p) => held' == held - {p} && reply == None
    case Shrink => Within(held', held) && reply == None
  }

  /** `held[i]` is what the cache holds before the i-th call. */
  ghost predicate CacheRun<K, S>(held: seq<map<K, Entry<S>>>, calls: seq<Call<K, S>>, replies: seq<Option<Entry<S>>>,
                                 max: nat, maxAge: nat) {
    && |calls| == |replies| && |held| == |calls| + 1 && held[0] == map[]
    && forall i | 0 <= i < |calls| :: CacheStep(held[i], calls[i], replies[i], held[i + 1], max, maxAge)
  }

  lemma {:induction false} HeldIsIdeal<K, S>(held: seq<map<K, Entry<S>>>, calls: seq<Call<K, S>>,
                                             replies: seq<Option<Entry<S>>>, i: nat, max: nat, maxAge: nat)
    requires CacheRun(held, calls, replies, max, maxAge) && i <= |calls|
    ensures Within(held[i], Ideal(calls[..i]))
    decreases i
  {
    if i > 0 {
      HeldIsIdeal(held, calls, replies, i - 1, max, maxAge);
      assert calls[..i][..i - 1] == calls[..i - 1];
      assert CacheStep(held[i - 1], calls[i - 1], replies[i - 1], held[i], max, maxAge);
    }
  }

  /** A hit is the unexpired entry last set for its path since the last removal: bound and age only add misses. */
  lemma HitsAreTrue<K, S>(held: seq<map<K, Entry<S>>>, calls: seq<Call<K, S>>, replies: seq<Option<Entry<S>>>,
                          i: nat, max: nat, maxAge: nat)
    requires CacheRun(held, calls, replies, max, maxAge) && i < |calls| && replies[i].Some?
    ensures calls[i].op.Get?
    ensures replies[i] == Fresh(Ideal(calls[..i]), calls[i].op.path, maxAge, calls[i].now)
  {
    assert CacheStep(held[i], calls[i], replies[i], held[i + 1], max, maxAge);
    HeldIsIdeal(held, calls, replies, i, max, maxAge);
  }

  // ---------------------------------------------------------------- when there are no other misses

  function PathsSet<K, S>(calls: seq<Call<K, S>>): set<K> {
    set i | 0 <= i < |calls| && calls[i].op.Set? :: calls[i].op.path
  }

  /** Fewer paths than the cache has room for, no one shrinks it, and the clock does not go back. */
  ghost predicate Roomy<K, S>(calls: seq<Call<K, S>>, max: nat) {
    && |PathsSet(calls)| < max
    && (forall i | 0 <= i < |calls| :: calls[i].op != Shrink)
    && (forall i, j | 0 <= i <= j < |calls| :: calls[i].now <= calls[j].now)
  }

  ghost predicate Lacking<K, S>(ideal: map<K, Entry<S>>, held: map<K, Entry<S>>, calls: seq<Call<K, S>>, i: nat, maxAge: nat)
    requires i <= |calls|
  {
    forall k | k in ideal && k !in held :: exists j :: 0 <= j < i && Expired(ideal[k], maxAge, calls[j].now)
  }

  lemma {:induction false} IdealPaths<K, S>(calls: seq<Call<K, S>>, i: nat)
    requires i <= |calls|
    ensures Ideal(calls[..i]).Keys <= PathsSet(calls)
    decreases i
  {
    if i > 0 {
      IdealPaths(calls, i - 1);
      assert calls[..i][..i - 1] == calls[..i - 1];
    }
  }

  lemma {:induction false} OnlyExpiredLack<K, S>(held: seq<map<K, Entry<S>>>, calls: seq<Call<K, S>>,
                                                 replies: seq<Option<Entry<S>>>, i: nat, max: nat, maxAge: nat)
    requires CacheRun(held, calls, replies, max, maxAge) && Roomy(calls, max) && i <= |calls|
    ensures Lacking(Ideal(calls[..i]), held[i], calls, i, maxAge)
    decreases i
  {
    if i > 0 {
      var h, ideal := held[i - 1], Ideal(calls[..i - 1]);
      OnlyExpiredLack(held, calls, replies, i - 1, max, maxAge);
      HeldIsIdeal(held, calls, replies, i - 1, max, maxAge);
      IdealPaths(calls, i - 1);
      SubsetSize(h.Keys, PathsSet(calls));
      assert |h| == |h.Keys|;
      assert calls[..i][..i - 1] == calls[..i - 1];
      assert CacheStep(h, calls[i - 1], replies[i - 1], held[i], max, maxAge);
      forall k | k in Ideal(calls[..i]) && k !in held[i]
        ensures exists j :: 0 <= j < i && Expired(Ideal(calls[..i])[k], maxAge, calls[j].now)
      {
        assert k in ideal && ideal[k] == Ideal(calls[..i])[k];
        if k in h {
          assert h[k] == ideal[k] && Expired(h[k], maxAge, calls[i - 1].now);
        } else {
          var j :| 0 <= j < i - 1 && Expired(ideal[k], maxAge, calls[j].now);
        }
      }
    }
  }

  /** With room to spare the cache is the ideal one: a get misses exactly if the ideal entry is missing or expired. */
  lemma RoomyIsIdeal<K, S>(held: seq<map<K, Entry<S>>>, calls: seq<Call<K, S>>, replies: seq<Option<Entry<S>>>,
                           i: nat, max: nat, maxAge: nat)
    requires CacheRun(held, calls, replies, max, maxAge) && Roomy(calls, max) && i < |calls| && calls[i].op.Get?
    ensures replies[i] == Fresh(Ideal(calls[..i]), calls[i].op.path, maxAge, calls[i].now)
  {
    assert CacheStep(held[i], calls[i], replies[i], held[i + 1], max, maxAge);
    HeldIsIdeal(held, calls, replies, i, max, maxAge);
    OnlyExpiredLack(held, calls, replies, i, max, maxAge);
    var ideal, p := Ideal(calls[..i]), calls[i].op.path;
    if p in ideal && p !in held[i] {
      var j :| 0 <= j < i && Expired(ideal[p], maxAge, calls[j].now);
      assert calls[j].now <= calls[i].now;
    }
  }

  // ---------------------------------------------------------------- the cache runs so

  method Perform<K, S>(cache: AttrCache<K, S>, call: Call<K, S>) returns (reply: Option<Entry<S>>)
    requires cache.Valid()
    modifies cache.Footprint()
    ensures cache.Valid() && fresh(cache.Footprint() - old(cache.Footprint()))
    ensures cache.hashtable.maxcount == old(cache.hashtable.maxcount)
    ensures CacheStep(old(cache.Entries()), call, reply, cache.Entries(), cache.hashtable.maxcount, cache.maxAge)
  {
    hide AttrCache.Valid, AttrCache.Entries, AttrCache.Listing, AttrCache.WithRoom, AttrCache.Footprint, MapOf, Shrunk;
    reply := None;
    match call.op {
      case Set(p, e) =>
        cache.RoomIsSubmap(call.now);
        cache.CountIsSize();
        cache.EnoughRoom(call.now);
        var _ := cache.Set(p, e, call.now);
      case Get(p) =>
        reply := cache.Get(p, call.now);
      case Remove(p) =>
        cache.Remove(p);
      case Shrink =>
        cache.ListingIsEntries();
        ghost var l := cache.Listing();
        cache.Shrink(call.now);
        cache.ShrunkEntries(l, call.now);
    }
  }

  /** Every call of a run on a new cache gets a true hit or a miss; with room to spare the misses are the ideal ones. */
  method Replay<K(==), S>(max: nat, maxAge: nat, hashFun: K -> nat, calls: seq<Call<K, S>>)
    returns (replies: seq<Option<Entry<S>>>, size: nat)
    ensures |replies| == |calls| && size <= max
    ensures forall i | 0 <= i < |calls| && replies[i].Some? ::
              && calls[i].op.Get?
              && replies[i] == Fresh(Ideal(calls[..i]), calls[i].op.path, maxAge, calls[i].now)
    ensures Roomy(calls, max) ==> forall i | 0 <= i < |calls| && calls[i].op.Get? ::
              replies[i] == Fresh(Ideal(calls[..i]), calls[i].op.path, maxAge, calls[i].now)
  {
    hide AttrCache.Valid, AttrCache.Entries, CacheStep, Roomy, Ideal, Fresh;
    var cache := new AttrCache(max, maxAge, hashFun);
    replies := [];
    ghost var held := [map[]];
    var i := 0;
    while i < |calls|
      invariant 0 <= i <= |calls| && cache.Valid() && fresh(cache.Footprint())
      invariant cache.hashtable.maxcount == max && cache.maxAge == maxAge
      invariant CacheRun(held, calls[..i], replies, max, maxAge) && held[i] == cache.Entries()
    {
      var reply := Perform(cache, calls[i]);
      replies, held := replies + [reply], held + [cache.Entries()];
      i := i + 1;
    }
    assert calls[..|calls|] == calls;
    RunReplies(held, calls, replies, max, maxAge);
    cache.CountIsSize();
    size := cache.hashtable.nodecount;
  }

  lemma RunReplies<K, S>(held: seq<map<K, Entry<S>>>, calls: seq<Call<K, S>>, replies: seq<Option<Entry<S>>>,
                         max: nat, maxAge: nat)
    requires CacheRun(held, calls, replies, max, maxAge)
    ensures forall i | 0 <= i < |calls| && replies[i].Some? ::
              && calls[i].op.Get?
              && replies[i] == Fresh(Ideal(calls[..i]), calls[i].op.path, maxAge, calls[i].now)
    ensures Roomy(calls, max) ==> forall i | 0 <= i < |calls| && calls[i].op.Get? ::
              replies[i] == Fresh(Ideal(calls[..i]), calls[i].op.path, maxAge, calls[i].now)
  {
    hide CacheStep, Roomy, Ideal, Fresh;
    forall i | 0 <= i < |calls| && replies[i].Some?
      ensures calls[i].op.Get?
      ensures replies[i] == Fresh(Ideal(calls[..i]), calls[i].op.path, maxAge, calls[i].now)
    {
      HitsAreTrue(held, calls, replies, i, max, maxAge);
    }
    if Roomy(calls, max) {
      forall i | 0 <= i < |calls| && calls[i].op.Get?
        ensures replies[i] == Fresh(Ideal(calls[..i]), calls[i].op.path, maxAge, calls[i].now)
      {
        RoomyIsIdeal(held, calls, replies, i, max, maxAge);
      }
    }
  }
}
