/** The client's filesystem calls, as far as they use the attribute cache. */
module Clients {
  import opened Options
  import opened HashChains
  import opened HashOrder
  import opened AttrCaches
  import opened Staleness

  lemma StoredOne<K, S>(c: map<K, Entry<S>>, items: seq<(K, S)>, i: nat, stamp: int, c1: map<K, Entry<S>>,
                        c2: map<K, Entry<S>>)
    requires i < |items| && Stored(c, items[..i], stamp, c1)
    requires Within(c2, c1[items[i].0 := Entry(items[i].1, stamp)])
    requires c2 == map[] || Latest(items[i], stamp, c2)
    ensures Stored(c, items[..i + 1], stamp, c2)
  {
    assert items[..i + 1] == items[..i] + [items[i]];
    forall k | k in c2
      ensures (c2[k].created == stamp && (k, c2[k].stat) in items[..i + 1])
           || (k in c && c2[k] == c[k] && forall x | x in items[..i + 1] :: x.0 != k)
    {
      if k != items[i].0 && k in c && c2[k] == c[k] && (forall x | x in items[..i] :: x.0 != k) {
        assert forall x | x in items[..i + 1] :: x.0 != k;
      }
    }
  }

  lemma RunExtends<K, S>(ws: seq<World<K, S>>, es: seq<Event<K, S>>, e: Event<K, S>, w: World<K, S>, maxAge: nat)
    requires Run(ws, es, maxAge) && Next(ws[|es|], e, w, maxAge)
    ensures Run(ws + [w], es + [e], maxAge)
  {
  }

  // ---------------------------------------------------------------- what setting several entries makes of a cache

  /** The listings of a cache while the items are set one by one; each of these steps is fixed by `SetInto`. */
  ghost predicate SetAll<K, S>(ls: seq<seq<Item<K, S>>>, items: seq<(K, S)>, stamp: int, max: nat, maxAge: nat) {
    && |ls| == |items| + 1 && (forall i | 0 <= i < |ls| :: DistinctPaths(ls[i]) && |ls[i]| <= max)
    && forall i | 0 <= i < |items| ::
         SetInto(ls[i], max, items[i].0, Entry(items[i].1, stamp), maxAge, stamp, MapOf(ls[i + 1]))
  }

  /** They lead from one listing to these entries; nothing is lost if there was room for all. */
  ghost predicate AllSet<K, S>(ls: seq<seq<Item<K, S>>>, l: seq<Item<K, S>>, e: map<K, Entry<S>>, items: seq<(K, S)>,
                               stamp: int, max: nat, maxAge: nat, e': map<K, Entry<S>>) {
    && SetAll(ls, items, stamp, max, maxAge) && ls[0] == l && MapOf(ls[|items|]) == e'
    && (|e.Keys + PathsOf(items)| < max ==> e' == AddAll(e, items, stamp))
  }

  /** The entries with the items written over them in order. */
  ghost function AddAll<K, S>(e: map<K, Entry<S>>, items: seq<(K, S)>, stamp: int): map<K, Entry<S>> {
    if items == [] then e
    else
      var x := items[|items| - 1];
      AddAll(e, items[..|items| - 1], stamp)[x.0 := Entry(x.1, stamp)]
  }

  ghost function PathsOf<K, S>(items: seq<(K, S)>): set<K> {
    set i | 0 <= i < |items| :: items[i].0
  }

  /** Nothing is lost as long as the old and the new paths together are fewer than the cache has room for. */
  lemma {:induction false} SetAllFits<K, S>(ls: seq<seq<Item<K, S>>>, items: seq<(K, S)>, n: nat, stamp: int,
                                            max: nat, maxAge: nat)
    requires SetAll(ls, items, stamp, max, maxAge) && n <= |items|
    requires |MapOf(ls[0]).Keys + PathsOf(items)| < max
    ensures MapOf(ls[n]) == AddAll(MapOf(ls[0]), items[..n], stamp)
    ensures MapOf(ls[n]).Keys <= MapOf(ls[0]).Keys + PathsOf(items)
    decreases n
  {
    hide MapOf, DistinctPaths, SetInto;
    if n > 0 {
      SetAllFits(ls, items, n - 1, stamp, max, maxAge);
      assert items[..n][..n - 1] == items[..n - 1];
      var m := MapOf(ls[n - 1]);
      MapOfSize(ls[n - 1]);
      SubsetSize(m.Keys, MapOf(ls[0]).Keys + PathsOf(items));
      SetIntoFits(ls[n - 1], max, items[n - 1].0, Entry(items[n - 1].1, stamp), maxAge, stamp, MapOf(ls[n]));
      assert items[n - 1] in items;
    } else {
      assert items[..0] == [];
    }
  }

  lemma MapOfSize<K, S>(l: seq<Item<K, S>>)
    requires DistinctPaths(l)
    ensures |l| == |MapOf(l)| == |MapOf(l).Keys|
  {
    MapOfDistinct(l);
  }

  lemma SetIntoFits<K, S>(l: seq<Item<K, S>>, max: nat, path: K, entry: Entry<S>, maxAge: nat, now: int,
                          e: map<K, Entry<S>>)
    requires |l| < max && SetInto(l, max, path, entry, maxAge, now, e)
    ensures e == MapOf(l)[path := entry]
  {
  }

  lemma SetAllNext<K, S>(ls: seq<seq<Item<K, S>>>, items: seq<(K, S)>, n: nat, stamp: int, max: nat, maxAge: nat,
                         l: seq<Item<K, S>>)
    requires n < |items| && SetAll(ls, items[..n], stamp, max, maxAge) && DistinctPaths(l) && |l| <= max
    requires SetInto(ls[n], max, items[n].0, Entry(items[n].1, stamp), maxAge, stamp, MapOf(l))
    ensures SetAll(ls + [l], items[..n + 1], stamp, max, maxAge)
  {
    hide MapOf, DistinctPaths, SetInto;
  }

  lemma SetAllNone<K, S>(l: seq<Item<K, S>>, items: seq<(K, S)>, stamp: int, max: nat, maxAge: nat)
    requires items == [] && DistinctPaths(l) && |l| <= max
    ensures SetAll([l], items, stamp, max, maxAge)
  {
  }

  /** All steps together. */
  lemma SetAllDone<K, S>(ls: seq<seq<Item<K, S>>>, items: seq<(K, S)>, stamp: int, max: nat, maxAge: nat)
    requires SetAll(ls, items, stamp, max, maxAge)
    ensures |ls| == |items| + 1
    ensures |MapOf(ls[0]).Keys + PathsOf(items)| < max ==> MapOf(ls[|items|]) == AddAll(MapOf(ls[0]), items, stamp)
  {
    hide MapOf, SetAll;
    SetAllSize(ls, items, stamp, max, maxAge);
    if |MapOf(ls[0]).Keys + PathsOf(items)| < max {
      SetAllFits(ls, items, |items|, stamp, max, maxAge);
      assert items[..|items|] == items;
    }
  }

  lemma SetAllSize<K, S>(ls: seq<seq<Item<K, S>>>, items: seq<(K, S)>, stamp: int, max: nat, maxAge: nat)
    requires SetAll(ls, items, stamp, max, maxAge)
    ensures |ls| == |items| + 1
  {
  }

  // ---------------------------------------------------------------- the client

  /** The client with its cache, in a world of which it sees the clock; the run it has taken part in is on record. */
  class Client<K(==), S> {
    const cache: AttrCache<K, S>
    var now: int
    var files: map<K, S>
    ghost var worlds: seq<World<K, S>>
    ghost var events: seq<Event<K, S>>

    ghost predicate Valid(waiting: Waiting<K, S>)
      reads this, cache.Footprint()
    {
      && cache.Valid() && this !in cache.Footprint()
      && Run(worlds, events, cache.maxAge) && Starts(worlds[0])
      && worlds[|events|] == World(now, files, cache.Entries(), waiting, worlds[|events|].got)
    }

    /** The record only grows. */
    twostate predicate Continues()
      reads this
    {
      old(worlds) <= worlds && old(events) <= events
    }

    /** The cache is as it was. */
    twostate predicate KeepsCache()
      reads this, cache.Footprint(), cache.hashtable, Elements(Flat(cache.hashtable.chains, 0))
    {
      && cache.Entries() == old(cache.Entries()) && cache.Footprint() == old(cache.Footprint())
      && cache.Listing() == old(cache.Listing())
      && cache.hashtable.maxcount == old(cache.hashtable.maxcount)
    }

    constructor (maxSize: nat, maxAge: nat, hashFun: K -> nat, now: int, files: map<K, S>)
      ensures Valid(Idle) && fresh(cache.Footprint())
      ensures cache.hashtable.maxcount == maxSize && cache.maxAge == maxAge
    {
      hide AttrCache.Valid, AttrCache.Entries;
      cache := new AttrCache(maxSize, maxAge, hashFun);
      this.now, this.files := now, files;
      worlds, events := [World(now, files, map[], Idle, None)], [];
    }

    ghost method Record(e: Event<K, S>, waiting: Waiting<K, S>, got: Option<(K, S)>)
      requires cache.Valid() && this !in cache.Footprint()
      requires Run(worlds, events, cache.maxAge) && Starts(worlds[0])
      requires Next(worlds[|events|], e, World(now, files, cache.Entries(), waiting, got), cache.maxAge)
      modifies `worlds, `events
      ensures Valid(waiting) && worlds[|events|].got == got && Continues()
      ensures worlds == old(worlds) + [World(now, files, cache.Entries(), waiting, got)] && events == old(events) + [e]
      ensures KeepsCache()
    {
      hide Next, Run, AttrCache.Valid, AttrCache.Entries, AttrCache.Footprint;
      var w := World(now, files, cache.Entries(), waiting, got);
      RunLength();
      RunExtends(worlds, events, e, w, cache.maxAge);
      worlds, events := worlds + [w], events + [e];
      RunLength();
    }

    lemma RunLength()
      requires Run(worlds, events, cache.maxAge)
      ensures |worlds| == |events| + 1
    {
    }

    /** Time passes, and others change the server's files. */
    method Elapse(ghost waiting: Waiting<K, S>)
      requires Valid(waiting)
      modifies this
      ensures Valid(waiting) && Continues() && KeepsCache()
    {
      hide Run, AttrCache.Valid, AttrCache.Entries;
      RunLength();
      var seconds: nat := *;
      var changed: map<K, S> := *;
      now, files := now + seconds, changed;
      Record(Event.Elapse(seconds, changed), waiting, None);
    }

    /** Start a call other than a getattr answered from the cache. */
    ghost method Request(req: Request<K>, before: map<K, Entry<S>>)
      requires cache.Valid() && this !in cache.Footprint()
      requires Run(worlds, events, cache.maxAge) && Starts(worlds[0])
      requires worlds[|events|] == World(now, files, before, Idle, worlds[|events|].got)
      requires if req.Attributes?
               then !Held(before, req.path, cache.maxAge, now) && cache.Entries() == before - {req.path}
               else cache.Entries() == before
      modifies `worlds, `events
      ensures Valid(Asked(req)) && Continues() && KeepsCache() && events == old(events) + [Ask(req)]
    {
      hide Run, AttrCache.Valid, AttrCache.Entries, AttrCache.Footprint, Held;
      RunLength();
      Record(Ask(req), Asked(req), None);
    }

    /** The server's part of a call. */
    method Serve(req: Request<K>) returns (answer: Answer<K, S>, ghost at: int)
      requires Valid(Asked(req))
      modifies this
      ensures Valid(Answered(req, answer, at)) && Continues() && KeepsCache() && FitsRequest(req, answer)
    {
      hide Run, AttrCache.Valid, AttrCache.Entries;
      RunLength();
      ghost var before := files;
      answer, at := Refused, now;
      var refused: bool := *;
      match req {
        case Attributes(p) =>
          var usable: bool := *;
          if !refused { answer := if usable && p in files then Stats([(p, files[p])]) else Done; }
        case Directory(_) =>
          if !refused { answer := List(); }
          SameItemSeq(Flat(cache.hashtable.chains, 0));
        case _ =>
          if !refused { answer := Done; }
          files := *;
      }
      assert Answers(before, req, answer, files);
      Record(Event.Serve(answer, files), Answered(req, answer, now), None);
    }

    /** Some of the files, each with its attributes. */
    method List() returns (answer: Answer<K, S>)
      ensures answer.Stats? && forall x | x in answer.items :: x.0 in files && files[x.0] == x.1
    {
      var names: seq<K> := *;
      var items: seq<(K, S)> := [];
      for i := 0 to |names|
        invariant forall x | x in items :: x.0 in files && files[x.0] == x.1
      {
        if names[i] in files { items := items + [(names[i], files[names[i]])]; }
      }
      answer := Stats(items);
    }

    static ghost predicate FitsRequest(req: Request<K>, answer: Answer<K, S>) {
      match req
      case Attributes(p) => answer.Stats? ==> |answer.items| == 1 && answer.items[0].0 == p
      case Directory(_) => !answer.Done?
      case _ => !answer.Stats?
    }

    /** `OP_COMMUNICATE`: the request travels, is served, and the answer travels. */
    method Communicate(req: Request<K>) returns (answer: Answer<K, S>, ghost at: int)
      requires Valid(Asked(req))
      modifies this
      ensures Valid(Answered(req, answer, at)) && Continues() && KeepsCache() && FitsRequest(req, answer)
    {
      hide Run, AttrCache.Valid, AttrCache.Entries, AttrCache.Footprint, Valid, FitsRequest;
      Elapse(Asked(req));
      answer, at := Serve(req);
      Elapse(Answered(req, answer, at));
    }

    /**
     * `Rhizofs_getattr`. `ok` is a return value of 0, `r` the attributes handed out: a response without an
     * error and without usable attributes gives the one without the other.
     */
    method Getattr(path: K) returns (ok: bool, r: Option<S>)
      requires Valid(Idle)
      modifies this, cache.Footprint()
      ensures Valid(Idle) && Continues() && fresh(cache.Footprint() - old(cache.Footprint()))
      ensures events != []
      ensures !ok <==> Concludes(worlds, events, |events| - 1, Attributes(path), Refused)
      ensures ok && r.None? <==> Concludes(worlds, events, |events| - 1, Attributes(path), Done)
      ensures worlds[|events|].got == if r.Some? then Some((path, r.value)) else None
      ensures r.Some? ==> Recent(worlds, 0, |events|, path, r.value, cache.maxAge)
      ensures cache.hashtable.maxcount == old(cache.hashtable.maxcount)
      ensures Held(old(cache.Entries()), path, cache.maxAge, old(now)) ==>
                && ok && r == Some(old(cache.Entries())[path].stat) && cache.Entries() == old(cache.Entries())
                && events == old(events) + [Ask(Attributes(path))]
      ensures var e := old(cache.Entries()) - {path};
              !Held(old(cache.Entries()), path, cache.maxAge, old(now)) ==>
                if r.None? then cache.Entries() == e
                else |e| < cache.hashtable.maxcount ==> cache.Entries() == e[path := Entry(r.value, now)]
      ensures path !in old(cache.Entries()) && r.Some? ==> Sets(old(cache.Listing()), (path, r.value))
    {
      hide Run, Valid, Concludes, Recent, Sets, Next;
      hide AttrCache.Valid, AttrCache.Entries, AttrCache.Footprint, AttrCache.Listing;
      r := AskCache(path);
      ok := r.Some?;
      AskingIsNoAnswer(Attributes(path));
      ghost var f: set<object> := cache.Footprint();
      label L:
      if r.None? {
        ok, r := GetattrRemote(path);
        ghost var f': set<object> := cache.Footprint();
        assert fresh@L(f' - f);
        assert forall o: object | o in f' && o !in old(cache.Footprint()) ::
            if o in f then o in f - old(cache.Footprint())
            else o in f' - f && (old(allocated(o)) ==> old@L(allocated(o)));
      }
      Lengths();
      if r.Some? {
        ReplyIsRecent(path, r.value);
      }
    }

    lemma Lengths()
      requires Valid(Idle)
      ensures |worlds| == |events| + 1
    {
    }

    /** The cache's part of a getattr: it answers, or the request is on its way. */
    method AskCache(path: K) returns (r: Option<S>)
      requires Valid(Idle)
      modifies this, cache.Footprint()
      ensures Valid(if r.Some? then Idle else Asked(Attributes(path))) && Continues() && now == old(now)
      ensures fresh(cache.Footprint() - old(cache.Footprint()))
      ensures cache.hashtable.maxcount == old(cache.hashtable.maxcount)
      ensures events == old(events) + [Ask(Attributes(path))] && |worlds| == |events| + 1
      ensures r.Some? ==> worlds[|events|].got == Some((path, r.value))
      ensures r.Some? <==> Held(old(cache.Entries()), path, cache.maxAge, now)
      ensures if r.Some? then r.value == old(cache.Entries())[path].stat && cache.Entries() == old(cache.Entries())
              else cache.Entries() == old(cache.Entries()) - {path}
      ensures r.None? && path !in old(cache.Entries()) ==> cache.Listing() == old(cache.Listing())
    {
      hide Run, Starts, AttrCache.Valid, AttrCache.Entries, AttrCache.Footprint, AttrCache.Listing;
      RunLength();
      ghost var before := cache.Entries();
      r := cache.CopyStat(path, now);
      if r.Some? {
        Record(Ask(Attributes(path)), Idle, Some((path, r.value)));
      } else {
        Request(Attributes(path), before);
      }
      RunLength();
    }

    lemma ReplyIsRecent(path: K, stat: S)
      requires Valid(Idle) && |worlds| == |events| + 1 && worlds[|events|].got == Some((path, stat))
      ensures Recent(worlds, 0, |events|, path, stat, cache.maxAge)
    {
      hide Recent, Run, AttrCache.Valid, AttrCache.Entries;
      RunLength();
      ReplyIsGrounded(worlds, events, 0, |events|, path, stat, cache.maxAge);
    }

    lemma AskingIsNoAnswer(req: Request<K>)
      requires events != [] && events[|events| - 1].Ask?
      ensures !Concludes(worlds, events, |events| - 1, req, Refused)
      ensures !Concludes(worlds, events, |events| - 1, req, Done)
    {
    }

    /** The call has just ended with this answer. */
    static ghost predicate Ended(ws: seq<World<K, S>>, es: seq<Event<K, S>>, n: nat, req: Request<K>,
                                 answer: Answer<K, S>, at: int) {
      && |ws| == |es| + 1 && es != [] && es[|es| - 1] == Receive(n)
      && ws[|es| - 1].waiting == Answered(req, answer, at)
    }

    lemma EndedConcludes(n: nat, req: Request<K>, answer: Answer<K, S>, at: int)
      requires Ended(worlds, events, n, req, answer, at)
      ensures events != [] && events[|events| - 1] == Receive(n)
      ensures Concludes(worlds, events, |events| - 1, req, Refused) <==> answer == Refused
      ensures Concludes(worlds, events, |events| - 1, req, Done) <==> answer == Done
    {
    }

    /** `Rhizofs_getattr_remote` */
    method GetattrRemote(path: K) returns (ok: bool, r: Option<S>)
      requires Valid(Asked(Attributes(path)))
      modifies this, cache.Footprint()
      ensures Valid(Idle) && Continues() && fresh(cache.Footprint() - old(cache.Footprint()))
      ensures events != [] && events[|events| - 1] == Receive(0) && (r.Some? ==> ok)
      ensures !ok <==> Concludes(worlds, events, |events| - 1, Attributes(path), Refused)
      ensures ok && r.None? <==> Concludes(worlds, events, |events| - 1, Attributes(path), Done)
      ensures worlds[|events|].got == if r.Some? then Some((path, r.value)) else None
      ensures r.Some? && cache.hashtable.maxcount > 0 ==> Latest((path, r.value), now, cache.Entries())
      ensures cache.hashtable.maxcount == old(cache.hashtable.maxcount)
      ensures if r.Some? then Sets(old(cache.Listing()), (path, r.value)) else cache.Entries() == old(cache.Entries())
      ensures r.Some? && |old(cache.Entries())| < cache.hashtable.maxcount ==>
                cache.Entries() == old(cache.Entries())[path := Entry(r.value, now)]
    {
      hide Run, Valid, Ended, Concludes, FitsRequest, AttrCache.Valid, AttrCache.Entries, AttrCache.Footprint;
      var answer, at := Communicate(Attributes(path));
      ghost var f: set<object> := cache.Footprint();
      label L:
      r := ReceiveAttributes(path, answer, at);
      ok := !answer.Refused?;
      EndedConcludes(0, Attributes(path), answer, at);
      ghost var f': set<object> := cache.Footprint();
      assert f == old(cache.Footprint()) && fresh@L(f' - f);
      assert forall o: object | o in f' && o !in f :: o in f' - f && (old(allocated(o)) ==> old@L(allocated(o)));
    }

    /** What the client does with the response to a getattr. */
    method ReceiveAttributes(path: K, answer: Answer<K, S>, ghost at: int) returns (r: Option<S>)
      requires Valid(Answered(Attributes(path), answer, at)) && FitsRequest(Attributes(path), answer)
      modifies this, cache.Footprint()
      ensures Valid(Idle) && Continues() && fresh(cache.Footprint() - old(cache.Footprint()))
      ensures Ended(worlds, events, 0, Attributes(path), answer, at) && (r.Some? <==> answer.Stats?)
      ensures worlds[|events|].got == if r.Some? then Some((path, r.value)) else None
      ensures r.Some? && cache.hashtable.maxcount > 0 ==> Latest((path, r.value), now, cache.Entries())
      ensures cache.hashtable.maxcount == old(cache.hashtable.maxcount)
      ensures if r.Some? then Sets(old(cache.Listing()), (path, r.value)) else cache.Entries() == old(cache.Entries())
      ensures r.Some? && |old(cache.Entries())| < cache.hashtable.maxcount ==>
                cache.Entries() == old(cache.Entries())[path := Entry(r.value, now)]
    {
      hide Run, Starts, Next, Stored, SetInto, AttrCache.Valid, AttrCache.Entries, AttrCache.Footprint, Within, Latest;
      RunLength();
      r := None;
      if answer.Stats? {
        r := Some(answer.items[0].1);
        ghost var before := cache.Entries();
        SetEntry(path, Entry(r.value, now));
        SetIsStored(before, answer.items, now, cache.Entries());
      }
      AttributesAreStep(worlds[|events|], path, r, cache.Entries(), cache.maxAge);
      Record(Receive(0), Idle, if r.Some? then Some((path, r.value)) else None);
      RunLength();
    }

    /** What the client does is the end of the call. */
    static lemma AttributesAreStep(w: World<K, S>, path: K, r: Option<S>, e: map<K, Entry<S>>, maxAge: nat)
      requires w.waiting.Answered? && w.waiting.req == Attributes(path)
      requires match w.waiting.answer
               case Stats(items) => items != [] && r == Some(items[0].1) && Stored(w.cache, items, w.now, e)
               case _ => r == None && e == w.cache
      ensures var got := if r.Some? then Some((path, r.value)) else None;
              Next(w, Receive(0), World(w.now, w.files, e, Idle, got), maxAge)
    {
      hide Stored;
    }

    static lemma SetIsStored(c: map<K, Entry<S>>, items: seq<(K, S)>, stamp: int, e: map<K, Entry<S>>)
      requires |items| == 1 && Within(e, c[items[0].0 := Entry(items[0].1, stamp)])
      requires e == map[] || Latest(items[0], stamp, e)
      ensures Stored(c, items, stamp, e)
    {
      hide Within, Latest;
      assert items[..0] == [] && items[..1] == items;
      StoredOne(c, items, 0, stamp, c, e);
    }

    /** `AttrCache_set` of this item, stamped now, has made the cache what it is of one with this listing. */
    ghost predicate Sets(l: seq<Item<K, S>>, item: (K, S))
      reads `now, cache.Footprint()
    {
      SetInto(l, cache.hashtable.maxcount, item.0, Entry(item.1, now), cache.maxAge, now, cache.Entries())
    }

    /**
     * These items, set one by one and stamped now, have made the cache what it is of one with this listing and
     * these entries. The listings on the way are `ls`.
     */
    ghost predicate SetsAll(ls: seq<seq<Item<K, S>>>, l: seq<Item<K, S>>, e: map<K, Entry<S>>, items: seq<(K, S)>)
      reads `now, cache.Footprint()
    {
      AllSet(ls, l, e, items, now, cache.hashtable.maxcount, cache.maxAge, cache.Entries())
    }

    /** `AttrCache_set` of a record made now. */
    method SetEntry(path: K, entry: Entry<S>)
      requires cache.Valid() && this !in cache.Footprint() && entry.created == now
      modifies cache.Footprint()
      ensures cache.Valid() && fresh(cache.Footprint() - old(cache.Footprint()))
      ensures Within(cache.Entries(), old(cache.Entries())[path := entry])
      ensures cache.hashtable.maxcount == old(cache.hashtable.maxcount)
      ensures cache.hashtable.maxcount == 0 ==> cache.Entries() == map[]
      ensures cache.hashtable.maxcount > 0 ==> Latest((path, entry.stat), entry.created, cache.Entries())
      ensures Sets(old(cache.Listing()), (path, entry.stat))
      ensures |old(cache.Entries())| < cache.hashtable.maxcount ==>
                cache.Entries() == old(cache.Entries())[path := entry]
    {
      hide AttrCache.Valid, AttrCache.Entries, AttrCache.Footprint, AttrCache.WithRoom, AttrCache.Listing, SetInto;
      cache.RoomIsSubmap(now);
      cache.CountIsSize();
      var _ := cache.Set(path, entry, now);
    }

    /**
     * `Rhizofs_readdir`. The caller's buffer takes `room` entries; the first entry without a name is the
     * one at `nameless`, and the first whose attributes cannot be converted the one at `unusable`. `ok` is a
     * return value of 0, which says nothing of whether the listing was gone through: that is `complete`.
     */
    method Readdir(path: K, room: nat, nameless: nat, unusable: nat)
      returns (ok: bool, ghost complete: bool, ghost ls: seq<seq<Item<K, S>>>)
      requires Valid(Idle)
      modifies this, cache.Footprint()
      ensures Valid(Idle) && Continues() && fresh(cache.Footprint() - old(cache.Footprint()))
      ensures events != []
      ensures Lists(worlds[|events| - 1].waiting, events[|events| - 1], path, room, nameless, unusable, ok, complete)
      ensures cache.hashtable.maxcount == old(cache.hashtable.maxcount)
      ensures match worlds[|events| - 1].waiting.answer
              case Stats(items) =>
                SetsAll(ls, old(cache.Listing()), old(cache.Entries()),
                        items[..Taken(|items|, room, nameless, unusable)])
              case _ => cache.Entries() == old(cache.Entries())
    {
      hide Run, Valid, Ended, FitsRequest, AttrCache.Valid, AttrCache.Entries, AttrCache.Footprint, Taken, Lists;
      StartRequest(Directory(path));
      var answer, at := Communicate(Directory(path));
      ghost var f: set<object> := cache.Footprint();
      label L:
      ok, complete, ls := ReceiveListing(path, answer, at, room, nameless, unusable);
      ghost var f': set<object> := cache.Footprint();
      assert f == old(cache.Footprint()) && fresh@L(f' - f);
      assert forall o: object | o in f' && o !in f :: o in f' - f && (old(allocated(o)) ==> old@L(allocated(o)));
    }

    /** `OP_INIT` of a call that does not look at the cache. */
    ghost method StartRequest(req: Request<K>)
      requires Valid(Idle) && !req.Attributes?
      modifies `worlds, `events
      ensures Valid(Asked(req)) && Continues() && KeepsCache()
    {
      hide Run, AttrCache.Valid, AttrCache.Entries, AttrCache.Footprint;
      RunLength();
      Request(req, cache.Entries());
    }

    /** What the client does with the response to a readdir. */
    method ReceiveListing(path: K, answer: Answer<K, S>, ghost at: int, room: nat, nameless: nat, unusable: nat)
      returns (ok: bool, ghost complete: bool, ghost ls: seq<seq<Item<K, S>>>)
      requires Valid(Answered(Directory(path), answer, at)) && FitsRequest(Directory(path), answer)
      modifies this, cache.Footprint()
      ensures Valid(Idle) && Continues() && fresh(cache.Footprint() - old(cache.Footprint()))
      ensures events != []
      ensures Lists(worlds[|events| - 1].waiting, events[|events| - 1], path, room, nameless, unusable, ok, complete)
      ensures cache.hashtable.maxcount == old(cache.hashtable.maxcount)
      ensures match worlds[|events| - 1].waiting.answer
              case Stats(items) =>
                SetsAll(ls, old(cache.Listing()), old(cache.Entries()),
                        items[..Taken(|items|, room, nameless, unusable)])
              case _ => cache.Entries() == old(cache.Entries())
    {
      hide Run, Starts, Next, AllSet, Stored, Taken, WentThrough;
      hide AttrCache.Valid, AttrCache.Entries, AttrCache.Footprint, AttrCache.Listing;
      RunLength();
      var n := 0;
      ok, complete, ls := answer.Stats?, false, [];
      if ok {
        ghost var freed;
        n, complete, freed, ls := CacheListing(answer.items, room, nameless, unusable);
      }
      ListingIsStep(worlds[|events|], path, n, cache.Entries(), cache.maxAge);
      Record(Receive(n), Idle, None);
      RunLength();
    }

    /** What the client does is the end of the call. */
    static lemma ListingIsStep(w: World<K, S>, path: K, n: nat, e: map<K, Entry<S>>, maxAge: nat)
      requires w.waiting.Answered? && w.waiting.req == Directory(path) && !w.waiting.answer.Done?
      requires match w.waiting.answer
               case Stats(items) => n <= |items| && Stored(w.cache, items[..n], w.now, e)
               case _ => e == w.cache
      ensures Next(w, Receive(n), World(w.now, w.files, e, Idle, None), maxAge)
    {
      hide Stored;
    }

    /** How many entries of a listing are cached. */
    static function Taken(length: nat, room: nat, nameless: nat, unusable: nat): (n: nat)
      ensures n <= length
    {
      var a := if room < length then room else length;
      var b := if nameless < a then nameless else a;
      if unusable < b then unusable else b
    }

    /** The loop over the entries ends by the listing or by a full buffer, not by an entry it cannot use. */
    static predicate WentThrough(n: nat, length: nat, room: nat, nameless: nat) {
      n == length || (n == room && n < nameless)
    }

    /** Such a listing has been received. The call reports success exactly if the server reported no error. */
    static ghost predicate Lists(waiting: Waiting<K, S>, event: Event<K, S>, path: K, room: nat, nameless: nat,
                                 unusable: nat, ok: bool, complete: bool) {
      && waiting.Answered? && waiting.req == Directory(path) && (ok <==> waiting.answer != Refused)
      && match waiting.answer
         case Stats(items) =>
           var n := Taken(|items|, room, nameless, unusable);
           event == Receive(n) && (complete <==> WentThrough(n, |items|, room, nameless))
         case _ => event == Receive(0) && !complete
    }

    /**
     * The loop over the entries. Leaving it at a nameless entry frees the path and the record of the entry
     * set in the round before, which are the cache's by then: `freed` says when.
     */
    method CacheListing(items: seq<(K, S)>, room: nat, nameless: nat, unusable: nat)
      returns (n: nat, ghost complete: bool, ghost freed: bool, ghost ls: seq<seq<Item<K, S>>>)
      requires cache.Valid() && this !in cache.Footprint()
      modifies cache.Footprint()
      ensures cache.Valid() && fresh(cache.Footprint() - old(cache.Footprint()))
      ensures n == Taken(|items|, room, nameless, unusable)
      ensures complete <==> WentThrough(n, |items|, room, nameless)
      ensures freed <==> 0 < n == nameless < |items|
      ensures Stored(old(cache.Entries()), items[..n], now, cache.Entries())
      ensures cache.hashtable.maxcount == old(cache.hashtable.maxcount)
      ensures SetsAll(ls, old(cache.Listing()), old(cache.Entries()), items[..n])
    {
      hide AttrCache.Valid, AttrCache.Entries, AttrCache.Footprint, AttrCache.Listing, Stored, SetAll, MapOf;
      ghost var max, l, e := cache.hashtable.maxcount, cache.Listing(), cache.Entries();
      n, complete, freed, ls := 0, false, false, [l];
      BeforeItems(items[..0]);
      while n < |items|
        invariant n <= |items| && n <= room && n <= nameless && n <= unusable && cache.Valid()
        invariant fresh(cache.Footprint() - old(cache.Footprint()))
        invariant this !in cache.Footprint() && cache.hashtable.maxcount == max
        invariant Stored(e, items[..n], now, cache.Entries()) && SetAll(ls, items[..n], now, max, cache.maxAge)
        invariant !complete && !freed && |ls| == n + 1 && ls[0] == l && ls[n] == cache.Listing()
      {
        if n == nameless { freed := n > 0; break; }
        if n == room { complete := true; break; }
        if n == unusable { break; }
        ghost var f := cache.Footprint();
        label L:
        ls := CacheItem(items, n, e, ls);
        n := n + 1;
        ghost var f': set<object> := cache.Footprint();
        assert fresh@L(f' - f);
        assert forall o: object | o in f' && o !in f :: o in f' - f && (old(allocated(o)) ==> old@L(allocated(o)));
      }
      if n == |items| { complete := true; }
      AfterItems(ls, e, items[..n]);
    }

    lemma BeforeItems(none: seq<(K, S)>)
      requires cache.Valid() && none == []
      ensures cache.Entries() == MapOf(cache.Listing())
      ensures Stored(cache.Entries(), none, now, cache.Entries())
      ensures SetAll([cache.Listing()], none, now, cache.hashtable.maxcount, cache.maxAge)
    {
      hide AttrCache.Valid, AttrCache.Entries, AttrCache.Listing, SetAll, MapOf;
      cache.ListingIsEntries();
      cache.CountIsSize();
      SetAllNone(cache.Listing(), none, now, cache.hashtable.maxcount, cache.maxAge);
    }

    lemma AfterItems(ls: seq<seq<Item<K, S>>>, e: map<K, Entry<S>>, items: seq<(K, S)>)
      requires cache.Valid() && SetAll(ls, items, now, cache.hashtable.maxcount, cache.maxAge)
      requires |ls| == |items| + 1 && ls[|items|] == cache.Listing() && e == MapOf(ls[0])
      ensures SetsAll(ls, ls[0], e, items)
    {
      hide AttrCache.Valid, AttrCache.Entries, AttrCache.Listing, SetAll, MapOf;
      cache.ListingIsEntries();
      SetAllDone(ls, items, now, cache.hashtable.maxcount, cache.maxAge);
    }

    /** One round of that loop. */
    method CacheItem(items: seq<(K, S)>, n: nat, ghost e: map<K, Entry<S>>, ghost ls: seq<seq<Item<K, S>>>)
      returns (ghost ls': seq<seq<Item<K, S>>>)
      requires cache.Valid() && this !in cache.Footprint() && n < |items|
      requires Stored(e, items[..n], now, cache.Entries())
      requires SetAll(ls, items[..n], now, cache.hashtable.maxcount, cache.maxAge)
      requires |ls| == n + 1 && ls[n] == cache.Listing()
      modifies cache.Footprint()
      ensures cache.Valid() && fresh(cache.Footprint() - old(cache.Footprint()))
      ensures cache.hashtable.maxcount == old(cache.hashtable.maxcount)
      ensures Stored(e, items[..n + 1], now, cache.Entries())
      ensures SetAll(ls', items[..n + 1], now, cache.hashtable.maxcount, cache.maxAge)
      ensures ls' == ls + [cache.Listing()]
    {
      hide AttrCache.Valid, AttrCache.Entries, AttrCache.Footprint, AttrCache.Listing;
      hide Within, Latest, Stored, SetAll, MapOf, SetInto;
      ghost var held := cache.Entries();
      SetEntry(items[n].0, Entry(items[n].1, now));
      StoredOne(e, items, n, now, held, cache.Entries());
      cache.ListingIsEntries();
      cache.CountIsSize();
      SetAllNext(ls, items, n, now, cache.hashtable.maxcount, cache.maxAge, cache.Listing());
      ls' := ls + [cache.Listing()];
    }

    /**
     * The calls that may change the server's files: `Rhizofs_truncate`, `_chmod`, `_utimens`, `_unlink`,
     * `_rmdir` and `_rename` drop one path when they have succeeded, the others leave the cache alone.
     */
    method Mutate(req: Request<K>) returns (ok: bool)
      requires Valid(Idle) && Changing(req)
      modifies this, cache.Footprint()
      ensures Valid(Idle) && Continues() && fresh(cache.Footprint() - old(cache.Footprint()))
      ensures events != [] && (ok <==> Completes(worlds, events, |events| - 1, req))
      ensures cache.Entries() == if ok && !req.Other? then old(cache.Entries()) - {req.path} else old(cache.Entries())
    {
      hide Run, Valid, Ended, Concludes, AttrCache.Valid, AttrCache.Entries, AttrCache.Footprint;
      StartRequest(req);
      var answer, at := Communicate(req);
      ghost var f: set<object> := cache.Footprint();
      label L:
      ReceiveDone(req, answer, at);
      ok := answer.Done?;
      EndedConcludes(0, req, answer, at);
      ghost var f': set<object> := cache.Footprint();
      assert f == old(cache.Footprint()) && fresh@L(f' - f);
      assert forall o: object | o in f' && o !in f :: o in f' - f && (old(allocated(o)) ==> old@L(allocated(o)));
    }

    /** What the client does with the response to a call that may have changed something. */
    method ReceiveDone(req: Request<K>, answer: Answer<K, S>, ghost at: int)
      requires Valid(Answered(req, answer, at)) && Changing(req) && !answer.Stats?
      modifies this, cache.Footprint()
      ensures Valid(Idle) && Continues() && fresh(cache.Footprint() - old(cache.Footprint()))
      ensures Ended(worlds, events, 0, req, answer, at)
      ensures cache.Entries() == if answer.Done? && !req.Other? then old(cache.Entries()) - {req.path}
                                 else old(cache.Entries())
    {
      hide Run, AttrCache.Valid, AttrCache.Entries, Held, Stored, Starts;
      RunLength();
      if answer.Done? && !req.Other? {
        cache.Remove(req.path);
      }
      Record(Receive(0), Idle, None);
      RunLength();
    }

    /**
     * `Rhizofs_write`. The path is dropped as soon as the server has done its part. Without the number of bytes
     * in the response the call reports that nothing was written, but no error.
     */
    method Write(path: K, size: Option<nat>) returns (ok: bool, written: nat)
      requires Valid(Idle)
      modifies this, cache.Footprint()
      ensures Valid(Idle) && Continues() && fresh(cache.Footprint() - old(cache.Footprint()))
      ensures events != [] && (ok <==> Completes(worlds, events, |events| - 1, Change(path)))
      ensures written == if ok && size.Some? then size.value else 0
      ensures cache.Entries() == if ok then old(cache.Entries()) - {path} else old(cache.Entries())
    {
      hide Valid, Completes, AttrCache.Valid, AttrCache.Entries, AttrCache.Footprint;
      ok := Mutate(Change(path));
      written := if ok && size.Some? then size.value else 0;
    }
  }
}
