/**
 * The attribute protocol of the mounted filesystem: a clock, a server whose files others may change at any
 * time, and one client that makes one call at a time and answers getattr from its cache when it can.
 */
module Staleness {
  import opened Options
  import opened AttrCaches

  datatype Request<+K> =
    | Attributes(path: K)
    | Directory(path: K)
    | Change(path: K)              // write, truncate, chmod, utimens, unlink, rmdir
    | Rename(path: K, pathTo: K)
    | Other                        // what neither reads nor touches the cache

  /** An error, attributes, or no error and nothing else (for getattr: no attributes that can be used). */
  datatype Answer<+K, +S> = Refused | Stats(items: seq<(K, S)>) | Done

  datatype Waiting<+K, +S> =
    | Idle
    | Asked(req: Request<K>)
    | Answered(req: Request<K>, answer: Answer<K, S>, at: int)

  /** `got` is what the step just taken returned to a caller of getattr. */
  datatype World<K, S> = World(now: int, files: map<K, S>, cache: map<K, Entry<S>>, waiting: Waiting<K, S>,
                               got: Option<(K, S)>)

  datatype Event<K, S> =
    | Elapse(seconds: nat, files: map<K, S>)
    | Ask(req: Request<K>)
    | Serve(answer: Answer<K, S>, files: map<K, S>)
    | Receive(taken: nat)

  // ---------------------------------------------------------------- steps

  /** The server's answers. A change may have happened even though the client is told that it failed. */
  ghost predicate Answers<K, S>(files: map<K, S>, req: Request<K>, answer: Answer<K, S>, files': map<K, S>) {
    match req
    case Attributes(p) =>
      files' == files && (!answer.Stats? || (p in files && answer == Stats([(p, files[p])])))
    case Directory(_) =>
      files' == files
      && (answer == Refused || (answer.Stats? && forall x | x in answer.items :: x.0 in files && files[x.0] == x.1))
    case _ => !answer.Stats?
  }

  /**
   * The cache after the items have been set: the last of them is there, unless the cache has no room at
   * all; of the others some may have been evicted.
   */
  ghost predicate Stored<K, S>(cache: map<K, Entry<S>>, items: seq<(K, S)>, stamp: int, cache': map<K, Entry<S>>) {
    && (forall k | k in cache' ::
          || (cache'[k].created == stamp && (k, cache'[k].stat) in items)
          || (k in cache && cache'[k] == cache[k] && forall x | x in items :: x.0 != k))
    && (items != [] && cache' != map[] ==> Latest(items[|items| - 1], stamp, cache'))
    && (items == [] ==> cache' == cache)
  }

  ghost predicate Latest<K, S>(item: (K, S), stamp: int, cache: map<K, Entry<S>>) {
    item.0 in cache && cache[item.0] == Entry(item.1, stamp)
  }

  /** The client's side of the end of a call. */
  ghost predicate Received<K, S>(w: World<K, S>, taken: nat, w': World<K, S>)
    requires w.waiting.Answered?
  {
    match (w.waiting.req, w.waiting.answer)
    case (Attributes(p), Stats(items)) =>
      items != [] && Stored(w.cache, items, w.now, w'.cache) && w'.got == Some((p, items[0].1))
    case (Directory(_), Stats(items)) =>
      taken <= |items| && Stored(w.cache, items[..taken], w.now, w'.cache) && w'.got == None
    case (Change(p), Done) => w'.cache == w.cache - {p} && w'.got == None
    case (Rename(p, _), Done) => w'.cache == w.cache - {p} && w'.got == None
    case _ => w'.cache == w.cache && w'.got == None
  }

  ghost predicate Next<K, S>(w: World<K, S>, e: Event<K, S>, w': World<K, S>, maxAge: nat) {
    match e
    case Elapse(n, files) => w' == w.(now := w.now + n, files := files, got := None)
    case Ask(req) =>
      && w.waiting.Idle?
      && if req.Attributes? && Held(w.cache, req.path, maxAge, w.now)
         then w' == w.(got := Some((req.path, w.cache[req.path].stat)))
         else w' == w.(cache := if req.Attributes? then w.cache - {req.path} else w.cache,
                       waiting := Asked(req), got := None)
    case Serve(answer, files) =>
      && w.waiting.Asked? && Answers(w.files, w.waiting.req, answer, files)
      && w' == w.(files := files, waiting := Answered(w.waiting.req, answer, w.now), got := None)
    case Receive(taken) =>
      && w.waiting.Answered? && Received(w, taken, w')
      && w'.waiting.Idle? && w'.now == w.now && w'.files == w.files
  }

  /** A run, from any world. */
  ghost predicate Run<K, S>(ws: seq<World<K, S>>, es: seq<Event<K, S>>, maxAge: nat) {
    |ws| == |es| + 1 && forall i | 0 <= i < |es| :: Next(ws[i], es[i], ws[i + 1], maxAge)
  }

  /** The client as it starts. */
  ghost predicate Starts<K, S>(w: World<K, S>) {
    w.cache == map[] && w.waiting == Idle && w.got == None
  }

  /** The server's answers reach the client within `latency` seconds. */
  ghost predicate Prompt<K, S>(ws: seq<World<K, S>>, latency: nat) {
    forall i | 0 <= i < |ws| && ws[i].waiting.Answered? :: ws[i].now <= ws[i].waiting.at + latency
  }

  /** The server had these attributes for the path in the j-th world. */
  ghost predicate Had<K, S>(ws: seq<World<K, S>>, j: int, path: K, stat: S) {
    0 <= j < |ws| && path in ws[j].files && ws[j].files[path] == stat
  }

  /** The server had them in a world from `m` to `i`, and that was at most `maxAge` seconds plus the latency before `i`. */
  ghost predicate Recent<K, S>(ws: seq<World<K, S>>, m: nat, i: nat, path: K, stat: S, maxAge: nat) {
    exists j :: m <= j <= i < |ws| && Had(ws, j, path, stat)
      && forall latency: nat | Prompt(ws, latency) :: ws[i].now <= ws[j].now + maxAge + latency
  }

  // ---------------------------------------------------------------- the invariant

  /** The entry is what the server had in a world from `m` to `i`, stamped on arrival. */
  ghost predicate Witness<K, S>(ws: seq<World<K, S>>, m: nat, i: nat, j: nat, path: K, entry: Entry<S>) {
    && m <= j <= i < |ws| && Had(ws, j, path, entry.stat) && ws[j].now <= entry.created <= ws[i].now
    && forall latency: nat | Prompt(ws, latency) :: entry.created <= ws[j].now + latency
  }

  /** Whatever of the path is in the cache, or about to be, is what the server had in world `m` or later. */
  ghost predicate Grounded<K, S>(ws: seq<World<K, S>>, m: nat, i: nat, path: K, maxAge: nat)
    requires i < |ws|
  {
    && (Held(ws[i].cache, path, maxAge, ws[i].now) ==> exists j :: Witness(ws, m, i, j, path, ws[i].cache[path]))
    && (ws[i].waiting.Answered? && ws[i].waiting.answer.Stats? ==>
          && ws[i].waiting.at <= ws[i].now
          && forall x | x in ws[i].waiting.answer.items && x.0 == path ::
               exists j :: m <= j <= i && Had(ws, j, path, x.1) && ws[j].now == ws[i].waiting.at)
    && (ws[i].waiting.Answered? && ws[i].waiting.answer.Stats? && ws[i].waiting.req.Attributes? ==>
          |ws[i].waiting.answer.items| == 1 && ws[i].waiting.answer.items[0].0 == ws[i].waiting.req.path)
  }

  lemma WitnessLater<K, S>(ws: seq<World<K, S>>, m: nat, i: nat, j: nat, path: K, entry: Entry<S>)
    requires Witness(ws, m, i, j, path, entry) && i + 1 < |ws| && ws[i].now <= ws[i + 1].now
    ensures Witness(ws, m, i + 1, j, path, entry)
  {
  }

  /** An item just received makes a sound entry. */
  lemma Arrives<K, S>(ws: seq<World<K, S>>, m: nat, i: nat, path: K, stat: S, maxAge: nat)
    requires i < |ws| && Grounded(ws, m, i, path, maxAge)
    requires ws[i].waiting.Answered? && ws[i].waiting.answer.Stats? && (path, stat) in ws[i].waiting.answer.items
    ensures exists j :: Witness(ws, m, i, j, path, Entry(stat, ws[i].now))
  {
    var items := ws[i].waiting.answer.items;
    var x := (path, stat);
    assert x in items && x.0 == path;
    var j :| m <= j <= i && Had(ws, j, path, x.1) && ws[j].now == ws[i].waiting.at;
    assert Witness(ws, m, i, j, path, Entry(stat, ws[i].now));
  }

  lemma GroundedNext<K, S>(ws: seq<World<K, S>>, es: seq<Event<K, S>>, m: nat, i: nat, path: K, maxAge: nat)
    requires Run(ws, es, maxAge) && m <= i < |es| && Grounded(ws, m, i, path, maxAge)
    ensures Grounded(ws, m, i + 1, path, maxAge)
  {
    hide Prompt, Witness;
    var w, w' := ws[i], ws[i + 1];
    assert Next(w, es[i], w', maxAge);
    if Held(w'.cache, path, maxAge, w'.now) {
      if path in w.cache && w'.cache[path] == w.cache[path] {
        var j :| Witness(ws, m, i, j, path, w.cache[path]);
        WitnessLater(ws, m, i, j, path, w.cache[path]);
      } else {
        Arrives(ws, m, i, path, w'.cache[path].stat, maxAge);
        var j :| Witness(ws, m, i, j, path, Entry(w'.cache[path].stat, w.now));
        WitnessLater(ws, m, i, j, path, w'.cache[path]);
      }
    }
    if w'.waiting.Answered? && w'.waiting.answer.Stats? {
      forall x | x in w'.waiting.answer.items && x.0 == path
        ensures exists j :: m <= j <= i + 1 && Had(ws, j, path, x.1) && ws[j].now == w'.waiting.at
      {
        if es[i].Serve? {
          assert Had(ws, i + 1, path, x.1);
        } else {
          var j :| m <= j <= i && Had(ws, j, path, x.1) && ws[j].now == w.waiting.at;
        }
      }
    }
  }

  /** From a world that neither holds the path nor expects an answer, everything later is no older than that world. */
  lemma {:induction false} StaysGrounded<K, S>(ws: seq<World<K, S>>, es: seq<Event<K, S>>, m: nat, i: nat, path: K,
                                               maxAge: nat)
    requires Run(ws, es, maxAge) && m <= i < |ws|
    requires !Held(ws[m].cache, path, maxAge, ws[m].now) && !ws[m].waiting.Answered?
    ensures Grounded(ws, m, i, path, maxAge)
    decreases i
  {
    if m < i {
      StaysGrounded(ws, es, m, i - 1, path, maxAge);
      GroundedNext(ws, es, m, i - 1, path, maxAge);
    }
  }

  /** What getattr returns was the server's, in a world no earlier than `m` and no older than the cache allows. */
  lemma ReplyIsGrounded<K, S>(ws: seq<World<K, S>>, es: seq<Event<K, S>>, m: nat, i: nat, path: K, stat: S, maxAge: nat)
    requires Run(ws, es, maxAge) && m < i < |ws| && ws[i].got == Some((path, stat))
    requires !Held(ws[m].cache, path, maxAge, ws[m].now) && !ws[m].waiting.Answered?
    ensures Recent(ws, m, i, path, stat, maxAge)
  {
    hide Prompt;
    StaysGrounded(ws, es, m, i - 1, path, maxAge);
    var w := ws[i - 1];
    assert Next(w, es[i - 1], ws[i], maxAge);
    if es[i - 1].Ask? {
      var j :| Witness(ws, m, i - 1, j, path, w.cache[path]);
    } else {
      assert (path, stat) == w.waiting.answer.items[0];
      Arrives(ws, m, i - 1, path, stat, maxAge);
      var j :| Witness(ws, m, i - 1, j, path, Entry(stat, w.now));
    }
  }

  // ---------------------------------------------------------------- what the client is promised

  /** In every run, every successful getattr returns attributes the server had at most `maxAge + latency` seconds ago. */
  lemma BoundedStaleness<K, S>(ws: seq<World<K, S>>, es: seq<Event<K, S>>, i: nat, path: K, stat: S,
                               maxAge: nat, latency: nat)
    requires Run(ws, es, maxAge) && Starts(ws[0]) && Prompt(ws, latency)
    requires i < |ws| && ws[i].got == Some((path, stat))
    ensures exists j :: 0 <= j <= i && Had(ws, j, path, stat) && ws[i].now <= ws[j].now + maxAge + latency
  {
    ReplyIsGrounded(ws, es, 0, i, path, stat, maxAge);
  }

  /** No smaller bound holds: a run whose last getattr returns attributes that the server last had that long ago. */
  lemma StalenessIsReached<K, S>(path: K, stat: S, maxAge: nat, latency: nat)
    returns (ws: seq<World<K, S>>, es: seq<Event<K, S>>)
    ensures Run(ws, es, maxAge) && Starts(ws[0]) && Prompt(ws, latency) && ws[|es|].got == Some((path, stat))
    ensures forall j | 0 <= j <= |es| && Had(ws, j, path, stat) :: ws[|es|].now >= ws[j].now + maxAge + latency
  {
    var req, items := Attributes(path), [(path, stat)];
    var w0 := World(0, map[path := stat], map[], Idle, None);
    var w1 := w0.(waiting := Asked(req));
    var w2 := w1.(waiting := Answered(req, Stats(items), 0));
    var w3 := w2.(now := latency, files := map[]);
    var w4 := w3.(waiting := Idle, cache := map[path := Entry(stat, latency)], got := Some((path, stat)));
    var w5 := w4.(now := latency + maxAge, got := None);
    var w6 := w5.(got := Some((path, stat)));
    ws := [w0, w1, w2, w3, w4, w5, w6];
    es := [Ask(req), Serve(Stats(items), w0.files), Elapse(latency, map[]), Receive(0), Elapse(maxAge, map[]), Ask(req)];
    assert items[0] == (path, stat);
  }

  /** From world `d` on, getattr of the path returns nothing that the server has not had since then. */
  ghost predicate Reflects<K, S>(ws: seq<World<K, S>>, d: nat, path: K) {
    forall i | d < i < |ws| && ws[i].got.Some? && ws[i].got.value.0 == path ::
      exists j :: d <= j <= i && Had(ws, j, path, ws[i].got.value.1)
  }

  /** The step from world `d` gives the client this answer to its request. */
  ghost predicate Concludes<K, S>(ws: seq<World<K, S>>, es: seq<Event<K, S>>, d: nat, req: Request<K>,
                                  answer: Answer<K, S>) {
    && d < |es| < |ws| && es[d].Receive?
    && ws[d].waiting.Answered? && ws[d].waiting.req == req && ws[d].waiting.answer == answer
  }

  /** The step from world `d` tells the client that its call succeeded. */
  ghost predicate Completes<K, S>(ws: seq<World<K, S>>, es: seq<Event<K, S>>, d: nat, req: Request<K>) {
    Concludes(ws, es, d, req, Done)
  }

  /** After a successful write, truncate, chmod, utimens, unlink or rmdir, and for the source of a rename. */
  lemma ReadYourWrites<K, S>(ws: seq<World<K, S>>, es: seq<Event<K, S>>, d: nat, req: Request<K>, maxAge: nat)
    requires Run(ws, es, maxAge) && Completes(ws, es, d, req) && (req.Change? || req.Rename?)
    ensures Reflects(ws, d + 1, req.path)
  {
    hide Had, Prompt;
    assert Next(ws[d], es[d], ws[d + 1], maxAge);
    forall i | d + 1 < i < |ws| && ws[i].got.Some? && ws[i].got.value.0 == req.path
      ensures exists j :: d + 1 <= j <= i && Had(ws, j, req.path, ws[i].got.value.1)
    {
      ReplyIsGrounded(ws, es, d + 1, i, req.path, ws[i].got.value.1, maxAge);
    }
  }

  // ---------------------------------------------------------------- what else a call has changed

  /** A request that may change the server's files. */
  predicate Changing<K>(req: Request<K>) {
    req.Change? || req.Rename? || req.Other?
  }

  /** The one path that the client drops from its cache, when the call has succeeded. */
  ghost predicate Drops<K, S>(req: Request<K>, answer: Answer<K, S>, path: K) {
    answer.Done? && (req.Change? || req.Rename?) && req.path == path
  }

  /** A call asked for in the first world ends with this answer by the step from world `d`. */
  ghost predicate Ends<K, S>(ws: seq<World<K, S>>, es: seq<Event<K, S>>, d: nat, req: Request<K>, answer: Answer<K, S>) {
    && 0 < d && Concludes(ws, es, d, req, answer) && es[0] == Ask(req)
    && forall i | 0 < i <= d :: !ws[i].waiting.Idle?
  }

  lemma {:induction false} CacheRests<K, S>(ws: seq<World<K, S>>, es: seq<Event<K, S>>, d: nat, i: nat,
                                            req: Request<K>, answer: Answer<K, S>, maxAge: nat)
    requires Run(ws, es, maxAge) && Ends(ws, es, d, req, answer) && Changing(req) && 0 < i <= d
    ensures ws[i].cache == ws[0].cache && ws[0].now <= ws[i].now
    decreases i
  {
    assert Next(ws[i - 1], es[i - 1], ws[i], maxAge);
    if i > 1 {
      CacheRests(ws, es, d, i - 1, req, answer, maxAge);
    }
  }

  lemma EndReflects<K, S>(ws: seq<World<K, S>>, es: seq<Event<K, S>>, d: nat, req: Request<K>, answer: Answer<K, S>,
                          path: K, maxAge: nat)
    requires Run(ws, es, maxAge) && Ends(ws, es, d, req, answer) && Changing(req)
    requires Drops(req, answer, path) || !Held(ws[0].cache, path, maxAge, ws[0].now)
    ensures Reflects(ws, d + 1, path)
  {
    hide Had, Prompt;
    CacheRests(ws, es, d, d, req, answer, maxAge);
    assert Next(ws[d], es[d], ws[d + 1], maxAge);
    forall i | d + 1 < i < |ws| && ws[i].got.Some? && ws[i].got.value.0 == path
      ensures exists j :: d + 1 <= j <= i && Had(ws, j, path, ws[i].got.value.1)
    {
      ReplyIsGrounded(ws, es, d + 1, i, path, ws[i].got.value.1, maxAge);
    }
  }

  /** The shortest run in which a cached path survives a call that changes it: ask, serve, receive, getattr. */
  lemma CallLeavesStale<K, S>(w: World<K, S>, req: Request<K>, answer: Answer<K, S>, path: K, other: S, maxAge: nat)
    returns (ws: seq<World<K, S>>, es: seq<Event<K, S>>)
    requires w.waiting.Idle? && Changing(req) && !answer.Stats? && !Drops(req, answer, path)
    requires Held(w.cache, path, maxAge, w.now) && other != w.cache[path].stat
    ensures Run(ws, es, maxAge) && ws[0] == w && Ends(ws, es, 2, req, answer) && !Reflects(ws, 3, path)
  {
    var files := w.files[path := other];
    var w1 := w.(waiting := Asked(req), got := None);
    var w2 := w1.(files := files, waiting := Answered(req, answer, w.now));
    var w3 := w2.(cache := if answer.Done? && !req.Other? then w.cache - {req.path} else w.cache, waiting := Idle);
    var w4 := w3.(got := Some((path, w.cache[path].stat)));
    ws := [w, w1, w2, w3, w4];
    es := [Ask(req), Serve(answer, files), Receive(0), Ask(Attributes(path))];
    assert ws[4].got == Some((path, w.cache[path].stat));
  }

  /**
   * After any call, whatever it does on the server, a path is read back truthfully in every run exactly if
   * the call succeeds and drops it, or it was not held in the cache when the call was asked for. So not only
   * the target of a rename may be stale: entries below a renamed directory, the source of a hard link and
   * the parent of a created file are in the same case, and so is everything after a call that failed.
   */
  lemma ReadBack<K(!new), S(!new)>(w: World<K, S>, req: Request<K>, answer: Answer<K, S>, path: K, a: S, b: S, maxAge: nat)
    requires w.waiting.Idle? && Changing(req) && !answer.Stats? && a != b
    ensures (forall ws, es, d: nat | Run(ws, es, maxAge) && ws[0] == w && Ends(ws, es, d, req, answer) ::
               Reflects(ws, d + 1, path))
       <==> (Drops(req, answer, path) || !Held(w.cache, path, maxAge, w.now))
  {
    hide Reflects, Ends;
    if Drops(req, answer, path) || !Held(w.cache, path, maxAge, w.now) {
      forall ws, es, d: nat | Run(ws, es, maxAge) && ws[0] == w && Ends(ws, es, d, req, answer)
        ensures Reflects(ws, d + 1, path)
      {
        EndReflects(ws, es, d, req, answer, path, maxAge);
      }
    } else {
      var other := if w.cache[path].stat == a then b else a;
      var ws, es := CallLeavesStale(w, req, answer, path, other, maxAge);
      assert !Reflects(ws, 2 + 1, path);
    }
  }

  /** A cached target survives its being renamed over. */
  lemma RenameLeavesTarget<K, S>(w: World<K, S>, from: K, to: K, other: S, maxAge: nat)
    returns (ws: seq<World<K, S>>, es: seq<Event<K, S>>)
    requires w.waiting.Idle? && from != to && Held(w.cache, to, maxAge, w.now) && other != w.cache[to].stat
    ensures Run(ws, es, maxAge) && ws[0] == w && Ends(ws, es, 2, Rename(from, to), Done) && !Reflects(ws, 3, to)
  {
    ws, es := CallLeavesStale(w, Rename(from, to), Done, to, other, maxAge);
  }

  /**
   * The target of a rename is read back truthfully in every run exactly if it was not held in the cache
   * when the rename was asked for.
   */
  lemma RenameTarget<K(!new), S(!new)>(w: World<K, S>, from: K, to: K, a: S, b: S, maxAge: nat)
    requires w.waiting.Idle? && a != b
    ensures (forall ws, es, d: nat | Run(ws, es, maxAge) && ws[0] == w && Ends(ws, es, d, Rename(from, to), Done) ::
               Reflects(ws, d + 1, to))
       <==> (from == to || !Held(w.cache, to, maxAge, w.now))
  {
    ReadBack(w, Rename(from, to), Done, to, a, b, maxAge);
  }
}
