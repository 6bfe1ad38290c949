/** The nodes of the table in the order in which a scan meets them. */
module HashOrder {
  import opened Bits
  import opened HashChains
  import opened HashArrays

  /** The nodes of all chains from the `from`-th on, in the order a scan meets them. */
  ghost function Flat<K, V>(chains: seq<seq<Node<K, V>>>, from: nat): seq<Node<K, V>>
    decreases |chains| - from
  {
    if from >= |chains| then [] else chains[from] + Flat(chains, from + 1)
  }

  lemma {:induction false} FlatContains<K, V>(chains: seq<seq<Node<K, V>>>, from: nat, x: Node<K, V>)
    ensures x in Flat(chains, from) <==> exists c :: from <= c < |chains| && x in chains[c]
    decreases |chains| - from
  {
    if from < |chains| {
      var rest := Flat(chains, from + 1);
      FlatContains(chains, from + 1, x);
      if x in rest {
        var c :| from + 1 <= c < |chains| && x in chains[c];
        assert from <= c;
      }
    }
  }

  lemma {:induction false} FlatSame<K, V>(a: seq<seq<Node<K, V>>>, b: seq<seq<Node<K, V>>>, from: nat)
    requires |a| == |b| && forall c | from <= c < |a| :: a[c] == b[c]
    ensures Flat(a, from) == Flat(b, from)
    decreases |a| - from
  {
    if from < |a| {
      FlatSame(a, b, from + 1);
    }
  }

  lemma {:induction false} FlatDistinct<K, V>(heads: seq<Node?<K, V>>, chains: seq<seq<Node<K, V>>>, mask: nat, from: nat)
    requires AllChains(heads, chains, mask)
    ensures Distinct(Flat(chains, from))
    decreases |chains| - from
  {
    hide Linked, And;
    if from < |chains| {
      FlatDistinct(heads, chains, mask, from + 1);
      assert ChainOk(heads[from], chains[from], mask, from);
      forall x | x in chains[from]
        ensures x !in Flat(chains, from + 1)
      {
        FlatContains(chains, from + 1, x);
        assert forall c | from < c < |chains| :: ChainOk(heads[c], chains[c], mask, c);
      }
      DistinctJoin(chains[from], Flat(chains, from + 1));
    }
  }

  /** A node put in front of a chain comes right behind the nodes of the chains before it. */
  lemma {:induction false} FlatPush<K, V>(heads: seq<Node?<K, V>>, chains: seq<seq<Node<K, V>>>, mask: nat, c: nat,
                                          x: Node<K, V>, from: nat) returns (p: nat)
    requires AllChains(heads, chains, mask) && from <= c < |chains|
    ensures var flat := Flat(chains, from);
            && p <= |flat| && Flat(chains[c := [x] + chains[c]], from) == flat[..p] + [x] + flat[p..]
            && forall i | 0 <= i < p :: And(flat[i].hkey, mask) < c
    decreases c - from
  {
    hide And, Linked, Distinct;
    var s, chains', rest := chains[from], chains[c := [x] + chains[c]], Flat(chains, from + 1);
    if from == c {
      p := 0;
      FlatSame(chains, chains', from + 1);
    } else {
      var q := FlatPush(heads, chains, mask, c, x, from + 1);
      p := |s| + q;
      assert ChainOk(heads[from], s, mask, from);
      InsertBehind(s, rest, q, x);
      var flat := Flat(chains, from);
      forall i | 0 <= i < p
        ensures And(flat[i].hkey, mask) < c
      {
        assert if i < |s| then flat[i] in s else flat[i] == rest[i - |s|];
      }
    }
  }

  lemma InsertBehind<T>(s: seq<T>, rest: seq<T>, q: nat, x: T)
    requires q <= |rest|
    ensures s + (rest[..q] + [x] + rest[q..]) == (s + rest)[..|s| + q] + [x] + (s + rest)[|s| + q..]
  {
    assert (s + rest)[..|s| + q] == s + rest[..q] && (s + rest)[|s| + q..] == rest[q..];
  }

  /** A scan goes through the chains in their order, so its nodes ascend by masked hash value. */
  lemma {:induction false} FlatAscends<K, V>(heads: seq<Node?<K, V>>, chains: seq<seq<Node<K, V>>>, mask: nat,
                                             from: nat, i: nat, j: nat)
    requires AllChains(heads, chains, mask) && i <= j < |Flat(chains, from)|
    ensures from <= And(Flat(chains, from)[i].hkey, mask) <= And(Flat(chains, from)[j].hkey, mask)
    decreases |chains| - from
  {
    hide And, Linked, Distinct;
    var s := chains[from];
    assert ChainOk(heads[from], s, mask, from);
    if i >= |s| {
      FlatAscends(heads, chains, mask, from + 1, i - |s|, j - |s|);
    } else {
      assert Flat(chains, from)[i] in s;
      if j >= |s| {
        FlatAscends(heads, chains, mask, from + 1, 0, j - |s|);
      } else {
        assert Flat(chains, from)[j] in s;
      }
    }
  }

  lemma {:induction false} DistinctSize<K, V>(s: seq<Node<K, V>>, all: set<Node<K, V>>)
    requires Distinct(s) && Elements(s) == all
    ensures |s| == |all|
    decreases |s|
  {
    if s != [] {
      var front, x := s[..|s| - 1], s[|s| - 1];
      assert s == front + [x];
      assert Elements(front) == all - {x};
      DistinctSize(front, all - {x});
    } else {
      assert Elements(s) == {};
    }
  }

  lemma {:induction false} ValuesSize<K, V>(m: map<K, Node<K, V>>, size: nat)
    requires |m| == size && forall k | k in m :: m[k].key == k
    ensures |m.Values| == size
    decreases size
  {
    if size > 0 {
      var k :| k in m;
      var m' := m - {k};
      assert m.Values == m'.Values + {m[k]} by {
        forall x | x in m.Values
          ensures x in m'.Values + {m[k]}
        {
          var k' :| k' in m && m[k'] == x;
          assert k' != k ==> m'[k'] == x;
        }
      }
      assert m[k] !in m'.Values;
      ValuesSize(m', size - 1);
    }
  }

  /** A scan meets exactly the nodes of the map, each once. */
  lemma FlatIsMap<K, V>(m: map<K, Node<K, V>>, heads: seq<Node?<K, V>>, chains: seq<seq<Node<K, V>>>, mask: nat,
                        f: K -> nat)
    requires MapOk(m, chains, mask, f) && AllChains(heads, chains, mask)
    ensures Distinct(Flat(chains, 0)) && |Flat(chains, 0)| == |m|
    ensures Elements(Flat(chains, 0)) == m.Values
  {
    hide And, Linked;
    FlatDistinct(heads, chains, mask, 0);
    var flat := Flat(chains, 0);
    forall x | x in flat
      ensures x in m.Values
    {
      FlatContains(chains, 0, x);
      assert x in NodesOf(chains);
    }
    forall x | x in m.Values
      ensures x in flat
    {
      var k :| k in m && m[k] == x;
      assert NodeOk(m[k], chains, mask, f, k);
      FlatContains(chains, 0, x);
    }
    assert Elements(flat) == m.Values;
    DistinctSize(flat, m.Values);
    assert forall k | k in m :: NodeOk(m[k], chains, mask, f, k);
    ValuesSize(m, |m|);
  }

  /** A scanner at a node of `chain` that has `left` nodes of that chain before it. */
  ghost predicate ScanOk<K, V>(chains: seq<seq<Node<K, V>>>, chain: nat, next: Node?<K, V>, left: nat,
                               todo: seq<Node<K, V>>) {
    && next == At(todo, 0)
    && (todo != [] ==>
          && chain < |chains| && 0 < left <= |chains[chain]|
          && todo == chains[chain][|chains[chain]| - left..] + Flat(chains, chain + 1))
  }

  /** Deleting a node takes it out of the scan order and keeps the order of the others. */
  lemma {:induction false} FlatWithout<K, V>(chains: seq<seq<Node<K, V>>>, c: nat, k: nat, from: nat) returns (p: nat)
    requires from <= c < |chains| && k < |chains[c]|
    ensures p < |Flat(chains, from)| && Flat(chains, from)[p] == chains[c][k]
    ensures Flat(chains[c := Without(chains[c], k)], from) == Without(Flat(chains, from), p)
    decreases c - from
  {
    var s, chains' := chains[from], chains[c := Without(chains[c], k)];
    if from == c {
      p := k;
      FlatSame(chains, chains', from + 1);
    } else {
      var q := FlatWithout(chains, c, k, from + 1);
      p := |s| + q;
    }
    assert Flat(chains, from) == s + Flat(chains, from + 1);
  }

  /** Deleting a node that has been returned already does not disturb the scan. */
  lemma ScanSurvives<K, V>(chains: seq<seq<Node<K, V>>>, c: nat, k: nat, chain: nat, next: Node?<K, V>, left: nat,
                           todo: seq<Node<K, V>>)
    requires ScanOk(chains, chain, next, left, todo)
    requires c < |chains| && k < |chains[c]| && chains[c][k] !in todo
    ensures ScanOk(chains[c := Without(chains[c], k)], chain, next, left, todo)
  {
    hide Flat, Without;
    var chains' := chains[c := Without(chains[c], k)];
    if todo != [] {
      var s, x := chains[chain], chains[c][k];
      FlatContains(chains, chain + 1, x);
      assert c <= chain;
      FlatSame(chains, chains', chain + 1);
      if c == chain {
        TailSurvives(s, k, left);
      }
    }
  }

  lemma TailSurvives<T>(s: seq<T>, k: nat, left: nat)
    requires 0 < left <= |s| && k < |s| && s[k] !in s[|s| - left..]
    ensures |Without(s, k)| == |s| - 1 && left < |s|
    ensures Without(s, k)[|s| - 1 - left..] == s[|s| - left..] && Without(s, k)[|s| - 1 - left] == s[|s| - left]
  {
    assert forall i | |s| - left <= i < |s| :: s[i] in s[|s| - left..];
  }
}
