/** The array of chains, what is kept of it, and how a node enters and leaves it. */
module HashArrays {
  import opened Bits
  import opened HashChains

  const INIT_BITS := 6
  const INIT_SIZE := 64

  /** Masking a hash value selects its chain. */
  lemma MaskSelects(x: nat, bits: nat)
    ensures And(x, Pow2(bits) - 1) < Pow2(bits)
  {
    AndMask(x, bits);
  }

  lemma MaskKeeps(x: nat, bits: nat)
    requires x < Pow2(bits)
    ensures And(x, Pow2(bits) - 1) == x
  {
    hide And, Pow2;
    AndMask(x, bits);
    ModUnique(x, Pow2(bits), 0, x);
  }

  /** One more bit of mask sends a hash value to its old chain or to that chain's sister in the new half. */
  lemma MaskGrows(x: nat, bits: nat)
    ensures And(x, Pow2(bits + 1) - 1) == And(x, Pow2(bits) - 1) + And(x, Pow2(bits))
    ensures And(x, Pow2(bits)) == 0 || And(x, Pow2(bits)) == Pow2(bits)
  {
    AndMask(x, bits);
    AndMask(x, bits + 1);
    AndSingleBit(x, bits);
  }

  lemma PowDouble(bits: nat)
    ensures Pow2(bits + 1) == 2 * Pow2(bits)
  {
  }

  // ---------------------------------------------------------------- invariants

  /** A chain in good order: linked, without repetition, holding only nodes that hash here. */
  ghost predicate ChainOk<K, V>(head: Node?<K, V>, s: seq<Node<K, V>>, mask: nat, c: nat)
    reads s
  {
    && Linked(head, s) && Distinct(s)
    && forall n | n in s :: And(n.hkey, mask) == c
  }

  ghost function NodesOf<K, V>(chains: seq<seq<Node<K, V>>>): (r: set<Node<K, V>>)
    ensures forall c, n | 0 <= c < |chains| && n in chains[c] :: n in r
    ensures forall o: object {:trigger o in r} | o in r :: o is Node<K, V>
  {
    set c, n | 0 <= c < |chains| && n in chains[c] :: n
  }

  ghost predicate AllChains<K, V>(heads: seq<Node?<K, V>>, chains: seq<seq<Node<K, V>>>, mask: nat)
    reads NodesOf(chains)
  {
    && |heads| == |chains|
    && forall c | 0 <= c < |chains| :: ChainOk(heads[c], chains[c], mask, c)
  }

  ghost predicate NodeOk<K, V>(n: Node<K, V>, chains: seq<seq<Node<K, V>>>, mask: nat, f: K -> nat, k: K)
    reads n`key, n`hkey
  {
    && n.key == k && n.hkey == f(k)
    && And(f(k), mask) < |chains| && n in chains[And(f(k), mask)]
  }

  /** The chains hold exactly the nodes of the map, each where the hash value of its key says. */
  ghost predicate MapOk<K, V>(m: map<K, Node<K, V>>, chains: seq<seq<Node<K, V>>>, mask: nat, f: K -> nat)
    reads m.Values`key, m.Values`hkey
  {
    && NodesOf(chains) <= m.Values
    && forall k | k in m :: NodeOk(m[k], chains, mask, f, k)
  }

  // ---------------------------------------------------------------- surgery on the array of chains

  method PutFront<K, V>(table: array<Node?<K, V>>, chain: nat, node: Node<K, V>, key: K, hkey: nat,
                        ghost mask: nat, ghost chains: seq<seq<Node<K, V>>>)
    requires AllChains(table[..], chains, mask) && chain < |chains| && And(hkey, mask) == chain
    requires node !in NodesOf(chains)
    modifies table, node
    ensures node.key == key && node.hkey == hkey && node.data == old(node.data)
    ensures AllChains(table[..], chains[chain := [node] + chains[chain]], mask)
  {
    hide Linked, Distinct, And;
    ghost var heads := table[..];
    ghost var chains' := chains[chain := [node] + chains[chain]];
    assert ChainOk(heads[chain], chains[chain], mask, chain);
    node.key, node.hkey := key, hkey;
    Push(node, table[chain], chains[chain]);
    table[chain] := node;
    forall c | 0 <= c < |chains'|
      ensures ChainOk(table[c], chains'[c], mask, c)
    {
      if c != chain {
        assert node !in chains[c];
        assert old(ChainOk(heads[c], chains[c], mask, c));
      }
    }
  }

  /** The chains with the node in front of one of them. */
  ghost function InFront<K, V>(chains: seq<seq<Node<K, V>>>, c: nat, node: Node<K, V>): seq<seq<Node<K, V>>> {
    if c < |chains| then chains[c := [node] + chains[c]] else chains
  }

  lemma MapOkAdd<K, V>(m: map<K, Node<K, V>>, chains: seq<seq<Node<K, V>>>, mask: nat, f: K -> nat, k: K,
                       node: Node<K, V>)
    requires MapOk(m, chains, mask, f) && k !in m && And(f(k), mask) < |chains|
    requires node.key == k && node.hkey == f(k)
    ensures var c := And(f(k), mask);
            MapOk(m[k := node], chains[c := [node] + chains[c]], mask, f)
  {
    hide And;
    var c := And(f(k), mask);
    var m', chains' := m[k := node], chains[c := [node] + chains[c]];
    assert m'[k] == node;
    forall n | n in NodesOf(chains')
      ensures n in m'.Values
    {
      if n != node {
        assert n in NodesOf(chains);
        var k' :| k' in m && m[k'] == n;
        assert m'[k'] == n;
      }
    }
    forall k' | k' in m'
      ensures NodeOk(m'[k'], chains', mask, f, k')
    {
      assert k' != k ==> NodeOk(m[k'], chains, mask, f, k');
    }
  }

  // ---------------------------------------------------------------- removal

  /** Take a node out of its chain; only `next` fields change. */
  method TakeOut<K, V>(table: array<Node?<K, V>>, chain: nat, node: Node<K, V>, ghost k: nat,
                       ghost mask: nat, ghost chains: seq<seq<Node<K, V>>>)
    requires AllChains(table[..], chains, mask) && chain < |chains| && k < |chains[chain]| && chains[chain][k] == node
    modifies table, chains[chain]`next
    ensures AllChains(table[..], chains[chain := Without(chains[chain], k)], mask)
  {
    hide And;
    ghost var heads, s := table[..], chains[chain];
    ghost var chains' := chains[chain := Without(s, k)];
    assert ChainOk(heads[chain], s, mask, chain);
    var head := Unlink(table[chain], node, s, k);
    ghost var heads' := heads[chain := head];
    forall c | 0 <= c < |chains'|
      ensures ChainOk(heads'[c], chains'[c], mask, c)
    {
      if c != chain {
        ghost var t := chains[c];
        assert old(ChainOk(heads[c], t, mask, c));
        assert forall x | x in t :: x !in s;
        forall j | 0 <= j < |t|
          ensures LinkAt(t, j)
        {
          assert old(LinkAt(t, j));
          assert t[j] !in s;
        }
      }
    }
    assert AllChains(heads', chains', mask);
    assert forall o: object | o in NodesOf(chains') :: o is Node<K, V>;
    table[chain] := head;
    assert table[..] == heads';
  }

  lemma MapOkRemove<K, V>(m: map<K, Node<K, V>>, heads: seq<Node?<K, V>>, chains: seq<seq<Node<K, V>>>, mask: nat,
                          f: K -> nat, c: nat, k: nat)
    requires MapOk(m, chains, mask, f) && AllChains(heads, chains, mask) && c < |chains| && k < |chains[c]|
    requires chains[c][k].key in m && m[chains[c][k].key] == chains[c][k]
    ensures MapOk(m - {chains[c][k].key}, chains[c := Without(chains[c], k)], mask, f)
  {
    hide And, Linked;
    var s, node := chains[c], chains[c][k];
    var m', chains' := m - {node.key}, chains[c := Without(s, k)];
    forall x | x in NodesOf(chains')
      ensures x in m'.Values
    {
      var d :| 0 <= d < |chains'| && x in chains'[d];
      assert x in chains[d] && x in NodesOf(chains);
      assert ChainOk(heads[c], s, mask, c) && ChainOk(heads[d], chains[d], mask, d);
      assert x != node;
      var k' :| k' in m && m[k'] == x;
      assert m'[k'] == x;
    }
    forall k' | k' in m'
      ensures NodeOk(m'[k'], chains', mask, f, k')
    {
      assert NodeOk(m[k'], chains, mask, f, k');
    }
  }

  lemma DistinctJoin<K, V>(a: seq<Node<K, V>>, b: seq<Node<K, V>>)
    requires Distinct(a) && Distinct(b) && forall x | x in a :: x !in b
    ensures Distinct(a + b)
  {
    var t := a + b;
    forall i, j | 0 <= i < j < |t|
      ensures t[i] != t[j]
    {
      assert i < |a| <= j ==> t[i] in a && t[j] in b;
    }
  }
}
