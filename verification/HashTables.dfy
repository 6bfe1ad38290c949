/** The extendible chained hash table. */
module HashTables {
  import opened Bits
  import opened HashChains
  import opened HashArrays
  import opened HashResize
  import opened HashOrder

  class HashTable<K(==), V> {
    var table: array<Node?<K, V>>
    var nchains: nat
    var nodecount: nat
    var maxcount: nat
    var highmark: nat
    var lowmark: nat
    var mask: nat
    const hashFun: K -> nat

    /** The finite map the table stands for, and the nodes on each chain. */
    ghost var M: map<K, Node<K, V>>
    ghost var chains: seq<seq<Node<K, V>>>
    ghost var bits: nat

    /** Sizes and thresholds; the table never has fewer than INIT_SIZE chains. */
    ghost predicate Sized()
      reads this
    {
      && bits >= INIT_BITS && nchains == Pow2(bits) >= INIT_SIZE && mask == nchains - 1
      && highmark == 2 * nchains && 2 * lowmark == nchains
      && |chains| == nchains == table.Length
      && nodecount == |M| <= maxcount && nodecount <= 2 * nchains
    }

    ghost predicate Valid()
      reads this, table, M.Values
    {
      Sized() && MapOk(M, chains, mask, hashFun) && AllChains(table[..], chains, mask)
    }

    /** `hash_create` */
    constructor (maxcount: nat, hashFun: K -> nat)
      ensures Valid() && fresh(table) && M == map[] && this.maxcount == maxcount && this.hashFun == hashFun
      ensures nchains == table.Length == 64 && mask == 63 && highmark == 128 && lowmark == 32 && nodecount == 0
    {
      var t := new Node?<K, V>[INIT_SIZE](_ => null);
      table := t;
      this.maxcount, this.hashFun := maxcount, hashFun;
      nchains, highmark, lowmark, nodecount := INIT_SIZE, INIT_SIZE * 2, INIT_SIZE / 2, 0;
      mask := INIT_SIZE - 1;
      M, bits := map[], INIT_BITS;
      chains := seq(INIT_SIZE, _ => []);
      new;
      assert Pow2(INIT_BITS) == INIT_SIZE;
    }

    /** `hash_lookup`: exactly the node the map holds for the key. */
    method Lookup(key: K) returns (node: Node?<K, V>)
      requires Valid()
      ensures node == if key in M then M[key] else null
    {
      hide And, Pow2, Distinct;
      var hkey := hashFun(key);
      var chain := And(hkey, mask);
      MaskSelects(hkey, bits);
      ghost var s := chains[chain];
      ghost var i := 0;
      node := table[chain];
      assert ChainOk(table[..][chain], s, mask, chain);
      assert key in M ==> NodeOk(M[key], chains, mask, hashFun, key);
      while node != null
        invariant i <= |s| && node == At(s, i)
        invariant key in M ==> M[key] !in s[..i]
        decreases |s| - i
      {
        assert node in NodesOf(chains);
        if node.hkey == hkey && node.key == key {
          ghost var k :| k in M && M[k] == node;
          assert NodeOk(M[k], chains, mask, hashFun, k);
          return node;
        }
        assert LinkAt(s, i);
        assert s[..i + 1] == s[..i] + [s[i]];
        node, i := node.next, i + 1;
      }
      assert s[..i] == s;
    }

    /** `hash_insert`, which may first double the table. */
    method Insert(node: Node<K, V>, key: K)
      requires Valid() && node !in M.Values && node.next == null
      requires nodecount < maxcount && key !in M
      modifies this, table, M.Values, node
      ensures Valid() && M == old(M)[key := node] && maxcount == old(maxcount)
      ensures node.data == old(node.data)
      ensures forall n | n in old(M.Values) :: n.data == old(n.data) && n.key == old(n.key)
      ensures table == old(table) || fresh(table)
      ensures nodecount == old(nodecount) + 1
      ensures nchains == if old(nodecount) >= 2 * old(nchains) then 2 * old(nchains) else old(nchains)
      ensures old(nodecount < highmark) ==>
                mask == old(mask) && chains == InFront(old(chains), And(hashFun(key), mask), node)
    {
      hide *;
      Marks();
      if nodecount >= highmark {
        GrowTable();
      }
      AddNode(node, key);
    }

    method AddNode(node: Node<K, V>, key: K)
      requires Valid() && node !in M.Values
      requires nodecount < maxcount && nodecount < highmark && key !in M
      modifies this, table, node
      ensures Valid() && M == old(M)[key := node] && maxcount == old(maxcount) && table == old(table)
      ensures node.data == old(node.data) && nodecount == old(nodecount) + 1 && nchains == old(nchains)
      ensures mask == old(mask) && chains == InFront(old(chains), And(hashFun(key), mask), node)
    {
      hide AllChains, MapOk, And, Pow2;
      var hkey := hashFun(key);
      var chain := And(hkey, mask);
      MaskSelects(hkey, bits);
      NodesAreMapped();
      PutFront(table, chain, node, key, hkey, mask, chains);
      MapOkAdd(M, chains, mask, hashFun, key, node);
      CountIn(M[key := node], chains[chain := [node] + chains[chain]]);
    }

    /** The bookkeeping of an insertion. */
    method CountIn(ghost m': map<K, Node<K, V>>, ghost chains': seq<seq<Node<K, V>>>)
      requires Sized() && |m'| == |M| + 1 && nodecount < maxcount && nodecount < highmark && |chains'| == |chains|
      requires MapOk(m', chains', mask, hashFun) && AllChains(table[..], chains', mask)
      modifies this
      ensures Valid() && M == m' && chains == chains' && mask == old(mask)
      ensures maxcount == old(maxcount) && table == old(table)
      ensures nodecount == old(nodecount) + 1 && nchains == old(nchains)
    {
      hide AllChains, MapOk, And, Pow2;
      ghost var heads := table[..];
      assert forall o: object | o in NodesOf(chains') :: o is Node<K, V>;
      assert forall o: object | o in m'.Values :: o is Node<K, V>;
      nodecount := nodecount + 1;
      M, chains := m', chains';
      assert table[..] == heads;
    }

    lemma Marks()
      requires Valid()
      ensures highmark == 2 * nchains && 2 * lowmark == nchains
    {
    }

    lemma InitialSize()
      ensures INIT_SIZE == 64
    {
    }

    lemma NodesAreMapped()
      requires MapOk(M, chains, mask, hashFun)
      ensures NodesOf(chains) <= M.Values
    {
    }

    method GrowTable()
      requires Valid()
      modifies this, table, M.Values
      ensures Valid() && M == old(M) && maxcount == old(maxcount)
      ensures nchains == 2 * old(nchains) && nodecount == old(nodecount) < highmark
      ensures fresh(table)
      ensures forall n | n in M.Values :: n.data == old(n.data) && n.key == old(n.key)
    {
      hide AllChains, MapOk, And, Pow2;
      var newtable;
      ghost var slots;
      newtable, slots := Double(table, nchains, chains, bits, M, hashFun);
      ghost var heads := newtable[..];
      assert forall o: object | o in NodesOf(slots) :: o is Node<K, V>;
      assert forall o: object | o in M.Values :: o is Node<K, V>;
      PowDouble(bits);
      Install(newtable, slots);
      assert table[..] == heads;
    }

    /** The bookkeeping of a doubled table. */
    method Install(newtable: array<Node?<K, V>>, ghost slots: seq<seq<Node<K, V>>>)
      modifies this
      ensures table == newtable && chains == slots && bits == old(bits) + 1 && M == old(M)
      ensures nodecount == old(nodecount) && maxcount == old(maxcount) && mask == 2 * old(mask) + 1
      ensures nchains == 2 * old(nchains) && lowmark == 2 * old(lowmark) && highmark == 2 * old(highmark)
    {
      table := newtable;
      mask := 2 * mask + 1;
      nchains, lowmark, highmark := 2 * nchains, 2 * lowmark, 2 * highmark;
      chains, bits := slots, bits + 1;
    }

    method ShrinkTable()
      requires Valid() && nodecount <= lowmark && nodecount > INIT_SIZE
      modifies this, table, M.Values
      ensures Valid() && M == old(M) && maxcount == old(maxcount) && nodecount == old(nodecount)
      ensures 2 * nchains == old(nchains) && nchains > INIT_SIZE
      ensures fresh(table)
      ensures forall n | n in M.Values :: n.data == old(n.data) && n.key == old(n.key)
    {
      hide AllChains, MapOk, And, Joined, Sized, Pow2;
      HalfSized();
      var half := nchains / 2;
      var newtable;
      ghost var joined;
      newtable, joined := Halve(table, half, chains, bits - 1, M, hashFun);
      ghost var heads := newtable[..];
      assert forall o: object | o in NodesOf(joined) :: o is Node<K, V>;
      assert forall o: object | o in M.Values :: o is Node<K, V>;
      InstallHalf(newtable, half, joined);
      assert table[..] == heads;
    }

    /** A table large enough to shrink has more than twice the initial number of chains. */
    lemma HalfSized()
      requires Sized() && nodecount <= lowmark && nodecount > INIT_SIZE
      ensures bits > INIT_BITS && Pow2(bits - 1) == nchains / 2 > INIT_SIZE && nchains == 2 * (nchains / 2)
      ensures mask == nchains - 1 && |chains| == nchains == table.Length
      ensures mask / 2 == nchains / 2 - 1 && 2 * (lowmark / 2) == nchains / 2 && highmark / 2 == nchains
      ensures nodecount == |M| <= maxcount && nodecount <= nchains / 2
    {
      PowDouble(bits - 1);
      PowDouble(bits - 2);
    }

    /** The bookkeeping of a halved table. */
    method InstallHalf(newtable: array<Node?<K, V>>, half: nat, ghost joined: seq<seq<Node<K, V>>>)
      requires Sized() && nodecount <= lowmark && nodecount > INIT_SIZE
      requires half == nchains / 2 == newtable.Length == |joined|
      modifies this
      ensures Sized() && table == newtable && chains == joined && M == old(M) && mask == half - 1
      ensures nodecount == old(nodecount) && maxcount == old(maxcount) && nchains == half
    {
      hide Pow2, Sized;
      HalfSized();
      table, mask, nchains := newtable, mask / 2, half;
      lowmark, highmark := lowmark / 2, highmark / 2;
      chains, bits := joined, bits - 1;
      MakeSized();
    }

    lemma MakeSized()
      requires bits >= INIT_BITS && nchains == Pow2(bits) > INIT_SIZE && mask == nchains - 1
      requires highmark == 2 * nchains && 2 * lowmark == nchains && |chains| == nchains == table.Length
      requires nodecount == |M| <= maxcount && nodecount <= 2 * nchains
      ensures Sized()
    {
      hide Pow2;
    }

    /** `hash_scan_delete`: no resizing, and only the node's own chain changes. */
    method ScanDelete(node: Node<K, V>) returns (ghost c: nat, ghost k: nat)
      requires Valid() && node.key in M && M[node.key] == node
      modifies this, table, M.Values
      ensures Valid() && M == old(M) - {old(node.key)} && maxcount == old(maxcount) && table == old(table)
      ensures M.Values == old(M.Values) - {node}
      ensures nodecount == old(nodecount) - 1 && nchains == old(nchains)
      ensures c < |old(chains)| && k < |old(chains)[c]| && old(chains)[c][k] == node
      ensures chains == old(chains)[c := Without(old(chains)[c], k)]
      ensures node.next == null
      ensures forall n | n in old(M.Values) :: n.data == old(n.data) && n.key == old(n.key)
    {
      hide AllChains, MapOk, And, Pow2;
      ghost var m, from, key := M, chains, node.key;
      var chain := And(node.hkey, mask);
      NodePlace(node);
      NodesAreMapped();
      c := chain;
      k :| 0 <= k < |from[c]| && from[c][k] == node;
      MapOkRemove(m, table[..], from, mask, hashFun, c, k);
      ghost var m', chains' := m - {key}, from[c := Without(from[c], k)];
      ValuesWithout(m, key);
      TakeOut(table, chain, node, k, mask, from);
      Forget(node, chain, k, m', chains');
    }

    lemma ValuesWithout(m: map<K, Node<K, V>>, key: K)
      requires MapOk(m, chains, mask, hashFun) && key in m
      ensures (m - {key}).Values == m.Values - {m[key]}
    {
      var m' := m - {key};
      forall x | x in m.Values && x != m[key]
        ensures x in m'.Values
      {
        var k :| k in m && m[k] == x;
        assert m'[k] == x;
      }
      forall k | k in m'
        ensures m'[k] != m[key]
      {
        assert NodeOk(m[k], chains, mask, hashFun, k) && NodeOk(m[key], chains, mask, hashFun, key);
      }
    }

    /** After the surgery: the count, the ghost map, and the node's own link. */
    method Forget(node: Node<K, V>, ghost c: nat, ghost k: nat, ghost m': map<K, Node<K, V>>,
                  ghost chains': seq<seq<Node<K, V>>>)
      requires Sized() && node.key in M && M[node.key] == node && m' == M - {node.key}
      requires |chains'| == |chains|
      requires MapOk(m', chains', mask, hashFun) && AllChains(table[..], chains', mask)
      modifies this, node`next
      ensures Valid() && M == m' && chains == chains' && nodecount == old(nodecount) - 1 && node.next == null
      ensures maxcount == old(maxcount) && table == old(table) && nchains == old(nchains) && bits == old(bits)
    {
      hide AllChains, MapOk, And, Pow2;
      ghost var heads, mask' := table[..], mask;
      NotThere(m', chains', node);
      node.next := null;
      assert AllChains(heads, chains', mask');
      assert MapOk(m', chains', mask', hashFun);
      assert forall o: object | o in NodesOf(chains') :: o is Node<K, V>;
      assert forall o: object | o in m'.Values :: o is Node<K, V>;
      nodecount := nodecount - 1;
      M, chains := m', chains';
      assert table[..] == heads;
    }

    lemma NotThere(m': map<K, Node<K, V>>, chains': seq<seq<Node<K, V>>>, node: Node<K, V>)
      requires MapOk(m', chains', mask, hashFun) && node.key !in m'
      ensures node !in NodesOf(chains') && node !in m'.Values
    {
      forall x | x in m'.Values
        ensures x.key in m'
      {
        var k :| k in m' && m'[k] == x;
        assert NodeOk(m'[k], chains', mask, hashFun, k);
      }
    }

    lemma NodePlace(node: Node<K, V>)
      requires Valid() && node.key in M && M[node.key] == node
      ensures And(node.hkey, mask) < |chains| && node in chains[And(node.hkey, mask)]
    {
      assert NodeOk(M[node.key], chains, mask, hashFun, node.key);
    }

    lemma Held(node: Node<K, V>)
      requires Valid() && node in M.Values
      ensures node.key in M && M[node.key] == node
    {
      var k :| k in M && M[k] == node;
      assert NodeOk(M[k], chains, mask, hashFun, k);
    }

    /** What a scan from the beginning will meet. */
    lemma FlatOfTable()
      requires Valid()
      ensures Distinct(Flat(chains, 0)) && |Flat(chains, 0)| == nodecount
      ensures Elements(Flat(chains, 0)) == M.Values
    {
      FlatIsMap(M, table[..], chains, mask, hashFun);
    }

    /** Where a node put in front of its chain comes in a scan: behind what hashes lower, before all else. */
    lemma FlatInFront(node: Node<K, V>, key: K) returns (p: nat)
      requires Valid()
      ensures p <= |Flat(chains, 0)|
      ensures var c, flat := And(hashFun(key), mask), Flat(chains, 0);
              && Flat(InFront(chains, c, node), 0) == flat[..p] + [node] + flat[p..]
              && forall i | 0 <= i < p :: And(hashFun(flat[i].key), mask) < c
    {
      hide And, Flat, Pow2;
      var c, flat := And(hashFun(key), mask), Flat(chains, 0);
      MaskSelects(hashFun(key), bits);
      p := FlatPush(table[..], chains, mask, c, node, 0);
      FlatOfTable();
      forall i | 0 <= i < p
        ensures And(hashFun(flat[i].key), mask) < c
      {
        assert flat[i] in Elements(flat);
        Held(flat[i]);
        assert NodeOk(M[flat[i].key], chains, mask, hashFun, flat[i].key);
      }
    }

    /** A hash value below the initial size selects the chain of that number in every table. */
    lemma SmallHash(h: nat)
      requires Valid() && h < INIT_SIZE
      ensures And(h, mask) == h
    {
      hide And, MapOk, AllChains, Pow2;
      MaskKeeps(h, bits);
    }

    lemma FlatByChain(i: nat, j: nat)
      requires Valid() && i <= j < |Flat(chains, 0)|
      ensures var flat := Flat(chains, 0);
              && flat[i].hkey == hashFun(flat[i].key) && flat[j].hkey == hashFun(flat[j].key)
              && And(flat[i].hkey, mask) <= And(flat[j].hkey, mask)
    {
      hide And, Flat, Pow2;
      var flat := Flat(chains, 0);
      FlatOfTable();
      FlatAscends(table[..], chains, mask, 0, i, j);
      assert flat[i] in Elements(flat) && flat[j] in Elements(flat);
      Held(flat[i]);
      Held(flat[j]);
      assert NodeOk(M[flat[i].key], chains, mask, hashFun, flat[i].key);
      assert NodeOk(M[flat[j].key], chains, mask, hashFun, flat[j].key);
    }

    /** The end of `hash_free_nodes`: the count is zeroed and `clear_table` run, on a table already emptied. */
    method ClearTable()
      requires Valid() && M == map[]
      modifies this`nodecount, table
      ensures Valid() && nodecount == 0
    {
      hide And, Pow2;
      nodecount := 0;
      forall c | 0 <= c < |chains|
        ensures chains[c] == []
      {
        assert forall n | n in chains[c] :: n in NodesOf(chains);
        assert forall i | 0 <= i < |chains[c]| :: chains[c][i] in chains[c];
      }
      forall i | 0 <= i < table.Length {
        table[i] := null;
      }
    }

    /** `hash_delete`, which may first halve the table. */
    method Delete(node: Node<K, V>)
      requires Valid() && node.key in M && M[node.key] == node
      modifies this, table, M.Values
      ensures Valid() && M == old(M) - {old(node.key)} && maxcount == old(maxcount)
      ensures nodecount == old(nodecount) - 1
      ensures nchains == if 2 * old(nodecount) <= old(nchains) && old(nodecount) > 64 then old(nchains) / 2 else old(nchains)
      ensures table == old(table) || fresh(table)
      ensures forall n | n in old(M.Values) :: n.data == old(n.data)
    {
      hide *;
      Marks();
      InitialSize();
      if nodecount <= lowmark && nodecount > INIT_SIZE {
        ShrinkTable();
      }
      ghost var c, k := ScanDelete(node);
    }
  }
}
