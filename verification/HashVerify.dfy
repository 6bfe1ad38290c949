/** The table's own consistency check. */
module HashVerify {
  import opened Bits
  import opened HashChains
  import opened HashArrays
  import opened HashOrder
  import opened HashTables

  ghost predicate PowerOfTwo(n: nat) {
    exists k: nat :: n == Pow2(k)
  }

  lemma HalfPower(n: nat)
    requires n > 0 && n % 2 == 0
    ensures PowerOfTwo(n) <==> PowerOfTwo(n / 2)
  {
    if PowerOfTwo(n) {
      var k: nat :| n == Pow2(k);
      assert n / 2 == Pow2(k - 1);
    } else if PowerOfTwo(n / 2) {
      var k: nat :| n / 2 == Pow2(k);
      assert n == Pow2(k + 1);
    }
  }

  /** `is_power_of_two` */
  method IsPowerOfTwo(arg: nat) returns (r: bool)
    ensures r <==> PowerOfTwo(arg)
  {
    if arg == 0 { return false; }
    var a := arg;
    while a % 2 == 0
      invariant a > 0 && (PowerOfTwo(arg) <==> PowerOfTwo(a))
      decreases a
    {
      HalfPower(a);
      a := a / 2;
    }
    assert Pow2(0) == 1;
    return a == 1;
  }

  /** A table whose chains end; nothing else is known of it. */
  ghost predicate Shaped<K, V>(hash: HashTable<K, V>)
    reads hash, hash.table, NodesOf(hash.chains)
  {
    && hash.table.Length == hash.nchains == |hash.chains|
    && forall c | 0 <= c < hash.nchains :: Linked(hash.table[c], hash.chains[c])
  }

  /** Every node of chain `c` selects chain `c`. */
  ghost predicate Placed<K, V>(s: seq<Node<K, V>>, mask: nat, c: nat)
    reads s
  {
    forall n | n in s :: And(n.hkey, mask) == c
  }

  /** `hash_verify` accepts exactly the tables whose marks, placement and node count are right. */
  method Verify<K, V>(hash: HashTable<K, V>) returns (ok: bool)
    requires Shaped(hash)
    ensures ok <==>
              && hash.lowmark < hash.highmark && PowerOfTwo(hash.highmark) && PowerOfTwo(hash.lowmark)
              && (forall c | 0 <= c < hash.nchains :: Placed(hash.chains[c], hash.mask, c))
              && |Flat(hash.chains, 0)| == hash.nodecount
  {
    hide And, PowerOfTwo, Pow2;
    var count := 0;
    if hash.lowmark >= hash.highmark { return false; }
    var high := IsPowerOfTwo(hash.highmark);
    if !high { return false; }
    var low := IsPowerOfTwo(hash.lowmark);
    if !low { return false; }
    var chain := 0;
    while chain < hash.nchains
      invariant chain <= hash.nchains
      invariant forall c | 0 <= c < chain :: Placed(hash.chains[c], hash.mask, c)
      invariant count + |Flat(hash.chains, chain)| == |Flat(hash.chains, 0)|
    {
      ghost var s := hash.chains[chain];
      var placed, n := CountChain(hash.table[chain], hash.mask, chain, s);
      if !placed { return false; }
      count := count + n;
      chain := chain + 1;
    }
    return count == hash.nodecount;
  }

  /** The inner loop over one chain. */
  method CountChain<K, V>(head: Node?<K, V>, mask: nat, chain: nat, ghost s: seq<Node<K, V>>)
    returns (placed: bool, n: nat)
    requires Linked(head, s)
    ensures placed <==> Placed(s, mask, chain)
    ensures placed ==> n == |s|
  {
    hide And;
    var hptr := head;
    n := 0;
    while hptr != null
      invariant n <= |s| && hptr == At(s, n) && Placed(s[..n], mask, chain)
      decreases |s| - n
    {
      assert LinkAt(s, n);
      if And(hptr.hkey, mask) != chain {
        assert hptr in s;
        return false, n;
      }
      assert s[..n + 1] == s[..n] + [hptr];
      hptr, n := hptr.next, n + 1;
    }
    assert s[..n] == s;
    return true, n;
  }

  /** Every reachable table passes. */
  lemma ValidPasses<K, V>(hash: HashTable<K, V>)
    requires hash.Valid()
    ensures Shaped(hash)
    ensures hash.lowmark < hash.highmark && PowerOfTwo(hash.highmark) && PowerOfTwo(hash.lowmark)
    ensures forall c | 0 <= c < hash.nchains :: Placed(hash.chains[c], hash.mask, c)
    ensures |Flat(hash.chains, 0)| == hash.nodecount
  {
    hide And;
    hash.FlatOfTable();
    assert hash.highmark == Pow2(hash.bits + 1) && hash.lowmark == Pow2(hash.bits - 1);
    assert forall c | 0 <= c < hash.nchains :: ChainOk(hash.table[..][c], hash.chains[c], hash.mask, c);
  }
}
