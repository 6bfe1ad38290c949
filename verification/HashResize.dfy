/** Doubling the table by splitting its chains, and halving it by joining sister chains. */
module HashResize {
  import opened Bits
  import opened HashChains
  import opened HashArrays

  // ---------------------------------------------------------------- doubling

  /** Chain `c` of `n`, split by the newly exposed bit into chain `c` and its sister `c + n`. */
  ghost predicate SplitInto<K, V>(s: seq<Node<K, V>>, ls: seq<Node<K, V>>, hs: seq<Node<K, V>>) {
    && (forall n | n in s :: n in ls || n in hs)
    && (forall n | n in ls :: n in s)
    && (forall n | n in hs :: n in s)
  }

  lemma SisterMask<K, V>(s: seq<Node<K, V>>, bits: nat)
    ensures forall x | x in s ::
              && And(x.hkey, 2 * Pow2(bits) - 1) == And(x.hkey, Pow2(bits) - 1) + And(x.hkey, Pow2(bits))
              && (And(x.hkey, Pow2(bits)) == 0 || And(x.hkey, Pow2(bits)) == Pow2(bits))
  {
    hide And;
    forall x | x in s
      ensures And(x.hkey, 2 * Pow2(bits) - 1) == And(x.hkey, Pow2(bits) - 1) + And(x.hkey, Pow2(bits))
      ensures And(x.hkey, Pow2(bits)) == 0 || And(x.hkey, Pow2(bits)) == Pow2(bits)
    {
      MaskGrows(x.hkey, bits);
    }
  }

  function Home(c: nat, n: nat): int {
    if c < n then c else c - n
  }

  /** Slot `c` of the doubled table while the first `done` chains have been split. */
  ghost predicate SlotOk<K, V>(head: Node?<K, V>, s: seq<Node<K, V>>, n: nat, c: nat, done: nat)
    requires n > 0
    reads s
  {
    && Linked(head, s) && Distinct(s)
    && (forall x | x in s :: And(x.hkey, n - 1) == Home(c, n))
    && (Home(c, n) < done ==> forall x | x in s :: And(x.hkey, 2 * n - 1) == c)
  }

  ghost predicate Slots<K, V>(heads: seq<Node?<K, V>>, slots: seq<seq<Node<K, V>>>, n: nat, done: nat)
    reads NodesOf(slots)
  {
    && |heads| == |slots| == 2 * n
    && forall c | 0 <= c < 2 * n :: SlotOk(heads[c], slots[c], n, c, done)
  }

  ghost predicate SlotsFrom<K, V>(chains: seq<seq<Node<K, V>>>, slots: seq<seq<Node<K, V>>>, n: nat) {
    && |chains| == n && |slots| == 2 * n
    && forall c | 0 <= c < n :: SplitInto(chains[c], slots[c], slots[c + n])
  }

  /** Splitting the chain in one slot leaves every other slot as it was. */
  method SplitSlot<K, V>(head: Node?<K, V>, chain: nat, n: nat, ghost heads: seq<Node?<K, V>>,
                         ghost slots: seq<seq<Node<K, V>>>, ghost bits: nat)
    returns (low: Node?<K, V>, high: Node?<K, V>, ghost ls: seq<Node<K, V>>, ghost hs: seq<Node<K, V>>)
    requires n == Pow2(bits) && chain < n && Slots(heads, slots, n, chain) && head == heads[chain]
    modifies slots[chain]`next
    ensures SplitInto(slots[chain], ls, hs)
    ensures SlotOk(low, ls, n, chain, chain + 1) && SlotOk(high, hs, n, chain + n, chain + 1)
    ensures forall c | 0 <= c < 2 * n && Home(c, n) != chain :: SlotOk(heads[c], slots[c], n, c, chain)
  {
    hide Distinct, And, Pow2;
    ghost var s := slots[chain];
    assert SlotOk(heads[chain], s, n, chain, chain);
    low, high, ls, hs := SplitChain(head, n, s);
    SisterMask(s, bits);
    forall c | 0 <= c < 2 * n && Home(c, n) != chain
      ensures SlotOk(heads[c], slots[c], n, c, chain)
    {
      ghost var t := slots[c];
      assert old(SlotOk(heads[c], t, n, c, chain));
      assert forall x | x in t :: x !in s;
      forall j | 0 <= j < |t|
        ensures LinkAt(t, j)
      {
        assert old(LinkAt(t, j));
        assert t[j] !in s;
      }
    }
  }

  lemma SlotsAdvance<K, V>(heads: seq<Node?<K, V>>, slots: seq<seq<Node<K, V>>>, n: nat, chain: nat,
                           low: Node?<K, V>, high: Node?<K, V>, ls: seq<Node<K, V>>, hs: seq<Node<K, V>>)
    requires |heads| == |slots| == 2 * n && chain < n
    requires SlotOk(low, ls, n, chain, chain + 1) && SlotOk(high, hs, n, chain + n, chain + 1)
    requires forall c | 0 <= c < 2 * n && Home(c, n) != chain :: SlotOk(heads[c], slots[c], n, c, chain)
    ensures Slots(heads[chain := low][chain + n := high], slots[chain := ls][chain + n := hs], n, chain + 1)
  {
    hide Linked, Distinct, And;
  }

  method SplitOne<K, V>(table: array<Node?<K, V>>, chain: nat, n: nat, ghost slots: seq<seq<Node<K, V>>>, ghost bits: nat)
    returns (ghost ls: seq<Node<K, V>>, ghost hs: seq<Node<K, V>>)
    requires n == Pow2(bits) && chain < n == |slots| - n && Slots(table[..], slots, n, chain)
    requires table.Length == 2 * n
    modifies table, slots[chain]`next
    ensures SplitInto(slots[chain], ls, hs)
    ensures Slots(table[..], slots[chain := ls][chain + n := hs], n, chain + 1)
  {
    hide Pow2, SplitInto, Slots, SlotOk;
    ghost var heads := table[..];
    var low, high;
    low, high, ls, hs := SplitSlot(table[chain], chain, n, heads, slots, bits);
    SlotsAdvance(heads, slots, n, chain, low, high, ls, hs);
    ghost var heads', slots' := heads[chain := low][chain + n := high], slots[chain := ls][chain + n := hs];
    assert forall o: object | o in NodesOf(slots') :: o is Node<K, V>;
    table[chain], table[chain + n] := low, high;
    assert table[..] == heads';
  }

  lemma StartSlots<K, V>(heads: seq<Node?<K, V>>, newHeads: seq<Node?<K, V>>, chains: seq<seq<Node<K, V>>>,
                         slots: seq<seq<Node<K, V>>>, n: nat)
    requires |chains| == n > 0 && |newHeads| == 2 * n && AllChains(heads, chains, n - 1)
    requires newHeads == heads + seq(n, _ => null) && slots == chains + seq(n, _ => [])
    ensures Slots(newHeads, slots, n, 0) && SlotsFrom(chains, slots, n)
  {
    hide Distinct, And;
    forall c | 0 <= c < 2 * n
      ensures SlotOk(newHeads[c], slots[c], n, c, 0)
    {
      assert c < n ==> ChainOk(heads[c], chains[c], n - 1, c);
      EmptyIsDistinct<K, V>();
    }
  }

  lemma EmptyIsDistinct<K, V>()
    ensures Distinct<K, V>([])
  {
  }

  lemma SplitKeeps<K, V>(chains: seq<seq<Node<K, V>>>, slots: seq<seq<Node<K, V>>>, n: nat, c: nat,
                         ls: seq<Node<K, V>>, hs: seq<Node<K, V>>)
    requires SlotsFrom(chains, slots, n) && c < n && slots[c + n] == [] && SplitInto(slots[c], ls, hs)
    ensures SlotsFrom(chains, slots[c := ls][c + n := hs], n)
    ensures NodesOf(slots[c := ls][c + n := hs]) <= NodesOf(slots)
  {
    assert SplitInto(chains[c], slots[c], slots[c + n]);
  }

  lemma FinishSlots<K, V>(heads: seq<Node?<K, V>>, slots: seq<seq<Node<K, V>>>, n: nat)
    requires n > 0 && Slots(heads, slots, n, n)
    ensures AllChains(heads, slots, 2 * n - 1)
  {
    hide Linked, Distinct, And;
    forall c | 0 <= c < 2 * n
      ensures ChainOk(heads[c], slots[c], 2 * n - 1, c)
    {
      assert SlotOk(heads[c], slots[c], n, c, n);
    }
  }

  /** `grow_table`: the new table is twice as large and no key is hashed again. */
  method SplitAll<K, V>(table: array<Node?<K, V>>, n: nat, ghost chains: seq<seq<Node<K, V>>>, ghost bits: nat)
    returns (newtable: array<Node?<K, V>>, ghost slots: seq<seq<Node<K, V>>>)
    requires n == Pow2(bits) == table.Length == |chains| && AllChains(table[..], chains, n - 1)
    modifies NodesOf(chains)`next
    ensures fresh(newtable) && newtable.Length == |slots| == 2 * n
    ensures AllChains(newtable[..], slots, 2 * n - 1)
    ensures SlotsFrom(chains, slots, n)
  {
    hide Linked, Distinct, And, Pow2, Slots, SlotsFrom, AllChains, SplitInto;
    ghost var heads := table[..];
    newtable := new Node?<K, V>[2 * n](_ => null);
    forall d | 0 <= d < n {
      newtable[d] := table[d];
    }
    slots := chains + seq(n, _ => []);
    assert newtable[..] == heads + seq(n, _ => null);
    StartSlots(heads, newtable[..], chains, slots, n);
    for chain := 0 to n
      invariant |slots| == 2 * n && SlotsFrom(chains, slots, n) && Slots(newtable[..], slots, n, chain)
      invariant forall c | n + chain <= c < 2 * n :: slots[c] == []
      invariant NodesOf(slots) <= NodesOf(chains)
    {
      ghost var ls, hs;
      ls, hs := SplitOne(newtable, chain, n, slots, bits);
      SplitKeeps(chains, slots, n, chain, ls, hs);
      slots := slots[chain := ls][chain + n := hs];
    }
    FinishSlots(newtable[..], slots, n);
  }

  lemma MapOkSplit<K, V>(m: map<K, Node<K, V>>, heads: seq<Node?<K, V>>, chains: seq<seq<Node<K, V>>>,
                         slots: seq<seq<Node<K, V>>>, n: nat, bits: nat, f: K -> nat)
    requires n == Pow2(bits) && |chains| == n && MapOk(m, chains, n - 1, f)
    requires SlotsFrom(chains, slots, n) && AllChains(heads, slots, 2 * n - 1)
    ensures MapOk(m, slots, 2 * n - 1, f)
  {
    hide And, Pow2, Linked, Distinct;
    forall x | x in NodesOf(slots)
      ensures x in m.Values
    {
      var c :| 0 <= c < |slots| && x in slots[c];
      var d := if c < n then c else c - n;
      assert SplitInto(chains[d], slots[d], slots[d + n]);
      assert x in chains[d];
    }
    forall k | k in m
      ensures NodeOk(m[k], slots, 2 * n - 1, f, k)
    {
      assert NodeOk(m[k], chains, n - 1, f, k);
      var c := And(f(k), n - 1);
      assert SplitInto(chains[c], slots[c], slots[c + n]);
      assert ChainOk(heads[c], slots[c], 2 * n - 1, c);
      assert ChainOk(heads[c + n], slots[c + n], 2 * n - 1, c + n);
    }
  }

  method Double<K, V>(table: array<Node?<K, V>>, n: nat, ghost chains: seq<seq<Node<K, V>>>, ghost bits: nat,
                      ghost m: map<K, Node<K, V>>, ghost f: K -> nat)
    returns (newtable: array<Node?<K, V>>, ghost slots: seq<seq<Node<K, V>>>)
    requires n == Pow2(bits) == table.Length == |chains|
    requires MapOk(m, chains, n - 1, f) && AllChains(table[..], chains, n - 1)
    modifies m.Values
    ensures fresh(newtable) && newtable.Length == |slots| == 2 * n
    ensures MapOk(m, slots, 2 * n - 1, f) && AllChains(newtable[..], slots, 2 * n - 1)
    ensures forall x | x in m.Values :: x.data == old(x.data) && x.key == old(x.key)
  {
    hide And, Pow2, Linked, Distinct, AllChains, SlotsFrom;
    newtable, slots := SplitAll(table, n, chains, bits);
    forall k | k in m
      ensures NodeOk(m[k], chains, n - 1, f, k)
    {
      assert old(NodeOk(m[k], chains, n - 1, f, k));
    }
    MapOkSplit(m, newtable[..], chains, slots, n, bits, f);
  }

  // ---------------------------------------------------------------- halving

  /** Chain `c` and its sister while the first `done` pairs have been joined. */
  ghost predicate PairOk<K, V>(low: Node?<K, V>, ls: seq<Node<K, V>>, high: Node?<K, V>, hs: seq<Node<K, V>>,
                               n: nat, c: nat, done: nat)
    requires n > 0
    reads ls, hs
  {
    && (forall x | x in ls + hs :: And(x.hkey, n - 1) == c) && Distinct(ls + hs)
    && if c < done then Linked(low, ls + hs) else Linked(low, ls) && Linked(high, hs)
  }

  ghost predicate Pairs<K, V>(heads: seq<Node?<K, V>>, chains: seq<seq<Node<K, V>>>, n: nat, done: nat)
    reads NodesOf(chains)
  {
    && |heads| == |chains| == 2 * n
    && forall c | 0 <= c < n :: PairOk(heads[c], chains[c], heads[c + n], chains[c + n], n, c, done)
  }

  ghost function Joined<K, V>(chains: seq<seq<Node<K, V>>>, n: nat): (r: seq<seq<Node<K, V>>>)
    requires |chains| == 2 * n
    ensures |r| == n
  {
    seq(n, c requires 0 <= c < n => chains[c] + chains[c + n])
  }

  lemma StartPairs<K, V>(heads: seq<Node?<K, V>>, chains: seq<seq<Node<K, V>>>, n: nat, bits: nat)
    requires n == Pow2(bits) && |chains| == 2 * n && AllChains(heads, chains, 2 * n - 1)
    ensures Pairs(heads, chains, n, 0)
  {
    hide And, Pow2, Linked, Distinct;
    forall c | 0 <= c < n
      ensures PairOk(heads[c], chains[c], heads[c + n], chains[c + n], n, c, 0)
    {
      var ls, hs := chains[c], chains[c + n];
      assert ChainOk(heads[c], ls, 2 * n - 1, c) && ChainOk(heads[c + n], hs, 2 * n - 1, c + n);
      SisterMask(ls + hs, bits);
      forall x: Node<K, V> | x in ls + hs
        ensures And(x.hkey, n - 1) == c
      {
        MaskSelects(x.hkey, bits);
      }
      DistinctJoin(ls, hs);
    }
  }

  lemma FinishPairs<K, V>(heads: seq<Node?<K, V>>, chains: seq<seq<Node<K, V>>>, n: nat)
    requires n > 0 && Pairs(heads, chains, n, n)
    ensures AllChains(heads[..n], Joined(chains, n), n - 1)
  {
    hide And, Linked, Distinct;
    var joined := Joined(chains, n);
    forall c | 0 <= c < n
      ensures ChainOk(heads[..n][c], joined[c], n - 1, c)
    {
      assert PairOk(heads[c], chains[c], heads[c + n], chains[c + n], n, c, n);
    }
  }

  /** Joining one pair leaves every other pair as it was. */
  method JoinPair<K, V>(low: Node?<K, V>, high: Node?<K, V>, chain: nat, n: nat, ghost heads: seq<Node?<K, V>>,
                        ghost chains: seq<seq<Node<K, V>>>)
    returns (head: Node?<K, V>)
    requires chain < n && Pairs(heads, chains, n, chain) && low == heads[chain] && high == heads[chain + n]
    modifies chains[chain]`next
    ensures Pairs(heads[chain := head], chains, n, chain + 1)
  {
    hide And, Distinct;
    ghost var ls, hs := chains[chain], chains[chain + n];
    assert PairOk(heads[chain], ls, heads[chain + n], hs, n, chain, chain);
    head := SpliceChains(low, high, ls, hs);
    ghost var heads' := heads[chain := head];
    forall c | 0 <= c < n
      ensures PairOk(heads'[c], chains[c], heads'[c + n], chains[c + n], n, c, chain + 1)
    {
      if c != chain {
        ghost var a, b := chains[c], chains[c + n];
        assert old(PairOk(heads[c], a, heads[c + n], b, n, c, chain));
        assert forall x | x in a + b :: x !in ls;
        if c < chain {
          forall j | 0 <= j < |a + b|
            ensures LinkAt(a + b, j)
          {
            assert old(LinkAt(a + b, j)) && (a + b)[j] !in ls;
          }
        } else {
          forall j | 0 <= j < |a|
            ensures LinkAt(a, j)
          {
            assert old(LinkAt(a, j)) && a[j] == (a + b)[j] && a[j] !in ls;
          }
          forall j | 0 <= j < |b|
            ensures LinkAt(b, j)
          {
            assert old(LinkAt(b, j)) && b[j] == (a + b)[|a| + j] && b[j] !in ls;
          }
        }
      }
    }
  }

  /** `shrink_table`: every chain swallows its sister, and the lower half of the table is kept. */
  method JoinAll<K, V>(table: array<Node?<K, V>>, n: nat, ghost chains: seq<seq<Node<K, V>>>, ghost bits: nat)
    returns (newtable: array<Node?<K, V>>)
    requires n == Pow2(bits) && table.Length == 2 * n == |chains| && AllChains(table[..], chains, 2 * n - 1)
    modifies table, NodesOf(chains)`next
    ensures fresh(newtable) && newtable.Length == n
    ensures AllChains(newtable[..], Joined(chains, n), n - 1)
  {
    hide And, Pow2, Linked, Distinct, Pairs, AllChains;
    StartPairs(table[..], chains, n, bits);
    for chain := 0 to n
      invariant Pairs(table[..], chains, n, chain)
    {
      ghost var heads := table[..];
      var head := JoinPair(table[chain], table[chain + n], chain, n, heads, chains);
      ghost var heads' := heads[chain := head];
      assert Pairs(heads', chains, n, chain + 1);
      assert forall o: object | o in NodesOf(chains) :: o is Node<K, V>;
      table[chain] := head;
      assert table[..] == heads';
    }
    FinishPairs(table[..], chains, n);
    ghost var kept, joined := table[..][..n], Joined(chains, n);
    assert forall o: object | o in NodesOf(joined) :: o is Node<K, V>;
    newtable := new Node?<K, V>[n](_ => null);
    forall d | 0 <= d < n {
      newtable[d] := table[d];
    }
    assert newtable[..] == kept;
  }

  lemma MapOkJoin<K, V>(m: map<K, Node<K, V>>, chains: seq<seq<Node<K, V>>>, n: nat, bits: nat, f: K -> nat)
    requires n == Pow2(bits) && |chains| == 2 * n && MapOk(m, chains, 2 * n - 1, f)
    ensures MapOk(m, Joined(chains, n), n - 1, f)
  {
    hide And, Pow2;
    var joined := Joined(chains, n);
    forall x | x in NodesOf(joined)
      ensures x in m.Values
    {
      var c :| 0 <= c < n && x in joined[c];
      assert x in chains[c] || x in chains[c + n];
    }
    forall k | k in m
      ensures NodeOk(m[k], joined, n - 1, f, k)
    {
      assert NodeOk(m[k], chains, 2 * n - 1, f, k);
      MaskGrows(f(k), bits);
      MaskSelects(f(k), bits);
      PowDouble(bits);
      assert joined[And(f(k), n - 1)] == chains[And(f(k), n - 1)] + chains[And(f(k), n - 1) + n];
    }
  }

  method Halve<K, V>(table: array<Node?<K, V>>, n: nat, ghost chains: seq<seq<Node<K, V>>>, ghost bits: nat,
                     ghost m: map<K, Node<K, V>>, ghost f: K -> nat)
    returns (newtable: array<Node?<K, V>>, ghost joined: seq<seq<Node<K, V>>>)
    requires n == Pow2(bits) && table.Length == 2 * n == |chains|
    requires MapOk(m, chains, 2 * n - 1, f) && AllChains(table[..], chains, 2 * n - 1)
    modifies table, m.Values
    ensures fresh(newtable) && newtable.Length == n == |joined| && joined == Joined(chains, n)
    ensures MapOk(m, joined, n - 1, f) && AllChains(newtable[..], joined, n - 1)
    ensures forall x | x in m.Values :: x.data == old(x.data) && x.key == old(x.key)
  {
    joined := Joined(chains, n);
    hide And, Pow2, Linked, Distinct, AllChains;
    newtable := JoinAll(table, n, chains, bits);
    forall k | k in m
      ensures NodeOk(m[k], chains, 2 * n - 1, f, k)
    {
      assert old(NodeOk(m[k], chains, 2 * n - 1, f, k));
    }
    MapOkJoin(m, chains, n, bits, f);
  }
}
