/** Hash nodes and the in-place surgery on a single chain of them. */
module HashChains {
  import opened Bits

  class Node<K, V> {
    var next: Node?<K, V>
    var key: K
    var data: V
    var hkey: nat

    /** `hnode_create` */
    constructor (key: K, data: V)
      ensures next == null && this.key == key && this.data == data
    {
      this.next, this.key, this.data, this.hkey := null, key, data, 0;
    }
  }

  ghost function At<K, V>(s: seq<Node<K, V>>, j: nat): Node?<K, V> {
    if j < |s| then s[j] else null
  }

  ghost predicate LinkAt<K, V>(s: seq<Node<K, V>>, j: nat)
    requires j < |s|
    reads if j < |s| then {s[j]} else {}
  {
    s[j].next == At(s, j + 1)
  }

  ghost function Elements<K, V>(s: seq<Node<K, V>>): set<Node<K, V>> {
    set n | n in s
  }

  lemma ElementsTail<K, V>(x: Node<K, V>, rest: seq<Node<K, V>>)
    requires Distinct([x] + rest)
    ensures x !in rest && x !in Elements(rest) && Elements([x] + rest) == {x} + Elements(rest)
  {
    var t := [x] + rest;
    assert t[0] == x && forall j | 0 <= j < |rest| :: t[j + 1] == rest[j];
  }

  ghost predicate Distinct<K, V>(s: seq<Node<K, V>>) {
    forall i, j | 0 <= i < j < |s| :: s[i] != s[j]
  }

  /** Following `next` from `head` visits exactly the nodes of `s`, in order, and ends. */
  ghost predicate Linked<K, V>(head: Node?<K, V>, s: seq<Node<K, V>>)
    reads s
  {
    head == At(s, 0) && forall j | 0 <= j < |s| :: LinkAt(s, j)
  }

  /** `node->next = head`: put a node in front of a chain. */
  method Push<K, V>(node: Node<K, V>, head: Node?<K, V>, ghost s: seq<Node<K, V>>)
    requires Linked(head, s) && Distinct(s) && node !in s
    modifies node`next
    ensures Linked(node, [node] + s) && Distinct([node] + s)
  {
    ghost var t := [node] + s;
    node.next := head;
    forall j | 0 <= j < |t|
      ensures LinkAt(t, j)
    {
      if j > 0 {
        assert old(LinkAt(s, j - 1));
      }
    }
  }

  /** Move one chain's nodes to two chains by one bit of their hash value. */
  method SplitChain<K, V>(head: Node?<K, V>, bit: nat, ghost s: seq<Node<K, V>>)
    returns (low: Node?<K, V>, high: Node?<K, V>, ghost ls: seq<Node<K, V>>, ghost hs: seq<Node<K, V>>)
    requires Linked(head, s) && Distinct(s)
    modifies s`next
    ensures Linked(low, ls) && Linked(high, hs) && Distinct(ls) && Distinct(hs)
    ensures forall n :: n in ls <==> n in s && And(n.hkey, bit) == 0
    ensures forall n :: n in hs <==> n in s && And(n.hkey, bit) != 0
  {
    low, high, ls, hs := null, null, [], [];
    var hptr := head;
    ghost var i := 0;
    while hptr != null
      invariant i <= |s| && hptr == At(s, i)
      invariant forall j | i <= j < |s| :: LinkAt(s, j)
      invariant Linked(low, ls) && Linked(high, hs) && Distinct(ls) && Distinct(hs)
      invariant forall n :: n in ls <==> n in s[..i] && And(n.hkey, bit) == 0
      invariant forall n :: n in hs <==> n in s[..i] && And(n.hkey, bit) != 0
      decreases |s| - i
    {
      assert LinkAt(s, i);
      var next := hptr.next;
      assert hptr !in s[..i];
      if And(hptr.hkey, bit) != 0 {
        Push(hptr, high, hs);
        high, hs := hptr, [hptr] + hs;
      } else {
        Push(hptr, low, ls);
        low, ls := hptr, [hptr] + ls;
      }
      assert s[..i + 1] == s[..i] + [hptr];
      hptr := next;
      i := i + 1;
    }
    assert s[..i] == s;
  }

  /** Join two chains: the tail of the first is made to point to the second. */
  method SpliceChains<K, V>(low: Node?<K, V>, high: Node?<K, V>, ghost ls: seq<Node<K, V>>, ghost hs: seq<Node<K, V>>)
    returns (head: Node?<K, V>)
    requires Linked(low, ls) && Linked(high, hs) && Distinct(ls + hs)
    modifies ls`next
    ensures Linked(head, ls + hs)
  {
    var tail := low;
    ghost var i := 0;
    assert forall j | 0 <= j < |ls| :: LinkAt(ls, j);
    while tail != null && tail.next != null
      invariant i <= |ls| && tail == At(ls, i) && (low != null ==> tail != null)
      decreases |ls| - i
    {
      assert LinkAt(ls, i);
      tail, i := tail.next, i + 1;
    }
    if low == null {
      assert ls + hs == hs;
      return high;
    }
    assert LinkAt(ls, i);
    tail.next := high;
    head := low;
    ghost var t := ls + hs;
    assert forall j | 0 <= j < |ls| :: t[j] == ls[j];
    forall j | 0 <= j < |t|
      ensures LinkAt(t, j)
    {
      if j < |ls| {
        assert j < |ls| - 1 ==> t[j] != tail;
        assert old(LinkAt(ls, j));
      } else {
        assert t[j] != tail;
        assert old(LinkAt(hs, j - |ls|));
      }
    }
  }

  ghost function Without<T>(s: seq<T>, j: nat): seq<T>
    requires j < |s|
  {
    s[..j] + s[j + 1..]
  }

  /** Take one node out of its chain. */
  method Unlink<K, V>(head: Node?<K, V>, node: Node<K, V>, ghost s: seq<Node<K, V>>, ghost k: nat)
    returns (newHead: Node?<K, V>)
    requires Linked(head, s) && Distinct(s) && k < |s| && s[k] == node
    modifies s`next
    ensures Linked(newHead, Without(s, k))
    ensures node.next == old(node.next)
  {
    ghost var t := Without(s, k);
    assert LinkAt(s, k);
    if head == node {
      newHead := node.next;
      assert k == 0;
      assert t == s[1..];
    } else {
      var hptr := head;
      ghost var i := 0;
      while hptr.next != node
        invariant i < k && hptr == s[i]
        decreases |s| - i
      {
        assert LinkAt(s, i);
        hptr, i := hptr.next, i + 1;
      }
      assert LinkAt(s, i);
      assert i == k - 1;
      hptr.next := node.next;
      newHead := head;
    }
    forall j | 0 <= j < |t|
      ensures LinkAt(t, j)
    {
      if j < k {
        assert t[j] == s[j] && old(LinkAt(s, j));
      } else {
        assert t[j] == s[j + 1] && old(LinkAt(s, j + 1));
      }
    }
  }
}
