/** The table scanner, which tolerates deletion of the node it has just returned, and what uses it. */
module HashScans {
  import opened Bits
  import opened HashChains
  import opened HashArrays
  import opened HashOrder
  import opened HashTables

  class Scan<K(==), V> {
    var table: HashTable<K, V>
    var chain: nat
    var next: Node?<K, V>

    /** The nodes still to come, the first `left` of them on the current chain. */
    ghost var todo: seq<Node<K, V>>
    ghost var left: nat

    ghost predicate Positioned()
      reads this, table
    {
      ScanOk(table.chains, chain, next, left, todo)
    }

    /** `hash_scan_begin`: everything in the table is still to come. */
    constructor (table: HashTable<K, V>)
      requires table.Valid()
      ensures this.table == table && table.Valid() && Positioned() && todo == Flat(table.chains, 0)
    {
      this.table, this.chain, next, todo, left := table, 0, null, Flat(table.chains, 0), 0;
      new;
      MoveTo(0);
    }

    /** Step to the first chain from `from` on that is not empty. */
    method MoveTo(from: nat)
      requires table.Valid() && from <= table.nchains && todo == Flat(table.chains, from)
      modifies this
      ensures table == old(table) && table.Valid() && todo == old(todo) && Positioned()
    {
      hide Pow2, And, MapOk, Linked, Distinct;
      var c := from;
      while c < table.nchains && table.table[c] == null
        invariant table == old(table) && todo == old(todo) && table.Valid()
        invariant from <= c <= table.nchains && Flat(table.chains, from) == Flat(table.chains, c)
      {
        HeadOf(c);
        assert Flat(table.chains, c) == [] + Flat(table.chains, c + 1);
        c := c + 1;
      }
      if c < table.nchains {
        HeadOf(c);
        chain, next, left := c, table.table[c], |table.chains[c]|;
        assert table.chains[c][0..] == table.chains[c];
      } else {
        next := null;
      }
    }

    lemma HeadOf(c: nat)
      requires table.Valid() && c < table.nchains
      ensures table.table[c] == At(table.chains[c], 0)
    {
      assert ChainOk(table.table[..][c], table.chains[c], table.mask, c);
    }

    /** `hash_scan_next`: the next node, with the scanner already moved behind it. */
    method Next() returns (node: Node?<K, V>)
      requires table.Valid() && Positioned()
      modifies this
      ensures table == old(table) && table.Valid() && Positioned()
      ensures old(todo) == [] ==> node == null && todo == []
      ensures old(todo) != [] ==> node == old(todo)[0] && todo == old(todo)[1..]
    {
      hide Pow2, And, MapOk, Distinct, Flat;
      node := next;
      if node != null {
        ghost var s := table.chains[chain];
        ghost var i := |s| - left;
        assert s[i..] + Flat(table.chains, chain + 1) == [s[i]] + (s[i + 1..] + Flat(table.chains, chain + 1));
        assert ChainOk(table.table[..][chain], s, table.mask, chain);
        assert LinkAt(s, i);
        todo := todo[1..];
        if node.next != null {
          next, left := node.next, left - 1;
        } else {
          assert s[i + 1..] == [];
          MoveTo(chain + 1);
        }
      }
    }

    /** `hash_scan_delete` of a node that is not to come any more: the scanner keeps its place. */
    method Delete(node: Node<K, V>) returns (ghost p: nat)
      requires table.Valid() && Positioned()
      requires node in table.M.Values && node !in todo
      modifies table, table.table, table.M.Values
      ensures table.Valid() && Positioned()
      ensures table.M == old(table.M) - {old(node.key)} && table.M.Values == old(table.M.Values) - {node}
      ensures table.maxcount == old(table.maxcount) && table.table == old(table.table)
      ensures forall n | n in old(table.M.Values) :: n.data == old(n.data) && n.key == old(n.key)
      ensures node.next == null
      ensures p < |old(Flat(table.chains, 0))| && old(Flat(table.chains, 0))[p] == node
      ensures Flat(table.chains, 0) == Without(old(Flat(table.chains, 0)), p)
    {
      hide Pow2, And, MapOk, AllChains, ScanOk, Without;
      ghost var before := table.chains;
      table.Held(node);
      ghost var c, k := table.ScanDelete(node);
      p := FlatWithout(before, c, k, 0);
      ScanSurvives(before, c, k, chain, next, left, todo);
    }
  }

  /** `head` has just been returned by the scan, or the scan is over. */
  ghost predicate Returned<K, V>(head: Node?<K, V>, todo: seq<Node<K, V>>, pending: seq<Node<K, V>>) {
    if head == null then pending == [] else pending == [head] + todo
  }

  lemma NextReturned<K, V>(node: Node?<K, V>, todo: seq<Node<K, V>>, pending: seq<Node<K, V>>)
    requires pending == [] ==> node == null
    requires pending != [] ==> node == pending[0] && todo == pending[1..]
    ensures Returned(node, todo, pending)
  {
  }

  /** One round of `hash_free_nodes`: delete the node just returned and fetch the next one. */
  method DeleteAndNext<K, V>(scan: Scan<K, V>, node: Node<K, V>) returns (next: Node?<K, V>)
    requires scan.table.Valid() && scan.Positioned()
    requires Distinct([node] + scan.todo) && Elements([node] + scan.todo) == scan.table.M.Values
    modifies scan, scan.table, scan.table.table, scan.table.M.Values
    ensures scan.table == old(scan.table) && scan.table.Valid() && scan.Positioned()
    ensures scan.table.table == old(scan.table.table)
    ensures scan.table.M.Values == Elements(old(scan.todo)) <= old(scan.table.M.Values)
    ensures Distinct(old(scan.todo))
    ensures Returned(next, scan.todo, old(scan.todo))
  {
    hide *;
    ghost var rest := scan.todo;
    ElementsTail(node, rest);
    DistinctRest(node, rest);
    ghost var p := scan.Delete(node);
    next := scan.Next();
    NextReturned(next, scan.todo, rest);
  }

  /** `hash_free_nodes`: every node is visited exactly once, and the table is empty afterwards. */
  method FreeNodes<K, V>(hash: HashTable<K, V>) returns (ghost visited: seq<Node<K, V>>)
    requires hash.Valid()
    modifies hash, hash.table, hash.M.Values
    ensures hash.Valid() && hash.M == map[] && hash.nodecount == 0 && hash.table == old(hash.table)
    ensures visited == old(Flat(hash.chains, 0))
    ensures Distinct(visited) && |visited| == old(hash.nodecount)
    ensures Elements(visited) == old(hash.M.Values)
  {
    hide *;
    ghost var all := Flat(hash.chains, 0);
    hash.FlatOfTable();
    var scan := new Scan(hash);
    visited := [];
    ghost var pending := scan.todo;
    var node := scan.Next();
    NextReturned(node, scan.todo, pending);
    while node != null
      invariant scan.table == hash && hash.Valid() && scan.Positioned()
      invariant hash.table == old(hash.table) && hash.M.Values <= old(hash.M.Values)
      invariant Distinct(pending) && Elements(pending) == hash.M.Values
      invariant Returned(node, scan.todo, pending) && visited + pending == all
      decreases |pending|
    {
      MoveOver(visited, node, scan.todo, pending);
      visited, pending := visited + [node], scan.todo;
      node := DeleteAndNext(scan, node);
    }
    AllOver(scan.todo, pending);
    assert visited + [] == visited;
    assert hash.M == map[] by { NoValues(hash.M); }
    hash.ClearTable();
  }

  lemma MoveOver<K, V>(visited: seq<Node<K, V>>, node: Node<K, V>, todo: seq<Node<K, V>>, pending: seq<Node<K, V>>)
    requires Returned(node, todo, pending)
    ensures pending == [node] + todo && visited + pending == (visited + [node]) + todo && |todo| < |pending|
  {
  }

  lemma AllOver<K, V>(todo: seq<Node<K, V>>, pending: seq<Node<K, V>>)
    requires Returned(null, todo, pending)
    ensures pending == []
  {
  }

  lemma NoValues<K, V>(m: map<K, Node<K, V>>)
    requires m.Values == Elements([])
    ensures m == map[]
  {
    assert forall k | k in m :: m[k] in m.Values;
  }

  lemma DistinctRest<K, V>(x: Node<K, V>, rest: seq<Node<K, V>>)
    requires Distinct([x] + rest)
    ensures Distinct(rest)
  {
    var t := [x] + rest;
    assert forall j | 0 <= j < |rest| :: rest[j] == t[j + 1];
  }

  // ---------------------------------------------------------------- deleting any choice of nodes

  /** The nodes a caller deletes, given by their place in the scan. */
  ghost function Chosen<K, V>(s: seq<Node<K, V>>, delete: nat -> bool): (r: set<Node<K, V>>)
    ensures r <= Elements(s)
  {
    set i | 0 <= i < |s| && delete(i) :: s[i]
  }

  ghost function Spared<K, V>(m: map<K, Node<K, V>>, gone: set<Node<K, V>>): map<K, Node<K, V>> {
    map k | k in m && m[k] !in gone :: m[k]
  }

  lemma ChosenNext<K, V>(s: seq<Node<K, V>>, delete: nat -> bool, i: nat)
    requires i < |s|
    ensures Chosen(s[..i + 1], delete) == Chosen(s[..i], delete) + (if delete(i) then {s[i]} else {})
  {
    var t := s[..i + 1];
    forall x | x in Chosen(s[..i], delete) + (if delete(i) then {s[i]} else {})
      ensures x in Chosen(t, delete)
    {
      if x in Chosen(s[..i], delete) {
        var j :| 0 <= j < i && delete(j) && s[..i][j] == x;
        assert t[j] == x;
      } else {
        assert t[i] == x;
      }
    }
    forall x | x in Chosen(t, delete)
      ensures x in Chosen(s[..i], delete) + (if delete(i) then {s[i]} else {})
    {
      var j :| 0 <= j < |t| && delete(j) && t[j] == x;
      assert j < i ==> s[..i][j] == x;
    }
  }

  /** A node still to come has not been deleted. */
  lemma NotYetChosen<K, V>(s: seq<Node<K, V>>, delete: nat -> bool, i: nat)
    requires Distinct(s) && i < |s|
    ensures s[i] !in Chosen(s[..i], delete) && s[i] !in s[i + 1..] && s[i] in Elements(s)
  {
  }

  lemma SparedNext<K, V>(hash: HashTable<K, V>, m: map<K, Node<K, V>>, gone: set<Node<K, V>>, node: Node<K, V>)
    requires hash.Valid() && hash.M == Spared(m, gone) && node in m.Values && node !in gone
    ensures node in hash.M.Values && hash.M - {node.key} == Spared(m, gone + {node})
  {
    hide HashTable.Valid;
    var k :| k in m && m[k] == node;
    assert k in hash.M && hash.M[k] == node;
    hash.Held(node);
    forall q | q in hash.M && q != node.key
      ensures hash.M[q] != node
    {
      assert hash.M[q] in hash.M.Values;
      if hash.M[q] == node {
        KeyOf(hash, q);
      }
    }
  }

  lemma KeyOf<K, V>(hash: HashTable<K, V>, key: K)
    requires hash.Valid() && key in hash.M
    ensures hash.M[key].key == key
  {
    assert NodeOk(hash.M[key], hash.chains, hash.mask, hash.hashFun, key);
  }

  /** One round: delete the node just returned, or not, and fetch the next one. */
  method ScanRound<K, V>(scan: Scan<K, V>, node: Node<K, V>, delete: bool, ghost m: map<K, Node<K, V>>,
                         ghost gone: set<Node<K, V>>)
    returns (next: Node?<K, V>)
    requires scan.table.Valid() && scan.Positioned() && scan.table.M == Spared(m, gone)
    requires node in m.Values && node !in gone && node !in scan.todo
    modifies scan, scan.table, scan.table.table, scan.table.M.Values
    ensures scan.table == old(scan.table) && scan.table.Valid() && scan.Positioned()
    ensures scan.table.table == old(scan.table.table) && scan.table.maxcount == old(scan.table.maxcount)
    ensures scan.table.M.Values <= old(scan.table.M.Values)
    ensures scan.table.M == Spared(m, gone + (if delete then {node} else {}))
    ensures old(scan.todo) == [] ==> next == null && scan.todo == []
    ensures old(scan.todo) != [] ==> next == old(scan.todo)[0] && scan.todo == old(scan.todo)[1..]
  {
    hide *;
    SparedNext(scan.table, m, gone, node);
    if delete {
      ghost var p := scan.Delete(node);
    } else {
      assert gone + {} == gone;
    }
    next := scan.Next();
  }

  /** `node` is the i-th of all nodes, just returned; those behind it are still to come. */
  ghost predicate ReturnedAt<K, V>(all: seq<Node<K, V>>, i: nat, node: Node?<K, V>, todo: seq<Node<K, V>>) {
    if node == null then i == |all| else i < |all| && node == all[i] && todo == all[i + 1..]
  }

  lemma ReturnedNext<K, V>(all: seq<Node<K, V>>, i: nat, todo: seq<Node<K, V>>, node: Node?<K, V>, todo': seq<Node<K, V>>)
    requires i <= |all| && todo == all[i..]
    requires todo == [] ==> node == null
    requires todo != [] ==> node == todo[0] && todo' == todo[1..]
    ensures ReturnedAt(all, i, node, todo')
  {
  }

  /**
   * A scan that deletes any of the nodes it returns, each before asking for the next: it returns every
   * node once, in scan order, and leaves the map without exactly the deleted ones.
   */
  method ScanDeleting<K, V>(hash: HashTable<K, V>, delete: nat -> bool) returns (ghost visited: seq<Node<K, V>>)
    requires hash.Valid()
    modifies hash, hash.table, hash.M.Values
    ensures hash.Valid() && hash.table == old(hash.table) && hash.maxcount == old(hash.maxcount)
    ensures visited == old(Flat(hash.chains, 0)) && Distinct(visited) && Elements(visited) == old(hash.M.Values)
    ensures hash.M == Spared(old(hash.M), Chosen(visited, delete))
  {
    hide *;
    ghost var all, m := Flat(hash.chains, 0), hash.M;
    hash.FlatOfTable();
    NothingChosen(all, delete, m);
    var scan := new Scan(hash);
    var i := 0;
    visited := [];
    ghost var todo := scan.todo;
    var node := scan.Next();
    ReturnedNext(all, 0, todo, node, scan.todo);
    while node != null
      invariant scan.table == hash && hash.Valid() && scan.Positioned()
      invariant hash.table == old(hash.table) && hash.maxcount == old(hash.maxcount)
      invariant hash.M.Values <= old(hash.M.Values)
      invariant 0 <= i <= |all| && visited == all[..i] && ReturnedAt(all, i, node, scan.todo)
      invariant hash.M == Spared(m, Chosen(visited, delete))
      decreases |all| - i
    {
      ReturnedThere(all, i, node, scan.todo);
      NotYetChosen(all, delete, i);
      ChosenNext(all, delete, i);
      todo := scan.todo;
      visited := visited + [node];
      node := ScanRound(scan, node, delete(i), m, Chosen(all[..i], delete));
      i := i + 1;
      ReturnedNext(all, i, todo, node, scan.todo);
    }
    ReturnedThere(all, i, null, scan.todo);
  }

  lemma ReturnedThere<K, V>(all: seq<Node<K, V>>, i: nat, node: Node?<K, V>, todo: seq<Node<K, V>>)
    requires i <= |all| && ReturnedAt(all, i, node, todo)
    ensures node == null ==> all[..i] == all
    ensures node != null ==> i < |all| && node == all[i] && todo == all[i + 1..] && all[..i + 1] == all[..i] + [node]
  {
  }

  lemma NothingChosen<K, V>(s: seq<Node<K, V>>, delete: nat -> bool, m: map<K, Node<K, V>>)
    ensures Chosen<K, V>([], delete) == {} && Spared(m, {}) == m && s[0..] == s && s[..0] == []
  {
  }
}
