/** Whole runs of calls on a hash table, against a finite map. */
module HashRuns {
  import opened Options
  import opened HashChains
  import opened HashTables

  /** A caller inserts only keys that are absent, into a table that is not full. */
  datatype Op<K, V> =
    | Insert(key: K, data: V)
    | Lookup(key: K)
    | Delete(key: K)
    | ScanDelete(key: K)

  function After<K, V>(m: map<K, V>, op: Op<K, V>, max: nat): map<K, V> {
    match op
    case Insert(k, v) => if k in m || |m| >= max then m else m[k := v]
    case Lookup(_) => m
    case Delete(k) => m - {k}
    case ScanDelete(k) => m - {k}
  }

  function AfterAll<K, V>(ops: seq<Op<K, V>>, max: nat): map<K, V> {
    if ops == [] then map[] else After(AfterAll(ops[..|ops| - 1], max), ops[|ops| - 1], max)
  }

  function Find<K, V>(m: map<K, V>, key: K): Option<V> {
    if key in m then Some(m[key]) else None
  }

  ghost function Data<K, V>(hash: HashTable<K, V>): map<K, V>
    reads hash, hash.M.Values
  {
    map k | k in hash.M :: hash.M[k].data
  }

  lemma SameSize<K, V>(hash: HashTable<K, V>)
    requires hash.Valid()
    ensures |Data(hash)| == hash.nodecount && Data(hash).Keys == hash.M.Keys
  {
    hide HashTable.Valid;
    assert Data(hash).Keys == hash.M.Keys;
    assert hash.nodecount == |hash.M| == |hash.M.Keys| by { SizedTable(hash); }
    assert |Data(hash)| == |Data(hash).Keys|;
  }

  lemma SizedTable<K, V>(hash: HashTable<K, V>)
    requires hash.Valid()
    ensures hash.nodecount == |hash.M|
  {
  }

  lemma DataIs<K, V>(hash: HashTable<K, V>)
    ensures Data(hash).Keys == hash.M.Keys
    ensures forall k | k in hash.M :: hash.M[k] in hash.M.Values && Data(hash)[k] == hash.M[k].data
  {
  }

  /** One call, whatever resizing it causes: the reply and the new contents are those of the map. */
  method Perform<K, V>(hash: HashTable<K, V>, op: Op<K, V>) returns (reply: Option<V>)
    requires hash.Valid()
    modifies hash, hash.table, hash.M.Values
    ensures hash.Valid() && hash.maxcount == old(hash.maxcount)
    ensures hash.table == old(hash.table) || fresh(hash.table)
    ensures fresh(hash.M.Values - old(hash.M.Values))
    ensures Data(hash) == After(old(Data(hash)), op, hash.maxcount)
    ensures reply == Find(old(Data(hash)), op.key)
  {
    hide HashTable.Valid, Data;
    SameSize(hash);
    DataIs(hash);
    var node := hash.Lookup(op.key);
    reply := if node == null then None else Some(node.data);
    match op {
      case Insert(k, v) =>
        if node == null && hash.nodecount < hash.maxcount {
          AddData(hash, k, v);
        }
      case Lookup(_) =>
      case Delete(k) =>
        if node != null {
          Holds(hash, k);
          DropData(hash, node, true);
        }
      case ScanDelete(k) =>
        if node != null {
          Holds(hash, k);
          DropData(hash, node, false);
        }
    }
  }

  method AddData<K, V>(hash: HashTable<K, V>, key: K, data: V)
    requires hash.Valid() && key !in hash.M && hash.nodecount < hash.maxcount
    modifies hash, hash.table, hash.M.Values
    ensures hash.Valid() && hash.maxcount == old(hash.maxcount)
    ensures hash.table == old(hash.table) || fresh(hash.table)
    ensures fresh(hash.M.Values - old(hash.M.Values))
    ensures Data(hash) == old(Data(hash))[key := data]
  {
    hide *;
    ghost var m, d := hash.M, Data(hash);
    DataIs(hash);
    var node := new Node(key, data);
    hash.Insert(node, key);
    DataIs(hash);
    assert forall k | k in m :: m[k] in m.Values;
    assert hash.M.Values <= m.Values + {node};
  }

  method DropData<K, V>(hash: HashTable<K, V>, node: Node<K, V>, resizing: bool)
    requires hash.Valid() && node in hash.M.Values
    modifies hash, hash.table, hash.M.Values
    ensures hash.Valid() && hash.maxcount == old(hash.maxcount)
    ensures hash.table == old(hash.table) || fresh(hash.table)
    ensures fresh(hash.M.Values - old(hash.M.Values))
    ensures Data(hash) == old(Data(hash)) - {old(node.key)}
  {
    hide *;
    ghost var m, d := hash.M, Data(hash);
    DataIs(hash);
    hash.Held(node);
    if resizing {
      hash.Delete(node);
    } else {
      ghost var c, i := hash.ScanDelete(node);
    }
    DataIs(hash);
    assert forall k | k in m :: m[k] in m.Values;
    assert hash.M.Values <= m.Values;
  }

  lemma Holds<K, V>(hash: HashTable<K, V>, key: K)
    requires hash.Valid() && key in hash.M
    ensures hash.M[key].key == key && hash.M[key] in hash.M.Values
  {
    hash.Held(hash.M[key]);
  }

  /** The first `i` calls have been answered as by a finite map. */
  ghost predicate Answered<K, V>(ops: seq<Op<K, V>>, i: nat, replies: seq<Option<V>>, max: nat) {
    && i <= |ops| && |replies| == i
    && forall j | 0 <= j < i :: replies[j] == Find(AfterAll(ops[..j], max), ops[j].key)
  }

  lemma AnsweredNext<K, V>(ops: seq<Op<K, V>>, i: nat, replies: seq<Option<V>>, max: nat)
    requires Answered(ops, i, replies, max) && i < |ops|
    ensures Answered(ops, i + 1, replies + [Find(AfterAll(ops[..i], max), ops[i].key)], max)
    ensures AfterAll(ops[..i + 1], max) == After(AfterAll(ops[..i], max), ops[i], max)
  {
    hide After, Find;
    assert ops[..i + 1][..i] == ops[..i];
  }

  lemma NothingAnswered<K, V>(hash: HashTable<K, V>, ops: seq<Op<K, V>>, max: nat)
    requires hash.M == map[]
    ensures Answered(ops, 0, [], max) && Data(hash) == AfterAll(ops[..0], max)
  {
  }

  /** Every call of a run on a new table finds exactly what a finite map would hold, whatever the hash function. */
  method Replay<K(==), V>(max: nat, hashFun: K -> nat, ops: seq<Op<K, V>>) returns (replies: seq<Option<V>>)
    ensures |replies| == |ops|
    ensures forall i | 0 <= i < |ops| :: replies[i] == Find(AfterAll(ops[..i], max), ops[i].key)
  {
    hide HashTable.Valid, After, AfterAll, Find, Data, Answered;
    var hash := new HashTable(max, hashFun);
    replies := [];
    var i := 0;
    NothingAnswered(hash, ops, max);
    while i < |ops|
      invariant 0 <= i <= |ops| && Answered(ops, i, replies, max)
      invariant hash.Valid() && hash.maxcount == max && fresh(hash.table) && fresh(hash.M.Values)
      invariant Data(hash) == AfterAll(ops[..i], max)
    {
      AnsweredNext(ops, i, replies, max);
      var reply := Perform(hash, ops[i]);
      replies := replies + [reply];
      i := i + 1;
    }
    AllAnswered(ops, replies, max);
  }

  lemma AllAnswered<K, V>(ops: seq<Op<K, V>>, replies: seq<Option<V>>, max: nat)
    requires Answered(ops, |ops|, replies, max)
    ensures |replies| == |ops|
    ensures forall i | 0 <= i < |ops| :: replies[i] == Find(AfterAll(ops[..i], max), ops[i].key)
  {
  }
}
