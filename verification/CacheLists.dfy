/** The two linked lists of common/cache and what keeps them in order. */
module CacheLists {
  import opened CacheSpec

  /** container/list.Element. The id stands for the node's address: list.Remove is by node, not by key. */
  datatype Element<K> = Element(id: nat, value: K)

  datatype Entry<K, V> = Entry(value: V, lruNode: Element<K>, ageNode: Element<K>, loadTime: int, size: int)

  function Skip(at: nat, i: nat): (j: nat) { if i < at then i else i + 1 }

  /** r is s without its node at position `at`. */
  ghost predicate Removed<T>(s: seq<T>, r: seq<T>, at: nat) {
    && at < |s| && |r| == |s| - 1
    && forall i :: 0 <= i < |r| ==> r[i] == s[Skip(at, i)]
  }

  /** list.Remove(e). */
  method RemoveNode<T(==)>(s: seq<T>, e: T) returns (r: seq<T>, ghost at: nat)
    requires e in s
    ensures Removed(s, r, at) && s[at] == e
  {
    var i := 0;
    while s[i] != e
      invariant i < |s| && e !in s[..i]
      decreases |s| - i
    {
      i := i + 1;
    }
    r, at := s[..i] + s[i + 1..], i;
  }

  // Always true: the quantifiers below are instantiated for the keys, positions and pairs named by these.
  ghost predicate Key<K>(k: K) { true }
  ghost predicate At(i: int) { true }
  ghost predicate Pair(i: int, j: int) { true }

  /** The list holds the node of every key exactly once, and each node holds its key. */
  ghost predicate Threads<K>(list: seq<Element<K>>, nodes: map<K, Element<K>>) {
    && (forall k {:trigger Key(k)} :: k in nodes ==> nodes[k] in list && nodes[k].value == k)
    && (forall i {:trigger At(i)} :: 0 <= i < |list| ==> list[i].value in nodes && nodes[list[i].value] == list[i])
    && (forall i, j {:trigger Pair(i, j)} :: 0 <= i < j < |list| ==> list[i] != list[j])
  }

  function UseOf<K, V>(recs: map<K, Rec<V>>, k: K): (t: int) { if k in recs then recs[k].lastUse else -1 }

  function LoadOf<K, V>(recs: map<K, Rec<V>>, k: K): (t: int) { if k in recs then recs[k].loadTime else 0 }

  /** The LRU list runs from the last used entry to the one used longest ago. */
  ghost predicate LruOk<K, V>(list: seq<Element<K>>, nodes: map<K, Element<K>>, recs: map<K, Rec<V>>, tick: nat) {
    && Threads(list, nodes)
    && (forall k {:trigger Key(k)} :: k in nodes ==> k in recs)
    && (forall k {:trigger Key(k)} :: k in recs ==> k in nodes && recs[k].lastUse < tick)
    && (forall i, j {:trigger Pair(i, j)} :: 0 <= i < j < |list| ==>
          UseOf(recs, list[i].value) > UseOf(recs, list[j].value))
  }

  /** The age list runs from the last loaded entry to the one loaded longest ago. */
  ghost predicate AgeOk<K, V>(list: seq<Element<K>>, nodes: map<K, Element<K>>, recs: map<K, Rec<V>>, clock: int) {
    && Threads(list, nodes)
    && (forall k {:trigger Key(k)} :: k in nodes ==> k in recs)
    && (forall k {:trigger Key(k)} :: k in recs ==> k in nodes && recs[k].loadTime <= clock)
    && (forall i, j {:trigger Pair(i, j)} :: 0 <= i < j < |list| ==>
          LoadOf(recs, list[i].value) >= LoadOf(recs, list[j].value))
  }

  lemma ThreadsRemove<K>(list: seq<Element<K>>, nodes: map<K, Element<K>>, r: seq<Element<K>>, at: nat, k: K)
    requires Threads(list, nodes) && Removed(list, r, at) && list[at].value == k
    ensures Threads(r, nodes - {k})
  {
    assert At(at);
    forall j | j in nodes && j != k ensures nodes[j] in r && nodes[j].value == j {
      assert Key(j);
      var i :| 0 <= i < |list| && list[i] == nodes[j];
      assert r[if i < at then i else i - 1] == nodes[j];
    }
    forall i | 0 <= i < |r| ensures r[i].value in nodes - {k} && nodes[r[i].value] == r[i] {
      assert At(Skip(at, i)) && Pair(Skip(at, i), at) && Pair(at, Skip(at, i));
    }
    forall i, j | 0 <= i < j < |r| ensures r[i] != r[j] {
      assert Pair(Skip(at, i), Skip(at, j));
    }
  }

  lemma LruRemove<K, V>(list: seq<Element<K>>, nodes: map<K, Element<K>>, recs: map<K, Rec<V>>, tick: nat,
                        r: seq<Element<K>>, at: nat, k: K)
    requires LruOk(list, nodes, recs, tick) && Removed(list, r, at) && list[at].value == k
    ensures LruOk(r, nodes - {k}, recs - {k}, tick)
  {
    ThreadsRemove(list, nodes, r, at, k);
    forall j | j in recs ensures j in nodes && recs[j].lastUse < tick { assert Key(j); }
    forall j | j in nodes ensures j in recs { assert Key(j); }
    forall i, j | 0 <= i < j < |r| ensures UseOf(recs - {k}, r[i].value) > UseOf(recs - {k}, r[j].value) {
      assert Pair(Skip(at, i), Skip(at, j)) && At(i) && At(j);
      assert UseOf(recs, r[i].value) > UseOf(recs, r[j].value);
      assert r[i].value in nodes - {k} && r[j].value in nodes - {k};
    }
  }

  lemma AgeRemove<K, V>(list: seq<Element<K>>, nodes: map<K, Element<K>>, recs: map<K, Rec<V>>, clock: int,
                        r: seq<Element<K>>, at: nat, k: K)
    requires AgeOk(list, nodes, recs, clock) && Removed(list, r, at) && list[at].value == k
    ensures AgeOk(r, nodes - {k}, recs - {k}, clock)
  {
    ThreadsRemove(list, nodes, r, at, k);
    forall j | j in recs ensures j in nodes && recs[j].loadTime <= clock { assert Key(j); }
    forall j | j in nodes ensures j in recs { assert Key(j); }
    forall i, j | 0 <= i < j < |r| ensures LoadOf(recs - {k}, r[i].value) >= LoadOf(recs - {k}, r[j].value) {
      assert Pair(Skip(at, i), Skip(at, j)) && At(i) && At(j);
      assert LoadOf(recs, r[i].value) >= LoadOf(recs, r[j].value);
      assert r[i].value in nodes - {k} && r[j].value in nodes - {k};
    }
  }

  lemma ThreadsPush<K>(list: seq<Element<K>>, nodes: map<K, Element<K>>, k: K, e: Element<K>)
    requires Threads(list, nodes) && k !in nodes && e.value == k
    ensures Threads([e] + list, nodes[k := e])
  {
    var pushed := [e] + list;
    forall j | j in nodes ensures nodes[j] in pushed && nodes[j].value == j {
      assert Key(j);
    }
    forall i | 0 < i < |pushed| ensures pushed[i].value in nodes && nodes[pushed[i].value] == pushed[i] {
      assert At(i - 1);
    }
    forall i, j | 0 <= i < j < |pushed| ensures pushed[i] != pushed[j] {
      assert Pair(i - 1, j - 1) && At(j - 1);
    }
  }

  /** PushFront of a node for a key that is not in the list, used now. */
  lemma LruPush<K, V>(list: seq<Element<K>>, nodes: map<K, Element<K>>, recs: map<K, Rec<V>>, tick: nat, k: K,
                      e: Element<K>, r: Rec<V>)
    requires LruOk(list, nodes, recs, tick) && k !in nodes && e.value == k && r.lastUse == tick
    ensures LruOk([e] + list, nodes[k := e], recs[k := r], tick + 1)
  {
    ThreadsPush(list, nodes, k, e);
    var pushed, after := [e] + list, recs[k := r];
    forall j | j in recs ensures j in nodes && recs[j].lastUse < tick { assert Key(j); }
    forall j | j in nodes ensures j in recs { assert Key(j); }
    forall i, j | 0 <= i < j < |pushed| ensures UseOf(after, pushed[i].value) > UseOf(after, pushed[j].value) {
      assert Pair(i - 1, j - 1) && At(i - 1) && At(j - 1);
    }
  }

  lemma AgePush<K, V>(list: seq<Element<K>>, nodes: map<K, Element<K>>, recs: map<K, Rec<V>>, clock: int, k: K,
                      e: Element<K>, r: Rec<V>)
    requires AgeOk(list, nodes, recs, clock) && k !in nodes && e.value == k && clock <= r.loadTime
    ensures AgeOk([e] + list, nodes[k := e], recs[k := r], r.loadTime)
  {
    ThreadsPush(list, nodes, k, e);
    var pushed, after := [e] + list, recs[k := r];
    forall j | j in recs ensures j in nodes && recs[j].loadTime <= clock { assert Key(j); }
    forall j | j in nodes ensures j in recs { assert Key(j); }
    forall i, j | 0 <= i < j < |pushed| ensures LoadOf(after, pushed[i].value) >= LoadOf(after, pushed[j].value) {
      assert Pair(i - 1, j - 1) && At(i - 1) && At(j - 1);
    }
  }

  lemma LruLater<K, V>(list: seq<Element<K>>, nodes: map<K, Element<K>>, recs: map<K, Rec<V>>, tick: nat, later: nat)
    requires LruOk(list, nodes, recs, tick) && tick <= later
    ensures LruOk(list, nodes, recs, later)
  {
    forall k | k in recs ensures k in nodes && recs[k].lastUse < later { assert Key(k); }
    forall k | k in nodes ensures k in recs { assert Key(k); }
    forall i, j | 0 <= i < j < |list| ensures UseOf(recs, list[i].value) > UseOf(recs, list[j].value) {
      assert Pair(i, j);
    }
  }

  lemma AgeLater<K, V>(list: seq<Element<K>>, nodes: map<K, Element<K>>, recs: map<K, Rec<V>>, clock: int, later: int)
    requires AgeOk(list, nodes, recs, clock) && clock <= later
    ensures AgeOk(list, nodes, recs, later)
  {
    forall k | k in recs ensures k in nodes && recs[k].loadTime <= later { assert Key(k); }
    forall k | k in nodes ensures k in recs { assert Key(k); }
    forall i, j | 0 <= i < j < |list| ensures LoadOf(recs, list[i].value) >= LoadOf(recs, list[j].value) {
      assert Pair(i, j);
    }
  }

  lemma LruTouch<K, V>(list: seq<Element<K>>, nodes: map<K, Element<K>>, recs: map<K, Rec<V>>, tick: nat,
                       k: K, rest: seq<Element<K>>, at: nat, e: Element<K>, r: Rec<V>)
    requires LruOk(list, nodes, recs, tick) && Removed(list, rest, at)
    requires list[at].value == e.value == k && r.lastUse == tick
    ensures LruOk([e] + rest, nodes[k := e], recs[k := r], tick + 1)
  {
    LruRemove(list, nodes, recs, tick, rest, at, k);
    LruPush(rest, nodes - {k}, recs - {k}, tick, k, e, r);
    assert (nodes - {k})[k := e] == nodes[k := e] && (recs - {k})[k := r] == recs[k := r];
  }

  lemma AgeTouch<K, V>(list: seq<Element<K>>, nodes: map<K, Element<K>>, recs: map<K, Rec<V>>, clock: int, k: K,
                       r: Rec<V>)
    requires AgeOk(list, nodes, recs, clock) && k in recs && r.loadTime == recs[k].loadTime
    ensures AgeOk(list, nodes, recs[k := r], clock)
  {
    forall j | j in recs ensures j in nodes && recs[j].loadTime <= clock { assert Key(j); }
    forall j | j in nodes ensures j in recs { assert Key(j); }
    forall i, j | 0 <= i < j < |list|
      ensures LoadOf(recs[k := r], list[i].value) >= LoadOf(recs[k := r], list[j].value)
    {
      assert Pair(i, j);
    }
  }

  function LruNodes<K, V>(m: map<K, Entry<K, V>>): (nodes: map<K, Element<K>>) { map k | k in m :: m[k].lruNode }

  function AgeNodes<K, V>(m: map<K, Entry<K, V>>): (nodes: map<K, Element<K>>) { map k | k in m :: m[k].ageNode }

  /** The stored entries carry the reference cache's values, load times and sizes. */
  ghost predicate Agrees<K, V>(m: map<K, Entry<K, V>>, recs: map<K, Rec<V>>) {
    && (forall k {:trigger Key(k)} :: k in recs ==> k in m)
    && (forall k {:trigger Key(k)} :: k in m ==>
          k in recs && m[k].value == recs[k].value && m[k].loadTime == recs[k].loadTime && m[k].size == recs[k].size)
  }

  /** The fields that the representation invariant ties together, with the reference entries they stand for. */
  datatype Rep<K, V> = Rep(m: map<K, Entry<K, V>>, lru: seq<Element<K>>, age: seq<Element<K>>, size: int,
                           recs: map<K, Rec<V>>, tick: nat, clock: int)

  /** The map and both lists hold the same keys, each entry's nodes are in their lists, the lists are in use
      and load order, and size is the sum of the entry sizes. */
  ghost predicate Good<K, V>(r: Rep<K, V>) {
    match r
    case Rep(m, lru, age, size, recs, tick, clock) =>
      && Agrees(m, recs)
      && LruOk(lru, LruNodes(m), recs, tick)
      && AgeOk(age, AgeNodes(m), recs, clock)
      && size == SizeOf(recs)
  }

  lemma AgreesWithout<K, V>(m: map<K, Entry<K, V>>, recs: map<K, Rec<V>>, k: K)
    requires Agrees(m, recs)
    ensures Agrees(m - {k}, recs - {k})
  {
    forall j | j in recs ensures j in m { assert Key(j); }
    forall j | j in m
      ensures j in recs && m[j].value == recs[j].value && m[j].loadTime == recs[j].loadTime && m[j].size == recs[j].size
    {
      assert Key(j);
    }
  }

  lemma AgreesWith<K, V>(m: map<K, Entry<K, V>>, recs: map<K, Rec<V>>, k: K, e: Entry<K, V>, r: Rec<V>)
    requires Agrees(m, recs) && e.value == r.value && e.loadTime == r.loadTime && e.size == r.size
    ensures Agrees(m[k := e], recs[k := r])
  {
    forall j | j in recs ensures j in m { assert Key(j); }
    forall j | j in m
      ensures j in recs && m[j].value == recs[j].value && m[j].loadTime == recs[j].loadTime && m[j].size == recs[j].size
    {
      assert Key(j);
    }
  }
}
