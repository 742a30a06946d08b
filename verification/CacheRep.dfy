/** The representation invariant of common/cache and the updates that keep it. */
module CacheRep {
  import opened CacheSpec
  import opened CacheLists

  lemma NodesWithout<K, V>(m: map<K, Entry<K, V>>, k: K)
    ensures LruNodes(m - {k}) == LruNodes(m) - {k} && AgeNodes(m - {k}) == AgeNodes(m) - {k}
  {
  }

  lemma NodesWith<K, V>(m: map<K, Entry<K, V>>, k: K, e: Entry<K, V>)
    ensures LruNodes(m[k := e]) == LruNodes(m)[k := e.lruNode]
    ensures AgeNodes(m[k := e]) == AgeNodes(m)[k := e.ageNode]
  {
  }

  lemma GoodCount<K, V>(r: Rep<K, V>)
    requires Good(r)
    ensures |r.m| == |r.recs|
  {
    forall k | k in r.m ensures k in r.recs { assert Key(k); }
    forall k | k in r.recs ensures k in r.m { assert Key(k); }
    assert r.m.Keys == r.recs.Keys;
    assert |r.m| == |r.m.Keys| && |r.recs| == |r.recs.Keys|;
  }

  lemma GoodKey<K, V>(r: Rep<K, V>, k: K)
    requires Good(r)
    ensures k in r.m <==> k in r.recs
  {
    assert Key(k);
  }

  lemma GoodNodes<K, V>(r: Rep<K, V>, k: K)
    requires Good(r) && k in r.m
    ensures r.m[k].lruNode in r.lru && r.m[k].lruNode.value == k
    ensures r.m[k].ageNode in r.age && r.m[k].ageNode.value == k
    ensures k in r.recs && r.m[k].value == r.recs[k].value
  {
    assert Key(k);
  }

  /** Removing an entry with its two nodes keeps the invariant. */
  lemma GoodRemove<K, V>(r: Rep<K, V>, k: K, lru: seq<Element<K>>, i: nat, age: seq<Element<K>>, j: nat)
    requires Good(r) && k in r.m
    requires Removed(r.lru, lru, i) && r.lru[i] == r.m[k].lruNode
    requires Removed(r.age, age, j) && r.age[j] == r.m[k].ageNode
    ensures Good(Rep(r.m - {k}, lru, age, r.size - r.m[k].size, r.recs - {k}, r.tick, r.clock))
  {
    GoodNodes(r, k);
    LruRemove(r.lru, LruNodes(r.m), r.recs, r.tick, lru, i, k);
    AgeRemove(r.age, AgeNodes(r.m), r.recs, r.clock, age, j, k);
    assert Key(k);
    SizeWithout(r.recs, k);
    NodesWithout(r.m, k);
    AgreesWithout(r.m, r.recs, k);
  }

  /** What is left of r when the entry of k is gone. */
  ghost function Dropped<K, V>(r: Rep<K, V>, k: K, lru: seq<Element<K>>, age: seq<Element<K>>): (after: Rep<K, V>)
    requires k in r.m
  {
    Rep(r.m - {k}, lru, age, r.size - r.m[k].size, r.recs - {k}, r.tick, r.clock)
  }

  /** The two lists without the nodes of k's entry. */
  method Unthread<K, V>(e: Entry<K, V>, lruList: seq<Element<K>>, ageList: seq<Element<K>>, k: K, ghost r: Rep<K, V>)
    returns (lru: seq<Element<K>>, age: seq<Element<K>>)
    requires Good(r) && k in r.m && e == r.m[k] && lruList == r.lru && ageList == r.age
    ensures Good(Dropped(r, k, lru, age)) && |age| == |ageList| - 1
    ensures k in r.recs && e.value == r.recs[k].value
  {
    GoodNodes(r, k);
    ghost var i, j;
    lru, i := RemoveNode(lruList, e.lruNode);
    age, j := RemoveNode(ageList, e.ageNode);
    GoodRemove(r, k, lru, i, age, j);
  }

  /** Later ticks and clock readings keep the invariant. */
  lemma GoodLater<K, V>(r: Rep<K, V>, tick: nat, clock: int)
    requires Good(r) && r.tick <= tick && r.clock <= clock
    ensures Good(r.(tick := tick, clock := clock))
  {
    LruLater(r.lru, LruNodes(r.m), r.recs, r.tick, tick);
    AgeLater(r.age, AgeNodes(r.m), r.recs, r.clock, clock);
  }

  /** r after k's entry was used now: its LRU node is replaced by e at the front. */
  ghost function Touched<K, V>(r: Rep<K, V>, k: K, v: V, lru: seq<Element<K>>, e: Element<K>): (after: Rep<K, V>)
    requires k in r.m && k in r.recs
  {
    r.(m := r.m[k := r.m[k].(value := v, lruNode := e)],
       lru := [e] + lru,
       recs := r.recs[k := r.recs[k].(value := v, lastUse := r.tick)],
       tick := r.tick + 1)
  }

  lemma GoodTouch<K, V>(r: Rep<K, V>, k: K, v: V, lru: seq<Element<K>>, i: nat, e: Element<K>)
    requires Good(r) && k in r.m && k in r.recs && e.value == k
    requires Removed(r.lru, lru, i) && r.lru[i].value == k
    ensures Good(Touched(r, k, v, lru, e))
  {
    var rec := r.recs[k].(value := v, lastUse := r.tick);
    LruTouch(r.lru, LruNodes(r.m), r.recs, r.tick, k, lru, i, e, rec);
    AgeTouch(r.age, AgeNodes(r.m), r.recs, r.clock, k, rec);
    SizeTouch(r.recs, k, rec);
    var entry := r.m[k].(value := v, lruNode := e);
    assert Key(k);
    NodesWith(r.m, k, entry);
    AgreesWith(r.m, r.recs, k, entry, rec);
    assert AgeNodes(r.m)[k := r.m[k].ageNode] == AgeNodes(r.m);
  }

  /** r with a new entry for k, loaded and used now. */
  ghost function Inserted<K, V>(r: Rep<K, V>, k: K, e: Entry<K, V>): (after: Rep<K, V>) {
    Rep(r.m[k := e], [e.lruNode] + r.lru, [e.ageNode] + r.age, r.size + e.size,
        r.recs[k := Rec(e.value, e.loadTime, e.size, r.tick)], r.tick + 1, e.loadTime)
  }

  lemma GoodInsert<K, V>(r: Rep<K, V>, k: K, e: Entry<K, V>)
    requires Good(r) && k !in r.m && e.lruNode.value == k && e.ageNode.value == k && r.clock <= e.loadTime
    ensures Good(Inserted(r, k, e))
  {
    var rec := Rec(e.value, e.loadTime, e.size, r.tick);
    LruPush(r.lru, LruNodes(r.m), r.recs, r.tick, k, e.lruNode, rec);
    AgePush(r.age, AgeNodes(r.m), r.recs, r.clock, k, e.ageNode, rec);
    NodesWith(r.m, k, e);
    AgreesWith(r.m, r.recs, k, e, rec);
    GoodKey(r, k);
    SizeWith(r.recs, k, rec);
  }

  /** The node at the back of the age list is the oldest load. */
  lemma AgeBack<K, V>(r: Rep<K, V>) returns (back: K)
    requires Good(r) && r.age != []
    ensures back == r.age[|r.age| - 1].value && back in r.m && back in r.recs
    ensures r.m[back].loadTime == r.recs[back].loadTime
    ensures forall k :: k in r.recs ==> r.recs[k].loadTime >= r.recs[back].loadTime
  {
    back := r.age[|r.age| - 1].value;
    assert At(|r.age| - 1);
    assert Key(back);
    forall k | k in r.recs ensures r.recs[k].loadTime >= r.recs[back].loadTime {
      assert Key(k);
      var i :| 0 <= i < |r.age| && r.age[i] == AgeNodes(r.m)[k];
      assert Pair(i, |r.age| - 1);
      assert LoadOf(r.recs, k) >= LoadOf(r.recs, back);
    }
  }

  /** The node at the back of the LRU list is the entry used longest ago. */
  lemma LruBack<K, V>(r: Rep<K, V>) returns (back: K)
    requires Good(r) && r.m != map[]
    ensures r.lru != [] && back == r.lru[|r.lru| - 1].value && back in r.recs && back in r.m
    ensures forall k :: k in r.recs && k != back ==> r.recs[k].lastUse > r.recs[back].lastUse
  {
    var some :| some in r.m;
    GoodNodes(r, some);
    back := r.lru[|r.lru| - 1].value;
    assert At(|r.lru| - 1);
    assert Key(back);
    forall k | k in r.recs && k != back ensures r.recs[k].lastUse > r.recs[back].lastUse {
      assert Key(k);
      var i :| 0 <= i < |r.lru| && r.lru[i] == LruNodes(r.m)[k];
      assert Pair(i, |r.lru| - 1);
      assert UseOf(r.recs, k) > UseOf(r.recs, back);
    }
  }

  lemma GoodEmptyAge<K, V>(r: Rep<K, V>)
    requires Good(r) && r.age == []
    ensures r.recs == map[]
  {
    if k :| k in r.recs {
      GoodKey(r, k);
      GoodNodes(r, k);
      assert false;
    }
  }
}
