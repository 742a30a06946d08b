/** common/cache: the LRU + TTL cache with its map, two linked lists and node back-pointers. Each method is
    one step under the lock; clock readings are arguments. */
module CacheModel {
  import opened GoBase
  import opened CacheSpec
  import opened CacheLists
  import opened CacheRep

  /** recs is what is left of start when some entries loaded at or before the line are gone. */
  ghost predicate Survivors<K, V>(start: map<K, Rec<V>>, recs: map<K, Rec<V>>, line: int) {
    && (forall k {:trigger Key(k)} :: k in recs ==> k in start && recs[k] == start[k])
    && (forall k {:trigger Key(k)} :: k in start && k !in recs ==> start[k].loadTime <= line)
  }

  lemma SurvivorsWithout<K, V>(start: map<K, Rec<V>>, recs: map<K, Rec<V>>, line: int, k: K)
    requires Survivors(start, recs, line) && k in recs && recs[k].loadTime <= line
    ensures Survivors(start, recs - {k}, line)
  {
    assert Key(k);
    forall j | j in recs ensures j in start && recs[j] == start[j] { assert Key(j); }
    forall j | j in start && j !in recs ensures start[j].loadTime <= line { assert Key(j); }
  }

  lemma SurvivorsEnd<K, V>(start: map<K, Rec<V>>, recs: map<K, Rec<V>>, now: int, ttl: int)
    requires Survivors(start, recs, now - ttl)
    requires forall k :: k in recs ==> recs[k].loadTime > now - ttl
    ensures recs == Unexpired(start, now, ttl)
  {
    forall k | k in start ensures k in recs <==> start[k].loadTime > now - ttl { assert Key(k); }
    forall k | k in recs ensures k in start && recs[k] == start[k] { assert Key(k); }
  }

  /** recs is the part of u that was used after `floor`. */
  ghost predicate LatestOf<K, V>(u: map<K, Rec<V>>, recs: map<K, Rec<V>>, floor: int) {
    && (forall k {:trigger Key(k)} :: k in recs ==> k in u && recs[k] == u[k] && recs[k].lastUse > floor)
    && (forall k {:trigger Key(k)} :: k in u && k !in recs ==> u[k].lastUse <= floor)
  }

  lemma LatestIsMostRecent<K, V>(u: map<K, Rec<V>>, recs: map<K, Rec<V>>, floor: int, w: int)
    requires LatestOf(u, recs, floor) && |recs| <= w && (recs == u || |recs| >= w)
    ensures recs == MostRecent(u, w)
  {
    if recs == u {
      MostRecentAll(u, w);
    } else {
      forall k, j | k in recs && j in u && j !in recs ensures k in u && recs[k] == u[k] && u[k].lastUse > u[j].lastUse {
        assert Key(k) && Key(j);
      }
      forall k | k in recs ensures k in u && recs[k] == u[k] {
        assert Key(k);
      }
      MostRecentUnique(u, recs);
    }
  }

  /** Dropping the entry used longest ago raises the floor to its last use. */
  lemma LatestWithout<K, V>(u: map<K, Rec<V>>, recs: map<K, Rec<V>>, floor: int, back: K)
    requires LatestOf(u, recs, floor) && back in recs
    requires forall k :: k in recs && k != back ==> recs[k].lastUse > recs[back].lastUse
    ensures LatestOf(u, recs - {back}, recs[back].lastUse)
  {
    assert Key(back);
    forall k | k in u && k !in recs ensures u[k].lastUse <= recs[back].lastUse { assert Key(k); }
    forall k | k in recs ensures k in u && recs[k] == u[k] { assert Key(k); }
  }

  lemma LatestStart<K, V>(u: map<K, Rec<V>>)
    ensures LatestOf(u, u, -1)
  {
    forall k | k in u ensures u[k].lastUse > -1 {
      var r := u[k];
      assert r.lastUse >= 0;
    }
  }

  function ReplyOf<V>(r: Option<V>): (reply: Reply<V>) {
    match r case Some(v) => Hit(v) case None => Miss
  }

  class Cache<K(==), V> {
    var m: map<K, Entry<K, V>>
    var lruList: seq<Element<K>>
    var ageList: seq<Element<K>>
    var hits: nat
    var misses: nat
    var capacity: int
    var ttl: int
    var size: int
    var nodeCount: nat

    ghost var recs: map<K, Rec<V>>
    ghost var tick: nat
    ghost var clock: int

    ghost function Repr(): (r: Rep<K, V>)
      reads this
    {
      Rep(m, lruList, ageList, size, recs, tick, clock)
    }

    ghost predicate Valid()
      reads this
    {
      Good(Repr()) && capacity > 1
    }

    /** The state of the reference cache. */
    ghost function Ref(): (st: State<K, V>)
      reads this
    {
      State(recs, capacity, ttl, hits, misses, tick)
    }

    constructor (now: int)
      ensures Valid() && clock == now
      ensures Ref() == State(map[], DEFAULT_CAPACITY, DEFAULT_AGE, 0, 0, 0)
    {
      m, lruList, ageList := map[], [], [];
      hits, misses, size, nodeCount := 0, 0, 0, 0;
      capacity, ttl := DEFAULT_CAPACITY, DEFAULT_AGE;
      recs, tick, clock := map[], 0, now;
    }

    method Delete(k: K, lru: seq<Element<K>>, age: seq<Element<K>>)
      requires k in m
      modifies this`m, this`size, this`lruList, this`ageList, this`recs
      ensures Repr() == Dropped(old(Repr()), k, lru, age)
    {
      size := size - m[k].size;
      m := m - {k};
      lruList := lru;
      ageList := age;
      recs := recs - {k};
    }

    method UnsafeRemove(k: K) returns (r: Option<V>)
      requires Valid()
      modifies this`m, this`size, this`lruList, this`ageList, this`recs
      ensures Valid()
      ensures m == old(m) - {k} && recs == old(recs) - {k}
      ensures r == if k in old(recs) then Some(old(recs)[k].value) else None
      ensures k in old(m) ==> |m| == old(|m|) - 1 && |ageList| == old(|ageList|) - 1
    {
      GoodKey(Repr(), k);
      if k in m {
        CountWithout(m, k);
        var v := m[k].value;
        var lru, age := Unthread(m[k], lruList, ageList, k, Repr());
        Delete(k, lru, age);
        return Some(v);
      }
      assert m - {k} == m && recs - {k} == recs;
      r := None;
    }

    /** One round of the expiry loop at the back of the age list. */
    method ExpireBack(timeLine: int, ghost start: map<K, Rec<V>>) returns (stop: bool)
      requires Valid() && |ageList| > 0 && Survivors(start, recs, timeLine)
      modifies this`m, this`size, this`lruList, this`ageList, this`recs
      ensures Valid() && Survivors(start, recs, timeLine)
      ensures stop ==> ageList == old(ageList) && forall k :: k in recs ==> recs[k].loadTime > timeLine
      ensures !stop ==> |ageList| < old(|ageList|)
    {
      var elm := ageList[|ageList| - 1];
      ghost var back := AgeBack(Repr());
      if elm.value in m {
        if m[elm.value].loadTime > timeLine {
          return true;
        }
        SurvivorsWithout(start, recs, timeLine, back);
        var _ := UnsafeRemove(elm.value);
      }
      stop := false;
    }

    /** Expiry from the back of the age list, stopping at the first entry that is still alive. */
    method RemoveExpired(now: int)
      requires Valid() && clock <= now
      modifies this`m, this`size, this`lruList, this`ageList, this`recs, this`clock
      ensures Valid() && clock == now
      ensures Ref() == old(Ref()).(m := Unexpired(old(recs), now, ttl))
    {
      GoodLater(Repr(), tick, now);
      clock := now;
      var timeLine := now - ttl;
      var stop := false;
      ghost var start := recs;
      while |ageList| > 0 && !stop
        invariant Valid() && clock == now && Survivors(start, recs, timeLine)
        invariant stop ==> forall k :: k in recs ==> recs[k].loadTime > timeLine
        decreases |ageList|, !stop
      {
        stop := ExpireBack(timeLine, start);
      }
      if !stop {
        GoodEmptyAge(Repr());
      }
      SurvivorsEnd(start, recs, now, ttl);
    }

    /** One round of the eviction loop at the back of the LRU list. */
    method EvictBack(ghost u: map<K, Rec<V>>, ghost floor: int) returns (ghost raised: int)
      requires Valid() && m != map[] && LatestOf(u, recs, floor)
      modifies this`m, this`size, this`lruList, this`ageList, this`recs
      ensures Valid() && LatestOf(u, recs, raised) && |m| == old(|m|) - 1
    {
      ghost var back := LruBack(Repr());
      LatestWithout(u, recs, floor, back);
      raised := recs[back].lastUse;
      if lruList != [] {
        var _ := UnsafeRemove(lruList[|lruList| - 1].value);
      }
    }

    /** Eviction of the entries used longest ago down to the low water mark. */
    method Evict(waterLine: int)
      requires Valid() && 0 <= waterLine
      modifies this`m, this`size, this`lruList, this`ageList, this`recs
      ensures Valid() && recs == MostRecent(old(recs), waterLine)
    {
      ghost var u, floor := recs, -1;
      LatestStart(u);
      while |m| > waterLine
        invariant Valid() && LatestOf(u, recs, floor)
        invariant recs == u || |m| >= waterLine
        decreases |m|
      {
        floor := EvictBack(u, floor);
      }
      GoodCount(Repr());
      LatestIsMostRecent(u, recs, floor, waterLine);
    }

    /** Expiry and eviction when the map reaches the high water mark. */
    method Cull(now: int)
      requires Valid() && clock <= now
      modifies this`m, this`size, this`lruList, this`ageList, this`recs, this`clock
      ensures Valid() && old(clock) <= clock <= now
      ensures Ref() == old(Ref()).(m := Culled(old(recs), capacity, now, ttl))
    {
      GoodCount(Repr());
      var waterLine := capacity * 97 / 100;
      if |m| < waterLine {
        CulledIdle(recs, capacity, now, ttl);
        return;
      }
      ghost var start := recs;
      RemoveExpired(now);
      ghost var alive := recs;
      waterLine := capacity * 90 / 100;
      Evict(waterLine);
      CulledIs(start, capacity, now, ttl, alive, recs);
    }

    method Relink(k: K, v: V, lru: seq<Element<K>>, e: Element<K>)
      requires k in m && k in recs
      modifies this`m, this`lruList, this`recs, this`nodeCount, this`tick, this`hits
      ensures Repr() == Touched(old(Repr()), k, v, lru, e) && hits == old(hits) + 1
    {
      m := m[k := m[k].(value := v, lruNode := e)];
      lruList := [e] + lru;
      nodeCount := nodeCount + 1;
      hits := hits + 1;
      recs := recs[k := recs[k].(value := v, lastUse := tick)];
      tick := tick + 1;
    }

    /** A hit: k's entry gets the value v and a new node at the front in place of its old one. */
    method CountHit(k: K, v: V)
      requires Valid() && k in m
      modifies this`m, this`lruList, this`recs, this`nodeCount, this`tick, this`hits
      ensures Valid() && k in old(recs) && Ref() == AfterHit(old(Ref()), k, v)
    {
      GoodNodes(Repr(), k);
      var lru, i := RemoveNode(lruList, m[k].lruNode);
      var e := Element(nodeCount, k);
      GoodTouch(Repr(), k, v, lru, i, e);
      Relink(k, v, lru, e);
    }

    method CountMiss()
      requires Valid()
      modifies this`tick, this`misses
      ensures Valid() && Ref() == AfterMiss(old(Ref()))
    {
      Pass();
      misses := misses + 1;
    }

    ghost method Pass()
      requires Valid()
      modifies this`tick
      ensures Valid() && tick == old(tick) + 1
    {
      GoodLater(Repr(), tick + 1, clock);
      tick := tick + 1;
    }

    method Get(k: K, now: int) returns (r: Option<V>)
      requires Valid() && clock <= now
      modifies this
      ensures Valid() && clock == now
      ensures (Ref(), ReplyOf(r)) == Step(old(Ref()), CacheSpec.Get(k, now))
    {
      RemoveExpired(now);
      StepLookup(old(Ref()), CacheSpec.Get(k, now), Ref());
      GoodKey(Repr(), k);
      if k in m {
        var v := m[k].value;
        GoodNodes(Repr(), k);
        CountHit(k, v);
        return Some(v);
      }
      CountMiss();
      r := None;
    }

    method Update(k: K, v: V, now: int) returns (r: Option<V>)
      requires Valid() && clock <= now
      modifies this
      ensures Valid() && clock == now
      ensures (Ref(), ReplyOf(r)) == Step(old(Ref()), CacheSpec.Update(k, v, now))
    {
      RemoveExpired(now);
      StepLookup(old(Ref()), CacheSpec.Update(k, v, now), Ref());
      GoodKey(Repr(), k);
      if k in m {
        CountHit(k, v);
        return Some(v);
      }
      CountMiss();
      r := None;
    }

    method Insert(k: K, e: Entry<K, V>)
      modifies this`m, this`lruList, this`ageList, this`size, this`recs, this`nodeCount, this`tick, this`clock
      ensures Repr() == Inserted(old(Repr()), k, e)
    {
      lruList := [e.lruNode] + lruList;
      ageList := [e.ageNode] + ageList;
      m := m[k := e];
      size := size + e.size;
      nodeCount := nodeCount + 2;
      recs := recs[k := Rec(e.value, e.loadTime, e.size, tick)];
      tick := tick + 1;
      clock := e.loadTime;
    }

    method InsertNew(k: K, v: V, s: int, now: int)
      requires Valid() && k !in m && clock <= now
      modifies this`m, this`lruList, this`ageList, this`size, this`recs, this`nodeCount, this`tick, this`clock
      ensures Valid() && clock == now
      ensures Ref() == AfterInsert(old(Ref()), k, v, now, s)
    {
      var e := Entry(v, Element(nodeCount, k), Element(nodeCount + 1, k), now, s);
      GoodInsert(Repr(), k, e);
      Insert(k, e);
    }

    /** cullNow and now are the two clock readings of one call. */
    method AddWithSize(k: K, v: V, s: int, cullNow: int, now: int) returns (ok: bool)
      requires Valid() && clock <= cullNow <= now
      modifies this
      ensures Valid() && old(clock) <= clock <= now
      ensures (Ref(), if ok then Added else Refused) == Step(old(Ref()), Add(k, v, s, cullNow, now))
    {
      GoodKey(Repr(), k);
      if k in m {
        Pass();
        return false;
      }
      Cull(cullNow);
      GoodKey(Repr(), k);
      StepAdd(old(Ref()), Add(k, v, s, cullNow, now), Ref());
      InsertNew(k, v, s, now);
      ok := true;
    }

    method Remove(k: K) returns (r: Option<V>)
      requires Valid()
      modifies this
      ensures Valid() && clock == old(clock)
      ensures (Ref(), ReplyOf(r)) == Step(old(Ref()), CacheSpec.Remove(k))
    {
      r := UnsafeRemove(k);
      StepRemove(old(Ref()), k);
      Pass();
    }

    method SetCapacity(cap: int)
      requires Valid()
      modifies this`capacity, this`tick
      ensures Valid()
      ensures (Ref(), Quiet) == Step(old(Ref()), CacheSpec.SetCapacity(cap))
    {
      if cap > 1 {
        capacity := cap;
      }
      Pass();
    }

    method SetTTL(d: int)
      requires Valid()
      modifies this`ttl, this`tick
      ensures Valid()
      ensures (Ref(), Quiet) == Step(old(Ref()), CacheSpec.SetTTL(d))
    {
      ttl := d;
      Pass();
    }
  }
}
