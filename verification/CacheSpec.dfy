/** A reference cache without lists: entries carry their load time and the index of their last use, and
    expiry and eviction are map comprehensions. */
module CacheSpec {

  datatype Rec<V> = Rec(value: V, loadTime: int, size: int, lastUse: nat)

  datatype State<K, V> = State(m: map<K, Rec<V>>, capacity: int, ttl: int, hits: nat, misses: nat, tick: nat)

  datatype Op<K, V> =
    | Get(k: K, now: int)
    | Update(k: K, v: V, now: int)
    | Add(k: K, v: V, size: int, cullNow: int, now: int)
    | Remove(k: K)
    | SetCapacity(cap: int)
    | SetTTL(d: int)

  datatype Reply<V> = Hit(v: V) | Miss | Added | Refused | Quiet

  const DEFAULT_CAPACITY := 1024
  const DEFAULT_AGE := 60_000_000_000

  // ---------------------------------------------------------------- one operation

  /** The entries loaded after now - ttl. */
  function Unexpired<K, V>(m: map<K, Rec<V>>, now: int, ttl: int): (u: map<K, Rec<V>>) {
    map k | k in m && m[k].loadTime > now - ttl :: m[k]
  }

  /** The keys used more recently than k. */
  function Newer<K, V>(m: map<K, Rec<V>>, k: K): (s: set<K>)
    requires k in m
  {
    set j | j in m && m[j].lastUse > m[k].lastUse
  }

  /** The w most recently used entries. */
  function MostRecent<K, V>(m: map<K, Rec<V>>, w: int): (r: map<K, Rec<V>>) {
    map k | k in m && |Newer(m, k)| < w :: m[k]
  }

  function HighWater(capacity: int): (w: int) { capacity * 97 / 100 }

  function LowWater(capacity: int): (w: int) { capacity * 90 / 100 }

  function Culled<K, V>(m: map<K, Rec<V>>, capacity: int, now: int, ttl: int): (r: map<K, Rec<V>>) {
    if |m| < HighWater(capacity) then m else MostRecent(Unexpired(m, now, ttl), LowWater(capacity))
  }

  function Step<K, V>(st: State<K, V>, op: Op<K, V>): (r: (State<K, V>, Reply<V>)) {
    var after := st.(tick := st.tick + 1);
    match op
    case Get(k, now) =>
      var u := Unexpired(st.m, now, st.ttl);
      if k in u then (after.(m := u[k := u[k].(lastUse := st.tick)], hits := st.hits + 1), Hit(u[k].value))
      else (after.(m := u, misses := st.misses + 1), Miss)
    case Update(k, v, now) =>
      var u := Unexpired(st.m, now, st.ttl);
      if k in u then (after.(m := u[k := u[k].(lastUse := st.tick, value := v)], hits := st.hits + 1), Hit(v))
      else (after.(m := u, misses := st.misses + 1), Miss)
    case Add(k, v, size, cullNow, now) =>
      if k in st.m then (after, Refused)
      else (after.(m := Culled(st.m, st.capacity, cullNow, st.ttl)[k := Rec(v, now, size, st.tick)]), Added)
    case Remove(k) =>
      if k in st.m then (after.(m := st.m - {k}), Hit(st.m[k].value)) else (after, Miss)
    case SetCapacity(cap) => (after.(capacity := if cap > 1 then cap else st.capacity), Quiet)
    case SetTTL(d) => (after.(ttl := d), Quiet)
  }

  lemma CulledIs<K, V>(m: map<K, Rec<V>>, capacity: int, now: int, ttl: int, alive: map<K, Rec<V>>,
                       kept: map<K, Rec<V>>)
    requires |m| >= HighWater(capacity) && alive == Unexpired(m, now, ttl)
    requires kept == MostRecent(alive, LowWater(capacity))
    ensures kept == Culled(m, capacity, now, ttl)
  {
  }

  lemma CulledIdle<K, V>(m: map<K, Rec<V>>, capacity: int, now: int, ttl: int)
    requires |m| < HighWater(capacity)
    ensures Culled(m, capacity, now, ttl) == m
  {
  }

  function AfterHit<K, V>(st: State<K, V>, k: K, v: V): (after: State<K, V>)
    requires k in st.m
  {
    st.(tick := st.tick + 1, hits := st.hits + 1, m := st.m[k := st.m[k].(lastUse := st.tick, value := v)])
  }

  function AfterMiss<K, V>(st: State<K, V>): (after: State<K, V>) {
    st.(tick := st.tick + 1, misses := st.misses + 1)
  }

  function AfterInsert<K, V>(st: State<K, V>, k: K, v: V, now: int, size: int): (after: State<K, V>) {
    st.(tick := st.tick + 1, m := st.m[k := Rec(v, now, size, st.tick)])
  }

  /** A lookup step is expiry and then a hit or a miss. */
  lemma StepLookup<K, V>(st: State<K, V>, op: Op<K, V>, mid: State<K, V>)
    requires op.Get? || op.Update?
    requires mid == st.(m := Unexpired(st.m, op.now, st.ttl))
    ensures op.k in mid.m ==>
              var v := if op.Get? then mid.m[op.k].value else op.v;
              Step(st, op) == (AfterHit(mid, op.k, v), Hit(v))
    ensures op.k !in mid.m ==> Step(st, op) == (AfterMiss(mid), Miss)
  {
    if op.Get? && op.k in mid.m {
      var r := mid.m[op.k];
      assert r.(lastUse := st.tick) == r.(lastUse := st.tick, value := r.value);
    }
  }

  /** An accepted addition is a cull and then an insertion. */
  lemma StepAdd<K, V>(st: State<K, V>, op: Op<K, V>, mid: State<K, V>)
    requires op.Add? && op.k !in st.m
    requires mid == st.(m := Culled(st.m, st.capacity, op.cullNow, st.ttl))
    ensures Step(st, op) == (AfterInsert(mid, op.k, op.v, op.now, op.size), Added)
  {
  }

  lemma StepRemove<K, V>(st: State<K, V>, k: K)
    ensures Step(st, Remove(k))
         == (st.(tick := st.tick + 1, m := st.m - {k}), if k in st.m then Hit(st.m[k].value) else Miss)
  {
    assert k !in st.m ==> st.m - {k} == st.m;
  }

  ghost function SizeOf<K, V>(m: map<K, Rec<V>>): (total: int) {
    if m == map[] then 0
    else
      var k :| k in m;
      m[k].size + SizeOf(m - {k})
  }

  lemma {:induction false} SizeWithout<K, V>(m: map<K, Rec<V>>, k: K)
    requires k in m
    ensures SizeOf(m) == m[k].size + SizeOf(m - {k})
    decreases |m|
  {
    var j :| j in m && SizeOf(m) == m[j].size + SizeOf(m - {j});
    if j != k {
      SizeWithout(m - {j}, k);
      SizeWithout(m - {k}, j);
      assert m - {j} - {k} == m - {k} - {j};
    }
  }

  lemma SizeWith<K, V>(m: map<K, Rec<V>>, k: K, r: Rec<V>)
    requires k !in m
    ensures SizeOf(m[k := r]) == SizeOf(m) + r.size
  {
    SizeWithout(m[k := r], k);
    assert m[k := r] - {k} == m;
  }

  /** Only the size of an entry matters. */
  lemma {:induction false} SizeTouch<K, V>(m: map<K, Rec<V>>, k: K, r: Rec<V>)
    requires k in m && m[k].size == r.size
    ensures SizeOf(m[k := r]) == SizeOf(m)
  {
    SizeWithout(m, k);
    SizeWithout(m[k := r], k);
    assert m[k := r] - {k} == m - {k};
  }

  lemma CountWithout<K, V>(m: map<K, V>, k: K)
    requires k in m
    ensures |m - {k}| == |m| - 1
  {
    assert (m - {k}).Keys == m.Keys - {k};
  }

  lemma SubsetCardinality<T>(a: set<T>, b: set<T>)
    requires a <= b
    ensures |a| <= |b|
    ensures a != b ==> |a| < |b|
  {
    assert b == a + (b - a);
    if a != b {
      assert b - a != {};
    }
  }

  /** Any subset of w entries that are all used after every other entry is the w most recent. */
  lemma MostRecentUnique<K, V>(m: map<K, Rec<V>>, kept: map<K, Rec<V>>)
    requires forall k :: k in kept ==> k in m && kept[k] == m[k]
    requires forall k, j :: k in kept && j in m && j !in kept ==> m[k].lastUse > m[j].lastUse
    ensures kept == MostRecent(m, |kept|)
  {
    forall k | k in m ensures k in kept <==> |Newer(m, k)| < |kept| {
      if k in kept {
        SubsetCardinality(Newer(m, k), kept.Keys);
        assert k !in Newer(m, k);
      } else {
        SubsetCardinality(kept.Keys, Newer(m, k));
      }
    }
  }

  lemma MostRecentAll<K, V>(m: map<K, Rec<V>>, w: int)
    requires |m| <= w
    ensures MostRecent(m, w) == m
  {
    forall k | k in m ensures |Newer(m, k)| < w {
      SubsetCardinality(Newer(m, k), m.Keys);
      assert k !in Newer(m, k);
    }
  }
}
