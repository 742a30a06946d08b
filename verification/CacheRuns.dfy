/** Theorems about every run of the cache: a run starts from the fresh cache and lists its operations, its
    states and its replies. Positions in it are the only notion of "last used", "latest write" and "since". */
module CacheRuns {
  import opened CacheSpec

  datatype Run<K, V> = Run(ops: seq<Op<K, V>>, states: seq<State<K, V>>, replies: seq<Reply<V>>)

  // Always true: the steps of a run are looked at for the positions named by it.
  ghost predicate Position(n: int) { true }

  ghost predicate IsRun<K, V>(r: Run<K, V>) {
    && |r.states| == |r.ops| + 1 && |r.replies| == |r.ops|
    && r.states[0] == State(map[], DEFAULT_CAPACITY, DEFAULT_AGE, 0, 0, 0)
    && forall n {:trigger Position(n)} :: 0 <= n < |r.ops| ==>
         (r.states[n + 1], r.replies[n]) == Step(r.states[n], r.ops[n])
  }

  /** Operation n is a successful Add, a hit Get or a hit Update of k. */
  predicate UsesAt<K(==), V>(r: Run<K, V>, n: nat, k: K) {
    && n < |r.ops| && n < |r.replies|
    && match r.ops[n]
       case Add(j, _, _, _, _) => j == k && r.replies[n].Added?
       case Get(j, _) => j == k && r.replies[n].Hit?
       case Update(j, _, _) => j == k && r.replies[n].Hit?
       case Remove(_) => false
       case SetCapacity(_) => false
       case SetTTL(_) => false
  }

  /** Operation n is a successful Add or a hit Update of k. */
  predicate WritesAt<K(==), V>(r: Run<K, V>, n: nat, k: K) {
    UsesAt(r, n, k) && !r.ops[n].Get?
  }

  /** k is in the cache before operation n. */
  ghost predicate HeldAt<K, V>(r: Run<K, V>, n: nat, k: K) {
    n < |r.states| && k in r.states[n].m
  }

  lemma {:induction false} TickIsPosition<K, V>(r: Run<K, V>, n: nat)
    requires IsRun(r) && n <= |r.ops|
    ensures r.states[n].tick == n && r.states[n].capacity > 1
  {
    if n > 0 {
      TickIsPosition(r, n - 1);
      assert Position(n - 1);
    }
  }

  /** The TTL in force before operation n: the argument of the last SetTTL, or one minute. */
  function TtlAt<K, V>(ops: seq<Op<K, V>>, n: nat): (ttl: int)
    requires n <= |ops|
  {
    if n == 0 then 60_000_000_000
    else if ops[n - 1].SetTTL? then ops[n - 1].d
    else TtlAt(ops, n - 1)
  }

  /** The capacity in force before operation n: the argument of the last SetCapacity above 1, or 1024. */
  function CapacityAt<K, V>(ops: seq<Op<K, V>>, n: nat): (cap: int)
    requires n <= |ops|
  {
    if n == 0 then 1024
    else if ops[n - 1].SetCapacity? && ops[n - 1].cap > 1 then ops[n - 1].cap
    else CapacityAt(ops, n - 1)
  }

  /** The settings of a state are those last made. */
  lemma {:induction false} SettingsAre<K, V>(r: Run<K, V>, n: nat)
    requires IsRun(r) && n <= |r.ops|
    ensures r.states[n].ttl == TtlAt(r.ops, n) && r.states[n].capacity == CapacityAt(r.ops, n)
  {
    if n > 0 {
      SettingsAre(r, n - 1);
      assert Position(n - 1);
    }
  }

  /** The number of lookups among the first n operations that hit, or that missed. */
  function Lookups<K, V>(r: Run<K, V>, n: nat, hit: bool): (c: nat)
    requires n <= |r.ops| && n <= |r.replies|
  {
    if n == 0 then 0
    else
      var counts := (r.ops[n - 1].Get? || r.ops[n - 1].Update?) && r.replies[n - 1].Hit? == hit;
      Lookups(r, n - 1, hit) + if counts then 1 else 0
  }

  /** The counters are the numbers of lookups that hit and that missed. */
  lemma {:induction false} CountersAre<K, V>(r: Run<K, V>, n: nat)
    requires IsRun(r) && n <= |r.ops|
    ensures r.states[n].hits == Lookups(r, n, true) && r.states[n].misses == Lookups(r, n, false)
  {
    if n > 0 {
      CountersAre(r, n - 1);
      assert Position(n - 1);
    }
  }

  /** One step either uses k, and stamps it, or leaves k's entry alone if it leaves it at all. */
  lemma StepEntry<K, V>(r: Run<K, V>, n: nat, k: K)
    requires IsRun(r) && n < |r.ops| && HeldAt(r, n + 1, k)
    ensures var before, after, op := r.states[n].m, r.states[n + 1].m, r.ops[n];
            if UsesAt(r, n, k) then
              && after[k].lastUse == n
              && (op.Add? ==> k !in before && after[k] == Rec(op.v, op.now, op.size, n))
              && (!op.Add? ==>
                    k in before && after[k].loadTime == before[k].loadTime && after[k].size == before[k].size)
              && (op.Update? ==> after[k].value == op.v)
              && (op.Get? ==> after[k].value == before[k].value)
            else k in before && after[k] == before[k]
  {
    TickIsPosition(r, n);
    assert Position(n);
  }

  /** The last use kept with an entry is the position of the last operation that used its key. */
  lemma {:induction false} LastUseIsHistory<K, V>(r: Run<K, V>, n: nat, k: K)
    requires IsRun(r) && HeldAt(r, n, k)
    ensures var u := r.states[n].m[k].lastUse;
            u < n && UsesAt(r, u, k) && forall j :: u < j < n ==> !UsesAt(r, j, k)
  {
    StepEntry(r, n - 1, k);
    if !UsesAt(r, n - 1, k) {
      LastUseIsHistory(r, n - 1, k);
    }
  }

  /** Two keys never have the same last use. */
  lemma DistinctUses<K, V>(r: Run<K, V>, n: nat, j: K, k: K)
    requires IsRun(r) && HeldAt(r, n, j) && HeldAt(r, n, k)
    requires r.states[n].m[j].lastUse == r.states[n].m[k].lastUse
    ensures j == k
  {
    LastUseIsHistory(r, n, j);
    LastUseIsHistory(r, n, k);
  }

  /** A held entry was added at `a` and has been held ever since. */
  lemma {:induction false} HeldSince<K, V>(r: Run<K, V>, n: nat, k: K) returns (a: nat)
    requires IsRun(r) && HeldAt(r, n, k)
    ensures a < n && UsesAt(r, a, k) && r.ops[a].Add?
    ensures r.states[n].m[k].loadTime == r.ops[a].now && r.states[n].m[k].size == r.ops[a].size
    ensures forall j :: a < j <= n ==> HeldAt(r, j, k)
  {
    StepEntry(r, n - 1, k);
    if UsesAt(r, n - 1, k) && r.ops[n - 1].Add? {
      a := n - 1;
    } else {
      a := HeldSince(r, n - 1, k);
    }
  }

  /** A held entry carries the value of the latest write of its key. */
  lemma {:induction false} LatestWrite<K, V>(r: Run<K, V>, n: nat, k: K) returns (w: nat)
    requires IsRun(r) && HeldAt(r, n, k)
    ensures w < n && WritesAt(r, w, k) && r.states[n].m[k].value == r.ops[w].v
    ensures forall j :: w < j < n ==> !WritesAt(r, j, k)
  {
    StepEntry(r, n - 1, k);
    if WritesAt(r, n - 1, k) {
      w := n - 1;
    } else {
      w := LatestWrite(r, n - 1, k);
    }
  }

  /** A held entry was loaded after the current TTL's reach at time now. */
  ghost predicate Alive<K, V>(r: Run<K, V>, n: nat, k: K, now: int) {
    HeldAt(r, n, k) && n <= |r.ops| && r.states[n].m[k].loadTime > now - TtlAt(r.ops, n)
  }

  /** A Get or Update hits exactly when its key is held and was added less than the TTL ago. */
  lemma LookupHits<K, V>(r: Run<K, V>, n: nat)
    requires IsRun(r) && n < |r.ops| && (r.ops[n].Get? || r.ops[n].Update?)
    ensures r.replies[n].Hit? <==> Alive(r, n, r.ops[n].k, r.ops[n].now)
    ensures r.replies[n].Hit? || r.replies[n].Miss?
    ensures r.ops[n].Update? && r.replies[n].Hit? ==> r.replies[n].v == r.ops[n].v
  {
    SettingsAre(r, n);
    assert Position(n);
  }

  /** Coherence: a hit Get returns the value of the latest write of its key, which was added less than the
      current TTL ago and has been held since; updates do not renew the load time. */
  lemma GetCoherent<K, V>(r: Run<K, V>, n: nat, v: V) returns (a: nat, w: nat)
    requires IsRun(r) && n < |r.ops| && r.ops[n].Get? && r.replies[n] == Hit(v)
    ensures a <= w < n
    ensures UsesAt(r, a, r.ops[n].k) && r.ops[a].Add? && r.ops[n].now - TtlAt(r.ops, n) < r.ops[a].now
    ensures WritesAt(r, w, r.ops[n].k) && v == r.ops[w].v
    ensures forall j :: w < j < n ==> !WritesAt(r, j, r.ops[n].k)
    ensures forall j :: a < j <= n ==> HeldAt(r, j, r.ops[n].k)
  {
    var k := r.ops[n].k;
    LookupHits(r, n);
    assert Position(n);
    a := HeldSince(r, n, k);
    w := LatestWrite(r, n, k);
    assert WritesAt(r, a, k);
  }

  /** And the other way round: a Get misses only if its key is not held, or was added at least the TTL ago. */
  lemma GetMisses<K, V>(r: Run<K, V>, n: nat) returns (a: nat)
    requires IsRun(r) && n < |r.ops| && r.ops[n].Get? && !r.replies[n].Hit?
    ensures HeldAt(r, n, r.ops[n].k) ==>
              a < n && UsesAt(r, a, r.ops[n].k) && r.ops[a].Add? && r.ops[a].now <= r.ops[n].now - TtlAt(r.ops, n)
  {
    LookupHits(r, n);
    a := 0;
    if HeldAt(r, n, r.ops[n].k) {
      a := HeldSince(r, n, r.ops[n].k);
    }
  }

  /** Remove returns the value of the latest write of its key exactly if the key is held. */
  lemma RemoveReturns<K, V>(r: Run<K, V>, n: nat) returns (w: nat)
    requires IsRun(r) && n < |r.ops| && r.ops[n].Remove?
    ensures !HeldAt(r, n, r.ops[n].k) ==> r.replies[n] == Miss
    ensures HeldAt(r, n, r.ops[n].k) ==>
              && w < n && WritesAt(r, w, r.ops[n].k) && r.replies[n] == Hit(r.ops[w].v)
              && forall j :: w < j < n ==> !WritesAt(r, j, r.ops[n].k)
  {
    assert Position(n);
    w := 0;
    if HeldAt(r, n, r.ops[n].k) {
      w := LatestWrite(r, n, r.ops[n].k);
    }
  }

  /** Which keys an operation leaves in the cache: a lookup exactly those alive, a Remove all others, a refused
      Add and a setting all; an accepted Add its own, and all others below the high water mark. */
  lemma HeldAfter<K, V>(r: Run<K, V>, n: nat, k: K)
    requires IsRun(r) && n < |r.ops|
    ensures match r.ops[n]
            case Get(_, now) => HeldAt(r, n + 1, k) <==> Alive(r, n, k, now)
            case Update(_, _, now) => HeldAt(r, n + 1, k) <==> Alive(r, n, k, now)
            case Remove(j) => HeldAt(r, n + 1, k) <==> HeldAt(r, n, k) && k != j
            case SetCapacity(_) => HeldAt(r, n + 1, k) <==> HeldAt(r, n, k)
            case SetTTL(_) => HeldAt(r, n + 1, k) <==> HeldAt(r, n, k)
            case Add(j, _, _, _, _) =>
              if HeldAt(r, n, j) then HeldAt(r, n + 1, k) <==> HeldAt(r, n, k)
              else if k == j then HeldAt(r, n + 1, k)
              else |r.states[n].m| < CapacityAt(r.ops, n) * 97 / 100 ==> (HeldAt(r, n + 1, k) <==> HeldAt(r, n, k))
  {
    SettingsAre(r, n);
    assert Position(n);
  }

  /** An Add is refused exactly when its key is held, expired or not: presence is tested before expiry. */
  lemma AddRefused<K, V>(r: Run<K, V>, n: nat)
    requires IsRun(r) && n < |r.ops| && r.ops[n].Add?
    ensures r.replies[n] == Refused <==> HeldAt(r, n, r.ops[n].k)
    ensures r.replies[n] == Added <==> !HeldAt(r, n, r.ops[n].k)
  {
    assert Position(n);
  }

  /** An Add at the very time its key's entry expires is refused, though nothing unexpired is left. */
  lemma ExpiredAddRefused<K, V>(k: K, v: V, w: V) returns (r: Run<K, V>)
    ensures IsRun(r) && r.ops == [Add(k, v, 1, 0, 0), Add(k, w, 1, DEFAULT_AGE, DEFAULT_AGE)]
    ensures Unexpired(r.states[1].m, DEFAULT_AGE, r.states[1].ttl) == map[] && r.replies == [Added, Refused]
  {
    var first: Op<K, V> := Add(k, v, 1, 0, 0);
    var second: Op<K, V> := Add(k, w, 1, DEFAULT_AGE, DEFAULT_AGE);
    var s0: State<K, V> := State(map[], DEFAULT_CAPACITY, DEFAULT_AGE, 0, 0, 0);
    var s1 := s0.(m := map[k := Rec(v, 0, 1, 0)], tick := 1);
    var s2 := s1.(tick := 2);
    assert Step(s0, first) == (s1, Added) && Step(s1, second) == (s2, Refused);
    r := Run([first, second], [s0, s1, s2], [Added, Refused]);
  }

  // ---------------------------------------------------------------- eviction

  ghost predicate Distinct<K, V>(m: map<K, Rec<V>>) {
    forall j, k :: j in m && k in m && m[j].lastUse == m[k].lastUse ==> j == k
  }

  lemma {:induction false} Oldest<K, V>(m: map<K, Rec<V>>) returns (k: K)
    requires m != map[]
    ensures k in m && forall j :: j in m ==> m[k].lastUse <= m[j].lastUse
    decreases |m|
  {
    k :| k in m;
    assert forall j :: j in m && j != k ==> j in m - {k};
    if m - {k} != map[] {
      CountWithout(m, k);
      var rest := Oldest(m - {k});
      if m[rest].lastUse < m[k].lastUse {
        k := rest;
      }
    }
  }

  /** The entry used longest ago is not among the w most recent, and does not count for the others. */
  lemma OldestDoesNotCount<K, V>(m: map<K, Rec<V>>, w: int, k: K)
    requires k in m && w < |m|
    requires forall j :: j in m && j != k ==> m[k].lastUse < m[j].lastUse
    ensures MostRecent(m, w) == MostRecent(m - {k}, w)
  {
    var rest := m - {k};
    assert Newer(m, k) == m.Keys - {k};
    assert |m.Keys - {k}| == |m| - 1;
    forall j | j in rest ensures Newer(rest, j) == Newer(m, j) {
    }
  }

  lemma {:induction false} MostRecentCount<K, V>(m: map<K, Rec<V>>, w: int)
    requires Distinct(m) && 0 <= w
    ensures |MostRecent(m, w)| == if |m| <= w then |m| else w
    decreases |m|
  {
    if |m| <= w {
      MostRecentAll(m, w);
    } else {
      var k := Oldest(m);
      CountWithout(m, k);
      OldestDoesNotCount(m, w, k);
      MostRecentCount(m - {k}, w);
    }
  }

  /** What is among the most recent was used after what is not. */
  lemma MostRecentOrder<K, V>(m: map<K, Rec<V>>, w: int, k: K, j: K)
    requires k in MostRecent(m, w) && j in m && j !in MostRecent(m, w)
    ensures m[k].lastUse > m[j].lastUse
  {
    if m[k].lastUse <= m[j].lastUse {
      SubsetCardinality(Newer(m, j), Newer(m, k));
      assert false;
    }
  }

  /** Exact eviction in every run: a successful Add that finds the map at 97% of the capacity keeps all unexpired
      entries if they fit into 90% of it, and otherwise exactly that many of them, each used after every entry that
      is dropped. */
  lemma EvictsLeastRecentlyUsed<K, V>(r: Run<K, V>, n: nat)
    requires IsRun(r) && n < |r.ops| && r.ops[n].Add? && r.replies[n].Added?
    requires |r.states[n].m| >= CapacityAt(r.ops, n) * 97 / 100
    ensures var m, kept, w := r.states[n].m, r.states[n + 1].m - {r.ops[n].k}, CapacityAt(r.ops, n) * 90 / 100;
            var alive := set k | k in m && Alive(r, n, k, r.ops[n].cullNow);
            && |kept| == (if |alive| <= w then |alive| else w)
            && (forall k :: k in kept ==> k in alive && kept[k] == m[k])
            && (forall k, j :: k in kept && j in alive && j !in kept ==> kept[k].lastUse > m[j].lastUse)
  {
    var st := r.states[n];
    SettingsAre(r, n);
    TickIsPosition(r, n);
    assert Position(n);
    var alive, w := Unexpired(st.m, r.ops[n].cullNow, st.ttl), LowWater(st.capacity);
    var kept := MostRecent(alive, w);
    assert (set k | k in st.m && Alive(r, n, k, r.ops[n].cullNow)) == alive.Keys;
    assert |alive.Keys| == |alive|;
    forall j, k | j in alive && k in alive && alive[j].lastUse == alive[k].lastUse ensures j == k {
      DistinctUses(r, n, j, k);
    }
    MostRecentCount(alive, w);
    assert r.states[n + 1].m - {r.ops[n].k} == kept;
    forall k, j | k in kept && j in alive && j !in kept ensures kept[k].lastUse > alive[j].lastUse {
      MostRecentOrder(alive, w, k, j);
    }
  }

  /** After every successful Add the cache holds at most its capacity, and no more than 97% of it or 90% and one,
      even right after the capacity was lowered. */
  lemma CapacityBound<K, V>(r: Run<K, V>, n: nat)
    requires IsRun(r) && n < |r.ops| && r.ops[n].Add? && r.replies[n].Added?
    ensures var cap, held := CapacityAt(r.ops, n), |r.states[n + 1].m|;
            && (held <= cap * 97 / 100 || held <= cap * 90 / 100 + 1)
            && held <= cap
  {
    var st, k := r.states[n], r.ops[n].k;
    SettingsAre(r, n);
    TickIsPosition(r, n);
    assert Position(n);
    CountWithout(r.states[n + 1].m, k);
    if |st.m| >= HighWater(st.capacity) {
      EvictsLeastRecentlyUsed(r, n);
    } else {
      assert r.states[n + 1].m - {k} == st.m;
    }
  }
}
