/** Every sequence of calls on the cache object, with clock readings that never go back, is a run in the sense
    of CacheRuns: the theorems about runs hold for the object. */
module CacheDrive {
  import opened CacheSpec
  import opened CacheRep
  import CacheModel
  import opened CacheRuns

  /** The readings of a call are not before `clock`, nor its second reading before its first. */
  predicate InTime<K, V>(op: Op<K, V>, clock: int) {
    match op
    case Get(_, now) => clock <= now
    case Update(_, _, now) => clock <= now
    case Add(_, _, _, cullNow, now) => clock <= cullNow <= now
    case Remove(_) => true
    case SetCapacity(_) => true
    case SetTTL(_) => true
  }

  function ClockAfter<K, V>(op: Op<K, V>, clock: int): (t: int) {
    if op.Get? || op.Update? || op.Add? then op.now else clock
  }

  function ClockAt<K, V>(ops: seq<Op<K, V>>, n: nat, start: int): (t: int)
    requires n <= |ops|
  {
    if n == 0 then start else ClockAfter(ops[n - 1], ClockAt(ops, n - 1, start))
  }

  predicate Timed<K, V>(ops: seq<Op<K, V>>, start: int) {
    forall n :: 0 <= n < |ops| ==> InTime(ops[n], ClockAt(ops, n, start))
  }

  /** One call on the object. */
  method Perform<K(==), V>(c: CacheModel.Cache<K, V>, op: Op<K, V>, ghost clock: int) returns (reply: Reply<V>)
    requires c.Valid() && c.clock <= clock && InTime(op, clock)
    modifies c
    ensures c.Valid() && c.clock <= ClockAfter(op, clock)
    ensures (c.Ref(), reply) == Step(old(c.Ref()), op)
  {
    match op
    case Get(k, now) =>
      var v := c.Get(k, now);
      reply := CacheModel.ReplyOf(v);
    case Update(k, v, now) =>
      var u := c.Update(k, v, now);
      reply := CacheModel.ReplyOf(u);
    case Add(k, v, size, cullNow, now) =>
      var ok := c.AddWithSize(k, v, size, cullNow, now);
      reply := if ok then Added else Refused;
    case Remove(k) =>
      var v := c.Remove(k);
      reply := CacheModel.ReplyOf(v);
    case SetCapacity(cap) =>
      c.SetCapacity(cap);
      reply := Quiet;
    case SetTTL(d) =>
      c.SetTTL(d);
      reply := Quiet;
  }

  /** A new cache under any calls: its replies and reference states form a run, and at the end the object's map
      holds as many entries as the reference and its size is the sum of their sizes. */
  method Drive<K(==), V>(ops: seq<Op<K, V>>, start: int)
    returns (c: CacheModel.Cache<K, V>, replies: seq<Reply<V>>, ghost r: Run<K, V>)
    requires Timed(ops, start)
    ensures IsRun(r) && r.ops == ops && r.replies == replies
    ensures c.Valid() && c.Ref() == r.states[|ops|]
    ensures |c.m| == |r.states[|ops|].m| && c.size == SizeOf(r.states[|ops|].m)
  {
    c := new CacheModel.Cache(start);
    replies := [];
    ghost var states := [c.Ref()];
    for n := 0 to |ops|
      invariant c.Valid() && c.clock <= ClockAt(ops, n, start)
      invariant |states| == n + 1 && c.Ref() == states[n]
      invariant fresh(c)
      invariant IsRun(Run(ops[..n], states, replies))
    {
      var reply := Perform(c, ops[n], ClockAt(ops, n, start));
      RunSnoc(ops, n, states, replies, c.Ref(), reply);
      replies := replies + [reply];
      states := states + [c.Ref()];
    }
    assert ops[..|ops|] == ops;
    GoodCount(c.Repr());
    r := Run(ops, states, replies);
  }

  lemma RunSnoc<K, V>(ops: seq<Op<K, V>>, n: nat, states: seq<State<K, V>>, replies: seq<Reply<V>>, after: State<K, V>,
                      reply: Reply<V>)
    requires n < |ops| && IsRun(Run(ops[..n], states, replies)) && (after, reply) == Step(states[n], ops[n])
    ensures IsRun(Run(ops[..n + 1], states + [after], replies + [reply]))
  {
    var r, q := Run(ops[..n], states, replies), Run(ops[..n + 1], states + [after], replies + [reply]);
    forall i | 0 <= i < n + 1 ensures (q.states[i + 1], q.replies[i]) == Step(q.states[i], q.ops[i]) {
      assert Position(i);
      if i < n {
        assert q.states[i] == r.states[i] && q.states[i + 1] == r.states[i + 1] && q.ops[i] == r.ops[i];
      }
    }
  }
}
