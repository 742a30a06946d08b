/** The two halves of plugin/log/bingologger together: the batches of the writer loop go through writeSync into
    the rotated files. */
module LogPipeline {
  import opened GoBase
  import opened AsyncLog
  import opened AsyncPass
  import opened AsyncRuns
  import LogFiles
  import opened Rotation

  /** The bytes of some buffers, one after another. */
  function Bytes(ms: seq<Msg>): (t: Text) {
    if ms == [] then [] else ms[0].data + Bytes(ms[1..])
  }

  lemma {:induction false} BytesAppend(a: seq<Msg>, b: seq<Msg>)
    ensures Bytes(a + b) == Bytes(a) + Bytes(b)
  {
    if a == [] {
      assert a + b == b;
    } else {
      BytesAppend(a[1..], b);
      assert (a + b)[0] == a[0] && (a + b)[1..] == a[1..] + b;
      Assoc(a[0].data, Bytes(a[1..]), Bytes(b));
    }
  }

  lemma BytesPrefix(a: seq<Msg>, b: seq<Msg>)
    requires a <= b
    ensures Bytes(a) <= Bytes(b)
  {
    BytesAppend(a, b[|a|..]);
    assert b == a + b[|a|..];
  }

  lemma BytesSnoc(ms: seq<Msg>, m: Msg)
    ensures Bytes(ms + [m]) == Bytes(ms) + m.data
  {
    BytesAppend(ms, [m]);
    assert Bytes([m]) == m.data + Bytes([]);
  }

  lemma {:induction false} BytesSize(ms: seq<Msg>)
    ensures |Bytes(ms)| == Size(ms)
  {
    if ms != [] {
      var last, before := ms[|ms| - 1], ms[..|ms| - 1];
      BytesSize(before);
      BytesSnoc(before, last);
      assert ms == before + [last];
    }
  }

  /** When Sync returns, the bytes handed to writeSync begin with the bytes of every buffer that was in the log
      when it began, in order and with nothing in between. */
  lemma SyncFlushesBytes(states: seq<State>, steps: seq<Step>, i: nat, j: nat, c: nat)
    requires IsRun(states, steps) && SyncCall(states, steps, i, j, c)
    ensures Bytes(states[i].accepted) <= Bytes(Written(states[j]))
  {
    var s, early := states[j], states[i].accepted;
    InvAlways(states, steps, j);
    MarkKept(states, steps, i, j, c, j);
    var done := Written(s) + s.sendBuffer;
    PrefixOfFront(early, done, s.bufChan, s.accepted);
    BytesPrefix(early, done);
    BytesAppend(Written(s), s.sendBuffer);
    BytesSize(s.sendBuffer);
  }

  lemma PrefixOfFront(early: seq<Msg>, front: seq<Msg>, back: seq<Msg>, all: seq<Msg>)
    requires all == front + back && early <= all && |early| <= |front|
    ensures early <= front
  {
    assert forall k :: 0 <= k < |early| ==> early[k] == all[k] == front[k];
  }

  // ---------------------------------------------------------------- the writer's own loop

  /** The byte buffer and the writes so far spell the send buffer and the batches of t. */
  ghost predicate Renders(t: State, first: nat, sendBuffer: Text, writes: seq<Text>) {
    && Bytes(t.sendBuffer) == sendBuffer
    && |t.batches| == first + |writes|
    && forall i :: 0 <= i < |writes| ==> writes[i] == Bytes(t.batches[first + i])
  }

  lemma RendersFlushed(t: State, first: nat, sendBuffer: Text, writes: seq<Text>)
    requires Renders(t, first, sendBuffer, writes)
    ensures Renders(Flushed(t), first, [], writes + [sendBuffer])
  {
    var u := Flushed(t);
    forall i | 0 <= i < |writes| ensures writes[i] == Bytes(u.batches[first + i]) {
      assert u.batches[first + i] == t.batches[first + i];
    }
  }

  lemma RendersGather(t: State, first: nat, sendBuffer: Text, writes: seq<Text>, m: Msg)
    requires Renders(t, first, sendBuffer, writes)
    ensures |sendBuffer| == Size(t.sendBuffer)
    ensures if |sendBuffer| + |m.data| > BATCH then Renders(Gather(t, m), first, m.data, writes + [sendBuffer])
            else Renders(Gather(t, m), first, sendBuffer + m.data, writes)
  {
    BytesSize(t.sendBuffer);
    if |sendBuffer| + |m.data| > BATCH {
      RendersFlushed(t, first, sendBuffer, writes);
      BytesSnoc([], m);
    } else {
      BytesSnoc(t.sendBuffer, m);
    }
  }

  lemma RendersSame(t: State, u: State, first: nat, sendBuffer: Text, writes: seq<Text>)
    requires Renders(t, first, sendBuffer, writes) && SameParts(t, u)
    ensures Renders(u, first, sendBuffer, writes)
  {
  }

  lemma RendersRest(t: State, first: nat, sendBuffer: Text, writes: seq<Text>)
    requires Renders(t, first, sendBuffer, writes)
    ensures if |sendBuffer| > 0 then Renders(FlushRest(t), first, [], writes + [sendBuffer])
            else Renders(FlushRest(t), first, sendBuffer, writes)
  {
    BytesSize(t.sendBuffer);
    RendersFlushed(t, first, sendBuffer, writes);
  }

  /** One turn of the gathering loop of writeAllFunc. */
  method GatherOne(buf: Text, writes: seq<Text>, sendBuffer: Text, ghost t: State, ghost first: nat, ghost m: Msg)
    returns (after: seq<Text>, buffer: Text)
    requires buf == m.data && Renders(t, first, sendBuffer, writes)
    ensures Renders(Gather(t, m), first, buffer, after)
  {
    RendersGather(t, first, sendBuffer, writes, m);
    after, buffer := writes, sendBuffer;
    if |buffer| + |buf| > BATCH {
      after := after + [buffer];
      buffer := [];
    }
    buffer := buffer + buf;
  }

  /** The gathering loop of writeAllFunc on the buffers it receives. */
  method GatherLoop(received: seq<Text>, ghost s: State) returns (writes: seq<Text>, sendBuffer: Text)
    requires received == DataOf(s.bufChan) && Bytes(s.sendBuffer) == []
    ensures Renders(GatherAll(s, s.bufChan), |s.batches|, sendBuffer, writes)
  {
    writes, sendBuffer := [], [];
    ghost var queue, got, t := s.bufChan, [], s;
    for i := 0 to |received|
      invariant |got| == i && got <= queue
      invariant t == GatherAll(s, got) && Renders(t, |s.batches|, sendBuffer, writes)
    {
      writes, sendBuffer := GatherOne(received[i], writes, sendBuffer, t, |s.batches|, queue[i]);
      GatherAllSnoc(s, got, queue[i]);
      PrefixGrows(got, queue);
      got, t := got + [queue[i]], Gather(t, queue[i]);
    }
    assert got == queue;
  }

  /** writeAllFunc on the buffers it receives in one pass of any run, whatever producers add to the channel
      meanwhile: its byte buffer is written out exactly as the batches of the transition system, and nothing is
      left in it. */
  method WriteAll(received: seq<Text>, ghost states: seq<State>, ghost steps: seq<Step>, ghost i: nat, ghost j: nat)
    returns (writes: seq<Text>, sendBuffer: Text)
    requires IsRun(states, steps) && Pass(states, steps, i, j)
    requires received == DataOf(Receipts(states, steps, i, j))
    ensures sendBuffer == [] && Renders(states[j], |states[i].batches|, [], writes)
  {
    ghost var s, first := states[i], |states[i].batches|;
    PassResult(states, steps, i, j);
    PassStartsEmpty(states, steps, i, j);
    writes, sendBuffer := [], [];
    if |received| > 0 {
      writes, sendBuffer := GatherLoop(received, s);
      RendersRest(GatherAll(s, s.bufChan), first, sendBuffer, writes);
      if |sendBuffer| > 0 {
        writes := writes + [sendBuffer];
        sendBuffer := [];
      }
    }
    RendersSame(Passed(s), states[j], first, sendBuffer, writes);
  }

  lemma PassStartsEmpty(states: seq<State>, steps: seq<Step>, i: nat, j: nat)
    requires IsRun(states, steps) && Pass(states, steps, i, j)
    ensures Bytes(states[i].sendBuffer) == []
  {
    InvAlways(states, steps, i);
    assert StepAt(states, steps, i);
    BytesSize(states[i].sendBuffer);
  }

  // ---------------------------------------------------------------- both halves

  /** The write requests carry the batches; each may meet any fault. */
  ghost predicate Carries(requests: seq<Request>, batches: seq<seq<Msg>>) {
    |requests| == |batches| && forall i :: 0 <= i < |requests| ==> requests[i].buf == Bytes(batches[i])
  }

  /** Every write that had something to write succeeded. */
  ghost predicate AllWrote(requests: seq<Request>, outcomes: seq<Outcome>) {
    |requests| == |outcomes| && forall i :: 0 <= i < |requests| ==> outcomes[i].Wrote? || requests[i].buf == []
  }

  lemma {:induction false} BytesOfBatches(requests: seq<Request>, batches: seq<seq<Msg>>)
    requires Carries(requests, batches)
    ensures Concat(Bufs(requests)) == Bytes(Concat(batches))
  {
    if batches != [] {
      BytesOfBatches(requests[1..], batches[1..]);
      BytesAppend(batches[0], Concat(batches[1..]));
    }
  }

  function Bufs(requests: seq<Request>): (bufs: seq<Text>) {
    if requests == [] then [] else [requests[0].buf] + Bufs(requests[1..])
  }

  /** First parts of some buffers make up all of their bytes exactly if every part is its whole buffer. */
  lemma {:induction false} PartsAreWhole(requests: seq<Request>, outcomes: seq<Outcome>, parts: seq<Text>)
    requires AllSettled(requests, outcomes, parts)
    ensures |Concat(parts)| <= |Concat(Bufs(requests))|
    ensures Concat(parts) == Concat(Bufs(requests)) <==> AllWrote(requests, outcomes)
  {
    if requests != [] {
      var q, r, part := requests[0], outcomes[0], parts[0];
      assert Settled(q, r, part);
      SettledTail(requests, outcomes, parts);
      PartsAreWhole(requests[1..], outcomes[1..], parts[1..]);
      assert Bufs(requests)[1..] == Bufs(requests[1..]);
      FrontsAgree(part, Concat(parts[1..]), q.buf, Concat(Bufs(requests[1..])));
      assert AllWrote(requests, outcomes) <==> (r.Wrote? || q.buf == []) && AllWrote(requests[1..], outcomes[1..]) by {
        AllWroteHead(requests, outcomes);
      }
    }
  }

  lemma SettledTail(requests: seq<Request>, outcomes: seq<Outcome>, parts: seq<Text>)
    requires requests != [] && AllSettled(requests, outcomes, parts)
    ensures AllSettled(requests[1..], outcomes[1..], parts[1..])
  {
  }

  lemma AllWroteHead(requests: seq<Request>, outcomes: seq<Outcome>)
    requires requests != [] && |requests| == |outcomes|
    ensures AllWrote(requests, outcomes)
       <==> (outcomes[0].Wrote? || requests[0].buf == []) && AllWrote(requests[1..], outcomes[1..])
  {
    forall i | 0 < i < |requests| ensures requests[i] == requests[1..][i - 1] && outcomes[i] == outcomes[1..][i - 1] {
    }
  }

  lemma FrontsAgree(a: Text, x: Text, b: Text, y: Text)
    requires a <= b && |x| <= |y|
    ensures a + x == b + y <==> a == b && x == y
  {
    if a + x == b + y {
      assert |a| == |b|;
      assert x == (a + x)[|a|..] && y == (b + y)[|b|..];
    }
  }

  lemma PrefixBehind(front: Text, a: Text, b: Text)
    requires a <= b
    ensures front + a <= front + b
  {
  }

  lemma SameBehind(front: Text, a: Text, b: Text)
    ensures front + a == front + b <==> a == b
  {
    assert (front + a)[|front|..] == a && (front + b)[|front|..] == b;
  }

  /** In every reachable state, with the batches written under any faults: the archives in move order and the
      active file hold what they held before and the bytes taken of each batch; these are all the bytes handed
      over exactly if no write failed; and then a Sync call that ends here finds all bytes accepted before it
      began in the files. The writer itself looks at no outcome. */
  method WriteBatches(l: Logger, requests: seq<Request>, ghost states: seq<State>, ghost steps: seq<Step>, ghost n: nat)
    returns (outcomes: seq<Outcome>, ghost landed: seq<Text>)
    requires l.Valid() && IsRun(states, steps) && n < |states| && Carries(requests, states[n].batches)
    modifies l`fileOpen, l`generation, l`files, l`archives, l`fileCreateTime
    ensures l.Valid() && AllSettled(requests, outcomes, landed) && l.Ledger() == old(l.Ledger()) + Concat(landed)
    ensures l.Ledger() == old(l.Ledger()) + Bytes(Written(states[n])) <==> AllWrote(requests, outcomes)
    ensures Bytes(states[n].accepted) == Bytes(Written(states[n])) + Bytes(states[n].sendBuffer + states[n].bufChan)
    ensures AllWrote(requests, outcomes) ==>
              forall i, c :: 0 <= i < n && SyncCall(states, steps, i, n, c) ==>
                old(l.Ledger()) + Bytes(states[i].accepted) <= l.Ledger()
  {
    ghost var s := states[n];
    ghost var before := l.Ledger();
    outcomes, landed := Run(l, requests);
    PartsAreWhole(requests, outcomes, landed);
    BytesOfBatches(requests, s.batches);
    SameBehind(before, Concat(landed), Bytes(Written(s)));
    InvAlways(states, steps, n);
    Assoc(Written(s), s.sendBuffer, s.bufChan);
    BytesAppend(Written(s), s.sendBuffer + s.bufChan);
    forall i, c | 0 <= i < n && SyncCall(states, steps, i, n, c)
      ensures before + Bytes(states[i].accepted) <= before + Bytes(Written(s))
    {
      SyncFlushesBytes(states, steps, i, n, c);
      PrefixBehind(before, Bytes(states[i].accepted), Bytes(Written(s)));
    }
  }

  /** Without faults every write succeeds, so the files hold all bytes handed over. */
  method WriteBatchesCleanly(l: Logger, requests: seq<Request>, ghost states: seq<State>, ghost steps: seq<Step>,
                             ghost n: nat)
    requires l.Valid() && IsRun(states, steps) && n < |states| && Carries(requests, states[n].batches)
    requires forall i :: 0 <= i < |requests| ==> requests[i].faults == NO_FAULTS
    modifies l`fileOpen, l`generation, l`files, l`archives, l`fileCreateTime
    ensures l.Valid() && l.Ledger() == old(l.Ledger()) + Bytes(Written(states[n]))
    ensures forall i, c :: 0 <= i < n && SyncCall(states, steps, i, n, c) ==>
              old(l.Ledger()) + Bytes(states[i].accepted) <= l.Ledger()
  {
    ghost var landed;
    var outcomes;
    outcomes, landed := WriteBatches(l, requests, states, steps, n);
    assert forall i :: 0 <= i < |requests| ==> Settled(requests[i], outcomes[i], landed[i]);
  }

  // ---------------------------------------------------------------- a lost write

  /** Sync can return although bytes are missing: for every logger and every write that reaches a failing call,
      there is a run in which a buffer is accepted, its Write returns, Sync is called and returns, and the files
      hold nothing of it. */
  method SyncLosesBytes(l: Logger, q: Request) returns (ghost states: seq<State>, ghost steps: seq<Step>, r: Outcome)
    requires l.Valid() && 0 < |q.buf| <= BATCH && !l.Ready(q.now, q.faults)
    modifies l`fileOpen, l`generation, l`files, l`archives, l`fileCreateTime
    ensures IsRun(states, steps) && SyncCall(states, steps, 2, 7, 0) && Carries([q], states[7].batches)
    ensures Bytes(states[2].returned) == q.buf && r.Failed? && l.Ledger() == old(l.Ledger())
    ensures !(old(l.Ledger()) + Bytes(states[2].accepted) <= l.Ledger())
  {
    states := SyncRun(q.buf);
    steps := SyncSteps(q.buf);
    BytesSnoc([], Msg(0, 0, q.buf));
    ghost var landed;
    r, landed := l.WriteSync(q.buf, q.now, q.created, q.faults, LogFiles.Limit(0, 0));
    assert l.Ledger() + [] == l.Ledger();
  }
}
