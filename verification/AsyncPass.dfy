/** Progress of the asynchronous logger: one pass of the writer over the buffers queued at its start, with any
    steps of producers and Sync callers in between. */
module AsyncPass {
  import opened GoBase
  import opened AsyncLog

  /** From the Start at step i to the first state j in which the writer has left the draining loop. */
  ghost predicate Pass(states: seq<State>, steps: seq<Step>, i: nat, j: nat) {
    && |states| == |steps| + 1 && i < j < |states| && steps[i] == Start
    && (forall k :: i < k < j ==> states[k].writer.Draining?) && !states[j].writer.Draining?
  }

  /** Gathering several buffers one after another. */
  function GatherAll(s: State, ms: seq<Msg>): (t: State) {
    if ms == [] then s else Gather(GatherAll(s, ms[..|ms| - 1]), ms[|ms| - 1])
  }

  function FlushRest(s: State): (t: State) { if Size(s.sendBuffer) > 0 then Flushed(s) else s }

  /** What a pass from s makes of the send buffer and the batches: it is about the buffers queued at its start. */
  function Passed(s: State): (t: State) {
    if s.bufChan == [] then s else FlushRest(GatherAll(s, s.bufChan))
  }

  predicate SameParts(s: State, t: State) { s.batches == t.batches && s.sendBuffer == t.sendBuffer }

  /** The buffers received by steps i to j, in order. */
  ghost function Receipts(states: seq<State>, steps: seq<Step>, i: nat, j: nat): (ms: seq<Msg>)
    requires i <= j <= |steps| < |states|
  {
    if i == j then []
    else
      var received := steps[j - 1] == Receive && states[j - 1].bufChan != [];
      Receipts(states, steps, i, j - 1) + if received then [states[j - 1].bufChan[0]] else []
  }

  predicate WriterStep(step: Step) { step.Start? || step.Receive? || step.Flush? }

  /** The number of the writer's own steps among steps i to j. */
  ghost function WriterSteps(steps: seq<Step>, i: nat, j: nat): (n: nat)
    requires i <= j <= |steps|
  {
    if i == j then 0 else WriterSteps(steps, i, j - 1) + if WriterStep(steps[j - 1]) then 1 else 0
  }

  /** The number of buffers in the log that have left the channel. */
  function Taken(s: State): (n: nat) { |Written(s)| + |s.sendBuffer| }

  /** t is in the middle of a pass from s that has received the buffers `got` and has yet to receive `rest`. */
  ghost predicate InPass(s: State, t: State, got: seq<Msg>, rest: seq<Msg>) {
    && got + rest == s.bufChan && t.writer.Draining? && t.writer.left == |rest| && rest <= t.bufChan
    && SameParts(t, GatherAll(s, got))
    && Taken(t) + |rest| == |s.accepted| && s.accepted <= t.accepted
  }

  lemma GatherAllSnoc(s: State, ms: seq<Msg>, m: Msg)
    ensures GatherAll(s, ms + [m]) == Gather(GatherAll(s, ms), m)
  {
    assert (ms + [m])[..|ms|] == ms;
  }

  lemma GatherSame(s: State, t: State, m: Msg)
    requires SameParts(s, t)
    ensures SameParts(Gather(s, m), Gather(t, m)) && SameParts(FlushRest(s), FlushRest(t))
  {
  }

  lemma GatherTakes(s: State, m: Msg)
    ensures Taken(Gather(s, m)) == Taken(s) + 1 && Taken(FlushRest(s)) == Taken(s)
  {
    ConcatSnoc(s.batches, s.sendBuffer);
  }

  lemma HeadOf(rest: seq<Msg>, queue: seq<Msg>)
    requires rest != [] && rest <= queue
    ensures queue[0] == rest[0] && rest[1..] <= queue[1..] && rest == [rest[0]] + rest[1..]
  {
  }

  /** What a receive does. */
  lemma ReceiveIs(t: State)
    requires Enabled(t, Receive)
    ensures var u := Apply(t, Receive);
            && u.writer.Draining? && u.writer.left == t.writer.left - 1 && u.bufChan == t.bufChan[1..]
            && SameParts(u, Gather(t, t.bufChan[0])) && u.accepted == t.accepted
  {
  }

  /** A receive in a pass takes the next buffer that was queued at its start. */
  lemma PassReceives(s: State, t: State, got: seq<Msg>, rest: seq<Msg>)
    requires InPass(s, t, got, rest) && Enabled(t, Receive)
    ensures rest != [] && t.bufChan[0] == rest[0] && InPass(s, Apply(t, Receive), got + [rest[0]], rest[1..])
  {
    var m := rest[0];
    HeadOf(rest, t.bufChan);
    ReceiveIs(t);
    GatherSame(t, GatherAll(s, got), m);
    GatherAllSnoc(s, got, m);
    GatherTakes(t, m);
    Assoc(got, [m], rest[1..]);
  }

  /** The steps of others only add behind what the pass is about. */
  lemma PassOthers(s: State, t: State, got: seq<Msg>, rest: seq<Msg>, step: Step)
    requires InPass(s, t, got, rest) && Enabled(t, step) && step != Receive && step != Flush
    ensures InPass(s, Apply(t, step), got, rest) && !WriterStep(step)
  {
  }

  lemma PassBegins(s: State)
    requires Conserved(s) && Enabled(s, Start) && Apply(s, Start).writer.Draining?
    ensures InPass(s, Apply(s, Start), [], s.bufChan)
  {
    assert [] + s.bufChan == s.bufChan;
  }

  lemma PassEnds(s: State, t: State, got: seq<Msg>, rest: seq<Msg>, step: Step)
    requires InPass(s, t, got, rest) && s.bufChan != [] && Enabled(t, step) && !Apply(t, step).writer.Draining?
    ensures step == Flush && got == s.bufChan
    ensures var u := Apply(t, step); SameParts(u, Passed(s)) && Taken(u) == |s.accepted| && s.accepted <= u.accepted
  {
    FlushIs(t, step);
    assert got + [] == got;
    var m := s.bufChan[0];
    GatherSame(t, GatherAll(s, got), m);
    GatherTakes(t, m);
  }

  /** Only a flush ends the draining loop. */
  lemma FlushIs(t: State, step: Step)
    requires t.writer.Draining? && Enabled(t, step) && !Apply(t, step).writer.Draining?
    ensures step == Flush && t.writer.left == 0
    ensures SameParts(Apply(t, step), FlushRest(t)) && Apply(t, step).accepted == t.accepted
  {
  }

  lemma {:induction false} PassState(states: seq<State>, steps: seq<Step>, i: nat, j: nat, k: nat)
    returns (got: seq<Msg>, rest: seq<Msg>)
    requires IsRun(states, steps) && Pass(states, steps, i, j) && i < k < j
    ensures InPass(states[i], states[k], got, rest) && WriterSteps(steps, i, k) == |got| + 1
    ensures Receipts(states, steps, i, k) == got
  {
    assert StepAt(states, steps, k - 1);
    if k == i + 1 {
      got, rest := [], states[i].bufChan;
      InvAlways(states, steps, i);
      PassBegins(states[i]);
      assert WriterSteps(steps, i, i) == 0 && Receipts(states, steps, i, i) == [];
    } else {
      got, rest := PassState(states, steps, i, j, k - 1);
      if steps[k - 1] == Receive {
        PassReceives(states[i], states[k - 1], got, rest);
        got, rest := got + [rest[0]], rest[1..];
      } else {
        StaysDraining(states[k - 1], steps[k - 1]);
        PassOthers(states[i], states[k - 1], got, rest, steps[k - 1]);
        assert got + [] == got;
      }
    }
  }

  lemma StaysDraining(t: State, step: Step)
    requires Enabled(t, step) && t.writer.Draining? && Apply(t, step).writer.Draining?
    ensures step != Flush
  {
  }

  /** A pass, however it is interleaved, receives exactly the buffers queued at its start and batches them as
      without interference, in as many steps of the writer as there are buffers, and at most two more. */
  lemma PassResult(states: seq<State>, steps: seq<Step>, i: nat, j: nat)
    requires IsRun(states, steps) && Pass(states, steps, i, j)
    ensures Receipts(states, steps, i, j) == states[i].bufChan && SameParts(states[j], Passed(states[i]))
    ensures WriterSteps(steps, i, j) <= |states[i].bufChan| + 2
    ensures Taken(states[j]) == |states[i].accepted| && states[i].accepted <= states[j].accepted
  {
    assert StepAt(states, steps, j - 1) && StepAt(states, steps, i);
    InvAlways(states, steps, i);
    if j == i + 1 {
      EmptyPass(states[i]);
      assert WriterSteps(steps, i, i) == 0 && Receipts(states, steps, i, i) == [];
    } else {
      var got, rest := PassState(states, steps, i, j, j - 1);
      FullPass(states[i], states[i + 1]);
      PassEnds(states[i], states[j - 1], got, rest, steps[j - 1]);
      assert got + [] == got;
    }
  }

  lemma EmptyPass(s: State)
    requires Conserved(s) && Enabled(s, Start) && !Apply(s, Start).writer.Draining?
    ensures s.bufChan == [] && SameParts(Apply(s, Start), Passed(s))
    ensures Taken(Apply(s, Start)) == |s.accepted| && s.accepted <= Apply(s, Start).accepted
  {
  }

  lemma FullPass(s: State, t: State)
    requires Enabled(s, Start) && t == Apply(s, Start) && t.writer.Draining?
    ensures s.bufChan != []
  {
  }

  /** Buffers in the log that have left the channel, and are not empty, are written once nothing is gathered. */
  lemma TakenIsWritten(s: State, n: nat)
    requires Conserved(s) && !s.writer.Draining? && n < Taken(s) && n < |s.accepted| && s.accepted[n].data != []
    ensures s.accepted[n] in Written(s)
  {
    var m := s.accepted[n];
    assert m == (Written(s) + s.sendBuffer)[n];
    if n < |Written(s)| {
      assert m == Written(s)[n];
    } else {
      assert m == s.sendBuffer[n - |Written(s)|];
      EmptyInSizeZero(s.sendBuffer, m);
    }
  }

  /** Progress: when a pass is over, every non-empty buffer accepted before it has been handed to writeSync. */
  lemma PassWrites(states: seq<State>, steps: seq<Step>, i: nat, j: nat, m: Msg)
    requires IsRun(states, steps) && Pass(states, steps, i, j) && m in states[i].accepted && m.data != []
    ensures m in Written(states[j])
  {
    PassResult(states, steps, i, j);
    InvAlways(states, steps, j);
    var n :| 0 <= n < |states[i].accepted| && states[i].accepted[n] == m;
    TakenIsWritten(states[j], n);
  }

  // ---------------------------------------------------------------- batches are as large as they may be

  /** Batch k is followed, in a later batch or the send buffer, by a buffer that did not fit into it; or it is the
      last, and not empty. */
  ghost predicate GreedyAt(t: State, k: nat)
    requires k < |t.batches|
  {
    var next := if k + 1 < |t.batches| then t.batches[k + 1] else t.sendBuffer;
    if next == [] then k + 1 == |t.batches| && Size(t.batches[k]) > 0 else Size(t.batches[k]) + |next[0].data| > BATCH
  }

  ghost predicate Greedy(t: State, first: nat) {
    forall k :: first <= k < |t.batches| ==> GreedyAt(t, k)
  }

  lemma GatherGreedy(t: State, first: nat, m: Msg)
    requires Greedy(t, first) && first <= |t.batches| && (first < |t.batches| ==> t.sendBuffer != [])
    ensures Greedy(Gather(t, m), first) && first <= |Gather(t, m).batches| && Gather(t, m).sendBuffer != []
  {
    var u := Gather(t, m);
    forall k | first <= k < |u.batches| ensures GreedyAt(u, k) {
      assert k < |t.batches| ==> GreedyAt(t, k) && u.batches[k] == t.batches[k];
    }
  }

  lemma {:induction false} GatherAllGreedy(s: State, ms: seq<Msg>)
    ensures var t := GatherAll(s, ms);
            Greedy(t, |s.batches|) && |s.batches| <= |t.batches| && (|s.batches| < |t.batches| ==> t.sendBuffer != [])
  {
    if ms != [] {
      GatherAllGreedy(s, ms[..|ms| - 1]);
      GatherGreedy(GatherAll(s, ms[..|ms| - 1]), |s.batches|, ms[|ms| - 1]);
    }
  }

  lemma FlushGreedy(t: State, first: nat)
    requires Greedy(t, first) && (first < |t.batches| ==> t.sendBuffer != [])
    ensures Greedy(FlushRest(t), first)
  {
    var u := FlushRest(t);
    forall k | first <= k < |u.batches| ensures GreedyAt(u, k) {
      assert k < |t.batches| ==> GreedyAt(t, k) && u.batches[k] == t.batches[k];
      if Size(t.sendBuffer) > 0 && k + 1 == |t.batches| {
        assert u.batches[k + 1] == t.sendBuffer;
      }
    }
  }

  /** The writes of a pass are as few as the limit allows: each is followed by a buffer that did not fit into it,
      and the last is not empty. */
  lemma PassGreedy(states: seq<State>, steps: seq<Step>, i: nat, j: nat)
    requires IsRun(states, steps) && Pass(states, steps, i, j)
    ensures Greedy(states[j], |states[i].batches|)
  {
    var s := states[i];
    PassResult(states, steps, i, j);
    GatherAllGreedy(s, s.bufChan);
    FlushGreedy(GatherAll(s, s.bufChan), |s.batches|);
    var t, u := Passed(s), states[j];
    forall k | |s.batches| <= k < |u.batches| ensures GreedyAt(u, k) {
      assert GreedyAt(t, k);
    }
  }
}
