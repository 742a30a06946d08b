/** Two runs of the asynchronous logger, step by step: a Sync call, and a Write that meets a full channel. */
module AsyncRuns {
  import opened GoBase
  import opened AsyncLog

  /** One buffer is written, its Write returns, and then Sync is called and returns. */
  function SyncSteps(data: Text): (steps: seq<Step>) {
    [Write(0, data), Return(0), SyncBegin(0), SyncAsk(0), Start, Receive, Flush, Signal]
  }

  function Beginning(p: ProducerState, issued: seq<Msg>): (s: State) {
    State(1, issued, [], [], Selecting, map[0 := Producer(p, issued)], map[0 := Idle], issued, [])
  }

  function Returned(m: Msg, syncer: Syncer, w: Writer): (s: State) {
    State(1, [m], [], [], w, map[0 := Producer(Ready, [m])], map[0 := syncer], [m], [m])
  }

  function Received(m: Msg, gathered: seq<Msg>, batches: seq<seq<Msg>>, syncer: Syncer, w: Writer): (s: State) {
    State(1, [], gathered, batches, w, map[0 := Producer(Ready, [m])], map[0 := syncer], [m], [m])
  }

  ghost predicate Leads(s: State, step: Step, t: State) { Enabled(s, step) && Apply(s, step) == t }

  ghost predicate Along(states: seq<State>, steps: seq<Step>, i: nat) {
    i < |steps| && i + 1 < |states| && Leads(states[i], steps[i], states[i + 1])
  }

  lemma AlongIsRun(states: seq<State>, steps: seq<Step>)
    requires |states| == |steps| + 1 && Init(states[0]) && forall i :: 0 <= i < |steps| ==> Along(states, steps, i)
    ensures IsRun(states, steps)
  {
    forall i | 0 <= i < |steps| ensures StepAt(states, steps, i) {
      assert Along(states, steps, i);
    }
  }

  lemma WriteSteps(m: Msg)
    requires m.producer == 0 && m.number == 0
    ensures Leads(Beginning(Ready, []), Write(0, m.data), Beginning(Sent(m), [m]))
    ensures Leads(Beginning(Sent(m), [m]), Return(0), Returned(m, Idle, Selecting))
  {
    var s := Beginning(Ready, []);
    assert Msg(0, |s.producers[0].issued|, m.data) == m;
    assert Deliver(Issue(s, 0, m), 0, m) == Beginning(Sent(m), [m]);
  }

  lemma AskSteps(m: Msg)
    ensures Leads(Returned(m, Idle, Selecting), SyncBegin(0), Returned(m, Asking(1), Selecting))
    ensures Leads(Returned(m, Asking(1), Selecting), SyncAsk(0), Returned(m, Waiting(1), Starting(Some(0))))
    ensures Leads(Returned(m, Waiting(1), Starting(Some(0))), Start, Returned(m, Waiting(1), Draining(1, Some(0))))
  {
  }

  lemma ReceiveStep(m: Msg)
    requires 0 < |m.data| <= BATCH
    ensures Leads(Returned(m, Waiting(1), Draining(1, Some(0))), Receive,
                  Received(m, [m], [], Waiting(1), Draining(0, Some(0))))
  {
    assert [] + [m] == [m];
  }

  lemma FlushStep(m: Msg)
    requires 0 < |m.data| <= BATCH
    ensures Leads(Received(m, [m], [], Waiting(1), Draining(0, Some(0))), Flush,
                  Received(m, [], [[m]], Waiting(1), Signalling(0)))
  {
    SizeSnoc([], m);
    assert [] + [m] == [m];
  }

  lemma SignalStep(m: Msg)
    ensures Leads(Received(m, [], [[m]], Waiting(1), Signalling(0)), Signal, Received(m, [], [[m]], Idle, Selecting))
  {
  }

  function SyncStates(m: Msg): (states: seq<State>) {
    [Beginning(Ready, []), Beginning(Sent(m), [m]), Returned(m, Idle, Selecting),
     Returned(m, Asking(1), Selecting), Returned(m, Waiting(1), Starting(Some(0))),
     Returned(m, Waiting(1), Draining(1, Some(0))), Received(m, [m], [], Waiting(1), Draining(0, Some(0))),
     Received(m, [], [[m]], Waiting(1), Signalling(0)), Received(m, [], [[m]], Idle, Selecting)]
  }

  lemma SyncAlong(m: Msg, i: nat)
    requires m.producer == 0 && m.number == 0 && 0 < |m.data| <= BATCH && i < 8
    ensures Along(SyncStates(m), SyncSteps(m.data), i)
  {
    if i < 2 {
      WriteSteps(m);
    } else if i < 5 {
      AskSteps(m);
    } else {
      ReceiveStep(m);
      FlushStep(m);
      SignalStep(m);
    }
  }

  lemma SyncIsCall(states: seq<State>, data: Text)
    requires IsRun(states, SyncSteps(data)) && states[7].writer == Signalling(0)
    ensures SyncCall(states, SyncSteps(data), 2, 7, 0)
  {
  }

  lemma SyncRun(data: Text) returns (states: seq<State>)
    requires 0 < |data| <= BATCH
    ensures IsRun(states, SyncSteps(data)) && SyncCall(states, SyncSteps(data), 2, 7, 0)
    ensures states[2].accepted == states[2].returned == [Msg(0, 0, data)] && states[7].batches == [[Msg(0, 0, data)]]
  {
    var m := Msg(0, 0, data);
    states := SyncStates(m);
    forall i | 0 <= i < 8 ensures Along(states, SyncSteps(data), i) {
      SyncAlong(m, i);
    }
    AlongIsRun(states, SyncSteps(data));
    SyncIsCall(states, data);
  }

  // ---------------------------------------------------------------- a full channel

  /** Two producers and a channel for one buffer. */
  function Two(chan: seq<Msg>, gathered: seq<Msg>, batches: seq<seq<Msg>>, w: Writer, p: Producer, q: Producer,
               accepted: seq<Msg>, returned: seq<Msg>): (s: State)
  {
    State(1, chan, gathered, batches, w, map[0 := p, 1 := q], map[], accepted, returned)
  }

  /** Producer 0 fills the channel; producer 1 finds it full, wakes the writer and delivers again. */
  function FullSteps(x: Text, y: Text): (steps: seq<Step>) {
    [Write(0, x), Return(0), Write(1, y), Notify(1), Start, Receive, Redeliver(1), Flush, Return(1), Tick, Start,
     Receive, Flush]
  }

  function FullStates(m: Msg, n: Msg): (states: seq<State>) {
    var none, p, q := Producer(Ready, []), Producer(Ready, [m]), Producer(Ready, [n]);
    [Two([], [], [], Selecting, none, none, [], []),
     Two([m], [], [], Selecting, Producer(Sent(m), [m]), none, [m], []),
     Two([m], [], [], Selecting, p, none, [m], [m]),
     Two([m], [], [], Selecting, p, Producer(Notifying(n), [n]), [m], [m]),
     Two([m], [], [], Starting(None), p, Producer(Redelivering(n), [n]), [m], [m]),
     Two([m], [], [], Draining(1, None), p, Producer(Redelivering(n), [n]), [m], [m]),
     Two([], [m], [], Draining(0, None), p, Producer(Redelivering(n), [n]), [m], [m]),
     Two([n], [m], [], Draining(0, None), p, Producer(Sent(n), [n]), [m, n], [m]),
     Two([n], [], [[m]], Selecting, p, Producer(Sent(n), [n]), [m, n], [m]),
     Two([n], [], [[m]], Selecting, p, q, [m, n], [m, n]),
     Two([n], [], [[m]], Starting(None), p, q, [m, n], [m, n]),
     Two([n], [], [[m]], Draining(1, None), p, q, [m, n], [m, n]),
     Two([], [n], [[m]], Draining(0, None), p, q, [m, n], [m, n]),
     Two([], [], [[m], [n]], Selecting, p, q, [m, n], [m, n])]
  }

  ghost predicate First(m: Msg, p: nat) { m.producer == p && m.number == 0 && 0 < |m.data| <= BATCH }

  /** Steps 0 and 1. */
  lemma FullFills(m: Msg, n: Msg, i: nat)
    requires First(m, 0) && First(n, 1) && i < 2
    ensures Along(FullStates(m, n), FullSteps(m.data, n.data), i)
  {
    assert [] + [m] == [m];
  }

  /** Steps 2 and 3. */
  lemma FullWaits(m: Msg, n: Msg, i: nat)
    requires First(m, 0) && First(n, 1) && 2 <= i < 4
    ensures Along(FullStates(m, n), FullSteps(m.data, n.data), i)
  {
    assert [] + [n] == [n];
  }

  /** Steps 4 to 6. */
  lemma FullDrains(m: Msg, n: Msg, i: nat)
    requires First(m, 0) && First(n, 1) && 4 <= i < 7
    ensures Along(FullStates(m, n), FullSteps(m.data, n.data), i)
  {
    assert [] + [m] == [m] && [] + [n] == [n];
  }

  /** Step 7. */
  lemma FullFlushes(m: Msg, n: Msg)
    requires First(m, 0) && First(n, 1)
    ensures Along(FullStates(m, n), FullSteps(m.data, n.data), 7)
  {
    SizeSnoc([], m);
    assert [] + [m] == [m];
  }

  /** Steps 8 and 9. */
  lemma FullReturns(m: Msg, n: Msg, i: nat)
    requires First(m, 0) && First(n, 1) && 8 <= i < 10
    ensures Along(FullStates(m, n), FullSteps(m.data, n.data), i)
  {
  }

  /** Steps 10 to 12. */
  lemma FullEnds(m: Msg, n: Msg, i: nat)
    requires First(m, 0) && First(n, 1) && 10 <= i < 13
    ensures Along(FullStates(m, n), FullSteps(m.data, n.data), i)
  {
    SizeSnoc([], n);
    assert [] + [n] == [n];
  }

  /** A Write that meets a full channel is not lost: both buffers reach writeSync. */
  lemma FullRun(x: Text, y: Text) returns (states: seq<State>)
    requires 0 < |x| <= BATCH && 0 < |y| <= BATCH
    ensures IsRun(states, FullSteps(x, y)) && |states[2].bufChan| == states[2].capacity
    ensures Written(states[13]) == [Msg(0, 0, x), Msg(1, 0, y)]
  {
    var m, n := Msg(0, 0, x), Msg(1, 0, y);
    states := FullStates(m, n);
    forall i | 0 <= i < 13 ensures Along(states, FullSteps(x, y), i) {
      if i < 2 {
        FullFills(m, n, i);
      } else if i < 4 {
        FullWaits(m, n, i);
      } else if i < 7 {
        FullDrains(m, n, i);
      } else if i == 7 {
        FullFlushes(m, n);
      } else if i < 10 {
        FullReturns(m, n, i);
      } else {
        FullEnds(m, n, i);
      }
    }
    AlongIsRun(states, FullSteps(x, y));
    ConcatTwo([m], [n]);
  }

  lemma ConcatTwo(a: seq<Msg>, b: seq<Msg>)
    ensures Concat([a, b]) == a + b
  {
    assert [a, b] == [a] + [b];
    ConcatSnoc([a], b);
    ConcatSnoc([], a);
    assert [] + [a] == [a] && [] + a == a;
  }
}
