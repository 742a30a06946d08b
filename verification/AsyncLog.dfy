/** The asynchronous half of plugin/log/bingologger as a transition system: producers in writeAsync, callers
    of Sync, and the writer loop, over a bounded buffer channel and an unbuffered notification channel. The
    writer loop runs as its own process. */
module AsyncLog {
  import opened GoBase

  /** The most bytes gathered into one write. */
  const BATCH: nat := 10485760

  /** A buffer handed to Write: who wrote it, as its how-manieth, and its bytes. */
  datatype Msg = Msg(producer: nat, number: nat, data: Text)

  datatype ProducerState =
    | Ready
    | Notifying(msg: Msg)       // the channel was full: blocked on ntfChan <- nil
    | Redelivering(msg: Msg)    // blocked on bufChan <- newBuf
    | Sent(msg: Msg)            // delivered, Write not yet returned

  /** issued: the buffers of all Write calls so far. */
  datatype Producer = Producer(st: ProducerState, issued: seq<Msg>)

  /** mark: the number of buffers in the log when the Sync call began. */
  datatype Syncer =
    | Idle
    | Asking(mark: nat)         // blocked on ntfChan <- doneChan
    | Waiting(mark: nat)        // blocked on <-doneChan

  datatype Writer =
    | Selecting
    | Starting(done: Option<nat>)
    | Draining(left: nat, done: Option<nat>)
    | Signalling(syncer: nat)   // blocked on doneChan <- struct{}{}

  datatype State = State(
    capacity: nat,
    bufChan: seq<Msg>,
    sendBuffer: seq<Msg>,
    batches: seq<seq<Msg>>,     // the arguments of writeSync, in order
    writer: Writer,
    producers: map<nat, Producer>,
    syncers: map<nat, Syncer>,
    accepted: seq<Msg>,         // every buffer that entered bufChan, in order
    returned: seq<Msg>)         // every buffer whose Write returned

  datatype Step =
    | Write(p: nat, data: Text)
    | Notify(p: nat)
    | Redeliver(p: nat)
    | Return(p: nat)
    | SyncBegin(s: nat)
    | SyncAsk(s: nat)
    | Tick
    | Start
    | Receive
    | Flush
    | Signal

  function Size(b: seq<Msg>): (n: nat) {
    if b == [] then 0 else Size(b[..|b| - 1]) + |b[|b| - 1].data|
  }

  // ---------------------------------------------------------------- steps

  predicate Enabled(s: State, step: Step) {
    match step
    case Write(p, _) => p in s.producers && s.producers[p].st.Ready?
    case Notify(p) => p in s.producers && s.producers[p].st.Notifying? && s.writer.Selecting?
    case Redeliver(p) => p in s.producers && s.producers[p].st.Redelivering? && |s.bufChan| < s.capacity
    case Return(p) => p in s.producers && s.producers[p].st.Sent?
    case SyncBegin(c) => c in s.syncers && s.syncers[c].Idle?
    case SyncAsk(c) => c in s.syncers && s.syncers[c].Asking? && s.writer.Selecting?
    case Tick => s.writer.Selecting?
    case Start => s.writer.Starting?
    case Receive => s.writer.Draining? && s.writer.left > 0 && s.bufChan != []
    case Flush => s.writer.Draining? && s.writer.left == 0
    case Signal => s.writer.Signalling? && s.writer.syncer in s.syncers && s.syncers[s.writer.syncer].Waiting?
  }

  /** What the writer does when writeAllFunc is over. */
  function Finished(done: Option<nat>): (w: Writer) {
    match done case None => Selecting case Some(c) => Signalling(c)
  }

  function Deliver(s: State, p: nat, msg: Msg): (t: State)
    requires p in s.producers
  {
    s.(bufChan := s.bufChan + [msg],
       accepted := s.accepted + [msg],
       producers := s.producers[p := s.producers[p].(st := Sent(msg))])
  }

  function Become(s: State, p: nat, st: ProducerState): (t: State)
    requires p in s.producers
  {
    s.(producers := s.producers[p := s.producers[p].(st := st)])
  }

  function Issue(s: State, p: nat, msg: Msg): (t: State)
    requires p in s.producers
  {
    s.(producers := s.producers[p := s.producers[p].(issued := s.producers[p].issued + [msg])])
  }

  function Flushed(s: State): (t: State) {
    s.(batches := s.batches + [s.sendBuffer], sendBuffer := [])
  }

  function Gather(s: State, msg: Msg): (t: State) {
    var flushed := if Size(s.sendBuffer) + |msg.data| > BATCH then Flushed(s) else s;
    flushed.(sendBuffer := flushed.sendBuffer + [msg])
  }

  function Apply(s: State, step: Step): (t: State)
    requires Enabled(s, step)
  {
    match step
    case Write(p, data) =>
      var msg := Msg(p, |s.producers[p].issued|, data);
      if |s.bufChan| < s.capacity then Deliver(Issue(s, p, msg), p, msg)
      else Become(Issue(s, p, msg), p, Notifying(msg))
    case Notify(p) => Become(s, p, Redelivering(s.producers[p].st.msg)).(writer := Starting(None))
    case Redeliver(p) => Deliver(s, p, s.producers[p].st.msg)
    case Return(p) => Become(s, p, Ready).(returned := s.returned + [s.producers[p].st.msg])
    case SyncBegin(c) => s.(syncers := s.syncers[c := Asking(|s.accepted|)])
    case SyncAsk(c) => s.(syncers := s.syncers[c := Waiting(s.syncers[c].mark)], writer := Starting(Some(c)))
    case Tick => s.(writer := Starting(None))
    case Start =>
      if |s.bufChan| > 0 then s.(writer := Draining(|s.bufChan|, s.writer.done))
      else s.(writer := Finished(s.writer.done))
    case Receive =>
      Gather(s, s.bufChan[0]).(bufChan := s.bufChan[1..], writer := Draining(s.writer.left - 1, s.writer.done))
    case Flush =>
      (if Size(s.sendBuffer) > 0 then Flushed(s) else s).(writer := Finished(s.writer.done))
    case Signal => s.(syncers := s.syncers[s.writer.syncer := Idle], writer := Selecting)
  }

  ghost predicate Init(s: State) {
    && s.bufChan == [] && s.sendBuffer == [] && s.batches == [] && s.accepted == [] && s.returned == []
    && s.writer == Selecting
    && (forall p :: p in s.producers ==> s.producers[p] == Producer(Ready, []))
    && (forall c :: c in s.syncers ==> s.syncers[c] == Idle)
  }

  // ---------------------------------------------------------------- conservation and batching

  function Written(s: State): (ms: seq<Msg>) { Concat(s.batches) }

  ghost predicate Fits(b: seq<Msg>) { Size(b) <= BATCH || |b| == 1 }

  /** Nothing is lost, doubled or reordered between the channel and the file; batches respect the limit; the
      writer never waits for more buffers than there are. */
  ghost predicate Conserved(s: State) {
    && Written(s) + s.sendBuffer + s.bufChan == s.accepted
    && |s.bufChan| <= s.capacity
    && (s.writer.Draining? ==> s.writer.left <= |s.bufChan|)
    && (!s.writer.Draining? ==> Size(s.sendBuffer) == 0)
    && Fits(s.sendBuffer)
    && forall i :: 0 <= i < |s.batches| ==> Fits(s.batches[i])
  }

  lemma SizeSnoc(b: seq<Msg>, m: Msg)
    ensures Size(b + [m]) == Size(b) + |m.data|
  {
    assert (b + [m])[..|b|] == b;
  }

  lemma FlushedConserves(s: State)
    requires Conserved(s)
    ensures Written(Flushed(s)) == Written(s) + s.sendBuffer
    ensures forall i :: 0 <= i < |Flushed(s).batches| ==> Fits(Flushed(s).batches[i])
  {
    ConcatSnoc(s.batches, s.sendBuffer);
  }

  /** Gathering a buffer puts it behind everything written or gathered before, within the limit. */
  lemma GatherConserves(s: State, m: Msg)
    requires Conserved(s)
    ensures var t := Gather(s, m);
            && Written(t) + t.sendBuffer == Written(s) + s.sendBuffer + [m]
            && Fits(t.sendBuffer)
            && forall i :: 0 <= i < |t.batches| ==> Fits(t.batches[i])
  {
    if Size(s.sendBuffer) + |m.data| > BATCH {
      FlushedConserves(s);
      assert [] + [m] == [m];
    } else {
      SizeSnoc(s.sendBuffer, m);
      assert Written(s) + (s.sendBuffer + [m]) == Written(s) + s.sendBuffer + [m];
    }
  }

  lemma ReceiveConserves(s: State)
    requires Conserved(s) && Enabled(s, Receive)
    ensures Conserved(Apply(s, Receive))
  {
    var m, rest := s.bufChan[0], s.bufChan[1..];
    GatherConserves(s, m);
    var front := Written(s) + s.sendBuffer;
    assert s.bufChan == [m] + rest;
    assert front + [m] + rest == front + ([m] + rest);
  }

  lemma ConservedStep(s: State, step: Step)
    requires Conserved(s) && Enabled(s, step)
    ensures Conserved(Apply(s, step))
  {
    match step
    case Receive => ReceiveConserves(s);
    case Flush =>
      FlushedConserves(s);
      assert Written(s) + s.sendBuffer + [] == Written(s) + s.sendBuffer;
    case Write(p, data) =>
      var m := Msg(p, |s.producers[p].issued|, data);
      assert Written(s) + s.sendBuffer + (s.bufChan + [m]) == s.accepted + [m];
    case Redeliver(p) =>
      var m := s.producers[p].st.msg;
      assert Written(s) + s.sendBuffer + (s.bufChan + [m]) == s.accepted + [m];
    case _ =>
  }

  /** The writer is never stuck: in every state that conserves buffers, and whose Sync caller is waiting when
      the writer signals, one of its own steps is enabled; in particular its receives do not block. */
  lemma WriterNeverBlocks(s: State)
    requires Conserved(s) && Served(s)
    ensures match s.writer
            case Selecting => Enabled(s, Tick)
            case Starting(_) => Enabled(s, Start)
            case Draining(left, _) => if left > 0 then Enabled(s, Receive) else Enabled(s, Flush)
            case Signalling(_) => Enabled(s, Signal)
  {
  }

  // ---------------------------------------------------------------- producer order

  /** The buffers of one producer, in order. */
  function Own(ms: seq<Msg>, p: nat): (own: seq<Msg>) {
    if ms == [] then []
    else Own(ms[..|ms| - 1], p) + (if ms[|ms| - 1].producer == p then [ms[|ms| - 1]] else [])
  }

  lemma OwnSnoc(ms: seq<Msg>, m: Msg, p: nat)
    ensures Own(ms + [m], p) == if m.producer == p then Own(ms, p) + [m] else Own(ms, p)
  {
    assert (ms + [m])[..|ms|] == ms;
  }

  function Pending(st: ProducerState): (ms: seq<Msg>) {
    match st
    case Ready => []
    case Notifying(m) => [m]
    case Redelivering(m) => [m]
    case Sent(_) => []
  }

  /** What a producer has written is what it has in the log followed by what it is still delivering. */
  ghost predicate ProducerOk(s: State, p: nat)
    requires p in s.producers
  {
    var issued := s.producers[p].issued;
    && Own(s.accepted, p) + Pending(s.producers[p].st) == issued
    && (forall i :: 0 <= i < |issued| ==> issued[i].producer == p && issued[i].number == i)
    && (s.producers[p].st.Sent? ==> s.producers[p].st.msg in s.accepted)
  }

  ghost predicate Ordered(s: State) {
    && (forall p :: p in s.producers ==> ProducerOk(s, p))
    && (forall i :: 0 <= i < |s.accepted| ==> s.accepted[i].producer in s.producers)
    && (forall m :: m in s.returned ==> m in s.accepted)
  }

  /** Delivering a buffer of p keeps every producer's order. */
  lemma DeliverOk(s: State, p: nat, msg: Msg, q: nat)
    requires p in s.producers && q in s.producers && msg.producer == p
    requires q != p ==> ProducerOk(s, q)
    requires Own(s.accepted, p) + [msg] == s.producers[p].issued
    requires forall i :: 0 <= i < |s.producers[p].issued| ==>
               s.producers[p].issued[i].producer == p && s.producers[p].issued[i].number == i
    ensures ProducerOk(Deliver(s, p, msg), q)
  {
    OwnSnoc(s.accepted, msg, q);
    assert Own(s.accepted, p) + [msg] + [] == Own(s.accepted, p) + [msg];
    assert (s.accepted + [msg])[|s.accepted|] == msg;
  }

  lemma WriteOk(s: State, p: nat, data: Text, q: nat)
    requires Ordered(s) && Enabled(s, Write(p, data)) && q in s.producers
    ensures ProducerOk(Apply(s, Write(p, data)), q)
  {
    var msg := Msg(p, |s.producers[p].issued|, data);
    assert ProducerOk(s, p) && ProducerOk(s, q);
    assert Own(s.accepted, p) + [] == Own(s.accepted, p);
    if |s.bufChan| < s.capacity {
      DeliverOk(Issue(s, p, msg), p, msg, q);
    }
  }

  lemma RedeliverOk(s: State, p: nat, q: nat)
    requires Ordered(s) && Enabled(s, Redeliver(p)) && q in s.producers
    ensures ProducerOk(Apply(s, Redeliver(p)), q)
    ensures s.producers[p].st.msg.producer == p
  {
    var msg := s.producers[p].st.msg;
    assert ProducerOk(s, p) && ProducerOk(s, q);
    assert s.producers[p].issued[|Own(s.accepted, p)|] == msg;
    DeliverOk(s, p, msg, q);
  }

  lemma ProducerStep(s: State, step: Step, q: nat)
    requires Ordered(s) && Enabled(s, step) && q in s.producers
    ensures ProducerOk(Apply(s, step), q)
  {
    assert ProducerOk(s, q);
    match step
    case Write(p, data) => WriteOk(s, p, data, q);
    case Redeliver(p) => RedeliverOk(s, p, q);
    case _ =>
  }

  /** What a step adds to the log comes from a producer; what it adds to the returned buffers is in the log. */
  lemma LogStep(s: State, step: Step)
    requires Ordered(s) && Enabled(s, step)
    ensures var t := Apply(s, step);
            && (forall i :: 0 <= i < |t.accepted| ==> t.accepted[i].producer in s.producers)
            && (forall m :: m in t.returned ==> m in t.accepted)
  {
    if step.Return? {
      assert ProducerOk(s, step.p);
    }
    if step.Redeliver? {
      RedeliverOk(s, step.p, step.p);
    }
  }

  lemma OrderedStep(s: State, step: Step)
    requires Ordered(s) && Enabled(s, step)
    ensures Ordered(Apply(s, step))
  {
    var t := Apply(s, step);
    KeysStep(s, step);
    LogStep(s, step);
    forall p | p in t.producers ensures ProducerOk(t, p) {
      ProducerStep(s, step, p);
    }
  }

  lemma KeysStep(s: State, step: Step)
    requires Enabled(s, step)
    ensures Apply(s, step).producers.Keys == s.producers.Keys
  {
  }

  lemma {:induction false} InOwn(ms: seq<Msg>, m: Msg)
    ensures m in ms ==> m in Own(ms, m.producer)
  {
    if ms != [] {
      var last, before := ms[|ms| - 1], ms[..|ms| - 1];
      assert ms == before + [last];
      InOwn(before, m);
    }
  }

  ghost predicate Numbered(ms: seq<Msg>, p: nat) {
    forall i :: 0 <= i < |Own(ms, p)| ==> Own(ms, p)[i].number == i
  }

  lemma {:induction false} NumberedIsDistinct(ms: seq<Msg>)
    requires forall p :: Numbered(ms, p)
    ensures forall i, j :: 0 <= i < j < |ms| ==> ms[i] != ms[j]
  {
    if ms != [] {
      var last, before := ms[|ms| - 1], ms[..|ms| - 1];
      var p := last.producer;
      assert ms == before + [last];
      forall q ensures Numbered(before, q) {
        OwnSnoc(before, last, q);
        assert Numbered(ms, q);
        assert forall i :: 0 <= i < |Own(before, q)| ==> Own(before, q)[i] == Own(ms, q)[i];
      }
      NumberedIsDistinct(before);
      OwnSnoc(before, last, p);
      assert Numbered(ms, p) && Numbered(before, p);
      assert Own(ms, p)[|Own(before, p)|] == last;
      InOwn(before, last);
      assert last !in before;
      forall i, j | 0 <= i < j < |ms| ensures ms[i] != ms[j] {
        assert ms[i] == before[i] && before[i] in before;
        assert j < |before| ==> ms[j] == before[j];
      }
    }
  }

  /** Every buffer is in the log at most once. */
  lemma ExactlyOnce(s: State)
    requires Ordered(s)
    ensures forall i, j :: 0 <= i < j < |s.accepted| ==> s.accepted[i] != s.accepted[j]
  {
    forall p ensures Numbered(s.accepted, p) {
      if p in s.producers {
        assert ProducerOk(s, p);
        assert forall i :: 0 <= i < |Own(s.accepted, p)| ==> Own(s.accepted, p)[i] == s.producers[p].issued[i];
      } else {
        OwnOfAbsent(s.accepted, p);
      }
    }
    NumberedIsDistinct(s.accepted);
  }

  lemma {:induction false} OwnOfAbsent(ms: seq<Msg>, p: nat)
    requires forall i :: 0 <= i < |ms| ==> ms[i].producer != p
    ensures Own(ms, p) == []
  {
    if ms != [] {
      OwnOfAbsent(ms[..|ms| - 1], p);
    }
  }

  // ---------------------------------------------------------------- Sync

  predicate WaitsWith(s: State, c: nat) { c in s.syncers && s.syncers[c].Waiting? }

  /** The writer works for a waiting Sync caller, and will have passed its mark when it is done. */
  ghost predicate Served(s: State) {
    match s.writer
    case Selecting => true
    case Starting(done) => done.Some? ==> WaitsWith(s, done.value)
    case Draining(left, done) =>
      done.Some? ==> WaitsWith(s, done.value) && s.syncers[done.value].mark <= |Written(s)| + |s.sendBuffer| + left
    case Signalling(c) => WaitsWith(s, c) && s.syncers[c].mark <= |Written(s)| + |s.sendBuffer|
  }

  ghost predicate Marked(s: State) {
    forall c :: c in s.syncers && !s.syncers[c].Idle? ==> s.syncers[c].mark <= |s.accepted|
  }

  lemma SyncStep(s: State, step: Step)
    requires Conserved(s) && Served(s) && Marked(s) && Enabled(s, step)
    ensures Served(Apply(s, step)) && Marked(Apply(s, step))
  {
    var t := Apply(s, step);
    assert |s.accepted| == |Written(s)| + |s.sendBuffer| + |s.bufChan|;
    if step.Receive? || step.Flush? {
      ConcatSnoc(s.batches, s.sendBuffer);
    }
  }

  lemma {:induction false} EmptyInSizeZero(b: seq<Msg>, m: Msg)
    requires Size(b) == 0 && m in b
    ensures m.data == []
  {
    var last, before := b[|b| - 1], b[..|b| - 1];
    assert b == before + [last];
    if m != last {
      EmptyInSizeZero(before, m);
    }
  }

  /** When the writer signals a Sync caller, every non-empty buffer below the caller's mark has been handed to
      writeSync. */
  lemma SignalMeansWritten(s: State, i: nat)
    requires Conserved(s) && Served(s) && s.writer.Signalling?
    requires WaitsWith(s, s.writer.syncer) && i < s.syncers[s.writer.syncer].mark && i < |s.accepted|
    ensures s.accepted[i].data != [] ==> s.accepted[i] in Written(s)
  {
    assert s.accepted[i] == (Written(s) + s.sendBuffer)[i];
    if i >= |Written(s)| {
      EmptyInSizeZero(s.sendBuffer, s.accepted[i]);
    } else {
      assert s.accepted[i] == Written(s)[i];
    }
  }

  // ---------------------------------------------------------------- every run

  ghost predicate Inv(s: State) { Conserved(s) && Ordered(s) && Served(s) && Marked(s) }

  lemma InitInv(s: State)
    requires Init(s)
    ensures Inv(s)
  {
    forall p | p in s.producers ensures ProducerOk(s, p) {
    }
  }

  lemma InvStep(s: State, step: Step)
    requires Inv(s) && Enabled(s, step)
    ensures Inv(Apply(s, step))
  {
    ConservedStep(s, step);
    OrderedStep(s, step);
    SyncStep(s, step);
  }

  ghost predicate IsRun(states: seq<State>, steps: seq<Step>) {
    && |states| == |steps| + 1 && Init(states[0])
    && forall i :: 0 <= i < |steps| ==> StepAt(states, steps, i)
  }

  ghost predicate StepAt(states: seq<State>, steps: seq<Step>, i: nat) {
    && i < |steps| && i + 1 < |states|
    && Enabled(states[i], steps[i]) && states[i + 1] == Apply(states[i], steps[i])
  }

  lemma {:induction false} InvAlways(states: seq<State>, steps: seq<Step>, n: nat)
    requires IsRun(states, steps) && n < |states|
    ensures Inv(states[n])
  {
    if n == 0 {
      InitInv(states[0]);
    } else {
      InvAlways(states, steps, n - 1);
      assert StepAt(states, steps, n - 1);
      InvStep(states[n - 1], steps[n - 1]);
    }
  }

  /** Step j ends the Sync call of caller c that step i began. */
  ghost predicate SyncCall(states: seq<State>, steps: seq<Step>, i: nat, j: nat, c: nat)
    requires IsRun(states, steps)
  {
    && i < j < |steps|
    && steps[i] == SyncBegin(c) && steps[j] == Signal && states[j].writer == Signalling(c)
    && forall k :: i < k < j ==> steps[k] != SyncBegin(c) && !(steps[k] == Signal && states[k].writer == Signalling(c))
  }

  /** Only its own begin and return change a Sync call's mark, and the log only grows. */
  lemma MarkStep(s: State, step: Step, c: nat)
    requires Enabled(s, step) && c in s.syncers && !s.syncers[c].Idle?
    requires !(step == Signal && s.writer == Signalling(c))
    ensures var t := Apply(s, step);
            c in t.syncers && !t.syncers[c].Idle? && t.syncers[c].mark == s.syncers[c].mark && s.accepted <= t.accepted
  {
  }

  lemma {:induction false} MarkKept(states: seq<State>, steps: seq<Step>, i: nat, j: nat, c: nat, k: nat)
    requires IsRun(states, steps) && SyncCall(states, steps, i, j, c) && i < k <= j
    ensures c in states[k].syncers && !states[k].syncers[c].Idle? && states[k].syncers[c].mark == |states[i].accepted|
    ensures states[i].accepted <= states[k].accepted
  {
    assert StepAt(states, steps, k - 1);
    if k > i + 1 {
      MarkKept(states, steps, i, j, c, k - 1);
      MarkStep(states[k - 1], steps[k - 1], c);
    }
  }

  lemma AcceptedFlushed(states: seq<State>, steps: seq<Step>, i: nat, j: nat, c: nat, m: Msg)
    requires IsRun(states, steps) && SyncCall(states, steps, i, j, c)
    requires m in states[i].accepted && m.data != []
    ensures m in Written(states[j])
  {
    InvAlways(states, steps, j);
    MarkKept(states, steps, i, j, c, j);
    var n :| 0 <= n < |states[i].accepted| && states[i].accepted[n] == m;
    assert states[j].accepted[n] == m;
    SignalMeansWritten(states[j], n);
  }

  /** When Sync returns, every non-empty buffer whose Write had returned before that Sync began has been handed
      to writeSync. */
  lemma SyncFlushes(states: seq<State>, steps: seq<Step>, i: nat, j: nat, c: nat, m: Msg)
    requires IsRun(states, steps) && SyncCall(states, steps, i, j, c)
    requires m in states[i].returned && m.data != []
    ensures m in Written(states[j])
  {
    InvAlways(states, steps, i);
    AcceptedFlushed(states, steps, i, j, c, m);
  }

  // ---------------------------------------------------------------- every Write call

  function DataOf(ms: seq<Msg>): (data: seq<Text>)
    ensures |data| == |ms| && forall i :: 0 <= i < |ms| ==> data[i] == ms[i].data
  {
    seq(|ms|, i requires 0 <= i < |ms| => ms[i].data)
  }

  /** The arguments of producer p's Write calls among the first n steps. */
  function WritesOf(steps: seq<Step>, n: nat, p: nat): (data: seq<Text>)
    requires n <= |steps|
  {
    if n == 0 then []
    else WritesOf(steps, n - 1, p) + if steps[n - 1].Write? && steps[n - 1].p == p then [steps[n - 1].data] else []
  }

  lemma IssuedStep(s: State, step: Step, p: nat)
    requires Enabled(s, step) && p in s.producers
    ensures var t := Apply(s, step);
            && p in t.producers
            && t.producers[p].issued
               == s.producers[p].issued
                  + if step.Write? && step.p == p then [Msg(p, |s.producers[p].issued|, step.data)] else []
  {
    assert s.producers[p].issued + [] == s.producers[p].issued;
  }

  lemma DataSnoc(ms: seq<Msg>, m: Msg)
    ensures DataOf(ms + [m]) == DataOf(ms) + [m.data]
  {
  }

  /** In every run, what counts as written by a producer is what its Write calls were given, in order. */
  lemma {:induction false} IssuedAre(states: seq<State>, steps: seq<Step>, n: nat, p: nat)
    requires IsRun(states, steps) && n < |states| && p in states[0].producers
    ensures p in states[n].producers && DataOf(states[n].producers[p].issued) == WritesOf(steps, n, p)
  {
    if n > 0 {
      var before, step := states[n - 1], steps[n - 1];
      assert StepAt(states, steps, n - 1);
      IssuedAre(states, steps, n - 1, p);
      IssuedStep(before, step, p);
      var issued := before.producers[p].issued;
      assert issued + [] == issued && WritesOf(steps, n - 1, p) + [] == WritesOf(steps, n - 1, p);
      if step.Write? && step.p == p {
        DataSnoc(issued, Msg(p, |issued|, step.data));
      }
    }
  }

  /** In every reachable state: the buffers handed to writeSync, in order, are an initial part of the buffers
      accepted by the channel, without repetition, with each producer's buffers the data of its Write calls in order;
      what is missing is still in the send buffer or the channel; and no batch is over the limit unless it is
      one buffer. */
  lemma WrittenInOrder(states: seq<State>, steps: seq<Step>, n: nat)
    requires IsRun(states, steps) && n < |states|
    ensures var s := states[n];
            && Written(s) <= s.accepted && s.accepted == Written(s) + s.sendBuffer + s.bufChan
            && (forall i, j :: 0 <= i < j < |s.accepted| ==> s.accepted[i] != s.accepted[j])
            && (forall p :: p in s.producers ==> DataOf(Own(s.accepted, p)) <= WritesOf(steps, n, p))
            && (forall i :: 0 <= i < |s.batches| ==> Size(s.batches[i]) <= 10 * 1024 * 1024 || |s.batches[i]| == 1)
  {
    InvAlways(states, steps, n);
    ExactlyOnce(states[n]);
    SameProducers(states, steps, n);
    forall p | p in states[n].producers ensures DataOf(Own(states[n].accepted, p)) <= WritesOf(steps, n, p) {
      IssuedAre(states, steps, n, p);
      OwnIssued(states[n], p);
    }
  }

  lemma OwnIssued(s: State, p: nat)
    requires Ordered(s) && p in s.producers
    ensures DataOf(Own(s.accepted, p)) <= DataOf(s.producers[p].issued)
  {
    assert ProducerOk(s, p);
    var own, pending := Own(s.accepted, p), Pending(s.producers[p].st);
    assert DataOf(own + pending)[..|own|] == DataOf(own);
  }

  /** A producer whose calls have all returned has all of them in the log, in order. */
  lemma AllAccepted(states: seq<State>, steps: seq<Step>, n: nat, p: nat)
    requires IsRun(states, steps) && n < |states| && p in states[0].producers
    ensures p in states[n].producers
    ensures states[n].producers[p].st.Ready? ==> DataOf(Own(states[n].accepted, p)) == WritesOf(steps, n, p)
  {
    IssuedAre(states, steps, n, p);
    InvAlways(states, steps, n);
    assert ProducerOk(states[n], p);
    assert Own(states[n].accepted, p) + [] == Own(states[n].accepted, p);
  }

  lemma {:induction false} WritesGrow(steps: seq<Step>, k: nat, n: nat, p: nat)
    requires k < n <= |steps| && steps[k].Write? && steps[k].p == p
    ensures var i := |WritesOf(steps, k, p)|; i < |WritesOf(steps, n, p)| && WritesOf(steps, n, p)[i] == steps[k].data
  {
    if n > k + 1 {
      WritesGrow(steps, k, n - 1, p);
    }
  }

  lemma {:induction false} OwnIsPart(ms: seq<Msg>, p: nat, i: nat)
    requires i < |Own(ms, p)|
    ensures Own(ms, p)[i] in ms
  {
    var last, before := ms[|ms| - 1], ms[..|ms| - 1];
    assert ms == before + [last];
    if i < |Own(before, p)| {
      OwnIsPart(before, p, i);
    }
  }

  /** The buffer of the Write call at step k: the producer's how-manieth, and its data. */
  function CallAt(steps: seq<Step>, k: nat): (m: Msg)
    requires k < |steps| && steps[k].Write?
  {
    Msg(steps[k].p, |WritesOf(steps, k, steps[k].p)|, steps[k].data)
  }

  /** A Write call whose producer is ready again is in the log. */
  lemma CallAccepted(states: seq<State>, steps: seq<Step>, k: nat, n: nat)
    requires IsRun(states, steps) && k < n < |states| && steps[k].Write?
    requires steps[k].p in states[n].producers && states[n].producers[steps[k].p].st.Ready?
    ensures CallAt(steps, k) in states[n].accepted
  {
    var p, i := steps[k].p, |WritesOf(steps, k, steps[k].p)|;
    SameProducers(states, steps, n);
    IssuedAre(states, steps, n, p);
    WritesGrow(steps, k, n, p);
    InvAlways(states, steps, n);
    assert ProducerOk(states[n], p);
    var own := Own(states[n].accepted, p);
    assert own + [] == own;
    OwnIsPart(states[n].accepted, p, i);
  }

  lemma {:induction false} SameProducers(states: seq<State>, steps: seq<Step>, n: nat)
    requires IsRun(states, steps) && n < |states|
    ensures states[n].producers.Keys == states[0].producers.Keys
  {
    if n > 0 {
      SameProducers(states, steps, n - 1);
      assert StepAt(states, steps, n - 1);
      KeysStep(states[n - 1], steps[n - 1]);
    }
  }

  /** When Sync returns, every non-empty Write call whose producer was ready again when Sync began has been handed
      to writeSync. */
  lemma SyncFlushesCalls(states: seq<State>, steps: seq<Step>, i: nat, j: nat, c: nat, k: nat)
    requires IsRun(states, steps) && SyncCall(states, steps, i, j, c) && k < i && steps[k].Write? && steps[k].data != []
    requires steps[k].p in states[i].producers && states[i].producers[steps[k].p].st.Ready?
    ensures CallAt(steps, k) in Written(states[j])
  {
    CallAccepted(states, steps, k, i);
    AcceptedFlushed(states, steps, i, j, c, CallAt(steps, k));
  }

  // ---------------------------------------------------------------- who is served

  /** The Sync caller the writer works for. */
  function ServedBy(w: Writer): (c: Option<nat>) {
    match w
    case Selecting => None
    case Starting(done) => done
    case Draining(_, done) => done
    case Signalling(c) => Some(c)
  }

  /** The writer works for every caller that waits. */
  ghost predicate Attended(s: State) {
    forall c :: c in s.syncers && s.syncers[c].Waiting? ==> ServedBy(s.writer) == Some(c)
  }

  lemma AttendedStep(s: State, step: Step)
    requires Attended(s) && Enabled(s, step)
    ensures Attended(Apply(s, step))
  {
  }

  /** In every reachable state the writer works for every Sync caller that waits, so there is at most one. */
  lemma {:induction false} AlwaysAttended(states: seq<State>, steps: seq<Step>, n: nat)
    requires IsRun(states, steps) && n < |states|
    ensures Attended(states[n])
  {
    if n > 0 {
      AlwaysAttended(states, steps, n - 1);
      assert StepAt(states, steps, n - 1);
      AttendedStep(states[n - 1], steps[n - 1]);
    }
  }

  /** A tick, a producer that found the channel full, and a Sync call each start a pass of the writer. */
  lemma WriterWakes(s: State, step: Step)
    requires Enabled(s, step) && (step.Tick? || step.Notify? || step.SyncAsk?)
    ensures var t := Apply(s, step); t.writer.Starting? && Enabled(t, Start)
    ensures step.SyncAsk? ==> Apply(s, step).writer.done == Some(step.s)
  {
  }
}
