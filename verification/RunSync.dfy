/** The rendezvous behind every blocking call (`run_sync`, ffi/src/lib.rs): the caller opens a
    channel of capacity one, spawns its future on the shared runtime and blocks on the
    receiving end; the spawned task awaits the future and sends the result.

    Any number of callers share one runtime. Callers, tasks and channels are separate entities
    that refer to each other by number, and one step of any of them may happen at any time. */
module RunSync {

  datatype Caller<R> =
    | Idle                               // has not called run_sync yet
    | Waiting(chan: nat)                 // blocked in rx.recv()
    | Returned(chan: nat, result: R)
    | Panicked(chan: nat)                // recv failed: "runtime worker panicked"

  datatype TaskState<R> =
    | Polling                            // fut.await
    | Ready(result: R)                   // about to send
    | Sent                               // send returned, tx not yet dropped
    | Finished                           // tx dropped
    | Crashed                            // the future panicked, unwinding dropped tx

  datatype Task<R> = Task(chan: nat, owner: nat, state: TaskState<R>)

  /** sync_channel(1): at most one element in the buffer. */
  datatype Channel<R> = Channel(buffer: seq<R>, txAlive: bool)

  datatype Runtime<R> = Runtime(callers: seq<Caller<R>>, tasks: seq<Task<R>>, chans: seq<Channel<R>>)

  datatype Step = Spawn(c: nat) | Complete(t: nat) | Crash(t: nat) | Send(t: nat) | DropTx(t: nat) | Recv(c: nat) | RecvFails(c: nat)

  const CAPACITY := 1

  /** Caller c is blocked on an existing channel. */
  predicate Blocked<R>(s: Runtime<R>, c: nat) {
    c < |s.callers| && s.callers[c].Waiting? && s.callers[c].chan < |s.chans|
  }

  predicate Stands<R>(s: Runtime<R>, t: nat) {
    t < |s.tasks| && s.tasks[t].chan < |s.chans| && s.tasks[t].owner < |s.callers|
  }

  predicate Enabled<R>(s: Runtime<R>, step: Step) {
    match step
    case Spawn(c) => c < |s.callers| && s.callers[c].Idle?
    case Complete(t) => Stands(s, t) && s.tasks[t].state.Polling?
    case Crash(t) => Stands(s, t) && s.tasks[t].state.Polling?
    case Send(t) => Stands(s, t) && s.tasks[t].state.Ready? && |s.chans[s.tasks[t].chan].buffer| < CAPACITY
    case DropTx(t) => Stands(s, t) && s.tasks[t].state.Sent?
    case Recv(c) => Blocked(s, c) && s.chans[s.callers[c].chan].buffer != []
    case RecvFails(c) => (
      Blocked(s, c) && s.chans[s.callers[c].chan].buffer == [] && !s.chans[s.callers[c].chan].txAlive)
  }

  /** One step. `futures[c]` is what caller c's future evaluates to when it does not panic. */
  function Next<R>(s: Runtime<R>, step: Step, futures: seq<R>): Runtime<R>
    requires Enabled(s, step) && |futures| == |s.callers|
  {
    match step
    case Spawn(c) =>
      var ch := |s.chans|;
      s.(callers := s.callers[c := Waiting(ch)],
         tasks := s.tasks + [Task(ch, c, Polling)],
         chans := s.chans + [Channel([], true)])
    case Complete(t) =>
      var task := s.tasks[t];
      s.(tasks := s.tasks[t := task.(state := Ready(futures[task.owner]))])
    case Crash(t) =>
      var task := s.tasks[t];
      s.(tasks := s.tasks[t := task.(state := Crashed)],
         chans := s.chans[task.chan := s.chans[task.chan].(txAlive := false)])
    case Send(t) =>
      var task := s.tasks[t];
      var chan := s.chans[task.chan];
      s.(tasks := s.tasks[t := task.(state := Sent)],
         chans := s.chans[task.chan := chan.(buffer := chan.buffer + [task.state.result])])
    case DropTx(t) =>
      var task := s.tasks[t];
      s.(tasks := s.tasks[t := task.(state := Finished)],
         chans := s.chans[task.chan := s.chans[task.chan].(txAlive := false)])
    case Recv(c) =>
      var ch := s.callers[c].chan;
      var chan := s.chans[ch];
      s.(callers := s.callers[c := Returned(ch, chan.buffer[0])],
         chans := s.chans[ch := chan.(buffer := chan.buffer[1..])])
    case RecvFails(c) =>
      s.(callers := s.callers[c := Panicked(s.callers[c].chan)])
  }

  function Initial<R>(n: nat): Runtime<R> {
    Runtime(seq(n, _ => Idle), [], [])
  }

  // ----- what every step keeps -----

  /** Task t feeds channel t, and its owner is the caller that opened channel t. */
  ghost predicate TaskOk<R>(s: Runtime<R>, futures: seq<R>, t: nat)
    requires t < |s.tasks| == |s.chans| && |futures| == |s.callers|
  {
    var task, chan := s.tasks[t], s.chans[t];
    && task.chan == t
    && task.owner < |s.callers|
    && var c := s.callers[task.owner];
    && !c.Idle? && c.chan == t
    && (match task.state
        case Polling => chan.buffer == [] && chan.txAlive && c.Waiting?
        case Ready(r) => chan.buffer == [] && chan.txAlive && c.Waiting? && r == futures[task.owner]
        case Crashed => chan.buffer == [] && !chan.txAlive && !c.Returned?
        case _ => (
          && chan.txAlive == task.state.Sent?
          && (|| (c.Waiting? && chan.buffer == [futures[task.owner]])
              || (c == Returned(t, futures[task.owner]) && chan.buffer == []))))
  }

  ghost predicate CallerOk<R>(s: Runtime<R>, c: nat)
    requires c < |s.callers|
  {
    !s.callers[c].Idle? ==> s.callers[c].chan < |s.tasks| && s.tasks[s.callers[c].chan].owner == c
  }

  ghost predicate Inv<R>(s: Runtime<R>, futures: seq<R>) {
    && |s.tasks| == |s.chans|
    && |futures| == |s.callers|
    && (forall t :: 0 <= t < |s.tasks| ==> TaskOk(s, futures, t))
    && (forall c :: 0 <= c < |s.callers| ==> CallerOk(s, c))
  }

  lemma StepKeepsInv<R>(s: Runtime<R>, step: Step, futures: seq<R>)
    requires Inv(s, futures) && Enabled(s, step)
    ensures Inv(Next(s, step, futures), futures)
  {
    var s' := Next(s, step, futures);
    forall t | 0 <= t < |s'.tasks| ensures TaskOk(s', futures, t) {
      if t < |s.tasks| {
        assert TaskOk(s, futures, t);
        StepKeepsTask(s, step, futures, t);
      }
    }
    StepKeepsCallers(s, step, futures);
  }

  lemma StepKeepsTask<R>(s: Runtime<R>, step: Step, futures: seq<R>, t: nat)
    requires Inv(s, futures) && Enabled(s, step) && t < |s.tasks|
    ensures TaskOk(Next(s, step, futures), futures, t)
  {
    assert TaskOk(s, futures, t);
    match step
    case Spawn(c) =>
    case Complete(u) => assert TaskOk(s, futures, u);
    case Crash(u) => assert TaskOk(s, futures, u);
    case Send(u) => assert TaskOk(s, futures, u);
    case DropTx(u) => assert TaskOk(s, futures, u);
    case Recv(c) => assert CallerOk(s, c); assert TaskOk(s, futures, s.callers[c].chan);
    case RecvFails(c) => assert CallerOk(s, c); assert TaskOk(s, futures, s.callers[c].chan);
  }

  lemma StepKeepsCallers<R>(s: Runtime<R>, step: Step, futures: seq<R>)
    requires Inv(s, futures) && Enabled(s, step)
    ensures var s' := Next(s, step, futures);
      && (forall c :: 0 <= c < |s'.callers| ==> CallerOk(s', c))
  {
    var s' := Next(s, step, futures);
    forall c | 0 <= c < |s'.callers| ensures CallerOk(s', c) {
      assert CallerOk(s, c);
    }
  }

  // ----- runs -----

  /** `steps`, taken one after the other, lead from `s` to `end`. */
  ghost predicate Leads<R>(s: Runtime<R>, steps: seq<Step>, futures: seq<R>, end: Runtime<R>)
    requires |futures| == |s.callers|
    decreases |steps|
  {
    if steps == [] then s == end
    else Enabled(s, steps[0]) && Leads(Next(s, steps[0], futures), steps[1..], futures, end)
  }

  lemma {:induction false} RunKeepsInv<R>(s: Runtime<R>, steps: seq<Step>, futures: seq<R>, end: Runtime<R>)
    requires Inv(s, futures) && Leads(s, steps, futures, end)
    ensures Inv(end, futures)
    decreases |steps|
  {
    if steps != [] {
      StepKeepsInv(s, steps[0], futures);
      RunKeepsInv(Next(s, steps[0], futures), steps[1..], futures, end);
    }
  }

  lemma RunFromStart<R>(futures: seq<R>, steps: seq<Step>, end: Runtime<R>)
    requires Leads(Initial(|futures|), steps, futures, end)
    ensures Inv(end, futures)
  {
    RunKeepsInv(Initial(|futures|), steps, futures, end);
  }

  /** Safety for callers, under every interleaving of any number of them: a caller that returned
      has the result of its own future, and a caller panicked only because its own future did. */
  lemma EveryCallerGetsItsOwnResult<R>(futures: seq<R>, steps: seq<Step>, end: Runtime<R>, c: nat)
    requires Leads(Initial(|futures|), steps, futures, end)
    requires c < |futures|
    ensures |end.callers| == |futures|
    ensures end.callers[c].Returned? ==> end.callers[c].result == futures[c]
    ensures !end.callers[c].Idle? ==> end.callers[c].chan < |end.tasks| && end.tasks[end.callers[c].chan].owner == c
    ensures end.callers[c].Panicked? ==> end.tasks[end.callers[c].chan].state.Crashed?
  {
    RunFromStart(futures, steps, end);
    assert CallerOk(end, c);
    if !end.callers[c].Idle? {
      assert TaskOk(end, futures, end.callers[c].chan);
    }
  }

  /** How often a step occurs in a schedule. */
  function Count(steps: seq<Step>, step: Step): nat {
    if steps == [] then 0 else (if steps[0] == step then 1 else 0) + Count(steps[1..], step)
  }

  function Received<R>(s: Runtime<R>, c: nat): nat {
    if c < |s.callers| && s.callers[c].Returned? then 1 else 0
  }

  function Delivered<R>(s: Runtime<R>, t: nat): nat {
    if t < |s.tasks| && (s.tasks[t].state.Sent? || s.tasks[t].state.Finished?) then 1 else 0
  }

  function Called<R>(s: Runtime<R>, c: nat): nat {
    if c < |s.callers| && !s.callers[c].Idle? then 1 else 0
  }

  function GaveUp<R>(s: Runtime<R>, c: nat): nat {
    if c < |s.callers| && s.callers[c].Panicked? then 1 else 0
  }

  function HasCrashed<R>(s: Runtime<R>, t: nat): nat {
    if t < |s.tasks| && s.tasks[t].state.Crashed? then 1 else 0
  }

  function HasCompleted<R>(s: Runtime<R>, t: nat): nat {
    if t < |s.tasks| && !s.tasks[t].state.Crashed? && !s.tasks[t].state.Polling? then 1 else 0
  }

  /** What callers and tasks have come to is what the schedule has them do, as often. */
  lemma {:induction false} FatesCounted<R>(s: Runtime<R>, steps: seq<Step>, futures: seq<R>, end: Runtime<R>, c: nat, t: nat)
    requires |futures| == |s.callers| && Leads(s, steps, futures, end)
    ensures Called(end, c) == Called(s, c) + Count(steps, Spawn(c))
    ensures GaveUp(end, c) == GaveUp(s, c) + Count(steps, RecvFails(c))
    ensures HasCompleted(end, t) == HasCompleted(s, t) + Count(steps, Complete(t))
    ensures HasCrashed(end, t) == HasCrashed(s, t) + Count(steps, Crash(t))
    decreases |steps|
  {
    if steps != [] {
      FatesCounted(Next(s, steps[0], futures), steps[1..], futures, end, c, t);
    }
  }

  /** A caller receives in the schedule when, and as often as, it comes to have returned, and a task
      sends when and as often as it comes to have sent. */
  lemma {:induction false} SendsAndReceivesCounted<R>(s: Runtime<R>, steps: seq<Step>, futures: seq<R>, end: Runtime<R>,
                                                      c: nat, t: nat)
    requires |futures| == |s.callers| && Leads(s, steps, futures, end)
    ensures Received(end, c) == Received(s, c) + Count(steps, Recv(c))
    ensures Delivered(end, t) == Delivered(s, t) + Count(steps, Send(t))
    decreases |steps|
  {
    if steps != [] {
      SendsAndReceivesCounted(Next(s, steps[0], futures), steps[1..], futures, end, c, t);
    }
  }

  /** Safety for tasks: a task that is about to send never finds the buffer full; in the whole
      schedule it sends at most once; and its caller receives once if it returned and never otherwise,
      and receives only what was sent. */
  lemma SendNeverBlocksAndDeliversOnce<R>(futures: seq<R>, steps: seq<Step>, end: Runtime<R>, t: nat)
    requires Leads(Initial(|futures|), steps, futures, end)
    requires t < |end.tasks|
    ensures end.tasks[t].state.Ready? ==> Enabled(end, Send(t))
    ensures end.tasks[t].owner < |end.callers|
    ensures var c := end.tasks[t].owner;
      && Count(steps, Recv(c)) <= Count(steps, Send(t)) <= 1
      && Count(steps, Recv(c)) == if end.callers[c].Returned? then 1 else 0
  {
    RunFromStart(futures, steps, end);
    assert TaskOk(end, futures, t);
    SendsAndReceivesCounted(Initial(|futures|), steps, futures, end, end.tasks[t].owner, t);
  }

  /** Over the whole schedule, for a caller that has called: its future was spawned once; it returned
      only after its future completed, which happened once and without a panic; it panicked only
      after its future did, once, and without having completed. */
  lemma EveryOutcomeHasItsCause<R>(futures: seq<R>, steps: seq<Step>, end: Runtime<R>, c: nat)
    requires Leads(Initial(|futures|), steps, futures, end)
    requires c < |end.callers| && !end.callers[c].Idle?
    ensures var t := end.callers[c].chan;
      && Count(steps, Spawn(c)) == 1
      && Count(steps, Complete(t)) + Count(steps, Crash(t)) <= 1
      && (end.callers[c].Returned? ==> Count(steps, Complete(t)) == 1 && Count(steps, Crash(t)) == 0)
      && (end.callers[c].Panicked? ==> Count(steps, Crash(t)) == 1 && Count(steps, Complete(t)) == 0)
  {
    RunFromStart(futures, steps, end);
    assert CallerOk(end, c);
    assert TaskOk(end, futures, end.callers[c].chan);
    FatesCounted(Initial(|futures|), steps, futures, end, c, end.callers[c].chan);
  }

  /** What a blocked caller is waiting for: only its own future still being polled holds it up.
      In every other state of its task some step of the task or of the caller itself is enabled. */
  lemma BlockedOnlyByItsOwnFuture<R>(futures: seq<R>, steps: seq<Step>, end: Runtime<R>, c: nat)
    requires Leads(Initial(|futures|), steps, futures, end)
    requires c < |end.callers| && end.callers[c].Waiting?
    ensures var t := end.callers[c].chan;
      && t < |end.tasks| && end.tasks[t].owner == c
      && match end.tasks[t].state
         case Polling => Enabled(end, Complete(t)) && Enabled(end, Crash(t))
         case Ready(_) => Enabled(end, Send(t))
         case Crashed => Enabled(end, RecvFails(c))
         case _ => Enabled(end, Recv(c))
  {
    RunFromStart(futures, steps, end);
    assert CallerOk(end, c);
    assert TaskOk(end, futures, end.callers[c].chan);
  }

  // ----- termination -----

  function CallerWeight<R>(c: Caller<R>): nat {
    match c case Idle => 6 case Waiting(_) => 1 case _ => 0
  }

  function TaskWeight<R>(t: Task<R>): nat {
    match t.state case Polling => 3 case Ready(_) => 2 case Sent => 1 case _ => 0
  }

  function Total<T>(weight: T -> nat, xs: seq<T>): nat {
    if xs == [] then 0 else weight(xs[0]) + Total(weight, xs[1..])
  }

  lemma {:induction false} TotalUpdate<T>(weight: T -> nat, xs: seq<T>, i: nat, x: T)
    requires i < |xs|
    ensures Total(weight, xs[i := x]) + weight(xs[i]) == Total(weight, xs) + weight(x)
  {
    if i > 0 {
      assert xs[i := x][1..] == xs[1..][i - 1 := x];
      TotalUpdate(weight, xs[1..], i - 1, x);
    }
  }

  lemma {:induction false} TotalSnoc<T>(weight: T -> nat, xs: seq<T>, x: T)
    ensures Total(weight, xs + [x]) == Total(weight, xs) + weight(x)
  {
    if xs != [] {
      assert (xs + [x])[1..] == xs[1..] + [x];
      TotalSnoc(weight, xs[1..], x);
    }
  }

  function Work<R>(s: Runtime<R>): nat {
    Total(c => CallerWeight(c), s.callers) + Total(t => TaskWeight(t), s.tasks)
  }

  lemma StepDoesWork<R>(s: Runtime<R>, step: Step, futures: seq<R>)
    requires Enabled(s, step) && |futures| == |s.callers|
    ensures Work(Next(s, step, futures)) < Work(s)
  {
    var s' := Next(s, step, futures);
    var cw: Caller<R> -> nat := c => CallerWeight(c);
    var tw: Task<R> -> nat := t => TaskWeight(t);
    match step
    case Spawn(c) =>
      TotalUpdate(cw, s.callers, c, s'.callers[c]);
      TotalSnoc(tw, s.tasks, s'.tasks[|s.tasks|]);
    case Complete(t) => TotalUpdate(tw, s.tasks, t, s'.tasks[t]);
    case Crash(t) => TotalUpdate(tw, s.tasks, t, s'.tasks[t]);
    case Send(t) => TotalUpdate(tw, s.tasks, t, s'.tasks[t]);
    case DropTx(t) => TotalUpdate(tw, s.tasks, t, s'.tasks[t]);
    case Recv(c) => TotalUpdate(cw, s.callers, c, s'.callers[c]);
    case RecvFails(c) => TotalUpdate(cw, s.callers, c, s'.callers[c]);
  }

  lemma {:induction false} RunIsBounded<R>(s: Runtime<R>, steps: seq<Step>, futures: seq<R>, end: Runtime<R>)
    requires |futures| == |s.callers| && Leads(s, steps, futures, end)
    ensures |steps| + Work(end) <= Work(s)
    decreases |steps|
  {
    if steps != [] {
      StepDoesWork(s, steps[0], futures);
      RunIsBounded(Next(s, steps[0], futures), steps[1..], futures, end);
    }
  }

  lemma {:induction false} InitialWork<R>(n: nat)
    ensures Work(Initial<R>(n)) == 6 * n
  {
    var cw: Caller<R> -> nat := c => CallerWeight(c);
    if n > 0 {
      InitialWork<R>(n - 1);
      assert Initial<R>(n).callers[1..] == Initial<R>(n - 1).callers;
    }
  }

  ghost predicate Stuck<R>(s: Runtime<R>) {
    forall step :: !Enabled(s, step)
  }

  predicate Done<R>(c: Caller<R>) {
    c.Returned? || c.Panicked?
  }

  lemma StuckMeansDone<R>(futures: seq<R>, steps: seq<Step>, end: Runtime<R>, c: nat)
    requires Leads(Initial(|futures|), steps, futures, end) && Stuck(end)
    requires c < |end.callers|
    ensures Done(end.callers[c])
  {
    assert !Enabled(end, Spawn(c));
    if end.callers[c].Waiting? {
      BlockedOnlyByItsOwnFuture(futures, steps, end, c);
    }
  }

  /** Liveness, first half: no schedule goes on for more than six steps per caller. */
  lemma EveryScheduleIsBounded<R>(futures: seq<R>, steps: seq<Step>, end: Runtime<R>)
    requires Leads(Initial(|futures|), steps, futures, end)
    ensures |steps| <= 6 * |futures|
  {
    RunIsBounded(Initial(|futures|), steps, futures, end);
    InitialWork<R>(|futures|);
  }

  /** Liveness, second half: a schedule that cannot be continued has let every caller leave run_sync,
      with the result of its own future exactly when that future completed, and with a panic exactly
      when that future panicked. */
  lemma StuckScheduleLeavesNobodyWaiting<R>(futures: seq<R>, steps: seq<Step>, end: Runtime<R>, c: nat)
    requires Leads(Initial(|futures|), steps, futures, end) && Stuck(end)
    requires c < |futures|
    ensures |end.callers| == |futures| && Done(end.callers[c])
    ensures var t := end.callers[c].chan;
      && (end.callers[c] == Returned(t, futures[c]) <==> Complete(t) in steps)
      && (end.callers[c] == Panicked(t) <==> Crash(t) in steps)
  {
    EveryCallerGetsItsOwnResult(futures, steps, end, c);
    StuckMeansDone(futures, steps, end, c);
    EveryOutcomeHasItsCause(futures, steps, end, c);
    CountIsMembership(steps, Complete(end.callers[c].chan));
    CountIsMembership(steps, Crash(end.callers[c].chan));
  }

  lemma {:induction false} CountIsMembership(steps: seq<Step>, step: Step)
    ensures Count(steps, step) > 0 <==> step in steps
  {
    if steps != [] {
      CountIsMembership(steps[1..], step);
    }
  }
}
