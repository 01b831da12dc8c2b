/**
 Stopping the worker threads of message/messenger.c: cceph_messenger_stop writes one byte for
 each worker into a pipe that the workers watch with a one-shot event, and joins them.
 */
module StopPipe {

  /** Where a worker in start_epoll is. */
  datatype Worker =
    | Waiting      // in epoll_wait
    | Busy         // with the event of some other connection
    | Woken        // has the pipe's event
    | HasRead      // has taken its byte, the event is still off
    | Rearmed      // wait_for_next_msg is done
    | Exited

  /** Where cceph_messenger_stop is. */
  datatype Stopper = Writing(written: nat) | Joining(joined: nat) | Stopped

  datatype State = State(
    stopper: Stopper,
    workers: seq<Worker>,
    bytes: nat,            // in the pipe
    armed: bool,           // whether the next byte raises an event
    written: nat,          // history: bytes written
    read: nat              // history: bytes read
  )

  datatype Step =
    | WriteByte
    | StartJoin
    | Join
    | Stop
    | OtherEvent(t: nat)
    | Back(t: nat)
    | Event(t: nat)
    | Read(t: nat)
    | Rearm(t: nat)
    | Exit(t: nat)

  ghost predicate Init(s: State) {
    s.stopper == Writing(0) && s.bytes == 0 && s.armed && s.written == 0 && s.read == 0
    && forall t :: 0 <= t < |s.workers| ==> s.workers[t] in {Waiting, Busy}
  }

  ghost predicate At(s: State, t: nat, w: Worker) {
    t < |s.workers| && s.workers[t] == w
  }

  /** Whether the step can be taken; the pipe holds at most `capacity` bytes. */
  ghost predicate Enabled(capacity: nat, s: State, step: Step) {
    match step
    case WriteByte => s.stopper.Writing? && s.stopper.written < |s.workers| && s.bytes < capacity
    case StartJoin => s.stopper.Writing? && s.stopper.written >= |s.workers|
    case Join => s.stopper.Joining? && At(s, s.stopper.joined, Exited)
    case Stop => s.stopper.Joining? && s.stopper.joined >= |s.workers|
    case OtherEvent(t) => At(s, t, Waiting)
    case Back(t) => At(s, t, Busy)
    case Event(t) => At(s, t, Waiting) && s.armed && s.bytes > 0
    case Read(t) => At(s, t, Woken) && s.bytes > 0
    case Rearm(t) => At(s, t, HasRead)
    case Exit(t) => At(s, t, Rearmed)
  }

  ghost function To(s: State, t: nat, w: Worker): State
    requires t < |s.workers|
  {
    s.(workers := s.workers[t := w])
  }

  ghost function After(capacity: nat, s: State, step: Step): State
    requires Enabled(capacity, s, step)
  {
    match step
    case WriteByte => s.(stopper := Writing(s.stopper.written + 1), bytes := s.bytes + 1, written := s.written + 1)
    case StartJoin => s.(stopper := Joining(0))
    case Join => s.(stopper := Joining(s.stopper.joined + 1))
    case Stop => s.(stopper := Stopped)
    case OtherEvent(t) => To(s, t, Busy)
    case Back(t) => To(s, t, Waiting)
    case Event(t) => To(s, t, Woken).(armed := false)
    case Read(t) => To(s, t, HasRead).(bytes := s.bytes - 1, read := s.read + 1)
    case Rearm(t) => To(s, t, Rearmed).(armed := true)
    case Exit(t) => To(s, t, Exited)
  }

  ghost function Sum(ws: seq<Worker>, f: Worker -> nat): nat {
    if ws == [] then 0 else f(ws[0]) + Sum(ws[1..], f)
  }

  lemma {:induction false} SumUpdate(ws: seq<Worker>, f: Worker -> nat, t: nat, w: Worker)
    requires t < |ws|
    ensures Sum(ws[t := w], f) == Sum(ws, f) - f(ws[t]) + f(w)
  {
    if t > 0 {
      assert ws[t := w][1..] == ws[1..][t - 1 := w];
      SumUpdate(ws[1..], f, t - 1, w);
    }
  }

  lemma {:induction false} SumBounds(ws: seq<Worker>, f: Worker -> nat, k: nat)
    requires forall w :: f(w) <= k
    ensures Sum(ws, f) <= k * |ws|
  {
    if ws != [] {
      SumBounds(ws[1..], f, k);
    }
  }

  /** Where the sum falls short of one each, some worker has nothing yet. */
  lemma {:induction false} SumShort(ws: seq<Worker>, f: Worker -> nat) returns (t: nat)
    requires Sum(ws, f) < |ws|
    ensures t < |ws| && f(ws[t]) == 0
  {
    if f(ws[0]) == 0 {
      t := 0;
    } else {
      t := SumShort(ws[1..], f);
      t := t + 1;
    }
  }

  lemma {:induction false} SumHas(ws: seq<Worker>, f: Worker -> nat, t: nat)
    requires t < |ws|
    ensures Sum(ws, f) >= f(ws[t])
  {
    if t > 0 {
      SumHas(ws[1..], f, t - 1);
    }
  }

  ghost function BytesOf(w: Worker): nat {
    if w.HasRead? || w.Rearmed? || w.Exited? then 1 else 0
  }

  /** Between the one-shot event and the re-arm. */
  ghost function Holding(w: Worker): nat {
    if w.Woken? || w.HasRead? then 1 else 0
  }

  /** Steps that the worker has before it, if no other connection gets an event. */
  ghost function ToGo(w: Worker): nat {
    match w
    case Waiting => 4
    case Busy => 5
    case Woken => 3
    case HasRead => 2
    case Rearmed => 1
    case Exited => 0
  }

  // ---- the invariant ----

  ghost predicate StopperOk(s: State) {
    match s.stopper
    case Writing(k) => s.written == k && k <= |s.workers|
    case Joining(k) => s.written == |s.workers| && k <= |s.workers| && forall t :: 0 <= t < k ==> s.workers[t] == Exited
    case Stopped => s.written == |s.workers| && forall t :: 0 <= t < |s.workers| ==> s.workers[t] == Exited
  }

  ghost predicate Inv(s: State) {
    && StopperOk(s)
    && s.bytes + s.read == s.written
    && s.read == Sum(s.workers, BytesOf)
    && Sum(s.workers, Holding) == (if s.armed then 0 else 1)
    && (forall t :: 0 <= t < |s.workers| && s.workers[t] == Woken ==> s.bytes > 0)
  }

  lemma {:induction false} SumZero(ws: seq<Worker>, f: Worker -> nat)
    requires forall t :: 0 <= t < |ws| ==> f(ws[t]) == 0
    ensures Sum(ws, f) == 0
  {
    if ws != [] {
      SumZero(ws[1..], f);
    }
  }

  lemma InitInv(s: State)
    requires Init(s)
    ensures Inv(s)
  {
    SumZero(s.workers, BytesOf);
    SumZero(s.workers, Holding);
  }

  /** At most one worker is between a one-shot event and the re-arm. */
  lemma OneHolder(s: State, t: nat, u: nat)
    requires Inv(s) && t < |s.workers| && u < |s.workers| && t != u
    ensures Holding(s.workers[t]) + Holding(s.workers[u]) <= 1
    ensures Holding(s.workers[t]) == 1 ==> !s.armed
  {
    SumHas(s.workers, Holding, t);
    SumUpdate(s.workers, Holding, t, Exited);
    SumHas(s.workers[t := Exited], Holding, u);
  }

  lemma MoveInv(s: State, t: nat, w: Worker, s': State)
    requires Inv(s) && t < |s.workers| && s.workers[t] != Exited
    requires s'.workers == s.workers[t := w] && s'.stopper == s.stopper && s'.written == s.written
    requires s'.read == s.read + BytesOf(w) - BytesOf(s.workers[t]) && s'.bytes + s'.read == s.bytes + s.read
    requires (if s'.armed then 0 else 1) == (if s.armed then 0 else 1) + Holding(w) - Holding(s.workers[t])
    requires forall u :: 0 <= u < |s'.workers| && s'.workers[u] == Woken ==> s'.bytes > 0
    ensures Inv(s')
  {
    SumUpdate(s.workers, BytesOf, t, w);
    SumUpdate(s.workers, Holding, t, w);
  }

  lemma NextInv(capacity: nat, s: State, step: Step)
    requires Inv(s) && Enabled(capacity, s, step)
    ensures Inv(After(capacity, s, step)) && |After(capacity, s, step).workers| == |s.workers|
  {
    hide Sum;
    var s' := After(capacity, s, step);
    match step
    case OtherEvent(t) => MoveInv(s, t, Busy, s');
    case Back(t) => MoveInv(s, t, Waiting, s');
    case Event(t) => MoveInv(s, t, Woken, s');
    case Read(t) =>
      forall u | 0 <= u < |s'.workers| && s'.workers[u] == Woken ensures false {
        OneHolder(s, t, u);
      }
      MoveInv(s, t, HasRead, s');
    case Rearm(t) =>
      OneHolderArmed(s, t);
      MoveInv(s, t, Rearmed, s');
    case Exit(t) => MoveInv(s, t, Exited, s');
    case _ =>
  }

  lemma OneHolderArmed(s: State, t: nat)
    requires Inv(s) && t < |s.workers| && Holding(s.workers[t]) == 1
    ensures !s.armed
  {
    SumHas(s.workers, Holding, t);
  }

  // ---- whole runs ----

  /** `run` is what `steps` make of an initial state. */
  ghost predicate Run(capacity: nat, run: seq<State>, steps: seq<Step>) {
    && |run| == |steps| + 1 && Init(run[0])
    && forall i :: 0 <= i < |steps| ==>
      Enabled(capacity, run[i], steps[i]) && run[i + 1] == After(capacity, run[i], steps[i])
  }

  lemma {:induction false} RunInv(capacity: nat, run: seq<State>, steps: seq<Step>, i: nat)
    requires Run(capacity, run, steps) && i < |run|
    ensures Inv(run[i]) && |run[i].workers| == |run[0].workers|
  {
    hide Inv, After, Enabled, Init;
    if i == 0 {
      InitInv(run[0]);
    } else {
      RunInv(capacity, run, steps, i - 1);
      NextInv(capacity, run[i - 1], steps[i - 1]);
    }
  }

  /** Bytes left and bytes read make up the bytes written, every worker that has read took one
      byte and no other took any, and at most one worker holds the event. */
  lemma BytesConserved(capacity: nat, run: seq<State>, steps: seq<Step>, i: nat)
    requires Run(capacity, run, steps) && i < |run|
    ensures run[i].bytes + run[i].read == run[i].written <= |run[i].workers|
    ensures run[i].read == Sum(run[i].workers, BytesOf)
    ensures forall t, u :: 0 <= t < u < |run[i].workers| ==> Holding(run[i].workers[t]) + Holding(run[i].workers[u]) <= 1
  {
    RunInv(capacity, run, steps, i);
    hide Run;
    forall t, u | 0 <= t < u < |run[i].workers| ensures Holding(run[i].workers[t]) + Holding(run[i].workers[u]) <= 1 {
      OneHolder(run[i], t, u);
    }
  }

  /** When the stop call has returned, every worker has exited, each byte was read, and the pipe
      is armed and empty. */
  lemma Drained(capacity: nat, run: seq<State>, steps: seq<Step>, i: nat)
    requires Run(capacity, run, steps) && i < |run| && run[i].stopper == Stopped
    ensures forall t :: 0 <= t < |run[i].workers| ==> run[i].workers[t] == Exited
    ensures run[i].bytes == 0 && run[i].armed && run[i].read == |run[i].workers|
  {
    RunInv(capacity, run, steps, i);
    hide Run;
    var s := run[i];
    SumZero(s.workers, Holding);
    if s.read < |s.workers| {
      var t := SumShort(s.workers, BytesOf);
      assert false;
    }
  }

  /** A step of the worker, given that a byte remains; OtherEvent is never needed. */
  lemma WorkerGoesOn(capacity: nat, s: State, t: nat) returns (step: Step)
    requires Inv(s) && t < |s.workers| && BytesOf(s.workers[t]) == 0 && s.bytes > 0
    ensures Enabled(capacity, s, step) && !step.OtherEvent?
  {
    match s.workers[t]
    case Busy => step := Back(t);
    case Woken => step := Read(t);
    case Waiting =>
      if s.armed {
        step := Event(t);
      } else {
        var u := Holder(s);
        step := if s.workers[u] == Woken then Read(u) else Rearm(u);
      }
  }

  lemma Holder(s: State) returns (u: nat)
    requires Inv(s) && !s.armed
    ensures u < |s.workers| && Holding(s.workers[u]) == 1
  {
    if forall t :: 0 <= t < |s.workers| ==> Holding(s.workers[t]) == 0 {
      SumZero(s.workers, Holding);
      assert false;
    }
    u :| u < |s.workers| && Holding(s.workers[u]) == 1;
  }

  /** Until the stop call has returned, some step is enabled that is not the event of another
      connection, however small the pipe. */
  lemma Progress(capacity: nat, run: seq<State>, steps: seq<Step>, i: nat)
    requires Run(capacity, run, steps) && i < |run| && run[i].stopper != Stopped && capacity > 0
    ensures exists step :: Enabled(capacity, run[i], step) && !step.OtherEvent?
  {
    RunInv(capacity, run, steps, i);
    var step := StepFor(capacity, run[i]);
  }

  lemma StepFor(capacity: nat, s: State) returns (step: Step)
    requires Inv(s) && s.stopper != Stopped && capacity > 0
    ensures Enabled(capacity, s, step) && !step.OtherEvent?
  {
    match s.stopper
    case Writing(k) =>
      if k >= |s.workers| {
        step := StartJoin;
      } else if s.bytes < capacity {
        step := WriteByte;
      } else {
        var t := SumShort(s.workers, BytesOf);
        step := WorkerGoesOn(capacity, s, t);
      }
    case Joining(k) =>
      if k >= |s.workers| {
        step := Stop;
      } else {
        step := JoinedGoesOn(capacity, s, k);
      }
  }

  lemma JoinedGoesOn(capacity: nat, s: State, k: nat) returns (step: Step)
    requires Inv(s) && s.stopper == Joining(k) && k < |s.workers|
    ensures Enabled(capacity, s, step) && !step.OtherEvent?
  {
    match s.workers[k]
    case Exited => step := Join;
    case Rearmed => step := Exit(k);
    case HasRead => step := Rearm(k);
    case _ =>
      AllRead(s, k);
      step := WorkerGoesOn(capacity, s, k);
  }

  lemma AllRead(s: State, k: nat)
    requires k < |s.workers| && BytesOf(s.workers[k]) == 0
    ensures Sum(s.workers, BytesOf) < |s.workers|
  {
    SumUpdate(s.workers, BytesOf, k, Exited);
    SumBounds(s.workers[k := Exited], BytesOf, 1);
  }

  /** Steps before the stop call has returned, if no other connection gets an event. */
  ghost function Left(s: State): nat
    requires StopperOk(s)
  {
    Sum(s.workers, ToGo) + match s.stopper
      case Writing(k) => 2 * |s.workers| - k + 2
      case Joining(k) => |s.workers| - k + 1
      case Stopped => 0
  }

  ghost function OtherEvents(steps: seq<Step>): nat {
    if steps == [] then 0 else OtherEvents(steps[..|steps| - 1]) + if steps[|steps| - 1].OtherEvent? then 1 else 0
  }

  lemma StepCosts(capacity: nat, s: State, step: Step)
    requires Inv(s) && Enabled(capacity, s, step) && Inv(After(capacity, s, step))
    ensures Left(After(capacity, s, step)) == Left(s) + if step.OtherEvent? then 1 else -1
  {
    hide Sum;
    var s' := After(capacity, s, step);
    match step
    case OtherEvent(t) => SumUpdate(s.workers, ToGo, t, Busy);
    case Back(t) => SumUpdate(s.workers, ToGo, t, Waiting);
    case Event(t) => SumUpdate(s.workers, ToGo, t, Woken);
    case Read(t) => SumUpdate(s.workers, ToGo, t, HasRead);
    case Rearm(t) => SumUpdate(s.workers, ToGo, t, Rearmed);
    case Exit(t) => SumUpdate(s.workers, ToGo, t, Exited);
    case _ =>
  }

  /** A run has at most 7n + 2 steps and two more for each event of another connection. With
      Progress: the stop call returns, and all workers exit, unless such events never end. */
  lemma {:induction false} RunBound(capacity: nat, run: seq<State>, steps: seq<Step>)
    requires Run(capacity, run, steps)
    ensures StopperOk(run[|steps|]) && |steps| + Left(run[|steps|]) == Left(run[0]) + 2 * OtherEvents(steps)
    ensures |steps| <= 7 * |run[0].workers| + 2 + 2 * OtherEvents(steps)
    decreases |steps|
  {
    RunInv(capacity, run, steps, 0);
    SumBounds(run[0].workers, ToGo, 5);
    if steps != [] {
      var n := |steps| - 1;
      RunBound(capacity, run[..|steps|], steps[..n]);
      RunInv(capacity, run, steps, n);
      RunInv(capacity, run, steps, n + 1);
      hide Inv;
      StepCosts(capacity, run[n], steps[n]);
    }
  }

  // ---- what is possible ----

  ghost predicate Leads(capacity: nat, run: seq<State>, steps: seq<Step>, last: State) {
    Run(capacity, run, steps) && run[|steps|] == last
  }

  lemma GoesOn(capacity: nat, run: seq<State>, steps: seq<Step>, s: State, step: Step, s': State)
    returns (run': seq<State>, steps': seq<Step>)
    requires Leads(capacity, run, steps, s) && Enabled(capacity, s, step) && s' == After(capacity, s, step)
    ensures Leads(capacity, run', steps', s') && OtherEvents(steps') == OtherEvents(steps) + if step.OtherEvent? then 1 else 0
  {
    hide Init, Enabled, After;
    run', steps' := run + [s'], steps + [step];
    assert steps'[..|steps|] == steps;
  }

  /** All workers wait, and `k` bytes have been written. */
  ghost function Quiet(n: nat, k: nat): State {
    State(Writing(k), seq(n, i => Waiting), k, true, k, 0)
  }

  lemma {:induction false} OthersFirst(capacity: nat, n: nat, m: nat) returns (run: seq<State>, steps: seq<Step>)
    requires m > 0 ==> n > 0
    ensures Leads(capacity, run, steps, Quiet(n, 0)) && OtherEvents(steps) == m
  {
    var s := Quiet(n, 0);
    if m == 0 {
      run, steps := [s], [];
    } else {
      run, steps := OthersFirst(capacity, n, m - 1);
      var busy := To(s, 0, Busy);
      run, steps := GoesOn(capacity, run, steps, s, OtherEvent(0), busy);
      assert To(busy, 0, Waiting).workers == s.workers;
      run, steps := GoesOn(capacity, run, steps, busy, Back(0), s);
    }
  }

  /** Any number of bytes that there is room for can be in the pipe at once, after any number of
      events of other connections. */
  lemma {:induction false} AnyTraffic(capacity: nat, n: nat, k: nat, m: nat) returns (run: seq<State>, steps: seq<Step>)
    requires k <= n && k <= capacity && (m > 0 ==> n > 0)
    ensures Run(capacity, run, steps) && run[|steps|] == Quiet(n, k) && OtherEvents(steps) == m
  {
    if k == 0 {
      run, steps := OthersFirst(capacity, n, m);
    } else {
      run, steps := AnyTraffic(capacity, n, k - 1, m);
      run, steps := GoesOn(capacity, run, steps, Quiet(n, k - 1), WriteByte, Quiet(n, k));
    }
  }
}
