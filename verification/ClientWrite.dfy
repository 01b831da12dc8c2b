/**
 The majority write of client/client.c with the OSD side of osd/osd_msg_process.c, as steps of
 any number of writers, of the OSDs and of the network. The list of waiting requests changes by
 the functions that the methods of WaitList are proved against.
 */
module ClientWrite {
  import opened WaitList
  import opened Errno

  /** A request sent to one entry of the osdmap, or the ack for it. */
  datatype Message = Message(reqId: int, osd: nat)

  /** Where the thread in cceph_client_write_obj is. */
  datatype Writer =
    | Created                             // has its id, not on the wait list yet
    | Sending(next: nat, success: nat)    // has tried and counted the OSDs below `next`
    | Tried(next: nat, success: nat, ok: bool)    // has tried OSD `next` and not counted it yet
    | Waiting
    | Done(code: int)

  datatype State = State(
    lastReqId: int,
    writers: map<int, Writer>,       // by request
    list: seq<Entry>,
    requests: set<Message>,          // on the way to an OSD
    acks: set<Message>,              // on the way back
    counted: set<Message>,           // history: acks that found their entry
    late: set<Message>,              // history: acks that found none
    lost: set<Message>,              // history: requests and acks that never arrive
    sent: set<Message>,              // history: successful sends
    handled: set<Message>            // history: requests that an OSD has handled
  )

  datatype Step =
    | TakeId
    | AddEntry(r: int)
    | Send(r: int, ok: bool)
    | Count(r: int)
    | GiveUp(r: int)
    | StartWait(r: int)
    | Finish(r: int)
    | Handle(m: Message, acked: bool)
    | LoseRequest(m: Message)
    | LoseAck(m: Message)
    | AckArrives(m: Message)

  ghost predicate Init(s: State) {
    s.lastReqId == 0 && s.writers == map[] && s.list == []
    && s.requests == {} && s.acks == {} && s.counted == {} && s.late == {} && s.lost == {}
    && s.sent == {} && s.handled == {}
  }

  ghost predicate AllTried(s: State, r: int, n: nat) {
    r in s.writers && s.writers[r].Sending? && s.writers[r].next >= n
  }

  /** Whether the step can be taken, with `n` OSDs in the osdmap. */
  ghost predicate Enabled(n: nat, s: State, step: Step) {
    match step
    case TakeId => true
    case AddEntry(r) => r in s.writers && s.writers[r].Created?
    case Send(r, _) => r in s.writers && s.writers[r].Sending? && s.writers[r].next < n
    case Count(r) => r in s.writers && s.writers[r].Tried?
    case GiveUp(r) => AllTried(s, r, n) && s.writers[r].success <= n / 2
    case StartWait(r) => AllTried(s, r, n) && s.writers[r].success > n / 2
    case Finish(r) => r in s.writers && s.writers[r].Waiting? && Listed(s.list, r) && Finished(EntryOf(s.list, r))
    case Handle(m, _) => m in s.requests
    case LoseRequest(m) => m in s.requests
    case LoseAck(m) => m in s.acks
    case AckArrives(m) => m in s.acks
  }

  ghost function To(s: State, r: int, w: Writer): State {
    s.(writers := s.writers[r := w])
  }

  ghost function After(n: nat, s: State, step: Step): State
    requires Enabled(n, s, step)
  {
    match step
    case TakeId => To(s, s.lastReqId + 1, Created).(lastReqId := s.lastReqId + 1)
    case AddEntry(r) => To(s, r, Sending(0, 0)).(list := Add(s.list, r, n))
    case Send(r, ok) =>
      var w, m := s.writers[r], Message(r, s.writers[r].next);
      var s' := To(s, r, Tried(w.next, w.success, ok));
      if ok then s'.(requests := s.requests + {m}, sent := s.sent + {m}) else s'
    case Count(r) =>
      var w := s.writers[r];
      To(s, r, Sending(w.next + 1, if w.ok then w.success + 1 else w.success))
    case GiveUp(r) => To(s, r, Done(ERR_NOT_ENOUGH_SERVER)).(list := Without(s.list, r))
    case StartWait(r) => To(s, r, Waiting)
    case Finish(r) => To(s, r, Done(OK)).(list := Without(s.list, r))
    case Handle(m, acked) =>
      var h := s.(requests := s.requests - {m}, handled := s.handled + {m});
      if acked then h.(acks := s.acks + {m}) else h.(lost := s.lost + {m})
    case LoseRequest(m) => s.(requests := s.requests - {m}, lost := s.lost + {m})
    case LoseAck(m) => s.(acks := s.acks - {m}, lost := s.lost + {m})
    case AckArrives(m) =>
      var a := s.(acks := s.acks - {m}, list := Acked(s.list, m.reqId));
      if Listed(s.list, m.reqId) then a.(counted := s.counted + {m}) else a.(late := s.late + {m})
  }

  /** The messages of one request. */
  ghost function Of(ms: set<Message>, r: int): (of: set<Message>)
    ensures forall m :: m in of <==> m in ms && m.reqId == r
  {
    set m | m in ms && m.reqId == r
  }

  lemma OfAdd(ms: set<Message>, m: Message, r: int)
    requires m !in ms
    ensures |Of(ms + {m}, r)| == |Of(ms, r)| + if m.reqId == r then 1 else 0
  {
    assert Of(ms + {m}, r) == if m.reqId == r then Of(ms, r) + {m} else Of(ms, r);
  }

  // ---- the invariant ----

  ghost predicate Live(s: State, r: int) {
    r in s.writers && (s.writers[r].Sending? || s.writers[r].Tried? || s.writers[r].Waiting?)
  }

  ghost predicate IdInv(s: State) {
    forall r :: r in s.writers ==> r <= s.lastReqId
  }

  /** The wait list has one entry for each live request, and its ack count is right. */
  ghost predicate ListInv(n: nat, s: State) {
    && DistinctIds(s.list)
    && (forall r :: Listed(s.list, r) <==> Live(s, r))
    && (forall r :: Listed(s.list, r) ==> EntryOf(s.list, r) == Entry(r, n, |Of(s.counted, r)|, 0))
  }

  /** Each message that was sent is in exactly one place. */
  ghost predicate FlowInv(s: State) {
    && s.sent == s.requests + s.acks + s.counted + s.late + s.lost
    && s.requests !! s.acks !! s.counted !! s.late !! s.lost
    && s.acks <= s.handled && s.counted <= s.handled && s.late <= s.handled
    && s.handled <= s.sent && s.handled !! s.requests
  }

  ghost predicate SentOk(n: nat, s: State, m: Message) {
    m.reqId in s.writers && m.osd < n && match s.writers[m.reqId]
      case Created => false
      case Sending(next, _) => m.osd < next
      case Tried(next, _, ok) => m.osd < next || (ok && m.osd == next)
      case Waiting => true
      case Done(_) => true
  }

  ghost predicate SentInv(n: nat, s: State) {
    && (forall m :: m in s.sent ==> SentOk(n, s, m))
    && (forall m :: m in s.late ==> m.reqId in s.writers && s.writers[m.reqId].Done?)
  }

  ghost predicate WriterOk(n: nat, s: State, r: int, w: Writer) {
    match w
    case Created => true
    case Sending(next, success) => next <= n && success == |Of(s.sent, r)|
    case Tried(next, success, ok) => next < n && (if ok then success + 1 else success) == |Of(s.sent, r)|
    case Waiting => |Of(s.sent, r)| > n / 2
    case Done(code) =>
      if code == OK then |Of(s.counted, r)| > n / 2
      else code == ERR_NOT_ENOUGH_SERVER && |Of(s.sent, r)| <= n / 2
  }

  ghost predicate WriterInv(n: nat, s: State) {
    forall r :: r in s.writers ==> WriterOk(n, s, r, s.writers[r])
  }

  ghost predicate Inv(n: nat, s: State) {
    IdInv(s) && ListInv(n, s) && FlowInv(s) && SentInv(n, s) && WriterInv(n, s)
  }

  lemma InitInv(n: nat, s: State)
    requires Init(s)
    ensures Inv(n, s)
  {}

  lemma KeepsFlow(n: nat, s: State, step: Step)
    requires Inv(n, s) && Enabled(n, s, step)
    ensures FlowInv(After(n, s, step))
  {
    hide ListInv, WriterInv, Acked, Without, Add;
    if step.Send? {
      assert Message(step.r, s.writers[step.r].next) !in s.sent;
    }
  }

  lemma KeepsSent(n: nat, s: State, step: Step)
    requires Inv(n, s) && Enabled(n, s, step)
    ensures SentInv(n, After(n, s, step)) && IdInv(After(n, s, step))
  {
    hide WriterInv, Acked, Without, Add, DistinctIds;
    if step.AckArrives? {
      assert SentOk(n, s, step.m);
    }
  }

  /** What one step makes of the wait list, for one request. */
  lemma KeepsEntry(n: nat, s: State, step: Step, q: int)
    requires Inv(n, s) && Enabled(n, s, step)
    ensures var s' := After(n, s, step);
      DistinctIds(s'.list) && (Listed(s'.list, q) <==> Live(s', q))
      && (Listed(s'.list, q) ==> EntryOf(s'.list, q) == Entry(q, n, |Of(s'.counted, q)|, 0))
  {
    hide WriterInv, Acked, Without, Add, DistinctIds, Listed, EntryOf;
    match step
    case AddEntry(r) =>
      assert !Live(s, r);
      assert Of(s.counted, r) == {};
      AddEntries(s.list, r, n, q);
    case GiveUp(r) => WithoutEntries(s.list, r, q);
    case Finish(r) => WithoutEntries(s.list, r, q);
    case AckArrives(m) =>
      AckedEntries(s.list, m.reqId, q);
      OfAdd(s.counted, m, q);
    case _ =>
  }

  lemma KeepsList(n: nat, s: State, step: Step)
    requires Inv(n, s) && Enabled(n, s, step)
    ensures ListInv(n, After(n, s, step))
  {
    hide Inv, Enabled, After, DistinctIds, Listed, EntryOf, Live;
    var s' := After(n, s, step);
    forall q
      ensures DistinctIds(s'.list) && (Listed(s'.list, q) <==> Live(s', q))
      ensures Listed(s'.list, q) ==> EntryOf(s'.list, q) == Entry(q, n, |Of(s'.counted, q)|, 0)
    {
      KeepsEntry(n, s, step, q);
    }
    KeepsEntry(n, s, step, 0);
  }

  lemma KeepsWriter(n: nat, s: State, step: Step, q: int)
    requires Inv(n, s) && Enabled(n, s, step) && q in After(n, s, step).writers
    ensures WriterOk(n, After(n, s, step), q, After(n, s, step).writers[q])
  {
    hide ListInv, FlowInv, SentInv, WriterInv, WriterOk, Enabled, After;
    match step
    case AddEntry(_) => AddKeepsWriter(n, s, step, q);
    case Send(_, _) => SendKeepsWriter(n, s, step, q);
    case Finish(_) => FinishKeepsWriter(n, s, step, q);
    case AckArrives(_) => ArriveKeepsWriter(n, s, step, q);
    case _ => OtherKeepsWriter(n, s, step, q);
  }

  lemma AddKeepsWriter(n: nat, s: State, step: Step, q: int)
    requires SentInv(n, s) && WriterInv(n, s) && step.AddEntry? && Enabled(n, s, step) && q in After(n, s, step).writers
    ensures WriterOk(n, After(n, s, step), q, After(n, s, step).writers[q])
  {
    assert Of(s.sent, step.r) == {} by {
      assert forall m :: m in Of(s.sent, step.r) ==> SentOk(n, s, m);
    }
  }

  lemma SendKeepsWriter(n: nat, s: State, step: Step, q: int)
    requires SentInv(n, s) && WriterInv(n, s) && step.Send? && Enabled(n, s, step) && q in After(n, s, step).writers
    ensures WriterOk(n, After(n, s, step), q, After(n, s, step).writers[q])
  {
    var m := Message(step.r, s.writers[step.r].next);
    assert m !in s.sent by {
      assert !SentOk(n, s, m);
    }
    hide SentInv;
    OfAdd(s.sent, m, q);
  }

  lemma FinishKeepsWriter(n: nat, s: State, step: Step, q: int)
    requires ListInv(n, s) && WriterInv(n, s) && step.Finish? && Enabled(n, s, step) && q in After(n, s, step).writers
    ensures WriterOk(n, After(n, s, step), q, After(n, s, step).writers[q])
  {
    assert EntryOf(s.list, step.r) == Entry(step.r, n, |Of(s.counted, step.r)|, 0);
    hide ListInv, Without;
  }

  lemma ArriveKeepsWriter(n: nat, s: State, step: Step, q: int)
    requires FlowInv(s) && WriterInv(n, s) && step.AckArrives? && Enabled(n, s, step) && q in After(n, s, step).writers
    ensures WriterOk(n, After(n, s, step), q, After(n, s, step).writers[q])
  {
    OfAdd(s.counted, step.m, q);
    hide FlowInv, Acked;
  }

  lemma OtherKeepsWriter(n: nat, s: State, step: Step, q: int)
    requires WriterInv(n, s) && Enabled(n, s, step) && q in After(n, s, step).writers
    requires !step.AddEntry? && !step.Send? && !step.Finish? && !step.AckArrives?
    ensures WriterOk(n, After(n, s, step), q, After(n, s, step).writers[q])
  {
    hide Without;
  }

  lemma NextInv(n: nat, s: State, step: Step)
    requires Inv(n, s) && Enabled(n, s, step)
    ensures Inv(n, After(n, s, step))
  {
    KeepsFlow(n, s, step);
    KeepsSent(n, s, step);
    KeepsList(n, s, step);
    forall q | q in After(n, s, step).writers ensures WriterOk(n, After(n, s, step), q, After(n, s, step).writers[q]) {
      KeepsWriter(n, s, step, q);
    }
    hide ListInv, FlowInv, SentInv, WriterOk, After, Enabled;
  }

  // ---- whole runs ----

  /** `run` is what `steps` make of an initial state, for an osdmap of `n` OSDs. */
  ghost predicate Run(n: nat, run: seq<State>, steps: seq<Step>) {
    && |run| == |steps| + 1 && Init(run[0])
    && forall i :: 0 <= i < |steps| ==> Enabled(n, run[i], steps[i]) && run[i + 1] == After(n, run[i], steps[i])
  }

  lemma {:induction false} RunInv(n: nat, run: seq<State>, steps: seq<Step>, i: nat)
    requires Run(n, run, steps) && i < |run|
    ensures Inv(n, run[i])
  {
    hide Inv, Enabled, After, Init;
    if i == 0 {
      InitInv(n, run[0]);
    } else {
      RunInv(n, run, steps, i - 1);
      NextInv(n, run[i - 1], steps[i - 1]);
    }
  }

  /** For a live request these add up to its successful sends: the acks counted in its entry,
      those under way, the requests under way, and the losses. `success_count` is the number of
      successful sends, but for one that has just returned, whose ack can be counted before it. */
  lemma Conservation(n: nat, run: seq<State>, steps: seq<Step>, i: nat, r: int)
    requires Run(n, run, steps) && i < |run| && Live(run[i], r)
    ensures Listed(run[i].list, r)
    ensures var s := run[i]; EntryOf(s.list, r).ackCount + |Of(s.acks, r)| + |Of(s.requests, r)| + |Of(s.lost, r)| == |Of(s.sent, r)|
    ensures var s := run[i]; EntryOf(s.list, r).commitCount == 0 && EntryOf(s.list, r).reqCount == n
    ensures run[i].writers[r].Sending? ==> |Of(run[i].sent, r)| == run[i].writers[r].success
    ensures run[i].writers[r].Tried? ==>
      |Of(run[i].sent, r)| == run[i].writers[r].success + if run[i].writers[r].ok then 1 else 0
  {
    RunInv(n, run, steps, i);
    hide Run;
    var s := run[i];
    assert WriterOk(n, s, r, s.writers[r]);
    LiveParts(n, s, r);
  }

  lemma LiveParts(n: nat, s: State, r: int)
    requires FlowInv(s) && SentInv(n, s) && Live(s, r)
    ensures |Of(s.counted, r)| + |Of(s.acks, r)| + |Of(s.requests, r)| + |Of(s.lost, r)| == |Of(s.sent, r)|
  {
    var parts := Of(s.requests, r) + Of(s.acks, r) + Of(s.counted, r) + Of(s.lost, r);
    assert Of(s.sent, r) == parts;
  }

  // ---- what a return code means ----

  /** The OSDs that have handled a request. */
  ghost function Handlers(s: State, r: int): (osds: set<nat>)
    ensures forall o :: o in osds <==> Message(r, o) in s.handled
  {
    set m | m in s.handled && m.reqId == r :: m.osd
  }

  lemma {:induction false} OsdCount(ms: set<Message>, r: int, osds: set<nat>)
    requires forall m :: m in ms ==> m.reqId == r
    requires forall o :: o in osds <==> Message(r, o) in ms
    ensures |osds| == |ms|
  {
    if ms == {} {
      assert osds == {};
    } else {
      var m :| m in ms;
      OsdCount(ms - {m}, r, osds - {m.osd});
    }
  }

  ghost function Osds(n: nat): (osds: set<nat>)
    ensures forall o: nat :: o in osds <==> o < n
  {
    if n == 0 then {} else Osds(n - 1) + {n - 1}
  }

  lemma {:induction false} CountOsds(n: nat)
    ensures |Osds(n)| == n
  {
    if n > 0 {
      CountOsds(n - 1);
    }
  }

  /** A write that has returned gave OK exactly if it was handled by more than half of the
      osdmap's OSDs, and otherwise the code for too few servers. */
  lemma ReturnCode(n: nat, run: seq<State>, steps: seq<Step>, i: nat, r: int)
    requires Run(n, run, steps) && i < |run| && r in run[i].writers && run[i].writers[r].Done?
    ensures run[i].writers[r].code == OK <==> |Handlers(run[i], r)| > n / 2
    ensures run[i].writers[r].code in {OK, ERR_NOT_ENOUGH_SERVER}
  {
    RunInv(n, run, steps, i);
    hide Run;
    DoneCode(n, run[i], r);
  }

  lemma DoneCode(n: nat, s: State, r: int)
    requires Inv(n, s) && r in s.writers && s.writers[r].Done?
    ensures s.writers[r].code == OK <==> |Handlers(s, r)| > n / 2
    ensures s.writers[r].code in {OK, ERR_NOT_ENOUGH_SERVER}
  {
    assert WriterOk(n, s, r, s.writers[r]);
    OsdCount(Of(s.handled, r), r, Handlers(s, r));
    Subset(Of(s.counted, r), Of(s.handled, r));
    Subset(Of(s.handled, r), Of(s.sent, r));
  }

  lemma Subset<T>(a: set<T>, b: set<T>)
    requires a <= b
    ensures |a| <= |b|
  {
    assert b == a + (b - a);
  }

  /** Two writes that returned OK under one osdmap, perhaps of two clients, have a common OSD
      that handled both. */
  lemma CommonOsd(n: nat, run: seq<State>, steps: seq<Step>, i: nat, r: int, run': seq<State>, steps': seq<Step>, i': nat, r': int)
    requires Run(n, run, steps) && i < |run| && r in run[i].writers && run[i].writers[r] == Done(OK)
    requires Run(n, run', steps') && i' < |run'| && r' in run'[i'].writers && run'[i'].writers[r'] == Done(OK)
    ensures exists o :: o < n && o in Handlers(run[i], r) && o in Handlers(run'[i'], r')
  {
    var h, h' := Handlers(run[i], r), Handlers(run'[i'], r');
    assert |h| > n / 2 && h <= Osds(n) by {
      ReturnCode(n, run, steps, i, r);
      HandlersBelow(n, run, steps, i, r);
    }
    assert |h'| > n / 2 && h' <= Osds(n) by {
      ReturnCode(n, run', steps', i', r');
      HandlersBelow(n, run', steps', i', r');
    }
    hide Run;
    CountOsds(n);
    if h * h' == {} {
      assert |h + h'| == |h| + |h'|;
      Subset(h + h', Osds(n));
      assert false;
    }
    var o :| o in h * h';
  }

  lemma HandlersBelow(n: nat, run: seq<State>, steps: seq<Step>, i: nat, r: int)
    requires Run(n, run, steps) && i < |run|
    ensures Handlers(run[i], r) <= Osds(n)
  {
    RunInv(n, run, steps, i);
    hide Run;
    forall o | o in Handlers(run[i], r) ensures o < n {
      assert SentOk(n, run[i], Message(r, o));
    }
  }

  // ---- the life of a wait entry ----

  /** A request is on the wait list exactly from before its first send until its writer returns,
      with one entry, so none is left behind by a return of either kind. */
  lemma EntryWhileLive(n: nat, run: seq<State>, steps: seq<Step>, i: nat, r: int)
    requires Run(n, run, steps) && i < |run|
    ensures Listed(run[i].list, r) <==> Live(run[i], r)
    ensures DistinctIds(run[i].list)
    ensures i < |steps| && steps[i].Send? && steps[i].r == r ==> Listed(run[i].list, r)
  {
    RunInv(n, run, steps, i);
  }

  ghost predicate Returns(step: Step, r: int) {
    step == GiveUp(r) || step == Finish(r)
  }

  /** Only the writer of a request takes its entry off the list, by returning. */
  lemma RemovedByWriter(n: nat, run: seq<State>, steps: seq<Step>, i: nat, r: int)
    requires Run(n, run, steps) && i < |steps|
    ensures Listed(run[i].list, r) && !Listed(run[i + 1].list, r) <==> Returns(steps[i], r)
  {
    RunInv(n, run, steps, i);
    RunInv(n, run, steps, i + 1);
    hide FlowInv, WriterInv, SentInv, Acked, Without, Add, DistinctIds;
  }

  lemma DoneStays(n: nat, s: State, step: Step, r: int)
    requires IdInv(s) && Enabled(n, s, step) && r in s.writers && s.writers[r].Done?
    ensures !Returns(step, r)
    ensures r in After(n, s, step).writers && After(n, s, step).writers[r] == s.writers[r]
  {
    hide Acked, Without, Add;
  }

  /** What a write returned stays so, and it returns once. */
  lemma {:induction false} ReturnsOnce(n: nat, run: seq<State>, steps: seq<Step>, i: nat, j: nat, r: int)
    requires Run(n, run, steps) && i <= j < |run| && r in run[i].writers && run[i].writers[r].Done?
    ensures r in run[j].writers && run[j].writers[r] == run[i].writers[r]
    ensures j < |steps| ==> !Returns(steps[j], r)
  {
    hide Inv, Enabled, After, Init;
    if i < j {
      ReturnsOnce(n, run, steps, i, j - 1, r);
      IdsKnown(n, run, steps, j - 1);
      DoneStays(n, run[j - 1], steps[j - 1], r);
    }
    if j < |steps| {
      IdsKnown(n, run, steps, j);
      DoneStays(n, run[j], steps[j], r);
    }
  }

  lemma IdsKnown(n: nat, run: seq<State>, steps: seq<Step>, i: nat)
    requires Run(n, run, steps) && i < |run|
    ensures IdInv(run[i])
  {
    RunInv(n, run, steps, i);
  }

  /** An ack that arrives is counted exactly if its write has not returned yet. */
  lemma CountedUntilReturn(n: nat, run: seq<State>, steps: seq<Step>, i: nat, m: Message)
    requires Run(n, run, steps) && i < |steps| && steps[i] == AckArrives(m)
    ensures m.reqId in run[i].writers
    ensures m in run[i + 1].counted <==> !run[i].writers[m.reqId].Done?
    ensures m in run[i + 1].late <==> run[i].writers[m.reqId].Done?
  {
    RunInv(n, run, steps, i);
    hide Acked, Without, Add, DistinctIds;
    assert run[i + 1] == After(n, run[i], steps[i]);
    assert SentOk(n, run[i], m);
  }

  // ---- what a write tries ----

  /** How the sends of a request came out, in their order. */
  ghost function Sends(steps: seq<Step>, r: int): seq<bool> {
    if steps == [] then []
    else
      var n := |steps| - 1;
      Sends(steps[..n], r) + if steps[n].Send? && steps[n].r == r then [steps[n].ok] else []
  }

  ghost function Successes(oks: seq<bool>): nat {
    if oks == [] then 0 else Successes(oks[..|oks| - 1]) + if oks[|oks| - 1] then 1 else 0
  }

  /** The writer has tried the OSDs in their order, and counts the sends that went well. */
  ghost predicate Tally(n: nat, s: State, r: int, oks: seq<bool>) {
    && (forall k: nat :: Message(r, k) in s.sent <==> k < |oks| && oks[k])
    && if r !in s.writers then oks == [] else match s.writers[r]
      case Created => oks == []
      case Sending(next, success) => |oks| == next <= n && success == Successes(oks)
      case Tried(next, success, ok) => |oks| == next + 1 <= n && oks[next] == ok && success == Successes(oks[..next])
      case Waiting => |oks| == n && Successes(oks) > n / 2
      case Done(code) => |oks| == n && (code == ERR_NOT_ENOUGH_SERVER <==> Successes(oks) <= n / 2)
  }

  lemma KeepsTally(n: nat, s: State, step: Step, r: int, oks: seq<bool>)
    requires IdInv(s) && Tally(n, s, r, oks) && Enabled(n, s, step)
    ensures Tally(n, After(n, s, step), r, oks + if step.Send? && step.r == r then [step.ok] else [])
  {
    hide IdInv, Tally, Enabled, After, Successes;
    assert oks + [] == oks;
    if step.Send? && step.r == r {
      SendKeepsTally(n, s, r, step.ok, oks);
    } else if step == Count(r) {
      CountKeepsTally(n, s, r, oks);
    } else {
      OtherKeepsTally(n, s, step, r, oks);
    }
  }

  lemma SendKeepsTally(n: nat, s: State, r: int, ok: bool, oks: seq<bool>)
    requires Tally(n, s, r, oks) && Enabled(n, s, Send(r, ok))
    ensures Tally(n, After(n, s, Send(r, ok)), r, oks + [ok])
  {
    hide Successes;
    assert (oks + [ok])[..|oks|] == oks;
  }

  lemma CountKeepsTally(n: nat, s: State, r: int, oks: seq<bool>)
    requires Tally(n, s, r, oks) && Enabled(n, s, Count(r))
    ensures Tally(n, After(n, s, Count(r)), r, oks)
  {
    assert oks[..|oks| - 1] == oks[..s.writers[r].next];
  }

  lemma OtherKeepsTally(n: nat, s: State, step: Step, r: int, oks: seq<bool>)
    requires IdInv(s) && Tally(n, s, r, oks) && Enabled(n, s, step)
    requires !(step.Send? && step.r == r) && step != Count(r)
    ensures Tally(n, After(n, s, step), r, oks)
  {
    hide Acked, Without, Add;
    assert Successes([]) == 0;
  }

  /** A write tries the OSDs of the osdmap one after another, and all of them before it waits or
      returns; it gives up exactly if no more than half of these sends went well. */
  lemma TriesAll(n: nat, run: seq<State>, steps: seq<Step>, i: nat, r: int)
    requires Run(n, run, steps) && i < |run|
    ensures forall k: nat :: Message(r, k) in run[i].sent <==> k < |Sends(steps[..i], r)| && Sends(steps[..i], r)[k]
    ensures r in run[i].writers && (run[i].writers[r].Waiting? || run[i].writers[r].Done?) ==> |Sends(steps[..i], r)| == n
    ensures r in run[i].writers && run[i].writers[r].Done? ==>
      (run[i].writers[r].code == ERR_NOT_ENOUGH_SERVER <==> Successes(Sends(steps[..i], r)) <= n / 2)
    ensures WaitsFor(run[i], r) ==> Successes(Sends(steps[..i], r)) > n / 2
    ensures i < |steps| && steps[i].Send? && steps[i].r == r ==>
      r in run[i].writers && run[i].writers[r] == Sending(|Sends(steps[..i], r)|, Successes(Sends(steps[..i], r)))
  {
    RunTally(n, run, steps, i, r);
    if i < |steps| && steps[i].Send? && steps[i].r == r {
      assert Enabled(n, run[i], steps[i]);
    }
    hide Run, Sends, Successes;
  }

  lemma {:induction false} RunTally(n: nat, run: seq<State>, steps: seq<Step>, i: nat, r: int)
    requires Run(n, run, steps) && i < |run|
    ensures Tally(n, run[i], r, Sends(steps[..i], r))
  {
    hide Enabled, After, Inv, IdInv, Successes;
    if i > 0 {
      RunTally(n, run, steps, i - 1, r);
      IdsKnown(n, run, steps, i - 1);
      KeepsTally(n, run[i - 1], steps[i - 1], r, Sends(steps[..i - 1], r));
      assert steps[..i][..i - 1] == steps[..i - 1];
    }
  }

  /** However the sends come out, there is a run in which they do, and its write then waits or gives
      up by the majority of them. */
  lemma EveryOutcome(n: nat, oks: seq<bool>) returns (run: seq<State>, steps: seq<Step>)
    requires |oks| == n
    ensures Run(n, run, steps) && Sends(steps, 1) == oks
    ensures 1 in run[|steps|].writers
    ensures run[|steps|].writers[1] == if Successes(oks) > n / 2 then Waiting else Done(ERR_NOT_ENOUGH_SERVER)
  {
    hide Run, Enabled, After, Sends, Successes;
    var s;
    run, steps, s := SomeTried(n, oks, n);
    assert oks[..n] == oks;
    var last := if Successes(oks) > n / 2 then StartWait(1) else GiveUp(1);
    LastStep(n, s, Successes(oks));
    run, steps := NoSend(n, run, steps, s, last);
  }

  lemma LastStep(n: nat, s: State, success: nat)
    requires 1 in s.writers && s.writers[1] == Sending(n, success)
    ensures var last := if success > n / 2 then StartWait(1) else GiveUp(1);
      Enabled(n, s, last) && 1 in After(n, s, last).writers
      && After(n, s, last).writers[1] == if success > n / 2 then Waiting else Done(ERR_NOT_ENOUGH_SERVER)
  {}

  /** The run goes on by one step that is not a send. */
  lemma NoSend(n: nat, run: seq<State>, steps: seq<Step>, s: State, step: Step)
    returns (run': seq<State>, steps': seq<Step>)
    requires Leads(n, run, steps, s) && Enabled(n, s, step) && !step.Send?
    ensures Leads(n, run', steps', After(n, s, step)) && Sends(steps', 1) == Sends(steps, 1)
  {
    hide Enabled, After;
    run', steps' := GoesOn(n, run, steps, s, step, After(n, s, step));
    assert steps'[..|steps|] == steps;
  }

  lemma {:induction false} SomeTried(n: nat, oks: seq<bool>, k: nat)
    returns (run: seq<State>, steps: seq<Step>, s: State)
    requires k <= |oks| == n
    ensures Leads(n, run, steps, s) && Sends(steps, 1) == oks[..k]
    ensures 1 in s.writers && s.writers[1] == Sending(k, Successes(oks[..k]))
    decreases k
  {
    hide Run, Leads, Add, Sends;
    if k == 0 {
      run, steps, s := OneBegins(n);
    } else {
      run, steps, s := SomeTried(n, oks, k - 1);
      assert oks[..k][..k - 1] == oks[..k - 1];
      run, steps, s := OneMore(n, run, steps, s, oks[k - 1]);
      assert oks[..k - 1] + [oks[k - 1]] == oks[..k];
    }
  }

  lemma OneBegins(n: nat) returns (run: seq<State>, steps: seq<Step>, s: State)
    ensures Leads(n, run, steps, s) && Sends(steps, 1) == [] && s.writers == map[1 := Sending(0, 0)]
  {
    hide Add;
    var s0 := State(0, map[], [], {}, {}, {}, {}, {}, {}, {});
    run, steps := NoSend(n, [s0], [], s0, TakeId);
    s := After(n, s0, TakeId);
    run, steps := NoSend(n, run, steps, s, AddEntry(1));
    s := After(n, s, AddEntry(1));
  }

  lemma OneMore(n: nat, run0: seq<State>, steps0: seq<Step>, s0: State, ok: bool)
    returns (run: seq<State>, steps: seq<Step>, s: State)
    requires Leads(n, run0, steps0, s0) && 1 in s0.writers && s0.writers[1].Sending? && s0.writers[1].next < n
    ensures Leads(n, run, steps, s) && Sends(steps, 1) == Sends(steps0, 1) + [ok] && 1 in s.writers
    ensures s.writers[1] == Sending(s0.writers[1].next + 1, s0.writers[1].success + if ok then 1 else 0)
  {
    hide Run, Leads;
    s := After(n, s0, Send(1, ok));
    run, steps := GoesOn(n, run0, steps0, s0, Send(1, ok), s);
    assert steps[..|steps0|] == steps0;
    run, steps := NoSend(n, run, steps, s, Count(1));
    s := After(n, s, Count(1));
  }

  /** What can become of a request that was sent. */
  datatype Fate = NeverHandled | AckLost | Answered

  ghost predicate Met(s: State, m: Message, fate: Fate) {
    match fate
    case NeverHandled => m in s.lost && m !in s.handled
    case AckLost => m in s.lost && m in s.handled
    case Answered => m in s.counted + s.late && m in s.handled
  }

  /** Each of these can become of every request under way, whatever else has happened, and an ack can
      get lost also after the OSD has sent it. */
  lemma EveryFate(n: nat, run: seq<State>, steps: seq<Step>, i: nat, m: Message, fate: Fate)
    requires Run(n, run, steps) && i < |run|
    requires m in run[i].requests || (m in run[i].acks && fate != NeverHandled)
    ensures exists more :: CanTake(n, run[i], more) && Met(Final(n, run[i], more), m, fate)
  {
    RunInv(n, run, steps, i);
    hide Run, ListInv, SentInv, WriterInv, IdInv, Acked;
    var s := run[i];
    if m in s.requests && fate == NeverHandled {
      var t := LastTake(n, s, LoseRequest(m));
    } else if m in s.requests && fate == AckLost {
      var t := LastTake(n, s, Handle(m, false));
    } else {
      var last := if fate == AckLost then LoseAck(m) else AckArrives(m);
      if m in s.acks {
        var t := LastTake(n, s, last);
      } else {
        var s' := After(n, s, Handle(m, true));
        var t := LastTake(n, s', last);
        assert CanTake(n, s, [Handle(m, true)] + t) && Final(n, s, [Handle(m, true)] + t) == Final(n, s', t) by {
          assert ([Handle(m, true)] + t)[1..] == t;
        }
      }
    }
  }

  lemma LastTake(n: nat, s: State, step: Step) returns (more: seq<Step>)
    requires Enabled(n, s, step)
    ensures more == [step] && CanTake(n, s, more) && Final(n, s, more) == After(n, s, step)
  {
    hide Enabled, After;
    more := [step];
    assert CanTake(n, After(n, s, step), []);
  }

  // ---- a missed signal ----

  /** The run goes on by the steps, which leads to the given state. */
  ghost predicate Leads(n: nat, run: seq<State>, steps: seq<Step>, last: State) {
    Run(n, run, steps) && run[|steps|] == last
  }

  lemma GoesOn(n: nat, run: seq<State>, steps: seq<Step>, s: State, step: Step, s': State)
    returns (run': seq<State>, steps': seq<Step>)
    requires Leads(n, run, steps, s) && Enabled(n, s, step) && After(n, s, step) == s'
    ensures Leads(n, run', steps', s') && steps' == steps + [step]
  {
    hide Enabled, After, Init;
    run', steps' := run + [s'], steps + [step];
  }

  /** With one OSD and two writers: a run comes to a state where the writer of request 2 waits and
      the ack that makes its majority arrives, and with the duplicate check it is not signalled. */
  lemma MissedSignal() returns (run: seq<State>, steps: seq<Step>)
    ensures Run(1, run, steps)
    ensures var s := run[|steps|];
      && WaitsFor(s, 2) && Message(2, 0) in s.acks && !Signals(s.list, 2, true)
      && Enabled(1, After(1, s, AckArrives(Message(2, 0))), Finish(2))
  {
    var s;
    run, steps, s := TwoWriters();
    run, steps, s := OneWaits(run, steps, s);
    MissedAt(s);
  }

  /** With the duplicate check off the signal comes exactly when the waiting writer can return.
      With it on, the last entry of the list decides. */
  lemma SignalWakes(n: nat, run: seq<State>, steps: seq<Step>, i: nat, m: Message)
    requires Run(n, run, steps) && i < |steps| && steps[i] == AckArrives(m) && WaitsFor(run[i], m.reqId)
    ensures Signals(run[i].list, m.reqId, false) <==> Enabled(n, run[i + 1], Finish(m.reqId))
    ensures var l := run[i + 1].list;
      l != [] && (Signals(run[i].list, m.reqId, true) <==> 2 * l[|l| - 1].ackCount > l[|l| - 1].reqCount)
  {
    RunInv(n, run, steps, i);
    assert run[i + 1] == After(n, run[i], steps[i]);
    hide Run, FlowInv, SentInv, WriterInv;
    WakesNow(n, run[i], m);
  }

  lemma WakesNow(n: nat, s: State, m: Message)
    requires ListInv(n, s) && WaitsFor(s, m.reqId) && m in s.acks
    ensures var s' := After(n, s, AckArrives(m)); var l := s'.list;
      && (Signals(s.list, m.reqId, false) <==> Enabled(n, s', Finish(m.reqId)))
      && l != [] && (Signals(s.list, m.reqId, true) <==> 2 * l[|l| - 1].ackCount > l[|l| - 1].reqCount)
  {
    AckedEntries(s.list, m.reqId, m.reqId);
    assert EntryOf(s.list, m.reqId) == Entry(m.reqId, n, |Of(s.counted, m.reqId)|, 0);
  }

  lemma TwoWriters() returns (run: seq<State>, steps: seq<Step>, s: State)
    ensures Leads(1, run, steps, s)
    ensures s == State(2, map[1 := Sending(0, 0), 2 := Sending(0, 0)],
      [Entry(2, 1, 0, 0), Entry(1, 1, 0, 0)], {}, {}, {}, {}, {}, {}, {})
  {
    var s0 := State(0, map[], [], {}, {}, {}, {}, {}, {}, {});
    run, steps := [s0], [];
    var s1 := s0.(lastReqId := 1, writers := map[1 := Created]);
    run, steps := GoesOn(1, run, steps, s0, TakeId, s1);
    var s2 := s0.(lastReqId := 2, writers := map[1 := Created, 2 := Created]);
    run, steps := GoesOn(1, run, steps, s1, TakeId, s2);
    hide Run;
    var s3 := s2.(writers := map[1 := Sending(0, 0), 2 := Created], list := [Entry(1, 1, 0, 0)]);
    run, steps := GoesOn(1, run, steps, s2, AddEntry(1), s3);
    s := s3.(writers := map[1 := Sending(0, 0), 2 := Sending(0, 0)], list := [Entry(2, 1, 0, 0), Entry(1, 1, 0, 0)]);
    run, steps := GoesOn(1, run, steps, s3, AddEntry(2), s);
  }

  lemma OneWaits(run0: seq<State>, steps0: seq<Step>, s0: State) returns (run: seq<State>, steps: seq<Step>, s: State)
    requires Leads(1, run0, steps0, s0) && s0.requests == s0.acks == s0.handled == s0.sent == {}
    requires s0.writers == map[1 := Sending(0, 0), 2 := Sending(0, 0)]
    ensures Leads(1, run, steps, s) && s.list == s0.list && WaitsFor(s, 2) && Message(2, 0) in s.acks
  {
    hide Run;
    var m := Message(2, 0);
    var s1 := s0.(writers := map[1 := Sending(0, 0), 2 := Tried(0, 0, true)], requests := {m}, sent := {m});
    run, steps := GoesOn(1, run0, steps0, s0, Send(2, true), s1);
    var s2 := s1.(writers := map[1 := Sending(0, 0), 2 := Sending(1, 1)]);
    run, steps := GoesOn(1, run, steps, s1, Count(2), s2);
    var s3 := s2.(writers := map[1 := Sending(0, 0), 2 := Waiting]);
    run, steps := GoesOn(1, run, steps, s2, StartWait(2), s3);
    s := s3.(requests := {}, acks := {m}, handled := {m});
    run, steps := GoesOn(1, run, steps, s3, Handle(m, true), s);
  }

  lemma MissedAt(s: State)
    requires s.list == [Entry(2, 1, 0, 0), Entry(1, 1, 0, 0)] && WaitsFor(s, 2) && Message(2, 0) in s.acks
    ensures !Signals(s.list, 2, true)
    ensures Enabled(1, After(1, s, AckArrives(Message(2, 0))), Finish(2))
  {}

  // ---- when a waiting write can still finish ----

  ghost predicate CanTake(n: nat, s: State, steps: seq<Step>)
    decreases |steps|
  {
    steps == [] || (Enabled(n, s, steps[0]) && CanTake(n, After(n, s, steps[0]), steps[1..]))
  }

  ghost function Final(n: nat, s: State, steps: seq<Step>): State
    requires CanTake(n, s, steps)
    decreases |steps|
  {
    if steps == [] then s else Final(n, After(n, s, steps[0]), steps[1..])
  }

  /** Enough of the messages that were sent are not lost. */
  ghost predicate EnoughLeft(n: nat, s: State, r: int) {
    |Of(s.sent, r)| - |Of(s.lost, r)| > n / 2
  }

  ghost predicate WaitsFor(s: State, r: int) {
    r in s.writers && s.writers[r].Waiting?
  }

  /** A waiting write has some future in which it returns OK exactly if so many of its messages
      are not lost that they make a majority. */
  lemma CanFinish(n: nat, run: seq<State>, steps: seq<Step>, i: nat, r: int)
    requires Run(n, run, steps) && i < |run| && WaitsFor(run[i], r)
    ensures EnoughLeft(n, run[i], r) <==>
      exists more :: CanTake(n, run[i], more) && !WaitsFor(Final(n, run[i], more), r)
  {
    RunInv(n, run, steps, i);
    hide Run;
    if EnoughLeft(n, run[i], r) {
      var more := WayToFinish(n, run[i], r);
    } else {
      forall more | CanTake(n, run[i], more) ensures WaitsFor(Final(n, run[i], more), r) {
        Stuck(n, run[i], r, more);
      }
    }
  }

  /** What is still to come before the writer can finish. */
  ghost function Pending(s: State, r: int): nat {
    2 * |Of(s.requests, r)| + |Of(s.acks, r)|
  }

  ghost predicate CanStillFinish(n: nat, s: State, r: int) {
    Inv(n, s) && WaitsFor(s, r) && EnoughLeft(n, s, r)
  }

  lemma HandleNext(n: nat, s: State, r: int, m: Message)
    requires CanStillFinish(n, s, r) && m in Of(s.requests, r)
    ensures Enabled(n, s, Handle(m, true))
    ensures var s' := After(n, s, Handle(m, true)); CanStillFinish(n, s', r) && Pending(s', r) < Pending(s, r)
  {
    NextInv(n, s, Handle(m, true));
    hide ListInv, SentInv, WriterInv, IdInv;
    assert Of(s.requests - {m}, r) == Of(s.requests, r) - {m};
    OfAdd(s.acks, m, r);
  }

  lemma ArriveNext(n: nat, s: State, r: int, m: Message)
    requires CanStillFinish(n, s, r) && m in Of(s.acks, r)
    ensures Enabled(n, s, AckArrives(m))
    ensures var s' := After(n, s, AckArrives(m)); CanStillFinish(n, s', r) && Pending(s', r) < Pending(s, r)
  {
    NextInv(n, s, AckArrives(m));
    hide ListInv, SentInv, WriterInv, IdInv, FlowInv, Acked;
    assert Of(s.acks - {m}, r) == Of(s.acks, r) - {m};
  }

  lemma FinishNext(n: nat, s: State, r: int)
    requires CanStillFinish(n, s, r) && Of(s.requests, r) == Of(s.acks, r) == {}
    ensures Enabled(n, s, Finish(r))
  {
    LiveParts(n, s, r);
  }

  lemma {:induction false} WayToFinish(n: nat, s: State, r: int) returns (more: seq<Step>)
    requires CanStillFinish(n, s, r)
    ensures CanTake(n, s, more) && Final(n, s, more).writers.Keys >= {r} && Final(n, s, more).writers[r] == Done(OK)
    decreases Pending(s, r)
  {
    hide CanStillFinish, Enabled, Without, Pending;
    if m :| m in Of(s.requests, r) {
      HandleNext(n, s, r, m);
      more := WayToFinish(n, After(n, s, Handle(m, true)), r);
      more := [Handle(m, true)] + more;
    } else if m :| m in Of(s.acks, r) {
      ArriveNext(n, s, r, m);
      more := WayToFinish(n, After(n, s, AckArrives(m)), r);
      more := [AckArrives(m)] + more;
    } else {
      FinishNext(n, s, r);
      more := [Finish(r)];
      assert CanTake(n, After(n, s, Finish(r)), []);
    }
  }

  lemma {:induction false} Stuck(n: nat, s: State, r: int, more: seq<Step>)
    requires Inv(n, s) && WaitsFor(s, r) && !EnoughLeft(n, s, r) && CanTake(n, s, more)
    ensures WaitsFor(Final(n, s, more), r)
    decreases |more|
  {
    hide Enabled, After, EnoughLeft, WaitsFor;
    if more != [] {
      CannotFinish(n, s, r);
      StuckStep(n, s, r, more[0]);
      NextInv(n, s, more[0]);
      Stuck(n, After(n, s, more[0]), r, more[1..]);
    }
  }

  lemma CannotFinish(n: nat, s: State, r: int)
    requires Inv(n, s) && WaitsFor(s, r) && !EnoughLeft(n, s, r)
    ensures !Enabled(n, s, Finish(r))
  {
    LiveParts(n, s, r);
  }

  lemma StuckStep(n: nat, s: State, r: int, step: Step)
    requires IdInv(s) && WaitsFor(s, r) && !EnoughLeft(n, s, r) && Enabled(n, s, step) && step != Finish(r)
    ensures WaitsFor(After(n, s, step), r) && !EnoughLeft(n, After(n, s, step), r)
  {
    hide Acked, Without, Add;
    var s' := After(n, s, step);
    assert Of(s'.sent, r) == Of(s.sent, r);
    Subset(Of(s.lost, r), Of(s'.lost, r));
  }
}
