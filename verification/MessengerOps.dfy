/**
 What one operation of a thread does in the runs of Messenger: which connection it works on, how
 long it takes, whom it waits for, and when it closes a connection.
 */
module MessengerOps {
  import opened Options
  import opened Messenger

  /** The connection is the one that the operation was begun for. */
  ghost predicate Asked(x: Conn, a: Action, t: Tid) {
    match a
    case BeginSend(id) => x.id == id
    case BeginClose(id) => x.id == id
    case BeginLook(ByFd(fd)) => x.fd == fd
    case BeginLook(ByAddr(addr)) => x.addr == addr
    case BeginAdd(fd, addr) => x.fd == fd && x.addr == addr && x.adder == t
    case Go(_) => false
  }

  /** Thread `t` began `a` with event `j`, and has not returned in the states up to `i`. */
  ghost predicate Under(run: seq<State>, events: seq<Event>, j: nat, i: nat, t: Tid, a: Action) {
    && |run| == |events| + 1 && j < i < |run|
    && events[j] == Event(t, a) && t in run[j].pcs && run[j].pcs[t] == Idle
    && forall k :: j < k <= i ==> t in run[k].pcs && run[k].pcs[t] != Idle
  }

  ghost predicate NoneListed(s: State, t: Tid, a: Action) {
    forall c :: c in s.listed && c in s.conns ==> !Asked(s.conns[c], a, t)
  }

  ghost predicate SomeAsked(s: State, t: Tid, a: Action, id: nat) {
    exists c :: c in s.conns && s.conns[c].id == id && Asked(s.conns[c], a, t)
  }

  ghost predicate SomeListed(s: State, t: Tid, a: Action, id: nat) {
    exists c :: c in s.listed && c in s.conns && s.conns[c].id == id && Asked(s.conns[c], a, t)
  }

  /** The id is the one asked for, or that of a connection with the fd or address asked for. */
  ghost predicate IdAsked(s: State, t: Tid, a: Action, id: nat) {
    if a.BeginSend? || a.BeginClose? then a.id == id else SomeAsked(s, t, a, id)
  }

  /** Wherever the thread is, it works on what it was asked for, and what it has not found is not
      on the list. */
  ghost predicate OnAsked(s: State, t: Tid, a: Action)
    requires t in s.pcs
  {
    && (ConnOf(s.pcs[t]).Some? ==> ConnOf(s.pcs[t]).value in s.conns && Asked(s.conns[ConnOf(s.pcs[t]).value], a, t))
    && match s.pcs[t]
      case SendReadLock(id) => a == BeginSend(id)
      case SendFind(id) => a == BeginSend(id)
      case SendNotFound => a.BeginSend? && NoneListed(s, t, a)
      case CloseWriteLock(id) => IdAsked(s, t, a, id)
      case CloseFind(id) => IdAsked(s, t, a, id)
      case CloseNotFound => a.BeginSend? || a.BeginClose? ==> NoneListed(s, t, a)
      case LookReadLock(key) => a == BeginLook(key)
      case LookFind(key) => a == BeginLook(key)
      case LookReadUnlock(key, Some(id)) => a == BeginLook(key) && SomeListed(s, t, a, id)
      case LookReadUnlock(key, None) => a == BeginLook(key) && NoneListed(s, t, a)
      case _ => true
  }

  // ---- what a step leaves alone ----

  ghost predicate WasListed(s: State, c: Ptr) {
    c in s.listed || (c in s.conns && s.conns[c].closer.Some?)
  }

  ghost predicate SameConn(x: Conn, y: Conn) {
    x.id == y.id && x.fd == y.fd && x.addr == y.addr && x.adder == y.adder && (x.closer.Some? ==> y.closer.Some?)
  }

  /** Connections keep their id, fd and address; one that was taken off the list stays off. */
  ghost predicate Later(s: State, s': State) {
    && (forall c :: c in s.conns ==> c in s'.conns && SameConn(s.conns[c], s'.conns[c]))
    && (forall c :: WasListed(s, c) ==> WasListed(s', c))
  }

  lemma NextLater(s: State, u: Tid, b: Action, s': State)
    requires Next(s, u, b, s')
    ensures Later(s, s') && u in s.pcs && u in s'.pcs && s'.pcs == s.pcs[u := s'.pcs[u]]
  {
    hide GoOn, Begin;
    if s.pcs[u] == Idle {
      BeginLater(s, u, b, s');
    } else {
      GoLater(s, u, b.ok, s');
    }
  }

  lemma BeginLater(s: State, u: Tid, b: Action, s': State)
    requires u in s.pcs && Begin(s, u, b, s')
    ensures Later(s, s') && u in s'.pcs && s'.pcs == s.pcs[u := s'.pcs[u]]
  {}

  lemma GoLater(s: State, u: Tid, ok: bool, s': State)
    requires u in s.pcs && GoOn(s, u, ok, s')
    ensures Later(s, s') && u in s'.pcs && s'.pcs == s.pcs[u := s'.pcs[u]]
  {
    hide GoOn, After, Passes, Later;
    if ReadPc(s.pcs[u]) {
      ReadPasses(s, u, ok, s');
      PassLater(s, u, s');
    } else if WritePc(s.pcs[u]) {
      WritePasses(s, u, ok, s');
      PassLater(s, u, s');
    } else {
      ChangeLater(s, u, ok, s');
    }
  }

  lemma PassLater(s: State, u: Tid, s': State)
    requires Passes(s, u, s')
    ensures Later(s, s') && u in s'.pcs && s'.pcs == s.pcs[u := s'.pcs[u]]
  {}

  lemma ChangeLater(s: State, u: Tid, ok: bool, s': State)
    requires u in s.pcs && !ReadPc(s.pcs[u]) && !WritePc(s.pcs[u]) && GoOn(s, u, ok, s')
    ensures Later(s, s') && u in s'.pcs && s'.pcs == s.pcs[u := s'.pcs[u]]
  {}

  /** While a thread holds the list's lock no other thread changes the list. */
  lemma ListStays(s: State, u: Tid, b: Action, s': State, t: Tid)
    requires ListLockInv(s) && Next(s, u, b, s') && t in s.pcs && t != u && (HoldsRead(s.pcs[t]) || HoldsWrite(s.pcs[t]))
    ensures s'.listed == s.listed
  {
    hide GoOn, Begin, After, Passes;
    if s.pcs[u] == Idle {
      BeginList(s, u, b, s');
    } else if ReadPc(s.pcs[u]) {
      ReadPasses(s, u, b.ok, s');
      PassList(s, u, s');
    } else if WritePc(s.pcs[u]) {
      WritePasses(s, u, b.ok, s');
      PassList(s, u, s');
    } else {
      ChangeList(s, u, b.ok, s');
    }
  }

  lemma BeginList(s: State, u: Tid, b: Action, s': State)
    requires Begin(s, u, b, s')
    ensures s'.listed == s.listed
  {}

  lemma PassList(s: State, u: Tid, s': State)
    requires Passes(s, u, s')
    ensures s'.listed == s.listed
  {}

  lemma ChangeList(s: State, u: Tid, ok: bool, s': State)
    requires u in s.pcs && !ReadPc(s.pcs[u]) && !WritePc(s.pcs[u]) && !HoldsWrite(s.pcs[u]) && GoOn(s, u, ok, s')
    ensures s'.listed == s.listed
  {}

  // ---- an operation works on what it was begun for ----

  lemma BeginAsked(s: State, t: Tid, a: Action, s': State)
    requires t in s.pcs && Begin(s, t, a, s')
    ensures t in s'.pcs && OnAsked(s', t, a)
  {}

  /** A step of another thread. */
  lemma OtherAsked(s: State, u: Tid, b: Action, s': State, t: Tid, a: Action)
    requires Inv(s) && Next(s, u, b, s') && t in s.pcs && t != u && OnAsked(s, t, a)
    ensures t in s'.pcs && OnAsked(s', t, a)
  {
    hide MutexInv, CloserInv, AdderInv, FoundInv, ReturnInv, ApartInv, Next;
    NextLater(s, u, b, s');
    if HoldsRead(s.pcs[t]) || HoldsWrite(s.pcs[t]) {
      ListStays(s, u, b, s', t);
    }
    hide ListLockInv;
  }

  /** What a lookup by id finds. */
  lemma FoundById(s: State, t: Tid, ok: bool, s': State, id: nat)
    requires t in s.pcs && (s.pcs[t] == SendFind(id) || s.pcs[t] == CloseFind(id)) && GoOn(s, t, ok, s')
    ensures t in s'.pcs && s' == To(s, t, s'.pcs[t])
    ensures var pc := s'.pcs[t];
      if pc.SendNotFound? || pc.CloseNotFound? then forall c :: c in s.listed && c in s.conns ==> s.conns[c].id != id
      else (pc.SendMutex? || pc.CloseUnlist?) && pc.c in s.listed && pc.c in s.conns && s.conns[pc.c].id == id
    ensures s.pcs[t].SendFind? <==> s'.pcs[t].SendNotFound? || s'.pcs[t].SendMutex?
  {
    assert forall c :: c in s.listed && c in s.conns && s.conns[c].id == id ==> HasId(s, c, id);
  }

  lemma FindAsked(s: State, t: Tid, ok: bool, s': State, a: Action, id: nat)
    requires ApartInv(s) && t in s.pcs && (s.pcs[t] == SendFind(id) || s.pcs[t] == CloseFind(id))
    requires GoOn(s, t, ok, s') && OnAsked(s, t, a)
    ensures t in s'.pcs && OnAsked(s', t, a)
  {
    hide GoOn, After;
    FoundById(s, t, ok, s', id);
  }

  lemma LookAsked(s: State, t: Tid, ok: bool, s': State, a: Action)
    requires t in s.pcs && s.pcs[t].LookFind? && GoOn(s, t, ok, s') && OnAsked(s, t, a)
    ensures t in s'.pcs && OnAsked(s', t, a)
  {
    var key := s.pcs[t].key;
    assert forall c :: c in s.listed && c in s.conns && Asked(s.conns[c], a, t) ==> HasKey(s, c, key);
  }

  /** A thread goes on to close a connection that it was asked for. */
  lemma ToClose(s: State, t: Tid, a: Action)
    ensures forall c :: c in s.conns && Asked(s.conns[c], a, t) ==> IdAsked(s, t, a, s.conns[c].id)
    ensures forall id :: SomeListed(s, t, a, id) ==> IdAsked(s, t, a, id)
  {}

  lemma PassAsked(s: State, t: Tid, ok: bool, s': State, a: Action)
    requires t in s.pcs && (ReadPc(s.pcs[t]) || WritePc(s.pcs[t])) && GoOn(s, t, ok, s') && OnAsked(s, t, a)
    requires !s.pcs[t].SendFind? && !s.pcs[t].CloseFind? && !s.pcs[t].LookFind?
    ensures t in s'.pcs && (s'.pcs[t] != Idle ==> OnAsked(s', t, a))
  {
    hide ReadPc, WritePc, GoOn, OnAsked, After;
    if s.pcs[t].LookReadUnlock? || s.pcs[t].AddReturn? {
      ReturnAsked(s, t, ok, s', a);
    } else {
      LockAsked(s, t, ok, s', a);
    }
  }

  lemma ReturnAsked(s: State, t: Tid, ok: bool, s': State, a: Action)
    requires t in s.pcs && (s.pcs[t].LookReadUnlock? || s.pcs[t].AddReturn?) && GoOn(s, t, ok, s') && OnAsked(s, t, a)
    ensures t in s'.pcs && (s'.pcs[t] != Idle ==> OnAsked(s', t, a))
  {
    hide SomeListed, NoneListed, IdAsked, Asked;
    ToClose(s, t, a);
    SameAsked(s, s', t, a);
  }

  lemma LockAsked(s: State, t: Tid, ok: bool, s': State, a: Action)
    requires t in s.pcs && (ReadPc(s.pcs[t]) || WritePc(s.pcs[t])) && GoOn(s, t, ok, s') && OnAsked(s, t, a)
    requires !s.pcs[t].SendFind? && !s.pcs[t].CloseFind? && !s.pcs[t].LookFind? && !s.pcs[t].LookReadUnlock? && !s.pcs[t].AddReturn?
    ensures t in s'.pcs && (s'.pcs[t] != Idle ==> OnAsked(s', t, a))
  {
    hide SomeListed, NoneListed, IdAsked, Asked;
    SameAsked(s, s', t, a);
  }

  /** With the same connections the same ids are asked for. */
  lemma SameAsked(s: State, s': State, t: Tid, a: Action)
    ensures s'.conns == s.conns ==> forall id :: IdAsked(s, t, a, id) ==> IdAsked(s', t, a, id)
  {}

  /** A step of a sender or a closer on its connection, or on the list. */
  lemma StepsOn(s: State, t: Tid, ok: bool, s': State)
    requires t in s.pcs && (SendPc(s.pcs[t]) || ClosePc(s.pcs[t]) || ListPc(s.pcs[t])) && GoOn(s, t, ok, s')
    ensures t in s'.pcs && s.pcs[t].c in s.conns && s.pcs[t].c in s'.conns
    ensures SameConn(s.conns[s.pcs[t].c], s'.conns[s.pcs[t].c])
    ensures var c, pc := s.pcs[t].c, s'.pcs[t];
      || pc == Idle || (pc == CloseWriteLock(s.conns[c].id) && s.pcs[t] == SendUnlock(c, true))
      || pc == SendReadUnlock(c) || (pc.SendUnlock? && pc.c == c)
      || pc == CloseWriteUnlock(c) || pc == CloseFd(c) || pc == CloseUnlock(c) || pc == CloseFree(c) || pc == AddWriteUnlock(c)
  {}

  lemma ChangeAsked(s: State, t: Tid, ok: bool, s': State, a: Action)
    requires t in s.pcs && !ReadPc(s.pcs[t]) && !WritePc(s.pcs[t]) && GoOn(s, t, ok, s') && OnAsked(s, t, a)
    ensures t in s'.pcs && (s'.pcs[t] != Idle ==> OnAsked(s', t, a))
  {
    hide After, SomeListed, NoneListed, IdAsked;
    StepsOn(s, t, ok, s');
    assert Asked(s'.conns[s.pcs[t].c], a, t);
    ToClose(s', t, a);
  }

  lemma GoAsked(s: State, t: Tid, ok: bool, s': State, a: Action)
    requires ApartInv(s) && t in s.pcs && GoOn(s, t, ok, s') && OnAsked(s, t, a)
    ensures t in s'.pcs && (s'.pcs[t] != Idle ==> OnAsked(s', t, a))
  {
    hide ApartInv, GoOn, OnAsked, After;
    if s.pcs[t].SendFind? || s.pcs[t].CloseFind? {
      FindAsked(s, t, ok, s', a, s.pcs[t].id);
    } else if s.pcs[t].LookFind? {
      LookAsked(s, t, ok, s', a);
    } else if ReadPc(s.pcs[t]) || WritePc(s.pcs[t]) {
      PassAsked(s, t, ok, s', a);
    } else {
      ChangeAsked(s, t, ok, s', a);
    }
  }

  /** A send or a close works on the connection whose id was asked for, and reports that there is
      none only if none on the list has the id. A lookup gives the id of a listed connection with
      the fd or the address, and none only if none on the list has it. */
  lemma {:induction false} WorksOnAsked(run: seq<State>, events: seq<Event>, j: nat, i: nat, t: Tid, a: Action)
    requires Run(run, events) && Under(run, events, j, i, t, a)
    ensures OnAsked(run[i], t, a)
  {
    hide Init, ListLockInv, MutexInv, CloserInv, AdderInv, FoundInv, ReturnInv, ConnInv, ApartInv, OnAsked, Begin, GoOn;
    var k := i - 1;
    RunInv(run, events, k);
    RunStep(run, events, k);
    if k == j {
      BeginAsked(run[k], t, a, run[i]);
    } else {
      WorksOnAsked(run, events, j, k, t, a);
      if events[k].t == t {
        GoAsked(run[k], t, events[k].a.ok, run[i], a);
      } else {
        OtherAsked(run[k], events[k].t, events[k].a, run[i], t, a);
      }
    }
  }

  // ---- whom a thread waits for ----

  /** A thread at the first place keeps one at the second from going on. */
  ghost predicate Excludes(held: Pc, wanted: Pc) {
    match wanted
    case SendReadLock(_) => HoldsWrite(held)
    case LookReadLock(_) => HoldsWrite(held)
    case CloseWriteLock(_) => HoldsRead(held) || HoldsWrite(held)
    case AddWriteLock(_) => HoldsRead(held) || HoldsWrite(held)
    case SendMutex(c) => MutexOf(held) == Some(c)
    case CloseMutex(c) => MutexOf(held) == Some(c)
    case _ => false
  }

  /** A thread waits exactly while another one is where it holds the lock: readers of the list do
      not keep each other out. */
  lemma BlockedByHolder(run: seq<State>, events: seq<Event>, i: nat, t: Tid)
    requires Run(run, events) && i < |run| && t in run[i].pcs
    ensures Blocked(run[i], t) <==> exists u :: u in run[i].pcs && u != t && Excludes(run[i].pcs[u], run[i].pcs[t])
  {
    RunInv(run, events, i);
    hide Run;
    HolderBlocks(run[i], t);
  }

  lemma HolderBlocks(s: State, t: Tid)
    requires Inv(s) && t in s.pcs
    ensures Blocked(s, t) <==> exists u :: u in s.pcs && u != t && Excludes(s.pcs[u], s.pcs[t])
  {
    hide CloserInv, AdderInv, ReturnInv, ApartInv, MutexInv, ListLockInv, FoundInv, ConnInv;
    if s.pcs[t].SendMutex? || s.pcs[t].CloseMutex? {
      MutexBlocks(s, t);
    } else {
      ListBlocks(s, t);
    }
  }

  lemma MutexBlocks(s: State, t: Tid)
    requires Inv(s) && t in s.pcs && (s.pcs[t].SendMutex? || s.pcs[t].CloseMutex?)
    ensures Blocked(s, t) <==> exists u :: u in s.pcs && u != t && MutexOf(s.pcs[u]) == Some(s.pcs[t].c)
  {
    hide ListLockInv, AdderInv, ReturnInv, ApartInv;
    var c := s.pcs[t].c;
    assert c in s.conns && LockOk(s, c, s.conns[c].lock);
    if u :| u in s.pcs && MutexOf(s.pcs[u]) == Some(c) {
      assert HolderOk(s, u, MutexOf(s.pcs[u]));
    }
  }

  lemma ListBlocks(s: State, t: Tid)
    requires ListLockInv(s) && t in s.pcs && !s.pcs[t].SendMutex? && !s.pcs[t].CloseMutex?
    ensures Blocked(s, t) <==> exists u :: u in s.pcs && u != t && Excludes(s.pcs[u], s.pcs[t])
  {
    if Blocked(s, t) {
      if s.writer.Some? {
        assert Excludes(s.pcs[s.writer.value], s.pcs[t]);
      } else {
        var u :| u in s.readers;
        assert Excludes(s.pcs[u], s.pcs[t]);
      }
    }
  }

  // ---- how long an operation takes ----

  /** The steps that a thread has before it at most. */
  ghost function ToGo(pc: Pc): nat {
    match pc
    case Idle => 0
    case SendReadLock(_) => 14
    case SendFind(_) => 13
    case SendNotFound => 1
    case SendMutex(_) => 12
    case SendReadUnlock(_) => 11
    case SendWrite(_) => 10
    case SendUnlock(_, failed) => if failed then 9 else 1
    case CloseWriteLock(_) => 8
    case CloseFind(_) => 7
    case CloseNotFound => 1
    case CloseUnlist(_) => 6
    case CloseWriteUnlock(_) => 5
    case CloseMutex(_) => 4
    case CloseFd(_) => 3
    case CloseUnlock(_) => 2
    case CloseFree(_) => 1
    case LookReadLock(_) => 11
    case LookFind(_) => 10
    case LookReadUnlock(_, _) => 9
    case AddWriteLock(_) => 12
    case AddList(_) => 11
    case AddWriteUnlock(_) => 10
    case AddReturn(_) => 9
  }

  ghost function StepsOf(events: seq<Event>, t: Tid): nat {
    if events == [] then 0
    else var n := |events| - 1; StepsOf(events[..n], t) + if events[n].t == t then 1 else 0
  }

  lemma GoCosts(s: State, t: Tid, ok: bool, s': State)
    requires t in s.pcs && GoOn(s, t, ok, s')
    ensures t in s'.pcs && ToGo(s'.pcs[t]) < ToGo(s.pcs[t])
  {}

  lemma BeginCosts(s: State, t: Tid, a: Action, s': State)
    requires t in s.pcs && Begin(s, t, a, s')
    ensures t in s'.pcs && ToGo(s'.pcs[t]) <= if a.BeginSend? then 14 else if a.BeginAdd? then 12 else if a.BeginLook? then 11 else 8
  {}

  /** A send takes at most 14 steps of its thread, an add 12, a lookup 11 and a close 8. With
      NoDeadlock: threads that begin no more operations all return. */
  lemma {:induction false} OperationBound(run: seq<State>, events: seq<Event>, j: nat, i: nat, t: Tid, a: Action)
    requires Run(run, events) && Under(run, events, j, i, t, a)
    ensures StepsOf(events[j + 1..i], t) + ToGo(run[i].pcs[t]) <=
      if a.BeginSend? then 14 else if a.BeginAdd? then 12 else if a.BeginLook? then 11 else 8
  {
    hide Init, Begin, GoOn, ToGo;
    var k := i - 1;
    RunStep(run, events, k);
    if k == j {
      BeginCosts(run[k], t, a, run[i]);
    } else {
      OperationBound(run, events, j, k, t, a);
      assert events[j + 1..i][..k - j - 1] == events[j + 1..k] && events[j + 1..i][k - j - 1] == events[k];
      if events[k].t == t {
        GoCosts(run[k], t, events[k].a.ok, run[i]);
      } else {
        NextLater(run[k], events[k].t, events[k].a, run[i]);
      }
    }
  }

  // ---- when a connection is closed ----

  /** The step finds something wrong with the connection: a write fails, the event is an error, or
      the fd cannot be watched. */
  ghost predicate FailsOn(s: State, t: Tid, a: Action, c: Ptr) {
    t in s.pcs && c in s.conns && a == Go(false) && match s.pcs[t]
      case SendWrite(d) => d == c && !s.conns[c].sendFailed
      case LookReadUnlock(ByFd(_), Some(id)) => s.conns[c].id == id
      case AddReturn(d) => d == c
      case _ => false
  }

  /** The connections on which thread `t` failed after event `j` and before state `i`. */
  ghost function Failed(run: seq<State>, events: seq<Event>, j: nat, i: nat, t: Tid): set<Ptr>
    requires |run| == |events| + 1 && i < |run|
  {
    if i <= j + 1 then {}
    else
      var s, e := run[i - 1], events[i - 1];
      if e.t != t then Failed(run, events, j, i - 1, t)
      else Failed(run, events, j, i - 1, t) + set c | c in s.conns && FailsOn(s, t, e.a, c)
  }

  /** A closer was asked to close, or it failed on the connection that it closes. */
  ghost predicate ForCause(s: State, t: Tid, a: Action, failed: set<Ptr>)
    requires t in s.pcs
  {
    match s.pcs[t]
    case SendUnlock(c, true) => c in failed
    case CloseWriteLock(id) => a.BeginClose? || exists c :: c in failed && c in s.conns && s.conns[c].id == id
    case CloseFind(id) => a.BeginClose? || exists c :: c in failed && c in s.conns && s.conns[c].id == id
    case CloseUnlist(c) => a.BeginClose? || c in failed
    case _ => ClosingOf(s.pcs[t]).Some? ==> a.BeginClose? || ClosingOf(s.pcs[t]).value in failed
  }

  lemma BeginForCause(s: State, t: Tid, a: Action, s': State)
    requires t in s.pcs && Begin(s, t, a, s')
    ensures t in s'.pcs && ForCause(s', t, a, {})
  {}

  lemma OtherForCause(s: State, u: Tid, b: Action, s': State, t: Tid, a: Action, failed: set<Ptr>)
    requires Next(s, u, b, s') && t in s.pcs && t != u && ForCause(s, t, a, failed)
    ensures t in s'.pcs && ForCause(s', t, a, failed)
  {
    hide Next;
    NextLater(s, u, b, s');
  }

  lemma GoForCause(s: State, t: Tid, ok: bool, s': State, a: Action, failed: set<Ptr>)
    requires ApartInv(s) && t in s.pcs && GoOn(s, t, ok, s') && OnAsked(s, t, a) && ForCause(s, t, a, failed)
    ensures t in s'.pcs && ForCause(s', t, a, failed + set c | c in s.conns && FailsOn(s, t, Go(ok), c))
  {
    hide ApartInv, GoOn, OnAsked, After, ForCause, FailsOn;
    if s.pcs[t].SendFind? || s.pcs[t].CloseFind? {
      FindForCause(s, t, ok, s', a, failed);
    } else if s.pcs[t].LookReadUnlock? || s.pcs[t].AddReturn? {
      ReturnForCause(s, t, ok, s', a, failed);
    } else if ReadPc(s.pcs[t]) || WritePc(s.pcs[t]) {
      LockForCause(s, t, ok, s', a, failed);
    } else {
      ChangeForCause(s, t, ok, s', a, failed);
    }
  }

  lemma FindForCause(s: State, t: Tid, ok: bool, s': State, a: Action, failed: set<Ptr>)
    requires ApartInv(s) && t in s.pcs && GoOn(s, t, ok, s') && ForCause(s, t, a, failed)
    requires s.pcs[t].SendFind? || s.pcs[t].CloseFind?
    ensures t in s'.pcs && ForCause(s', t, a, failed + set c | c in s.conns && FailsOn(s, t, Go(ok), c))
  {
    hide GoOn, After;
    FoundById(s, t, ok, s', s.pcs[t].id);
  }

  lemma ReturnForCause(s: State, t: Tid, ok: bool, s': State, a: Action, failed: set<Ptr>)
    requires t in s.pcs && GoOn(s, t, ok, s') && OnAsked(s, t, a) && (s.pcs[t].LookReadUnlock? || s.pcs[t].AddReturn?)
    ensures t in s'.pcs && ForCause(s', t, a, failed + set c | c in s.conns && FailsOn(s, t, Go(ok), c))
  {
    hide NoneListed, Asked;
  }

  lemma LockForCause(s: State, t: Tid, ok: bool, s': State, a: Action, failed: set<Ptr>)
    requires t in s.pcs && GoOn(s, t, ok, s') && ForCause(s, t, a, failed) && (ReadPc(s.pcs[t]) || WritePc(s.pcs[t]))
    requires !s.pcs[t].SendFind? && !s.pcs[t].CloseFind? && !s.pcs[t].LookReadUnlock? && !s.pcs[t].AddReturn?
    ensures t in s'.pcs && ForCause(s', t, a, failed + set c | c in s.conns && FailsOn(s, t, Go(ok), c))
  {
    hide FailsOn;
  }

  lemma ChangeForCause(s: State, t: Tid, ok: bool, s': State, a: Action, failed: set<Ptr>)
    requires t in s.pcs && GoOn(s, t, ok, s') && ForCause(s, t, a, failed) && !ReadPc(s.pcs[t]) && !WritePc(s.pcs[t])
    ensures t in s'.pcs && ForCause(s', t, a, failed + set c | c in s.conns && FailsOn(s, t, Go(ok), c))
  {
    hide HasId, HasKey;
  }

  /** A connection is closed only by a thread that was asked to, or that has failed on it. */
  lemma {:induction false} ClosedForCause(run: seq<State>, events: seq<Event>, j: nat, i: nat, t: Tid, a: Action)
    requires Run(run, events) && Under(run, events, j, i, t, a)
    ensures ForCause(run[i], t, a, Failed(run, events, j, i, t))
  {
    hide Init, ListLockInv, MutexInv, CloserInv, AdderInv, FoundInv, ReturnInv, ConnInv, ApartInv, OnAsked, Begin, GoOn, ForCause, FailsOn;
    var k := i - 1;
    RunInv(run, events, k);
    RunStep(run, events, k);
    if k == j {
      BeginForCause(run[k], t, a, run[i]);
    } else {
      ClosedForCause(run, events, j, k, t, a);
      WorksOnAsked(run, events, j, k, t, a);
      if events[k].t == t {
        GoForCause(run[k], t, events[k].a.ok, run[i], a, Failed(run, events, j, k, t));
      } else {
        OtherForCause(run[k], events[k].t, events[k].a, run[i], t, a, Failed(run, events, j, k, t));
      }
    }
  }

  // ---- a failure takes the connection off the list ----

  /** A connection whose mutex a sender holds, or that its adder is still going to read, has been
      listed. */
  ghost predicate Used(s: State) {
    forall t :: t in s.pcs && (s.pcs[t].SendReadUnlock? || s.pcs[t].SendWrite? || s.pcs[t].SendUnlock? || s.pcs[t].AddReturn?) ==>
      WasListed(s, s.pcs[t].c)
  }

  lemma KeepsUsed(s: State, u: Tid, b: Action, s': State)
    requires FoundInv(s) && Used(s) && Next(s, u, b, s')
    ensures Used(s')
  {
    hide Next, GoOn, Begin, After;
    NextLater(s, u, b, s');
    OwnUse(s, u, b, s');
  }

  lemma OwnUse(s: State, u: Tid, b: Action, s': State)
    requires FoundInv(s) && Used(s) && Next(s, u, b, s')
    ensures u in s'.pcs
    ensures var pc := s'.pcs[u];
      pc.SendReadUnlock? || pc.SendWrite? || pc.SendUnlock? || pc.AddReturn? ==> WasListed(s, pc.c)
  {
    hide GoOn, After;
    if s.pcs[u] != Idle {
      UseFrom(s, u, b.ok, s');
    }
  }

  lemma UseFrom(s: State, u: Tid, ok: bool, s': State)
    requires u in s.pcs && GoOn(s, u, ok, s')
    ensures u in s'.pcs
    ensures var pc, pc' := s.pcs[u], s'.pcs[u];
      && (pc'.SendReadUnlock? ==> pc == SendMutex(pc'.c)) && (pc'.SendWrite? ==> pc == SendReadUnlock(pc'.c))
      && (pc'.SendUnlock? ==> pc == SendWrite(pc'.c)) && (pc'.AddReturn? ==> pc == AddWriteUnlock(pc'.c))
  {
    hide HasId, HasKey;
  }

  lemma {:induction false} RunUsed(run: seq<State>, events: seq<Event>, i: nat)
    requires Run(run, events) && i < |run|
    ensures Used(run[i])
  {
    hide Next, ListLockInv, MutexInv, CloserInv, AdderInv, ReturnInv, ConnInv, ApartInv;
    if i > 0 {
      RunUsed(run, events, i - 1);
      RunInv(run, events, i - 1);
      KeepsUsed(run[i - 1], events[i - 1].t, events[i - 1].a, run[i]);
    }
  }

  /** The connection is off the list, or the thread is on its way to take it off. */
  ghost predicate Doomed(s: State, t: Tid, c: Ptr) {
    t in s.pcs && c in s.conns && WasListed(s, c) && (s.conns[c].closer.Some? || match s.pcs[t]
      case SendUnlock(d, true) => d == c
      case CloseWriteLock(id) => s.conns[c].id == id
      case CloseFind(id) => s.conns[c].id == id
      case CloseUnlist(d) => d == c
      case _ => false)
  }

  lemma FailsThenDoomed(s: State, t: Tid, a: Action, s': State, c: Ptr)
    requires Next(s, t, a, s') && FailsOn(s, t, a, c) && WasListed(s, c)
    ensures Doomed(s', t, c)
  {
    NextLater(s, t, a, s');
  }

  lemma KeepsDoomed(s: State, u: Tid, b: Action, s': State, t: Tid, c: Ptr)
    requires ApartInv(s) && Next(s, u, b, s') && Doomed(s, t, c)
    ensures Doomed(s', t, c)
  {
    hide ApartInv, Next, Doomed;
    if u == t && OnWay(s, t, c) {
      OwnDoomed(s, t, b, s', c);
    } else {
      OtherDoomed(s, u, b, s', t, c);
    }
  }

  ghost predicate OnWay(s: State, t: Tid, c: Ptr) {
    c in s.conns && s.conns[c].closer.None?
  }

  lemma OtherDoomed(s: State, u: Tid, b: Action, s': State, t: Tid, c: Ptr)
    requires Next(s, u, b, s') && Doomed(s, t, c) && (u != t || !OnWay(s, t, c))
    ensures Doomed(s', t, c)
  {
    hide Next;
    NextLater(s, u, b, s');
  }

  lemma OwnDoomed(s: State, t: Tid, b: Action, s': State, c: Ptr)
    requires ApartInv(s) && Next(s, t, b, s') && Doomed(s, t, c) && OnWay(s, t, c)
    ensures Doomed(s', t, c)
  {
    hide GoOn, Begin;
    NextLater(s, t, b, s');
    if s.pcs[t].CloseFind? {
      FoundById(s, t, b.ok, s', s.pcs[t].id);
    } else {
      WayOn(s, t, b.ok, s', c);
    }
  }

  lemma WayOn(s: State, t: Tid, ok: bool, s': State, c: Ptr)
    requires t in s.pcs && GoOn(s, t, ok, s') && Doomed(s, t, c) && OnWay(s, t, c) && !s.pcs[t].CloseFind?
    ensures t in s'.pcs && c in s'.conns
    ensures s'.pcs[t] == CloseWriteLock(s.conns[c].id) || s'.pcs[t] == CloseFind(s.conns[c].id) || s'.conns[c].closer.Some?
  {}

  /** A thread that has failed on a connection returns only when the connection is off the list. */
  lemma FailureUnlists(run: seq<State>, events: seq<Event>, j: nat, k: nat, i: nat, t: Tid, a: Action, c: Ptr)
    requires Run(run, events) && Under(run, events, j, k, t, a) && k < i < |run|
    requires events[k].t == t && FailsOn(run[k], t, events[k].a, c) && t in run[i].pcs && run[i].pcs[t] == Idle
    ensures c in run[i].conns && run[i].conns[c].closer.Some? && c !in run[i].listed
  {
    hide Next, OnAsked, FailsOn, ListLockInv, MutexInv, CloserInv, AdderInv, ReturnInv, ApartInv, FoundInv;
    RunInv(run, events, k);
    WorksOnAsked(run, events, j, k, t, a);
    RunUsed(run, events, k);
    FailedListed(run[k], t, a, events[k].a, c);
    RunStep(run, events, k);
    FailsThenDoomed(run[k], t, events[k].a, run[k + 1], c);
    RunDoomed(run, events, k + 1, i, t, c);
    RunInv(run, events, i);
  }

  lemma FailedListed(s: State, t: Tid, a: Action, b: Action, c: Ptr)
    requires ApartInv(s) && Used(s) && t in s.pcs && OnAsked(s, t, a) && FailsOn(s, t, b, c)
    ensures WasListed(s, c)
  {}

  lemma {:induction false} RunDoomed(run: seq<State>, events: seq<Event>, k: nat, i: nat, t: Tid, c: Ptr)
    requires Run(run, events) && k <= i < |run| && Doomed(run[k], t, c)
    ensures Doomed(run[i], t, c)
    decreases i
  {
    hide Next, Init, Doomed, ListLockInv, MutexInv, CloserInv, AdderInv, FoundInv, ReturnInv, ConnInv, ApartInv;
    if k < i {
      RunDoomed(run, events, k, i - 1, t, c);
      RunInv(run, events, i - 1);
      KeepsDoomed(run[i - 1], events[i - 1].t, events[i - 1].a, run[i], t, c);
    }
  }

  // ---- the closed mark ----

  ghost predicate WriteFails(s: State, u: Tid, b: Action, c: Ptr) {
    u in s.pcs && s.pcs[u] == SendWrite(c) && b == Go(false)
  }

  /** A connection is marked closed exactly from the first write to it that fails. */
  lemma {:induction false} MarkedByFailure(run: seq<State>, events: seq<Event>, i: nat, c: Ptr)
    requires Run(run, events) && i < |run| && c in run[i].conns
    ensures run[i].conns[c].sendFailed <==> exists k :: 0 <= k < i && WriteFails(run[k], events[k].t, events[k].a, c)
  {
    hide Next, ListLockInv, CloserInv, AdderInv, FoundInv, ReturnInv, ConnInv, ApartInv, MutexInv, WriteFails;
    if i > 0 {
      var k := i - 1;
      RunInv(run, events, k);
      if c in run[k].conns {
        MarkedByFailure(run, events, k, c);
      } else {
        NoneBefore(run, events, k, c);
      }
      MarkNext(run[k], events[k].t, events[k].a, run[i], c);
    }
  }

  lemma MarkNext(s: State, u: Tid, b: Action, s': State, c: Ptr)
    requires Inv(s) && Next(s, u, b, s') && c in s'.conns
    ensures s'.conns[c].sendFailed <==> (c in s.conns && s.conns[c].sendFailed) || WriteFails(s, u, b, c)
  {
    hide ListLockInv, CloserInv, AdderInv, FoundInv, ReturnInv, ConnInv, ApartInv, MutexInv, HasId, HasKey;
    if WriteFails(s, u, b, c) {
      WritesThere(s, u, c);
    }
  }

  lemma WritesThere(s: State, u: Tid, c: Ptr)
    requires Inv(s) && u in s.pcs && s.pcs[u] == SendWrite(c)
    ensures c in s.conns
  {
    hide ListLockInv, CloserInv, AdderInv, FoundInv, ReturnInv, ConnInv, ApartInv;
    assert HolderOk(s, u, MutexOf(s.pcs[u]));
  }

  /** Nothing was written to a connection before it was made. */
  lemma {:induction false} NoneBefore(run: seq<State>, events: seq<Event>, i: nat, c: Ptr)
    requires Run(run, events) && i < |run| && c !in run[i].conns
    ensures forall k :: 0 <= k < i ==> !WriteFails(run[k], events[k].t, events[k].a, c)
  {
    hide Next, Inv, Later, WriteFails;
    if i > 0 {
      NextLater(run[i - 1], events[i - 1].t, events[i - 1].a, run[i]);
      NotYet(run[i - 1], events[i - 1].t, events[i - 1].a, run[i], c);
      NoneBefore(run, events, i - 1, c);
      RunInv(run, events, i - 1);
      NoWrite(run[i - 1], events[i - 1].t, events[i - 1].a, c);
    }
  }

  lemma NotYet(s: State, u: Tid, b: Action, s': State, c: Ptr)
    requires Later(s, s') && c !in s'.conns
    ensures c !in s.conns
  {}

  lemma NoWrite(s: State, u: Tid, b: Action, c: Ptr)
    requires Inv(s) && c !in s.conns
    ensures !WriteFails(s, u, b, c)
  {
    hide Inv;
    if WriteFails(s, u, b, c) {
      WritesThere(s, u, c);
    }
  }

  // ---- what is possible ----

  lemma {:induction false} FreshPtr(ptrs: set<Ptr>) returns (c: Ptr)
    ensures forall d :: d in ptrs ==> d < c
  {
    if ptrs == {} {
      c := 0;
    } else {
      var d :| d in ptrs;
      var more := FreshPtr(ptrs - {d});
      c := if more <= d then d + 1 else more;
      assert forall e :: e in ptrs ==> e == d || e in ptrs - {d};
    }
  }

  /** An idle thread can begin whatever it likes, with any id, fd or address, and a thread that is
      not kept waiting can go on with either outcome. */
  lemma AnythingGoes(run: seq<State>, events: seq<Event>, i: nat, t: Tid, a: Action)
    requires Run(run, events) && i < |run| && t in run[i].pcs
    requires if run[i].pcs[t] == Idle then !a.Go? && (a.BeginAdd? ==> a.fd !in run[i].openFds) else a.Go? && !Blocked(run[i], t)
    ensures exists s' :: Next(run[i], t, a, s')
  {
    RunInv(run, events, i);
    hide Run, Inv, Blocked, After;
    var s := run[i];
    if s.pcs[t] == Idle {
      var c := FreshPtr(s.conns.Keys);
      assert c !in s.conns;
      var s' := match a
        case BeginSend(id) => To(s, t, SendReadLock(id))
        case BeginClose(id) => To(s, t, CloseWriteLock(id))
        case BeginLook(key) => To(s, t, LookReadLock(key))
        case BeginAdd(fd, addr) => NewConn(s, t, c, fd, addr)
        case Go(_) => s;
      assert Next(s, t, a, s');
    } else {
      CanGoOn(s, t, a.ok);
      assert Next(s, t, a, After(s, t, a.ok));
    }
  }
}
