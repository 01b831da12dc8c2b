/**
 The life of connections in message/messenger.c: threads that send, close, look up events and
 add connections, with the list's read/write lock and one mutex in each connection. Every
 step is one lock operation or what one thread does between two of them.
 */
module Messenger {
  import opened Options

  type Tid = nat
  /** One allocation of a cceph_connection; a freed one is never handed out again. */
  type Ptr = nat

  datatype Conn = Conn(
    id: nat, fd: nat,
    addr: nat,               // host and port
    sendFailed: bool,        // state == CCEPH_CONN_STATE_CLOSED
    lock: Option<Tid>,       // the mutex of the connection
    freed: bool,
    fdClosed: bool,
    adder: Tid,              // history: the thread that made it
    closer: Option<Tid>      // history: the thread that took it off the list
  )

  /** What a lookup goes by: the fd of an event, or a host and port. */
  datatype Key = ByFd(fd: nat) | ByAddr(addr: nat)

  /** Where a thread is. The name says what its next step is. */
  datatype Pc =
    | Idle
    // cceph_messenger_send_msg
    | SendReadLock(id: nat)
    | SendFind(id: nat)
    | SendNotFound
    | SendMutex(c: Ptr)
    | SendReadUnlock(c: Ptr)
    | SendWrite(c: Ptr)
    | SendUnlock(c: Ptr, failed: bool)
    // cceph_messenger_close_conn
    | CloseWriteLock(id: nat)
    | CloseFind(id: nat)
    | CloseNotFound
    | CloseUnlist(c: Ptr)
    | CloseWriteUnlock(c: Ptr)
    | CloseMutex(c: Ptr)
    | CloseFd(c: Ptr)
    | CloseUnlock(c: Ptr)
    | CloseFree(c: Ptr)
    // the lookup in start_epoll, by fd, and in cceph_messenger_get_conn, by host and port
    | LookReadLock(key: Key)
    | LookFind(key: Key)
    | LookReadUnlock(key: Key, found: Option<nat>)
    // cceph_messenger_add_conn
    | AddWriteLock(c: Ptr)
    | AddList(c: Ptr)
    | AddWriteUnlock(c: Ptr)
    | AddReturn(c: Ptr)      // reads the id of the connection once more

  datatype State = State(
    conns: map<Ptr, Conn>,
    listed: set<Ptr>,
    writer: Option<Tid>,
    readers: set<Tid>,
    openFds: set<nat>,
    nextId: nat,
    pcs: map<Tid, Pc>
  )

  /** What an idle thread begins; a thread under way goes on, its send or epoll call going well
      or not. */
  datatype Action =
    | BeginSend(id: nat)
    | BeginClose(id: nat)
    | BeginLook(key: Key)
    | BeginAdd(fd: nat, addr: nat)
    | Go(ok: bool)

  ghost predicate Init(s: State) {
    s.conns == map[] && s.listed == {} && s.writer == None && s.readers == {}
    && (forall t :: t in s.pcs ==> s.pcs[t] == Idle)
  }

  ghost predicate HasId(s: State, c: Ptr, id: nat) {
    c in s.listed && c in s.conns && s.conns[c].id == id
  }

  ghost predicate HasKey(s: State, c: Ptr, key: Key) {
    c in s.listed && c in s.conns && match key
      case ByFd(fd) => s.conns[c].fd == fd
      case ByAddr(addr) => s.conns[c].addr == addr
  }

  // ---- what the places mean ----

  ghost predicate HoldsRead(pc: Pc) {
    pc.SendFind? || pc.SendNotFound? || pc.SendMutex? || pc.SendReadUnlock? || pc.LookFind? || pc.LookReadUnlock?
  }

  ghost predicate HoldsWrite(pc: Pc) {
    pc.CloseFind? || pc.CloseNotFound? || pc.CloseUnlist? || pc.CloseWriteUnlock? || pc.AddList? || pc.AddWriteUnlock?
  }

  /** The connection whose mutex the thread holds. */
  ghost function MutexOf(pc: Pc): Option<Ptr> {
    if pc.SendReadUnlock? || pc.SendWrite? || pc.SendUnlock? || pc.CloseFd? || pc.CloseUnlock? then Some(pc.c) else None
  }

  /** The connection that the thread has taken off the list and is going to free. */
  ghost function ClosingOf(pc: Pc): Option<Ptr> {
    if pc.CloseWriteUnlock? || pc.CloseMutex? || pc.CloseFd? || pc.CloseUnlock? || pc.CloseFree? then Some(pc.c) else None
  }

  /** The connection that the thread has made and not listed yet. */
  ghost function AddingOf(pc: Pc): Option<Ptr> {
    if pc.AddWriteLock? || pc.AddList? then Some(pc.c) else None
  }

  /** The connection that the thread has found on the list, while it still holds the list's lock. */
  ghost function FoundOf(pc: Pc): Option<Ptr> {
    if pc.SendMutex? || pc.CloseUnlist? || pc.AddWriteUnlock? then Some(pc.c) else None
  }

  /** The connection that the thread has listed and whose id it is still going to read. */
  ghost function ReturningOf(pc: Pc): Option<Ptr> {
    if pc.AddReturn? then Some(pc.c) else None
  }

  /** The connection that the place refers to. */
  ghost function ConnOf(pc: Pc): Option<Ptr> {
    if MutexOf(pc).Some? then MutexOf(pc) else if ClosingOf(pc).Some? then ClosingOf(pc)
    else if AddingOf(pc).Some? then AddingOf(pc) else if ReturningOf(pc).Some? then ReturningOf(pc) else FoundOf(pc)
  }

  // ---- the steps ----

  ghost function To(s: State, t: Tid, pc: Pc): State {
    s.(pcs := s.pcs[t := pc])
  }

  ghost function WithConn(s: State, c: Ptr, x: Conn): State {
    s.(conns := s.conns[c := x])
  }

  /** malloc and the atomic increment of next_conn_id, for an fd that the OS has just opened. */
  ghost function NewConn(s: State, t: Tid, c: Ptr, fd: nat, addr: nat): State {
    To(WithConn(s, c, Conn(s.nextId, fd, addr, false, None, false, false, t, None)), t, AddWriteLock(c))
      .(nextId := s.nextId + 1, openFds := s.openFds + {fd})
  }

  /** An idle thread begins something. */
  ghost predicate Begin(s: State, t: Tid, a: Action, s': State) {
    match a
    case BeginSend(id) => s' == To(s, t, SendReadLock(id))
    case BeginClose(id) => s' == To(s, t, CloseWriteLock(id))
    case BeginLook(key) => s' == To(s, t, LookReadLock(key))
    case BeginAdd(fd, addr) => fd !in s.openFds && exists c :: c !in s.conns && s' == NewConn(s, t, c, fd, addr)
    case Go(_) => false
  }

  /** The thread waits for a lock that it cannot have now. */
  ghost predicate Blocked(s: State, t: Tid)
    requires t in s.pcs
  {
    match s.pcs[t]
    case SendReadLock(_) => s.writer.Some?
    case LookReadLock(_) => s.writer.Some?
    case CloseWriteLock(_) => s.writer.Some? || s.readers != {}
    case AddWriteLock(_) => s.writer.Some? || s.readers != {}
    case SendMutex(c) => c in s.conns && s.conns[c].lock.Some?
    case CloseMutex(c) => c in s.conns && s.conns[c].lock.Some?
    case _ => false
  }

  /** What the next step of a thread under way makes of the state. `ok` says how its send, or
      its epoll call, comes out. A lookup finds any listed connection that matches. */
  ghost function After(s: State, t: Tid, ok: bool): State
    requires t in s.pcs && (ConnOf(s.pcs[t]).Some? ==> ConnOf(s.pcs[t]).value in s.conns)
  {
    match s.pcs[t]
    case Idle => s
    case SendReadLock(id) => To(s, t, SendFind(id)).(readers := s.readers + {t})
    case SendFind(id) =>
      if exists c :: HasId(s, c, id) then var c :| HasId(s, c, id); To(s, t, SendMutex(c)) else To(s, t, SendNotFound)
    case SendNotFound => To(s, t, Idle).(readers := s.readers - {t})
    case SendMutex(c) => To(WithConn(s, c, s.conns[c].(lock := Some(t))), t, SendReadUnlock(c))
    case SendReadUnlock(c) => To(s, t, SendWrite(c)).(readers := s.readers - {t})
    case SendWrite(c) =>
      if s.conns[c].sendFailed || ok then To(s, t, SendUnlock(c, false))
      else To(WithConn(s, c, s.conns[c].(sendFailed := true)), t, SendUnlock(c, true))
    case SendUnlock(c, failed) =>
      To(WithConn(s, c, s.conns[c].(lock := None)), t, if failed then CloseWriteLock(s.conns[c].id) else Idle)
    case CloseWriteLock(id) => To(s, t, CloseFind(id)).(writer := Some(t))
    case CloseFind(id) =>
      if exists c :: HasId(s, c, id) then var c :| HasId(s, c, id); To(s, t, CloseUnlist(c)) else To(s, t, CloseNotFound)
    case CloseNotFound => To(s, t, Idle).(writer := None)
    case CloseUnlist(c) =>
      To(WithConn(s, c, s.conns[c].(closer := Some(t))), t, CloseWriteUnlock(c)).(listed := s.listed - {c})
    case CloseWriteUnlock(c) => To(s, t, CloseMutex(c)).(writer := None)
    case CloseMutex(c) => To(WithConn(s, c, s.conns[c].(lock := Some(t))), t, CloseFd(c))
    case CloseFd(c) =>
      To(WithConn(s, c, s.conns[c].(fdClosed := true)), t, CloseUnlock(c)).(openFds := s.openFds - {s.conns[c].fd})
    case CloseUnlock(c) => To(WithConn(s, c, s.conns[c].(lock := None)), t, CloseFree(c))
    case CloseFree(c) => To(WithConn(s, c, s.conns[c].(freed := true)), t, Idle)
    case LookReadLock(key) => To(s, t, LookFind(key)).(readers := s.readers + {t})
    case LookFind(key) =>
      if exists c :: HasKey(s, c, key) then var c :| HasKey(s, c, key); To(s, t, LookReadUnlock(key, Some(s.conns[c].id)))
      else To(s, t, LookReadUnlock(key, None))
    case LookReadUnlock(key, found) =>
      To(s, t, if key.ByFd? && found.Some? && !ok then CloseWriteLock(found.value) else Idle).(readers := s.readers - {t})
    case AddWriteLock(c) => To(s, t, AddList(c)).(writer := Some(t))
    case AddList(c) => To(s, t, AddWriteUnlock(c)).(listed := s.listed + {c})
    case AddWriteUnlock(c) => To(s, t, AddReturn(c)).(writer := None)
    case AddReturn(c) => To(s, t, if ok then Idle else CloseWriteLock(s.conns[c].id))
  }

  ghost predicate GoOn(s: State, t: Tid, ok: bool, s': State)
    requires t in s.pcs
  {
    var c := ConnOf(s.pcs[t]);
    s.pcs[t] != Idle && !Blocked(s, t) && (c.Some? ==> c.value in s.conns) && s' == After(s, t, ok)
  }

  /** One step of thread `t`. */
  ghost predicate Next(s: State, t: Tid, a: Action, s': State) {
    t in s.pcs && if s.pcs[t] == Idle then Begin(s, t, a, s') else a.Go? && GoOn(s, t, a.ok, s')
  }

  // ---- the invariant ----

  /** The connections whose memory the thread's next step reads or writes. */
  ghost function Touched(s: State, t: Tid): set<Ptr>
    requires t in s.pcs
  {
    var pc := s.pcs[t];
    // a step on the list may touch every node of it, if only to link its neighbours
    (if pc.SendFind? || pc.CloseFind? || pc.LookFind? || pc.CloseUnlist? || pc.AddList? then s.listed else {})
    + (if ConnOf(pc).Some? then {ConnOf(pc).value} else {})
  }

  ghost predicate ListLockInv(s: State) {
    && s.readers <= s.pcs.Keys && (s.writer.Some? ==> s.writer.value in s.pcs && s.readers == {})
    && forall t :: t in s.pcs ==>
      (HoldsRead(s.pcs[t]) <==> t in s.readers) && (HoldsWrite(s.pcs[t]) <==> s.writer == Some(t))
  }

  ghost predicate MutexInv(s: State) {
    && (forall t :: t in s.pcs ==> HolderOk(s, t, MutexOf(s.pcs[t])))
    && (forall c :: c in s.conns ==> LockOk(s, c, s.conns[c].lock))
  }

  ghost predicate HolderOk(s: State, t: Tid, c: Option<Ptr>) {
    c.Some? ==> c.value in s.conns && s.conns[c.value].lock == Some(t)
  }

  ghost predicate LockOk(s: State, c: Ptr, t: Option<Tid>) {
    t.Some? ==> t.value in s.pcs && MutexOf(s.pcs[t.value]) == Some(c)
  }

  /** Whoever is closing a connection is the one thread that took it off the list. */
  ghost predicate CloserInv(s: State) {
    forall t :: t in s.pcs && ClosingOf(s.pcs[t]).Some? ==>
      var c, pc := ClosingOf(s.pcs[t]).value, s.pcs[t];
      && c in s.conns && s.conns[c].closer == Some(t) && !s.conns[c].freed
      && (s.conns[c].fdClosed <==> pc.CloseUnlock? || pc.CloseFree?)
      && (pc.CloseFree? ==> s.conns[c].lock == None)
  }

  ghost predicate AdderInv(s: State) {
    forall t :: t in s.pcs && AddingOf(s.pcs[t]).Some? ==>
      var c := AddingOf(s.pcs[t]).value;
      c in s.conns && c !in s.listed && s.conns[c].adder == t && s.conns[c].closer == None && s.conns[c].lock == None
  }

  ghost predicate ReturnInv(s: State) {
    forall t :: t in s.pcs && ReturningOf(s.pcs[t]).Some? ==> ReturningOf(s.pcs[t]).value in s.conns
  }

  ghost predicate FoundInv(s: State) {
    forall t :: t in s.pcs && FoundOf(s.pcs[t]).Some? ==> FoundOf(s.pcs[t]).value in s.listed
  }

  ghost predicate ConnInv(s: State) {
    && s.listed <= s.conns.Keys
    && forall c :: c in s.conns ==>
      var x := s.conns[c];
      && x.id < s.nextId
      && (x.closer == None ==> !x.freed && !x.fdClosed)
      && (c in s.listed ==> x.closer == None)
      && (!x.fdClosed ==> x.fd in s.openFds)
      && (x.freed ==> x.lock == None && x.fdClosed)
  }

  ghost predicate ApartInv(s: State) {
    forall c, d :: c in s.conns && d in s.conns && c != d ==>
      && s.conns[c].id != s.conns[d].id
      && (!s.conns[c].fdClosed && !s.conns[d].fdClosed ==> s.conns[c].fd != s.conns[d].fd)
  }

  ghost predicate Inv(s: State) {
    ListLockInv(s) && MutexInv(s) && CloserInv(s) && AdderInv(s) && FoundInv(s) && ReturnInv(s) && ConnInv(s) && ApartInv(s)
  }

  lemma InitInv(s: State)
    requires Init(s)
    ensures Inv(s)
  {}

  /** The steps under the read lock, and into it and out of it. */
  ghost predicate ReadPc(pc: Pc) {
    pc.SendReadLock? || pc.SendFind? || pc.SendNotFound? || pc.SendReadUnlock? || pc.LookReadLock? || pc.LookFind? || pc.LookReadUnlock?
  }

  /** The steps of the write lock that change no connection. */
  ghost predicate WritePc(pc: Pc) {
    pc.CloseWriteLock? || pc.CloseFind? || pc.CloseNotFound? || pc.CloseWriteUnlock? || pc.AddWriteLock? || pc.AddWriteUnlock? || pc.AddReturn?
  }

  /** The steps of a sender on its connection. */
  ghost predicate SendPc(pc: Pc) {
    pc.SendMutex? || pc.SendWrite? || pc.SendUnlock?
  }

  /** The steps of a closer on its connection. */
  ghost predicate ClosePc(pc: Pc) {
    pc.CloseMutex? || pc.CloseFd? || pc.CloseUnlock? || pc.CloseFree?
  }

  /** The steps that change the list. */
  ghost predicate ListPc(pc: Pc) {
    pc.CloseUnlist? || pc.AddList?
  }

  lemma ReadKeepsListLock(s: State, t: Tid, ok: bool, s': State)
    requires Inv(s) && t in s.pcs && ReadPc(s.pcs[t]) && GoOn(s, t, ok, s')
    ensures ListLockInv(s')
  {
    hide Inv, GoOn, ListLockInv;
    if LookPc(s.pcs[t]) {
      LookKeepsListLock(s, t, ok, s');
    } else {
      SendReadKeepsListLock(s, t, ok, s');
    }
  }

  lemma SendReadKeepsListLock(s: State, t: Tid, ok: bool, s': State)
    requires Inv(s) && t in s.pcs && ReadPc(s.pcs[t]) && !LookPc(s.pcs[t]) && GoOn(s, t, ok, s')
    ensures ListLockInv(s')
  {
    hide MutexInv, CloserInv, AdderInv, FoundInv, ReturnInv, ConnInv, ApartInv;
  }

  ghost predicate LookPc(pc: Pc) {
    pc.LookReadLock? || pc.LookFind? || pc.LookReadUnlock?
  }

  lemma LookKeepsListLock(s: State, t: Tid, ok: bool, s': State)
    requires Inv(s) && t in s.pcs && LookPc(s.pcs[t]) && GoOn(s, t, ok, s')
    ensures ListLockInv(s')
  {
    hide MutexInv, CloserInv, AdderInv, FoundInv, ReturnInv, ConnInv, ApartInv;
  }

  lemma WriteKeepsListLock(s: State, t: Tid, ok: bool, s': State)
    requires Inv(s) && t in s.pcs && WritePc(s.pcs[t]) && GoOn(s, t, ok, s')
    ensures ListLockInv(s')
  {
    hide MutexInv, CloserInv, AdderInv, FoundInv, ReturnInv, ConnInv, ApartInv;
  }

  lemma SendKeepsListLock(s: State, t: Tid, ok: bool, s': State)
    requires Inv(s) && t in s.pcs && SendPc(s.pcs[t]) && GoOn(s, t, ok, s')
    ensures ListLockInv(s')
  {
    hide MutexInv, CloserInv, AdderInv, FoundInv, ReturnInv, ConnInv, ApartInv;
  }

  lemma CloseKeepsListLock(s: State, t: Tid, ok: bool, s': State)
    requires Inv(s) && t in s.pcs && ClosePc(s.pcs[t]) && GoOn(s, t, ok, s')
    ensures ListLockInv(s')
  {
    hide MutexInv, CloserInv, AdderInv, FoundInv, ReturnInv, ConnInv, ApartInv;
  }

  lemma ListKeepsListLock(s: State, t: Tid, ok: bool, s': State)
    requires Inv(s) && t in s.pcs && ListPc(s.pcs[t]) && GoOn(s, t, ok, s')
    ensures ListLockInv(s')
  {
    hide MutexInv, CloserInv, AdderInv, FoundInv, ReturnInv, ConnInv, ApartInv;
  }

  lemma SendKeepsMutex(s: State, t: Tid, ok: bool, s': State)
    requires Inv(s) && t in s.pcs && SendPc(s.pcs[t]) && GoOn(s, t, ok, s')
    ensures MutexInv(s')
  {
    hide ListLockInv, CloserInv, AdderInv, ReturnInv, ApartInv;
  }

  lemma CloseKeepsMutex(s: State, t: Tid, ok: bool, s': State)
    requires Inv(s) && t in s.pcs && ClosePc(s.pcs[t]) && GoOn(s, t, ok, s')
    ensures MutexInv(s')
  {
    hide ListLockInv, AdderInv, FoundInv, ReturnInv, ConnInv, ApartInv;
  }

  lemma ListKeepsMutex(s: State, t: Tid, ok: bool, s': State)
    requires Inv(s) && t in s.pcs && ListPc(s.pcs[t]) && GoOn(s, t, ok, s')
    ensures MutexInv(s')
  {
    hide ListLockInv, CloserInv, AdderInv, FoundInv, ReturnInv, ConnInv, ApartInv;
  }

  lemma SendKeepsCloser(s: State, t: Tid, ok: bool, s': State)
    requires Inv(s) && t in s.pcs && SendPc(s.pcs[t]) && GoOn(s, t, ok, s')
    ensures CloserInv(s')
  {
    hide ListLockInv, MutexInv, AdderInv, ReturnInv, ApartInv;
  }

  lemma CloseKeepsCloser(s: State, t: Tid, ok: bool, s': State)
    requires Inv(s) && t in s.pcs && ClosePc(s.pcs[t]) && GoOn(s, t, ok, s')
    ensures CloserInv(s')
  {
    hide ListLockInv, MutexInv, AdderInv, FoundInv, ReturnInv, ConnInv, ApartInv;
  }

  lemma ListKeepsCloser(s: State, t: Tid, ok: bool, s': State)
    requires Inv(s) && t in s.pcs && ListPc(s.pcs[t]) && GoOn(s, t, ok, s')
    ensures CloserInv(s')
  {
    hide ListLockInv, MutexInv, AdderInv, ReturnInv, ApartInv;
  }

  lemma SendKeepsUsers(s: State, t: Tid, ok: bool, s': State)
    requires Inv(s) && t in s.pcs && SendPc(s.pcs[t]) && GoOn(s, t, ok, s')
    ensures AdderInv(s') && FoundInv(s') && ReturnInv(s')
  {
    hide ListLockInv, MutexInv, CloserInv, ConnInv, ApartInv;
  }

  lemma CloseKeepsUsers(s: State, t: Tid, ok: bool, s': State)
    requires Inv(s) && t in s.pcs && ClosePc(s.pcs[t]) && GoOn(s, t, ok, s')
    ensures AdderInv(s') && FoundInv(s') && ReturnInv(s')
  {
    hide ListLockInv, MutexInv, ConnInv, ApartInv;
  }

  lemma ListKeepsUsers(s: State, t: Tid, ok: bool, s': State)
    requires Inv(s) && t in s.pcs && ListPc(s.pcs[t]) && GoOn(s, t, ok, s')
    ensures AdderInv(s') && FoundInv(s') && ReturnInv(s')
  {
    hide MutexInv, CloserInv, ApartInv;
  }

  lemma SendKeepsConn(s: State, t: Tid, ok: bool, s': State)
    requires Inv(s) && t in s.pcs && SendPc(s.pcs[t]) && GoOn(s, t, ok, s')
    ensures ConnInv(s')
  {
    hide ListLockInv, CloserInv, AdderInv, ReturnInv, ApartInv;
  }

  lemma CloseKeepsConn(s: State, t: Tid, ok: bool, s': State)
    requires Inv(s) && t in s.pcs && ClosePc(s.pcs[t]) && GoOn(s, t, ok, s')
    ensures ConnInv(s')
  {
    hide ListLockInv, MutexInv, AdderInv, FoundInv, ReturnInv;
  }

  lemma ListKeepsConn(s: State, t: Tid, ok: bool, s': State)
    requires Inv(s) && t in s.pcs && ListPc(s.pcs[t]) && GoOn(s, t, ok, s')
    ensures ConnInv(s')
  {
    hide ListLockInv, MutexInv, CloserInv, ReturnInv, ApartInv;
  }

  lemma SendKeepsApart(s: State, t: Tid, ok: bool, s': State)
    requires Inv(s) && t in s.pcs && SendPc(s.pcs[t]) && GoOn(s, t, ok, s')
    ensures ApartInv(s')
  {
    hide ListLockInv, MutexInv, CloserInv, AdderInv, FoundInv, ReturnInv, ConnInv;
  }

  lemma CloseKeepsApart(s: State, t: Tid, ok: bool, s': State)
    requires Inv(s) && t in s.pcs && ClosePc(s.pcs[t]) && GoOn(s, t, ok, s')
    ensures ApartInv(s')
  {
    hide ListLockInv, MutexInv, CloserInv, AdderInv, FoundInv, ReturnInv, ConnInv;
  }

  lemma ListKeepsApart(s: State, t: Tid, ok: bool, s': State)
    requires Inv(s) && t in s.pcs && ListPc(s.pcs[t]) && GoOn(s, t, ok, s')
    ensures ApartInv(s')
  {
    hide ListLockInv, MutexInv, CloserInv, AdderInv, FoundInv, ReturnInv, ConnInv;
  }

  /** A thread goes on to a place that means the same for its connections, or has found one on
      the list, and no connection changes. */
  ghost predicate Passes(s: State, t: Tid, s': State) {
    && t in s.pcs && t in s'.pcs && s'.pcs == s.pcs[t := s'.pcs[t]]
    && s'.conns == s.conns && s'.listed == s.listed && s'.openFds == s.openFds && s'.nextId == s.nextId
    && var pc, pc' := s.pcs[t], s'.pcs[t];
      && MutexOf(pc') == MutexOf(pc) && AddingOf(pc') == AddingOf(pc)
      && ClosingOf(pc') == ClosingOf(pc) && !ClosePc(pc) && (ClosePc(pc') ==> pc'.CloseMutex?)
      && (FoundOf(pc').Some? ==> FoundOf(pc').value in s.listed)
      && (ReturningOf(pc').Some? ==> ReturningOf(pc') == FoundOf(pc))
  }

  lemma ReadPasses(s: State, t: Tid, ok: bool, s': State)
    requires t in s.pcs && ReadPc(s.pcs[t]) && GoOn(s, t, ok, s')
    ensures Passes(s, t, s')
  {}

  lemma WritePasses(s: State, t: Tid, ok: bool, s': State)
    requires t in s.pcs && WritePc(s.pcs[t]) && GoOn(s, t, ok, s')
    ensures Passes(s, t, s')
  {}

  lemma PassKeepsMutex(s: State, t: Tid, s': State)
    requires MutexInv(s) && Passes(s, t, s')
    ensures MutexInv(s')
  {}

  lemma PassKeepsCloser(s: State, t: Tid, s': State)
    requires CloserInv(s) && Passes(s, t, s')
    ensures CloserInv(s')
  {}

  lemma PassKeepsUsers(s: State, t: Tid, s': State)
    requires AdderInv(s) && FoundInv(s) && ReturnInv(s) && ConnInv(s) && Passes(s, t, s')
    ensures AdderInv(s') && FoundInv(s') && ReturnInv(s')
  {}

  lemma PassKeepsConns(s: State, t: Tid, s': State)
    requires ConnInv(s) && ApartInv(s) && Passes(s, t, s')
    ensures ConnInv(s') && ApartInv(s')
  {}

  lemma BeginKeepsListLock(s: State, t: Tid, a: Action, s': State)
    requires Inv(s) && t in s.pcs && s.pcs[t] == Idle && Begin(s, t, a, s')
    ensures ListLockInv(s')
  {
    hide MutexInv, CloserInv, AdderInv, FoundInv, ReturnInv, ConnInv, ApartInv;
  }

  lemma BeginKeepsMutex(s: State, t: Tid, a: Action, s': State)
    requires Inv(s) && t in s.pcs && s.pcs[t] == Idle && Begin(s, t, a, s')
    ensures MutexInv(s')
  {
    hide ListLockInv, CloserInv, AdderInv, FoundInv, ReturnInv, ConnInv, ApartInv;
  }

  lemma BeginKeepsCloser(s: State, t: Tid, a: Action, s': State)
    requires Inv(s) && t in s.pcs && s.pcs[t] == Idle && Begin(s, t, a, s')
    ensures CloserInv(s')
  {
    hide ListLockInv, MutexInv, AdderInv, FoundInv, ReturnInv, ConnInv, ApartInv;
  }

  lemma BeginKeepsUsers(s: State, t: Tid, a: Action, s': State)
    requires Inv(s) && t in s.pcs && s.pcs[t] == Idle && Begin(s, t, a, s')
    ensures AdderInv(s') && FoundInv(s') && ReturnInv(s')
  {
    hide ListLockInv, MutexInv, CloserInv, ApartInv;
  }

  lemma BeginKeepsConn(s: State, t: Tid, a: Action, s': State)
    requires Inv(s) && t in s.pcs && s.pcs[t] == Idle && Begin(s, t, a, s')
    ensures ConnInv(s')
  {
    hide ListLockInv, MutexInv, CloserInv, AdderInv, FoundInv, ReturnInv, ApartInv;
  }

  lemma BeginKeepsApart(s: State, t: Tid, a: Action, s': State)
    requires Inv(s) && t in s.pcs && s.pcs[t] == Idle && Begin(s, t, a, s')
    ensures ApartInv(s')
  {
    hide ListLockInv, MutexInv, CloserInv, AdderInv, FoundInv, ReturnInv;
  }

  lemma NextInv(s: State, t: Tid, a: Action, s': State)
    requires Inv(s) && Next(s, t, a, s')
    ensures Inv(s')
  {
    hide ListLockInv, MutexInv, CloserInv, AdderInv, FoundInv, ReturnInv, ConnInv, ApartInv, GoOn, Begin, Passes;
    if s.pcs[t] == Idle {
      BeginKeepsListLock(s, t, a, s');
      BeginKeepsMutex(s, t, a, s');
      BeginKeepsCloser(s, t, a, s');
      BeginKeepsUsers(s, t, a, s');
      BeginKeepsConn(s, t, a, s');
      BeginKeepsApart(s, t, a, s');
    } else if ReadPc(s.pcs[t]) {
      ReadKeepsListLock(s, t, a.ok, s');
      ReadPasses(s, t, a.ok, s');
      PassKeepsMutex(s, t, s');
      PassKeepsCloser(s, t, s');
      PassKeepsUsers(s, t, s');
      PassKeepsConns(s, t, s');
    } else if WritePc(s.pcs[t]) {
      WriteKeepsListLock(s, t, a.ok, s');
      WritePasses(s, t, a.ok, s');
      PassKeepsMutex(s, t, s');
      PassKeepsCloser(s, t, s');
      PassKeepsUsers(s, t, s');
      PassKeepsConns(s, t, s');
    } else if SendPc(s.pcs[t]) {
      SendKeepsListLock(s, t, a.ok, s');
      SendKeepsMutex(s, t, a.ok, s');
      SendKeepsCloser(s, t, a.ok, s');
      SendKeepsUsers(s, t, a.ok, s');
      SendKeepsConn(s, t, a.ok, s');
      SendKeepsApart(s, t, a.ok, s');
    } else if ClosePc(s.pcs[t]) {
      CloseKeepsListLock(s, t, a.ok, s');
      CloseKeepsMutex(s, t, a.ok, s');
      CloseKeepsCloser(s, t, a.ok, s');
      CloseKeepsUsers(s, t, a.ok, s');
      CloseKeepsConn(s, t, a.ok, s');
      CloseKeepsApart(s, t, a.ok, s');
    } else {
      ListKeepsListLock(s, t, a.ok, s');
      ListKeepsMutex(s, t, a.ok, s');
      ListKeepsCloser(s, t, a.ok, s');
      ListKeepsUsers(s, t, a.ok, s');
      ListKeepsConn(s, t, a.ok, s');
      ListKeepsApart(s, t, a.ok, s');
    }
  }

  // ---- what holds in every run ----

  datatype Event = Event(t: Tid, a: Action)

  /** `run` are the states of an execution from a fresh messenger, `events` its steps. */
  ghost predicate Run(run: seq<State>, events: seq<Event>) {
    && |run| == |events| + 1 && Init(run[0])
    && forall i :: 0 <= i < |events| ==> Next(run[i], events[i].t, events[i].a, run[i + 1])
  }

  lemma {:induction false} RunInv(run: seq<State>, events: seq<Event>, i: nat)
    requires Run(run, events) && i < |run|
    ensures Inv(run[i])
  {
    hide Inv, Next, Init;
    if i == 0 {
      InitInv(run[0]);
    } else {
      RunInv(run, events, i - 1);
      NextInv(run[i - 1], events[i - 1].t, events[i - 1].a, run[i]);
    }
  }

  /** No thread is about to touch the memory of a freed connection, but for the last read in
      cceph_messenger_add_conn. */
  lemma NoUseAfterFree(run: seq<State>, events: seq<Event>, i: nat, t: Tid, c: Ptr)
    requires Run(run, events) && i < |run| && t in run[i].pcs && c in Touched(run[i], t)
    ensures c in run[i].conns && (run[i].conns[c].freed ==> run[i].pcs[t] == AddReturn(c))
  {
    RunInv(run, events, i);
    hide ApartInv, Run;
    var s := run[i];
    var pc := s.pcs[t];
    if MutexOf(pc) == Some(c) {
      assert HolderOk(s, t, MutexOf(pc));
    }
  }

  /** Thread `t` is about to touch the freed connection `c`. */
  ghost predicate TouchesFreed(s: State, t: Tid, c: Ptr) {
    t in s.pcs && c in Touched(s, t) && c in s.conns && s.conns[c].freed
  }

  /** Thread `u` is about to free the connection that `t` has listed and not yet returned. */
  ghost predicate FreesTooEarly(s: State, u: Tid, t: Tid, c: Ptr) {
    u in s.pcs && t in s.pcs && s.pcs[u] == CloseFree(c) && s.pcs[t] == AddReturn(c)
  }

  /** Some step of the run frees a connection while a thread that added it has not returned. */
  ghost predicate FreedTooEarly(run: seq<State>, events: seq<Event>)
    requires |run| == |events| + 1
  {
    exists i, t, c :: 0 <= i < |events| && FreesTooEarly(run[i], events[i].t, t, c)
  }

  /** That last read is what can go wrong, and it does exactly in the runs in which a connection
      is freed while a thread that added it has not returned. */
  lemma LateRead(run: seq<State>, events: seq<Event>)
    requires Run(run, events)
    ensures (exists i, t, c :: 0 <= i < |run| && TouchesFreed(run[i], t, c)) <==> FreedTooEarly(run, events)
  {
    if i, t, c :| 0 <= i < |run| && TouchesFreed(run[i], t, c) {
      NoUseAfterFree(run, events, i, t, c);
      assert LateAndFreed(run[i], t, c);
      var j := FreeBefore(run, events, i, t, c);
    }
    if i, t, c :| 0 <= i < |events| && FreesTooEarly(run[i], events[i].t, t, c) {
      hide Run;
      assert Next(run[i], events[i].t, events[i].a, run[i + 1]) by {
        RunStep(run, events, i);
      }
      FreedNow(run[i], events[i].t, events[i].a, run[i + 1], t, c);
    }
  }

  lemma RunStep(run: seq<State>, events: seq<Event>, i: nat)
    requires Run(run, events) && i < |events|
    ensures Next(run[i], events[i].t, events[i].a, run[i + 1])
  {}

  lemma FreedNow(s: State, u: Tid, a: Action, s': State, t: Tid, c: Ptr)
    requires Next(s, u, a, s') && FreesTooEarly(s, u, t, c)
    ensures TouchesFreed(s', t, c)
  {}

  /** A freed connection whose adder has not returned was freed by a step at which it had not. */
  lemma {:induction false} FreeBefore(run: seq<State>, events: seq<Event>, i: nat, t: Tid, c: Ptr) returns (j: nat)
    requires Run(run, events) && i < |run| && LateAndFreed(run[i], t, c)
    ensures j < i && FreesTooEarly(run[j], events[j].t, t, c)
  {
    hide Init, Inv, Next, LateAndFreed, FreesTooEarly;
    if i == 0 {
      NothingAtFirst(run[0], t, c);
    } else if LateAndFreed(run[i - 1], t, c) {
      j := FreeBefore(run, events, i - 1, t, c);
    } else {
      j := i - 1;
      RunInv(run, events, j);
      FreedBetween(run[j], events[j].t, events[j].a, run[i], t, c);
    }
  }

  ghost predicate LateAndFreed(s: State, t: Tid, c: Ptr) {
    t in s.pcs && s.pcs[t] == AddReturn(c) && c in s.conns && s.conns[c].freed
  }

  lemma NothingAtFirst(s: State, t: Tid, c: Ptr)
    requires Init(s)
    ensures !LateAndFreed(s, t, c)
  {}

  lemma FreedBetween(s: State, u: Tid, a: Action, s': State, t: Tid, c: Ptr)
    requires Inv(s) && Next(s, u, a, s') && !LateAndFreed(s, t, c) && LateAndFreed(s', t, c)
    ensures FreesTooEarly(s, u, t, c)
  {
    hide ListLockInv, MutexInv, CloserInv, AdderInv, FoundInv, ReturnInv, ConnInv, ApartInv, GoOn, Begin, Passes, LateAndFreed;
    if s.pcs[u] == Idle {
      BeginFrees(s, u, a, s', t, c);
    } else if ReadPc(s.pcs[u]) {
      ReadPasses(s, u, a.ok, s');
      PassFrees(s, u, s', t, c);
    } else if WritePc(s.pcs[u]) {
      WritePasses(s, u, a.ok, s');
      PassFrees(s, u, s', t, c);
    } else {
      StepFrees(s, u, a.ok, s', t, c);
    }
  }

  lemma BeginFrees(s: State, u: Tid, a: Action, s': State, t: Tid, c: Ptr)
    requires u in s.pcs && s.pcs[u] == Idle && Begin(s, u, a, s') && LateAndFreed(s', t, c)
    ensures LateAndFreed(s, t, c)
  {}

  lemma PassFrees(s: State, u: Tid, s': State, t: Tid, c: Ptr)
    requires FoundInv(s) && ConnInv(s) && Passes(s, u, s') && LateAndFreed(s', t, c)
    ensures LateAndFreed(s, t, c)
  {}

  lemma StepFrees(s: State, u: Tid, ok: bool, s': State, t: Tid, c: Ptr)
    requires u in s.pcs && (SendPc(s.pcs[u]) || ClosePc(s.pcs[u]) || ListPc(s.pcs[u])) && GoOn(s, u, ok, s')
    requires ReturnInv(s) && !LateAndFreed(s, t, c) && LateAndFreed(s', t, c)
    ensures FreesTooEarly(s, u, t, c)
  {}

  ghost predicate Leads(run: seq<State>, events: seq<Event>, last: State) {
    Run(run, events) && run[|events|] == last
  }

  lemma GoesOn(run: seq<State>, events: seq<Event>, s: State, t: Tid, a: Action, s': State)
    returns (run': seq<State>, events': seq<Event>)
    requires Leads(run, events, s) && Next(s, t, a, s')
    ensures Leads(run', events', s') && events' == events + [Event(t, a)] && run' == run + [s']
  {
    hide Init, Next;
    run', events' := run + [s'], events + [Event(t, a)];
  }

  /** Thread 0 has made the connection 0, and thread 1 is closing it or not. */
  ghost function OneConn(x: Conn, listed: bool, writer: Option<Tid>, pc0: Pc, pc1: Pc): State {
    State(map[0 := x], if listed then {0} else {}, writer, {}, if x.fdClosed then {} else {3}, 2, map[0 := pc0, 1 := pc1])
  }

  ghost function TheConn(lock: Option<Tid>, fdClosed: bool, closer: Option<Tid>): Conn {
    Conn(1, 3, 0, false, lock, false, fdClosed, 0, closer)
  }

  /** Such runs exist: thread 0 adds a connection, and thread 1 closes it before thread 0 has
      returned. */
  lemma LateReadHappens() returns (run: seq<State>, events: seq<Event>)
    ensures Run(run, events) && FreedTooEarly(run, events)
  {
    hide Init, Next, OneConn, TheConn;
    run, events := Made();
    run, events := Added(run, events);
    run, events := Unlisted(run, events);
    run, events := Closing(run, events);
    run, events := Closed(run, events);
    var i := |events| - 1;
    assert FreesTooEarly(run[i], events[i].t, 0, 0);
  }

  lemma Made() returns (run: seq<State>, events: seq<Event>)
    ensures Leads(run, events, OneConn(TheConn(None, false, None), false, None, AddWriteLock(0), Idle))
  {
    var s0 := State(map[], {}, None, {}, {}, 1, map[0 := Idle, 1 := Idle]);
    run, events := [s0], [];
    var s1 := OneConn(TheConn(None, false, None), false, None, AddWriteLock(0), Idle);
    assert s1 == NewConn(s0, 0, 0, 3, 0);
    run, events := GoesOn(run, events, s0, 0, BeginAdd(3, 0), s1);
  }

  lemma AddSteps(x: Conn)
    requires x.closer.None? && !x.fdClosed
    ensures Next(OneConn(x, false, None, AddWriteLock(0), Idle), 0, Go(true), OneConn(x, false, Some(0), AddList(0), Idle))
    ensures Next(OneConn(x, false, Some(0), AddList(0), Idle), 0, Go(true), OneConn(x, true, Some(0), AddWriteUnlock(0), Idle))
  {
    hide Begin;
  }

  lemma AddReturns(x: Conn)
    requires x.closer.None? && !x.fdClosed
    ensures Next(OneConn(x, true, Some(0), AddWriteUnlock(0), Idle), 0, Go(true), OneConn(x, true, None, AddReturn(0), Idle))
  {
    hide Begin;
  }

  lemma Added(run0: seq<State>, events0: seq<Event>) returns (run: seq<State>, events: seq<Event>)
    requires Leads(run0, events0, OneConn(TheConn(None, false, None), false, None, AddWriteLock(0), Idle))
    ensures Leads(run, events, OneConn(TheConn(None, false, None), true, None, AddReturn(0), Idle))
  {
    hide Run, Leads, Next, OneConn;
    var x := TheConn(None, false, None);
    AddSteps(x);
    AddReturns(x);
    var s1 := OneConn(x, false, Some(0), AddList(0), Idle);
    run, events := GoesOn(run0, events0, OneConn(x, false, None, AddWriteLock(0), Idle), 0, Go(true), s1);
    var s2 := OneConn(x, true, Some(0), AddWriteUnlock(0), Idle);
    run, events := GoesOn(run, events, s1, 0, Go(true), s2);
    run, events := GoesOn(run, events, s2, 0, Go(true), OneConn(x, true, None, AddReturn(0), Idle));
  }

  lemma CloseBegins(x: Conn)
    requires x.id == 1 && x.closer.None? && !x.fdClosed
    ensures Next(OneConn(x, true, None, AddReturn(0), Idle), 1, BeginClose(1), OneConn(x, true, None, AddReturn(0), CloseWriteLock(1)))
    ensures Next(OneConn(x, true, None, AddReturn(0), CloseWriteLock(1)), 1, Go(true), OneConn(x, true, Some(1), AddReturn(0), CloseFind(1)))
  {}

  lemma CloseFinds(x: Conn)
    requires x.id == 1 && x.closer.None? && !x.fdClosed
    ensures Next(OneConn(x, true, Some(1), AddReturn(0), CloseFind(1)), 1, Go(true), OneConn(x, true, Some(1), AddReturn(0), CloseUnlist(0)))
  {
    hide Begin;
    assert HasId(OneConn(x, true, Some(1), AddReturn(0), CloseFind(1)), 0, 1);
  }

  lemma Unlisted(run0: seq<State>, events0: seq<Event>) returns (run: seq<State>, events: seq<Event>)
    requires Leads(run0, events0, OneConn(TheConn(None, false, None), true, None, AddReturn(0), Idle))
    ensures Leads(run, events, OneConn(TheConn(None, false, None), true, Some(1), AddReturn(0), CloseUnlist(0)))
  {
    hide Run, Leads, Next, OneConn;
    var x := TheConn(None, false, None);
    CloseBegins(x);
    CloseFinds(x);
    var s1 := OneConn(x, true, None, AddReturn(0), CloseWriteLock(1));
    run, events := GoesOn(run0, events0, OneConn(x, true, None, AddReturn(0), Idle), 1, BeginClose(1), s1);
    var s2 := OneConn(x, true, Some(1), AddReturn(0), CloseFind(1));
    run, events := GoesOn(run, events, s1, 1, Go(true), s2);
    run, events := GoesOn(run, events, s2, 1, Go(true), OneConn(x, true, Some(1), AddReturn(0), CloseUnlist(0)));
  }

  lemma CloseSteps()
    ensures var x, y := TheConn(None, false, None), TheConn(None, false, Some(1));
      && Next(OneConn(x, true, Some(1), AddReturn(0), CloseUnlist(0)), 1, Go(true), OneConn(y, false, Some(1), AddReturn(0), CloseWriteUnlock(0)))
      && Next(OneConn(y, false, Some(1), AddReturn(0), CloseWriteUnlock(0)), 1, Go(true), OneConn(y, false, None, AddReturn(0), CloseMutex(0)))
  {
    hide Begin;
  }

  lemma CloseLocks()
    ensures var y, z := TheConn(None, false, Some(1)), TheConn(Some(1), false, Some(1));
      Next(OneConn(y, false, None, AddReturn(0), CloseMutex(0)), 1, Go(true), OneConn(z, false, None, AddReturn(0), CloseFd(0)))
  {
    hide Begin;
  }

  lemma Closing(run0: seq<State>, events0: seq<Event>) returns (run: seq<State>, events: seq<Event>)
    requires Leads(run0, events0, OneConn(TheConn(None, false, None), true, Some(1), AddReturn(0), CloseUnlist(0)))
    ensures Leads(run, events, OneConn(TheConn(Some(1), false, Some(1)), false, None, AddReturn(0), CloseFd(0)))
  {
    hide Run, Leads, Next, OneConn, TheConn;
    CloseSteps();
    CloseLocks();
    var x := TheConn(None, false, Some(1));
    var s1 := OneConn(x, false, Some(1), AddReturn(0), CloseWriteUnlock(0));
    run, events := GoesOn(run0, events0, OneConn(TheConn(None, false, None), true, Some(1), AddReturn(0), CloseUnlist(0)), 1, Go(true), s1);
    var s2 := OneConn(x, false, None, AddReturn(0), CloseMutex(0));
    run, events := GoesOn(run, events, s1, 1, Go(true), s2);
    run, events := GoesOn(run, events, s2, 1, Go(true), OneConn(TheConn(Some(1), false, Some(1)), false, None, AddReturn(0), CloseFd(0)));
  }

  lemma Closed(run0: seq<State>, events0: seq<Event>) returns (run: seq<State>, events: seq<Event>)
    requires Leads(run0, events0, OneConn(TheConn(Some(1), false, Some(1)), false, None, AddReturn(0), CloseFd(0)))
    ensures Run(run, events) && events != [] && FreesTooEarly(run[|events| - 1], events[|events| - 1].t, 0, 0)
  {
    hide Run, Begin, After;
    var s0 := OneConn(TheConn(Some(1), false, Some(1)), false, None, AddReturn(0), CloseFd(0));
    var s1 := After(s0, 1, true);
    run, events := GoesOn(run0, events0, s0, 1, Go(true), s1);
    ClosedAfter(s0);
    var s2 := After(s1, 1, true);
    run, events := GoesOn(run, events, s1, 1, Go(true), s2);
    run, events := GoesOn(run, events, s2, 1, Go(true), After(s2, 1, true));
  }

  lemma ClosedAfter(s0: State)
    requires s0 == OneConn(TheConn(Some(1), false, Some(1)), false, None, AddReturn(0), CloseFd(0))
    ensures var s1 := After(s0, 1, true);
      && s1.pcs == map[0 := AddReturn(0), 1 := CloseUnlock(0)] && 0 in s1.conns
      && var s2 := After(s1, 1, true); s2.pcs == map[0 := AddReturn(0), 1 := CloseFree(0)] && 0 in s2.conns
  {}

  /** A connection is freed at most once: a step that frees finds it not freed, and no step
      undoes a free. */
  lemma FreedOnce(run: seq<State>, events: seq<Event>, i: nat, c: Ptr)
    requires Run(run, events) && i < |events| && c in run[i].conns && run[i].conns[c].freed
    ensures c in run[i + 1].conns && run[i + 1].conns[c].freed
    ensures events[i].t in run[i].pcs && run[i].pcs[events[i].t] != CloseFree(c)
  {
    var s, e, s' := run[i], events[i], run[i + 1];
    assert Next(s, e.t, e.a, s');
    if s.pcs[e.t] == CloseFree(c) {
      NoUseAfterFree(run, events, i, e.t, c);
    }
  }

  /** Listed connections differ in id and in fd, and their fds are open. */
  lemma ListedApart(run: seq<State>, events: seq<Event>, i: nat, c: Ptr, d: Ptr)
    requires Run(run, events) && i < |run| && c in run[i].listed && d in run[i].listed && c != d
    ensures c in run[i].conns && d in run[i].conns
    ensures run[i].conns[c].id != run[i].conns[d].id && run[i].conns[c].fd != run[i].conns[d].fd
    ensures run[i].conns[c].fd in run[i].openFds && run[i].conns[d].fd in run[i].openFds
  {
    RunInv(run, events, i);
    hide ListLockInv, MutexInv, CloserInv, AdderInv, FoundInv, Run;
  }

  /** A connection that was taken off the list has one thread that closes it. Another thread that
      still uses it is a sender, which holds its mutex, or the thread that added it. */
  lemma UnlistedUsers(run: seq<State>, events: seq<Event>, i: nat, c: Ptr, t: Tid)
    requires Run(run, events) && i < |run| && c in run[i].conns && run[i].conns[c].closer.Some?
    requires t in run[i].pcs && c in Touched(run[i], t)
    ensures run[i].conns[c].closer == Some(t) || (MutexOf(run[i].pcs[t]) == Some(c) && run[i].conns[c].lock == Some(t))
      || run[i].pcs[t] == AddReturn(c)
  {
    RunInv(run, events, i);
    hide ApartInv, Run, ListLockInv;
    var s := run[i];
    assert HolderOk(s, t, MutexOf(s.pcs[t]));
  }

  // ---- no deadlock ----

  /** A thread under way that is not blocked has a next step. */
  lemma CanGoOn(s: State, t: Tid, ok: bool)
    requires Inv(s) && t in s.pcs && s.pcs[t] != Idle && !Blocked(s, t)
    ensures GoOn(s, t, ok, After(s, t, ok))
  {
    hide ApartInv, ListLockInv, After;
    assert HolderOk(s, t, MutexOf(s.pcs[t]));
  }

  /** In every reachable state in which some thread is under way, some thread can go on. */
  lemma NoDeadlock(run: seq<State>, events: seq<Event>, i: nat, t: Tid)
    requires Run(run, events) && i < |run| && t in run[i].pcs && run[i].pcs[t] != Idle
    ensures exists u, a, s' :: u in run[i].pcs && run[i].pcs[u] != Idle && Next(run[i], u, a, s')
  {
    RunInv(run, events, i);
    var u := Unblocked(run[i], t);
    CanGoOn(run[i], u, true);
    assert Next(run[i], u, Go(true), After(run[i], u, true));
  }

  lemma Unblocked(s: State, t: Tid) returns (u: Tid)
    requires Inv(s) && t in s.pcs && s.pcs[t] != Idle
    ensures u in s.pcs && s.pcs[u] != Idle && !Blocked(s, u)
  {
    hide Inv, Blocked;
    u := t;
    if Blocked(s, u) && !s.pcs[u].SendMutex? && !s.pcs[u].CloseMutex? {
      u := PastListLock(s, u);
    }
    if Blocked(s, u) {
      u := PastMutex(s, u);
    }
  }

  /** Who waits for the list's lock waits for a thread that is not waiting for it. */
  lemma PastListLock(s: State, t: Tid) returns (u: Tid)
    requires Inv(s) && t in s.pcs && Blocked(s, t) && !s.pcs[t].SendMutex? && !s.pcs[t].CloseMutex?
    ensures u in s.pcs && s.pcs[u] != Idle && (Blocked(s, u) ==> s.pcs[u].SendMutex? || s.pcs[u].CloseMutex?)
  {
    hide MutexInv, CloserInv, AdderInv, FoundInv, ReturnInv, ConnInv, ApartInv;
    u := ListLockHolder(s);
  }

  /** Who waits for a connection's mutex waits for a thread that can go on. */
  lemma PastMutex(s: State, t: Tid) returns (u: Tid)
    requires Inv(s) && t in s.pcs && Blocked(s, t) && (s.pcs[t].SendMutex? || s.pcs[t].CloseMutex?)
    ensures u in s.pcs && s.pcs[u] != Idle && !Blocked(s, u)
  {
    hide ListLockInv, CloserInv, AdderInv, FoundInv, ReturnInv, ConnInv, ApartInv;
    u := s.conns[s.pcs[t].c].lock.value;
    assert LockOk(s, s.pcs[t].c, s.conns[s.pcs[t].c].lock);
  }

  lemma ListLockHolder(s: State) returns (u: Tid)
    requires Inv(s) && (s.writer.Some? || s.readers != {})
    ensures u in s.pcs && (HoldsRead(s.pcs[u]) || HoldsWrite(s.pcs[u]))
  {
    if s.writer.Some? {
      u := s.writer.value;
    } else {
      u :| u in s.readers;
    }
  }
}
