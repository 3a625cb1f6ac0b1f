/** Semaphores, locks, condition variables and the FIFO scheduler of proj2's threads/synch.c
    and threads/thread.c as one interleaved step system.  A step is what runs with interrupts
    off, or one assignment that runs with them on; between steps the timer may preempt. */
module SynchModel {
  import opened Sequences

  type Tid = nat
  const IDLE: Tid := 0

  datatype Status = Running | Ready | Blocked | Dying

  /** A semaphore of the kernel, the one inside a lock, or the one on the stack of a thread
      that is in cond_wait. */
  datatype Sema = Named(id: nat) | LockSem(lock: nat) | Private(owner: Tid)

  datatype SemaState = SemaState(value: nat, waiters: seq<Tid>)

  /** Where a thread is. */
  datatype Pc =
    | Code                                        // in no synchronization function
    | Down(s: Sema, waited: bool, relock: nat)    // at sema_down's loop test; waited: back from thread_block
    | Got(l: nat)                                 // in lock_acquire, past its sema_down
    | Clearing(l: nat, waiting: bool)             // in lock_release, before holder = NULL
    | Raising(l: nat, waiting: bool)              // in lock_release, before its sema_up
    | Signalling(u: Tid)                          // in cond_signal, before its sema_up

  /** How far the signal for a thread in cond_wait has come. */
  datatype Ticket = Queued(c: nat) | Taken(taker: Tid) | Sent

  /** The scheduler's part of the state. */
  datatype Sched = Sched(running: Tid, ready: seq<Tid>, status: map<Tid, Status>)

  datatype State = State(
    sched: Sched,
    semas: map<Sema, SemaState>,
    holder: map<nat, Tid>,           // no entry: NULL
    conds: map<nat, seq<Tid>>,
    pc: map<Tid, Pc>,
    tickets: map<Tid, Ticket>)
  {
    function running(): Tid { sched.running }
  }

  // ---------------------------------------------------------------- scheduling

  /** next_thread_to_run. */
  function NextToRun(ready: seq<Tid>): Tid {
    if ready == [] then IDLE else ready[0]
  }

  function RestOf(list: seq<Tid>): seq<Tid> {
    if list == [] then [] else list[1..]
  }

  /** schedule. */
  function Dispatch(sc: Sched): Sched {
    Sched(NextToRun(sc.ready), RestOf(sc.ready), sc.status[NextToRun(sc.ready) := Running])
  }

  /** The running thread takes another status and schedule is called. */
  function Depart(sc: Sched, status: Status): Sched {
    Dispatch(Sched(sc.running, sc.ready, sc.status[sc.running := status]))
  }

  /** thread_unblock. */
  function Unblock(sc: Sched, t: Tid): Sched {
    Sched(sc.running, sc.ready + [t], sc.status[t := Ready])
  }

  /** thread_yield. */
  function Yield(sc: Sched): Sched {
    Depart(Sched(sc.running, if sc.running == IDLE then sc.ready else sc.ready + [sc.running], sc.status), Ready)
  }

  /** The part of sema_up that wakes the first waiter, if any. */
  function Wake(sc: Sched, waiters: seq<Tid>): Sched {
    if waiters == [] then sc else Unblock(sc, waiters[0])
  }

  // ---------------------------------------------------------------- semaphores

  /** The semaphores after sema_up. */
  function Raised(semas: map<Sema, SemaState>, s: Sema): map<Sema, SemaState>
    requires s in semas
  {
    semas[s := SemaState(semas[s].value + 1, RestOf(semas[s].waiters))]
  }

  /** The semaphores after a decrement that found the value positive. */
  function Lowered(semas: map<Sema, SemaState>, s: Sema): map<Sema, SemaState>
    requires s in semas && semas[s].value > 0
  {
    semas[s := SemaState(semas[s].value - 1, semas[s].waiters)]
  }

  /** The semaphores with thread t waiting for s. */
  function Queue(semas: map<Sema, SemaState>, s: Sema, t: Tid): map<Sema, SemaState>
    requires s in semas
  {
    semas[s := SemaState(semas[s].value, semas[s].waiters + [t])]
  }

  /** Where sema_down returns to. */
  function After(pc: Pc): Pc
    requires pc.Down?
  {
    match pc.s
    case Named(_) => Code
    case LockSem(l) => Got(l)
    case Private(_) => Down(LockSem(pc.relock), false, 0)
  }

  /** sema_up on s, by a thread that goes on at pc. */
  function UpAt(st: State, s: Sema, pc: Pc, tickets: map<Tid, Ticket>): State
    requires s in st.semas
  {
    State(Wake(st.sched, st.semas[s].waiters), Raised(st.semas, s), st.holder, st.conds, st.pc[st.running() := pc],
    tickets)
  }

  /** The running thread goes on at pc. */
  function At(st: State, pc: Pc): State {
    State(st.sched, st.semas, st.holder, st.conds, st.pc[st.running() := pc], st.tickets)
  }

  /** sema_down's loop test: the value goes down, or the thread waits. */
  function DownTest(st: State): State
    requires st.running() in st.pc && st.pc[st.running()].Down? && st.pc[st.running()].s in st.semas
  {
    var t, pc := st.running(), st.pc[st.running()];
    if st.semas[pc.s].value == 0 then
      State(Depart(st.sched, Blocked), Queue(st.semas, pc.s, t), st.holder, st.conds,
            st.pc[t := Down(pc.s, true, pc.relock)], st.tickets)
    else
      State(st.sched, Lowered(st.semas, pc.s), st.holder, st.conds, st.pc[t := After(pc)],
            if pc.s.Private? then st.tickets - {t} else st.tickets)
  }

  // ---------------------------------------------------------------- the steps

  datatype Action =
    | SemaInit(s: Sema, v: nat)                   // sema_init and lock_init
    | CondInit(c: nat)
    | CallDown(id: nat)                           // entering sema_down
    | TestStep                                    // sema_down's loop test
    | UpStep(id: nat)                             // sema_up, also from an interrupt handler
    | TryDown(id: nat)
    | CallAcquire(l: nat)
    | TryAcquire(l: nat)
    | SetHolder
    | CallRelease(l: nat)
    | ClearHolder
    | RaiseStep
    | CallWait(c: nat, l: nat)                    // cond_wait up to its lock_release
    | SignalPop(c: nat, l: nat)                   // cond_signal's list_pop_front
    | SignalUp
    | Preempt                                     // thread_yield
    | IdleBlock
    | Create(t: Tid)
    | Exit

  predicate HeldBy(st: State, l: nat, t: Tid) {
    l in st.holder && st.holder[l] == t
  }

  /** When a step can happen: the running thread is there, and what the source asserts about
      its callers holds.  A thread that comes back from thread_block has interrupts off and can
      only run its loop test. */
  predicate Enabled(st: State, a: Action)
    requires st.running() in st.pc
  {
    var t, pc := st.running(), st.pc[st.running()];
    var here := pc == Code && t != IDLE;
    match a
    case SemaInit(s, v) => here && s !in st.semas && !s.Private? && (s.LockSem? ==> v == 1)
    case CondInit(c) => here && c !in st.conds
    case CallDown(id) => here && Named(id) in st.semas
    case TestStep => pc.Down?
    case UpStep(id) => !(pc.Down? && pc.waited) && Named(id) in st.semas
    case TryDown(id) => !(pc.Down? && pc.waited) && Named(id) in st.semas
    case CallAcquire(l) => here && LockSem(l) in st.semas && !HeldBy(st, l, t)
    case TryAcquire(l) => here && LockSem(l) in st.semas && !HeldBy(st, l, t)
    case SetHolder => pc.Got?
    case CallRelease(l) => here && HeldBy(st, l, t)
    case ClearHolder => pc.Clearing?
    case RaiseStep => pc.Raising?
    case CallWait(c, l) => here && c in st.conds && HeldBy(st, l, t)
    case SignalPop(c, l) => here && c in st.conds && st.conds[c] != [] && HeldBy(st, l, t)
    case SignalUp => pc.Signalling?
    case Preempt => !(pc.Down? && pc.waited)
    case IdleBlock => t == IDLE
    case Create(u) => here && u !in st.sched.status && u !in st.pc
    case Exit => here
  }

  /** The state after a step. */
  function Next(st: State, a: Action): State
    requires Typed(st) && Enabled(st, a)
  {
    var t, pc := st.running(), st.pc[st.running()];
    match a
    case SemaInit(s, v) => st.(semas := st.semas[s := SemaState(v, [])])
    case CondInit(c) => st.(conds := st.conds[c := []])
    case CallDown(id) => At(st, Down(Named(id), false, 0))
    case TestStep => DownTest(st)
    case UpStep(id) => UpAt(st, Named(id), pc, st.tickets)
    case TryDown(id) => if st.semas[Named(id)].value > 0 then st.(semas := Lowered(st.semas, Named(id))) else st
    case CallAcquire(l) => At(st, Down(LockSem(l), false, 0))
    case TryAcquire(l) =>
      if st.semas[LockSem(l)].value > 0
      then State(st.sched, Lowered(st.semas, LockSem(l)), st.holder, st.conds, st.pc[t := Got(l)], st.tickets)
      else st
    case SetHolder => State(st.sched, st.semas, st.holder[pc.l := t], st.conds, st.pc[t := Code], st.tickets)
    case CallRelease(l) => At(st, Clearing(l, false))
    case ClearHolder =>
      State(st.sched, st.semas, st.holder - {pc.l}, st.conds, st.pc[t := Raising(pc.l, pc.waiting)], st.tickets)
    case RaiseStep => UpAt(st, LockSem(pc.l), if pc.waiting then Down(Private(t), false, pc.l) else Code, st.tickets)
    case CallWait(c, l) =>
      State(st.sched, st.semas[Private(t) := SemaState(0, [])], st.holder, st.conds[c := st.conds[c] + [t]],
            st.pc[t := Clearing(l, true)], st.tickets[t := Queued(c)])
    case SignalPop(c, l) =>
      State(st.sched, st.semas, st.holder, st.conds[c := st.conds[c][1..]], st.pc[t := Signalling(st.conds[c][0])],
            st.tickets[st.conds[c][0] := Taken(t)])
    case SignalUp => UpAt(st, Private(pc.u), Code, st.tickets[pc.u := Sent])
    case Preempt => st.(sched := Yield(st.sched))
    case IdleBlock => st.(sched := Depart(st.sched, Blocked))
    case Create(u) => st.(sched := Unblock(st.sched, u), pc := st.pc[u := Code])
    case Exit => st.(sched := Depart(st.sched, Dying))
  }

  // ---------------------------------------------------------------- the invariant

  /** Positions name semaphores and locks that exist, and a lock's holder is as they say. */
  ghost predicate PcOk(st: State, t: Tid)
    requires t in st.pc
  {
    match st.pc[t]
    case Code => true
    case Down(s, w, l) => s in st.semas && (s.Private? ==> s.owner == t && LockSem(l) in st.semas)
    case Got(l) => LockSem(l) in st.semas && l !in st.holder
    case Clearing(l, w) => LockSem(l) in st.semas && HeldBy(st, l, t) && (w ==> Private(t) in st.semas)
    case Raising(l, w) => LockSem(l) in st.semas && l !in st.holder && (w ==> Private(t) in st.semas)
    case Signalling(u) => Private(u) in st.semas
  }

  ghost predicate Typed(st: State) {
    st.running() in st.pc && st.pc.Keys == st.sched.status.Keys && IDLE in st.pc && st.pc[IDLE] == Code &&
    (forall t :: t in st.pc ==> PcOk(st, t)) &&
    forall l :: l in st.holder ==> LockSem(l) in st.semas && st.holder[l] in st.pc
  }

  /** Thread t waits for s, as its position says. */
  ghost predicate WaitsFor(st: State, t: Tid, s: Sema) {
    t in st.pc && t in st.sched.status && st.sched.status[t] == Blocked && t != IDLE &&
    st.pc[t].Down? && st.pc[t].waited && st.pc[t].s == s
  }

  ghost predicate QueueOk(st: State, s: Sema)
    requires s in st.semas
  {
    Distinct(st.semas[s].waiters) && forall t :: t in st.semas[s].waiters ==> WaitsFor(st, t, s)
  }

  ghost predicate IsReady(st: State, t: Tid) {
    t in st.sched.status && st.sched.status[t] == Ready && t != IDLE
  }

  /** Thread t is where its status says. */
  ghost predicate Placed(st: State, t: Tid)
    requires t in st.sched.status
  {
    match st.sched.status[t]
    case Running => t == st.running()
    case Ready => t in st.sched.ready
    case Blocked => t in st.pc && st.pc[t].Down? && st.pc[t].s in st.semas && t in st.semas[st.pc[t].s].waiters
    case Dying => true
  }

  ghost predicate Lists(st: State) {
    Distinct(st.sched.ready) && (forall t :: t in st.sched.ready ==> IsReady(st, t)) &&
    (forall s :: s in st.semas ==> QueueOk(st, s)) &&
    forall t :: t in st.sched.status && t != IDLE ==> Placed(st, t)
  }

  /** The running thread is the one whose status is THREAD_RUNNING. */
  ghost predicate Current(st: State) {
    st.running() in st.sched.status && st.sched.status[st.running()] == Running &&
    forall t :: t in st.sched.status && t != st.running() ==> st.sched.status[t] != Running
  }

  /** Between giving up the processor and schedule: no thread is running. */
  ghost predicate Nobody(st: State) {
    IDLE in st.sched.status && forall t :: t in st.sched.status ==> st.sched.status[t] != Running
  }

  ghost predicate Places(st: State) {
    Lists(st) && Current(st)
  }

  /** The threads woken from s that have not been through the loop test again. */
  ghost function Woken(st: State, s: Sema): set<Tid>
    requires s in st.semas
  {
    set t | t in st.pc && IsWoken(st.pc[t], s) && t !in st.semas[s].waiters
  }

  predicate IsWoken(pc: Pc, s: Sema) {
    pc.Down? && pc.waited && pc.s == s
  }

  /** No lost wakeup: as many woken threads as the value, if somebody waits. */
  ghost predicate WakeOk(st: State, s: Sema)
    requires s in st.semas
  {
    st.semas[s].waiters != [] ==> |Woken(st, s)| >= st.semas[s].value
  }

  ghost predicate Wakes(st: State) {
    forall s :: s in st.semas ==> WakeOk(st, s)
  }

  /** Thread t is between the decrement and the increment of l's semaphore. */
  predicate InSection(st: State, t: Tid, l: nat)
    requires t in st.pc
  {
    HeldBy(st, l, t) || st.pc[t] == Got(l) || (st.pc[t].Raising? && st.pc[t].l == l)
  }

  ghost function Section(st: State, l: nat): set<Tid> {
    set t | t in st.pc && InSection(st, t, l)
  }

  ghost predicate LockOk(st: State, l: nat)
    requires LockSem(l) in st.semas
  {
    st.semas[LockSem(l)].value + |Section(st, l)| == 1
  }

  ghost predicate Locks(st: State) {
    forall l :: LockSem(l) in st.semas ==> LockOk(st, l)
  }

  /** Thread t is in cond_wait and its private semaphore is not down yet. */
  predicate AwaitsSignal(pc: Pc) {
    match pc
    case Clearing(l, w) => w
    case Raising(l, w) => w
    case Down(s, w, l) => s.Private?
    case _ => false
  }

  ghost predicate CondOk(st: State, c: nat)
    requires c in st.conds
  {
    Distinct(st.conds[c]) && forall u :: u in st.conds[c] ==> u in st.tickets && st.tickets[u] == Queued(c)
  }

  /** The signal for thread u is where its ticket says. */
  ghost predicate TicketOk(st: State, u: Tid)
    requires u in st.tickets
  {
    u in st.pc && Private(u) in st.semas && AwaitsSignal(st.pc[u]) &&
    match st.tickets[u]
    case Queued(c) => c in st.conds && u in st.conds[c]
    case Taken(v) => v in st.pc && st.pc[v] == Signalling(u)
    case Sent => true
  }

  ghost predicate SignalOk(st: State, t: Tid)
    requires t in st.pc
  {
    (AwaitsSignal(st.pc[t]) ==> t in st.tickets) &&
    (st.pc[t].Signalling? ==> st.pc[t].u in st.tickets && st.tickets[st.pc[t].u] == Taken(t))
  }

  /** Each private semaphore is 1 exactly when its owner's signal has been sent. */
  ghost predicate SentOk(st: State, u: Tid)
    requires Private(u) in st.semas
  {
    st.semas[Private(u)].value == if u in st.tickets && st.tickets[u] == Sent then 1 else 0
  }

  ghost predicate Tickets(st: State) {
    (forall c :: c in st.conds ==> CondOk(st, c)) &&
    (forall u :: u in st.tickets ==> TicketOk(st, u)) &&
    (forall t :: t in st.pc ==> SignalOk(st, t)) &&
    forall u :: Private(u) in st.semas ==> SentOk(st, u)
  }

  ghost predicate Inv(st: State) {
    Typed(st) && Places(st) && Wakes(st) && Locks(st) && Tickets(st)
  }

  // ---------------------------------------------------------------- wakeups

  /** Both states have the same threads back from thread_block on x. */
  ghost predicate SameWaiters(st: State, st': State, x: Sema) {
    forall t :: (t in st.pc && IsWoken(st.pc[t], x)) <==> (t in st'.pc && IsWoken(st'.pc[t], x))
  }

  /** Only semaphore s has changed, and nobody is newly woken from another one. */
  ghost predicate OnlySema(st: State, st': State, s: Sema) {
    forall x :: x in st'.semas && x != s ==>
      (if x in st.semas then st'.semas[x] == st.semas[x] else st'.semas[x].waiters == []) && SameWaiters(st, st', x)
  }

  lemma WokenSame(st: State, st': State, x: Sema)
    requires x in st.semas && x in st'.semas && st'.semas[x].waiters == st.semas[x].waiters && SameWaiters(st, st', x)
    ensures Woken(st', x) == Woken(st, x)
  {}

  lemma WakesFrame(st: State, st': State, s: Sema)
    requires Wakes(st) && OnlySema(st, st', s) && (s in st'.semas ==> WakeOk(st', s))
    ensures Wakes(st')
  {
    forall x | x in st'.semas
      ensures WakeOk(st', x)
    {
      if x != s && x in st.semas {
        WokenSame(st, st', x);
        assert WakeOk(st, x);
      }
    }
  }

  /** A step that moves no thread into or out of thread_block and changes no semaphore that
      is there. */
  lemma WakesUntouched(st: State, st': State)
    requires Wakes(st)
    requires forall x :: x in st'.semas ==>
      (if x in st.semas then st'.semas[x] == st.semas[x] else st'.semas[x].waiters == []) && SameWaiters(st, st', x)
    ensures Wakes(st')
  {
    forall x | x in st'.semas
      ensures WakeOk(st', x)
    {
      if x in st.semas {
        WokenSame(st, st', x);
        assert WakeOk(st, x);
      }
    }
  }

  /** The first waiter is off the queue and counts as woken. */
  lemma PoppedIsWoken(st: State, s: Sema, st': State)
    requires s in st.semas && s in st'.semas && QueueOk(st, s) && st.semas[s].waiters != []
    requires st'.semas[s].waiters == st.semas[s].waiters[1..] && SameWaiters(st, st', s)
    ensures |Woken(st', s)| == |Woken(st, s)| + 1
  {
    var w := st.semas[s].waiters;
    assert WaitsFor(st, w[0], s);
    assert w == [w[0]] + w[1..];
    assert w[0] !in w[1..];
    assert w[0] !in Woken(st, s);
    assert Woken(st', s) == Woken(st, s) + {w[0]};
  }

  /** A new position of the running thread that is not back from thread_block, nor was. */
  ghost predicate MovesTo(st: State, st': State, pc: Pc) {
    st.running() in st.pc && st'.pc == st.pc[st.running() := pc] &&
    !(pc.Down? && pc.waited) && !(st.pc[st.running()].Down? && st.pc[st.running()].waited)
  }

  /** sema_up: one more woken thread for the higher value. */
  lemma UpWakes(st: State, s: Sema, st': State, pc: Pc)
    requires Lists(st) && Wakes(st) && s in st.semas && st'.semas == Raised(st.semas, s)
    requires MovesTo(st, st', pc)
    ensures Wakes(st')
  {
    assert QueueOk(st, s) && WakeOk(st, s);
    assert forall x :: SameWaiters(st, st', x);
    hide QueueOk, SameWaiters, Woken, MovesTo;
    if st.semas[s].waiters != [] {
      PoppedIsWoken(st, s, st');
    }
    WakesFrame(st, st', s);
  }

  /** A decrement by a thread that was not waiting finds the queue empty or enough woken. */
  lemma DecWakes(st: State, s: Sema, st': State, pc: Pc)
    requires Wakes(st) && s in st.semas && st.semas[s].value > 0
    requires st'.semas == Lowered(st.semas, s) && MovesTo(st, st', pc)
    ensures Wakes(st')
  {
    assert WakeOk(st, s);
    assert forall x :: SameWaiters(st, st', x);
    hide MovesTo, SameWaiters;
    WokenSame(st, st', s);
    WakesFrame(st, st', s);
  }

  /** A woken thread takes what it was woken for. */
  lemma RetestWakes(st: State, s: Sema, st': State, t: Tid, pc: Pc)
    requires Wakes(st) && s in st.semas && st.semas[s].value > 0 && st'.semas == Lowered(st.semas, s)
    requires t in Woken(st, s) && st'.pc == st.pc[t := pc] && !(pc.Down? && pc.waited)
    ensures Wakes(st')
  {
    assert WakeOk(st, s);
    assert Woken(st', s) == Woken(st, s) - {t};
    WakesFrame(st, st', s);
  }

  /** A thread that starts to wait finds the value 0. */
  lemma WaitWakes(st: State, s: Sema, st': State, t: Tid, pc: Pc)
    requires Wakes(st) && s in st.semas && st.semas[s].value == 0 && st'.semas == Queue(st.semas, s, t)
    requires t in st.pc && st.pc[t].Down? && st.pc[t].s == s && st'.pc == st.pc[t := pc] && pc.Down? && pc.s == s
    ensures Wakes(st')
  {
    assert OnlySema(st, st', s);
    WakesFrame(st, st', s);
  }

  /** New semaphores have nobody waiting. */
  lemma InitWakes(st: State, st': State, s: Sema, v: nat, pc: Pc)
    requires Wakes(st) && st'.semas == st.semas[s := SemaState(v, [])] && MovesTo(st, st', pc)
    ensures Wakes(st')
  {
    assert OnlySema(st, st', s);
    WakesFrame(st, st', s);
  }

  /** The running thread waits on nothing. */
  lemma RunningNotQueued(st: State, s: Sema)
    requires Lists(st) && Current(st) && s in st.semas
    ensures st.running() !in st.semas[s].waiters
  {
    assert QueueOk(st, s);
    assert !WaitsFor(st, st.running(), s);
  }

  /** The loop test. */
  lemma TestWakes(st: State)
    requires Typed(st) && Lists(st) && Wakes(st) && Current(st) && st.pc[st.running()].Down?
    requires PcOk(st, st.running())
    ensures Wakes(DownTest(st))
  {
    var t, pc := st.running(), st.pc[st.running()];
    var st', s := DownTest(st), pc.s;
    RunningNotQueued(st, s);
    assert pc.waited ==> t in Woken(st, s);
    hide Wakes, Lists, Typed, Current, Depart, Woken, Queue, Lowered;
    if st.semas[s].value == 0 {
      WaitWakes(st, s, st', t, Down(s, true, pc.relock));
    } else if pc.waited {
      RetestWakes(st, s, st', t, After(pc));
    } else {
      DecWakes(st, s, st', After(pc));
    }
  }

  /** The steps that change no semaphore. */
  predicate Quiet(a: Action) {
    a.CondInit? || a.CallDown? || a.CallAcquire? || a.SetHolder? || a.CallRelease? || a.ClearHolder? || a.SignalPop? ||
    a.Preempt? || a.IdleBlock? || a.Create? || a.Exit?
  }

  lemma QuietWakes(st: State, a: Action)
    requires Typed(st) && Enabled(st, a) && Quiet(a)
    ensures Next(st, a).semas == st.semas
    ensures forall x :: SameWaiters(st, Next(st, a), x)
  {
    hide Typed, Yield, Depart, Unblock;
  }

  lemma WakesNext(st: State, a: Action)
    requires Inv(st) && Enabled(st, a)
    ensures Wakes(Next(st, a))
  {
    var st', pc := Next(st, a), st.pc[st.running()];
    assert PcOk(st, st.running());
    if Quiet(a) {
      QuietWakes(st, a);
      WakesUntouched(st, st');
    } else {
      LoudWakes(st, a);
    }
  }

  lemma LoudWakes(st: State, a: Action)
    requires Inv(st) && Enabled(st, a) && !Quiet(a) && PcOk(st, st.running())
    ensures Wakes(Next(st, a))
  {
    var st', pc := Next(st, a), st.pc[st.running()];
    hide Wakes, Lists, Typed, Current, SameWaiters, Locks, Tickets, DownTest, Wake, Yield, Depart, Unblock, Raised,
         Lowered, QueueOk;
    match a
    case TestStep => TestWakes(st);
    case UpStep(id) => UpWakes(st, Named(id), st', pc);
    case TryDown(id) => if st.semas[Named(id)].value > 0 { DecWakes(st, Named(id), st', pc); }
    case TryAcquire(l) => if st.semas[LockSem(l)].value > 0 { DecWakes(st, LockSem(l), st', Got(l)); }
    case RaiseStep => UpWakes(st, LockSem(pc.l), st', st'.pc[st.running()]);
    case SignalUp => UpWakes(st, Private(pc.u), st', Code);
    case CallWait(c, l) => InitWakes(st, st', Private(st.running()), 0, Clearing(l, true));
    case SemaInit(s, v) => InitWakes(st, st', s, v, pc);
    case _ =>
  }

  // ---------------------------------------------------------------- mutual exclusion

  lemma OnlyOne(st: State, l: nat, t: Tid, u: Tid)
    requires LockSem(l) in st.semas && LockOk(st, l) && t in Section(st, l) && u in Section(st, l)
    ensures t == u && st.semas[LockSem(l)].value == 0
  {
    if t != u {
      TwoAtLeast(Section(st, l), t, u);
    }
  }

  lemma TwoAtLeast(s: set<Tid>, t: Tid, u: Tid)
    requires t in s && u in s && t != u
    ensures |s| >= 2
  {
    assert |s - {t}| == |s| - 1;
    assert u in s - {t};
  }

  lemma HolderInside(st: State, l: nat)
    requires Typed(st) && l in st.holder
    ensures st.holder[l] in Section(st, l)
  {}

  /** A positive lock semaphore: nobody is in the section, and the lock has no holder. */
  lemma NobodyInside(st: State, l: nat)
    requires Typed(st) && LockSem(l) in st.semas && LockOk(st, l) && st.semas[LockSem(l)].value > 0
    ensures Section(st, l) == {} && st.semas[LockSem(l)].value == 1 && l !in st.holder
  {
    if l in st.holder { HolderInside(st, l); }
  }

  /** The same threads are in the section of l, and its semaphore has the same value. */
  ghost predicate SameSection(st: State, st': State, l: nat) {
    LockSem(l) in st.semas && LockSem(l) in st'.semas && st'.semas[LockSem(l)].value == st.semas[LockSem(l)].value &&
    forall t :: t in Section(st', l) <==> t in Section(st, l)
  }

  lemma LocksFrame(st: State, st': State, l: nat)
    requires Locks(st) && (LockSem(l) in st'.semas ==> LockOk(st', l))
    requires forall k :: LockSem(k) in st'.semas && k != l ==> SameSection(st, st', k)
    ensures Locks(st')
  {
    forall k | LockSem(k) in st'.semas
      ensures LockOk(st', k)
    {
      if k != l {
        assert SameSection(st, st', k);
        assert Section(st', k) == Section(st, k);
        assert LockOk(st, k);
      }
    }
  }

  lemma LocksUntouched(st: State, st': State)
    requires Locks(st) && forall k :: LockSem(k) in st'.semas ==> SameSection(st, st', k)
    ensures Locks(st')
  {
    forall k | LockSem(k) in st'.semas
      ensures LockOk(st', k)
    {
      assert SameSection(st, st', k);
      assert Section(st', k) == Section(st, k);
      assert LockOk(st, k);
    }
  }

  /** The running thread gets the lock's semaphore down. */
  lemma EnterLocks(st: State, st': State, l: nat)
    requires Typed(st) && Locks(st) && LockSem(l) in st.semas && st.semas[LockSem(l)].value > 0
    requires st'.semas == Lowered(st.semas, LockSem(l)) && st'.holder == st.holder
    requires st'.pc == st.pc[st.running() := Got(l)]
    requires st.pc[st.running()] == Code || (st.pc[st.running()].Down? && st.pc[st.running()].s == LockSem(l))
    ensures Locks(st')
  {
    assert LockOk(st, l);
    NobodyInside(st, l);
    assert Section(st', l) == {st.running()};
    LocksFrame(st, st', l);
  }

  /** The running thread ups the lock's semaphore. */
  lemma LeaveLocks(st: State, st': State, l: nat, pc: Pc)
    requires Typed(st) && Locks(st) && st.pc[st.running()].Raising? && st.pc[st.running()].l == l &&
             LockSem(l) in st.semas
    requires st'.semas == Raised(st.semas, LockSem(l)) && st'.holder == st.holder
    requires st'.pc == st.pc[st.running() := pc] && (pc == Code || pc.Down?)
    ensures Locks(st')
  {
    var t := st.running();
    assert PcOk(st, t) && LockOk(st, l);
    assert t in Section(st, l);
    assert Section(st', l) == Section(st, l) - {t};
    LocksFrame(st, st', l);
  }

  /** lock->holder is set and cleared inside the section. */
  lemma HolderLocks(st: State, st': State, l: nat)
    requires Typed(st) && Locks(st) && LockSem(l) in st.semas && st'.semas == st.semas
    requires var t, pc := st.running(), st.pc[st.running()];
             (pc == Got(l) && st'.holder == st.holder[l := t] && st'.pc == st.pc[t := Code]) ||
             (pc.Clearing? && pc.l == l && st'.holder == st.holder - {l} &&
             st'.pc == st.pc[t := Raising(l, pc.waiting)])
    ensures Locks(st')
  {
    var t := st.running();
    assert PcOk(st, t) && LockOk(st, l);
    assert t in Section(st, l);
    forall u | u in Section(st, l)
      ensures u == t
    {
      OnlyOne(st, l, u, t);
    }
    assert Section(st', l) == Section(st, l);
    LocksFrame(st, st', l);
  }

  /** The other steps leave every section as it is. */
  predicate NoLockStep(st: State, a: Action)
    requires st.running() in st.pc && Enabled(st, a)
  {
    var pc := st.pc[st.running()];
    match a
    case SemaInit(s, v) => false
    case TestStep => !(pc.s.LockSem?)
    case TryAcquire(_) => false
    case SetHolder => false
    case ClearHolder => false
    case RaiseStep => false
    case _ => true
  }

  lemma PlainLocks(st: State, a: Action)
    requires Typed(st) && Enabled(st, a) && NoLockStep(st, a) && PcOk(st, st.running())
    ensures Next(st, a).holder == st.holder
    ensures forall l :: LockSem(l) in Next(st, a).semas ==>
      LockSem(l) in st.semas && Next(st, a).semas[LockSem(l)].value == st.semas[LockSem(l)].value
  {
    hide Yield, Depart, Unblock, Wake, Typed, RestOf;
  }

  lemma PlainSections(st: State, a: Action)
    requires Typed(st) && Enabled(st, a) && NoLockStep(st, a) && Next(st, a).holder == st.holder
    ensures forall t, l :: (t in Next(st, a).pc && InSection(Next(st, a), t, l)) <==>
            (t in st.pc && InSection(st, t, l))
  {
    hide Yield, Depart, Unblock, Wake, Raised, Lowered, Queue;
  }

  lemma LocksNext(st: State, a: Action)
    requires Inv(st) && Enabled(st, a)
    ensures Locks(Next(st, a))
  {
    var t, pc, st' := st.running(), st.pc[st.running()], Next(st, a);
    assert PcOk(st, t);
    if NoLockStep(st, a) {
      PlainLocks(st, a);
      PlainSections(st, a);
      assert forall k :: LockSem(k) in st'.semas ==> SameSection(st, st', k);
      LocksUntouched(st, st');
    } else {
      LockStepLocks(st, a);
    }
  }

  lemma TestLocks(st: State, l: nat)
    requires Typed(st) && Locks(st) && st.pc[st.running()].Down? && st.pc[st.running()].s == LockSem(l) &&
             LockSem(l) in st.semas
    ensures Locks(DownTest(st))
  {
    var st' := DownTest(st);
    hide Depart;
    if st.semas[LockSem(l)].value > 0 {
      EnterLocks(st, st', l);
    } else {
      assert forall k :: LockSem(k) in st'.semas ==> SameSection(st, st', k);
      LocksUntouched(st, st');
    }
  }

  lemma LockStepLocks(st: State, a: Action)
    requires Inv(st) && Enabled(st, a) && !NoLockStep(st, a) && PcOk(st, st.running())
    ensures Locks(Next(st, a))
  {
    var t, pc, st' := st.running(), st.pc[st.running()], Next(st, a);
    hide Wakes, Places, Tickets, Wake, Depart, Raised, Lowered, DownTest, Locks, Typed;
    match a
    case SemaInit(s, v) => InitLocks(st, st', s, v);
    case TestStep => TestLocks(st, pc.s.lock);
    case TryAcquire(l) => if st.semas[LockSem(l)].value > 0 { EnterLocks(st, st', l); }
    case SetHolder => HolderLocks(st, st', pc.l);
    case ClearHolder => HolderLocks(st, st', pc.l);
    case RaiseStep => LeaveLocks(st, st', pc.l, st'.pc[t]);
    case _ =>
  }

  lemma InitLocks(st: State, st': State, s: Sema, v: nat)
    requires Typed(st) && Locks(st) && s !in st.semas && (s.LockSem? ==> v == 1) && !s.Private?
    requires st' == st.(semas := st.semas[s := SemaState(v, [])])
    ensures Locks(st')
  {
    forall l | LockSem(l) in st'.semas
      ensures LockOk(st', l)
    {
      if LockSem(l) == s {
        forall t | t in st.pc
          ensures !InSection(st', t, l)
        {
          assert PcOk(st, t);
        }
        assert Section(st', l) == {};
      } else {
        assert Section(st', l) == Section(st, l);
        assert LockOk(st, l);
      }
    }
  }

  // ---------------------------------------------------------------- positions

  ghost predicate PcsOk(st: State) {
    forall t :: t in st.pc ==> PcOk(st, t)
  }

  /** Holders are threads and hold locks that exist. */
  ghost predicate HoldersOk(st: State) {
    forall l :: l in st.holder ==> LockSem(l) in st.semas && st.holder[l] in st.pc
  }

  /** The running thread moves; no lock changes hands. */
  lemma PcsFrame(st: State, st': State, pc: Pc)
    requires Typed(st) && st'.pc == st.pc[st.running() := pc] && st'.holder == st.holder
    requires st.semas.Keys <= st'.semas.Keys && PcOk(st', st.running())
    ensures PcsOk(st') && HoldersOk(st')
  {
    forall t | t in st'.pc
      ensures PcOk(st', t)
    {
      assert PcOk(st, t);
    }
    forall l | l in st'.holder
      ensures LockSem(l) in st'.semas
    {
      assert LockSem(l) in st.semas.Keys;
    }
  }

  /** A lock gets or loses its holder: no other thread is in its section. */
  lemma PcsHolder(st: State, st': State, l: nat, pc: Pc)
    requires Typed(st) && LockSem(l) in st.semas && LockOk(st, l) && st.running() in Section(st, l)
    requires st'.semas == st.semas && st'.pc == st.pc[st.running() := pc] && PcOk(st', st.running())
    requires st'.holder == st.holder[l := st.running()] || st'.holder == st.holder - {l}
    ensures PcsOk(st') && HoldersOk(st')
  {
    forall t | t in st'.pc
      ensures PcOk(st', t)
    {
      assert PcOk(st, t);
      if t != st.running() && t in Section(st, l) {
        OnlyOne(st, l, t, st.running());
      }
    }
  }

  predicate PlainMove(a: Action) {
    !a.TestStep? && !a.TryAcquire? && !a.Create? && !a.SetHolder? && !a.ClearHolder? && !a.SignalPop?
  }

  lemma PlainFrame(st: State, a: Action)
    requires Typed(st) && Enabled(st, a) && PlainMove(a) && PcOk(st, st.running())
    ensures var t, st' := st.running(), Next(st, a);
            st'.holder == st.holder && st.semas.Keys <= st'.semas.Keys && t in st'.pc && st'.pc == st.pc[t := st'.pc[t]]
  {
    assert st.running() in st.pc;
    hide Typed, Depart, Yield, Unblock, Wake, RestOf, PcOk;
  }

  lemma PlainPcs(st: State, a: Action)
    requires Typed(st) && Enabled(st, a) && PlainMove(a) && PcOk(st, st.running())
    requires st.semas.Keys <= Next(st, a).semas.Keys && Next(st, a).holder == st.holder
    ensures var t, st' := st.running(), Next(st, a);
            t in st'.pc && PcOk(st', t) && (t == IDLE ==> st'.pc[t] == st.pc[t])
  {
    var t := st.running();
    assert t in st.pc && (t == IDLE ==> st.pc[t] == Code) && HoldersOk(st);
    hide Typed, Depart, Yield, Unblock, Wake, RestOf, Raised, Lowered;
  }

  lemma PcsNext(st: State, a: Action)
    requires Inv(st) && Enabled(st, a)
    ensures PcsOk(Next(st, a)) && HoldersOk(Next(st, a)) && IDLE in Next(st, a).pc && Next(st, a).pc[IDLE] == Code
  {
    var t, pc, st' := st.running(), st.pc[st.running()], Next(st, a);
    assert PcOk(st, t);
    if PlainMove(a) {
      PlainFrame(st, a);
      PlainPcs(st, a);
      PcsFrame(st, st', st'.pc[t]);
    } else {
      HandoverPcs(st, a);
    }
  }

  lemma HandoverPcs(st: State, a: Action)
    requires Inv(st) && Enabled(st, a) && !PlainMove(a) && PcOk(st, st.running())
    ensures PcsOk(Next(st, a)) && HoldersOk(Next(st, a)) && IDLE in Next(st, a).pc && Next(st, a).pc[IDLE] == Code
  {
    hide PcsOk, HoldersOk, Wakes, Tickets, Places, Locks, LockOk, Typed, DownTest;
    match a
    case TestStep => TestPcs(st);
    case TryAcquire(l) => TryPcs(st, l);
    case Create(u) => CreatePcs(st, u);
    case SetHolder => SetHolderPcs(st);
    case ClearHolder => ClearHolderPcs(st);
    case SignalPop(c, l) => SignalPopPcs(st, c, l);
    case _ =>
  }

  lemma SetHolderPcs(st: State)
    requires Inv(st) && Enabled(st, SetHolder) && PcOk(st, st.running())
    ensures var st' := Next(st, SetHolder);
            PcsOk(st') && HoldersOk(st') && IDLE in st'.pc && st'.pc[IDLE] == Code
  {
    LockOkOf(st, st.pc[st.running()].l);
    PcsHolder(st, Next(st, SetHolder), st.pc[st.running()].l, Code);
  }

  lemma ClearHolderPcs(st: State)
    requires Inv(st) && Enabled(st, ClearHolder) && PcOk(st, st.running())
    ensures var st' := Next(st, ClearHolder);
            PcsOk(st') && HoldersOk(st') && IDLE in st'.pc && st'.pc[IDLE] == Code
  {
    var pc := st.pc[st.running()];
    LockOkOf(st, pc.l);
    PcsHolder(st, Next(st, ClearHolder), pc.l, Raising(pc.l, pc.waiting));
  }

  lemma SignalPopPcs(st: State, c: nat, l: nat)
    requires Inv(st) && Enabled(st, SignalPop(c, l))
    ensures var st' := Next(st, SignalPop(c, l));
            PcsOk(st') && HoldersOk(st') && IDLE in st'.pc && st'.pc[IDLE] == Code
  {
    SignalHead(st, c);
    PcsFrame(st, Next(st, SignalPop(c, l)), Signalling(st.conds[c][0]));
  }

  lemma LockOkOf(st: State, l: nat)
    requires Locks(st) && LockSem(l) in st.semas
    ensures LockOk(st, l)
  {}

  lemma TestPcs(st: State)
    requires Inv(st) && st.pc[st.running()].Down? && PcOk(st, st.running())
    ensures var st' := DownTest(st);
            PcsOk(st') && HoldersOk(st') && IDLE in st'.pc && st'.pc[IDLE] == Code
  {
    var t, pc, st' := st.running(), st.pc[st.running()], DownTest(st);
    if pc.s.LockSem? && st.semas[pc.s].value > 0 {
      NobodyInside(st, pc.s.lock);
    }
    PcsFrame(st, st', st'.pc[t]);
  }

  lemma TryPcs(st: State, l: nat)
    requires Inv(st) && Enabled(st, TryAcquire(l))
    ensures var st' := Next(st, TryAcquire(l));
            PcsOk(st') && HoldersOk(st') && IDLE in st'.pc && st'.pc[IDLE] == Code
  {
    if st.semas[LockSem(l)].value > 0 {
      NobodyInside(st, l);
      PcsFrame(st, Next(st, TryAcquire(l)), Got(l));
    }
  }

  lemma CreatePcs(st: State, u: Tid)
    requires Typed(st) && Enabled(st, Create(u))
    ensures var st' := Next(st, Create(u));
            PcsOk(st') && HoldersOk(st') && IDLE in st'.pc && st'.pc[IDLE] == Code
  {
    var st' := Next(st, Create(u));
    forall t | t in st'.pc
      ensures PcOk(st', t)
    {
      if t != u { assert PcOk(st, t); }
    }
  }

  /** The thread at the head of a condition's list is in cond_wait. */
  lemma SignalHead(st: State, c: nat)
    requires Tickets(st) && c in st.conds && st.conds[c] != []
    ensures var u := st.conds[c][0];
            u in st.tickets && st.tickets[u] == Queued(c) && u in st.pc && AwaitsSignal(st.pc[u]) &&
            Private(u) in st.semas
  {
    assert CondOk(st, c);
    assert TicketOk(st, st.conds[c][0]);
  }

  // ---------------------------------------------------------------- where threads are

  ghost predicate Keyed(st: State) {
    st.running() in st.pc && st.pc.Keys == st.sched.status.Keys && IDLE in st.pc
  }

  lemma DistinctMore(list: seq<Tid>, t: Tid)
    requires Distinct(list) && t !in list
    ensures Distinct(list + [t])
  {}

  lemma DistinctRest(list: seq<Tid>)
    requires Distinct(list)
    ensures Distinct(RestOf(list)) && (list != [] ==> list[0] !in RestOf(list))
    ensures forall t :: t in RestOf(list) ==> t in list
    ensures forall t :: t in list && t != list[0] ==> t in RestOf(list)
  {
    if list != [] { assert list == [list[0]] + list[1..]; }
  }

  /** schedule: the head of the ready list runs, or the idle thread does. */
  lemma DispatchPlaces(st: State, st': State)
    requires Lists(st) && Nobody(st) && st.pc.Keys == st.sched.status.Keys
    requires st'.sched == Dispatch(st.sched) && st'.semas == st.semas && st'.pc == st.pc
    ensures Places(st') && Keyed(st')
  {
    var next := NextToRun(st.sched.ready);
    DistinctRest(st.sched.ready);
    if st.sched.ready != [] { assert IsReady(st, next); }
    forall u | u in st'.sched.ready
      ensures IsReady(st', u)
    {
      assert IsReady(st, u);
    }
    forall s | s in st'.semas
      ensures QueueOk(st', s)
    {
      assert QueueOk(st, s);
      forall t | t in st'.semas[s].waiters
        ensures WaitsFor(st', t, s)
      {
        assert WaitsFor(st, t, s);
      }
    }
    forall t | t in st'.sched.status && t != IDLE
      ensures Placed(st', t)
    {
      assert Placed(st, t);
    }
  }

  /** A thread that is not running is placed as before when only the running thread's
      status changes and queues only grow. */
  lemma LeaveLists(st: State, st': State, t: Tid, status: Status)
    requires Places(st) && Keyed(st) && t == st.running() && status != Running &&
             (t != IDLE && status == Ready ==> t in st'.sched.ready)
    requires st'.sched.status == st.sched.status[t := status] && st'.semas == st.semas && st'.pc == st.pc
    requires st'.sched.ready == st.sched.ready || (st'.sched.ready == st.sched.ready + [t] && status == Ready &&
             t != IDLE)
    requires t != IDLE ==> status != Blocked
    ensures Lists(st') && Nobody(st')
  {
    assert !IsReady(st, t);
    DistinctMore(st.sched.ready, t);
    forall u | u in st'.sched.ready
      ensures IsReady(st', u)
    {
      if u != t { assert IsReady(st, u); }
    }
    forall s | s in st'.semas
      ensures QueueOk(st', s)
    {
      assert QueueOk(st, s);
      forall u | u in st'.semas[s].waiters
        ensures WaitsFor(st', u, s)
      {
        assert WaitsFor(st, u, s);
      }
    }
    forall u | u in st'.sched.status && u != IDLE
      ensures Placed(st', u)
    {
      assert Placed(st, u);
    }
  }

  /** The running thread joins the queue of s. */
  lemma BlockLists(st: State, st': State, t: Tid, s: Sema, pc: Pc)
    requires Places(st) && Keyed(st) && t == st.running() && t != IDLE && s in st.semas
    requires st'.sched == Sched(t, st.sched.ready, st.sched.status[t := Blocked])
    requires st'.semas == Queue(st.semas, s, t) && st'.pc == st.pc[t := pc] && pc.Down? && pc.waited && pc.s == s
    ensures Lists(st') && Nobody(st')
  {
    RunningNotQueued(st, s);
    forall u | u in st'.sched.ready
      ensures IsReady(st', u)
    {
      assert IsReady(st, u);
    }
    forall x | x in st'.semas
      ensures QueueOk(st', x)
    {
      assert QueueOk(st, x);
      forall u | u in st'.semas[x].waiters
        ensures WaitsFor(st', u, x)
      {
        if u != t { assert WaitsFor(st, u, x); }
        else { RunningNotQueued(st, x); }
      }
    }
    forall u | u in st'.sched.status && u != IDLE
      ensures Placed(st', u)
    {
      if u != t { assert Placed(st, u); }
    }
  }

  /** The queues are the same, but for new empty ones. */
  ghost predicate SameQueues(st: State, st': State) {
    forall s :: s in st'.semas ==> st'.semas[s].waiters == if s in st.semas then st.semas[s].waiters else []
  }

  /** The running thread moves on. */
  lemma MovePlaces(st: State, st': State, pc: Pc)
    requires Places(st) && Keyed(st) && st'.sched == st.sched && st'.pc == st.pc[st.running() := pc]
    requires SameQueues(st, st') && st.semas.Keys <= st'.semas.Keys
    ensures Places(st') && Keyed(st')
  {
    forall s | s in st'.semas
      ensures QueueOk(st', s)
    {
      if s in st.semas {
        assert QueueOk(st, s);
        forall u | u in st'.semas[s].waiters
          ensures WaitsFor(st', u, s)
        {
          assert WaitsFor(st, u, s);
        }
      }
    }
    forall u | u in st.sched.ready
      ensures IsReady(st', u)
    {
      assert IsReady(st, u);
    }
    forall u | u in st'.sched.status && u != IDLE
      ensures Placed(st', u)
    {
      assert Placed(st, u);
      assert st.sched.status[u] == Blocked ==> st.pc[u].s in st.semas.Keys;
    }
  }

  /** thread_unblock's assertion holds for the first waiter. */
  lemma FirstWaiterBlocked(st: State, s: Sema)
    requires Lists(st) && s in st.semas && st.semas[s].waiters != []
    ensures WaitsFor(st, st.semas[s].waiters[0], s)
  {
    assert QueueOk(st, s);
  }

  /** sema_up moves the first waiter to the ready list. */
  lemma UpPlaces(st: State, st': State, s: Sema, pc: Pc)
    requires Places(st) && Keyed(st) && s in st.semas
    requires st'.sched == Wake(st.sched, st.semas[s].waiters) && st'.semas == Raised(st.semas, s)
    requires st'.pc == st.pc[st.running() := pc]
    ensures Places(st') && Keyed(st')
  {
    var w := st.semas[s].waiters;
    if w == [] {
      MovePlaces(st, st', pc);
    } else {
      FirstWaiterBlocked(st, s);
      WokenPlaces(st, st', s, pc);
    }
  }

  lemma WokenPlaces(st: State, st': State, s: Sema, pc: Pc)
    requires Places(st) && Keyed(st) && s in st.semas && st.semas[s].waiters != []
    requires WaitsFor(st, st.semas[s].waiters[0], s)
    requires st'.sched == Unblock(st.sched, st.semas[s].waiters[0]) && st'.semas == Raised(st.semas, s)
    requires st'.pc == st.pc[st.running() := pc]
    ensures Places(st') && Keyed(st')
  {
    var w := st.semas[s].waiters;
    var h := w[0];
    assert QueueOk(st, s);
    DistinctRest(w);
    assert !IsReady(st, h);
    DistinctMore(st.sched.ready, h);
    forall x | x in st'.semas
      ensures QueueOk(st', x)
    {
      assert QueueOk(st, x);
      forall u | u in st'.semas[x].waiters
        ensures WaitsFor(st', u, x)
      {
        assert WaitsFor(st, u, x);
      }
    }
    forall u | u in st'.sched.ready
      ensures IsReady(st', u)
    {
      if u != h { assert IsReady(st, u); }
    }
    forall u | u in st'.sched.status && u != IDLE
      ensures Placed(st', u)
    {
      assert Placed(st, u);
    }
  }

  lemma CreatePlaces(st: State, u: Tid)
    requires Typed(st) && Places(st) && Keyed(st) && Enabled(st, Create(u))
    ensures Places(Next(st, Create(u))) && Keyed(Next(st, Create(u)))
  {
    var st' := Next(st, Create(u));
    assert !IsReady(st, u);
    DistinctMore(st.sched.ready, u);
    forall x | x in st'.semas
      ensures QueueOk(st', x)
    {
      assert QueueOk(st, x);
      forall v | v in st'.semas[x].waiters
        ensures WaitsFor(st', v, x)
      {
        assert WaitsFor(st, v, x);
      }
    }
    forall v | v in st'.sched.ready
      ensures IsReady(st', v)
    {
      if v != u { assert IsReady(st, v); }
    }
    forall v | v in st'.sched.status && v != IDLE
      ensures Placed(st', v)
    {
      if v != u { assert Placed(st, v); }
    }
  }

  /** Giving up the processor without waiting: thread_yield, the idle loop, thread_exit. */
  lemma DepartPlaces(st: State, st': State, ready: seq<Tid>, status: Status)
    requires Places(st) && Keyed(st)
    requires status == Ready || status == Dying || (status == Blocked && st.running() == IDLE)
    requires ready == if status == Ready && st.running() != IDLE then st.sched.ready + [st.running()]
             else st.sched.ready
    requires st'.sched == Depart(Sched(st.running(), ready, st.sched.status), status) && st'.semas == st.semas &&
             st'.pc == st.pc
    ensures Places(st') && Keyed(st')
  {
    var mid := st.(sched := Sched(st.running(), ready, st.sched.status[st.running() := status]));
    LeaveLists(st, mid, st.running(), status);
    DispatchPlaces(mid, st');
  }

  lemma TestPlaces(st: State)
    requires Typed(st) && Places(st) && Keyed(st) && st.pc[st.running()].Down? && st.pc[st.running()].s in st.semas
    ensures Places(DownTest(st)) && Keyed(DownTest(st))
  {
    var t, pc, st' := st.running(), st.pc[st.running()], DownTest(st);
    assert t != IDLE;
    hide Places, Lists, Nobody, Typed, PcOk;
    if st.semas[pc.s].value == 0 {
      var mid := st'.(sched := Sched(t, st.sched.ready, st.sched.status[t := Blocked]));
      BlockLists(st, mid, t, pc.s, Down(pc.s, true, pc.relock));
      DispatchPlaces(mid, st');
    } else {
      MovePlaces(st, st', After(pc));
    }
  }

  predicate Raises(a: Action) { a.UpStep? || a.RaiseStep? || a.SignalUp? }

  predicate Departs(a: Action) { a.Preempt? || a.IdleBlock? || a.Exit? }

  lemma RaisingPlaces(st: State, a: Action)
    requires Places(st) && Keyed(st) && Typed(st) && Enabled(st, a) && Raises(a) && PcOk(st, st.running())
    ensures Places(Next(st, a)) && Keyed(Next(st, a))
  {
    var t, pc, st' := st.running(), st.pc[st.running()], Next(st, a);
    hide Typed, Places, Keyed, Wake, Raised;
    var s := if a.UpStep? then Named(a.id) else if a.RaiseStep? then LockSem(pc.l) else Private(pc.u);
    UpPlaces(st, st', s, st'.pc[t]);
  }

  lemma DepartingPlaces(st: State, a: Action)
    requires Places(st) && Keyed(st) && Typed(st) && Enabled(st, a) && Departs(a)
    ensures Places(Next(st, a)) && Keyed(Next(st, a))
  {
    var t, st' := st.running(), Next(st, a);
    hide Typed, Places, Keyed, Depart;
    var status := if a.Preempt? then Ready else if a.IdleBlock? then Blocked else Dying;
    DepartPlaces(st, st', if a.Preempt? && t != IDLE then st.sched.ready + [t] else st.sched.ready, status);
  }

  lemma PlacesNext(st: State, a: Action)
    requires Inv(st) && Enabled(st, a)
    ensures Places(Next(st, a)) && Keyed(Next(st, a))
  {
    assert PcOk(st, st.running()) && Keyed(st);
    hide Places, Keyed, Next;
    if a.TestStep? {
      TestPlaces(st);
      TestIsNext(st);
    } else if a.Create? {
      CreatePlaces(st, a.t);
    } else if Raises(a) {
      RaisingPlaces(st, a);
    } else if Departs(a) {
      DepartingPlaces(st, a);
    } else {
      OtherPlaces(st, a);
    }
  }

  lemma TestIsNext(st: State)
    requires Typed(st) && Enabled(st, TestStep) && st.pc[st.running()].s in st.semas
    ensures Next(st, TestStep) == DownTest(st)
  {}

  predicate Staying(a: Action) {
    !a.TestStep? && !a.Create? && !a.UpStep? && !a.RaiseStep? && !a.SignalUp? && !a.Preempt? && !a.IdleBlock? &&
    !a.Exit?
  }

  /** A thread in its own code has nobody waiting on its private semaphore. */
  lemma PrivateQueue(st: State)
    requires Typed(st) && Lists(st) && Current(st) && Private(st.running()) in st.semas
    ensures st.semas[Private(st.running())].waiters == []
  {
    var t := st.running();
    var w := st.semas[Private(t)].waiters;
    if w != [] {
      FirstWaiterBlocked(st, Private(t));
      OnlyOwnerWaits(st, t, w[0]);
    }
  }

  lemma OnlyOwnerWaits(st: State, u: Tid, t: Tid)
    requires PcsOk(st) && WaitsFor(st, t, Private(u))
    ensures t == u
  {
    assert PcOk(st, t);
  }

  lemma StayingFrame(st: State, a: Action)
    requires Typed(st) && Enabled(st, a) && Staying(a)
    ensures var t, st' := st.running(), Next(st, a);
            st'.sched == st.sched && t in st'.pc && st'.pc == st.pc[t := st'.pc[t]]
  {
    assert st.running() in st.pc;
    hide Typed, Lowered;
  }

  lemma StayingQueues(st: State, a: Action)
    requires Typed(st) && Enabled(st, a) && Staying(a)
    requires a.CallWait? && Private(st.running()) in st.semas ==> st.semas[Private(st.running())].waiters == []
    ensures SameQueues(st, Next(st, a)) && st.semas.Keys <= Next(st, a).semas.Keys
  {
    assert st.running() in st.pc;
    hide Typed;
  }

  lemma OtherPlaces(st: State, a: Action)
    requires Inv(st) && Enabled(st, a) && Staying(a) && Keyed(st)
    ensures Places(Next(st, a)) && Keyed(Next(st, a))
  {
    if a.CallWait? && Private(st.running()) in st.semas { PrivateQueue(st); }
    StayingFrame(st, a);
    StayingQueues(st, a);
    var t, st' := st.running(), Next(st, a);
    hide *;
    MovePlaces(st, st', st'.pc[t]);
  }

  // ---------------------------------------------------------------- signals

  lemma QuietTickets(st: State, st': State, t: Tid)
    requires Typed(st) && Tickets(st) && st'.conds == st.conds && st'.tickets == st.tickets && t in st.pc && t in st'.pc
    requires st'.pc == st.pc[t := st'.pc[t]]
    requires AwaitsSignal(st'.pc[t]) == AwaitsSignal(st.pc[t])
    requires st'.pc[t] == st.pc[t] || (!st'.pc[t].Signalling? && !st.pc[t].Signalling?)
    requires forall u :: Private(u) in st'.semas <==> Private(u) in st.semas
    requires forall u :: Private(u) in st.semas ==> st'.semas[Private(u)].value == st.semas[Private(u)].value
    ensures Tickets(st')
  {
    forall c | c in st'.conds
      ensures CondOk(st', c)
    {
      assert CondOk(st, c);
    }
    forall u | u in st'.tickets
      ensures TicketOk(st', u)
    {
      assert TicketOk(st, u);
    }
    forall u | u in st'.pc
      ensures SignalOk(st', u)
    {
      assert SignalOk(st, u);
    }
    forall u | Private(u) in st'.semas
      ensures SentOk(st', u)
    {
      assert SentOk(st, u);
    }
  }

  /** The steps that move no signal. */
  predicate NoSignalStep(st: State, a: Action)
    requires st.running() in st.pc && Enabled(st, a)
  {
    var pc := st.pc[st.running()];
    !a.CondInit? && !a.CallWait? && !a.SignalPop? && !a.SignalUp? && !a.Create? &&
    (a.TestStep? && pc.s.Private? ==> pc.s in st.semas && st.semas[pc.s].value == 0)
  }

  lemma NoSignalFrame(st: State, a: Action)
    requires Typed(st) && Enabled(st, a) && NoSignalStep(st, a) && PcOk(st, st.running())
    ensures var t, st' := st.running(), Next(st, a);
            st'.conds == st.conds && st'.tickets == st.tickets && t in st'.pc && st'.pc == st.pc[t := st'.pc[t]]
  {
    assert st.running() in st.pc;
    hide Typed, Depart, Yield, Wake, RestOf, Raised, Lowered;
  }

  lemma NoSignalMove(st: State, a: Action)
    requires Typed(st) && Enabled(st, a) && NoSignalStep(st, a) && PcOk(st, st.running()) &&
             st.running() in Next(st, a).pc
    ensures var t, st' := st.running(), Next(st, a);
            AwaitsSignal(st'.pc[t]) == AwaitsSignal(st.pc[t]) &&
            (st'.pc[t] == st.pc[t] || (!st'.pc[t].Signalling? && !st.pc[t].Signalling?))
  {
    assert st.running() in st.pc;
    hide Typed, Depart, Yield, Wake, RestOf, Raised, Lowered;
  }

  lemma NoSignalSemas(st: State, a: Action)
    requires Typed(st) && Enabled(st, a) && NoSignalStep(st, a) && PcOk(st, st.running())
    ensures var st' := Next(st, a);
            (forall u :: Private(u) in st'.semas <==> Private(u) in st.semas) &&
            forall u :: Private(u) in st.semas ==> st'.semas[Private(u)].value == st.semas[Private(u)].value
  {
    assert st.running() in st.pc;
    hide Typed, Depart, Yield, Wake, RestOf, AwaitsSignal;
  }

  lemma TicketsNext(st: State, a: Action)
    requires Inv(st) && Enabled(st, a)
    ensures Tickets(Next(st, a))
  {
    var t, pc, st' := st.running(), st.pc[st.running()], Next(st, a);
    assert PcOk(st, t);
    if NoSignalStep(st, a) {
      NoSignalFrame(st, a);
      NoSignalMove(st, a);
      NoSignalSemas(st, a);
      hide Tickets, NoSignalStep, Places, Wakes, Locks;
      QuietTickets(st, st', t);
    } else {
      SignalSteps(st, a);
    }
  }

  lemma SignalSteps(st: State, a: Action)
    requires Inv(st) && Enabled(st, a) && !NoSignalStep(st, a) && PcOk(st, st.running())
    ensures Tickets(Next(st, a))
  {
    match a
    case CondInit(c) => CondInitTickets(st, c);
    case CallWait(c, l) => CallWaitTickets(st, c, l);
    case SignalPop(c, l) => SignalPopTickets(st, c, l);
    case SignalUp => SignalUpTickets(st);
    case Create(u) => CreateTickets(st, u);
    case TestStep => ReceivedTickets(st, Next(st, a));
    case _ =>
  }

  lemma CallWaitTickets(st: State, c: nat, l: nat)
    requires Inv(st) && Enabled(st, CallWait(c, l))
    ensures Tickets(Next(st, CallWait(c, l)))
  {
    hide Tickets;
    WaitTickets(st, Next(st, CallWait(c, l)), c, l);
  }

  lemma SignalPopTickets(st: State, c: nat, l: nat)
    requires Inv(st) && Enabled(st, SignalPop(c, l))
    ensures Tickets(Next(st, SignalPop(c, l)))
  {
    hide Tickets;
    PopTickets(st, Next(st, SignalPop(c, l)), c);
  }

  lemma SignalUpTickets(st: State)
    requires Inv(st) && Enabled(st, SignalUp) && PcOk(st, st.running())
    ensures Tickets(Next(st, SignalUp))
  {
    hide Tickets;
    SentTickets(st, Next(st, SignalUp), st.pc[st.running()].u);
  }

  lemma CondInitTickets(st: State, c: nat)
    requires Tickets(st) && c !in st.conds
    ensures Tickets(st.(conds := st.conds[c := []]))
  {
    var st' := st.(conds := st.conds[c := []]);
    forall k | k in st'.conds
      ensures CondOk(st', k)
    {
      if k != c { assert CondOk(st, k); }
    }
    forall u | u in st'.tickets
      ensures TicketOk(st', u)
    {
      assert TicketOk(st, u);
    }
    forall u | u in st'.pc
      ensures SignalOk(st', u)
    {
      assert SignalOk(st, u);
    }
    forall u | Private(u) in st'.semas
      ensures SentOk(st', u)
    {
      assert SentOk(st, u);
    }
  }

  lemma CreateTickets(st: State, t: Tid)
    requires Typed(st) && Tickets(st) && Enabled(st, Create(t))
    ensures Tickets(Next(st, Create(t)))
  {
    var st' := Next(st, Create(t));
    forall k | k in st'.conds
      ensures CondOk(st', k)
    {
      assert CondOk(st, k);
    }
    forall u | u in st'.tickets
      ensures TicketOk(st', u)
    {
      assert TicketOk(st, u);
    }
    forall u | u in st'.pc
      ensures SignalOk(st', u)
    {
      if u != t { assert SignalOk(st, u); }
    }
    forall u | Private(u) in st'.semas
      ensures SentOk(st', u)
    {
      assert SentOk(st, u);
    }
  }

  /** cond_wait: the thread queues, with its private semaphore at 0. */
  lemma WaitTickets(st: State, st': State, c: nat, l: nat)
    requires Tickets(st) && c in st.conds && st.running() in st.pc && st.pc[st.running()] == Code
    requires var t := st.running();
             st'.semas == st.semas[Private(t) := SemaState(0, [])] && st'.conds == st.conds[c := st.conds[c] + [t]] &&
             st'.pc == st.pc[t := Clearing(l, true)] && st'.tickets == st.tickets[t := Queued(c)]
    ensures Tickets(st')
  {
    var t := st.running();
    assert t !in st.tickets;
    assert CondOk(st, c);
    DistinctMore(st.conds[c], t);
    forall k | k in st'.conds
      ensures CondOk(st', k)
    {
      assert CondOk(st, k);
    }
    forall u | u in st'.tickets
      ensures TicketOk(st', u)
    {
      if u != t { assert TicketOk(st, u); }
    }
    forall u | u in st'.pc
      ensures SignalOk(st', u)
    {
      assert SignalOk(st, u);
    }
    forall u | Private(u) in st'.semas
      ensures SentOk(st', u)
    {
      if u != t { assert SentOk(st, u); }
    }
  }

  /** cond_signal takes the longest waiting thread off the list. */
  lemma PopTickets(st: State, st': State, c: nat)
    requires Tickets(st) && c in st.conds && st.conds[c] != [] && st.running() in st.pc && st.pc[st.running()] == Code
    requires var t, u := st.running(), st.conds[c][0];
             st'.semas == st.semas && st'.conds == st.conds[c := st.conds[c][1..]] &&
             st'.pc == st.pc[t := Signalling(u)] && st'.tickets == st.tickets[u := Taken(t)]
    ensures Tickets(st')
  {
    var t, h := st.running(), st.conds[c][0];
    SignalHead(st, c);
    assert CondOk(st, c);
    DistinctRest(st.conds[c]);
    forall k | k in st'.conds
      ensures CondOk(st', k)
    {
      assert CondOk(st, k);
    }
    forall u | u in st'.tickets
      ensures TicketOk(st', u)
    {
      assert TicketOk(st, u);
    }
    forall u | u in st'.pc
      ensures SignalOk(st', u)
    {
      assert SignalOk(st, u);
    }
    forall u | Private(u) in st'.semas
      ensures SentOk(st', u)
    {
      assert SentOk(st, u);
    }
  }

  /** The signaller's sema_up. */
  lemma SentTickets(st: State, st': State, h: Tid)
    requires Tickets(st) && st.running() in st.pc && st.pc[st.running()] == Signalling(h) && Private(h) in st.semas
    requires st'.semas == Raised(st.semas, Private(h)) && st'.conds == st.conds &&
             st'.pc == st.pc[st.running() := Code] && st'.tickets == st.tickets[h := Sent]
    ensures Tickets(st')
  {
    var t := st.running();
    assert SignalOk(st, t);
    assert TicketOk(st, h);
    forall k | k in st'.conds
      ensures CondOk(st', k)
    {
      assert CondOk(st, k);
    }
    forall u | u in st'.tickets
      ensures TicketOk(st', u)
    {
      assert TicketOk(st, u);
    }
    forall u | u in st'.pc
      ensures SignalOk(st', u)
    {
      assert SignalOk(st, u);
    }
    forall u | Private(u) in st'.semas
      ensures SentOk(st', u)
    {
      assert SentOk(st, u);
    }
  }

  /** The waiter gets past its private semaphore: its signal is used up. */
  lemma ReceivedTickets(st: State, st': State)
    requires Tickets(st) && st.running() in st.pc && st.pc[st.running()].Down? && PcOk(st, st.running())
    requires var t, pc := st.running(), st.pc[st.running()];
             pc.s == Private(t) && st.semas[pc.s].value > 0 &&
             st'.semas == Lowered(st.semas, pc.s) && st'.conds == st.conds &&
             st'.pc == st.pc[t := After(pc)] && st'.tickets == st.tickets - {t}
    ensures Tickets(st')
  {
    var t := st.running();
    assert SentOk(st, t);
    assert SignalOk(st, t);
    forall k | k in st'.conds
      ensures CondOk(st', k)
    {
      assert CondOk(st, k);
    }
    forall u | u in st'.tickets
      ensures TicketOk(st', u)
    {
      assert TicketOk(st, u);
    }
    forall u | u in st'.pc
      ensures SignalOk(st', u)
    {
      assert SignalOk(st, u);
    }
    forall u | Private(u) in st'.semas
      ensures SentOk(st', u)
    {
      assert SentOk(st, u);
    }
  }

  // ---------------------------------------------------------------- runs

  /** Every step keeps the invariant. */
  lemma InvNext(st: State, a: Action)
    requires Inv(st) && Enabled(st, a)
    ensures Inv(Next(st, a))
  {
    PcsNext(st, a);
    PlacesNext(st, a);
    WakesNext(st, a);
    LocksNext(st, a);
    TicketsNext(st, a);
    hide PcOk, Places, Wakes, Locks, Tickets, Next;
  }

  /** The state after thread_start: the main thread runs, the idle thread waits to be asked. */
  function Boot(main: Tid): State {
    State(Sched(main, [], map[main := Running, IDLE := Blocked]), map[], map[], map[],
          map[main := Code, IDLE := Code], map[])
  }

  lemma BootInv(main: Tid)
    requires main != IDLE
    ensures Inv(Boot(main))
  {}

  /** A run: each state follows from the one before by a step that was enabled. */
  ghost predicate IsRun(states: seq<State>, steps: seq<Action>) {
    |states| == |steps| + 1 && (exists main: Tid :: main != IDLE && states[0] == Boot(main)) &&
    forall i :: 0 <= i < |steps| ==> Follows(states[i], steps[i], states[i + 1])
  }

  ghost predicate Follows(st: State, a: Action, st': State) {
    Typed(st) && Enabled(st, a) && st' == Next(st, a)
  }

  lemma {:induction false} RunInv(states: seq<State>, steps: seq<Action>, i: nat)
    requires IsRun(states, steps) && i < |states|
    ensures Inv(states[i])
  {
    if i == 0 {
      var main: Tid :| main != IDLE && states[0] == Boot(main);
      BootInv(main);
    } else {
      RunInv(states, steps, i - 1);
      assert Follows(states[i - 1], steps[i - 1], states[i]);
      InvNext(states[i - 1], steps[i - 1]);
    }
  }

  /** In every reachable state: if somebody waits for s, at least as many threads as its
      value have been woken and will test it again. */
  lemma NoLostWakeup(states: seq<State>, steps: seq<Action>, i: nat, s: Sema)
    requires IsRun(states, steps) && i < |states| && s in states[i].semas && states[i].semas[s].waiters != []
    ensures |Woken(states[i], s)| >= states[i].semas[s].value
  {
    RunInv(states, steps, i);
    assert WakeOk(states[i], s);
  }

  /** In every reachable state: a lock's semaphore and the threads between its decrement and
      its increment make one, so a lock has at most one holder and one thread inside. */
  lemma MutualExclusion(states: seq<State>, steps: seq<Action>, i: nat, l: nat)
    requires IsRun(states, steps) && i < |states| && LockSem(l) in states[i].semas
    ensures states[i].semas[LockSem(l)].value + |Section(states[i], l)| == 1
  {
    RunInv(states, steps, i);
    assert LockOk(states[i], l);
  }

  /** The threads at this position of the processor's lists. */
  ghost predicate OnProcessor(st: State, t: Tid) { t == st.running() }
  ghost predicate OnReady(st: State, t: Tid) { t in st.sched.ready }
  ghost predicate OnQueue(st: State, t: Tid, s: Sema) { s in st.semas && t in st.semas[s].waiters }

  /** In every reachable state each thread but the idle one that has not exited is in exactly
      one place, once, and its status says which. */
  lemma OnePlace(states: seq<State>, steps: seq<Action>, i: nat, t: Tid)
    requires IsRun(states, steps) && i < |states| && t in states[i].sched.status && t != IDLE
    ensures var st := states[i];
            (st.sched.status[t] == Running <==> OnProcessor(st, t)) &&
            (st.sched.status[t] == Ready <==> OnReady(st, t)) &&
            (st.sched.status[t] == Blocked <==> exists s :: OnQueue(st, t, s)) &&
            (forall s, x :: OnQueue(st, t, s) && OnQueue(st, t, x) ==> s == x) &&
            Distinct(st.sched.ready) && forall s :: OnQueue(st, t, s) ==> Distinct(st.semas[s].waiters)
  {
    var st := states[i];
    RunInv(states, steps, i);
    assert Placed(st, t);
    forall s | OnQueue(st, t, s)
      ensures WaitsFor(st, t, s) && Distinct(st.semas[s].waiters)
    {
      assert QueueOk(st, s);
    }
    if st.sched.status[t] == Blocked {
      assert OnQueue(st, t, st.pc[t].s);
    }
    if OnReady(st, t) { assert IsReady(st, t); }
  }

  /** A thread that still sleeps on its private semaphore has not been signalled: either it
      is in the condition's list, or the signaller that took it off has yet to call sema_up. */
  lemma SignalsArrive(states: seq<State>, steps: seq<Action>, i: nat, u: Tid)
    requires IsRun(states, steps) && i < |states| && OnQueue(states[i], u, Private(u))
    ensures var st := states[i];
            u in st.tickets &&
            ((st.tickets[u].Queued? && st.tickets[u].c in st.conds && u in st.conds[st.tickets[u].c]) ||
             (st.tickets[u].Taken? && st.tickets[u].taker in st.pc && st.pc[st.tickets[u].taker] == Signalling(u)))
  {
    var st := states[i];
    RunInv(states, steps, i);
    assert QueueOk(st, Private(u));
    assert WaitsFor(st, u, Private(u));
    assert SignalOk(st, u) && TicketOk(st, u) && SentOk(st, u);
    assert WakeOk(st, Private(u));
    forall t | t in Woken(st, Private(u))
      ensures t == u
    {
      assert PcOk(st, t);
    }
    assert Woken(st, Private(u)) == {};
  }

  // ---------------------------------------------------------------- each step spelled out

  /** From st, step a leads to st', and the invariant holds there. */
  ghost predicate StepsTo(st: State, a: Action, st': State) {
    Follows(st, a, st') && Inv(st')
  }

  lemma AnyStep(st: State, a: Action)
    requires Inv(st) && Enabled(st, a)
    ensures StepsTo(st, a, Next(st, a)) && PcOk(st, st.running())
  {
    InvNext(st, a);
    assert PcOk(st, st.running());
  }

  /** What every step may rely on: the thread that runs, the one that would be next. */
  lemma RunningFacts(st: State)
    requires Inv(st)
    ensures var t := st.running();
            t in st.pc && t in st.sched.status && IDLE in st.sched.status &&
            NextToRun(st.sched.ready) in st.sched.status &&
            PcOk(st, t)
  {
    if st.sched.ready != [] { assert IsReady(st, st.sched.ready[0]); }
  }

  lemma YieldStep(st: State)
    requires Inv(st) && Enabled(st, Preempt)
    ensures StepsTo(st, Preempt, st.(sched := Yield(st.sched)))
  {
    AnyStep(st, Preempt);
  }

  lemma IdleStep(st: State)
    requires Inv(st) && Enabled(st, IdleBlock)
    ensures StepsTo(st, IdleBlock, st.(sched := Depart(st.sched, Blocked)))
  {
    AnyStep(st, IdleBlock);
  }

  lemma CreateStep(st: State, u: Tid)
    requires Inv(st) && Enabled(st, Create(u))
    ensures StepsTo(st, Create(u), st.(sched := Unblock(st.sched, u), pc := st.pc[u := Code]))
  {
    AnyStep(st, Create(u));
  }

  lemma ExitStep(st: State)
    requires Inv(st) && Enabled(st, Exit)
    ensures StepsTo(st, Exit, st.(sched := Depart(st.sched, Dying)))
  {
    AnyStep(st, Exit);
  }

  lemma InitStep(st: State, s: Sema, v: nat)
    requires Inv(st) && Enabled(st, SemaInit(s, v))
    ensures StepsTo(st, SemaInit(s, v), st.(semas := st.semas[s := SemaState(v, [])]))
  {
    AnyStep(st, SemaInit(s, v));
  }

  lemma TestStepTo(st: State)
    requires Inv(st) && st.running() in st.pc && st.pc[st.running()].Down?
    ensures st.pc[st.running()].s in st.semas && StepsTo(st, TestStep, DownTest(st))
  {
    AnyStep(st, TestStep);
  }

  lemma UpStepTo(st: State, id: nat)
    requires Inv(st) && st.running() in st.pc && Enabled(st, UpStep(id))
    ensures Named(id) in st.semas && StepsTo(st, UpStep(id), UpAt(st, Named(id), st.pc[st.running()], st.tickets))
  {
    AnyStep(st, UpStep(id));
  }

  lemma TryDownStep(st: State, id: nat)
    requires Inv(st) && st.running() in st.pc && Enabled(st, TryDown(id))
    ensures Named(id) in st.semas
    ensures StepsTo(st, TryDown(id),
                    st.(semas := if st.semas[Named(id)].value > 0 then Lowered(st.semas, Named(id)) else st.semas))
  {
    AnyStep(st, TryDown(id));
  }

  lemma AcquireStep(st: State, l: nat)
    requires Inv(st) && Enabled(st, CallAcquire(l))
    ensures !HeldBy(st, l, st.running()) && StepsTo(st, CallAcquire(l), At(st, Down(LockSem(l), false, 0)))
  {
    AnyStep(st, CallAcquire(l));
  }

  lemma TryAcquireStep(st: State, l: nat)
    requires Inv(st) && Enabled(st, TryAcquire(l))
    ensures LockSem(l) in st.semas
    ensures StepsTo(st, TryAcquire(l),
                    if st.semas[LockSem(l)].value > 0
                    then State(st.sched, Lowered(st.semas, LockSem(l)), st.holder, st.conds,
                               st.pc[st.running() := Got(l)], st.tickets)
                    else st)
  {
    AnyStep(st, TryAcquire(l));
  }

  lemma HolderStep(st: State)
    requires Inv(st) && st.running() in st.pc && st.pc[st.running()].Got?
    ensures var t := st.running();
            StepsTo(st, SetHolder, State(st.sched, st.semas, st.holder[st.pc[t].l := t], st.conds, st.pc[t := Code],
            st.tickets))
  {
    AnyStep(st, SetHolder);
  }

  lemma ReleaseStep(st: State, l: nat)
    requires Inv(st) && Enabled(st, CallRelease(l))
    ensures HeldBy(st, l, st.running()) && StepsTo(st, CallRelease(l), At(st, Clearing(l, false)))
  {
    AnyStep(st, CallRelease(l));
  }

  lemma ClearStep(st: State)
    requires Inv(st) && st.running() in st.pc && st.pc[st.running()].Clearing?
    ensures var t, pc := st.running(), st.pc[st.running()];
            StepsTo(st, ClearHolder,
                    State(st.sched, st.semas, st.holder - {pc.l}, st.conds, st.pc[t := Raising(pc.l, pc.waiting)],
                    st.tickets))
  {
    AnyStep(st, ClearHolder);
  }

  lemma RaiseStepTo(st: State)
    requires Inv(st) && st.running() in st.pc && st.pc[st.running()].Raising?
    ensures var t, pc := st.running(), st.pc[st.running()];
            LockSem(pc.l) in st.semas &&
            StepsTo(st, RaiseStep,
                    UpAt(st, LockSem(pc.l), if pc.waiting then Down(Private(t), false, pc.l) else Code, st.tickets))
  {
    AnyStep(st, RaiseStep);
  }

  lemma WaitStep(st: State, c: nat, l: nat)
    requires Inv(st) && Enabled(st, CallWait(c, l))
    ensures var t := st.running();
            c in st.conds && HeldBy(st, l, t) &&
            StepsTo(st, CallWait(c, l),
                    State(st.sched, st.semas[Private(t) := SemaState(0, [])], st.holder,
                    st.conds[c := st.conds[c] + [t]],
                          st.pc[t := Clearing(l, true)], st.tickets[t := Queued(c)]))
  {
    AnyStep(st, CallWait(c, l));
  }

  lemma PopStep(st: State, c: nat, l: nat)
    requires Inv(st) && Enabled(st, SignalPop(c, l))
    ensures var t := st.running();
            c in st.conds && st.conds[c] != [] && HeldBy(st, l, t) &&
            StepsTo(st, SignalPop(c, l),
                    State(st.sched, st.semas, st.holder, st.conds[c := st.conds[c][1..]],
                          st.pc[t := Signalling(st.conds[c][0])], st.tickets[st.conds[c][0] := Taken(t)]))
  {
    AnyStep(st, SignalPop(c, l));
  }

  lemma SignalStep(st: State)
    requires Inv(st) && st.running() in st.pc && st.pc[st.running()].Signalling?
    ensures var u := st.pc[st.running()].u;
            Private(u) in st.semas && StepsTo(st, SignalUp, UpAt(st, Private(u), Code, st.tickets[u := Sent]))
  {
    AnyStep(st, SignalUp);
  }
}
