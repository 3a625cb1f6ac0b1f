/** What a semaphore, the lists of waiting threads and the callers of the lock functions come
    to over whole runs of SynchModel, counted step by step. */
module SynchRuns {
  import opened SynchModel

  /** Step n of a run. */
  lemma RunStep(states: seq<State>, steps: seq<Action>, n: nat)
    requires IsRun(states, steps) && n < |steps|
    ensures |states| == |steps| + 1 && Inv(states[n]) && Typed(states[n]) && states[n].running() in states[n].pc
    ensures Enabled(states[n], steps[n]) && states[n + 1] == Next(states[n], steps[n])
    ensures PcOk(states[n], states[n].running())
  {
    RunInv(states, steps, n);
    assert Follows(states[n], steps[n], states[n + 1]);
  }

  lemma AtBoot(states: seq<State>, steps: seq<Action>)
    requires IsRun(states, steps)
    ensures |states| == |steps| + 1 && states[0].semas == map[] && states[0].conds == map[] &&
            states[0].sched.ready == []
  {}

  // ---------------------------------------------------------------- values

  /** The step lets a thread past semaphore id: sema_down's loop test sends it back to its own
      code, or sema_try_down finds the value positive. */
  ghost predicate Passes(st: State, a: Action, st': State, id: nat) {
    var t := st.running();
    (a.TestStep? && t in st.pc && st.pc[t].Down? && st.pc[t].s == Named(id) && t in st'.pc && st'.pc[t] == Code) ||
    (a == TryDown(id) && Named(id) in st.semas && st.semas[Named(id)].value > 0)
  }

  /** The value that sema_init gave semaphore id in the first n steps. */
  ghost function InitialValue(steps: seq<Action>, id: nat, n: nat): int
    requires n <= |steps|
  {
    if n == 0 then 0
    else if steps[n - 1].SemaInit? && steps[n - 1].s == Named(id) then steps[n - 1].v
    else InitialValue(steps, id, n - 1)
  }

  /** How many sema_ups on it the first n steps hold. */
  ghost function Ups(steps: seq<Action>, id: nat, n: nat): nat
    requires n <= |steps|
  {
    if n == 0 then 0 else Ups(steps, id, n - 1) + if steps[n - 1] == UpStep(id) then 1 else 0
  }

  /** How many threads they let past it. */
  ghost function Passed(states: seq<State>, steps: seq<Action>, id: nat, n: nat): nat
    requires n <= |steps| < |states|
  {
    if n == 0 then 0
    else Passed(states, steps, id, n - 1) + if Passes(states[n - 1], steps[n - 1], states[n], id) then 1 else 0
  }

  lemma CountsUnfold(states: seq<State>, steps: seq<Action>, id: nat, n: nat)
    requires n <= |steps| < |states|
    ensures n == 0 ==> Ups(steps, id, n) == 0 && Passed(states, steps, id, n) == 0
    ensures n > 0 ==>
      Ups(steps, id, n) == Ups(steps, id, n - 1) + (if steps[n - 1] == UpStep(id) then 1 else 0) &&
      Passed(states, steps, id, n) ==
      Passed(states, steps, id, n - 1) + (if Passes(states[n - 1], steps[n - 1], states[n], id) then 1 else 0) &&
      InitialValue(steps, id, n) ==
      if steps[n - 1].SemaInit? && steps[n - 1].s == Named(id) then steps[n - 1].v else InitialValue(steps, id, n - 1)
  {}

  /** In every reachable state: the value is the initial one, one more for each sema_up and one
      less for each thread that got past. */
  lemma {:induction false} ValueCounts(states: seq<State>, steps: seq<Action>, id: nat, n: nat)
    requires IsRun(states, steps) && n < |states| && Named(id) in states[n].semas
    ensures states[n].semas[Named(id)].value ==
            InitialValue(steps, id, n) + Ups(steps, id, n) - Passed(states, steps, id, n)
  {
    hide *;
    AtBoot(states, steps);
    if n > 0 {
      var st, a := states[n - 1], steps[n - 1];
      RunStep(states, steps, n - 1);
      CountsUnfold(states, steps, id, n);
      ValueStep(st, a, id);
      CountedIs(st, a, states[n], id);
      if Named(id) in st.semas {
        ValueCounts(states, steps, id, n - 1);
      } else {
        NoneBefore(states, steps, id, n - 1);
      }
    }
  }

  /** What the step does to the value of semaphore id. */
  ghost predicate Counted(st: State, a: Action, st': State, id: nat) {
    var s := Named(id);
    (s in st.semas ==>
       s in st'.semas && !(a.SemaInit? && a.s == s) &&
       st'.semas[s].value == st.semas[s].value + (if a == UpStep(id) then 1 else 0) -
                             (if Passes(st, a, st', id) then 1 else 0)) &&
    (s !in st.semas ==>
       a != UpStep(id) && !Passes(st, a, st', id) &&
       (s in st'.semas ==> a.SemaInit? && a.s == s && st'.semas[s].value == a.v))
  }

  lemma ValueStep(st: State, a: Action, id: nat)
    requires Typed(st) && Enabled(st, a) && PcOk(st, st.running())
    ensures Counted(st, a, Next(st, a), id)
  {
    if a.TestStep? {
      TestIsNext(st);
      hide Typed, Depart, Next;
    } else if Raises(a) {
      hide Typed, Wake;
      RaisedCounts(st, a, id);
    } else {
      hide Typed, Depart, Yield, Unblock, DownTest, After, UpAt;
    }
  }

  lemma CountedIs(st: State, a: Action, st': State, id: nat)
    requires Counted(st, a, st', id)
    ensures Named(id) in st.semas ==>
      Named(id) in st'.semas && !(a.SemaInit? && a.s == Named(id)) &&
      st'.semas[Named(id)].value == st.semas[Named(id)].value + (if a == UpStep(id) then 1 else 0) -
                                    (if Passes(st, a, st', id) then 1 else 0)
    ensures Named(id) !in st.semas ==>
      a != UpStep(id) && !Passes(st, a, st', id) &&
      (Named(id) in st'.semas ==> a.SemaInit? && a.s == Named(id) && st'.semas[Named(id)].value == a.v)
  {
    hide Passes;
  }

  lemma RaisedCounts(st: State, a: Action, id: nat)
    requires Typed(st) && Enabled(st, a) && PcOk(st, st.running()) && Raises(a)
    ensures Counted(st, a, Next(st, a), id)
  {
    hide Typed, Wake;
  }

  /** A semaphore that is not there yet has no history. */
  lemma {:induction false} NoneBefore(states: seq<State>, steps: seq<Action>, id: nat, n: nat)
    requires IsRun(states, steps) && n < |states| && Named(id) !in states[n].semas
    ensures Ups(steps, id, n) == 0 && Passed(states, steps, id, n) == 0
  {
    hide *;
    AtBoot(states, steps);
    CountsUnfold(states, steps, id, n);
    if n > 0 {
      var st, a := states[n - 1], steps[n - 1];
      RunStep(states, steps, n - 1);
      ValueStep(st, a, id);
      CountedIs(st, a, states[n], id);
      NoneBefore(states, steps, id, n - 1);
    }
  }

  // ---------------------------------------------------------------- waiting threads

  /** The step puts the running thread to sleep on s. */
  ghost predicate Sleeps(st: State, a: Action, st': State, s: Sema) {
    var t := st.running();
    a.TestStep? && t in st.pc && st.pc[t].Down? && st.pc[t].s == s &&
    t in st'.sched.status && st'.sched.status[t] == Blocked
  }

  /** The step is a sema_up on s. */
  ghost predicate RaisesOn(st: State, a: Action, s: Sema) {
    var t := st.running();
    match a
    case UpStep(id) => s == Named(id)
    case RaiseStep => t in st.pc && st.pc[t].Raising? && s == LockSem(st.pc[t].l)
    case SignalUp => t in st.pc && st.pc[t].Signalling? && s == Private(st.pc[t].u)
    case _ => false
  }

  ghost predicate WakesUp(st: State, st': State, t: Tid) {
    t in st.sched.status && st.sched.status[t] == Blocked && t in st'.sched.status && st'.sched.status[t] == Ready
  }

  ghost function TheWoken(st: State, st': State): seq<Tid> {
    if exists t :: WakesUp(st, st', t) then (var t :| WakesUp(st, st', t); [t]) else []
  }

  /** The threads that went to sleep on s in the first n steps, in this order. */
  ghost function Slept(states: seq<State>, steps: seq<Action>, s: Sema, n: nat): seq<Tid>
    requires n <= |steps| < |states|
  {
    if n == 0 then []
    else
      Slept(states, steps, s, n - 1) +
      if Sleeps(states[n - 1], steps[n - 1], states[n], s) then [states[n - 1].running()] else []
  }

  /** The threads that the sema_ups on s among them woke, in this order. */
  ghost function Woke(states: seq<State>, steps: seq<Action>, s: Sema, n: nat): seq<Tid>
    requires n <= |steps| < |states|
  {
    if n == 0 then []
    else
      Woke(states, steps, s, n - 1) +
      if RaisesOn(states[n - 1], steps[n - 1], s) then TheWoken(states[n - 1], states[n]) else []
  }

  ghost function WaitersOf(st: State, s: Sema): seq<Tid> {
    if s in st.semas then st.semas[s].waiters else []
  }

  lemma SleptUnfold(states: seq<State>, steps: seq<Action>, s: Sema, n: nat)
    requires n <= |steps| < |states|
    ensures n == 0 ==> Slept(states, steps, s, n) == [] && Woke(states, steps, s, n) == []
    ensures n == 0 && states[0].semas == map[] ==> WaitersOf(states[0], s) == []
    ensures n > 0 ==>
      Slept(states, steps, s, n) ==
      Slept(states, steps, s, n - 1) +
      (if Sleeps(states[n - 1], steps[n - 1], states[n], s) then [states[n - 1].running()] else []) &&
      Woke(states, steps, s, n) ==
      Woke(states, steps, s, n - 1) +
      if RaisesOn(states[n - 1], steps[n - 1], s) then TheWoken(states[n - 1], states[n]) else []
  {}

  /** Whoever comes joins a list at its end, and whoever goes leaves it at its front. */
  lemma OneMore(all: seq<Tid>, gone: seq<Tid>, list: seq<Tid>, came: seq<Tid>, went: seq<Tid>, list': seq<Tid>)
    requires all == gone + list && went + list' == list + came
    ensures all + came == (gone + went) + list'
  {
    assert all + came == gone + (list + came);
  }

  /** Waiting is first come, first served: those that slept on s are those that its sema_ups
      woke, in the same order, and then those that still wait. */
  lemma {:induction false} WokenInOrder(states: seq<State>, steps: seq<Action>, s: Sema, n: nat)
    requires IsRun(states, steps) && n < |states|
    ensures Slept(states, steps, s, n) == Woke(states, steps, s, n) + WaitersOf(states[n], s)
  {
    hide *;
    AtBoot(states, steps);
    SleptUnfold(states, steps, s, n);
    if n > 0 {
      var st, a, st' := states[n - 1], steps[n - 1], states[n];
      WokenInOrder(states, steps, s, n - 1);
      RunStep(states, steps, n - 1);
      WaitersStep(st, a, s);
      OneMore(Slept(states, steps, s, n - 1), Woke(states, steps, s, n - 1), WaitersOf(st, s),
              if Sleeps(st, a, st', s) then [st.running()] else [],
              if RaisesOn(st, a, s) then TheWoken(st, st') else [], WaitersOf(st', s));
    }
  }

  lemma WaitersStep(st: State, a: Action, s: Sema)
    requires Inv(st) && Typed(st) && Enabled(st, a) && PcOk(st, st.running())
    ensures var st' := Next(st, a);
            (if RaisesOn(st, a, s) then TheWoken(st, st') else []) + WaitersOf(st', s) ==
            WaitersOf(st, s) + if Sleeps(st, a, st', s) then [st.running()] else []
  {
    StepKinds(st, a, s);
    if a.CallWait? && Private(st.running()) in st.semas { NoPrivateWaiter(st); }
    hide *;
    if a.TestStep? {
      TestWaiters(st, s);
    } else if RaisesOn(st, a, s) {
      RaiseWaiters(st, a, s);
    } else {
      OtherWaiters(st, a, s);
    }
  }

  lemma NoPrivateWaiter(st: State)
    requires Inv(st) && Private(st.running()) in st.semas
    ensures st.semas[Private(st.running())].waiters == []
  {
    hide Tickets, Locks, Wakes;
    PrivateQueue(st);
  }

  lemma StepKinds(st: State, a: Action, s: Sema)
    requires Typed(st) && Enabled(st, a)
    ensures a.TestStep? ==> a == TestStep && !RaisesOn(st, a, s)
    ensures !a.TestStep? ==> !Sleeps(st, a, Next(st, a), s)
  {
    hide Typed, Next;
  }

  lemma TestWaiters(st: State, s: Sema)
    requires Inv(st) && Enabled(st, TestStep) && PcOk(st, st.running())
    ensures var st' := Next(st, TestStep);
            WaitersOf(st', s) == WaitersOf(st, s) + if Sleeps(st, TestStep, st', s) then [st.running()] else []
  {
    TestOutcome(st);
    var st', k := Next(st, TestStep), st.pc[st.running()].s;
    hide Inv, Typed, Next, PcOk, Enabled;
    if st.semas[k].value > 0 { assert !Sleeps(st, TestStep, st', s); }
  }

  /** sema_down's loop test: the running thread is blocked and queued exactly if the value is
      zero. */
  lemma TestOutcome(st: State)
    requires Inv(st) && Enabled(st, TestStep) && PcOk(st, st.running())
    ensures var t, k, st' := st.running(), st.pc[st.running()].s, Next(st, TestStep);
            t in st.pc && k in st.semas && t in st'.sched.status &&
            (st'.sched.status[t] == Blocked <==> st.semas[k].value == 0) &&
            st'.semas == if st.semas[k].value == 0 then Queue(st.semas, k, t) else Lowered(st.semas, k)
  {
    assert Lists(st) && Current(st);
    if st.sched.ready != [] { assert IsReady(st, st.sched.ready[0]); }
    TestIsNext(st);
    hide Inv, Lists, Next, Places, Wakes, Locks, Tickets, Queue, Lowered, PcOk;
  }

  lemma RaiseWaiters(st: State, a: Action, s: Sema)
    requires Inv(st) && Enabled(st, a) && RaisesOn(st, a, s)
    ensures TheWoken(st, Next(st, a)) + WaitersOf(Next(st, a), s) == WaitersOf(st, s)
  {
    var st' := Next(st, a);
    assert PcOk(st, st.running());
    assert s in st.semas && st'.sched == Wake(st.sched, st.semas[s].waiters) && st'.semas == Raised(st.semas, s);
    if st.semas[s].waiters != [] { FirstWaiterBlocked(st, s); }
    hide Inv, PcOk, Typed, Next, Enabled;
    OneWoken(st, st', s);
  }

  lemma OneWoken(st: State, st': State, s: Sema)
    requires s in st.semas && st'.sched == Wake(st.sched, st.semas[s].waiters) && st'.semas == Raised(st.semas, s)
    requires st.semas[s].waiters != [] ==>
               st.semas[s].waiters[0] in st.sched.status && st.sched.status[st.semas[s].waiters[0]] == Blocked
    ensures TheWoken(st, st') + WaitersOf(st', s) == WaitersOf(st, s)
  {
    if st.semas[s].waiters != [] { assert WakesUp(st, st', st.semas[s].waiters[0]); }
  }

  lemma OtherWaiters(st: State, a: Action, s: Sema)
    requires Typed(st) && Enabled(st, a) && PcOk(st, st.running()) && !a.TestStep? && !RaisesOn(st, a, s)
    requires a.CallWait? && Private(st.running()) in st.semas ==> st.semas[Private(st.running())].waiters == []
    ensures WaitersOf(Next(st, a), s) == WaitersOf(st, s)
  {}

  // ---------------------------------------------------------------- ready threads

  /** The running thread gives up the processor. */
  ghost predicate GivesUp(st: State, a: Action, st': State) {
    a.Preempt? || a.IdleBlock? || a.Exit? ||
    (a.TestStep? && st.running() in st'.sched.status && st'.sched.status[st.running()] == Blocked)
  }

  ghost predicate BecomesReady(st: State, st': State, t: Tid) {
    t != IDLE && t in st'.sched.status && st'.sched.status[t] == Ready &&
    (t in st.sched.status ==> st.sched.status[t] != Ready)
  }

  /** Who becomes ready: the thread that yields, or one that is woken or created. */
  ghost function NewlyReady(st: State, a: Action, st': State): seq<Tid> {
    if a.Preempt? then if st.running() == IDLE then [] else [st.running()]
    else if exists t :: BecomesReady(st, st', t) then (var t :| BecomesReady(st, st', t); [t])
    else []
  }

  /** Who gets the processor, unless it is the idle thread. */
  ghost function Resumed(st: State, a: Action, st': State): seq<Tid> {
    if GivesUp(st, a, st') && st'.running() != IDLE then [st'.running()] else []
  }

  /** The threads that became ready in the first n steps, in this order. */
  ghost function Readied(states: seq<State>, steps: seq<Action>, n: nat): seq<Tid>
    requires n <= |steps| < |states|
  {
    if n == 0 then [] else Readied(states, steps, n - 1) + NewlyReady(states[n - 1], steps[n - 1], states[n])
  }

  /** The threads that got the processor in them, in this order. */
  ghost function Ran(states: seq<State>, steps: seq<Action>, n: nat): seq<Tid>
    requires n <= |steps| < |states|
  {
    if n == 0 then [] else Ran(states, steps, n - 1) + Resumed(states[n - 1], steps[n - 1], states[n])
  }

  lemma ReadiedUnfold(states: seq<State>, steps: seq<Action>, n: nat)
    requires n <= |steps| < |states|
    ensures n == 0 ==> Readied(states, steps, n) == [] && Ran(states, steps, n) == []
    ensures n > 0 ==>
      Readied(states, steps, n) ==
      Readied(states, steps, n - 1) + NewlyReady(states[n - 1], steps[n - 1], states[n]) &&
      Ran(states, steps, n) == Ran(states, steps, n - 1) + Resumed(states[n - 1], steps[n - 1], states[n])
  {}

  /** Scheduling is first come, first served: those that became ready are those that have run
      since, in the same order, and then those on the ready list. */
  lemma {:induction false} RunInOrder(states: seq<State>, steps: seq<Action>, n: nat)
    requires IsRun(states, steps) && n < |states|
    ensures Readied(states, steps, n) == Ran(states, steps, n) + states[n].sched.ready
  {
    hide *;
    AtBoot(states, steps);
    ReadiedUnfold(states, steps, n);
    if n > 0 {
      var st, a, st' := states[n - 1], steps[n - 1], states[n];
      RunInOrder(states, steps, n - 1);
      RunStep(states, steps, n - 1);
      ReadyStep(st, a);
      OneMore(Readied(states, steps, n - 1), Ran(states, steps, n - 1), st.sched.ready, NewlyReady(st, a, st'),
              Resumed(st, a, st'), st'.sched.ready);
    }
  }

  /** The processor changes hands only when the running thread gives it up, and the idle
      thread gets it only when nobody is ready. */
  lemma IdleLast(states: seq<State>, steps: seq<Action>, n: nat)
    requires IsRun(states, steps) && n < |steps|
    ensures var st, a, st' := states[n], steps[n], states[n + 1];
            (st'.running() != st.running() ==> GivesUp(st, a, st')) &&
            (GivesUp(st, a, st') && st'.running() == IDLE ==>
             st'.sched.ready == [] && Readied(states, steps, n + 1) == Ran(states, steps, n + 1))
  {
    hide *;
    RunStep(states, steps, n);
    ReadyStep(states[n], steps[n]);
    RunInOrder(states, steps, n + 1);
  }

  lemma ReadyStep(st: State, a: Action)
    requires Inv(st) && Typed(st) && Enabled(st, a) && PcOk(st, st.running())
    ensures var st' := Next(st, a);
            Resumed(st, a, st') + st'.sched.ready == st.sched.ready + NewlyReady(st, a, st') &&
            (st'.running() != st.running() ==> GivesUp(st, a, st')) &&
            (GivesUp(st, a, st') && st'.running() == IDLE ==> st'.sched.ready == [])
  {
    ReadyFacts(st, a);
    hide *;
    if Departs(a) {
      DepartReady(st, a);
    } else if a.TestStep? {
      TestReady(st);
    } else if Raises(a) || a.Create? {
      WakeReady(st, a);
      NoneResumed(st, a, Next(st, a));
    } else {
      OtherReady(st, a);
      NoneResumed(st, a, Next(st, a));
    }
  }

  lemma ReadyFacts(st: State, a: Action)
    requires Inv(st)
    ensures Current(st) && (st.sched.ready != [] ==> IsReady(st, st.sched.ready[0]))
    ensures a.TestStep? ==> a == TestStep
    ensures !Departs(a) && !a.TestStep? && !Raises(a) && !a.Create? ==> Staying(a)
  {
    assert Lists(st);
    hide Tickets, Locks, Wakes, Typed;
  }

  lemma NoneResumed(st: State, a: Action, st': State)
    requires !GivesUp(st, a, st')
    ensures Resumed(st, a, st') == []
  {}

  lemma DepartReady(st: State, a: Action)
    requires Typed(st) && Current(st) && Enabled(st, a) && Departs(a)
    requires st.sched.ready != [] ==> IsReady(st, st.sched.ready[0])
    ensures var st' := Next(st, a);
            GivesUp(st, a, st') && Resumed(st, a, st') + st'.sched.ready == st.sched.ready + NewlyReady(st, a, st') &&
            (st'.running() == IDLE ==> st'.sched.ready == [])
  {
    var t, st' := st.running(), Next(st, a);
    hide Typed, Current;
    assert !a.Preempt? ==> forall u :: !BecomesReady(st, st', u);
  }

  lemma TestReady(st: State)
    requires Typed(st) && Current(st) && Enabled(st, TestStep) && PcOk(st, st.running())
    requires st.sched.ready != [] ==> IsReady(st, st.sched.ready[0])
    ensures var st', a := Next(st, TestStep), TestStep;
            Resumed(st, a, st') + st'.sched.ready == st.sched.ready + NewlyReady(st, a, st') &&
            (st'.running() != st.running() ==> GivesUp(st, a, st')) &&
            (GivesUp(st, a, st') && st'.running() == IDLE ==> st'.sched.ready == [])
  {
    var st' := Next(st, TestStep);
    hide Typed;
    assert forall u :: !BecomesReady(st, st', u);
  }

  lemma WakeReady(st: State, a: Action)
    requires Inv(st) && Enabled(st, a) && (Raises(a) || a.Create?)
    ensures var st' := Next(st, a);
            !GivesUp(st, a, st') && st'.running() == st.running() &&
            st'.sched.ready == st.sched.ready + NewlyReady(st, a, st')
  {
    var st' := Next(st, a);
    assert PcOk(st, st.running());
    if a.Create? {
      hide Inv, PcOk;
      assert BecomesReady(st, st', a.t);
    } else {
      var pc := st.pc[st.running()];
      var s := if a.UpStep? then Named(a.id) else if a.RaiseStep? then LockSem(pc.l) else Private(pc.u);
      assert s in st.semas && st'.sched == Wake(st.sched, st.semas[s].waiters);
      if st.semas[s].waiters != [] { FirstWaiterBlocked(st, s); }
      hide Inv, PcOk, Typed, Next, Enabled;
      WokenReady(st, a, st', s);
    }
  }

  lemma WokenReady(st: State, a: Action, st': State, s: Sema)
    requires Raises(a) && s in st.semas && st'.sched == Wake(st.sched, st.semas[s].waiters)
    requires st.semas[s].waiters != [] ==>
               st.semas[s].waiters[0] in st.sched.status && st.sched.status[st.semas[s].waiters[0]] == Blocked &&
               st.semas[s].waiters[0] != IDLE
    ensures !GivesUp(st, a, st') && st'.running() == st.running() &&
            st'.sched.ready == st.sched.ready + NewlyReady(st, a, st')
  {
    if st.semas[s].waiters != [] { assert BecomesReady(st, st', st.semas[s].waiters[0]); }
  }

  lemma OtherReady(st: State, a: Action)
    requires Typed(st) && Enabled(st, a) && Staying(a)
    ensures var st' := Next(st, a);
            !GivesUp(st, a, st') && st'.sched == st.sched && NewlyReady(st, a, st') == []
  {
    StayingFrame(st, a);
    hide Next, Typed;
  }

  // ---------------------------------------------------------------- signals

  /** The threads that entered cond_wait on c in the first n steps, in this order. */
  ghost function Waited(states: seq<State>, steps: seq<Action>, c: nat, n: nat): seq<Tid>
    requires n <= |steps| < |states|
  {
    if n == 0 then []
    else
      Waited(states, steps, c, n - 1) +
      if steps[n - 1].CallWait? && steps[n - 1].c == c then [states[n - 1].running()] else []
  }

  /** Whom the running thread is about to signal. */
  ghost function Signalled(st: State): seq<Tid> {
    if st.running() in st.pc && st.pc[st.running()].Signalling? then [st.pc[st.running()].u] else []
  }

  /** The threads that cond_signal chose in them. */
  ghost function Chosen(states: seq<State>, steps: seq<Action>, c: nat, n: nat): seq<Tid>
    requires n <= |steps| < |states|
  {
    if n == 0 then []
    else
      Chosen(states, steps, c, n - 1) +
      if steps[n - 1].SignalPop? && steps[n - 1].c == c then Signalled(states[n]) else []
  }

  ghost function ListOf(st: State, c: nat): seq<Tid> {
    if c in st.conds then st.conds[c] else []
  }

  lemma WaitedUnfold(states: seq<State>, steps: seq<Action>, c: nat, n: nat)
    requires n <= |steps| < |states|
    ensures n == 0 ==> Waited(states, steps, c, n) == [] && Chosen(states, steps, c, n) == []
    ensures n == 0 && states[0].conds == map[] ==> ListOf(states[0], c) == []
    ensures n > 0 ==>
      Waited(states, steps, c, n) ==
      Waited(states, steps, c, n - 1) +
      (if steps[n - 1].CallWait? && steps[n - 1].c == c then [states[n - 1].running()] else []) &&
      Chosen(states, steps, c, n) ==
      Chosen(states, steps, c, n - 1) +
      if steps[n - 1].SignalPop? && steps[n - 1].c == c then Signalled(states[n]) else []
  {}

  /** cond_signal takes the waiting threads in the order in which they came. */
  lemma {:induction false} SignalledInOrder(states: seq<State>, steps: seq<Action>, c: nat, n: nat)
    requires IsRun(states, steps) && n < |states|
    ensures Waited(states, steps, c, n) == Chosen(states, steps, c, n) + ListOf(states[n], c)
  {
    hide *;
    AtBoot(states, steps);
    WaitedUnfold(states, steps, c, n);
    if n > 0 {
      var st, a, st' := states[n - 1], steps[n - 1], states[n];
      SignalledInOrder(states, steps, c, n - 1);
      RunStep(states, steps, n - 1);
      SignalStepOf(st, a, c);
      OneMore(Waited(states, steps, c, n - 1), Chosen(states, steps, c, n - 1), ListOf(st, c),
              if a.CallWait? && a.c == c then [st.running()] else [],
              if a.SignalPop? && a.c == c then Signalled(st') else [], ListOf(st', c));
    }
  }

  lemma SignalStepOf(st: State, a: Action, c: nat)
    requires Typed(st) && Enabled(st, a) && PcOk(st, st.running())
    ensures var st' := Next(st, a);
            (if a.SignalPop? && a.c == c then Signalled(st') else []) + ListOf(st', c) ==
            ListOf(st, c) + if a.CallWait? && a.c == c then [st.running()] else []
  {
    hide Typed, Wake, Raised, Lowered, Depart, Yield, Unblock, Queue, After;
  }

  // ---------------------------------------------------------------- what the lock functions leave

  /** Thread t is in lock_acquire, lock_try_acquire or cond_wait and will hold l. */
  ghost predicate Acquiring(pc: Pc, t: Tid, l: nat) {
    match pc
    case Clearing(k, waiting) => k == l && waiting
    case Raising(k, waiting) => k == l && waiting
    case Down(s, _, relock) => s == LockSem(l) || (s == Private(t) && relock == l)
    case Got(k) => k == l
    case _ => false
  }

  /** It is in lock_release. */
  predicate Releasing(pc: Pc, l: nat) {
    match pc
    case Clearing(k, waiting) => k == l && !waiting
    case Raising(k, waiting) => k == l && !waiting
    case _ => false
  }

  /** A step by which the running thread sets out to hold l. */
  predicate Acquires(a: Action, l: nat) {
    a == CallAcquire(l) || a == TryAcquire(l) || (a.CallWait? && a.l == l)
  }

  /** Thread t sets out at step i and is back in its own code at state j, for the first time. */
  ghost predicate Returns(states: seq<State>, steps: seq<Action>, t: Tid, i: nat, j: nat) {
    |states| == |steps| + 1 && i < j < |states| && states[i].running() == t &&
    t in states[j].pc && states[j].pc[t] == Code &&
    forall k :: i < k < j ==> t in states[k].pc && states[k].pc[t] != Code
  }

  /** lock_acquire, cond_wait, and lock_try_acquire when it does not come back at once, return
      with the lock held by the caller. */
  lemma ReturnsHolding(states: seq<State>, steps: seq<Action>, t: Tid, l: nat, i: nat, j: nat)
    requires IsRun(states, steps) && Returns(states, steps, t, i, j) && Acquires(steps[i], l)
    requires j > i + 1 || !steps[i].TryAcquire?
    ensures HeldBy(states[j], l, t)
  {
    ReturnFacts(states, steps, t, i, j);
    hide *;
    if j == i + 1 {
      RunStep(states, steps, i);
      SetsOut(states[i], steps[i], l);
      NotCode(states[j].pc[t], t, l);
    } else {
      StaysOut(states, steps, t, l, i, j - 1);
      HoldsAtLast(states, steps, t, l, j - 1);
    }
  }

  lemma HoldsAtLast(states: seq<State>, steps: seq<Action>, t: Tid, l: nat, k: nat)
    requires IsRun(states, steps) && k < |steps| && k + 1 < |states|
    requires t in states[k].pc && Acquiring(states[k].pc[t], t, l)
    requires t in states[k + 1].pc && states[k + 1].pc[t] == Code
    ensures HeldBy(states[k + 1], l, t)
  {
    hide *;
    RunStep(states, steps, k);
    AcquireOn(states[k], steps[k], t, l);
    NotCode(states[k + 1].pc[t], t, l);
  }

  /** lock_release returns with the lock not held by the caller. */
  lemma ReturnsReleased(states: seq<State>, steps: seq<Action>, t: Tid, l: nat, i: nat, j: nat)
    requires IsRun(states, steps) && Returns(states, steps, t, i, j) && steps[i] == CallRelease(l)
    ensures !HeldBy(states[j], l, t)
  {
    ReturnFacts(states, steps, t, i, j);
    hide *;
    if j == i + 1 {
      RunStep(states, steps, i);
      SetsFree(states[i], l);
      NotCode(states[j].pc[t], t, l);
    } else {
      StaysReleasing(states, steps, t, l, i, j - 1);
      FreeAtLast(states, steps, t, l, j - 1);
    }
  }

  lemma FreeAtLast(states: seq<State>, steps: seq<Action>, t: Tid, l: nat, k: nat)
    requires IsRun(states, steps) && k < |steps| && k + 1 < |states|
    requires t in states[k].pc && Releasing(states[k].pc[t], l)
    requires t in states[k + 1].pc && states[k + 1].pc[t] == Code
    ensures !HeldBy(states[k + 1], l, t)
  {
    hide *;
    RunStep(states, steps, k);
    ReleaseOn(states[k], steps[k], t, l);
    NotCode(states[k + 1].pc[t], t, l);
  }

  lemma ReturnFacts(states: seq<State>, steps: seq<Action>, t: Tid, i: nat, j: nat)
    requires Returns(states, steps, t, i, j)
    ensures |states| == |steps| + 1 && i < j < |states| && states[i].running() == t &&
            t in states[j].pc && states[j].pc[t] == Code
    ensures forall k :: i < k < j ==> t in states[k].pc && states[k].pc[t] != Code
  {}

  lemma NotCode(pc: Pc, t: Tid, l: nat)
    ensures Acquiring(pc, t, l) || Releasing(pc, l) ==> pc != Code
  {}

  lemma SetsOut(st: State, a: Action, l: nat)
    requires Typed(st) && st.running() in st.pc && Enabled(st, a) && Acquires(a, l)
    ensures var t, st' := st.running(), Next(st, a);
            t in st'.pc && (Acquiring(st'.pc[t], t, l) || (a.TryAcquire? && st'.pc[t] == Code))
  {
    hide Typed, Lowered;
  }

  lemma SetsFree(st: State, l: nat)
    requires Typed(st) && Enabled(st, CallRelease(l))
    ensures st.running() in Next(st, CallRelease(l)).pc && Releasing(Next(st, CallRelease(l)).pc[st.running()], l)
  {
    hide Typed;
  }

  lemma {:induction false} StaysOut(states: seq<State>, steps: seq<Action>, t: Tid, l: nat, i: nat, k: nat)
    requires IsRun(states, steps) && i < k < |states| && states[i].running() == t && i < |steps| &&
             Acquires(steps[i], l)
    requires forall m :: i < m <= k ==> t in states[m].pc && states[m].pc[t] != Code
    ensures t in states[k].pc && Acquiring(states[k].pc[t], t, l)
  {
    hide *;
    AtBoot(states, steps);
    RunStep(states, steps, k - 1);
    if k == i + 1 {
      SetsOut(states[i], steps[i], l);
    } else {
      StaysOut(states, steps, t, l, i, k - 1);
      AcquireOn(states[k - 1], steps[k - 1], t, l);
    }
  }

  lemma AcquireOn(st: State, a: Action, t: Tid, l: nat)
    requires Typed(st) && Enabled(st, a) && PcOk(st, st.running()) && t in st.pc && Acquiring(st.pc[t], t, l)
    ensures var st' := Next(st, a);
            t in st'.pc && (Acquiring(st'.pc[t], t, l) || (st'.pc[t] == Code && HeldBy(st', l, t)))
  {
    if t == st.running() {
      hide Typed, Wake, Raised, Lowered, Depart, Yield, Unblock, Queue;
      assert !st.pc[t].Code?;
    } else {
      OthersStay(st, a, t);
      hide Next;
    }
  }

  /** A step moves the running thread only. */
  lemma OthersStay(st: State, a: Action, t: Tid)
    requires Typed(st) && Enabled(st, a) && PcOk(st, st.running()) && t in st.pc && t != st.running()
    ensures t in Next(st, a).pc && Next(st, a).pc[t] == st.pc[t]
  {
    hide Typed, Wake, Raised, Lowered, Depart, Yield, Unblock, Queue, After;
  }

  lemma {:induction false} StaysReleasing(states: seq<State>, steps: seq<Action>, t: Tid, l: nat, i: nat, k: nat)
    requires IsRun(states, steps) && i < k < |states| && states[i].running() == t && i < |steps| &&
             steps[i] == CallRelease(l)
    requires forall m :: i < m <= k ==> t in states[m].pc && states[m].pc[t] != Code
    ensures t in states[k].pc && Releasing(states[k].pc[t], l)
  {
    hide *;
    AtBoot(states, steps);
    RunStep(states, steps, k - 1);
    if k == i + 1 {
      SetsFree(states[i], l);
    } else {
      StaysReleasing(states, steps, t, l, i, k - 1);
      ReleaseOn(states[k - 1], steps[k - 1], t, l);
    }
  }

  lemma ReleaseOn(st: State, a: Action, t: Tid, l: nat)
    requires Typed(st) && Enabled(st, a) && PcOk(st, st.running()) && t in st.pc && Releasing(st.pc[t], l)
    ensures var st' := Next(st, a);
            t in st'.pc && (Releasing(st'.pc[t], l) || (st'.pc[t] == Code && !HeldBy(st', l, t)))
  {
    if t == st.running() {
      hide Typed, Wake, Raised, Lowered, Depart, Yield, Unblock, Queue, DownTest;
      assert !st.pc[t].Code?;
    } else {
      OthersStay(st, a, t);
      hide Next;
    }
  }
}
