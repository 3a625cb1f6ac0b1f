/** The code of proj2's threads/thread.c and threads/synch.c on one processor, each piece
    that runs without interruption a method, proved to be a step of SynchModel. */
module Synch {
  import opened SynchModel

  class Kernel {
    var running: Tid
    var readyList: seq<Tid>
    var status: map<Tid, Status>
    var semas: map<Sema, SemaState>
    var holder: map<nat, Tid>
    var conds: map<nat, seq<Tid>>
    var pc: map<Tid, Pc>
    ghost var tickets: map<Tid, Ticket>

    ghost function S(): State
      reads this
    {
      State(Sched(running, readyList, status), semas, holder, conds, pc, tickets)
    }

    ghost predicate Valid()
      reads this
    {
      Inv(S())
    }

    constructor (main: Tid)
      requires main != IDLE
      ensures Valid() && S() == Boot(main)
    {
      running, readyList := main, [];
      status := map[main := Running, IDLE := Blocked];
      semas, holder, conds := map[], map[], map[];
      pc := map[main := Code, IDLE := Code];
      tickets := map[];
      new;
      BootInv(main);
    }

    // ------------------------------------------------------------ thread.c

    /** next_thread_to_run. */
    method NextThreadToRun() returns (next: Tid)
      modifies this`readyList
      ensures next == NextToRun(old(readyList)) && readyList == RestOf(old(readyList))
    {
      if readyList == [] {
        next := IDLE;
      } else {
        next := readyList[0];
        readyList := readyList[1..];
      }
    }

    /** The running thread has given up the processor and everything on the lists exists. */
    ghost predicate CanSchedule()
      reads this
    {
      running in status && status[running] != Running && NextToRun(readyList) in status
    }

    /** schedule, with its assertions, and schedule_tail's new status. */
    method Schedule()
      requires CanSchedule()
      modifies this`running, this`readyList, this`status
      ensures S() == old(S()).(sched := Dispatch(old(S()).sched))
    {
      var curr := running;
      var next := NextThreadToRun();
      assert status[curr] != Running;
      assert next in status;
      running := next;
      status := status[next := Running];
    }

    /** thread_block. */
    method ThreadBlock()
      requires NextToRun(readyList) in status
      modifies this`running, this`readyList, this`status
      ensures S() == old(S()).(sched := Depart(old(S()).sched, Blocked))
    {
      status := status[running := Blocked];
      Schedule();
    }

    /** thread_unblock, with its assertion. */
    method ThreadUnblock(t: Tid)
      requires t in status && status[t] == Blocked
      modifies this`readyList, this`status
      ensures S() == old(S()).(sched := Unblock(old(S()).sched, t))
    {
      assert status[t] == Blocked;
      readyList := readyList + [t];
      status := status[t := Ready];
    }

    /** thread_yield, which the timer also brings about. */
    method ThreadYield()
      requires Valid() && Enabled(S(), Preempt)
      modifies this`running, this`readyList, this`status
      ensures StepsTo(old(S()), Preempt, S())
    {
      hide Inv, Enabled, Next, StepsTo, PcOk;
      RunningFacts(S());
      YieldStep(S());
      var curr := running;
      if curr != IDLE {
        readyList := readyList + [curr];
      }
      status := status[curr := Ready];
      Schedule();
    }

    /** The idle thread's loop. */
    method Idle()
      requires Valid() && Enabled(S(), IdleBlock)
      modifies this`running, this`readyList, this`status
      ensures StepsTo(old(S()), IdleBlock, S())
    {
      hide Inv, Enabled, Next, StepsTo, PcOk;
      RunningFacts(S());
      IdleStep(S());
      ThreadBlock();
    }

    /** The end of thread_create. */
    method ThreadCreate(t: Tid)
      requires Valid() && Enabled(S(), Create(t))
      modifies this`readyList, this`status, this`pc
      ensures StepsTo(old(S()), Create(t), S())
    {
      hide Inv, Enabled, Next, StepsTo, PcOk;
      CreateStep(S(), t);
      ghost var st := S();
      status := status[t := Blocked];
      ThreadUnblock(t);
      pc := pc[t := Code];
      assert status == st.sched.status[t := Ready];
    }

    /** thread_exit. */
    method ThreadExit()
      requires Valid() && Enabled(S(), Exit)
      modifies this`running, this`readyList, this`status
      ensures StepsTo(old(S()), Exit, S())
    {
      hide Inv, Enabled, Next, StepsTo, PcOk;
      RunningFacts(S());
      ExitStep(S());
      status := status[running := Dying];
      Schedule();
    }

    // ------------------------------------------------------------ synch.c

    /** sema_init, also as part of lock_init. */
    method SemaInit(s: Sema, value: nat)
      requires Valid() && Enabled(S(), Action.SemaInit(s, value))
      modifies this`semas
      ensures StepsTo(old(S()), Action.SemaInit(s, value), S())
    {
      hide Inv, Enabled, Next, StepsTo, PcOk;
      InitStep(S(), s, value);
      semas := semas[s := SemaState(value, [])];
    }

    /** sema_down: one pass of its loop.  Either the value is decremented and the thread goes
        on, or the thread is left waiting and another one runs. */
    method SemaDown()
      requires Valid() && running in pc && pc[running].Down?
      modifies this
      ensures StepsTo(old(S()), TestStep, S())
    {
      hide Inv, Enabled, Next, StepsTo, PcOk;
      RunningFacts(S());
      TestStepTo(S());
      var t, at := running, pc[running];
      var v := semas[at.s];
      if v.value == 0 {
        semas := semas[at.s := SemaState(v.value, v.waiters + [t])];
        pc := pc[t := Down(at.s, true, at.relock)];
        ThreadBlock();
      } else {
        semas := semas[at.s := SemaState(v.value - 1, v.waiters)];
        pc := pc[t := After(at)];
        if at.s.Private? { tickets := tickets - {t}; }
      }
    }

    /** sema_try_down. */
    method SemaTryDown(id: nat) returns (success: bool)
      requires Valid() && running in pc && Enabled(S(), TryDown(id))
      modifies this`semas
      ensures StepsTo(old(S()), TryDown(id), S())
      ensures success <==> old(semas)[Named(id)].value > 0
    {
      hide Inv, Enabled, Next, StepsTo, PcOk;
      TryDownStep(S(), id);
      success := TakeIfPositive(Named(id));
    }

    method TakeIfPositive(s: Sema) returns (success: bool)
      requires s in semas
      modifies this`semas
      ensures success <==> old(semas)[s].value > 0
      ensures semas == if success then Lowered(old(semas), s) else old(semas)
    {
      var v := semas[s];
      success := v.value > 0;
      if success {
        semas := semas[s := SemaState(v.value - 1, v.waiters)];
      }
    }

    /** sema_up on any semaphore: thread_unblock's assertion never fails. */
    method Raise(s: Sema)
      requires Valid() && s in semas
      modifies this`semas, this`readyList, this`status
      ensures S() == old(S()).(sched := Wake(old(S()).sched, old(semas)[s].waiters), semas := Raised(old(semas), s))
    {
      var v := semas[s];
      if v.waiters != [] {
        FirstWaiterBlocked(S(), s);
        semas := semas[s := SemaState(v.value, v.waiters[1..])];
        ThreadUnblock(v.waiters[0]);
      }
      semas := semas[s := SemaState(semas[s].value + 1, semas[s].waiters)];
    }

    /** sema_up. */
    method SemaUp(id: nat)
      requires Valid() && running in pc && Enabled(S(), UpStep(id))
      modifies this`semas, this`readyList, this`status
      ensures StepsTo(old(S()), UpStep(id), S())
    {
      hide Inv, Enabled, Next, StepsTo, PcOk;
      UpStepTo(S(), id);
      Raise(Named(id));
      assert pc == pc[running := pc[running]];
    }

    /** lock_acquire up to its sema_down, with its assertion. */
    method LockAcquire(l: nat)
      requires Valid() && Enabled(S(), CallAcquire(l))
      modifies this`pc
      ensures StepsTo(old(S()), CallAcquire(l), S())
    {
      hide Inv, Enabled, Next, StepsTo, PcOk;
      AcquireStep(S(), l);
      assert !(l in holder && holder[l] == running);
      pc := pc[running := Down(LockSem(l), false, 0)];
    }

    /** The end of lock_acquire and of lock_try_acquire. */
    method BecomeHolder()
      requires Valid() && running in pc && pc[running].Got?
      modifies this`holder, this`pc
      ensures StepsTo(old(S()), SetHolder, S())
    {
      hide Inv, Enabled, Next, StepsTo, PcOk;
      HolderStep(S());
      holder := holder[pc[running].l := running];
      pc := pc[running := Code];
    }

    /** lock_try_acquire's sema_try_down. */
    method LockTryAcquire(l: nat) returns (success: bool)
      requires Valid() && Enabled(S(), TryAcquire(l))
      modifies this`semas, this`pc
      ensures StepsTo(old(S()), TryAcquire(l), S())
      ensures success <==> old(semas)[LockSem(l)].value > 0
    {
      hide Inv, Enabled, Next, StepsTo, PcOk;
      TryAcquireStep(S(), l);
      success := TakeIfPositive(LockSem(l));
      if success {
        pc := pc[running := Got(l)];
      }
    }

    /** lock_release up to its assignment, with its assertion. */
    method LockRelease(l: nat)
      requires Valid() && Enabled(S(), CallRelease(l))
      modifies this`pc
      ensures StepsTo(old(S()), CallRelease(l), S())
    {
      hide Inv, Enabled, Next, StepsTo, PcOk;
      ReleaseStep(S(), l);
      assert l in holder && holder[l] == running;
      pc := pc[running := Clearing(l, false)];
    }

    /** lock->holder = NULL. */
    method DropHolder()
      requires Valid() && running in pc && pc[running].Clearing?
      modifies this`holder, this`pc
      ensures StepsTo(old(S()), ClearHolder, S())
    {
      hide Inv, Enabled, Next, StepsTo, PcOk;
      ClearStep(S());
      var at := pc[running];
      holder := holder - {at.l};
      pc := pc[running := Raising(at.l, at.waiting)];
    }

    /** lock_release's sema_up; inside cond_wait the private semaphore is next. */
    method ReleaseUp()
      requires Valid() && running in pc && pc[running].Raising?
      modifies this`semas, this`readyList, this`status, this`pc
      ensures StepsTo(old(S()), RaiseStep, S())
    {
      hide Inv, Enabled, Next, StepsTo, PcOk;
      RaiseStepTo(S());
      var at := pc[running];
      Raise(LockSem(at.l));
      pc := pc[running := if at.waiting then Down(Private(running), false, at.l) else Code];
    }

    /** cond_wait up to its lock_release. */
    method CondWait(c: nat, l: nat)
      requires Valid() && Enabled(S(), CallWait(c, l))
      modifies this`semas, this`conds, this`pc, this`tickets
      ensures StepsTo(old(S()), CallWait(c, l), S())
    {
      hide Inv, Enabled, Next, StepsTo, PcOk;
      WaitStep(S(), c, l);
      assert l in holder && holder[l] == running;
      semas := semas[Private(running) := SemaState(0, [])];
      conds := conds[c := conds[c] + [running]];
      tickets := tickets[running := Queued(c)];
      pc := pc[running := Clearing(l, true)];
    }

    /** cond_signal on a condition that somebody waits for, up to its sema_up. */
    method CondSignal(c: nat, l: nat)
      requires Valid() && Enabled(S(), SignalPop(c, l))
      modifies this`conds, this`pc, this`tickets
      ensures StepsTo(old(S()), SignalPop(c, l), S())
    {
      hide Inv, Enabled, Next, StepsTo, PcOk;
      PopStep(S(), c, l);
      var u := conds[c][0];
      conds := conds[c := conds[c][1..]];
      tickets := tickets[u := Taken(running)];
      pc := pc[running := Signalling(u)];
    }

    /** cond_signal's sema_up. */
    method SignalRaise()
      requires Valid() && running in pc && pc[running].Signalling?
      modifies this`semas, this`readyList, this`status, this`pc, this`tickets
      ensures StepsTo(old(S()), SignalUp, S())
    {
      hide Inv, Enabled, Next, StepsTo, PcOk;
      SignalStep(S());
      var u := pc[running].u;
      Raise(Private(u));
      tickets := tickets[u := Sent];
      pc := pc[running := Code];
    }
  }
}
