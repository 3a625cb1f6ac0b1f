/** Priority donation in proj1's threads/synch.c and threads/thread.c (thread_mlfqs false):
    lock_acquire's walk along the wait-for chain, and sema_up's choice of a waiter. */
module Donation {
  import opened Sequences

  type Tid = nat
  type Lock = nat

  /** What the walk reads and writes, as values.  A thread without an entry in waiting waits
      for no lock; a lock without an entry in holder has none. */
  datatype Sys = Sys(
    priority: map<Tid, int>,
    orig: map<Tid, int>,
    waiting: map<Tid, Lock>,
    locks: map<Tid, seq<Lock>>,      // each thread's sema_list
    holder: map<Lock, Tid>,
    waiters: map<Lock, seq<Tid>>,    // each semaphore's waiters, a lock's under the lock's name
    plain: set<Lock>)                // the semaphores that are no lock's

  function Max(a: int, b: int): int { if a > b then a else b }

  // ---------------------------------------------------------------- get_max_priority

  /** The largest of base and the priorities of these threads. */
  function MaxOf(priority: map<Tid, int>, threads: seq<Tid>, base: int): int
    requires forall t :: t in threads ==> t in priority
  {
    if threads == [] then base else MaxOf(priority, threads[1..], Max(base, priority[threads[0]]))
  }

  lemma {:induction false} MaxOfBounds(priority: map<Tid, int>, threads: seq<Tid>, base: int)
    requires forall t :: t in threads ==> t in priority
    ensures MaxOf(priority, threads, base) >= base
    ensures forall t :: t in threads ==> MaxOf(priority, threads, base) >= priority[t]
    ensures MaxOf(priority, threads, base) == base ||
            exists t :: t in threads && MaxOf(priority, threads, base) == priority[t]
  {
    if threads != [] {
      MaxOfBounds(priority, threads[1..], Max(base, priority[threads[0]]));
    }
  }

  ghost predicate Known(sys: Sys, locks: seq<Lock>) {
    forall l :: l in locks ==> l in sys.waiters && forall t :: t in sys.waiters[l] ==> t in sys.priority
  }

  /** The largest of base and the priorities of all waiters of these locks. */
  function MaxOver(sys: Sys, locks: seq<Lock>, base: int): int
    requires Known(sys, locks)
  {
    if locks == [] then base else MaxOver(sys, locks[1..], MaxOf(sys.priority, sys.waiters[locks[0]], base))
  }

  lemma {:induction false} MaxOverBounds(sys: Sys, locks: seq<Lock>, base: int)
    requires Known(sys, locks)
    ensures MaxOver(sys, locks, base) >= base
    ensures forall l, t :: l in locks && t in sys.waiters[l] ==> MaxOver(sys, locks, base) >= sys.priority[t]
    ensures MaxOver(sys, locks, base) == base ||
            exists l, t :: l in locks && t in sys.waiters[l] && MaxOver(sys, locks, base) == sys.priority[t]
  {
    if locks != [] {
      var m := MaxOf(sys.priority, sys.waiters[locks[0]], base);
      MaxOfBounds(sys.priority, sys.waiters[locks[0]], base);
      MaxOverBounds(sys, locks[1..], m);
      if MaxOver(sys, locks, base) != m {
        var l, t :| l in locks[1..] && t in sys.waiters[l] && MaxOver(sys, locks, base) == sys.priority[t];
        assert l in locks;
      } else if m != base {
        var t :| t in sys.waiters[locks[0]] && m == sys.priority[t];
        assert locks[0] in locks;
      }
    }
  }

  /** What get_max_priority returns: a thread's own priority or the highest donated one. */
  function Top(sys: Sys, t: Tid): int
    requires Consistent(sys) && t in sys.priority
  {
    MaxOver(sys, sys.locks[t], sys.orig[t])
  }

  // ---------------------------------------------------------------- the system

  ghost predicate ThreadOk(sys: Sys, t: Tid) {
    t in sys.orig && t in sys.locks &&
    (forall l :: l in sys.locks[t] ==> l in sys.holder && sys.holder[l] == t && l in sys.waiters) &&
    Distinct(sys.locks[t]) &&
    (t in sys.waiting ==> sys.waiting[t] in sys.waiters && sys.waiting[t] !in sys.plain)
  }

  ghost predicate HolderOk(sys: Sys, l: Lock)
    requires l in sys.holder
  {
    sys.holder[l] in sys.priority && sys.holder[l] in sys.locks && l in sys.locks[sys.holder[l]] &&
    l in sys.waiters && l !in sys.plain
  }

  ghost predicate QueueOk(sys: Sys, l: Lock)
    requires l in sys.waiters
  {
    forall t :: t in sys.waiters[l] ==>
      t in sys.priority && if l in sys.plain then t !in sys.waiting else t in sys.waiting && sys.waiting[t] == l
  }

  /** The lists say the same: sema_list is what a thread holds, and a thread on a lock's
      waiters list waits for that lock, one on a plain semaphore's for none. */
  ghost predicate Consistent(sys: Sys) {
    (forall t :: t in sys.priority ==> ThreadOk(sys, t)) &&
    (forall l :: l in sys.holder ==> HolderOk(sys, l)) &&
    (forall l :: l in sys.waiters ==> QueueOk(sys, l)) &&
    forall t :: t in sys.waiting ==> t in sys.priority
  }

  /** The thread has said that it waits for this lock, or the semaphore is no lock's. */
  ghost predicate MayQueue(sys: Sys, t: Tid, l: Lock) {
    if l in sys.plain then t !in sys.waiting else t in sys.waiting && sys.waiting[t] == l
  }

  /** The lock has a holder with a lower priority than t. */
  ghost predicate Above(sys: Sys, t: Tid, l: Lock) {
    l in sys.holder && sys.holder[l] in sys.priority && t in sys.priority &&
    sys.priority[t] > sys.priority[sys.holder[l]]
  }

  /** Thread t is queued for a lock whose holder has a lower priority. */
  ghost predicate Inverted(sys: Sys, l: Lock, t: Tid) {
    l in sys.holder && l in sys.waiters && t in sys.waiters[l] && t in sys.priority && sys.holder[l] in sys.priority &&
    sys.priority[t] > sys.priority[sys.holder[l]]
  }

  /** Every waiter's priority is at most its lock holder's. */
  ghost predicate Donated(sys: Sys) {
    forall l, t {:trigger Inverted(sys, l, t)} :: !Inverted(sys, l, t)
  }

  /** The same, but for thread u as a waiter. */
  ghost predicate DonatedBut(sys: Sys, u: Tid) {
    forall l, t {:trigger Inverted(sys, l, t)} :: t != u ==> !Inverted(sys, l, t)
  }

  /** The wait-for chain has no cycle: rank falls from a lock to the lock its holder waits for. */
  ghost predicate Acyclic(holder: map<Lock, Tid>, waiting: map<Tid, Lock>, rank: Lock -> nat) {
    forall l :: l in holder && holder[l] in waiting ==> rank(waiting[holder[l]]) < rank(l)
  }

  /** The locks the walk meets from l on: the last one has no holder, or one that runs. */
  ghost function Chain(holder: map<Lock, Tid>, waiting: map<Tid, Lock>, rank: Lock -> nat, l: Lock): (r: seq<Lock>)
    requires Acyclic(holder, waiting, rank)
    ensures |r| > 0 && r[0] == l
    decreases rank(l)
  {
    if l in holder && holder[l] in waiting then [l] + Chain(holder, waiting, rank, waiting[holder[l]]) else [l]
  }

  /** Every lock of the chain but the last leads to the next one; the last leads nowhere. */
  lemma {:induction false} ChainLinks(holder: map<Lock, Tid>, waiting: map<Tid, Lock>, rank: Lock -> nat, l: Lock,
                                      i: nat)
    requires Acyclic(holder, waiting, rank) && i < |Chain(holder, waiting, rank, l)|
    ensures var chain := Chain(holder, waiting, rank, l);
            if chain[i] in holder && holder[chain[i]] in waiting
            then i + 1 < |chain| && chain[i + 1] == waiting[holder[chain[i]]]
            else i + 1 == |chain|
    decreases i
  {
    if i > 0 {
      ChainLinks(holder, waiting, rank, waiting[holder[l]], i - 1);
    }
  }

  /** The threads that hold these locks. */
  ghost function HoldersOf(holder: map<Lock, Tid>, chain: seq<Lock>): set<Tid> {
    set l | l in chain && l in holder :: holder[l]
  }

  predicate HeldBy(holder: map<Lock, Tid>, l: Lock, h: Tid) {
    l in holder && holder[l] == h
  }

  // ---------------------------------------------------------------- raising one holder

  /** The system with another priority for h. */
  function Raise(sys: Sys, h: Tid, p: int): Sys {
    sys.(priority := sys.priority[h := p])
  }

  lemma RaiseConsistent(sys: Sys, h: Tid, p: int)
    requires Consistent(sys) && h in sys.priority
    ensures Consistent(Raise(sys, h, p))
  {
    var sys' := Raise(sys, h, p);
    forall t | t in sys'.priority
      ensures ThreadOk(sys', t)
    {
      assert ThreadOk(sys, t);
    }
    forall l | l in sys'.holder
      ensures HolderOk(sys', l)
    {
      assert HolderOk(sys, l);
    }
    forall l | l in sys'.waiters
      ensures QueueOk(sys', l)
    {
      assert QueueOk(sys, l);
    }
  }

  /** One step of the walk.  Only u may be queued behind a lower holder, and the lock it waits
      for is held by h: after the step only h may. */
  lemma RaiseKeeps(sys: Sys, u: Tid, h: Tid, p: int)
    requires Consistent(sys) && DonatedBut(sys, u) && h in sys.priority && h != u
    requires p >= Top(sys, h)
    requires forall l :: Inverted(sys, l, u) ==> sys.holder[l] == h
    ensures DonatedBut(Raise(sys, h, p), h)
  {
    var sys' := Raise(sys, h, p);
    MaxOverBounds(sys, sys.locks[h], sys.orig[h]);
    forall l, t {:trigger Inverted(sys', l, t)} | t != h
      ensures !Inverted(sys', l, t)
    {
      if l in sys.holder && l in sys.waiters && t in sys.waiters[l] {
        assert HolderOk(sys, l);
        assert !Inverted(sys, l, t) || sys.holder[l] == h;
      }
    }
  }

  /** At the end of the chain nobody is left behind a lower holder. */
  lemma ChainEnd(sys: Sys, h: Tid)
    requires Consistent(sys) && DonatedBut(sys, h) && h !in sys.waiting
    ensures Donated(sys)
  {
    forall l, t {:trigger Inverted(sys, l, t)}
      ensures !Inverted(sys, l, t)
    {
      if t == h && l in sys.waiters {
        assert QueueOk(sys, l);
      }
    }
  }

  /** A thread on the chain is queued, if at all, for the next lock. */
  lemma QueuedForNext(sys: Sys, h: Tid, l: Lock)
    requires Consistent(sys) && Inverted(sys, l, h)
    ensures h in sys.waiting && sys.waiting[h] == l
  {
    assert QueueOk(sys, l);
  }

  // ---------------------------------------------------------------- the walk

  /** Raising a thread that is queued for none of these locks does not change their maximum. */
  lemma {:induction false} MaxOverSame(sys: Sys, locks: seq<Lock>, base: int, g: Tid, p: int)
    requires Known(sys, locks) && g in sys.priority && forall l :: l in locks ==> g !in sys.waiters[l]
    ensures Known(Raise(sys, g, p), locks) && MaxOver(Raise(sys, g, p), locks, base) == MaxOver(sys, locks, base)
  {
    if locks != [] {
      MaxOfSame(sys.priority, sys.waiters[locks[0]], base, g, p);
      MaxOverSame(sys, locks[1..], MaxOf(sys.priority, sys.waiters[locks[0]], base), g, p);
    }
  }

  lemma {:induction false} MaxOfSame(priority: map<Tid, int>, threads: seq<Tid>, base: int, g: Tid, p: int)
    requires g in priority && g !in threads && forall t :: t in threads ==> t in priority
    ensures MaxOf(priority[g := p], threads, base) == MaxOf(priority, threads, base)
  {
    if threads != [] {
      MaxOfSame(priority, threads[1..], Max(base, priority[threads[0]]), g, p);
    }
  }

  /** h has the higher of c and what its own waiters donate. */
  ghost predicate Settled(sys: Sys, h: Tid, c: int)
    requires Consistent(sys)
  {
    h in sys.priority && sys.priority[h] == Max(c, Top(sys, h))
  }

  /** That is: no less than c, its own priority and any of its locks' waiters', and one of
      these. */
  lemma SettledMeans(sys: Sys, h: Tid, c: int)
    requires Consistent(sys) && h in sys.priority && ThreadOk(sys, h)
    ensures Settled(sys, h, c) <==>
            sys.priority[h] >= c && sys.priority[h] >= sys.orig[h] &&
            (forall l, t :: l in sys.locks[h] && t in sys.waiters[l] ==>
               t in sys.priority && sys.priority[h] >= sys.priority[t]) &&
            (sys.priority[h] == c || sys.priority[h] == sys.orig[h] ||
             exists l, t :: l in sys.locks[h] && t in sys.waiters[l] && t in sys.priority &&
                            sys.priority[h] == sys.priority[t])
  {
    MaxOverBounds(sys, sys.locks[h], sys.orig[h]);
    forall l, t | l in sys.locks[h] && t in sys.waiters[l]
      ensures t in sys.priority
    {
      assert QueueOk(sys, l);
    }
    hide MaxOver;
  }

  /** What holds when the walk is at lock lp, the threads in raised having been raised; kept
      says that before the walk no waiter was above its lock's holder. */
  ghost predicate AtLock(sys: Sys, rank: Lock -> nat, lp: Lock, raised: set<Tid>, c: int, kept: bool) {
    Consistent(sys) && lp in sys.holder && sys.holder[lp] in raised && (kept ==> DonatedBut(sys, sys.holder[lp])) &&
    (forall h :: h in raised ==> Settled(sys, h, c)) &&
    forall h :: h in raised && h != sys.holder[lp] ==> h in sys.waiting && rank(sys.waiting[h]) >= rank(lp)
  }

  /** The first raise. */
  lemma WalkStarts(sys: Sys, rank: Lock -> nat, l: Lock, c: int, kept: bool)
    requires Consistent(sys) && (kept ==> Donated(sys)) && Acyclic(sys.holder, sys.waiting, rank) && l in sys.holder
    ensures sys.holder[l] in sys.priority
    ensures AtLock(Raise(sys, sys.holder[l], Max(c, Top(sys, sys.holder[l]))), rank, l, {sys.holder[l]}, c, kept)
  {
    assert HolderOk(sys, l);
    var h := sys.holder[l];
    var p := Max(c, Top(sys, h));
    RaiseConsistent(sys, h, p);
    if kept { RaiseFirst(sys, h, p); }
    OwnTop(sys, rank, h, p);
  }

  lemma RaiseFirst(sys: Sys, h: Tid, p: int)
    requires Consistent(sys) && Donated(sys) && h in sys.priority && p >= Top(sys, h)
    ensures DonatedBut(Raise(sys, h, p), h)
  {
    var sys' := Raise(sys, h, p);
    MaxOverBounds(sys, sys.locks[h], sys.orig[h]);
    forall l, t {:trigger Inverted(sys', l, t)} | t != h
      ensures !Inverted(sys', l, t)
    {
      if l in sys.holder { assert HolderOk(sys, l); }
      assert !Inverted(sys, l, t);
    }
  }

  /** A thread is not queued for a lock it holds, so raising it does not change what it gets. */
  lemma OwnTop(sys: Sys, rank: Lock -> nat, h: Tid, p: int)
    requires Consistent(sys) && Acyclic(sys.holder, sys.waiting, rank) && h in sys.priority
    requires Consistent(Raise(sys, h, p))
    ensures Top(Raise(sys, h, p), h) == Top(sys, h)
  {
    assert ThreadOk(sys, h);
    forall l | l in sys.locks[h]
      ensures h !in sys.waiters[l]
    {
      assert QueueOk(sys, l);
    }
    MaxOverSame(sys, sys.locks[h], sys.orig[h], h, p);
  }

  /** The next raise: lp leads to next, whose holder is raised. */
  lemma WalkGoesOn(sys: Sys, rank: Lock -> nat, lp: Lock, raised: set<Tid>, c: int, kept: bool)
    requires AtLock(sys, rank, lp, raised, c, kept) && Acyclic(sys.holder, sys.waiting, rank)
    requires sys.holder[lp] in sys.waiting && sys.waiting[sys.holder[lp]] in sys.holder
    ensures var next := sys.waiting[sys.holder[lp]];
            var g := sys.holder[next];
            g in sys.priority && rank(next) < rank(lp) &&
            AtLock(Raise(sys, g, Max(c, Top(sys, g))), rank, next, raised + {g}, c, kept)
  {
    var u := sys.holder[lp];
    var next := sys.waiting[u];
    var g := sys.holder[next];
    assert HolderOk(sys, next);
    var p := Max(c, Top(sys, g));
    RaiseConsistent(sys, g, p);
    forall l | Inverted(sys, l, u)
      ensures sys.holder[l] == g
    {
      QueuedForNext(sys, u, l);
    }
    assert g != u;
    hide ThreadOk, HolderOk, QueueOk, Inverted, Acyclic;
    if kept { RaiseKeeps(sys, u, g, p); }
    OwnTop(sys, rank, g, p);
    forall h | h in raised + {g}
      ensures Settled(Raise(sys, g, p), h, c)
    {
      if h != g {
        assert Settled(sys, h, c);
        OtherTop(sys, rank, h, g, p, lp);
      }
    }
  }

  /** A thread further down the chain does not wait for one that was raised before. */
  lemma OtherTop(sys: Sys, rank: Lock -> nat, h: Tid, g: Tid, p: int, lp: Lock)
    requires Consistent(sys) && Acyclic(sys.holder, sys.waiting, rank) && h in sys.priority && g in sys.priority
    requires Consistent(Raise(sys, g, p)) && h in sys.waiting && lp in sys.holder && sys.holder[lp] in sys.waiting
    requires var next := sys.waiting[sys.holder[lp]];
             next in sys.holder && sys.holder[next] == g && rank(sys.waiting[h]) >= rank(next)
    ensures Top(Raise(sys, g, p), h) == Top(sys, h)
  {
    assert ThreadOk(sys, h);
    forall l | l in sys.locks[h]
      ensures g !in sys.waiters[l]
    {
      assert QueueOk(sys, l);
    }
    MaxOverSame(sys, sys.locks[h], sys.orig[h], g, p);
  }

  /** The holder of lp gets the higher of c and its own top. */
  function RaiseTop(sys: Sys, lp: Lock, c: int): Sys
    requires Consistent(sys) && lp in sys.holder && sys.holder[lp] in sys.priority
  {
    Raise(sys, sys.holder[lp], Max(c, Top(sys, sys.holder[lp])))
  }

  datatype Outcome = Fault | Done(sys: Sys)

  /** The rest of the walk, lp's holder having been raised. */
  ghost function Walked(sys: Sys, rank: Lock -> nat, lp: Lock, c: int): Outcome
    requires Consistent(sys) && Acyclic(sys.holder, sys.waiting, rank) && lp in sys.holder
    decreases rank(lp)
  {
    if sys.holder[lp] !in sys.waiting then Done(sys)
    else
      var next := sys.waiting[sys.holder[lp]];
      if next !in sys.holder then Fault
      else
        assert HolderOk(sys, next);
        RaiseConsistent(sys, sys.holder[next], Max(c, Top(sys, sys.holder[next])));
        Walked(RaiseTop(sys, next, c), rank, next, c)
  }

  lemma HoldersCons(holder: map<Lock, Tid>, l: Lock, chain: seq<Lock>)
    ensures HoldersOf(holder, [l] + chain) == HoldersOf(holder, chain) + if l in holder then {holder[l]} else {}
  {}

  /** The threads in settled are, nobody else's priority has changed, and no waiter is above
      its lock's holder. */
  ghost predicate Balanced(sys: Sys, sys': Sys, settled: set<Tid>, c: int, kept: bool) {
    Consistent(sys') && (kept ==> Donated(sys')) && sys' == sys.(priority := sys'.priority) &&
    sys'.priority.Keys == sys.priority.Keys &&
    forall t :: t in sys.priority ==> if t in settled then Settled(sys', t, c) else sys'.priority[t] == sys.priority[t]
  }

  /** The walk and the chain one lock on. */
  lemma Unfolded(sys: Sys, rank: Lock -> nat, lp: Lock, c: int)
    requires Consistent(sys) && Acyclic(sys.holder, sys.waiting, rank) && lp in sys.holder
    ensures var r, chain := Walked(sys, rank, lp, c), Chain(sys.holder, sys.waiting, rank, lp);
            if sys.holder[lp] !in sys.waiting then r == Done(sys) && chain == [lp]
            else
              var next := sys.waiting[sys.holder[lp]];
              var rest := Chain(sys.holder, sys.waiting, rank, next);
              rank(next) < rank(lp) && chain == [lp] + rest && chain[|chain| - 1] == rest[|rest| - 1] &&
              if next in sys.holder then
                sys.holder[next] in sys.priority && Consistent(RaiseTop(sys, next, c)) &&
                r == Walked(RaiseTop(sys, next, c), rank, next, c)
              else r.Fault? && rest == [next]
  {
    if sys.holder[lp] in sys.waiting && sys.waiting[sys.holder[lp]] in sys.holder {
      var next := sys.waiting[sys.holder[lp]];
      assert HolderOk(sys, next);
      RaiseConsistent(sys, sys.holder[next], Max(c, Top(sys, sys.holder[next])));
    }
    hide Consistent, Top;
  }

  lemma {:induction false} WalkResult(sys: Sys, rank: Lock -> nat, lp: Lock, raised: set<Tid>, c: int, kept: bool)
    requires AtLock(sys, rank, lp, raised, c, kept) && Acyclic(sys.holder, sys.waiting, rank)
    ensures var r, chain := Walked(sys, rank, lp, c), Chain(sys.holder, sys.waiting, rank, lp);
            (r.Fault? <==> chain[|chain| - 1] !in sys.holder) &&
            (r.Done? ==> Balanced(sys, r.sys, raised + HoldersOf(sys.holder, chain), c, kept))
    decreases rank(lp)
  {
    var h := sys.holder[lp];
    Unfolded(sys, rank, lp, c);
    if h !in sys.waiting {
      WalkBase(sys, rank, lp, raised, c, kept);
    } else if sys.waiting[h] in sys.holder {
      var next := sys.waiting[h];
      WalkGoesOn(sys, rank, lp, raised, c, kept);
      hide AtLock, Consistent, Acyclic, Balanced, Top, HoldersOf, Walked, Chain;
      WalkResult(RaiseTop(sys, next, c), rank, next, raised + {sys.holder[next]}, c, kept);
      var rest := Chain(sys.holder, sys.waiting, rank, next);
      SettledSets(sys, rank, lp, raised, c, kept, next, rest);
      if Walked(sys, rank, lp, c).Done? {
        BalancedBack(sys, Walked(sys, rank, lp, c).sys, next, raised + HoldersOf(sys.holder, [lp] + rest), c,
                     kept);
      }
    }
  }

  lemma SettledSets(sys: Sys, rank: Lock -> nat, lp: Lock, raised: set<Tid>, c: int, kept: bool, next: Lock,
                    rest: seq<Lock>)
    requires AtLock(sys, rank, lp, raised, c, kept) && |rest| > 0 && rest[0] == next && next in sys.holder
    ensures raised + {sys.holder[next]} + HoldersOf(sys.holder, rest) == raised + HoldersOf(sys.holder, [lp] + rest)
    ensures sys.holder[next] in raised + HoldersOf(sys.holder, [lp] + rest)
  {
    HeadRaised(sys, rank, lp, raised, c, kept);
    HoldersCons(sys.holder, lp, rest);
    HoldsFirst(sys.holder, rest, next);
    hide HoldersOf;
  }

  lemma HeadRaised(sys: Sys, rank: Lock -> nat, lp: Lock, raised: set<Tid>, c: int, kept: bool)
    requires AtLock(sys, rank, lp, raised, c, kept)
    ensures sys.holder[lp] in raised
  {}

  lemma WalkBase(sys: Sys, rank: Lock -> nat, lp: Lock, raised: set<Tid>, c: int, kept: bool)
    requires AtLock(sys, rank, lp, raised, c, kept) && Acyclic(sys.holder, sys.waiting, rank) &&
             sys.holder[lp] !in sys.waiting
    ensures Balanced(sys, sys, raised + HoldersOf(sys.holder, Chain(sys.holder, sys.waiting, rank, lp)), c, kept)
  {
    if kept { ChainEnd(sys, sys.holder[lp]); }
    assert HoldersOf(sys.holder, [lp]) == {sys.holder[lp]};
  }

  lemma BalancedBack(sys: Sys, sys': Sys, next: Lock, settled: set<Tid>, c: int, kept: bool)
    requires Consistent(sys) && next in sys.holder && sys.holder[next] in sys.priority && sys.holder[next] in settled
    requires Balanced(RaiseTop(sys, next, c), sys', settled, c, kept)
    ensures Balanced(sys, sys', settled, c, kept)
  {}

  lemma HoldsFirst(holder: map<Lock, Tid>, chain: seq<Lock>, l: Lock)
    requires |chain| > 0 && chain[0] == l && l in holder
    ensures holder[l] in HoldersOf(holder, chain)
  {}

  /** When lock_acquire walks: the lock is held by a thread with a lower priority. */
  predicate Walks(sys: Sys, cur: Tid, l: Lock)
    requires cur in sys.priority
  {
    l in sys.holder && sys.holder[l] in sys.priority && sys.priority[sys.holder[l]] < sys.priority[cur]
  }

  class Kernel {
    var priority: map<Tid, int>
    var orig: map<Tid, int>
    var waiting: map<Tid, Lock>
    var locks: map<Tid, seq<Lock>>
    var holder: map<Lock, Tid>
    var waiters: map<Lock, seq<Tid>>
    const plain: set<Lock>

    ghost function S(): Sys
      reads this
    {
      Sys(priority, orig, waiting, locks, holder, waiters, plain)
    }

    /** get_max_priority. */
    method GetMaxPriority(t: Tid) returns (prr: int)
      requires Consistent(S()) && t in priority
      ensures prr == Top(S(), t)
    {
      hide *;
      ghost var sys := S();
      Fields();
      TopKnown(sys, t);
      if |locks[t]| == 0 {
        MaxOverNone(sys, orig[t]);
        return orig[t];
      }
      prr := orig[t];
      var e := 0;
      assert locks[t][0..] == locks[t];
      while e < |locks[t]|
        invariant 0 <= e <= |locks[t]| && Known(sys, locks[t][e..])
        invariant MaxOver(sys, locks[t][e..], prr) == Top(sys, t)
      {
        MaxOverStep(sys, locks[t], e, prr);
        var w := waiters[locks[t][e]];
        ghost var base := prr;
        var f := 0;
        assert w[0..] == w;
        while f < |w|
          invariant 0 <= f <= |w|
          invariant MaxOf(priority, w[f..], prr) == MaxOf(priority, w, base)
        {
          MaxOfStep(priority, w, f, prr);
          prr := if priority[w[f]] > prr then priority[w[f]] else prr;
          f := f + 1;
        }
        MaxOfNone(priority, w, prr);
        e := e + 1;
      }
      assert locks[t][e..] == [];
      MaxOverNone(sys, prr);
    }

    /** lock_acquire up to its sema_down, not interrupted (DonationSteps.dfy has the rest).
        fault: the walk follows the holder of a lock that has none.  This happens exactly when
        a donation is due and the last lock of the chain is not held.  Otherwise the caller is
        not above its lock's holder, and no waiter is if none was before. */
    method LockAcquire(cur: Tid, lock: Lock, ghost rank: Lock -> nat, ghost came: map<Tid, int>) returns (fault: bool)
      requires Consistent(S()) && cur in priority && cur !in waiting && lock in waiters && lock !in plain
      requires NotQueued(S(), {cur})
      requires !HeldBy(holder, lock, cur)
      requires Acyclic(holder, waiting[cur := lock], rank)
      modifies this`waiting, this`priority
      ensures waiting == old(waiting)[cur := lock]
      ensures Walks(old(S()), cur, lock) <==>
              lock in holder && holder[lock] in old(priority) && old(priority)[holder[lock]] < old(priority)[cur]
      ensures var chain := Chain(holder, waiting, rank, lock);
              (fault <==> Walks(old(S()), cur, lock) && chain[|chain| - 1] !in holder) &&
              (!fault && Walks(old(S()), cur, lock) ==>
                 Balanced(old(S()).(waiting := waiting), S(), HoldersOf(holder, chain), old(priority[cur]),
                          old(Donated(S()))) &&
                 (old(InOrder(S(), came)) && NotQueued(S(), HoldersOf(holder, chain)) ==> InOrder(S(), came)))
      ensures !Walks(old(S()), cur, lock) ==>
              priority == old(priority) && Consistent(S()) && (old(Donated(S())) ==> Donated(S()))
      ensures !fault && lock in holder ==>
              cur in priority && holder[lock] in priority && priority[cur] <= priority[holder[lock]]
    {
      hide *;
      ghost var sys := S();
      Fields();
      WaitingSet(sys, cur, lock);
      waiting := waiting[cur := lock];
      Fields();
      WalksIs(sys, cur, lock);
      ghost var now := S();
      fault := false;
      if lock in holder {
        if priority[holder[lock]] < priority[cur] {
          NotOwn(cur, lock);
          fault := Walk(cur, lock, rank, Donated(now));
          Fields();
          if !fault { BalancedOrder(now, S(), HoldersOf(holder, Chain(holder, waiting, rank, lock)),
              now.priority[cur], Donated(now), came); }
        }
      }
      SameOrder(sys, now, came);
    }

    lemma Fields()
      ensures S() == Sys(priority, orig, waiting, locks, holder, waiters, plain)
    {}

    lemma NotOwn(cur: Tid, lock: Lock)
      requires !HeldBy(holder, lock, cur) && lock in holder
      ensures holder[lock] != cur
    {}

    /** sema_down's queueing for a lock that is taken, or for a plain semaphore.  Behind a
        holder that is high enough it leaves no waiter above its lock's holder. */
    method Queue(cur: Tid, lock: Lock, ghost came: map<Tid, int>, ghost now: int)
      requires Consistent(S()) && cur in priority && lock in waiters && MayQueue(S(), cur, lock)
      requires NotQueued(S(), {cur})
      modifies this`waiters
      ensures Consistent(S()) && lock in waiters && cur in waiters[lock]
      ensures Donated(S()) <==> old(Donated(S())) && !Above(S(), cur, lock)
      ensures lock in old(waiters) && waiters == old(waiters)[lock := waiters[lock]]
      ensures InsertedBefore(priority, old(waiters)[lock], cur, waiters[lock])
      ensures old(InOrder(S(), came)) && (forall u :: u in came ==> came[u] < now) ==>
              InOrder(S(), came[cur := now])
    {
      ghost var sys := S();
      if InOrder(sys, came) && forall u :: u in came ==> came[u] < now {
        QueuedInOrder(sys, cur, lock, came, now);
      }
      hide InOrder;
      assert QueueOk(sys, lock);
      var w := InsertOrdered(priority, waiters[lock], cur);
      QueuedKeeps(sys, cur, lock, w);
      InsertedPlace(priority, waiters[lock], cur);
      hide Consistent, Donated, Inserted, Above, InsertedBefore;
      waiters := waiters[lock := w];
    }

    /** The end of lock_acquire, the semaphore being down. */
    method BecomeHolder(cur: Tid, lock: Lock)
      requires Consistent(S()) && cur in priority && lock !in holder && lock in waiters
      requires cur !in waiters[lock] && cur in waiting && waiting[cur] == lock
      modifies this`waiting, this`locks, this`holder
      ensures Consistent(S()) && HeldBy(holder, lock, cur) && cur !in waiting
      ensures holder == old(holder)[lock := cur] && waiting == old(waiting) - {cur}
      ensures cur in old(locks) && locks == old(locks)[cur := [lock] + old(locks)[cur]]
      ensures Donated(S()) <==>
              old(Donated(S())) && forall t :: t in waiters[lock] ==> t in priority && priority[t] <= priority[cur]
    {
      assert ThreadOk(S(), cur);
      AcquiredConsistent(S(), cur, lock);
      AcquiredDonated(S(), cur, lock);
      hide Consistent, Donated, ThreadOk, QueueOk, HolderOk;
      waiting := waiting - {cur};
      locks := locks[cur := [lock] + locks[cur]];
      holder := holder[lock := cur];
    }

    /** lock_release with its sema_up: the last of the highest waiters is woken, the caller
        falls back to what its other locks' waiters donate, and no waiter is left above its
        lock's holder. */
    method LockRelease(cur: Tid, lock: Lock, ghost came: map<Tid, int>) returns (woken: int)
      requires Consistent(S()) && cur in priority && cur !in waiting && HeldBy(holder, lock, cur)
      requires NotQueued(S(), {cur})
      modifies this`locks, this`holder, this`waiters, this`priority
      ensures Consistent(S()) && (old(Donated(S())) ==> Donated(S())) && lock !in holder && lock in old(waiters)
      ensures holder == old(holder) - {lock}
      ensures cur in old(locks) && lock in old(locks)[cur]
      ensures locks == old(locks)[cur := Removed(old(locks)[cur], lock)]
      ensures woken == -1 <==> old(waiters)[lock] == []
      ensures woken == -1 ==> priority == old(priority) && waiters == old(waiters)
      ensures forall u :: u in old(waiters)[lock] ==> u in old(priority)
      ensures woken != -1 ==>
        lock in waiters && Chosen(old(priority), old(waiters)[lock], waiters[lock], woken) &&
        waiters == old(waiters)[lock := waiters[lock]]
      ensures woken != -1 ==> cur in priority && priority == old(priority)[cur := Top(S(), cur)]
      ensures old(InOrder(S(), came)) ==>
              InOrder(S(), came) && (woken != -1 ==> Oldest(old(priority), came, old(waiters)[lock], woken))
    {
      LockIsListed(S(), cur, lock);
      ReleasedKeeps(S(), cur, lock);
      hide Consistent, Donated, Removed;
      ReleasedInOrder(S(), cur, lock, came);
      hide InOrder, Oldest, NotQueued;
      locks := locks[cur := Removed(locks[cur], lock)];
      holder := holder - {lock};
      woken := SemaUp(cur, lock, came);
    }

    /** sema_up by a thread that waits for nothing. */
    method SemaUp(cur: Tid, lock: Lock, ghost came: map<Tid, int>) returns (woken: int)
      requires Consistent(S()) && cur in priority && cur !in waiting && lock in waiters && lock !in holder
      requires NotQueued(S(), {cur})
      modifies this`waiters, this`priority
      ensures Consistent(S()) && (old(Donated(S())) ==> Donated(S()))
      ensures woken == -1 <==> old(waiters)[lock] == []
      ensures woken == -1 ==> priority == old(priority) && waiters == old(waiters)
      ensures forall u :: u in old(waiters)[lock] ==> u in old(priority)
      ensures woken != -1 ==>
        lock in waiters && Chosen(old(priority), old(waiters)[lock], waiters[lock], woken) &&
        waiters == old(waiters)[lock := waiters[lock]]
      ensures woken != -1 ==> cur in priority && priority == old(priority)[cur := Top(S(), cur)]
      ensures old(InOrder(S(), came)) ==>
              InOrder(S(), came) && (woken != -1 ==> Oldest(old(priority), came, old(waiters)[lock], woken))
    {
      hide Consistent, Donated, InOrder, Oldest, Chosen, Top, Known, ThreadOk, HolderOk, QueueOk;
      QueueKnown(lock);
      if waiters[lock] == [] {
        return -1;
      }
      ghost var sys := S();
      woken := PopHighest(lock);
      ResetKeeps(S(), cur);
      TopAtLeast(S(), cur);
      if InOrder(sys, came) { PoppedInOrder(sys, lock, waiters[lock], woken, cur, Top(S(), cur), came); }
      hide *;
      var top := GetMaxPriority(cur);
      SetPriority(cur, if top > orig[cur] then top else orig[cur]);
    }

    lemma QueueKnown(lock: Lock)
      requires Consistent(S()) && lock in waiters
      ensures S().waiters == waiters && S().priority == priority
      ensures forall u :: u in waiters[lock] ==> u in priority
    {
      assert QueueOk(S(), lock);
    }

    method SetPriority(t: Tid, p: int)
      requires t in priority
      modifies this`priority
      ensures S() == Raise(old(S()), t, p)
    {
      priority := priority[t := p];
    }

    /** sema_up's list_max and list_remove. */
    method PopHighest(lock: Lock) returns (woken: Tid)
      requires Consistent(S()) && lock in waiters && waiters[lock] != []
      modifies this`waiters
      ensures Consistent(S()) && (old(Donated(S())) ==> Donated(S())) && lock in waiters
      ensures forall u :: u in old(waiters)[lock] ==> u in priority
      ensures Chosen(priority, old(waiters)[lock], waiters[lock], woken) &&
              waiters == old(waiters)[lock := waiters[lock]]
    {
      ghost var sys := S();
      assert QueueOk(sys, lock);
      var w := waiters[lock];
      var max := ListMax(priority, w);
      woken := w[max];
      PoppedKeeps(sys, lock, w[..max] + w[max + 1..]);
      hide Consistent, Donated, QueueOk, LastHighest;
      waiters := waiters[lock := w[..max] + w[max + 1..]];
    }

    /** The walk itself. */
    method Walk(cur: Tid, lock: Lock, ghost rank: Lock -> nat, ghost kept: bool) returns (fault: bool)
      requires Consistent(S()) && (kept ==> Donated(S())) && cur in priority && cur in waiting && waiting[cur] == lock
      requires lock in holder && holder[lock] != cur && holder[lock] in priority && Acyclic(holder, waiting, rank)
      modifies this`priority
      ensures var chain := Chain(holder, waiting, rank, lock);
              (fault <==> chain[|chain| - 1] !in holder) &&
              (!fault ==> Balanced(old(S()), S(), HoldersOf(holder, chain), old(priority[cur]), kept))
      ensures !fault ==> cur in priority && holder[lock] in priority && priority[cur] <= priority[holder[lock]]
    {
      hide *;
      ghost var sys, c := S(), priority[cur];
      Fields();
      WalkFromTop(sys, rank, lock, c, kept);
      RaiseHolder(cur, lock);
      Fields();
      fault := NestedDonation(cur, lock, rank, c);
      Fields();
    }

    /** The loop: the rest of the chain, the first holder having been raised. */
    method NestedDonation(cur: Tid, lock: Lock, ghost rank: Lock -> nat, ghost c: int) returns (fault: bool)
      requires Consistent(S()) && Acyclic(holder, waiting, rank) && lock in holder && holder[lock] in priority
      requires cur in priority && priority[cur] == c && cur in waiting && waiting[cur] == lock
      modifies this`priority
      ensures var r := Walked(old(S()), rank, lock, c);
              (fault <==> r.Fault?) && (!fault ==> r == Done(S()))
      ensures cur in priority && priority[cur] == c
    {
      ghost var first := S();
      hide Consistent, Acyclic, Walked, RaiseTop, Top, Raise;
      var lp := lock;
      while holder[lp] in waiting
        invariant lp in holder && rank(lp) <= rank(lock) && cur in priority && priority[cur] == c
        invariant Consistent(S()) && Acyclic(holder, waiting, rank) && holder[lp] in priority
        invariant Walked(S(), rank, lp, c) == Walked(first, rank, lock, c)
        decreases rank(lp)
      {
        WalkStep(S(), rank, lp, c, cur, lock);
        lp := waiting[holder[lp]];
        if lp !in holder {
          return true;
        }
        RaiseHolder(cur, lp);
      }
      WalkStops(S(), rank, lp, c);
      fault := false;
    }

    /** lp->holder->priority = MAX (thread_current ()->priority, get_max_priority (lp->holder)). */
    method RaiseHolder(cur: Tid, lp: Lock)
      requires Consistent(S()) && cur in priority && lp in holder && holder[lp] in priority
      modifies this`priority
      ensures S() == RaiseTop(old(S()), lp, old(priority[cur]))
    {
      hide Consistent, Top;
      var top := GetMaxPriority(holder[lp]);
      priority := priority[holder[lp] := Max(priority[cur], top)];
    }
  }

  lemma LockIsListed(sys: Sys, cur: Tid, l: Lock)
    requires Consistent(sys) && cur in sys.priority && HeldBy(sys.holder, l, cur)
    ensures cur in sys.locks && l in sys.locks[cur] && l in sys.waiters && cur in sys.orig
    ensures forall u :: u in sys.waiters[l] ==> u in sys.priority
  {
    assert HolderOk(sys, l);
    assert ThreadOk(sys, cur);
    assert QueueOk(sys, l);
  }

  lemma MaxOverNone(sys: Sys, base: int)
    ensures Known(sys, []) && MaxOver(sys, [], base) == base
  {}

  lemma MaxOverStep(sys: Sys, locks: seq<Lock>, e: nat, base: int)
    requires e < |locks| && Known(sys, locks[e..])
    ensures locks[e] in sys.waiters && forall u :: u in sys.waiters[locks[e]] ==> u in sys.priority
    ensures Known(sys, locks[e + 1..])
    ensures MaxOver(sys, locks[e..], base) == MaxOver(sys, locks[e + 1..],
            MaxOf(sys.priority, sys.waiters[locks[e]], base))
  {
    assert locks[e..][0] == locks[e] && locks[e..][1..] == locks[e + 1..];
    assert locks[e] in locks[e..];
  }

  lemma MaxOfStep(priority: map<Tid, int>, w: seq<Tid>, f: nat, base: int)
    requires f < |w| && forall u :: u in w ==> u in priority
    ensures MaxOf(priority, w[f..], base) ==
            MaxOf(priority, w[f + 1..], if priority[w[f]] > base then priority[w[f]] else base)
  {
    assert w[f..][0] == w[f] && w[f..][1..] == w[f + 1..];
  }

  lemma MaxOfNone(priority: map<Tid, int>, w: seq<Tid>, base: int)
    ensures MaxOf(priority, w[|w|..], base) == base
  {}

  lemma TopKnown(sys: Sys, t: Tid)
    requires Consistent(sys) && t in sys.priority
    ensures t in sys.locks && t in sys.orig && Known(sys, sys.locks[t])
    ensures Top(sys, t) == MaxOver(sys, sys.locks[t], sys.orig[t])
  {
    assert ThreadOk(sys, t);
    forall l | l in sys.locks[t]
      ensures l in sys.waiters && forall u :: u in sys.waiters[l] ==> u in sys.priority
    {
      assert QueueOk(sys, l);
    }
  }

  lemma TopAtLeast(sys: Sys, t: Tid)
    requires Consistent(sys) && t in sys.priority
    ensures t in sys.orig && Top(sys, t) >= sys.orig[t]
  {
    assert ThreadOk(sys, t);
    MaxOverBounds(sys, sys.locks[t], sys.orig[t]);
  }

  /** The first raise and the walk after it. */
  lemma WalkFromTop(sys: Sys, rank: Lock -> nat, lock: Lock, c: int, kept: bool)
    requires Consistent(sys) && (kept ==> Donated(sys)) && Acyclic(sys.holder, sys.waiting, rank) && lock in sys.holder
    ensures sys.holder[lock] in sys.priority
    ensures var first := RaiseTop(sys, lock, c);
            Consistent(first) && Acyclic(first.holder, first.waiting, rank) && lock in first.holder &&
            (forall t :: t in sys.priority && t != sys.holder[lock] ==>
            t in first.priority && first.priority[t] == sys.priority[t]) &&
            sys.holder[lock] in first.priority
    ensures var first := RaiseTop(sys, lock, c);
            var r, chain := Walked(first, rank, lock, c), Chain(sys.holder, sys.waiting, rank, lock);
            (r.Fault? <==> chain[|chain| - 1] !in sys.holder) &&
            (r.Done? ==> Balanced(sys, r.sys, HoldersOf(sys.holder, chain), c, kept) &&
                         sys.holder[lock] in r.sys.priority && r.sys.priority[sys.holder[lock]] >= c)
  {
    hide *;
    WalkStarts(sys, rank, lock, c, kept);
    FirstRaised(sys, rank, lock, c, kept);
    var first, h := RaiseTop(sys, lock, c), sys.holder[lock];
    WalkResult(first, rank, lock, {h}, c, kept);
    var chain := Chain(sys.holder, sys.waiting, rank, lock);
    SettledFirst(sys, rank, lock);
    if Walked(first, rank, lock, c).Done? {
      BalancedBack(sys, Walked(first, rank, lock, c).sys, lock, HoldersOf(sys.holder, chain), c, kept);
      SettledAtLeast(sys, Walked(first, rank, lock, c).sys, HoldersOf(sys.holder, chain), h, c, kept);
    }
  }

  lemma FirstRaised(sys: Sys, rank: Lock -> nat, lock: Lock, c: int, kept: bool)
    requires Consistent(sys) && Acyclic(sys.holder, sys.waiting, rank) && lock in sys.holder &&
             sys.holder[lock] in sys.priority
    requires AtLock(Raise(sys, sys.holder[lock], Max(c, Top(sys, sys.holder[lock]))), rank, lock, {sys.holder[lock]}, c,
                    kept)
    ensures var first := RaiseTop(sys, lock, c);
            AtLock(first, rank, lock, {sys.holder[lock]}, c, kept) && Consistent(first) &&
            Acyclic(first.holder, first.waiting, rank) &&
            first.holder == sys.holder && first.waiting == sys.waiting && sys.holder[lock] in first.priority &&
            forall t :: t in sys.priority && t != sys.holder[lock] ==>
                t in first.priority && first.priority[t] == sys.priority[t]
  {
    hide Consistent, Acyclic, Top;
  }

  lemma SettledFirst(sys: Sys, rank: Lock -> nat, lock: Lock)
    requires Acyclic(sys.holder, sys.waiting, rank) && lock in sys.holder
    ensures var settled := HoldersOf(sys.holder, Chain(sys.holder, sys.waiting, rank, lock));
            sys.holder[lock] in settled && {sys.holder[lock]} + settled == settled
  {
    HoldsFirst(sys.holder, Chain(sys.holder, sys.waiting, rank, lock), lock);
    hide HoldersOf;
  }

  lemma SettledAtLeast(sys: Sys, last: Sys, settled: set<Tid>, h: Tid, c: int, kept: bool)
    requires Balanced(sys, last, settled, c, kept) && h in settled && h in sys.priority
    ensures h in last.priority && last.priority[h] >= c
  {
    assert Settled(last, h, c);
  }

  /** One turn of the loop. */
  lemma WalkStep(sys: Sys, rank: Lock -> nat, lp: Lock, c: int, cur: Tid, lock: Lock)
    requires Consistent(sys) && Acyclic(sys.holder, sys.waiting, rank) && lp in sys.holder &&
             sys.holder[lp] in sys.waiting
    requires cur in sys.waiting && sys.waiting[cur] == lock && rank(lp) <= rank(lock) && cur in sys.priority &&
             sys.priority[cur] == c
    ensures var next := sys.waiting[sys.holder[lp]];
            rank(next) < rank(lp) &&
            if next in sys.holder then
              sys.holder[next] in sys.priority &&
              var sys' := RaiseTop(sys, next, c);
              Consistent(sys') && Walked(sys', rank, next, c) == Walked(sys, rank, lp, c) &&
              cur in sys'.priority && sys'.priority[cur] == c && sys.holder[next] in sys'.priority
            else Walked(sys, rank, lp, c).Fault?
  {
    Unfolded(sys, rank, lp, c);
    hide Consistent, Top, Walked, Chain;
  }

  lemma WalkStops(sys: Sys, rank: Lock -> nat, lp: Lock, c: int)
    requires Consistent(sys) && Acyclic(sys.holder, sys.waiting, rank) && lp in sys.holder &&
             sys.holder[lp] !in sys.waiting
    ensures Walked(sys, rank, lp, c) == Done(sys)
  {}

  lemma WaitingSet(sys: Sys, cur: Tid, lock: Lock)
    requires Consistent(sys) && cur in sys.priority && cur !in sys.waiting && lock in sys.waiters && lock !in sys.plain
    requires NotQueued(sys, {cur})
    ensures var sys' := sys.(waiting := sys.waiting[cur := lock]);
            Consistent(sys') && (Donated(sys') <==> Donated(sys))
    ensures lock in sys.holder ==> sys.holder[lock] in sys.priority
  {
    var sys' := sys.(waiting := sys.waiting[cur := lock]);
    forall t | t in sys'.priority
      ensures ThreadOk(sys', t)
    {
      assert ThreadOk(sys, t);
    }
    forall l | l in sys'.holder
      ensures HolderOk(sys', l)
    {
      assert HolderOk(sys, l);
    }
    forall l | l in sys'.waiters
      ensures QueueOk(sys', l)
    {
      assert QueueOk(sys, l);
    }
    assert forall l, t :: Inverted(sys', l, t) <==> Inverted(sys, l, t);
  }

  // ---------------------------------------------------------------- queues

  /** list_insert_ordered with cmp_prr2: before the first thread that is at least as high. */
  function Inserted(priority: map<Tid, int>, w: seq<Tid>, t: Tid): (r: seq<Tid>)
    requires t in priority && forall u :: u in w ==> u in priority
    ensures |r| == |w| + 1 && forall u :: u in r <==> u in w || u == t
  {
    if w == [] then [t]
    else if priority[t] <= priority[w[0]] then [t] + w
    else
      assert w == [w[0]] + w[1..];
      [w[0]] + Inserted(priority, w[1..], t)
  }

  /** r is w with t before the first thread that is at least as high. */
  ghost predicate InsertedBefore(priority: map<Tid, int>, w: seq<Tid>, t: Tid, r: seq<Tid>) {
    exists e: nat :: IsPlace(priority, w, t, e) && r == w[..e] + [t] + w[e..]
  }

  ghost predicate IsPlace(priority: map<Tid, int>, w: seq<Tid>, t: Tid, e: nat) {
    e <= |w| && t in priority && (forall j :: 0 <= j < e ==> w[j] in priority && priority[w[j]] < priority[t]) &&
    (e < |w| ==> w[e] in priority && priority[w[e]] >= priority[t])
  }

  lemma {:induction false} InsertedPlace(priority: map<Tid, int>, w: seq<Tid>, t: Tid)
    requires t in priority && forall u :: u in w ==> u in priority
    ensures InsertedBefore(priority, w, t, Inserted(priority, w, t))
  {
    if w == [] || priority[t] <= priority[w[0]] {
      assert IsPlace(priority, w, t, 0) && w[..0] + [t] + w[0..] == [t] + w;
    } else {
      var rest := w[1..];
      assert w == [w[0]] + rest;
      InsertedPlace(priority, rest, t);
      var e: nat :| IsPlace(priority, rest, t, e) && Inserted(priority, rest, t) == rest[..e] + [t] + rest[e..];
      PlaceBehind(priority, w, t, e);
    }
  }

  lemma PlaceBehind(priority: map<Tid, int>, w: seq<Tid>, t: Tid, e: nat)
    requires w != [] && w[0] in priority && t in priority && priority[w[0]] < priority[t]
    requires IsPlace(priority, w[1..], t, e)
    ensures IsPlace(priority, w, t, e + 1)
    ensures [w[0]] + (w[1..][..e] + [t] + w[1..][e..]) == w[..e + 1] + [t] + w[e + 1..]
  {}

  /** a comes before b in a queue: it is lower, or as high and later to come. */
  ghost predicate Before(priority: map<Tid, int>, came: map<Tid, int>, a: Tid, b: Tid) {
    a in priority && b in priority && a in came && b in came &&
    (priority[a] < priority[b] || (priority[a] == priority[b] && came[a] > came[b]))
  }

  /** From low to high, and among equals from the last to the first to come. */
  ghost predicate Ordered(priority: map<Tid, int>, came: map<Tid, int>, w: seq<Tid>) {
    (forall u :: u in w ==> u in priority && u in came) &&
    forall i, j :: 0 <= i < j < |w| ==> Before(priority, came, w[i], w[j])
  }

  lemma OrderedCons(priority: map<Tid, int>, came: map<Tid, int>, a: Tid, w: seq<Tid>)
    requires Ordered(priority, came, w) && a in priority && a in came && forall b :: b in w ==>
             Before(priority, came, a, b)
    ensures Ordered(priority, came, [a] + w)
  {}

  lemma OrderedHead(priority: map<Tid, int>, came: map<Tid, int>, w: seq<Tid>)
    requires Ordered(priority, came, w) && w != []
    ensures Ordered(priority, came, w[1..]) && forall b :: b in w[1..] ==> Before(priority, came, w[0], b)
  {}

  /** A newcomer keeps the order. */
  lemma {:induction false} InsertedOrdered(priority: map<Tid, int>, came: map<Tid, int>, w: seq<Tid>, t: Tid)
    requires t in priority && t in came && forall u :: u in w ==> u in priority && u in came && came[u] < came[t]
    requires Ordered(priority, came, w)
    ensures Ordered(priority, came, Inserted(priority, w, t))
  {
    if w != [] {
      OrderedHead(priority, came, w);
      if priority[t] <= priority[w[0]] {
        OrderedCons(priority, came, t, w);
      } else {
        InsertedOrdered(priority, came, w[1..], t);
        OrderedCons(priority, came, w[0], Inserted(priority, w[1..], t));
      }
    }
  }

  /** Position m is where list_max with cmp_prr2 ends up: the last of the highest. */
  ghost predicate LastHighest(priority: map<Tid, int>, w: seq<Tid>, m: nat)
    requires forall u :: u in w ==> u in priority
  {
    m < |w| && (forall j :: 0 <= j < |w| ==> priority[w[j]] <= priority[w[m]]) &&
    forall j :: m < j < |w| ==> priority[w[j]] < priority[w[m]]
  }

  /** In an ordered queue sema_up wakes the first to come of the highest. */
  lemma OldestOfHighest(priority: map<Tid, int>, came: map<Tid, int>, w: seq<Tid>, m: nat, j: nat)
    requires forall u :: u in w ==> u in priority && u in came
    requires Ordered(priority, came, w) && LastHighest(priority, w, m) && j < |w| && j != m
    ensures priority[w[j]] < priority[w[m]] || (priority[w[j]] == priority[w[m]] && came[w[m]] < came[w[j]])
  {
    if j < m { assert Before(priority, came, w[j], w[m]); }
  }

  /** Of those with the highest priority in the queue, t came first. */
  ghost predicate Oldest(priority: map<Tid, int>, came: map<Tid, int>, w: seq<Tid>, t: int) {
    t in w && t in priority && t in came &&
    forall u :: u in w && u != t ==>
      u in priority && u in came && (priority[u] < priority[t] || (priority[u] == priority[t] && came[t] < came[u]))
  }

  /** Every queue is ordered. */
  ghost predicate InOrder(sys: Sys, came: map<Tid, int>) {
    forall l :: l in sys.waiters ==> Ordered(sys.priority, came, sys.waiters[l])
  }

  /** None of these threads is queued. */
  ghost predicate NotQueued(sys: Sys, threads: set<Tid>) {
    forall l, t :: l in sys.waiters && t in sys.waiters[l] ==> t !in threads
  }

  lemma OrderedSame(priority: map<Tid, int>, priority': map<Tid, int>, came: map<Tid, int>, came': map<Tid, int>,
                    w: seq<Tid>)
    requires Ordered(priority, came, w)
    requires forall u :: u in w && u in priority ==> u in priority' && priority'[u] == priority[u]
    requires forall u :: u in w && u in came ==> u in came' && came'[u] == came[u]
    ensures Ordered(priority', came', w)
  {
    forall i, j | 0 <= i < j < |w|
      ensures Before(priority', came', w[i], w[j])
    {
      assert Before(priority, came, w[i], w[j]);
    }
  }

  /** A donation keeps the queues ordered in which it raises nobody. */
  lemma BalancedOrder(sys: Sys, sys': Sys, settled: set<Tid>, c: int, kept: bool, came: map<Tid, int>)
    requires Balanced(sys, sys', settled, c, kept)
    ensures InOrder(sys, came) && NotQueued(sys', settled) ==> InOrder(sys', came)
  {
    if InOrder(sys, came) && NotQueued(sys', settled) {
      hide Consistent, Donated, Ordered, Settled;
      forall l | l in sys'.waiters
        ensures Ordered(sys'.priority, came, sys'.waiters[l])
      {
        OrderedSame(sys.priority, sys'.priority, came, came, sys.waiters[l]);
      }
    }
  }

  /** Exactly when a donation keeps a queue ordered: everyone behind a thread that it raises,
      or in front of one that it lowers, still belongs there. */
  lemma DonationOrder(sys: Sys, sys': Sys, settled: set<Tid>, c: int, kept: bool, came: map<Tid, int>, l: Lock)
    requires Balanced(sys, sys', settled, c, kept) && l in sys.waiters && Ordered(sys.priority, came, sys.waiters[l])
    ensures var w := sys.waiters[l];
            Ordered(sys'.priority, came, w) <==>
            forall i, j :: 0 <= i < j < |w| && (w[i] in settled || w[j] in settled) ==>
              Before(sys'.priority, came, w[i], w[j])
    ensures var w := sys.waiters[l];
            (forall u :: u in w ==> u in sys.priority && sys'.priority[u] >= sys.priority[u]) ==>
            (Ordered(sys'.priority, came, w) <==>
             forall i, j :: 0 <= i < j < |w| && w[i] in settled ==> Before(sys'.priority, came, w[i], w[j]))
  {
    var w := sys.waiters[l];
    hide Consistent, Donated, Settled;
    forall i, j | 0 <= i < j < |w| && w[i] !in settled
      ensures w[j] !in settled || sys'.priority[w[j]] >= sys.priority[w[j]] ==> Before(sys'.priority, came, w[i], w[j])
    {
      assert Before(sys.priority, came, w[i], w[j]);
    }
  }

  /** Whoever queues last is in its place. */
  lemma QueuedInOrder(sys: Sys, cur: Tid, l: Lock, came: map<Tid, int>, now: int)
    requires Consistent(sys) && cur in sys.priority && l in sys.waiters
    requires InOrder(sys, came) && NotQueued(sys, {cur}) && forall u :: u in came ==> came[u] < now
    requires forall u :: u in sys.waiters[l] ==> u in sys.priority
    ensures InOrder(sys.(waiters := sys.waiters[l := Inserted(sys.priority, sys.waiters[l], cur)]), came[cur := now])
  {
    var came' := came[cur := now];
    forall k | k in sys.waiters
      ensures Ordered(sys.priority, came', sys.waiters[k])
    {
      assert QueueOk(sys, k);
      OrderedSame(sys.priority, sys.priority, came, came', sys.waiters[k]);
    }
    InsertedOrdered(sys.priority, came', sys.waiters[l], cur);
    hide Consistent, Inserted, Ordered;
  }

  lemma SameOrder(sys: Sys, sys': Sys, came: map<Tid, int>)
    requires sys'.waiters == sys.waiters && sys'.priority == sys.priority
    ensures InOrder(sys', came) == InOrder(sys, came)
  {}

  lemma WalksIs(sys: Sys, cur: Tid, l: Lock)
    requires cur in sys.priority
    ensures Walks(sys, cur, l) <==>
            l in sys.holder && sys.holder[l] in sys.priority && sys.priority[sys.holder[l]] < sys.priority[cur]
  {}

  lemma ReleasedInOrder(sys: Sys, cur: Tid, l: Lock, came: map<Tid, int>)
    requires cur in sys.locks && l in sys.locks[cur]
    ensures InOrder(Released(sys, cur, l), came) == InOrder(sys, came)
    ensures NotQueued(Released(sys, cur, l), {cur}) == NotQueued(sys, {cur})
  {}

  /** sema_up wakes the oldest of the highest, and keeps the queues ordered. */
  lemma PoppedInOrder(sys: Sys, l: Lock, rest: seq<Tid>, woken: int, cur: Tid, p: int, came: map<Tid, int>)
    requires Consistent(sys) && l in sys.waiters && (forall u :: u in sys.waiters[l] ==> u in sys.priority)
    requires Chosen(sys.priority, sys.waiters[l], rest, woken) && InOrder(sys, came)
    requires cur in sys.priority && NotQueued(sys, {cur})
    ensures InOrder(Raise(sys.(waiters := sys.waiters[l := rest]), cur, p), came)
    ensures Oldest(sys.priority, came, sys.waiters[l], woken)
  {
    var w := sys.waiters[l];
    assert Ordered(sys.priority, came, w);
    OldestWoken(sys.priority, came, w, rest, woken);
    forall k | k in sys.waiters
      ensures Ordered(sys.priority[cur := p], came, sys.waiters[l := rest][k])
    {
      assert Ordered(sys.priority, came, sys.waiters[k]);
      hide Consistent, Ordered, LastHighest, Chosen;
      OrderedSame(sys.priority, sys.priority[cur := p], came, came, sys.waiters[l := rest][k]);
    }
    hide Consistent, Ordered, LastHighest, Chosen, NotQueued;
  }

  lemma OldestWoken(priority: map<Tid, int>, came: map<Tid, int>, w: seq<Tid>, rest: seq<Tid>, woken: int)
    requires (forall u :: u in w ==> u in priority) && Ordered(priority, came, w) && Chosen(priority, w, rest, woken)
    ensures Oldest(priority, came, w, woken) && Ordered(priority, came, rest) && forall u :: u in rest ==> u in w
  {
    var m: nat :| LastHighest(priority, w, m) && w[m] == woken && rest == w[..m] + w[m + 1..];
    forall u | u in w && u != woken
      ensures priority[u] < priority[woken] || (priority[u] == priority[woken] && came[woken] < came[u])
    {
      var j :| 0 <= j < |w| && w[j] == u;
      OldestOfHighest(priority, came, w, m, j);
    }
    OrderedWithout(priority, came, w, m);
    hide Ordered, LastHighest;
  }

  lemma OrderedWithout(priority: map<Tid, int>, came: map<Tid, int>, w: seq<Tid>, m: nat)
    requires Ordered(priority, came, w) && m < |w|
    ensures Ordered(priority, came, w[..m] + w[m + 1..])
  {}

  /** Two threads queue in order, then a donation raises the first to the second's priority:
      sema_up now wakes the second, though the first, as high, came before it. */
  lemma RaisedOutOfOrder()
    ensures var w, came := Inserted(map[1 := 10, 2 := 20], [1], 2), map[1 := 1, 2 := 2];
            var before, after := map[1 := 10, 2 := 20], map[1 := 20, 2 := 20];
            Ordered(before, came, w) && !Ordered(after, came, w) &&
            LastHighest(after, w, 1) && w[1] == 2 && !Oldest(after, came, w, 2) && Oldest(after, came, w, 1)
  {
    var w := Inserted(map[1 := 10, 2 := 20], [1], 2);
    assert [1][1..] == [] && w == [1, 2];
    assert !Before(map[1 := 20, 2 := 20], map[1 := 1, 2 := 2], w[0], w[1]);
  }

  /** woken was the last of the highest of w, and rest is w without it. */
  ghost predicate Chosen(priority: map<Tid, int>, w: seq<Tid>, rest: seq<Tid>, woken: int)
    requires forall u :: u in w ==> u in priority
  {
    exists m: nat :: LastHighest(priority, w, m) && w[m] == woken && rest == w[..m] + w[m + 1..]
  }

  /** list_insert_ordered (w, t, cmp_prr2). */
  method InsertOrdered(priority: map<Tid, int>, w: seq<Tid>, t: Tid) returns (r: seq<Tid>)
    requires t in priority && forall u :: u in w ==> u in priority
    ensures r == Inserted(priority, w, t)
  {
    var e := 0;
    while e < |w| && priority[t] > priority[w[e]]
      invariant 0 <= e <= |w| && forall j :: 0 <= j < e ==> priority[t] > priority[w[j]]
    {
      e := e + 1;
    }
    r := w[..e] + [t] + w[e..];
    InsertedAt(priority, w, t, e);
  }

  /** The place where the newcomer goes: behind all lower threads, if they come first. */
  lemma {:induction false} InsertedAt(priority: map<Tid, int>, w: seq<Tid>, t: Tid, e: nat)
    requires t in priority && (forall u :: u in w ==> u in priority) && e <= |w|
    requires forall j :: 0 <= j < e ==> priority[t] > priority[w[j]]
    requires e < |w| ==> priority[t] <= priority[w[e]]
    ensures Inserted(priority, w, t) == w[..e] + [t] + w[e..]
    decreases e
  {
    if e > 0 {
      InsertedAt(priority, w[1..], t, e - 1);
      assert w[..e] == [w[0]] + w[1..][..e - 1];
      assert w[1..][e - 1..] == w[e..];
    }
  }

  /** list_max (w, cmp_prr2). */
  method ListMax(priority: map<Tid, int>, w: seq<Tid>) returns (max: nat)
    requires w != [] && forall u :: u in w ==> u in priority
    ensures LastHighest(priority, w, max)
  {
    max := 0;
    var e := 1;
    while e < |w|
      invariant max < e <= |w|
      invariant forall j :: 0 <= j < e ==> priority[w[j]] <= priority[w[max]]
      invariant forall j :: max < j < e ==> priority[w[j]] < priority[w[max]]
    {
      if priority[w[max]] <= priority[w[e]] {
        max := e;
      }
      e := e + 1;
    }
  }

  // ---------------------------------------------------------------- queueing and releasing

  /** The current thread queues for l, whose holder is at least as high. */
  lemma QueuedKeeps(sys: Sys, cur: Tid, l: Lock, w: seq<Tid>)
    requires Consistent(sys) && cur in sys.priority && MayQueue(sys, cur, l)
    requires l in sys.waiters && forall u :: u in w <==> u in sys.waiters[l] || u == cur
    ensures var sys' := sys.(waiters := sys.waiters[l := w]);
            Consistent(sys') && (Donated(sys') <==> Donated(sys) && !Above(sys', cur, l)) &&
            Above(sys', cur, l) == Above(sys, cur, l)
  {
    var sys' := sys.(waiters := sys.waiters[l := w]);
    forall t | t in sys'.priority
      ensures ThreadOk(sys', t)
    {
      assert ThreadOk(sys, t);
    }
    forall k | k in sys'.holder
      ensures HolderOk(sys', k)
    {
      assert HolderOk(sys, k);
    }
    forall k | k in sys'.waiters
      ensures QueueOk(sys', k)
    {
      if k in sys.waiters { assert QueueOk(sys, k); }
    }
    QueuedInverted(sys, cur, l, w);
  }

  lemma QueuedInverted(sys: Sys, cur: Tid, l: Lock, w: seq<Tid>)
    requires l in sys.waiters && (forall u :: u in w <==> u in sys.waiters[l] || u == cur)
    requires l in sys.holder ==> sys.holder[l] in sys.priority
    requires cur in sys.priority
    ensures var sys' := sys.(waiters := sys.waiters[l := w]);
            Donated(sys') <==> Donated(sys) && !Above(sys', cur, l)
  {
    var sys' := sys.(waiters := sys.waiters[l := w]);
    forall k, t
      ensures Inverted(sys', k, t) <==> Inverted(sys, k, t) || (k == l && t == cur && Above(sys, cur, l))
    {}
    if Above(sys, cur, l) { assert Inverted(sys', l, cur); }
    if !Donated(sys) {
      var k, t :| Inverted(sys, k, t);
      assert Inverted(sys', k, t);
    }
  }

  /** The list without its element l. */
  function Removed(list: seq<Lock>, l: Lock): seq<Lock>
    requires l in list
  {
    if list[0] == l then list[1..] else [list[0]] + Removed(list[1..], l)
  }

  lemma DistinctCons(k: nat, list: seq<nat>)
    requires Distinct(list) && k !in list
    ensures Distinct([k] + list)
  {}

  lemma {:induction false} RemovedIs(list: seq<Lock>, l: Lock)
    requires l in list && Distinct(list)
    ensures Distinct(Removed(list, l)) && forall k :: k in Removed(list, l) <==> k in list && k != l
  {
    assert list == [list[0]] + list[1..];
    if list[0] != l {
      RemovedIs(list[1..], l);
      DistinctCons(list[0], Removed(list[1..], l));
    }
  }

  /** The system after list_remove and lock->holder = NULL. */
  function Released(sys: Sys, cur: Tid, l: Lock): Sys
    requires cur in sys.locks && l in sys.locks[cur]
  {
    sys.(locks := sys.locks[cur := Removed(sys.locks[cur], l)], holder := sys.holder - {l})
  }

  lemma ReleasedKeeps(sys: Sys, cur: Tid, l: Lock)
    requires Consistent(sys) && cur in sys.priority && HeldBy(sys.holder, l, cur)
    ensures cur in sys.locks && l in sys.locks[cur]
    ensures Consistent(Released(sys, cur, l)) && (Donated(sys) ==> Donated(Released(sys, cur, l)))
  {
    assert HolderOk(sys, l);
    assert ThreadOk(sys, cur);
    RemovedIs(sys.locks[cur], l);
    var sys' := Released(sys, cur, l);
    forall t | t in sys'.priority
      ensures ThreadOk(sys', t)
    {
      assert ThreadOk(sys, t);
    }
    forall k | k in sys'.holder
      ensures HolderOk(sys', k)
    {
      assert HolderOk(sys, k);
    }
    forall k | k in sys'.waiters
      ensures QueueOk(sys', k)
    {
      if k in sys.waiters { assert QueueOk(sys, k); }
    }
    if Donated(sys) {
      forall k, t {:trigger Inverted(sys', k, t)}
        ensures !Inverted(sys', k, t)
      {
        assert !Inverted(sys, k, t);
      }
    }
  }

  /** A shorter queue for a lock without a holder. */
  lemma PoppedKeeps(sys: Sys, l: Lock, w: seq<Tid>)
    requires Consistent(sys) && l in sys.waiters && forall u :: u in w ==> u in sys.waiters[l]
    ensures Consistent(sys.(waiters := sys.waiters[l := w]))
    ensures Donated(sys) ==> Donated(sys.(waiters := sys.waiters[l := w]))
  {
    var sys' := sys.(waiters := sys.waiters[l := w]);
    forall t | t in sys'.priority
      ensures ThreadOk(sys', t)
    {
      assert ThreadOk(sys, t);
    }
    forall k | k in sys'.holder
      ensures HolderOk(sys', k)
    {
      assert HolderOk(sys, k);
    }
    forall k | k in sys'.waiters
      ensures QueueOk(sys', k)
    {
      if k in sys.waiters { assert QueueOk(sys, k); }
    }
    if Donated(sys) {
      forall k, t {:trigger Inverted(sys', k, t)}
        ensures !Inverted(sys', k, t)
      {
        assert !Inverted(sys, k, t);
      }
    }
  }

  /** Setting a thread that waits for nothing to its own top keeps everyone below his holder. */
  lemma ResetKeeps(sys: Sys, cur: Tid)
    requires Consistent(sys) && cur in sys.priority && cur !in sys.waiting
    ensures var sys' := Raise(sys, cur, Top(sys, cur));
            Consistent(sys') && (Donated(sys) ==> Donated(sys')) && Top(sys', cur) == Top(sys, cur)
  {
    var sys' := Raise(sys, cur, Top(sys, cur));
    RaiseConsistent(sys, cur, Top(sys, cur));
    if Donated(sys) {
      RaiseFirst(sys, cur, Top(sys, cur));
      ChainEnd(sys', cur);
    }
    assert ThreadOk(sys, cur);
    forall l | l in sys.locks[cur]
      ensures cur !in sys.waiters[l]
    {
      assert QueueOk(sys, l);
    }
    MaxOverSame(sys, sys.locks[cur], sys.orig[cur], cur, Top(sys, cur));
  }

  /** The system at the end of lock_acquire. */
  function Acquired(sys: Sys, cur: Tid, l: Lock): Sys
    requires cur in sys.locks
  {
    sys.(waiting := sys.waiting - {cur}, locks := sys.locks[cur := [l] + sys.locks[cur]],
    holder := sys.holder[l := cur])
  }

  lemma AcquiredThread(sys: Sys, cur: Tid, l: Lock, t: Tid)
    requires cur in sys.locks && l !in sys.holder && l in sys.waiters && t in sys.priority && ThreadOk(sys, t) &&
             ThreadOk(sys, cur)
    ensures ThreadOk(Acquired(sys, cur, l), t)
  {
    if t == cur { DistinctCons(l, sys.locks[cur]); }
    hide Distinct;
  }

  lemma AcquiredConsistent(sys: Sys, cur: Tid, l: Lock)
    requires Consistent(sys) && cur in sys.priority && l !in sys.holder && l in sys.waiters
    requires cur in sys.locks && cur !in sys.waiters[l] && cur in sys.waiting && sys.waiting[cur] == l
    ensures Consistent(Acquired(sys, cur, l))
  {
    var sys' := Acquired(sys, cur, l);
    assert ThreadOk(sys, cur);
    hide ThreadOk;
    forall t | t in sys'.priority
      ensures ThreadOk(sys', t)
    {
      AcquiredThread(sys, cur, l, t);
    }
    forall k | k in sys'.holder
      ensures HolderOk(sys', k)
    {
      if k != l { assert HolderOk(sys, k); }
    }
    forall k | k in sys'.waiters
      ensures QueueOk(sys', k)
    {
      assert QueueOk(sys, k);
    }
  }

  /** The lock gets a holder: nobody is above it exactly when no waiter is above this thread. */
  lemma AcquiredDonated(sys: Sys, cur: Tid, l: Lock)
    requires Consistent(sys) && cur in sys.priority && l !in sys.holder && l in sys.waiters && cur in sys.locks
    ensures Donated(Acquired(sys, cur, l)) <==>
            Donated(sys) && forall t :: t in sys.waiters[l] ==>
            t in sys.priority && sys.priority[t] <= sys.priority[cur]
  {
    var sys' := Acquired(sys, cur, l);
    assert QueueOk(sys, l);
    forall k, t {:trigger Inverted(sys', k, t)}
      ensures Inverted(sys', k, t) <==>
              Inverted(sys, k, t) || (k == l && t in sys.waiters[l] && sys.priority[t] > sys.priority[cur])
    {}
    if t :| t in sys.waiters[l] && sys.priority[t] > sys.priority[cur] {
      assert Inverted(sys', l, t);
    }
    if !Donated(sys) {
      var k, t :| Inverted(sys, k, t);
      assert Inverted(sys', k, t);
    }
  }
}
