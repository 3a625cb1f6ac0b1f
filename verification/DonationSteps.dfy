/** proj1's donation walk statement by statement: lock_acquire runs it with interrupts on,
    so other threads take their steps between its reads. */
module DonationSteps {
  import opened Donation

  /** Where lock_acquire's caller is: before the test for a holder, before one of the reads
      of lp->holder, past the walk, or stopped at a null holder. */
  datatype Walker =
    | Test(l: Lock)       // if (lock->holder != NULL)
    | Compare(l: Lock)    // if (lock->holder->priority < thread_current ()->priority)
    | Donate(l: Lock)     // lp->holder->priority = MAX (...)
    | Follow(l: Lock)     // while (lp = lp->holder->waiting)
    | Through
    | Crashed

  /** The next statement reads lp->holder->... . */
  predicate Reads(w: Walker) { w.Compare? || w.Donate? || w.Follow? }

  datatype Config = Config(sys: Sys, w: Walker)

  /** A moment at which the caller can take a step. */
  ghost predicate Ready(c: Config, cur: Tid) { Consistent(c.sys) && cur in c.sys.priority }

  /** The caller's next statement. */
  ghost function Own(c: Config, cur: Tid): Config
    requires Ready(c, cur)
  {
    var sys := c.sys;
    match c.w
    case Test(l) => c.(w := if l in sys.holder then Compare(l) else Through)
    case Compare(l) =>
      if l !in sys.holder then c.(w := Crashed)
      else if Walks(sys, cur, l) then c.(w := Donate(l)) else c.(w := Through)
    case Donate(l) =>
      if l !in sys.holder then c.(w := Crashed)
      else
        assert HolderOk(sys, l);
        Config(RaiseTop(sys, l, sys.priority[cur]), Follow(l))
    case Follow(l) =>
      if l !in sys.holder then c.(w := Crashed)
      else if sys.holder[l] in sys.waiting then c.(w := Donate(sys.waiting[sys.holder[l]])) else c.(w := Through)
    case _ => c
  }

  /** What other threads do, a statement or a critical section at a time.  A lock is taken
      when its holder is set, and free from lock->holder = NULL on. */
  datatype Act =
    | Ask(t: Tid, l: Lock)           // lock_acquire begins: t->waiting = l
    | Enqueue(t: Tid, l: Lock)       // sema_down finds the lock's semaphore taken
    | Take(t: Tid, l: Lock)          // lock_acquire ends
    | Release(t: Tid, l: Lock)       // lock_release up to lock->holder = NULL
    | Wake(l: Lock, m: nat)          // the lock's sema_up: list_max and list_remove
    | Signal(t: Tid)                 // a plain semaphore's sema_up, when it is t's turn
    | Priorities(p: map<Tid, int>)   // donations, sema_up's reset, thread_set_priority

  ghost predicate Can(sys: Sys, cur: Tid, a: Act) {
    match a
    case Ask(t, l) =>
      t != cur && t in sys.priority && t !in sys.waiting && NotQueued(sys, {t}) && l in sys.waiters &&
      l !in sys.plain &&
      !HeldBy(sys.holder, l, t)
    case Enqueue(t, l) =>
      t != cur && t in sys.priority && t in sys.waiting && sys.waiting[t] == l && NotQueued(sys, {t}) &&
      l in sys.waiters
    case Take(t, l) =>
      t != cur && t in sys.priority && t in sys.waiting && sys.waiting[t] == l && l !in sys.holder &&
      l in sys.waiters &&
      t !in sys.waiters[l]
    case Release(t, l) =>
      t != cur && t in sys.priority && t !in sys.waiting && NotQueued(sys, {t}) && HeldBy(sys.holder, l, t)
    case Wake(l, m) =>
      l in sys.waiters && l !in sys.holder && (forall u :: u in sys.waiters[l] ==> u in sys.priority) &&
      LastHighest(sys.priority, sys.waiters[l], m)
    case Signal(t) => t != cur && t !in sys.waiting
    case Priorities(p) => p.Keys == sys.priority.Keys
  }

  /** A queue without thread t. */
  function Without(w: seq<Tid>, t: Tid): (r: seq<Tid>)
    ensures forall u :: u in r <==> u in w && u != t
  {
    if w == [] then [] else
      assert w == [w[0]] + w[1..];
      (if w[0] == t then [] else [w[0]]) + Without(w[1..], t)
  }

  ghost function Do(sys: Sys, cur: Tid, a: Act): Sys
    requires Consistent(sys) && Can(sys, cur, a)
  {
    match a
    case Ask(t, l) => sys.(waiting := sys.waiting[t := l])
    case Enqueue(t, l) =>
      assert QueueOk(sys, l);
      sys.(waiters := sys.waiters[l := Inserted(sys.priority, sys.waiters[l], t)])
    case Take(t, l) =>
      assert ThreadOk(sys, t);
      Acquired(sys, t, l)
    case Release(t, l) =>
      assert HolderOk(sys, l);
      Released(sys, t, l)
    case Wake(l, m) => sys.(waiters := sys.waiters[l := sys.waiters[l][..m] + sys.waiters[l][m + 1..]])
    case Signal(t) =>
      sys.(waiters := map l | l in sys.waiters ::
             if l in sys.plain then Without(sys.waiters[l], t) else sys.waiters[l])
    case Priorities(p) => sys.(priority := p)
  }

  lemma DoConsistent(sys: Sys, cur: Tid, a: Act)
    requires Consistent(sys) && Can(sys, cur, a)
    ensures Consistent(Do(sys, cur, a)) && Do(sys, cur, a).priority.Keys == sys.priority.Keys
  {
    match a {
      case Ask(t, l) => WaitingSet(sys, t, l);
      case Enqueue(t, l) =>
        assert QueueOk(sys, l);
        assert ThreadOk(sys, t);
        QueuedKeeps(sys, t, l, Inserted(sys.priority, sys.waiters[l], t));
      case Take(t, l) =>
        assert ThreadOk(sys, t);
        AcquiredConsistent(sys, t, l);
      case Release(t, l) => ReleasedKeeps(sys, t, l);
      case Wake(l, m) => PoppedKeeps(sys, l, sys.waiters[l][..m] + sys.waiters[l][m + 1..]);
      case Signal(t) => SignalConsistent(sys, t);
      case Priorities(p) => PrioritiesConsistent(sys, p);
    }
  }

  lemma SignalConsistent(sys: Sys, t: Tid)
    requires Consistent(sys)
    ensures Consistent(sys.(waiters := map l | l in sys.waiters ::
                              if l in sys.plain then Without(sys.waiters[l], t) else sys.waiters[l]))
  {
    var sys' := sys.(waiters := map l | l in sys.waiters ::
                       if l in sys.plain then Without(sys.waiters[l], t) else sys.waiters[l]);
    forall u | u in sys'.priority
      ensures ThreadOk(sys', u)
    {
      assert ThreadOk(sys, u);
    }
    forall l | l in sys'.holder
      ensures HolderOk(sys', l)
    {
      assert HolderOk(sys, l);
    }
    forall l | l in sys'.waiters
      ensures QueueOk(sys', l)
    {
      assert QueueOk(sys, l);
    }
  }

  lemma PrioritiesConsistent(sys: Sys, p: map<Tid, int>)
    requires Consistent(sys) && p.Keys == sys.priority.Keys
    ensures Consistent(sys.(priority := p))
  {
    var sys' := sys.(priority := p);
    forall u | u in sys'.priority
      ensures ThreadOk(sys', u)
    {
      assert ThreadOk(sys, u);
    }
    forall l | l in sys'.holder
      ensures HolderOk(sys', l)
    {
      assert HolderOk(sys, l);
    }
    forall l | l in sys'.waiters
      ensures QueueOk(sys', l)
    {
      assert QueueOk(sys, l);
    }
  }

  /** Another thread took a step. */
  ghost predicate Other(a: Sys, b: Sys, cur: Tid) {
    Consistent(a) && exists act :: Can(a, cur, act) && b == Do(a, cur, act)
  }

  ghost predicate Others(a: Config, b: Config, cur: Tid) {
    b.w == a.w && Other(a.sys, b.sys, cur)
  }

  ghost predicate Step(a: Config, b: Config, cur: Tid) {
    Ready(a, cur) && (b == Own(a, cur) || Others(a, b, cur))
  }

  ghost predicate Run(run: seq<Config>, cur: Tid) {
    run != [] && (forall k :: 0 <= k < |run| ==> Ready(run[k], cur)) &&
    forall k :: 0 <= k < |run| - 1 ==> Step(run[k], run[k + 1], cur)
  }

  // ---------------------------------------------------------------- when it faults

  /** At moment k the caller reads lp->holder->... while lp has no holder. */
  ghost predicate FaultAt(run: seq<Config>, cur: Tid, k: int) {
    0 <= k < |run| - 1 && Ready(run[k], cur) && Reads(run[k].w) && run[k].w.l !in run[k].sys.holder &&
    run[k + 1] == Own(run[k], cur)
  }

  lemma {:induction false} StaysCrashed(run: seq<Config>, cur: Tid, k: nat)
    requires Run(run, cur) && k < |run| && run[k].w.Crashed?
    ensures run[|run| - 1].w.Crashed?
    decreases |run| - k
  {
    if k < |run| - 1 {
      assert Step(run[k], run[k + 1], cur);
      StaysCrashed(run, cur, k + 1);
    }
  }

  lemma {:induction false} FirstCrash(run: seq<Config>, cur: Tid, n: nat) returns (k: nat)
    requires Run(run, cur) && n < |run| && !run[0].w.Crashed? && run[n].w.Crashed?
    ensures FaultAt(run, cur, k)
  {
    if run[n - 1].w.Crashed? {
      k := FirstCrash(run, cur, n - 1);
    } else {
      assert Step(run[n - 1], run[n], cur);
      k := n - 1;
    }
  }

  /** Whatever the other threads do: the walk ends in a fault exactly if one of its reads
      comes while the lock has no holder. */
  lemma FaultsExactly(run: seq<Config>, cur: Tid)
    requires Run(run, cur) && !run[0].w.Crashed?
    ensures run[|run| - 1].w.Crashed? <==> exists k :: FaultAt(run, cur, k)
  {
    if run[|run| - 1].w.Crashed? {
      var k := FirstCrash(run, cur, |run| - 1);
    }
    if k :| FaultAt(run, cur, k) {
      StaysCrashed(run, cur, k + 1);
    }
  }

  // ---------------------------------------------------------------- when it cannot

  /** The locks of this chain have the holders they had, and those wait as they did. */
  ghost predicate Undisturbed(sys: Sys, now: Sys, chain: seq<Lock>) {
    forall l :: l in chain && l in sys.holder ==>
      l in now.holder && now.holder[l] == sys.holder[l] &&
      (sys.holder[l] in sys.waiting <==> sys.holder[l] in now.waiting) &&
      (sys.holder[l] in sys.waiting ==> now.waiting[sys.holder[l]] == sys.waiting[sys.holder[l]])
  }

  ghost predicate OnChain(w: Walker, chain: seq<Lock>) {
    !w.Crashed? && (!w.Through? ==> w.l in chain)
  }

  ghost predicate Steady(run: seq<Config>, sys: Sys, chain: seq<Lock>) {
    chain != [] && chain[|chain| - 1] in sys.holder && forall k :: 0 <= k < |run| ==>
    Undisturbed(sys, run[k].sys, chain)
  }

  /** As long as the chain keeps its holders and ends in a lock that has one, other threads
      may change anything else, priorities included, and the walk does not fault. */
  lemma {:induction false} SteadyChain(run: seq<Config>, cur: Tid, rank: Lock -> nat, l: Lock, n: nat)
    requires Run(run, cur) && n < |run| && run[0].w == Test(l)
    requires Acyclic(run[0].sys.holder, run[0].sys.waiting, rank)
    requires Steady(run, run[0].sys, Chain(run[0].sys.holder, run[0].sys.waiting, rank, l))
    ensures OnChain(run[n].w, Chain(run[0].sys.holder, run[0].sys.waiting, rank, l))
  {
    hide *;
    var sys := run[0].sys;
    var chain := Chain(sys.holder, sys.waiting, rank, l);
    FirstLock(sys, rank, l);
    if n > 0 {
      SteadyChain(run, cur, rank, l, n - 1);
      RunSteps(run, cur, sys, chain, n - 1);
      StepStays(run[n - 1], run[n], cur, sys, rank, l);
    }
  }

  lemma FirstLock(sys: Sys, rank: Lock -> nat, l: Lock)
    requires Acyclic(sys.holder, sys.waiting, rank)
    ensures OnChain(Test(l), Chain(sys.holder, sys.waiting, rank, l))
  {}

  lemma RunSteps(run: seq<Config>, cur: Tid, sys: Sys, chain: seq<Lock>, k: nat)
    requires Run(run, cur) && Steady(run, sys, chain) && k + 1 < |run|
    ensures Step(run[k], run[k + 1], cur) && Undisturbed(sys, run[k].sys, chain)
    ensures chain != [] && chain[|chain| - 1] in sys.holder
  {}

  lemma StepStays(a: Config, b: Config, cur: Tid, sys: Sys, rank: Lock -> nat, l: Lock)
    requires Step(a, b, cur) && Acyclic(sys.holder, sys.waiting, rank)
    requires var chain := Chain(sys.holder, sys.waiting, rank, l);
             Undisturbed(sys, a.sys, chain) && OnChain(a.w, chain) && chain[|chain| - 1] in sys.holder
    ensures OnChain(b.w, Chain(sys.holder, sys.waiting, rank, l))
  {
    hide Consistent, Chain, Acyclic, Undisturbed, Top, Walks;
    var chain := Chain(sys.holder, sys.waiting, rank, l);
    if b != a && b == Own(a, cur) && !a.w.Through? {
      var i :| 0 <= i < |chain| && chain[i] == a.w.l;
      ChainLinks(sys.holder, sys.waiting, rank, l, i);
      OwnStays(a, cur, sys, chain, i);
    }
  }

  lemma OwnStays(c: Config, cur: Tid, sys: Sys, chain: seq<Lock>, i: nat)
    requires Ready(c, cur) && Undisturbed(sys, c.sys, chain) && OnChain(c.w, chain) && !c.w.Through?
    requires i < |chain| && chain[i] == c.w.l && chain[|chain| - 1] in sys.holder
    requires if chain[i] in sys.holder && sys.holder[chain[i]] in sys.waiting
             then i + 1 < |chain| && chain[i + 1] == sys.waiting[sys.holder[chain[i]]]
             else i + 1 == |chain|
    ensures OnChain(Own(c, cur).w, chain)
  {
    assert chain[i] in sys.holder;
    hide Consistent, Top;
  }

  // ---------------------------------------------------------------- when it can

  /** Thread t waits for cur: cur holds a lock of the chain it waits in. */
  ghost predicate Behind(sys: Sys, rank: Lock -> nat, t: Tid, cur: Tid)
    requires Acyclic(sys.holder, sys.waiting, rank)
  {
    t in sys.waiting && cur in HoldersOf(sys.holder, Chain(sys.holder, sys.waiting, rank, sys.waiting[t]))
  }

  /** Steps of other threads only. */
  ghost predicate Path(p: seq<Sys>, cur: Tid) {
    p != [] && forall k :: 0 <= k < |p| - 1 ==> Other(p[k], p[k + 1], cur)
  }

  lemma Join(p: seq<Sys>, q: seq<Sys>, cur: Tid)
    requires Path(p, cur) && Path(q, cur) && p[|p| - 1] == q[0]
    ensures Path(p + q[1..], cur) && (p + q[1..])[0] == p[0] && (p + q[1..])[|p + q[1..]| - 1] == q[|q| - 1]
  {
    var r := p + q[1..];
    forall k | 0 <= k < |r| - 1
      ensures Other(r[k], r[k + 1], cur)
    {
      if k >= |p| - 1 { assert r[k] == q[k - |p| + 1] && r[k + 1] == q[k - |p| + 2]; }
    }
  }

  lemma OneStep(sys: Sys, cur: Tid, a: Act) returns (p: seq<Sys>)
    requires Consistent(sys) && Can(sys, cur, a)
    ensures Path(p, cur) && p == [sys, Do(sys, cur, a)]
  {
    p := [sys, Do(sys, cur, a)];
    assert Other(p[0], p[1], cur);
  }

  lemma {:induction false} PathReady(p: seq<Sys>, cur: Tid, n: nat)
    requires Path(p, cur) && n < |p| && Consistent(p[0])
    ensures Consistent(p[n]) && p[n].priority.Keys == p[0].priority.Keys
  {
    if n > 0 {
      PathReady(p, cur, n - 1);
      assert Other(p[n - 1], p[n], cur);
      var act :| Can(p[n - 1], cur, act) && p[n] == Do(p[n - 1], cur, act);
      DoConsistent(p[n - 1], cur, act);
    }
  }

  /** From a to b queues and waits only go away, holders change at ranks up to r only, and
      only threads that waited for such a lock have stopped waiting. */
  ghost predicate Keeps(a: Sys, b: Sys, rank: Lock -> nat, r: int, cur: Tid) {
    Consistent(b) && Acyclic(b.holder, b.waiting, rank) && b.priority == a.priority &&
    b.waiters.Keys == a.waiters.Keys && b.plain == a.plain &&
    (forall l, u :: l in b.waiters && u in b.waiters[l] ==> u in a.waiters[l]) &&
    (forall u :: u in b.waiting ==> u in a.waiting && b.waiting[u] == a.waiting[u]) &&
    (forall u :: u in a.waiting && (u == cur || rank(a.waiting[u]) > r) ==> u in b.waiting) &&
    forall l :: rank(l) > r ==> (l in a.holder <==> l in b.holder) && (l in a.holder ==> b.holder[l] == a.holder[l])
  }

  lemma KeepsNothing(a: Sys, rank: Lock -> nat, r: int, cur: Tid)
    requires Consistent(a) && Acyclic(a.holder, a.waiting, rank)
    ensures Keeps(a, a, rank, r, cur)
  {}

  lemma KeepsTwice(a: Sys, b: Sys, c: Sys, rank: Lock -> nat, r1: int, r2: int, r: int, cur: Tid)
    requires Keeps(a, b, rank, r1, cur) && Keeps(b, c, rank, r2, cur) && r1 <= r && r2 <= r
    ensures Keeps(a, c, rank, r, cur)
  {
    hide Consistent, Acyclic;
  }

  lemma KeepsQueued(a: Sys, b: Sys, rank: Lock -> nat, r: int, cur: Tid, t: Tid)
    requires Keeps(a, b, rank, r, cur) && NotQueued(a, {t})
    ensures NotQueued(b, {t})
  {
    hide Consistent, Acyclic;
  }

  // ---------------------------------------------------------------- a thread gets its lock

  lemma {:induction false} SomeHighest(priority: map<Tid, int>, w: seq<Tid>) returns (m: nat)
    requires w != [] && forall u :: u in w ==> u in priority
    ensures LastHighest(priority, w, m)
  {
    if |w| == 1 {
      m := 0;
    } else {
      var v := w[..|w| - 1];
      m := SomeHighest(priority, v);
      if priority[w[|w| - 1]] >= priority[w[m]] { m := |w| - 1; }
    }
  }

  /** u, just woken for lock k, takes it and releases it again: all that stays is that u no
      longer waits. */
  lemma TakesAndReleases(sys: Sys, cur: Tid, rank: Lock -> nat, u: Tid, k: Lock) returns (p: seq<Sys>)
    requires Consistent(sys) && Acyclic(sys.holder, sys.waiting, rank) && u != cur && u in sys.waiting &&
             sys.waiting[u] == k
    requires k !in sys.holder && k in sys.waiters && u !in sys.waiters[k]
    ensures |p| > 0 && Path(p, cur) && p[0] == sys && p[|p| - 1] == sys.(waiting := sys.waiting - {u})
    ensures Keeps(sys, p[|p| - 1], rank, rank(k), cur)
  {
    hide *;
    TakeFacts(sys, cur, u, k);
    TakeKeeps(sys, cur, rank, u, k);
    var z := Do(sys, cur, Take(u, k));
    KeepsParts(sys, z, rank, rank(k), cur);
    var take := OneStep(sys, cur, Take(u, k));
    var rel := ReleaseKeeps(z, cur, rank, u, k);
    Join(take, rel, cur);
    p := take + rel[1..];
    KeepsTwice(sys, z, rel[|rel| - 1], rank, rank(k), rank(k), rank(k), cur);
    ReleasedAgain(sys, cur, u, k);
  }

  /** The end of lock_acquire. */
  lemma TakeFacts(sys: Sys, cur: Tid, t: Tid, k: Lock)
    requires Consistent(sys) && t != cur && t in sys.waiting && sys.waiting[t] == k
    requires k !in sys.holder && k in sys.waiters && t !in sys.waiters[k]
    ensures t in sys.locks && Can(sys, cur, Take(t, k))
    ensures var z := Do(sys, cur, Take(t, k));
            z == Acquired(sys, t, k) && Consistent(z) && z.priority == sys.priority && z.waiters == sys.waiters &&
            t in z.priority && NotQueued(z, {t}) && t !in z.waiting && k in z.holder && HeldBy(z.holder, k, t) &&
            Can(z, cur, Release(t, k))
  {
    assert t in sys.priority && ThreadOk(sys, t);
    DoConsistent(sys, cur, Take(t, k));
    TakenIsFree(sys, t, k);
    hide Consistent;
  }

  lemma TakeKeeps(sys: Sys, cur: Tid, rank: Lock -> nat, t: Tid, k: Lock)
    requires Consistent(sys) && Acyclic(sys.holder, sys.waiting, rank) && t != cur && t in sys.waiting &&
             sys.waiting[t] == k
    requires k !in sys.holder && t in sys.locks && Consistent(Acquired(sys, t, k))
    ensures Keeps(sys, Acquired(sys, t, k), rank, rank(k), cur)
  {
    hide Consistent;
  }

  lemma TakenIsFree(sys: Sys, u: Tid, k: Lock)
    requires Consistent(sys) && u in sys.waiting && sys.waiting[u] == k && k in sys.waiters && u !in sys.waiters[k]
    requires u in sys.locks
    ensures NotQueued(Acquired(sys, u, k), {u})
  {
    forall l, t | l in sys.waiters && t in sys.waiters[l]
      ensures t != u
    {
      assert QueueOk(sys, l);
    }
  }

  lemma ReleasedAgain(sys: Sys, cur: Tid, u: Tid, k: Lock)
    requires u in sys.locks && k !in sys.holder
    requires var z := Acquired(sys, u, k); Consistent(z) && Can(z, cur, Release(u, k))
    ensures Do(Acquired(sys, u, k), cur, Release(u, k)) == sys.(waiting := sys.waiting - {u})
  {
    var z := Acquired(sys, u, k);
    assert z.locks[u] == [k] + sys.locks[u];
    assert Removed(z.locks[u], k) == sys.locks[u];
    assert z.locks[u := sys.locks[u]] == sys.locks;
    assert z.holder - {k} == sys.holder;
  }

  /** A thread that waits for a lock that nobody holds gets it, after whoever is woken for it
      before. */
  lemma {:induction false} TakeIt(sys: Sys, rank: Lock -> nat, t: Tid, k: Lock, cur: Tid) returns (p: seq<Sys>)
    requires Consistent(sys) && Acyclic(sys.holder, sys.waiting, rank) && t in sys.priority && t != cur
    requires t in sys.waiting && sys.waiting[t] == k && k !in sys.holder && k in sys.waiters && cur !in sys.waiters[k]
    ensures |p| > 0 && Path(p, cur) && p[0] == sys && Keeps(sys, p[|p| - 1], rank, rank(k), cur)
    ensures t !in p[|p| - 1].waiting && HeldBy(p[|p| - 1].holder, k, t)
    decreases |sys.waiters[k]|
  {
    hide *;
    QueueMembers(sys, k, t);
    if t !in sys.waiters[k] {
      TakeFacts(sys, cur, t, k);
      TakeKeeps(sys, cur, rank, t, k);
      p := OneStep(sys, cur, Take(t, k));
      return;
    }
    var m := SomeHighest(sys.priority, sys.waiters[k]);
    WakeFacts(sys, cur, k, m);
    WakeKeeps(sys, cur, rank, k, m);
    var wake := OneStep(sys, cur, Wake(k, m));
    var z, u := Do(sys, cur, Wake(k, m)), sys.waiters[k][m];
    if u == t || u in z.waiters[k] {
      var q := TakeIt(z, rank, t, k, cur);
      Join(wake, q, cur);
      p := wake + q[1..];
      KeepsTwice(sys, z, q[|q| - 1], rank, rank(k), rank(k), rank(k), cur);
    } else {
      var q1 := TakesAndReleases(z, cur, rank, u, k);
      KeepsParts(z, q1[|q1| - 1], rank, rank(k), cur);
      var q2 := TakeIt(q1[|q1| - 1], rank, t, k, cur);
      Join(q1, q2, cur);
      Join(wake, q1 + q2[1..], cur);
      p := wake + (q1 + q2[1..])[1..];
      KeepsTwice(z, q1[|q1| - 1], q2[|q2| - 1], rank, rank(k), rank(k), rank(k), cur);
      KeepsTwice(sys, z, q2[|q2| - 1], rank, rank(k), rank(k), rank(k), cur);
    }
  }

  lemma QueueMembers(sys: Sys, k: Lock, t: Tid)
    requires Consistent(sys) && k in sys.waiters && t in sys.priority && t in sys.waiting && sys.waiting[t] == k
    ensures forall u :: u in sys.waiters[k] ==> u in sys.priority && u in sys.waiting && sys.waiting[u] == k
  {
    assert QueueOk(sys, k) && ThreadOk(sys, t);
  }

  lemma WakeFacts(sys: Sys, cur: Tid, k: Lock, m: nat)
    requires k in sys.waiters && k !in sys.holder && (forall u :: u in sys.waiters[k] ==> u in sys.priority)
    requires LastHighest(sys.priority, sys.waiters[k], m)
    ensures m < |sys.waiters[k]| && Can(sys, cur, Wake(k, m))
  {}

  lemma WakeKeeps(sys: Sys, cur: Tid, rank: Lock -> nat, k: Lock, m: nat)
    requires Consistent(sys) && Acyclic(sys.holder, sys.waiting, rank) && Can(sys, cur, Wake(k, m))
    ensures var z := Do(sys, cur, Wake(k, m));
            Keeps(sys, z, rank, rank(k), cur) && |z.waiters[k]| == |sys.waiters[k]| - 1 && k in z.waiters &&
            (forall u :: u in z.waiters[k] ==> u in sys.waiters[k]) && z.priority == sys.priority &&
            Consistent(z) && z.waiting == sys.waiting && z.holder == sys.holder
  {
    DoConsistent(sys, cur, Wake(k, m));
    hide Consistent;
  }

  // ---------------------------------------------------------------- a thread gets going

  /** A thread that waits for no lock gets off the plain semaphores' queues. */
  lemma GetsGoing(sys: Sys, rank: Lock -> nat, t: Tid, cur: Tid, r: int) returns (p: seq<Sys>)
    requires Consistent(sys) && Acyclic(sys.holder, sys.waiting, rank) && t != cur && t !in sys.waiting
    ensures Path(p, cur) && p[0] == sys && Keeps(sys, p[|p| - 1], rank, r, cur)
    ensures p[|p| - 1].holder == sys.holder && p[|p| - 1].waiting == sys.waiting && NotQueued(p[|p| - 1], {t})
  {
    p := OneStep(sys, cur, Signal(t));
    DoConsistent(sys, cur, Signal(t));
    forall l | l in sys.waiters && l !in sys.plain
      ensures t !in sys.waiters[l]
    {
      assert QueueOk(sys, l);
    }
    hide Consistent;
  }

  lemma ReleaseKeeps(sys: Sys, cur: Tid, rank: Lock -> nat, g: Tid, k: Lock) returns (p: seq<Sys>)
    requires Consistent(sys) && Acyclic(sys.holder, sys.waiting, rank) && Can(sys, cur, Release(g, k))
    ensures Path(p, cur) && p[0] == sys && Keeps(sys, p[|p| - 1], rank, rank(k), cur)
    ensures p[|p| - 1] == Do(sys, cur, Release(g, k)) && |p| == 2
    ensures p[|p| - 1].holder == sys.holder - {k} && p[|p| - 1].waiting == sys.waiting &&
            p[|p| - 1].waiters == sys.waiters
  {
    p := OneStep(sys, cur, Release(g, k));
    DoConsistent(sys, cur, Release(g, k));
    hide Consistent;
  }

  /** The next thread of a chain that does not lead to cur. */
  lemma NotBehindNext(sys: Sys, rank: Lock -> nat, t: Tid, cur: Tid)
    requires Acyclic(sys.holder, sys.waiting, rank) && t in sys.waiting && !Behind(sys, rank, t, cur)
    requires sys.waiting[t] in sys.holder
    ensures sys.holder[sys.waiting[t]] != cur && !Behind(sys, rank, sys.holder[sys.waiting[t]], cur)
  {
    var k := sys.waiting[t];
    var g := sys.holder[k];
    assert k in Chain(sys.holder, sys.waiting, rank, k);
    if g in sys.waiting {
      HoldersCons(sys.holder, k, Chain(sys.holder, sys.waiting, rank, sys.waiting[g]));
    }
  }

  /** Where a thread stands: the rank of what it waits for. */
  ghost function Depth(sys: Sys, rank: Lock -> nat, t: Tid): int {
    if t in sys.waiting then rank(sys.waiting[t]) else -1
  }

  /** Whoever does not wait for cur can come to run, keeping the locks it holds. */
  lemma {:induction false} Unblock(sys: Sys, rank: Lock -> nat, t: Tid, cur: Tid) returns (p: seq<Sys>)
    requires Consistent(sys) && Acyclic(sys.holder, sys.waiting, rank) && t in sys.priority && t != cur
    requires NotQueued(sys, {cur}) && !Behind(sys, rank, t, cur)
    ensures Path(p, cur) && p[0] == sys && Keeps(sys, p[|p| - 1], rank, Depth(sys, rank, t), cur)
    ensures t !in p[|p| - 1].waiting && NotQueued(p[|p| - 1], {t})
    decreases Depth(sys, rank, t) + 1, 1
  {
    var r := Depth(sys, rank, t);
    if t !in sys.waiting {
      p := GetsGoing(sys, rank, t, cur, r);
      return;
    }
    var k := sys.waiting[t];
    var z;
    p, z := Vacate(sys, rank, t, cur);
    KeepsQueued(sys, z, rank, r, cur, cur);
    VacatedFacts(sys, z, rank, t, k, cur, r);
    var q := TakeIt(z, rank, t, k, cur);
    var z1 := q[|q| - 1];
    KeepsParts(z, z1, rank, rank(k), cur);
    var g := GetsGoing(z1, rank, t, cur, r);
    hide *;
    Join(p, q, cur);
    Join(p + q[1..], g, cur);
    KeepsTwice(sys, z, z1, rank, r, r, r, cur);
    KeepsTwice(sys, z1, g[|g| - 1], rank, r, r, r, cur);
    p := p + q[1..] + g[1..];
  }

  lemma KeepsParts(a: Sys, b: Sys, rank: Lock -> nat, r: int, cur: Tid)
    requires Keeps(a, b, rank, r, cur)
    ensures Consistent(b) && Acyclic(b.holder, b.waiting, rank) && b.priority == a.priority
  {}

  lemma VacatedFacts(sys: Sys, z: Sys, rank: Lock -> nat, t: Tid, k: Lock, cur: Tid, r: int)
    requires Consistent(sys) && Keeps(sys, z, rank, r, cur) && NotQueued(z, {cur})
    requires t in sys.priority && t in sys.waiting && sys.waiting[t] == k && t in z.waiting
    ensures Consistent(z) && Acyclic(z.holder, z.waiting, rank) && t in z.priority && z.waiting[t] == k
    ensures k in z.waiters && cur !in z.waiters[k]
  {
    assert ThreadOk(z, t);
  }

  /** The lock that t waits for loses its holder, if it has one. */
  lemma {:induction false} Vacate(sys: Sys, rank: Lock -> nat, t: Tid, cur: Tid) returns (p: seq<Sys>, z: Sys)
    requires Consistent(sys) && Acyclic(sys.holder, sys.waiting, rank) && t in sys.priority && t in sys.waiting
    requires NotQueued(sys, {cur}) && !Behind(sys, rank, t, cur)
    ensures Path(p, cur) && p[0] == sys && p[|p| - 1] == z && Keeps(sys, z, rank, rank(sys.waiting[t]), cur)
    ensures sys.waiting[t] !in z.holder && t in z.waiting
    decreases Depth(sys, rank, t) + 1, 0
  {
    var k := sys.waiting[t];
    if k !in sys.holder {
      p, z := [sys], sys;
      KeepsNothing(sys, rank, rank(k), cur);
      return;
    }
    var g := sys.holder[k];
    assert HolderOk(sys, k);
    NotBehindNext(sys, rank, t, cur);
    assert Depth(sys, rank, g) < rank(k);
    var q := Unblock(sys, rank, g, cur);
    var z1 := q[|q| - 1];
    StillHeld(sys, z1, rank, Depth(sys, rank, g), cur, t, k, g);
    var rel := ReleaseKeeps(z1, cur, rank, g, k);
    z := rel[|rel| - 1];
    KeepsTwice(sys, z1, z, rank, Depth(sys, rank, g), rank(k), rank(k), cur);
    Join(q, rel, cur);
    p := q + rel[1..];
    hide Consistent, Keeps, Acyclic;
  }

  lemma StillHeld(sys: Sys, z: Sys, rank: Lock -> nat, r: int, cur: Tid, t: Tid, k: Lock, g: Tid)
    requires Keeps(sys, z, rank, r, cur) && r < rank(k) && t in sys.waiting && sys.waiting[t] == k
    requires k in sys.holder && sys.holder[k] == g && g in sys.priority && g != cur && g !in z.waiting &&
             NotQueued(z, {g})
    ensures Consistent(z) && Acyclic(z.holder, z.waiting, rank) && Can(z, cur, Release(g, k)) && t in z.waiting
  {
    hide Consistent, Acyclic;
  }

  // ---------------------------------------------------------------- runs that end in a fault

  function Lift(p: seq<Sys>, w: Walker): (r: seq<Config>)
    ensures |r| == |p| && forall k :: 0 <= k < |p| ==> r[k] == Config(p[k], w)
  {
    seq(|p|, k requires 0 <= k < |p| => Config(p[k], w))
  }

  lemma LiftRun(p: seq<Sys>, w: Walker, cur: Tid)
    requires Path(p, cur) && Consistent(p[0]) && cur in p[0].priority
    ensures Run(Lift(p, w), cur)
  {
    var run := Lift(p, w);
    forall k | 0 <= k < |run|
      ensures Ready(run[k], cur)
    {
      PathReady(p, cur, k);
    }
    forall k | 0 <= k < |run| - 1
      ensures Step(run[k], run[k + 1], cur)
    {
      assert Other(p[k], p[k + 1], cur);
    }
  }

  lemma JoinRuns(a: seq<Config>, b: seq<Config>, cur: Tid)
    requires Run(a, cur) && Run(b, cur) && Step(a[|a| - 1], b[0], cur)
    ensures Run(a + b, cur)
  {
    var r := a + b;
    forall k | 0 <= k < |r| - 1
      ensures Step(r[k], r[k + 1], cur)
    {
      if k >= |a| { assert r[k] == b[k - |a|] && r[k + 1] == b[k - |a| + 1]; }
    }
  }

  lemma {:induction false} RankInChain(holder: map<Lock, Tid>, waiting: map<Tid, Lock>, rank: Lock -> nat, l: Lock,
                                       x: Lock)
    requires Acyclic(holder, waiting, rank) && x in Chain(holder, waiting, rank, l)
    ensures rank(x) <= rank(l)
    decreases rank(l)
  {
    if l in holder && holder[l] in waiting && x != l {
      RankInChain(holder, waiting, rank, waiting[holder[l]], x);
    }
  }

  /** The holder of the lock that cur waits for does not wait for cur. */
  lemma HolderNotBehind(sys: Sys, rank: Lock -> nat, cur: Tid, l: Lock)
    requires Acyclic(sys.holder, sys.waiting, rank) && cur in sys.waiting && sys.waiting[cur] == l && l in sys.holder
    ensures sys.holder[l] != cur && !Behind(sys, rank, sys.holder[l], cur)
  {
    var h := sys.holder[l];
    if h in sys.waiting {
      var chain := Chain(sys.holder, sys.waiting, rank, sys.waiting[h]);
      forall x | x in chain && x in sys.holder
        ensures sys.holder[x] != cur
      {
        RankInChain(sys.holder, sys.waiting, rank, sys.waiting[h], x);
      }
    }
  }

  /** The read of a holder that has just gone. */
  lemma LastSteps(z: Sys, cur: Tid, h: Tid, l: Lock) returns (run: seq<Config>)
    requires Consistent(z) && cur in z.priority && Can(z, cur, Release(h, l))
    ensures |run| > 0 && Run(run, cur) && run[0] == Config(Do(z, cur, Release(h, l)), Compare(l)) &&
            run[|run| - 1].w.Crashed?
    ensures Step(Config(z, Compare(l)), run[0], cur)
  {
    var gone := Do(z, cur, Release(h, l));
    DoConsistent(z, cur, Release(h, l));
    assert Other(z, gone, cur);
    run := [Config(gone, Compare(l)), Config(gone, Crashed)];
    hide Consistent, Can, Do;
    assert Step(run[0], run[1], cur);
  }

  /** cur has seen that the lock has a holder; the holder gets going, releases the lock, and
      cur reads its priority. */
  lemma CrashFromHeld(sys: Sys, rank: Lock -> nat, cur: Tid, l: Lock) returns (run: seq<Config>)
    requires Consistent(sys) && Acyclic(sys.holder, sys.waiting, rank) && NotQueued(sys, {cur})
    requires cur in sys.priority && cur in sys.waiting && sys.waiting[cur] == l && l in sys.holder
    ensures Run(run, cur) && run[0] == Config(sys, Test(l)) && run[|run| - 1].w.Crashed?
  {
    var h := sys.holder[l];
    assert HolderOk(sys, l);
    HolderNotBehind(sys, rank, cur, l);
    var p := Unblock(sys, rank, h, cur);
    var z := p[|p| - 1];
    StillHeld(sys, z, rank, Depth(sys, rank, h), cur, cur, l, h);
    KeepsParts(sys, z, rank, Depth(sys, rank, h), cur);
    var last := LastSteps(z, cur, h, l);
    LiftRun(p, Compare(l), cur);
    var first := [Config(sys, Test(l))];
    TestStep(sys, cur, l);
    hide *;
    JoinRuns(first, Lift(p, Compare(l)), cur);
    JoinRuns(first + Lift(p, Compare(l)), last, cur);
    run := first + Lift(p, Compare(l)) + last;
  }

  lemma TestStep(sys: Sys, cur: Tid, l: Lock)
    requires Consistent(sys) && cur in sys.priority && l in sys.holder
    ensures Run([Config(sys, Test(l))], cur) && Step(Config(sys, Test(l)), Config(sys, Compare(l)), cur)
  {}

  /** Nobody holds the lock yet: t gets going and takes it. */
  lemma CrashFromFree(sys: Sys, rank: Lock -> nat, cur: Tid, l: Lock, t: Tid) returns (run: seq<Config>)
    requires Consistent(sys) && Acyclic(sys.holder, sys.waiting, rank) && NotQueued(sys, {cur})
    requires cur in sys.priority && cur in sys.waiting && sys.waiting[cur] == l && l !in sys.holder
    requires t in sys.priority && t != cur && !Behind(sys, rank, t, cur)
    ensures Run(run, cur) && run[0] == Config(sys, Test(l)) && run[|run| - 1].w.Crashed?
  {
    var p := Unblock(sys, rank, t, cur);
    var z, r := p[|p| - 1], Depth(sys, rank, t);
    KeepsParts(sys, z, rank, r, cur);
    KeepsQueued(sys, z, rank, r, cur, cur);
    StillWaits(sys, z, rank, r, cur);
    LiftRun(p, Test(l), cur);
    if l in z.holder {
      var rest := CrashFromHeld(z, rank, cur, l);
      hide *;
      RunTail(Lift(p, Test(l)), rest, cur);
      run := Lift(p, Test(l)) + rest[1..];
    } else {
      var rest := TakeAndCrash(z, cur, l, t);
      hide *;
      JoinRuns(Lift(p, Test(l)), rest, cur);
      run := Lift(p, Test(l)) + rest;
    }
  }

  lemma StillWaits(a: Sys, b: Sys, rank: Lock -> nat, r: int, cur: Tid)
    requires Keeps(a, b, rank, r, cur) && cur in a.waiting
    ensures cur in b.waiting && b.waiting[cur] == a.waiting[cur]
  {}

  lemma RunTail(a: seq<Config>, b: seq<Config>, cur: Tid)
    requires Run(a, cur) && Run(b, cur) && a[|a| - 1] == b[0] && |b| > 1
    ensures Run(a + b[1..], cur)
  {
    forall k | 0 <= k < |b| - 2
      ensures Step(b[1..][k], b[1..][k + 1], cur)
    {
      assert b[1..][k] == b[k + 1] && b[1..][k + 1] == b[k + 2];
    }
    assert Step(b[0], b[1], cur);
    JoinRuns(a, b[1..], cur);
  }

  lemma TakeAndCrash(z: Sys, cur: Tid, l: Lock, t: Tid) returns (run: seq<Config>)
    requires Consistent(z) && cur in z.priority && cur in z.waiting && z.waiting[cur] == l && l !in z.holder
    requires t in z.priority && t != cur && t !in z.waiting && NotQueued(z, {t})
    ensures Run(run, cur) && Step(Config(z, Test(l)), run[0], cur) && run[|run| - 1].w.Crashed?
  {
    hide *;
    AskFacts(z, cur, t, l);
    var z1 := Do(z, cur, Ask(t, l));
    TakeFacts(z1, cur, t, l);
    var z2 := Do(z1, cur, Take(t, l));
    var last := LastSteps(z2, cur, t, l);
    ThreeSteps(z, z1, z2, cur, l, Ask(t, l), Take(t, l));
    var mid := [Config(z1, Test(l)), Config(z2, Test(l)), Config(z2, Compare(l))];
    JoinRuns(mid, last, cur);
    run := mid + last;
  }

  lemma AskFacts(z: Sys, cur: Tid, t: Tid, l: Lock)
    requires Consistent(z) && cur in z.priority && cur in z.waiting && z.waiting[cur] == l && l !in z.holder
    requires t in z.priority && t != cur && t !in z.waiting && NotQueued(z, {t})
    ensures Can(z, cur, Ask(t, l))
    ensures var z1 := Do(z, cur, Ask(t, l));
            Consistent(z1) && z1 == z.(waiting := z.waiting[t := l]) && l in z1.waiters && t !in z1.waiters[l]
  {
    assert ThreadOk(z, cur);
    DoConsistent(z, cur, Ask(t, l));
    hide Consistent;
  }

  lemma ThreeSteps(z: Sys, z1: Sys, z2: Sys, cur: Tid, l: Lock, a: Act, b: Act)
    requires Consistent(z) && Can(z, cur, a) && z1 == Do(z, cur, a) && Consistent(z1) && Can(z1, cur, b) &&
             z2 == Do(z1, cur, b)
    requires Consistent(z2) && cur in z.priority && cur in z1.priority && cur in z2.priority && l in z2.holder
    ensures Step(Config(z, Test(l)), Config(z1, Test(l)), cur)
    ensures Run([Config(z1, Test(l)), Config(z2, Test(l)), Config(z2, Compare(l))], cur)
  {
    hide Consistent, Can, Do;
    assert Other(z, z1, cur) && Other(z1, z2, cur);
    assert Step(Config(z1, Test(l)), Config(z2, Test(l)), cur);
    assert Step(Config(z2, Test(l)), Config(z2, Compare(l)), cur);
  }

  // ---------------------------------------------------------------- when nobody else can do anything

  /** Everyone else waits for the caller. */
  ghost predicate AllBehind(sys: Sys, rank: Lock -> nat, cur: Tid)
    requires Acyclic(sys.holder, sys.waiting, rank)
  {
    forall t :: t in sys.priority && t != cur ==> Behind(sys, rank, t, cur)
  }

  /** Then no lock changes hands. */
  lemma NothingMoves(sys: Sys, rank: Lock -> nat, cur: Tid, a: Act)
    requires Consistent(sys) && Acyclic(sys.holder, sys.waiting, rank) && AllBehind(sys, rank, cur) && Can(sys, cur, a)
    ensures Do(sys, cur, a).holder == sys.holder && Do(sys, cur, a).waiting == sys.waiting
    ensures Do(sys, cur, a).priority.Keys == sys.priority.Keys
  {
    if a.Take? { BehindHeld(sys, rank, a.t, cur); }
    hide Consistent;
  }

  lemma BehindHeld(sys: Sys, rank: Lock -> nat, t: Tid, cur: Tid)
    requires Acyclic(sys.holder, sys.waiting, rank) && (t in sys.priority && t != cur && AllBehind(sys, rank, cur))
    ensures t in sys.waiting && sys.waiting[t] in sys.holder
  {
    assert Behind(sys, rank, t, cur);
  }

  lemma {:induction false} NoCrash(run: seq<Config>, cur: Tid, rank: Lock -> nat, l: Lock, n: nat)
    requires Run(run, cur) && n < |run| && run[0].w == Test(l) && l !in run[0].sys.holder
    requires Acyclic(run[0].sys.holder, run[0].sys.waiting, rank) && AllBehind(run[0].sys, rank, cur)
    ensures run[n].sys.holder == run[0].sys.holder && run[n].sys.waiting == run[0].sys.waiting
    ensures run[n].sys.priority.Keys == run[0].sys.priority.Keys && (run[n].w == Test(l) || run[n].w == Through)
  {
    if n > 0 {
      NoCrash(run, cur, rank, l, n - 1);
      var a, b := run[n - 1], run[n];
      assert Step(a, b, cur);
      if b != Own(a, cur) {
        var act :| Can(a.sys, cur, act) && b.sys == Do(a.sys, cur, act);
        assert AllBehind(a.sys, rank, cur);
        NothingMoves(a.sys, rank, cur, act);
      }
      hide Consistent, Can, Do;
    }
  }

  /** Some run of lock_acquire's walk from this state ends in a fault. */
  ghost predicate CanFault(sys: Sys, cur: Tid, l: Lock) {
    exists run: seq<Config> :: Run(run, cur) && run[0] == Config(sys, Test(l)) && run[|run| - 1].w.Crashed?
  }

  /** Exactly when a thread that calls lock_acquire may fault: there is another thread that
      does not wait, directly or not, for a lock that the caller holds. */
  lemma MayFault(sys: Sys, rank: Lock -> nat, cur: Tid, l: Lock)
    requires Consistent(sys) && Acyclic(sys.holder, sys.waiting, rank) && NotQueued(sys, {cur})
    requires cur in sys.priority && cur in sys.waiting && sys.waiting[cur] == l
    ensures CanFault(sys, cur, l) <==> exists t :: t in sys.priority && t != cur && !Behind(sys, rank, t, cur)
  {
    if l in sys.holder {
      assert HolderOk(sys, l);
      HolderNotBehind(sys, rank, cur, l);
      var run := CrashFromHeld(sys, rank, cur, l);
    } else if t :| t in sys.priority && t != cur && !Behind(sys, rank, t, cur) {
      var run := CrashFromFree(sys, rank, cur, l, t);
    } else {
      assert AllBehind(sys, rank, cur);
      forall run: seq<Config> | Run(run, cur) && run[0] == Config(sys, Test(l))
        ensures !run[|run| - 1].w.Crashed?
      {
        NoCrash(run, cur, rank, l, |run| - 1);
      }
    }
    hide Consistent;
  }

  // ---------------------------------------------------------------- undisturbed by others

  /** n statements of the caller with no other thread in between. */
  ghost function Alone(c: Config, cur: Tid, n: nat): (r: Config)
    requires Ready(c, cur)
    ensures Ready(r, cur)
    decreases n
  {
    if n == 0 then c
    else
      OwnReady(c, cur);
      Alone(Own(c, cur), cur, n - 1)
  }

  lemma OwnReady(c: Config, cur: Tid)
    requires Ready(c, cur)
    ensures Ready(Own(c, cur), cur)
  {
    if c.w.Donate? && c.w.l in c.sys.holder {
      assert HolderOk(c.sys, c.w.l);
      var h := c.sys.holder[c.w.l];
      RaiseConsistent(c.sys, h, Max(c.sys.priority[cur], Top(c.sys, h)));
    }
  }

  /** Where the caller is after a walk with this outcome. */
  ghost predicate Ended(c: Config, r: Outcome) {
    match r
    case Fault => c.w.Crashed?
    case Done(sys) => c == Config(sys, Through)
  }

  /** From the loop's head the statements do what Walked says. */
  lemma {:induction false} LoopAlone(sys: Sys, rank: Lock -> nat, lp: Lock, c: int, cur: Tid, lock: Lock)
                                     returns (n: nat)
    requires Consistent(sys) && Acyclic(sys.holder, sys.waiting, rank) && lp in sys.holder
    requires cur in sys.waiting && sys.waiting[cur] == lock && rank(lp) <= rank(lock) && cur in sys.priority &&
             sys.priority[cur] == c
    ensures Ended(Alone(Config(sys, Follow(lp)), cur, n), Walked(sys, rank, lp, c))
    decreases rank(lp)
  {
    hide Consistent, Acyclic, Top, Walked;
    var at := Config(sys, Follow(lp));
    if sys.holder[lp] !in sys.waiting {
      WalkStops(sys, rank, lp, c);
      n := 1;
      assert Alone(at, cur, 1) == Alone(Own(at, cur), cur, 0);
      return;
    }
    WalkStep(sys, rank, lp, c, cur, lock);
    var next := sys.waiting[sys.holder[lp]];
    var there := Config(sys, Donate(next));
    assert Own(at, cur) == there;
    if next in sys.holder {
      var m := LoopAlone(RaiseTop(sys, next, c), rank, next, c, cur, lock);
      OwnReady(there, cur);
      assert Own(there, cur) == Config(RaiseTop(sys, next, c), Follow(next));
      n := m + 2;
      AloneTwice(at, cur, m);
    } else {
      assert Own(there, cur) == Config(sys, Crashed);
      n := 2;
      AloneTwice(at, cur, 0);
    }
  }

  lemma AloneTwice(c: Config, cur: Tid, m: nat)
    requires Ready(c, cur)
    ensures Ready(Own(c, cur), cur) && Ready(Own(Own(c, cur), cur), cur)
    ensures Alone(c, cur, m + 2) == Alone(Own(Own(c, cur), cur), cur, m)
  {
    OwnReady(c, cur);
    OwnReady(Own(c, cur), cur);
    assert Alone(c, cur, m + 2) == Alone(Own(c, cur), cur, m + 1);
  }

  /** Run without interruption, the statements do what the contract of lock_acquire says:
      a fault exactly if a donation is due and the last lock of the chain is not held, and
      otherwise no waiter above its lock's holder. */
  lemma WalkAlone(sys: Sys, rank: Lock -> nat, lock: Lock, cur: Tid) returns (n: nat)
    requires Consistent(sys) && Acyclic(sys.holder, sys.waiting, rank)
    requires cur in sys.priority && cur in sys.waiting && sys.waiting[cur] == lock && !HeldBy(sys.holder, lock, cur)
    ensures var r, chain := Alone(Config(sys, Test(lock)), cur, n), Chain(sys.holder, sys.waiting, rank, lock);
            if Walks(sys, cur, lock) then
              if chain[|chain| - 1] in sys.holder
              then r.w.Through? && Balanced(sys, r.sys, HoldersOf(sys.holder, chain), sys.priority[cur], Donated(sys))
              else r.w.Crashed?
            else r == Config(sys, Through)
  {
    hide *;
    var c := sys.priority[cur];
    n := 1;
    FirstAlone(sys, cur, lock);
    if lock in sys.holder && Walks(sys, cur, lock) {
      WalkFromTop(sys, rank, lock, c, Donated(sys));
      FirstRaise(sys, cur, lock, rank);
      var m := LoopAlone(RaiseTop(sys, lock, c), rank, lock, c, cur, lock);
      StartsAlone(sys, cur, lock, m);
      EndedIs(Alone(Config(RaiseTop(sys, lock, c), Follow(lock)), cur, m),
          Walked(RaiseTop(sys, lock, c), rank, lock, c));
      n := m + 3;
    } else if lock in sys.holder {
      n := 2;
    }
  }

  lemma EndedIs(c: Config, r: Outcome)
    requires Ended(c, r)
    ensures if r.Fault? then c.w.Crashed? else c == Config(r.sys, Through)
  {}

  lemma FirstAlone(sys: Sys, cur: Tid, lock: Lock)
    requires Consistent(sys) && cur in sys.priority
    ensures Ready(Config(sys, Test(lock)), cur)
    ensures lock !in sys.holder ==>
            !Walks(sys, cur, lock) && Alone(Config(sys, Test(lock)), cur, 1) == Config(sys, Through)
    ensures lock in sys.holder && !Walks(sys, cur, lock) ==>
            Alone(Config(sys, Test(lock)), cur, 2) == Config(sys, Through)
  {
    var at := Config(sys, Test(lock));
    hide Consistent;
    AloneTwice(at, cur, 0);
    assert Alone(at, cur, 1) == Alone(Own(at, cur), cur, 0);
  }

  lemma FirstRaise(sys: Sys, cur: Tid, lock: Lock, rank: Lock -> nat)
    requires Consistent(sys) && cur in sys.priority && lock in sys.holder && sys.holder[lock] in sys.priority
    requires !HeldBy(sys.holder, lock, cur)
    ensures var first := RaiseTop(sys, lock, sys.priority[cur]);
            first.waiting == sys.waiting && cur in first.priority && first.priority[cur] == sys.priority[cur]
  {}

  lemma StartsAlone(sys: Sys, cur: Tid, lock: Lock, m: nat)
    requires Consistent(sys) && cur in sys.priority && lock in sys.holder && sys.holder[lock] in sys.priority &&
             Walks(sys, cur, lock)
    ensures var first := RaiseTop(sys, lock, sys.priority[cur]);
            Ready(Config(first, Follow(lock)), cur) &&
            Alone(Config(sys, Test(lock)), cur, m + 3) == Alone(Config(first, Follow(lock)), cur, m)
  {
    var at, due := Config(sys, Test(lock)), Config(sys, Donate(lock));
    OwnReady(due, cur);
    hide Consistent, Top;
    AloneTwice(at, cur, m + 1);
    assert Own(Own(at, cur), cur) == due;
    assert Alone(due, cur, m + 1) == Alone(Own(due, cur), cur, m);
  }

  // ---------------------------------------------------------------- inputs that fail

  /** Thread 3 donates to thread 2, which waits for lock 2 while that is handed over. */
  function HandOver(): Sys {
    Sys(map[2 := 10, 3 := 20], map[2 := 10, 3 := 20], map[2 := 2, 3 := 1], map[2 := [1], 3 := []],
        map[1 := 2], map[1 := [], 2 := []], {})
  }

  /** Even without interruption the walk faults there. */
  lemma FaultInput() returns (n: nat)
    ensures Ready(Config(HandOver(), Test(1)), 3) && Donated(HandOver())
    ensures Alone(Config(HandOver(), Test(1)), 3, n).w.Crashed?
  {
    var sys := HandOver();
    assert ThreadOk(sys, 2) && ThreadOk(sys, 3) && HolderOk(sys, 1) && QueueOk(sys, 1) && QueueOk(sys, 2);
    var rank: Lock -> nat := l => if l == 1 then 1 else 0;
    assert Chain(sys.holder, sys.waiting, rank, 2) == [2];
    assert Chain(sys.holder, sys.waiting, rank, 1) == [1] + [2];
    n := WalkAlone(sys, rank, 1, 3);
    hide Alone, Balanced;
  }

  /** Thread 2 takes lock 1 while thread 3, with a higher priority, is queued for it. */
  lemma UnraisedHolder()
    ensures var sys := Sys(map[2 := 10, 3 := 20], map[2 := 10, 3 := 20], map[2 := 1, 3 := 1], map[2 := [], 3 := []],
                           map[], map[1 := [3]], {});
            Consistent(sys) && Donated(sys) && 1 !in sys.holder && 2 !in sys.waiters[1] && sys.waiting[2] == 1 &&
            !Donated(Acquired(sys, 2, 1))
  {
    var sys := Sys(map[2 := 10, 3 := 20], map[2 := 10, 3 := 20], map[2 := 1, 3 := 1], map[2 := [], 3 := []],
                   map[], map[1 := [3]], {});
    assert ThreadOk(sys, 2) && ThreadOk(sys, 3) && QueueOk(sys, 1);
    assert Inverted(Acquired(sys, 2, 1), 1, 3);
  }
}
