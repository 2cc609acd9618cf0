/** What every step of the process table keeps, and what holds in every reachable table. */
module ProcSafety {
  import opened Options
  import opened ProcMachine

  predicate Alive(m: Mode) {
    m == SLEEPING || m == RUNNABLE || m == RUNNING
  }

  /** Asleep in wait. */
  predicate Asleep(t: Table, p: nat) {
    p < |t| && t[p].mode == SLEEPING && t[p].chan == Entry(p)
  }

  predicate ChildOf(t: Table, j: nat, p: nat) {
    j < |t| && t[j].parent == Some(p)
  }

  // ---- The invariant ----

  /** Pids are below nextpid, entries in use have one, and no two entries share one. */
  ghost predicate Pids(t: Table, nextpid: nat) {
    && (forall i :: 0 <= i < |t| ==> t[i].pid < nextpid && (t[i].mode != UNUSED ==> t[i].pid > 0))
    && (forall i, j :: 0 <= i < |t| && 0 <= j < |t| && i != j && t[i].pid == t[j].pid ==> t[i].pid == 0)
  }

  /** The parent of an entry is alive and older. */
  predicate ParentOk(t: Table, i: nat)
    requires i < |t|
  {
    t[i].parent.Some? ==>
      var q := t[i].parent.value;
      && q < |t| && Alive(t[q].mode) && t[q].pid < t[i].pid && t[i].mode != UNUSED
      && (t[i].mode == EMBRYO ==> t[q].code == Forking(i, true))
  }

  ghost predicate Parents(t: Table, init: nat) {
    && init < |t| && Alive(t[init].mode) && t[init].pid == 1 && t[init].parent == None
    && (forall i :: 0 <= i < |t| ==> ParentOk(t, i))
    && (forall i :: 0 <= i < |t| && i != init && t[i].mode != UNUSED && t[i].mode != EMBRYO ==> t[i].parent.Some?)
  }

  /** A process in fork owns the new entry. */
  predicate ForkOk(t: Table, q: nat)
    requires q < |t|
  {
    t[q].code.Forking? ==>
      var np := t[q].code.np;
      && (t[q].mode == RUNNABLE || t[q].mode == RUNNING)
      && np < |t| && t[np].mode == EMBRYO && t[q].pid < t[np].pid && t[np].code == User
      && t[np].parent == (if t[q].code.linked then Some(q) else None)
  }

  ghost predicate Forks(t: Table) {
    && (forall q :: 0 <= q < |t| ==> ForkOk(t, q))
    && (forall q, r :: 0 <= q < |t| && 0 <= r < |t| && q != r && t[q].code.Forking? && t[r].code.Forking? ==>
         t[q].code.np != t[r].code.np)
  }

  /** Where a process sleeps fits with where it is in the kernel. */
  predicate SleepOk(t: Table, lock: Lock, p: nat)
    requires p < |t|
  {
    && (t[p].chan.Entry? ==> t[p].chan.p == p && Alive(t[p].mode) && t[p].code == Waiting)
    && (t[p].mode == SLEEPING && !t[p].chan.Entry? ==> t[p].code == User)
    && (t[p].code == Waiting ==>
         t[p].mode == SLEEPING || t[p].mode == RUNNABLE || (t[p].mode == RUNNING && lock.Wait? && lock.p == p))
  }

  /** A process asleep in wait has a child and no zombie among its children. */
  ghost predicate WaitOk(t: Table, p: nat) {
    Asleep(t, p) ==> (exists j: nat :: ChildOf(t, j, p)) && forall j: nat :: ChildOf(t, j, p) ==> t[j].mode != ZOMBIE
  }

  ghost predicate Sleeps(t: Table, lock: Lock) {
    && (forall p :: 0 <= p < |t| ==> SleepOk(t, lock, p))
    && (forall p :: 0 <= p < |t| ==> WaitOk(t, p))
  }

  /** What the holder of the lock knows of the entries it has passed. */
  ghost predicate Locked(t: Table, init: nat, lock: Lock) {
    match lock
    case Free => true
    case Alloc(p, i) => p < |t| && t[p].mode == RUNNING && t[p].code == User
    case Exit(p, i) =>
      && p < |t| && p != init && t[p].mode == RUNNING && t[p].code == User
      && t[p].parent.Some? && !Asleep(t, t[p].parent.value)
      && (forall j: nat :: j < i ==> !ChildOf(t, j, p))
    case Wait(p, i, kids) =>
      && p < |t| && t[p].mode == RUNNING && t[p].code == Waiting && !t[p].chan.Entry?
      && (forall j: nat :: j < i && ChildOf(t, j, p) ==> t[j].mode != ZOMBIE && kids)
      && (kids ==> exists j: nat :: ChildOf(t, j, p))
  }

  ghost predicate Inv(s: State) {
    Pids(s.t, s.nextpid) && Parents(s.t, s.init) && Forks(s.t) && Sleeps(s.t, s.lock) && Locked(s.t, s.init, s.lock)
  }

  lemma BootKeeps(n: nat)
    requires n > 0
    ensures Inv(Boot(n))
  {
    var t := Boot(n).t;
    assert forall i :: 0 <= i < n ==> t[i].parent == None && t[i].code == User;
  }

  // ---- Steps that move no entry in or out of use ----

  /** The same processes with the same parents, pids and forks. */
  predicate Same(q: Proc, r: Proc) {
    && q.pid == r.pid && q.parent == r.parent
    && (q.mode == r.mode || (Alive(q.mode) && Alive(r.mode)))
    && (q.code == r.code || (!q.code.Forking? && !r.code.Forking? && Alive(q.mode)))
    && (r.code.Forking? && r.mode == SLEEPING ==> q.mode == SLEEPING)
  }

  ghost predicate Quiet(t: Table, t': Table) {
    |t| == |t'| && forall i :: 0 <= i < |t| ==> Same(t[i], t'[i])
  }

  lemma QuietKeeps(t: Table, t': Table, nextpid: nat, init: nat)
    requires Pids(t, nextpid) && Parents(t, init) && Forks(t) && Quiet(t, t')
    ensures Pids(t', nextpid) && Parents(t', init) && Forks(t')
  {
    forall i | 0 <= i < |t| ensures ParentOk(t', i) && ForkOk(t', i) {
      assert ParentOk(t, i) && ForkOk(t, i) && Same(t[i], t'[i]);
      if t[i].parent.Some? {
        assert Same(t[t[i].parent.value], t'[t[i].parent.value]);
      }
      if t[i].code.Forking? {
        assert Same(t[t[i].code.np], t'[t[i].code.np]);
      }
    }
  }

  /** The children are the same and none of them became a zombie. */
  ghost predicate Kin(t: Table, t': Table) {
    && |t| == |t'|
    && (forall i :: 0 <= i < |t| ==> t'[i].parent == t[i].parent && (t'[i].mode == ZOMBIE ==> t[i].mode == ZOMBIE))
  }

  /** In addition, nobody fell asleep in wait. */
  ghost predicate Calm(t: Table, t': Table) {
    Kin(t, t') && forall p :: 0 <= p < |t| && Asleep(t', p) ==> Asleep(t, p)
  }

  lemma KinWait(t: Table, t': Table, p: nat)
    requires Kin(t, t') && WaitOk(t, p) && (Asleep(t', p) ==> Asleep(t, p))
    ensures WaitOk(t', p)
  {
    assert forall j: nat :: ChildOf(t', j, p) <==> ChildOf(t, j, p);
    if Asleep(t', p) {
      var j: nat :| ChildOf(t, j, p);
      assert ChildOf(t', j, p);
    }
  }

  lemma CalmLock(t: Table, t': Table, init: nat, lock: Lock)
    requires Calm(t, t') && Locked(t, init, lock) && (lock.Free? || t'[lock.p] == t[lock.p])
    ensures Locked(t', init, lock)
  {
    assert forall j: nat, p: nat :: ChildOf(t', j, p) <==> ChildOf(t, j, p);
    if lock.Wait? && lock.kids {
      var j: nat :| ChildOf(t, j, lock.p);
      assert ChildOf(t', j, lock.p);
    }
  }

  /** A quiet and calm step: only the sleepers remain to be checked. */
  lemma CalmKeeps(s: State, t': Table)
    requires Inv(s) && Quiet(s.t, t') && Calm(s.t, t') && (s.lock.Free? || t'[s.lock.p] == s.t[s.lock.p])
    requires forall p :: 0 <= p < |t'| ==> SleepOk(t', s.lock, p)
    ensures Inv(s.(t := t'))
  {
    QuietKeeps(s.t, t', s.nextpid, s.init);
    forall p | 0 <= p < |t'| ensures WaitOk(t', p) {
      KinWait(s.t, t', p);
    }
    CalmLock(s.t, t', s.init, s.lock);
  }

  lemma WakeKeeps(s: State, chan: Chan)
    requires Inv(s)
    ensures Inv(s.(t := Woken(s.t, chan)))
  {
    var t, t' := s.t, Woken(s.t, chan);
    assert forall i :: 0 <= i < |t| ==> t'[i] == Roused(t[i], chan);
    forall p | 0 <= p < |t| ensures SleepOk(t', s.lock, p) {
      assert SleepOk(t, s.lock, p);
    }
    CalmKeeps(s, t');
  }

  lemma YieldKeeps(s: State, p: nat)
    requires Inv(s) && Enabled(s, Yield(p))
    ensures Inv(Do(s, Yield(p)))
  {
    var t' := Do(s, Yield(p)).t;
    forall q | 0 <= q < |t'| ensures SleepOk(t', s.lock, q) {
      assert SleepOk(s.t, s.lock, q);
    }
    CalmKeeps(s, t');
  }

  lemma SleepKeeps(s: State, p: nat, k: nat)
    requires Inv(s) && Enabled(s, Sleep(p, k))
    ensures Inv(Do(s, Sleep(p, k)))
  {
    var t' := Do(s, Sleep(p, k)).t;
    forall q | 0 <= q < |t'| ensures SleepOk(t', s.lock, q) {
      assert SleepOk(s.t, s.lock, q);
    }
    CalmKeeps(s, t');
  }

  lemma KillKeeps(s: State, i: nat)
    requires Inv(s) && Enabled(s, Kill(i))
    ensures Inv(Do(s, Kill(i)))
  {
    var t' := Do(s, Kill(i)).t;
    forall q | 0 <= q < |t'| ensures SleepOk(t', s.lock, q) {
      assert SleepOk(s.t, s.lock, q);
    }
    CalmKeeps(s, t');
  }

  lemma ScheduleKeeps(s: State, p: nat)
    requires Inv(s) && Enabled(s, Schedule(p))
    ensures Inv(Do(s, Schedule(p)))
  {
    var s' := Do(s, Schedule(p));
    QuietKeeps(s.t, s'.t, s.nextpid, s.init);
    forall q | 0 <= q < |s.t| ensures SleepOk(s'.t, s'.lock, q) && WaitOk(s'.t, q) {
      assert SleepOk(s.t, s.lock, q);
      KinWait(s.t, s'.t, q);
    }
  }

  lemma WaitStartKeeps(s: State, p: nat)
    requires Inv(s) && Enabled(s, WaitStart(p))
    ensures Inv(Do(s, WaitStart(p)))
  {
    var s' := Do(s, WaitStart(p));
    QuietKeeps(s.t, s'.t, s.nextpid, s.init);
    forall q | 0 <= q < |s.t| ensures SleepOk(s'.t, s'.lock, q) && WaitOk(s'.t, q) {
      assert SleepOk(s.t, s.lock, q);
      KinWait(s.t, s'.t, q);
    }
    assert SleepOk(s.t, s.lock, p);
  }

  // ---- wait ----

  lemma WaitEndKeeps(s: State)
    requires Inv(s) && s.lock.Wait? && s.lock.i >= |s.t|
    ensures Inv(WaitNext(s))
  {
    var s', p := WaitNext(s), s.lock.p;
    QuietKeeps(s.t, s'.t, s.nextpid, s.init);
    forall q | 0 <= q < |s.t| ensures SleepOk(s'.t, s'.lock, q) {
      assert SleepOk(s.t, s.lock, q);
    }
    forall q | 0 <= q < |s.t| ensures WaitOk(s'.t, q) {
      if q != p || s'.t[p].mode == RUNNING {
        KinWait(s.t, s'.t, q);
      } else {
        assert forall j: nat :: ChildOf(s'.t, j, p) <==> ChildOf(s.t, j, p);
        var j: nat :| ChildOf(s.t, j, p);
        assert ChildOf(s'.t, j, p);
      }
    }
  }

  lemma WaitPassKeeps(s: State)
    requires Inv(s) && s.lock.Wait? && s.lock.i < |s.t|
    requires s.t[s.lock.i].parent != Some(s.lock.p) || s.t[s.lock.i].mode != ZOMBIE
    ensures Inv(WaitNext(s))
  {
    var s', p, i := WaitNext(s), s.lock.p, s.lock.i;
    forall q | 0 <= q < |s.t| ensures SleepOk(s'.t, s'.lock, q) {
      assert SleepOk(s.t, s.lock, q);
    }
    if s.t[i].parent == Some(p) {
      assert ChildOf(s.t, i, p);
    }
  }

  /** t' is t with another entry at a and, perhaps, other code for the process p. */
  ghost predicate Change(t: Table, t': Table, a: nat, p: nat) {
    && |t'| == |t| && a < |t| && p < |t| && a != p
    && t'[p] == t[p].(code := t'[p].code)
    && forall i :: 0 <= i < |t| && i != a && i != p ==> t'[i] == t[i]
  }

  predicate Reaps(t: Table, t': Table, i: nat, p: nat)
    requires i < |t| && p < |t| && |t'| == |t|
  {
    && t[i].mode == ZOMBIE && t[i].parent == Some(p) && t[p].mode == RUNNING && t[p].code == Waiting
    && t'[i] == t[i].(mode := UNUSED, pid := 0, parent := None, killed := false) && t'[p].code == User
  }

  /** Taking the zombie i out of the table leaves nobody without a parent. */
  lemma ReapTable(t: Table, t': Table, i: nat, p: nat, nextpid: nat, init: nat)
    requires Change(t, t', i, p) && Reaps(t, t', i, p)
    requires Pids(t, nextpid) && Parents(t, init) && Forks(t)
    ensures Pids(t', nextpid) && Parents(t', init) && Forks(t')
  {
    forall q | 0 <= q < |t| ensures ParentOk(t', q) {
      assert ParentOk(t, q) && ForkOk(t, p);
    }
    forall q | 0 <= q < |t| ensures ForkOk(t', q) {
      assert ForkOk(t, q);
    }
  }

  lemma ReapSleeps(t: Table, t': Table, i: nat, p: nat, lock: Lock)
    requires Change(t, t', i, p) && Reaps(t, t', i, p) && !t[p].chan.Entry?
    requires Sleeps(t, lock) && lock.Wait? && lock.p == p
    ensures Sleeps(t', Free)
  {
    forall q | 0 <= q < |t| ensures SleepOk(t', Free, q) {
      assert SleepOk(t, lock, q);
    }
    forall q | 0 <= q < |t| ensures WaitOk(t', q) {
      assert WaitOk(t, q);
      if Asleep(t', q) {
        var j: nat :| ChildOf(t, j, q);
        assert ChildOf(t', j, q);
        assert forall k: nat :: ChildOf(t', k, q) ==> ChildOf(t, k, q);
      }
    }
  }

  lemma ReapKeeps(s: State)
    requires Inv(s) && s.lock.Wait? && s.lock.i < |s.t|
    requires s.t[s.lock.i].parent == Some(s.lock.p) && s.t[s.lock.i].mode == ZOMBIE
    ensures Inv(WaitNext(s))
  {
    var s', p, i := WaitNext(s), s.lock.p, s.lock.i;
    ReapTable(s.t, s'.t, i, p, s.nextpid, s.init);
    ReapSleeps(s.t, s'.t, i, p, s.lock);
  }

  // ---- exit ----

  lemma ExitStartKeeps(s: State, p: nat)
    requires Inv(s) && Enabled(s, ExitStart(p))
    ensures Inv(Do(s, ExitStart(p)))
  {
    var s', q := Do(s, ExitStart(p)), s.t[p].parent.value;
    WakeKeeps(s, Entry(q));
    assert s'.t == s.(t := Woken(s.t, Entry(q))).t;
    assert forall i :: 0 <= i < |s.t| ==> s'.t[i] == Roused(s.t[i], Entry(q));
    forall i | 0 <= i < |s.t| ensures SleepOk(s'.t, s'.lock, i) {
      assert SleepOk(s'.t, s.lock, i);
    }
  }

  /** Child i of p goes to init. */
  predicate Adopts(t: Table, t': Table, i: nat, p: nat, init: nat) {
    && i < |t| && p < |t| && t[i].parent == Some(p) && t[p].mode == RUNNING && t[p].code == User && p != init
    && t' == t[i := t[i].(parent := Some(init))]
  }

  lemma AdoptTable(t: Table, t': Table, i: nat, p: nat, nextpid: nat, init: nat)
    requires Adopts(t, t', i, p, init) && Pids(t, nextpid) && Parents(t, init) && Forks(t)
    ensures Pids(t', nextpid) && Parents(t', init) && Forks(t')
  {
    assert ParentOk(t, i);
    forall q | 0 <= q < |t| ensures ParentOk(t', q) {
      assert ParentOk(t, q);
    }
    forall q | 0 <= q < |t| ensures ForkOk(t', q) {
      assert ForkOk(t, q);
    }
  }

  lemma AdoptSleeps(t: Table, t': Table, i: nat, p: nat, init: nat, lock: Lock)
    requires Adopts(t, t', i, p, init) && Sleeps(t, lock) && (t[i].mode == ZOMBIE ==> !Asleep(t, init))
    requires lock.Exit?
    ensures Sleeps(t', Exit(lock.p, lock.i + 1))
  {
    var next := Exit(lock.p, lock.i + 1);
    forall q | 0 <= q < |t| ensures SleepOk(t', next, q) {
      assert SleepOk(t, lock, q);
    }
    forall q | 0 <= q < |t| ensures WaitOk(t', q) {
      assert WaitOk(t, q);
      if Asleep(t', q) {
        var j: nat :| ChildOf(t, j, q);
        assert ChildOf(t', j, q);
        assert forall k: nat :: ChildOf(t', k, q) ==> ChildOf(t, k, q) || (k == i && q == init);
      }
    }
  }

  /** Handing child i of the exiting process to init, which must not be asleep if i is a zombie. */
  lemma AdoptKeeps(s: State, s': State)
    requires Inv(s) && s.lock.Exit? && Adopts(s.t, s'.t, s.lock.i, s.lock.p, s.init)
    requires s.t[s.lock.i].mode == ZOMBIE ==> !Asleep(s.t, s.init)
    requires s' == s.(t := s'.t, lock := Exit(s.lock.p, s.lock.i + 1))
    ensures Inv(s')
  {
    var t, t', p, i := s.t, s'.t, s.lock.p, s.lock.i;
    assert ParentOk(t, i);
    AdoptTable(t, t', i, p, s.nextpid, s.init);
    AdoptSleeps(t, t', i, p, s.init, s.lock);
    forall j: nat | j < i + 1 ensures !ChildOf(t', j, p) {
      assert j < i ==> !ChildOf(t, j, p);
    }
  }

  lemma ExitEndKeeps(s: State)
    requires Inv(s) && s.lock.Exit? && s.lock.i >= |s.t|
    ensures Inv(ExitNext(s))
  {
    var s', p := ExitNext(s), s.lock.p;
    var t, t' := s.t, s'.t;
    forall q | 0 <= q < |t| ensures SleepOk(t', s'.lock, q) && ParentOk(t', q) && ForkOk(t', q) {
      assert SleepOk(t, s.lock, q) && ParentOk(t, q) && ForkOk(t, q) && !ChildOf(t, q, p);
    }
    forall q | 0 <= q < |t| ensures WaitOk(t', q) {
      assert WaitOk(t, q);
      if Asleep(t', q) {
        assert Asleep(t, q);
        var j: nat :| ChildOf(t, j, q);
        assert ChildOf(t', j, q);
        assert forall k: nat :: ChildOf(t', k, q) ==> ChildOf(t, k, q);
      }
    }
  }

  lemma ExitScanKeeps(s: State)
    requires Inv(s) && Enabled(s, ExitScan)
    ensures Inv(ExitNext(s))
  {
    var p, i := s.lock.p, s.lock.i;
    if i >= |s.t| {
      ExitEndKeeps(s);
    } else if s.t[i].parent != Some(p) {
      var s' := ExitNext(s);
      forall q | 0 <= q < |s.t| ensures SleepOk(s'.t, s'.lock, q) {
        assert SleepOk(s.t, s.lock, q);
      }
    } else if s.t[i].mode != ZOMBIE {
      AdoptKeeps(s, ExitNext(s));
    } else {
      WakeKeeps(s, Entry(s.init));
      var s1 := s.(t := Woken(s.t, Entry(s.init)));
      assert s1.t[i] == s.t[i];
      assert ExitNext(s).t == s1.t[i := s1.t[i].(parent := Some(s.init))];
      AdoptKeeps(s1, ExitNext(s));
    }
  }

  // ---- fork ----

  /** The step by which p in fork changes the entry np. */
  predicate ForkStep(t: Table, t': Table, np: nat, p: nat)
    requires np < |t| && p < |t| && |t'| == |t|
  {
    && t[p].mode == RUNNING && t[p].code.Forking? && t[p].code.np == np
    && t'[np] == t[np].(mode := t'[np].mode, parent := t'[np].parent)
    && if t[p].code.linked then
         t'[np].mode == RUNNABLE && t'[np].parent == t[np].parent && t'[p].code == User
       else if t'[np].mode == UNUSED then
         t'[np].parent == t[np].parent && t'[p].code == User
       else
         t'[np].mode == EMBRYO && t'[np].parent == Some(p) && t'[p].code == Forking(np, true)
  }

  lemma ForkTable(t: Table, t': Table, np: nat, p: nat, nextpid: nat, init: nat)
    requires Change(t, t', np, p) && ForkStep(t, t', np, p)
    requires Pids(t, nextpid) && Parents(t, init) && Forks(t)
    ensures Pids(t', nextpid) && Parents(t', init) && Forks(t')
  {
    assert ForkOk(t, p);
    forall q | 0 <= q < |t| ensures ParentOk(t', q) {
      assert ParentOk(t, q);
    }
    forall q | 0 <= q < |t| ensures ForkOk(t', q) {
      assert ForkOk(t, q);
    }
  }

  lemma ForkSleeps(t: Table, t': Table, np: nat, p: nat, lock: Lock)
    requires Change(t, t', np, p) && ForkStep(t, t', np, p) && Forks(t) && Sleeps(t, lock)
    ensures Sleeps(t', lock)
  {
    assert ForkOk(t, p);
    forall q | 0 <= q < |t| ensures SleepOk(t', lock, q) {
      assert SleepOk(t, lock, q);
    }
    forall q | 0 <= q < |t| ensures WaitOk(t', q) {
      assert WaitOk(t, q);
      if Asleep(t', q) {
        var j: nat :| ChildOf(t, j, q);
        assert ChildOf(t', j, q);
        assert forall k: nat :: ChildOf(t', k, q) ==> ChildOf(t, k, q);
      }
    }
  }

  lemma ForkLock(t: Table, t': Table, np: nat, p: nat, init: nat, lock: Lock)
    requires Change(t, t', np, p) && ForkStep(t, t', np, p) && Forks(t) && Locked(t, init, lock)
    ensures Locked(t', init, lock)
  {
    assert ForkOk(t, p);
    forall q: nat, j: nat | q != p ensures ChildOf(t', j, q) <==> ChildOf(t, j, q) {
    }
    if lock.Wait? && lock.kids {
      var j: nat :| ChildOf(t, j, lock.p);
      assert ChildOf(t', j, lock.p);
    }
  }

  lemma ForkKeeps(s: State, p: nat, step: Step)
    requires Inv(s) && Enabled(s, step) && (step == ForkFail(p) || step == ForkLink(p) || step == ForkDone(p))
    ensures Inv(Do(s, step))
  {
    var s', np := Do(s, step), s.t[p].code.np;
    assert ForkOk(s.t, p);
    ForkTable(s.t, s'.t, np, p, s.nextpid, s.init);
    ForkSleeps(s.t, s'.t, np, p, s.lock);
    ForkLock(s.t, s'.t, np, p, s.init, s.lock);
  }

  predicate Allocs(t: Table, t': Table, i: nat, p: nat, nextpid: nat)
    requires i < |t| && p < |t| && |t'| == |t|
  {
    && t[i].mode == UNUSED && t[p].mode == RUNNING && t[p].code == User
    && t'[i] == t[i].(mode := EMBRYO, pid := nextpid, code := User) && t'[p].code == Forking(i, false)
  }

  lemma AllocTable(t: Table, t': Table, i: nat, p: nat, nextpid: nat, init: nat)
    requires Change(t, t', i, p) && Allocs(t, t', i, p, nextpid)
    requires Pids(t, nextpid) && Parents(t, init) && Forks(t)
    ensures Pids(t', nextpid + 1) && Parents(t', init) && Forks(t')
  {
    assert ParentOk(t, i);
    forall q | 0 <= q < |t| ensures ParentOk(t', q) {
      assert ParentOk(t, q);
    }
    forall q | 0 <= q < |t| ensures ForkOk(t', q) && (q != p && t'[q].code.Forking? ==> t'[q].code.np != i) {
      assert ForkOk(t, q);
    }
  }

  lemma AllocKeeps(s: State)
    requires Inv(s) && Enabled(s, AllocScan)
    ensures Inv(AllocNext(s))
  {
    var s', p, i := AllocNext(s), s.lock.p, s.lock.i;
    var t, t' := s.t, s'.t;
    if i < |t| && t[i].mode == UNUSED {
      AllocTable(t, t', i, p, s.nextpid, s.init);
    }
    forall q | 0 <= q < |t| ensures SleepOk(t', s'.lock, q) {
      assert SleepOk(t, s.lock, q);
    }
    forall q | 0 <= q < |t| ensures WaitOk(t', q) {
      KinWait(t, t', q);
    }
  }

  // ---- Every step, every run ----

  lemma StepKeeps(s: State, step: Step)
    requires Inv(s) && Enabled(s, step)
    ensures Inv(Do(s, step))
  {
    match step
    case ForkStart(p) =>
      var s' := Do(s, step);
      forall q | 0 <= q < |s.t| ensures SleepOk(s'.t, s'.lock, q) {
        assert SleepOk(s.t, s.lock, q);
      }
    case AllocScan => AllocKeeps(s);
    case ForkFail(p) => ForkKeeps(s, p, step);
    case ForkLink(p) => ForkKeeps(s, p, step);
    case ForkDone(p) => ForkKeeps(s, p, step);
    case ExitStart(p) => ExitStartKeeps(s, p);
    case ExitScan => ExitScanKeeps(s);
    case WaitStart(p) => WaitStartKeeps(s, p);
    case WaitScan =>
      if s.lock.i >= |s.t| {
        WaitEndKeeps(s);
      } else if s.t[s.lock.i].parent == Some(s.lock.p) && s.t[s.lock.i].mode == ZOMBIE {
        ReapKeeps(s);
      } else {
        WaitPassKeeps(s);
      }
    case Schedule(p) => ScheduleKeeps(s, p);
    case Yield(p) => YieldKeeps(s, p);
    case Sleep(p, k) => SleepKeeps(s, p, k);
    case Wakeup(k) => WakeKeeps(s, Other(k));
    case Kill(i) => KillKeeps(s, i);
  }

  lemma {:induction false} RunKeeps(s: State, steps: seq<Step>)
    requires Inv(s) && Legal(s, steps)
    ensures Inv(Run(s, steps))
    decreases |steps|
  {
    if steps != [] {
      StepKeeps(s, steps[0]);
      RunKeeps(Do(s, steps[0]), steps[1..]);
    }
  }

  lemma ReachableInv(s: State)
    requires Reachable(s)
    ensures Inv(s)
  {
    var n: nat, steps: seq<Step> :| n > 0 && Legal(Boot(n), steps) && s == Run(Boot(n), steps);
    BootKeeps(n);
    RunKeeps(Boot(n), steps);
  }

  // ---- Every reachable table ----

  /** A process past fork has a parent that is in use, not a zombie, and older. */
  lemma ParentAlive(s: State, i: nat)
    requires Reachable(s) && i < |s.t| && i != s.init && s.t[i].mode != UNUSED && s.t[i].mode != EMBRYO
    ensures s.t[i].parent.Some? && s.t[i].parent.value < |s.t|
    ensures var q := s.t[s.t[i].parent.value]; q.mode !in {UNUSED, EMBRYO, ZOMBIE} && q.pid < s.t[i].pid
  {
    ReachableInv(s);
    assert ParentOk(s.t, i);
  }

  /** The process n steps up from i. */
  function Ancestor(t: Table, i: nat, n: nat): (a: Option<nat>)
    decreases n
  {
    if n == 0 then Some(i)
    else if i < |t| && t[i].parent.Some? then Ancestor(t, t[i].parent.value, n - 1)
    else None
  }

  lemma {:induction false} ChainFrom(s: State, i: nat) returns (n: nat)
    requires Inv(s) && i < |s.t| && (i == s.init || (s.t[i].mode != UNUSED && s.t[i].mode != EMBRYO))
    ensures n < s.t[i].pid && Ancestor(s.t, i, n) == Some(s.init)
    decreases s.t[i].pid
  {
    if i == s.init {
      n := 0;
    } else {
      assert ParentOk(s.t, i);
      var m := ChainFrom(s, s.t[i].parent.value);
      n := m + 1;
    }
  }

  /** Following parents from any process past fork leads to init. */
  lemma ChainReachesInit(s: State, i: nat)
    requires Reachable(s) && i < |s.t| && s.t[i].mode != UNUSED && s.t[i].mode != EMBRYO
    ensures exists n: nat :: n < s.t[i].pid && Ancestor(s.t, i, n) == Some(s.init)
  {
    ReachableInv(s);
    var n := ChainFrom(s, i);
  }

  /** No two entries have the same pid, and entries in use have one. */
  lemma PidsDistinct(s: State, i: nat, j: nat)
    requires Reachable(s) && i < |s.t| && j < |s.t| && i != j
    ensures s.t[i].pid == s.t[j].pid ==> s.t[i].pid == 0
    ensures s.t[i].mode != UNUSED ==> 0 < s.t[i].pid < s.nextpid
  {
    ReachableInv(s);
  }

  /** A process asleep in wait has a child to wait for and no zombie to collect. */
  lemma NoZombieMissed(s: State, p: nat)
    requires Reachable(s) && p < |s.t| && s.t[p].mode == SLEEPING && s.t[p].code == Waiting
    ensures exists j: nat :: ChildOf(s.t, j, p)
    ensures forall j: nat :: j < |s.t| && s.t[j].parent == Some(p) ==> s.t[j].mode != ZOMBIE
  {
    ReachableInv(s);
    assert SleepOk(s.t, s.lock, p) && WaitOk(s.t, p);
    forall j: nat | j < |s.t| && s.t[j].parent == Some(p) ensures s.t[j].mode != ZOMBIE {
      assert ChildOf(s.t, j, p);
    }
  }

  /** Whoever has the table lock can go on, so the lock is given back: each scan step moves to the
      next entry or gives up the lock. */
  lemma HolderProceeds(s: State)
    requires Reachable(s) && !s.lock.Free?
    ensures exists step :: Enabled(s, step) && (Do(s, step).lock.Free? || Do(s, step).lock.i == s.lock.i + 1 <= |s.t|)
  {
    ReachableInv(s);
    var step := if s.lock.Alloc? then AllocScan else if s.lock.Exit? then ExitScan else WaitScan;
    assert Enabled(s, step);
  }

  /** A running process other than init can always exit when the lock is free: it has a parent to wake. */
  lemma CanExit(s: State, p: nat)
    requires Reachable(s) && s.lock.Free? && p < |s.t| && s.t[p].mode == RUNNING && s.t[p].code == User && p != s.init
    ensures Enabled(s, ExitStart(p))
  {
    ReachableInv(s);
  }
}
