/** Entries of the process table that kill marks while they are no processes. allocproc keeps the mark. */
module ProcKilled {
  import opened Options
  import opened ProcMachine
  import opened ProcSafety

  /** The entry is free, or fork is still filling it in. */
  predicate Unborn(m: Mode) {
    m == UNUSED || m == EMBRYO
  }

  /** wait frees entry i, and takes away its mark. */
  predicate ReapsEntry(s: State, step: Step, i: nat) {
    && step == WaitScan && s.lock.Wait? && s.lock.i == i < |s.t|
    && s.t[i].parent == Some(s.lock.p) && s.t[i].mode == ZOMBIE
  }

  predicate Reaped(s: State, steps: seq<Step>, i: nat)
    requires Legal(s, steps)
    decreases |steps|
  {
    steps != [] && (ReapsEntry(s, steps[0], i) || Reaped(Do(s, steps[0]), steps[1..], i))
  }

  /** kill has hit entry i while it was unborn, and it has not been reaped since. */
  predicate HitUnborn(s: State, steps: seq<Step>, i: nat)
    requires Legal(s, steps)
    decreases |steps|
  {
    steps != [] &&
    (|| (steps[0] == Kill(i) && Unborn(s.t[i].mode) && !Reaped(Do(s, steps[0]), steps[1..], i))
     || HitUnborn(Do(s, steps[0]), steps[1..], i))
  }

  /** What one step does to the mark. */
  lemma MarkStep(s: State, step: Step, i: nat)
    requires Enabled(s, step) && i < |s.t|
    ensures |Do(s, step).t| == |s.t|
    ensures Do(s, step).t[i].killed <==> step == Kill(i) || (s.t[i].killed && !ReapsEntry(s, step, i))
  {
  }

  lemma BornStep(s: State, step: Step, i: nat)
    requires Inv(s) && Enabled(s, step) && i < |s.t| && !Unborn(s.t[i].mode) && !ReapsEntry(s, step, i)
    ensures |Do(s, step).t| == |s.t| && !Unborn(Do(s, step).t[i].mode)
  {
    if step.ForkFail? {
      assert ForkOk(s.t, step.p);
    }
  }

  /** An entry that is no longer unborn becomes free only when it is reaped. */
  lemma {:induction false} StaysBorn(s: State, steps: seq<Step>, i: nat)
    requires Inv(s) && Legal(s, steps) && i < |s.t| && !Unborn(s.t[i].mode) && !Reaped(s, steps, i)
    ensures i < |Run(s, steps).t| && !Unborn(Run(s, steps).t[i].mode)
    decreases |steps|
  {
    if steps != [] {
      BornStep(s, steps[0], i);
      StepKeeps(s, steps[0]);
      StaysBorn(Do(s, steps[0]), steps[1..], i);
    }
  }

  /** A free entry is marked if and only if kill has hit it while it was unborn, since it was last reaped. */
  lemma {:induction false} MarkedIff(s: State, steps: seq<Step>, i: nat)
    requires Inv(s) && Legal(s, steps) && i < |s.t|
    ensures i < |Run(s, steps).t|
    ensures Run(s, steps).t[i].mode == UNUSED ==>
      (Run(s, steps).t[i].killed <==> HitUnborn(s, steps, i) || (s.t[i].killed && !Reaped(s, steps, i)))
    decreases |steps|
  {
    if steps != [] {
      var s1 := Do(s, steps[0]);
      MarkStep(s, steps[0], i);
      StepKeeps(s, steps[0]);
      MarkedIff(s1, steps[1..], i);
      if !Unborn(s1.t[i].mode) && !Reaped(s1, steps[1..], i) {
        StaysBorn(s1, steps[1..], i);
      }
    }
  }

  /** The next child in that entry is killed from the start, if and only if kill has hit the entry before. */
  lemma BornKilled(n: nat, steps: seq<Step>)
    requires n > 0 && Legal(Boot(n), steps) && Enabled(Run(Boot(n), steps), AllocScan)
    ensures var s := Run(Boot(n), steps);
      s.lock.i < |s.t| && s.t[s.lock.i].mode == UNUSED ==>
      && Do(s, AllocScan).t[s.lock.i].mode == EMBRYO
      && (Do(s, AllocScan).t[s.lock.i].killed <==> HitUnborn(Boot(n), steps, s.lock.i))
  {
    var s := Run(Boot(n), steps);
    BootKeeps(n);
    RunKeeps(Boot(n), steps);
    if s.lock.i < |s.t| && s.t[s.lock.i].mode == UNUSED {
      SameLength(Boot(n), steps);
      MarkedIff(Boot(n), steps, s.lock.i);
      assert Do(s, AllocScan).t[s.lock.i].mode == EMBRYO;
    }
  }

  lemma {:induction false} SameLength(s: State, steps: seq<Step>)
    requires Legal(s, steps)
    ensures |Run(s, steps).t| == |s.t|
    decreases |steps|
  {
    if steps != [] {
      SameLength(Do(s, steps[0]), steps[1..]);
    }
  }

  lemma Prefixed(s: State, step: Step, steps: seq<Step>)
    requires Enabled(s, step) && Legal(Do(s, step), steps)
    ensures Legal(s, [step] + steps) && Run(s, [step] + steps) == Run(Do(s, step), steps)
  {
    assert ([step] + steps)[1..] == steps;
  }

  /** A table of two, whose first entry is init. */
  function Two(mode: Mode, code: Code, child: Proc, nextpid: nat, lock: Lock): (s: State) {
    State([Proc(mode, 1, None, NoChan, false, code), child], nextpid, 0, lock)
  }

  /** init calls kill(0), which finds a free entry, and then fork. Its child is killed before it has run. */
  lemma KillZero()
    ensures var steps := [Schedule(0), Kill(1), ForkStart(0), AllocScan, AllocScan, ForkLink(0), ForkDone(0)];
      && Legal(Boot(2), steps)
      && Run(Boot(2), steps) == Two(RUNNING, User, Proc(RUNNABLE, 2, Some(0), NoChan, true, User), 3, Free)
  {
    var s := Two(RUNNING, User, Proc(UNUSED, 0, None, NoChan, true, User), 2, Alloc(0, 0));
    var rest := [AllocScan, AllocScan, ForkLink(0), ForkDone(0)];
    KillZeroFork(s);
    KillZeroMark(s, rest);
    assert [Schedule(0)] + ([Kill(1)] + ([ForkStart(0)] + rest)) ==
      [Schedule(0), Kill(1), ForkStart(0), AllocScan, AllocScan, ForkLink(0), ForkDone(0)];
  }

  lemma KillZeroMark(s3: State, rest: seq<Step>)
    requires s3 == Two(RUNNING, User, Proc(UNUSED, 0, None, NoChan, true, User), 2, Alloc(0, 0)) && Legal(s3, rest)
    ensures var steps := [Schedule(0)] + ([Kill(1)] + ([ForkStart(0)] + rest));
      Legal(Boot(2), steps) && Run(Boot(2), steps) == Run(s3, rest)
  {
    var s0 := Two(RUNNABLE, User, Proc(UNUSED, 0, None, NoChan, false, User), 2, Free);
    var s1 := Two(RUNNING, User, Proc(UNUSED, 0, None, NoChan, false, User), 2, Free);
    var s2 := Two(RUNNING, User, Proc(UNUSED, 0, None, NoChan, true, User), 2, Free);
    assert Do(s2, ForkStart(0)) == s3;
    Prefixed(s2, ForkStart(0), rest);
    assert Do(s1, Kill(1)) == s2;
    Prefixed(s1, Kill(1), [ForkStart(0)] + rest);
    assert Boot(2) == s0 && Do(s0, Schedule(0)) == s1;
    Prefixed(s0, Schedule(0), [Kill(1)] + ([ForkStart(0)] + rest));
  }

  lemma KillZeroFork(s3: State)
    requires s3 == Two(RUNNING, User, Proc(UNUSED, 0, None, NoChan, true, User), 2, Alloc(0, 0))
    ensures var rest := [AllocScan, AllocScan, ForkLink(0), ForkDone(0)];
      && Legal(s3, rest)
      && Run(s3, rest) == Two(RUNNING, User, Proc(RUNNABLE, 2, Some(0), NoChan, true, User), 3, Free)
  {
    var s4 := Two(RUNNING, User, Proc(UNUSED, 0, None, NoChan, true, User), 2, Alloc(0, 1));
    var s5 := Two(RUNNING, Forking(1, false), Proc(EMBRYO, 2, None, NoChan, true, User), 3, Free);
    var s6 := Two(RUNNING, Forking(1, true), Proc(EMBRYO, 2, Some(0), NoChan, true, User), 3, Free);
    var s7 := Two(RUNNING, User, Proc(RUNNABLE, 2, Some(0), NoChan, true, User), 3, Free);
    assert Do(s3, AllocScan) == s4;
    assert Do(s4, AllocScan) == s5;
    assert Do(s5, ForkLink(0)) == s6;
    assert Do(s6, ForkDone(0)) == s7;
    Prefixed(s6, ForkDone(0), []);
    Prefixed(s5, ForkLink(0), [ForkDone(0)] + []);
    Prefixed(s4, AllocScan, [ForkLink(0)] + ([ForkDone(0)] + []));
    Prefixed(s3, AllocScan, [AllocScan] + ([ForkLink(0)] + ([ForkDone(0)] + [])));
    assert [AllocScan] + ([AllocScan] + ([ForkLink(0)] + ([ForkDone(0)] + []))) ==
      [AllocScan, AllocScan, ForkLink(0), ForkDone(0)];
  }
}
