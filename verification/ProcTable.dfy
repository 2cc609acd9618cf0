/** The loops of proc.c over the process table, each shown to be a run of the machine. */
module ProcTable {
  import opened Options
  import opened ProcMachine
  import opened ProcSafety

  lemma {:induction false} RunSnoc(s: State, steps: seq<Step>, step: Step)
    requires Legal(s, steps) && Enabled(Run(s, steps), step)
    ensures Legal(s, steps + [step]) && Run(s, steps + [step]) == Do(Run(s, steps), step)
    decreases |steps|
  {
    if steps == [] {
      assert [] + [step] == [step];
      assert [step][1..] == [];
    } else {
      RunSnoc(Do(s, steps[0]), steps[1..], step);
      assert (steps + [step])[1..] == steps[1..] + [step];
    }
  }

  /** What a pass of wait over the table comes to. */
  datatype Waited = Reaped(i: nat, pid: nat) | Nobody | Slept

  /** A machine state that agrees with the table, and how it was reached from s. */
  ghost predicate Follows(s: State, steps: seq<Step>, s': State) {
    Legal(s, steps) && Run(s, steps) == s'
  }

  lemma FollowsNext(s: State, steps: seq<Step>, s': State, step: Step)
    requires Follows(s, steps, s') && Enabled(s', step)
    ensures Follows(s, steps + [step], Do(s', step))
  {
    RunSnoc(s, steps, step);
  }

  /** wait passes an entry that is not a zombie child. */
  lemma WaitPasses(s: State, p: nat, i: nat, kids: bool)
    requires p < |s.t| && i < |s.t| && !(s.t[i].parent == Some(p) && s.t[i].mode == ZOMBIE)
    ensures var s1 := s.(lock := Wait(p, i, kids));
      Enabled(s1, WaitScan) && Do(s1, WaitScan) == s.(lock := Wait(p, i + 1, kids || s.t[i].parent == Some(p)))
  {
  }

  class Ptable {
    const proc: array<Proc>
    const initproc: nat
    var nextpid: nat

    ghost predicate Shows(s: State)
      reads this, proc
    {
      proc[..] == s.t && nextpid == s.nextpid && initproc == s.init
    }

    constructor (n: nat)
      requires n > 0
      ensures fresh(proc) && Shows(Boot(n))
    {
      proc := new Proc[n](i requires 0 <= i < n =>
        if i == 0 then Proc(RUNNABLE, 1, None, NoChan, false, User) else Proc(UNUSED, 0, None, NoChan, false, User));
      initproc, nextpid := 0, 2;
    }

    /** wakeup1 */
    method Wakeup1(chan: Chan)
      modifies proc
      ensures forall j :: 0 <= j < proc.Length ==>
        proc[j] == if old(proc[j]).mode == SLEEPING && old(proc[j]).chan == chan then old(proc[j]).(mode := RUNNABLE)
            else old(proc[j])
    {
      var i := 0;
      while i < proc.Length
        invariant 0 <= i <= proc.Length
        invariant forall j :: 0 <= j < proc.Length ==>
          proc[j] == if j < i && old(proc[j]).mode == SLEEPING && old(proc[j]).chan == chan
            then old(proc[j]).(mode := RUNNABLE) else old(proc[j])
      {
        if proc[i].mode == SLEEPING && proc[i].chan == chan {
          proc[i] := proc[i].(mode := RUNNABLE);
        }
        i := i + 1;
      }
    }

    /** The locked part of allocproc, called by process p. */
    method AllocProc(p: nat, ghost s: State) returns (r: Option<nat>, ghost steps: seq<Step>, ghost s': State)
      requires Shows(s) && Inv(s) && Enabled(s, ForkStart(p))
      modifies this, proc
      ensures Follows(s, steps, s') && Shows(s') && s'.lock == Free
      ensures r.None? ==> proc[..] == old(proc[..]) && forall j :: 0 <= j < proc.Length ==> proc[j].mode != UNUSED
      ensures r.Some? ==> r.value < proc.Length && r.value != p && old(proc[r.value]).mode == UNUSED
      ensures r.Some? ==> proc[r.value] == old(proc[r.value]).(mode := EMBRYO, pid := old(nextpid), code := User)
      ensures r.Some? ==> proc[p] == old(proc[p]).(code := Forking(r.value, false)) && nextpid == old(nextpid) + 1
      ensures r.Some? ==> forall j :: 0 <= j < r.value ==> proc[j].mode != UNUSED
      ensures r.Some? ==> forall j :: 0 <= j < proc.Length && j != r.value && j != p ==> proc[j] == old(proc[j])
    {
      steps, s' := [ForkStart(p)], Do(s, ForkStart(p));
      var i := 0;
      while i < proc.Length && proc[i].mode != UNUSED
        invariant 0 <= i <= proc.Length && proc[..] == s.t && nextpid == s.nextpid
        invariant forall j :: 0 <= j < i ==> proc[j].mode != UNUSED
        invariant Follows(s, steps, s') && s' == s.(lock := Alloc(p, i))
      {
        FollowsNext(s, steps, s', AllocScan);
        steps, s' := steps + [AllocScan], Do(s', AllocScan);
        i := i + 1;
      }
      FollowsNext(s, steps, s', AllocScan);
      steps, s' := steps + [AllocScan], Do(s', AllocScan);
      if i == proc.Length {
        return None, steps, s';
      }
      proc[i] := proc[i].(mode := EMBRYO, pid := nextpid, code := User);
      nextpid := nextpid + 1;
      proc[p] := proc[p].(code := Forking(i, false));
      return Some(i), steps, s';
    }

    /** One round of exit's loop. */
    method Adopt(p: nat, i: nat, ghost s: State)
      requires Shows(s) && s.lock == ProcMachine.Exit(p, i) && i < proc.Length && Enabled(s, ExitScan)
      modifies proc
      ensures Shows(Do(s, ExitScan))
    {
      if proc[i].parent == Some(p) {
        proc[i] := proc[i].(parent := Some(initproc));
        if proc[i].mode == ZOMBIE {
          Wakeup1(Entry(initproc));
        }
      }
    }

    /** The locked part of exit: children go to init, the parent and perhaps init are woken. */
    method Exit(p: nat, ghost s: State) returns (ghost steps: seq<Step>, ghost s': State)
      requires Shows(s) && initproc < proc.Length && Enabled(s, ExitStart(p))
      modifies proc
      ensures Follows(s, steps, s') && Shows(s') && s'.lock == Free
      ensures forall j :: 0 <= j < proc.Length ==>
        proc[j].parent == if old(proc[j]).parent == Some(p) then Some(initproc) else old(proc[j]).parent
      ensures forall j :: 0 <= j < proc.Length && j != p ==>
        proc[j].mode == if WokenByExit(s.t, p, initproc, j) then RUNNABLE else old(proc[j]).mode
      ensures proc[p].mode == ZOMBIE
      ensures forall j :: 0 <= j < proc.Length ==>
        proc[j] == old(proc[j]).(mode := proc[j].mode, parent := proc[j].parent)
    {
      steps, s' := [ExitStart(p)], Do(s, ExitStart(p));
      Wakeup1(Entry(proc[p].parent.value));
      steps, s' := HandOver(p, s, steps, s');
      HandedAll(s.t, s'.t, p, initproc);
      FollowsNext(s, steps, s', ExitScan);
      steps, s' := steps + [ExitScan], Do(s', ExitScan);
      proc[p] := proc[p].(mode := ZOMBIE);
    }

    /** The loop of exit over the table. */
    method HandOver(p: nat, ghost s: State, ghost steps: seq<Step>, ghost s1: State)
      returns (ghost steps': seq<Step>, ghost s': State)
      requires Shows(s1) && s1.lock == ProcMachine.Exit(p, 0) && Follows(s, steps, s1) && initproc < proc.Length
      requires p < |s.t| == proc.Length && s.t[p].parent.Some? && Handed(s.t, s1.t, p, initproc, 0)
      modifies proc
      ensures Shows(s') && s'.lock == ProcMachine.Exit(p, proc.Length) && Follows(s, steps', s')
      ensures Handed(s.t, s'.t, p, initproc, proc.Length)
    {
      steps', s' := steps, s1;
      var i := 0;
      while i < proc.Length
        invariant 0 <= i <= proc.Length && Shows(s') && s'.lock == ProcMachine.Exit(p, i) && Follows(s, steps', s')
        invariant Handed(s.t, s'.t, p, initproc, i)
      {
        FollowsNext(s, steps', s', ExitScan);
        HandedNext(s.t, s', p, i);
        Adopt(p, i, s');
        steps', s' := steps' + [ExitScan], Do(s', ExitScan);
        i := i + 1;
      }
    }

    /** wait's search for a zombie child: stops at the first, or at the end of the table. */
    method FindZombie(p: nat, ghost s: State) returns (i: nat, havekids: bool, ghost steps: seq<Step>)
      requires Shows(s) && s.lock == ProcMachine.Wait(p, 0, false) && Enabled(s, WaitScan)
      ensures i <= proc.Length && Follows(s, steps, s.(lock := ProcMachine.Wait(p, i, havekids)))
      ensures forall j: nat :: j < i && ChildOf(s.t, j, p) ==> s.t[j].mode != ZOMBIE
      ensures i < proc.Length ==> ChildOf(s.t, i, p) && s.t[i].mode == ZOMBIE
      ensures havekids <==> exists j: nat :: j < i && ChildOf(s.t, j, p)
    {
      steps, i, havekids := [], 0, false;
      while i < proc.Length && (proc[i].parent != Some(p) || proc[i].mode != ZOMBIE)
        invariant 0 <= i <= proc.Length && Follows(s, steps, s.(lock := ProcMachine.Wait(p, i, havekids)))
        invariant havekids <==> exists j: nat :: j < i && ChildOf(s.t, j, p)
        invariant forall j: nat :: j < i && ChildOf(s.t, j, p) ==> s.t[j].mode != ZOMBIE
      {
        WaitPasses(s, p, i, havekids);
        FollowsNext(s, steps, s.(lock := ProcMachine.Wait(p, i, havekids)), WaitScan);
        steps := steps + [WaitScan];
        if proc[i].parent == Some(p) {
          assert ChildOf(s.t, i, p);
          havekids := true;
        }
        i := i + 1;
      }
    }

    /** A pass of wait over the table. */
    method Wait(p: nat, ghost s: State) returns (r: Waited, ghost steps: seq<Step>, ghost s': State)
      requires Shows(s) && s.lock == ProcMachine.Wait(p, 0, false) && Enabled(s, WaitScan) && !ChildOf(s.t, p, p)
      modifies proc
      ensures Follows(s, steps, s') && Shows(s') && s'.lock == Free
      ensures r.Reaped? <==> exists j: nat :: ChildOf(s.t, j, p) && s.t[j].mode == ZOMBIE
      ensures r.Reaped? ==> ChildOf(s.t, r.i, p) && s.t[r.i].mode == ZOMBIE && s.t[r.i].pid == r.pid
      ensures r.Reaped? ==> forall j: nat :: j < r.i && ChildOf(s.t, j, p) ==> s.t[j].mode != ZOMBIE
      ensures r.Reaped? ==> proc[r.i] == s.t[r.i].(mode := UNUSED, pid := 0, parent := None, killed := false)
      ensures !r.Reaped? ==> (r.Nobody? <==> s.t[p].killed || !exists j: nat :: ChildOf(s.t, j, p))
      ensures proc[p] == if r.Slept? then s.t[p].(mode := SLEEPING, chan := Entry(p)) else s.t[p].(code := User)
      ensures forall j :: 0 <= j < proc.Length && j != p && !(r.Reaped? && j == r.i) ==> proc[j] == s.t[j]
    {
      var i, havekids;
      i, havekids, steps := FindZombie(p, s);
      FollowsNext(s, steps, s.(lock := ProcMachine.Wait(p, i, havekids)), WaitScan);
      s' := Do(s.(lock := ProcMachine.Wait(p, i, havekids)), WaitScan);
      steps := steps + [WaitScan];
      if i < proc.Length {
        r := Reaped(i, proc[i].pid);
        proc[i] := proc[i].(mode := UNUSED, pid := 0, parent := None, killed := false);
        proc[p] := proc[p].(code := User);
      } else if !havekids || proc[p].killed {
        r := Nobody;
        proc[p] := proc[p].(code := User);
      } else {
        r := Slept;
        proc[p] := proc[p].(mode := SLEEPING, chan := Entry(p));
      }
    }
  }

  /** One of the first i entries is a zombie child of p. */
  ghost predicate ZombieBefore(t: Table, p: nat, i: nat) {
    exists j: nat :: j < i && ChildOf(t, j, p) && t[j].mode == ZOMBIE
  }

  /** Entry j sleeps in the wait of the parent of p, or in that of init, which gets a zombie among the first i. */
  ghost predicate Awakened(t: Table, p: nat, init: nat, i: nat, j: nat)
    requires p < |t| && t[p].parent.Some? && j < |t|
  {
    && t[j].mode == SLEEPING
    && (t[j].chan == Entry(t[p].parent.value) || (t[j].chan == Entry(init) && ZombieBefore(t, p, i)))
  }

  /** The sleepers that exit wakes: those in the wait of the parent, and in that of init if it gets a zombie. */
  ghost predicate WokenByExit(t: Table, p: nat, init: nat, j: nat)
    requires p < |t| && t[p].parent.Some? && j < |t|
  {
    && t[j].mode == SLEEPING
    && (|| t[j].chan == Entry(t[p].parent.value)
        || (t[j].chan == Entry(init) && exists k :: 0 <= k < |t| && t[k].parent == Some(p) && t[k].mode == ZOMBIE))
  }

  /** The children of p before entry i have gone to init, and the sleepers are awake. */
  ghost predicate Handed(t: Table, t': Table, p: nat, init: nat, i: nat)
    requires p < |t| && t[p].parent.Some?
  {
    && |t'| == |t|
    && (forall j :: 0 <= j < |t| ==>
         t'[j].parent == if j < i && t[j].parent == Some(p) then Some(init) else t[j].parent)
    && (forall j :: 0 <= j < |t| ==> t'[j].mode == if Awakened(t, p, init, i, j) then RUNNABLE else t[j].mode)
    && (forall j :: 0 <= j < |t| ==> t'[j] == t[j].(mode := t'[j].mode, parent := t'[j].parent))
  }

  lemma HandedAll(t: Table, t': Table, p: nat, init: nat)
    requires p < |t| && t[p].parent.Some? && Handed(t, t', p, init, |t|)
    ensures forall j :: 0 <= j < |t| ==> t'[j].mode == if WokenByExit(t, p, init, j) then RUNNABLE else t[j].mode
  {
    forall j | 0 <= j < |t| ensures Awakened(t, p, init, |t|, j) <==> WokenByExit(t, p, init, j) {
      if k :| 0 <= k < |t| && t[k].parent == Some(p) && t[k].mode == ZOMBIE {
        assert ChildOf(t, k, p);
      }
    }
  }

  lemma HandedNext(t: Table, s: State, p: nat, i: nat)
    requires s.lock == Exit(p, i) && i < |s.t| && Enabled(s, ExitScan) && p < |t| && t[p].parent.Some?
    requires Handed(t, s.t, p, s.init, i)
    ensures Handed(t, Do(s, ExitScan).t, p, s.init, i + 1)
  {
    assert ZombieBefore(t, p, i + 1) <==> ZombieBefore(t, p, i) || (ChildOf(t, i, p) && t[i].mode == ZOMBIE);
  }
}
