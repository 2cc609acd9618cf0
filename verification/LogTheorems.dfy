/** The promises of log.c, for every run of the log machine. */
module LogTheorems {
  import opened Sequences
  import opened Blocks
  import opened WriteAhead
  import opened LogMachine
  import opened LogSafety

  /** Crash safety. After any run, with any number of crashes anywhere in it,
      recovery of the disk as it stands gives the initial disk plus every
      committed transaction in full and in order; every transaction whose
      commit returned is among them; and a committed transaction holds all the
      writes of an operation or none of them. */
  lemma CrashSafety(l: Layout, s0: State, steps: seq<Step>)
    requires Init(l, s0) && Legal(l, s0, steps)
    ensures var s := Run(l, s0, steps);
            && GoodHeader(l, s.disk)
            && Home(l, Recovered(l, s.disk)) == Home(l, Replay(s0.disk, s.committed))
            && (forall t :: t in s.returned ==> t in s.committed)
            && (forall t, p :: t in s.committed ==> By(t, p) == [] || By(t, p) == By(s.made, p))
  {
    InitInv(l, s0);
    RunKeeps(l, s0.disk, s0, steps);
    var s := Run(l, s0, steps);
    DiskRecovers(l, s0.disk, s);
    forall t, p | t in s.committed ensures By(t, p) == [] || By(t, p) == By(s.made, p) {
      assert AllOrNone(s, t, p);
    }
  }

  /** While operations run, what they read through the cache is the initial disk
      plus the committed transactions plus the open one, write by write. */
  lemma LogicalDisk(l: Layout, s0: State, steps: seq<Step>)
    requires Init(l, s0) && Legal(l, s0, steps)
    ensures var s := Run(l, s0, steps);
            |s.view| == |s0.disk| && l.start <= |s0.disk|
            && (s.up && !s.committing ==> Home(l, s.view) == Home(l, Replay(s0.disk, s.committed + [s.txn])))
  {
    InitInv(l, s0);
    RunKeeps(l, s0.disk, s0, steps);
    var s := Run(l, s0, steps);
    ReplaySnoc(s0.disk, s.committed, s.txn);
  }

  lemma ReachableInv(l: Layout, s: State) returns (d0: Disk)
    requires Reachable(l, s)
    ensures Inv(l, d0, s)
  {
    var s0: State, steps: seq<Step> :| Init(l, s0) && Legal(l, s0, steps) && Run(l, s0, steps) == s;
    d0 := s0.disk;
    InitInv(l, s0);
    RunKeeps(l, d0, s0, steps);
  }

  /** Reservations never overrun the log, its list has no duplicates, and no
      operation is outstanding during a commit: the panic of end_op is dead code. */
  lemma ReservationSafety(l: Layout, s: State)
    requires Reachable(l, s)
    ensures |s.lh| + Unused(s.ops) <= LOGSIZE
    ensures 0 <= Unused(s.ops)
    ensures Distinct(s.lh)
    ensures s.committing ==> s.ops == map[]
    ensures s.up && s.ops == map[] && !s.committing ==> s.lh == []
  {
    var d0 := ReachableInv(l, s);
    UnusedBounds(s.ops);
  }

  /** In every reachable state power may fail, and an operation may end. */
  lemma NeverStuck(l: Layout, s: State)
    requires Reachable(l, s)
    ensures Enabled(l, s, Crash)
    ensures forall op :: op in s.ops ==> Enabled(l, s, EndOp(op))
  {
    var d0 := ReachableInv(l, s);
    DiskRecovers(l, d0, s);
  }

  /** A caller sleeps in begin_op only while a commit runs or the list, the operations under way and the caller may
      need more than the log has, and then there is an operation or a commit that it waits for. */
  lemma SleepOnlyForReason(l: Layout, s: State)
    requires Reachable(l, s) && s.asleep != {}
    ensures s.committing || |s.lh| + (|s.ops| + 1) * MAXOPBLOCKS > LOGSIZE
    ensures s.up && (s.committing || s.ops != map[])
  {
    var d0 := ReachableInv(l, s);
  }

  /** In every reachable state a caller of begin_op starts a new operation, or falls asleep for that reason. */
  lemma BeginOrSleep(l: Layout, s: State, caller: nat)
    requires Reachable(l, s) && Enabled(l, s, BeginOp(caller))
    ensures var s' := Do(l, s, BeginOp(caller));
      if s.committing || |s.lh| + (|s.ops| + 1) * MAXOPBLOCKS > LOGSIZE
      then s'.ops == s.ops && s'.asleep == s.asleep + {caller}
      else s'.asleep == s.asleep && |s'.ops| == |s.ops| + 1 && forall op :: op in s.ops ==> op in s'.ops
  {
    var d0 := ReachableInv(l, s);
    assert s.nextOp !in s.ops;
  }

  lemma {:induction false} RunSnoc(l: Layout, s: State, steps: seq<Step>, step: Step)
    requires Legal(l, s, steps) && Enabled(l, Run(l, s, steps), step)
    ensures Legal(l, s, steps + [step])
    ensures Run(l, s, steps + [step]) == Do(l, Run(l, s, steps), step)
    decreases |steps|
  {
    var all := steps + [step];
    if steps == [] {
      assert all[1..] == [];
    } else {
      assert all[1..] == steps[1..] + [step];
      RunSnoc(l, Do(l, s, steps[0]), steps[1..], step);
    }
  }

  lemma RunCons(l: Layout, s: State, step: Step, rest: seq<Step>)
    requires Enabled(l, s, step) && Legal(l, Do(l, s, step), rest)
    ensures Legal(l, s, [step] + rest)
    ensures Run(l, s, [step] + rest) == Run(l, Do(l, s, step), rest)
  {
    assert ([step] + rest)[1..] == rest;
  }

  lemma ReachableStep(l: Layout, s: State, step: Step)
    requires Reachable(l, s) && Enabled(l, s, step)
    ensures Reachable(l, Do(l, s, step))
  {
    var s0: State, steps: seq<Step> :| Init(l, s0) && Legal(l, s0, steps) && Run(l, s0, steps) == s;
    RunSnoc(l, s0, steps, step);
  }

  /** Steps of the operations and of the committer only: no new caller, no crash. */
  predicate Inside(steps: seq<Step>) {
    forall i :: 0 <= i < |steps| ==> steps[i].EndOp? || steps[i].DiskWrite? || steps[i].Finish?
  }

  /** Nothing is open and nobody waits. */
  ghost predicate Drained(s: State) {
    s.ops == map[] && !s.committing && s.asleep == {}
  }

  lemma {:induction false} CommitRunsOut(l: Layout, s: State) returns (steps: seq<Step>)
    requires Reachable(l, s) && s.committing && HasBuffer(|s.lh|)
    ensures Legal(l, s, steps) && Inside(steps) && Drained(Run(l, s, steps))
    decreases |s.script| - s.done
  {
    var d0 := ReachableInv(l, s);
    if s.done == |s.script| {
      steps := [Finish];
    } else {
      ReachableStep(l, s, DiskWrite);
      var rest := CommitRunsOut(l, Do(l, s, DiskWrite));
      steps := [DiskWrite] + rest;
      RunCons(l, s, DiskWrite, rest);
    }
  }

  lemma {:induction false} OpenRunsOut(l: Layout, s: State, op: nat) returns (steps: seq<Step>)
    requires Reachable(l, s) && op in s.ops && HasBuffer(|s.lh|)
    ensures Legal(l, s, steps) && Inside(steps) && Drained(Run(l, s, steps))
    decreases |s.ops|
  {
    NeverStuck(l, s);
    var s1 := Do(l, s, EndOp(op));
    ReachableStep(l, s, EndOp(op));
    var rest: seq<Step>;
    if s1.committing {
      rest := CommitRunsOut(l, s1);
    } else {
      var next :| next in s1.ops;
      rest := OpenRunsOut(l, s1, next);
    }
    steps := [EndOp(op)] + rest;
    RunCons(l, s, EndOp(op), rest);
  }

  lemma FullListWaits(l: Layout, s: State)
    requires Reachable(l, s) && !HasBuffer(|s.lh|)
    ensures !Drained(s) && !Enabled(l, s, DiskWrite) && !Enabled(l, s, Finish)
  {
    var d0 := ReachableInv(l, s);
  }

  /** With every buffer pinned, ending operations and committing gets nowhere. */
  lemma {:induction false} FullListStays(l: Layout, s: State, steps: seq<Step>)
    requires Reachable(l, s) && !HasBuffer(|s.lh|) && Legal(l, s, steps) && Inside(steps)
    ensures !Drained(Run(l, s, steps))
    decreases |steps|
  {
    FullListWaits(l, s);
    if steps != [] {
      ReachableStep(l, s, steps[0]);
      FullListStays(l, Do(l, s, steps[0]), steps[1..]);
    }
  }

  /** What is open can end, and so can the commit under way, without help from outside. */
  ghost predicate CanDrain(l: Layout, s: State) {
    exists steps :: Legal(l, s, steps) && Inside(steps) && Drained(Run(l, s, steps))
  }

  /** No deadlock, as long as the list is shorter than the buffer cache: then the operations and the
      commit that a sleeper waits for can run to a state where nobody sleeps. Otherwise they cannot. */
  lemma SleepersCanBeWoken(l: Layout, s: State)
    requires Reachable(l, s)
    ensures CanDrain(l, s) <==> HasBuffer(|s.lh|)
  {
    if HasBuffer(|s.lh|) {
      var steps: seq<Step> := [];
      if s.committing {
        steps := CommitRunsOut(l, s);
      } else if s.ops != map[] {
        var op :| op in s.ops;
        steps := OpenRunsOut(l, s, op);
      } else if s.asleep != {} {
        SleepOnlyForReason(l, s);
      }
      assert Legal(l, s, steps) && Inside(steps) && Drained(Run(l, s, steps));
    } else if CanDrain(l, s) {
      var steps :| Legal(l, s, steps) && Inside(steps) && Drained(Run(l, s, steps));
      FullListStays(l, s, steps);
    }
  }

  // ---- When log_write panics ----

  /** With a log region larger than LOGSIZE, a log_write within its quota panics
      exactly when it rewrites a block that is already logged while the list is full:
      the size test comes before the search for an absorbed block. */
  lemma PanicExactly(l: Layout, s: State, op: nat, sector: uint)
    requires Reachable(l, s) && s.up && WithinQuota(l, s, op, sector)
    requires l.size > LOGSIZE
    ensures TooBig(l, |s.lh|) <==> |s.lh| == LOGSIZE
    ensures TooBig(l, |s.lh|) ==> sector in s.lh
  {
    var d0 := ReachableInv(l, s);
    UnusedRemove(s.ops, op);
    forall p | p in s.ops - {op} ensures (s.ops - {op})[p] <= MAXOPBLOCKS {
      assert p in s.ops;
    }
    UnusedBounds(s.ops - {op});
  }

  /** No log_write of a new block within its quota ever panics. */
  ghost predicate NewWritesNeverPanic(l: Layout) {
    forall s, op, sector :: Reachable(l, s) && s.up && WithinQuota(l, s, op, sector) && sector !in s.lh
                            ==> !TooBig(l, |s.lh|)
  }

  function Sectors(k: nat): (lh: seq<uint>)
    requires k <= LOGSIZE
  {
    seq(k, i requires 0 <= i < k => i)
  }

  lemma BeginFrom(l: Layout, s: State) returns (s': State)
    requires Reachable(l, s) && s.up && s.asleep == {} && Admissible(s.committing, |s.lh|, |s.ops|)
    ensures Reachable(l, s')
    ensures s' == s.(ops := s.ops[s.nextOp := 0], nextOp := s.nextOp + 1)
  {
    ReachableStep(l, s, BeginOp(0));
    s' := Do(l, s, BeginOp(0));
  }

  lemma LogFrom(l: Layout, s: State, op: nat, sector: uint) returns (s': State)
    requires Reachable(l, s) && s.up && WithinQuota(l, s, op, sector) && sector !in s.lh && !TooBig(l, |s.lh|)
    ensures Reachable(l, s') && s'.up
    ensures s'.lh == s.lh + [sector] && s'.ops == s.ops[op := s.ops[op] + 1]
  {
    var step := LogWrite(op, sector, ZeroBlock());
    ReachableStep(l, s, step);
    s' := Do(l, s, step);
  }

  /** The state after three begin_op. */
  lemma ThreeOps(l: Layout, d: Disk) returns (s: State)
    requires Fits(l, d) && Word(d[l.start], 0) == 0
    ensures Reachable(l, s) && s.up && s.lh == []
    ensures s.ops == map[0 := 0, 1 := 0, 2 := 0]
  {
    var s0 := State(d, d, [], map[], 0, false, true, [], 0, {}, d, [], [], [], []);
    assert Legal(l, s0, []) && Run(l, s0, []) == s0;
    var s1 := BeginFrom(l, s0);
    assert s1.ops == map[0 := 0];
    var s2 := BeginFrom(l, s1);
    assert s2.ops == map[0 := 0, 1 := 0];
    s := BeginFrom(l, s2);
  }

  /** What each of three operations used up when together they logged k blocks. */
  function Used(k: nat, p: nat): (u: nat) {
    if k >= MAXOPBLOCKS * p + MAXOPBLOCKS then MAXOPBLOCKS
    else if k >= MAXOPBLOCKS * p then k - MAXOPBLOCKS * p
    else 0
  }

  function UsedBy(k: nat): (m: map<nat, nat>) {
    map[0 := Used(k, 0), 1 := Used(k, 1), 2 := Used(k, 2)]
  }

  lemma UsedNext(k: nat)
    requires k < LOGSIZE
    ensures var op := k / MAXOPBLOCKS;
            op in UsedBy(k) && Used(k, op) < MAXOPBLOCKS && UsedBy(k + 1) == UsedBy(k)[op := UsedBy(k)[op] + 1]
  {
  }

  /** The state after three begin_op and k log_writes of new blocks. */
  lemma {:induction false} Filled(l: Layout, d: Disk, k: nat) returns (s: State)
    requires Fits(l, d) && Word(d[l.start], 0) == 0
    requires k <= LOGSIZE <= l.start && k < l.size
    ensures Reachable(l, s) && s.up
    ensures s.lh == Sectors(k) && s.ops == UsedBy(k)
  {
    if k == 0 {
      s := ThreeOps(l, d);
    } else {
      var t := Filled(l, d, k - 1);
      s := FilledNext(l, t, k - 1);
    }
  }

  lemma FilledNext(l: Layout, t: State, j: nat) returns (s: State)
    requires Reachable(l, t) && t.up && j < LOGSIZE <= l.start && j + 1 < l.size
    requires t.lh == Sectors(j) && t.ops == UsedBy(j)
    ensures Reachable(l, s) && s.up && s.lh == Sectors(j + 1) && s.ops == UsedBy(j + 1)
  {
    UsedNext(j);
    assert t.ops[j / MAXOPBLOCKS] == Used(j, j / MAXOPBLOCKS);
    assert j !in Sectors(j) && Sectors(j) + [j] == Sectors(j + 1);
    s := LogFrom(l, t, j / MAXOPBLOCKS, j);
  }

  /** New writes never panic if and only if the log region has more than LOGSIZE
      blocks. mkfs makes it exactly LOGSIZE. */
  lemma NewWritesNeverPanicIff(l: Layout, d: Disk)
    requires Fits(l, d) && Word(d[l.start], 0) == 0
    requires LOGSIZE <= l.start
    ensures NewWritesNeverPanic(l) <==> l.size > LOGSIZE
  {
    if l.size > LOGSIZE {
      forall s, op, sector | Reachable(l, s) && s.up && WithinQuota(l, s, op, sector) && sector !in s.lh
        ensures !TooBig(l, |s.lh|)
      {
        PanicExactly(l, s, op, sector);
      }
    } else {
      var k := l.size - 1;
      var s := Filled(l, d, k);
      assert k !in Sectors(k);
      assert WithinQuota(l, s, k / MAXOPBLOCKS, k) && TooBig(l, |s.lh|);
    }
  }

  /** Even then a full list makes every rewrite of a logged block panic. */
  lemma FullListPanics(l: Layout, d: Disk) returns (s: State)
    requires Fits(l, d) && Word(d[l.start], 0) == 0
    requires LOGSIZE <= l.start && LOGSIZE < l.size
    ensures Reachable(l, s) && s.up
    ensures WithinQuota(l, s, 0, 0) && 0 in s.lh && TooBig(l, |s.lh|)
  {
    s := Filled(l, d, LOGSIZE);
    assert Sectors(LOGSIZE)[0] == 0;
  }

  // ---- When a commit finds no buffer ----

  /** In every reachable state, everything open can be brought to an end. */
  ghost predicate AlwaysDrains(l: Layout) {
    forall s :: Reachable(l, s) ==> CanDrain(l, s)
  }

  /** That holds if and only if the log region has at most LOGSIZE blocks: with more, the list can
      pin the whole buffer cache. */
  lemma AlwaysDrainsIff(l: Layout, d: Disk)
    requires Fits(l, d) && Word(d[l.start], 0) == 0
    requires LOGSIZE <= l.start
    ensures AlwaysDrains(l) <==> l.size <= LOGSIZE
  {
    if l.size <= LOGSIZE {
      forall s | Reachable(l, s) ensures CanDrain(l, s) {
        var d0 := ReachableInv(l, s);
        SleepersCanBeWoken(l, s);
      }
    } else {
      var s := Filled(l, d, LOGSIZE);
      SleepersCanBeWoken(l, s);
    }
  }

  /** No size of the log region is safe from both panics. */
  lemma NoSizeAvoidsBoth(l: Layout, d: Disk)
    requires Fits(l, d) && Word(d[l.start], 0) == 0
    requires LOGSIZE <= l.start
    ensures NewWritesNeverPanic(l) <==> !AlwaysDrains(l)
  {
    NewWritesNeverPanicIff(l, d);
    AlwaysDrainsIff(l, d);
  }
}
