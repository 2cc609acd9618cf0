/** A run of the pipe in which a reader's wakeup is lost, because a writer was killed. */
module PipeKilled {
  import opened Blocks
  import opened Pipe
  import opened PipeMachine
  import opened PipeSafety

  ghost predicate Reaches(s0: State, s: State) {
    exists steps: seq<Step> :: Legal(s0, steps) && Run(s0, steps) == s
  }

  lemma {:induction false} RunOn(s: State, steps: seq<Step>, step: Step)
    requires Legal(s, steps) && Enabled(Run(s, steps), step)
    ensures Legal(s, steps + [step]) && Run(s, steps + [step]) == Do(Run(s, steps), step)
    decreases |steps|
  {
    var all := steps + [step];
    if steps == [] {
      assert all[1..] == [];
    } else {
      assert all[1..] == steps[1..] + [step];
      RunOn(Do(s, steps[0]), steps[1..], step);
    }
  }

  const READER := 0
  const WRITER := 1

  /** State b where the reader and the writer are as given, and the locks and the mark of a kill. */
  function Sit(b: State, reader: Code, writer: Code, plock: Owner, tlock: Owner, killed: set<nat>): (s: State) {
    b.(procs := map[READER := reader, WRITER := writer], plock := plock, tlock := tlock, killed := killed)
  }

  lemma Next(s0: State, s: State, step: Step, s': State)
    requires Reaches(s0, s) && Enabled(s, step) && s' == Do(s, step)
    ensures Reaches(s0, s')
  {
    var steps: seq<Step> :| Legal(s0, steps) && Run(s0, steps) == s;
    RunOn(s0, steps, step);
  }

  /** A new pipe and two processes. */
  ghost predicate Start(s: State) {
    Init(s) && s.procs == map[READER := Idle, WRITER := Idle]
  }

  const SLEEPER: Code := Asleep(NRead, ReadWait(1), false)

  lemma ReaderLocks(s: State)
    requires Start(s)
    ensures Reaches(s, Sit(s, At(ReadWait(1)), Idle, Process(READER), Nobody, {}))
  {
    var s1 := Sit(s, Lock(ReadWait(1)), Idle, Nobody, Nobody, {});
    assert Legal(s, []) && Run(s, []) == s;
    Next(s, s, StartRead(READER, 1), s1);
    Next(s, s1, TakeLock(READER), Sit(s, At(ReadWait(1)), Idle, Process(READER), Nobody, {}));
  }

  lemma ReaderLooks(s: State)
    requires Start(s)
    ensures Reaches(s, Sit(s, SleepBoth(NRead, ReadWait(1)), Idle, Process(READER), Process(READER), {}))
  {
    var s2 := Sit(s, At(ReadWait(1)), Idle, Process(READER), Nobody, {});
    var s3 := Sit(s, SleepLock(NRead, ReadWait(1)), Idle, Process(READER), Nobody, {});
    ReaderLocks(s);
    Next(s, s2, Perform(READER), s3);
    Next(s, s3, TakeTable(READER), Sit(s, SleepBoth(NRead, ReadWait(1)), Idle, Process(READER), Process(READER), {}));
  }

  lemma ReaderSwitches(s: State)
    requires Start(s)
    ensures Reaches(s, Sit(s, SLEEPER, Idle, Nobody, Scheduler, {}))
  {
    var s4 := Sit(s, SleepBoth(NRead, ReadWait(1)), Idle, Process(READER), Process(READER), {});
    var s5 := Sit(s, SleepTable(NRead, ReadWait(1)), Idle, Nobody, Process(READER), {});
    ReaderLooks(s);
    Next(s, s4, DropLock(READER), s5);
    Next(s, s5, SwitchOut(READER), Sit(s, SLEEPER, Idle, Nobody, Scheduler, {}));
  }

  lemma ReaderSleeps(s: State)
    requires Start(s)
    ensures Reaches(s, Sit(s, SLEEPER, Idle, Nobody, Nobody, {}))
  {
    ReaderSwitches(s);
    Next(s, Sit(s, SLEEPER, Idle, Nobody, Scheduler, {}), SchedulerUnlock, Sit(s, SLEEPER, Idle, Nobody, Nobody, {}));
  }

  /** The state in which the killed writer has stored the first k of 513 zeroes. */
  ghost predicate Storing(s: State, k: nat) {
    && k <= PIPESIZE && s.readopen && s.writeopen
    && s == Sit(s, SLEEPER, At(WriteLoop(Zeroes(PIPESIZE + 1 - k))), Process(WRITER), Nobody, {WRITER})
    && Holds(s.ring, s.stored, s.removed) && |s.stored| == k && s.removed == []
  }

  function Zeroes(n: nat): (z: seq<byte>) {
    seq(n, _ => 0)
  }

  lemma WriterStarts(s: State) returns (s': State)
    requires Start(s)
    ensures Reaches(s, s') && Storing(s', 0)
  {
    var todo := WriteLoop(Zeroes(PIPESIZE + 1));
    var s1 := Sit(s, SLEEPER, Lock(todo), Nobody, Nobody, {});
    var s2 := Sit(s, SLEEPER, At(todo), Process(WRITER), Nobody, {});
    s' := Sit(s, SLEEPER, At(todo), Process(WRITER), Nobody, {WRITER});
    ReaderSleeps(s);
    Next(s, Sit(s, SLEEPER, Idle, Nobody, Nobody, {}), StartWrite(WRITER, Zeroes(PIPESIZE + 1)), s1);
    Next(s, s1, TakeLock(WRITER), s2);
    Next(s, s2, Kill(WRITER), s');
  }

  lemma StoreOne(s0: State, s: State, k: nat) returns (s': State)
    requires Reaches(s0, s) && Storing(s, k) && k < PIPESIZE
    ensures Reaches(s0, s') && Storing(s', k + 1)
  {
    Tests(s.ring, s.stored, s.removed);
    PutHolds(s.ring, s.stored, s.removed, 0);
    assert Zeroes(PIPESIZE + 1 - k)[1..] == Zeroes(PIPESIZE - k);
    s' := Do(s, Perform(WRITER));
    Next(s0, s, Perform(WRITER), s');
  }

  lemma {:induction false} Stores(s0: State, s: State, k: nat) returns (s': State)
    requires Reaches(s0, s) && Storing(s, 0) && k <= PIPESIZE
    ensures Reaches(s0, s') && Storing(s', k)
  {
    if k == 0 {
      s' := s;
    } else {
      s' := Stores(s0, s, k - 1);
      s' := StoreOne(s0, s', k - 1);
    }
  }

  lemma GivesUpFull(s0: State, t: State) returns (s: State)
    requires Reaches(s0, t) && Storing(t, PIPESIZE)
    ensures Reaches(s0, s) && s == Sit(t, SLEEPER, Idle, Nobody, Nobody, {WRITER})
  {
    Tests(t.ring, t.stored, t.removed);
    var u := Sit(t, SLEEPER, At(Unlock), Process(WRITER), Nobody, {WRITER});
    s := Sit(t, SLEEPER, Idle, Nobody, Nobody, {WRITER});
    Next(s0, t, Perform(WRITER), u);
    Next(s0, u, Perform(WRITER), s);
  }

  lemma NobodyWakes(s: State)
    requires s == Sit(s, SLEEPER, Idle, Nobody, Nobody, {WRITER}) && Holds(s.ring, s.stored, s.removed)
    requires |s.stored| == PIPESIZE && s.removed == []
    ensures !ReadersFine(s)
  {
    Tests(s.ring, s.stored, s.removed);
    assert READER in s.procs && SleepyReader(s.procs[READER]) && !Justified(s, READER);
  }

  /** A reader sleeps on the empty pipe. A writer of 513 bytes is killed after its call has started, stores 512 and
      gives up. The reader then sleeps on a full pipe that is open for writing, and nobody has the lock. */
  lemma LostWakeup(s0: State) returns (s: State)
    requires Start(s0)
    ensures Reaches(s0, s) && s == Sit(s, SLEEPER, Idle, Nobody, Nobody, {WRITER})
    ensures s.writeopen && |s.stored| == PIPESIZE && s.removed == [] && !ReadersFine(s)
  {
    var t := WriterStarts(s0);
    t := Stores(s0, t, PIPESIZE);
    s := GivesUpFull(s0, t);
    NobodyWakes(s);
  }
}
