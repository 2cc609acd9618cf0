/** pipe.c, with sleep and wakeup of proc.c spelled out: any number of processes
    read, write and close one pipe, and every acquire, release and context switch
    is a step of its own. The two locks are the pipe's and the process table's;
    the scheduler holds the latter while it switches. Any process may be killed at
    any time. */
module PipeMachine {
  import opened Blocks
  import opened Pipe

  /** The addresses that processes sleep on: &p->nread and &p->nwrite. */
  datatype Chan = NRead | NWrite

  datatype Side = Reading | Writing

  /** What a process does next once it has the pipe lock. */
  datatype Act =
    | WriteLoop(todo: seq<byte>)
    | WriteSleep(todo: seq<byte>)
    | ReadWait(n: nat)
    | ReadCopy(n: nat, got: seq<byte>)
    | CloseSide(side: Side)
    | Unlock

  /** Where a process is. */
  datatype Code =
    | Idle
    | Lock(k: Act)                                    // spins on the pipe lock
    | At(k: Act)                                      // has the pipe lock
    | WakeLock(chan: Chan, k: Act)                    // wakeup: spins on the table lock
    | WakeScan(chan: Chan, k: Act, left: set<nat>)    // wakeup1: has both locks
    | SleepLock(chan: Chan, k: Act)                   // sleep: spins on the table lock
    | SleepBoth(chan: Chan, k: Act)                   // sleep: has both locks
    | SleepTable(chan: Chan, k: Act)                  // sleep: gave up the pipe lock
    | Asleep(chan: Chan, k: Act, runnable: bool)      // switched out: SLEEPING or RUNNABLE
    | Resumed(k: Act)                                 // switched in, has the table lock

  datatype Owner = Nobody | Process(p: nat) | Scheduler

  datatype State = State(
    ring: Ring,
    readopen: bool,
    writeopen: bool,
    readers: bool,     // some file descriptor refers to the read end
    writers: bool,
    plock: Owner,
    tlock: Owner,
    procs: map<nat, Code>,
    killed: set<nat>,
    stored: seq<byte>,    // history: every byte put into the pipe
    removed: seq<byte>)   // history: every byte taken out of it

  datatype Step =
    | StartWrite(p: nat, bytes: seq<byte>)
    | StartRead(p: nat, n: nat)
    | StartClose(p: nat, side: Side)
    | TakeLock(p: nat)
    | Perform(p: nat)
    | TakeTable(p: nat)
    | ScanOne(p: nat, q: nat)
    | ScanDone(p: nat)
    | DropLock(p: nat)
    | SwitchOut(p: nat)
    | SchedulerLock
    | SchedulerUnlock
    | SwitchIn(p: nat)
    | DropTable(p: nat)
    | Kill(p: nat)

  /** The process is in the code of that end of the pipe and may come to sleep there. */
  predicate Uses(c: Code, side: Side) {
    && !c.Idle?
    && match side
       case Reading => c.k.ReadWait? || c.k.ReadCopy?
       case Writing => c.k.WriteLoop? || c.k.WriteSleep?
  }

  predicate Enabled(s: State, step: Step) {
    match step
    case StartWrite(p, _) => p in s.procs && s.procs[p] == Idle && s.writers
    case StartRead(p, _) => p in s.procs && s.procs[p] == Idle && s.readers
    case StartClose(p, side) =>
      && p in s.procs && s.procs[p] == Idle
      && (if side == Reading then s.readers else s.writers)
      && forall q :: q in s.procs ==> !Uses(s.procs[q], side)
    case TakeLock(p) => p in s.procs && s.procs[p].Lock? && s.plock == Nobody
    case Perform(p) => p in s.procs && s.procs[p].At? && |s.ring.data| == PIPESIZE
    case TakeTable(p) => p in s.procs && (s.procs[p].WakeLock? || s.procs[p].SleepLock?) && s.tlock == Nobody
    case ScanOne(p, q) => p in s.procs && s.procs[p].WakeScan? && q in s.procs[p].left && q in s.procs && q != p
    case ScanDone(p) => p in s.procs && s.procs[p].WakeScan? && s.procs[p].left == {}
    case DropLock(p) => p in s.procs && s.procs[p].SleepBoth?
    case SwitchOut(p) => p in s.procs && s.procs[p].SleepTable?
    case SchedulerLock => s.tlock == Nobody
    case SchedulerUnlock => s.tlock == Scheduler
    case SwitchIn(p) => p in s.procs && s.procs[p].Asleep? && s.procs[p].runnable && s.tlock == Scheduler
    case DropTable(p) => p in s.procs && s.procs[p].Resumed?
    case Kill(p) => p in s.procs && s.tlock == Nobody
  }

  function Goto(s: State, p: nat, c: Code): (s': State)
    requires p in s.procs
    ensures s'.procs.Keys == s.procs.Keys
  {
    s.(procs := s.procs[p := c])
  }

  /** Where an action of the holder of the pipe lock takes it. */
  function NextCode(s: State, p: nat, k: Act): (c: Code)
    requires |s.ring.data| == PIPESIZE
  {
    match k
    case WriteLoop(todo) =>
      if todo == [] then WakeLock(NRead, Unlock)
      else if !Full(s.ring) then At(WriteLoop(todo[1..]))
      else if !s.readopen || p in s.killed then At(Unlock)
      else WakeLock(NRead, WriteSleep(todo))
    case WriteSleep(todo) => SleepLock(NWrite, WriteLoop(todo))
    case ReadWait(n) =>
      if !(Empty(s.ring) && s.writeopen) then At(ReadCopy(n, []))
      else if p in s.killed then At(Unlock)
      else SleepLock(NRead, ReadWait(n))
    case ReadCopy(n, got) =>
      if n == 0 || Empty(s.ring) then WakeLock(NWrite, Unlock) else At(ReadCopy(n - 1, got + [Front(s.ring)]))
    case CloseSide(Writing) => WakeLock(NRead, Unlock)
    case CloseSide(Reading) => WakeLock(NWrite, Unlock)
    case Unlock => Idle
  }

  /** What the action does to the pipe. */
  function Effect(s: State, k: Act): (s': State)
    requires |s.ring.data| == PIPESIZE
    ensures s'.procs == s.procs && s'.killed == s.killed && s'.tlock == s.tlock
    ensures s'.readers == s.readers && s'.writers == s.writers
  {
    match k
    case WriteLoop(todo) =>
      if todo == [] || Full(s.ring) then s else s.(ring := Put(s.ring, todo[0]), stored := s.stored + [todo[0]])
    case ReadCopy(n, got) =>
      if n == 0 || Empty(s.ring) then s else s.(ring := Drop(s.ring), removed := s.removed + [Front(s.ring)])
    case CloseSide(Writing) => s.(writeopen := false)
    case CloseSide(Reading) => s.(readopen := false)
    case Unlock => s.(plock := Nobody)
    case _ => s
  }

  /** One action of the holder of the pipe lock. */
  function Act1(s: State, p: nat, k: Act): (s': State)
    requires |s.ring.data| == PIPESIZE && p in s.procs
    ensures s'.procs.Keys == s.procs.Keys
  {
    Goto(Effect(s, k), p, NextCode(s, p, k))
  }

  function Do(s: State, step: Step): (s': State)
    requires Enabled(s, step)
    ensures s'.procs.Keys == s.procs.Keys
  {
    match step
    case StartWrite(p, bytes) => Goto(s, p, Lock(WriteLoop(bytes)))
    case StartRead(p, n) => Goto(s, p, Lock(ReadWait(n)))
    case StartClose(p, side) =>
      var s1 := Goto(s, p, Lock(CloseSide(side)));
      if side == Reading then s1.(readers := false) else s1.(writers := false)
    case TakeLock(p) => Goto(s, p, At(s.procs[p].k)).(plock := Process(p))
    case Perform(p) => Act1(s, p, s.procs[p].k)
    case TakeTable(p) =>
      var c := s.procs[p];
      Goto(s, p, if c.WakeLock? then WakeScan(c.chan, c.k, s.procs.Keys - {p})
          else SleepBoth(c.chan, c.k)).(tlock := Process(p))
    case ScanOne(p, q) =>
      var c, d := s.procs[p], s.procs[q];
      var s1 := Goto(s, p, c.(left := c.left - {q}));
      if d.Asleep? && !d.runnable && d.chan == c.chan then Goto(s1, q, d.(runnable := true)) else s1
    case ScanDone(p) => Goto(s, p, At(s.procs[p].k)).(tlock := Nobody)
    case DropLock(p) => Goto(s, p, SleepTable(s.procs[p].chan, s.procs[p].k)).(plock := Nobody)
    case SwitchOut(p) => Goto(s, p, Asleep(s.procs[p].chan, s.procs[p].k, false)).(tlock := Scheduler)
    case SchedulerLock => s.(tlock := Scheduler)
    case SchedulerUnlock => s.(tlock := Nobody)
    case SwitchIn(p) => Goto(s, p, Resumed(s.procs[p].k)).(tlock := Process(p))
    case DropTable(p) => Goto(s, p, Lock(s.procs[p].k)).(tlock := Nobody)
    case Kill(p) =>
      var c := s.procs[p];
      Goto(s, p, if c.Asleep? then c.(runnable := true) else c).(killed := s.killed + {p})
  }

  ghost predicate Init(s: State) {
    && Holds(s.ring, [], []) && s.stored == [] && s.removed == []
    && s.readopen && s.writeopen && s.readers && s.writers
    && s.plock == Nobody && s.tlock == Nobody && s.killed == {}
    && forall p :: p in s.procs ==> s.procs[p] == Idle
  }

  ghost predicate Legal(s: State, steps: seq<Step>)
    decreases |steps|
  {
    steps == [] || (Enabled(s, steps[0]) && Legal(Do(s, steps[0]), steps[1..]))
  }

  ghost function Run(s: State, steps: seq<Step>): (s': State)
    requires Legal(s, steps)
    decreases |steps|
  {
    if steps == [] then s else Run(Do(s, steps[0]), steps[1..])
  }
}
