/** What every interleaving of pipe readers, writers and closers keeps. */
module PipeSafety {
  import opened Blocks
  import opened Sequences
  import opened Pipe
  import opened PipeMachine

  predicate HasLock(c: Code) {
    c.At? || c.WakeLock? || c.WakeScan? || c.SleepLock? || c.SleepBoth?
  }

  predicate HasTable(c: Code) {
    c.WakeScan? || c.SleepBoth? || c.SleepTable? || c.Resumed?
  }

  /** Going to sleep, or sleeping, and not yet woken. */
  predicate Sleepy(c: Code) {
    c.SleepLock? || c.SleepBoth? || c.SleepTable? || (c.Asleep? && !c.runnable)
  }

  /** What a sleeper on chan waits for has not happened. */
  predicate Blocked(s: State, chan: Chan) {
    match chan
    case NRead => Empty(s.ring) && s.writeopen
    case NWrite => Full(s.ring) && s.readopen
  }

  /** Readers sleep on nread before they look again, writers on nwrite. */
  predicate Proper(c: Code) {
    && (Sleepy(c) || c.Asleep? ==> if c.chan == NRead then c.k.ReadWait? else c.k.WriteLoop?)
    && (c.WakeLock? || c.WakeScan? ==> c.k.Unlock? || (c.chan == NRead && c.k.WriteSleep?))
    && (c.Lock? || c.Resumed? ==> !c.k.ReadCopy? && !c.k.WriteSleep?)
  }

  /** A process in state c will still wake process q from its sleep on chan. */
  predicate Owes(c: Code, chan: Chan, q: nat) {
    || (c.At? && (if chan == NRead then c.k.WriteLoop? else c.k.ReadCopy?))
    || (c.WakeLock? && c.chan == chan)
    || (c.WakeScan? && c.chan == chan && q in c.left)
  }

  ghost predicate SomeoneOwes(s: State, chan: Chan, q: nat) {
    exists w :: w in s.procs && Owes(s.procs[w], chan, q)
  }

  /** A sleeper's condition is still false, or someone who made it true has yet to wake it. */
  ghost predicate Justified(s: State, q: nat)
    requires q in s.procs && Sleepy(s.procs[q])
  {
    Blocked(s, s.procs[q].chan) || SomeoneOwes(s, s.procs[q].chan, q)
  }

  /** A process that goes to sleep has its reason as long as it has the pipe lock. */
  predicate Entitled(s: State, q: nat)
    requires q in s.procs
  {
    s.procs[q].SleepLock? || s.procs[q].SleepBoth? ==> Blocked(s, s.procs[q].chan)
  }

  /** No wakeup of q is lost. */
  ghost predicate NotLost(s: State, q: nat)
    requires q in s.procs
  {
    Entitled(s, q) && (Sleepy(s.procs[q]) ==> Justified(s, q))
  }

  /** No wakeup of q is lost, if it is a writer. */
  ghost predicate Secure(s: State, q: nat)
    requires q in s.procs
  {
    Entitled(s, q) && (Sleepy(s.procs[q]) && s.procs[q].chan == NWrite ==> Justified(s, q))
  }

  predicate SleepyReader(c: Code) {
    Sleepy(c) && c.chan == NRead
  }

  /** No wakeup of a reader is lost. */
  ghost predicate ReadersFine(s: State) {
    forall q :: q in s.procs && SleepyReader(s.procs[q]) ==> Justified(s, q)
  }

  /** A killed writer finds the pipe full and gives up, without a wakeup. */
  predicate GivesUp(s: State, step: Step) {
    && step.Perform? && step.p in s.procs && step.p in s.killed
    && s.procs[step.p].At? && s.procs[step.p].k.WriteLoop? && s.procs[step.p].k.todo != []
    && Full(s.ring) && s.readopen
  }

  /** It does so while a reader sleeps. */
  ghost predicate Quits(s: State, step: Step) {
    GivesUp(s, step) && exists q :: q in s.procs && SleepyReader(s.procs[q])
  }

  /** What holds of a single process. */
  ghost predicate Orderly(s: State, p: nat)
    requires p in s.procs
  {
    var c := s.procs[p];
    && Proper(c)
    && (HasLock(c) <==> s.plock == Process(p))
    && (HasTable(c) <==> s.tlock == Process(p))
    && (Uses(c, Reading) ==> s.readers)
    && (Uses(c, Writing) ==> s.writers)
    && (!c.Idle? && c.k == CloseSide(Reading) ==> !s.readers)
    && (!c.Idle? && c.k == CloseSide(Writing) ==> !s.writers)
    && (HasLock(c) && c.k.WriteSleep? ==> Blocked(s, NWrite))
    && (c.At? && c.k.ReadCopy? ==> Suffix(c.k.got, s.removed))
    && (c.WakeScan? ==> c.left <= s.procs.Keys - {p})
  }

  ghost predicate Flags(s: State) {
    && (s.readers ==> s.readopen)
    && (s.writers ==> s.writeopen)
    && !s.plock.Scheduler?
    && (s.plock.Process? ==> s.plock.p in s.procs)
    && (s.tlock.Process? ==> s.tlock.p in s.procs)
  }

  ghost predicate AllOrderly(s: State) {
    Flags(s) && forall p :: p in s.procs ==> Orderly(s, p)
  }

  ghost predicate Inv(s: State) {
    && Holds(s.ring, s.stored, s.removed)
    && AllOrderly(s)
    && (forall p :: p in s.procs ==> Secure(s, p))
  }

  lemma InitInv(s: State)
    requires Init(s)
    ensures Inv(s)
  {
  }

  // ---- Each step ----

  lemma ActBuffer(s: State, p: nat, k: Act)
    requires Holds(s.ring, s.stored, s.removed) && Acting(s, p, k)
    ensures var s' := Act1(s, p, k); Holds(s'.ring, s'.stored, s'.removed)
  {
    if k.WriteLoop? && k.todo != [] && !Full(s.ring) {
      PutHolds(s.ring, s.stored, s.removed, k.todo[0]);
    } else if k.ReadCopy? && !Empty(s.ring) {
      DropHolds(s.ring, s.stored, s.removed);
    }
  }

  lemma ActFlags(s: State, p: nat, k: Act)
    requires AllOrderly(s) && Acting(s, p, k)
    ensures Flags(Act1(s, p, k))
  {
    assert Orderly(s, p);
  }

  lemma FlagsStep(s: State, step: Step)
    requires AllOrderly(s) && Enabled(s, step)
    ensures Flags(Do(s, step))
  {
    if step.Perform? {
      ActFlags(s, step.p, s.procs[step.p].k);
    }
  }

  /** Process p has the pipe lock and k to do. */
  ghost predicate Acting(s: State, p: nat, k: Act) {
    p in s.procs && s.procs[p] == At(k) && |s.ring.data| == PIPESIZE
  }

  lemma ActSelf(s: State, p: nat, k: Act)
    requires AllOrderly(s) && Acting(s, p, k) && !k.ReadCopy? && !k.WriteLoop?
    ensures Orderly(Act1(s, p, k), p)
  {
    assert Orderly(s, p);
  }

  lemma WriteSelf(s: State, p: nat, k: Act)
    requires AllOrderly(s) && Acting(s, p, k) && k.WriteLoop?
    ensures Orderly(Act1(s, p, k), p)
  {
    assert Orderly(s, p);
  }

  lemma CopySelf(s: State, p: nat, k: Act)
    requires AllOrderly(s) && Acting(s, p, k) && k.ReadCopy?
    ensures Orderly(Act1(s, p, k), p)
  {
    assert Orderly(s, p);
    if k.n > 0 && !Empty(s.ring) {
      assert Suffix(k.got + [Front(s.ring)], s.removed + [Front(s.ring)]);
    }
  }

  /** The holder of the pipe lock changes nothing that another process relies on. */
  lemma ActOther(s: State, w: nat, k: Act, p: nat)
    requires AllOrderly(s) && Acting(s, w, k) && p in s.procs && p != w
    ensures Orderly(Act1(s, w, k), p)
  {
    assert Orderly(s, p) && Orderly(s, w);
    var s' := Act1(s, w, k);
    assert s'.procs[p] == s.procs[p] && !HasLock(s.procs[p]);
    assert s'.tlock == s.tlock && s'.readers == s.readers && s'.writers == s.writers;
  }

  lemma ScanOrderly(s: State, w: nat, q: nat, p: nat)
    requires AllOrderly(s) && Enabled(s, ScanOne(w, q)) && p in s.procs
    ensures Orderly(Do(s, ScanOne(w, q)), p)
  {
    assert Orderly(s, p) && Orderly(s, w) && Orderly(s, q);
  }

  lemma ScannedOrderly(s: State, w: nat, p: nat)
    requires AllOrderly(s) && Enabled(s, ScanDone(w)) && p in s.procs
    ensures Orderly(Do(s, ScanDone(w)), p)
  {
    assert Orderly(s, p) && Orderly(s, w);
  }

  lemma StartOrderly(s: State, step: Step, p: nat)
    requires AllOrderly(s) && Enabled(s, step) && p in s.procs
    requires step.StartWrite? || step.StartRead? || step.StartClose?
    ensures Orderly(Do(s, step), p)
  {
    assert Orderly(s, p);
  }

  lemma LockOrderly(s: State, step: Step, p: nat)
    requires AllOrderly(s) && Enabled(s, step) && p in s.procs && Entitled(s, p)
    requires step.TakeLock? || step.TakeTable? || step.DropLock? || step.DropTable?
    ensures Orderly(Do(s, step), p)
  {
    assert Orderly(s, p) && Orderly(s, step.p);
  }

  lemma SwitchOrderly(s: State, step: Step, p: nat)
    requires AllOrderly(s) && Enabled(s, step) && p in s.procs
    requires step.SwitchOut? || step.SwitchIn? || step.SchedulerLock? || step.SchedulerUnlock? || step.Kill?
    ensures Orderly(Do(s, step), p)
  {
    assert Orderly(s, p);
    if step.SwitchOut? || step.SwitchIn? || step.Kill? {
      assert Orderly(s, step.p);
    }
  }

  lemma OrderlyStep(s: State, step: Step, p: nat)
    requires AllOrderly(s) && Enabled(s, step) && p in s.procs && Entitled(s, p)
    ensures Orderly(Do(s, step), p)
  {
    match step
    case Perform(w) =>
      var k := s.procs[w].k;
      if w != p {
        ActOther(s, w, k, p);
      } else if k.ReadCopy? {
        CopySelf(s, p, k);
      } else if k.WriteLoop? {
        WriteSelf(s, p, k);
      } else {
        ActSelf(s, p, k);
      }
    case ScanOne(w, q) => ScanOrderly(s, w, q, p);
    case ScanDone(w) => ScannedOrderly(s, w, p);
    case StartWrite(_, _) => StartOrderly(s, step, p);
    case StartRead(_, _) => StartOrderly(s, step, p);
    case StartClose(_, _) => StartOrderly(s, step, p);
    case TakeLock(_) => LockOrderly(s, step, p);
    case TakeTable(_) => LockOrderly(s, step, p);
    case DropLock(_) => LockOrderly(s, step, p);
    case DropTable(_) => LockOrderly(s, step, p);
    case _ => SwitchOrderly(s, step, p);
  }

  /** While w has the pipe lock and acts, only w can owe anybody a wakeup. */
  lemma HolderOwes(s: State, w: nat, k: Act, q: nat)
    requires AllOrderly(s) && Acting(s, w, k) && q in s.procs && Sleepy(s.procs[q]) && Justified(s, q)
    ensures Blocked(s, s.procs[q].chan) || Owes(At(k), s.procs[q].chan, q)
  {
    var c := s.procs[q];
    assert Orderly(s, w);
    if !Blocked(s, c.chan) {
      var v :| v in s.procs && Owes(s.procs[v], c.chan, q);
      assert Orderly(s, v);
    }
  }

  /** The holder of the lock either leaves the condition of a sleeper as it is or
      goes on owing it a wakeup. */
  lemma ActOwes(s: State, w: nat, k: Act, chan: Chan, q: nat)
    requires Acting(s, w, k) && Orderly(s, w) && (Blocked(s, chan) || Owes(At(k), chan, q))
    requires GivesUp(s, Perform(w)) ==> chan == NWrite
    requires chan == NRead ==> s.readopen
    ensures var s' := Act1(s, w, k); Blocked(s', chan) || Owes(s'.procs[w], chan, q)
  {
  }

  lemma ActSleeper(s: State, w: nat, k: Act)
    requires AllOrderly(s) && Acting(s, w, k)
    ensures NotLost(Act1(s, w, k), w)
  {
    assert Orderly(s, w);
  }

  lemma ActNotLost(s: State, w: nat, k: Act, q: nat)
    requires AllOrderly(s) && Acting(s, w, k) && q in s.procs && NotLost(s, q)
    requires GivesUp(s, Perform(w)) ==> !SleepyReader(s.procs[q])
    ensures NotLost(Act1(s, w, k), q)
  {
    var s' := Act1(s, w, k);
    assert Orderly(s, q) && Orderly(s, w);
    if q == w {
      ActSleeper(s, w, k);
    } else {
      if Sleepy(s.procs[q]) {
        HolderOwes(s, w, k, q);
        ActOwes(s, w, k, s.procs[q].chan, q);
        assert w in s'.procs;
      }
    }
  }

  /** The scan of wakeup1 passes q by only after it woke it, or found it awake. */
  lemma ScanNotLost(s: State, w: nat, r: nat, q: nat)
    requires AllOrderly(s) && Enabled(s, ScanOne(w, r)) && q in s.procs && NotLost(s, q)
    ensures NotLost(Do(s, ScanOne(w, r)), q)
  {
    var s' := Do(s, ScanOne(w, r));
    var c := s.procs[q];
    assert Orderly(s, q) && Orderly(s, w);
    if Sleepy(s'.procs[q]) && !Blocked(s, c.chan) {
      var v :| v in s.procs && Owes(s.procs[v], c.chan, q);
      assert Orderly(s, v);
      assert v == w;
      assert Owes(s'.procs[w], c.chan, q);
    }
  }

  lemma ScannedNotLost(s: State, w: nat, q: nat)
    requires AllOrderly(s) && Enabled(s, ScanDone(w)) && q in s.procs && NotLost(s, q)
    ensures NotLost(Do(s, ScanDone(w)), q)
  {
    var c := s.procs[q];
    assert Orderly(s, q) && Orderly(s, w);
    if Sleepy(c) {
      forall v | v in s.procs ensures !Owes(s.procs[v], c.chan, q) {
        assert Orderly(s, v);
      }
      assert Blocked(s, c.chan);
    }
  }

  lemma OtherNotLost(s: State, step: Step, q: nat)
    requires AllOrderly(s) && Enabled(s, step) && q in s.procs && NotLost(s, q)
    requires !step.Perform? && !step.ScanOne? && !step.ScanDone?
    ensures NotLost(Do(s, step), q)
  {
    var s' := Do(s, step);
    var c' := s'.procs[q];
    assert Orderly(s, q);
    if Sleepy(c') && !Blocked(s', c'.chan) {
      var v :| v in s.procs && Owes(s.procs[v], c'.chan, q);
      assert Orderly(s, v);
      assert Owes(s'.procs[v], c'.chan, q);
    }
  }

  lemma NotLostStep(s: State, step: Step, q: nat)
    requires AllOrderly(s) && Enabled(s, step) && q in s.procs && NotLost(s, q)
    requires GivesUp(s, step) ==> !SleepyReader(s.procs[q])
    ensures NotLost(Do(s, step), q)
  {
    if step.Perform? {
      ActNotLost(s, step.p, s.procs[step.p].k, q);
    } else if step.ScanOne? {
      ScanNotLost(s, step.p, step.q, q);
    } else if step.ScanDone? {
      ScannedNotLost(s, step.p, q);
    } else {
      OtherNotLost(s, step, q);
    }
  }

  /** A reader without the pipe lock stays one, or stops to sleep. */
  lemma ReaderSleepsOn(s: State, step: Step, q: nat)
    requires AllOrderly(s) && Enabled(s, step) && q in s.procs
    requires SleepyReader(s.procs[q]) && !HasLock(s.procs[q])
    ensures Secure(Do(s, step), q)
  {
    var c := Do(s, step).procs[q];
    assert c == s.procs[q] || c.Resumed? || (c.Asleep? && c.chan == NRead);
  }

  lemma SecureStep(s: State, step: Step, q: nat)
    requires AllOrderly(s) && Enabled(s, step) && q in s.procs && Secure(s, q)
    ensures Secure(Do(s, step), q)
  {
    if SleepyReader(s.procs[q]) && !HasLock(s.procs[q]) {
      ReaderSleepsOn(s, step, q);
    } else {
      if GivesUp(s, step) {
        assert Orderly(s, step.p) && Orderly(s, q);
      }
      NotLostStep(s, step, q);
    }
  }

  lemma StepKeeps(s: State, step: Step)
    requires Inv(s) && Enabled(s, step)
    ensures Inv(Do(s, step))
  {
    var s' := Do(s, step);
    if step.Perform? {
      ActBuffer(s, step.p, s.procs[step.p].k);
    }
    FlagsStep(s, step);
    forall p | p in s'.procs ensures Orderly(s', p) && Secure(s', p) {
      OrderlyStep(s, step, p);
      SecureStep(s, step, p);
    }
  }

  /** A step loses a reader's wakeup if and only if a killed writer gives up on a full pipe while a reader sleeps. */
  lemma ReadersStep(s: State, step: Step)
    requires Inv(s) && ReadersFine(s) && Enabled(s, step)
    ensures ReadersFine(Do(s, step)) <==> !Quits(s, step)
  {
    var s' := Do(s, step);
    if Quits(s, step) {
      var q :| q in s.procs && SleepyReader(s.procs[q]);
      assert Orderly(s, step.p) && Orderly(s, q);
      Tests(s.ring, s.stored, s.removed);
      forall v | v in s'.procs ensures !Owes(s'.procs[v], NRead, q) {
        assert Orderly(s, v);
      }
      assert s'.procs[q] == s.procs[q] && !Justified(s', q);
    } else {
      forall q | q in s'.procs && SleepyReader(s'.procs[q]) ensures Justified(s', q) {
        assert NotLost(s, q);
        NotLostStep(s, step, q);
      }
    }
  }

  lemma {:induction false} RunKeeps(s: State, steps: seq<Step>)
    requires Inv(s) && Legal(s, steps)
    ensures Inv(Run(s, steps))
    decreases |steps|
  {
    if steps != [] {
      StepKeeps(s, steps[0]);
      RunKeeps(Do(s, steps[0]), steps[1..]);
    }
  }

  // ---- Theorems about all runs ----

  /** Bytes come out in the order in which they went in, none is lost or made up,
      and at most 512 are under way. */
  lemma Fifo(s0: State, steps: seq<Step>)
    requires Init(s0) && Legal(s0, steps)
    ensures var s := Run(s0, steps);
            && s.removed <= s.stored && |s.stored| - |s.removed| <= PIPESIZE
            && Holds(s.ring, s.stored, s.removed)
            && (forall p :: p in s.procs && s.procs[p].At? && s.procs[p].k.ReadCopy? ==>
                 Suffix(s.procs[p].k.got, s.removed))
  {
    InitInv(s0);
    RunKeeps(s0, steps);
    var s := Run(s0, steps);
    forall p | p in s.procs && s.procs[p].At? && s.procs[p].k.ReadCopy? ensures Suffix(s.procs[p].k.got, s.removed) {
      assert Orderly(s, p);
    }
  }

  /** No wakeup of a reader is lost from s on. */
  ghost predicate ReadersFineAlong(s: State, steps: seq<Step>)
    requires Legal(s, steps)
    decreases |steps|
  {
    ReadersFine(s) && (steps != [] ==> ReadersFineAlong(Do(s, steps[0]), steps[1..]))
  }

  /** No killed writer gives up on a full pipe while a reader sleeps. */
  ghost predicate NobodyQuits(s: State, steps: seq<Step>)
    requires Legal(s, steps)
    decreases |steps|
  {
    steps != [] ==> !Quits(s, steps[0]) && NobodyQuits(Do(s, steps[0]), steps[1..])
  }

  lemma {:induction false} AlongIff(s: State, steps: seq<Step>)
    requires Inv(s) && ReadersFine(s) && Legal(s, steps)
    ensures ReadersFineAlong(s, steps) <==> NobodyQuits(s, steps)
    ensures NobodyQuits(s, steps) ==> ReadersFine(Run(s, steps))
    decreases |steps|
  {
    if steps != [] {
      var s' := Do(s, steps[0]);
      ReadersStep(s, steps[0]);
      StepKeeps(s, steps[0]);
      if Quits(s, steps[0]) {
        assert !ReadersFineAlong(s', steps[1..]);
      } else {
        AlongIff(s', steps[1..]);
      }
    }
  }

  /** A run loses no reader's wakeup, at any time, if and only if no killed writer gives up on a full pipe while a
      reader sleeps. */
  lemma ReadersIff(s0: State, steps: seq<Step>)
    requires Init(s0) && Legal(s0, steps)
    ensures ReadersFineAlong(s0, steps) <==> NobodyQuits(s0, steps)
  {
    InitInv(s0);
    AlongIff(s0, steps);
  }

  /** What a process that sleeps on chan waits for has not happened. */
  predicate Reason(s: State, chan: Chan) {
    match chan
    case NRead => s.stored == s.removed && s.writeopen
    case NWrite => |s.stored| == |s.removed| + PIPESIZE && s.readopen
  }

  /** No lost wakeup: a writer that sleeps while there is room will be woken by the process that has the pipe lock,
      and so will a reader that sleeps while there is something to read, in runs in which no killed writer gives up
      on a full pipe while a reader sleeps. While nobody has the lock, they sleep with reason only. */
  lemma NoLostWakeup(s0: State, steps: seq<Step>, q: nat)
    requires Init(s0) && Legal(s0, steps)
    requires var s := Run(s0, steps); q in s.procs && s.procs[q].Asleep? && !s.procs[q].runnable
    ensures var s := Run(s0, steps);
            var chan := s.procs[q].chan;
            chan == NWrite || NobodyQuits(s0, steps) ==>
              && (Reason(s, chan) || (s.plock.Process? && s.plock.p in s.procs && Owes(s.procs[s.plock.p], chan, q)))
              && (s.plock == Nobody ==> Reason(s, chan))
  {
    InitInv(s0);
    RunKeeps(s0, steps);
    AlongIff(s0, steps);
    var s := Run(s0, steps);
    Tests(s.ring, s.stored, s.removed);
    var chan := s.procs[q].chan;
    if chan == NWrite || NobodyQuits(s0, steps) {
      assert Secure(s, q) && Justified(s, q);
      if !Blocked(s, chan) {
        var v :| v in s.procs && Owes(s.procs[v], chan, q);
        assert Orderly(s, v);
      }
    }
  }

  // ---- When a kill is heard ----

  /** The process has found no mark of a kill and is bound to sleep, or sleeps. */
  predicate PastTest(c: Code) {
    Sleepy(c) || ((c.At? || c.WakeLock? || c.WakeScan?) && c.k.WriteSleep?)
  }

  /** No process that has been killed sleeps, or is bound to. */
  ghost predicate Heard(s: State) {
    forall p :: p in s.procs && p in s.killed ==> !PastTest(s.procs[p])
  }

  /** The kill comes after the process has looked for it and before it sleeps. */
  predicate TooLate(s: State, step: Step) {
    step.Kill? && step.p in s.procs && PastTest(s.procs[step.p]) && !s.procs[step.p].Asleep?
  }

  lemma ActsAwake(s: State, p: nat, k: Act)
    requires p in s.procs && s.procs[p] == At(k) && |s.ring.data| == PIPESIZE && p in s.killed && !k.WriteSleep?
    ensures !PastTest(NextCode(s, p, k))
  {
  }

  /** A killed process that is not bound to sleep does not come to be. */
  lemma StaysAwake(s: State, step: Step, p: nat)
    requires Enabled(s, step) && p in s.procs && p in s.killed && Proper(s.procs[p]) && !PastTest(s.procs[p])
    ensures !PastTest(Do(s, step).procs[p])
  {
    var c := Do(s, step).procs[p];
    if step == Perform(p) {
      ActsAwake(s, p, s.procs[p].k);
    } else if step.Perform? {
      assert c == s.procs[p];
    } else if step.ScanOne? {
      ScansAwake(s, step.p, step.q, p);
    } else if step.TakeLock? || step.TakeTable? || step.DropLock? || step.DropTable? || step.ScanDone? {
      LocksAwake(s, step, p);
    } else {
      OthersAwake(s, step, p);
    }
  }

  lemma ScansAwake(s: State, w: nat, q: nat, p: nat)
    requires Enabled(s, ScanOne(w, q)) && p in s.procs && !PastTest(s.procs[p])
    ensures !PastTest(Do(s, ScanOne(w, q)).procs[p])
  {
  }

  lemma LocksAwake(s: State, step: Step, p: nat)
    requires Enabled(s, step) && p in s.procs && Proper(s.procs[p]) && !PastTest(s.procs[p])
    requires step.TakeLock? || step.TakeTable? || step.DropLock? || step.DropTable? || step.ScanDone?
    ensures !PastTest(Do(s, step).procs[p])
  {
  }

  lemma OthersAwake(s: State, step: Step, p: nat)
    requires Enabled(s, step)
    requires !(step.Perform? || step.ScanOne? || step.ScanDone?)
    requires !(step.TakeLock? || step.TakeTable? || step.DropLock? || step.DropTable?)
    requires p in s.procs && p in s.killed && Proper(s.procs[p]) && !PastTest(s.procs[p])
    ensures !PastTest(Do(s, step).procs[p])
  {
  }

  lemma KillWakes(s: State, p: nat)
    requires Enabled(s, Kill(p)) && !TooLate(s, Kill(p))
    ensures !PastTest(Do(s, Kill(p)).procs[p])
  {
  }

  lemma HeardStep(s: State, step: Step)
    requires Inv(s) && Heard(s) && Enabled(s, step)
    ensures Heard(Do(s, step)) <==> !TooLate(s, step)
  {
    var s' := Do(s, step);
    if TooLate(s, step) {
      assert PastTest(s'.procs[step.p]) && step.p in s'.killed;
    } else {
      forall p | p in s'.procs && p in s'.killed ensures !PastTest(s'.procs[p]) {
        if p in s.killed {
          assert Orderly(s, p);
          StaysAwake(s, step, p);
        } else {
          assert step == Kill(p);
          KillWakes(s, p);
        }
      }
    }
  }

  ghost predicate HeardAlong(s: State, steps: seq<Step>)
    requires Legal(s, steps)
    decreases |steps|
  {
    Heard(s) && (steps != [] ==> HeardAlong(Do(s, steps[0]), steps[1..]))
  }

  ghost predicate NoneTooLate(s: State, steps: seq<Step>)
    requires Legal(s, steps)
    decreases |steps|
  {
    steps != [] ==> !TooLate(s, steps[0]) && NoneTooLate(Do(s, steps[0]), steps[1..])
  }

  lemma {:induction false} HeardOn(s: State, steps: seq<Step>)
    requires Inv(s) && Heard(s) && Legal(s, steps)
    ensures HeardAlong(s, steps) <==> NoneTooLate(s, steps)
    decreases |steps|
  {
    if steps != [] {
      var s' := Do(s, steps[0]);
      HeardStep(s, steps[0]);
      StepKeeps(s, steps[0]);
      if TooLate(s, steps[0]) {
        assert !HeardAlong(s', steps[1..]);
      } else {
        HeardOn(s', steps[1..]);
      }
    }
  }

  /** In a run no killed process ever sleeps if and only if no kill comes between the test for it and the sleep. */
  lemma HeardIff(s0: State, steps: seq<Step>)
    requires Init(s0) && Legal(s0, steps)
    ensures HeardAlong(s0, steps) <==> NoneTooLate(s0, steps)
  {
    InitInv(s0);
    HeardOn(s0, steps);
  }

  /** Each lock has at most one holder, and it is the recorded one. */
  lemma MutualExclusion(s0: State, steps: seq<Step>, p: nat, q: nat)
    requires Init(s0) && Legal(s0, steps)
    requires var s := Run(s0, steps); p in s.procs && q in s.procs
    ensures var s := Run(s0, steps);
            && (HasLock(s.procs[p]) && HasLock(s.procs[q]) ==> p == q)
            && (HasTable(s.procs[p]) && HasTable(s.procs[q]) ==> p == q)
  {
    InitInv(s0);
    RunKeeps(s0, steps);
    var s := Run(s0, steps);
    assert Orderly(s, p) && Orderly(s, q);
  }

  /** A step of a process that is already in the code. */
  predicate Moves(s: State, step: Step) {
    Enabled(s, step) && !step.StartWrite? && !step.StartRead? && !step.StartClose?
    && !step.SchedulerLock? && !step.SchedulerUnlock? && !step.Kill?
  }

  /** Some process can go on, if need be after the scheduler took or dropped its lock. */
  ghost predicate Live(s: State) {
    || (exists step :: Moves(s, step))
    || (s.tlock == Scheduler && exists step :: Moves(Do(s, SchedulerUnlock), step))
    || (s.tlock == Nobody && exists step :: Moves(Do(s, SchedulerLock), step))
  }

  ghost predicate AtRest(s: State, p: nat)
    requires p in s.procs
  {
    s.procs[p].Idle? || (s.procs[p].Asleep? && !s.procs[p].runnable && Blocked(s, s.procs[p].chan))
  }

  lemma TableHolderMoves(s: State, p: nat)
    requires Inv(s) && s.tlock == Process(p)
    ensures Live(s)
  {
    assert Orderly(s, p);
    var c := s.procs[p];
    if c.WakeScan? && c.left != {} {
      var q :| q in c.left;
      assert Moves(s, ScanOne(p, q));
    } else {
      var step := if c.WakeScan? then ScanDone(p) else if c.SleepBoth? then DropLock(p)
                  else if c.SleepTable? then SwitchOut(p) else DropTable(p);
      assert Moves(s, step);
    }
  }

  /** No deadlock: if no process can go on, every process is outside the pipe code or rightly asleep; readers are
      if no killed writer gave up on a full pipe while a reader slept. */
  lemma NoDeadlock(s0: State, steps: seq<Step>)
    requires Init(s0) && Legal(s0, steps)
    ensures var s := Run(s0, steps);
            Live(s) ||
            forall p :: p in s.procs ==> AtRest(s, p) || (SleepyReader(s.procs[p]) && !NobodyQuits(s0, steps))
  {
    InitInv(s0);
    RunKeeps(s0, steps);
    AlongIff(s0, steps);
    var s := Run(s0, steps);
    if s.tlock.Process? {
      TableHolderMoves(s, s.tlock.p);
    } else if s.plock.Process? {
      LockHolderMoves(s, s.plock.p);
    } else {
      forall p | p in s.procs
        ensures Live(s) || AtRest(s, p) || (SleepyReader(s.procs[p]) && !NobodyQuits(s0, steps))
      {
        FreeMoves(s, p);
      }
    }
  }

  lemma LockHolderMoves(s: State, p: nat)
    requires Inv(s) && s.plock == Process(p) && !s.tlock.Process?
    ensures Live(s)
  {
    assert Orderly(s, p);
    var c := s.procs[p];
    if c.At? {
      assert Moves(s, Perform(p));
    } else if s.tlock == Nobody {
      assert Moves(s, TakeTable(p));
    } else {
      assert Moves(Do(s, SchedulerUnlock), TakeTable(p));
    }
  }

  lemma FreeMoves(s: State, p: nat)
    requires Inv(s) && s.plock == Nobody && !s.tlock.Process? && p in s.procs
    ensures Live(s) || AtRest(s, p) || (SleepyReader(s.procs[p]) && !ReadersFine(s))
  {
    assert Orderly(s, p) && Secure(s, p);
    var c := s.procs[p];
    if c.Lock? {
      assert Moves(s, TakeLock(p));
    } else if c.Asleep? && c.runnable {
      if s.tlock == Scheduler {
        assert Moves(s, SwitchIn(p));
      } else {
        assert Moves(Do(s, SchedulerLock), SwitchIn(p));
      }
    } else if c.Asleep? {
      NobodyOwes(s, c.chan, p);
    }
  }

  lemma NobodyOwes(s: State, chan: Chan, q: nat)
    requires AllOrderly(s) && s.plock == Nobody
    ensures !SomeoneOwes(s, chan, q)
  {
    forall v | v in s.procs ensures !Owes(s.procs[v], chan, q) {
      assert Orderly(s, v);
    }
  }
}
