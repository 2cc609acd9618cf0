/** What every run of the log machine keeps, and the theorems about all runs. */
module LogSafety {
  import opened Blocks
  import opened WriteAhead
  import opened LogMachine

  // ---- The reference: one plain disk that transactions are applied to in full ----

  function Raw(t: Txn): (ws: seq<Write>) {
    seq(|t|, i requires 0 <= i < |t| => Write(t[i].sector, t[i].data))
  }

  function Replay(d: Disk, ts: seq<Txn>): (r: Disk)
    ensures |r| == |d|
  {
    if ts == [] then d else Apply(Replay(d, ts[..|ts| - 1]), Raw(ts[|ts| - 1]))
  }

  lemma ReplaySnoc(d: Disk, ts: seq<Txn>, t: Txn)
    ensures Replay(d, ts + [t]) == Apply(Replay(d, ts), Raw(t))
  {
    assert (ts + [t])[..|ts|] == ts;
  }

  lemma ApplyRawSnoc(d: Disk, t: Txn, w: OpWrite)
    ensures Apply(d, Raw(t + [w])) == ApplyOne(Apply(d, Raw(t)), Write(w.sector, w.data))
  {
    var ws := Raw(t + [w]);
    assert ws[..|t|] == Raw(t);
  }

  lemma {:induction false} ApplyHome(l: Layout, d: Disk, e: Disk, ws: seq<Write>)
    requires l.start <= |d| == |e| && Home(l, d) == Home(l, e)
    ensures Home(l, Apply(d, ws)) == Home(l, Apply(e, ws))
  {
    if ws != [] {
      var u := ws[..|ws| - 1];
      ApplyHome(l, d, e, u);
      HomeOne(l, Apply(d, u), Apply(e, u), ws[|ws| - 1]);
    }
  }

  lemma HomeOne(l: Layout, d: Disk, e: Disk, w: Write)
    requires l.start <= |d| == |e| && Home(l, d) == Home(l, e)
    ensures Home(l, ApplyOne(d, w)) == Home(l, ApplyOne(e, w))
  {
    forall s | 0 <= s < l.start ensures ApplyOne(d, w)[s] == ApplyOne(e, w)[s] {
      assert d[s] == Home(l, d)[s] && e[s] == Home(l, e)[s];
    }
  }

  // ---- Reservations ----

  /** Blocks that the outstanding operations may still log. */
  ghost function Unused(ops: map<nat, nat>): (n: int) {
    if ops == map[] then 0
    else var p :| p in ops; MAXOPBLOCKS - ops[p] + Unused(ops - {p})
  }

  lemma {:induction false} UnusedRemove(ops: map<nat, nat>, p: nat)
    requires p in ops
    ensures Unused(ops) == MAXOPBLOCKS - ops[p] + Unused(ops - {p})
    decreases |ops|
  {
    var q :| q in ops && Unused(ops) == MAXOPBLOCKS - ops[q] + Unused(ops - {q});
    if p != q {
      UnusedRemove(ops - {q}, p);
      UnusedRemove(ops - {p}, q);
      assert ops - {q} - {p} == ops - {p} - {q};
    }
  }

  lemma UnusedPut(ops: map<nat, nat>, p: nat, v: nat)
    ensures Unused(ops[p := v]) == MAXOPBLOCKS - v + Unused(ops - {p})
  {
    UnusedRemove(ops[p := v], p);
    assert ops[p := v] - {p} == ops - {p};
  }

  lemma {:induction false} UnusedBounds(ops: map<nat, nat>)
    requires forall p :: p in ops ==> ops[p] <= MAXOPBLOCKS
    ensures 0 <= Unused(ops) <= |ops| * MAXOPBLOCKS
    decreases |ops|
  {
    if ops != map[] {
      var p :| p in ops;
      UnusedRemove(ops, p);
      UnusedBounds(ops - {p});
      assert |ops - {p}| == |ops| - 1;
    }
  }

  ghost predicate Reserved(s: State) {
    && (forall p :: p in s.ops ==> p < s.nextOp && s.ops[p] <= MAXOPBLOCKS)
    && |s.lh| + Unused(s.ops) <= LOGSIZE
  }

  // ---- The disk ----

  ghost predicate Sized(l: Layout, d0: Disk, s: State) {
    && Fits(l, d0)
    && |s.disk| == |s.view| == |s.origin| == |d0|
    && GoodList(l, s.lh)
    && s.done <= |s.script|
    && s.disk == Apply(s.origin, s.script[..s.done])
  }

  /** Recovery is running. */
  ghost predicate Recovering(l: Layout, d0: Disk, s: State)
    requires Sized(l, d0, s)
  {
    && !s.up && !s.committing && s.ops == map[] && s.lh == [] && s.txn == [] && s.asleep == {}
    && GoodHeader(l, s.origin)
    && s.script == RecoverWrites(l, s.origin)
    && Home(l, Recovered(l, s.origin)) == Home(l, Replay(d0, s.committed))
  }

  /** Operations may run; the disk has every committed transaction and nothing else. */
  ghost predicate Open(l: Layout, d0: Disk, s: State)
    requires Sized(l, d0, s)
  {
    && s.up && !s.committing && s.script == []
    && CommitReady(l, s.lh, s.view, s.origin)
    && (s.txn == [] <==> s.lh == [])
    && (s.ops == map[] ==> s.lh == [])
    && Home(l, s.origin) == Home(l, Replay(d0, s.committed))
    && Home(l, s.view) == Home(l, Apply(Replay(d0, s.committed), Raw(s.txn)))
  }

  ghost predicate HeaderWritten(s: State) {
    s.done > |s.lh|
  }

  ghost function Before(s: State): (ts: seq<Txn>) {
    if HeaderWritten(s) && s.committed != [] then s.committed[..|s.committed| - 1] else s.committed
  }

  /** A commit is running. */
  ghost predicate Committing(l: Layout, d0: Disk, s: State)
    requires Sized(l, d0, s)
  {
    && s.up && s.committing && s.ops == map[]
    && CommitReady(l, s.lh, s.view, s.origin)
    && (s.txn == [] <==> s.lh == [])
    && s.script == CommitWrites(l, s.lh, s.view, s.origin[l.start])
    && (HasBuffer(|s.lh|) || s.done == 0)
    && (HeaderWritten(s) ==> s.committed != [] && s.committed[|s.committed| - 1] == s.txn)
    && Home(l, s.origin) == Home(l, Replay(d0, Before(s)))
    && Home(l, s.view) == Home(l, Apply(Replay(d0, Before(s)), Raw(s.txn)))
  }

  ghost predicate Recorded(s: State) {
    forall t :: t in s.returned ==> t in s.committed
  }

  /** Nobody sleeps in begin_op who could be admitted. */
  ghost predicate SleepersJustified(s: State) {
    s.asleep != {} ==> s.up && !Admissible(s.committing, |s.lh|, |s.ops|)
  }

  // ---- Atomicity of single operations ----

  /** The writes of operation p in t. */
  function By(t: Txn, p: nat): (r: Txn) {
    if t == [] then []
    else By(t[..|t| - 1], p) + if t[|t| - 1].op == p then [t[|t| - 1]] else []
  }

  lemma BySnoc(t: Txn, w: OpWrite, p: nat)
    ensures By(t + [w], p) == By(t, p) + if w.op == p then [w] else []
  {
    assert (t + [w])[..|t|] == t;
  }

  /** Transaction t has all of operation p's writes, or none. */
  ghost predicate AllOrNone(s: State, t: Txn, p: nat) {
    By(t, p) == [] || By(t, p) == By(s.made, p)
  }

  ghost predicate Atomic(s: State) {
    && (forall t, p :: t in s.committed ==> AllOrNone(s, t, p))
    && (forall p :: AllOrNone(s, s.txn, p))
    && (forall p :: p in s.ops ==> By(s.txn, p) == By(s.made, p))
    && (forall p :: p >= s.nextOp ==> By(s.made, p) == [])
    && (forall t, p :: t in s.committed && p in s.ops ==> By(t, p) == [])
  }

  // ---- The invariant ----

  ghost predicate DiskInv(l: Layout, d0: Disk, s: State) {
    && Sized(l, d0, s)
    && (Recovering(l, d0, s) || Open(l, d0, s) || Committing(l, d0, s))
  }

  ghost predicate Inv(l: Layout, d0: Disk, s: State) {
    && Reserved(s)
    && DiskInv(l, d0, s)
    && Recorded(s)
    && SleepersJustified(s)
    && Atomic(s)
  }

  lemma InitInv(l: Layout, s: State)
    requires Init(l, s)
    ensures Inv(l, s.disk, s)
  {
  }

  lemma AtomicBegin(s: State, s': State)
    requires Atomic(s)
    requires s' == s.(ops := s.ops[s.nextOp := 0], nextOp := s.nextOp + 1)
    ensures Atomic(s')
  {
    assert AllOrNone(s, s.txn, s.nextOp);
    forall t, p | t in s.committed ensures AllOrNone(s', t, p) && (p in s'.ops ==> By(t, p) == []) {
      assert AllOrNone(s, t, p);
    }
    forall p ensures AllOrNone(s', s.txn, p) {
      assert AllOrNone(s, s.txn, p);
    }
  }

  lemma AtomicWrite(s: State, s': State, w: OpWrite)
    requires Atomic(s) && w.op in s.ops && w.op < s.nextOp
    requires s'.txn == s.txn + [w] && s'.made == s.made + [w]
    requires s'.ops.Keys == s.ops.Keys && s'.committed == s.committed && s'.nextOp == s.nextOp
    ensures Atomic(s')
  {
    forall p ensures By(s'.made, p) == By(s.made, p) + (if w.op == p then [w] else []) {
      BySnoc(s.made, w, p);
    }
    forall p ensures AllOrNone(s', s'.txn, p) && (p in s'.ops ==> By(s'.txn, p) == By(s'.made, p)) {
      BySnoc(s.txn, w, p);
      assert AllOrNone(s, s.txn, p);
    }
    forall t, p | t in s.committed ensures AllOrNone(s', t, p) {
      assert AllOrNone(s, t, p);
    }
  }

  /** Any step that makes no new write and commits, if anything, the transaction
      of operations that have all ended. */
  lemma AtomicOther(s: State, s': State)
    requires Atomic(s)
    requires s'.made == s.made && s'.nextOp == s.nextOp && s'.ops.Keys <= s.ops.Keys
    requires s'.txn == s.txn || (s'.txn == [] && s'.ops == map[])
    requires s'.committed == s.committed || (s'.committed == s.committed + [s.txn] && s'.ops == map[])
    ensures Atomic(s')
  {
    forall t, p | t in s'.committed ensures AllOrNone(s', t, p) {
      assert AllOrNone(s, s.txn, p);
      assert t in s.committed ==> AllOrNone(s, t, p);
    }
    forall p ensures AllOrNone(s', s'.txn, p) {
      assert AllOrNone(s, s.txn, p);
    }
  }

  lemma BeginReserved(s: State, s': State)
    requires Reserved(s) && Admissible(s.committing, |s.lh|, |s.ops|)
    requires s' == s.(ops := s.ops[s.nextOp := 0], nextOp := s.nextOp + 1)
    ensures Reserved(s')
  {
    UnusedPut(s.ops, s.nextOp, 0);
    UnusedBounds(s.ops);
    assert s.ops - {s.nextOp} == s.ops;
  }

  lemma BeginDisk(l: Layout, d0: Disk, s: State, s': State)
    requires DiskInv(l, d0, s) && s.up && !s.committing
    requires s' == s.(ops := s.ops[s.nextOp := 0], nextOp := s.nextOp + 1)
    ensures DiskInv(l, d0, s')
  {
    assert s.nextOp in s'.ops;
    assert Open(l, d0, s');
  }

  lemma BeginKeeps(l: Layout, d0: Disk, s: State, caller: nat)
    requires Inv(l, d0, s) && Enabled(l, s, BeginOp(caller))
    ensures Inv(l, d0, Do(l, s, BeginOp(caller)))
  {
    var s' := Do(l, s, BeginOp(caller));
    if Admissible(s.committing, |s.lh|, |s.ops|) {
      AtomicBegin(s, s');
      BeginReserved(s, s');
      BeginDisk(l, d0, s, s');
      assert s.asleep == {};
    } else {
      AtomicOther(s, s');
      assert Open(l, d0, s) ==> Open(l, d0, s');
      assert Committing(l, d0, s) ==> Committing(l, d0, s');
    }
  }

  lemma LogWriteReserved(l: Layout, s: State, step: Step)
    requires Reserved(s) && SleepersJustified(s)
    requires step.LogWrite? && Enabled(l, s, step)
    ensures Reserved(Do(l, s, step)) && SleepersJustified(Do(l, s, step))
  {
    var op := step.op;
    UnusedRemove(s.ops, op);
    UnusedPut(s.ops, op, s.ops[op] + 1);
    assert |Do(l, s, step).ops| == |s.ops|;
  }

  lemma LogWriteDisk(l: Layout, d0: Disk, s: State, step: Step)
    requires DiskInv(l, d0, s)
    requires step.LogWrite? && Enabled(l, s, step)
    ensures DiskInv(l, d0, Do(l, s, step))
  {
    var s' := Do(l, s, step);
    assert Open(l, d0, s);
    var w := OpWrite(step.op, step.sector, step.data);
    var base := Replay(d0, s.committed);
    ApplyRawSnoc(base, s.txn, w);
    HomeOne(l, s.view, Apply(base, Raw(s.txn)), Write(w.sector, w.data));
    assert s'.view == ApplyOne(s.view, Write(w.sector, w.data));
    assert step.op in s'.ops;
    assert GoodList(l, s'.lh);
    assert CommitReady(l, s'.lh, s'.view, s'.origin);
    assert Open(l, d0, s');
  }

  lemma LogWriteKeeps(l: Layout, d0: Disk, s: State, step: Step)
    requires Inv(l, d0, s) && step.LogWrite? && Enabled(l, s, step)
    ensures Inv(l, d0, Do(l, s, step))
  {
    AtomicWrite(s, Do(l, s, step), OpWrite(step.op, step.sector, step.data));
    LogWriteReserved(l, s, step);
    LogWriteDisk(l, d0, s, step);
  }

  lemma EndKeeps(l: Layout, d0: Disk, s: State, op: nat)
    requires Inv(l, d0, s) && Enabled(l, s, EndOp(op))
    ensures Inv(l, d0, Do(l, s, EndOp(op)))
  {
    AtomicOther(s, Do(l, s, EndOp(op)));
    UnusedRemove(s.ops, op);
    var s' := Do(l, s, EndOp(op));
    assert s.script[..s.done] == [];
    assert s'.script[..0] == [];
    if |s.ops - {op}| == 0 {
      assert s'.ops == map[];
    }
  }

  lemma CommitWriteKeeps(l: Layout, d0: Disk, s: State)
    requires Sized(l, d0, s) && Committing(l, d0, s) && Enabled(l, s, DiskWrite)
    ensures Sized(l, d0, Do(l, s, DiskWrite)) && Committing(l, d0, Do(l, s, DiskWrite))
  {
    ApplyStep(s.origin, s.script, s.done);
    BeforeKept(l, s);
  }

  /** The write of the header commits the transaction, and the ones before it stay. */
  lemma BeforeKept(l: Layout, s: State)
    requires s.up && Enabled(l, s, DiskWrite) && (HeaderWritten(s) ==> s.committed != [])
    ensures var s' := Do(l, s, DiskWrite);
      Before(s') == Before(s) && (HeaderWritten(s') && !HeaderWritten(s) ==> s'.committed == s.committed + [s.txn])
  {
    var s' := Do(l, s, DiskWrite);
    if s.done == |s.lh| {
      assert s'.committed[..|s'.committed| - 1] == s.committed;
    }
  }

  lemma RecoverWriteKeeps(l: Layout, d0: Disk, s: State)
    requires Sized(l, d0, s) && Recovering(l, d0, s) && Enabled(l, s, DiskWrite)
    ensures Sized(l, d0, Do(l, s, DiskWrite)) && Recovering(l, d0, Do(l, s, DiskWrite))
  {
    ApplyStep(s.origin, s.script, s.done);
  }

  lemma DiskWriteKeeps(l: Layout, d0: Disk, s: State)
    requires Inv(l, d0, s) && Enabled(l, s, DiskWrite)
    ensures Inv(l, d0, Do(l, s, DiskWrite))
  {
    if s.up {
      CommitWriteKeeps(l, d0, s);
    } else {
      RecoverWriteKeeps(l, d0, s);
    }
    AtomicOther(s, Do(l, s, DiskWrite));
  }

  lemma FinishKeeps(l: Layout, d0: Disk, s: State)
    requires Inv(l, d0, s) && Enabled(l, s, Finish)
    ensures Inv(l, d0, Do(l, s, Finish))
  {
    AtomicOther(s, Do(l, s, Finish));
    var s' := Do(l, s, Finish);
    assert s.script[..s.done] == s.script;
    CommitDone(l, s.lh, s.view, s.origin);
    assert s'.script[..0] == [];
    assert Raw([]) == [];
    if s.lh != [] {
      assert s.committed == Before(s) + [s.txn];
      ReplaySnoc(d0, Before(s), s.txn);
    }
    assert forall i :: 0 <= i < l.start ==> Home(l, s.disk)[i] == s.disk[i] && Home(l, s.view)[i] == s.view[i];
  }

  /** Wherever the power fails, the disk recovers to the committed transactions. */
  lemma DiskRecovers(l: Layout, d0: Disk, s: State)
    requires Inv(l, d0, s)
    ensures GoodHeader(l, s.disk)
    ensures Home(l, Recovered(l, s.disk)) == Home(l, Replay(d0, s.committed))
  {
    if s.up {
      if Open(l, d0, s) {
        assert s.disk == s.origin;
        RecoveredIs(l, s.disk);
      } else {
        CommitCrash(l, s.lh, s.view, s.origin, s.done);
        if HeaderWritten(s) {
          assert s.committed == Before(s) + [s.txn];
          ReplaySnoc(d0, Before(s), s.txn);
        }
      }
    } else {
      RecoverCrash(l, s.origin, s.done);
    }
  }

  lemma CrashKeeps(l: Layout, d0: Disk, s: State)
    requires Inv(l, d0, s) && Enabled(l, s, Crash)
    ensures Inv(l, d0, Do(l, s, Crash))
  {
    AtomicOther(s, Do(l, s, Crash));
    DiskRecovers(l, d0, s);
    var s' := Do(l, s, Crash);
    assert s'.script[..0] == [];
  }

  lemma RebootedKeeps(l: Layout, d0: Disk, s: State)
    requires Inv(l, d0, s) && Enabled(l, s, Rebooted)
    ensures Inv(l, d0, Do(l, s, Rebooted))
  {
    AtomicOther(s, Do(l, s, Rebooted));
    assert s.script[..s.done] == s.script;
    RecoveredIs(l, s.origin);
    var s' := Do(l, s, Rebooted);
    assert s'.script[..0] == [];
    assert Raw([]) == [];
  }

  lemma StepKeeps(l: Layout, d0: Disk, s: State, step: Step)
    requires Inv(l, d0, s) && Enabled(l, s, step)
    ensures Inv(l, d0, Do(l, s, step))
  {
    match step
    case BeginOp(caller) => BeginKeeps(l, d0, s, caller);
    case LogWrite(_, _, _) => LogWriteKeeps(l, d0, s, step);
    case EndOp(op) => EndKeeps(l, d0, s, op);
    case DiskWrite => DiskWriteKeeps(l, d0, s);
    case Finish => FinishKeeps(l, d0, s);
    case Crash => CrashKeeps(l, d0, s);
    case Rebooted => RebootedKeeps(l, d0, s);
  }

  lemma {:induction false} RunKeeps(l: Layout, d0: Disk, s: State, steps: seq<Step>)
    requires Inv(l, d0, s) && Legal(l, s, steps)
    ensures Inv(l, d0, Run(l, s, steps))
    decreases |steps|
  {
    if steps != [] {
      StepKeeps(l, d0, s, steps[0]);
      RunKeeps(l, d0, Do(l, s, steps[0]), steps[1..]);
    }
  }
}
