/** Crash safety told from the list of steps alone: what a run leaves on disk of the blocks that its calls logged. */
module LogCalls {
  import opened Blocks
  import opened WriteAhead
  import opened LogMachine
  import opened LogSafety
  import opened LogTheorems

  function CallOf(step: Step): (ws: Txn) {
    match step
    case LogWrite(op, sector, data) => [OpWrite(op, sector, data)]
    case _ => []
  }

  /** The blocks that the calls of log_write among the steps log, in order. */
  function CallsOf(steps: seq<Step>): (ws: Txn)
    decreases |steps|
  {
    if steps == [] then [] else CallOf(steps[0]) + CallsOf(steps[1..])
  }

  lemma Regroup(a: Txn, b: Txn, c: Txn)
    ensures a + b + c == a + (b + c)
  {
  }

  /** Those that other operations than the lost ones logged. */
  function Kept(ws: Txn, lost: set<nat>): (r: Txn)
    ensures forall w :: w in r ==> w.op !in lost
  {
    if ws == [] then []
    else Kept(ws[..|ws| - 1], lost) + if ws[|ws| - 1].op in lost then [] else [ws[|ws| - 1]]
  }

  /** What the last of them for sector x left there; b if there is none. */
  function LastTo(ws: Txn, x: nat, b: Block): (r: Block) {
    if ws == [] then b
    else if ws[|ws| - 1].sector == x then ws[|ws| - 1].data
    else LastTo(ws[..|ws| - 1], x, b)
  }

  function Flat(ts: seq<Txn>): (ws: Txn) {
    if ts == [] then [] else Flat(ts[..|ts| - 1]) + ts[|ts| - 1]
  }

  lemma KeptSnoc(ws: Txn, w: OpWrite, lost: set<nat>)
    ensures Kept(ws + [w], lost) == Kept(ws, lost) + if w.op in lost then [] else [w]
  {
    assert (ws + [w])[..|ws|] == ws;
  }

  /** Operations are lost one after the other. */
  lemma {:induction false} KeptTwice(ws: Txn, lost: set<nat>, more: set<nat>)
    ensures Kept(ws, lost + more) == Kept(Kept(ws, lost), more)
  {
    if ws != [] {
      var (u, w) := (ws[..|ws| - 1], ws[|ws| - 1]);
      KeptTwice(u, lost, more);
      KeptSnoc(Kept(u, lost), w, more);
      if w.op in lost {
        assert Kept(ws, lost) == Kept(u, lost);
      }
    }
  }

  lemma {:induction false} KeptAll(ws: Txn, lost: set<nat>)
    requires forall w :: w in ws ==> w.op !in lost
    ensures Kept(ws, lost) == ws
  {
    if ws != [] {
      var (u, w) := (ws[..|ws| - 1], ws[|ws| - 1]);
      assert w in ws && ws == u + [w];
      KeptAll(u, lost);
    }
  }

  /** Exactly the second part is by lost operations. */
  lemma {:induction false} KeptFirst(ws: Txn, t: Txn, lost: set<nat>)
    requires (forall w :: w in ws ==> w.op !in lost) && forall w :: w in t ==> w.op in lost
    ensures Kept(ws + t, lost) == ws
  {
    if t == [] {
      assert ws + t == ws;
      KeptAll(ws, lost);
    } else {
      var (u, w) := (t[..|t| - 1], t[|t| - 1]);
      KeptFirst(ws, u, lost);
      Regroup(ws, u, [w]);
      assert t == u + [w];
      KeptSnoc(ws + u, w, lost);
    }
  }

  lemma FlatSnoc(ts: seq<Txn>, t: Txn)
    ensures Flat(ts + [t]) == Flat(ts) + t
  {
    assert (ts + [t])[..|ts|] == ts;
  }

  lemma {:induction false} ApplyAt(d: Disk, t: Txn, x: nat)
    requires x < |d|
    ensures Apply(d, Raw(t))[x] == LastTo(t, x, d[x])
  {
    if t != [] {
      var (u, w) := (t[..|t| - 1], t[|t| - 1]);
      ApplyAt(d, u, x);
      assert t == u + [w];
      ApplyRawSnoc(d, u, w);
    } else {
      assert Raw(t) == [];
    }
  }

  lemma {:induction false} LastToBoth(ws: Txn, t: Txn, x: nat, b: Block)
    ensures LastTo(ws + t, x, b) == LastTo(t, x, LastTo(ws, x, b))
  {
    if t == [] {
      assert ws + t == ws;
    } else {
      LastToBoth(ws, t[..|t| - 1], x, b);
      assert (ws + t)[..|ws + t| - 1] == ws + t[..|t| - 1];
    }
  }

  /** Transactions applied in full leave in each block what was last logged for it. */
  lemma {:induction false} ReplayAt(d: Disk, ts: seq<Txn>, x: nat)
    requires x < |d|
    ensures Replay(d, ts)[x] == LastTo(Flat(ts), x, d[x])
  {
    if ts != [] {
      var (us, t) := (ts[..|ts| - 1], ts[|ts| - 1]);
      ReplayAt(d, us, x);
      ApplyAt(Replay(d, us), t, x);
      LastToBoth(Flat(us), t, x, d[x]);
    }
  }

  // ---- Which operations are lost ----

  /** The transactions committed before the open one. */
  ghost function Past(s: State): (ts: seq<Txn>) {
    if s.committing then Before(s) else s.committed
  }

  /** The blocks logged so far, but for those of lost operations, are the committed ones and the open ones. No
      operation has both, and those under way have no committed ones. */
  ghost predicate Account(s: State, logged: Txn, lost: set<nat>) {
    && Kept(logged, lost) == Flat(Past(s)) + s.txn
    && (forall op :: op in lost ==> op < s.nextOp && op !in s.ops)
    && (forall w :: w in s.txn ==> w.op < s.nextOp)
    && (forall w :: w in Flat(Past(s)) ==> w.op < s.nextOp && w.op !in s.ops && forall v :: v in s.txn ==> v.op != w.op)
  }

  ghost function OpsOf(t: Txn): (ops: set<nat>) {
    set w | w in t :: w.op
  }

  lemma AccountWrite(l: Layout, d0: Disk, s: State, step: Step, logged: Txn, lost: set<nat>)
    requires Inv(l, d0, s) && Account(s, logged, lost) && step.LogWrite? && Enabled(l, s, step)
    ensures Account(Do(l, s, step), logged + [OpWrite(step.op, step.sector, step.data)], lost)
  {
    var w := OpWrite(step.op, step.sector, step.data);
    KeptSnoc(logged, w, lost);
    Regroup(Flat(Past(s)), s.txn, [w]);
  }

  /** The commit, once its header is written, and at its end. */
  lemma Committed(l: Layout, d0: Disk, s: State)
    requires Inv(l, d0, s)
    ensures s.committing && HeaderWritten(s) ==> Flat(s.committed) == Flat(Past(s)) + s.txn
    ensures !(s.committing && HeaderWritten(s)) ==> s.committed == Past(s)
    ensures Enabled(l, s, Finish) ==> Flat(s.committed) == Flat(Past(s)) + s.txn
  {
    if s.committing && HeaderWritten(s) {
      assert s.committed == Before(s) + [s.txn];
      FlatSnoc(Before(s), s.txn);
    }
  }

  lemma AccountCrash(l: Layout, d0: Disk, s: State, logged: Txn, lost: set<nat>)
    requires Inv(l, d0, s) && Account(s, logged, lost)
    ensures var more := if s.committing && HeaderWritten(s) then {} else OpsOf(s.txn);
      && Flat(s.committed) == Kept(logged, lost + more) && (forall op :: op in more ==> op < s.nextOp)
      && forall w :: w in Flat(s.committed) ==> w.op < s.nextOp
  {
    Committed(l, d0, s);
    if s.committing && HeaderWritten(s) {
      assert lost + {} == lost;
    } else {
      var more := OpsOf(s.txn);
      KeptTwice(logged, lost, more);
      KeptFirst(Flat(Past(s)), s.txn, more);
    }
  }

  lemma AccountBegin(l: Layout, d0: Disk, s: State, caller: nat, logged: Txn, lost: set<nat>)
    requires Inv(l, d0, s) && Account(s, logged, lost) && Enabled(l, s, BeginOp(caller))
    ensures Account(Do(l, s, BeginOp(caller)), logged, lost)
  {
  }

  lemma AccountEnd(l: Layout, d0: Disk, s: State, op: nat, logged: Txn, lost: set<nat>)
    requires Inv(l, d0, s) && Account(s, logged, lost) && Enabled(l, s, EndOp(op))
    ensures Account(Do(l, s, EndOp(op)), logged, lost)
  {
    assert Past(Do(l, s, EndOp(op))) == Past(s);
  }

  lemma AccountDisk(l: Layout, d0: Disk, s: State, logged: Txn, lost: set<nat>)
    requires Inv(l, d0, s) && Account(s, logged, lost) && Enabled(l, s, DiskWrite)
    ensures Account(Do(l, s, DiskWrite), logged, lost)
  {
    if s.up {
      BeforeKept(l, s);
    }
    assert Past(Do(l, s, DiskWrite)) == Past(s);
  }

  lemma AccountFinish(l: Layout, d0: Disk, s: State, logged: Txn, lost: set<nat>)
    requires Inv(l, d0, s) && Account(s, logged, lost) && Enabled(l, s, Finish)
    ensures Account(Do(l, s, Finish), logged, lost)
  {
    Committed(l, d0, s);
    assert Flat(s.committed) + [] == Flat(s.committed);
  }

  lemma AccountStep(l: Layout, d0: Disk, s: State, step: Step, logged: Txn, lost: set<nat>) returns (lost': set<nat>)
    requires Inv(l, d0, s) && Account(s, logged, lost) && Enabled(l, s, step)
    ensures Account(Do(l, s, step), logged + CallOf(step), lost')
    ensures step != Crash ==> lost' == lost
  {
    lost' := lost;
    assert logged + [] == logged;
    match step
    case BeginOp(caller) => AccountBegin(l, d0, s, caller, logged, lost);
    case LogWrite(_, _, _) => AccountWrite(l, d0, s, step, logged, lost);
    case EndOp(op) => AccountEnd(l, d0, s, op, logged, lost);
    case DiskWrite => AccountDisk(l, d0, s, logged, lost);
    case Finish => AccountFinish(l, d0, s, logged, lost);
    case Crash =>
      lost' := lost + if s.committing && HeaderWritten(s) then {} else OpsOf(s.txn);
      AccountCrash(l, d0, s, logged, lost);
      assert Flat(s.committed) + [] == Flat(s.committed);
    case Rebooted =>
  }

  lemma {:induction false} AccountRun(l: Layout, d0: Disk, s: State, steps: seq<Step>, logged: Txn, lost: set<nat>)
    returns (lost': set<nat>)
    requires Inv(l, d0, s) && Account(s, logged, lost) && Legal(l, s, steps)
    ensures Inv(l, d0, Run(l, s, steps)) && Account(Run(l, s, steps), logged + CallsOf(steps), lost')
    ensures Crash !in steps ==> lost' == lost
    decreases |steps|
  {
    if steps == [] {
      assert logged + [] == logged;
      return lost;
    }
    var (step, rest) := (steps[0], steps[1..]);
    StepKeeps(l, d0, s, step);
    lost' := AccountStep(l, d0, s, step, logged, lost);
    lost' := AccountRun(l, d0, Do(l, s, step), rest, logged + CallOf(step), lost');
    Regroup(logged, CallOf(step), CallsOf(rest));
  }

  // ---- Which operations are not ----

  /** A block logged stays in the open transaction until it is committed, if the power does not fail before. */
  lemma {:induction false} StaysLogged(l: Layout, d0: Disk, s: State, steps: seq<Step>, w: OpWrite)
    requires Inv(l, d0, s) && Legal(l, s, steps) && (w in s.txn || w in Flat(s.committed))
    requires Crash !in steps || w in Flat(s.committed)
    ensures var s' := Run(l, s, steps);
      && (w in s'.txn || w in Flat(s'.committed))
      && (Finish in steps || w in Flat(s.committed) ==> w in Flat(s'.committed))
    decreases |steps|
  {
    if steps != [] {
      StepKeeps(l, d0, s, steps[0]);
      Committed(l, d0, s);
      FlatSnoc(s.committed, s.txn);
      StaysLogged(l, d0, Do(l, s, steps[0]), steps[1..], w);
    }
  }

  lemma {:induction false} RunBoth(l: Layout, s: State, a: seq<Step>, b: seq<Step>)
    requires Legal(l, s, a + b)
    ensures Legal(l, s, a) && Legal(l, Run(l, s, a), b) && Run(l, s, a + b) == Run(l, Run(l, s, a), b)
    decreases |a|
  {
    if a == [] {
      assert a + b == b;
    } else {
      assert (a + b)[1..] == a[1..] + b;
      RunBoth(l, Do(l, s, a[0]), a[1..], b);
    }
  }

  /** An operation whose block was logged before a commit came to its end, with no crash in between. */
  ghost predicate Durable(steps: seq<Step>, op: nat) {
    exists i, j :: DurableAt(steps, op, i, j)
  }

  ghost predicate DurableAt(steps: seq<Step>, op: nat, i: int, j: int) {
    0 <= i < j < |steps| && steps[i].LogWrite? && steps[i].op == op && steps[j] == Finish && Crash !in steps[i..j]
  }

  lemma StaysCommitted(l: Layout, d0: Disk, s: State, step: Step, mid: seq<Step>, rest: seq<Step>)
    requires Inv(l, d0, s) && Legal(l, s, [step] + mid + rest) && step.LogWrite? && Finish in mid && Crash !in mid
    ensures OpWrite(step.op, step.sector, step.data) in Flat(Run(l, s, [step] + mid + rest).committed)
  {
    var w := OpWrite(step.op, step.sector, step.data);
    RunBoth(l, s, [step] + mid, rest);
    RunBoth(l, s, [step], mid);
    var s1 := Do(l, s, step);
    StepKeeps(l, d0, s, step);
    assert Run(l, s, [step]) == s1 && w in s1.txn;
    StaysLogged(l, d0, s1, mid, w);
    RunKeeps(l, d0, s1, mid);
    StaysLogged(l, d0, Run(l, s1, mid), rest, w);
  }

  lemma CutAt(steps: seq<Step>, op: nat, i: nat, j: nat)
    requires DurableAt(steps, op, i, j)
    ensures steps == steps[..i] + ([steps[i]] + steps[i + 1..j + 1] + steps[j + 1..])
    ensures Finish in steps[i + 1..j + 1] && Crash !in steps[i + 1..j + 1]
  {
    var mid := steps[i + 1..j + 1];
    assert mid[j - i - 1] == Finish;
    assert forall k :: 0 <= k < |mid| - 1 ==> mid[k] == steps[i..j][k + 1];
  }

  lemma DurableStays(l: Layout, s0: State, steps: seq<Step>, op: nat) returns (w: OpWrite)
    requires Init(l, s0) && Legal(l, s0, steps) && Durable(steps, op)
    ensures w in Flat(Run(l, s0, steps).committed) && w.op == op
  {
    var i: nat, j: nat :| DurableAt(steps, op, i, j);
    w := OpWrite(op, steps[i].sector, steps[i].data);
    CutAt(steps, op, i, j);
    StaysFrom(l, s0, steps[..i], steps[i], steps[i + 1..j + 1], steps[j + 1..]);
  }

  lemma StaysFrom(l: Layout, s0: State, a: seq<Step>, step: Step, mid: seq<Step>, rest: seq<Step>)
    requires Init(l, s0) && Legal(l, s0, a + ([step] + mid + rest))
    requires step.LogWrite? && Finish in mid && Crash !in mid
    ensures OpWrite(step.op, step.sector, step.data) in Flat(Run(l, s0, a + ([step] + mid + rest)).committed)
  {
    InitInv(l, s0);
    RunBoth(l, s0, a, [step] + mid + rest);
    RunKeeps(l, s0.disk, s0, a);
    StaysCommitted(l, s0.disk, Run(l, s0, a), step, mid, rest);
  }

  /** The committed transactions hold the blocks logged, but for some operations as a whole. */
  lemma CommittedAre(l: Layout, s0: State, steps: seq<Step>) returns (lost: set<nat>)
    requires Init(l, s0) && Legal(l, s0, steps)
    ensures Flat(Run(l, s0, steps).committed) == Kept(CallsOf(steps), lost)
    ensures var s := Run(l, s0, steps); Crash !in steps && s.ops == map[] && !s.committing ==> lost == {}
  {
    InitInv(l, s0);
    var gone := AccountRun(l, s0.disk, s0, steps, [], {});
    assert [] + CallsOf(steps) == CallsOf(steps);
    var s := Run(l, s0, steps);
    AccountCrash(l, s0.disk, s, CallsOf(steps), gone);
    lost := gone + if s.committing && HeaderWritten(s) then {} else OpsOf(s.txn);
  }

  lemma RecoversTo(l: Layout, d0: Disk, s: State)
    requires Inv(l, d0, s)
    ensures GoodHeader(l, s.disk) && |s.disk| == |d0| >= l.start
    ensures forall x :: 0 <= x < l.start ==> Recovered(l, s.disk)[x] == LastTo(Flat(s.committed), x, d0[x])
  {
    DiskRecovers(l, d0, s);
    forall x | 0 <= x < l.start ensures Recovered(l, s.disk)[x] == LastTo(Flat(s.committed), x, d0[x]) {
      ReplayAt(d0, s.committed, x);
      assert Recovered(l, s.disk)[x] == Home(l, Recovered(l, s.disk))[x];
      assert Replay(d0, s.committed)[x] == Home(l, Replay(d0, s.committed))[x];
    }
  }

  lemma RunRecovers(l: Layout, s0: State, steps: seq<Step>)
    requires Init(l, s0) && Legal(l, s0, steps)
    ensures var s := Run(l, s0, steps);
      && GoodHeader(l, s.disk) && |s.disk| == |s0.disk| >= l.start
      && forall x :: 0 <= x < l.start ==> Recovered(l, s.disk)[x] == LastTo(Flat(s.committed), x, s0.disk[x])
  {
    InitInv(l, s0);
    RunKeeps(l, s0.disk, s0, steps);
    RecoversTo(l, s0.disk, Run(l, s0, steps));
  }

  lemma NotLost(l: Layout, s0: State, steps: seq<Step>, lost: set<nat>, op: nat)
    requires Init(l, s0) && Legal(l, s0, steps) && Durable(steps, op)
    requires Flat(Run(l, s0, steps).committed) == Kept(CallsOf(steps), lost)
    ensures op !in lost
  {
    var w := DurableStays(l, s0, steps, op);
    assert w in Kept(CallsOf(steps), lost);
  }

  /** Crash safety. After any run, with any number of crashes anywhere in it, recovery of the disk as it stands leaves
      in every home block what was last logged for it, but for the blocks of some operations, which are lost as a
      whole. No operation is lost that logged before the end of a commit and without a crash between the two. */
  lemma Survives(l: Layout, s0: State, steps: seq<Step>) returns (lost: set<nat>)
    requires Init(l, s0) && Legal(l, s0, steps)
    ensures var d := Run(l, s0, steps).disk;
      && GoodHeader(l, d) && |d| == |s0.disk| >= l.start
      && forall x :: 0 <= x < l.start ==> Recovered(l, d)[x] == LastTo(Kept(CallsOf(steps), lost), x, s0.disk[x])
    ensures forall op :: Durable(steps, op) ==> op !in lost
    ensures var s := Run(l, s0, steps); Crash !in steps && s.ops == map[] && !s.committing ==> lost == {}
  {
    lost := CommittedAre(l, s0, steps);
    RunRecovers(l, s0, steps);
    forall op | Durable(steps, op) ensures op !in lost {
      NotLost(l, s0, steps, lost, op);
    }
  }

  lemma DiskIsRecovered(l: Layout, d0: Disk, s: State)
    requires Inv(l, d0, s) && s.up && !s.committing
    ensures GoodHeader(l, s.disk) && l.start <= |s.disk| && Home(l, Recovered(l, s.disk)) == Home(l, s.disk)
  {
    DiskRecovers(l, d0, s);
    assert s.disk == s.origin;
  }

  /** Without a crash, once all operations have ended and no commit runs, the disk itself holds in every home block
      what was last logged for it. */
  lemma Undisturbed(l: Layout, s0: State, steps: seq<Step>)
    requires Init(l, s0) && Legal(l, s0, steps) && Crash !in steps
    requires var s := Run(l, s0, steps); s.up && s.ops == map[] && !s.committing
    ensures l.start <= |Run(l, s0, steps).disk| == |s0.disk|
    ensures forall x :: 0 <= x < l.start ==> Run(l, s0, steps).disk[x] == LastTo(CallsOf(steps), x, s0.disk[x])
  {
    var lost := Survives(l, s0, steps);
    KeptAll(CallsOf(steps), lost);
    InitInv(l, s0);
    RunKeeps(l, s0.disk, s0, steps);
    var d := Run(l, s0, steps).disk;
    DiskIsRecovered(l, s0.disk, Run(l, s0, steps));
    assert forall x :: 0 <= x < l.start ==> d[x] == Home(l, d)[x] && Recovered(l, d)[x] == Home(l, Recovered(l, d))[x];
  }
}
