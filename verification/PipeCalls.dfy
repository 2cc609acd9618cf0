/** What single calls of pipewrite, piperead and pipeclose do in a run, from what they were called with and what
    changes in the pipe. */
module PipeCalls {
  import opened Blocks
  import opened Sequences
  import opened Pipe
  import opened PipeMachine
  import opened PipeSafety

  // ---- States along a run ----

  lemma {:induction false} LegalPrefix(s0: State, steps: seq<Step>, j: nat)
    requires Legal(s0, steps) && j <= |steps|
    ensures Legal(s0, steps[..j])
    ensures j < |steps| ==> Enabled(Run(s0, steps[..j]), steps[j])
    ensures j < |steps| ==> Legal(s0, steps[..j + 1]) && Run(s0, steps[..j + 1]) == Do(Run(s0, steps[..j]), steps[j])
    decreases |steps|
  {
    if j > 0 {
      assert steps[..j][1..] == steps[1..][..j - 1];
      LegalPrefix(Do(s0, steps[0]), steps[1..], j - 1);
      if j < |steps| {
        assert steps[..j + 1][1..] == steps[1..][..j];
      }
    } else if steps != [] {
      assert steps[..1][1..] == [];
    }
  }

  /** The state after the first j steps. */
  ghost function After(s0: State, steps: seq<Step>, j: nat): (s: State)
    requires Legal(s0, steps) && j <= |steps|
  {
    LegalPrefix(s0, steps, j);
    Run(s0, steps[..j])
  }

  lemma AfterNext(s0: State, steps: seq<Step>, j: nat)
    requires Legal(s0, steps) && j < |steps|
    ensures Enabled(After(s0, steps, j), steps[j]) && After(s0, steps, j + 1) == Do(After(s0, steps, j), steps[j])
  {
    LegalPrefix(s0, steps, j);
  }

  /** What has been added at the end. */
  function Added(a: seq<byte>, b: seq<byte>): (r: seq<byte>) {
    if a <= b then b[|a|..] else []
  }

  /** The bytes that process p has put into the pipe from step k up to step m. */
  ghost function Sent(s0: State, steps: seq<Step>, p: nat, k: nat, m: nat): (r: seq<byte>)
    requires Legal(s0, steps) && k <= m <= |steps|
  {
    if m == k then []
    else Sent(s0, steps, p, k, m - 1) +
         if steps[m - 1] == Perform(p) then Added(After(s0, steps, m - 1).stored, After(s0, steps, m).stored) else []
  }

  /** The bytes that process p has taken out of it. */
  ghost function Taken(s0: State, steps: seq<Step>, p: nat, k: nat, m: nat): (r: seq<byte>)
    requires Legal(s0, steps) && k <= m <= |steps|
  {
    if m == k then []
    else Taken(s0, steps, p, k, m - 1) +
         if steps[m - 1] == Perform(p) then Added(After(s0, steps, m - 1).removed, After(s0, steps, m).removed) else []
  }

  /** The call that p starts with step k is not over before step m. */
  ghost predicate Busy(s0: State, steps: seq<Step>, p: nat, k: nat, m: nat)
    requires Legal(s0, steps) && k < m <= |steps|
  {
    forall j :: k < j < m ==> p in After(s0, steps, j).procs && !After(s0, steps, j).procs[p].Idle?
  }

  // ---- pipewrite ----

  /** The writer finds the pipe full, and nobody to read or itself killed. */
  ghost predicate QuitsWriting(s: State, step: Step, p: nat) {
    && step == Perform(p) && p in s.procs && s.procs[p].At? && s.procs[p].k.WriteLoop? && s.procs[p].k.todo != []
    && |s.stored| - |s.removed| == 512 && (!s.readopen || p in s.killed)
  }

  /** The process is in pipewrite and has these bytes to go. */
  predicate WritesOn(c: Code, todo: seq<byte>) {
    !c.Idle? && (c.k == WriteLoop(todo) || c.k == WriteSleep(todo))
  }

  /** The process is done and gives up the lock, or has done so. */
  predicate Leaving(c: Code) {
    c.Idle? || c.k == Unlock
  }

  /** p is in a call, and in the same part of it. */
  predicate SamePart(s: State, s': State, p: nat) {
    p in s.procs && p in s'.procs && !s.procs[p].Idle? && !s'.procs[p].Idle? && s'.procs[p].k == s.procs[p].k
  }

  /** Only its own actions move a process on in its call. */
  lemma OthersStep(s: State, step: Step, p: nat)
    requires Enabled(s, step) && p in s.procs && !s.procs[p].Idle? && step != Perform(p)
    ensures SamePart(s, Do(s, step), p)
  {
    match step
    case Perform(q) => OtherPerforms(s, q, p);
    case ScanOne(w, q) => OtherScans(s, w, q, p);
    case TakeTable(q) => OtherTakes(s, q, p);
    case _ =>
  }

  lemma OtherPerforms(s: State, q: nat, p: nat)
    requires Enabled(s, Perform(q)) && p in s.procs && !s.procs[p].Idle? && q != p
    ensures SamePart(s, Do(s, Perform(q)), p)
  {
  }

  lemma OtherScans(s: State, w: nat, q: nat, p: nat)
    requires Enabled(s, ScanOne(w, q)) && p in s.procs && !s.procs[p].Idle?
    ensures SamePart(s, Do(s, ScanOne(w, q)), p)
  {
  }

  lemma OtherTakes(s: State, q: nat, p: nat)
    requires Enabled(s, TakeTable(q)) && p in s.procs && !s.procs[p].Idle?
    ensures SamePart(s, Do(s, TakeTable(q)), p)
  {
  }

  /** One step, where p has todo to write. */
  lemma WriteStep(s: State, step: Step, p: nat, todo: seq<byte>)
    requires Holds(s.ring, s.stored, s.removed) && Enabled(s, step) && p in s.procs && WritesOn(s.procs[p], todo)
    ensures var s' := Do(s, step);
      var put := if step == Perform(p) then Added(s.stored, s'.stored) else [];
      && p in s'.procs && put <= todo
      && if QuitsWriting(s, step, p) then put == [] && todo != [] && Leaving(s'.procs[p])
         else WritesOn(s'.procs[p], todo[|put|..]) || (put == todo == [] && Leaving(s'.procs[p]))
  {
    if step == Perform(p) {
      Tests(s.ring, s.stored, s.removed);
      if s.procs[p].k.WriteLoop? && todo != [] && !Full(s.ring) {
        assert Do(s, step).stored == s.stored + [todo[0]];
        assert Added(s.stored, s.stored + [todo[0]]) == [todo[0]] == todo[..1];
      }
    } else {
      OthersStep(s, step, p);
    }
  }

  /** On its way out a process puts nothing in and takes nothing out. */
  lemma LeaveStep(s: State, step: Step, p: nat)
    requires Enabled(s, step) && p in s.procs && !s.procs[p].Idle? && Leaving(s.procs[p])
    ensures var s' := Do(s, step);
      && p in s'.procs && Leaving(s'.procs[p])
      && (step == Perform(p) ==> s'.stored == s.stored && s'.removed == s.removed)
  {
    if step != Perform(p) {
      OthersStep(s, step, p);
    }
  }

  /** In its call p has given up on a full pipe. */
  ghost predicate GaveUpWriting(s0: State, steps: seq<Step>, p: nat, k: nat, m: nat)
    requires Legal(s0, steps) && k < m <= |steps|
  {
    exists j :: k < j < m && QuitsWriting(After(s0, steps, j), steps[j], p)
  }

  lemma AfterInv(s0: State, steps: seq<Step>, j: nat)
    requires Init(s0) && Legal(s0, steps) && j <= |steps|
    ensures Inv(After(s0, steps, j))
  {
    LegalPrefix(s0, steps, j);
    InitInv(s0);
    RunKeeps(s0, steps[..j]);
  }

  /** How far the call has come: bytes[|sent|..] are to go, or it is over. */
  predicate Wrote(c: Code, sent: seq<byte>, bytes: seq<byte>, gaveUp: bool) {
    && sent <= bytes
    && if gaveUp then Leaving(c) && sent != bytes
       else WritesOn(c, bytes[|sent|..]) || (Leaving(c) && sent == bytes)
  }

  lemma WroteStep(s: State, step: Step, p: nat, sent: seq<byte>, bytes: seq<byte>, gaveUp: bool)
    requires Holds(s.ring, s.stored, s.removed) && Enabled(s, step) && p in s.procs && !s.procs[p].Idle?
    requires Wrote(s.procs[p], sent, bytes, gaveUp)
    ensures var s' := Do(s, step);
      var put := if step == Perform(p) then Added(s.stored, s'.stored) else [];
      p in s'.procs && Wrote(s'.procs[p], sent + put, bytes, gaveUp || QuitsWriting(s, step, p))
  {
    var put := if step == Perform(p) then Added(s.stored, Do(s, step).stored) else [];
    if Leaving(s.procs[p]) {
      LeaveStep(s, step, p);
      assert sent + put == sent;
    } else {
      var todo := bytes[|sent|..];
      WriteStep(s, step, p, todo);
      assert sent + todo == bytes && bytes[|sent + put|..] == todo[|put|..];
      assert put != todo ==> sent + put != bytes;
    }
  }

  /** In every run, what a call of pipewrite has stored is the start of the bytes that it was called with. When it is
      over, that is all of them if and only if it has not given up on a full pipe. */
  lemma {:induction false} WriteCall(s0: State, steps: seq<Step>, p: nat, bytes: seq<byte>, k: nat, m: nat)
    requires Init(s0) && Legal(s0, steps) && k < m <= |steps| && steps[k] == StartWrite(p, bytes)
    requires Busy(s0, steps, p, k, m)
    ensures Sent(s0, steps, p, k, m) <= bytes && p in After(s0, steps, m).procs
    ensures After(s0, steps, m).procs[p].Idle? ==>
      (Sent(s0, steps, p, k, m) == bytes <==> !GaveUpWriting(s0, steps, p, k, m))
    ensures Wrote(After(s0, steps, m).procs[p], Sent(s0, steps, p, k, m), bytes, GaveUpWriting(s0, steps, p, k, m))
    decreases m
  {
    if m == k + 1 {
      AfterNext(s0, steps, k);
      assert Sent(s0, steps, p, k, k) == [] && Sent(s0, steps, p, k, m) == [];
      assert bytes[0..] == bytes;
    } else {
      WriteCall(s0, steps, p, bytes, k, m - 1);
      WriteNext(s0, steps, p, bytes, k, m - 1);
    }
  }

  lemma WriteNext(s0: State, steps: seq<Step>, p: nat, bytes: seq<byte>, k: nat, m: nat)
    requires Init(s0) && Legal(s0, steps) && k < m < |steps|
    requires p in After(s0, steps, m).procs && !After(s0, steps, m).procs[p].Idle?
    requires Wrote(After(s0, steps, m).procs[p], Sent(s0, steps, p, k, m), bytes, GaveUpWriting(s0, steps, p, k, m))
    ensures p in After(s0, steps, m + 1).procs
    ensures Wrote(After(s0, steps, m + 1).procs[p], Sent(s0, steps, p, k, m + 1), bytes,
        GaveUpWriting(s0, steps, p, k, m + 1))
  {
    AfterNext(s0, steps, m);
    AfterInv(s0, steps, m);
    var s := After(s0, steps, m);
    WroteStep(s, steps[m], p, Sent(s0, steps, p, k, m), bytes, GaveUpWriting(s0, steps, p, k, m));
    GaveUpNext(s0, steps, p, k, m);
  }

  lemma GaveUpNext(s0: State, steps: seq<Step>, p: nat, k: nat, m: nat)
    requires Legal(s0, steps) && k < m < |steps|
    ensures GaveUpWriting(s0, steps, p, k, m + 1) <==>
      GaveUpWriting(s0, steps, p, k, m) || QuitsWriting(After(s0, steps, m), steps[m], p)
  {
  }

  // ---- piperead ----

  /** The reader finds the pipe empty and open for writing, and itself killed. */
  ghost predicate QuitsReading(s: State, step: Step, p: nat) {
    && step == Perform(p) && p in s.procs && s.procs[p].At? && s.procs[p].k.ReadWait?
    && s.stored == s.removed && s.writeopen && p in s.killed
  }

  /** A read of n bytes ends with got in the caller's buffer: all n, or all that there is. */
  ghost predicate Returns(s: State, step: Step, p: nat, n: nat, got: seq<byte>) {
    && step == Perform(p) && p in s.procs && |got| <= n && s.procs[p] == At(ReadCopy(n - |got|, got))
    && (|got| == n || s.stored == s.removed) && (got == [] && n > 0 ==> !s.writeopen)
  }

  /** A read of n bytes waits, or has copied what it has taken, and not started on an empty pipe that is open. */
  ghost predicate ReadsOn(s: State, p: nat, n: nat, taken: seq<byte>) {
    && p in s.procs && !s.procs[p].Idle?
    && (|| (s.procs[p].k == ReadWait(n) && taken == [])
        || (&& |taken| <= n && s.procs[p] == At(ReadCopy(n - |taken|, taken))
            && (taken == [] ==> s.stored != s.removed || !s.writeopen)))
  }

  /** While p has the pipe lock, nobody else changes the pipe. */
  lemma LockedStep(s: State, step: Step, p: nat)
    requires Inv(s) && Enabled(s, step) && p in s.procs && s.procs[p].At? && step != Perform(p)
    ensures var s' := Do(s, step);
      p in s'.procs && s'.procs[p] == s.procs[p] && s'.stored == s.stored && s'.removed == s.removed &&
      s'.writeopen == s.writeopen
  {
    assert Orderly(s, p);
    forall q | q in s.procs && HasLock(s.procs[q]) ensures q == p {
      assert Orderly(s, q);
    }
  }

  lemma ReadAct(s: State, p: nat, n: nat, taken: seq<byte>)
    requires Inv(s) && Enabled(s, Perform(p)) && ReadsOn(s, p, n, taken)
    ensures var s' := Do(s, Perform(p));
      var got := Added(s.removed, s'.removed);
      if QuitsReading(s, Perform(p), p) then got == [] == taken && Leaving(s'.procs[p])
      else if Returns(s, Perform(p), p, n, taken) then got == [] && Leaving(s'.procs[p])
      else ReadsOn(s', p, n, taken + got)
  {
    Tests(s.ring, s.stored, s.removed);
    var s' := Do(s, Perform(p));
    if s.procs[p].k.ReadCopy? && |taken| < n && !Empty(s.ring) {
      assert s'.removed == s.removed + [Front(s.ring)];
      assert Added(s.removed, s'.removed) == [Front(s.ring)];
    } else {
      assert Added(s.removed, s.removed) == [] && taken + [] == taken;
    }
  }

  lemma ReadStep(s: State, step: Step, p: nat, n: nat, taken: seq<byte>)
    requires Inv(s) && Enabled(s, step) && ReadsOn(s, p, n, taken)
    ensures var s' := Do(s, step);
      var got := if step == Perform(p) then Added(s.removed, s'.removed) else [];
      p in s'.procs &&
      if QuitsReading(s, step, p) then got == [] == taken && Leaving(s'.procs[p])
      else if Returns(s, step, p, n, taken) then got == [] && Leaving(s'.procs[p])
      else ReadsOn(s', p, n, taken + got)
  {
    if step == Perform(p) {
      ReadAct(s, p, n, taken);
    } else {
      assert taken + [] == taken;
      OthersStep(s, step, p);
      if s.procs[p].k.ReadCopy? {
        LockedStep(s, step, p);
      }
    }
  }

  /** The call has come to an end at some step before m. */
  ghost predicate ReadOver(s0: State, steps: seq<Step>, p: nat, k: nat, m: nat, n: nat, taken: seq<byte>)
    requires Legal(s0, steps) && k < m <= |steps|
  {
    exists j :: k < j < m &&
      (|| Returns(After(s0, steps, j), steps[j], p, n, taken)
       || (taken == [] && QuitsReading(After(s0, steps, j), steps[j], p)))
  }

  /** In every run, a call of piperead for n bytes takes at most n out of the pipe. When it is over, it has handed back
      exactly those that it has taken, in that order: n, or all that there were; none of n > 0 only if the pipe was
      empty and closed for writing. Or it was killed while it waited, and has taken none. */
  lemma {:induction false} ReadCall(s0: State, steps: seq<Step>, p: nat, n: nat, k: nat, m: nat)
    requires Init(s0) && Legal(s0, steps) && k < m <= |steps| && steps[k] == StartRead(p, n)
    requires Busy(s0, steps, p, k, m)
    ensures |Taken(s0, steps, p, k, m)| <= n && p in After(s0, steps, m).procs
    ensures After(s0, steps, m).procs[p].Idle? ==> ReadOver(s0, steps, p, k, m, n, Taken(s0, steps, p, k, m))
    ensures ReadsOn(After(s0, steps, m), p, n, Taken(s0, steps, p, k, m)) ||
      (Leaving(After(s0, steps, m).procs[p]) && ReadOver(s0, steps, p, k, m, n, Taken(s0, steps, p, k, m)))
    decreases m
  {
    if m == k + 1 {
      AfterNext(s0, steps, k);
      assert Taken(s0, steps, p, k, k) == [] && Taken(s0, steps, p, k, m) == [];
    } else {
      ReadCall(s0, steps, p, n, k, m - 1);
      ReadNext(s0, steps, p, n, k, m - 1);
    }
  }

  lemma ReadNext(s0: State, steps: seq<Step>, p: nat, n: nat, k: nat, m: nat)
    requires Init(s0) && Legal(s0, steps) && k < m < |steps|
    requires p in After(s0, steps, m).procs && !After(s0, steps, m).procs[p].Idle?
    requires ReadsOn(After(s0, steps, m), p, n, Taken(s0, steps, p, k, m)) ||
      (Leaving(After(s0, steps, m).procs[p]) && ReadOver(s0, steps, p, k, m, n, Taken(s0, steps, p, k, m)))
    ensures p in After(s0, steps, m + 1).procs
    ensures ReadsOn(After(s0, steps, m + 1), p, n, Taken(s0, steps, p, k, m + 1)) ||
      (Leaving(After(s0, steps, m + 1).procs[p]) && ReadOver(s0, steps, p, k, m + 1, n, Taken(s0, steps, p, k, m + 1)))
  {
    AfterNext(s0, steps, m);
    AfterInv(s0, steps, m);
    var (s, taken) := (After(s0, steps, m), Taken(s0, steps, p, k, m));
    if ReadsOn(s, p, n, taken) {
      ReadStep(s, steps[m], p, n, taken);
      assert taken + [] == taken;
    } else {
      LeaveStep(s, steps[m], p);
      assert Added(s.removed, s.removed) == [] && taken + [] == taken;
    }
  }

  // ---- pipeclose ----

  predicate Open(s: State, side: Side) {
    if side == Reading then s.readopen else s.writeopen
  }

  /** An end that is closed stays closed. */
  lemma StaysClosed(s: State, step: Step, side: Side)
    requires Enabled(s, step) && !Open(s, side)
    ensures !Open(Do(s, step), side)
  {
  }

  lemma CloseStep(s: State, step: Step, p: nat, side: Side)
    requires Enabled(s, step) && p in s.procs && !s.procs[p].Idle?
    requires s.procs[p].k == CloseSide(side) || (Leaving(s.procs[p]) && !Open(s, side))
    ensures var s' := Do(s, step);
      && p in s'.procs
      && ((!s'.procs[p].Idle? && s'.procs[p].k == CloseSide(side)) || (Leaving(s'.procs[p]) && !Open(s', side)))
  {
    if step != Perform(p) {
      OthersStep(s, step, p);
    }
    if !Open(s, side) {
      StaysClosed(s, step, side);
    }
  }

  /** In every run, when a call of pipeclose is over, that end is closed. */
  lemma {:induction false} CloseCall(s0: State, steps: seq<Step>, p: nat, side: Side, k: nat, m: nat)
    requires Legal(s0, steps) && k < m <= |steps| && steps[k] == StartClose(p, side) && Busy(s0, steps, p, k, m)
    ensures p in After(s0, steps, m).procs
    ensures After(s0, steps, m).procs[p].Idle? ==> !Open(After(s0, steps, m), side)
    ensures var s := After(s0, steps, m);
      (!s.procs[p].Idle? && s.procs[p].k == CloseSide(side)) || (Leaving(s.procs[p]) && !Open(s, side))
    decreases m
  {
    if m == k + 1 {
      AfterNext(s0, steps, k);
    } else {
      CloseCall(s0, steps, p, side, k, m - 1);
      AfterNext(s0, steps, m - 1);
      CloseStep(After(s0, steps, m - 1), steps[m - 1], p, side);
    }
  }

  /** An end is closed only after a call of pipeclose for it. */
  lemma ClosedByCall(s0: State, steps: seq<Step>, side: Side, m: nat)
    requires Init(s0) && Legal(s0, steps) && m <= |steps| && !Open(After(s0, steps, m), side)
    ensures exists j, p :: 0 <= j < m && steps[j] == StartClose(p, side)
  {
    AfterInv(s0, steps, m);
    Held(s0, steps, side, m);
  }

  /** As long as there was no such call, somebody has the end open. */
  lemma {:induction false} Held(s0: State, steps: seq<Step>, side: Side, m: nat)
    requires Init(s0) && Legal(s0, steps) && m <= |steps|
    ensures (if side == Reading then After(s0, steps, m).readers else After(s0, steps, m).writers) ||
      exists j, p :: 0 <= j < m && steps[j] == StartClose(p, side)
    decreases m
  {
    if m > 0 {
      Held(s0, steps, side, m - 1);
      AfterNext(s0, steps, m - 1);
      var (s, step) := (After(s0, steps, m - 1), steps[m - 1]);
      if step.StartClose? && step.side == side {
        assert steps[m - 1] == StartClose(step.p, side);
      }
    }
  }

  // ---- All writers together ----

  /** Who has put each byte into the pipe. */
  ghost function Owners(s0: State, steps: seq<Step>, m: nat): (os: seq<nat>)
    requires Legal(s0, steps) && m <= |steps|
  {
    if m == 0 then []
    else Owners(s0, steps, m - 1) +
         if steps[m - 1].Perform? then
           seq(|Added(After(s0, steps, m - 1).stored, After(s0, steps, m).stored)|, _ => steps[m - 1].p)
         else []
  }

  /** The bytes that belong to p. */
  function Share(xs: seq<byte>, os: seq<nat>, p: nat): (r: seq<byte>)
    requires |xs| == |os|
  {
    if xs == [] then []
    else Share(xs[..|xs| - 1], os[..|os| - 1], p) + if os[|os| - 1] == p then [xs[|xs| - 1]] else []
  }

  /** A step puts in nothing, or one byte, and then it is an action of a writer. */
  lemma PutStep(s: State, step: Step)
    requires Enabled(s, step)
    ensures Do(s, step).stored == s.stored || (step.Perform? && PutOne(s.stored, Do(s, step).stored))
  {
    match step
    case Perform(p) => PutAct(s, p);
    case ScanOne(p, q) =>
    case TakeTable(p) =>
    case StartClose(p, side) =>
    case _ =>
  }

  predicate PutOne(a: seq<byte>, b: seq<byte>) {
    |b| == |a| + 1 && b[..|a|] == a
  }

  lemma PutAct(s: State, p: nat)
    requires Enabled(s, Perform(p))
    ensures var s' := Do(s, Perform(p)); s'.stored == s.stored || PutOne(s.stored, s'.stored)
  {
    var k := s.procs[p].k;
    if k.WriteLoop? && k.todo != [] && !Full(s.ring) {
      assert Effect(s, k).stored == s.stored + [k.todo[0]];
    }
  }

  /** In every run, the bytes put into the pipe are those that its writers have sent, in the order of each of them. */
  lemma {:induction false} StoredIsSent(s0: State, steps: seq<Step>, m: nat)
    requires Init(s0) && Legal(s0, steps) && m <= |steps|
    ensures |Owners(s0, steps, m)| == |After(s0, steps, m).stored|
    ensures forall p :: Share(After(s0, steps, m).stored, Owners(s0, steps, m), p) == Sent(s0, steps, p, 0, m)
    decreases m
  {
    if m > 0 {
      StoredIsSent(s0, steps, m - 1);
      AfterNext(s0, steps, m - 1);
      PutStep(After(s0, steps, m - 1), steps[m - 1]);
      OwnersNext(s0, steps, m - 1);
      forall p ensures Share(After(s0, steps, m).stored, Owners(s0, steps, m), p) == Sent(s0, steps, p, 0, m) {
        ShareNext(s0, steps, m - 1, p);
      }
    }
  }

  lemma OwnersNext(s0: State, steps: seq<Step>, m: nat)
    requires Legal(s0, steps) && m < |steps| && |Owners(s0, steps, m)| == |After(s0, steps, m).stored|
    requires var (a, b) := (After(s0, steps, m).stored, After(s0, steps, m + 1).stored);
      b == a || (steps[m].Perform? && PutOne(a, b))
    ensures var (a, b) := (After(s0, steps, m).stored, After(s0, steps, m + 1).stored);
      Owners(s0, steps, m + 1) == Owners(s0, steps, m) + if b == a then [] else [steps[m].p]
  {
    var (a, b) := (After(s0, steps, m).stored, After(s0, steps, m + 1).stored);
    AddedIs(a, b);
  }

  lemma AddedIs(a: seq<byte>, b: seq<byte>)
    requires b == a || PutOne(a, b)
    ensures Added(a, b) == if b == a then [] else [b[|a|]]
  {
  }

  lemma ShareNext(s0: State, steps: seq<Step>, m: nat, p: nat)
    requires Legal(s0, steps) && m < |steps| && |Owners(s0, steps, m)| == |After(s0, steps, m).stored|
    requires var (a, b) := (After(s0, steps, m).stored, After(s0, steps, m + 1).stored);
      && (b == a || (steps[m].Perform? && PutOne(a, b)))
      && Owners(s0, steps, m + 1) == Owners(s0, steps, m) + if b == a then [] else [steps[m].p]
    requires Share(After(s0, steps, m).stored, Owners(s0, steps, m), p) == Sent(s0, steps, p, 0, m)
    ensures Share(After(s0, steps, m + 1).stored, Owners(s0, steps, m + 1), p) == Sent(s0, steps, p, 0, m + 1)
  {
    var (a, b, os) := (After(s0, steps, m).stored, After(s0, steps, m + 1).stored, Owners(s0, steps, m));
    AddedIs(a, b);
    if b == a {
      assert Owners(s0, steps, m + 1) == os;
      assert Sent(s0, steps, p, 0, m) + [] == Sent(s0, steps, p, 0, m);
    } else {
      assert (os + [steps[m].p])[..|os|] == os;
    }
  }
}
