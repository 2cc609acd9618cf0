/** Callers of the log: whatever they do, the code of log.c makes a run of the machine. */
module LogRun {
  import opened Params
  import opened Sequences
  import opened Blocks
  import opened WriteAhead
  import opened BufferCache
  import opened Bcache
  import opened LogMachine
  import opened LogSafety
  import opened LogTheorems
  import opened Log

  /** begin_op, bread with log_write and brelse, or end_op. */
  datatype Call = Begin(caller: nat) | Update(op: nat, sector: uint, data: Block) | End(op: nat)

  /** The operations under way with the blocks that each has used up, and the callers that sleep. */
  datatype Users = Users(ops: map<nat, nat>, nextOp: nat, asleep: set<nat>)

  /** The log, the cache and the disk are as the machine has them. */
  ghost predicate Shows(j: Journal, u: Users, s: State)
    reads j, j.sector, j.cache, j.cache.buf
  {
    && j.Valid() && j.Idle() && j.Pinned() == SetOf(j.Lh()) && !j.committing && |u.ops| == j.outstanding
    && Reachable(j.l, s) && s.up && !s.committing && s.disk == j.cache.disk && s.lh == j.Lh()
    && s.ops == u.ops && s.nextOp == u.nextOp && s.asleep == u.asleep
    && |s.view| == |s.disk| && SameHome(j.l, s.view, j.cache.Logical())
  }

  ghost predicate SameHome(l: Layout, a: Disk, b: Disk) {
    |a| == |b| && forall x :: 0 <= x < l.start && x < |a| ==> a[x] == b[x]
  }

  // ---- log_write ----

  /** bread, a change, log_write and brelse. */
  method Put(j: Journal, sector: uint, data: Block)
    requires j.Valid() && j.Idle() && j.Pinned() == SetOf(j.Lh()) && j.outstanding >= 1
    requires sector < j.l.start && !TooBig(j.l, j.n)
    modifies j`n, j.sector, j.cache`disk, j.cache`writes, j.cache`order, j.cache.buf
    ensures j.Valid() && j.Idle() && j.Pinned() == SetOf(j.Lh()) && j.Lh() == Absorb(old(j.Lh()), sector)
    ensures j.cache.disk == old(j.cache.disk) && j.cache.writes == old(j.cache.writes)
    ensures j.cache.Logical() == old(j.cache.Logical())[sector := data]
  {
    SetOfSize(j.Lh());
    AbsorbSet(j.Lh(), sector);
    var b := Fetch(j.cache, sector, data);
    j.LogWrite(b);
    BrelseOne(j.cache, b);
  }

  /** bread of a block that is then changed. */
  method Fetch(c: Cache, sector: uint, data: Block) returns (b: nat)
    requires c.Valid() && Quiet(c.buf[..]) && sector < |c.disk| && |Dirty(c.buf[..])| < NBUF
    modifies c`disk, c`writes, c.buf
    ensures c.Valid() && c.disk == old(c.disk) && c.writes == old(c.writes)
    ensures c.Logical() == old(c.Logical())[sector := data] && Dirty(c.buf[..]) == old(Dirty(c.buf[..]))
    ensures b < NBUF && c.buf[b].valid && c.buf[b].sector == sector
    ensures forall i :: 0 <= i < NBUF ==> (c.buf[i].busy <==> i == b)
  {
    b := BreadSure(c, sector, {});
    ghost var was := c.buf[..];
    c.Modify(b, data);
    SameDirty(was, c.buf[..], b);
  }

  lemma AbsorbSet(lh: seq<uint>, s: uint)
    ensures SetOf(Absorb(lh, s)) == SetOf(lh) + {s}
  {
    assert s !in lh ==> (lh + [s])[|lh|] == s;
    assert forall x :: x in lh + [s] <==> x in lh || x == s;
  }

  // ---- begin_op and end_op ----

  lemma NewOp(l: Layout, s: State)
    requires Reachable(l, s)
    ensures s.nextOp !in s.ops
  {
    var d0 := ReachableInv(l, s);
  }

  /** A caller that sleeps does not call. */
  method BeginCall(j: Journal, u: Users, caller: nat, ghost s: State) returns (u': Users, ghost s': State)
    requires Shows(j, u, s)
    modifies j`outstanding
    ensures Shows(j, u', s') && s'.made == s.made
  {
    u', s' := u, s;
    if caller in u.asleep {
      return;
    }
    NewOp(j.l, s);
    s' := Do(j.l, s, BeginOp(caller));
    ReachableStep(j.l, s, BeginOp(caller));
    var admitted := j.BeginOp();
    if admitted {
      u' := Users(u.ops[u.nextOp := 0], u.nextOp + 1, u.asleep);
    } else {
      u' := u.(asleep := u.asleep + {caller});
    }
  }

  /** An operation that has used up its blocks does not write others. False is the panic of log_write. */
  method UpdateCall(j: Journal, u: Users, op: nat, sector: uint, data: Block, ghost s: State)
    returns (ok: bool, did: bool, u': Users, ghost s': State)
    requires Shows(j, u, s)
    modifies j`n, j.sector, j.cache`disk, j.cache`writes, j.cache`order, j.cache.buf
    ensures !ok ==> TooBig(j.l, old(j.n))
    ensures ok ==> Shows(j, u', s') && s'.made == s.made + if did then [OpWrite(op, sector, data)] else []
  {
    ok, did, u', s' := true, false, u, s;
    var logged := sector in j.sector[..j.n];
    if op !in u.ops || sector >= j.l.start || (!logged && u.ops[op] >= MAXOPBLOCKS) {
      return;
    }
    if j.n >= LOGSIZE || j.n >= j.l.size - 1 {
      ok := false;
      return;
    }
    did := true;
    s' := Do(j.l, s, LogMachine.LogWrite(op, sector, data));
    ReachableStep(j.l, s, LogMachine.LogWrite(op, sector, data));
    Put(j, sector, data);
    u' := if logged then u else u.(ops := u.ops[op := u.ops[op] + 1]);
  }

  /** One block write of a commit. */
  lemma WriteOne(l: Layout, s: State) returns (s': State)
    requires Reachable(l, s) && s.up && s.committing && HasBuffer(|s.lh|) && s.done < |s.script|
    ensures Reachable(l, s')
    ensures s' == s.(disk := ApplyOne(s.disk, s.script[s.done]), done := s.done + 1, committed := s'.committed)
  {
    ReachableStep(l, s, DiskWrite);
    s' := Do(l, s, DiskWrite);
  }

  lemma FinishOne(l: Layout, s: State) returns (s': State)
    requires Reachable(l, s) && s.up && s.committing && s.done == |s.script|
    ensures Reachable(l, s') && s'.up && !s'.committing && s'.lh == [] && s'.asleep == {}
    ensures s'.disk == s.disk && s'.view == s.view && s'.ops == s.ops && s'.nextOp == s.nextOp && s'.made == s.made
  {
    ReachableStep(l, s, Finish);
    s' := Do(l, s, Finish);
  }

  /** The rest of a commit, to its end. */
  lemma {:induction false} CommitOut(l: Layout, s: State) returns (s': State)
    requires Reachable(l, s) && s.up && s.committing && HasBuffer(|s.lh|) && s.done <= |s.script|
    ensures Reachable(l, s') && s'.up && !s'.committing && s'.lh == [] && s'.asleep == {}
    ensures s'.disk == Apply(s.disk, s.script[s.done..]) && s'.view == s.view && s'.ops == s.ops
    ensures s'.nextOp == s.nextOp && s'.made == s.made
    decreases |s.script| - s.done
  {
    if s.done == |s.script| {
      s' := FinishOne(l, s);
    } else {
      var s1 := WriteOne(l, s);
      s' := CommitOut(l, s1);
      assert s.script[s.done..] == [s.script[s.done]] + s.script[s.done + 1..];
      ApplyFirst(s.disk, s.script[s.done], s.script[s.done + 1..]);
    }
  }

  lemma ApplyFirst(d: Disk, w: Write, rest: seq<Write>)
    ensures Apply(d, [w] + rest) == Apply(ApplyOne(d, w), rest)
  {
    assert [w][..0] == [];
    ApplyConcat(d, [w], rest);
  }

  /** Only the listed blocks of the logical disk are in a commit. */
  lemma SameScript(l: Layout, lh: seq<uint>, a: Disk, b: Disk, head: Block)
    requires |lh| <= LOGSIZE && l.start <= |a| && SameHome(l, a, b) && forall i :: 0 <= i < |lh| ==> lh[i] < l.start
    ensures CommitWrites(l, lh, a, head) == CommitWrites(l, lh, b, head)
  {
  }

  lemma {:induction false} ApplySame(d: Disk, ws: seq<Write>, x: nat)
    requires x < |d| && forall i :: 0 <= i < |ws| && ws[i].sector == x ==> ws[i].data == d[x]
    ensures Apply(d, ws)[x] == d[x]
  {
    if ws != [] {
      ApplySame(d, ws[..|ws| - 1], x);
    }
  }

  /** A commit writes no home block that the logical disk does not have already. */
  lemma CommitHome(l: Layout, lh: seq<uint>, view: Disk, head: Block)
    requires |lh| <= LOGSIZE && l.start <= |view| && forall i :: 0 <= i < |lh| ==> lh[i] < l.start
    ensures SameHome(l, view, Apply(view, CommitWrites(l, lh, view, head)))
  {
    forall x | 0 <= x < l.start ensures Apply(view, CommitWrites(l, lh, view, head))[x] == view[x] {
      ApplySame(view, CommitWrites(l, lh, view, head), x);
    }
  }

  /** end_op while others go on. */
  method EndOne(j: Journal, u: Users, op: nat, ghost s: State) returns (u': Users, ghost s': State)
    requires Shows(j, u, s) && op in u.ops && |u.ops| > 1
    modifies j`n, j`outstanding, j`committing, j.cache`disk, j.cache`writes, j.cache`order, j.cache.buf
    ensures Shows(j, u', s') && s'.made == s.made
  {
    u', s' := Users(u.ops - {op}, u.nextOp, {}), Do(j.l, s, EndOp(op));
    ReachableStep(j.l, s, EndOp(op));
    assert |u.ops| == |u'.ops| + 1;
    var _ := j.EndOp();
  }

  /** The commit as the machine makes it. */
  lemma LastOut(l: Layout, s: State, op: nat, lh: seq<uint>, disk: Disk, view: Disk) returns (s': State)
    requires Reachable(l, s) && s.up && !s.committing && s.lh == lh && s.disk == disk && s.ops.Keys == {op}
    requires GoodList(l, lh) && Fits(l, disk) && |s.view| == |disk| && SameHome(l, s.view, view) && HasBuffer(|lh|)
    ensures Reachable(l, s') && s'.up && !s'.committing && s'.lh == [] && s'.asleep == {} && s'.ops == map[]
    ensures s'.nextOp == s.nextOp && s'.made == s.made && |s'.view| == |disk|
    ensures var ws := CommitWrites(l, lh, view, disk[l.start]);
      s'.disk == Apply(disk, ws) && SameHome(l, s'.view, Apply(view, ws))
  {
    var s1 := Do(l, s, EndOp(op));
    assert s.ops - {op} == map[];
    ReachableStep(l, s, EndOp(op));
    SameScript(l, lh, s.view, view, disk[l.start]);
    CommitHome(l, lh, view, disk[l.start]);
    assert s1.script[0..] == s1.script;
    s' := CommitOut(l, s1);
  }

  /** end_op of the last operation; false is the panic of bget in the commit. */
  method EndLast(j: Journal, u: Users, op: nat, ghost s: State) returns (ok: bool, u': Users, ghost s': State)
    requires Shows(j, u, s) && u.ops.Keys == {op}
    modifies j`n, j`outstanding, j`committing, j.cache`disk, j.cache`writes, j.cache`order, j.cache.buf
    ensures ok <==> HasBuffer(old(j.n))
    ensures ok ==> Shows(j, u', s') && s'.made == s.made
  {
    u', s' := Users(map[], u.nextOp, {}), s;
    assert |u.ops| == 1 by {
      assert |u.ops.Keys| == 1;
    }
    if HasBuffer(j.n) {
      s' := LastOut(j.l, s, op, j.Lh(), j.cache.disk, j.cache.Logical());
    }
    ok := j.EndOp();
  }

  /** end_op of an operation. */
  method EndCall(j: Journal, u: Users, op: nat, ghost s: State) returns (ok: bool, u': Users, ghost s': State)
    requires Shows(j, u, s)
    modifies j`n, j`outstanding, j`committing, j.cache`disk, j.cache`writes, j.cache`order, j.cache.buf
    ensures !ok ==> !HasBuffer(old(j.n))
    ensures ok ==> Shows(j, u', s') && s'.made == s.made
  {
    ok, u', s' := true, u, s;
    if op in u.ops {
      if |u.ops| > 1 {
        u', s' := EndOne(j, u, op, s);
      } else {
        assert u.ops.Keys == {op} by {
          assert |u.ops.Keys - {op}| == 0;
        }
        ok, u', s' := EndLast(j, u, op, s);
      }
    }
  }

  // ---- Whole runs ----

  method MakeCall(j: Journal, u: Users, c: Call, ghost s: State)
    returns (ok: bool, did: bool, u': Users, ghost s': State)
    requires Shows(j, u, s)
    modifies j, j.sector, j.cache, j.cache.buf
    ensures !ok ==> TooBig(j.l, old(j.n)) || !HasBuffer(old(j.n))
    ensures ok ==> Shows(j, u', s')
    ensures ok ==> s'.made == s.made + if c.Update? && did then [OpWrite(c.op, c.sector, c.data)] else []
  {
    ok, did := true, false;
    match c
    case Begin(caller) => u', s' := BeginCall(j, u, caller, s);
    case Update(op, sector, data) => ok, did, u', s' := UpdateCall(j, u, op, sector, data, s);
    case End(op) => ok, u', s' := EndCall(j, u, op, s);
  }

  /** Any calls, from a log that has just been recovered. The log, the cache and the disk are those of a state that the
      machine reaches with the same log_writes, in the same order. It ends early only with the panic of log_write on a
      full list or of bget on a full cache. */
  method RunCalls(j: Journal, calls: seq<Call>) returns (ok: bool, made: Txn, u: Users, ghost s: State)
    requires j.Valid() && j.Idle() && j.Pinned() == {} && j.n == 0 && j.outstanding == 0 && !j.committing
    requires Word(j.cache.disk[j.l.start], 0) == 0
    modifies j, j.sector, j.cache, j.cache.buf
    ensures !ok ==> TooBig(j.l, |s.lh|) || !HasBuffer(|s.lh|)
    ensures Reachable(j.l, s) && s.made == made && (ok ==> Shows(j, u, s))
  {
    ok, made, u := true, [], Users(map[], 0, {});
    var d := j.cache.disk;
    s := State(d, d, [], map[], 0, false, true, [], 0, {}, d, [], [], [], []);
    UnpinnedBlocks(j.cache.buf[..], d);
    Started(j.l, s);
    var i := 0;
    while i < |calls|
      invariant 0 <= i <= |calls| && Shows(j, u, s) && s.made == made
    {
      var did; ghost var s';
      var u';
      ok, did, u', s' := MakeCall(j, u, calls[i], s);
      if !ok {
        return;
      }
      if calls[i].Update? && did {
        made := made + [OpWrite(calls[i].op, calls[i].sector, calls[i].data)];
      }
      u, s, i := u', s', i + 1;
    }
  }

  lemma Started(l: Layout, s: State)
    requires Init(l, s)
    ensures Reachable(l, s)
  {
    assert Legal(l, s, []) && Run(l, s, []) == s;
  }
}
