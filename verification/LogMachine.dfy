/** Group commit (log.c) as a step machine: any number of file-system calls
    share a transaction, the committer sends one block at a time to the disk,
    and power may fail between any two steps, also during recovery.

    `log_write` edits the list of logged sectors without taking the log lock;
    here it is one atomic step together with the change of the buffer. A block
    write is atomic. */
module LogMachine {
  import opened Blocks
  import opened WriteAhead
  import BufferCache

  /** One log_write: which operation made it, and the block it leaves behind. */
  datatype OpWrite = OpWrite(op: nat, sector: uint, data: Block)
  type Txn = seq<OpWrite>

  /** `up` is false while recovery runs. `script` is the list of block writes
      that the commit or recovery under way has to make, `done` how many of them
      the disk has seen, `origin` the disk they started from. The last four
      fields are history: nothing the code does depends on them. */
  datatype State = State(
    disk: Disk,
    view: Disk,
    lh: seq<uint>,
    ops: map<nat, nat>,
    nextOp: nat,
    committing: bool,
    up: bool,
    script: seq<Write>,
    done: nat,
    asleep: set<nat>,
    origin: Disk,
    txn: Txn,
    made: Txn,
    committed: seq<Txn>,
    returned: seq<Txn>)

  datatype Step =
    | BeginOp(caller: nat)
    | LogWrite(op: nat, sector: uint, data: Block)
    | EndOp(op: nat)
    | DiskWrite
    | Finish
    | Crash
    | Rebooted

  // ---- Steps ----

  ghost predicate Init(l: Layout, s: State) {
    && Fits(l, s.disk) && Word(s.disk[l.start], 0) == 0
    && s == State(s.disk, s.disk, [], map[], 0, false, true, [], 0, {}, s.disk, [], [], [], [])
  }

  /** The test of begin_op. */
  predicate Admissible(committing: bool, n: nat, outstanding: nat) {
    !committing && n + (outstanding + 1) * MAXOPBLOCKS <= LOGSIZE
  }

  /** The panic test at the head of log_write. */
  predicate TooBig(l: Layout, n: nat) {
    n >= LOGSIZE || n >= l.size - 1
  }

  /** A commit of n blocks finds a buffer for a log block beside the n pinned ones. */
  predicate HasBuffer(n: nat) {
    n < BufferCache.NBUF
  }

  /** The list of logged sectors after log_write; a sector already on it is absorbed. */
  function Absorb(lh: seq<uint>, s: uint): (r: seq<uint>) {
    if s in lh then lh else lh + [s]
  }

  /** A log_write that stays within what the operation reserved: a sector below
      the log, and either one that is already logged or one of at most
      MAXOPBLOCKS new ones. */
  ghost predicate WithinQuota(l: Layout, s: State, op: nat, sector: uint) {
    op in s.ops && sector < l.start && (sector in s.lh || s.ops[op] < MAXOPBLOCKS)
  }

  ghost predicate Enabled(l: Layout, s: State, step: Step) {
    match step
    case BeginOp(caller) => s.up && caller !in s.asleep
    case LogWrite(op, sector, data) => s.up && WithinQuota(l, s, op, sector) && !TooBig(l, |s.lh|)
    case EndOp(op) =>
      && s.up && op in s.ops && !s.committing
      && |s.lh| <= LOGSIZE && l.start < |s.disk| && forall i :: 0 <= i < |s.lh| ==> s.lh[i] < |s.view|
    case DiskWrite => s.done < |s.script| && (s.up ==> HasBuffer(|s.lh|))
    case Finish => s.up && s.committing && s.done == |s.script|
    case Crash => Fits(l, s.disk) && Word(s.disk[l.start], 0) <= LOGSIZE && Word(s.disk[l.start], 0) < l.size
    case Rebooted => !s.up && s.done == |s.script|
  }

  ghost function Do(l: Layout, s: State, step: Step): (s': State)
    requires Enabled(l, s, step)
  {
    match step
    case BeginOp(caller) =>
      if Admissible(s.committing, |s.lh|, |s.ops|)
      then s.(ops := s.ops[s.nextOp := 0], nextOp := s.nextOp + 1)
      else s.(asleep := s.asleep + {caller})
    case LogWrite(op, sector, data) =>
      s.(view := if sector < |s.view| then s.view[sector := data] else s.view,
         lh := Absorb(s.lh, sector),
         ops := if sector in s.lh then s.ops else s.ops[op := s.ops[op] + 1],
         txn := s.txn + [OpWrite(op, sector, data)],
         made := s.made + [OpWrite(op, sector, data)])
    case EndOp(op) =>
      var ops := s.ops - {op};
      if |ops| == 0
      then s.(ops := ops, committing := true, origin := s.disk,
              script := CommitWrites(l, s.lh, s.view, s.disk[l.start]), done := 0)
      else s.(ops := ops, asleep := {})
    case DiskWrite =>
      // In a commit, the write behind the log blocks is the header.
      s.(disk := ApplyOne(s.disk, s.script[s.done]),
         done := s.done + 1,
         committed := if s.up && s.done == |s.lh| then s.committed + [s.txn] else s.committed)
    case Finish =>
      s.(committing := false, asleep := {}, lh := [], script := [], done := 0, origin := s.disk,
         returned := s.returned + (if s.txn == [] then [] else [s.txn]), txn := [])
    case Crash =>
      s.(view := s.disk, lh := [], ops := map[], committing := false, up := false, asleep := {},
         origin := s.disk, script := RecoverWrites(l, s.disk), done := 0, txn := [])
    case Rebooted =>
      s.(up := true, view := s.disk, origin := s.disk, script := [], done := 0)
  }

  /** The steps can be taken one after the other from s. */
  ghost predicate Legal(l: Layout, s: State, steps: seq<Step>)
    decreases |steps|
  {
    steps == [] || (Enabled(l, s, steps[0]) && Legal(l, Do(l, s, steps[0]), steps[1..]))
  }

  ghost function Run(l: Layout, s: State, steps: seq<Step>): (s': State)
    requires Legal(l, s, steps)
    decreases |steps|
  {
    if steps == [] then s else Run(l, Do(l, s, steps[0]), steps[1..])
  }

  ghost predicate Reachable(l: Layout, s: State) {
    exists s0: State, steps: seq<Step> :: Init(l, s0) && Legal(l, s0, steps) && Run(l, s0, steps) == s
  }
}
