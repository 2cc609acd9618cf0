/** The process table of proc.c as a machine: any number of processors run processes that
    fork, exit, wait, sleep, wake and kill. The loops over the table take one step per entry,
    under the table lock; the writes that fork makes without the lock are steps of their own. */
module ProcMachine {
  import opened Options

  datatype Mode = UNUSED | EMBRYO | SLEEPING | RUNNABLE | RUNNING | ZOMBIE

  /** A sleep channel: the address of a table entry, or any other address. */
  datatype Chan = NoChan | Entry(p: nat) | Other(k: nat)

  /** Where the process is in the kernel when it has no lock: anywhere else, in fork with
      the new entry (parent set or not), or in the loop of wait. */
  datatype Code = User | Forking(np: nat, linked: bool) | Waiting

  datatype Proc = Proc(mode: Mode, pid: nat, parent: Option<nat>, chan: Chan, killed: bool, code: Code)

  type Table = seq<Proc>

  /** Who has the table lock, and how far it is through the table. */
  datatype Lock =
    | Free
    | Alloc(p: nat, i: nat)
    | Exit(p: nat, i: nat)
    | Wait(p: nat, i: nat, kids: bool)

  datatype State = State(t: Table, nextpid: nat, init: nat, lock: Lock)

  datatype Step =
    | ForkStart(p: nat)
    | AllocScan
    | ForkFail(p: nat)
    | ForkLink(p: nat)
    | ForkDone(p: nat)
    | ExitStart(p: nat)
    | ExitScan
    | WaitStart(p: nat)
    | WaitScan
    | Schedule(p: nat)
    | Yield(p: nat)
    | Sleep(p: nat, k: nat)
    | Wakeup(k: nat)
    | Kill(i: nat)

  /** wakeup1 on one entry. */
  function Roused(q: Proc, chan: Chan): (r: Proc) {
    if q.mode == SLEEPING && q.chan == chan then q.(mode := RUNNABLE) else q
  }

  function Woken(t: Table, chan: Chan): (r: Table)
    ensures |r| == |t|
  {
    seq<Proc>(|t|, i requires 0 <= i < |t| => Roused(t[i], chan))
  }

  predicate Runs(s: State, p: nat, code: Code) {
    p < |s.t| && s.t[p].mode == RUNNING && s.t[p].code == code
  }

  predicate InFork(s: State, p: nat, linked: bool) {
    && p < |s.t| && s.t[p].mode == RUNNING
    && s.t[p].code.Forking? && s.t[p].code.linked == linked && s.t[p].code.np < |s.t|
  }

  predicate Enabled(s: State, step: Step) {
    match step
    case ForkStart(p) => s.lock == Free && Runs(s, p, User)
    case AllocScan => s.lock.Alloc? && s.lock.p < |s.t|
    case ForkFail(p) => InFork(s, p, false)
    case ForkLink(p) => InFork(s, p, false)
    case ForkDone(p) => s.lock == Free && InFork(s, p, true)
    case ExitStart(p) => s.lock == Free && Runs(s, p, User) && p != s.init && s.t[p].parent.Some?
    case ExitScan => s.lock.Exit? && s.lock.p < |s.t| && s.init < |s.t|
    case WaitStart(p) => s.lock == Free && Runs(s, p, User)
    case WaitScan => s.lock.Wait? && s.lock.p < |s.t|
    case Schedule(p) => s.lock == Free && p < |s.t| && s.t[p].mode == RUNNABLE
    case Yield(p) => s.lock == Free && p < |s.t| && s.t[p].mode == RUNNING && s.t[p].code != Waiting
    case Sleep(p, _) => s.lock == Free && Runs(s, p, User)
    case Wakeup(_) => s.lock == Free
    case Kill(i) => s.lock == Free && i < |s.t| && forall j :: 0 <= j < i ==> s.t[j].pid != s.t[i].pid
  }

  function Set(s: State, i: nat, q: Proc): (r: State)
    requires i < |s.t|
    ensures r == s.(t := r.t) && |r.t| == |s.t| && r.t[i] == q
    ensures forall j :: 0 <= j < |s.t| && j != i ==> r.t[j] == s.t[j]
  {
    s.(t := s.t[i := q])
  }

  /** One entry of allocproc's search. */
  function AllocNext(s: State): (r: State)
    requires s.lock.Alloc? && s.lock.p < |s.t|
  {
    var p, i := s.lock.p, s.lock.i;
    if i >= |s.t| then s.(lock := Free)
    else if s.t[i].mode == UNUSED then
      var s1 := Set(s, i, s.t[i].(mode := EMBRYO, pid := s.nextpid, code := User));
      Set(s1, p, s1.t[p].(code := Forking(i, false))).(nextpid := s.nextpid + 1, lock := Free)
    else s.(lock := Alloc(p, i + 1))
  }

  /** One entry of exit's search for children; after the last the process is a zombie. */
  function ExitNext(s: State): (r: State)
    requires s.lock.Exit? && s.lock.p < |s.t| && s.init < |s.t|
  {
    var p, i := s.lock.p, s.lock.i;
    if i >= |s.t| then Set(s, p, s.t[p].(mode := ZOMBIE)).(lock := Free)
    else if s.t[i].parent != Some(p) then s.(lock := Exit(p, i + 1))
    else
      var s1 := Set(s, i, s.t[i].(parent := Some(s.init))).(lock := Exit(p, i + 1));
      if s.t[i].mode == ZOMBIE then s1.(t := Woken(s1.t, Entry(s.init))) else s1
  }

  /** One entry of wait's search for a zombie; after the last the process returns or sleeps. */
  function WaitNext(s: State): (r: State)
    requires s.lock.Wait? && s.lock.p < |s.t|
  {
    var p, i, kids := s.lock.p, s.lock.i, s.lock.kids;
    if i >= |s.t| then
      if !kids || s.t[p].killed then Set(s, p, s.t[p].(code := User)).(lock := Free)
      else Set(s, p, s.t[p].(mode := SLEEPING, chan := Entry(p))).(lock := Free)
    else if s.t[i].parent != Some(p) then s.(lock := Wait(p, i + 1, kids))
    else if s.t[i].mode != ZOMBIE then s.(lock := Wait(p, i + 1, true))
    else
      var s1 := Set(s, i, s.t[i].(mode := UNUSED, pid := 0, parent := None, killed := false));
      Set(s1, p, s1.t[p].(code := User)).(lock := Free)
  }

  function Do(s: State, step: Step): (r: State)
    requires Enabled(s, step)
  {
    match step
    case ForkStart(p) => s.(lock := Alloc(p, 0))
    case AllocScan => AllocNext(s)
    case ForkFail(p) =>
      var np := s.t[p].code.np;
      var s1 := Set(s, np, s.t[np].(mode := UNUSED));
      Set(s1, p, s1.t[p].(code := User))
    case ForkLink(p) =>
      var np := s.t[p].code.np;
      var s1 := Set(s, np, s.t[np].(parent := Some(p)));
      Set(s1, p, s1.t[p].(code := Forking(np, true)))
    case ForkDone(p) =>
      var np := s.t[p].code.np;
      var s1 := Set(s, np, s.t[np].(mode := RUNNABLE));
      Set(s1, p, s1.t[p].(code := User))
    case ExitStart(p) => s.(t := Woken(s.t, Entry(s.t[p].parent.value)), lock := Exit(p, 0))
    case ExitScan => ExitNext(s)
    case WaitStart(p) => Set(s, p, s.t[p].(code := Waiting)).(lock := Wait(p, 0, false))
    case WaitScan => WaitNext(s)
    case Schedule(p) =>
      var s1 := Set(s, p, s.t[p].(mode := RUNNING, chan := NoChan));
      if s.t[p].code == Waiting then s1.(lock := Wait(p, 0, false)) else s1
    case Yield(p) => Set(s, p, s.t[p].(mode := RUNNABLE))
    case Sleep(p, k) => Set(s, p, s.t[p].(mode := SLEEPING, chan := Other(k)))
    case Wakeup(k) => s.(t := Woken(s.t, Other(k)))
    case Kill(i) =>
      Set(s, i, s.t[i].(killed := true, mode := if s.t[i].mode == SLEEPING then RUNNABLE else s.t[i].mode))
  }

  predicate Legal(s: State, steps: seq<Step>)
    decreases |steps|
  {
    steps == [] || (Enabled(s, steps[0]) && Legal(Do(s, steps[0]), steps[1..]))
  }

  function Run(s: State, steps: seq<Step>): (r: State)
    requires Legal(s, steps)
    decreases |steps|
  {
    if steps == [] then s else Run(Do(s, steps[0]), steps[1..])
  }

  /** After userinit: the first entry is init with pid 1, the others are free. */
  function Boot(n: nat): (s: State)
    requires n > 0
  {
    State(
      seq<Proc>(n, i requires 0 <= i < n =>
        if i == 0 then Proc(RUNNABLE, 1, None, NoChan, false, User) else Proc(UNUSED, 0, None, NoChan, false, User)),
      2, 0, Free)
  }

  ghost predicate Reachable(s: State) {
    exists n: nat, steps: seq<Step> :: n > 0 && Legal(Boot(n), steps) && s == Run(Boot(n), steps)
  }
}
