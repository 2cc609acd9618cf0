/** What wakeup, kill, sleep, the scheduler and the end of fork do to the process table, entry by entry. */
module ProcLaws {
  import opened Options
  import opened ProcMachine

  /** Entry i of the table becomes q, and all else is as before. */
  predicate OnlyEntry(s: State, s': State, i: nat, q: Proc) {
    && i < |s.t| == |s'.t| && s'.t[i] == q && s'.nextpid == s.nextpid && s'.init == s.init && s'.lock == s.lock
    && forall j :: 0 <= j < |s.t| && j != i ==> s'.t[j] == s.t[j]
  }

  /** After wakeup nobody sleeps on that channel: exactly its sleepers have become runnable. */
  lemma WakeupLaw(s: State, k: nat)
    requires Enabled(s, Wakeup(k))
    ensures var s' := Do(s, Wakeup(k));
      && |s'.t| == |s.t| && (forall j :: 0 <= j < |s.t| ==> !(s'.t[j].mode == SLEEPING && s'.t[j].chan == Other(k)))
      && (forall j :: 0 <= j < |s.t| && s.t[j].mode == SLEEPING && s.t[j].chan == Other(k) ==>
           s'.t[j] == s.t[j].(mode := RUNNABLE))
      && (forall j :: 0 <= j < |s.t| && !(s.t[j].mode == SLEEPING && s.t[j].chan == Other(k)) ==> s'.t[j] == s.t[j])
      && s' == s.(t := s'.t)
  {
  }

  /** A process that sleeps can run again after the next wakeup of its channel. */
  lemma SleepThenWakeup(s: State, p: nat, k: nat)
    requires Enabled(s, Sleep(p, k))
    ensures OnlyEntry(s, Do(s, Sleep(p, k)), p, s.t[p].(mode := SLEEPING, chan := Other(k)))
    ensures Enabled(Do(s, Sleep(p, k)), Wakeup(k))
    ensures Enabled(Do(Do(s, Sleep(p, k)), Wakeup(k)), Schedule(p))
  {
    var s1 := Do(s, Sleep(p, k));
    assert s1.t[p].mode == SLEEPING && s1.t[p].chan == Other(k);
    WakeupLaw(s1, k);
  }

  /** kill marks one entry, the first with that pid, and a sleeper there can run. */
  lemma KillLaw(s: State, i: nat)
    requires Enabled(s, Kill(i))
    ensures OnlyEntry(s, Do(s, Kill(i)), i,
        Proc(if s.t[i].mode == SLEEPING then RUNNABLE else s.t[i].mode, s.t[i].pid, s.t[i].parent, s.t[i].chan, true,
            s.t[i].code))
    ensures forall j :: 0 <= j < i ==> s.t[j].pid != s.t[i].pid
  {
  }

  /** A process gives up the processor and gets it back as it was, but for its channel. */
  lemma YieldThenSchedule(s: State, p: nat)
    requires Enabled(s, Yield(p))
    ensures OnlyEntry(s, Do(s, Yield(p)), p, s.t[p].(mode := RUNNABLE))
    ensures Enabled(Do(s, Yield(p)), Schedule(p))
    ensures OnlyEntry(s, Do(Do(s, Yield(p)), Schedule(p)), p, s.t[p].(chan := NoChan))
  {
  }

  /** The end of fork: the new entry is runnable, a child of p, and otherwise what allocproc has made of it. */
  lemma ForkEnds(s: State, p: nat)
    requires Enabled(s, ForkLink(p)) && s.t[p].code.np != p && s.lock == Free
    ensures Enabled(Do(s, ForkLink(p)), ForkDone(p))
    ensures var (s', np) := (Do(Do(s, ForkLink(p)), ForkDone(p)), s.t[p].code.np);
      && |s'.t| == |s.t| && s'.t[np] == s.t[np].(mode := RUNNABLE, parent := Some(p))
      && s'.t[p] == s.t[p].(code := User)
      && s' == s.(t := s'.t) && forall j :: 0 <= j < |s.t| && j != np && j != p ==> s'.t[j] == s.t[j]
  {
  }
}
