/** Any number of processes: their memory stays apart, and comes back when they end. */
module VmShare {
  import opened Options
  import opened Blocks
  import opened PageTable
  import opened Vm
  import opened VmLife

  datatype Proc = Proc(pd: nat, sz: nat)

  /** A new process from nothing, a copy of process i, more or less memory for it, or its end. */
  datatype Cmd = Start | Clone(i: nat) | Resize(i: nat, n: int) | End(i: nat)

  ghost predicate Alive(tabs: Tables, pages: map<nat, Page>, p: Proc) {
    UserOk(tabs, pages, p.pd) && Tabled(tabs, p.pd, PagesOf(p.sz)) && p.sz < KERNPAGE * PGSIZE
  }

  ghost predicate Apart(tabs: Tables, pd: nat, d: nat) {
    && Space(tabs, pd) && Space(tabs, d)
    && OwnTabs(tabs, pd) !! OwnTabs(tabs, d) && UserFrames(tabs, pd) !! UserFrames(tabs, d)
  }

  /** No frame belongs to two processes. */
  ghost predicate Share(tabs: Tables, pages: map<nat, Page>, ps: seq<Proc>) {
    && (forall i :: 0 <= i < |ps| ==> Alive(tabs, pages, ps[i]))
    && (forall i, j :: 0 <= i < |ps| && 0 <= j < |ps| && i != j ==> Apart(tabs, ps[i].pd, ps[j].pd))
  }

  /** The frames of the directory and tables of each process. */
  ghost function TabSets(tabs: Tables, pages: map<nat, Page>, ps: seq<Proc>): (ss: seq<set<nat>>)
    requires Share(tabs, pages, ps)
    ensures |ss| == |ps| && forall i :: 0 <= i < |ps| ==> ss[i] == OwnTabs(tabs, ps[i].pd)
  {
    seq<set<nat>>(|ps|, i requires 0 <= i < |ps| => OwnTabs(tabs, ps[i].pd))
  }

  /** The frames of the pages of each process. */
  ghost function FrameSets(tabs: Tables, pages: map<nat, Page>, ps: seq<Proc>): (ss: seq<set<nat>>)
    requires Share(tabs, pages, ps)
    ensures |ss| == |ps| && forall i :: 0 <= i < |ps| ==> ss[i] == UserFrames(tabs, ps[i].pd)
  {
    seq<set<nat>>(|ps|, i requires 0 <= i < |ps| => UserFrames(tabs, ps[i].pd))
  }

  /** Apart from the frames of processes, memory is tabs0 and pages0. */
  ghost predicate Inv(tabs0: Tables, pages0: map<nat, Page>, tabs: Tables, pages: map<nat, Page>, ps: seq<Proc>) {
    && Share(tabs, pages, ps)
    && Rest(tabs, TabSets(tabs, pages, ps)) == tabs0 && Rest(pages, FrameSets(tabs, pages, ps)) == pages0
  }

  // ---- What is in none of some sets ----

  ghost function Rest<T>(m: map<nat, T>, ss: seq<set<nat>>): (r: map<nat, T>) {
    map f | f in m && (forall i :: 0 <= i < |ss| ==> f !in ss[i]) :: m[f]
  }

  lemma RestSet<T>(m: map<nat, T>, m': map<nat, T>, ss: seq<set<nat>>, i: nat, s: set<nat>)
    requires i < |ss| && m' - s == m - ss[i]
    ensures Rest(m', ss[i := s]) == Rest(m, ss)
  {
    var ss' := ss[i := s];
    forall f ensures f in Rest(m', ss') <==> f in Rest(m, ss) {
      assert f in m' && f !in s <==> f in m && f !in ss[i] by {
        assert f in m' - s <==> f in m - ss[i];
      }
      assert ss'[i] == s && forall j :: 0 <= j < |ss| && j != i ==> ss'[j] == ss[j];
    }
    forall f | f in Rest(m, ss) ensures m'[f] == m[f] {
      assert (m' - s)[f] == (m - ss[i])[f];
    }
  }

  lemma RestAdd<T>(m: map<nat, T>, m': map<nat, T>, ss: seq<set<nat>>, s: set<nat>)
    requires Extends(m, m') && m'.Keys == m.Keys + s && s !! m.Keys
    ensures Rest(m', ss + [s]) == Rest(m, ss)
  {
    var ss' := ss + [s];
    forall f ensures f in Rest(m', ss') <==> f in Rest(m, ss) {
      assert ss'[|ss|] == s && forall j :: 0 <= j < |ss| ==> ss'[j] == ss[j];
    }
  }

  lemma RestDrop<T>(m: map<nat, T>, ss: seq<set<nat>>, i: nat)
    requires i < |ss|
    ensures Rest(m - ss[i], ss[..i] + ss[i + 1..]) == Rest(m, ss)
  {
    var ss' := ss[..i] + ss[i + 1..];
    forall f ensures f in Rest(m - ss[i], ss') <==> f in Rest(m, ss) {
      assert forall j :: 0 <= j < i ==> ss'[j] == ss[j];
      assert forall j :: i < j < |ss| ==> ss'[j - 1] == ss[j];
    }
  }

  // ---- One process changes, and the others stay ----

  /** Another process is as it was, and still apart. */
  lemma OtherStays(tabs: Tables, pages: map<nat, Page>, tabs': Tables, pages': map<nat, Page>, pd: nat, q: Proc)
    requires SameRest(tabs, pages, tabs', pages', pd) && Alive(tabs, pages, q) && Apart(tabs, pd, q.pd)
    ensures Alive(tabs', pages', q) && Apart(tabs', pd, q.pd)
    ensures OwnTabs(tabs', q.pd) == OwnTabs(tabs, q.pd) && UserFrames(tabs', q.pd) == UserFrames(tabs, q.pd)
  {
    var rest, restPages := tabs - OwnTabs(tabs, pd), pages - UserFrames(tabs, pd);
    assert OwnTabs(tabs, q.pd) <= rest.Keys && rest == tabs' - OwnTabs(tabs', pd);
    SpaceStays(tabs, tabs', q.pd);
    assert q.pd in rest && tabs'[q.pd] == tabs[q.pd];
    forall n | 0 <= n < KERNPAGE && Entry(tabs', q.pd, n).Present? ensures Entry(tabs', q.pd, n).frame in restPages {
      assert Entry(tabs', q.pd, n).frame in UserFrames(tabs, q.pd);
    }
    assert UserFrames(tabs', q.pd) == UserFrames(tabs, q.pd) <= restPages.Keys == (pages' - UserFrames(tabs', pd)).Keys;
  }

  /** Process i goes on with other memory. */
  lemma ResizeKeeps(tabs0: Tables, pages0: map<nat, Page>, tabs: Tables, pages: map<nat, Page>, tabs': Tables,
      pages': map<nat, Page>, ps: seq<Proc>, i: nat, p: Proc)
    requires Inv(tabs0, pages0, tabs, pages, ps) && i < |ps| && p.pd == ps[i].pd && Alive(tabs', pages', p)
    requires SameRest(tabs, pages, tabs', pages', p.pd)
    ensures Inv(tabs0, pages0, tabs', pages', ps[i := p])
  {
    var ps' := ps[i := p];
    forall j | 0 <= j < |ps| && j != i
      ensures Alive(tabs', pages', ps'[j]) && Apart(tabs', p.pd, ps'[j].pd)
      ensures OwnTabs(tabs', ps'[j].pd) == OwnTabs(tabs, ps[j].pd)
      ensures UserFrames(tabs', ps'[j].pd) == UserFrames(tabs, ps[j].pd)
    {
      OtherStays(tabs, pages, tabs', pages', p.pd, ps[j]);
    }
    assert Share(tabs', pages', ps');
    var (ts, us) := (TabSets(tabs, pages, ps), FrameSets(tabs, pages, ps));
    assert TabSets(tabs', pages', ps') == ts[i := OwnTabs(tabs', p.pd)];
    assert FrameSets(tabs', pages', ps') == us[i := UserFrames(tabs', p.pd)];
    RestSet(tabs, tabs', ts, i, OwnTabs(tabs', p.pd));
    RestSet(pages, pages', us, i, UserFrames(tabs', p.pd));
  }

  // ---- A process more, or fewer ----

  /** Where memory only gets more, a process is as it was. */
  lemma ExtendStays(tabs: Tables, pages: map<nat, Page>, tabs': Tables, pages': map<nat, Page>, q: Proc)
    requires Alive(tabs, pages, q) && Extends(tabs, tabs') && Extends(pages, pages')
    ensures Alive(tabs', pages', q)
    ensures OwnTabs(tabs', q.pd) == OwnTabs(tabs, q.pd) && UserFrames(tabs', q.pd) == UserFrames(tabs, q.pd)
    ensures OwnTabs(tabs, q.pd) <= tabs.Keys && UserFrames(tabs, q.pd) <= pages.Keys
  {
    assert OwnTabs(tabs, q.pd) <= tabs.Keys;
    SpaceStays(tabs, tabs', q.pd);
  }

  /** A process more, made of new frames. */
  lemma AddKeeps(tabs0: Tables, pages0: map<nat, Page>, tabs: Tables, pages: map<nat, Page>, tabs': Tables,
      pages': map<nat, Page>, ps: seq<Proc>, p: Proc)
    requires Inv(tabs0, pages0, tabs, pages, ps) && Alive(tabs', pages', p)
    requires Extends(tabs, tabs') && Extends(pages, pages')
    requires tabs'.Keys == tabs.Keys + OwnTabs(tabs', p.pd) && OwnTabs(tabs', p.pd) !! tabs.Keys
    requires pages'.Keys == pages.Keys + UserFrames(tabs', p.pd) && UserFrames(tabs', p.pd) !! pages.Keys
    ensures Inv(tabs0, pages0, tabs', pages', ps + [p])
  {
    var ps' := ps + [p];
    forall j | 0 <= j < |ps|
      ensures Alive(tabs', pages', ps'[j]) && Apart(tabs', p.pd, ps'[j].pd)
      ensures OwnTabs(tabs', ps'[j].pd) == OwnTabs(tabs, ps[j].pd)
      ensures UserFrames(tabs', ps'[j].pd) == UserFrames(tabs, ps[j].pd)
    {
      ExtendStays(tabs, pages, tabs', pages', ps[j]);
    }
    assert ps'[|ps|] == p;
    assert Share(tabs', pages', ps');
    var (ts, us) := (TabSets(tabs, pages, ps), FrameSets(tabs, pages, ps));
    assert TabSets(tabs', pages', ps') == ts + [OwnTabs(tabs', p.pd)];
    assert FrameSets(tabs', pages', ps') == us + [UserFrames(tabs', p.pd)];
    RestAdd(tabs, tabs', ts, OwnTabs(tabs', p.pd));
    RestAdd(pages, pages', us, UserFrames(tabs', p.pd));
  }

  /** A process fewer, whose frames are gone. */
  lemma EndKeeps(tabs0: Tables, pages0: map<nat, Page>, tabs: Tables, pages: map<nat, Page>, tabs': Tables,
      pages': map<nat, Page>, ps: seq<Proc>, i: nat)
    requires Inv(tabs0, pages0, tabs, pages, ps) && i < |ps|
    requires tabs' == tabs - OwnTabs(tabs, ps[i].pd) && pages' == pages - UserFrames(tabs, ps[i].pd)
    ensures Inv(tabs0, pages0, tabs', pages', ps[..i] + ps[i + 1..])
  {
    var ps' := ps[..i] + ps[i + 1..];
    forall j | 0 <= j < |ps'|
      ensures ps'[j] == ps[if j < i then j else j + 1] && Alive(tabs', pages', ps'[j])
      ensures OwnTabs(tabs', ps'[j].pd) == OwnTabs(tabs, ps'[j].pd)
      ensures UserFrames(tabs', ps'[j].pd) == UserFrames(tabs, ps'[j].pd)
    {
      LeftStays(tabs, pages, tabs', pages', ps[i].pd, ps[if j < i then j else j + 1]);
    }
    assert Share(tabs', pages', ps');
    var (ts, us) := (TabSets(tabs, pages, ps), FrameSets(tabs, pages, ps));
    assert TabSets(tabs', pages', ps') == ts[..i] + ts[i + 1..];
    assert FrameSets(tabs', pages', ps') == us[..i] + us[i + 1..];
    RestDrop(tabs, ts, i);
    RestDrop(pages, us, i);
  }

  lemma LeftStays(tabs: Tables, pages: map<nat, Page>, tabs': Tables, pages': map<nat, Page>, pd: nat, q: Proc)
    requires Alive(tabs, pages, q) && Apart(tabs, pd, q.pd)
    requires tabs' == tabs - OwnTabs(tabs, pd) && pages' == pages - UserFrames(tabs, pd)
    ensures Alive(tabs', pages', q)
    ensures OwnTabs(tabs', q.pd) == OwnTabs(tabs, q.pd) && UserFrames(tabs', q.pd) == UserFrames(tabs, q.pd)
  {
    assert OwnTabs(tabs, q.pd) <= tabs'.Keys;
    SpaceStays(tabs, tabs', q.pd);
    assert q.pd in tabs' && tabs'[q.pd] == tabs[q.pd];
    forall n | 0 <= n < KERNPAGE && Entry(tabs', q.pd, n).Present? ensures Entry(tabs', q.pd, n).frame in pages' {
      assert Entry(tabs', q.pd, n).frame in UserFrames(tabs, q.pd);
    }
  }

  // ---- Whole runs ----

  /** One command. Stopped means that memory has run out or that copyuvm has panicked. */
  method Step(m: Memory, ps: seq<Proc>, c: Cmd, data: nat, ghost tabs0: Tables, ghost pages0: map<nat, Page>)
    returns (stopped: bool, ps': seq<Proc>)
    requires m.Valid() && Inv(tabs0, pages0, m.tabs, m.pages, ps) && KERNLINK < data < KERNPAGE + PHYSTOP
    requires c.Resize? ==> -0x8000_0000 <= c.n < 0x8000_0000
    modifies m
    ensures m.Valid() && (!stopped ==> Inv(tabs0, pages0, m.tabs, m.pages, ps'))
    ensures stopped ==> m.failed || (c.Clone? && c.i < |ps| && !old(AllThere(m.tabs, ps[c.i].pd, PagesOf(ps[c.i].sz))))
  {
    match c
    case Start => stopped, ps' := StartProc(m, ps, data, tabs0, pages0);
    case Clone(i) =>
      if i < |ps| {
        stopped, ps' := CloneProc(m, ps, i, data, tabs0, pages0);
      } else {
        stopped, ps' := false, ps;
      }
    case Resize(i, n) =>
      if i < |ps| {
        stopped, ps' := ResizeProc(m, ps, i, n, tabs0, pages0);
      } else {
        stopped, ps' := false, ps;
      }
    case End(i) =>
      stopped, ps' := false, ps;
      if i < |ps| {
        ps' := EndProc(m, ps, i, tabs0, pages0);
      }
  }

  method StartProc(m: Memory, ps: seq<Proc>, data: nat, ghost tabs0: Tables, ghost pages0: map<nat, Page>)
    returns (stopped: bool, ps': seq<Proc>)
    requires m.Valid() && Inv(tabs0, pages0, m.tabs, m.pages, ps) && KERNLINK < data < KERNPAGE + PHYSTOP
    modifies m
    ensures m.Valid() && if stopped then m.failed else Inv(tabs0, pages0, m.tabs, m.pages, ps')
  {
    ghost var tabs, pages := m.tabs, m.pages;
    var d := m.SetupKvm(data);
    if d.None? {
      return true, ps;
    }
    stopped, ps' := false, ps + [Proc(d.value, 0)];
    NewSpace(m.tabs, tabs, d.value);
    AddKeeps(tabs0, pages0, tabs, pages, m.tabs, m.pages, ps, Proc(d.value, 0));
  }

  /** A copy of a process in frames that were free, and nothing else is new. */
  method CopyProc(m: Memory, p: Proc, data: nat) returns (r: Fork)
    requires m.Valid() && Alive(m.tabs, m.pages, p) && KERNLINK < data < KERNPAGE + PHYSTOP
    modifies m
    ensures m.Valid() && (!r.Child? ==> m.failed || !old(AllThere(m.tabs, p.pd, PagesOf(p.sz))))
    ensures r.Child? ==> Alive(m.tabs, m.pages, Proc(r.pd, p.sz)) && AddedFrames(old(m.tabs), old(m.pages), m, r.pd)
  {
    ghost var lost;
    r, lost := m.CopyUvm(p.pd, p.sz, data);
    if r.Child? {
      ExactlyTabled(m.tabs, r.pd, PagesOf(p.sz));
    }
  }

  /** The frames of pd are new, and all others are as they were. */
  ghost predicate AddedFrames(tabs: Tables, pages: map<nat, Page>, m: Memory, pd: nat)
    reads m
  {
    && Space(m.tabs, pd) && Extends(tabs, m.tabs) && Extends(pages, m.pages)
    && m.tabs.Keys == tabs.Keys + OwnTabs(m.tabs, pd) && OwnTabs(m.tabs, pd) !! tabs.Keys
    && m.pages.Keys == pages.Keys + UserFrames(m.tabs, pd) && UserFrames(m.tabs, pd) !! pages.Keys
  }

  method CloneProc(m: Memory, ps: seq<Proc>, i: nat, data: nat, ghost tabs0: Tables, ghost pages0: map<nat, Page>)
    returns (stopped: bool, ps': seq<Proc>)
    requires m.Valid() && Inv(tabs0, pages0, m.tabs, m.pages, ps) && i < |ps| && KERNLINK < data < KERNPAGE + PHYSTOP
    modifies m
    ensures m.Valid() && (!stopped ==> Inv(tabs0, pages0, m.tabs, m.pages, ps'))
    ensures stopped ==> m.failed || !old(AllThere(m.tabs, ps[i].pd, PagesOf(ps[i].sz)))
  {
    ghost var tabs, pages := m.tabs, m.pages;
    var r := CopyProc(m, ps[i], data);
    if !r.Child? {
      return true, ps;
    }
    stopped, ps' := false, ps + [Proc(r.pd, ps[i].sz)];
    AddKeeps(tabs0, pages0, tabs, pages, m.tabs, m.pages, ps, Proc(r.pd, ps[i].sz));
  }

  method ResizeProc(m: Memory, ps: seq<Proc>, i: nat, n: int, ghost tabs0: Tables, ghost pages0: map<nat, Page>)
    returns (stopped: bool, ps': seq<Proc>)
    requires m.Valid() && Inv(tabs0, pages0, m.tabs, m.pages, ps) && i < |ps| && -0x8000_0000 <= n < 0x8000_0000
    modifies m
    ensures m.Valid() && if stopped then m.failed else Inv(tabs0, pages0, m.tabs, m.pages, ps')
  {
    ghost var tabs, pages := m.tabs, m.pages;
    var p := ps[i];
    var r; ghost var lost;
    stopped, r, lost := GrowTabled(m, p.pd, p.sz, n);
    if m.failed {
      return true, ps;
    }
    stopped, ps' := false, ps[i := Proc(p.pd, r)];
    ResizeKeeps(tabs0, pages0, tabs, pages, m.tabs, m.pages, ps, i, Proc(p.pd, r));
  }

  method EndProc(m: Memory, ps: seq<Proc>, i: nat, ghost tabs0: Tables, ghost pages0: map<nat, Page>)
    returns (ps': seq<Proc>)
    requires m.Valid() && Inv(tabs0, pages0, m.tabs, m.pages, ps) && i < |ps|
    modifies m
    ensures m.Valid() && m.failed == old(m.failed) && Inv(tabs0, pages0, m.tabs, m.pages, ps') && |ps'| == |ps| - 1
  {
    ghost var tabs, pages := m.tabs, m.pages;
    m.FreeVm(ps[i].pd);
    EndKeeps(tabs0, pages0, tabs, pages, m.tabs, m.pages, ps, i);
    ps' := ps[..i] + ps[i + 1..];
  }

  lemma NoProcs(tabs0: Tables, pages0: map<nat, Page>, tabs: Tables, pages: map<nat, Page>)
    ensures Inv(tabs0, pages0, tabs, pages, []) <==> tabs == tabs0 && pages == pages0
  {
    assert Share(tabs, pages, []);
    assert Rest(tabs, TabSets(tabs, pages, [])) == tabs;
    assert Rest(pages, FrameSets(tabs, pages, [])) == pages;
  }

  /** Any commands of any number of processes, as long as memory lasts and no process with a missing page is copied.
      No two processes have a frame in common, and when all have ended, every frame is back. */
  method Run(m: Memory, cs: seq<Cmd>, data: nat) returns (stopped: bool, done: nat, ps: seq<Proc>)
    requires m.Valid() && KERNLINK < data < KERNPAGE + PHYSTOP
    requires forall k :: 0 <= k < |cs| && cs[k].Resize? ==> -0x8000_0000 <= cs[k].n < 0x8000_0000
    modifies m
    ensures m.Valid() && done <= |cs| && (!stopped ==> done == |cs|)
    ensures !stopped ==> Inv(old(m.tabs), old(m.pages), m.tabs, m.pages, ps)
    ensures stopped ==> done < |cs| && (m.failed || cs[done].Clone?)
    ensures !stopped && ps == [] ==>
      m.tabs == old(m.tabs) && m.pages == old(m.pages) && FreeSet(m.free) == old(FreeSet(m.free))
  {
    stopped, done, ps := false, 0, [];
    NoProcs(m.tabs, m.pages, m.tabs, m.pages);
    while done < |cs|
      invariant done <= |cs| && m.Valid() && Inv(old(m.tabs), old(m.pages), m.tabs, m.pages, ps)
    {
      stopped, ps := Step(m, ps, cs[done], data, old(m.tabs), old(m.pages));
      if stopped {
        return;
      }
      done := done + 1;
    }
    if ps == [] {
      NoProcs(old(m.tabs), old(m.pages), m.tabs, m.pages);
      assert FreeSet(m.free) == m.frames - m.tabs.Keys - m.pages.Keys;
    }
  }
}
