/** The memory of a process from its first page to its last: growproc of proc.c, and whole lives. */
module VmLife {
  import opened Options
  import opened Blocks
  import opened PageTable
  import opened Vm

  /** Apart from its own frames, an address space leaves memory alone. */
  ghost predicate SameRest(tabs: Tables, pages: map<nat, Page>, tabs': Tables, pages': map<nat, Page>, pd: nat) {
    && Space(tabs, pd) && Space(tabs', pd)
    && tabs' - OwnTabs(tabs', pd) == tabs - OwnTabs(tabs, pd)
    && pages' - UserFrames(tabs', pd) == pages - UserFrames(tabs, pd)
  }

  /** The user frames afterwards: those from before and those of the pages added. */
  lemma FilledFrames(
    tabs: Tables, pages: map<nat, Page>, tabs': Tables, pages': map<nat, Page>, pd: nat, lo: nat, want: seq<Leaf>)
    requires Filled(tabs, pages, tabs', pages', pd, lo, want) && NoneFrom(tabs, pd, lo)
    ensures UserFrames(tabs', pd) == UserFrames(tabs, pd) + FramesBetween(tabs', pd, lo, |want|)
  {
    forall n | 0 <= n < KERNPAGE && Entry(tabs, pd, n).Present?
      ensures Entry(tabs, pd, n).frame in UserFrames(tabs', pd)
    {
      assert Entry(tabs', pd, n) == Entry(tabs, pd, n);
    }
    forall n | 0 <= n < KERNPAGE && Entry(tabs', pd, n).Present?
      ensures Entry(tabs', pd, n).frame in UserFrames(tabs, pd) + FramesBetween(tabs', pd, lo, |want|)
    {
      if !(lo <= n < |want|) {
        assert Entry(tabs', pd, n) == Entry(tabs, pd, n);
      }
    }
  }

  lemma FilledRest(
    tabs: Tables, pages: map<nat, Page>, tabs': Tables, pages': map<nat, Page>, pd: nat, lo: nat, want: seq<Leaf>)
    requires Filled(tabs, pages, tabs', pages', pd, lo, want) && NoneFrom(tabs, pd, lo) && UserOk(tabs, pages, pd)
    ensures SameRest(tabs, pages, tabs', pages', pd) && UserFrames(tabs', pd) <= pages'.Keys
  {
    FilledFrames(tabs, pages, tabs', pages', pd, lo, want);
    assert FramesBetween(tabs', pd, lo, |want|) !! pages.Keys;
    assert UserFrames(tabs, pd) <= pages.Keys;
    GrownRest(tabs, tabs', pd);
  }

  lemma GrownRest(tabs: Tables, tabs': Tables, pd: nat)
    requires Grown(tabs, tabs', pd)
    ensures tabs' - OwnTabs(tabs', pd) == tabs - OwnTabs(tabs, pd)
  {
    assert tabs'.Keys - OwnTabs(tabs', pd) == tabs.Keys - OwnTabs(tabs, pd);
  }

  /** The same pages, perhaps with more tables. */
  lemma SameRestBack(tabs: Tables, pages: map<nat, Page>, tabs': Tables, pd: nat)
    requires Grown(tabs, tabs', pd) && SamePages(tabs, tabs', pd) && UserOk(tabs, pages, pd)
    ensures SameRest(tabs, pages, tabs', pages, pd) && UserFrames(tabs', pd) <= pages.Keys
  {
    GrownRest(tabs, tabs', pd);
    assert UserFrames(tabs', pd) == UserFrames(tabs, pd);
  }

  lemma ClearedRest(tabs: Tables, pages: map<nat, Page>, tabs': Tables, pages': map<nat, Page>, pd: nat, lo: nat,
      hi: nat)
    requires UserOk(tabs, pages, pd) && SameTabs(tabs, tabs', pd) && Cleared(tabs, pages, tabs', pages', pd, lo, hi)
    ensures SameRest(tabs, pages, tabs', pages', pd)
  {
    var gone := FramesBetween(tabs, pd, lo, hi);
    forall x ensures x in UserFrames(tabs', pd) <==> x in UserFrames(tabs, pd) - gone {
      if n :| 0 <= n < KERNPAGE && Entry(tabs, pd, n).Present? && Entry(tabs, pd, n).frame == x && x !in gone {
        assert Entry(tabs', pd, n) == Entry(tabs, pd, n);
      }
    }
    assert gone <= UserFrames(tabs, pd);
  }

  // ---- growproc ----

  const LIMIT := 0x1_0000_0000   // sizes are 32-bit

  /** A process with no pages beyond its size. */
  ghost predicate Sized(m: Memory, pd: nat, sz: nat)
    reads m
  {
    m.Valid() && UserOk(m.tabs, m.pages, pd) && NoneFrom(m.tabs, pd, PagesOf(sz)) && sz < KERNPAGE * PGSIZE
  }

  /** There are frames for n more bytes and their tables. */
  predicate HasRoom(m: Memory, pd: nat, sz: nat, n: int)
    requires pd in m.tabs
    reads m
  {
    n > 0 && sz + n < KERNPAGE * PGSIZE && Enough(m.tabs[pd], |m.free|, PagesOf(sz), PagesOf(sz + n))
  }

  /** There are but for the last table. */
  predicate LeavesHole(m: Memory, pd: nat, sz: nat, n: int)
    requires pd in m.tabs
    reads m
  {
    n > 0 && sz + n < KERNPAGE * PGSIZE && Hole(m.tabs[pd], |m.free|, PagesOf(sz), PagesOf(sz + n))
  }

  /** The last frame goes to a page whose table is missing. */
  predicate LosesFrame(m: Memory, pd: nat, sz: nat, n: int)
    requires pd in m.tabs
    reads m
  {
    n > 0 && sz + n < KERNPAGE * PGSIZE && Loses(m.tabs[pd], |m.free|, PagesOf(sz), PagesOf(sz + n))
  }

  /** The size that the process has afterwards. */
  function SizeAfter(m: Memory, pd: nat, sz: nat, n: int): (r: nat)
    requires pd in m.tabs
    reads m
  {
    if HasRoom(m, pd, sz, n) || LeavesHole(m, pd, sz, n) then sz + n
    else if n < 0 && sz + n > 0 then sz + n
    else sz
  }

  /** All pages go, but growproc takes the size 0 for an error and keeps the old one. */
  predicate Emptied(sz: nat, n: int) {
    n < 0 && sz + n == 0
  }

  /** deallocuvm passes by a mapped page from lo on, where the table for lo is missing. */
  ghost predicate Passed(tabs: Tables, pd: nat, lo: nat) {
    Space(tabs, pd) && exists n :: lo <= n < Resume(tabs[pd], lo) && n < KERNPAGE && Entry(tabs, pd, n).Present?
  }

  /** It does not where all pages below some page have tables and no others are mapped. */
  lemma NotPassed(tabs: Tables, pd: nat, k: nat, lo: nat)
    requires Tabled(tabs, pd, k)
    ensures !Passed(tabs, pd, lo)
  {
    if lo < k && lo < KERNPAGE {
      assert tabs[pd][lo / NPT].Present?;
    }
  }

  /** Page 1024 is mapped and pages 0 to 1023 have no table: deallocuvm from page 5 on passes by it. */
  lemma PassesBy()
    ensures exists tabs, pd :: Passed(tabs, pd, 5)
  {
    var tabs: Tables := map[1 := Change(EmptyTable(), 1, Present(2, 7)), 2 := Change(EmptyTable(), 0, Present(3, 6))];
    assert Resume(tabs[1], 5) == Resume(tabs[1], 5 + NPT) == 5 + NPT;
    assert Entry(tabs, 1, NPT) == Present(3, 6);
    assert Passed(tabs, 1, 5);
  }

  /** growproc for n > 0. */
  method GrowBy(m: Memory, pd: nat, sz: nat, n: nat) returns (r: nat, ghost lost: Option<nat>)
    requires Sized(m, pd, sz) && n > 0
    modifies m
    ensures m.Valid() && UserOk(m.tabs, m.pages, pd)
    ensures r == if old(HasRoom(m, pd, sz, n)) || old(LeavesHole(m, pd, sz, n)) then sz + n else 0
    ensures m.failed == (old(m.failed) || (sz + n < KERNPAGE * PGSIZE && !old(HasRoom(m, pd, sz, n))))
    ensures lost.Some? <==> old(LosesFrame(m, pd, sz, n))
    ensures lost.Some? ==> lost.value in m.pages && lost.value !in old(m.pages)
    ensures SameRest(old(m.tabs), old(m.pages), m.tabs, Without(m.pages, lost), pd)
    ensures UserFrames(m.tabs, pd) <= Without(m.pages, lost).Keys
    ensures Reached(old(m.tabs), m.tabs, pd, PagesOf(sz), if old(HasRoom(m, pd, sz, n)) then PagesOf(sz + n)
        else if old(LeavesHole(m, pd, sz, n)) then PagesOf(sz + n) - 1 else PagesOf(sz))
  {
    ghost var tabs0, pages0 := m.tabs, m.pages;
    r, lost := m.AllocUvm(pd, sz, sz + n);
    if sz + n < KERNPAGE * PGSIZE {
      GrewMeans(tabs0, pages0, |old(m.free)|, m.tabs, m.pages, pd, PagesOf(sz), PagesOf(sz + n), r == sz + n, lost);
    }
  }

  /** From no pages from lo on to pages lo up to k, and none from there on. */
  ghost predicate Reached(tabs: Tables, tabs': Tables, pd: nat, lo: nat, k: nat) {
    && NoneFrom(tabs', pd, k) && (Tabled(tabs, pd, lo) ==> Tabled(tabs', pd, k))
    && (Exactly(tabs, pd, lo) ==> Exactly(tabs', pd, k))
  }

  lemma FilledReached(
    tabs: Tables, pages: map<nat, Page>, tabs': Tables, pages': map<nat, Page>, pd: nat, lo: nat, want: seq<Leaf>)
    requires Filled(tabs, pages, tabs', pages', pd, lo, want) && NoneFrom(tabs, pd, lo) && lo <= |want|
    ensures Reached(tabs, tabs', pd, lo, |want|)
  {
    if Tabled(tabs, pd, lo) {
      FilledTabled(tabs, pages, tabs', pages', pd, lo, want);
    }
    if Exactly(tabs, pd, lo) {
      FilledExactly(tabs, pages, tabs', pages', pd, lo, want);
    }
  }

  lemma GrewMeans(tabs: Tables, pages: map<nat, Page>, n: nat, tabs': Tables, pages': map<nat, Page>, pd: nat,
      lo: nat, hi: nat, ok: bool, lost: Option<nat>)
    requires UserOk(tabs, pages, pd) && NoneFrom(tabs, pd, lo) && lo <= hi <= KERNPAGE
    requires Grew(tabs, pages, n, tabs', pages', pd, lo, hi, ok, lost)
    ensures SameRest(tabs, pages, tabs', Without(pages', lost), pd)
    ensures UserFrames(tabs', pd) <= Without(pages', lost).Keys
    ensures Reached(tabs, tabs', pd, lo, if Enough(tabs[pd], n, lo, hi) then hi
        else if Hole(tabs[pd], n, lo, hi) then hi - 1 else lo)
  {
    var kept := Without(pages', lost);
    if Enough(tabs[pd], n, lo, hi) {
      FilledRest(tabs, pages, tabs', kept, pd, lo, Zeros(hi));
      FilledReached(tabs, pages, tabs', kept, pd, lo, Zeros(hi));
    } else if Hole(tabs[pd], n, lo, hi) {
      FilledRest(tabs, pages, tabs', kept, pd, lo, Zeros(hi - 1));
      FilledReached(tabs, pages, tabs', kept, pd, lo, Zeros(hi - 1));
    } else {
      SameRestBack(tabs, pages, tabs', pd);
      BackReached(tabs, tabs', pd, lo);
    }
  }

  lemma BackReached(tabs: Tables, tabs': Tables, pd: nat, lo: nat)
    requires NoneFrom(tabs, pd, lo) && Grown(tabs, tabs', pd) && SamePages(tabs, tabs', pd)
    ensures Reached(tabs, tabs', pd, lo, lo)
  {
  }

  /** What deallocuvm leaves, where no page was mapped from hi on. */
  lemma ClearedReached(
    tabs: Tables, pages: map<nat, Page>, tabs': Tables, pages': map<nat, Page>, pd: nat, lo: nat, hi: nat)
    requires SameTabs(tabs, tabs', pd) && NoneFrom(tabs, pd, hi) && lo <= hi <= KERNPAGE
    requires Cleared(tabs, pages, tabs', pages', pd, Resume(tabs[pd], lo), hi)
    ensures NoneFrom(tabs', pd, hi) && (NoneFrom(tabs', pd, lo) <==> !Passed(tabs, pd, lo))
    ensures Tabled(tabs, pd, hi) ==> Tabled(tabs', pd, lo) && Tabled(tabs', pd, hi)
    ensures Exactly(tabs, pd, hi) ==> Exactly(tabs', pd, lo)
    ensures lo == 0 ==> Exactly(tabs', pd, 0)
  {
    if Passed(tabs, pd, lo) {
      var n :| lo <= n < Resume(tabs[pd], lo) && n < KERNPAGE && Entry(tabs, pd, n).Present?;
      assert Entry(tabs', pd, n).Present?;
    }
    if Exactly(tabs, pd, hi) {
      ExactlyTabled(tabs, pd, hi);
    }
    if Tabled(tabs, pd, hi) {
      NotPassed(tabs, pd, hi, lo);
    }
    if lo == 0 {
      FromStart(tabs, pd);
    }
  }

  lemma FromStart(tabs: Tables, pd: nat)
    requires Space(tabs, pd)
    ensures !Passed(tabs, pd, 0)
  {
    forall n | 0 <= n < Resume(tabs[pd], 0) && n < KERNPAGE ensures Entry(tabs, pd, n).Absent? {
      ResumeSkips(tabs[pd], 0, n);
    }
  }

  /** growproc for n < 0; the new size is computed in 32 bits. */
  method ShrinkBy(m: Memory, pd: nat, sz: nat, n: int) returns (r: nat)
    requires Sized(m, pd, sz) && -0x8000_0000 <= n < 0
    modifies m
    ensures m.Valid() && UserOk(m.tabs, m.pages, pd) && m.failed == old(m.failed) && NoneFrom(m.tabs, pd, PagesOf(sz))
    ensures r == if sz + n < 0 then sz else sz + n
    ensures NoneFrom(m.tabs, pd, PagesOf(r)) <==> sz + n < 0 || !Passed(old(m.tabs), pd, PagesOf(sz + n))
    ensures old(Tabled(m.tabs, pd, PagesOf(sz))) ==> Tabled(m.tabs, pd, PagesOf(r)) && Tabled(m.tabs, pd, PagesOf(sz))
    ensures old(Exactly(m.tabs, pd, PagesOf(sz))) ==> Exactly(m.tabs, pd, PagesOf(r))
    ensures sz + n == 0 ==> Exactly(m.tabs, pd, 0)
    ensures SameRest(old(m.tabs), old(m.pages), m.tabs, m.pages, pd)
  {
    ghost var tabs0, pages0 := m.tabs, m.pages;
    var newsz := (sz + n) % LIMIT;
    r := m.DeallocUvm(pd, sz, newsz);
    if newsz < sz {
      ClearedRest(tabs0, pages0, m.tabs, m.pages, pd, Resume(tabs0[pd], PagesOf(newsz)), PagesOf(sz));
      ClearedReached(tabs0, pages0, m.tabs, m.pages, pd, PagesOf(newsz), PagesOf(sz));
    }
  }

  /** growproc. Where the pages were those of the size, they are so afterwards, except that a process that gives up
      all its memory keeps its size, and that a process may grow over a page that it did not get. */
  method Growproc(m: Memory, pd: nat, sz: nat, n: int) returns (ok: bool, r: nat, ghost lost: Option<nat>)
    requires Sized(m, pd, sz) && -0x8000_0000 <= n < 0x8000_0000
    modifies m
    ensures m.Valid() && UserOk(m.tabs, m.pages, pd) && r == old(SizeAfter(m, pd, sz, n))
    ensures m.failed == (old(m.failed) || (0 < n < KERNPAGE * PGSIZE - sz && !old(HasRoom(m, pd, sz, n))))
    ensures ok <==> if n > 0 then old(HasRoom(m, pd, sz, n)) || old(LeavesHole(m, pd, sz, n))
                    else n == 0 || (sz > 0 && !Emptied(sz, n))
    ensures r == if ok && sz + n >= 0 then sz + n else sz
    ensures lost.Some? <==> old(LosesFrame(m, pd, sz, n))
    ensures lost.Some? ==> lost.value in m.pages && lost.value !in old(m.pages)
    ensures SameRest(old(m.tabs), old(m.pages), m.tabs, Without(m.pages, lost), pd)
    ensures UserFrames(m.tabs, pd) <= Without(m.pages, lost).Keys
    ensures Sized(m, pd, r) <==> !(n < 0 < sz + n && Passed(old(m.tabs), pd, PagesOf(sz + n)))
    ensures old(Exactly(m.tabs, pd, PagesOf(sz))) ==>
              (Exactly(m.tabs, pd, PagesOf(r)) <==> !Emptied(sz, n) && !old(LeavesHole(m, pd, sz, n)))
    ensures Emptied(sz, n) ==> Exactly(m.tabs, pd, 0)
    ensures old(Tabled(m.tabs, pd, PagesOf(sz))) ==>
              Tabled(m.tabs, pd, if old(LeavesHole(m, pd, sz, n)) then PagesOf(r) - 1 else PagesOf(r))
  {
    r, lost := sz, None;
    if n > 0 {
      r, lost := GrowBy(m, pd, sz, n);
    } else if n < 0 {
      r := ShrinkBy(m, pd, sz, n);
    }
    ok := r != 0 || n == 0;
    if !ok {
      r := sz;
    }
    NotExactly(m.tabs, pd, PagesOf(r));
  }

  /** The first pages are not one page fewer, nor none at all. */
  lemma NotExactly(tabs: Tables, pd: nat, k: nat)
    ensures 0 < k <= KERNPAGE && (Exactly(tabs, pd, k - 1) || Exactly(tabs, pd, 0)) ==> !Exactly(tabs, pd, k)
  {
    if 0 < k <= KERNPAGE && Space(tabs, pd) {
      assert Exactly(tabs, pd, k) ==> Entry(tabs, pd, k - 1).Present? && Entry(tabs, pd, 0).Present?;
    }
  }

  /** The arguments of growproc are C ints. */
  predicate Ints(ns: seq<int>) {
    forall i :: 0 <= i < |ns| ==> -0x8000_0000 <= ns[i] < 0x8000_0000
  }

  /** Frames that have been lost since memory was tabs0 and pages0. */
  ghost predicate LostSince(tabs0: Tables, pages0: map<nat, Page>, m: Memory, pd: nat, lost: set<nat>)
    reads m
  {
    && m.Valid() && UserOk(m.tabs, m.pages, pd) && SameRest(tabs0, pages0, m.tabs, m.pages - lost, pd)
    && lost <= m.pages.Keys && lost !! pages0.Keys && lost !! UserFrames(m.tabs, pd)
  }

  lemma LostNext(
    tabs0: Tables, pages0: map<nat, Page>, tabs1: Tables, pages1: map<nat, Page>, tabs: Tables, pages: map<nat, Page>,
    pd: nat, was: set<nat>, lost: Option<nat>)
    requires SameRest(tabs0, pages0, tabs1, pages1 - was, pd) && SameRest(tabs1, pages1, tabs, Without(pages, lost), pd)
    requires was <= pages1.Keys && was !! pages0.Keys && was !! UserFrames(tabs1, pd)
    requires UserFrames(tabs0, pd) == {} && UserFrames(tabs, pd) <= Without(pages, lost).Keys
    requires lost.Some? ==> lost.value in pages && lost.value !in pages1
    ensures var now := if lost.Some? then was + {lost.value} else was;
      && SameRest(tabs0, pages0, tabs, pages - now, pd) && now <= pages.Keys && now !! pages0.Keys
      && now !! UserFrames(tabs, pd)
  {
    var now := if lost.Some? then was + {lost.value} else was;
    var kept := Without(pages, lost);
    assert was <= (pages1 - UserFrames(tabs1, pd)).Keys == (kept - UserFrames(tabs, pd)).Keys;
    assert pages - now == kept - was;
    assert kept - was - UserFrames(tabs, pd) == kept - UserFrames(tabs, pd) - was;
    assert pages1 - was - UserFrames(tabs1, pd) == pages1 - UserFrames(tabs1, pd) - was;
    if lost.Some? {
      assert lost.value !in pages0 by {
        assert pages0 - UserFrames(tabs0, pd) == pages0;
      }
    }
  }

  /** growproc of a process with tables for its pages. If it is left with a hole, stop is set. */
  method GrowTabled(m: Memory, pd: nat, sz: nat, n: int) returns (stop: bool, r: nat, ghost lost: Option<nat>)
    requires Sized(m, pd, sz) && Tabled(m.tabs, pd, PagesOf(sz)) && -0x8000_0000 <= n < 0x8000_0000
    modifies m
    ensures m.Valid() && UserOk(m.tabs, m.pages, pd) && (stop || lost.Some? || old(m.failed) ==> m.failed)
    ensures lost.Some? ==> lost.value in m.pages && lost.value !in old(m.pages)
    ensures SameRest(old(m.tabs), old(m.pages), m.tabs, Without(m.pages, lost), pd)
    ensures UserFrames(m.tabs, pd) <= Without(m.pages, lost).Keys
    ensures !stop ==> Sized(m, pd, r) && Tabled(m.tabs, pd, PagesOf(r))
  {
    if n < 0 < sz + n {
      NotPassed(m.tabs, pd, PagesOf(sz), PagesOf(sz + n));
    }
    var ok;
    ok, r, lost := Growproc(m, pd, sz, n);
    stop := r > 0 && m.tabs[pd][(PagesOf(r) - 1) / NPT].Absent?;
    if !stop && r > 0 && Tabled(m.tabs, pd, PagesOf(r) - 1) {
      OneMore(m.tabs, pd, PagesOf(r));
    }
    if 0 < n < KERNPAGE * PGSIZE - sz {
      LosesShort(old(m.tabs)[pd], |old(m.free)|, PagesOf(sz), PagesOf(sz + n));
    }
  }

  /** A hole is a loss, and a loss a shortage. */
  lemma LosesShort(t: Table, n: nat, lo: nat, hi: nat)
    requires lo <= hi <= KERNPAGE
    ensures (Hole(t, n, lo, hi) ==> Loses(t, n, lo, hi)) && (Loses(t, n, lo, hi) ==> !Enough(t, n, lo, hi))
  {
    if Loses(t, n, lo, hi) {
      var j :| lo <= j < hi && LosesAt(t, n, lo, j);
      Loss(t, n, lo, j, hi);
    }
  }

  /** The same, in a life that has lost frames before. */
  method GrowOn(m: Memory, pd: nat, sz: nat, n: int, ghost tabs0: Tables, ghost pages0: map<nat, Page>,
      ghost was: set<nat>)
    returns (stop: bool, r: nat, ghost lost: set<nat>)
    requires Sized(m, pd, sz) && Tabled(m.tabs, pd, PagesOf(sz)) && -0x8000_0000 <= n < 0x8000_0000
    requires LostSince(tabs0, pages0, m, pd, was) && UserFrames(tabs0, pd) == {} && (!m.failed ==> was == {})
    modifies m
    ensures LostSince(tabs0, pages0, m, pd, lost) && (!m.failed ==> lost == {})
    ensures !stop ==> Sized(m, pd, r) && Tabled(m.tabs, pd, PagesOf(r))
  {
    ghost var tabs1, pages1 := m.tabs, m.pages;
    ghost var f;
    stop, r, f := GrowTabled(m, pd, sz, n);
    LostNext(tabs0, pages0, tabs1, pages1, m.tabs, m.pages, pd, was, f);
    lost := if f.Some? then was + {f.value} else was;
  }

  lemma OneMore(tabs: Tables, pd: nat, k: nat)
    requires 0 < k <= KERNPAGE && Tabled(tabs, pd, k - 1) && tabs[pd][(k - 1) / NPT].Present?
    ensures Tabled(tabs, pd, k)
  {
  }

  /** Any number of calls of growproc, up to one that leaves a hole. */
  method GrowAll(m: Memory, pd: nat, ns: seq<int>) returns (ghost lost: set<nat>)
    requires Sized(m, pd, 0) && Tabled(m.tabs, pd, 0) && UserFrames(m.tabs, pd) == {} && Ints(ns)
    modifies m
    ensures LostSince(old(m.tabs), old(m.pages), m, pd, lost) && (!m.failed ==> lost == {})
  {
    lost := {};
    assert m.pages - lost == m.pages;
    var sz, i, stop := 0, 0, false;
    while i < |ns| && !stop
      invariant i <= |ns| && LostSince(old(m.tabs), old(m.pages), m, pd, lost) && (!m.failed ==> lost == {})
      invariant !stop ==> Sized(m, pd, sz) && Tabled(m.tabs, pd, PagesOf(sz))
    {
      stop, sz, lost := GrowOn(m, pd, sz, ns[i], old(m.tabs), old(m.pages), lost);
      i := i + 1;
    }
  }

  /** After setupkvm. */
  lemma NewSpace(tabs: Tables, was: Tables, pd: nat)
    requires Exactly(tabs, pd, 0) && Extends(was, tabs)
    requires tabs.Keys == was.Keys + OwnTabs(tabs, pd) && OwnTabs(tabs, pd) !! was.Keys
    ensures UserFrames(tabs, pd) == {} && Tabled(tabs, pd, 0) && tabs - OwnTabs(tabs, pd) == was
  {
  }

  /** The frames that freevm does not give back. */
  lemma FreedButLost(pages0: map<nat, Page>, tabs: Tables, pages: map<nat, Page>, pd: nat, lost: set<nat>)
    requires Space(tabs, pd) && pages - lost - UserFrames(tabs, pd) == pages0
    requires lost <= pages.Keys && lost !! UserFrames(tabs, pd)
    ensures pages - UserFrames(tabs, pd) - lost == pages0 && lost <= (pages - UserFrames(tabs, pd)).Keys
  {
  }

  /** A whole life: setupkvm, any growing and shrinking, also to nothing and on from there, and also where frames run
      out, freevm. Every frame taken is free again and the rest of memory is as it was, except for frames lost. */
  method Life(m: Memory, data: nat, ns: seq<int>) returns (started: bool, ghost lost: set<nat>)
    requires m.Valid() && KERNLINK < data < KERNPAGE + PHYSTOP && Ints(ns)
    modifies m
    ensures m.Valid() && (!m.failed ==> started && lost == {})
    ensures started ==> m.tabs == old(m.tabs) && lost <= m.pages.Keys && m.pages - lost == old(m.pages)
    ensures started ==> FreeSet(m.free) + lost == old(FreeSet(m.free))
  {
    var d := m.SetupKvm(data);
    started, lost := d.Some?, {};
    if d.None? {
      return;
    }
    var pd := d.value;
    NewSpace(m.tabs, old(m.tabs), pd);
    assert m.pages - {} == m.pages;
    lost := GrowAll(m, pd, ns);
    FreedButLost(old(m.pages), m.tabs, m.pages, pd, lost);
    m.FreeVm(pd);
    assert FreeSet(m.free) == m.frames - m.tabs.Keys - m.pages.Keys;
  }
}
