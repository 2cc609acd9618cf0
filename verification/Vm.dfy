/** Frames and address spaces: kalloc.c and the user part of vm.c. */
module Vm {
  import opened Options
  import opened Sequences
  import opened Blocks
  import opened PageTable

  // ---- What an address space holds ----

  /** User pages are mapped to different frames, all of them allocated. */
  ghost predicate UserOk(tabs: Tables, pages: map<nat, Page>, pd: nat) {
    && Space(tabs, pd)
    && (forall n :: 0 <= n < KERNPAGE && Entry(tabs, pd, n).Present? ==> Entry(tabs, pd, n).frame in pages)
    && (forall m, n :: 0 <= m < KERNPAGE && 0 <= n < KERNPAGE && m != n ==>
         Entry(tabs, pd, m).Present? && Entry(tabs, pd, n).Present? ==>
         Entry(tabs, pd, m).frame != Entry(tabs, pd, n).frame)
  }

  /** Exactly the first k user pages are mapped. */
  ghost predicate Exactly(tabs: Tables, pd: nat, k: nat) {
    Space(tabs, pd) && forall n :: 0 <= n < KERNPAGE ==> (Entry(tabs, pd, n).Present? <==> n < k)
  }

  /** The first k user pages have their tables, and no user page is mapped from k on. */
  ghost predicate Tabled(tabs: Tables, pd: nat, k: nat) {
    && Space(tabs, pd)
    && (forall n :: 0 <= n < KERNPAGE && n < k ==> tabs[pd][n / NPT].Present?)
    && (forall n :: k <= n < KERNPAGE ==> Entry(tabs, pd, n).Absent?)
  }

  /** No user page is mapped from k on. */
  ghost predicate NoneFrom(tabs: Tables, pd: nat, k: nat) {
    Space(tabs, pd) && forall n :: k <= n < KERNPAGE ==> Entry(tabs, pd, n).Absent?
  }

  lemma ExactlyTabled(tabs: Tables, pd: nat, k: nat)
    requires Exactly(tabs, pd, k)
    ensures Tabled(tabs, pd, k)
  {
    forall n | 0 <= n < KERNPAGE && n < k ensures tabs[pd][n / NPT].Present? {
      assert Entry(tabs, pd, n).Present?;
    }
  }

  /** Page a may have been mapped to a new frame f; the other user pages are as before. */
  lemma UserOkAfter(tabs: Tables, pages: map<nat, Page>, tabs': Tables, pages': map<nat, Page>, pd: nat, a: nat, f: nat)
    requires UserOk(tabs, pages, pd) && Space(tabs', pd) && a < KERNPAGE && f !in pages &&
        pages'.Keys == pages.Keys + {f}
    requires forall m :: 0 <= m < KERNPAGE && m != a ==> Entry(tabs', pd, m) == Entry(tabs, pd, m)
    requires Entry(tabs', pd, a).Present? ==> Entry(tabs', pd, a).frame == f
    ensures UserOk(tabs', pages', pd)
  {
  }

  /** New tables come from frames that were free, and no others change. */
  ghost predicate Grown(tabs: Tables, tabs': Tables, pd: nat) {
    && pd in tabs && Space(tabs', pd) && OwnTabs(tabs, pd) <= OwnTabs(tabs', pd)
    && tabs'.Keys == tabs.Keys + OwnTabs(tabs', pd) && OwnTabs(tabs', pd) * tabs.Keys <= OwnTabs(tabs, pd)
    && (forall f :: f in tabs && f !in OwnTabs(tabs, pd) ==> f in tabs' && tabs'[f] == tabs[f])
    && (forall i :: 0 <= i < NPT && tabs[pd][i].Present? ==> tabs'[pd][i] == tabs[pd][i])
  }

  lemma GrownTrans(a: Tables, b: Tables, c: Tables, pd: nat)
    requires Grown(a, b, pd) && Grown(b, c, pd)
    ensures Grown(a, c, pd)
  {
  }

  function PagesOf(size: nat): (n: nat)
    ensures size <= n * 4096 < size + 4096
  {
    (size + PGSIZE - 1) / PGSIZE
  }

  ghost function FreeSet(free: seq<nat>): (s: set<nat>) {
    set f | f in free
  }

  /** The absent ones among the first n entries. */
  function Absents(t: Table, n: nat): (k: nat)
    requires n <= NPT
    ensures k <= n
  {
    if n == 0 then 0 else Absents(t, n - 1) + if t[n - 1].Absent? then 1 else 0
  }

  lemma {:induction false} AbsentsAll(n: nat)
    requires n <= NPT
    ensures Absents(EmptyTable(), n) == n
  {
    if n > 0 {
      AbsentsAll(n - 1);
    }
  }

  lemma {:induction false} AbsentsSome(t: Table, n: nat, i: nat)
    requires i < n <= NPT && t[i].Absent?
    ensures Absents(t, n) > 0
  {
    if i < n - 1 {
      AbsentsSome(t, n - 1, i);
    }
  }

  lemma {:induction false} AbsentsAfter(t: Table, n: nat, i: nat, e: Pte)
    requires n <= NPT && i < NPT && t[i].Absent? && e.Present?
    ensures Absents(Change(t, i, e), n) == Absents(t, n) - if i < n then 1 else 0
  {
    if n > 0 {
      AbsentsAfter(t, n - 1, i, e);
    }
  }

  /** Page m is the first one, from lo on, of a table that is missing. */
  predicate Opens(t: Table, lo: nat, m: nat)
    requires m < KERNPAGE
  {
    t[m / NPT].Absent? && (m == lo || m % NPT == 0)
  }

  /** The frames that pages lo up to j take, with their tables. */
  function Need(t: Table, lo: nat, j: nat): (k: nat)
    requires lo <= j <= KERNPAGE
    ensures k >= j - lo
  {
    if j == lo then 0 else Need(t, lo, j - 1) + if Opens(t, lo, j - 1) then 2 else 1
  }

  /** Page j gets the last of the free frames, and there is none for its table. */
  predicate LosesAt(t: Table, free: nat, lo: nat, j: nat)
    requires lo <= j < KERNPAGE
  {
    Opens(t, lo, j) && Need(t, lo, j) + 1 == free
  }

  predicate Loses(t: Table, free: nat, lo: nat, hi: nat)
    requires hi <= KERNPAGE
  {
    exists j :: lo <= j < hi && LosesAt(t, free, lo, j)
  }

  lemma {:induction false} NeedGrows(t: Table, lo: nat, i: nat, j: nat)
    requires lo <= i <= j <= KERNPAGE
    ensures Need(t, lo, j) >= Need(t, lo, i) + j - i
  {
    if i < j {
      NeedGrows(t, lo, i, j - 1);
    }
  }

  /** A frame is lost at no more than one page, and not where there are enough frames. */
  lemma LosesOnce(t: Table, free: nat, lo: nat, j: nat, i: nat)
    requires lo <= j < KERNPAGE && LosesAt(t, free, lo, j) && lo <= i <= KERNPAGE
    ensures i > j ==> free < Need(t, lo, i)
    ensures i <= j ==> free > Need(t, lo, i)
    ensures i < KERNPAGE && LosesAt(t, free, lo, i) ==> i == j
  {
    if i > j {
      NeedGrows(t, lo, j + 1, i);
    } else {
      NeedGrows(t, lo, i, j);
    }
  }

  /** The frames that are taken are those for the pages, and at most all that are missing for tables. */
  lemma {:induction false} NeedAtMost(t: Table, lo: nat, j: nat)
    requires lo <= j <= KERNPAGE && (lo % NPT == 0 || t[lo / NPT].Present?)
    ensures Need(t, lo, j) <= j - lo + Absents(t, (j + NPT - 1) / NPT)
  {
    if lo < j {
      NeedAtMost(t, lo, j - 1);
      assert (j - 1) % NPT == 0 ==> (j + NPT - 1) / NPT == (j - 1 + NPT - 1) / NPT + 1 == (j - 1) / NPT + 1;
      assert (j - 1) % NPT != 0 ==> (j + NPT - 1) / NPT == (j - 1 + NPT - 1) / NPT;
    }
  }

  /** Where deallocuvm finds the first table, from page a on in steps of a whole table. */
  function Resume(t: Table, a: nat): (s: nat)
    ensures s >= a && (s >= KERNPAGE || t[s / NPT].Present?) && s % NPT == a % NPT
    decreases KERNPAGE - a
  {
    if a >= KERNPAGE || t[a / NPT].Present? then a else Resume(t, a + NPT)
  }

  /** On its way there it leaves out no mapped page, except in the table that it finds, before the same place. */
  lemma {:induction false} ResumeSkips(t: Table, a: nat, m: nat)
    requires a <= m < Resume(t, a) && m < KERNPAGE
    ensures t[m / NPT].Absent? || (m / NPT == Resume(t, a) / NPT && m % NPT < a % NPT)
    decreases KERNPAGE - a
  {
    if m >= a + NPT {
      ResumeSkips(t, a + NPT, m);
    }
  }

  /** Frames by their use. */
  datatype StoreData = Frames(free: seq<nat>, tabs: Tables, pages: map<nat, Page>, frames: set<nat>)

  /** Every frame is free, a table or a page, and only one of these. */
  ghost predicate Partition(s: StoreData) {
    && Distinct(s.free) && FreeSet(s.free) + s.tabs.Keys + s.pages.Keys == s.frames && 0 !in s.frames
    && FreeSet(s.free) !! s.tabs.Keys && FreeSet(s.free) !! s.pages.Keys && s.tabs.Keys !! s.pages.Keys
  }

  type Store = s: StoreData | Partition(s) ghost witness Frames([], map[], map[], {})

  class Memory {
    var free: seq<nat>              // kmem.freelist
    var tabs: Tables
    var pages: map<nat, Page>       // allocated frames that are not tables
    ghost const frames: set<nat>
    var failed: bool                // history: kalloc has found the free list empty

    ghost var store: Store

    ghost predicate Valid()
      reads this
    {
      store == Frames(free, tabs, pages, frames)
    }

    constructor (list: seq<nat>)
      requires Distinct(list) && 0 !in list
      ensures Valid() && free == list && tabs == map[] && pages == map[] && !failed
    {
      free, tabs, pages := list, map[], map[];
      frames, failed := FreeSet(list), false;
      store := Frames(list, map[], map[], FreeSet(list));
    }

    /** The free frames that are left when pd has all its tables. */
    ghost function Spare(pd: nat): (k: int)
      requires pd in tabs
      reads this
    {
      |free| - Absents(tabs[pd], NPT)
    }

    /** The frames that allocuvm takes. */
    function NeedFor(pd: nat, oldsz: nat, newsz: nat): (k: nat)
      requires pd in tabs && oldsz <= newsz < KERNPAGE * PGSIZE
      reads this
    {
      Need(tabs[pd], PagesOf(oldsz), PagesOf(newsz))
    }

    method Kalloc() returns (r: Option<nat>)
      requires Valid()
      modifies this
      ensures Valid() && tabs == old(tabs)
      ensures r.None? ==> free == old(free) == [] && pages == old(pages) && failed
      ensures r.Some? ==> failed == old(failed) && r.value !in old(pages) && r.value !in tabs
      ensures r.Some? ==> old(free) != [] && free == old(free)[1..]
      ensures r.Some? ==> r.value in pages && pages == old(pages)[r.value := pages[r.value]]
    {
      if free == [] {
        failed := true;
        return None;
      }
      var f := free[0];
      assert free == [f] + free[1..];
      assert FreeSet(free) == {f} + FreeSet(free[1..]);
      free := free[1..];
      pages := pages[f := ZeroPage()];
      store := Frames(free, tabs, pages, frames);
      return Some(f);
    }

    /** kalloc, and memset or memmove of the page. */
    method KallocPage(page: Page) returns (r: Option<nat>)
      requires Valid()
      modifies this
      ensures Valid() && tabs == old(tabs) && failed == (old(failed) || r.None?)
      ensures if old(free) == [] then r.None? && free == [] else r.Some? && |free| == |old(free)| - 1
      ensures r.None? ==> pages == old(pages)
      ensures r.Some? ==> r.value !in old(pages) && pages == old(pages)[r.value := page]
    {
      r := Kalloc();
      if r.Some? {
        pages := pages[r.value := page];
        store := Frames(free, tabs, pages, frames);
      }
    }

    method Kfree(f: nat)
      requires Valid() && (f in tabs || f in pages)
      modifies this
      ensures Valid() && failed == old(failed) && tabs == old(tabs) - {f} && pages == old(pages) - {f}
      ensures if f in old(tabs) then pages == old(pages) else tabs == old(tabs)
    {
      assert FreeSet([f] + free) == {f} + FreeSet(free);
      assert f !in FreeSet(free);
      free := [f] + free;
      tabs, pages := tabs - {f}, pages - {f};
      store := Frames(free, tabs, pages, frames);
    }

    /** memset of a page to make a table of it. */
    method MakeTable(f: nat)
      requires Valid() && f in pages
      modifies this
      ensures Valid() && failed == old(failed) && free == old(free)
      ensures tabs == old(tabs)[f := EmptyTable()] && pages == old(pages) - {f}
    {
      tabs, pages := tabs[f := EmptyTable()], pages - {f};
      store := Frames(free, tabs, pages, frames);
    }

    /** A page for a table, zeroed and put into entry i of the directory. */
    method NewTable(pd: nat, i: nat) returns (r: Option<nat>)
      requires Valid() && pd in tabs && i < NPT
      modifies this
      ensures Valid() && pages == old(pages) && failed == (old(failed) || r.None?)
      ensures if old(free) == [] then r.None? && free == old(free) else r.Some? && |free| == |old(free)| - 1
      ensures r.None? ==> tabs == old(tabs)
      ensures r.Some? ==> r.value !in old(tabs) && tabs == AddTable(old(tabs), pd, i, r.value)
    {
      r := Kalloc();
      if r.Some? {
        MakeTable(r.value);
        tabs := tabs[pd := Change(tabs[pd], i, Present(r.value, 7))];
        store := Frames(free, tabs, pages, frames);
      }
    }

    /** walkpgdir: the table for page n. */
    method WalkPgdir(pd: nat, n: nat, alloc: bool) returns (r: Option<nat>)
      requires Valid() && Space(tabs, pd) && n < NPAGES
      modifies this
      ensures Valid() && Grown(old(tabs), tabs, pd) && pages == old(pages)
      ensures forall m :: 0 <= m < NPAGES ==> Entry(tabs, pd, m) == old(Entry(tabs, pd, m))
      ensures r.Some? ==> tabs[pd][n / NPT].Present? && tabs[pd][n / NPT].frame == r.value && failed == old(failed)
      ensures r.None? ==> tabs == old(tabs) && tabs[pd][n / NPT].Absent? && (alloc ==> failed)
      ensures !alloc ==> tabs == old(tabs) && failed == old(failed) && free == old(free)
      ensures r.Some? <==> old(tabs)[pd][n / NPT].Present? || (alloc && old(free) != [])
      ensures |free| == |old(free)| - if alloc && old(tabs)[pd][n / NPT].Absent? && old(free) != [] then 1 else 0
      ensures forall i :: 0 <= i < NPT && i != n / NPT ==> tabs[pd][i] == old(tabs)[pd][i]
      ensures Spare(pd) == old(Spare(pd)) && (alloc && Spare(pd) >= 0 ==> r.Some?)
    {
      var pde := tabs[pd][n / NPT];
      if pde.Present? {
        return Some(pde.frame);
      }
      AbsentsSome(tabs[pd], NPT, n / NPT);
      if !alloc {
        return None;
      }
      r := NewTable(pd, n / NPT);
      if r.Some? {
        AddTableMeans(old(tabs), pd, n / NPT, r.value);
        AbsentsAfter(old(tabs)[pd], NPT, n / NPT, Present(r.value, 7));
      }
    }

    /** One round of mappages: page n comes to be mapped to frame f. */
    method MapPage(pd: nat, n: nat, f: nat, flags: nat) returns (ok: bool)
      requires Valid() && Space(tabs, pd) && n < NPAGES && Entry(tabs, pd, n).Absent?
      modifies this
      ensures Valid() && Grown(old(tabs), tabs, pd) && pages == old(pages)
      ensures failed == (old(failed) || !ok) && Spare(pd) == old(Spare(pd)) && (Spare(pd) >= 0 ==> ok)
      ensures ok <==> old(tabs)[pd][n / NPT].Present? || old(free) != []
      ensures ok <==> tabs[pd][n / NPT].Present?
      ensures |free| == |old(free)| - if old(tabs)[pd][n / NPT].Absent? && old(free) != [] then 1 else 0
      ensures forall i :: 0 <= i < NPT && i != n / NPT ==> tabs[pd][i] == old(tabs)[pd][i]
      ensures ok ==> forall m :: 0 <= m < NPAGES ==>
        Entry(tabs, pd, m) == if m == n then Present(f, flags) else old(Entry(tabs, pd, m))
      ensures !ok ==> tabs == old(tabs)
    {
      var t := WalkPgdir(pd, n, true);
      if t.None? {
        return false;
      }
      SetEntryMeans(tabs, pd, n, Present(f, flags));
      tabs := tabs[t.value := Change(tabs[t.value], n % NPT, Present(f, flags))];
      store := Frames(free, tabs, pages, frames);
      return true;
    }

    /** mappages: count pages from n on come to be mapped to the frames from f on. It stops at a page whose table gets
        no frame. */
    method MapPages(pd: nat, n: nat, count: nat, f: nat, flags: nat) returns (ok: bool, ghost done: nat)
      requires Valid() && Space(tabs, pd) && n + count <= NPAGES
      requires forall m :: n <= m < n + count ==> Entry(tabs, pd, m).Absent?
      modifies this
      ensures Valid() && Grown(old(tabs), tabs, pd) && pages == old(pages) && failed == (old(failed) || !ok)
      ensures Spare(pd) == old(Spare(pd)) && Opened(old(tabs)[pd], tabs[pd], n, done)
      ensures if ok then done == count else done < count && tabs[pd][(n + done) / NPT].Absent? && free == []
      ensures forall m :: 0 <= m < NPAGES ==>
        Entry(tabs, pd, m) == if n <= m < n + done then Present(f + m - n, flags) else old(Entry(tabs, pd, m))
    {
      ok, done := true, 0;
      var i := 0;
      while i < count
        invariant i == done <= count && Valid() && Space(tabs, pd) && Grown(old(tabs), tabs, pd)
        invariant pages == old(pages) && failed == old(failed) && Spare(pd) == old(Spare(pd))
        invariant Opened(old(tabs)[pd], tabs[pd], n, i)
        invariant forall m :: 0 <= m < NPAGES ==>
          Entry(tabs, pd, m) == if n <= m < n + i then Present(f + m - n, flags) else old(Entry(tabs, pd, m))
      {
        ghost var t := tabs;
        ok := MapPage(pd, n + i, f + i, flags);
        GrownTrans(old(tabs), t, tabs, pd);
        if !ok {
          return;
        }
        OpenedNext(old(tabs)[pd], t[pd], tabs[pd], n, i);
        i, done := i + 1, i + 1;
      }
    }

    /** One round of setupkvm's loop: region k of kmap. */
    method MapRegion(pd: nat, data: nat, k: nat) returns (ok: bool)
      requires Valid() && KERNLINK < data < KERNPAGE + PHYSTOP && k < |Kmap(data)| && KernelOnly(tabs, pd, data, k)
      requires KernelTabs(tabs[pd], data, k)
      modifies this
      ensures Valid() && pages == old(pages) && failed == (old(failed) || !ok) && Grown(old(tabs), tabs, pd)
      ensures Spare(pd) == old(Spare(pd))
      ensures if ok then KernelTabs(tabs[pd], data, k + 1) else free == [] && Partly(tabs[pd])
      ensures ok ==> KernelOnly(tabs, pd, data, k + 1)
    {
      var region := Kmap(data)[k];
      forall n | 0 <= n < NPAGES && Covers(region, n) ensures Entry(tabs, pd, n).Absent? {
        KmapDisjoint(data, k, n);
      }
      ghost var t, done := tabs[pd], 0;
      ok, done := MapPages(pd, region.virt, region.count, region.phys, region.perm);
      RegionTabs(t, tabs[pd], data, k, done);
    }

    /** The loop of setupkvm over kmap, on a directory without tables. */
    method MapKernel(pd: nat, data: nat) returns (ok: bool)
      requires Valid() && KERNLINK < data < KERNPAGE + PHYSTOP && pd in tabs && tabs[pd] == EmptyTable()
      modifies this
      ensures Valid() && pages == old(pages) && failed == (old(failed) || !ok)
      ensures pd in tabs && Spare(pd) == old(Spare(pd)) && Grown(old(tabs), tabs, pd)
      ensures if ok then KernelTabs(tabs[pd], data, |Kmap(data)|) else free == [] && Partly(tabs[pd])
      ensures ok ==> KernelOnly(tabs, pd, data, |Kmap(data)|)
    {
      NoKernel(tabs, pd, data);
      var k := 0;
      while k < |Kmap(data)|
        invariant k <= |Kmap(data)| && Valid() && Grown(old(tabs), tabs, pd) && KernelOnly(tabs, pd, data, k)
        invariant pages == old(pages) && failed == old(failed) && Spare(pd) == old(Spare(pd))
        invariant KernelTabs(tabs[pd], data, k)
      {
        ghost var t := tabs;
        ok := MapRegion(pd, data, k);
        GrownTrans(old(tabs), t, tabs, pd);
        if !ok {
          return;
        }
        k := k + 1;
      }
      ok := true;
    }

    /** setupkvm: a directory with the kernel's pages and no user pages. It takes 65 frames; without them it fails, and
        those that there are do not come back. */
    method SetupKvm(data: nat) returns (r: Option<nat>)
      requires Valid() && KERNLINK < data < KERNPAGE + PHYSTOP
      modifies this
      ensures Valid() && failed == (old(failed) || r.None?) && (r.Some? <==> |old(free)| >= KERNFRAMES)
      ensures pages == old(pages) && Extends(old(tabs), tabs)
      ensures if r.Some? then |free| == |old(free)| - KERNFRAMES else free == []
      ensures r.Some? ==>
        r.value !in old(tabs) && KernelOnly(tabs, r.value, data, |Kmap(data)|) && Exactly(tabs, r.value, 0)
      ensures r.Some? ==>
        tabs.Keys == old(tabs).Keys + OwnTabs(tabs, r.value) && OwnTabs(tabs, r.value) !! old(tabs).Keys
      ensures r.Some? ==> NoUserTabs(tabs[r.value])
      ensures r.Some? ==> KernelMap(tabs, r.value, data)
    {
      r := Kalloc();
      if r.None? {
        return;
      }
      var pd := r.value;
      MakeTable(pd);
      assert OwnTabs(tabs, pd) == {pd};
      AbsentsAll(NPT);
      var ok := MapKernel(pd, data);
      if !ok {
        FewerTabs(tabs[pd]);
        return None;
      }
      AllKernelTabs(tabs[pd], data);
      NoUserPages(tabs, pd, data);
      KernelMapped(tabs, pd, data);
    }

    /** One round of deallocuvm: page a, whose table is t. */
    method DropPage(pd: nat, a: nat, t: nat)
      requires Valid() && UserOk(tabs, pages, pd) && a < KERNPAGE
      requires tabs[pd][a / NPT].Present? && tabs[pd][a / NPT].frame == t
      modifies this
      ensures Valid() && UserOk(tabs, pages, pd) && failed == old(failed) && SameTabs(old(tabs), tabs, pd)
      ensures forall m :: 0 <= m < NPAGES ==> Entry(tabs, pd, m) == if m == a then Absent else old(Entry(tabs, pd, m))
      ensures pages == if old(Entry(tabs, pd, a)).Present? then old(pages) - {old(Entry(tabs, pd, a)).frame}
          else old(pages)
    {
      var e := tabs[t][a % NPT];
      assert e == Entry(tabs, pd, a);
      SetEntryMeans(tabs, pd, a, Absent);
      if e.Present? {
        assert e.frame != 0 && e.frame !in tabs;
        Kfree(e.frame);
      }
      tabs := tabs[t := Change(tabs[t], a % NPT, Absent)];
      store := Frames(free, tabs, pages, frames);
    }

    /** The loop body of deallocuvm: from page a on to the next page to look at. */
    method DropNext(pd: nat, a: nat, ghost g: Drop) returns (b: nat, ghost g': Drop)
      requires Valid() && g.tabs == tabs && g.pages == pages && g.pd == pd && g.a == a < g.hi
      modifies this
      ensures Valid() && failed == old(failed) && b > a && g' == g.(tabs := tabs, pages := pages, a := b)
    {
      var t := WalkPgdir(pd, a, false);
      if t.None? {
        b, g' := a + NPT, Skipped(g);
      } else {
        DropPage(pd, a, t.value);
        b, g' := a + 1, Dropped(g, tabs, pages);
      }
    }

    /** deallocuvm: takes away the user pages from newsz up to oldsz. Where a table is missing it goes on at the same
        place of the next table, so that it starts at Resume. */
    method DeallocUvm(pd: nat, oldsz: nat, newsz: nat) returns (r: nat)
      requires Valid() && UserOk(tabs, pages, pd) && oldsz <= KERNPAGE * PGSIZE
      modifies this
      ensures Valid() && UserOk(tabs, pages, pd) && failed == old(failed) && SameTabs(old(tabs), tabs, pd)
      ensures r == if newsz < oldsz then newsz else oldsz
      ensures newsz >= oldsz ==> tabs == old(tabs) && pages == old(pages)
      ensures newsz < oldsz ==>
        Cleared(old(tabs), old(pages), tabs, pages, pd, Resume(old(tabs)[pd], PagesOf(newsz)), PagesOf(oldsz))
    {
      if newsz >= oldsz {
        return oldsz;
      }
      var a := PagesOf(newsz);
      ghost var g: Drop := StartDrop(tabs, pages, pd, a, PagesOf(oldsz));
      while a * PGSIZE < oldsz
        invariant Valid() && failed == old(failed)
        invariant g == Dropping(old(tabs), old(pages), tabs, pages, pd, PagesOf(newsz), PagesOf(oldsz), a)
      {
        a, g := DropNext(pd, a, g);
      }
      return newsz;
    }

    /** kalloc and mappages for page a, as in allocuvm and copyuvm: a new frame f with that content. Mapping fails
        if kalloc gave the last frame and the table is missing. */
    method AddPage(pd: nat, a: nat, leaf: Leaf) returns (got: bool, ok: bool, ghost f: nat)
      requires Valid() && UserOk(tabs, pages, pd) && a < KERNPAGE && Entry(tabs, pd, a).Absent?
      modifies this
      ensures Valid() && UserOk(tabs, pages, pd) && Grown(old(tabs), tabs, pd) && failed == (old(failed) || !ok)
      ensures var cost := if old(tabs)[pd][a / NPT].Absent? then 2 else 1;
        && (got <==> |old(free)| > 0) && (ok <==> |old(free)| >= cost)
        && |free| == if ok then |old(free)| - cost else 0
      ensures forall i :: 0 <= i < NPT && i != a / NPT ==> tabs[pd][i] == old(tabs)[pd][i]
      ensures forall m :: 0 <= m < NPAGES && m != a ==> Entry(tabs, pd, m) == old(Entry(tabs, pd, m))
      ensures ok ==> Entry(tabs, pd, a) == Present(f, leaf.flags)
      ensures !ok ==> tabs == old(tabs)
      ensures if got then f !in old(pages) && pages == old(pages)[f := leaf.page] else pages == old(pages)
    {
      var mem := KallocPage(leaf.page);
      if mem.None? {
        return false, false, 0;
      }
      got, f := true, mem.value;
      ok := MapPage(pd, a, mem.value, leaf.flags);
      UserOkAfter(old(tabs), old(pages), tabs, pages, pd, a, mem.value);
    }

    /** One round of allocuvm's loop: a zeroed page. */
    method AddZero(pd: nat, a: nat, ghost g: Growth) returns (got: bool, ghost g': Growth)
      requires Valid() && g.tabs == tabs && g.pages == pages && g.free == |free| && g.pd == pd && g.n == a < KERNPAGE
      modifies this
      ensures Valid() && (got <==> old(free) != [])
      ensures failed == (old(failed) || !got || g'.lost.Some?)
      ensures !got ==> g' == g && tabs == old(tabs) && pages == old(pages) && free == []
      ensures got ==> g' == g.(tabs := tabs, pages := pages, free := |free|, n := a + 1, lost := g'.lost)
    {
      var mapped; ghost var f;
      got, mapped, f := AddPage(pd, a, Leaf(ZeroPage(), 6));
      g' := if !got then g else if mapped then MappedRound(g, tabs, pages, |free|, f) else LostRound(g, pages, f);
    }

    /** The loop of allocuvm: zeroed pages lo up to hi. A failure of mappages goes unnoticed. */
    method Grow(pd: nat, lo: nat, hi: nat) returns (ok: bool, ghost g: Growth)
      requires Valid() && UserOk(tabs, pages, pd) && NoneFrom(tabs, pd, lo) && lo <= hi <= KERNPAGE
      modifies this
      ensures Valid() && failed == (old(failed) || !ok || g.lost.Some?)
      ensures g == Growing(old(tabs), old(pages), |old(free)|, tabs, pages, |free|, pd, lo, g.n, g.lost)
      ensures g.n <= hi && if ok then g.n == hi else g.n < hi && free == []
    {
      g := StartGrowth(tabs, pages, |free|, pd, lo);
      var a := lo;
      while a < hi
        invariant lo <= a <= hi && Valid() && failed == (old(failed) || g.lost.Some?)
        invariant g == Growing(old(tabs), old(pages), |old(free)|, tabs, pages, |free|, pd, lo, a, g.lost)
      {
        ok, g := AddZero(pd, a, g);
        if !ok {
          return;
        }
        a := a + 1;
      }
      ok := true;
    }

    /** allocuvm, from a size above which no page is mapped. With frames for all pages and missing tables, the pages
        up to the new size are there. Otherwise what was added is taken away again, except that a page whose table
        gets no frame is lost. If that is the last page, nobody notices. */
    method AllocUvm(pd: nat, oldsz: nat, newsz: nat) returns (r: nat, ghost lost: Option<nat>)
      requires Valid() && UserOk(tabs, pages, pd) && NoneFrom(tabs, pd, PagesOf(oldsz)) && oldsz <= KERNPAGE * PGSIZE
      modifies this
      ensures Valid() && UserOk(tabs, pages, pd)
      ensures newsz >= KERNPAGE * PGSIZE ==> r == 0
      ensures newsz < oldsz && newsz < KERNPAGE * PGSIZE ==> r == oldsz
      ensures newsz >= KERNPAGE * PGSIZE || newsz < oldsz ==>
        tabs == old(tabs) && pages == old(pages) && failed == old(failed) && lost.None?
      ensures oldsz <= newsz < KERNPAGE * PGSIZE ==>
        && (r == newsz || r == 0) && failed == (old(failed) || |old(free)| < old(NeedFor(pd, oldsz, newsz)))
        && Grew(old(tabs), old(pages), |old(free)|, tabs, pages, pd, PagesOf(oldsz), PagesOf(newsz), r == newsz, lost)
      ensures oldsz <= newsz < KERNPAGE * PGSIZE && |old(free)| >= old(NeedFor(pd, oldsz, newsz)) ==>
        r == newsz && forall n :: PagesOf(oldsz) <= n < PagesOf(newsz) ==>
          Entry(tabs, pd, n).Present? && Entry(tabs, pd, n).flags == 6 && ZerosAt(pages, Entry(tabs, pd, n).frame)
    {
      lost := None;
      if newsz >= KERNPAGE * PGSIZE {
        return 0, lost;
      }
      if newsz < oldsz {
        return oldsz, lost;
      }
      var ok; ghost var g;
      ok, g := Grow(pd, PagesOf(oldsz), PagesOf(newsz));
      lost := g.lost;
      if !ok {
        var _ := DeallocUvm(pd, newsz, oldsz);
        RolledBack(g, tabs, pages, PagesOf(newsz));
        return 0, lost;
      }
      GrewTo(g);
      return newsz, lost;
    }

    /** The loop of freevm over the directory. */
    method FreeTables(pd: nat)
      requires Valid() && Space(tabs, pd)
      modifies this
      ensures Valid() && failed == old(failed) && pages == old(pages)
      ensures tabs == old(tabs) - old(OwnTabs(tabs, pd)) + map[pd := old(tabs)[pd]]
    {
      ghost var t0 := tabs;
      var i := 0;
      while i < NPT
        invariant i <= NPT && Valid() && failed == old(failed) && pages == old(pages)
        invariant tabs == t0 - TablesBelow(t0[pd], i) && pd in tabs
      {
        var pde := tabs[pd][i];
        assert TablesBelow(t0[pd], i + 1) == TablesBelow(t0[pd], i) + if pde.Present? then {pde.frame} else {};
        if pde.Present? {
          assert pde.frame in tabs by {
            assert forall j :: 0 <= j < i && t0[pd][j].Present? ==> t0[pd][j].frame != pde.frame;
          }
          Kfree(pde.frame);
        }
        i := i + 1;
      }
      assert OwnTabs(t0, pd) == {pd} + TablesBelow(t0[pd], NPT);
    }

    /** freevm: everything that the address space was made of is free again. */
    method FreeVm(pd: nat)
      requires Valid() && UserOk(tabs, pages, pd)
      modifies this
      ensures Valid() && failed == old(failed)
      ensures tabs == old(tabs) - old(OwnTabs(tabs, pd)) && pages == old(pages) - old(UserFrames(tabs, pd))
    {
      assert PagesOf(KERNPAGE * PGSIZE) == KERNPAGE && PagesOf(0) == 0;
      var _ := DeallocUvm(pd, KERNPAGE * PGSIZE, 0);
      ghost var t1, p1 := tabs, pages;
      AllCleared(old(tabs), old(pages), t1, p1, pd);
      FreeTables(pd);
      Freed(old(tabs), old(pages), t1, p1, pd);
      Kfree(pd);
    }

    /** The content and flags of page n of pd, if it is mapped, where d has been filled since tabs0 and pages0. */
    method ReadPage(pd: nat, n: nat, ghost tabs0: Tables, ghost pages0: map<nat, Page>, ghost d: nat,
        ghost want: seq<Leaf>)
      returns (leaf: Option<Leaf>)
      requires Valid() && UserOk(tabs0, pages0, pd) && n < KERNPAGE
      requires Filled(tabs0, pages0, tabs, pages, d, 0, want) && OwnTabs(tabs0, pd) !! OwnTabs(tabs0, d)
      modifies this
      ensures Valid() && tabs == old(tabs) && pages == old(pages) && failed == old(failed) && free == old(free)
      ensures leaf == if Entry(tabs0, pd, n).Present? then Some(LeafAt(tabs0, pages0, pd, n)) else None
    {
      assert OwnTabs(tabs0, pd) <= tabs0.Keys;
      SpaceStays(tabs0, tabs, pd);
      var t := WalkPgdir(pd, n, false);
      if t.None? {
        return None;
      }
      var e := tabs[t.value][n % NPT];
      assert e == Entry(tabs, pd, n);
      leaf := if e.Present? then Some(Leaf(pages[e.frame], e.flags)) else None;
    }

    /** One round of copyuvm: page i of pd into the new directory d; a missing page is a panic. */
    method CopyPage(pd: nat, d: nat, i: nat, ghost c: Copy)
      returns (missing: bool, ok: bool, ghost lost: Option<nat>, ghost c': Copy)
      requires Valid() && c.tabs == tabs && c.pages == pages && c.free == |free| && c.pd == pd && c.d == d
      requires c.i == i < c.k
      modifies this
      ensures Valid() && failed == (old(failed) || !(missing || ok)) && (missing ==> !ok)
      ensures if ok then lost.None? else CopyEnd(c', missing, ok, lost) && (!missing ==> UserOk(tabs, pages, d))
      ensures c' == c.(tabs := tabs, pages := Without(pages, lost), free := if ok then |free| else c.free,
          i := if ok then i + 1 else i)
      ensures lost.Some? ==> lost.value !in c'.pages && lost.value in pages
    {
      ghost var was := Leaves(c.tabs0, c.pages0, pd, i);
      ok, lost, c' := false, None, c;
      var leaf := ReadPage(pd, i, c.tabs0, c.pages0, d, was);
      if leaf.None? {
        return true, ok, lost, c';
      }
      NextLeaf(c, leaf.value);
      var got; ghost var f;
      missing := false;
      got, ok, f := AddPage(d, i, leaf.value);
      if ok {
        FilledNext(c.tabs0, c.pages0, c.tabs, c.pages, tabs, pages, d, 0, was, leaf.value);
        TakenNext(c.tabs0[d], c.free0, c.tabs[d], c.free, tabs[d], |free|, 0, i);
        c' := NextCopy(c, tabs, pages, |free|, leaf.value);
      } else if got {
        lost := Some(f);
        assert pages - {f} == c.pages;
      }
    }

    /** The loop of copyuvm: the first k pages of pd into the new directory d. */
    method CopyPages(pd: nat, d: nat, k: nat) returns (missing: bool, ok: bool, ghost lost: Option<nat>, ghost c: Copy)
      requires Valid() && Copyable(tabs, pages, pd, d, k)
      modifies this
      ensures Valid() && failed == (old(failed) || !(missing || ok)) && !(missing && ok)
      ensures c == Progress(old(tabs), old(pages), |old(free)|, tabs, Without(pages, lost), c.free, pd, d, k, c.i)
      ensures CopyEnd(c, missing, ok, lost) && (lost.Some? ==> lost.value !in c.pages && lost.value in pages)
      ensures !missing && !ok ==> UserOk(tabs, pages, d)
    {
      c := StartCopy(tabs, pages, |free|, pd, d, k);
      missing, ok, lost := false, true, None;
      var i := 0;
      while i < k
        invariant i <= k && Valid() && failed == old(failed) && !missing && ok && lost.None?
        invariant c == Progress(old(tabs), old(pages), |old(free)|, tabs, pages, |free|, pd, d, k, i)
      {
        missing, ok, lost, c := CopyPage(pd, d, i, c);
        if !ok {
          return;
        }
        i := i + 1;
      }
    }

    /** copyuvm after setupkvm: the first k pages of pd into the new directory d, which is all that is new since was. */
    method FillCopy(pd: nat, d: nat, k: nat, ghost was: Tables) returns (r: Fork, ghost lost: Option<nat>)
      requires Valid() && Copyable(tabs, pages, pd, d, k) && NoUserTabs(tabs[d]) && Extends(was, tabs)
      requires tabs.Keys == was.Keys + OwnTabs(tabs, d) && OwnTabs(tabs, d) !! was.Keys
      modifies this
      ensures Valid() && failed == (old(failed) || r.NoMemory?)
      ensures var (n, there) := (|old(free)|, FirstMissing(old(tabs), pd, k));
        && (r.Child? <==> there == k && n >= CopyNeed(k)) && (r.Panic? <==> there < k && n >= CopyNeed(there))
        && (lost.Some? <==> CopyLoses(n + KERNFRAMES, there))
      ensures r.Child? ==> r.pd == d && UserOk(tabs, pages, d) && AllThere(old(tabs), pd, k)
      ensures r.Child? ==> Filled(old(tabs), old(pages), tabs, pages, d, 0, Leaves(old(tabs), old(pages), pd, k))
      ensures r.NoMemory? ==> tabs == was && Without(pages, lost) == old(pages)
      ensures lost.Some? ==> r.NoMemory? && lost.value in pages && lost.value !in old(pages)
    {
      var missing, ok; ghost var c;
      missing, ok, lost, c := CopyPages(pd, d, k);
      CopyOutcome(c, missing, ok, lost);
      if missing {
        return Panic, lost;
      }
      if !ok {
        CopyUndone(was, c, pages, lost);
        FreeVm(d);
        return NoMemory, lost;
      }
      return Child(d), lost;
    }

    /** copyuvm: a new address space with the same bytes in frames of its own. It panics if it comes to a page below the
        size that is missing. */
    method CopyUvm(pd: nat, sz: nat, data: nat) returns (r: Fork, ghost lost: Option<nat>)
      requires Valid() && UserOk(tabs, pages, pd) && sz <= KERNPAGE * PGSIZE && KERNLINK < data < KERNPAGE + PHYSTOP
      modifies this
      ensures Valid() && failed == (old(failed) || r.NoMemory?)
      ensures var (n, k) := (|old(free)|, PagesOf(sz));
        var there := FirstMissing(old(tabs), pd, k);
        && (r.Child? <==> there == k && n >= KERNFRAMES + CopyNeed(k))
        && (r.Panic? <==> there < k && n >= KERNFRAMES + CopyNeed(there))
        && (lost.Some? <==> CopyLoses(n, there))
      ensures r.Child? ==> Copied(old(tabs), old(pages), tabs, pages, pd, r.pd, PagesOf(sz), data)
      ensures r.NoMemory? && |old(free)| < KERNFRAMES ==> free == [] && Extends(old(tabs), tabs) && pages == old(pages)
      ensures r.NoMemory? && |old(free)| >= KERNFRAMES ==> tabs == old(tabs) && Without(pages, lost) == old(pages)
      ensures lost.Some? ==> r.NoMemory? && lost.value in pages && lost.value !in old(pages)
    {
      lost := None;
      var s := SetupKvm(data);
      if s.None? {
        NothingCopied(|old(free)|, FirstMissing(old(tabs), pd, PagesOf(sz)));
        return NoMemory, lost;
      }
      var d := s.value;
      ghost var tabs0, pages0 := tabs, pages;
      assert OwnTabs(old(tabs), pd) <= old(tabs).Keys;
      SpaceStays(old(tabs), tabs, pd);
      SameMissing(old(tabs), tabs, pd, PagesOf(sz));
      r, lost := FillCopy(pd, d, PagesOf(sz), old(tabs));
      if r.Child? {
        FilledExactly(tabs0, pages0, tabs, pages, d, 0, Leaves(tabs0, pages0, pd, PagesOf(sz)));
        CopiedWhole(old(tabs), old(pages), tabs0, tabs, pages, pd, d, PagesOf(sz), data);
      }
    }
  }

  /** What copyuvm comes to. */
  datatype Fork = Child(pd: nat) | NoMemory | Panic

  /** The first k user pages are mapped. */
  ghost predicate AllThere(tabs: Tables, pd: nat, k: nat) {
    Space(tabs, pd) && forall n :: 0 <= n < KERNPAGE && n < k ==> Entry(tabs, pd, n).Present?
  }

  ghost predicate Extends<T>(a: map<nat, T>, b: map<nat, T>) {
    forall f :: f in a ==> f in b && b[f] == a[f]
  }

  /** The first of the k user pages that is missing, or k. */
  ghost function FirstMissing(tabs: Tables, pd: nat, k: nat): (r: nat)
    requires Space(tabs, pd) && k <= KERNPAGE
    ensures r <= k && AllThere(tabs, pd, r) && (r < k ==> Entry(tabs, pd, r).Absent?)
  {
    if k == 0 then 0
    else
      var r := FirstMissing(tabs, pd, k - 1);
      if r < k - 1 || Entry(tabs, pd, r).Absent? then r else k
  }

  lemma MissingFrom(tabs: Tables, pd: nat, i: nat, k: nat)
    requires i <= k <= KERNPAGE && AllThere(tabs, pd, i)
    ensures FirstMissing(tabs, pd, k) >= i
    ensures i < k && Entry(tabs, pd, i).Absent? ==> FirstMissing(tabs, pd, k) == i
  {
  }

  lemma SameMissing(tabs: Tables, tabs': Tables, pd: nat, k: nat)
    requires Space(tabs, pd) && Space(tabs', pd) && k <= KERNPAGE
    requires forall n :: 0 <= n < NPAGES ==> Entry(tabs', pd, n) == Entry(tabs, pd, n)
    ensures FirstMissing(tabs', pd, k) == FirstMissing(tabs, pd, k)
  {
    var r := FirstMissing(tabs, pd, k);
    assert AllThere(tabs', pd, r);
    MissingFrom(tabs', pd, r, k);
  }

  /** The frames for j pages of an address space without tables, and the tables. */
  function CopyNeed(j: nat): (n: nat) {
    j + (j + NPT - 1) / NPT
  }

  /** Page j, the first one of a table, gets the last of n frames. */
  predicate CopyLoses(n: nat, k: nat) {
    exists j :: 0 <= j < k && j % NPT == 0 && n == KERNFRAMES + CopyNeed(j) + 1
  }

  lemma {:induction false} NeedOfNew(t: Table, j: nat)
    requires NoUserTabs(t) && j <= KERNPAGE
    ensures Need(t, 0, j) == CopyNeed(j)
  {
    if j > 0 {
      NeedOfNew(t, j - 1);
      assert t[(j - 1) / NPT].Absent?;
      assert (j - 1) % NPT == 0 ==> (j + NPT - 1) / NPT == (j - 1 + NPT - 1) / NPT + 1;
      assert (j - 1) % NPT != 0 ==> (j + NPT - 1) / NPT == (j - 1 + NPT - 1) / NPT;
    }
  }

  lemma NothingCopied(n: nat, k: nat)
    requires n < KERNFRAMES
    ensures !CopyLoses(n, k)
  {
  }

  /** How the loop of copyuvm ends: at a missing page, with all pages, or for want of a frame. */
  ghost predicate CopyEnd(c: Copy, missing: bool, ok: bool, lost: Option<nat>) {
    if ok then c.i == c.k && lost.None?
    else if missing then c.i < c.k && Entry(c.tabs0, c.pd, c.i).Absent? && lost.None?
    else
      && c.i < c.k && Entry(c.tabs0, c.pd, c.i).Present? && c.free < (if Opens(c.tabs0[c.d], 0, c.i) then 2 else 1)
      && (lost.Some? <==> c.free == 1)
  }

  /** That is settled by the frames and pages at its start. */
  lemma CopyOutcome(c: Copy, missing: bool, ok: bool, lost: Option<nat>)
    requires CopyEnd(c, missing, ok, lost) && !(missing && ok) && NoUserTabs(c.tabs0[c.d])
    ensures var there := FirstMissing(c.tabs0, c.pd, c.k);
      && (ok <==> there == c.k && c.free0 >= CopyNeed(c.k)) && (missing <==> there < c.k && c.free0 >= CopyNeed(there))
      && (lost.Some? <==> CopyLoses(c.free0 + KERNFRAMES, there))
  {
    var there := FirstMissing(c.tabs0, c.pd, c.k);
    MissingFrom(c.tabs0, c.pd, c.i, c.k);
    if ok || missing {
      CopyEnough(c.tabs0[c.d], c.free0, there);
    } else {
      assert AllThere(c.tabs0, c.pd, c.i + 1);
      MissingFrom(c.tabs0, c.pd, c.i + 1, c.k);
      CopyShort(c.tabs0[c.d], c.free0, c.free, c.i, there);
    }
  }

  lemma CopyEnough(t: Table, n: nat, there: nat)
    requires NoUserTabs(t) && there <= KERNPAGE && n >= Need(t, 0, there)
    ensures n >= CopyNeed(there) && !CopyLoses(n + KERNFRAMES, there)
  {
    NeedOfNew(t, there);
    CopyLosesIs(t, n, there);
    NoLossAt(t, n, 0, there, there);
  }

  lemma CopyShort(t: Table, n: nat, free: nat, i: nat, there: nat)
    requires NoUserTabs(t) && i < there <= KERNPAGE && n == free + Need(t, 0, i)
    requires free < if Opens(t, 0, i) then 2 else 1
    ensures n < CopyNeed(there) && (CopyLoses(n + KERNFRAMES, there) <==> free == 1)
  {
    NeedOfNew(t, there);
    CopyLosesIs(t, n, there);
    NeedGrows(t, 0, i + 1, there);
    if free == 1 {
      Loss(t, n, 0, i, there);
    } else {
      NoLossAt(t, n, 0, i, there);
    }
  }

  lemma CopyLosesIs(t: Table, n: nat, k: nat)
    requires NoUserTabs(t) && k <= KERNPAGE
    ensures CopyLoses(n + KERNFRAMES, k) <==> Loses(t, n, 0, k)
  {
    forall j | 0 <= j < k ensures LosesAt(t, n, 0, j) <==> j % NPT == 0 && n == CopyNeed(j) + 1 {
      NeedOfNew(t, j);
      assert t[j / NPT].Absent?;
    }
  }

  /** freevm after a copy that came to no end. */
  lemma CopyUndone(was: Tables, c: Copy, pages: map<nat, Page>, lost: Option<nat>)
    requires Without(pages, lost) == c.pages && (lost.Some? ==> lost.value !in c.pages && lost.value in pages)
    requires c.tabs0.Keys == was.Keys + OwnTabs(c.tabs0, c.d) && OwnTabs(c.tabs0, c.d) !! was.Keys
    requires Extends(was, c.tabs0)
    ensures c.tabs - OwnTabs(c.tabs, c.d) == was
    ensures Without(pages - UserFrames(c.tabs, c.d), lost) == c.pages0
    ensures lost.Some? ==> lost.value in pages - UserFrames(c.tabs, c.d) && lost.value !in c.pages0
  {
    assert UserFrames(c.tabs, c.d) == FramesBetween(c.tabs, c.d, 0, c.i);
    TakenAway(c.pages0, pages, pages - UserFrames(c.tabs, c.d), UserFrames(c.tabs, c.d), lost);
  }

  /** The same pages are mapped in the same way. */
  ghost predicate SamePages(tabs: Tables, tabs': Tables, pd: nat) {
    Space(tabs, pd) && Space(tabs', pd) && forall m :: 0 <= m < NPAGES ==> Entry(tabs', pd, m) == Entry(tabs, pd, m)
  }

  /** How far deallocuvm has come, from page lo on up to hi: at a. */
  datatype DropData = Dropping(
    tabs0: Tables, pages0: map<nat, Page>, tabs: Tables, pages: map<nat, Page>, pd: nat, lo: nat, hi: nat, a: nat)

  /** The pages that it has come to are gone; it has not left out any since the first table. */
  ghost predicate DropOk(g: DropData) {
    && UserOk(g.tabs, g.pages, g.pd) && Space(g.tabs0, g.pd) && SameTabs(g.tabs0, g.tabs, g.pd) && g.hi <= KERNPAGE
    && var (t, s) := (g.tabs0[g.pd], Resume(g.tabs0[g.pd], g.lo));
    if g.a < s then g.tabs == g.tabs0 && g.pages == g.pages0 && Resume(t, g.a) == s
    else
      && Cleared(g.tabs0, g.pages0, g.tabs, g.pages, g.pd, s, if g.a < g.hi then g.a else g.hi)
      && (g.a >= KERNPAGE || g.a % NPT == 0 || t[g.a / NPT].Present?)
  }

  ghost function StartDrop(tabs: Tables, pages: map<nat, Page>, pd: nat, lo: nat, hi: nat): (g: DropData)
    requires UserOk(tabs, pages, pd) && hi <= KERNPAGE
    ensures DropOk(g) && g == Dropping(tabs, pages, tabs, pages, pd, lo, hi, lo)
  {
    ClearedNone(tabs, pages, pd, Resume(tabs[pd], lo), if lo < hi then lo else hi);
    Dropping(tabs, pages, tabs, pages, pd, lo, hi, lo)
  }

  type Drop = g: DropData | DropOk(g) ghost witness StartDrop(map[0 := EmptyTable()], map[], 0, 0, 0)

  /** No table for page a: on to the same place in the next table. */
  ghost function Skipped(g: Drop): (r: DropData)
    requires g.a < g.hi && g.tabs[g.pd][g.a / NPT].Absent?
    ensures DropOk(r) && r == g.(a := g.a + NPT)
  {
    if g.a < Resume(g.tabs0[g.pd], g.lo) then SkippedFirst(g) else SkippedLater(g)
  }

  /** So far no table has been there. */
  ghost function SkippedFirst(g: Drop): (r: DropData)
    requires g.a < g.hi && g.tabs[g.pd][g.a / NPT].Absent? && g.a < Resume(g.tabs0[g.pd], g.lo)
    ensures DropOk(r) && r == g.(a := g.a + NPT)
  {
    var s := Resume(g.tabs0[g.pd], g.lo);
    assert Resume(g.tabs0[g.pd], g.a + NPT) == s;
    ClearedNone(g.tabs, g.pages, g.pd, s, if g.a + NPT < g.hi then g.a + NPT else g.hi);
    g.(a := g.a + NPT)
  }

  /** It is a whole table that is left out. */
  ghost function SkippedLater(g: Drop): (r: DropData)
    requires g.a < g.hi && g.tabs[g.pd][g.a / NPT].Absent? && g.a >= Resume(g.tabs0[g.pd], g.lo)
    ensures DropOk(r) && r == g.(a := g.a + NPT)
  {
    ClearedFurther(g.tabs0, g.pages0, g.tabs, g.pages, g.pd, Resume(g.tabs0[g.pd], g.lo), g.a,
        if g.a + NPT < g.hi then g.a + NPT else g.hi);
    g.(a := g.a + NPT)
  }

  /** Page a is gone. */
  ghost function Dropped(g: Drop, tabs: Tables, pages: map<nat, Page>): (r: DropData)
    requires g.a < g.hi && g.tabs[g.pd][g.a / NPT].Present?
    requires UserOk(tabs, pages, g.pd) && SameTabs(g.tabs, tabs, g.pd)
    requires forall m :: 0 <= m < NPAGES ==>
      Entry(tabs, g.pd, m) == if m == g.a then Absent else Entry(g.tabs, g.pd, m)
    requires pages ==
      if Entry(g.tabs, g.pd, g.a).Present? then g.pages - {Entry(g.tabs, g.pd, g.a).frame} else g.pages
    ensures DropOk(r) && r == g.(tabs := tabs, pages := pages, a := g.a + 1)
  {
    PastStart(g);
    SameTabsTrans(g.tabs0, g.tabs, tabs, g.pd);
    ClearedNext(g.tabs0, g.pages0, g.tabs, g.pages, tabs, pages, g.pd, Resume(g.tabs0[g.pd], g.lo), g.a);
    NextDrop(g, tabs, pages)
  }

  /** A page with a table is not passed by. */
  lemma PastStart(g: Drop)
    requires g.a < g.hi && g.tabs[g.pd][g.a / NPT].Present?
    ensures g.a >= Resume(g.tabs0[g.pd], g.lo)
    ensures Cleared(g.tabs0, g.pages0, g.tabs, g.pages, g.pd, Resume(g.tabs0[g.pd], g.lo), g.a)
  {
  }

  lemma SameTabsTrans(a: Tables, b: Tables, c: Tables, pd: nat)
    requires SameTabs(a, b, pd) && SameTabs(b, c, pd)
    ensures SameTabs(a, c, pd)
  {
  }

  ghost function NextDrop(g: DropData, tabs: Tables, pages: map<nat, Page>): (r: DropData)
    requires UserOk(tabs, pages, g.pd) && Space(g.tabs0, g.pd) && SameTabs(g.tabs0, tabs, g.pd)
    requires g.a < g.hi <= KERNPAGE && g.a >= Resume(g.tabs0[g.pd], g.lo) && g.tabs0[g.pd][g.a / NPT].Present?
    requires Cleared(g.tabs0, g.pages0, tabs, pages, g.pd, Resume(g.tabs0[g.pd], g.lo), g.a + 1)
    ensures DropOk(r) && r == g.(tabs := tabs, pages := pages, a := g.a + 1)
  {
    assert (g.a + 1) % NPT == 0 || (g.a + 1) / NPT == g.a / NPT;
    g.(tabs := tabs, pages := pages, a := g.a + 1)
  }

  /** freevm starts with the first page of a table, and so leaves out none. */
  lemma AllCleared(tabs: Tables, pages: map<nat, Page>, tabs': Tables, pages': map<nat, Page>, pd: nat)
    requires Space(tabs, pd) && Cleared(tabs, pages, tabs', pages', pd, Resume(tabs[pd], 0), KERNPAGE)
    ensures Cleared(tabs, pages, tabs', pages', pd, 0, KERNPAGE)
  {
    var s := Resume(tabs[pd], 0);
    forall m | 0 <= m < KERNPAGE && m < s ensures Entry(tabs, pd, m).Absent? {
      ResumeSkips(tabs[pd], 0, m);
    }
    assert FramesBetween(tabs, pd, 0, KERNPAGE) == FramesBetween(tabs, pd, s, KERNPAGE);
  }

  /** How far allocuvm has come; lost is a frame that mappages had no table for. */
  datatype GrowthData = Growing(
    tabs0: Tables, pages0: map<nat, Page>, free0: nat, tabs: Tables, pages: map<nat, Page>, free: nat, pd: nat, lo: nat,
    n: nat, lost: Option<nat>)

  /** Pages lo up to n have been added, except for the last one where a frame was lost. */
  ghost predicate GrowthOk(g: GrowthData) {
    && UserOk(g.tabs, g.pages, g.pd) && NoneFrom(g.tabs0, g.pd, g.lo) && g.lo <= g.n <= KERNPAGE
    && NoneFrom(g.tabs, g.pd, g.n)
    && if g.lost.None? then
         && Filled(g.tabs0, g.pages0, g.tabs, g.pages, g.pd, g.lo, Zeros(g.n))
         && Taken(g.tabs0[g.pd], g.free0, g.tabs[g.pd], g.free, g.lo, g.n)
       else
         && g.free == 0 && g.lo < g.n && LosesAt(g.tabs0[g.pd], g.free0, g.lo, g.n - 1)
         && g.lost.value in g.pages && g.lost.value !in g.pages0
         && Filled(g.tabs0, g.pages0, g.tabs, g.pages - {g.lost.value}, g.pd, g.lo, Zeros(g.n - 1))
  }

  /** The frames for pages lo up to n are taken; the tables that start with page n or above are as they were. */
  ghost predicate Taken(t: Table, free: nat, t': Table, free': nat, lo: nat, n: nat)
    requires lo <= n <= KERNPAGE
  {
    && free == free' + Need(t, lo, n)
    && (n == lo ==> t' == t) && forall i :: 0 <= i < NPT && n <= i * NPT ==> t'[i] == t[i]
  }

  lemma TakenNext(t: Table, free: nat, t1: Table, free1: nat, t2: Table, free2: nat, lo: nat, n: nat)
    requires lo <= n < KERNPAGE && Taken(t, free, t1, free1, lo, n)
    requires free1 == free2 + if Opens(t, lo, n) then 2 else 1
    requires forall i :: 0 <= i < NPT && i != n / NPT ==> t2[i] == t1[i]
    ensures Taken(t, free, t2, free2, lo, n + 1)
  {
  }

  ghost function StartGrowth(tabs: Tables, pages: map<nat, Page>, free: nat, pd: nat, lo: nat): (g: GrowthData)
    requires UserOk(tabs, pages, pd) && NoneFrom(tabs, pd, lo) && lo <= KERNPAGE
    ensures GrowthOk(g) && g == Growing(tabs, pages, free, tabs, pages, free, pd, lo, lo, None)
  {
    FilledNone(tabs, pages, pd, lo, Zeros(lo));
    Growing(tabs, pages, free, tabs, pages, free, pd, lo, lo, None)
  }

  type Growth = g: GrowthData | GrowthOk(g) ghost witness StartGrowth(map[0 := EmptyTable()], map[], 0, 0, 0)

  /** The next page takes a table if and only if it opens one. */
  lemma OpensNext(tabs0: Tables, pages0: map<nat, Page>, free0: nat, tabs: Tables, pages: map<nat, Page>, free: nat,
      pd: nat, lo: nat, want: seq<Leaf>)
    requires lo <= |want| < KERNPAGE && Filled(tabs0, pages0, tabs, pages, pd, lo, want)
    requires Taken(tabs0[pd], free0, tabs[pd], free, lo, |want|)
    ensures tabs[pd][|want| / NPT].Absent? <==> Opens(tabs0[pd], lo, |want|)
  {
    var n := |want|;
    if n > lo && n % NPT != 0 {
      assert Entry(tabs, pd, n - 1).Present?;
      assert (n - 1) / NPT == n / NPT;
    }
  }

  lemma Opening(g: Growth)
    requires g.lost.None? && g.n < KERNPAGE
    ensures g.tabs[g.pd][g.n / NPT].Absent? <==> Opens(g.tabs0[g.pd], g.lo, g.n)
  {
    OpensNext(g.tabs0, g.pages0, g.free0, g.tabs, g.pages, g.free, g.pd, g.lo, Zeros(g.n));
  }

  lemma FilledZero(g: Growth, tabs: Tables, pages: map<nat, Page>, f: nat)
    requires g.n < KERNPAGE && g.lost.None? && Grown(g.tabs, tabs, g.pd)
    requires forall m :: 0 <= m < NPAGES && m != g.n ==> Entry(tabs, g.pd, m) == Entry(g.tabs, g.pd, m)
    requires Entry(tabs, g.pd, g.n) == Present(f, 6) && f !in g.pages && pages == g.pages[f := ZeroPage()]
    ensures Filled(g.tabs0, g.pages0, tabs, pages, g.pd, g.lo, Zeros(g.n + 1)) && NoneFrom(tabs, g.pd, g.n + 1)
  {
    FilledNext(g.tabs0, g.pages0, g.tabs, g.pages, tabs, pages, g.pd, g.lo, Zeros(g.n), Leaf(ZeroPage(), 6));
    assert Zeros(g.n) + [Leaf(ZeroPage(), 6)] == Zeros(g.n + 1);
  }

  /** After a round in which the page was mapped. */
  ghost function NextGrowth(g: GrowthData, tabs: Tables, pages: map<nat, Page>, free: nat): (r: GrowthData)
    requires g.lo <= g.n < KERNPAGE && g.lost.None? && NoneFrom(g.tabs0, g.pd, g.lo) && UserOk(tabs, pages, g.pd)
    requires Filled(g.tabs0, g.pages0, tabs, pages, g.pd, g.lo, Zeros(g.n + 1)) && NoneFrom(tabs, g.pd, g.n + 1)
    requires Taken(g.tabs0[g.pd], g.free0, tabs[g.pd], free, g.lo, g.n + 1)
    ensures GrowthOk(r) && r == g.(tabs := tabs, pages := pages, free := free, n := g.n + 1)
  {
    g.(tabs := tabs, pages := pages, free := free, n := g.n + 1)
  }

  /** After a round in which it was not. */
  ghost function LostGrowth(g: GrowthData, pages: map<nat, Page>, f: nat): (r: GrowthData)
    requires g.lo <= g.n < KERNPAGE && NoneFrom(g.tabs0, g.pd, g.lo) && NoneFrom(g.tabs, g.pd, g.n)
    requires UserOk(g.tabs, pages, g.pd) && LosesAt(g.tabs0[g.pd], g.free0, g.lo, g.n)
    requires f in pages && f !in g.pages0
    requires Filled(g.tabs0, g.pages0, g.tabs, pages - {f}, g.pd, g.lo, Zeros(g.n))
    ensures GrowthOk(r) && r == g.(pages := pages, free := 0, n := g.n + 1, lost := Some(f))
  {
    g.(pages := pages, free := 0, n := g.n + 1, lost := Some(f))
  }

  ghost function MappedRound(g: Growth, tabs: Tables, pages: map<nat, Page>, free: nat, f: nat): (r: GrowthData)
    requires g.n < KERNPAGE && g.lost.None? && Grown(g.tabs, tabs, g.pd) && UserOk(tabs, pages, g.pd)
    requires g.free == free + if g.tabs[g.pd][g.n / NPT].Absent? then 2 else 1
    requires forall i :: 0 <= i < NPT && i != g.n / NPT ==> tabs[g.pd][i] == g.tabs[g.pd][i]
    requires forall m :: 0 <= m < NPAGES && m != g.n ==> Entry(tabs, g.pd, m) == Entry(g.tabs, g.pd, m)
    requires Entry(tabs, g.pd, g.n) == Present(f, 6) && f !in g.pages && pages == g.pages[f := ZeroPage()]
    ensures GrowthOk(r) && r == g.(tabs := tabs, pages := pages, free := free, n := g.n + 1)
  {
    Opening(g);
    FilledZero(g, tabs, pages, f);
    TakenNext(g.tabs0[g.pd], g.free0, g.tabs[g.pd], g.free, tabs[g.pd], free, g.lo, g.n);
    NextGrowth(g, tabs, pages, free)
  }

  ghost function LostRound(g: Growth, pages: map<nat, Page>, f: nat): (r: GrowthData)
    requires g.n < KERNPAGE && g.lost.None? && UserOk(g.tabs, pages, g.pd)
    requires g.free == 1 && g.tabs[g.pd][g.n / NPT].Absent? && f !in g.pages && pages == g.pages[f := ZeroPage()]
    ensures GrowthOk(r) && r == g.(pages := pages, free := 0, n := g.n + 1, lost := Some(f))
  {
    Opening(g);
    assert pages - {f} == g.pages;
    LostGrowth(g, pages, f)
  }

  /** With n free frames, there are enough for pages lo up to hi. */
  predicate Enough(t: Table, n: nat, lo: nat, hi: nat)
    requires lo <= hi <= KERNPAGE
  {
    n >= Need(t, lo, hi)
  }

  /** There are enough but for the table of the last page. */
  predicate Hole(t: Table, n: nat, lo: nat, hi: nat)
    requires lo <= hi <= KERNPAGE
  {
    lo < hi && LosesAt(t, n, lo, hi - 1)
  }

  ghost function Without(pages: map<nat, Page>, lost: Option<nat>): (r: map<nat, Page>) {
    if lost.Some? then pages - {lost.value} else pages
  }

  /** What allocuvm comes to, from n free frames: pages lo up to hi, or all but the last of them, or none. */
  ghost predicate Grew(tabs: Tables, pages: map<nat, Page>, n: nat, tabs': Tables, pages': map<nat, Page>, pd: nat,
      lo: nat, hi: nat, ok: bool, lost: Option<nat>)
    requires Space(tabs, pd) && lo <= hi <= KERNPAGE
  {
    && (ok <==> Enough(tabs[pd], n, lo, hi) || Hole(tabs[pd], n, lo, hi))
    && (lost.Some? <==> Loses(tabs[pd], n, lo, hi)) && (lost.Some? ==> lost.value in pages' && lost.value !in pages)
    && Grown(tabs, tabs', pd)
    && if Enough(tabs[pd], n, lo, hi) then Filled(tabs, pages, tabs', Without(pages', lost), pd, lo, Zeros(hi))
       else if Hole(tabs[pd], n, lo, hi) then Filled(tabs, pages, tabs', Without(pages', lost), pd, lo, Zeros(hi - 1))
       else SamePages(tabs, tabs', pd) && Without(pages', lost) == pages
  }

  /** How the loop ends is settled by the frames and tables at its start. */
  lemma NoLoss(g: Growth, hi: nat)
    requires g.lost.None? && g.n <= hi <= KERNPAGE && (g.n < hi ==> g.free == 0)
    ensures !Loses(g.tabs0[g.pd], g.free0, g.lo, hi)
    ensures Enough(g.tabs0[g.pd], g.free0, g.lo, hi) <==> g.n == hi
  {
    NeedGrows(g.tabs0[g.pd], g.lo, g.n, hi);
    NoLossAt(g.tabs0[g.pd], g.free0, g.lo, g.n, hi);
  }

  lemma NoLossAt(t: Table, n: nat, lo: nat, i: nat, hi: nat)
    requires lo <= i <= hi <= KERNPAGE && n >= Need(t, lo, i) && (i < hi ==> n == Need(t, lo, i))
    ensures !Loses(t, n, lo, hi)
  {
    forall j | lo <= j < hi ensures !LosesAt(t, n, lo, j) {
      if LosesAt(t, n, lo, j) {
        LosesOnce(t, n, lo, j, i);
      }
    }
  }

  lemma Loss(t: Table, n: nat, lo: nat, j: nat, hi: nat)
    requires lo <= j < hi <= KERNPAGE && LosesAt(t, n, lo, j)
    ensures Loses(t, n, lo, hi) && !Enough(t, n, lo, hi) && (Hole(t, n, lo, hi) <==> hi == j + 1)
  {
    LosesOnce(t, n, lo, j, hi);
    LosesOnce(t, n, lo, j, hi - 1);
  }

  lemma GrewTo(g: Growth)
    ensures Grew(g.tabs0, g.pages0, g.free0, g.tabs, g.pages, g.pd, g.lo, g.n, true, g.lost)
    ensures Enough(g.tabs0[g.pd], g.free0, g.lo, g.n) <==> g.lost.None?
  {
    if g.lost.None? {
      NoLoss(g, g.n);
    } else {
      GrewToHole(g.tabs0, g.pages0, g.free0, g.tabs, g.pages, g.pd, g.lo, g.n, g.lost.value);
    }
  }

  lemma GrewToHole(tabs: Tables, pages: map<nat, Page>, n: nat, tabs': Tables, pages': map<nat, Page>, pd: nat,
      lo: nat, hi: nat, f: nat)
    requires Space(tabs, pd) && lo < hi <= KERNPAGE && LosesAt(tabs[pd], n, lo, hi - 1) && f in pages' && f !in pages
    requires Filled(tabs, pages, tabs', pages' - {f}, pd, lo, Zeros(hi - 1))
    ensures Grew(tabs, pages, n, tabs', pages', pd, lo, hi, true, Some(f)) && !Enough(tabs[pd], n, lo, hi)
  {
    Loss(tabs[pd], n, lo, hi - 1, hi);
  }

  /** Taking away what was added. */
  lemma RolledBack(g: Growth, tabs: Tables, pages: map<nat, Page>, hi: nat)
    requires g.n < hi <= KERNPAGE && g.free == 0 && SameTabs(g.tabs, tabs, g.pd)
    requires Cleared(g.tabs, g.pages, tabs, pages, g.pd, Resume(g.tabs[g.pd], g.lo), hi)
    ensures Grew(g.tabs0, g.pages0, g.free0, tabs, pages, g.pd, g.lo, hi, false, g.lost)
    ensures !Enough(g.tabs0[g.pd], g.free0, g.lo, hi)
  {
    if g.lost.None? {
      BackWhole(g, tabs, pages, hi);
    } else {
      BackLost(g, tabs, pages, hi);
    }
  }

  lemma GrownSame(tabs0: Tables, tabs1: Tables, tabs: Tables, pd: nat)
    requires Grown(tabs0, tabs1, pd) && SameTabs(tabs1, tabs, pd) && Space(tabs, pd)
    ensures Grown(tabs0, tabs, pd)
  {
  }

  lemma BackWhole(g: Growth, tabs: Tables, pages: map<nat, Page>, hi: nat)
    requires g.n < hi <= KERNPAGE && g.free == 0 && g.lost.None? && SameTabs(g.tabs, tabs, g.pd)
    requires Cleared(g.tabs, g.pages, tabs, pages, g.pd, Resume(g.tabs[g.pd], g.lo), hi)
    ensures Grew(g.tabs0, g.pages0, g.free0, tabs, pages, g.pd, g.lo, hi, false, g.lost)
    ensures !Enough(g.tabs0[g.pd], g.free0, g.lo, hi)
  {
    NoLoss(g, hi);
    GrownSame(g.tabs0, g.tabs, tabs, g.pd);
    BackAsBefore(g.tabs0, g.pages0, g.tabs, g.pages, tabs, pages, g.pd, g.lo, g.n, hi, g.lost);
  }

  lemma BackLost(g: Growth, tabs: Tables, pages: map<nat, Page>, hi: nat)
    requires g.n < hi <= KERNPAGE && g.lost.Some? && SameTabs(g.tabs, tabs, g.pd)
    requires Cleared(g.tabs, g.pages, tabs, pages, g.pd, Resume(g.tabs[g.pd], g.lo), hi)
    ensures Grew(g.tabs0, g.pages0, g.free0, tabs, pages, g.pd, g.lo, hi, false, g.lost)
    ensures !Enough(g.tabs0[g.pd], g.free0, g.lo, hi)
  {
    GrownSame(g.tabs0, g.tabs, tabs, g.pd);
    BackFromLoss(g.tabs0, g.pages0, g.free0, g.tabs, g.pages, tabs, pages, g.pd, g.lo, g.n - 1, hi, g.lost);
  }

  lemma BackFromLoss(
    tabs0: Tables, pages0: map<nat, Page>, n: nat, tabs1: Tables, pages1: map<nat, Page>, tabs: Tables,
    pages: map<nat, Page>, pd: nat, lo: nat, j: nat, hi: nat, lost: Option<nat>)
    requires NoneFrom(tabs0, pd, lo) && lo <= j && j + 1 < hi <= KERNPAGE && LosesAt(tabs0[pd], n, lo, j) && lost.Some?
    requires Filled(tabs0, pages0, tabs1, Without(pages1, lost), pd, lo, Zeros(j))
    requires Cleared(tabs1, pages1, tabs, pages, pd, Resume(tabs1[pd], lo), hi)
    requires lost.value in pages1 && lost.value !in pages0 && Grown(tabs0, tabs, pd)
    ensures Grew(tabs0, pages0, n, tabs, pages, pd, lo, hi, false, lost) && !Enough(tabs0[pd], n, lo, hi)
  {
    Loss(tabs0[pd], n, lo, j, hi);
    BackAsBefore(tabs0, pages0, tabs1, pages1, tabs, pages, pd, lo, j, hi, lost);
  }

  lemma BackAsBefore(
    tabs0: Tables, pages0: map<nat, Page>, tabs1: Tables, pages1: map<nat, Page>, tabs: Tables, pages: map<nat, Page>,
    pd: nat, lo: nat, k: nat, hi: nat, lost: Option<nat>)
    requires NoneFrom(tabs0, pd, lo) && lo <= k <= hi <= KERNPAGE
    requires Filled(tabs0, pages0, tabs1, Without(pages1, lost), pd, lo, Zeros(k))
    requires Cleared(tabs1, pages1, tabs, pages, pd, Resume(tabs1[pd], lo), hi)
    requires lost.Some? ==> lost.value in pages1 && lost.value !in pages0
    ensures SamePages(tabs0, tabs, pd) && Without(pages, lost) == pages0
    ensures lost.Some? ==> lost.value in pages
  {
    FramesBack(tabs0, pages0, tabs1, Without(pages1, lost), pd, lo, k, hi);
    SameBack(tabs0, pages0, tabs1, pages1, tabs, pages, pd, lo, k, hi, lost);
    PagesBack(tabs0, pages0, tabs1, Without(pages1, lost), pd, lo, Zeros(k));
    TakenAway(pages0, pages1, pages, FramesBetween(tabs1, pd, lo, k), lost);
  }

  lemma SameBack(
    tabs0: Tables, pages0: map<nat, Page>, tabs1: Tables, pages1: map<nat, Page>, tabs: Tables, pages: map<nat, Page>,
    pd: nat, lo: nat, k: nat, hi: nat, lost: Option<nat>)
    requires NoneFrom(tabs0, pd, lo) && lo <= k <= hi <= KERNPAGE
    requires Filled(tabs0, pages0, tabs1, Without(pages1, lost), pd, lo, Zeros(k))
    requires Cleared(tabs1, pages1, tabs, pages, pd, Resume(tabs1[pd], lo), hi)
    requires k > lo ==> Resume(tabs1[pd], lo) == lo
    ensures SamePages(tabs0, tabs, pd)
  {
  }

  lemma PagesBack(
    tabs: Tables, pages: map<nat, Page>, tabs': Tables, pages': map<nat, Page>, pd: nat, lo: nat, want: seq<Leaf>)
    requires Filled(tabs, pages, tabs', pages', pd, lo, want)
    ensures pages'.Keys == pages.Keys + FramesBetween(tabs', pd, lo, |want|)
    ensures FramesBetween(tabs', pd, lo, |want|) !! pages.Keys && forall f :: f in pages ==> pages'[f] == pages[f]
  {
  }

  lemma TakenAway(
    pages0: map<nat, Page>, pages1: map<nat, Page>, pages: map<nat, Page>, gone: set<nat>, lost: Option<nat>)
    requires Without(pages1, lost).Keys == pages0.Keys + gone && gone !! pages0.Keys && pages == pages1 - gone
    requires forall f :: f in pages0 ==> Without(pages1, lost)[f] == pages0[f]
    requires lost.Some? ==> lost.value in pages1 && lost.value !in pages0
    ensures Without(pages, lost) == pages0 && (lost.Some? ==> lost.value in pages)
  {
    assert lost.Some? ==> lost.value !in Without(pages1, lost);
    assert Without(pages, lost) == Without(pages1, lost) - gone;
  }

  /** The pages that deallocuvm comes to are those that were added. */
  lemma FramesBack(
    tabs0: Tables, pages0: map<nat, Page>, tabs1: Tables, pages1: map<nat, Page>, pd: nat, lo: nat, k: nat, hi: nat)
    requires NoneFrom(tabs0, pd, lo) && lo <= k <= hi <= KERNPAGE
    requires Filled(tabs0, pages0, tabs1, pages1, pd, lo, Zeros(k))
    ensures k > lo ==> Resume(tabs1[pd], lo) == lo
    ensures FramesBetween(tabs1, pd, Resume(tabs1[pd], lo), hi) == FramesBetween(tabs1, pd, lo, k)
  {
    if k > lo {
      assert Entry(tabs1, pd, lo).Present?;
    }
    assert forall m :: k <= m < KERNPAGE ==> Entry(tabs1, pd, m).Absent?;
  }

  /** The k pages of pd can be copied into d, which has none. */
  ghost predicate Copyable(tabs: Tables, pages: map<nat, Page>, pd: nat, d: nat, k: nat) {
    k <= KERNPAGE && UserOk(tabs, pages, pd) && Exactly(tabs, d, 0) && OwnTabs(tabs, pd) !! OwnTabs(tabs, d)
  }

  /** How far a copy has come. */
  datatype ProgressData = Progress(
    tabs0: Tables, pages0: map<nat, Page>, free0: nat, tabs: Tables, pages: map<nat, Page>, free: nat, pd: nat, d: nat,
    k: nat, i: nat)

  /** The first i pages of pd's k are in d. */
  ghost predicate Copying(c: ProgressData) {
    && c.i <= c.k && Copyable(c.tabs0, c.pages0, c.pd, c.d, c.k) && UserOk(c.tabs, c.pages, c.d)
    && AllThere(c.tabs0, c.pd, c.i)
    && Filled(c.tabs0, c.pages0, c.tabs, c.pages, c.d, 0, Leaves(c.tabs0, c.pages0, c.pd, c.i))
    && Taken(c.tabs0[c.d], c.free0, c.tabs[c.d], c.free, 0, c.i)
  }

  ghost function StartCopy(tabs: Tables, pages: map<nat, Page>, free: nat, pd: nat, d: nat, k: nat): (c: ProgressData)
    requires Copyable(tabs, pages, pd, d, k)
    ensures Copying(c) && c == Progress(tabs, pages, free, tabs, pages, free, pd, d, k, 0)
  {
    FilledNone(tabs, pages, d, 0, Leaves(tabs, pages, pd, 0));
    Progress(tabs, pages, free, tabs, pages, free, pd, d, k, 0)
  }

  ghost function NextCopy(c: Copy, tabs: Tables, pages: map<nat, Page>, free: nat, leaf: Leaf): (r: ProgressData)
    requires c.i < c.k && Entry(c.tabs0, c.pd, c.i).Present? && leaf == LeafAt(c.tabs0, c.pages0, c.pd, c.i)
    requires UserOk(tabs, pages, c.d) && Taken(c.tabs0[c.d], c.free0, tabs[c.d], free, 0, c.i + 1)
    requires Filled(c.tabs0, c.pages0, tabs, pages, c.d, 0, Leaves(c.tabs0, c.pages0, c.pd, c.i) + [leaf])
    ensures Copying(r) && r == c.(tabs := tabs, pages := pages, free := free, i := c.i + 1)
  {
    NextLeaf(c, leaf);
    c.(tabs := tabs, pages := pages, free := free, i := c.i + 1)
  }

  lemma NextLeaf(c: Copy, leaf: Leaf)
    requires c.i < c.k && Entry(c.tabs0, c.pd, c.i).Present? && leaf == LeafAt(c.tabs0, c.pages0, c.pd, c.i)
    ensures Exactly(c.tabs, c.d, c.i) && (c.tabs[c.d][c.i / NPT].Absent? <==> Opens(c.tabs0[c.d], 0, c.i))
    ensures Leaves(c.tabs0, c.pages0, c.pd, c.i) + [leaf] == Leaves(c.tabs0, c.pages0, c.pd, c.i + 1)
  {
    var was := Leaves(c.tabs0, c.pages0, c.pd, c.i);
    FilledExactly(c.tabs0, c.pages0, c.tabs, c.pages, c.d, 0, was);
    OpensNext(c.tabs0, c.pages0, c.free0, c.tabs, c.pages, c.free, c.d, 0, was);
  }

  ghost function NoCopy(): (c: ProgressData)
    ensures Copying(c)
  {
    var tabs: Tables := map[0 := EmptyTable(), 1 := EmptyTable()];
    assert OwnTabs(tabs, 0) == {0} && OwnTabs(tabs, 1) == {1};
    StartCopy(tabs, map[], 0, 0, 1, 0)
  }

  type Copy = c: ProgressData | Copying(c) ghost witness NoCopy()

  ghost function LeafAt(tabs: Tables, pages: map<nat, Page>, pd: nat, n: nat): (l: Leaf)
    requires UserOk(tabs, pages, pd) && n < KERNPAGE && Entry(tabs, pd, n).Present?
  {
    Leaf(pages[Entry(tabs, pd, n).frame], Entry(tabs, pd, n).flags)
  }

  /** What the first k user pages hold. */
  ghost function Leaves(tabs: Tables, pages: map<nat, Page>, pd: nat, k: nat): (ls: seq<Leaf>)
    requires UserOk(tabs, pages, pd) && k <= KERNPAGE && forall n :: 0 <= n < k ==> Entry(tabs, pd, n).Present?
    ensures |ls| == k
  {
    seq<Leaf>(k, n requires 0 <= n < k => LeafAt(tabs, pages, pd, n))
  }

  /** d is a new address space that holds the same as pd did, in new frames; all else is as it was. */
  ghost predicate Copied(
    tabs: Tables, pages: map<nat, Page>, tabs': Tables, pages': map<nat, Page>, pd: nat, d: nat, k: nat, data: nat)
    requires KERNLINK < data < KERNPAGE + PHYSTOP
  {
    && UserOk(tabs, pages, pd) && AllThere(tabs, pd, k) && k <= KERNPAGE
    && d !in tabs && UserOk(tabs', pages', d) && Exactly(tabs', d, k)
    && Leaves(tabs', pages', d, k) == Leaves(tabs, pages, pd, k)
    && (forall n :: KERNPAGE <= n < NPAGES ==> Entry(tabs', d, n) == KernelEntry(data, n, |Kmap(data)|))
    && tabs'.Keys == tabs.Keys + OwnTabs(tabs', d) && OwnTabs(tabs', d) !! tabs.Keys
    && pages'.Keys == pages.Keys + UserFrames(tabs', d) && UserFrames(tabs', d) !! pages.Keys
    && Extends(tabs, tabs') && Extends(pages, pages')
  }

  lemma CopiedWhole(
    tabs: Tables, pages: map<nat, Page>, tabs0: Tables, tabs': Tables, pages': map<nat, Page>, pd: nat, d: nat, k: nat,
    data: nat)
    requires KERNLINK < data < KERNPAGE + PHYSTOP && KernelOnly(tabs0, d, data, |Kmap(data)|)
    requires UserOk(tabs, pages, pd) && AllThere(tabs, pd, k) && k <= KERNPAGE && d !in tabs
    requires UserOk(tabs0, pages, pd) && AllThere(tabs0, pd, k) && UserOk(tabs', pages', d) && Exactly(tabs', d, k)
    requires forall n :: 0 <= n < NPAGES ==> Entry(tabs0, pd, n) == Entry(tabs, pd, n)
    requires d in tabs0 && tabs0.Keys == tabs.Keys + OwnTabs(tabs0, d) && OwnTabs(tabs0, d) !! tabs.Keys
    requires Extends(tabs, tabs0)
    requires Filled(tabs0, pages, tabs', pages', d, 0, Leaves(tabs0, pages, pd, k))
    ensures Copied(tabs, pages, tabs', pages', pd, d, k, data)
  {
    assert UserFrames(tabs', d) == FramesBetween(tabs', d, 0, k);
    forall n | 0 <= n < k ensures Leaves(tabs', pages', d, k)[n] == Leaves(tabs, pages, pd, k)[n] {
      assert Leaves(tabs0, pages, pd, k)[n] == LeafAt(tabs0, pages, pd, n);
    }
  }

  lemma Freed(tabs: Tables, pages: map<nat, Page>, tabs1: Tables, pages1: map<nat, Page>, pd: nat)
    requires SameTabs(tabs, tabs1, pd) && Cleared(tabs, pages, tabs1, pages1, pd, 0, KERNPAGE)
    ensures tabs1 - OwnTabs(tabs1, pd) + map[pd := tabs1[pd]] - {pd} == tabs - OwnTabs(tabs, pd)
    ensures pages1 == pages - UserFrames(tabs, pd)
  {
    assert FramesBetween(tabs, pd, 0, KERNPAGE) == UserFrames(tabs, pd);
  }

  ghost function TablesBelow(t: Table, i: nat): (s: set<nat>) {
    set j | 0 <= j < NPT && j < i && t[j].Present? :: t[j].frame
  }

  /** A page and how it is mapped. */
  datatype Leaf = Leaf(page: Page, flags: nat)

  function Zeros(n: nat): (ls: seq<Leaf>)
    ensures |ls| == n && forall i :: 0 <= i < n ==> ls[i] == Leaf(ZeroPage(), 6)
  {
    seq<Leaf>(n, _ => Leaf(ZeroPage(), 6))
  }

  /** Frame f is a page of 4096 zeros. */
  ghost predicate ZerosAt(pages: map<nat, Page>, f: nat) {
    f in pages && forall k :: 0 <= k < 4096 ==> pages[f][k] == 0
  }

  /** User pages from lo on hold want, in new frames; the other pages and frames are as before. */
  ghost predicate Filled(
    tabs: Tables, pages: map<nat, Page>, tabs': Tables, pages': map<nat, Page>, pd: nat, lo: nat, want: seq<Leaf>)
  {
    && Space(tabs, pd) && Grown(tabs, tabs', pd)
    && (forall m :: 0 <= m < NPAGES && !(m < KERNPAGE && lo <= m < |want|) ==>
         Entry(tabs', pd, m) == Entry(tabs, pd, m))
    && (forall m :: 0 <= m < KERNPAGE && lo <= m < |want| ==>
         && Entry(tabs', pd, m).Present? && Entry(tabs', pd, m).flags == want[m].flags
         && Entry(tabs', pd, m).frame in pages' && Entry(tabs', pd, m).frame !in pages
         && pages'[Entry(tabs', pd, m).frame] == want[m].page)
    && pages'.Keys == pages.Keys + FramesBetween(tabs', pd, lo, |want|)
    && (forall f :: f in pages ==> pages'[f] == pages[f])
  }

  lemma FilledNone(tabs: Tables, pages: map<nat, Page>, pd: nat, lo: nat, want: seq<Leaf>)
    requires Space(tabs, pd) && |want| == lo
    ensures Filled(tabs, pages, tabs, pages, pd, lo, want)
  {
    assert FramesBetween(tabs, pd, lo, lo) == {};
    assert OwnTabs(tabs, pd) <= tabs.Keys;
  }

  lemma FilledExactly(
    tabs: Tables, pages: map<nat, Page>, tabs': Tables, pages': map<nat, Page>, pd: nat, lo: nat, want: seq<Leaf>)
    requires Filled(tabs, pages, tabs', pages', pd, lo, want) && Exactly(tabs, pd, lo) && lo <= |want|
    ensures Exactly(tabs', pd, |want|)
  {
  }

  lemma FilledTabled(
    tabs: Tables, pages: map<nat, Page>, tabs': Tables, pages': map<nat, Page>, pd: nat, lo: nat, want: seq<Leaf>)
    requires Filled(tabs, pages, tabs', pages', pd, lo, want) && Tabled(tabs, pd, lo) && lo <= |want|
    ensures Tabled(tabs', pd, |want|)
    ensures Exactly(tabs, pd, lo) ==> Exactly(tabs', pd, |want|)
  {
    forall n | 0 <= n < KERNPAGE && n < |want| ensures tabs'[pd][n / NPT].Present? {
      if n < lo {
        assert tabs[pd][n / NPT].Present?;
      } else {
        assert Entry(tabs', pd, n).Present?;
      }
    }
  }

  lemma FilledNext(
    tabs: Tables, pages: map<nat, Page>, tabs1: Tables, pages1: map<nat, Page>, tabs2: Tables, pages2: map<nat, Page>,
    pd: nat, lo: nat, want: seq<Leaf>, leaf: Leaf)
    requires Filled(tabs, pages, tabs1, pages1, pd, lo, want) && lo <= |want| < KERNPAGE && Grown(tabs1, tabs2, pd)
    requires forall m :: 0 <= m < NPAGES && m != |want| ==> Entry(tabs2, pd, m) == Entry(tabs1, pd, m)
    requires Entry(tabs2, pd, |want|).Present? && Entry(tabs2, pd, |want|).flags == leaf.flags
    requires Entry(tabs2, pd, |want|).frame !in pages1 && pages2 == pages1[Entry(tabs2, pd, |want|).frame := leaf.page]
    ensures Filled(tabs, pages, tabs2, pages2, pd, lo, want + [leaf])
  {
    GrownTrans(tabs, tabs1, tabs2, pd);
    FramesNext(tabs1, tabs2, pd, lo, |want|);
    var all := want + [leaf];
    forall m | 0 <= m < KERNPAGE && lo <= m < |all|
      ensures Entry(tabs2, pd, m).Present? && Entry(tabs2, pd, m).flags == all[m].flags
      ensures Entry(tabs2, pd, m).frame in pages2 && Entry(tabs2, pd, m).frame !in pages
      ensures pages2[Entry(tabs2, pd, m).frame] == all[m].page
    {
      if m < |want| {
        assert all[m] == want[m] && Entry(tabs2, pd, m) == Entry(tabs1, pd, m);
      }
    }
  }

  lemma FramesNext(tabs1: Tables, tabs2: Tables, pd: nat, lo: nat, a: nat)
    requires Space(tabs1, pd) && Space(tabs2, pd) && lo <= a < KERNPAGE && Entry(tabs2, pd, a).Present?
    requires forall m :: 0 <= m < KERNPAGE && m != a ==> Entry(tabs2, pd, m) == Entry(tabs1, pd, m)
    ensures FramesBetween(tabs2, pd, lo, a + 1) == FramesBetween(tabs1, pd, lo, a) + {Entry(tabs2, pd, a).frame}
  {
    forall x ensures x in FramesBetween(tabs2, pd, lo, a + 1) <==>
        x in FramesBetween(tabs1, pd, lo, a) + {Entry(tabs2, pd, a).frame} {
      if m :| 0 <= m < KERNPAGE && lo <= m < a && Entry(tabs1, pd, m).Present? && Entry(tabs1, pd, m).frame == x {
        assert Entry(tabs2, pd, m) == Entry(tabs1, pd, m);
      }
    }
  }

  /** The same tables with, perhaps, other entries for pd; nothing else changes. */
  ghost predicate SameTabs(tabs: Tables, tabs': Tables, pd: nat) {
    && pd in tabs && pd in tabs' && tabs'.Keys == tabs.Keys && tabs'[pd] == tabs[pd] &&
         OwnTabs(tabs', pd) == OwnTabs(tabs, pd)
    && (forall f :: f in tabs && f !in OwnTabs(tabs, pd) ==> tabs'[f] == tabs[f])
  }

  /** User pages lo up to hi are gone and their frames are given back. */
  ghost predicate Cleared(
    tabs: Tables, pages: map<nat, Page>, tabs': Tables, pages': map<nat, Page>, pd: nat, lo: nat, hi: nat)
  {
    && Space(tabs, pd) && Space(tabs', pd)
    && (forall m :: 0 <= m < NPAGES ==>
         Entry(tabs', pd, m) == if m < KERNPAGE && lo <= m < hi then Absent else Entry(tabs, pd, m))
    && pages' == pages - FramesBetween(tabs, pd, lo, hi)
  }

  lemma ClearedNext(
    tabs: Tables, pages: map<nat, Page>, tabs1: Tables, pages1: map<nat, Page>, tabs2: Tables, pages2: map<nat, Page>,
    pd: nat, lo: nat, a: nat)
    requires Cleared(tabs, pages, tabs1, pages1, pd, lo, a) && lo <= a < KERNPAGE && Space(tabs2, pd)
    requires forall m :: 0 <= m < NPAGES ==> Entry(tabs2, pd, m) == if m == a then Absent else Entry(tabs1, pd, m)
    requires pages2 == if Entry(tabs1, pd, a).Present? then pages1 - {Entry(tabs1, pd, a).frame} else pages1
    ensures Cleared(tabs, pages, tabs2, pages2, pd, lo, a + 1)
  {
    var e := Entry(tabs, pd, a);
    assert Entry(tabs1, pd, a) == e;
    assert FramesBetween(tabs, pd, lo, a + 1) == FramesBetween(tabs, pd, lo, a) + (if e.Present? then {e.frame}
        else {});
  }

  /** The table for page a is missing, and a is its first page. */
  lemma ClearedFurther(
    tabs: Tables, pages: map<nat, Page>, tabs': Tables, pages': map<nat, Page>, pd: nat, s: nat, a: nat, b: nat)
    requires Cleared(tabs, pages, tabs', pages', pd, s, a) && s <= a <= b <= a + NPT && a % NPT == 0
    requires a < KERNPAGE && tabs[pd][a / NPT].Absent?
    ensures Cleared(tabs, pages, tabs', pages', pd, s, b)
  {
    forall m | a <= m < b ensures m / NPT == a / NPT {
    }
    assert FramesBetween(tabs, pd, s, b) == FramesBetween(tabs, pd, s, a);
  }

  lemma ClearedNone(tabs: Tables, pages: map<nat, Page>, pd: nat, lo: nat, hi: nat)
    requires Space(tabs, pd) && hi <= lo
    ensures Cleared(tabs, pages, tabs, pages, pd, lo, hi)
  {
    assert FramesBetween(tabs, pd, lo, hi) == {};
  }

  /** The frames of user pages lo up to hi. */
  ghost function FramesBetween(tabs: Tables, pd: nat, lo: nat, hi: nat): (s: set<nat>)
    requires Space(tabs, pd)
  {
    set n | 0 <= n < KERNPAGE && lo <= n < hi && Entry(tabs, pd, n).Present? :: Entry(tabs, pd, n).frame
  }

  // ---- The kernel's pages ----

  const KERNLINK := 0x80100
  const PHYSTOP := 0xE000

  /** Pages virt and up, mapped to frames phys and up. */
  datatype Region = Region(virt: nat, count: nat, phys: nat, perm: nat)

  predicate Covers(r: Region, n: nat) {
    r.virt <= n < r.virt + r.count
  }

  /** kmap, where the kernel's data starts at page data. */
  function Kmap(data: nat): (ks: seq<Region>)
    requires KERNLINK < data < KERNPAGE + PHYSTOP
    ensures |ks| == 4 && forall i :: 0 <= i < |ks| ==> ks[i].virt >= KERNPAGE && ks[i].virt + ks[i].count <= NPAGES
  {
    [ Region(KERNPAGE, 0x100, 0, 2),
      Region(KERNLINK, data - KERNLINK, 0x100, 0),
      Region(data, KERNPAGE + PHYSTOP - data, data - KERNPAGE, 2),
      Region(0xFE000, 0x2000, 0xFE000, 2) ]
  }

  /** What the first k regions map page n to. */
  function KernelEntry(data: nat, n: nat, k: nat): (e: Pte)
    requires KERNLINK < data < KERNPAGE + PHYSTOP && k <= 4
  {
    if k == 0 then Absent
    else
      var r := Kmap(data)[k - 1];
      if Covers(r, n) then Present(r.phys + n - r.virt, r.perm) else KernelEntry(data, n, k - 1)
  }

  /** pd maps what the first k regions of kmap say, and nothing else. */
  ghost predicate KernelOnly(tabs: Tables, pd: nat, data: nat, k: nat)
    requires KERNLINK < data < KERNPAGE + PHYSTOP && k <= 4
  {
    Space(tabs, pd) && forall n :: 0 <= n < NPAGES ==> Entry(tabs, pd, n) == KernelEntry(data, n, k)
  }

  // ---- The kernel's tables ----

  const KERNTABS := 64
  const KERNFRAMES := KERNTABS + 1

  /** Directory entry i has pages among count pages from n on. */
  predicate Spans(n: nat, count: nat, i: int) {
    count > 0 && n / NPT <= i <= (n + count - 1) / NPT
  }

  /** The tables for count pages from n on have come to be there. */
  ghost predicate Opened(t: Table, t': Table, n: nat, count: nat) {
    forall i :: 0 <= i < NPT ==> (t'[i].Present? <==> t[i].Present? || Spans(n, count, i))
  }

  lemma OpenedNext(t: Table, t1: Table, t2: Table, n: nat, i: nat)
    requires n + i < NPAGES && Opened(t, t1, n, i) && t2[(n + i) / NPT].Present?
    requires forall j :: 0 <= j < NPT && j != (n + i) / NPT ==> t2[j] == t1[j]
    ensures Opened(t, t2, n, i + 1)
  {
    assert i > 0 ==> (n + i) / NPT == (n + i - 1) / NPT || (n + i) / NPT == (n + i - 1) / NPT + 1;
  }

  /** Directory entry i is used by the first k regions of kmap. */
  predicate InKmap(data: nat, k: nat, i: int)
    requires KERNLINK < data < KERNPAGE + PHYSTOP && k <= 4
  {
    k > 0 && (InKmap(data, k - 1, i) || Spans(Kmap(data)[k - 1].virt, Kmap(data)[k - 1].count, i))
  }

  ghost predicate KernelTabs(t: Table, data: nat, k: nat)
    requires KERNLINK < data < KERNPAGE + PHYSTOP && k <= 4
  {
    forall i :: 0 <= i < NPT ==> (t[i].Present? <==> InKmap(data, k, i))
  }

  /** The entries that kmap uses, whatever the place of the kernel's data. */
  predicate KernelEntryAt(i: int) {
    512 <= i < 568 || 1016 <= i < 1024
  }

  lemma InKmapIs(data: nat, i: int)
    requires KERNLINK < data < KERNPAGE + PHYSTOP
    ensures InKmap(data, 4, i) <==> KernelEntryAt(i)
  {
    assert InKmap(data, 1, i) <==> i == 512;
    assert InKmap(data, 2, i) <==> 512 <= i <= (data - 1) / NPT;
    assert InKmap(data, 3, i) <==> 512 <= i < 568;
  }

  lemma {:induction false} InKmapMore(data: nat, j: nat, k: nat, i: int)
    requires KERNLINK < data < KERNPAGE + PHYSTOP && j <= k <= 4 && InKmap(data, j, i)
    ensures InKmap(data, k, i)
  {
    if j < k {
      InKmapMore(data, j, k - 1, i);
    }
  }

  /** Some of the tables that the kernel needs are missing. */
  ghost predicate Partly(t: Table) {
    && (forall i :: 0 <= i < NPT && t[i].Present? ==> KernelEntryAt(i))
    && exists i :: 0 <= i < NPT && t[i].Absent? && KernelEntryAt(i)
  }

  /** After done pages of region k. */
  lemma RegionTabs(t: Table, t': Table, data: nat, k: nat, done: nat)
    requires KERNLINK < data < KERNPAGE + PHYSTOP && k < 4 && KernelTabs(t, data, k)
    requires done <= Kmap(data)[k].count && Opened(t, t', Kmap(data)[k].virt, done)
    ensures done == Kmap(data)[k].count ==> KernelTabs(t', data, k + 1)
    ensures done < Kmap(data)[k].count && t'[(Kmap(data)[k].virt + done) / NPT].Absent? ==> Partly(t')
  {
    var region := Kmap(data)[k];
    if done < region.count && t'[(region.virt + done) / NPT].Absent? {
      forall i | 0 <= i < NPT && (t'[i].Present? || i == (region.virt + done) / NPT) ensures KernelEntryAt(i) {
        assert InKmap(data, k, i) || Spans(region.virt, region.count, i);
        InKmapMore(data, k + 1, 4, i);
        InKmapIs(data, i);
      }
      var x := (region.virt + done) / NPT;
      assert t'[x].Absent? && KernelEntryAt(x);
    }
  }

  /** The entries that the kernel needs among the first n. */
  function KernelBelow(n: nat): (k: nat) {
    (if n <= 512 then 0 else if n <= 568 then n - 512 else 56)
    + (if n <= 1016 then 0 else if n <= 1024 then n - 1016 else 8)
  }

  lemma {:induction false} CountTabs(t: Table, n: nat)
    requires n <= NPT && forall i :: 0 <= i < n && t[i].Present? ==> KernelEntryAt(i)
    ensures Absents(t, n) >= n - KernelBelow(n)
    ensures (exists i :: 0 <= i < n && t[i].Absent? && KernelEntryAt(i)) <==> Absents(t, n) > n - KernelBelow(n)
  {
    if n > 0 {
      CountTabs(t, n - 1);
    }
  }

  lemma FewerTabs(t: Table)
    requires Partly(t)
    ensures Absents(t, NPT) > NPT - KERNTABS
  {
    CountTabs(t, NPT);
  }

  ghost predicate NoUserTabs(t: Table) {
    forall i :: 0 <= i < KERNPAGE / NPT ==> t[i].Absent?
  }

  lemma AllKernelTabs(t: Table, data: nat)
    requires KERNLINK < data < KERNPAGE + PHYSTOP && KernelTabs(t, data, 4)
    ensures Absents(t, NPT) == NPT - KERNTABS && NoUserTabs(t)
  {
    forall i | 0 <= i < NPT ensures t[i].Present? <==> KernelEntryAt(i) {
      InKmapIs(data, i);
    }
    CountTabs(t, NPT);
  }

  lemma NoKernel(tabs: Tables, pd: nat, data: nat)
    requires KERNLINK < data < KERNPAGE + PHYSTOP && pd in tabs && tabs[pd] == EmptyTable()
    ensures KernelOnly(tabs, pd, data, 0) && Grown(tabs, tabs, pd) && KernelTabs(tabs[pd], data, 0)
  {
    assert OwnTabs(tabs, pd) == {pd};
  }

  /** No two regions of kmap overlap. */
  lemma KmapDisjoint(data: nat, k: nat, n: nat)
    requires KERNLINK < data < KERNPAGE + PHYSTOP && k < 4 && Covers(Kmap(data)[k], n)
    ensures KernelEntry(data, n, k) == Absent
  {
    if k > 1 {
      assert KernelEntry(data, n, 1) == Absent;
      assert KernelEntry(data, n, 2) == Absent;
    }
  }

  lemma {:induction false} UserAbsent(data: nat, n: nat, k: nat)
    requires KERNLINK < data < KERNPAGE + PHYSTOP && k <= 4 && n < KERNPAGE
    ensures KernelEntry(data, n, k) == Absent
  {
    if k > 0 {
      UserAbsent(data, n, k - 1);
    }
  }

  /** The pages that pd maps, by number: 0x80000 up to the kernel, the kernel up to its data, these and the memory
      above, and the devices. */
  ghost predicate KernelMap(tabs: Tables, pd: nat, data: nat)
    requires KERNLINK < data
  {
    Space(tabs, pd) && forall n :: 0 <= n < 0x100000 ==>
      && (0x80000 <= n < 0x80100 ==> Entry(tabs, pd, n) == Present(n - 0x80000, 2))
      && (0x80100 <= n < data ==> Entry(tabs, pd, n) == Present(n - 0x80000, 0))
      && (data <= n < 0x8E000 ==> Entry(tabs, pd, n) == Present(n - 0x80000, 2))
      && (n < 0x80000 || 0x8E000 <= n < 0xFE000 ==> Entry(tabs, pd, n) == Absent)
      && (0xFE000 <= n ==> Entry(tabs, pd, n) == Present(n, 2))
  }

  lemma KernelMapped(tabs: Tables, pd: nat, data: nat)
    requires KERNLINK < data < KERNPAGE + PHYSTOP && KernelOnly(tabs, pd, data, 4)
    ensures KernelMap(tabs, pd, data)
  {
    forall n: nat | n < 0x100000
      ensures Entry(tabs, pd, n) == KernelEntry(data, n, 4)
      ensures KernelEntry(data, n, 3) == if Covers(Kmap(data)[2], n) then Present(n - 0x80000, 2)
        else KernelEntry(data, n, 2)
      ensures KernelEntry(data, n, 1) == if Covers(Kmap(data)[0], n) then Present(n - 0x80000, 2) else Absent {
    }
  }

  lemma NoUserPages(tabs: Tables, pd: nat, data: nat)
    requires KERNLINK < data < KERNPAGE + PHYSTOP && KernelOnly(tabs, pd, data, 4)
    ensures Exactly(tabs, pd, 0)
  {
    forall n | 0 <= n < KERNPAGE ensures Entry(tabs, pd, n).Absent? {
      UserAbsent(data, n, 4);
    }
  }

  // ---- What allocuvm gets wrong ----

  /** One free frame and no tables: two pages fail and lose the frame, and one page does not fail. */
  lemma OneFrame()
    ensures Loses(EmptyTable(), 1, 0, 2) && !Hole(EmptyTable(), 1, 0, 2) && !Enough(EmptyTable(), 1, 0, 2)
    ensures Hole(EmptyTable(), 1, 0, 1)
  {
    Loss(EmptyTable(), 1, 0, 0, 1);
    Loss(EmptyTable(), 1, 0, 0, 2);
  }

  /** A directory without tables, and one free frame. */
  method OneFrameLeft() returns (m: Memory, pd: nat)
    ensures fresh(m) && m.Valid() && UserOk(m.tabs, m.pages, pd) && Exactly(m.tabs, pd, 0)
    ensures m.tabs[pd] == EmptyTable() && m.pages == map[] && |m.free| == 1
  {
    m := new Memory([1, 2]);
    var r := m.Kalloc();
    pd := r.value;
    m.MakeTable(pd);
    assert m.pages == map[];
  }

  /** allocuvm fails, and its page is neither mapped nor free. */
  method LostFrame() returns (m: Memory, pd: nat, r: nat)
    ensures fresh(m) && m.Valid() && r == 0 && Exactly(m.tabs, pd, 0) && |m.pages| == 1
  {
    m, pd := OneFrameLeft();
    OneFrame();
    assert PagesOf(0) == 0 && PagesOf(2 * PGSIZE) == 2;
    ghost var lost;
    r, lost := m.AllocUvm(pd, 0, 2 * PGSIZE);
    assert m.pages.Keys == {lost.value};
  }

  /** allocuvm returns the new size, and the page below it is not mapped. */
  method HoleBelowSize() returns (m: Memory, pd: nat, r: nat)
    ensures fresh(m) && m.Valid() && r == PGSIZE && Exactly(m.tabs, pd, 0) && |m.pages| == 1
  {
    m, pd := OneFrameLeft();
    OneFrame();
    assert PagesOf(0) == 0 && PagesOf(PGSIZE) == 1;
    ghost var t0, p0 := m.tabs, m.pages;
    ghost var lost;
    r, lost := m.AllocUvm(pd, 0, PGSIZE);
    FilledExactly(t0, p0, m.tabs, Without(m.pages, lost), pd, 0, Zeros(0));
    assert FramesBetween(m.tabs, pd, 0, 0) == {};
    assert m.pages.Keys == {lost.value};
  }
}
