/** Two-level page tables of vm.c: what they map, and which frames they are made of. */
module PageTable {
  import opened Blocks

  const NPT := 1024            // entries of a table
  const NPAGES := 0x100000     // pages of an address space
  const KERNPAGE := 0x80000    // the first kernel page, KERNBASE / PGSIZE
  const PGSIZE := 4096

  /** A directory or table entry. */
  datatype Pte = Absent | Present(frame: nat, flags: nat)

  type Table = t: seq<Pte> | |t| == NPT witness seq(NPT, _ => Absent)

  type Page = p: seq<byte> | |p| == PGSIZE witness seq(PGSIZE, _ => 0)

  /** The contents of the frames that are used as directories and tables. */
  type Tables = map<nat, Table>

  function EmptyTable(): (t: Table) {
    seq<Pte>(NPT, _ => Absent)
  }

  function ZeroPage(): (p: Page) {
    seq<byte>(PGSIZE, _ => 0)
  }

  function Change(t: Table, i: nat, e: Pte): (r: Table)
    requires i < NPT
  {
    t[i := e]
  }

  /** pd is a directory whose tables are all there and different. */
  ghost predicate Space(tabs: Tables, pd: nat) {
    && pd in tabs
    && (forall i :: 0 <= i < NPT && tabs[pd][i].Present? ==> tabs[pd][i].frame in tabs && tabs[pd][i].frame != pd)
    && (forall i, j :: 0 <= i < NPT && 0 <= j < NPT && i != j && tabs[pd][i].Present? && tabs[pd][j].Present? ==>
         tabs[pd][i].frame != tabs[pd][j].frame)
  }

  /** The table entry for page n. */
  ghost function Entry(tabs: Tables, pd: nat, n: nat): (e: Pte)
    requires Space(tabs, pd) && n < NPAGES
  {
    var pde := tabs[pd][n / NPT];
    if pde.Absent? then Absent else tabs[pde.frame][n % NPT]
  }

  /** The frames of the directory and its tables. */
  ghost function OwnTabs(tabs: Tables, pd: nat): (s: set<nat>)
    requires pd in tabs
  {
    {pd} + set i | 0 <= i < NPT && tabs[pd][i].Present? :: tabs[pd][i].frame
  }

  /** The frames that user pages are mapped to. */
  ghost function UserFrames(tabs: Tables, pd: nat): (s: set<nat>)
    requires Space(tabs, pd)
  {
    set n | 0 <= n < KERNPAGE && Entry(tabs, pd, n).Present? :: Entry(tabs, pd, n).frame
  }

  // ---- Writing an entry ----

  ghost function SetEntry(tabs: Tables, pd: nat, n: nat, e: Pte): (r: Tables)
    requires Space(tabs, pd) && n < NPAGES && tabs[pd][n / NPT].Present?
  {
    var t := tabs[pd][n / NPT].frame;
    tabs[t := Change(tabs[t], n % NPT, e)]
  }

  lemma SetEntryMeans(tabs: Tables, pd: nat, n: nat, e: Pte)
    requires Space(tabs, pd) && n < NPAGES && tabs[pd][n / NPT].Present?
    ensures var r := SetEntry(tabs, pd, n, e);
      && Space(r, pd) && r.Keys == tabs.Keys && r[pd] == tabs[pd] && OwnTabs(r, pd) == OwnTabs(tabs, pd)
      && (forall m :: 0 <= m < NPAGES ==> Entry(r, pd, m) == if m == n then e else Entry(tabs, pd, m))
      && (forall f :: f in tabs && f !in OwnTabs(tabs, pd) ==> r[f] == tabs[f])
  {
    var r, t := SetEntry(tabs, pd, n, e), tabs[pd][n / NPT].frame;
    assert r[pd] == tabs[pd];
    assert t in OwnTabs(tabs, pd);
    forall m | 0 <= m < NPAGES ensures Entry(r, pd, m) == if m == n then e else Entry(tabs, pd, m) {
      if m / NPT == n / NPT {
        assert m == n <==> m % NPT == n % NPT;
      }
    }
  }

  // ---- Adding a table ----

  ghost function AddTable(tabs: Tables, pd: nat, i: nat, f: nat): (r: Tables)
    requires pd in tabs && i < NPT
  {
    tabs[f := EmptyTable()][pd := Change(tabs[pd], i, Present(f, 7))]
  }

  /** A new empty table maps nothing. */
  lemma AddTableMeans(tabs: Tables, pd: nat, i: nat, f: nat)
    requires Space(tabs, pd) && i < NPT && tabs[pd][i].Absent? && f !in tabs
    ensures var r := AddTable(tabs, pd, i, f);
      && Space(r, pd) && r.Keys == tabs.Keys + {f} && OwnTabs(r, pd) == OwnTabs(tabs, pd) + {f}
      && (forall m :: 0 <= m < NPAGES ==> Entry(r, pd, m) == Entry(tabs, pd, m))
      && (forall j :: 0 <= j < NPT && tabs[pd][j].Present? ==> r[pd][j] == tabs[pd][j])
      && (forall g :: g in tabs && g !in OwnTabs(tabs, pd) ==> r[g] == tabs[g])
  {
    var r := AddTable(tabs, pd, i, f);
    assert forall j :: 0 <= j < NPT && j != i ==> r[pd][j] == tabs[pd][j];
    assert r[pd][i] == Present(f, 7);
    forall m | 0 <= m < NPAGES ensures Entry(r, pd, m) == Entry(tabs, pd, m) {
      if m / NPT == i {
        assert r[f][m % NPT] == Absent;
      } else if tabs[pd][m / NPT].Present? {
        assert r[tabs[pd][m / NPT].frame] == tabs[tabs[pd][m / NPT].frame];
      }
    }
    assert OwnTabs(r, pd) == OwnTabs(tabs, pd) + {f} by {
      forall x ensures x in OwnTabs(r, pd) <==> x in OwnTabs(tabs, pd) + {f} {
        if j :| 0 <= j < NPT && tabs[pd][j].Present? && tabs[pd][j].frame == x {
          assert r[pd][j] == tabs[pd][j];
        }
      }
    }
  }

  // ---- Other address spaces ----

  /** As long as the frames of a directory and its tables stay, so does what they map. */
  lemma SpaceStays(tabs: Tables, tabs': Tables, pd: nat)
    requires Space(tabs, pd) && forall f :: f in OwnTabs(tabs, pd) ==> f in tabs' && tabs'[f] == tabs[f]
    ensures Space(tabs', pd) && OwnTabs(tabs', pd) == OwnTabs(tabs, pd)
    ensures forall n :: 0 <= n < NPAGES ==> Entry(tabs', pd, n) == Entry(tabs, pd, n)
  {
    assert pd in OwnTabs(tabs, pd);
    forall i | 0 <= i < NPT && tabs[pd][i].Present? ensures tabs[pd][i].frame in OwnTabs(tabs, pd) {
    }
  }
}
