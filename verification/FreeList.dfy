/** The free list of the K&R allocator (umalloc.c) as a value: blocks in address
    order, with a gap behind each, starting at the empty block `base`.
    Addresses count Header-sized units. */
module FreeList {

  datatype Blk = Blk(addr: nat, len: nat) {
    function End(): (e: nat) { addr + len }

    predicate Has(x: nat) { addr <= x < addr + len }
  }

  /** Blocks without a common unit. */
  predicate Apart(a: Blk, b: Blk) {
    a.End() <= b.addr || b.End() <= a.addr
  }

  /** Block i ends before block j starts, with a gap. */
  ghost predicate Before(free: seq<Blk>, i: int, j: int)
    requires 0 <= i < j < |free|
  {
    free[i].End() < free[j].addr
  }

  /** Address order with a gap between neighbours: no two blocks touch. */
  ghost predicate Sorted(free: seq<Blk>, base: nat, brk: nat) {
    && |free| > 0 && free[0] == Blk(base, 0)
    && (forall i :: 0 < i < |free| ==> free[i].len > 0)
    && (forall i, j :: 0 <= i < j < |free| ==> Before(free, i, j))
    && (forall i :: 0 <= i < |free| ==> free[i].End() <= brk)
  }

  /** Addresses tell the blocks apart, and none lies below base. */
  lemma Addresses(free: seq<Blk>, base: nat, brk: nat, i: nat, j: nat)
    requires Sorted(free, base, brk) && i < |free| && j < |free|
    ensures free[i].addr == free[j].addr <==> i == j
    ensures i < j ==> free[i].End() < free[j].addr
    ensures base <= free[i].addr
  {
    assert i < j ==> Before(free, i, j);
    assert j < i ==> Before(free, j, i);
    assert 0 < i ==> Before(free, 0, i);
  }

  ghost predicate InList(free: seq<Blk>, x: nat) {
    exists i :: 0 <= i < |free| && free[i].Has(x)
  }

  /** Block b lies behind free[t] and before the block after it. */
  ghost predicate Between(free: seq<Blk>, t: nat, b: Blk) {
    && t < |free| && free[t].addr < b.addr
    && (t + 1 < |free| ==> b.addr < free[t + 1].addr)
  }

  predicate MergesDown(free: seq<Blk>, t: nat, b: Blk)
    requires t < |free|
  {
    free[t].End() == b.addr
  }

  predicate MergesUp(free: seq<Blk>, t: nat, b: Blk)
    requires t < |free|
  {
    t + 1 < |free| && b.End() == free[t + 1].addr
  }

  /** free with the blocks from d up to u replaced by m. */
  function Splice(free: seq<Blk>, d: nat, m: Blk, u: nat): (r: seq<Blk>)
    requires d <= u <= |free|
  {
    free[..d] + [m] + free[u..]
  }

  lemma SpliceSorted(free: seq<Blk>, base: nat, brk: nat, d: nat, m: Blk, u: nat)
    requires Sorted(free, base, brk) && 0 < d <= u <= |free|
    requires m.len > 0 && m.End() <= brk
    requires free[d - 1].End() < m.addr
    requires u < |free| ==> m.End() < free[u].addr
    ensures Sorted(Splice(free, d, m, u), base, brk)
  {
    var r := Splice(free, d, m, u);
    forall i, j | 0 <= i < j < |r| ensures Before(r, i, j) {
      var i' := if i < d then i else u + (i - d - 1);
      var j' := if j < d then j else u + (j - d - 1);
      if i == d {
        assert u < j' ==> Before(free, u, j');
      } else if j == d {
        assert i < d - 1 ==> Before(free, i, d - 1);
      } else {
        assert Before(free, i', j');
      }
    }
  }

  lemma SpliceUnits(free: seq<Blk>, d: nat, m: Blk, u: nat, x: nat)
    requires d <= u <= |free|
    ensures InList(Splice(free, d, m, u), x) <==>
            m.Has(x) || exists i :: 0 <= i < |free| && !(d <= i < u) && free[i].Has(x)
  {
    var r := Splice(free, d, m, u);
    assert r[d] == m;
    if i :| 0 <= i < |free| && !(d <= i < u) && free[i].Has(x) {
      assert r[if i < d then i else i - u + d + 1].Has(x);
    }
    if i :| 0 <= i < |r| && r[i].Has(x) {
      if i != d {
        var k := if i < d then i else i - d - 1 + u;
        assert free[k].Has(x) && !(d <= k < u);
      }
    }
  }

  /** The first place that putting back b behind free[t] replaces, and the one behind the last. */
  function From(free: seq<Blk>, t: nat, b: Blk): (d: nat)
    requires t < |free|
  {
    if MergesDown(free, t, b) then t else t + 1
  }

  function To(free: seq<Blk>, t: nat, b: Blk): (u: nat)
    requires t < |free|
    ensures From(free, t, b) <= u <= |free|
  {
    if MergesUp(free, t, b) then t + 2 else t + 1
  }

  /** Block b joined with the neighbours that it touches. */
  function Joined(free: seq<Blk>, t: nat, b: Blk): (m: Blk)
    requires t < |free|
  {
    var up := if MergesUp(free, t, b) then free[t + 1].len else 0;
    if MergesDown(free, t, b) then Blk(free[t].addr, free[t].len + b.len + up)
    else Blk(b.addr, b.len + up)
  }

  /** The list after block b was put back behind free[t]. */
  function PutBack(free: seq<Blk>, t: nat, b: Blk): (r: seq<Blk>)
    requires t < |free|
  {
    Splice(free, From(free, t, b), Joined(free, t, b), To(free, t, b))
  }

  /** Putting back a block that no free block overlaps keeps order and gaps. */
  lemma PutBackSorted(free: seq<Blk>, base: nat, brk: nat, t: nat, b: Blk)
    requires Sorted(free, base, brk) && Between(free, t, b)
    requires b.len > 0 && b.End() <= brk
    requires forall i :: 0 <= i < |free| ==> Apart(free[i], b)
    ensures Sorted(PutBack(free, t, b), base, brk)
  {
    assert Apart(free[t], b);
    if t + 1 < |free| {
      assert Apart(free[t + 1], b) && Before(free, t, t + 1);
    }
    if t > 0 {
      assert Before(free, t - 1, t);
    }
    if t + 2 < |free| {
      assert Before(free, t + 1, t + 2);
    }
    SpliceSorted(free, base, brk, From(free, t, b), Joined(free, t, b), To(free, t, b));
  }

  /** The free units afterwards are those before and those of b. */
  lemma PutBackUnits(free: seq<Blk>, t: nat, b: Blk, x: nat)
    requires t < |free|
    ensures InList(PutBack(free, t, b), x) <==> InList(free, x) || b.Has(x)
  {
    var d, m, u := From(free, t, b), Joined(free, t, b), To(free, t, b);
    SpliceUnits(free, d, m, u, x);
    assert m.Has(x) <==> b.Has(x) || (d == t && free[t].Has(x)) || (u == t + 2 && free[t + 1].Has(x));
  }

  /** The list after n units were cut from the upper end of free[i]. */
  function TakeFrom(free: seq<Blk>, i: nat, n: nat): (r: seq<Blk>)
    requires i < |free| && n <= free[i].len
  {
    if free[i].len == n then free[..i] + free[i + 1..]
    else free[i := Blk(free[i].addr, free[i].len - n)]
  }

  /** The units that were cut off. */
  function Taken(free: seq<Blk>, i: nat, n: nat): (b: Blk)
    requires i < |free| && n <= free[i].len
  {
    Blk(free[i].addr + free[i].len - n, n)
  }

  lemma TakeFromSorted(free: seq<Blk>, base: nat, brk: nat, i: nat, n: nat)
    requires Sorted(free, base, brk) && 0 < i < |free| && 0 < n <= free[i].len
    ensures Sorted(TakeFrom(free, i, n), base, brk)
    ensures forall j :: 0 <= j < |TakeFrom(free, i, n)| ==> Apart(TakeFrom(free, i, n)[j], Taken(free, i, n))
  {
    var r := TakeFrom(free, i, n);
    var cut := if free[i].len == n then 1 else 0;
    forall j, k | 0 <= j < k < |r| ensures Before(r, j, k) {
      assert Before(free, if j < i then j else j + cut, if k < i then k else k + cut);
    }
    forall j | 0 <= j < |r| ensures Apart(r[j], Taken(free, i, n)) {
      var j' := if j < i then j else j + cut;
      assert j' < i ==> Before(free, j', i);
      assert j' > i ==> Before(free, i, j');
    }
  }

  lemma TakeFromUnits(free: seq<Blk>, base: nat, brk: nat, i: nat, n: nat, x: nat)
    requires Sorted(free, base, brk) && 0 < i < |free| && 0 < n <= free[i].len
    ensures InList(free, x) <==> InList(TakeFrom(free, i, n), x) || Taken(free, i, n).Has(x)
  {
    var r := TakeFrom(free, i, n);
    var b := Taken(free, i, n);
    var rest := Blk(free[i].addr, free[i].len - n);
    assert free[i].Has(x) <==> b.Has(x) || rest.Has(x);
    if free[i].len == n {
      if j :| 0 <= j < |free| && free[j].Has(x) && j != i {
        assert r[if j < i then j else j - 1].Has(x);
      }
      if j :| 0 <= j < |r| && r[j].Has(x) {
        assert free[if j < i then j else j + 1].Has(x);
      }
    } else {
      if j :| 0 <= j < |free| && free[j].Has(x) {
        assert b.Has(x) || r[j].Has(x);
      }
      if j :| 0 <= j < |r| && r[j].Has(x) {
        assert free[j].Has(x);
      }
    }
  }

  // ---- One list per set of free units ----

  /** A free unit of f at or above block k of g lies at or above block k of f. */
  lemma FirstOfRest(f: seq<Blk>, g: seq<Blk>, base: nat, bf: nat, bg: nat, k: nat)
    requires Sorted(f, base, bf) && Sorted(g, base, bg)
    requires 0 < k < |f| && k <= |g| && f[..k] == g[..k]
    requires forall x: nat :: InList(f, x) ==> InList(g, x)
    ensures k < |g| && g[k].addr <= f[k].addr
  {
    var x := f[k].addr;
    assert f[k].Has(x);
    assert InList(f, x) && InList(g, x);
    var j :| 0 <= j < |g| && g[j].Has(x);
    if j < k {
      assert g[j] == g[..k][j] == f[..k][j] == f[j];
      Addresses(f, base, bf, j, k);
    } else {
      Addresses(g, base, bg, k, j);
      assert k < j ==> g[k].addr <= g[k].End() < g[j].addr;
    }
  }

  lemma NoLonger(f: seq<Blk>, g: seq<Blk>, base: nat, bf: nat, bg: nat, k: nat)
    requires Sorted(f, base, bf) && Sorted(g, base, bg)
    requires 0 < k < |f| && k < |g| && f[..k] == g[..k] && f[k].addr == g[k].addr
    requires forall x: nat :: InList(g, x) ==> InList(f, x)
    ensures g[k].len <= f[k].len
  {
    var e := f[k].End();
    if g[k].Has(e) {
      assert InList(g, e) && InList(f, e);
      var j :| 0 <= j < |f| && f[j].Has(e);
      Addresses(f, base, bf, j, k);
      Addresses(f, base, bf, k, j);
    }
  }

  /** Two lists with the same units are the same list. */
  lemma {:induction false} Canonical(f: seq<Blk>, g: seq<Blk>, base: nat, bf: nat, bg: nat, k: nat)
    requires Sorted(f, base, bf) && Sorted(g, base, bg)
    requires forall x: nat :: InList(f, x) <==> InList(g, x)
    requires 0 < k <= |f| && k <= |g| && f[..k] == g[..k]
    ensures f == g
    decreases |f| - k
  {
    if k < |f| {
      FirstOfRest(f, g, base, bf, bg, k);
      FirstOfRest(g, f, base, bg, bf, k);
      NoLonger(f, g, base, bf, bg, k);
      NoLonger(g, f, base, bg, bf, k);
      assert f[..k + 1] == f[..k] + [f[k]] && g[..k + 1] == g[..k] + [g[k]];
      Canonical(f, g, base, bf, bg, k + 1);
    } else if k < |g| {
      FirstOfRest(g, f, base, bg, bf, k);
    }
  }
}
