/** umalloc.c in place: `ptr` and `size` are the header fields in memory, `freep`
    the roving pointer into the circular list. */
module Umalloc {
  import opened FreeList

  const HEADER_BYTES := 8
  const UINT_LIMIT := 0x1_0000_0000
  const CORE_UNITS := 4096

  // ---- The list in memory ----

  function NextAddr(free: seq<Blk>, i: nat): (a: nat)
    requires i < |free|
  {
    if i + 1 < |free| then free[i + 1].addr else free[0].addr
  }

  ghost predicate NodeAt(ptr: map<nat, nat>, size: map<nat, nat>, free: seq<Blk>, i: nat)
    requires i < |free|
  {
    var a := free[i].addr;
    a in ptr && a in size && size[a] == free[i].len && ptr[a] == NextAddr(free, i)
  }

  /** Following ptr goes once around `free`. */
  ghost predicate Stored(ptr: map<nat, nat>, size: map<nat, nat>, free: seq<Blk>) {
    forall i :: 0 <= i < |free| ==> NodeAt(ptr, size, free, i)
  }

  ghost predicate InLive(live: map<nat, nat>, x: nat) {
    exists a :: a in live && Blk(a, live[a]).Has(x)
  }

  /** Live blocks overlap neither free blocks nor each other. */
  ghost predicate LiveOk(free: seq<Blk>, live: map<nat, nat>, base: nat, brk: nat) {
    && (forall a :: a in live ==> base < a && 0 < live[a] && a + live[a] <= brk)
    && (forall a, i {:trigger Apart(free[i], Blk(a, live[a]))} :: a in live && 0 <= i < |free| ==>
         Apart(free[i], Blk(a, live[a])))
    && (forall a, b {:trigger Apart(Blk(a, live[a]), Blk(b, live[b]))} :: a in live && b in live && a != b ==>
         Apart(Blk(a, live[a]), Blk(b, live[b])))
  }

  /** Every unit obtained from sbrk is free or live, and no other unit is. */
  ghost predicate Conserved(free: seq<Blk>, live: map<nat, nat>, obtained: set<nat>) {
    forall x: nat :: x in obtained <==> InList(free, x) || InLive(live, x)
  }

  lemma SpliceStored(ptr: map<nat, nat>, size: map<nat, nat>, free: seq<Blk>, d: nat, m: Blk, u: nat,
                     ptr': map<nat, nat>, size': map<nat, nat>)
    requires Stored(ptr, size, free) && 0 < d <= u <= |free|
    requires ptr'.Keys >= ptr.Keys && size'.Keys >= size.Keys
    requires m.addr in ptr' && m.addr in size'
    requires size'[m.addr] == m.len && ptr'[m.addr] == if u < |free| then free[u].addr else free[0].addr
    requires free[d - 1].addr in ptr' && ptr'[free[d - 1].addr] == m.addr
    requires forall k :: 0 <= k < |free| && (k < d || u <= k) && free[k].addr in size ==>
        size'[free[k].addr] == size[free[k].addr]
    requires forall k :: 0 <= k < |free| && (k < d - 1 || u <= k) && free[k].addr in ptr ==>
        ptr'[free[k].addr] == ptr[free[k].addr]
    ensures Stored(ptr', size', Splice(free, d, m, u))
  {
    var r := Splice(free, d, m, u);
    forall i | 0 <= i < |r| ensures NodeAt(ptr', size', r, i) {
      if i < d {
        assert r[i] == free[i] && NodeAt(ptr, size, free, i);
      } else if i > d {
        assert r[i] == free[u + (i - d - 1)] && NodeAt(ptr, size, free, u + (i - d - 1));
      }
    }
  }

  lemma PutBackStored(ptr: map<nat, nat>, size: map<nat, nat>, free: seq<Blk>, base: nat, brk: nat, t: nat, b: Blk,
                      ptr': map<nat, nat>, size': map<nat, nat>)
    requires Sorted(free, base, brk) && Stored(ptr, size, free) && Between(free, t, b) && b.len > 0
    requires forall i :: 0 <= i < |free| ==> Apart(free[i], b)
    requires var p := free[t].addr;
             var up := MergesUp(free, t, b);
             var len := if up then b.len + free[t + 1].len else b.len;
             var next := if up then NextAddr(free, t + 1) else NextAddr(free, t);
             if MergesDown(free, t, b)
             then ptr' == ptr[b.addr := next][p := next] && size' == size[b.addr := len][p := free[t].len + len]
             else ptr' == ptr[b.addr := next][p := b.addr] && size' == size[b.addr := len]
    ensures Stored(ptr', size', PutBack(free, t, b))
  {
    var d, m, u := From(free, t, b), Joined(free, t, b), To(free, t, b);
    assert Apart(free[t], b);
    assert NodeAt(ptr, size, free, t);
    if MergesUp(free, t, b) {
      assert NodeAt(ptr, size, free, t + 1);
    }
    if MergesDown(free, t, b) {
      assert NodeAt(ptr, size, free, t - 1);
    }
    forall k | 0 <= k < |free| && (k < d || u <= k)
      ensures free[k].addr != b.addr && (k != t ==> free[k].addr != free[t].addr)
    {
      Addresses(free, base, brk, k, t);
      assert Apart(free[k], b);
    }
    SpliceStored(ptr, size, free, d, m, u, ptr', size');
  }

  lemma TakeFromStored(ptr: map<nat, nat>, size: map<nat, nat>, free: seq<Blk>, base: nat, brk: nat, i: nat, n: nat,
                       ptr': map<nat, nat>, size': map<nat, nat>)
    requires Sorted(free, base, brk) && Stored(ptr, size, free) && 0 < i < |free| && 0 < n <= free[i].len
    requires var p := free[i].addr;
             if free[i].len == n
             then ptr' == ptr[free[i - 1].addr := NextAddr(free, i)] && size' == size
             else ptr' == ptr && size' == size[p := free[i].len - n][p + free[i].len - n := n]
    ensures Stored(ptr', size', TakeFrom(free, i, n))
  {
    var r := TakeFrom(free, i, n);
    forall j | 0 <= j < |r| ensures NodeAt(ptr', size', r, j) {
      var k := if free[i].len == n && j >= i then j + 1 else j;
      assert NodeAt(ptr, size, free, k);
      if free[i].len == n {
        Addresses(free, base, brk, k, i - 1);
      } else {
        assert Apart(r[j], Taken(free, i, n)) by {
          TakeFromSorted(free, base, brk, i, n);
        }
        Addresses(free, base, brk, k, i);
      }
    }
  }

  // ---- Going around the list ----

  function Succ(n: nat, i: nat): (j: nat)
    requires i < n
    ensures j < n
  {
    if i + 1 < n then i + 1 else 0
  }

  /** Steps from i to t around a cycle of n nodes. */
  function Dist(n: nat, i: nat, t: nat): (d: nat)
    requires i < n && t < n
    ensures d < n
  {
    if i <= t then t - i else n - i + t
  }

  lemma {:induction false} PlaceExists(free: seq<Blk>, base: nat, brk: nat, b: Blk, n: nat) returns (t: nat)
    requires Sorted(free, base, brk) && base < b.addr && 0 < n <= |free|
    requires forall i :: 0 <= i < |free| ==> free[i].addr != b.addr
    requires n < |free| ==> b.addr < free[n].addr
    ensures Between(free, t, b)
  {
    t := n - 1;
    if free[t].addr > b.addr {
      t := PlaceExists(free, base, brk, b, n - 1);
    }
  }

  // ---- Live blocks ----

  lemma LivePutBack(free: seq<Blk>, live: map<nat, nat>, base: nat, brk: nat, t: nat, a: nat)
    requires LiveOk(free, live, base, brk) && Sorted(free, base, brk)
    requires a in live && Between(free, t, Blk(a, live[a]))
    ensures LiveOk(PutBack(free, t, Blk(a, live[a])), live - {a}, base, brk)
  {
    var b := Blk(a, live[a]);
    var r := PutBack(free, t, b);
    var d, m, u := From(free, t, b), Joined(free, t, b), To(free, t, b);
    var rest := live - {a};
    forall c, i | c in rest && 0 <= i < |r| ensures Apart(r[i], Blk(c, rest[c])) {
      var l := Blk(c, live[c]);
      if i == d {
        assert Apart(b, l) && Apart(free[t], l);
        assert u == t + 2 ==> Apart(free[t + 1], l);
      } else {
        assert r[i] == free[if i < d then i else u + (i - d - 1)];
      }
    }
  }

  lemma TakenApart(free: seq<Blk>, live: map<nat, nat>, base: nat, brk: nat, i: nat, n: nat, a: nat)
    requires LiveOk(free, live, base, brk) && Sorted(free, base, brk) && 0 < i < |free| && 0 < n <= free[i].len
    requires a in live
    ensures a != Taken(free, i, n).addr && Apart(Taken(free, i, n), Blk(a, live[a])) &&
        Apart(Blk(a, live[a]), Taken(free, i, n))
    ensures forall j :: 0 <= j < |TakeFrom(free, i, n)| ==> Apart(TakeFrom(free, i, n)[j], Blk(a, live[a]))
  {
    var r := TakeFrom(free, i, n);
    assert Apart(free[i], Blk(a, live[a]));
    forall j | 0 <= j < |r| ensures Apart(r[j], Blk(a, live[a])) {
      var k := if free[i].len == n && j >= i then j + 1 else j;
      assert Apart(free[k], Blk(a, live[a]));
      assert r[j].addr == free[k].addr && r[j].len <= free[k].len;
    }
  }

  lemma LiveTake(free: seq<Blk>, live: map<nat, nat>, base: nat, brk: nat, i: nat, n: nat)
    requires LiveOk(free, live, base, brk) && Sorted(free, base, brk) && 0 < i < |free| && 0 < n <= free[i].len
    ensures Taken(free, i, n).addr !in live
    ensures LiveOk(TakeFrom(free, i, n), live[Taken(free, i, n).addr := n], base, brk)
  {
    var b := Taken(free, i, n);
    var r := TakeFrom(free, i, n);
    var more := live[b.addr := n];
    TakeFromSorted(free, base, brk, i, n);
    Addresses(free, base, brk, 0, i);
    forall a | a in live ensures a != b.addr {
      TakenApart(free, live, base, brk, i, n, a);
    }
    forall a, j | a in more && 0 <= j < |r| ensures Apart(r[j], Blk(a, more[a])) {
      if a != b.addr {
        TakenApart(free, live, base, brk, i, n, a);
      }
    }
    forall a, c | a in more && c in more && a != c ensures Apart(Blk(a, more[a]), Blk(c, more[c])) {
      if a == b.addr {
        TakenApart(free, live, base, brk, i, n, c);
      } else if c == b.addr {
        TakenApart(free, live, base, brk, i, n, a);
      } else {
        assert Apart(Blk(a, live[a]), Blk(c, live[c]));
      }
    }
  }

  lemma ConservedPutBack(free: seq<Blk>, live: map<nat, nat>, obtained: set<nat>, t: nat, a: nat)
    requires Conserved(free, live, obtained) && t < |free| && a in live
    ensures Conserved(PutBack(free, t, Blk(a, live[a])), live - {a}, obtained)
  {
    var b := Blk(a, live[a]);
    var rest := live - {a};
    forall x: nat ensures x in obtained <==> InList(PutBack(free, t, b), x) || InLive(rest, x) {
      PutBackUnits(free, t, b, x);
      if InLive(live, x) {
        var c :| c in live && Blk(c, live[c]).Has(x);
        assert c != a ==> c in rest && Blk(c, rest[c]).Has(x);
      }
      if InLive(rest, x) {
        var c :| c in rest && Blk(c, rest[c]).Has(x);
        assert c in live && Blk(c, live[c]).Has(x);
      }
    }
  }

  lemma ConservedTake(free: seq<Blk>, live: map<nat, nat>, obtained: set<nat>, base: nat, brk: nat, i: nat, n: nat)
    requires Conserved(free, live, obtained) && Sorted(free, base, brk) && 0 < i < |free| && 0 < n <= free[i].len
    requires Taken(free, i, n).addr !in live
    ensures Conserved(TakeFrom(free, i, n), live[Taken(free, i, n).addr := n], obtained)
  {
    var b := Taken(free, i, n);
    var more := live[b.addr := n];
    forall x: nat ensures x in obtained <==> InList(TakeFrom(free, i, n), x) || InLive(more, x) {
      TakeFromUnits(free, base, brk, i, n, x);
      if InLive(live, x) {
        var c :| c in live && Blk(c, live[c]).Has(x);
        assert c in more && Blk(c, more[c]).Has(x);
      }
      if InLive(more, x) {
        var c :| c in more && Blk(c, more[c]).Has(x);
        assert c != b.addr ==> c in live && Blk(c, live[c]).Has(x);
      }
      if b.Has(x) {
        assert b.addr in more && Blk(b.addr, more[b.addr]).Has(x);
      }
    }
  }

  // ---- Requests ----

  /** malloc's nunits, in 32-bit arithmetic. */
  function NUnits(nbytes: nat): (n: nat)
    requires nbytes < UINT_LIMIT
    ensures n > 0
  {
    (nbytes + HEADER_BYTES - 1) % UINT_LIMIT / HEADER_BYTES + 1
  }

  /** The units that morecore asks for. */
  function CoreUnits(n: nat): (nu: nat)
    ensures nu >= n && nu > 0
  {
    if n < CORE_UNITS then CORE_UNITS else n
  }

  /** The argument that sbrk gets for nu units: bytes in 32 bits, taken for a signed number. */
  function Asked(nu: nat): (n: int)
    ensures n % HEADER_BYTES == 0
  {
    var bytes := nu * HEADER_BYTES % UINT_LIMIT;
    if bytes < UINT_LIMIT / 2 then bytes else bytes - UINT_LIMIT
  }

  /** Up to 0x7FFFFFF0 bytes sbrk is asked for the memory that is needed. Up to 0xFFFFFFF8 it is asked
      for nothing, or to take memory back. Above, the rounding has wrapped and one unit is looked for. */
  lemma AskedExactly(nbytes: nat)
    requires nbytes < UINT_LIMIT
    ensures var nu := CoreUnits(NUnits(nbytes)); if AsksForMemory(nbytes) then Asked(nu) == nu * HEADER_BYTES
        else Asked(nu) <= 0
    ensures (NUnits(nbytes) - 1) * HEADER_BYTES >= nbytes <==> nbytes <= 0xFFFF_FFF8
    ensures if nbytes > 0xFFFF_FFF8 then NUnits(nbytes) == 1 else (NUnits(nbytes) - 1) * 8 < nbytes + 8
    ensures !AsksForMemory(nbytes) ==> NUnits(nbytes) > CORE_UNITS
  {
    if nbytes > 0xFFFF_FFF8 {
      assert (nbytes + 7) % UINT_LIMIT == nbytes + 7 - UINT_LIMIT;
    } else {
      assert (nbytes + 7) % UINT_LIMIT == nbytes + 7;
    }
  }

  /** A header and the bytes, rounded up to units, unless the rounding has wrapped. */
  lemma RoomFor(nbytes: nat)
    requires nbytes < UINT_LIMIT
    ensures (NUnits(nbytes) - 1) * 8 >= nbytes <==> nbytes <= 0xFFFF_FFF8
    ensures if nbytes > 0xFFFF_FFF8 then NUnits(nbytes) == 1 else (NUnits(nbytes) - 1) * 8 < nbytes + 8
  {
    AskedExactly(nbytes);
  }

  predicate AsksForMemory(nbytes: nat) {
    nbytes <= 0x7FFF_FFF0 || nbytes > 0xFFFF_FFF8
  }

  /** The kernel's side of sbrk: memory may be short, and the break may have been moved up by others. */
  datatype Sbrk = Sbrk(short: bool, gap: nat)

  /** sbrk(n) fails where the break is at unit top. growproc needs memory only to grow; to shrink, it says that
      it failed where nothing is left, and where that would be less than nothing it does nothing and succeeds. */
  predicate Refused(n: int, top: nat, short: bool) {
    if n > 0 then short else n < 0 && -n == top * HEADER_BYTES
  }

  /** The units that the process has after sbrk(n). */
  ghost function Granted(granted: set<nat>, top: nat, n: int, short: bool): (r: set<nat>) {
    if n > 0 then if short then granted else granted + Units(Blk(top, n / HEADER_BYTES))
    else if -n <= top * HEADER_BYTES then set x | x in granted && x * HEADER_BYTES < top * HEADER_BYTES + n
    else granted
  }

  // ---- The arena: what the heap is, apart from the pointers ----

  datatype Blocks = Blocks(base: nat, brk: nat, free: seq<Blk>, live: map<nat, nat>, obtained: set<nat>)

  /** Free blocks in address order with gaps, live blocks apart from them and from
      each other, and together exactly the units obtained from sbrk. */
  ghost predicate Sound(a: Blocks) {
    && 0 < a.base < a.brk
    && Sorted(a.free, a.base, a.brk)
    && LiveOk(a.free, a.live, a.base, a.brk)
    && Conserved(a.free, a.live, a.obtained)
  }

  type Arena = a: Blocks | Sound(a) ghost witness Blocks(1, 2, [Blk(1, 0)], map[], {})

  /** The arena after the live block at bp was put back behind free[t]. */
  ghost function AfterFree(a: Arena, t: nat, bp: nat): (r: Arena)
    requires bp in a.live && Between(a.free, t, Blk(bp, a.live[bp]))
    ensures r.base == a.base && r.brk == a.brk && r.obtained == a.obtained && r.live == a.live - {bp}
    ensures forall x: nat :: InList(r.free, x) <==> InList(a.free, x) || Blk(bp, a.live[bp]).Has(x)
    ensures t < |r.free| && r.free[t].addr == a.free[t].addr
    ensures exists i :: 0 < i < |r.free| && r.free[i].len >= a.live[bp]
  {
    var b := Blk(bp, a.live[bp]);
    assert Apart(a.free[t], b);
    PutBackSorted(a.free, a.base, a.brk, t, b);
    LivePutBack(a.free, a.live, a.base, a.brk, t, bp);
    ConservedPutBack(a.free, a.live, a.obtained, t, bp);
    assert forall x: nat :: InList(PutBack(a.free, t, b), x) <==> InList(a.free, x) || b.Has(x) by {
      forall x: nat ensures InList(PutBack(a.free, t, b), x) <==> InList(a.free, x) || b.Has(x) {
        PutBackUnits(a.free, t, b, x);
      }
    }
    assert PutBack(a.free, t, b)[From(a.free, t, b)] == Joined(a.free, t, b);
    Blocks(a.base, a.brk, PutBack(a.free, t, b), a.live - {bp}, a.obtained)
  }

  /** The arena after n units were cut from free[i]. */
  ghost function AfterTake(a: Arena, i: nat, n: nat): (r: Arena)
    requires 0 < i < |a.free| && 0 < n <= a.free[i].len
    ensures Taken(a.free, i, n).addr !in a.live
    ensures r.base == a.base && r.brk == a.brk && r.obtained == a.obtained
    ensures r.live == a.live[Taken(a.free, i, n).addr := n]
    ensures i - 1 < |r.free| && r.free[i - 1].addr == a.free[i - 1].addr
  {
    TakeFromSorted(a.free, a.base, a.brk, i, n);
    LiveTake(a.free, a.live, a.base, a.brk, i, n);
    ConservedTake(a.free, a.live, a.obtained, a.base, a.brk, i, n);
    Blocks(a.base, a.brk, TakeFrom(a.free, i, n), a.live[Taken(a.free, i, n).addr := n], a.obtained)
  }

  function Units(b: Blk): (s: set<nat>) {
    set x: nat | b.addr <= x < b.addr + b.len && b.Has(x)
  }

  lemma SbrkConserves(free: seq<Blk>, live: map<nat, nat>, obtained: set<nat>, hp: nat, nu: nat)
    requires Conserved(free, live, obtained) && hp !in live
    ensures Conserved(free, live[hp := nu], obtained + Units(Blk(hp, nu)))
  {
    var more := live[hp := nu];
    forall x: nat ensures InLive(more, x) <==> InLive(live, x) || Blk(hp, nu).Has(x) {
      if InLive(live, x) {
        var c :| c in live && Blk(c, live[c]).Has(x);
        assert c in more && Blk(c, more[c]).Has(x);
      }
      if Blk(hp, nu).Has(x) {
        assert hp in more && Blk(hp, more[hp]).Has(x);
      }
    }
  }

  /** The arena after sbrk gave nu units at hp, as one more live block. */
  ghost function AfterSbrk(a: Arena, hp: nat, nu: nat): (r: Arena)
    requires hp >= a.brk && nu > 0
    ensures hp !in a.live
    ensures r == Blocks(a.base, hp + nu, a.free, a.live[hp := nu], a.obtained + Units(Blk(hp, nu)))
  {
    SbrkConserves(a.free, a.live, a.obtained, hp, nu);
    Blocks(a.base, hp + nu, a.free, a.live[hp := nu], a.obtained + Units(Blk(hp, nu)))
  }

  /** A unit belongs to at most one block, free or live. */
  lemma OwnedOnce(a: Arena, x: nat)
    ensures !(InList(a.free, x) && InLive(a.live, x))
    ensures forall i, j :: 0 <= i < |a.free| && 0 <= j < |a.free| && a.free[i].Has(x) && a.free[j].Has(x) ==> i == j
    ensures forall b, c :: b in a.live && c in a.live && Blk(b, a.live[b]).Has(x) && Blk(c, a.live[c]).Has(x) ==> b == c
  {
    forall i, b | 0 <= i < |a.free| && b in a.live ensures !(a.free[i].Has(x) && Blk(b, a.live[b]).Has(x)) {
      assert Apart(a.free[i], Blk(b, a.live[b]));
    }
    forall i, j | 0 <= i < |a.free| && 0 <= j < |a.free| && a.free[i].Has(x) && a.free[j].Has(x) ensures i == j {
      Addresses(a.free, a.base, a.brk, i, j);
      Addresses(a.free, a.base, a.brk, j, i);
    }
    forall b, c | b in a.live && c in a.live && Blk(b, a.live[b]).Has(x) && Blk(c, a.live[c]).Has(x) ensures b == c {
      assert b != c ==> Apart(Blk(b, a.live[b]), Blk(c, a.live[c]));
    }
  }

  /** The free list does not remember the past: the live blocks and the units
      obtained from sbrk determine it. In particular a free undoes its malloc. */
  lemma HistoryIndependent(a: Arena, c: Arena)
    requires a.base == c.base && a.live == c.live && a.obtained == c.obtained
    ensures a.free == c.free
  {
    forall x: nat ensures InList(a.free, x) <==> InList(c.free, x) {
      OwnedOnce(a, x);
      OwnedOnce(c, x);
    }
    assert a.free[..1] == [Blk(a.base, 0)] == c.free[..1];
    Canonical(a.free, c.free, a.base, a.brk, c.brk, 1);
  }

  /** Every live block has its size in its header. */
  ghost predicate Headers(size: map<nat, nat>, live: map<nat, nat>) {
    forall a :: a in live ==> a in size && size[a] == live[a]
  }

  /** A node that the memory keeps apart from the blocks in use: headers survive
      the pointer surgery on free blocks. */
  lemma HeadersKeep(a: Arena, size: map<nat, nat>, size': map<nat, nat>, t: nat, bp: nat)
    requires Headers(size, a.live) && t < |a.free| && size'.Keys >= size.Keys
    requires forall x :: x in size && x != bp && x != a.free[t].addr ==> size'[x] == size[x]
    ensures Headers(size', a.live - {bp})
  {
    forall c | c in a.live && c != bp ensures c in size' && size'[c] == a.live[c] {
      assert Apart(a.free[t], Blk(c, a.live[c]));
    }
  }

  /** The header of a live block is no node of the list. */
  lemma StoredElsewhere(a: Arena, ptr: map<nat, nat>, size: map<nat, nat>, size': map<nat, nat>, hp: nat)
    requires Stored(ptr, size, a.free) && hp in a.live && size'.Keys >= size.Keys
    requires forall x :: x in size && x != hp ==> size'[x] == size[x]
    ensures Stored(ptr, size', a.free)
  {
    forall i | 0 <= i < |a.free| ensures NodeAt(ptr, size', a.free, i) {
      assert NodeAt(ptr, size, a.free, i) && Apart(a.free[i], Blk(hp, a.live[hp]));
    }
  }

  // ---- The search of malloc ----

  ghost predicate HasFit(free: seq<Blk>, n: nat) {
    exists i :: 0 <= i < |free| && free[i].len >= n
  }

  /** The blocks between f and i, going around, are too small. */
  ghost predicate Passed(free: seq<Blk>, n: nat, i: nat, f: nat)
    requires i < |free| && f < |free|
  {
    forall j :: 0 <= j < |free| && Dist(|free|, j, f) > Dist(|free|, i, f) ==> free[j].len < n
  }

  lemma PassedStep(free: seq<Blk>, n: nat, i: nat, f: nat)
    requires i < |free| && f < |free| && i != f && Passed(free, n, i, f) && free[i].len < n
    ensures Passed(free, n, Succ(|free|, i), f)
    ensures Dist(|free|, Succ(|free|, i), f) == Dist(|free|, i, f) - 1
  {
  }

  lemma NoneFits(free: seq<Blk>, n: nat, f: nat)
    requires f < |free| && Passed(free, n, f, f) && free[f].len < n
    ensures !HasFit(free, n)
  {
    forall j | 0 <= j < |free| ensures free[j].len < n {
      assert j != f ==> Dist(|free|, j, f) > 0;
    }
  }

  function Pred(n: nat, i: nat): (j: nat)
    requires i < n
    ensures j < n && Succ(n, j) == i
  {
    if i == 0 then n - 1 else i - 1
  }

  lemma HeadersTake(a: Arena, size: map<nat, nat>, size': map<nat, nat>, i: nat, n: nat)
    requires Headers(size, a.live) && 0 < i < |a.free| && 0 < n <= a.free[i].len && size'.Keys >= size.Keys
    requires forall x :: x in size && x != a.free[i].addr && x != Taken(a.free, i, n).addr ==> size'[x] == size[x]
    requires Taken(a.free, i, n).addr in size' && size'[Taken(a.free, i, n).addr] == n
    ensures Headers(size', a.live[Taken(a.free, i, n).addr := n])
  {
    forall c | c in a.live ensures c != a.free[i].addr && c != Taken(a.free, i, n).addr {
      assert Apart(a.free[i], Blk(c, a.live[c]));
    }
  }

  class Heap {
    var ptr: map<nat, nat>
    var size: map<nat, nat>
    var freep: nat
    var brk: nat
    const base: nat
    ghost var arena: Arena
    /** The units that the kernel has given, and not taken back. */
    ghost var granted: set<nat>
    /** Where freep is in the list. */
    ghost var rover: nat

    ghost predicate Valid()
      reads this
    {
      && arena.base == base && arena.brk == brk
      && Headers(size, arena.live)
      && if freep == 0 then arena.free == [Blk(base, 0)] && arena.live == map[] else Linked()
    }

    /** The list is in memory and freep points into it. */
    ghost predicate Linked()
      reads this
    {
      Stored(ptr, size, arena.free) && rover < |arena.free| && arena.free[rover].addr == freep
    }

    /** All units of the arena are memory that the process has. */
    ghost predicate Backed()
      reads this
    {
      arena.obtained <= granted && forall x :: x in granted ==> x < brk
    }

    constructor (base: nat, brk: nat)
      requires 0 < base < brk
      ensures Valid() && Backed() && arena.live == map[] && arena.obtained == {} && freep == 0 && this.base == base &&
          this.brk == brk
    {
      this.base := base;
      this.brk := brk;
      ptr, size := map[], map[];
      freep, rover := 0, 0;
      arena := Blocks(base, brk, [Blk(base, 0)], map[], {});
      granted := {};
    }

    /** The search loop of free: it always ends, at the free block behind which bp belongs. */
    method FindPlace(bp: nat) returns (p: nat, ghost t: nat)
      requires Valid() && freep != 0 && base < bp
      requires forall i :: 0 <= i < |arena.free| ==> arena.free[i].addr != bp
      ensures t < |arena.free| && arena.free[t].addr == p && Between(arena.free, t, Blk(bp, 0))
    {
      ghost var free := arena.free;
      ghost var goal := PlaceExists(free, base, brk, Blk(bp, 0), |free|);
      p, t := freep, rover;
      assert NodeAt(ptr, size, free, t);
      while !(bp > p && bp < ptr[p])
        invariant t < |free| && free[t].addr == p && NodeAt(ptr, size, free, t)
        decreases Dist(|free|, t, goal)
      {
        Addresses(free, base, brk, t, Succ(|free|, t));
        Addresses(free, base, brk, t, 0);
        if p >= ptr[p] && (bp > p || bp < ptr[p]) {
          break;
        }
        p := ptr[p];
        t := Succ(|free|, t);
        assert NodeAt(ptr, size, free, t);
      }
    }

    /** The first test of free: join with the block above, or point at it. */
    method JoinUpper(bp: nat, p: nat, ghost t: nat)
      requires Stored(ptr, size, arena.free) && Headers(size, arena.live)
      requires bp in arena.live && t < |arena.free| && arena.free[t].addr == p
      requires Between(arena.free, t, Blk(bp, arena.live[bp]))
      modifies this`ptr, this`size
      ensures var free, b := arena.free, Blk(bp, arena.live[bp]);
              if MergesUp(free, t, b)
              then ptr == old(ptr)[bp := NextAddr(free, t + 1)] && size == old(size)[bp := b.len + free[t + 1].len]
              else ptr == old(ptr)[bp := NextAddr(free, t)] && size == old(size)
    {
      assert NodeAt(ptr, size, arena.free, t);
      assert t + 1 < |arena.free| ==> NodeAt(ptr, size, arena.free, t + 1);
      if bp + size[bp] == ptr[p] {
        var q := ptr[p];
        size := size[bp := size[bp] + size[q]];
        ptr := ptr[bp := ptr[q]];
      } else {
        ptr := ptr[bp := ptr[p]];
      }
    }

    /** The pointer surgery of free, once the place is found. */
    method Relink(bp: nat, p: nat, ghost t: nat)
      requires Stored(ptr, size, arena.free) && Headers(size, arena.live)
      requires bp in arena.live && t < |arena.free| && arena.free[t].addr == p
      requires Between(arena.free, t, Blk(bp, arena.live[bp]))
      modifies this`ptr, this`size
      ensures Stored(ptr, size, PutBack(arena.free, t, Blk(bp, arena.live[bp])))
      ensures size.Keys >= old(size).Keys
      ensures forall x :: x in old(size) && x != bp && x != p ==> size[x] == old(size)[x]
    {
      ghost var free, b := arena.free, Blk(bp, arena.live[bp]);
      assert Apart(free[t], b);
      assert NodeAt(ptr, size, free, t);
      JoinUpper(bp, p, t);
      if p + size[p] == bp {
        size := size[p := size[p] + size[bp]];
        ptr := ptr[p := ptr[bp]];
      } else {
        ptr := ptr[p := bp];
      }
      assert size == if MergesDown(free, t, b) then old(size)[bp := size[bp]][p := size[p]]
          else old(size)[bp := size[bp]];
      PutBackStored(old(ptr), old(size), free, arena.base, arena.brk, t, b, ptr, size);
    }

    method FreeAt(bp: nat, p: nat, ghost t: nat)
      requires Valid() && freep != 0 && bp in arena.live && t < |arena.free| && arena.free[t].addr == p
      requires Between(arena.free, t, Blk(bp, arena.live[bp]))
      modifies this`ptr, this`size, this`freep, this`arena, this`rover
      ensures Valid() && freep != 0
      ensures arena == AfterFree(old(arena), t, bp)
    {
      ghost var next := AfterFree(arena, t, bp);
      Addresses(arena.free, base, brk, t, t);
      Relink(bp, p, t);
      HeadersKeep(arena, old(size), size, t, bp);
      freep, rover := p, t;
      arena := next;
    }

    /** free: the block goes back to its place in address order and melts into the
        free blocks it touches. */
    method Free(bp: nat)
      requires Valid() && freep != 0 && bp in arena.live
      modifies this`ptr, this`size, this`freep, this`arena, this`rover
      ensures Valid() && freep != 0
      ensures arena.live == old(arena).live - {bp} && arena.obtained == old(arena).obtained
      ensures forall x: nat :: InList(arena.free, x) <==>
        InList(old(arena).free, x) || Blk(bp, old(arena).live[bp]).Has(x)
      ensures exists i :: 0 < i < |arena.free| && arena.free[i].len >= old(arena).live[bp]
      ensures bp + old(arena).live[bp] == brk ==> OnlyTop(old(arena).free, arena.free, brk)
    {
      forall i | 0 <= i < |arena.free| ensures arena.free[i].addr != bp {
        assert Apart(arena.free[i], Blk(bp, arena.live[bp]));
      }
      var p; ghost var t;
      p, t := FindPlace(bp);
      if bp + arena.live[bp] == brk {
        TopOnly(arena, t, bp);
      }
      FreeAt(bp, p, t);
    }

    /** morecore: new memory goes through free, so the list then has a block that is
        big enough, the only one if there was none. Zero means that sbrk refused. */
    method MoreCore(nu: nat, answer: Sbrk) returns (p: nat)
      requires Valid() && freep != 0 && nu > 0
      modifies this`ptr, this`size, this`freep, this`arena, this`rover, this`brk, this`granted
      ensures Valid() && freep != 0
      ensures p == 0 <==> Refused(Asked(CoreUnits(nu)), old(brk) + answer.gap, answer.short)
      ensures granted == Granted(old(granted), old(brk) + answer.gap, Asked(CoreUnits(nu)), answer.short)
      ensures p == 0 ==> arena == old(arena) && brk == old(brk)
      ensures p != 0 ==>
                && p == freep && HasFit(arena.free, nu) && brk == old(brk) + answer.gap + CoreUnits(nu)
                && arena.live == old(arena).live
                && arena.obtained == old(arena).obtained + Units(Blk(old(brk) + answer.gap, CoreUnits(nu)))
                && OnlyTop(old(arena).free, arena.free, brk)
    {
      var got := CoreUnits(nu);
      var hp := brk + answer.gap;
      granted := Granted(granted, hp, Asked(got), answer.short);
      if Refused(Asked(got), hp, answer.short) {
        return 0;
      }
      Attach(hp, got);
      return freep;
    }

    /** The units that sbrk returned, as a block that is freed. */
    method Attach(hp: nat, got: nat)
      requires Valid() && freep != 0 && hp >= brk && got > 0
      modifies this`ptr, this`size, this`freep, this`arena, this`rover, this`brk
      ensures Valid() && freep != 0 && brk == hp + got && HasFit(arena.free, got)
      ensures arena.live == old(arena).live && arena.obtained == old(arena).obtained + Units(Blk(hp, got))
      ensures OnlyTop(old(arena).free, arena.free, brk)
    {
      brk := hp + got;
      size := size[hp := got];
      arena := AfterSbrk(arena, hp, got);
      StoredElsewhere(arena, ptr, old(size), size, hp);
      Free(hp);
    }

    /** p is node i of the list and prevp the one before. */
    ghost predicate Roving(p: nat, prevp: nat, i: nat)
      reads this
    {
      i < |arena.free| && arena.free[i].addr == p && arena.free[Pred(|arena.free|, i)].addr == prevp
    }

    /** The success branch of malloc's loop: an exact fit leaves the list, a larger
        block gives its upper end. */
    method Carve(p: nat, prevp: nat, ghost i: nat, nunits: nat) returns (r: nat)
      requires Valid() && freep != 0 && Roving(p, prevp, i)
      requires p in size && p in ptr && size[p] == arena.free[i].len >= nunits > 0
      modifies this`ptr, this`size, this`freep, this`arena, this`rover
      ensures Valid() && freep != 0
      ensures r > 0 && r - 1 !in old(arena).live
      ensures arena.live == old(arena).live[r - 1 := nunits] && arena.obtained == old(arena).obtained
      ensures r - 1 + nunits == old(arena).free[i].End()
    {
      assert NodeAt(ptr, size, arena.free, i) && NodeAt(ptr, size, arena.free, i - 1);
      ghost var next := AfterTake(arena, i, nunits);
      Addresses(arena.free, base, brk, i - 1, i);
      var q := p;
      if size[p] == nunits {
        ptr := ptr[prevp := ptr[p]];
      } else {
        size := size[p := size[p] - nunits];
        q := p + size[p];
        size := size[q := nunits];
      }
      TakeFromStored(old(ptr), old(size), arena.free, arena.base, arena.brk, i, nunits, ptr, size);
      HeadersTake(arena, old(size), size, i, nunits);
      freep, rover := prevp, i - 1;
      arena := next;
      return q + 1;
    }

    /** The first lines of malloc: the list is created on first use. */
    method Start()
      requires Valid()
      modifies this`ptr, this`size, this`freep, this`rover
      ensures Valid() && freep != 0
    {
      if freep == 0 {
        freep, rover := base, 0;
        ptr, size := ptr[base := base], size[base := 0];
        assert NodeAt(ptr, size, arena.free, 0);
      }
    }

    /** One turn of malloc's loop around the list, from behind freep back to freep. */
    method Scan(nunits: nat) returns (found: bool, p: nat, prevp: nat, ghost i: nat)
      requires Valid() && freep != 0
      ensures found <==> HasFit(arena.free, nunits)
      ensures found ==> Roving(p, prevp, i) && p in size && p in ptr && size[p] == arena.free[i].len >= nunits
    {
      i := Succ(|arena.free|, rover);
      assert NodeAt(ptr, size, arena.free, rover);
      prevp, p := freep, ptr[freep];
      while true
        invariant Roving(p, prevp, i) && NodeAt(ptr, size, arena.free, i)
        invariant Passed(arena.free, nunits, i, rover)
        decreases Dist(|arena.free|, i, rover)
      {
        if size[p] >= nunits {
          return true, p, prevp, i;
        }
        if p == freep {
          Addresses(arena.free, base, brk, i, rover);
          NoneFits(arena.free, nunits, rover);
          return false, p, prevp, i;
        }
        PassedStep(arena.free, nunits, i, rover);
        prevp := p;
        p := ptr[p];
        i := Succ(|arena.free|, i);
        assert NodeAt(ptr, size, arena.free, i);
      }
    }

    /** malloc, for an answer that sbrk gives if it is asked. Zero is NULL; `cores`
        counts the calls of morecore. After morecore the loop of the source goes on
        behind the new freep, that is, where a search starts. The block has room for
        the bytes if and only if the rounding has not wrapped, and it is memory that
        the process has if and only if it fitted before or sbrk was asked for memory. */
    method Malloc(nbytes: nat, answer: Sbrk) returns (r: nat, ghost cores: nat)
      requires Valid() && nbytes < UINT_LIMIT
      modifies this`ptr, this`size, this`freep, this`arena, this`rover, this`brk, this`granted
      ensures Valid() && freep != 0
      ensures cores == (if HasFit(old(arena).free, NUnits(nbytes)) then 0 else 1)
      ensures r == 0 <==> cores == 1 && Refused(Asked(CoreUnits(NUnits(nbytes))), old(brk) + answer.gap, answer.short)
      ensures r == 0 ==> arena == old(arena) && brk == old(brk) && (AsksForMemory(nbytes) ==> granted == old(granted))
      ensures r != 0 ==>
                && r - 1 !in old(arena).live
                && arena.live == old(arena).live[r - 1 := NUnits(nbytes)]
                && arena.obtained == Grown(old(arena), NUnits(nbytes), answer)
      ensures r != 0 ==> ((arena.live[r - 1] - 1) * 8 >= nbytes <==> nbytes <= 0xFFFF_FFF8)
      ensures r != 0 ==>
                if nbytes > 0xFFFF_FFF8 then arena.live[r - 1] == 1 else (arena.live[r - 1] - 1) * 8 < nbytes + 8
      ensures r != 0 && cores == 1 ==>
                brk == old(brk) + answer.gap + if arena.live[r - 1] < 4096 then 4096 else arena.live[r - 1]
      ensures r != 0 && old(Backed()) ==>
                (Units(Blk(r - 1, arena.live[r - 1])) <= granted <==>
                    HasFit(old(arena).free, NUnits(nbytes)) || AsksForMemory(nbytes))
      ensures r != 0 && old(Backed()) ==>
                (Backed() <==> HasFit(old(arena).free, NUnits(nbytes)) || AsksForMemory(nbytes))
    {
      r, cores := Serve(NUnits(nbytes), answer);
      if r == 0 {
        RefusedKeeps(nbytes, old(granted), old(brk) + answer.gap, answer.short);
      } else {
        RoomFor(nbytes);
        if old(Backed()) {
          BackedIff(old(arena), old(granted), answer, nbytes, arena, granted, r - 1);
        }
      }
    }

    /** malloc of a number of units. */
    method Serve(nunits: nat, answer: Sbrk) returns (r: nat, ghost cores: nat)
      requires Valid() && nunits > 0
      modifies this`ptr, this`size, this`freep, this`arena, this`rover, this`brk, this`granted
      ensures Valid() && freep != 0
      ensures cores == (if HasFit(old(arena).free, nunits) then 0 else 1)
      ensures r == 0 <==> cores == 1 && Refused(Asked(CoreUnits(nunits)), old(brk) + answer.gap, answer.short)
      ensures r == 0 ==> arena == old(arena)
      ensures brk == if r == 0 || cores == 0 then old(brk) else old(brk) + answer.gap + CoreUnits(nunits)
      ensures granted == if cores == 0 then old(granted)
                         else Granted(old(granted), old(brk) + answer.gap, Asked(CoreUnits(nunits)), answer.short)
      ensures r != 0 ==> r - 1 !in old(arena).live && arena.live == old(arena).live[r - 1 := nunits]
      ensures r != 0 ==> arena.obtained == Grown(old(arena), nunits, answer) && (cores == 1 ==> r - 1 + nunits == brk)
    {
      ghost var i;
      var p, prevp;
      p, prevp, cores, i := Search(nunits, answer);
      if p == 0 {
        return 0, cores;
      }
      r := Carve(p, prevp, i, nunits);
    }

    /** The search of malloc, with morecore if nothing fits. Zero is its failure. */
    method Search(nunits: nat, answer: Sbrk) returns (p: nat, prevp: nat, ghost cores: nat, ghost i: nat)
      requires Valid() && nunits > 0
      modifies this`ptr, this`size, this`freep, this`arena, this`rover, this`brk, this`granted
      ensures Valid() && freep != 0
      ensures cores == (if HasFit(old(arena).free, nunits) then 0 else 1)
      ensures p == 0 <==> cores == 1 && Refused(Asked(CoreUnits(nunits)), old(brk) + answer.gap, answer.short)
      ensures p == 0 || cores == 0 ==> arena == old(arena) && brk == old(brk)
      ensures granted == if cores == 0 then old(granted)
                         else Granted(old(granted), old(brk) + answer.gap, Asked(CoreUnits(nunits)), answer.short)
      ensures p != 0 ==> Roving(p, prevp, i) && p in size && p in ptr && size[p] == arena.free[i].len >= nunits
      ensures p != 0 ==> arena.live == old(arena).live && arena.obtained == Grown(old(arena), nunits, answer)
      ensures p != 0 && cores == 1 ==>
                arena.free[i].End() == brk == old(brk) + answer.gap + CoreUnits(nunits)
    {
      cores := 0;
      Start();
      var found;
      found, p, prevp, i := Scan(nunits);
      if !found {
        p := MoreCore(nunits, answer);
        cores := 1;
        if p == 0 {
          return;
        }
        found, p, prevp, i := Scan(nunits);
        assert arena.free[i] !in old(arena).free;
      }
      Addresses(arena.free, base, brk, 0, i);
    }
  }

  lemma InObtained(a: Arena, bp: nat)
    requires bp in a.live
    ensures Units(Blk(bp, a.live[bp])) <= a.obtained
  {
    forall x | x in Units(Blk(bp, a.live[bp])) ensures x in a.obtained {
      assert InLive(a.live, x);
    }
  }

  /** The units obtained by the time a malloc of n units returns. */
  ghost function Grown(a: Arena, n: nat, answer: Sbrk): (units: set<nat>) {
    if HasFit(a.free, n) then a.obtained else a.obtained + Units(Blk(a.brk + answer.gap, CoreUnits(n)))
  }

  /** New memory at the top of the arena: a free block reaches the top or was there before. */
  ghost predicate OnlyTop(free: seq<Blk>, free': seq<Blk>, top: nat) {
    forall i :: 0 <= i < |free'| ==> free'[i].End() == top || free'[i] in free
  }

  lemma TopOnly(a: Arena, t: nat, hp: nat)
    requires hp in a.live && hp + a.live[hp] == a.brk && Between(a.free, t, Blk(hp, a.live[hp]))
    ensures OnlyTop(a.free, AfterFree(a, t, hp).free, a.brk)
  {
    var b := Blk(hp, a.live[hp]);
    var r := PutBack(a.free, t, b);
    var d, m, u := From(a.free, t, b), Joined(a.free, t, b), To(a.free, t, b);
    forall i | 0 <= i < |r| ensures r[i].End() == a.brk || r[i] in a.free {
      if i == d {
        assert r[i] == m;
      } else {
        assert r[i] == a.free[if i < d then i else u + (i - d - 1)];
      }
    }
  }

  /** A refusal for lack of memory takes nothing away. */
  lemma RefusedKeeps(nbytes: nat, granted: set<nat>, top: nat, short: bool)
    requires nbytes < UINT_LIMIT && Refused(Asked(CoreUnits(NUnits(nbytes))), top, short)
    ensures AsksForMemory(nbytes) ==> Granted(granted, top, Asked(CoreUnits(NUnits(nbytes))), short) == granted
  {
    AskedExactly(nbytes);
  }

  /** What malloc hands out is memory of the process, or its last unit never was. */
  lemma BackedIff(a: Arena, granted: set<nat>, answer: Sbrk, nbytes: nat, a': Arena, granted': set<nat>, bp: nat)
    requires nbytes < UINT_LIMIT && a.obtained <= granted && forall x :: x in granted ==> x < a.brk
    requires bp in a'.live && a'.live[bp] == NUnits(nbytes) && a'.obtained == Grown(a, NUnits(nbytes), answer)
    requires HasFit(a.free, NUnits(nbytes)) ==> granted' == granted && a'.brk == a.brk
    requires !HasFit(a.free, NUnits(nbytes)) ==>
               && bp + NUnits(nbytes) == a'.brk == a.brk + answer.gap + CoreUnits(NUnits(nbytes))
               && granted' == Granted(granted, a.brk + answer.gap, Asked(CoreUnits(NUnits(nbytes))), answer.short)
               && !Refused(Asked(CoreUnits(NUnits(nbytes))), a.brk + answer.gap, answer.short)
    ensures var good := HasFit(a.free, NUnits(nbytes)) || AsksForMemory(nbytes);
            && (Units(Blk(bp, NUnits(nbytes))) <= granted' <==> good)
            && (a'.obtained <= granted' && (forall x :: x in granted' ==> x < a'.brk) <==> good)
  {
    AskedExactly(nbytes);
    InObtained(a', bp);
    if !HasFit(a.free, NUnits(nbytes)) && !AsksForMemory(nbytes) {
      assert a'.brk - 1 in Units(Blk(bp, NUnits(nbytes))) && a'.brk - 1 !in granted';
    }
  }

  // ---- Requests that go wrong ----

  /** The rounding wraps, and malloc hands out one unit: the header itself. */
  method NoRoom(h: Heap, gap: nat) returns (r: nat)
    requires h.Valid()
    modifies h
    ensures r != 0 && r - 1 in h.arena.live && h.arena.live[r - 1] == 1
  {
    assert NUnits(0xFFFF_FFF9) == 1 && Asked(CORE_UNITS) == CORE_UNITS * HEADER_BYTES;
    ghost var cores;
    r, cores := h.Malloc(0xFFFF_FFF9, Sbrk(false, gap));
  }

  /** On a new heap a request of 2 GB makes sbrk take a negative number for its argument. It succeeds,
      and malloc hands out a block that the process does not have. */
  method NoMemory(h: Heap, gap: nat) returns (r: nat)
    requires h.Valid() && h.Backed() && h.freep == 0 && h.brk + gap < 0x0FFF_FFFF
    modifies h
    ensures r != 0 && r - 1 in h.arena.live && !(Units(Blk(r - 1, h.arena.live[r - 1])) <= h.granted)
  {
    AskedExactly(0x8000_0000);
    assert NUnits(0x8000_0000) == 0x1000_0001 && Asked(0x1000_0001) == -0x7FFF_FFF8;
    assert !HasFit(h.arena.free, NUnits(0x8000_0000));
    ghost var cores;
    r, cores := h.Malloc(0x8000_0000, Sbrk(false, gap));
  }
}
