/** The buffer cache (bio.c) over the synchronous disk (memide.c): a ring of
    buffers in most-recently-used order, kept in place in one array. */
module BufferCache {
  import opened Params
  import opened Blocks
  import opened WriteAhead

  const NBUF := 3 * MAXOPBLOCKS
  /** The array slot of `bcache.head`. */
  const HEAD := NBUF
  /** The value that binit stores in `dev`: (uint)-1. */
  const NO_DEV: uint := 0xFFFF_FFFF

  /** struct buf; prev and next are array slots. */
  datatype Buf = Buf(busy: bool, valid: bool, dirty: bool, dev: uint, sector: uint,
                     prev: nat, next: nat, data: Block)

  /** What bget comes to: a buffer, sleep until buffer b is released, or panic. */
  datatype Outcome = Got(b: nat) | Sleep(b: nat) | NoBuffers

  // ---- The ring ----

  function At(order: seq<nat>, i: int): (b: nat) {
    if 0 <= i < |order| then order[i] else HEAD
  }

  /** The link between places i - 1 and i of the ring, in both directions. */
  ghost predicate LinkAt(bufs: seq<Buf>, order: seq<nat>, i: int)
    requires |bufs| == NBUF + 1 && forall j :: 0 <= j < |order| ==> order[j] < NBUF
  {
    bufs[At(order, i - 1)].next == At(order, i) && bufs[At(order, i)].prev == At(order, i - 1)
  }

  /** Going through next from the head visits exactly `order`; prev goes back. */
  ghost predicate Linked(bufs: seq<Buf>, order: seq<nat>) {
    && |bufs| == NBUF + 1
    && (forall i :: 0 <= i < |order| ==> order[i] < NBUF)
    && (forall i, j :: 0 <= i < j < |order| ==> order[i] != order[j])
    && (forall i :: 0 <= i <= |order| ==> LinkAt(bufs, order, i))
  }

  ghost predicate Ring(bufs: seq<Buf>, order: seq<nat>) {
    && Linked(bufs, order)
    && forall b :: 0 <= b < NBUF ==> b in order
  }

  /** What precedes and follows slot p of the ring. */
  lemma Neighbours(bufs: seq<Buf>, order: seq<nat>, p: nat)
    requires Linked(bufs, order) && p < |order|
    ensures bufs[order[p]].next == At(order, p + 1) && bufs[order[p]].prev == At(order, p - 1)
    ensures At(order, p + 1) != order[p] && At(order, p - 1) != order[p]
  {
    assert LinkAt(bufs, order, p) && LinkAt(bufs, order, p + 1);
  }

  function Without(order: seq<nat>, p: nat): (r: seq<nat>)
    requires p < |order|
  {
    order[..p] + order[p + 1..]
  }

  lemma UnlinkKeeps(bufs: seq<Buf>, order: seq<nat>, p: nat, bufs': seq<Buf>)
    requires Linked(bufs, order) && p < |order|
    requires |bufs'| == |bufs|
    requires forall i :: 0 <= i <= NBUF ==>
               bufs'[i].next == (if i == At(order, p - 1) then At(order, p + 1) else bufs[i].next)
               && bufs'[i].prev == (if i == At(order, p + 1) then At(order, p - 1) else bufs[i].prev)
    ensures Linked(bufs', Without(order, p))
  {
    var r := Without(order, p);
    forall i | 0 <= i <= |r| ensures LinkAt(bufs', r, i) {
      var j := if i < p then i else i + 1;
      assert At(r, i) == At(order, j);
      assert At(r, i - 1) == if i == p then At(order, p - 1) else At(order, j - 1);
      assert LinkAt(bufs, order, j);
      assert i == p ==> LinkAt(bufs, order, p);
    }
  }

  lemma PushKeeps(bufs: seq<Buf>, order: seq<nat>, b: nat, bufs': seq<Buf>)
    requires Linked(bufs, order) && b < NBUF && b !in order
    requires |bufs'| == |bufs|
    requires bufs'[b].next == At(order, 0) && bufs'[b].prev == HEAD
    requires forall i :: 0 <= i <= NBUF && i != b ==>
               bufs'[i].next == (if i == HEAD then b else bufs[i].next)
               && bufs'[i].prev == (if i == At(order, 0) then b else bufs[i].prev)
    ensures Linked(bufs', [b] + order)
  {
    var r := [b] + order;
    forall i | 0 <= i <= |r| ensures LinkAt(bufs', r, i) {
      if i > 0 {
        assert At(r, i) == At(order, i - 1);
        assert LinkAt(bufs, order, i - 1);
      }
    }
  }

  // ---- The contents ----

  ghost predicate Holds(bufs: seq<Buf>, i: nat, s: nat) {
    i < NBUF < |bufs| && bufs[i].valid && bufs[i].dev == ROOTDEV && bufs[i].sector == s
  }

  /** Buffer i is the only one for its block; if it is valid, clean and idle it
      agrees with the disk. */
  ghost predicate BufOk(bufs: seq<Buf>, disk: Disk, i: nat)
    requires i < NBUF < |bufs|
  {
    var b := bufs[i];
    && (forall j :: 0 <= j < NBUF && j != i && bufs[j].dev == b.dev && bufs[j].sector == b.sector ==> b.dev == NO_DEV)
    && (b.dirty ==> b.valid)
    && (b.valid ==> b.dev == ROOTDEV && b.sector < |disk|)
    && (b.valid && !b.dirty && !b.busy ==> b.data == disk[b.sector])
  }

  ghost predicate Coherent(bufs: seq<Buf>, disk: Disk) {
    && |bufs| == NBUF + 1
    && (forall i {:trigger bufs[i]} :: 0 <= i < NBUF ==> BufOk(bufs, disk, i))
  }

  /** Replacing buffer b, and with it perhaps its disk block, keeps the cache coherent. */
  lemma CoherentPut(bufs: seq<Buf>, disk: Disk, b: nat, bufs': seq<Buf>, disk': Disk)
    requires Coherent(bufs, disk) && b < NBUF && |bufs'| == |bufs| && |disk'| == |disk|
    requires forall i :: 0 <= i < NBUF && i != b ==> bufs'[i].(prev := 0, next := 0) == bufs[i].(prev := 0, next := 0)
    requires BufOk(bufs', disk', b)
    requires disk' == disk || (bufs'[b].valid && disk' == disk[bufs'[b].sector := disk'[bufs'[b].sector]])
    ensures Coherent(bufs', disk')
  {
    forall i | 0 <= i < NBUF ensures BufOk(bufs', disk', i) {
      if i != b {
        var x, y := bufs[i], bufs'[i];
        assert x.(prev := 0, next := 0) == y.(prev := 0, next := 0);
        assert y.dev == x.dev && y.sector == x.sector && y.data == x.data;
        assert y.dirty == x.dirty && y.valid == x.valid && y.busy == x.busy;
        assert BufOk(bufs, disk, i);
        forall j | 0 <= j < NBUF && j != i && bufs'[j].dev == y.dev &&
            bufs'[j].sector == y.sector ensures y.dev == NO_DEV {
          if j != b {
            assert bufs[j].(prev := 0, next := 0) == bufs'[j].(prev := 0, next := 0);
            assert bufs[j].dev == bufs'[j].dev && bufs[j].sector == bufs'[j].sector;
          }
        }
      }
    }
  }

  ghost function Slot(bufs: seq<Buf>, s: nat): (i: nat)
    requires exists i: nat :: Holds(bufs, i, s)
    ensures Holds(bufs, i, s)
  {
    var i: nat :| Holds(bufs, i, s); i
  }

  ghost function Lookup(bufs: seq<Buf>, disk: Disk, s: nat): (b: Block)
    requires s < |disk|
  {
    if exists i: nat :: Holds(bufs, i, s) then bufs[Slot(bufs, s)].data else disk[s]
  }

  /** The one logical disk that readers of the cache see. */
  ghost function View(bufs: seq<Buf>, disk: Disk): (v: Disk)
    ensures |v| == |disk|
  {
    seq(|disk|, s requires 0 <= s < |disk| => Lookup(bufs, disk, s))
  }

  lemma LookupHit(bufs: seq<Buf>, disk: Disk, i: nat, s: nat)
    requires Coherent(bufs, disk) && s < |disk| && Holds(bufs, i, s)
    ensures Lookup(bufs, disk, s) == bufs[i].data
  {
    assert Slot(bufs, s) == i;
  }

  lemma LookupMiss(bufs: seq<Buf>, disk: Disk, s: nat)
    requires s < |disk| && forall i: nat :: !Holds(bufs, i, s)
    ensures Lookup(bufs, disk, s) == disk[s]
  {
  }

  /** The parts of a buffer that View depends on. */
  ghost predicate SameContent(a: Buf, b: Buf) {
    a.valid == b.valid && a.dev == b.dev && a.sector == b.sector && a.data == b.data
  }

  lemma ViewFlags(bufs: seq<Buf>, bufs': seq<Buf>, disk: Disk)
    requires Coherent(bufs, disk) && Coherent(bufs', disk)
    requires forall i :: 0 <= i < NBUF ==> SameContent(bufs[i], bufs'[i])
    ensures View(bufs', disk) == View(bufs, disk)
  {
    forall s | 0 <= s < |disk| ensures Lookup(bufs', disk, s) == Lookup(bufs, disk, s) {
      if i: nat :| Holds(bufs, i, s) {
        assert SameContent(bufs[i], bufs'[i]);
        LookupHit(bufs, disk, i, s);
        LookupHit(bufs', disk, i, s);
      } else {
        forall i: nat ensures !Holds(bufs', i, s) {
          assert !Holds(bufs, i, s);
          assert i < NBUF ==> SameContent(bufs[i], bufs'[i]);
        }
      }
    }
  }

  /** Recycling a clean idle buffer changes no block of the logical disk. */
  lemma ViewRecycle(bufs: seq<Buf>, disk: Disk, b: nat, taken: Buf)
    requires Coherent(bufs, disk) && b < NBUF && !bufs[b].busy && !bufs[b].dirty && !taken.valid
    requires Coherent(bufs[b := taken], disk)
    ensures View(bufs[b := taken], disk) == View(bufs, disk)
  {
    var bufs' := bufs[b := taken];
    forall s | 0 <= s < |disk| ensures Lookup(bufs', disk, s) == Lookup(bufs, disk, s) {
      if i: nat :| Holds(bufs, i, s) {
        LookupHit(bufs, disk, i, s);
        if i != b {
          assert Holds(bufs', i, s);
          LookupHit(bufs', disk, i, s);
        } else {
          assert forall j: nat :: Holds(bufs', j, s) ==> Holds(bufs, j, s);
        }
      } else {
        assert forall j: nat :: Holds(bufs', j, s) ==> Holds(bufs, j, s);
      }
    }
  }

  /** So does reading the disk into an invalid buffer. */
  lemma ViewFill(bufs: seq<Buf>, disk: Disk, b: nat, full: Buf)
    requires Coherent(bufs, disk) && b < NBUF && !bufs[b].valid && bufs[b].dev == ROOTDEV && bufs[b].sector < |disk|
    requires full.valid && full.dev == ROOTDEV && full.sector == bufs[b].sector && full.data == disk[full.sector]
    requires Coherent(bufs[b := full], disk)
    ensures View(bufs[b := full], disk) == View(bufs, disk)
  {
    var bufs' := bufs[b := full];
    forall s | 0 <= s < |disk| ensures Lookup(bufs', disk, s) == Lookup(bufs, disk, s) {
      if i: nat :| Holds(bufs', i, s) {
        LookupHit(bufs', disk, i, s);
        if i == b {
          assert forall j: nat :: !Holds(bufs, j, s);
        } else {
          assert Holds(bufs, i, s);
          LookupHit(bufs, disk, i, s);
        }
      } else {
        assert forall j: nat :: Holds(bufs, j, s) ==> Holds(bufs', j, s);
      }
    }
  }

  /** Changing the data of a valid buffer changes just that block of the logical disk. */
  lemma ViewSet(bufs: seq<Buf>, disk: Disk, b: nat, data: Block)
    requires Coherent(bufs, disk) && b < NBUF && bufs[b].valid
    requires Coherent(bufs[b := bufs[b].(data := data)], disk)
    ensures View(bufs[b := bufs[b].(data := data)], disk) == View(bufs, disk)[bufs[b].sector := data]
  {
    var bufs' := bufs[b := bufs[b].(data := data)];
    forall s | 0 <= s < |disk|
      ensures Lookup(bufs', disk, s) == if s == bufs[b].sector then data else Lookup(bufs, disk, s)
    {
      if i: nat :| Holds(bufs, i, s) {
        assert Holds(bufs', i, s);
        LookupHit(bufs, disk, i, s);
        LookupHit(bufs', disk, i, s);
      } else {
        assert forall j: nat :: Holds(bufs', j, s) ==> Holds(bufs, j, s);
        assert Holds(bufs, b, bufs[b].sector);
      }
    }
  }

  /** Writing a valid buffer through to the disk changes no block of the logical disk. */
  lemma ViewWrite(bufs: seq<Buf>, disk: Disk, b: nat, bufs': seq<Buf>)
    requires Coherent(bufs, disk) && b < NBUF && bufs[b].valid
    requires Coherent(bufs', disk[bufs[b].sector := bufs[b].data])
    requires forall i :: 0 <= i < NBUF ==> SameContent(bufs[i], bufs'[i])
    ensures View(bufs', disk[bufs[b].sector := bufs[b].data]) == View(bufs, disk)
  {
    var disk' := disk[bufs[b].sector := bufs[b].data];
    assert Holds(bufs, b, bufs[b].sector);
    forall s | 0 <= s < |disk| ensures Lookup(bufs', disk', s) == Lookup(bufs, disk, s) {
      if i: nat :| Holds(bufs, i, s) {
        assert SameContent(bufs[i], bufs'[i]);
        LookupHit(bufs, disk, i, s);
        LookupHit(bufs', disk', i, s);
      } else {
        forall i: nat ensures !Holds(bufs', i, s) {
          assert !Holds(bufs, i, s);
          assert i < NBUF ==> SameContent(bufs[i], bufs'[i]);
        }
      }
    }
  }
}
