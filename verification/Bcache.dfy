/** The operations of bio.c and memide.c on the buffer cache, in place. */
module Bcache {
  import opened Params
  import opened Blocks
  import opened WriteAhead
  import opened BufferCache

  /** Buffer a with other links. */
  predicate SameBody(a: Buf, b: Buf) {
    a.(prev := b.prev, next := b.next) == b
  }

  /** Exactly the buffer for this block. */
  predicate Matches(b: Buf, dev: uint, sector: uint) {
    b.dev == dev && b.sector == sector
  }

  class Cache {
    const buf: array<Buf>
    var disk: Disk
    /** The buffers, most recently used first. */
    ghost var order: seq<nat>
    /** Every block sent to the disk, oldest first. */
    ghost var writes: seq<Write>

    ghost predicate Valid()
      reads this, buf
    {
      && buf.Length == NBUF + 1
      && |order| == NBUF
      && Ring(buf[..], order)
      && Coherent(buf[..], disk)
    }

    ghost function Logical(): (v: Disk)
      reads this, buf
    {
      View(buf[..], disk)
    }

    /** binit. */
    constructor (image: Disk)
      ensures Valid() && fresh(buf)
      ensures disk == image && writes == []
      ensures forall i :: 0 <= i < NBUF ==> !buf[i].busy && !buf[i].valid && !buf[i].dirty
      ensures Logical() == image
    {
      buf := new Buf[NBUF + 1](_ => Buf(false, false, false, 0, 0, HEAD, HEAD, ZeroBlock()));
      disk := image;
      order := [];
      writes := [];
      new;
      var b := 0;
      while b < NBUF
        invariant 0 <= b <= NBUF
        invariant Linked(buf[..], order)
        invariant |order| == b && forall i :: 0 <= i < NBUF ==> (i in order <==> i < b)
        invariant forall i :: 0 <= i < NBUF ==> !buf[i].busy && !buf[i].valid && !buf[i].dirty
        invariant forall i :: 0 <= i < b ==> buf[i].dev == NO_DEV
        invariant writes == [] && disk == image && fresh(buf)
      {
        ghost var was := buf[..];
        buf[b] := buf[b].(dev := NO_DEV);
        RingKeeps(was, buf[..], order);
        PushFront(b, order);
        order := [b] + order;
        b := b + 1;
      }
      forall i | 0 <= i < NBUF ensures BufOk(buf[..], disk, i) {
      }
      forall s | 0 <= s < |disk| ensures Lookup(buf[..], disk, s) == disk[s] {
        LookupMiss(buf[..], disk, s);
      }
    }

    /** The first loop of bget: the buffer for this block, or the head. */
    method FindCached(dev: uint, sector: uint) returns (b: nat)
      requires Valid()
      ensures b <= NBUF
      ensures b < NBUF ==> Matches(buf[b], dev, sector)
      ensures b == HEAD ==> forall i :: 0 <= i < NBUF ==> !Matches(buf[i], dev, sector)
    {
      ghost var p := 0;
      b := buf[HEAD].next;
      assert LinkAt(buf[..], order, 0);
      while b != HEAD
        invariant 0 <= p <= NBUF && b == At(order, p)
        invariant forall q :: 0 <= q < p ==> !Matches(buf[order[q]], dev, sector)
        decreases NBUF - p
      {
        if Matches(buf[b], dev, sector) {
          return;
        }
        assert b == order[p];
        assert LinkAt(buf[..], order, p + 1);
        b := buf[b].next;
        p := p + 1;
      }
      forall i | 0 <= i < NBUF ensures !Matches(buf[i], dev, sector) {
        assert i in order;
        var q :| 0 <= q < |order| && order[q] == i;
      }
    }

    /** The second loop of bget: the least recently used idle clean buffer, or the head. */
    method FindVictim() returns (b: nat)
      requires Valid()
      ensures b <= NBUF
      ensures b < NBUF ==> !buf[b].busy && !buf[b].dirty
                           && (exists p :: 0 <= p < NBUF && order[p] == b
                                 && forall q :: p < q < NBUF ==> buf[order[q]].busy || buf[order[q]].dirty)
      ensures b == HEAD ==> forall i :: 0 <= i < NBUF ==> buf[i].busy || buf[i].dirty
    {
      ghost var p := NBUF - 1;
      b := buf[HEAD].prev;
      assert LinkAt(buf[..], order, NBUF);
      while b != HEAD
        invariant -1 <= p < NBUF && b == At(order, p)
        invariant forall q :: p < q < NBUF ==> buf[order[q]].busy || buf[order[q]].dirty
        decreases p
      {
        assert b == order[p];
        if !buf[b].busy && !buf[b].dirty {
          return;
        }
        assert LinkAt(buf[..], order, p);
        b := buf[b].prev;
        p := p - 1;
      }
      assert p == -1;
      forall i | 0 <= i < NBUF ensures buf[i].busy || buf[i].dirty {
        assert i in order;
        var q :| 0 <= q < |order| && order[q] == i;
      }
    }

    /** bget: a cached block is locked, or waited for; an uncached one takes over
        the least recently used buffer that is neither in use nor pinned by the log. */
    method Bget(dev: uint, sector: uint) returns (r: Outcome)
      requires Valid()
      modifies buf
      ensures Valid()
      ensures Logical() == old(Logical())
      ensures !r.NoBuffers? ==> r.b < NBUF && buf[r.b].dev == dev && buf[r.b].sector == sector && buf[r.b].busy
      ensures match r
              case Sleep(b) => b < NBUF && Matches(buf[b], dev, sector) && buf[b].busy && buf[..] == old(buf[..])
              case NoBuffers =>
                && buf[..] == old(buf[..])
                && (forall i :: 0 <= i < NBUF ==> !Matches(buf[i], dev, sector))
                && (forall i :: 0 <= i < NBUF ==> buf[i].busy || buf[i].dirty)
              case Got(b) =>
                && b < NBUF && !old(buf[b].busy)
                && if Matches(old(buf[b]), dev, sector)
                   then buf[..] == old(buf[..])[b := old(buf[b]).(busy := true)]
                   else
                     && (forall i :: 0 <= i < NBUF ==> !Matches(old(buf[i]), dev, sector))
                     && !old(buf[b].dirty)
                     && (exists p :: 0 <= p < NBUF && order[p] == b
                           && forall q :: p < q < NBUF ==> old(buf[order[q]].busy) || old(buf[order[q]].dirty))
                     && buf[..] == old(buf[..])[b := old(buf[b]).(dev := dev, sector := sector, busy := true,
                          valid := false, dirty := false)]
    {
      var b := FindCached(dev, sector);
      ghost var was := buf[..];
      if b != HEAD {
        if !buf[b].busy {
          buf[b] := buf[b].(busy := true);
          RingKeeps(was, buf[..], order);
          CoherentPut(was, disk, b, buf[..], disk);
          ViewFlags(was, buf[..], disk);
          return Got(b);
        }
        return Sleep(b);
      }
      b := FindVictim();
      if b == HEAD {
        return NoBuffers;
      }
      buf[b] := buf[b].(dev := dev, sector := sector, busy := true, valid := false, dirty := false);
      RingKeeps(was, buf[..], order);
      CoherentPut(was, disk, b, buf[..], disk);
      ViewRecycle(was, disk, b, buf[b]);
      return Got(b);
    }

    /** iderw of memide.c: a dirty buffer goes to the disk, an invalid one is filled from it. */
    method Iderw(b: nat)
      requires Valid() && b < NBUF
      requires buf[b].busy && (buf[b].dirty || !buf[b].valid) && buf[b].dev == ROOTDEV && buf[b].sector < |disk|
      modifies this`disk, this`writes, buf
      ensures Valid()
      ensures Logical() == old(Logical())
      ensures if old(buf[b].dirty)
              then && disk == old(disk)[old(buf[b].sector) := old(buf[b].data)]
                   && writes == old(writes) + [Write(old(buf[b].sector), old(buf[b].data))]
                   && buf[..] == old(buf[..])[b := old(buf[b]).(dirty := false)]
              else && disk == old(disk) && writes == old(writes)
                   && buf[..] == old(buf[..])[b := old(buf[b]).(data := old(disk[buf[b].sector]), valid := true)]
    {
      ghost var was := buf[..];
      if buf[b].dirty {
        buf[b] := buf[b].(dirty := false);
        disk := disk[buf[b].sector := buf[b].data];
        writes := writes + [Write(buf[b].sector, buf[b].data)];
        buf[b] := buf[b].(valid := true);
        RingKeeps(was, buf[..], order);
        CoherentPut(was, old(disk), b, buf[..], disk);
        ViewWrite(was, old(disk), b, buf[..]);
      } else {
        buf[b] := buf[b].(data := disk[buf[b].sector]);
        buf[b] := buf[b].(valid := true);
        RingKeeps(was, buf[..], order);
        CoherentPut(was, disk, b, buf[..], disk);
        assert buf[..] == was[b := buf[b]];
        ViewFill(was, disk, b, buf[b]);
      }
    }

    /** bread: the buffer it locks holds the block of the logical disk. */
    method Bread(dev: uint, sector: uint) returns (r: Outcome)
      requires Valid() && dev == ROOTDEV && sector < |disk|
      modifies this`disk, this`writes, buf
      ensures Valid()
      ensures disk == old(disk) && writes == old(writes)
      ensures Logical() == old(Logical())
      ensures r.Got? <==> (exists i :: 0 <= i < NBUF && Matches(old(buf[i]), dev, sector) && !old(buf[i].busy))
                          || ((forall i :: 0 <= i < NBUF ==> !Matches(old(buf[i]), dev, sector))
                              && (exists i :: 0 <= i < NBUF && !old(buf[i].busy) && !old(buf[i].dirty)))
      ensures r.Got? ==>
                && r.b < NBUF && Matches(buf[r.b], dev, sector)
                && buf[r.b].busy && buf[r.b].valid && !old(buf[r.b].busy)
                && buf[r.b].dirty == old(buf[r.b].dirty)
                && (old(buf[r.b].dirty) ==> Matches(old(buf[r.b]), dev, sector))
                && buf[r.b].data == Logical()[sector]
                && (!buf[r.b].dirty ==> buf[r.b].data == disk[sector])
                && forall i :: 0 <= i <= NBUF && i != r.b ==> buf[i] == old(buf[i])
      ensures !r.Got? ==> buf[..] == old(buf[..])
    {
      r := Bget(dev, sector);
      if r.Got? {
        if !buf[r.b].valid {
          Iderw(r.b);
        }
        assert Holds(buf[..], r.b, sector);
        LookupHit(buf[..], disk, r.b, sector);
      }
    }

    /** The holder of a buffer changes its data in place. */
    method Modify(b: nat, data: Block)
      requires Valid() && b < NBUF && buf[b].busy && buf[b].valid
      modifies buf
      ensures Valid()
      ensures buf[..] == old(buf[..])[b := old(buf[b]).(data := data)]
      ensures Logical() == old(Logical())[buf[b].sector := data]
    {
      ghost var was := buf[..];
      buf[b] := buf[b].(data := data);
      RingKeeps(was, buf[..], order);
      CoherentPut(was, disk, b, buf[..], disk);
      ViewSet(was, disk, b, data);
    }

    /** bwrite. */
    method Bwrite(b: nat)
      requires Valid() && b < NBUF && buf[b].busy && buf[b].valid
      modifies this`disk, this`writes, buf
      ensures Valid()
      ensures disk == old(disk)[old(buf[b].sector) := old(buf[b].data)]
      ensures writes == old(writes) + [Write(old(buf[b].sector), old(buf[b].data))]
      ensures buf[..] == old(buf[..])[b := old(buf[b]).(dirty := false)]
      ensures Logical() == old(Logical())
    {
      Pin(b);
      Iderw(b);
    }

    /** B_DIRTY on a buffer in use: log_write's pin, and the first half of bwrite. */
    method Pin(b: nat)
      requires Valid() && b < NBUF && buf[b].busy && buf[b].valid
      modifies buf
      ensures Valid()
      ensures buf[..] == old(buf[..])[b := old(buf[b]).(dirty := true)]
      ensures Logical() == old(Logical())
    {
      ghost var was := buf[..];
      buf[b] := buf[b].(dirty := true);
      RingKeeps(was, buf[..], order);
      CoherentPut(was, disk, b, buf[..], disk);
      ViewFlags(was, buf[..], disk);
    }

    /** brelse: the buffer becomes the most recently used one and idle. A changed
        buffer must have been written or logged first. */
    method Brelse(b: nat)
      requires Valid() && b < NBUF && buf[b].busy && buf[b].valid
      requires buf[b].dirty || buf[b].data == disk[buf[b].sector]
      modifies this`order, buf
      ensures Valid()
      ensures exists p :: 0 <= p < NBUF && old(order)[p] == b && order == [b] + Without(old(order), p)
      ensures forall i :: 0 <= i < NBUF ==> SameBody(if i == b then old(buf[i]).(busy := false) else old(buf[i]),
          buf[i])
      ensures Logical() == old(Logical())
    {
      ghost var was := buf[..];
      MoveToFront(b);
      ghost var moved := buf[..];
      buf[b] := buf[b].(busy := false);
      RingKeeps(moved, buf[..], order);
      forall i | 0 <= i < NBUF
        ensures SameBody(if i == b then was[i].(busy := false) else was[i], buf[i]) && SameContent(was[i], buf[i])
      {
        assert SameBody(was[i], moved[i]);
      }
      CoherentPut(was, disk, b, buf[..], disk);
      ViewFlags(was, buf[..], disk);
    }

    /** The relinking in brelse. */
    method MoveToFront(b: nat)
      requires Valid() && b < NBUF
      modifies this`order, buf
      ensures |order| == NBUF && Ring(buf[..], order)
      ensures exists p :: 0 <= p < NBUF && old(order)[p] == b && order == [b] + Without(old(order), p)
      ensures forall i :: 0 <= i <= NBUF ==> SameBody(old(buf[i]), buf[i])
    {
      ghost var was := buf[..];
      assert b in order;
      ghost var p :| 0 <= p < |order| && order[p] == b;
      Detach(b, p);
      MovedMembers(order, p);
      PushFront(b, Without(order, p));
      order := [b] + Without(order, p);
    }

    method Detach(b: nat, ghost p: nat)
      requires buf.Length == NBUF + 1 && b < NBUF && p < |order| && order[p] == b
      requires Linked(buf[..], order)
      modifies buf
      ensures Linked(buf[..], Without(order, p))
      ensures forall i :: 0 <= i <= NBUF ==> SameBody(old(buf[i]), buf[i])
    {
      ghost var was := buf[..];
      Neighbours(was, order, p);
      var after, before := buf[b].next, buf[b].prev;
      buf[after] := buf[after].(prev := before);
      buf[before] := buf[before].(next := after);
      UnlinkKeeps(was, order, p, buf[..]);
    }

    method PushFront(b: nat, ghost rest: seq<nat>)
      requires buf.Length == NBUF + 1 && b < NBUF && b !in rest
      requires Linked(buf[..], rest)
      modifies buf
      ensures Linked(buf[..], [b] + rest)
      ensures forall i :: 0 <= i <= NBUF ==> SameBody(old(buf[i]), buf[i])
    {
      ghost var was := buf[..];
      assert LinkAt(was, rest, 0);
      var first := buf[HEAD].next;
      buf[b] := buf[b].(next := first, prev := HEAD);
      buf[first] := buf[first].(prev := b);
      buf[HEAD] := buf[HEAD].(next := b);
      PushKeeps(was, rest, b, buf[..]);
    }
  }

  lemma MovedMembers(order: seq<nat>, p: nat)
    requires p < |order| && forall i, j :: 0 <= i < j < |order| ==> order[i] != order[j]
    ensures order[p] !in Without(order, p)
    ensures forall b :: b in order ==> b in [order[p]] + Without(order, p)
  {
    forall b | b in order ensures b in [order[p]] + Without(order, p) {
      var q :| 0 <= q < |order| && order[q] == b;
      if q < p {
        assert Without(order, p)[q] == b;
      } else if q > p {
        assert Without(order, p)[q - 1] == b;
      }
    }
  }

  lemma RingKeeps(bufs: seq<Buf>, bufs': seq<Buf>, order: seq<nat>)
    requires |bufs'| == |bufs|
    requires Linked(bufs, order)
    requires forall i :: 0 <= i < |bufs| ==> bufs'[i].next == bufs[i].next && bufs'[i].prev == bufs[i].prev
    ensures Linked(bufs', order)
  {
    forall i | 0 <= i <= |order| ensures LinkAt(bufs', order, i) {
      assert LinkAt(bufs, order, i);
    }
  }
}
