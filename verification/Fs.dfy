/** Block allocation and file contents of fs.c, in place. `disk` is the logical
    disk that the buffer cache and the log present; `ip` is the in-memory inode
    that the caller has locked. */
module Fs {
  import opened Blocks
  import opened Bitmap
  import opened FsLayout
  import opened FsExact
  import opened FsSteps
  import opened FsView
  import opened FsFiles

  /** The bit of a block, seen from the block that starts its bitmap block. */
  lemma BitAt(sb: Super, disk: Disk, first: nat, bi: nat)
    requires Formatted(sb, disk) && first % BPB == 0 && bi < BPB && first + bi < sb.size
    ensures BBlock(sb, first) == BBlock(sb, first + bi) < |disk| && (first + bi) % BPB == bi
    ensures Marked(sb, disk, first + bi) == Bit(disk[BBlock(sb, first)], bi)
  {
    Regions(sb, 0, first + bi);
  }

  /** A block below the end of the bytes written, but not below the old end, is one of theirs. */
  lemma Extent(off: nat, n: nat, size: nat)
    requires off <= size
    ensures forall bn :: size <= bn * BSIZE < off + n ==> Touches(off, n, bn)
  {
  }

  /** The blocks for n bytes from off on are there. */
  ghost predicate Covered(blocks: Disk, addrs: seq<uint>, off: nat, n: nat)
    requires |addrs| == NDIRECT + 1
  {
    forall bn :: 0 <= bn < MAXFILE && Touches(off, n, bn) ==> Ref(blocks, addrs, SlotOf(bn)) != 0
  }

  /** The bytes of a file from off on. */
  ghost predicate Reads(blocks: Disk, addrs: seq<uint>, off: nat, dst: seq<byte>)
    requires |addrs| == NDIRECT + 1
  {
    && (dst != [] ==> off + |dst| <= MAXFILE * BSIZE)
    && forall i :: 0 <= i < |dst| ==> dst[i] == FileByte(blocks, addrs, off + i)
  }

  lemma ReadsBlock(blocks: Disk, addrs: seq<uint>, at: nat, m: nat)
    requires |addrs| == NDIRECT + 1 && at / BSIZE < MAXFILE && at % BSIZE + m <= BSIZE
    requires 0 != Ref(blocks, addrs, SlotOf(at / BSIZE)) < |blocks|
    ensures Reads(blocks, addrs, at, blocks[Ref(blocks, addrs, SlotOf(at / BSIZE))][at % BSIZE..at % BSIZE + m])
  {
    var data := blocks[Ref(blocks, addrs, SlotOf(at / BSIZE))];
    var chunk := data[at % BSIZE..at % BSIZE + m];
    forall i | 0 <= i < m ensures chunk[i] == FileByte(blocks, addrs, at + i) {
      InChunk(at, m, at + i);
    }
  }

  /** From v to r blocks were added to the inode that changes, and no byte of a file. */
  ghost predicate More(v: Image, r: Image) {
    && SameBytes(v, r) && Untouched(v, r) && r.dinodes == v.dinodes
    && forall t :: 0 <= t < NSLOTS && Ref(v.blocks, v.tbl[v.inum], t) != 0 ==>
         Ref(r.blocks, r.tbl[v.inum], t) == Ref(v.blocks, v.tbl[v.inum], t)
  }

  lemma MoreTrans(a: Image, b: Image, c: Image)
    requires More(a, b) && More(b, c)
    ensures More(a, c)
  {
    SameBytesTrans(a, b, c);
    UntouchedTrans(a, b, c);
  }

  /** How far a pass over the bytes of a file from off on has come, since the volume was v and the inode q. */
  datatype PassData = Pass(v: Image, q: Inode, img: Image, ip: Inode, off: nat, tot: nat)

  /** The blocks for the first tot bytes are there, and the inode is the same if it had the addresses for them.
      Other inodes, dinodes and slots in use are the same. */
  ghost predicate PassOk(p: PassData) {
    && p.img.dinodes == p.v.dinodes && Untouched(p.v, p.img)
    && p.ip == p.q.(addrs := p.ip.addrs) && p.v.tbl[p.v.inum] == p.q.addrs && p.img.tbl[p.v.inum] == p.ip.addrs
    && Covered(p.img.blocks, p.ip.addrs, p.off, p.tot) && Addressed(p.ip.addrs, p.off, p.tot)
    && (Addressed(p.q.addrs, p.off, p.tot) ==> p.ip == p.q)
    && (forall i :: 0 <= i <= NDIRECT && i !in Heads(p.off, p.tot) ==> p.ip.addrs[i] == p.q.addrs[i])
    && (forall t :: 0 <= t < NSLOTS && Ref(p.v.blocks, p.q.addrs, t) != 0 ==>
         Ref(p.img.blocks, p.ip.addrs, t) == Ref(p.v.blocks, p.q.addrs, t))
  }

  ghost function StartPass(v: Image, q: Inode, off: nat): (p: PassData)
    requires v.tbl[v.inum] == q.addrs
    ensures PassOk(p) && p == Pass(v, q, v, q, off, 0)
  {
    Pass(v, q, v, q, off, 0)
  }

  type Pass = p: PassData | PassOk(p)
    ghost witness var v: Image := EmptyView(1, [ZeroBlock()], 1, 1); StartPass(v, v.dinodes[0], 0)

  /** bmap has seen to the block for the next m bytes. */
  ghost function NextPass(p: Pass, img: Image, ip: Inode, m: nat): (r: PassData)
    requires m > 0 && (p.off + p.tot) % BSIZE + m <= BSIZE && (p.off + p.tot) / BSIZE < MAXFILE
    requires More(p.img, img) && ip == p.ip.(addrs := ip.addrs) && img.tbl[p.v.inum] == ip.addrs
    requires Ref(img.blocks, ip.addrs, SlotOf((p.off + p.tot) / BSIZE)) != 0 &&
        ip.addrs[Head((p.off + p.tot) / BSIZE)] != 0
    requires p.ip.addrs[Head((p.off + p.tot) / BSIZE)] != 0 ==> ip == p.ip
    requires forall i :: 0 <= i <= NDIRECT && i != Head((p.off + p.tot) / BSIZE) ==> ip.addrs[i] == p.ip.addrs[i]
    ensures PassOk(r) && r == p.(img := img, ip := ip, tot := p.tot + m)
  {
    TouchesNext(p.off, p.tot, m);
    HeadsNext(p.off, p.tot, m);
    UntouchedTrans(p.v, p.img, img);
    HeadsKept(p, img, ip);
    p.(img := img, ip := ip, tot := p.tot + m)
  }

  /** Addresses in use are slots in use. */
  lemma HeadsKept(p: Pass, img: Image, ip: Inode)
    requires More(p.img, img) && img.tbl[p.v.inum] == ip.addrs
    ensures forall i :: 0 <= i <= NDIRECT && p.ip.addrs[i] != 0 ==> ip.addrs[i] == p.ip.addrs[i]
  {
    forall i | 0 <= i <= NDIRECT && p.ip.addrs[i] != 0 ensures ip.addrs[i] == p.ip.addrs[i] {
      assert Ref(p.img.blocks, p.ip.addrs, i) == p.ip.addrs[i] && Ref(img.blocks, ip.addrs, i) == ip.addrs[i];
    }
  }

  /** The addresses that the inode has after a pass. */
  lemma HaveAfter(p: Pass)
    ensures Have(p.ip.addrs) == Have(p.q.addrs) + Heads(p.off, p.tot) && Kept(p.q.addrs, p.ip.addrs)
  {
    forall i | 0 <= i <= NDIRECT && p.q.addrs[i] != 0 ensures p.ip.addrs[i] == p.q.addrs[i] {
      assert Ref(p.v.blocks, p.q.addrs, i) == p.q.addrs[i] && Ref(p.img.blocks, p.ip.addrs, i) == p.ip.addrs[i];
    }
  }

  /** The pass goes on after block bn got new contents. */
  ghost function PutData(p: Pass, bn: nat, data: Block): (r: PassData)
    requires bn < MAXFILE && Ref(p.img.blocks, p.ip.addrs, SlotOf(bn)) != 0
    ensures PassOk(r) && r == p.(img := AfterData(p.img, bn, data))
  {
    UntouchedTrans(p.v, p.img, AfterData(p.img, bn, data));
    p.(img := AfterData(p.img, bn, data))
  }

  /** A read that the missing block stops could not have been covered. */
  lemma CoveredParts(blocks: Disk, addrs: seq<uint>, off: nat, tot: nat, m: nat, left: nat)
    requires |addrs| == NDIRECT + 1 && 0 < m <= left && (off + tot) % BSIZE + m <= BSIZE &&
        (off + tot) / BSIZE < MAXFILE
    ensures Covered(blocks, addrs, off, tot + m) <==>
      Covered(blocks, addrs, off, tot) && Ref(blocks, addrs, SlotOf((off + tot) / BSIZE)) != 0
    ensures Covered(blocks, addrs, off, tot + left) ==> Covered(blocks, addrs, off, tot + m)
  {
    TouchesNext(off, tot, m);
  }

  /** A block that is missing on the way was missing from the start. */
  lemma Uncovered(p: Pass, at: nat, m: nat, left: nat)
    requires at == p.off + p.tot && 0 < m <= left && at % BSIZE + m <= BSIZE && at / BSIZE < MAXFILE
    requires Ref(p.img.blocks, p.ip.addrs, SlotOf(at / BSIZE)) == 0
    ensures !Covered(p.v.blocks, p.q.addrs, p.off, p.tot + left)
  {
    CoveredParts(p.v.blocks, p.q.addrs, p.off, p.tot, m, left);
  }

  lemma ReadsMore(p: Pass, dst: seq<byte>, at: nat, chunk: seq<byte>)
    requires SameBytes(p.v, p.img) && at == p.off + |dst|
    requires Reads(p.v.blocks, p.q.addrs, p.off, dst) && Reads(p.img.blocks, p.ip.addrs, at, chunk)
    ensures Reads(p.v.blocks, p.q.addrs, p.off, dst + chunk)
  {
    var all := dst + chunk;
    forall i | 0 <= i < |all| ensures all[i] == FileByte(p.v.blocks, p.q.addrs, p.off + i) {
      if i < |dst| {
        assert all[i] == dst[i];
      } else {
        var k := i - |dst|;
        assert all[i] == chunk[k] == FileByte(p.img.blocks, p.ip.addrs, at + k);
      }
    }
  }

  /** A pass of readi: the disk at its start and now, and the bytes read. */
  datatype ReadData = Reading(p: PassData, d: Disk, disk: Disk, dst: seq<byte>)

  /** No byte of a file has changed, and nothing at all where all blocks were there. */
  ghost predicate ReadOk(g: ReadData) {
    && PassOk(g.p) && More(g.p.v, g.p.img) && |g.dst| == g.p.tot && Reads(g.p.v.blocks, g.p.q.addrs, g.p.off, g.dst)
    && (Covered(g.p.v.blocks, g.p.q.addrs, g.p.off, g.p.tot) ==> g.disk == g.d && g.p.ip == g.p.q && g.p.img == g.p.v)
  }

  ghost function StartRead(v: Image, q: Inode, d: Disk, off: nat): (g: ReadData)
    requires v.tbl[v.inum] == q.addrs
    ensures ReadOk(g) && g == Reading(Pass(v, q, v, q, off, 0), d, d, [])
  {
    Reading(StartPass(v, q, off), d, d, [])
  }

  type Read = g: ReadData | ReadOk(g)
    ghost witness var v: Image := EmptyView(1, [ZeroBlock()], 1, 1); StartRead(v, v.dinodes[0], [], 0)

  ghost function NextRead(g: Read, p: Pass, at: nat, disk: Disk, chunk: seq<byte>): (r: ReadData)
    requires 0 < |chunk| && p == g.p.(img := p.img, ip := p.ip, tot := g.p.tot + |chunk|) && More(g.p.img, p.img)
    requires at == p.off + g.p.tot && at % BSIZE + |chunk| <= BSIZE && at / BSIZE < MAXFILE
    requires Reads(p.img.blocks, p.ip.addrs, at, chunk)
    requires Ref(g.p.img.blocks, g.p.ip.addrs, SlotOf(at / BSIZE)) != 0 ==>
      disk == g.disk && p.ip == g.p.ip && p.img == g.p.img
    ensures ReadOk(r) && r == Reading(p, g.d, disk, g.dst + chunk)
  {
    MoreTrans(p.v, g.p.img, p.img);
    CoveredParts(p.v.blocks, p.q.addrs, p.off, g.p.tot, |chunk|, |chunk|);
    ReadsMore(p, g.dst, at, chunk);
    Reading(p, g.d, disk, g.dst + chunk)
  }

  class Volume {
    const sb: Super
    var inum: nat
    var disk: Disk
    var ip: Inode
    /** What the disk shows, with the block addresses of every inode. */
    ghost var img: Image

    ghost predicate Valid()
      reads this
    {
      Shows(sb, disk, img) && img.inum == inum && img.tbl[inum] == ip.addrs
    }

    ghost function Slot(t: int): (b: uint)
      requires 0 <= t < NSLOTS
      reads this
    {
      Ref(img.blocks, ip.addrs, t)
    }

    /** No block is free. */
    ghost predicate DiskFull()
      reads this
    {
      forall x :: 0 <= x < |img.marks| ==> img.marks[x]
    }

    /** Every block below the size of the file is there. */
    ghost predicate Mapped()
      reads this
    {
      ip.size <= MAXFILE * BSIZE && forall bn :: 0 <= bn < MAXFILE && bn * BSIZE < ip.size ==> Slot(SlotOf(bn)) != 0
    }

    /** The dinode on disk is the inode in memory. */
    ghost predicate InSync()
      requires Valid()
      reads this
    {
      DiskInode(sb, disk, inum) == ip
    }

    constructor (ghost v: Image, sb: Super, inum: nat, disk: Disk)
      requires Shows(sb, disk, v) && v.inum == inum && v.tbl[inum] == v.dinodes[inum].addrs
      ensures Valid() && InSync() && img == v && this.disk == disk
    {
      this.sb, this.inum, this.disk, img := sb, inum, disk, v;
      ip := DiskInode(sb, disk, inum);
    }

    /** ilock of another inode, once the one in memory is on disk. */
    method Select(i: nat)
      requires Valid() && Settled(img) && i < |img.tbl|
      modifies this`inum, this`ip, this`img
      ensures Valid() && InSync() && inum == i && img == Focus(old(img), i)
    {
      Regions(sb, i, 0);
      inum, ip := i, DiskInode(sb, disk, i);
      img := Focus(img, i);
    }

    /** The inner loop of balloc: the first free block that this bitmap block covers. */
    method ScanBitmapBlock(first: nat) returns (found: bool, bi: nat)
      requires Formatted(sb, disk) && first < sb.size && first % BPB == 0
      ensures found ==> bi < BPB && first + bi < sb.size && !Marked(sb, disk, first + bi)
      ensures !found ==> bi == BPB || first + bi >= sb.size
      ensures bi <= BPB && forall x :: first <= x < first + bi && x < sb.size ==> Marked(sb, disk, x)
    {
      Regions(sb, 0, first);
      var bp := disk[BBlock(sb, first)];
      bi := 0;
      while bi < BPB && first + bi < sb.size
        invariant 0 <= bi <= BPB
        invariant forall x :: first <= x < first + bi && x < sb.size ==> Marked(sb, disk, x)
      {
        BitAt(sb, disk, first, bi);
        if !Bit(bp, bi) {
          return true, bi;
        }
        bi := bi + 1;
      }
      found := false;
    }

    /** The outer loop of balloc. */
    method FindFree() returns (found: bool, first: nat, bi: nat)
      requires Formatted(sb, disk)
      ensures found ==> first % BPB == 0 && bi < BPB && first + bi < sb.size && !Marked(sb, disk, first + bi)
      ensures forall x :: 0 <= x < (if found then first + bi else sb.size) ==> Marked(sb, disk, x)
    {
      first := 0;
      while first < sb.size
        invariant first % BPB == 0
        invariant forall x :: 0 <= x < first && x < sb.size ==> Marked(sb, disk, x)
      {
        found, bi := ScanBitmapBlock(first);
        if found {
          return;
        }
        first := first + BPB;
      }
      found, bi := false, 0;
    }

    /** balloc: the first free block, marked and zeroed; none free is a panic. */
    method Balloc() returns (ok: bool, b: uint)
      requires Valid()
      modifies this`disk
      ensures !ok ==> disk == old(disk) && DiskFull()
      ensures ok ==> b < sb.size && !img.marks[b] && (forall x :: 0 <= x < b ==> Marked(sb, old(disk), x))
      ensures ok ==> disk == Mark(sb, old(disk), b, true)[b := ZeroBlock()]
      ensures ok ==> Shows(sb, disk, img.(marks := img.marks[b := true], blocks := img.blocks[b := ZeroBlock()]))
    {
      var first, bi;
      ok, first, bi := FindFree();
      b := 0;
      if ok {
        b := first + bi;
        MarkZero(b, first, bi);
      } else {
        forall x | 0 <= x < sb.size ensures img.marks[x] {
          assert Marked(sb, disk, x);
        }
      }
    }

    /** Block b = first + bi, which is free, marked and zeroed. */
    method MarkZero(b: nat, first: nat, bi: nat)
      requires Valid() && first % BPB == 0 && bi < BPB && b == first + bi < sb.size && !Marked(sb, disk, b)
      modifies this`disk
      ensures !img.marks[b] && disk == Mark(sb, old(disk), b, true)[b := ZeroBlock()]
      ensures Shows(sb, disk, img.(marks := img.marks[b := true], blocks := img.blocks[b := ZeroBlock()]))
    {
      BitAt(sb, disk, first, bi);
      ShowsMark(sb, disk, img, b, true);
      FreeBlock(img, b);
      disk := disk[BBlock(sb, first) := PutBit(disk[BBlock(sb, first)], bi, true)];
      ShowsData(sb, disk, img.(marks := img.marks[b := true]), b, ZeroBlock());
      disk := disk[b := ZeroBlock()];
    }

    /** bfree; freeing a free block is a panic. */
    method Bfree(b: nat)
      requires Formatted(sb, disk) && b < sb.size && Marked(sb, disk, b)
      modifies this`disk
      ensures disk == Mark(sb, old(disk), b, false)
      ensures forall x :: 0 <= x < sb.size ==> Marked(sb, disk, x) == (x != b && Marked(sb, old(disk), x))
    {
      forall x | 0 <= x < sb.size ensures Marked(sb, Mark(sb, disk, b, false), x) == (x != b && Marked(sb, disk, x)) {
        MarkedAfter(sb, disk, b, false, x);
      }
      Regions(sb, 0, b);
      var bp := disk[BBlock(sb, b)];
      var bi := b % BPB;
      disk := disk[BBlock(sb, b) := PutBit(bp, bi, false)];
    }

    /** What every allocation keeps: bytes of files, the dinodes, the other inodes and every slot in use. */
    twostate predicate OnlyMore()
      requires old(Valid()) && Valid()
      reads this
    {
      ip == old(ip).(addrs := ip.addrs) && More(old(img), img)
    }

    /** ip->addrs[s] = balloc(ip->dev), if there is none. */
    method FillAddr(s: nat) returns (ok: bool, addr: uint)
      requires Valid() && s <= NDIRECT
      modifies this`disk, this`ip, this`img
      ensures Valid() && OnlyMore()
      ensures ok ==> addr == ip.addrs[s] != 0
      ensures !ok ==> DiskFull()
      ensures forall i :: 0 <= i <= NDIRECT && i != s ==> ip.addrs[i] == old(ip).addrs[i]
      ensures old(ip.addrs[s]) != 0 ==> ok && disk == old(disk) && ip == old(ip) && img == old(img)
    {
      addr := ip.addrs[s];
      if addr != 0 {
        return true, addr;
      }
      ok, addr := Balloc();
      if ok {
        img := AfterGrow(img, s, addr);
        ip := ip.(addrs := SetAddr(ip.addrs, s, addr));
        assert forall t :: 0 <= t < NSLOTS && t != s ==> Slot(t) == old(Slot(t));
      }
    }

    /** a[k] = balloc(ip->dev) in the indirect block, if there is none. */
    method FillEntry(k: nat) returns (ok: bool, addr: uint)
      requires Valid() && k < NINDIRECT && ip.addrs[NDIRECT] != 0
      modifies this`disk, this`ip, this`img
      ensures Valid() && OnlyMore()
      ensures ok ==> addr == Slot(NDIRECT + 1 + k) != 0
      ensures !ok ==> DiskFull()
      ensures ip == old(ip)
      ensures old(Slot(NDIRECT + 1 + k)) != 0 ==> ok && disk == old(disk) && img == old(img)
    {
      var v := ip.addrs[NDIRECT];
      assert Place(img, inum, NDIRECT) && R(img, inum, NDIRECT) == v;
      var bp := disk[v];
      addr := Word(bp, k);
      if addr != 0 {
        return true, addr;
      }
      ok, addr := Balloc();
      if ok {
        PutWordSets(bp, k, addr);
        ghost var next := AfterEntry(img, k, addr, PutWord(bp, k, addr));
        ShowsData(sb, disk, img.(marks := img.marks[addr := true], blocks := img.blocks[addr := ZeroBlock()]), v,
            PutWord(bp, k, addr));
        disk := disk[v := PutWord(bp, k, addr)];
        img := next;
      }
    }

    /** bmap: the address of block bn of the file, allocating it if need be; false is
        the panic of balloc. */
    method Bmap(bn: nat) returns (ok: bool, addr: uint)
      requires Valid() && bn < MAXFILE
      modifies this`disk, this`ip, this`img
      ensures Valid() && OnlyMore()
      ensures ok ==> addr == Slot(SlotOf(bn)) != 0 && Meta(sb) <= addr < |disk|
      ensures !ok ==> DiskFull()
      ensures ok ==> ip.addrs[Head(bn)] != 0
      ensures forall i :: 0 <= i <= NDIRECT && i != Head(bn) ==> ip.addrs[i] == old(ip).addrs[i]
      ensures old(ip).addrs[Head(bn)] != 0 ==> ip == old(ip)
      ensures old(Slot(SlotOf(bn))) != 0 ==> ok && disk == old(disk) && ip == old(ip) && img == old(img)
    {
      if bn < NDIRECT {
        ok, addr := FillAddr(bn);
      } else {
        ok, addr := FillAddr(NDIRECT);
        if ok {
          ghost var half := img;
          ok, addr := FillEntry(bn - NDIRECT);
          MoreTrans(old(img), half, img);
        }
      }
      if ok {
        assert Place(img, inum, SlotOf(bn)) && R(img, inum, SlotOf(bn)) == addr;
      }
    }

    /** iupdate. */
    method Iupdate()
      requires Valid()
      modifies this`disk, this`img
      ensures Valid() && InSync() && img == AfterUpdate(old(img), ip)
    {
      Regions(sb, inum, 0);
      ShowsInode(sb, disk, img, inum, ip);
      img := AfterUpdate(img, ip);
      disk := disk[IBlock(inum) := PutInode(disk[IBlock(inum)], inum % IPB, ip)];
    }

    /** The length that readi settles on: what is asked for, up to the end of the file. */
    function Clip(off: uint, n: uint): (m: nat)
      requires off <= ip.size
      reads this
    {
      if off + n > ip.size then ip.size - off else n
    }

    /** The pass has come to the volume and inode as they are. */
    ghost predicate On(p: Pass)
      reads this
    {
      Valid() && p.img == img && p.ip == ip
    }

    /** bmap of the block for the next m bytes. */
    method Advance(at: nat, m: nat, ghost p: Pass) returns (ok: bool, addr: uint, ghost p': Pass)
      requires On(p) && at == p.off + p.tot && m > 0 && at % BSIZE + m <= BSIZE && at / BSIZE < MAXFILE
      modifies this`disk, this`ip, this`img
      ensures Valid() && OnlyMore() && (!ok ==> DiskFull())
      ensures ok ==> p' == p.(img := img, ip := ip, tot := p.tot + m)
      ensures ok ==> addr == Slot(SlotOf(at / BSIZE)) != 0 && Meta(sb) <= addr < |disk|
      ensures old(Slot(SlotOf(at / BSIZE))) != 0 ==> ok && disk == old(disk) && ip == old(ip) && img == old(img)
    {
      ok, addr := Bmap(at / BSIZE);
      p' := if ok then NextPass(p, img, ip, m) else p;
    }

    /** readi on a file: a slice of its bytes. Where a block is missing it allocates one, which holds zeroes as the
        missing one did. False is a panic, on a full disk or past the largest file. */
    method Readi(off: uint, n: uint) returns (ok: bool, r: int, dst: seq<byte>)
      requires Valid()
      modifies this`disk, this`ip, this`img
      ensures Valid() && OnlyMore()
      ensures !ok ==> off <= ip.size && Clip(off, n) > 0 && (DiskFull() || off + Clip(off, n) > MAXFILE * BSIZE)
      ensures off > ip.size || off + n >= WORD_LIMIT ==>
        ok && r == -1 && dst == [] && disk == old(disk) && ip == old(ip) && img == old(img)
      ensures ok && off <= ip.size && off + n < WORD_LIMIT ==>
                && r == |dst| == Clip(off, n) && Reads(old(img).blocks, old(ip).addrs, off, dst)
                && (img == old(img) <==> Covered(old(img).blocks, old(ip).addrs, off, r))
                && (ip == old(ip) <==> Addressed(old(ip).addrs, off, r))
      ensures off <= ip.size && off + n < WORD_LIMIT && off + Clip(off, n) <= MAXFILE * BSIZE ==>
                Covered(old(img).blocks, old(ip).addrs, off, Clip(off, n)) ==> ok && disk == old(disk)
    {
      if off > ip.size || off + n >= WORD_LIMIT {
        return true, -1, [];
      }
      var len := if off + n > ip.size then ip.size - off else n;
      ghost var g;
      ok, dst, g := ReadLoop(off, len);
      r := if ok then len else 0;
    }

    /** The loop of readi. */
    method ReadLoop(off: nat, len: nat) returns (ok: bool, dst: seq<byte>, ghost g: Read)
      requires Valid()
      modifies this`disk, this`ip, this`img
      ensures Valid() && OnlyMore()
      ensures !ok ==> len > 0
      ensures !ok ==> off + len > MAXFILE * BSIZE || (DiskFull() && !Covered(old(img).blocks, old(ip).addrs, off, len))
      ensures ok ==> g == Reading(Pass(old(img), old(ip), img, ip, off, len), old(disk), disk, dst)
    {
      dst := [];
      g := StartRead(img, ip, disk, off);
      while |dst| < len
        invariant Valid() && |dst| <= len
        invariant g == Reading(Pass(old(img), old(ip), img, ip, off, |dst|), old(disk), disk, dst)
        decreases len - |dst|
      {
        var chunk;
        ok, chunk, g := ReadChunk(off + |dst|, len - |dst|, g);
        if !ok {
          return;
        }
        dst := dst + chunk;
      }
      ok := true;
    }

    /** One round of readi's loop: up to left bytes, as far as the block goes. */
    method ReadChunk(at: nat, left: nat, ghost g: Read) returns (ok: bool, chunk: seq<byte>, ghost g': Read)
      requires On(g.p) && g.disk == disk && at == g.p.off + g.p.tot && left > 0
      modifies this`disk, this`ip, this`img
      ensures Valid() && More(g.p.v, img) && ip == g.p.q.(addrs := ip.addrs)
      ensures !ok ==>
        at + left > MAXFILE * BSIZE || (DiskFull() && !Covered(g.p.v.blocks, g.p.q.addrs, g.p.off, g.p.tot + left))
      ensures ok ==> 0 < |chunk| <= left
      ensures ok ==> g' == Reading(g.p.(img := img, ip := ip, tot := g.p.tot + |chunk|), g.d, disk, g.dst + chunk)
    {
      chunk, g' := [], g;
      if at / BSIZE >= MAXFILE {
        return false, chunk, g;
      }
      var m := if left < BSIZE - at % BSIZE then left else BSIZE - at % BSIZE;
      ok, chunk, g' := ReadBlock(at, m, g);
      if !ok {
        Uncovered(g.p, at, m, left);
      }
    }

    /** The next m bytes, all in one block. */
    method ReadBlock(at: nat, m: nat, ghost g: Read) returns (ok: bool, chunk: seq<byte>, ghost g': Read)
      requires On(g.p) && g.disk == disk && at == g.p.off + g.p.tot && m > 0 && at % BSIZE + m <= BSIZE &&
          at / BSIZE < MAXFILE
      modifies this`disk, this`ip, this`img
      ensures Valid() && More(g.p.v, img) && ip == g.p.q.(addrs := ip.addrs)
      ensures !ok ==> DiskFull() && old(Slot(SlotOf(at / BSIZE))) == 0
      ensures ok ==> |chunk| == m
      ensures ok ==> g' == Reading(g.p.(img := img, ip := ip, tot := g.p.tot + m), g.d, disk, g.dst + chunk)
    {
      chunk, g' := [], g;
      var addr; ghost var p;
      ok, addr, p := Advance(at, m, g.p);
      MoreTrans(g.p.v, old(img), img);
      if ok {
        chunk := disk[addr][at % BSIZE..at % BSIZE + m];
        ReadsBlock(img.blocks, ip.addrs, at, m);
        g' := NextRead(g, p, at, disk, chunk);
      }
    }

    /** One round of writei's loop: as far as the block goes. */
    method WriteChunk(src: seq<byte>, tot: nat, at: nat, ghost p: Pass) returns (ok: bool, m: nat, ghost p': Pass)
      requires On(p) && p.tot == tot < |src| && p.off + |src| <= MAXFILE * BSIZE && at == p.off + tot
      requires Spliced(p.v, img, p.off, src[..tot])
      modifies this`disk, this`ip, this`img
      ensures Valid() && (!ok ==> DiskFull())
      ensures ok ==> 0 < m <= |src| - tot && p' == p.(img := img, ip := ip, tot := tot + m)
      ensures ok ==> Spliced(p.v, img, p.off, src[..tot + m])
    {
      m := if |src| - tot < BSIZE - at % BSIZE then |src| - tot else BSIZE - at % BSIZE;
      ok, p' := WriteBlock(src, tot, at, m, p);
    }

    /** The next m bytes, all in one block. */
    method WriteBlock(src: seq<byte>, tot: nat, at: nat, m: nat, ghost p: Pass) returns (ok: bool, ghost p': Pass)
      requires On(p) && p.tot == tot < |src| && p.off + |src| <= MAXFILE * BSIZE && at == p.off + tot
      requires 0 < m <= |src| - tot && at % BSIZE + m <= BSIZE && at / BSIZE < MAXFILE
      requires Spliced(p.v, img, p.off, src[..tot])
      modifies this`disk, this`ip, this`img
      ensures Valid() && (!ok ==> DiskFull())
      ensures ok ==> p' == p.(img := img, ip := ip, tot := tot + m) && Spliced(p.v, img, p.off, src[..tot + m])
    {
      var addr;
      ok, addr, p' := Advance(at, m, p);
      if !ok {
        return;
      }
      SplicedSame(p.v, old(img), img, p.off, src[..tot]);
      SplicedChunk(p.v, img, p.off, src, tot, at, m, addr);
      var data := Patched(disk[addr], at % BSIZE, src, tot, m);
      PutBlock(at / BSIZE, addr, data);
      p' := PutData(p', at / BSIZE, data);
    }

    /** New contents of block bn of the file, which is at addr. */
    method PutBlock(bn: nat, addr: nat, data: Block)
      requires Valid() && bn < MAXFILE && addr == Slot(SlotOf(bn)) != 0 && Meta(sb) <= addr < |disk|
      modifies this`disk, this`img
      ensures Valid() && img == AfterData(old(img), bn, data)
    {
      ShowsData(sb, disk, img, addr, data);
      img := AfterData(img, bn, data);
      disk := disk[addr := data];
    }

    /** The loop of writei. */
    method WriteLoop(src: seq<byte>, off: uint) returns (ok: bool, ghost p: Pass)
      requires Valid() && off + |src| <= MAXFILE * BSIZE
      modifies this`disk, this`ip, this`img
      ensures Valid() && (!ok ==> DiskFull())
      ensures ok ==> p == Pass(old(img), old(ip), img, ip, off, |src|) && Spliced(old(img), img, off, src)
    {
      p := StartPass(img, ip, off);
      var tot := 0;
      while tot < |src|
        invariant 0 <= tot <= |src| && On(p) && p == Pass(old(img), old(ip), img, ip, off, tot)
        invariant Spliced(old(img), img, off, src[..tot])
        decreases |src| - tot
      {
        var m;
        ok, m, p := WriteChunk(src, tot, off + tot, p);
        if !ok {
          return;
        }
        tot := tot + m;
      }
      ok := true;
      assert src[..tot] == src;
    }

    /** writei on a file: exactly a splice. Out-of-range writes return -1 and change nothing; false is the panic of
        balloc, on a full disk. The dinode is the inode in memory afterwards if and only if the file got longer or
        no address was missing in the inode. */
    method Writei(src: seq<byte>, off: uint) returns (ok: bool, r: int)
      requires Valid() && |src| < WORD_LIMIT
      modifies this`disk, this`ip, this`img
      ensures Valid() && (!ok ==> DiskFull())
      ensures (ok && r == -1) <==> off > old(ip).size || off + |src| >= WORD_LIMIT || off + |src| > MAXFILE * BSIZE
      ensures ok && r == -1 ==> disk == old(disk) && ip == old(ip) && img == old(img)
      ensures ok && r != -1 ==>
                && r == |src| && Spliced(old(img), img, off, src) && Untouched(old(img), img)
                && ip == old(ip).(addrs := ip.addrs, size := if off + |src| > old(ip).size then off + |src|
                     else old(ip).size)
                && (old(Mapped()) ==> Mapped())
                && Have(ip.addrs) == Have(old(ip).addrs) + Heads(off, |src|) && Kept(old(ip).addrs, ip.addrs)
                && (off + |src| <= old(ip).size ==> img.dinodes == old(img).dinodes)
                && (old(InSync()) ==> (InSync() <==> off + |src| > old(ip).size || Addressed(old(ip).addrs, off,
                     |src|)))
    {
      if off > ip.size || off + |src| >= WORD_LIMIT {
        return true, -1;
      }
      if off + |src| > MAXFILE * BSIZE {
        return true, -1;
      }
      ghost var p;
      ok, p := WriteLoop(src, off);
      if !ok {
        return false, 0;
      }
      Extent(off, |src|, old(ip).size);
      HaveAfter(p);
      if |src| > 0 && off + |src| > ip.size {
        ghost var mid := img;
        ip := ip.(size := off + |src|);
        Iupdate();
        SplicedSame(old(img), mid, img, off, src);
        UntouchedTrans(old(img), mid, img);
      }
      return true, |src|;
    }

    /** The first loop of itrunc. */
    method TruncDirect()
      requires Valid()
      modifies this`disk, this`ip, this`img
      ensures Valid() && Untouched(old(img), img)
      ensures ip == old(ip).(addrs := ip.addrs) && ip.addrs[NDIRECT] == old(ip).addrs[NDIRECT]
      ensures forall i :: 0 <= i < NDIRECT ==> ip.addrs[i] == 0
    {
      var i := 0;
      while i < NDIRECT
        invariant 0 <= i <= NDIRECT && Valid() && Untouched(old(img), img)
        invariant ip == old(ip).(addrs := ip.addrs) && ip.addrs[NDIRECT] == old(ip).addrs[NDIRECT]
        invariant forall k :: 0 <= k < i ==> ip.addrs[k] == 0
      {
        if ip.addrs[i] != 0 {
          ghost var next := AfterFree(img, i);
          UntouchedTrans(old(img), img, next);
          ShowsMark(sb, disk, img, ip.addrs[i], false);
          Bfree(ip.addrs[i]);
          ip := ip.(addrs := SetAddr(ip.addrs, i, 0));
          img := next;
        }
        i := i + 1;
      }
    }

    /** The second loop of itrunc: frees what the indirect block a = disk[v] lists. On
        disk the list stays; g is the volume in which the entries freed are gone. */
    method TruncEntries(v: nat, a: Block) returns (ghost g: Image)
      requires Valid() && v == ip.addrs[NDIRECT] != 0 && v < |disk| && a == disk[v]
      modifies this`disk
      ensures Same(img, g) && g.tbl == img.tbl && g.dinodes == img.dinodes && Meta(sb) <= v < |g.blocks|
      ensures Shows(sb, disk, g.(blocks := g.blocks[v := a]))
      ensures NoEntries(g.blocks, ip.addrs) && Untouched(img, g)
    {
      g := img;
      assert Place(img, inum, NDIRECT) && R(img, inum, NDIRECT) == v;
      assert g.blocks[v := a] == g.blocks;
      var j := 0;
      while j < NINDIRECT
        invariant 0 <= j <= NINDIRECT && Same(img, g) && g.tbl == img.tbl && g.dinodes == img.dinodes
        invariant Shows(sb, disk, g.(blocks := g.blocks[v := a])) && Untouched(img, g)
        invariant forall k :: 0 <= k < NINDIRECT ==> Word(g.blocks[v], k) == if k < j then 0 else Word(a, k)
      {
        if Word(a, j) != 0 {
          g := TruncEntry(v, a, j, g);
        }
        j := j + 1;
      }
      forall s | NDIRECT < s < NSLOTS ensures Ref(g.blocks, ip.addrs, s) == 0 {
        assert Word(g.blocks[v], s - NDIRECT - 1) == 0;
      }
    }

    /** One round of that loop. */
    method TruncEntry(v: nat, a: Block, j: nat, ghost g: Image) returns (ghost next: Image)
      requires ShowsBut(g, v, a) && j < NINDIRECT && Word(a, j) != 0 && Untouched(img, g) && g.inum == img.inum
      requires forall k :: 0 <= k < NINDIRECT ==> Word(g.blocks[v], k) == if k < j then 0 else Word(a, k)
      modifies this`disk
      ensures Same(g, next) && next.tbl == g.tbl && next.dinodes == g.dinodes && ShowsBut(next, v, a) &&
          Untouched(img, next)
      ensures forall k :: 0 <= k < NINDIRECT ==> Word(next.blocks[v], k) == if k < j + 1 then 0 else Word(a, k)
    {
      PutWordSets(g.blocks[v], j, 0);
      assert Ref(g.blocks, g.tbl[inum], NDIRECT + 1 + j) == Word(g.blocks[v], j);
      next := AfterFreeEntry(g, j, PutWord(g.blocks[v], j, 0));
      UntouchedTrans(img, g, next);
      ShowsMark(sb, disk, g.(blocks := g.blocks[v := a]), Word(a, j), false);
      Bfree(Word(a, j));
      assert next.blocks[v := a] == g.blocks[v := a];
    }

    /** The disk shows g, except that the indirect block v still holds a. */
    ghost predicate ShowsBut(g: View, v: nat, a: Block)
      reads this
    {
      && inum < |g.tbl| && |g.tbl[inum]| == NDIRECT + 1 && g.inum == inum && v == g.tbl[inum][NDIRECT] != 0 &&
           v < |g.blocks|
      && Shows(sb, disk, g.(blocks := g.blocks[v := a]))
    }

    /** itrunc: every block of the file goes back to the bitmap, none is freed twice,
        and no other file notices. */
    method Itrunc()
      requires Valid()
      modifies this`disk, this`ip, this`img
      ensures Valid() && InSync() && Mapped() && Untouched(old(img), img)
      ensures ip == old(ip).(addrs := ip.addrs, size := 0)
      ensures forall t :: 0 <= t < NSLOTS ==> Slot(t) == 0
    {
      TruncDirect();
      var v := ip.addrs[NDIRECT];
      if v != 0 {
        ghost var half := img;
        assert Place(img, inum, NDIRECT) && R(img, inum, NDIRECT) == v;
        FreeIndirect(v);
        UntouchedTrans(old(img), half, img);
      }
      ghost var mid := img;
      ip := ip.(size := 0);
      Iupdate();
      UntouchedTrans(old(img), mid, img);
    }

    method FreeIndirect(v: nat)
      requires Valid() && v == ip.addrs[NDIRECT] != 0 && Meta(sb) <= v < |disk|
      modifies this`disk, this`ip, this`img
      ensures Valid() && Untouched(old(img), img)
      ensures ip == old(ip).(addrs := SetAddr(old(ip).addrs, NDIRECT, 0))
    {
      var a := disk[v];
      ghost var g := TruncEntries(v, a);
      ghost var freed := AfterFree(g, NDIRECT);
      Forgotten(g, NDIRECT);
      ShowsMark(sb, disk, g.(blocks := g.blocks[v := a]), v, false);
      Bfree(v);
      ghost var last := AfterStale(freed, v, a);
      UntouchedTrans(old(img), g, freed);
      UntouchedTrans(old(img), freed, last);
      ip := ip.(addrs := SetAddr(ip.addrs, NDIRECT, 0));
      img := last;
    }
  }
}
