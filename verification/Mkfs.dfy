/** mkfs.c: blocks and inodes are handed out in turn, and the bitmap is written last. */
module Mkfs {
  import opened Params
  import opened Blocks
  import opened Bitmap
  import opened FsLayout
  import opened FsExact
  import opened FsSteps
  import opened FsView
  import opened FsFiles

  // ---- The bitmap ----

  /** The block in which the first n bits are set. */
  function FirstBits(n: nat): (b: Block)
    requires n <= BPB
  {
    if n == 0 then ZeroBlock() else PutBit(FirstBits(n - 1), n - 1, true)
  }

  lemma {:induction false} FirstBitsMean(n: nat, k: nat)
    requires n <= BPB && k < BPB
    ensures Bit(FirstBits(n), k) <==> k < n
  {
    if n > 0 {
      FirstBitsMean(n - 1, k);
      BitAfter(FirstBits(n - 1), n - 1, true, k);
    } else {
      ZeroBits(k % 8);
    }
  }

  lemma {:induction false} ZeroBits(k: nat)
    ensures !NumBit(0, k)
  {
    if k > 0 {
      ZeroBits(k - 1);
    }
  }

  lemma ZeroInode(k: nat)
    requires k < IPB
    ensures GetInode(ZeroBlock(), k) == NOINODE
  {
    var ws := GetWords(ZeroBlock(), DINODE_WORDS * k, DINODE_WORDS);
    forall j | 0 <= j < DINODE_WORDS ensures ws[j] == 0 {
      ZeroWord(DINODE_WORDS * k + j);
    }
    assert ws[3..] == NOADDRS;
  }

  /** A sector of a new disk. */
  function Sector(b: int, superblock: Block): (r: Block) {
    if b == 1 then superblock else ZeroBlock()
  }

  lemma NewInodes(sb: Super, disk: Disk, dinodes: seq<Inode>)
    requires Formatted(sb, disk) && (forall b :: 0 <= b < |disk| && b != 1 ==> disk[b] == ZeroBlock())
    requires |dinodes| == sb.ninodes && forall j :: 0 <= j < sb.ninodes ==> dinodes[j] == NOINODE
    ensures ShowsInodes(sb, disk, dinodes)
  {
    forall i | 0 <= i < sb.ninodes ensures DiskInode(sb, disk, i) == NOINODE {
      Regions(sb, i, 0);
      ZeroInode(i % IPB);
    }
  }

  /** An inode in use as mkfs makes it: type 1 is a directory and type 2 a file, with one link. */
  predicate Headed(ip: Inode, kind: nat) {
    ip.kind == kind && ip.major == 0 && ip.minor == 0 && ip.nlink == 1
  }

  /** Inode 1 is a directory, and the n inodes after it are files. */
  ghost predicate Kinds(dinodes: seq<Inode>, n: nat) {
    n + 2 <= |dinodes| && Headed(dinodes[1], 1) && forall j :: 2 <= j < n + 2 ==> Headed(dinodes[j], 2)
  }

  /** At most sizes and addresses change. */
  ghost predicate HeadsKept(was: seq<Inode>, now: seq<Inode>) {
    |was| == |now| && forall j :: 0 <= j < |was| ==> now[j] == was[j].(size := now[j].size, addrs := now[j].addrs)
  }

  lemma KindsStay(was: seq<Inode>, now: seq<Inode>, n: nat)
    requires Kinds(was, n) && HeadsKept(was, now)
    ensures Kinds(now, n)
  {
  }

  lemma HeadsTrans(was: seq<Inode>, mid: seq<Inode>, now: seq<Inode>)
    requires HeadsKept(was, mid) && HeadsKept(mid, now)
    ensures HeadsKept(was, now)
  {
    forall j | 0 <= j < |was| ensures now[j] == was[j].(size := now[j].size, addrs := now[j].addrs) {
      assert mid[j] == was[j].(size := mid[j].size, addrs := mid[j].addrs);
    }
  }

  lemma KindsNext(was: seq<Inode>, mid: seq<Inode>, now: seq<Inode>, n: nat)
    requires Kinds(was, n) && n + 2 < |was| && HeadsKept(mid, now)
    requires HeadsKept(was[n + 2 := Inode(T_FILE, 0, 0, 1, 0, NOADDRS)], mid)
    ensures Kinds(now, n + 1)
  {
    var added := was[n + 2 := Inode(T_FILE, 0, 0, 1, 0, NOADDRS)];
    assert Kinds(added, n + 1);
    KindsStay(added, mid, n + 1);
    KindsStay(mid, now, n + 1);
  }

  // ---- Blocks for one inode ----

  /** Slots stay as they are, except for some of the inode that changes that were not in use. */
  ghost predicate SlotsKept(v: Image, r: Image) {
    && |r.tbl| == |v.tbl|
    && forall j, t :: Place(v, j, t) && (j != v.inum || Ref(v.blocks, v.tbl[j], t) != 0) ==>
         Ref(r.blocks, r.tbl[j], t) == Ref(v.blocks, v.tbl[j], t)
  }

  lemma ChangeKeeps(v: Image, r: Image, s0: nat, b: nat)
    requires OneChange(v, r, v.inum, s0, b) && R(v, v.inum, s0) == 0
    ensures SlotsKept(v, r)
  {
    forall j, t | Place(v, j, t) && (j != v.inum || Ref(v.blocks, v.tbl[j], t) != 0)
      ensures Ref(r.blocks, r.tbl[j], t) == Ref(v.blocks, v.tbl[j], t) {
      assert R(r, j, t) == R(v, j, t);
    }
  }

  /** Only the inode that changes, and blocks that only it refers to, are different. */
  ghost predicate OwnChange(v: Image, r: Image) {
    && Same(v, r) && r.dinodes == v.dinodes && SlotsKept(v, r)
    && (forall j :: 0 <= j < |v.tbl| && j != v.inum ==> r.tbl[j] == v.tbl[j])
  }

  lemma OwnTrans(a: Image, b: Image, c: Image)
    requires OwnChange(a, b) && OwnChange(b, c)
    ensures OwnChange(a, c)
  {
    forall j, t | Place(a, j, t) && (j != a.inum || Ref(a.blocks, a.tbl[j], t) != 0)
      ensures Ref(c.blocks, c.tbl[j], t) == Ref(a.blocks, a.tbl[j], t) {
      assert Place(b, j, t) && Ref(b.blocks, b.tbl[j], t) == Ref(a.blocks, a.tbl[j], t);
    }
  }

  lemma SlotsButTrans(a: Disk, addrs: seq<uint>, b: Disk, c: Disk, addrs': seq<uint>, s: nat)
    requires |addrs| == |addrs'| == NDIRECT + 1
    requires SlotsBut(a, addrs, b, addrs', s) && SlotsBut(b, addrs', c, addrs', NDIRECT)
    ensures SlotsBut(a, addrs, c, addrs', s)
  {
    forall t | 0 <= t < NSLOTS && t != NDIRECT && t != s ensures Ref(c, addrs', t) == Ref(a, addrs, t) {
      assert Ref(b, addrs', t) == Ref(a, addrs, t);
    }
  }

  /** The blocks of a file are those for its first n bytes, and no more. */
  ghost predicate FitsTo(blocks: Disk, addrs: seq<uint>, n: nat) {
    && |addrs| == NDIRECT + 1 && (addrs[NDIRECT] != 0 ==> NDIRECT * BSIZE < n)
    && forall bn :: 0 <= bn < MAXFILE ==> (Ref(blocks, addrs, SlotOf(bn)) != 0 <==> bn * BSIZE < n)
  }

  /** The slots other than s, and the one for the indirect block, are the same. */
  ghost predicate SlotsBut(blocks: Disk, addrs: seq<uint>, blocks': Disk, addrs': seq<uint>, s: nat)
    requires |addrs| == |addrs'| == NDIRECT + 1
  {
    forall t :: 0 <= t < NSLOTS && t != NDIRECT && t != s ==> Ref(blocks', addrs', t) == Ref(blocks, addrs, t)
  }

  /** A block for the bytes from start on makes room for m more. */
  lemma FitsChunk(blocks: Disk, addrs: seq<uint>, blocks': Disk, addrs': seq<uint>, start: nat, m: nat)
    requires FitsTo(blocks, addrs, start) && |addrs'| == NDIRECT + 1 && m > 0 && start % BSIZE + m <= BSIZE &&
        start < MAXFILE * BSIZE
    requires Ref(blocks', addrs', SlotOf(start / BSIZE)) != 0
    requires SlotsBut(blocks, addrs, blocks', addrs', SlotOf(start / BSIZE))
    requires start / BSIZE < NDIRECT ==> addrs'[NDIRECT] == addrs[NDIRECT]
    ensures FitsTo(blocks', addrs', start + m)
  {
    forall bn | 0 <= bn < MAXFILE ensures Ref(blocks', addrs', SlotOf(bn)) != 0 <==> bn * BSIZE < start + m {
      InChunk(start, m, bn * BSIZE);
      if bn != start / BSIZE {
        assert SlotOf(bn) != SlotOf(start / BSIZE);
        assert Ref(blocks, addrs, SlotOf(bn)) != 0 <==> bn * BSIZE < start;
      }
    }
  }

  /** A file is as long as its inode says and has the blocks for that. */
  ghost predicate Fitted(v: Image, j: nat)
    requires j < |v.tbl|
  {
    v.dinodes[j].size <= MAXFILE * BSIZE && FitsTo(v.blocks, v.tbl[j], v.dinodes[j].size)
  }

  /** The bytes of file j start with s. */
  ghost predicate Starts(v: Image, j: nat, s: seq<byte>) {
    j < |v.tbl| && |s| <= MAXFILE * BSIZE && forall k :: 0 <= k < |s| ==> FileByte(v.blocks, v.tbl[j], k) == s[k]
  }

  /** Another size for inode i leaves the bytes and the other files as they are. */
  lemma Resized(v: Image, r: Image, i: nat)
    requires i < |v.tbl| && |r.dinodes| == |v.dinodes| && r.dinodes == v.dinodes[i := r.dinodes[i]] &&
        r.blocks == v.blocks && r.tbl == v.tbl
    requires forall j :: 0 <= j < |v.tbl| ==> Fitted(v, j)
    ensures forall j :: 0 <= j < |v.tbl| && j != i ==> Fitted(r, j) && Files(r)[j] == Files(v)[j]
    ensures Starts(r, i, Files(v)[i])
  {
    assert Fitted(v, i);
    forall j | 0 <= j < |v.tbl| && j != i ensures Fitted(r, j) && Files(r)[j] == Files(v)[j] {
      assert Fitted(v, j);
    }
  }

  /** The inode that changes, among inodes that fit: it may get longer, the others stay. */
  lemma Appended(v: Image, r: Image, p: seq<byte>)
    requires Same(v, r) && SlotsKept(v, r) && Spliced(v, r, v.dinodes[v.inum].size, p)
    requires forall j :: 0 <= j < |v.tbl| ==> Fitted(v, j)
    requires |r.dinodes| == |v.dinodes| && r.dinodes == v.dinodes[v.inum := r.dinodes[v.inum]] &&
        r.dinodes[v.inum].size == v.dinodes[v.inum].size + |p|
    requires r.dinodes[v.inum].size <= MAXFILE * BSIZE && FitsTo(r.blocks, r.tbl[v.inum], r.dinodes[v.inum].size)
    ensures forall j :: 0 <= j < |v.tbl| ==> Fitted(r, j)
    ensures Files(r) == Files(v)[v.inum := Contents(v, v.inum) + p]
  {
    forall j | 0 <= j < |v.tbl| && j != v.inum ensures Fitted(r, j) {
      assert Fitted(v, j);
      forall bn | 0 <= bn < MAXFILE ensures Ref(r.blocks, r.tbl[j], SlotOf(bn)) == Ref(v.blocks, v.tbl[j], SlotOf(bn)) {
        assert Place(v, j, SlotOf(bn));
      }
    }
    forall j | 0 <= j < |v.tbl| ensures Contents(r, j) == if j == v.inum then Contents(v, j) + p else Contents(v, j) {
      assert Fitted(v, j);
      forall k | 0 <= k < |Contents(r, j)|
        ensures Contents(r, j)[k] == (if j == v.inum then Contents(v, j) + p else Contents(v, j))[k] {
        assert FileByte(r.blocks, r.tbl[j], k) == SpliceByte(v.blocks, v.tbl[j], j == v.inum, v.dinodes[v.inum].size,
            p, k);
      }
    }
  }

  // ---- The disk under construction ----

  /** The blocks below n are handed out and the others zeroed; but for the bitmap, the disk shows v. */
  ghost predicate Building(sb: Super, disk: Disk, n: nat, v: View) {
    && Formatted(sb, disk) && Meta(sb) <= n <= sb.size < BPB && v.meta == Meta(sb) && v.size == sb.size
    && ShowsInodes(sb, disk, v.dinodes) && ShowsBlocks(sb, disk, v.blocks) && FirstMarks(v.marks, n, sb.size)
    && (forall b :: n <= b < sb.size ==> disk[b] == ZeroBlock())
  }

  ghost predicate FirstMarks(marks: seq<bool>, n: nat, size: nat) {
    |marks| == size && forall b :: 0 <= b < size ==> marks[b] == (b < n)
  }

  /** No inode has blocks. */
  ghost predicate NoFiles(v: Image) {
    forall j :: 0 <= j < |v.tbl| ==> v.dinodes[j] == NOINODE && v.tbl[j] == NOADDRS
  }

  lemma NewFiles(v: Image)
    requires NoFiles(v)
    ensures Settled(v) && forall j :: 0 <= j < |v.tbl| ==> Fitted(v, j) && Files(v)[j] == []
  {
    forall j | 0 <= j < |v.tbl| ensures Fitted(v, j) {
      assert forall s: nat :: s < NSLOTS ==> Ref(v.blocks, NOADDRS, s) == 0;
    }
  }

  /** Taking the next block changes nothing on disk. */
  lemma BuildingTake(sb: Super, disk: Disk, n: nat, v: View)
    requires Building(sb, disk, n, v) && n < sb.size
    ensures n < |v.marks| && n < |v.blocks| && !v.marks[n]
    ensures Building(sb, disk, n + 1, v.(marks := v.marks[n := true], blocks := v.blocks[n := ZeroBlock()]))
  {
  }

  lemma BuildingData(sb: Super, disk: Disk, n: nat, v: View, x: nat, data: Block)
    requires Building(sb, disk, n, v) && Meta(sb) <= x < n
    ensures x < |v.blocks| && Building(sb, disk[x := data], n, v.(blocks := v.blocks[x := data]))
  {
    InodesKept(sb, disk, v.dinodes, x, data);
  }

  lemma BuildingInode(sb: Super, disk: Disk, n: nat, v: View, i: nat, ip: Inode)
    requires Building(sb, disk, n, v) && i < sb.ninodes
    ensures i < |v.dinodes| && Building(sb, Update(sb, disk, i, ip), n, v.(dinodes := v.dinodes[i := ip]))
  {
    Regions(sb, i, 0);
    InodeWritten(sb, disk, v.dinodes, i, ip);
  }

  lemma NewVolume(sb: Super, disk: Disk)
    requires Meta(sb) <= sb.size == |disk| < BPB && sb.ninodes > 1
    requires forall b :: 0 <= b < |disk| && b != 1 ==> disk[b] == ZeroBlock()
    ensures Building(sb, disk, Meta(sb), EmptyView(Meta(sb), disk, sb.size, sb.ninodes))
    ensures NoFiles(EmptyView(Meta(sb), disk, sb.size, sb.ninodes))
  {
    NewInodes(sb, disk, EmptyView(Meta(sb), disk, sb.size, sb.ninodes).dinodes);
  }

  lemma BuildingTable(sb: Super, disk: Disk, n: nat, v: View, w: View)
    requires Building(sb, disk, n, v) && w == v.(tbl := w.tbl, inum := w.inum)
    ensures Building(sb, disk, n, w)
  {
  }

  class Builder {
    const sb: Super
    var disk: Disk
    var freeblock: nat
    var freeinode: nat
    var din: Inode             // the inode that iappend is changing
    ghost var img: Image       // what the disk will show once its bitmap is written

    ghost predicate Valid()
      reads this
    {
      Building(sb, disk, freeblock, img)
    }

    /** Within iappend: din is what the table says about the inode that changes. */
    ghost predicate Editing()
      reads this
    {
      Valid() && img.tbl[img.inum] == din.addrs
    }

    ghost function Slot(t: int): (b: uint)
      requires 0 <= t < NSLOTS
      reads this
    {
      Ref(img.blocks, din.addrs, t)
    }

    /** Blocks are added to the inode that changes, and no byte of a file. */
    twostate predicate OnlyMore()
      reads this
    {
      && din == old(din).(addrs := din.addrs) && freeinode == old(freeinode)
      && OwnChange(old(img), img) && SameBytes(old(img), img)
    }

    /** A new disk with its superblock: all blocks zeroed, metadata blocks in use. */
    constructor (sb: Super, superblock: Block)
      requires Meta(sb) <= sb.size < BPB && sb.ninodes > 1
      ensures Ready() && this.sb == sb && freeinode == 1 && |disk| == sb.size && freeblock == Meta(sb)
      ensures forall j :: 0 <= j < sb.ninodes ==> Files(img)[j] == []
    {
      this.sb := sb;
      disk := seq<Block>(sb.size, b => Sector(b, superblock));
      freeblock, freeinode, din := Meta(sb), 1, NOINODE;
      new;
      img := EmptyView(Meta(sb), disk, sb.size, sb.ninodes);
      NewVolume(sb, disk);
      NewFiles(img);
    }

    /** The blocks of the inode that changes have been handed out. */
    lemma Below(t: nat)
      requires Editing() && t < NSLOTS && Slot(t) != 0
      ensures Meta(sb) <= Slot(t) < freeblock && Slot(t) < |disk| && img.blocks[Slot(t)] == disk[Slot(t)]
    {
      assert Place(img, img.inum, t) && R(img, img.inum, t) == Slot(t);
      RefMarked(img, img.inum, t);
    }

    /** din.addrs[s] = freeblock++, if there is none. False stands for a full disk, which mkfs does not check. */
    method FillAddr(s: nat) returns (ok: bool)
      requires Editing() && s <= NDIRECT
      modifies this
      ensures Editing() && OnlyMore() && (if ok then din.addrs[s] != 0 else freeblock == sb.size)
      ensures SlotsBut(old(img).blocks, old(din).addrs, img.blocks, din.addrs, s)
      ensures s < NDIRECT ==> din.addrs[NDIRECT] == old(din).addrs[NDIRECT]
    {
      if din.addrs[s] != 0 {
        return true;
      }
      if freeblock == sb.size {
        return false;
      }
      GrowChange(img, img.inum, s, freeblock);
      ChangeKeeps(img, AfterGrow(img, s, freeblock), s, freeblock);
      BuildingTake(sb, disk, freeblock, img);
      ghost var taken := img.(marks := img.marks[freeblock := true], blocks := img.blocks[freeblock := ZeroBlock()]);
      BuildingTable(sb, disk, freeblock + 1, taken, AfterGrow(img, s, freeblock));
      img := AfterGrow(img, s, freeblock);
      din := din.(addrs := SetAddr(din.addrs, s, freeblock));
      freeblock := freeblock + 1;
      return true;
    }

    /** indirect[k] = freeblock++, if there is none. */
    method FillEntry(k: nat) returns (ok: bool)
      requires Editing() && k < NINDIRECT && din.addrs[NDIRECT] != 0
      modifies this
      ensures Editing() && OnlyMore() && (if ok then Slot(NDIRECT + 1 + k) != 0 else freeblock == sb.size)
      ensures SlotsBut(old(img).blocks, old(din).addrs, img.blocks, din.addrs, NDIRECT + 1 + k)
    {
      var v := din.addrs[NDIRECT];
      Below(NDIRECT);
      var indirect := disk[v];
      if Word(indirect, k) != 0 {
        return true;
      }
      if freeblock == sb.size {
        return false;
      }
      PutWordSets(indirect, k, freeblock);
      BuildingTake(sb, disk, freeblock, img);
      ghost var taken := img.(marks := img.marks[freeblock := true], blocks := img.blocks[freeblock := ZeroBlock()]);
      BuildingData(sb, disk, freeblock + 1, taken, v, PutWord(indirect, k, freeblock));
      GrowEntryKeeps(img, img.inum, k, freeblock, PutWord(indirect, k, freeblock));
      ghost var next := AfterEntry(img, k, freeblock, PutWord(indirect, k, freeblock));
      ChangeKeeps(img, next, NDIRECT + 1 + k, freeblock);
      img := next;
      disk := disk[v := PutWord(indirect, k, freeblock)];
      freeblock := freeblock + 1;
      return true;
    }

    /** The block for fbn, in the first half of iappend's loop. */
    method Bmap(fbn: nat) returns (ok: bool, x: nat)
      requires Editing() && fbn < MAXFILE
      modifies this
      ensures Editing() && OnlyMore()
      ensures if ok then x == Slot(SlotOf(fbn)) != 0 else freeblock == sb.size
      ensures SlotsBut(old(img).blocks, old(din).addrs, img.blocks, din.addrs, SlotOf(fbn))
      ensures fbn < NDIRECT ==> din.addrs[NDIRECT] == old(din).addrs[NDIRECT]
    {
      x := 0;
      if fbn < NDIRECT {
        ok := FillAddr(fbn);
        if ok {
          x := din.addrs[fbn];
        }
      } else {
        ok := FillAddr(NDIRECT);
        if ok {
          ghost var half := img;
          ok := FillEntry(fbn - NDIRECT);
          SameBytesTrans(old(img), half, img);
          if ok {
            Below(NDIRECT);
            x := Word(disk[din.addrs[NDIRECT]], fbn - NDIRECT);
          }
        }
      }
    }

    /** New contents of block fbn. */
    method WriteBlock(fbn: nat, x: nat, data: Block)
      requires Editing() && fbn < MAXFILE && x == Slot(SlotOf(fbn)) != 0
      modifies this`disk, this`img
      ensures Editing() && img == AfterData(old(img), fbn, data) && OwnChange(old(img), img)
      ensures SlotsBut(old(img).blocks, din.addrs, img.blocks, din.addrs, NDIRECT) && Slot(SlotOf(fbn)) != 0
    {
      Below(SlotOf(fbn));
      DataBlock(img, fbn);
      DataKeeps(img, x, data);
      BuildingData(sb, disk, freeblock, img, x, data);
      img := AfterData(img, fbn, data);
      disk := disk[x := data];
    }

    /** The second half of that loop: m bytes of p, from tot on, into block x of the file. */
    method FillChunk(p: seq<byte>, off: nat, tot: nat, m: nat, x: nat, ghost was: Image)
      requires Editing() && 0 < m && tot + m <= |p| && off + |p| <= MAXFILE * BSIZE && (off + tot) % BSIZE + m <= BSIZE
      requires was.inum == img.inum && Spliced(was, img, off, p[..tot]) && x == Slot(SlotOf((off + tot) / BSIZE)) != 0
      modifies this`disk, this`img
      ensures Editing() && OwnChange(old(img), img) && Slot(SlotOf((off + tot) / BSIZE)) != 0
      ensures SlotsBut(old(img).blocks, din.addrs, img.blocks, din.addrs, NDIRECT)
      ensures Spliced(was, img, off, p[..tot + m])
    {
      var at := off + tot;
      Below(SlotOf(at / BSIZE));
      SplicedChunk(was, img, off, p, tot, at, m, x);
      WriteBlock(at / BSIZE, x, Patched(disk[x], at % BSIZE, p, tot, m));
    }

    /** One round of iappend's loop. */
    method AppendChunk(p: seq<byte>, off: nat, tot: nat, ghost was: Image) returns (ok: bool, m: nat)
      requires Editing() && tot < |p| && off + |p| <= MAXFILE * BSIZE
      requires was.inum == img.inum && Spliced(was, img, off, p[..tot])
      modifies this
      ensures Editing() && freeinode == old(freeinode) && din == old(din).(addrs := din.addrs) &&
          OwnChange(old(img), img)
      ensures SlotsBut(old(img).blocks, old(din).addrs, img.blocks, din.addrs, SlotOf((off + tot) / BSIZE))
      ensures (off + tot) / BSIZE < NDIRECT ==> din.addrs[NDIRECT] == old(din).addrs[NDIRECT]
      ensures !ok ==> freeblock == sb.size
      ensures ok ==>
        && 0 < m <= |p| - tot && (off + tot) % BSIZE + m <= BSIZE
        && Spliced(was, img, off, p[..tot + m]) && Slot(SlotOf((off + tot) / BSIZE)) != 0
    {
      var at := off + tot;
      var x;
      ok, x := Bmap(at / BSIZE);
      m := if |p| - tot < BSIZE - at % BSIZE then |p| - tot else BSIZE - at % BSIZE;
      if ok {
        ghost var mid := img;
        SplicedSame(was, old(img), mid, off, p[..tot]);
        FillChunk(p, off, tot, m, x, was);
        OwnTrans(old(img), mid, img);
        SlotsButTrans(old(img).blocks, old(din).addrs, mid.blocks, img.blocks, din.addrs, SlotOf(at / BSIZE));
      }
    }

    /** The loop of iappend. */
    method AppendLoop(p: seq<byte>, off: nat) returns (ok: bool)
      requires Editing() && off + |p| <= MAXFILE * BSIZE
      requires FitsTo(img.blocks, din.addrs, off)
      modifies this
      ensures Editing() && freeinode == old(freeinode) && din == old(din).(addrs := din.addrs) &&
          OwnChange(old(img), img)
      ensures if ok then Spliced(old(img), img, off, p) else freeblock == sb.size
      ensures ok ==> FitsTo(img.blocks, din.addrs, off + |p|)
    {
      ghost var was := img;
      var tot := 0;
      while tot < |p|
        invariant 0 <= tot <= |p| && Editing() && freeinode == old(freeinode) && din == old(din).(addrs := din.addrs)
        invariant OwnChange(was, img) && Spliced(was, img, off, p[..tot])
        invariant FitsTo(img.blocks, din.addrs, off + tot)
        decreases |p| - tot
      {
        ghost var blocks, addrs := img.blocks, din.addrs;
        var m;
        ok, m := AppendChunk(p, off, tot, was);
        if !ok {
          return;
        }
        FitsChunk(blocks, addrs, img.blocks, din.addrs, off + tot, m);
        tot := tot + m;
      }
      ok := true;
      assert p[..tot] == p;
    }

    /** Between calls: all inodes are on disk, every file fits, and inodes not handed out are empty. */
    ghost predicate Ready()
      reads this
    {
      && Valid() && Settled(img) && 1 <= freeinode <= sb.ninodes
      && (forall j :: 0 <= j < sb.ninodes ==> Fitted(img, j))
      && (forall j :: freeinode <= j < sb.ninodes ==> img.dinodes[j] == NOINODE)
    }

    /** winode */
    method Winode(inum: nat, ip: Inode)
      requires Valid() && inum == img.inum
      modifies this`disk, this`img
      ensures Valid() && img == AfterUpdate(old(img), ip)
    {
      Regions(sb, inum, 0);
      BuildingInode(sb, disk, freeblock, img, inum, ip);
      disk := disk[IBlock(inum) := PutInode(disk[IBlock(inum)], inum % IPB, ip)];
      img := AfterUpdate(img, ip);
    }

    /** Turns to another inode: rinode. */
    method Rinode(inum: nat)
      requires Valid() && Settled(img) && inum < sb.ninodes
      modifies this`din, this`img
      ensures Editing() && img == old(img).(inum := inum) && din == img.dinodes[inum]
    {
      Regions(sb, inum, 0);
      din := DiskInode(sb, disk, inum);
      BuildingTable(sb, disk, freeblock, img, Focus(img, inum));
      img := Focus(img, inum);
    }

    /** ialloc: the next inode, with one link and no blocks. */
    method Ialloc(kind: ushort) returns (inum: nat)
      requires Ready() && freeinode < sb.ninodes
      modifies this
      ensures Ready() && inum == old(freeinode) && freeinode == inum + 1
      ensures img.dinodes == old(img).dinodes[inum := Inode(kind, 0, 0, 1, 0, NOADDRS)]
      ensures Files(img) == Files(old(img))
    {
      inum := freeinode;
      freeinode := freeinode + 1;
      img := Focus(img, inum);
      assert Fitted(img, inum);
      Winode(inum, Inode(kind, 0, 0, 1, 0, NOADDRS));
      forall j | 0 <= j < sb.ninodes ensures Fitted(img, j) && Contents(img, j) == Contents(old(img), j) {
        assert Fitted(old(img), j);
      }
    }

    /** iappend: the bytes are added at the end of the file. False stands for a file that gets too long, where
        mkfs stops, and for a full disk. */
    method Iappend(inum: nat, p: seq<byte>) returns (ok: bool)
      requires Ready() && inum < freeinode
      modifies this
      ensures ok ==> Ready() && freeinode == old(freeinode)
      ensures !ok ==> |Files(old(img))[inum]| + |p| > MAXFILE * BSIZE || freeblock == sb.size
      ensures ok ==> Files(img) == Files(old(img))[inum := Files(old(img))[inum] + p]
      ensures ok ==> HeadsKept(old(img).dinodes, img.dinodes)
    {
      Rinode(inum);
      assert Fitted(old(img), inum);
      var off := din.size;
      if off + |p| > MAXFILE * BSIZE {
        return false;
      }
      ghost var was := img;
      ok := AppendLoop(p, off);
      if !ok {
        return;
      }
      din := din.(size := off + |p|);
      ghost var mid := img;
      Winode(inum, din);
      SplicedSame(was, mid, img, off, p);
      forall j | 0 <= j < sb.ninodes ensures Fitted(was, j) && Files(was)[j] == Files(old(img))[j] {
        assert Fitted(old(img), j);
      }
      Appended(was, img, p);
    }

    /** The fix to the size of the root directory: up to a whole number of blocks, and a block more if it was one
        already. The blocks below the size are then all there if and only if it was not. */
    method FixRootSize()
      requires Ready() && ROOTINO < freeinode
      modifies this
      ensures Valid() && freeinode == old(freeinode) && RootResized(old(img), img)
    {
      Rinode(ROOTINO);
      assert Fitted(old(img), ROOTINO);
      var off := (din.size / BSIZE + 1) * BSIZE;
      RootSizeFits(img.blocks, din.addrs, din.size, off);
      din := din.(size := off);
      Winode(ROOTINO, din);
      Resized(old(img), img, ROOTINO);
    }

    /** balloc: the bitmap, in which the blocks handed out are marked. */
    method WriteBitmap()
      requires Valid()
      modifies this`disk
      ensures Shows(sb, disk, img)
    {
      var buf := ZeroBlock();
      var i := 0;
      while i < freeblock
        invariant 0 <= i <= freeblock && buf == FirstBits(i)
      {
        buf := PutBit(buf, i, true);
        i := i + 1;
      }
      Regions(sb, 0, 0);
      BitmapShows(sb, disk, img.dinodes, img.marks, freeblock);
      disk := disk[BBlock(sb, 0) := buf];
    }

    /** The first n items are on the disk, and nothing else. */
    ghost predicate Holds(items: seq<Item>, n: nat)
      reads this
    {
      n <= |items| && Ready() && freeinode == n + 2 && HoldFirst(Files(img), items, n) && Kinds(img.dinodes, n)
    }

    /** The finished disk shows that volume. */
    ghost predicate Made(items: seq<Item>)
      reads this
    {
      Shows(sb, disk, img) && |img.tbl| == sb.ninodes && Filled(img, items)
    }

    /** One round of the copying loop: up to 512 bytes of the file from at on. */
    method AppendPiece(inum: nat, data: seq<byte>, at: nat, ghost was: seq<seq<byte>>) returns (ok: bool, cc: nat)
      requires Ready() && inum < freeinode && at < |data| && inum < |was|
      requires Files(img) == was[inum := was[inum] + data[..at]]
      modifies this
      ensures ok ==> Ready() && freeinode == old(freeinode) && 0 < cc <= |data| - at
      ensures ok ==> Files(img) == was[inum := was[inum] + data[..at + cc]]
      ensures ok ==> HeadsKept(old(img).dinodes, img.dinodes)
      ensures !ok ==> |was[inum]| + |data| > MAXFILE * BSIZE || freeblock == sb.size
    {
      cc := if |data| - at < BSIZE then |data| - at else BSIZE;
      ok := Iappend(inum, data[at..at + cc]);
      assert was[inum] + data[..at] + data[at..at + cc] == was[inum] + data[..at + cc];
    }

    /** The copying loop. */
    method AppendAll(inum: nat, data: seq<byte>) returns (ok: bool)
      requires Ready() && inum < freeinode
      modifies this
      ensures ok ==> Ready() && freeinode == old(freeinode)
      ensures !ok ==> |Files(old(img))[inum]| + |data| > MAXFILE * BSIZE || freeblock == sb.size
      ensures ok ==> Files(img) == Files(old(img))[inum := Files(old(img))[inum] + data]
      ensures ok ==> HeadsKept(old(img).dinodes, img.dinodes)
    {
      var at := 0;
      ghost var was, heads := Files(img), img.dinodes;
      assert was[inum] + data[..0] == was[inum];
      while at < |data|
        invariant 0 <= at <= |data| && Ready() && freeinode == old(freeinode)
        invariant Files(img) == was[inum := was[inum] + data[..at]] && HeadsKept(heads, img.dinodes)
      {
        ghost var mid := img.dinodes;
        var cc;
        ok, cc := AppendPiece(inum, data, at, was);
        if !ok {
          return;
        }
        HeadsTrans(heads, mid, img.dinodes);
        at := at + cc;
      }
      assert data[..at] == data;
      ok := true;
    }

    /** One item: an inode, an entry in the root directory, and the contents. */
    method AddItem(items: seq<Item>, n: nat) returns (ok: bool)
      requires Holds(items, n) && n < |items|
      modifies this
      ensures ok ==> Holds(items, n + 1)
      ensures !ok ==> freeblock == sb.size || TooMuch(sb, items)
    {
      if freeinode == sb.ninodes {
        return false;
      }
      var inum := Ialloc(T_FILE);
      ok := Iappend(ROOTINO, Dirent(inum, items[n].name));
      if !ok {
        return;
      }
      ghost var mid := img.dinodes;
      ok := AppendAll(inum, items[n].data);
      HoldNext(Files(old(img)), items, n);
      if ok {
        KindsNext(old(img).dinodes, mid, img.dinodes, n);
      }
    }

    /** main: the root directory, the items, the fix to the root's size, the bitmap. */
    method MakeFs(items: seq<Item>) returns (ok: bool)
      requires Ready() && freeinode == 1 && forall j :: 0 <= j < sb.ninodes ==> Files(img)[j] == []
      modifies this
      ensures if ok then Made(items) else freeblock == sb.size || TooMuch(sb, items)
    {
      ok := MakeRoot(items);
      var n := 0;
      while ok && n < |items|
        invariant if ok then n <= |items| && Holds(items, n) else freeblock == sb.size || TooMuch(sb, items)
      {
        ok := AddItem(items, n);
        n := n + 1;
      }
      if !ok {
        return;
      }
      assert items[..n] == items;
      Finish(items);
    }

    /** What main does after the last item. */
    method Finish(ghost items: seq<Item>)
      requires Holds(items, |items|)
      modifies this
      ensures Made(items)
    {
      FixRoot(items);
      WriteBitmap();
    }

    method FixRoot(ghost items: seq<Item>)
      requires Holds(items, |items|)
      modifies this
      ensures Valid() && Filled(img, items)
    {
      assert items[..|items|] == items && Fitted(img, ROOTINO);
      FixRootSize();
      RootFilled(old(img), img, items);
    }

    method MakeRoot(ghost items: seq<Item>) returns (ok: bool)
      requires Ready() && freeinode == 1 && forall j :: 0 <= j < sb.ninodes ==> Files(img)[j] == []
      modifies this
      ensures if ok then Holds(items, 0) else freeblock == sb.size || TooMuch(sb, items)
    {
      if freeinode == sb.ninodes {
        return false;
      }
      var root := Ialloc(T_DIR);
      assert |Files(img)[root]| == 0;
      ok := Iappend(root, Dirent(root, ['.' as int]));
      if ok {
        ok := Iappend(root, Dirent(root, ['.' as int, '.' as int]));
      }
      assert items[..0] == [];
    }
  }

  const T_DIR := 1
  const T_FILE := 2

  /** A file to be put on the disk. */
  datatype Item = Item(name: seq<byte>, data: seq<byte>)

  /** A directory entry: the inode number and the name, cut or filled up to DIRSIZ bytes. */
  function Dirent(inum: nat, name: seq<byte>): (s: seq<byte>)
    ensures |s| == 16
  {
    [inum % 256, inum / 256 % 256] + (if |name| >= DIRSIZ then name[..DIRSIZ]
        else name + seq<byte>(DIRSIZ - |name|, _ => 0))
  }

  /** The root directory with entries for itself and for the items, which have inodes 2 and up. */
  function RootBytes(items: seq<Item>): (s: seq<byte>)
    ensures |s| == 16 * (|items| + 2)
  {
    if items == [] then Dirent(ROOTINO, ['.' as int]) + Dirent(ROOTINO, ['.' as int, '.' as int])
    else RootBytes(items[..|items| - 1]) + Dirent(|items| + 1, items[|items| - 1].name)
  }

  /** The root directory has the entries of the first n items, which are files 2 and up; the others are empty. */
  ghost predicate HoldFirst(files: seq<seq<byte>>, items: seq<Item>, n: nat) {
    && n <= |items| && n + 2 <= |files| && files[ROOTINO] == RootBytes(items[..n])
    && (forall i :: 0 <= i < n ==> files[i + 2] == items[i].data)
    && (forall j :: n + 2 <= j < |files| ==> files[j] == [])
  }

  lemma HoldNext(files: seq<seq<byte>>, items: seq<Item>, n: nat)
    requires HoldFirst(files, items, n) && n < |items| && n + 2 < |files|
    ensures HoldFirst(files[ROOTINO := files[ROOTINO] + Dirent(n + 2,
        items[n].name)][n + 2 := files[n + 2] + items[n].data], items, n + 1)
  {
    assert items[..n + 1][..n] == items[..n];
  }

  /** A volume in which item i is file i + 2, the root directory starts with the entries, and no other inode is in
      use. The root has the blocks for its size unless its entries filled its last block. */
  ghost predicate Filled(v: Image, items: seq<Item>) {
    && Settled(v) && ROOTINO < |v.tbl| && (forall j :: 0 <= j < |v.tbl| && j != ROOTINO ==> Fitted(v, j))
    && Kinds(v.dinodes, |items|) && (forall j :: |items| + 2 <= j < |v.dinodes| ==> v.dinodes[j] == NOINODE)
    && (forall i :: 0 <= i < |items| ==> i + 2 < |v.tbl| && Files(v)[i + 2] == items[i].data)
    && Starts(v, ROOTINO, RootBytes(items)) && (Fitted(v, ROOTINO) <==> (|items| + 2) % 32 != 0)
    && v.dinodes[ROOTINO].size == ((|items| + 2) / 32 + 1) * BSIZE
    && FitsTo(v.blocks, v.tbl[ROOTINO], 16 * (|items| + 2)) && 16 * (|items| + 2) <= MAXFILE * BSIZE
  }

  /** The root directory gets a larger size, a multiple of the block size, and nothing else changes. Its blocks are
      then all there if and only if the size was no such multiple. */
  ghost predicate RootResized(v: Image, r: Image) {
    && Settled(r) && ROOTINO < |v.tbl| == |r.tbl| && HeadsKept(v.dinodes, r.dinodes)
    && (forall j :: 0 <= j < |v.tbl| && j != ROOTINO ==>
         Fitted(r, j) && Files(r)[j] == Files(v)[j] && r.dinodes[j] == v.dinodes[j])
    && Starts(r, ROOTINO, Files(v)[ROOTINO])
    && var n := v.dinodes[ROOTINO].size;
       && (Fitted(r, ROOTINO) <==> n % BSIZE != 0)
       && r.dinodes[ROOTINO].size == (n / BSIZE + 1) * BSIZE && FitsTo(r.blocks, r.tbl[ROOTINO], n)
  }

  lemma RootFilled(v: Image, r: Image, items: seq<Item>)
    requires RootResized(v, r) && Fitted(v, ROOTINO) && HoldFirst(Files(v), items, |items|)
    requires Kinds(v.dinodes, |items|) && forall j :: |items| + 2 <= j < |v.dinodes| ==> v.dinodes[j] == NOINODE
    ensures Filled(r, items)
  {
    assert items[..|items|] == items;
    WholeBlocks(|items| + 2);
    KindsStay(v.dinodes, r.dinodes, |items|);
  }

  /** Too many items for the inodes or for the root directory, or an item longer than a file can be. */
  predicate TooMuch(sb: Super, items: seq<Item>) {
    || |items| + 2 > sb.ninodes || |RootBytes(items)| > MAXFILE * BSIZE
    || exists i :: 0 <= i < |items| && |items[i].data| > MAXFILE * BSIZE
  }

  lemma WholeBlocks(n: nat)
    ensures 16 * n % BSIZE == 0 <==> n % 32 == 0
    ensures 16 * n / BSIZE == n / 32
  {
  }

  lemma RootSizeFits(blocks: Disk, addrs: seq<uint>, n: nat, off: nat)
    requires FitsTo(blocks, addrs, n) && n <= MAXFILE * BSIZE && off == (n / BSIZE + 1) * BSIZE
    ensures off <= MAXFILE * BSIZE && FitsTo(blocks, addrs, off) <==> n % BSIZE != 0
  {
    if n % BSIZE == 0 && n < MAXFILE * BSIZE {
      assert Ref(blocks, addrs, SlotOf(n / BSIZE)) == 0;
    }
  }

  lemma OneBitmap(sb: Super, disk: Disk, b: nat)
    requires Formatted(sb, disk) && sb.size < BPB && b < sb.size
    ensures BBlock(sb, 0) < |disk| && Marked(sb, disk, b) == Bit(disk[BBlock(sb, 0)], b)
  {
    Regions(sb, 0, 0);
    assert BBlock(sb, b) == BBlock(sb, 0) && b % BPB == b;
  }

  /** A single bitmap block with the first n bits set shows the first n blocks marked. */
  lemma BitmapShows(sb: Super, disk: Disk, dinodes: seq<Inode>, marks: seq<bool>, n: nat)
    requires Formatted(sb, disk) && n <= sb.size < BPB && ShowsInodes(sb, disk, dinodes)
    requires |marks| == sb.size && forall b :: 0 <= b < sb.size ==> marks[b] == (b < n)
    ensures BBlock(sb, 0) < Meta(sb)
    ensures ShowsMarks(sb, disk[BBlock(sb, 0) := FirstBits(n)], marks) &&
        ShowsInodes(sb, disk[BBlock(sb, 0) := FirstBits(n)], dinodes)
  {
    Regions(sb, 0, 0);
    var disk' := disk[BBlock(sb, 0) := FirstBits(n)];
    forall b | 0 <= b < sb.size ensures Marked(sb, disk', b) == marks[b] {
      OneBitmap(sb, disk', b);
      FirstBitsMean(n, b);
    }
    InodesKept(sb, disk, dinodes, BBlock(sb, 0), FirstBits(n));
  }
}
