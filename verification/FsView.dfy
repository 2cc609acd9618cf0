/** How a disk in the format of fs.h shows a volume, and what block writes do to it. */
module FsView {
  import opened Blocks
  import opened Bitmap
  import opened FsLayout
  import opened FsExact
  import opened FsSteps

  ghost predicate ShowsMarks(sb: Super, disk: Disk, marks: seq<bool>)
    requires Formatted(sb, disk)
  {
    |marks| == sb.size && forall b {:trigger Marked(sb, disk, b)} :: 0 <= b < sb.size ==>
        marks[b] == Marked(sb, disk, b)
  }

  ghost predicate ShowsInodes(sb: Super, disk: Disk, dinodes: seq<Inode>)
    requires Formatted(sb, disk)
  {
    |dinodes| == sb.ninodes && forall i {:trigger DiskInode(sb, disk, i)} :: 0 <= i < sb.ninodes ==>
        dinodes[i] == DiskInode(sb, disk, i)
  }

  ghost predicate ShowsBlocks(sb: Super, disk: Disk, blocks: Disk) {
    |blocks| == |disk| && forall x :: Meta(sb) <= x < |disk| ==> blocks[x] == disk[x]
  }

  /** The bitmap, the dinodes and the data blocks on disk are those of v. */
  ghost predicate Shows(sb: Super, disk: Disk, v: View) {
    && Formatted(sb, disk) && v.meta == Meta(sb) && v.size == sb.size
    && ShowsMarks(sb, disk, v.marks) && ShowsInodes(sb, disk, v.dinodes) && ShowsBlocks(sb, disk, v.blocks)
  }

  // ---- Bitmap writes ----

  function Mark(sb: Super, disk: Disk, b: nat, on: bool): (r: Disk)
    requires Formatted(sb, disk) && b < sb.size
    ensures Formatted(sb, r)
  {
    Regions(sb, 0, b);
    disk[BBlock(sb, b) := PutBit(disk[BBlock(sb, b)], b % BPB, on)]
  }

  lemma MarkedAfter(sb: Super, disk: Disk, b: nat, on: bool, x: nat)
    requires Formatted(sb, disk) && b < sb.size && x < sb.size
    ensures Marked(sb, Mark(sb, disk, b, on), x) <==> if x == b then on else Marked(sb, disk, x)
  {
    Regions(sb, 0, b);
    Regions(sb, 0, x);
    if x / BPB == b / BPB {
      BitAfter(disk[BBlock(sb, b)], b % BPB, on, x % BPB);
      assert x % BPB == b % BPB ==> x == b;
    }
  }

  /** balloc and bfree change one mark. */
  lemma ShowsMark(sb: Super, disk: Disk, v: View, b: nat, on: bool)
    requires Shows(sb, disk, v) && b < sb.size
    ensures Shows(sb, Mark(sb, disk, b, on), v.(marks := v.marks[b := on]))
  {
    var disk' := Mark(sb, disk, b, on);
    forall x | 0 <= x < sb.size ensures v.marks[b := on][x] == Marked(sb, disk', x) {
      MarkedAfter(sb, disk, b, on, x);
    }
    forall i | 0 <= i < sb.ninodes ensures DiskInode(sb, disk', i) == DiskInode(sb, disk, i) {
      Regions(sb, i, b);
    }
    Regions(sb, 0, b);
  }

  // ---- Data and inode writes ----

  lemma InodesKept(sb: Super, disk: Disk, dinodes: seq<Inode>, x: nat, data: Block)
    requires Formatted(sb, disk) && ShowsInodes(sb, disk, dinodes) && sb.ninodes / IPB + 3 <= x < |disk|
    ensures ShowsInodes(sb, disk[x := data], dinodes)
  {
    var disk' := disk[x := data];
    forall i | 0 <= i < sb.ninodes ensures DiskInode(sb, disk', i) == DiskInode(sb, disk, i) {
      Regions(sb, i, 0);
    }
  }

  /** Writing a data block changes that block. */
  lemma ShowsData(sb: Super, disk: Disk, v: View, x: nat, data: Block)
    requires Shows(sb, disk, v) && Meta(sb) <= x < |disk|
    ensures Shows(sb, disk[x := data], v.(blocks := v.blocks[x := data]))
  {
    var disk' := disk[x := data];
    forall b | 0 <= b < sb.size ensures Marked(sb, disk', b) == Marked(sb, disk, b) {
      Regions(sb, 0, b);
    }
    InodesKept(sb, disk, v.dinodes, x, data);
  }

  /** iupdate. */
  function Update(sb: Super, disk: Disk, i: nat, ip: Inode): (r: Disk)
    requires Formatted(sb, disk) && i < sb.ninodes
    ensures Formatted(sb, r)
  {
    Regions(sb, i, 0);
    disk[IBlock(i) := PutInode(disk[IBlock(i)], i % IPB, ip)]
  }

  lemma InodesAfter(sb: Super, disk: Disk, i: nat, ip: Inode, j: nat)
    requires Formatted(sb, disk) && i < sb.ninodes && j < sb.ninodes
    ensures DiskInode(sb, Update(sb, disk, i, ip), j) == if j == i then ip else DiskInode(sb, disk, j)
  {
    Regions(sb, i, 0);
    Regions(sb, j, 0);
    if IBlock(j) == IBlock(i) {
      InodeAfterPut(disk[IBlock(i)], i % IPB, ip, j % IPB);
    }
  }

  lemma InodeWritten(sb: Super, disk: Disk, dinodes: seq<Inode>, i: nat, ip: Inode)
    requires Formatted(sb, disk) && ShowsInodes(sb, disk, dinodes) && i < sb.ninodes
    ensures ShowsInodes(sb, Update(sb, disk, i, ip), dinodes[i := ip])
  {
    forall j | 0 <= j < sb.ninodes ensures DiskInode(sb, Update(sb, disk, i, ip), j) == dinodes[i := ip][j] {
      InodesAfter(sb, disk, i, ip, j);
    }
  }

  /** Writing a dinode changes that dinode only. */
  lemma ShowsInode(sb: Super, disk: Disk, v: View, i: nat, ip: Inode)
    requires Shows(sb, disk, v) && i < sb.ninodes
    ensures Shows(sb, Update(sb, disk, i, ip), v.(dinodes := v.dinodes[i := ip]))
  {
    var disk' := Update(sb, disk, i, ip);
    forall b | 0 <= b < sb.size ensures Marked(sb, disk', b) == Marked(sb, disk, b) {
      Regions(sb, i, b);
    }
    InodeWritten(sb, disk, v.dinodes, i, ip);
    Regions(sb, i, 0);
  }

  /** The bytes of a file, read off the disk itself. */
  lemma BytesOnDisk(sb: Super, disk: Disk, v: View, j: nat, k: nat)
    requires Shows(sb, disk, v) && Exact(v) && j < |v.tbl| && k < MAXFILE * BSIZE
    ensures FileByte(disk, v.tbl[j], k) == FileByte(v.blocks, v.tbl[j], k)
  {
    var s := SlotOf(k / BSIZE);
    assert Place(v, j, s) && R(v, j, s) == Ref(v.blocks, v.tbl[j], s);
    assert Place(v, j, NDIRECT) && R(v, j, NDIRECT) == v.tbl[j][NDIRECT];
  }
}
