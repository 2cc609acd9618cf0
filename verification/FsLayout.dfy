/** The on-disk format of fs.h: superblock numbers, dinodes in their blocks, the
    free bitmap, and the direct and indirect block addresses of a file. */
module FsLayout {
  import opened Blocks
  import opened Bitmap

  const NDIRECT := 12
  const NINDIRECT := WORDS
  const MAXFILE := NDIRECT + NINDIRECT
  /** Block addresses that an inode can hold: direct ones, the indirect block, and what is listed in it. */
  const NSLOTS := NDIRECT + 1 + NINDIRECT
  const DINODE_WORDS := 16
  const IPB := WORDS / DINODE_WORDS

  datatype Super = Super(size: nat, ninodes: nat)

  /** The first block behind boot block, superblock, inodes and bitmap. */
  function Meta(sb: Super): (m: nat) {
    sb.ninodes / IPB + 3 + sb.size / BPB + 1
  }

  function IBlock(i: nat): (b: nat) {
    i / IPB + 2
  }

  function BBlock(sb: Super, b: nat): (r: nat) {
    b / BPB + sb.ninodes / IPB + 3
  }

  ghost predicate Formatted(sb: Super, disk: Disk) {
    Meta(sb) <= sb.size <= |disk| && sb.size <= WORD_LIMIT
  }

  /** Inode blocks, bitmap blocks and data blocks do not overlap. */
  lemma Regions(sb: Super, i: nat, b: nat)
    ensures i < sb.ninodes ==> IBlock(i) < sb.ninodes / IPB + 3
    ensures sb.ninodes / IPB + 3 <= BBlock(sb, b)
    ensures b < sb.size ==> BBlock(sb, b) < Meta(sb)
  {
  }

  predicate Marked(sb: Super, disk: Disk, b: nat)
    requires Formatted(sb, disk) && b < sb.size
  {
    Regions(sb, 0, b);
    Bit(disk[BBlock(sb, b)], b % BPB)
  }

  // ---- Dinodes ----

  type ushort = x: int | 0 <= x < 0x1_0000

  datatype InodeData = Inode(kind: ushort, major: ushort, minor: ushort, nlink: ushort, size: uint, addrs: seq<uint>)
  type Inode = i: InodeData | |i.addrs| == NDIRECT + 1
    witness Inode(0, 0, 0, 0, 0, [0, 0, 0, 0, 0, 0, 0, 0, 0, 0, 0, 0, 0])

  function InodeWords(i: Inode): (ws: seq<uint>)
    ensures |ws| == DINODE_WORDS
  {
    [Pair(i.kind, i.major), Pair(i.minor, i.nlink), i.size] + i.addrs
  }

  function Pair(low: int, high: int): (w: uint)
    requires 0 <= low < 0x1_0000 && 0 <= high < 0x1_0000
  {
    low + 0x1_0000 * high
  }

  function WordsInode(ws: seq<uint>): (i: Inode)
    requires |ws| == DINODE_WORDS
  {
    var w0: int, w1: int := ws[0], ws[1];
    Inode(w0 % 0x1_0000, w0 / 0x1_0000, w1 % 0x1_0000, w1 / 0x1_0000, ws[2], ws[3..])
  }

  lemma WordsRoundTrip(i: Inode)
    ensures WordsInode(InodeWords(i)) == i
  {
    assert InodeWords(i)[3..] == i.addrs;
  }

  function PutWords(b: Block, at: nat, ws: seq<uint>): (r: Block)
    requires at + |ws| <= WORDS
  {
    if ws == [] then b
    else PutWord(PutWords(b, at, ws[..|ws| - 1]), at + |ws| - 1, ws[|ws| - 1])
  }

  lemma {:induction false} WordAfterPutWords(b: Block, at: nat, ws: seq<uint>, j: nat)
    requires at + |ws| <= WORDS && j < WORDS
    ensures Word(PutWords(b, at, ws), j) == if at <= j < at + |ws| then ws[j - at] else Word(b, j)
  {
    if ws != [] {
      WordAfterPutWords(b, at, ws[..|ws| - 1], j);
      WordAfterPut(PutWords(b, at, ws[..|ws| - 1]), at + |ws| - 1, ws[|ws| - 1], j);
    }
  }

  function GetWords(b: Block, at: nat, n: nat): (ws: seq<uint>)
    requires at + n <= WORDS
  {
    seq<uint>(n, j requires 0 <= j < n => Word(b, at + j))
  }

  /** Dinode k of an inode block. */
  function GetInode(b: Block, k: nat): (i: Inode)
    requires k < IPB
  {
    WordsInode(GetWords(b, DINODE_WORDS * k, DINODE_WORDS))
  }

  function PutInode(b: Block, k: nat, i: Inode): (r: Block)
    requires k < IPB
  {
    PutWords(b, DINODE_WORDS * k, InodeWords(i))
  }

  /** A stored dinode reads back, and its neighbours in the block stay. */
  lemma InodeAfterPut(b: Block, k: nat, i: Inode, k': nat)
    requires k < IPB && k' < IPB
    ensures GetInode(PutInode(b, k, i), k') == if k == k' then i else GetInode(b, k')
  {
    var r := PutInode(b, k, i);
    var got := GetWords(r, DINODE_WORDS * k', DINODE_WORDS);
    var was := GetWords(b, DINODE_WORDS * k', DINODE_WORDS);
    forall j | 0 <= j < DINODE_WORDS ensures got[j] == if k == k' then InodeWords(i)[j] else was[j] {
      WordAfterPutWords(b, DINODE_WORDS * k, InodeWords(i), DINODE_WORDS * k' + j);
    }
    if k == k' {
      assert got == InodeWords(i);
      WordsRoundTrip(i);
    } else {
      assert got == was;
    }
  }

  function DiskInode(sb: Super, disk: Disk, i: nat): (r: Inode)
    requires Formatted(sb, disk) && i < sb.ninodes
  {
    Regions(sb, i, 0);
    GetInode(disk[IBlock(i)], i % IPB)
  }

  // ---- Block addresses ----

  /** The block address in a slot of an inode, through the indirect block if need be. */
  function Ref(disk: Disk, addrs: seq<uint>, slot: nat): (b: uint)
    requires |addrs| == NDIRECT + 1 && slot < NSLOTS
  {
    if slot <= NDIRECT then addrs[slot]
    else if addrs[NDIRECT] == 0 || addrs[NDIRECT] >= |disk| then 0
    else Word(disk[addrs[NDIRECT]], slot - NDIRECT - 1)
  }

  /** The slot for block bn of a file. */
  function SlotOf(bn: nat): (s: nat)
    requires bn < MAXFILE
    ensures s < NSLOTS && s != NDIRECT
  {
    if bn < NDIRECT then bn else bn + 1
  }

  /** Byte k of a file; a byte without a block reads as zero. */
  function FileByte(disk: Disk, addrs: seq<uint>, k: nat): (b: byte)
    requires |addrs| == NDIRECT + 1 && k < MAXFILE * BSIZE
  {
    var v := Ref(disk, addrs, SlotOf(k / BSIZE));
    if v == 0 || v >= |disk| then 0 else disk[v][k % BSIZE]
  }
}
