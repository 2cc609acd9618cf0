/** The format of fs.h byte by byte, as the kernel and mkfs agree on it. */
module FsFormat {
  import opened Options
  import opened Blocks
  import opened Bitmap
  import opened FsLayout
  import Directories
  import Mkfs

  function Two(b: Block, i: nat): (n: nat)
    requires i + 1 < BSIZE
  {
    var low: int, high: int := b[i], b[i + 1];
    low + 256 * high
  }

  function Four(b: Block, i: nat): (n: nat)
    requires i + 3 < BSIZE
  {
    Two(b, i) + 65536 * Two(b, i + 2)
  }

  /** Inode i is the 64 bytes from 64 * (i % 8) on of block i / 8 + 2: four short numbers, the size, 13 addresses. */
  lemma DinodeOnDisk(sb: Super, disk: Disk, i: nat)
    requires Formatted(sb, disk) && i < sb.ninodes
    ensures i / 8 + 2 < |disk|
    ensures var (ip, b, at) := (DiskInode(sb, disk, i), disk[i / 8 + 2], 64 * (i % 8));
      && ip.kind == Two(b, at) && ip.major == Two(b, at + 2) && ip.minor == Two(b, at + 4)
      && ip.nlink == Two(b, at + 6) && ip.size == Four(b, at + 8)
      && forall j :: 0 <= j < 13 ==> ip.addrs[j] == Four(b, at + 12 + 4 * j)
  {
    Regions(sb, i, 0);
    DinodeBytes(disk[i / 8 + 2], i % 8);
  }

  lemma DinodeBytes(b: Block, k: nat)
    requires k < 8
    ensures var (ip, at) := (GetInode(b, k), 64 * k);
      && ip.kind == Two(b, at) && ip.major == Two(b, at + 2) && ip.minor == Two(b, at + 4)
      && ip.nlink == Two(b, at + 6) && ip.size == Four(b, at + 8)
      && forall j :: 0 <= j < 13 ==> ip.addrs[j] == Four(b, at + 12 + 4 * j)
  {
    var ws := GetWords(b, 16 * k, 16);
    forall j | 0 <= j < 16 ensures ws[j] == Four(b, 64 * k + 4 * j) {
      WordIsFour(b, 16 * k + j);
    }
    assert ws[0] == Four(b, 64 * k + 4 * 0) && ws[1] == Four(b, 64 * k + 4 * 1) && ws[2] == Four(b, 64 * k + 4 * 2);
    Halves(b, 64 * k);
    Halves(b, 64 * k + 4);
    forall j | 0 <= j < 13 ensures ws[3..][j] == Four(b, 64 * k + 12 + 4 * j) {
      assert ws[3 + j] == Four(b, 64 * k + 4 * (3 + j));
    }
  }

  lemma Halves(b: Block, i: nat)
    requires i + 3 < BSIZE
    ensures Four(b, i) % 65536 == Two(b, i) && Four(b, i) / 65536 == Two(b, i + 2)
  {
  }

  lemma WordIsFour(b: Block, i: nat)
    requires i < WORDS
    ensures Word(b, i) == Four(b, 4 * i)
  {
  }

  /** Byte k of a file is in the block that addrs[k / 512] names, or, from block 12 on, the block that the number
      k / 512 - 12 in the block addrs[12] names. */
  lemma FileByteOnDisk(disk: Disk, addrs: seq<uint>, k: nat)
    requires |addrs| == 13 && k < 140 * 512
    ensures k / 512 < 12 && 0 < addrs[k / 512] < |disk| ==>
      FileByte(disk, addrs, k) == disk[addrs[k / 512]][k % 512]
    ensures k / 512 >= 12 && 0 < addrs[12] < |disk| ==>
      var v := Four(disk[addrs[12]], 4 * (k / 512 - 12));
      0 < v < |disk| ==> FileByte(disk, addrs, k) == disk[v][k % 512]
  {
  }

  /** The values of the eight bits of a byte. */
  const POWERS := [1, 2, 4, 8, 16, 32, 64, 128]

  lemma {:induction false} NumBitIs(x: nat, k: nat)
    requires k < 8
    ensures NumBit(x, k) <==> x / POWERS[k] % 2 == 1
  {
    if k > 0 {
      NumBitIs(x / 2, k - 1);
      HalfFirst(x, k);
    }
  }

  lemma HalfFirst(x: nat, k: nat)
    requires 0 < k < 8
    ensures x / 2 / POWERS[k - 1] == x / POWERS[k]
  {
    if k <= 4 {
      assert x / 2 / 2 == x / 4 && x / 2 / 4 == x / 8 && x / 2 / 8 == x / 16;
    } else {
      assert x / 2 / 16 == x / 32 && x / 2 / 32 == x / 64 && x / 2 / 64 == x / 128;
    }
  }

  /** Block b is marked by bit b % 8 of byte b % 4096 / 8 of block b / 4096 + ninodes / 8 + 3. */
  lemma MarkOnDisk(sb: Super, disk: Disk, b: nat)
    requires Formatted(sb, disk) && b < sb.size
    ensures b / 4096 + sb.ninodes / 8 + 3 < |disk|
    ensures Marked(sb, disk, b) <==>
      disk[b / 4096 + sb.ninodes / 8 + 3][b % 4096 / 8] / POWERS[b % 8] % 2 == 1
  {
    Regions(sb, 0, b);
    BitPlace(b);
    var (x, k) := (disk[b / 4096 + sb.ninodes / 8 + 3][b % 4096 / 8], b % 8);
    NumBitIs(x, k);
  }

  lemma BitPlace(b: nat)
    ensures b % 4096 % 8 == b % 8 && b % 4096 / 8 < 512
  {
  }

  // ---- The root directory of mkfs, as dirlookup reads it ----

  /** The characters before the first zero byte. */
  function Text(bs: seq<byte>): (s: string) {
    if bs == [] || bs[0] == 0 then [] else [bs[0] as char] + Text(bs[1..])
  }

  /** An entry of 16 bytes: the inode number, low byte first, and the name. */
  function EntryOf(s: seq<byte>): (e: Directories.Entry)
    requires |s| == 16
  {
    var low: int, high: int := s[0], s[1];
    Directories.Entry(low + 256 * high, Text(s[2..]))
  }

  /** These bytes of a directory hold these entries, 16 bytes each. */
  ghost predicate Encodes(s: seq<byte>, es: seq<Directories.Entry>) {
    |s| == 16 * |es| && forall k: nat :: k < |es| ==> es[k] == EntryOf(s[16 * k..16 * k + 16])
  }

  /** The name as it fits into an entry. */
  function Cut(name: seq<byte>): (r: seq<byte>) {
    if |name| > 14 then name[..14] else name
  }

  predicate NoZeros(name: seq<byte>) {
    forall i :: 0 <= i < |name| ==> name[i] != 0
  }

  /** Item names that make entries of their own: not empty, without zero bytes, not dots, all different. */
  ghost predicate Distinguished(items: seq<Mkfs.Item>) {
    && (forall i :: 0 <= i < |items| ==>
         && items[i].name != [] && NoZeros(items[i].name)
         && Text(Cut(items[i].name)) != "." && Text(Cut(items[i].name)) != "..")
    && (forall i, j :: 0 <= i < j < |items| ==> Text(Cut(items[i].name)) != Text(Cut(items[j].name)))
  }

  /** The inode number and the name of entry k of the root directory. */
  function InumAt(k: nat): (n: nat) {
    if k < 2 then 1 else k
  }

  function NameAt(items: seq<Mkfs.Item>, k: nat): (name: seq<byte>)
    requires k < |items| + 2
  {
    if k == 0 then [46] else if k == 1 then [46, 46] else items[k - 2].name
  }

  lemma {:induction false} RootEntry(items: seq<Mkfs.Item>, k: nat)
    requires k < |items| + 2
    ensures Mkfs.RootBytes(items)[16 * k..16 * k + 16] == Mkfs.Dirent(InumAt(k), NameAt(items, k))
  {
    var s := Mkfs.RootBytes(items);
    if items == [] {
      assert s[0..16] == Mkfs.Dirent(1, [46]) && s[16..32] == Mkfs.Dirent(1, [46, 46]);
    } else {
      var n := |items| - 1;
      if k < n + 2 {
        RootEntry(items[..n], k);
        assert s[16 * k..16 * k + 16] == Mkfs.RootBytes(items[..n])[16 * k..16 * k + 16];
      } else {
        assert s[16 * k..16 * k + 16] == Mkfs.Dirent(k, items[n].name);
      }
    }
  }

  lemma DirentEntry(inum: nat, name: seq<byte>)
    requires inum < 65536 && NoZeros(name)
    ensures EntryOf(Mkfs.Dirent(inum, name)) == Directories.Entry(inum, Text(Cut(name)))
  {
    var s := Mkfs.Dirent(inum, name);
    if |name| >= 14 {
      assert s[2..] == name[..14] && (|name| == 14 ==> name[..14] == name);
    } else {
      var pad := seq<byte>(14 - |name|, _ => 0);
      assert s[2..] == name + pad;
      TextPadded(name, pad);
    }
  }

  lemma {:induction false} TextPadded(name: seq<byte>, pad: seq<byte>)
    requires NoZeros(name) && (pad == [] || pad[0] == 0)
    ensures Text(name + pad) == Text(name)
  {
    if name != [] {
      assert (name + pad)[1..] == name[1..] + pad;
      TextPadded(name[1..], pad);
    } else {
      assert name + pad == pad;
    }
  }

  lemma EntryAt(items: seq<Mkfs.Item>, k: nat)
    requires Distinguished(items) && k < |items| + 2 <= 65536
    ensures EntryOf(Mkfs.RootBytes(items)[16 * k..16 * k + 16]) ==
      Directories.Entry(InumAt(k), Text(Cut(NameAt(items, k))))
  {
    RootEntry(items, k);
    NameHasNoZeros(items, k);
    DirentEntry(InumAt(k), NameAt(items, k));
  }

  lemma NameHasNoZeros(items: seq<Mkfs.Item>, k: nat)
    requires Distinguished(items) && k < |items| + 2
    ensures NoZeros(NameAt(items, k))
  {
  }

  lemma NamesDiffer(items: seq<Mkfs.Item>, j: nat, k: nat)
    requires Distinguished(items) && j < k < |items| + 2
    ensures Text(Cut(NameAt(items, j))) != Text(Cut(NameAt(items, k)))
  {
    Dots();
  }

  /** On the disk of mkfs, dirlookup finds item i as inode i + 2, and both dots as the root. */
  lemma RootLookup(items: seq<Mkfs.Item>, es: seq<Directories.Entry>, k: nat)
    requires Distinguished(items) && Encodes(Mkfs.RootBytes(items), es) && k < |items| + 2 <= 65536
    ensures Directories.Find(es, Text(Cut(NameAt(items, k)))) == Some(InumAt(k))
  {
    EntryAt(items, k);
    forall j: nat | j < k ensures es[j].name != es[k].name {
      EntryAt(items, j);
      NamesDiffer(items, j, k);
    }
    FirstFound(es, k);
  }

  lemma FirstFound(es: seq<Directories.Entry>, k: nat)
    requires k < |es| && es[k].inum != 0 && forall j :: 0 <= j < k ==> es[j].name != es[k].name
    ensures Directories.Find(es, es[k].name) == Some(es[k].inum)
  {
    assert Directories.SlotOf(es, es[k].name) == k;
  }

  lemma Dots()
    ensures Text(Cut([46])) == "." && Text(Cut([46, 46])) == ".." && "." != ".."
  {
    assert [46][1..] == [] && [46, 46][1..] == [46] && |"."| != |".."|;
  }
}
