/** The steps of fs.c on a consistent volume: what each keeps, and what it does to the bytes of files. */
module FsSteps {
  import opened Blocks
  import opened FsLayout
  import opened FsExact

  /** The bitmap is exact for the block addresses in tbl, and these are the ones in
      the dinodes, except perhaps for the inode inum that is changing in memory. */
  ghost predicate Consistent(v: View) {
    && v.inum < |v.tbl| && Exact(v)
    && forall j :: 0 <= j < |v.tbl| && j != v.inum ==> v.tbl[j] == v.dinodes[j].addrs
  }

  const NOADDRS: seq<uint> := [0, 0, 0, 0, 0, 0, 0, 0, 0, 0, 0, 0, 0]
  const NOINODE: Inode := Inode(0, 0, 0, 0, 0, NOADDRS)

  /** A volume of metadata and empty inodes only. */
  ghost function EmptyView(meta: nat, blocks: Disk, size: nat, n: nat): (v: View)
    requires 0 < meta <= size <= |blocks| && size <= WORD_LIMIT && n > 0
    ensures Consistent(v) && v.meta == meta && v.size == size && v.blocks == blocks && |v.tbl| == n
    ensures forall b :: 0 <= b < size ==> v.marks[b] == (b < meta)
    ensures forall j :: 0 <= j < n ==> v.dinodes[j] == NOINODE && v.tbl[j] == NOADDRS
  {
    var v := View(meta, size, seq(size, b => b < meta), blocks, seq(n, _ => NOINODE), seq(n, _ => NOADDRS), 0);
    assert forall j, s :: Place(v, j, s) ==> R(v, j, s) == 0;
    v
  }

  type Image = v: View | Consistent(v) ghost witness EmptyView(1, [ZeroBlock()], 1, 1)

  ghost predicate Same(v: View, r: View) {
    r.meta == v.meta && r.size == v.size && r.inum == v.inum && |r.blocks| == |v.blocks| && |r.tbl| == |v.tbl|
  }

  // ---- What the other inodes keep ----

  /** The inodes other than the one that changes are the same, and so are all blocks that they refer to. */
  ghost predicate Untouched(a: Image, b: Image) {
    && Same(a, b) && |b.dinodes| == |a.dinodes|
    && (forall j :: 0 <= j < |a.tbl| && j != a.inum ==> b.tbl[j] == a.tbl[j] && b.dinodes[j] == a.dinodes[j])
    && (forall j, s :: Place(a, j, s) && j != a.inum && R(a, j, s) != 0 ==>
         b.blocks[R(a, j, s)] == a.blocks[R(a, j, s)])
  }

  lemma UntouchedSlots(a: Image, b: Image)
    requires Untouched(a, b)
    ensures forall j, s :: Place(a, j, s) && j != a.inum ==> R(b, j, s) == R(a, j, s)
  {
    forall j, s | Place(a, j, s) && j != a.inum ensures R(b, j, s) == R(a, j, s) {
      assert Place(a, j, NDIRECT) && R(a, j, NDIRECT) == a.tbl[j][NDIRECT];
    }
  }

  lemma UntouchedTrans(a: Image, b: Image, c: Image)
    requires Untouched(a, b) && Untouched(b, c)
    ensures Untouched(a, c)
  {
    UntouchedSlots(a, b);
  }

  /** Files other than the one that changes have the same bytes. */
  lemma UntouchedBytes(a: Image, b: Image, j: nat, k: nat)
    requires Untouched(a, b) && j < |a.tbl| && j != a.inum && k < MAXFILE * BSIZE
    ensures FileByte(b.blocks, b.tbl[j], k) == FileByte(a.blocks, a.tbl[j], k)
  {
    var s := SlotOf(k / BSIZE);
    assert Place(a, j, s) && R(a, j, s) == Ref(a.blocks, a.tbl[j], s);
    UntouchedSlots(a, b);
    assert R(b, j, s) == Ref(b.blocks, b.tbl[j], s);
  }

  /** A block that is free, or that only the changing inode refers to, is no block of the others. */
  lemma OwnBlock(v: Image, b: nat)
    requires b < v.size && (!v.marks[b] || exists s :: Place(v, v.inum, s) && R(v, v.inum, s) == b != 0)
    ensures forall j, s :: Place(v, j, s) && j != v.inum && R(v, j, s) != 0 ==> R(v, j, s) != b
  {
    if !v.marks[b] {
      FreeBlock(v, b);
    }
  }

  // ---- Allocation ----

  /** A new block b in slot s of the inode in memory. */
  ghost function AfterGrow(v: Image, s: nat, b: uint): (r: Image)
    requires b < v.size && !v.marks[b] && s <= NDIRECT && v.tbl[v.inum][s] == 0
    ensures r == Grow(v, v.inum, s, b) && Same(v, r)
    ensures b != 0 && v.meta <= b && SameBytes(v, r) && Untouched(v, r)
    ensures forall t :: 0 <= t < NSLOTS && t != s ==> Ref(r.blocks, r.tbl[v.inum], t) == Ref(v.blocks, v.tbl[v.inum], t)
  {
    GrowKeeps(v, v.inum, s, b);
    FreeBlock(v, b);
    OwnBlock(v, b);
    var r := Grow(v, v.inum, s, b);
    assert forall t :: 0 <= t < NSLOTS && t != s ==>
        Ref(r.blocks, r.tbl[v.inum], t) == Ref(v.blocks, v.tbl[v.inum], t) by {
      GrowChange(v, v.inum, s, b);
      assert forall t :: 0 <= t < NSLOTS ==> Place(v, v.inum, t) && R(r, v.inum, t) == Ref(r.blocks, r.tbl[v.inum], t)
                                             && R(v, v.inum, t) == Ref(v.blocks, v.tbl[v.inum], t);
    }
    r
  }

  /** A new block b in entry k of the indirect block, which becomes nb. */
  ghost function AfterEntry(v: Image, k: nat, b: uint, nb: Block): (r: Image)
    requires b < v.size && !v.marks[b] && k < NINDIRECT && v.tbl[v.inum][NDIRECT] != 0
    requires Ref(v.blocks, v.tbl[v.inum], NDIRECT + 1 + k) == 0
    requires v.tbl[v.inum][NDIRECT] < |v.blocks| && EntrySet(v.blocks[v.tbl[v.inum][NDIRECT]], nb, k, b)
    ensures r == GrowEntry(v, v.inum, b, nb) && Same(v, r)
    ensures b != 0 && v.meta <= b && v.meta <= v.tbl[v.inum][NDIRECT] != b && SameBytes(v, r) && Untouched(v, r)
    ensures forall t :: 0 <= t < NSLOTS ==>
              Ref(r.blocks, r.tbl[v.inum], t) == if t == NDIRECT + 1 + k then b else Ref(v.blocks, v.tbl[v.inum], t)
  {
    GrowEntryKeeps(v, v.inum, k, b, nb);
    FreeBlock(v, b);
    Indirects(v, v.inum);
    OwnBlock(v, b);
    assert Place(v, v.inum, NDIRECT) && R(v, v.inum, NDIRECT) == v.tbl[v.inum][NDIRECT];
    OwnBlock(v, v.tbl[v.inum][NDIRECT]);
    var r := GrowEntry(v, v.inum, b, nb);
    assert forall t :: 0 <= t < NSLOTS ==> Place(v, v.inum, t) && R(r, v.inum, t) == Ref(r.blocks, r.tbl[v.inum], t)
                                           && R(v, v.inum, t) == Ref(v.blocks, v.tbl[v.inum], t);
    r
  }

  /** The inode in memory written to its dinode. */
  ghost function AfterUpdate(v: Image, ip: Inode): (r: Image)
    ensures r == v.(dinodes := v.dinodes[v.inum := ip]) && SameBytes(v, r) && Untouched(v, r)
  {
    var r := v.(dinodes := v.dinodes[v.inum := ip]);
    assert forall j, s :: Place(v, j, s) ==> R(r, j, s) == R(v, j, s);
    ExactSame(v, r);
    r
  }

  // ---- Contents ----

  /** Byte k of a file once its block bn, if it is this file, reads as data. */
  function WrittenByte(blocks: Disk, addrs: seq<uint>, here: bool, bn: nat, data: Block, k: nat): (b: byte)
    requires |addrs| == NDIRECT + 1 && k < MAXFILE * BSIZE
  {
    if here && k / BSIZE == bn then data[k % BSIZE] else FileByte(blocks, addrs, k)
  }

  /** Block bn of file j0 now reads as data; every other byte of every file is the same. */
  ghost predicate BlockWritten(v: View, blocks': Disk, j0: nat, bn: nat, data: Block) {
    forall j, k :: 0 <= j < |v.tbl| && |v.tbl[j]| == NDIRECT + 1 && 0 <= k < MAXFILE * BSIZE ==>
      FileByte(blocks', v.tbl[j], k) == WrittenByte(v.blocks, v.tbl[j], j == j0, bn, data, k)
  }

  /** Writing a block that is nobody's indirect block changes no slot. */
  lemma DataKeeps(v: View, b: nat, data: Block)
    requires Exact(v) && b < |v.blocks| && forall j :: 0 <= j < |v.tbl| && v.tbl[j][NDIRECT] != 0 ==>
        v.tbl[j][NDIRECT] != b
    ensures Exact(v.(blocks := v.blocks[b := data]))
    ensures forall j, s :: Place(v, j, s) ==> Ref(v.blocks[b := data], v.tbl[j], s) == Ref(v.blocks, v.tbl[j], s)
  {
    var r := v.(blocks := v.blocks[b := data]);
    assert forall j, s :: Place(v, j, s) ==> R(r, j, s) == R(v, j, s);
    ExactSame(v, r);
  }

  /** New contents of block bn of the file. */
  ghost function AfterData(v: Image, bn: nat, data: Block): (r: Image)
    requires bn < MAXFILE && Ref(v.blocks, v.tbl[v.inum], SlotOf(bn)) != 0
    ensures v.meta <= Ref(v.blocks, v.tbl[v.inum], SlotOf(bn)) < |v.blocks|
    ensures r == v.(blocks := v.blocks[Ref(v.blocks, v.tbl[v.inum], SlotOf(bn)) := data])
    ensures BlockWritten(v, r.blocks, v.inum, bn, data) && Untouched(v, r)
    ensures forall t :: 0 <= t < NSLOTS ==> Ref(r.blocks, r.tbl[v.inum], t) == Ref(v.blocks, v.tbl[v.inum], t)
  {
    var b := Ref(v.blocks, v.tbl[v.inum], SlotOf(bn));
    DataBlock(v, bn);
    DataKeeps(v, b, data);
    BytesWritten(v, bn, data);
    assert Place(v, v.inum, SlotOf(bn)) && R(v, v.inum, SlotOf(bn)) == b;
    OwnBlock(v, b);
    assert forall t :: 0 <= t < NSLOTS ==> Place(v, v.inum, t);
    v.(blocks := v.blocks[b := data])
  }

  /** A block of a file is a data block and nobody's indirect block. */
  lemma DataBlock(v: Image, bn: nat)
    requires bn < MAXFILE && Ref(v.blocks, v.tbl[v.inum], SlotOf(bn)) != 0
    ensures var b := Ref(v.blocks, v.tbl[v.inum], SlotOf(bn));
      v.meta <= b < |v.blocks| && forall j :: 0 <= j < |v.tbl| && v.tbl[j][NDIRECT] != 0 ==> v.tbl[j][NDIRECT] != b
  {
    var b := Ref(v.blocks, v.tbl[v.inum], SlotOf(bn));
    assert Place(v, v.inum, SlotOf(bn)) && R(v, v.inum, SlotOf(bn)) == b;
    forall j | 0 <= j < |v.tbl| && v.tbl[j][NDIRECT] != 0 ensures v.tbl[j][NDIRECT] != b {
      assert Place(v, j, NDIRECT) && R(v, j, NDIRECT) == v.tbl[j][NDIRECT];
    }
  }

  lemma BytesWritten(v: Image, bn: nat, data: Block)
    requires bn < MAXFILE && Ref(v.blocks, v.tbl[v.inum], SlotOf(bn)) != 0
    requires var b := Ref(v.blocks, v.tbl[v.inum], SlotOf(bn));
      b < |v.blocks| && forall j, s :: Place(v, j, s) ==>
          Ref(v.blocks[b := data], v.tbl[j], s) == Ref(v.blocks, v.tbl[j], s)
    ensures BlockWritten(v, v.blocks[Ref(v.blocks, v.tbl[v.inum], SlotOf(bn)) := data], v.inum, bn, data)
  {
    var s0 := SlotOf(bn);
    var b := Ref(v.blocks, v.tbl[v.inum], s0);
    var blocks' := v.blocks[b := data];
    assert Place(v, v.inum, s0) && R(v, v.inum, s0) == b;
    forall j, k | 0 <= j < |v.tbl| && |v.tbl[j]| == NDIRECT + 1 && 0 <= k < MAXFILE * BSIZE
      ensures FileByte(blocks', v.tbl[j], k) == WrittenByte(v.blocks, v.tbl[j], j == v.inum, bn, data, k)
    {
      var s := SlotOf(k / BSIZE);
      assert Place(v, j, s) && R(v, j, s) == Ref(v.blocks, v.tbl[j], s);
      assert (j, s) != (v.inum, s0) ==> Ref(v.blocks, v.tbl[j], s) != b;
    }
  }

  // ---- Bytes under writei ----

  lemma SameBytesTrans(a: Image, b: Image, c: Image)
    requires SameBytes(a, b) && SameBytes(b, c)
    ensures SameBytes(a, c)
  {
    forall j, k | 0 <= j < |a.tbl| && 0 <= k < MAXFILE * BSIZE
      ensures FileByte(c.blocks, c.tbl[j], k) == FileByte(a.blocks, a.tbl[j], k) {
      assert FileByte(b.blocks, b.tbl[j], k) == FileByte(a.blocks, a.tbl[j], k);
    }
  }

  /** Byte k of a file with bytes written over it from off on, if it is this file. */
  function SpliceByte(blocks: Disk, addrs: seq<uint>, here: bool, off: nat, bytes: seq<byte>, k: nat): (b: byte)
    requires |addrs| == NDIRECT + 1 && k < MAXFILE * BSIZE
  {
    if here && off <= k < off + |bytes| then bytes[k - off] else FileByte(blocks, addrs, k)
  }

  /** From a to b, bytes were written over file inum from off on; every other
      byte of every file is the same. */
  ghost predicate Spliced(a: Image, b: Image, off: nat, bytes: seq<byte>) {
    && |a.tbl| == |b.tbl|
    && forall j, k :: 0 <= j < |a.tbl| && 0 <= k < MAXFILE * BSIZE ==>
         FileByte(b.blocks, b.tbl[j], k) == SpliceByte(a.blocks, a.tbl[j], j == a.inum, off, bytes, k)
  }

  lemma SplicedSame(a: Image, b: Image, c: Image, off: nat, bytes: seq<byte>)
    requires Spliced(a, b, off, bytes) && SameBytes(b, c)
    ensures Spliced(a, c, off, bytes)
  {
    forall j, k | 0 <= j < |a.tbl| && 0 <= k < MAXFILE * BSIZE
      ensures FileByte(c.blocks, c.tbl[j], k) == SpliceByte(a.blocks, a.tbl[j], j == a.inum, off, bytes, k)
    {
      assert FileByte(b.blocks, b.tbl[j], k) == SpliceByte(a.blocks, a.tbl[j], j == a.inum, off, bytes, k);
    }
  }

  /** The block with m bytes of src, from tot on, put at o. */
  function Patched(b: Block, o: nat, src: seq<byte>, tot: nat, m: nat): (r: Block)
    requires o + m <= BSIZE && tot + m <= |src|
  {
    b[..o] + src[tot..tot + m] + b[o + m..]
  }

  /** One round of writei's loop extends the splice by m bytes. */
  lemma SplicedChunk(a: Image, b: Image, off: nat, src: seq<byte>, tot: nat, at: nat, m: nat, addr: nat)
    requires 0 < m && tot + m <= |src| && a.inum == b.inum && Spliced(a, b, off, src[..tot])
    requires at == off + tot && at + m <= MAXFILE * BSIZE && at % BSIZE + m <= BSIZE
    requires 0 != addr == Ref(b.blocks, b.tbl[b.inum], SlotOf(at / BSIZE)) < |b.blocks|
    ensures Spliced(a, AfterData(b, at / BSIZE, Patched(b.blocks[addr], at % BSIZE, src, tot, m)), off, src[..tot + m])
  {
    var bn, o := at / BSIZE, at % BSIZE;
    var data := Patched(b.blocks[addr], o, src, tot, m);
    var c := AfterData(b, bn, data);
    forall j, k | 0 <= j < |a.tbl| && 0 <= k < MAXFILE * BSIZE
      ensures FileByte(c.blocks, c.tbl[j], k) == SpliceByte(a.blocks, a.tbl[j], j == a.inum, off, src[..tot + m], k)
    {
      assert FileByte(c.blocks, c.tbl[j], k) == WrittenByte(b.blocks, b.tbl[j], j == a.inum, bn, data, k);
      assert FileByte(b.blocks, b.tbl[j], k) == SpliceByte(a.blocks, a.tbl[j], j == a.inum, off, src[..tot], k);
      InChunk(at, m, k);
    }
  }

  /** Which bytes of block bn the chunk covers. */
  lemma InChunk(start: nat, m: nat, k: nat)
    requires start % BSIZE + m <= BSIZE
    ensures start <= k < start + m <==> k / BSIZE == start / BSIZE && start % BSIZE <= k % BSIZE < start % BSIZE + m
    ensures k / BSIZE == start / BSIZE ==> k - start == k % BSIZE - start % BSIZE
  {
  }

  // ---- Freeing, as in itrunc ----

  ghost predicate NoEntries(blocks: Disk, addrs: seq<uint>)
    requires |addrs| == NDIRECT + 1
  {
    forall s :: NDIRECT < s < NSLOTS ==> Ref(blocks, addrs, s) == 0
  }

  /** The block in slot s of addrs freed. Its bit is set, so bfree does not panic. */
  ghost function AfterFree(v: Image, s: nat): (r: Image)
    requires s <= NDIRECT && v.tbl[v.inum][s] != 0 && (s == NDIRECT ==> NoEntries(v.blocks, v.tbl[v.inum]))
    ensures v.meta <= v.tbl[v.inum][s] < v.size && v.marks[v.tbl[v.inum][s]]
    ensures r == v.(marks := v.marks[v.tbl[v.inum][s] := false], tbl := v.tbl[v.inum := SetAddr(v.tbl[v.inum], s, 0)])
    ensures Untouched(v, r)
  {
    assert Place(v, v.inum, s) && R(v, v.inum, s) == v.tbl[v.inum][s];
    RefMarked(v, v.inum, s);
    var r := v.(marks := v.marks[v.tbl[v.inum][s] := false], tbl := v.tbl[v.inum := SetAddr(v.tbl[v.inum], s, 0)]);
    FreeChange(v, r, s);
    ExactRemove(v, r, v.inum, s);
    r
  }

  lemma FreeChange(v: Image, r: View, s: nat)
    requires s <= NDIRECT && v.tbl[v.inum][s] != 0 && (s == NDIRECT ==> NoEntries(v.blocks, v.tbl[v.inum]))
    requires Shaped(r) && Same(v, r) && r.blocks == v.blocks && r.tbl == v.tbl[v.inum := SetAddr(v.tbl[v.inum], s, 0)]
    ensures OneChange(v, r, v.inum, s, 0)
  {
    forall j, t | Place(v, j, t) && (j, t) != (v.inum, s) ensures R(r, j, t) == R(v, j, t) {
    }
  }

  /** The block in entry k of the indirect block freed, and the entry emptied: the indirect block becomes nb. */
  ghost function AfterFreeEntry(v: Image, k: nat, nb: Block): (r: Image)
    requires k < NINDIRECT && v.tbl[v.inum][NDIRECT] != 0 && Ref(v.blocks, v.tbl[v.inum], NDIRECT + 1 + k) != 0
    requires v.tbl[v.inum][NDIRECT] < |v.blocks| && EntrySet(v.blocks[v.tbl[v.inum][NDIRECT]], nb, k, 0)
    ensures var b := Ref(v.blocks, v.tbl[v.inum], NDIRECT + 1 + k); v.meta <= b < v.size && v.marks[b]
    ensures var b := Ref(v.blocks, v.tbl[v.inum], NDIRECT + 1 + k);
      r == v.(marks := v.marks[b := false], blocks := v.blocks[v.tbl[v.inum][NDIRECT] := nb])
    ensures Untouched(v, r)
  {
    var i, b := v.tbl[v.inum][NDIRECT], Ref(v.blocks, v.tbl[v.inum], NDIRECT + 1 + k);
    assert Place(v, v.inum, NDIRECT + 1 + k) && R(v, v.inum, NDIRECT + 1 + k) == b;
    RefMarked(v, v.inum, NDIRECT + 1 + k);
    Indirects(v, v.inum);
    var r := v.(marks := v.marks[b := false], blocks := v.blocks[i := nb]);
    EntryChange(v, r, v.inum, k, 0);
    ExactRemove(v, r, v.inum, NDIRECT + 1 + k);
    assert Place(v, v.inum, NDIRECT) && R(v, v.inum, NDIRECT) == i;
    OwnBlock(v, i);
    r
  }

  /** Any contents of a block that no slot refers to. */
  ghost function AfterStale(v: Image, b: nat, data: Block): (r: Image)
    requires v.meta <= b < |v.blocks| && forall j, s :: Place(v, j, s) ==> R(v, j, s) != b
    ensures r == v.(blocks := v.blocks[b := data]) && Untouched(v, r)
  {
    assert forall j :: 0 <= j < |v.tbl| ==> Place(v, j, NDIRECT) && R(v, j, NDIRECT) == v.tbl[j][NDIRECT];
    DataKeeps(v, b, data);
    var r: Image := v.(blocks := v.blocks[b := data]);
    r
  }

  /** The block of a slot that was just emptied is referred to by nobody. */
  lemma Forgotten(v: Image, s: nat)
    requires s <= NDIRECT && v.tbl[v.inum][s] != 0 && (s == NDIRECT ==> NoEntries(v.blocks, v.tbl[v.inum]))
    ensures var r := AfterFree(v, s); forall j, t :: Place(r, j, t) ==> R(r, j, t) != v.tbl[v.inum][s]
  {
    FreeBlock(AfterFree(v, s), v.tbl[v.inum][s]);
  }
}
