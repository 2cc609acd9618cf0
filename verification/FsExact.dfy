/** Exactness of the free bitmap: a block is marked if and only if it holds
    metadata or is referred to by exactly one slot of one inode. */
module FsExact {
  import opened Blocks
  import opened FsLayout

  /** The block addresses of every inode. */
  type Table = seq<seq<uint>>

  /** A volume without its encoding: the bits of the bitmap, the blocks (those from meta on matter), the dinodes,
      and the addresses of every inode, which are those of the dinodes except perhaps for the inode inum that is
      changing in memory. */
  datatype View = View(
    meta: nat, size: nat, marks: seq<bool>, blocks: Disk, dinodes: seq<Inode>, tbl: Table, inum: nat)

  ghost predicate Shaped(v: View) {
    && 0 < v.meta <= v.size <= |v.blocks| && v.size <= WORD_LIMIT && |v.marks| == v.size && |v.dinodes| == |v.tbl|
    && forall j :: 0 <= j < |v.tbl| ==> |v.tbl[j]| == NDIRECT + 1
  }

  /** A slot of some inode. */
  predicate Place(v: View, j: int, slot: int) {
    0 <= j < |v.tbl| && 0 <= slot < NSLOTS
  }

  function R(v: View, j: int, slot: int): (b: uint)
    requires Shaped(v) && Place(v, j, slot)
  {
    Ref(v.blocks, v.tbl[j], slot)
  }

  ghost predicate Referenced(v: View, b: nat)
    requires Shaped(v)
  {
    exists j, slot :: Place(v, j, slot) && R(v, j, slot) == b
  }

  ghost predicate InData(v: View)
    requires Shaped(v)
  {
    forall j, slot :: Place(v, j, slot) && R(v, j, slot) != 0 ==> v.meta <= R(v, j, slot) < v.size
  }

  ghost predicate Once(v: View)
    requires Shaped(v)
  {
    forall j, slot, j', slot' ::
      Place(v, j, slot) && Place(v, j', slot') && (j, slot) != (j', slot') && R(v, j, slot) != 0
      ==> R(v, j, slot) != R(v, j', slot')
  }

  ghost predicate Exact(v: View) {
    && Shaped(v) && InData(v) && Once(v)
    && forall b :: 0 <= b < v.size ==> (v.marks[b] <==> b < v.meta || Referenced(v, b))
  }

  /** Slot s0 of inode j0 changes to b, every other slot refers to what it did. */
  ghost predicate OneChange(v: View, v': View, j0: nat, s0: nat, b: nat) {
    && Shaped(v) && Shaped(v') && v'.meta == v.meta && v'.size == v.size && |v'.tbl| == |v.tbl|
    && Place(v, j0, s0) && R(v', j0, s0) == b
    && forall j, s :: Place(v, j, s) && (j, s) != (j0, s0) ==> R(v', j, s) == R(v, j, s)
  }

  lemma OnceAfter(v: View, v': View, j0: nat, s0: nat, b: nat)
    requires OneChange(v, v', j0, s0, b) && InData(v) && Once(v)
    requires b == 0 || (v.meta <= b < v.size && !Referenced(v, b))
    ensures InData(v') && Once(v')
  {
    forall j, s | Place(v, j, s) && b != 0 ensures R(v, j, s) != b {
    }
  }

  lemma ReferencedAfter(v: View, v': View, j0: nat, s0: nat, b: nat, x: nat)
    requires OneChange(v, v', j0, s0, b) && Once(v) && x != 0
    ensures Referenced(v', x) <==> x == b || (Referenced(v, x) && x != R(v, j0, s0))
  {
    if Referenced(v, x) && x != R(v, j0, s0) {
      var j, s :| Place(v, j, s) && R(v, j, s) == x;
      assert Place(v', j, s) && R(v', j, s) == x;
    }
    if Referenced(v', x) && x != b {
      var j, s :| Place(v', j, s) && R(v', j, s) == x;
      assert Place(v, j, s) && R(v, j, s) == x;
    }
    if x == b {
      assert Place(v', j0, s0) && R(v', j0, s0) == b;
    }
  }

  /** One more reference to a block that was free, which is now marked. */
  lemma ExactAdd(v: View, v': View, j0: nat, s0: nat, b: nat)
    requires Exact(v) && OneChange(v, v', j0, s0, b)
    requires b < v.size && !v.marks[b] && R(v, j0, s0) == 0 && v'.marks == v.marks[b := true]
    ensures Exact(v')
  {
    OnceAfter(v, v', j0, s0, b);
    forall x | 0 <= x < v.size ensures v'.marks[x] <==> x < v.meta || Referenced(v', x) {
      if x > 0 {
        ReferencedAfter(v, v', j0, s0, b, x);
      }
    }
  }

  /** One reference less, to a block that is marked no more. */
  lemma ExactRemove(v: View, v': View, j0: nat, s0: nat)
    requires Exact(v) && OneChange(v, v', j0, s0, 0) && R(v, j0, s0) != 0
    requires R(v, j0, s0) < v.size && v'.marks == v.marks[R(v, j0, s0) := false]
    ensures Exact(v')
  {
    OnceAfter(v, v', j0, s0, 0);
    forall x | 0 <= x < v.size ensures v'.marks[x] <==> x < v.meta || Referenced(v', x) {
      if x > 0 {
        ReferencedAfter(v, v', j0, s0, 0, x);
      }
    }
  }

  /** No slot changes and no mark changes: the bitmap stays exact. */
  lemma ExactSame(v: View, v': View)
    requires Exact(v) && Shaped(v') && v'.meta == v.meta && v'.size == v.size && v'.tbl == v.tbl && v'.marks == v.marks
    requires forall j, s :: Place(v, j, s) ==> R(v', j, s) == R(v, j, s)
    ensures Exact(v')
  {
    forall x | 0 <= x < v.size ensures Referenced(v', x) <==> Referenced(v, x) {
      if Referenced(v, x) {
        var j, s :| Place(v, j, s) && R(v, j, s) == x;
        assert Place(v', j, s) && R(v', j, s) == x;
      }
      if Referenced(v', x) {
        var j, s :| Place(v', j, s) && R(v', j, s) == x;
        assert Place(v, j, s) && R(v, j, s) == x;
      }
    }
    assert forall j, s :: Place(v', j, s) ==> Place(v, j, s);
  }

  /** The block in a slot is marked, so bfree does not find it free. */
  lemma RefMarked(v: View, j: nat, s: nat)
    requires Exact(v) && Place(v, j, s) && R(v, j, s) != 0
    ensures v.meta <= R(v, j, s) < v.size && v.marks[R(v, j, s)]
  {
    assert Referenced(v, R(v, j, s));
  }

  /** A free block is no metadata and nobody's block. */
  lemma FreeBlock(v: View, b: nat)
    requires Exact(v) && b < v.size && !v.marks[b]
    ensures v.meta <= b
    ensures forall j, s :: Place(v, j, s) ==> R(v, j, s) != b
  {
    assert !Referenced(v, b);
  }

  /** The indirect blocks of inodes lie in the data region, and no two inodes share one. */
  lemma Indirects(v: View, j: nat)
    requires Exact(v) && j < |v.tbl|
    ensures v.tbl[j][NDIRECT] != 0 ==> v.meta <= v.tbl[j][NDIRECT] < v.size
    ensures forall i :: 0 <= i < |v.tbl| && i != j && v.tbl[i][NDIRECT] != 0 ==> v.tbl[i][NDIRECT] != v.tbl[j][NDIRECT]
  {
    assert Place(v, j, NDIRECT) && R(v, j, NDIRECT) == v.tbl[j][NDIRECT];
    forall i | 0 <= i < |v.tbl| && i != j && v.tbl[i][NDIRECT] != 0 ensures v.tbl[i][NDIRECT] != v.tbl[j][NDIRECT] {
      assert Place(v, i, NDIRECT) && R(v, i, NDIRECT) == v.tbl[i][NDIRECT];
    }
  }

  // ---- Bytes of files ----

  /** Every byte of every file is the same. */
  ghost predicate SameBytes(v: View, v': View) {
    && |v.tbl| == |v'.tbl|
    && forall j, k :: 0 <= j < |v.tbl| && 0 <= k < MAXFILE * BSIZE && |v.tbl[j]| == |v'.tbl[j]| == NDIRECT + 1
                      ==> FileByte(v'.blocks, v'.tbl[j], k) == FileByte(v.blocks, v.tbl[j], k)
  }

  /** Giving a file one more, zeroed, block changes no byte of any file. */
  lemma BytesAdd(v: View, v': View, j0: nat, s0: nat, b: uint)
    requires OneChange(v, v', j0, s0, b) && InData(v) && |v'.blocks| == |v.blocks|
    requires R(v, j0, s0) == 0 && b < |v.blocks| && (s0 != NDIRECT ==> v'.blocks[b] == ZeroBlock())
    requires forall j, s :: Place(v, j, s) && s != NDIRECT && R(v, j, s) != 0 ==>
        v'.blocks[R(v, j, s)] == v.blocks[R(v, j, s)]
    ensures SameBytes(v, v')
  {
    forall j, k | 0 <= j < |v.tbl| && 0 <= k < MAXFILE * BSIZE
      ensures FileByte(v'.blocks, v'.tbl[j], k) == FileByte(v.blocks, v.tbl[j], k) {
      var s := SlotOf(k / BSIZE);
      assert Place(v, j, s) && R(v, j, s) == Ref(v.blocks, v.tbl[j], s);
      assert R(v', j, s) == Ref(v'.blocks, v'.tbl[j], s);
    }
  }

  // ---- A new block for one slot ----

  function SetAddr(addrs: seq<uint>, s: nat, b: uint): (r: seq<uint>)
    requires s < |addrs|
    ensures |r| == |addrs| && r[s] == b && forall i :: 0 <= i < |r| && i != s ==> r[i] == addrs[i]
  {
    addrs[..s] + [b] + addrs[s + 1..]
  }

  /** Slot s of inode j, at most the indirect block, gets the block b. */
  function Grow(v: View, j: nat, s: nat, b: uint): (r: View)
    requires j < |v.tbl| && s < |v.tbl[j]| && b < |v.marks| && b < |v.blocks|
  {
    v.(marks := v.marks[b := true], blocks := v.blocks[b := ZeroBlock()], tbl := v.tbl[j := SetAddr(v.tbl[j], s, b)])
  }

  lemma GrowChange(v: View, j0: nat, s0: nat, b: uint)
    requires Exact(v) && b < v.size && !v.marks[b] && j0 < |v.tbl| && s0 <= NDIRECT && v.tbl[j0][s0] == 0
    ensures OneChange(v, Grow(v, j0, s0, b), j0, s0, b)
  {
    var v' := Grow(v, j0, s0, b);
    FreeBlock(v, b);
    forall j, s | Place(v, j, s) && (j, s) != (j0, s0) ensures R(v', j, s) == R(v, j, s) {
      assert Place(v, j, NDIRECT) && R(v, j, NDIRECT) == v.tbl[j][NDIRECT];
      if j == j0 && s > NDIRECT && s0 == NDIRECT {
        ZeroWord(s - NDIRECT - 1);
      }
    }
  }

  lemma GrowKeeps(v: View, j0: nat, s0: nat, b: uint)
    requires Exact(v) && b < v.size && !v.marks[b] && j0 < |v.tbl| && s0 <= NDIRECT && v.tbl[j0][s0] == 0
    ensures Exact(Grow(v, j0, s0, b)) && SameBytes(v, Grow(v, j0, s0, b))
  {
    var v' := Grow(v, j0, s0, b);
    FreeBlock(v, b);
    GrowChange(v, j0, s0, b);
    ExactAdd(v, v', j0, s0, b);
    BytesAdd(v, v', j0, s0, b);
  }

  /** Block nb is block a with entry k set to w. */
  ghost predicate EntrySet(a: Block, nb: Block, k: nat, w: uint) {
    forall i :: 0 <= i < NINDIRECT ==> Word(nb, i) == if i == k then w else Word(a, i)
  }

  lemma PutWordSets(a: Block, k: nat, w: uint)
    requires k < NINDIRECT
    ensures EntrySet(a, PutWord(a, k, w), k, w)
  {
    forall i | 0 <= i < NINDIRECT ensures Word(PutWord(a, k, w), i) == if i == k then w else Word(a, i) {
      WordAfterPut(a, k, w, i);
    }
  }

  /** Writing entry k of an indirect block changes one slot of one inode: nobody
      else's indirect block is that block. */
  lemma EntryChange(v: View, v': View, j0: nat, k: nat, w: uint)
    requires Exact(v) && Shaped(v') && v'.meta == v.meta && v'.size == v.size && v'.tbl == v.tbl &&
        |v'.blocks| == |v.blocks|
    requires j0 < |v.tbl| && k < NINDIRECT && v.tbl[j0][NDIRECT] != 0 && v.tbl[j0][NDIRECT] < |v.blocks|
    requires EntrySet(v.blocks[v.tbl[j0][NDIRECT]], v'.blocks[v.tbl[j0][NDIRECT]], k, w)
    requires forall j :: 0 <= j < |v.tbl| && j != j0 && 0 != v.tbl[j][NDIRECT] < |v.blocks| ==>
      v'.blocks[v.tbl[j][NDIRECT]] == v.blocks[v.tbl[j][NDIRECT]]
    ensures OneChange(v, v', j0, NDIRECT + 1 + k, w)
  {
    forall j, s | Place(v, j, s) ensures R(v', j, s) == if (j, s) == (j0, NDIRECT + 1 + k) then w else R(v, j, s) {
    }
  }

  /** Entry k of the indirect block of inode j, which becomes nb, gets the block b. */
  function GrowEntry(v: View, j: nat, b: nat, nb: Block): (r: View)
    requires j < |v.tbl| && |v.tbl[j]| == NDIRECT + 1 && v.tbl[j][NDIRECT] < |v.blocks| && b < |v.marks| &&
        b < |v.blocks|
  {
    v.(marks := v.marks[b := true], blocks := v.blocks[b := ZeroBlock()][v.tbl[j][NDIRECT] := nb])
  }

  lemma GrowEntryKeeps(v: View, j0: nat, k: nat, b: uint, nb: Block)
    requires Exact(v) && b < v.size && !v.marks[b] && j0 < |v.tbl| && k < NINDIRECT && v.tbl[j0][NDIRECT] != 0
    requires Ref(v.blocks, v.tbl[j0], NDIRECT + 1 + k) == 0
    requires v.tbl[j0][NDIRECT] < |v.blocks| && EntrySet(v.blocks[v.tbl[j0][NDIRECT]], nb, k, b)
    ensures v.tbl[j0][NDIRECT] != b && OneChange(v, GrowEntry(v, j0, b, nb), j0, NDIRECT + 1 + k, b)
    ensures Exact(GrowEntry(v, j0, b, nb)) && SameBytes(v, GrowEntry(v, j0, b, nb))
  {
    var v', i := GrowEntry(v, j0, b, nb), v.tbl[j0][NDIRECT];
    FreeBlock(v, b);
    Indirects(v, j0);
    assert Place(v, j0, NDIRECT) && R(v, j0, NDIRECT) == i;
    forall j | 0 <= j < |v.tbl| && j != j0 && 0 != v.tbl[j][NDIRECT] < |v.blocks| ensures v.tbl[j][NDIRECT] != b {
      assert Place(v, j, NDIRECT) && R(v, j, NDIRECT) == v.tbl[j][NDIRECT];
    }
    EntryChange(v, v', j0, k, b);
    ExactAdd(v, v', j0, NDIRECT + 1 + k, b);
    BytesAdd(v, v', j0, NDIRECT + 1 + k, b);
  }
}
