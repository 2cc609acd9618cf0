/** Any calls of readi, writei and itrunc on any files, one after the other. */
module FsRun {
  import opened Params
  import opened Blocks
  import opened FsLayout
  import opened FsExact
  import opened FsSteps
  import opened FsView
  import opened FsFiles
  import opened Fs
  import Mkfs

  /** Every inode is on disk as it is in memory. */
  ghost predicate Ready(vol: Volume)
    reads vol
  {
    vol.Valid() && Settled(vol.img)
  }

  /** A change of the inode in memory that its dinode does not see, after v. */
  lemma Unsettled(v: Image, r: Image)
    requires Settled(v) && Untouched(v, r) && r.dinodes == v.dinodes
    requires Kept(v.tbl[v.inum], r.tbl[v.inum])
    ensures Settled(r) <==> r.tbl[v.inum] == v.tbl[v.inum]
    ensures Exact(OnDisk(r)) <==> Settled(r)
  {
    DiskExactIff(r);
  }

  /** readi of file i. Where it is not good, the disk has a block marked that no dinode refers to. */
  method DoRead(vol: Volume, i: nat, off: uint, n: uint) returns (ok: bool, out: seq<byte>)
    requires Ready(vol) && i < |vol.img.tbl|
    modifies vol
    ensures vol.Valid() && |vol.img.tbl| == old(|vol.img.tbl|)
    ensures !ok ==> vol.DiskFull() || TooFar(old(FileTable(vol.img))[i], Read(i, off, n))
    ensures ok ==> out == Output(old(FileTable(vol.img))[i], Read(i, off, n))
    ensures ok ==> (Exact(OnDisk(vol.img)) <==> Good(old(FileTable(vol.img))[i], Read(i, off, n)))
    ensures ok ==> (Settled(vol.img) <==> Good(old(FileTable(vol.img))[i], Read(i, off, n)))
    ensures ok && Settled(vol.img) ==> FileTable(vol.img) == old(FileTable(vol.img))
  {
    SameFiles(vol.img, i);
    vol.Select(i);
    ghost var v := vol.img;
    var r;
    ok, r, out := vol.Readi(off, n);
    if ok {
      ReadOut(v, off, n, out);
      ReadGood(v, vol.img, off, if r > 0 then r else 0);
    }
  }

  lemma ReadOut(v: Image, off: uint, n: uint, dst: seq<byte>)
    requires var size := v.dinodes[v.inum].size;
      if off > size || off + n >= WORD_LIMIT then dst == []
      else |dst| == (if off + n > size then size - off else n) && Reads(v.blocks, v.tbl[v.inum], off, dst)
    ensures dst == Output(FileAt(v, v.inum), Read(v.inum, off, n))
    ensures |dst| == Clipped(FileAt(v, v.inum), off, n)
  {
    var f, m := FileAt(v, v.inum), |dst|;
    if m > 0 {
      forall k | 0 <= k < m ensures dst[k] == f.bytes[off..off + m][k] {
        assert f.bytes[off..off + m][k] == f.bytes[off + k];
      }
    }
  }

  /** A read of m bytes, from the volume v to r. */
  lemma ReadGood(v: Image, r: Image, off: nat, m: nat)
    requires Settled(v) && More(v, r)
    requires m == 0 ==> r == v
    requires m > 0 ==> (r.tbl[v.inum] == v.tbl[v.inum] <==> Addressed(v.tbl[v.inum], off, m))
    ensures Exact(OnDisk(r)) <==> Heads(off, m) <= Have(v.tbl[v.inum])
    ensures Settled(r) <==> Heads(off, m) <= Have(v.tbl[v.inum])
    ensures Settled(r) ==> FileTable(r) == FileTable(v)
  {
    forall i | 0 <= i <= NDIRECT && v.tbl[v.inum][i] != 0 ensures r.tbl[v.inum][i] == v.tbl[v.inum][i] {
      assert Ref(v.blocks, v.tbl[v.inum], i) == v.tbl[v.inum][i] && Ref(r.blocks, r.tbl[v.inum], i) == r.tbl[v.inum][i];
    }
    Unsettled(v, r);
    HeadsAddressed(v.tbl[v.inum], off, m);
    if r.tbl[v.inum] == v.tbl[v.inum] {
      SameContents(v, r);
    }
  }

  lemma SameContents(v: Image, r: Image)
    requires More(v, r) && r.tbl[v.inum] == v.tbl[v.inum]
    ensures FileTable(r) == FileTable(v)
  {
    var c := Contents(v, v.inum);
    forall k | 0 <= k < |c| ensures Contents(r, v.inum)[k] == c[k] {
      assert FileByte(r.blocks, r.tbl[v.inum], k) == FileByte(v.blocks, v.tbl[v.inum], k);
    }
    assert Contents(r, v.inum) == c;
    OneFile(v, r, FileAt(v, v.inum));
  }

  /** writei of file i. Where it is not good, the disk has a block marked that no dinode refers to. */
  method DoWrite(vol: Volume, i: nat, src: seq<byte>, off: uint) returns (ok: bool)
    requires Ready(vol) && i < |vol.img.tbl| && |src| < WORD_LIMIT
    modifies vol
    ensures vol.Valid() && |vol.img.tbl| == old(|vol.img.tbl|) && (!ok ==> vol.DiskFull())
    ensures ok ==> (Exact(OnDisk(vol.img)) <==> Good(old(FileTable(vol.img))[i], Write(i, src, off)))
    ensures ok ==> (Settled(vol.img) <==> Good(old(FileTable(vol.img))[i], Write(i, src, off)))
    ensures ok && Settled(vol.img) ==> FileTable(vol.img) == After(old(FileTable(vol.img)), Write(i, src, off))
  {
    SameFiles(vol.img, i);
    vol.Select(i);
    ghost var v := vol.img;
    var r;
    ok, r := vol.Writei(src, off);
    if ok && r != -1 {
      HeadsAddressed(v.tbl[i], off, |src|);
      WriteGood(v, vol.img, src, off);
      if Good(FileAt(v, i), Write(i, src, off)) {
        WriteFiles(v, vol.img, src, off);
      }
    } else if ok {
      DiskExactIff(v);
    }
  }

  lemma WriteGood(v: Image, r: Image, src: seq<byte>, off: uint)
    requires Settled(v) && Untouched(v, r) && !OutOfRange(FileAt(v, v.inum), src, off)
    requires Have(r.tbl[v.inum]) == Have(v.tbl[v.inum]) + Heads(off, |src|)
    requires off + |src| <= v.dinodes[v.inum].size ==> r.dinodes == v.dinodes
    requires Kept(v.tbl[v.inum], r.tbl[v.inum])
    requires r.dinodes[v.inum].addrs == r.tbl[v.inum] <==>
      off + |src| > v.dinodes[v.inum].size || Addressed(v.tbl[v.inum], off, |src|)
    ensures Exact(OnDisk(r)) <==> Good(FileAt(v, v.inum), Write(v.inum, src, off))
    ensures Settled(r) <==> Good(FileAt(v, v.inum), Write(v.inum, src, off))
  {
    HeadsAddressed(v.tbl[v.inum], off, |src|);
    if off + |src| <= v.dinodes[v.inum].size {
      Unsettled(v, r);
    } else {
      assert Settled(r);
      DiskExactIff(r);
    }
  }

  method DoTrunc(vol: Volume, i: nat)
    requires Ready(vol) && i < |vol.img.tbl|
    modifies vol
    ensures Ready(vol) && FileTable(vol.img) == After(old(FileTable(vol.img)), Trunc(i)) && Exact(OnDisk(vol.img))
  {
    SameFiles(vol.img, i);
    vol.Select(i);
    ghost var v := vol.img;
    vol.Itrunc();
    forall t | 0 <= t <= NDIRECT ensures vol.ip.addrs[t] == 0 {
      assert vol.Slot(t) == 0;
    }
    TruncFiles(v, vol.img);
    DiskExactIff(vol.img);
  }

  /** One call; false is a panic, on a full disk or past the largest file. */
  method Do(vol: Volume, c: Call) returns (ok: bool, out: seq<byte>)
    requires Ready(vol) && c.inum < |vol.img.tbl| && (c.Write? ==> |c.src| < WORD_LIMIT)
    modifies vol
    ensures vol.Valid() && |vol.img.tbl| == old(|vol.img.tbl|)
    ensures !ok ==> vol.DiskFull() || TooFar(old(FileTable(vol.img))[c.inum], c)
    ensures ok ==> out == Output(old(FileTable(vol.img))[c.inum], c)
    ensures ok ==> (Exact(OnDisk(vol.img)) <==> Good(old(FileTable(vol.img))[c.inum], c))
    ensures ok ==> (Settled(vol.img) <==> Good(old(FileTable(vol.img))[c.inum], c))
    ensures ok && Settled(vol.img) ==> FileTable(vol.img) == After(old(FileTable(vol.img)), c)
  {
    ok, out := true, [];
    match c
    case Read(i, off, n) => ok, out := DoRead(vol, i, off, n);
    case Write(i, src, off) => ok := DoWrite(vol, i, src, off);
    case Trunc(i) => DoTrunc(vol, i);
  }

  /** Good calls have come to the volume as it is. */
  ghost predicate Along(vol: Volume, fs: seq<File>, calls: seq<Call>)
    requires TableOk(fs) && Named(calls, |fs|)
    reads vol
  {
    && Ready(vol) && |vol.img.tbl| == |fs| && Exact(OnDisk(vol.img))
    && AllGood(fs, calls) && FileTable(vol.img) == AfterAll(fs, calls)
  }

  /** The last of the calls, after the others. */
  method RunOne(vol: Volume, ghost fs: seq<File>, calls: seq<Call>) returns (ok: bool, out: seq<byte>, settled: bool)
    requires TableOk(fs) && Named(calls, |fs|) && |calls| > 0 && Along(vol, fs, calls[..|calls| - 1])
    modifies vol
    ensures var (before, c) := (calls[..|calls| - 1], calls[|calls| - 1]);
            && vol.Valid() && (!ok ==> vol.DiskFull() || TooFar(AfterAll(fs, before)[c.inum], c))
            && (ok ==> Outputs(fs, calls) == Outputs(fs, before) + [out])
    ensures ok ==> if settled then Along(vol, fs, calls) else !AllGood(fs, calls) && !Exact(OnDisk(vol.img))
  {
    settled := true;
    ok, out := Do(vol, calls[|calls| - 1]);
    if ok {
      assert vol.img.dinodes[vol.inum] == DiskInode(vol.sb, vol.disk, vol.inum);
      settled := DiskInode(vol.sb, vol.disk, vol.inum).addrs == vol.ip.addrs;
      assert settled <==> Settled(vol.img);
    }
  }

  /** The next call reads past the largest file. */
  ghost predicate StopsAt(fs: seq<File>, calls: seq<Call>, k: nat)
    requires TableOk(fs) && Named(calls, |fs|) && k < |calls|
  {
    TooFar(AfterAll(fs, calls[..k])[calls[k].inum], calls[k])
  }

  /** Calls on any files, up to the first that is not good. The bitmap is exact on disk after each good call, and
      not after one that is not. The good calls give back what the same calls on files give back, and leave the files
      that they leave. False is a panic in the next call. */
  method Run(vol: Volume, calls: seq<Call>) returns (ok: bool, done: nat, outs: seq<seq<byte>>)
    requires Ready(vol) && Named(calls, |vol.img.tbl|)
    modifies vol
    ensures vol.Valid() && done <= |calls|
    ensures !ok ==>
              && done < |calls| && AllGood(old(FileTable(vol.img)), calls[..done])
              && (vol.DiskFull() || StopsAt(old(FileTable(vol.img)), calls, done))
    ensures ok ==>
              && outs == Outputs(old(FileTable(vol.img)), calls[..done])
              && (Exact(OnDisk(vol.img)) <==> AllGood(old(FileTable(vol.img)), calls[..done]))
              && (AllGood(old(FileTable(vol.img)), calls[..done]) <==> AllGood(old(FileTable(vol.img)), calls))
              && (AllGood(old(FileTable(vol.img)), calls) ==>
                   && done == |calls| && Settled(vol.img)
                   && FileTable(vol.img) == AfterAll(old(FileTable(vol.img)), calls))
  {
    ghost var fs := FileTable(vol.img);
    outs, done, ok := [], 0, true;
    DiskExactIff(vol.img);
    assert Along(vol, fs, []);
    while done < |calls|
      invariant 0 <= done <= |calls| && ok && Along(vol, fs, calls[..done]) && outs == Outputs(fs, calls[..done])
    {
      var out, settled;
      assert calls[..done + 1][..done] == calls[..done];
      ok, out, settled := RunOne(vol, fs, calls[..done + 1]);
      if !ok {
        return;
      }
      outs, done := outs + [out], done + 1;
      if !settled {
        PrefixGood(fs, calls, done);
        return;
      }
    }
    assert calls[..done] == calls;
  }

  lemma {:induction false} PrefixGood(fs: seq<File>, calls: seq<Call>, k: nat)
    requires TableOk(fs) && Named(calls, |fs|) && k <= |calls|
    ensures AllGood(fs, calls) ==> AllGood(fs, calls[..k])
  {
    if k < |calls| {
      var n := |calls| - 1;
      assert calls[..n][..k] == calls[..k];
      PrefixGood(fs, calls[..n], k);
    } else {
      assert calls[..k] == calls;
    }
  }

  // ---- On the disk that mkfs makes ----

  /** The root directory has the addresses for its size if and only if its entries do not fill a whole number of
      blocks, or need the indirect block. */
  lemma RootFull(v: Image, n: nat)
    requires ROOTINO < |v.tbl| && v.dinodes[ROOTINO].size == (n / 32 + 1) * BSIZE
    requires Mkfs.FitsTo(v.blocks, v.tbl[ROOTINO], 16 * n) && 16 * n <= MAXFILE * BSIZE
    ensures FullFile(FileAt(v, ROOTINO)) <==> n % 32 != 0 || n / 32 > NDIRECT
  {
    var f, addrs := FileAt(v, ROOTINO), v.tbl[ROOTINO];
    if n % 32 != 0 || n / 32 > NDIRECT {
      forall bn: nat | bn < MAXFILE && bn * BSIZE < f.size ensures Head(bn) in f.have {
        var b := if bn < NDIRECT || n % 32 != 0 then bn else NDIRECT;
        assert b * BSIZE < 16 * n && Ref(v.blocks, addrs, SlotOf(b)) != 0;
      }
    } else {
      var bn := n / 32;
      assert bn * BSIZE == 16 * n < f.size;
      if bn < NDIRECT {
        assert Ref(v.blocks, addrs, SlotOf(bn)) == 0;
      }
      assert Head(bn) !in f.have;
    }
  }

  lemma OthersFull(v: Image, j: nat)
    requires j < |v.tbl| && Mkfs.Fitted(v, j)
    ensures FullFile(FileAt(v, j))
  {
    var f := FileAt(v, j);
    forall bn: nat | bn < MAXFILE && bn * BSIZE < f.size ensures Head(bn) in f.have {
      assert Ref(v.blocks, v.tbl[j], SlotOf(bn)) != 0;
    }
  }

  ghost predicate AllMarked(v: Image) {
    forall x :: 0 <= x < |v.marks| ==> v.marks[x]
  }

  /** The same on the disk that mkfs makes. Every run is good, and so keeps the bitmap exact on disk, if and only if the
      entries of the root directory do not fill a whole number of blocks, or need the indirect block. */
  method MakeAndRun(b: Mkfs.Builder, items: seq<Mkfs.Item>, calls: seq<Call>)
    returns (made: bool, ok: bool, done: nat, outs: seq<seq<byte>>, ghost last: Image)
    requires b.Ready() && b.freeinode == 1 && (forall j :: 0 <= j < b.sb.ninodes ==> Files(b.img)[j] == [])
    requires Named(calls, b.sb.ninodes)
    modifies b
    ensures !made ==> b.freeblock == b.sb.size || Mkfs.TooMuch(b.sb, items)
    ensures made ==> b.Made(items) && |b.img.tbl| == b.sb.ninodes && done <= |calls|
    ensures made ==>
              ((forall cs :: Named(cs, b.sb.ninodes) ==> AllGood(FileTable(b.img), cs)) <==>
                (|items| + 2) % 32 != 0 || (|items| + 2) / 32 > NDIRECT)
    ensures made && !ok ==>
              && done < |calls| && AllGood(FileTable(b.img), calls[..done])
              && (AllMarked(last) || StopsAt(FileTable(b.img), calls, done))
    ensures made && ok ==>
              && outs == Outputs(FileTable(b.img), calls[..done])
              && (Exact(OnDisk(last)) <==> AllGood(FileTable(b.img), calls))
              && (AllGood(FileTable(b.img), calls) ==>
                   done == |calls| && FileTable(last) == AfterAll(FileTable(b.img), calls))
  {
    ok, done, outs, last := false, 0, [], b.img;
    made := b.MakeFs(items);
    if !made {
      return;
    }
    MadeGood(b, items);
    SameFiles(b.img, ROOTINO);
    var vol := new Volume(Focus(b.img, ROOTINO), b.sb, ROOTINO, b.disk);
    ok, done, outs := Run(vol, calls);
    last := vol.img;
  }

  lemma MadeGood(b: Mkfs.Builder, items: seq<Mkfs.Item>)
    requires b.Made(items)
    ensures |b.img.tbl| == b.sb.ninodes
    ensures (forall cs :: Named(cs, b.sb.ninodes) ==> AllGood(FileTable(b.img), cs)) <==>
      (|items| + 2) % 32 != 0 || (|items| + 2) / 32 > NDIRECT
  {
    var fs := FileTable(b.img);
    RootFull(b.img, |items| + 2);
    assert fs[ROOTINO] == FileAt(b.img, ROOTINO);
    forall j | 0 <= j < |b.img.tbl| && j != ROOTINO ensures FullFile(fs[j]) {
      OthersFull(b.img, j);
    }
    AlwaysGoodIff(fs);
  }

  /** A root directory of 32 entries has no second block, and a read of one entry there is not good. */
  lemma SecondBlock(v: Image)
    requires ROOTINO < |v.tbl| && v.dinodes[ROOTINO].size == 2 * BSIZE
    requires Mkfs.FitsTo(v.blocks, v.tbl[ROOTINO], BSIZE)
    ensures var c := Read(ROOTINO, BSIZE, 16); !AllGood(FileTable(v), [c]) && !TooFar(FileAt(v, ROOTINO), c)
  {
    var c := Read(ROOTINO, BSIZE, 16);
    assert Ref(v.blocks, v.tbl[ROOTINO], SlotOf(1)) == 0;
    assert Touches(BSIZE, 16, 1) && Head(1) in Heads(BSIZE, 16) && Head(1) !in FileAt(v, ROOTINO).have;
    assert [c][..0] == [];
  }

  /** With 30 items the root has 1024 bytes and one block. A lookup that reads past its entries makes the bitmap wrong
      on disk. */
  method ThirtyItems(b: Mkfs.Builder, items: seq<Mkfs.Item>) returns (made: bool, ok: bool, ghost last: Image)
    requires b.Ready() && b.freeinode == 1 && (forall j :: 0 <= j < b.sb.ninodes ==> Files(b.img)[j] == [])
    requires |items| == 30 && b.sb.ninodes > ROOTINO
    modifies b
    ensures made ==> if ok then !Exact(OnDisk(last)) else AllMarked(last)
  {
    var done, outs;
    made, ok, done, outs, last := MakeAndRun(b, items, [Read(ROOTINO, BSIZE, 16)]);
    if made {
      SecondBlock(b.img);
      assert [Read(ROOTINO, BSIZE, 16)][..0] == [];
    }
  }
}
