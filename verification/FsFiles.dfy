/** A volume as a table of files: their bytes, and which addresses their inodes have. */
module FsFiles {
  import opened Blocks
  import opened FsLayout
  import opened FsExact
  import opened FsSteps

  /** Every inode of the table is as in its dinode. */
  ghost predicate Settled(v: Image) {
    forall j :: 0 <= j < |v.tbl| ==> v.tbl[j] == v.dinodes[j].addrs
  }

  /** The same volume, to change another inode. */
  ghost function Focus(v: Image, i: nat): (r: Image)
    requires Settled(v) && i < |v.tbl|
    ensures r == v.(inum := i)
  {
    assert forall j, s :: Place(v, j, s) ==> R(v.(inum := i), j, s) == R(v, j, s);
    ExactSame(v, v.(inum := i));
    v.(inum := i)
  }

  /** The contents of file j, as far as a file can reach. */
  ghost function Contents(v: Image, j: nat): (s: seq<byte>)
    requires j < |v.tbl|
  {
    var n: int := if v.dinodes[j].size > MAXFILE * BSIZE then MAXFILE * BSIZE else v.dinodes[j].size;
    seq<byte>(n, k requires 0 <= k < n => FileByte(v.blocks, v.tbl[j], k))
  }

  /** The contents of all files. */
  ghost function Files(v: Image): (fs: seq<seq<byte>>)
    ensures |fs| == |v.tbl|
  {
    seq<seq<byte>>(|v.tbl|, j requires 0 <= j < |v.tbl| => Contents(v, j))
  }

  // ---- Which addresses a call looks at ----

  /** Block bn of a file holds some of the n bytes from off on. */
  predicate Touches(off: nat, n: nat, bn: int) {
    n > 0 && bn * BSIZE < off + n && off < bn * BSIZE + BSIZE
  }

  /** Where the m bytes after off + tot are all in one block. */
  lemma TouchesNext(off: nat, tot: nat, m: nat)
    requires m > 0 && (off + tot) % BSIZE + m <= BSIZE
    ensures forall bn :: Touches(off, tot + m, bn) <==> Touches(off, tot, bn) || bn == (off + tot) / BSIZE
  {
    forall bn ensures Touches(off, tot + m, bn) <==> Touches(off, tot, bn) || bn == (off + tot) / BSIZE {
      if bn >= 0 {
        InChunk(off + tot, m, bn * BSIZE);
      }
    }
  }

  /** The address in the inode through which block bn is found. */
  function Head(bn: nat): (i: nat)
    ensures i <= NDIRECT
  {
    if bn < NDIRECT then bn else NDIRECT
  }

  /** The inode has the addresses through which those blocks are found. */
  ghost predicate Addressed(addrs: seq<uint>, off: nat, n: nat)
    requires |addrs| == NDIRECT + 1
  {
    forall bn :: 0 <= bn < MAXFILE && Touches(off, n, bn) ==> addrs[Head(bn)] != 0
  }

  /** Those addresses. */
  function Heads(off: nat, n: nat): (s: set<nat>) {
    set bn: nat | bn < MAXFILE && Touches(off, n, bn) :: Head(bn)
  }

  /** The addresses in use are the same. */
  ghost predicate Kept(addrs: seq<uint>, addrs': seq<uint>)
    requires |addrs| == |addrs'| == NDIRECT + 1
  {
    forall i :: 0 <= i <= NDIRECT && addrs[i] != 0 ==> addrs'[i] == addrs[i]
  }

  function Have(addrs: seq<uint>): (s: set<nat>) {
    set i: nat | i < |addrs| && addrs[i] != 0
  }

  lemma HeadsNext(off: nat, tot: nat, m: nat)
    requires m > 0 && (off + tot) % BSIZE + m <= BSIZE && (off + tot) / BSIZE < MAXFILE
    ensures Heads(off, tot + m) == Heads(off, tot) + {Head((off + tot) / BSIZE)}
  {
    TouchesNext(off, tot, m);
    var bn := (off + tot) / BSIZE;
    assert Touches(off, tot + m, bn);
    forall i ensures i in Heads(off, tot + m) <==> i in Heads(off, tot) + {Head(bn)} {
      if b: nat :| b < MAXFILE && Touches(off, tot, b) && Head(b) == i {
        assert Touches(off, tot + m, b);
      }
    }
  }

  lemma HeadsAddressed(addrs: seq<uint>, off: nat, n: nat)
    requires |addrs| == NDIRECT + 1
    ensures Heads(off, n) <= Have(addrs) <==> Addressed(addrs, off, n)
  {
    if Heads(off, n) <= Have(addrs) {
      forall bn | 0 <= bn < MAXFILE && Touches(off, n, bn) ensures addrs[Head(bn)] != 0 {
        assert Head(bn) in Heads(off, n);
      }
    }
  }

  // ---- Calls on files ----

  /** The size may be more than a file can reach; have are the addresses in the inode that are not zero. */
  datatype File = File(size: nat, bytes: seq<byte>, have: set<nat>)

  predicate FileOk(f: File) {
    |f.bytes| == if f.size > MAXFILE * BSIZE then MAXFILE * BSIZE else f.size
  }

  ghost function FileAt(v: Image, j: nat): (f: File)
    requires j < |v.tbl|
    ensures FileOk(f)
  {
    File(v.dinodes[j].size, Contents(v, j), Have(v.tbl[j]))
  }

  ghost function FileTable(v: Image): (fs: seq<File>)
    ensures TableOk(fs) && |fs| == |v.tbl|
  {
    seq<File>(|v.tbl|, j requires 0 <= j < |v.tbl| => FileAt(v, j))
  }

  predicate TableOk(fs: seq<File>) {
    forall j :: 0 <= j < |fs| ==> FileOk(fs[j])
  }

  datatype Call = Read(inum: nat, off: uint, n: uint) | Write(inum: nat, src: seq<byte>, off: uint) | Trunc(inum: nat)

  /** The length that readi settles on. */
  function Clipped(f: File, off: nat, n: nat): (m: nat) {
    if off > f.size || off + n >= WORD_LIMIT then 0 else if off + n > f.size then f.size - off else n
  }

  /** A read past what a file can reach, which panics in bmap. */
  predicate TooFar(f: File, c: Call) {
    c.Read? && Clipped(f, c.off, c.n) > 0 && c.off + Clipped(f, c.off, c.n) > MAXFILE * BSIZE
  }

  /** A write out of range, which is refused. */
  predicate OutOfRange(f: File, src: seq<byte>, off: nat) {
    off > f.size || off + |src| >= WORD_LIMIT || off + |src| > MAXFILE * BSIZE
  }

  /** The call makes the file longer, or the inode has all addresses that it looks at. */
  predicate Good(f: File, c: Call) {
    match c
    case Read(_, off, n) => Heads(off, Clipped(f, off, n)) <= f.have
    case Write(_, src, off) => OutOfRange(f, src, off) || off + |src| > f.size || Heads(off, |src|) <= f.have
    case Trunc(_) => true
  }

  /** src written over f from off on. */
  function Splice(f: seq<byte>, src: seq<byte>, off: nat): (r: seq<byte>)
    requires off <= |f|
    ensures |r| == if off + |src| > |f| then off + |src| else |f|
    ensures forall k :: 0 <= k < |r| ==> r[k] == if off <= k < off + |src| then src[k - off] else f[k]
  {
    f[..off] + src + if off + |src| < |f| then f[off + |src|..] else []
  }

  /** The file after a good call. */
  function AfterFile(f: File, c: Call): (r: File)
    requires FileOk(f)
    ensures FileOk(r)
  {
    match c
    case Read(_, _, _) => f
    case Write(_, src, off) =>
      if OutOfRange(f, src, off) then f
      else if off + |src| > f.size then File(off + |src|, Splice(f.bytes, src, off), f.have + Heads(off, |src|))
      else f.(bytes := Splice(f.bytes, src, off))
    case Trunc(_) => File(0, [], {})
  }

  /** What a call gives back. */
  function Output(f: File, c: Call): (r: seq<byte>)
    requires FileOk(f)
  {
    if c.Read? && !TooFar(f, c) && Clipped(f, c.off, c.n) > 0 then f.bytes[c.off..c.off + Clipped(f, c.off, c.n)]
    else []
  }

  predicate Named(calls: seq<Call>, n: nat) {
    forall i :: 0 <= i < |calls| ==> calls[i].inum < n && (calls[i].Write? ==> |calls[i].src| < WORD_LIMIT)
  }

  function After(fs: seq<File>, c: Call): (r: seq<File>)
    requires TableOk(fs) && c.inum < |fs|
    ensures TableOk(r) && |r| == |fs|
  {
    fs[c.inum := AfterFile(fs[c.inum], c)]
  }

  function AfterAll(fs: seq<File>, calls: seq<Call>): (r: seq<File>)
    requires TableOk(fs) && Named(calls, |fs|)
    ensures TableOk(r) && |r| == |fs|
  {
    if calls == [] then fs else After(AfterAll(fs, calls[..|calls| - 1]), calls[|calls| - 1])
  }

  function Outputs(fs: seq<File>, calls: seq<Call>): (r: seq<seq<byte>>)
    requires TableOk(fs) && Named(calls, |fs|)
  {
    if calls == [] then []
    else
      var rest, c := calls[..|calls| - 1], calls[|calls| - 1];
      Outputs(fs, rest) + [Output(AfterAll(fs, rest)[c.inum], c)]
  }

  /** Every call is good when its turn comes. */
  predicate AllGood(fs: seq<File>, calls: seq<Call>)
    requires TableOk(fs) && Named(calls, |fs|)
  {
    calls == [] ||
    var rest, c := calls[..|calls| - 1], calls[|calls| - 1];
    AllGood(fs, rest) && Good(AfterAll(fs, rest)[c.inum], c)
  }

  // ---- When every run is good ----

  /** The inode has the addresses for all bytes of the file. */
  predicate FullFile(f: File) {
    forall bn: nat :: bn < MAXFILE && bn * BSIZE < f.size ==> Head(bn) in f.have
  }

  lemma FullGood(f: File, c: Call)
    requires FileOk(f) && FullFile(f)
    ensures Good(f, c) && FullFile(AfterFile(f, c))
  {
    match c
    case Read(_, off, n) =>
    case Write(_, src, off) =>
      if !OutOfRange(f, src, off) && off + |src| > f.size {
        forall bn: nat | bn < MAXFILE && bn * BSIZE < off + |src| ensures Head(bn) in f.have + Heads(off, |src|) {
          if bn * BSIZE >= f.size {
            assert Touches(off, |src|, bn);
          }
        }
      }
    case Trunc(_) =>
  }

  lemma {:induction false} FullAllGood(fs: seq<File>, calls: seq<Call>)
    requires TableOk(fs) && Named(calls, |fs|) && forall j :: 0 <= j < |fs| ==> FullFile(fs[j])
    ensures AllGood(fs, calls) && forall j :: 0 <= j < |fs| ==> FullFile(AfterAll(fs, calls)[j])
  {
    if calls != [] {
      var rest, c := calls[..|calls| - 1], calls[|calls| - 1];
      FullAllGood(fs, rest);
      FullGood(AfterAll(fs, rest)[c.inum], c);
    }
  }

  /** Every run is good if and only if every inode has the addresses for all bytes of its file. */
  lemma AlwaysGoodIff(fs: seq<File>)
    requires TableOk(fs)
    ensures (forall calls :: Named(calls, |fs|) ==> AllGood(fs, calls)) <==>
      forall j :: 0 <= j < |fs| ==> FullFile(fs[j])
  {
    if forall j :: 0 <= j < |fs| ==> FullFile(fs[j]) {
      forall calls | Named(calls, |fs|) ensures AllGood(fs, calls) {
        FullAllGood(fs, calls);
      }
    } else {
      var j :| 0 <= j < |fs| && !FullFile(fs[j]);
      var bn: nat :| bn < MAXFILE && bn * BSIZE < fs[j].size && Head(bn) !in fs[j].have;
      MissingBad(fs, j, bn);
    }
  }

  /** A read of a byte whose address is missing is not good. */
  lemma MissingBad(fs: seq<File>, j: nat, bn: nat)
    requires TableOk(fs) && j < |fs| && bn < MAXFILE && bn * BSIZE < fs[j].size && Head(bn) !in fs[j].have
    ensures Named([Read(j, bn * BSIZE, 1)], |fs|) && !AllGood(fs, [Read(j, bn * BSIZE, 1)])
  {
    var c := Read(j, bn * BSIZE, 1);
    assert Touches(bn * BSIZE, 1, bn);
    assert [c][..0] == [];
    assert Head(bn) in Heads(c.off, Clipped(fs[j], c.off, c.n));
  }

  // ---- What is on disk ----

  /** The volume as a reboot finds it, with the addresses of the dinodes. */
  ghost function OnDisk(v: Image): (r: View) {
    v.(tbl := seq<seq<uint>>(|v.dinodes|, j requires 0 <= j < |v.dinodes| => v.dinodes[j].addrs))
  }

  /** Each address in the dinode of the inode that changes is that of the inode, or zero. */
  ghost predicate Fewer(v: Image) {
    forall i :: 0 <= i <= NDIRECT ==>
      v.dinodes[v.inum].addrs[i] == 0 || v.dinodes[v.inum].addrs[i] == v.tbl[v.inum][i]
  }

  /** The bitmap is exact on disk if and only if the inode in memory has no address that its dinode lacks. */
  lemma DiskExactIff(v: Image)
    requires Fewer(v)
    ensures Exact(OnDisk(v)) <==> Settled(v)
  {
    var w := OnDisk(v);
    if Settled(v) {
      assert w.tbl == v.tbl;
    } else {
      var j :| 0 <= j < |v.tbl| && v.tbl[j] != v.dinodes[j].addrs;
      assert j == v.inum;
      var i :| 0 <= i <= NDIRECT && v.tbl[j][i] != v.dinodes[j].addrs[i];
      Unreferenced(v, i);
      assert Place(v, j, i) && R(v, j, i) == v.tbl[j][i];
      RefMarked(v, j, i);
    }
  }

  /** An address that only the inode in memory has is in no dinode. */
  lemma Unreferenced(v: Image, i: nat)
    requires Fewer(v) && i <= NDIRECT && v.dinodes[v.inum].addrs[i] == 0 != v.tbl[v.inum][i]
    ensures Shaped(OnDisk(v)) && !Referenced(OnDisk(v), v.tbl[v.inum][i])
  {
    var w, b := OnDisk(v), v.tbl[v.inum][i];
    assert Place(v, v.inum, i) && R(v, v.inum, i) == b;
    forall j, s | Place(w, j, s) ensures R(w, j, s) != b {
      assert Place(v, j, s);
      if j != v.inum {
        assert w.tbl[j] == v.tbl[j] && R(w, j, s) == R(v, j, s);
      } else {
        assert R(w, j, s) == 0 || R(w, j, s) == R(v, j, s);
      }
    }
  }

  // ---- What the steps of fs.c do to the files ----

  lemma SameFiles(v: Image, i: nat)
    requires Settled(v) && i < |v.tbl|
    ensures FileTable(Focus(v, i)) == FileTable(v)
  {
    forall j | 0 <= j < |v.tbl| ensures FileTable(Focus(v, i))[j] == FileTable(v)[j] {
    }
  }

  /** The other files, where one inode changes. */
  lemma OtherFiles(v: Image, r: Image)
    requires Untouched(v, r)
    ensures forall j :: 0 <= j < |v.tbl| && j != v.inum ==> FileAt(r, j) == FileAt(v, j)
  {
    forall j | 0 <= j < |v.tbl| && j != v.inum ensures FileAt(r, j) == FileAt(v, j) {
      forall k | 0 <= k < |Contents(v, j)| ensures FileByte(r.blocks, r.tbl[j], k) == FileByte(v.blocks, v.tbl[j], k) {
        UntouchedBytes(v, r, j, k);
      }
      assert Contents(r, j) == Contents(v, j);
    }
  }

  lemma OneFile(v: Image, r: Image, f: File)
    requires Untouched(v, r) && FileAt(r, v.inum) == f
    ensures FileTable(r) == FileTable(v)[v.inum := f]
  {
    OtherFiles(v, r);
    forall j | 0 <= j < |v.tbl| ensures FileTable(r)[j] == FileTable(v)[v.inum := f][j] {
      assert j != v.inum ==> FileAt(r, j) == FileAt(v, j);
    }
  }

  /** A splice of the file on disk is one of its byte string. */
  lemma WriteFiles(v: Image, r: Image, src: seq<byte>, off: uint)
    requires Untouched(v, r) && Spliced(v, r, off, src) && !OutOfRange(FileAt(v, v.inum), src, off)
    requires r.dinodes[v.inum].size ==
      if off + |src| > v.dinodes[v.inum].size then off + |src| else v.dinodes[v.inum].size
    requires Have(r.tbl[v.inum]) == Have(v.tbl[v.inum]) + Heads(off, |src|)
    requires Good(FileAt(v, v.inum), Write(v.inum, src, off))
    ensures FileTable(r) == After(FileTable(v), Write(v.inum, src, off))
  {
    var f := AfterFile(FileAt(v, v.inum), Write(v.inum, src, off));
    forall k | 0 <= k < |f.bytes| ensures Contents(r, v.inum)[k] == f.bytes[k] {
      assert FileByte(r.blocks, r.tbl[v.inum], k) == SpliceByte(v.blocks, v.tbl[v.inum], true, off, src, k);
    }
    assert Contents(r, v.inum) == f.bytes;
    OneFile(v, r, f);
  }

  lemma TruncFiles(v: Image, r: Image)
    requires Untouched(v, r) && r.dinodes[v.inum].size == 0 && Have(r.tbl[v.inum]) == {}
    ensures FileTable(r) == After(FileTable(v), Trunc(v.inum))
  {
    assert Contents(r, v.inum) == [];
    OneFile(v, r, File(0, [], {}));
  }
}
