/** The block writes of the write-ahead log (log.c) as values: which blocks
    `commit` and `recover_from_log` send to the disk, in which order, and what
    a disk that saw only the first k of them recovers to. */
module WriteAhead {
  import opened Blocks
  import opened Sequences

  const MAXOPBLOCKS := 10
  const LOGSIZE := 3 * MAXOPBLOCKS

  datatype Write = Write(sector: nat, data: Block)

  /** Where the log lives: the header at `start`, log blocks behind it. */
  datatype Layout = Layout(start: nat, size: nat)

  ghost predicate Fits(l: Layout, d: Disk) {
    1 <= l.size && l.start + l.size <= |d|
  }

  function ApplyOne(d: Disk, w: Write): (r: Disk) {
    if w.sector < |d| then d[w.sector := w.data] else d
  }

  function Apply(d: Disk, ws: seq<Write>): (r: Disk)
    ensures |r| == |d|
  {
    if ws == [] then d else ApplyOne(Apply(d, ws[..|ws| - 1]), ws[|ws| - 1])
  }

  lemma ApplyStep(d: Disk, ws: seq<Write>, k: nat)
    requires k < |ws|
    ensures Apply(d, ws[..k + 1]) == ApplyOne(Apply(d, ws[..k]), ws[k])
  {
    assert ws[..k + 1][..k] == ws[..k];
  }

  // ---- The header block ----

  function PutSectors(b: Block, lh: seq<uint>): (r: Block)
    requires |lh| <= LOGSIZE
  {
    if lh == [] then b
    else PutWord(PutSectors(b, lh[..|lh| - 1]), |lh|, lh[|lh| - 1])
  }

  /** The header block after `write_head` put the list lh into it; the words
      behind the list keep what they held. */
  function HeaderBlock(b: Block, lh: seq<uint>): (r: Block)
    requires |lh| <= LOGSIZE
  {
    PutSectors(PutWord(b, 0, |lh|), lh)
  }

  /** The list of home sectors that a header block records. */
  function HeaderSectors(b: Block): (lh: seq<uint>)
    requires Word(b, 0) <= LOGSIZE
  {
    seq(Word(b, 0), i requires 0 <= i < Word(b, 0) => Word(b, 1 + i))
  }

  lemma {:induction false} PutSectorsWord(b: Block, lh: seq<uint>, j: nat)
    requires |lh| <= LOGSIZE && j < WORDS
    ensures Word(PutSectors(b, lh), j) == if 1 <= j <= |lh| then lh[j - 1] else Word(b, j)
  {
    if lh != [] {
      PutSectorsWord(b, lh[..|lh| - 1], j);
      WordAfterPut(PutSectors(b, lh[..|lh| - 1]), |lh|, lh[|lh| - 1], j);
    }
  }

  /** read_head gets back exactly the list that write_head stored. */
  lemma HeaderRoundTrip(b: Block, lh: seq<uint>)
    requires |lh| <= LOGSIZE
    ensures Word(HeaderBlock(b, lh), 0) == |lh|
    ensures HeaderSectors(HeaderBlock(b, lh)) == lh
  {
    var h := PutWord(b, 0, |lh|);
    PutSectorsWord(h, lh, 0);
    WordAfterPut(b, 0, |lh|, 0);
    forall j | 0 <= j < |lh| ensures Word(HeaderBlock(b, lh), 1 + j) == lh[j] {
      PutSectorsWord(h, lh, 1 + j);
    }
  }

  // ---- What a disk says about the log ----

  /** A list of logged sectors that the log can hold and that lie outside it. */
  ghost predicate GoodList(l: Layout, lh: seq<uint>) {
    && |lh| <= LOGSIZE && |lh| < l.size
    && Distinct(lh)
    && forall i :: 0 <= i < |lh| ==> lh[i] < l.start
  }

  ghost predicate GoodHeader(l: Layout, d: Disk) {
    && Fits(l, d)
    && Word(d[l.start], 0) <= LOGSIZE
    && GoodList(l, HeaderSectors(d[l.start]))
  }

  function Logged(l: Layout, d: Disk): (lh: seq<uint>)
    requires l.start < |d| && Word(d[l.start], 0) <= LOGSIZE
  {
    HeaderSectors(d[l.start])
  }

  // ---- Commit and recovery as lists of writes ----

  /** Write i of a commit: log blocks, the header, home blocks, the empty header. */
  function CommitWrite(l: Layout, lh: seq<uint>, view: Disk, full: Block, empty: Block, i: nat): (w: Write)
    requires i < 2 * |lh| + 2
    requires forall j :: 0 <= j < |lh| ==> lh[j] < |view|
  {
    var n := |lh|;
    if i < n then Write(l.start + 1 + i, view[lh[i]])
    else if i == n then Write(l.start, full)
    else if i <= 2 * n then Write(lh[i - n - 1], view[lh[i - n - 1]])
    else Write(l.start, empty)
  }

  /** The writes of `commit` for the list lh, when the logical disk is `view`
      and the header block holds `head`. An empty list writes nothing. */
  function CommitWrites(l: Layout, lh: seq<uint>, view: Disk, head: Block): (ws: seq<Write>)
    requires |lh| <= LOGSIZE
    requires forall i :: 0 <= i < |lh| ==> lh[i] < |view|
  {
    if lh == [] then []
    else
      var full := HeaderBlock(head, lh);
      var empty := HeaderBlock(full, []);
      seq(2 * |lh| + 2, i requires 0 <= i < 2 * |lh| + 2 => CommitWrite(l, lh, view, full, empty, i))
  }

  /** The writes of `recover_from_log`: home blocks, then the empty header. */
  function RecoverWrites(l: Layout, d: Disk): (ws: seq<Write>)
    requires Fits(l, d) && Word(d[l.start], 0) <= LOGSIZE && Word(d[l.start], 0) < l.size
  {
    var lh := Logged(l, d);
    seq(|lh| + 1, i requires 0 <= i < |lh| + 1 =>
      if i < |lh| then Write(lh[i], d[l.start + 1 + i])
      else Write(l.start, HeaderBlock(d[l.start], [])))
  }

  /** The disk once an undisturbed recovery has finished. */
  function Recovered(l: Layout, d: Disk): (r: Disk)
    requires Fits(l, d) && Word(d[l.start], 0) <= LOGSIZE && Word(d[l.start], 0) < l.size
  {
    Apply(d, RecoverWrites(l, d))
  }

  /** Everything outside the log region and before it. */
  function Home(l: Layout, d: Disk): (r: seq<Block>)
    requires l.start <= |d|
  {
    d[..l.start]
  }

  // ---- What the disk looks like after k writes ----

  /** The home blocks in d, after the first k entries of lh were installed over d0. */
  ghost predicate Installed(l: Layout, d0: Disk, lh: seq<uint>, src: seq<Block>, k: nat, d: Disk)
    requires |lh| == |src| && k <= |lh| && l.start <= |d0| == |d|
    requires GoodList(l, lh)
  {
    && (forall j :: 0 <= j < k ==> d[lh[j]] == src[j])
    && (forall s :: 0 <= s < l.start && s !in lh[..k] ==> d[s] == d0[s])
  }

  lemma InstallOne(l: Layout, d0: Disk, lh: seq<uint>, src: seq<Block>, k: nat, d: Disk)
    requires |lh| == |src| && k < |lh| && l.start <= |d0| == |d|
    requires GoodList(l, lh)
    requires Installed(l, d0, lh, src, k, d)
    ensures Installed(l, d0, lh, src, k + 1, d[lh[k] := src[k]])
  {
    assert lh[..k + 1] == lh[..k] + [lh[k]];
  }

  /** Installing a whole list over two disks that differ only at its sectors
      gives the same home blocks. */
  lemma InstalledUnique(l: Layout, d0: Disk, d1: Disk, lh: seq<uint>, src: seq<Block>, k: nat, a: Disk, b: Disk)
    requires |lh| == |src| && k <= |lh| && l.start <= |d0| == |d1| == |a| == |b|
    requires GoodList(l, lh)
    requires Installed(l, d0, lh, src, k, d1)
    requires Installed(l, d0, lh, src, |lh|, a) && Installed(l, d1, lh, src, |lh|, b)
    ensures Home(l, a) == Home(l, b)
  {
    forall s | 0 <= s < l.start ensures a[s] == b[s] {
      if s in lh {
        var j :| 0 <= j < |lh| && lh[j] == s;
      } else {
        assert s !in lh[..k];
        assert lh[..|lh|] == lh;
      }
    }
  }

  function LogBlocks(l: Layout, d: Disk, n: nat): (bs: seq<Block>)
    requires l.start + 1 + n <= |d|
  {
    d[l.start + 1..l.start + 1 + n]
  }

  /** The disk r after k writes of a recovery of d whose header lists lh; the
      last write puts `empty` into the header. */
  ghost predicate RecoverShape(l: Layout, d: Disk, lh: seq<uint>, empty: Block, k: nat, r: Disk)
    requires Fits(l, d) && GoodList(l, lh)
  {
    var n := |lh|;
    && |r| == |d| && k <= n + 1
    && Installed(l, d, lh, LogBlocks(l, d, n), if k <= n then k else n, r)
    && LogBlocks(l, r, n) == LogBlocks(l, d, n)
    && r[l.start] == if k <= n then d[l.start] else empty
  }

  lemma RecoverShapeStep(l: Layout, d: Disk, lh: seq<uint>, empty: Block, k: nat, r: Disk, w: Write)
    requires Fits(l, d) && GoodList(l, lh) && k <= |lh|
    requires RecoverShape(l, d, lh, empty, k, r)
    requires w == if k < |lh| then Write(lh[k], d[l.start + 1 + k]) else Write(l.start, empty)
    ensures RecoverShape(l, d, lh, empty, k + 1, ApplyOne(r, w))
  {
    if k < |lh| {
      InstallOne(l, d, lh, LogBlocks(l, d, |lh|), k, r);
      assert ApplyOne(r, w) == r[lh[k] := LogBlocks(l, d, |lh|)[k]];
    }
  }

  lemma {:induction false} RecoverPrefix(l: Layout, d: Disk, lh: seq<uint>, k: nat)
    requires GoodHeader(l, d) && lh == Logged(l, d)
    requires k <= |lh| + 1
    ensures RecoverShape(l, d, lh, HeaderBlock(d[l.start], []), k, Apply(d, RecoverWrites(l, d)[..k]))
  {
    var ws := RecoverWrites(l, d);
    if k > 0 {
      var j := k - 1;
      assert ws[..k] == ws[..j + 1];
      RecoverPrefix(l, d, lh, j);
      ApplyStep(d, ws, j);
      RecoverShapeStep(l, d, lh, HeaderBlock(d[l.start], []), j, Apply(d, ws[..j]), ws[j]);
    }
  }

  /** What recovery does to the home blocks: the logged ones come from the log,
      the others stay; the log is empty afterwards. */
  lemma RecoveredIs(l: Layout, d: Disk)
    requires GoodHeader(l, d)
    ensures var lh := Logged(l, d); Installed(l, d, lh, LogBlocks(l, d, |lh|), |lh|, Recovered(l, d))
    ensures Word(Recovered(l, d)[l.start], 0) == 0
    ensures Logged(l, d) == [] ==> Home(l, Recovered(l, d)) == Home(l, d)
  {
    var ws := RecoverWrites(l, d);
    assert ws[..|ws|] == ws;
    RecoverPrefix(l, d, Logged(l, d), |ws|);
    HeaderRoundTrip(d[l.start], []);
  }

  /** Crash during recovery: after any k writes of it, recovering again gives
      the same home blocks as the first recovery would have. */
  lemma RecoverCrash(l: Layout, d: Disk, k: nat)
    requires GoodHeader(l, d)
    requires k <= |RecoverWrites(l, d)|
    ensures var r := Apply(d, RecoverWrites(l, d)[..k]);
            GoodHeader(l, r) && Home(l, Recovered(l, r)) == Home(l, Recovered(l, d))
  {
    var lh := Logged(l, d);
    var n := |lh|;
    var src := LogBlocks(l, d, n);
    var r := Apply(d, RecoverWrites(l, d)[..k]);
    RecoverPrefix(l, d, lh, k);
    RecoveredIs(l, d);
    HeaderRoundTrip(d[l.start], []);
    RecoveredIs(l, r);
    if k <= n {
      InstalledUnique(l, d, r, lh, src, k, Recovered(l, d), Recovered(l, r));
    } else {
      var ws := RecoverWrites(l, d);
      assert ws[..k] == ws;
    }
  }

  // ---- Commit ----

  ghost predicate CommitReady(l: Layout, lh: seq<uint>, view: Disk, d: Disk) {
    && Fits(l, d) && |view| == |d|
    && GoodList(l, lh)
    && Word(d[l.start], 0) == 0
    && forall s :: 0 <= s < l.start && s !in lh ==> view[s] == d[s]
  }

  function Wanted(lh: seq<uint>, view: Disk): (bs: seq<Block>)
    requires forall i :: 0 <= i < |lh| ==> lh[i] < |view|
  {
    seq(|lh|, i requires 0 <= i < |lh| => view[lh[i]])
  }

  /** The disk r after k writes of a commit on d; `full` and `empty` are the
      two header blocks it writes. */
  ghost predicate CommitShape(l: Layout, lh: seq<uint>, view: Disk, d: Disk, full: Block, empty: Block, k: nat, r: Disk)
    requires CommitReady(l, lh, view, d)
  {
    var n := |lh|;
    && |r| == |d| && k <= 2 * n + 2
    && Installed(l, d, lh, Wanted(lh, view), HomeDone(n, k), r)
    && (forall i :: 0 <= i < n && i < k ==> r[l.start + 1 + i] == view[lh[i]])
    && r[l.start] == (if k <= n then d[l.start] else if k <= 2 * n + 1 then full else empty)
  }

  /** How many home blocks the first k writes of a commit of n blocks install. */
  function HomeDone(n: nat, k: nat): (h: nat)
    ensures h <= n
  {
    if k <= n then 0 else if k <= 2 * n + 1 then k - n - 1 else n
  }

  lemma CommitShapeStart(l: Layout, lh: seq<uint>, view: Disk, d: Disk, full: Block, empty: Block)
    requires CommitReady(l, lh, view, d)
    ensures CommitShape(l, lh, view, d, full, empty, 0, d)
  {
  }

  lemma CommitShapeStep(l: Layout, lh: seq<uint>, view: Disk, d: Disk, full: Block, empty: Block, k: nat, r: Disk,
      w: Write)
    requires CommitReady(l, lh, view, d) && k < 2 * |lh| + 2
    requires CommitShape(l, lh, view, d, full, empty, k, r)
    requires w == CommitWrite(l, lh, view, full, empty, k)
    ensures CommitShape(l, lh, view, d, full, empty, k + 1, ApplyOne(r, w))
  {
    var n := |lh|;
    if n < k <= 2 * n {
      InstallOne(l, d, lh, Wanted(lh, view), k - n - 1, r);
      assert ApplyOne(r, w) == r[lh[k - n - 1] := Wanted(lh, view)[k - n - 1]];
    }
  }

  lemma {:induction false} CommitPrefix(l: Layout, lh: seq<uint>, view: Disk, d: Disk, full: Block, empty: Block,
      ws: seq<Write>, k: nat)
    requires CommitReady(l, lh, view, d)
    requires |ws| == 2 * |lh| + 2 && k <= |ws|
    requires forall i :: 0 <= i < |ws| ==> ws[i] == CommitWrite(l, lh, view, full, empty, i)
    ensures CommitShape(l, lh, view, d, full, empty, k, Apply(d, ws[..k]))
  {
    if k == 0 {
      CommitShapeStart(l, lh, view, d, full, empty);
    } else {
      var j := k - 1;
      assert ws[..k] == ws[..j + 1];
      CommitPrefix(l, lh, view, d, full, empty, ws, j);
      ApplyStep(d, ws, j);
      CommitShapeStep(l, lh, view, d, full, empty, j, Apply(d, ws[..j]), ws[j]);
    }
  }

  /** Recovery of a disk in the middle of a commit. */
  lemma CommitShapeRecovers(l: Layout, lh: seq<uint>, view: Disk, d: Disk, full: Block, empty: Block, k: nat, r: Disk)
    requires CommitReady(l, lh, view, d) && lh != [] && k <= 2 * |lh| + 2
    requires CommitShape(l, lh, view, d, full, empty, k, r)
    requires Word(full, 0) == |lh| && HeaderSectors(full) == lh && Word(empty, 0) == 0
    ensures GoodHeader(l, r)
    ensures Home(l, Recovered(l, r)) == if k <= |lh| then Home(l, d) else Home(l, view)
  {
    var n := |lh|;
    if k <= n {
      RecoveredIs(l, r);
    } else if k <= 2 * n + 1 {
      RecoveredIs(l, r);
      assert LogBlocks(l, r, n) == Wanted(lh, view);
      CommittedHome(l, lh, view, d, k - n - 1, r, Recovered(l, r));
    } else {
      RecoveredIs(l, r);
      CommittedHome(l, lh, view, d, n, r, r);
    }
  }

  /** Crash during commit: up to the header write the transaction is absent as
      a whole, from the header write on it is present as a whole. */
  lemma CommitCrash(l: Layout, lh: seq<uint>, view: Disk, d: Disk, k: nat)
    requires CommitReady(l, lh, view, d)
    requires k <= |CommitWrites(l, lh, view, d[l.start])|
    ensures var r := Apply(d, CommitWrites(l, lh, view, d[l.start])[..k]);
            GoodHeader(l, r)
            && Home(l, Recovered(l, r)) == if k <= |lh| then Home(l, d) else Home(l, view)
  {
    if lh == [] {
      RecoveredIs(l, d);
    } else {
      var full := HeaderBlock(d[l.start], lh);
      var ws := CommitWrites(l, lh, view, d[l.start]);
      CommitPrefix(l, lh, view, d, full, HeaderBlock(full, []), ws, k);
      HeaderRoundTrip(d[l.start], lh);
      HeaderRoundTrip(full, []);
      CommitShapeRecovers(l, lh, view, d, full, HeaderBlock(full, []), k, Apply(d, ws[..k]));
    }
  }

  lemma CommittedHome(l: Layout, lh: seq<uint>, view: Disk, d: Disk, k: nat, r: Disk, a: Disk)
    requires CommitReady(l, lh, view, d) && k <= |lh| && |r| == |d| == |a|
    requires Installed(l, d, lh, Wanted(lh, view), k, r)
    requires Installed(l, r, lh, Wanted(lh, view), |lh|, a) || (k == |lh| && a == r)
    ensures Home(l, a) == Home(l, view)
  {
    forall s | 0 <= s < l.start ensures a[s] == view[s] {
      if s in lh {
        var j :| 0 <= j < |lh| && lh[j] == s;
      } else {
        assert lh[..|lh|] == lh;
        assert s !in lh[..k];
      }
    }
  }

  /** A commit that ran to its end left the home blocks of the disk equal to
      the logical disk, and the log empty. */
  lemma CommitDone(l: Layout, lh: seq<uint>, view: Disk, d: Disk)
    requires CommitReady(l, lh, view, d)
    ensures var r := Apply(d, CommitWrites(l, lh, view, d[l.start]));
            Home(l, r) == Home(l, view) && Word(r[l.start], 0) == 0
  {
    if lh != [] {
      var ws := CommitWrites(l, lh, view, d[l.start]);
      assert ws[..|ws|] == ws;
      var full := HeaderBlock(d[l.start], lh);
      CommitPrefix(l, lh, view, d, full, HeaderBlock(full, []), ws, |ws|);
      HeaderRoundTrip(full, []);
      CommittedHome(l, lh, view, d, |lh|, Apply(d, ws), Apply(d, ws));
    }
  }
}
