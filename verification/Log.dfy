/** log.c on the buffer cache: the code that issues the block writes of
    WriteAhead, in that order and no others. These methods run without other
    users of the cache; interleaved callers are the subject of LogMachine. */
module Log {
  import opened Params
  import opened Sequences
  import opened Blocks
  import opened WriteAhead
  import opened BufferCache
  import opened Bcache
  import opened LogMachine

  // ---- Block writes, piece by piece ----

  lemma {:induction false} ApplyConcat(d: Disk, a: seq<Write>, b: seq<Write>)
    ensures Apply(d, a + b) == Apply(Apply(d, a), b)
  {
    if b == [] {
      assert a + b == a;
    } else {
      var b' := b[..|b| - 1];
      assert (a + b)[..|a + b| - 1] == a + b';
      ApplyConcat(d, a, b');
    }
  }

  lemma {:induction false} ApplyMiss(d: Disk, ws: seq<Write>, s: nat)
    requires s < |d| && forall i :: 0 <= i < |ws| ==> ws[i].sector != s
    ensures Apply(d, ws)[s] == d[s]
  {
    if ws != [] {
      ApplyMiss(d, ws[..|ws| - 1], s);
    }
  }

  /** write_log: block lh[i] of the logical disk goes to log block i. */
  function LogCopies(l: Layout, lh: seq<uint>, view: Disk): (ws: seq<Write>)
    requires forall i :: 0 <= i < |lh| ==> lh[i] < |view|
  {
    seq(|lh|, i requires 0 <= i < |lh| => Write(l.start + 1 + i, view[lh[i]]))
  }

  /** install_trans: log block i goes home to lh[i]. */
  function Installs(l: Layout, lh: seq<uint>, view: Disk): (ws: seq<Write>)
    requires l.start + 1 + |lh| <= |view|
  {
    seq(|lh|, i requires 0 <= i < |lh| => Write(lh[i], view[l.start + 1 + i]))
  }

  // ---- How full the cache is ----

  ghost predicate Quiet(bufs: seq<Buf>) {
    |bufs| == NBUF + 1 && forall i :: 0 <= i < NBUF ==> !bufs[i].busy
  }

  ghost function DirtyBelow(bufs: seq<Buf>, k: nat): (s: set<uint>)
    requires k <= NBUF < |bufs|
  {
    set i | 0 <= i < k && bufs[i].dirty :: bufs[i].sector
  }

  /** The blocks that are pinned in the cache. */
  ghost function Dirty(bufs: seq<Buf>): (s: set<uint>)
    requires |bufs| == NBUF + 1
  {
    DirtyBelow(bufs, NBUF)
  }

  /** The dirty ones among the first k buffers are as many as their blocks. */
  lemma {:induction false} CountDirty(bufs: seq<Buf>, disk: Disk, k: nat, others: set<nat>)
    requires Coherent(bufs, disk) && k <= NBUF
    requires forall i :: 0 <= i < k && i !in others ==> bufs[i].dirty
    ensures k <= |DirtyBelow(bufs, k)| + |others|
    decreases k
  {
    if k > 0 {
      var j := k - 1;
      if j in others {
        CountDirty(bufs, disk, j, others - {j});
        assert DirtyBelow(bufs, j) <= DirtyBelow(bufs, k);
        Smaller(DirtyBelow(bufs, j), DirtyBelow(bufs, k));
      } else {
        CountDirty(bufs, disk, j, others);
        assert bufs[j].sector !in DirtyBelow(bufs, j);
        assert DirtyBelow(bufs, k) == DirtyBelow(bufs, j) + {bufs[j].sector};
      }
    }
  }

  lemma Smaller<T>(a: set<T>, b: set<T>)
    requires a <= b
    ensures |a| <= |b|
  {
    assert b == a + (b - a);
  }

  /** Fewer pinned blocks and buffers in use than buffers: bget finds a victim. */
  lemma VictimExists(bufs: seq<Buf>, disk: Disk, inUse: set<nat>)
    requires Coherent(bufs, disk)
    requires forall i :: 0 <= i < NBUF && bufs[i].busy ==> i in inUse
    requires |Dirty(bufs)| + |inUse| < NBUF
    ensures exists i :: 0 <= i < NBUF && !bufs[i].busy && !bufs[i].dirty
  {
    if forall i :: 0 <= i < NBUF ==> bufs[i].busy || bufs[i].dirty {
      CountDirty(bufs, disk, NBUF, inUse);
    }
  }

  /** As many pinned blocks as buffers: bget finds neither a victim nor a block that is not pinned. */
  lemma {:induction false} NoVictim(bufs: seq<Buf>, disk: Disk, s: uint)
    requires Coherent(bufs, disk) && |Dirty(bufs)| >= NBUF && s !in Dirty(bufs)
    ensures forall i :: 0 <= i < NBUF ==> bufs[i].dirty && !Matches(bufs[i], ROOTDEV, s)
  {
    forall i | 0 <= i < NBUF ensures bufs[i].dirty {
      if !bufs[i].dirty {
        FewDirty(bufs, NBUF, i);
      }
    }
    assert forall i :: 0 <= i < NBUF && bufs[i].dirty ==> bufs[i].sector in Dirty(bufs);
  }

  lemma {:induction false} FewDirty(bufs: seq<Buf>, k: nat, clean: nat)
    requires k <= NBUF < |bufs| && clean < NBUF && !bufs[clean].dirty
    ensures |DirtyBelow(bufs, k)| <= k && (clean < k ==> |DirtyBelow(bufs, k)| < k)
  {
    if k > 0 {
      var j := k - 1;
      FewDirty(bufs, j, clean);
      assert DirtyBelow(bufs, k) == DirtyBelow(bufs, j) + (if bufs[j].dirty then {bufs[j].sector} else {});
    }
  }

  /** Disk, logical disk and the block writes so far. */
  datatype Memory = Memory(disk: Disk, view: Disk, writes: seq<Write>)

  ghost function Now(c: Cache): (m: Memory)
    reads c, c.buf
  {
    Memory(c.disk, c.Logical(), c.writes)
  }

  /** Writing one block through the cache. */
  function DoneOne(m: Memory, w: Write): (r: Memory) {
    Memory(ApplyOne(m.disk, w), ApplyOne(m.view, w), m.writes + [w])
  }

  /** Writing the blocks ws through the cache, in that order. */
  function Done(m: Memory, ws: seq<Write>): (r: Memory) {
    Memory(Apply(m.disk, ws), Apply(m.view, ws), m.writes + ws)
  }

  lemma DoneStep(m: Memory, ws: seq<Write>, k: nat)
    requires k < |ws|
    ensures Done(m, ws[..k + 1]) == DoneOne(Done(m, ws[..k]), ws[k])
  {
    ApplyStep(m.disk, ws, k);
    ApplyStep(m.view, ws, k);
    assert m.writes + ws[..k + 1] == m.writes + ws[..k] + [ws[k]];
  }

  lemma DoneConcat(m: Memory, a: seq<Write>, b: seq<Write>)
    ensures Done(m, a + b) == Done(Done(m, a), b)
  {
    ApplyConcat(m.disk, a, b);
    ApplyConcat(m.view, a, b);
    assert m.writes + (a + b) == m.writes + a + b;
  }

  /** If there is room for one more block in the cache, there is for a second one. */
  ghost predicate Room(bufs: seq<Buf>, second: uint)
    requires |bufs| == NBUF + 1
  {
    second in Dirty(bufs) || |Dirty(bufs)| + 1 != NBUF
  }

  lemma PinnedIsCached(bufs: seq<Buf>, disk: Disk, s: uint)
    requires Coherent(bufs, disk) && s in Dirty(bufs)
    ensures exists i :: 0 <= i < NBUF && Matches(bufs[i], ROOTDEV, s)
  {
    var i :| 0 <= i < NBUF && bufs[i].dirty && bufs[i].sector == s;
    assert Matches(bufs[i], ROOTDEV, s);
  }

  /** A bread that cannot fail: the block is pinned, or there are fewer pinned
      blocks and buffers in use than buffers. */
  method BreadSure(c: Cache, s: uint, ghost inUse: set<nat>) returns (b: nat)
    requires c.Valid() && s < |c.disk|
    requires forall i :: 0 <= i < NBUF ==> (c.buf[i].busy <==> i in inUse)
    requires forall i :: 0 <= i < NBUF && i in inUse ==> !Matches(c.buf[i], ROOTDEV, s)
    requires s in Dirty(c.buf[..]) || |Dirty(c.buf[..])| + |inUse| < NBUF
    modifies c`disk, c`writes, c.buf
    ensures c.Valid() && c.disk == old(c.disk) && c.writes == old(c.writes)
    ensures c.Logical() == old(c.Logical())
    ensures b < NBUF && b !in inUse
    ensures Matches(c.buf[b], ROOTDEV, s) && c.buf[b].valid && c.buf[b].busy
    ensures c.buf[b].data == c.Logical()[s]
    ensures c.buf[b].dirty || c.buf[b].data == c.disk[s]
    ensures forall i :: 0 <= i <= NBUF && i != b ==> c.buf[i] == old(c.buf[i])
    ensures Dirty(c.buf[..]) == old(Dirty(c.buf[..]))
  {
    if s in Dirty(c.buf[..]) {
      PinnedIsCached(c.buf[..], c.disk, s);
    } else {
      VictimExists(c.buf[..], c.disk, inUse);
    }
    var r := c.Bread(ROOTDEV, s);
    b := r.b;
    SameDirty(old(c.buf[..]), c.buf[..], b);
  }

  /** bread of a block that is not pinned, with nothing in use; false is the panic of bget. */
  method BreadFirst(c: Cache, s: uint) returns (ok: bool, b: nat)
    requires c.Valid() && Quiet(c.buf[..]) && s < |c.disk| && s !in Dirty(c.buf[..])
    modifies c`disk, c`writes, c.buf
    ensures ok <==> |old(Dirty(c.buf[..]))| < NBUF
    ensures c.Valid() && c.disk == old(c.disk) && c.writes == old(c.writes)
    ensures c.Logical() == old(c.Logical()) && Dirty(c.buf[..]) == old(Dirty(c.buf[..]))
    ensures !ok ==> c.buf[..] == old(c.buf[..])
    ensures ok ==>
              && b < NBUF && Matches(c.buf[b], ROOTDEV, s) && c.buf[b].valid && c.buf[b].busy
              && c.buf[b].data == c.Logical()[s] && (c.buf[b].dirty || c.buf[b].data == c.disk[s])
              && forall i :: 0 <= i <= NBUF && i != b ==> c.buf[i] == old(c.buf[i])
  {
    if |Dirty(c.buf[..])| < NBUF {
      VictimExists(c.buf[..], c.disk, {});
    } else {
      NoVictim(c.buf[..], c.disk, s);
    }
    var r := c.Bread(ROOTDEV, s);
    ok, b := r.Got?, 0;
    if ok {
      b := r.b;
      SameDirty(old(c.buf[..]), c.buf[..], b);
    }
  }

  /** bread of two different blocks, as write_log and install_trans do it. */
  method BreadTwo(c: Cache, first: uint, second: uint) returns (ok: bool, a: nat, b: nat)
    requires c.Valid() && Quiet(c.buf[..]) && first < |c.disk| && second < |c.disk| && first != second
    requires Room(c.buf[..], second) && first !in Dirty(c.buf[..])
    modifies c`disk, c`writes, c.buf
    ensures ok <==> |old(Dirty(c.buf[..]))| < NBUF
    ensures c.Valid() && c.disk == old(c.disk) && c.writes == old(c.writes)
    ensures c.Logical() == old(c.Logical()) && Dirty(c.buf[..]) == old(Dirty(c.buf[..]))
    ensures !ok ==> Quiet(c.buf[..])
    ensures ok ==>
              && a < NBUF && b < NBUF && a != b
              && Matches(c.buf[a], ROOTDEV, first) && Matches(c.buf[b], ROOTDEV, second)
              && c.buf[a].valid && c.buf[b].valid
              && c.buf[a].data == c.Logical()[first] && c.buf[b].data == c.Logical()[second]
              && (c.buf[a].dirty || c.buf[a].data == c.disk[first])
              && (c.buf[b].dirty || c.buf[b].data == c.disk[second])
              && forall i :: 0 <= i < NBUF ==> (c.buf[i].busy <==> i == a || i == b)
  {
    b := 0;
    ok, a := BreadFirst(c, first);
    if !ok {
      return;
    }
    b := BreadSure(c, second, {a});
    assert Holds(c.buf[..], a, first);
    LookupHit(c.buf[..], c.disk, a, first);
  }

  /** A read that keeps a pinned buffer, or takes a clean one, pins and unpins nothing. */
  lemma SameDirty(bufs: seq<Buf>, bufs': seq<Buf>, b: nat)
    requires |bufs| == |bufs'| == NBUF + 1 && b < NBUF
    requires forall i :: 0 <= i < NBUF && i != b ==>
      bufs'[i].dirty == bufs[i].dirty && bufs'[i].sector == bufs[i].sector
    requires bufs'[b].dirty == bufs[b].dirty && (bufs[b].dirty ==> bufs'[b].sector == bufs[b].sector)
    ensures Dirty(bufs') == Dirty(bufs)
  {
    forall s ensures s in Dirty(bufs') <==> s in Dirty(bufs) {
      if s in Dirty(bufs) {
        var i :| 0 <= i < NBUF && bufs[i].dirty && bufs[i].sector == s;
        assert bufs'[i].dirty && bufs'[i].sector == s;
      }
      if s in Dirty(bufs') {
        var i :| 0 <= i < NBUF && bufs'[i].dirty && bufs'[i].sector == s;
        assert bufs[i].dirty && bufs[i].sector == s;
      }
    }
  }

  /** Writing a buffer out unpins its block and no other. */
  lemma CleanOne(bufs: seq<Buf>, disk: Disk, b: nat, bufs': seq<Buf>)
    requires Coherent(bufs, disk) && |bufs'| == NBUF + 1 && b < NBUF && bufs[b].valid
    requires forall i :: 0 <= i < NBUF ==>
      bufs'[i].sector == bufs[i].sector && bufs'[i].dirty == (bufs[i].dirty && i != b)
    ensures Dirty(bufs') == Dirty(bufs) - {bufs[b].sector}
  {
    forall s ensures s in Dirty(bufs') <==> s in Dirty(bufs) && s != bufs[b].sector {
      if s in Dirty(bufs) && s != bufs[b].sector {
        var i :| 0 <= i < NBUF && bufs[i].dirty && bufs[i].sector == s;
        assert bufs'[i].dirty && bufs'[i].sector == s;
      }
      if s in Dirty(bufs') {
        var i :| 0 <= i < NBUF && bufs'[i].dirty && bufs'[i].sector == s;
        assert bufs[i].dirty && bufs[i].sector == s;
      }
    }
  }

  /** B_DIRTY pins the block of the buffer and no other. */
  lemma PinOne(bufs: seq<Buf>, b: nat)
    requires |bufs| == NBUF + 1 && b < NBUF
    ensures Dirty(bufs[b := bufs[b].(dirty := true)]) == Dirty(bufs) + {bufs[b].sector}
  {
    var bufs' := bufs[b := bufs[b].(dirty := true)];
    forall s ensures s in Dirty(bufs') <==> s in Dirty(bufs) || s == bufs[b].sector {
      if s in Dirty(bufs) {
        var i :| 0 <= i < NBUF && bufs[i].dirty && bufs[i].sector == s;
        assert bufs'[i].dirty && bufs'[i].sector == s;
      }
      assert bufs'[b].dirty && bufs'[b].sector == bufs[b].sector;
    }
  }

  /** brelse of the only buffer that is in use. */
  method BrelseOne(c: Cache, b: nat)
    requires c.Valid() && b < NBUF
    requires forall i :: 0 <= i < NBUF ==> (c.buf[i].busy <==> i == b)
    requires c.buf[b].valid && (c.buf[b].dirty || c.buf[b].data == c.disk[c.buf[b].sector])
    modifies c`order, c.buf
    ensures c.Valid() && Quiet(c.buf[..])
    ensures c.Logical() == old(c.Logical())
    ensures Dirty(c.buf[..]) == old(Dirty(c.buf[..]))
  {
    ghost var was := c.buf[..];
    c.Brelse(b);
    SameDirty(was, c.buf[..], b);
  }

  /** brelse of the two buffers that are in use. */
  method BrelseTwo(c: Cache, a: nat, b: nat)
    requires c.Valid() && a < NBUF && b < NBUF && a != b
    requires forall i :: 0 <= i < NBUF ==> (c.buf[i].busy <==> i == a || i == b)
    requires c.buf[a].valid && (c.buf[a].dirty || c.buf[a].data == c.disk[c.buf[a].sector])
    requires c.buf[b].valid && (c.buf[b].dirty || c.buf[b].data == c.disk[c.buf[b].sector])
    modifies c`order, c.buf
    ensures c.Valid() && Quiet(c.buf[..])
    ensures c.Logical() == old(c.Logical())
    ensures Dirty(c.buf[..]) == old(Dirty(c.buf[..]))
  {
    ghost var was := c.buf[..];
    c.Brelse(a);
    ghost var mid := c.buf[..];
    assert SameBody(was[b], mid[b]);
    SameDirty(was, mid, a);
    c.Brelse(b);
    SameDirty(mid, c.buf[..], b);
    forall i | 0 <= i < NBUF ensures !c.buf[i].busy {
      assert SameBody(if i == a then was[i].(busy := false) else was[i], mid[i]);
    }
  }

  /** memmove into a buffer in use, then bwrite. */
  method Overwrite(c: Cache, b: nat, data: Block)
    requires c.Valid() && b < NBUF && c.buf[b].busy && c.buf[b].valid
    modifies c`disk, c`writes, c.buf
    ensures c.Valid()
    ensures Now(c) == DoneOne(old(Now(c)), Write(old(c.buf[b].sector), data))
    ensures c.buf[b] == old(c.buf[b]).(data := data, dirty := false)
    ensures forall i :: 0 <= i <= NBUF && i != b ==> c.buf[i] == old(c.buf[i])
    ensures Dirty(c.buf[..]) == old(Dirty(c.buf[..])) - {old(c.buf[b].sector)}
  {
    ghost var was := c.buf[..];
    c.Modify(b, data);
    c.Bwrite(b);
    CleanOne(was, old(c.disk), b, c.buf[..]);
  }

  /** memmove from one buffer in use to another, bwrite of that one, brelse of both. */
  method CopyOver(c: Cache, to: nat, from: nat)
    requires c.Valid() && to < NBUF && from < NBUF && to != from
    requires forall i :: 0 <= i < NBUF ==> (c.buf[i].busy <==> i == to || i == from)
    requires c.buf[to].valid && c.buf[from].valid &&
        (c.buf[from].dirty || c.buf[from].data == c.disk[c.buf[from].sector])
    requires c.buf[to].sector != c.buf[from].sector
    modifies c`disk, c`writes, c`order, c.buf
    ensures c.Valid() && Quiet(c.buf[..])
    ensures Now(c) == DoneOne(old(Now(c)), Write(old(c.buf[to].sector), old(c.buf[from].data)))
    ensures Dirty(c.buf[..]) == old(Dirty(c.buf[..])) - {old(c.buf[to].sector)}
  {
    Overwrite(c, to, c.buf[from].data);
    BrelseTwo(c, from, to);
  }

  /** One round of write_log; false is the panic of bget. */
  method CopyToLog(c: Cache, logged: uint, home: uint) returns (ok: bool)
    requires c.Valid() && Quiet(c.buf[..]) && logged < |c.disk| && home < |c.disk| && logged != home
    requires Room(c.buf[..], home) && logged !in Dirty(c.buf[..])
    modifies c`disk, c`writes, c`order, c.buf
    ensures c.Valid() && Quiet(c.buf[..])
    ensures ok <==> |old(Dirty(c.buf[..]))| < NBUF
    ensures Now(c) == if ok then DoneOne(old(Now(c)), Write(logged, old(c.Logical())[home])) else old(Now(c))
    ensures Dirty(c.buf[..]) == old(Dirty(c.buf[..]))
  {
    var to, from;
    ok, to, from := BreadTwo(c, logged, home);
    if ok {
      CopyOver(c, to, from);
    }
  }

  /** One round of install_trans; false is the panic of bget. */
  method InstallBlock(c: Cache, logged: uint, home: uint) returns (ok: bool)
    requires c.Valid() && Quiet(c.buf[..]) && logged < |c.disk| && home < |c.disk| && logged != home
    requires Room(c.buf[..], home) && logged !in Dirty(c.buf[..])
    modifies c`disk, c`writes, c`order, c.buf
    ensures c.Valid() && Quiet(c.buf[..])
    ensures ok <==> |old(Dirty(c.buf[..]))| < NBUF
    ensures Now(c) == if ok then DoneOne(old(Now(c)), Write(home, old(c.Logical())[logged])) else old(Now(c))
    ensures Dirty(c.buf[..]) == if ok then old(Dirty(c.buf[..])) - {home} else old(Dirty(c.buf[..]))
  {
    var lbuf, dbuf;
    ok, lbuf, dbuf := BreadTwo(c, logged, home);
    if ok {
      CopyOver(c, dbuf, lbuf);
    }
  }

  function SetOf(s: seq<uint>): (r: set<uint>) {
    set x | x in s
  }

  lemma {:induction false} SetOfSize(s: seq<uint>)
    requires Distinct(s)
    ensures |SetOf(s)| == |s|
  {
    if s != [] {
      SetOfSize(s[1..]);
      assert SetOf(s) == SetOf(s[1..]) + {s[0]};
    }
  }

  lemma TailSet(lh: seq<uint>, tail: nat)
    requires Distinct(lh) && tail < |lh|
    ensures lh[tail] in SetOf(lh[tail..])
    ensures |SetOf(lh[tail..])| == |lh| - tail
    ensures SetOf(lh[tail..]) - {lh[tail]} == SetOf(lh[tail + 1..])
  {
    var rest := lh[tail..];
    SetOfSize(rest);
    assert rest[0] == lh[tail] && rest[1..] == lh[tail + 1..];
    assert SetOf(rest) - {rest[0]} == SetOf(rest[1..]);
  }

  /** Pins that are those of the list from tail on, or none, while one more block goes home. */
  lemma TailPins(lh: seq<uint>, tail: nat, pins: set<uint>)
    requires Distinct(lh) && tail < |lh| && (pins == {} || pins == SetOf(lh[tail..]))
    ensures lh[tail] in pins || |pins| + 1 != NBUF
    ensures |pins| < NBUF <==> pins == {} || HasBuffer(|lh| - tail)
    ensures pins - {lh[tail]} == {} || pins - {lh[tail]} == SetOf(lh[tail + 1..])
    ensures forall s :: s in pins ==> s in lh
  {
    TailSet(lh, tail);
  }

  /** What install_trans reads from log block k is what it found there at the start. */
  lemma InstallsStep(l: Layout, lh: seq<uint>, was: Memory, k: nat)
    requires l.start + 1 + |lh| <= |was.view| && k < |lh|
    requires forall i :: 0 <= i < |lh| ==> lh[i] < l.start
    ensures var ws := Installs(l, lh, was.view);
            var now := Done(was, ws[..k]);
            Done(was, ws[..k + 1]) == DoneOne(now, Write(lh[k], now.view[l.start + 1 + k]))
  {
    var ws := Installs(l, lh, was.view);
    ApplyMiss(was.view, ws[..k], l.start + 1 + k);
    DoneStep(was, ws, k);
  }

  /** What write_log reads from home block k is what it found there at the start. */
  lemma LogCopiesStep(l: Layout, lh: seq<uint>, was: Memory, k: nat)
    requires l.start <= |was.view| && k < |lh|
    requires forall i :: 0 <= i < |lh| ==> lh[i] < l.start
    ensures var ws := LogCopies(l, lh, was.view);
            var now := Done(was, ws[..k]);
            Done(was, ws[..k + 1]) == DoneOne(now, Write(l.start + 1 + k, now.view[lh[k]]))
  {
    var ws := LogCopies(l, lh, was.view);
    ApplyMiss(was.view, ws[..k], lh[k]);
    DoneStep(was, ws, k);
  }

  lemma {:induction false} ApplyHit(d: Disk, ws: seq<Write>, i: nat)
    requires i < |ws| && ws[i].sector < |d|
    requires forall j :: i < j < |ws| ==> ws[j].sector != ws[i].sector
    ensures Apply(d, ws)[ws[i].sector] == ws[i].data
  {
    if i < |ws| - 1 {
      ApplyHit(d, ws[..|ws| - 1], i);
    }
  }

  /** The logical disk once write_log and write_head ran. */
  lemma AfterLogCopies(l: Layout, lh: seq<uint>, view: Disk, full: Block)
    requires Fits(l, view) && GoodList(l, lh)
    ensures var v := ApplyOne(Apply(view, LogCopies(l, lh, view)), Write(l.start, full));
            Apply(view, LogCopies(l, lh, view))[l.start] == view[l.start]
            && v[l.start] == full
            && Installs(l, lh, v) == seq(|lh|, i requires 0 <= i < |lh| => Write(lh[i], view[lh[i]]))
  {
    var ws := LogCopies(l, lh, view);
    ApplyMiss(view, ws, l.start);
    forall i | 0 <= i < |lh| ensures Apply(view, ws)[l.start + 1 + i] == view[lh[i]] {
      ApplyHit(view, ws, i);
    }
  }

  /** The four parts of commit, one after the other, are the writes of a commit. */
  lemma CommitParts(l: Layout, lh: seq<uint>, was: Memory)
    requires Fits(l, was.view) && GoodList(l, lh) && lh != []
    ensures var m1 := Done(was, LogCopies(l, lh, was.view));
            var m2 := DoneOne(m1, Write(l.start, HeaderBlock(m1.view[l.start], lh)));
            var m3 := Done(m2, Installs(l, lh, m2.view));
            var m4 := DoneOne(m3, Write(l.start, HeaderBlock(m3.view[l.start], [])));
            m4 == Done(was, CommitWrites(l, lh, was.view, was.view[l.start]))
  {
    var full := HeaderBlock(was.view[l.start], lh);
    var empty := HeaderBlock(full, []);
    AfterLogCopies(l, lh, was.view, full);
    var m1 := Done(was, LogCopies(l, lh, was.view));
    var m2 := DoneOne(m1, Write(l.start, full));
    var homes := Installs(l, lh, m2.view);
    ApplyMiss(m2.view, homes, l.start);
    DoneFour(was, LogCopies(l, lh, was.view), Write(l.start, full), homes, Write(l.start, empty));
    CommitList(l, lh, was.view, full, empty);
  }

  lemma DoneFour(m: Memory, a: seq<Write>, x: Write, b: seq<Write>, y: Write)
    ensures DoneOne(Done(DoneOne(Done(m, a), x), b), y) == Done(m, a + [x] + b + [y])
  {
    DoneLast(m, a, x);
    DoneConcat(m, a + [x], b);
    DoneLast(m, a + [x] + b, y);
  }

  lemma CommitList(l: Layout, lh: seq<uint>, view: Disk, full: Block, empty: Block)
    requires lh != [] && |lh| <= LOGSIZE && forall i :: 0 <= i < |lh| ==> lh[i] < |view|
    ensures LogCopies(l, lh, view) + [Write(l.start, full)]
            + seq(|lh|, i requires 0 <= i < |lh| => Write(lh[i], view[lh[i]])) + [Write(l.start, empty)]
            == seq(2 * |lh| + 2, i requires 0 <= i < 2 * |lh| + 2 => CommitWrite(l, lh, view, full, empty, i))
  {
  }

  lemma DoneLast(m: Memory, ws: seq<Write>, w: Write)
    ensures Done(m, ws + [w]) == DoneOne(Done(m, ws), w)
  {
    assert (ws + [w])[..|ws|] == ws && (ws + [w])[..|ws| + 1] == ws + [w];
    DoneStep(m, ws + [w], |ws|);
  }

  /** The two parts of recovery are the writes of a recovery. */
  lemma RecoverParts(l: Layout, was: Memory)
    requires was.disk == was.view && GoodHeader(l, was.disk)
    ensures var lh := Logged(l, was.disk);
            var m1 := Done(was, Installs(l, lh, was.view));
            var m2 := DoneOne(m1, Write(l.start, HeaderBlock(m1.view[l.start], [])));
            m2 == Done(was, RecoverWrites(l, was.disk))
  {
    var lh := Logged(l, was.disk);
    var homes := Installs(l, lh, was.view);
    ApplyMiss(was.view, homes, l.start);
    var last := Write(l.start, HeaderBlock(was.view[l.start], []));
    DoneLast(was, homes, last);
    assert homes + [last] == RecoverWrites(l, was.disk);
  }

  /** With nothing in use, readers see the disk itself at every block that is not pinned. */
  lemma UnpinnedBlocks(bufs: seq<Buf>, disk: Disk)
    requires Coherent(bufs, disk) && Quiet(bufs)
    ensures forall s :: 0 <= s < |disk| && s !in Dirty(bufs) ==> View(bufs, disk)[s] == disk[s]
    ensures Dirty(bufs) == {} ==> View(bufs, disk) == disk
  {
    forall s | 0 <= s < |disk| && s !in Dirty(bufs) ensures Lookup(bufs, disk, s) == disk[s] {
      if i: nat :| Holds(bufs, i, s) {
        LookupHit(bufs, disk, i, s);
        assert forall j :: 0 <= j < NBUF && bufs[j].dirty ==> bufs[j].sector in Dirty(bufs);
      }
    }
  }

  /** struct log. */
  class Journal {
    const cache: Cache
    const l: Layout
    var n: nat
    const sector: array<uint>
    var outstanding: nat
    var committing: bool

    ghost predicate Valid()
      reads this, sector, cache, cache.buf
    {
      && sector.Length == LOGSIZE && n <= LOGSIZE
      && cache.Valid() && Fits(l, cache.disk) && |cache.disk| <= WORD_LIMIT
      && GoodList(l, sector[..n])
    }

    ghost function Lh(): (lh: seq<uint>)
      requires n <= sector.Length
      reads this, sector
    {
      sector[..n]
    }

    ghost function Pinned(): (s: set<uint>)
      requires cache.buf.Length == NBUF + 1
      reads cache.buf
    {
      Dirty(cache.buf[..])
    }

    ghost predicate Idle()
      reads cache.buf
    {
      Quiet(cache.buf[..])
    }

    /** initlog: what a crash left in the log is brought home. */
    constructor (c: Cache, l: Layout)
      requires c.Valid() && Quiet(c.buf[..]) && Dirty(c.buf[..]) == {}
      requires GoodHeader(l, c.disk) && |c.disk| <= WORD_LIMIT
      modifies c`disk, c`writes, c`order, c.buf
      ensures Valid() && cache == c && this.l == l && fresh(sector) && !committing
      ensures Idle() && Pinned() == {} && n == 0 && outstanding == 0
      ensures Now(c) == Done(old(Now(c)), RecoverWrites(l, old(c.disk))) && c.disk == Recovered(l, old(c.disk))
    {
      cache := c;
      this.l := l;
      n := 0;
      sector := new uint[LOGSIZE](_ => 0);
      outstanding := 0;
      committing := false;
      new;
      RecoverFromLog();
    }

    /** write_log; false is the panic of bget, before anything is written. */
    method WriteLog() returns (ok: bool)
      requires Valid() && Idle() && Pinned() == SetOf(Lh())
      modifies cache`disk, cache`writes, cache`order, cache.buf
      ensures Valid() && Idle() && Pinned() == SetOf(Lh())
      ensures ok <==> HasBuffer(n)
      ensures Now(cache) == if ok then Done(old(Now(cache)), LogCopies(l, Lh(), old(cache.Logical())))
          else old(Now(cache))
    {
      ghost var was := Now(cache);
      ghost var ws := LogCopies(l, Lh(), was.view);
      var tail := 0;
      assert Done(was, ws[..0]) == was;
      while tail < n
        invariant 0 <= tail <= n && (tail > 0 ==> HasBuffer(n))
        invariant Valid() && Idle() && Pinned() == SetOf(Lh())
        invariant Now(cache) == Done(was, ws[..tail])
      {
        ok := LogRound(tail, was);
        if !ok {
          return;
        }
        tail := tail + 1;
      }
      assert ws[..tail] == ws;
      ok := true;
    }

    method LogRound(tail: nat, ghost was: Memory) returns (ok: bool)
      requires Valid() && Idle() && Pinned() == SetOf(Lh()) && tail < n
      requires |was.disk| == |was.view| == |cache.disk|
      requires Now(cache) == Done(was, LogCopies(l, Lh(), was.view)[..tail])
      modifies cache`disk, cache`writes, cache`order, cache.buf
      ensures Valid() && Idle() && Pinned() == SetOf(Lh())
      ensures ok <==> HasBuffer(n)
      ensures Now(cache) == if ok then Done(was, LogCopies(l, Lh(), was.view)[..tail + 1]) else old(Now(cache))
    {
      ghost var lh := Lh();
      LogCopiesStep(l, lh, was, tail);
      SetOfSize(lh);
      assert lh[tail] in SetOf(lh);
      ok := CopyToLog(cache, l.start + tail + 1, sector[tail]);
      assert Lh() == lh;
    }

    /** install_trans, in a commit or in recovery; false is the panic of bget. */
    method InstallTrans() returns (ok: bool)
      requires Valid() && Idle() && (Pinned() == {} || Pinned() == SetOf(Lh()))
      modifies cache`disk, cache`writes, cache`order, cache.buf
      ensures Valid() && Idle()
      ensures ok <==> old(Pinned()) == {} || HasBuffer(n)
      ensures Pinned() == if ok then {} else old(Pinned())
      ensures Now(cache) == if ok then Done(old(Now(cache)), Installs(l, Lh(), old(cache.Logical())))
          else old(Now(cache))
    {
      ghost var was := Now(cache);
      ghost var ws := Installs(l, Lh(), was.view);
      ghost var sure := Pinned() == {} || HasBuffer(n);
      assert Lh()[0..] == Lh();
      assert Done(was, ws[..0]) == was;
      var tail := 0;
      while tail < n
        invariant 0 <= tail <= n && (tail > 0 ==> sure)
        invariant Valid() && Idle() && Unpinning(tail) && (tail == 0 ==> Pinned() == old(Pinned()))
        invariant Now(cache) == Done(was, ws[..tail])
      {
        ok := InstallRound(tail, was);
        if !ok {
          return;
        }
        tail := tail + 1;
      }
      assert ws[..tail] == ws;
      assert SetOf(Lh()[n..]) == {};
      ok := true;
    }

    /** The pinned blocks are those of the list from `tail` on, or nothing is pinned. */
    ghost predicate Unpinning(tail: nat)
      requires cache.buf.Length == NBUF + 1 && tail <= n <= sector.Length
      reads this, sector, cache.buf
    {
      Pinned() == {} || Pinned() == SetOf(Lh()[tail..])
    }

    method InstallUnpin(tail: nat) returns (ok: bool)
      requires Valid() && Idle() && tail < n && Unpinning(tail)
      modifies cache`disk, cache`writes, cache`order, cache.buf
      ensures Valid() && Idle()
      ensures ok <==> old(Pinned()) == {} || HasBuffer(n - tail)
      ensures !ok ==> Pinned() == old(Pinned()) && Now(cache) == old(Now(cache))
      ensures ok ==> Unpinning(tail + 1)
      ensures ok ==>
        Now(cache) == DoneOne(old(Now(cache)), Write(Lh()[tail], old(cache.Logical())[l.start + 1 + tail]))
    {
      ghost var pins := Pinned();
      TailPins(Lh(), tail, pins);
      ok := InstallAt(tail, pins);
    }

    method InstallAt(tail: nat, ghost pins: set<uint>) returns (ok: bool)
      requires Valid() && Idle() && tail < n && Pinned() == pins && (forall s :: s in pins ==> s in Lh())
      requires Lh()[tail] in pins || |pins| + 1 != NBUF
      modifies cache`disk, cache`writes, cache`order, cache.buf
      ensures Valid() && Idle() && Lh() == old(Lh())
      ensures ok <==> |pins| < NBUF
      ensures !ok ==> Pinned() == pins && Now(cache) == old(Now(cache))
      ensures ok ==> Pinned() == pins - {Lh()[tail]}
      ensures ok ==>
        Now(cache) == DoneOne(old(Now(cache)), Write(Lh()[tail], old(cache.Logical())[l.start + 1 + tail]))
    {
      ghost var lh := Lh();
      ok := InstallBlock(cache, l.start + tail + 1, sector[tail]);
      assert Lh() == lh;
    }

    method InstallRound(tail: nat, ghost was: Memory) returns (ok: bool)
      requires Valid() && Idle() && tail < n && Unpinning(tail)
      requires |was.disk| == |was.view| == |cache.disk|
      requires Now(cache) == Done(was, Installs(l, Lh(), was.view)[..tail])
      modifies cache`disk, cache`writes, cache`order, cache.buf
      ensures Valid() && Idle() && if ok then Unpinning(tail + 1) else Pinned() == old(Pinned())
      ensures ok <==> old(Pinned()) == {} || HasBuffer(n - tail)
      ensures Now(cache) == if ok then Done(was, Installs(l, Lh(), was.view)[..tail + 1]) else old(Now(cache))
    {
      ghost var lh := Lh();
      InstallsStep(l, lh, was, tail);
      ok := InstallUnpin(tail);
      assert Lh() == lh;
    }

    /** The words that write_head puts into the header block. */
    method FillHeader(head: Block) returns (block: Block)
      requires Valid()
      ensures block == HeaderBlock(head, Lh())
    {
      block := PutWord(head, 0, n);
      var i := 0;
      while i < n
        invariant 0 <= i <= n
        invariant block == PutSectors(PutWord(head, 0, n), Lh()[..i])
      {
        assert Lh()[..i + 1][..i] == Lh()[..i];
        block := PutWord(block, 1 + i, sector[i]);
        i := i + 1;
      }
      assert Lh()[..n] == Lh();
    }

    method WriteHead()
      requires Valid() && Idle()
      requires l.start !in Pinned() && |Pinned()| < NBUF
      modifies cache`disk, cache`writes, cache`order, cache.buf
      ensures Valid() && Idle() && Pinned() == old(Pinned())
      ensures Now(cache) == DoneOne(old(Now(cache)), Write(l.start, HeaderBlock(old(cache.Logical())[l.start], Lh())))
    {
      var b := BreadSure(cache, l.start, {});
      var block := FillHeader(cache.buf[b].data);
      Overwrite(cache, b, block);
      BrelseOne(cache, b);
    }

    method ReadHead()
      requires Valid() && Idle() && |Pinned()| < NBUF
      requires GoodHeader(l, cache.Logical())
      modifies cache`disk, cache`writes, cache`order, cache.buf, this`n, sector
      ensures Valid() && Idle() && Pinned() == old(Pinned())
      ensures Lh() == Logged(l, old(cache.Logical()))
      ensures cache.disk == old(cache.disk) && cache.writes == old(cache.writes) &&
          cache.Logical() == old(cache.Logical())
    {
      var b := BreadSure(cache, l.start, {});
      var head := cache.buf[b].data;
      ghost var was := cache.buf[..];
      n := Word(head, 0);
      var i := 0;
      while i < n
        modifies sector
        invariant 0 <= i <= n == Word(head, 0)
        invariant forall j :: 0 <= j < i ==> sector[j] == Word(head, 1 + j)
      {
        sector[i] := Word(head, 1 + i);
        i := i + 1;
      }
      assert Lh() == HeaderSectors(head);
      assert cache.buf[..] == was;
      BrelseOne(cache, b);
    }

    /** The second half of commit and of recover_from_log. */
    method InstallAndClear()
      requires Valid() && Idle()
      requires Pinned() == {} || (Pinned() == SetOf(Lh()) && HasBuffer(n))
      modifies cache`disk, cache`writes, cache`order, cache.buf, this`n
      ensures Valid() && Idle() && Pinned() == {} && n == 0
      ensures var m := Done(old(Now(cache)), Installs(l, old(Lh()), old(cache.Logical())));
              Now(cache) == DoneOne(m, Write(l.start, HeaderBlock(m.view[l.start], [])))
    {
      var _ := InstallTrans();
      n := 0;
      WriteHead();
    }

    /** The first half of commit. */
    method LogAndSeal() returns (ok: bool)
      requires Valid() && Idle() && Pinned() == SetOf(Lh())
      modifies cache`disk, cache`writes, cache`order, cache.buf
      ensures Valid() && Idle() && Pinned() == SetOf(Lh())
      ensures ok <==> HasBuffer(n)
      ensures var m := Done(old(Now(cache)), LogCopies(l, Lh(), old(cache.Logical())));
              Now(cache) == if ok then DoneOne(m, Write(l.start, HeaderBlock(m.view[l.start], Lh())))
                  else old(Now(cache))
    {
      SetOfSize(Lh());
      ok := WriteLog();
      if ok {
        WriteHead();
      }
    }

    /** recover_from_log on a cache that holds nothing of its own: it sends to the
        disk exactly the writes of a recovery. */
    method RecoverFromLog()
      requires Valid() && Idle() && Pinned() == {} && GoodHeader(l, cache.disk)
      modifies cache`disk, cache`writes, cache`order, cache.buf, this`n, sector
      ensures Valid() && Idle() && Pinned() == {} && n == 0
      ensures Now(cache) == Done(old(Now(cache)), RecoverWrites(l, old(cache.disk)))
      ensures cache.disk == Recovered(l, old(cache.disk))
    {
      ghost var was := Now(cache);
      UnpinnedBlocks(cache.buf[..], cache.disk);
      ReadHead();
      RecoverParts(l, was);
      InstallAndClear();
    }

    /** The header block is not pinned, so the disk has it. */
    lemma HeaderClean()
      requires Valid() && Idle() && Pinned() == SetOf(Lh())
      ensures cache.Logical()[l.start] == cache.disk[l.start]
    {
      UnpinnedBlocks(cache.buf[..], cache.disk);
    }

    /** With an empty log on disk, the conditions for a crash-safe commit are met. */
    lemma ReadyToCommit()
      requires Valid() && Idle() && Pinned() == SetOf(Lh()) && Word(cache.disk[l.start], 0) == 0
      ensures CommitReady(l, Lh(), cache.Logical(), cache.disk)
    {
      UnpinnedBlocks(cache.buf[..], cache.disk);
    }

    /** commit: goes through if and only if it is left a buffer beside the pinned ones. Then it sends
        to the disk exactly the writes of a commit of the listed blocks and unpins them; the log being
        empty, this is a commit that CommitCrash speaks about. Otherwise bget panics and nothing was written. */
    method Commit() returns (ok: bool)
      requires Valid() && Idle() && Pinned() == SetOf(Lh())
      modifies cache`disk, cache`writes, cache`order, cache.buf, this`n
      ensures Valid() && Idle()
      ensures ok <==> HasBuffer(old(n))
      ensures !ok ==> Now(cache) == old(Now(cache)) && Lh() == old(Lh()) && Pinned() == old(Pinned())
      ensures ok ==> Pinned() == {} && n == 0
      ensures ok ==> Now(cache) == Done(old(Now(cache)), CommitWrites(l, old(Lh()), old(cache.Logical()),
          old(cache.disk)[l.start]))
    {
      ghost var was := Now(cache);
      HeaderClean();
      ok := true;
      if n > 0 {
        CommitParts(l, Lh(), was);
        ok := LogAndSeal();
        if ok {
          InstallAndClear();
        }
      } else {
        assert was.writes + [] == was.writes;
      }
    }

    /** One pass of begin_op's loop; false means that the caller sleeps. */
    method BeginOp() returns (admitted: bool)
      requires Valid()
      modifies this`outstanding
      ensures Valid()
      ensures admitted <==> !committing && n + (old(outstanding) + 1) * 10 <= 30
      ensures outstanding == old(outstanding) + if admitted then 1 else 0
    {
      if committing {
        return false;
      } else if n + (outstanding + 1) * MAXOPBLOCKS > LOGSIZE {
        return false;
      } else {
        outstanding := outstanding + 1;
        return true;
      }
    }

    /** end_op. The last operation out commits; then the log is free again. False is the panic of
        bget in the commit. */
    method EndOp() returns (wake: bool)
      requires Valid() && outstanding > 0 && !committing
      requires outstanding == 1 ==> Idle() && Pinned() == SetOf(Lh())
      modifies cache`disk, cache`writes, cache`order, cache.buf, this`n, this`outstanding, this`committing
      ensures Valid() && outstanding == old(outstanding) - 1 && committing == !wake
      ensures wake <==> old(outstanding) > 1 || HasBuffer(old(n))
      ensures old(outstanding) > 1 || !wake ==> Now(cache) == old(Now(cache)) && n == old(n)
      ensures old(outstanding) > 1 ==> cache.buf[..] == old(cache.buf[..])
      ensures old(outstanding) == 1 && wake ==>
                && Idle() && Pinned() == {} && n == 0
                && Now(cache) == Done(old(Now(cache)),
                     CommitWrites(l, old(Lh()), old(cache.Logical()), old(cache.disk)[l.start]))
    {
      outstanding := outstanding - 1;
      if outstanding == 0 {
        committing := true;
        var ok := Commit();
        if !ok {
          return false;
        }
        committing := false;
      }
      wake := true;
    }

    /** log_write: the block joins the list unless it is on it, and is pinned. */
    method LogWrite(b: nat)
      requires Valid() && b < NBUF && cache.buf[b].busy && cache.buf[b].valid
      requires cache.buf[b].sector < l.start
      requires !TooBig(l, n) && outstanding >= 1
      modifies this`n, sector, cache.buf
      ensures Valid()
      ensures Lh() == Absorb(old(Lh()), old(cache.buf[b].sector))
      ensures cache.buf[..] == old(cache.buf[..])[b := old(cache.buf[b]).(dirty := true)]
      ensures Pinned() == old(Pinned()) + {old(cache.buf[b].sector)}
      ensures Now(cache) == old(Now(cache))
    {
      ghost var lh := Lh();
      var s := cache.buf[b].sector;
      var i := 0;
      while i < n && sector[i] != s
        invariant 0 <= i <= n
        invariant s !in lh[..i]
      {
        assert lh[..i + 1] == lh[..i] + [lh[i]];
        i := i + 1;
      }
      assert i == n ==> lh[..i] == lh;
      sector[i] := s;
      if i == n {
        n := n + 1;
        assert Lh() == lh + [s];
      } else {
        assert Lh() == lh;
      }
      ghost var was := cache.buf[..];
      cache.Pin(b);
      PinOne(was, b);
    }
  }
}
