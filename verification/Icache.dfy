/** The inode cache of fs.c and path lookup through it. One process looks up at a time;
    file contents other than directory entries are not part of this module. */
module Icache {
  import opened Options
  import opened Params
  import opened Sequences
  import opened Path
  import opened Directories

  datatype Key = Key(dev: nat, inum: nat)

  /** The inodes on disk. */
  type Store = map<Key, Node>

  const ROOT := Key(ROOTDEV, ROOTINO)

  function At(fs: Store, k: Key): (n: Node) {
    if k in fs then fs[k] else FREE
  }

  // ---- Resolving a path ----

  function Enter(fs: Store, o: Option<Key>, name: string): (r: Option<Key>) {
    if o.None? || At(fs, o.value).kind != Directory then None
    else
      var inum := Find(At(fs, o.value).entries, name);
      if inum.None? then None else Some(Key(o.value.dev, inum.value))
  }

  /** The left fold of directory lookup over the elements of a path. */
  function Resolve(fs: Store, o: Option<Key>, names: seq<string>): (r: Option<Key>)
    decreases |names|
  {
    if names == [] then o else Resolve(fs, Enter(fs, o, names[0]), names[1..])
  }

  /** What namex finds: the inode of the path, or the directory that holds its last element. */
  function Target(fs: Store, k: Key, names: seq<string>, parent: bool): (r: Option<Key>) {
    if !parent then Resolve(fs, Some(k), names)
    else if names == [] then None
    else
      var d := Resolve(fs, Some(k), names[..|names| - 1]);
      if d.Some? && At(fs, d.value).kind == Directory then d else None
  }

  lemma {:induction false} LostForever(fs: Store, names: seq<string>)
    ensures Resolve(fs, None, names) == None
  {
    if names != [] {
      LostForever(fs, names[1..]);
    }
  }

  /** One element further. */
  lemma TargetNext(fs: Store, k: Key, name: string, rest: seq<string>, parent: bool)
    requires !(parent && rest == [])
    ensures var o := Enter(fs, Some(k), name);
      Target(fs, k, [name] + rest, parent) == if o.None? then None else Target(fs, o.value, rest, parent)
  {
    var names, o := [name] + rest, Enter(fs, Some(k), name);
    assert names[1..] == rest;
    if parent {
      assert names[..|names| - 1][1..] == rest[..|rest| - 1];
      LostForever(fs, rest[..|rest| - 1]);
    } else {
      LostForever(fs, rest);
    }
  }

  // ---- The cache ----

  datatype Slot = Slot(key: Key, ref: nat, busy: bool, valid: bool, node: Node)

  predicate Live(t: seq<Slot>, i: nat, k: Key) {
    i < |t| && t[i].ref > 0 && t[i].key == k
  }

  /** At most one slot in use per inode. */
  ghost predicate Unique(t: seq<Slot>) {
    forall i: nat, j: nat, k :: Live(t, i, k) && Live(t, j, k) ==> i == j
  }

  /** The number of references to an inode. */
  ghost function Ref(t: seq<Slot>, k: Key): (n: nat) {
    if exists i: nat :: Live(t, i, k) then var i: nat :| Live(t, i, k); t[i].ref else 0
  }

  lemma RefIs(t: seq<Slot>, i: nat)
    requires Unique(t) && i < |t| && t[i].ref > 0
    ensures Ref(t, t[i].key) == t[i].ref
  {
    assert Live(t, i, t[i].key);
  }

  /** t' has one reference more to k than t, and is the same for all other inodes. */
  ghost predicate Holds(t: seq<Slot>, t': seq<Slot>, k: Key) {
    forall x :: Ref(t', x) == Ref(t, x) + if x == k then 1 else 0
  }

  /** Changing the count of one slot changes the count of its inode. */
  lemma RefChange(t: seq<Slot>, t': seq<Slot>, i: nat, k: Key)
    requires Unique(t) && i < |t| == |t'| && t' == t[i := t'[i]] && t'[i].key == k
    requires t[i].ref > 0 ==> t[i].key == k
    requires t[i].ref == 0 ==> forall j: nat :: !Live(t, j, k)
    ensures Unique(t')
    ensures Ref(t, k) == t[i].ref && Ref(t', k) == t'[i].ref
    ensures forall x :: x != k ==> Ref(t', x) == Ref(t, x)
  {
    forall j: nat, x | j < |t| && j != i ensures Live(t', j, x) == Live(t, j, x) {
      assert t'[j] == t[j];
    }
    forall j: nat | j != i ensures !Live(t, j, k) {
      if t[i].ref > 0 {
        assert Live(t, i, k);
      }
    }
    assert Unique(t') by {
      forall a: nat, b: nat, x | Live(t', a, x) && Live(t', b, x) ensures a == b {
        if a != i && b != i {
          assert Live(t, a, x) && Live(t, b, x);
        }
      }
    }
    forall x | x != k ensures Ref(t', x) == Ref(t, x) {
      assert forall j: nat :: Live(t', j, x) <==> Live(t, j, x);
      if j: nat :| Live(t, j, x) {
        assert Live(t', j, x) && t'[j] == t[j];
      }
    }
    if t[i].ref > 0 { RefIs(t, i); }
    if t'[i].ref > 0 { RefIs(t', i); } else {
      assert forall j: nat :: !Live(t', j, k);
    }
  }

  /** Cached inodes agree with the disk and are allocated. */
  ghost predicate Coherent(t: seq<Slot>, fs: Store) {
    forall i :: 0 <= i < |t| && t[i].ref > 0 && t[i].valid ==>
      t[i].node == At(fs, t[i].key) && t[i].node.kind != Unallocated
  }

  ghost predicate AllInUse(t: seq<Slot>) {
    forall i :: 0 <= i < |t| ==> t[i].ref > 0
  }

  ghost predicate Unlocked(t: seq<Slot>) {
    forall i :: 0 <= i < |t| ==> !t[i].busy
  }

  // ---- What a lookup does ----

  /** What a search comes to: an inode without a type, no such inode, or an inode. */
  datatype Found = Untyped | Nothing | Inode(k: Key)

  /** The inodes after the search, and what it came to. */
  datatype Walked = Walked(fs: Store, out: Found)

  /** Nobody but the search uses k, and no entry counts it: it is freed when the search leaves it. */
  ghost predicate Loose(fs: Store, t: seq<Slot>, k: Key) {
    At(fs, k).nlink == 0 && Ref(t, k) == 0
  }

  ghost function Left(fs: Store, t: seq<Slot>, k: Key): (r: Store) {
    if Loose(fs, t, k) then fs[k := FREE] else fs
  }

  /** Following names from k on, where t holds the references of others. Every inode but the last is locked,
      which needs it to have a type, and left again. */
  ghost function Walk(fs: Store, t: seq<Slot>, k: Key, names: seq<string>, parent: bool): (w: Walked)
    decreases |names|
  {
    if names == [] then Walked(fs, if parent then Nothing else Inode(k))
    else if At(fs, k).kind == Unallocated then Walked(fs, Untyped)
    else if At(fs, k).kind != Directory then Walked(Left(fs, t, k), Nothing)
    else if parent && |names| == 1 then Walked(fs, Inode(k))
    else
      var o := Enter(fs, Some(k), names[0]);
      if o.None? then Walked(Left(fs, t, k), Nothing)
      else Walk(if o.value == k then fs else Left(fs, t, k), t, o.value, names[1..], parent)
  }

  /** The inodes that get locked on the way. */
  function Trail(fs: Store, k: Key, names: seq<string>, parent: bool): (ks: seq<Key>)
    decreases |names|
  {
    if names == [] then []
    else
      var o := Enter(fs, Some(k), names[0]);
      [k] + if o.None? || (parent && |names| == 1) then [] else Trail(fs, o.value, names[1..], parent)
  }

  /** Where no allocated inode on the way is loose, a search leaves the disk alone. It fails for want of a type
      if and only if an inode on the way is not allocated, and otherwise finds the target of the path. */
  lemma {:induction false} WalkMeans(fs: Store, t: seq<Slot>, k: Key, names: seq<string>, parent: bool)
    requires forall x :: x in Trail(fs, k, names, parent) && At(fs, x).kind != Unallocated ==> !Loose(fs, t, x)
    ensures Walk(fs, t, k, names, parent).fs == fs
    ensures Walk(fs, t, k, names, parent).out == Untyped <==>
      exists x :: x in Trail(fs, k, names, parent) && At(fs, x).kind == Unallocated
    ensures Walk(fs, t, k, names, parent).out != Untyped ==>
      var o := Target(fs, k, names, parent);
      Walk(fs, t, k, names, parent).out == if o.None? then Nothing else Inode(o.value)
    decreases |names|
  {
    if names != [] {
      var o := Enter(fs, Some(k), names[0]);
      assert names == [names[0]] + names[1..];
      RoundMeans(fs, k, names[0], names[1..], parent);
      assert k in Trail(fs, k, names, parent);
      if o.Some? && !(parent && |names| == 1) {
        var rest := Trail(fs, o.value, names[1..], parent);
        assert Trail(fs, k, names, parent) == [k] + rest;
        WalkMeans(fs, t, o.value, names[1..], parent);
      }
    }
  }

  /** How a lookup ends: the cache is full, an inode has no type, there is no such inode, or a slot with a new
      reference. The first two are panics. */
  datatype Lookup = Full | NoType | Missing | Got(i: nat)

  class Cache {
    const inode: array<Slot>
    var fs: Store

    ghost predicate Valid()
      reads this, inode
    {
      Unique(inode[..]) && Coherent(inode[..], fs)
    }

    constructor (n: nat, disk: Store)
      ensures Valid() && fresh(inode) && fs == disk && forall k :: Ref(inode[..], k) == 0
    {
      inode := new Slot[n](_ => Slot(ROOT, 0, false, false, FREE));
      fs := disk;
      new;
      assert forall i: nat, k :: !Live(inode[..], i, k);
    }

    /** iget; none stands for the panic on a full cache. */
    method Iget(k: Key) returns (r: Option<nat>)
      requires Valid()
      modifies inode
      ensures r.None? ==> inode[..] == old(inode[..]) && AllInUse(inode[..]) && forall i: nat :: !Live(inode[..], i, k)
      ensures r.Some? ==> Valid() && Live(inode[..], r.value, k) && Holds(old(inode[..]), inode[..], k)
      ensures r.Some? ==> inode[r.value].ref > 1 || !inode[r.value].valid
      ensures r.Some? ==> forall j :: 0 <= j < inode.Length ==>
        (old(inode[j]).ref > 0 ==> inode[j] == old(inode[j]).(ref := inode[j].ref) && inode[j].ref > 0) &&
        (inode[j].busy ==> old(inode[j]).busy)
    {
      ghost var t := inode[..];
      var empty: Option<nat> := None;
      var i := 0;
      while i < inode.Length
        invariant 0 <= i <= inode.Length && inode[..] == t
        invariant forall j: nat :: j < i ==> !Live(t, j, k)
        invariant empty.None? ==> forall j :: 0 <= j < i ==> t[j].ref > 0
        invariant empty.Some? ==> empty.value < i && t[empty.value].ref == 0
      {
        if inode[i].ref > 0 && inode[i].key == k {
          inode[i] := inode[i].(ref := inode[i].ref + 1);
          RefChange(t, inode[..], i, k);
          return Some(i);
        }
        if empty.None? && inode[i].ref == 0 {
          empty := Some(i);
        }
        i := i + 1;
      }
      if empty.None? {
        return None;
      }
      inode[empty.value] := Slot(k, 1, false, false, inode[empty.value].node);
      RefChange(t, inode[..], empty.value, k);
      return empty;
    }

    method Idup(i: nat)
      requires Valid() && i < inode.Length && inode[i].ref > 0
      modifies inode
      ensures Valid() && Live(inode[..], i, old(inode[i]).key) && Holds(old(inode[..]), inode[..], inode[i].key)
      ensures inode[i].ref == old(inode[i]).ref + 1
      ensures old(Unlocked(inode[..])) ==> Unlocked(inode[..])
    {
      ghost var t := inode[..];
      inode[i] := inode[i].(ref := inode[i].ref + 1);
      RefChange(t, inode[..], i, t[i].key);
    }

    /** ilock of a slot that is not locked by another process; false is the panic on an inode without a type. */
    method Ilock(i: nat) returns (ok: bool)
      requires Valid() && i < inode.Length && inode[i].ref > 0 && !inode[i].busy
      modifies inode
      ensures ok <==> At(fs, inode[i].key).kind != Unallocated
      ensures ok ==> Valid()
      ensures forall x :: Ref(inode[..], x) == old(Ref(inode[..], x))
      ensures inode[i] == Slot(old(inode[i]).key, old(inode[i]).ref, true, true, At(fs, old(inode[i]).key))
      ensures forall j :: 0 <= j < inode.Length && j != i ==> inode[j] == old(inode[j])
    {
      ghost var t := inode[..];
      inode[i] := inode[i].(busy := true);
      if !inode[i].valid {
        inode[i] := inode[i].(node := At(fs, inode[i].key), valid := true);
      }
      RefChange(t, inode[..], i, t[i].key);
      ok := inode[i].node.kind != Unallocated;
    }

    method Iunlock(i: nat)
      requires Valid() && i < inode.Length && inode[i].ref > 0 && inode[i].busy
      modifies inode
      ensures Valid() && forall x :: Ref(inode[..], x) == old(Ref(inode[..], x))
      ensures inode[i] == old(inode[i]).(busy := false)
      ensures forall j :: 0 <= j < inode.Length && j != i ==> inode[j] == old(inode[j])
    {
      ghost var t := inode[..];
      inode[i] := inode[i].(busy := false);
      RefChange(t, inode[..], i, t[i].key);
    }

    /** iput: the last reference to an inode without links frees it on disk. */
    method Iput(i: nat)
      requires Valid() && i < inode.Length && inode[i].ref > 0 && !inode[i].busy
      modifies this, inode
      ensures Valid() && Holds(inode[..], old(inode[..]), old(inode[i]).key)
      ensures old(Unlocked(inode[..])) ==> Unlocked(inode[..])
      ensures fs == if old(inode[i].ref == 1 && inode[i].valid && inode[i].node.nlink == 0)
                    then old(fs)[old(inode[i]).key := FREE] else old(fs)
      ensures inode[i].key == old(inode[i]).key && inode[i].ref == old(inode[i]).ref - 1
      ensures forall j :: 0 <= j < inode.Length && j != i ==> inode[j] == old(inode[j])
    {
      ghost var t := inode[..];
      var k := inode[i].key;
      if inode[i].ref == 1 && inode[i].valid && inode[i].node.nlink == 0 {
        fs := fs[k := FREE];
        inode[i] := inode[i].(valid := false, busy := false);
        assert Coherent(inode[..], fs) by {
          forall j: nat | j < |t| && j != i && t[j].ref > 0 ensures t[j].key != k {
            assert Live(t, i, k) && Live(t, j, t[j].key);
          }
        }
      }
      inode[i] := inode[i].(ref := inode[i].ref - 1);
      RefChange(t, inode[..], i, k);
    }

    /** dirlookup in a locked directory. */
    method DirLookup(d: nat, name: string) returns (r: Lookup)
      requires Valid() && d < inode.Length && inode[d].ref > 0 && inode[d].valid && inode[d].node.kind == Directory
      modifies inode
      ensures !r.NoType? && (r.Full? ==> AllInUse(inode[..]))
      ensures r.Missing? ==> Find(old(inode[d]).node.entries, name).None? && inode[..] == old(inode[..])
      ensures r.Got? ==> Find(old(inode[d]).node.entries, name).Some? && Valid() && r.i < inode.Length
      ensures r.Got? ==> var k := Key(old(inode[d]).key.dev, Find(old(inode[d]).node.entries, name).value);
        Live(inode[..], r.i, k) && Holds(old(inode[..]), inode[..], k)
      ensures r.Got? ==> Live(inode[..], d, old(inode[d]).key) && inode[d].busy == old(inode[d]).busy && inode[d].valid
      ensures forall j :: 0 <= j < inode.Length && inode[j].busy ==> old(inode[j]).busy
    {
      var es := inode[d].node.entries;
      var off := 0;
      while off < |es|
        invariant 0 <= off <= |es| && inode[..] == old(inode[..])
        invariant forall j :: 0 <= j < off ==> es[j].inum == 0 || es[j].name != name
      {
        if es[off].inum != 0 && es[off].name == name {
          var i := Iget(Key(inode[d].key.dev, es[off].inum));
          return if i.None? then Full else Got(i.value);
        }
        off := off + 1;
      }
      return Missing;
    }

    /** iunlockput of the slot that is locked: its inode goes if it is loose. */
    method Leave(i: nat, ghost k: Key, ghost t: seq<Slot>)
      requires Valid() && Live(inode[..], i, k) && OnlyLocked(inode[..], i) && inode[i].busy && inode[i].valid
      requires Ref(inode[..], k) > Ref(t, k)
      modifies this, inode
      ensures Valid() && Unlocked(inode[..]) && Holds(inode[..], old(inode[..]), k)
      ensures fs == if old(Ref(inode[..], k)) == 1 then Left(old(fs), t, k) else old(fs)
      ensures inode[i].key == k && inode[i].ref == old(inode[i]).ref - 1
      ensures forall j :: 0 <= j < inode.Length && j != i ==> inode[j] == old(inode[j])
    {
      RefIs(inode[..], i);
      Iunlock(i);
      Iput(i);
    }

    /** The search has come to the inode k, in slot ip; t0 is the table when namex was called. */
    ghost predicate Reached(t0: seq<Slot>, ip: nat, k: Key)
      reads this, inode
    {
      Valid() && Unlocked(inode[..]) && Live(inode[..], ip, k) && Holds(t0, inode[..], k)
    }

    /** The search is over and the counts are as before. */
    ghost predicate Restored(t0: seq<Slot>)
      reads this, inode
    {
      Valid() && Unlocked(inode[..]) && forall x :: Ref(inode[..], x) == Ref(t0, x)
    }

    /** The locked directory ip is left for its entry name. */
    method Descend(ip: nat, name: string, ghost t0: seq<Slot>, ghost k: Key) returns (r: Lookup)
      requires Valid() && Live(inode[..], ip, k) && OnlyLocked(inode[..], ip) && Holds(t0, inode[..], k)
      requires inode[ip].busy && inode[ip].valid && At(fs, k).kind == Directory
      modifies this, inode
      ensures !r.NoType? && (r.Full? ==> AllInUse(inode[..]))
      ensures r.Missing? ==> Enter(old(fs), Some(k), name).None? && Restored(t0) && fs == Left(old(fs), t0, k)
      ensures r.Got? ==> var o := Enter(old(fs), Some(k), name);
        o.Some? && Reached(t0, r.i, o.value) && fs == if o.value == k then old(fs) else Left(old(fs), t0, k)
    {
      r := DirLookup(ip, name);
      if r.Got? {
        RefIs(inode[..], ip);
      }
      if !r.Full? {
        Leave(ip, k, t0);
      }
    }

    /** One round of namex, for the path element name; last stands for the last element in a search
        for the parent. */
    method Round(ip: nat, name: string, last: bool, ghost t0: seq<Slot>, ghost k: Key) returns (r: Lookup)
      requires Reached(t0, ip, k)
      modifies this, inode
      ensures r.Full? ==> AllInUse(inode[..])
      ensures r.NoType? ==> fs == old(fs) && At(fs, k).kind == Unallocated
      ensures !r.NoType? && !r.Full? ==> At(old(fs), k).kind != Unallocated
      ensures r.Missing? ==>
        && Restored(t0) && fs == Left(old(fs), t0, k)
        && (At(old(fs), k).kind != Directory || (!last && Enter(old(fs), Some(k), name).None?))
      ensures r.Got? ==> var o := if last then Some(k) else Enter(old(fs), Some(k), name);
        && At(old(fs), k).kind == Directory && o.Some? && Reached(t0, r.i, o.value)
        && fs == if o.value == k then old(fs) else Left(old(fs), t0, k)
    {
      var ok := Ilock(ip);
      if !ok {
        return NoType;
      }
      if inode[ip].node.kind != Directory {
        Leave(ip, k, t0);
        return Missing;
      }
      if last {
        Iunlock(ip);
        return Got(ip);
      }
      r := Descend(ip, name, t0, k);
    }

    /** The search has come to what w says. */
    ghost predicate Ended(r: Lookup, t0: seq<Slot>, w: Walked)
      reads this, inode
    {
      && fs == w.fs
      && match w.out
         case Untyped => r.NoType?
         case Nothing => r.Missing? && Restored(t0)
         case Inode(k) => r.Got? && Reached(t0, r.i, k)
    }

    /** Where no allocated inode on the way from k is loose, the search has changed no inode; it has met one without a
        type if there is one on the way, and otherwise come to the target of the path. */
    ghost predicate Answers(r: Lookup, t0: seq<Slot>, fs0: Store, k: Key, names: seq<string>, parent: bool)
      reads this, inode
    {
      Firm(fs0, t0, k, names, parent) ==>
        && fs == fs0
        && if Broken(fs0, k, names, parent) then r.NoType?
           else
             var o := Target(fs0, k, names, parent);
             if o.None? then r.Missing? && Restored(t0) else r.Got? && Reached(t0, r.i, o.value)
    }

    /** Where namex starts. */
    method Begin(path: string, cwd: nat) returns (r: Lookup)
      requires Valid() && Unlocked(inode[..]) && cwd < inode.Length && inode[cwd].ref > 0
      modifies inode
      ensures !r.Missing? && !r.NoType? && (r.Full? ==> AllInUse(inode[..]))
      ensures r.Got? && path != [] && path[0] == '/' ==> Reached(old(inode[..]), r.i, ROOT)
      ensures r.Got? && (path == [] || path[0] != '/') ==> Reached(old(inode[..]), r.i, old(inode[cwd]).key)
      ensures r.Got? ==> inode[r.i].ref > 1 || !inode[r.i].valid
    {
      if path != [] && path[0] == '/' {
        var i := Iget(ROOT);
        return if i.None? then Full else Got(i.value);
      }
      Idup(cwd);
      return Got(cwd);
    }

    /** namex: resolves path from the root or from the current directory cwd. */
    method Namex(path: string, parent: bool, cwd: nat) returns (r: Lookup, name: string)
      requires Valid() && Unlocked(inode[..]) && cwd < inode.Length && inode[cwd].ref > 0
      modifies this, inode
      ensures r.Full? ==> AllInUse(inode[..])
      ensures !r.Full? && path != [] && path[0] == '/' ==>
        Ended(r, old(inode[..]), Walk(old(fs), old(inode[..]), ROOT, Elements(path), parent))
      ensures !r.Full? && (path == [] || path[0] != '/') ==>
        Ended(r, old(inode[..]), Walk(old(fs), old(inode[..]), old(inode[cwd]).key, Elements(path), parent))
      ensures r.Got? && parent ==> Elements(path) != [] && name == Elements(path)[|Elements(path)| - 1]
    {
      ghost var t0, start := inode[..], if path != [] && path[0] == '/' then ROOT else inode[cwd].key;
      name := [];
      r := Begin(path, cwd);
      if r.Got? {
        r, name := Follow(path, parent, r.i, t0, start);
      }
    }

    /** That round as a step of the walk over the elements left. */
    method RoundOn(ip: nat, name: string, last: bool, ghost t0: seq<Slot>, ghost k: Key, ghost left: seq<string>,
        ghost parent: bool)
      returns (r: Lookup, ghost k': Key)
      requires Reached(t0, ip, k) && left != [] && left[0] == name && last == (parent && |left| == 1)
      modifies this, inode
      ensures r.Full? ==> AllInUse(inode[..])
      ensures !r.Full? && (!r.Got? || last) ==> Ended(r, t0, Walk(old(fs), t0, k, left, parent))
      ensures r.Got? && !last ==>
        Reached(t0, r.i, k') && Walk(old(fs), t0, k, left, parent) == Walk(fs, t0, k', left[1..], parent)
    {
      ghost var o := Enter(fs, Some(k), name);
      k' := if o.Some? then o.value else k;
      r := Round(ip, name, last, t0, k);
    }

    /** The loop of namex, from the inode start in slot i. */
    method Follow(path: string, parent: bool, i: nat, ghost t0: seq<Slot>, ghost start: Key)
      returns (r: Lookup, name: string)
      requires Reached(t0, i, start) && (inode[i].ref > 1 || !inode[i].valid)
      modifies this, inode
      ensures r.Full? ==> AllInUse(inode[..])
      ensures !r.Full? ==> Ended(r, t0, Walk(old(fs), t0, start, Elements(path), parent))
      ensures r.Got? && parent ==> Elements(path) != [] && name == Elements(path)[|Elements(path)| - 1]
    {
      r := Got(i);
      ghost var k := start;
      var found, pos;
      ghost var left := Elements(path);
      assert path[0..] == path && left[0..] == left;
      found, name, pos := NextElem(path, 0, left);
      while found
        invariant r.Got? && Reached(t0, r.i, k)
        invariant Cursor(path, left, found, name, pos)
        invariant Walk(old(fs), t0, start, Elements(path), parent) == Walk(fs, t0, k, left, parent)
        invariant parent && left == [] ==> Elements(path) == [] && (inode[r.i].ref > 1 || !inode[r.i].valid)
        decreases |left|
      {
        var last := parent && pos == |path|;
        SuffixTail(left, Elements(path));
        assert left[0] == name && left[1..] == Elements(path[pos..]);
        r, k := RoundOn(r.i, name, last, t0, k, left, parent);
        if !r.Got? || last {
          return;
        }
        left := left[1..];
        found, name, pos := NextElem(path, pos, left);
      }
      if parent {
        Iput(r.i);
        r := Missing;
      }
    }

    /** namei: a path with a slash in front is followed from the root directory, whatever cwd is, and any other from
        cwd. */
    method Namei(path: string, cwd: nat) returns (r: Lookup)
      requires Valid() && Unlocked(inode[..]) && cwd < inode.Length && inode[cwd].ref > 0
      modifies this, inode
      ensures r.Full? ==> AllInUse(inode[..])
      ensures !r.Full? && path != [] && path[0] == '/' ==>
        Answers(r, old(inode[..]), old(fs), Key(1, 1), Elements(path), false)
      ensures !r.Full? && (path == [] || path[0] != '/') ==>
        Answers(r, old(inode[..]), old(fs), old(inode[cwd]).key, Elements(path), false)
    {
      ghost var start := if path != [] && path[0] == '/' then ROOT else inode[cwd].key;
      if Firm(fs, inode[..], start, Elements(path), false) {
        WalkMeans(fs, inode[..], start, Elements(path), false);
      }
      var name;
      r, name := Namex(path, false, cwd);
    }

    /** nameiparent: the directory of all elements but the last, and the last. */
    method NameiParent(path: string, cwd: nat) returns (r: Lookup, name: string)
      requires Valid() && Unlocked(inode[..]) && cwd < inode.Length && inode[cwd].ref > 0
      modifies this, inode
      ensures r.Full? ==> AllInUse(inode[..])
      ensures !r.Full? && path != [] && path[0] == '/' ==>
        Answers(r, old(inode[..]), old(fs), Key(1, 1), Elements(path), true)
      ensures !r.Full? && (path == [] || path[0] != '/') ==>
        Answers(r, old(inode[..]), old(fs), old(inode[cwd]).key, Elements(path), true)
      ensures r.Got? ==> Elements(path) != [] && name == Elements(path)[|Elements(path)| - 1]
    {
      ghost var start := if path != [] && path[0] == '/' then ROOT else inode[cwd].key;
      if Firm(fs, inode[..], start, Elements(path), true) {
        WalkMeans(fs, inode[..], start, Elements(path), true);
      }
      r, name := Namex(path, true, cwd);
    }
  }

  /** No allocated inode on the way is loose. */
  ghost predicate Firm(fs: Store, t: seq<Slot>, k: Key, names: seq<string>, parent: bool) {
    forall x :: x in Trail(fs, k, names, parent) && At(fs, x).kind != Unallocated ==> !Loose(fs, t, x)
  }

  /** Some inode on the way is not allocated. */
  ghost predicate Broken(fs: Store, k: Key, names: seq<string>, parent: bool) {
    exists x :: x in Trail(fs, k, names, parent) && At(fs, x).kind == Unallocated
  }

  ghost predicate OnlyLocked(t: seq<Slot>, i: nat) {
    forall j :: 0 <= j < |t| && t[j].busy ==> j == i
  }

  lemma SuffixTail(left: seq<string>, all: seq<string>)
    requires Suffix(left, all) && left != []
    ensures Suffix(left[1..], all) && all[|all| - 1] == left[|left| - 1]
  {
  }

  /** skipelem has just delivered name, with path[pos..] to go; left holds the elements from name on. */
  ghost predicate Cursor(path: string, left: seq<string>, found: bool, name: string, pos: nat) {
    && pos <= |path| && Suffix(left, Elements(path))
    && (if found then left == [name] + Elements(path[pos..]) else left == [])
    && (pos < |path| ==> Elements(path[pos..]) != [])
    && (pos == |path| ==> Elements(path[pos..]) == [])
  }

  /** skipelem where the elements of left remain. */
  method NextElem(path: string, start: nat, ghost left: seq<string>) returns (found: bool, name: string, pos: nat)
    requires start <= |path| && left == Elements(path[start..])
    requires Suffix(left, Elements(path))
    ensures Cursor(path, left, found, name, pos)
  {
    found, name, pos := SkipElem(path, start);
    if pos == |path| {
      NoElement(path[pos..]);
    }
  }

  /** What a round decides about the target. */
  lemma RoundMeans(fs: Store, k: Key, name: string, rest: seq<string>, parent: bool)
    ensures var o, r := Enter(fs, Some(k), name), Target(fs, k, [name] + rest, parent);
      if parent && rest == [] then r == (if At(fs, k).kind == Directory then Some(k) else None)
      else r == if o.None? then None else Target(fs, o.value, rest, parent)
  {
    if parent && rest == [] {
      assert ([name] + rest)[..0] == [];
    } else {
      TargetNext(fs, k, name, rest, parent);
    }
  }
}
