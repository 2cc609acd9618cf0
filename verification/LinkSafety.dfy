/** In every run on linked directories, link counts are the numbers of entries. */
module LinkSafety {
  import opened Options
  import opened Params
  import opened Directories
  import opened Links

  // ---- The invariant ----

  predicate Dots(nodes: Nodes, d: nat)
    requires d < |nodes|
  {
    nodes[d].kind == Directory ==>
      var es := nodes[d].entries;
      && d != 0 && |es| >= 2 && es[0] == Entry(d, ".") && 0 < es[1].inum < |nodes| && es[1].name == ".."
      && (!Linked(nodes[d]) ==> es[1].inum != d && Empty(es))
  }

  function Up(nodes: Nodes, d: nat): (p: nat)
    requires d < |nodes| && nodes[d].kind == Directory && Dots(nodes, d)
  {
    nodes[d].entries[1].inum
  }

  /** Entry j of d, past the dots, names x. */
  predicate Child(nodes: Nodes, d: nat, j: nat, x: nat) {
    d < |nodes| && Linked(nodes[d]) && 2 <= j < |nodes[d].entries| && nodes[d].entries[j].inum == x != 0
  }

  ghost predicate ChildOk(nodes: Nodes, d: nat, j: nat, x: nat)
    requires forall d :: 0 <= d < |nodes| ==> Dots(nodes, d)
  {
    Child(nodes, d, j, x) ==>
      && nodes[d].entries[j].name != "." && nodes[d].entries[j].name != ".."
      && x < |nodes| && x != ROOTINO && nodes[x].kind != Unallocated
      && (nodes[x].kind == Directory ==> Up(nodes, x) == d && forall i: nat :: Child(nodes, d, i, x) ==> i == j)
  }

  ghost predicate HasParent(nodes: Nodes, c: nat)
    requires forall d :: 0 <= d < |nodes| ==> Dots(nodes, d)
    requires c < |nodes|
  {
    Linked(nodes[c]) && c != ROOTINO ==> exists j: nat :: Child(nodes, Up(nodes, c), j, c)
  }

  /** Every directory has its dots, and every linked one an entry in its parent and nowhere else. */
  ghost predicate Shape(nodes: Nodes) {
    && (forall d :: 0 <= d < |nodes| ==> Dots(nodes, d))
    && ROOTINO < |nodes| && Linked(nodes[ROOTINO]) && Up(nodes, ROOTINO) == ROOTINO
    && (forall d: nat, j: nat, x: nat :: ChildOk(nodes, d, j, x))
    && (forall c :: 0 <= c < |nodes| ==> HasParent(nodes, c))
  }

  predicate CountOk(t: Tree, x: nat)
    requires x < |t.nodes|
  {
    if t.nodes[x].kind == Unallocated then Count(t.nodes, x) == 0 && t.pending[x] == 0
    else t.nodes[x].nlink == Count(t.nodes, x) + t.pending[x]
  }

  ghost predicate Counts(t: Tree) {
    forall x :: 0 < x < |t.nodes| ==> CountOk(t, x)
  }

  ghost predicate Pending(t: Tree) {
    forall x :: x in t.pending ==> 0 < x < |t.nodes| && t.nodes[x].kind != Directory && t.nodes[x].kind != Unallocated
  }

  ghost predicate Inv(t: Tree) {
    Shape(t.nodes) && Counts(t) && Pending(t) && t.nodes[0].kind == Unallocated
  }

  // ---- Counting ----

  lemma NamedCounts(nodes: Nodes, d: nat, j: nat, x: nat)
    requires NamedBy(nodes, d, j, x)
    ensures Count(nodes, x) > 0
  {
    CountNone(nodes, x);
  }

  /** The directory nodes with entry j of d blanked. */
  function Blank(nodes: Nodes, d: nat, j: nat): (r: Nodes)
    requires d < |nodes| && j < |nodes[d].entries|
  {
    nodes[d := nodes[d].(entries := nodes[d].entries[j := Entry(0, "")])]
  }

  lemma BlankCount(nodes: Nodes, d: nat, j: nat, x: nat)
    requires d < |nodes| && j < |nodes[d].entries| && Linked(nodes[d]) && x != 0
    ensures Count(Blank(nodes, d, j), x) == Count(nodes, x) - Names(nodes[d].entries[j], x)
  {
    var es := nodes[d].entries;
    CountInAt(es, j, Entry(0, ""), x);
    CountAt(nodes, d, nodes[d].(entries := es[j := Entry(0, "")]), x);
  }

  lemma CountTwo(nodes: Nodes, d: nat, j: nat, e: nat, k: nat, x: nat)
    requires NamedBy(nodes, d, j, x) && NamedBy(nodes, e, k, x) && d != e && x != 0
    ensures Count(nodes, x) >= 2
  {
    BlankCount(nodes, d, j, x);
    NamedCounts(Blank(nodes, d, j), e, k, x);
  }

  lemma CountOne(nodes: Nodes, d: nat, j: nat, x: nat)
    requires NamedBy(nodes, d, j, x) && x != 0
    requires forall e: nat, k: nat :: NamedBy(nodes, e, k, x) ==> e == d && k == j
    ensures Count(nodes, x) == 1
  {
    BlankCount(nodes, d, j, x);
    var n := Blank(nodes, d, j);
    forall e: nat, k: nat ensures !NamedBy(n, e, k, x) {
      assert NamedBy(n, e, k, x) ==> NamedBy(nodes, e, k, x);
    }
    CountNone(n, x);
  }

  /** An empty directory has one link, the entry in its parent. */
  lemma EmptyDirectory(t: Tree, d: nat, j: nat, x: nat)
    requires Inv(t) && Child(t.nodes, d, j, x) && x < |t.nodes| && t.nodes[x].kind == Directory &&
        Empty(t.nodes[x].entries)
    ensures t.nodes[x].nlink == 1
  {
    var nodes := t.nodes;
    assert ChildOk(nodes, d, j, x) && CountOk(t, x);
    assert NamedBy(nodes, d, j, x);
    forall e: nat, k: nat | NamedBy(nodes, e, k, x) ensures e == d && k == j {
      assert Dots(nodes, e) && HasParent(nodes, e);
      if k >= 2 {
        assert Child(nodes, e, k, x) && ChildOk(nodes, e, k, x);
      }
    }
    CountOne(nodes, d, j, x);
  }

  // ---- Steps that change no directory ----

  /** The same directories, with the same entries; link counts of files may differ. */
  ghost predicate SameDirs(nodes: Nodes, nodes': Nodes) {
    && |nodes'| == |nodes|
    && (forall d :: 0 <= d < |nodes| ==> nodes'[d].kind == nodes[d].kind)
    && (forall d :: 0 <= d < |nodes| && nodes[d].kind == Directory ==> nodes'[d] == nodes[d])
  }

  lemma SameShape(nodes: Nodes, nodes': Nodes)
    requires Shape(nodes) && SameDirs(nodes, nodes')
    ensures Shape(nodes')
  {
    assert forall d :: 0 <= d < |nodes| ==> Dots(nodes, d) && (Linked(nodes[d]) ==> nodes'[d] == nodes[d]);
    assert forall d: nat, j: nat, x: nat :: Child(nodes', d, j, x) <==> Child(nodes, d, j, x);
    forall d: nat, j: nat, x: nat ensures ChildOk(nodes', d, j, x) {
      assert ChildOk(nodes, d, j, x);
    }
    forall c | 0 <= c < |nodes| ensures HasParent(nodes', c) {
      if Linked(nodes'[c]) && c != ROOTINO {
        assert HasParent(nodes, c);
        var j: nat :| Child(nodes, Up(nodes, c), j, c);
        assert Child(nodes', Up(nodes', c), j, c);
      }
    }
  }

  /** Raising or lowering the count of a file together with its pending links. */
  lemma AddLinksKeeps(t: Tree, x: nat, k: int, pending: multiset<nat>)
    requires Inv(t) && 0 < x < |t.nodes| && t.nodes[x].kind != Directory && t.nodes[x].kind != Unallocated
    requires pending[x] == t.pending[x] + k && forall y :: y != x ==> pending[y] == t.pending[y]
    ensures Inv(Tree(AddLinks(t.nodes, x, k), pending))
  {
    var t' := Tree(AddLinks(t.nodes, x, k), pending);
    SameShape(t.nodes, t'.nodes);
    forall y | 0 < y < |t.nodes| ensures CountOk(t', y) {
      assert CountOk(t, y);
      CountAt(t.nodes, x, t'.nodes[x], y);
    }
  }

  // ---- A new entry ----

  lemma NewSlot(nodes: Nodes, d: nat)
    requires Shape(nodes) && d < |nodes| && nodes[d].kind == Directory
    ensures EmptySlot(nodes[d].entries) >= 2
  {
    assert Dots(nodes, d);
  }

  /** A name that is not in a directory is not one of the dots. */
  lemma NotDots(nodes: Nodes, d: nat, name: string)
    requires Shape(nodes) && IsDir(nodes, d) && !Has(nodes, d, name)
    ensures name != "." && name != ".."
  {
    assert Dots(nodes, d);
  }

  lemma AddEntryCount(nodes: Nodes, d: nat, name: string, x: nat, y: nat)
    requires d < |nodes| && Linked(nodes[d]) && y != 0 && name != "."
    ensures Count(AddEntry(nodes, d, name, x), y) == Count(nodes, y) + if x == y then 1 else 0
  {
    var es := nodes[d].entries;
    CountInPut(es, EmptySlot(es), Entry(x, name), y);
    CountAt(nodes, d, AddEntry(nodes, d, name, x)[d], y);
  }

  /** A new entry for x in d, which is x's first if x is a directory. */
  lemma AddEntryShape(nodes: Nodes, d: nat, name: string, x: nat)
    requires Shape(nodes) && IsDir(nodes, d) && Linked(nodes[d]) && !Has(nodes, d, name)
    requires 0 < x < |nodes| && x != ROOTINO && nodes[x].kind != Unallocated && nodes[x].kind != Directory
    ensures Shape(AddEntry(nodes, d, name, x))
  {
    var nodes' := AddEntry(nodes, d, name, x);
    var i := EmptySlot(nodes[d].entries);
    NewSlot(nodes, d);
    NotDots(nodes, d, name);
    assert forall c :: 0 <= c < |nodes| ==> Dots(nodes, c) && (c != d ==> nodes'[c] == nodes[c]);
    assert forall c :: 0 <= c < |nodes| ==> Dots(nodes', c);
    ChildAfter(nodes, nodes', d, i, x);
    forall e: nat, j: nat, y: nat ensures ChildOk(nodes', e, j, y) {
      assert ChildOk(nodes, e, j, y);
    }
    forall c | 0 <= c < |nodes| ensures HasParent(nodes', c) {
      if Linked(nodes'[c]) && c != ROOTINO {
        assert HasParent(nodes, c);
        var j: nat :| Child(nodes, Up(nodes, c), j, c);
        assert Child(nodes', Up(nodes', c), j, c);
      }
    }
  }

  /** The children after entry i of d, which was not in use, has come to name x. */
  lemma ChildAfter(nodes: Nodes, nodes': Nodes, d: nat, i: nat, x: nat)
    requires d < |nodes| == |nodes'| && Linked(nodes[d]) && Linked(nodes'[d]) && x != 0
    requires forall c :: 0 <= c < |nodes| && c != d ==> nodes'[c] == nodes[c]
    requires 2 <= i <= |nodes[d].entries| && (i < |nodes[d].entries| ==> nodes[d].entries[i].inum == 0)
    requires exists name :: nodes'[d].entries == Put(nodes[d].entries, i, Entry(x, name))
    ensures forall e: nat, j: nat, y: nat ::
      Child(nodes', e, j, y) <==> Child(nodes, e, j, y) || (e == d && j == i && y == x)
  {
  }

  lemma LinkEndKeeps(t: Tree, x: nat, dir: Option<nat>, name: string)
    requires Inv(t) && Enabled(t, LinkEnd(x, dir, name)) && (dir.Some? ==> Linked(t.nodes[dir.value]))
    ensures Inv(Do(t, LinkEnd(x, dir, name)))
  {
    if dir.None? || Has(t.nodes, dir.value, name) {
      AddLinksKeeps(t, x, -1, t.pending - multiset{x});
    } else {
      var t', d := Do(t, LinkEnd(x, dir, name)), dir.value;
      AddEntryShape(t.nodes, d, name, x);
      NotDots(t.nodes, d, name);
      assert forall y :: y != d && 0 <= y < |t.nodes| ==> t'.nodes[y] == t.nodes[y];
      forall y | 0 < y < |t.nodes| ensures CountOk(t', y) {
        assert CountOk(t, y);
        AddEntryCount(t.nodes, d, name, x, y);
      }
    }
  }

  // ---- create ----

  /** A free inode is named by nobody, so it can become a file. */
  lemma NewFileShape(nodes: Nodes, x: nat, kind: Kind)
    requires Shape(nodes) && 0 < x < |nodes| && nodes[x].kind == Unallocated && kind != Directory && kind != Unallocated
    ensures Shape(nodes[x := Node(kind, 1, [])])
  {
    var nodes' := nodes[x := Node(kind, 1, [])];
    assert forall c :: 0 <= c < |nodes| ==> Dots(nodes, c) && (c != x ==> nodes'[c] == nodes[c]);
    assert forall c :: 0 <= c < |nodes| ==> Dots(nodes', c);
    assert forall e: nat, j: nat, y: nat :: Child(nodes', e, j, y) <==> Child(nodes, e, j, y);
    forall e: nat, j: nat, y: nat ensures ChildOk(nodes', e, j, y) {
      assert ChildOk(nodes, e, j, y);
    }
    forall c | 0 <= c < |nodes| ensures HasParent(nodes', c) {
      if Linked(nodes'[c]) && c != ROOTINO {
        assert HasParent(nodes, c);
        var j: nat :| Child(nodes, Up(nodes, c), j, c);
        assert Child(nodes', Up(nodes', c), j, c);
      }
    }
  }

  lemma CreateFileKeeps(t: Tree, d: nat, name: string, kind: Kind, x: nat)
    requires Inv(t) && Enabled(t, Create(d, name, kind, x)) && !Has(t.nodes, d, name) && Linked(t.nodes[d]) &&
        kind != Directory
    ensures Inv(Do(t, Create(d, name, kind, x)))
  {
    var t', n1 := Do(t, Create(d, name, kind, x)), t.nodes[x := Node(kind, 1, [])];
    NewFileShape(t.nodes, x, kind);
    AddEntryShape(n1, d, name, x);
    NotDots(t.nodes, d, name);
    assert forall y :: y != d && 0 <= y < |t.nodes| ==> t'.nodes[y] == n1[y];
    forall y | 0 < y < |t.nodes| ensures CountOk(t', y) {
      assert CountOk(t, y);
      CountAt(t.nodes, x, Node(kind, 1, []), y);
      AddEntryCount(n1, d, name, x, y);
    }
  }

  /** The directory d after mkdir has made x in it. */
  predicate Mkdir(nodes: Nodes, nodes': Nodes, d: nat, name: string, x: nat)
    requires d < |nodes| && x < |nodes|
  {
    var es := nodes[d].entries;
    nodes' == nodes[x := Node(Directory, 1, [Entry(x, "."), Entry(d, "..")])]
                   [d := Node(Directory, nodes[d].nlink + 1, Put(es, EmptySlot(es), Entry(x, name)))]
  }

  lemma MkdirShape(nodes: Nodes, nodes': Nodes, d: nat, name: string, x: nat)
    requires Shape(nodes) && IsDir(nodes, d) && Linked(nodes[d]) && !Has(nodes, d, name)
    requires 0 < x < |nodes| && nodes[x].kind == Unallocated && Mkdir(nodes, nodes', d, name, x)
    ensures Shape(nodes')
  {
    var i := EmptySlot(nodes[d].entries);
    NewSlot(nodes, d);
    NotDots(nodes, d, name);
    assert forall c :: 0 <= c < |nodes| ==> Dots(nodes, c) && (c != x && c != d ==> nodes'[c] == nodes[c]);
    assert forall c :: 0 <= c < |nodes| ==> Dots(nodes', c);
    forall e: nat, j: nat, y: nat
      ensures Child(nodes', e, j, y) <==> Child(nodes, e, j, y) || (e == d && j == i && y == x) {
    }
    forall e: nat, j: nat ensures !Child(nodes, e, j, x) {
      assert ChildOk(nodes, e, j, x);
    }
    forall e: nat, j: nat, y: nat ensures ChildOk(nodes', e, j, y) {
      assert ChildOk(nodes, e, j, y);
      assert y < |nodes| && y != x && nodes'[y].kind == Directory ==>
          nodes[y].kind == Directory && Up(nodes', y) == Up(nodes, y);
    }
    forall c | 0 <= c < |nodes| ensures HasParent(nodes', c) {
      if c == x {
        assert Child(nodes', Up(nodes', c), i, c);
      } else if Linked(nodes'[c]) && c != ROOTINO {
        assert HasParent(nodes, c);
        var j: nat :| Child(nodes, Up(nodes, c), j, c);
        assert Child(nodes', Up(nodes', c), j, c);
      }
    }
  }

  lemma DotsCount(es: seq<Entry>, x: nat, d: nat, y: nat)
    requires es == [Entry(x, "."), Entry(d, "..")]
    ensures CountIn(es, y) == if y == d then 1 else 0
  {
    assert es[..1] == [Entry(x, ".")] && [Entry(x, ".")][..0] == [];
    assert CountIn([Entry(x, ".")], y) == 0;
  }

  lemma MkdirCount(nodes: Nodes, nodes': Nodes, d: nat, name: string, x: nat, y: nat)
    requires IsDir(nodes, d) && Linked(nodes[d]) && x < |nodes| && nodes[x].kind == Unallocated && y != 0 && name != "."
    requires Mkdir(nodes, nodes', d, name, x)
    ensures Count(nodes', y) == Count(nodes, y) + (if y == x then 1 else 0) + (if y == d then 1 else 0)
  {
    var n, es := Node(Directory, 1, [Entry(x, "."), Entry(d, "..")]), nodes[d].entries;
    DotsCount(n.entries, x, d, y);
    CountAt(nodes, x, n, y);
    CountInPut(es, EmptySlot(es), Entry(x, name), y);
    CountAt(nodes[x := n], d, nodes'[d], y);
  }

  lemma MkdirKeeps(t: Tree, d: nat, name: string, x: nat)
    requires Inv(t) && Enabled(t, Create(d, name, Directory, x)) && !Has(t.nodes, d, name) && Linked(t.nodes[d])
    ensures Inv(Do(t, Create(d, name, Directory, x)))
  {
    var t' := Do(t, Create(d, name, Directory, x));
    NotDots(t.nodes, d, name);
    assert Mkdir(t.nodes, t'.nodes, d, name, x);
    MkdirShape(t.nodes, t'.nodes, d, name, x);
    assert forall y :: y != d && y != x && 0 <= y < |t.nodes| ==> t'.nodes[y] == t.nodes[y];
    assert CountOk(t, x);
    forall y | 0 < y < |t.nodes| ensures CountOk(t', y) {
      assert CountOk(t, y);
      MkdirCount(t.nodes, t'.nodes, d, name, x, y);
    }
  }

  // ---- unlink ----

  /** The entry that unlink removes is past the dots. */
  lemma VictimIsChild(nodes: Nodes, d: nat, name: string)
    requires Shape(nodes) && IsDir(nodes, d) && Linked(nodes[d]) && !UnlinkFails(nodes, d, name)
    ensures Child(nodes, d, SlotOf(nodes[d].entries, name), Victim(nodes, d, name))
    ensures ChildOk(nodes, d, SlotOf(nodes[d].entries, name), Victim(nodes, d, name))
  {
    assert Dots(nodes, d);
    assert ChildOk(nodes, d, SlotOf(nodes[d].entries, name), Victim(nodes, d, name));
  }

  /** Taking out entry i of d, which names x; a directory x must lose its links. */
  lemma BlankShape(nodes: Nodes, nodes': Nodes, d: nat, i: nat, x: nat)
    requires Shape(nodes) && Child(nodes, d, i, x) && x < |nodes| == |nodes'| && x != d
    requires nodes'[d] == nodes[d].(nlink := nodes'[d].nlink, entries := nodes[d].entries[i := Entry(0, "")])
    requires nodes'[x] == nodes[x].(nlink := nodes'[x].nlink) && Linked(nodes'[d]) && !Linked(nodes'[x])
    requires nodes[x].kind == Directory ==> Empty(nodes[x].entries)
    requires forall c :: 0 <= c < |nodes| && c != d && c != x ==> nodes'[c] == nodes[c]
    ensures Shape(nodes')
  {
    assert ChildOk(nodes, d, i, x);
    assert forall c :: 0 <= c < |nodes| ==> Dots(nodes, c);
    forall c | 0 <= c < |nodes| ensures Dots(nodes', c) {
      assert Dots(nodes, c);
    }
    forall e: nat, j: nat, y: nat
      ensures Child(nodes', e, j, y) <==> Child(nodes, e, j, y) && !(e == d && j == i) {
    }
    forall e: nat, j: nat, y: nat ensures ChildOk(nodes', e, j, y) {
      assert ChildOk(nodes, e, j, y);
      assert y < |nodes| && nodes'[y].kind == Directory ==> Up(nodes', y) == Up(nodes, y);
    }
    forall c | 0 <= c < |nodes| ensures HasParent(nodes', c) {
      if Linked(nodes'[c]) && c != ROOTINO {
        assert HasParent(nodes, c);
        var j: nat :| Child(nodes, Up(nodes, c), j, c);
        assert Child(nodes', Up(nodes', c), j, c);
      }
    }
  }

  lemma UnlinkFileKeeps(t: Tree, d: nat, name: string)
    requires Inv(t) && Enabled(t, Unlink(d, name)) && Linked(t.nodes[d]) && !UnlinkFails(t.nodes, d, name)
    requires t.nodes[Victim(t.nodes, d, name)].kind != Directory
    ensures Inv(Do(t, Unlink(d, name)))
  {
    var t', x, i := Do(t, Unlink(d, name)), Victim(t.nodes, d, name), SlotOf(t.nodes[d].entries, name);
    VictimIsChild(t.nodes, d, name);
    BlankShape(t.nodes, t'.nodes, d, i, x);
    assert forall y :: y != d && y != x && 0 <= y < |t.nodes| ==> t'.nodes[y] == t.nodes[y];
    forall y | 0 < y < |t.nodes| ensures CountOk(t', y) {
      assert CountOk(t, y);
      BlankCount(t.nodes, d, i, y);
      CountAt(Blank(t.nodes, d, i), x, t'.nodes[x], y);
    }
  }

  lemma {:induction false} EmptyCount(es: seq<Entry>, x: nat, y: nat)
    requires |es| >= 2 && es[0].name == "." && es[1].inum == x && es[1].name == ".." && Empty(es) && y != 0
    ensures CountIn(es, y) == if x == y then 1 else 0
    decreases |es|
  {
    if |es| > 2 {
      EmptyCount(es[..|es| - 1], x, y);
    } else {
      assert es[..1] == [es[0]] && [es[0]][..0] == [];
      assert CountIn([es[0]], y) == 0;
    }
  }

  /** A directory that holds another one has two links at least: that one's "..", and the entry
      in its own parent or, for the root, its own "..". */
  lemma HoldsDirectory(t: Tree, d: nat, i: nat, x: nat)
    requires Inv(t) && Child(t.nodes, d, i, x) && x < |t.nodes| && Linked(t.nodes[x]) && Empty(t.nodes[x].entries)
    ensures t.nodes[d].nlink >= 2
  {
    var nodes := t.nodes;
    assert ChildOk(nodes, d, i, x) && Dots(nodes, x) && Dots(nodes, d) && CountOk(t, d) && HasParent(nodes, d);
    assert NamedBy(nodes, x, 1, d);
    if d == ROOTINO {
      CountTwo(nodes, x, 1, d, 1, d);
    } else {
      var j: nat :| Child(nodes, Up(nodes, d), j, d);
      assert ChildOk(nodes, Up(nodes, d), j, d);
      CountTwo(nodes, x, 1, Up(nodes, d), j, d);
    }
  }

  lemma RmdirCount(nodes: Nodes, nodes': Nodes, d: nat, i: nat, x: nat, y: nat)
    requires Child(nodes, d, i, x) && x < |nodes| && x != d && y != 0 && nodes[d].entries[i].name != "."
    requires Linked(nodes[x]) && Dots(nodes, x) && nodes[x].entries[1].inum == d && Empty(nodes[x].entries)
    requires nodes[d].nlink >= 2 && nodes[x].nlink == 1
    requires nodes' == AddLinks(AddLinks(Blank(nodes, d, i), d, -1), x, -1)
    ensures Count(nodes', y) == Count(nodes, y) - (if y == x then 1 else 0) - (if y == d then 1 else 0)
  {
    var n1 := Blank(nodes, d, i);
    var n2 := AddLinks(n1, d, -1);
    BlankCount(nodes, d, i, y);
    CountAt(n1, d, n2[d], y);
    EmptyCount(nodes[x].entries, d, y);
    CountAt(n2, x, nodes'[x], y);
  }

  lemma RmdirKeeps(t: Tree, d: nat, name: string)
    requires Inv(t) && Enabled(t, Unlink(d, name)) && Linked(t.nodes[d]) && !UnlinkFails(t.nodes, d, name)
    requires t.nodes[Victim(t.nodes, d, name)].kind == Directory
    ensures Inv(Do(t, Unlink(d, name)))
  {
    var t', x, i := Do(t, Unlink(d, name)), Victim(t.nodes, d, name), SlotOf(t.nodes[d].entries, name);
    VictimIsChild(t.nodes, d, name);
    assert Dots(t.nodes, x);
    EmptyDirectory(t, d, i, x);
    HoldsDirectory(t, d, i, x);
    BlankShape(t.nodes, t'.nodes, d, i, x);
    assert forall y :: y != d && y != x && 0 <= y < |t.nodes| ==> t'.nodes[y] == t.nodes[y];
    forall y | 0 < y < |t.nodes| ensures CountOk(t', y) {
      assert CountOk(t, y);
      RmdirCount(t.nodes, t'.nodes, d, i, x, y);
    }
  }

  // ---- The last reference to an inode without links ----

  lemma FreeKeeps(t: Tree, x: nat)
    requires Inv(t) && Enabled(t, Free(x))
    ensures Inv(Do(t, Free(x)))
  {
    var t' := Do(t, Free(x));
    var nodes, nodes' := t.nodes, t'.nodes;
    assert CountOk(t, x);
    CountNone(nodes, x);
    assert forall c :: 0 <= c < |nodes| ==> Dots(nodes, c);
    forall c | 0 <= c < |nodes| ensures Dots(nodes', c) {
      assert Dots(nodes, c);
    }
    forall e: nat, j: nat, y: nat ensures Child(nodes', e, j, y) <==> Child(nodes, e, j, y) {
    }
    forall e: nat, j: nat, y: nat ensures ChildOk(nodes', e, j, y) {
      assert ChildOk(nodes, e, j, y);
      assert ChildOk(nodes, e, j, x);
      assert Child(nodes, e, j, x) ==> NamedBy(nodes, e, j, x);
    }
    forall c | 0 <= c < |nodes| ensures HasParent(nodes', c) {
      if Linked(nodes'[c]) && c != ROOTINO {
        assert HasParent(nodes, c);
        var j: nat :| Child(nodes, Up(nodes, c), j, c);
        assert Child(nodes', Up(nodes', c), j, c);
      }
    }
    forall y | 0 < y < |nodes| ensures CountOk(t', y) {
      assert CountOk(t, y);
      CountAt(nodes, x, FREE, y);
    }
  }

  // ---- Every step, every run ----

  /** The directory that a step works in is still linked. */
  predicate InLinked(t: Tree, step: Step)
    requires Enabled(t, step)
  {
    match step
    case LinkEnd(_, dir, _) => dir.Some? ==> Linked(t.nodes[dir.value])
    case Unlink(d, _) => Linked(t.nodes[d])
    case Create(d, _, _, _) => Linked(t.nodes[d])
    case _ => true
  }

  lemma StepKeeps(t: Tree, step: Step)
    requires Inv(t) && Enabled(t, step) && InLinked(t, step)
    ensures Inv(Do(t, step))
  {
    match step
    case LinkBegin(x) =>
      if t.nodes[x].kind != Directory {
        AddLinksKeeps(t, x, 1, t.pending + multiset{x});
      }
    case LinkEnd(x, dir, name) => LinkEndKeeps(t, x, dir, name);
    case Unlink(d, name) =>
      if !UnlinkFails(t.nodes, d, name) {
        if t.nodes[Victim(t.nodes, d, name)].kind == Directory {
          RmdirKeeps(t, d, name);
        } else {
          UnlinkFileKeeps(t, d, name);
        }
      }
    case Create(d, name, kind, x) =>
      if !Has(t.nodes, d, name) {
        if kind == Directory {
          MkdirKeeps(t, d, name, x);
        } else {
          CreateFileKeeps(t, d, name, kind, x);
        }
      }
    case Free(x) => FreeKeeps(t, x);
  }

  // ---- Every linked directory is below the root ----

  /** Going up n times from c, through linked directories, leads to the root. */
  predicate Climbs(nodes: Nodes, c: nat, n: nat)
    decreases n
  {
    && c < |nodes| && Linked(nodes[c]) && |nodes[c].entries| >= 2
    && if n == 0 then c == ROOTINO else c != ROOTINO && Climbs(nodes, nodes[c].entries[1].inum, n - 1)
  }

  ghost predicate Rooted(nodes: Nodes) {
    forall c :: 0 <= c < |nodes| && Linked(nodes[c]) ==> exists n: nat :: Climbs(nodes, c, n)
  }

  /** The linked directories of nodes' other than x are linked in nodes, under the same parents. */
  ghost predicate Under(nodes: Nodes, nodes': Nodes, x: nat) {
    && |nodes'| == |nodes| && (x < |nodes| ==> !Linked(nodes[x]))
    && forall c :: 0 <= c < |nodes| && Linked(nodes'[c]) && c != x ==>
         && Linked(nodes[c]) && |nodes[c].entries| >= 2 && |nodes'[c].entries| >= 2
         && nodes'[c].entries[1] == nodes[c].entries[1]
  }

  lemma {:induction false} ClimbsStill(nodes: Nodes, nodes': Nodes, x: nat, c: nat, n: nat)
    requires Shape(nodes') && Under(nodes, nodes', x)
    requires c < |nodes'| && Linked(nodes'[c]) && c != x && Climbs(nodes, c, n)
    ensures Climbs(nodes', c, n)
    decreases n
  {
    if n > 0 {
      assert Dots(nodes', c) && HasParent(nodes', c);
      ClimbsStill(nodes, nodes', x, nodes[c].entries[1].inum, n - 1);
    }
  }

  /** With at most one new linked directory x, all is still below the root. */
  lemma RootedKeeps(nodes: Nodes, nodes': Nodes, x: nat)
    requires Rooted(nodes) && Shape(nodes') && Under(nodes, nodes', x)
    requires x < |nodes'| && Linked(nodes'[x]) ==> Up(nodes', x) != x
    ensures Rooted(nodes')
  {
    forall c | 0 <= c < |nodes'| && Linked(nodes'[c]) ensures exists n: nat :: Climbs(nodes', c, n) {
      assert Dots(nodes', c) && HasParent(nodes', c);
      var b := if c == x then Up(nodes', x) else c;
      var n: nat :| Climbs(nodes, b, n);
      ClimbsStill(nodes, nodes', x, b, n);
      assert c == x ==> Climbs(nodes', c, n + 1);
    }
  }

  lemma CreateRooted(t: Tree, d: nat, name: string, kind: Kind, x: nat)
    requires Inv(t) && Rooted(t.nodes) && Enabled(t, Create(d, name, kind, x)) && Linked(t.nodes[d])
    requires !Has(t.nodes, d, name) && Inv(Do(t, Create(d, name, kind, x)))
    ensures Rooted(Do(t, Create(d, name, kind, x)).nodes)
  {
    var nodes, nodes' := t.nodes, Do(t, Create(d, name, kind, x)).nodes;
    NewSlot(nodes, d);
    forall c | 0 <= c < |nodes| && c != x && Linked(nodes'[c])
      ensures Linked(nodes[c]) && |nodes[c].entries| >= 2 && nodes'[c].entries[1] == nodes[c].entries[1] {
      assert Dots(nodes, c);
    }
    assert Dots(nodes', x);
    RootedKeeps(nodes, nodes', x);
  }

  lemma LinkRooted(t: Tree, x: nat, d: nat, name: string)
    requires Inv(t) && Rooted(t.nodes) && Enabled(t, LinkEnd(x, Some(d), name)) && Linked(t.nodes[d])
    requires !Has(t.nodes, d, name) && Inv(Do(t, LinkEnd(x, Some(d), name)))
    ensures Rooted(Do(t, LinkEnd(x, Some(d), name)).nodes)
  {
    var nodes, nodes' := t.nodes, Do(t, LinkEnd(x, Some(d), name)).nodes;
    NewSlot(nodes, d);
    forall c | 0 <= c < |nodes| && Linked(nodes'[c])
      ensures Linked(nodes[c]) && |nodes[c].entries| >= 2 && nodes'[c].entries[1] == nodes[c].entries[1] {
      assert Dots(nodes, c);
    }
    RootedKeeps(nodes, nodes', |nodes|);
  }

  lemma UnlinkRooted(t: Tree, d: nat, name: string)
    requires Inv(t) && Rooted(t.nodes) && Enabled(t, Unlink(d, name)) && Linked(t.nodes[d])
    requires !UnlinkFails(t.nodes, d, name) && Inv(Do(t, Unlink(d, name)))
    ensures Rooted(Do(t, Unlink(d, name)).nodes)
  {
    var nodes, nodes' := t.nodes, Do(t, Unlink(d, name)).nodes;
    VictimIsChild(nodes, d, name);
    forall c | 0 <= c < |nodes| && Linked(nodes'[c])
      ensures Linked(nodes[c]) && |nodes[c].entries| >= 2 && nodes'[c].entries[1] == nodes[c].entries[1] {
      assert Dots(nodes, c);
    }
    RootedKeeps(nodes, nodes', |nodes|);
  }

  /** Steps that change no directory that is linked afterwards. */
  lemma QuietRooted(nodes: Nodes, nodes': Nodes)
    requires Shape(nodes) && Rooted(nodes) && Shape(nodes') && |nodes'| == |nodes|
    requires forall c :: 0 <= c < |nodes| && Linked(nodes'[c]) ==> nodes'[c] == nodes[c]
    ensures Rooted(nodes')
  {
    forall c | 0 <= c < |nodes| && Linked(nodes'[c]) ensures |nodes[c].entries| >= 2 {
      assert Dots(nodes, c);
    }
    RootedKeeps(nodes, nodes', |nodes|);
  }

  lemma StepRooted(t: Tree, step: Step)
    requires Inv(t) && Rooted(t.nodes) && Enabled(t, step) && InLinked(t, step) && Inv(Do(t, step))
    ensures Rooted(Do(t, step).nodes)
  {
    match step
    case Create(d, name, kind, x) =>
      if !Has(t.nodes, d, name) {
        CreateRooted(t, d, name, kind, x);
      }
    case LinkEnd(x, dir, name) =>
      if dir.Some? && !Has(t.nodes, dir.value, name) {
        LinkRooted(t, x, dir.value, name);
      } else {
        QuietRooted(t.nodes, Do(t, step).nodes);
      }
    case Unlink(d, name) =>
      if !UnlinkFails(t.nodes, d, name) {
        UnlinkRooted(t, d, name);
      }
    case _ => QuietRooted(t.nodes, Do(t, step).nodes);
  }

  predicate LegalLinked(t: Tree, steps: seq<Step>)
    decreases |steps|
  {
    steps == [] || (Enabled(t, steps[0]) && InLinked(t, steps[0]) && LegalLinked(Do(t, steps[0]), steps[1..]))
  }

  lemma {:induction false} RunKeeps(t: Tree, steps: seq<Step>)
    requires Inv(t) && Rooted(t.nodes) && LegalLinked(t, steps)
    ensures Legal(t, steps) && Inv(Run(t, steps)) && Rooted(Run(t, steps).nodes)
    decreases |steps|
  {
    if steps != [] {
      StepKeeps(t, steps[0]);
      StepRooted(t, steps[0]);
      RunKeeps(Do(t, steps[0]), steps[1..]);
    }
  }

  /** A new file system: the root directory alone. */
  function Fresh(n: nat): (t: Tree)
    requires n >= 2
  {
    Tree(seq<Node>(n, i requires 0 <= i < n =>
      if i == ROOTINO then Node(Directory, 1, [Entry(ROOTINO, "."), Entry(ROOTINO, "..")]) else FREE), multiset{})
  }

  lemma FreshKeeps(n: nat)
    requires n >= 2
    ensures Inv(Fresh(n)) && Rooted(Fresh(n).nodes)
  {
    var t := Fresh(n);
    var nodes := t.nodes;
    assert Climbs(nodes, ROOTINO, 0);
    assert forall d :: 0 <= d < n ==> Dots(nodes, d);
    assert forall d: nat, j: nat, x: nat :: !Child(nodes, d, j, x);
    forall x | 0 < x < n ensures CountOk(t, x) {
      FreshCount(nodes, x);
    }
  }

  lemma FreshCount(nodes: Nodes, x: nat)
    requires |nodes| >= 2 && nodes == Fresh(|nodes|).nodes && 0 < x < |nodes|
    ensures Count(nodes, x) == if x == ROOTINO then 1 else 0
  {
    forall d: nat, j: nat ensures NamedBy(nodes, d, j, x) <==> d == ROOTINO && j == 1 && x == ROOTINO {
    }
    if x == ROOTINO {
      CountOne(nodes, ROOTINO, 1, x);
    } else {
      CountNone(nodes, x);
    }
  }

  /** In every run that works in linked directories, the link count of every inode is the number of
      entries that name it in linked directories, "." left out, plus the links under way. */
  lemma LinkCounts(n: nat, steps: seq<Step>, x: nat)
    requires n >= 2 && LegalLinked(Fresh(n), steps) && 0 < x < n
    ensures Legal(Fresh(n), steps)
    ensures var t := Run(Fresh(n), steps);
      |t.nodes| == n && (t.nodes[x].kind != Unallocated ==> t.nodes[x].nlink == Count(t.nodes, x) + t.pending[x])
  {
    FreshKeeps(n);
    RunKeeps(Fresh(n), steps);
    SizeKept(Fresh(n), steps);
    assert CountOk(Run(Fresh(n), steps), x);
  }

  lemma {:induction false} SizeKept(t: Tree, steps: seq<Step>)
    requires Legal(t, steps)
    ensures |Run(t, steps).nodes| == |t.nodes|
    decreases |steps|
  {
    if steps != [] {
      SizeKept(Do(t, steps[0]), steps[1..]);
    }
  }

  lemma {:induction false} NotItsOwnParent(nodes: Nodes, d: nat, n: nat)
    requires Climbs(nodes, d, n) && d != ROOTINO
    ensures nodes[d].entries[1].inum != d
  {
    if n > 0 && nodes[d].entries[1].inum == d {
      NotItsOwnParent(nodes, d, n - 1);
    }
  }

  /** In a linked directory unlink never panics and never waits for itself. */
  lemma UnlinkGoesOn(t: Tree, d: nat, name: string)
    requires Inv(t) && Rooted(t.nodes) && IsDir(t.nodes, d) && Linked(t.nodes[d])
    ensures Enabled(t, Unlink(d, name))
  {
    if UnlinkStops(t.nodes, d, name) {
      assert Dots(t.nodes, d);
      var x, i := Victim(t.nodes, d, name), SlotOf(t.nodes[d].entries, name);
      assert Child(t.nodes, d, i, x) && ChildOk(t.nodes, d, i, x) && CountOk(t, x);
      if d != ROOTINO {
        var n: nat :| Climbs(t.nodes, d, n);
        NotItsOwnParent(t.nodes, d, n);
      }
      NamedCounts(t.nodes, d, i, x);
    }
  }

  /** A link that fails leaves everything as it was. */
  lemma FailedLink(t: Tree, x: nat, dir: Option<nat>, name: string)
    requires x < |t.nodes| && t.nodes[x].kind != Unallocated && t.nodes[x].kind != Directory
    requires dir.Some? ==> IsDir(t.nodes, dir.value) && Has(t.nodes, dir.value, name)
    ensures Enabled(t, LinkBegin(x)) && Enabled(Do(t, LinkBegin(x)), LinkEnd(x, dir, name))
    ensures Do(Do(t, LinkBegin(x)), LinkEnd(x, dir, name)) == t
  {
    var t1 := Do(t, LinkBegin(x));
    assert dir.Some? ==> t1.nodes[dir.value] == t.nodes[dir.value];
    assert Do(t1, LinkEnd(x, dir, name)).nodes == t.nodes;
    assert t.pending + multiset{x} - multiset{x} == t.pending;
  }

  // ---- Directories that are no longer linked ----

  /** The directory in which a step makes an entry, if it makes one. */
  function Target(t: Tree, step: Step): (d: Option<nat>)
    requires Enabled(t, step)
  {
    match step
    case LinkEnd(_, dir, name) => if dir.None? || Has(t.nodes, dir.value, name) then None else dir
    case Create(d, name, _, _) => if Has(t.nodes, d, name) then None else Some(d)
    case _ => None
  }

  lemma UnlinkedLink(t: Tree, x: nat, d: nat, name: string)
    requires Inv(t) && Enabled(t, LinkEnd(x, Some(d), name)) && !Has(t.nodes, d, name) && !Linked(t.nodes[d])
    ensures !Counts(Do(t, LinkEnd(x, Some(d), name)))
  {
    var t' := Do(t, LinkEnd(x, Some(d), name));
    assert CountOk(t, x);
    CountAt(t.nodes, d, t'.nodes[d], x);
    assert !CountOk(t', x);
  }

  lemma UnlinkedFile(t: Tree, d: nat, name: string, kind: Kind, x: nat)
    requires Inv(t) && Enabled(t, Create(d, name, kind, x)) && !Has(t.nodes, d, name) && !Linked(t.nodes[d]) &&
        kind != Directory
    ensures !Counts(Do(t, Create(d, name, kind, x)))
  {
    var t', n := Do(t, Create(d, name, kind, x)), Node(kind, 1, []);
    assert CountOk(t, x);
    CountAt(t.nodes, x, n, x);
    CountAt(t.nodes[x := n], d, t'.nodes[d], x);
    assert !CountOk(t', x);
  }

  lemma UnlinkedMkdir(t: Tree, d: nat, name: string, x: nat)
    requires Inv(t) && Enabled(t, Create(d, name, Directory, x)) && !Has(t.nodes, d, name) && !Linked(t.nodes[d])
    ensures !Counts(Do(t, Create(d, name, Directory, x)))
  {
    var t', nodes, es := Do(t, Create(d, name, Directory, x)), t.nodes, t.nodes[d].entries;
    assert Dots(nodes, d) && CountOk(t, d);
    var p, n := Up(nodes, d), Node(Directory, 1, [Entry(x, "."), Entry(d, "..")]);
    assert CountOk(t, p) && CountOk(t, x);
    EmptyCount(es, p, p);
    CountInPut(es, EmptySlot(es), Entry(x, name), p);
    NotDots(nodes, d, name);
    DotsCount(n.entries, x, d, p);
    CountAt(nodes, x, n, p);
    assert t'.nodes == nodes[x := n][d := t'.nodes[d]];
    CountAt(nodes[x := n], d, t'.nodes[d], p);
    assert !CountOk(t', p);
  }

  /** A step keeps the counts right if and only if the directory in which it makes an entry is linked. */
  lemma KeepsIff(t: Tree, step: Step)
    requires Inv(t) && Enabled(t, step)
    ensures Counts(Do(t, step)) <==> (Target(t, step).Some? ==> Linked(t.nodes[Target(t, step).value]))
  {
    if Target(t, step).Some? && !Linked(t.nodes[Target(t, step).value]) {
      match step
      case LinkEnd(x, dir, name) => UnlinkedLink(t, x, dir.value, name);
      case Create(d, name, kind, x) => if kind == Directory { UnlinkedMkdir(t, d, name, x); }
          else { UnlinkedFile(t, d, name, kind, x); }
    } else {
      match step
      case LinkEnd(x, dir, name) =>
        if Target(t, step).None? { AddLinksKeeps(t, x, -1, t.pending - multiset{x}); }
            else { LinkEndKeeps(t, x, dir, name); }
      case Unlink(d, name) => if Linked(t.nodes[d]) { StepKeeps(t, step); } else { assert Dots(t.nodes, d); }
      case Create(d, name, kind, x) => if Target(t, step).Some? { StepKeeps(t, step); }
      case _ => StepKeeps(t, step);
    }
  }

  /** In every run on linked directories each linked directory lies below the root, each entry past the
      dots names an allocated inode with links, and a directory is named by its parent alone. */
  lemma TreeKept(n: nat, steps: seq<Step>, d: nat)
    requires n >= 2 && LegalLinked(Fresh(n), steps) && d < n
    ensures Legal(Fresh(n), steps)
    ensures var nodes := Run(Fresh(n), steps).nodes;
      && |nodes| == n && (Linked(nodes[d]) ==> exists k: nat :: Climbs(nodes, d, k))
      && (forall j: nat, x: nat :: Child(nodes, d, j, x) ==>
           x < n && nodes[x].kind != Unallocated && nodes[x].nlink > 0)
      && (forall e: nat, j: nat, k: nat, x: nat ::
           Child(nodes, d, j, x) && Child(nodes, e, k, x) && nodes[x].kind == Directory ==> d == e && j == k)
  {
    FreshKeeps(n);
    RunKeeps(Fresh(n), steps);
    SizeKept(Fresh(n), steps);
    var t := Run(Fresh(n), steps);
    forall j: nat, x: nat | Child(t.nodes, d, j, x)
      ensures x < n && t.nodes[x].kind != Unallocated && t.nodes[x].nlink > 0 {
      assert ChildOk(t.nodes, d, j, x) && CountOk(t, x);
      NamedCounts(t.nodes, d, j, x);
    }
    forall e: nat, j: nat, k: nat, x: nat
      | Child(t.nodes, d, j, x) && Child(t.nodes, e, k, x) && t.nodes[x].kind == Directory
      ensures d == e && j == k {
      assert ChildOk(t.nodes, d, j, x) && ChildOk(t.nodes, e, k, x);
    }
  }

  const DOTS1 := [Entry(1, "."), Entry(1, "..")]
  const DOTS2 := [Entry(2, "."), Entry(1, "..")]
  const MADE := [FREE, Node(Directory, 2, DOTS1 + [Entry(2, "a")]), Node(Directory, 1, DOTS2), FREE]
  const GONE := [FREE, Node(Directory, 1, DOTS1 + [Entry(0, "")]), Node(Directory, 0, DOTS2), FREE]

  lemma NoSuchName(es: seq<Entry>, c: char)
    requires es == DOTS1 || es == DOTS2
    requires c != '.'
    ensures SlotOf(es, [c]) == 2 && EmptySlot(es) == 2
  {
    assert "."[0] != [c][0] && |".."| != |[c]|;
    assert es[0].name != [c] && es[1].name != [c];
  }

  lemma MakesDirectory()
    ensures var step := Create(1, "a", Directory, 2);
      Enabled(Fresh(4), step) && Do(Fresh(4), step) == Tree(MADE, multiset{})
  {
    NoSuchName(DOTS1, 'a');
    assert Fresh(4).nodes[1].entries == DOTS1;
    assert Do(Fresh(4), Create(1, "a", Directory, 2)).nodes == MADE;
  }

  lemma RemovesDirectory()
    ensures var t := Tree(MADE, multiset{});
      Enabled(t, Unlink(1, "a")) && Do(t, Unlink(1, "a")) == Tree(GONE, multiset{})
  {
    var es := MADE[1].entries;
    assert "."[0] != "a"[0] && |".."| != |"a"|;
    assert es[0].name != "a" && es[1].name != "a" && es[2] == Entry(2, "a");
    assert SlotOf(es, "a") == 2;
    assert Removed(MADE, 1, "a")[1].entries == DOTS1 + [Entry(0, "")];
    assert Removed(MADE, 1, "a") == GONE;
  }

  lemma MakesFile()
    ensures var t, step := Tree(GONE, multiset{}), Create(2, "b", Regular, 3);
      Enabled(t, step) && var nodes := Do(t, step).nodes; nodes[3].nlink == 1 && Count(nodes, 3) == 0
  {
    NoSuchName(DOTS2, 'b');
    var nodes := Do(Tree(GONE, multiset{}), Create(2, "b", Regular, 3)).nodes;
    assert nodes[3] == Node(Regular, 1, []) && nodes[1] == GONE[1] && !Linked(nodes[2]);
    forall d: nat, j: nat ensures !NamedBy(nodes, d, j, 3) {
    }
    CountNone(nodes, 3);
  }

  /** A directory is made and removed; a process that still works in it makes a file there. */
  lemma UnlinkedParent()
    ensures var steps := [Create(1, "a", Directory, 2), Unlink(1, "a"), Create(2, "b", Regular, 3)];
      Legal(Fresh(4), steps) && var nodes := Run(Fresh(4), steps).nodes; nodes[3].nlink == 1 && Count(nodes, 3) == 0
  {
    var s1, s2, s3 := Create(1, "a", Directory, 2), Unlink(1, "a"), Create(2, "b", Regular, 3);
    MakesDirectory();
    RemovesDirectory();
    MakesFile();
    assert [s1, s2, s3][1..] == [s2, s3] && [s2, s3][1..] == [s3] && [s3][1..] == [];
    assert Legal(Tree(GONE, multiset{}), [s3]) && Legal(Tree(MADE, multiset{}), [s2, s3]);
  }
}
