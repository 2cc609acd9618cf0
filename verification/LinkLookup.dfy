/** Path lookup on the inodes that the link operations leave behind. */
module LinkLookup {
  import opened Options
  import opened Directories
  import Links
  import LinkSafety
  import opened Icache

  /** The inodes of the root device. */
  function StoreOf(nodes: Links.Nodes): (fs: Store) {
    map i: nat | i < |nodes| :: Key(ROOT.dev, i) := nodes[i]
  }

  /** An inode that lookup can stay in: allocated and with links. */
  predicate Sound(nodes: Links.Nodes, x: nat) {
    x < |nodes| && nodes[x].kind != Unallocated && nodes[x].nlink > 0
  }

  /** Where counts and tree are right, entries of inodes with links name inodes with links. */
  lemma EnterSound(t: Links.Tree, d: nat, name: string)
    requires LinkSafety.Inv(t) && Sound(t.nodes, d)
    ensures var o := Enter(StoreOf(t.nodes), Some(Key(ROOT.dev, d)), name);
      o.Some? ==> o.value.dev == ROOT.dev && Sound(t.nodes, o.value.inum)
  {
    var nodes, es := t.nodes, t.nodes[d].entries;
    var j := SlotOf(es, name);
    if nodes[d].kind == Directory && j < |es| {
      assert LinkSafety.Dots(nodes, d) && LinkSafety.HasParent(nodes, d);
      if j >= 2 {
        var x := es[j].inum;
        assert LinkSafety.Child(nodes, d, j, x) && LinkSafety.ChildOk(nodes, d, j, x) && LinkSafety.CountOk(t, x);
        LinkSafety.NamedCounts(nodes, d, j, x);
      }
    }
  }

  lemma {:induction false} TrailSound(t: Links.Tree, d: nat, names: seq<string>, parent: bool)
    requires LinkSafety.Inv(t) && Sound(t.nodes, d)
    ensures forall x :: x in Trail(StoreOf(t.nodes), Key(ROOT.dev, d), names, parent) ==>
        x.dev == ROOT.dev && Sound(t.nodes, x.inum)
    decreases |names|
  {
    if names != [] {
      var fs, k := StoreOf(t.nodes), Key(ROOT.dev, d);
      var o := Enter(fs, Some(k), names[0]);
      EnterSound(t, d, names[0]);
      if o.Some? && !(parent && |names| == 1) {
        TrailSound(t, o.value.inum, names[1..], parent);
        assert Trail(fs, k, names, parent) == [k] + Trail(fs, o.value, names[1..], parent);
      } else {
        assert Trail(fs, k, names, parent) == [k];
      }
    }
  }

  /** After every run on linked directories, a lookup that starts at an inode with links changes no inode, never
      fails for want of a type, and finds the target of the path. */
  lemma LookupInTree(n: nat, steps: seq<Links.Step>, t: seq<Slot>, d: nat, names: seq<string>, parent: bool)
    requires n >= 2 && LinkSafety.LegalLinked(LinkSafety.Fresh(n), steps)
    ensures Links.Legal(LinkSafety.Fresh(n), steps)
    ensures var nodes := Links.Run(LinkSafety.Fresh(n), steps).nodes;
      Sound(nodes, d) ==>
        var fs, o := StoreOf(nodes), Target(StoreOf(nodes), Key(ROOT.dev, d), names, parent);
        Walk(fs, t, Key(ROOT.dev, d), names, parent) == Walked(fs, if o.None? then Nothing else Inode(o.value))
  {
    LinkSafety.FreshKeeps(n);
    LinkSafety.RunKeeps(LinkSafety.Fresh(n), steps);
    var tree := Links.Run(LinkSafety.Fresh(n), steps);
    if Sound(tree.nodes, d) {
      TrailSound(tree, d, names, parent);
      WalkMeans(StoreOf(tree.nodes), t, Key(ROOT.dev, d), names, parent);
    }
  }

  // ---- A directory whose parent is gone ----

  /** The step leads from one tree to the other, in a linked directory. */
  predicate Leads(nodes: Links.Nodes, step: Links.Step, next: Links.Nodes) {
    var t := Links.Tree(nodes, multiset{});
    Links.Enabled(t, step) && LinkSafety.InLinked(t, step) && Links.Do(t, step) == Links.Tree(next, multiset{})
  }

  const DOTS3 := [Entry(3, "."), Entry(2, "..")]
  const INNER := [FREE, LinkSafety.MADE[1], Node(Directory, 2, LinkSafety.DOTS2 + [Entry(3, "b")]),
      Node(Directory, 1, DOTS3)]
  const ALONE := [FREE, LinkSafety.MADE[1], Node(Directory, 1, LinkSafety.DOTS2 + [Entry(0, "")]),
      Node(Directory, 0, DOTS3)]
  const LEFT := [FREE, LinkSafety.GONE[1], Node(Directory, 0, LinkSafety.DOTS2 + [Entry(0, "")]),
      Node(Directory, 0, DOTS3)]

  lemma MakesOuter()
    ensures Leads(LinkSafety.Fresh(4).nodes, Links.Create(1, "a", Directory, 2), LinkSafety.MADE)
  {
    LinkSafety.MakesDirectory();
  }

  lemma FreesOuter()
    ensures Leads(LEFT, Links.Free(2), LEFT[2 := FREE])
  {
  }

  lemma MakesInner()
    ensures Leads(LinkSafety.MADE, Links.Create(2, "b", Directory, 3), INNER)
  {
    LinkSafety.NoSuchName(LinkSafety.DOTS2, 'b');
    assert Links.Do(Links.Tree(LinkSafety.MADE, multiset{}), Links.Create(2, "b", Directory, 3)).nodes == INNER;
  }

  /** The name of the third entry is not that of a dot. */
  lemma Third(es: seq<Entry>, c: char, x: nat)
    requires |es| == 3 && es[0].name == "." && es[1].name == ".." && es[2] == Entry(x, [c]) && x != 0 && c != '.'
    ensures SlotOf(es, [c]) == 2
  {
    assert "."[0] != [c][0] && |".."| != |[c]|;
    assert es[0].name != [c] && es[1].name != [c];
  }

  lemma RemovesInner()
    ensures Leads(INNER, Links.Unlink(2, "b"), ALONE)
  {
    Third(INNER[2].entries, 'b', 3);
    assert "b" != "." && "b" != "..";
    assert Links.Removed(INNER, 2, "b")[2].entries == LinkSafety.DOTS2 + [Entry(0, "")];
    assert Links.Removed(INNER, 2, "b") == ALONE;
  }

  lemma RemovesOuter()
    ensures Leads(ALONE, Links.Unlink(1, "a"), LEFT)
  {
    Third(ALONE[1].entries, 'a', 2);
    assert "a" != "." && "a" != "..";
    assert Links.Removed(ALONE, 1, "a")[1].entries == LinkSafety.DOTS1 + [Entry(0, "")];
    assert Links.Removed(ALONE, 1, "a") == LEFT;
  }

  /** mkdir a, mkdir a/b, and both are removed while a process works in a/b. Then a is freed, but b still has
      ".." for it: a lookup of "../x" comes to an inode without a type. */
  lemma RemovedParent(t: seq<Slot>)
    ensures var steps := [
        Links.Create(1, "a", Directory, 2), Links.Create(2, "b", Directory, 3),
        Links.Unlink(2, "b"), Links.Unlink(1, "a"), Links.Free(2)];
      && LinkSafety.LegalLinked(LinkSafety.Fresh(4), steps) && Links.Legal(LinkSafety.Fresh(4), steps)
      && Walk(StoreOf(Links.Run(LinkSafety.Fresh(4), steps).nodes), t, Key(ROOT.dev, 3), ["..", "x"],
           false).out == Untyped
  {
    var s1, s2 := Links.Create(1, "a", Directory, 2), Links.Create(2, "b", Directory, 3);
    var s3, s4, s5 := Links.Unlink(2, "b"), Links.Unlink(1, "a"), Links.Free(2);
    var all := [s1, s2, s3, s4, s5];
    MakesOuter();
    MakesInner();
    RemovesInner();
    RemovesOuter();
    FreesOuter();
    Then(LEFT, s5, LEFT[2 := FREE], []);
    Then(ALONE, s4, LEFT, [s5]);
    Then(INNER, s3, ALONE, [s4] + [s5]);
    Then(LinkSafety.MADE, s2, INNER, [s3] + ([s4] + [s5]));
    Then(LinkSafety.Fresh(4).nodes, s1, LinkSafety.MADE, [s2] + ([s3] + ([s4] + [s5])));
    assert all == [s1] + ([s2] + ([s3] + ([s4] + [s5])));
    LostInner(LEFT[2 := FREE], t);
  }

  /** One step more at the front of a run. */
  lemma Then(nodes: Links.Nodes, step: Links.Step, next: Links.Nodes, rest: seq<Links.Step>)
    requires Leads(nodes, step, next)
    requires LinkSafety.LegalLinked(Links.Tree(next, multiset{}), rest) &&
        Links.Legal(Links.Tree(next, multiset{}), rest)
    ensures var t := Links.Tree(nodes, multiset{});
      && LinkSafety.LegalLinked(t, [step] + rest) && Links.Legal(t, [step] + rest)
      && Links.Run(t, [step] + rest) == Links.Run(Links.Tree(next, multiset{}), rest)
  {
    assert ([step] + rest)[1..] == rest;
  }

  lemma LostInner(nodes: Links.Nodes, t: seq<Slot>)
    requires nodes == LEFT[2 := FREE]
    ensures Walk(StoreOf(nodes), t, Key(ROOT.dev, 3), ["..", "x"], false).out == Untyped
  {
    var fs, k, p := StoreOf(nodes), Key(ROOT.dev, 3), Key(ROOT.dev, 2);
    assert At(fs, k) == Node(Directory, 0, DOTS3) && At(fs, p) == FREE;
    assert DOTS3[0].name != "..";
    assert SlotOf(DOTS3, "..") == 1;
    assert ["..", "x"][1..] == ["x"];
    assert Enter(fs, Some(k), "..") == Some(p);
    assert At(Left(fs, t, k), p) == FREE;
    assert Walk(Left(fs, t, k), t, p, ["x"], false).out == Untyped;
  }
}
