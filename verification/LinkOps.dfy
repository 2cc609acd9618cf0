/** The loops of fs.c and sysfile.c over directory entries and inodes, shown to take the steps of Links. */
module LinkOps {
  import opened Options
  import opened Directories
  import opened Links

  /** Entry i is the first one in use with that name. */
  ghost predicate FirstNamed(es: seq<Entry>, name: string, i: nat) {
    && i < |es| && es[i].inum != 0 && es[i].name == name
    && forall j :: 0 <= j < i ==> es[j].inum == 0 || es[j].name != name
  }

  /** No entry in use has that name. */
  ghost predicate Nameless(es: seq<Entry>, name: string) {
    forall j :: 0 <= j < |es| && es[j].inum != 0 ==> es[j].name != name
  }

  /** es' gives what es gives for every name but one. */
  ghost predicate OtherNames(es: seq<Entry>, es': seq<Entry>, name: string) {
    forall other :: other != name ==> Find(es', other) == Find(es, other)
  }

  /** A new entry in a free place is found, and all others are as before. */
  lemma FindAfterPut(es: seq<Entry>, name: string, x: nat)
    requires Nameless(es, name)
    ensures var es' := Put(es, EmptySlot(es), Entry(x, name));
      OtherNames(es, es', name) && (x != 0 ==> Find(es', name) == Some(x))
  {
    var i := EmptySlot(es);
    var es' := Put(es, i, Entry(x, name));
    forall other | other != name ensures Find(es', other) == Find(es, other) {
      SameFirst(es, es', i, other);
    }
    if x != 0 {
      assert es'[i] == Entry(x, name) && SlotOf(es', name) == i;
    }
  }

  /** Changing entry i, which has not that name before or after, does not change where the name is. */
  lemma SameFirst(es: seq<Entry>, es': seq<Entry>, i: nat, name: string)
    requires i <= |es| <= |es'| && i < |es'| && |es'| <= |es| + 1 && (|es'| > |es| ==> i == |es|)
    requires forall j :: 0 <= j < |es| && j != i ==> es'[j] == es[j]
    requires (i < |es| ==> es[i].inum == 0 || es[i].name != name) && (es'[i].inum == 0 || es'[i].name != name)
    ensures Find(es', name) == Find(es, name)
  {
    var a, b := SlotOf(es, name), SlotOf(es', name);
    if a < |es| {
      assert es'[a] == es[a];
    }
    if b < |es'| {
      assert b < |es| && es[b] == es'[b];
    }
  }

  /** Clearing the first entry with a name leaves all other names. */
  lemma FindAfterClear(es: seq<Entry>, name: string, i: nat)
    requires FirstNamed(es, name, i)
    ensures OtherNames(es, es[i := Entry(0, "")], name)
  {
    forall other | other != name ensures Find(es[i := Entry(0, "")], other) == Find(es, other) {
      SameFirst(es, es[i := Entry(0, "")], i, other);
    }
  }

  lemma DotSlots(x: nat)
    requires x != 0
    ensures EmptySlot([]) == 0 && SlotOf([], ".") == 0 && Put([], 0, Entry(x, ".")) == [Entry(x, ".")]
    ensures EmptySlot([Entry(x, ".")]) == 1 && SlotOf([Entry(x, ".")], "..") == 1
  {
    var es := [Entry(x, ".")];
    assert |"."| != |".."| && es[1..] == [];
  }

  class Volume {
    var nodes: Nodes

    constructor (ns: Nodes)
      ensures nodes == ns
    {
      nodes := ns;
    }

    /** dirlookup: where the entry is. */
    method DirLookup(d: nat, name: string) returns (off: nat)
      requires IsDir(nodes, d)
      ensures off == SlotOf(nodes[d].entries, name)
    {
      off := 0;
      while off < |nodes[d].entries| && (nodes[d].entries[off].inum == 0 || nodes[d].entries[off].name != name)
        invariant off <= |nodes[d].entries|
        invariant forall j :: 0 <= j < off ==> nodes[d].entries[j].inum == 0 || nodes[d].entries[j].name != name
      {
        off := off + 1;
      }
    }

    /** dirlink */
    method DirLink(d: nat, name: string, x: nat) returns (ok: bool)
      requires IsDir(nodes, d)
      modifies this
      ensures ok == !Has(old(nodes), d, name)
      ensures nodes == if ok then AddEntry(old(nodes), d, name, x) else old(nodes)
      ensures ok <==> Nameless(old(nodes)[d].entries, name)
      ensures ok ==> nodes == old(nodes)[d := old(nodes)[d].(entries := nodes[d].entries)]
      ensures ok && x != 0 ==> Find(nodes[d].entries, name) == Some(x)
      ensures ok ==> OtherNames(old(nodes)[d].entries, nodes[d].entries, name)
    {
      var i := DirLookup(d, name);
      if i < |nodes[d].entries| {
        return false;
      }
      var es := nodes[d].entries;
      FindAfterPut(es, name, x);
      var off := 0;
      while off < |es| && es[off].inum != 0
        invariant off <= |es| && forall j :: 0 <= j < off ==> es[j].inum != 0
      {
        off := off + 1;
      }
      nodes := nodes[d := nodes[d].(entries := if off < |es| then es[off := Entry(x, name)]
          else es + [Entry(x, name)])];
      return true;
    }

    method IsDirEmpty(d: nat) returns (b: bool)
      requires IsDir(nodes, d)
      ensures b == Empty(nodes[d].entries)
    {
      var off := 2;
      while off < |nodes[d].entries|
        invariant forall j :: 2 <= j < off && j < |nodes[d].entries| ==> nodes[d].entries[j].inum == 0
      {
        if nodes[d].entries[off].inum != 0 {
          return false;
        }
        off := off + 1;
      }
      return true;
    }

    /** ialloc: the first free inode; none stands for the panic. */
    method Ialloc() returns (r: Option<nat>)
      ensures r.Some? ==> 0 < r.value < |nodes| && nodes[r.value].kind == Unallocated
      ensures r.Some? ==> forall i :: 0 < i < r.value ==> nodes[i].kind != Unallocated
      ensures r.None? ==> forall i :: 0 < i < |nodes| ==> nodes[i].kind != Unallocated
    {
      var i := 1;
      while i < |nodes| && nodes[i].kind != Unallocated
        invariant 1 <= i && forall j :: 0 < j < i && j < |nodes| ==> nodes[j].kind != Unallocated
      {
        i := i + 1;
      }
      return if i < |nodes| then Some(i) else None;
    }

    /** sys_link to the inode x, with nothing in between; dir is what nameiparent gives for the new path. */
    method Link(x: nat, dir: Option<nat>, name: string) returns (ok: bool)
      requires x < |nodes| && nodes[x].kind != Unallocated && (dir.Some? ==> IsDir(nodes, dir.value))
      modifies this
      ensures old(nodes[x]).kind == Directory ==> !ok && nodes == old(nodes)
      ensures old(nodes[x].kind != Directory) ==>
        var t1 := Do(Tree(old(nodes), multiset{}), LinkBegin(x)); nodes == Do(t1, LinkEnd(x, dir, name)).nodes
      ensures ok <==>
        old(nodes)[x].kind != Directory && dir.Some? && Nameless(old(nodes)[dir.value].entries, name)
      ensures !ok ==> nodes == old(nodes)
      ensures ok ==>
        var d := dir.value;
        && nodes == old(nodes)[x := old(nodes)[x].(nlink := old(nodes)[x].nlink + 1)]
                    [d := old(nodes)[d].(entries := nodes[d].entries)]
        && (x != 0 ==> Find(nodes[d].entries, name) == Some(x))
        && OtherNames(old(nodes)[d].entries, nodes[d].entries, name)
    {
      if nodes[x].kind == Directory {
        return false;
      }
      nodes := nodes[x := nodes[x].(nlink := nodes[x].nlink + 1)];
      if dir.Some? {
        ok := DirLink(dir.value, name, x);
        if ok {
          return;
        }
      }
      nodes := nodes[x := nodes[x].(nlink := nodes[x].nlink - 1)];
      ok := false;
    }

    /** sys_unlink in the directory d: it fails for the dots, for a name that is not there, and for a directory with an
        entry in use from the third on. Otherwise the entry, which is entry off, is cleared, its inode has a link less,
        and the directory d has one less if that was a directory. */
    method Unlink(d: nat, name: string) returns (ok: bool, ghost off: nat)
      requires IsDir(nodes, d) && !UnlinkStops(nodes, d, name)
      modifies this
      ensures |nodes| == |old(nodes)|
      ensures name == "." || name == ".." || Nameless(old(nodes)[d].entries, name) ==> !ok
      ensures name != "." && name != ".." && !Nameless(old(nodes)[d].entries, name) ==>
        && FirstNamed(old(nodes)[d].entries, name, off)
        && var x := old(nodes)[d].entries[off].inum;
        && x < |old(nodes)| && x != d
        && (ok <==> !(&& old(nodes)[x].kind == Directory
                      && exists j :: 2 <= j < |old(nodes)[x].entries| && old(nodes)[x].entries[j].inum != 0))
        && (ok ==>
              && nodes[d] == old(nodes)[d].(entries := old(nodes)[d].entries[off := Entry(0, "")],
                   nlink := old(nodes)[d].nlink - if old(nodes)[x].kind == Directory then 1 else 0)
              && nodes[x] == old(nodes)[x].(nlink := old(nodes)[x].nlink - 1)
              && forall k :: 0 <= k < |nodes| && k != d && k != x ==> nodes[k] == old(nodes)[k])
      ensures !ok ==> nodes == old(nodes)
      ensures ok ==> OtherNames(old(nodes)[d].entries, nodes[d].entries, name)
      ensures ok == !UnlinkFails(old(nodes), d, name)
      ensures nodes == Do(Tree(old(nodes), multiset{}), Step.Unlink(d, name)).nodes
    {
      off := SlotOf(nodes[d].entries, name);
      if name == "." || name == ".." {
        return false, off;
      }
      var i := DirLookup(d, name);
      if i == |nodes[d].entries| {
        return false, off;
      }
      var x := nodes[d].entries[i].inum;
      var dir := nodes[x].kind == Directory;
      if dir {
        var empty := IsDirEmpty(x);
        if !empty {
          return false, off;
        }
      }
      FindAfterClear(nodes[d].entries, name, i);
      nodes := nodes[d := nodes[d].(entries := nodes[d].entries[i := Entry(0, "")])];
      if dir {
        nodes := nodes[d := nodes[d].(nlink := nodes[d].nlink - 1)];
      }
      nodes := nodes[x := nodes[x].(nlink := nodes[x].nlink - 1)];
      return true, off;
    }

    /** create in the directory d: an existing inode, a new one, or none. */
    method Create(d: nat, name: string, kind: Kind) returns (r: Option<nat>)
      requires IsDir(nodes, d) && kind != Unallocated
      modifies this
      ensures Has(old(nodes), d, name) ==> nodes == old(nodes)
      ensures !Has(old(nodes), d, name) && r.Some? ==>
        0 < r.value < |old(nodes)| && old(nodes)[r.value].kind == Unallocated
      ensures !Has(old(nodes), d, name) && r.Some? ==> forall i :: 0 < i < r.value ==> old(nodes)[i].kind != Unallocated
      ensures !Has(old(nodes), d, name) && r.Some? ==>
        nodes == Do(Tree(old(nodes), multiset{}), Step.Create(d, name, kind, r.value)).nodes
      ensures !Has(old(nodes), d, name) && r.None? ==> nodes == old(nodes) && forall i :: 0 < i < |nodes| ==>
          nodes[i].kind != Unallocated
      ensures Has(old(nodes), d, name) <==> !Nameless(old(nodes)[d].entries, name)
      ensures !Nameless(old(nodes)[d].entries, name) ==>
        exists i: nat :: FirstNamed(old(nodes)[d].entries, name, i) &&
          var x := old(nodes)[d].entries[i].inum;
          r == if kind == Regular && x < |nodes| && nodes[x].kind == Regular then Some(x) else None
      ensures Nameless(old(nodes)[d].entries, name) && r.Some? ==>
        var x := r.value;
        && nodes == old(nodes)[x := Node(kind, 1, if kind == Directory then [Entry(x, "."), Entry(d, "..")] else [])]
                    [d := old(nodes)[d].(entries := nodes[d].entries,
                         nlink := old(nodes)[d].nlink + if kind == Directory then 1 else 0)]
        && Find(nodes[d].entries, name) == Some(x) && OtherNames(old(nodes)[d].entries, nodes[d].entries, name)
    {
      var off := DirLookup(d, name);
      if off < |nodes[d].entries| {
        var x := nodes[d].entries[off].inum;
        return if kind == Regular && x < |nodes| && nodes[x].kind == Regular then Some(x) else None;
      }
      r := Ialloc();
      if r.None? {
        return;
      }
      var x := r.value;
      if kind == Directory {
        nodes := nodes[x := Node(kind, 1, [])];
        nodes := nodes[d := nodes[d].(nlink := nodes[d].nlink + 1)];
        MakeDots(x, d);
      } else {
        nodes := nodes[x := Node(kind, 1, [])];
      }
      var ok := DirLink(d, name, x);
    }

    /** The two entries of a new directory. */
    method MakeDots(x: nat, d: nat)
      requires IsDir(nodes, x) && nodes[x].entries == [] && x != 0
      modifies this
      ensures nodes == old(nodes)[x := old(nodes)[x].(entries := [Entry(x, "."), Entry(d, "..")])]
    {
      DotSlots(x);
      var ok := DirLink(x, ".", x);
      assert nodes[x].entries == [Entry(x, ".")];
      ok := DirLink(x, "..", d);
      assert ok && nodes[x].entries == [Entry(x, "."), Entry(d, "..")];
    }
  }
}
