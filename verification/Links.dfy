/** Link counts: link, unlink, create and mkdir of sysfile.c on the inodes of one device.
    link takes two steps, because it gives up the inode's lock in between. */
module Links {
  import opened Options
  import opened Params
  import opened Directories

  type Nodes = seq<Node>

  /** pending holds the inodes whose count link has raised but for which it has made no entry yet. */
  datatype Tree = Tree(nodes: Nodes, pending: multiset<nat>)

  predicate Linked(n: Node) {
    n.kind == Directory && n.nlink > 0
  }

  // ---- Counting entries ----

  /** The entries that name x, other than ".". */
  function CountIn(es: seq<Entry>, x: nat): (n: nat) {
    if es == [] then 0
    else CountIn(es[..|es| - 1], x) + if es[|es| - 1].inum == x && es[|es| - 1].name != "." then 1 else 0
  }

  /** What a directory adds to the count of x. */
  function Share(n: Node, x: nat): (c: nat) {
    if Linked(n) then CountIn(n.entries, x) else 0
  }

  /** The entries that name x in all linked directories, other than ".". */
  function Count(nodes: Nodes, x: nat): (n: nat) {
    if nodes == [] then 0 else Count(nodes[..|nodes| - 1], x) + Share(nodes[|nodes| - 1], x)
  }

  // ---- The operations ----

  function Put(es: seq<Entry>, i: nat, e: Entry): (r: seq<Entry>)
    requires i <= |es|
  {
    if i < |es| then es[i := e] else es + [e]
  }

  /** The first entry not in use, or the end. */
  function EmptySlot(es: seq<Entry>): (i: nat)
    ensures i <= |es| && (i < |es| ==> es[i].inum == 0) && forall j :: 0 <= j < i ==> es[j].inum != 0
  {
    if es == [] || es[0].inum == 0 then 0 else 1 + EmptySlot(es[1..])
  }

  function AddLinks(nodes: Nodes, x: nat, k: int): (r: Nodes)
    requires x < |nodes|
    ensures |r| == |nodes|
  {
    nodes[x := nodes[x].(nlink := nodes[x].nlink + k)]
  }

  /** dirlink, for a name that is not there. */
  function AddEntry(nodes: Nodes, d: nat, name: string, x: nat): (r: Nodes)
    requires d < |nodes|
    ensures |r| == |nodes|
  {
    nodes[d := nodes[d].(entries := Put(nodes[d].entries, EmptySlot(nodes[d].entries), Entry(x, name)))]
  }

  predicate Has(nodes: Nodes, d: nat, name: string) {
    d < |nodes| && SlotOf(nodes[d].entries, name) < |nodes[d].entries|
  }

  predicate Empty(es: seq<Entry>) {
    forall j :: 2 <= j < |es| ==> es[j].inum == 0
  }

  datatype Step =
    | LinkBegin(x: nat)
    | LinkEnd(x: nat, dir: Option<nat>, name: string)   // none: the new path has no parent directory
    | Unlink(d: nat, name: string)
    | Create(d: nat, name: string, kind: Kind, x: nat)  // x is the free inode that ialloc finds
    | Free(x: nat)                                      // the last reference to an inode without links

  predicate IsDir(nodes: Nodes, d: nat) {
    d < |nodes| && nodes[d].kind == Directory
  }

  predicate Enabled(t: Tree, step: Step) {
    match step
    case LinkBegin(x) => x < |t.nodes| && t.nodes[x].kind != Unallocated
    case LinkEnd(x, d, name) => x in t.pending && x < |t.nodes| && (d.Some? ==> IsDir(t.nodes, d.value))
    case Unlink(d, name) => IsDir(t.nodes, d) && !UnlinkStops(t.nodes, d, name)
    case Create(d, name, kind, x) =>
      && IsDir(t.nodes, d) && kind != Unallocated
      && (!Has(t.nodes, d, name) ==> 0 < x < |t.nodes| && t.nodes[x].kind == Unallocated)
    case Free(x) => x < |t.nodes| && t.nodes[x].kind != Unallocated && t.nodes[x].nlink == 0
  }

  /** The inode that unlink is about to remove. */
  function Victim(nodes: Nodes, d: nat, name: string): (x: nat)
    requires Has(nodes, d, name)
  {
    nodes[d].entries[SlotOf(nodes[d].entries, name)].inum
  }

  /** unlink leaves everything as it is: dots, no such name, or a directory that is not empty. */
  predicate UnlinkFails(nodes: Nodes, d: nat, name: string) {
    || name == "." || name == ".." || !Has(nodes, d, name)
    || (IsDir(nodes, Victim(nodes, d, name)) && !Empty(nodes[Victim(nodes, d, name)].entries))
  }

  /** unlink panics because the inode has no links, or waits for the lock that it has itself. */
  predicate UnlinkStops(nodes: Nodes, d: nat, name: string) {
    && name != "." && name != ".." && Has(nodes, d, name)
    && var x := Victim(nodes, d, name); x == d || x >= |nodes| || nodes[x].nlink < 1
  }

  function Removed(nodes: Nodes, d: nat, name: string): (r: Nodes)
    requires IsDir(nodes, d) && !UnlinkStops(nodes, d, name) && !UnlinkFails(nodes, d, name)
  {
    var x, i := Victim(nodes, d, name), SlotOf(nodes[d].entries, name);
    var n1 := nodes[d := nodes[d].(entries := nodes[d].entries[i := Entry(0, "")])];
    var n2 := if nodes[x].kind == Directory then AddLinks(n1, d, -1) else n1;
    AddLinks(n2, x, -1)
  }

  function Created(nodes: Nodes, d: nat, name: string, kind: Kind, x: nat): (r: Nodes)
    requires IsDir(nodes, d) && x < |nodes| && x != d
  {
    if kind == Directory then
      var n1 := AddLinks(nodes[x := Node(Directory, 1, [Entry(x, "."), Entry(d, "..")])], d, 1);
      AddEntry(n1, d, name, x)
    else AddEntry(nodes[x := Node(kind, 1, [])], d, name, x)
  }

  function Do(t: Tree, step: Step): (r: Tree)
    requires Enabled(t, step)
  {
    match step
    case LinkBegin(x) =>
      if t.nodes[x].kind == Directory then t
      else Tree(AddLinks(t.nodes, x, 1), t.pending + multiset{x})
    case LinkEnd(x, d, name) =>
      if d.None? || Has(t.nodes, d.value, name) then Tree(AddLinks(t.nodes, x, -1), t.pending - multiset{x})
      else Tree(AddEntry(t.nodes, d.value, name, x), t.pending - multiset{x})
    case Unlink(d, name) => if UnlinkFails(t.nodes, d, name) then t else t.(nodes := Removed(t.nodes, d, name))
    case Create(d, name, kind, x) =>
      if Has(t.nodes, d, name) then t else t.(nodes := Created(t.nodes, d, name, kind, x))
    case Free(x) => t.(nodes := t.nodes[x := FREE])
  }

  predicate Legal(t: Tree, steps: seq<Step>)
    decreases |steps|
  {
    steps == [] || (Enabled(t, steps[0]) && Legal(Do(t, steps[0]), steps[1..]))
  }

  function Run(t: Tree, steps: seq<Step>): (r: Tree)
    requires Legal(t, steps)
    decreases |steps|
  {
    if steps == [] then t else Run(Do(t, steps[0]), steps[1..])
  }

  // ---- The sums under a change ----

  lemma {:induction false} CountInAt(es: seq<Entry>, i: nat, e: Entry, x: nat)
    requires i < |es|
    ensures CountIn(es[i := e], x) == CountIn(es, x) - Names(es[i], x) + Names(e, x)
  {
    var n := |es| - 1;
    if i < n {
      CountInAt(es[..n], i, e, x);
      assert es[i := e][..n] == es[..n][i := e];
    } else {
      assert es[i := e][..n] == es[..n];
    }
  }

  /** What an entry adds to the count of x. */
  function Names(e: Entry, x: nat): (n: nat) {
    if e.inum == x && e.name != "." then 1 else 0
  }

  lemma CountInPut(es: seq<Entry>, i: nat, e: Entry, x: nat)
    requires i <= |es| && (i < |es| ==> es[i].inum == 0) && x != 0
    ensures CountIn(Put(es, i, e), x) == CountIn(es, x) + Names(e, x)
  {
    if i < |es| {
      CountInAt(es, i, e, x);
    } else {
      assert (es + [e])[..|es|] == es;
    }
  }

  lemma {:induction false} CountAt(nodes: Nodes, d: nat, n: Node, x: nat)
    requires d < |nodes|
    ensures Count(nodes[d := n], x) == Count(nodes, x) - Share(nodes[d], x) + Share(n, x)
  {
    var k := |nodes| - 1;
    if d < k {
      CountAt(nodes[..k], d, n, x);
      assert nodes[d := n][..k] == nodes[..k][d := n];
    } else {
      assert nodes[d := n][..k] == nodes[..k];
    }
  }

  // ---- Counts of none and one ----

  predicate NamedBy(nodes: Nodes, d: nat, j: nat, x: nat) {
    d < |nodes| && Linked(nodes[d]) && j < |nodes[d].entries| && Names(nodes[d].entries[j], x) == 1
  }

  lemma {:induction false} CountInNone(es: seq<Entry>, x: nat)
    ensures CountIn(es, x) == 0 <==> forall j :: 0 <= j < |es| ==> Names(es[j], x) == 0
  {
    if es != [] {
      CountInNone(es[..|es| - 1], x);
      assert forall j :: 0 <= j < |es| - 1 ==> es[..|es| - 1][j] == es[j];
    }
  }

  lemma {:induction false} CountNone(nodes: Nodes, x: nat)
    ensures Count(nodes, x) == 0 <==> forall d: nat, j: nat :: !NamedBy(nodes, d, j, x)
  {
    if nodes != [] {
      var k := |nodes| - 1;
      CountNone(nodes[..k], x);
      CountInNone(nodes[k].entries, x);
      assert forall d: nat, j: nat :: d < k ==> (NamedBy(nodes[..k], d, j, x) <==> NamedBy(nodes, d, j, x));
      assert forall j: nat :: NamedBy(nodes, k, j, x) <==>
        Linked(nodes[k]) && j < |nodes[k].entries| && Names(nodes[k].entries[j], x) == 1;
    }
  }
}
