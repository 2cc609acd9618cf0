/** Inodes and directory entries, as path lookup and the link operations see them. */
module Directories {
  import opened Options

  datatype Kind = Unallocated | Directory | Regular | Device

  /** An entry with inum 0 is not in use. */
  datatype Entry = Entry(inum: nat, name: string)

  datatype Node = Node(kind: Kind, nlink: int, entries: seq<Entry>)

  const FREE := Node(Unallocated, 0, [])

  /** Where the first entry in use with that name is; the number of entries if there is none. */
  function SlotOf(es: seq<Entry>, name: string): (i: nat)
    ensures i <= |es| && (i < |es| ==> es[i].inum != 0 && es[i].name == name)
    ensures forall j :: 0 <= j < i ==> es[j].inum == 0 || es[j].name != name
  {
    if es == [] || (es[0].inum != 0 && es[0].name == name) then 0 else 1 + SlotOf(es[1..], name)
  }

  /** The inode that a directory with these entries gives for the name. */
  function Find(es: seq<Entry>, name: string): (r: Option<nat>)
    ensures r.Some? ==> exists e :: e in es && e.inum == r.value != 0 && e.name == name
    ensures r.None? ==> forall e :: e in es && e.inum != 0 ==> e.name != name
  {
    var i := SlotOf(es, name);
    if i < |es| then assert es[i] in es; Some(es[i].inum) else None
  }
}
