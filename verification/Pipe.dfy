/** The ring buffer of pipe.c: 512 bytes and two 32-bit counters that wrap. */
module Pipe {
  import opened Blocks

  const PIPESIZE := 512

  /** The buffer part of struct pipe. */
  datatype Ring = Ring(data: seq<byte>, nread: uint, nwrite: uint)

  predicate Full(r: Ring) {
    r.nwrite == (r.nread + PIPESIZE) % WORD_LIMIT
  }

  predicate Empty(r: Ring) {
    r.nread == r.nwrite
  }

  /** p->data[p->nwrite++ % PIPESIZE] = b */
  function Put(r: Ring, b: byte): (r': Ring)
    requires |r.data| == PIPESIZE
  {
    Ring(r.data[r.nwrite % PIPESIZE := b], r.nread, (r.nwrite + 1) % WORD_LIMIT)
  }

  /** p->data[p->nread++ % PIPESIZE] */
  function Front(r: Ring): (b: byte)
    requires |r.data| == PIPESIZE
  {
    r.data[r.nread % PIPESIZE]
  }

  function Drop(r: Ring): (r': Ring) {
    r.(nread := (r.nread + 1) % WORD_LIMIT)
  }

  /** The ring holds what was stored and not yet removed, at most 512 bytes; the
      counters have seen all of it, modulo 2^32. */
  ghost predicate Holds(r: Ring, stored: seq<byte>, removed: seq<byte>) {
    && |r.data| == PIPESIZE
    && |removed| <= |stored| <= |removed| + PIPESIZE
    && removed == stored[..|removed|]
    && r.nread == |removed| % WORD_LIMIT
    && r.nwrite == |stored| % WORD_LIMIT
    && forall k :: |removed| <= k < |stored| ==> r.data[k % PIPESIZE] == stored[k]
  }

  lemma SameModulo(a: nat, b: nat)
    requires a <= b < a + WORD_LIMIT
    ensures a % WORD_LIMIT == b % WORD_LIMIT <==> a == b
  {
    var q, p := a / WORD_LIMIT, b / WORD_LIMIT;
    assert a == q * WORD_LIMIT + a % WORD_LIMIT && b == p * WORD_LIMIT + b % WORD_LIMIT;
    if a % WORD_LIMIT == b % WORD_LIMIT {
      assert b - a == (p - q) * WORD_LIMIT;
    }
  }

  lemma Wrapped(a: nat, k: nat)
    ensures (a % WORD_LIMIT + k) % WORD_LIMIT == (a + k) % WORD_LIMIT
    ensures a % WORD_LIMIT % PIPESIZE == a % PIPESIZE
  {
    var q, x := a / WORD_LIMIT, a % WORD_LIMIT;
    assert a == q * WORD_LIMIT + x;
    ModuloAdd(x + k, q);
    RingAdd(x, q);
  }

  lemma {:induction false} ModuloAdd(x: nat, q: nat)
    ensures (q * WORD_LIMIT + x) % WORD_LIMIT == x % WORD_LIMIT
  {
    if q > 0 {
      ModuloAdd(x, q - 1);
    }
  }

  lemma {:induction false} RingAdd(x: nat, q: nat)
    ensures (q * WORD_LIMIT + x) % PIPESIZE == x % PIPESIZE
  {
    if q > 0 {
      RingAdd(x, q - 1);
    }
  }

  /** The two tests of pipe.c mean what they should, in spite of wrapping. */
  lemma Tests(r: Ring, stored: seq<byte>, removed: seq<byte>)
    requires Holds(r, stored, removed)
    ensures Full(r) <==> |stored| == |removed| + PIPESIZE
    ensures Empty(r) <==> stored == removed
  {
    Wrapped(|removed|, PIPESIZE);
    SameModulo(|stored|, |removed| + PIPESIZE);
    SameModulo(|removed|, |stored|);
  }

  lemma PutHolds(r: Ring, stored: seq<byte>, removed: seq<byte>, b: byte)
    requires Holds(r, stored, removed) && !Full(r)
    ensures Holds(Put(r, b), stored + [b], removed)
  {
    Tests(r, stored, removed);
    Wrapped(|stored|, 1);
    forall k | |removed| <= k < |stored| ensures k % PIPESIZE != |stored| % PIPESIZE {
      Near(k, |stored|);
    }
  }

  lemma Near(a: nat, b: nat)
    requires a < b < a + PIPESIZE
    ensures a % PIPESIZE != b % PIPESIZE
  {
  }

  lemma DropHolds(r: Ring, stored: seq<byte>, removed: seq<byte>)
    requires Holds(r, stored, removed) && !Empty(r)
    ensures Holds(Drop(r), stored, removed + [Front(r)])
  {
    Tests(r, stored, removed);
    Wrapped(|removed|, 1);
  }

  /** struct pipe, and what pipewrite and piperead do with it between two sleeps. */
  class Buffer {
    const data: array<byte>
    var nread: uint
    var nwrite: uint
    ghost var stored: seq<byte>
    ghost var removed: seq<byte>

    ghost function State(): (r: Ring)
      reads this, data
    {
      Ring(data[..], nread, nwrite)
    }

    ghost predicate Valid()
      reads this, data
    {
      data.Length == PIPESIZE && Holds(State(), stored, removed)
    }

    constructor ()
      ensures Valid() && stored == [] && removed == [] && fresh(data)
    {
      data := new byte[PIPESIZE](_ => 0);
      nread, nwrite := 0, 0;
      stored, removed := [], [];
    }

    /** The for loop of pipewrite from byte i on, up to the end or to a full pipe. */
    method WriteSome(addr: seq<byte>, i: nat) returns (j: nat)
      requires Valid() && i <= |addr|
      modifies this`nwrite, this`stored, data
      ensures Valid()
      ensures i <= j <= |addr| && stored == old(stored) + addr[i..j]
      ensures j == |addr| || |stored| == |removed| + PIPESIZE
    {
      j := i;
      Tests(State(), stored, removed);
      while j < |addr| && !(nwrite == (nread + PIPESIZE) % WORD_LIMIT)
        invariant i <= j <= |addr|
        invariant Valid() && stored == old(stored) + addr[i..j]
        invariant Full(State()) <==> |stored| == |removed| + PIPESIZE
      {
        PutHolds(State(), stored, removed, addr[j]);
        data[nwrite % PIPESIZE] := addr[j];
        nwrite := (nwrite + 1) % WORD_LIMIT;
        stored := stored + [addr[j]];
        j := j + 1;
        Tests(State(), stored, removed);
      }
    }

    /** The copy loop of piperead: everything there is, up to n bytes. */
    method ReadSome(n: nat) returns (bytes: seq<byte>)
      requires Valid()
      modifies this`nread, this`removed
      ensures Valid()
      ensures removed == old(removed) + bytes
      ensures |bytes| == if |stored| - |old(removed)| < n then |stored| - |old(removed)| else n
    {
      bytes := [];
      Tests(State(), stored, removed);
      while |bytes| < n && !(nread == nwrite)
        invariant |bytes| <= n
        invariant Valid() && removed == old(removed) + bytes
        invariant Empty(State()) <==> stored == removed
      {
        DropHolds(State(), stored, removed);
        var b := data[nread % PIPESIZE];
        nread := (nread + 1) % WORD_LIMIT;
        removed := removed + [b];
        bytes := bytes + [b];
        Tests(State(), stored, removed);
      }
    }
  }
}
