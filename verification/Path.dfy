/** Path names: skipelem of fs.c against the fields between slashes. */
module Path {
  import opened Params

  function Truncated(s: string): (r: string)
    ensures |r| <= DIRSIZ
  {
    if |s| <= DIRSIZ then s else s[..DIRSIZ]
  }

  // ---- What a path means: its fields between slashes, without the empty ones ----

  /** The fields of p between its slashes; one more than there are slashes. */
  function Fields(p: string): (fs: seq<string>)
    ensures |fs| > 0
  {
    if p == [] then [[]]
    else
      var rest := Fields(p[1..]);
      if p[0] == '/' then [[]] + rest else [[p[0]] + rest[0]] + rest[1..]
  }

  function Names(fs: seq<string>): (ns: seq<string>) {
    if fs == [] then [] else (if fs[0] == [] then [] else [Truncated(fs[0])]) + Names(fs[1..])
  }

  /** The elements of a path: its maximal runs without slashes, cut to DIRSIZ. */
  function Elements(p: string): (ns: seq<string>) {
    Names(Fields(p))
  }

  // ---- skipelem ----

  lemma {:induction false} SlashesSkipped(p: string, n: nat)
    requires n <= |p| && forall i :: 0 <= i < n ==> p[i] == '/'
    ensures Elements(p) == Elements(p[n..])
  {
    if n > 0 {
      SlashesSkipped(p[1..], n - 1);
      assert p[1..][n - 1..] == p[n..];
      assert ([[]] + Fields(p[1..]))[1..] == Fields(p[1..]);
    } else {
      assert p[0..] == p;
    }
  }

  /** A run without slashes that ends at a slash or at the end of the path is the first field. */
  lemma {:induction false} RunIsField(p: string, n: nat)
    requires n <= |p| && (n < |p| ==> p[n] == '/') && forall i :: 0 <= i < n ==> p[i] != '/'
    ensures Fields(p)[0] == p[..n]
    ensures Fields(p)[1..] == if n < |p| then Fields(p[n + 1..]) else []
  {
    if n > 0 {
      RunIsField(p[1..], n - 1);
      assert p[..n] == [p[0]] + p[1..][..n - 1];
      if n < |p| {
        assert p[1..][n..] == p[n + 1..];
      }
    } else if p != [] {
      assert ([[]] + Fields(p[1..]))[1..] == Fields(p[1..]);
    }
  }

  lemma ElementFirst(p: string, n: nat, m: nat)
    requires 0 < n <= m <= |p| && (n < |p| ==> p[n] == '/') && forall i :: 0 <= i < n ==> p[i] != '/'
    requires forall i :: n <= i < m ==> p[i] == '/'
    ensures Elements(p) == [Truncated(p[..n])] + Elements(p[m..])
  {
    RunIsField(p, n);
    if n < |p| {
      SlashesSkipped(p[n..], m - n);
      assert p[n..][m - n..] == p[m..];
      assert p[n..][1..] == p[n + 1..];
      assert Fields(p[n..])[1..] == Fields(p[n + 1..]);
    } else {
      assert p[m..] == [];
      assert Elements([]) == [] by { assert Fields([]) == [[]] && Names([[]][1..]) == []; }
    }
  }

  lemma NoElement(p: string)
    requires forall i :: 0 <= i < |p| ==> p[i] == '/'
    ensures Elements(p) == []
  {
    SlashesSkipped(p, |p|);
    assert p[|p|..] == [];
    assert Fields([]) == [[]] && Names([[]][1..]) == [];
  }

  lemma SomeElement(p: string)
    requires p != [] && p[0] != '/'
    ensures Elements(p) != []
  {
    assert Fields(p)[0] != [];
  }

  /** path[i..j] consists of slashes, or of no slashes, and cannot be made longer. */
  predicate Stretch(path: string, i: nat, j: nat, slash: bool) {
    && i <= j <= |path| && (forall k :: i <= k < j ==> (path[k] == '/') == slash)
    && (j < |path| ==> (path[j] == '/') != slash)
  }

  /** A loop of skipelem. */
  method Skip(path: string, i: nat, slash: bool) returns (j: nat)
    requires i <= |path|
    ensures Stretch(path, i, j, slash)
  {
    j := i;
    while j < |path| && (path[j] == '/') == slash
      invariant i <= j <= |path| && forall k :: i <= k < j ==> (path[k] == '/') == slash
    {
      j := j + 1;
    }
  }

  lemma SkipMeans(path: string, start: nat, s: nat, e: nat, next: nat)
    requires Stretch(path, start, s, true) && s < |path| && Stretch(path, s, e, false) && Stretch(path, e, next, true)
    ensures start < next && Elements(path[start..]) == [Truncated(path[s..e])] + Elements(path[next..])
    ensures next < |path| ==> Elements(path[next..]) != []
  {
    SlashesSkipped(path[start..], s - start);
    assert path[start..][s - start..] == path[s..];
    ElementFirst(path[s..], e - s, next - s);
    assert path[s..][next - s..] == path[next..];
    assert path[s..][..e - s] == path[s..e];
    if next < |path| {
      SomeElement(path[next..]);
    }
  }

  /** skipelem: the next element of path and where the one after it starts, or nothing. */
  method SkipElem(path: string, start: nat) returns (found: bool, name: string, next: nat)
    requires start <= |path|
    ensures start <= next <= |path|
    ensures found <==> Elements(path[start..]) != []
    ensures found ==> next > start && Elements(path[start..]) == [name] + Elements(path[next..])
    ensures next < |path| ==> Elements(path[next..]) != []
  {
    var s := Skip(path, start, true);
    if s == |path| {
      NoElement(path[start..]);
      return false, [], s;
    }
    var e := Skip(path, s, false);
    name := if e - s >= DIRSIZ then path[s..s + DIRSIZ] else path[s..e];
    assert name == Truncated(path[s..e]);
    next := Skip(path, e, true);
    found := true;
    SkipMeans(path, start, s, e, next);
  }
}
