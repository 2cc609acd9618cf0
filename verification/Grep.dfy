/** The matcher of grep.c against what a pattern means. Strings here end at their
    length, where the C strings have a NUL. */
module Grep {

  /** A pattern character against a text character. */
  predicate Fits(c: char, t: char) {
    c == '.' || c == t
  }

  // ---- The code ----

  /** matchhere. */
  predicate MatchHere(re: string, text: string)
    decreases |re|, |text|, 1
  {
    if re == [] then true
    else if |re| >= 2 && re[1] == '*' then MatchStar(re[0], re[2..], text)
    else if re == "$" then text == []
    else if text != [] && Fits(re[0], text[0]) then MatchHere(re[1..], text[1..])
    else false
  }

  /** matchstar, its loop as recursion. */
  predicate MatchStar(c: char, re: string, text: string)
    decreases |re|, |text|, 2
  {
    MatchHere(re, text) || (text != [] && Fits(c, text[0]) && MatchStar(c, re, text[1..]))
  }

  /** The do-while loop of matchstar. */
  method MatchStarLoop(c: char, re: string, text: string) returns (found: bool)
    ensures found == MatchStar(c, re, text)
  {
    var i := 0;
    while true
      invariant 0 <= i <= |text|
      invariant MatchStar(c, re, text) == MatchStar(c, re, text[i..])
      decreases |text| - i
    {
      if MatchHere(re, text[i..]) {
        return true;
      }
      assert i < |text| ==> text[i..][0] == text[i] && text[i..][1..] == text[i + 1..];
      if !(i < |text| && (text[i] == c || c == '.')) {
        return false;
      }
      i := i + 1;
    }
  }

  /** match. */
  method Match(re: string, text: string) returns (found: bool)
    ensures found <==> Matches(re, text)
  {
    if re != [] && re[0] == '^' {
      MatchHereMeans(re[1..], text);
      return MatchHere(re[1..], text);
    }
    var i := 0;
    while true
      invariant 0 <= i <= |text|
      invariant forall j :: 0 <= j < i ==> !Begins(Parse(re), text[j..])
      decreases |text| - i
    {
      MatchHereMeans(re, text[i..]);
      if MatchHere(re, text[i..]) {
        return true;
      }
      if i == |text| {
        return false;
      }
      i := i + 1;
    }
  }

  // ---- What a pattern means ----

  /** One character, or any number of copies of one; '.' stands for every character. */
  datatype Item = One(c: char) | Star(c: char)

  /** Items one after the other; toEnd if the pattern ends in "$". */
  datatype Pattern = Pattern(items: seq<Item>, toEnd: bool)

  function Parse(re: string): (p: Pattern) {
    if re == [] then Pattern([], false)
    else if |re| >= 2 && re[1] == '*' then
      var p := Parse(re[2..]);
      Pattern([Star(re[0])] + p.items, p.toEnd)
    else if re == "$" then Pattern([], true)
    else
      var p := Parse(re[1..]);
      Pattern([One(re[0])] + p.items, p.toEnd)
  }

  ghost predicate Piece(i: Item, w: string) {
    match i
    case One(c) => |w| == 1 && Fits(c, w[0])
    case Star(c) => forall k :: 0 <= k < |w| ==> Fits(c, w[k])
  }

  /** The items match consecutive pieces of text, from its start, cut at `cuts`. */
  ghost predicate Cut(items: seq<Item>, text: string, cuts: seq<nat>) {
    && |cuts| == |items| + 1 && cuts[0] == 0
    && (forall i :: 0 <= i < |cuts| ==> cuts[i] <= |text|)
    && (forall i :: 0 <= i < |items| ==> PieceAt(items, text, cuts, i))
  }

  ghost predicate PieceAt(items: seq<Item>, text: string, cuts: seq<nat>, i: nat) {
    i < |items| && i + 1 < |cuts| && cuts[i] <= cuts[i + 1] <= |text| && Piece(items[i], text[cuts[i]..cuts[i + 1]])
  }

  /** A prefix of text, all of it if the pattern says so, is in the pattern's language. */
  ghost predicate Begins(p: Pattern, text: string) {
    exists cuts: seq<nat> :: Cut(p.items, text, cuts) && (p.toEnd ==> cuts[|p.items|] == |text|)
  }

  /** The pattern occurs in the text, at its start if it is anchored. */
  ghost predicate Matches(re: string, text: string) {
    if re != [] && re[0] == '^' then Begins(Parse(re[1..]), text)
    else exists i :: 0 <= i <= |text| && Begins(Parse(re), text[i..])
  }

  // ---- They agree ----

  function Shift(cuts: seq<nat>, k: nat): (r: seq<nat>) {
    seq<nat>(|cuts|, i requires 0 <= i < |cuts| => cuts[i] + k)
  }

  /** A piece of length k in front of a cut of the rest. */
  lemma Prepend(item: Item, items: seq<Item>, text: string, k: nat, cuts: seq<nat>)
    requires k <= |text| && Piece(item, text[..k]) && Cut(items, text[k..], cuts)
    ensures Cut([item] + items, text, [0] + Shift(cuts, k))
    ensures ([0] + Shift(cuts, k))[|items| + 1] == cuts[|items|] + k
  {
    var all := [item] + items;
    var r := [0] + Shift(cuts, k);
    forall i | 0 <= i < |all| ensures PieceAt(all, text, r, i) {
      if i > 0 {
        assert PieceAt(items, text[k..], cuts, i - 1);
        assert text[r[i]..r[i + 1]] == text[k..][cuts[i - 1]..cuts[i]];
      }
    }
  }

  /** The other way: what follows the first piece is a cut of the rest. */
  lemma Behead(items: seq<Item>, text: string, cuts: seq<nat>) returns (rest: seq<nat>)
    requires items != [] && Cut(items, text, cuts)
    ensures Piece(items[0], text[..cuts[1]]) && Cut(items[1..], text[cuts[1]..], rest)
    ensures rest[|items| - 1] + cuts[1] == cuts[|items|]
  {
    var k := cuts[1];
    assert PieceAt(items, text, cuts, 0);
    forall i | 1 <= i <= |items| ensures k <= cuts[i] {
      CutsGrow(items, text, cuts, i);
    }
    rest := seq<nat>(|items|, i requires 0 <= i < |items| => if cuts[i + 1] >= k then cuts[i + 1] - k else 0);
    forall i | 0 <= i < |items| - 1 ensures PieceAt(items[1..], text[k..], rest, i) {
      assert PieceAt(items, text, cuts, i + 1);
      assert text[k..][rest[i]..rest[i + 1]] == text[cuts[i + 1]..cuts[i + 2]];
    }
  }

  lemma {:induction false} CutsGrow(items: seq<Item>, text: string, cuts: seq<nat>, i: nat)
    requires Cut(items, text, cuts) && 1 <= i <= |items|
    ensures cuts[1] <= cuts[i]
  {
    if i > 1 {
      CutsGrow(items, text, cuts, i - 1);
      assert PieceAt(items, text, cuts, i - 1);
    }
  }

  /** matchstar tries every number of copies. */
  lemma {:induction false} MatchStarMeans(c: char, re: string, text: string)
    ensures MatchStar(c, re, text) <==>
            exists k :: 0 <= k <= |text| && Piece(Star(c), text[..k]) && MatchHere(re, text[k..])
    decreases |text|
  {
    if MatchHere(re, text) {
      assert text[0..] == text && Piece(Star(c), text[..0]);
    }
    if text != [] {
      MatchStarMeans(c, re, text[1..]);
      if Fits(c, text[0]) && MatchStar(c, re, text[1..]) {
        var k :| 0 <= k <= |text| - 1 && Piece(Star(c), text[1..][..k]) && MatchHere(re, text[1..][k..]);
        assert text[1..][k..] == text[k + 1..];
        var w := text[..k + 1];
        forall i | 0 <= i < |w| ensures Fits(c, w[i]) {
          assert i > 0 ==> w[i] == text[1..][..k][i - 1];
        }
        assert Piece(Star(c), w);
      }
    }
    if k :| 0 <= k <= |text| && Piece(Star(c), text[..k]) && MatchHere(re, text[k..]) {
      if k > 0 {
        assert text[..k][0] == text[0];
        assert text[1..][k - 1..] == text[k..];
        var w := text[1..][..k - 1];
        forall i | 0 <= i < |w| ensures Fits(c, w[i]) {
          assert w[i] == text[..k][i + 1];
        }
        assert Piece(Star(c), w);
      } else {
        assert text[0..] == text;
      }
    }
  }

  /** matchhere decides whether the text begins with a word of the pattern. */
  lemma {:induction false} MatchHereMeans(re: string, text: string)
    ensures MatchHere(re, text) <==> Begins(Parse(re), text)
    decreases |re|, |text|
  {
    if re == [] {
      assert Cut([], text, [0]);
    } else if |re| >= 2 && re[1] == '*' {
      StarMeans(re, text);
    } else if re == "$" {
      if text == [] {
        assert Cut([], text, [0]);
      }
    } else {
      OneMeans(re, text);
    }
  }

  lemma {:induction false} StarMeans(re: string, text: string)
    requires |re| >= 2 && re[1] == '*'
    ensures MatchHere(re, text) <==> Begins(Parse(re), text)
    decreases |re|, |text|, 0
  {
    var c, p := re[0], Parse(re[2..]);
    MatchStarMeans(c, re[2..], text);
    if MatchStar(c, re[2..], text) {
      var k :| 0 <= k <= |text| && Piece(Star(c), text[..k]) && MatchHere(re[2..], text[k..]);
      MatchHereMeans(re[2..], text[k..]);
      var cuts: seq<nat> :| Cut(p.items, text[k..], cuts) && (p.toEnd ==> cuts[|p.items|] == |text[k..]|);
      Prepend(Star(c), p.items, text, k, cuts);
    }
    if Begins(Parse(re), text) {
      var items := [Star(c)] + p.items;
      var cuts: seq<nat> :| Cut(items, text, cuts) && (p.toEnd ==> cuts[|items|] == |text|);
      var rest := Behead(items, text, cuts);
      assert items[1..] == p.items;
      MatchHereMeans(re[2..], text[cuts[1]..]);
      assert Begins(p, text[cuts[1]..]);
    }
  }

  lemma {:induction false} OneMeans(re: string, text: string)
    requires re != [] && !(|re| >= 2 && re[1] == '*') && re != "$"
    ensures MatchHere(re, text) <==> Begins(Parse(re), text)
    decreases |re|, |text|, 0
  {
    var c, p := re[0], Parse(re[1..]);
    if MatchHere(re, text) {
      MatchHereMeans(re[1..], text[1..]);
      var cuts: seq<nat> :| Cut(p.items, text[1..], cuts) && (p.toEnd ==> cuts[|p.items|] == |text[1..]|);
      assert text[..1][0] == text[0];
      Prepend(One(c), p.items, text, 1, cuts);
    }
    if Begins(Parse(re), text) {
      var items := [One(c)] + p.items;
      var cuts: seq<nat> :| Cut(items, text, cuts) && (p.toEnd ==> cuts[|items|] == |text|);
      var rest := Behead(items, text, cuts);
      assert items[1..] == p.items && cuts[1] == 1 && text[..1][0] == text[0];
      MatchHereMeans(re[1..], text[1..]);
      assert Begins(p, text[1..]);
    }
  }
}
