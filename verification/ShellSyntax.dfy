/** The command language of sh.c: tokens, the recursive-descent grammar as
    functions on token lists, and a printer for command trees. */
module ShellSyntax {

  const MAXARGS := 10

  predicate Blank(c: char) {
    c in {' ', '\t', '\r', '\n', '\U{000B}'}
  }

  predicate Symbol(c: char) {
    c in {'<', '|', '>', '&', ';', '(', ')'}
  }

  predicate WordChar(c: char) {
    !Blank(c) && !Symbol(c)
  }

  // ---- Tokens ----

  /** Append is ">>". */
  datatype Token = Word(text: string) | Sym(c: char) | Append

  function SkipBlanks(s: string): (r: string)
    ensures |r| <= |s| && (r == [] || !Blank(r[0]))
  {
    if s != [] && Blank(s[0]) then SkipBlanks(s[1..]) else s
  }

  /** The length of the word that s starts with. */
  function WordLen(s: string): (n: nat)
    ensures n <= |s| && (n == |s| || !WordChar(s[n])) && forall i :: 0 <= i < n ==> WordChar(s[i])
  {
    if s != [] && WordChar(s[0]) then 1 + WordLen(s[1..]) else 0
  }

  /** The token that s starts with, and its length: gettoken without the blanks. */
  function Head(s: string): (r: (Token, nat))
    requires s != [] && !Blank(s[0])
    ensures 0 < r.1 <= |s|
  {
    if s[0] == '>' then if |s| > 1 && s[1] == '>' then (Append, 2) else (Sym('>'), 1)
    else if Symbol(s[0]) then (Sym(s[0]), 1)
    else (Word(s[..WordLen(s)]), WordLen(s))
  }

  function Tokenize(s: string): (ts: seq<Token>)
    decreases |s|
  {
    var t := SkipBlanks(s);
    if t == [] then [] else [Head(t).0] + Tokenize(t[Head(t).1..])
  }

  /** No token goes on over a blank or a symbol other than ">". */
  lemma {:induction false} BreakSplits(s: string, rest: string)
    requires rest != [] && !WordChar(rest[0]) && rest[0] != '>'
    ensures Tokenize(s + rest) == Tokenize(s) + Tokenize(rest)
    decreases |s|
  {
    var t := SkipBlanks(s);
    SkipBlanksOver(s, rest);
    if t != [] {
      var n := Head(t).1;
      HeadOver(t, rest);
      assert (t + rest)[n..] == t[n..] + rest;
      BreakSplits(t[n..], rest);
    }
  }

  lemma {:induction false} SkipBlanksOver(s: string, u: string)
    ensures SkipBlanks(s + u) == if SkipBlanks(s) == [] then SkipBlanks(u) else SkipBlanks(s) + u
  {
    if s != [] && Blank(s[0]) {
      assert (s + u)[1..] == s[1..] + u;
      SkipBlanksOver(s[1..], u);
    } else if s == [] {
      assert s + u == u;
    }
  }

  lemma HeadOver(t: string, rest: string)
    requires t != [] && !Blank(t[0]) && rest != [] && !WordChar(rest[0]) && (rest[0] != '>' || t[0] != '>')
    ensures Head(t + rest) == Head(t)
  {
    WordLenOver(t, rest);
    assert (t + rest)[..WordLen(t)] == t[..WordLen(t)];
  }

  lemma {:induction false} WordLenOver(t: string, rest: string)
    requires rest != [] && !WordChar(rest[0])
    ensures WordLen(t + rest) == WordLen(t)
  {
    if t != [] {
      assert (t + rest)[1..] == t[1..] + rest;
      WordLenOver(t[1..], rest);
    } else {
      assert t + rest == rest;
    }
  }

  /** Blanks, written out, separate tokens and are none: what is left and right of one is read on its own. */
  lemma BlankSplits(s: string, c: char, u: string)
    requires c == ' ' || c == '\t' || c == '\r' || c == '\n' || c == '\U{000B}'
    ensures Tokenize(s + ([c] + u)) == Tokenize(s) + Tokenize(u)
  {
    BreakSplits(s, [c] + u);
    assert ([c] + u)[1..] == u;
    assert SkipBlanks([c] + u) == SkipBlanks(u);
  }

  /** These symbols are tokens with or without blanks around them. */
  lemma SymbolSplits(s: string, c: char, u: string)
    requires c == '<' || c == '|' || c == '&' || c == ';' || c == '(' || c == ')'
    ensures Tokenize(s + ([c] + u)) == Tokenize(s) + ([Sym(c)] + Tokenize(u))
  {
    BreakSplits(s, [c] + u);
    assert ([c] + u)[1..] == u;
  }

  /** Neither a blank nor a symbol, written out. */
  predicate Plain(c: char) {
    && c != ' ' && c != '\t' && c != '\r' && c != '\n' && c != '\U{000B}'
    && c != '<' && c != '|' && c != '>' && c != '&' && c != ';' && c != '(' && c != ')'
  }

  /** A string of such characters is one word. */
  lemma OneWord(w: string)
    requires w != [] && forall i :: 0 <= i < |w| ==> Plain(w[i])
    ensures Tokenize(w) == [Word(w)]
  {
    assert forall i :: 0 <= i < |w| ==> WordChar(w[i]);
    assert WordLen(w) == |w| && w[..|w|] == w && w[|w|..] == [];
  }

  /** ">" and ">>" are the other two. */
  lemma Arrows()
    ensures Tokenize(">") == [Sym('>')] && Tokenize(">>") == [Append]
  {
    assert ">"[1..] == [] && ">>"[2..] == [];
  }

  /** The newline that ends a line is no part of a word. */
  lemma NewlineEnds(s: string)
    ensures Tokenize(s + "\n") == Tokenize(s)
  {
    BlankSplits(s, '\n', []);
    assert ['\n'] + [] == "\n";
  }

  // ---- Trees ----

  /** Parsed commands; W is how a word is given. Redirection goes to standard output
      (">" and ">>" alike) or comes from standard input. */
  datatype Cmd<W> =
    | Exec(args: seq<W>)
    | Redir(cmd: Cmd<W>, file: W, out: bool)
    | Pipe(left: Cmd<W>, right: Cmd<W>)
    | List(left: Cmd<W>, right: Cmd<W>)
    | Back(cmd: Cmd<W>)

  datatype Redirect<W> = Redirect(file: W, out: bool)

  /** The redirections around a command, first one innermost. */
  function Wrap<W>(c: Cmd<W>, rs: seq<Redirect<W>>): (r: Cmd<W>)
    decreases |rs|
  {
    if rs == [] then c else Wrap(Redir(c, rs[0].file, rs[0].out), rs[1..])
  }

  // ---- The grammar ----

  /** What a parsing function comes to: a result and the tokens left, or panic. */
  datatype Parsed<T> = Ok(v: T, rest: seq<Token>) | Panic

  predicate Starts(ts: seq<Token>, cs: set<char>) {
    ts != [] && ts[0].Sym? && ts[0].c in cs
  }

  predicate StartsRedir(ts: seq<Token>) {
    ts != [] && (ts[0].Append? || ts[0] == Sym('<') || ts[0] == Sym('>'))
  }

  /** parseredirs, as the list of redirections that it adds. */
  function Redirs(ts: seq<Token>): (r: Parsed<seq<Redirect<string>>>)
    ensures r.Ok? ==> |r.rest| <= |ts| && !StartsRedir(r.rest)
    decreases |ts|
  {
    if !StartsRedir(ts) then Ok([], ts)
    else if |ts| < 2 || !ts[1].Word? then Panic
    else
      var tail := Redirs(ts[2..]);
      if tail.Panic? then Panic
      else Ok([Redirect(ts[1].text, ts[0] != Sym('<'))] + tail.v, tail.rest)
  }

  /** The argument loop of parseexec. */
  function Args(args: seq<string>, rs: seq<Redirect<string>>, ts: seq<Token>): (r: Parsed<Cmd<string>>)
    ensures r.Ok? ==> |r.rest| <= |ts|
    decreases |ts|
  {
    if ts == [] || Starts(ts, {'|', ')', '&', ';'}) then Ok(Wrap(Exec(args), rs), ts)
    else if !ts[0].Word? then Panic
    else if |args| + 1 >= MAXARGS then Panic
    else
      var more := Redirs(ts[1..]);
      if more.Panic? then Panic else Args(args + [ts[0].text], rs + more.v, more.rest)
  }

  function ParseExec(ts: seq<Token>): (r: Parsed<Cmd<string>>)
    ensures r.Ok? ==> |r.rest| <= |ts|
    decreases |ts|, 1
  {
    if Starts(ts, {'('}) then ParseBlock(ts)
    else
      var first := Redirs(ts);
      if first.Panic? then Panic else Args([], first.v, first.rest)
  }

  function ParseBlock(ts: seq<Token>): (r: Parsed<Cmd<string>>)
    requires Starts(ts, {'('})
    ensures r.Ok? ==> |r.rest| < |ts|
    decreases |ts|, 0
  {
    var inner := ParseLine(ts[1..]);
    if inner.Panic? || !Starts(inner.rest, {')'}) then Panic
    else
      var rs := Redirs(inner.rest[1..]);
      if rs.Panic? then Panic else Ok(Wrap(inner.v, rs.v), rs.rest)
  }

  function ParsePipe(ts: seq<Token>): (r: Parsed<Cmd<string>>)
    ensures r.Ok? ==> |r.rest| <= |ts|
    decreases |ts|, 2
  {
    var l := ParseExec(ts);
    if l.Panic? || !Starts(l.rest, {'|'}) then l
    else
      var r := ParsePipe(l.rest[1..]);
      if r.Panic? then Panic else Ok(Pipe(l.v, r.v), r.rest)
  }

  /** The loop of parseline over "&". */
  function Backs(c: Cmd<string>, ts: seq<Token>): (r: (Cmd<string>, seq<Token>))
    ensures |r.1| <= |ts| && !Starts(r.1, {'&'})
    decreases |ts|
  {
    if Starts(ts, {'&'}) then Backs(Back(c), ts[1..]) else (c, ts)
  }

  function ParseLine(ts: seq<Token>): (r: Parsed<Cmd<string>>)
    ensures r.Ok? ==> |r.rest| <= |ts|
    decreases |ts|, 3
  {
    var p := ParsePipe(ts);
    if p.Panic? then Panic
    else
      var (c, rest) := Backs(p.v, p.rest);
      if !Starts(rest, {';'}) then Ok(c, rest)
      else
        var r := ParseLine(rest[1..]);
        if r.Panic? then Panic else Ok(List(c, r.v), r.rest)
  }

  /** parsecmd: leftovers are a panic. */
  function ParseCmd(s: string): (r: Parsed<Cmd<string>>) {
    var p := ParseLine(Tokenize(s));
    if p.Ok? && p.rest == [] then p else Panic
  }

  // ---- The printer ----

  function Words(ws: seq<string>): (ts: seq<Token>)
    ensures |ts| == |ws|
  {
    seq<Token>(|ws|, i requires 0 <= i < |ws| => Word(ws[i]))
  }

  function Arrow(out: bool): (t: Token) {
    if out then Sym('>') else Sym('<')
  }

  function ExecTokens(c: Cmd<string>): (ts: seq<Token>)
    decreases c, 0
  {
    match c
    case Exec(args) => Words(args)
    case Redir(d, file, out) => ExecTokens(d) + [Arrow(out), Word(file)]
    case Pipe(l, r) => [Sym('(')] + ExecTokens(l) + [Sym('|')] + PipeTokens(r) + [Sym(')')]
    case List(l, r) => [Sym('(')] + BackTokens(l) + [Sym(';')] + LineTokens(r) + [Sym(')')]
    case Back(d) => [Sym('(')] + BackTokens(d) + [Sym('&')] + [Sym(')')]
  }

  function PipeTokens(c: Cmd<string>): (ts: seq<Token>)
    decreases c, 1
  {
    match c
    case Pipe(l, r) => ExecTokens(l) + [Sym('|')] + PipeTokens(r)
    case _ => ExecTokens(c)
  }

  function BackTokens(c: Cmd<string>): (ts: seq<Token>)
    decreases c, 2
  {
    match c
    case Back(d) => BackTokens(d) + [Sym('&')]
    case _ => PipeTokens(c)
  }

  /** A command as tokens, with parentheses where the grammar needs them. */
  function LineTokens(c: Cmd<string>): (ts: seq<Token>)
    decreases c, 3
  {
    match c
    case List(l, r) => BackTokens(l) + [Sym(';')] + LineTokens(r)
    case _ => BackTokens(c)
  }

  function ShowToken(t: Token): (s: string) {
    match t
    case Word(text) => text
    case Sym(c) => [c]
    case Append => ">>"
  }

  function ShowTokens(ts: seq<Token>): (s: string) {
    if ts == [] then [] else " " + ShowToken(ts[0]) + ShowTokens(ts[1..])
  }

  function Show(c: Cmd<string>): (s: string) {
    ShowTokens(LineTokens(c))
  }

  // ---- What can be printed ----

  predicate GoodWord(w: string) {
    w != [] && forall i :: 0 <= i < |w| ==> WordChar(w[i])
  }

  /** Words are non-empty and without blanks and symbols, and no command has more
      arguments than the parser takes. */
  predicate Printable(c: Cmd<string>) {
    match c
    case Exec(args) => |args| < MAXARGS && forall i :: 0 <= i < |args| ==> GoodWord(args[i])
    case Redir(d, file, _) => Printable(d) && GoodWord(file)
    case Pipe(l, r) => Printable(l) && Printable(r)
    case List(l, r) => Printable(l) && Printable(r)
    case Back(d) => Printable(d)
  }
}
