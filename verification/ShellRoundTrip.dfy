/** Printing a command tree and parsing it gives the tree back. */
module ShellRoundTrip {
  import opened ShellSyntax

  /** ts is empty or starts with one of these symbols. */
  predicate Stops(ts: seq<Token>, cs: set<char>) {
    ts == [] || Starts(ts, cs)
  }

  // ---- Characters to tokens ----

  ghost predicate GoodToken(t: Token) {
    match t
    case Word(text) => GoodWord(text)
    case Sym(c) => Symbol(c)
    case Append => true
  }

  lemma {:induction false} WordLenExact(w: string, rest: string)
    requires (forall i :: 0 <= i < |w| ==> WordChar(w[i])) && (rest == [] || !WordChar(rest[0]))
    ensures WordLen(w + rest) == |w|
  {
    var s := w + rest;
    if w == [] {
      assert s == rest;
    } else {
      assert s[1..] == w[1..] + rest;
      WordLenExact(w[1..], rest);
    }
  }

  lemma HeadOf(t: Token, rest: string)
    requires GoodToken(t) && (rest == [] || rest[0] == ' ')
    ensures var s := ShowToken(t) + rest;
            s != [] && !Blank(s[0]) && Head(s) == (t, |ShowToken(t)|) && s[|ShowToken(t)|..] == rest
  {
    var s := ShowToken(t) + rest;
    assert s[|ShowToken(t)|..] == rest;
    if t.Word? {
      assert WordChar(t.text[0]);
      WordLenExact(t.text, rest);
      assert s[..|t.text|] == t.text;
    }
  }

  /** Tokens printed with a space before each are read back. */
  lemma {:induction false} TokensRoundTrip(ts: seq<Token>)
    requires forall i :: 0 <= i < |ts| ==> GoodToken(ts[i])
    ensures Tokenize(ShowTokens(ts)) == ts
  {
    if ts != [] {
      var rest := ShowTokens(ts[1..]);
      var s := ShowTokens(ts);
      var t := ShowToken(ts[0]) + rest;
      assert s == " " + t && s[1..] == t;
      HeadOf(ts[0], rest);
      assert SkipBlanks(s) == SkipBlanks(t) == t;
      TokensRoundTrip(ts[1..]);
    }
  }

  // ---- Redirections and arguments ----

  function RedirTokens(rs: seq<Redirect<string>>): (ts: seq<Token>) {
    if rs == [] then [] else [Arrow(rs[0].out), Word(rs[0].file)] + RedirTokens(rs[1..])
  }

  lemma {:induction false} RedirsRoundTrip(rs: seq<Redirect<string>>, rest: seq<Token>)
    requires !StartsRedir(rest)
    ensures Redirs(RedirTokens(rs) + rest) == Ok(rs, rest)
  {
    var ts := RedirTokens(rs) + rest;
    if rs == [] {
      assert ts == rest;
    } else {
      assert ts[2..] == RedirTokens(rs[1..]) + rest;
      RedirsRoundTrip(rs[1..], rest);
      assert [Redirect(rs[0].file, rs[0].out)] + rs[1..] == rs;
    }
  }

  lemma ArgsStep(args: seq<string>, w: string, tail: seq<Token>)
    requires |args| + 1 < MAXARGS && !StartsRedir(tail)
    ensures Args(args, [], [Word(w)] + tail) == Args(args + [w], [], tail)
  {
    var ts := [Word(w)] + tail;
    assert ts[1..] == tail;
    var none: seq<Redirect<string>> := [];
    assert none + none == none;
  }

  lemma ArgsLast(args: seq<string>, w: string, rs: seq<Redirect<string>>, rest: seq<Token>)
    requires |args| + 1 < MAXARGS && Stops(rest, {'|', ')', '&', ';'})
    ensures Args(args, [], [Word(w)] + (RedirTokens(rs) + rest)) == Ok(Wrap(Exec(args + [w]), rs), rest)
  {
    var ts := [Word(w)] + (RedirTokens(rs) + rest);
    assert ts[1..] == RedirTokens(rs) + rest;
    RedirsRoundTrip(rs, rest);
    assert [] + rs == rs;
  }

  /** Arguments ws, then redirections rs: the argument loop collects both. */
  lemma {:induction false} ArgsRoundTrip(args: seq<string>, ws: seq<string>, rs: seq<Redirect<string>>,
      rest: seq<Token>)
    requires ws != [] && |args| + |ws| < MAXARGS && Stops(rest, {'|', ')', '&', ';'})
    ensures Args(args, [], Words(ws) + RedirTokens(rs) + rest) == Ok(Wrap(Exec(args + ws), rs), rest)
    decreases |ws|
  {
    var ts := Words(ws) + RedirTokens(rs) + rest;
    if |ws| == 1 {
      assert ts == [Word(ws[0])] + (RedirTokens(rs) + rest) && args + [ws[0]] == args + ws;
      ArgsLast(args, ws[0], rs, rest);
    } else {
      var tail := Words(ws[1..]) + RedirTokens(rs) + rest;
      assert ts == [Word(ws[0])] + tail && tail[0] == Word(ws[1]);
      ArgsStep(args, ws[0], tail);
      ArgsRoundTrip(args + [ws[0]], ws[1..], rs, rest);
      assert args + [ws[0]] + ws[1..] == args + ws;
    }
  }

  // ---- Ampersands ----

  function Amps(n: nat): (ts: seq<Token>)
    ensures |ts| == n
  {
    seq<Token>(n, _ => Sym('&'))
  }

  function Backed(c: Cmd<string>, n: nat): (r: Cmd<string>)
    decreases n
  {
    if n == 0 then c else Backed(Back(c), n - 1)
  }

  lemma {:induction false} BacksRoundTrip(c: Cmd<string>, n: nat, rest: seq<Token>)
    requires !Starts(rest, {'&'})
    ensures Backs(c, Amps(n) + rest) == (Backed(c, n), rest)
    decreases n
  {
    var ts := Amps(n) + rest;
    if n == 0 {
      assert ts == rest;
    } else {
      assert ts[1..] == Amps(n - 1) + rest;
      BacksRoundTrip(Back(c), n - 1, rest);
    }
  }

  // ---- Commands ----

  datatype Level = AtExec | AtPipe | AtBack | AtLine

  /** In which order the four levels call each other on the same tree. */
  function Rank(l: Level, c: Cmd<string>): (n: nat) {
    var place := if l == AtExec then 0 else if l == AtPipe then 1 else if l == AtBack then 2 else 3;
    match c
    case Pipe(_, _) => [4, 1, 2, 3][place]
    case List(_, _) => [2, 3, 4, 1][place]
    case Back(_) => [3, 4, 1, 2][place]
    case _ => [1, 2, 3, 4][place]
  }

  /** At exec level, anything but a plain command goes in parentheses. */
  lemma Parenthesized(c: Cmd<string>)
    requires !c.Exec? && !c.Redir?
    ensures ExecTokens(c) == [Sym('(')] + LineTokens(c) + [Sym(')')]
  {
    assert c.Pipe? ==> LineTokens(c) == BackTokens(c) == PipeTokens(c);
  }

  lemma PlainRoundTrip(args: seq<string>, rs: seq<Redirect<string>>, rest: seq<Token>)
    requires |args| < MAXARGS && Stops(rest, {'|', ')', '&', ';'})
    ensures ParseExec(Words(args) + RedirTokens(rs) + rest) == Ok(Wrap(Exec(args), rs), rest)
  {
    var ts := Words(args) + RedirTokens(rs) + rest;
    if args == [] {
      assert ts == RedirTokens(rs) + rest;
      RedirsRoundTrip(rs, rest);
    } else {
      assert ts[0] == Word(args[0]);
      ArgsRoundTrip([], args, rs, rest);
      assert [] + args == args;
    }
  }

  lemma BlockRoundTrip(c: Cmd<string>, line: seq<Token>, rs: seq<Redirect<string>>, rest: seq<Token>)
    requires !StartsRedir(rest)
    requires ParseLine(line + ([Sym(')')] + RedirTokens(rs) + rest)) == Ok(c, [Sym(')')] + RedirTokens(rs) + rest)
    ensures ParseExec([Sym('(')] + line + [Sym(')')] + RedirTokens(rs) + rest) == Ok(Wrap(c, rs), rest)
  {
    var tail := [Sym(')')] + RedirTokens(rs) + rest;
    var ts := [Sym('(')] + line + [Sym(')')] + RedirTokens(rs) + rest;
    assert ts[1..] == line + tail;
    assert tail[1..] == RedirTokens(rs) + rest;
    RedirsRoundTrip(rs, rest);
    BlockParse(ts, tail, c, rs, rest);
  }

  lemma BlockParse(ts: seq<Token>, tail: seq<Token>, c: Cmd<string>, rs: seq<Redirect<string>>, rest: seq<Token>)
    requires Starts(ts, {'('}) && ParseLine(ts[1..]) == Ok(c, tail) && Starts(tail, {')'}) &&
        Redirs(tail[1..]) == Ok(rs, rest)
    ensures ParseExec(ts) == Ok(Wrap(c, rs), rest)
  {
  }

  /** A command at exec level with redirections behind it. */
  lemma {:induction false} ExecRoundTrip(c: Cmd<string>, rs: seq<Redirect<string>>, rest: seq<Token>)
    requires Printable(c) && Stops(rest, {'|', ')', '&', ';'})
    ensures ParseExec(ExecTokens(c) + RedirTokens(rs) + rest) == Ok(Wrap(c, rs), rest)
    decreases c, Rank(AtExec, c)
  {
    match c
    case Exec(args) => PlainRoundTrip(args, rs, rest);
    case Redir(d, file, out) =>
      var more := [Redirect(file, out)] + rs;
      assert more[1..] == rs;
      assert ExecTokens(c) + RedirTokens(rs) + rest == ExecTokens(d) + RedirTokens(more) + rest;
      ExecRoundTrip(d, more, rest);
    case _ =>
      Parenthesized(c);
      LineRoundTrip(c, [Sym(')')] + RedirTokens(rs) + rest);
      BlockRoundTrip(c, LineTokens(c), rs, rest);
  }

  lemma {:induction false} PipeRoundTrip(c: Cmd<string>, rest: seq<Token>)
    requires Printable(c) && Stops(rest, {')', '&', ';'})
    ensures ParsePipe(PipeTokens(c) + rest) == Ok(c, rest)
    decreases c, Rank(AtPipe, c)
  {
    var ts := PipeTokens(c) + rest;
    if c.Pipe? {
      var tail := [Sym('|')] + PipeTokens(c.right) + rest;
      assert ts == ExecTokens(c.left) + RedirTokens([]) + tail;
      ExecRoundTrip(c.left, [], tail);
      assert tail[1..] == PipeTokens(c.right) + rest;
      PipeRoundTrip(c.right, rest);
    } else {
      assert ts == ExecTokens(c) + RedirTokens([]) + rest;
      ExecRoundTrip(c, [], rest);
    }
  }

  /** parsepipe followed by the loop over "&". */
  function ParseBack(ts: seq<Token>): (r: Parsed<Cmd<string>>) {
    var p := ParsePipe(ts);
    if p.Panic? then Panic else Ok(Backs(p.v, p.rest).0, Backs(p.v, p.rest).1)
  }

  lemma {:induction false} BackRoundTrip(c: Cmd<string>, n: nat, rest: seq<Token>)
    requires Printable(c) && Stops(rest, {')', ';'})
    ensures ParseBack(BackTokens(c) + Amps(n) + rest) == Ok(Backed(c, n), rest)
    decreases c, Rank(AtBack, c)
  {
    var ts := BackTokens(c) + Amps(n) + rest;
    if c.Back? {
      assert ts == BackTokens(c.cmd) + Amps(n + 1) + rest;
      BackRoundTrip(c.cmd, n + 1, rest);
    } else {
      assert ts == PipeTokens(c) + (Amps(n) + rest);
      PipeRoundTrip(c, Amps(n) + rest);
      BacksRoundTrip(c, n, rest);
    }
  }

  lemma {:induction false} LineRoundTrip(c: Cmd<string>, rest: seq<Token>)
    requires Printable(c) && Stops(rest, {')'})
    ensures ParseLine(LineTokens(c) + rest) == Ok(c, rest)
    decreases c, Rank(AtLine, c)
  {
    var ts := LineTokens(c) + rest;
    if c.List? {
      var tail := [Sym(';')] + LineTokens(c.right) + rest;
      assert ts == BackTokens(c.left) + Amps(0) + tail;
      BackRoundTrip(c.left, 0, tail);
      assert tail[1..] == LineTokens(c.right) + rest;
      LineRoundTrip(c.right, rest);
    } else {
      assert ts == BackTokens(c) + Amps(0) + rest;
      BackRoundTrip(c, 0, rest);
    }
  }

  // ---- The theorem ----

  ghost predicate AllGood(ts: seq<Token>) {
    forall i :: 0 <= i < |ts| ==> GoodToken(ts[i])
  }

  lemma {:induction false} TokensGood(c: Cmd<string>)
    requires Printable(c)
    ensures AllGood(ExecTokens(c)) && AllGood(PipeTokens(c)) && AllGood(BackTokens(c)) && AllGood(LineTokens(c))
  {
    match c
    case Exec(args) =>
    case Redir(d, _, _) => TokensGood(d);
    case Pipe(l, r) => TokensGood(l); TokensGood(r);
    case List(l, r) => TokensGood(l); TokensGood(r);
    case Back(d) => TokensGood(d);
  }

  /** Every command tree with proper words and at most nine arguments per command is
      what the parser makes of its printed form. */
  lemma RoundTrip(c: Cmd<string>)
    requires Printable(c)
    ensures ParseCmd(Show(c)) == Ok(c, [])
  {
    TokensGood(c);
    TokensRoundTrip(LineTokens(c));
    LineRoundTrip(c, []);
    assert LineTokens(c) + [] == LineTokens(c);
  }

  // ---- Whatever is parsed can be printed ----

  ghost predicate GoodWords(ts: seq<Token>) {
    forall i :: 0 <= i < |ts| && ts[i].Word? ==> GoodWord(ts[i].text)
  }

  lemma {:induction false} TokenizeGood(s: string)
    ensures GoodWords(Tokenize(s))
    decreases |s|
  {
    var t := SkipBlanks(s);
    if t != [] {
      TokenizeGood(t[Head(t).1..]);
      assert Tokenize(s)[1..] == Tokenize(t[Head(t).1..]);
    }
  }

  ghost predicate GoodFiles(rs: seq<Redirect<string>>) {
    forall i :: 0 <= i < |rs| ==> GoodWord(rs[i].file)
  }

  lemma {:induction false} WrapPrintable(c: Cmd<string>, rs: seq<Redirect<string>>)
    requires Printable(c) && GoodFiles(rs)
    ensures Printable(Wrap(c, rs))
    decreases |rs|
  {
    if rs != [] {
      WrapPrintable(Redir(c, rs[0].file, rs[0].out), rs[1..]);
    }
  }

  lemma {:induction false} RedirsPrintable(ts: seq<Token>)
    requires GoodWords(ts)
    ensures Redirs(ts).Ok? ==> GoodFiles(Redirs(ts).v) && GoodWords(Redirs(ts).rest)
    decreases |ts|
  {
    if StartsRedir(ts) && |ts| >= 2 {
      RedirsPrintable(ts[2..]);
    }
  }

  lemma {:induction false} ArgsPrintable(args: seq<string>, rs: seq<Redirect<string>>, ts: seq<Token>)
    requires Printable(Exec(args)) && GoodFiles(rs) && GoodWords(ts)
    ensures var r := Args(args, rs, ts); r.Ok? ==> Printable(r.v) && GoodWords(r.rest)
    decreases |ts|
  {
    WrapPrintable(Exec(args), rs);
    if ts != [] && ts[0].Word? && |args| + 1 < MAXARGS {
      RedirsPrintable(ts[1..]);
      var more := Redirs(ts[1..]);
      if more.Ok? {
        ArgsPrintable(args + [ts[0].text], rs + more.v, more.rest);
      }
    }
  }

  lemma {:induction false} BacksPrintable(c: Cmd<string>, ts: seq<Token>)
    requires Printable(c) && GoodWords(ts)
    ensures var r := Backs(c, ts); Printable(r.0) && GoodWords(r.1)
    decreases |ts|
  {
    if Starts(ts, {'&'}) {
      BacksPrintable(Back(c), ts[1..]);
    }
  }

  ghost predicate Sound(r: Parsed<Cmd<string>>) {
    r.Ok? ==> Printable(r.v) && GoodWords(r.rest)
  }

  lemma {:induction false} ExecPrintable(ts: seq<Token>)
    requires GoodWords(ts)
    ensures Sound(ParseExec(ts))
    decreases |ts|, 1
  {
    if Starts(ts, {'('}) {
      LinePrintable(ts[1..]);
      var inner := ParseLine(ts[1..]);
      if inner.Ok? && Starts(inner.rest, {')'}) {
        RedirsPrintable(inner.rest[1..]);
        var rs := Redirs(inner.rest[1..]);
        if rs.Ok? {
          WrapPrintable(inner.v, rs.v);
        }
      }
    } else {
      RedirsPrintable(ts);
      var first := Redirs(ts);
      if first.Ok? {
        ArgsPrintable([], first.v, first.rest);
      }
    }
  }

  lemma {:induction false} PipePrintable(ts: seq<Token>)
    requires GoodWords(ts)
    ensures Sound(ParsePipe(ts))
    decreases |ts|, 2
  {
    ExecPrintable(ts);
    var l := ParseExec(ts);
    if l.Ok? && Starts(l.rest, {'|'}) {
      PipePrintable(l.rest[1..]);
    }
  }

  lemma {:induction false} LinePrintable(ts: seq<Token>)
    requires GoodWords(ts)
    ensures Sound(ParseLine(ts))
    decreases |ts|, 3
  {
    PipePrintable(ts);
    var p := ParsePipe(ts);
    if p.Ok? {
      BacksPrintable(p.v, p.rest);
      var rest := Backs(p.v, p.rest).1;
      if Starts(rest, {';'}) {
        LinePrintable(rest[1..]);
      }
    }
  }

  /** Every accepted line means the same as the printed form of its tree. */
  lemma ParsePrintParse(s: string)
    requires ParseCmd(s).Ok?
    ensures Printable(ParseCmd(s).v) && ParseCmd(Show(ParseCmd(s).v)) == ParseCmd(s)
  {
    TokenizeGood(s);
    LinePrintable(Tokenize(s));
    RoundTrip(ParseCmd(s).v);
  }
}
