/** What short command lines mean, character by character, for any words. */
module ShellLaws {
  import opened ShellSyntax

  /** A word, with the characters that it must not have written out. */
  predicate PlainWord(w: string) {
    w != [] && forall i :: 0 <= i < |w| ==> Plain(w[i])
  }

  /** The line is that command. */
  predicate Means(s: string, c: Cmd<string>) {
    ParseCmd(s) == Ok(c, [])
  }

  // ---- Characters to tokens ----

  lemma ReadArrow(f: string)
    requires PlainWord(f)
    ensures Tokenize(">" + f) == [Sym('>'), Word(f)] && Tokenize(">>" + f) == [Append, Word(f)]
  {
    OneWord(f);
    var s, t := ">" + f, ">>" + f;
    assert Plain(f[0]) && s[1] == f[0] && s[1..] == f && Head(s) == (Sym('>'), 1);
    assert t[2..] == f && Head(t) == (Append, 2);
  }

  lemma AfterWord(w: string, u: string)
    requires PlainWord(w) && u != [] && u[0] == '>'
    ensures Tokenize(w + u) == [Word(w)] + Tokenize(u)
  {
    var all := w + u;
    assert Plain(w[0]);
    HeadOver(w, u);
    assert WordLen(w) == |w| && w[..|w|] == w;
    assert SkipBlanks(all) == all && Head(all) == (Word(w), |w|) && all[|w|..] == u;
  }

  lemma ReadOut(w: string, f: string)
    requires PlainWord(w) && PlainWord(f)
    ensures Tokenize(w + (">" + f)) == [Word(w), Sym('>'), Word(f)]
  {
    ReadArrow(f);
    AfterWord(w, ">" + f);
  }

  lemma ReadAppend(w: string, f: string)
    requires PlainWord(w) && PlainWord(f)
    ensures Tokenize(w + (">>" + f)) == [Word(w), Append, Word(f)]
  {
    ReadArrow(f);
    AfterWord(w, ">>" + f);
  }

  lemma ReadSymbol(a: string, c: char, b: string)
    requires PlainWord(a) && PlainWord(b) && (c == '<' || c == '|' || c == '&' || c == ';')
    ensures Tokenize(a + ([c] + b)) == [Word(a), Sym(c), Word(b)]
  {
    OneWord(a);
    OneWord(b);
    SymbolSplits(a, c, b);
  }

  lemma ReadBlank(a: string, c: char, b: string)
    requires PlainWord(a) && PlainWord(b)
    requires c == ' ' || c == '\t' || c == '\r' || c == '\n' || c == '\U{000B}'
    ensures Tokenize(a + ([c] + b)) == [Word(a), Word(b)]
  {
    OneWord(a);
    OneWord(b);
    BlankSplits(a, c, b);
  }

  // ---- Tokens to trees ----

  /** Up to nine words are a command; ten are one too many. */
  lemma WordLine(ws: seq<string>)
    ensures ParseLine(Words(ws)) == if |ws| <= 9 then Ok(Exec(ws), []) else Panic
  {
    var ts := Words(ws);
    ArgsWords([], ws);
    assert [] + ws == ws;
    assert ParseExec(ts) == Args([], [], ts);
    assert ParsePipe(ts) == ParseExec(ts);
  }

  lemma {:induction false} ArgsWords(args: seq<string>, ws: seq<string>)
    requires |args| <= 9
    ensures Args(args, [], Words(ws)) == if |args| + |ws| <= 9 then Ok(Exec(args + ws), []) else Panic
    decreases |ws|
  {
    var ts := Words(ws);
    if ws == [] {
      assert args + ws == args;
    } else if |args| < 9 {
      assert ts[1..] == Words(ws[1..]) && Redirs(ts[1..]) == Ok([], ts[1..]);
      var none: seq<Redirect<string>> := [];
      assert args + [ws[0]] + ws[1..] == args + ws && none + none == none;
      ArgsWords(args + [ws[0]], ws[1..]);
    }
  }

  lemma OneArg(a: string, rs: seq<Redirect<string>>, ts: seq<Token>)
    requires Redirs(ts).Ok? && Redirs(ts).v == rs && Redirs(ts).rest == [] && !StartsRedir([Word(a)] + ts)
    ensures ParseExec([Word(a)] + ts) == Ok(Wrap(Exec([a]), rs), [])
  {
    var all := [Word(a)] + ts;
    assert all[1..] == ts && Redirs(all) == Ok([], all);
    assert Args([], [], all) == Args([a], rs, []) by {
      assert [] + [a] == [a] && [] + rs == rs;
    }
  }

  lemma RedirLine(a: string, f: string, t: Token)
    requires t == Sym('<') || t == Sym('>') || t == Append
    ensures ParseLine([Word(a), t, Word(f)]) == Ok(Redir(Exec([a]), f, t != Sym('<')), [])
  {
    var ts := [t, Word(f)];
    assert ts[2..] == [] && Redirs([]) == Ok([], []);
    var rs := [Redirect(f, t != Sym('<'))];
    assert rs + [] == rs && rs[1..] == [];
    OneArg(a, rs, ts);
    assert [Word(a)] + ts == [Word(a), t, Word(f)];
  }

  lemma ExecThen(a: string, ts: seq<Token>)
    requires ts == [] || Starts(ts, {'|', ')', '&', ';'})
    ensures ParseExec([Word(a)] + ts) == Ok(Exec([a]), ts)
  {
    var all := [Word(a)] + ts;
    assert all[1..] == ts && Redirs(all) == Ok([], all) && Redirs(ts) == Ok([], ts);
    assert Args([], [], all) == Args([a], [], ts) by {
      assert [] + [a] == [a];
    }
  }

  lemma PipeLine(a: string, b: string)
    ensures ParseLine([Word(a), Sym('|'), Word(b)]) == Ok(Pipe(Exec([a]), Exec([b])), [])
  {
    var ts := [Sym('|'), Word(b)];
    ExecThen(a, ts);
    ExecThen(b, []);
    assert [Word(a)] + ts == [Word(a), Sym('|'), Word(b)] && ts[1..] == [Word(b)] == [Word(b)] + [];
    assert ParsePipe([Word(b)]) == Ok(Exec([b]), []);
  }

  lemma ListLine(a: string, b: string)
    ensures ParseLine([Word(a), Sym(';'), Word(b)]) == Ok(List(Exec([a]), Exec([b])), [])
    ensures ParseLine([Word(a), Sym('&'), Word(b)]) == Ok(Back(Exec([a])), [Word(b)])
  {
    var ts, us := [Sym(';'), Word(b)], [Sym('&'), Word(b)];
    ExecThen(a, ts);
    ExecThen(a, us);
    ExecThen(b, []);
    assert [Word(a)] + ts == [Word(a), Sym(';'), Word(b)] && ts[1..] == [Word(b)] == [Word(b)] + [];
    assert [Word(a)] + us == [Word(a), Sym('&'), Word(b)] && us[1..] == [Word(b)];
    assert ParseLine([Word(b)]) == Ok(Exec([b]), []);
    assert Backs(Exec([a]), us) == (Back(Exec([a])), [Word(b)]);
  }

  // ---- Lines ----

  /** Arguments and redirections, for any words. */
  lemma Redirections(a: string, b: string)
    requires PlainWord(a) && PlainWord(b)
    ensures Means(a + (" " + b), Exec([a, b])) && Means(a + "\n", Exec([a]))
    ensures Means(a + ("<" + b), Redir(Exec([a]), b, false))
    ensures Means(a + (">" + b), Redir(Exec([a]), b, true)) && Means(a + (">>" + b), Redir(Exec([a]), b, true))
  {
    OneWord(a);
    NewlineEnds(a);
    ReadBlank(a, ' ', b);
    WordLine([a]);
    WordLine([a, b]);
    assert Words([a]) == [Word(a)] && Words([a, b]) == [Word(a), Word(b)];
    ReadSymbol(a, '<', b);
    ReadOut(a, b);
    ReadAppend(a, b);
    RedirLine(a, b, Sym('<'));
    RedirLine(a, b, Sym('>'));
    RedirLine(a, b, Append);
  }

  /** Pipes and lists, for any words; nothing but ";" may follow "&". */
  lemma Compounds(a: string, b: string)
    requires PlainWord(a) && PlainWord(b)
    ensures Means(a + ("|" + b), Pipe(Exec([a]), Exec([b]))) && Means(a + (";" + b), List(Exec([a]), Exec([b])))
    ensures ParseLine(Tokenize(a + ("&" + b))) == Ok(Back(Exec([a])), [Word(b)]) && ParseCmd(a + ("&" + b)) == Panic
  {
    ReadSymbol(a, '|', b);
    ReadSymbol(a, ';', b);
    ReadSymbol(a, '&', b);
    PipeLine(a, b);
    ListLine(a, b);
  }
}
