/** The parser of sh.c with its cursor, and nulterminate on the input buffer. */
module Shell {
  import opened ShellSyntax

  /** A word as the parser records it: from q up to eq. */
  datatype Span = Span(q: nat, eq: nat)

  function Text(s: string, w: Span): (t: string) {
    if w.q <= w.eq <= |s| then s[w.q..w.eq] else []
  }

  /** A whole word of the input: non-empty, and ended by a blank, a symbol or the end. */
  predicate IsWord(s: string, w: Span) {
    && w.q < w.eq <= |s|
    && (forall i :: w.q <= i < w.eq ==> WordChar(s[i]))
    && (w.eq < |s| ==> !WordChar(s[w.eq]))
  }

  function Texts(s: string, ws: seq<Span>): (ts: seq<string>)
    ensures |ts| == |ws|
  {
    seq<string>(|ws|, i requires 0 <= i < |ws| => Text(s, ws[i]))
  }

  function TextOf(s: string, c: Cmd<Span>): (t: Cmd<string>) {
    match c
    case Exec(args) => Exec(Texts(s, args))
    case Redir(d, file, out) => Redir(TextOf(s, d), Text(s, file), out)
    case Pipe(l, r) => Pipe(TextOf(s, l), TextOf(s, r))
    case List(l, r) => List(TextOf(s, l), TextOf(s, r))
    case Back(d) => Back(TextOf(s, d))
  }

  function ArgSpans(args: seq<Span>): (ws: set<Span>) {
    set w | w in args
  }

  function Spans(c: Cmd<Span>): (ws: set<Span>) {
    match c
    case Exec(args) => ArgSpans(args)
    case Redir(d, file, _) => Spans(d) + {file}
    case Pipe(l, r) => Spans(l) + Spans(r)
    case List(l, r) => Spans(l) + Spans(r)
    case Back(d) => Spans(d)
  }

  ghost predicate AllWords(s: string, ws: set<Span>) {
    forall w :: w in ws ==> IsWord(s, w)
  }

  function RedirTexts(s: string, rs: seq<Redirect<Span>>): (r: seq<Redirect<string>>)
    ensures |r| == |rs|
  {
    seq<Redirect<string>>(|rs|, i requires 0 <= i < |rs| => Redirect(Text(s, rs[i].file), rs[i].out))
  }

  function RedirSpans(rs: seq<Redirect<Span>>): (ws: set<Span>) {
    set r | r in rs :: r.file
  }

  lemma {:induction false} WrapTexts(s: string, c: Cmd<Span>, rs: seq<Redirect<Span>>)
    ensures TextOf(s, Wrap(c, rs)) == Wrap(TextOf(s, c), RedirTexts(s, rs))
    ensures Spans(Wrap(c, rs)) == Spans(c) + RedirSpans(rs)
    decreases |rs|
  {
    if rs != [] {
      var d := Redir(c, rs[0].file, rs[0].out);
      WrapTexts(s, d, rs[1..]);
      assert RedirTexts(s, rs)[1..] == RedirTexts(s, rs[1..]);
      assert rs == [rs[0]] + rs[1..];
      assert RedirSpans(rs) == {rs[0].file} + RedirSpans(rs[1..]);
    }
  }

  // ---- Tokens from a position on ----

  lemma SkipStep(s: string, i: nat)
    requires i < |s| && Blank(s[i])
    ensures SkipBlanks(s[i..]) == SkipBlanks(s[i + 1..])
  {
    assert s[i..][0] == s[i] && s[i..][1..] == s[i + 1..];
  }

  lemma {:induction false} TokenizeSkip(s: string)
    ensures SkipBlanks(SkipBlanks(s)) == SkipBlanks(s)
    ensures Tokenize(SkipBlanks(s)) == Tokenize(s)
  {
    if s != [] && Blank(s[0]) {
      TokenizeSkip(s[1..]);
    }
  }

  lemma WordLenStep(s: string, i: nat)
    requires i <= |s|
    ensures WordLen(s[i..]) == if i < |s| && WordChar(s[i]) then 1 + WordLen(s[i + 1..]) else 0
  {
    if i < |s| {
      assert s[i..][0] == s[i] && s[i..][1..] == s[i + 1..];
    }
  }

  /** What gettoken returns: 0, the symbol, '+' for ">>", or 'a' for a word. */
  function Code(ts: seq<Token>): (c: char) {
    if ts == [] then '\0'
    else match ts[0]
         case Word(_) => 'a'
         case Sym(c) => c
         case Append => '+'
  }

  /** What peek sees: the first character of the next token. */
  predicate Peeks(ts: seq<Token>, cs: set<char>) {
    ts != [] && ((ts[0].Sym? && ts[0].c in cs) || (ts[0].Append? && '>' in cs))
  }

  class Parser {
    const s: string
    var ps: nat

    ghost predicate Valid()
      reads this
    {
      ps <= |s|
    }

    ghost function Left(): (ts: seq<Token>)
      requires Valid()
      reads this
    {
      Tokenize(s[ps..])
    }

    constructor (input: string)
      ensures Valid() && s == input && ps == 0
    {
      s := input;
      ps := 0;
    }

    method SkipWhitespace()
      requires Valid()
      modifies this`ps
      ensures Valid() && old(ps) <= ps && Left() == old(Left())
      ensures s[ps..] == SkipBlanks(s[old(ps)..])
    {
      while ps < |s| && Blank(s[ps])
        invariant old(ps) <= ps <= |s|
        invariant SkipBlanks(s[ps..]) == SkipBlanks(s[old(ps)..])
      {
        SkipStep(s, ps);
        ps := ps + 1;
      }
      TokenizeSkip(s[old(ps)..]);
    }

    /** gettoken: takes the next token off the input. */
    method GetToken() returns (ret: char, w: Span)
      requires Valid()
      modifies this`ps
      ensures Valid() && ret == Code(old(Left()))
      ensures (ret == '\0') == (old(Left()) == []) && (ret == 'a') == (old(Left()) != [] && old(Left())[0].Word?)
      ensures Left() == if old(Left()) == [] then [] else old(Left())[1..]
      ensures old(Left()) != [] && old(Left())[0].Word? ==> IsWord(s, w) && Text(s, w) == old(Left())[0].text
    {
      SkipWhitespace();
      var q := ps;
      ret := '\0';
      if ps < |s| {
        assert s[q..][0] == s[q];
        ret := ScanToken(q);
      }
      w := Span(q, ps);
      SkipWhitespace();
    }

    /** The switch of gettoken: the token that starts at q. */
    method ScanToken(q: nat) returns (ret: char)
      requires Valid() && ps == q < |s| && !Blank(s[q]) && s[q..] != [] && !Blank(s[q..][0])
      modifies this`ps
      ensures Valid() && ps == q + Head(s[q..]).1 && s[ps..] == s[q..][Head(s[q..]).1..]
      ensures ret == Code([Head(s[q..]).0]) != '\0' && (ret == 'a') == Head(s[q..]).0.Word?
      ensures ret == 'a' ==> IsWord(s, Span(q, ps)) && Head(s[q..]).0 == Word(s[q..ps])
    {
      ghost var here := s[q..];
      ret := s[ps];
      if ret == '>' {
        ps := ps + 1;
        if ps < |s| && s[ps] == '>' {
          assert here[1] == s[ps];
          ret := '+';
          ps := ps + 1;
        }
      } else if Symbol(ret) {
        ps := ps + 1;
      } else {
        ret := 'a';
        ScanWord(q);
      }
    }

    /** The loop of gettoken over a word. */
    method ScanWord(ghost q: nat)
      requires Valid() && ps == q < |s| && WordChar(s[q])
      modifies this`ps
      ensures Valid() && ps == q + WordLen(s[q..]) && IsWord(s, Span(q, ps))
      ensures s[q..][..ps - q] == s[q..ps]
    {
      while ps < |s| && !Blank(s[ps]) && !Symbol(s[ps])
        invariant q <= ps <= |s|
        invariant forall i :: q <= i < ps ==> WordChar(s[i])
        invariant WordLen(s[q..]) == ps - q + WordLen(s[ps..])
      {
        WordLenStep(s, ps);
        ps := ps + 1;
      }
      WordLenStep(s, ps);
      WordLenStep(s, q);
    }

    /** peek: looks at the next token, and skips the blanks before it. */
    method Peek(cs: set<char>) returns (b: bool)
      requires Valid() && forall c :: c in cs ==> Symbol(c)
      modifies this`ps
      ensures Valid() && Left() == old(Left())
      ensures b == Peeks(Left(), cs) && (ps == |s|) == (Left() == [])
    {
      SkipWhitespace();
      b := ps < |s| && s[ps] in cs;
      if ps < |s| {
        assert s[ps..][0] == s[ps];
        TokenizeSkip(s[old(ps)..]);
        assert Left() == [Head(s[ps..]).0] + Tokenize(s[ps..][Head(s[ps..]).1..]);
      }
    }

    /** A parsed command that reads like r and leaves the tokens that r leaves. */
    ghost predicate Reads(r: Parsed<Cmd<string>>, ok: bool, c: Cmd<Span>)
      requires Valid()
      reads this
    {
      && ok == r.Ok?
      && (ok ==> r.v == TextOf(s, c) && r.rest == Left() && AllWords(s, Spans(c)))
    }

    ghost predicate ReadsRedirs(r: Parsed<seq<Redirect<string>>>, ok: bool, rs: seq<Redirect<Span>>)
      requires Valid()
      reads this
    {
      && ok == r.Ok?
      && (ok ==> r.v == RedirTexts(s, rs) && r.rest == Left() && AllWords(s, RedirSpans(rs)))
    }

    /** One round of parseredirs. */
    method TakeRedir() returns (ok: bool, r: Redirect<Span>)
      requires Valid() && StartsRedir(Left())
      modifies this`ps
      ensures Valid() && ok == RedirNext(old(Left()))
      ensures ok ==> IsWord(s, r.file) && RedirIs(s, r, old(Left())) && Left() == old(Left())[2..]
    {
      var tok, _ := GetToken();
      var kind, w := GetToken();
      ok, r := kind == 'a', Redirect(w, tok != '<');
    }

    /** parseredirs: the redirections that it puts around the command. */
    method ParseRedirs() returns (ok: bool, rs: seq<Redirect<Span>>)
      requires Valid()
      modifies this`ps
      ensures Valid() && ReadsRedirs(Redirs(old(Left())), ok, rs)
    {
      ok, rs := true, [];
      var more := Peek({'<', '>'});
      while more
        invariant Valid() && more == StartsRedir(Left())
        invariant AllWords(s, RedirSpans(rs))
        invariant Redirs(old(Left())) == After(RedirTexts(s, rs), Redirs(Left()))
        decreases |Left()|
      {
        ghost var ts := Left();
        var r;
        ok, r := TakeRedir();
        if !ok {
          return;
        }
        RedirStep(s, rs, r, ts);
        rs := rs + [r];
        more := Peek({'<', '>'});
      }
    }

    /** One round of the argument loop of parseexec. */
    method TakeArg(args: seq<Span>, rs: seq<Redirect<Span>>, ghost goal: Parsed<Cmd<string>>)
      returns (ok: bool, last: bool, args': seq<Span>, rs': seq<Redirect<Span>>)
      requires Valid() && Toward(s, goal, args, rs, Left())
      requires !Starts(Left(), {'|', ')', '&', ';'})
      modifies this`ps
      ensures Valid() && last == (old(Left()) == []) && (last ==> ok && Left() == [])
      ensures !ok ==> goal.Panic?
      ensures ok ==> Toward(s, goal, args', rs', Left()) && (!last ==> |Left()| < |old(Left())|)
    {
      ok, args', rs' := true, args, rs;
      var tok, w := GetToken();
      last := tok == '\0';
      if last {
        return;
      }
      if tok != 'a' || |args| + 1 >= MAXARGS {
        ok := false;
        return;
      }
      args' := args + [w];
      var more;
      ok, more := ParseRedirs();
      if ok {
        rs' := rs + more;
        Gather(s, args, rs, w, more);
      }
    }

    /** The argument loop of parseexec, after the redirections rs0. */
    method ParseArgs(rs0: seq<Redirect<Span>>) returns (ok: bool, c: Cmd<Span>)
      requires Valid() && AllWords(s, RedirSpans(rs0))
      modifies this`ps
      ensures Valid() && Reads(Args([], RedirTexts(s, rs0), old(Left())), ok, c)
    {
      ok, c := true, Exec([]);
      ghost var goal := Args([], RedirTexts(s, rs0), Left());
      var args: seq<Span>, rs, last := [], rs0, false;
      assert Texts(s, args) == [];
      var stop := Peek({'|', ')', '&', ';'});
      while !stop && !last
        invariant Valid() && Toward(s, goal, args, rs, Left())
        invariant stop == Starts(Left(), {'|', ')', '&', ';'}) && (last ==> Left() == [])
        decreases |Left()|, !last
      {
        ok, last, args, rs := TakeArg(args, rs, goal);
        if !ok {
          return;
        }
        stop := Peek({'|', ')', '&', ';'});
      }
      c := Wrap(Exec(args), rs);
      Finished(s, goal, args, rs, Left());
    }

    method ParseExec() returns (ok: bool, c: Cmd<Span>)
      requires Valid()
      modifies this`ps
      ensures Valid() && Reads(ShellSyntax.ParseExec(old(Left())), ok, c)
      decreases |Left()|, 1
    {
      c := Exec([]);
      var block := Peek({'('});
      if block {
        ok, c := ParseBlock();
      } else {
        var rs;
        ok, rs := ParseRedirs();
        if ok {
          ok, c := ParseArgs(rs);
        }
      }
    }

    method ParseBlock() returns (ok: bool, c: Cmd<Span>)
      requires Valid() && Starts(Left(), {'('})
      modifies this`ps
      ensures Valid() && Reads(ShellSyntax.ParseBlock(old(Left())), ok, c)
      decreases |Left()|, 0
    {
      var _, _ := GetToken();
      ok, c := ParseLine();
      if !ok {
        return;
      }
      ok := Peek({')'});
      if !ok {
        return;
      }
      var _, _ := GetToken();
      var rs;
      ok, rs := ParseRedirs();
      WrapTexts(s, c, rs);
      c := Wrap(c, rs);
    }

    method ParsePipe() returns (ok: bool, c: Cmd<Span>)
      requires Valid()
      modifies this`ps
      ensures Valid() && Reads(ShellSyntax.ParsePipe(old(Left())), ok, c)
      decreases |Left()|, 2
    {
      ok, c := ParseExec();
      if !ok {
        return;
      }
      var more := Peek({'|'});
      if more {
        var _, _ := GetToken();
        var right;
        ok, right := ParsePipe();
        c := Pipe(c, right);
      }
    }

    /** The loop of parseline over "&". */
    method ParseBacks(c0: Cmd<Span>) returns (c: Cmd<Span>)
      requires Valid() && AllWords(s, Spans(c0))
      modifies this`ps
      ensures Valid() && AllWords(s, Spans(c))
      ensures (TextOf(s, c), Left()) == Backs(TextOf(s, c0), old(Left()))
    {
      c := c0;
      var more := Peek({'&'});
      while more
        invariant Valid() && AllWords(s, Spans(c)) && more == Starts(Left(), {'&'})
        invariant Backs(TextOf(s, c0), old(Left())) == Backs(TextOf(s, c), Left())
        decreases |Left()|
      {
        var _, _ := GetToken();
        c := Back(c);
        more := Peek({'&'});
      }
    }

    method ParseLine() returns (ok: bool, c: Cmd<Span>)
      requires Valid()
      modifies this`ps
      ensures Valid() && Reads(ShellSyntax.ParseLine(old(Left())), ok, c)
      decreases |Left()|, 3
    {
      ok, c := ParsePipe();
      if !ok {
        return;
      }
      c := ParseBacks(c);
      var more := Peek({';'});
      if more {
        var _, _ := GetToken();
        var right;
        ok, right := ParseLine();
        c := List(c, right);
      }
    }
  }

  /** Arguments and redirections, all of them whole words of the input. */
  ghost predicate Gathered(s: string, args: seq<Span>, rs: seq<Redirect<Span>>) {
    AllWords(s, ArgSpans(args)) && AllWords(s, RedirSpans(rs))
  }

  /** The argument loop at ts, on its way to the result goal. */
  ghost predicate Toward(
    s: string, goal: Parsed<Cmd<string>>, args: seq<Span>, rs: seq<Redirect<Span>>, ts: seq<Token>)
  {
    |args| < MAXARGS && Gathered(s, args, rs) && goal == Args(Texts(s, args), RedirTexts(s, rs), ts)
  }

  lemma Finished(s: string, goal: Parsed<Cmd<string>>, args: seq<Span>, rs: seq<Redirect<Span>>, ts: seq<Token>)
    requires Toward(s, goal, args, rs, ts) && (ts == [] || Starts(ts, {'|', ')', '&', ';'}))
    ensures goal == Ok(TextOf(s, Wrap(Exec(args), rs)), ts) && AllWords(s, Spans(Wrap(Exec(args), rs)))
  {
    WrapTexts(s, Exec(args), rs);
  }

  lemma {:induction false} Gather(
    s: string, args: seq<Span>, rs: seq<Redirect<Span>>, w: Span, more: seq<Redirect<Span>>)
    requires Gathered(s, args, rs) && IsWord(s, w) && AllWords(s, RedirSpans(more))
    ensures Gathered(s, args + [w], rs + more)
    ensures Texts(s, args + [w]) == Texts(s, args) + [Text(s, w)]
    ensures RedirTexts(s, rs + more) == RedirTexts(s, rs) + RedirTexts(s, more)
  {
    forall x | x in RedirSpans(rs + more) ensures IsWord(s, x) {
      var r :| r in rs + more && r.file == x;
      assert r in rs ==> r.file in RedirSpans(rs);
      assert r in more ==> r.file in RedirSpans(more);
    }
    forall x | x in args + [w] ensures IsWord(s, x) {
      assert x in args ==> x in ArgSpans(args);
    }
  }

  /** A redirection that the parser can take: an arrow and a word. */
  predicate RedirNext(ts: seq<Token>) {
    StartsRedir(ts) && |ts| >= 2 && ts[1].Word?
  }

  predicate RedirIs(s: string, r: Redirect<Span>, ts: seq<Token>) {
    RedirNext(ts) && ts[1].text == Text(s, r.file) && r.out == (ts[0] != Sym('<'))
  }

  /** A list of redirections found before the ones of r. */
  function After(rs: seq<Redirect<string>>, r: Parsed<seq<Redirect<string>>>): (q: Parsed<seq<Redirect<string>>>)
    ensures rs == [] ==> q == r
  {
    if r.Panic? then Panic
    else assert [] + r.v == r.v; Ok(rs + r.v, r.rest)
  }

  lemma {:induction false} RedirStep(s: string, rs: seq<Redirect<Span>>, r: Redirect<Span>, ts: seq<Token>)
    requires RedirIs(s, r, ts)
    ensures After(RedirTexts(s, rs), Redirs(ts)) == After(RedirTexts(s, rs + [r]), Redirs(ts[2..]))
    ensures RedirSpans(rs + [r]) == RedirSpans(rs) + {r.file}
  {
    var one := Redirect(Text(s, r.file), r.out);
    assert RedirTexts(s, rs + [r]) == RedirTexts(s, rs) + [one];
    var tail := Redirs(ts[2..]);
    if tail.Ok? {
      assert RedirTexts(s, rs) + ([one] + tail.v) == RedirTexts(s, rs) + [one] + tail.v;
    }
    assert forall x :: x in rs + [r] <==> x in rs || x == r;
    assert (rs + [r])[|rs|] == r;
  }

  // ---- nulterminate ----

  /** The buffer b with NULs put at the positions E. */
  function Terminated(b: string, E: set<nat>): (r: string)
    ensures |r| == |b|
  {
    seq<char>(|b|, i requires 0 <= i < |b| => if i in E then '\0' else b[i])
  }

  function Ends(ws: set<Span>): (E: set<nat>) {
    set w | w in ws :: w.eq
  }

  /** The C string at q. */
  function CString(b: string, q: nat): (t: string)
    decreases |b| - q
  {
    if q >= |b| || b[q] == '\0' then [] else [b[q]] + CString(b, q + 1)
  }

  /** What a command reads through its start pointers alone. */
  function Loaded(b: string, c: Cmd<Span>): (t: Cmd<string>) {
    match c
    case Exec(args) => Exec(seq<string>(|args|, i requires 0 <= i < |args| => CString(b, args[i].q)))
    case Redir(d, file, out) => Redir(Loaded(b, d), CString(b, file.q), out)
    case Pipe(l, r) => Pipe(Loaded(b, l), Loaded(b, r))
    case List(l, r) => List(Loaded(b, l), Loaded(b, r))
    case Back(d) => Back(Loaded(b, d))
  }

  lemma {:induction false} CStringIs(b: string, q: nat, eq: nat)
    requires q <= eq < |b| && b[eq] == '\0'
    requires forall i :: q <= i < eq ==> b[i] != '\0'
    ensures CString(b, q) == b[q..eq]
    decreases eq - q
  {
    if q < eq {
      CStringIs(b, q + 1, eq);
    }
  }

  /** A line of input: the characters s and the NUL that ends them. */
  ghost predicate Line(s: string, b: string) {
    b == s + ['\0'] && '\0' !in s
  }

  /** Ending every word with a NUL cuts none of the words short. */
  lemma WordSurvives(s: string, b: string, ws: set<Span>, w: Span)
    requires Line(s, b) && AllWords(s, ws) && w in ws
    ensures CString(Terminated(b, Ends(ws)), w.q) == Text(s, w)
  {
    var r := Terminated(b, Ends(ws));
    assert w.eq in Ends(ws);
    forall i | w.q <= i < w.eq ensures r[i] == s[i] != '\0' {
      forall x | x in ws ensures x.eq != i {
        assert IsWord(s, x);
      }
      assert i !in Ends(ws);
    }
    CStringIs(r, w.q, w.eq);
    assert r[w.q..w.eq] == s[w.q..w.eq];
  }

  lemma {:induction false} TreeSurvives(s: string, b: string, ws: set<Span>, c: Cmd<Span>)
    requires Line(s, b) && AllWords(s, ws) && Spans(c) <= ws
    ensures Loaded(Terminated(b, Ends(ws)), c) == TextOf(s, c)
    decreases c
  {
    match c
    case Exec(args) =>
      forall i | 0 <= i < |args| ensures CString(Terminated(b, Ends(ws)), args[i].q) == Text(s, args[i]) {
        assert args[i] in Spans(c);
        WordSurvives(s, b, ws, args[i]);
      }
    case Redir(d, file, _) =>
      assert file in Spans(c);
      WordSurvives(s, b, ws, file);
      TreeSurvives(s, b, ws, d);
    case Pipe(l, r) =>
      TreeSurvives(s, b, ws, l);
      TreeSurvives(s, b, ws, r);
    case List(l, r) =>
      TreeSurvives(s, b, ws, l);
      TreeSurvives(s, b, ws, r);
    case Back(d) =>
      TreeSurvives(s, b, ws, d);
  }

  lemma TerminatedTwice(b: string, ws: set<Span>, vs: set<Span>)
    ensures Terminated(Terminated(b, Ends(ws)), Ends(vs)) == Terminated(b, Ends(ws + vs))
  {
    assert Ends(ws + vs) == Ends(ws) + Ends(vs);
  }

  ghost predicate Within(ws: set<Span>, n: nat) {
    forall w :: w in ws ==> w.eq < n
  }

  /** nulterminate: a NUL after every word of the command, and nowhere else. */
  method NulTerminate(buf: array<char>, c: Cmd<Span>)
    requires Within(Spans(c), buf.Length)
    modifies buf
    ensures buf[..] == Terminated(old(buf[..]), Ends(Spans(c)))
    decreases c
  {
    ghost var b := buf[..];
    match c
    case Exec(args) =>
      NulArgs(buf, args);
    case Redir(d, file, _) =>
      assert file in Spans(c);
      NulTerminate(buf, d);
      buf[file.eq] := '\0';
      TerminatedTwice(b, Spans(d), {file});
      assert buf[..] == Terminated(Terminated(b, Ends(Spans(d))), Ends({file}));
    case Pipe(l, r) =>
      NulTerminate(buf, l);
      NulTerminate(buf, r);
      TerminatedTwice(b, Spans(l), Spans(r));
    case List(l, r) =>
      NulTerminate(buf, l);
      NulTerminate(buf, r);
      TerminatedTwice(b, Spans(l), Spans(r));
    case Back(d) =>
      NulTerminate(buf, d);
  }

  /** The loop of nulterminate over the arguments. */
  method NulArgs(buf: array<char>, args: seq<Span>)
    requires Within(ArgSpans(args), buf.Length)
    modifies buf
    ensures buf[..] == Terminated(old(buf[..]), Ends(ArgSpans(args)))
  {
    var i := 0;
    while i < |args|
      invariant 0 <= i <= |args|
      invariant forall k :: 0 <= k < buf.Length ==>
        buf[k] == if exists j :: 0 <= j < i && args[j].eq == k then '\0' else old(buf[k])
    {
      assert args[i] in ArgSpans(args);
      buf[args[i].eq] := '\0';
      i := i + 1;
    }
    forall k: nat | k < buf.Length
      ensures (exists j :: 0 <= j < i && args[j].eq == k) <==> k in Ends(ArgSpans(args)) {
      if j :| 0 <= j < i && args[j].eq == k {
        assert args[j] in ArgSpans(args);
      }
    }
  }

  /** parsecmd on the input buffer: the tree that the grammar gives, read back through the
      terminated strings. */
  method ParseCmd(buf: array<char>) returns (ok: bool, c: Cmd<Span>)
    requires buf.Length > 0 && Line(buf[..buf.Length - 1], buf[..])
    modifies buf
    ensures ok == ShellSyntax.ParseCmd(old(buf[..buf.Length - 1])).Ok?
    ensures ok ==> Loaded(buf[..], c) == ShellSyntax.ParseCmd(old(buf[..buf.Length - 1])).v
    ensures !ok ==> buf[..] == old(buf[..])
  {
    var s := buf[..buf.Length - 1];
    var p := new Parser(s);
    assert s[0..] == s;
    ok, c := p.ParseLine();
    if !ok {
      return;
    }
    var _ := p.Peek({});
    if p.ps != |s| {
      ok := false;
      return;
    }
    TreeSurvives(s, buf[..], Spans(c), c);
    NulTerminate(buf, c);
  }
}
