// The language of sh.c on its own: how a command line is written, with white space
// between its tokens, and what command it stands for.  The parser of module Shell
// accepts exactly the lines of this grammar, and builds what they stand for.
module ShellSyntax {
  import opened Shell

  // ----- tokens -----

  ghost predicate Blank(x: string) {
    forall i :: 0 <= i < |x| ==> x[i] in " \t\r\n\U{0B}"
  }

  ghost predicate IsName(x: string) {
    x != "" && forall i :: 0 <= i < |x| ==> x[i] !in "<|>&;() \t\r\n\U{0B}\0"
  }

  predicate IsOp(x: string) {
    x == "<" || x == ">" || x == ">>" || x == "|" || x == "&" || x == ";" || x == "(" || x == ")"
  }

  // A token and the white space before it.
  datatype Piece = Piece(gap: string, tok: string)

  function Spell(ps: seq<Piece>, end: string): (x: string) {
    if ps == [] then end else ps[0].gap + (ps[0].tok + Spell(ps[1..], end))
  }

  // Without white space between them, the two tokens would read as others.
  ghost predicate Glue(x: string, y: string) {
    (IsName(x) && IsName(y)) || (x == ">" && (y == ">" || y == ">>"))
  }

  ghost predicate PiecesOk(ps: seq<Piece>) {
    ps == [] ||
    (&& Blank(ps[0].gap) && (IsName(ps[0].tok) || IsOp(ps[0].tok))
     && (|ps| > 1 && ps[1].gap == "" ==> !Glue(ps[0].tok, ps[1].tok))
     && PiecesOk(ps[1..]))
  }

  function ToksOf(ps: seq<Piece>): (ts: seq<string>) {
    if ps == [] then [] else [ps[0].tok] + ToksOf(ps[1..])
  }

  // The input is these tokens, with white space between them and at the end.
  ghost predicate Written(s: string, ps: seq<Piece>, end: string, ts: seq<string>) {
    PiecesOk(ps) && Blank(end) && ToksOf(ps) == ts && s == Spell(ps, end)
  }

  // ----- the tokens that gettoken() finds -----

  function Toks(s: Input, p: nat): (ts: seq<string>)
    requires p <= |s|
    decreases |s| - p, 1
  {
    ToksAfter(s, p)
  }

  // The token that gettoken() finds from p on, and those behind it.
  function ToksAfter(s: Input, p: nat): (ts: seq<string>)
    requires p <= |s|
    decreases |s| - p, 0
  {
    var t := GetToken(s, p);
    if t.kind == '\0' then [] else [s[t.lo..t.hi]] + Toks(s, t.next)
  }

  lemma Chars(c: char)
    ensures White(c) <==> c in " \t\r\n\U{0B}"
    ensures WordChar(c) <==> c !in "<|>&;() \t\r\n\U{0B}\0"
    ensures Symbol(c) <==> c in "<|>&;()"
  {
  }

  lemma {:induction false} NameChars(x: string)
    ensures IsWord(x) <==> IsName(x)
  {
    if x != "" {
      Chars(x[0]);
      WordCharsAll(x);
    }
  }

  lemma {:induction false} WordCharsAll(x: string)
    ensures WordChars(x) <==> forall i :: 0 <= i < |x| ==> x[i] !in "<|>&;() \t\r\n\U{0B}\0"
  {
    if x != "" {
      Chars(x[0]);
      WordCharsAll(x[1..]);
      assert forall i :: 0 < i < |x| ==> x[i] == x[1..][i - 1];
      assert forall i :: 0 <= i < |x[1..]| ==> x[1..][i] == x[i + 1];
    }
  }

  // White space does not matter.
  lemma ToksSkip(s: Input, p: nat)
    requires p <= |s|
    ensures Toks(s, SkipWhite(s, p)) == Toks(s, p)
  {
    SkipTwice(s, p);
    assert Toks(s, p) == ToksAfter(s, p) && Toks(s, SkipWhite(s, p)) == ToksAfter(s, SkipWhite(s, p));
  }

  // The first token, and the rest.
  lemma ToksCut(s: Input, p: nat)
    requires p <= |s|
    ensures var t := GetToken(s, p);
      if t.kind == '\0' then Toks(s, p) == []
      else Toks(s, p) != [] && Toks(s, p)[0] == s[t.lo..t.hi] && Toks(s, p)[1..] == Toks(s, t.next)
  {
    assert Toks(s, p) == ToksAfter(s, p);
  }

  // What the first character of a token says about the token.
  lemma LexIs(s: Input, q: nat)
    requires q < |s| && !White(s[q])
    ensures var r, x := Lex(s, q), s[q..Lex(s, q).1];
      && (r.0 == 'a' <==> IsName(x)) && (r.0 != 'a' <==> IsOp(x)) && r.0 != '\0' && x[0] == s[q]
      && (x == ">" || x == ">>" <==> s[q] == '>') && (Symbol(s[q]) && s[q] != '>' ==> x == [s[q]] && r.0 == s[q])
      && (x == "<" <==> s[q] == '<')
  {
    var x := s[q..Lex(s, q).1];
    Chars(s[q]);
    if Symbol(s[q]) {
      if s[q] == '>' && CharAt(s, q + 1) == '>' {
        assert x == ">>";
      } else {
        assert x == [s[q]];
      }
    } else {
      WordEndOk(s, q);
      NameChars(x);
      assert x[0] == s[q];
    }
  }

  // ----- lexing what is written -----

  lemma {:induction false} SkipGap(s: Input, p: nat, n: nat)
    requires p + n <= |s| && Blank(s[p..p + n]) && !White(CharAt(s, p + n))
    ensures SkipWhite(s, p) == p + n
    decreases n
  {
    if n > 0 {
      assert s[p] == s[p..p + n][0];
      Chars(s[p]);
      assert s[p + 1..p + n] == s[p..p + n][1..];
      SkipGap(s, p + 1, n - 1);
    }
  }

  // A spelling begins with white space, with its first token, or is empty.
  lemma SpellStart(ps: seq<Piece>, end: string)
    requires PiecesOk(ps) && Blank(end)
    ensures var x := Spell(ps, end);
      if ps != [] && ps[0].gap == "" then x != "" && x[0] == ps[0].tok[0]
      else if x == "" then ps == [] else White(x[0])
  {
    if ps != [] && ps[0].gap != "" {
      Chars(ps[0].gap[0]);
    } else if ps == [] && end != "" {
      Chars(end[0]);
    }
  }

  // What is at p is read as its tokens.
  lemma {:induction false} LexTrip(s: Input, p: nat, ps: seq<Piece>, end: string)
    requires p <= |s| && s[p..] == Spell(ps, end) && PiecesOk(ps) && Blank(end)
    ensures Toks(s, p) == ToksOf(ps)
    decreases |ps|
  {
    if ps == [] {
      assert s[p..p + |end|] == end;
      SkipGap(s, p, |end|);
    } else {
      var q, e := PieceAt(s, p, ps, end);
      LexTrip(s, e, ps[1..], end);
      ToksSkip(s, e);
      ToksCut(s, p);
    }
  }

  // Where the first token is.
  lemma PieceAt(s: Input, p: nat, ps: seq<Piece>, end: string) returns (q: nat, e: nat)
    requires p <= |s| && s[p..] == Spell(ps, end) && PiecesOk(ps) && Blank(end) && ps != []
    ensures e <= |s| && s[e..] == Spell(ps[1..], end)
    ensures q < e && s[q..e] == ps[0].tok
    ensures var t := GetToken(s, p); t.kind != '\0' && t.lo == q && t.hi == e && t.next == SkipWhite(s, e)
  {
    var gap, tok, rest := ps[0].gap, ps[0].tok, Spell(ps[1..], end);
    q, e := p + |gap|, p + |gap| + |tok|;
    Three(s, p, gap, tok, rest);
    TokenFollows(s, e, tok, ps[1..], end);
    TokenEnds(s, q, e, tok);
    SkipGap(s, p, |gap|);
  }

  lemma TokenFollows(s: Input, e: nat, tok: string, rest: seq<Piece>, end: string)
    requires e <= |s| && s[e..] == Spell(rest, end) && PiecesOk(rest) && Blank(end)
    requires rest != [] && rest[0].gap == "" ==> !Glue(tok, rest[0].tok)
    ensures IsName(tok) ==> !WordChar(CharAt(s, e))
    ensures tok == ">" ==> CharAt(s, e) != '>'
  {
    SpellStart(rest, end);
    assert e < |s| ==> s[e] == s[e..][0];
    Chars(CharAt(s, e));
  }

  lemma Three(s: string, p: nat, x: string, y: string, z: string)
    requires p <= |s| && s[p..] == x + (y + z)
    ensures p + |x| + |y| <= |s| && s[p..p + |x|] == x && s[p + |x|..p + |x| + |y|] == y && s[p + |x| + |y|..] == z
  {
    assert |s[p..]| == |x| + |y| + |z|;
    assert s[p..p + |x|] == s[p..][..|x|];
    assert s[p + |x|..p + |x| + |y|] == s[p..][|x|..][..|y|];
    assert s[p + |x| + |y|..] == s[p..][|x|..][|y|..];
  }

  // A token that nothing glues to is read as it is.
  lemma TokenEnds(s: Input, q: nat, e: nat, tok: string)
    requires q < e <= |s| && s[q..e] == tok && (IsName(tok) || IsOp(tok))
    requires IsName(tok) ==> !WordChar(CharAt(s, e))
    requires tok == ">" ==> CharAt(s, e) != '>'
    ensures Lex(s, q).1 == e && Lex(s, q).0 != '\0' && !White(s[q])
  {
    assert s[q] == tok[0];
    Chars(s[q]);
    if IsName(tok) {
      NameChars(tok);
      assert q + |tok| == e && At(s, q, tok);
      WordEndAt(s, q, tok);
    } else {
      assert tok == ">>" ==> s[q + 1] == tok[1];
    }
  }

  // Every input is tokens with white space between them.
  lemma {:induction false} LexSound(s: Input, p: nat) returns (ps: seq<Piece>, end: string)
    requires p <= |s|
    ensures s[p..] == Spell(ps, end) && PiecesOk(ps) && Blank(end) && ToksOf(ps) == Toks(s, p)
    decreases |s| - p
  {
    var t := GetToken(s, p);
    GapBlank(s, p);
    if t.kind == '\0' {
      ps, end := [], s[p..];
      assert s[p..] == s[p..t.lo];
    } else {
      var rest;
      rest, end := LexSound(s, t.hi);
      ps := [Piece(s[p..t.lo], s[t.lo..t.hi])] + rest;
      OneMore(s, p, ps, rest, end);
      ToksCut(s, p);
      ToksSkip(s, t.hi);
    }
  }

  lemma CutTwice(s: string, p: nat, q: nat, e: nat)
    requires p <= q <= e <= |s|
    ensures s[p..] == s[p..q] + (s[q..e] + s[e..])
  {
  }

  // The token at p before the pieces behind it.
  lemma OneMore(s: Input, p: nat, ps: seq<Piece>, rest: seq<Piece>, end: string)
    requires p <= |s| && GetToken(s, p).kind != '\0' && Blank(s[p..SkipWhite(s, p)])
    requires var t := GetToken(s, p); s[t.hi..] == Spell(rest, end) && ps == [Piece(s[p..t.lo], s[t.lo..t.hi])] + rest
    requires PiecesOk(rest) && Blank(end)
    ensures s[p..] == Spell(ps, end) && PiecesOk(ps) && ToksOf(ps) == [s[GetToken(s, p).lo..GetToken(s, p).hi]] + ToksOf(rest)
  {
    var t := GetToken(s, p);
    LexIs(s, t.lo);
    assert ps[1..] == rest;
    CutTwice(s, p, t.lo, t.hi);
    NotGlued(s, t.lo, t.hi, rest, end);
  }

  lemma {:induction false} GapBlank(s: Input, p: nat)
    requires p <= |s|
    ensures Blank(s[p..SkipWhite(s, p)])
    decreases |s| - p
  {
    if p < |s| && White(s[p]) {
      Chars(s[p]);
      GapBlank(s, p + 1);
      assert s[p..SkipWhite(s, p)] == [s[p]] + s[p + 1..SkipWhite(s, p)];
    }
  }

  lemma NotGlued(s: Input, q: nat, e: nat, rest: seq<Piece>, end: string)
    requires q < e <= |s| && !White(s[q]) && e == Lex(s, q).1
    requires s[e..] == Spell(rest, end) && PiecesOk(rest) && Blank(end)
    ensures rest != [] && rest[0].gap == "" ==> !Glue(s[q..e], rest[0].tok)
  {
    if rest != [] && rest[0].gap == "" {
      SpellStart(rest, end);
      LexIs(s, q);
      assert s[e] == s[e..][0] == rest[0].tok[0];
      Chars(s[e]);
    }
  }

  // ----- the grammar -----

  // `<`, `>` or `>>`, and a file name.
  datatype File = File(op: string, name: string)

  datatype Item = Arg(word: string) | Redirect(file: File)

  // A command with its redirections anywhere among its words, or a block with its
  // redirections behind it.
  datatype Elem = Simple(items: seq<Item>) | Block(line: Line, files: seq<File>)

  datatype Pipeline = Last(e: Elem) | Then(e: Elem, rest: Pipeline)

  // A pipeline and some `&`, and perhaps `;` and another line.
  datatype Line = End(first: Pipeline, backs: nat) | Next(first: Pipeline, backs: nat, rest: Line)

  // ----- how it is written -----

  function FileToks(f: File): (ts: seq<string>) { [f.op, f.name] }

  function FilesToks(fs: seq<File>): (ts: seq<string>) {
    if fs == [] then [] else FileToks(fs[0]) + FilesToks(fs[1..])
  }

  function ItemsToks(items: seq<Item>): (ts: seq<string>) {
    if items == [] then []
    else (match items[0] case Arg(w) => [w] case Redirect(f) => FileToks(f)) + ItemsToks(items[1..])
  }

  function ElemToks(e: Elem): (ts: seq<string>) {
    match e
    case Simple(items) => ItemsToks(items)
    case Block(line, files) => ["("] + (LineToks(line) + ([")"] + FilesToks(files)))
  }

  function PipeToks(p: Pipeline): (ts: seq<string>) {
    match p
    case Last(e) => ElemToks(e)
    case Then(e, rest) => ElemToks(e) + (["|"] + PipeToks(rest))
  }

  function Amps(n: nat): (ts: seq<string>) {
    if n == 0 then [] else ["&"] + Amps(n - 1)
  }

  function LineToks(l: Line): (ts: seq<string>) {
    match l
    case End(first, n) => PipeToks(first) + Amps(n)
    case Next(first, n, rest) => PipeToks(first) + (Amps(n) + ([";"] + LineToks(rest)))
  }

  // ----- what it stands for -----

  function WordsOf(items: seq<Item>): (ws: seq<string>) {
    if items == [] then []
    else (match items[0] case Arg(w) => [w] case Redirect(f) => []) + WordsOf(items[1..])
  }

  function FilesOf(items: seq<Item>): (fs: seq<File>) {
    if items == [] then []
    else (match items[0] case Arg(w) => [] case Redirect(f) => [f]) + FilesOf(items[1..])
  }

  // The redirections in order: the last one is outermost.
  function Redirected(c: Cmd<string>, fs: seq<File>): (r: Cmd<string>) {
    if fs == [] then c
    else
      var f := fs[|fs| - 1];
      Redir(Redirected(c, fs[..|fs| - 1]), f.name, f.op == "<")
  }

  function ElemCmd(e: Elem): (c: Cmd<string>) {
    match e
    case Simple(items) => Redirected(Exec(WordsOf(items)), FilesOf(items))
    case Block(line, files) => Redirected(LineCmd(line), files)
  }

  function PipeCmd(p: Pipeline): (c: Cmd<string>) {
    match p
    case Last(e) => ElemCmd(e)
    case Then(e, rest) => Pipe(ElemCmd(e), PipeCmd(rest))
  }

  function BackCmd(c: Cmd<string>, n: nat): (r: Cmd<string>) {
    if n == 0 then c else Back(BackCmd(c, n - 1))
  }

  function LineCmd(l: Line): (c: Cmd<string>) {
    match l
    case End(first, n) => BackCmd(PipeCmd(first), n)
    case Next(first, n, rest) => List(BackCmd(PipeCmd(first), n), LineCmd(rest))
  }

  // ----- which lines there are -----

  ghost predicate LegalFile(f: File) {
    (f.op == "<" || f.op == ">" || f.op == ">>") && IsName(f.name)
  }

  ghost predicate LegalFiles(fs: seq<File>) {
    fs == [] || (LegalFile(fs[0]) && LegalFiles(fs[1..]))
  }

  ghost predicate LegalItems(items: seq<Item>) {
    items == [] ||
    ((match items[0] case Arg(w) => IsName(w) case Redirect(f) => LegalFile(f)) && LegalItems(items[1..]))
  }

  ghost predicate LegalElem(e: Elem) {
    match e
    case Simple(items) => LegalItems(items) && |WordsOf(items)| < MAXARGS
    case Block(line, files) => LegalLine(line) && LegalFiles(files)
  }

  ghost predicate LegalPipe(p: Pipeline) {
    match p
    case Last(e) => LegalElem(e)
    case Then(e, rest) => LegalElem(e) && LegalPipe(rest)
  }

  ghost predicate LegalLine(l: Line) {
    match l
    case End(first, _) => LegalPipe(first)
    case Next(first, _, rest) => LegalPipe(first) && LegalLine(rest)
  }

  // ----- what a parser finds at p -----

  // The token there is x.
  ghost predicate Sees(ts: seq<string>, x: string) {
    ts != [] && ts[0] == x
  }

  // The parser's result is the command t, and the tokens left are ts.
  ghost predicate Leaves(s: Input, r: Result, t: Cmd<string>, ts: seq<string>) {
    r.Ok? && r.pos <= |s| && Reads(s, r.cmd, t) && Toks(s, r.pos) == ts
  }

  // The character that peek() looks at, from the token.
  lemma PeekIs(s: Input, p: nat)
    requires p <= |s|
    ensures var c, ts := CharAt(s, SkipWhite(s, p)), Toks(s, p);
      && (c == '\0' <==> ts == []) && (c == '<' <==> Sees(ts, "<")) && (c == '>' <==> Sees(ts, ">") || Sees(ts, ">>"))
      && (c == '|' <==> Sees(ts, "|")) && (c == '&' <==> Sees(ts, "&")) && (c == ';' <==> Sees(ts, ";"))
      && (c == '(' <==> Sees(ts, "(")) && (c == ')' <==> Sees(ts, ")"))
  {
    var q := SkipWhite(s, p);
    ToksCut(s, p);
    if q < |s| {
      LexIs(s, q);
    }
  }

  lemma NotOp(x: string)
    requires IsName(x)
    ensures !IsOp(x)
  {
    assert x[0] !in "<|>&;() \t\r\n\U{0B}\0";
  }

  // The first token at p: where it is, and where the next ones are.
  lemma FirstTok(s: Input, p: nat, x: string, ts: seq<string>) returns (t: Token)
    requires p <= |s| && Toks(s, p) == [x] + ts
    ensures t == GetToken(s, p) && t == GetToken(s, SkipWhite(s, p)) && t.lo < t.hi && s[t.lo..t.hi] == x && Toks(s, t.next) == ts
    ensures (t.kind == 'a' <==> IsName(x)) && (t.kind == '<' <==> x == "<")
    ensures IsName(x) || IsOp(x)
    ensures IsName(x) ==> SliceOk(s, Slice(t.lo, t.hi))
  {
    t := GetToken(s, p);
    SkipTwice(s, p);
    ToksCut(s, p);
    assert ([x] + ts)[1..] == ts;
    LexIs(s, t.lo);
    TokenOk(s, p);
    if IsName(x) {
      NotOp(x);
    }
  }

  // A redirection at p, and nothing else.
  lemma FileStep(s: Input, c: Cmd<Slice>, t: Cmd<string>, p: nat, f: File, ts: seq<string>) returns (d: Cmd<Slice>, n: nat)
    requires p <= |s| && Reads(s, c, t) && LegalFile(f) && Toks(s, p) == FileToks(f) + ts
    ensures p < n <= |s| && Toks(s, n) == ts && Reads(s, d, Redir(t, f.name, f.op == "<"))
    ensures Redirs(s, c, p) == Redirs(s, d, n)
  {
    assert FileToks(f) + ts == [f.op] + ([f.name] + ts);
    var o := FirstTok(s, p, f.op, [f.name] + ts);
    var w := FirstTok(s, o.next, f.name, ts);
    PeekIs(s, p);
    d, n := Redir(c, Slice(w.lo, w.hi), o.kind == '<'), w.next;
    ReadsRedir(s, c, t, Slice(w.lo, w.hi), o.kind == '<');
  }

  // The loop of parseexec(), from the redirections before its next test.
  ghost function Loop(s: Input, c: Cmd<Slice>, argc: nat, p: nat): Result
    requires p <= |s|
  {
    var r := Redirs(s, c, p);
    if r.Syntax? then Syntax else Args(s, r.cmd, argc, r.pos)
  }

  lemma {:induction false} AddArgReads(s: Input, c: Cmd<Slice>, ws: seq<string>, fs: seq<File>, w: Slice)
    requires Reads(s, c, Redirected(Exec(ws), fs)) && SliceOk(s, w) && |ws| + 1 < MAXARGS
    ensures Reads(s, AddArg(c, w), Redirected(Exec(ws + [s[w.lo..w.hi]]), fs))
    decreases |fs|
  {
    if fs == [] {
      AddWord(s, c.argv, w);
    } else {
      AddArgReads(s, c.cmd, ws, fs[..|fs| - 1], w);
    }
  }

  lemma ArgStep(s: Input, c: Cmd<Slice>, ws: seq<string>, fs: seq<File>, argc: nat, p: nat, x: string, ts: seq<string>)
      returns (d: Cmd<Slice>, n: nat)
    requires p <= |s| && Reads(s, c, Redirected(Exec(ws), fs)) && argc == |ws| && argc + 1 < MAXARGS
    requires IsName(x) && Toks(s, p) == [x] + ts
    ensures p < n <= |s| && Toks(s, n) == ts && Reads(s, d, Redirected(Exec(ws + [x]), fs))
    ensures Loop(s, c, argc, p) == Loop(s, d, argc + 1, n)
  {
    var t := FirstTok(s, p, x, ts);
    NotOp(x);
    PeekIs(s, p);
    var q := SkipWhite(s, p);
    SkipTwice(s, p);
    assert Redirs(s, c, p) == Ok(c, q);
    d, n := AddArg(c, Slice(t.lo, t.hi)), t.next;
    assert Args(s, c, argc, q) == NextArg(s, c, argc, q);
    assert NextArg(s, c, argc, q) == Loop(s, d, argc + 1, n);
    AddArgReads(s, c, ws, fs, Slice(t.lo, t.hi));
  }

  // What can follow a simple command.
  ghost predicate AfterArgs(ts: seq<string>) {
    ts == [] || ts[0] == "|" || ts[0] == ")" || ts[0] == "&" || ts[0] == ";"
  }

  lemma LoopEnd(s: Input, c: Cmd<Slice>, t: Cmd<string>, argc: nat, p: nat)
    requires p <= |s| && Reads(s, c, t) && AfterArgs(Toks(s, p))
    ensures Leaves(s, Loop(s, c, argc, p), t, Toks(s, p))
  {
    PeekIs(s, p);
    SkipTwice(s, p);
    ToksSkip(s, p);
  }

  lemma OneRedirected(t: Cmd<string>, fs: seq<File>, f: File)
    ensures Redirected(t, fs + [f]) == Redir(Redirected(t, fs), f.name, f.op == "<")
  {
    assert (fs + [f])[..|fs + [f]| - 1] == fs;
  }

  lemma ItemsArg(items: seq<Item>, ws: seq<string>, fs: seq<File>, ts: seq<string>)
    requires items != [] && items[0].Arg?
    ensures var w, rest := items[0].word, items[1..];
      && ItemsToks(items) + ts == [w] + (ItemsToks(rest) + ts)
      && ws + WordsOf(items) == ws + [w] + WordsOf(rest) && FilesOf(items) == FilesOf(rest)
      && |WordsOf(items)| == |WordsOf(rest)| + 1
  {
  }

  lemma ItemsFile(items: seq<Item>, ws: seq<string>, fs: seq<File>, ts: seq<string>)
    requires items != [] && items[0].Redirect?
    ensures var f, rest := items[0].file, items[1..];
      && ItemsToks(items) + ts == FileToks(f) + (ItemsToks(rest) + ts)
      && fs + FilesOf(items) == fs + [f] + FilesOf(rest) && WordsOf(items) == WordsOf(rest)
  {
  }

  // What is built from the items once ws and fs have been seen.
  ghost predicate Builds(t: Cmd<string>, ws: seq<string>, fs: seq<File>, items: seq<Item>) {
    t == Redirected(Exec(ws + WordsOf(items)), fs + FilesOf(items))
  }

  // The items of a simple command are parsed to its words and redirections: r is
  // what the loop gives.
  lemma {:induction false} ItemsTrip(s: Input, c: Cmd<Slice>, ws: seq<string>, fs: seq<File>, argc: nat, p: nat, items: seq<Item>,
      ts: seq<string>, r: Result, t: Cmd<string>)
    requires p <= |s| && Reads(s, c, Redirected(Exec(ws), fs)) && argc == |ws| && argc + |WordsOf(items)| < MAXARGS
    requires LegalItems(items) && Toks(s, p) == ItemsToks(items) + ts && AfterArgs(ts)
    requires r == Loop(s, c, argc, p) && Builds(t, ws, fs, items)
    ensures Leaves(s, r, t, ts)
    decreases |items|, 1
  {
    if items == [] {
      NoItems(s, c, ws, fs, argc, p, ts, t);
    } else if items[0].Arg? {
      ArgTrip(s, c, ws, fs, argc, p, items, ts, r, t);
    } else {
      RedirectTrip(s, c, ws, fs, argc, p, items, ts, r, t);
    }
  }

  lemma ArgTrip(s: Input, c: Cmd<Slice>, ws: seq<string>, fs: seq<File>, argc: nat, p: nat, items: seq<Item>,
      ts: seq<string>, r: Result, t: Cmd<string>)
    requires p <= |s| && Reads(s, c, Redirected(Exec(ws), fs)) && argc == |ws| && argc + |WordsOf(items)| < MAXARGS
    requires LegalItems(items) && Toks(s, p) == ItemsToks(items) + ts && AfterArgs(ts)
    requires r == Loop(s, c, argc, p) && Builds(t, ws, fs, items) && items != [] && items[0].Arg?
    ensures Leaves(s, r, t, ts)
    decreases |items|, 0
  {
    var w, rest := items[0].word, items[1..];
    ItemsArg(items, ws, fs, ts);
    BuildsArg(t, ws, fs, items, ws + [w], rest);
    var d, n := ArgStep(s, c, ws, fs, argc, p, w, ItemsToks(rest) + ts);
    ItemsTrip(s, d, ws + [w], fs, argc + 1, n, rest, ts, r, t);
  }

  lemma BuildsArg(t: Cmd<string>, ws: seq<string>, fs: seq<File>, items: seq<Item>, vs: seq<string>, rest: seq<Item>)
    requires items != [] && items[0].Arg? && Builds(t, ws, fs, items) && vs == ws + [items[0].word] && rest == items[1..]
    ensures Builds(t, vs, fs, rest) && |vs| == |ws| + 1 && |WordsOf(items)| == |WordsOf(rest)| + 1
  {
    ItemsArg(items, ws, fs, []);
  }

  lemma RedirectTrip(s: Input, c: Cmd<Slice>, ws: seq<string>, fs: seq<File>, argc: nat, p: nat, items: seq<Item>,
      ts: seq<string>, r: Result, t: Cmd<string>)
    requires p <= |s| && Reads(s, c, Redirected(Exec(ws), fs)) && argc == |ws| && argc + |WordsOf(items)| < MAXARGS
    requires LegalItems(items) && Toks(s, p) == ItemsToks(items) + ts && AfterArgs(ts)
    requires r == Loop(s, c, argc, p) && Builds(t, ws, fs, items) && items != [] && items[0].Redirect?
    ensures Leaves(s, r, t, ts)
    decreases |items|, 0
  {
    ItemsFile(items, ws, fs, ts);
    var d, n := RedirectStep(s, c, ws, fs, argc, p, items[0].file, ItemsToks(items[1..]) + ts);
    ItemsTrip(s, d, ws, fs + [items[0].file], argc, n, items[1..], ts, r, t);
  }

  lemma NoItems(s: Input, c: Cmd<Slice>, ws: seq<string>, fs: seq<File>, argc: nat, p: nat, ts: seq<string>, t: Cmd<string>)
    requires p <= |s| && Reads(s, c, Redirected(Exec(ws), fs)) && Toks(s, p) == [] + ts && AfterArgs(ts) && Builds(t, ws, fs, [])
    ensures Leaves(s, Loop(s, c, argc, p), t, ts)
  {
    assert ws + [] == ws && fs + [] == fs && [] + ts == ts;
    LoopEnd(s, c, t, argc, p);
  }

  // A redirection among the words.
  lemma RedirectStep(s: Input, c: Cmd<Slice>, ws: seq<string>, fs: seq<File>, argc: nat, p: nat, f: File, ts: seq<string>)
      returns (d: Cmd<Slice>, n: nat)
    requires p <= |s| && Reads(s, c, Redirected(Exec(ws), fs)) && LegalFile(f) && Toks(s, p) == FileToks(f) + ts
    ensures p < n <= |s| && Toks(s, n) == ts && Reads(s, d, Redirected(Exec(ws), fs + [f]))
    ensures Loop(s, c, argc, p) == Loop(s, d, argc, n)
  {
    d, n := FileStep(s, c, Redirected(Exec(ws), fs), p, f, ts);
    OneRedirected(Exec(ws), fs, f);
  }

  lemma {:induction false} FilesTrip(s: Input, c: Cmd<Slice>, t: Cmd<string>, done: seq<File>, p: nat, fs: seq<File>, ts: seq<string>,
      r: Result, all: seq<File>)
    requires p <= |s| && Reads(s, c, Redirected(t, done)) && LegalFiles(fs) && Toks(s, p) == FilesToks(fs) + ts
    requires !Sees(ts, "<") && !Sees(ts, ">") && !Sees(ts, ">>")
    requires r == Redirs(s, c, p) && all == done + fs
    ensures Leaves(s, r, Redirected(t, all), ts)
    decreases |fs|
  {
    if fs == [] {
      assert all == done && [] + ts == ts;
      PeekIs(s, p);
      ToksSkip(s, p);
    } else {
      FilesCut(fs, done, ts);
      var d, n := FileStep(s, c, Redirected(t, done), p, fs[0], FilesToks(fs[1..]) + ts);
      OneRedirected(t, done, fs[0]);
      FilesTrip(s, d, t, done + [fs[0]], n, fs[1..], ts, r, all);
    }
  }

  lemma FilesCut(fs: seq<File>, done: seq<File>, ts: seq<string>)
    requires fs != []
    ensures FilesToks(fs) + ts == FileToks(fs[0]) + (FilesToks(fs[1..]) + ts)
    ensures done + fs == done + [fs[0]] + fs[1..]
  {
    Regroup(FileToks(fs[0]), FilesToks(fs[1..]), ts);
    Regroup(done, [fs[0]], fs[1..]);
    assert fs == [fs[0]] + fs[1..];
  }

  lemma RegroupThree<T>(w: seq<T>, x: seq<T>, y: seq<T>, z: seq<T>)
    ensures (w + (x + y)) + z == w + (x + (y + z))
  {
  }

  lemma RegroupFour<T>(v: seq<T>, w: seq<T>, x: seq<T>, y: seq<T>, z: seq<T>)
    ensures (v + (w + (x + y))) + z == v + (w + (x + (y + z)))
  {
    RegroupThree(w, x, y, z);
  }

  lemma Regroup<T>(x: seq<T>, y: seq<T>, z: seq<T>)
    ensures (x + y) + z == x + (y + z)
  {
  }

  // ----- parsing what is written -----

  // An operator of one character at p, and the cursor behind it.
  lemma OpStep(s: Input, p: nat, x: string, ts: seq<string>) returns (n: nat)
    requires p <= |s| && Toks(s, p) == [x] + ts
    ensures p < n <= |s| && Toks(s, n) == ts && n == GetToken(s, p).next == GetToken(s, SkipWhite(s, p)).next
  {
    var t := FirstTok(s, p, x, ts);
    n := t.next;
  }

  lemma SimpleStart(s: Input, p: nat)
    requires p <= |s| && !Sees(Toks(s, p), "(")
    ensures ParseExec(s, p) == Loop(s, Exec([]), 0, SkipWhite(s, p))
  {
    PeekIs(s, p);
  }

  lemma NoBlock(items: seq<Item>, ts: seq<string>)
    requires LegalItems(items) && AfterArgs(ts)
    ensures !Sees(ItemsToks(items) + ts, "(")
  {
    if items != [] && items[0].Arg? {
      NotOp(items[0].word);
    }
  }

  lemma SimpleTrip(s: Input, p: nat, items: seq<Item>, ts: seq<string>)
    requires p <= |s| && LegalItems(items) && |WordsOf(items)| < MAXARGS
    requires Toks(s, p) == ItemsToks(items) + ts && AfterArgs(ts)
    ensures Leaves(s, ParseExec(s, p), Redirected(Exec(WordsOf(items)), FilesOf(items)), ts)
  {
    NoBlock(items, ts);
    SimpleStart(s, p);
    ToksSkip(s, p);
    assert [] + WordsOf(items) == WordsOf(items) && [] + FilesOf(items) == FilesOf(items);
    ItemsTrip(s, Exec([]), [], [], 0, SkipWhite(s, p), items, ts, ParseExec(s, p), Redirected(Exec(WordsOf(items)), FilesOf(items)));
  }

  // A block, its command at n and the redirections behind it.
  lemma BlockStart(s: Input, p: nat, ts: seq<string>) returns (n: nat)
    requires p <= |s| && Toks(s, p) == ["("] + ts
    ensures p < n <= |s| && Toks(s, n) == ts
    ensures var r := ParseLine(s, n); ParseExec(s, p) == if r.Syntax? then Syntax else CloseBlock(s, r.cmd, r.pos)
  {
    n := OpStep(s, p, "(", ts);
    PeekIs(s, p);
    SkipTwice(s, p);
  }

  lemma CloseTrip(s: Input, c: Cmd<Slice>, t: Cmd<string>, p: nat, fs: seq<File>, ts: seq<string>)
    requires p <= |s| && Reads(s, c, t) && LegalFiles(fs) && Toks(s, p) == [")"] + (FilesToks(fs) + ts) && AfterArgs(ts)
    ensures Leaves(s, CloseBlock(s, c, p), Redirected(t, fs), ts)
  {
    var n := OpStep(s, p, ")", FilesToks(fs) + ts);
    PeekIs(s, p);
    assert [] + fs == fs;
    FilesTrip(s, c, t, [], n, fs, ts, CloseBlock(s, c, p), fs);
  }

  lemma ElemTrip(s: Input, p: nat, e: Elem, ts: seq<string>)
    requires p <= |s| && LegalElem(e) && Toks(s, p) == ElemToks(e) + ts && AfterArgs(ts)
    ensures Leaves(s, ParseExec(s, p), ElemCmd(e), ts)
    decreases e, 0
  {
    if e.Simple? {
      SimpleTrip(s, p, e.items, ts);
    } else {
      BlockTrip(s, p, e, e.line, e.files, ts);
    }
  }

  lemma BlockTrip(s: Input, p: nat, e: Elem, line: Line, files: seq<File>, ts: seq<string>)
    requires e == Block(line, files) && LegalLine(line) && LegalFiles(files)
    requires p <= |s| && Toks(s, p) == ElemToks(e) + ts && AfterArgs(ts)
    ensures Leaves(s, ParseExec(s, p), Redirected(LineCmd(line), files), ts)
    decreases line, 3
  {
    var behind := [")"] + (FilesToks(files) + ts);
    RegroupFour(["("], LineToks(line), [")"], FilesToks(files), ts);
    var n := BlockStart(s, p, LineToks(line) + behind);
    LineTrip(s, n, line, behind);
    var r := ParseLine(s, n);
    CloseTrip(s, r.cmd, LineCmd(line), r.pos, files, ts);
  }

  // What can follow a pipeline, or a line.
  ghost predicate AfterPipe(ts: seq<string>) {
    ts == [] || ts[0] == ")" || ts[0] == "&" || ts[0] == ";"
  }

  ghost predicate AfterLine(ts: seq<string>) {
    ts == [] || ts[0] == ")"
  }

  lemma PipeEnds(s: Input, p: nat, t: Cmd<string>, ts: seq<string>)
    requires p <= |s| && Leaves(s, ParseExec(s, p), t, ts) && !Sees(ts, "|")
    ensures Leaves(s, ParsePipe(s, p), t, ts)
  {
    PeekIs(s, ParseExec(s, p).pos);
    ToksSkip(s, ParseExec(s, p).pos);
  }

  lemma PipeGoesOn(s: Input, p: nat, t: Cmd<string>, ts: seq<string>) returns (n: nat)
    requires p <= |s| && Leaves(s, ParseExec(s, p), t, ["|"] + ts)
    ensures p < n <= |s| && Toks(s, n) == ts
    ensures var l, r := ParseExec(s, p), ParsePipe(s, n);
      ParsePipe(s, p) == if r.Syntax? then Syntax else Ok(Pipe(l.cmd, r.cmd), r.pos)
  {
    n := OpStep(s, ParseExec(s, p).pos, "|", ts);
    PeekIs(s, ParseExec(s, p).pos);
  }

  lemma PipeTrip(s: Input, p: nat, l: Pipeline, ts: seq<string>)
    requires p <= |s| && LegalPipe(l) && Toks(s, p) == PipeToks(l) + ts && AfterPipe(ts)
    ensures Leaves(s, ParsePipe(s, p), PipeCmd(l), ts)
    decreases l, 1
  {
    if l.Last? {
      ElemTrip(s, p, l.e, ts);
      PipeEnds(s, p, ElemCmd(l.e), ts);
    } else {
      var behind := PipeToks(l.rest) + ts;
      RegroupThree(ElemToks(l.e), ["|"], PipeToks(l.rest), ts);
      ElemTrip(s, p, l.e, ["|"] + behind);
      var n := PipeGoesOn(s, p, ElemCmd(l.e), behind);
      PipeTrip(s, n, l.rest, ts);
    }
  }

  lemma {:induction false} BackShift(t: Cmd<string>, n: nat)
    ensures BackCmd(Back(t), n) == BackCmd(t, n + 1)
  {
    if n > 0 {
      BackShift(t, n - 1);
    }
  }

  lemma AmpsSeen(n: nat, ts: seq<string>)
    requires !Sees(ts, "&")
    ensures Sees(Amps(n) + ts, "&") <==> n > 0
    ensures n == 0 ==> Amps(n) + ts == ts
  {
    if n == 0 {
      assert Amps(n) + ts == ts;
    }
  }

  lemma {:induction false} AmpsUnique(m: nat, n: nat, x: seq<string>, y: seq<string>)
    requires Amps(m) + x == Amps(n) + y && !Sees(x, "&") && !Sees(y, "&")
    ensures m == n && x == y
  {
    AmpsSeen(m, x);
    AmpsSeen(n, y);
    if m > 0 {
      assert (Amps(m) + x)[1..] == Amps(m - 1) + x && (Amps(n) + y)[1..] == Amps(n - 1) + y;
      AmpsUnique(m - 1, n - 1, x, y);
    }
  }

  lemma BacksTrip(s: Input, c: Cmd<Slice>, t: Cmd<string>, p: nat, n: nat, ts: seq<string>)
    requires p <= |s| && Reads(s, c, t) && Toks(s, p) == Amps(n) + ts && !Sees(ts, "&")
    ensures Leaves(s, Backs(s, c, p), BackCmd(t, n), ts)
  {
    var r := Backs(s, c, p);
    var m, u := BacksSound(s, c, t, p, r);
    PeekIs(s, r.pos);
    AmpsUnique(m, n, Toks(s, r.pos), ts);
  }

  // The first pipeline of a line and the `&` behind it.
  ghost function First(s: Input, p: nat): Result
    requires p <= |s|
  {
    var l := ParsePipe(s, p);
    if l.Syntax? then Syntax else Backs(s, l.cmd, l.pos)
  }

  lemma FirstTrip(s: Input, p: nat, first: Pipeline, n: nat, ts: seq<string>)
    requires p <= |s| && LegalPipe(first) && Toks(s, p) == PipeToks(first) + (Amps(n) + ts)
    requires AfterPipe(ts) && !Sees(ts, "&")
    ensures Leaves(s, First(s, p), BackCmd(PipeCmd(first), n), ts)
    decreases first, 2
  {
    PipeTrip(s, p, first, Amps(n) + ts);
    var l := ParsePipe(s, p);
    BacksTrip(s, l.cmd, PipeCmd(first), l.pos, n, ts);
  }

  lemma LineEnds(s: Input, p: nat, t: Cmd<string>, ts: seq<string>)
    requires p <= |s| && Leaves(s, First(s, p), t, ts) && !Sees(ts, ";")
    ensures Leaves(s, ParseLine(s, p), t, ts)
  {
    PeekIs(s, First(s, p).pos);
  }

  lemma LineGoesOn(s: Input, p: nat, t: Cmd<string>, ts: seq<string>) returns (n: nat)
    requires p <= |s| && Leaves(s, First(s, p), t, [";"] + ts)
    ensures p < n <= |s| && Toks(s, n) == ts
    ensures var b, r := First(s, p), ParseLine(s, n);
      ParseLine(s, p) == if r.Syntax? then Syntax else Ok(List(b.cmd, r.cmd), r.pos)
  {
    n := OpStep(s, First(s, p).pos, ";", ts);
    PeekIs(s, First(s, p).pos);
  }

  lemma LineTrip(s: Input, p: nat, l: Line, ts: seq<string>)
    requires p <= |s| && LegalLine(l) && Toks(s, p) == LineToks(l) + ts && AfterLine(ts)
    ensures Leaves(s, ParseLine(s, p), LineCmd(l), ts)
    decreases l, 2
  {
    match l {
      case End(first, n) =>
        Regroup(PipeToks(first), Amps(n), ts);
        FirstTrip(s, p, first, n, ts);
        LineEnds(s, p, LineCmd(l), ts);
      case Next(first, n, rest) =>
        RegroupFour(PipeToks(first), Amps(n), [";"], LineToks(rest), ts);
        NextTrip(s, p, first, n, rest, ts);
    }
  }

  lemma NextTrip(s: Input, p: nat, first: Pipeline, n: nat, rest: Line, ts: seq<string>)
    requires p <= |s| && LegalPipe(first) && LegalLine(rest) && AfterLine(ts)
    requires Toks(s, p) == PipeToks(first) + (Amps(n) + ([";"] + (LineToks(rest) + ts)))
    ensures Leaves(s, ParseLine(s, p), List(BackCmd(PipeCmd(first), n), LineCmd(rest)), ts)
    decreases Next(first, n, rest), 1
  {
    var behind, t := LineToks(rest) + ts, BackCmd(PipeCmd(first), n);
    FirstTrip(s, p, first, n, [";"] + behind);
    var q := LineGoesOn(s, p, t, behind);
    LineTrip(s, q, rest, ts);
    ListReads(s, First(s, p).cmd, t, ParseLine(s, q).cmd, LineCmd(rest));
  }

  lemma ListReads(s: Input, c: Cmd<Slice>, t: Cmd<string>, d: Cmd<Slice>, u: Cmd<string>)
    requires Reads(s, c, t) && Reads(s, d, u)
    ensures Reads(s, List(c, d), List(t, u))
  {
  }

  // ----- what the parser accepts -----

  // The parser's result is the command t, and it has taken the tokens ts.
  ghost predicate Takes(s: Input, p: nat, r: Result, ts: seq<string>, t: Cmd<string>)
    requires p <= |s|
  {
    r.Ok? && p <= r.pos <= |s| && Reads(s, r.cmd, t) && Toks(s, p) == ts + Toks(s, r.pos)
  }

  ghost predicate SeesRedir(ts: seq<string>) {
    Sees(ts, "<") || Sees(ts, ">") || Sees(ts, ">>")
  }

  lemma RedirsWord(s: Input, c: Cmd<Slice>, p: nat, n: nat)
    requires p <= |s| && SeesRedir(Toks(s, p)) && Redirs(s, c, p).Ok?
    requires n == GetToken(s, SkipWhite(s, p)).next
    ensures GetToken(s, n).kind == 'a'
  {
    PeekIs(s, p);
  }

  lemma HeadTail(ts: seq<string>)
    requires ts != []
    ensures ts == [ts[0]] + ts[1..]
  {
  }

  lemma FileFound(s: Input, c: Cmd<Slice>, p: nat) returns (f: File, ts: seq<string>)
    requires p <= |s| && SeesRedir(Toks(s, p)) && Redirs(s, c, p).Ok?
    ensures LegalFile(f) && Toks(s, p) == FileToks(f) + ts
  {
    var x := Toks(s, p);
    HeadTail(x);
    var o := FirstTok(s, p, x[0], x[1..]);
    RedirsWord(s, c, p, o.next);
    ToksCut(s, o.next);
    HeadTail(x[1..]);
    var w := FirstTok(s, o.next, x[1], x[2..]);
    f, ts := File(x[0], x[1]), x[2..];
    assert x == [x[0], x[1]] + x[2..];
  }

  lemma ArgFound(s: Input, c: Cmd<Slice>, argc: nat, p: nat)
    requires p <= |s| && !SeesRedir(Toks(s, p)) && !AfterArgs(Toks(s, p)) && Loop(s, c, argc, p).Ok?
    ensures IsName(Toks(s, p)[0]) && argc + 1 < MAXARGS
  {
    PeekIs(s, p);
    var t := FirstTok(s, p, Toks(s, p)[0], Toks(s, p)[1..]);
    var q := SkipWhite(s, p);
    SkipTwice(s, p);
    assert Redirs(s, c, p) == Ok(c, q);
    assert Args(s, c, argc, q) == NextArg(s, c, argc, q);
  }

  // The loop takes the items of a simple command.
  lemma {:induction false} ItemsSound(s: Input, c: Cmd<Slice>, ws: seq<string>, fs: seq<File>, argc: nat, p: nat, r: Result)
      returns (items: seq<Item>, t: Cmd<string>)
    requires p <= |s| && Reads(s, c, Redirected(Exec(ws), fs)) && argc == |ws| < MAXARGS && r == Loop(s, c, argc, p) && r.Ok?
    ensures LegalItems(items) && argc + |WordsOf(items)| < MAXARGS && Builds(t, ws, fs, items) && Takes(s, p, r, ItemsToks(items), t)
    decreases |s| - p, 1
  {
    if AfterArgs(Toks(s, p)) {
      items, t := [], Redirected(Exec(ws + WordsOf([])), fs + FilesOf([]));
      NoItems(s, c, ws, fs, argc, p, Toks(s, p), t);
    } else if SeesRedir(Toks(s, p)) {
      items, t := RedirectSound(s, c, ws, fs, argc, p, r);
    } else {
      items, t := ArgSound(s, c, ws, fs, argc, p, r);
    }
  }

  lemma RedirectSound(s: Input, c: Cmd<Slice>, ws: seq<string>, fs: seq<File>, argc: nat, p: nat, r: Result)
      returns (items: seq<Item>, t: Cmd<string>)
    requires p <= |s| && Reads(s, c, Redirected(Exec(ws), fs)) && argc == |ws| < MAXARGS && r == Loop(s, c, argc, p) && r.Ok?
    requires SeesRedir(Toks(s, p))
    ensures LegalItems(items) && argc + |WordsOf(items)| < MAXARGS && Builds(t, ws, fs, items) && Takes(s, p, r, ItemsToks(items), t)
    decreases |s| - p, 0
  {
    var f, ts := FileFound(s, c, p);
    var d, n := RedirectStep(s, c, ws, fs, argc, p, f, ts);
    var rest;
    rest, t := ItemsSound(s, d, ws, fs + [f], argc, n, r);
    items := [Redirect(f)] + rest;
    ItemsFile(items, ws, fs, Toks(s, r.pos));
  }

  lemma ArgSound(s: Input, c: Cmd<Slice>, ws: seq<string>, fs: seq<File>, argc: nat, p: nat, r: Result)
      returns (items: seq<Item>, t: Cmd<string>)
    requires p <= |s| && Reads(s, c, Redirected(Exec(ws), fs)) && argc == |ws| < MAXARGS && r == Loop(s, c, argc, p) && r.Ok?
    requires !SeesRedir(Toks(s, p)) && !AfterArgs(Toks(s, p))
    ensures LegalItems(items) && argc + |WordsOf(items)| < MAXARGS && Builds(t, ws, fs, items) && Takes(s, p, r, ItemsToks(items), t)
    decreases |s| - p, 0
  {
    ArgFound(s, c, argc, p);
    var x, ts := Toks(s, p)[0], Toks(s, p)[1..];
    HeadTail(Toks(s, p));
    var d, n := ArgStep(s, c, ws, fs, argc, p, x, ts);
    var rest;
    rest, t := ItemsSound(s, d, ws + [x], fs, argc + 1, n, r);
    items := [Arg(x)] + rest;
    ItemsArg(items, ws, fs, Toks(s, r.pos));
  }

  lemma {:induction false} FilesSound(s: Input, c: Cmd<Slice>, t: Cmd<string>, done: seq<File>, p: nat, r: Result)
      returns (fs: seq<File>, all: seq<File>)
    requires p <= |s| && Reads(s, c, Redirected(t, done)) && r == Redirs(s, c, p) && r.Ok?
    ensures LegalFiles(fs) && all == done + fs && Takes(s, p, r, FilesToks(fs), Redirected(t, all))
    decreases |s| - p
  {
    if SeesRedir(Toks(s, p)) {
      var f, ts := FileFound(s, c, p);
      var d, n := FileStep(s, c, Redirected(t, done), p, f, ts);
      OneRedirected(t, done, f);
      var rest;
      rest, all := FilesSound(s, d, t, done + [f], n, r);
      fs := [f] + rest;
      FilesCut(fs, done, Toks(s, r.pos));
    } else {
      fs, all := [], done;
      PeekIs(s, p);
      ToksSkip(s, p);
      assert done + fs == done;
    }
  }

  lemma ElemSound(s: Input, p: nat) returns (e: Elem)
    requires p <= |s| && ParseExec(s, p).Ok?
    ensures LegalElem(e) && Takes(s, p, ParseExec(s, p), ElemToks(e), ElemCmd(e))
    decreases |s| - p, 1
  {
    if Sees(Toks(s, p), "(") {
      e := BlockSound(s, p, Toks(s, p)[1..]);
    } else {
      SimpleStart(s, p);
      ToksSkip(s, p);
      var items, t := ItemsSound(s, Exec([]), [], [], 0, SkipWhite(s, p), ParseExec(s, p));
      assert [] + WordsOf(items) == WordsOf(items) && [] + FilesOf(items) == FilesOf(items);
      e := Simple(items);
    }
  }

  lemma BlockSound(s: Input, p: nat, ts: seq<string>) returns (e: Elem)
    requires p <= |s| && Toks(s, p) == ["("] + ts && ParseExec(s, p).Ok?
    ensures LegalElem(e) && Takes(s, p, ParseExec(s, p), ElemToks(e), ElemCmd(e))
    decreases |s| - p, 0
  {
    var n := BlockStart(s, p, ts);
    var r := ParseLine(s, n);
    var line := LineSound(s, n);
    var fs := CloseSound(s, r.cmd, LineCmd(line), r.pos);
    e := Block(line, fs);
    RegroupFour(["("], LineToks(line), [")"], FilesToks(fs), Toks(s, ParseExec(s, p).pos));
  }

  lemma CloseSound(s: Input, c: Cmd<Slice>, t: Cmd<string>, p: nat) returns (fs: seq<File>)
    requires p <= |s| && Reads(s, c, t) && CloseBlock(s, c, p).Ok?
    ensures var r := CloseBlock(s, c, p);
      && LegalFiles(fs) && r.pos <= |s|
      && Toks(s, p) == [")"] + (FilesToks(fs) + Toks(s, r.pos)) && Reads(s, r.cmd, Redirected(t, fs))
  {
    PeekIs(s, p);
    var n := OpStep(s, p, ")", Toks(s, p)[1..]);
    var all;
    fs, all := FilesSound(s, c, t, [], n, CloseBlock(s, c, p));
    assert [] + fs == fs;
  }

  lemma PipeSound(s: Input, p: nat) returns (l: Pipeline)
    requires p <= |s| && ParsePipe(s, p).Ok?
    ensures LegalPipe(l) && Takes(s, p, ParsePipe(s, p), PipeToks(l), PipeCmd(l))
    decreases |s| - p, 2
  {
    var e := ElemSound(s, p);
    var x := ParseExec(s, p);
    var behind := Toks(s, x.pos);
    if Sees(behind, "|") {
      var n := PipeGoesOn(s, p, ElemCmd(e), behind[1..]);
      var rest := PipeSound(s, n);
      l := Then(e, rest);
      RegroupThree(ElemToks(e), ["|"], PipeToks(rest), Toks(s, ParsePipe(s, p).pos));
    } else {
      PipeEnds(s, p, ElemCmd(e), behind);
      l := Last(e);
    }
  }

  lemma {:induction false} BacksSound(s: Input, c: Cmd<Slice>, t: Cmd<string>, p: nat, r: Result) returns (n: nat, u: Cmd<string>)
    requires p <= |s| && Reads(s, c, t) && r == Backs(s, c, p)
    ensures u == BackCmd(t, n) && Takes(s, p, r, Amps(n), u)
    decreases |s| - p
  {
    if Sees(Toks(s, p), "&") {
      var ts := Toks(s, p)[1..];
      var q := OpStep(s, p, "&", ts);
      PeekIs(s, p);
      n, u := BacksSound(s, Back(c), Back(t), q, r);
      BackShift(t, n);
      Regroup(["&"], Amps(n), Toks(s, r.pos));
      n := n + 1;
    } else {
      n, u := 0, t;
      PeekIs(s, p);
      ToksSkip(s, p);
    }
  }

  lemma FirstSound(s: Input, p: nat) returns (first: Pipeline, n: nat)
    requires p <= |s| && First(s, p).Ok?
    ensures LegalPipe(first) && Takes(s, p, First(s, p), PipeToks(first) + Amps(n), BackCmd(PipeCmd(first), n))
    decreases |s| - p, 3
  {
    first := PipeSound(s, p);
    var l := ParsePipe(s, p);
    var u;
    n, u := BacksSound(s, l.cmd, PipeCmd(first), l.pos, First(s, p));
    Regroup(PipeToks(first), Amps(n), Toks(s, First(s, p).pos));
  }

  lemma LineSound(s: Input, p: nat) returns (l: Line)
    requires p <= |s| && ParseLine(s, p).Ok?
    ensures LegalLine(l) && Takes(s, p, ParseLine(s, p), LineToks(l), LineCmd(l))
    decreases |s| - p, 4
  {
    var first, n := FirstSound(s, p);
    var b, t := First(s, p), BackCmd(PipeCmd(first), n);
    var behind := Toks(s, b.pos);
    if Sees(behind, ";") {
      var q := LineGoesOn(s, p, t, behind[1..]);
      var rest := LineSound(s, q);
      l := Next(first, n, rest);
      ListReads(s, b.cmd, t, ParseLine(s, q).cmd, LineCmd(rest));
      NextToks(first, n, rest, Toks(s, ParseLine(s, p).pos));
    } else {
      LineEnds(s, p, t, behind);
      l := End(first, n);
    }
  }

  lemma NextToks(first: Pipeline, n: nat, rest: Line, ts: seq<string>)
    ensures LineToks(Next(first, n, rest)) + ts == PipeToks(first) + Amps(n) + ([";"] + (LineToks(rest) + ts))
  {
    RegroupFour(PipeToks(first), Amps(n), [";"], LineToks(rest), ts);
    Regroup(PipeToks(first), Amps(n), [";"] + (LineToks(rest) + ts));
  }

  // ----- the parser and the grammar -----

  // The input is a way to write the line.
  ghost predicate Writes(s: string, l: Line, ps: seq<Piece>, end: string) {
    LegalLine(l) && Written(s, ps, end, LineToks(l))
  }

  // parsecmd() gives the command of every line, however it is written.
  lemma ParsesWritten(s: Input, l: Line, ps: seq<Piece>, end: string)
    requires Writes(s, l, ps, end)
    ensures var r := ParseCmd(s); r.Ok? && WordsOk(s, r.cmd) && Text(s, r.cmd) == LineCmd(l)
  {
    assert s[0..] == s;
    LexTrip(s, 0, ps, end);
    assert LineToks(l) + [] == LineToks(l);
    LineTrip(s, 0, l, []);
    PeekIs(s, ParseLine(s, 0).pos);
    ReadsText(s, ParseLine(s, 0).cmd, LineCmd(l));
  }

  // No input is a way to write lines that stand for different commands.
  lemma Unambiguous(s: Input, l: Line, ps: seq<Piece>, end: string, m: Line, qs: seq<Piece>, fin: string)
    requires Writes(s, l, ps, end) && Writes(s, m, qs, fin)
    ensures LineCmd(l) == LineCmd(m)
  {
    ParsesWritten(s, l, ps, end);
    ParsesWritten(s, m, qs, fin);
  }

  // It accepts exactly the ways to write a line, and gives the command of the line.
  lemma ParsesIff(s: Input, t: Cmd<string>)
    ensures ParseCmd(s).Ok? ==> WordsOk(s, ParseCmd(s).cmd)
    ensures ParseCmd(s).Ok? && Text(s, ParseCmd(s).cmd) == t <==>
      exists l, ps, end :: Writes(s, l, ps, end) && LineCmd(l) == t
  {
    if ParseCmd(s).Ok? {
      Shell.LineOk(s, 0);
      var l := LineSound(s, 0);
      var ps, end := LexSound(s, 0);
      PeekIs(s, ParseCmd(s).pos);
      assert s[0..] == s && LineToks(l) + [] == LineToks(l);
      assert Writes(s, l, ps, end);
      ReadsText(s, ParseCmd(s).cmd, LineCmd(l));
    }
    if l, ps, end :| Writes(s, l, ps, end) && LineCmd(l) == t {
      ParsesWritten(s, l, ps, end);
    }
  }
}
