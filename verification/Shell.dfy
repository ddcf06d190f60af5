// The command parser of sh.c: tokens, command trees whose words are slices of
// the input, and the NULs that terminate them.
module Shell {

  const MAXARGS: nat := 10

  // A word of the input, from lo up to hi.
  datatype Slice = Slice(lo: nat, hi: nat)

  // A command; words are slices of the input, or strings.
  datatype Cmd<W> = Exec(argv: seq<W>) | Redir(cmd: Cmd<W>, file: W, input: bool)
    | Pipe(left: Cmd<W>, right: Cmd<W>) | List(left: Cmd<W>, right: Cmd<W>) | Back(cmd: Cmd<W>)

  // A parser's command and the cursor after it, or a panic.
  datatype Result = Ok(cmd: Cmd<Slice>, pos: nat) | Syntax

  // ----- characters -----

  predicate White(c: char) {
    c == ' ' || c == '\t' || c == '\r' || c == '\n' || c == '\U{0B}'
  }

  predicate Symbol(c: char) {
    c == '<' || c == '|' || c == '>' || c == '&' || c == ';' || c == '(' || c == ')'
  }

  predicate WordChar(c: char) {
    !White(c) && !Symbol(c) && c != '\0'
  }

  ghost predicate WordChars(w: string) {
    w == "" || (WordChar(w[0]) && WordChars(w[1..]))
  }

  // Input without its final NUL.
  type Input = s: string | '\0' !in s

  function CharAt(s: Input, p: nat): (c: char)
    ensures c == '\0' <==> p >= |s|
  {
    if p < |s| then s[p] else '\0'
  }

  function SkipWhite(s: Input, p: nat): (q: nat)
    requires p <= |s|
    ensures p <= q <= |s| && !White(CharAt(s, q))
    decreases |s| - p
  {
    if p < |s| && White(s[p]) then SkipWhite(s, p + 1) else p
  }

  function WordEnd(s: Input, p: nat): (q: nat)
    requires p <= |s|
    ensures p <= q <= |s| && !WordChar(CharAt(s, q))
    decreases |s| - p
  {
    if p < |s| && WordChar(s[p]) then WordEnd(s, p + 1) else p
  }

  // A token: its kind, 'a' for a word and 0 for the end, where it is, and the cursor after it.
  datatype Token = Token(kind: char, lo: nat, hi: nat, next: nat)

  // The kind and the end of the token at q.
  function Lex(s: Input, q: nat): (r: (char, nat))
    requires q <= |s|
    ensures q <= r.1 <= |s| && (r.0 != '\0' && !White(CharAt(s, q)) ==> q < r.1)
  {
    var c := CharAt(s, q);
    if c == '\0' then (c, q)
    else if c == '>' && CharAt(s, q + 1) == '>' then ('+', q + 2)
    else if Symbol(c) then (c, q + 1)
    else ('a', WordEnd(s, q))
  }

  function GetToken(s: Input, p: nat): (t: Token)
    requires p <= |s|
    ensures p <= t.lo <= t.hi <= t.next <= |s| && (t.kind != '\0' ==> t.lo < t.hi)
  {
    var q := SkipWhite(s, p);
    var r := Lex(s, q);
    Token(r.0, q, r.1, SkipWhite(s, r.1))
  }

  // A whole word: word characters, and none after it.
  ghost predicate SliceOk(s: Input, w: Slice) {
    w.lo < w.hi <= |s| && !WordChar(CharAt(s, w.hi)) && WordChars(s[w.lo..w.hi])
  }

  ghost predicate AllOk(s: Input, argv: seq<Slice>) {
    argv == [] || (AllOk(s, argv[..|argv| - 1]) && SliceOk(s, argv[|argv| - 1]))
  }

  // Every word of the command is a whole word of the input, and none has too many.
  ghost predicate WordsOk(s: Input, c: Cmd<Slice>) {
    match c
    case Exec(argv) => |argv| < MAXARGS && AllOk(s, argv)
    case Redir(d, f, _) => WordsOk(s, d) && SliceOk(s, f)
    case Pipe(l, r) => WordsOk(s, l) && WordsOk(s, r)
    case List(l, r) => WordsOk(s, l) && WordsOk(s, r)
    case Back(d) => WordsOk(s, d)
  }

  // ----- what the parsers compute -----

  // The cursor moves forward and not past the end.
  ghost predicate Forward(s: Input, p: nat, r: Result) {
    r.Ok? ==> p <= r.pos <= |s|
  }

  // parseredirs()
  function Redirs(s: Input, c: Cmd<Slice>, p: nat): (r: Result)
    requires p <= |s|
    ensures Forward(s, p, r)
    decreases |s| - p
  {
    var q := SkipWhite(s, p);
    if CharAt(s, q) == '<' || CharAt(s, q) == '>' then
      var t := GetToken(s, q);
      var w := GetToken(s, t.next);
      if w.kind != 'a' then Syntax else Redirs(s, Redir(c, Slice(w.lo, w.hi), t.kind == '<'), w.next)
    else Ok(c, q)
  }

  // An argument more for the command inside the redirections.
  function AddArg(c: Cmd<Slice>, w: Slice): (r: Cmd<Slice>) {
    match c
    case Exec(argv) => Exec(argv + [w])
    case Redir(d, f, i) => Redir(AddArg(d, w), f, i)
    case _ => c
  }

  // The arguments end at an operator, the end of a block, or the end.
  predicate EndsArgs(c: char) {
    c == '|' || c == ')' || c == '&' || c == ';' || c == '\0'
  }

  // The loop of parseexec().
  function Args(s: Input, c: Cmd<Slice>, argc: nat, p: nat): (r: Result)
    requires p <= |s|
    ensures Forward(s, p, r)
    decreases |s| - p, 1
  {
    var q := SkipWhite(s, p);
    if EndsArgs(CharAt(s, q)) then Ok(c, q) else NextArg(s, c, argc, q)
  }

  // An argument at q, the redirections after it, and the rest of the loop.
  function NextArg(s: Input, c: Cmd<Slice>, argc: nat, q: nat): (r: Result)
    requires q <= |s| && !EndsArgs(CharAt(s, q)) && !White(CharAt(s, q))
    ensures Forward(s, q, r)
    decreases |s| - q, 0
  {
    var t := GetToken(s, q);
    if t.kind != 'a' || argc + 1 >= MAXARGS then Syntax
    else
      var r := Redirs(s, AddArg(c, Slice(t.lo, t.hi)), t.next);
      if r.Syntax? then Syntax else Args(s, r.cmd, argc + 1, r.pos)
  }

  function ParseExec(s: Input, p: nat): (r: Result)
    requires p <= |s|
    ensures Forward(s, p, r)
    decreases |s| - p, 1
  {
    var q := SkipWhite(s, p);
    if CharAt(s, q) == '(' then ParseBlock(s, q)
    else
      var r := Redirs(s, Exec([]), q);
      if r.Syntax? then Syntax else Args(s, r.cmd, 0, r.pos)
  }

  function ParseBlock(s: Input, p: nat): (r: Result)
    requires p <= |s|
    ensures Forward(s, p, r)
    decreases |s| - p, 0
  {
    var q := SkipWhite(s, p);
    if CharAt(s, q) != '(' then Syntax
    else
      var r := ParseLine(s, GetToken(s, q).next);
      if r.Syntax? then Syntax else CloseBlock(s, r.cmd, r.pos)
  }

  // The end of a block, and the redirections after it.
  function CloseBlock(s: Input, c: Cmd<Slice>, p: nat): (r: Result)
    requires p <= |s|
    ensures Forward(s, p, r)
  {
    var e := SkipWhite(s, p);
    if CharAt(s, e) != ')' then Syntax else Redirs(s, c, GetToken(s, e).next)
  }

  function ParsePipe(s: Input, p: nat): (r: Result)
    requires p <= |s|
    ensures Forward(s, p, r)
    decreases |s| - p, 2
  {
    var l := ParseExec(s, p);
    if l.Syntax? then Syntax
    else
      var q := SkipWhite(s, l.pos);
      if CharAt(s, q) == '|' then
        var r := ParsePipe(s, GetToken(s, q).next);
        if r.Syntax? then Syntax else Ok(Pipe(l.cmd, r.cmd), r.pos)
      else Ok(l.cmd, q)
  }

  // The loop of parseline().
  function Backs(s: Input, c: Cmd<Slice>, p: nat): (r: Result)
    requires p <= |s|
    ensures Forward(s, p, r) && r.Ok? && r.pos == SkipWhite(s, r.pos) && CharAt(s, r.pos) != '&'
    decreases |s| - p
  {
    var q := SkipWhite(s, p);
    if CharAt(s, q) == '&' then Backs(s, Back(c), GetToken(s, q).next) else Ok(c, q)
  }

  function ParseLine(s: Input, p: nat): (r: Result)
    requires p <= |s|
    ensures Forward(s, p, r)
    decreases |s| - p, 3
  {
    var l := ParsePipe(s, p);
    if l.Syntax? then Syntax
    else
      var b := Backs(s, l.cmd, l.pos);
      if CharAt(s, b.pos) == ';' then
        var r := ParseLine(s, GetToken(s, b.pos).next);
        if r.Syntax? then Syntax else Ok(List(b.cmd, r.cmd), r.pos)
      else b
  }

  // parsecmd(): there are no leftovers.
  function ParseCmd(s: Input): (r: Result)
    ensures Forward(s, 0, r)
  {
    var r := ParseLine(s, 0);
    if r.Ok? && SkipWhite(s, r.pos) == |s| then r else Syntax
  }

  // ----- every word of a parsed command is a whole word of the input -----

  lemma {:induction false} WordEndOk(s: Input, p: nat)
    requires p <= |s|
    ensures WordChars(s[p..WordEnd(s, p)])
    decreases |s| - p
  {
    if p < |s| && WordChar(s[p]) {
      WordEndOk(s, p + 1);
      assert s[p..WordEnd(s, p)][1..] == s[p + 1..WordEnd(s, p)];
    }
  }

  lemma TokenOk(s: Input, p: nat)
    requires p <= |s|
    ensures var t := GetToken(s, p); t.kind == 'a' ==> SliceOk(s, Slice(t.lo, t.hi))
  {
    WordEndOk(s, SkipWhite(s, p));
  }

  // The arguments of the command inside the redirections.
  ghost function Argc(c: Cmd<Slice>): (n: nat) {
    match c
    case Exec(argv) => |argv|
    case Redir(d, _, _) => Argc(d)
    case _ => 0
  }

  lemma {:induction false} AddArgOk(s: Input, c: Cmd<Slice>, w: Slice)
    requires WordsOk(s, c) && SliceOk(s, w) && Argc(c) + 1 < MAXARGS
    ensures WordsOk(s, AddArg(c, w)) && Argc(AddArg(c, w)) <= Argc(c) + 1
  {
    if c.Redir? {
      AddArgOk(s, c.cmd, w);
    } else if c.Exec? {
      assert (c.argv + [w])[..|c.argv + [w]| - 1] == c.argv;
    }
  }

  lemma {:induction false} RedirsOk(s: Input, c: Cmd<Slice>, p: nat)
    requires p <= |s| && WordsOk(s, c)
    ensures var r := Redirs(s, c, p); r.Ok? ==> WordsOk(s, r.cmd) && Argc(r.cmd) == Argc(c)
    decreases |s| - p
  {
    var q := SkipWhite(s, p);
    if CharAt(s, q) == '<' || CharAt(s, q) == '>' {
      var t := GetToken(s, q);
      var w := GetToken(s, t.next);
      if w.kind == 'a' {
        TokenOk(s, t.next);
        RedirsOk(s, Redir(c, Slice(w.lo, w.hi), t.kind == '<'), w.next);
      }
    }
  }

  lemma {:induction false} ArgsOk(s: Input, c: Cmd<Slice>, argc: nat, p: nat)
    requires p <= |s| && WordsOk(s, c) && Argc(c) <= argc
    ensures var r := Args(s, c, argc, p); r.Ok? ==> WordsOk(s, r.cmd)
    decreases |s| - p, 1
  {
    var q := SkipWhite(s, p);
    if !EndsArgs(CharAt(s, q)) {
      NextArgOk(s, c, argc, q);
    }
  }

  lemma {:induction false} NextArgOk(s: Input, c: Cmd<Slice>, argc: nat, q: nat)
    requires q <= |s| && !EndsArgs(CharAt(s, q)) && !White(CharAt(s, q)) && WordsOk(s, c) && Argc(c) <= argc
    ensures var r := NextArg(s, c, argc, q); r.Ok? ==> WordsOk(s, r.cmd)
    decreases |s| - q, 0
  {
    if GetToken(s, q).kind == 'a' && argc + 1 < MAXARGS {
      var r := WordOk(s, c, argc, q);
      if r.Ok? {
        ArgsOk(s, r.cmd, argc + 1, r.pos);
      }
    }
  }

  // An argument and the redirections after it.
  lemma WordOk(s: Input, c: Cmd<Slice>, argc: nat, q: nat) returns (r: Result)
    requires q <= |s| && !EndsArgs(CharAt(s, q)) && !White(CharAt(s, q)) && WordsOk(s, c) && Argc(c) <= argc
    requires argc + 1 < MAXARGS && GetToken(s, q).kind == 'a'
    ensures r.Ok? ==> WordsOk(s, r.cmd) && Argc(r.cmd) <= argc + 1 && q < r.pos <= |s|
    ensures NextArg(s, c, argc, q) == if r.Syntax? then Syntax else Args(s, r.cmd, argc + 1, r.pos)
  {
    var t := GetToken(s, q);
    TokenOk(s, q);
    AddArgOk(s, c, Slice(t.lo, t.hi));
    RedirsOk(s, AddArg(c, Slice(t.lo, t.hi)), t.next);
    r := Redirs(s, AddArg(c, Slice(t.lo, t.hi)), t.next);
  }

  lemma {:induction false} BacksOk(s: Input, c: Cmd<Slice>, p: nat)
    requires p <= |s| && WordsOk(s, c)
    ensures WordsOk(s, Backs(s, c, p).cmd)
    decreases |s| - p
  {
    var q := SkipWhite(s, p);
    if CharAt(s, q) == '&' {
      BacksOk(s, Back(c), GetToken(s, q).next);
    }
  }

  lemma {:induction false} ExecOk(s: Input, p: nat)
    requires p <= |s|
    ensures var r := ParseExec(s, p); r.Ok? ==> WordsOk(s, r.cmd)
    decreases |s| - p, 1
  {
    var q := SkipWhite(s, p);
    if CharAt(s, q) == '(' {
      BlockOk(s, q);
    } else {
      RedirsOk(s, Exec([]), q);
      var r := Redirs(s, Exec([]), q);
      if r.Ok? {
        ArgsOk(s, r.cmd, 0, r.pos);
      }
    }
  }

  lemma {:induction false} BlockOk(s: Input, p: nat)
    requires p <= |s|
    ensures var r := ParseBlock(s, p); r.Ok? ==> WordsOk(s, r.cmd)
    decreases |s| - p, 0
  {
    var q := SkipWhite(s, p);
    if CharAt(s, q) == '(' {
      LineOk(s, GetToken(s, q).next);
      var r := ParseLine(s, GetToken(s, q).next);
      if r.Ok? && CharAt(s, SkipWhite(s, r.pos)) == ')' {
        RedirsOk(s, r.cmd, GetToken(s, SkipWhite(s, r.pos)).next);
      }
    }
  }

  lemma {:induction false} PipeOk(s: Input, p: nat)
    requires p <= |s|
    ensures var r := ParsePipe(s, p); r.Ok? ==> WordsOk(s, r.cmd)
    decreases |s| - p, 2
  {
    ExecOk(s, p);
    var l := ParseExec(s, p);
    if l.Ok? && CharAt(s, SkipWhite(s, l.pos)) == '|' {
      PipeOk(s, GetToken(s, SkipWhite(s, l.pos)).next);
    }
  }

  lemma {:induction false} LineOk(s: Input, p: nat)
    requires p <= |s|
    ensures var r := ParseLine(s, p); r.Ok? ==> WordsOk(s, r.cmd)
    decreases |s| - p, 3
  {
    PipeOk(s, p);
    var l := ParsePipe(s, p);
    if l.Ok? {
      BacksOk(s, l.cmd, l.pos);
      var b := Backs(s, l.cmd, l.pos);
      if CharAt(s, b.pos) == ';' {
        LineOk(s, GetToken(s, b.pos).next);
      }
    }
  }

  // ----- printing, and parsing what was printed -----

  // The words of a parsed command as strings.
  function Text(s: Input, c: Cmd<Slice>): (r: Cmd<string>)
    requires WordsOk(s, c)
  {
    match c
    case Exec(argv) => Exec(Words(s, argv))
    case Redir(d, f, i) => Redir(Text(s, d), s[f.lo..f.hi], i)
    case Pipe(l, r) => Pipe(Text(s, l), Text(s, r))
    case List(l, r) => List(Text(s, l), Text(s, r))
    case Back(d) => Back(Text(s, d))
  }

  function Words(s: Input, argv: seq<Slice>): (r: seq<string>)
    requires AllOk(s, argv)
    ensures |r| == |argv|
  {
    if argv == [] then []
    else
      var w := argv[|argv| - 1];
      Words(s, argv[..|argv| - 1]) + [s[w.lo..w.hi]]
  }

  ghost predicate IsWord(w: string) {
    w != "" && WordChars(w)
  }

  ghost predicate AllWords(ws: seq<string>) {
    ws == [] || (IsWord(ws[0]) && AllWords(ws[1..]))
  }

  // Commands that can be written down.
  ghost predicate Printable(t: Cmd<string>) {
    match t
    case Exec(argv) => |argv| < MAXARGS && AllWords(argv)
    case Redir(d, f, _) => Printable(d) && IsWord(f)
    case Pipe(l, r) => Printable(l) && Printable(r)
    case List(l, r) => Printable(l) && Printable(r)
    case Back(d) => Printable(d)
  }

  function Join(ws: seq<string>): (r: string) {
    if ws == [] then "" else if |ws| == 1 then ws[0] else ws[0] + " " + Join(ws[1..])
  }

  function Print(t: Cmd<string>): (r: string)
    decreases t, 0
  {
    match t
    case Exec(argv) => Join(argv)
    case Redir(d, f, i) => Group(d) + (if i then "<" else ">") + f
    case Pipe(l, r) => Group(l) + "|" + Group(r)
    case List(l, r) => Group(l) + ";" + Group(r)
    case Back(d) => Group(d) + "&"
  }

  function Group(t: Cmd<string>): (r: string)
    decreases t, 1
  {
    "(" + Print(t) + ")"
  }

  ghost predicate At(s: Input, p: nat, x: string) {
    p + |x| <= |s| && s[p..p + |x|] == x
  }

  lemma AtParts(s: Input, p: nat, x: string, y: string)
    requires At(s, p, x + y)
    ensures At(s, p, x) && At(s, p + |x|, y)
  {
    assert s[p..p + |x + y|][..|x|] == x && s[p..p + |x + y|][|x|..] == y;
  }

  lemma AtFirst(s: Input, p: nat, x: string)
    requires At(s, p, x) && x != ""
    ensures p < |s| && s[p] == x[0]
  {
    assert s[p..p + |x|][0] == x[0];
  }

  // The end of the input or of a block.
  ghost predicate Stop(s: Input, p: nat) {
    p == |s| || CharAt(s, p) == ')'
  }

  lemma SkipStay(s: Input, p: nat)
    requires p <= |s| && !White(CharAt(s, p))
    ensures SkipWhite(s, p) == p
  {
  }

  lemma {:induction false} WordEndAt(s: Input, p: nat, w: string)
    requires At(s, p, w) && WordChars(w) && !WordChar(CharAt(s, p + |w|))
    ensures WordEnd(s, p) == p + |w|
    decreases |w|
  {
    if w != "" {
      assert s[p..p + |w|][0] == w[0];
      assert s[p + 1..p + |w|] == w[1..];
      WordEndAt(s, p + 1, w[1..]);
    }
  }

  lemma WordToken(s: Input, p: nat, w: string)
    requires At(s, p, w) && IsWord(w) && !WordChar(CharAt(s, p + |w|))
    ensures GetToken(s, p) == Token('a', p, p + |w|, SkipWhite(s, p + |w|)) && WordChar(CharAt(s, p)) && SliceOk(s, Slice(p, p + |w|))
  {
    assert s[p..p + |w|][0] == w[0];
    SkipStay(s, p);
    WordEndAt(s, p, w);
  }

  lemma SymbolToken(s: Input, p: nat)
    requires p < |s| && Symbol(s[p]) && !(s[p] == '>' && CharAt(s, p + 1) == '>') && !White(CharAt(s, p + 1))
    ensures GetToken(s, p) == Token(s[p], p, p + 1, p + 1) && SkipWhite(s, p) == p
  {
    SkipStay(s, p);
    SkipStay(s, p + 1);
  }

  lemma AddWord(s: Input, a: seq<Slice>, w: Slice)
    requires AllOk(s, a) && SliceOk(s, w)
    ensures AllOk(s, a + [w]) && Words(s, a + [w]) == Words(s, a) + [s[w.lo..w.hi]]
  {
    assert (a + [w])[..|a + [w]| - 1] == a;
  }

  // One argument, with no redirection after it.
  lemma ArgsStep(s: Input, a: seq<Slice>, argc: nat, p: nat, w: string, n: nat) returns (b: seq<Slice>)
    requires AllOk(s, a) && argc + 1 < MAXARGS
    requires At(s, p, w) && IsWord(w) && !WordChar(CharAt(s, p + |w|)) && n == SkipWhite(s, p + |w|)
    requires CharAt(s, n) != '<' && CharAt(s, n) != '>'
    ensures AllOk(s, b) && Words(s, b) == Words(s, a) + [w]
    ensures Args(s, Exec(a), argc, p) == Args(s, Exec(b), argc + 1, n)
  {
    WordToken(s, p, w);
    AddWord(s, a, Slice(p, p + |w|));
    b := a + [Slice(p, p + |w|)];
    SkipStay(s, p);
    SkipStay(s, n);
    assert Redirs(s, Exec(b), n) == Ok(Exec(b), n);
    assert NextArg(s, Exec(a), argc, p) == Args(s, Exec(b), argc + 1, n);
  }

  // The first word of a printed command, and where the next one is.
  lemma JoinCut(s: Input, p: nat, ws: seq<string>, rest: seq<string>, e: nat) returns (n: nat)
    requires At(s, p, Join(ws)) && e == p + |Join(ws)| && Stop(s, e) && ws != [] && rest == ws[1..] && AllWords(ws)
    ensures At(s, p, ws[0]) && !WordChar(CharAt(s, p + |ws[0]|)) && n == SkipWhite(s, p + |ws[0]|)
    ensures At(s, n, Join(rest)) && n + |Join(rest)| == e
    ensures CharAt(s, n) != '<' && CharAt(s, n) != '>'
  {
    var w := ws[0];
    if |ws| == 1 {
      SkipStay(s, e);
      n := e;
    } else {
      n := p + |w| + 1;
      assert Join(ws) == w + (" " + Join(rest));
      AtParts(s, p, w, " " + Join(rest));
      AtParts(s, p + |w|, " ", Join(rest));
      JoinStart(s, n, rest);
      AtFirst(s, p + |w|, " ");
      SkipStay(s, n);
    }
  }

  // The arguments of a printed command, one after the other: r is what the loop
  // of parseexec() gives.
  lemma {:induction false} ArgsTrip(s: Input, a: seq<Slice>, argc: nat, p: nat, ws: seq<string>, r: Result, e: nat) returns (b: seq<Slice>)
    requires AllOk(s, a) && argc + |ws| < MAXARGS && At(s, p, Join(ws)) && r == Args(s, Exec(a), argc, p)
    requires e == p + |Join(ws)| && Stop(s, e) && AllWords(ws)
    ensures AllOk(s, b) && Words(s, b) == Words(s, a) + ws
    ensures r == Ok(Exec(b), e)
    decreases |ws|
  {
    if ws == [] {
      ArgsEnd(s, a, argc, p);
      b := a;
    } else {
      var rest := ws[1..];
      var n := JoinCut(s, p, ws, rest, e);
      var c := ArgsStep(s, a, argc, p, ws[0], n);
      WordsShift(Words(s, a), ws);
      b := ArgsTrip(s, c, argc + 1, n, rest, r, e);
    }
  }

  lemma WordsShift(x: seq<string>, ws: seq<string>)
    requires ws != []
    ensures x + [ws[0]] + ws[1..] == x + ws
  {
  }

  lemma ArgsEnd(s: Input, a: seq<Slice>, argc: nat, p: nat)
    requires AllOk(s, a) && p <= |s| && Stop(s, p)
    ensures Args(s, Exec(a), argc, p) == Ok(Exec(a), p)
  {
    SkipStay(s, p);
  }

  lemma JoinStart(s: Input, p: nat, ws: seq<string>)
    requires At(s, p, Join(ws)) && ws != [] && AllWords(ws)
    ensures p < |s| && WordChar(CharAt(s, p))
  {
    assert Join(ws)[0] == ws[0][0];
    assert s[p..p + |Join(ws)|][0] == Join(ws)[0];
  }

  // The words of c read as the strings of t.
  ghost predicate Reads(s: Input, c: Cmd<Slice>, t: Cmd<string>) {
    match c
    case Exec(argv) => |argv| < MAXARGS && AllOk(s, argv) && t == Exec(Words(s, argv))
    case Redir(d, f, i) => t.Redir? && Reads(s, d, t.cmd) && SliceOk(s, f) && t.file == s[f.lo..f.hi] && t.input == i
    case Pipe(l, r) => t.Pipe? && Reads(s, l, t.left) && Reads(s, r, t.right)
    case List(l, r) => t.List? && Reads(s, l, t.left) && Reads(s, r, t.right)
    case Back(d) => t.Back? && Reads(s, d, t.cmd)
  }

  lemma {:induction false} ReadsText(s: Input, c: Cmd<Slice>, t: Cmd<string>)
    requires Reads(s, c, t)
    ensures WordsOk(s, c) && Text(s, c) == t
  {
    match c {
      case Exec(argv) =>
      case Redir(d, f, i) => ReadsText(s, d, t.cmd);
      case Pipe(l, r) => ReadsText(s, l, t.left); ReadsText(s, r, t.right);
      case List(l, r) => ReadsText(s, l, t.left); ReadsText(s, r, t.right);
      case Back(d) => ReadsText(s, d, t.cmd);
    }
  }

  // What a parser gives at p: the command t, and the cursor at q.
  ghost predicate Gives(s: Input, r: Result, t: Cmd<string>, q: nat) {
    r.Ok? && r.pos == q && Reads(s, r.cmd, t)
  }

  // Without an operator after it, a simple command is the whole line.
  lemma LineOfExec(s: Input, p: nat, t: Cmd<string>, q: nat)
    requires p <= |s| && Gives(s, ParseExec(s, p), t, q) && q <= |s| && Stop(s, q)
    ensures Gives(s, ParsePipe(s, p), t, q) && Gives(s, ParseLine(s, p), t, q)
  {
    SkipStay(s, q);
  }

  lemma ExecTrip(s: Input, p: nat, ws: seq<string>)
    requires Printable(Exec(ws)) && At(s, p, Join(ws)) && Stop(s, p + |Join(ws)|)
    ensures Gives(s, ParseLine(s, p), Exec(ws), p + |Join(ws)|)
  {
    if ws != [] {
      JoinStart(s, p, ws);
    }
    var a := ArgsTrip(s, [], 0, p, ws, Args(s, Exec([]), 0, p), p + |Join(ws)|);
    assert Words(s, []) + ws == ws;
    NoRedirs(s, p);
    LineOfExec(s, p, Exec(ws), p + |Join(ws)|);
  }

  lemma NoRedirs(s: Input, p: nat)
    requires p <= |s| && !White(CharAt(s, p)) && CharAt(s, p) != '<' && CharAt(s, p) != '>' && CharAt(s, p) != '('
    ensures ParseExec(s, p) == Args(s, Exec([]), 0, p)
  {
    SkipStay(s, p);
  }

  // ----- the parsers at an operator -----

  // A block: its command, then redirections.
  lemma BlockGives(s: Input, p: nat, r: Result, q: nat)
    requires p < q < |s| && s[p] == '(' && !White(CharAt(s, p + 1)) && s[q] == ')' && !White(CharAt(s, q + 1))
    requires r == ParseLine(s, p + 1) && r.Ok? && r.pos == q
    ensures ParseBlock(s, p) == Redirs(s, r.cmd, q + 1)
  {
    assert ParseBlock(s, p) == CloseBlock(s, r.cmd, q) by {
      SymbolToken(s, p);
    }
    BlockEnds(s, r.cmd, q);
  }

  lemma BlockEnds(s: Input, c: Cmd<Slice>, q: nat)
    requires q < |s| && s[q] == ')' && !White(CharAt(s, q + 1))
    ensures CloseBlock(s, c, q) == Redirs(s, c, q + 1)
  {
    SymbolToken(s, q);
  }

  lemma ExecIsBlock(s: Input, p: nat)
    requires p < |s| && s[p] == '('
    ensures ParseExec(s, p) == ParseBlock(s, p)
  {
    SkipStay(s, p);
  }

  // A redirection, and nothing after it.
  lemma RedirsOne(s: Input, c: Cmd<Slice>, q: nat, f: string)
    requires q < |s| && (s[q] == '<' || s[q] == '>')
    requires At(s, q + 1, f) && IsWord(f) && Stop(s, q + 1 + |f|)
    ensures SliceOk(s, Slice(q + 1, q + 1 + |f|)) && s[q + 1..q + 1 + |f|] == f
    ensures Redirs(s, c, q) == Ok(Redir(c, Slice(q + 1, q + 1 + |f|), s[q] == '<'), q + 1 + |f|)
  {
    var e := q + 1 + |f|;
    WordToken(s, q + 1, f);
    SymbolToken(s, q);
    SkipStay(s, e);
    assert Redirs(s, Redir(c, Slice(q + 1, e), s[q] == '<'), e) == Ok(Redir(c, Slice(q + 1, e), s[q] == '<'), e);
  }

  lemma RedirGives(s: Input, c: Cmd<Slice>, d: Cmd<string>, q: nat, f: string)
    requires Reads(s, c, d) && q < |s|
    requires (s[q] == '<' || s[q] == '>') && At(s, q + 1, f) && IsWord(f) && Stop(s, q + 1 + |f|)
    ensures Gives(s, Redirs(s, c, q), Redir(d, f, s[q] == '<'), q + 1 + |f|)
  {
    RedirsOne(s, c, q, f);
    ReadsRedir(s, c, d, Slice(q + 1, q + 1 + |f|), s[q] == '<');
  }

  lemma ReadsRedir(s: Input, c: Cmd<Slice>, d: Cmd<string>, w: Slice, i: bool)
    requires Reads(s, c, d) && SliceOk(s, w)
    ensures Reads(s, Redir(c, w, i), Redir(d, s[w.lo..w.hi], i))
  {
  }

  // No redirection after a block.
  lemma PlainGives(s: Input, c: Cmd<Slice>, d: Cmd<string>, q: nat)
    requires Reads(s, c, d) && q <= |s|
    requires !White(CharAt(s, q)) && CharAt(s, q) != '<' && CharAt(s, q) != '>'
    ensures Gives(s, Redirs(s, c, q), d, q)
  {
    SkipStay(s, q);
  }

  lemma PipeGives(s: Input, p: nat, l: Cmd<string>, q: nat, r: Cmd<string>, e: nat)
    requires p <= q < |s| && Gives(s, ParseExec(s, p), l, q) && s[q] == '|' && !White(CharAt(s, q + 1))
    requires Gives(s, ParsePipe(s, q + 1), r, e) && e <= |s| && Stop(s, e)
    ensures Gives(s, ParseLine(s, p), Pipe(l, r), e)
  {
    SymbolToken(s, q);
    LineOfPipe(s, p, Pipe(l, r), e);
  }

  // Without an operator after it, a pipeline is the whole line.
  lemma LineOfPipe(s: Input, p: nat, t: Cmd<string>, q: nat)
    requires p <= |s| && Gives(s, ParsePipe(s, p), t, q) && q <= |s| && Stop(s, q)
    ensures Gives(s, ParseLine(s, p), t, q)
  {
    SkipStay(s, q);
  }

  lemma ListGives(s: Input, p: nat, l: Cmd<string>, q: nat, r: Cmd<string>, e: nat)
    requires p <= q < |s| && Gives(s, ParseExec(s, p), l, q) && s[q] == ';' && !White(CharAt(s, q + 1))
    requires Gives(s, ParseLine(s, q + 1), r, e)
    ensures Gives(s, ParseLine(s, p), List(l, r), e)
  {
    SymbolToken(s, q);
  }

  lemma BackGives(s: Input, p: nat, d: Cmd<string>, q: nat)
    requires p <= q < |s| && Gives(s, ParseExec(s, p), d, q) && s[q] == '&' && Stop(s, q + 1)
    ensures Gives(s, ParseLine(s, p), Back(d), q + 1)
  {
    var c := ParseExec(s, p).cmd;
    SymbolToken(s, q);
    assert ParsePipe(s, p) == Ok(c, q);
    SkipStay(s, q + 1);
    assert Backs(s, Back(c), q + 1) == Ok(Back(c), q + 1);
    assert Backs(s, c, q) == Ok(Back(c), q + 1);
  }

  // ----- where the parts of a printed command are -----

  // A group at p, ending before q.
  ghost predicate GroupAt(s: Input, p: nat, t: Cmd<string>, q: nat) {
    p + 1 < q <= |s| && s[p] == '(' && At(s, p + 1, Print(t)) && p + 1 + |Print(t)| == q - 1 && s[q - 1] == ')'
  }

  lemma GroupParts(s: Input, p: nat, t: Cmd<string>, x: string)
    requires At(s, p, Group(t) + x)
    ensures GroupAt(s, p, t, p + |Group(t)|) && At(s, p + |Group(t)|, x)
  {
    AtParts(s, p, Group(t), x);
    AtParts(s, p, "(" + Print(t), ")");
    AtParts(s, p, "(", Print(t));
    AtFirst(s, p, "(");
    AtFirst(s, p + 1 + |Print(t)|, ")");
  }

  // A printed command in a block does not begin with white space.
  lemma PrintStart(s: Input, p: nat, t: Cmd<string>)
    requires Printable(t) && At(s, p, Print(t)) && Stop(s, p + |Print(t)|)
    ensures !White(CharAt(s, p))
  {
    if t.Exec? {
      if t.argv != [] {
        JoinStart(s, p, t.argv);
      }
    } else {
      assert Print(t)[0] == '(';
      AtFirst(s, p, Print(t));
    }
  }

  // ----- parsing what was printed -----

  // A group is a block: what is left are redirections after it.
  lemma GroupTrip(s: Input, p: nat, t: Cmd<string>, q: nat) returns (c: Cmd<Slice>)
    requires Printable(t) && GroupAt(s, p, t, q) && !White(CharAt(s, q))
    ensures Reads(s, c, t) && ParseExec(s, p) == Redirs(s, c, q)
    decreases t, 4
  {
    PrintStart(s, p + 1, t);
    LineTrip(s, p + 1, t);
    BlockGives(s, p, ParseLine(s, p + 1), q - 1);
    ExecIsBlock(s, p);
    c := ParseLine(s, p + 1).cmd;
  }

  // Parsing what was printed gives the command back.
  lemma LineTrip(s: Input, p: nat, t: Cmd<string>)
    requires Printable(t) && At(s, p, Print(t)) && Stop(s, p + |Print(t)|)
    ensures Gives(s, ParseLine(s, p), t, p + |Print(t)|)
    decreases t, 3
  {
    match t {
      case Exec(argv) => ExecTrip(s, p, argv);
      case Redir(d, f, i) => RedirTrip(s, p, d, f, i);
      case Pipe(l, r) => PipeTrip(s, p, t, l, r);
      case List(l, r) => ListTrip(s, p, t, l, r);
      case Back(d) => BackTrip(s, p, d);
    }
  }

  lemma RedirParts(s: Input, p: nat, d: Cmd<string>, f: string, i: bool) returns (q: nat)
    requires IsWord(f) && At(s, p, Print(Redir(d, f, i)))
    ensures q < |s| && GroupAt(s, p, d, q) && s[q] == (if i then '<' else '>') && At(s, q + 1, f)
    ensures q + 1 + |f| == p + |Print(Redir(d, f, i))|
  {
    var sign := if i then "<" else ">";
    q := p + |Group(d)|;
    assert Print(Redir(d, f, i)) == Group(d) + (sign + f);
    GroupParts(s, p, d, sign + f);
    AtParts(s, q, sign, f);
    AtFirst(s, q, sign);
  }

  lemma RedirTrip(s: Input, p: nat, d: Cmd<string>, f: string, i: bool)
    requires Printable(d) && IsWord(f) && At(s, p, Print(Redir(d, f, i))) && Stop(s, p + |Print(Redir(d, f, i))|)
    ensures Gives(s, ParseLine(s, p), Redir(d, f, i), p + |Print(Redir(d, f, i))|)
    decreases Redir(d, f, i), 2
  {
    var q := RedirParts(s, p, d, f, i);
    RedirExec(s, p, Redir(d, f, i), d, f, q);
    LineOfExec(s, p, Redir(d, f, i), q + 1 + |f|);
  }

  lemma RedirExec(s: Input, p: nat, t: Cmd<string>, d: Cmd<string>, f: string, q: nat)
    requires q < |s| && Printable(d) && IsWord(f) && GroupAt(s, p, d, q) && (s[q] == '<' || s[q] == '>')
    requires t == Redir(d, f, s[q] == '<') && At(s, q + 1, f) && Stop(s, q + 1 + |f|)
    ensures Gives(s, ParseExec(s, p), t, q + 1 + |f|)
    decreases t, 1
  {
    var c := GroupTrip(s, p, d, q);
    RedirGives(s, c, d, q, f);
  }

  lemma PipeTrip(s: Input, p: nat, t: Cmd<string>, l: Cmd<string>, r: Cmd<string>)
    requires t == Pipe(l, r) && Printable(l) && Printable(r) && At(s, p, Print(t)) && Stop(s, p + |Print(t)|)
    ensures Gives(s, ParseLine(s, p), t, p + |Print(t)|)
    decreases t, 2
  {
    var e := p + |Print(t)|;
    var q := TwoParts(s, p, t, l, "|", r);
    GroupGives(s, p, l, q);
    GroupLine(s, q + 1, r, e);
    PipeGives(s, p, l, q, r, e);
  }

  lemma ListTrip(s: Input, p: nat, t: Cmd<string>, l: Cmd<string>, r: Cmd<string>)
    requires t == List(l, r) && Printable(l) && Printable(r) && At(s, p, Print(t)) && Stop(s, p + |Print(t)|)
    ensures Gives(s, ParseLine(s, p), t, p + |Print(t)|)
    decreases t, 2
  {
    var e := p + |Print(t)|;
    var q := TwoParts(s, p, t, l, ";", r);
    GroupGives(s, p, l, q);
    GroupLine(s, q + 1, r, e);
    ListGives(s, p, l, q, r, e);
  }

  // A group as a whole line.
  lemma GroupLine(s: Input, p: nat, t: Cmd<string>, q: nat)
    requires Printable(t) && GroupAt(s, p, t, q) && Stop(s, q)
    ensures Gives(s, ParsePipe(s, p), t, q) && Gives(s, ParseLine(s, p), t, q)
    decreases t, 6
  {
    GroupGives(s, p, t, q);
    LineOfExec(s, p, t, q);
  }

  // Two groups with an operator between them at q, up to e.
  ghost predicate TwoAt(s: Input, p: nat, l: Cmd<string>, q: nat, r: Cmd<string>, e: nat) {
    GroupAt(s, p, l, q) && q < |s| && GroupAt(s, q + 1, r, e) && Stop(s, e)
  }

  lemma TwoParts(s: Input, p: nat, t: Cmd<string>, l: Cmd<string>, op: string, r: Cmd<string>) returns (q: nat)
    requires (t == Pipe(l, r) && op == "|") || (t == List(l, r) && op == ";")
    requires At(s, p, Print(t)) && Stop(s, p + |Print(t)|)
    ensures TwoAt(s, p, l, q, r, p + |Print(t)|) && s[q] == op[0]
  {
    var rest := op + Group(r);
    assert Print(t) == Group(l) + rest;
    q := JoinedParts(s, p, l, op, r, rest);
  }

  lemma JoinedParts(s: Input, p: nat, l: Cmd<string>, op: string, r: Cmd<string>, rest: string) returns (q: nat)
    requires |op| == 1 && rest == op + Group(r) && At(s, p, Group(l) + rest) && Stop(s, p + |Group(l) + rest|)
    ensures TwoAt(s, p, l, q, r, p + |Group(l) + rest|) && s[q] == op[0]
  {
    q := p + |Group(l)|;
    GroupParts(s, p, l, rest);
    AtParts(s, q, op, Group(r));
    AtFirst(s, q, op);
    assert Group(r) + "" == Group(r);
    GroupParts(s, q + 1, r, "");
  }

  // A group with no redirection after it.
  lemma GroupGives(s: Input, p: nat, t: Cmd<string>, q: nat)
    requires Printable(t) && GroupAt(s, p, t, q)
    requires !White(CharAt(s, q)) && CharAt(s, q) != '<' && CharAt(s, q) != '>'
    ensures Gives(s, ParseExec(s, p), t, q)
    decreases t, 5
  {
    var c := GroupTrip(s, p, t, q);
    PlainGives(s, c, t, q);
  }

  lemma BackTrip(s: Input, p: nat, d: Cmd<string>)
    requires Printable(d) && At(s, p, Print(Back(d))) && Stop(s, p + |Print(Back(d))|)
    ensures Gives(s, ParseLine(s, p), Back(d), p + |Print(Back(d))|)
    decreases Back(d), 2
  {
    var q := p + |Group(d)|;
    GroupParts(s, p, d, "&");
    AtFirst(s, q, "&");
    GroupGives(s, p, d, q);
    BackGives(s, p, d, q);
  }

  lemma {:induction false} JoinNoNul(ws: seq<string>)
    requires AllWords(ws)
    ensures '\0' !in Join(ws)
  {
    if ws != [] {
      WordNoNul(ws[0]);
      JoinNoNul(ws[1..]);
    }
  }

  lemma {:induction false} WordNoNul(w: string)
    requires WordChars(w)
    ensures '\0' !in w
  {
    if w != "" {
      WordNoNul(w[1..]);
    }
  }

  lemma {:induction false} PrintNoNul(t: Cmd<string>)
    requires Printable(t)
    ensures '\0' !in Print(t)
  {
    match t {
      case Exec(argv) => JoinNoNul(argv);
      case Redir(d, f, i) => PrintNoNul(d); WordNoNul(f);
      case Pipe(l, r) => PrintNoNul(l); PrintNoNul(r);
      case List(l, r) => PrintNoNul(l); PrintNoNul(r);
      case Back(d) => PrintNoNul(d);
    }
  }

  // The printed form of the command is input, and it is parsed to the command.
  ghost predicate ReadBack(t: Cmd<string>) {
    && '\0' !in Print(t)
    && var r := ParseCmd(Print(t));
    && r.Ok? && WordsOk(Print(t), r.cmd) && Text(Print(t), r.cmd) == t
  }

  // Parsing the printed form of a command gives it back.
  lemma RoundTrip(t: Cmd<string>)
    requires Printable(t)
    ensures ReadBack(t)
  {
    PrintNoNul(t);
    var s: Input := Print(t);
    assert s[0..|s|] == s;
    LineTrip(s, 0, t);
    SkipStay(s, |s|);
    ReadsText(s, ParseLine(s, 0).cmd, t);
  }

  lemma {:induction false} AllWordsAdd(ws: seq<string>, w: string)
    requires AllWords(ws) && IsWord(w)
    ensures AllWords(ws + [w])
  {
    if ws != [] {
      AllWordsAdd(ws[1..], w);
      assert (ws + [w])[1..] == ws[1..] + [w];
    } else {
      assert [w][1..] == [];
    }
  }

  lemma {:induction false} WordsPrintable(s: Input, argv: seq<Slice>)
    requires AllOk(s, argv)
    ensures AllWords(Words(s, argv))
  {
    if argv != [] {
      var w := argv[|argv| - 1];
      WordsPrintable(s, argv[..|argv| - 1]);
      AllWordsAdd(Words(s, argv[..|argv| - 1]), s[w.lo..w.hi]);
    }
  }

  lemma {:induction false} TextPrintable(s: Input, c: Cmd<Slice>)
    requires WordsOk(s, c)
    ensures Printable(Text(s, c))
  {
    match c {
      case Exec(argv) => WordsPrintable(s, argv);
      case Redir(d, f, _) => TextPrintable(s, d);
      case Pipe(l, r) => TextPrintable(s, l); TextPrintable(s, r);
      case List(l, r) => TextPrintable(s, l); TextPrintable(s, r);
      case Back(d) => TextPrintable(s, d);
    }
  }

  // Every command the parser builds can be printed, and is parsed back.
  lemma Reparse(s: Input)
    requires ParseCmd(s).Ok?
    ensures WordsOk(s, ParseCmd(s).cmd)
    ensures Printable(Text(s, ParseCmd(s).cmd)) && ReadBack(Text(s, ParseCmd(s).cmd))
  {
    LineOk(s, 0);
    TextPrintable(s, ParseCmd(s).cmd);
    RoundTrip(Text(s, ParseCmd(s).cmd));
  }

  // ----- the parsers -----

  // The loops of peek() and gettoken() over white space.
  method Skip(s: Input, p: nat) returns (q: nat)
    requires p <= |s|
    ensures q == SkipWhite(s, p)
  {
    q := p;
    while q < |s| && White(s[q])
      invariant q <= |s| && SkipWhite(s, p) == SkipWhite(s, q)
    {
      q := q + 1;
    }
  }

  // gettoken()
  method NextToken(s: Input, p: nat) returns (t: Token)
    requires p <= |s|
    ensures t == GetToken(s, p)
  {
    var lo := Skip(s, p);
    var c, hi := CharAt(s, lo), lo;
    var kind := c;
    if c == '\0' {
    } else if c == '|' || c == '(' || c == ')' || c == ';' || c == '&' || c == '<' {
      hi := hi + 1;
    } else if c == '>' {
      hi := hi + 1;
      if CharAt(s, hi) == '>' {
        kind := '+';
        hi := hi + 1;
      }
    } else {
      kind := 'a';
      while hi < |s| && !White(s[hi]) && !Symbol(s[hi])
        invariant lo <= hi <= |s| && WordEnd(s, lo) == WordEnd(s, hi)
      {
        hi := hi + 1;
      }
    }
    var next := Skip(s, hi);
    t := Token(kind, lo, hi, next);
  }

  // parseredirs()
  method ParseRedirections(s: Input, c: Cmd<Slice>, p: nat) returns (r: Result)
    requires p <= |s|
    ensures r == Redirs(s, c, p)
  {
    var cmd := c;
    var q := Skip(s, p);
    while CharAt(s, q) == '<' || CharAt(s, q) == '>'
      invariant q <= |s| && q == SkipWhite(s, q) && Redirs(s, c, p) == Redirs(s, cmd, q)
      decreases |s| - q
    {
      var t := NextToken(s, q);
      var w := NextToken(s, t.next);
      if w.kind != 'a' {
        return Syntax;
      }
      cmd := Redir(cmd, Slice(w.lo, w.hi), t.kind == '<');
      q := Skip(s, w.next);
      SkipTwice(s, w.next);
    }
    r := Ok(cmd, q);
  }

  lemma SkipTwice(s: Input, p: nat)
    requires p <= |s|
    ensures SkipWhite(s, SkipWhite(s, p)) == SkipWhite(s, p)
  {
    SkipStay(s, SkipWhite(s, p));
  }

  lemma ArgsSkip(s: Input, c: Cmd<Slice>, argc: nat, p: nat)
    requires p <= |s|
    ensures Args(s, c, argc, p) == Args(s, c, argc, SkipWhite(s, p))
  {
    SkipTwice(s, p);
  }

  // The loop of parseexec().
  method ParseArguments(s: Input, c: Cmd<Slice>, p: nat) returns (r: Result)
    requires p <= |s|
    ensures r == Args(s, c, 0, p)
  {
    var cmd, argc: nat := c, 0;
    var q := Skip(s, p);
    SkipTwice(s, p);
    ArgsSkip(s, c, 0, p);
    while !(CharAt(s, q) == '|' || CharAt(s, q) == ')' || CharAt(s, q) == '&' || CharAt(s, q) == ';')
      invariant q <= |s| && q == SkipWhite(s, q) && Args(s, c, 0, p) == Args(s, cmd, argc, q)
      decreases |s| - q
    {
      var t := NextToken(s, q);
      if t.kind == '\0' {
        return Ok(cmd, t.next);
      }
      if t.kind != 'a' {
        return Syntax;
      }
      if argc + 1 >= MAXARGS {
        return Syntax;
      }
      r := ParseRedirections(s, AddArg(cmd, Slice(t.lo, t.hi)), t.next);
      if r.Syntax? {
        return;
      }
      argc := argc + 1;
      cmd := r.cmd;
      q := Skip(s, r.pos);
      SkipTwice(s, r.pos);
      ArgsSkip(s, cmd, argc, r.pos);
    }
    r := Ok(cmd, q);
  }

  // parseexec()
  method ParseSimple(s: Input, p: nat) returns (r: Result)
    requires p <= |s|
    ensures r == ParseExec(s, p)
    decreases |s| - p, 1
  {
    var q := Skip(s, p);
    if CharAt(s, q) == '(' {
      r := ParseGroup(s, q);
      return;
    }
    r := ParseRedirections(s, Exec([]), q);
    if r.Ok? {
      r := ParseArguments(s, r.cmd, r.pos);
    }
  }

  // parseblock()
  method ParseGroup(s: Input, p: nat) returns (r: Result)
    requires p <= |s|
    ensures r == ParseBlock(s, p)
    decreases |s| - p, 0
  {
    var q := Skip(s, p);
    if CharAt(s, q) != '(' {
      return Syntax;
    }
    var t := NextToken(s, q);
    r := ParseLines(s, t.next);
    if r.Syntax? {
      return;
    }
    q := Skip(s, r.pos);
    if CharAt(s, q) != ')' {
      return Syntax;
    }
    t := NextToken(s, q);
    r := ParseRedirections(s, r.cmd, t.next);
  }

  // parsepipe()
  method ParsePipeline(s: Input, p: nat) returns (r: Result)
    requires p <= |s|
    ensures r == ParsePipe(s, p)
    decreases |s| - p, 2
  {
    r := ParseSimple(s, p);
    if r.Syntax? {
      return;
    }
    var cmd := r.cmd;
    var q := Skip(s, r.pos);
    if CharAt(s, q) != '|' {
      return Ok(cmd, q);
    }
    var t := NextToken(s, q);
    r := ParsePipeline(s, t.next);
    if r.Ok? {
      r := Ok(Pipe(cmd, r.cmd), r.pos);
    }
  }

  // parseline()
  method ParseLines(s: Input, p: nat) returns (r: Result)
    requires p <= |s|
    ensures r == ParseLine(s, p)
    decreases |s| - p, 3
  {
    r := ParsePipeline(s, p);
    if r.Syntax? {
      return;
    }
    var b := ParseBacks(s, r.cmd, r.pos);
    if CharAt(s, b.pos) != ';' {
      return b;
    }
    var t := NextToken(s, b.pos);
    r := ParseLines(s, t.next);
    if r.Ok? {
      r := Ok(List(b.cmd, r.cmd), r.pos);
    }
  }

  // The loop of parseline().
  method ParseBacks(s: Input, c: Cmd<Slice>, p: nat) returns (r: Result)
    requires p <= |s|
    ensures r == Backs(s, c, p)
  {
    var cmd := c;
    var q := Skip(s, p);
    SkipTwice(s, p);
    while CharAt(s, q) == '&'
      invariant q <= |s| && q == SkipWhite(s, q) && Backs(s, c, p) == Backs(s, cmd, q)
      decreases |s| - q
    {
      var t := NextToken(s, q);
      cmd := Back(cmd);
      q := Skip(s, t.next);
      SkipTwice(s, t.next);
    }
    r := Ok(cmd, q);
  }

  // ----- nulterminate() -----

  // The words of a command.
  ghost function Slices(c: Cmd<Slice>): (r: set<Slice>) {
    match c
    case Exec(argv) => set w | w in argv
    case Redir(d, f, _) => Slices(d) + {f}
    case Pipe(l, r) => Slices(l) + Slices(r)
    case List(l, r) => Slices(l) + Slices(r)
    case Back(d) => Slices(d)
  }

  ghost predicate Ends(ws: set<Slice>, i: nat) {
    exists w :: w in ws && w.hi == i
  }

  lemma {:induction false} SlicesOk(s: Input, c: Cmd<Slice>, w: Slice)
    requires WordsOk(s, c) && w in Slices(c)
    ensures SliceOk(s, w)
  {
    match c {
      case Exec(argv) => AllOkAt(s, argv, w);
      case Redir(d, f, _) => if w != f { SlicesOk(s, d, w); }
      case Pipe(l, r) => if w in Slices(l) { SlicesOk(s, l, w); } else { SlicesOk(s, r, w); }
      case List(l, r) => if w in Slices(l) { SlicesOk(s, l, w); } else { SlicesOk(s, r, w); }
      case Back(d) => SlicesOk(s, d, w);
    }
  }

  lemma {:induction false} AllOkAt(s: Input, argv: seq<Slice>, w: Slice)
    requires AllOk(s, argv) && w in argv
    ensures SliceOk(s, w)
  {
    if w != argv[|argv| - 1] {
      AllOkAt(s, argv[..|argv| - 1], w);
    }
  }

  lemma {:induction false} WordCharsAt(w: string, i: nat)
    requires WordChars(w) && i < |w|
    ensures WordChar(w[i])
  {
    if i > 0 {
      WordCharsAt(w[1..], i - 1);
    }
  }

  // A NUL at the end of every word of a command, and nothing else changes.
  method Nulterminate(buf: array<char>, c: Cmd<Slice>)
    requires forall w :: w in Slices(c) ==> w.hi < buf.Length
    modifies buf
    ensures forall i :: 0 <= i < buf.Length ==> buf[i] == if Ends(Slices(c), i) then '\0' else old(buf[i])
    decreases c
  {
    match c {
      case Exec(argv) =>
        var k := 0;
        while k < |argv|
          invariant k <= |argv|
          invariant forall i :: 0 <= i < buf.Length ==> buf[i] == if EndsFirst(argv, k, i) then '\0' else old(buf[i])
        {
          assert argv[k] in Slices(c);
          buf[argv[k].hi] := '\0';
          k := k + 1;
        }
      case Redir(d, f, _) =>
        assert f in Slices(c) && forall w :: w in Slices(d) ==> w in Slices(c);
        Nulterminate(buf, d);
        buf[f.hi] := '\0';
      case Pipe(l, r) =>
        assert forall w :: w in Slices(l) || w in Slices(r) ==> w in Slices(c);
        Nulterminate(buf, l);
        Nulterminate(buf, r);
      case List(l, r) =>
        assert forall w :: w in Slices(l) || w in Slices(r) ==> w in Slices(c);
        Nulterminate(buf, l);
        Nulterminate(buf, r);
      case Back(d) =>
        Nulterminate(buf, d);
    }
  }

  ghost predicate EndsFirst(argv: seq<Slice>, k: nat, i: nat)
    requires k <= |argv|
  {
    exists j :: 0 <= j < k && argv[j].hi == i
  }

  // In the buffer, the word is a string that its NUL ends, as in the input.
  ghost predicate Terminated(buf: seq<char>, s: Input, w: Slice) {
    w.lo < w.hi < |buf| && w.hi <= |s| && buf[w.lo..w.hi] == s[w.lo..w.hi] && buf[w.hi] == '\0'
  }

  lemma WordsTerminated(s: Input, buf: seq<char>, c: Cmd<Slice>, w: Slice)
    requires WordsOk(s, c) && w in Slices(c) && |buf| == |s| + 1
    requires forall i :: 0 <= i < |buf| ==> buf[i] == if Ends(Slices(c), i) then '\0' else CharAt(s, i)
    ensures Terminated(buf, s, w)
  {
    SlicesOk(s, c, w);
    forall i | w.lo <= i < w.hi ensures buf[i] == s[i] {
      WordCharsAt(s[w.lo..w.hi], i - w.lo);
      assert WordChar(s[i]);
      if v :| v in Slices(c) && v.hi == i {
        SlicesOk(s, c, v);
      }
    }
  }

  // parsecmd(): the command, with each of its words a string in the buffer.
  method ParseCommand(buf: array<char>, s: Input) returns (r: Result)
    requires buf.Length == |s| + 1 && forall i :: 0 <= i < buf.Length ==> buf[i] == CharAt(s, i)
    modifies buf
    ensures r == ParseCmd(s)
    ensures r.Syntax? ==> buf[..] == old(buf[..])
    ensures r.Ok? ==> WordsOk(s, r.cmd) && forall w :: w in Slices(r.cmd) ==> Terminated(buf[..], s, w)
    ensures r.Ok? ==> forall i :: 0 <= i < buf.Length ==> buf[i] == old(buf[i]) || (buf[i] == '\0' && !WordChar(old(buf[i])))
  {
    r := ParseLines(s, 0);
    if r.Syntax? {
      return;
    }
    var q := Skip(s, r.pos);
    if q != |s| {
      return Syntax;
    }
    LineOk(s, 0);
    forall w | w in Slices(r.cmd) ensures SliceOk(s, w) {
      SlicesOk(s, r.cmd, w);
    }
    Nulterminate(buf, r.cmd);
    forall w | w in Slices(r.cmd) ensures Terminated(buf[..], s, w) {
      WordsTerminated(s, buf[..], r.cmd, w);
    }
  }
}
