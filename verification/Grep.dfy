// The matcher of grep.c against the language of its patterns: characters, `.`,
// `c*`, a leading `^` and a trailing `$`.  Strings are without their final NUL.
module Grep {

  // A character, or a character starred; '.' stands for any.
  datatype Item = One(c: char) | Star(c: char)

  // A pattern without a leading `^`.
  datatype Pattern = Pattern(items: seq<Item>, toEnd: bool)

  function Parse(re: string): (p: Pattern) {
    if re == "" then Pattern([], false)
    else if |re| >= 2 && re[1] == '*' then
      var rest := Parse(re[2..]);
      Pattern([Star(re[0])] + rest.items, rest.toEnd)
    else if re == "$" then Pattern([], true)
    else
      var rest := Parse(re[1..]);
      Pattern([One(re[0])] + rest.items, rest.toEnd)
  }

  // A pattern as it is written.
  function Show(items: seq<Item>, toEnd: bool): (re: string) {
    if items == [] then if toEnd then "$" else ""
    else [items[0].c] + (if items[0].Star? then "*" else "") + Show(items[1..], toEnd)
  }

  // A `*` after a plain character stars it, and a final `$` is not a plain one.
  predicate Plain(items: seq<Item>, toEnd: bool) {
    && (forall k :: 0 <= k < |items| - 1 && items[k].One? ==> items[k + 1].c != '*')
    && (items != [] && !toEnd ==> items[|items| - 1] != One('$'))
  }

  // The item that a pattern begins with, and how much of it that is.
  function Head(re: string): (r: (Item, nat))
    requires re != ""
  {
    if |re| >= 2 && re[1] == '*' then (Star(re[0]), 2) else (One(re[0]), 1)
  }

  lemma ParseStep(re: string)
    requires re != "" && re != "$"
    ensures Head(re).1 <= |re|
    ensures var (item, n) := Head(re); Parse(re) == Pattern([item] + Parse(re[n..]).items, Parse(re[n..]).toEnd)
  {
  }

  lemma ShowStep(re: string, items: seq<Item>, toEnd: bool)
    requires re != "" && Show(items, toEnd) == re[Head(re).1..]
    ensures Show([Head(re).0] + items, toEnd) == re
  {
    assert ([Head(re).0] + items)[1..] == items;
  }

  lemma ShowStart(items: seq<Item>, toEnd: bool)
    ensures items != [] ==> Show(items, toEnd) != "" && Show(items, toEnd)[0] == items[0].c
    ensures items == [] && !toEnd <==> Show(items, toEnd) == ""
  {
  }

  lemma PlainStep(item: Item, items: seq<Item>, toEnd: bool)
    requires Plain(items, toEnd)
    requires item.One? && items != [] ==> items[0].c != '*'
    requires items == [] && !toEnd ==> item != One('$')
    ensures Plain([item] + items, toEnd)
  {
    var all := [item] + items;
    forall k | 0 <= k < |all| - 1 && all[k].One? ensures all[k + 1].c != '*' {
      assert all[k + 1] == items[k];
      assert k > 0 ==> all[k] == items[k - 1];
    }
  }

  // Every string is how its pattern is written.
  lemma {:induction false} ShowParse(re: string)
    ensures Show(Parse(re).items, Parse(re).toEnd) == re && Plain(Parse(re).items, Parse(re).toEnd)
    decreases |re|
  {
    if re != "" && re != "$" {
      var (item, n) := Head(re);
      ParseStep(re);
      var rest := Parse(re[n..]);
      ShowParse(re[n..]);
      ShowStep(re, rest.items, rest.toEnd);
      ShowStart(rest.items, rest.toEnd);
      PlainStep(item, rest.items, rest.toEnd);
    }
  }

  // A pattern is read back from how it is written exactly if it is plain.
  lemma {:induction false} ParseShow(items: seq<Item>, toEnd: bool)
    ensures Parse(Show(items, toEnd)) == Pattern(items, toEnd) <==> Plain(items, toEnd)
  {
    ShowParse(Show(items, toEnd));
    if Plain(items, toEnd) {
      PlainBack(items, toEnd);
    }
  }

  lemma {:induction false} PlainBack(items: seq<Item>, toEnd: bool)
    requires Plain(items, toEnd)
    ensures Parse(Show(items, toEnd)) == Pattern(items, toEnd)
    decreases |items|
  {
    if items != [] {
      var rest, re := items[1..], Show(items, toEnd);
      PlainBack(rest, toEnd);
      assert items == [items[0]] + rest;
      if items[0].Star? {
        assert re == [items[0].c, '*'] + Show(rest, toEnd);
        assert re[2..] == Show(rest, toEnd);
      } else {
        assert re[1..] == Show(rest, toEnd);
        assert rest != [] ==> rest[0] == items[1] && Show(rest, toEnd)[0] == items[1].c;
      }
    }
  }

  // ----- the language of a pattern -----

  predicate Fits(c: char, x: char) {
    c == '.' || c == x
  }

  ghost predicate AllFit(c: char, s: string) {
    forall i :: 0 <= i < |s| ==> Fits(c, s[i])
  }

  ghost predicate ItemLang(item: Item, s: string) {
    match item
    case One(c) => |s| == 1 && Fits(c, s[0])
    case Star(c) => AllFit(c, s)
  }

  // A string is in the language of a sequence of items if it can be cut so that
  // each piece is in the language of its item.
  ghost predicate InLang(items: seq<Item>, s: string)
    decreases |items|, 1
  {
    if items == [] then s == ""
    else exists k: nat :: k <= |s| && CutAt(items, s, k)
  }

  ghost predicate CutAt(items: seq<Item>, s: string, k: nat)
    requires items != [] && k <= |s|
    decreases |items|, 0
  {
    ItemLang(items[0], s[..k]) && InLang(items[1..], s[k..])
  }

  // The first n characters of the text are matched, all of them for `$`.
  ghost predicate PrefixMatch(p: Pattern, text: string, n: nat)
    requires n <= |text|
  {
    InLang(p.items, text[..n]) && (p.toEnd ==> n == |text|)
  }

  ghost predicate MatchesHere(p: Pattern, text: string) {
    exists n: nat :: n <= |text| && PrefixMatch(p, text, n)
  }

  // Some substring is matched; with `^` one at the start.
  ghost predicate Matches(re: string, text: string) {
    if re != "" && re[0] == '^' then MatchesHere(Parse(re[1..]), text)
    else exists i: nat :: i <= |text| && MatchesHere(Parse(re), text[i..])
  }

  // What the language is: a plain character stands for itself and `.` for any, a
  // star for any number of them, and items one after the other for their pieces.
  lemma LangOne(c: char, s: string)
    ensures InLang([One(c)], s) <==> |s| == 1 && (c == '.' || c == s[0])
    ensures InLang([Star(c)], s) <==> forall i :: 0 <= i < |s| ==> c == '.' || c == s[i]
    ensures InLang([], s) <==> |s| == 0
  {
    LangItem(One(c), s);
    LangItem(Star(c), s);
  }

  lemma LangItem(item: Item, s: string)
    ensures InLang([item], s) <==> ItemLang(item, s)
  {
    assert s[..|s|] == s && [item][1..] == [];
    var items := [item];
    if InLang(items, s) {
      assert InLang(items, s);
      var k: nat :| k <= |s| && CutAt(items, s, k);
      assert InLang([], s[k..]);
    }
    if ItemLang(item, s) {
      assert InLang([], s[|s|..]);
      assert CutAt(items, s, |s|);
    }
  }

  ghost predicate Pieces(a: seq<Item>, b: seq<Item>, s: string, k: nat)
    requires k <= |s|
  {
    InLang(a, s[..k]) && InLang(b, s[k..])
  }

  lemma LangConcat(a: seq<Item>, b: seq<Item>, s: string)
    ensures InLang(a + b, s) <==> exists k: nat :: k <= |s| && Pieces(a, b, s, k)
  {
    if InLang(a + b, s) {
      var k := Split(a, b, s);
    }
    if k: nat :| k <= |s| && Pieces(a, b, s, k) {
      Joined(a, b, s, k);
    }
  }

  lemma SliceSlices(s: string, j: nat, k: nat)
    requires j <= k <= |s|
    ensures s[..k][..j] == s[..j] && s[..k][j..] == s[j..][..k - j] && s[k..] == s[j..][k - j..]
  {
  }

  lemma {:induction false} Split(a: seq<Item>, b: seq<Item>, s: string) returns (k: nat)
    requires InLang(a + b, s)
    ensures k <= |s| && Pieces(a, b, s, k)
    decreases |a|
  {
    if a == [] {
      assert a + b == b && s[0..] == s;
      k := 0;
    } else {
      var c := a + b;
      assert c[1..] == a[1..] + b;
      assert InLang(c, s);
      var j: nat :| j <= |s| && CutAt(c, s, j);
      var m := Split(a[1..], b, s[j..]);
      k := j + m;
      SliceSlices(s, j, k);
      assert CutAt(a, s[..k], j);
    }
  }

  lemma {:induction false} Joined(a: seq<Item>, b: seq<Item>, s: string, k: nat)
    requires k <= |s| && Pieces(a, b, s, k)
    ensures InLang(a + b, s)
    decreases |a|
  {
    if a == [] {
      assert a + b == b && s[k..] == s;
    } else {
      var c := a + b;
      assert c[1..] == a[1..] + b;
      assert InLang(a, s[..k]);
      var j: nat :| j <= k && CutAt(a, s[..k], j);
      SliceSlices(s, j, k);
      Joined(a[1..], b, s[j..], k - j);
      assert CutAt(c, s, j);
    }
  }

  // Characters lo to hi of the text are in the language, and reach its end for `$`.
  ghost predicate FoundAt(p: Pattern, text: string, lo: nat, hi: nat) {
    lo <= hi <= |text| && InLang(p.items, text[lo..hi]) && (p.toEnd ==> hi == |text|)
  }

  // Some substring is matched; behind `^` one that starts the text.
  lemma MatchesSubstring(re: string, text: string)
    ensures Matches("^" + re, text) <==> exists hi: nat :: FoundAt(Parse(re), text, 0, hi)
    ensures re == "" || re[0] != '^' ==>
      (Matches(re, text) <==> exists lo: nat, hi: nat :: FoundAt(Parse(re), text, lo, hi))
  {
    assert ("^" + re)[1..] == re && text[0..] == text;
    FoundHere(Parse(re), text, 0);
    assert Matches("^" + re, text) <==> MatchesHere(Parse(re), text);
    forall lo: nat | lo <= |text|
      ensures MatchesHere(Parse(re), text[lo..]) <==> exists hi: nat :: FoundAt(Parse(re), text, lo, hi)
    {
      FoundHere(Parse(re), text, lo);
    }
    if re == "" || re[0] != '^' {
      AnyStart(re, text);
    }
  }

  lemma AnyStart(re: string, text: string)
    requires re == "" || re[0] != '^'
    requires forall lo: nat :: lo <= |text| ==>
      (MatchesHere(Parse(re), text[lo..]) <==> exists hi: nat :: FoundAt(Parse(re), text, lo, hi))
    ensures Matches(re, text) <==> exists lo: nat, hi: nat :: FoundAt(Parse(re), text, lo, hi)
  {
    if Matches(re, text) {
      var lo: nat :| lo <= |text| && MatchesHere(Parse(re), text[lo..]);
      var hi: nat :| FoundAt(Parse(re), text, lo, hi);
    }
    if lo: nat, hi: nat :| FoundAt(Parse(re), text, lo, hi) {
      assert lo <= |text| && MatchesHere(Parse(re), text[lo..]);
      assert exists i: nat :: i <= |text| && MatchesHere(Parse(re), text[i..]);
    }
  }

  lemma FoundHere(p: Pattern, text: string, lo: nat)
    requires lo <= |text|
    ensures MatchesHere(p, text[lo..]) <==> exists hi: nat :: FoundAt(p, text, lo, hi)
  {
    if n: nat :| n <= |text[lo..]| && PrefixMatch(p, text[lo..], n) {
      assert text[lo..][..n] == text[lo..lo + n];
      assert FoundAt(p, text, lo, lo + n);
    }
    if hi: nat :| FoundAt(p, text, lo, hi) {
      assert text[lo..][..hi - lo] == text[lo..hi];
      assert PrefixMatch(p, text[lo..], hi - lo);
    }
  }

  // ----- one item at a time -----

  lemma EmptyMatches(toEnd: bool, text: string)
    ensures MatchesHere(Pattern([], toEnd), text) <==> !toEnd || text == ""
  {
    if !toEnd || text == "" {
      assert PrefixMatch(Pattern([], toEnd), text, 0);
    }
  }

  lemma OneMatches(c: char, p: Pattern, text: string)
    ensures MatchesHere(Pattern([One(c)] + p.items, p.toEnd), text) <==>
      text != "" && Fits(c, text[0]) && MatchesHere(p, text[1..])
  {
    var items := [One(c)] + p.items;
    var q := Pattern(items, p.toEnd);
    assert items[1..] == p.items;
    if MatchesHere(q, text) {
      var n: nat :| n <= |text| && PrefixMatch(q, text, n);
      var s := text[..n];
      assert InLang(items, s);
      var k: nat :| k <= |s| && CutAt(items, s, k);
      assert text[..n][..1] == text[..1] && text[..n][1..] == text[1..][..n - 1];
      assert PrefixMatch(p, text[1..], n - 1);
    }
    if text != "" && Fits(c, text[0]) && MatchesHere(p, text[1..]) {
      var n: nat :| n <= |text[1..]| && PrefixMatch(p, text[1..], n);
      assert text[..n + 1][..1] == text[..1] && text[..n + 1][1..] == text[1..][..n];
      assert CutAt(items, text[..n + 1], 1);
      assert PrefixMatch(q, text, n + 1);
    }
  }

  // A cut of the text after k characters that the star takes.
  ghost predicate StarCut(c: char, p: Pattern, text: string, k: nat) {
    k <= |text| && AllFit(c, text[..k]) && MatchesHere(p, text[k..])
  }

  ghost predicate StarMatch(c: char, p: Pattern, text: string) {
    exists k: nat :: StarCut(c, p, text, k)
  }

  lemma StarMatches(c: char, p: Pattern, text: string)
    ensures MatchesHere(Pattern([Star(c)] + p.items, p.toEnd), text) <==> StarMatch(c, p, text)
  {
    var items := [Star(c)] + p.items;
    var q := Pattern(items, p.toEnd);
    assert items[1..] == p.items;
    if MatchesHere(q, text) {
      var n: nat :| n <= |text| && PrefixMatch(q, text, n);
      var s := text[..n];
      assert InLang(items, s);
      var k: nat :| k <= |s| && CutAt(items, s, k);
      assert text[..n][..k] == text[..k] && text[..n][k..] == text[k..][..n - k];
      assert PrefixMatch(p, text[k..], n - k);
      assert StarCut(c, p, text, k);
    }
    if k: nat :| StarCut(c, p, text, k) {
      var n: nat :| n <= |text[k..]| && PrefixMatch(p, text[k..], n);
      assert text[..k + n][..k] == text[..k] && text[..k + n][k..] == text[k..][..n];
      assert CutAt(items, text[..k + n], k);
      assert PrefixMatch(q, text, k + n);
    }
  }

  // ----- the matcher -----

  // match(): exactly if some substring of the text is in the language.
  method Match(re: string, text: string) returns (r: bool)
    ensures r <==> Matches(re, text)
  {
    if re != "" && re[0] == '^' {
      r := MatchHere(re[1..], text);
      return;
    }
    var t := 0;
    while true
      invariant t <= |text| && forall i: nat :: i < t ==> !MatchesHere(Parse(re), text[i..])
      decreases |text| - t
    {
      r := MatchHere(re, text[t..]);
      if r {
        return true;
      }
      if t == |text| {
        break;
      }
      t := t + 1;
    }
    r := false;
  }

  // matchhere(): a match at the beginning of the text.
  method MatchHere(re: string, text: string) returns (r: bool)
    ensures r <==> MatchesHere(Parse(re), text)
    decreases |re|, 0
  {
    if re == "" {
      EmptyMatches(false, text);
      return true;
    }
    if |re| >= 2 && re[1] == '*' {
      StarMatches(re[0], Parse(re[2..]), text);
      r := MatchStar(re[0], re[2..], text);
      return;
    }
    if re == "$" {
      EmptyMatches(true, text);
      return text == "";
    }
    OneMatches(re[0], Parse(re[1..]), text);
    if text != "" && (re[0] == '.' || re[0] == text[0]) {
      r := MatchHere(re[1..], text[1..]);
      return;
    }
    r := false;
  }

  // matchstar(): a match of c*re at the beginning of the text.
  method MatchStar(c: char, re: string, text: string) returns (r: bool)
    ensures r <==> StarMatch(c, Parse(re), text)
    decreases |re|, 1
  {
    var t := 0;
    while true
      invariant t <= |text| && AllFit(c, text[..t]) && forall k: nat :: k < t ==> !StarCut(c, Parse(re), text, k)
      decreases |text| - t
    {
      r := MatchHere(re, text[t..]);
      if r {
        assert StarCut(c, Parse(re), text, t);
        return true;
      }
      if t == |text| || !(text[t] == c || c == '.') {
        break;
      }
      assert text[..t + 1] == text[..t] + [text[t]];
      t := t + 1;
    }
    forall k: nat | k > t ensures !StarCut(c, Parse(re), text, k) {
      assert k <= |text| ==> text[..k][t] == text[t];
    }
    r := false;
  }
}
