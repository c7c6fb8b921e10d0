/** grep's matcher (The Practice of Programming, chapter 9) against the language a pattern
    denotes.  A C string is the sequence of its characters before the NUL. */
module Regex {

  /** One pattern character, or one followed by a star. */
  datatype Item = One(c: char) | Star(c: char)

  /** What is left of a pattern after an initial ^: items, and whether a $ ends it. */
  datatype Pattern = Pattern(items: seq<Item>, atEnd: bool)

  /** A star binds first, so that "$*" and "**" are starred characters; $ is special only as
      the very last character, ^ only as the very first of the whole pattern. */
  function Parse(re: string): Pattern {
    if re == "" then Pattern([], false)
    else if |re| > 1 && re[1] == '*' then Cons(Star(re[0]), Parse(re[2..]))
    else if re == "$" then Pattern([], true)
    else Cons(One(re[0]), Parse(re[1..]))
  }

  function Cons(it: Item, p: Pattern): Pattern {
    p.(items := [it] + p.items)
  }

  // ----------------------------------------------------------------- the language

  predicate Fits(c: char, x: char) {
    c == '.' || c == x
  }

  predicate Run(c: char, w: string) {
    forall i :: 0 <= i < |w| ==> Fits(c, w[i])
  }

  predicate PieceOf(it: Item, w: string) {
    Run(it.c, w) && (it.One? ==> |w| == 1)
  }

  function Concat(pieces: seq<string>): string {
    if pieces == [] then "" else pieces[0] + Concat(pieces[1..])
  }

  /** w can be cut into one piece for each item. */
  ghost predicate InLanguage(items: seq<Item>, w: string) {
    exists pieces: seq<string> :: Cut(items, w, pieces)
  }

  ghost predicate Cut(items: seq<Item>, w: string, pieces: seq<string>) {
    |pieces| == |items| && Concat(pieces) == w && forall k :: 0 <= k < |items| ==> PieceOf(items[k], pieces[k])
  }

  /** The substring from i to j is in the language, and j is where a final $ wants it. */
  ghost predicate MatchAt(p: Pattern, text: string, i: nat, j: nat) {
    i <= j <= |text| && (p.atEnd ==> j == |text|) && InLanguage(p.items, text[i..j])
  }

  /** Some substring of text is in the language, where the anchors want it. */
  ghost predicate Matches(re: string, text: string) {
    if re != "" && re[0] == '^' then exists j: nat :: MatchAt(Parse(re[1..]), text, 0, j)
    else exists i: nat, j: nat :: MatchAt(Parse(re), text, i, j)
  }

  ghost predicate MatchesHere(p: Pattern, text: string) {
    exists j: nat :: j <= |text| && (p.atEnd ==> j == |text|) && InLanguage(p.items, text[..j])
  }

  /** The first item takes k characters and the rest matches after them. */
  ghost predicate FirstTakes(it: Item, p: Pattern, text: string, k: nat) {
    k <= |text| && PieceOf(it, text[..k]) && MatchesHere(p, text[k..])
  }

  lemma LanguageEmpty(w: string)
    ensures InLanguage([], w) <==> w == ""
  {
    if w == "" { assert Cut([], "", []); }
  }

  lemma LanguageCons(it: Item, items: seq<Item>, u: string, w: string)
    requires PieceOf(it, u) && InLanguage(items, w)
    ensures InLanguage([it] + items, u + w)
  {
    var pieces :| Cut(items, w, pieces);
    assert ([u] + pieces)[1..] == pieces;
    assert Cut([it] + items, u + w, [u] + pieces);
  }

  lemma LanguageSplit(it: Item, items: seq<Item>, w: string) returns (k: nat)
    requires InLanguage([it] + items, w)
    ensures k <= |w| && PieceOf(it, w[..k]) && InLanguage(items, w[k..])
  {
    var pieces :| Cut([it] + items, w, pieces);
    k := |pieces[0]|;
    forall i | 0 <= i < |items| ensures PieceOf(items[i], pieces[1..][i]) {
      assert ([it] + items)[i + 1] == items[i];
    }
    assert PieceOf(([it] + items)[0], pieces[0]);
    assert w[..k] == pieces[0] && Cut(items, w[k..], pieces[1..]);
  }

  lemma HereEmpty(p: Pattern, text: string)
    requires p.items == []
    ensures MatchesHere(p, text) <==> (p.atEnd ==> text == "")
  {
    forall j: nat | j <= |text| ensures InLanguage([], text[..j]) <==> j == 0 {
      LanguageEmpty(text[..j]);
    }
    if p.atEnd ==> text == "" {
      assert InLanguage(p.items, text[..0]);
    }
  }

  lemma HereCons(it: Item, p: Pattern, text: string)
    ensures MatchesHere(Cons(it, p), text) <==> exists k: nat :: FirstTakes(it, p, text, k)
  {
    var q := Cons(it, p);
    if MatchesHere(q, text) {
      var j: nat :| j <= |text| && (q.atEnd ==> j == |text|) && InLanguage(q.items, text[..j]);
      var k := LanguageSplit(it, p.items, text[..j]);
      assert text[..j][..k] == text[..k] && text[..j][k..] == text[k..][..j - k];
      assert FirstTakes(it, p, text, k);
    }
    if k: nat :| FirstTakes(it, p, text, k) {
      var j: nat :| j <= |text[k..]| && (p.atEnd ==> j == |text[k..]|) && InLanguage(p.items, text[k..][..j]);
      LanguageCons(it, p.items, text[..k], text[k..][..j]);
      assert text[..k] + text[k..][..j] == text[..k + j];
    }
  }

  // ----------------------------------------------------------------- what patterns say

  /** A pattern as it is written. */
  function Show(p: Pattern): string
    decreases |p.items|
  {
    if p.items == [] then (if p.atEnd then "$" else "")
    else ShowItem(p.items[0]) + Show(Pattern(p.items[1..], p.atEnd))
  }

  function ShowItem(it: Item): string {
    if it.Star? then [it.c, '*'] else [it.c]
  }

  /** A plain character is not followed by a star, and a plain $ is not the last character. */
  predicate Proper(p: Pattern) {
    forall i :: 0 <= i < |p.items| ==> ProperAt(p, i)
  }

  predicate ProperAt(p: Pattern, i: nat)
    requires i < |p.items|
  {
    p.items[i].One? ==>
      (if i + 1 < |p.items| then p.items[i + 1].c != '*' else (p.items[i].c == '$' ==> p.atEnd))
  }

  lemma ProperRest(p: Pattern)
    requires Proper(p) && p.items != []
    ensures Proper(Pattern(p.items[1..], p.atEnd))
  {
    var rest := Pattern(p.items[1..], p.atEnd);
    forall i | 0 <= i < |rest.items| ensures ProperAt(rest, i) {
      assert ProperAt(p, i + 1) && rest.items[i] == p.items[i + 1];
    }
  }

  /** Writing a pattern starts with its first item's character, or the final $. */
  lemma ShowStarts(p: Pattern)
    ensures Show(p) == "" <==> p == Pattern([], false)
    ensures p.items != [] ==> Show(p)[0] == p.items[0].c
    ensures p.items == [] && p.atEnd ==> Show(p) == "$"
  {
  }

  lemma ParseStar(c: char, re: string)
    ensures Parse([c, '*'] + re) == Cons(Star(c), Parse(re))
  {
    var whole := [c, '*'] + re;
    assert whole[1] == '*' && whole[2..] == re;
  }

  lemma ParseOne(c: char, re: string)
    requires if re == "" then c != '$' else re[0] != '*'
    ensures Parse([c] + re) == Cons(One(c), Parse(re))
  {
    var whole := [c] + re;
    assert whole[0] == c && whole[1..] == re && whole != "$";
    assert |whole| > 1 ==> whole[1] == re[0];
  }

  lemma {:induction false} ShowParses(p: Pattern)
    requires Proper(p)
    ensures Parse(Show(p)) == p
    decreases |p.items|
  {
    hide Proper, Parse;
    if p.items == [] {
      ParseEnds();
    } else {
      var it, rest := p.items[0], Pattern(p.items[1..], p.atEnd);
      ProperRest(p);
      if it.One? { ProperFirst(p); }
      ShowParses(rest);
      ShowStarts(rest);
      assert p == Cons(it, rest);
      if it.Star? {
        ParseStar(it.c, Show(rest));
      } else {
        ParseOne(it.c, Show(rest));
      }
    }
  }

  lemma ParseEnds()
    ensures Parse("") == Pattern([], false) && Parse("$") == Pattern([], true)
  {
  }

  lemma ProperFirst(p: Pattern)
    requires Proper(p) && p.items != [] && p.items[0].One?
    ensures if |p.items| > 1 then p.items[1..][0].c != '*' else (p.items[0].c == '$' ==> p.atEnd)
  {
    assert ProperAt(p, 0);
  }

  lemma ProperCons(it: Item, p: Pattern)
    requires Proper(p)
    requires it.One? ==> (if p.items != [] then p.items[0].c != '*' else (it.c == '$' ==> p.atEnd))
    ensures Proper(Cons(it, p)) && Show(Cons(it, p)) == ShowItem(it) + Show(p)
  {
    var q := Cons(it, p);
    assert q.items[0] == it && Pattern(q.items[1..], q.atEnd) == p;
    forall i | 0 <= i < |q.items| ensures ProperAt(q, i) {
      if i > 0 {
        assert ProperAt(p, i - 1) && q.items[i] == p.items[i - 1];
      }
    }
  }

  lemma {:induction false} ParseShows(re: string)
    ensures Show(Parse(re)) == re && Proper(Parse(re))
    decreases |re|
  {
    hide Proper, Show;
    ShowStarts(Pattern([], false));
    ShowStarts(Pattern([], true));
    ProperEmpty();
    if |re| > 1 && re[1] == '*' {
      ParseShows(re[2..]);
      ProperCons(Star(re[0]), Parse(re[2..]));
      assert re == [re[0], '*'] + re[2..];
    } else if re != "" && re != "$" {
      ParseShows(re[1..]);
      ShowStarts(Parse(re[1..]));
      ProperCons(One(re[0]), Parse(re[1..]));
      assert re == [re[0]] + re[1..];
    }
  }

  lemma ProperEmpty()
    ensures Proper(Pattern([], false)) && Proper(Pattern([], true))
  {
  }

  /** A string has one reading: the proper pattern that is written like it. */
  lemma ParseExact(re: string, p: Pattern)
    ensures p == Parse(re) <==> Show(p) == re && Proper(p)
  {
    ParseShows(re);
    if Proper(p) { ShowParses(p); }
  }

  lemma PieceOne(c: char, w: string)
    ensures PieceOf(One(c), w) <==> |w| == 1 && (c == '.' || w[0] == c)
  {
  }

  /** A character that is neither starred nor a final $ stands for itself, . for any one. */
  lemma CharHere(c: char, re: string, text: string)
    requires re == "" ==> c != '$'
    requires re != "" ==> re[0] != '*'
    ensures MatchesHere(Parse([c] + re), text) <==>
              text != "" && (c == '.' || text[0] == c) && MatchesHere(Parse(re), text[1..])
  {
    ParseOne(c, re);
    HereCons(One(c), Parse(re), text);
    forall k: nat | k <= |text| ensures PieceOf(One(c), text[..k]) <==> k == 1 && (c == '.' || text[0] == c) {
      PieceOne(c, text[..k]);
    }
    if text != "" && (c == '.' || text[0] == c) && MatchesHere(Parse(re), text[1..]) {
      assert FirstTakes(One(c), Parse(re), text, 1);
    }
  }

  /** c* stands for any run of what c stands for, the empty one included. */
  lemma StarHere(c: char, re: string, text: string)
    ensures MatchesHere(Parse([c, '*'] + re), text) <==>
              exists k: nat :: k <= |text| && (forall i :: 0 <= i < k ==> c == '.' || text[i] == c) && MatchesHere(Parse(re), text[k..])
  {
    ParseStar(c, re);
    HereCons(Star(c), Parse(re), text);
    forall k: nat | k <= |text|
      ensures PieceOf(Star(c), text[..k]) <==> forall i :: 0 <= i < k ==> c == '.' || text[i] == c
    {
      assert forall i :: 0 <= i < k ==> text[..k][i] == text[i];
    }
    if k: nat :| k <= |text| && (forall i :: 0 <= i < k ==> c == '.' || text[i] == c) && MatchesHere(Parse(re), text[k..]) {
      assert FirstTakes(Star(c), Parse(re), text, k);
    }
    if k: nat :| FirstTakes(Star(c), Parse(re), text, k) {
      assert PieceOf(Star(c), text[..k]);
    }
  }

  predicate Literal(re: string) {
    forall i :: 0 <= i < |re| ==> re[i] != '*' && re[i] != '.'
  }

  /** A pattern of plain characters matches here exactly if the text starts with it, and with a
      final $ exactly if the text is it. */
  lemma {:induction false} LiteralHere(re: string, text: string)
    requires Literal(re)
    ensures re == "" || re[|re| - 1] != '$' ==> (MatchesHere(Parse(re), text) <==> re <= text)
    ensures MatchesHere(Parse(re + "$"), text) <==> text == re
    decreases |re|
  {
    if re == "" {
      HereEmpty(Parse(re), text);
      assert re + "$" == "$";
      HereEmpty(Parse("$"), text);
    } else {
      var c, rest := re[0], re[1..];
      assert re == [c] + rest && re + "$" == [c] + (rest + "$");
      CharHere(c, rest + "$", text);
      if re[|re| - 1] != '$' { CharHere(c, rest, text); }
      if text != "" {
        assert text == [text[0]] + text[1..];
        LiteralHere(rest, text[1..]);
      }
    }
  }

  /** A pattern without ^ matches exactly if it matches somewhere. */
  lemma MatchesSomewhere(re: string, text: string)
    requires re == "" || re[0] != '^'
    ensures Matches(re, text) <==> exists i: nat :: i <= |text| && MatchesHere(Parse(re), text[i..])
  {
    if i: nat, j: nat :| MatchAt(Parse(re), text, i, j) {
      HereAt(Parse(re), text, i);
    }
    if i: nat :| i <= |text| && MatchesHere(Parse(re), text[i..]) {
      HereAt(Parse(re), text, i);
    }
  }

  /** Without ^ a literal matches exactly if it occurs in the text; with a final $, at its end. */
  lemma LiteralOccurs(re: string, text: string)
    requires Literal(re) && (re == "" || re[0] != '^')
    ensures re == "" || re[|re| - 1] != '$' ==> (Matches(re, text) <==> exists i: nat :: i <= |text| && re <= text[i..])
    ensures Matches(re + "$", text) <==> exists i: nat :: i <= |text| && text[i..] == re
  {
    MatchesSomewhere(re, text);
    MatchesSomewhere(re + "$", text);
    forall i: nat | i <= |text|
      ensures re == "" || re[|re| - 1] != '$' ==> (MatchesHere(Parse(re), text[i..]) <==> re <= text[i..])
      ensures MatchesHere(Parse(re + "$"), text[i..]) <==> text[i..] == re
    {
      LiteralHere(re, text[i..]);
    }
  }

  /** After ^ it has to be at the beginning. */
  lemma LiteralAnchored(re: string, text: string)
    requires Literal(re)
    ensures re == "" || re[|re| - 1] != '$' ==> (Matches("^" + re, text) <==> re <= text)
    ensures Matches("^" + re + "$", text) <==> text == re
  {
    assert ("^" + re)[1..] == re && ("^" + re + "$")[1..] == re + "$";
    AnchoredHere(Parse(re), text);
    AnchoredHere(Parse(re + "$"), text);
    LiteralHere(re, text);
  }

  // ----------------------------------------------------------------- the matcher

  /** matchhere: pattern re at the beginning of text. */
  method MatchHere(re: string, text: string) returns (r: bool)
    ensures r <==> MatchesHere(Parse(re), text)
    decreases |re|, 0
  {
    if re == "" {
      HereEmpty(Parse(re), text);
      return true;
    }
    if |re| > 1 && re[1] == '*' {
      HereCons(Star(re[0]), Parse(re[2..]), text);
      assert Parse(re) == Cons(Star(re[0]), Parse(re[2..]));
      r := MatchStar(re[0], re[2..], text);
      return r;
    }
    if re == "$" {
      HereEmpty(Parse(re), text);
      return text == "";
    }
    HereCons(One(re[0]), Parse(re[1..]), text);
    if text != "" && (re[0] == '.' || re[0] == text[0]) {
      assert PieceOf(One(re[0]), text[..1]);
      r := MatchHere(re[1..], text[1..]);
      assert r ==> FirstTakes(One(re[0]), Parse(re[1..]), text, 1);
      return r;
    }
    forall k: nat ensures !FirstTakes(One(re[0]), Parse(re[1..]), text, k) {
      if k == 1 && text != "" { assert text[..1][0] == text[0]; }
    }
    return false;
  }

  /** matchstar: c*re at the beginning of text. */
  method MatchStar(c: char, re: string, text: string) returns (r: bool)
    ensures r <==> exists k: nat :: FirstTakes(Star(c), Parse(re), text, k)
    decreases |re|, 1
  {
    var at := 0;
    while true
      invariant 0 <= at <= |text| && Run(c, text[..at])
      invariant forall k: nat :: k < at ==> !FirstTakes(Star(c), Parse(re), text, k)
      decreases |text| - at
    {
      var here := MatchHere(re, text[at..]);
      if here {
        assert FirstTakes(Star(c), Parse(re), text, at);
        return true;
      }
      assert !FirstTakes(Star(c), Parse(re), text, at);
      if at == |text| || !(text[at] == c || c == '.') {
        forall k: nat ensures !FirstTakes(Star(c), Parse(re), text, k) {
          if at < k <= |text| { assert text[..k][at] == text[at]; }
        }
        return false;
      }
      at := at + 1;
    }
  }

  /** match: 1 exactly when some substring, anchored as ^ and $ require, is in the language. */
  method Match(re: string, text: string) returns (r: bool)
    ensures r <==> Matches(re, text)
  {
    if re != "" && re[0] == '^' {
      r := MatchHere(re[1..], text);
      AnchoredHere(Parse(re[1..]), text);
      return r;
    }
    var at := 0;
    while true
      invariant 0 <= at <= |text|
      invariant forall i: nat, j: nat :: i < at ==> !MatchAt(Parse(re), text, i, j)
      decreases |text| - at
    {
      var here := MatchHere(re, text[at..]);
      HereAt(Parse(re), text, at);
      if here { return true; }
      if at == |text| { return false; }
      at := at + 1;
    }
  }

  lemma HereAt(p: Pattern, text: string, i: nat)
    requires i <= |text|
    ensures MatchesHere(p, text[i..]) <==> exists j: nat :: MatchAt(p, text, i, j)
  {
    forall j: nat | j <= |text| - i ensures text[i..][..j] == text[i..i + j] { }
    if MatchesHere(p, text[i..]) {
      var j: nat :| j <= |text[i..]| && (p.atEnd ==> j == |text[i..]|) && InLanguage(p.items, text[i..][..j]);
      assert MatchAt(p, text, i, i + j);
    }
    if j: nat :| MatchAt(p, text, i, j) {
      assert text[i..][..j - i] == text[i..j];
    }
  }

  lemma AnchoredHere(p: Pattern, text: string)
    ensures MatchesHere(p, text) <==> exists j: nat :: MatchAt(p, text, 0, j)
  {
    HereAt(p, text, 0);
    assert text[0..] == text;
  }
}
