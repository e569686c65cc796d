/**
  The texts that the scanner reads as each kind of token: quoted strings and identifiers,
  dollar-quoted strings, nested comments and query fragments. PgManual says when these are
  the tokens of the PostgreSQL manual.
 */
module PgLexical {
  import opened Text
  import opened PgTokens

  // ---- Strings and identifiers in quotes ----

  /** str with every q written twice. */
  function Doubled(q: char, str: string): string {
    if str == "" then "" else (if str[0] == q then [q, q] else [str[0]]) + Doubled(q, str[1..])
  }

  function Quoted(q: char, str: string): string {
    [q] + (Doubled(q, str) + [q])
  }

  lemma StandsSplit(s: string, i: nat, a: string, b: string)
    requires i <= |s|
    ensures StandsAt(s, i, a + b) <==> StandsAt(s, i, a) && StandsAt(s, i + |a|, b)
    ensures StandsAt(s, i, a + b) ==> i + |a| + |b| <= |s|
  {
    if i + |a| + |b| <= |s| {
      var t := s[i..i + |a| + |b|];
      assert t[..|a|] == s[i..i + |a|] && t[|a|..] == s[i + |a|..i + |a| + |b|];
      assert (a + b)[..|a|] == a && (a + b)[|a|..] == b;
      assert t == t[..|a|] + t[|a|..];
    }
  }

  lemma StandsChar(s: string, i: nat, c: char)
    requires i <= |s|
    ensures StandsAt(s, i, [c]) <==> Has(s, i, c)
  {
    assert i + 1 <= |s| ==> s[i..i + 1] == [s[i]];
  }

  lemma StandsPair(s: string, i: nat, c: char, d: char)
    requires i <= |s|
    ensures StandsAt(s, i, [c, d]) <==> Has(s, i, c) && Has(s, i + 1, d)
  {
    assert [c, d] == [c] + [d];
    StandsSplit(s, i, [c], [d]);
    StandsChar(s, i, c);
    if i + 1 <= |s| {
      StandsChar(s, i + 1, d);
    }
  }

  lemma {:induction false} QuoteCompletes(s: string, i: nat, q: char, str: string)
    requires i <= |s| && q != '\0' && '\0' !in str
    requires StandsAt(s, i, Doubled(q, str) + [q]) && !Has(s, i + |Doubled(q, str)| + 1, q)
    ensures QuoteEnd(s, i, q) == Closed(i + |Doubled(q, str)| + 1)
    decreases |str|
  {
    if str == "" {
      assert Doubled(q, str) + [q] == [q];
      StandsChar(s, i, q);
    } else {
      var head, rest := if str[0] == q then [q, q] else [str[0]], Doubled(q, str[1..]) + [q];
      assert Doubled(q, str) + [q] == head + rest;
      StandsSplit(s, i, head, rest);
      StandsPair(s, i, q, q);
      StandsChar(s, i, str[0]);
      QuoteCompletes(s, i + |head|, q, str[1..]);
    }
  }

  lemma {:induction false} QuoteIsDoubled(s: string, i: nat, q: char) returns (str: string)
    requires i <= |s| && q != '\0' && QuoteEnd(s, i, q).Closed?
    ensures '\0' !in str && StandsAt(s, i, Doubled(q, str) + [q])
    ensures QuoteEnd(s, i, q).at == i + |Doubled(q, str)| + 1 && !Has(s, i + |Doubled(q, str)| + 1, q)
    decreases |s| - i
  {
    if s[i] == q && !Has(s, i + 1, q) {
      str := "";
      assert Doubled(q, str) + [q] == [q];
      StandsChar(s, i, q);
    } else {
      var head := if s[i] == q then [q, q] else [s[i]];
      var str' := QuoteIsDoubled(s, i + |head|, q);
      str := [s[i]] + str';
      assert str[1..] == str';
      StandsPair(s, i, q, q);
      StandsChar(s, i, s[i]);
      StandsSplit(s, i, head, Doubled(q, str') + [q]);
      assert Doubled(q, str) + [q] == head + (Doubled(q, str') + [q]);
    }
  }

  /** s[i..e] is a text in quotes, and not the start of a longer one. */
  ghost predicate IsQuoted(s: string, i: nat, e: nat, q: char) {
    i < e <= |s| && !Has(s, e, q) && exists str :: '\0' !in str && s[i..e] == Quoted(q, str)
  }

  lemma QuoteIsExact(s: string, i: nat, e: nat, q: char)
    requires i < |s| && q != '\0'
    ensures IsQuoted(s, i, e, q) <==> s[i] == q && QuoteEnd(s, i + 1, q) == Closed(e)
  {
    StandsChar(s, i, q);
    if IsQuoted(s, i, e, q) {
      var str :| '\0' !in str && s[i..e] == Quoted(q, str);
      StandsSplit(s, i, [q], Doubled(q, str) + [q]);
      QuoteCompletes(s, i + 1, q, str);
    }
    if s[i] == q && QuoteEnd(s, i + 1, q) == Closed(e) {
      var str := QuoteIsDoubled(s, i + 1, q);
      StandsSplit(s, i, [q], Doubled(q, str) + [q]);
      assert s[i..e] == Quoted(q, str);
    }
  }

  // ---- Dollar quoting ----

  /** A dollar sign, letters, digits and underscores, a dollar sign; the scanner lets a digit come first. */
  predicate IsTag(t: string) {
    |t| >= 2 && t[0] == '$' && t[|t| - 1] == '$' && forall k :: 0 < k < |t| - 1 ==> IsIdentChar(t[k])
  }

  /** The same tag at both ends, and nowhere before the closing one. */
  ghost predicate IsDollarQuoted(text: string) {
    exists tag, body :: DollarParts(text, tag, body)
  }

  ghost predicate DollarParts(text: string, tag: string, body: string) {
    IsTag(tag) && text == tag + (body + tag) && forall k :: |tag| <= k < |tag| + |body| ==> !StandsAt(text, k, tag)
  }

  lemma {:induction false} TagIsExact(s: string, i: nat, j: nat, e: nat)
    requires i < j <= |s| && s[i] == '$' && forall k :: i < k < j ==> IsIdentChar(s[k])
    ensures TagEnd(s, j) == Closed(e) <==> j < e <= |s| && IsTag(s[i..e])
    decreases |s| - j
  {
    if j < |s| {
      if s[j] == '$' {
        assert IsTag(s[i..j + 1]);
        assert j + 1 < e <= |s| ==> s[i..e][j - i] == '$';
      } else if IsIdentChar(s[j]) {
        TagIsExact(s, i, j + 1, e);
        assert e == j + 1 <= |s| ==> s[i..e][|s[i..e]| - 1] == s[j];
      } else {
        assert j < e <= |s| ==> s[i..e][j - i] == s[j];
      }
    }
  }

  lemma {:induction false} FindIsFirst(s: string, i: nat, text: string, k: nat)
    requires i <= |s|
    ensures Find(s, i, text) == Some(k) <==>
            i <= k && StandsAt(s, k, text) && forall m :: i <= m < k ==> !StandsAt(s, m, text)
    decreases |s| - i
  {
    if !StandsAt(s, i, text) && i < |s| {
      FindIsFirst(s, i + 1, text, k);
    }
  }

  lemma StandsInside(s: string, i: nat, e: nat, k: nat, text: string)
    requires i <= e <= |s| && i + k + |text| <= e
    ensures StandsAt(s[i..e], k, text) <==> StandsAt(s, i + k, text)
  {
    var t := s[i..e];
    assert forall m :: k <= m < k + |text| ==> t[m] == s[i + m];
    assert t[k..k + |text|] == s[i + k..i + k + |text|];
  }

  lemma DollarIsExact(s: string, i: nat, e: nat)
    requires i < |s| && s[i] == '$'
    ensures i < e <= |s| && IsDollarQuoted(s[i..e]) <==> DollarEnd(s, i) == Closed(e)
  {
    if DollarEnd(s, i) == Closed(e) {
      DollarIsQuoted(s, i, e);
    }
    if i < e <= |s| && IsDollarQuoted(s[i..e]) {
      var tag, body :| DollarParts(s[i..e], tag, body);
      DollarCompletes(s, i, e, tag, body);
    }
  }

  lemma DollarIsQuoted(s: string, i: nat, e: nat)
    requires i < |s| && s[i] == '$' && DollarEnd(s, i) == Closed(e)
    ensures IsDollarQuoted(s[i..e])
  {
    hide TagEnd, Find;
    var c := TagEnd(s, i + 1).at;
    TagIsExact(s, i, i + 1, c);
    var tag := s[i..c];
    var k := Find(s, c, tag).value;
    FindIsFirst(s, c, tag, k);
    var body := s[c..k];
    assert s[k..e] == tag;
    Cut(s, i, c, k, e);
    forall m | |tag| <= m < |tag| + |body| ensures !StandsAt(s[i..e], m, tag) {
      StandsInside(s, i, e, m, tag);
    }
    QuotedBy(s[i..e], tag, body);
  }

  lemma Cut(s: string, i: nat, j: nat, k: nat, e: nat)
    requires i <= j <= k <= e <= |s|
    ensures s[i..e] == s[i..j] + (s[j..k] + s[k..e])
  {
  }

  lemma QuotedBy(text: string, tag: string, body: string)
    requires DollarParts(text, tag, body)
    ensures IsDollarQuoted(text)
  {
  }

  lemma DollarCompletes(s: string, i: nat, e: nat, tag: string, body: string)
    requires i < e <= |s| && s[i] == '$' && DollarParts(s[i..e], tag, body)
    ensures DollarEnd(s, i) == Closed(e)
  {
    hide TagEnd, Find;
    var c, k := i + |tag|, i + |tag| + |body|;
    StandsSplit(s, i, tag, body + tag);
    StandsSplit(s, c, body, tag);
    TagIsExact(s, i, i + 1, c);
    forall m | c <= m < k ensures !StandsAt(s, m, tag) {
      StandsInside(s, i, e, m - i, tag);
    }
    FindIsFirst(s, c, tag, k);
  }

  // ---- Nested comments ----

  /** What a block comment holds. */
  datatype Piece = Char(c: char) | Nested(pieces: seq<Piece>)

  function Render(ps: seq<Piece>): string {
    if ps == [] then "" else RenderPiece(ps[0]) + Render(ps[1..])
  }

  function RenderPiece(p: Piece): string {
    match p
    case Char(c) => [c]
    case Nested(ps) => "/*" + (Render(ps) + "*/")
  }

  /** The character does not make a comment sign with the one behind it. */
  predicate Apart(c: char, d: char) {
    !(c == '/' && d == '*') && !(c == '*' && d == '/')
  }

  /** Every comment sign in the text is one of the tree's. */
  predicate Unambiguous(ps: seq<Piece>) {
    ps != [] ==>
      && Unambiguous(ps[1..])
      && match ps[0]
         case Char(c) => Apart(c, (Render(ps[1..]) + "*/")[0])
         case Nested(inner) => Unambiguous(inner)
  }

  /** The comment body at i, read by descending into the comments it holds, and the position behind its end. */
  function Pieces(s: string, i: nat): (r: Option<(seq<Piece>, nat)>)
    requires i <= |s|
    ensures r.Some? ==> i < r.value.1 <= |s|
    decreases |s| - i
  {
    if i == |s| then None
    else if Closes(s, i) then Some(([], i + 2))
    else if Opens(s, i) then
      match Pieces(s, i + 2)
      case None => None
      case Some((inner, e)) => Prepend(Nested(inner), Pieces(s, e))
    else Prepend(Char(s[i]), Pieces(s, i + 1))
  }

  function Prepend(p: Piece, r: Option<(seq<Piece>, nat)>): Option<(seq<Piece>, nat)> {
    if r.None? then None else Some(([p] + r.value.0, r.value.1))
  }

  /** Counting levels is the same as descending into them. */
  lemma {:induction false} CountingIsDescending(s: string, i: nat, depth: nat)
    requires i <= |s|
    ensures CommentEnd(s, i, depth + 1) ==
            if Pieces(s, i).None? then Open(|s|) else CommentEnd(s, Pieces(s, i).value.1, depth)
    decreases |s| - i
  {
    if i < |s| && !Closes(s, i) {
      if Opens(s, i) {
        CountingIsDescending(s, i + 2, depth + 1);
        if Pieces(s, i + 2).Some? {
          CountingIsDescending(s, Pieces(s, i + 2).value.1, depth);
        }
      } else {
        CountingIsDescending(s, i + 1, depth);
      }
    }
  }

  /** A piece before a comment body gives a comment body. */
  lemma PrependRenders(s: string, i: nat, p: Piece, k: nat, rest: seq<Piece>)
    requires i <= k <= |s| && StandsAt(s, i, RenderPiece(p)) && k == i + |RenderPiece(p)|
    requires Unambiguous(rest) && StandsAt(s, k, Render(rest) + "*/")
    requires match p case Char(c) => !Closes(s, i) && !Opens(s, i) case Nested(inner) => Unambiguous(inner)
    ensures Unambiguous([p] + rest) && StandsAt(s, i, Render([p] + rest) + "*/")
    ensures |Render([p] + rest)| == |RenderPiece(p)| + |Render(rest)|
  {
    hide StandsAt;
    var ps := [p] + rest;
    assert ps[1..] == rest;
    StandsSplit(s, i, RenderPiece(p), Render(rest) + "*/");
    assert Render(ps) + "*/" == RenderPiece(p) + (Render(rest) + "*/");
    FirstStands(s, k, Render(rest) + "*/");
    if p.Char? {
      StandsChar(s, i, p.c);
    }
  }

  lemma {:induction false} PiecesRender(s: string, i: nat)
    requires i <= |s| && Pieces(s, i).Some?
    ensures var (ps, e) := Pieces(s, i).value;
            Unambiguous(ps) && e == i + |Render(ps)| + 2 && StandsAt(s, i, Render(ps) + "*/")
    decreases |s| - i
  {
    hide StandsAt;
    if Closes(s, i) {
      assert Render([]) + "*/" == "*/";
      StandsPair(s, i, '*', '/');
    } else if Opens(s, i) {
      var (inner, k) := Pieces(s, i + 2).value;
      PiecesRender(s, i + 2);
      StandsPair(s, i, '/', '*');
      StandsSplit(s, i, "/*", Render(inner) + "*/");
      PiecesRender(s, k);
      PrependRenders(s, i, Nested(inner), k, Pieces(s, k).value.0);
    } else {
      StandsChar(s, i, s[i]);
      PiecesRender(s, i + 1);
      PrependRenders(s, i, Char(s[i]), i + 1, Pieces(s, i + 1).value.0);
    }
  }

  lemma FirstStands(s: string, i: nat, text: string)
    requires StandsAt(s, i, text) && text != ""
    ensures Has(s, i, text[0])
  {
    assert s[i..i + |text|][0] == s[i];
  }

  lemma {:induction false} RenderIsRead(s: string, i: nat, ps: seq<Piece>)
    requires i <= |s| && Unambiguous(ps) && StandsAt(s, i, Render(ps) + "*/")
    ensures Pieces(s, i) == Some((ps, i + |Render(ps)| + 2))
    decreases ps
  {
    hide StandsAt;
    if ps == [] {
      assert Render(ps) + "*/" == "*/";
      StandsPair(s, i, '*', '/');
    } else {
      var p, rest := ps[0], ps[1..];
      var k := i + |RenderPiece(p)|;
      assert Render(ps) + "*/" == RenderPiece(p) + (Render(rest) + "*/");
      StandsSplit(s, i, RenderPiece(p), Render(rest) + "*/");
      RenderIsRead(s, k, rest);
      if p.Nested? {
        StandsSplit(s, i, "/*", Render(p.pieces) + "*/");
        StandsPair(s, i, '/', '*');
        RenderIsRead(s, i + 2, p.pieces);
      } else {
        StandsChar(s, i, p.c);
        FirstStands(s, k, Render(rest) + "*/");
      }
      assert ps == [p] + rest;
    }
  }

  ghost predicate IsBlockComment(text: string) {
    exists ps :: Unambiguous(ps) && text == RenderPiece(Nested(ps))
  }

  lemma CommentIsTree(s: string, i: nat, e: nat)
    requires Opens(s, i) && CommentEnd(s, i + 2, 1) == Closed(e)
    ensures i <= e <= |s| && IsBlockComment(s[i..e])
  {
    hide Pieces, Render, Unambiguous;
    CountingIsDescending(s, i + 2, 0);
    var (ps, _) := Pieces(s, i + 2).value;
    PiecesRender(s, i + 2);
    StandsPair(s, i, '/', '*');
    StandsSplit(s, i, "/*", Render(ps) + "*/");
    assert s[i..e] == RenderPiece(Nested(ps));
  }

  lemma TreeIsComment(s: string, i: nat, e: nat, ps: seq<Piece>)
    requires i <= e <= |s| && Unambiguous(ps) && s[i..e] == RenderPiece(Nested(ps))
    ensures Opens(s, i) && CommentEnd(s, i + 2, 1) == Closed(e)
  {
    hide Pieces, Render, Unambiguous;
    StandsSplit(s, i, "/*", Render(ps) + "*/");
    StandsPair(s, i, '/', '*');
    RenderIsRead(s, i + 2, ps);
    CountingIsDescending(s, i + 2, 0);
  }

  lemma CommentIsExact(s: string, i: nat, e: nat)
    requires i <= |s|
    ensures i <= e <= |s| && IsBlockComment(s[i..e]) <==> Opens(s, i) && CommentEnd(s, i + 2, 1) == Closed(e)
  {
    hide CommentEnd, Render, Unambiguous;
    if Opens(s, i) && CommentEnd(s, i + 2, 1) == Closed(e) {
      CommentIsTree(s, i, e);
    }
    if i <= e <= |s| && IsBlockComment(s[i..e]) {
      var ps :| Unambiguous(ps) && s[i..e] == RenderPiece(Nested(ps));
      TreeIsComment(s, i, e, ps);
    }
  }

  // ---- Query fragments ----

  /** A fragment cannot go on here. A dollar sign continues a word or a number, and nothing else. */
  predicate Stops(s: string, i: nat)
    requires i < |s|
  {
    || s[i] == '\0' || s[i] == ';' || s[i] == '\'' || s[i] == '"'
    || (s[i] == '-' && Has(s, i + 1, '-')) || (s[i] == '/' && Has(s, i + 1, '*'))
    || (s[i] == '$' && !(i > 0 && (IsIdentChar(s[i - 1]) || s[i - 1] == '$')))
  }

  predicate IsFragment(s: string, i: nat, e: nat) {
    && i <= e <= |s| && (forall k :: i <= k < e ==> !Stops(s, k)) && (e == |s| || Stops(s, e))
  }

  lemma {:induction false} WordGoesOn(s: string, i: nat, j: nat)
    requires i < j <= |s| && s[i] == '$' && !Stops(s, i) && (IsIdentChar(s[j - 1]) || s[j - 1] == '$')
    ensures forall k :: j <= k < WordEnd(s, j) ==> !Stops(s, k)
    ensures var w := WordEnd(s, j); w < |s| ==> s[w] != '$'
    decreases |s| - j
  {
    if j < |s| && (IsIdentChar(s[j]) || s[j] == '$') {
      WordGoesOn(s, i, j + 1);
    }
  }

  lemma {:induction false} FragmentStops(s: string, i: nat)
    requires i <= |s| && (i > 0 && Has(s, i, '$') ==> s[i - 1] != '$')
    ensures IsFragment(s, i, FragmentEnd(s, i))
    decreases |s| - i
  {
    if i < |s| && !Stops(s, i) {
      if s[i] == '$' {
        WordGoesOn(s, i, i + 1);
        FragmentStops(s, WordEnd(s, i));
      } else {
        FragmentStops(s, i + 1);
      }
    }
  }

  lemma FragmentIsExact(s: string, i: nat, e: nat)
    requires i <= |s| && !Has(s, i, '$')
    ensures IsFragment(s, i, e) <==> FragmentEnd(s, i) == e
  {
    FragmentStops(s, i);
  }
}
