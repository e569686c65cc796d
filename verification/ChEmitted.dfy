/**
  The helper that generated code fills identifier holes with. It knows nothing of literals
  and comments: it replaces text, name after name, in the order a Go map happens to give.
 */
module ChEmitted {
  import opened Text
  import opened ChTypes
  import opened ChLex
  import opened ChStatements
  import opened ChParams
  import opened ChQuiet
  import opened ChRewrite
  import opened ChCommute
  import opened ChBind

  // ---- checkIdentifier ----

  function SplitDots(s: string): (parts: seq<string>)
    ensures parts != []
  {
    if s == "" then [""]
    else
      var rest := SplitDots(s[1..]);
      if s[0] == '.' then [""] + rest else [[s[0]] + rest[0]] + rest[1..]
  }

  /** A letter or underscore, followed by letters, digits and underscores. */
  predicate PlainPart(part: string) {
    part != "" && forall i :: 0 <= i < |part| ==> IsLetter(part[i]) || (i > 0 && IsDigit(part[i]))
  }

  predicate PlainIdentifier(value: string) {
    value != "" && forall part <- SplitDots(value) :: PlainPart(part)
  }

  method CheckIdentifier(value: string) returns (ok: bool)
    ensures ok == PlainIdentifier(value)
  {
    if value == "" {
      return false;
    }
    var parts := SplitDots(value);
    for k := 0 to |parts|
      invariant forall j :: 0 <= j < k ==> PlainPart(parts[j])
    {
      var part := parts[k];
      assert part in parts;
      if part == "" {
        return false;
      }
      for i := 0 to |part|
        invariant forall j :: 0 <= j < i ==> IsLetter(part[j]) || (j > 0 && IsDigit(part[j]))
      {
        if IsLetter(part[i]) || (i > 0 && IsDigit(part[i])) {
          continue;
        }
        return false;
      }
    }
    return true;
  }

  /** The text read on from inside a part or, at a start, from where a part begins. */
  predicate Walk(s: string, atStart: bool) {
    if s == "" then !atStart
    else if s[0] == '.' then !atStart && Walk(s[1..], true)
    else (IsLetter(s[0]) || (!atStart && IsDigit(s[0]))) && Walk(s[1..], false)
  }

  lemma PartCons(c: char, part: string)
    ensures PlainPart([c] + part) <==> IsLetter(c) && forall x <- part :: IsIdentChar(x)
  {
    var whole := [c] + part;
    assert forall i :: 0 < i < |whole| ==> whole[i] == part[i - 1];
    if PlainPart(whole) {
      assert IsLetter(whole[0]);
      forall x <- part ensures IsIdentChar(x) {
        var i :| 0 <= i < |part| && part[i] == x;
        assert whole[i + 1] == x;
      }
    }
    assert forall i :: 0 < i < |whole| ==> whole[i] in part;
  }

  lemma {:induction false} WalkIsParts(s: string)
    ensures Walk(s, true) <==> forall part <- SplitDots(s) :: PlainPart(part)
    ensures Walk(s, false) <==>
            (forall x <- SplitDots(s)[0] :: IsIdentChar(x)) && forall part <- SplitDots(s)[1..] :: PlainPart(part)
  {
    hide PlainPart;
    var parts := SplitDots(s);
    EmptyPart();
    if s != "" {
      WalkIsParts(s[1..]);
      var rest := SplitDots(s[1..]);
      if s[0] == '.' {
        assert parts[1..] == rest && parts[0] == "" && parts[0] in parts;
        assert forall part :: part in parts <==> part == "" || part in rest;
      } else {
        var head := [s[0]] + rest[0];
        assert parts[1..] == rest[1..] && parts[0] == head;
        assert forall part :: part in parts <==> part == head || part in rest[1..];
        PartCons(s[0], rest[0]);
        assert forall x :: x in head <==> x == s[0] || x in rest[0];
        assert (forall x <- head :: IsIdentChar(x)) <==> IsIdentChar(s[0]) && forall x <- rest[0] :: IsIdentChar(x);
      }
    }
  }

  lemma EmptyPart()
    ensures !PlainPart("")
  {
  }

  /** The i-th character may stand there: a digit or a dot only behind a letter, digit or underscore. */
  predicate PlainAt(s: string, i: nat)
    requires i < |s|
  {
    IsLetter(s[i]) || ((IsDigit(s[i]) || s[i] == '.') && i > 0 && s[i - 1] != '.')
  }

  lemma {:induction false} WalkIsChars(s: string, i: nat)
    requires i <= |s| && s != ""
    ensures Walk(s[i..], i == 0 || s[i - 1] == '.') <==>
            (forall k :: i <= k < |s| ==> PlainAt(s, k)) && s[|s| - 1] != '.'
    decreases |s| - i
  {
    if i < |s| {
      assert s[i..][0] == s[i] && s[i..][1..] == s[i + 1..];
      WalkIsChars(s, i + 1);
      assert (forall k :: i <= k < |s| ==> PlainAt(s, k)) <==>
        PlainAt(s, i) && forall k :: i + 1 <= k < |s| ==> PlainAt(s, k);
    }
  }

  /** The values that are accepted, character by character. */
  lemma PlainExactlyWhen(value: string)
    ensures PlainIdentifier(value) <==>
            value != "" && value[|value| - 1] != '.' && forall i :: 0 <= i < |value| ==> PlainAt(value, i)
  {
    hide PlainPart;
    if value != "" {
      assert value[0..] == value;
      WalkIsParts(value);
      WalkIsChars(value, 0);
    }
  }

  lemma {:induction false} PlainIsTame(s: string, c: char)
    requires c in s
    ensures c == '.' || exists part <- SplitDots(s) :: c in part
  {
    var rest := SplitDots(s[1..]);
    if s[0] == '.' {
      if c != '.' {
        PlainIsTame(s[1..], c);
        var part :| part in rest && c in part;
        assert part in SplitDots(s);
      }
    } else {
      var head := [s[0]] + rest[0];
      assert head in SplitDots(s);
      if c in s[1..] && c != '.' {
        PlainIsTame(s[1..], c);
        var part :| part in rest && c in part;
        if part != rest[0] {
          assert part in rest[1..] && part in SplitDots(s);
        } else {
          assert c in head;
        }
      } else if c == s[0] {
        assert c in head;
      }
    }
  }

  lemma AcceptedIsStandIn(value: string)
    requires PlainIdentifier(value)
    ensures Quiet(value, true) && StandIn(Lex(value, true)) && Flatten(Lex(value, true)) == value
    ensures Scannable(Lex(value, true)) && Occs(Lex(value, true)) == [] && '{' !in value
  {
    hide Lex, StandIn, Scannable, Occs, Quiet, Flatten;
    forall c <- value ensures TameChar(c) && c != '{' {
      PlainIsTame(value, c);
      if c != '.' {
        var part :| part in SplitDots(value) && c in part;
        assert PlainPart(part);
      }
    }
    TameIsQuiet(value, true);
    var part := SplitDots(value)[0];
    assert part in SplitDots(value) && PlainPart(part);
    assert value[0] != '.' ==> part[0] == value[0];
    assert value[0] == '.' ==> part == "";
    QuietIsStandIn(value);
  }

  // ---- substituteIdentifiers ----

  /** strings.ReplaceAll for a pattern that is not empty. */
  function ReplaceAll(s: string, pat: string, v: string): string
    requires pat != ""
  {
    if s == "" then ""
    else if pat <= s then v + ReplaceAll(s[|pat|..], pat, v)
    else [s[0]] + ReplaceAll(s[1..], pat, v)
  }

  function Pattern(name: string): (pat: string)
    ensures pat != ""
  {
    "{" + name + ":Identifier}"
  }

  /** Fills the names in the given order, refusing values that are not plain identifiers. */
  function Emitted(sql: string, values: map<string, string>, order: seq<string>): Option<string>
    requires forall n <- order :: n in values
    decreases |order|
  {
    if order == [] then Some(sql)
    else
      var n := order[0];
      if !PlainIdentifier(values[n]) then None
      else Emitted(ReplaceAll(sql, Pattern(n), values[n]), values, order[1..])
  }

  /** An order in which a loop over the map can visit its keys. */
  ghost predicate Enumerates(order: seq<string>, values: map<string, string>) {
    && (forall n :: n in order <==> n in values)
    && AllDistinct(order)
  }

  method EmittedSubstituteIdentifiers(
    sql: string, values: map<string, string>, order: seq<string>) returns (r: Option<string>)
    requires Enumerates(order, values)
    ensures r == Emitted(sql, values, order)
  {
    var cur := sql;
    for i := 0 to |order|
      invariant Emitted(cur, values, order[i..]) == Emitted(sql, values, order)
    {
      assert order[i..][0] == order[i] && order[i..][1..] == order[i + 1..] && order[i] in order;
      var ok := CheckIdentifier(values[order[i]]);
      if !ok {
        return None;
      }
      cur := ReplaceAll(cur, Pattern(order[i]), values[order[i]]);
    }
    return Some(cur);
  }

  /** A refused value is refused in every order. */
  lemma {:induction false} RefusedInEveryOrder(sql: string, values: map<string, string>, order: seq<string>)
    requires forall n <- order :: n in values
    ensures Emitted(sql, values, order).Some? <==> forall n <- order :: PlainIdentifier(values[n])
    decreases |order|
  {
    hide PlainIdentifier;
    if order != [] {
      var n := order[0];
      assert n in order && forall m :: m in order <==> m == n || m in order[1..];
      if PlainIdentifier(values[n]) {
        RefusedInEveryOrder(ReplaceAll(sql, Pattern(n), values[n]), values, order[1..]);
      }
    }
  }

  // ---- Where the pattern can match ----

  /** The pattern stands somewhere in s. */
  predicate Contains(s: string, pat: string) {
    pat <= s || (s != "" && Contains(s[1..], pat))
  }

  /** No brace, no match: the stretch is passed unchanged. */
  lemma {:induction false} PassNoBrace(u: string, r: string, name: string, v: string)
    requires '{' !in u
    ensures ReplaceAll(u + r, Pattern(name), v) == u + ReplaceAll(r, Pattern(name), v)
  {
    if u == "" {
      assert u + r == r;
    } else {
      assert (u + r)[0] == u[0] && (u + r)[1..] == u[1..] + r && Pattern(name)[0] == '{';
      PassNoBrace(u[1..], r, name, v);
    }
  }

  lemma MatchHere(r: string, name: string, v: string)
    ensures ReplaceAll(Pattern(name) + r, Pattern(name), v) == v + ReplaceAll(r, Pattern(name), v)
  {
    var s := Pattern(name) + r;
    assert s[|Pattern(name)|..] == r && Pattern(name) <= s;
  }

  /** Patterns of different names never match at the same place. */
  lemma PatternsDiffer(m: string, n: string, r: string)
    requires IsIdent(m) && IsIdent(n) && Pattern(n) <= Pattern(m) + r
    ensures m == n
  {
    var s, a, b := Pattern(m) + r, |Pattern(m)| - 1, |Pattern(n)| - 1;
    assert s[a] == '}' && s[b] == Pattern(n)[b] == '}';
    PatternShape(m);
    PatternShape(n);
    var k := if a < b then a else b;
    assert s[k] == Pattern(n)[k] == Pattern(m)[k];
    assert Pattern(n) == s[..b + 1] == Pattern(m);
    assert Pattern(n)[1..|n| + 1] == n && Pattern(m)[1..|m| + 1] == m;
  }

  /** One brace opens a pattern, one closes it, and there is none in between. */
  lemma PatternShape(n: string)
    requires IsIdent(n)
    ensures forall k :: 0 <= k < |Pattern(n)| - 1 ==> Pattern(n)[k] != '}'
    ensures forall k :: 0 < k < |Pattern(n)| ==> Pattern(n)[k] != '{'
    ensures forall c <- Pattern(n) :: !IsQuote(c) && c != '/' && c != '\n'
  {
    var inner := n + ":Identifier";
    assert Pattern(n) == "{" + inner + "}";
    assert '}' !in inner && '{' !in inner;
  }

  lemma PassOtherHole(m: string, n: string, r: string, v: string)
    requires IsIdent(m) && IsIdent(n) && m != n
    ensures ReplaceAll(Pattern(m) + r, Pattern(n), v) == Pattern(m) + ReplaceAll(r, Pattern(n), v)
  {
    var s := Pattern(m) + r;
    if Pattern(n) <= s {
      PatternsDiffer(m, n, r);
    }
    PatternShape(m);
    var u := Pattern(m)[1..];
    assert s[1..] == u + r && s[0] == '{' && Pattern(m) == ['{'] + u;
    assert '{' !in u;
    hide Pattern;
    PassNoBrace(u, r, n, v);
    assert ['{'] + (u + ReplaceAll(r, Pattern(n), v)) == Pattern(m) + ReplaceAll(r, Pattern(n), v);
  }

  /** Neither can the pattern stand at the start of such a stretch. */
  lemma NoMatchHere(u: string, r: string, pat: string)
    requires u != "" && !(pat <= u) && (r != "" ==> u[|u| - 1] !in pat || r[0] !in pat)
    ensures !(pat <= u + r)
  {
    var s := u + r;
    assert pat <= s && |pat| <= |u| ==> pat <= u by { assert s[..|u|] == u; }
    assert s[|u| - 1] == u[|u| - 1] && (r != "" ==> s[|u|] == r[0]);
  }

  /** A stretch that does not hold the pattern, and whose seam the pattern cannot straddle, is passed. */
  lemma {:induction false} PassOpaque(u: string, r: string, n: string, v: string)
    requires !Contains(u, Pattern(n))
    requires u != "" && r != "" ==> u[|u| - 1] !in Pattern(n) || r[0] !in Pattern(n)
    ensures ReplaceAll(u + r, Pattern(n), v) == u + ReplaceAll(r, Pattern(n), v)
    decreases |u|
  {
    hide Pattern;
    var pat := Pattern(n);
    if u == "" {
      assert u + r == r;
    } else {
      var s := u + r;
      NoMatchHere(u, r, pat);
      assert s[0] == u[0] && s[1..] == u[1..] + r;
      assert |u| > 1 ==> u[1..][|u[1..]| - 1] == u[|u| - 1];
      PassOpaque(u[1..], r, n, v);
    }
  }

  lemma {:induction false} BlockEndEnds(s: string, j: nat)
    ensures BlockEnd(s, j).Some? ==> s[BlockEnd(s, j).value - 1] == '/'
    decreases |s| - j
  {
    if j + 1 < |s| {
      BlockEndEnds(s, j + 1);
    }
  }

  /** The seam behind a comment or a literal is one the pattern cannot straddle. */
  lemma SeamIsSafe(l: Lexeme, r: string, n: string)
    requires IsIdent(n) && Valid(l, true) && (l.kind == Comment || l.kind == Literal) && Fits(l, r) && r != ""
    ensures l.text[|l.text| - 1] !in Pattern(n) || r[0] !in Pattern(n)
  {
    PatternShape(n);
    hide Pattern, QuoteEnd, BlockEnd, LineEnd, BraceEnd;
    if l.kind == Literal {
      ClosedQuoteEnds(l.text, 1, l.text[0]);
    } else if !StartsLine(l.text) {
      BlockEndEnds(l.text, 2);
    }
  }

  // ---- One replacement, lexeme by lexeme ----

  /** All holes are identifier holes in normal form. */
  ghost predicate NormalHoles(ls: seq<Lexeme>) {
    && Scannable(ls) && (forall p <- Occs(ls) :: Good(p) && IsIdentifier(p.typ))
    && forall l <- ls :: l.kind == Hole ==> l.text == Pattern(ParamOf(l.text).value.name)
  }

  /** Neither a comment nor a literal holds the pattern. */
  ghost predicate Clear(ls: seq<Lexeme>, n: string) {
    forall l <- ls :: l.kind == Comment || l.kind == Literal ==> !Contains(l.text, Pattern(n))
  }

  function One(n: string, v: string): Param -> string {
    (p: Param) => if p.name == n then v else HoleText(p)
  }

  function OneLexemes(n: string, v: string): Param -> seq<Lexeme> {
    (p: Param) => if p.name == n then Lex(v, true) else HoleFor(p)
  }

  lemma {:induction false} ReplaceAllIsOne(ls: seq<Lexeme>, n: string, v: string)
    requires Canonical(ls, true) && NormalHoles(ls) && Clear(ls, n) && IsIdent(n)
    ensures ReplaceAll(Flatten(ls), Pattern(n), v) == Fill(ls, One(n, v))
    decreases |ls|
  {
    hide Valid, Fits, ParamOf, Pattern, Contains, ReplaceAll, Good;
    if ls == [] {
      NothingToReplace(n, v);
    } else {
      var l, rest := ls[0], ls[1..];
      assert l in ls && (forall x <- rest :: x in ls);
      assert forall p <- Occs(rest) :: p in Occs(ls);
      ReplaceAllIsOne(rest, n, v);
      assert l.kind == Hole ==> ParamOf(l.text).value in Occs(ls);
      LexemeReplaced(l, Flatten(rest), n, v);
      assert Flatten(ls) == l.text + Flatten(rest);
    }
  }

  lemma NothingToReplace(n: string, v: string)
    ensures ReplaceAll("", Pattern(n), v) == ""
  {
  }

  lemma LexemeReplaced(l: Lexeme, r: string, n: string, v: string)
    requires Valid(l, true) && Fits(l, r) && l.kind != Unclosed && IsIdent(n)
    requires l.kind == Comment || l.kind == Literal ==> !Contains(l.text, Pattern(n))
    requires l.kind == Hole ==> ParamOf(l.text).Some?
    requires l.kind == Hole ==>
      (var p := ParamOf(l.text).value; Good(p) && IsIdentifier(p.typ) && l.text == Pattern(p.name))
    ensures ReplaceAll(l.text + r, Pattern(n), v) ==
      (if l.kind == Hole then One(n, v)(ParamOf(l.text).value) else l.text) + ReplaceAll(r, Pattern(n), v)
  {
    match l.kind
    case Char =>
      hide ParamOf, Pattern, Contains, ReplaceAll, Good;
      CharHasNoBrace(l);
      PassNoBrace(l.text, r, n, v);
    case Hole =>
      var p := ParamOf(l.text).value;
      IdentifierText(p);
      hide ParamOf, Pattern, Contains, ReplaceAll, Valid;
      if p.name == n {
        MatchHere(r, n, v);
      } else {
        PassOtherHole(p.name, n, r, v);
      }
    case _ =>
      hide ParamOf, Pattern, Contains, ReplaceAll, Good, Valid, Fits;
      if r != "" {
        SeamIsSafe(l, r, n);
      }
      PassOpaque(l.text, r, n, v);
  }

  lemma CharHasNoBrace(l: Lexeme)
    requires Valid(l, true) && l.kind == Char
    ensures '{' !in l.text
  {
    hide QuoteEnd, BlockEnd, LineEnd, BraceEnd;
  }

  // ---- All replacements ----

  /** The list after filling n: no other hole, comment or literal has changed. */
  lemma {:induction false} OneKeepsNormal(ls: seq<Lexeme>, n: string, v: string)
    requires NormalHoles(ls) && PlainIdentifier(v)
    ensures NormalHoles(Replace(ls, OneLexemes(n, v)))
    ensures forall m :: Clear(ls, m) ==> Clear(Replace(ls, OneLexemes(n, v)), m)
    decreases |ls|
  {
    hide ParamOf, Pattern, Contains, Good, PlainIdentifier, Lex;
    if ls != [] {
      var l, rest := ls[0], ls[1..];
      assert l in ls && (forall x <- rest :: x in ls) && forall p <- Occs(rest) :: p in Occs(ls);
      OneKeepsNormal(rest, n, v);
      var tail := Replace(rest, OneLexemes(n, v));
      if l.kind == Hole {
        var p := ParamOf(l.text).value;
        assert p in Occs(ls);
        if p.name == n {
          ValueLexemes(v);
          NormalConcat(Lex(v, true), tail);
        } else {
          HoleIsNormal(p);
          NormalConcat(HoleFor(p), tail);
        }
      } else {
        assert Occs([l]) == [] + Occs([l][1..]);
        NormalConcat([l], tail);
      }
    }
  }

  lemma ValueLexemes(v: string)
    requires PlainIdentifier(v)
    ensures NormalHoles(Lex(v, true)) && forall m :: Clear(Lex(v, true), m)
  {
    AcceptedIsStandIn(v);
    hide ParamOf, Pattern, Contains, Good, PlainIdentifier, Lex, First;
    ValueHasNoLiterals(v);
  }

  lemma {:induction false} TameLexesToChars(u: string)
    requires Tame(u)
    ensures forall l <- Lex(u, true) :: l.kind == Char
  {
    if u != "" {
      assert u[0] in u;
      assert CommentLength(u) == 0 && LiteralLength(u) == 0;
      hide CommentLength, LiteralLength;
      assert First(u, true) == Lexeme(Char, u[..1]);
      TameLexesToChars(u[1..]);
    }
  }

  lemma ValueHasNoLiterals(v: string)
    requires PlainIdentifier(v)
    ensures forall l <- Lex(v, true) :: l.kind == Char
  {
    hide Lex;
    forall c <- v ensures TameChar(c) {
      PlainIsTame(v, c);
      if c != '.' {
        var part :| part in SplitDots(v) && c in part;
        assert PlainPart(part);
      }
    }
    TameLexesToChars(v);
  }

  lemma HoleIsNormal(p: Param)
    requires Good(p) && IsIdentifier(p.typ)
    ensures NormalHoles(HoleFor(p)) && forall m :: Clear(HoleFor(p), m)
  {
    HoleIsStandIn(p);
    IdentifierText(p);
    HoleTextReads(p);
    hide ParamOf, Contains;
  }

  lemma NormalConcat(a: seq<Lexeme>, b: seq<Lexeme>)
    requires NormalHoles(a) && NormalHoles(b)
    ensures NormalHoles(a + b) && forall m :: Clear(a, m) && Clear(b, m) ==> Clear(a + b, m)
  {
    hide ParamOf, Pattern, Contains, Good;
    OccsConcat(a, b);
  }

  /** Replacing the text of one name does to the query what filling that hole does. */
  lemma OneStep(sql: string, n: string, v: string)
    requires NormalHoles(Lex(sql, true)) && Clear(Lex(sql, true), n) && IsIdent(n) && PlainIdentifier(v)
    ensures var out := ReplaceAll(sql, Pattern(n), v);
            && Rewrite(sql, One(n, v)) == Some(out)
            && Lex(out, true) == Replace(Lex(sql, true), OneLexemes(n, v))
            && NormalHoles(Lex(out, true)) && forall m :: Clear(Lex(sql, true), m) ==> Clear(Lex(out, true), m)
  {
    hide Lex, Canonical, Clear, Replace, ReplaceAll, Pattern, Fill, StandIn, Rewrite, Flatten, PlainIdentifier,
      HoleText;
    var ls := Lex(sql, true);
    LexIsCanonical(sql, true);
    ReplaceAllIsOne(ls, n, v);
    RewriteMeans(sql, One(n, v));
    forall p <- Occs(ls) ensures StandIn(OneLexemes(n, v)(p)) && Flatten(OneLexemes(n, v)(p)) == One(n, v)(p) {
      AcceptedIsStandIn(v);
      HoleIsStandIn(p);
    }
    ScanAfterRewrite(sql, OneLexemes(n, v), One(n, v));
    OneKeepsNormal(ls, n, v);
  }

  function FillSome(values: map<string, string>, order: seq<string>): Param -> string {
    (p: Param) => if p.name in order && p.name in values then values[p.name] else HoleText(p)
  }

  ghost predicate ReadyToFill(ls: seq<Lexeme>, values: map<string, string>, order: seq<string>) {
    && NormalHoles(ls)
    && forall n <- order :: n in values && IsIdent(n) && PlainIdentifier(values[n]) && Clear(ls, n)
  }

  lemma {:induction false} EmittedIsFill(sql: string, values: map<string, string>, order: seq<string>)
    requires ReadyToFill(Lex(sql, true), values, order)
    ensures Emitted(sql, values, order) == Rewrite(sql, FillSome(values, order))
    decreases |order|
  {
    hide Lex, Clear, Replace, ReplaceAll, Fill, Rewrite, Flatten, PlainIdentifier, HoleText, NormalHoles, Good, Occs,
      Scannable;
    if order == [] {
      NothingFilled(sql, values);
    } else {
      var n, rest := order[0], order[1..];
      assert n in order && forall m <- rest :: m in order;
      OneStep(sql, n, values[n]);
      var out := ReplaceAll(sql, Pattern(n), values[n]);
      EmittedIsFill(out, values, rest);
      FillOneMore(sql, out, values, order);
    }
  }

  lemma NothingFilled(sql: string, values: map<string, string>)
    requires NormalHoles(Lex(sql, true))
    ensures Rewrite(sql, FillSome(values, [])) == Some(sql)
  {
    hide Lex, Rewrite, Pattern, Good, ParamOf;
    RewriteMeans(sql, FillSome(values, []));
    LexIsCanonical(sql, true);
    NormalRendersItself(Lex(sql, true), FillSome(values, []));
  }

  lemma {:induction false} NormalRendersItself(ls: seq<Lexeme>, f: Param -> string)
    requires NormalHoles(ls) && forall p <- Occs(ls) :: f(p) == HoleText(p)
    ensures Fill(ls, f) == Flatten(ls)
    decreases |ls|
  {
    hide Good, ParamOf;
    if ls != [] {
      var l, rest := ls[0], ls[1..];
      assert l in ls && (forall x <- rest :: x in ls) && forall p <- Occs(rest) :: p in Occs(ls);
      NormalRendersItself(rest, f);
      if l.kind == Hole {
        assert ParamOf(l.text).value in Occs(ls);
        IdentifierText(ParamOf(l.text).value);
      }
    }
  }

  lemma FillOneMore(sql: string, out: string, values: map<string, string>, order: seq<string>)
    requires NormalHoles(Lex(sql, true)) && order != [] && order[0] in values && PlainIdentifier(values[order[0]])
    requires Lex(out, true) == Replace(Lex(sql, true), OneLexemes(order[0], values[order[0]]))
    ensures Rewrite(out, FillSome(values, order[1..])) == Rewrite(sql, FillSome(values, order))
  {
    hide Lex, Replace, Pattern, Rewrite, Flatten, PlainIdentifier, HoleText, ParamOf, Fill, Scannable, Occs;
    var n, rest, ls := order[0], order[1..], Lex(sql, true);
    var g, f, f' := OneLexemes(n, values[n]), FillSome(values, rest), FillSome(values, order);
    RewriteMeans(sql, f');
    RewriteMeans(out, f);
    forall p <- Occs(ls) ensures Scannable(g(p)) && Fill(g(p), f) == f'(p) {
      if p.name == n {
        AcceptedIsStandIn(values[n]);
        FillNothing(Lex(values[n], true), f);
      } else {
        HoleIsStandIn(p);
        FillHole(p, f);
        assert p.name in order <==> p.name in rest;
      }
    }
    FillReplace(ls, g, f, f');
  }

  function ValueOf(values: map<string, string>): string -> string {
    (name: string) => if name in values then values[name] else ""
  }

  lemma {:induction false} FillAgrees(ls: seq<Lexeme>, f: Param -> string, f': Param -> string)
    requires Scannable(ls) && forall p <- Occs(ls) :: f(p) == f'(p)
    ensures Fill(ls, f) == Fill(ls, f')
    decreases |ls|
  {
    hide ParamOf;
    if ls != [] {
      assert forall p <- Occs(ls[1..]) :: p in Occs(ls);
      assert ls[0].kind == Hole ==> ParamOf(ls[0].text).value in Occs(ls);
      FillAgrees(ls[1..], f, f');
    }
  }

  /** Plain values for names that are identifiers. */
  ghost predicate AcceptedValues(values: map<string, string>) {
    forall n <- values :: IsIdent(n) && PlainIdentifier(values[n])
  }

  lemma EmittedWhenClear(sql: string, values: map<string, string>, order: seq<string>)
    requires NormalHoles(Lex(sql, true)) && AcceptedValues(values) && Enumerates(order, values)
    requires forall n <- values :: Clear(Lex(sql, true), n)
    ensures Emitted(sql, values, order) == Rewrite(sql, Substituted(ValueOf(values)))
  {
    hide Lex, Clear, Rewrite, Good, Fill, PlainIdentifier, HoleText, Pattern, ParamOf;
    EmittedIsFill(sql, values, order);
    var ls, f, f' := Lex(sql, true), FillSome(values, order), Substituted(ValueOf(values));
    RewriteMeans(sql, f);
    RewriteMeans(sql, f');
    forall p <- Occs(ls) ensures f(p) == f'(p) {
      if p.name in values {
        PlainIsNotEmpty(values[p.name]);
      }
    }
    FillAgrees(ls, f, f');
  }

  lemma PlainIsNotEmpty(v: string)
    requires PlainIdentifier(v)
    ensures v != ""
  {
  }

  /** What binding parameters client-side leaves behind is in the form the helper expects. */
  lemma BoundIsNormal(sql: string)
    requires Clean(sql)
    ensures Rewrite(sql, Bound()).Some? && NormalHoles(Lex(Rewrite(sql, Bound()).value, true))
  {
    hide Lex, Rewrite, Occs, Scannable, NormalHoles, Good, Replace;
    BoundQueryScans(sql);
    CleanIsGood(sql);
    BoundKeepsNormal(Lex(sql, true));
  }

  lemma {:induction false} BoundKeepsNormal(ls: seq<Lexeme>)
    requires Scannable(ls) && forall p <- Occs(ls) :: Good(p)
    ensures NormalHoles(Replace(ls, BoundLexemes()))
    decreases |ls|
  {
    hide ParamOf, Pattern, Good, Lex, CastText;
    if ls != [] {
      var l, rest := ls[0], ls[1..];
      assert forall p <- Occs(rest) :: p in Occs(ls);
      BoundKeepsNormal(rest);
      var tail := Replace(rest, BoundLexemes());
      if l.kind == Hole {
        var p := ParamOf(l.text).value;
        assert p in Occs(ls);
        if IsIdentifier(p.typ) {
          HoleIsNormal(p);
          NormalConcat(HoleFor(p), tail);
        } else {
          CastIsNormal(p);
          NormalConcat(Lex(CastText(p), true), tail);
        }
      } else {
        assert Occs([l]) == [] + Occs([l][1..]);
        NormalConcat([l], tail);
      }
    }
  }

  lemma CastIsNormal(p: Param)
    requires Good(p)
    ensures NormalHoles(Lex(CastText(p), true))
  {
    hide ParamOf, Pattern, Lex, CastText;
    CastIsStandIn(p);
    NoOccsNoHoles(Lex(CastText(p), true));
  }

  lemma {:induction false} NoOccsNoHoles(ls: seq<Lexeme>)
    requires Scannable(ls) && Occs(ls) == []
    ensures forall l <- ls :: l.kind != Hole
    decreases |ls|
  {
    hide ParamOf;
    if ls != [] {
      NoOccsNoHoles(ls[1..]);
    }
  }

  // ---- The condition is needed: counting opening braces ----

  function Braces(s: string): nat {
    if s == "" then 0 else (if s[0] == '{' then 1 else 0) + Braces(s[1..])
  }

  /** How often the pattern stands in s. */
  function Matches(s: string, pat: string): nat {
    if s == "" then 0 else (if pat <= s then 1 else 0) + Matches(s[1..], pat)
  }

  lemma {:induction false} BracesConcat(a: string, b: string)
    ensures Braces(a + b) == Braces(a) + Braces(b)
  {
    if a == "" {
      assert a + b == b;
    } else {
      assert (a + b)[1..] == a[1..] + b;
      BracesConcat(a[1..], b);
    }
  }

  lemma {:induction false} NoBraces(s: string)
    requires '{' !in s
    ensures Braces(s) == 0
  {
    if s != "" {
      NoBraces(s[1..]);
    }
  }

  lemma {:induction false} MatchesConcat(a: string, b: string, pat: string)
    requires pat != ""
    ensures Matches(a + b, pat) >= Matches(a, pat) + Matches(b, pat)
  {
    if a == "" {
      assert a + b == b;
    } else {
      assert (a + b)[1..] == a[1..] + b;
      MatchesConcat(a[1..], b, pat);
      assert pat <= a ==> pat <= a + b;
    }
  }

  lemma {:induction false} NoBraceNoMatch(u: string, r: string, n: string)
    requires '{' !in u
    ensures Matches(u + r, Pattern(n)) == Matches(r, Pattern(n))
  {
    if u == "" {
      assert u + r == r;
    } else {
      assert (u + r)[0] == u[0] && (u + r)[1..] == u[1..] + r && Pattern(n)[0] == '{';
      NoBraceNoMatch(u[1..], r, n);
    }
  }

  lemma PatternParts(n: string)
    requires IsIdent(n)
    ensures Pattern(n) == "{" + Pattern(n)[1..] && '{' !in Pattern(n)[1..] && Braces(Pattern(n)) == 1
  {
    PatternShape(n);
    hide Pattern;
    assert Pattern(n)[0] == '{' by { assert "{" <= Pattern(n) by { PatternOpens(n); } }
    NoBraces(Pattern(n)[1..]);
  }

  lemma PatternOpens(n: string)
    ensures "{" <= Pattern(n)
  {
  }

  /** Every match takes one opening brace away. */
  lemma {:induction false} ReplaceCounts(s: string, n: string, v: string)
    requires IsIdent(n) && '{' !in v
    ensures Braces(ReplaceAll(s, Pattern(n), v)) + Matches(s, Pattern(n)) == Braces(s)
    decreases |s|
  {
    var pat := Pattern(n);
    PatternParts(n);
    hide Pattern;
    if s != "" {
      if pat <= s {
        var r := s[|pat|..];
        assert s == pat + r && s[1..] == pat[1..] + r;
        ReplaceCounts(r, n, v);
        NoBraceNoMatch(pat[1..], r, n);
        NoBraces(v);
        BracesConcat(v, ReplaceAll(r, pat, v));
        BracesConcat(pat, r);
      } else {
        ReplaceCounts(s[1..], n, v);
        BracesConcat([s[0]], ReplaceAll(s[1..], pat, v));
        assert Braces([s[0]]) == (if s[0] == '{' then 1 else 0) + Braces([s[0]][1..]);
      }
    }
  }

  /** Filling one name destroys no match of another. */
  lemma {:induction false} ReplaceKeepsMatches(s: string, n: string, v: string, m: string)
    requires IsIdent(n) && IsIdent(m) && m != n
    ensures Matches(ReplaceAll(s, Pattern(n), v), Pattern(m)) >= Matches(s, Pattern(m))
    decreases |s|
  {
    var pat, other := Pattern(n), Pattern(m);
    assert pat != "" && other != "";
    hide Pattern;
    if s != "" {
      if pat <= s {
        var r := s[|pat|..];
        ReplaceKeepsMatches(r, n, v, m);
        MatchesConcat(v, ReplaceAll(r, pat, v), other);
        OtherMatchesBehind(s, n, m, r);
      } else {
        ReplaceKeepsMatches(s[1..], n, v, m);
        var out := [s[0]] + ReplaceAll(s[1..], pat, v);
        assert out[1..] == ReplaceAll(s[1..], pat, v);
        if other <= s {
          MatchStays(s, n, v, m);
        }
      }
    }
  }

  /** A match of one name holds no match of another. */
  lemma OtherMatchesBehind(s: string, n: string, m: string, r: string)
    requires IsIdent(n) && IsIdent(m) && m != n && s == Pattern(n) + r
    ensures Matches(s, Pattern(m)) == Matches(r, Pattern(m))
  {
    PatternParts(n);
    if Pattern(m) <= s {
      PatternsDiffer(n, m, r);
    }
    hide Pattern;
    assert s[1..] == Pattern(n)[1..] + r;
    NoBraceNoMatch(Pattern(n)[1..], r, m);
  }

  lemma MatchStays(s: string, n: string, v: string, m: string)
    requires IsIdent(m) && s != "" && Pattern(m) <= s
    ensures Pattern(m) <= [s[0]] + ReplaceAll(s[1..], Pattern(n), v)
  {
    PatternParts(m);
    assert Pattern(n) != "";
    hide Pattern;
    var u, r := Pattern(m)[1..], s[|Pattern(m)|..];
    assert s[1..] == u + r && s[0] == '{';
    PassNoBrace(u, r, n, v);
    assert [s[0]] + (u + ReplaceAll(r, Pattern(n), v)) == Pattern(m) + ReplaceAll(r, Pattern(n), v);
  }

  function AllMatches(s: string, order: seq<string>): nat {
    if order == [] then 0 else Matches(s, Pattern(order[0])) + AllMatches(s, order[1..])
  }

  lemma {:induction false} ReplaceKeepsAllMatches(s: string, n: string, v: string, order: seq<string>)
    requires IsIdent(n) && forall m <- order :: IsIdent(m) && m != n
    ensures AllMatches(ReplaceAll(s, Pattern(n), v), order) >= AllMatches(s, order)
    decreases |order|
  {
    if order != [] {
      assert order[0] in order;
      ReplaceKeepsMatches(s, n, v, order[0]);
      ReplaceKeepsAllMatches(s, n, v, order[1..]);
    }
  }

  /** The helper removes at least one brace for every match in the query it is given. */
  lemma {:induction false} EmittedCounts(sql: string, values: map<string, string>, order: seq<string>)
    requires AcceptedValues(values) && (forall n <- order :: n in values)
    requires AllDistinct(order)
    ensures Emitted(sql, values, order).Some?
    ensures Braces(Emitted(sql, values, order).value) + AllMatches(sql, order) <= Braces(sql)
    decreases |order|
  {
    hide PlainIdentifier, Braces, Matches, ReplaceAll;
    if order != [] {
      var n, rest := order[0], order[1..];
      assert n in order;
      forall m <- rest ensures m != n && m in values {
        var i :| 0 <= i < |rest| && rest[i] == m;
        assert order[i + 1] == m && m in order;
      }
      AcceptedIsStandIn(values[n]);
      ReplaceCounts(sql, n, values[n]);
      ReplaceKeepsAllMatches(sql, n, values[n], rest);
      EmittedCounts(ReplaceAll(sql, Pattern(n), values[n]), values, rest);
    }
  }

  lemma {:induction false} AllMatchesConcat(a: string, b: string, order: seq<string>)
    ensures AllMatches(a + b, order) >= AllMatches(a, order) + AllMatches(b, order)
    decreases |order|
  {
    if order != [] {
      MatchesConcat(a, b, Pattern(order[0]));
      AllMatchesConcat(a, b, order[1..]);
    }
  }

  lemma {:induction false} ContainsMatches(s: string, pat: string)
    requires pat != "" && Contains(s, pat)
    ensures Matches(s, pat) >= 1
  {
    if !(pat <= s) {
      ContainsMatches(s[1..], pat);
    }
  }

  lemma {:induction false} SomeMatch(s: string, n: string, order: seq<string>)
    requires n in order && Contains(s, Pattern(n))
    ensures AllMatches(s, order) >= 1
    decreases |order|
  {
    if order[0] == n {
      ContainsMatches(s, Pattern(n));
    } else {
      SomeMatch(s, n, order[1..]);
    }
  }

  /**
    The lexer-based rewrite removes exactly one brace for every hole it fills, and never more
    than there are matches.
   */
  lemma {:induction false} FillCounts(ls: seq<Lexeme>, values: map<string, string>, order: seq<string>)
    requires NormalHoles(ls) && AcceptedValues(values) && forall n <- values :: n in order
    ensures var text := Fill(ls, Substituted(ValueOf(values)));
            && Braces(text) + AllMatches(Flatten(ls), order) >= Braces(Flatten(ls))
            && ((exists n <- values :: !Clear(ls, n)) ==>
               Braces(text) + AllMatches(Flatten(ls), order) > Braces(Flatten(ls)))
    decreases |ls|
  {
    hide ParamOf, Pattern, Contains, Good, PlainIdentifier, AllMatches, Braces, HoleText;
    var f := Substituted(ValueOf(values));
    if ls != [] {
      var l, rest := ls[0], ls[1..];
      assert l in ls && (forall x <- rest :: x in ls) && forall p <- Occs(rest) :: p in Occs(ls);
      FillCounts(rest, values, order);
      var head := if l.kind == Hole then f(ParamOf(l.text).value) else l.text;
      BracesConcat(l.text, Flatten(rest));
      BracesConcat(head, Fill(rest, f));
      AllMatchesConcat(l.text, Flatten(rest), order);
      if l.kind == Hole {
        assert ParamOf(l.text).value in Occs(ls);
        HoleCounts(l, values, order);
      }
      forall n <- values | !Clear(ls, n) ensures Clear(rest, n) ==> AllMatches(l.text, order) >= 1 && l.kind != Hole {
        if Clear(rest, n) {
          assert Contains(l.text, Pattern(n)) && l.kind != Hole;
          SomeMatch(l.text, n, order);
        }
      }
    }
  }

  lemma HoleCounts(l: Lexeme, values: map<string, string>, order: seq<string>)
    requires l.kind == Hole && ParamOf(l.text).Some? && AcceptedValues(values) && forall n <- values :: n in order
    requires var p := ParamOf(l.text).value; Good(p) && IsIdentifier(p.typ) && l.text == Pattern(p.name)
    ensures Braces(Substituted(ValueOf(values))(ParamOf(l.text).value)) + AllMatches(l.text, order) >= Braces(l.text)
  {
    var p := ParamOf(l.text).value;
    PatternParts(p.name);
    IdentifierText(p);
    if p.name in values {
      assert Contains(l.text, Pattern(p.name));
      SomeMatch(l.text, p.name, order);
    }
  }

  lemma EmittedOnlyWhenClear(sql: string, values: map<string, string>, order: seq<string>)
    requires NormalHoles(Lex(sql, true)) && AcceptedValues(values) && Enumerates(order, values)
    requires exists n <- values :: !Clear(Lex(sql, true), n)
    ensures Emitted(sql, values, order) != Rewrite(sql, Substituted(ValueOf(values)))
  {
    hide Lex, Clear, Rewrite, Good, Fill, PlainIdentifier, HoleText, Pattern, ParamOf, Braces, AllMatches, Emitted;
    RewriteMeans(sql, Substituted(ValueOf(values)));
    LexIsCanonical(sql, true);
    EmittedCounts(sql, values, order);
    FillCounts(Lex(sql, true), values, order);
  }

  /**
    The emitted helper and the lexer-based substitution give the same query exactly when no
    comment and no literal holds the text of one of the holes being filled.
   */
  lemma EmittedAgreesExactlyWhen(sql: string, values: map<string, string>, order: seq<string>)
    requires NormalHoles(Lex(sql, true)) && AcceptedValues(values) && Enumerates(order, values)
    ensures Emitted(sql, values, order) == Rewrite(sql, Substituted(ValueOf(values)))
       <==> forall n <- values :: Clear(Lex(sql, true), n)
  {
    hide Lex, Clear, Rewrite, NormalHoles, AcceptedValues, Emitted;
    if forall n <- values :: Clear(Lex(sql, true), n) {
      EmittedWhenClear(sql, values, order);
    } else {
      EmittedOnlyWhenClear(sql, values, order);
    }
  }

  /** Then the order in which the map is visited does not matter. */
  lemma OrderDoesNotMatter(sql: string, values: map<string, string>, order: seq<string>, order': seq<string>)
    requires NormalHoles(Lex(sql, true)) && AcceptedValues(values)
    requires Enumerates(order, values) && Enumerates(order', values)
    requires forall n <- values :: Clear(Lex(sql, true), n)
    ensures Emitted(sql, values, order) == Emitted(sql, values, order')
  {
    hide Lex, Clear, Rewrite, NormalHoles, AcceptedValues, Emitted;
    EmittedWhenClear(sql, values, order);
    EmittedWhenClear(sql, values, order');
  }

  // ---- Examples ----

  lemma {:induction false} QuoteClosesAt(s: string, j: nat, n: nat, quote: char)
    requires j <= n < |s| && s[n] == quote && quote != '\\' && forall k :: j <= k < n ==> s[k] != quote && s[k] != '\\'
    ensures QuoteEnd(s, j, quote) == Some(n + 1)
    decreases n - j
  {
    if j < n {
      QuoteClosesAt(s, j + 1, n, quote);
    }
  }

  lemma LiteralLexes(u: string)
    requires '\'' !in u && '\\' !in u
    ensures Lex("'" + u + "'", true) == [Lexeme(Literal, "'" + u + "'")]
  {
    var s := "'" + u + "'";
    forall k | 1 <= k < |s| - 1 ensures s[k] != '\'' && s[k] != '\\' {
      assert s[k] == u[k - 1] && u[k - 1] in u;
    }
    QuoteClosesAt(s, 1, |s| - 1, '\'');
    assert s[..|s|] == s && s[|s|..] == "";
    assert Lex("", true) == [];
  }

  /** A literal is left alone by every rewrite of parameters. */
  lemma LiteralStays(u: string, f: Param -> string)
    requires '\'' !in u && '\\' !in u
    ensures Rewrite("'" + u + "'", f) == Some("'" + u + "'")
  {
    hide Rewrite, Lex;
    var sql := "'" + u + "'";
    LiteralLexes(u);
    var ls := [Lexeme(Literal, sql)];
    RewriteMeans(sql, f);
    assert ls[1..] == [] && Fill([], f) == "";
    assert Fill(ls, f) == sql + "";
    assert sql + "" == sql;
  }

  /** A literal that holds the text of a hole is rewritten by the helper, and by nothing else. */
  lemma HoleInLiteral(n: string, v: string)
    requires IsIdent(n) && PlainIdentifier(v)
    ensures var sql := "'" + Pattern(n) + "'";
            && Emitted(sql, map[n := v], [n]) == Some("'" + v + "'")
            && Rewrite(sql, Substituted(ValueOf(map[n := v]))) == Some(sql)
            && "'" + v + "'" != sql
  {
    var u := Pattern(n);
    PatternShape(n);
    PatternIsPlain(n);
    AcceptedIsStandIn(v);
    PatternOpens(n);
    hide Pattern, PlainIdentifier, Rewrite, Lex, StandIn, Quiet, Scannable, Occs;
    var sql := "'" + u + "'";
    assert sql[1] == '{' && "'" + v + "'" != sql by {
      assert |v| > 0 ==> ("'" + v + "'")[1] == v[0] && v[0] in v;
    }
    AroundMatch("'", n, "'", v);
    assert [n][1..] == [];
    LiteralStays(u, Substituted(ValueOf(map[n := v])));
  }

  lemma PatternIsPlain(n: string)
    requires IsIdent(n)
    ensures '\'' !in Pattern(n) && '\\' !in Pattern(n)
  {
    PatternShape(n);
    var inner := n + ":Identifier";
    assert Pattern(n) == "{" + inner + "}";
    assert '\\' !in inner && '\'' !in inner;
  }

  /** One match between stretches without braces is replaced. */
  lemma AroundMatch(a: string, n: string, b: string, v: string)
    requires '{' !in a && '{' !in b
    ensures ReplaceAll(a + Pattern(n) + b, Pattern(n), v) == a + v + b
  {
    var pat := Pattern(n);
    assert pat != "";
    hide Pattern;
    assert a + pat + b == a + (pat + b) && b + "" == b;
    PassNoBrace(a, pat + b, n, v);
    MatchHere(b, n, v);
    PassNoBrace(b, "", n, v);
    assert a + (v + (b + "")) == a + v + b;
  }

  /** No pattern starts at a brace that is followed by another one before it is closed. */
  lemma NoNestedMatch(k: string, a: string, r: string)
    requires IsIdent(k) && '}' !in a && r != "" && r[0] == '{'
    ensures !(Pattern(k) <= "{" + a + r)
  {
    PatternShape(k);
    var s, p := "{" + a + r, |Pattern(k)|;
    assert Pattern(k)[p - 1] == '}' && s[|a| + 1] == '{';
    hide Pattern;
    assert forall i :: 1 <= i <= |a| ==> s[i] == a[i - 1];
  }

  /** A brace that starts no match is kept. */
  lemma StepOver(r: string, n: string, v: string)
    requires !(Pattern(n) <= "{" + r)
    ensures ReplaceAll("{" + r, Pattern(n), v) == "{" + ReplaceAll(r, Pattern(n), v)
  {
    assert ("{" + r)[1..] == r && ("{" + r)[0] == '{';
  }

  function Nest(a: string, n: string): string {
    "'{" + a + Pattern(n) + ":Identifier}'"
  }

  lemma InnerFirst(a: string, n: string, v: string)
    requires IsIdent(n) && '{' !in a && '}' !in a
    ensures ReplaceAll(Nest(a, n), Pattern(n), v) == "'" + Pattern(a + v) + "'"
  {
    var pat, tail := Pattern(n), ":Identifier}'";
    var rest := a + pat + tail;
    assert "'" + ("{" + (a + v + tail)) == "'" + Pattern(a + v) + "'";
    assert Nest(a, n) == "'" + ("{" + rest);
    assert pat != "" && (pat + tail)[0] == '{' && "{" + rest == "{" + a + (pat + tail);
    hide Pattern;
    PassNoBrace("'", "{" + rest, n, v);
    NoNestedMatch(n, a, pat + tail);
    StepOver(rest, n, v);
    AroundMatch(a, n, tail, v);
  }

  lemma OuterFirst(a: string, n: string, m: string, w: string)
    requires IsIdent(n) && IsIdent(m) && m != n && '{' !in a && '}' !in a
    ensures ReplaceAll(Nest(a, n), Pattern(m), w) == Nest(a, n)
  {
    var pat, tail := Pattern(n), ":Identifier}'";
    var rest := a + (pat + tail);
    assert Nest(a, n) == "'" + ("{" + rest);
    assert (pat + tail)[0] == '{' && "{" + rest == "{" + a + (pat + tail);
    assert Pattern(m) != "";
    hide Pattern;
    PassNoBrace("'", "{" + rest, m, w);
    NoNestedMatch(m, a, pat + tail);
    StepOver(rest, m, w);
    PassNoBrace(a, pat + tail, m, w);
    PassOtherHole(n, m, tail, w);
    PassNoBrace(tail, "", m, w);
    assert tail + "" == tail;
  }

  /**
    Filling n can make the text of another name inside a literal, and then the order of the two
    decides what becomes of it.
   */
  lemma OrderCanMatter(a: string, n: string, v: string, w: string)
    requires IsIdent(n) && IsIdent(a + v) && a + v != n && PlainIdentifier(v) && PlainIdentifier(w)
    ensures var values := map[n := v, a + v := w];
            && Emitted(Nest(a, n), values, [n, a + v]) == Some("'" + w + "'")
            && Emitted(Nest(a, n), values, [a + v, n]) == Some("'" + Pattern(a + v) + "'")
            && "'" + w + "'" != "'" + Pattern(a + v) + "'"
  {
    var m := a + v;
    assert forall c <- a :: c in m;
    var values := map[n := v, m := w];
    InnerFirst(a, n, v);
    OuterFirst(a, n, m, w);
    AroundMatch("'", m, "'", w);
    HoleInLiteral(m, w);
    hide Pattern, PlainIdentifier, ReplaceAll, Nest;
    assert [n, m][1..] == [m] && [m, n][1..] == [n] && [m][1..] == [] && [n][1..] == [];
    assert Emitted("'" + w + "'", values, []) == Some("'" + w + "'");
    assert Emitted("'" + Pattern(m) + "'", values, [m]) == Some("'" + w + "'");
    assert Emitted("'" + Pattern(m) + "'", values, []) == Some("'" + Pattern(m) + "'");
    assert Emitted(Nest(a, n), values, [n]) == Some("'" + Pattern(m) + "'");
  }
}
