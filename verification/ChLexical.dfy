/** The lexemes of a ClickHouse query by their spelling, and lexing as the one way to cut a text into them. */
module ChLexical {
  import opened Text
  import opened ChLex
  import opened ChStatements

  // ---- Quoted text ----

  /** What stands between quotes: a character for itself, or any character behind a backslash. */
  datatype Unit = Plain(c: char) | Hidden(c: char)

  function UnitText(u: Unit): string {
    if u.Plain? then [u.c] else ['\\', u.c]
  }

  function Body(us: seq<Unit>): string {
    if us == [] then "" else UnitText(us[0]) + Body(us[1..])
  }

  predicate Inside(us: seq<Unit>, q: char) {
    forall u <- us :: u.Plain? ==> u.c != q && u.c != '\\'
  }

  /** Quoted text that is closed by the quote it starts with. */
  ghost predicate IsQuoted(text: string) {
    exists q, us :: QuotedAs(text, q, us)
  }

  ghost predicate QuotedAs(text: string, q: char, us: seq<Unit>) {
    (q == '\'' || q == '`' || q == '"') && Inside(us, q) && text == [q] + (Body(us) + [q])
  }

  /** Quoted text that the end of the query leaves open, possibly behind a backslash. */
  ghost predicate IsOpenQuoted(text: string) {
    exists q, us :: OpenAs(text, q, us)
  }

  ghost predicate OpenAs(text: string, q: char, us: seq<Unit>) {
    && (q == '\'' || q == '`' || q == '"') && Inside(us, q)
    && (text == [q] + Body(us) || text == [q] + (Body(us) + "\\"))
  }

  /** The text from j to behind the closing quote, or to the end. */
  function Quoted(s: string, j: nat, q: char): string
    requires j <= |s|
  {
    if QuoteEnd(s, j, q).Some? then s[j..QuoteEnd(s, j, q).value] else s[j..]
  }

  /** The units from j on, and what is behind them: the closing quote, a dangling backslash or nothing. */
  ghost predicate ReadAs(s: string, j: nat, q: char, us: seq<Unit>)
    requires j <= |s|
  {
    && Inside(us, q)
    && if QuoteEnd(s, j, q).Some? then Quoted(s, j, q) == Body(us) + [q]
       else Quoted(s, j, q) == Body(us) || Quoted(s, j, q) == Body(us) + "\\"
  }

  lemma SliceSplits(s: string, i: nat, j: nat, k: nat)
    requires i <= j <= k <= |s|
    ensures s[i..k] == s[i..j] + s[j..k]
  {
  }

  lemma QuotedSplits(s: string, j: nat, k: nat, q: char)
    requires j <= k <= |s| && QuoteEnd(s, j, q) == QuoteEnd(s, k, q)
    ensures Quoted(s, j, q) == s[j..k] + Quoted(s, k, q)
  {
    hide QuoteEnd;
    var e := if QuoteEnd(s, j, q).Some? then QuoteEnd(s, j, q).value else |s|;
    SliceSplits(s, j, k, e);
    assert s[j..|s|] == s[j..] && s[k..|s|] == s[k..];
  }

  lemma Regroup(a: string, b: string, c: string)
    ensures a + (b + c) == a + b + c
  {
  }

  lemma BodyCons(u: Unit, us: seq<Unit>, q: char)
    requires Inside(us, q) && (u.Plain? ==> u.c != q && u.c != '\\')
    ensures Body([u] + us) == UnitText(u) + Body(us) && Inside([u] + us, q)
  {
    assert ([u] + us)[1..] == us;
    assert forall x <- [u] + us :: x == u || x in us;
  }

  lemma OneMoreUnit(s: string, j: nat, q: char, u: Unit, us: seq<Unit>)
    requires var n := |UnitText(u)|;
             j + n <= |s| && s[j..j + n] == UnitText(u) && QuoteEnd(s, j, q) == QuoteEnd(s, j + n, q)
             && ReadAs(s, j + n, q, us)
    requires u.Plain? ==> u.c != q && u.c != '\\'
    ensures ReadAs(s, j, q, [u] + us)
  {
    hide QuoteEnd, Quoted, Body, UnitText, Inside;
    QuotedSplits(s, j, j + |UnitText(u)|, q);
    BodyCons(u, us, q);
    Regroup(UnitText(u), Body(us), [q]);
    Regroup(UnitText(u), Body(us), "\\");
  }

  lemma NoMoreUnits(s: string, j: nat, q: char)
    requires j <= |s| && q != '\\' && (j < |s| ==> s[j] == q || (s[j] == '\\' && j + 1 == |s|))
    ensures ReadAs(s, j, q, [])
  {
    assert j < |s| ==> s[j..j + 1] == [s[j]];
    assert s[j..|s|] == s[j..];
  }

  lemma UnitIsSkipped(s: string, j: nat, q: char)
    requires j < |s| && q != '\\' && s[j] != q && (s[j] == '\\' ==> j + 1 < |s|)
    ensures var u := if s[j] == '\\' then Hidden(s[j + 1]) else Plain(s[j]);
            var n := |UnitText(u)|;
            j + n <= |s| && s[j..j + n] == UnitText(u) && QuoteEnd(s, j, q) == QuoteEnd(s, j + n, q) && n > 0
  {
  }

  lemma {:induction false} UnitsOf(s: string, j: nat, q: char) returns (us: seq<Unit>)
    requires j <= |s| && q != '\\'
    ensures ReadAs(s, j, q, us)
    decreases |s| - j
  {
    hide ReadAs, QuoteEnd, UnitText;
    if j == |s| || s[j] == q || (s[j] == '\\' && j + 1 == |s|) {
      NoMoreUnits(s, j, q);
      us := [];
    } else {
      UnitIsSkipped(s, j, q);
      var u := if s[j] == '\\' then Hidden(s[j + 1]) else Plain(s[j]);
      var rest := UnitsOf(s, j + |UnitText(u)|, q);
      OneMoreUnit(s, j, q, u, rest);
      us := [u] + rest;
    }
  }

  lemma SliceParts(s: string, i: nat, x: string, y: string)
    requires i + |x + y| <= |s| && s[i..i + |x + y|] == x + y
    ensures s[i..i + |x|] == x && s[i + |x|..i + |x| + |y|] == y
  {
    var w := s[i..i + |x + y|];
    assert w[..|x|] == x && w[|x|..] == y;
    assert s[i..i + |x|] == w[..|x|] && s[i + |x|..i + |x| + |y|] == w[|x|..];
  }

  lemma UnitStands(s: string, j: nat, q: char, u: Unit)
    requires var n := |UnitText(u)|; j + n <= |s| && s[j..j + n] == UnitText(u)
    requires q != '\\' && (u.Plain? ==> u.c != q && u.c != '\\')
    ensures QuoteEnd(s, j, q) == QuoteEnd(s, j + |UnitText(u)|, q)
  {
    var n := |UnitText(u)|;
    assert s[j] == s[j..j + n][0] && (n == 2 ==> s[j + 1] == s[j..j + n][1]);
  }

  lemma {:induction false} UnitsEnd(s: string, j: nat, q: char, us: seq<Unit>)
    requires j + |Body(us)| <= |s| && s[j..j + |Body(us)|] == Body(us) && Inside(us, q) && q != '\\'
    ensures QuoteEnd(s, j, q) == QuoteEnd(s, j + |Body(us)|, q)
    decreases |us|
  {
    hide QuoteEnd, UnitText;
    if us != [] {
      var u, rest := us[0], us[1..];
      assert u in us && forall x <- rest :: x in us;
      SliceParts(s, j, UnitText(u), Body(rest));
      UnitStands(s, j, q, u);
      UnitsEnd(s, j + |UnitText(u)|, q, rest);
    }
  }

  lemma BodyInside(q: char, body: string, end: string)
    ensures var text := [q] + (body + end);
            text[0] == q && text[1..1 + |body|] == body && text[1 + |body|..] == end
  {
  }

  lemma QuotedExactly(text: string)
    ensures ClosedQuote(text) <==> IsQuoted(text)
  {
    if ClosedQuote(text) {
      var us := UnitsOf(text, 1, text[0]);
      assert text == [text[0]] + text[1..];
      assert QuotedAs(text, text[0], us);
    }
    if q, us :| QuotedAs(text, q, us) {
      BodyInside(q, Body(us), [q]);
      UnitsEnd(text, 1, q, us);
    }
  }

  predicate IsOpenQuote(text: string) {
    text != "" && IsQuote(text[0]) && QuoteEnd(text, 1, text[0]).None?
  }

  lemma OpenQuotedExactly(text: string)
    ensures IsOpenQuote(text) <==> IsOpenQuoted(text)
  {
    if IsOpenQuote(text) {
      var us := UnitsOf(text, 1, text[0]);
      assert text == [text[0]] + text[1..];
      assert OpenAs(text, text[0], us);
    }
    if q, us :| OpenAs(text, q, us) {
      assert Body(us) + "" == Body(us);
      BodyInside(q, Body(us), "");
      BodyInside(q, Body(us), "\\");
      UnitsEnd(text, 1, q, us);
    }
  }

  // ---- Comments and holes ----

  /** The two characters at k end a block comment. */
  predicate EndsAt(s: string, k: nat) {
    k + 1 < |s| && s[k] == '*' && s[k + 1] == '/'
  }

  predicate IsLineComment(text: string) {
    "--" <= text && '\n' !in text
  }

  /** Closed at its end and nowhere before. */
  predicate IsBlockComment(text: string) {
    "/*" <= text && |text| >= 4 && EndsAt(text, |text| - 2) && forall k :: 2 <= k < |text| - 2 ==> !EndsAt(text, k)
  }

  predicate IsOpenBlock(text: string) {
    "/*" <= text && forall k :: 2 <= k < |text| ==> !EndsAt(text, k)
  }

  predicate IsHole(text: string) {
    |text| >= 2 && text[0] == '{' && text[|text| - 1] == '}' && forall k :: 0 <= k < |text| - 1 ==> text[k] != '}'
  }

  predicate IsOpenHole(text: string) {
    text != "" && text[0] == '{' && '}' !in text
  }

  lemma {:induction false} BlockEndExactly(s: string, j: nat)
    ensures match BlockEnd(s, j)
            case Some(e) => EndsAt(s, e - 2) && forall k :: j <= k < e - 2 ==> !EndsAt(s, k)
            case None => forall k :: j <= k < |s| ==> !EndsAt(s, k)
    decreases |s| - j
  {
    if j + 1 < |s| && !EndsAt(s, j) {
      BlockEndExactly(s, j + 1);
    }
  }

  lemma {:induction false} LineEndExactly(s: string, j: nat)
    requires j <= |s|
    ensures LineEnd(s, j).None? <==> '\n' !in s[j..]
    decreases |s| - j
  {
    if j < |s| {
      assert s[j..] == [s[j]] + s[j + 1..];
      LineEndExactly(s, j + 1);
    }
  }

  lemma {:induction false} BraceEndExactly(s: string, j: nat)
    requires j <= |s|
    ensures match BraceEnd(s, j)
            case Some(e) => s[e - 1] == '}' && forall k :: j <= k < e - 1 ==> s[k] != '}'
            case None => forall k :: j <= k < |s| ==> s[k] != '}'
    decreases |s| - j
  {
    if j < |s| && s[j] != '}' {
      BraceEndExactly(s, j + 1);
    }
  }

  // ---- Lexemes ----

  /** How the lexemes of each kind are spelled. */
  ghost predicate Spelled(l: Lexeme, holes: bool) {
    match l.kind
    case Comment => IsLineComment(l.text) || IsBlockComment(l.text) || IsOpenBlock(l.text)
    case Literal => IsQuoted(l.text) || IsOpenQuoted(l.text)
    case Hole => holes && IsHole(l.text)
    case Unclosed => holes && IsOpenHole(l.text)
    case Char => |l.text| == 1 && l.text[0] !in "'`\"" && (holes ==> l.text[0] != '{')
  }

  /** What may follow a lexeme: one that runs to the end of the query is followed by nothing. */
  ghost predicate Allows(l: Lexeme, next: string) {
    next == "" ||
    match l.kind
    case Comment => (IsLineComment(l.text) && next[0] == '\n') || IsBlockComment(l.text)
    case Literal => IsQuoted(l.text)
    case Hole => true
    case Unclosed => false
    case Char => !(l.text == "-" && next[0] == '-') && !(l.text == "/" && next[0] == '*')
  }

  lemma CommentIsExact(text: string)
    ensures text != "" && CommentLength(text) == |text| <==>
            IsLineComment(text) || IsBlockComment(text) || IsOpenBlock(text)
    ensures ClosedBlock(text) <==> IsBlockComment(text)
  {
    if StartsLine(text) {
      LineEndExactly(text, 2);
      assert '\n' in text[2..] <==> '\n' in text;
    } else if StartsBlock(text) {
      BlockEndExactly(text, 2);
    }
  }

  lemma LiteralIsExact(text: string)
    ensures text != "" && LiteralLength(text) == |text| <==> IsQuoted(text) || IsOpenQuoted(text)
  {
    hide QuoteEnd, IsQuoted, IsOpenQuoted;
    QuotedExactly(text);
    OpenQuotedExactly(text);
  }

  lemma HoleIsExact(text: string)
    ensures (text != "" && text[0] == '{' && BraceEnd(text, 0) == Some(|text|)) <==> IsHole(text)
    ensures (text != "" && text[0] == '{' && BraceEnd(text, 0).None?) <==> IsOpenHole(text)
  {
    BraceEndExactly(text, 0);
  }

  /** A lexeme is what its own text lexes to exactly when it is spelled by the rules of its kind. */
  lemma LexemeIsExact(l: Lexeme, holes: bool)
    ensures Valid(l, holes) <==> Spelled(l, holes)
  {
    hide QuoteEnd, BlockEnd, LineEnd, BraceEnd, IsQuoted, IsOpenQuoted, IsLineComment, IsBlockComment, IsOpenBlock;
    var text := l.text;
    CommentIsExact(text);
    LiteralIsExact(text);
    HoleIsExact(text);
    QuotesAre(text);
    assert text[..|text|] == text;
    if |text| == 1 {
      assert CommentLength(text) == 0;
    }
  }

  lemma QuotesAre(text: string)
    ensures text != "" ==> (text[0] in "'`\"" <==> IsQuote(text[0]))
  {
  }

  lemma SeamIsExact(l: Lexeme, r: string, holes: bool)
    requires Spelled(l, holes)
    ensures Fits(l, r) <==> Allows(l, r)
  {
    hide QuoteEnd, BlockEnd, LineEnd, IsQuoted, IsOpenQuoted, ClosedQuote, ClosedBlock;
    QuotedExactly(l.text);
    CommentIsExact(l.text);
  }

  /** Every lexeme is spelled by the rules of its kind and allows the one behind it. */
  ghost predicate Lawful(ls: seq<Lexeme>, holes: bool) {
    && (forall l <- ls :: Spelled(l, holes))
    && forall i :: 0 < i < |ls| ==> Allows(ls[i - 1], ls[i].text)
  }

  lemma AllowsHead(l: Lexeme, r: string, r': string)
    requires r != "" && r' != "" && r[0] == r'[0]
    ensures Allows(l, r) <==> Allows(l, r')
  {
  }

  lemma LawfulCons(ls: seq<Lexeme>, holes: bool)
    requires ls != []
    ensures Lawful(ls, holes) <==>
            Spelled(ls[0], holes) && (|ls| > 1 ==> Allows(ls[0], ls[1].text)) && Lawful(ls[1..], holes)
  {
    hide Spelled, Allows;
    var rest := ls[1..];
    assert forall l :: l in ls <==> l == ls[0] || l in rest;
    assert forall i :: 0 < i < |rest| ==> rest[i - 1] == ls[i] && rest[i] == ls[i + 1];
    if Lawful(rest, holes) && (|ls| > 1 ==> Allows(ls[0], ls[1].text)) {
      forall i | 0 < i < |ls| ensures Allows(ls[i - 1], ls[i].text) {
        if i > 1 {
          assert Allows(rest[i - 2], rest[i - 1].text);
        }
      }
    }
    if Lawful(ls, holes) {
      forall i | 0 < i < |rest| ensures Allows(rest[i - 1], rest[i].text) {
        assert Allows(ls[i], ls[i + 1].text);
      }
      assert |ls| > 1 ==> Allows(ls[1 - 1], ls[1].text);
    }
  }

  lemma {:induction false} CanonicalIsLawful(ls: seq<Lexeme>, holes: bool)
    ensures Canonical(ls, holes) <==> Lawful(ls, holes)
  {
    hide Valid, Fits, Spelled, Allows, Lawful;
    if ls == [] {
      NothingIsLawful(holes);
    } else {
      var l, rest := ls[0], ls[1..];
      CanonicalIsLawful(rest, holes);
      LawfulCons(ls, holes);
      LexemeIsExact(l, holes);
      if Spelled(l, holes) {
        SeamIsExact(l, Flatten(rest), holes);
        if rest == [] {
          AllowsEnd(l);
        } else if Canonical(rest, holes) {
          FlattenHead(rest, holes);
          ValidIsNotEmpty(rest[0], holes);
          AllowsHead(l, Flatten(rest), rest[0].text);
        }
      }
    }
  }

  lemma NothingIsLawful(holes: bool)
    ensures Lawful([], holes)
  {
  }

  lemma AllowsEnd(l: Lexeme)
    ensures Allows(l, "")
  {
  }

  /** Every text is cut into lexemes by the rules in exactly one way, and that is what the scanners see. */
  lemma LexingIsUnique(s: string, ls: seq<Lexeme>, holes: bool)
    ensures ls == Lex(s, holes) <==> Flatten(ls) == s && Lawful(ls, holes)
  {
    hide Lex, Canonical, Lawful;
    LexIsCanonical(s, holes);
    CanonicalIsLawful(ls, holes);
    if Canonical(ls, holes) {
      LexUndoesFlatten(ls, holes);
    }
  }
}
