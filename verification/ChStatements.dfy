/** Splitting a text into statements: comments are dropped, and a semicolon separates only outside quoted text. */
module ChStatements {
  import opened Text
  import opened ChLex

  function Chr(c: char): Lexeme {
    Lexeme(Char, [c])
  }

  /** A comment separates the tokens around it, so a newline stands in for it. */
  function Tidy(l: Lexeme): Lexeme {
    if l.kind == Comment then Chr('\n') else l
  }

  /** The stretches between semicolons, without comments; cur was read since the last semicolon. */
  function Pieces(ls: seq<Lexeme>, cur: seq<Lexeme>): (ps: seq<seq<Lexeme>>)
    ensures ps != []
  {
    if ls == [] then [cur]
    else if ls[0] == Chr(';') then [cur] + Pieces(ls[1..], [])
    else Pieces(ls[1..], cur + [Tidy(ls[0])])
  }

  function Texts(ps: seq<seq<Lexeme>>): seq<string> {
    seq(|ps|, i requires 0 <= i < |ps| => Flatten(ps[i]))
  }

  function Split(sql: string): seq<string> {
    NonBlank(Texts(Pieces(Lex(sql, false), [])))
  }

  lemma FlattenAppend(p: seq<Lexeme>, l: Lexeme)
    ensures Flatten(p + [l]) == Flatten(p) + l.text
  {
    FlattenConcat(p, [l]);
    assert Flatten([l]) == l.text + Flatten([l][1..]);
  }

  method SplitStatements(sql: string) returns (stmts: seq<string>)
    ensures stmts == Split(sql)
  {
    hide Lex, Pieces, Texts, NonBlank, Flatten, Trimmed, CommentLength, LiteralLength;
    stmts := [];
    var sb := "";
    ghost var done: seq<seq<Lexeme>>, cur: seq<Lexeme> := [], [];
    StartSplitting(sql);
    var i := 0;
    while i < |sql|
      invariant i <= |sql| && sb == Flatten(cur) && stmts == NonBlank(Texts(done))
      invariant done + Pieces(Lex(sql[i..], false), cur) == Pieces(Lex(sql, false), [])
    {
      var next := SkipComment(sql, i);
      if next != i {
        CommentStep(sql, i, cur);
        sb := sb + "\n";
        cur := cur + [Chr('\n')];
        i := next;
        continue;
      }
      next := SkipLiteral(sql, i);
      if next != i {
        LiteralStep(sql, i, cur);
        sb := sb + sql[i..next];
        cur := cur + [Lexeme(Literal, sql[i..next])];
        i := next;
        continue;
      }
      CharStep(sql, i, cur);
      if sql[i] == ';' {
        FlushPiece(done, cur);
        stmts := stmts + Trimmed(sb);
        sb := "";
        done, cur := done + [cur], [];
        i := i + 1;
        continue;
      }
      sb := sb + [sql[i]];
      cur := cur + [Chr(sql[i])];
      i := i + 1;
    }
    StopSplitting(sql, i, cur);
    FlushPiece(done, cur);
    stmts := stmts + Trimmed(sb);
  }

  lemma StartSplitting(sql: string)
    ensures sql[0..] == sql && Flatten([]) == "" && NonBlank(Texts([])) == []
  {
  }

  lemma StopSplitting(sql: string, i: nat, cur: seq<Lexeme>)
    requires i == |sql|
    ensures Pieces(Lex(sql[i..], false), cur) == [cur]
  {
  }

  lemma LexStep(sql: string, i: nat, l: Lexeme, cur: seq<Lexeme>)
    requires i < |sql| && First(sql[i..], false) == l
    ensures i + |l.text| <= |sql| && l.text == sql[i..i + |l.text|]
    ensures var rest := Lex(sql[i + |l.text|..], false);
            Pieces(Lex(sql[i..], false), cur) == if l ==
              Chr(';') then [cur] + Pieces(rest, []) else Pieces(rest, cur + [Tidy(l)])
  {
    assert l.text == sql[i..][..|l.text|] == sql[i..i + |l.text|];
    hide First;
    assert sql[i..][|l.text|..] == sql[i + |l.text|..];
    var ls := Lex(sql[i..], false);
    assert ls[0] == l && ls[1..] == Lex(sql[i + |l.text|..], false);
  }

  lemma CommentStep(sql: string, i: nat, cur: seq<Lexeme>)
    requires i < |sql| && CommentLength(sql[i..]) > 0
    ensures var next := i + CommentLength(sql[i..]);
            && next <= |sql| && Flatten(cur + [Chr('\n')]) == Flatten(cur) + "\n"
            && Pieces(Lex(sql[i..], false), cur) == Pieces(Lex(sql[next..], false), cur + [Chr('\n')])
  {
    var l := First(sql[i..], false);
    assert |l.text| == CommentLength(sql[i..]);
    LexStep(sql, i, l, cur);
    FlattenAppend(cur, Chr('\n'));
  }

  lemma LiteralStep(sql: string, i: nat, cur: seq<Lexeme>)
    requires i < |sql| && CommentLength(sql[i..]) == 0 && LiteralLength(sql[i..]) > 0
    ensures var next := i + LiteralLength(sql[i..]);
            next <= |sql| &&
            var l := Lexeme(Literal, sql[i..next]);
            && Flatten(cur + [l]) == Flatten(cur) + l.text
            && Pieces(Lex(sql[i..], false), cur) == Pieces(Lex(sql[next..], false), cur + [l])
  {
    var l := First(sql[i..], false);
    assert |l.text| == LiteralLength(sql[i..]);
    LexStep(sql, i, l, cur);
    FlattenAppend(cur, l);
  }

  lemma CharStep(sql: string, i: nat, cur: seq<Lexeme>)
    requires i < |sql| && CommentLength(sql[i..]) == 0 && LiteralLength(sql[i..]) == 0
    ensures var rest := Lex(sql[i + 1..], false);
            && Flatten(cur + [Chr(sql[i])]) == Flatten(cur) + [sql[i]]
            && Pieces(Lex(sql[i..], false), cur) ==
               if sql[i] == ';' then [cur] + Pieces(rest, []) else Pieces(rest, cur + [Chr(sql[i])])
  {
    var l := First(sql[i..], false);
    assert l == Chr(sql[i]);
    LexStep(sql, i, l, cur);
    FlattenAppend(cur, l);
  }

  lemma FlushPiece(done: seq<seq<Lexeme>>, cur: seq<Lexeme>)
    ensures NonBlank(Texts(done + [cur])) == NonBlank(Texts(done)) + Trimmed(Flatten(cur))
  {
    assert Texts(done + [cur]) == Texts(done) + [Flatten(cur)];
    NonBlankAppend(Texts(done), Flatten(cur));
  }

  datatype StatementError = EmptyQuery | SeveralStatements(count: nat)

  method SingleStatement(sql: string) returns (r: Result<string, StatementError>)
    ensures r == if |Split(sql)| == 1 then Ok(Split(sql)[0])
                 else if |Split(sql)| == 0 then Err(EmptyQuery)
                 else Err(SeveralStatements(|Split(sql)|))
  {
    var stmts := SplitStatements(sql);
    return if |stmts| == 1 then Ok(stmts[0]) else if |stmts| ==
      0 then Err(EmptyQuery) else Err(SeveralStatements(|stmts|));
  }

  // ---- Pieces without comments and semicolons ----

  ghost predicate Tidied(p: seq<Lexeme>, holes: bool) {
    Canonical(p, holes) && forall l <- p :: l.kind != Comment && l != Chr(';')
  }

  /** The piece ends in quoted text, or a hole, that nothing closes. */
  predicate Open(p: seq<Lexeme>) {
    p != [] && !Fits(Last(p), ";")
  }

  lemma FitsNewline(l: Lexeme, r: string)
    requires Fits(l, r) && r != "" && l.kind != Comment
    ensures Fits(l, "\n") && Fits(l, ";")
  {
  }

  lemma TidyAppend(p: seq<Lexeme>, l: Lexeme, holes: bool)
    requires Tidied(p, holes) && Valid(l, holes) && l.kind != Comment && l != Chr(';')
    requires p == [] || Fits(Last(p), l.text)
    ensures Tidied(p + [l], holes)
  {
    hide Valid, Fits;
    FitsEnd(l);
    assert [l][1..] == [];
    assert Canonical([l], holes);
    FlattenAppend([], l);
    assert [] + [l] == [l] && Flatten([l]) == l.text;
    CanonicalConcat(p, [l], holes);
  }

  /** Dropping comments and cutting at semicolons leaves every other lexeme what it was. */
  lemma {:induction false} PiecesAreTidied(ls: seq<Lexeme>, cur: seq<Lexeme>, holes: bool)
    requires Canonical(ls, holes) && Tidied(cur, holes) && (cur == [] || Fits(Last(cur), Flatten(ls)))
    ensures forall p <- Pieces(ls, cur) :: Tidied(p, holes)
    ensures forall i :: 0 <= i < |Pieces(ls, cur)| - 1 ==> !Open(Pieces(ls, cur)[i])
    decreases |ls|
  {
    hide Valid, First;
    if ls != [] {
      var l, rest := ls[0], ls[1..];
      FlattenHead(ls, holes);
      if l == Chr(';') {
        if cur != [] {
          assert Last(cur) in cur;
          FitsHead(Last(cur), Flatten(ls), ";");
        }
        PiecesAreTidied(rest, [], holes);
      } else if l.kind == Comment {
        if cur != [] {
          assert Last(cur) in cur;
          FitsNewline(Last(cur), Flatten(ls));
        }
        NewlineIsValid(holes);
        TidyAppend(cur, Chr('\n'), holes);
        PiecesAreTidied(rest, cur + [Chr('\n')], holes);
      } else {
        if cur != [] {
          assert l.text != "" by { ValidIsNotEmpty(l, holes); }
          FitsHead(Last(cur), Flatten(ls), l.text);
        }
        TidyAppend(cur, l, holes);
        PiecesAreTidied(rest, cur + [l], holes);
      }
    }
  }

  lemma ValidIsNotEmpty(l: Lexeme, holes: bool)
    requires Valid(l, holes)
    ensures l.text != ""
  {
  }

  lemma NewlineIsValid(holes: bool)
    ensures Valid(Chr('\n'), holes)
  {
    assert "\n"[..1] == "\n";
  }

  // ---- Trimming ----

  /** A lexeme that starts with a space is that space. */
  lemma SpaceIsChar(l: Lexeme, holes: bool)
    requires Valid(l, holes) && IsSpace(l.text[0])
    ensures l.kind == Char && |l.text| == 1
  {
  }

  /** A lexeme that ends in a space is that space, or quoted text or a hole that is not closed. */
  lemma TrailingSpace(l: Lexeme, holes: bool)
    requires Valid(l, holes) && IsSpace(l.text[|l.text| - 1]) && l.kind != Comment
    ensures l.kind != Hole
    ensures l.kind == Char ==> |l.text| == 1
    ensures l.kind != Char ==>
      |l.text| > 1 && !Fits(l, ";") && Valid(l.(text := l.text[..|l.text| - 1]), holes)
  {
    hide QuoteEnd, BlockEnd, LineEnd, BraceEnd;
    match l.kind
    case Literal =>
      OpenQuoteShrinks(l.text);
    case Unclosed =>
      OpenHoleShrinks(l.text);
    case Hole =>
      BraceEndEnds(l.text, 0);
    case Char =>
  }

  lemma OpenQuoteShrinks(text: string)
    requires text != "" && IsQuote(text[0]) && LiteralLength(text) == |text| && IsSpace(text[|text| - 1])
    ensures |text| > 1 && !ClosedQuote(text)
    ensures Valid(Lexeme(Literal, text[..|text| - 1]), true) && Valid(Lexeme(Literal, text[..|text| - 1]), false)
  {
    hide QuoteEnd, BlockEnd, LineEnd, BraceEnd;
    ClosedQuoteEnds(text, 1, text[0]);
    var u, r := text[..|text| - 1], text[|text| - 1..];
    assert text == u + r;
    ShorterQuote(u, r);
  }

  lemma OpenHoleShrinks(text: string)
    requires text != "" && text[0] == '{' && BraceEnd(text, 0).None? && IsSpace(text[|text| - 1])
    ensures |text| > 1 && Valid(Lexeme(Unclosed, text[..|text| - 1]), true)
  {
    hide QuoteEnd, BlockEnd, LineEnd, BraceEnd;
    var u, r := text[..|text| - 1], text[|text| - 1..];
    assert text == u + r;
    BraceEndLocal(u, r, 0);
    assert u[0] == '{' && u[..|u|] == u;
  }

  lemma {:induction false} ClosedQuoteEnds(s: string, j: nat, q: char)
    ensures QuoteEnd(s, j, q).Some? ==> s[QuoteEnd(s, j, q).value - 1] == q
    decreases |s| - j
  {
    if j < |s| {
      ClosedQuoteEnds(s, j + 1, q);
      ClosedQuoteEnds(s, j + 2, q);
    }
  }

  lemma {:induction false} BraceEndEnds(s: string, j: nat)
    ensures BraceEnd(s, j).Some? ==> s[BraceEnd(s, j).value - 1] == '}'
    decreases |s| - j
  {
    if j < |s| {
      BraceEndEnds(s, j + 1);
    }
  }

  lemma ShorterQuote(u: string, r: string)
    requires |u| > 0 && |r| == 1 && IsQuote(u[0]) && QuoteEnd(u + r, 1, u[0]).None?
    ensures Valid(Lexeme(Literal, u), true) && Valid(Lexeme(Literal, u), false)
  {
    if QuoteEnd(u, 1, u[0]).Some? {
      QuoteEndLocal(u, r, 1, u[0]);
    }
    assert u[..|u|] == u;
  }

  /** The holes of a piece, in order. */
  function Holes(p: seq<Lexeme>): seq<string> {
    if p == [] then [] else (if p[0].kind == Hole then [p[0].text] else []) + Holes(p[1..])
  }

  predicate HasUnclosed(p: seq<Lexeme>) {
    exists l <- p :: l.kind == Unclosed
  }

  function HoleOf(l: Lexeme): seq<string> {
    if l.kind == Hole then [l.text] else []
  }

  lemma HolesCons(p: seq<Lexeme>, q: seq<Lexeme>)
    ensures p == [] ==> Holes(p) == []
    ensures p != [] ==> Holes(p) == HoleOf(p[0]) + Holes(p[1..])
    ensures p != [] ==> Holes(p + q) == HoleOf(p[0]) + Holes((p + q)[1..])
  {
    assert p != [] ==> (p + q)[0] == p[0];
  }

  lemma {:induction false} HolesConcat(p: seq<Lexeme>, q: seq<Lexeme>)
    ensures Holes(p + q) == Holes(p) + Holes(q)
  {
    hide Holes;
    if p == [] {
      assert p + q == q;
      HolesCons([], q);
    } else {
      HolesConcat(p[1..], q);
      assert (p + q)[0] == p[0] && (p + q)[1..] == p[1..] + q;
      HolesCons(p, q);
    }
  }

  lemma HolesAppend(p: seq<Lexeme>, l: Lexeme)
    ensures Holes(p + [l]) == Holes(p) + if l.kind == Hole then [l.text] else []
  {
    HolesConcat(p, [l]);
    assert Holes([l][1..]) == [];
  }

  lemma NothingToTrim()
    ensures TrimLeft(Flatten([])) == Flatten([])
  {
  }

  lemma TidiedHead(p: seq<Lexeme>, holes: bool)
    requires Tidied(p, holes) && p != []
    ensures p[0].text != "" && Flatten(p) != "" && Flatten(p)[0] == p[0].text[0]
    ensures !IsSpace(p[0].text[0]) ==> TrimLeft(Flatten(p)) == Flatten(p)
  {
    hide Valid, Fits, Flatten;
    ValidIsNotEmpty(p[0], holes);
    FlattenHead(p, holes);
  }

  lemma LeadingSpace(a: string, b: string)
    requires |a| == 1 && IsSpace(a[0])
    ensures TrimLeft(a + b) == TrimLeft(b)
  {
    assert (a + b)[1..] == b && (a + b)[0] == a[0];
  }

  /** A space in front is a lexeme of its own. */
  lemma WithoutSpace(p: seq<Lexeme>, holes: bool)
    requires Tidied(p, holes) && p != [] && p[0].text != "" && IsSpace(p[0].text[0])
    ensures Tidied(p[1..], holes) && Holes(p[1..]) == Holes(p) && TrimLeft(Flatten(p)) == TrimLeft(Flatten(p[1..]))
    ensures (Open(p[1..]) ==> Open(p)) && (HasUnclosed(p[1..]) ==> HasUnclosed(p))
  {
    hide Valid, First, Fits, TrimLeft, Holes;
    SpaceIsChar(p[0], holes);
    HolesCons(p, []);
    assert forall l <- p[1..] :: l in p;
    LeadingSpace(p[0].text, Flatten(p[1..]));
  }

  lemma {:induction false} TrimTidiedLeft(p: seq<Lexeme>, holes: bool) returns (p': seq<Lexeme>)
    requires Tidied(p, holes)
    ensures Tidied(p', holes) && Flatten(p') == TrimLeft(Flatten(p)) && Holes(p') == Holes(p) && (Open(p') ==> Open(p))
    ensures HasUnclosed(p') ==> HasUnclosed(p)
    decreases |p|
  {
    hide Valid, First, Fits, Canonical, Holes, Open, HasUnclosed, TrimLeft;
    p' := p;
    if p == [] {
      NothingToTrim();
    } else {
      TidiedHead(p, holes);
      if IsSpace(p[0].text[0]) {
        WithoutSpace(p, holes);
        p' := TrimTidiedLeft(p[1..], holes);
      }
    }
  }

  lemma {:induction false} TrimTidiedRight(p: seq<Lexeme>, holes: bool) returns (p': seq<Lexeme>)
    requires Tidied(p, holes)
    ensures Tidied(p', holes) && Flatten(p') == TrimRight(Flatten(p)) && Holes(p') == Holes(p) && (Open(p') ==> Open(p))
    ensures HasUnclosed(p') ==> HasUnclosed(p)
    decreases |Flatten(p)|
  {
    hide Tidied, Flatten, Holes, Open, HasUnclosed;
    var text := Flatten(p);
    p' := p;
    if text != "" && IsSpace(text[|text| - 1]) {
      var q := DropTrailingSpace(p, holes);
      p' := TrimTidiedRight(q, holes);
    }
  }

  lemma DropTrailingSpace(p: seq<Lexeme>, holes: bool) returns (p': seq<Lexeme>)
    requires Tidied(p, holes) && Flatten(p) != "" && IsSpace(Flatten(p)[|Flatten(p)| - 1])
    ensures Tidied(p', holes) && Flatten(p') == Flatten(p)[..|Flatten(p)| - 1] && Holes(p') == Holes(p)
    ensures (Open(p') ==> Open(p)) && (HasUnclosed(p') ==> HasUnclosed(p))
  {
    hide Valid, First, Fits, Tidied, Holes;
    var q, l := p[..|p| - 1], Last(p);
    assert p == q + [l];
    FlattenAppend(q, l);
    HolesAppend(q, l);
    TidiedInit(p, holes);
    ValidIsNotEmpty(l, holes);
    TrailingSpace(l, holes);
    if l.kind == Char {
      NotOpenBefore(q, l.text);
      p' := q;
    } else {
      var l' := l.(text := l.text[..|l.text| - 1]);
      if q != [] {
        FitsHead(Last(q), l.text, l'.text);
      }
      TidyAppend(q, l', holes);
      FlattenAppend(q, l');
      HolesAppend(q, l');
      p' := q + [l'];
    }
  }

  lemma TidiedInit(p: seq<Lexeme>, holes: bool)
    requires Tidied(p, holes) && p != []
    ensures var q, l := p[..|p| - 1], Last(p);
            && Tidied(q, holes) && Valid(l, holes) && l.kind != Comment && l != Chr(';')
            && (q == [] || (Last(q).kind != Comment && Fits(Last(q), l.text)))
  {
    hide Valid, Fits;
    var q, l := p[..|p| - 1], Last(p);
    assert p == q + [l];
    CanonicalSplit(q, [l], holes);
    FlattenAppend([], l);
    assert [] + [l] == [l] && Flatten([l]) == l.text;
    assert Canonical([l], holes) ==> Valid([l][0], holes);
    assert l in p && forall x <- q :: x in p;
  }

  lemma NotOpenBefore(q: seq<Lexeme>, r: string)
    requires r != "" && (q == [] || (Last(q).kind != Comment && Fits(Last(q), r)))
    ensures !Open(q)
  {
    if q != [] {
      FitsNewline(Last(q), r);
    }
  }

  /** Trimming a piece leaves a piece with the same holes. */
  lemma TrimTidied(p: seq<Lexeme>, holes: bool) returns (p': seq<Lexeme>)
    requires Tidied(p, holes)
    ensures Tidied(p', holes) && Flatten(p') == TrimSpace(Flatten(p)) && Holes(p') == Holes(p) && (Open(p') ==> Open(p))
    ensures HasUnclosed(p') ==> HasUnclosed(p)
  {
    hide Tidied, Flatten, Holes, Open, HasUnclosed;
    var q := TrimTidiedLeft(p, holes);
    p' := TrimTidiedRight(q, holes);
  }

  // ---- Splitting is stable ----

  lemma {:induction false} TidiedIsOnePiece(p: seq<Lexeme>, cur: seq<Lexeme>)
    requires forall l <- p :: l.kind != Comment && l != Chr(';')
    ensures Pieces(p, cur) == [cur + p]
    decreases |p|
  {
    if p == [] {
      assert cur + p == cur;
    } else {
      assert p[0] in p;
      TidiedIsOnePiece(p[1..], cur + [p[0]]);
      assert cur + [p[0]] + p[1..] == cur + p;
    }
  }

  /** Pieces of one text: only the last can end open. */
  ghost predicate Cut(ps: seq<seq<Lexeme>>, holes: bool) {
    (forall p <- ps :: Tidied(p, holes)) && forall i :: 0 <= i < |ps| - 1 ==> !Open(ps[i])
  }

  ghost predicate AllTrimmed(qs: seq<seq<Lexeme>>) {
    forall q <- qs :: Flatten(q) != "" && TrimSpace(Flatten(q)) == Flatten(q)
  }

  ghost predicate NoneOpen(qs: seq<seq<Lexeme>>) {
    forall q <- qs :: !Open(q)
  }

  ghost predicate NoneUnclosed(qs: seq<seq<Lexeme>>) {
    forall q <- qs :: !HasUnclosed(q)
  }

  /** The trimmed pieces of a text, as lists of lexemes. */
  lemma {:induction false} TrimPieces(ps: seq<seq<Lexeme>>, holes: bool) returns (qs: seq<seq<Lexeme>>)
    requires Cut(ps, holes)
    ensures Texts(qs) == NonBlank(Texts(ps)) && AllHoles(qs) == AllHoles(ps)
    ensures Cut(qs, holes) && AllTrimmed(qs) && (NoneOpen(ps) ==> NoneOpen(qs))
    ensures (NoneUnclosed(ps) ==> NoneUnclosed(qs))
    decreases |ps|
  {
    hide Tidied, Open, TrimSpace, Texts, NonBlank, AllHoles, HasUnclosed;
    qs := [];
    if ps == [] {
      StartTrimming();
    } else {
      var init, p := ps[..|ps| - 1], ps[|ps| - 1];
      assert ps == init + [p] && p in ps && forall x <- init :: x in ps;
      CutInit(init, p, holes);
      qs := TrimPieces(init, holes);
      qs := TrimOne(init, p, qs, holes);
    }
  }

  lemma StartTrimming()
    ensures Texts([]) == NonBlank(Texts([])) && AllHoles([]) == []
  {
  }

  lemma CutInit(init: seq<seq<Lexeme>>, p: seq<Lexeme>, holes: bool)
    requires Cut(init + [p], holes)
    ensures Cut(init, holes) && NoneOpen(init) && Tidied(p, holes)
  {
    hide Tidied, Open;
    var ps := init + [p];
    forall q <- init ensures Tidied(q, holes) && !Open(q) {
      var i :| 0 <= i < |init| && init[i] == q;
      assert ps[i] == q && ps[i] in ps;
    }
    assert ps[|init|] in ps;
  }

  lemma TrimOne(
    init: seq<seq<Lexeme>>, p: seq<Lexeme>, qs: seq<seq<Lexeme>>, holes: bool) returns (qs': seq<seq<Lexeme>>)
    requires Tidied(p, holes) && Cut(qs, holes) && AllTrimmed(qs) && NoneOpen(qs)
    requires Texts(qs) == NonBlank(Texts(init)) && AllHoles(qs) == AllHoles(init)
    ensures Texts(qs') == NonBlank(Texts(init + [p])) && AllHoles(qs') == AllHoles(init + [p])
    ensures Cut(qs', holes) && AllTrimmed(qs') && (NoneOpen(init + [p]) ==> NoneOpen(qs'))
    ensures NoneUnclosed(qs) && NoneUnclosed(init + [p]) ==> NoneUnclosed(qs')
  {
    hide Tidied, Open, TrimSpace, NonBlank, AllHoles, HasUnclosed;
    assert Texts(init + [p]) == Texts(init) + [Flatten(p)];
    NonBlankAppend(Texts(init), Flatten(p));
    AllHolesAppend(init, p);
    var q := TrimTidied(p, holes);
    if Flatten(q) == "" {
      BlankHasNoHoles(q, holes);
      qs' := qs;
    } else {
      TrimSpaceTwice(Flatten(p));
      AllHolesAppend(qs, q);
      qs' := qs + [q];
      assert Texts(qs') == Texts(qs) + [Flatten(q)];
      assert p in init + [p];
      assert forall i :: 0 <= i < |qs| ==> qs[i] in qs;
    }
  }

  function AllHoles(ps: seq<seq<Lexeme>>): seq<string> {
    if ps == [] then [] else AllHoles(ps[..|ps| - 1]) + Holes(ps[|ps| - 1])
  }

  lemma AllHolesAppend(ps: seq<seq<Lexeme>>, p: seq<Lexeme>)
    ensures AllHoles(ps + [p]) == AllHoles(ps) + Holes(p)
  {
    assert (ps + [p])[..|ps|] == ps;
  }

  lemma BlankHasNoHoles(q: seq<Lexeme>, holes: bool)
    requires Tidied(q, holes) && Flatten(q) == ""
    ensures Holes(q) == []
  {
    if q != [] {
      FlattenHead(q, holes);
    }
  }

  lemma PiecesOf(sql: string, holes: bool)
    ensures Cut(Pieces(Lex(sql, holes), []), holes)
  {
    hide Lex, Tidied, Open;
    LexIsCanonical(sql, holes);
    assert Tidied([], holes) by { NothingIsTidied(holes); }
    PiecesAreTidied(Lex(sql, holes), [], holes);
  }

  lemma NothingIsTidied(holes: bool)
    ensures Tidied([], holes)
  {
  }

  lemma TrimmedHasNoSpace(s: string)
    requires TrimSpace(s) == s
    ensures NoSpaceAround(s)
  {
    hide TrimLeft, TrimRight;
    TrimLeftStops(s);
    TrimRightStops(TrimLeft(s));
    TrimLeftIsSuffix(s);
    assert |TrimLeft(s)| == |s| && s[0..] == s;
  }

  /** Every statement is trimmed, free of comments and terminators, and splits to itself alone. */
  lemma StatementsAreStable(sql: string, i: nat)
    requires i < |Split(sql)|
    ensures Split(sql)[i] != "" && NoSpaceAround(Split(sql)[i])
    ensures Split(Split(sql)[i]) == [Split(sql)[i]]
    ensures forall l <- Lex(Split(sql)[i], false) :: l.kind != Comment && l != Chr(';')
  {
    hide Lex, Pieces, Open;
    PiecesOf(sql, false);
    var qs := TrimPieces(Pieces(Lex(sql, false), []), false);
    var q := qs[i];
    assert Split(sql) == Texts(qs) && Split(sql)[i] == Flatten(q) && q in qs;
    TrimmedHasNoSpace(Flatten(q));
    LexUndoesFlatten(q, false);
    TidiedIsOnePiece(q, []);
    assert [] + q == q;
    assert Texts([q]) == [Flatten(q)];
    assert NonBlank([Flatten(q)]) == [Flatten(q)] by { NonBlankKeeps([Flatten(q)]); }
  }

  function Join(stmts: seq<string>): string {
    if stmts == [] then "" else if |stmts| == 1 then stmts[0] else stmts[0] + ";" + Join(stmts[1..])
  }

  function JoinLists(qs: seq<seq<Lexeme>>): seq<Lexeme> {
    if qs == [] then [] else if |qs| == 1 then qs[0] else qs[0] + [Chr(';')] + JoinLists(qs[1..])
  }

  lemma {:induction false} JoinListsFlatten(qs: seq<seq<Lexeme>>)
    ensures Flatten(JoinLists(qs)) == Join(Texts(qs))
  {
    if |qs| > 1 {
      JoinListsFlatten(qs[1..]);
      assert Texts(qs)[1..] == Texts(qs[1..]);
      FlattenAppend(qs[0], Chr(';'));
      FlattenConcat(qs[0] + [Chr(';')], JoinLists(qs[1..]));
    }
  }

  lemma {:induction false} JoinListsCanonical(qs: seq<seq<Lexeme>>, holes: bool)
    requires Cut(qs, holes)
    ensures Canonical(JoinLists(qs), holes)
  {
    if |qs| == 1 {
      assert qs[0] in qs;
    } else if |qs| > 1 {
      assert qs[0] in qs && !Open(qs[0]);
      forall i | 0 <= i < |qs[1..]| - 1 ensures !Open(qs[1..][i]) {
        assert !Open(qs[i + 1]);
      }
      JoinListsCanonical(qs[1..], holes);
      SemicolonJoins(qs[0], JoinLists(qs[1..]), holes);
    }
  }

  lemma SemicolonFits(r: string)
    ensures Fits(Chr(';'), r)
  {
  }

  lemma SemicolonAlone(holes: bool)
    ensures Canonical([Chr(';')], holes) && Flatten([Chr(';')]) == ";" && Last([Chr(';')]) == Chr(';')
  {
    var semi := [Chr(';')];
    assert ";"[..1] == ";" && semi[1..] == [];
    assert Valid(Chr(';'), holes);
    hide Valid, First;
    SemicolonFits("");
    assert Flatten([]) == "" && ";" + "" == ";";
  }

  lemma SemicolonJoins(p: seq<Lexeme>, q: seq<Lexeme>, holes: bool)
    requires Canonical(p, holes) && Canonical(q, holes) && !Open(p)
    ensures Canonical(p + [Chr(';')] + q, holes)
  {
    hide Valid, Fits, First, Canonical, Flatten;
    var semi := [Chr(';')];
    SemicolonAlone(holes);
    SemicolonFits(Flatten(q));
    CanonicalConcat(semi, q, holes);
    FlattenConcat(semi, q);
    assert Flatten(semi + q)[0] == ';';
    if p != [] {
      FitsHead(Last(p), ";", Flatten(semi + q));
    }
    CanonicalConcat(p, semi + q, holes);
    assert p + semi + q == p + (semi + q);
  }

  lemma {:induction false} PiecesSkip(p: seq<Lexeme>, rest: seq<Lexeme>, cur: seq<Lexeme>)
    requires forall l <- p :: l.kind != Comment && l != Chr(';')
    ensures Pieces(p + [Chr(';')] + rest, cur) == [cur + p] + Pieces(rest, [])
    decreases |p|
  {
    var all := p + [Chr(';')] + rest;
    if p == [] {
      assert all[0] == Chr(';') && all[1..] == rest && cur + p == cur;
    } else {
      assert p[0] in p && all[0] == p[0] && all[1..] == p[1..] + [Chr(';')] + rest;
      PiecesSkip(p[1..], rest, cur + [p[0]]);
      assert cur + [p[0]] + p[1..] == cur + p;
    }
  }

  lemma {:induction false} PiecesUndoJoin(qs: seq<seq<Lexeme>>)
    requires qs != [] && forall q <- qs, l <- q :: l.kind != Comment && l != Chr(';')
    ensures Pieces(JoinLists(qs), []) == qs
  {
    assert qs[0] in qs && [] + qs[0] == qs[0];
    if |qs| == 1 {
      TidiedIsOnePiece(qs[0], []);
    } else {
      PiecesUndoJoin(qs[1..]);
      PiecesSkip(qs[0], JoinLists(qs[1..]), []);
    }
  }

  /** Trimmed pieces are what their joined text splits into. */
  lemma PiecesSplitBack(qs: seq<seq<Lexeme>>)
    requires Cut(qs, false) && AllTrimmed(qs)
    ensures Split(Join(Texts(qs))) == Texts(qs)
  {
    JoinListsFlatten(qs);
    JoinListsCanonical(qs, false);
    LexUndoesFlatten(JoinLists(qs), false);
    hide Lex, Canonical, Open, TrimSpace;
    if qs == [] {
      assert Pieces([], []) == [[]] && Texts([[]]) == [""];
      BlankSplitsToNothing();
    } else {
      PiecesUndoJoin(qs);
      assert forall t <- Texts(qs) :: t != "" && TrimSpace(t) == t;
      NonBlankKeeps(Texts(qs));
    }
  }

  lemma BlankSplitsToNothing()
    ensures NonBlank([""]) == []
  {
    NonBlankAppend([], "");
    assert [] + [""] == [""];
  }

  /** Joining the statements with semicolons and splitting again gives the same statements. */
  lemma SplitUndoesJoin(sql: string)
    ensures Split(Join(Split(sql))) == Split(sql)
  {
    hide Lex, Pieces, NonBlank, Cut, AllTrimmed, Join, NoneOpen, AllHoles;
    PiecesOf(sql, false);
    var qs := TrimPieces(Pieces(Lex(sql, false), []), false);
    PiecesSplitBack(qs);
  }

  /** A text without comments and terminators and without space around it. */
  ghost predicate IsStatement(st: string) {
    st != "" && NoSpaceAround(st) && forall l <- Lex(st, false) :: l.kind != Comment && l != Chr(';')
  }

  lemma StatementIsTidied(st: string)
    requires IsStatement(st)
    ensures Tidied(Lex(st, false), false) && Flatten(Lex(st, false)) == st && TrimSpace(st) == st
  {
    hide Lex, Canonical;
    LexIsCanonical(st, false);
    TrimKeeps(st);
  }

  /** Statements joined by semicolons are split into just these statements, if no quoted text runs across them. */
  lemma JoinedStatementsSplit(sts: seq<string>)
    requires forall st <- sts :: IsStatement(st)
    requires forall i :: 0 <= i < |sts| - 1 ==> !Open(Lex(sts[i], false))
    ensures Split(Join(sts)) == sts
  {
    hide Lex, Split, Join, Open, Tidied, IsStatement, Flatten;
    var qs := seq(|sts|, i requires 0 <= i < |sts| => Lex(sts[i], false));
    forall i | 0 <= i < |sts| ensures Tidied(qs[i], false) && Flatten(qs[i]) == sts[i] && TrimSpace(sts[i]) == sts[i] {
      assert sts[i] in sts;
      StatementIsTidied(sts[i]);
    }
    forall q <- qs ensures Tidied(q, false) && Flatten(q) != "" && TrimSpace(Flatten(q)) == Flatten(q) {
      var i :| 0 <= i < |qs| && qs[i] == q;
      assert sts[i] in sts;
      StatementIsNotEmpty(sts[i]);
    }
    assert Texts(qs) == sts;
    PiecesSplitBack(qs);
  }

  lemma StatementIsNotEmpty(st: string)
    requires IsStatement(st)
    ensures st != ""
  {
  }

  lemma {:induction false} TidyIsEnough(a: seq<Lexeme>, b: seq<Lexeme>, cur: seq<Lexeme>)
    requires |a| == |b| && forall i :: 0 <= i < |a| ==> Tidy(a[i]) == Tidy(b[i])
    ensures Pieces(a, cur) == Pieces(b, cur)
    decreases |a|
  {
    if a != [] {
      assert a[0] == Chr(';') <==> b[0] == Chr(';');
      TidyIsEnough(a[1..], b[1..], if a[0] == Chr(';') then [] else cur + [Tidy(a[0])]);
    }
  }

  lemma NewlineFits(r: string)
    ensures Fits(Chr('\n'), r)
  {
  }

  lemma CommentStarts(c: Lexeme, p: Lexeme, r: string)
    requires Valid(c, false) && c.kind == Comment && Fits(p, c.text + r)
    ensures Fits(p, "\n" + r)
  {
    assert (c.text + r)[0] == c.text[0] && (c.text[0] == '-' || c.text[0] == '/');
    assert ("\n" + r)[0] == '\n';
  }

  /** A comment separates what stands around it as a newline does, whatever the comment and wherever it stands. */
  lemma CommentIsNewline(p: seq<Lexeme>, c: Lexeme, q: seq<Lexeme>)
    requires Canonical(p + ([c] + q), false) && c.kind == Comment
    ensures Split(Flatten(p + ([c] + q))) == Split(Flatten(p) + "\n" + Flatten(q))
  {
    hide Valid, Fits, First, Lex, Tidied;
    var n := Chr('\n');
    CanonicalSplit(p, [c] + q, false);
    FlattenConcat([c], q);
    FlattenConcat([n], q);
    assert [] + [c] == [c] && [] + [n] == [n];
    FlattenAppend([], c);
    FlattenAppend([], n);
    assert ([c] + q)[1..] == q && ([n] + q)[1..] == q;
    NewlineIsValid(false);
    NewlineFits(Flatten(q));
    if p != [] {
      CommentStarts(c, Last(p), Flatten(q));
    }
    CanonicalConcat(p, [n] + q, false);
    FlattenConcat(p, [n] + q);
    LexUndoesFlatten(p + ([n] + q), false);
    LexUndoesFlatten(p + ([c] + q), false);
    assert Flatten(p + ([n] + q)) == Flatten(p) + "\n" + Flatten(q);
    TidyIsEnough(p + ([c] + q), p + ([n] + q), []);
  }
}
