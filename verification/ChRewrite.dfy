/** The rewrites of a ClickHouse query commute with scanning it again. */
module ChRewrite {
  import opened Text
  import opened ChTypes
  import opened ChGrammar
  import opened ChVerbatim
  import opened ChRoundTrip
  import opened ChIdentity
  import opened ChLex
  import opened ChStatements
  import opened ChParams
  import opened ChQuiet

  // ---- A query as a list of lexemes ----

  /** Every hole declares a parameter. */
  predicate Scannable(ls: seq<Lexeme>) {
    forall l <- ls :: l.kind != Unclosed && (l.kind == Hole ==> ParamOf(l.text).Some?)
  }

  /** The parameters, once for every time they occur. */
  function Occs(ls: seq<Lexeme>): seq<Param>
    requires Scannable(ls)
  {
    if ls == [] then []
    else (if ls[0].kind == Hole then [ParamOf(ls[0].text).value] else []) + Occs(ls[1..])
  }

  /** Every lexeme in order, with f of its parameter in place of each hole. */
  function Fill(ls: seq<Lexeme>, f: Param -> string): string
    requires Scannable(ls)
  {
    if ls == [] then ""
    else (if ls[0].kind == Hole then f(ParamOf(ls[0].text).value) else ls[0].text) + Fill(ls[1..], f)
  }

  lemma {:induction false} SegmentsMean(ls: seq<Lexeme>, text: string, f: Param -> string)
    ensures Segments(ls, text).Some? <==> Scannable(ls)
    ensures Scannable(ls) ==>
      && Render(Segments(ls, text).value, f) == text + Fill(ls, f)
      && Occurrences(Segments(ls, text).value) == Occs(ls)
    decreases |ls|
  {
    hide ParamOf, Render, Occurrences, TextSegment;
    if ls == [] {
      TextSegmentMeans(text, [], f);
      NothingToRender(f);
      assert TextSegment(text) + [] == TextSegment(text) && text + "" == text;
    } else {
      var l, rest := ls[0], ls[1..];
      assert l in ls && forall x :: x in ls <==> x == l || x in rest;
      if l.kind == Hole && ParamOf(l.text).Some? {
        SegmentsMean(rest, "", f);
        if Scannable(rest) {
          HoleSegmentMeans(text, ParamOf(l.text).value, Segments(rest, "").value, f);
          assert "" + Fill(rest, f) == Fill(rest, f);
        }
      } else if l.kind != Hole && l.kind != Unclosed {
        SegmentsMean(rest, text + l.text, f);
        if Scannable(rest) {
          assert text + l.text + Fill(rest, f) == text + Fill(ls, f);
          assert Occs(ls) == [] + Occs(rest);
        }
      }
    }
  }

  lemma NothingToRender(f: Param -> string)
    ensures Render([], f) == "" && Occurrences([]) == []
  {
  }

  lemma HoleSegmentMeans(text: string, p: Param, tail: seq<Segment>, f: Param -> string)
    ensures var segs := TextSegment(text) + [Parameter(p)] + tail;
            Render(segs, f) == text + (f(p) + Render(tail, f)) && Occurrences(segs) == [p] + Occurrences(tail)
  {
    TextSegmentMeans(text, [Parameter(p)] + tail, f);
    hide TextSegment;
    assert TextSegment(text) + [Parameter(p)] + tail == TextSegment(text) + ([Parameter(p)] + tail);
    assert ([Parameter(p)] + tail)[1..] == tail;
  }

  lemma TextSegmentMeans(text: string, segs: seq<Segment>, f: Param -> string)
    ensures Render(TextSegment(text) + segs, f) == text + Render(segs, f)
    ensures Occurrences(TextSegment(text) + segs) == Occurrences(segs)
  {
    if text == "" {
      assert [] + segs == segs && "" + Render(segs, f) == Render(segs, f);
    } else {
      assert ([Text(text)] + segs)[1..] == segs;
      assert [] + Occurrences(segs) == Occurrences(segs);
    }
  }

  /** A rewrite succeeds exactly on scannable queries, and replaces nothing but the holes. */
  lemma RewriteMeans(sql: string, f: Param -> string)
    ensures Rewrite(sql, f) == if Scannable(Lex(sql, true)) then Some(Fill(Lex(sql, true), f)) else None
    ensures ParamsOf(sql) == if Scannable(Lex(sql, true)) then Distinct(Occs(Lex(sql, true)), []) else None
  {
    hide Lex, Segments, Render, Occurrences, Scannable, Fill, Occs, Distinct;
    SegmentsMean(Lex(sql, true), "", f);
    if Scannable(Lex(sql, true)) {
      assert "" + Fill(Lex(sql, true), f) == Fill(Lex(sql, true), f);
    }
  }

  // ---- Replacing the holes of a canonical list ----

  /** A parameter whose normal form is read back as the parameter. */
  ghost predicate Good(p: Param) {
    IsIdent(p.name) && WellFormed(p.typ) && BraceFree(p.typ)
  }

  /** Lexemes that can stand in for a hole. */
  ghost predicate StandIn(ls: seq<Lexeme>) {
    && ls != [] && Canonical(ls, true) && Sturdy(Last(ls))
    && ls[0].text != "" && ls[0].text[0] != '-' && ls[0].text[0] != '*'
  }

  function Replace(ls: seq<Lexeme>, g: Param -> seq<Lexeme>): seq<Lexeme>
    requires Scannable(ls)
  {
    if ls == [] then []
    else (if ls[0].kind == Hole then g(ParamOf(ls[0].text).value) else [ls[0]]) + Replace(ls[1..], g)
  }

  lemma HoleStarts(l: Lexeme)
    requires Valid(l, true) && l.kind == Hole
    ensures l.text[0] == '{' && |l.text| >= 2 && l.text[|l.text| - 1] == '}' && Plain(l.text[..|l.text| - 1])
  {
    BraceEndEnds(l.text, 0);
    BraceFreeBefore(l.text, 0);
  }

  lemma {:induction false} BraceFreeBefore(s: string, j: nat)
    requires BraceEnd(s, j).Some? && j <= |s|
    ensures forall k :: j <= k < BraceEnd(s, j).value - 1 ==> s[k] != '}'
    decreases |s| - j
  {
    if s[j] != '}' {
      BraceFreeBefore(s, j + 1);
    }
  }

  /** Nothing in front of a hole minds what the hole is replaced by. */
  lemma FitsStandIn(l: Lexeme, r: string, r': string)
    requires Fits(l, r) && r != "" && r[0] == '{' && r' != "" && r'[0] != '-' && r'[0] != '*'
    ensures Fits(l, r')
  {
    hide ClosedQuote, ClosedBlock;
  }

  lemma {:induction false} ReplaceIsCanonical(ls: seq<Lexeme>, g: Param -> seq<Lexeme>)
    requires Canonical(ls, true) && Scannable(ls) && forall p <- Occs(ls) :: StandIn(g(p))
    ensures Canonical(Replace(ls, g), true)
    decreases |ls|
  {
    hide Valid, Fits, ParamOf, Sturdy;
    if ls != [] {
      var l, rest := ls[0], ls[1..];
      ReplaceIsCanonical(rest, g);
      var tail := Replace(rest, g);
      if l.kind == Hole {
        var p := ParamOf(l.text).value;
        assert p in Occs(ls);
        SturdyFits(Last(g(p)), Flatten(tail));
        CanonicalConcat(g(p), tail, true);
      } else {
        HeadStillFits(l, rest, g);
        CanonicalOne(l, true);
        CanonicalConcat([l], tail, true);
      }
    }
  }

  lemma HeadStillFits(l: Lexeme, rest: seq<Lexeme>, g: Param -> seq<Lexeme>)
    requires Fits(l, Flatten(rest)) && Canonical(rest, true) && Scannable(rest)
    requires forall p <- Occs(rest) :: StandIn(g(p))
    ensures Fits(l, Flatten(Replace(rest, g)))
  {
    hide Valid, Fits, ParamOf, Sturdy;
    if rest != [] {
      var h := rest[0];
      FlattenHead(rest, true);
      ValidIsNotEmpty(h, true);
      var tail := Replace(rest[1..], g);
      if h.kind == Hole {
        HoleStarts(h);
        var p := ParamOf(h.text).value;
        assert p in Occs(rest);
        FlattenConcat(g(p), tail);
        assert Flatten(g(p))[0] == g(p)[0].text[0];
        FitsStandIn(l, Flatten(rest), Flatten(g(p) + tail));
      } else {
        FlattenConcat([h], tail);
        assert Flatten([h] + tail) == h.text + Flatten(tail) by { FlattenAppend([], h); assert [] + [h] == [h]; }
        FitsHead(l, Flatten(rest), Flatten([h] + tail));
      }
    } else {
      FitsEnd(l);
    }
  }

  lemma {:induction false} ReplaceFills(ls: seq<Lexeme>, g: Param -> seq<Lexeme>, f: Param -> string)
    requires Scannable(ls) && forall p <- Occs(ls) :: Flatten(g(p)) == f(p)
    ensures Flatten(Replace(ls, g)) == Fill(ls, f)
    decreases |ls|
  {
    hide ParamOf;
    if ls != [] {
      var l := ls[0];
      ReplaceFills(ls[1..], g, f);
      if l.kind == Hole {
        var p := ParamOf(l.text).value;
        assert p in Occs(ls);
        FlattenConcat(g(p), Replace(ls[1..], g));
      } else {
        FlattenConcat([l], Replace(ls[1..], g));
        FlattenAppend([], l);
        assert [] + [l] == [l];
      }
    }
  }

  /** Scanning a rewritten query finds the query with its holes replaced. */
  lemma ScanAfterRewrite(sql: string, g: Param -> seq<Lexeme>, f: Param -> string)
    requires Scannable(Lex(sql, true))
    requires forall p <- Occs(Lex(sql, true)) :: StandIn(g(p)) && Flatten(g(p)) == f(p)
    ensures Rewrite(sql, f).Some? && Lex(Rewrite(sql, f).value, true) == Replace(Lex(sql, true), g)
  {
    hide Lex, Canonical, Fill, Occs, Replace, Scannable, StandIn, Rewrite;
    RewriteMeans(sql, f);
    LexIsCanonical(sql, true);
    assert forall p <- Occs(Lex(sql, true)) :: StandIn(g(p));
    ReplaceIsCanonical(Lex(sql, true), g);
    ReplaceFills(Lex(sql, true), g, f);
    LexUndoesFlatten(Replace(Lex(sql, true), g), true);
  }

  /** The parameters of the replaced list are those of the stand-ins. */
  function OccsOf(ps: seq<Param>, g: Param -> seq<Lexeme>): seq<Param>
    requires forall p <- ps :: Scannable(g(p))
  {
    if ps == [] then [] else Occs(g(ps[0])) + OccsOf(ps[1..], g)
  }

  lemma ScannableConcat(a: seq<Lexeme>, b: seq<Lexeme>)
    requires Scannable(a) && Scannable(b)
    ensures Scannable(a + b) && (a != [] ==> Scannable(a[1..]) && a[0].kind != Unclosed)
    ensures a != [] && a[0].kind == Hole ==> ParamOf(a[0].text).Some?
  {
    hide ParamOf;
    assert a != [] ==> a[0] in a && forall l <- a[1..] :: l in a;
  }

  function OccsIn(l: Lexeme): seq<Param>
    requires l.kind == Hole ==> ParamOf(l.text).Some?
  {
    if l.kind == Hole then [ParamOf(l.text).value] else []
  }

  lemma OccsCons(ls: seq<Lexeme>)
    requires Scannable(ls)
    ensures ls == [] ==> Occs(ls) == []
    ensures ls != [] ==> (ls[0].kind == Hole ==> ParamOf(ls[0].text).Some?) && Scannable(ls[1..])
    ensures ls != [] ==> Occs(ls) == OccsIn(ls[0]) + Occs(ls[1..])
  {
    hide ParamOf;
    assert ls != [] ==> ls[0] in ls && forall l <- ls[1..] :: l in ls;
  }

  lemma {:induction false} OccsConcat(a: seq<Lexeme>, b: seq<Lexeme>)
    requires Scannable(a) && Scannable(b)
    ensures Scannable(a + b) && Occs(a + b) == Occs(a) + Occs(b)
    decreases |a|
  {
    hide ParamOf, Occs, Scannable, OccsIn;
    ScannableConcat(a, b);
    OccsCons(a);
    OccsCons(a + b);
    if a == [] {
      assert a + b == b;
    } else {
      assert (a + b)[0] == a[0] && (a + b)[1..] == a[1..] + b;
      OccsConcat(a[1..], b);
    }
  }

  lemma {:induction false} OccsAfterReplace(ls: seq<Lexeme>, g: Param -> seq<Lexeme>)
    requires Scannable(ls) && forall p <- Occs(ls) :: Scannable(g(p))
    ensures Scannable(Replace(ls, g)) && Occs(Replace(ls, g)) == OccsOf(Occs(ls), g)
    decreases |ls|
  {
    hide ParamOf;
    if ls != [] {
      var l := ls[0];
      OccsAfterReplace(ls[1..], g);
      if l.kind == Hole {
        var p := ParamOf(l.text).value;
        assert Occs(ls) == [p] + Occs(ls[1..]) && Occs(ls)[0] == p && Occs(ls)[1..] == Occs(ls[1..]);
        OccsConcat(g(p), Replace(ls[1..], g));
      } else {
        OccsConcat([l], Replace(ls[1..], g));
        assert Occs([l]) == [] + Occs([l][1..]);
        assert [] + Occs(ls[1..]) == Occs(ls[1..]);
      }
    }
  }

  // ---- Stand-ins ----

  function HoleFor(p: Param): seq<Lexeme> {
    [Lexeme(Hole, HoleText(p))]
  }

  lemma IdentIsTrimmed(name: string)
    requires IsIdent(name)
    ensures TrimSpace(name) == name && Plain(name) && Tame(name) && ':' !in name && NoSpaceAround(name)
  {
    assert name[0] in name && name[|name| - 1] in name;
    TrimKeeps(name);
  }

  lemma PrintEnds(t: Type)
    requires WellFormed(t)
    ensures Print(t) != "" && !IsSpace(Print(t)[|Print(t)| - 1])
  {
    hide Itoa, Quote, PrintLabels, PrintElems;
    match t
    case Scalar(name) => assert name[|name| - 1] in name;
    case _ =>
  }

  /** A printed type has no space at either end. */
  lemma PrintIsTrimmed(t: Type)
    requires WellFormed(t)
    ensures TrimSpace(Print(t)) == Print(t) && Print(t) != "" && NoSpaceAround(Print(t))
  {
    hide Print;
    WellFormedIsReadable(t);
    PrintStarts(t);
    PrintEnds(t);
    TrimKeeps(Print(t));
  }

  lemma {:induction false} NoBraceNoEnd(s: string, j: nat, n: nat)
    requires j <= n < |s| && s[n] == '}' && forall k :: j <= k < n ==> s[k] != '}'
    ensures BraceEnd(s, j) == Some(n + 1)
    decreases n - j
  {
    if j < n {
      NoBraceNoEnd(s, j + 1, n);
    }
  }

  lemma HoleTextIsValid(p: Param)
    requires Good(p)
    ensures Valid(Lexeme(Hole, HoleText(p)), true)
  {
    var u := HoleText(p);
    IdentIsTrimmed(p.name);
    PrintIsPlain(p.typ);
    var n := |u| - 1;
    var inner := "{" + p.name + ":" + Print(p.typ);
    assert u == inner + "}" && Plain(inner);
    assert u[0] == '{';
    hide Print, HoleText;
    NoBraceNoEnd(u, 0, n);
    assert u[..|u|] == u;
  }

  lemma HoleBody(name: string, typ: string)
    requires ':' !in name
    ensures var body := name + ":" + typ;
            var colon := IndexFrom(body, ':', 0);
            && colon == |name| && body[..colon] == name && body[colon + 1..] == typ
            && ("{" + body + "}")[1..|body| + 1] == body
  {
    var body := name + ":" + typ;
    assert body[|name|] == ':' && forall k :: 0 <= k < |name| ==> body[k] == name[k];
  }

  /** A hole declares its parameter whatever blanks stand around the name and the type. */
  lemma PaddedHoleReads(p: Param, a: string, b: string)
    requires Good(p) && Blanks(a) && Blanks(b)
    ensures ParamOf("{" + (Pad(a, p.name) + ":" + Pad(b, Print(p.typ))) + "}") == Some(p)
  {
    hide Print, Parse;
    IdentIsTrimmed(p.name);
    PrintIsTrimmed(p.typ);
    TrimPad(a, p.name, a);
    TrimPad(b, Print(p.typ), b);
    ParsePrint(p.typ);
    hide TrimSpace, Pad;
    assert ':' !in Pad(a, p.name) by { NoColon(a, p.name); }
    HoleBody(Pad(a, p.name), Pad(b, Print(p.typ)));
  }

  lemma NoColon(a: string, name: string)
    requires Blanks(a) && ':' !in name
    ensures ':' !in Pad(a, name)
  {
    assert !IsSpace(':');
  }

  /** A hole without a colon, or without a name in front of it, declares nothing. */
  lemma NamelessHoleIsRefused(a: string, rest: string)
    ensures ':' !in rest ==> ParamOf("{" + rest + "}").None?
    ensures Blanks(a) ==> ParamOf("{" + (a + ":" + rest) + "}").None?
  {
    hide Parse;
    assert ("{" + rest + "}")[1..|rest| + 1] == rest;
    if Blanks(a) {
      assert ':' !in a by { assert !IsSpace(':'); }
      HoleBody(a, rest);
      TrimPad(a, "", "");
      assert a + "" + "" == a;
    }
  }

  lemma HoleTextReads(p: Param)
    requires Good(p)
    ensures ParamOf(HoleText(p)) == Some(p)
  {
    hide Print, ParamOf;
    PaddedHoleReads(p, "", "");
    assert Pad("", p.name) == p.name && Pad("", Print(p.typ)) == Print(p.typ);
    assert "{" + (p.name + ":" + Print(p.typ)) + "}" == HoleText(p);
  }

  lemma HoleIsStandIn(p: Param)
    requires Good(p)
    ensures StandIn(HoleFor(p)) && Flatten(HoleFor(p)) == HoleText(p)
    ensures Scannable(HoleFor(p)) && Occs(HoleFor(p)) == [p]
  {
    HoleTextIsValid(p);
    HoleTextReads(p);
    var l := Lexeme(Hole, HoleText(p));
    assert HoleText(p)[0] == '{';
    hide Valid, ParamOf, HoleText;
    CanonicalOne(l, true);
    assert Occs([l]) == [p] + Occs([l][1..]);
  }

  lemma QuietIsStandIn(u: string)
    requires u != "" && Quiet(u, true) && IsIdentChar(u[0])
    ensures StandIn(Lex(u, true)) && Flatten(Lex(u, true)) == u
    ensures Scannable(Lex(u, true)) && Occs(Lex(u, true)) == []
  {
    hide ClosedQuote, Sturdy, First, ParamOf;
    LexIsCanonical(u, true);
    assert Lex(u, true)[0] == First(u, true);
    NoHolesNoOccs(Lex(u, true));
  }

  lemma {:induction false} NoHolesNoOccs(ls: seq<Lexeme>)
    requires forall l <- ls :: l.kind == Char || l.kind == Literal
    ensures Scannable(ls) && Occs(ls) == []
  {
    hide ParamOf;
    if ls != [] {
      NoHolesNoOccs(ls[1..]);
    }
  }

  // ---- Queries the results are about ----

  /** The query scans, its parameters are named by identifiers and none has a type kept verbatim. */
  ghost predicate Clean(sql: string) {
    && Scannable(Lex(sql, true))
    && forall p <- Occs(Lex(sql, true)) :: IsIdent(p.name) && Supported(p.typ)
  }

  lemma ParamIsSound(l: Lexeme)
    requires Valid(l, true) && l.kind == Hole && ParamOf(l.text).Some?
    ensures var p := ParamOf(l.text).value; (Supported(p.typ) ==> WellFormed(p.typ)) && BraceFree(p.typ)
  {
    hide Parse, Valid;
    HoleStarts(l);
    var body := l.text[1..|l.text| - 1];
    var colon := IndexFrom(body, ':', 0);
    var text := TrimSpace(body[colon + 1..]);
    assert Plain(body[colon + 1..]) by {
      assert forall k :: 0 <= k < |body| ==> body[k] == l.text[..|l.text| - 1][k + 1];
    }
    TrimIsPlain(body[colon + 1..]);
    ParseIsSound(text);
  }

  lemma ParseIsSound(text: string)
    requires Parse(text).Ok? && Plain(text)
    ensures var t := Parse(text).value; (Supported(t) ==> WellFormed(t)) && BraceFree(t)
  {
    TypeIsSound(text, 0);
    if Supported(Parse(text).value) {
      ParsedIsWellFormed(text);
    }
  }

  lemma {:induction false} TrimLeftIsPlain(s: string)
    requires Plain(s)
    ensures Plain(TrimLeft(s))
  {
    if s != "" && IsSpace(s[0]) {
      TrimLeftIsPlain(s[1..]);
    }
  }

  lemma TrimIsPlain(s: string)
    requires Plain(s)
    ensures Plain(TrimSpace(s))
  {
    TrimLeftIsPlain(s);
    TrimRightStops(TrimLeft(s));
  }

  lemma {:induction false} OccsAreGood(ls: seq<Lexeme>)
    requires Canonical(ls, true) && Scannable(ls) && forall p <- Occs(ls) :: IsIdent(p.name) && Supported(p.typ)
    ensures forall p <- Occs(ls) :: Good(p)
    decreases |ls|
  {
    hide Valid, ParamOf, Fits;
    if ls != [] {
      OccsAreGood(ls[1..]);
      if ls[0].kind == Hole {
        ParamIsSound(ls[0]);
        assert ParamOf(ls[0].text).value in Occs(ls);
      }
    }
  }

  lemma CleanIsGood(sql: string)
    requires Clean(sql)
    ensures forall p <- Occs(Lex(sql, true)) :: Good(p)
  {
    hide Lex, Canonical, Good, Occs, Scannable;
    LexIsCanonical(sql, true);
    OccsAreGood(Lex(sql, true));
  }
}
