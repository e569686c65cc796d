/**
  Binding parameters client-side: every value becomes a cast of a named argument, and the
  casts can be read back from the query that is sent.
 */
module ChBind {
  import opened Text
  import opened ChTypes
  import opened ChGrammar
  import opened ChReads
  import opened ChIdentity
  import opened ChLex
  import opened ChStatements
  import opened ChParams
  import opened ChQuiet
  import opened ChRewrite
  import opened ChCommute

  lemma CastIsStandIn(p: Param)
    requires Good(p)
    ensures var ls := Lex(CastText(p), true);
            StandIn(ls) && Flatten(ls) == CastText(p) && Scannable(ls) && Occs(ls) == []
  {
    hide Quiet, Lex, StandIn, Scannable, Occs, Print;
    IdentIsTrimmed(p.name);
    PrintIsQuiet(p.typ, true);
    assert Tame("cast(@" + p.name + " AS ");
    TameIsQuiet("cast(@" + p.name + " AS ", true);
    TameIsQuiet(")", true);
    Quiet3("cast(@" + p.name + " AS ", Print(p.typ), ")", true);
    QuietIsStandIn(CastText(p));
  }

  // ---- Binding parameters client-side ----

  function BoundLexemes(): Param -> seq<Lexeme> {
    (p: Param) => if IsIdentifier(p.typ) then HoleFor(p) else Lex(CastText(p), true)
  }

  function Identifiers(ps: seq<Param>): seq<Param> {
    if ps == [] then [] else (if IsIdentifier(ps[0].typ) then [ps[0]] else []) + Identifiers(ps[1..])
  }

  lemma BoundIsStandIn(p: Param)
    requires Good(p)
    ensures var ls := BoundLexemes()(p);
            && StandIn(ls) && Flatten(ls) == Bound()(p) && Scannable(ls)
            && Occs(ls) == (if IsIdentifier(p.typ) then [p] else []) && Fill(ls, Bound()) == Bound()(p)
  {
    hide Lex, StandIn, Scannable, Occs, Flatten, CastText, Fill;
    if IsIdentifier(p.typ) {
      HoleIsStandIn(p);
      IdentifierText(p);
      FillHole(p, Bound());
    } else {
      CastIsStandIn(p);
      FillNothing(Lex(CastText(p), true), Bound());
    }
  }

  lemma IdentifierText(p: Param)
    requires IsIdentifier(p.typ)
    ensures HoleText(p) == "{" + p.name + ":Identifier}"
  {
  }

  lemma {:induction false} BoundOccs(ps: seq<Param>)
    requires forall p <- ps :: Good(p)
    requires forall p <- ps :: Scannable(BoundLexemes()(p))
    ensures OccsOf(ps, BoundLexemes()) == Identifiers(ps)
  {
    hide Occs, Scannable, BoundLexemes, Good;
    if ps != [] {
      assert ps[0] in ps;
      BoundIsStandIn(ps[0]);
      BoundOccs(ps[1..]);
    }
  }

  /**
    The query with its parameters bound client-side keeps every lexeme outside the holes,
    scans again, holds exactly the Identifier parameters of the original, and is not changed
    by being rewritten once more.
   */
  lemma BoundQueryScans(sql: string)
    requires Clean(sql)
    ensures Flatten(Lex(sql, true)) == sql
    ensures Rewrite(sql, Bound()) == Some(Fill(Lex(sql, true), Bound()))
    ensures var out := Rewrite(sql, Bound()).value;
            && Lex(out, true) == Replace(Lex(sql, true), BoundLexemes())
            && Scannable(Lex(out, true)) && Occs(Lex(out, true)) == Identifiers(Occs(Lex(sql, true)))
            && Rewrite(out, Bound()) == Some(out)
  {
    hide Lex, Canonical, StandIn, Rewrite, Replace, Flatten, Fill, Occs, Scannable, BoundLexemes, Good;
    var ls := Lex(sql, true);
    LexIsCanonical(sql, true);
    CleanIsGood(sql);
    forall p <- Occs(ls)
      ensures StandIn(BoundLexemes()(p)) && Flatten(BoundLexemes()(p)) == Bound()(p) && Scannable(BoundLexemes()(p))
              && Fill(BoundLexemes()(p), Bound()) == Bound()(p)
    {
      BoundIsStandIn(p);
    }
    RewriteMeans(sql, Bound());
    ScanAfterRewrite(sql, BoundLexemes(), Bound());
    OccsAfterReplace(ls, BoundLexemes());
    BoundOccs(Occs(ls));
    RewriteMeans(Rewrite(sql, Bound()).value, Bound());
    FillReplace(ls, BoundLexemes(), Bound(), Bound());
  }

  // ---- Reading the casts back ----

  /** The cast that a text starts with: its argument and type, and where it ends. */
  function CastAt(s: string): Option<(Param, nat)> {
    if !("cast(@" <= s) then None else
    var e := IdentEnd(s, 6);
    if e == 6 || !At(s, e, " AS ") then None else
    match TypeAt(s, e + 4)
    case Err(_) => None
    case Ok(v) => if v.1 < |s| && s[v.1] == ')' then Some((Param(s[6..e], v.0), v.1 + 1)) else None
  }

  lemma CastReads(p: Param, rest: string)
    requires Good(p)
    ensures CastAt(CastText(p) + rest) == Some((p, |CastText(p)|))
  {
    hide Print, TypeAt, IdentEnd, At, WellFormed, IsIdent;
    var s, n := CastText(p) + rest, |p.name|;
    CastLayout(p, rest);
    assert "cast(@" <= s;
    TypeReadsInCast(p.typ, s, 10 + n);
    assert s[6..6 + n] == p.name;
  }

  lemma CastLayout(p: Param, rest: string)
    requires IsIdent(p.name)
    ensures var s, n := CastText(p) + rest, |p.name|;
            && n > 0 && IdentEnd(s, 6) == 6 + n && At(s, 6 + n, " AS ") && At(s, 10 + n, Print(p.typ))
            && |CastText(p)| == 11 + n + |Print(p.typ)| && s[10 + n + |Print(p.typ)|] == ')'
  {
    hide Print;
    var s, n := CastText(p) + rest, |p.name|;
    assert forall k :: 0 <= k < n ==> s[6 + k] == p.name[k];
    assert s[6 + n] == ' ';
    IdentEndAt(s, 6, p.name);
  }

  lemma TypeReadsInCast(t: Type, s: string, i: nat)
    requires WellFormed(t) && At(s, i, Print(t)) && i + |Print(t)| < |s| && s[i + |Print(t)|] == ')'
    ensures TypeAt(s, i) == Ok((t, i + |Print(t)|))
  {
    hide Print, TypeAt, At, WellFormed;
    WellFormedReads(t);
  }

  // ---- Place by place ----

  /** What a query that is sent holds in place of a parameter. */
  datatype Slot = Kept(param: Param) | Value(param: Param)

  function SlotOf(p: Param): Slot {
    if p.typ == Scalar("Identifier") then Kept(p) else Value(p)
  }

  function SlotsOf(ps: seq<Param>): (slots: seq<Slot>)
    ensures |slots| == |ps|
  {
    seq(|ps|, i requires 0 <= i < |ps| => SlotOf(ps[i]))
  }

  /** What out starts with in place of a parameter, a hole or a cast, and where that ends. */
  function SlotAt(out: string): Option<(Slot, nat)> {
    if out != "" && out[0] == '{' then
      match BraceEnd(out, 0)
      case None => None
      case Some(e) => if ParamOf(out[..e]).None? then None else Some((Kept(ParamOf(out[..e]).value), e))
    else
      match CastAt(out)
      case None => None
      case Some((p, e)) => if e <= |out| then Some((Value(p), e)) else None
  }

  /** Reads out along the lexemes of a query: what stands where the query has holes, if all else is the same. */
  function Slots(ls: seq<Lexeme>, out: string): Option<seq<Slot>> {
    if ls == [] then if out == "" then Some([]) else None
    else if ls[0].kind != Hole then
      if ls[0].text <= out then Slots(ls[1..], out[|ls[0].text|..]) else None
    else
      match SlotAt(out)
      case None => None
      case Some((slot, e)) =>
        var rest := Slots(ls[1..], out[e..]);
        if rest.None? then None else Some([slot] + rest.value)
  }

  lemma SlotReads(p: Param, rest: string)
    requires Good(p)
    ensures SlotAt(Bound()(p) + rest) == Some((SlotOf(p), |Bound()(p)|))
  {
    hide CastAt, BraceEnd, ParamOf, HoleText;
    var text := Bound()(p);
    assert (text + rest)[..|text|] == text;
    if IsIdentifier(p.typ) {
      IdentifierText(p);
      HoleTextReads(p);
      HoleTextIsValid(p);
      HoleEndsItself(text);
      BraceEndLocal(text, rest, 0);
    } else {
      CastReads(p, rest);
    }
  }

  lemma HoleEndsItself(text: string)
    requires Valid(Lexeme(Hole, text), true)
    ensures BraceEnd(text, 0) == Some(|text|)
  {
  }

  lemma {:induction false} FillReadsBack(ls: seq<Lexeme>)
    requires Scannable(ls) && forall p <- Occs(ls) :: Good(p)
    ensures Slots(ls, Fill(ls, Bound())) == Some(SlotsOf(Occs(ls)))
  {
    hide ParamOf, Good, SlotAt, Fill, Bound, Occs, Scannable;
    if ls == [] {
      OccsCons(ls);
      NothingFilledIn(Bound());
    } else {
      OccsCons(ls);
      FillCons(ls, Bound());
      var out, rest := Fill(ls, Bound()), Fill(ls[1..], Bound());
      assert forall p <- Occs(ls[1..]) :: p in Occs(ls);
      FillReadsBack(ls[1..]);
      if ls[0].kind == Hole {
        var p := ParamOf(ls[0].text).value;
        assert p in Occs(ls);
        SlotReads(p, rest);
        assert out[|Bound()(p)|..] == rest;
        assert SlotsOf([p] + Occs(ls[1..])) == [SlotOf(p)] + SlotsOf(Occs(ls[1..]));
      } else {
        assert ls[0].text <= out && out[|ls[0].text|..] == rest;
        assert Occs(ls) == Occs(ls[1..]);
      }
    }
  }

  // ---- Looking for casts ----

  predicate Starts(ls: seq<Lexeme>, w: string) {
    |w| <= |ls| && forall k :: 0 <= k < |w| ==> ls[k] == Chr(w[k])
  }

  predicate Opens(ls: seq<Lexeme>) {
    Starts(ls, "cast(@")
  }

  /** The lexemes behind the first n characters. */
  function Behind(ls: seq<Lexeme>, n: nat): (rest: seq<Lexeme>)
    ensures |rest| <= |ls| && (ls != [] && n > 0 ==> |rest| < |ls|)
  {
    if n == 0 || ls == [] then ls
    else Behind(ls[1..], if |ls[0].text| <= n then n - |ls[0].text| else 0)
  }

  /** The casts outside comments and quoted text, in order. */
  function Casts(ls: seq<Lexeme>): seq<Param>
    decreases |ls|
  {
    if ls == [] then []
    else
      var c := if Opens(ls) then CastAt(Flatten(ls)) else None;
      if c.None? || c.value.1 == 0 then Casts(ls[1..]) else [c.value.0] + Casts(Behind(ls, c.value.1))
  }

  lemma {:induction false} BehindFirst(q: seq<Lexeme>, tail: seq<Lexeme>)
    requires Canonical(q, true)
    ensures Behind(q + tail, |Flatten(q)|) == tail
  {
    hide Valid, Fits;
    if q == [] {
      assert q + tail == tail;
    } else {
      assert (q + tail)[0] == q[0] && (q + tail)[1..] == q[1..] + tail;
      ValidIsNotEmpty(q[0], true);
      BehindFirst(q[1..], tail);
    }
  }

  lemma {:induction false} TameLexemes(u: string)
    requires Tame(u)
    ensures |Lex(u, true)| == |u| && Starts(Lex(u, true), u)
  {
    hide Lex;
    if u == "" {
      assert Lex("", true) == [] by { LexEmpty(); }
    } else {
      assert u == [u[0]] + u[1..] && u[0] in u;
      CharIsQuiet(u[0], true);
      TameIsQuiet(u[1..], true);
      QuietConcat([u[0]], u[1..], true);
      TameLexemes(u[1..]);
    }
  }

  lemma LexEmpty()
    ensures Lex("", true) == []
  {
  }

  lemma CastOpens(p: Param, tail: seq<Lexeme>)
    requires Good(p)
    ensures Opens(Lex(CastText(p), true) + tail)
  {
    hide Lex, Quiet, Print, Starts;
    var behind := p.name + " AS ";
    var after := behind + Print(p.typ) + ")";
    IdentIsTrimmed(p.name);
    TameIsQuiet("cast(@", true);
    TameIsQuiet(behind, true);
    TameIsQuiet(")", true);
    PrintIsQuiet(p.typ, true);
    Quiet3(behind, Print(p.typ), ")", true);
    QuietConcat("cast(@", after, true);
    assert CastText(p) == "cast(@" + after;
    TameLexemes("cast(@");
    StartsLonger(Lex("cast(@", true), Lex(after, true) + tail, "cast(@");
    assert Lex(CastText(p), true) + tail == Lex("cast(@", true) + (Lex(after, true) + tail);
  }

  lemma StartsLonger(a: seq<Lexeme>, b: seq<Lexeme>, w: string)
    requires Starts(a, w)
    ensures Starts(a + b, w)
  {
  }

  /** No cast of a named argument is opened in the query itself. */
  ghost predicate OpensNoCast(ls: seq<Lexeme>) {
    forall i :: 0 <= i <= |ls| ==> !Opens(ls[i..])
  }

  lemma OpensNoCastRest(ls: seq<Lexeme>)
    requires OpensNoCast(ls) && ls != []
    ensures OpensNoCast(ls[1..]) && !Opens(ls)
  {
    hide Opens;
    assert ls[0..] == ls;
    forall i | 0 <= i <= |ls[1..]| ensures !Opens(ls[1..][i..]) {
      assert ls[1..][i..] == ls[i + 1..];
    }
  }

  lemma StartsCons(l: Lexeme, tail: seq<Lexeme>, w: string)
    requires w != ""
    ensures Starts([l] + tail, w) <==> l == Chr(w[0]) && Starts(tail, w[1..])
  {
    var ls := [l] + tail;
    if l == Chr(w[0]) && Starts(tail, w[1..]) {
      forall k | 0 <= k < |w| ensures ls[k] == Chr(w[k]) {
        assert k > 0 ==> tail[k - 1] == Chr(w[1..][k - 1]);
      }
    }
    if Starts(ls, w) {
      assert ls[0] == Chr(w[0]);
      forall k | 0 <= k < |w[1..]| ensures tail[k] == Chr(w[1..][k]) {
        assert ls[k + 1] == Chr(w[k + 1]);
      }
    }
  }

  /** A word without a c comes from the query itself: what stands in for a hole starts with a c or is a hole. */
  lemma {:induction false} WordIsOwn(ls: seq<Lexeme>, w: string)
    requires Scannable(ls) && (forall p <- Occs(ls) :: Good(p)) && 'c' !in w
    requires Starts(Replace(ls, BoundLexemes()), w)
    ensures Starts(ls, w)
    decreases |w|
  {
    hide ParamOf, Good, BoundLexemes;
    if w != "" {
      assert w[0] in w && ls != [];
      var tail := Replace(ls[1..], BoundLexemes());
      if ls[0].kind == Hole {
        var p := ParamOf(ls[0].text).value;
        assert p in Occs(ls);
        StandInStarts(p, tail, w);
      } else {
        StartsCons(ls[0], tail, w);
        WordIsOwn(ls[1..], w[1..]);
        StartsCons(ls[0], ls[1..], w);
        assert ls == [ls[0]] + ls[1..];
      }
    }
  }

  lemma StandInStarts(p: Param, tail: seq<Lexeme>, w: string)
    requires Good(p)
    ensures w != "" && w[0] != 'c' ==> !Starts(BoundLexemes()(p) + tail, w)
    ensures IsIdentifier(p.typ) ==> !Opens(BoundLexemes()(p) + tail)
  {
    hide Lex, CastText, HoleText, Good;
    if IsIdentifier(p.typ) {
      assert (HoleFor(p) + tail)[0].kind == Hole;
    } else {
      CastOpens(p, tail);
    }
  }

  lemma OpeningIsOwn(ls: seq<Lexeme>, w: string)
    requires Scannable(ls) && (forall p <- Occs(ls) :: Good(p)) && ls != [] && ls[0].kind != Hole
    requires w != "" && 'c' !in w[1..]
    ensures Starts(Replace(ls, BoundLexemes()), w) ==> Starts(ls, w)
  {
    hide ParamOf, Good, BoundLexemes, Starts;
    var tail := Replace(ls[1..], BoundLexemes());
    assert Replace(ls, BoundLexemes()) == [ls[0]] + tail;
    assert forall p <- Occs(ls[1..]) :: p in Occs(ls);
    hide Replace, Occs, Scannable;
    if Starts([ls[0]] + tail, w) {
      StartsCons(ls[0], tail, w);
      WordIsOwn(ls[1..], w[1..]);
      StartsCons(ls[0], ls[1..], w);
      assert ls == [ls[0]] + ls[1..];
    }
  }

  lemma OneC()
    ensures 'c' !in "cast(@"[1..]
  {
    assert "cast(@"[1..] == "ast(@";
  }

  lemma CastFound(p: Param, tail: seq<Lexeme>)
    requires Good(p) && !IsIdentifier(p.typ)
    ensures Casts(BoundLexemes()(p) + tail) == [p] + Casts(tail)
  {
    hide Lex, CastText, Good, Opens, CastAt, StandIn;
    var q := Lex(CastText(p), true);
    CastIsStandIn(p);
    StandInIsCanonical(q);
    CastOpens(p, tail);
    FlattenConcat(q, tail);
    CastReads(p, Flatten(tail));
    BehindFirst(q, tail);
    CastIsNotEmpty(p);
  }

  lemma StandInIsCanonical(q: seq<Lexeme>)
    requires StandIn(q)
    ensures q != [] && Canonical(q, true)
  {
  }

  lemma CastIsNotEmpty(p: Param)
    ensures |CastText(p)| > 0
  {
  }

  lemma NoCastHere(l: Lexeme, tail: seq<Lexeme>)
    requires !Opens([l] + tail)
    ensures Casts([l] + tail) == Casts(tail)
  {
    hide Opens;
    assert ([l] + tail)[1..] == tail;
  }

  lemma {:induction false} CastsAreValues(ls: seq<Lexeme>)
    requires Scannable(ls) && (forall p <- Occs(ls) :: Good(p)) && OpensNoCast(ls)
    ensures Casts(Replace(ls, BoundLexemes())) == Others(Occs(ls))
  {
    hide ParamOf, Good, BoundLexemes, Casts, OpensNoCast, Opens, Starts;
    if ls == [] {
      assert Casts([]) == [] by { NoCasts(); }
    } else {
      var l, tail := ls[0], Replace(ls[1..], BoundLexemes());
      OpensNoCastRest(ls);
      CastsAreValues(ls[1..]);
      if l.kind == Hole {
        var p := ParamOf(l.text).value;
        assert Occs(ls) == [p] + Occs(ls[1..]) && Occs(ls)[0] == p && Occs(ls)[1..] == Occs(ls[1..]);
        if IsIdentifier(p.typ) {
          StandInStarts(p, tail, "");
          KeptHole(p);
          NoCastHere(BoundLexemes()(p)[0], tail);
        } else {
          CastFound(p, tail);
        }
      } else {
        OneC();
        OpeningIsOwn(ls, "cast(@");
        OpensStarts(ls);
        OpensStarts([l] + tail);
        NoCastHere(l, tail);
        assert Occs(ls) == Occs(ls[1..]);
      }
    }
  }

  lemma OpensStarts(ls: seq<Lexeme>)
    ensures Opens(ls) <==> Starts(ls, "cast(@")
  {
  }

  lemma KeptHole(p: Param)
    requires IsIdentifier(p.typ)
    ensures |BoundLexemes()(p)| == 1 && BoundLexemes()(p) == [BoundLexemes()(p)[0]]
  {
  }

  lemma NoCasts()
    ensures Casts([]) == []
  {
  }

  // ---- The rewrite, as it is called ----

  /**
    Succeeds on every scannable query; all lexemes but the holes are kept, and only the
    Identifier parameters remain. Read along the query, the output has a cast of the same name
    and type in place of every other parameter; and unless the query opens such casts itself,
    these are all the casts there are.
   */
  method RewriteParams(sql: string) returns (r: Option<string>)
    ensures r == Rewrite(sql, Bound())
    ensures r == if Scannable(Lex(sql, true)) then Some(Fill(Lex(sql, true), Bound())) else None
    ensures Clean(sql) ==>
              Scannable(Lex(r.value, true)) && Occs(Lex(r.value, true)) == Identifiers(Occs(Lex(sql, true)))
    ensures Clean(sql) ==> Slots(Lex(sql, true), r.value) == Some(SlotsOf(Occs(Lex(sql, true))))
    ensures Clean(sql) && OpensNoCast(Lex(sql, true)) ==> Casts(Lex(r.value, true)) == Others(Occs(Lex(sql, true)))
  {
    hide Rewrite, Lex, Scannable, Fill, Occs, Identifiers, Replace, Slots, Casts, Others, OpensNoCast;
    r := RewriteWith(sql, Bound());
    RewriteMeans(sql, Bound());
    if Clean(sql) {
      BoundQueryScans(sql);
      CleanIsGood(sql);
      FillReadsBack(Lex(sql, true));
      if OpensNoCast(Lex(sql, true)) {
        CastsAreValues(Lex(sql, true));
      }
    }
  }
}
