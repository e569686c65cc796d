/** What scanning finds in a rewritten query: renaming parameters and filling in identifiers. */
module ChCommute {
  import opened Text
  import opened ChTypes
  import opened ChLex
  import opened ChParams
  import opened ChQuiet
  import opened ChRewrite

  /** Rewriting a rewritten list, hole by hole. */
  lemma {:induction false} FillReplace(
    ls: seq<Lexeme>, g: Param -> seq<Lexeme>, f: Param -> string, f': Param -> string)
    requires Scannable(ls) && (forall p <- Occs(ls) :: Scannable(g(p)) && Fill(g(p), f) == f'(p))
    ensures Scannable(Replace(ls, g)) && Fill(Replace(ls, g), f) == Fill(ls, f')
    decreases |ls|
  {
    hide ParamOf;
    if ls != [] {
      var l := ls[0];
      FillReplace(ls[1..], g, f, f');
      if l.kind == Hole {
        var p := ParamOf(l.text).value;
        assert p in Occs(ls);
        FillConcat(g(p), Replace(ls[1..], g), f);
      } else {
        FillConcat([l], Replace(ls[1..], g), f);
        assert Fill([l], f) == l.text + Fill([l][1..], f);
        assert l.text + "" == l.text;
      }
    }
  }

  /** What a rewrite puts in place of a lexeme. */
  function Written(l: Lexeme, f: Param -> string): string
    requires l.kind == Hole ==> ParamOf(l.text).Some?
  {
    if l.kind == Hole then f(ParamOf(l.text).value) else l.text
  }

  lemma FillCons(ls: seq<Lexeme>, f: Param -> string)
    requires Scannable(ls) && ls != []
    ensures Scannable(ls[1..]) && (ls[0].kind == Hole ==> ParamOf(ls[0].text).Some?)
    ensures Fill(ls, f) == Written(ls[0], f) + Fill(ls[1..], f)
  {
    hide ParamOf;
    assert ls[0] in ls;
  }

  lemma NothingFilledIn(f: Param -> string)
    ensures Fill([], f) == ""
  {
  }

  lemma {:induction false} FillConcat(a: seq<Lexeme>, b: seq<Lexeme>, f: Param -> string)
    requires Scannable(a) && Scannable(b)
    ensures Scannable(a + b) && Fill(a + b, f) == Fill(a, f) + Fill(b, f)
    decreases |a|
  {
    hide ParamOf, Fill, Written, Scannable;
    ScannableConcat(a, b);
    if a == [] {
      assert a + b == b;
      NothingFilledIn(f);
      assert "" + Fill(b, f) == Fill(b, f);
    } else {
      assert (a + b)[0] == a[0] && (a + b)[1..] == a[1..] + b;
      FillConcat(a[1..], b, f);
      FillCons(a, f);
      FillCons(a + b, f);
    }
  }

  lemma {:induction false} FillNothing(ls: seq<Lexeme>, f: Param -> string)
    requires Scannable(ls) && Occs(ls) == []
    ensures Fill(ls, f) == Flatten(ls)
    decreases |ls|
  {
    hide ParamOf;
    if ls != [] {
      FillNothing(ls[1..], f);
    }
  }

  // ---- Renaming ----

  function RenameParam(f: string -> string, p: Param): Param {
    Param(f(p.name), p.typ)
  }

  function RenameAll(f: string -> string, ps: seq<Param>): (qs: seq<Param>)
    ensures |qs| == |ps|
  {
    if ps == [] then [] else [RenameParam(f, ps[0])] + RenameAll(f, ps[1..])
  }

  function RenamedHole(f: string -> string): Param -> seq<Lexeme> {
    (p: Param) => HoleFor(RenameParam(f, p))
  }

  /** Every new name is an identifier. */
  ghost predicate NamesIdents(f: string -> string, ps: seq<Param>) {
    forall p <- ps :: IsIdent(f(p.name))
  }

  lemma RenamedHoles(ps: seq<Param>, f: string -> string)
    requires NamesIdents(f, ps) && forall p <- ps :: Good(p)
    ensures forall p <- ps ::
      && StandIn(RenamedHole(f)(p)) && Flatten(RenamedHole(f)(p)) == Renamed(f)(p)
      && Scannable(RenamedHole(f)(p)) && Occs(RenamedHole(f)(p)) == [RenameParam(f, p)]
  {
    forall p <- ps
      ensures && StandIn(RenamedHole(f)(p)) && Flatten(RenamedHole(f)(p)) == Renamed(f)(p)
              && Scannable(RenamedHole(f)(p)) && Occs(RenamedHole(f)(p)) == [RenameParam(f, p)]
    {
      HoleIsStandIn(RenameParam(f, p));
    }
  }

  lemma {:induction false} RenamedOccs(ps: seq<Param>, f: string -> string)
    requires forall p <- ps :: Scannable(RenamedHole(f)(p)) && Occs(RenamedHole(f)(p)) == [RenameParam(f, p)]
    ensures OccsOf(ps, RenamedHole(f)) == RenameAll(f, ps)
  {
    hide Occs, Scannable, RenamedHole;
    if ps != [] {
      assert ps[0] in ps;
      RenamedOccs(ps[1..], f);
    }
  }

  /** The renamed query scans, and its parameters are the renamed ones, occurrence by occurrence. */
  lemma RenameScans(sql: string, f: string -> string)
    requires Clean(sql) && NamesIdents(f, Occs(Lex(sql, true)))
    ensures Rewrite(sql, Renamed(f)).Some?
    ensures var out := Rewrite(sql, Renamed(f)).value;
            && Lex(out, true) == Replace(Lex(sql, true), RenamedHole(f))
            && Clean(out) && Occs(Lex(out, true)) == RenameAll(f, Occs(Lex(sql, true)))
  {
    hide Lex, Canonical, StandIn, Rewrite, Replace, Flatten, Renamed, RenamedHole;
    CleanIsGood(sql);
    var ls := Lex(sql, true);
    RenamedHoles(Occs(ls), f);
    ScanAfterRewrite(sql, RenamedHole(f), Renamed(f));
    OccsAfterReplace(ls, RenamedHole(f));
    RenamedOccs(Occs(ls), f);
    RenamedAreClean(f, Occs(ls));
  }

  lemma {:induction false} RenamedAreClean(f: string -> string, ps: seq<Param>)
    requires NamesIdents(f, ps) && forall p <- ps :: IsIdent(p.name) && Supported(p.typ)
    ensures forall p <- RenameAll(f, ps) :: IsIdent(p.name) && Supported(p.typ)
  {
    if ps != [] {
      assert ps[0] in ps;
      RenamedAreClean(f, ps[1..]);
    }
  }

  ghost predicate InjectiveOn(f: string -> string, ps: seq<Param>) {
    forall p <- ps, q <- ps :: f(p.name) == f(q.name) ==> p.name == q.name
  }

  lemma {:induction false} DeclaredRenamed(f: string -> string, ps: seq<Param>, p: Param)
    requires forall q <- ps :: f(q.name) == f(p.name) ==> q.name == p.name
    ensures Declared(RenameAll(f, ps), f(p.name)) == Declared(ps, p.name)
  {
    if ps != [] {
      assert ps[0] in ps && RenameAll(f, ps)[1..] == RenameAll(f, ps[1..]);
      DeclaredRenamed(f, ps[1..], p);
    }
  }

  function RenameFound(f: string -> string, ps: Option<seq<Param>>): Option<seq<Param>> {
    if ps.None? then None else Some(RenameAll(f, ps.value))
  }

  lemma {:induction false} RenameAppend(f: string -> string, ps: seq<Param>, p: Param)
    ensures RenameAll(f, ps + [p]) == RenameAll(f, ps) + [RenameParam(f, p)]
  {
    if ps == [] {
      assert ps + [p] == [p] && RenameAll(f, [p]) == [RenameParam(f, p)] + RenameAll(f, [p][1..]);
    } else {
      RenameAppend(f, ps[1..], p);
      assert (ps + [p])[1..] == ps[1..] + [p];
    }
  }

  lemma {:induction false} DistinctRenamed(f: string -> string, occs: seq<Param>, ps: seq<Param>)
    requires InjectiveOn(f, occs + ps)
    ensures Distinct(RenameAll(f, occs), RenameAll(f, ps)) == RenameFound(f, Distinct(occs, ps))
    decreases |occs|
  {
    hide Print;
    if occs != [] {
      var p, rest := occs[0], occs[1..];
      assert p in occs + ps && (forall q <- ps :: q in occs + ps) && forall q <- rest :: q in occs + ps;
      assert RenameAll(f, occs)[0] == RenameParam(f, p) && RenameAll(f, occs)[1..] == RenameAll(f, rest);
      DeclaredRenamed(f, ps, p);
      if Declared(ps, p.name).None? {
        RenameAppend(f, ps, p);
        assert forall q <- rest + (ps + [p]) :: q in occs + ps;
        DistinctRenamed(f, rest, ps + [p]);
      } else {
        assert forall q <- rest + ps :: q in occs + ps;
        DistinctRenamed(f, rest, ps);
      }
    }
  }

  /** Renaming commutes with scanning: the inputs of the renamed query are the renamed inputs of the query. */
  lemma RenameCommutes(sql: string, f: string -> string)
    requires Clean(sql) && NamesIdents(f, Occs(Lex(sql, true))) && InjectiveOn(f, Occs(Lex(sql, true)))
    ensures Rewrite(sql, Renamed(f)).Some?
    ensures ParamsOf(Rewrite(sql, Renamed(f)).value) == RenameFound(f, ParamsOf(sql))
  {
    hide Lex, Rewrite, Distinct, Occs, Scannable, ParamsOf;
    var occs := Occs(Lex(sql, true));
    RenameScans(sql, f);
    RewriteMeans(sql, Renamed(f));
    RewriteMeans(Rewrite(sql, Renamed(f)).value, Renamed(f));
    assert occs + [] == occs && RenameAll(f, []) == [];
    DistinctRenamed(f, occs, []);
  }

  function Compose(g: string -> string, f: string -> string): string -> string {
    (name: string) => g(f(name))
  }

  /** Renaming by f and then by g is renaming by g after f. */
  lemma RenameComposes(sql: string, f: string -> string, g: string -> string)
    requires Clean(sql) && NamesIdents(f, Occs(Lex(sql, true)))
    ensures Rewrite(sql, Renamed(f)).Some?
    ensures Rewrite(Rewrite(sql, Renamed(f)).value, Renamed(g)) == Rewrite(sql, Renamed(Compose(g, f)))
  {
    hide Lex, Canonical, Rewrite, Flatten, HoleText, StandIn;
    var ls := Lex(sql, true);
    RenameScans(sql, f);
    RewriteMeans(sql, Renamed(Compose(g, f)));
    RewriteMeans(Rewrite(sql, Renamed(f)).value, Renamed(g));
    CleanIsGood(sql);
    RenamedHoles(Occs(ls), f);
    forall p <- Occs(ls) ensures Fill(RenamedHole(f)(p), Renamed(g)) == Renamed(Compose(g, f))(p) {
      FillHole(RenameParam(f, p), Renamed(g));
    }
    FillReplace(ls, RenamedHole(f), Renamed(g), Renamed(Compose(g, f)));
  }

  lemma FillHole(p: Param, f: Param -> string)
    requires Scannable(HoleFor(p)) && Occs(HoleFor(p)) == [p]
    ensures Fill(HoleFor(p), f) == f(p)
  {
    hide ParamOf, HoleText;
    var ls := HoleFor(p);
    assert ls[1..] == [];
    assert Occs(ls) == [ParamOf(ls[0].text).value] + Occs(ls[1..]);
    assert Occs(ls)[0] == ParamOf(ls[0].text).value;
    assert Fill(ls, f) == f(ParamOf(ls[0].text).value) + Fill(ls[1..], f);
    assert f(p) + "" == f(p);
  }

  // ---- Filling in identifiers ----

  /** The parameters that are not identifiers. */
  function Others(ps: seq<Param>): seq<Param> {
    if ps == [] then [] else (if IsIdentifier(ps[0].typ) then [] else [ps[0]]) + Others(ps[1..])
  }

  /** A value that can be put into a query without becoming something else there. */
  ghost predicate Fillable(value: string) {
    value == "" || (IsIdentChar(value[0]) && Quiet(value, true))
  }

  /** The parameters that are not filled in. */
  function Remaining(value: string -> string, ps: seq<Param>): seq<Param> {
    if ps == [] then []
    else (if IsIdentifier(ps[0].typ) && value(ps[0].name) != "" then [] else [ps[0]]) + Remaining(value, ps[1..])
  }

  function FilledLexemes(value: string -> string): Param -> seq<Lexeme> {
    (p: Param) => if IsIdentifier(p.typ) && value(p.name) != "" then Lex(value(p.name), true) else HoleFor(p)
  }

  lemma FilledIsStandIn(value: string -> string, p: Param)
    requires Good(p) && (IsIdentifier(p.typ) ==> Fillable(value(p.name)))
    ensures var ls := FilledLexemes(value)(p);
            && StandIn(ls) && Flatten(ls) == Substituted(value)(p) && Scannable(ls)
            && Occs(ls) == Remaining(value, [p])
  {
    hide Lex, StandIn, Scannable, Occs, Flatten, HoleText, Quiet;
    if IsIdentifier(p.typ) && value(p.name) != "" {
      QuietIsStandIn(value(p.name));
    } else {
      HoleIsStandIn(p);
    }
  }

  lemma {:induction false} FilledOccs(value: string -> string, ps: seq<Param>)
    requires forall p <- ps ::
             Scannable(FilledLexemes(value)(p)) && Occs(FilledLexemes(value)(p)) == Remaining(value, [p])
    ensures OccsOf(ps, FilledLexemes(value)) == Remaining(value, ps)
  {
    hide Occs, Scannable, FilledLexemes, Remaining;
    RemainingSplit(value, ps);
    if ps != [] {
      assert ps[0] in ps;
      FilledOccs(value, ps[1..]);
    }
  }

  lemma RemainingSplit(value: string -> string, ps: seq<Param>)
    ensures Remaining(value, ps) == if ps == [] then [] else Remaining(value, [ps[0]]) + Remaining(value, ps[1..])
  {
    hide IsIdentifier;
    if ps != [] {
      assert [ps[0]][1..] == [] && Remaining(value, []) == [];
    }
  }

  lemma {:induction false} RemainingAmong(value: string -> string, ps: seq<Param>)
    ensures forall p <- Remaining(value, ps) :: p in ps
  {
    if ps != [] {
      RemainingAmong(value, ps[1..]);
    }
  }

  /** The filled query keeps every lexeme outside the filled holes and has the other parameters left. */
  lemma SubstituteScans(sql: string, value: string -> string)
    requires Clean(sql) && forall p <- Occs(Lex(sql, true)) :: IsIdentifier(p.typ) ==> Fillable(value(p.name))
    ensures Rewrite(sql, Substituted(value)).Some?
    ensures var out := Rewrite(sql, Substituted(value)).value;
            && Lex(out, true) == Replace(Lex(sql, true), FilledLexemes(value))
            && Clean(out) && Occs(Lex(out, true)) == Remaining(value, Occs(Lex(sql, true)))
  {
    hide Lex, Canonical, StandIn, Rewrite, Replace, Flatten, Fill, Occs, Scannable, FilledLexemes, Good, Remaining,
      Fillable;
    var ls := Lex(sql, true);
    CleanIsGood(sql);
    forall p <- Occs(ls)
      ensures StandIn(FilledLexemes(value)(p)) && Flatten(FilledLexemes(value)(p)) == Substituted(value)(p)
              && Scannable(FilledLexemes(value)(p)) && Occs(FilledLexemes(value)(p)) == Remaining(value, [p])
    {
      FilledIsStandIn(value, p);
    }
    ScanAfterRewrite(sql, FilledLexemes(value), Substituted(value));
    OccsAfterReplace(ls, FilledLexemes(value));
    FilledOccs(value, Occs(ls));
    RemainingAmong(value, Occs(ls));
  }

  // ---- The rewrites, as they are called ----

  /** Succeeds on every scannable query; all lexemes but the filled holes are kept, and the other parameters remain. */
  method SubstituteIdentifiers(sql: string, value: string -> string) returns (r: Option<string>)
    ensures r == Rewrite(sql, Substituted(value))
    ensures r == if Scannable(Lex(sql, true)) then Some(Fill(Lex(sql, true), Substituted(value))) else None
    ensures Clean(sql) && (forall p <- Occs(Lex(sql, true)) :: IsIdentifier(p.typ) ==> Fillable(value(p.name))) ==>
              Clean(r.value) && Occs(Lex(r.value, true)) == Remaining(value, Occs(Lex(sql, true)))
  {
    hide Rewrite, Lex, Scannable, Fill, Occs, Fillable, Remaining, Replace;
    r := RewriteWith(sql, Substituted(value));
    RewriteMeans(sql, Substituted(value));
    if Clean(sql) && forall p <- Occs(Lex(sql, true)) :: IsIdentifier(p.typ) ==> Fillable(value(p.name)) {
      SubstituteScans(sql, value);
    }
  }

  /** Succeeds on every scannable query; all lexemes but the holes are kept, and the parameters are the renamed ones. */
  method RenameParams(sql: string, rename: string -> string) returns (r: Option<string>)
    ensures r == Rewrite(sql, Renamed(rename))
    ensures r == if Scannable(Lex(sql, true)) then Some(Fill(Lex(sql, true), Renamed(rename))) else None
    ensures Clean(sql) && NamesIdents(rename, Occs(Lex(sql, true))) ==>
              Clean(r.value) && Occs(Lex(r.value, true)) == RenameAll(rename, Occs(Lex(sql, true)))
  {
    hide Rewrite, Lex, Scannable, Fill, Occs, RenameAll, Replace;
    r := RewriteWith(sql, Renamed(rename));
    RewriteMeans(sql, Renamed(rename));
    if Clean(sql) && NamesIdents(rename, Occs(Lex(sql, true))) {
      RenameScans(sql, rename);
    }
  }
}
