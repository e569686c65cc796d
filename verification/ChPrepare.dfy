/**
  Readying a query for analysis by the server: identifiers are filled in, parameters are
  renamed out of the settings namespace, and the result is a single bare statement.
 */
module ChPrepare {
  import opened Text
  import opened ChTypes
  import opened ChIdentity
  import opened ChLex
  import opened ChStatements
  import opened ChParams
  import opened ChQuiet
  import opened ChRewrite
  import opened ChCommute

  const PREFIX := "pggen_param_"

  function Number(i: nat): string {
    PREFIX + Itoa(i)
  }

  /** The new names of the first n parameters; an Identifier keeps no name. */
  function Names(params: seq<Param>, n: nat): map<string, string>
    requires n <= |params|
  {
    if n == 0 then map[]
    else if IsIdentifier(params[n - 1].typ) then Names(params, n - 1)
    else Names(params, n - 1)[params[n - 1].name := Number(n - 1)]
  }

  /** The arguments for the first n parameters, or None if one has no literal to bind. */
  function Args(params: seq<Param>, zero: Type -> Option<string>, n: nat): Option<seq<(string, string)>>
    requires n <= |params|
  {
    if n == 0 then Some([])
    else
      var args := Args(params, zero, n - 1);
      if args.None? || IsIdentifier(params[n - 1].typ) then args
      else match zero(params[n - 1].typ)
        case None => None
        case Some(lit) => Some(args.value + [(Number(n - 1), lit)])
  }

  function Lookup(names: map<string, string>): string -> string {
    (name: string) => if name in names then names[name] else ""
  }

  function Itself(): string -> string {
    (name: string) => name
  }

  /** The statement to send and its arguments; zero gives a literal of a type, where there is one. */
  function Prepared(
    sql: string, params: seq<Param>, zero: Type -> Option<string>): Option<(string, seq<(string, string)>)> {
    var filled := Rewrite(sql, Substituted(Itself()));
    var args := Args(params, zero, |params|);
    if filled.None? || args.None? then None else
    var renamed := Rewrite(filled.value, Renamed(Lookup(Names(params, |params|))));
    if renamed.None? || |Split(renamed.value)| != 1 then None
    else Some((Split(renamed.value)[0], args.value))
  }

  /** g writes an Identifier as its own name, and any other input as the hole of its number. */
  ghost predicate WritesInputs(g: Param -> string, params: seq<Param>) {
    forall i :: 0 <= i < |params| ==>
      g(params[i]) == if params[i].typ == Scalar("Identifier") then params[i].name
                      else "{pggen_param_" + Itoa(i) + ":" + Print(params[i].typ) + "}"
  }

  /** Every input that is not an Identifier has a literal to bind. */
  ghost predicate HasLiterals(params: seq<Param>, zero: Type -> Option<string>) {
    forall p <- params :: p.typ != Scalar("Identifier") ==> zero(p.typ).Some?
  }

  /**
    The query with each Identifier replaced by its name and every other hole by one of the
    input's number has to be a single statement; that statement is sent.
   */
  method Prepare(sql: string, params: seq<Param>, zero: Type -> Option<string>)
    returns (r: Option<(string, seq<(string, string)>)>)
    ensures r == Prepared(sql, params, zero)
    ensures Clean(sql) && ParamsOf(sql) == Some(params) ==>
              forall g: Param -> string :: WritesInputs(g, params) ==>
                var stmts := Split(Fill(Lex(sql, true), g));
                && (r.Some? <==> |stmts| == 1 && HasLiterals(params, zero))
                && (r.Some? ==> stmts == [r.value.0])
  {
    hide Rewrite, Split, Lex, Occs, Scannable, Fill, Fillable, Remaining, RenameAll, ParamsOf, HasLiterals,
      WritesInputs;
    if Clean(sql) && ParamsOf(sql) == Some(params) {
      forall g: Param -> string | WritesInputs(g, params) { PreparedText(sql, params, zero, g); }
    }
    var filled := SubstituteIdentifiers(sql, Itself());
    if filled.None? {
      return None;
    }
    var args: seq<(string, string)> := [];
    var names: map<string, string> := map[];
    for i := 0 to |params|
      invariant names == Names(params, i) && Some(args) == Args(params, zero, i)
    {
      if !IsIdentifier(params[i].typ) {
        var lit := zero(params[i].typ);
        if lit.None? {
          ArgsNone(params, zero, i + 1, |params|);
          return None;
        }
        names := names[params[i].name := Number(i)];
        args := args + [(Number(i), lit.value)];
      }
    }
    var renamed := RenameParams(filled.value, Lookup(names));
    if renamed.None? {
      return None;
    }
    var stmt := SingleStatement(renamed.value);
    return if stmt.Err? then None else Some((stmt.value, args));
  }

  lemma {:induction false} ArgsNone(params: seq<Param>, zero: Type -> Option<string>, m: nat, n: nat)
    requires m <= n <= |params| && Args(params, zero, m).None?
    ensures Args(params, zero, n).None?
  {
    if m < n {
      ArgsNone(params, zero, m, n - 1);
    }
  }

  // ---- Filling in identifiers ----

  lemma {:induction false} OthersAmong(ps: seq<Param>)
    ensures forall p :: p in Others(ps) <==> p in ps && !IsIdentifier(p.typ)
  {
    if ps != [] {
      OthersAmong(ps[1..]);
    }
  }

  lemma {:induction false} OthersRemain(ps: seq<Param>)
    requires forall p <- ps :: p.name != ""
    ensures Remaining(Itself(), ps) == Others(ps)
  {
    if ps != [] {
      assert ps[0] in ps;
      OthersRemain(ps[1..]);
    }
  }

  /** With the identifiers filled in, the other parameters are left. */
  lemma FilledScans(sql: string)
    requires Clean(sql)
    ensures var out := Rewrite(sql, Substituted(Itself()));
            out.Some? && Clean(out.value) && Occs(Lex(out.value, true)) == Others(Occs(Lex(sql, true)))
  {
    hide Lex, Rewrite, Occs, Scannable, Fillable, Replace, Remaining;
    IdentifiersAreFillable(sql);
    SubstituteScans(sql, Itself());
    OthersRemain(Occs(Lex(sql, true)));
  }

  lemma IdentifiersAreFillable(sql: string)
    requires Clean(sql)
    ensures forall p <- Occs(Lex(sql, true)) :: Fillable(Itself()(p.name))
  {
    hide Lex, Occs, Scannable, Quiet;
    forall p <- Occs(Lex(sql, true)) ensures Fillable(Itself()(p.name)) {
      IdentIsTrimmed(p.name);
      TameIsQuiet(p.name, true);
      assert p.name[0] in p.name;
    }
  }

  // ---- Splitting sees a hole as ordinary text ----

  /** Every hole is ordinary text to a scanner that does not look for holes. */
  ghost predicate QuietHoles(ls: seq<Lexeme>) {
    forall l <- ls :: l.kind == Hole ==> l.text != "" && Quiet(l.text, false)
  }

  function Expand(ls: seq<Lexeme>): seq<Lexeme> {
    if ls == [] then []
    else (if ls[0].kind == Hole then Lex(ls[0].text, false) else [ls[0]]) + Expand(ls[1..])
  }

  lemma {:induction false} ExpandFlatten(ls: seq<Lexeme>)
    ensures Flatten(Expand(ls)) == Flatten(ls)
  {
    hide Lex;
    if ls != [] {
      ExpandFlatten(ls[1..]);
      var head := if ls[0].kind == Hole then Lex(ls[0].text, false) else [ls[0]];
      LexIsCanonical(ls[0].text, false);
      FlattenAppend([], ls[0]);
      assert [] + [ls[0]] == [ls[0]];
      FlattenConcat(head, Expand(ls[1..]));
    }
  }

  lemma ValidWithoutHoles(l: Lexeme)
    requires Valid(l, true) && l.kind != Hole && l.kind != Unclosed
    ensures Valid(l, false)
  {
  }

  lemma {:induction false} ExpandIsCanonical(ls: seq<Lexeme>)
    requires Canonical(ls, true) && QuietHoles(ls) && !HasUnclosed(ls)
    ensures Canonical(Expand(ls), false)
    decreases |ls|
  {
    hide Valid, Fits, Lex, Sturdy;
    if ls != [] {
      var l, rest := ls[0], ls[1..];
      assert l in ls && forall x <- rest :: x in ls;
      ExpandIsCanonical(rest);
      ExpandFlatten(rest);
      if l.kind == Hole {
        LexIsCanonical(l.text, false);
        assert Quiet(l.text, false);
        if Lex(l.text, false) != [] {
          SturdyFits(Last(Lex(l.text, false)), Flatten(Expand(rest)));
        }
        CanonicalConcat(Lex(l.text, false), Expand(rest), false);
      } else {
        ValidWithoutHoles(l);
        CanonicalOne(l, false);
        CanonicalConcat([l], Expand(rest), false);
      }
    }
  }

  lemma {:induction false} PiecesPass(q: seq<Lexeme>, rest: seq<Lexeme>, cur: seq<Lexeme>)
    requires forall l <- q :: l.kind != Comment && l != Chr(';')
    ensures Pieces(q + rest, cur) == Pieces(rest, cur + q)
    decreases |q|
  {
    if q == [] {
      assert q + rest == rest && cur + q == cur;
    } else {
      assert q[0] in q && (q + rest)[0] == q[0] && (q + rest)[1..] == q[1..] + rest;
      PiecesPass(q[1..], rest, cur + [q[0]]);
      assert cur + [q[0]] + q[1..] == cur + q;
    }
  }

  lemma {:induction false} ExpandPieces(ls: seq<Lexeme>, cur: seq<Lexeme>, cur': seq<Lexeme>)
    requires QuietHoles(ls) && Flatten(cur) == Flatten(cur')
    ensures Texts(Pieces(Expand(ls), cur')) == Texts(Pieces(ls, cur))
    decreases |ls|, 1
  {
    hide Lex, Quiet;
    if ls == [] {
      assert Texts([cur]) == [Flatten(cur)] && Texts([cur']) == [Flatten(cur')];
    } else {
      var l, rest := ls[0], ls[1..];
      assert l in ls && forall x <- rest :: x in ls;
      if l.kind == Hole {
        ExpandHolePiece(l, rest, cur, cur');
      } else {
        var l' := Tidy(l);
        FlattenAppend(cur, l');
        FlattenAppend(cur', l');
        assert ([l] + Expand(rest))[0] == l && ([l] + Expand(rest))[1..] == Expand(rest);
        if l == Chr(';') {
          ExpandPieces(rest, [], []);
          TextsCons(cur, Pieces(rest, []));
          TextsCons(cur', Pieces(Expand(rest), []));
        } else {
          ExpandPieces(rest, cur + [l'], cur' + [l']);
        }
      }
    }
  }

  lemma TextsCons(p: seq<Lexeme>, ps: seq<seq<Lexeme>>)
    ensures Texts([p] + ps) == [Flatten(p)] + Texts(ps)
  {
  }

  lemma {:induction false} ExpandHolePiece(l: Lexeme, rest: seq<Lexeme>, cur: seq<Lexeme>, cur': seq<Lexeme>)
    requires l.kind == Hole && Quiet(l.text, false) && QuietHoles(rest) && Flatten(cur) == Flatten(cur')
    ensures Texts(Pieces(Lex(l.text, false) + Expand(rest), cur')) == Texts(Pieces(rest, cur + [l]))
    decreases |rest| + 1, 0
  {
    var q := Lex(l.text, false);
    LexIsCanonical(l.text, false);
    hide Lex, ClosedQuote, Sturdy;
    FlattenConcat(cur', q);
    FlattenAppend(cur, l);
    PiecesPass(q, Expand(rest), cur');
    ExpandPieces(rest, cur + [l], cur' + q);
  }

  lemma {:induction false} PiecesKeepHoles(ls: seq<Lexeme>, cur: seq<Lexeme>)
    ensures AllHoles(Pieces(ls, cur)) == Holes(cur) + Holes(ls)
    decreases |ls|
  {
    if ls == [] {
      AllHolesAppend([], cur);
      assert [] + [cur] == [cur] && [] + Holes(cur) == Holes(cur) && Holes(cur) + [] == Holes(cur);
    } else {
      var l, rest := ls[0], ls[1..];
      if l == Chr(';') {
        PiecesKeepHoles(rest, []);
        AllHolesCons(cur, Pieces(rest, []));
        assert Holes(ls) == [] + Holes(rest) && [] + Holes(rest) == Holes(rest);
      } else {
        PiecesKeepHoles(rest, cur + [Tidy(l)]);
        HolesAppend(cur, Tidy(l));
        var h := if l.kind == Hole then [l.text] else [];
        assert Holes(cur) + h + Holes(rest) == Holes(cur) + (h + Holes(rest));
      }
    }
  }

  lemma {:induction false} AllHolesCons(p: seq<Lexeme>, ps: seq<seq<Lexeme>>)
    ensures AllHoles([p] + ps) == Holes(p) + AllHoles(ps)
    decreases |ps|
  {
    if ps == [] {
      AllHolesAppend([], p);
      assert [p] + ps == [] + [p] && [] + Holes(p) == Holes(p) && Holes(p) + [] == Holes(p);
    } else {
      var init, last := ps[..|ps| - 1], ps[|ps| - 1];
      AllHolesCons(p, init);
      assert ps == init + [last] && [p] + ps == ([p] + init) + [last];
      AllHolesAppend(init, last);
      AllHolesAppend([p] + init, last);
    }
  }

  lemma {:induction false} PiecesKeepClosed(ls: seq<Lexeme>, cur: seq<Lexeme>)
    requires !HasUnclosed(ls) && !HasUnclosed(cur)
    ensures NoneUnclosed(Pieces(ls, cur))
    decreases |ls|
  {
    if ls != [] {
      assert ls[0] in ls && forall x <- ls[1..] :: x in ls;
      PiecesKeepClosed(ls[1..], if ls[0] == Chr(';') then [] else cur + [Tidy(ls[0])]);
    }
  }

  lemma {:induction false} OccsFromHoles(ls: seq<Lexeme>, ls': seq<Lexeme>)
    requires Scannable(ls) && Holes(ls) == Holes(ls') && !HasUnclosed(ls')
    ensures Scannable(ls') && Occs(ls') == Occs(ls)
    decreases |ls| + |ls'|
  {
    hide ParamOf;
    if ls != [] && ls[0].kind != Hole {
      assert Holes(ls) == [] + Holes(ls[1..]) && [] + Holes(ls[1..]) == Holes(ls[1..]);
      OccsFromHoles(ls[1..], ls');
      assert Occs(ls) == [] + Occs(ls[1..]);
    } else if ls' != [] && ls'[0].kind != Hole {
      assert Holes(ls') == [] + Holes(ls'[1..]) && [] + Holes(ls'[1..]) == Holes(ls'[1..]);
      assert ls'[0] in ls' && forall x <- ls'[1..] :: x in ls';
      OccsFromHoles(ls, ls'[1..]);
      assert forall x :: x in ls' <==> x == ls'[0] || x in ls'[1..];
      assert Occs(ls') == [] + Occs(ls'[1..]);
    } else if ls != [] && ls' != [] {
      assert Holes(ls)[0] == ls[0].text && Holes(ls')[0] == ls'[0].text;
      assert Holes(ls)[1..] == Holes(ls[1..]) && Holes(ls')[1..] == Holes(ls'[1..]);
      OccsFromHoles(ls[1..], ls'[1..]);
      assert ls[0] in ls && forall x :: x in ls' <==> x == ls'[0] || x in ls'[1..];
    }
  }

  /** The one statement of a query whose holes are in normal form has the query's parameters. */
  lemma StatementKeepsParams(sql: string)
    requires Scannable(Lex(sql, true)) && QuietHoles(Lex(sql, true)) && |Split(sql)| == 1
    ensures var ls := Lex(Split(sql)[0], true);
            Scannable(ls) && Occs(ls) == Occs(Lex(sql, true))
  {
    hide Lex, Pieces, NonBlank, Canonical, Cut, NoneOpen, AllTrimmed, Quiet, ParamOf, Occs, Expand, Holes;
    var ls := Lex(sql, true);
    LexIsCanonical(sql, true);
    ExpandIsCanonical(ls);
    ExpandFlatten(ls);
    LexUndoesFlatten(Expand(ls), false);
    ExpandPieces(ls, [], []);
    PiecesOf(sql, true);
    PiecesKeepClosed(ls, []);
    PiecesKeepHoles(ls, []);
    var qs := TrimPieces(Pieces(ls, []), true);
    assert Texts(qs) == Split(sql);
    OneStatement(qs, ls);
  }

  lemma OneStatement(qs: seq<seq<Lexeme>>, ls: seq<Lexeme>)
    requires |qs| == 1 && Cut(qs, true) && NoneUnclosed(qs) && Scannable(ls) && AllHoles(qs) == Holes([]) + Holes(ls)
    ensures var ls' := Lex(Texts(qs)[0], true);
            Scannable(ls') && Occs(ls') == Occs(ls)
  {
    hide Lex, Scannable, Occs;
    var q := qs[0];
    assert q in qs && Tidied(q, true);
    LexUndoesFlatten(q, true);
    assert qs == [] + [q];
    AllHolesAppend([], q);
    assert [] + Holes(q) == Holes(q) && [] + Holes(ls) == Holes(ls);
    OccsFromHoles(ls, q);
  }

  // ---- Distinct parameters ----

  predicate DistinctNames(ps: seq<Param>) {
    forall i, j :: 0 <= i < j < |ps| ==> ps[i].name != ps[j].name
  }

  lemma {:induction false} DeclaredIsAmong(ps: seq<Param>, name: string)
    ensures match Declared(ps, name)
            case None => forall p <- ps :: p.name != name
            case Some(t) => Param(name, t) in ps
  {
    if ps != [] {
      DeclaredIsAmong(ps[1..], name);
    }
  }

  lemma {:induction false} DistinctAreDistinct(occs: seq<Param>, ps: seq<Param>)
    requires Distinct(occs, ps).Some? && DistinctNames(ps)
    ensures DistinctNames(Distinct(occs, ps).value)
    ensures forall p <- ps :: p in Distinct(occs, ps).value
    ensures forall p <- Distinct(occs, ps).value :: p in ps || p in occs
    decreases |occs|
  {
    hide Print;
    if occs != [] {
      DeclaredIsAmong(ps, occs[0].name);
      if Declared(ps, occs[0].name).None? {
        DistinctAreDistinct(occs[1..], ps + [occs[0]]);
        assert forall p <- ps :: p in ps + [occs[0]];
      } else {
        DistinctAreDistinct(occs[1..], ps);
      }
    }
  }

  /** Every occurrence is among the distinct parameters: equal spelling means equal type. */
  lemma {:induction false} OccsAmongDistinct(occs: seq<Param>, ps: seq<Param>)
    requires Distinct(occs, ps).Some? && DistinctNames(ps)
    requires (forall p <- occs :: WellFormed(p.typ)) && (forall p <- ps :: WellFormed(p.typ))
    ensures forall p <- occs :: p in Distinct(occs, ps).value
    decreases |occs|
  {
    hide Print, WellFormed;
    if occs != [] {
      var p := occs[0];
      assert p in occs && forall x <- occs[1..] :: x in occs;
      DeclaredIsAmong(ps, p.name);
      if Declared(ps, p.name).None? {
        OccsAmongDistinct(occs[1..], ps + [p]);
        DistinctAreDistinct(occs[1..], ps + [p]);
        assert p in ps + [p];
      } else {
        var t := Declared(ps, p.name).value;
        assert WellFormed(t) by { assert Param(p.name, t) in ps; }
        WellFormedIsReadable(t);
        WellFormedIsReadable(p.typ);
        KeyIsIdentity(t, p.typ);
        OccsAmongDistinct(occs[1..], ps);
        DistinctAreDistinct(occs[1..], ps);
      }
    }
  }

  lemma {:induction false} OthersAppend(ps: seq<Param>, p: Param)
    ensures Others(ps + [p]) == Others(ps) + if IsIdentifier(p.typ) then [] else [p]
  {
    if ps == [] {
      assert ps + [p] == [p] && Others([p][1..]) == [];
    } else {
      OthersAppend(ps[1..], p);
      assert (ps + [p])[1..] == ps[1..] + [p];
    }
  }

  lemma {:induction false} DeclaredOthers(ps: seq<Param>, name: string)
    requires DistinctNames(ps)
    ensures Declared(Others(ps), name) ==
      if Declared(ps, name).Some? && !IsIdentifier(Declared(ps, name).value) then Declared(ps, name) else None
  {
    if ps != [] {
      var p, rest := ps[0], ps[1..];
      DeclaredOthers(rest, name);
      DeclaredIsAmong(rest, name);
      assert p.name == name ==> Declared(rest, name).None? by {
        assert forall q <- rest :: q.name != p.name;
      }
      if IsIdentifier(p.typ) {
        assert Others(ps) == [] + Others(rest) && [] + Others(rest) == Others(rest);
      } else {
        assert Others(ps) == [p] + Others(rest) && Others(ps)[1..] == Others(rest);
      }
    }
  }

  /** Leaving out the identifiers first or last makes no difference. */
  lemma {:induction false} DistinctOthers(occs: seq<Param>, ps: seq<Param>)
    requires Distinct(occs, ps).Some? && DistinctNames(ps)
    requires (forall p <- occs :: WellFormed(p.typ)) && (forall p <- ps :: WellFormed(p.typ))
    ensures Distinct(Others(occs), Others(ps)) == Some(Others(Distinct(occs, ps).value))
    decreases |occs|
  {
    hide Print, WellFormed;
    if occs != [] {
      var p, rest := occs[0], occs[1..];
      assert p in occs && forall x <- rest :: x in occs;
      DeclaredOthers(ps, p.name);
      DeclaredIsAmong(ps, p.name);
      if !IsIdentifier(p.typ) {
        assert Others(occs)[0] == p && Others(occs)[1..] == Others(rest);
      } else {
        assert Others(occs) == Others(rest);
      }
      if Declared(ps, p.name).None? {
        OthersAppend(ps, p);
        DistinctOthers(rest, ps + [p]);
        assert Others(ps) + [] == Others(ps);
      } else {
        var t := Declared(ps, p.name).value;
        assert WellFormed(t) by { assert Param(p.name, t) in ps; }
        WellFormedIsReadable(t);
        WellFormedIsReadable(p.typ);
        KeyIsIdentity(t, p.typ);
        DistinctOthers(rest, ps);
      }
    }
  }

  // ---- Numbering ----

  /** The renamed parameters: the i-th input becomes pggen_param_i, identifiers left out. */
  function Numbered(params: seq<Param>, n: nat): seq<Param>
    requires n <= |params|
  {
    if n == 0 then []
    else Numbered(params, n - 1) + if IsIdentifier(params[n - 1].typ) then [] else [Param(Number(n - 1),
      params[n - 1].typ)]
  }

  lemma NumberIsIdent(i: nat)
    ensures IsIdent(Number(i))
  {
    DigitsRoundTrip(i);
  }

  lemma NumberInjective(i: nat, j: nat)
    requires Number(i) == Number(j)
    ensures i == j
  {
    assert Number(i)[|PREFIX|..] == Itoa(i) && Number(j)[|PREFIX|..] == Itoa(j);
    ItoaInjective(i, j);
  }

  lemma {:induction false} NameOf(params: seq<Param>, n: nat, i: nat)
    requires i < n <= |params| && DistinctNames(params) && !IsIdentifier(params[i].typ)
    ensures params[i].name in Names(params, n) && Names(params, n)[params[i].name] == Number(i)
  {
    if i < n - 1 {
      NameOf(params, n - 1, i);
    }
  }

  lemma NoOthers(f: string -> string)
    ensures RenameAll(f, Others([])) == []
  {
  }

  lemma {:induction false} RenamedAreNumbered(params: seq<Param>, n: nat)
    requires n <= |params| && DistinctNames(params)
    ensures RenameAll(Lookup(Names(params, |params|)), Others(params[..n])) == Numbered(params, n)
  {
    hide Others, RenameAll, IsIdentifier;
    var f := Lookup(Names(params, |params|));
    if n == 0 {
      NoOthers(f);
    } else {
      var p := params[n - 1];
      assert params[..n] == params[..n - 1] + [p];
      RenamedAreNumbered(params, n - 1);
      OthersAppend(params[..n - 1], p);
      if IsIdentifier(p.typ) {
        assert Others(params[..n - 1]) + [] == Others(params[..n - 1]);
        assert Numbered(params, n - 1) + [] == Numbered(params, n - 1);
      } else {
        NameOf(params, |params|, n - 1);
        RenameAppend(f, Others(params[..n - 1]), p);
      }
    }
  }

  lemma NumbersRename(params: seq<Param>, occs: seq<Param>)
    requires DistinctNames(params) && forall p <- occs :: p in params && !IsIdentifier(p.typ)
    ensures NamesIdents(Lookup(Names(params, |params|)), occs) && InjectiveOn(Lookup(Names(params, |params|)), occs)
  {
    var names := Names(params, |params|);
    var f := Lookup(names);
    forall p <- occs ensures IsIdent(f(p.name)) {
      var i :| 0 <= i < |params| && params[i] == p;
      NameOf(params, |params|, i);
      NumberIsIdent(i);
    }
    forall p <- occs, q <- occs | f(p.name) == f(q.name) ensures p.name == q.name {
      var i :| 0 <= i < |params| && params[i] == p;
      var j :| 0 <= j < |params| && params[j] == q;
      NameOf(params, |params|, i);
      NameOf(params, |params|, j);
      NumberInjective(i, j);
    }
  }

  lemma {:induction false} ArgsAreNumbered(params: seq<Param>, zero: Type -> Option<string>, n: nat)
    requires n <= |params| && Args(params, zero, n).Some?
    ensures var args, ps := Args(params, zero, n).value, Numbered(params, n);
            |args| == |ps| && forall k :: 0 <= k < |ps| ==>
              args[k].0 == ps[k].name && zero(ps[k].typ) == Some(args[k].1)
  {
    if n > 0 {
      ArgsAreNumbered(params, zero, n - 1);
    }
  }

  lemma {:induction false} NumberedAreDistinct(params: seq<Param>, n: nat)
    requires n <= |params|
    ensures forall p <- Numbered(params, n) :: !IsIdentifier(p.typ) && exists i: nat :: i < n && p.name == Number(i)
    ensures DistinctNames(Numbered(params, n))
  {
    hide Number, IsIdentifier;
    if n > 0 {
      NumberedAreDistinct(params, n - 1);
      var ps := Numbered(params, n - 1);
      forall k | 0 <= k < |ps| ensures ps[k].name != Number(n - 1) {
        assert ps[k] in ps;
        var i: nat :| i < n - 1 && ps[k].name == Number(i);
        if Number(i) == Number(n - 1) {
          NumberInjective(i, n - 1);
        }
      }
      forall p <- Numbered(params, n) ensures !IsIdentifier(p.typ) && exists i: nat :: i < n && p.name == Number(i) {
        if p in ps {
          var i: nat :| i < n - 1 && p.name == Number(i);
        }
      }
    }
  }

  lemma RenamedHolesAreQuiet(ls: seq<Lexeme>, f: string -> string)
    requires Scannable(ls) && NamesIdents(f, Occs(ls)) && forall p <- Occs(ls) :: Good(p)
    ensures QuietHoles(Replace(ls, RenamedHole(f)))
    decreases |ls|
  {
    hide ParamOf, Quiet, HoleText;
    if ls != [] {
      RenamedHolesAreQuiet(ls[1..], f);
      if ls[0].kind == Hole {
        var p := ParamOf(ls[0].text).value;
        assert p in Occs(ls);
        HoleTextIsQuiet(RenameParam(f, p));
      }
    }
  }

  lemma HoleTextIsQuiet(p: Param)
    requires Good(p)
    ensures HoleText(p) != "" && Quiet(HoleText(p), false)
  {
    hide Quiet, Print;
    IdentIsTrimmed(p.name);
    PrintIsQuiet(p.typ, false);
    CharIsQuiet('{', false);
    CharIsQuiet('}', false);
    TameIsQuiet(p.name, false);
    TameIsQuiet(":", false);
    Quiet3("{", p.name, ":", false);
    Quiet3("{" + p.name + ":", Print(p.typ), "}", false);
  }

  // ---- Main result ----

  /** A text that splits to itself alone and holds neither comments nor a statement terminator. */
  ghost predicate BareStatement(st: string) {
    Split(st) == [st] && forall l <- Lex(st, false) :: l.kind != Comment && l != Chr(';')
  }

  /** The parameters left after filling in the identifiers are inputs of the query, and not identifiers. */
  lemma LeftoverParams(sql: string, params: seq<Param>)
    requires Clean(sql) && ParamsOf(sql) == Some(params)
    ensures DistinctNames(params)
    ensures var others := Others(Occs(Lex(sql, true)));
            && (forall p <- others :: p in params && !IsIdentifier(p.typ))
            && Distinct(others, []) == Some(Others(params))
  {
    hide Lex, Occs, Scannable, Distinct, ParamsOf, Rewrite, WellFormed;
    var occs := Occs(Lex(sql, true));
    RewriteMeans(sql, Bound());
    CleanIsGood(sql);
    assert forall p <- occs :: WellFormed(p.typ);
    InputsAreParams(sql, params);
    DistinctOthers(occs, []);
    OthersAmong(occs);
  }

  /** Renaming the parameters that are left, and taking the single statement. */
  lemma RenamedStatement(sql: string, f: string -> string)
    requires Clean(sql) && NamesIdents(f, Occs(Lex(sql, true)))
    ensures Rewrite(sql, Renamed(f)).Some?
    ensures var out := Rewrite(sql, Renamed(f)).value;
            |Split(out)| == 1 ==>
              var ls := Lex(Split(out)[0], true);
              BareStatement(Split(out)[0]) && Scannable(ls) && Occs(ls) == RenameAll(f, Occs(Lex(sql, true)))
  {
    hide Lex, Split, Rewrite, Occs, Scannable, Replace, QuietHoles;
    RenameScans(sql, f);
    CleanIsGood(sql);
    RenamedHolesAreQuiet(Lex(sql, true), f);
    var out := Rewrite(sql, Renamed(f)).value;
    if |Split(out)| == 1 {
      StatementKeepsParams(out);
      StatementsAreStable(out, 0);
    }
  }

  /**
    A prepared query is one bare statement. Its parameters are the query's inputs except
    the Identifier ones, in order of first appearance, under distinct new names, and they
    are exactly the arguments sent with it.
   */
  lemma PreparedIsReady(sql: string, params: seq<Param>, zero: Type -> Option<string>)
    requires Clean(sql) && ParamsOf(sql) == Some(params) && Prepared(sql, params, zero).Some?
    ensures var (st, args) := Prepared(sql, params, zero).value;
            var inputs := Numbered(params, |params|);
            && BareStatement(st)
            && ParamsOf(st) == Some(inputs) && DistinctNames(inputs)
            && (forall p <- inputs :: !IsIdentifier(p.typ))
            && |args| == |inputs|
            && forall k :: 0 <= k < |args| ==> args[k].0 == inputs[k].name && zero(inputs[k].typ) == Some(args[k].1)
  {
    hide Lex, Split, Rewrite, Occs, Scannable, Distinct, ParamsOf, Names, Args, Numbered, BareStatement, Others,
      IsIdentifier, RenameAll;
    var f := Lookup(Names(params, |params|));
    LeftoverParams(sql, params);
    FilledScans(sql);
    var filled := Rewrite(sql, Substituted(Itself())).value;
    var others := Occs(Lex(filled, true));
    NumbersRename(params, others);
    RenamedStatement(filled, f);
    var (st, args) := Prepared(sql, params, zero).value;
    RewriteMeans(st, Bound());
    RenamedDistinct(f, others, params);
    ArgsAreNumbered(params, zero, |params|);
    NumberedAreDistinct(params, |params|);
  }

  lemma {:induction false} ArgsExactlyWhen(params: seq<Param>, zero: Type -> Option<string>, n: nat)
    requires n <= |params|
    ensures Args(params, zero, n).Some? <==> HasLiterals(params[..n], zero)
  {
    if n > 0 {
      ArgsExactlyWhen(params, zero, n - 1);
      var p := params[n - 1];
      assert params[..n] == params[..n - 1] + [p];
      assert forall q :: q in params[..n] <==> q in params[..n - 1] || q == p;
    }
  }

  lemma NameIsWritten(p: Param, f: Param -> string)
    requires Good(p) && IsIdentifier(p.typ)
    ensures var ls := FilledLexemes(Itself())(p); Scannable(ls) && Fill(ls, f) == p.name
  {
    hide Lex, StandIn, Scannable, Occs, Flatten, Quiet, Fill;
    IdentIsTrimmed(p.name);
    TameIsQuiet(p.name, true);
    assert p.name[0] in p.name;
    QuietIsStandIn(p.name);
    FillNothing(Lex(p.name, true), f);
  }

  lemma HoleIsWritten(p: Param, f: Param -> string)
    requires Good(p) && !IsIdentifier(p.typ)
    ensures var ls := FilledLexemes(Itself())(p); Scannable(ls) && Fill(ls, f) == f(p)
  {
    hide StandIn, Scannable, Occs, Flatten, HoleFor, Good, Fill;
    HoleIsStandIn(p);
    FillHole(p, f);
  }

  lemma NumberedHole(i: nat, t: Type)
    ensures HoleText(Param(Number(i), t)) == "{pggen_param_" + Itoa(i) + ":" + Print(t) + "}"
  {
    hide Itoa, Print;
    var n := Itoa(i);
    assert "{" + (PREFIX + n) == ("{" + PREFIX) + n;
    assert "{" + PREFIX == "{pggen_param_";
  }

  lemma InputText(g: Param -> string, params: seq<Param>, i: nat)
    requires i < |params| && WritesInputs(g, params)
    ensures g(params[i]) ==
            if IsIdentifier(params[i].typ) then params[i].name else HoleText(Param(Number(i), params[i].typ))
  {
    hide HoleText, Number, Itoa, Print;
    NumberedHole(i, params[i].typ);
  }

  /** Filling in the identifiers and renaming the others writes every input as it should be. */
  lemma InputIsWritten(p: Param, params: seq<Param>, g: Param -> string)
    requires Good(p) && p in params && DistinctNames(params) && WritesInputs(g, params)
    ensures var ls, f := FilledLexemes(Itself())(p), Lookup(Names(params, |params|));
            Scannable(ls) && Fill(ls, Renamed(f)) == g(p)
  {
    hide Scannable, Names, Fill, FilledLexemes, Good, HoleText, Number, WritesInputs;
    var f := Lookup(Names(params, |params|));
    var i :| 0 <= i < |params| && params[i] == p;
    InputText(g, params, i);
    if IsIdentifier(p.typ) {
      NameIsWritten(p, Renamed(f));
    } else {
      HoleIsWritten(p, Renamed(f));
      NameOf(params, |params|, i);
    }
  }

  lemma FilledThenRenamed(sql: string, params: seq<Param>, g: Param -> string)
    requires Clean(sql) && ParamsOf(sql) == Some(params) && WritesInputs(g, params)
    ensures var filled := Rewrite(sql, Substituted(Itself()));
            && filled.Some?
            && Rewrite(filled.value, Renamed(Lookup(Names(params, |params|)))) == Some(Fill(Lex(sql, true), g))
  {
    hide Lex, Rewrite, Occs, Scannable, Replace, Fill, Names, WritesInputs, ParamsOf, Remaining, FilledLexemes, Good;
    var ls, f := Lex(sql, true), Lookup(Names(params, |params|));
    IdentifiersAreFillable(sql);
    SubstituteScans(sql, Itself());
    var filled := Rewrite(sql, Substituted(Itself())).value;
    RewriteMeans(filled, Renamed(f));
    CleanIsGood(sql);
    InputsAreParams(sql, params);
    forall p <- Occs(ls)
      ensures Scannable(FilledLexemes(Itself())(p)) && Fill(FilledLexemes(Itself())(p), Renamed(f)) == g(p)
    {
      InputIsWritten(p, params, g);
    }
    FillReplace(ls, FilledLexemes(Itself()), Renamed(f), g);
  }

  lemma InputsAreParams(sql: string, params: seq<Param>)
    requires Clean(sql) && ParamsOf(sql) == Some(params)
    ensures DistinctNames(params) && forall p <- Occs(Lex(sql, true)) :: p in params
  {
    hide Lex, Occs, Scannable, Distinct, ParamsOf, Rewrite, WellFormed;
    var occs := Occs(Lex(sql, true));
    RewriteMeans(sql, Bound());
    CleanIsGood(sql);
    assert forall p <- occs :: WellFormed(p.typ);
    DistinctAreDistinct(occs, []);
    OccsAmongDistinct(occs, []);
  }

  /**
    The prepared statement is the single statement of the query in which the hole of each
    Identifier is replaced by the parameter's own name, and every other hole by the hole of
    its input's number.
   */
  lemma PreparedText(sql: string, params: seq<Param>, zero: Type -> Option<string>, g: Param -> string)
    requires Clean(sql) && ParamsOf(sql) == Some(params) && WritesInputs(g, params)
    ensures var r, stmts := Prepared(sql, params, zero), Split(Fill(Lex(sql, true), g));
            && (r.Some? <==> |stmts| == 1 && HasLiterals(params, zero))
            && (r.Some? ==> stmts == [r.value.0])
  {
    hide Lex, Split, Rewrite, Fill, ParamsOf, Names, Args, HasLiterals, WritesInputs;
    FilledThenRenamed(sql, params, g);
    ArgsExactlyWhen(params, zero, |params|);
    assert params[..|params|] == params;
  }

  lemma RenamedDistinct(f: string -> string, others: seq<Param>, params: seq<Param>)
    requires f == Lookup(Names(params, |params|)) && InjectiveOn(f, others) && DistinctNames(params)
    requires Distinct(others, []) == Some(Others(params))
    ensures Distinct(RenameAll(f, others), []) == Some(Numbered(params, |params|))
  {
    hide Distinct, Names, Others, Numbered;
    assert others + [] == others && RenameAll(f, []) == [];
    DistinctRenamed(f, others, []);
    RenamedAreNumbered(params, |params|);
    assert params[..|params|] == params;
  }
}
