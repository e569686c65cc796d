/** Query parameters written {name:Type}: finding them, and the three rewrites of a query's text. */
module ChParams {
  import opened Text
  import opened ChTypes
  import opened ChGrammar
  import opened ChParser
  import opened ChLex
  import opened ChStatements

  datatype Param = Param(name: string, typ: Type)

  /** The parameter that the text of a hole declares, if it is well-formed. */
  function ParamOf(hole: string): Option<Param> {
    if |hole| < 2 then None else
    var body := hole[1..|hole| - 1];
    var colon := IndexFrom(body, ':', 0);
    if colon == |body| || TrimSpace(body[..colon]) == "" then None else
    var typ := Parse(TrimSpace(body[colon + 1..]));
    if typ.Err? then None else Some(Param(TrimSpace(body[..colon]), typ.value))
  }

  datatype Segment = Text(text: string) | Parameter(param: Param)

  function TextSegment(text: string): seq<Segment> {
    if text == "" then [] else [Text(text)]
  }

  function Prepend(segs: seq<Segment>, rest: Option<seq<Segment>>): Option<seq<Segment>> {
    if rest.None? then None else Some(segs + rest.value)
  }

  lemma PrependTwice(a: seq<Segment>, b: seq<Segment>, rest: Option<seq<Segment>>)
    ensures Prepend([], rest) == rest
    ensures Prepend(a, Prepend(b, rest)) == Prepend(a + b, rest)
  {
    if rest.Some? {
      assert [] + rest.value == rest.value && a + (b + rest.value) == a + b + rest.value;
    }
  }

  /** The parameters of a list of lexemes and the text between them, behind text already read. */
  function Segments(ls: seq<Lexeme>, text: string): Option<seq<Segment>> {
    if ls == [] then Some(TextSegment(text))
    else match ls[0].kind
      case Unclosed => None
      case Hole =>
        var p := ParamOf(ls[0].text);
        if p.None? then None else Prepend(TextSegment(text) + [Parameter(p.value)], Segments(ls[1..], ""))
      case _ => Segments(ls[1..], text + ls[0].text)
  }

  /** Walks the text and collects its parameters and what stands between them. */
  method ScanSql(sql: string) returns (r: Option<seq<Segment>>)
    ensures r == Segments(Lex(sql, true), "")
  {
    hide Lex, Segments, ParamOf, CommentLength, LiteralLength;
    var segs: seq<Segment> := [];
    var prev, i := 0, 0;
    assert sql[0..] == sql && sql[0..0] == "";
    PrependTwice([], [], Segments(Lex(sql, true), ""));
    while i < |sql|
      invariant 0 <= prev <= i <= |sql|
      invariant Prepend(segs, Segments(Lex(sql[i..], true), sql[prev..i])) == Segments(Lex(sql, true), "")
    {
      var next := SkipComment(sql, i);
      if next != i {
        SkipStep(sql, i, prev, next);
        i := next;
        continue;
      }
      next := SkipLiteral(sql, i);
      if next != i {
        SkipStep(sql, i, prev, next);
        i := next;
        continue;
      }
      if sql[i] == '{' {
        var end := IndexFrom(sql, '}', i);
        HoleStep(sql, i, prev, end);
        if end == |sql| {
          return None;
        }
        var p := ParamOf(sql[i..end + 1]);
        if p.None? {
          return None;
        }
        var found := TextSegment(sql[prev..i]) + [Parameter(p.value)];
        PrependTwice(segs, found, Segments(Lex(sql[end + 1..], true), ""));
        segs := segs + found;
        i := end + 1;
        prev := i;
        assert sql[prev..i] == "";
        continue;
      }
      SkipStep(sql, i, prev, i + 1);
      i := i + 1;
    }
    StopScanning(sql, i, prev);
    return Some(segs + TextSegment(sql[prev..]));
  }

  lemma StopScanning(sql: string, i: nat, prev: nat)
    requires prev <= i == |sql|
    ensures Segments(Lex(sql[i..], true), sql[prev..i]) == Some(TextSegment(sql[prev..]))
  {
    assert sql[prev..i] == sql[prev..];
  }

  /** A comment, a literal or any other character is carried along as text. */
  lemma SkipStep(sql: string, i: nat, prev: nat, next: nat)
    requires prev <= i < |sql|
    requires var s := sql[i..];
             next == i + (if CommentLength(s) > 0 then CommentLength(s)
                          else if LiteralLength(s) > 0 then LiteralLength(s) else 1)
    requires var s := sql[i..]; CommentLength(s) == 0 && LiteralLength(s) == 0 ==> sql[i] != '{'
    ensures next <= |sql|
    ensures Segments(Lex(sql[i..], true), sql[prev..i]) == Segments(Lex(sql[next..], true), sql[prev..next])
  {
    hide QuoteEnd, BlockEnd, LineEnd, BraceEnd, ParamOf;
    var s := sql[i..];
    var l := First(s, true);
    assert |l.text| == next - i && l.text == sql[i..next];
    assert s[|l.text|..] == sql[next..] && sql[prev..i] + l.text == sql[prev..next];
    assert Lex(s, true)[0] == l && Lex(s, true)[1..] == Lex(sql[next..], true);
  }

  lemma {:induction false} BraceEndIsIndex(sql: string, i: nat, j: nat)
    requires i <= j <= |sql|
    ensures BraceEnd(sql[i..], j - i) == if IndexFrom(sql, '}', j) ==
            |sql| then None else Some(IndexFrom(sql, '}', j) - i + 1)
    decreases |sql| - j
  {
    if j < |sql| {
      assert sql[i..][j - i] == sql[j];
      BraceEndIsIndex(sql, i, j + 1);
    }
  }

  lemma HoleStep(sql: string, i: nat, prev: nat, end: nat)
    requires prev <= i < |sql| && sql[i] == '{' && end == IndexFrom(sql, '}', i)
    requires CommentLength(sql[i..]) == 0 && LiteralLength(sql[i..]) == 0
    ensures var rest := Segments(Lex(sql[i..], true), sql[prev..i]);
            if end == |sql| || ParamOf(sql[i..end + 1]).None? then rest.None?
            else rest == Prepend(TextSegment(sql[prev..i]) + [Parameter(ParamOf(sql[i..end + 1]).value)],
                                 Segments(Lex(sql[end + 1..], true), ""))
  {
    hide QuoteEnd, BlockEnd, LineEnd, CommentLength, LiteralLength, ParamOf;
    BraceEndIsIndex(sql, i, i);
    var s := sql[i..];
    var l := First(s, true);
    if end < |sql| {
      assert l == Lexeme(Hole, sql[i..end + 1]);
      assert s[|l.text|..] == sql[end + 1..];
      assert Lex(s, true)[0] == l && Lex(s, true)[1..] == Lex(sql[end + 1..], true);
    } else {
      assert Lex(s, true)[0].kind == Unclosed;
    }
  }

  // ---- Occurrences and distinct parameters ----

  function Occurrences(segs: seq<Segment>): seq<Param> {
    if segs == [] then []
    else (if segs[0].Parameter? then [segs[0].param] else []) + Occurrences(segs[1..])
  }

  /** The type a name was first declared with. */
  function Declared(params: seq<Param>, name: string): Option<Type> {
    if params == [] then None
    else if params[0].name == name then Some(params[0].typ)
    else Declared(params[1..], name)
  }

  /** The distinct parameters in order of first appearance, unless a name is declared with two types. */
  function Distinct(occs: seq<Param>, params: seq<Param>): Option<seq<Param>>
    decreases |occs|
  {
    if occs == [] then Some(params)
    else match Declared(params, occs[0].name)
      case None => Distinct(occs[1..], params + [occs[0]])
      case Some(t) => if Print(t) == Print(occs[0].typ) then Distinct(occs[1..], params) else None
  }

  function ParamsOf(sql: string): Option<seq<Param>> {
    var segs := Segments(Lex(sql, true), "");
    if segs.None? then None else Distinct(Occurrences(segs.value), [])
  }

  lemma {:induction false} DeclaredAppend(params: seq<Param>, p: Param, name: string)
    ensures Declared(params + [p], name) ==
      if Declared(params, name).Some? then Declared(params, name) else if p.name == name then Some(p.typ) else None
  {
    if params == [] {
      assert params + [p] == [p];
    } else {
      DeclaredAppend(params[1..], p, name);
      assert (params + [p])[1..] == params[1..] + [p];
    }
  }

  /** No earlier occurrence has the name of the n-th. */
  predicate IsFirst(occs: seq<Param>, n: nat)
    requires n < |occs|
  {
    forall j :: 0 <= j < n ==> occs[j].name != occs[n].name
  }

  /** Among the first n occurrences, those whose name has not come before. */
  function Firsts(occs: seq<Param>, n: nat): seq<Param>
    requires n <= |occs|
  {
    if n == 0 then [] else Firsts(occs, n - 1) + if IsFirst(occs, n - 1) then [occs[n - 1]] else []
  }

  /** A name is declared with one type throughout. */
  predicate Consistent(occs: seq<Param>) {
    forall i, j :: 0 <= i < j < |occs| && occs[i].name == occs[j].name ==> Print(occs[i].typ) == Print(occs[j].typ)
  }

  /** Every occurrence from n on has the type its name was first declared with. */
  ghost predicate ConsistentFrom(occs: seq<Param>, n: nat) {
    forall i, j :: 0 <= j < i < |occs| && n <= i && IsFirst(occs, j) && occs[j].name == occs[i].name ==>
      Print(occs[j].typ) == Print(occs[i].typ)
  }

  lemma {:induction false} DeclaredIsFirst(occs: seq<Param>, n: nat, name: string)
    requires n <= |occs|
    ensures match Declared(Firsts(occs, n), name)
            case None => forall j :: 0 <= j < n ==> occs[j].name != name
            case Some(t) => exists j :: 0 <= j < n && IsFirst(occs, j) && occs[j] == Param(name, t)
  {
    hide IsFirst, Declared;
    if n == 0 {
      NothingDeclared(name);
    } else {
      var before, p := Firsts(occs, n - 1), occs[n - 1];
      DeclaredIsFirst(occs, n - 1, name);
      FirstAgain(occs, n - 1);
      if IsFirst(occs, n - 1) {
        DeclaredAppend(before, p, name);
      } else {
        assert before + [] == before;
      }
    }
  }

  lemma NothingDeclared(name: string)
    ensures Declared([], name) == None
  {
  }

  lemma FirstAgain(occs: seq<Param>, n: nat)
    requires n < |occs|
    ensures IsFirst(occs, n) <==> forall j :: 0 <= j < n ==> occs[j].name != occs[n].name
  {
  }

  lemma FirstIsUnique(occs: seq<Param>, i: nat, j: nat)
    requires i < |occs| && j < |occs| && IsFirst(occs, i) && IsFirst(occs, j) && occs[i].name == occs[j].name
    ensures i == j
  {
  }

  lemma {:induction false} DistinctFrom(occs: seq<Param>, n: nat)
    requires n <= |occs|
    ensures Distinct(occs[n..], Firsts(occs, n)) ==
            if ConsistentFrom(occs, n) then Some(Firsts(occs, |occs|)) else None
    decreases |occs| - n
  {
    hide IsFirst, Print, Declared;
    if n == |occs| {
      assert occs[n..] == [];
    } else {
      var p, ps := occs[n], Firsts(occs, n);
      assert occs[n..][0] == p && occs[n..][1..] == occs[n + 1..];
      DistinctFrom(occs, n + 1);
      DeclaredIsFirst(occs, n, p.name);
      FirstAgain(occs, n);
      if Declared(ps, p.name).Some? {
        var f :| 0 <= f < n && IsFirst(occs, f) && occs[f] == Param(p.name, Declared(ps, p.name).value);
        assert !IsFirst(occs, n) && ps + [] == ps;
        forall j | 0 <= j < n && IsFirst(occs, j) && occs[j].name == p.name ensures j == f {
          FirstIsUnique(occs, j, f);
        }
        assert ConsistentFrom(occs, n) <==> ConsistentFrom(occs, n + 1) && Print(occs[f].typ) == Print(p.typ);
      } else {
        assert IsFirst(occs, n);
        assert ConsistentFrom(occs, n) <==> ConsistentFrom(occs, n + 1);
      }
    }
  }

  lemma {:induction false} FirstOf(occs: seq<Param>, i: nat) returns (f: nat)
    requires i < |occs|
    ensures f <= i && IsFirst(occs, f) && occs[f].name == occs[i].name
    decreases i
  {
    if j :| 0 <= j < i && occs[j].name == occs[i].name {
      f := FirstOf(occs, j);
    } else {
      f := i;
    }
  }

  lemma ConsistentIsFromStart(occs: seq<Param>)
    ensures Consistent(occs) <==> ConsistentFrom(occs, 0)
  {
    hide Print, IsFirst;
    if ConsistentFrom(occs, 0) {
      forall i, j | 0 <= i < j < |occs| && occs[i].name == occs[j].name
        ensures Print(occs[i].typ) == Print(occs[j].typ)
      {
        var f := FirstOf(occs, i);
      }
    }
  }

  /** The parameters are the first occurrences of their names, in order, unless a name is declared with two types. */
  lemma DistinctIsExact(occs: seq<Param>)
    ensures Distinct(occs, []) == if Consistent(occs) then Some(Firsts(occs, |occs|)) else None
  {
    hide Distinct, ConsistentFrom, Consistent;
    assert occs[0..] == occs;
    DistinctFrom(occs, 0);
    ConsistentIsFromStart(occs);
  }

  method ScanParams(sql: string) returns (r: Option<seq<Param>>)
    ensures r == ParamsOf(sql)
  {
    hide Lex, Segments, Print;
    var segs := ScanSql(sql);
    if segs.None? {
      return None;
    }
    var params: seq<Param> := [];
    var seen: map<string, Type> := map[];
    for i := 0 to |segs.value|
      invariant forall name :: Declared(params, name) == if name in seen then Some(seen[name]) else None
      invariant Distinct(Occurrences(segs.value[i..]), params) == Distinct(Occurrences(segs.value), [])
    {
      assert segs.value[i..][0] == segs.value[i] && segs.value[i..][1..] == segs.value[i + 1..];
      ghost var occs := Occurrences(segs.value[i + 1..]);
      if segs.value[i].Parameter? {
        var p := segs.value[i].param;
        assert Occurrences(segs.value[i..]) == [p] + occs && ([p] + occs)[1..] == occs;
        if p.name in seen {
          if Print(seen[p.name]) != Print(p.typ) {
            return None;
          }
        } else {
          forall name { DeclaredAppend(params, p, name); }
          seen := seen[p.name := p.typ];
          params := params + [p];
        }
      } else {
        assert [] + occs == occs;
      }
    }
    assert segs.value[|segs.value|..] == [];
    return Some(params);
  }

  // ---- Rewrites ----

  /** The text with every parameter replaced by f of it, and everything else kept. */
  function Render(segs: seq<Segment>, f: Param -> string): string {
    if segs == [] then ""
    else (match segs[0] case Text(t) => t case Parameter(p) => f(p)) + Render(segs[1..], f)
  }

  function Rewrite(sql: string, f: Param -> string): Option<string> {
    var segs := Segments(Lex(sql, true), "");
    if segs.None? then None else Some(Render(segs.value, f))
  }

  method RewriteWith(sql: string, f: Param -> string) returns (r: Option<string>)
    ensures r == Rewrite(sql, f)
  {
    hide Lex, Segments;
    var segs := ScanSql(sql);
    if segs.None? {
      return None;
    }
    var sb := "";
    for i := 0 to |segs.value|
      invariant sb + Render(segs.value[i..], f) == Render(segs.value, f)
    {
      assert segs.value[i..][0] == segs.value[i] && segs.value[i..][1..] == segs.value[i + 1..];
      match segs.value[i]
      case Text(t) => sb := sb + t;
      case Parameter(p) => sb := sb + f(p);
    }
    assert segs.value[|segs.value|..] == [] && sb + "" == sb;
    return Some(sb);
  }

  predicate IsIdentifier(t: Type) {
    t == Scalar("Identifier")
  }

  /** A parameter in its normal form. */
  function HoleText(p: Param): string {
    "{" + p.name + ":" + Print(p.typ) + "}"
  }

  function CastText(p: Param): string {
    "cast(@" + p.name + " AS " + Print(p.typ) + ")"
  }

  function Substituted(value: string -> string): Param -> string {
    (p: Param) => if IsIdentifier(p.typ) && value(p.name) != "" then value(p.name) else HoleText(p)
  }

  function Bound(): Param -> string {
    (p: Param) => if IsIdentifier(p.typ) then "{" + p.name + ":Identifier}" else CastText(p)
  }

  function Renamed(rename: string -> string): Param -> string {
    (p: Param) => HoleText(Param(rename(p.name), p.typ))
  }
}
