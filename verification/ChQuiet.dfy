/** Texts that can be put into a query without disturbing how it lexes, among them every printed type. */
module ChQuiet {
  import opened Text
  import opened ChTypes
  import opened ChLex
  import opened ChStatements
  import opened ChReads
  import opened ChIdentity

  /** The lexeme stays itself in front of anything. */
  predicate Sturdy(l: Lexeme) {
    match l.kind
    case Char => l.text != "-" && l.text != "/"
    case Literal => ClosedQuote(l.text)
    case Hole => true
    case _ => false
  }

  lemma SturdyFits(l: Lexeme, r: string)
    requires Sturdy(l)
    ensures Fits(l, r)
  {
    hide ClosedQuote;
  }

  /** Ordinary characters and closed quoted text only, with an end that can be followed by anything. */
  ghost predicate Quiet(u: string, holes: bool) {
    var ls := Lex(u, holes);
    && (forall l <- ls :: (l.kind == Char && l != Chr(';')) || (l.kind == Literal && ClosedQuote(l.text)))
    && (ls != [] ==> Sturdy(Last(ls)))
  }

  lemma QuietConcat(a: string, b: string, holes: bool)
    requires Quiet(a, holes) && Quiet(b, holes)
    ensures Quiet(a + b, holes) && Lex(a + b, holes) == Lex(a, holes) + Lex(b, holes)
  {
    hide Sturdy, ClosedQuote, Canonical;
    var p, q := Lex(a, holes), Lex(b, holes);
    LexConcat(a, b, holes);
    assert q != [] ==> Last(p + q) == Last(q);
    assert q == [] ==> p + q == p;
  }

  lemma LexConcat(a: string, b: string, holes: bool)
    requires Lex(a, holes) != [] ==> Sturdy(Last(Lex(a, holes)))
    ensures Lex(a + b, holes) == Lex(a, holes) + Lex(b, holes)
  {
    hide Sturdy, Fits, Canonical, Lex;
    var p, q := Lex(a, holes), Lex(b, holes);
    LexIsCanonical(a, holes);
    LexIsCanonical(b, holes);
    if p != [] {
      SturdyFits(Last(p), Flatten(q));
    }
    CanonicalConcat(p, q, holes);
    FlattenConcat(p, q);
    LexUndoesFlatten(p + q, holes);
  }

  predicate TameChar(c: char) {
    IsIdentChar(c) || c == ' ' || c == '(' || c == ')' || c == ',' || c == '=' || c == '@' || c == '.' || c == ':'
  }

  predicate Tame(u: string) {
    forall c <- u :: TameChar(c)
  }

  lemma CharIsQuiet(c: char, holes: bool)
    requires !IsQuote(c) && c != '-' && c != '/' && c != ';' && (holes ==> c != '{')
    ensures Quiet([c], holes) && Lex([c], holes) == [Chr(c)]
  {
    assert [c][..1] == [c] && [c][1..] == "";
    assert First([c], holes) == Chr(c);
    assert Lex([c], holes) == [Chr(c)] + Lex([c][1..], holes);
  }

  lemma {:induction false} TameIsQuiet(u: string, holes: bool)
    requires Tame(u)
    ensures Quiet(u, holes)
  {
    hide Quiet;
    if u == "" {
      EmptyIsQuiet(holes);
    } else {
      assert u == [u[0]] + u[1..] && u[0] in u;
      CharIsQuiet(u[0], holes);
      TameIsQuiet(u[1..], holes);
      QuietConcat([u[0]], u[1..], holes);
    }
  }

  lemma EmptyIsQuiet(holes: bool)
    ensures Quiet("", holes)
  {
  }

  lemma {:induction false} EscapeCloses(pre: string, s: string, j: nat)
    requires j == |pre|
    ensures QuoteEnd(pre + Escape(s) + "'", j, '\'') == Some(|pre + Escape(s) + "'"|)
    decreases |s|
  {
    var u := pre + Escape(s) + "'";
    if s == "" {
      assert u[j] == '\'';
    } else {
      var head := if s[0] == '\\' || s[0] == '\'' then ['\\', s[0]] else [s[0]];
      assert Escape(s) == head + Escape(s[1..]);
      assert u == (pre + head) + Escape(s[1..]) + "'";
      assert u[j] == head[0];
      EscapeCloses(pre + head, s[1..], j + |head|);
    }
  }

  lemma QuoteIsQuiet(s: string, holes: bool)
    ensures Quiet(Quote(s), holes)
  {
    var u := Quote(s);
    EscapeCloses("'", s, 1);
    assert ClosedQuote(u);
    assert First(u, holes) == Lexeme(Literal, u) by { assert u[..|u|] == u; }
    hide ClosedQuote, First, Quote;
    assert u[|u|..] == "";
    assert Lex(u, holes) == [Lexeme(Literal, u)] + Lex(u[|u|..], holes);
  }

  lemma ItoaIsQuiet(n: int, holes: bool)
    ensures Quiet(Itoa(n), holes)
  {
    hide Quiet, NatDigits;
    var ds := NatDigits(if n < 0 then -n else n);
    DigitsRoundTrip(if n < 0 then -n else n);
    assert Tame(ds);
    TameIsQuiet(ds, holes);
    if n < 0 {
      MinusIsQuiet(ds, holes);
    }
  }

  lemma MinusIsQuiet(ds: string, holes: bool)
    requires ds != "" && IsDigit(ds[0]) && Quiet(ds, holes)
    ensures Quiet("-" + ds, holes)
  {
    hide Canonical;
    var q := Lex(ds, holes);
    LexIsCanonical(ds, holes);
    var l := Chr('-');
    assert First("-", holes) == l by { assert "-"[..1] == "-"; }
    assert Valid(l, holes) && Fits(l, ds);
    hide Valid, Fits, First, ClosedQuote, Sturdy;
    CanonicalOne(l, holes);
    CanonicalConcat([l], q, holes);
    FlattenConcat([l], q);
    LexUndoesFlatten([l] + q, holes);
    assert Last([l] + q) == Last(q);
  }

  lemma CanonicalOne(l: Lexeme, holes: bool)
    requires Valid(l, holes)
    ensures Canonical([l], holes) && Flatten([l]) == l.text
  {
    hide Valid, First;
    FitsEnd(l);
    FlattenAppend([], l);
    assert [] + [l] == [l] && [l][1..] == [];
  }

  /** a and b around a quiet middle */
  lemma Quiet3(a: string, b: string, c: string, holes: bool)
    requires Quiet(a, holes) && Quiet(b, holes) && Quiet(c, holes)
    ensures Quiet(a + b + c, holes)
  {
    hide Quiet, Lex;
    QuietConcat(a, b, holes);
    QuietConcat(a + b, c, holes);
  }

  lemma {:induction false} LabelsAreQuiet(labels: seq<string>, values: seq<int>, holes: bool)
    ensures Quiet(PrintLabels(labels, values), holes)
    decreases |labels|
  {
    hide Quiet, Lex, Quote, Itoa;
    if labels == [] || values == [] {
      EmptyIsQuiet(holes);
    } else {
      TameIsQuiet(" = ", holes);
      TameIsQuiet(", ", holes);
      QuoteIsQuiet(labels[0], holes);
      ItoaIsQuiet(values[0], holes);
      var item := Quote(labels[0]) + " = " + Itoa(values[0]);
      Quiet3(Quote(labels[0]), " = ", Itoa(values[0]), holes);
      if |labels| > 1 {
        var rest := PrintLabels(labels[1..], values[1..]);
        LabelsAreQuiet(labels[1..], values[1..], holes);
        Quiet3(item, ", ", rest, holes);
        assert PrintLabels(labels, values) == item + ", " + rest;
      } else {
        assert PrintLabels(labels, values) == item;
      }
    }
  }

  /** Every printed type is quiet. */
  lemma {:induction false} PrintIsQuiet(t: Type, holes: bool)
    requires WellFormed(t)
    ensures Quiet(Print(t), holes)
    decreases t, 1
  {
    hide Quiet, Lex, Itoa, Quote;
    TameIsQuiet(")", holes);
    match t
    case Scalar(name) => TameIsQuiet(name, holes);
    case FixedString(n) =>
      TameIsQuiet("FixedString(", holes);
      ItoaIsQuiet(n, holes);
      Quiet3("FixedString(", Itoa(n), ")", holes);
    case Decimal(p, sc) =>
      TameIsQuiet("Decimal(", holes);
      ItoaIsQuiet(sc, holes);
      PairIsQuiet("Decimal(", p, Itoa(sc), holes);
    case DateTime(tz) =>
      TameIsQuiet("DateTime", holes);
      TameIsQuiet("DateTime(", holes);
      QuoteIsQuiet(tz, holes);
      Quiet3("DateTime(", Quote(tz), ")", holes);
    case DateTime64(p, tz) =>
      TameIsQuiet("DateTime64(", holes);
      ItoaIsQuiet(p, holes);
      Quiet3("DateTime64(", Itoa(p), ")", holes);
      QuoteIsQuiet(tz, holes);
      PairIsQuiet("DateTime64(", p, Quote(tz), holes);
    case Nullable(e) =>
      PrintIsQuiet(e, holes);
      TameIsQuiet("Nullable(", holes);
      Quiet3("Nullable(", Print(e), ")", holes);
    case LowCardinality(e) =>
      PrintIsQuiet(e, holes);
      TameIsQuiet("LowCardinality(", holes);
      Quiet3("LowCardinality(", Print(e), ")", holes);
    case Array(e) =>
      PrintIsQuiet(e, holes);
      TameIsQuiet("Array(", holes);
      Quiet3("Array(", Print(e), ")", holes);
    case Map(k, v) =>
      PrintIsQuiet(k, holes);
      PrintIsQuiet(v, holes);
      TameIsQuiet("Map(", holes);
      TameIsQuiet(", ", holes);
      Quiet3("Map(", Print(k), ", ", holes);
      Quiet3("Map(" + Print(k) + ", ", Print(v), ")", holes);
    case Enum(bits, labels, values) =>
      EnumName(bits);
      TameIsQuiet("Enum" + Itoa(bits) + "(", holes);
      LabelsAreQuiet(labels, values, holes);
      Quiet3("Enum" + Itoa(bits) + "(", PrintLabels(labels, values), ")", holes);
    case Tuple(names, elems) =>
      ElemsAreQuiet(names, elems, holes);
      TameIsQuiet("Tuple(", holes);
      Quiet3("Tuple(", PrintElems(names, elems), ")", holes);
  }

  lemma PairIsQuiet(head: string, p: int, b: string, holes: bool)
    requires Quiet(head, holes) && Quiet(b, holes)
    ensures Quiet(head + Itoa(p) + ", " + b + ")", holes)
  {
    hide Quiet, Lex, Itoa;
    TameIsQuiet(")", holes);
    TameIsQuiet(", ", holes);
    ItoaIsQuiet(p, holes);
    Quiet3(head, Itoa(p), ", ", holes);
    Quiet3(head + Itoa(p) + ", ", b, ")", holes);
  }

  lemma {:induction false} ElemsAreQuiet(names: seq<string>, elems: seq<Type>, holes: bool)
    requires (forall e <- elems :: WellFormed(e)) && (forall n <- names :: n == "" || IsIdent(n))
    ensures Quiet(PrintElems(names, elems), holes)
    decreases elems, 0
  {
    hide Quiet, Lex;
    if elems == [] {
      EmptyIsQuiet(holes);
    } else {
      var e := elems[0];
      assert e in elems;
      PrintIsQuiet(e, holes);
      TameIsQuiet(", ", holes);
      var field := FieldName(names);
      assert Tame(field) by {
        if names != [] && names[0] != "" {
          assert names[0] in names;
        }
      }
      TameIsQuiet(field, holes);
      QuietConcat(field, Print(e), holes);
      var item := field + Print(e);
      if |elems| > 1 {
        var rest := PrintElems(Rest(names), elems[1..]);
        ElemsAreQuiet(Rest(names), elems[1..], holes);
        Quiet3(item, ", ", rest, holes);
        assert PrintElems(names, elems) == item + ", " + rest;
      } else {
        assert PrintElems(names, elems) == item;
      }
    }
  }

  // ---- Printed types have no closing brace if their parts have none ----

  lemma {:induction false} EscapeIsPlain(s: string)
    requires Plain(s)
    ensures Plain(Escape(s))
  {
    if s != "" {
      EscapeIsPlain(s[1..]);
    }
  }

  lemma ItoaIsPlain(n: int)
    ensures Plain(Itoa(n))
  {
    DigitsRoundTrip(if n < 0 then -n else n);
  }

  lemma {:induction false} LabelsArePlain(labels: seq<string>, values: seq<int>)
    requires forall l <- labels :: Plain(l)
    ensures Plain(PrintLabels(labels, values))
    decreases |labels|
  {
    hide Itoa, Escape;
    if labels != [] && values != [] {
      assert labels[0] in labels;
      EscapeIsPlain(labels[0]);
      ItoaIsPlain(values[0]);
      LabelsArePlain(labels[1..], values[1..]);
    }
  }

  lemma {:induction false} PrintIsPlain(t: Type)
    requires BraceFree(t)
    ensures Plain(Print(t))
    decreases t, 1
  {
    hide Itoa, Escape;
    match t
    case FixedString(n) => ItoaIsPlain(n);
    case Decimal(p, sc) => ItoaIsPlain(p); ItoaIsPlain(sc);
    case DateTime(tz) => EscapeIsPlain(tz);
    case DateTime64(p, tz) => ItoaIsPlain(p); EscapeIsPlain(tz);
    case Nullable(e) => PrintIsPlain(e);
    case LowCardinality(e) => PrintIsPlain(e);
    case Array(e) => PrintIsPlain(e);
    case Map(k, v) => PrintIsPlain(k); PrintIsPlain(v);
    case Enum(bits, labels, values) => ItoaIsPlain(bits); LabelsArePlain(labels, values);
    case Tuple(names, elems) => ElemsArePlain(names, elems);
    case _ =>
  }

  lemma {:induction false} ElemsArePlain(names: seq<string>, elems: seq<Type>)
    requires (forall n <- names :: Plain(n)) && forall e <- elems :: BraceFree(e)
    ensures Plain(PrintElems(names, elems))
    decreases elems, 0
  {
    if elems != [] {
      assert elems[0] in elems;
      PrintIsPlain(elems[0]);
      ElemsArePlain(Rest(names), elems[1..]);
      assert names != [] ==> names[0] in names;
    }
  }
}
