/** Printing and parsing ClickHouse types undo each other, up to blanks in front of verbatim parts. */
module ChRoundTrip {
  import opened Text
  import opened ChTypes
  import opened ChGrammar
  import opened ChReads
  import opened ChVerbatim

  /** a,b */
  lemma Comma(s: string, i: nat, a: string, b: string)
    requires At(s, i, a + "," + b)
    ensures var p := i + |a|;
            && At(s, i, a) && At(s, p + 1, b) && p < |s| && s[p] == ',' && Closed(s, p)
            && Expect(s, p, ',') == Ok(p + 1) && Peek(s, p) == ','
  {
    AtSplit(s, i, a + ",", b);
    AtSplit(s, i, a, ",");
    AtChar(s, i + |a|, ",", 0);
  }

  /** A type that is not verbatim is read behind a blank as without it. */
  lemma BlankBefore(text: string, t: Type)
    requires ReadsType(text, t) && StartsSolid(text) && !t.Unsupported?
    ensures ReadsType(" " + text, t)
  {
    hide TypeAt;
    forall s: string, i: nat | At(s, i, " " + text) && Delimited(s, i + |" " + text|)
      ensures TypeAt(s, i) == Ok((t, i + |" " + text|))
    {
      AtSplit(s, i, " ", text);
      AtChar(s, i, " ", 0);
      AtChar(s, i + 1, text, 0);
      SkipsOneSpace(s, i);
      SpaceBeforeType(s, i, i + 1);
    }
  }

  // ---- Maps ----

  lemma MapReads(a: string, k: Type, b: string, v: Type)
    requires ReadsType(a, k) && ReadsType(b, v)
    ensures ReadsType("Map" + "(" + (a + "," + b) + ")", Map(k, v))
  {
    hide At, Expect, ArgumentsAt, ReadsType, IsIdent;
    var args := a + "," + b;
    forall s: string, i: nat, p: nat | Called(s, i, p, args)
      ensures ArgumentsAt(s, i, "Map", p) == Ok((Map(k, v), p + 2 + |args|))
    {
      MapArguments(s, i, p, a, k, b, v);
    }
    TypeNamesAreIdents("Map");
    CallReads("Map", args, Map(k, v));
  }

  lemma MapArguments(s: string, i: nat, p: nat, a: string, k: Type, b: string, v: Type)
    requires ReadsType(a, k) && ReadsType(b, v) && Called(s, i, p, a + "," + b)
    ensures ArgumentsAt(s, i, "Map", p) == Ok((Map(k, v), p + 2 + |a + "," + b|))
  {
    hide TypeAt, Expect, ArgumentsAt, DecimalAt, DateTime64At, TupleAt;
    Dispatch(s, i, p);
    Comma(s, p + 1, a, b);
    var c := p + 1 + |a|;
    assert TypeAt(s, p + 1) == Ok((k, c));
    assert TypeAt(s, c + 1) == Ok((v, c + 1 + |b|)) by { assert Closed(s, c + 1 + |b|); }
    ExpectAt(s, c + 1 + |b|, ')');
  }

  // ---- Tuples ----

  ghost predicate ReadsField(text: string, name: string, elem: Type) {
    forall s: string, i: nat {:trigger At(s, i, text)} :: At(s, i, text) && Closed(s, i + |text|) ==>
      TupleItem(s, i) == Ok(((name, elem), i + |text|)) && (NamesField(s, i) <==> name != "")
  }

  /** The text, followed by a closing bracket, reads as these elements behind any others. */
  ghost predicate ReadsFields(text: string, names: seq<string>, elems: seq<Type>) {
    forall s: string, i: nat, n0: seq<string>, e0: seq<Type>, named: bool {:trigger At(s, i, text),
      TupleItems(s, i, n0, e0, named)} ::
      i <= |s| && At(s, i, text) && At(s, i + |text|, ")") ==>
      TupleItems(s, i, n0, e0, named) ==
      Ok((Tuple(if named || HasName(names) then n0 + names else [], e0 + elems), i + |text| + 1))
  }

  predicate HasName(names: seq<string>) {
    exists n <- names :: n != ""
  }

  lemma PositionalReads(text: string, elem: Type)
    requires ReadsType(text, elem)
    ensures ReadsField(text, "", elem)
  {
    forall s: string, i: nat | At(s, i, text) && Closed(s, i + |text|)
      ensures TupleItem(s, i) == Ok((("", elem), i + |text|)) && !NamesField(s, i)
    {
      assert TypeAt(s, i) == Ok((elem, i + |text|));
      PositionalAt(s, i, i + |text|);
    }
  }

  /** A type that ends where an element does is not taken for a field name. */
  lemma PositionalAt(s: string, i: nat, end: nat)
    requires i <= |s| && TypeAt(s, i).Ok? && TypeAt(s, i).value.1 == end && Closed(s, end)
    ensures !NamesField(s, i) && IdentAt(s, i).Ok?
  {
    hide IdentAt, ArgumentsAt;
    var (_, e) := IdentAt(s, i).value;
    var p := SkipSpace(s, e);
    assert p < |s| && s[p] != '(' ==> p == end;
  }

  lemma FieldReads(name: string, text: string, elem: Type)
    requires IsIdent(name) && ReadsType(text, elem) && text != "" && IsIdentChar(text[0])
    ensures ReadsField(name + " " + text, name, elem)
  {
    hide TypeAt, IdentAt;
    var whole := name + " " + text;
    forall s: string, i: nat | At(s, i, whole) && Closed(s, i + |whole|)
      ensures TupleItem(s, i) == Ok(((name, elem), i + |whole|)) && NamesField(s, i)
    {
      AtSplit(s, i, name + " ", text);
      AtSplit(s, i, name, " ");
      var p := i + |name|;
      AtChar(s, p, " ", 0);
      AtChar(s, p + 1, text, 0);
      IdentReads(s, i, name);
      SkipsOneSpace(s, p);
    }
  }

  /** A named field is read behind a blank as without it. */
  lemma BlankBeforeField(text: string, name: string, elem: Type)
    requires ReadsField(text, name, elem) && StartsSolid(text) && name != ""
    ensures ReadsField(" " + text, name, elem)
  {
    hide TypeAt, IdentAt;
    forall s: string, i: nat | At(s, i, " " + text) && Closed(s, i + |" " + text|)
      ensures TupleItem(s, i) == Ok(((name, elem), i + |" " + text|)) && NamesField(s, i)
    {
      AtSplit(s, i, " ", text);
      AtChar(s, i, " ", 0);
      AtChar(s, i + 1, text, 0);
      SkipsOneSpace(s, i);
      SpaceBeforeToken(s, i, i + 1);
      assert NamesField(s, i + 1);
    }
  }

  lemma LastFieldReads(text: string, name: string, elem: Type)
    requires ReadsField(text, name, elem)
    ensures ReadsFields(text, [name], [elem])
  {
    hide TupleItem, NamesField;
    forall s: string, i: nat, n0: seq<string>, e0: seq<Type>, named: bool | At(s, i, text) && At(s, i + |text|, ")")
      ensures TupleItems(s, i, n0, e0, named) ==
        Ok((Tuple(if named || HasName([name]) then n0 + [name] else [], e0 + [elem]), i + |text| + 1))
    {
      AtChar(s, i + |text|, ")", 0);
      ExpectAt(s, i + |text|, ')');
      assert HasName([name]) <==> name != "" by { assert name in [name]; }
    }
  }

  lemma FieldAt(text: string, name: string, elem: Type, s: string, i: nat)
    requires ReadsField(text, name, elem) && At(s, i, text) && Closed(s, i + |text|)
    ensures TupleItem(s, i) == Ok(((name, elem), i + |text|)) && (NamesField(s, i) <==> name != "")
  {
    hide TupleItem, NamesField;
  }

  lemma FieldsAt(
    text: string, names: seq<string>, elems: seq<Type>, s: string, i: nat, n0: seq<string>, e0: seq<Type>, named: bool)
    requires ReadsFields(text, names, elems) && At(s, i, text) && At(s, i + |text|, ")")
    ensures TupleItems(s, i, n0, e0, named) ==
      Ok((Tuple(if named || HasName(names) then n0 + names else [], e0 + elems), i + |text| + 1))
  {
    hide TupleItems, HasName;
  }

  lemma FieldsStep(s: string, i: nat, p: nat, n0: seq<string>, e0: seq<Type>, named: bool)
    requires i <= p < |s| && TupleItem(s, i).Ok? && TupleItem(s, i).value.1 == p
    requires Peek(s, p) == ',' && Expect(s, p, ',') == Ok(p + 1)
    ensures var (name, elem) := TupleItem(s, i).value.0;
            TupleItems(s, i, n0, e0, named) == TupleItems(s, p + 1, n0 + [name], e0 + [elem], named || NamesField(s, i))
  {
    hide TupleItem, NamesField, Peek, Expect;
  }

  lemma MoreFieldsAt(
    text: string, name: string, elem: Type, rest: string, names: seq<string>, elems: seq<Type>,
    s: string, i: nat, n0: seq<string>, e0: seq<Type>, named: bool)
    requires ReadsField(text, name, elem) && ReadsFields(rest, names, elems)
    requires At(s, i, text + "," + rest) && At(s, i + |text + "," + rest|, ")")
    ensures TupleItems(s, i, n0, e0, named) ==
      Ok((Tuple(if named || name != "" || HasName(names) then n0 + [name] + names else [], e0 + [elem] + elems),
          i + |text + "," + rest| + 1))
  {
    hide At, HasName, TupleItem, NamesField, TupleItems, Expect, Peek, ReadsField, ReadsFields;
    Comma(s, i, text, rest);
    FieldAt(text, name, elem, s, i);
    FieldsStep(s, i, i + |text|, n0, e0, named);
    FieldsAt(rest, names, elems, s, i + |text| + 1, n0 + [name], e0 + [elem], named || name != "");
  }

  lemma MoreFieldsRead(text: string, name: string, elem: Type, rest: string, names: seq<string>, elems: seq<Type>)
    requires ReadsField(text, name, elem) && ReadsFields(rest, names, elems)
    ensures ReadsFields(text + "," + rest, [name] + names, [elem] + elems)
  {
    var whole := text + "," + rest;
    HasNameCons(name, names);
    hide At, HasName, TupleItems, ReadsField;
    forall s: string, i: nat, n0: seq<string>, e0: seq<Type>, named: bool | i <= |s| && At(s, i, whole)
      && At(s, i + |whole|, ")")
      ensures TupleItems(s, i, n0, e0, named) ==
        Ok((Tuple(if named || HasName([name] + names) then n0 + ([name] + names) else [],
          e0 + ([elem] + elems)), i + |whole| + 1))
    {
      MoreFieldsAt(text, name, elem, rest, names, elems, s, i, n0, e0, named);
      assert n0 + [name] + names == n0 + ([name] + names) && e0 + [elem] + elems == e0 + ([elem] + elems);
    }
  }

  lemma HasNameCons(name: string, names: seq<string>)
    ensures HasName([name] + names) <==> name != "" || HasName(names)
  {
    if HasName([name] + names) {
      var n :| n in [name] + names && n != "";
      assert n == name || n in names;
    }
    if HasName(names) {
      var n :| n in names && n != "";
      assert n in [name] + names;
    }
    assert name in [name] + names;
  }

  lemma TupleReads(a: string, names: seq<string>, elems: seq<Type>)
    requires ReadsFields(a, names, elems)
    ensures ReadsType("Tuple" + "(" + a + ")", Tuple(if HasName(names) then names else [], elems))
  {
    hide At, Expect, ArgumentsAt, ReadsType, ReadsFields, HasName, IsIdent;
    var t := Tuple(if HasName(names) then names else [], elems);
    forall s: string, i: nat, p: nat | Called(s, i, p, a) ensures ArgumentsAt(s, i, "Tuple", p) ==
      Ok((t, p + 2 + |a|)) {
      TupleArguments(s, i, p, a, names, elems);
    }
    TypeNamesAreIdents("Tuple");
    CallReads("Tuple", a, t);
  }

  lemma TupleArguments(s: string, i: nat, p: nat, a: string, names: seq<string>, elems: seq<Type>)
    requires ReadsFields(a, names, elems) && Called(s, i, p, a)
    ensures ArgumentsAt(s, i, "Tuple", p) == Ok((Tuple(if HasName(names) then names else [], elems), p + 2 + |a|))
  {
    hide ArgumentsAt, ReadsFields, TupleItems, HasName, Expect, At, MapAt, DecimalAt, DateTime64At;
    Dispatch(s, i, p);
    CloseAt(s, p + 1 + |a|);
    FieldsAt(a, names, elems, s, p + 1, [], [], false);
    assert [] + names == names && [] + elems == elems;
  }

  // ---- Leaves ----

  /** A printed type starts with a letter, digit or underscore. */
  lemma PrintStarts(t: Type)
    requires Readable(t) && Solid(t)
    ensures Print(t) != "" && IsIdentChar(Print(t)[0])
  {
    if t.Unsupported? {
      SolidVerbatim(t.raw);
    } else {
      hide Itoa, Quote, PrintLabels, PrintElems;
      assert t.Scalar? ==> t.name[0] in t.name;
    }
  }

  lemma FixedStringPrintReads(n: int)
    requires IsInt(n)
    ensures ReadsType(Print(FixedString(n)), FixedString(n))
  {
    hide ReadsType, ReadsInt, Itoa;
    ItoaReads(n);
    FixedStringReads(Itoa(n), n);
    assert Print(FixedString(n)) == "FixedString" + "(" + Itoa(n) + ")";
  }

  lemma DecimalPrintReads(p: int, sc: int)
    requires IsInt(p) && IsInt(sc)
    ensures ReadsType(Print(Decimal(p, sc)), Decimal(p, sc))
  {
    hide ReadsType, ReadsInt, Itoa;
    ItoaReads(p);
    ItoaReads(sc);
    DecimalReads(Itoa(p), p, Itoa(sc), sc);
    assert Print(Decimal(p, sc)) == "Decimal" + "(" + (Itoa(p) + ", " + Itoa(sc)) + ")";
  }

  lemma DateTimePrintReads(tz: string)
    ensures ReadsType(Print(DateTime(tz)), DateTime(tz))
  {
    hide ReadsType, ReadsString, Quote;
    if tz == "" {
      TypeNamesAreIdents("DateTime");
      NameReads("DateTime");
    } else {
      QuoteReads(tz);
      DateTimeReads(Quote(tz), tz);
      assert Print(DateTime(tz)) == "DateTime" + "(" + Quote(tz) + ")";
    }
  }

  lemma DateTime64PrintReads(p: int, tz: string)
    requires IsInt(p)
    ensures ReadsType(Print(DateTime64(p, tz)), DateTime64(p, tz))
  {
    hide ReadsType, ReadsInt, ReadsString, Itoa;
    ItoaReads(p);
    if tz == "" {
      DateTime64Reads(Itoa(p), p);
      assert Print(DateTime64(p, tz)) == "DateTime64" + "(" + Itoa(p) + ")";
    } else {
      QuoteReads(tz);
      DateTime64ZoneReads(Itoa(p), p, Quote(tz), tz);
      assert Print(DateTime64(p, tz)) == "DateTime64" + "(" + (Itoa(p) + ", " + Quote(tz)) + ")";
    }
  }

  lemma EnumPrintReads(bits: int, labels: seq<string>, values: seq<int>)
    requires WellFormed(Enum(bits, labels, values))
    ensures ReadsType(Print(Enum(bits, labels, values)), Enum(bits, labels, values))
  {
    hide ReadsType, ReadsItems;
    LabelsRead(bits, labels, values);
    EnumName(bits);
    EnumReads("Enum" + Itoa(bits), bits, PrintLabels(labels, values), labels, values);
  }

  lemma LeafReads(t: Type)
    requires WellFormed(t)
    requires t.Scalar? || t.FixedString? || t.Decimal? || t.DateTime? || t.DateTime64? || t.Enum?
    ensures ReadsType(Print(t), t)
  {
    match t
    case Scalar(name) => NameReads(name);
    case FixedString(n) => FixedStringPrintReads(n);
    case Decimal(p, sc) => DecimalPrintReads(p, sc);
    case DateTime(tz) => DateTimePrintReads(tz);
    case DateTime64(p, tz) => DateTime64PrintReads(p, tz);
    case Enum(bits, labels, values) => EnumPrintReads(bits, labels, values);
  }

  // ---- Every type ----

  /** The printed form of every readable type reads as that type, with its verbatim parts spaced. */
  lemma {:induction false} PrintReads(t: Type)
    requires Readable(t)
    ensures ReadsType(Print(t), Spaced(t))
    decreases t, 1
  {
    hide ReadsType, ReadsFields, IsIdent, FieldName, Quote, Itoa, PrintElems, PrintLabels, IsVerbatim, WellFormed,
      SpacedElems, AllNames, Blank;
    match t
    case Nullable(e) =>
      PrintReads(e);
      WrapperReads("Nullable", Print(e), Spaced(e));
      assert Print(t) == "Nullable" + "(" + Print(e) + ")";
    case LowCardinality(e) =>
      PrintReads(e);
      WrapperReads("LowCardinality", Print(e), Spaced(e));
      assert Print(t) == "LowCardinality" + "(" + Print(e) + ")";
    case Array(e) =>
      PrintReads(e);
      WrapperReads("Array", Print(e), Spaced(e));
      assert Print(t) == "Array" + "(" + Print(e) + ")";
    case Map(k, v) =>
      PrintReads(k);
      PrintReadsBehind(v);
      MapReads(Print(k), Spaced(k), " " + Print(v), Behind(v));
      assert Print(t) == "Map" + "(" + (Print(k) + "," + (" " + Print(v))) + ")";
    case Tuple(names, elems) =>
      ElemsRead(names, elems, false);
      TuplePrintReads(names, elems);
    case Unsupported(raw) =>
      VerbatimReads(raw);
    case _ =>
      LeafReads(t);
  }

  lemma NamedOrNot(names: seq<string>, elems: seq<Type>)
    requires Readable(Tuple(names, elems))
    ensures (if HasName(AllNames(names, elems)) then AllNames(names, elems) else []) == names
  {
  }

  lemma TuplePrintReads(names: seq<string>, elems: seq<Type>)
    requires Readable(Tuple(names, elems))
    requires ReadsFields(Blank(false) + PrintElems(names, elems), AllNames(names, elems), SpacedElems(names,
             elems, false))
    ensures ReadsType(Print(Tuple(names, elems)), Spaced(Tuple(names, elems)))
  {
    hide ReadsType, ReadsFields, PrintElems, SpacedElems, Readable, AllNames, HasName;
    assert Blank(false) + PrintElems(names, elems) == PrintElems(names, elems);
    TupleReads(PrintElems(names, elems), AllNames(names, elems), SpacedElems(names, elems, false));
    NamedOrNot(names, elems);
    assert Print(Tuple(names, elems)) == "Tuple" + "(" + PrintElems(names, elems) + ")";
  }

  lemma {:induction false} PrintReadsBehind(t: Type)
    requires Readable(t)
    ensures ReadsType(" " + Print(t), Behind(t))
    decreases t, 2
  {
    hide ReadsType, IsVerbatim;
    if t.Unsupported? {
      assert IsVerbatim(t.raw);
      BlankBeforeVerbatim(t.raw);
      VerbatimReads(" " + t.raw);
    } else {
      PrintReads(t);
      PrintStarts(t);
      BlankBefore(Print(t), Spaced(t));
    }
  }

  /** The field names with one entry per element, as the parser collects them. */
  function AllNames(names: seq<string>, elems: seq<Type>): seq<string> {
    if names == [] then seq(|elems|, _ => "") else names
  }

  function ElemText(names: seq<string>, elems: seq<Type>): string
    requires elems != []
  {
    FieldName(names) + Print(elems[0])
  }

  ghost predicate FieldsOk(names: seq<string>, elems: seq<Type>) {
    && elems != [] && (names == [] || |names| == |elems|)
    && (forall e <- elems :: Readable(e)) && (forall n <- names :: n == "" || IsIdent(n))
    && forall i :: 0 <= i < |names| && i < |elems| && names[i] != "" ==> Solid(elems[i])
  }

  function Blank(behind: bool): string {
    if behind then " " else ""
  }

  lemma {:induction false} ElemReads(names: seq<string>, elems: seq<Type>, behind: bool)
    requires FieldsOk(names, elems)
    ensures ReadsField(Blank(behind) + ElemText(names, elems), AllNames(names, elems)[0], SpacedElems(names,
            elems, behind)[0])
    decreases elems, 0
  {
    hide ReadsType, ReadsField, Print, Spaced;
    var e := elems[0];
    assert e in elems;
    if names == [] || names[0] == "" {
      assert ElemText(names, elems) == Print(e);
      if behind {
        PrintReadsBehind(e);
        PositionalReads(" " + Print(e), Behind(e));
      } else {
        PrintReads(e);
        PositionalReads(Print(e), Spaced(e));
        assert "" + Print(e) == Print(e);
      }
    } else {
      assert names[0] in names && names[0][0] in names[0];
      PrintReads(e);
      PrintStarts(e);
      FieldReads(names[0], Print(e), Spaced(e));
      assert ElemText(names, elems) == names[0] + " " + Print(e);
      if behind {
        BlankBeforeField(ElemText(names, elems), names[0], Spaced(e));
      } else {
        assert "" + ElemText(names, elems) == ElemText(names, elems);
      }
    }
  }

  lemma ElemsSplit(names: seq<string>, elems: seq<Type>, behind: bool)
    requires FieldsOk(names, elems)
    ensures var all, spaced, text := AllNames(names, elems), SpacedElems(names, elems, behind),
            PrintElems(names, elems);
            if |elems| == 1 then all == [all[0]] && spaced == [spaced[0]] && text == ElemText(names, elems)
            else
              && FieldsOk(Rest(names), elems[1..]) && all == [all[0]] + AllNames(Rest(names), elems[1..])
              && spaced == [spaced[0]] + SpacedElems(Rest(names), elems[1..], true)
              && text == ElemText(names, elems) + ", " + PrintElems(Rest(names), elems[1..])
  {
    hide Print, FieldName, Behind, Spaced, Readable, IsIdent;
  }

  lemma {:induction false} ElemsRead(names: seq<string>, elems: seq<Type>, behind: bool)
    requires elems != [] && FieldsOk(names, elems)
    ensures ReadsFields(Blank(behind) + PrintElems(names, elems), AllNames(names, elems), SpacedElems(names,
            elems, behind))
    decreases elems, 2
  {
    hide ReadsField, ReadsFields, ElemText, PrintElems, AllNames, SpacedElems, FieldsOk, Rest;
    var text, all, spaced := Blank(behind) + ElemText(names, elems), AllNames(names, elems), SpacedElems(names,
      elems, behind);
    ElemsSplit(names, elems, behind);
    ElemReads(names, elems, behind);
    if |elems| == 1 {
      LastFieldReads(text, all[0], spaced[0]);
    } else {
      ElemsRead(Rest(names), elems[1..], true);
      var rest := " " + PrintElems(Rest(names), elems[1..]);
      MoreFieldsRead(text, all[0], spaced[0], rest, AllNames(Rest(names), elems[1..]), SpacedElems(Rest(names),
        elems[1..], true));
      assert Blank(behind) + PrintElems(names, elems) == text + "," + rest;
    }
  }

  /** Parsing a printed type gives back the type, with its verbatim parts spaced. */
  lemma ParsePrintSpaces(t: Type)
    requires Readable(t)
    ensures Parse(Print(t)) == Ok(Spaced(t))
  {
    hide TypeAt;
    PrintReads(t);
    assert At(Print(t), 0, Print(t));
  }
}
