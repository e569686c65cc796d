/** What the parser returns is readable, so that the printed form of a parsed type is its identity. */
module ChIdentity {
  import opened Text
  import opened ChTypes
  import opened ChGrammar
  import opened ChReads
  import opened ChVerbatim
  import opened ChRoundTrip

  predicate Plain(s: string) {
    '}' !in s
  }

  /** No closing brace occurs in any label, time zone or name of the type. */
  predicate BraceFree(t: Type) {
    match t
    case Scalar(name) => Plain(name)
    case DateTime(tz) => Plain(tz)
    case DateTime64(_, tz) => Plain(tz)
    case Nullable(e) => BraceFree(e)
    case LowCardinality(e) => BraceFree(e)
    case Array(e) => BraceFree(e)
    case Map(k, v) => BraceFree(k) && BraceFree(v)
    case Enum(_, labels, _) => forall l <- labels :: Plain(l)
    case Tuple(names, elems) => (forall n <- names :: Plain(n)) && forall e <- elems :: BraceFree(e)
    case Unsupported(raw) => Plain(raw)
    case _ => true
  }

  /** Readable, and free of closing braces if the text was. */
  ghost predicate Sound(s: string, t: Type) {
    Readable(t) && (Plain(s) ==> BraceFree(t))
  }

  lemma {:induction false} IdentEndIsIdent(s: string, i: nat)
    requires i <= |s|
    ensures forall k :: i <= k < IdentEnd(s, i) ==> IsIdentChar(s[k])
    decreases |s| - i
  {
    if i < |s| && IsIdentChar(s[i]) {
      IdentEndIsIdent(s, i + 1);
    }
  }

  lemma IdentIsIdent(s: string, i: nat)
    requires i <= |s| && IdentAt(s, i).Ok?
    ensures IsIdent(IdentAt(s, i).value.0) && (Plain(s) ==> Plain(IdentAt(s, i).value.0))
  {
    IdentEndIsIdent(s, SkipSpace(s, i));
  }

  lemma {:induction false} BodyIsPlain(s: string, i: nat, acc: string)
    requires i <= |s| && StringBody(s, i, acc).Ok? && Plain(s) && Plain(acc)
    ensures Plain(StringBody(s, i, acc).value.0)
    decreases |s| - i
  {
    if s[i] == '\\' {
      BodyIsPlain(s, i + 2, acc + [Unescape(s[i + 1])]);
    } else if s[i] != '\'' {
      BodyIsPlain(s, i + 1, acc + [s[i]]);
    }
  }

  lemma StringIsPlain(s: string, i: nat)
    requires i <= |s| && StringAt(s, i).Ok?
    ensures Plain(s) ==> Plain(StringAt(s, i).value.0)
  {
    if Plain(s) {
      BodyIsPlain(s, Expect(s, i, '\'').value, "");
    }
  }

  /** Everything the grammar reads as a type is sound. */
  lemma {:induction false} TypeIsSound(s: string, i: nat)
    requires i <= |s| && TypeAt(s, i).Ok?
    ensures Sound(s, TypeAt(s, i).value.0)
    decreases |s| - i, 1
  {
    hide Sound, ArgumentsAt, IdentAt, SkipSpace;
    var (name, e) := IdentAt(s, i).value;
    IdentIsIdent(s, i);
    var p := SkipSpace(s, e);
    if p == |s| || s[p] != '(' {
      BareIsSound(s, name);
    } else {
      ArgumentsAreSound(s, i, name, e, p);
    }
  }

  lemma BareIsSound(s: string, name: string)
    requires IsIdent(name) && (Plain(s) ==> Plain(name))
    ensures Sound(s, BareType(name))
  {
  }

  lemma {:induction false} ArgumentsAreSound(s: string, i: nat, name: string, e: nat, p: nat)
    requires i < e <= p < |s| && IdentAt(s, i) == Ok((name, e)) && SkipSpace(s, e) == p && s[p] == '('
    requires ArgumentsAt(s, i, name, p).Ok?
    ensures Sound(s, ArgumentsAt(s, i, name, p).value.0)
    decreases |s| - i, 0
  {
    hide ParenType, MapAt, DecimalAt, ParenInt, ParenString, DateTime64At, EnumAt, TupleAt, BalancedAt, IsVerbatim,
      IdentAt, SkipSpace;
    if !IsKnown(name) {
      KeptIsSound(s, i, name, e, p);
      return;
    }
    if IsWrapper(name) {
      ParenTypeIsSound(s, p);
    } else if name == "Map" {
      MapIsSound(s, p);
    } else if name == "Decimal" {
      DecimalIsSound(s, p);
    } else if name == "DateTime" {
      ParenStringIsPlain(s, p);
    } else if name == "DateTime64" {
      DateTime64IsSound(s, p);
    } else if name == "Enum8" {
      EnumIsSound(s, p, 8);
    } else if name == "Enum16" {
      EnumIsSound(s, p, 16);
    } else if name == "Tuple" {
      TupleIsSound(s, p);
    }
  }

  lemma KeptIsSound(s: string, i: nat, name: string, e: nat, p: nat)
    requires i < e <= p < |s| && IdentAt(s, i) == Ok((name, e)) && SkipSpace(s, e) == p && s[p] == '(' && !IsKnown(name)
    requires ArgumentsAt(s, i, name, p).Ok?
    ensures Sound(s, ArgumentsAt(s, i, name, p).value.0)
  {
    hide IdentAt, Balanced, IsVerbatim;
    assert SkipSpace(s, p) == p;
    var end := Balanced(s, p + 1, 1).value;
    assert ArgumentsAt(s, i, name, p) == Ok((Unsupported(s[i..end]), end));
    KeptIsVerbatim(s, i, end, name, e, p);
  }

  /** A verbatim text starts where the type does. */
  lemma KeptStarts(s: string, i: nat)
    requires i < |s| && !IsBlank(s[i]) && TypeAt(s, i).Ok?
    ensures Solid(TypeAt(s, i).value.0)
  {
    hide IdentAt, Balanced, ParenType, MapAt, ParenInt, DecimalAt, ParenString, DateTime64At;
    var (name, e) := IdentAt(s, i).value;
    var p := SkipSpace(s, e);
    if p < |s| && s[p] == '(' {
      ListsAreSupported(s, p);
    }
  }

  lemma ListsAreSupported(s: string, p: nat)
    requires p <= |s|
    ensures MapAt(s, p).Ok? ==> !MapAt(s, p).value.0.Unsupported?
    ensures DecimalAt(s, p).Ok? ==> !DecimalAt(s, p).value.0.Unsupported?
    ensures DateTime64At(s, p).Ok? ==> !DateTime64At(s, p).value.0.Unsupported?
    ensures forall bits :: EnumAt(s, p, bits).Ok? ==> !EnumAt(s, p, bits).value.0.Unsupported?
    ensures TupleAt(s, p).Ok? ==> !TupleAt(s, p).value.0.Unsupported?
  {
    hide Expect, TypeAt, IntAt, StringAt, Peek, EnumItems, TupleItems;
    if Expect(s, p, '(').Ok? {
      var e := Expect(s, p, '(').value;
      forall bits {
        ItemsAreEnum(s, e, bits, [], []);
      }
      ItemsAreTuple(s, e, [], [], false);
    }
  }

  lemma {:induction false} ItemsAreEnum(s: string, i: nat, bits: int, labels: seq<string>, values: seq<int>)
    requires i <= |s|
    ensures EnumItems(s, i, bits, labels, values).Ok? ==> EnumItems(s, i, bits, labels, values).value.0.Enum?
    decreases |s| - i
  {
    hide EnumItem, Peek, Expect;
    if EnumItem(s, i, bits).Ok? {
      var ((lab, v), e) := EnumItem(s, i, bits).value;
      if Expect(s, e, ',').Ok? {
        ItemsAreEnum(s, Expect(s, e, ',').value, bits, labels + [lab], values + [v]);
      }
    }
  }

  lemma {:induction false} ItemsAreTuple(s: string, i: nat, names: seq<string>, elems: seq<Type>, named: bool)
    requires i <= |s|
    ensures TupleItems(s, i, names, elems, named).Ok? ==> TupleItems(s, i, names, elems, named).value.0.Tuple?
    decreases |s| - i
  {
    hide TupleItem, NamesField, Peek, Expect;
    if TupleItem(s, i).Ok? {
      var ((name, elem), e) := TupleItem(s, i).value;
      if Expect(s, e, ',').Ok? {
        ItemsAreTuple(s, Expect(s, e, ',').value, names + [name], elems + [elem], named || NamesField(s, i));
      }
    }
  }

  lemma {:induction false} ParenTypeIsSound(s: string, p: nat)
    requires p <= |s| && ParenType(s, p).Ok?
    ensures Sound(s, ParenType(s, p).value.0)
    decreases |s| - p, 0
  {
    hide TypeAt, Sound;
    TypeIsSound(s, Expect(s, p, '(').value);
  }

  lemma ParenStringIsPlain(s: string, p: nat)
    requires p <= |s| && ParenString(s, p).Ok?
    ensures Plain(s) ==> Plain(ParenString(s, p).value.0)
  {
    hide StringAt;
    StringIsPlain(s, Expect(s, p, '(').value);
  }

  lemma DecimalIsSound(s: string, p: nat)
    requires p <= |s| && DecimalAt(s, p).Ok?
    ensures Sound(s, DecimalAt(s, p).value.0)
  {
    hide Expect, Atoi, DigitsEnd, SkipSpace;
  }

  lemma DateTime64IsSound(s: string, p: nat)
    requires p <= |s| && DateTime64At(s, p).Ok?
    ensures Sound(s, DateTime64At(s, p).value.0)
  {
    hide StringAt, Atoi, DigitsEnd, SkipSpace;
    var (prec, e) := IntAt(s, Expect(s, p, '(').value).value;
    if Peek(s, e) == ',' {
      StringIsPlain(s, Expect(s, e, ',').value);
    }
  }

  lemma {:induction false} MapIsSound(s: string, p: nat)
    requires p <= |s| && MapAt(s, p).Ok?
    ensures Sound(s, MapAt(s, p).value.0)
    decreases |s| - p, 0
  {
    hide TypeAt, Expect;
    var o := Expect(s, p, '(').value;
    TypeIsSound(s, o);
    var c := Expect(s, TypeAt(s, o).value.1, ',').value;
    TypeIsSound(s, c);
  }

  lemma EnumIsSound(s: string, p: nat, bits: int)
    requires p <= |s| && (bits == 8 || bits == 16) && EnumAt(s, p, bits).Ok?
    ensures Sound(s, EnumAt(s, p, bits).value.0)
  {
    EnumItemsAreSound(s, Expect(s, p, '(').value, bits, [], []);
  }

  lemma {:induction false} EnumItemsAreSound(s: string, i: nat, bits: int, labels: seq<string>, values: seq<int>)
    requires i <= |s| && (bits == 8 || bits == 16) && EnumItems(s, i, bits, labels, values).Ok?
    requires |labels| == |values| && (forall v <- values :: InRange(bits, v))
    requires (Plain(s) ==> forall l <- labels :: Plain(l))
    ensures Sound(s, EnumItems(s, i, bits, labels, values).value.0)
    decreases |s| - i
  {
    hide EnumItem, Expect, Peek;
    var ((lab, v), e) := EnumItem(s, i, bits).value;
    EnumItemIsPlain(s, i, bits);
    if Peek(s, e) == ',' {
      EnumItemsAreSound(s, Expect(s, e, ',').value, bits, labels + [lab], values + [v]);
    }
  }

  lemma EnumItemIsPlain(s: string, i: nat, bits: int)
    requires i <= |s| && EnumItem(s, i, bits).Ok?
    ensures Plain(s) ==> Plain(EnumItem(s, i, bits).value.0.0)
  {
    hide StringAt, IntAt, Expect;
    StringIsPlain(s, i);
  }

  /** The names and elements collected so far. */
  ghost predicate SoundFields(s: string, names: seq<string>, elems: seq<Type>, named: bool) {
    && |names| == |elems| && (named <==> HasName(names))
    && (forall n <- names :: (n == "" || IsIdent(n)) && (Plain(s) ==> Plain(n)))
    && (forall e <- elems :: Sound(s, e))
    && forall i :: 0 <= i < |names| && names[i] != "" ==> Solid(elems[i])
  }

  lemma {:induction false} TupleIsSound(s: string, p: nat)
    requires p <= |s| && TupleAt(s, p).Ok?
    ensures Sound(s, TupleAt(s, p).value.0)
    decreases |s| - p, 0
  {
    hide TupleItems, Expect;
    TupleItemsAreSound(s, Expect(s, p, '(').value, [], [], false);
  }

  lemma {:induction false} TupleItemIsSound(s: string, i: nat)
    requires i <= |s| && TupleItem(s, i).Ok?
    ensures var (name, elem) := TupleItem(s, i).value.0;
            && Sound(s, elem) && (name == "" || IsIdent(name)) && (Plain(s) ==> Plain(name))
            && (NamesField(s, i) <==> name != "") && (name != "" ==> Solid(elem))
    decreases |s| - i, 2
  {
    hide TypeAt, Sound, IdentAt, Solid;
    IdentIsIdent(s, i);
    if NamesField(s, i) {
      var j := SkipSpace(s, IdentAt(s, i).value.1);
      TypeIsSound(s, j);
      TypeStarts(s, j);
      KeptStarts(s, j);
    } else {
      TypeIsSound(s, i);
    }
  }

  lemma TypeStarts(s: string, i: nat)
    requires i <= |s| && TypeAt(s, i).Ok?
    ensures i < |s|
  {
  }

  lemma FinishedTupleIsSound(s: string, names: seq<string>, elems: seq<Type>, named: bool)
    requires SoundFields(s, names, elems, named) && elems != []
    ensures Sound(s, Tuple(if named then names else [], elems))
  {
  }

  lemma SoundFieldsAppend(s: string, names: seq<string>, elems: seq<Type>, named: bool, name: string, elem: Type)
    requires SoundFields(s, names, elems, named) && Sound(s, elem) && (name != "" ==> Solid(elem))
    requires (name == "" || IsIdent(name)) && (Plain(s) ==> Plain(name))
    ensures SoundFields(s, names + [name], elems + [elem], named || name != "")
  {
    hide Sound;
    if named || name != "" {
      assert name in names + [name];
      assert HasName(names + [name]) by {
        if named {
          var n :| n in names && n != "";
          assert n in names + [name];
        }
      }
    }
  }

  lemma {:induction false} TupleItemsAreSound(s: string, i: nat, names: seq<string>, elems: seq<Type>, named: bool)
    requires i <= |s| && TupleItems(s, i, names, elems, named).Ok? && SoundFields(s, names, elems, named)
    ensures Sound(s, TupleItems(s, i, names, elems, named).value.0)
    decreases |s| - i, 3
  {
    hide TupleItem, NamesField, Expect, Peek, Sound, SoundFields, Solid, IsIdent, Plain;
    var ((name, elem), e) := TupleItem(s, i).value;
    TupleItemIsSound(s, i);
    SoundFieldsAppend(s, names, elems, named, name, elem);
    if Peek(s, e) == ',' {
      TupleItemsAreSound(s, Expect(s, e, ',').value, names + [name], elems + [elem], named || name != "");
    } else {
      FinishedTupleIsSound(s, names + [name], elems + [elem], named || name != "");
    }
  }

  // ---- What spacing does ----

  lemma {:induction false} WellFormedIsReadable(t: Type)
    requires WellFormed(t)
    ensures Readable(t) && Supported(t) && !t.Unsupported?
  {
    match t
    case Nullable(e) => WellFormedIsReadable(e);
    case LowCardinality(e) => WellFormedIsReadable(e);
    case Array(e) => WellFormedIsReadable(e);
    case Map(k, v) => WellFormedIsReadable(k); WellFormedIsReadable(v);
    case Tuple(names, elems) =>
      forall e <- elems ensures Readable(e) && Supported(e) && !e.Unsupported? {
        WellFormedIsReadable(e);
      }
      assert forall i :: 0 <= i < |elems| ==> elems[i] in elems;
    case _ =>
  }

  lemma {:induction false} ReadableIsWellFormed(t: Type)
    requires Readable(t) && Supported(t)
    ensures WellFormed(t)
  {
    match t
    case Nullable(e) => ReadableIsWellFormed(e);
    case LowCardinality(e) => ReadableIsWellFormed(e);
    case Array(e) => ReadableIsWellFormed(e);
    case Map(k, v) => ReadableIsWellFormed(k); ReadableIsWellFormed(v);
    case Tuple(names, elems) =>
      forall e <- elems ensures WellFormed(e) {
        ReadableIsWellFormed(e);
      }
    case _ =>
  }

  lemma {:induction false} SupportedIsSettled(t: Type)
    requires Supported(t)
    ensures Settled(t)
  {
    match t
    case Nullable(e) => SupportedIsSettled(e);
    case LowCardinality(e) => SupportedIsSettled(e);
    case Array(e) => SupportedIsSettled(e);
    case Map(k, v) => SupportedIsSettled(k); SupportedIsSettled(v);
    case Tuple(names, elems) =>
      forall e <- elems ensures Settled(e) {
        SupportedIsSettled(e);
      }
      assert forall i :: 0 <= i < |elems| ==> elems[i] in elems;
    case _ =>
  }

  /** Every element is settled, and none that is separated by a blank is verbatim. */
  ghost predicate SettledElems(names: seq<string>, elems: seq<Type>, behind: bool) {
    && (forall e <- elems :: Settled(e))
    && forall i :: 0 <= i < |elems| && (i > 0 || behind) && elems[i].Unsupported? ==> i < |names| && names[i] != ""
  }

  lemma SettledCons(names: seq<string>, elems: seq<Type>, behind: bool)
    requires elems != []
    ensures SettledElems(names, elems, behind) <==>
            && Settled(elems[0]) && (behind && FieldName(names) == "" ==> !elems[0].Unsupported?)
            && SettledElems(Rest(names), elems[1..], true)
  {
    hide Settled;
    assert elems[0] in elems && forall e :: e in elems <==> e == elems[0] || e in elems[1..];
    if SettledElems(Rest(names), elems[1..], true) {
      forall i | 0 < i < |elems| && elems[i].Unsupported? ensures i < |names| && names[i] != "" {
        assert elems[1..][i - 1] == elems[i];
      }
    }
  }

  /** Printing and parsing leave a type alone exactly when it is settled; every other type is longer each time. */
  lemma {:induction false} SpacedExactly(t: Type)
    ensures (Spaced(t) == t <==> Settled(t)) && (Settled(Spaced(t)) <==> Settled(t))
    ensures Settled(t) || |Print(Spaced(t))| > |Print(t)|
    decreases t, 1
  {
    hide Itoa, Quote, PrintLabels, PrintElems, SpacedElems;
    match t
    case Nullable(e) => SpacedExactly(e);
    case LowCardinality(e) => SpacedExactly(e);
    case Array(e) => SpacedExactly(e);
    case Map(k, v) =>
      SpacedExactly(k);
      BehindExactly(v);
    case Tuple(names, elems) =>
      SpacedElemsExactly(names, elems, false);
      assert SettledElems(names, elems, false) <==> Settled(t);
      assert SettledElems(names, SpacedElems(names, elems, false), false) <==> Settled(Spaced(t));
    case _ =>
  }

  lemma {:induction false} BehindExactly(t: Type)
    ensures (Behind(t) == t <==> Settled(t) && !t.Unsupported?) && (Settled(Behind(t)) <==> Settled(t))
    ensures Behind(t).Unsupported? <==> t.Unsupported?
    ensures (Settled(t) && !t.Unsupported?) || |Print(Behind(t))| > |Print(t)|
    decreases t, 2
  {
    if !t.Unsupported? {
      SpacedExactly(t);
    }
  }

  lemma {:induction false} SpacedElemsExactly(names: seq<string>, elems: seq<Type>, behind: bool)
    ensures var spaced := SpacedElems(names, elems, behind);
            && (spaced == elems <==> SettledElems(names, elems, behind))
            && (SettledElems(names, spaced, behind) <==> SettledElems(names, elems, behind))
            && (SettledElems(names, elems, behind) || |PrintElems(names, spaced)| > |PrintElems(names, elems)|)
    decreases elems, 0
  {
    if elems != [] {
      hide Settled, SettledElems, Spaced, Behind, Print;
      var spaced := SpacedElems(names, elems, behind);
      SpacedExactly(elems[0]);
      BehindExactly(elems[0]);
      SpacedKeepsKind(elems[0]);
      SpacedElemsExactly(Rest(names), elems[1..], true);
      assert spaced[1..] == SpacedElems(Rest(names), elems[1..], true);
      assert elems == [elems[0]] + elems[1..] && spaced == [spaced[0]] + spaced[1..];
      SettledCons(names, elems, behind);
      SettledCons(names, spaced, behind);
    } else {
      assert SettledElems(names, elems, behind);
    }
  }

  lemma SpacedKeepsKind(t: Type)
    ensures Spaced(t).Unsupported? <==> t.Unsupported?
  {
  }

  /** Spacing loses nothing. */
  lemma {:induction false} SpacedInjective(t: Type, u: Type)
    requires Spaced(t) == Spaced(u)
    ensures t == u
    decreases t, 1
  {
    match t
    case Nullable(e) => SpacedInjective(e, u.elem);
    case LowCardinality(e) => SpacedInjective(e, u.elem);
    case Array(e) => SpacedInjective(e, u.elem);
    case Map(k, v) =>
      SpacedInjective(k, u.key);
      BehindInjective(v, u.val);
    case Tuple(names, elems) => SpacedElemsInjective(names, elems, u.elems, false);
    case _ =>
  }

  lemma {:induction false} BehindInjective(t: Type, u: Type)
    requires Behind(t) == Behind(u)
    ensures t == u
    decreases t, 2
  {
    SpacedKeepsKind(t);
    SpacedKeepsKind(u);
    if t.Unsupported? {
      assert Behind(t).raw[1..] == t.raw && Behind(u).raw[1..] == u.raw;
    } else {
      SpacedInjective(t, u);
    }
  }

  lemma {:induction false} SpacedElemsInjective(names: seq<string>, a: seq<Type>, b: seq<Type>, behind: bool)
    requires SpacedElems(names, a, behind) == SpacedElems(names, b, behind)
    ensures a == b
    decreases a, 0
  {
    hide Spaced, Behind;
    if a != [] {
      var x, y := SpacedElems(names, a, behind), SpacedElems(names, b, behind);
      assert x[0] == y[0] && x[1..] == y[1..];
      if behind && FieldName(names) == "" {
        BehindInjective(a[0], b[0]);
      } else {
        SpacedInjective(a[0], b[0]);
      }
      SpacedElemsInjective(Rest(names), a[1..], b[1..], true);
      assert a == [a[0]] + a[1..] && b == [b[0]] + b[1..];
    }
  }

  // ---- Main results ----

  /** Every type that parses is readable. */
  lemma ParsedIsReadable(s: string)
    requires Parse(s).Ok?
    ensures Readable(Parse(s).value)
  {
    TypeIsSound(s, 0);
  }

  /** Every supported type that parses is well-formed. */
  lemma ParsedIsWellFormed(s: string)
    requires Parse(s).Ok? && Supported(Parse(s).value)
    ensures WellFormed(Parse(s).value)
  {
    ParsedIsReadable(s);
    ReadableIsWellFormed(Parse(s).value);
  }

  /** A printed well-formed type reads as itself. */
  lemma WellFormedReads(t: Type)
    requires WellFormed(t)
    ensures ReadsType(Print(t), t)
  {
    hide ReadsType;
    WellFormedIsReadable(t);
    PrintReads(t);
    SupportedIsSettled(t);
    SpacedExactly(t);
  }

  /** Parsing the canonical spelling of a well-formed type gives back the type. */
  lemma ParsePrint(t: Type)
    requires WellFormed(t)
    ensures Parse(Print(t)) == Ok(t)
  {
    WellFormedIsReadable(t);
    ParsePrintSpaces(t);
    SupportedIsSettled(t);
    SpacedExactly(t);
  }

  /**
    Parsing, printing and parsing again puts a blank in front of every verbatim type that is
    the value of a map or an unnamed element behind the first of a tuple, and changes nothing
    else. So it changes nothing at all exactly when there is no such type.
   */
  lemma ParsePrintParse(s: string)
    requires Parse(s).Ok?
    ensures var t := Parse(s).value;
            && Parse(Print(t)) == Ok(Spaced(t))
            && (Parse(Print(t)) == Parse(s) <==> Settled(t))
            && (Supported(t) ==> Settled(t))
  {
    var t := Parse(s).value;
    ParsedIsReadable(s);
    ParsePrintSpaces(t);
    SpacedExactly(t);
    if Supported(t) {
      SupportedIsSettled(t);
    }
  }

  /** A type that is changed by printing and parsing is changed again by the next round, and grows each time. */
  lemma UnsettledGrows(s: string)
    requires Parse(s).Ok? && !Settled(Parse(s).value)
    ensures var next := Parse(Print(Parse(s).value));
            next.Ok? && !Settled(next.value) && |Print(next.value)| > |Print(Parse(s).value)|
  {
    ParsePrintParse(s);
    SpacedExactly(Parse(s).value);
  }

  /** Parsed types with the same key are the same type, verbatim parts included. */
  lemma KeyIsIdentity(t: Type, u: Type)
    requires Readable(t) && Readable(u) && Key(t) == Key(u)
    ensures t == u
  {
    ParsePrintSpaces(t);
    ParsePrintSpaces(u);
    assert Key(t)[3..] == Print(t) && Key(u)[3..] == Print(u);
    SpacedInjective(t, u);
  }

  /** A map with a verbatim value is an example of a type that is not settled. */
  lemma VerbatimIsNotCanonical(s: string)
    requires s == "Map(A,N())"
    ensures Parse(s) == Ok(Map(Scalar("A"), Unsupported("N()"))) && !Settled(Parse(s).value)
    ensures Parse(Print(Parse(s).value)) == Ok(Map(Scalar("A"), Unsupported(" N()")))
  {
    hide Parse;
    MapOfVerbatim(s);
    assert s[6..|s| - 1] == "N()";
    var s' := "Map(A, N())";
    MapOfVerbatim(s');
    assert s'[6..|s'| - 1] == " N()";
    assert Print(Map(Scalar("A"), Unsupported("N()"))) == s';
  }

  lemma VerbatimTokens(s: string, n: nat)
    requires (s == "Map(A,N())" && n == 6) || (s == "Map(A, N())" && n == 7)
    ensures At(s, 0, "Map") && s[3] == '(' && s[5] == ','
    ensures IdentAt(s, 4) == Ok(("A", 5)) && SkipSpace(s, 5) == 5
    ensures IdentAt(s, 6) == Ok(("N", n + 1)) && SkipSpace(s, n + 1) == n + 1 && s[n + 1] == '('
    ensures Expect(s, n + 1, '(') == Ok(n + 2) && Balanced(s, n + 2, 1) == Ok(n + 3)
    ensures Expect(s, 5, ',') == Ok(6) && Expect(s, n + 3, ')') == Ok(n + 4)
    ensures SkipSpace(s, n + 4) == n + 4 == |s|
  {
    IdentReads(s, 4, "A");
    IdentReads(s, n, "N");
    assert SkipSpace(s, n) == n && SkipSpace(s, 6) == n;
  }

  lemma MapOfVerbatim(s: string)
    requires s == "Map(A,N())" || s == "Map(A, N())"
    ensures Parse(s) == Ok(Map(Scalar("A"), Unsupported(s[6..|s| - 1])))
  {
    var n := |s| - 4; // where the N stands
    VerbatimTokens(s, n);
    hide IdentAt, Expect, Balanced, SkipSpace, At, MapAt;
    assert TypeAt(s, 4) == Ok((Scalar("A"), 5));
    VerbatimArguments(s, n);
    assert TypeAt(s, 6) == Ok((Unsupported(s[6..n + 3]), n + 3));
    TypeNamesAreIdents("Map");
    NamedReads(s, 0, "Map");
    Dispatch(s, 0, 3);
    MapFromParts(s, 3, Scalar("A"), 5, Unsupported(s[6..n + 3]), n + 3);
  }

  lemma VerbatimArguments(s: string, n: nat)
    requires 6 <= n && n + 4 <= |s| && Expect(s, n + 1, '(') == Ok(n + 2) && Balanced(s, n + 2, 1) == Ok(n + 3)
    ensures ArgumentsAt(s, 6, "N", n + 1) == Ok((Unsupported(s[6..n + 3]), n + 3))
  {
    hide Expect, Balanced;
  }

  lemma MapFromParts(s: string, p: nat, k: Type, c: nat, v: Type, e: nat)
    requires p < |s| && Expect(s, p, '(') == Ok(p + 1) && TypeAt(s, p + 1) == Ok((k, c))
    requires c <= |s| && Expect(s, c, ',') == Ok(c + 1) && c < |s| && TypeAt(s, c + 1) == Ok((v, e))
    requires e < |s| && Expect(s, e, ')') == Ok(e + 1)
    ensures MapAt(s, p) == Ok((Map(k, v), e + 1))
  {
    hide Expect, TypeAt;
  }
}
