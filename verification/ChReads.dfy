/**
  Texts and the values the grammar reads from them, constructor by constructor.

  A text "reads as" a value when the grammar, wherever the text stands and is properly
  ended, reads that value and stops right behind the text. Larger texts are put together
  from smaller ones without looking inside.
 */
module ChReads {
  import opened Text
  import opened ChTypes
  import opened ChGrammar

  /** The text stands at position i of s. */
  predicate At(s: string, i: nat, text: string) {
    i + |text| <= |s| && forall k {:trigger text[k]} :: 0 <= k < |text| ==> s[i + k] == text[k]
  }

  lemma AtSplit(s: string, i: nat, a: string, b: string)
    requires At(s, i, a + b)
    ensures At(s, i, a) && At(s, i + |a|, b)
  {
    forall k | 0 <= k < |a| ensures s[i + k] == a[k] {
      assert (a + b)[k] == a[k];
    }
    forall k | 0 <= k < |b| ensures s[i + |a| + k] == b[k] {
      assert (a + b)[|a| + k] == b[k];
    }
  }

  lemma AtChar(s: string, i: nat, text: string, k: nat)
    requires At(s, i, text) && k < |text|
    ensures s[i + k] == text[k]
  {
  }

  lemma AtRest(s: string, i: nat, text: string)
    requires At(s, i, text) && text != ""
    ensures s[i] == text[0] && At(s, i + 1, text[1..])
  {
    assert s[i + 0] == text[0];
    forall k | 0 <= k < |text[1..]| ensures s[i + 1 + k] == text[1..][k] {
      assert s[i + (k + 1)] == text[k + 1];
    }
  }

  /** An element of a list ends here. */
  predicate Closed(s: string, i: nat) {
    i < |s| && (s[i] == ',' || s[i] == ')')
  }

  predicate Delimited(s: string, i: nat) {
    i == |s| || Closed(s, i)
  }

  predicate NoDigit(s: string, i: nat) {
    i < |s| ==> !IsDigit(s[i])
  }

  ghost predicate ReadsInt(text: string, n: int) {
    forall s: string, i: nat {:trigger At(s, i, text)} :: At(s, i, text) && NoDigit(s, i + |text|) ==>
      IntAt(s, i) == Ok((n, i + |text|))
  }

  ghost predicate ReadsString(text: string, str: string) {
    forall s: string, i: nat {:trigger At(s, i, text)} :: At(s, i, text) ==> StringAt(s, i) == Ok((str, i + |text|))
  }

  ghost predicate ReadsType(text: string, t: Type) {
    forall s: string, i: nat {:trigger At(s, i, text)} :: At(s, i, text) && Delimited(s, i + |text|) ==>
      TypeAt(s, i) == Ok((t, i + |text|))
  }

  predicate StartsSolid(text: string) {
    text != "" && !IsBlank(text[0])
  }

  // ---- Tokens ----

  lemma ExpectAt(s: string, i: nat, c: char)
    requires i < |s| && s[i] == c && !IsBlank(c)
    ensures Expect(s, i, c) == Ok(i + 1)
  {
  }

  lemma SkipsOneSpace(s: string, i: nat)
    requires i + 1 < |s| && s[i] == ' ' && !IsBlank(s[i + 1])
    ensures SkipSpace(s, i) == i + 1
  {
    assert SkipSpace(s, i + 1) == i + 1;
  }

  lemma {:induction false} IdentEndAt(s: string, i: nat, id: string)
    requires At(s, i, id) && (forall c <- id :: IsIdentChar(c))
    requires i + |id| == |s| || !IsIdentChar(s[i + |id|])
    ensures IdentEnd(s, i) == i + |id|
    decreases |id|
  {
    if id != "" {
      AtRest(s, i, id);
      IdentEndAt(s, i + 1, id[1..]);
    }
  }

  lemma IdentReads(s: string, i: nat, id: string)
    requires At(s, i, id) && IsIdent(id)
    requires i + |id| == |s| || !IsIdentChar(s[i + |id|])
    ensures IdentAt(s, i) == Ok((id, i + |id|))
  {
    AtChar(s, i, id, 0);
    assert id[0] in id;
    IdentEndAt(s, i, id);
    assert s[i..i + |id|] == id;
  }

  lemma {:induction false} BodyReads(s: string, i: nat, str: string, acc: string)
    requires At(s, i, Escape(str) + "'")
    ensures StringBody(s, i, acc) == Ok((acc + str, i + |Escape(str)| + 1))
    decreases |str|
  {
    AtChar(s, i, Escape(str) + "'", 0);
    if str == "" {
      assert acc + str == acc;
    } else {
      var c, rest := str[0], str[1..];
      var head := if c == '\\' || c == '\'' then ['\\', c] else [c];
      assert Escape(str) + "'" == head + (Escape(rest) + "'");
      AtSplit(s, i, head, Escape(rest) + "'");
      AtChar(s, i, head, |head| - 1);
      BodyReads(s, i + |head|, rest, acc + [c]);
      assert acc + [c] + rest == acc + str;
    }
  }

  lemma QuoteReads(str: string)
    ensures ReadsString(Quote(str), str)
  {
    var text := Escape(str) + "'";
    assert Quote(str) == "'" + text;
    forall s: string, i: nat | At(s, i, "'" + text) ensures StringAt(s, i) == Ok((str, i + |"'" + text|)) {
      AtSplit(s, i, "'", text);
      AtChar(s, i, "'", 0);
      ExpectAt(s, i, '\'');
      BodyReads(s, i + 1, str, "");
      assert "" + str == str;
    }
  }

  lemma {:induction false} DigitsEndAt(s: string, i: nat, ds: string)
    requires At(s, i, ds) && AllDigits(ds) && NoDigit(s, i + |ds|)
    ensures DigitsEnd(s, i) == i + |ds|
    decreases |ds|
  {
    if ds != "" {
      AtRest(s, i, ds);
      DigitsEndAt(s, i + 1, ds[1..]);
    }
  }

  /** Digits, possibly behind a sign, read as their value. */
  lemma NumberReads(text: string, ds: string, n: int)
    requires text == ds || text == "-" + ds || text == "+" + ds
    requires ds != "" && AllDigits(ds) && Atoi(text) == Some(n)
    ensures ReadsInt(text, n)
  {
    hide Atoi, AllDigits, IntAt;
    forall s: string, i: nat | At(s, i, text) && NoDigit(s, i + |text|) ensures IntAt(s, i) == Ok((n, i + |text|)) {
      NumberAt(s, i, text, ds, n);
    }
  }

  lemma NumberAt(s: string, i: nat, text: string, ds: string, n: int)
    requires text == ds || text == "-" + ds || text == "+" + ds
    requires ds != "" && AllDigits(ds) && Atoi(text) == Some(n) && At(s, i, text) && NoDigit(s, i + |text|)
    ensures IntAt(s, i) == Ok((n, i + |text|))
  {
    hide Atoi, DigitsEnd;
    AtRest(s, i, text);
    assert ds[0] in ds && s[i] == text[0] && !IsBlank(s[i]);
    if text == ds {
      DigitsEndAt(s, i, ds);
    } else {
      assert text[1..] == ds && (s[i] == '-' || s[i] == '+');
      DigitsEndAt(s, i + 1, ds);
    }
    AtIsSlice(s, i, text);
  }

  lemma AtIsSlice(s: string, i: nat, text: string)
    requires At(s, i, text)
    ensures s[i..i + |text|] == text
  {
    assert forall k :: 0 <= k < |text| ==> s[i..i + |text|][k] == s[i + k] == text[k];
  }

  lemma ItoaReads(n: int)
    requires IsInt(n)
    ensures ReadsInt(Itoa(n), n) && StartsSolid(Itoa(n))
  {
    ItoaRoundTrip(n);
    var ds := NatDigits(if n < 0 then -n else n);
    DigitsRoundTrip(if n < 0 then -n else n);
    assert ds[0] in ds;
    NumberReads(Itoa(n), ds, n);
  }

  lemma IntReadAt(text: string, n: int, s: string, i: nat)
    requires ReadsInt(text, n) && At(s, i, text) && Closed(s, i + |text|)
    ensures IntAt(s, i) == Ok((n, i + |text|))
  {
    hide IntAt;
  }

  // ---- Layouts ----

  lemma CloseAt(s: string, i: nat)
    requires i < |s| && s[i] == ')'
    ensures At(s, i, ")")
  {
  }

  /** name(a) */
  lemma OneArgument(s: string, i: nat, name: string, a: string)
    requires At(s, i, name + "(" + a + ")")
    ensures var p := i + |name|;
            && At(s, i, name) && p < |s| && s[p] == '('
            && At(s, p + 1, a) && p + 1 + |a| < |s| && s[p + 1 + |a|] == ')'
  {
    AtSplit(s, i, name + "(" + a, ")");
    AtChar(s, i + |name| + 1 + |a|, ")", 0);
    AtSplit(s, i, name + "(", a);
    AtSplit(s, i, name, "(");
    AtChar(s, i + |name|, "(", 0);
  }

  /** a, b */
  lemma Pair(s: string, i: nat, a: string, b: string)
    requires At(s, i, a + ", " + b) && StartsSolid(b)
    ensures var p := i + |a|;
            && At(s, i, a) && p + 2 < |s| && s[p] == ',' && s[p + 1] == ' '
            && At(s, p + 2, b) && SkipSpace(s, p + 1) == p + 2 && SkipSpace(s, p + 2) == p + 2
            && Expect(s, p, ',') == Ok(p + 1) && Peek(s, p) == ','
  {
    AtSplit(s, i, a + ", ", b);
    AtSplit(s, i, a, ", ");
    AtChar(s, i + |a|, ", ", 0);
    AtChar(s, i + |a|, ", ", 1);
    AtChar(s, i + |a| + 2, b, 0);
    SkipsOneSpace(s, i + |a| + 1);
  }

  /** A name with arguments is read as the name, then the arguments. */
  lemma NamedReads(s: string, i: nat, name: string)
    requires IsIdent(name) && At(s, i, name) && i + |name| < |s| && s[i + |name|] == '('
    ensures var p := i + |name|;
            Expect(s, p, '(') == Ok(p + 1) && TypeAt(s, i) == ArgumentsAt(s, i, name, p)
  {
    IdentReads(s, i, name);
  }

  lemma TypeNamesAreIdents(name: string)
    requires || name == "Nullable" || name == "LowCardinality" || name == "Array" || name == "Map" || name ==
             "FixedString"
             || name == "Decimal" || name == "DateTime" || name == "DateTime64" || name == "Enum8" || name == "Enum16"
             || name == "Tuple"
    ensures IsIdent(name)
  {
    assert forall k :: 0 <= k < |name| ==> IsIdentChar(name[k]);
  }

  lemma Dispatch(s: string, i: nat, p: nat)
    requires i < p <= |s|
    ensures ArgumentsAt(s, i, "Map", p) == MapAt(s, p)
    ensures ArgumentsAt(s, i, "Decimal", p) == DecimalAt(s, p)
    ensures ArgumentsAt(s, i, "DateTime64", p) == DateTime64At(s, p)
    ensures ArgumentsAt(s, i, "Tuple", p) == TupleAt(s, p)
  {
    hide MapAt, DecimalAt, DateTime64At, TupleAt, EnumAt, ParenType, ParenInt, ParenString, BalancedAt;
  }

  lemma DispatchEnum(s: string, i: nat, p: nat)
    requires i < p <= |s|
    ensures ArgumentsAt(s, i, "Enum8", p) == EnumAt(s, p, 8)
    ensures ArgumentsAt(s, i, "Enum16", p) == EnumAt(s, p, 16)
  {
  }

  /** Where a type starts matters only for what is kept verbatim. */
  lemma SpaceBeforeType(s: string, i: nat, j: nat)
    requires i <= j <= |s| && SkipSpace(s, i) == SkipSpace(s, j)
    requires TypeAt(s, j).Ok? && !TypeAt(s, j).value.0.Unsupported?
    ensures TypeAt(s, i) == TypeAt(s, j)
  {
  }

  lemma SpaceBeforeToken(s: string, i: nat, j: nat)
    requires i <= j <= |s| && SkipSpace(s, i) == SkipSpace(s, j)
    ensures IntAt(s, i) == IntAt(s, j) && StringAt(s, i) == StringAt(s, j) && IdentAt(s, i) == IdentAt(s, j)
  {
  }

  // ---- Types, one constructor at a time ----

  lemma NameReads(name: string)
    requires IsIdent(name)
    ensures ReadsType(name, BareType(name))
  {
    forall s: string, i: nat | At(s, i, name) && Delimited(s, i + |name|)
      ensures TypeAt(s, i) == Ok((BareType(name), i + |name|))
    {
      IdentReads(s, i, name);
    }
  }

  /** At p stands (a), behind the name of a type that starts at i. */
  predicate Called(s: string, i: nat, p: nat, a: string) {
    && i < p < |s| && Expect(s, p, '(') == Ok(p + 1)
    && At(s, p + 1, a) && p + 1 + |a| < |s| && s[p + 1 + |a|] == ')'
  }

  /** Whatever stands between the brackets and is read as arguments of name makes the whole text a type. */
  ghost predicate ReadsArguments(name: string, a: string, t: Type) {
    forall s: string, i: nat, p: nat {:trigger Called(s, i, p, a)} :: Called(s, i, p, a) ==>
      ArgumentsAt(s, i, name, p) == Ok((t, p + 2 + |a|))
  }

  lemma CallReads(name: string, a: string, t: Type)
    requires IsIdent(name) && ReadsArguments(name, a, t)
    ensures ReadsType(name + "(" + a + ")", t)
  {
    hide TypeAt, ArgumentsAt, Expect, IsIdent, Delimited;
    var text := name + "(" + a + ")";
    forall s: string, i: nat | At(s, i, text) ensures TypeAt(s, i) == Ok((t, i + |text|)) {
      CallAt(s, i, name, a);
    }
  }

  lemma CallAt(s: string, i: nat, name: string, a: string)
    requires IsIdent(name) && At(s, i, name + "(" + a + ")")
    ensures Called(s, i, i + |name|, a) && TypeAt(s, i) == ArgumentsAt(s, i, name, i + |name|)
  {
    hide TypeAt, ArgumentsAt, Expect, At;
    OneArgument(s, i, name, a);
    NamedReads(s, i, name);
  }

  lemma WrapperReads(name: string, a: string, t: Type)
    requires IsWrapper(name) && ReadsType(a, t)
    ensures ReadsType(name + "(" + a + ")", Wrap(name, t))
  {
    hide At, Expect, ArgumentsAt, ReadsType, IsIdent;
    forall s: string, i: nat, p: nat | Called(s, i, p, a)
      ensures ArgumentsAt(s, i, name, p) == Ok((Wrap(name, t), p + 2 + |a|))
    {
      WrapperArguments(s, i, p, name, a, t);
    }
    TypeNamesAreIdents(name);
    CallReads(name, a, Wrap(name, t));
  }

  lemma WrapperArguments(s: string, i: nat, p: nat, name: string, a: string, t: Type)
    requires IsWrapper(name) && ReadsType(a, t) && Called(s, i, p, a)
    ensures ArgumentsAt(s, i, name, p) == Ok((Wrap(name, t), p + 2 + |a|))
  {
    hide TypeAt, Expect;
    assert TypeAt(s, p + 1) == Ok((t, p + 1 + |a|));
    ExpectAt(s, p + 1 + |a|, ')');
    assert ParenType(s, p) == Ok((t, p + 2 + |a|));
  }

  lemma FixedStringReads(a: string, n: int)
    requires ReadsInt(a, n)
    ensures ReadsType("FixedString" + "(" + a + ")", FixedString(n))
  {
    hide At, Expect, ArgumentsAt, ReadsType, ReadsInt, ReadsString, IsIdent;
    forall s: string, i: nat, p: nat | Called(s, i, p, a)
      ensures ArgumentsAt(s, i, "FixedString", p) == Ok((FixedString(n), p + 2 + |a|))
    {
      FixedStringArguments(s, i, p, a, n);
    }
    TypeNamesAreIdents("FixedString");
    CallReads("FixedString", a, FixedString(n));
  }

  lemma FixedStringArguments(s: string, i: nat, p: nat, a: string, n: int)
    requires ReadsInt(a, n) && Called(s, i, p, a)
    ensures ArgumentsAt(s, i, "FixedString", p) == Ok((FixedString(n), p + 2 + |a|))
  {
    hide IntAt, Expect;
    assert IntAt(s, p + 1) == Ok((n, p + 1 + |a|));
    ExpectAt(s, p + 1 + |a|, ')');
    assert ParenInt(s, p) == Ok((n, p + 2 + |a|));
  }

  lemma DecimalReads(a: string, prec: int, b: string, scale: int)
    requires ReadsInt(a, prec) && ReadsInt(b, scale) && StartsSolid(b)
    ensures ReadsType("Decimal" + "(" + (a + ", " + b) + ")", Decimal(prec, scale))
  {
    hide At, Expect, ArgumentsAt, ReadsType, ReadsInt, ReadsString, IsIdent;
    var args := a + ", " + b;
    forall s: string, i: nat, p: nat | Called(s, i, p, args)
      ensures ArgumentsAt(s, i, "Decimal", p) == Ok((Decimal(prec, scale), p + 2 + |args|))
    {
      DecimalArguments(s, i, p, a, prec, b, scale);
    }
    TypeNamesAreIdents("Decimal");
    CallReads("Decimal", args, Decimal(prec, scale));
  }

  lemma DecimalArguments(s: string, i: nat, p: nat, a: string, prec: int, b: string, scale: int)
    requires ReadsInt(a, prec) && ReadsInt(b, scale) && StartsSolid(b) && Called(s, i, p, a + ", " + b)
    ensures ArgumentsAt(s, i, "Decimal", p) == Ok((Decimal(prec, scale), p + 2 + |a + ", " + b|))
  {
    hide IntAt, Expect, ArgumentsAt, SkipSpace, At, StartsSolid, ReadsInt, MapAt, TupleAt, DateTime64At;
    Dispatch(s, i, p);
    Pair(s, p + 1, a, b);
    var c := p + 1 + |a|;
    IntReadAt(a, prec, s, p + 1);
    IntReadAt(b, scale, s, c + 2);
    SpaceBeforeToken(s, c + 1, c + 2);
    ExpectAt(s, c + 2 + |b|, ')');
  }

  lemma DateTimeReads(a: string, tz: string)
    requires ReadsString(a, tz)
    ensures ReadsType("DateTime" + "(" + a + ")", DateTime(tz))
  {
    hide At, Expect, ArgumentsAt, ReadsType, ReadsInt, ReadsString, IsIdent;
    forall s: string, i: nat, p: nat | Called(s, i, p, a)
      ensures ArgumentsAt(s, i, "DateTime", p) == Ok((DateTime(tz), p + 2 + |a|))
    {
      DateTimeArguments(s, i, p, a, tz);
    }
    TypeNamesAreIdents("DateTime");
    CallReads("DateTime", a, DateTime(tz));
  }

  lemma DateTimeArguments(s: string, i: nat, p: nat, a: string, tz: string)
    requires ReadsString(a, tz) && Called(s, i, p, a)
    ensures ArgumentsAt(s, i, "DateTime", p) == Ok((DateTime(tz), p + 2 + |a|))
  {
    hide StringAt, Expect;
    assert StringAt(s, p + 1) == Ok((tz, p + 1 + |a|));
    ExpectAt(s, p + 1 + |a|, ')');
    assert ParenString(s, p) == Ok((tz, p + 2 + |a|));
  }

  lemma DateTime64Reads(a: string, prec: int)
    requires ReadsInt(a, prec)
    ensures ReadsType("DateTime64" + "(" + a + ")", DateTime64(prec, ""))
  {
    hide At, Expect, ArgumentsAt, ReadsType, ReadsInt, ReadsString, IsIdent;
    forall s: string, i: nat, p: nat | Called(s, i, p, a)
      ensures ArgumentsAt(s, i, "DateTime64", p) == Ok((DateTime64(prec, ""), p + 2 + |a|))
    {
      DateTime64Arguments(s, i, p, a, prec);
    }
    TypeNamesAreIdents("DateTime64");
    CallReads("DateTime64", a, DateTime64(prec, ""));
  }

  lemma DateTime64Arguments(s: string, i: nat, p: nat, a: string, prec: int)
    requires ReadsInt(a, prec) && Called(s, i, p, a)
    ensures ArgumentsAt(s, i, "DateTime64", p) == Ok((DateTime64(prec, ""), p + 2 + |a|))
  {
    hide IntAt, StringAt, Expect, ArgumentsAt, MapAt, TupleAt, DecimalAt;
    Dispatch(s, i, p);
    assert IntAt(s, p + 1) == Ok((prec, p + 1 + |a|));
    ExpectAt(s, p + 1 + |a|, ')');
  }

  lemma DateTime64ZoneReads(a: string, prec: int, b: string, tz: string)
    requires ReadsInt(a, prec) && ReadsString(b, tz) && StartsSolid(b)
    ensures ReadsType("DateTime64" + "(" + (a + ", " + b) + ")", DateTime64(prec, tz))
  {
    hide At, Expect, ArgumentsAt, ReadsType, ReadsInt, ReadsString, IsIdent;
    var args := a + ", " + b;
    forall s: string, i: nat, p: nat | Called(s, i, p, args)
      ensures ArgumentsAt(s, i, "DateTime64", p) == Ok((DateTime64(prec, tz), p + 2 + |args|))
    {
      DateTime64ZoneArguments(s, i, p, a, prec, b, tz);
    }
    TypeNamesAreIdents("DateTime64");
    CallReads("DateTime64", args, DateTime64(prec, tz));
  }

  lemma DateTime64ZoneArguments(s: string, i: nat, p: nat, a: string, prec: int, b: string, tz: string)
    requires ReadsInt(a, prec) && ReadsString(b, tz) && StartsSolid(b) && Called(s, i, p, a + ", " + b)
    ensures ArgumentsAt(s, i, "DateTime64", p) == Ok((DateTime64(prec, tz), p + 2 + |a + ", " + b|))
  {
    hide IntAt, StringAt, Expect, ArgumentsAt, SkipSpace, At, StartsSolid, ReadsInt, MapAt, TupleAt, DecimalAt;
    Dispatch(s, i, p);
    Pair(s, p + 1, a, b);
    var c := p + 1 + |a|;
    IntReadAt(a, prec, s, p + 1);
    assert StringAt(s, c + 1) == Ok((tz, c + 2 + |b|)) by { SpaceBeforeToken(s, c + 1, c + 2); }
    ExpectAt(s, c + 2 + |b|, ')');
  }

  // ---- Enums ----

  ghost predicate ReadsItem(text: string, bits: int, lab: string, v: int) {
    forall s: string, i: nat {:trigger At(s, i, text)} :: At(s, i, text) && NoDigit(s, i + |text|) ==>
      EnumItem(s, i, bits) == Ok(((lab, v), i + |text|))
  }

  /** The text, followed by a closing bracket, reads as these items behind any others. */
  ghost predicate ReadsItems(text: string, bits: int, labels: seq<string>, values: seq<int>) {
    forall s: string, i: nat, l0: seq<string>, v0: seq<int> {:trigger At(s, i, text), EnumItems(s, i, bits, l0, v0)} ::
      i <= |s| && At(s, i, text) && At(s, i + |text|, ")") ==>
      EnumItems(s, i, bits, l0, v0) == Ok((Enum(bits, l0 + labels, v0 + values), i + |text| + 1))
  }

  lemma ItemReads(a: string, lab: string, b: string, bits: int, v: int)
    requires ReadsString(a, lab) && ReadsInt(b, v) && StartsSolid(b) && InRange(bits, v)
    ensures ReadsItem(a + " = " + b, bits, lab, v)
  {
    var text := a + " = " + b;
    hide StringAt, IntAt, Expect;
    forall s: string, i: nat | At(s, i, text) && NoDigit(s, i + |text|)
      ensures EnumItem(s, i, bits) == Ok(((lab, v), i + |text|))
    {
      EqualSign(s, i, a, b);
      SpaceBeforeToken(s, i + |a| + 2, i + |a| + 3);
    }
  }

  /** a = b */
  lemma EqualSign(s: string, i: nat, a: string, b: string)
    requires At(s, i, a + " = " + b) && StartsSolid(b)
    ensures var p := i + |a|;
            && At(s, i, a) && At(s, p + 3, b) && p + 3 <= |s|
            && Expect(s, p, '=') == Ok(p + 2) && SkipSpace(s, p + 2) == SkipSpace(s, p + 3)
  {
    AtSplit(s, i, a + " = ", b);
    AtSplit(s, i, a, " = ");
    var p := i + |a|;
    AtChar(s, p, " = ", 0);
    AtChar(s, p, " = ", 1);
    AtChar(s, p, " = ", 2);
    AtChar(s, p + 3, b, 0);
    SkipsOneSpace(s, p);
    SkipsOneSpace(s, p + 2);
  }

  lemma LastItemReads(text: string, bits: int, lab: string, v: int)
    requires ReadsItem(text, bits, lab, v)
    ensures ReadsItems(text, bits, [lab], [v])
  {
    hide EnumItem;
    forall s: string, i: nat, l0: seq<string>, v0: seq<int> | At(s, i, text) && At(s, i + |text|, ")")
      ensures EnumItems(s, i, bits, l0, v0) == Ok((Enum(bits, l0 + [lab], v0 + [v]), i + |text| + 1))
    {
      AtChar(s, i + |text|, ")", 0);
      ExpectAt(s, i + |text|, ')');
    }
  }

  lemma MoreItemsRead(text: string, bits: int, lab: string, v: int, rest: string, labels: seq<string>, values: seq<int>)
    requires ReadsItem(text, bits, lab, v) && ReadsItems(rest, bits, labels, values) && StartsSolid(rest)
    ensures ReadsItems(text + ", " + rest, bits, [lab] + labels, [v] + values)
  {
    var whole := text + ", " + rest;
    hide EnumItems, ReadsItem, StartsSolid, At;
    forall s: string, i: nat, l0: seq<string>, v0: seq<int> | i <= |s| && At(s, i, whole) && At(s, i + |whole|, ")")
      ensures EnumItems(s, i, bits, l0, v0) ==
              Ok((Enum(bits, l0 + ([lab] + labels), v0 + ([v] + values)), i + |whole| + 1))
    {
      MoreItemsAt(text, bits, lab, v, rest, labels, values, s, i, l0, v0);
      assert l0 + [lab] + labels == l0 + ([lab] + labels) && v0 + [v] + values == v0 + ([v] + values);
    }
  }

  lemma MoreItemsAt(
    text: string, bits: int, lab: string, v: int, rest: string, labels: seq<string>, values: seq<int>,
    s: string, i: nat, l0: seq<string>, v0: seq<int>)
    requires ReadsItem(text, bits, lab, v) && ReadsItems(rest, bits, labels, values) && StartsSolid(rest)
    requires At(s, i, text + ", " + rest) && At(s, i + |text + ", " + rest|, ")")
    ensures EnumItems(s, i, bits, l0, v0) ==
      Ok((Enum(bits, l0 + [lab] + labels, v0 + [v] + values), i + |text + ", " + rest| + 1))
  {
    hide EnumItem, EnumItems, ReadsItem, ReadsItems, Expect, Peek, SkipSpace, At, StartsSolid;
    Pair(s, i, text, rest);
    var p := i + |text|;
    ItemAt(text, bits, lab, v, s, i);
    ItemsStep(s, i, p, bits, l0, v0);
    SpaceBeforeItems(s, p + 1, p + 2, bits, l0 + [lab], v0 + [v]);
    ItemsAt(rest, bits, labels, values, s, p + 2, l0 + [lab], v0 + [v]);
  }

  lemma ItemAt(text: string, bits: int, lab: string, v: int, s: string, i: nat)
    requires ReadsItem(text, bits, lab, v) && At(s, i, text) && i + |text| < |s| && s[i + |text|] == ','
    ensures EnumItem(s, i, bits) == Ok(((lab, v), i + |text|))
  {
    hide EnumItem;
  }

  lemma ItemsAt(
    text: string, bits: int, labels: seq<string>, values: seq<int>, s: string, i: nat, l0: seq<string>, v0: seq<int>)
    requires ReadsItems(text, bits, labels, values) && At(s, i, text) && At(s, i + |text|, ")")
    ensures EnumItems(s, i, bits, l0, v0) == Ok((Enum(bits, l0 + labels, v0 + values), i + |text| + 1))
  {
    hide EnumItems;
  }

  lemma ItemsStep(s: string, i: nat, p: nat, bits: int, l0: seq<string>, v0: seq<int>)
    requires i <= p < |s| && EnumItem(s, i, bits).Ok? && EnumItem(s, i, bits).value.1 == p
    requires Peek(s, p) == ',' && Expect(s, p, ',') == Ok(p + 1)
    ensures var (lab, v) := EnumItem(s, i, bits).value.0;
            EnumItems(s, i, bits, l0, v0) == EnumItems(s, p + 1, bits, l0 + [lab], v0 + [v])
  {
    hide EnumItem, Peek, Expect;
  }

  lemma SpaceBeforeItems(s: string, i: nat, j: nat, bits: int, l0: seq<string>, v0: seq<int>)
    requires i <= j <= |s| && SkipSpace(s, i) == SkipSpace(s, j)
    ensures EnumItems(s, i, bits, l0, v0) == EnumItems(s, j, bits, l0, v0)
  {
    SpaceBeforeToken(s, i, j);
    assert EnumItem(s, i, bits) == EnumItem(s, j, bits);
  }

  lemma LabelReads(lab: string, v: int, bits: int)
    requires (bits == 8 || bits == 16) && InRange(bits, v)
    ensures ReadsItem(Quote(lab) + " = " + Itoa(v), bits, lab, v)
  {
    QuoteReads(lab);
    ItoaReads(v);
    ItemReads(Quote(lab), lab, Itoa(v), bits, v);
  }

  lemma {:induction false} LabelsRead(bits: int, labels: seq<string>, values: seq<int>)
    requires labels != [] && |labels| == |values| && (bits == 8 || bits == 16) && forall v <- values :: InRange(bits, v)
    ensures ReadsItems(PrintLabels(labels, values), bits, labels, values)
    decreases |labels|
  {
    hide ReadsItem, ReadsItems, Quote, Itoa, StartsSolid;
    var lab, v := labels[0], values[0];
    assert v in values;
    LabelReads(lab, v, bits);
    var item := Quote(lab) + " = " + Itoa(v);
    if |labels| > 1 {
      var rest := PrintLabels(labels[1..], values[1..]);
      LabelsRead(bits, labels[1..], values[1..]);
      LabelsStart(labels[1..], values[1..]);
      MoreItemsRead(item, bits, lab, v, rest, labels[1..], values[1..]);
      assert PrintLabels(labels, values) == item + ", " + rest;
      assert labels == [lab] + labels[1..] && values == [v] + values[1..];
    } else {
      LastItemReads(item, bits, lab, v);
      assert PrintLabels(labels, values) == item;
      assert labels == [lab] && values == [v];
    }
  }

  lemma LabelsStart(labels: seq<string>, values: seq<int>)
    requires labels != [] && |labels| == |values|
    ensures StartsSolid(PrintLabels(labels, values))
  {
    assert PrintLabels(labels, values)[0] == Quote(labels[0])[0];
  }

  lemma EnumReads(name: string, bits: int, a: string, labels: seq<string>, values: seq<int>)
    requires (name == "Enum8" && bits == 8) || (name == "Enum16" && bits == 16)
    requires ReadsItems(a, bits, labels, values)
    ensures ReadsType(name + "(" + a + ")", Enum(bits, labels, values))
  {
    hide At, Expect, ArgumentsAt, ReadsType, ReadsItems, IsIdent;
    forall s: string, i: nat, p: nat | Called(s, i, p, a)
      ensures ArgumentsAt(s, i, name, p) == Ok((Enum(bits, labels, values), p + 2 + |a|))
    {
      EnumArguments(s, i, p, name, bits, a, labels, values);
    }
    TypeNamesAreIdents(name);
    CallReads(name, a, Enum(bits, labels, values));
  }

  lemma EnumArguments(
    s: string, i: nat, p: nat, name: string, bits: int, a: string, labels: seq<string>, values: seq<int>)
    requires (name == "Enum8" && bits == 8) || (name == "Enum16" && bits == 16)
    requires ReadsItems(a, bits, labels, values) && Called(s, i, p, a)
    ensures ArgumentsAt(s, i, name, p) == Ok((Enum(bits, labels, values), p + 2 + |a|))
  {
    hide ArgumentsAt, EnumItems, ReadsItems, Expect, At;
    DispatchEnum(s, i, p);
    CloseAt(s, p + 1 + |a|);
    ItemsAt(a, bits, labels, values, s, p + 1, [], []);
    assert [] + labels == labels && [] + values == values;
  }

  lemma EnumName(bits: int)
    requires bits == 8 || bits == 16
    ensures "Enum" + Itoa(bits) == if bits == 8 then "Enum8" else "Enum16"
  {
    assert NatDigits(1) == "1" && NatDigits(8) == "8" && NatDigits(16) == "16";
  }
}
