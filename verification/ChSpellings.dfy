/** What the spellings of ClickHouse types mean, those included that pggen itself never writes. */
module ChSpellings {
  import opened Text
  import opened ChTypes
  import opened ChGrammar
  import opened ChReads
  import opened ChIdentity

  lemma TextParses(text: string, t: Type)
    requires ReadsType(text, t)
    ensures Parse(text) == Ok(t)
  {
    hide TypeAt;
    assert At(text, 0, text);
  }

  // ---- Decimals of a fixed width ----

  function Power(b: nat, n: nat): nat {
    if n == 0 then 1 else b * Power(b, n - 1)
  }

  /** p is the greatest number of decimal digits that all fit a signed integer of w bits. */
  ghost predicate Fits(p: nat, w: nat) {
    w > 0 && Power(10, p) < Power(2, w - 1) <= Power(10, p + 1)
  }

  lemma {:induction false} PowerGrows(m: nat, n: nat)
    requires m <= n
    ensures 0 < Power(10, m) <= Power(10, n)
    decreases n
  {
    if m < n {
      PowerGrows(m, n - 1);
    } else if m > 0 {
      PowerGrows(m - 1, n - 1);
    }
  }

  lemma GreatestIsUnique(p: nat, q: nat, w: nat)
    requires Fits(p, w) && Fits(q, w)
    ensures p == q
  {
    hide Power;
    if p < q {
      PowerGrows(p + 1, q);
    } else if q < p {
      PowerGrows(q + 1, p);
    }
  }

  lemma {:induction false} PowerSum(b: nat, m: nat, n: nat)
    ensures Power(b, m + n) == Power(b, m) * Power(b, n)
  {
    if m > 0 {
      PowerSum(b, m - 1, n);
      Regroup(b, Power(b, m - 1), Power(b, n));
      assert m + n - 1 == m - 1 + n;
    }
  }

  lemma Regroup(a: nat, b: nat, c: nat)
    ensures a * (b * c) == (a * b) * c
  {
  }

  /** The widths of the fixed spellings and their digits. */
  predicate IsWidth(w: nat, p: nat) {
    (w == 32 && p == 9) || (w == 64 && p == 18) || (w == 128 && p == 38) || (w == 256 && p == 76)
  }

  lemma Doubled(n: nat)
    ensures Power(2, n + n + 1) == 2 * (Power(2, n) * Power(2, n))
  {
    hide Power;
    PowerSum(2, n, n);
    PowerSum(2, n + n, 1);
    assert Power(2, 1) == 2 by { PowerOne(2); }
  }

  lemma PowerOne(b: nat)
    ensures Power(b, 1) == b
  {
    assert Power(b, 0) == 1;
  }

  lemma PowersOfTwo()
    ensures Power(2, 31) == 0x8000_0000 && Power(2, 63) == 0x8000_0000_0000_0000
    ensures Power(2, 127) == 0x8000_0000_0000_0000_0000_0000_0000_0000
    ensures Power(2, 255) == 0x8000_0000_0000_0000_0000_0000_0000_0000_0000_0000_0000_0000_0000_0000_0000_0000
  {
    hide Power;
    PowerOne(2);
    Doubled(1);
    Doubled(3);
    Doubled(7);
    Doubled(15);
    Doubled(31);
    Doubled(63);
    Doubled(127);
  }

  lemma PowersOfTen()
    ensures Power(10, 9) == 1_000_000_000 && Power(10, 18) == 1_000_000_000_000_000_000
    ensures Power(10, 38) == 100_000_000_000_000_000_000_000_000_000_000_000_000
    ensures Power(10, 76) == Power(10, 38) * Power(10, 38)
  {
    PowerSum(10, 9, 9);
    PowerSum(10, 18, 20);
    PowerSum(10, 18, 2);
    PowerSum(10, 38, 38);
  }

  lemma WidthFits(w: nat, p: nat)
    requires IsWidth(w, p)
    ensures Fits(p, w)
  {
    PowersOfTwo();
    PowersOfTen();
    PowerSum(10, 1, p);
  }

  lemma WidthName(w: nat, p: nat)
    requires IsWidth(w, p)
    ensures var name := "Decimal" + Itoa(w);
            IsIdent(name) && DecimalPrecision(name) == Some(p) && !IsWrapper(name) && name != "Map"
              && name != "FixedString" && name != "Decimal"
  {
    assert NatDigits(3) == "3" && NatDigits(6) == "6" && NatDigits(12) == "12" && NatDigits(25) == "25";
    assert NatDigits(32) == "32" && NatDigits(64) == "64" && NatDigits(128) == "128" && NatDigits(256) == "256";
    hide NatDigits;
    var name := "Decimal" + Itoa(w);
    assert w == 32 ==> name == "Decimal32";
    assert w == 64 ==> name == "Decimal64";
    assert w == 128 ==> name == "Decimal128";
    assert w == 256 ==> name == "Decimal256";
    assert forall k :: 0 <= k < |name| ==> IsIdentChar(name[k]);
  }

  lemma WidthArguments(s: string, i: nat, q: nat, name: string, p: nat, a: string, scale: int)
    requires DecimalPrecision(name) == Some(p) && !IsWrapper(name) && name != "Map" && name != "FixedString"
    requires name != "Decimal" && ReadsInt(a, scale) && Called(s, i, q, a)
    ensures ArgumentsAt(s, i, name, q) == Ok((Decimal(p, scale), q + 2 + |a|))
  {
    hide IntAt, Expect, DecimalPrecision, IsWrapper;
    assert IntAt(s, q + 1) == Ok((scale, q + 1 + |a|));
    ExpectAt(s, q + 1 + |a|, ')');
    assert ParenInt(s, q) == Ok((scale, q + 2 + |a|));
  }

  /** DecimalW(S) is a decimal of scale S with the greatest precision whose values all fit W bits. */
  lemma FixedDecimalParses(w: nat, p: nat, scale: int)
    requires (w == 32 || w == 64 || w == 128 || w == 256) && Fits(p, w) && IsInt(scale)
    ensures Parse("Decimal" + Itoa(w) + "(" + Itoa(scale) + ")") == Ok(Decimal(p, scale))
  {
    hide Fits, Itoa, IsIdent, DecimalPrecision, IsWrapper, ReadsInt, ArgumentsAt, Expect, At, Parse, ReadsType;
    var q := if w == 32 then 9 else if w == 64 then 18 else if w == 128 then 38 else 76;
    WidthFits(w, q);
    GreatestIsUnique(p, q, w);
    WidthName(w, p);
    var name, a := "Decimal" + Itoa(w), Itoa(scale);
    ItoaReads(scale);
    forall s: string, i: nat, q: nat | Called(s, i, q, a)
      ensures ArgumentsAt(s, i, name, q) == Ok((Decimal(p, scale), q + 2 + |a|))
    {
      WidthArguments(s, i, q, name, p, a, scale);
    }
    CallReads(name, a, Decimal(p, scale));
    TextParses(name + "(" + a + ")", Decimal(p, scale));
  }

  // ---- Names ----

  /** A bare name is a scalar, except that a date with a time has no zone and, to sub-seconds, milliseconds. */
  lemma BareNameParses(name: string)
    requires IsIdent(name)
    ensures Parse(name) == Ok(if name == "DateTime" then DateTime("")
                              else if name == "DateTime64" then DateTime64(3, "")
                              else Scalar(name))
  {
    NameReads(name);
    TextParses(name, BareType(name));
  }

  /** The constructors under their names. */
  lemma NamedParses(t: Type, u: Type, n: int, m: int)
    requires WellFormed(t) && WellFormed(u) && IsInt(n) && IsInt(m)
    ensures Parse("Nullable(" + Print(t) + ")") == Ok(Nullable(t))
    ensures Parse("LowCardinality(" + Print(t) + ")") == Ok(LowCardinality(t))
    ensures Parse("Array(" + Print(t) + ")") == Ok(Array(t))
    ensures Parse("Map(" + Print(t) + ", " + Print(u) + ")") == Ok(Map(t, u))
    ensures Parse("FixedString(" + Itoa(n) + ")") == Ok(FixedString(n))
    ensures Parse("Decimal(" + Itoa(n) + ", " + Itoa(m) + ")") == Ok(Decimal(n, m))
    ensures Parse("DateTime64(" + Itoa(n) + ")") == Ok(DateTime64(n, ""))
  {
    hide Parse;
    ParsePrint(Nullable(t));
    ParsePrint(LowCardinality(t));
    ParsePrint(Array(t));
    ParsePrint(Map(t, u));
    ParsePrint(FixedString(n));
    ParsePrint(Decimal(n, m));
    ParsePrint(DateTime64(n, ""));
  }

  /** A tuple without and with field names. */
  lemma PairParses(a: string, t: Type, b: string, u: Type)
    requires IsIdent(a) && IsIdent(b) && WellFormed(t) && WellFormed(u)
    ensures Parse("Tuple(" + (Print(t) + ", " + Print(u)) + ")") == Ok(Tuple([], [t, u]))
    ensures Parse("Tuple(" + ((a + " " + Print(t)) + ", " + (b + " " + Print(u))) + ")") == Ok(Tuple([a, b], [t, u]))
  {
    PairIsWellFormed(a, t, b, u);
    hide Parse, WellFormed, IsIdent, Print;
    ParsePrint(Tuple([], [t, u]));
    ParsePrint(Tuple([a, b], [t, u]));
    PrintTuple([], t, u);
    PrintTuple([a, b], t, u);
    assert "" + Print(t) == Print(t) && "" + Print(u) == Print(u);
    assert Rest([a, b]) == [b];
  }

  lemma PrintTuple(names: seq<string>, t: Type, u: Type)
    ensures Print(Tuple(names, [t, u])) ==
            "Tuple(" + ((FieldName(names) + Print(t)) + ", " + (FieldName(Rest(names)) + Print(u))) + ")"
  {
    hide FieldName, PrintElems;
    PrintPair(names, t, u);
  }

  lemma PairIsWellFormed(a: string, t: Type, b: string, u: Type)
    requires IsIdent(a) && IsIdent(b) && WellFormed(t) && WellFormed(u)
    ensures WellFormed(Tuple([], [t, u])) && WellFormed(Tuple([a, b], [t, u])) && a != "" && b != ""
  {
    assert a in [a, b] && a != "";
  }

  lemma PrintPair(names: seq<string>, t: Type, u: Type)
    ensures PrintElems(names, [t, u]) == (FieldName(names) + Print(t)) + ", " + (FieldName(Rest(names)) + Print(u))
  {
    hide Print, FieldName;
    assert [t, u][1..] == [u] && [u][1..] == [];
    var last := FieldName(Rest(names)) + Print(u);
    assert PrintElems(Rest(names), [u]) == last + "" == last;
    var first := FieldName(names) + Print(t);
    assert PrintElems(names, [t, u]) == first + (", " + last);
  }

  /** A number may carry a plus sign. */
  lemma PlusParses(n: nat)
    requires IsInt(n)
    ensures Parse("FixedString" + "(" + ("+" + Itoa(n)) + ")") == Ok(FixedString(n))
  {
    hide ReadsInt, ReadsType, Parse, Itoa;
    var ds := Itoa(n);
    DigitsAreDigits(n);
    PlusReads(n);
    NumberReads("+" + ds, ds, n);
    FixedStringReads("+" + ds, n);
    TextParses("FixedString" + "(" + ("+" + ds) + ")", FixedString(n));
  }

  lemma DigitsAreDigits(n: nat)
    ensures AllDigits(Itoa(n))
  {
    DigitsRoundTrip(n);
  }

  lemma PlusReads(n: nat)
    requires IsInt(n)
    ensures Atoi("+" + Itoa(n)) == Some(n)
  {
    DigitsRoundTrip(n);
    DigitsPrefix("+", Itoa(n), 0, 0);
  }

  // ---- Around a type ----

  predicate AllBlank(a: string) {
    forall c <- a :: c == ' ' || c == '\t' || c == '\n'
  }

  lemma {:induction false} SkipsBlanks(s: string, i: nat, a: string)
    requires At(s, i, a) && AllBlank(a)
    ensures SkipSpace(s, i) == SkipSpace(s, i + |a|)
    decreases |a|
  {
    if a != "" {
      AtRest(s, i, a);
      assert a[0] in a && forall c <- a[1..] :: c in a;
      SkipsBlanks(s, i + 1, a[1..]);
    }
  }

  /** Blanks around a type do not matter. */
  lemma BlanksAround(a: string, t: Type, b: string)
    requires AllBlank(a) && AllBlank(b) && WellFormed(t)
    ensures Parse(a + ("Nullable" + "(" + Print(t) + ")") + b) == Ok(Nullable(t))
  {
    hide TypeAt, ArgumentsAt, At, Print, SkipSpace, IsIdent, Expect, WellFormed, AllBlank;
    var text := "Nullable" + "(" + Print(t) + ")";
    var s, i := a + text + b, |a|;
    var e := i + |text|;
    Placed(a, text, b);
    TypeNamesAreIdents("Nullable");
    CallAt(s, i, "Nullable", Print(t));
    WellFormedReads(t);
    WrapperArguments(s, i, i + 8, "Nullable", Print(t), t);
    assert TypeAt(s, i) == Ok((Nullable(t), e));
    SkipsBlanks(s, 0, a);
    SpaceBeforeType(s, 0, i);
    SkipsBlanks(s, e, b);
    assert SkipSpace(s, |s|) == |s| by { SkipAtEnd(s); }
  }

  lemma SkipAtEnd(s: string)
    ensures SkipSpace(s, |s|) == |s|
  {
  }

  lemma Placed(a: string, text: string, b: string)
    ensures var s := a + text + b; At(s, 0, a) && At(s, |a|, text) && At(s, |a| + |text|, b)
  {
  }

  /** What follows a type is refused. */
  lemma TrailingTextIsRefused(t: Type, tail: string)
    requires WellFormed(t) && tail != "" && (tail[0] == ',' || tail[0] == ')')
    ensures Parse(Print(t) + tail) == Err(TrailingText)
  {
    hide TypeAt, Print, WellFormed;
    var s := Print(t) + tail;
    WellFormedReads(t);
    assert At(s, 0, Print(t)) && Closed(s, |Print(t)|);
    assert TypeAt(s, 0) == Ok((t, |Print(t)|));
  }

  /** Nothing else is a blank. */
  lemma OnlyBlanksAreSkipped(c: char, s: string)
    requires !IsIdentChar(c) && c != ' ' && c != '\t' && c != '\n'
    ensures Parse([c] + s) == Err(ExpectedName)
  {
    assert ([c] + s)[0] == c;
  }

  // ---- Quoted text ----

  /** A character of a quoted text, as itself or behind a backslash. */
  datatype Letter = Raw(c: char) | Escaped(c: char)

  /** The letter that stands for a character behind a backslash. */
  function Code(c: char): char {
    if c == '\n' then 'n' else if c == '\t' then 't' else if c == '\r' then 'r' else if c == '\0' then '0' else c
  }

  function Spelled(ls: seq<Letter>): string {
    if ls == [] then ""
    else (match ls[0] case Raw(c) => [c] case Escaped(c) => ['\\', Code(c)]) + Spelled(ls[1..])
  }

  function Meant(ls: seq<Letter>): string {
    if ls == [] then "" else [ls[0].c] + Meant(ls[1..])
  }

  /** Backslashes and quotes are escaped, and the letters that code for another character are not. */
  predicate IsLiteral(ls: seq<Letter>) {
    forall l <- ls :: if l.Raw? then l.c != '\\' && l.c != '\'' else l.c !in "ntr0"
  }

  lemma {:induction false} LettersRead(s: string, i: nat, ls: seq<Letter>, acc: string)
    requires IsLiteral(ls) && At(s, i, Spelled(ls) + "'")
    ensures StringBody(s, i, acc) == Ok((acc + Meant(ls), i + |Spelled(ls)| + 1))
    decreases |ls|
  {
    AtChar(s, i, Spelled(ls) + "'", 0);
    if ls == [] {
      assert acc + "" == acc;
    } else {
      var c, rest := ls[0].c, ls[1..];
      assert ls[0] in ls;
      var head := if ls[0].Raw? then [c] else ['\\', Code(c)];
      assert Spelled(ls) + "'" == head + (Spelled(rest) + "'");
      AtSplit(s, i, head, Spelled(rest) + "'");
      AtChar(s, i, head, |head| - 1);
      assert ls[0].Escaped? ==> Unescape(Code(c)) == c;
      LettersRead(s, i + |head|, rest, acc + [c]);
      assert acc + [c] + Meant(rest) == acc + Meant(ls);
    }
  }

  /** What a quoted text means, escapes included, wherever it stands. */
  lemma LiteralReads(ls: seq<Letter>)
    requires IsLiteral(ls)
    ensures ReadsString("'" + Spelled(ls) + "'", Meant(ls))
  {
    hide IsLiteral;
    var text := Spelled(ls) + "'";
    assert "'" + Spelled(ls) + "'" == "'" + text;
    forall s: string, i: nat | At(s, i, "'" + text) ensures StringAt(s, i) == Ok((Meant(ls), i + |"'" + text|)) {
      AtSplit(s, i, "'", text);
      AtChar(s, i, "'", 0);
      ExpectAt(s, i, '\'');
      LettersRead(s, i + 1, ls, "");
      assert "" + Meant(ls) == Meant(ls);
    }
  }

  lemma TimeZoneParses(ls: seq<Letter>)
    requires IsLiteral(ls)
    ensures Parse("DateTime" + "(" + ("'" + Spelled(ls) + "'") + ")") == Ok(DateTime(Meant(ls)))
  {
    hide IsLiteral, ReadsString, ReadsType, Parse;
    var a := "'" + Spelled(ls) + "'";
    LiteralReads(ls);
    DateTimeReads(a, Meant(ls));
    TextParses("DateTime" + "(" + a + ")", DateTime(Meant(ls)));
  }

  // ---- Enum values ----

  lemma EnumInRange(name: string, bits: int, ls: seq<Letter>, v: int)
    requires (name == "Enum8" && bits == 8) || (name == "Enum16" && bits == 16)
    requires IsLiteral(ls) && InRange(bits, v)
    ensures Parse(name + "(" + ("'" + Spelled(ls) + "'" + " = " + Itoa(v)) + ")") == Ok(Enum(bits, [Meant(ls)], [v]))
  {
    hide IsLiteral, ReadsString, ReadsInt, ReadsItem, ReadsItems, ReadsType, Parse, Itoa;
    var a, b := "'" + Spelled(ls) + "'", Itoa(v);
    LiteralReads(ls);
    ItoaReads(v);
    ItemReads(a, Meant(ls), b, bits, v);
    LastItemReads(a + " = " + b, bits, Meant(ls), v);
    EnumReads(name, bits, a + " = " + b, [Meant(ls)], [v]);
    TextParses(name + "(" + (a + " = " + b) + ")", Enum(bits, [Meant(ls)], [v]));
  }

  lemma ItemRefused(s: string, i: nat, a: string, lab: string, b: string, bits: int, v: int)
    requires ReadsString(a, lab) && ReadsInt(b, v) && StartsSolid(b) && !InRange(bits, v)
    requires At(s, i, a + " = " + b) && NoDigit(s, i + |a + " = " + b|)
    ensures i <= |s| && EnumItem(s, i, bits) == Err(ValueOutOfRange)
  {
    hide StringAt, IntAt, Expect;
    EqualSign(s, i, a, b);
    SpaceBeforeToken(s, i + |a| + 2, i + |a| + 3);
  }

  lemma EnumOutOfRange(name: string, bits: int, ls: seq<Letter>, v: int)
    requires (name == "Enum8" && bits == 8) || (name == "Enum16" && bits == 16)
    requires IsLiteral(ls) && IsInt(v) && !InRange(bits, v)
    ensures Parse(name + "(" + ("'" + Spelled(ls) + "'" + " = " + Itoa(v)) + ")") == Err(ValueOutOfRange)
  {
    hide IsLiteral, ReadsString, ReadsInt, Itoa, ArgumentsAt, EnumItem, At, Expect, TypeAt;
    var a, b := "'" + Spelled(ls) + "'", Itoa(v);
    var item := a + " = " + b;
    var s, p := name + "(" + item + ")", |name|;
    LiteralReads(ls);
    ItoaReads(v);
    TypeNamesAreIdents(name);
    assert At(s, 0, s) by { AtItself(s); }
    CallAt(s, 0, name, item);
    DispatchEnum(s, 0, p);
    ItemRefused(s, p + 1, a, Meant(ls), b, bits, v);
  }

  lemma AtItself(s: string)
    ensures At(s, 0, s)
  {
  }

  /** A label takes exactly the values of its width. */
  lemma EnumTakesExactly(ls: seq<Letter>, v: int)
    requires IsLiteral(ls) && IsInt(v)
    ensures var item := "'" + Spelled(ls) + "'" + " = " + Itoa(v);
            && Parse("Enum8" + "(" + item + ")") ==
                 (if -128 <= v <= 127 then Ok(Enum(8, [Meant(ls)], [v])) else Err(ValueOutOfRange))
            && Parse("Enum16" + "(" + item + ")") ==
                 (if -32768 <= v <= 32767 then Ok(Enum(16, [Meant(ls)], [v])) else Err(ValueOutOfRange))
  {
    hide IsLiteral, Parse, Itoa, Spelled, Meant;
    if InRange(8, v) { EnumInRange("Enum8", 8, ls, v); } else { EnumOutOfRange("Enum8", 8, ls, v); }
    if InRange(16, v) { EnumInRange("Enum16", 16, ls, v); } else { EnumOutOfRange("Enum16", 16, ls, v); }
  }
}
