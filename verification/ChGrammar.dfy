/**
  The grammar of ClickHouse type names, as a function from a position in the text to the
  value read there and the position after it.
 */
module ChGrammar {
  import opened Text
  import opened ChTypes

  datatype ParseError =
    | Expected(c: char) | ExpectedName | ExpectedNumber | BadNumber
    | TrailingBackslash | UnterminatedString | ValueOutOfRange | Unbalanced | TrailingText

  type Read<T> = Result<(T, nat), ParseError>

  predicate IsBlank(c: char) {
    c == ' ' || c == '\t' || c == '\n'
  }

  function SkipSpace(s: string, i: nat): (j: nat)
    requires i <= |s|
    ensures i <= j <= |s| && (j == |s| || !IsBlank(s[j]))
    decreases |s| - i
  {
    if i < |s| && IsBlank(s[i]) then SkipSpace(s, i + 1) else i
  }

  /** The next character that is not a blank, or NUL at the end. */
  function Peek(s: string, i: nat): char
    requires i <= |s|
  {
    var j := SkipSpace(s, i);
    if j == |s| then '\0' else s[j]
  }

  function Expect(s: string, i: nat, c: char): (r: Result<nat, ParseError>)
    requires i <= |s|
    ensures r.Ok? ==> i < r.value <= |s|
  {
    var j := SkipSpace(s, i);
    if j < |s| && s[j] == c then Ok(j + 1) else Err(Expected(c))
  }

  function IdentEnd(s: string, i: nat): (j: nat)
    requires i <= |s|
    ensures i <= j <= |s|
    decreases |s| - i
  {
    if i < |s| && IsIdentChar(s[i]) then IdentEnd(s, i + 1) else i
  }

  function IdentAt(s: string, i: nat): (r: Read<string>)
    requires i <= |s|
    ensures r.Ok? ==> i < r.value.1 <= |s|
  {
    var j := SkipSpace(s, i);
    var e := IdentEnd(s, j);
    if e == j then Err(ExpectedName) else Ok((s[j..e], e))
  }

  function Unescape(c: char): char {
    match c
    case 'n' => '\n'
    case 't' => '\t'
    case 'r' => '\r'
    case '0' => '\0'
    case _ => c
  }

  /** The rest of a string literal, with acc read so far. */
  function StringBody(s: string, i: nat, acc: string): (r: Read<string>)
    requires i <= |s|
    ensures r.Ok? ==> i < r.value.1 <= |s|
    decreases |s| - i
  {
    if i == |s| then Err(UnterminatedString)
    else if s[i] == '\\' then
      if i + 1 == |s| then Err(TrailingBackslash)
      else StringBody(s, i + 2, acc + [Unescape(s[i + 1])])
    else if s[i] == '\'' then Ok((acc, i + 1))
    else StringBody(s, i + 1, acc + [s[i]])
  }

  function StringAt(s: string, i: nat): (r: Read<string>)
    requires i <= |s|
    ensures r.Ok? ==> i < r.value.1 <= |s|
  {
    var j :- Expect(s, i, '\'');
    StringBody(s, j, "")
  }

  function IntAt(s: string, i: nat): (r: Read<int>)
    requires i <= |s|
    ensures r.Ok? ==> i < r.value.1 <= |s| && IsInt(r.value.0)
  {
    var j := SkipSpace(s, i);
    var k := if j < |s| && (s[j] == '-' || s[j] == '+') then j + 1 else j;
    var e := DigitsEnd(s, k);
    if e == j then Err(ExpectedNumber)
    else match Atoi(s[j..e])
      case None => Err(BadNumber)
      case Some(n) => Ok((n, e))
  }

  function BareType(name: string): Type {
    if name == "DateTime" then DateTime("")
    else if name == "DateTime64" then DateTime64(3, "")
    else Scalar(name)
  }

  function TypeAt(s: string, i: nat): (r: Read<Type>)
    requires i <= |s|
    ensures r.Ok? ==> i < r.value.1 <= |s|
    decreases |s| - i, 1
  {
    var (name, e) :- IdentAt(s, i);
    var p := SkipSpace(s, e);
    if p == |s| || s[p] != '(' then Ok((BareType(name), p)) else ArgumentsAt(s, i, name, p)
  }

  predicate IsWrapper(name: string) {
    name == "Nullable" || name == "LowCardinality" || name == "Array"
  }

  function Wrap(name: string, elem: Type): Type {
    if name == "Nullable" then Nullable(elem) else if name ==
      "LowCardinality" then LowCardinality(elem) else Array(elem)
  }

  /** The precision that a fixed-width Decimal spelling implies. */
  function DecimalPrecision(name: string): Option<int> {
    if name == "Decimal32" then Some(9)
    else if name == "Decimal64" then Some(18)
    else if name == "Decimal128" then Some(38)
    else if name == "Decimal256" then Some(76)
    else None
  }

  /** The type called name, whose arguments start at p; its own text started at i. */
  function ArgumentsAt(s: string, i: nat, name: string, p: nat): (r: Read<Type>)
    requires i < p <= |s|
    ensures r.Ok? ==> p < r.value.1 <= |s|
    decreases |s| - i, 0
  {
    if IsWrapper(name) then
      var (t, e) :- ParenType(s, p);
      Ok((Wrap(name, t), e))
    else if name == "Map" then MapAt(s, p)
    else if name == "FixedString" then
      var (n, e) :- ParenInt(s, p);
      Ok((FixedString(n), e))
    else if name == "Decimal" then DecimalAt(s, p)
    else if DecimalPrecision(name).Some? then
      var (scale, e) :- ParenInt(s, p);
      Ok((Decimal(DecimalPrecision(name).value, scale), e))
    else if name == "DateTime" then
      var (tz, e) :- ParenString(s, p);
      Ok((DateTime(tz), e))
    else if name == "DateTime64" then DateTime64At(s, p)
    else if name == "Enum8" then EnumAt(s, p, 8)
    else if name == "Enum16" then EnumAt(s, p, 16)
    else if name == "Tuple" then TupleAt(s, p)
    else
      var e :- BalancedAt(s, p);
      Ok((Unsupported(s[i..e]), e))
  }

  function ParenType(s: string, p: nat): (r: Read<Type>)
    requires p <= |s|
    ensures r.Ok? ==> p < r.value.1 <= |s|
    decreases |s| - p, 0
  {
    var e :- Expect(s, p, '(');
    var (t, e) :- TypeAt(s, e);
    var e :- Expect(s, e, ')');
    Ok((t, e))
  }

  function MapAt(s: string, p: nat): (r: Read<Type>)
    requires p <= |s|
    ensures r.Ok? ==> p < r.value.1 <= |s|
    decreases |s| - p, 0
  {
    var e :- Expect(s, p, '(');
    var (k, e) :- TypeAt(s, e);
    var e :- Expect(s, e, ',');
    var (v, e) :- TypeAt(s, e);
    var e :- Expect(s, e, ')');
    Ok((Map(k, v), e))
  }

  function DecimalAt(s: string, p: nat): (r: Read<Type>)
    requires p <= |s|
    ensures r.Ok? ==> p < r.value.1 <= |s|
  {
    var e :- Expect(s, p, '(');
    var (prec, e) :- IntAt(s, e);
    var e :- Expect(s, e, ',');
    var (scale, e) :- IntAt(s, e);
    var e :- Expect(s, e, ')');
    Ok((Decimal(prec, scale), e))
  }

  function ParenInt(s: string, p: nat): (r: Read<int>)
    requires p <= |s|
    ensures r.Ok? ==> p < r.value.1 <= |s| && IsInt(r.value.0)
  {
    var e :- Expect(s, p, '(');
    var (n, e) :- IntAt(s, e);
    var e :- Expect(s, e, ')');
    Ok((n, e))
  }

  function ParenString(s: string, p: nat): (r: Read<string>)
    requires p <= |s|
    ensures r.Ok? ==> p < r.value.1 <= |s|
  {
    var e :- Expect(s, p, '(');
    var (str, e) :- StringAt(s, e);
    var e :- Expect(s, e, ')');
    Ok((str, e))
  }

  function DateTime64At(s: string, p: nat): (r: Read<Type>)
    requires p <= |s|
    ensures r.Ok? ==> p < r.value.1 <= |s|
  {
    var e :- Expect(s, p, '(');
    var (prec, e) :- IntAt(s, e);
    if Peek(s, e) == ',' then
      var e :- Expect(s, e, ',');
      var (tz, e) :- StringAt(s, e);
      var e :- Expect(s, e, ')');
      Ok((DateTime64(prec, tz), e))
    else
      var e :- Expect(s, e, ')');
      Ok((DateTime64(prec, ""), e))
  }

  /** One label and its value. */
  function EnumItem(s: string, i: nat, bits: int): (r: Read<(string, int)>)
    requires i <= |s|
    ensures r.Ok? ==> i < r.value.1 <= |s| && InRange(bits, r.value.0.1)
  {
    var (lab, e) :- StringAt(s, i);
    var e :- Expect(s, e, '=');
    var (v, e) :- IntAt(s, e);
    if InRange(bits, v) then Ok(((lab, v), e)) else Err(ValueOutOfRange)
  }

  /** The remaining items of an enum, with the earlier ones given. */
  function EnumItems(s: string, i: nat, bits: int, labels: seq<string>, values: seq<int>): (r: Read<Type>)
    requires i <= |s|
    ensures r.Ok? ==> i < r.value.1 <= |s|
    decreases |s| - i
  {
    var ((lab, v), e) :- EnumItem(s, i, bits);
    if Peek(s, e) == ',' then
      var e :- Expect(s, e, ',');
      EnumItems(s, e, bits, labels + [lab], values + [v])
    else
      var e :- Expect(s, e, ')');
      Ok((Enum(bits, labels + [lab], values + [v]), e))
  }

  function EnumAt(s: string, p: nat, bits: int): (r: Read<Type>)
    requires p <= |s|
    ensures r.Ok? ==> p < r.value.1 <= |s|
  {
    var e :- Expect(s, p, '(');
    EnumItems(s, e, bits, [], [])
  }

  /** An identifier followed by neither an argument list nor the end of the element names a field. */
  predicate NamesField(s: string, i: nat)
    requires i <= |s|
  {
    var id := IdentAt(s, i);
    id.Ok? && var next := Peek(s, id.value.1);
    next != '(' && next != ',' && next != ')'
  }

  /** One element of a tuple with its field name; a positional element is read again from its start. */
  function TupleItem(s: string, i: nat): (r: Read<(string, Type)>)
    requires i <= |s|
    ensures r.Ok? ==> i < r.value.1 <= |s|
    decreases |s| - i, 2
  {
    var (ident, e) :- IdentAt(s, i);
    if NamesField(s, i) then
      var (t, e) :- TypeAt(s, SkipSpace(s, e));
      Ok(((ident, t), e))
    else
      var (t, e) :- TypeAt(s, i);
      Ok((("", t), e))
  }

  /** The remaining elements of a tuple; named says whether an earlier one had a field name. */
  function TupleItems(s: string, i: nat, names: seq<string>, elems: seq<Type>, named: bool): (r: Read<Type>)
    requires i <= |s|
    ensures r.Ok? ==> i < r.value.1 <= |s|
    decreases |s| - i, 3
  {
    var ((name, elem), e) :- TupleItem(s, i);
    var names, elems, named := names + [name], elems + [elem], named || NamesField(s, i);
    if Peek(s, e) == ',' then
      var e :- Expect(s, e, ',');
      TupleItems(s, e, names, elems, named)
    else
      var e :- Expect(s, e, ')');
      Ok((Tuple(if named then names else [], elems), e))
  }

  function TupleAt(s: string, p: nat): (r: Read<Type>)
    requires p <= |s|
    ensures r.Ok? ==> p < r.value.1 <= |s|
    decreases |s| - p, 0
  {
    var e :- Expect(s, p, '(');
    TupleItems(s, e, [], [], false)
  }

  /** The position after the closing bracket of a group entered depth brackets deep. */
  function Balanced(s: string, i: nat, depth: nat): (r: Result<nat, ParseError>)
    requires i <= |s| && depth > 0
    ensures r.Ok? ==> i < r.value <= |s|
    decreases |s| - i
  {
    if i == |s| then Err(Unbalanced)
    else if s[i] == '\'' then
      var (_, e) :- StringBody(s, i + 1, "");
      Balanced(s, e, depth)
    else if s[i] == '(' then Balanced(s, i + 1, depth + 1)
    else if s[i] == ')' then if depth == 1 then Ok(i + 1) else Balanced(s, i + 1, depth - 1)
    else Balanced(s, i + 1, depth)
  }

  function BalancedAt(s: string, p: nat): (r: Result<nat, ParseError>)
    requires p <= |s|
    ensures r.Ok? ==> p < r.value <= |s|
  {
    var e :- Expect(s, p, '(');
    Balanced(s, e, 1)
  }

  function Parse(s: string): Result<Type, ParseError> {
    var (t, e) :- TypeAt(s, 0);
    if SkipSpace(s, e) == |s| then Ok(t) else Err(TrailingText)
  }
}
