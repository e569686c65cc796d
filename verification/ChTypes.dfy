/** ClickHouse types and their canonical spelling, which is also their identity. */
module ChTypes {
  import opened Text

  datatype Type =
    | Scalar(name: string)
    | FixedString(n: int)
    | Decimal(precision: int, scale: int)
    | DateTime(tz: string)
    | DateTime64(precision: int, tz: string)
    | Nullable(elem: Type)
    | LowCardinality(elem: Type)
    | Array(elem: Type)
    | Map(key: Type, val: Type)
    | Enum(bits: int, labels: seq<string>, values: seq<int>)
    | Tuple(names: seq<string>, elems: seq<Type>) // no names at all for a positional tuple
    | Unsupported(raw: string)

  /** The body of a quoted string: backslashes and single quotes are escaped. */
  function Escape(s: string): string {
    if s == "" then ""
    else (if s[0] == '\\' || s[0] == '\'' then ['\\', s[0]] else [s[0]]) + Escape(s[1..])
  }

  function Quote(s: string): string {
    "'" + Escape(s) + "'"
  }

  function Print(t: Type): string
    decreases t, 1
  {
    match t
    case Scalar(name) => name
    case FixedString(n) => "FixedString(" + Itoa(n) + ")"
    case Decimal(p, s) => "Decimal(" + Itoa(p) + ", " + Itoa(s) + ")"
    case DateTime(tz) => if tz == "" then "DateTime" else "DateTime(" + Quote(tz) + ")"
    case DateTime64(p, tz) =>
      if tz == "" then "DateTime64(" + Itoa(p) + ")" else "DateTime64(" + Itoa(p) + ", " + Quote(tz) + ")"
    case Nullable(e) => "Nullable(" + Print(e) + ")"
    case LowCardinality(e) => "LowCardinality(" + Print(e) + ")"
    case Array(e) => "Array(" + Print(e) + ")"
    case Map(k, v) => "Map(" + Print(k) + ", " + Print(v) + ")"
    case Enum(bits, labels, values) => "Enum" + Itoa(bits) + "(" + PrintLabels(labels, values) + ")"
    case Tuple(names, elems) => "Tuple(" + PrintElems(names, elems) + ")"
    case Unsupported(raw) => raw
  }

  function PrintLabels(labels: seq<string>, values: seq<int>): string {
    if labels == [] || values == [] then ""
    else
      Quote(labels[0]) + " = " + Itoa(values[0])
      + if |labels| > 1 then ", " + PrintLabels(labels[1..], values[1..]) else ""
  }

  function FieldName(names: seq<string>): string {
    if names != [] && names[0] != "" then names[0] + " " else ""
  }

  function Rest(names: seq<string>): seq<string> {
    if names == [] then [] else names[1..]
  }

  function PrintElems(names: seq<string>, elems: seq<Type>): string
    decreases elems, 0
  {
    if elems == [] then ""
    else
      FieldName(names) + Print(elems[0])
      + if |elems| > 1 then ", " + PrintElems(Rest(names), elems[1..]) else ""
  }

  function Key(t: Type): string {
    "ch:" + Print(t)
  }

  predicate InRange(bits: int, v: int) {
    if bits == 8 then -128 <= v <= 127 else -32768 <= v <= 32767
  }

  /** The types whose spelling identifies them. */
  predicate WellFormed(t: Type) {
    match t
    case Scalar(name) => IsIdent(name) && name != "DateTime" && name != "DateTime64"
    case FixedString(n) => IsInt(n)
    case Decimal(p, s) => IsInt(p) && IsInt(s)
    case DateTime(_) => true
    case DateTime64(p, _) => IsInt(p)
    case Nullable(e) => WellFormed(e)
    case LowCardinality(e) => WellFormed(e)
    case Array(e) => WellFormed(e)
    case Map(k, v) => WellFormed(k) && WellFormed(v)
    case Enum(bits, labels, values) =>
      && (bits == 8 || bits == 16) && labels != [] && |labels| == |values|
      && forall v <- values :: InRange(bits, v)
    case Tuple(names, elems) =>
      && elems != [] && (forall e <- elems :: WellFormed(e))
      && (names == [] || (|names| == |elems| && exists n <- names :: n != ""))
      && forall n <- names :: n == "" || IsIdent(n)
    case Unsupported(_) => false
  }

  /** No part of the type is one that pggen keeps verbatim. */
  predicate Supported(t: Type) {
    match t
    case Nullable(e) => Supported(e)
    case LowCardinality(e) => Supported(e)
    case Array(e) => Supported(e)
    case Map(k, v) => Supported(k) && Supported(v)
    case Tuple(_, elems) => forall e <- elems :: Supported(e)
    case Unsupported(_) => false
    case _ => true
  }

  // ---- The printers, as they write a builder ----

  /** Every label has a value; printing an enum without one is a run-time error. */
  predicate Printable(t: Type) {
    match t
    case Nullable(e) => Printable(e)
    case LowCardinality(e) => Printable(e)
    case Array(e) => Printable(e)
    case Map(k, v) => Printable(k) && Printable(v)
    case Tuple(_, elems) => forall e <- elems :: Printable(e)
    case Enum(_, labels, values) => |labels| <= |values|
    case _ => true
  }

  function Separator(i: nat): string {
    if i > 0 then ", " else ""
  }

  /** What is left to write before the i-th label. */
  function LabelTail(labels: seq<string>, values: seq<int>, i: nat): string
    requires i <= |labels| <= |values|
  {
    if i == |labels| then "" else Separator(i) + PrintLabels(labels[i..], values[i..])
  }

  lemma LabelStep(labels: seq<string>, values: seq<int>, i: nat)
    requires i < |labels| <= |values|
    ensures LabelTail(labels, values, i) ==
            Separator(i) + (Quote(labels[i]) + " = " + Itoa(values[i])) + LabelTail(labels, values, i + 1)
  {
    hide Quote, Itoa;
    assert labels[i..][0] == labels[i] && values[i..][0] == values[i];
    assert labels[i..][1..] == labels[i + 1..] && values[i..][1..] == values[i + 1..];
    var item := Quote(labels[i]) + " = " + Itoa(values[i]);
    assert PrintLabels(labels[i..], values[i..]) == item + LabelTail(labels, values, i + 1);
  }

  lemma LabelEnds(labels: seq<string>, values: seq<int>)
    requires |labels| <= |values|
    ensures LabelTail(labels, values, 0) == PrintLabels(labels, values) && LabelTail(labels, values, |labels|) == ""
  {
    assert labels[0..] == labels && values[0..] == values;
  }

  method EnumString(bits: int, labels: seq<string>, values: seq<int>) returns (sb: string)
    requires |labels| <= |values|
    ensures sb == Print(Enum(bits, labels, values))
  {
    hide Quote, Itoa, PrintLabels, LabelTail, Separator;
    var head := "Enum" + Itoa(bits) + "(";
    sb := head;
    LabelEnds(labels, values);
    for i := 0 to |labels|
      invariant sb + LabelTail(labels, values, i) == head + PrintLabels(labels, values)
    {
      LabelStep(labels, values, i);
      var item := Separator(i) + (Quote(labels[i]) + " = " + Itoa(values[i]));
      assert sb + (item + LabelTail(labels, values, i + 1)) == (sb + item) + LabelTail(labels, values, i + 1);
      sb := sb + item;
    }
    sb := sb + ")";
  }

  /** What is left to write before the i-th element. */
  function ElemTail(names: seq<string>, elems: seq<Type>, i: nat): string
    requires i <= |elems|
  {
    if i == |elems| then "" else Separator(i) + PrintElems(From(names, i), elems[i..])
  }

  lemma ElemStep(names: seq<string>, elems: seq<Type>, i: nat)
    requires i < |elems|
    ensures ElemTail(names, elems, i) ==
            Separator(i) + (FieldName(From(names, i)) + Print(elems[i])) + ElemTail(names, elems, i + 1)
  {
    assert elems[i..][0] == elems[i] && elems[i..][1..] == elems[i + 1..];
    assert Rest(From(names, i)) == From(names, i + 1);
    var item := FieldName(From(names, i)) + Print(elems[i]);
    assert PrintElems(From(names, i), elems[i..]) == item + ElemTail(names, elems, i + 1);
  }

  lemma ElemEnds(names: seq<string>, elems: seq<Type>)
    ensures ElemTail(names, elems, 0) == PrintElems(names, elems) && ElemTail(names, elems, |elems|) == ""
  {
    assert names[0..] == names && elems[0..] == elems;
  }

  method TupleString(names: seq<string>, elems: seq<Type>) returns (sb: string)
    requires forall e <- elems :: Printable(e)
    ensures sb == Print(Tuple(names, elems))
    decreases elems, 0
  {
    hide PrintElems, ElemTail, Separator;
    sb := "Tuple(";
    ElemEnds(names, elems);
    for i := 0 to |elems|
      invariant sb + ElemTail(names, elems, i) == "Tuple(" + PrintElems(names, elems)
    {
      ElemStep(names, elems, i);
      var name := if i < |names| && names[i] != "" then names[i] + " " else "";
      var e := TypeString(elems[i]);
      var item := Separator(i) + (name + e);
      assert name == FieldName(From(names, i));
      assert sb + (item + ElemTail(names, elems, i + 1)) == (sb + item) + ElemTail(names, elems, i + 1);
      sb := sb + item;
    }
    sb := sb + ")";
  }

  function From(names: seq<string>, i: nat): seq<string> {
    if i <= |names| then names[i..] else []
  }

  method TypeString(t: Type) returns (s: string)
    requires Printable(t)
    ensures s == Print(t)
    decreases t, 1
  {
    match t
    case Scalar(name) => s := name;
    case FixedString(n) => s := "FixedString(" + Itoa(n) + ")";
    case Decimal(p, sc) => s := "Decimal(" + Itoa(p) + ", " + Itoa(sc) + ")";
    case DateTime(tz) => s := if tz == "" then "DateTime" else "DateTime(" + Quote(tz) + ")";
    case DateTime64(p, tz) =>
      s := if tz == "" then "DateTime64(" + Itoa(p) + ")" else "DateTime64(" + Itoa(p) + ", " + Quote(tz) + ")";
    case Nullable(e) => s := TypeString(e); s := "Nullable(" + s + ")";
    case LowCardinality(e) => s := TypeString(e); s := "LowCardinality(" + s + ")";
    case Array(e) => s := TypeString(e); s := "Array(" + s + ")";
    case Map(k, v) =>
      var ks := TypeString(k);
      var vs := TypeString(v);
      s := "Map(" + ks + ", " + vs + ")";
    case Enum(bits, labels, values) => s := EnumString(bits, labels, values);
    case Tuple(names, elems) => s := TupleString(names, elems);
    case Unsupported(raw) => s := raw;
  }
}
