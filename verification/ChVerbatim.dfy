/**
  Types that pggen keeps as they are written, and what printing does to them.

  A verbatim text starts where the parser starts looking for the type, so that a blank the
  printer puts in front of it becomes part of it.
 */
module ChVerbatim {
  import opened Text
  import opened ChTypes
  import opened ChGrammar
  import opened ChReads

  /** The names whose arguments the parser understands. */
  predicate IsKnown(name: string) {
    || IsWrapper(name) || DecimalPrecision(name).Some?
    || name in ["Map", "FixedString", "Decimal", "DateTime", "DateTime64", "Enum8", "Enum16", "Tuple"]
  }

  /** An unknown name and a bracketed group, possibly behind blanks. */
  predicate IsVerbatim(raw: string) {
    && IdentAt(raw, 0).Ok?
    && var (name, e) := IdentAt(raw, 0).value;
    var p := SkipSpace(raw, e);
    !IsKnown(name) && p < |raw| && raw[p] == '(' && Balanced(raw, p + 1, 1) == Ok(|raw|)
  }

  /** What the parser can return: well-formed, except that unknown types are kept verbatim. */
  predicate Readable(t: Type) {
    match t
    case Nullable(e) => Readable(e)
    case LowCardinality(e) => Readable(e)
    case Array(e) => Readable(e)
    case Map(k, v) => Readable(k) && Readable(v)
    case Tuple(names, elems) =>
      && elems != [] && (forall e <- elems :: Readable(e))
      && (names == [] || (|names| == |elems| && exists n <- names :: n != ""))
      && (forall n <- names :: n == "" || IsIdent(n))
      && forall i :: 0 <= i < |names| && i < |elems| && names[i] != "" ==> Solid(elems[i])
    case Unsupported(raw) => IsVerbatim(raw)
    case _ => WellFormed(t)
  }

  /** The printed type does not start with a blank. */
  predicate Solid(t: Type) {
    t.Unsupported? ==> StartsSolid(t.raw)
  }

  /** A type as it is read behind a blank. */
  function Behind(t: Type): Type
    decreases t, 1
  {
    if t.Unsupported? then Unsupported(" " + t.raw) else Spaced(t)
  }

  /** The type with a blank in front of every verbatim part that the printer separates by one. */
  function Spaced(t: Type): Type
    decreases t, 0
  {
    match t
    case Nullable(e) => Nullable(Spaced(e))
    case LowCardinality(e) => LowCardinality(Spaced(e))
    case Array(e) => Array(Spaced(e))
    case Map(k, v) => Map(Spaced(k), Behind(v))
    case Tuple(names, elems) => Tuple(names, SpacedElems(names, elems, false))
    case _ => t
  }

  /** The elements of a tuple; an element without a name is separated from one in front of it. */
  function SpacedElems(names: seq<string>, elems: seq<Type>, behind: bool): (r: seq<Type>)
    ensures |r| == |elems|
    decreases elems, 0
  {
    if elems == [] then []
    else [if behind && FieldName(names) == "" then Behind(elems[0]) else Spaced(elems[0])]
         + SpacedElems(Rest(names), elems[1..], true)
  }

  /** No verbatim type is the value of a map or an unnamed element behind the first of a tuple. */
  predicate Settled(t: Type)
    decreases t, 1
  {
    match t
    case Nullable(e) => Settled(e)
    case LowCardinality(e) => Settled(e)
    case Array(e) => Settled(e)
    case Map(k, v) => Settled(k) && Settled(v) && !v.Unsupported?
    case Tuple(names, elems) =>
      && (forall e <- elems :: Settled(e))
      && forall i :: 0 < i < |elems| && elems[i].Unsupported? ==> i < |names| && names[i] != ""
    case _ => true
  }

  // ---- A verbatim text is read the same wherever it stands ----

  lemma {:induction false} SkipSpaceLocal(u: string, s: string, i: nat, a: nat, b: nat)
    requires At(s, i, u) && a <= |u| && b < |u|
    ensures SkipSpace(u, a) == b <==> SkipSpace(s, i + a) == i + b
    decreases |u| - a
  {
    if a < |u| {
      AtChar(s, i, u, a);
      if IsBlank(u[a]) {
        SkipSpaceLocal(u, s, i, a + 1, b);
      }
    }
  }

  lemma {:induction false} IdentEndLocal(u: string, s: string, i: nat, a: nat, b: nat)
    requires At(s, i, u) && a <= |u| && b < |u|
    ensures IdentEnd(u, a) == b <==> IdentEnd(s, i + a) == i + b
    decreases |u| - a
  {
    if a < |u| {
      AtChar(s, i, u, a);
      if IsIdentChar(u[a]) {
        IdentEndLocal(u, s, i, a + 1, b);
      }
    }
  }

  lemma {:induction false} StringLocal(u: string, s: string, i: nat, a: nat, acc: string, v: string, b: nat)
    requires At(s, i, u) && a <= |u| && b <= |u|
    ensures StringBody(u, a, acc) == Ok((v, b)) <==> StringBody(s, i + a, acc) == Ok((v, i + b))
    decreases |u| - a
  {
    if a < |u| {
      AtChar(s, i, u, a);
      if u[a] == '\\' {
        if a + 1 < |u| {
          AtChar(s, i, u, a + 1);
          StringLocal(u, s, i, a + 2, acc + [Unescape(u[a + 1])], v, b);
        }
      } else if u[a] != '\'' {
        StringLocal(u, s, i, a + 1, acc + [u[a]], v, b);
      }
    }
  }

  lemma {:induction false} BalancedLocal(u: string, s: string, i: nat, a: nat, depth: nat, b: nat)
    requires At(s, i, u) && a <= |u| && b <= |u| && depth > 0
    ensures Balanced(u, a, depth) == Ok(b) <==> Balanced(s, i + a, depth) == Ok(i + b)
    decreases |u| - a
  {
    if a < |u| {
      AtChar(s, i, u, a);
      if u[a] == '\'' {
        var inU, inS := StringBody(u, a + 1, ""), StringBody(s, i + a + 1, "");
        if inU.Ok? {
          StringLocal(u, s, i, a + 1, "", inU.value.0, inU.value.1);
          BalancedLocal(u, s, i, inU.value.1, depth, b);
        } else if inS.Ok? && inS.value.1 <= i + |u| {
          StringLocal(u, s, i, a + 1, "", inS.value.0, inS.value.1 - i);
        }
      } else if u[a] == '(' {
        BalancedLocal(u, s, i, a + 1, depth + 1, b);
      } else if u[a] == ')' {
        if depth > 1 {
          BalancedLocal(u, s, i, a + 1, depth - 1, b);
        }
      } else {
        BalancedLocal(u, s, i, a + 1, depth, b);
      }
    }
  }

  lemma IdentLocal(u: string, s: string, i: nat, name: string, e: nat)
    requires At(s, i, u) && e < |u|
    ensures IdentAt(u, 0) == Ok((name, e)) <==> IdentAt(s, i) == Ok((name, i + e))
  {
    if IdentAt(u, 0) == Ok((name, e)) {
      var j := SkipSpace(u, 0);
      SkipSpaceLocal(u, s, i, 0, j);
      IdentEndLocal(u, s, i, j, e);
      AtSlice(s, i, u, j, e);
    }
    if IdentAt(s, i) == Ok((name, i + e)) {
      var j := SkipSpace(s, i) - i;
      SkipSpaceLocal(u, s, i, 0, j);
      IdentEndLocal(u, s, i, j, e);
      AtSlice(s, i, u, j, e);
    }
  }

  lemma AtSlice(s: string, i: nat, u: string, a: nat, b: nat)
    requires At(s, i, u) && a <= b <= |u|
    ensures s[i + a..i + b] == u[a..b]
  {
    forall k | 0 <= k < b - a ensures s[i + a..i + b][k] == u[a..b][k] {
      AtChar(s, i, u, a + k);
    }
  }

  /** The name, the bracket and the end of what is kept verbatim. */
  ghost predicate VerbatimParts(s: string, i: nat, end: nat, name: string, e: nat, p: nat) {
    && i < e <= p < end <= |s| && !IsKnown(name) && IdentAt(s, i) == Ok((name, e))
    && SkipSpace(s, e) == p && s[p] == '(' && Balanced(s, p + 1, 1) == Ok(end)
  }

  lemma PartsLocal(u: string, s: string, i: nat, name: string, e: nat, p: nat)
    requires At(s, i, u)
    ensures VerbatimParts(u, 0, |u|, name, e, p) <==> VerbatimParts(s, i, i + |u|, name, i + e, i + p)
  {
    hide IdentAt, SkipSpace, Balanced, IsKnown, At;
    if e <= p < |u| {
      IdentLocal(u, s, i, name, e);
      SkipSpaceLocal(u, s, i, e, p);
      BalancedLocal(u, s, i, p + 1, 1, |u|);
      AtChar(s, i, u, p);
    }
  }

  lemma PartsRead(s: string, i: nat, end: nat, name: string, e: nat, p: nat)
    requires VerbatimParts(s, i, end, name, e, p)
    ensures TypeAt(s, i) == Ok((Unsupported(s[i..end]), end))
  {
    hide IdentAt, Balanced;
    assert SkipSpace(s, p) == p;
  }

  /** A verbatim text reads as itself. */
  lemma VerbatimReads(raw: string)
    requires IsVerbatim(raw)
    ensures ReadsType(raw, Unsupported(raw))
  {
    hide IdentAt, SkipSpace, Balanced, TypeAt, IsKnown;
    var (name, e) := IdentAt(raw, 0).value;
    var p := SkipSpace(raw, e);
    assert VerbatimParts(raw, 0, |raw|, name, e, p);
    forall s: string, i: nat | At(s, i, raw) ensures TypeAt(s, i) == Ok((Unsupported(raw), i + |raw|)) {
      PartsLocal(raw, s, i, name, e, p);
      PartsRead(s, i, i + |raw|, name, i + e, i + p);
      AtSlice(s, i, raw, 0, |raw|);
      assert raw[0..|raw|] == raw;
    }
  }

  /** What the parser keeps verbatim is a verbatim text. */
  lemma KeptIsVerbatim(s: string, i: nat, end: nat, name: string, e: nat, p: nat)
    requires VerbatimParts(s, i, end, name, e, p)
    ensures IsVerbatim(s[i..end])
  {
    hide IdentAt, SkipSpace, Balanced, IsKnown;
    var raw := s[i..end];
    assert At(s, i, raw);
    PartsLocal(raw, s, i, name, e - i, p - i);
  }

  /** A blank in front of a verbatim text gives a verbatim text. */
  lemma BlankBeforeVerbatim(raw: string)
    requires IsVerbatim(raw)
    ensures IsVerbatim(" " + raw)
  {
    var u := " " + raw;
    hide Balanced, IsKnown, IdentAt, SkipSpace;
    var (name, e) := IdentAt(raw, 0).value;
    var p := SkipSpace(raw, e);
    assert At(u, 1, raw) by { AtSplit(u, 0, " ", raw); }
    assert VerbatimParts(raw, 0, |raw|, name, e, p);
    PartsLocal(raw, u, 1, name, e, p);
    BlankBeforeIdent(u);
  }

  lemma BlankBeforeIdent(u: string)
    requires u != "" && u[0] == ' '
    ensures IdentAt(u, 0) == IdentAt(u, 1)
  {
  }

  lemma SolidVerbatim(raw: string)
    requires IsVerbatim(raw) && StartsSolid(raw)
    ensures IsIdentChar(raw[0])
  {
  }
}
