/**
  When the order in which the generated helper visits its names decides the result.

  Filling one name can make the text of another one only inside a nest: a brace, stretches
  without braces and hole texts, and a closing brace, that read as a hole once the inner
  holes are filled. Without a nest every order gives what filling all holes at once gives.
 */
module ChOrder {
  import opened Text
  import opened ChTypes
  import opened ChRewrite
  import opened ChEmitted

  type Values = map<string, string>

  predicate NoBrace(s: string) {
    '{' !in s && '}' !in s
  }

  // ---- Filling all holes at once ----

  /** A name among names whose hole text stands at the start of s. */
  ghost predicate StartsHole(s: string, names: set<string>) {
    exists n <- names :: Pattern(n) <= s
  }

  ghost function HoleName(s: string, names: set<string>): (n: string)
    requires StartsHole(s, names)
    ensures n in names && Pattern(n) <= s
  {
    var n :| n in names && Pattern(n) <= s;
    n
  }

  /** Every hole of one of the names filled, from left to right. */
  ghost function Together(s: string, values: Values, names: set<string>): string
    requires names <= values.Keys
    decreases |s|
  {
    if s == "" then ""
    else if StartsHole(s, names) then
      var n := HoleName(s, names);
      assert Pattern(n) != "";
      values[n] + Together(s[|Pattern(n)|..], values, names)
    else [s[0]] + Together(s[1..], values, names)
  }

  // ---- Nests ----

  /** A stretch without braces, or the text of a hole. */
  datatype Piece = Stretch(text: string) | Inner(name: string)

  function PieceText(p: Piece): string {
    match p
    case Stretch(t) => t
    case Inner(n) => Pattern(n)
  }

  function Show(u: seq<Piece>): string {
    if u == [] then "" else PieceText(u[0]) + Show(u[1..])
  }

  /** The stretches with the values of the names between them. */
  function Filled(u: seq<Piece>, values: Values): string {
    if u == [] then "" else FilledPiece(u[0], values) + Filled(u[1..], values)
  }

  function FilledPiece(p: Piece, values: Values): string {
    match p
    case Stretch(t) => t
    case Inner(n) => if n in values then values[n] else ""
  }

  function Inners(u: seq<Piece>): set<string> {
    if u == [] then {} else (if u[0].Inner? then {u[0].name} else {}) + Inners(u[1..])
  }

  predicate IsPieces(u: seq<Piece>) {
    forall p <- u :: p.Stretch? ==> NoBrace(p.text)
  }

  /** At the start of s, a brace that becomes the start of m's hole text when the names in it are filled. */
  ghost predicate NestAt(s: string, values: Values, names: set<string>, m: string, u: seq<Piece>) {
    && IsPieces(u) && Inners(u) != {} && Inners(u) <= names && m !in Inners(u)
    && "{" + Show(u) + "}" <= s && Filled(u, values) == m + ":Identifier"
  }

  ghost predicate IsNest(s: string, k: nat, values: Values, m: string, u: seq<Piece>) {
    k <= |s| && m in values && NestAt(s[k..], values, values.Keys, m, u)
  }

  /** Somewhere the text of one of the names is made by filling others. */
  ghost predicate Nested(s: string, values: Values) {
    exists k: nat, m, u :: IsNest(s, k, values, m, u)
  }

  /** Names that are identifiers and values without braces. */
  ghost predicate Plausible(values: Values) {
    forall n <- values :: IsIdent(n) && NoBrace(values[n]) && values[n] != ""
  }

  lemma AcceptedIsPlausible(values: Values)
    requires AcceptedValues(values)
    ensures Plausible(values)
  {
    forall n <- values ensures NoBrace(values[n]) && values[n] != "" {
      AcceptedHasNoBrace(values[n]);
    }
  }

  lemma AcceptedHasNoBrace(value: string)
    requires PlainIdentifier(value)
    ensures NoBrace(value) && value != ""
  {
    forall c <- value ensures c != '{' && c != '}' {
      PlainIsTame(value, c);
      if c != '.' {
        var part :| part in SplitDots(value) && c in part;
        assert PlainPart(part);
      }
    }
  }

  // ---- One hole at a time ----

  lemma OneHole(s: string, n: string, m: string)
    requires IsIdent(n) && IsIdent(m) && Pattern(n) <= s && Pattern(m) <= s
    ensures n == m
  {
    assert s == Pattern(m) + s[|Pattern(m)|..];
    PatternsDiffer(m, n, s[|Pattern(m)|..]);
  }

  lemma TogetherHole(s: string, values: Values, names: set<string>, n: string)
    requires Plausible(values) && names <= values.Keys && n in names && Pattern(n) <= s
    ensures Together(s, values, names) == values[n] + Together(s[|Pattern(n)|..], values, names)
  {
    assert Pattern(n) != "";
    hide Pattern;
    assert StartsHole(s, names);
    OneHole(s, HoleName(s, names), n);
  }

  lemma {:induction false} TogetherPass(a: string, b: string, values: Values, names: set<string>)
    requires '{' !in a && names <= values.Keys
    ensures Together(a + b, values, names) == a + Together(b, values, names)
  {
    if a == "" {
      assert a + b == b;
    } else {
      var s := a + b;
      assert s[0] == a[0] && s[1..] == a[1..] + b;
      assert !StartsHole(s, names) by {
        forall n ensures !(Pattern(n) <= s) {
          assert Pattern(n)[0] == '{';
        }
      }
      TogetherPass(a[1..], b, values, names);
    }
  }

  /** The rest of a hole text is passed as it is. */
  lemma TogetherOther(s: string, values: Values, names: set<string>, m: string)
    requires Plausible(values) && names <= values.Keys && IsIdent(m) && m !in names && Pattern(m) <= s
    ensures Together(s, values, names) == Pattern(m) + Together(s[|Pattern(m)|..], values, names)
  {
    PatternParts(m);
    var u, r := Pattern(m)[1..], s[|Pattern(m)|..];
    hide Pattern;
    assert !StartsHole(s, names) by {
      forall n <- names ensures !(Pattern(n) <= s) {
        if Pattern(n) <= s {
          OneHole(s, n, m);
        }
      }
    }
    assert s[0] == '{' && s[1..] == u + r;
    TogetherPass(u, r, values, names);
    assert [s[0]] + (u + Together(r, values, names)) == Pattern(m) + Together(r, values, names);
  }

  // ---- Reading the pieces back ----

  /** The pieces of a text up to its closing brace, and what they are filled to. */
  ghost predicate Reads(t: string, values: Values, names: set<string>, u: seq<Piece>, w: string) {
    IsPieces(u) && Inners(u) <= names && Show(u) + "}" <= t && Filled(u, values) == w
  }

  lemma ReadsHole(n: string, r: string, values: Values, names: set<string>, u: seq<Piece>, w: string)
    requires Reads(r, values, names, u, w) && n in names && n in values
    ensures Reads(Pattern(n) + r, values, names, [Inner(n)] + u, values[n] + w)
  {
    hide Pattern;
    var u' := [Inner(n)] + u;
    assert u'[1..] == u;
    assert Show(u') + "}" == Pattern(n) + (Show(u) + "}");
  }

  lemma ReadsChar(c: char, r: string, values: Values, names: set<string>, u: seq<Piece>, w: string)
    requires Reads(r, values, names, u, w) && c != '{' && c != '}'
    ensures Reads([c] + r, values, names, [Stretch([c])] + u, [c] + w)
  {
    var u' := [Stretch([c])] + u;
    assert u'[1..] == u;
    assert Show(u') + "}" == [c] + (Show(u) + "}");
  }

  lemma ReadsEnd(t: string, values: Values, names: set<string>)
    requires "}" <= t
    ensures Reads(t, values, names, [], "")
  {
    assert Show([]) + "}" == "}";
  }

  /** What shows as a text without braces up to a closing brace comes from stretches and hole texts. */
  lemma {:induction false} Extract(t: string, values: Values, names: set<string>, w: string) returns (u: seq<Piece>)
    requires Plausible(values) && names <= values.Keys && NoBrace(w) && w + "}" <= Together(t, values, names)
    ensures Reads(t, values, names, u, w)
    decreases |t|
  {
    hide Reads;
    var out := Together(t, values, names);
    assert out != "" && t != "";
    if StartsHole(t, names) {
      var n := HoleName(t, names);
      TogetherHole(t, values, names, n);
      var v, r := values[n], t[|Pattern(n)|..];
      assert Pattern(n) != "";
      hide Pattern, Together;
      PrefixSplits(w, v, Together(r, values, names));
      u := Extract(r, values, names, w[|v|..]);
      ReadsHole(n, r, values, names, u, w[|v|..]);
      u := [Inner(n)] + u;
      assert w == v + w[|v|..] && t == Pattern(n) + r;
    } else {
      assert out == [t[0]] + Together(t[1..], values, names);
      hide Together;
      if w == "" {
        assert w + "}" == "}" && out[0] == '}' == t[0];
        ReadsEnd(t, values, names);
        u := [];
      } else {
        assert (w + "}")[0] == w[0] && t[0] == out[0] == w[0];
        assert out[1..] == Together(t[1..], values, names) && w[1..] + "}" == (w + "}")[1..];
        u := Extract(t[1..], values, names, w[1..]);
        ReadsChar(t[0], t[1..], values, names, u, w[1..]);
        u := [Stretch([t[0]])] + u;
        assert w == [w[0]] + w[1..] && t == [t[0]] + t[1..];
      }
    }
  }

  lemma PrefixSplits(w: string, v: string, r: string)
    requires w + "}" <= v + r && '}' !in v
    ensures v <= w && w[|v|..] + "}" <= r
  {
    var s := v + r;
    assert s[|w|] == '}';
    assert forall k :: 0 <= k < |v| ==> s[k] == v[k] && v[k] in v;
    assert |w| >= |v|;
    assert s[..|w| + 1] == w + "}";
    assert w[..|v|] == s[..|v|] == v;
    assert s[|v|..|w| + 1] == w[|v|..] + "}";
  }

  lemma {:induction false} NoInners(u: seq<Piece>, values: Values)
    requires Inners(u) == {}
    ensures Show(u) == Filled(u, values)
  {
    if u != [] {
      assert Inners(u[1..]) <= Inners(u);
      NoInners(u[1..], values);
    }
  }

  lemma BehindBrace(a: string, b: string)
    requires "{" + a <= "{" + b
    ensures a <= b
  {
    assert ("{" + a)[1..] == a && ("{" + b)[1..] == b;
    assert forall k :: 0 <= k < |a| ==> ("{" + a)[k + 1] == a[k] && ("{" + b)[k + 1] == b[k];
  }

  lemma ReadsIsNest(s: string, t: string, values: Values, names: set<string>, m: string, u: seq<Piece>)
    requires s == "{" + t && m !in names && !(Pattern(m) <= s) && Reads(t, values, names, u, m + ":Identifier")
    ensures NestAt(s, values, names, m, u)
  {
    assert Pattern(m) == "{" + ((m + ":Identifier") + "}");
    hide Pattern, Show, Filled, Inners, IsPieces;
    assert "{" + Show(u) + "}" == "{" + (Show(u) + "}");
    if Inners(u) == {} {
      NoInners(u, values);
    }
  }

  /** A hole text that filling others makes at the start of s is made by a nest. */
  lemma MadeByNest(s: string, values: Values, names: set<string>, m: string) returns (u: seq<Piece>)
    requires Plausible(values) && names <= values.Keys && IsIdent(m) && m !in names
    requires s != "" && s[0] == '{' && !StartsHole(s, names) && !(Pattern(m) <= s)
    requires Pattern(m) <= Together(s, values, names)
    ensures NestAt(s, values, names, m, u)
  {
    var w, t := m + ":Identifier", s[1..];
    assert Pattern(m) == "{" + (w + "}");
    assert NoBrace(w);
    assert Together(s, values, names) == "{" + Together(t, values, names);
    hide Pattern, Together, Plausible, StartsHole, IsIdent, Reads;
    BehindBrace(w + "}", Together(t, values, names));
    u := Extract(t, values, names, w);
    ReadsIsNest(s, t, values, names, m, u);
  }

  // ---- Without a nest, every order fills all at once ----

  lemma NestedSuffix(s: string, k: nat, values: Values)
    requires k <= |s| && Nested(s[k..], values)
    ensures Nested(s, values)
  {
    hide NestAt;
    var j: nat, m, u :| IsNest(s[k..], j, values, m, u);
    assert s[k..][j..] == s[k + j..];
    assert IsNest(s, k + j, values, m, u);
  }

  /** Filling one more name after the others is filling it together with them. */
  lemma {:induction false} FillsOneMore(s: string, values: Values, names: set<string>, m: string)
    requires Plausible(values) && names <= values.Keys && m in values && m !in names && !Nested(s, values)
    ensures ReplaceAll(Together(s, values, names), Pattern(m), values[m]) == Together(s, values, names + {m})
    decreases |s|
  {
    hide Plausible, Nested, Together, ReplaceAll;
    if s == "" {
      NothingLeft(values, names, m);
    } else {
      var k := Step(s, values, names, m);
      assert !Nested(s[k..], values) by {
        if Nested(s[k..], values) {
          NestedSuffix(s, k, values);
        }
      }
      FillsOneMore(s[k..], values, names, m);
      if StartsHole(s, names) {
        StepHole(s, values, names, m);
      } else if Pattern(m) <= s {
        StepOther(s, values, names, m);
      } else {
        StepChar(s, values, names, m);
      }
    }
  }

  lemma NothingLeft(values: Values, names: set<string>, m: string)
    requires names <= values.Keys && m in values
    ensures ReplaceAll(Together("", values, names), Pattern(m), values[m]) == Together("", values, names + {m})
  {
  }

  /** How far the next step reads: a hole text or one character. */
  ghost function Step(s: string, values: Values, names: set<string>, m: string): (k: nat)
    requires s != ""
    ensures 0 < k <= |s|
  {
    if StartsHole(s, names) then assert Pattern(HoleName(s, names)) != ""; |Pattern(HoleName(s, names))|
    else if Pattern(m) <= s then assert Pattern(m) != ""; |Pattern(m)|
    else 1
  }

  /** What remains to be shown once the rest of the text is dealt with. */
  ghost predicate RestFilled(s: string, values: Values, names: set<string>, m: string)
    requires s != "" && names <= values.Keys && m in values
  {
    var r := s[Step(s, values, names, m)..];
    ReplaceAll(Together(r, values, names), Pattern(m), values[m]) == Together(r, values, names + {m})
  }

  lemma StepHole(s: string, values: Values, names: set<string>, m: string)
    requires Plausible(values) && names <= values.Keys && m in values && m !in names
    requires s != "" && StartsHole(s, names) && RestFilled(s, values, names, m)
    ensures ReplaceAll(Together(s, values, names), Pattern(m), values[m]) == Together(s, values, names + {m})
  {
    var n := HoleName(s, names);
    TogetherHole(s, values, names, n);
    TogetherHole(s, values, names + {m}, n);
    PassNoBrace(values[n], Together(s[|Pattern(n)|..], values, names), m, values[m]);
  }

  lemma StepOther(s: string, values: Values, names: set<string>, m: string)
    requires Plausible(values) && names <= values.Keys && m in values && m !in names
    requires s != "" && !StartsHole(s, names) && Pattern(m) <= s && RestFilled(s, values, names, m)
    ensures ReplaceAll(Together(s, values, names), Pattern(m), values[m]) == Together(s, values, names + {m})
  {
    TogetherOther(s, values, names, m);
    TogetherHole(s, values, names + {m}, m);
    MatchHere(Together(s[|Pattern(m)|..], values, names), m, values[m]);
  }

  lemma StepChar(s: string, values: Values, names: set<string>, m: string)
    requires Plausible(values) && names <= values.Keys && m in values && m !in names && !Nested(s, values)
    requires s != "" && !StartsHole(s, names) && !(Pattern(m) <= s) && RestFilled(s, values, names, m)
    ensures ReplaceAll(Together(s, values, names), Pattern(m), values[m]) == Together(s, values, names + {m})
  {
    var out, rest := Together(s, values, names), Together(s[1..], values, names);
    assert !StartsHole(s, names + {m});
    assert out == [s[0]] + rest && out[1..] == rest;
    if s[0] == '{' {
      NoMatchMade(s, values, names, m);
      assert "{" + rest == out;
      StepOver(rest, m, values[m]);
    } else {
      PassNoBrace([s[0]], rest, m, values[m]);
    }
  }

  lemma NoMatchMade(s: string, values: Values, names: set<string>, m: string)
    requires Plausible(values) && names <= values.Keys && m in values && m !in names && !Nested(s, values)
    requires s != "" && s[0] == '{' && !StartsHole(s, names) && !(Pattern(m) <= s)
    ensures !(Pattern(m) <= Together(s, values, names))
  {
    hide Pattern, Together;
    if Pattern(m) <= Together(s, values, names) {
      var u := MadeByNest(s, values, names, m);
      NestHere(s, values, names, m, u);
    }
  }

  lemma NestHere(s: string, values: Values, names: set<string>, m: string, u: seq<Piece>)
    requires NestAt(s, values, names, m, u) && names <= values.Keys && m in values
    ensures Nested(s, values)
  {
    hide Show, Filled, Inners, IsPieces;
    assert s[0..] == s;
    assert IsNest(s, 0, values, m, u);
  }

  /** Without a nest, every order gives what filling all at once gives. */
  lemma {:induction false} EveryOrderIsTogether(s: string, values: Values, names: set<string>, order: seq<string>)
    requires AcceptedValues(values) && names <= values.Keys && !Nested(s, values)
    requires (forall n <- order :: n in values && n !in names) && AllDistinct(order)
    ensures Emitted(Together(s, values, names), values, order) == Some(Together(s, values, names + Names(order)))
    decreases |order|
  {
    hide Nested, Together, PlainIdentifier, ReplaceAll;
    AcceptedIsPlausible(values);
    if order == [] {
      assert names + Names(order) == names;
    } else {
      var n, rest := order[0], order[1..];
      assert n in order && forall x <- rest :: x in order;
      FillsOneMore(s, values, names, n);
      NamesCons(order);
      EveryOrderIsTogether(s, values, names + {n}, rest);
      assert names + {n} + Names(rest) == names + Names(order);
    }
  }

  function Names(order: seq<string>): set<string> {
    set n | n in order
  }

  lemma NamesCons(order: seq<string>)
    requires order != [] && AllDistinct(order)
    ensures Names(order) == {order[0]} + Names(order[1..]) && order[0] !in order[1..] && AllDistinct(order[1..])
  {
    assert forall x :: x in order <==> x == order[0] || x in order[1..];
  }

  lemma {:induction false} NothingTogether(s: string, values: Values)
    ensures Together(s, values, {}) == s
  {
    if s != "" {
      NothingTogether(s[1..], values);
    }
  }

  lemma WithoutNest(s: string, values: Values, order: seq<string>)
    requires AcceptedValues(values) && Enumerates(order, values) && !Nested(s, values)
    ensures Emitted(s, values, order) == Some(Together(s, values, values.Keys))
  {
    hide Nested, Together;
    NothingTogether(s, values);
    EveryOrderIsTogether(s, values, {}, order);
    assert {} + Names(order) == values.Keys;
  }

  // ---- A nest in a text ----

  /** A text that holds the pieces between braces. */
  function Around(pre: string, u: seq<Piece>, post: string): string {
    pre + ("{" + (Show(u) + ("}" + post)))
  }

  function FillOne(p: Piece, x: string, v: string): Piece {
    if p == Inner(x) then Stretch(v) else p
  }

  function FillIn(u: seq<Piece>, x: string, v: string): seq<Piece> {
    if u == [] then [] else [FillOne(u[0], x, v)] + FillIn(u[1..], x, v)
  }

  ghost predicate Sound(u: seq<Piece>) {
    IsPieces(u) && forall n <- Inners(u) :: IsIdent(n)
  }

  lemma {:induction false} FillInMeans(u: seq<Piece>, x: string, values: Values)
    requires Sound(u) && x in values && NoBrace(values[x])
    ensures var u' := FillIn(u, x, values[x]);
            Sound(u') && Inners(u') == Inners(u) - {x} && Filled(u', values) == Filled(u, values)
  {
    if u != [] {
      assert Inners(u[1..]) <= Inners(u) && forall p <- u[1..] :: p in u;
      assert u[0] in u;
      FillInMeans(u[1..], x, values);
      var u' := FillIn(u, x, values[x]);
      assert u'[1..] == FillIn(u[1..], x, values[x]);
      assert forall p <- u' :: p == u'[0] || p in u'[1..];
    }
  }

  lemma PieceFilled(p: Piece, rest: string, x: string, v: string)
    requires (p.Stretch? ==> NoBrace(p.text)) && (p.Inner? ==> IsIdent(p.name)) && IsIdent(x)
    ensures ReplaceAll(PieceText(p) + rest, Pattern(x), v) ==
            PieceText(FillOne(p, x, v)) + ReplaceAll(rest, Pattern(x), v)
  {
    hide Pattern, ReplaceAll, IsIdent;
    match p
    case Stretch(t) => PassNoBrace(t, rest, x, v);
    case Inner(n) =>
      if n == x {
        MatchHere(rest, x, v);
      } else {
        PassOtherHole(n, x, rest, v);
      }
  }

  lemma SoundRest(u: seq<Piece>)
    requires Sound(u) && u != []
    ensures Sound(u[1..]) && (u[0].Stretch? ==> NoBrace(u[0].text)) && (u[0].Inner? ==> IsIdent(u[0].name))
  {
    hide NoBrace, IsIdent;
    assert u[0] in u && Inners(u[1..]) <= Inners(u) && forall p <- u[1..] :: p in u;
  }

  lemma {:induction false} PiecesFilled(u: seq<Piece>, post: string, x: string, v: string)
    requires Sound(u) && IsIdent(x)
    ensures ReplaceAll(Show(u) + ("}" + post), Pattern(x), v) ==
            Show(FillIn(u, x, v)) + ("}" + ReplaceAll(post, Pattern(x), v))
  {
    hide Pattern, ReplaceAll, IsIdent, Sound, PieceText;
    if u == [] {
      assert "" + ("}" + post) == "}" + post;
      PassNoBrace("}", post, x, v);
    } else {
      var rest := Show(u[1..]) + ("}" + post);
      SoundRest(u);
      PiecesFilled(u[1..], post, x, v);
      PieceFilled(u[0], rest, x, v);
      var u' := FillIn(u, x, v);
      assert u'[0] == FillOne(u[0], x, v) && u'[1..] == FillIn(u[1..], x, v);
      assert Show(u) + ("}" + post) == PieceText(u[0]) + rest;
    }
  }

  /** The first brace in the pieces opens an inner hole text. */
  lemma {:induction false} FirstInner(u: seq<Piece>) returns (a: string, n: string, r: string)
    requires IsPieces(u) && Inners(u) != {}
    ensures NoBrace(a) && n in Inners(u) && Show(u) == a + (Pattern(n) + r)
  {
    hide Pattern;
    assert u[0] in u;
    match u[0]
    case Inner(m) =>
      a, n, r := "", m, Show(u[1..]);
      assert "" + (Pattern(m) + r) == Pattern(m) + r;
    case Stretch(t) =>
      assert forall p <- u[1..] :: p in u;
      a, n, r := FirstInner(u[1..]);
      a := t + a;
  }

  lemma BraceAhead(a: string, b: string, r: string, tail: string)
    requires tail == b + r
    ensures "{" + ((a + b) + r) == "{" + a + tail
  {
  }

  /** While the pieces hold a hole text, no hole text starts at the brace in front of them. */
  lemma BraceStays(u: seq<Piece>, r: string, x: string)
    requires IsPieces(u) && Inners(u) != {} && IsIdent(x)
    ensures !(Pattern(x) <= "{" + (Show(u) + r))
  {
    hide Show, Pattern;
    var a, n, r' := FirstInner(u);
    PatternOpens(n);
    var tail := Pattern(n) + r' + r;
    assert tail[0] == '{';
    BraceAhead(a, Pattern(n) + r', r, tail);
    NoNestedMatch(x, a, tail);
  }

  lemma {:induction false} SeamAtBrace(a: string, b: string, x: string, v: string)
    requires IsIdent(x) && b != "" && b[0] == '{'
    ensures ReplaceAll(a + b, Pattern(x), v) == ReplaceAll(a, Pattern(x), v) + ReplaceAll(b, Pattern(x), v)
    decreases |a|
  {
    var pat := Pattern(x);
    assert pat != "";
    PatternShape(x);
    hide Pattern;
    if a == "" {
      assert a + b == b && "" + ReplaceAll(b, pat, v) == ReplaceAll(b, pat, v);
    } else {
      HoleBefore(a, b, x);
      if pat <= a {
        var r := a[|pat|..];
        assert (a + b)[|pat|..] == r + b;
        SeamAtBrace(r, b, x, v);
      } else {
        assert (a + b)[0] == a[0] && (a + b)[1..] == a[1..] + b;
        SeamAtBrace(a[1..], b, x, v);
      }
    }
  }

  /** A hole text does not reach over a brace. */
  lemma HoleBefore(a: string, b: string, x: string)
    requires IsIdent(x) && a != "" && b != "" && b[0] == '{'
    ensures Pattern(x) <= a + b <==> Pattern(x) <= a
  {
    PatternShape(x);
    var pat, s := Pattern(x), a + b;
    hide Pattern;
    assert s[|a|] == '{' && s[..|a|] == a;
    if pat <= s {
      assert |pat| <= |a|;
      assert s[..|pat|] == a[..|pat|];
    }
  }

  /** Filling a name leaves a nest where it is, with its hole texts of that name filled. */
  lemma NestStays(pre: string, u: seq<Piece>, post: string, x: string, v: string)
    requires Sound(u) && Inners(u) != {} && IsIdent(x)
    ensures ReplaceAll(Around(pre, u, post), Pattern(x), v) ==
            Around(ReplaceAll(pre, Pattern(x), v), FillIn(u, x, v), ReplaceAll(post, Pattern(x), v))
  {
    var body := Show(u) + ("}" + post);
    hide Pattern, ReplaceAll, Show, FillIn, Inners;
    SeamAtBrace(pre, "{" + body, x, v);
    BraceStays(u, "}" + post, x);
    StepOver(body, x, v);
    PiecesFilled(u, post, x, v);
  }

  // ---- With a nest, two orders differ ----

  lemma {:induction false} OneTogether(s: string, values: Values, n: string)
    requires Plausible(values) && n in values
    ensures ReplaceAll(s, Pattern(n), values[n]) == Together(s, values, {n})
    decreases |s|
  {
    if s != "" {
      if Pattern(n) <= s {
        TogetherHole(s, values, {n}, n);
        OneTogether(s[|Pattern(n)|..], values, n);
      } else {
        OneTogether(s[1..], values, n);
      }
    }
  }

  /** Filling n and then m. */
  function Both(s: string, values: Values, n: string, m: string): string
    requires n in values && m in values
  {
    ReplaceAll(ReplaceAll(s, Pattern(n), values[n]), Pattern(m), values[m])
  }

  lemma BothHole(r: string, values: Values, n: string, m: string)
    requires Plausible(values) && n in values && m in values && n != m
    ensures Both(Pattern(n) + r, values, n, m) == values[n] + Both(r, values, n, m)
    ensures Both(Pattern(n) + r, values, m, n) == values[n] + Both(r, values, m, n)
  {
    hide Pattern, ReplaceAll;
    var v, w := values[n], values[m];
    MatchHere(r, n, v);
    PassNoBrace(v, ReplaceAll(r, Pattern(n), v), m, w);
    PassOtherHole(n, m, r, w);
    MatchHere(ReplaceAll(r, Pattern(m), w), n, v);
  }

  lemma BothChar(c: char, r: string, values: Values, n: string, m: string)
    requires n in values && m in values && c != '{'
    ensures Both([c] + r, values, n, m) == [c] + Both(r, values, n, m)
  {
    hide Pattern, ReplaceAll;
    PassNoBrace([c], r, n, values[n]);
    PassNoBrace([c], ReplaceAll(r, Pattern(n), values[n]), m, values[m]);
  }

  /** The brace in front of r becomes the start of m's hole text when n is filled. */
  predicate MadeBy(r: string, values: Values, n: string, m: string)
    requires n in values
  {
    Pattern(m) <= "{" + ReplaceAll(r, Pattern(n), values[n])
  }

  lemma BothBrace(r: string, values: Values, n: string, m: string)
    requires Plausible(values) && n in values && m in values && !(Pattern(n) <= "{" + r)
    ensures if MadeBy(r, values, n, m) then Both("{" + r, values, n, m)[..1] != "{"
            else Both("{" + r, values, n, m) == "{" + Both(r, values, n, m)
  {
    StepOver(r, n, values[n]);
    var out := ReplaceAll(r, Pattern(n), values[n]);
    if MadeBy(r, values, n, m) {
      var rest := ("{" + out)[|Pattern(m)|..];
      assert Pattern(m) != "";
      hide Pattern, ReplaceAll;
      assert "{" + out == Pattern(m) + rest;
      MatchHere(rest, m, values[m]);
      assert values[m][0] in values[m];
    } else {
      StepOver(out, m, values[m]);
    }
  }

  lemma MadeHasInner(r: string, values: Values, n: string, m: string) returns (a: string, rest: string)
    requires Plausible(values) && n in values && m in values && n != m && MadeBy(r, values, n, m)
    requires !(Pattern(n) <= "{" + r) && !(Pattern(m) <= "{" + r)
    ensures NoBrace(a) && r == a + (Pattern(n) + rest)
  {
    var s := "{" + r;
    StepOver(r, n, values[n]);
    OneTogether(s, values, n);
    assert !StartsHole(s, {n});
    hide Pattern, Together, ReplaceAll;
    var u := MadeByNest(s, values, {n}, m);
    var a', x, r' := FirstInner(u);
    assert x == n;
    a := a';
    rest := Regroup(s, r, Show(u), a, Pattern(n), r');
  }

  lemma Regroup(s: string, r: string, shown: string, a: string, pat: string, r': string) returns (rest: string)
    requires s == "{" + r && "{" + shown + "}" <= s && shown == a + (pat + r')
    ensures r == a + (pat + rest)
  {
    var tail := s[|shown| + 2..];
    rest := r' + "}" + tail;
    assert s == "{" + shown + "}" + tail;
    assert s == "{" + (a + (pat + rest));
    assert s[1..] == r;
  }

  /** One brace cannot become the start of both hole texts. */
  lemma NotMadeByBoth(r: string, values: Values, n: string, m: string)
    requires Plausible(values) && n in values && m in values && n != m && MadeBy(r, values, n, m)
    requires !(Pattern(n) <= "{" + r) && !(Pattern(m) <= "{" + r)
    ensures !MadeBy(r, values, m, n)
  {
    hide MadeBy;
    if MadeBy(r, values, m, n) {
      var a, x := MadeHasInner(r, values, n, m);
      var b, y := MadeHasInner(r, values, m, n);
      FirstBraceIsOne(r, a, n, x, b, m, y);
    }
  }

  lemma FirstBraceIsOne(r: string, a: string, n: string, x: string, b: string, m: string, y: string)
    requires NoBrace(a) && NoBrace(b) && IsIdent(n) && IsIdent(m)
    requires r == a + (Pattern(n) + x) && r == b + (Pattern(m) + y)
    ensures n == m
  {
    assert r[|a|] == '{' && r[|b|] == '{';
    assert forall k :: 0 <= k < |a| ==> r[k] == a[k];
    assert forall k :: 0 <= k < |b| ==> r[k] == b[k];
    assert |a| == |b|;
    assert Pattern(n) + x == r[|a|..] == Pattern(m) + y;
    OneHole(r[|a|..], n, m);
  }

  /** The pieces of a nest that only needs n to be filled. */
  ghost predicate Ripe(u: seq<Piece>, values: Values, n: string, m: string) {
    Sound(u) && Inners(u) == {n} && Filled(u, values) == m + ":Identifier"
  }

  lemma RipeIsMade(u: seq<Piece>, post: string, values: Values, n: string, m: string)
    requires Plausible(values) && n in values && Ripe(u, values, n, m)
    ensures MadeBy(Show(u) + ("}" + post), values, n, m)
  {
    var v := values[n];
    assert IsIdent(n) && NoBrace(v);
    var rest := ReplaceAll(post, Pattern(n), v);
    assert "{" + (m + ":Identifier" + ("}" + rest)) == Pattern(m) + rest;
    hide Pattern, ReplaceAll, Show, Filled, Inners, FillIn, IsIdent;
    PiecesFilled(u, post, n, v);
    FillInMeans(u, n, values);
    NoInners(FillIn(u, n, v), values);
    assert "{" + ReplaceAll(Show(u) + ("}" + post), Pattern(n), v) == Pattern(m) + rest;
  }

  lemma RipeDiffers(u: seq<Piece>, post: string, values: Values, n: string, m: string)
    requires Plausible(values) && n in values && m in values && n != m && Ripe(u, values, n, m)
    ensures Both(Around("", u, post), values, n, m) != Both(Around("", u, post), values, m, n)
  {
    hide Pattern, ReplaceAll, Show, Filled, Inners, MadeBy, Both;
    var body := Show(u) + ("}" + post);
    assert Around("", u, post) == "{" + body;
    BraceStays(u, "}" + post, n);
    BraceStays(u, "}" + post, m);
    RipeIsMade(u, post, values, n, m);
    NotMadeByBoth(body, values, n, m);
    BothBrace(body, values, n, m);
    BothBrace(body, values, m, n);
    assert ("{" + Both(body, values, m, n))[..1] == "{";
  }

  lemma PrefixCancels(p: string, x: string, y: string)
    requires x != y
    ensures p + x != p + y
  {
    assert (p + x)[|p|..] == x && (p + y)[|p|..] == y;
  }

  /** Wherever a nest stands that n makes ready for m, filling n first and filling m first give different texts. */
  lemma {:induction false} OrdersDiffer(pre: string, u: seq<Piece>, post: string, values: Values, n: string, m: string)
    requires Plausible(values) && n in values && m in values && n != m && Ripe(u, values, n, m)
    ensures Both(Around(pre, u, post), values, n, m) != Both(Around(pre, u, post), values, m, n)
    decreases |pre|
  {
    var s := Around(pre, u, post);
    var nest := "{" + (Show(u) + ("}" + post));
    hide Pattern, ReplaceAll, Show, Ripe, Both, MadeBy;
    if pre == "" {
      RipeDiffers(u, post, values, n, m);
    } else {
      HoleBefore(pre, nest, n);
      HoleBefore(pre, nest, m);
      if Pattern(n) <= pre {
        var r := pre[|Pattern(n)|..];
        assert s == Pattern(n) + Around(r, u, post);
        BothHole(Around(r, u, post), values, n, m);
        OrdersDiffer(r, u, post, values, n, m);
        PrefixCancels(values[n], Both(Around(r, u, post), values, n, m), Both(Around(r, u, post), values, m, n));
      } else if Pattern(m) <= pre {
        var r := pre[|Pattern(m)|..];
        assert s == Pattern(m) + Around(r, u, post);
        BothHole(Around(r, u, post), values, m, n);
        OrdersDiffer(r, u, post, values, n, m);
        PrefixCancels(values[m], Both(Around(r, u, post), values, n, m), Both(Around(r, u, post), values, m, n));
      } else {
        var r := Around(pre[1..], u, post);
        assert s == [pre[0]] + r;
        OrdersDiffer(pre[1..], u, post, values, n, m);
        if pre[0] == '{' {
          BracesDiffer(r, values, n, m);
        } else {
          BothChar(pre[0], r, values, n, m);
          BothChar(pre[0], r, values, m, n);
          PrefixCancels([pre[0]], Both(r, values, n, m), Both(r, values, m, n));
        }
      }
    }
  }

  lemma BracesDiffer(r: string, values: Values, n: string, m: string)
    requires Plausible(values) && n in values && m in values && n != m
    requires !(Pattern(n) <= "{" + r) && !(Pattern(m) <= "{" + r) && Both(r, values, n, m) != Both(r, values, m, n)
    ensures Both("{" + r, values, n, m) != Both("{" + r, values, m, n)
  {
    hide Pattern, Both, MadeBy;
    if MadeBy(r, values, n, m) {
      NotMadeByBoth(r, values, n, m);
    }
    BothBrace(r, values, n, m);
    BothBrace(r, values, m, n);
    assert forall x :: ("{" + x)[..1] == "{" && ("{" + x)[1..] == x;
  }

  // ---- Filling the other names first ----

  lemma {:induction false} EmittedAppend(s: string, values: Values, a: seq<string>, b: seq<string>, t: string)
    requires (forall n <- a + b :: n in values) && (forall n <- a :: n in values) && (forall n <- b :: n in values)
    requires Emitted(s, values, a) == Some(t)
    ensures Emitted(s, values, a + b) == Emitted(t, values, b)
    decreases |a|
  {
    hide PlainIdentifier, ReplaceAll, Pattern;
    if a == [] {
      assert a + b == b;
    } else {
      assert (a + b)[0] == a[0] && (a + b)[1..] == a[1..] + b;
      assert forall n <- a[1..] + b :: n in a + b;
      EmittedAppend(ReplaceAll(s, Pattern(a[0]), values[a[0]]), values, a[1..], b, t);
    }
  }

  /** Filling other names leaves the nest, with only n left in it. */
  lemma {:induction false} OthersFirst(
    pre: string, u: seq<Piece>, post: string, values: Values, others: seq<string>, n: string)
    returns (pre': string, u': seq<Piece>, post': string)
    requires AcceptedValues(values) && Plausible(values) && Sound(u) && n in Inners(u)
    requires forall x <- others :: x in values && x != n
    ensures Emitted(Around(pre, u, post), values, others) == Some(Around(pre', u', post'))
    ensures Sound(u') && Inners(u') == Inners(u) - Names(others) && Filled(u', values) == Filled(u, values)
    decreases |others|
  {
    hide PlainIdentifier, ReplaceAll, Pattern, Inners, Sound, Filled, FillIn, NoBrace, Around;
    if others == [] {
      pre', u', post' := pre, u, post;
      assert Inners(u) - Names(others) == Inners(u);
    } else {
      var x, rest := others[0], others[1..];
      assert x in others && forall y <- rest :: y in others;
      NestStays(pre, u, post, x, values[x]);
      FillInMeans(u, x, values);
      var pat := Pattern(x);
      pre', u', post' := OthersFirst(
        ReplaceAll(pre, pat, values[x]), FillIn(u, x, values[x]), ReplaceAll(post, pat, values[x]), values, rest, n);
      assert Names(others) == {x} + Names(rest) by {
        assert forall y :: y in others <==> y == x || y in rest;
      }
    }
  }

  lemma {:induction false} Enumerate(names: set<string>) returns (order: seq<string>)
    ensures Names(order) == names && AllDistinct(order)
    decreases names
  {
    if names == {} {
      order := [];
    } else {
      var n :| n in names;
      order := Enumerate(names - {n});
      assert n !in Names(order);
      assert forall x :: x in order + [n] <==> x in Names(order) || x == n;
      order := order + [n];
    }
  }

  lemma TwoLast(others: seq<string>, values: Values, n: string, m: string)
    requires n in values && m in values && n != m && Names(others) == values.Keys - {n, m} && AllDistinct(others)
    ensures Enumerates(others + [n, m], values)
  {
    var order := others + [n, m];
    assert forall x :: x in order <==> x in others || x == n || x == m;
    assert forall x :: x in others <==> x in Names(others);
    assert n !in others && m !in others;
  }

  lemma LastTwo(s: string, values: Values, n: string, m: string)
    requires AcceptedValues(values) && n in values && m in values
    ensures Emitted(s, values, [n, m]) == Some(Both(s, values, n, m))
  {
    hide PlainIdentifier, ReplaceAll, Pattern;
    assert [n, m][1..] == [m] && [m][1..] == [];
    var t := ReplaceAll(s, Pattern(n), values[n]);
    assert Emitted(Both(s, values, n, m), values, []) == Some(Both(s, values, n, m));
    assert Emitted(t, values, [m]) == Some(Both(s, values, n, m));
  }

  /** The orders that fill all other names first, and n and m last. */
  lemma WithNest(s: string, values: Values, k: nat, m: string, u: seq<Piece>) returns (a: seq<string>, b: seq<string>)
    requires AcceptedValues(values) && IsNest(s, k, values, m, u)
    ensures Enumerates(a, values) && Enumerates(b, values) && Emitted(s, values, a) != Emitted(s, values, b)
  {
    AcceptedIsPlausible(values);
    var n :| n in Inners(u);
    var others := Enumerate(values.Keys - {n, m});
    assert forall x :: x in others <==> x in Names(others);
    a, b := others + [n, m], others + [m, n];
    TwoLast(others, values, n, m);
    assert values.Keys - {m, n} == values.Keys - {n, m};
    TwoLast(others, values, m, n);
    var post := InText(s, k, u);
    hide PlainIdentifier, Pattern, ReplaceAll, Show, Filled, Around, Both, Emitted;
    var pre', u', post' := OthersFirst(s[..k], u, post, values, others, n);
    assert Inners(u') == {n};
    var t := Around(pre', u', post');
    OrdersDiffer(pre', u', post', values, n, m);
    EmittedAppend(s, values, others, [n, m], t);
    EmittedAppend(s, values, others, [m, n], t);
    LastTwo(t, values, n, m);
    LastTwo(t, values, m, n);
  }

  lemma InText(s: string, k: nat, u: seq<Piece>) returns (post: string)
    requires k <= |s| && "{" + Show(u) + "}" <= s[k..]
    ensures s == Around(s[..k], u, post)
  {
    hide Show;
    post := s[k..][|Show(u)| + 2..];
    assert s[k..] == "{" + Show(u) + "}" + post;
    assert s == s[..k] + s[k..];
  }

  /** All orders of the names give the same result. */
  ghost predicate OrderFree(s: string, values: Values) {
    forall a, b :: Enumerates(a, values) && Enumerates(b, values) ==> Emitted(s, values, a) == Emitted(s, values, b)
  }

  /** The order in which the names are visited does not matter exactly when the query holds no nest. */
  lemma OrderMattersExactlyWhen(s: string, values: Values)
    requires AcceptedValues(values)
    ensures OrderFree(s, values) <==> !Nested(s, values)
  {
    hide Emitted, Together, IsNest, AcceptedValues;
    if Nested(s, values) {
      var k: nat, m, u :| IsNest(s, k, values, m, u);
      var a, b := WithNest(s, values, k, m, u);
    } else {
      forall a, b | Enumerates(a, values) && Enumerates(b, values) ensures Emitted(s, values, a) ==
        Emitted(s, values, b) {
        WithoutNest(s, values, a);
        WithoutNest(s, values, b);
      }
    }
  }
}
