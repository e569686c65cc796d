/** Replacing the arguments of a query by placeholders. */
module PgPrepare {
  import opened Text
  import opened PgArgs

  /** How a dialect refers to the parameter of a name and an ordinal. */
  type Placeholder = (string, nat) -> string

  function PostgresPlaceholder(name: string, ordinal: nat): string {
    "$" + Itoa(ordinal)
  }

  function Names(args: seq<Arg>): (ns: seq<string>)
    ensures |ns| == |args| && forall k :: 0 <= k < |args| ==> ns[k] == args[k].name
  {
    seq(|args|, k requires 0 <= k < |args| => args[k].name)
  }

  /** Every name once, in order of first appearance. */
  function FirstSeen(names: seq<string>): seq<string> {
    if names == [] then []
    else
      var n := |names| - 1;
      var seen := FirstSeen(names[..n]);
      if names[n] in seen then seen else seen + [names[n]]
  }

  /** The number of a parameter, from one. */
  function Ordinal(params: seq<string>, name: string): (o: nat)
    requires name in params
    ensures 1 <= o <= |params| && params[o - 1] == name
  {
    if params[0] == name then 1 else Ordinal(params[1..], name) + 1
  }

  predicate Known(args: seq<Arg>, params: seq<string>) {
    forall a <- args :: a.name in params
  }

  /** The text of sql from prev on, with the spans replaced. */
  function Splice(sql: string, prev: nat, args: seq<Arg>, params: seq<string>, ph: Placeholder): string
    requires Ordered(args, prev, |sql|) && Known(args, params)
    decreases |args|
  {
    if args == [] then sql[prev..]
    else
      var a := args[0];
      assert a in args && a.hi <= |sql| by { OrderedReaches(args[1..], a.hi, |sql|); }
      sql[prev..a.lo] + ph(a.name, Ordinal(params, a.name)) + Splice(sql, a.hi, args[1..], params, ph)
  }

  lemma {:induction false} OrderedReaches(args: seq<Arg>, lo: int, hi: int)
    requires Ordered(args, lo, hi)
    ensures lo <= hi
    decreases |args|
  {
    if args != [] {
      OrderedReaches(args[1..], args[0].hi, hi);
    }
  }

  // ---- The numbering ----

  /** The position where a name appears first. */
  function FirstAt(names: seq<string>, name: string): (k: nat)
    requires name in names
    ensures k < |names| && names[k] == name && forall m :: 0 <= m < k ==> names[m] != name
  {
    if names[0] == name then 0
    else FirstAt(names[1..], name) + 1
  }

  /** A name added at the end does not change where the others appear first. */
  lemma FirstAtAppend(names: seq<string>, x: string, y: string)
    requires y in names
    ensures FirstAt(names + [x], y) == FirstAt(names, y)
  {
    var k, f := FirstAt(names, y), FirstAt(names + [x], y);
    assert (names + [x])[k] == y;
    assert f <= k && names[f] == y;
  }

  ghost predicate InOrder(names: seq<string>, ps: seq<string>) {
    && (forall x :: x in ps <==> x in names)
    && forall i, j :: 0 <= i < j < |ps| ==> FirstAt(names, ps[i]) < FirstAt(names, ps[j])
  }

  /** A new name appears first where it is added. */
  lemma FirstAtNew(names: seq<string>, x: string)
    requires x !in names
    ensures FirstAt(names + [x], x) == |names|
  {
    hide FirstAt;
    assert (names + [x])[FirstAt(names + [x], x)] == x;
  }

  lemma InOrderAppend(names: seq<string>, ps: seq<string>, x: string)
    requires AllDistinct(ps) && InOrder(names, ps)
    ensures var ps' := if x in ps then ps else ps + [x];
            AllDistinct(ps') && InOrder(names + [x], ps')
  {
    hide FirstAt;
    var names', ps' := names + [x], if x in ps then ps else ps + [x];
    assert forall y :: y in names' <==> y in names || y == x;
    if x !in ps {
      FirstAtNew(names, x);
    }
    forall i, j | 0 <= i < j < |ps'| ensures FirstAt(names', ps'[i]) < FirstAt(names', ps'[j]) {
      assert ps'[i] == ps[i] && ps[i] in ps;
      FirstAtAppend(names, x, ps[i]);
      if j < |ps| {
        assert ps[j] in ps;
        FirstAtAppend(names, x, ps[j]);
      }
    }
  }

  /** The parameter names: no duplicates, all of them, in order of first appearance. */
  lemma {:induction false} FirstSeenIsExact(names: seq<string>)
    ensures AllDistinct(FirstSeen(names)) && InOrder(names, FirstSeen(names))
  {
    if names != [] {
      hide InOrder, AllDistinct;
      var n := |names| - 1;
      FirstSeenIsExact(names[..n]);
      assert names == names[..n] + [names[n]];
      InOrderAppend(names[..n], FirstSeen(names[..n]), names[n]);
    }
  }

  lemma OrdinalIs(params: seq<string>, o: nat)
    requires AllDistinct(params) && 1 <= o <= |params|
    ensures Ordinal(params, params[o - 1]) == o
  {
    hide Ordinal;
    assert params[Ordinal(params, params[o - 1]) - 1] == params[o - 1];
  }

  lemma NamesAreKnown(args: seq<Arg>)
    ensures Known(args, FirstSeen(Names(args)))
  {
    hide FirstSeen;
    var names := Names(args);
    FirstSeenIsExact(names);
    forall a <- args ensures a.name in FirstSeen(names) {
      var k :| 0 <= k < |args| && args[k] == a;
      assert names[k] == a.name;
    }
  }

  /** Every ordinal up to the number of parameters is used. */
  lemma OrdinalIsUsed(args: seq<Arg>, o: nat) returns (a: Arg)
    requires 1 <= o <= |FirstSeen(Names(args))|
    ensures a in args && a.name == FirstSeen(Names(args))[o - 1]
  {
    hide FirstSeen;
    var names := Names(args);
    FirstSeenIsExact(names);
    assert FirstSeen(names)[o - 1] in FirstSeen(names);
    a := args[FirstAt(names, FirstSeen(names)[o - 1])];
  }

  ghost predicate Uses(args: seq<Arg>, params: seq<string>, o: nat)
    requires Known(args, params)
  {
    exists a :: a in args && Ordinal(params, a.name) == o
  }

  /** The ordinals used are exactly one to the number of parameters, and equal names share one. */
  lemma OrdinalsAreExact(args: seq<Arg>)
    ensures var params := FirstSeen(Names(args));
            && Known(args, params)
            && (forall a, b | a in args && b in args :: Ordinal(params, a.name) == Ordinal(params, b.name) <==>
               a.name == b.name)
            && (forall o: nat :: 1 <= o <= |params| <==> Uses(args, params, o))
  {
    hide FirstSeen, Ordinal;
    NamesAreKnown(args);
    var params := FirstSeen(Names(args));
    FirstSeenIsExact(Names(args));
    forall o: nat | 1 <= o <= |params| ensures Uses(args, params, o) {
      var a := OrdinalIsUsed(args, o);
      OrdinalIs(params, o);
    }
  }

  /**
    In PostgreSQL a placeholder is a dollar sign and the digits of a number, under which the
    argument's name stands among the parameters, counted from one. Two arguments get the same
    placeholder exactly when they have the same name.
   */
  lemma PlaceholdersTellApart(args: seq<Arg>, a: Arg, b: Arg)
    requires a in args && b in args
    ensures var params := FirstSeen(Names(args));
            && a.name in params && b.name in params
            && var x, y := Ordinal(params, a.name), Ordinal(params, b.name);
            && (PostgresPlaceholder(a.name, x) == PostgresPlaceholder(b.name, y) <==> a.name == b.name)
            && var text := PostgresPlaceholder(a.name, x);
            && |text| > 1 && text[0] == '$' && params[x - 1] == a.name
            && DigitsFrom(text, 1, 0) == Some(x)
  {
    hide FirstSeen, Ordinal, Itoa;
    OrdinalsAreExact(args);
    var params := FirstSeen(Names(args));
    var x, y := Ordinal(params, a.name), Ordinal(params, b.name);
    assert ("$" + Itoa(x))[1..] == Itoa(x) && ("$" + Itoa(y))[1..] == Itoa(y);
    if Itoa(x) == Itoa(y) {
      ItoaInjective(x, y);
    }
    PlaceholderReads(x);
  }

  lemma PlaceholderReads(n: nat)
    ensures |Itoa(n)| > 0 && DigitsFrom("$" + Itoa(n), 1, 0) == Some(n)
  {
    DigitsRoundTrip(n);
    DigitsPrefix("$", Itoa(n), 0, 0);
  }

  // ---- The text ----

  /** What stands outside the spans. */
  function Outside(sql: string, prev: nat, args: seq<Arg>): (texts: seq<string>)
    requires Ordered(args, prev, |sql|)
    ensures |texts| == |args| + 1
    decreases |args|
  {
    if args == [] then [sql[prev..]]
    else
      assert args[0].hi <= |sql| by { OrderedReaches(args[1..], args[0].hi, |sql|); }
      [sql[prev..args[0].lo]] + Outside(sql, args[0].hi, args[1..])
  }

  /** What the spans hold. */
  function Inside(sql: string, prev: nat, args: seq<Arg>): (texts: seq<string>)
    requires Ordered(args, prev, |sql|)
    ensures |texts| == |args|
    decreases |args|
  {
    if args == [] then []
    else
      assert args[0].hi <= |sql| by { OrderedReaches(args[1..], args[0].hi, |sql|); }
      [sql[args[0].lo..args[0].hi]] + Inside(sql, args[0].hi, args[1..])
  }

  function Fillings(args: seq<Arg>, params: seq<string>, ph: Placeholder): (fills: seq<string>)
    requires Known(args, params)
    ensures |fills| == |args|
  {
    seq(|args|, k requires 0 <= k < |args| => ph(args[k].name, Ordinal(params, args[k].name)))
  }

  function Woven(texts: seq<string>, fills: seq<string>): string
    requires |texts| == |fills| + 1
    decreases |fills|
  {
    if fills == [] then texts[0] else texts[0] + fills[0] + Woven(texts[1..], fills[1..])
  }

  lemma SpanCut(sql: string, prev: nat, lo: nat, hi: nat)
    requires prev <= lo <= hi <= |sql|
    ensures sql[prev..lo] + sql[lo..hi] + sql[hi..] == sql[prev..]
  {
  }

  lemma FillingsCons(args: seq<Arg>, params: seq<string>, ph: Placeholder)
    requires args != [] && Known(args, params)
    ensures args[0].name in params && Known(args[1..], params)
    ensures Fillings(args, params, ph)[0] == ph(args[0].name, Ordinal(params, args[0].name))
    ensures Fillings(args, params, ph)[1..] == Fillings(args[1..], params, ph)
  {
    hide Ordinal;
    assert args[0] in args && forall a <- args[1..] :: a in args;
  }

  /** The source and the prepared text are the same, except for what fills the spans. */
  lemma {:induction false} OnlySpansChange(sql: string, prev: nat, args: seq<Arg>, params: seq<string>, ph: Placeholder)
    requires Ordered(args, prev, |sql|) && Known(args, params) && prev <= |sql|
    ensures Woven(Outside(sql, prev, args), Inside(sql, prev, args)) == sql[prev..]
    ensures Woven(Outside(sql, prev, args), Fillings(args, params, ph)) == Splice(sql, prev, args, params, ph)
    decreases |args|
  {
    hide Ordinal;
    if args != [] {
      var a, rest := args[0], args[1..];
      assert a in args;
      OrderedReaches(rest, a.hi, |sql|);
      OnlySpansChange(sql, a.hi, rest, params, ph);
      var outside, inside := Outside(sql, prev, args), Inside(sql, prev, args);
      assert outside[1..] == Outside(sql, a.hi, rest) && inside[1..] == Inside(sql, a.hi, rest);
      SpanCut(sql, prev, a.lo, a.hi);
      FillingsCons(args, params, ph);
    }
  }

  lemma NamesPrefix(args: seq<Arg>, i: nat)
    requires i < |args|
    ensures Names(args[..i + 1])[..i] == Names(args[..i]) && Names(args[..i + 1])[i] == args[i].name
  {
  }

  lemma FirstSeenStep(args: seq<Arg>, i: nat)
    requires i < |args|
    ensures var seen := FirstSeen(Names(args[..i]));
            FirstSeen(Names(args[..i + 1])) == if args[i].name in seen then seen else seen + [args[i].name]
  {
    NamesPrefix(args, i);
  }

  lemma SpliceStep(sql: string, prev: nat, args: seq<Arg>, i: nat, params: seq<string>, ph: Placeholder)
    requires i < |args| && Ordered(args[i..], prev, |sql|) && Known(args[i..], params)
    ensures var a, rest := args[i], args[i + 1..];
            && prev <= a.lo <= a.hi <= |sql| && a.name in params && Ordered(rest, a.hi, |sql|) && Known(rest, params)
            && Splice(sql, prev, args[i..], params, ph) ==
               sql[prev..a.lo] + ph(a.name, Ordinal(params, a.name)) + Splice(sql, a.hi, rest, params, ph)
  {
    var a, rest := args[i], args[i + 1..];
    assert args[i..][0] == a && args[i..][1..] == rest;
    OrderedReaches(rest, a.hi, |sql|);
    assert a in args[i..] && forall b <- rest :: b in args[i..];
  }

  /** The order numbers kept while reading the names. */
  ghost predicate Numbers(paramOrders: map<string, nat>, params: seq<string>) {
    && (forall name :: name in paramOrders <==> name in params)
    && forall name :: name in paramOrders ==>
       1 <= paramOrders[name] <= |params| && params[paramOrders[name] - 1] == name
  }

  lemma NumbersAreOrdinals(paramOrders: map<string, nat>, params: seq<string>, name: string)
    requires Numbers(paramOrders, params) && AllDistinct(params) && name in params
    ensures name in paramOrders && paramOrders[name] == Ordinal(params, name)
  {
    OrdinalIs(params, paramOrders[name]);
  }

  lemma NumbersStep(args: seq<Arg>, i: nat, paramOrders: map<string, nat>, params: seq<string>)
    requires i < |args| && Numbers(paramOrders, params) && params == FirstSeen(Names(args[..i]))
    ensures var name, next := args[i].name, FirstSeen(Names(args[..i + 1]));
            if name in paramOrders then next == params
            else next == params + [name] && Numbers(paramOrders[name := |params| + 1], next)
  {
    FirstSeenStep(args, i);
  }

  method PrepareSQL(sql: string, args: seq<Arg>, ph: Placeholder) returns (prepared: string, params: seq<string>)
    requires Ordered(args, 0, |sql|)
    ensures params == FirstSeen(Names(args)) && Known(args, params)
    ensures prepared == Splice(sql, 0, args, params, ph)
  {
    hide *;
    NamesAreKnown(args);
    if |args| == 0 {
      prepared, params := sql, [];
      NoArgs(sql, args, ph);
      return;
    }
    var paramOrders: map<string, nat> := map[];
    params := [];
    var idx := 1;
    NoNames(args);
    for i := 0 to |args|
      invariant params == FirstSeen(Names(args[..i])) && idx == |params| + 1 && Numbers(paramOrders, params)
    {
      NumbersStep(args, i, paramOrders, params);
      if args[i].name !in paramOrders {
        params := params + [args[i].name];
        paramOrders := paramOrders[args[i].name := idx];
        idx := idx + 1;
      }
    }
    assert args[..|args|] == args;
    FirstSeenIsExact(Names(args));

    var sb := "";
    var prev := 0;
    assert args[0..] == args;
    for i := 0 to |args|
      invariant 0 <= prev <= |sql| && Ordered(args[i..], prev, |sql|) && Known(args[i..], params)
      invariant sb + Splice(sql, prev, args[i..], params, ph) == Splice(sql, 0, args, params, ph)
    {
      var a := args[i];
      SpliceStep(sql, prev, args, i, params, ph);
      NumbersAreOrdinals(paramOrders, params, a.name);
      var piece := sql[prev..a.lo] + ph(a.name, paramOrders[a.name]);
      ghost var rest := Splice(sql, a.hi, args[i + 1..], params, ph);
      assert sb + (piece + rest) == (sb + piece) + rest;
      sb := sb + piece;
      prev := a.hi;
    }
    NothingLeft(sql, prev, args[|args|..], params, ph);
    prepared := sb + sql[prev..];
  }

  lemma NoNames(args: seq<Arg>)
    ensures FirstSeen(Names(args[..0])) == [] && Numbers(map[], [])
  {
  }

  lemma NoArgs(sql: string, args: seq<Arg>, ph: Placeholder)
    requires args == []
    ensures FirstSeen(Names(args)) == [] && Ordered(args, 0, |sql|) && Known(args, [])
    ensures Splice(sql, 0, args, [], ph) == sql
  {
  }

  lemma NothingLeft(sql: string, prev: nat, args: seq<Arg>, params: seq<string>, ph: Placeholder)
    requires args == [] && Ordered(args, prev, |sql|) && Known(args, params)
    ensures Splice(sql, prev, args, params, ph) == sql[prev..]
  {
  }
}
