/** When the placeholders of ClickHouse leave a query as it was written. */
module PgVerbatim {
  import opened Text
  import opened PgTokens
  import opened PgTokenRun
  import opened PgLexical
  import opened PgArgs
  import opened PgPrepare
  import opened PgParser

  function ClickHousePlaceholder(name: string, ordinal: nat): string {
    "pggen.arg('" + name + "')"
  }

  /** The span holds exactly what replaces it. */
  predicate Keeps(sql: string, a: Arg, fill: string) {
    0 <= a.lo <= a.hi <= |sql| && sql[a.lo..a.hi] == fill
  }

  /** Where no filling is longer than its span, the text is kept exactly when every span is. */
  lemma {:induction false} KeptExactlyWhen(sql: string, prev: nat, args: seq<Arg>, params: seq<string>, ph: Placeholder)
    requires Ordered(args, prev, |sql|) && Known(args, params) && prev <= |sql|
    requires forall a <- args :: |ph(a.name, Ordinal(params, a.name))| <= a.hi - a.lo
    ensures |Splice(sql, prev, args, params, ph)| <= |sql| - prev
    ensures Splice(sql, prev, args, params, ph) == sql[prev..] <==>
            forall a <- args :: Keeps(sql, a, ph(a.name, Ordinal(params, a.name)))
    decreases |args|
  {
    if args != [] {
      var a, rest := args[0], args[1..];
      var fill := ph(a.name, Ordinal(params, a.name));
      assert a in args;
      OrderedReaches(rest, a.hi, |sql|);
      KeptExactlyWhen(sql, a.hi, rest, params, ph);
      var tail := Splice(sql, a.hi, rest, params, ph);
      assert args == [a] + rest;
      SameParts(sql, prev, a.lo, a.hi, fill, tail);
    }
  }

  lemma SameParts(sql: string, prev: nat, lo: nat, hi: nat, fill: string, tail: string)
    requires prev <= lo <= hi <= |sql| && |fill| <= hi - lo && |tail| <= |sql| - hi
    ensures sql[prev..lo] + fill + tail == sql[prev..] <==> sql[lo..hi] == fill && tail == sql[hi..]
  {
    var whole, head := sql[prev..], sql[prev..lo];
    assert whole == head + sql[lo..hi] + sql[hi..];
    if head + fill + tail == whole {
      assert |fill| == hi - lo && |tail| == |sql| - hi;
      assert (head + fill + tail)[lo - prev..hi - prev] == fill;
      assert (head + fill + tail)[hi - prev..] == tail;
      assert whole[lo - prev..hi - prev] == sql[lo..hi] && whole[hi - prev..] == sql[hi..];
    }
  }

  /** An expression is at least as long as its shortest spelling. */
  lemma SpellingIsLong(s: string, lo: int, hi: int, name: string, ordinal: nat)
    requires NulFree(s) && Spells(s, lo, hi, name)
    ensures |ClickHousePlaceholder(name, ordinal)| <= hi - lo
  {
    hide NextToken;
    var open := if StandsAt(s, lo, "pggen.arg(") then lo + 10 else lo + 11;
    var str := NextToken(s, open);
    assert |str.lit| == |name| + 2;
    assert str.end - str.pos == |str.lit|;
  }

  /** The name stands right behind "pggen.arg(" and the closing parenthesis right behind the name. */
  predicate Tight(s: string, lo: int, hi: int) {
    && 0 <= lo && StandsAt(s, lo, "pggen.arg(")
    && var str := NextToken(s, lo + 10); str.pos == lo + 10 && str.end + 1 == hi
  }

  /** An expression is spelled as its placeholder exactly when nothing stands between its parts. */
  lemma TightIsShortest(s: string, lo: int, hi: int, name: string)
    requires NulFree(s) && Spells(s, lo, hi, name)
    ensures Tight(s, lo, hi) <==> s[lo..hi] == "pggen.arg('" + name + "')"
  {
    hide NextToken;
    var open := if StandsAt(s, lo, "pggen.arg(") then lo + 10 else lo + 11;
    var str := NextToken(s, open);
    assert str.end - str.pos == |str.lit| == |name| + 2;
    var close := NextToken(s, str.end);
    if Tight(s, lo, hi) {
      PartsOf(s, lo, hi, name);
    } else {
      assert hi - lo > |"pggen.arg('" + name + "')"|;
    }
  }

  lemma PartsOf(s: string, lo: int, hi: int, name: string)
    requires 0 <= lo && lo + 13 + |name| == hi <= |s| && s[lo..lo + 10] == "pggen.arg("
    requires s[lo + 10..hi - 1] == "'" + name + "'" && s[hi - 1] == ')'
    ensures s[lo..hi] == "pggen.arg('" + name + "')"
  {
    assert s[lo..hi] == s[lo..lo + 10] + s[lo + 10..hi - 1] + s[hi - 1..hi];
    assert s[hi - 1..hi] == ")";
  }

  lemma ArgKeptExactlyWhen(s: string, start: nat, end: nat, a: Arg, ordinal: nat)
    requires NulFree(s) && start <= end <= |s| && 0 <= a.lo < a.hi <= end - start
    requires Spells(s, start + a.lo, start + a.hi, a.name)
    ensures |ClickHousePlaceholder(a.name, ordinal)| <= a.hi - a.lo
    ensures Keeps(s[start..end], a, ClickHousePlaceholder(a.name, ordinal)) <==> Tight(s, start + a.lo, start + a.hi)
  {
    hide Spells, Tight;
    SpellingIsLong(s, start + a.lo, start + a.hi, a.name, ordinal);
    TightIsShortest(s, start + a.lo, start + a.hi, a.name);
    SliceOfSlice(s, start, end, a.lo, a.hi);
  }

  lemma SliceOfSlice(s: string, i: nat, j: nat, a: nat, b: nat)
    requires i <= j <= |s| && a <= b <= j - i
    ensures s[i..j][a..b] == s[i + a..i + b]
  {
    var t := s[i..j];
    assert forall k :: 0 <= k < b - a ==> t[a..b][k] == t[a + k] == s[i + a + k];
  }

  lemma ArgsKeptExactlyWhen(s: string, start: nat, end: nat, args: seq<Arg>, params: seq<string>)
    requires NulFree(s) && start <= end <= |s| && Ordered(args, 0, end - start) && Known(args, params)
    requires forall a <- args :: Spells(s, start + a.lo, start + a.hi, a.name)
    ensures var sql := s[start..end];
            Splice(sql, 0, args, params, ClickHousePlaceholder) == sql <==>
              forall a <- args :: Tight(s, start + a.lo, start + a.hi)
  {
    hide Ordinal, Splice, Spells, Ordered, Tight, Keeps, ClickHousePlaceholder, NulFree;
    var sql := s[start..end];
    forall a <- args
      ensures |ClickHousePlaceholder(a.name, Ordinal(params, a.name))| <= a.hi - a.lo
      ensures Keeps(sql, a, ClickHousePlaceholder(a.name, Ordinal(params, a.name))) <==>
              Tight(s, start + a.lo, start + a.hi)
    {
      SpanBounds(args, 0, |sql|, a);
      ArgKeptExactlyWhen(s, start, end, a, Ordinal(params, a.name));
    }
    KeptExactlyWhen(sql, 0, args, params, ClickHousePlaceholder);
    assert sql[0..] == sql;
  }

  lemma GotBounds(s: string, cur: Scanned)
    requires NulFree(s) && IsToken(s, cur) && QueryAt(s, cur.pos, cur).Got?
    ensures cur.pos <= QueryAt(s, cur.pos, cur).cur.pos < |s|
  {
  }

  /** A ClickHouse query is kept as written exactly when nothing stands between the parts of its arguments. */
  lemma ClickHouseKeepsExactlyWhen(s: string, cur: Scanned)
    requires NulFree(s) && IsToken(s, cur) && QueryAt(s, cur.pos, cur).Got?
    ensures var args, semi := QueryAt(s, cur.pos, cur).value, QueryAt(s, cur.pos, cur).cur;
            var sql, params := s[cur.pos..semi.pos + 1], FirstSeen(Names(args));
            && Ordered(args, 0, |sql|) && Known(args, params)
            && (Splice(sql, 0, args, params, ClickHousePlaceholder) == sql <==>
                forall a <- args :: Tight(s, cur.pos + a.lo, cur.pos + a.hi))
  {
    hide *;
    var args, semi := QueryAt(s, cur.pos, cur).value, QueryAt(s, cur.pos, cur).cur;
    GotBounds(s, cur);
    ParsedSpans(s, cur);
    NamesAreKnown(args);
    SpansAreInside(s, cur.pos, cur, cur.pos);
    ArgsKeptExactlyWhen(s, cur.pos, semi.pos + 1, args, FirstSeen(Names(args)));
  }

  lemma {:induction false} SpanBounds(args: seq<Arg>, lo: int, hi: int, a: Arg)
    requires Ordered(args, lo, hi) && a in args
    ensures lo <= a.lo < a.hi <= hi
    decreases |args|
  {
    OrderedReaches(args[1..], args[0].hi, hi);
    if a != args[0] {
      SpanBounds(args[1..], args[0].hi, hi, a);
    }
  }

  // ---- An example ----

  /** Of the query pggen.arg ('x'); the blank is lost. */
  lemma BlankIsLost(s: string)
    requires s == "pggen.arg ('x');"
    ensures var cur := NextToken(s, 0);
            && NulFree(s) && IsToken(s, cur) && QueryAt(s, 0, cur) ==
               Got([Arg(0, 15, "x")], Scanned(15, Semicolon, "", 16))
            && Splice(s, 0, [Arg(0, 15, "x")], ["x"], ClickHousePlaceholder) != s
  {
    BlankParses(s);
    var args := [Arg(0, 15, "x")];
    assert args[1..] == [];
    assert |Splice(s, 0, args, ["x"], ClickHousePlaceholder)| == 15;
  }

  lemma BlankTokens(s: string)
    requires s == "pggen.arg ('x');"
    ensures NulFree(s) && s[0..11] == "pggen.arg ("
    ensures NextToken(s, 0) == Scanned(0, QueryFragment, s[0..11], 11)
    ensures NextToken(s, 11) == Scanned(11, String, "'x'", 14)
    ensures NextToken(s, 14) == Scanned(14, QueryFragment, ")", 15)
    ensures NextToken(s, 15) == Scanned(15, Semicolon, "", 16)
  {
    assert IsFragment(s, 0, 11);
    FragmentIsExact(s, 0, 11);
    assert QuoteEnd(s, 13, '\'') == Closed(14);
    assert QuoteEnd(s, 12, '\'') == Closed(14);
    assert s[11..14] == "'x'";
    assert FragmentEnd(s, 15) == 15;
  }

  lemma BlankParses(s: string)
    requires s == "pggen.arg ('x');"
    ensures var cur := NextToken(s, 0);
            NulFree(s) && IsToken(s, cur) && QueryAt(s, 0, cur) ==
              Got([Arg(0, 15, "x")], Scanned(15, Semicolon, "", 16))
  {
    BlankTokens(s);
    hide NextToken, LastIndex;
    var cur, close, semi := NextToken(s, 0), NextToken(s, 14), NextToken(s, 15);
    MarkerStarts(cur.lit, "pggen.arg (");
    assert HasMarker(cur) && !HasMarker(close);
    assert "'x'"[1..2] == "x" && ")" <= ")";
    assert ArgAt(s, cur) == Got(Arg(0, 15, "x"), close);
    assert QueryAt(s, 0, semi) == Got([], semi);
    assert QueryAt(s, 0, close) == Got([], semi);
    assert [Arg(0, 15, "x")] + [] == [Arg(0, 15, "x")];
  }

  lemma BlankInsideTokens(s: string)
    requires s == "pggen.arg( 'x');"
    ensures NulFree(s) && s[0..11] == "pggen.arg( "
    ensures NextToken(s, 0) == Scanned(0, QueryFragment, s[0..11], 11)
    ensures NextToken(s, 11) == Scanned(11, String, "'x'", 14)
    ensures NextToken(s, 14) == Scanned(14, QueryFragment, ")", 15)
    ensures NextToken(s, 15) == Scanned(15, Semicolon, "", 16)
  {
    assert IsFragment(s, 0, 11);
    FragmentIsExact(s, 0, 11);
    assert QuoteEnd(s, 13, '\'') == Closed(14);
    assert QuoteEnd(s, 12, '\'') == Closed(14);
    assert s[11..14] == "'x'";
    assert FragmentEnd(s, 15) == 15;
  }

  /** With a blank behind the parenthesis the expression is no argument, and stays in the query. */
  lemma BlankInside(s: string)
    requires s == "pggen.arg( 'x');"
    ensures var cur := NextToken(s, 0);
            NulFree(s) && IsToken(s, cur) && QueryAt(s, 0, cur) == Got([], Scanned(15, Semicolon, "", 16))
  {
    BlankInsideTokens(s);
    hide NextToken, LastIndex;
    var cur, str, close, semi := NextToken(s, 0), NextToken(s, 11), NextToken(s, 14), NextToken(s, 15);
    assert !HasMarker(cur) by { assert cur.lit[10] == ' '; }
    assert !HasMarker(str) && !HasMarker(close);
    assert QueryAt(s, 0, semi) == Got([], semi);
    assert QueryAt(s, 0, close) == Got([], semi);
    assert QueryAt(s, 0, str) == Got([], semi);
  }
}
