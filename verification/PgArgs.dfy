/** What parsing one query finds: the pggen.arg expressions up to the semicolon. */
module PgArgs {
  import opened Text
  import opened PgTokens
  import opened PgLexical
  import opened PgTokenRun

  /** A pggen.arg expression and the span it takes up. */
  datatype Arg = Arg(lo: int, hi: int, name: string)

  /** A value and the current token after reading it, or the current token at the error. */
  datatype Outcome<+T> = Got(value: T, cur: Scanned) | Bad(cur: Scanned)

  predicate NulFree(s: string) {
    '\0' !in s
  }

  /** A token of s; only the end of the source is empty. */
  predicate IsToken(s: string, t: Scanned) {
    && t.pos <= t.end <= |s| && (t.pos == t.end ==> t.tok.EOF?) && !t.tok.LineComment?
    && (t.tok.QueryFragment? || t.tok.String? ==> t.lit == s[t.pos..t.end])
  }

  /** The next token at or behind i that is not a line comment. */
  function NextToken(s: string, i: nat): (t: Scanned)
    requires i <= |s|
    ensures i <= t.pos && (NulFree(s) ==> IsToken(s, t))
    decreases |s| - i
  {
    var t := ScanAt(s, i);
    ScanMakesProgress(s, i);
    LiteralIsText(s, i);
    if t.tok.LineComment? then NextToken(s, t.end) else t
  }

  /** strings.LastIndex */
  function LastIndex(s: string, t: string): (k: int)
    ensures -1 <= k && (k >= 0 ==> StandsAt(s, k, t))
  {
    LastIndexUpTo(s, t, |s|)
  }

  function LastIndexUpTo(s: string, t: string, i: nat): (k: int)
    ensures -1 <= k <= i && (k >= 0 ==> StandsAt(s, k, t))
  {
    if StandsAt(s, i, t) then i else if i == 0 then -1 else LastIndexUpTo(s, t, i - 1)
  }

  /** The fragment ends where the name of an argument is expected. */
  predicate HasMarker(t: Scanned) {
    t.tok.QueryFragment? && (HasSuffix(t.lit, "pggen.arg(") || HasSuffix(t.lit, "pggen.arg ("))
  }

  predicate IsName(lit: string) {
    |lit| >= 3 && lit[0] == '\'' && lit[|lit| - 1] == '\''
  }

  /** The argument whose marker ends the current token. */
  function ArgAt(s: string, cur: Scanned): (r: Outcome<Arg>)
    requires NulFree(s) && IsToken(s, cur)
    ensures IsToken(s, r.cur) && cur.end <= r.cur.pos
  {
    var lo := cur.pos + LastIndex(cur.lit, "pggen");
    var str := NextToken(s, cur.end);
    if !str.tok.String? || !IsName(str.lit) then Bad(str)
    else
      var close := NextToken(s, str.end);
      if !close.tok.QueryFragment? || !(")" <= close.lit) then Bad(close)
      else Got(Arg(lo, close.pos + 1, str.lit[1..|str.lit| - 1]), close)
  }

  /** The arguments from the current token to the semicolon, relative to the start of the query. */
  function QueryAt(s: string, start: nat, cur: Scanned): (r: Outcome<seq<Arg>>)
    requires NulFree(s) && IsToken(s, cur)
    ensures IsToken(s, r.cur) && cur.pos <= r.cur.pos && (r.Got? ==> r.cur.tok.Semicolon?)
    decreases |s| - cur.pos
  {
    if cur.tok.Semicolon? then Got([], cur)
    else if cur.tok.EOF? || cur.tok.Illegal? then Bad(cur)
    else if HasMarker(cur) then
      match ArgAt(s, cur)
      case Bad(c) => Bad(c)
      case Got(arg, c) =>
        match QueryAt(s, start, c)
        case Bad(c) => Bad(c)
        case Got(args, c) => Got([Arg(arg.lo - start, arg.hi - start, arg.name)] + args, c)
    else QueryAt(s, start, NextToken(s, cur.end))
  }

  // ---- Where the arguments are ----

  /** The spans come one behind the other, from lo to hi. */
  predicate Ordered(args: seq<Arg>, lo: int, hi: int) {
    if args == [] then lo <= hi
    else lo <= args[0].lo < args[0].hi && Ordered(args[1..], args[0].hi, hi)
  }

  /** s[lo..hi] is pggen.arg('name'), possibly with blanks and line comments inside. */
  predicate Spells(s: string, lo: int, hi: int, name: string) {
    && 0 <= lo < hi <= |s|
    && var open := if StandsAt(s, lo, "pggen.arg(") then lo + 10 else lo + 11;
    && (StandsAt(s, lo, "pggen.arg(") || StandsAt(s, lo, "pggen.arg ("))
    && var str := NextToken(s, open);
    && str.tok.String? && str.lit == "'" + name + "'" && name != "" && str.end <= |s|
    && var close := NextToken(s, str.end);
    && close.tok.QueryFragment? && close.pos == hi - 1 && s[close.pos] == ')'
  }

  lemma {:induction false} LastIndexIsLast(s: string, t: string, i: nat, k: nat)
    requires k <= i && StandsAt(s, k, t) && forall m :: k < m <= i ==> !StandsAt(s, m, t)
    ensures LastIndexUpTo(s, t, i) == k
    decreases i
  {
    if k < i {
      LastIndexIsLast(s, t, i - 1, k);
    }
  }

  /** The last "pggen" of a marker is the one that starts it. */
  lemma MarkerStarts(lit: string, suffix: string)
    requires suffix == "pggen.arg(" || suffix == "pggen.arg ("
    requires HasSuffix(lit, suffix)
    ensures LastIndex(lit, "pggen") == |lit| - |suffix|
  {
    var k := |lit| - |suffix|;
    assert forall m :: 0 <= m < |suffix| ==> lit[k + m] == suffix[m];
    assert suffix[..5] == "pggen";
    assert lit[k..k + 5] == suffix[..5];
    forall m | k < m <= |lit| ensures !StandsAt(lit, m, "pggen") {
      if m + 5 <= |lit| {
        assert lit[m..m + 5][0] == suffix[m - k] && "pggen"[0] == 'p';
      }
    }
    LastIndexIsLast(lit, "pggen", |lit|, k);
  }

  function MarkerOf(t: Scanned): string {
    if HasSuffix(t.lit, "pggen.arg(") then "pggen.arg(" else "pggen.arg ("
  }

  lemma SuffixStands(s: string, cur: Scanned)
    requires IsToken(s, cur) && HasMarker(cur)
    ensures var m := MarkerOf(cur); |m| <= cur.end - cur.pos && StandsAt(s, cur.end - |m|, m)
  {
    var m := MarkerOf(cur);
    var k := |cur.lit| - |m|;
    assert cur.lit[k..] == s[cur.pos + k..cur.end];
  }

  lemma MarkerIsNot(s: string, k: nat)
    requires StandsAt(s, k, "pggen.arg (")
    ensures !StandsAt(s, k, "pggen.arg(")
  {
    assert s[k..k + 11][9] == ' ';
    assert s[k..k + 10][9] == s[k + 9] == ' ';
  }

  lemma NameInQuotes(lit: string)
    requires IsName(lit)
    ensures lit == "'" + lit[1..|lit| - 1] + "'"
  {
  }

  lemma ArgReads(s: string, cur: Scanned)
    requires NulFree(s) && IsToken(s, cur) && HasMarker(cur) && ArgAt(s, cur).Got?
    ensures var r := ArgAt(s, cur); var arg := r.value;
            && Spells(s, arg.lo, arg.hi, arg.name) && arg.hi == r.cur.pos + 1
            && arg.lo == cur.end - |MarkerOf(cur)| && arg.hi > cur.end
            && r.cur.tok.QueryFragment? && ")" <= r.cur.lit
  {
    hide NextToken, LastIndex, StandsAt, HasSuffix;
    var r := ArgAt(s, cur);
    var m := MarkerOf(cur);
    MarkerStarts(cur.lit, m);
    SuffixStands(s, cur);
    if m == "pggen.arg (" {
      MarkerIsNot(s, r.value.lo);
    }
    NameInQuotes(NextToken(s, cur.end).lit);
    assert s[r.cur.pos] == r.cur.lit[0];
  }

  /** What the current token makes of the rest of a query that is parsed. */
  lemma QueryUnfolds(s: string, start: nat, cur: Scanned)
    requires NulFree(s) && IsToken(s, cur) && QueryAt(s, start, cur).Got?
    ensures cur.pos < cur.end <= |s| && (cur.tok.QueryFragment? ==> |cur.lit| == cur.end - cur.pos)
    ensures cur.tok.Semicolon? ==> QueryAt(s, start, cur) == Got([], cur)
    ensures !cur.tok.Semicolon? && !HasMarker(cur) ==>
              QueryAt(s, start, cur) == QueryAt(s, start, NextToken(s, cur.end))
    ensures HasMarker(cur) ==>
              && ArgAt(s, cur).Got? && QueryAt(s, start, ArgAt(s, cur).cur).Got?
              && var arg, rest := ArgAt(s, cur).value, QueryAt(s, start, ArgAt(s, cur).cur);
              QueryAt(s, start, cur) == Got([Arg(arg.lo - start, arg.hi - start, arg.name)] + rest.value, rest.cur)
  {
    hide NextToken, ArgAt, HasSuffix;
  }

  /** The spans found are ordered, disjoint and inside the query, and each holds the expression for its name. */
  lemma {:induction false} SpansAreInside(s: string, start: nat, cur: Scanned, prev: nat)
    requires NulFree(s) && IsToken(s, cur) && QueryAt(s, start, cur).Got?
    requires prev <= cur.pos || (prev == cur.pos + 1 && cur.tok.QueryFragment? && ")" <= cur.lit)
    ensures var r := QueryAt(s, start, cur);
            && Ordered(r.value, prev - start, r.cur.pos - start)
            && forall a <- r.value :: Spells(s, start + a.lo, start + a.hi, a.name)
    decreases |s| - cur.pos
  {
    hide NextToken, ArgAt, Spells, HasSuffix, MarkerOf, IsToken, QueryAt;
    QueryUnfolds(s, start, cur);
    if HasMarker(cur) {
      var c := ArgAt(s, cur).cur;
      ArgReads(s, cur);
      MarkerIsLonger(cur);
      SuffixStands(s, cur);
      SpansAreInside(s, start, c, c.pos + 1);
      var args := QueryAt(s, start, cur).value;
      assert args[1..] == QueryAt(s, start, c).value && forall a <- args :: a == args[0] || a in args[1..];
    } else if !cur.tok.Semicolon? {
      SpansAreInside(s, start, NextToken(s, cur.end), prev);
    }
  }

  lemma MarkerIsLonger(cur: Scanned)
    requires HasMarker(cur)
    ensures ")" <= cur.lit ==> |cur.lit| > |MarkerOf(cur)|
  {
    var m := MarkerOf(cur);
    assert |cur.lit| == |m| ==> cur.lit[0] == m[0];
  }

  /** The positions of all markers among the tokens up to the semicolon. */
  function Markers(s: string, cur: Scanned): seq<nat>
    requires NulFree(s) && IsToken(s, cur)
    decreases |s| - cur.pos
  {
    if cur.tok.Semicolon? || cur.tok.EOF? || cur.tok.Illegal? then []
    else
      var rest := Markers(s, NextToken(s, cur.end));
      if HasMarker(cur) && |MarkerOf(cur)| <= cur.end then [cur.end - |MarkerOf(cur)|] + rest else rest
  }

  lemma MarkersStep(s: string, cur: Scanned)
    requires NulFree(s) && IsToken(s, cur) && !cur.tok.Semicolon? && !cur.tok.EOF? && !cur.tok.Illegal?
    ensures var rest := Markers(s, NextToken(s, cur.end));
            if HasMarker(cur) then |MarkerOf(cur)| <= cur.end && Markers(s, cur) == [cur.end - |MarkerOf(cur)|] + rest
            else Markers(s, cur) == rest
  {
    hide NextToken, HasSuffix;
    if HasMarker(cur) {
      SuffixStands(s, cur);
    }
  }

  /** Every marker is found, and nothing else. */
  lemma {:induction false} EveryMarkerIsFound(s: string, start: nat, cur: Scanned)
    requires NulFree(s) && IsToken(s, cur) && QueryAt(s, start, cur).Got?
    ensures var args := QueryAt(s, start, cur).value; var ms := Markers(s, cur);
            |args| == |ms| && forall k :: 0 <= k < |args| ==> start + args[k].lo == ms[k]
    decreases |s| - cur.pos
  {
    hide NextToken, LastIndex, Markers, HasSuffix, MarkerOf, Spells;
    if HasMarker(cur) {
      var str := NextToken(s, cur.end);
      var c := ArgAt(s, cur).cur;
      ArgReads(s, cur);
      assert c == NextToken(s, str.end);
      MarkersStep(s, cur);
      MarkersStep(s, str);
      EveryMarkerIsFound(s, start, c);
    } else if !cur.tok.Semicolon? {
      MarkersStep(s, cur);
      EveryMarkerIsFound(s, start, NextToken(s, cur.end));
    } else {
      NoMarkers(s, cur);
    }
  }

  lemma NoMarkers(s: string, cur: Scanned)
    requires NulFree(s) && IsToken(s, cur) && cur.tok.Semicolon?
    ensures Markers(s, cur) == []
  {
  }

  // ---- Which occurrences are found ----

  /** The tokens from the current one up to the semicolon. */
  function QueryTokens(s: string, cur: Scanned): seq<Scanned>
    requires NulFree(s) && IsToken(s, cur)
    decreases |s| - cur.pos
  {
    if cur.tok.Semicolon? || cur.tok.EOF? || cur.tok.Illegal? then []
    else [cur] + QueryTokens(s, NextToken(s, cur.end))
  }

  /** Every token stands at or behind cur, is a token of s, and does not overlap another one. */
  lemma {:induction false} QueryTokensApart(s: string, cur: Scanned, t: Scanned, t': Scanned)
    requires NulFree(s) && IsToken(s, cur) && t in QueryTokens(s, cur) && t' in QueryTokens(s, cur)
    ensures cur.pos <= t.pos < t.end && cur.pos <= t'.pos < t'.end && IsToken(s, t) && IsToken(s, t')
    ensures t == t' || t.end <= t'.pos || t'.end <= t.pos
    decreases |s| - cur.pos
  {
    hide NextToken;
    var next := NextToken(s, cur.end);
    var rest := QueryTokens(s, next);
    assert QueryTokens(s, cur) == [cur] + rest;
    if t in rest && t' in rest {
      QueryTokensApart(s, next, t, t');
    } else if t in rest {
      QueryTokensApart(s, next, t, t);
    } else if t' in rest {
      QueryTokensApart(s, next, t', t');
    }
  }

  lemma {:induction false} MarkersAreOfTokens(s: string, cur: Scanned, k: nat)
    requires NulFree(s) && IsToken(s, cur)
    ensures k in Markers(s, cur) <==>
            exists t <- QueryTokens(s, cur) :: HasMarker(t) && |MarkerOf(t)| <= t.end && k == t.end - |MarkerOf(t)|
    decreases |s| - cur.pos
  {
    hide NextToken, HasSuffix, MarkerOf;
    if !(cur.tok.Semicolon? || cur.tok.EOF? || cur.tok.Illegal?) {
      var next := NextToken(s, cur.end);
      assert QueryTokens(s, cur) == [cur] + QueryTokens(s, next);
      MarkersAreOfTokens(s, next, k);
    }
  }

  /** An occurrence in a fragment becomes an argument exactly when it ends the fragment. */
  lemma OccurrenceIsFoundExactlyWhen(s: string, start: nat, cur: Scanned, t: Scanned, k: nat)
    requires NulFree(s) && IsToken(s, cur) && QueryAt(s, start, cur).Got?
    requires t in QueryTokens(s, cur) && t.tok.QueryFragment?
    requires t.pos <= k && k + 10 <= t.end && StandsAt(s, k, "pggen.arg(")
    ensures (exists a <- QueryAt(s, start, cur).value :: start + a.lo == k) <==> k + 10 == t.end
  {
    hide QueryAt, QueryTokens, Markers;
    var args, ms := QueryAt(s, start, cur).value, Markers(s, cur);
    EveryMarkerIsFound(s, start, cur);
    MarkersAreOfTokens(s, cur, k);
    QueryTokensApart(s, cur, t, t);
    if k + 10 == t.end {
      EndsInMarker(s, t, k);
      var i :| 0 <= i < |ms| && ms[i] == k;
      assert args[i] in args;
    }
    if a :| a in args && start + a.lo == k {
      var i :| 0 <= i < |args| && args[i] == a;
      assert ms[i] == k;
      var t' :| t' in QueryTokens(s, cur) && HasMarker(t') && |MarkerOf(t')| <= t'.end && k == t'.end - |MarkerOf(t')|;
      QueryTokensApart(s, cur, t, t');
      SuffixStands(s, t');
      if MarkerOf(t') == "pggen.arg (" {
        MarkerIsNot(s, k);
      }
    }
  }

  lemma EndsInMarker(s: string, t: Scanned, k: nat)
    requires IsToken(s, t) && t.tok.QueryFragment? && t.pos <= k && k + 10 == t.end && StandsAt(s, k, "pggen.arg(")
    ensures HasMarker(t) && MarkerOf(t) == "pggen.arg("
  {
    assert t.lit[|t.lit| - 10..] == s[k..t.end];
  }

  /** A fragment ends at a string, a quoted identifier, a comment, a dollar quote or a semicolon, and nowhere else. */
  lemma FragmentEndsAtStop(s: string, i: nat, k: nat)
    requires i <= |s| && ScanAt(s, i).tok.QueryFragment? && ScanAt(s, i).pos <= k <= ScanAt(s, i).end && k < |s|
    ensures k == ScanAt(s, i).end <==> Stops(s, k)
  {
    SkipBlanksIsGap(s, i);
    FragmentStops(s, ScanAt(s, i).pos);
  }
}
