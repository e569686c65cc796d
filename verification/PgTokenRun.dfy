/** What repeated scanning makes of a whole source: one grammatical tokenization, and the only one. */
module PgTokenRun {
  import opened Text
  import opened PgTokens
  import opened PgLexical

  /** s[i..e] is a token of the given kind by the lexical rules, and does not go on behind e. */
  ghost predicate Reads(s: string, i: nat, e: nat, tok: Token) {
    && i < e <= |s|
    && match tok
       case LineComment =>
         && StandsAt(s, i, "--") && (forall k :: i <= k < e ==> s[k] != '\n') && (e == |s| || s[e] == '\n')
       case BlockComment => IsBlockComment(s[i..e])
       case String => IsQuoted(s, i, e, '\'') || IsDollarQuoted(s[i..e])
       case QuotedIdent => IsQuoted(s, i, e, '"')
       case Semicolon => e == i + 1 && s[i] == ';'
       case QueryFragment =>
         IsFragment(s, i, e) && s[i] != '$' && s[i] != ' ' && s[i] != '\t' && s[i] != '\n' && s[i] != '\r'
       case _ => false
  }

  lemma {:induction false} LineIsExact(s: string, i: nat, e: nat)
    requires i <= |s|
    ensures LineEnd(s, i) == e <==>
            i <= e <= |s| && (forall k :: i <= k < e ==> s[k] != '\n') && (e == |s| || s[e] == '\n')
    decreases |s| - i
  {
    if i < |s| && s[i] != '\n' {
      LineIsExact(s, i + 1, e);
    }
  }

  lemma CommentStarts(text: string)
    requires IsBlockComment(text)
    ensures |text| >= 2 && text[0] == '/' && text[1] == '*'
  {
  }

  lemma QuotedStarts(s: string, i: nat, e: nat, q: char)
    requires IsQuoted(s, i, e, q)
    ensures s[i] == q
  {
    assert s[i..e][0] == s[i];
  }

  lemma DollarStarts(text: string)
    requires IsDollarQuoted(text)
    ensures text != "" && text[0] == '$'
  {
  }

  /** How the first characters of a token tell its kind. */
  lemma TokenStarts(s: string, i: nat, e: nat, tok: Token)
    requires Reads(s, i, e, tok)
    ensures tok.LineComment? ==> s[i] == '-' && Has(s, i + 1, '-')
    ensures tok.BlockComment? ==> Opens(s, i)
    ensures tok.String? ==> s[i] == '\'' || s[i] == '$'
    ensures tok.String? ==> (IsQuoted(s, i, e, '\'') <==> s[i] == '\'') && (IsDollarQuoted(s[i..e]) <==> s[i] == '$')
    ensures tok.QuotedIdent? ==> s[i] == '"'
    ensures tok.QueryFragment? ==> !Stops(s, i)
    ensures !tok.Illegal? && !tok.EOF? && !IsBlank(s[i])
  {
    StandsPair(s, i, '-', '-');
    assert s[i..e][0] == s[i] && (e > i + 1 ==> s[i..e][1] == s[i + 1]);
    if tok.BlockComment? {
      CommentStarts(s[i..e]);
    }
    if tok.String? {
      if IsQuoted(s, i, e, '\'') {
        QuotedStarts(s, i, e, '\'');
      }
      if IsDollarQuoted(s[i..e]) {
        DollarStarts(s[i..e]);
      }
    }
    if tok.QuotedIdent? {
      QuotedStarts(s, i, e, '"');
    }
  }

  /** The scanner reads exactly the tokens that the rules describe. */
  lemma TokenIsExact(s: string, i: nat, e: nat, tok: Token)
    requires i < |s| && !IsBlank(s[i])
    ensures Reads(s, i, e, tok) <==>
            var t := TokenAt(s, i); t.tok == tok && t.end == e && e > i && !tok.Illegal?
  {
    hide IsFragment, IsQuoted, IsDollarQuoted, IsBlockComment, LineEnd, CommentEnd, QuoteEnd, DollarEnd, FragmentEnd;
    StandsPair(s, i, '-', '-');
    LineIsExact(s, i, e);
    CommentIsExact(s, i, e);
    QuoteIsExact(s, i, e, '\'');
    QuoteIsExact(s, i, e, '"');
    if s[i] == '$' {
      DollarIsExact(s, i, e);
    } else {
      FragmentIsExact(s, i, e);
    }
    if Reads(s, i, e, tok) {
      TokenStarts(s, i, e, tok);
    }
  }

  // ---- One call ----

  predicate IsGap(s: string, i: nat, j: nat) {
    i <= j <= |s| && forall k :: i <= k < j ==> s[k] == ' ' || s[k] == '\t' || s[k] == '\n' || s[k] == '\r'
  }

  lemma {:induction false} SkipBlanksIsGap(s: string, i: nat)
    requires i <= |s|
    ensures var j := SkipBlanks(s, i); IsGap(s, i, j) && (j == |s| || !IsBlank(s[j]))
    decreases |s| - i
  {
    if i < |s| && IsBlank(s[i]) {
      SkipBlanksIsGap(s, i + 1);
    }
  }

  /** Every call moves on, except at the end of the source and, for ever, in front of a NUL. */
  lemma ScanMakesProgress(s: string, i: nat)
    requires i <= |s|
    ensures var t := ScanAt(s, i);
            && (t.tok.EOF? <==> IsGap(s, i, |s|))
            && (t.end == t.pos <==> t.tok.EOF? || s[t.pos] == '\0')
            && (t.end == t.pos ==> ScanAt(s, t.end) == t)
  {
    SkipBlanksIsGap(s, i);
    var t := ScanAt(s, i);
    if t.pos < |s| {
      LineIsExact(s, t.pos, t.pos);
      assert s[t.pos] != '$' && !IsDelimiter(s, t.pos) && s[t.pos] != '\0' ==> FragmentEnd(s, t.pos) >= t.pos + 1;
    }
  }

  /** A call finds a token exactly when the rules allow one behind the gap. */
  lemma IllegalExactlyWhen(s: string, i: nat)
    requires i <= |s|
    ensures var t := ScanAt(s, i);
            && (t.tok.Illegal? || t.end == t.pos <==> forall e, tok :: !Reads(s, t.pos, e, tok))
            && IsGap(s, i, t.pos)
  {
    SkipBlanksIsGap(s, i);
    var t := ScanAt(s, i);
    if t.pos < |s| {
      forall e: nat, tok ensures Reads(s, t.pos, e, tok) <==> t.tok == tok && t.end == e && e > t.pos && !tok.Illegal? {
        TokenIsExact(s, t.pos, e, tok);
      }
      assert Reads(s, t.pos, t.end, t.tok) <==> t.end > t.pos && !t.tok.Illegal?;
    }
  }

  // ---- A whole run ----

  predicate Ends(t: Scanned) {
    t.tok.EOF? || t.tok.Illegal? || t.end == t.pos
  }

  /** The tokens from i on, up to the end, an illegal token or a NUL. */
  function Tokens(s: string, i: nat): seq<Scanned>
    requires i <= |s|
    decreases |s| - i
  {
    var t := ScanAt(s, i);
    if Ends(t) then [] else [t] + Tokens(s, t.end)
  }

  /** The position behind the last of them. */
  function Reached(s: string, i: nat): (j: nat)
    requires i <= |s|
    ensures i <= j <= |s|
    decreases |s| - i
  {
    var t := ScanAt(s, i);
    if Ends(t) then i else Reached(s, t.end)
  }

  function TextOf(t: Scanned): string {
    if t.tok.Semicolon? then ";" else t.lit
  }

  /** The tokens ts follow each other from i to j with only blanks between them. */
  ghost predicate Tokenizes(s: string, i: nat, ts: seq<Scanned>, j: nat)
    decreases |ts|
  {
    if ts == [] then i == j
    else
      var t := ts[0];
      && IsGap(s, i, t.pos) && Reads(s, t.pos, t.end, t.tok)
      && t.lit == (if t.tok.Semicolon? then "" else s[t.pos..t.end])
      && Tokenizes(s, t.end, ts[1..], j)
  }

  /** What is scanned next is determined by the rules. */
  lemma ScanIsExact(s: string, i: nat, t: Scanned)
    requires i <= |s|
    ensures IsGap(s, i, t.pos) && Reads(s, t.pos, t.end, t.tok)
              && t.lit == (if t.tok.Semicolon? then "" else s[t.pos..t.end])
       <==> t == ScanAt(s, i) && !Ends(t)
  {
    hide TokenAt;
    SkipBlanksIsGap(s, i);
    var p := SkipBlanks(s, i);
    LiteralIsText(s, i);
    if p < |s| {
      TokenIsExact(s, p, ScanAt(s, i).end, ScanAt(s, i).tok);
    }
    if IsGap(s, i, t.pos) && Reads(s, t.pos, t.end, t.tok) {
      TokenStarts(s, t.pos, t.end, t.tok);
      assert t.pos == p;
      TokenIsExact(s, p, t.end, t.tok);
    }
  }

  lemma LiteralIsText(s: string, i: nat)
    requires i <= |s|
    ensures var t := ScanAt(s, i);
            && (!t.tok.Illegal? ==> t.lit == if t.tok.Semicolon? then "" else s[t.pos..t.end])
            && (t.tok.EOF? ==> t.end == t.pos)
            && (t.end > t.pos ==> t.pos < |s|)
  {
  }

  /** Scanning to the end finds the one tokenization of the source, and fails only if there is none. */
  lemma {:induction false} TokenizationIsUnique(s: string, i: nat, ts: seq<Scanned>, j: nat)
    requires i <= |s|
    ensures Tokenizes(s, i, ts, j) && IsGap(s, j, |s|) <==> ts == Tokens(s, i) && j == Reached(s, i) && IsGap(s, j, |s|)
    decreases |ts|
  {
    hide ScanAt, Reads;
    var t := ScanAt(s, i);
    ScanMakesProgress(s, i);
    if ts != [] {
      ScanIsExact(s, i, ts[0]);
      if ts[0] == t && !Ends(t) {
        TokenizationIsUnique(s, t.end, ts[1..], j);
        assert ts == [t] + ts[1..];
      }
    }
  }

  /** Also of a source that cannot be scanned to its end, what is scanned follows the rules. */
  lemma {:induction false} TokensFollowTheRules(s: string, i: nat)
    requires i <= |s|
    ensures Tokenizes(s, i, Tokens(s, i), Reached(s, i))
    decreases |s| - i
  {
    hide ScanAt, Reads;
    var t := ScanAt(s, i);
    ScanIsExact(s, i, t);
    if !Ends(t) {
      TokensFollowTheRules(s, t.end);
      assert ([t] + Tokens(s, t.end))[1..] == Tokens(s, t.end);
    }
  }

  /** The gaps and the token texts of a run, put together again. */
  function Rebuilt(s: string, i: nat): string
    requires i <= |s|
    decreases |s| - i
  {
    var t := ScanAt(s, i);
    if Ends(t) then "" else s[i..t.pos] + TextOf(t) + Rebuilt(s, t.end)
  }

  /** Nothing of the source is lost or changed. */
  lemma {:induction false} TokensRebuildTheSource(s: string, i: nat)
    requires i <= |s|
    ensures Rebuilt(s, i) + s[Reached(s, i)..] == s[i..]
    decreases |s| - i
  {
    hide TokenAt, ScanAt, Reads;
    var t := ScanAt(s, i);
    LiteralIsText(s, i);
    if !Ends(t) {
      ScanIsExact(s, i, t);
      TextStands(s, t);
      TokensRebuildTheSource(s, t.end);
      Glue(s, i, t.pos, t.end, Rebuilt(s, t.end), s[Reached(s, i)..]);
    } else {
      assert "" + s[i..] == s[i..];
    }
  }

  lemma TextStands(s: string, t: Scanned)
    requires Reads(s, t.pos, t.end, t.tok) && t.lit == if t.tok.Semicolon? then "" else s[t.pos..t.end]
    ensures TextOf(t) == s[t.pos..t.end]
  {
  }

  lemma Glue(s: string, i: nat, p: nat, e: nat, rest: string, tail: string)
    requires i <= p <= e <= |s| && rest + tail == s[e..]
    ensures (s[i..p] + s[p..e] + rest) + tail == s[i..]
  {
    assert (s[i..p] + s[p..e] + rest) + tail == s[i..p] + s[p..e] + s[e..];
  }

  lemma FragmentHasNoSemicolon(s: string, i: nat, e: nat, tok: Token, k: nat)
    requires Reads(s, i, e, tok) && i <= k < e && s[k] == ';'
    ensures !tok.QueryFragment? && (tok.Semicolon? ==> k == i)
  {
    assert tok.QueryFragment? ==> !Stops(s, k);
  }

  predicate Covers(t: Scanned, k: nat) {
    t.pos <= k < t.end
  }

  /** The token is a separator at k, or holds k and is not a fragment. */
  predicate CoversSemicolon(t: Scanned, k: nat) {
    Covers(t, k) && !t.tok.QueryFragment? && (t.tok.Semicolon? ==> t.pos == k)
  }

  /** Tokens come one behind the other. */
  lemma {:induction false} TokensAreDisjoint(s: string, i: nat, ts: seq<Scanned>, j: nat)
    requires Tokenizes(s, i, ts, j)
    ensures forall n :: 0 <= n < |ts| ==> i <= ts[n].pos < ts[n].end <= j
    ensures forall m, n :: 0 <= m < n < |ts| ==> ts[m].end <= ts[n].pos
    ensures i <= j
    decreases |ts|
  {
    hide Reads;
    if ts != [] {
      assert ts[0].pos < ts[0].end by { TokenStarts(s, ts[0].pos, ts[0].end, ts[0].tok); ReadsSome(s, ts[0]); }
      TokensAreDisjoint(s, ts[0].end, ts[1..], j);
      assert forall n :: 0 < n < |ts| ==> ts[n] == ts[1..][n - 1];
    }
  }

  lemma ReadsSome(s: string, t: Scanned)
    requires Reads(s, t.pos, t.end, t.tok)
    ensures t.pos < t.end <= |s|
  {
  }

  /** Every semicolon is a token of its own or stands inside a string, a quoted identifier or a comment. */
  lemma {:induction false} SemicolonIsCovered(s: string, i: nat, ts: seq<Scanned>, j: nat, k: nat)
    requires Tokenizes(s, i, ts, j) && i <= k < j && k < |s| && s[k] == ';'
    ensures exists n :: 0 <= n < |ts| && CoversSemicolon(ts[n], k)
    decreases |ts|
  {
    hide Reads;
    var t := ts[0];
    ReadsSome(s, t);
    if k < t.end {
      assert k >= t.pos;
      FragmentHasNoSemicolon(s, t.pos, t.end, t.tok, k);
      assert CoversSemicolon(ts[0], k);
    } else {
      SemicolonIsCovered(s, t.end, ts[1..], j, k);
      var n :| 0 <= n < |ts[1..]| && CoversSemicolon(ts[1..][n], k);
      assert ts[n + 1] == ts[1..][n];
    }
  }

  lemma {:induction false} TokenInRun(s: string, i: nat, ts: seq<Scanned>, j: nat, n: nat)
    requires Tokenizes(s, i, ts, j) && n < |ts|
    ensures Reads(s, ts[n].pos, ts[n].end, ts[n].tok)
    decreases |ts|
  {
    hide Reads;
    if n > 0 {
      TokenInRun(s, ts[0].end, ts[1..], j, n - 1);
    }
  }

  ghost predicate IsSeparator(ts: seq<Scanned>, k: nat) {
    exists n :: 0 <= n < |ts| && ts[n].tok.Semicolon? && Covers(ts[n], k)
  }

  ghost predicate IsProtected(ts: seq<Scanned>, k: nat) {
    exists n :: 0 <= n < |ts| && Covers(ts[n], k)
      && (ts[n].tok.String? || ts[n].tok.QuotedIdent? || ts[n].tok.LineComment? || ts[n].tok.BlockComment?)
  }

  /** A semicolon separates queries exactly when it is outside every string, quoted identifier and comment. */
  lemma SemicolonSeparatesExactlyWhen(s: string, k: nat)
    requires k < Reached(s, 0)
    ensures var ts := Tokens(s, 0); IsSeparator(ts, k) <==> s[k] == ';' && !IsProtected(ts, k)
  {
    hide Tokens, Reached, Tokenizes;
    var ts, j := Tokens(s, 0), Reached(s, 0);
    TokensFollowTheRules(s, 0);
    TokensAreDisjoint(s, 0, ts, j);
    if n :| 0 <= n < |ts| && ts[n].tok.Semicolon? && Covers(ts[n], k) {
      TokenInRun(s, 0, ts, j, n);
      assert forall m :: 0 <= m < |ts| && Covers(ts[m], k) ==> m == n;
    }
    if s[k] == ';' {
      SemicolonIsCovered(s, 0, ts, j, k);
      var n :| 0 <= n < |ts| && CoversSemicolon(ts[n], k);
      TokenInRun(s, 0, ts, j, n);
      assert ts[n].tok.Semicolon? ==> IsSeparator(ts, k);
    }
  }
}
