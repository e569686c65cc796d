/**
  The scanner against the lexical rules of the PostgreSQL 13 manual: identifiers (section
  4.1.1), string constants with and without C-style escapes (4.1.2.1, 4.1.2.2), dollar
  quoting (4.1.2.4), numbers (4.1.2.6), positional parameters (4.2.2) and comments (4.1.5).
  The scanner knows no escapes, lets a number swallow a dollar sign and takes a parameter for
  a dollar quote; everywhere else its tokens are the manual's.
 */
module PgManual {
  import opened Text
  import opened PgTokens
  import opened PgLexical
  import opened PgTokenRun

  predicate DigitAt(s: string, i: nat) {
    i < |s| && IsDigit(s[i])
  }

  lemma {:induction false} DigitsRun(s: string, i: nat)
    requires i <= |s|
    ensures forall k :: i <= k < DigitsEnd(s, i) ==> IsDigit(s[k])
    decreases |s| - i
  {
    if i < |s| && IsDigit(s[i]) {
      DigitsRun(s, i + 1);
    }
  }

  lemma NumberRuns(s: string, i: nat)
    requires DigitAt(s, i)
    ensures forall k :: i <= k < NumberEnd(s, i) ==> IsIdentChar(s[k])
    ensures IsDigit(s[NumberEnd(s, i) - 1])
  {
    var m := DigitsEnd(s, i + 1);
    DigitsRun(s, i + 1);
    if DigitAt(s, m + 1) {
      DigitsRun(s, m + 1);
      assert DigitsEnd(s, m + 1) > m + 1;
    }
  }

  /** The end of the number that starts with the digit at i: digits and possibly an exponent. */
  function NumberEnd(s: string, i: nat): (j: nat)
    requires DigitAt(s, i)
    ensures i < j <= |s|
  {
    var m := DigitsEnd(s, i + 1);
    if (Has(s, m, 'e') || Has(s, m, 'E')) && DigitAt(s, m + 1) then DigitsEnd(s, m + 1) else m
  }

  // ---- Query fragments ----

  /** A dollar sign followed by a digit is a parameter. */
  predicate IsParameter(s: string, i: nat) {
    Has(s, i, '$') && DigitAt(s, i + 1)
  }

  /** A dollar sign that belongs to no identifier and starts no parameter. */
  predicate IsBare(s: string, i: nat) {
    Has(s, i, '$') && !DigitAt(s, i + 1)
  }

  /** Behind the word, number, parameter or other character at i. */
  function WordBehind(s: string, i: nat): (j: nat)
    requires i < |s|
    ensures i < j <= |s|
  {
    if IsParameter(s, i) then DigitsEnd(s, i + 1)
    else if IsLetter(s[i]) then assert WordEnd(s, i) > i; WordEnd(s, i)
    else if IsDigit(s[i]) then NumberEnd(s, i)
    else i + 1
  }

  /** The end of a fragment that goes on at i, and whether its last word is a lone E, as escape strings start. */
  function Fragment(s: string, i: nat, lone: bool): (r: (nat, bool))
    requires i <= |s|
    ensures i <= r.0 <= |s|
    decreases |s| - i
  {
    if i == |s| || s[i] == '\0' || IsDelimiter(s, i) || IsBare(s, i) then (i, lone)
    else
      var j := WordBehind(s, i);
      Fragment(s, j, j == i + 1 && (s[i] == 'E' || s[i] == 'e'))
  }

  /** No dollar sign from i to e stands outside identifiers and parameters. */
  predicate NoBareDollar(s: string, i: nat, e: nat)
    requires i <= |s|
    decreases |s| - i
  {
    i < e && i < |s| ==> !IsBare(s, i) && NoBareDollar(s, WordBehind(s, i), e)
  }

  lemma {:induction false} WordRuns(s: string, i: nat)
    requires i <= |s|
    ensures forall k :: i <= k < WordEnd(s, i) ==> IsIdentChar(s[k]) || s[k] == '$'
    decreases |s| - i
  {
    if i < |s| && (IsIdentChar(s[i]) || s[i] == '$') {
      WordRuns(s, i + 1);
    }
  }

  /** What WordBehind steps over, if it is more than one character, could all be part of an identifier. */
  lemma StepsOverWord(s: string, i: nat)
    requires i < |s|
    ensures WordBehind(s, i) == i + 1 || forall k :: i <= k < WordBehind(s, i) ==> IsIdentChar(s[k]) || s[k] == '$'
  {
    if IsParameter(s, i) {
      DigitsRun(s, i + 1);
    } else if IsLetter(s[i]) {
      WordRuns(s, i);
    } else if IsDigit(s[i]) {
      NumberRuns(s, i);
    }
  }

  /** The manual's fragment from a place inside the scanner's fragment. */
  lemma {:induction false} FragmentReaches(s: string, p: nat, e: nat, i: nat, lone: bool)
    requires p <= i <= e <= |s| && IsFragment(s, p, e)
    ensures Fragment(s, i, lone).0 == e <==> NoBareDollar(s, i, e) && !IsParameter(s, e)
    decreases e - i
  {
    if i < e {
      assert !Stops(s, i);
      if !IsBare(s, i) {
        var j := WordBehind(s, i);
        StepsOverWord(s, i);
        assert j <= e;
        FragmentReaches(s, p, e, j, j == i + 1 && (s[i] == 'E' || s[i] == 'e'));
      }
    }
  }

  /**
    Scanner and manual agree on a fragment exactly when every dollar sign in it belongs to an
    identifier or a parameter, and no parameter follows.
   */
  lemma FragmentAgrees(s: string, p: nat)
    requires p <= |s| && !Has(s, p, '$')
    ensures var e := FragmentEnd(s, p); Fragment(s, p, false).0 == e <==> NoBareDollar(s, p, e) && !IsParameter(s, e)
  {
    FragmentStops(s, p);
    FragmentReaches(s, p, FragmentEnd(s, p), p, false);
  }

  // ---- Escape strings ----

  function BehindBackslash(s: string, i: nat): (j: nat)
    requires i < |s|
    ensures i < j <= |s|
  {
    if i + 1 < |s| && s[i + 1] != '\0' then i + 2 else i + 1
  }

  /** The end of an escape string, from behind its opening quote: a backslash takes the character behind it along. */
  function EscapeEnd(s: string, i: nat): (r: Reach)
    requires i <= |s|
    ensures i <= r.at <= |s| && (r.Closed? ==> i < r.at)
    decreases |s| - i
  {
    if i == |s| || s[i] == '\0' then Open(i)
    else if s[i] == '\\' then EscapeEnd(s, BehindBackslash(s, i))
    else if s[i] != '\'' then EscapeEnd(s, i + 1)
    else if Has(s, i + 1, '\'') then EscapeEnd(s, i + 2)
    else Closed(i + 1)
  }

  /** No quote of the escape string that goes on at i is escaped by a backslash. */
  predicate NoEscapedQuote(s: string, i: nat)
    requires i <= |s|
    decreases |s| - i
  {
    if i == |s| || s[i] == '\0' then true
    else if s[i] == '\\' then !Has(s, i + 1, '\'') && NoEscapedQuote(s, BehindBackslash(s, i))
    else if s[i] != '\'' then NoEscapedQuote(s, i + 1)
    else Has(s, i + 1, '\'') ==> NoEscapedQuote(s, i + 2)
  }

  /** Reading a run of quotes from its second quote on never gives the same end as from its first. */
  lemma {:induction false} OffByOne(s: string, i: nat)
    requires Has(s, i, '\'')
    ensures var a, b := QuoteEnd(s, i, '\''), EscapeEnd(s, i + 1); a != b && (a.Closed? || b.Closed?)
    decreases |s| - i
  {
    if Has(s, i + 1, '\'') && Has(s, i + 2, '\'') {
      OffByOne(s, i + 2);
    }
  }

  /** Scanner and manual agree on an escape string exactly when no quote in it is escaped by a backslash. */
  lemma {:induction false} EscapeAgrees(s: string, i: nat)
    requires i <= |s|
    ensures var a, b := QuoteEnd(s, i, '\''), EscapeEnd(s, i);
            (a == b <==> NoEscapedQuote(s, i)) && (a != b ==> a.Closed? || b.Closed?)
    decreases |s| - i
  {
    if i < |s| && s[i] != '\0' {
      if s[i] == '\\' {
        if Has(s, i + 1, '\'') {
          OffByOne(s, i + 1);
        } else {
          EscapeAgrees(s, BehindBackslash(s, i));
        }
      } else if s[i] != '\'' {
        EscapeAgrees(s, i + 1);
      } else if Has(s, i + 1, '\'') {
        EscapeAgrees(s, i + 2);
      }
    }
  }

  // ---- Dollar quoting ----

  /** A tag is spelled like an unquoted identifier without dollar signs, or is empty. */
  predicate IsManualTag(t: string) {
    IsTag(t) && !IsDigit(t[1])
  }

  ghost predicate IsDollarString(text: string) {
    exists tag, body :: IsManualTag(tag) && DollarParts(text, tag, body)
  }

  /** Where no parameter starts, the scanner reads exactly the manual's dollar-quoted strings. */
  lemma DollarStringIsExact(s: string, i: nat, e: nat)
    requires IsBare(s, i)
    ensures i < e <= |s| && IsDollarString(s[i..e]) <==> DollarEnd(s, i) == Closed(e)
  {
    DollarIsExact(s, i, e);
    if i < e <= |s| && IsDollarQuoted(s[i..e]) {
      var text := s[i..e];
      var tag, body :| DollarParts(text, tag, body);
      assert text[1] == tag[1] && text[1] == s[i + 1];
      assert IsManualTag(tag);
      StringBy(text, tag, body);
    }
    if i < e <= |s| && IsDollarString(s[i..e]) {
      var tag, body :| IsManualTag(tag) && DollarParts(s[i..e], tag, body);
      QuotedBy(s[i..e], tag, body);
    }
  }

  lemma StringBy(text: string, tag: string, body: string)
    requires IsManualTag(tag) && DollarParts(text, tag, body)
    ensures IsDollarString(text)
  {
  }

  // ---- Tokens ----

  /** What was read before: a lone E, an escape string (and whether a line has ended since), or something else. */
  datatype Mode = Other | LoneE | EscapeString(newline: bool)

  predicate HasNewline(s: string, i: nat, p: nat)
    requires i <= p <= |s|
  {
    exists k :: i <= k < p && s[k] == '\n'
  }

  /** A quote at p, behind a gap from i on, opens an escape string. */
  predicate Escaping(s: string, i: nat, p: nat, mode: Mode)
    requires i <= p <= |s|
  {
    match mode
    case Other => false
    case LoneE => p == i
    case EscapeString(newline) => newline || HasNewline(s, i, p)
  }

  /** The next token by the manual. */
  function ManualAt(s: string, i: nat, mode: Mode): (t: Scanned)
    requires i <= |s|
    ensures i <= t.pos <= t.end <= |s|
  {
    var p := SkipBlanks(s, i);
    if p == |s| then Scanned(p, EOF, "", p)
    else if s[p] == '-' && Has(s, p + 1, '-') then Scanned(p, LineComment, s[p..LineEnd(s, p)], LineEnd(s, p))
    else if Opens(s, p) then Delimited(s, p, BlockComment, CommentEnd(s, p + 2, 1))
    else if s[p] == '\'' then
      Delimited(s, p, String, if Escaping(s, i, p, mode) then EscapeEnd(s, p + 1) else QuoteEnd(s, p + 1, '\''))
    else if IsBare(s, p) then Delimited(s, p, String, DollarEnd(s, p))
    else if s[p] == '"' then Delimited(s, p, QuotedIdent, QuoteEnd(s, p + 1, '"'))
    else if s[p] == ';' then Scanned(p, Semicolon, "", p + 1)
    else var e := Fragment(s, p, false).0; Scanned(p, QueryFragment, s[p..e], e)
  }

  /** The mode behind a token that was found behind a gap from i on. */
  function ModeAfter(s: string, i: nat, mode: Mode, t: Scanned): Mode
    requires i <= t.pos <= t.end <= |s|
  {
    match t.tok
    case QueryFragment => if Fragment(s, t.pos, false).1 then LoneE else Other
    case String => if Has(s, t.pos, '\'') && Escaping(s, i, t.pos, mode) then EscapeString(false) else Other
    case LineComment => AcrossComment(s, i, mode, t)
    case BlockComment => AcrossComment(s, i, mode, t)
    case _ => Other
  }

  /** A comment counts as white space between the parts of an escape string. */
  function AcrossComment(s: string, i: nat, mode: Mode, t: Scanned): Mode
    requires i <= t.pos <= |s|
  {
    if mode.EscapeString? then EscapeString(mode.newline || HasNewline(s, i, t.pos)) else Other
  }

  function ManualTokens(s: string, i: nat, mode: Mode): seq<Scanned>
    requires i <= |s|
    decreases |s| - i
  {
    var t := ManualAt(s, i, mode);
    if Ends(t) then [] else [t] + ManualTokens(s, t.end, ModeAfter(s, i, mode, t))
  }

  // ---- Where they agree ----

  /**
    Nothing that the scanner reads differently stands here: no escaped quote in an escape
    string, no parameter, no dollar sign outside identifiers and parameters in a fragment.
   */
  predicate Ordinary(s: string, i: nat, mode: Mode)
    requires i <= |s|
  {
    var t := ScanAt(s, i);
    var p := t.pos;
    && (Has(s, p, '\'') && Escaping(s, i, p, mode) ==> NoEscapedQuote(s, p + 1))
    && !IsParameter(s, p)
    && (t.tok.QueryFragment? ==> NoBareDollar(s, p, t.end) && !IsParameter(s, t.end))
  }

  /** The same token, or the end for both. */
  predicate SameStep(t: Scanned, u: Scanned) {
    t == u || (Ends(t) && Ends(u))
  }

  /** A token is the manual's exactly when it is ordinary. */
  lemma TokenAgrees(s: string, i: nat, mode: Mode)
    requires i <= |s|
    ensures SameStep(ScanAt(s, i), ManualAt(s, i, mode)) <==> Ordinary(s, i, mode)
  {
    hide LineEnd, CommentEnd, QuoteEnd, DollarEnd, EscapeEnd, FragmentEnd, Fragment, NoBareDollar, NoEscapedQuote,
      Escaping, IsDelimiter;
    var p := SkipBlanks(s, i);
    if p < |s| {
      EscapeAgrees(s, p + 1);
      if s[p] == '$' {
        ParameterGoesOn(s, p);
      } else {
        FragmentAgrees(s, p);
      }
    }
  }

  lemma ParameterGoesOn(s: string, p: nat)
    requires Has(s, p, '$')
    ensures IsParameter(s, p) ==> Fragment(s, p, false).0 > p
  {
    assert IsParameter(s, p) ==> WordBehind(s, p) > p;
  }

  // ---- Whole sources ----

  /** Every token of the source is ordinary. */
  predicate Conforms(s: string, i: nat, mode: Mode)
    requires i <= |s|
    decreases |s| - i
  {
    var t := ScanAt(s, i);
    Ordinary(s, i, mode) && (!Ends(t) ==> Conforms(s, t.end, ModeAfter(s, i, mode, t)))
  }

  /** The scanner's tokens are the manual's exactly when every one of them is ordinary. */
  lemma {:induction false} TokensAreTheManuals(s: string, i: nat, mode: Mode)
    requires i <= |s|
    ensures Tokens(s, i) == ManualTokens(s, i, mode) <==> Conforms(s, i, mode)
    decreases |s| - i
  {
    hide ScanAt, ManualAt, Ordinary, ModeAfter;
    var t, u := ScanAt(s, i), ManualAt(s, i, mode);
    TokenAgrees(s, i, mode);
    if !Ends(t) {
      var mode' := ModeAfter(s, i, mode, t);
      TokensAreTheManuals(s, t.end, mode');
      if t == u {
        assert Tokens(s, i)[1..] == Tokens(s, t.end) && ManualTokens(s, i, mode)[1..] == ManualTokens(s, t.end, mode');
      } else {
        assert Tokens(s, i)[0] == t;
        assert !Ends(u) ==> ManualTokens(s, i, mode)[0] == u;
      }
    }
  }

  /**
    In a conforming source a semicolon separates queries exactly when it is outside every
    string, quoted identifier and comment of the manual.
   */
  lemma SemicolonsByTheManual(s: string, k: nat)
    requires Conforms(s, 0, Other) && k < Reached(s, 0)
    ensures var ts := ManualTokens(s, 0, Other); IsSeparator(Tokens(s, 0), k) <==> s[k] == ';' && !IsProtected(ts, k)
  {
    TokensAreTheManuals(s, 0, Other);
    SemicolonSeparatesExactlyWhen(s, k);
  }

  // ---- Sources that are seen to conform ----

  /** No backslash, and no dollar sign next to a digit. */
  predicate IsPlain(s: string) {
    '\\' !in s && forall k :: 0 <= k < |s| - 1 ==>
      !(s[k] == '$' && IsDigit(s[k + 1])) && !(IsDigit(s[k]) && s[k + 1] == '$')
  }

  lemma {:induction false} PlainHasNoEscape(s: string, i: nat)
    requires IsPlain(s) && i <= |s|
    ensures NoEscapedQuote(s, i)
    decreases |s| - i
  {
    if i < |s| && s[i] != '\0' {
      assert s[i] in s;
      if s[i] != '\'' {
        PlainHasNoEscape(s, i + 1);
      } else if Has(s, i + 1, '\'') {
        PlainHasNoEscape(s, i + 2);
      }
    }
  }

  lemma PlainHasNoParameter(s: string, i: nat)
    requires IsPlain(s)
    ensures !IsParameter(s, i)
  {
  }

  /** Behind a word, a number or another character of a fragment, no dollar sign is left over. */
  lemma NoDollarBehind(s: string, p: nat, e: nat, i: nat)
    requires IsPlain(s) && IsFragment(s, p, e) && p <= i < e && s[i] != '$'
    ensures WordBehind(s, i) < e ==> s[WordBehind(s, i)] != '$'
  {
    var j := WordBehind(s, i);
    PlainHasNoParameter(s, i);
    if j < e && s[j] == '$' {
      assert !Stops(s, j);
      if IsLetter(s[i]) {
        WordEnds(s, i);
      } else if IsDigit(s[i]) {
        NumberRuns(s, i);
      }
    }
  }

  lemma {:induction false} WordEnds(s: string, i: nat)
    requires i <= |s|
    ensures WordEnd(s, i) == |s| || s[WordEnd(s, i)] != '$'
    decreases |s| - i
  {
    if i < |s| && (IsIdentChar(s[i]) || s[i] == '$') {
      WordEnds(s, i + 1);
    }
  }

  lemma {:induction false} PlainHasNoBareDollar(s: string, p: nat, e: nat, i: nat)
    requires IsPlain(s) && IsFragment(s, p, e) && p <= i <= |s| && (i < e ==> s[i] != '$')
    ensures NoBareDollar(s, i, e)
    decreases |s| - i
  {
    if i < e {
      NoDollarBehind(s, p, e, i);
      PlainHasNoBareDollar(s, p, e, WordBehind(s, i));
    }
  }

  /** The tokens of a plain source are the manual's. */
  lemma {:induction false} PlainConforms(s: string, i: nat, mode: Mode)
    requires IsPlain(s) && i <= |s|
    ensures Conforms(s, i, mode)
    decreases |s| - i
  {
    hide IsPlain, NoBareDollar, NoEscapedQuote, Escaping, ModeAfter, FragmentEnd, IsFragment;
    var t := ScanAt(s, i);
    var p := t.pos;
    PlainHasNoParameter(s, p);
    PlainHasNoParameter(s, t.end);
    if Has(s, p, '\'') {
      PlainHasNoEscape(s, p + 1);
    }
    if t.tok.QueryFragment? {
      FragmentStops(s, p);
      PlainHasNoBareDollar(s, p, t.end, p);
    }
    if !Ends(t) {
      PlainConforms(s, t.end, ModeAfter(s, i, mode, t));
    }
  }

  // ---- Examples of sources that do not conform ----

  /** A tag that starts with a digit: for the manual, a parameter. */
  lemma DigitTag(s: string)
    requires s == "$1$a$1$"
    ensures ScanAt(s, 0) == Scanned(0, String, s, 7) && ManualAt(s, 0, Other).tok == QueryFragment
    ensures !Conforms(s, 0, Other)
  {
    assert TagEnd(s, 2) == Closed(3);
    assert s[0..3] == "$1$" && s[4..7] == "$1$";
    assert !StandsAt(s, 3, "$1$") by { assert s[3..6][0] == 'a'; }
    assert Find(s, 4, "$1$") == Some(4);
    assert Find(s, 3, "$1$") == Some(4);
    assert s[0..7] == s;
  }

  /** A dollar quote directly behind a number: the scanner finds a separator inside the string. */
  lemma NumberBeforeDollar(s: string)
    requires s == "1$$;$$"
    ensures ScanAt(s, 0) == Scanned(0, QueryFragment, "1$$", 3) && ScanAt(s, 3) == Scanned(3, Semicolon, "", 4)
    ensures ManualAt(s, 0, Other) == Scanned(0, QueryFragment, "1", 1)
    ensures ManualAt(s, 1, ModeAfter(s, 0, Other, ManualAt(s, 0, Other))) == Scanned(1, String, "$$;$$", 6)
    ensures !Conforms(s, 0, Other)
  {
    assert IsFragment(s, 0, 3);
    FragmentIsExact(s, 0, 3);
    assert s[0..3] == "1$$" && s[0..1] == "1" && s[1..6] == "$$;$$";
    assert DigitsEnd(s, 1) == 1 && NumberEnd(s, 0) == 1;
    assert Fragment(s, 1, false) == (1, false);
    assert Fragment(s, 0, false) == (1, false);
    assert TagEnd(s, 2) == Closed(3) && s[1..3] == "$$" && s[4..6] == "$$";
    assert IsBare(s, 1) && WordBehind(s, 0) == 1 && !NoBareDollar(s, 0, 3);
    assert !StandsAt(s, 3, "$$") by { assert s[3..5][0] == ';'; }
    assert Find(s, 4, "$$") == Some(4);
    assert Find(s, 3, "$$") == Some(4);
  }

  /** An escaped quote: the scanner finds a separator inside the string. */
  lemma EscapedQuote(s: string)
    requires s == "E'\\';'"
    ensures ScanAt(s, 0) == Scanned(0, QueryFragment, "E", 1) && ScanAt(s, 1) == Scanned(1, String, "'\\'", 4)
    ensures ScanAt(s, 4) == Scanned(4, Semicolon, "", 5)
    ensures ManualAt(s, 0, Other) == Scanned(0, QueryFragment, "E", 1)
    ensures ModeAfter(s, 0, Other, ManualAt(s, 0, Other)) == LoneE
    ensures ManualAt(s, 1, LoneE) == Scanned(1, String, "'\\';'", 6)
    ensures !Conforms(s, 0, Other)
  {
    assert FragmentEnd(s, 1) == 1 && FragmentEnd(s, 0) == 1;
    assert WordEnd(s, 1) == 1 && WordEnd(s, 0) == 1;
    assert Fragment(s, 1, true) == (1, true);
    assert Fragment(s, 0, false) == (1, true);
    assert s[0..1] == "E" && s[1..4] == "'\\'" && s[1..6] == "'\\';'";
    assert QuoteEnd(s, 3, '\'') == Closed(4);
    assert QuoteEnd(s, 2, '\'') == Closed(4);
    assert EscapeEnd(s, 5) == Closed(6);
    assert EscapeEnd(s, 4) == Closed(6);
    assert EscapeEnd(s, 2) == Closed(6);
    assert !NoEscapedQuote(s, 2);
  }
}
