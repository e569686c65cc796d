/**
  The tokens of a query file, as functions from a position in the source to the token read
  there and the position after it. Characters are bytes: the source is ASCII.
 */
module PgTokens {
  import opened Text

  datatype Token = Illegal | EOF | LineComment | BlockComment | String | QuotedIdent | QueryFragment | Semicolon

  /** A token of src[pos..end] and the literal reported for it. */
  datatype Scanned = Scanned(pos: nat, tok: Token, lit: string, end: nat)

  /** How far a delimited token was read, and whether its end was found. */
  datatype Reach = Closed(at: nat) | Open(at: nat)

  predicate IsBlank(c: char) {
    c == ' ' || c == '\t' || c == '\n' || c == '\r'
  }

  /** The source holds c at i. */
  predicate Has(s: string, i: nat, c: char) {
    i < |s| && s[i] == c
  }

  function SkipBlanks(s: string, i: nat): (j: nat)
    requires i <= |s|
    ensures i <= j <= |s|
    decreases |s| - i
  {
    if i < |s| && IsBlank(s[i]) then SkipBlanks(s, i + 1) else i
  }

  function LineEnd(s: string, i: nat): (j: nat)
    requires i <= |s|
    ensures i <= j <= |s|
    decreases |s| - i
  {
    if i < |s| && s[i] != '\n' then LineEnd(s, i + 1) else i
  }

  predicate Opens(s: string, i: nat) {
    Has(s, i, '/') && Has(s, i + 1, '*')
  }

  predicate Closes(s: string, i: nat) {
    Has(s, i, '*') && Has(s, i + 1, '/')
  }

  /** The end of a block comment entered depth levels deep. */
  function CommentEnd(s: string, i: nat, depth: nat): (r: Reach)
    requires i <= |s|
    ensures i <= r.at <= |s|
    decreases |s| - i
  {
    if depth == 0 then Closed(i)
    else if i == |s| then Open(i)
    else if Closes(s, i) then CommentEnd(s, i + 2, depth - 1)
    else if Opens(s, i) then CommentEnd(s, i + 2, depth + 1)
    else CommentEnd(s, i + 1, depth)
  }

  /** The end of a token quoted with q, from behind its opening quote; a doubled q stands for itself. */
  function QuoteEnd(s: string, i: nat, q: char): (r: Reach)
    requires i <= |s|
    ensures i <= r.at <= |s| && (r.Closed? ==> i < r.at)
    decreases |s| - i
  {
    if i == |s| || s[i] == '\0' then Open(i)
    else if s[i] != q then QuoteEnd(s, i + 1, q)
    else if Has(s, i + 1, q) then QuoteEnd(s, i + 2, q)
    else Closed(i + 1)
  }

  /** The end of an opening dollar tag, from behind its first dollar sign. */
  function TagEnd(s: string, i: nat): (r: Reach)
    requires i <= |s|
    ensures i <= r.at <= |s| && (r.Closed? ==> i < r.at)
    decreases |s| - i
  {
    if i == |s| then Open(i)
    else if s[i] == '$' then Closed(i + 1)
    else if IsIdentChar(s[i]) then TagEnd(s, i + 1)
    else Open(i)
  }

  /** The text stands at position i. */
  predicate StandsAt(s: string, i: nat, text: string) {
    i + |text| <= |s| && s[i..i + |text|] == text
  }

  /** The first position from i on where the text stands. */
  function Find(s: string, i: nat, text: string): (r: Option<nat>)
    requires i <= |s|
    ensures r.Some? ==> i <= r.value && StandsAt(s, r.value, text)
    decreases |s| - i
  {
    if StandsAt(s, i, text) then Some(i) else if i == |s| then None else Find(s, i + 1, text)
  }

  /** The end of the dollar-quoted string that starts at i. */
  function DollarEnd(s: string, i: nat): (r: Reach)
    requires i < |s|
    ensures i < r.at <= |s|
  {
    match TagEnd(s, i + 1)
    case Open(e) => Open(e)
    case Closed(e) =>
      var tag := s[i..e];
      match Find(s, e, tag)
      case None => Open(e)
      case Some(k) => Closed(k + |tag|)
  }

  function WordEnd(s: string, i: nat): (j: nat)
    requires i <= |s|
    ensures i <= j <= |s|
    decreases |s| - i
  {
    if i < |s| && (IsIdentChar(s[i]) || s[i] == '$') then WordEnd(s, i + 1) else i
  }

  predicate IsDelimiter(s: string, i: nat)
    requires i < |s|
  {
    || s[i] == ';' || s[i] == '\'' || s[i] == '"'
    || (s[i] == '-' && Has(s, i + 1, '-')) || Opens(s, i)
  }

  predicate FollowsWord(s: string, i: nat)
    requires i <= |s|
  {
    i > 0 && IsIdentChar(s[i - 1])
  }

  function FragmentEnd(s: string, i: nat): (j: nat)
    requires i <= |s|
    ensures i <= j <= |s|
    decreases |s| - i
  {
    if i == |s| || s[i] == '\0' || IsDelimiter(s, i) then i
    else if s[i] != '$' then FragmentEnd(s, i + 1)
    else if !FollowsWord(s, i) then i
    else assert WordEnd(s, i) > i; FragmentEnd(s, WordEnd(s, i))
  }

  function Delimited(s: string, pos: nat, tok: Token, r: Reach): Scanned
    requires pos <= r.at <= |s|
  {
    if r.Closed? then Scanned(pos, tok, s[pos..r.at], r.at) else Scanned(pos, Illegal, "", r.at)
  }

  /** The token that starts at i, which is not a blank. */
  function TokenAt(s: string, i: nat): (t: Scanned)
    requires i <= |s|
    ensures t.pos == i <= t.end <= |s|
    ensures t.tok.LineComment? ==> t.pos < t.end
  {
    if i == |s| then Scanned(i, EOF, "", i)
    else if s[i] == '-' && Has(s, i + 1, '-') then Scanned(i, LineComment, s[i..LineEnd(s, i)], LineEnd(s, i))
    else if Opens(s, i) then Delimited(s, i, BlockComment, CommentEnd(s, i + 2, 1))
    else if s[i] == '\'' then Delimited(s, i, String, QuoteEnd(s, i + 1, '\''))
    else if s[i] == '$' then Delimited(s, i, String, DollarEnd(s, i))
    else if s[i] == '"' then Delimited(s, i, QuotedIdent, QuoteEnd(s, i + 1, '"'))
    else if s[i] == ';' then Scanned(i, Semicolon, "", i + 1)
    else Scanned(i, QueryFragment, s[i..FragmentEnd(s, i)], FragmentEnd(s, i))
  }

  /** The next token at or behind i. */
  function ScanAt(s: string, i: nat): (t: Scanned)
    requires i <= |s|
    ensures i <= t.pos <= t.end <= |s|
    ensures t.tok.LineComment? ==> t.pos < t.end
  {
    TokenAt(s, SkipBlanks(s, i))
  }
}
