/**
  The lexical structure that the ClickHouse rewrites see: comments, quoted text, and
  everything else, character by character. A text and its list of lexemes determine each
  other: lexing is a bijection onto the lists whose neighbours fit.
 */
module ChLex {
  import opened Text

  datatype Kind = Comment | Literal | Char | Hole | Unclosed

  datatype Lexeme = Lexeme(kind: Kind, text: string)

  /** The position after the quote that closes a literal, from j on; a backslash hides the next character. */
  function QuoteEnd(s: string, j: nat, quote: char): (e: Option<nat>)
    ensures e.Some? ==> j < e.value <= |s|
    decreases |s| - j
  {
    if j >= |s| then None
    else if s[j] == '\\' then QuoteEnd(s, j + 2, quote)
    else if s[j] == quote then Some(j + 1)
    else QuoteEnd(s, j + 1, quote)
  }

  /** The position after the end of a block comment, from j on. */
  function BlockEnd(s: string, j: nat): (e: Option<nat>)
    ensures e.Some? ==> j + 2 <= e.value <= |s|
    decreases |s| - j
  {
    if j + 1 >= |s| then None
    else if s[j] == '*' && s[j + 1] == '/' then Some(j + 2)
    else BlockEnd(s, j + 1)
  }

  /** The position of the first newline, from j on. */
  function LineEnd(s: string, j: nat): (e: Option<nat>)
    ensures e.Some? ==> j <= e.value < |s|
    decreases |s| - j
  {
    if j >= |s| then None
    else if s[j] == '\n' then Some(j)
    else LineEnd(s, j + 1)
  }

  /** The position after the first closing brace, from j on. */
  function BraceEnd(s: string, j: nat): (e: Option<nat>)
    ensures e.Some? ==> j < e.value <= |s|
    decreases |s| - j
  {
    if j >= |s| then None
    else if s[j] == '}' then Some(j + 1)
    else BraceEnd(s, j + 1)
  }

  predicate IsQuote(c: char) {
    c == '\'' || c == '`' || c == '"'
  }

  predicate StartsLine(s: string) {
    |s| >= 2 && s[0] == '-' && s[1] == '-'
  }

  predicate StartsBlock(s: string) {
    |s| >= 2 && s[0] == '/' && s[1] == '*'
  }

  function OrEnd(e: Option<nat>, s: string): nat {
    if e.Some? then e.value else |s|
  }

  /** The length of the comment that s starts with, or 0. */
  function CommentLength(s: string): nat {
    if StartsLine(s) then OrEnd(LineEnd(s, 2), s)
    else if StartsBlock(s) then OrEnd(BlockEnd(s, 2), s)
    else 0
  }

  /** The length of the quoted text that s starts with, or 0. */
  function LiteralLength(s: string): nat {
    if s != "" && IsQuote(s[0]) then OrEnd(QuoteEnd(s, 1, s[0]), s) else 0
  }

  /** The first lexeme of s. Braces delimit a hole only where holes are looked for. */
  function First(s: string, holes: bool): (l: Lexeme)
    requires s != ""
    ensures 0 < |l.text| <= |s| && l.text == s[..|l.text|]
  {
    if CommentLength(s) > 0 then Lexeme(Comment, s[..CommentLength(s)])
    else if LiteralLength(s) > 0 then Lexeme(Literal, s[..LiteralLength(s)])
    else if holes && s[0] == '{' then
      match BraceEnd(s, 0)
      case Some(e) => Lexeme(Hole, s[..e])
      case None => Lexeme(Unclosed, s[..|s|])
    else Lexeme(Char, s[..1])
  }

  function Lex(s: string, holes: bool): seq<Lexeme> {
    if s == "" then [] else
    var l := First(s, holes);
    [l] + Lex(s[|l.text|..], holes)
  }

  function Flatten(ls: seq<Lexeme>): string {
    if ls == [] then "" else ls[0].text + Flatten(ls[1..])
  }

  // ---- Skipping, as the scanners do it ----

  method SkipLiteral(sql: string, i: nat) returns (next: nat)
    requires i < |sql|
    ensures next == i + LiteralLength(sql[i..])
  {
    ghost var s := sql[i..];
    var quote := sql[i];
    if quote != '\'' && quote != '`' && quote != '"' {
      return i;
    }
    var j := i + 1;
    while j < |sql|
      invariant i + 1 <= j && QuoteEnd(s, j - i, quote) == QuoteEnd(s, 1, quote)
    {
      if sql[j] == '\\' {
        j := j + 2;
        continue;
      }
      if sql[j] == quote {
        return j + 1;
      }
      j := j + 1;
    }
    return |sql|;
  }

  method SkipComment(sql: string, i: nat) returns (next: nat)
    requires i < |sql|
    ensures next == i + CommentLength(sql[i..])
  {
    ghost var s := sql[i..];
    if sql[i] == '-' && i + 1 < |sql| && sql[i + 1] == '-' {
      var j := i + 2;
      while j < |sql|
        invariant i + 2 <= j <= |sql| && LineEnd(s, j - i) == LineEnd(s, 2)
      {
        if sql[j] == '\n' {
          return j;
        }
        j := j + 1;
      }
      return |sql|;
    } else if sql[i] == '/' && i + 1 < |sql| && sql[i + 1] == '*' {
      var j := i + 2;
      while j + 1 < |sql|
        invariant i + 2 <= j <= |sql| && BlockEnd(s, j - i) == BlockEnd(s, 2)
      {
        if sql[j] == '*' && sql[j + 1] == '/' {
          return j + 2;
        }
        j := j + 1;
      }
      return |sql|;
    }
    return i;
  }

  // ---- A lexeme depends on what follows it only through the next character ----

  lemma {:induction false} QuoteEndLocal(u: string, r: string, j: nat, q: char)
    requires QuoteEnd(u, j, q).Some?
    ensures QuoteEnd(u + r, j, q) == QuoteEnd(u, j, q)
    decreases |u| - j
  {
    if u[j] == '\\' {
      QuoteEndLocal(u, r, j + 2, q);
    } else if u[j] != q {
      QuoteEndLocal(u, r, j + 1, q);
    }
  }

  /** A literal that closes within a prefix closes there. */
  lemma {:induction false} QuoteEndPrefix(u: string, r: string, j: nat, q: char)
    requires QuoteEnd(u + r, j, q).Some? && QuoteEnd(u + r, j, q).value <= |u|
    ensures QuoteEnd(u, j, q) == QuoteEnd(u + r, j, q)
    decreases |u| - j
  {
    if (u + r)[j] == '\\' {
      QuoteEndPrefix(u, r, j + 2, q);
    } else if (u + r)[j] != q {
      QuoteEndPrefix(u, r, j + 1, q);
    }
  }

  lemma {:induction false} BlockEndLocal(u: string, r: string, j: nat)
    ensures BlockEnd(u, j).Some? ==> BlockEnd(u + r, j) == BlockEnd(u, j)
    ensures BlockEnd(u + r, j).Some? && BlockEnd(u + r, j).value <= |u| ==> BlockEnd(u, j) == BlockEnd(u + r, j)
    decreases |u| - j
  {
    if j + 1 < |u| && !(u[j] == '*' && u[j + 1] == '/') {
      BlockEndLocal(u, r, j + 1);
    }
  }

  lemma {:induction false} BraceEndLocal(u: string, r: string, j: nat)
    ensures BraceEnd(u, j).Some? ==> BraceEnd(u + r, j) == BraceEnd(u, j)
    ensures BraceEnd(u + r, j).Some? && BraceEnd(u + r, j).value <= |u| ==> BraceEnd(u, j) == BraceEnd(u + r, j)
    decreases |u| - j
  {
    if j < |u| && u[j] != '}' {
      BraceEndLocal(u, r, j + 1);
    }
  }

  lemma {:induction false} LineEndLocal(u: string, r: string, j: nat)
    requires j <= |u|
    ensures LineEnd(u + r, j) == (if LineEnd(u, j).Some? then LineEnd(u, j) else
              if r == "" then None else LineEnd(u + r, |u|))
    decreases |u| - j
  {
    if j < |u| && u[j] != '\n' {
      LineEndLocal(u, r, j + 1);
    } else if r == "" {
      assert u + r == u;
    }
  }

  predicate ClosedQuote(text: string) {
    text != "" && IsQuote(text[0]) && QuoteEnd(text, 1, text[0]) == Some(|text|)
  }

  predicate ClosedBlock(text: string) {
    StartsBlock(text) && BlockEnd(text, 2) == Some(|text|)
  }

  /** The lexeme stays itself in front of r. */
  predicate Fits(l: Lexeme, r: string) {
    r == "" || match l.kind
      case Char => !(l.text == "-" && r[0] == '-') && !(l.text == "/" && r[0] == '*')
      case Comment => if StartsLine(l.text) then r[0] == '\n' else ClosedBlock(l.text)
      case Literal => ClosedQuote(l.text)
      case Hole => true
      case Unclosed => false
  }

  /** The lexeme is what its own text lexes to. */
  predicate Valid(l: Lexeme, holes: bool) {
    l.text != "" && First(l.text, holes) == l
  }

  lemma CommentLocal(u: string, r: string)
    requires u != "" && r != ""
    ensures CommentLength(u + r) == |u| <==>
      CommentLength(u) == |u| && Fits(Lexeme(Comment, u), r)
    ensures |u| >= 2 ==> (CommentLength(u + r) == 0 <==> CommentLength(u) == 0)
  {
    var s := u + r;
    if |u| == 1 {
      assert CommentLength(u) == 0;
    } else {
      assert s[0] == u[0] && s[1] == u[1];
      LineEndLocal(u, r, 2);
      BlockEndLocal(u, r, 2);
      assert s[|u|] == r[0];
    }
  }

  lemma LiteralLocal(u: string, r: string)
    requires u != "" && r != ""
    ensures LiteralLength(u + r) == |u| <==> LiteralLength(u) == |u| && ClosedQuote(u)
    ensures LiteralLength(u + r) == 0 <==> LiteralLength(u) == 0
  {
    var s := u + r;
    assert s[0] == u[0];
    if IsQuote(u[0]) {
      if QuoteEnd(u, 1, u[0]).Some? {
        QuoteEndLocal(u, r, 1, u[0]);
      } else if QuoteEnd(s, 1, u[0]).Some? && QuoteEnd(s, 1, u[0]).value <= |u| {
        QuoteEndPrefix(u, r, 1, u[0]);
      }
    }
  }

  /** The first lexeme of a text is decided by the lexeme itself and by whether it fits what follows. */
  lemma FirstLocal(l: Lexeme, r: string, holes: bool)
    requires l.text != ""
    ensures First(l.text + r, holes) == l <==> Valid(l, holes) && Fits(l, r)
  {
    var u, s := l.text, l.text + r;
    assert s[..|u|] == u && s[0] == u[0];
    if r == "" {
      assert s == u;
    } else {
      FirstLocalBefore(l, r, holes);
    }
  }

  lemma FirstLocalBefore(l: Lexeme, r: string, holes: bool)
    requires l.text != "" && r != ""
    ensures First(l.text + r, holes) == l <==> Valid(l, holes) && Fits(l, r)
  {
    hide QuoteEnd, BlockEnd, LineEnd, BraceEnd;
    var u, s := l.text, l.text + r;
    assert s[..|u|] == u && s[0] == u[0] && u[..|u|] == u && s[|u|] == r[0];
    CommentLocal(u, r);
    LiteralLocal(u, r);
    BraceEndLocal(u, r, 0);
    match l.kind
    case Comment => assert First(s, holes) == l <==> CommentLength(s) == |u|;
    case Literal =>
      assert Valid(l, holes) ==> IsQuote(u[0]);
    case Hole =>
      assert Valid(l, holes) ==> u[0] == '{';
    case Unclosed =>
    case Char =>
      CharLocal(l, r, holes);
  }

  lemma CharLocal(l: Lexeme, r: string, holes: bool)
    requires l.kind == Char && l.text != "" && r != ""
    ensures First(l.text + r, holes) == l <==> Valid(l, holes) && Fits(l, r)
  {
    hide QuoteEnd, BlockEnd, LineEnd, BraceEnd;
    var u, s := l.text, l.text + r;
    assert s[..|u|] == u && s[0] == u[0] && u[..|u|] == u && s[|u|] == r[0];
    LiteralLocal(u, r);
    if |u| == 1 {
      assert s[1] == r[0];
      assert u == "-" <==> u[0] == '-';
      assert u == "/" <==> u[0] == '/';
    }
  }

  // ---- Lexing is a bijection ----

  /** Every lexeme is valid and fits the text of those behind it. */
  ghost predicate Canonical(ls: seq<Lexeme>, holes: bool) {
    ls != [] ==> Valid(ls[0], holes) && Fits(ls[0], Flatten(ls[1..])) && Canonical(ls[1..], holes)
  }

  lemma {:induction false} LexIsCanonical(s: string, holes: bool)
    ensures Canonical(Lex(s, holes), holes) && Flatten(Lex(s, holes)) == s
  {
    hide First, Fits;
    if s != "" {
      var l := First(s, holes);
      var r := s[|l.text|..];
      assert s == l.text + r;
      LexIsCanonical(r, holes);
      FirstLocal(l, r, holes);
      assert Lex(s, holes)[1..] == Lex(r, holes);
    }
  }

  lemma {:induction false} LexUndoesFlatten(ls: seq<Lexeme>, holes: bool)
    requires Canonical(ls, holes)
    ensures Lex(Flatten(ls), holes) == ls
  {
    hide First, Fits;
    if ls != [] {
      var l, r := ls[0], Flatten(ls[1..]);
      FirstLocal(l, r, holes);
      assert Flatten(ls) == l.text + r && Flatten(ls)[|l.text|..] == r;
      LexUndoesFlatten(ls[1..], holes);
      assert ls == [l] + ls[1..];
    }
  }

  // ---- Joining lists ----

  lemma {:induction false} FlattenConcat(p: seq<Lexeme>, q: seq<Lexeme>)
    ensures Flatten(p + q) == Flatten(p) + Flatten(q)
  {
    if p == [] {
      assert p + q == q && "" + Flatten(q) == Flatten(q);
    } else {
      FlattenConcat(p[1..], q);
      assert (p + q)[1..] == p[1..] + q && (p + q)[0] == p[0];
      assert Flatten(p + q) == p[0].text + (Flatten(p[1..]) + Flatten(q));
    }
  }

  /** Only the first character of what follows matters. */
  lemma FitsHead(l: Lexeme, r: string, r': string)
    requires r != "" && r' != "" && r[0] == r'[0]
    ensures Fits(l, r) <==> Fits(l, r')
  {
    hide ClosedQuote, ClosedBlock;
  }

  lemma FlattenHead(ls: seq<Lexeme>, holes: bool)
    requires ls != [] && Valid(ls[0], holes)
    ensures Flatten(ls) != "" && Flatten(ls)[0] == ls[0].text[0]
  {
  }

  function Last(ls: seq<Lexeme>): Lexeme
    requires ls != []
  {
    ls[|ls| - 1]
  }

  /** Lists whose seam fits can be joined. */
  lemma {:induction false} CanonicalConcat(p: seq<Lexeme>, q: seq<Lexeme>, holes: bool)
    requires Canonical(p, holes) && Canonical(q, holes) && (p == [] || Fits(Last(p), Flatten(q)))
    ensures Canonical(p + q, holes)
  {
    hide Fits, Valid, First;
    if p == [] {
      assert p + q == q;
    } else {
      assert (p + q)[1..] == p[1..] + q;
      CanonicalConcat(p[1..], q, holes);
      FlattenConcat(p[1..], q);
      if |p| == 1 {
        assert p[1..] + q == q;
      } else {
        FlattenHead(p[1..], holes);
        FitsHead(p[0], Flatten(p[1..]), Flatten(p[1..] + q));
      }
    }
  }

  /** And a joined list has a seam that fits. */
  lemma {:induction false} CanonicalSplit(p: seq<Lexeme>, q: seq<Lexeme>, holes: bool)
    requires Canonical(p + q, holes)
    ensures Canonical(p, holes) && Canonical(q, holes) && (p == [] || Fits(Last(p), Flatten(q)))
  {
    hide Fits, Valid, First;
    if p == [] {
      assert p + q == q;
    } else {
      assert (p + q)[1..] == p[1..] + q;
      CanonicalSplit(p[1..], q, holes);
      FlattenConcat(p[1..], q);
      if |p| == 1 {
        assert p[1..] + q == q;
        FitsEnd(p[0]);
      } else {
        FlattenHead(p[1..], holes);
        FitsHead(p[0], Flatten(p[1..]), Flatten(p[1..] + q));
      }
    }
  }

  lemma FitsEnd(l: Lexeme)
    ensures Fits(l, "")
  {
  }
}
