/** The scanner of query files, as it moves over the source. */
module PgScanner {
  import opened Text
  import opened PgTokens

  class Scanner {
    const src: string
    /** The current character; None at the end of the source. */
    var ch: Option<char>
    var offset: nat
    var rdOffset: nat
    var prevCh: Option<char>

    ghost predicate Valid()
      reads this
    {
      && offset <= |src|
      && ch == (if offset < |src| then Some(src[offset]) else None)
      && rdOffset == (if offset < |src| then offset + 1 else offset)
      && (offset < |src| ==> prevCh == Some(if offset > 0 then src[offset - 1] else ' '))
    }

    constructor (src: string)
      ensures Valid() && this.src == src && offset == 0
    {
      this.src := src;
      ch, offset, rdOffset, prevCh := Some(' '), 0, 0, None;
      new;
      Next();
    }

    /** Read the next character; at the end of the source, stay there. */
    method Next()
      requires Valid() || (ch == Some(' ') && offset == rdOffset == 0)
      modifies this
      ensures Valid()
      ensures offset == old(rdOffset)
    {
      if rdOffset < |src| {
        offset := rdOffset;
        var r := src[rdOffset];
        rdOffset := rdOffset + 1;
        prevCh := ch;
        ch := Some(r);
      } else {
        offset := |src|;
        prevCh := ch;
        ch := None;
      }
    }

    /** The character behind the current one, or NUL. */
    function Peek(): (c: char)
      requires Valid()
      reads this
      ensures c == if offset + 1 < |src| then src[offset + 1] else '\0'
    {
      if rdOffset < |src| then src[rdOffset] else '\0'
    }

    method SkipWhitespace()
      requires Valid()
      modifies this
      ensures Valid() && offset == SkipBlanks(src, old(offset))
    {
      while ch.Some? && IsBlank(ch.value)
        invariant Valid() && SkipBlanks(src, offset) == SkipBlanks(src, old(offset))
        decreases |src| - offset
      {
        Next();
      }
    }

    method ScanLineComment() returns (lit: string)
      requires Valid()
      modifies this
      ensures Valid() && offset == LineEnd(src, old(offset)) && lit == src[old(offset)..offset]
    {
      var offs := offset;
      while ch != Some('\n') && ch.Some?
        invariant Valid() && offs <= offset && LineEnd(src, offset) == LineEnd(src, offs)
        decreases |src| - offset
      {
        Next();
      }
      return src[offs..offset];
    }

    method ScanBlockComment() returns (tok: Token, lit: string)
      requires Valid() && Opens(src, offset)
      modifies this
      ensures Valid()
      ensures Delimited(src, old(offset), BlockComment, CommentEnd(src, old(offset) + 2, 1)) ==
              Scanned(old(offset), tok, lit, offset)
    {
      var offs := offset;
      Next();
      Next();
      var depth := 1;
      while depth > 0
        invariant Valid() && offs < offset && depth >= 0
        invariant CommentEnd(src, offset, depth) == CommentEnd(src, offs + 2, 1)
        decreases |src| - offset, depth
      {
        if ch.None? {
          return Illegal, "";
        }
        if ch == Some('*') && Peek() == '/' {
          Next();
          Next();
          depth := depth - 1;
          continue;
        }
        if ch == Some('/') && Peek() == '*' {
          Next();
          Next();
          depth := depth + 1;
          continue;
        }
        Next();
      }
      return BlockComment, src[offs..offset];
    }

    /** A string constant or a quoted identifier. */
    method ScanQuoted(q: char, kind: Token) returns (tok: Token, lit: string)
      requires Valid() && offset < |src| && q != '\0'
      modifies this
      ensures Valid()
      ensures Delimited(src, old(offset), kind, QuoteEnd(src, old(offset) + 1, q)) ==
              Scanned(old(offset), tok, lit, offset)
    {
      var offs := offset;
      Next();
      while ch.Some? && ch.value != '\0'
        invariant Valid() && offs < offset
        invariant QuoteEnd(src, offset, q) == QuoteEnd(src, offs + 1, q)
        decreases |src| - offset
      {
        if ch == Some(q) {
          if Peek() == q {
            Next();
            Next();
            continue;
          } else {
            Next();
            return kind, src[offs..offset];
          }
        }
        Next();
      }
      return Illegal, "";
    }

    method ScanDollarQuoteString() returns (tok: Token, lit: string)
      requires Valid() && offset < |src|
      modifies this
      ensures Valid()
      ensures Delimited(src, old(offset), String, DollarEnd(src, old(offset))) ==
              Scanned(old(offset), tok, lit, offset)
    {
      var offs := offset;
      Next();
      while ch != Some('$')
        invariant Valid() && offs < offset && TagEnd(src, offset) == TagEnd(src, offs + 1)
        decreases |src| - offset
      {
        if ch.None? {
          return Illegal, "";
        }
        if !IsIdentChar(ch.value) {
          return Illegal, "";
        }
        Next();
      }
      Next();
      var tag := src[offs..offset];
      var found := Find(src, offset, tag);
      if found.None? {
        return Illegal, "";
      }
      var start, idx := offset, found.value - offset;
      for i := 0 to idx
        invariant Valid() && offset == start + i
      {
        Next();
      }
      for i := 0 to |tag|
        invariant Valid() && offset == start + idx + i
      {
        Next();
      }
      return String, src[offs..offset];
    }

    method ScanQueryFragment() returns (tok: Token, lit: string)
      requires Valid()
      modifies this
      ensures Valid() && offset == FragmentEnd(src, old(offset))
      ensures tok == QueryFragment && lit == src[old(offset)..offset]
    {
      var offs := offset;
      while ch.Some? && ch.value != '\0'
        invariant Valid() && offs <= offset && FragmentEnd(src, offset) == FragmentEnd(src, offs)
        decreases |src| - offset
      {
        if ch == Some(';') {
          return QueryFragment, src[offs..offset];
        } else if ch == Some('-') && Peek() == '-' {
          return QueryFragment, src[offs..offset];
        } else if ch == Some('/') && Peek() == '*' {
          return QueryFragment, src[offs..offset];
        } else if ch == Some('\'') || ch == Some('"') {
          return QueryFragment, src[offs..offset];
        } else if ch == Some('$') {
          if prevCh.Some? && IsIdentChar(prevCh.value) {
            ghost var dollar := offset;
            while ch.Some? && (IsIdentChar(ch.value) || ch.value == '$')
              invariant Valid() && dollar <= offset && WordEnd(src, offset) == WordEnd(src, dollar)
              decreases |src| - offset
            {
              Next();
            }
            continue;
          } else {
            return QueryFragment, src[offs..offset];
          }
        }
        Next();
      }
      return QueryFragment, src[offs..offset];
    }

    /** The next token; positions in a file count from one. */
    method Scan() returns (pos: nat, tok: Token, lit: string)
      requires Valid()
      modifies this
      ensures Valid() && pos > 0
      ensures ScanAt(src, old(offset)) == Scanned(pos - 1, tok, lit, offset)
    {
      lit := "";
      SkipWhitespace();
      pos := offset + 1;
      match ch
      case None =>
        tok := EOF;
      case Some(c) =>
        if c == '-' {
          if Peek() == '-' {
            tok := LineComment;
            lit := ScanLineComment();
          } else {
            tok, lit := ScanQueryFragment();
          }
        } else if c == '/' {
          if Peek() == '*' {
            tok, lit := ScanBlockComment();
          } else {
            tok, lit := ScanQueryFragment();
          }
        } else if c == '\'' {
          tok, lit := ScanQuoted('\'', String);
        } else if c == '$' {
          tok, lit := ScanDollarQuoteString();
        } else if c == '"' {
          tok, lit := ScanQuoted('"', QuotedIdent);
        } else if c == ';' {
          Next();
          tok := Semicolon;
        } else {
          tok, lit := ScanQueryFragment();
        }
    }
  }
}
