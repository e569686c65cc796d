/** The parser of query files, as it moves from token to token. */
module PgParser {
  import opened Text
  import opened PgTokens
  import opened PgScanner
  import opened PgTokenRun
  import opened PgArgs
  import opened PgPrepare

  /** A query of the source; start and semi are positions of its file, which count from one. */
  datatype Query =
    | BadQuery(from: nat, to: nat)
    | SourceQuery(start: nat, sourceSQL: string, preparedSQL: string, paramNames: seq<string>, semi: nat)

  class Parser {
    const src: string
    const scanner: Scanner
    const placeholder: Placeholder
    var pos: nat
    var tok: Token
    var lit: string

    ghost predicate Ready()
      reads this, scanner
    {
      scanner.Valid() && scanner.src == src && NulFree(src)
    }

    ghost predicate Valid()
      reads this, scanner
    {
      Ready() && pos > 0 && IsToken(src, Current())
    }

    /** The current token. */
    ghost function Current(): Scanned
      requires pos > 0
      reads this, scanner
    {
      Scanned(pos - 1, tok, lit, scanner.offset)
    }

    constructor (src: string, placeholder: Placeholder)
      requires NulFree(src)
      ensures Valid() && fresh(scanner) && this.src == src && this.placeholder == placeholder
      ensures Current() == NextToken(src, 0)
    {
      this.src, this.placeholder := src, placeholder;
      scanner := new Scanner(src);
      pos, tok, lit := 0, Illegal, "";
      new;
      Next();
    }

    method Next0()
      requires Ready()
      modifies this, scanner
      ensures Ready() && pos > 0 && Current() == ScanAt(src, old(scanner.offset))
    {
      pos, tok, lit := scanner.Scan();
    }

    /** Advance to the next token that is not a line comment. */
    method Next()
      requires Ready()
      modifies this, scanner
      ensures Valid() && Current() == NextToken(src, old(scanner.offset))
    {
      ghost var i := scanner.offset;
      Next0();
      while tok.LineComment?
        invariant Ready() && pos > 0 && i <= |src| && Current() == ScanAt(src, i)
        invariant NextToken(src, i) == NextToken(src, old(scanner.offset))
        decreases |src| - i
      {
        i := scanner.offset;
        Next0();
      }
    }

    /** Parse the name of an argument and its span, behind a fragment that ends in its marker. */
    method ParsePggenArg() returns (arg: Option<Arg>)
      requires Valid()
      modifies this, scanner
      ensures Valid()
      ensures ArgAt(src, old(Current())) == if arg.Some? then Got(arg.value, Current()) else Bad(Current())
    {
      hide NextToken, LastIndex, IsToken;
      var lo := pos + LastIndex(lit, "pggen") - 1;
      Next();
      if tok != String {
        return None;
      }
      if |lit| < 3 || lit[0] != '\'' || lit[|lit| - 1] != '\'' {
        return None;
      }
      var name := lit[1..|lit| - 1];
      Next();
      if tok != QueryFragment {
        return None;
      }
      if !(")" <= lit) {
        return None;
      }
      var hi := pos;
      return Some(Arg(lo, hi, name));
    }

    /** Parse up to and including the semicolon. The query is good only if its comment annotates it. */
    method ParseQuery(annotated: bool) returns (q: Query)
      requires Valid()
      modifies this, scanner
      ensures Valid()
      ensures match QueryAt(src, old(pos) - 1, old(Current()))
              case Bad(cur) => Current() == cur && q == BadQuery(old(pos), pos)
              case Got(args, semi) =>
                && Current() == NextToken(src, semi.end)
                && if !annotated then q == BadQuery(old(pos), pos)
                   else
                     && q.SourceQuery? && q.start == old(pos) && q.semi == semi.pos + 1
                     && q.sourceSQL == src[q.start - 1..q.semi]
                     && Ordered(args, 0, |q.sourceSQL|) && q.paramNames ==
                        FirstSeen(Names(args)) && Known(args, q.paramNames)
                     && q.preparedSQL == Splice(q.sourceSQL, 0, args, q.paramNames, placeholder)
    {
      hide NextToken, ArgAt, QueryAt, IsToken, Splice, FirstSeen, Names, Ordered, Known, HasSuffix;
      var start := pos;
      var names: seq<Arg> := [];
      BehindNothing(QueryAt(src, start - 1, Current()));
      while tok != Semicolon
        invariant Valid() && start <= pos
        invariant Behind(names, QueryAt(src, start - 1, Current())) == QueryAt(src, start - 1, old(Current()))
        decreases |src| + 1 - pos
      {
        QueryStep(src, start - 1, Current());
        if tok == EOF || tok == Illegal {
          return BadQuery(start, pos);
        }
        var hasPggenArg := HasSuffix(lit, "pggen.arg(") || HasSuffix(lit, "pggen.arg (");
        if tok == QueryFragment && hasPggenArg {
          var parsed := ParsePggenArg();
          if parsed.None? {
            return BadQuery(start, pos);
          }
          var arg := parsed.value;
          arg := arg.(lo := arg.lo - (start - 1));
          arg := arg.(hi := arg.hi - (start - 1));
          BehindStep(names, arg, QueryAt(src, start - 1, Current()));
          names := names + [arg];
          continue;
        }
        Next();
      }
      QueryStep(src, start - 1, Current());
      var semi := pos;
      Next();
      var sql := src[start - 1..semi];
      if !annotated {
        return BadQuery(start, pos);
      }
      assert names + [] == names;
      ParsedSpans(src, old(Current()));
      var preparedSQL, params := PrepareSQL(sql, names, placeholder);
      return SourceQuery(start, sql, preparedSQL, params, semi);
    }
  }

  /** The outcome with arguments found earlier put in front. */
  function Behind(names: seq<Arg>, r: Outcome<seq<Arg>>): Outcome<seq<Arg>> {
    match r
    case Bad(c) => Bad(c)
    case Got(args, c) => Got(names + args, c)
  }

  /** What the current token makes of the rest of the query. */
  lemma QueryStep(s: string, start: nat, cur: Scanned)
    requires NulFree(s) && IsToken(s, cur)
    ensures cur.end <= |s| && (!cur.tok.EOF? ==> cur.pos < cur.end) && cur.pos <= QueryAt(s, start, cur).cur.pos
    ensures cur.tok.Semicolon? ==> QueryAt(s, start, cur) == Got([], cur)
    ensures cur.tok.EOF? || cur.tok.Illegal? ==> QueryAt(s, start, cur) == Bad(cur)
    ensures !cur.tok.Semicolon? && !cur.tok.EOF? && !cur.tok.Illegal? && !HasMarker(cur) ==>
              QueryAt(s, start, cur) == QueryAt(s, start, NextToken(s, cur.end))
    ensures HasMarker(cur) && ArgAt(s, cur).Bad? ==> QueryAt(s, start, cur) == Bad(ArgAt(s, cur).cur)
    ensures HasMarker(cur) && ArgAt(s, cur).Got? ==>
              var arg := ArgAt(s, cur).value;
              QueryAt(s, start, cur) ==
              Behind([Arg(arg.lo - start, arg.hi - start, arg.name)], QueryAt(s, start, ArgAt(s, cur).cur))
  {
    hide ArgAt, NextToken, HasSuffix;
  }

  lemma BehindNothing(r: Outcome<seq<Arg>>)
    ensures Behind([], r) == r
  {
    assert r.Got? ==> [] + r.value == r.value;
  }

  lemma BehindStep(names: seq<Arg>, arg: Arg, r: Outcome<seq<Arg>>)
    ensures Behind(names + [arg], r) == Behind(names, Behind([arg], r))
  {
    assert r.Got? ==> (names + [arg]) + r.value == names + ([arg] + r.value);
  }

  lemma {:induction false} OrderedWiden(args: seq<Arg>, lo: int, hi: int, hi': int)
    requires Ordered(args, lo, hi) && hi <= hi'
    ensures Ordered(args, lo, hi')
    decreases |args|
  {
    if args != [] {
      OrderedWiden(args[1..], args[0].hi, hi, hi');
    }
  }

  /** The spans of a parsed query lie in its text. */
  lemma ParsedSpans(s: string, cur: Scanned)
    requires NulFree(s) && IsToken(s, cur) && QueryAt(s, cur.pos, cur).Got?
    ensures var r := QueryAt(s, cur.pos, cur); Ordered(r.value, 0, r.cur.pos + 1 - cur.pos)
  {
    hide QueryAt, Spells, Ordered, IsToken;
    SpansAreInside(s, cur.pos, cur, cur.pos);
    var r := QueryAt(s, cur.pos, cur);
    OrderedWiden(r.value, 0, r.cur.pos - cur.pos, r.cur.pos + 1 - cur.pos);
  }
}
