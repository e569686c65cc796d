/** The recursive-descent parser of ClickHouse type names: an object that advances a position. */
module ChParser {
  import opened Text
  import opened ChTypes
  import opened ChGrammar

  /** The method read what the grammar reads at a position, and stopped where it stops. */
  ghost predicate Agrees<T(!new)>(spec: Read<T>, got: Result<T, ParseError>, pos: nat) {
    match spec
    case Err(e) => got == Err(e)
    case Ok(v) => got == Ok(v.0) && pos == v.1
  }

  class Parser {
    const src: string
    var pos: nat

    ghost predicate Valid()
      reads this
    {
      pos <= |src|
    }

    constructor (src: string)
      ensures Valid() && this.src == src && pos == 0
    {
      this.src := src;
      pos := 0;
    }

    method SkipBlanks()
      requires Valid()
      modifies this`pos
      ensures Valid() && pos == SkipSpace(src, old(pos))
    {
      while pos < |src| && (src[pos] == ' ' || src[pos] == '\t' || src[pos] == '\n')
        invariant Valid() && SkipSpace(src, pos) == SkipSpace(src, old(pos))
      {
        pos := pos + 1;
      }
    }

    method PeekChar() returns (c: char)
      requires Valid()
      modifies this`pos
      ensures Valid() && pos == SkipSpace(src, old(pos)) && c == Peek(src, old(pos))
    {
      SkipBlanks();
      c := if pos >= |src| then '\0' else src[pos];
    }

    method Accept(c: char) returns (ok: bool)
      requires Valid() && c != '\0'
      modifies this`pos
      ensures Valid()
      ensures ok <==> Expect(src, old(pos), c).Ok?
      ensures ok <==> Peek(src, old(pos)) == c
      ensures pos == if ok then Expect(src, old(pos), c).value else SkipSpace(src, old(pos))
    {
      var next := PeekChar();
      if next == c {
        pos := pos + 1;
        return true;
      }
      return false;
    }

    method ExpectChar(c: char) returns (r: Result<(), ParseError>)
      requires Valid() && c != '\0'
      modifies this`pos
      ensures Valid()
      ensures match Expect(src, old(pos), c)
              case Err(e) => r == Err(e)
              case Ok(p) => r == Ok(()) && pos == p
    {
      var ok := Accept(c);
      return if ok then Ok(()) else Err(Expected(c));
    }

    method ParseIdent() returns (r: Result<string, ParseError>)
      requires Valid()
      modifies this`pos
      ensures Valid() && Agrees(IdentAt(src, old(pos)), r, pos)
    {
      SkipBlanks();
      var start := pos;
      while pos < |src| && IsIdentChar(src[pos])
        invariant start <= pos && Valid() && IdentEnd(src, pos) == IdentEnd(src, start)
      {
        pos := pos + 1;
      }
      return if pos == start then Err(ExpectedName) else Ok(src[start..pos]);
    }

    method ParseString() returns (r: Result<string, ParseError>)
      requires Valid()
      modifies this`pos
      ensures Valid() && Agrees(StringAt(src, old(pos)), r, pos)
    {
      var _ :- ExpectChar('\'');
      var sb := "";
      ghost var start := pos;
      while pos < |src|
        invariant Valid() && StringBody(src, pos, sb) == StringBody(src, start, "")
      {
        var c := src[pos];
        if c == '\\' {
          if pos + 1 >= |src| {
            return Err(TrailingBackslash);
          }
          pos := pos + 2;
          sb := sb + [Unescape(src[pos - 1])];
        } else if c == '\'' {
          pos := pos + 1;
          return Ok(sb);
        } else {
          sb := sb + [c];
          pos := pos + 1;
        }
      }
      return Err(UnterminatedString);
    }

    method ParseInt() returns (r: Result<int, ParseError>)
      requires Valid()
      modifies this`pos
      ensures Valid() && Agrees(IntAt(src, old(pos)), r, pos)
    {
      SkipBlanks();
      var start := pos;
      if pos < |src| && (src[pos] == '-' || src[pos] == '+') {
        pos := pos + 1;
      }
      ghost var digits := pos;
      while pos < |src| && '0' <= src[pos] <= '9'
        invariant start <= digits <= pos && Valid() && DigitsEnd(src, pos) == DigitsEnd(src, digits)
      {
        pos := pos + 1;
      }
      if pos == start {
        return Err(ExpectedNumber);
      }
      var n := Atoi(src[start..pos]);
      return if n.None? then Err(BadNumber) else Ok(n.value);
    }

    method ParseType() returns (r: Result<Type, ParseError>)
      requires Valid()
      modifies this`pos
      ensures Valid() && Agrees(TypeAt(src, old(pos)), r, pos)
      decreases |src| - pos, 1
    {
      var openIdx := pos;
      var name :- ParseIdent();
      var next := PeekChar();
      if next != '(' {
        return Ok(BareType(name));
      }
      r := ParseArguments(openIdx, name);
    }

    method ParseArguments(openIdx: nat, name: string) returns (r: Result<Type, ParseError>)
      requires Valid() && openIdx < pos
      modifies this`pos
      ensures Valid() && Agrees(ArgumentsAt(src, openIdx, name, old(pos)), r, pos)
      decreases |src| - pos, 1
    {
      if IsWrapper(name) {
        var elem :- ParseParenType();
        return Ok(Wrap(name, elem));
      } else if name == "Map" {
        r := ParseMap();
      } else if name == "FixedString" {
        var n :- ParseParenInt();
        return Ok(FixedString(n));
      } else if name == "Decimal" {
        r := ParseDecimal();
      } else if DecimalPrecision(name).Some? {
        var scale :- ParseParenInt();
        return Ok(Decimal(DecimalPrecision(name).value, scale));
      } else if name == "DateTime" {
        var tz :- ParseParenString();
        return Ok(DateTime(tz));
      } else if name == "DateTime64" {
        r := ParseDateTime64();
      } else if name == "Enum8" || name == "Enum16" {
        r := ParseEnum(if name == "Enum16" then 16 else 8);
      } else if name == "Tuple" {
        r := ParseTuple();
      } else {
        var _ :- SkipBalanced();
        return Ok(Unsupported(src[openIdx..pos]));
      }
    }

    method ParseParenType() returns (r: Result<Type, ParseError>)
      requires Valid()
      modifies this`pos
      ensures Valid() && Agrees(ParenType(src, old(pos)), r, pos)
      decreases |src| - pos, 0
    {
      var _ :- ExpectChar('(');
      var t :- ParseType();
      var _ :- ExpectChar(')');
      return Ok(t);
    }

    method ParseMap() returns (r: Result<Type, ParseError>)
      requires Valid()
      modifies this`pos
      ensures Valid() && Agrees(MapAt(src, old(pos)), r, pos)
      decreases |src| - pos, 0
    {
      var _ :- ExpectChar('(');
      var key :- ParseType();
      var _ :- ExpectChar(',');
      var val :- ParseType();
      var _ :- ExpectChar(')');
      return Ok(Map(key, val));
    }

    method ParseDecimal() returns (r: Result<Type, ParseError>)
      requires Valid()
      modifies this`pos
      ensures Valid() && Agrees(DecimalAt(src, old(pos)), r, pos)
    {
      var _ :- ExpectChar('(');
      var prec :- ParseInt();
      var _ :- ExpectChar(',');
      var scale :- ParseInt();
      var _ :- ExpectChar(')');
      return Ok(Decimal(prec, scale));
    }

    method ParseParenInt() returns (r: Result<int, ParseError>)
      requires Valid()
      modifies this`pos
      ensures Valid() && Agrees(ParenInt(src, old(pos)), r, pos)
    {
      var _ :- ExpectChar('(');
      var n :- ParseInt();
      var _ :- ExpectChar(')');
      return Ok(n);
    }

    method ParseParenString() returns (r: Result<string, ParseError>)
      requires Valid()
      modifies this`pos
      ensures Valid() && Agrees(ParenString(src, old(pos)), r, pos)
    {
      var _ :- ExpectChar('(');
      var s :- ParseString();
      var _ :- ExpectChar(')');
      return Ok(s);
    }

    method ParseDateTime64() returns (r: Result<Type, ParseError>)
      requires Valid()
      modifies this`pos
      ensures Valid() && Agrees(DateTime64At(src, old(pos)), r, pos)
    {
      var _ :- ExpectChar('(');
      var prec :- ParseInt();
      var tz := "";
      var comma := Accept(',');
      if comma {
        tz :- ParseString();
      }
      var _ :- ExpectChar(')');
      return Ok(DateTime64(prec, tz));
    }

    method ParseEnumItem(bits: int) returns (r: Result<(string, int), ParseError>)
      requires Valid()
      modifies this`pos
      ensures Valid() && Agrees(EnumItem(src, old(pos), bits), r, pos)
    {
      var lab :- ParseString();
      var _ :- ExpectChar('=');
      var v :- ParseInt();
      var lo, hi := -32768, 32767;
      if bits == 8 {
        lo, hi := -128, 127;
      }
      return if v < lo || v > hi then Err(ValueOutOfRange) else Ok((lab, v));
    }

    method ParseEnum(bits: int) returns (r: Result<Type, ParseError>)
      requires Valid()
      modifies this`pos
      ensures Valid() && Agrees(EnumAt(src, old(pos), bits), r, pos)
    {
      var _ :- ExpectChar('(');
      ghost var start := pos;
      var labels: seq<string>, values: seq<int> := [], [];
      while true
        invariant Valid() && EnumItems(src, pos, bits, labels, values) == EnumItems(src, start, bits, [], [])
        decreases |src| - pos
      {
        var item :- ParseEnumItem(bits);
        labels := labels + [item.0];
        values := values + [item.1];
        var comma := Accept(',');
        if !comma {
          break;
        }
      }
      var _ :- ExpectChar(')');
      return Ok(Enum(bits, labels, values));
    }

    method ParseTupleItem() returns (r: Result<(string, Type), ParseError>, named: bool)
      requires Valid()
      modifies this`pos
      ensures Valid() && Agrees(TupleItem(src, old(pos)), r, pos)
      ensures r.Ok? ==> named == NamesField(src, old(pos))
      decreases |src| - pos, 2
    {
      named := false;
      var save := pos;
      var id := ParseIdent();
      if id.Err? {
        return Err(id.error), false;
      }
      var next := PeekChar();
      if next != '(' && next != ',' && next != ')' {
        var elem := ParseType();
        return (if elem.Err? then Err(elem.error) else Ok((id.value, elem.value))), true;
      } else {
        pos := save;
        var elem := ParseType();
        return (if elem.Err? then Err(elem.error) else Ok(("", elem.value))), false;
      }
    }

    method ParseTuple() returns (r: Result<Type, ParseError>)
      requires Valid()
      modifies this`pos
      ensures Valid() && Agrees(TupleAt(src, old(pos)), r, pos)
      decreases |src| - pos, 0
    {
      var _ :- ExpectChar('(');
      ghost var start := pos;
      var names: seq<string>, elems: seq<Type>, named := [], [], false;
      while true
        invariant start <= pos && Valid()
        invariant TupleItems(src, pos, names, elems, named) == TupleItems(src, start, [], [], false)
        decreases |src| - pos
      {
        var item, isNamed := ParseTupleItem();
        if item.Err? {
          return Err(item.error);
        }
        names := names + [item.value.0];
        elems := elems + [item.value.1];
        named := named || isNamed;
        var comma := Accept(',');
        if !comma {
          break;
        }
      }
      var _ :- ExpectChar(')');
      return Ok(Tuple(if named then names else [], elems));
    }

    method SkipBalanced() returns (r: Result<(), ParseError>)
      requires Valid()
      modifies this`pos
      ensures Valid()
      ensures match BalancedAt(src, old(pos))
              case Err(e) => r == Err(e)
              case Ok(p) => r == Ok(()) && pos == p
    {
      var _ :- ExpectChar('(');
      ghost var start := pos;
      var depth := 1;
      while pos < |src|
        invariant Valid() && depth > 0 && Balanced(src, pos, depth) == Balanced(src, start, 1)
      {
        if src[pos] == '\'' {
          var _ :- ParseString();
          continue;
        } else if src[pos] == '(' {
          depth := depth + 1;
        } else if src[pos] == ')' {
          depth := depth - 1;
          if depth == 0 {
            pos := pos + 1;
            return Ok(());
          }
        }
        pos := pos + 1;
      }
      return Err(Unbalanced);
    }
  }

  /** Parsing terminates on every text and computes what the grammar says. */
  method ParseTypeName(name: string) returns (r: Result<Type, ParseError>)
    ensures r == Parse(name)
  {
    var p := new Parser(name);
    var t :- p.ParseType();
    p.SkipBlanks();
    return if p.pos != |p.src| then Err(TrailingText) else Ok(t);
  }
}
