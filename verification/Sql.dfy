/**
  The part of SQL that a paginated statement is made of: comparison predicates in
  three-valued logic, and ORDER BY terms. Row comparison follows section 9.24.5 of the
  PostgreSQL 13 manual and the placement of nulls follows section 7.5.
 */
module Sql {

  /** A nullable value of a totally ordered type. */
  datatype Cell = Null | Val(v: int)

  /** A row gives a cell to every column; a column it does not mention is null. */
  type Row = map<string, Cell>

  /** The arguments a statement is run with, by parameter. */
  type Args = map<string, Cell>

  function Get(m: map<string, Cell>, name: string): Cell {
    if name in m then m[name] else Null
  }

  datatype Truth = True | False | Unknown

  function And3(a: Truth, b: Truth): Truth {
    if a == False || b == False then False
    else if a == True && b == True then True
    else Unknown
  }

  function Or3(a: Truth, b: Truth): Truth {
    if a == True || b == True then True
    else if a == False && b == False then False
    else Unknown
  }

  function Known(b: bool): Truth {
    if b then True else False
  }

  datatype Op = Less | Greater

  datatype Term = Column(name: string) | Parameter(name: string)

  datatype Pred =
    | Compare(op: Op, left: Term, right: Term)
    | CompareRows(op: Op, lefts: seq<Term>, rights: seq<Term>)
    | Equal(left: Term, right: Term)
    | NotDistinct(left: Term, right: Term)
    | IsNull(term: Term)
    | IsNotNull(term: Term)
    | And(conjuncts: seq<Pred>)
    | Or(disjuncts: seq<Pred>)

  function TermValue(t: Term, row: Row, args: Args): Cell {
    match t
    case Column(name) => Get(row, name)
    case Parameter(name) => Get(args, name)
  }

  function CompareCells(op: Op, a: Cell, b: Cell): Truth {
    if a.Null? || b.Null? then Unknown
    else Known(if op.Less? then a.v < b.v else a.v > b.v)
  }

  /** Left to right, deciding at the first pair that is unequal or holds a null. */
  function CompareCellSeqs(op: Op, a: seq<Cell>, b: seq<Cell>): Truth {
    if a == [] || b == [] then False
    else if a[0].Val? && a[0] == b[0] then CompareCellSeqs(op, a[1..], b[1..])
    else CompareCells(op, a[0], b[0])
  }

  function TermValues(ts: seq<Term>, row: Row, args: Args): seq<Cell> {
    seq(|ts|, i requires 0 <= i < |ts| => TermValue(ts[i], row, args))
  }

  function Eval(p: Pred, row: Row, args: Args): Truth
    decreases p, 1
  {
    match p
    case Compare(op, l, r) => CompareCells(op, TermValue(l, row, args), TermValue(r, row, args))
    case CompareRows(op, ls, rs) => CompareCellSeqs(op, TermValues(ls, row, args), TermValues(rs, row, args))
    case Equal(l, r) =>
      var a, b := TermValue(l, row, args), TermValue(r, row, args);
      if a.Null? || b.Null? then Unknown else Known(a == b)
    case NotDistinct(l, r) => Known(TermValue(l, row, args) == TermValue(r, row, args))
    case IsNull(t) => Known(TermValue(t, row, args).Null?)
    case IsNotNull(t) => Known(TermValue(t, row, args).Val?)
    case And(ps) => EvalAll(ps, row, args)
    case Or(ps) => EvalAny(ps, row, args)
  }

  function EvalAll(ps: seq<Pred>, row: Row, args: Args): Truth
    decreases ps, 0
  {
    if ps == [] then True else And3(Eval(ps[0], row, args), EvalAll(ps[1..], row, args))
  }

  function EvalAny(ps: seq<Pred>, row: Row, args: Args): Truth
    decreases ps, 0
  {
    if ps == [] then False else Or3(Eval(ps[0], row, args), EvalAny(ps[1..], row, args))
  }

  /** A disjunction is true exactly when one of its disjuncts is. */
  lemma {:induction false} AnyIsTrue(ps: seq<Pred>, row: Row, args: Args)
    ensures EvalAny(ps, row, args) == True <==> exists i :: 0 <= i < |ps| && Eval(ps[i], row, args) == True
  {
    if ps != [] {
      AnyIsTrue(ps[1..], row, args);
      if i :| 0 <= i < |ps| && Eval(ps[i], row, args) == True {
        assert i > 0 ==> ps[1..][i - 1] == ps[i];
      }
    }
  }

  /** A conjunction is true exactly when all of its conjuncts are. */
  lemma {:induction false} AllIsTrue(ps: seq<Pred>, row: Row, args: Args)
    ensures EvalAll(ps, row, args) == True <==> forall i :: 0 <= i < |ps| ==> Eval(ps[i], row, args) == True
  {
    if ps != [] {
      AllIsTrue(ps[1..], row, args);
      if i :| 0 <= i < |ps| && Eval(ps[i], row, args) != True {
        assert i > 0 ==> ps[1..][i - 1] == ps[i];
      }
    }
  }

  datatype Nulls = Unspecified | First | Last

  datatype OrderTerm = OrderTerm(column: string, desc: bool, nulls: Nulls)

  /** The dialects differ in where nulls go when a term does not say. */
  datatype Dialect = Postgres | ClickHouse

  predicate NullsFirst(t: OrderTerm, d: Dialect) {
    t.nulls.First? || (t.nulls.Unspecified? && d.Postgres? && t.desc)
  }

  predicate CellPrecedes(t: OrderTerm, d: Dialect, a: Cell, b: Cell) {
    match (a, b)
    case (Null, Null) => false
    case (Null, Val(_)) => NullsFirst(t, d)
    case (Val(_), Null) => !NullsFirst(t, d)
    case (Val(x), Val(y)) => if t.desc then y < x else x < y
  }

  /** r is sorted strictly before s. */
  predicate Precedes(terms: seq<OrderTerm>, d: Dialect, r: Row, s: Row) {
    terms != [] &&
    var a, b := Get(r, terms[0].column), Get(s, terms[0].column);
    (CellPrecedes(terms[0], d, a, b) || (a == b && Precedes(terms[1..], d, r, s)))
  }

  lemma {:induction false} PrecedesIrreflexive(terms: seq<OrderTerm>, d: Dialect, r: Row)
    ensures !Precedes(terms, d, r, r)
  {
    if terms != [] {
      PrecedesIrreflexive(terms[1..], d, r);
    }
  }

  lemma {:induction false} PrecedesTransitive(terms: seq<OrderTerm>, d: Dialect, r: Row, s: Row, t: Row)
    requires Precedes(terms, d, r, s) && Precedes(terms, d, s, t)
    ensures Precedes(terms, d, r, t)
  {
    var c := terms[0].column;
    if Get(r, c) == Get(s, c) == Get(t, c) {
      PrecedesTransitive(terms[1..], d, r, s, t);
    }
  }

  /** Rows that differ in a column of the ORDER BY are ordered one way or the other. */
  lemma {:induction false} PrecedesConnected(terms: seq<OrderTerm>, d: Dialect, r: Row, s: Row, i: nat)
    requires i < |terms| && Get(r, terms[i].column) != Get(s, terms[i].column)
    ensures Precedes(terms, d, r, s) || Precedes(terms, d, s, r)
    decreases i
  {
    if Get(r, terms[0].column) == Get(s, terms[0].column) {
      PrecedesConnected(terms[1..], d, r, s, i - 1);
    }
  }

  /** Terms appended behind a column that tells two rows apart do not move them. */
  lemma {:induction false} PrecedesIgnoresTail(
    terms: seq<OrderTerm>, tail: seq<OrderTerm>, d: Dialect, r: Row, s: Row, i: nat)
    requires i < |terms| && Get(r, terms[i].column) != Get(s, terms[i].column)
    ensures Precedes(terms + tail, d, r, s) <==> Precedes(terms, d, r, s)
    decreases i
  {
    assert (terms + tail)[0] == terms[0] && (terms + tail)[1..] == terms[1..] + tail;
    if Get(r, terms[0].column) == Get(s, terms[0].column) {
      PrecedesIgnoresTail(terms[1..], tail, d, r, s, i - 1);
    }
  }
}
