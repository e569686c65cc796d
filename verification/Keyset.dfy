/**
  The ORDER BY list and the "strictly after the cursor" predicate that one sort key and
  direction of a paginated query are compiled to, and the proof that the two agree.
 */
module Keyset {
  import opened Sql

  function OrderByClause(
    columns: seq<string>, nullable: seq<string>, desc: bool, keysetMode: bool): (terms: seq<OrderTerm>) {
    var nulls := if desc && keysetMode then First else Last;
    seq(|columns|, i requires 0 <= i < |columns| =>
      OrderTerm(columns[i], desc, if columns[i] in nullable then nulls else Unspecified))
  }

  /** A cursor binding written as {name:Type} marks the ClickHouse dialect. */
  predicate UsesNativeParams(cursor: map<string, string>) {
    exists col :: col in cursor && "{" <= cursor[col]
  }

  /** The parameter bound to a column; an absent map key reads as the empty name. */
  function Arg(cursor: map<string, string>, col: string): Term {
    Parameter(if col in cursor then cursor[col] else "")
  }

  function SameLead(cursor: map<string, string>, native: bool, col: string): Pred {
    if native then
      Or([And([IsNull(Column(col)), IsNull(Arg(cursor, col))]), Equal(Column(col), Arg(cursor, col))])
    else
      NotDistinct(Column(col), Arg(cursor, col))
  }

  function RowComparison(cursor: map<string, string>, cols: seq<string>, desc: bool): Pred {
    var op := if desc then Less else Greater;
    if |cols| == 1 then Compare(op, Column(cols[0]), Arg(cursor, cols[0]))
    else CompareRows(op, seq(|cols|, i requires 0 <= i < |cols| => Column(cols[i])),
                         seq(|cols|, i requires 0 <= i < |cols| => Arg(cursor, cols[i])))
  }

  function NullAwareArms(cursor: map<string, string>, native: bool, columns: seq<string>, desc: bool): seq<Pred>
    requires columns != []
  {
    var c := columns[0];
    var rest := columns[1..];
    var col, arg := Column(c), Arg(cursor, c);
    var nullArm := if desc then And([IsNotNull(col), IsNull(arg)]) else And([IsNull(col), IsNotNull(arg)]);
    var earlier := Compare(if desc then Less else Greater, col, arg);
    (if rest == [] then [] else [And([SameLead(cursor, native, c), RowComparison(cursor, rest, desc)])])
    + [earlier, nullArm]
  }

  /** True on the first page, when every cursor argument is null. */
  function FirstPageEscape(cursor: map<string, string>, columns: seq<string>): Pred {
    And(seq(|columns|, i requires 0 <= i < |columns| => IsNull(Arg(cursor, columns[i]))))
  }

  function PredicateAs(cursor: map<string, string>, native: bool,
                       columns: seq<string>, nullable: seq<string>, desc: bool): Pred {
    var main :=
      if columns != [] && columns[0] in nullable then NullAwareArms(cursor, native, columns, desc)
      else [RowComparison(cursor, columns, desc)];
    Or(main + [FirstPageEscape(cursor, columns)])
  }

  function KeysetPredicate(cursor: map<string, string>, columns: seq<string>, nullable: seq<string>, desc: bool): Pred {
    PredicateAs(cursor, UsesNativeParams(cursor), columns, nullable, desc)
  }

  /** One statement's sort: the columns, which of them may be null, and the direction. */
  datatype Variant = Variant(cursor: map<string, string>, columns: seq<string>, nullable: seq<string>, desc: bool) {

    /** What an accepted keyset spec guarantees of each of its variants. */
    ghost predicate Accepted() {
      && (forall i :: 0 < i < |columns| ==> columns[i] !in nullable)
      && (forall c <- columns :: c in cursor)
    }

    /** Only columns declared nullable hold nulls. */
    ghost predicate Conforms(row: Row) {
      forall c <- columns :: c !in nullable ==> Get(row, c).Val?
    }

    function Order(): seq<OrderTerm> {
      OrderByClause(columns, nullable, desc, true)
    }

    function Predicate(): Pred {
      KeysetPredicate(cursor, columns, nullable, desc)
    }

    /** The statement's WHERE clause keeps the row. */
    ghost predicate Selects(args: Args, row: Row) {
      Eval(Predicate(), row, args) == True
    }

    /** The arguments carry the sort key of a row. */
    ghost predicate CursorAt(args: Args, row: Row) {
      forall c <- columns :: Get(args, Arg(cursor, c).name) == Get(row, c)
    }

    ghost predicate FirstPage(args: Args) {
      forall c <- columns :: Get(args, Arg(cursor, c).name) == Null
    }

    /** The only column is nullable, so a cursor on a null looks like the first page. */
    ghost predicate CursorCanVanish() {
      |columns| == 1 && columns[0] in nullable
    }
  }

  lemma {:induction false} SelectsArms(v: Variant, native: bool, args: Args, row: Row)
    requires v.columns != []
    ensures
      var p := PredicateAs(v.cursor, native, v.columns, v.nullable, v.desc);
      var c, rest := v.columns[0], v.columns[1..];
      var cell, arg := Get(row, c), Get(args, Arg(v.cursor, c).name);
      Eval(p, row, args) == True <==>
        || v.FirstPage(args)
        || if c in v.nullable then
             || (rest != [] && cell == arg && Eval(RowComparison(v.cursor, rest, v.desc), row, args) == True)
             || CompareCells(if v.desc then Less else Greater, cell, arg) == True
             || (if v.desc then cell.Val? && arg.Null? else cell.Null? && arg.Val?)
           else Eval(RowComparison(v.cursor, v.columns, v.desc), row, args) == True
  {
    var p := PredicateAs(v.cursor, native, v.columns, v.nullable, v.desc);
    AnyIsTrue(p.disjuncts, row, args);
    var escape := FirstPageEscape(v.cursor, v.columns);
    assert p.disjuncts[|p.disjuncts| - 1] == escape;
    EscapeMeansFirstPage(v, args, row);
    if v.columns[0] in v.nullable {
      var arms := NullAwareArms(v.cursor, native, v.columns, v.desc);
      ArmsMean(v, native, args, row);
      assert p.disjuncts == arms + [escape];
      assert forall i :: 0 <= i < |arms| ==> p.disjuncts[i] == arms[i];
    } else {
      assert p.disjuncts[0] == RowComparison(v.cursor, v.columns, v.desc);
    }
  }

  lemma EscapeMeansFirstPage(v: Variant, args: Args, row: Row)
    ensures Eval(FirstPageEscape(v.cursor, v.columns), row, args) == True <==> v.FirstPage(args)
  {
    var escape := FirstPageEscape(v.cursor, v.columns);
    AllIsTrue(escape.conjuncts, row, args);
    if v.FirstPage(args) {
      assert forall i :: 0 <= i < |v.columns| ==> v.columns[i] in v.columns;
    } else {
      var c :| c in v.columns && Get(args, Arg(v.cursor, c).name) != Null;
      var i :| 0 <= i < |v.columns| && v.columns[i] == c;
      assert Eval(escape.conjuncts[i], row, args) != True;
    }
  }

  lemma PairIsTrue(p: Pred, q: Pred, row: Row, args: Args)
    ensures Eval(And([p, q]), row, args) == True <==> Eval(p, row, args) == True && Eval(q, row, args) == True
    ensures Eval(Or([p, q]), row, args) == True <==> Eval(p, row, args) == True || Eval(q, row, args) == True
  {
    AllIsTrue([p, q], row, args);
    AnyIsTrue([p, q], row, args);
    assert [p, q][0] == p && [p, q][1] == q;
  }

  /** The two spellings of "same leading value" are true together, though the long one can be unknown. */
  lemma SameLeadMeans(cursor: map<string, string>, native: bool, c: string, args: Args, row: Row)
    ensures Eval(SameLead(cursor, native, c), row, args) == True <==> Get(row, c) == Get(args, Arg(cursor, c).name)
  {
    if native {
      PairIsTrue(IsNull(Column(c)), IsNull(Arg(cursor, c)), row, args);
      PairIsTrue(And([IsNull(Column(c)), IsNull(Arg(cursor, c))]), Equal(Column(c), Arg(cursor, c)), row, args);
    }
  }

  lemma ArmsAre(v: Variant, native: bool)
    requires v.columns != []
    ensures
      var arms := NullAwareArms(v.cursor, native, v.columns, v.desc);
      var c, rest, n := v.columns[0], v.columns[1..], |arms|;
      var col, arg := Column(c), Arg(v.cursor, c);
      && n == (if rest == [] then 2 else 3)
      && arms[n - 2] == Compare(if v.desc then Less else Greater, col, arg)
      && arms[n - 1] == (if v.desc then And([IsNotNull(col), IsNull(arg)]) else And([IsNull(col), IsNotNull(arg)]))
      && (rest != [] ==> arms[0] == And([SameLead(v.cursor, native, c), RowComparison(v.cursor, rest, v.desc)]))
  {
    hide SameLead, RowComparison;
  }

  lemma ArmsMean(v: Variant, native: bool, args: Args, row: Row)
    requires v.columns != []
    ensures
      var arms := NullAwareArms(v.cursor, native, v.columns, v.desc);
      var c, rest := v.columns[0], v.columns[1..];
      var cell, arg := Get(row, c), Get(args, Arg(v.cursor, c).name);
      (exists i :: 0 <= i < |arms| && Eval(arms[i], row, args) == True) <==>
        || (rest != [] && cell == arg && Eval(RowComparison(v.cursor, rest, v.desc), row, args) == True)
        || CompareCells(if v.desc then Less else Greater, cell, arg) == True
        || (if v.desc then cell.Val? && arg.Null? else cell.Null? && arg.Val?)
  {
    var arms := NullAwareArms(v.cursor, native, v.columns, v.desc);
    var c, rest := v.columns[0], v.columns[1..];
    var col, arg := Column(c), Arg(v.cursor, c);
    var n := |arms|;
    ArmsAre(v, native);
    hide NullAwareArms, EvalAll, EvalAny, RowComparison, SameLead, CompareCellSeqs;
    SameLeadMeans(v.cursor, native, c, args, row);
    PairIsTrue(SameLead(v.cursor, native, c), RowComparison(v.cursor, rest, v.desc), row, args);
    PairIsTrue(IsNotNull(col), IsNull(arg), row, args);
    PairIsTrue(IsNull(col), IsNotNull(arg), row, args);
    var op := if v.desc then Less else Greater;
    assert Eval(arms[n - 2], row, args) == CompareCells(op, Get(row, c), Get(args, arg.name));
  }

  function Cells(columns: seq<string>, m: Row): seq<Cell> {
    seq(|columns|, i requires 0 <= i < |columns| => Get(m, columns[i]))
  }

  /** On rows without nulls, row comparison is the lexicographic order of the ORDER BY. */
  lemma {:induction false} ComparisonIsOrder(
    columns: seq<string>, nullable: seq<string>, desc: bool, d: Dialect, row: Row, at: Row)
    requires forall c <- columns :: Get(row, c).Val? && Get(at, c).Val?
    ensures CompareCellSeqs(if desc then Less else Greater, Cells(columns, row), Cells(columns, at)) == True
       <==> Precedes(OrderByClause(columns, nullable, desc, true), d, at, row)
  {
    if columns != [] {
      var terms := OrderByClause(columns, nullable, desc, true);
      assert columns[0] in columns;
      assert terms[1..] == OrderByClause(columns[1..], nullable, desc, true);
      assert Cells(columns, row)[1..] == Cells(columns[1..], row);
      assert Cells(columns, at)[1..] == Cells(columns[1..], at);
      ComparisonIsOrder(columns[1..], nullable, desc, d, row, at);
    }
  }

  lemma RowComparisonIsOrder(
    cursor: map<string, string>, columns: seq<string>, nullable: seq<string>, desc: bool, d: Dialect,
      args: Args, row: Row, at: Row)
    requires columns != []
    requires forall c <- columns :: Get(row, c).Val? && Get(at, c).Val?
    requires forall c <- columns :: Get(args, Arg(cursor, c).name) == Get(at, c)
    ensures Eval(RowComparison(cursor, columns, desc), row, args) == True
       <==> Precedes(OrderByClause(columns, nullable, desc, true), d, at, row)
  {
    ComparisonIsOrder(columns, nullable, desc, d, row, at);
    var p := RowComparison(cursor, columns, desc);
    if |columns| == 1 {
      assert columns[0] in columns;
      var terms := OrderByClause(columns, nullable, desc, true);
      assert !Precedes(terms[1..], d, at, row);
    } else {
      assert TermValues(p.lefts, row, args) == Cells(columns, row);
      assert TermValues(p.rights, row, args) == Cells(columns, at);
    }
  }

  /** The arms for a nullable leading column say that the row comes after the cursor. */
  lemma NullableLeadIsOrder(v: Variant, d: Dialect, args: Args, row: Row, at: Row)
    requires v.Accepted() && v.columns != [] && v.columns[0] in v.nullable
    requires v.Conforms(row) && v.Conforms(at) && v.CursorAt(args, at)
    ensures
      var c, rest := v.columns[0], v.columns[1..];
      var cell, arg := Get(row, c), Get(args, Arg(v.cursor, c).name);
      Precedes(v.Order(), d, at, row) <==>
        || (rest != [] && cell == arg && Eval(RowComparison(v.cursor, rest, v.desc), row, args) == True)
        || CompareCells(if v.desc then Less else Greater, cell, arg) == True
        || (if v.desc then cell.Val? && arg.Null? else cell.Null? && arg.Val?)
  {
    hide Eval, PredicateAs, RowComparison, CompareCellSeqs;
    var c, rest := v.columns[0], v.columns[1..];
    assert c in v.columns;
    assert v.Order()[1..] == OrderByClause(rest, v.nullable, v.desc, true);
    if rest != [] {
      assert forall c <- rest :: c in v.columns && c !in v.nullable;
      RowComparisonIsOrder(v.cursor, rest, v.nullable, v.desc, d, args, row, at);
    }
  }

  /**
    The main result about one statement. With a cursor taken from a row, the WHERE clause
    is true of exactly the rows that the ORDER BY puts strictly after that row; the only
    exception is a cursor that is null throughout, which selects everything.
   */
  lemma SelectsExactlyAfter(v: Variant, d: Dialect, args: Args, row: Row, at: Row)
    requires v.Accepted() && v.columns != []
    requires v.Conforms(row) && v.Conforms(at) && v.CursorAt(args, at)
    ensures v.Selects(args, row) <==> Precedes(v.Order(), d, at, row) || v.FirstPage(args)
  {
    hide Eval, PredicateAs, RowComparison, CompareCellSeqs, OrderByClause, Precedes;
    SelectsArms(v, UsesNativeParams(v.cursor), args, row);
    assert v.columns[0] in v.columns;
    if v.columns[0] in v.nullable {
      NullableLeadIsOrder(v, d, args, row, at);
    } else {
      assert forall c <- v.columns :: c !in v.nullable;
      RowComparisonIsOrder(v.cursor, v.columns, v.nullable, v.desc, d, args, row, at);
    }
  }

  /** With every cursor argument null, the statement returns the first page: nothing is filtered out. */
  lemma FirstPageSelectsAll(v: Variant, args: Args, row: Row)
    requires v.columns != [] && v.FirstPage(args)
    ensures v.Selects(args, row)
  {
    SelectsArms(v, UsesNativeParams(v.cursor), args, row);
  }

  /** The predicate is right for a cursor unless the cursor is the null of a one-column key, and then it is wrong. */
  lemma CursorWorksExactlyWhen(v: Variant, d: Dialect, args: Args, at: Row)
    requires v.Accepted() && v.columns != [] && v.Conforms(at) && v.CursorAt(args, at)
    ensures (forall row :: v.Conforms(row) ==> (v.Selects(args, row) <==> Precedes(v.Order(), d, at, row)))
       <==> !(v.CursorCanVanish() && Get(at, v.columns[0]).Null?)
  {
    forall row | v.Conforms(row)
      ensures v.Selects(args, row) <==> Precedes(v.Order(), d, at, row) || v.FirstPage(args)
    {
      SelectsExactlyAfter(v, d, args, row, at);
    }
    PrecedesIrreflexive(v.Order(), d, at);
    if v.FirstPage(args) {
      assert v.Selects(args, at);
      assert Get(at, v.columns[|v.columns| - 1]).Null?;
    } else {
      assert v.columns[0] in v.columns;
    }
  }

  /** The Postgres and the ClickHouse spelling select the same rows, whatever the rows and arguments are. */
  lemma SpellingsSelectTheSame(
    cursor: map<string, string>, columns: seq<string>, nullable: seq<string>, desc: bool, args: Args, row: Row)
    ensures Eval(PredicateAs(cursor, true, columns, nullable, desc), row, args) == True
       <==> Eval(PredicateAs(cursor, false, columns, nullable, desc), row, args) == True
  {
    if columns != [] {
      var v := Variant(cursor, columns, nullable, desc);
      SelectsArms(v, true, args, row);
      SelectsArms(v, false, args, row);
    }
  }

  /** The spellings are not the same expression: against a null, one is false and the other unknown. */
  lemma SpellingsDiffer(cursor: map<string, string>, col: string, args: Args, row: Row)
    requires Get(row, col).Null? != Get(args, Arg(cursor, col).name).Null?
    ensures Eval(SameLead(cursor, false, col), row, args) == False
    ensures Eval(SameLead(cursor, true, col), row, args) == Unknown
  {
    var both := [IsNull(Column(col)), IsNull(Arg(cursor, col))];
    assert EvalAll(both[1..], row, args) == And3(Eval(both[1], row, args), EvalAll(both[1..][1..], row, args));
    assert EvalAll(both, row, args) == False;
    var arms := SameLead(cursor, true, col).disjuncts;
    assert EvalAny(arms[1..], row, args) == Or3(Eval(arms[1], row, args), EvalAny(arms[1..][1..], row, args));
    assert EvalAny(arms, row, args) == Unknown;
  }

  /** IS NOT DISTINCT FROM, which ClickHouse does not have, occurs in the predicate. */
  predicate UsesNotDistinct(p: Pred) {
    match p
    case NotDistinct(_, _) => true
    case And(ps) => exists q <- ps :: UsesNotDistinct(q)
    case Or(ps) => exists q <- ps :: UsesNotDistinct(q)
    case _ => false
  }

  lemma PairUsesNotDistinct(p: Pred, q: Pred)
    ensures UsesNotDistinct(And([p, q])) <==> UsesNotDistinct(p) || UsesNotDistinct(q)
    ensures UsesNotDistinct(Or([p, q])) <==> UsesNotDistinct(p) || UsesNotDistinct(q)
  {
    assert p in [p, q] && q in [p, q];
  }

  lemma PartsUseNotDistinct(cursor: map<string, string>, native: bool, columns: seq<string>, desc: bool, c: string)
    ensures UsesNotDistinct(SameLead(cursor, native, c)) <==> !native
    ensures !UsesNotDistinct(RowComparison(cursor, columns, desc))
  {
    var both := And([IsNull(Column(c)), IsNull(Arg(cursor, c))]);
    PairUsesNotDistinct(IsNull(Column(c)), IsNull(Arg(cursor, c)));
    PairUsesNotDistinct(both, Equal(Column(c), Arg(cursor, c)));
    var p := RowComparison(cursor, columns, desc);
    assert p.Compare? || p.CompareRows?;
  }

  lemma ArmsUseNotDistinct(cursor: map<string, string>, native: bool, columns: seq<string>, desc: bool)
    requires columns != []
    ensures (exists q <- NullAwareArms(cursor, native, columns, desc) :: UsesNotDistinct(q)) <==>
            |columns| > 1 && !native
  {
    var arms, rest := NullAwareArms(cursor, native, columns, desc), columns[1..];
    var col, arg := Column(columns[0]), Arg(cursor, columns[0]);
    ArmsAre(Variant(cursor, columns, [], desc), native);
    PartsUseNotDistinct(cursor, native, rest, desc, columns[0]);
    PairUsesNotDistinct(SameLead(cursor, native, columns[0]), RowComparison(cursor, rest, desc));
    PairUsesNotDistinct(IsNotNull(col), IsNull(arg));
    PairUsesNotDistinct(IsNull(col), IsNotNull(arg));
    PlainUsesNoNotDistinct(col, arg, desc);
    hide NullAwareArms, SameLead, RowComparison, UsesNotDistinct, Arg;
    ListUsesNotDistinct(arms);
  }

  lemma ListUsesNotDistinct(ps: seq<Pred>)
    requires |ps| == 2 || |ps| == 3
    ensures (exists q <- ps :: UsesNotDistinct(q)) <==>
            UsesNotDistinct(ps[0]) || UsesNotDistinct(ps[1]) || (|ps| == 3 && UsesNotDistinct(ps[2]))
  {
    hide UsesNotDistinct;
    assert forall q :: q in ps <==> q == ps[0] || q == ps[1] || (|ps| == 3 && q == ps[2]);
  }

  lemma PlainUsesNoNotDistinct(col: Term, arg: Term, desc: bool)
    ensures !UsesNotDistinct(Compare(if desc then Less else Greater, col, arg))
    ensures !UsesNotDistinct(IsNull(col)) && !UsesNotDistinct(IsNull(arg))
    ensures !UsesNotDistinct(IsNotNull(col)) && !UsesNotDistinct(IsNotNull(arg))
  {
  }

  lemma EscapeUsesNoNotDistinct(cursor: map<string, string>, columns: seq<string>)
    ensures !UsesNotDistinct(FirstPageEscape(cursor, columns))
  {
  }

  lemma AnyUsesNotDistinct(ps: seq<Pred>, last: Pred)
    requires !UsesNotDistinct(last)
    ensures UsesNotDistinct(Or(ps + [last])) <==> exists q <- ps :: UsesNotDistinct(q)
  {
    assert forall q :: q in ps + [last] <==> q in ps || q == last;
  }

  /**
    The predicate says IS NOT DISTINCT FROM exactly for a nullable lead in front of further
    columns, and only where no cursor binding is written in the ClickHouse syntax.
   */
  lemma NotDistinctExactlyWhen(cursor: map<string, string>, columns: seq<string>, nullable: seq<string>, desc: bool)
    ensures UsesNotDistinct(KeysetPredicate(cursor, columns, nullable, desc)) <==>
            && |columns| > 1 && columns[0] in nullable
            && forall c <- cursor :: cursor[c] == "" || cursor[c][0] != '{'
  {
    var native := UsesNativeParams(cursor);
    assert native <==> exists c <- cursor :: cursor[c] != "" && cursor[c][0] == '{';
    hide UsesNotDistinct, UsesNativeParams, NullAwareArms, RowComparison, FirstPageEscape;
    var escape := FirstPageEscape(cursor, columns);
    EscapeUsesNoNotDistinct(cursor, columns);
    if columns != [] && columns[0] in nullable {
      ArmsUseNotDistinct(cursor, native, columns, desc);
      AnyUsesNotDistinct(NullAwareArms(cursor, native, columns, desc), escape);
    } else {
      PartsUseNotDistinct(cursor, native, columns, desc, "");
      AnyUsesNotDistinct([RowComparison(cursor, columns, desc)], escape);
    }
  }

  /** Descending is ascending read backwards, nulls included. */
  lemma {:induction false} DescReversesAsc(columns: seq<string>, nullable: seq<string>, d: Dialect, r: Row, s: Row)
    requires forall c <- columns :: c !in nullable ==> Get(r, c).Val? && Get(s, c).Val?
    ensures Precedes(OrderByClause(columns, nullable, true, true), d, r, s)
       <==> Precedes(OrderByClause(columns, nullable, false, true), d, s, r)
  {
    if columns != [] {
      assert columns[0] in columns;
      assert OrderByClause(columns, nullable, true, true)[1..] == OrderByClause(columns[1..], nullable, true, true);
      assert OrderByClause(columns, nullable, false, true)[1..] == OrderByClause(columns[1..], nullable, false, true);
      DescReversesAsc(columns[1..], nullable, d, r, s);
    }
  }

  /**
    Without a cursor the directions are not mirror images: where two rows first differ in that
    one of them has a null, the null comes last in both.
   */
  lemma {:induction false} OrderingOnlyKeepsNullsLast(
    columns: seq<string>, nullable: seq<string>, desc: bool, d: Dialect, r: Row, s: Row, i: nat)
    requires i < |columns| && columns[i] in nullable && Get(r, columns[i]).Val? && Get(s, columns[i]).Null?
    requires forall j :: 0 <= j < i ==> Get(r, columns[j]) == Get(s, columns[j])
    ensures Precedes(OrderByClause(columns, nullable, desc, false), d, r, s)
    ensures !Precedes(OrderByClause(columns, nullable, desc, false), d, s, r)
    decreases i
  {
    assert OrderByClause(columns, nullable, desc, false)[1..] == OrderByClause(columns[1..], nullable, desc, false);
    if i > 0 {
      OrderingOnlyKeepsNullsLast(columns[1..], nullable, desc, d, r, s, i - 1);
    }
  }

  /** In keyset mode the generated ordering is a strict total order on rows whose last sort column is unique. */
  lemma OrderIsStrictAndTotal(v: Variant, d: Dialect, r: Row, s: Row, t: Row)
    ensures !Precedes(v.Order(), d, r, r)
    ensures Precedes(v.Order(), d, r, s) && Precedes(v.Order(), d, s, t) ==> Precedes(v.Order(), d, r, t)
    ensures v.columns != [] && Get(r, v.columns[|v.columns| - 1]) != Get(s, v.columns[|v.columns| - 1]) ==>
              Precedes(v.Order(), d, r, s) || Precedes(v.Order(), d, s, r)
  {
    PrecedesIrreflexive(v.Order(), d, r);
    if Precedes(v.Order(), d, r, s) && Precedes(v.Order(), d, s, t) {
      PrecedesTransitive(v.Order(), d, r, s, t);
    }
    if v.columns != [] && Get(r, v.columns[|v.columns| - 1]) != Get(s, v.columns[|v.columns| - 1]) {
      PrecedesConnected(v.Order(), d, r, s, |v.columns| - 1);
    }
  }

  /** A tiebreak appended to the ordering never moves rows whose last sort column is unique. */
  lemma TiebreakNeverMatters(v: Variant, tiebreak: seq<OrderTerm>, d: Dialect, r: Row, s: Row)
    requires v.columns != [] && Get(r, v.columns[|v.columns| - 1]) != Get(s, v.columns[|v.columns| - 1])
    ensures Precedes(v.Order() + tiebreak, d, r, s) <==> Precedes(v.Order(), d, r, s)
  {
    PrecedesIgnoresTail(v.Order(), tiebreak, d, r, s, |v.columns| - 1);
  }
}
