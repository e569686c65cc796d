/**
  A client pages through a table with one generated statement, passing the sort key of
  the last row it received as the next cursor, while the table changes underneath it.
 */
module Paging {
  import opened Sql
  import opened Keyset

  /** The statement a client runs: a keyset variant, the tiebreak terms behind it, and the dialect. */
  datatype Query = Query(v: Variant, tiebreak: seq<OrderTerm>, d: Dialect) {

    /** The last column is declared non-null, as the unique tiebreaker has to be. */
    ghost predicate Pageable() {
      v.Accepted() && v.columns != [] && v.columns[|v.columns| - 1] !in v.nullable
    }

    ghost predicate Before(r: Row, s: Row) {
      Precedes(v.Order(), d, r, s)
    }

    function Key(row: Row): seq<Cell> {
      Cells(v.columns, row)
    }

    /** Every row honours the nullability declarations and the last sort column is unique. */
    ghost predicate TableOk(table: set<Row>) {
      && v.columns != []
      && (forall r <- table :: v.Conforms(r))
      && (forall r <- table, s <- table ::
            r != s ==> Get(r, v.columns[|v.columns| - 1]) != Get(s, v.columns[|v.columns| - 1]))
    }

    /**
      SELECT ... WHERE keyset ORDER BY order, tiebreak LIMIT k. Rows that the order does
      not tell apart may come in any order, and any of them may be the ones cut off.
     */
    ghost predicate IsPage(table: set<Row>, args: Args, k: nat, page: seq<Row>) {
      var order := v.Order() + tiebreak;
      && |page| <= k
      && (forall r <- page :: r in table && v.Selects(args, r))
      && (forall i, j :: 0 <= i < j < |page| ==> page[i] != page[j] && !Precedes(order, d, page[j], page[i]))
      && (forall r <- table :: v.Selects(args, r) && r !in page ==>
            |page| == k && forall p <- page :: !Precedes(order, d, r, p))
    }
  }

  datatype State = State(table: set<Row>, args: Args, returned: seq<Row>, fetched: nat, done: bool)

  ghost predicate Init(q: Query, s: State) {
    q.TableOk(s.table) && q.v.FirstPage(s.args) && s.returned == [] && s.fetched == 0 && !s.done
  }

  /** Rows are inserted, deleted or updated between two pages. */
  ghost predicate Change(q: Query, s: State, s': State) {
    q.TableOk(s'.table) && s' == s.(table := s'.table)
  }

  /** The client fetches up to k rows; a short page ends the run, otherwise the last row is the next cursor. */
  ghost predicate Fetch(q: Query, k: nat, page: seq<Row>, s: State, s': State) {
    && !s.done && k > 0
    && q.IsPage(s.table, s.args, k, page)
    && s' == State(s.table, s'.args, s.returned + page, s.fetched + 1, |page| < k)
    && (if page == [] then s'.args == s.args else q.v.CursorAt(s'.args, page[|page| - 1]))
  }

  ghost predicate Next(q: Query, s: State, s': State) {
    Change(q, s, s') || exists k, page :: Fetch(q, k, page, s, s')
  }

  /** A step of a client that always asks for k rows. */
  ghost predicate NextBy(q: Query, k: nat, s: State, s': State) {
    Change(q, s, s') || exists page :: Fetch(q, k, page, s, s')
  }

  /** A finite run from the first page on. */
  ghost predicate IsRun(q: Query, run: seq<State>) {
    && run != [] && Init(q, run[0])
    && forall i :: 0 <= i < |run| - 1 ==> Next(q, run[i], run[i + 1])
  }

  /** Everything the client has received at the end of a run, in order. */
  ghost function Returned(run: seq<State>): seq<Row>
    requires run != []
  {
    run[|run| - 1].returned
  }

  ghost predicate DistinctKeys(q: Query, rows: seq<Row>) {
    forall i, j :: 0 <= i < j < |rows| ==> q.Key(rows[i]) != q.Key(rows[j])
  }

  ghost predicate Increasing(q: Query, rows: seq<Row>) {
    forall i, j :: 0 <= i < j < |rows| ==> q.Before(rows[i], rows[j])
  }

  /** What every step keeps. */
  ghost predicate Inv(q: Query, s: State) {
    && q.TableOk(s.table)
    && Increasing(q, s.returned)
    && (forall r <- s.returned :: q.v.Conforms(r))
    && (if s.returned == [] then q.v.FirstPage(s.args) else q.v.CursorAt(s.args, s.returned[|s.returned| - 1]))
  }

  /** A row not yet passed by the cursor, or already returned under its sort key. */
  ghost predicate Accounted(q: Query, s: State, r: Row) {
    || (exists i :: 0 <= i < |s.returned| && q.Key(s.returned[i]) == q.Key(r))
    || (!s.done && forall p <- s.returned :: q.Before(p, r))
  }

  // ---- One page ----

  lemma CursorIsNeverNull(q: Query, args: Args, at: Row)
    requires q.Pageable() && q.v.Conforms(at) && q.v.CursorAt(args, at)
    ensures !q.v.FirstPage(args)
  {
    var last := q.v.columns[|q.v.columns| - 1];
    assert last in q.v.columns;
  }

  /** In a reachable state the statement selects exactly the rows after everything returned so far. */
  lemma SelectsTheRest(q: Query, s: State, r: Row)
    requires q.Pageable() && Inv(q, s) && q.v.Conforms(r)
    ensures q.v.Selects(s.args, r) <==> forall p <- s.returned :: q.Before(p, r)
  {
    if s.returned == [] {
      FirstPageSelectsAll(q.v, s.args, r);
    } else {
      var at := s.returned[|s.returned| - 1];
      CursorIsNeverNull(q, s.args, at);
      SelectsExactlyAfter(q.v, q.d, s.args, r, at);
      if q.Before(at, r) {
        forall p <- s.returned ensures q.Before(p, r) {
          var i :| 0 <= i < |s.returned| && s.returned[i] == p;
          if i < |s.returned| - 1 {
            PrecedesTransitive(q.v.Order(), q.d, p, at, r);
          }
        }
      }
    }
  }

  /** Rows of one table are ordered strictly, tiebreak or not. */
  lemma TableOrder(q: Query, table: set<Row>, r: Row, s: Row)
    requires q.TableOk(table) && r in table && s in table && r != s
    ensures q.Before(r, s) <==> !q.Before(s, r)
    ensures Precedes(q.v.Order() + q.tiebreak, q.d, r, s) <==> q.Before(r, s)
  {
    OrderIsStrictAndTotal(q.v, q.d, r, s, r);
    TiebreakNeverMatters(q.v, q.tiebreak, q.d, r, s);
  }

  lemma PageIsIncreasing(q: Query, table: set<Row>, args: Args, k: nat, page: seq<Row>)
    requires q.TableOk(table) && q.IsPage(table, args, k, page)
    ensures Increasing(q, page)
    ensures forall r <- table, p <- page :: q.v.Selects(args, r) && r !in page ==> q.Before(p, r)
  {
    forall i, j | 0 <= i < j < |page| ensures q.Before(page[i], page[j]) {
      assert page[i] in page && page[j] in page;
      TableOrder(q, table, page[j], page[i]);
    }
    forall r, p | r in table && p in page && q.v.Selects(args, r) && r !in page ensures q.Before(p, r) {
      TableOrder(q, table, r, p);
    }
  }

  // ---- Every step keeps the invariant ----

  lemma FetchKeepsInv(q: Query, k: nat, page: seq<Row>, s: State, s': State)
    requires q.Pageable() && Inv(q, s) && Fetch(q, k, page, s, s')
    ensures Inv(q, s')
  {
    PageIsIncreasing(q, s.table, s.args, k, page);
    forall i, j | 0 <= i < j < |s'.returned| ensures q.Before(s'.returned[i], s'.returned[j]) {
      if i < |s.returned| <= j {
        assert s'.returned[j] in page && s'.returned[i] in s.returned;
        SelectsTheRest(q, s, s'.returned[j]);
      }
    }
  }

  lemma NextKeepsInv(q: Query, s: State, s': State)
    requires q.Pageable() && Inv(q, s) && Next(q, s, s')
    ensures Inv(q, s')
  {
    if !Change(q, s, s') {
      var k, page :| Fetch(q, k, page, s, s');
      FetchKeepsInv(q, k, page, s, s');
    }
  }

  lemma {:induction false} RunKeepsInv(q: Query, run: seq<State>, i: nat)
    requires q.Pageable() && IsRun(q, run) && i < |run|
    ensures Inv(q, run[i])
  {
    if i > 0 {
      RunKeepsInv(q, run, i - 1);
      assert Next(q, run[i - 1], run[i - 1 + 1]);
      NextKeepsInv(q, run[i - 1], run[i]);
    }
  }

  // ---- Nothing is returned twice ----

  lemma KeyDecidesOrder(q: Query, r: Row, r': Row, s: Row)
    requires q.Key(r) == q.Key(r')
    ensures q.Before(r, s) <==> q.Before(r', s)
    ensures q.Before(s, r) <==> q.Before(s, r')
  {
    assert forall i :: 0 <= i < |q.v.columns| ==>
      Get(r, q.v.columns[i]) == q.Key(r)[i] == q.Key(r')[i] == Get(r', q.v.columns[i]);
    SameCellsSameOrder(q.v.Order(), q.d, r, r', s);
  }

  lemma {:induction false} SameCellsSameOrder(terms: seq<OrderTerm>, d: Dialect, r: Row, r': Row, s: Row)
    requires forall i :: 0 <= i < |terms| ==> Get(r, terms[i].column) == Get(r', terms[i].column)
    ensures Precedes(terms, d, r, s) <==> Precedes(terms, d, r', s)
    ensures Precedes(terms, d, s, r) <==> Precedes(terms, d, s, r')
  {
    if terms != [] {
      SameCellsSameOrder(terms[1..], d, r, r', s);
    }
  }

  /** Whatever happens to the table, no sort key is ever returned twice, and rows come in order. */
  lemma NothingTwice(q: Query, run: seq<State>)
    requires q.Pageable() && IsRun(q, run)
    ensures Increasing(q, Returned(run)) && DistinctKeys(q, Returned(run))
  {
    RunKeepsInv(q, run, |run| - 1);
    var rows := run[|run| - 1].returned;
    forall i, j | 0 <= i < j < |rows| ensures q.Key(rows[i]) != q.Key(rows[j]) {
      if q.Key(rows[i]) == q.Key(rows[j]) {
        KeyDecidesOrder(q, rows[i], rows[j], rows[j]);
        PrecedesIrreflexive(q.v.Order(), q.d, rows[j]);
      }
    }
  }

  /** Every page that returns something moves the cursor strictly forward. */
  lemma CursorAdvances(q: Query, run: seq<State>, i: nat, k: nat, page: seq<Row>)
    requires q.Pageable() && IsRun(q, run) && i + 1 < |run|
    requires Fetch(q, k, page, run[i], run[i + 1]) && page != [] && run[i].returned != []
    ensures var before, after := run[i].returned, run[i + 1].returned;
            && q.v.CursorAt(run[i].args, before[|before| - 1])
            && q.v.CursorAt(run[i + 1].args, after[|after| - 1])
            && q.Before(before[|before| - 1], after[|after| - 1])
  {
    RunKeepsInv(q, run, i);
    RunKeepsInv(q, run, i + 1);
    var before, after := run[i].returned, run[i + 1].returned;
    assert before[|before| - 1] == after[|before| - 1];
  }

  // ---- Nothing is missed ----

  lemma FetchKeepsAccounted(q: Query, k: nat, page: seq<Row>, s: State, s': State, r: Row)
    requires q.Pageable() && Inv(q, s) && Fetch(q, k, page, s, s') && r in s.table && Accounted(q, s, r)
    ensures Accounted(q, s', r)
  {
    if i :| 0 <= i < |s.returned| && q.Key(s.returned[i]) == q.Key(r) {
      assert s'.returned[i] == s.returned[i];
    } else {
      SelectsTheRest(q, s, r);
      PageIsIncreasing(q, s.table, s.args, k, page);
      if r in page {
        var j :| 0 <= j < |page| && page[j] == r;
        assert s'.returned[|s.returned| + j] == r;
      } else {
        forall p <- s'.returned ensures q.Before(p, r) {
          assert p in s.returned || p in page;
        }
      }
    }
  }

  /** A sort key held by some row of every table of the run. */
  ghost predicate PresentThroughout(q: Query, run: seq<State>, key: seq<Cell>) {
    forall i :: 0 <= i < |run| ==> exists r <- run[i].table :: q.Key(r) == key
  }

  lemma AccountedByKey(q: Query, s: State, r: Row, r': Row)
    requires q.Key(r) == q.Key(r') && Accounted(q, s, r)
    ensures Accounted(q, s, r')
  {
    if forall p <- s.returned :: q.Before(p, r) {
      forall p <- s.returned ensures q.Before(p, r') {
        KeyDecidesOrder(q, r, r', p);
      }
    }
  }

  lemma {:induction false} RunAccounts(q: Query, run: seq<State>, key: seq<Cell>, i: nat, r: Row)
    requires q.Pageable() && IsRun(q, run) && i < |run|
    requires PresentThroughout(q, run, key) && r in run[i].table && q.Key(r) == key
    ensures Accounted(q, run[i], r)
  {
    if i > 0 {
      var s, s' := run[i - 1], run[i];
      var r0 :| r0 in s.table && q.Key(r0) == key;
      RunAccounts(q, run, key, i - 1, r0);
      assert Next(q, run[i - 1], run[i - 1 + 1]);
      if Change(q, s, s') {
        AccountedByKey(q, s', r0, r);
      } else {
        var k, page :| Fetch(q, k, page, s, s');
        RunKeepsInv(q, run, i - 1);
        FetchKeepsAccounted(q, k, page, s, s', r0);
        AccountedByKey(q, s', r0, r);
      }
    }
  }

  /**
    Once a short page has ended the run, every sort key that was in the table from the
    first page to the last has been returned exactly once.
   */
  lemma NothingMissed(q: Query, run: seq<State>, key: seq<Cell>)
    requires q.Pageable() && IsRun(q, run) && run[|run| - 1].done && PresentThroughout(q, run, key)
    ensures var rows := Returned(run);
            exists i :: 0 <= i < |rows| && q.Key(rows[i]) == key
                     && forall j :: 0 <= j < |rows| && q.Key(rows[j]) == key ==> j == i
  {
    var r :| r in run[|run| - 1].table && q.Key(r) == key;
    RunAccounts(q, run, key, |run| - 1, r);
    NothingTwice(q, run);
  }

  // ---- An unchanged table ----

  /** The whole result of the statement without cursor and limit. */
  ghost predicate IsFullResult(q: Query, table: set<Row>, rows: seq<Row>) {
    && (forall r :: r in rows <==> r in table)
    && (forall i, j :: 0 <= i < j < |rows| ==>
          rows[i] != rows[j] && !Precedes(q.v.Order() + q.tiebreak, q.d, rows[j], rows[i]))
  }

  lemma {:induction false} IncreasingIsUnique(q: Query, a: seq<Row>, b: seq<Row>)
    requires Increasing(q, a) && Increasing(q, b) && forall r :: r in a <==> r in b
    ensures a == b
  {
    assert b != [] ==> b[0] in b;
    if a != [] {
      assert a[0] in b;
      var i :| 0 <= i < |b| && b[i] == a[0];
      assert b[0] in b && b[0] in a;
      var j :| 0 <= j < |a| && a[j] == b[0];
      if a[0] != b[0] {
        PrecedesTransitive(q.v.Order(), q.d, a[0], b[0], a[0]);
        PrecedesIrreflexive(q.v.Order(), q.d, a[0]);
        assert false;
      }
      forall r ensures r in a[1..] <==> r in b[1..] {
        PrecedesIrreflexive(q.v.Order(), q.d, r);
        assert r in a <==> r == a[0] || r in a[1..];
        assert r in b <==> r == b[0] || r in b[1..];
      }
      IncreasingIsUnique(q, a[1..], b[1..]);
      assert a == [a[0]] + a[1..] && b == [b[0]] + b[1..];
    }
  }

  lemma {:induction false} ReturnedAreRows(q: Query, run: seq<State>, i: nat)
    requires q.Pageable() && IsRun(q, run) && i < |run|
    requires forall j :: 0 <= j < |run| ==> run[j].table == run[0].table
    ensures forall r <- run[i].returned :: r in run[0].table
  {
    if i > 0 {
      ReturnedAreRows(q, run, i - 1);
      assert Next(q, run[i - 1], run[i - 1 + 1]);
    }
  }

  /** On a table that does not change, the pages of a finished run concatenate to the full ORDER BY result. */
  lemma PagesAreTheFullResult(q: Query, run: seq<State>, rows: seq<Row>)
    requires q.Pageable() && IsRun(q, run) && run[|run| - 1].done
    requires forall j :: 0 <= j < |run| ==> run[j].table == run[0].table
    requires IsFullResult(q, run[0].table, rows)
    ensures run[|run| - 1].returned == rows
  {
    var n, table := |run| - 1, run[0].table;
    RunKeepsInv(q, run, n);
    ReturnedAreRows(q, run, n);
    forall r <- table ensures r in run[n].returned {
      assert PresentThroughout(q, run, q.Key(r)) by {
        assert forall i :: 0 <= i < |run| ==> r in run[i].table;
      }
      RunAccounts(q, run, q.Key(r), n, r);
      var i :| 0 <= i < |run[n].returned| && q.Key(run[n].returned[i]) == q.Key(r);
      SameKeySameRow(q, table, run[n].returned[i], r);
    }
    forall i, j | 0 <= i < j < |rows| ensures q.Before(rows[i], rows[j]) {
      assert rows[i] in rows && rows[j] in rows;
      TableOrder(q, table, rows[j], rows[i]);
    }
    IncreasingIsUnique(q, run[n].returned, rows);
  }

  lemma SameKeySameRow(q: Query, table: set<Row>, r: Row, s: Row)
    requires q.TableOk(table) && r in table && s in table && q.Key(r) == q.Key(s)
    ensures r == s
  {
    var n := |q.v.columns| - 1;
    assert Get(r, q.v.columns[n]) == q.Key(r)[n] == q.Key(s)[n] == Get(s, q.v.columns[n]);
  }

  lemma {:induction false} DistinctRowsFit(rows: seq<Row>, table: set<Row>)
    requires forall r <- rows :: r in table
    requires forall i, j :: 0 <= i < j < |rows| ==> rows[i] != rows[j]
    ensures |rows| <= |table|
  {
    if rows != [] {
      DistinctRowsFit(rows[1..], table - {rows[0]});
    }
  }

  lemma {:induction false} FullPagesAddUp(q: Query, run: seq<State>, k: nat, i: nat)
    requires k > 0 && IsRun(q, run) && i < |run|
    requires forall j :: 0 <= j < |run| - 1 ==> NextBy(q, k, run[j], run[j + 1])
    ensures if run[i].done then run[i].fetched > 0 && (run[i].fetched - 1) * k <= |run[i].returned|
            else |run[i].returned| == run[i].fetched * k
  {
    if i > 0 {
      FullPagesAddUp(q, run, k, i - 1);
      var s, s' := run[i - 1], run[i - 1 + 1];
      if page :| Fetch(q, k, page, s, s') {
        assert |s'.returned| == |s.returned| + |page|;
      }
    }
  }

  /** On a table that does not change, paging with size k takes at most |table| / k + 1 pages. */
  lemma PagesAreBounded(q: Query, run: seq<State>, k: nat)
    requires q.Pageable() && k > 0 && IsRun(q, run)
    requires forall j :: 0 <= j < |run| ==> run[j].table == run[0].table
    requires forall j :: 0 <= j < |run| - 1 ==> NextBy(q, k, run[j], run[j + 1])
    ensures var s := run[|run| - 1];
            && s.fetched <= |s.table| / k + 1
            && (s.fetched == |s.table| / k + 1 ==> s.done)
  {
    var s := run[|run| - 1];
    FullPagesAddUp(q, run, k, |run| - 1);
    ReturnedAreRows(q, run, |run| - 1);
    NothingTwice(q, run);
    DistinctRowsFit(s.returned, s.table);
    QuotientBound(if s.done then s.fetched - 1 else s.fetched, k, |s.table|);
  }

  lemma QuotientBound(n: nat, k: nat, size: nat)
    requires k > 0 && n * k <= size
    ensures n <= size / k
  {
    var m := size / k + 1;
    assert m * k > size;
    assert m <= n ==> n * k == m * k + (n - m) * k;
  }

  // ---- A fetch is always possible ----

  lemma {:induction false} Minimum(q: Query, table: set<Row>, rows: set<Row>) returns (m: Row)
    requires q.TableOk(table) && rows <= table && rows != {}
    ensures m in rows && forall r <- rows :: r != m ==> q.Before(m, r)
    decreases rows
  {
    var r :| r in rows;
    m := r;
    if rows != {r} {
      var rest := rows - {r};
      assert rows == rest + {r};
      m := Minimum(q, table, rest);
      TableOrder(q, table, m, r);
      if q.Before(r, m) {
        forall x | x in rest && x != m ensures q.Before(r, x) {
          PrecedesTransitive(q.v.Order(), q.d, r, m, x);
        }
        m := r;
      }
    }
  }

  lemma MinimumFirst(q: Query, rows: set<Row>, m: Row, rest: seq<Row>)
    requires m in rows && (forall r <- rows :: r != m ==> q.Before(m, r)) && Increasing(q, rest)
    requires forall r <- rest :: r in rows - {m}
    ensures Increasing(q, [m] + rest) && forall r <- [m] + rest :: r in rows
  {
    hide Precedes, OrderByClause;
    var page := [m] + rest;
    assert forall j :: 0 < j < |page| ==> page[j] in rest && page[j] == rest[j - 1];
  }

  lemma {:induction false} SortedPrefix(q: Query, table: set<Row>, rows: set<Row>, k: nat) returns (page: seq<Row>)
    requires q.TableOk(table) && rows <= table
    ensures |page| <= k && Increasing(q, page)
    ensures forall r <- page :: r in rows
    ensures forall r <- rows :: r !in page ==> |page| == k && forall p <- page :: q.Before(p, r)
    decreases k
  {
    hide Precedes, OrderByClause;
    page := [];
    if k > 0 && rows != {} {
      var m := Minimum(q, table, rows);
      var rest := SortedPrefix(q, table, rows - {m}, k - 1);
      page := [m] + rest;
      MinimumFirst(q, rows, m, rest);
    }
  }

  /** The columns are bound to different cursor arguments. */
  ghost predicate BoundApart(q: Query)
    requires forall c <- q.v.columns :: c in q.v.cursor
  {
    forall c <- q.v.columns, c' <- q.v.columns :: q.v.cursor[c] == q.v.cursor[c'] ==> c == c'
  }

  ghost predicate CanFetch(q: Query, s: State, k: nat) {
    exists page, s' :: Fetch(q, k, page, s, s')
  }

  /** A client that keeps the invariant can always get its next page, and a cursor to go on with. */
  ghost predicate AlwaysFetches(q: Query) {
    forall s: State, k: nat :: Inv(q, s) && !s.done && k > 0 ==> CanFetch(q, s, k)
  }

  /** In every state of an unfinished run the statement has a result, and some arguments carry its cursor on. */
  lemma FetchIsEnabled(q: Query, s: State, k: nat) returns (page: seq<Row>, s': State)
    requires q.Pageable() && Inv(q, s) && !s.done && k > 0 && BoundApart(q)
    ensures Fetch(q, k, page, s, s')
  {
    var order := q.v.Order() + q.tiebreak;
    var matched := set r | r in s.table && q.v.Selects(s.args, r);
    page := SortedPrefix(q, s.table, matched, k);
    forall i, j | 0 <= i < j < |page| ensures page[i] != page[j] && !Precedes(order, q.d, page[j], page[i]) {
      PrecedesIrreflexive(q.v.Order(), q.d, page[i]);
      assert page[i] in matched && page[j] in matched;
      TableOrder(q, s.table, page[j], page[i]);
    }
    forall r, p | r in matched && r !in page && p in page ensures !Precedes(order, q.d, r, p) {
      TableOrder(q, s.table, r, p);
    }
    assert q.IsPage(s.table, s.args, k, page);
    var args := s.args;
    if page != [] {
      args := ArgsFor(q, page[|page| - 1], q.v.columns);
    }
    s' := State(s.table, args, s.returned + page, s.fetched + 1, |page| < k);
  }

  lemma {:induction false} ArgsFor(q: Query, row: Row, columns: seq<string>) returns (args: Args)
    requires forall c <- columns :: c in q.v.cursor
    requires forall c <- columns, c' <- columns :: q.v.cursor[c] == q.v.cursor[c'] ==> c == c'
    ensures forall c <- columns :: Get(args, Arg(q.v.cursor, c).name) == Get(row, c)
  {
    if columns == [] {
      args := map[];
    } else {
      args := ArgsFor(q, row, columns[1..]);
      args := args[q.v.cursor[columns[0]] := Get(row, columns[0])];
      forall c <- columns ensures Get(args, Arg(q.v.cursor, c).name) == Get(row, c) {
        assert c == columns[0] || c in columns[1..];
      }
    }
  }

  lemma OnlyPage(q: Query, row: Row, args: Args, page: seq<Row>)
    requires q.IsPage({row}, args, 1, page) && q.v.Selects(args, row)
    ensures page == [row]
  {
    assert row in {row};
    assert page != [] && page[0] in page;
  }

  lemma NoCursorAt(q: Query, args: Args, row: Row, c: string, c': string)
    requires c in q.v.columns && c' in q.v.columns && Get(row, c) != Get(row, c')
    requires c in q.v.cursor && c' in q.v.cursor && q.v.cursor[c] == q.v.cursor[c']
    ensures !q.v.CursorAt(args, row)
  {
  }

  /** A row that differs in two columns bound to one argument leaves no cursor to go on with. */
  lemma SharedArgumentStops(q: Query, c: string, c': string)
    requires q.Pageable() && c in q.v.columns && c' in q.v.columns && c != c' && q.v.cursor[c] == q.v.cursor[c']
    ensures !AlwaysFetches(q)
  {
    var row: Row := map x | x in q.v.columns :: if x == c then Val(1) else Val(2);
    var s := State({row}, map[], [], 0, false);
    FirstPageSelectsAll(q.v, s.args, row);
    assert Inv(q, s);
    forall page, s' ensures !Fetch(q, 1, page, s, s') {
      NoCursorAt(q, s'.args, row, c, c');
      if q.IsPage({row}, s.args, 1, page) {
        OnlyPage(q, row, s.args, page);
      }
    }
    assert !CanFetch(q, s, 1);
  }

  /** The next page and its cursor always exist exactly when no two columns share a cursor argument. */
  lemma FetchesExactlyWhen(q: Query)
    requires q.Pageable()
    ensures AlwaysFetches(q) <==> BoundApart(q)
  {
    if BoundApart(q) {
      forall s: State, k: nat | Inv(q, s) && !s.done && k > 0 ensures CanFetch(q, s, k) {
        var page, s' := FetchIsEnabled(q, s, k);
      }
    } else {
      var c, c' :| c in q.v.columns && c' in q.v.columns && q.v.cursor[c] == q.v.cursor[c'] && c != c';
      SharedArgumentStops(q, c, c');
    }
  }

  // ---- The condition on the last column is needed ----

  /** No run returns a sort key twice. */
  ghost predicate NeverRepeats(q: Query) {
    forall run: seq<State> :: IsRun(q, run) ==> DistinctKeys(q, Returned(run))
  }

  /** The two-page run over a table holding nothing but a null returns it twice. */
  lemma NullRowRepeats(q: Query)
    requires q.v.Accepted() && q.v.CursorCanVanish()
    ensures !NeverRepeats(q)
  {
    var row: Row := map[];
    var args: Args := map[];
    FirstPageSelectsAll(q.v, args, row);
    assert q.IsPage({row}, args, 1, [row]);
    var s0 := State({row}, args, [], 0, false);
    var s1 := State({row}, args, [] + [row], 1, false);
    var s2 := State({row}, args, [] + [row] + [row], 2, false);
    RefetchesRow(q, row, s0, s1);
    RefetchesRow(q, row, s1, s2);
    var run := [s0, s1, s2];
    assert IsRun(q, run);
    assert !DistinctKeys(q, Returned(run)) by {
      assert Returned(run)[0] == Returned(run)[1];
    }
  }

  lemma RefetchesRow(q: Query, row: Row, s: State, s': State)
    requires q.IsPage({row}, s.args, 1, [row]) && q.v.CursorAt(s.args, row) && !s.done && s.table == {row}
    requires s' == State({row}, s.args, s.returned + [row], s.fetched + 1, false)
    ensures Next(q, s, s')
  {
    assert Fetch(q, 1, [row], s, s');
  }

  /**
    Of the statements an accepted spec produces, those that never repeat a key are exactly
    those whose cursor cannot vanish.
   */
  lemma NeverRepeatsExactlyWhen(q: Query)
    requires q.v.Accepted() && q.v.columns != []
    ensures NeverRepeats(q) <==> !q.v.CursorCanVanish()
  {
    if q.v.CursorCanVanish() {
      NullRowRepeats(q);
    } else {
      forall run: seq<State> | IsRun(q, run)
        ensures DistinctKeys(q, Returned(run))
      {
        NothingTwice(q, run);
      }
    }
  }
}
