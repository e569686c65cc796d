/** PostgreSQL types as the fetcher builds them, and the catalog they come from. */
module PgTypes {
  import opened Text

  /** pg_type.oid */
  type Oid = nat

  /**
    A composite type holds its column types in an array that all copies of the type share.
    A placeholder stands for a type that is not known yet. The element of an array type that
    pggen knows beforehand is absent.
   */
  datatype PgType =
    | Base(oid: Oid)
    | Enum(oid: Oid)
    | Unknown(oid: Oid)
    | Array(oid: Oid, elem: Option<PgType>)
    | Composite(oid: Oid, columns: Columns)
    | Placeholder(oid: Oid)

  type Columns = array<PgType>

  /** What the catalog says of each type, and the types pggen knows beforehand. */
  datatype Catalog = Catalog(
    known: map<Oid, PgType>, enums: set<Oid>, composites: map<Oid, seq<Oid>>, arrays: map<Oid, Oid>, names: set<Oid>)
  {
    /** The types that a type is made of. */
    function Children(o: Oid): seq<Oid> {
      if o in known || o in enums then []
      else if o in composites then composites[o]
      else if o in arrays then [arrays[o]]
      else []
    }

    /** The type reached by choosing children, as long as there are any. */
    function Walk(o: Oid, path: seq<nat>): Oid
      decreases |path|
    {
      if path == [] || path[0] >= |Children(o)| then o else Walk(Children(o)[path[0]], path[1..])
    }

    ghost predicate Acyclic(rank: Oid -> nat) {
      forall o, c :: c in Children(o) ==> rank(c) < rank(o)
    }

    /** Types known beforehand are simple, or arrays whose element is left out. */
    ghost predicate KnowsSimpleTypes() {
      forall o :: o in known ==> known[o].oid == o && (known[o].Base? || known[o] == Array(o, None))
    }
  }

  /** Which composite type each column array belongs to. */
  type Owners = map<Columns, Oid>

  /** The type is of the kind that the first query to find its OID reports. */
  ghost predicate IsOfKind(cat: Catalog, t: PgType) {
    match t
    case Base(o) => o in cat.known
    case Array(o, None) => o in cat.known
    case Enum(o) => o in cat.enums && o !in cat.known
    case Composite(o, _) => o in cat.composites && o !in cat.enums && o !in cat.known
    case Array(o, Some(e)) => o in cat.arrays && e.oid == cat.arrays[o] && cat.Children(o) == [e.oid]
    case Unknown(o) => o in cat.names && o !in cat.enums && o !in cat.known && cat.Children(o) == []
    case Placeholder(_) => true
  }

  /** The type agrees with the catalog, as far as can be seen without looking into column arrays. */
  ghost predicate Fits(cat: Catalog, owners: Owners, t: PgType) {
    && IsOfKind(cat, t)
    && match t
       case Composite(o, cols) => cols in owners && owners[cols] == o
       case Array(_, Some(e)) => !e.Placeholder? && Fits(cat, owners, e)
       case _ => true
  }

  ghost predicate ColumnsFit(cat: Catalog, owners: Owners, o: Oid, cols: seq<PgType>) {
    && |cols| == |cat.Children(o)|
    && forall i :: 0 <= i < |cols| ==> cols[i].oid == cat.Children(o)[i] && Fits(cat, owners, cols[i])
  }

  ghost predicate TypesFit(cat: Catalog, owners: Owners, types: map<Oid, PgType>) {
    forall o :: o in types ==> types[o].oid == o && !types[o].Placeholder? && Fits(cat, owners, types[o])
  }

  lemma {:induction false} FitsMore(cat: Catalog, owners: Owners, owners': Owners, t: PgType)
    requires Fits(cat, owners, t) && forall a :: a in owners ==> a in owners' && owners'[a] == owners[a]
    ensures Fits(cat, owners', t)
  {
    match t
    case Array(_, Some(e)) => FitsMore(cat, owners, owners', e);
    case _ =>
  }

  /** The contents of all column arrays at some moment. */
  type Snapshot = map<Columns, seq<PgType>>

  /** Between the two moments, the only changes were placeholders replaced by the types they stand for. */
  ghost predicate Patched(before: Snapshot, after: Snapshot, types: map<Oid, PgType>) {
    && before.Keys == after.Keys
    && forall a :: a in before ==> |after[a]| == |before[a]| && forall i :: 0 <= i < |before[a]| ==>
       PatchedAt(before[a][i], after[a][i], types)
  }

  ghost predicate PatchedAt(x: PgType, y: PgType, types: map<Oid, PgType>) {
    y == x || (x.Placeholder? && x.oid in types && y == types[x.oid])
  }

  lemma PatchedTwice(a: Snapshot, b: Snapshot, c: Snapshot, types: map<Oid, PgType>)
    requires Patched(a, b, types) && Patched(b, c, types)
    requires forall o :: o in types ==> !types[o].Placeholder?
    ensures Patched(a, c, types)
  {
    forall x | x in a ensures |c[x]| == |a[x]| && forall i :: 0 <= i < |a[x]| ==> PatchedAt(a[x][i], c[x][i], types) {
      forall i | 0 <= i < |a[x]| ensures PatchedAt(a[x][i], c[x][i], types) {
        assert PatchedAt(a[x][i], b[x][i], types) && PatchedAt(b[x][i], c[x][i], types);
      }
    }
  }

  ghost predicate Full(cols: seq<PgType>) {
    forall i :: 0 <= i < |cols| ==> !cols[i].Placeholder?
  }

  /** The columns of the type, or of the type its elements have, are all known. */
  ghost predicate Finished(snap: Snapshot, t: PgType) {
    match t
    case Composite(_, cols) => cols in snap && Full(snap[cols])
    case Array(_, Some(e)) => Finished(snap, e)
    case _ => true
  }

  lemma {:induction false} FinishedStays(before: Snapshot, after: Snapshot, types: map<Oid, PgType>, t: PgType)
    requires Patched(before, after, types) && Finished(before, t)
    ensures Finished(after, t)
  {
    match t
    case Composite(_, cols) =>
      forall i | 0 <= i < |after[cols]| ensures !after[cols][i].Placeholder? {
        assert PatchedAt(before[cols][i], after[cols][i], types);
      }
    case Array(_, Some(e)) => FinishedStays(before, after, types, e);
    case _ =>
  }

  /** All column arrays agree with the catalog. */
  ghost predicate AllFit(cat: Catalog, owners: Owners, snap: Snapshot) {
    && snap.Keys == owners.Keys
    && forall a :: a in owners ==> ColumnsFit(cat, owners, owners[a], snap[a])
  }

  lemma PatchKeepsFit(cat: Catalog, owners: Owners, before: Snapshot, after: Snapshot, types: map<Oid, PgType>)
    requires AllFit(cat, owners, before) && TypesFit(cat, owners, types) && Patched(before, after, types)
    ensures AllFit(cat, owners, after)
  {
    hide Fits;
    forall a | a in owners ensures ColumnsFit(cat, owners, owners[a], after[a]) {
      assert ColumnsFit(cat, owners, owners[a], before[a]);
      forall i | 0 <= i < |after[a]|
        ensures after[a][i].oid == cat.Children(owners[a])[i] && Fits(cat, owners, after[a][i])
      {
        assert PatchedAt(before[a][i], after[a][i], types);
      }
    }
  }

  /** Some column is a placeholder for a type that is not among the given ones. */
  ghost predicate Stuck(snap: Snapshot, types: map<Oid, PgType>) {
    exists a, i :: a in snap && 0 <= i < |snap[a]| && snap[a][i].Placeholder? && snap[a][i].oid !in types
  }

  lemma StuckBefore(before: Snapshot, after: Snapshot, types: map<Oid, PgType>)
    requires Patched(before, after, types) && Stuck(after, types) && forall o :: o in types ==> !types[o].Placeholder?
    ensures Stuck(before, types)
  {
    var a, i :| a in after && 0 <= i < |after[a]| && after[a][i].Placeholder? && after[a][i].oid !in types;
    assert PatchedAt(before[a][i], after[a][i], types);
    assert before[a][i] == after[a][i];
  }

  lemma NothingPatched(snap: Snapshot, types: map<Oid, PgType>)
    ensures Patched(snap, snap, types)
  {
    forall a | a in snap ensures forall i :: 0 <= i < |snap[a]| ==> PatchedAt(snap[a][i], snap[a][i], types) {
    }
  }

  lemma PatchOne(snap: Snapshot, a: Columns, i: nat, t: PgType, types: map<Oid, PgType>)
    requires a in snap && i < |snap[a]| && PatchedAt(snap[a][i], t, types)
    ensures Patched(snap, snap[a := snap[a][i := t]], types)
  {
    var after := snap[a := snap[a][i := t]];
    forall b, j | b in snap && 0 <= j < |snap[b]| ensures PatchedAt(snap[b][j], after[b][j], types) {
    }
  }

  /** The next column of an array with its first i columns known, resolved and stored. */
  lemma StoreColumn(before: Snapshot, mid: Snapshot, a: Columns, i: nat, t: PgType, types: map<Oid, PgType>)
    requires Patched(before, mid, types) && a in before && i < |before[a]| && Full(before[a][..i])
    requires forall o :: o in types ==> !types[o].Placeholder?
    requires PatchedAt(before[a][i], t, types) && !t.Placeholder?
    ensures a in mid && |mid[a]| == |before[a]|
    ensures var after := mid[a := mid[a][i := t]]; Patched(before, after, types) && Full(after[a][..i + 1])
  {
    assert PatchedAt(before[a][i], mid[a][i], types);
    PatchOne(mid, a, i, t, types);
    var after := mid[a := mid[a][i := t]];
    PatchedTwice(before, mid, after, types);
    forall j | 0 <= j < i ensures !after[a][j].Placeholder? {
      assert PatchedAt(before[a][j], after[a][j], types) && before[a][..i][j] == before[a][j];
    }
  }

  lemma ResolvedAt(t: PgType, r: PgType, types: map<Oid, PgType>)
    requires r == if t.Placeholder? && t.oid in types then types[t.oid] else t
    ensures PatchedAt(t, r, types)
  {
  }

  lemma FitsHasNoPlaceholder(cat: Catalog, owners: Owners, types: map<Oid, PgType>)
    requires TypesFit(cat, owners, types)
    ensures forall o :: o in types ==> !types[o].Placeholder?
  {
  }

  lemma StuckColumn(snap: Snapshot, a: Columns, i: nat, types: map<Oid, PgType>)
    requires a in snap && i < |snap[a]| && snap[a][i].Placeholder? && snap[a][i].oid !in types
    ensures Stuck(snap, types)
  {
  }

  lemma ColumnFits(cat: Catalog, owners: Owners, snap: Snapshot, a: Columns, i: nat)
    requires AllFit(cat, owners, snap) && a in owners && i < |snap[a]|
    ensures Fits(cat, owners, snap[a][i]) && snap[a][i].oid in cat.Children(owners[a])
  {
    assert ColumnsFit(cat, owners, owners[a], snap[a]);
  }

  // ---- Adding types ----

  function Oids(found: seq<PgType>): set<Oid> {
    set k | 0 <= k < |found| :: found[k].oid
  }

  lemma OidsStep(found: seq<PgType>, i: nat)
    requires i < |found|
    ensures Oids(found[..i + 1]) == Oids(found[..i]) + {found[i].oid}
  {
    forall o | o in Oids(found[..i + 1]) ensures o in Oids(found[..i]) + {found[i].oid} {
      var k :| 0 <= k < i + 1 && found[..i + 1][k].oid == o;
      assert k < i ==> found[..i][k] == found[k];
    }
    forall o | o in Oids(found[..i]) + {found[i].oid} ensures o in Oids(found[..i + 1]) {
      if o in Oids(found[..i]) {
        var k :| 0 <= k < i && found[..i][k].oid == o;
        assert found[..i + 1][k].oid == o;
      } else {
        assert found[..i + 1][i].oid == o;
      }
    }
  }

  /** The map with the types found stored under their OIDs. */
  function Added(m: map<Oid, PgType>, found: seq<PgType>): map<Oid, PgType> {
    if found == [] then m
    else
      var n := |found| - 1;
      Added(m, found[..n])[found[n].oid := found[n]]
  }

  lemma {:induction false} AddedHas(m: map<Oid, PgType>, found: seq<PgType>)
    ensures Added(m, found).Keys == m.Keys + Oids(found)
    ensures forall o :: o in m && o !in Oids(found) ==> Added(m, found)[o] == m[o]
    ensures forall o :: o in Oids(found) ==>
            exists k :: 0 <= k < |found| && found[k].oid == o && Added(m, found)[o] == found[k]
  {
    if found != [] {
      var n := |found| - 1;
      AddedHas(m, found[..n]);
      OidsStep(found, n);
      assert found[..n + 1] == found;
      forall o | o in Oids(found)
        ensures exists k :: 0 <= k < |found| && found[k].oid == o && Added(m, found)[o] == found[k]
      {
        if o != found[n].oid {
          var k :| 0 <= k < n && found[..n][k].oid == o && Added(m, found[..n])[o] == found[..n][k];
          assert found[k] == found[..n][k];
        }
      }
    }
  }

  /** The types are those of the cache. */
  ghost predicate Agree(types: map<Oid, PgType>, cache: map<Oid, PgType>) {
    forall o :: o in types ==> o in cache && cache[o] == types[o]
  }

  ghost predicate AllNew(cat: Catalog, owners: Owners, found: seq<PgType>) {
    forall k :: 0 <= k < |found| ==> !found[k].Placeholder? && Fits(cat, owners, found[k])
  }

  lemma AddOne(
    cat: Catalog, owners: Owners, types: map<Oid, PgType>, cache: map<Oid, PgType>, found: seq<PgType>, i: nat)
    requires TypesFit(cat, owners, types) && TypesFit(cat, owners, cache) && Agree(types, cache)
    requires AllNew(cat, owners, found) && i < |found|
    ensures var t := found[i]; var types', cache' := types[t.oid := t], cache[t.oid := t];
            TypesFit(cat, owners, types') && TypesFit(cat, owners, cache') && Agree(types', cache')
  {
    hide Fits;
  }

  /** The columns of a new composite type, as far as the cache knows them. */
  ghost predicate Drafted(cols: seq<PgType>, oids: seq<Oid>, cache: map<Oid, PgType>) {
    && |cols| == |oids|
    && forall i :: 0 <= i < |cols| ==> cols[i] == if oids[i] in cache then cache[oids[i]] else Placeholder(oids[i])
  }

  lemma AddOwner(
    cat: Catalog, owners: Owners, snap: Snapshot, cache: map<Oid, PgType>, a: Columns, o: Oid, cols: seq<PgType>)
    requires AllFit(cat, owners, snap) && TypesFit(cat, owners, cache) && a !in owners
    requires Drafted(cols, cat.Children(o), cache) && IsOfKind(cat, Composite(o, a))
    ensures var owners' := owners[a := o];
            AllFit(cat, owners', snap[a := cols]) && TypesFit(cat, owners', cache[o := Composite(o, a)])
  {
    var owners' := owners[a := o];
    forall t | Fits(cat, owners, t) ensures Fits(cat, owners', t) {
      FitsMore(cat, owners, owners', t);
    }
    forall b | b in owners' ensures ColumnsFit(cat, owners', owners'[b], snap[a := cols][b]) {
      if b != a {
        assert ColumnsFit(cat, owners, owners[b], snap[b]);
      }
    }
  }

  /** The arrays that were not there before belong to the types found, and hold what the cache knew. */
  ghost predicate Built(
    owners0: Owners, owners: Owners, snap: Snapshot, early: set<Oid>, late: set<Oid>, found: seq<PgType>) {
    && (forall a :: a in owners0 ==> a in owners && owners[a] == owners0[a])
    && (forall k :: 0 <= k < |found| ==> found[k].Composite? && found[k].columns !in owners0)
    && forall a :: a in owners && a !in owners0 ==>
       a in snap && Composite(owners[a], a) in found && Placed(snap[a], early, late)
  }

  ghost predicate Placed(cols: seq<PgType>, early: set<Oid>, late: set<Oid>) {
    forall i :: 0 <= i < |cols| ==>
      (cols[i].oid in early ==> !cols[i].Placeholder?) && (cols[i].oid !in late ==> cols[i].Placeholder?)
  }

  lemma AddedStep(m: map<Oid, PgType>, found: seq<PgType>, t: PgType)
    ensures Added(m, found + [t]) == Added(m, found)[t.oid := t]
  {
    assert (found + [t])[..|found|] == found;
  }

  lemma DraftIsPlaced(
    cat: Catalog, owners: Owners, cols: seq<PgType>, oids: seq<Oid>, cache: map<Oid, PgType>, early: set<Oid>, o: Oid)
    requires Drafted(cols, oids, cache) && TypesFit(cat, owners, cache) && early <= cache.Keys
    ensures Placed(cols, early, cache.Keys + {o})
  {
    hide Fits;
  }

  lemma AllNewStep(cat: Catalog, owners: Owners, found: seq<PgType>, a: Columns, o: Oid)
    requires AllNew(cat, owners, found) && a !in owners && IsOfKind(cat, Composite(o, a))
    ensures AllNew(cat, owners[a := o], found + [Composite(o, a)])
  {
    forall k | 0 <= k < |found| ensures Fits(cat, owners[a := o], found[k]) {
      FitsMore(cat, owners, owners[a := o], found[k]);
    }
  }

  lemma BuildOne(
    cat: Catalog, owners0: Owners, owners: Owners, snap: Snapshot, early: set<Oid>, cache: map<Oid, PgType>,
                 found: seq<PgType>, a: Columns, o: Oid, cols: seq<PgType>)
    requires Built(owners0, owners, snap, early, cache.Keys, found) && AllNew(cat, owners, found) && early <= cache.Keys
    requires TypesFit(cat, owners, cache) && a !in owners && Drafted(cols, cat.Children(o), cache)
    requires IsOfKind(cat, Composite(o, a))
    ensures var owners', found' := owners[a := o], found + [Composite(o, a)];
            && Built(owners0, owners', snap[a := cols], early, cache.Keys + {o}, found')
            && AllNew(cat, owners', found')
  {
    hide AllNew, TypesFit, Drafted, Catalog.Children;
    AllNewStep(cat, owners, found, a, o);
    DraftIsPlaced(cat, owners, cols, cat.Children(o), cache, early, o);
    var owners', found' := owners[a := o], found + [Composite(o, a)];
    assert Composite(o, a) == found'[|found|];
    forall b | b in owners' && b !in owners0
      ensures b in snap[a := cols] && Composite(owners'[b], b) in found'
      ensures Placed(snap[a := cols][b], early, cache.Keys + {o})
    {
      if b != a {
        assert Placed(snap[b], early, cache.Keys);
      }
    }
  }

  lemma NothingBuilt(cat: Catalog, owners: Owners, snap: Snapshot, cache: map<Oid, PgType>)
    ensures Built(owners, owners, snap, cache.Keys, cache.Keys, []) && AllNew(cat, owners, [])
    ensures Added(cache, []) == cache && Oids([]) == {}
  {
  }

  ghost predicate DistinctOids(found: seq<PgType>) {
    forall i, j :: 0 <= i < j < |found| ==> found[i].oid != found[j].oid
  }

  lemma AddedIs(m: map<Oid, PgType>, found: seq<PgType>, k: nat)
    requires DistinctOids(found) && k < |found|
    ensures found[k].oid in Added(m, found) && Added(m, found)[found[k].oid] == found[k]
  {
    AddedHas(m, found);
    assert found[k].oid in Oids(found);
  }

  // ---- When a call succeeds ----

  /** The uncached OIDs by the query that finds them. */
  datatype Classes = Classes(enums: set<Oid>, composites: set<Oid>, arrays: set<Oid>, unknowns: set<Oid>) {
    function All(): set<Oid> {
      enums + composites + arrays + unknowns
    }
  }

  function Classify(cat: Catalog, uncached: set<Oid>): Classes {
    var e := uncached * cat.enums;
    var m := (uncached - e) * cat.composites.Keys;
    var a := (uncached - e - m) * cat.arrays.Keys;
    Classes(e, m, a, (uncached - e - m - a) * cat.names)
  }

  /** Everything wanted is found by some query, array elements before their arrays. */
  ghost predicate Resolvable(cat: Catalog, cached: set<Oid>, wanted: set<Oid>) {
    var f := Classify(cat, wanted - cached);
    && wanted - cached <= f.All()
    && ArraysKnown(cat, cached, f) && ColumnsKnown(cat, cached, f)
  }

  /** The element of every new array is cached when the arrays are looked up. */
  ghost predicate ArraysKnown(cat: Catalog, cached: set<Oid>, f: Classes) {
    forall a :: a in f.arrays && a in cat.arrays ==> cat.arrays[a] in cached + f.enums + f.composites
  }

  /** Every column of the new composites is one of the given types. */
  ghost predicate ColumnsIn(cat: Catalog, f: Classes, known: set<Oid>) {
    forall m :: m in f.composites && m in cat.composites ==> forall c <- cat.composites[m] :: c in known
  }

  ghost predicate ColumnsKnown(cat: Catalog, cached: set<Oid>, f: Classes) {
    ColumnsIn(cat, f, cached + f.All())
  }

  /** The column arrays after building the composites. */
  ghost predicate Laid(
    cat: Catalog, owners0: Owners, owners: Owners, snap: Snapshot, cached: set<Oid>, f: Classes, comps: seq<PgType>) {
    && AllFit(cat, owners, snap)
       && Built(owners0, owners, snap, cached + f.enums, cached + f.enums + f.composites, comps)
    && AllNew(cat, owners, comps) && Oids(comps) == f.composites
    && (forall o :: o in f.composites ==> o in cat.composites && cat.Children(o) == cat.composites[o])
  }

  /** The same, and what is known when placeholders are resolved. */
  ghost predicate Ready(cat: Catalog, owners0: Owners, owners: Owners, snap: Snapshot, cached: set<Oid>, f: Classes,
                        comps: seq<PgType>, types: map<Oid, PgType>) {
    && Laid(cat, owners0, owners, snap, cached, f, comps)
    && f.All() <= types.Keys <= cached + f.All()
    && (forall k :: 0 <= k < |comps| ==> comps[k].oid in types && types[comps[k].oid] == comps[k])
  }

  lemma CleanAfter(cat: Catalog, owners0: Owners, owners: Owners, before: Snapshot, after: Snapshot, cached: set<Oid>,
                   f: Classes, comps: seq<PgType>, types: map<Oid, PgType>)
    requires Ready(cat, owners0, owners, before, cached, f, comps, types)
    requires Patched(before, after, types) && forall o :: o in types ==> Finished(after, types[o])
    requires forall a :: a in owners0 ==> a in before && Full(before[a])
    ensures forall a :: a in owners ==> a in after && Full(after[a])
  {
    forall a | a in owners ensures a in after && Full(after[a]) {
      if a in owners0 {
        FinishedStays(before, after, types, Composite(0, a));
      } else {
        var k :| 0 <= k < |comps| && comps[k] == Composite(owners[a], a);
        assert Finished(after, types[comps[k].oid]);
      }
    }
  }

  lemma NotStuck(cat: Catalog, owners0: Owners, owners: Owners, snap: Snapshot, cached: set<Oid>,
                 f: Classes, comps: seq<PgType>, types: map<Oid, PgType>)
    requires Ready(cat, owners0, owners, snap, cached, f, comps, types) && ColumnsKnown(cat, cached, f)
    requires forall a :: a in owners0 ==> a in snap && Full(snap[a])
    ensures !Stuck(snap, types)
  {
    forall a, i | a in snap && 0 <= i < |snap[a]| && snap[a][i].Placeholder? ensures snap[a][i].oid in types {
      assert a in owners && a !in owners0;
      var c := snap[a][i].oid;
      assert Placed(snap[a], cached + f.enums, cached + f.enums + f.composites);
      assert c !in cached + f.enums;
      var k :| 0 <= k < |comps| && comps[k] == Composite(owners[a], a);
      assert owners[a] in Oids(comps);
      ColumnFits(cat, owners, snap, a, i);
      assert c in cat.composites[owners[a]];
    }
  }

  ghost predicate AllFull(owners: Owners, snap: Snapshot) {
    forall a :: a in owners ==> a in snap && Full(snap[a])
  }

  /** A column that is in none of the types is a placeholder, and stays one. */
  lemma UnknownColumnStays(
    cat: Catalog, owners0: Owners, owners: Owners, before: Snapshot, after: Snapshot, cached: set<Oid>,
                           f: Classes, comps: seq<PgType>, types: map<Oid, PgType>, m: Oid, c: Oid) returns (a: Columns)
    requires Laid(cat, owners0, owners, before, cached, f, comps) && Patched(before, after, types)
    requires m in f.composites && m in cat.composites && c in cat.composites[m]
    requires c !in cached + f.enums + f.composites && c !in types
    ensures a in owners && a in after && !Full(after[a]) && Composite(m, a) in comps
  {
    assert m in Oids(comps);
    var k :| 0 <= k < |comps| && comps[k].oid == m;
    a := comps[k].columns;
    assert Fits(cat, owners, comps[k]);
    assert ColumnsFit(cat, owners, m, before[a]);
    var i :| 0 <= i < |cat.composites[m]| && cat.composites[m][i] == c;
    assert before[a][i].oid == c;
    assert Placed(before[a], cached + f.enums, cached + f.enums + f.composites);
    assert PatchedAt(before[a][i], after[a][i], types);
    assert after[a][i].Placeholder?;
  }

  /** Then some column array still holds a placeholder. */
  lemma UnknownColumnIsSeen(
    cat: Catalog, owners0: Owners, owners: Owners, before: Snapshot, after: Snapshot, cached: set<Oid>,
                            f: Classes, comps: seq<PgType>, types: map<Oid, PgType>, known: set<Oid>)
    requires Laid(cat, owners0, owners, before, cached, f, comps) && Patched(before, after, types)
    requires cached + f.enums + f.composites <= known && types.Keys <= known && !ColumnsIn(cat, f, known)
    ensures !AllFull(owners, after)
  {
    hide Laid, Patched, Full;
    var m :| m in f.composites && m in cat.composites && exists c <- cat.composites[m] :: c !in known;
    var c :| c in cat.composites[m] && c !in known;
    var a := UnknownColumnStays(cat, owners0, owners, before, after, cached, f, comps, types, m, c);
  }

  /** If all columns are cached beforehand, no placeholder is ever made. */
  lemma CachedColumnsAreFull(
    cat: Catalog, owners0: Owners, owners: Owners, snap: Snapshot, cached: set<Oid>, f: Classes,
                             comps: seq<PgType>)
    requires Laid(cat, owners0, owners, snap, cached, f, comps) && AllFull(owners0, snap)
    requires ColumnsIn(cat, f, cached + f.enums)
    ensures AllFull(owners, snap)
  {
    forall a | a in owners && a !in owners0 ensures Full(snap[a]) {
      assert Placed(snap[a], cached + f.enums, cached + f.enums + f.composites);
      var k :| 0 <= k < |comps| && comps[k] == Composite(owners[a], a);
      assert owners[a] in Oids(comps);
      forall i | 0 <= i < |snap[a]| ensures !snap[a][i].Placeholder? {
        ColumnFits(cat, owners, snap, a, i);
        assert snap[a][i].oid in cat.composites[owners[a]];
      }
    }
  }

  lemma TypesFitMore(cat: Catalog, owners: Owners, owners': Owners, types: map<Oid, PgType>)
    requires TypesFit(cat, owners, types) && forall a :: a in owners ==> a in owners' && owners'[a] == owners[a]
    ensures TypesFit(cat, owners', types)
  {
    forall o | o in types ensures Fits(cat, owners', types[o]) {
      FitsMore(cat, owners, owners', types[o]);
    }
  }

  lemma AddedNext(m: map<Oid, PgType>, found: seq<PgType>, i: nat)
    requires i < |found|
    ensures Added(m, found[..i + 1]) == Added(m, found[..i])[found[i].oid := found[i]]
  {
    assert found[..i + 1][..i] == found[..i] && found[..i + 1][i] == found[i];
  }

  /** Types stored under other OIDs do not disturb those there before. */
  lemma AgreeStill(types: map<Oid, PgType>, cache: map<Oid, PgType>, found: seq<PgType>)
    requires Agree(types, cache) && types.Keys !! Oids(found)
    ensures Agree(types, Added(cache, found))
  {
    hide Added;
    AddedHas(cache, found);
  }

  lemma CompositesStay(types: map<Oid, PgType>, comps: seq<PgType>, arrs: seq<PgType>, unks: seq<PgType>)
    requires DistinctOids(comps) && Oids(comps) !! Oids(arrs) && Oids(comps) !! Oids(unks)
    ensures var types' := Added(Added(Added(types, comps), arrs), unks);
            forall k :: 0 <= k < |comps| ==> comps[k].oid in types' && types'[comps[k].oid] == comps[k]
  {
    hide Added;
    var one := Added(types, comps);
    var two := Added(one, arrs);
    AddedHas(one, arrs);
    AddedHas(two, unks);
    forall k | 0 <= k < |comps| ensures comps[k].oid in Added(two, unks) && Added(two, unks)[comps[k].oid] == comps[k] {
      AddedIs(types, comps, k);
      assert comps[k].oid in Oids(comps);
    }
  }

  lemma CachedFit(cat: Catalog, owners: Owners, cache: map<Oid, PgType>, types: map<Oid, PgType>)
    requires TypesFit(cat, owners, cache) && forall o :: o in types ==> o in cache && types[o] == cache[o]
    ensures TypesFit(cat, owners, types) && Agree(types, cache)
  {
  }

  lemma BuiltKeeps(owners0: Owners, owners: Owners, snap: Snapshot, early: set<Oid>, late: set<Oid>, found: seq<PgType>)
    requires Built(owners0, owners, snap, early, late, found)
    ensures forall a :: a in owners0 ==> a in owners && owners[a] == owners0[a]
  {
  }

  /** The classes are disjoint, and each OID has the children that its own query reports. */
  lemma ClassifyIs(cat: Catalog, uncached: set<Oid>, cached: set<Oid>)
    requires uncached !! cached && cat.known.Keys <= cached
    ensures var f := Classify(cat, uncached);
            && f.enums == uncached * cat.enums
            && f.composites == (uncached - f.enums) * cat.composites.Keys && uncached - f.enums == uncached - cat.enums
            && f.arrays == (uncached - f.enums - f.composites) * cat.arrays.Keys
            && f.unknowns == (uncached - f.enums - f.composites - f.arrays) * cat.names
            && (forall o :: o in uncached ==> o !in cat.known) && (forall o :: o in uncached - f.enums ==>
               o !in cat.enums)
            && (forall o :: o in f.composites ==> cat.Children(o) == cat.composites[o])
            && (forall o :: o in uncached - f.enums - f.composites && o in cat.arrays ==>
               cat.Children(o) == [cat.arrays[o]])
            && (forall o :: o in uncached - f.enums - f.composites - f.arrays ==> cat.Children(o) == [])
            && cached !! f.composites && f.enums !! f.composites && f.composites !! f.arrays
               && f.composites !! f.unknowns
  {
  }

  lemma IsReady(cat: Catalog, owners0: Owners, owners: Owners, snap: Snapshot, cached: set<Oid>, f: Classes,
                comps: seq<PgType>, types: map<Oid, PgType>)
    requires Laid(cat, owners0, owners, snap, cached, f, comps)
    requires f.All() <= types.Keys <= cached + f.All()
    requires forall k :: 0 <= k < |comps| ==> comps[k].oid in types && types[comps[k].oid] == comps[k]
    ensures Ready(cat, owners0, owners, snap, cached, f, comps, types)
  {
  }

  lemma IsLaid(
    cat: Catalog, owners0: Owners, owners: Owners, snap: Snapshot, cached: set<Oid>, f: Classes, comps: seq<PgType>)
    requires AllFit(cat, owners, snap)
    requires Built(owners0, owners, snap, cached + f.enums, cached + f.enums + f.composites, comps)
    requires AllNew(cat, owners, comps) && Oids(comps) == f.composites
    requires forall o :: o in f.composites ==> o in cat.composites && cat.Children(o) == cat.composites[o]
    ensures Laid(cat, owners0, owners, snap, cached, f, comps)
  {
  }

  lemma TallyIs(some: set<Oid>, rest: set<Oid>, f: Classes)
    ensures some + f.enums + f.composites + f.arrays + f.unknowns == some + f.All()
    ensures rest - f.enums - f.composites - f.arrays - f.unknowns == rest - f.All()
  {
  }

  lemma AgreeKeys(types: map<Oid, PgType>, cache: map<Oid, PgType>)
    requires Agree(types, cache)
    ensures types.Keys <= cache.Keys
  {
  }

  // ---- What can be reached ----

  function Parts(snap: Snapshot, t: PgType): seq<PgType> {
    match t
    case Composite(_, cols) => if cols in snap then snap[cols] else []
    case Array(_, Some(e)) => [e]
    case _ => []
  }

  function Follow(snap: Snapshot, t: PgType, path: seq<nat>): PgType
    decreases |path|
  {
    if path == [] || path[0] >= |Parts(snap, t)| then t else Follow(snap, Parts(snap, t)[path[0]], path[1..])
  }

  /** Whatever is reached from the types is what the catalog says, and not a placeholder. */
  ghost predicate Resolved(cat: Catalog, snap: Snapshot, types: map<Oid, PgType>) {
    forall o, path :: o in types ==>
      var end := Follow(snap, types[o], path); !end.Placeholder? && IsOfKind(cat, end) && end.oid == cat.Walk(o, path)
  }

  lemma {:induction false} FollowsTheCatalog(cat: Catalog, owners: Owners, snap: Snapshot, t: PgType, path: seq<nat>)
    requires AllFit(cat, owners, snap) && (forall a :: a in owners ==> Full(snap[a])) && Fits(cat, owners, t)
    requires !t.Placeholder?
    ensures var end := Follow(snap, t, path);
            !end.Placeholder? && IsOfKind(cat, end) && end.oid == cat.Walk(t.oid, path)
    decreases |path|
  {
    var parts := Parts(snap, t);
    PartsFit(cat, owners, snap, t);
    if path != [] && path[0] < |parts| {
      FollowsTheCatalog(cat, owners, snap, parts[path[0]], path[1..]);
    }
  }

  lemma PartsFit(cat: Catalog, owners: Owners, snap: Snapshot, t: PgType)
    requires AllFit(cat, owners, snap) && (forall a :: a in owners ==> Full(snap[a])) && Fits(cat, owners, t)
    requires !t.Placeholder?
    ensures |Parts(snap, t)| == |cat.Children(t.oid)|
    ensures forall i :: 0 <= i < |Parts(snap, t)| ==>
              var p := Parts(snap, t)[i]; p.oid == cat.Children(t.oid)[i] && Fits(cat, owners, p) && !p.Placeholder?
  {
    if t.Composite? {
      assert ColumnsFit(cat, owners, t.oid, snap[t.columns]) && Full(snap[t.columns]);
    }
  }

  lemma AllResolved(cat: Catalog, owners: Owners, snap: Snapshot, cache: map<Oid, PgType>, types: map<Oid, PgType>)
    requires AllFit(cat, owners, snap) && (forall a :: a in owners ==> Full(snap[a]))
    requires TypesFit(cat, owners, cache) && Agree(types, cache)
    ensures Resolved(cat, snap, types) && Resolved(cat, snap, cache)
  {
    hide AllFit, Fits, Full;
    forall o, path | o in cache
      ensures var end := Follow(snap, cache[o], path);
              !end.Placeholder? && IsOfKind(cat, end) && end.oid == cat.Walk(o, path)
    {
      FollowsTheCatalog(cat, owners, snap, cache[o], path);
    }
  }

  lemma ReadyIsLaid(cat: Catalog, owners0: Owners, owners: Owners, snap: Snapshot, cached: set<Oid>, f: Classes,
                    comps: seq<PgType>, types: map<Oid, PgType>)
    requires Ready(cat, owners0, owners, snap, cached, f, comps, types)
    ensures Laid(cat, owners0, owners, snap, cached, f, comps) && types.Keys <= cached + f.All()
  {
  }

  /**
    What decides whether a call leaves the cache free of placeholders. If an array's element
    is missing, the call stops with the composites as they were built, and a column that is
    itself a new composite may be a placeholder or not, depending on the order of the rows.
   */
  ghost predicate CleanWhen(cat: Catalog, cached: set<Oid>, wanted: set<Oid>, clean: bool) {
    var f := Classify(cat, wanted - cached);
    if ArraysKnown(cat, cached, f) then clean <==> ColumnsKnown(cat, cached, f)
    else
      && (ColumnsIn(cat, f, cached + f.enums) ==> clean)
      && (clean ==> ColumnsIn(cat, f, cached + f.enums + f.composites))
  }
}
