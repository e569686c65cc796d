/** Fetching types by OID: types found kind by kind, and placeholders patched through shared column arrays. */
module PgFetcher {
  import opened Text
  import opened PgTypes

  class TypeFetcher {
    const cat: Catalog
    var cache: map<Oid, PgType>
    ghost var owners: Owners

    ghost function Snap(): (s: Snapshot)
      reads this`owners, owners.Keys
      ensures s.Keys == owners.Keys
    {
      map a | a in owners :: a[..]
    }

    ghost predicate Valid()
      reads this, owners.Keys
    {
      && cat.KnowsSimpleTypes() && AllFit(cat, owners, Snap()) && TypesFit(cat, owners, cache)
      && forall o :: o in cat.known ==> o in cache
    }

    /** No column array holds a placeholder. */
    ghost predicate Clean()
      reads this`owners, owners.Keys
    {
      forall a :: a in owners ==> Full(Snap()[a])
    }

    constructor (cat: Catalog)
      requires cat.KnowsSimpleTypes()
      ensures Valid() && Clean() && this.cat == cat && cache == cat.known && owners == map[]
    {
      this.cat, cache, owners := cat, cat.known, map[];
    }

    /** Walk down the type, replacing placeholders by known types. */
    method ResolveType(types: map<Oid, PgType>, t: PgType, ghost rank: Oid -> nat) returns (r: Option<PgType>)
      requires Valid() && cat.Acyclic(rank) && TypesFit(cat, owners, types) && Fits(cat, owners, t)
      modifies owners.Keys
      ensures Valid() && Patched(old(Snap()), Snap(), types)
      ensures r.Some? ==> Finished(Snap(), t)
      ensures r.Some? ==> r.value == if t.Placeholder? && t.oid in types then types[t.oid] else t
      ensures r.Some? ==> !r.value.Placeholder?
      ensures r.None? ==> Stuck(old(Snap()), types) || (t.Placeholder? && t.oid !in types)
      decreases rank(t.oid), 1
    {
      hide Valid, Patched, Stuck;
      NothingPatched(Snap(), types);
      match t
      case Composite(_, columns) =>
        var ok := ResolveColumns(types, columns, rank);
        if !ok {
          return None;
        }
        return Some(t);
      case Array(_, None) =>
        return Some(t);
      case Array(o, Some(elem)) =>
        var newType := ResolveType(types, elem, rank);
        if newType.None? {
          return None;
        }
        return Some(Array(o, newType));
      case Placeholder(o) =>
        if o !in types {
          return None;
        }
        return Some(types[o]);
      case _ =>
        return Some(t);
    }

    /** Resolve the columns of a composite type in place; false if one cannot be resolved. */
    method ResolveColumns(types: map<Oid, PgType>, columns: Columns, ghost rank: Oid -> nat) returns (ok: bool)
      requires Valid() && cat.Acyclic(rank) && TypesFit(cat, owners, types) && columns in owners
      modifies owners.Keys
      ensures Valid() && Patched(old(Snap()), Snap(), types)
      ensures ok ==> Full(Snap()[columns])
      ensures !ok ==> Stuck(old(Snap()), types)
      decreases rank(owners[columns]), 0
    {
      hide AllFit, Fits, Patched, Stuck, Catalog.KnowsSimpleTypes, TypesFit, PatchedAt;
      ghost var before := Snap();
      NothingPatched(before, types);
      FitsHasNoPlaceholder(cat, owners, types);
      for i := 0 to columns.Length
        invariant Valid() && Patched(before, Snap(), types) && Full(Snap()[columns][..i])
      {
        ghost var top := Snap();
        var column := columns[i];
        ColumnFits(cat, owners, top, columns, i);
        var newType := ResolveType(types, column, rank);
        if newType.None? {
          if column.Placeholder? && column.oid !in types {
            StuckColumn(top, columns, i, types);
          }
          StuckBefore(before, top, types);
          PatchedTwice(before, top, Snap(), types);
          return false;
        }
        ghost var mid := Snap();
        ResolvedAt(column, newType.value, types);
        StoreColumn(top, mid, columns, i, newType.value, types);
        columns[i] := newType.value;
        assert Snap() == mid[columns := mid[columns][i := newType.value]];
        PatchedTwice(before, top, Snap(), types);
        PatchKeepsFit(cat, owners, before, Snap(), types);
      }
      assert Snap()[columns][..columns.Length] == Snap()[columns];
      return true;
    }
  
    /** Resolve the placeholders of all types; None if one cannot be resolved. */
    method ResolvePlaceholderTypes(
      knownTypes: map<Oid, PgType>, ghost rank: Oid -> nat) returns (r: Option<map<Oid, PgType>>)
      requires Valid() && cat.Acyclic(rank) && TypesFit(cat, owners, knownTypes)
      modifies owners.Keys
      ensures Valid() && Patched(old(Snap()), Snap(), knownTypes)
      ensures r.Some? ==> r.value == knownTypes && forall o :: o in knownTypes ==> Finished(Snap(), knownTypes[o])
      ensures r.None? ==> Stuck(old(Snap()), knownTypes)
    {
      hide Valid, Patched, Stuck, Fits, Finished;
      var types, todo := knownTypes, knownTypes.Keys;
      ghost var before := Snap();
      NothingPatched(before, types);
      while todo != {}
        invariant Valid() && types == knownTypes && todo <= types.Keys && Patched(before, Snap(), types)
        invariant forall o :: o in types && o !in todo ==> Finished(Snap(), types[o])
        decreases |todo|
      {
        var oid :| oid in todo;
        ghost var top := Snap();
        var newType := ResolveType(types, types[oid], rank);
        PatchedTwice(before, top, Snap(), types);
        if newType.None? {
          StuckBefore(before, top, types);
          return None;
        }
        forall o | o in types && o !in todo ensures Finished(Snap(), types[o]) {
          FinishedStays(top, Snap(), types, types[o]);
        }
        types := types[oid := newType.value];
        todo := todo - {oid};
      }
      return Some(types);
    }

    /** The cached types among the given OIDs, and the OIDs without one. */
    method GetOIDs(oids: seq<Oid>) returns (cached: map<Oid, PgType>, uncached: set<Oid>)
      ensures cached == map o | o in oids && o in cache :: cache[o]
      ensures uncached == set o | o in oids && o !in cache
    {
      cached, uncached := map[], {};
      for i := 0 to |oids|
        invariant cached == map o | o in oids[..i] && o in cache :: cache[o]
        invariant uncached == set o | o in oids[..i] && o !in cache
      {
        assert oids[..i + 1] == oids[..i] + [oids[i]];
        if oids[i] in cache {
          cached := cached[oids[i] := cache[oids[i]]];
        } else {
          uncached := uncached + {oids[i]};
        }
      }
      assert oids[..|oids|] == oids;
    }

    /** Keep the types found in the result and in the cache. */
    method AddTypes(found: seq<PgType>, types: map<Oid, PgType>, uncached: set<Oid>)
      returns (types': map<Oid, PgType>, uncached': set<Oid>)
      requires Valid() && AllNew(cat, owners, found) && TypesFit(cat, owners, types) && Agree(types, cache)
      modifies this`cache
      ensures Valid() && TypesFit(cat, owners, types') && Agree(types', cache)
      ensures types' == Added(types, found) && types'.Keys == types.Keys + Oids(found)
      ensures cache.Keys == old(cache).Keys + Oids(found) && uncached' == uncached - Oids(found)
    {
      hide AllFit, Fits, TypesFit, Agree, AllNew, Added, Oids;
      types', uncached' := types, uncached;
      NothingBuilt(cat, owners, Snap(), types);
      assert found[..0] == [];
      for i := 0 to |found|
        invariant Valid() && TypesFit(cat, owners, types') && Agree(types', cache)
        invariant types' == Added(types, found[..i]) && types'.Keys == types.Keys + Oids(found[..i])
        invariant cache.Keys == old(cache).Keys + Oids(found[..i]) && uncached' == uncached - Oids(found[..i])
      {
        var t := found[i];
        OidsStep(found, i);
        AddedNext(types, found, i);
        AddOne(cat, owners, types', cache, found, i);
        types' := types'[t.oid := t];
        cache := cache[t.oid := t];
        uncached' := uncached' - {t.oid};
      }
      assert found[..|found|] == found;
    }

    /** The rows of a catalog query, in no particular order. */
    method Rows(oids: set<Oid>) returns (rows: seq<Oid>)
      ensures (forall o :: o in rows <==> o in oids) && AllDistinct(rows)
    {
      rows := [];
      var todo := oids;
      while todo != {}
        invariant todo <= oids && forall o :: o in rows <==> o in oids && o !in todo
        invariant AllDistinct(rows)
        decreases |todo|
      {
        var o :| o in todo;
        rows, todo := rows + [o], todo - {o};
      }
    }

    method FindEnumTypes(uncached: set<Oid>) returns (types: seq<PgType>)
      requires forall o :: o in uncached ==> o !in cat.known
      ensures Oids(types) == uncached * cat.enums && AllNew(cat, owners, types)
    {
      var rows := Rows(uncached * cat.enums);
      types := [];
      for i := 0 to |rows|
        invariant |types| == i && AllNew(cat, owners, types) && forall k :: 0 <= k < i ==> types[k].oid == rows[k]
      {
        assert rows[i] in rows;
        types := types + [Enum(rows[i])];
      }
      OidsAre(types, rows);
    }

    method FindUnknownTypes(uncached: set<Oid>) returns (types: seq<PgType>)
      requires forall o :: o in uncached ==> o !in cat.known && o !in cat.enums && cat.Children(o) == []
      ensures Oids(types) == uncached * cat.names && AllNew(cat, owners, types)
    {
      var rows := Rows(uncached * cat.names);
      types := [];
      for i := 0 to |rows|
        invariant |types| == i && AllNew(cat, owners, types) && forall k :: 0 <= k < i ==> types[k].oid == rows[k]
      {
        assert rows[i] in rows;
        types := types + [Unknown(rows[i])];
      }
      OidsAre(types, rows);
    }

    /** None if the element type of one of the arrays is not cached yet. */
    method FindArrayTypes(uncached: set<Oid>) returns (r: Option<seq<PgType>>)
      requires Valid() && forall o :: o in uncached && o in cat.arrays ==> cat.Children(o) == [cat.arrays[o]]
      ensures r.Some? <==> forall o :: o in uncached && o in cat.arrays ==> cat.arrays[o] in cache
      ensures r.Some? ==> Oids(r.value) == uncached * cat.arrays.Keys && AllNew(cat, owners, r.value)
    {
      var rows := Rows(uncached * cat.arrays.Keys);
      var types: seq<PgType> := [];
      for i := 0 to |rows|
        invariant |types| == i && AllNew(cat, owners, types)
        invariant forall k :: 0 <= k < i ==>
                  types[k].oid == rows[k] && rows[k] in cat.arrays && cat.arrays[rows[k]] in cache
      {
        assert rows[i] in rows;
        var elem := cat.arrays[rows[i]];
        if elem !in cache {
          return None;
        }
        types := types + [Array(rows[i], Some(cache[elem]))];
      }
      OidsAre(types, rows);
      forall o | o in uncached && o in cat.arrays ensures cat.arrays[o] in cache {
        assert o in uncached * cat.arrays.Keys;
        assert o in rows;
      }
      return Some(types);
    }

    method DraftColumns(oids: seq<Oid>) returns (columns: Columns)
      ensures fresh(columns) && Drafted(columns[..], oids, cache)
    {
      columns := new PgType[|oids|];
      for i := 0 to |oids|
        invariant Drafted(columns[..i], oids[..i], cache)
      {
        if oids[i] in cache {
          columns[i] := cache[oids[i]];
        } else {
          columns[i] := Placeholder(oids[i]);
        }
        assert columns[..i + 1] == columns[..i] + [columns[i]];
      }
      assert oids[..|oids|] == oids && columns[..|oids|] == columns[..];
    }

    /** Build one composite type and put it in the cache, after those found already. */
    method AddComposite(row: Oid, ghost owners0: Owners, ghost cache0: map<Oid, PgType>, ghost found: seq<PgType>)
      returns (typ: PgType)
      requires Valid() && row in cat.composites && row !in cat.enums && row !in cat.known
      requires cache == Added(cache0, found) && cache0.Keys <= cache.Keys
      requires AllNew(cat, owners, found) && Built(owners0, owners, Snap(), cache0.Keys, cache.Keys, found)
      modifies this
      ensures Valid() && typ.oid == row && fresh(owners.Keys - old(owners.Keys))
      ensures cache == Added(cache0, found + [typ]) && cache0.Keys <= cache.Keys
      ensures AllNew(cat, owners, found + [typ])
      ensures Built(owners0, owners, Snap(), cache0.Keys, cache.Keys, found + [typ])
    {
      hide AllFit, TypesFit, Drafted, Built, AllNew, Added, Catalog.KnowsSimpleTypes;
      var columns := DraftColumns(cat.composites[row]);
      typ := Composite(row, columns);
      ghost var snap := Snap();
      AddOwner(cat, owners, snap, cache, columns, row, columns[..]);
      BuildOne(cat, owners0, owners, snap, cache0.Keys, cache, found, columns, row, columns[..]);
      AddedStep(cache0, found, typ);
      owners := owners[columns := row];
      cache := cache[row := typ];
      assert Snap() == snap[columns := columns[..]];
      assert cache.Keys == old(cache).Keys + {row};
    }

    /** The composite types, each with a new column array; columns that are not cached yet are placeholders. */
    method FindCompositeTypes(uncached: set<Oid>) returns (types: seq<PgType>)
      requires Valid() && forall o :: o in uncached ==> o !in cat.enums && o !in cat.known
      modifies this
      ensures Valid() && fresh(owners.Keys - old(owners.Keys))
      ensures cache == Added(old(cache), types) && Oids(types) == uncached * cat.composites.Keys
      ensures AllNew(cat, owners, types)
      ensures Built(old(owners), owners, Snap(), old(cache).Keys, cache.Keys, types) && DistinctOids(types)
    {
      hide Built, AllNew, AllFit, TypesFit, Added, Drafted, Fits, Oids, DistinctOids, AllDistinct, Snap, Valid;
      var rows := Rows(uncached * cat.composites.Keys);
      types := [];
      var idx := -1;
      NothingBuilt(cat, owners, Snap(), cache);
      while |types| < |rows|
        invariant idx == |types| - 1 && |types| <= |rows|
        invariant forall k :: 0 <= k < |types| ==> types[k].oid == rows[k]
        invariant Valid() && fresh(owners.Keys - old(owners.Keys)) && AllNew(cat, owners, types)
        invariant cache == Added(old(cache), types) && old(cache).Keys <= cache.Keys
        invariant Built(old(owners), owners, Snap(), old(cache).Keys, cache.Keys, types)
      {
        idx := (idx + 1) % |rows|;
        var row := rows[idx];
        assert row in rows && row in uncached * cat.composites.Keys;
        var typ := AddComposite(row, old(owners), old(cache), types);
        types := types + [typ];
      }
      OidsAre(types, rows);
      OidsAreDistinct(types, rows);
    }

    /**
      The types of the given OIDs, whose descendants in the catalog are given too. On an acyclic
      catalog the call succeeds exactly when everything wanted can be classified, and then
      nothing that can be reached from a cached or returned type is a placeholder any more.
     */
    method FindTypesByOIDs(
      oids: seq<Oid>, descendants: seq<Oid>, ghost rank: Oid -> nat) returns (r: Option<map<Oid, PgType>>)
      requires Valid() && cat.Acyclic(rank) && forall o <- oids :: o in descendants
      modifies this, owners.Keys
      ensures Valid() && fresh(owners.Keys - old(owners.Keys))
      ensures r.Some? ==> forall o <- oids :: o in r.value
      ensures r.Some? ==> Agree(r.value, cache)
      ensures old(Clean()) && r.Some? ==> Clean() && Resolved(cat, Snap(), r.value) && Resolved(cat, Snap(), cache)
      ensures old(Clean()) ==>
                (r.Some? <==> (forall o <- oids ::
                  o in old(cache)) || Resolvable(cat, old(cache).Keys, Wanted(descendants)))
      ensures old(Clean()) && r.None? ==> CleanWhen(cat, old(cache).Keys, Wanted(descendants), Clean())
      ensures if forall o <- oids :: o in old(cache) then r.Some? && cache == old(cache)
              else old(cache).Keys + Classify(cat, Wanted(descendants) - old(cache).Keys).composites <= cache.Keys
    {
      var cached, missing := GetOIDs(oids);
      if missing == {} {
        assert forall o <- oids :: o in cache by {
          forall o <- oids ensures o in cache { assert o !in missing; }
        }
        if Clean() {
          AllResolved(cat, owners, Snap(), cache, cached);
        }
        return Some(cached);
      }
      r := FetchUncached(descendants, rank);
      if old(Clean()) && r.Some? {
        AllResolved(cat, owners, Snap(), cache, r.value);
      }
    }

    /** The enums and then the composite types. */
    method CollectFirst(types: map<Oid, PgType>, uncached: set<Oid>)
      returns (types': map<Oid, PgType>, uncached': set<Oid>, ghost types0: map<Oid, PgType>, ghost comps: seq<PgType>)
      requires Valid() && TypesFit(cat, owners, types) && Agree(types, cache) && uncached !! cache.Keys
      requires forall o :: o in uncached ==> o !in cat.known
      modifies this
      ensures Valid() && TypesFit(cat, owners, types') && Agree(types', cache) && fresh(owners.Keys - old(owners.Keys))
      ensures var E, M := uncached * cat.enums, (uncached - cat.enums) * cat.composites.Keys;
              && Built(old(owners), owners, Snap(), old(cache).Keys + E, cache.Keys, comps)
                 && AllNew(cat, owners, comps)
              && Oids(comps) == M && DistinctOids(comps) && types' == Added(types0, comps)
              && types'.Keys == types.Keys + E + M && cache.Keys == old(cache).Keys + E + M && uncached' ==
                 uncached - E - M
    {
      hide AllFit, TypesFit, Agree, AllNew, Added, Built, Oids, DistinctOids, Snap;
      var enums := FindEnumTypes(uncached);
      types', uncached' := AddTypes(enums, types, uncached);
      assert uncached' == uncached - cat.enums;
      AgreeKeys(types, old(cache));
      ghost var owners0, cache0 := owners, cache;
      types0 := types';
      var composites := FindCompositeTypes(uncached');
      comps := composites;
      BuiltKeeps(owners0, owners, Snap(), cache0.Keys, cache.Keys, comps);
      TypesFitMore(cat, owners0, owners, types');
      AgreeStill(types', cache0, comps);
      AddedHas(cache0, comps);
      types', uncached' := AddTypes(composites, types', uncached');
    }

    /** The array types and then what is left; false if an array's element is not cached. */
    method CollectRest(types: map<Oid, PgType>, uncached: set<Oid>)
      returns (ok: bool, types': map<Oid, PgType>, uncached': set<Oid>, ghost arrs: seq<PgType>,
        ghost unks: seq<PgType>)
      requires Valid() && TypesFit(cat, owners, types) && Agree(types, cache)
      requires forall o :: o in uncached && o in cat.arrays ==> cat.Children(o) == [cat.arrays[o]]
      requires forall o :: o in uncached && o !in cat.arrays ==> cat.Children(o) == []
      requires forall o :: o in uncached ==> o !in cat.enums && o !in cat.known
      modifies this`cache
      ensures Valid() && TypesFit(cat, owners, types') && Agree(types', cache)
      ensures ok <==> forall o :: o in uncached && o in cat.arrays ==> cat.arrays[o] in old(cache)
      ensures ok ==> Oids(arrs) == uncached * cat.arrays.Keys && Oids(unks) == (uncached - Oids(arrs)) * cat.names
      ensures ok ==> types' == Added(Added(types, arrs), unks) && types'.Keys == types.Keys + Oids(arrs) + Oids(unks)
      ensures ok ==> uncached' == uncached - Oids(arrs) - Oids(unks)
      ensures old(cache).Keys <= cache.Keys
    {
      hide AllFit, TypesFit, Agree, AllNew, Added, Oids;
      arrs, unks, types', uncached' := [], [], types, uncached;
      var arrays := FindArrayTypes(uncached);
      if arrays.None? {
        return false, types, uncached, [], [];
      }
      types', uncached' := AddTypes(arrays.value, types, uncached);
      var unknowns := FindUnknownTypes(uncached');
      types', uncached' := AddTypes(unknowns, types', uncached');
      return true, types', uncached', arrays.value, unknowns;
    }

    /**
      Query the catalog kind by kind for everything that is not cached; false if an array's
      element is not known by then.
     */
    method CollectTypes(descendants: seq<Oid>)
      returns (ok: bool, types: map<Oid, PgType>, uncached: set<Oid>, ghost comps: seq<PgType>)
      requires Valid()
      modifies this
      ensures Valid() && fresh(owners.Keys - old(owners.Keys))
      ensures var C, D := old(cache).Keys, Wanted(descendants);
              var f := Classify(cat, D - C);
              && (ok <==> ArraysKnown(cat, C, f)) && Laid(cat, old(owners), owners, Snap(), C, f, comps)
              && (ok ==> Ready(cat, old(owners), owners, Snap(), C, f, comps, types))
              && (ok ==> types.Keys == D * C + f.All() && uncached == D - C - f.All())
              && (ok ==> TypesFit(cat, owners, types) && Agree(types, cache))
              && C + f.enums + f.composites <= cache.Keys
      ensures forall a :: a in old(owners) ==> a in owners && a[..] == old(a[..])
    {
      hide AllFit, TypesFit, Agree, AllNew, Added, Built, Oids, DistinctOids, Classify, Ready, Laid, Classes.All,
        Catalog.Children, Snap;
      comps := [];
      types, uncached := GetOIDs(descendants);
      ghost var C, D, U := cache.Keys, Wanted(descendants), uncached;
      ghost var f := Classify(cat, U);
      assert U == D - C && types.Keys == D * C;
      ClassifyIs(cat, U, C);
      CachedFit(cat, owners, cache, types);
      ghost var types0;
      types, uncached, types0, comps := CollectFirst(types, uncached);
      BuiltKeeps(old(owners), owners, Snap(), C + f.enums, cache.Keys, comps);
      IsLaid(cat, old(owners), owners, Snap(), C, f, comps);
      ghost var arrays, unknowns;
      ok, types, uncached, arrays, unknowns := CollectRest(types, uncached);
      if !ok {
        return;
      }
      CompositesStay(types0, comps, arrays, unknowns);
      TallyIs(D * C, U, f);
      IsReady(cat, old(owners), owners, Snap(), C, f, comps, types);
    }

    /** Query the catalog for everything that is not cached, and resolve the placeholders that are left. */
    method FetchUncached(descendants: seq<Oid>, ghost rank: Oid -> nat) returns (r: Option<map<Oid, PgType>>)
      requires Valid() && cat.Acyclic(rank)
      modifies this, owners.Keys
      ensures Valid() && fresh(owners.Keys - old(owners.Keys))
      ensures r.Some? ==> (forall o <- descendants :: o in r.value) && Agree(r.value, cache)
      ensures old(Clean()) && r.Some? ==> Clean()
      ensures old(Clean()) ==> (r.Some? <==> Resolvable(cat, old(cache).Keys, Wanted(descendants)))
      ensures old(Clean()) ==> CleanWhen(cat, old(cache).Keys, Wanted(descendants), Clean())
      ensures old(cache).Keys + Classify(cat, Wanted(descendants) - old(cache).Keys).composites <= cache.Keys
    {
      hide AllFit, TypesFit, Agree, Full, Patched, Finished, Stuck, ColumnsIn, Ready, Laid, ArraysKnown;
      ghost var owners0, C, D := owners, cache.Keys, Wanted(descendants);
      ghost var f := Classify(cat, D - C);
      var ok, types, uncached, comps := CollectTypes(descendants);
      ghost var before := Snap();
      assert old(Clean()) ==> AllFull(owners0, before);
      if !ok {
        NothingPatched(before, map[]);
        if !ColumnsIn(cat, f, C + f.enums + f.composites) {
          UnknownColumnIsSeen(cat, owners0, owners, before, before, C, f, comps, map[], C + f.enums + f.composites);
        }
        if old(Clean()) && ColumnsIn(cat, f, C + f.enums) {
          CachedColumnsAreFull(cat, owners0, owners, before, C, f, comps);
        }
        return None;
      }
      var resolved := ResolvePlaceholderTypes(types, rank);
      ReadyIsLaid(cat, owners0, owners, before, C, f, comps, types);
      if !ColumnsKnown(cat, C, f) {
        UnknownColumnIsSeen(cat, owners0, owners, before, Snap(), C, f, comps, types, C + f.All());
      }
      if resolved.None? {
        if old(Clean()) && ColumnsKnown(cat, C, f) {
          NotStuck(cat, owners0, owners, before, C, f, comps, types);
        }
        return None;
      }
      if old(Clean()) {
        CleanAfter(cat, owners0, owners, before, Snap(), C, f, comps, types);
      }
      if uncached != {} {
        return None;
      }
      forall o <- descendants ensures o in types {
        assert o in D;
        assert if o in C then o in D * C else o in D - C;
        assert o !in uncached && o in types.Keys;
      }
      return Some(types);
    }
  }

  function Wanted(oids: seq<Oid>): set<Oid> {
    set o | o in oids
  }

  lemma OidsAre(types: seq<PgType>, rows: seq<Oid>)
    requires |types| == |rows| && forall k :: 0 <= k < |rows| ==> types[k].oid == rows[k]
    ensures Oids(types) == set o | o in rows
  {
    forall o | o in rows ensures o in Oids(types) {
      var k :| 0 <= k < |rows| && rows[k] == o;
      assert types[k].oid == o;
    }
  }

  lemma OidsAreDistinct(types: seq<PgType>, rows: seq<Oid>)
    requires |types| == |rows| && forall k :: 0 <= k < |rows| ==> types[k].oid == rows[k]
    requires AllDistinct(rows)
    ensures DistinctOids(types)
  {
  }

  /** A catalog with a composite type whose column is a type that no query finds. */
  function BrokenCatalog(): Catalog {
    Catalog(map[], {}, map[1 := [2]], map[], {})
  }

  function BrokenRank(): Oid -> nat {
    (o: Oid) => if o == 1 then 1 else 0
  }

  lemma BrokenIsAcyclic()
    ensures BrokenCatalog().Acyclic(BrokenRank()) && BrokenCatalog().KnowsSimpleTypes()
  {
  }

  /** A call for it fails. */
  method FailingCall() returns (f: TypeFetcher, r: Option<map<Oid, PgType>>)
    ensures fresh(f) && fresh(f.owners.Keys) && f.Valid() && f.cat == BrokenCatalog() && 1 in f.cache && r.None?
  {
    hide Catalog.Acyclic, Catalog.KnowsSimpleTypes, CleanWhen, Resolvable, Classify, Resolved, Agree, AllFit, TypesFit;
    BrokenIsAcyclic();
    f := new TypeFetcher(BrokenCatalog());
    assert Wanted([1, 2]) == {1, 2} && {1, 2} - f.cache.Keys == {1, 2} && f.cache.Keys == {};
    BrokenIsNotKnown();
    ghost var none := f.owners.Keys;
    assert 1 in [1] && 1 !in f.cache && none == {};
    r := f.FindTypesByOIDs([1], [1, 2], BrokenRank());
    assert f.owners.Keys - none == f.owners.Keys;
  }

  /** It leaves a placeholder in the cache, and the next call succeeds and returns a type that holds it. */
  method FailedCallLeavesPlaceholder()
    returns (f: TypeFetcher, first: Option<map<Oid, PgType>>, second: Option<map<Oid, PgType>>)
    ensures fresh(f) && f.Valid() && !f.Clean() && first.None?
    ensures second.Some? && 1 in second.value && Follow(f.Snap(), second.value[1], [0]).Placeholder?
  {
    hide Catalog.Acyclic, Catalog.KnowsSimpleTypes, CleanWhen, Resolvable, Classify, Resolved, AllFit, Fits, Follow;
    BrokenIsAcyclic();
    f, first := FailingCall();
    assert forall o <- [1] :: o in f.cache;
    second := f.FindTypesByOIDs([1], [1, 2], BrokenRank());
    assert 1 in [1];
    BrokenHoldsPlaceholder(f.owners, f.Snap(), f.cache[1]);
    assert !Full(f.Snap()[f.cache[1].columns]);
  }

  lemma BrokenHoldsPlaceholder(owners: Owners, snap: Snapshot, t: PgType)
    requires AllFit(BrokenCatalog(), owners, snap) && Fits(BrokenCatalog(), owners, t) && t.oid == 1 && !t.Placeholder?
    ensures t.Composite? && t.columns in owners && snap[t.columns] != [] && snap[t.columns][0].Placeholder?
    ensures Follow(snap, t, [0]).Placeholder?
  {
    assert ColumnsFit(BrokenCatalog(), owners, 1, snap[t.columns]);
    assert BrokenCatalog().Children(1) == [2];
    assert Parts(snap, t) == snap[t.columns] && [0][1..] == [];
    assert Follow(snap, snap[t.columns][0], []) == snap[t.columns][0];
  }

  lemma BrokenIsNotKnown()
    ensures var cat, f := BrokenCatalog(), Classify(BrokenCatalog(), {1, 2});
            f == Classes({}, {1}, {}, {}) && ArraysKnown(cat, {}, f) && !ColumnsKnown(cat, {}, f)
              && !Resolvable(cat, {}, {1, 2})
  {
    var f := Classify(BrokenCatalog(), {1, 2});
    assert f == Classes({}, {1}, {}, {});
    assert 2 in BrokenCatalog().composites[1] && 2 !in {} + f.All();
    assert {1, 2} - {} == {1, 2};
  }
}
