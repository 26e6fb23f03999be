/** The one-shot migration of the legacy filter into a saved-filter row, and
    when it keeps the meaning of a configuration. */
module BridgeMigration {
  import opened Text
  import opened Products
  import opened Filters
  import opened IdLists
  import opened LegacyEngine
  import opened Matching
  import opened MatchingLaws
  import opened Sorting

  const BRIDGE_MARKER := "bridge_v1"

  function LowerAll(names: seq<string>): (r: seq<string>)
    ensures |r| == |names|
  {
    seq(|names|, i requires 0 <= i < |names| => Lower(names[i]))
  }

  /** `_legacy_is_default`: the lower-case genders sort to men, women. */
  predicate LegacyIsDefault(f: FilterConfig) {
    && multiset(LowerAll(f.gender)) == multiset{"men", "women"}
    && f.minSalePercentage == 50.0
    && f.clothing == [] && f.pants == [] && f.shoes == [] && !f.oneSize
    && f.ignoredKeywords == []
  }

  function ImportedRow(f: FilterConfig): SavedFilter {
    SavedFilter(LowerAll(f.gender), f.minSalePercentage, f.clothing, f.pants, f.shoes,
                if f.oneSize then 1 else 0, Both, f.ignoredKeywords, 1, None)
  }

  /** The key SQLite gives the first row of an empty table. */
  const FIRST_ID := 1

  /** The tables the migration touches. */
  datatype Tables = Tables(markers: set<string>, filters: FilterTable)

  /** What the migration leaves behind. */
  function Migrated(t: Tables, f: FilterConfig): Tables {
    if BRIDGE_MARKER in t.markers then t
    else Tables(t.markers + {BRIDGE_MARKER},
                if t.filters == map[] && !LegacyIsDefault(f) then map[FIRST_ID := ImportedRow(f)] else t.filters)
  }

  class Database {
    var markers: set<string>
    var filters: FilterTable

    constructor ()
      ensures markers == {} && filters == map[]
    {
      markers, filters := {}, map[];
    }

    method EnsureBridgeMigration(f: FilterConfig)
      modifies this
      ensures Tables(markers, filters) == Migrated(old(Tables(markers, filters)), f)
    {
      if BRIDGE_MARKER in markers {
        return;
      }
      if |filters| > 0 {
        markers := markers + {BRIDGE_MARKER};
        return;
      }
      if LegacyIsDefault(f) {
        markers := markers + {BRIDGE_MARKER};
        return;
      }
      filters := filters[FIRST_ID := ImportedRow(f)];
      markers := markers + {BRIDGE_MARKER};
    }
  }

  /** The migration runs once: whatever happens to the rows afterwards and
      whatever the configuration becomes, running it again changes nothing. */
  lemma MigratesOnce(t: Tables, f: FilterConfig, later: FilterTable, f': FilterConfig)
    ensures var after := Migrated(t, f).(filters := later);
            Migrated(after, f') == after
  {
  }

  lemma TwoElements(s: seq<string>, a: string, b: string)
    requires a != b
    ensures multiset(s) == multiset{a, b} <==> s == [a, b] || s == [b, a]
  {
    if multiset(s) == multiset{a, b} {
      assert |s| == |multiset(s)| == 2;
      assert s == [s[0], s[1]];
      assert multiset(s) == multiset{s[0], s[1]};
      assert a in multiset{s[0], s[1]} && b in multiset{s[0], s[1]};
    }
  }

  /** The default values, field by field: the genders men and women in either
      order and any case, 50 percent, no sizes, no keywords. */
  lemma LegacyIsDefaultIff(f: FilterConfig)
    ensures LegacyIsDefault(f)
            <==> && |f.gender| == 2
                 && ((Lower(f.gender[0]) == "men" && Lower(f.gender[1]) == "women")
                     || (Lower(f.gender[0]) == "women" && Lower(f.gender[1]) == "men"))
                 && f.minSalePercentage == 50.0
                 && f.clothing == [] && f.pants == [] && f.shoes == [] && !f.oneSize
                 && f.ignoredKeywords == []
  {
    var lower := LowerAll(f.gender);
    TwoElements(lower, "men", "women");
    assert "men" != "women";
    if |f.gender| == 2 {
      assert lower == [Lower(f.gender[0]), Lower(f.gender[1])];
    }
  }

  /** Without the marker an empty table stays empty exactly for the default
      values; else it gets the imported row. A table with rows, or one with the
      marker, is left alone. The marker is set in any case. */
  lemma SeedsNothingIff(t: Tables, f: FilterConfig)
    ensures BRIDGE_MARKER in Migrated(t, f).markers
    ensures BRIDGE_MARKER in t.markers || t.filters != map[] ==> Migrated(t, f).filters == t.filters
    ensures BRIDGE_MARKER !in t.markers && t.filters == map[] ==>
              (Migrated(t, f).filters == map[]
               <==> && |f.gender| == 2
                    && ((Lower(f.gender[0]) == "men" && Lower(f.gender[1]) == "women")
                        || (Lower(f.gender[0]) == "women" && Lower(f.gender[1]) == "men"))
                    && f.minSalePercentage == 50.0
                    && f.clothing == [] && f.pants == [] && f.shoes == [] && !f.oneSize
                    && f.ignoredKeywords == [])
    ensures BRIDGE_MARKER !in t.markers && t.filters == map[] && Migrated(t, f).filters != map[] ==>
              Migrated(t, f).filters == map[1 := ImportedRow(f)]
  {
    LegacyIsDefaultIff(f);
    assert FIRST_ID in map[FIRST_ID := ImportedRow(f)];
  }

  /** The imported row is active at any time, has the genders in lower case and
      takes the rest of the configuration over. */
  lemma ImportedRowIs(f: FilterConfig, now: int)
    ensures var row := ImportedRow(f);
            && row.IsActive(now) && row.availability == Both
            && |row.gender| == |f.gender|
            && (forall i :: 0 <= i < |f.gender| ==> row.gender[i] == Lower(f.gender[i]))
            && row.minDiscount == f.minSalePercentage && row.ignoredKeywords == f.ignoredKeywords
            && (row.sizesClothing, row.sizesPants, row.sizesShoes) == (f.clothing, f.pants, f.shoes)
            && row.oneSizeMatch == if f.oneSize then 1 else 0
  {
  }

  // ------------------------------------------------------ one product

  /** A deal of the legacy engine and one of the matcher are the same deal: an
      unwatched one up to the tag, a watched one up to its listed variants. */
  predicate SameDeal(legacy: SaleItem, matched: SaleItem) {
    if legacy.isWatched then Core(legacy) == Core(matched)
    else matched == legacy.(matchedFilterIds := [FIRST_ID])
  }

  /** The matcher pass over the migrated table. */
  function MatcherPass(legacy: LegacyPass, table: FilterTable, now: int): Pass {
    Pass(legacy.site, legacy.lists, table, now, legacy.salePids)
  }

  lemma UpperOfLowerAll(names: seq<string>)
    ensures UpperSet(LowerAll(names)) == UpperSet(names)
  {
    forall i | 0 <= i < |names| ensures Upper(LowerAll(names)[i]) == Upper(names[i]) {
      UpperOfLower(names[i]);
    }
    forall x ensures x in UpperSet(LowerAll(names)) <==> x in UpperSet(names) {
      if x in UpperSet(names) {
        var i :| 0 <= i < |names| && Upper(names[i]) == x;
        assert Upper(LowerAll(names)[i]) == x;
      }
    }
  }

  /** The imported row asks of a product what the legacy filter asked, and
      repeats the keyword test the exclusion has already made. */
  lemma ImportedRowAgrees(legacy: LegacyPass, p: Product)
    requires legacy.lists == ListsOf(legacy.config) && !IsExcluded(legacy.lists, p)
    ensures FilterMatches(legacy.site, ImportedRow(legacy.config), p) <==> legacy.PassesFilter(p)
    ensures ImportedRow(legacy.config).SizeNames() == legacy.config.SizeNames()
  {
    UpperOfLowerAll(legacy.config.gender);
  }

  lemma ImportedMatches(legacy: LegacyPass, now: int, p: Product)
    requires legacy.lists == ListsOf(legacy.config) && !IsExcluded(legacy.lists, p)
    ensures var table := map[FIRST_ID := ImportedRow(legacy.config)];
            && MatchedIds(legacy.site, table, now, p) == (if legacy.PassesFilter(p) then {FIRST_ID} else {})
            && SizeUnion(table, {FIRST_ID}) == legacy.config.SizeNames()
  {
    ImportedRowAgrees(legacy, p);
    var table := map[FIRST_ID := ImportedRow(legacy.config)];
    assert SizeUnion(table, {FIRST_ID}) == table[FIRST_ID].SizeNames();
  }

  lemma OneId(id: int)
    ensures Ordered({id}) == [id]
  {
    IncreasingDetermined(Ordered({id}), [id]);
  }

  /** One product, seen by both engines. */
  lemma SameOnProduct(legacy: LegacyPass, now: int, p: Product)
    requires legacy.lists == ListsOf(legacy.config)
    ensures var pass := MatcherPass(legacy, map[FIRST_ID := ImportedRow(legacy.config)], now);
            && (pass.Reports(p) <==> legacy.Reports(p))
            && (legacy.Reports(p) ==>
                  && legacy.ItemOf(p).discount == pass.ItemOf(p).discount
                  && SameDeal(legacy.ItemOf(p), pass.ItemOf(p)))
  {
    if !IsWatched(legacy.lists, p) && !IsExcluded(legacy.lists, p) {
      ImportedMatches(legacy, now, p);
      OneId(FIRST_ID);
    }
  }

  // ------------------------------------------------------ whole catalogues

  ghost predicate SameDeals(a: seq<SaleItem>, b: seq<SaleItem>) {
    Pointwise(SameDeal, a, b)
  }

  lemma {:induction false} SameCollections(legacy: LegacyPass, pass: Pass, products: seq<Product>)
    requires forall p :: p in products ==>
               && (pass.Reports(p) <==> legacy.Reports(p))
               && (legacy.Reports(p) ==>
                     && legacy.ItemOf(p).discount == pass.ItemOf(p).discount
                     && SameDeal(legacy.ItemOf(p), pass.ItemOf(p)))
    ensures SameDeals(legacy.Collect(products), pass.Collect(products))
  {
    if products != [] {
      var n := |products| - 1;
      assert products[n] in products;
      assert forall p :: p in products[..n] ==> p in products;
      SameCollections(legacy, pass, products[..n]);
    }
  }

  /** With the seeded row the matcher returns the legacy engine's deals, in the
      legacy engine's order, for every catalogue. */
  lemma SeededMatcherAgrees(legacy: LegacyPass, now: int, products: seq<Product>)
    requires legacy.lists == ListsOf(legacy.config)
    ensures SameDeals(legacy.Result(products),
                      MatcherPass(legacy, map[FIRST_ID := ImportedRow(legacy.config)], now).Result(products))
  {
    var pass := MatcherPass(legacy, map[FIRST_ID := ImportedRow(legacy.config)], now);
    forall p | p in products
      ensures pass.Reports(p) <==> legacy.Reports(p)
      ensures legacy.Reports(p) ==>
                legacy.ItemOf(p).discount == pass.ItemOf(p).discount && SameDeal(legacy.ItemOf(p), pass.ItemOf(p))
    {
      SameOnProduct(legacy, now, p);
    }
    SameCollections(legacy, pass, products);
    SortPointwise(SameDeal, legacy.Collect(products), pass.Collect(products));
  }

  /** When every product is watched or ignored by the empty prefix, no filter
      matters. */
  lemma NoFilterMatters(legacy: LegacyPass, pass: Pass, products: seq<Product>)
    requires pass == MatcherPass(legacy, pass.table, pass.now)
    requires "" in legacy.lists.watchedIds || "" in legacy.lists.ignoredIds
    ensures SameDeals(legacy.Result(products), pass.Result(products))
  {
    forall p | p in products
      ensures IsWatched(legacy.lists, p) || IsExcluded(legacy.lists, p)
    {
      assert "" <= Upper(p.id);
    }
    SameCollections(legacy, pass, products);
    SortPointwise(SameDeal, legacy.Collect(products), pass.Collect(products));
  }

  /** A product the default legacy filter reports and no saved filter does. */
  function Witness(): Product {
    Product("", "", "UNISEX", 2, Some(1), [], "", "", "", false)
  }

  lemma WitnessIsReported(legacy: LegacyPass)
    requires legacy.lists == ListsOf(legacy.config) && LegacyIsDefault(legacy.config)
    requires "" !in legacy.lists.watchedIds && "" !in legacy.lists.ignoredIds
    ensures !IsWatched(legacy.lists, Witness()) && !IsExcluded(legacy.lists, Witness())
    ensures legacy.Reports(Witness())
  {
    var p := Witness();
    assert Upper("") == "";
    assert Upper("UNISEX") == "UNISEX";
    assert p.Discount() == 500 by {
      assert RoundHalfEven(1000, 2) == 500;
    }
    assert legacy.config.SizeNames() == {};
    assert legacy.lists.ignoredKeywords == [];
  }

  lemma NothingMatches(pass: Pass, p: Product)
    requires pass.table == map[]
    ensures pass.Matches(p) == {}
  {
    OrderedEmpty(pass.Matches(p));
    IncreasingDetermined(Ordered(pass.Matches(p)), []);
  }

  /** The migration of a fresh installation preserves the meaning of the
      configuration, for every catalogue, exactly when the configuration is
      not default-shaped, unless an empty prefix watches or ignores everything.
      A default-shaped configuration is not seeded, and the matcher then
      reports watched products only. */
  lemma MigrationPreservesMeaningIff(legacy: LegacyPass, markers: set<string>, now: int)
    requires legacy.lists == ListsOf(legacy.config) && BRIDGE_MARKER !in markers
    ensures var table := Migrated(Tables(markers, map[]), legacy.config).filters;
            (forall products :: SameDeals(legacy.Result(products), MatcherPass(legacy, table, now).Result(products)))
            <==> "" in legacy.lists.watchedIds || "" in legacy.lists.ignoredIds ||
                 var f := legacy.config;
                 !(&& |f.gender| == 2
                   && ((Lower(f.gender[0]) == "men" && Lower(f.gender[1]) == "women")
                       || (Lower(f.gender[0]) == "women" && Lower(f.gender[1]) == "men"))
                   && f.minSalePercentage == 50.0
                   && f.clothing == [] && f.pants == [] && f.shoes == [] && !f.oneSize
                   && f.ignoredKeywords == [])
  {
    LegacyIsDefaultIff(legacy.config);
    var table := Migrated(Tables(markers, map[]), legacy.config).filters;
    var pass := MatcherPass(legacy, table, now);
    if !LegacyIsDefault(legacy.config) {
      forall products ensures SameDeals(legacy.Result(products), pass.Result(products)) {
        SeededMatcherAgrees(legacy, now, products);
      }
    } else if "" in legacy.lists.watchedIds || "" in legacy.lists.ignoredIds {
      forall products ensures SameDeals(legacy.Result(products), pass.Result(products)) {
        NoFilterMatters(legacy, pass, products);
      }
    } else {
      WitnessIsReported(legacy);
      var products := [Witness()];
      assert products[..0] == [];
      assert |legacy.Collect(products)| == 1;
      NothingMatches(pass, Witness());
      assert |pass.Collect(products)| == 0;
      assert !SameDeals(legacy.Result(products), pass.Result(products));
    }
  }
}
