/** The legacy engine: one global filter from the configuration file. */
module LegacyEngine {
  import opened Text
  import opened Products
  import opened Filters
  import opened Sorting

  datatype FilterConfig = FilterConfig(
    gender: seq<string>,
    minSalePercentage: real,
    clothing: seq<string>,
    pants: seq<string>,
    shoes: seq<string>,
    oneSize: bool,
    watchedVariants: seq<WatchedVariant>,
    ignoredProductIds: seq<string>,
    ignoredKeywords: seq<string>)
  {
    function SizeNames(): set<string> {
      SizeSet(clothing, pants, shoes, oneSize)
    }
  }

  // ----------------------------------------------------- derived lists

  /** The variants whose id is `key` in upper case, in order. */
  function VariantsUnder(variants: seq<WatchedVariant>, key: string): seq<WatchedVariant> {
    if variants == [] then []
    else VariantsUnder(variants[..|variants| - 1], key)
         + if Upper(variants[|variants| - 1].id) == key then [variants[|variants| - 1]] else []
  }

  function WatchedKeys(variants: seq<WatchedVariant>): set<string> {
    set i | 0 <= i < |variants| :: Upper(variants[i].id)
  }

  function WatchIndex(variants: seq<WatchedVariant>): map<string, seq<WatchedVariant>> {
    map key | key in WatchedKeys(variants) :: VariantsUnder(variants, key)
  }

  /** `_index_watched`: append each variant under its upper-case id. */
  method IndexWatched(variants: seq<WatchedVariant>)
    returns (ids: set<string>, byProduct: map<string, seq<WatchedVariant>>)
    ensures byProduct == WatchIndex(variants) && ids == byProduct.Keys
  {
    byProduct := map[];
    var n := 0;
    while n < |variants|
      invariant 0 <= n <= |variants|
      invariant byProduct == WatchIndex(variants[..n])
    {
      var key := Upper(variants[n].id);
      IndexStep(variants, n);
      byProduct := byProduct[key := (if key in byProduct then byProduct[key] else []) + [variants[n]]];
      n := n + 1;
    }
    assert variants[..n] == variants;
    ids := byProduct.Keys;
  }

  lemma IndexStep(variants: seq<WatchedVariant>, n: nat)
    requires n < |variants|
    ensures var index, key := WatchIndex(variants[..n]), Upper(variants[n].id);
            WatchIndex(variants[..n + 1])
            == index[key := (if key in index then index[key] else []) + [variants[n]]]
  {
    var before, after, key := variants[..n], variants[..n + 1], Upper(variants[n].id);
    assert after[..n] == before;
    NoVariantsUnder(before, key);
    assert after[n] == variants[n];
    assert WatchedKeys(after) == WatchedKeys(before) + {key};
    forall k | k in WatchedKeys(before) && k != key
      ensures VariantsUnder(after, k) == VariantsUnder(before, k)
    {
    }
  }

  lemma {:induction false} NoVariantsUnder(variants: seq<WatchedVariant>, key: string)
    ensures key !in WatchedKeys(variants) ==> VariantsUnder(variants, key) == []
  {
    if variants != [] {
      var n := |variants| - 1;
      NoVariantsUnder(variants[..n], key);
      assert Upper(variants[n].id) in WatchedKeys(variants);
      assert WatchedKeys(variants[..n]) <= WatchedKeys(variants);
    }
  }

  /** The lists a sale checker builds from its configuration. */
  function ListsOf(config: FilterConfig): Lists {
    var index := WatchIndex(config.watchedVariants);
    Lists(index.Keys, index, UpperSet(config.ignoredProductIds), LowerKeywords(config.ignoredKeywords))
  }

  // ----------------------------------------------------- the pipeline

  datatype LegacyPass = LegacyPass(site: Site, lists: Lists, config: FilterConfig, salePids: set<string>)
  {
    predicate PassesFilter(p: Product) {
      && MeetsDiscount(p, config.minSalePercentage)
      && MatchesGender(p, UpperSet(config.gender))
      && MatchesSize(p, config.SizeNames())
    }

    predicate Reports(p: Product) {
      IsWatched(lists, p) || (!IsExcluded(lists, p) && PassesFilter(p))
    }

    function Variants(p: Product): seq<WatchedVariant> {
      if Upper(p.id) in lists.watchedByProduct then lists.watchedByProduct[Upper(p.id)] else []
    }

    function ItemOf(p: Product): SaleItem {
      SaleItemOf(site, p, IsWatched(lists, p), config.SizeNames(), Variants(p), Upper(p.id) in salePids)
    }

    function Collect(products: seq<Product>): seq<SaleItem> {
      if products == [] then []
      else Collect(products[..|products| - 1])
           + if Reports(products[|products| - 1]) then [ItemOf(products[|products| - 1])] else []
    }

    function Result(products: seq<Product>): seq<SaleItem> {
      SortByDiscount(Collect(products))
    }
  }

  /** `apply_filters`. */
  method ApplyFilters(pass: LegacyPass, products: seq<Product>) returns (results: seq<SaleItem>)
    ensures results == pass.Result(products)
  {
    results := [];
    var n := 0;
    while n < |products|
      invariant 0 <= n <= |products|
      invariant results == pass.Collect(products[..n])
    {
      var p := products[n];
      assert products[..n + 1][..n] == products[..n];
      var watched := IsWatched(pass.lists, p);
      if watched || !IsExcluded(pass.lists, p) {
        var passesDiscount := MeetsDiscount(p, pass.config.minSalePercentage);
        var passesGender := MatchesGender(p, UpperSet(pass.config.gender));
        var passesSize := MatchesSize(p, pass.config.SizeNames());
        if watched || (passesDiscount && passesGender && passesSize) {
          var item := ToSaleItem(pass.site, p, watched, pass.config.SizeNames(), pass.Variants(p),
                                 Upper(p.id) in pass.salePids);
          results := results + [item];
        }
      }
      n := n + 1;
    }
    assert products[..n] == products;
    results := SortByDiscount(results);
  }
}
