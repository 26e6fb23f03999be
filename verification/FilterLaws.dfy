/** Which products a filter takes, in terms of the fields of the filter and of
    the product, and what the deal made of one says. */
module FilterLaws {
  import opened Text
  import opened Products
  import opened Filters
  import opened Sorting
  import opened Matching
  import opened MatchingLaws
  import opened LegacyEngine

  // ------------------------------------------------------- single tests

  lemma UpperSetMembers(names: seq<string>, x: string)
    ensures x in UpperSet(names) <==> exists name :: name in names && Upper(name) == x
  {
    if name :| name in names && Upper(name) == x {
      var i :| 0 <= i < |names| && names[i] == name;
      assert Upper(names[i]) in UpperSet(names);
    }
  }

  /** No genders, a unisex product, or the product's gender in any case. */
  lemma MatchesGenderIff(p: Product, genders: seq<string>)
    ensures MatchesGender(p, UpperSet(genders))
            <==> || genders == [] || Upper(p.gender) == "UNISEX"
                 || exists g :: g in genders && Upper(g) == Upper(p.gender)
  {
    UpperSetMembers(genders, Upper(p.gender));
    if genders != [] {
      assert Upper(genders[0]) in UpperSet(genders);
    } else {
      assert UpperSet(genders) == {};
    }
  }

  /** The name is one of the three lists in any case, or ONE SIZE if asked for. */
  ghost predicate AsksForSize(clothing: seq<string>, pants: seq<string>, shoes: seq<string>, oneSize: bool,
                              name: string)
  {
    || (exists x :: x in clothing && Upper(x) == name)
    || (exists x :: x in pants && Upper(x) == name)
    || (exists x :: x in shoes && Upper(x) == name)
    || (oneSize && name == "ONE SIZE")
  }

  lemma SizeSetMembers(clothing: seq<string>, pants: seq<string>, shoes: seq<string>, oneSize: bool, name: string)
    ensures name in SizeSet(clothing, pants, shoes, oneSize) <==> AsksForSize(clothing, pants, shoes, oneSize, name)
  {
    UpperSetMembers(clothing + pants + shoes, name);
    assert forall x :: x in clothing + pants + shoes <==> x in clothing || x in pants || x in shoes;
  }

  lemma SizeSetEmptyIff(clothing: seq<string>, pants: seq<string>, shoes: seq<string>, oneSize: bool)
    ensures SizeSet(clothing, pants, shoes, oneSize) == {}
            <==> clothing == [] && pants == [] && shoes == [] && !oneSize
  {
    var all := clothing + pants + shoes;
    if all != [] {
      assert Upper(all[0]) in SizeSet(clothing, pants, shoes, oneSize);
    } else {
      assert UpperSet(all) == {};
      if oneSize {
        assert "ONE SIZE" in SizeSet(clothing, pants, shoes, oneSize);
      }
    }
  }

  /** No size is asked for, or the product has one that is. */
  lemma MatchesSizeIff(p: Product, clothing: seq<string>, pants: seq<string>, shoes: seq<string>, oneSize: bool)
    ensures MatchesSize(p, SizeSet(clothing, pants, shoes, oneSize))
            <==> || (clothing == [] && pants == [] && shoes == [] && !oneSize)
                 || exists s :: s in p.sizes && AsksForSize(clothing, pants, shoes, oneSize, Upper(s.name))
  {
    SizeSetEmptyIff(clothing, pants, shoes, oneSize);
    forall s: Size ensures Upper(s.name) in SizeSet(clothing, pants, shoes, oneSize)
                     <==> AsksForSize(clothing, pants, shoes, oneSize, Upper(s.name)) {
      SizeSetMembers(clothing, pants, shoes, oneSize, Upper(s.name));
    }
    if s :| s in p.sizes && AsksForSize(clothing, pants, shoes, oneSize, Upper(s.name)) {
      var i :| 0 <= i < |p.sizes| && p.sizes[i] == s;
      assert Upper(p.sizes[i].name) in SizeSet(clothing, pants, shoes, oneSize);
    }
  }

  /** A keyword that is not blank is part of the name, in any case. */
  ghost predicate HasKeyword(name: string, keywords: seq<string>) {
    exists k :: k in keywords && !IsBlank(k) && Contains(Lower(name), Lower(k))
  }

  lemma {:induction false} LowerKeywordsMembers(keywords: seq<string>, x: string)
    ensures x in LowerKeywords(keywords) <==> exists k :: k in keywords && !IsBlank(k) && Lower(k) == x
  {
    if keywords != [] {
      LowerKeywordsMembers(keywords[1..], x);
      assert keywords == [keywords[0]] + keywords[1..];
    }
  }

  lemma HasKeywordIff(name: string, keywords: seq<string>)
    ensures ContainsAny(Lower(name), LowerKeywords(keywords)) <==> HasKeyword(name, keywords)
  {
    var lower := LowerKeywords(keywords);
    if ContainsAny(Lower(name), lower) {
      var i :| 0 <= i < |lower| && Contains(Lower(name), lower[i]);
      LowerKeywordsMembers(keywords, lower[i]);
    }
    if k :| k in keywords && !IsBlank(k) && Contains(Lower(name), Lower(k)) {
      LowerKeywordsMembers(keywords, Lower(k));
      var i :| 0 <= i < |lower| && lower[i] == Lower(k);
      assert Contains(Lower(name), lower[i]);
    }
  }

  // ------------------------------------------------------- a saved filter

  /** What the row asks of a product, field by field. */
  ghost predicate Takes(site: Site, f: SavedFilter, p: Product) {
    && !HasKeyword(p.name, f.ignoredKeywords)
    && (f.gender == [] || Upper(p.gender) == "UNISEX" || exists g :: g in f.gender && Upper(g) == Upper(p.gender))
    && (p.promo.None? || p.promo.value >= p.base || p.Discount() as real >= 10.0 * f.minDiscount)
    && ((f.sizesClothing == [] && f.sizesPants == [] && f.sizesShoes == [] && f.oneSizeMatch == 0)
        || exists s :: s in p.sizes
                       && AsksForSize(f.sizesClothing, f.sizesPants, f.sizesShoes, f.oneSizeMatch != 0, Upper(s.name)))
    && (site.storeStockOnlyReliable ==>
          && (f.availability == Online ==> !p.storeStockOnly)
          && (f.availability == InStore ==> p.storeStockOnly))
  }

  lemma DiscountTest(p: Product, min: real)
    ensures MeetsDiscount(p, min)
            <==> p.promo.None? || p.promo.value >= p.base || p.Discount() as real >= 10.0 * min
  {
  }

  lemma TakesIff(site: Site, f: SavedFilter, p: Product)
    ensures FilterMatches(site, f, p) <==> Takes(site, f, p)
  {
    HasKeywordIff(p.name, f.ignoredKeywords);
    MatchesGenderIff(p, f.gender);
    DiscountTest(p, f.minDiscount);
    MatchesSizeIff(p, f.sizesClothing, f.sizesPants, f.sizesShoes, f.oneSizeMatch != 0);
  }

  /** Watched: some configured id, in any case, starts the product's id. */
  ghost predicate WatchedBy(config: FilterConfig, p: Product) {
    exists v :: v in config.watchedVariants && Upper(v.id) <= Upper(p.id)
  }

  /** Ignored: some configured id starts the product's id, or some configured
      keyword is part of its name. */
  ghost predicate IgnoredBy(config: FilterConfig, p: Product) {
    || (exists id :: id in config.ignoredProductIds && Upper(id) <= Upper(p.id))
    || HasKeyword(p.name, config.ignoredKeywords)
  }

  lemma ListsMean(config: FilterConfig, p: Product)
    ensures IsWatched(ListsOf(config), p) <==> WatchedBy(config, p)
    ensures IsExcluded(ListsOf(config), p) <==> IgnoredBy(config, p)
  {
    var lists := ListsOf(config);
    if v :| v in config.watchedVariants && Upper(v.id) <= Upper(p.id) {
      var i :| 0 <= i < |config.watchedVariants| && config.watchedVariants[i] == v;
      assert Upper(config.watchedVariants[i].id) in lists.watchedIds;
    }
    if prefix :| prefix in lists.watchedIds && prefix <= Upper(p.id) {
      var i :| 0 <= i < |config.watchedVariants| && Upper(config.watchedVariants[i].id) == prefix;
      assert config.watchedVariants[i] in config.watchedVariants;
    }
    if id :| id in config.ignoredProductIds && Upper(id) <= Upper(p.id) {
      UpperSetMembers(config.ignoredProductIds, Upper(id));
      assert Upper(id) in lists.ignoredIds;
    }
    if prefix :| prefix in lists.ignoredIds && prefix <= Upper(p.id) {
      UpperSetMembers(config.ignoredProductIds, prefix);
    }
    HasKeywordIff(p.name, config.ignoredKeywords);
  }

  /** From configuration and rows to the report, field by field: a product is
      reported exactly when it is watched, or it is not ignored and some row
      that is enabled and whose snooze, if any, is over takes it. */
  lemma ReportedIff(config: FilterConfig, pass: Pass, p: Product)
    requires pass.lists == ListsOf(config)
    ensures pass.Reports(p)
            <==> || WatchedBy(config, p)
                 || (!IgnoredBy(config, p) &&
                     exists id :: && id in pass.table && pass.table[id].enabled == 1
                                  && (pass.table[id].snoozeUntil == None
                                      || pass.table[id].snoozeUntil.value <= pass.now)
                                  && Takes(pass.site, pass.table[id], p))
  {
    ReportsIff(pass, p);
    ListsMean(config, p);
    forall id | id in pass.table
      ensures FilterMatches(pass.site, pass.table[id], p) <==> Takes(pass.site, pass.table[id], p)
    {
      TakesIff(pass.site, pass.table[id], p);
    }
  }

  /** The legacy engine, field by field. */
  lemma LegacyReportedIff(legacy: LegacyPass, p: Product)
    requires legacy.lists == ListsOf(legacy.config)
    ensures var f := legacy.config;
            legacy.Reports(p)
            <==> || WatchedBy(f, p)
                 || (&& !IgnoredBy(f, p)
                     && (f.gender == [] || Upper(p.gender) == "UNISEX"
                         || exists g :: g in f.gender && Upper(g) == Upper(p.gender))
                     && (p.promo.None? || p.promo.value >= p.base
                         || p.Discount() as real >= 10.0 * f.minSalePercentage)
                     && ((f.clothing == [] && f.pants == [] && f.shoes == [] && !f.oneSize)
                         || exists s :: s in p.sizes
                                        && AsksForSize(f.clothing, f.pants, f.shoes, f.oneSize, Upper(s.name))))
  {
    var f := legacy.config;
    ListsMean(f, p);
    MatchesGenderIff(p, f.gender);
    DiscountTest(p, f.minSalePercentage);
    MatchesSizeIff(p, f.clothing, f.pants, f.shoes, f.oneSize);
  }

  // ------------------------------------------------------- availability

  /** A deal of the result is that of a reported product. */
  lemma DealHasProduct(pass: Pass, products: seq<Product>, item: SaleItem) returns (p: Product)
    requires item in pass.Result(products)
    ensures p in products && pass.Reports(p) && item == pass.ItemOf(p)
  {
    SortIsStable(pass.Collect(products));
    CollectsReported(pass, products);
    var items := pass.Collect(products);
    var i :| 0 <= i < |items| && items[i] == item;
    p := Reported(pass, products)[i];
    assert p in Reported(pass, products);
  }

  /** Where the flag is reliable, a deal tagged by an `online` filter is of a
      product that is not sold in stores only, one tagged by an `in_store`
      filter of one that is. */
  lemma TagsKeepAvailability(pass: Pass, products: seq<Product>, item: SaleItem, id: int) returns (p: Product)
    requires pass.site.storeStockOnlyReliable && item in pass.Result(products) && id in item.matchedFilterIds
    ensures p in products && item == pass.ItemOf(p) && id in pass.table
    ensures pass.table[id].availability == Online ==> !p.storeStockOnly
    ensures pass.table[id].availability == InStore ==> p.storeStockOnly
  {
    p := DealHasProduct(pass, products, item);
    TaggedExactly(pass, p);
    TakesIff(pass.site, pass.table[id], p);
  }

  /** And conversely: of the products a filter takes in mode `both`, mode
      `online` takes those not sold in stores only, and mode `in_store` the
      others; where the flag is unreliable every mode takes them all. */
  lemma ModesSplitBoth(site: Site, f: SavedFilter, p: Product)
    requires FilterMatches(site, f.(availability := Both), p)
    ensures FilterMatches(site, f.(availability := Online), p) <==> !site.storeStockOnlyReliable || !p.storeStockOnly
    ensures FilterMatches(site, f.(availability := InStore), p) <==> !site.storeStockOnlyReliable || p.storeStockOnly
  {
    TakesIff(site, f.(availability := Both), p);
    TakesIff(site, f.(availability := Online), p);
    TakesIff(site, f.(availability := InStore), p);
  }

  /** The rows apart from their modes. */
  ghost predicate SameButModes(a: FilterTable, b: FilterTable) {
    a.Keys == b.Keys && forall id :: id in a ==> a[id].(availability := Both) == b[id].(availability := Both)
  }

  lemma ModeChangesNoMatch(pass: Pass, table: FilterTable, p: Product)
    requires !pass.site.storeStockOnlyReliable && SameButModes(pass.table, table)
    ensures pass.(table := table).Matches(p) == pass.Matches(p)
    ensures SizeUnion(table, pass.Matches(p)) == SizeUnion(pass.table, pass.Matches(p))
    ensures pass.(table := table).ItemsOf(p) == pass.ItemsOf(p)
  {
    forall id | id in pass.table
      ensures pass.table[id].SizeNames() == table[id].SizeNames()
      ensures pass.table[id].IsActive(pass.now) == table[id].IsActive(pass.now)
      ensures FilterMatches(pass.site, pass.table[id], p) == FilterMatches(pass.site, table[id], p)
    {
      assert pass.table[id].(availability := Both) == table[id].(availability := Both);
      TakesIff(pass.site, pass.table[id], p);
      TakesIff(pass.site, table[id], p);
    }
    var after := pass.(table := table);
    assert ActiveIds(table, pass.now) == ActiveIds(pass.table, pass.now);
    forall id ensures id in after.Matches(p) <==> id in pass.Matches(p) {
    }
    assert after.Matches(p) == pass.Matches(p);
  }

  /** Where the flag is unreliable the modes of the rows do not matter. */
  lemma {:induction false} UnreliableFlagIgnoresModes(pass: Pass, table: FilterTable, products: seq<Product>)
    requires !pass.site.storeStockOnlyReliable && SameButModes(pass.table, table)
    ensures pass.(table := table).Collect(products) == pass.Collect(products)
    ensures pass.(table := table).Result(products) == pass.Result(products)
  {
    if products != [] {
      UnreliableFlagIgnoresModes(pass, table, products[..|products| - 1]);
      ModeChangesNoMatch(pass, table, products[|products| - 1]);
    }
  }

  // ------------------------------------------------------- the deal

  /** What a deal says of its product: a discount is known exactly for a promo
      price below the base price, or outside the feed. */
  lemma DealFields(pass: Pass, p: Product)
    ensures var item := pass.ItemOf(p);
            && item.productId == p.id && item.name == p.name && item.gender == p.gender
            && item.originalPrice == p.base && item.discount == p.Discount()
            && item.salePrice == (match p.promo case Some(price) => price case None => p.base)
            && item.priceGroup == p.priceGroup && item.quantities == [] && item.statuses == []
            && (item.hasKnownDiscount
                <==> (p.promo.Some? && p.promo.value < p.base) || Upper(p.id) !in pass.salePids)
  {
  }

  /** The matcher lists all sizes of a watched product, the legacy engine those
      it is configured for, before the watched ones that are new. */
  lemma WatchedSizes(pass: Pass, legacy: LegacyPass, p: Product)
    requires pass.Watches(p)
    ensures Names(p.sizes) <= pass.ItemOf(p).sizes
    ensures Names(MatchingSizes(p.sizes, legacy.config.SizeNames())) <= legacy.ItemOf(p).sizes
  {
  }

  /** The size a watched variant stands for is that of the last product size
      with its display code. */
  lemma {:induction false} NameOfCodeIs(sizes: seq<Size>, code: string) returns (i: int)
    ensures NameOfCode(sizes, code).Some? <==> exists k :: 0 <= k < |sizes| && sizes[k].displayCode == code
    ensures NameOfCode(sizes, code).Some? ==>
              && 0 <= i < |sizes| && sizes[i].displayCode == code && NameOfCode(sizes, code) == Some(sizes[i].name)
              && forall k :: i < k < |sizes| ==> sizes[k].displayCode != code
  {
    i := -1;
    if sizes != [] {
      var n := |sizes| - 1;
      if sizes[n].displayCode == code {
        i := n;
      } else {
        i := NameOfCodeIs(sizes[..n], code);
      }
    }
  }

  /** A product of the pass counts as in the feed when no feed is given; the
      discount of a deal is known exactly for a product on sale, or one that a
      given feed lacks. */
  lemma KnownDiscountIff(given: Option<set<string>>, pass: Pass, products: seq<Product>, p: Product)
    requires p in products && pass.salePids == SalePids(given, products)
    ensures pass.ItemOf(p).hasKnownDiscount
            <==> (p.promo.Some? && p.promo.value < p.base) || (given.Some? && Upper(p.id) !in given.value)
  {
    var i :| 0 <= i < |products| && products[i] == p;
    assert Upper(products[i].id) in UpperIds(products);
  }
}
