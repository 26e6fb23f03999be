/** The multi-filter matcher: every product is tried against every active saved
    filter, and each deal carries the ids of the filters it matched. */
module Matching {
  import opened Text
  import opened Products
  import opened Filters
  import opened IdLists
  import opened Sorting

  datatype Availability = Both | Online | InStore

  datatype SavedFilter = SavedFilter(
    gender: seq<string>,
    minDiscount: real,
    sizesClothing: seq<string>,
    sizesPants: seq<string>,
    sizesShoes: seq<string>,
    oneSizeMatch: int,
    availability: Availability,
    ignoredKeywords: seq<string>,
    enabled: int,
    snoozeUntil: Option<int>)
  {
    function SizeNames(): set<string> {
      SizeSet(sizesClothing, sizesPants, sizesShoes, oneSizeMatch != 0)
    }

    predicate IsActive(now: int) {
      enabled == 1 && (snoozeUntil.None? || snoozeUntil.value <= now)
    }
  }

  /** The `saved_filters` table by primary key. */
  type FilterTable = map<int, SavedFilter>

  // ---------------------------------------------------------- one filter

  /** The tests that come before the availability test. */
  predicate PassesContent(f: SavedFilter, p: Product) {
    && !ContainsAny(Lower(p.name), LowerKeywords(f.ignoredKeywords))
    && MatchesGender(p, UpperSet(f.gender))
    && MeetsDiscount(p, f.minDiscount)
    && MatchesSize(p, f.SizeNames())
  }

  /** Where the store flag is unreliable, every mode behaves like `both`. */
  predicate PassesAvailability(site: Site, f: SavedFilter, p: Product) {
    match f.availability
    case Both => true
    case Online => site.storeStockOnlyReliable ==> !p.storeStockOnly
    case InStore => site.storeStockOnlyReliable ==> p.storeStockOnly
  }

  predicate FilterMatches(site: Site, f: SavedFilter, p: Product) {
    PassesContent(f, p) && PassesAvailability(site, f, p)
  }

  /** The test that falls back to `both` with a logged warning. */
  predicate FallsBack(site: Site, f: SavedFilter, p: Product) {
    PassesContent(f, p) && f.availability.InStore? && !site.storeStockOnlyReliable
  }

  // ------------------------------------------------------- specification

  function ActiveIds(table: FilterTable, now: int): set<int> {
    set id | id in table && table[id].IsActive(now)
  }

  function MatchedIds(site: Site, table: FilterTable, now: int, p: Product): set<int> {
    set id | id in ActiveIds(table, now) && FilterMatches(site, table[id], p)
  }

  /** The sizes the filters `ids` name; a size-free filter adds nothing. */
  function SizeUnion(table: FilterTable, ids: set<int>): set<string> {
    set id, name | id in ids && id in table && name in table[id].SizeNames() :: name
  }

  /** One matcher pass: its database rows, lists, sale feed and clock. */
  datatype Pass = Pass(site: Site, lists: Lists, table: FilterTable, now: int, salePids: set<string>)
  {
    predicate Watches(p: Product) {
      IsWatched(lists, p)
    }

    predicate Considers(p: Product) {
      !Watches(p) && !IsExcluded(lists, p)
    }

    function Matches(p: Product): set<int> {
      MatchedIds(site, table, now, p)
    }

    function Variants(p: Product): seq<WatchedVariant> {
      if Upper(p.id) in lists.watchedByProduct then lists.watchedByProduct[Upper(p.id)] else []
    }

    predicate InFeed(p: Product) {
      Upper(p.id) in salePids
    }

    predicate Reports(p: Product) {
      Watches(p) || (Considers(p) && Matches(p) != {})
    }

    /** The sale item of a product this pass reports. */
    function ItemOf(p: Product): SaleItem {
      if Watches(p) then SaleItemOf(site, p, true, {}, Variants(p), InFeed(p))
      else SaleItemOf(site, p, false, SizeUnion(table, Matches(p)), Variants(p), InFeed(p))
           .(matchedFilterIds := Ordered(Matches(p)))
    }

    function ItemsOf(p: Product): seq<SaleItem> {
      if Reports(p) then [ItemOf(p)] else []
    }

    function Collect(products: seq<Product>): seq<SaleItem> {
      if products == [] then []
      else Collect(products[..|products| - 1]) + ItemsOf(products[|products| - 1])
    }

    function Result(products: seq<Product>): seq<SaleItem> {
      SortByDiscount(Collect(products))
    }

    predicate WarnsAny(products: seq<Product>) {
      products != [] && (WarnsAny(products[..|products| - 1]) || Warns(products[|products| - 1]))
    }

    predicate Warns(p: Product) {
      Considers(p) && exists id :: id in ActiveIds(table, now) && FallsBack(site, table[id], p)
    }
  }

  function UpperIds(products: seq<Product>): set<string> {
    set i | 0 <= i < |products| :: Upper(products[i].id)
  }

  /** The products' own ids stand in when no sale feed is given. */
  function SalePids(given: Option<set<string>>, products: seq<Product>): set<string> {
    if given.Some? then given.value else UpperIds(products)
  }

  // ------------------------------------------ the loops' running results

  /** The ids of `ids` whose filter matches, in order. */
  function Tried(site: Site, table: FilterTable, ids: seq<int>, p: Product): seq<int> {
    if ids == [] then []
    else
      var before, id := Tried(site, table, ids[..|ids| - 1], p), ids[|ids| - 1];
      if id in table && FilterMatches(site, table[id], p) then before + [id] else before
  }

  function Named(table: FilterTable, ids: seq<int>): set<string> {
    if ids == [] then {}
    else
      var id := ids[|ids| - 1];
      Named(table, ids[..|ids| - 1]) + if id in table then table[id].SizeNames() else {}
  }

  predicate AnyFallsBack(site: Site, table: FilterTable, ids: seq<int>, p: Product) {
    ids != [] &&
      var id := ids[|ids| - 1];
      AnyFallsBack(site, table, ids[..|ids| - 1], p) || (id in table && FallsBack(site, table[id], p))
  }

  lemma {:induction false} TriedMembers(site: Site, table: FilterTable, ids: seq<int>, p: Product)
    ensures forall id :: id in Tried(site, table, ids, p)
                         <==> id in ids && id in table && FilterMatches(site, table[id], p)
    ensures Increasing(ids) ==> Increasing(Tried(site, table, ids, p))
  {
    if ids != [] {
      var before, id := Tried(site, table, ids[..|ids| - 1], p), ids[|ids| - 1];
      TriedMembers(site, table, ids[..|ids| - 1], p);
      assert ids == ids[..|ids| - 1] + [id];
      if Increasing(ids) {
        forall k | 0 <= k < |before| ensures before[k] < id {
          assert before[k] in before;
        }
      }
    }
  }

  lemma {:induction false} NamedMembers(table: FilterTable, ids: seq<int>)
    ensures forall name :: name in Named(table, ids)
                           <==> exists id :: id in ids && id in table && name in table[id].SizeNames()
  {
    if ids != [] {
      NamedMembers(table, ids[..|ids| - 1]);
      assert ids == ids[..|ids| - 1] + [ids[|ids| - 1]];
    }
  }

  lemma {:induction false} FallsBackMembers(site: Site, table: FilterTable, ids: seq<int>, p: Product)
    ensures AnyFallsBack(site, table, ids, p)
            <==> exists id :: id in ids && id in table && FallsBack(site, table[id], p)
  {
    if ids != [] {
      FallsBackMembers(site, table, ids[..|ids| - 1], p);
      assert ids == ids[..|ids| - 1] + [ids[|ids| - 1]];
    }
  }

  /** One more filter tried. */
  lemma TriedStep(site: Site, table: FilterTable, ids: seq<int>, n: nat, p: Product)
    requires n < |ids|
    ensures var id, before, after := ids[n], ids[..n], ids[..n + 1];
            var matches := id in table && FilterMatches(site, table[id], p);
            && Tried(site, table, after, p) == Tried(site, table, before, p) + (if matches then [id] else [])
            && (matches ==> Named(table, Tried(site, table, after, p))
                            == Named(table, Tried(site, table, before, p)) + table[id].SizeNames())
            && (AnyFallsBack(site, table, after, p)
                <==> AnyFallsBack(site, table, before, p) || (id in table && FallsBack(site, table[id], p)))
  {
    var before, after := ids[..n], ids[..n + 1];
    assert after[..|after| - 1] == before;
    var t := Tried(site, table, before, p);
    assert (t + [ids[n]])[..|t|] == t;
  }

  /** The running results over all active filters are the specified ones. */
  lemma TriedAll(pass: Pass, filters: seq<int>, p: Product)
    requires filters == Ordered(ActiveIds(pass.table, pass.now))
    ensures Tried(pass.site, pass.table, filters, p) == Ordered(pass.Matches(p))
    ensures Named(pass.table, Ordered(pass.Matches(p))) == SizeUnion(pass.table, pass.Matches(p))
    ensures AnyFallsBack(pass.site, pass.table, filters, p)
            <==> exists id :: id in ActiveIds(pass.table, pass.now) && FallsBack(pass.site, pass.table[id], p)
  {
    TriedMembers(pass.site, pass.table, filters, p);
    NamedMembers(pass.table, Ordered(pass.Matches(p)));
    FallsBackMembers(pass.site, pass.table, filters, p);
    IncreasingDetermined(Tried(pass.site, pass.table, filters, p), Ordered(pass.Matches(p)));
  }

  lemma PassStep(pass: Pass, products: seq<Product>, n: nat)
    requires n < |products|
    ensures pass.Collect(products[..n + 1]) == pass.Collect(products[..n]) + pass.ItemsOf(products[n])
    ensures pass.WarnsAny(products[..n + 1]) <==> pass.WarnsAny(products[..n]) || pass.Warns(products[n])
  {
    assert products[..n + 1][..n] == products[..n];
  }

  // -------------------------------------------------------- the matcher

  class Matcher {
    const site: Site
    var warnedCountries: set<string>
    var lastNoFilterWarningAt: Option<int>

    constructor (site: Site)
      ensures this.site == site && warnedCountries == {} && lastNoFilterWarningAt == None
    {
      this.site := site;
      warnedCountries := {};
      lastNoFilterWarningAt := None;
    }

    method WarnIfNoActiveFilters(now: int)
      modifies this`lastNoFilterWarningAt
      ensures lastNoFilterWarningAt
              == var last := old(lastNoFilterWarningAt);
                 if last.None? || now - last.value > 3600 then Some(now) else last
    {
      if lastNoFilterWarningAt.None? || now - lastNoFilterWarningAt.value > 3600 {
        lastNoFilterWarningAt := Some(now);
      }
    }

    method MatchesAvailability(f: SavedFilter, p: Product) returns (ok: bool)
      modifies this`warnedCountries
      ensures ok == PassesAvailability(site, f, p)
      ensures warnedCountries
              == old(warnedCountries)
                 + if f.availability.InStore? && !site.storeStockOnlyReliable then {site.countryCode} else {}
    {
      if f.availability.Both? {
        return true;
      }
      if !site.storeStockOnlyReliable {
        if f.availability.InStore? && site.countryCode !in warnedCountries {
          warnedCountries := warnedCountries + {site.countryCode};
        }
        return true;
      }
      return if f.availability.Online? then !p.storeStockOnly else p.storeStockOnly;
    }

    /** One round of the inner loop. */
    method TryFilter(f: SavedFilter, p: Product) returns (ok: bool)
      modifies this`warnedCountries
      ensures ok == FilterMatches(site, f, p)
      ensures warnedCountries == old(warnedCountries) + if FallsBack(site, f, p) then {site.countryCode} else {}
    {
      if ContainsAny(Lower(p.name), LowerKeywords(f.ignoredKeywords)) {
        return false;
      }
      if !MatchesGender(p, UpperSet(f.gender)) {
        return false;
      }
      if !MeetsDiscount(p, f.minDiscount) {
        return false;
      }
      if !MatchesSize(p, f.SizeNames()) {
        return false;
      }
      ok := MatchesAvailability(f, p);
    }

    /** The inner loop: which filters match, and the sizes they name. */
    method TryFilters(table: FilterTable, filters: seq<int>, p: Product)
      returns (matched: seq<int>, union: set<string>)
      requires forall id :: id in filters ==> id in table
      modifies this`warnedCountries
      ensures matched == Tried(site, table, filters, p)
      ensures union == Named(table, matched)
      ensures warnedCountries
              == old(warnedCountries) + if AnyFallsBack(site, table, filters, p) then {site.countryCode} else {}
    {
      matched, union := [], {};
      var n := 0;
      while n < |filters|
        invariant 0 <= n <= |filters|
        invariant matched == Tried(site, table, filters[..n], p)
        invariant union == Named(table, matched)
        invariant warnedCountries
                  == old(warnedCountries)
                     + if AnyFallsBack(site, table, filters[..n], p) then {site.countryCode} else {}
      {
        TriedStep(site, table, filters, n, p);
        assert filters[n] in filters;
        var ok := TryFilter(table[filters[n]], p);
        if ok {
          matched := matched + [filters[n]];
          union := union + table[filters[n]].SizeNames();
        }
        n := n + 1;
      }
      assert filters[..n] == filters;
    }

    /** The body of the outer loop: the item of one product, if reported. */
    method TryProduct(pass: Pass, filters: seq<int>, p: Product) returns (items: seq<SaleItem>)
      requires pass.site == site
      requires filters == Ordered(ActiveIds(pass.table, pass.now))
      modifies this`warnedCountries
      ensures items == pass.ItemsOf(p)
      ensures warnedCountries == old(warnedCountries) + if pass.Warns(p) then {site.countryCode} else {}
    {
      items := [];
      var watched := IsWatched(pass.lists, p);
      if !watched && IsExcluded(pass.lists, p) {
        return;
      }
      if watched {
        var item := ToSaleItem(site, p, true, {}, pass.Variants(p), pass.InFeed(p));
        return [item];
      }
      var matched, union := TryFilters(pass.table, filters, p);
      TriedAll(pass, filters, p);
      OrderedEmpty(pass.Matches(p));
      if matched == [] {
        return;
      }
      var item := ToSaleItem(site, p, false, union, pass.Variants(p), pass.InFeed(p));
      items := [item.(matchedFilterIds := matched)];
    }

    /** The outer loop. */
    method TryProducts(pass: Pass, filters: seq<int>, products: seq<Product>) returns (results: seq<SaleItem>)
      requires pass.site == site
      requires filters == Ordered(ActiveIds(pass.table, pass.now))
      modifies this`warnedCountries
      ensures results == pass.Collect(products)
      ensures warnedCountries == old(warnedCountries) + if pass.WarnsAny(products) then {site.countryCode} else {}
    {
      results := [];
      for n := 0 to |products|
        invariant results == pass.Collect(products[..n])
        invariant warnedCountries
                  == old(warnedCountries) + if pass.WarnsAny(products[..n]) then {site.countryCode} else {}
      {
        PassStep(pass, products, n);
        var items := TryProduct(pass, filters, products[n]);
        results := results + items;
      }
      assert products[..|products|] == products;
    }

    /** `Matcher.apply` on the rows of `table`. */
    method Apply(products: seq<Product>, lists: Lists, table: FilterTable,
                 salePids: Option<set<string>>, now: int) returns (results: seq<SaleItem>)
      modifies this
      ensures var pass := Pass(site, lists, table, now, SalePids(salePids, products));
              && results == pass.Result(products)
              && warnedCountries
                 == old(warnedCountries)
                    + if pass.WarnsAny(products) then {site.countryCode} else {}
      ensures lastNoFilterWarningAt
              == var last := old(lastNoFilterWarningAt);
                 if ActiveIds(table, now) == {} && (last.None? || now - last.value > 3600) then Some(now) else last
    {
      var pass := Pass(site, lists, table, now, SalePids(salePids, products));
      var filters := Ordered(ActiveIds(table, now));
      OrderedEmpty(ActiveIds(table, now));
      if filters == [] {
        WarnIfNoActiveFilters(now);
      }
      results := TryProducts(pass, filters, products);
      results := SortByDiscount(results);
    }
  }

}
