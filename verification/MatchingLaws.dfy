/** What the matcher promises: which deals it reports, which sizes they list,
    and what snoozing a filter changes. */
module MatchingLaws {
  import opened Text
  import opened Products
  import opened Filters
  import opened IdLists
  import opened FlatMaps
  import opened Matching
  import opened Sorting

  // --------------------------------------------------- what is reported

  /** The reported products, in catalogue order. */
  function Reported(pass: Pass, products: seq<Product>): seq<Product> {
    if products == [] then []
    else Reported(pass, products[..|products| - 1])
         + if pass.Reports(products[|products| - 1]) then [products[|products| - 1]] else []
  }

  lemma {:induction false} CollectsReported(pass: Pass, products: seq<Product>)
    ensures var items, reported := pass.Collect(products), Reported(pass, products);
            && |items| == |reported|
            && forall i :: 0 <= i < |items| ==> items[i] == pass.ItemOf(reported[i])
    ensures forall p :: p in Reported(pass, products) <==> p in products && pass.Reports(p)
  {
    if products != [] {
      var n := |products| - 1;
      CollectsReported(pass, products[..n]);
      assert products == products[..n] + [products[n]];
    }
  }

  /** The product is watched, or is not ignored and an active filter matches. */
  predicate ShouldReport(pass: Pass, p: Product) {
    pass.Watches(p) || (!IsExcluded(pass.lists, p) &&
      exists id :: id in pass.table && pass.table[id].IsActive(pass.now)
                   && FilterMatches(pass.site, pass.table[id], p))
  }

  lemma ReportsIff(pass: Pass, p: Product)
    ensures pass.Reports(p) <==> ShouldReport(pass, p)
  {
    if id :| id in pass.table && pass.table[id].IsActive(pass.now) && FilterMatches(pass.site, pass.table[id], p) {
      assert id in pass.Matches(p);
    } else {
      OrderedEmpty(pass.Matches(p));
      IncreasingDetermined(Ordered(pass.Matches(p)), []);
    }
  }

  /** The result is descending, keeps the catalogue order among equals, and has
      one item for each product that is watched, or is not ignored and is
      matched by an active filter. */
  lemma ResultIsStableSelection(pass: Pass, products: seq<Product>)
    ensures var r, items, reported := pass.Result(products), pass.Collect(products), Reported(pass, products);
            && Descending(r)
            && (forall d: nat :: WithDiscount(r, d) == WithDiscount(items, d))
            && |r| == |items| == |reported|
            && (forall i :: 0 <= i < |items| ==> items[i] == pass.ItemOf(reported[i]))
    ensures forall p :: p in Reported(pass, products) <==> p in products && ShouldReport(pass, p)
  {
    SortIsStable(pass.Collect(products));
    CollectsReported(pass, products);
    forall p ensures pass.Reports(p) <==> ShouldReport(pass, p) {
      ReportsIff(pass, p);
    }
  }

  /** A watched item carries no ids; any other one carries exactly the ids of
      its matching active filters, in id order, and at least one. */
  lemma TaggedExactly(pass: Pass, p: Product)
    requires pass.Reports(p)
    ensures var item := pass.ItemOf(p);
            && item.isWatched == pass.Watches(p)
            && (item.isWatched ==> item.matchedFilterIds == [])
            && (!item.isWatched ==>
                  && item.matchedFilterIds != []
                  && Increasing(item.matchedFilterIds)
                  && forall id :: id in item.matchedFilterIds <==>
                       id in pass.table && pass.table[id].IsActive(pass.now)
                       && FilterMatches(pass.site, pass.table[id], p))
  {
    OrderedEmpty(pass.Matches(p));
  }

  // ------------------------------------------------------- the size union

  /** The lists of a sale checker: the watched ids are the keys of its index,
      so a product that is not watched has no watched variants. */
  predicate Indexed(lists: Lists) {
    lists.watchedIds == lists.watchedByProduct.Keys
  }

  lemma UnwatchedHasNoVariants(pass: Pass, p: Product)
    requires Indexed(pass.lists) && !pass.Watches(p)
    ensures pass.Variants(p) == []
  {
    assert Upper(p.id) <= Upper(p.id);
  }

  lemma {:induction false} SizesInMembers(sizes: seq<Size>, allowed: set<string>)
    ensures forall s :: s in SizesIn(sizes, allowed) <==> s in sizes && Upper(s.name) in allowed
  {
    if sizes != [] {
      SizesInMembers(sizes[1..], allowed);
      assert sizes == [sizes[0]] + sizes[1..];
    }
  }

  /** The sizes of an item that no watched variant overlays. */
  lemma ListedSizes(pass: Pass, p: Product)
    requires Indexed(pass.lists) && !pass.Watches(p)
    ensures pass.ItemOf(p).sizes
            == Names(MatchingSizes(p.sizes, SizeUnion(pass.table, pass.Matches(p))))
  {
    UnwatchedHasNoVariants(pass, p);
  }

  lemma UnionEmptyIff(table: FilterTable, ids: set<int>)
    ensures SizeUnion(table, ids) == {}
            <==> forall id :: id in ids && id in table ==> table[id].SizeNames() == {}
  {
    var union := SizeUnion(table, ids);
    if union != {} {
      var name := AnyOf(union);
      assert exists id :: id in ids && id in table && name in table[id].SizeNames();
    } else {
      forall id | id in ids && id in table ensures table[id].SizeNames() == {} {
        NamedInUnion(table, ids, id);
      }
    }
  }

  lemma NamedInUnion(table: FilterTable, ids: set<int>, id: int)
    requires id in ids && id in table
    ensures table[id].SizeNames() <= SizeUnion(table, ids)
  {
  }

  /** A matched filter names the size, or no matched filter names any. */
  ghost predicate IsWanted(pass: Pass, p: Product, s: Size) {
    || (forall id :: id in pass.Matches(p) ==> pass.table[id].SizeNames() == {})
    || (exists id :: id in pass.Matches(p) && Upper(s.name) in pass.table[id].SizeNames())
  }

  lemma {:induction false} SizesInAppended(sizes: seq<Size>, s: Size, allowed: set<string>)
    ensures SizesIn(sizes + [s], allowed)
            == SizesIn(sizes, allowed) + if Upper(s.name) in allowed then [s] else []
  {
    if sizes == [] {
      assert [s][1..] == [] && sizes + [s] == [s];
    } else {
      SizesInAppended(sizes[1..], s, allowed);
      assert (sizes + [s])[1..] == sizes[1..] + [s] && (sizes + [s])[0] == sizes[0];
      Regroup(if Upper(sizes[0].name) in allowed then [sizes[0]] else [], SizesIn(sizes[1..], allowed),
              if Upper(s.name) in allowed then [s] else []);
    }
  }

  lemma {:induction false} SizesInKeeps(p: Size -> bool, sizes: seq<Size>, allowed: set<string>)
    requires forall s :: p(s) <==> Upper(s.name) in allowed
    ensures SizesIn(sizes, allowed) == Kept(p, sizes)
  {
    if sizes != [] {
      var n := |sizes| - 1;
      SizesInKeeps(p, sizes[..n], allowed);
      SizesInAppended(sizes[..n], sizes[n], allowed);
      assert sizes == sizes[..n] + [sizes[n]];
    }
  }

  lemma WantedIff(pass: Pass, p: Product, s: Size)
    ensures var union := SizeUnion(pass.table, pass.Matches(p));
            IsWanted(pass, p, s) <==> union == {} || Upper(s.name) in union
  {
    UnionEmptyIff(pass.table, pass.Matches(p));
  }

  /** A deal that is not watched lists, in product order, exactly the product's
      sizes that one of its matched filters names; all of them if no matched
      filter names any. */
  lemma SizeUnionLaw(pass: Pass, p: Product)
    requires Indexed(pass.lists) && pass.Reports(p) && !pass.Watches(p)
    ensures pass.ItemOf(p).sizes == Names(Kept((s: Size) => IsWanted(pass, p, s), p.sizes))
  {
    var wanted := (s: Size) => IsWanted(pass, p, s);
    var union := SizeUnion(pass.table, pass.Matches(p));
    ListedSizes(pass, p);
    forall s ensures wanted(s) <==> union == {} || Upper(s.name) in union {
      WantedIff(pass, p, s);
    }
    if union == {} {
      KeptAll(wanted, p.sizes);
    } else {
      SizesInKeeps(wanted, p.sizes, union);
    }
  }

  /** Every matched filter that names sizes keeps one of them listed. */
  lemma MatchedFilterKeepsASize(pass: Pass, p: Product, id: int)
    requires Indexed(pass.lists) && pass.Reports(p) && !pass.Watches(p)
    requires id in pass.Matches(p) && pass.table[id].SizeNames() != {}
    ensures exists i :: 0 <= i < |pass.ItemOf(p).sizes| && Upper(pass.ItemOf(p).sizes[i]) in pass.table[id].SizeNames()
  {
    var union := SizeUnion(pass.table, pass.Matches(p));
    ListedSizes(pass, p);
    NamedInUnion(pass.table, pass.Matches(p), id);
    var k :| 0 <= k < |p.sizes| && Upper(p.sizes[k].name) in pass.table[id].SizeNames();
    var i := ListedAt(p.sizes, union, k);
    assert Upper(pass.ItemOf(p).sizes[i]) in pass.table[id].SizeNames();
  }

  lemma ListedAt(sizes: seq<Size>, union: set<string>, k: nat) returns (i: nat)
    requires k < |sizes| && Upper(sizes[k].name) in union
    ensures i < |Names(MatchingSizes(sizes, union))| && Names(MatchingSizes(sizes, union))[i] == sizes[k].name
  {
    SizesInMembers(sizes, union);
    var listed := MatchingSizes(sizes, union);
    assert sizes[k] in listed;
    i :| 0 <= i < |listed| && listed[i] == sizes[k];
  }

  /** When all matched filters name sizes, a listed size is one of theirs: no
      selection of the listed sizes can leave all matched filters without one. */
  lemma ListedSizeIsNamed(pass: Pass, p: Product, i: nat)
    requires Indexed(pass.lists) && pass.Reports(p) && !pass.Watches(p)
    requires forall id :: id in pass.Matches(p) ==> pass.table[id].SizeNames() != {}
    requires i < |pass.ItemOf(p).sizes|
    ensures exists id :: id in pass.ItemOf(p).matchedFilterIds && id in pass.table
                         && Upper(pass.ItemOf(p).sizes[i]) in pass.table[id].SizeNames()
  {
    var union := SizeUnion(pass.table, pass.Matches(p));
    ListedSizes(pass, p);
    SizesInMembers(p.sizes, union);
    var sizes := MatchingSizes(p.sizes, union);
    var id := MinOf(pass.Matches(p));
    UnionEmptyIff(pass.table, pass.Matches(p));
    assert sizes[i] in sizes;
    assert Upper(sizes[i].name) in union;
  }

  // --------------------------------------------------------------- snoozing

  function Snoozed(table: FilterTable, id: int, until: int): FilterTable
    requires id in table
  {
    table[id := table[id].(snoozeUntil := Some(until))]
  }

  /** The item without the lists that depend on which filters match. */
  function Core(item: SaleItem): SaleItem {
    item.(sizes := [], urls := [], colorNames := [])
  }

  function CoreOnly(): Rewrite {
    (item: SaleItem) => [Core(item)]
  }

  /** Strip `id` from an item; an item only `id` tagged disappears. */
  function Stripped(item: SaleItem, id: int): seq<SaleItem> {
    if item.isWatched then [item]
    else if Removed(item.matchedFilterIds, id) == [] then []
    else [item.(matchedFilterIds := Removed(item.matchedFilterIds, id))]
  }

  function StripCore(id: int): Rewrite {
    (item: SaleItem) => Stripped(Core(item), id)
  }

  lemma SnoozedMatches(pass: Pass, id: int, until: int, p: Product)
    requires id in pass.table && until > pass.now
    ensures pass.(table := Snoozed(pass.table, id, until)).Matches(p) == pass.Matches(p) - {id}
  {
  }

  /** One product before and after the snooze. */
  lemma SnoozeOne(pass: Pass, id: int, until: int, p: Product)
    requires id in pass.table && until > pass.now
    ensures var after := pass.(table := Snoozed(pass.table, id, until));
            (if after.Reports(p) then [Core(after.ItemOf(p))] else [])
            == if pass.Reports(p) then Stripped(Core(pass.ItemOf(p)), id) else []
  {
    var after := pass.(table := Snoozed(pass.table, id, until));
    SnoozedMatches(pass, id, until, p);
    OrderedRemoved(pass.Matches(p), id);
    OrderedEmpty(pass.Matches(p) - {id});
  }

  lemma {:induction false} SnoozeCollect(pass: Pass, id: int, until: int, products: seq<Product>)
    requires id in pass.table && until > pass.now
    ensures RewriteAll(CoreOnly(), pass.(table := Snoozed(pass.table, id, until)).Collect(products))
            == RewriteAll(StripCore(id), pass.Collect(products))
  {
    if products != [] {
      var after := pass.(table := Snoozed(pass.table, id, until));
      var n := |products| - 1;
      var p := products[n];
      var now' := if after.Reports(p) then [after.ItemOf(p)] else [];
      var was := if pass.Reports(p) then [pass.ItemOf(p)] else [];
      SnoozeCollect(pass, id, until, products[..n]);
      SnoozeOne(pass, id, until, p);
      FlatMapConcat(CoreOnly(), after.Collect(products[..n]), now');
      FlatMapConcat(StripCore(id), pass.Collect(products[..n]), was);
      if now' != [] { FlatMapOne(CoreOnly(), now'[0]); }
      if was != [] { FlatMapOne(StripCore(id), was[0]); }
    }
  }

  lemma RewritesKeepDiscount(id: int)
    ensures KeepsDiscount(CoreOnly()) && KeepsDiscount(StripCore(id))
  {
  }

  /** Snoozing one filter removes exactly the deals only it tagged, strips its
      id from the others, and keeps their order. */
  lemma SnoozeLaw(pass: Pass, id: int, until: int, products: seq<Product>)
    requires id in pass.table && until > pass.now
    ensures RewriteAll(CoreOnly(), pass.(table := Snoozed(pass.table, id, until)).Result(products))
            == RewriteAll(StripCore(id), pass.Result(products))
  {
    var after := pass.(table := Snoozed(pass.table, id, until));
    SnoozeCollect(pass, id, until, products);
    RewritesKeepDiscount(id);
    SortOfRewrite(CoreOnly(), after.Collect(products));
    SortOfRewrite(StripCore(id), pass.Collect(products));
  }

  lemma SmallerUnionGrowsIff(sizes: seq<Size>, union: set<string>, smaller: set<string>)
    requires smaller <= union
    ensures (exists s :: s in MatchingSizes(sizes, smaller) && s !in MatchingSizes(sizes, union))
            <==> smaller == {} && union != {} && exists s :: s in sizes && Upper(s.name) !in union
  {
    SizesInMembers(sizes, union);
    SizesInMembers(sizes, smaller);
    if s :| s in MatchingSizes(sizes, smaller) && s !in MatchingSizes(sizes, union) {
      assert s in sizes && Upper(s.name) !in union;
    }
    if smaller == {} && union != {} {
      if s :| s in sizes && Upper(s.name) !in union {
        assert s in MatchingSizes(sizes, smaller) && s !in MatchingSizes(sizes, union);
      }
    }
  }

  /** The list of sizes may grow when a filter is snoozed, because a size-free
      filter adds nothing to the union. It does exactly when the remaining
      matched filters name no sizes and some product size was not listed. */
  lemma SnoozeGrowsSizesIff(pass: Pass, id: int, until: int, p: Product)
    requires id in pass.table && until > pass.now && Indexed(pass.lists)
    requires pass.Reports(p) && !pass.Watches(p)
    requires pass.(table := Snoozed(pass.table, id, until)).Reports(p)
    ensures var after := pass.(table := Snoozed(pass.table, id, until));
            var union := SizeUnion(pass.table, pass.Matches(p));
            (exists s :: s in MatchingSizes(p.sizes, SizeUnion(after.table, after.Matches(p)))
                         && s !in MatchingSizes(p.sizes, union))
            <==> && (forall k :: k in pass.Matches(p) && k != id ==> pass.table[k].SizeNames() == {})
                 && union != {}
                 && exists s :: s in p.sizes && Upper(s.name) !in union
  {
    var after := pass.(table := Snoozed(pass.table, id, until));
    SnoozedMatches(pass, id, until, p);
    var union, union' := SizeUnion(pass.table, pass.Matches(p)), SizeUnion(after.table, after.Matches(p));
    assert union' <= union;
    SmallerUnionGrowsIff(p.sizes, union, union');
    UnionEmptyIff(after.table, after.Matches(p));
    assert forall k :: k in after.Matches(p) <==> k in pass.Matches(p) && k != id;
    assert forall k :: k in pass.Matches(p) && k != id ==> after.table[k] == pass.table[k];
    assert union' == {} <==> forall k :: k in pass.Matches(p) && k != id ==> pass.table[k].SizeNames() == {};
  }
}
