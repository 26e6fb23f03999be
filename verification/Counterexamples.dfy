/** Concrete inputs at which the code does not do what one would expect. The
    general laws say for which inputs that is; these show that it happens. */
module Counterexamples {
  import opened Text
  import opened Products
  import opened ProductUrls
  import opened Filters
  import opened Matching
  import opened MatchingLaws
  import opened Stock
  import opened StockLaws
  import opened SaleChecks
  import opened Monitor
  import opened WatchList

  // ------------------------------------------------------- saved filters

  const SMALL := Size("S", "SMA002", "002")
  const MEDIUM := Size("M", "SMA003", "003")
  const SHIRT := Product("E1", "shirt", "MEN", 20, Some(10), [SMALL, MEDIUM], "00", "09", "COL09", false)
  const SHOP := Site("https://shop", "de", false, false, true)
  const NO_LISTS := Lists({}, map[], {}, [])

  /** An enabled filter that asks for sizes only. */
  function Naming(names: seq<string>): SavedFilter {
    SavedFilter([], 0.0, names, [], [], 0, Both, [], 1, None)
  }

  function PassOver(table: FilterTable): Pass {
    Pass(SHOP, NO_LISTS, table, 0, {})
  }

  lemma NamedSizes(names: seq<string>)
    requires names == [] || names == ["S"] || names == ["M"]
    ensures Naming(names).SizeNames() == if names == [] then {} else {names[0]}
  {
    assert names + [] + [] == names;
    assert Upper("S") == "S" && Upper("M") == "M";
  }

  lemma ShirtMatches(names: seq<string>)
    requires names == [] || names == ["S"] || names == ["M"]
    ensures FilterMatches(SHOP, Naming(names), SHIRT)
  {
    NamedSizes(names);
    assert Upper(SHIRT.sizes[0].name) == "S" && Upper(SHIRT.sizes[1].name) == "M";
    assert Naming(names).SizeNames() == {} || names[0] in Naming(names).SizeNames();
    assert SHIRT.Discount() as real / 10.0 >= 0.0;
  }

  lemma ShirtIsConsidered(table: FilterTable)
    ensures Indexed(NO_LISTS) && PassOver(table).Considers(SHIRT)
  {
    assert NO_LISTS.watchedIds == NO_LISTS.watchedByProduct.Keys;
  }

  lemma ShirtSizes()
    ensures Names([MEDIUM]) == ["M"] && Names([SMALL, MEDIUM]) == ["S", "M"]
    ensures MatchingSizes(SHIRT.sizes, {}) == [SMALL, MEDIUM]
    ensures MatchingSizes(SHIRT.sizes, {"M"}) == [MEDIUM]
    ensures MatchingSizes(SHIRT.sizes, {"M", "S"}) == [SMALL, MEDIUM]
  {
    assert Upper(SMALL.name) == "S" && Upper(MEDIUM.name) == "M";
    assert "M" in {"M"} && "S" !in {"M"};
    assert SHIRT.sizes[1..] == [MEDIUM] && [MEDIUM][1..] == [];
    assert SizesIn([MEDIUM], {"M"}) == [MEDIUM] && SizesIn([MEDIUM], {"M", "S"}) == [MEDIUM];
  }

  lemma UnionOfTwo(table: FilterTable)
    requires table.Keys == {1, 2}
    ensures SizeUnion(table, {1, 2}) == table[1].SizeNames() + table[2].SizeNames()
  {
    assert 1 in table && 2 in table;
  }

  lemma ShirtMatchesBoth(table: FilterTable, a: seq<string>, b: seq<string>)
    requires table == map[1 := Naming(a), 2 := Naming(b)]
    requires FilterMatches(SHOP, Naming(a), SHIRT) && FilterMatches(SHOP, Naming(b), SHIRT)
    ensures PassOver(table).Matches(SHIRT) == {1, 2} && PassOver(table).Reports(SHIRT)
  {
    assert table[1].IsActive(0) && table[2].IsActive(0);
    assert ActiveIds(table, 0) == {1, 2};
    assert 1 in PassOver(table).Matches(SHIRT);
    ShirtIsConsidered(table);
  }

  lemma TwoMatches(a: seq<string>, b: seq<string>)
    requires a == ["M"] && (b == [] || b == ["S"])
    ensures var pass := PassOver(map[1 := Naming(a), 2 := Naming(b)]);
            && pass.Matches(SHIRT) == {1, 2} && pass.Reports(SHIRT)
            && SizeUnion(pass.table, {1, 2}) == if b == [] then {"M"} else {"M", "S"}
  {
    var table := map[1 := Naming(a), 2 := Naming(b)];
    ShirtMatches(a);
    ShirtMatches(b);
    ShirtMatchesBoth(table, a, b);
    UnionOfTwo(table);
    NamedSizes(a);
    NamedSizes(b);
  }

  /** A filter that names M and one that names no size: the shirt is listed in M
      only. Snoozing the first filter adds S. */
  lemma SnoozingAddsASize()
    ensures var pass := PassOver(map[1 := Naming(["M"]), 2 := Naming([])]);
            && pass.Reports(SHIRT) && pass.ItemOf(SHIRT).sizes == ["M"]
            && var after := pass.(table := Snoozed(pass.table, 1, 1));
            after.Reports(SHIRT) && after.ItemOf(SHIRT).sizes == ["S", "M"]
  {
    var pass := PassOver(map[1 := Naming(["M"]), 2 := Naming([])]);
    var after := pass.(table := Snoozed(pass.table, 1, 1));
    TwoMatches(["M"], []);
    SnoozedMatches(pass, 1, 1, SHIRT);
    assert {1, 2} - {1} == {2};
    assert 2 in after.Matches(SHIRT);
    ShirtIsConsidered(pass.table);
    NamedSizes([]);
    UnionEmptyIff(after.table, {2});
    assert {"M"} + {} == {"M"};
    ShirtSizes();
    ListedSizes(pass, SHIRT);
    ListedSizes(after, SHIRT);
  }

  // ------------------------------------------------------- stock

  const SMALL_ROW := L2("1", "S", "002", "SMA002", "BLACK", "09", "COL09")

  const SMALL_ONLY: StockMap := map["1" := StockInfo("IN_STOCK", 3)]

  lemma OnlySmallInStock()
    ensures HasCandidate([SMALL_ROW], "S", SMALL_ONLY) && !HasCandidate([SMALL_ROW], "M", SMALL_ONLY)
  {
    assert IsCandidate([SMALL_ROW][0], "S", SMALL_ONLY);
    assert Upper("S") == "S" && Upper("M") == "M";
  }

  lemma SmallSurvives(v: Verifier, item: SaleItem)
    requires v == Verifier(SHOP, map[]) && item.sizes == ["S", "M"]
    ensures v.Outcome(item, Got([SMALL_ROW], SMALL_ONLY)).Some?
  {
    OnlySmallInStock();
    assert item.sizes[0] == "S" && "S" in item.sizes;
    DroppedIff(v, item, Got([SMALL_ROW], SMALL_ONLY));
  }

  lemma ShirtDeal(pass: Pass)
    requires pass == PassOver(map[1 := Naming(["M"]), 2 := Naming(["S"])])
    ensures pass.Reports(SHIRT) && !pass.Watches(SHIRT)
    ensures pass.ItemOf(SHIRT).sizes == ["S", "M"] && 1 in pass.ItemOf(SHIRT).matchedFilterIds
  {
    TwoMatches(["M"], ["S"]);
    ShirtIsConsidered(pass.table);
    ShirtSizes();
    ListedSizes(pass, SHIRT);
    TaggedExactly(pass, SHIRT);
    assert 1 in pass.Matches(SHIRT);
  }

  lemma NoMediumLeft(sizes: seq<string>, names: set<string>)
    requires sizes == ["S", "M"] && names == {"M"}
    ensures forall s :: s in sizes && Upper(s) in names ==> !HasCandidate([SMALL_ROW], s, SMALL_ONLY)
  {
    OnlySmallInStock();
    assert Upper("S") == "S";
  }

  lemma TagWithoutSize(pass: Pass, v: Verifier, p: Product, id: int, l2s: seq<L2>, stock: StockMap)
    requires pass.Reports(p) && !pass.Watches(p) && id in pass.ItemOf(p).matchedFilterIds && id in pass.table
    requires l2s != [] && stock != map[] && !v.site.stockApiNone
    requires v.Outcome(pass.ItemOf(p), Got(l2s, stock)).Some?
    requires forall s :: s in pass.ItemOf(p).sizes && Upper(s) in pass.table[id].SizeNames()
                         ==> !HasCandidate(l2s, s, stock)
    ensures var after := v.Outcome(pass.ItemOf(p), Got(l2s, stock)).value;
            id in after.matchedFilterIds && !KeepsASize(pass.table, after, id)
  {
    TagOutlivesSizesUnless(pass, v, p, l2s, stock, id);
  }

  /** One filter names M, another S, and only S is in stock: the shirt keeps the
      tag of the first filter and no size of it. */
  lemma TagOutlivesItsSize()
    ensures var pass := PassOver(map[1 := Naming(["M"]), 2 := Naming(["S"])]);
            var r := Verifier(SHOP, map[]).Outcome(pass.ItemOf(SHIRT), Got([SMALL_ROW], SMALL_ONLY));
            r.Some? && 1 in r.value.matchedFilterIds && !KeepsASize(pass.table, r.value, 1)
  {
    var pass := PassOver(map[1 := Naming(["M"]), 2 := Naming(["S"])]);
    ShirtDeal(pass);
    NamedSizes(["M"]);
    SmallSurvives(Verifier(SHOP, map[]), pass.ItemOf(SHIRT));
    NoMediumLeft(pass.ItemOf(SHIRT).sizes, pass.table[1].SizeNames());
    assert "1" in SMALL_ONLY;
    TagWithoutSize(pass, Verifier(SHOP, map[]), SHIRT, 1, [SMALL_ROW], SMALL_ONLY);
  }

  // ------------------------------------------------------- watch list

  /** Watching E1 with the page of E2 a second time changes the list again. */
  lemma WatchingTwiceAddsTwice()
    ensures var url := BuildProductUrl(PageBase("de/de"), "E2", "00", "09", "004", false);
            var once := Watch([], "E1", url, "shirt");
            Watch(once, "E1", url, "shirt") != once
  {
    var country, id, group, color, size := "de/de", "E2", "00", "09", "004";
    CountrySegments();
    ProductUrlRoundTrip(country, id, group, color, size, false);
    PrintedUrlIsNotEmpty(country, id, group, color, size, false);
    assert Upper("E1")[1] == '1' && Upper("E2")[1] == '2';
    WatchTwiceIff([], "E1", BuildProductUrl(PageBase(country), id, group, color, size, false), "shirt");
  }

  /** Watching E1 with the page of E2 and unwatching it with the codes of that
      page leaves the entry of E2 behind. */
  lemma UnwatchingMissesTheWrongPage()
    ensures var url := BuildProductUrl(PageBase("de/de"), "E2", "00", "09", "004", false);
            Unwatch(Watch([], "E1", url, "shirt"), "E1", "09", "004") != []
  {
    var country, id, group, color, size := "de/de", "E2", "00", "09", "004";
    CountrySegments();
    ProductUrlRoundTrip(country, id, group, color, size, false);
    PrintedUrlIsNotEmpty(country, id, group, color, size, false);
    assert Upper("E1")[1] == '1' && Upper("E2")[1] == '2';
    WatchThenUnwatchIff([], "E1", BuildProductUrl(PageBase(country), id, group, color, size, false), "shirt");
  }

  lemma CountrySegments()
    ensures PlainPath("de/de") && PRODUCTS !in Segments("de/de")
  {
    assert "de/de" == "de" + "/" + "de";
    SegmentsOfConcat("de", "de");
    OneSegment("de");
    assert |PRODUCTS| == 8;
  }

  /** Watching E1 without a page and unwatching it takes along a variant of E1
      that was there before. */
  lemma UnwatchingTakesOthersAlong()
    ensures var before := [WatchedVariant("", "E1", "00", "shirt", "09", "BLACK", "004")];
            && !HasVariant(before, "E1", "", "")
            && Unwatch(Watch(before, "E1", "", "shirt"), "E1", "", "") == []
  {
    var black := WatchedVariant("", "E1", "00", "shirt", "09", "BLACK", "004");
    var plain := NewEntry("E1", "", "shirt");
    assert Watch([black], "E1", "", "shirt") == [black] + [plain];
    assert ([black] + [plain])[..1] == [black] && [black][..0] == [];
  }

  // ------------------------------------------------------- two writes

  const HALF_PRICE := SaleItem("E1", "shirt", 20, 10, 500, "MEN", [], [], [], [], [], "00", false, true, [])

  /** One deep deal, and only the history write fails: the observation is there
      and the history does not count it. */
  lemma CountsPart()
    ensures var empty := Books(None, [], [], []);
            var a := Attempt(Some([HALF_PRICE]), 1, 0, false, false, false, true);
            var after := Recorded(NewDealsMode, 50, empty, a, Reported([HALF_PRICE], [HALF_PRICE]));
            DeepHistory(after.history) == 0 && DeepObservations(after.observations) == 1
  {
    ObserveCounts([HALF_PRICE], 50, 0);
    assert [HALF_PRICE][..0] == [] && DeepDeals([], 50) == 0;
    assert [] + Observe([HALF_PRICE], 50, 0) == Observe([HALF_PRICE], 50, 0);
  }
}
