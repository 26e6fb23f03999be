/** What stock verification promises about a batch of deals. */
module StockLaws {
  import opened Text
  import opened Products
  import opened Filters
  import opened IdLists
  import opened Matching
  import opened MatchingLaws
  import opened Stock

  // ------------------------------------------------------- one deal

  /** The sizes with a row in stock, in order. */
  ghost function InStockSizes(sizes: seq<string>, l2s: seq<L2>, stock: StockMap): seq<string> {
    if sizes == [] then []
    else InStockSizes(sizes[..|sizes| - 1], l2s, stock)
         + if HasCandidate(l2s, sizes[|sizes| - 1], stock) then [sizes[|sizes| - 1]] else []
  }

  lemma {:induction false} InStockMembers(sizes: seq<string>, l2s: seq<L2>, stock: StockMap)
    ensures forall s :: s in InStockSizes(sizes, l2s, stock) <==> s in sizes && HasCandidate(l2s, s, stock)
  {
    if sizes != [] {
      var n := |sizes| - 1;
      InStockMembers(sizes[..n], l2s, stock);
      assert sizes == sizes[..n] + [sizes[n]];
    }
  }

  lemma {:induction false} LinesAreInStock(sizes: seq<string>, wvs: seq<WatchedVariant>, l2s: seq<L2>, stock: StockMap)
    ensures var lines := Lines(sizes, wvs, l2s, stock);
            && LineSizes(lines) == InStockSizes(sizes, l2s, stock)
            && forall k :: 0 <= k < |lines| ==>
                 Some(lines[k].variant)
                 == Pick(l2s, lines[k].size, stock, PreferredColor(wvs, l2s, Upper(lines[k].size)))
  {
    if sizes != [] {
      var n := |sizes| - 1;
      LinesAreInStock(sizes[..n], wvs, l2s, stock);
      var i := PickedRow(l2s, sizes[n], stock, PreferredColor(wvs, l2s, Upper(sizes[n])));
    }
  }

  /** When both answers arrive, exactly the sizes with an in-stock row survive,
      in order, and the deal is dropped exactly when there are none. All five
      lists have one length. */
  lemma SurvivingSizes(site: Site, wvs: seq<WatchedVariant>, item: SaleItem, l2s: seq<L2>, stock: StockMap)
    requires l2s != [] && stock != map[]
    ensures var r := Verified(site, wvs, item, l2s, stock);
            && (r.Some? <==> exists s :: s in item.sizes && HasCandidate(l2s, s, stock))
            && (r.Some? ==> r.value.sizes == InStockSizes(item.sizes, l2s, stock) && r.value.FullyAligned())
  {
    LinesAreInStock(item.sizes, wvs, l2s, stock);
    InStockMembers(item.sizes, l2s, stock);
    var lines := Lines(item.sizes, wvs, l2s, stock);
    if lines != [] {
      assert LineSizes(lines)[0] in InStockSizes(item.sizes, l2s, stock);
    }
  }

  /** Each surviving slot shows one in-stock row of its size: the first in the
      preferred colour if that is in stock, else the first of the largest
      quantity. */
  lemma SlotShowsPickedRow(site: Site, wvs: seq<WatchedVariant>, item: SaleItem, l2s: seq<L2>, stock: StockMap, k: nat)
    returns (i: int)
    requires l2s != [] && stock != map[]
    requires Verified(site, wvs, item, l2s, stock).Some?
    requires k < |Verified(site, wvs, item, l2s, stock).value.sizes|
    ensures var r := Verified(site, wvs, item, l2s, stock).value;
            var color := PreferredColor(wvs, l2s, Upper(r.sizes[k]));
            && r.FullyAligned()
            && 0 <= i < |l2s| && IsCandidate(l2s[i], r.sizes[k], stock)
            && (if color != "" && HasCandidateInColor(l2s, r.sizes[k], stock, color)
                then FirstRowInColor(l2s, r.sizes[k], stock, color, i)
                else FirstRowLargest(l2s, r.sizes[k], stock, i))
            && r.urls[k] == RowUrl(site, item)(l2s[i]) && r.colorNames[k] == l2s[i].colorName
            && r.quantities[k] == stock[l2s[i].id].quantity && r.statuses[k] == stock[l2s[i].id].status
  {
    var lines := Lines(item.sizes, wvs, l2s, stock);
    LinesAreInStock(item.sizes, wvs, l2s, stock);
    i := PickedRow(l2s, lines[k].size, stock, PreferredColor(wvs, l2s, Upper(lines[k].size)));
  }

  // ------------------------------------------------------- a batch

  /** The deal apart from the five lists stock data rewrites. */
  function Identity(item: SaleItem): SaleItem {
    item.(sizes := [], urls := [], colorNames := [], quantities := [], statuses := [])
  }

  /** The places of the values that are there. */
  function SomesAt(rs: seq<Option<SaleItem>>): seq<int> {
    if rs == [] then []
    else SomesAt(rs[..|rs| - 1]) + if rs[|rs| - 1].Some? then [|rs| - 1] else []
  }

  lemma {:induction false} SomesAtSelect(rs: seq<Option<SaleItem>>)
    ensures var at, out := SomesAt(rs), Somes(rs);
            && |at| == |out| && Increasing(at)
            && (forall i :: i in at <==> 0 <= i < |rs| && rs[i].Some?)
            && forall j :: 0 <= j < |at| ==> 0 <= at[j] < |rs| && rs[at[j]] == Some(out[j])
  {
    if rs != [] {
      var n := |rs| - 1;
      SomesAtSelect(rs[..n]);
      var before := SomesAt(rs[..n]);
      assert forall j :: 0 <= j < |before| ==> before[j] in before;
    }
  }

  lemma OutcomeKeepsIdentity(v: Verifier, item: SaleItem, answer: Answer)
    ensures var r := v.Outcome(item, answer);
            r.Some? ==> Identity(r.value) == Identity(item)
  {
  }

  /** The output is an in-order selection of the input, and a kept deal changes
      in its five variant lists only. */
  lemma BatchIsSelection(v: Verifier, items: seq<SaleItem>, answers: seq<Answer>)
    requires |answers| == |items|
    ensures var at, out := SomesAt(v.Outcomes(items, answers)), v.Batch(items, answers);
            && |at| == |out| && Increasing(at)
            && (forall i :: i in at <==> 0 <= i < |items| && v.Outcome(items[i], answers[i]).Some?)
            && forall j :: 0 <= j < |at| ==>
                 && 0 <= at[j] < |items|
                 && v.Outcome(items[at[j]], answers[at[j]]) == Some(out[j])
                 && Identity(out[j]) == Identity(items[at[j]])
  {
    var rs := v.Outcomes(items, answers);
    SomesAtSelect(rs);
    var at, out := SomesAt(rs), Somes(rs);
    forall i | 0 <= i < |items| ensures rs[i] == v.Outcome(items[i], answers[i]) {
    }
    forall j | 0 <= j < |at| ensures Identity(out[j]) == Identity(items[at[j]]) {
      OutcomeKeepsIdentity(v, items[at[j]], answers[at[j]]);
    }
  }

  /** Dropped exactly when nothing is in stock. */
  lemma DroppedIff(v: Verifier, item: SaleItem, answer: Answer)
    ensures v.Outcome(item, answer) == None
            <==> && answer.Got? && !v.site.stockApiNone && answer.l2s != [] && answer.stock != map[]
                 && forall s :: s in item.sizes ==> !HasCandidate(answer.l2s, s, answer.stock)
  {
    if answer.Got? && answer.l2s != [] && answer.stock != map[] {
      SurvivingSizes(v.site, v.Variants(item), item, answer.l2s, answer.stock);
    }
  }

  lemma {:induction false} AllSome(rs: seq<Option<SaleItem>>)
    requires forall i :: 0 <= i < |rs| ==> rs[i].Some?
    ensures |Somes(rs)| == |rs| && forall i :: 0 <= i < |rs| ==> Somes(rs)[i] == rs[i].value
  {
    if rs != [] {
      AllSome(rs[..|rs| - 1]);
    }
  }

  /** With an unreliable stock API no deal and no size is ever dropped. */
  lemma UnreliableStockDropsNothing(v: Verifier, items: seq<SaleItem>, answers: seq<Answer>)
    requires |answers| == |items| && v.site.stockApiNone
    ensures |v.Batch(items, answers)| == |items|
    ensures forall i :: 0 <= i < |items| ==> v.Batch(items, answers)[i].sizes == items[i].sizes
  {
    var rs := v.Outcomes(items, answers);
    forall i | 0 <= i < |items|
      ensures rs[i].Some? && rs[i].value.sizes == items[i].sizes
    {
      assert rs[i] == v.Outcome(items[i], answers[i]);
    }
    AllSome(rs);
  }

  /** The parallel lists stay parallel, whatever the client answers. */
  lemma OutcomeKeepsAlignment(v: Verifier, item: SaleItem, answer: Answer)
    requires item.Aligned() && v.Outcome(item, answer).Some?
    ensures v.Outcome(item, answer).value.Aligned()
    ensures v.Outcome(item, answer).value == item || v.Outcome(item, answer).value.FullyAligned()
  {
  }

  // ------------------------------------------- matched filters after stock

  /** Some size of the deal is one the filter names. */
  ghost predicate KeepsASize(table: FilterTable, item: SaleItem, id: int) {
    id in table && exists k :: 0 <= k < |item.sizes| && Upper(item.sizes[k]) in table[id].SizeNames()
  }

  /** Stock verification leaves the tags alone, so a tag can outlive its sizes:
      a matched filter still has one exactly when a listed size of it is in
      stock. */
  lemma TagOutlivesSizesUnless(pass: Pass, v: Verifier, p: Product, l2s: seq<L2>, stock: StockMap, id: int)
    requires pass.Reports(p) && !pass.Watches(p) && id in pass.ItemOf(p).matchedFilterIds
    requires l2s != [] && stock != map[] && !v.site.stockApiNone
    requires v.Outcome(pass.ItemOf(p), Got(l2s, stock)).Some?
    ensures var before, after := pass.ItemOf(p), v.Outcome(pass.ItemOf(p), Got(l2s, stock)).value;
            && after.matchedFilterIds == before.matchedFilterIds
            && (KeepsASize(pass.table, after, id)
                <==> exists s :: s in before.sizes && Upper(s) in pass.table[id].SizeNames()
                                 && HasCandidate(l2s, s, stock))
  {
    var before, after := pass.ItemOf(p), v.Outcome(pass.ItemOf(p), Got(l2s, stock)).value;
    OutcomeKeepsIdentity(v, before, Got(l2s, stock));
    SurvivingSizes(v.site, v.Variants(before), before, l2s, stock);
    InStockMembers(before.sizes, l2s, stock);
    assert after.sizes == InStockSizes(before.sizes, l2s, stock);
    SomeSizeNamed(after.sizes, pass.table[id].SizeNames());
  }

  lemma SomeSizeNamed(sizes: seq<string>, names: set<string>)
    ensures (exists k :: 0 <= k < |sizes| && Upper(sizes[k]) in names) <==> exists s :: s in sizes && Upper(s) in names
  {
    if s :| s in sizes && Upper(s) in names {
      var k :| 0 <= k < |sizes| && sizes[k] == s;
      assert Upper(sizes[k]) in names;
    }
  }

  /** When every matched filter names sizes, a deal that survives stock
      verification still has a size of one of them, whatever the answers. */
  lemma SomeFilterKeepsASize(pass: Pass, v: Verifier, p: Product, answer: Answer)
    requires Indexed(pass.lists) && pass.Reports(p) && !pass.Watches(p)
    requires forall id :: id in pass.Matches(p) ==> pass.table[id].SizeNames() != {}
    requires v.Outcome(pass.ItemOf(p), answer).Some?
    ensures var after := v.Outcome(pass.ItemOf(p), answer).value;
            exists id :: id in after.matchedFilterIds && KeepsASize(pass.table, after, id)
  {
    var before, after := pass.ItemOf(p), v.Outcome(pass.ItemOf(p), answer).value;
    MatchedFilterKeepsASize(pass, p, MinOf(pass.Matches(p)));
    SurvivorListsASize(v, before, answer);
    var i :| 0 <= i < |before.sizes| && before.sizes[i] == after.sizes[0];
    ListedSizeIsNamed(pass, p, i);
    var id :| id in before.matchedFilterIds && id in pass.table && Upper(before.sizes[i]) in pass.table[id].SizeNames();
    OutcomeKeepsIdentity(v, before, answer);
    assert KeepsASize(pass.table, after, id);
  }

  lemma SurvivorListsASize(v: Verifier, item: SaleItem, answer: Answer)
    requires item.sizes != [] && v.Outcome(item, answer).Some?
    ensures var after := v.Outcome(item, answer).value;
            after.sizes != [] && after.sizes[0] in item.sizes
  {
    if answer.Got? && !v.site.stockApiNone && answer.l2s != [] && answer.stock != map[] {
      var lines := Lines(item.sizes, v.Variants(item), answer.l2s, answer.stock);
      LinesAreInStock(item.sizes, v.Variants(item), answer.l2s, answer.stock);
      InStockMembers(item.sizes, answer.l2s, answer.stock);
      assert LineSizes(lines)[0] in InStockSizes(item.sizes, answer.l2s, answer.stock);
    }
  }

  /** An error, no rows, or no stock data from a reliable source leave a deal as
      it is. */
  lemma NoDataKeepsDeal(v: Verifier, item: SaleItem, stock: StockMap, l2s: seq<L2>)
    ensures v.Outcome(item, Failed) == v.Outcome(item, Got([], stock)) == Some(item)
    ensures !v.site.stockApiNone ==> v.Outcome(item, Got(l2s, map[])) == Some(item)
  {
  }
}
