/** Where the links of a deal lead: the product and the variant that each slot's
    URL reads back as, from the fresh deal to the verified one. */
module LinkLaws {
  import opened Text
  import opened Products
  import opened ProductUrls
  import opened Filters
  import opened Stock
  import opened StockLaws
  import FlatMaps
  import LegacyEngine
  import Matching

  /** The pages of a country, and ids and codes without reserved characters. */
  ghost predicate PlainShop(site: Site, country: string) {
    site.pageBase == PageBase(country) && PlainPath(country) && PRODUCTS !in Segments(country)
  }

  ghost predicate PlainIds(id: string, priceGroup: string) {
    PlainSegment(id) && id != "" && PlainSegment(priceGroup)
  }

  ghost predicate PlainRow(row: L2) {
    && PlainCode(row.colorDisplayCode) && PlainCode(row.sizeDisplayCode)
    && PlainCode(row.colorCode) && PlainCode(row.sizeCode)
  }

  ghost predicate PlainSize(p: Product, s: Size) {
    && PlainCode(p.colorDisplayCode) && PlainCode(s.displayCode)
    && PlainCode(p.colorCode) && PlainCode(s.code)
  }

  lemma BuiltLink(country: string, id: string, priceGroup: string, color: string, size: string, codeStyle: bool)
    requires PlainPath(country) && PRODUCTS !in Segments(country) && PlainIds(id, priceGroup)
    requires PlainCode(color) && PlainCode(size)
    ensures var url := BuildProductUrl(PageBase(country), id, priceGroup, color, size, codeStyle);
            && ParseUniqloUrl(url).id == id
            && ParseVariantCodes(url)
               == if codeStyle then Codes(DropPrefix(color), DropPrefix(size)) else Codes(color, size)
  {
    ProductUrlRoundTrip(country, id, priceGroup, color, size, codeStyle);
  }

  /** A row's link leads to the deal's product, in the row's colour and size. */
  lemma RowLink(site: Site, country: string, item: SaleItem, row: L2)
    requires PlainShop(site, country) && PlainIds(item.productId, item.priceGroup) && PlainRow(row)
    ensures var url := RowUrl(site, item)(row);
            && ParseUniqloUrl(url).id == item.productId
            && ParseVariantCodes(url)
               == if site.codeStyle then Codes(DropPrefix(row.colorCode), DropPrefix(row.sizeCode))
                  else Codes(row.colorDisplayCode, row.sizeDisplayCode)
  {
    if site.codeStyle {
      BuiltLink(country, item.productId, item.priceGroup, row.colorCode, row.sizeCode, true);
    } else {
      BuiltLink(country, item.productId, item.priceGroup, row.colorDisplayCode, row.sizeDisplayCode, false);
    }
  }

  // ------------------------------------------------------- verified deals

  /** A row is in stock for a size exactly when it has the size's name, in any
      case, and its stock is one of the two statuses on sale. */
  lemma InStockIff(l2s: seq<L2>, size: string, stock: StockMap)
    ensures HasCandidate(l2s, size, stock)
            <==> exists i :: 0 <= i < |l2s| && Upper(l2s[i].sizeName) == Upper(size) && l2s[i].id in stock
                             && (stock[l2s[i].id].status == "IN_STOCK" || stock[l2s[i].id].status == "LOW_STOCK")
  {
    if i :| 0 <= i < |l2s| && Upper(l2s[i].sizeName) == Upper(size) && l2s[i].id in stock
            && (stock[l2s[i].id].status == "IN_STOCK" || stock[l2s[i].id].status == "LOW_STOCK") {
      assert IsCandidate(l2s[i], size, stock);
    }
  }

  /** The link of a verified slot leads to the row whose stock the slot shows. */
  lemma VerifiedSlotLink(site: Site, country: string, wvs: seq<WatchedVariant>, item: SaleItem, l2s: seq<L2>,
                         stock: StockMap, k: nat) returns (i: int)
    requires PlainShop(site, country) && PlainIds(item.productId, item.priceGroup)
    requires forall j :: 0 <= j < |l2s| ==> PlainRow(l2s[j])
    requires l2s != [] && stock != map[] && Verified(site, wvs, item, l2s, stock).Some?
    requires k < |Verified(site, wvs, item, l2s, stock).value.sizes|
    ensures var r := Verified(site, wvs, item, l2s, stock).value;
            && r.FullyAligned() && 0 <= i < |l2s| && l2s[i].id in stock
            && Upper(l2s[i].sizeName) == Upper(r.sizes[k])
            && (stock[l2s[i].id].status == "IN_STOCK" || stock[l2s[i].id].status == "LOW_STOCK")
            && r.quantities[k] == stock[l2s[i].id].quantity && r.statuses[k] == stock[l2s[i].id].status
            && r.colorNames[k] == l2s[i].colorName
            && ParseUniqloUrl(r.urls[k]).id == item.productId
            && ParseVariantCodes(r.urls[k])
               == if site.codeStyle then Codes(DropPrefix(l2s[i].colorCode), DropPrefix(l2s[i].sizeCode))
                  else Codes(l2s[i].colorDisplayCode, l2s[i].sizeDisplayCode)
  {
    i := SlotShowsPickedRow(site, wvs, item, l2s, stock, k);
    CandidateIs(l2s[i], Verified(site, wvs, item, l2s, stock).value.sizes[k], stock);
    RowLink(site, country, item, l2s[i]);
  }

  lemma CandidateIs(row: L2, size: string, stock: StockMap)
    requires IsCandidate(row, size, stock)
    ensures row.id in stock && Upper(row.sizeName) == Upper(size)
    ensures stock[row.id].status == "IN_STOCK" || stock[row.id].status == "LOW_STOCK"
  {
  }

  // ------------------------------------------------------- rebuilt deals

  lemma {:induction false} FirstRowIs(l2s: seq<L2>, size: string) returns (i: int)
    ensures FirstRow(l2s, size).None? ==>
              forall j :: 0 <= j < |l2s| ==> size == "" || Upper(l2s[j].sizeName) != size
    ensures FirstRow(l2s, size).Some? ==>
              && 0 <= i < |l2s| && FirstRow(l2s, size) == Some(l2s[i])
              && size != "" && Upper(l2s[i].sizeName) == size
              && forall j :: 0 <= j < i ==> Upper(l2s[j].sizeName) != size
  {
    i := -1;
    if l2s != [] {
      var n := |l2s| - 1;
      var before := FirstRowIs(l2s[..n], size);
      i := if FirstRow(l2s[..n], size).Some? then before else n;
    }
  }

  /** A rebuilt slot keeps its size, shows the first row of that name, in any
      case, and no stock; without such a row URL and colour are empty. */
  lemma RebuiltSlotLink(site: Site, country: string, item: SaleItem, l2s: seq<L2>, k: nat) returns (i: int)
    requires PlainShop(site, country) && PlainIds(item.productId, item.priceGroup)
    requires forall j :: 0 <= j < |l2s| ==> PlainRow(l2s[j])
    requires k < |item.sizes|
    ensures var r, size := Rebuilt(site, item, l2s), Upper(item.sizes[k]);
            && r.FullyAligned() && r.sizes == item.sizes && r.quantities[k] == 0 && r.statuses[k] == ""
            && if size != "" && exists j :: 0 <= j < |l2s| && Upper(l2s[j].sizeName) == size
               then && 0 <= i < |l2s| && Upper(l2s[i].sizeName) == size
                    && (forall j :: 0 <= j < i ==> Upper(l2s[j].sizeName) != size)
                    && r.colorNames[k] == l2s[i].colorName
                    && ParseUniqloUrl(r.urls[k]).id == item.productId
                    && ParseVariantCodes(r.urls[k])
                       == (if site.codeStyle then Codes(DropPrefix(l2s[i].colorCode), DropPrefix(l2s[i].sizeCode))
                           else Codes(l2s[i].colorDisplayCode, l2s[i].sizeDisplayCode))
               else r.urls[k] == "" && r.colorNames[k] == ""
  {
    i := FirstRowIs(l2s, Upper(item.sizes[k]));
    if FirstRow(l2s, Upper(item.sizes[k])).Some? {
      RowLink(site, country, item, l2s[i]);
    }
  }

  // ------------------------------------------------------- preferred colours

  /** The size name a display code stands for is that of the last row with it. */
  lemma {:induction false} RowSizeNameIs(l2s: seq<L2>, code: string) returns (i: int)
    ensures if exists j :: 0 <= j < |l2s| && l2s[j].sizeDisplayCode == code
            then && 0 <= i < |l2s| && l2s[i].sizeDisplayCode == code && RowSizeName(l2s, code) == l2s[i].sizeName
                 && forall j :: i < j < |l2s| ==> l2s[j].sizeDisplayCode != code
            else RowSizeName(l2s, code) == ""
  {
    i := -1;
    if l2s != [] {
      var n := |l2s| - 1;
      if l2s[n].sizeDisplayCode == code {
        i := n;
      } else {
        i := RowSizeNameIs(l2s[..n], code);
      }
    }
  }

  /** The watched variant names the size, and a colour for it. */
  ghost predicate Prefers(wv: WatchedVariant, l2s: seq<L2>, size: string) {
    wv.color != "" && size != "" && Upper(RowSizeName(l2s, wv.size)) == size
  }

  /** The preferred colour of a size is that of the last watched variant that
      names the size and a colour. */
  lemma {:induction false} PreferredColorIs(wvs: seq<WatchedVariant>, l2s: seq<L2>, size: string) returns (n: int)
    ensures if exists m :: 0 <= m < |wvs| && Prefers(wvs[m], l2s, size)
            then && 0 <= n < |wvs| && Prefers(wvs[n], l2s, size) && PreferredColor(wvs, l2s, size) == wvs[n].color
                 && forall m :: n < m < |wvs| ==> !Prefers(wvs[m], l2s, size)
            else PreferredColor(wvs, l2s, size) == ""
  {
    n := -1;
    if wvs != [] {
      var last := |wvs| - 1;
      if Prefers(wvs[last], l2s, size) {
        n := last;
      } else {
        n := PreferredColorIs(wvs[..last], l2s, size);
      }
    }
  }

  // ------------------------------------------------------- fresh deals

  lemma {:induction false} NoVariantFor(p: Product, wvs: seq<WatchedVariant>, name: string)
    requires forall n :: 0 <= n < |wvs| ==> WatchedSize(p, wvs[n]) != Some(name)
    ensures LastVariantFor(p, wvs, name) == None
  {
    if wvs != [] {
      NoVariantFor(p, wvs[..|wvs| - 1], name);
    }
  }

  /** A slot that no watched variant stands for leads to the product in its
      representative colour and the slot's size, and names no colour. */
  lemma FreshSlotLink(site: Site, country: string, p: Product, watched: bool, allowed: set<string>,
                      wvs: seq<WatchedVariant>, inSaleFeed: bool, i: nat)
    requires PlainShop(site, country) && PlainIds(p.id, p.priceGroup)
    requires var matched := MatchingSizes(p.sizes, allowed);
             && i < |matched| && PlainSize(p, matched[i])
             && forall n :: 0 <= n < |wvs| ==> WatchedSize(p, wvs[n]) != Some(matched[i].name)
    ensures var item := SaleItemOf(site, p, watched, allowed, wvs, inSaleFeed);
            var size := MatchingSizes(p.sizes, allowed)[i];
            && item.Aligned() && i < |item.sizes| && item.sizes[i] == size.name && item.colorNames[i] == ""
            && ParseUniqloUrl(item.urls[i]).id == p.id
            && ParseVariantCodes(item.urls[i])
               == if site.codeStyle then Codes(DropPrefix(p.colorCode), DropPrefix(size.code))
                  else Codes(p.colorDisplayCode, size.displayCode)
  {
    var size := MatchingSizes(p.sizes, allowed)[i];
    FreshSlot(site, p, watched, allowed, wvs, inSaleFeed, i);
    if site.codeStyle {
      BuiltLink(country, p.id, p.priceGroup, p.colorCode, size.code, true);
    } else {
      BuiltLink(country, p.id, p.priceGroup, p.colorDisplayCode, size.displayCode, false);
    }
  }

  lemma FreshSlot(site: Site, p: Product, watched: bool, allowed: set<string>,
                  wvs: seq<WatchedVariant>, inSaleFeed: bool, i: nat)
    requires var matched := MatchingSizes(p.sizes, allowed);
             && i < |matched|
             && forall n :: 0 <= n < |wvs| ==> WatchedSize(p, wvs[n]) != Some(matched[i].name)
    ensures var item := SaleItemOf(site, p, watched, allowed, wvs, inSaleFeed);
            var matched := MatchingSizes(p.sizes, allowed);
            && item.Aligned() && i < |item.sizes| && item.sizes[i] == matched[i].name && item.colorNames[i] == ""
            && item.urls[i] == VariantUrls(site, p, matched)[i]
  {
    var matched := MatchingSizes(p.sizes, allowed);
    var names := OverlaidSizes(p, Names(matched), wvs);
    assert names[..|matched|][i] == Names(matched)[i];
    NoVariantFor(p, wvs, matched[i].name);
  }

  /** The slot of a watched variant's size leads to the colour and size that the
      last variant of that size watches, by display codes in every country. */
  lemma WatchedSlotLink(site: Site, country: string, p: Product, watched: bool, allowed: set<string>,
                        wvs: seq<WatchedVariant>, inSaleFeed: bool, n: nat)
    requires PlainShop(site, country) && PlainIds(p.id, p.priceGroup)
    requires n < |wvs| && WatchedSize(p, wvs[n]).Some? && PlainCode(wvs[n].color) && PlainCode(wvs[n].size)
    requires forall m :: n < m < |wvs| ==> WatchedSize(p, wvs[m]) != WatchedSize(p, wvs[n])
    ensures var item, size := SaleItemOf(site, p, watched, allowed, wvs, inSaleFeed), WatchedSize(p, wvs[n]).value;
            var k := FirstPlace(item.sizes, size);
            && k < |item.sizes| == |item.urls| == |item.colorNames| && item.sizes[k] == size
            && item.colorNames[k] == wvs[n].colorName
            && ParseUniqloUrl(item.urls[k]).id == p.id
            && ParseVariantCodes(item.urls[k]) == Codes(wvs[n].color, wvs[n].size)
  {
    WatchedVariantIsShown(site, p, watched, allowed, wvs, inSaleFeed, n);
    BuiltLink(country, p.id, p.priceGroup, wvs[n].color, wvs[n].size, false);
  }

  // ------------------------------------------------- looking variants up

  predicate HasIdInAnyCase(wv: WatchedVariant, id: string) {
    Upper(wv.id) == Upper(id)
  }

  lemma {:induction false} VariantsUnderAre(variants: seq<WatchedVariant>, id: string)
    ensures LegacyEngine.VariantsUnder(variants, Upper(id))
            == FlatMaps.Kept((wv: WatchedVariant) => HasIdInAnyCase(wv, id), variants)
  {
    if variants != [] {
      VariantsUnderAre(variants[..|variants| - 1], id);
    }
  }

  /** The matcher and the verifier both find the watched variants of a product by
      its id in any case: all that the configuration has, in its order. */
  lemma VariantsAreThoseOfTheId(variants: seq<WatchedVariant>, v: Verifier, pass: Matching.Pass,
                                p: Product, item: SaleItem)
    requires v.watchedByProduct == pass.lists.watchedByProduct == LegacyEngine.WatchIndex(variants)
    requires item.productId == p.id
    ensures v.Variants(item) == pass.Variants(p)
            == FlatMaps.Kept((wv: WatchedVariant) => HasIdInAnyCase(wv, p.id), variants)
  {
    VariantsUnderAre(variants, p.id);
    LegacyEngine.NoVariantsUnder(variants, Upper(p.id));
  }
}
