/** The filter predicates and the conversion of a product to a sale item, both
    shared by the legacy engine and the multi-filter matcher. */
module Filters {
  import opened Text
  import opened Products
  import opened ProductUrls

  /** What the country's capabilities and the configuration fix for a run. */
  datatype Site = Site(
    pageBase: string,
    countryCode: string,
    codeStyle: bool,
    stockApiNone: bool,
    storeStockOnlyReliable: bool)

  /** The lists a sale checker derives from its configuration. */
  datatype Lists = Lists(
    watchedIds: set<string>,
    watchedByProduct: map<string, seq<WatchedVariant>>,
    ignoredIds: set<string>,
    ignoredKeywords: seq<string>)

  // ------------------------------------------------------------ predicates

  predicate IsWatched(lists: Lists, p: Product) {
    StartsWithAny(Upper(p.id), lists.watchedIds)
  }

  predicate IsExcluded(lists: Lists, p: Product) {
    StartsWithAny(Upper(p.id), lists.ignoredIds) || ContainsAny(Lower(p.name), lists.ignoredKeywords)
  }

  predicate MatchesGender(p: Product, allowed: set<string>) {
    allowed == {} || Upper(p.gender) == "UNISEX" || Upper(p.gender) in allowed
  }

  predicate MatchesSize(p: Product, allowed: set<string>) {
    allowed == {} || exists i :: 0 <= i < |p.sizes| && Upper(p.sizes[i].name) in allowed
  }

  /** `minPercent` is in percent, a discount in tenths of a percent. A product
      without a known discount passes any threshold. */
  predicate MeetsDiscount(p: Product, minPercent: real) {
    !p.IsOnSale() || p.Discount() as real / 10.0 >= minPercent
  }

  function UpperSet(names: seq<string>): set<string> {
    set i | 0 <= i < |names| :: Upper(names[i])
  }

  /** The configured size names in one upper-case set. */
  function SizeSet(clothing: seq<string>, pants: seq<string>, shoes: seq<string>, oneSize: bool): set<string> {
    UpperSet(clothing + pants + shoes) + if oneSize then {"ONE SIZE"} else {}
  }

  /** The keywords that are not blank, in lower case. */
  function LowerKeywords(keywords: seq<string>): seq<string> {
    if keywords == [] then []
    else (if IsBlank(keywords[0]) then [] else [Lower(keywords[0])]) + LowerKeywords(keywords[1..])
  }

  function MatchingSizes(sizes: seq<Size>, allowed: set<string>): seq<Size> {
    if allowed == {} then sizes else SizesIn(sizes, allowed)
  }

  function SizesIn(sizes: seq<Size>, allowed: set<string>): seq<Size> {
    if sizes == [] then []
    else (if Upper(sizes[0].name) in allowed then [sizes[0]] else []) + SizesIn(sizes[1..], allowed)
  }

  // ------------------------------------------------- watched-variant overlay

  /** The name of the last size that carries `code`: a dict keeps the last. */
  function NameOfCode(sizes: seq<Size>, code: string): Option<string> {
    if sizes == [] then None
    else if sizes[|sizes| - 1].displayCode == code then Some(sizes[|sizes| - 1].name)
    else NameOfCode(sizes[..|sizes| - 1], code)
  }

  /** The name of the product size a watched variant stands for, if any. */
  function WatchedSize(p: Product, wv: WatchedVariant): Option<string> {
    NameOfCode(p.sizes, wv.size)
  }

  /** The last watched variant that stands for the size called `name`. */
  function LastVariantFor(p: Product, wvs: seq<WatchedVariant>, name: string): Option<WatchedVariant> {
    if wvs == [] then None
    else if WatchedSize(p, wvs[|wvs| - 1]) == Some(name) then Some(wvs[|wvs| - 1])
    else LastVariantFor(p, wvs[..|wvs| - 1], name)
  }

  /** The names of `names`, then those of the watched sizes that are new, each
      at its first appearance. */
  function OverlaidSizes(p: Product, names: seq<string>, wvs: seq<WatchedVariant>): (r: seq<string>)
    ensures |names| <= |r| && r[..|names|] == names
  {
    if wvs == [] then names
    else
      var before := OverlaidSizes(p, names, wvs[..|wvs| - 1]);
      var size := WatchedSize(p, wvs[|wvs| - 1]);
      if size.Some? && size.value !in before then before + [size.value] else before
  }

  /** The first place of `name`, or |names|. */
  function FirstPlace(names: seq<string>, name: string): (k: nat)
    ensures k <= |names|
    ensures k < |names| ==> names[k] == name
    ensures forall i :: 0 <= i < k ==> names[i] != name
    ensures k == |names| <==> name !in names
  {
    if names == [] || names[0] == name then 0
    else
      var k := FirstPlace(names[1..], name);
      assert forall i :: 0 < i <= k ==> names[i] == names[1..][i - 1];
      k + 1
  }

  /** The variant whose URL and colour slot `i` shows: the last watched one for
      that size name, and only at the first slot with that name. */
  function OverlayAt(p: Product, names: seq<string>, wvs: seq<WatchedVariant>, i: nat): Option<WatchedVariant>
    requires i < |names|
  {
    if FirstPlace(names, names[i]) == i then LastVariantFor(p, wvs, names[i]) else None
  }

  /** What slot `i` holds: the overlay's `text`, else its default. */
  function SlotAt(p: Product, names: seq<string>, defaults: seq<string>, wvs: seq<WatchedVariant>,
                  text: WatchedVariant -> string, i: nat): string
    requires i < |names|
  {
    match OverlayAt(p, names, wvs, i)
    case Some(wv) => text(wv)
    case None => if i < |defaults| then defaults[i] else ""
  }

  function Slots(p: Product, names: seq<string>, defaults: seq<string>, wvs: seq<WatchedVariant>,
                 text: WatchedVariant -> string): (r: seq<string>)
    ensures |r| == |names|
  {
    seq(|names|, i requires 0 <= i < |names| => SlotAt(p, names, defaults, wvs, text, i))
  }

  function UrlText(site: Site, p: Product): WatchedVariant -> string {
    (wv: WatchedVariant) => BuildProductUrl(site.pageBase, p.id, p.priceGroup, wv.color, wv.size, false)
  }

  function ColorText(): WatchedVariant -> string {
    (wv: WatchedVariant) => wv.colorName
  }

  // ------------------------------------------------------------- sale items

  function Names(sizes: seq<Size>): (r: seq<string>)
    ensures |r| == |sizes|
  {
    seq(|sizes|, i requires 0 <= i < |sizes| => sizes[i].name)
  }

  /** One URL per size, in the product's representative colour. */
  function VariantUrls(site: Site, p: Product, sizes: seq<Size>): (r: seq<string>)
    ensures |r| == |sizes|
  {
    seq(|sizes|, i requires 0 <= i < |sizes| =>
      if site.codeStyle
      then BuildProductUrl(site.pageBase, p.id, p.priceGroup, p.colorCode, sizes[i].code, true)
      else BuildProductUrl(site.pageBase, p.id, p.priceGroup, p.colorDisplayCode, sizes[i].displayCode, false))
  }

  /** What `to_sale_item` returns, slot by slot. */
  function SaleItemOf(site: Site, p: Product, watched: bool, allowed: set<string>,
                      wvs: seq<WatchedVariant>, inSaleFeed: bool): (item: SaleItem)
    ensures item.discount == p.Discount()
  {
    var matched := MatchingSizes(p.sizes, allowed);
    var names := OverlaidSizes(p, Names(matched), wvs);
    SaleItem(
      p.id, p.name, p.base, p.SalePrice(), p.Discount(), p.gender,
      names,
      Slots(p, names, VariantUrls(site, p, matched), wvs, UrlText(site, p)),
      Slots(p, names, [], wvs, ColorText()),
      [], [], p.priceGroup, watched, p.IsOnSale() || !inSaleFeed, [])
  }

  /** `to_sale_item`: the overlay loop overwrites a slot or adds one. */
  method ToSaleItem(site: Site, p: Product, watched: bool, allowed: set<string>,
                    wvs: seq<WatchedVariant>, inSaleFeed: bool) returns (item: SaleItem)
    ensures item == SaleItemOf(site, p, watched, allowed, wvs, inSaleFeed)
  {
    var matched := MatchingSizes(p.sizes, allowed);
    var finalSizes, finalUrls, finalColors :=
      Overlay(p, Names(matched), VariantUrls(site, p, matched), wvs, UrlText(site, p), ColorText());
    item := SaleItem(
      p.id, p.name, p.base, p.SalePrice(), p.Discount(), p.gender, finalSizes, finalUrls, finalColors,
      [], [], p.priceGroup, watched, p.IsOnSale() || !inSaleFeed, []);
  }

  method Overlay(p: Product, names: seq<string>, urls: seq<string>, wvs: seq<WatchedVariant>,
                 urlText: WatchedVariant -> string, colorText: WatchedVariant -> string)
    returns (finalSizes: seq<string>, finalUrls: seq<string>, finalColors: seq<string>)
    requires |urls| == |names|
    ensures finalSizes == OverlaidSizes(p, names, wvs)
    ensures finalUrls == Slots(p, finalSizes, urls, wvs, urlText)
    ensures finalColors == Slots(p, finalSizes, [], wvs, colorText)
  {
    finalSizes, finalUrls, finalColors := names, urls, seq(|names|, i => "");
    assert wvs[..0] == [];
    OverlayStart(p, names, urls, urlText);
    OverlayStart(p, names, [], colorText);
    var n := 0;
    while n < |wvs|
      invariant 0 <= n <= |wvs|
      invariant finalSizes == OverlaidSizes(p, names, wvs[..n])
      invariant finalUrls == Slots(p, finalSizes, urls, wvs[..n], urlText)
      invariant finalColors == Slots(p, finalSizes, [], wvs[..n], colorText)
    {
      OverlayRound(p, names, urls, wvs, n, urlText);
      OverlayRound(p, names, [], wvs, n, colorText);
      var size := NameOfCode(p.sizes, wvs[n].size);
      if size.Some? {
        finalSizes, finalUrls, finalColors :=
          PutSlot(finalSizes, finalUrls, finalColors, size.value, urlText(wvs[n]), colorText(wvs[n]));
      }
      n := n + 1;
    }
    assert wvs[..|wvs|] == wvs;
  }

  /** Overwrites the first slot of the size, or adds one. */
  method PutSlot(sizes: seq<string>, urls: seq<string>, colors: seq<string>, size: string, url: string, color: string)
    returns (sizes': seq<string>, urls': seq<string>, colors': seq<string>)
    requires |sizes| == |urls| == |colors|
    ensures var k := FirstPlace(sizes, size);
            if k < |sizes| then sizes' == sizes && urls' == urls[k := url] && colors' == colors[k := color]
            else sizes' == sizes + [size] && urls' == urls + [url] && colors' == colors + [color]
  {
    var k := FirstPlace(sizes, size);
    if k < |sizes| {
      return sizes, urls[k := url], colors[k := color];
    }
    return sizes + [size], urls + [url], colors + [color];
  }

  lemma OverlayStart(p: Product, names: seq<string>, defaults: seq<string>, text: WatchedVariant -> string)
    ensures OverlaidSizes(p, names, []) == names
    ensures Slots(p, names, defaults, [], text)
            == seq(|names|, i requires 0 <= i < |names| => if i < |defaults| then defaults[i] else "")
    ensures |defaults| == |names| ==> Slots(p, names, defaults, [], text) == defaults
  {
    forall i | 0 <= i < |names| ensures OverlayAt(p, names, [], i) == None {
    }
  }

  /** One round of the overlay: it overwrites the first slot with the name of
      the watched size, adds a slot, or leaves the lists alone. */
  lemma OverlayRound(p: Product, names: seq<string>, defaults: seq<string>, wvs: seq<WatchedVariant>, n: nat,
                     text: WatchedVariant -> string)
    requires n < |wvs| && |defaults| <= |names|
    ensures var before, after := OverlaidSizes(p, names, wvs[..n]), OverlaidSizes(p, names, wvs[..n + 1]);
            var s := Slots(p, before, defaults, wvs[..n], text);
            var s' := Slots(p, after, defaults, wvs[..n + 1], text);
            match WatchedSize(p, wvs[n])
            case None => after == before && s' == s
            case Some(size) =>
              var k := FirstPlace(before, size);
              if k < |before| then after == before && s' == s[k := text(wvs[n])]
              else after == before + [size] && s' == s + [text(wvs[n])]
  {
    var before, after := OverlaidSizes(p, names, wvs[..n]), OverlaidSizes(p, names, wvs[..n + 1]);
    var s := Slots(p, before, defaults, wvs[..n], text);
    var s' := Slots(p, after, defaults, wvs[..n + 1], text);
    var size := WatchedSize(p, wvs[n]);
    assert after == if size.Some? && size.value !in before then before + [size.value] else before by {
      OverlayStep(p, names, wvs, n);
    }
    forall i | 0 <= i < |before|
      ensures s'[i] == if size == Some(before[i]) && FirstPlace(before, before[i]) == i then text(wvs[n]) else s[i]
    {
      SlotStep(p, names, defaults, wvs, n, text, i);
    }
    match size
    case None => SameList(s, s');
    case Some(name) =>
      var k := FirstPlace(before, name);
      if k < |before| {
        UpdatedList(s, s', k, text(wvs[n]));
      } else {
        NewSlot(p, names, defaults, wvs, n, text);
        AppendedList(s, s', text(wvs[n]));
      }
  }

  lemma SameList<T>(s: seq<T>, s': seq<T>)
    requires |s'| == |s| && forall i :: 0 <= i < |s| ==> s'[i] == s[i]
    ensures s' == s
  {
  }

  lemma UpdatedList<T>(s: seq<T>, s': seq<T>, k: nat, x: T)
    requires |s'| == |s| && k < |s| && forall i :: 0 <= i < |s| ==> s'[i] == if i == k then x else s[i]
    ensures s' == s[k := x]
  {
  }

  lemma AppendedList<T>(s: seq<T>, s': seq<T>, x: T)
    requires |s'| == |s| + 1 && s'[|s|] == x && forall i :: 0 <= i < |s| ==> s'[i] == s[i]
    ensures s' == s + [x]
  {
  }

  lemma SlotStep(p: Product, names: seq<string>, defaults: seq<string>, wvs: seq<WatchedVariant>, n: nat,
                 text: WatchedVariant -> string, i: nat)
    requires n < |wvs| && i < |OverlaidSizes(p, names, wvs[..n])|
    ensures var before, after := OverlaidSizes(p, names, wvs[..n]), OverlaidSizes(p, names, wvs[..n + 1]);
            && |before| <= |after|
            && SlotAt(p, after, defaults, wvs[..n + 1], text, i)
               == if WatchedSize(p, wvs[n]) == Some(before[i]) && FirstPlace(before, before[i]) == i
                  then text(wvs[n]) else SlotAt(p, before, defaults, wvs[..n], text, i)
  {
    OverlayStep(p, names, wvs, n);
  }

  lemma NewSlot(p: Product, names: seq<string>, defaults: seq<string>, wvs: seq<WatchedVariant>, n: nat,
                text: WatchedVariant -> string)
    requires n < |wvs|
    requires |OverlaidSizes(p, names, wvs[..n])| < |OverlaidSizes(p, names, wvs[..n + 1])|
    ensures SlotAt(p, OverlaidSizes(p, names, wvs[..n + 1]), defaults, wvs[..n + 1], text,
                   |OverlaidSizes(p, names, wvs[..n])|)
            == text(wvs[n])
  {
    OverlayStep(p, names, wvs, n);
    var k := |OverlaidSizes(p, names, wvs[..n])|;
    assert OverlayAt(p, OverlaidSizes(p, names, wvs[..n + 1]), wvs[..n + 1], k) == Some(wvs[n]);
  }

  lemma OverlayStep(p: Product, names: seq<string>, wvs: seq<WatchedVariant>, n: nat)
    requires n < |wvs|
    ensures wvs[..n + 1][..n] == wvs[..n] && wvs[..n + 1][n] == wvs[n]
    ensures var before, after := OverlaidSizes(p, names, wvs[..n]), OverlaidSizes(p, names, wvs[..n + 1]);
            && |before| <= |after| && after[..|before|] == before
            && forall i :: 0 <= i < |before| ==>
                 OverlayAt(p, after, wvs[..n + 1], i)
                 == if WatchedSize(p, wvs[n]) == Some(before[i]) && FirstPlace(before, before[i]) == i
                    then Some(wvs[n]) else OverlayAt(p, before, wvs[..n], i)
  {
  }

  // ------------------------------------------------------- the overlay's law

  /** The three lists of a fresh sale item have one length. */
  lemma SaleItemIsAligned(site: Site, p: Product, watched: bool, allowed: set<string>,
                          wvs: seq<WatchedVariant>, inSaleFeed: bool)
    ensures SaleItemOf(site, p, watched, allowed, wvs, inSaleFeed).Aligned()
  {
  }

  lemma {:induction false} WatchedSizeIsListed(p: Product, names: seq<string>, wvs: seq<WatchedVariant>, n: nat)
    requires n < |wvs| && WatchedSize(p, wvs[n]).Some?
    ensures WatchedSize(p, wvs[n]).value in OverlaidSizes(p, names, wvs)
  {
    if n < |wvs| - 1 {
      WatchedSizeIsListed(p, names, wvs[..|wvs| - 1], n);
    }
  }

  lemma {:induction false} LastVariantIsLast(p: Product, wvs: seq<WatchedVariant>, n: nat)
    requires n < |wvs| && WatchedSize(p, wvs[n]).Some?
    requires forall m :: n < m < |wvs| ==> WatchedSize(p, wvs[m]) != WatchedSize(p, wvs[n])
    ensures LastVariantFor(p, wvs, WatchedSize(p, wvs[n]).value) == Some(wvs[n])
  {
    if n < |wvs| - 1 {
      LastVariantIsLast(p, wvs[..|wvs| - 1], n);
    }
  }

  /** Every watched variant whose size code names a product size ends with that
      size listed; the last variant of a size gives it its URL and colour. */
  lemma WatchedVariantIsShown(site: Site, p: Product, watched: bool, allowed: set<string>,
                              wvs: seq<WatchedVariant>, inSaleFeed: bool, n: nat)
    requires n < |wvs| && WatchedSize(p, wvs[n]).Some?
    ensures var item := SaleItemOf(site, p, watched, allowed, wvs, inSaleFeed);
            var size := WatchedSize(p, wvs[n]).value;
            var k := FirstPlace(item.sizes, size);
            && k < |item.sizes| == |item.urls| == |item.colorNames|
            && item.sizes[k] == size
            && ((forall m :: n < m < |wvs| ==> WatchedSize(p, wvs[m]) != Some(size)) ==>
                  item.urls[k] == UrlText(site, p)(wvs[n]) && item.colorNames[k] == wvs[n].colorName)
  {
    var matched := MatchingSizes(p.sizes, allowed);
    WatchedSizeIsListed(p, Names(matched), wvs, n);
    if forall m :: n < m < |wvs| ==> WatchedSize(p, wvs[m]) != WatchedSize(p, wvs[n]) {
      LastVariantIsLast(p, wvs, n);
    }
  }
}
