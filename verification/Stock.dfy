/** Stock verification: only sizes with an in-stock colour survive. */
module Stock {
  import opened Text
  import opened Products
  import opened ProductUrls
  import opened Filters

  /** A colour and size row of a product; a missing field reads as "". */
  datatype L2 = L2(
    id: string,
    sizeName: string, sizeDisplayCode: string, sizeCode: string,
    colorName: string, colorDisplayCode: string, colorCode: string)

  datatype StockInfo = StockInfo(status: string, quantity: int)

  type StockMap = map<string, StockInfo>

  datatype StockVariant = StockVariant(row: L2, quantity: int, status: string)

  const IN_STOCK_STATUSES := {"IN_STOCK", "LOW_STOCK"}

  // ----------------------------------------------------- picking a colour

  /** A row of the size that is in stock. */
  predicate IsCandidate(row: L2, size: string, stock: StockMap) {
    Upper(row.sizeName) == Upper(size) && row.id in stock && stock[row.id].status in IN_STOCK_STATUSES
  }

  function VariantOf(row: L2, stock: StockMap): StockVariant
    requires row.id in stock
  {
    StockVariant(row, stock[row.id].quantity, stock[row.id].status)
  }

  function Candidates(l2s: seq<L2>, size: string, stock: StockMap): seq<StockVariant> {
    if l2s == [] then []
    else
      var last := l2s[|l2s| - 1];
      Candidates(l2s[..|l2s| - 1], size, stock)
      + if IsCandidate(last, size, stock) then [VariantOf(last, stock)] else []
  }

  /** The first candidate in the colour, if any. */
  function FirstInColor(cs: seq<StockVariant>, color: string): Option<StockVariant> {
    if cs == [] then None
    else
      var earlier := FirstInColor(cs[..|cs| - 1], color);
      if earlier.Some? then earlier
      else if cs[|cs| - 1].row.colorDisplayCode == color then Some(cs[|cs| - 1]) else None
  }

  /** `max(candidates, key=quantity)`: the first of the largest. */
  function FirstLargest(cs: seq<StockVariant>): StockVariant
    requires cs != []
  {
    if |cs| == 1 then cs[0]
    else
      var earlier := FirstLargest(cs[..|cs| - 1]);
      if cs[|cs| - 1].quantity > earlier.quantity then cs[|cs| - 1] else earlier
  }

  /** An empty preferred colour means none. */
  function Pick(l2s: seq<L2>, size: string, stock: StockMap, preferred: string): Option<StockVariant> {
    var cs := Candidates(l2s, size, stock);
    if cs == [] then None
    else if preferred != "" && FirstInColor(cs, preferred).Some? then FirstInColor(cs, preferred)
    else Some(FirstLargest(cs))
  }

  /** `pick_in_stock_variant`. */
  method PickInStockVariant(l2s: seq<L2>, size: string, stock: StockMap, preferred: string)
    returns (r: Option<StockVariant>)
    ensures r == Pick(l2s, size, stock, preferred)
  {
    var cs: seq<StockVariant> := [];
    var n := 0;
    while n < |l2s|
      invariant 0 <= n <= |l2s|
      invariant cs == Candidates(l2s[..n], size, stock)
    {
      assert l2s[..n + 1][..n] == l2s[..n];
      if Upper(l2s[n].sizeName) == Upper(size) {
        if l2s[n].id in stock && stock[l2s[n].id].status in IN_STOCK_STATUSES {
          cs := cs + [StockVariant(l2s[n], stock[l2s[n].id].quantity, stock[l2s[n].id].status)];
        }
      }
      n := n + 1;
    }
    assert l2s[..n] == l2s;
    if cs == [] {
      return None;
    }
    if preferred != "" {
      var k := 0;
      while k < |cs|
        invariant 0 <= k <= |cs|
        invariant FirstInColor(cs[..k], preferred) == None
      {
        assert cs[..k + 1][..k] == cs[..k];
        if cs[k].row.colorDisplayCode == preferred {
          FirstInColorOfPrefix(cs, k + 1, preferred);
          return Some(cs[k]);
        }
        k := k + 1;
      }
      assert cs[..k] == cs;
    }
    r := Some(FirstLargest(cs));
  }

  lemma {:induction false} FirstInColorOfPrefix(cs: seq<StockVariant>, k: nat, color: string)
    requires k <= |cs| && FirstInColor(cs[..k], color).Some?
    ensures FirstInColor(cs, color) == FirstInColor(cs[..k], color)
    decreases |cs|
  {
    if k < |cs| {
      assert cs[..|cs| - 1][..k] == cs[..k];
      FirstInColorOfPrefix(cs[..|cs| - 1], k, color);
    } else {
      assert cs[..k] == cs;
    }
  }

  // -------------------------------------------------- what is picked, by row

  /** Row `i` is the first in-stock row of the size in the colour. */
  ghost predicate FirstRowInColor(l2s: seq<L2>, size: string, stock: StockMap, color: string, i: int) {
    && 0 <= i < |l2s| && IsCandidate(l2s[i], size, stock) && l2s[i].colorDisplayCode == color
    && forall j :: 0 <= j < i && IsCandidate(l2s[j], size, stock) ==> l2s[j].colorDisplayCode != color
  }

  /** Row `i` is the first in-stock row of the size with the largest quantity. */
  ghost predicate FirstRowLargest(l2s: seq<L2>, size: string, stock: StockMap, i: int) {
    && 0 <= i < |l2s| && IsCandidate(l2s[i], size, stock)
    && (forall j :: 0 <= j < |l2s| && IsCandidate(l2s[j], size, stock) ==>
          stock[l2s[j].id].quantity <= stock[l2s[i].id].quantity)
    && (forall j :: 0 <= j < i && IsCandidate(l2s[j], size, stock) ==>
          stock[l2s[j].id].quantity < stock[l2s[i].id].quantity)
  }

  ghost predicate HasCandidate(l2s: seq<L2>, size: string, stock: StockMap) {
    exists i :: 0 <= i < |l2s| && IsCandidate(l2s[i], size, stock)
  }

  ghost predicate HasCandidateInColor(l2s: seq<L2>, size: string, stock: StockMap, color: string) {
    exists i :: 0 <= i < |l2s| && IsCandidate(l2s[i], size, stock) && l2s[i].colorDisplayCode == color
  }

  lemma {:induction false} CandidatesEmptyIff(l2s: seq<L2>, size: string, stock: StockMap)
    ensures Candidates(l2s, size, stock) == [] <==> !HasCandidate(l2s, size, stock)
  {
    if l2s != [] {
      var n := |l2s| - 1;
      CandidatesEmptyIff(l2s[..n], size, stock);
      assert forall i :: 0 <= i < n ==> l2s[..n][i] == l2s[i];
      if HasCandidate(l2s, size, stock) && !IsCandidate(l2s[n], size, stock) {
        var i :| 0 <= i < |l2s| && IsCandidate(l2s[i], size, stock);
        assert IsCandidate(l2s[..n][i], size, stock);
      }
    }
  }

  lemma {:induction false} FirstInColorRow(l2s: seq<L2>, size: string, stock: StockMap, color: string)
    returns (i: int)
    ensures var c := FirstInColor(Candidates(l2s, size, stock), color);
            && (c.Some? <==> HasCandidateInColor(l2s, size, stock, color))
            && (c.Some? ==> FirstRowInColor(l2s, size, stock, color, i) && c.value == VariantOf(l2s[i], stock))
  {
    i := 0;
    if l2s != [] {
      var n := |l2s| - 1;
      var cs := Candidates(l2s[..n], size, stock);
      i := FirstInColorRow(l2s[..n], size, stock, color);
      var earlier := FirstInColor(cs, color);
      var all := Candidates(l2s, size, stock);
      assert all == cs || all[..|all| - 1] == cs;
      if earlier.Some? {
        assert FirstInColor(all, color) == earlier;
        assert l2s[..n][i] == l2s[i];
        assert forall j :: 0 <= j < i ==> l2s[..n][j] == l2s[j];
        assert IsCandidate(l2s[i], size, stock) && l2s[i].colorDisplayCode == color;
      } else {
        forall j | 0 <= j < n && IsCandidate(l2s[j], size, stock) ensures l2s[j].colorDisplayCode != color {
          assert l2s[..n][j] == l2s[j];
        }
        if IsCandidate(l2s[n], size, stock) && l2s[n].colorDisplayCode == color {
          i := n;
          assert all[|all| - 1] == VariantOf(l2s[n], stock);
        }
      }
    }
  }

  lemma {:induction false} FirstLargestRow(l2s: seq<L2>, size: string, stock: StockMap) returns (i: int)
    requires Candidates(l2s, size, stock) != []
    ensures FirstRowLargest(l2s, size, stock, i)
    ensures FirstLargest(Candidates(l2s, size, stock)) == VariantOf(l2s[i], stock)
  {
    var n := |l2s| - 1;
    var cs, all := Candidates(l2s[..n], size, stock), Candidates(l2s, size, stock);
    CandidatesEmptyIff(l2s[..n], size, stock);
    if cs == [] {
      i := n;
      forall j | 0 <= j < n ensures !IsCandidate(l2s[j], size, stock) {
        assert l2s[..n][j] == l2s[j];
      }
      assert all == [VariantOf(l2s[n], stock)];
    } else {
      i := FirstLargestRow(l2s[..n], size, stock);
      assert l2s[..n][i] == l2s[i];
      forall j | 0 <= j < n && IsCandidate(l2s[j], size, stock)
        ensures stock[l2s[j].id].quantity <= stock[l2s[i].id].quantity
        ensures j < i ==> stock[l2s[j].id].quantity < stock[l2s[i].id].quantity
      {
        assert l2s[..n][j] == l2s[j];
      }
      if IsCandidate(l2s[n], size, stock) {
        assert all == cs + [VariantOf(l2s[n], stock)];
        assert all[..|all| - 1] == cs;
        if stock[l2s[n].id].quantity > stock[l2s[i].id].quantity {
          i := n;
        }
      } else {
        assert all == cs;
      }
    }
  }

  /** A size is picked exactly when a row of it is in stock. The preferred
      colour wins if it is in stock, at its first row; otherwise the first row
      of the largest quantity does. */
  lemma PickedRow(l2s: seq<L2>, size: string, stock: StockMap, preferred: string) returns (i: int)
    ensures var r := Pick(l2s, size, stock, preferred);
            && (r.Some? <==> HasCandidate(l2s, size, stock))
            && (r.Some? ==>
                  && 0 <= i < |l2s| && IsCandidate(l2s[i], size, stock) && r.value == VariantOf(l2s[i], stock)
                  && if preferred != "" && HasCandidateInColor(l2s, size, stock, preferred)
                     then FirstRowInColor(l2s, size, stock, preferred, i)
                     else FirstRowLargest(l2s, size, stock, i))
  {
    i := 0;
    CandidatesEmptyIff(l2s, size, stock);
    if Candidates(l2s, size, stock) != [] {
      i := FirstLargestRow(l2s, size, stock);
      if preferred != "" {
        var k := FirstInColorRow(l2s, size, stock, preferred);
        if HasCandidateInColor(l2s, size, stock, preferred) {
          i := k;
        }
      }
    }
  }

  // -------------------------------------------------- preferred colours

  /** The size name of the last row that carries the display code. */
  function RowSizeName(l2s: seq<L2>, code: string): string {
    if l2s == [] then ""
    else if l2s[|l2s| - 1].sizeDisplayCode == code then l2s[|l2s| - 1].sizeName
    else RowSizeName(l2s[..|l2s| - 1], code)
  }

  /** The colour of the last watched variant for the upper-case size name. */
  function PreferredColor(wvs: seq<WatchedVariant>, l2s: seq<L2>, size: string): string {
    if wvs == [] then ""
    else
      var last := wvs[|wvs| - 1];
      if size != "" && Upper(RowSizeName(l2s, last.size)) == size && last.color != "" then last.color
      else PreferredColor(wvs[..|wvs| - 1], l2s, size)
  }

  function Lookup(m: map<string, string>, key: string): string {
    if key in m then m[key] else ""
  }

  /** `_preferred_color_map`. */
  method PreferredColorMap(wvs: seq<WatchedVariant>, l2s: seq<L2>) returns (preferred: map<string, string>)
    ensures forall size :: Lookup(preferred, size) == PreferredColor(wvs, l2s, size)
  {
    if wvs == [] {
      return map[];
    }
    var codeToName: map<string, string> := map[];
    var n := 0;
    while n < |l2s|
      invariant 0 <= n <= |l2s|
      invariant forall code :: Lookup(codeToName, code) == RowSizeName(l2s[..n], code)
    {
      assert l2s[..n + 1][..n] == l2s[..n];
      codeToName := codeToName[l2s[n].sizeDisplayCode := l2s[n].sizeName];
      n := n + 1;
    }
    assert l2s[..n] == l2s;
    preferred := map[];
    n := 0;
    while n < |wvs|
      invariant 0 <= n <= |wvs|
      invariant forall size :: Lookup(preferred, size) == PreferredColor(wvs[..n], l2s, size)
    {
      assert wvs[..n + 1][..n] == wvs[..n];
      var size := Upper(Lookup(codeToName, wvs[n].size));
      if size != "" && wvs[n].color != "" {
        preferred := preferred[size := wvs[n].color];
      }
      n := n + 1;
    }
    assert wvs[..n] == wvs;
  }

  // -------------------------------------------------- one item

  /** A size that survived and the variant picked for it. */
  datatype Line = Line(size: string, variant: StockVariant)

  function Lines(sizes: seq<string>, wvs: seq<WatchedVariant>, l2s: seq<L2>, stock: StockMap): seq<Line> {
    if sizes == [] then []
    else
      var size := sizes[|sizes| - 1];
      var v := Pick(l2s, size, stock, PreferredColor(wvs, l2s, Upper(size)));
      Lines(sizes[..|sizes| - 1], wvs, l2s, stock) + if v.Some? then [Line(size, v.value)] else []
  }

  lemma LinesStep(all: seq<string>, n: nat, wvs: seq<WatchedVariant>, l2s: seq<L2>, stock: StockMap)
    requires n < |all|
    ensures var v := Pick(l2s, all[n], stock, PreferredColor(wvs, l2s, Upper(all[n])));
            Lines(all[..n + 1], wvs, l2s, stock)
            == Lines(all[..n], wvs, l2s, stock) + if v.Some? then [Line(all[n], v.value)] else []
  {
    assert all[..n + 1][..n] == all[..n];
  }

  function RowUrl(site: Site, item: SaleItem): L2 -> string {
    (row: L2) =>
      if site.codeStyle
      then BuildProductUrl(site.pageBase, item.productId, item.priceGroup, row.colorCode, row.sizeCode, true)
      else BuildProductUrl(site.pageBase, item.productId, item.priceGroup,
                           row.colorDisplayCode, row.sizeDisplayCode, false)
  }

  function LineSizes(lines: seq<Line>): seq<string> {
    seq(|lines|, i requires 0 <= i < |lines| => lines[i].size)
  }

  function LineUrls(lines: seq<Line>, rowUrl: L2 -> string): seq<string> {
    seq(|lines|, i requires 0 <= i < |lines| => rowUrl(lines[i].variant.row))
  }

  function LineColors(lines: seq<Line>): seq<string> {
    seq(|lines|, i requires 0 <= i < |lines| => lines[i].variant.row.colorName)
  }

  function LineQuantities(lines: seq<Line>): seq<int> {
    seq(|lines|, i requires 0 <= i < |lines| => lines[i].variant.quantity)
  }

  function LineStatuses(lines: seq<Line>): seq<string> {
    seq(|lines|, i requires 0 <= i < |lines| => lines[i].variant.status)
  }

  lemma LineAppended(lines: seq<Line>, line: Line, rowUrl: L2 -> string)
    ensures LineSizes(lines + [line]) == LineSizes(lines) + [line.size]
    ensures LineUrls(lines + [line], rowUrl) == LineUrls(lines, rowUrl) + [rowUrl(line.variant.row)]
    ensures LineColors(lines + [line]) == LineColors(lines) + [line.variant.row.colorName]
    ensures LineQuantities(lines + [line]) == LineQuantities(lines) + [line.variant.quantity]
    ensures LineStatuses(lines + [line]) == LineStatuses(lines) + [line.variant.status]
  {
  }

  function WithLines(item: SaleItem, lines: seq<Line>, rowUrl: L2 -> string): SaleItem {
    item.(sizes := LineSizes(lines), urls := LineUrls(lines, rowUrl), colorNames := LineColors(lines),
          quantities := LineQuantities(lines), statuses := LineStatuses(lines))
  }

  /** The item with its in-stock sizes; None drops it. Without rows or without
      stock data it stays as it is. */
  function Verified(site: Site, wvs: seq<WatchedVariant>, item: SaleItem, l2s: seq<L2>, stock: StockMap)
    : Option<SaleItem>
  {
    if l2s == [] || stock == map[] then Some(item)
    else
      var lines := Lines(item.sizes, wvs, l2s, stock);
      if lines == [] then None else Some(WithLines(item, lines, RowUrl(site, item)))
  }

  /** The first row with the upper-case size name; "" names no row. */
  function FirstRow(l2s: seq<L2>, size: string): Option<L2> {
    if l2s == [] then None
    else
      var earlier := FirstRow(l2s[..|l2s| - 1], size);
      if earlier.Some? then earlier
      else if size != "" && Upper(l2s[|l2s| - 1].sizeName) == size then Some(l2s[|l2s| - 1]) else None
  }

  function RebuiltText(l2s: seq<L2>, size: string, text: L2 -> string): string {
    match FirstRow(l2s, Upper(size))
    case Some(row) => text(row)
    case None => ""
  }

  function RebuiltTexts(l2s: seq<L2>, sizes: seq<string>, text: L2 -> string): (r: seq<string>)
    ensures |r| == |sizes|
  {
    seq(|sizes|, i requires 0 <= i < |sizes| => RebuiltText(l2s, sizes[i], text))
  }

  function ColorNameOf(): L2 -> string {
    (row: L2) => row.colorName
  }

  /** `rebuild_from_l2`: fresh URLs and colours, stock unknown. */
  function Rebuilt(site: Site, item: SaleItem, l2s: seq<L2>): SaleItem {
    item.(urls := RebuiltTexts(l2s, item.sizes, RowUrl(site, item)),
          colorNames := RebuiltTexts(l2s, item.sizes, ColorNameOf()),
          quantities := seq(|item.sizes|, i => 0),
          statuses := seq(|item.sizes|, i => ""))
  }

  method FirstRowBySize(l2s: seq<L2>) returns (bySize: map<string, L2>)
    ensures forall size :: FirstRow(l2s, size) == if size in bySize then Some(bySize[size]) else None
  {
    bySize := map[];
    var n := 0;
    while n < |l2s|
      invariant 0 <= n <= |l2s|
      invariant forall size :: FirstRow(l2s[..n], size) == if size in bySize then Some(bySize[size]) else None
    {
      assert l2s[..n + 1][..n] == l2s[..n];
      var size := Upper(l2s[n].sizeName);
      if size != "" && size !in bySize {
        bySize := bySize[size := l2s[n]];
      }
      n := n + 1;
    }
    assert l2s[..n] == l2s;
  }

  method RebuildFromL2(site: Site, item: SaleItem, l2s: seq<L2>) returns (r: SaleItem)
    ensures r == Rebuilt(site, item, l2s)
  {
    var bySize := FirstRowBySize(l2s);
    var urls, colors := RebuildLists(item.sizes, l2s, bySize, RowUrl(site, item), ColorNameOf());
    r := item.(urls := urls, colorNames := colors,
               quantities := seq(|item.sizes|, i => 0), statuses := seq(|item.sizes|, i => ""));
  }

  method RebuildLists(sizes: seq<string>, ghost l2s: seq<L2>, bySize: map<string, L2>,
                      rowUrl: L2 -> string, rowColor: L2 -> string)
    returns (urls: seq<string>, colors: seq<string>)
    requires forall size :: FirstRow(l2s, size) == if size in bySize then Some(bySize[size]) else None
    ensures urls == RebuiltTexts(l2s, sizes, rowUrl)
    ensures colors == RebuiltTexts(l2s, sizes, rowColor)
  {
    urls, colors := [], [];
    var n := 0;
    while n < |sizes|
      invariant 0 <= n <= |sizes| && |urls| == |colors| == n
      invariant forall i :: 0 <= i < n ==> urls[i] == RebuiltText(l2s, sizes[i], rowUrl)
      invariant forall i :: 0 <= i < n ==> colors[i] == RebuiltText(l2s, sizes[i], rowColor)
    {
      var size := Upper(sizes[n]);
      assert FirstRow(l2s, size) == if size in bySize then Some(bySize[size]) else None;
      if size in bySize {
        urls, colors := urls + [rowUrl(bySize[size])], colors + [rowColor(bySize[size])];
      } else {
        urls, colors := urls + [""], colors + [""];
      }
      n := n + 1;
    }
  }

  // -------------------------------------------------- a batch

  /** What the client answered for one item: an error, or rows and stock. */
  datatype Answer = Failed | Got(l2s: seq<L2>, stock: StockMap)

  /** The values that are there, in order. */
  function Somes(rs: seq<Option<SaleItem>>): seq<SaleItem> {
    if rs == [] then []
    else
      var last := rs[|rs| - 1];
      Somes(rs[..|rs| - 1]) + if last.Some? then [last.value] else []
  }

  datatype Verifier = Verifier(site: Site, watchedByProduct: map<string, seq<WatchedVariant>>)
  {
    function Variants(item: SaleItem): seq<WatchedVariant> {
      if Upper(item.productId) in watchedByProduct then watchedByProduct[Upper(item.productId)] else []
    }

    /** One item: an error keeps it; an unreliable stock API never drops it. */
    function Outcome(item: SaleItem, answer: Answer): Option<SaleItem> {
      match answer
      case Failed => Some(item)
      case Got(l2s, stock) =>
        if site.stockApiNone then Some(if l2s == [] then item else Rebuilt(site, item, l2s))
        else Verified(site, Variants(item), item, l2s, stock)
    }

    function Outcomes(items: seq<SaleItem>, answers: seq<Answer>): (r: seq<Option<SaleItem>>)
      requires |answers| == |items|
      ensures |r| == |items|
    {
      seq(|items|, i requires 0 <= i < |items| => Outcome(items[i], answers[i]))
    }

    function Batch(items: seq<SaleItem>, answers: seq<Answer>): seq<SaleItem>
      requires |answers| == |items|
    {
      Somes(Outcomes(items, answers))
    }

    /** `_verify_one`. */
    method VerifyOne(item: SaleItem, l2s: seq<L2>, stock: StockMap) returns (r: Option<SaleItem>)
      ensures r == Verified(site, Variants(item), item, l2s, stock)
    {
      if l2s == [] || stock == map[] {
        return Some(item);
      }
      var preferred := PreferredColorMap(Variants(item), l2s);
      var sizes, urls, colors, quantities, statuses :=
        KeepInStock(item.sizes, l2s, stock, preferred, Variants(item), RowUrl(site, item));
      if sizes == [] {
        return None;
      }
      r := Some(item.(sizes := sizes, urls := urls, colorNames := colors,
                      quantities := quantities, statuses := statuses));
    }

    /** The loop of `_verify_one`: five lists grow together. */
    method KeepInStock(all: seq<string>, l2s: seq<L2>, stock: StockMap, preferred: map<string, string>,
                       ghost wvs: seq<WatchedVariant>, rowUrl: L2 -> string)
      returns (sizes: seq<string>, urls: seq<string>, colors: seq<string>,
               quantities: seq<int>, statuses: seq<string>)
      requires forall size :: Lookup(preferred, size) == PreferredColor(wvs, l2s, size)
      ensures var lines := Lines(all, wvs, l2s, stock);
              && sizes == LineSizes(lines) && urls == LineUrls(lines, rowUrl) && colors == LineColors(lines)
              && quantities == LineQuantities(lines) && statuses == LineStatuses(lines)
    {
      sizes, urls, colors, quantities, statuses := [], [], [], [], [];
      ghost var lines: seq<Line> := [];
      var n := 0;
      while n < |all|
        invariant 0 <= n <= |all|
        invariant lines == Lines(all[..n], wvs, l2s, stock)
        invariant sizes == LineSizes(lines) && urls == LineUrls(lines, rowUrl) && colors == LineColors(lines)
        invariant quantities == LineQuantities(lines) && statuses == LineStatuses(lines)
      {
        LinesStep(all, n, wvs, l2s, stock);
        var variant := PickInStockVariant(l2s, all[n], stock, Lookup(preferred, Upper(all[n])));
        if variant.Some? {
          var v := variant.value;
          LineAppended(lines, Line(all[n], v), rowUrl);
          sizes := sizes + [all[n]];
          urls := urls + [rowUrl(v.row)];
          colors := colors + [v.row.colorName];
          quantities := quantities + [v.quantity];
          statuses := statuses + [v.status];
          lines := lines + [Line(all[n], v)];
        }
        n := n + 1;
      }
      assert all[..n] == all;
    }

    /** `verify`, given the client's answers. */
    method Verify(items: seq<SaleItem>, answers: seq<Answer>) returns (verified: seq<SaleItem>)
      requires |answers| == |items|
      ensures verified == Batch(items, answers)
    {
      if items == [] {
        return items;
      }
      verified := [];
      var n := 0;
      while n < |items|
        invariant 0 <= n <= |items|
        invariant verified == Somes(Outcomes(items, answers)[..n])
      {
        ghost var rs := Outcomes(items, answers);
        assert rs[..n + 1][..n] == rs[..n];
        assert rs[n] == Outcome(items[n], answers[n]);
        match answers[n] {
          case Failed =>
            verified := verified + [items[n]];
          case Got(l2s, stock) =>
            if site.stockApiNone {
              if l2s == [] {
                verified := verified + [items[n]];
              } else {
                var rebuilt := RebuildFromL2(site, items[n], l2s);
                verified := verified + [rebuilt];
              }
            } else {
              var r := VerifyOne(items[n], l2s, stock);
              if r.Some? {
                verified := verified + [r.value];
              }
            }
        }
        n := n + 1;
      }
      assert Outcomes(items, answers)[..n] == Outcomes(items, answers);
    }
  }
}
