/** Product-page URLs: the printer and the two parsers that read it back. */
module ProductUrls {
  import opened FlatMaps
  import opened Text
  import opened UrlText

  const COLOR_DISPLAY := "colorDisplayCode"
  const SIZE_DISPLAY := "sizeDisplayCode"
  const COLOR_CODE := "colorCode"
  const SIZE_CODE := "sizeCode"

  datatype Codes = Codes(color: string, size: string)

  datatype UrlFields = UrlFields(id: string, priceGroup: string, color: string, size: string)

  // -------------------------------------------------------------- printer

  const SCHEME := "https"
  const PRODUCTS := "products"
  const HOST := "www.uniqlo.com"

  /** `product_page_base` of a country such as `de/de`. */
  function PageBase(country: string): string {
    SCHEME + "://" + HOST + "/" + country + "/" + PRODUCTS
  }

  function Parameter(name: string, value: string): seq<string> {
    if value == "" then [] else [name + "=" + value]
  }

  function QuerySuffix(params: seq<string>): string {
    if params == [] then "" else "?" + Join(params, '&')
  }

  /** `build_product_url`: code style leaves the price group out of the path. */
  function BuildProductUrl(base: string, id: string, priceGroup: string,
                           color: string, size: string, codeStyle: bool): string
  {
    if codeStyle then
      base + "/" + id + QuerySuffix(Parameter(COLOR_CODE, color) + Parameter(SIZE_CODE, size))
    else
      base + "/" + id + "/" + priceGroup
      + QuerySuffix(Parameter(COLOR_DISPLAY, color) + Parameter(SIZE_DISPLAY, size))
  }

  // -------------------------------------------------------------- parsers

  /** `re.sub(r"^[A-Z]+", "", raw)`. */
  function DropPrefix(raw: string): string {
    if raw != "" && 'A' <= raw[0] <= 'Z' then DropPrefix(raw[1..]) else raw
  }

  function CodesOf(query: string): Codes {
    var params := ParseQuery(query, false);
    var color, size := FirstValue(params, COLOR_DISPLAY), FirstValue(params, SIZE_DISPLAY);
    Codes(if color != "" then color else DropPrefix(FirstValue(params, COLOR_CODE)),
          if size != "" then size else DropPrefix(FirstValue(params, SIZE_CODE)))
  }

  function ParseVariantCodes(url: string): Codes {
    CodesOf(QueryOf(url))
  }

  function NonEmpty(parts: seq<string>): seq<string> {
    if parts == [] then []
    else (if parts[0] == "" then [] else [parts[0]]) + NonEmpty(parts[1..])
  }

  /** The id and price group after the first `products` that has a successor. */
  function AfterProducts(parts: seq<string>): (string, string) {
    if |parts| < 2 then ("", "")
    else if parts[0] == PRODUCTS then (parts[1], if |parts| > 2 then parts[2] else "")
    else AfterProducts(parts[1..])
  }

  function ParseUniqloUrl(url: string): UrlFields {
    var (id, pg) := AfterProducts(NonEmpty(Split(PathOf(url), '/')));
    var codes := ParseVariantCodes(url);
    UrlFields(id, if pg == "" then "00" else pg, codes.color, codes.size)
  }

  // ----------------------------------------------------------- round trips

  /** A code that survives a query string unescaped. */
  predicate PlainCode(s: string) {
    '&' !in s && '#' !in s && '+' !in s && '%' !in s
  }

  /** A text that may stand as one path segment, or as a path of several. */
  predicate PlainPath(s: string) {
    '?' !in s && '#' !in s && ';' !in s
  }

  predicate PlainSegment(s: string) {
    PlainPath(s) && '/' !in s
  }

  predicate AllLetters(s: string) {
    forall i :: 0 <= i < |s| ==> IsLetter(s[i])
  }

  /** The pairs a printed query stands for. */
  function PrintedPairs(names: Codes, color: string, size: string): seq<Pair> {
    (if color == "" then [] else [Pair(names.color, color)])
    + (if size == "" then [] else [Pair(names.size, size)])
  }

  lemma ReadPrintedParameter(name: string, value: string)
    requires AllLetters(name) && PlainCode(value) && value != ""
    ensures ReadSegment(name + "=" + value, false) == [Pair(name, value)]
    ensures '#' !in name + "=" + value && '&' !in name + "=" + value
  {
    ReadOneSegment(name, value, false);
    DecodePlain(name);
    DecodePlain(value);
  }

  lemma ReadJoinedParameters(names: Codes, color: string, size: string)
    requires AllLetters(names.color) && AllLetters(names.size)
    requires PlainCode(color) && PlainCode(size)
    requires color != "" || size != ""
    ensures var params := Parameter(names.color, color) + Parameter(names.size, size);
            && '#' !in Join(params, '&')
            && ParseQuery(Join(params, '&'), false) == PrintedPairs(names, color, size)
  {
    var params := Parameter(names.color, color) + Parameter(names.size, size);
    if color != "" { ReadPrintedParameter(names.color, color); }
    if size != "" { ReadPrintedParameter(names.size, size); }
    JoinAvoids(params, '&', '#');
    SplitOfJoin(params, '&');
    FlatMapOne(Reader(false), params[0]);
    FlatMapOne(Reader(false), params[|params| - 1]);
    if |params| == 2 {
      FlatMapConcat(Reader(false), [params[0]], [params[1]]);
      assert params == [params[0]] + [params[1]];
    } else {
      assert params == [params[0]];
    }
  }

  /** Reading a printed query gives back both values, under any names. */
  lemma ReadPrintedQuery(path: string, names: Codes, color: string, size: string)
    requires AllLetters(names.color) && AllLetters(names.size)
    requires PlainCode(color) && PlainCode(size)
    requires '?' !in path && '#' !in path
    ensures var url := path + QuerySuffix(Parameter(names.color, color) + Parameter(names.size, size));
            && ParseQuery(QueryOf(url), false) == PrintedPairs(names, color, size)
            && PathOf(url) == PathOf(path)
  {
    var params := Parameter(names.color, color) + Parameter(names.size, size);
    if color == "" && size == "" {
      NoQuery(path);
      assert path + "" == path;
      EmptyQuery();
    } else {
      ReadJoinedParameters(names, color, size);
      var query := Join(params, '&');
      assert path + QuerySuffix(params) == path + "?" + query;
      QueryAfterMark(path, query);
    }
  }

  lemma EmptyQuery()
    ensures ParseQuery("", false) == []
  {
    IndexOfNone("", '&');
    FlatMapOne(Reader(false), "");
  }

  /** The names of the parameters each style prints. */
  function NamesOf(codeStyle: bool): Codes {
    if codeStyle then Codes(COLOR_CODE, SIZE_CODE) else Codes(COLOR_DISPLAY, SIZE_DISPLAY)
  }

  lemma NamesAreLetters(codeStyle: bool)
    ensures AllLetters(NamesOf(codeStyle).color) && AllLetters(NamesOf(codeStyle).size)
  {
  }

  lemma FirstPrintedValue(names: Codes, color: string, size: string, key: string)
    requires names.color != names.size
    ensures FirstValue(PrintedPairs(names, color, size), key)
            == if key == names.color then color else if key == names.size then size else ""
  {
    var pairs := PrintedPairs(names, color, size);
    if |pairs| > 0 {
      assert FirstValue(pairs[1..], key) == if |pairs| == 2 && pairs[1].key == key then pairs[1].value else "";
    }
  }

  lemma NamesAreDistinct()
    ensures |COLOR_DISPLAY| == 16 && |SIZE_DISPLAY| == 15 && |COLOR_CODE| == 9 && |SIZE_CODE| == 8
  {
  }

  lemma TwoJoined(a: string, b: string)
    ensures Join([a, b], '&') == a + "&" + b
  {
    assert [a, b][1..] == [b];
  }

  lemma TwoParameters(front: string, n: string, v: string, n': string, v': string)
    requires v != "" && v' != ""
    ensures front + QuerySuffix(Parameter(n, v) + Parameter(n', v'))
            == front + "?" + n + "=" + v + "&" + n' + "=" + v'
  {
    var a, b := n + "=" + v, n' + "=" + v';
    assert Parameter(n, v) + Parameter(n', v') == [a, b];
    TwoJoined(a, b);
    RegroupParameters(front, n, v, n', v');
  }

  lemma RegroupParameters(front: string, n: string, v: string, n': string, v': string)
    ensures front + ("?" + ((n + "=" + v) + "&" + (n' + "=" + v'))) == front + "?" + n + "=" + v + "&" + n' + "=" + v'
  {
  }

  /** The printed form, with both codes. */
  lemma PrintedForm(base: string, id: string, priceGroup: string, color: string, size: string)
    requires color != "" && size != ""
    ensures BuildProductUrl(base, id, priceGroup, color, size, false)
            == base + "/" + id + "/" + priceGroup
               + "?" + "colorDisplayCode" + "=" + color + "&" + "sizeDisplayCode" + "=" + size
    ensures BuildProductUrl(base, id, priceGroup, color, size, true)
            == base + "/" + id + "?" + "colorCode" + "=" + color + "&" + "sizeCode" + "=" + size
  {
    TwoParameters(base + "/" + id + "/" + priceGroup, COLOR_DISPLAY, color, SIZE_DISPLAY, size);
    TwoParameters(base + "/" + id, COLOR_CODE, color, SIZE_CODE, size);
  }

  /** Exactly the leading capital letters are dropped. */
  lemma {:induction false} PrefixIsCapitals(prefix: string, rest: string)
    requires forall i :: 0 <= i < |prefix| ==> 'A' <= prefix[i] <= 'Z'
    requires rest == "" || !('A' <= rest[0] <= 'Z')
    ensures DropPrefix(prefix + rest) == rest
  {
    if prefix == "" {
      assert prefix + rest == rest;
    } else {
      assert (prefix + rest)[1..] == prefix[1..] + rest && (prefix + rest)[0] == prefix[0];
      PrefixIsCapitals(prefix[1..], rest);
    }
  }

  /** `parse_variant_codes` reads back the codes a URL was printed from; code
      style loses the leading capital letters. */
  lemma VariantCodesRoundTrip(base: string, id: string, priceGroup: string,
                              color: string, size: string, codeStyle: bool)
    requires PlainPath(base) && PlainPath(id) && PlainPath(priceGroup)
    requires PlainCode(color) && PlainCode(size)
    ensures ParseVariantCodes(BuildProductUrl(base, id, priceGroup, color, size, codeStyle))
            == if codeStyle then Codes(DropPrefix(color), DropPrefix(size)) else Codes(color, size)
  {
    var path := if codeStyle then base + "/" + id else base + "/" + id + "/" + priceGroup;
    PrintedUrl(path, color, size, codeStyle);
  }

  lemma PrintedUrl(path: string, color: string, size: string, codeStyle: bool)
    requires '?' !in path && '#' !in path
    requires PlainCode(color) && PlainCode(size)
    ensures var names := NamesOf(codeStyle);
            var url := path + QuerySuffix(Parameter(names.color, color) + Parameter(names.size, size));
            && PathOf(url) == PathOf(path)
            && ParseVariantCodes(url)
               == if codeStyle then Codes(DropPrefix(color), DropPrefix(size)) else Codes(color, size)
  {
    var names := NamesOf(codeStyle);
    NamesAreLetters(codeStyle);
    NamesAreDistinct();
    ReadPrintedQuery(path, names, color, size);
    FirstPrintedValue(names, color, size, COLOR_DISPLAY);
    FirstPrintedValue(names, color, size, SIZE_DISPLAY);
    FirstPrintedValue(names, color, size, COLOR_CODE);
    FirstPrintedValue(names, color, size, SIZE_CODE);
  }

  lemma {:induction false} NonEmptyOfConcat(a: seq<string>, b: seq<string>)
    ensures NonEmpty(a + b) == NonEmpty(a) + NonEmpty(b)
  {
    if a == [] {
      assert a + b == b;
    } else {
      NonEmptyOfConcat(a[1..], b);
      assert a + b == [a[0]] + (a[1..] + b);
      var head := if a[0] == "" then [] else [a[0]];
      assert head + (NonEmpty(a[1..]) + NonEmpty(b)) == (head + NonEmpty(a[1..])) + NonEmpty(b);
    }
  }

  function Segments(path: string): seq<string> {
    NonEmpty(Split(path, '/'))
  }

  lemma SegmentsOfConcat(a: string, b: string)
    ensures Segments(a + "/" + b) == Segments(a) + Segments(b)
  {
    SplitOfConcat(a, '/', b);
    NonEmptyOfConcat(Split(a, '/'), Split(b, '/'));
  }

  lemma OneSegment(s: string)
    requires '/' !in s
    ensures Segments(s) == if s == "" then [] else [s]
  {
    IndexOfNone(s, '/');
    assert NonEmpty([s][1..]) == [];
  }

  lemma {:induction false} SkipsToProducts(pre: seq<string>, rest: seq<string>)
    requires PRODUCTS !in pre && |rest| > 0
    ensures AfterProducts(pre + [PRODUCTS] + rest)
            == (rest[0], if |rest| > 1 then rest[1] else "")
  {
    var all := pre + [PRODUCTS] + rest;
    if pre != [] {
      SkipsToProducts(pre[1..], rest);
      assert all[1..] == pre[1..] + [PRODUCTS] + rest;
    }
  }

  lemma SchemeIsCut(scheme: string, tail: string)
    requires scheme != "" && AllLetters(scheme)
    ensures AfterScheme(scheme + ":" + tail) == tail
  {
    var url := scheme + ":" + tail;
    assert ':' !in scheme;
    IndexOfAt(scheme, ':', tail);
    assert url[0] == scheme[0];
    assert forall i :: 0 <= i < |scheme| ==> url[i] == scheme[i];
    assert url[|scheme| + 1..] == tail;
  }

  lemma HostIsCut(host: string, path: string)
    requires '/' !in host
    ensures AfterHost("//" + host + "/" + path) == "/" + path
  {
    var s := "//" + host + "/" + path;
    assert s == "//" + (host + "/" + path);
    assert s[2..] == host + "/" + path;
    IndexOfAt(host, '/', path);
    assert s[2 + |host|..] == "/" + path;
  }

  predicate HostText(s: string) {
    forall i :: 0 <= i < |s| ==> IsLetter(s[i]) || s[i] == '.'
  }

  /** The path of a page of the shop: scheme and host are cut off. */
  lemma PathAfterHost(scheme: string, host: string, path: string)
    requires scheme != "" && AllLetters(scheme) && HostText(host) && PlainPath(path)
    ensures PathOf(scheme + "://" + host + "/" + path) == "/" + path
  {
    var tail := "//" + host + "/" + path;
    var url := scheme + ":" + tail;
    assert scheme + "://" + host + "/" + path == url;
    assert '#' !in url && '?' !in url;
    IndexOfNone(url, '#');
    IndexOfNone(url, '?');
    assert url[..|url|] == url;
    SchemeIsCut(scheme, tail);
    HostIsCut(host, path);
  }

  lemma HostFacts()
    ensures SCHEME != "" && AllLetters(SCHEME) && HostText(HOST) && AllLetters(PRODUCTS)
  {
  }

  lemma RegroupPage(site: string, country: string, word: string, rest: string)
    requires PlainPath(country) && AllLetters(word) && PlainPath(rest)
    ensures site + country + "/" + word + "/" + rest == site + (country + "/" + (word + "/" + rest))
    ensures PlainPath(country + "/" + (word + "/" + rest))
    ensures PlainPath(site) ==> PlainPath(site + country + "/" + word)
  {
  }

  lemma PageOfHost(scheme: string, host: string, country: string, word: string, rest: string)
    requires scheme != "" && AllLetters(scheme) && HostText(host) && AllLetters(word)
    requires PlainPath(country) && PlainPath(rest)
    ensures var base := scheme + "://" + host + "/" + country + "/" + word;
            && '?' !in base && '#' !in base
            && PathOf(base + "/" + rest) == "/" + (country + "/" + (word + "/" + rest))
  {
    var site := scheme + "://" + host + "/";
    RegroupPage(site, country, word, rest);
    assert PlainPath(site) by {
      assert PlainPath(scheme) && PlainPath(host);
    }
    PathAfterHost(scheme, host, country + "/" + (word + "/" + rest));
  }

  lemma PageFacts(country: string, rest: string)
    requires PlainPath(country) && PlainPath(rest)
    ensures '?' !in PageBase(country) && '#' !in PageBase(country)
    ensures PathOf(PageBase(country) + "/" + rest) == "/" + (country + "/" + (PRODUCTS + "/" + rest))
  {
    HostFacts();
    PageOfHost(SCHEME, HOST, country, PRODUCTS, rest);
  }

  lemma SegmentsOfPage(country: string, word: string, rest: string)
    requires '/' !in word && word != ""
    ensures Segments("/" + (country + "/" + (word + "/" + rest)))
            == Segments(country) + [word] + Segments(rest)
  {
    var inner := country + "/" + (word + "/" + rest);
    assert "/" + inner == "" + "/" + inner;
    SegmentsOfConcat("", inner);
    OneSegment("");
    SegmentsOfConcat(country, word + "/" + rest);
    SegmentsOfConcat(word, rest);
    OneSegment(word);
    assert [] + Segments(inner) == Segments(inner);
  }

  /** The part of the path that a printed URL adds to its base. */
  function PathTail(id: string, priceGroup: string, codeStyle: bool): string {
    if codeStyle then id else id + "/" + priceGroup
  }

  lemma PrintedSegments(before: seq<string>, id: string, priceGroup: string, codeStyle: bool)
    requires PRODUCTS !in before
    requires PlainSegment(id) && id != "" && PlainSegment(priceGroup)
    ensures AfterProducts(before + [PRODUCTS] + Segments(PathTail(id, priceGroup, codeStyle)))
            == (id, if codeStyle then "" else priceGroup)
  {
    OneSegment(id);
    OneSegment(priceGroup);
    if !codeStyle {
      SegmentsOfConcat(id, priceGroup);
    }
    SkipsToProducts(before, Segments(PathTail(id, priceGroup, codeStyle)));
  }

  lemma BuiltUrl(base: string, id: string, priceGroup: string, color: string, size: string, codeStyle: bool)
    ensures var names := NamesOf(codeStyle);
            BuildProductUrl(base, id, priceGroup, color, size, codeStyle)
            == base + "/" + PathTail(id, priceGroup, codeStyle)
               + QuerySuffix(Parameter(names.color, color) + Parameter(names.size, size))
  {
    assert base + "/" + (id + "/" + priceGroup) == base + "/" + id + "/" + priceGroup;
  }

  function PrintedCodes(color: string, size: string, codeStyle: bool): Codes {
    if codeStyle then Codes(DropPrefix(color), DropPrefix(size)) else Codes(color, size)
  }

  lemma BuiltUrlReads(base: string, id: string, priceGroup: string, color: string, size: string, codeStyle: bool)
    requires '?' !in base && '#' !in base && PlainSegment(id) && PlainSegment(priceGroup)
    requires PlainCode(color) && PlainCode(size)
    ensures var url := BuildProductUrl(base, id, priceGroup, color, size, codeStyle);
            && PathOf(url) == PathOf(base + "/" + PathTail(id, priceGroup, codeStyle))
            && ParseVariantCodes(url) == PrintedCodes(color, size, codeStyle)
  {
    BuiltUrl(base, id, priceGroup, color, size, codeStyle);
    PrintedUrl(base + "/" + PathTail(id, priceGroup, codeStyle), color, size, codeStyle);
  }

  lemma FieldsOf(url: string, ids: (string, string), codes: Codes)
    requires AfterProducts(Segments(PathOf(url))) == ids && ParseVariantCodes(url) == codes
    ensures ParseUniqloUrl(url) == UrlFields(ids.0, if ids.1 == "" then "00" else ids.1, codes.color, codes.size)
  {
  }

  lemma RoundTripUnderBase(base: string, before: seq<string>, id: string, priceGroup: string,
                           color: string, size: string, codeStyle: bool)
    requires '?' !in base && '#' !in base && PRODUCTS !in before
    requires Segments(PathOf(base + "/" + PathTail(id, priceGroup, codeStyle)))
             == before + [PRODUCTS] + Segments(PathTail(id, priceGroup, codeStyle))
    requires PlainSegment(id) && id != "" && PlainSegment(priceGroup)
    requires PlainCode(color) && PlainCode(size)
    ensures ParseUniqloUrl(BuildProductUrl(base, id, priceGroup, color, size, codeStyle))
            == UrlFields(id,
                         if codeStyle || priceGroup == "" then "00" else priceGroup,
                         if codeStyle then DropPrefix(color) else color,
                         if codeStyle then DropPrefix(size) else size)
  {
    BuiltUrlReads(base, id, priceGroup, color, size, codeStyle);
    PrintedSegments(before, id, priceGroup, codeStyle);
    FieldsOf(BuildProductUrl(base, id, priceGroup, color, size, codeStyle),
             (id, if codeStyle then "" else priceGroup), PrintedCodes(color, size, codeStyle));
  }

  /** `parse_uniqlo_url` reads back everything `build_product_url` printed. */
  lemma ProductUrlRoundTrip(country: string, id: string, priceGroup: string,
                            color: string, size: string, codeStyle: bool)
    requires PlainPath(country) && PRODUCTS !in Segments(country)
    requires PlainSegment(id) && id != "" && PlainSegment(priceGroup)
    requires PlainCode(color) && PlainCode(size)
    ensures ParseUniqloUrl(BuildProductUrl(PageBase(country), id, priceGroup, color, size, codeStyle))
            == UrlFields(id,
                         if codeStyle || priceGroup == "" then "00" else priceGroup,
                         if codeStyle then DropPrefix(color) else color,
                         if codeStyle then DropPrefix(size) else size)
  {
    var rest := PathTail(id, priceGroup, codeStyle);
    PageFacts(country, rest);
    HostFacts();
    SegmentsOfPage(country, PRODUCTS, rest);
    RoundTripUnderBase(PageBase(country), Segments(country), id, priceGroup, color, size, codeStyle);
  }

  // ------------------------------------------------- literal texts, mixed codes

  /** Where a country's product pages are. */
  lemma PagesAre(country: string)
    ensures PageBase(country) == "https://www.uniqlo.com/" + country + "/products"
  {
    assert SCHEME + "://" + HOST + "/" == "https://www.uniqlo.com/";
    assert "/" + PRODUCTS == "/products";
    Regroup("https://www.uniqlo.com/" + country, "/", PRODUCTS);
  }

  lemma ParseJoinedQuery(a: string, b: string)
    ensures ParseQuery(a + "&" + b, false) == ParseQuery(a, false) + ParseQuery(b, false)
  {
    SplitOfConcat(a, '&', b);
    FlatMapConcat(Reader(false), Split(a, '&'), Split(b, '&'));
  }

  lemma {:induction false} FirstValueConcat(a: seq<Pair>, b: seq<Pair>, key: string)
    requires forall i :: 0 <= i < |a| ==> a[i].value != ""
    ensures FirstValue(a + b, key) == if FirstValue(a, key) != "" then FirstValue(a, key) else FirstValue(b, key)
  {
    if a == [] {
      assert a + b == b;
    } else {
      assert (a + b)[0] == a[0] && (a + b)[1..] == a[1..] + b;
      FirstValueConcat(a[1..], b, key);
    }
  }

  /** The query that a style prints for two codes. */
  function PrintedQuery(color: string, size: string, codeStyle: bool): string
    requires color != "" || size != ""
  {
    Join(Parameter(NamesOf(codeStyle).color, color) + Parameter(NamesOf(codeStyle).size, size), '&')
  }

  lemma ReadBothQueries(first: Codes, second: Codes, codesFirst: bool)
    requires first.color != "" || first.size != ""
    requires second.color != "" || second.size != ""
    requires PlainCode(first.color) && PlainCode(first.size) && PlainCode(second.color) && PlainCode(second.size)
    ensures ParseQuery(PrintedQuery(first.color, first.size, codesFirst)
                       + "&" + PrintedQuery(second.color, second.size, !codesFirst), false)
            == PrintedPairs(NamesOf(codesFirst), first.color, first.size)
               + PrintedPairs(NamesOf(!codesFirst), second.color, second.size)
  {
    NamesAreLetters(codesFirst);
    NamesAreLetters(!codesFirst);
    ReadJoinedParameters(NamesOf(codesFirst), first.color, first.size);
    ReadJoinedParameters(NamesOf(!codesFirst), second.color, second.size);
    ParseJoinedQuery(PrintedQuery(first.color, first.size, codesFirst),
                     PrintedQuery(second.color, second.size, !codesFirst));
  }

  lemma FirstOfBoth(names: Codes, first: Codes, names': Codes, second: Codes, key: string)
    requires names.color != names.size && names'.color != names'.size
    requires names.color !in {names'.color, names'.size} && names.size !in {names'.color, names'.size}
    ensures FirstValue(PrintedPairs(names, first.color, first.size)
                       + PrintedPairs(names', second.color, second.size), key)
            == if key == names.color then first.color else if key == names.size then first.size
               else if key == names'.color then second.color else if key == names'.size then second.size else ""
  {
    FirstValueConcat(PrintedPairs(names, first.color, first.size),
                     PrintedPairs(names', second.color, second.size), key);
    FirstPrintedValue(names, first.color, first.size, key);
    FirstPrintedValue(names', second.color, second.size, key);
  }

  /** A query with the parameters of both styles, in either order: a display code
      wins over the code, which counts only where there is none. */
  lemma DisplayCodesWin(display: Codes, code: Codes, codesFirst: bool)
    requires display.color != "" || display.size != ""
    requires code.color != "" || code.size != ""
    requires PlainCode(display.color) && PlainCode(display.size) && PlainCode(code.color) && PlainCode(code.size)
    ensures var shown, coded := PrintedQuery(display.color, display.size, false),
                                PrintedQuery(code.color, code.size, true);
            CodesOf(if codesFirst then coded + "&" + shown else shown + "&" + coded)
            == Codes(if display.color != "" then display.color else DropPrefix(code.color),
                     if display.size != "" then display.size else DropPrefix(code.size))
  {
    NamesAreDistinct();
    var first, second := if codesFirst then code else display, if codesFirst then display else code;
    ReadBothQueries(first, second, codesFirst);
    var names, names' := NamesOf(codesFirst), NamesOf(!codesFirst);
    FirstOfBoth(names, first, names', second, COLOR_DISPLAY);
    FirstOfBoth(names, first, names', second, SIZE_DISPLAY);
    FirstOfBoth(names, first, names', second, COLOR_CODE);
    FirstOfBoth(names, first, names', second, SIZE_CODE);
  }
}
