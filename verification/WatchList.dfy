/** The watch and unwatch actions on the list of watched variants. */
module WatchList {
  import opened Text
  import opened Products
  import opened ProductUrls

  /** `WatchedVariant._fill_from_url`. */
  function FillFromUrl(wv: WatchedVariant): WatchedVariant {
    if wv.url != "" && wv.id == "" then
      var fields := ParseUniqloUrl(wv.url);
      wv.(id := fields.id, priceGroup := fields.priceGroup,
          color := if wv.color != "" then wv.color else fields.color,
          size := if wv.size != "" then wv.size else fields.size)
    else wv
  }

  /** Validating a stored variant again changes nothing. */
  lemma FillIsIdempotent(wv: WatchedVariant)
    ensures FillFromUrl(FillFromUrl(wv)) == FillFromUrl(wv)
  {
  }

  predicate IsVariant(wv: WatchedVariant, id: string, color: string, size: string) {
    Upper(wv.id) == Upper(id) && wv.color == color && wv.size == size
  }

  predicate HasVariant(list: seq<WatchedVariant>, id: string, color: string, size: string) {
    exists i :: 0 <= i < |list| && IsVariant(list[i], id, color, size)
  }

  predicate HasProduct(list: seq<WatchedVariant>, id: string) {
    exists i :: 0 <= i < |list| && Upper(list[i].id) == Upper(id)
  }

  /** The codes a watch request is about. */
  function CodesOfUrl(url: string): Codes {
    if url == "" then Codes("", "")
    else
      var fields := ParseUniqloUrl(url);
      Codes(fields.color, fields.size)
  }

  /** The entry a watch request appends. */
  function NewEntry(id: string, url: string, name: string): WatchedVariant {
    if url != "" then FillFromUrl(WatchedVariant(url, "", "00", name, "", "", ""))
    else WatchedVariant("", id, "00", name, "", "", "")
  }

  /** `action_watch`; `name` is "" when the product cannot be found. */
  function Watch(list: seq<WatchedVariant>, id: string, url: string, name: string): seq<WatchedVariant> {
    var codes := CodesOfUrl(url);
    if HasVariant(list, id, codes.color, codes.size) || name == "" then list
    else list + [NewEntry(id, url, name)]
  }

  /** Whether `action_unwatch` removes the variant. Without codes it removes
      every variant of the product. */
  predicate Removes(wv: WatchedVariant, id: string, color: string, size: string) {
    if color != "" || size != "" then IsVariant(wv, id, color, size) else Upper(wv.id) == Upper(id)
  }

  /** `action_unwatch`. */
  function Unwatch(list: seq<WatchedVariant>, id: string, color: string, size: string): seq<WatchedVariant> {
    if list == [] then []
    else
      var last := list[|list| - 1];
      var kept := Unwatch(list[..|list| - 1], id, color, size);
      if Removes(last, id, color, size) then kept else kept + [last]
  }

  lemma NewEntryCodes(id: string, url: string, name: string)
    ensures var e, codes := NewEntry(id, url, name), CodesOfUrl(url);
            && e.color == codes.color && e.size == codes.size
            && e.id == if url == "" then id else ParseUniqloUrl(url).id
  {
  }

  lemma HasVariantAppended(list: seq<WatchedVariant>, e: WatchedVariant, id: string, color: string, size: string)
    ensures HasVariant(list + [e], id, color, size)
            <==> HasVariant(list, id, color, size) || IsVariant(e, id, color, size)
  {
    if HasVariant(list, id, color, size) {
      var i :| 0 <= i < |list| && IsVariant(list[i], id, color, size);
      assert IsVariant((list + [e])[i], id, color, size);
    }
    assert (list + [e])[|list|] == e;
  }

  /** Watching twice is watching once exactly when the first watch added
      nothing, or added an entry with the requested id: an entry built from a
      URL takes its id from the URL. */
  lemma WatchTwiceIff(list: seq<WatchedVariant>, id: string, url: string, name: string)
    ensures Watch(Watch(list, id, url, name), id, url, name) == Watch(list, id, url, name)
            <==> var codes := CodesOfUrl(url);
                 || name == "" || HasVariant(list, id, codes.color, codes.size)
                 || url == "" || Upper(ParseUniqloUrl(url).id) == Upper(id)
  {
    var codes, e := CodesOfUrl(url), NewEntry(id, url, name);
    NewEntryCodes(id, url, name);
    HasVariantAppended(list, e, id, codes.color, codes.size);
    assert |list + [e] + [e]| != |list + [e]|;
  }

  lemma {:induction false} UnwatchKeepsAllIff(list: seq<WatchedVariant>, id: string, color: string, size: string)
    ensures |Unwatch(list, id, color, size)| <= |list|
    ensures |Unwatch(list, id, color, size)| == |list| ==> Unwatch(list, id, color, size) == list
    ensures Unwatch(list, id, color, size) == list
            <==> forall i :: 0 <= i < |list| ==> !Removes(list[i], id, color, size)
  {
    if list != [] {
      var n := |list| - 1;
      UnwatchKeepsAllIff(list[..n], id, color, size);
      assert list == list[..n] + [list[n]];
      if Unwatch(list, id, color, size) == list {
        assert !Removes(list[n], id, color, size);
        assert Unwatch(list, id, color, size)[..n] == list[..n];
      }
      if forall i :: 0 <= i < |list| ==> !Removes(list[i], id, color, size) {
        assert forall i :: 0 <= i < n ==> list[..n][i] == list[i];
      }
    }
  }

  lemma UnwatchAppended(list: seq<WatchedVariant>, e: WatchedVariant, id: string, color: string, size: string)
    ensures Unwatch(list + [e], id, color, size)
            == Unwatch(list, id, color, size) + if Removes(e, id, color, size) then [] else [e]
  {
    assert (list + [e])[..|list|] == list;
  }

  /** Exactly the named variants go; unwatching again changes nothing. */
  lemma {:induction false} UnwatchLeavesOthers(list: seq<WatchedVariant>, id: string, color: string, size: string)
    ensures forall wv :: wv in Unwatch(list, id, color, size) <==> wv in list && !Removes(wv, id, color, size)
    ensures Unwatch(Unwatch(list, id, color, size), id, color, size) == Unwatch(list, id, color, size)
  {
    if list != [] {
      var n := |list| - 1;
      UnwatchLeavesOthers(list[..n], id, color, size);
      assert list == list[..n] + [list[n]];
      var kept := Unwatch(list[..n], id, color, size);
      if !Removes(list[n], id, color, size) {
        assert (kept + [list[n]])[..|kept|] == kept;
      }
    }
  }

  /** An entry that stays is in the way: what was there cannot come back. */
  lemma {:induction false} EntryStays(list: seq<WatchedVariant>, e: WatchedVariant, id: string, color: string,
                                      size: string)
    requires !Removes(e, id, color, size)
    ensures Unwatch(list, id, color, size) + [e] != list
    decreases |list|
  {
    var kept := Unwatch(list, id, color, size);
    if kept + [e] == list {
      UnwatchAppended(kept, e, id, color, size);
      EntryStays(kept, e, id, color, size);
    }
  }

  /** Watching an absent variant and unwatching it restores the list exactly
      when nothing was added or the entry has the requested id, and the request
      carries a code or the product had no variant: an entry built from a URL
      takes its id from the URL, and without codes the unwatch action removes
      every variant of the product. */
  lemma WatchThenUnwatchIff(list: seq<WatchedVariant>, id: string, url: string, name: string)
    requires !HasVariant(list, id, CodesOfUrl(url).color, CodesOfUrl(url).size)
    ensures var codes := CodesOfUrl(url);
            Unwatch(Watch(list, id, url, name), id, codes.color, codes.size) == list
            <==> && (name == "" || url == "" || Upper(ParseUniqloUrl(url).id) == Upper(id))
                 && (codes.color != "" || codes.size != "" || !HasProduct(list, id))
  {
    var codes, e := CodesOfUrl(url), NewEntry(id, url, name);
    NewEntryCodes(id, url, name);
    UnwatchAppended(list, e, id, codes.color, codes.size);
    UnwatchKeepsAllIff(list, id, codes.color, codes.size);
    if name != "" && url != "" && Upper(ParseUniqloUrl(url).id) != Upper(id) {
      assert !Removes(e, id, codes.color, codes.size);
      EntryStays(list, e, id, codes.color, codes.size);
    }
  }

  /** For a printed page URL of either style the conditions hold: watching is
      idempotent, and unwatching the codes it reads as undoes it. */
  lemma PrintedUrlsAreWatchable(list: seq<WatchedVariant>, country: string, id: string, priceGroup: string,
                                color: string, size: string, codeStyle: bool, name: string)
    requires PlainPath(country) && PRODUCTS !in Segments(country)
    requires PlainSegment(id) && id != "" && PlainSegment(priceGroup)
    requires PlainCode(color) && PlainCode(size)
    ensures var url := BuildProductUrl(PageBase(country), id, priceGroup, color, size, codeStyle);
            var codes := PrintedCodes(color, size, codeStyle);
            && Watch(Watch(list, id, url, name), id, url, name) == Watch(list, id, url, name)
            && (!HasVariant(list, id, codes.color, codes.size) && (codes.color != "" || codes.size != "") ==>
                  Unwatch(Watch(list, id, url, name), id, codes.color, codes.size) == list)
  {
    var url := BuildProductUrl(PageBase(country), id, priceGroup, color, size, codeStyle);
    var codes := PrintedCodes(color, size, codeStyle);
    ProductUrlRoundTrip(country, id, priceGroup, color, size, codeStyle);
    PrintedUrlIsNotEmpty(country, id, priceGroup, color, size, codeStyle);
    assert CodesOfUrl(url) == codes;
    WatchTwiceIff(list, id, url, name);
    if !HasVariant(list, id, codes.color, codes.size) {
      WatchThenUnwatchIff(list, id, url, name);
    }
  }

  lemma PrintedUrlIsNotEmpty(country: string, id: string, priceGroup: string, color: string, size: string,
                             codeStyle: bool)
    ensures BuildProductUrl(PageBase(country), id, priceGroup, color, size, codeStyle) != ""
  {
  }

  /** The stored configuration's watch list, which the handlers replace. */
  class WatchStore {
    var watched: seq<WatchedVariant>

    constructor (watched: seq<WatchedVariant>)
      ensures this.watched == watched
    {
      this.watched := watched;
    }

    method ActionWatch(id: string, url: string, name: string) returns (changed: bool)
      modifies this
      ensures watched == Watch(old(watched), id, url, name)
      ensures changed == (watched != old(watched))
    {
      var codes := CodesOfUrl(url);
      if HasVariant(watched, id, codes.color, codes.size) {
        return false;
      }
      if name == "" {
        return false;
      }
      watched := watched + [NewEntry(id, url, name)];
      assert |watched| == |old(watched)| + 1;
      changed := true;
    }

    method ActionUnwatch(id: string, color: string, size: string) returns (changed: bool)
      modifies this
      ensures watched == Unwatch(old(watched), id, color, size)
      ensures changed == (watched != old(watched))
    {
      var kept := Unwatch(watched, id, color, size);
      UnwatchKeepsAllIff(watched, id, color, size);
      if |kept| == |watched| {
        return false;
      }
      watched := kept;
      changed := true;
    }
  }

  /** The entry a printed page URL leaves says what the URL says; without a URL it
      has the requested id and no codes. */
  lemma PrintedEntry(requested: string, country: string, id: string, priceGroup: string,
                     color: string, size: string, codeStyle: bool, name: string)
    requires PlainPath(country) && PRODUCTS !in Segments(country)
    requires PlainSegment(id) && id != "" && PlainSegment(priceGroup)
    requires PlainCode(color) && PlainCode(size)
    ensures var url := BuildProductUrl(PageBase(country), id, priceGroup, color, size, codeStyle);
            var codes := PrintedCodes(color, size, codeStyle);
            NewEntry(requested, url, name)
            == WatchedVariant(url, id, if codeStyle || priceGroup == "" then "00" else priceGroup, name,
                              codes.color, "", codes.size)
    ensures NewEntry(requested, "", name) == WatchedVariant("", requested, "00", name, "", "", "")
  {
    ProductUrlRoundTrip(country, id, priceGroup, color, size, codeStyle);
    PrintedUrlIsNotEmpty(country, id, priceGroup, color, size, codeStyle);
  }

  /** A printed page URL fills in what an entry without an id does not say; an
      entry with an id or without a URL stays as it is. */
  lemma FilledEntry(wv: WatchedVariant, country: string, id: string, priceGroup: string,
                    color: string, size: string, codeStyle: bool)
    requires PlainPath(country) && PRODUCTS !in Segments(country)
    requires PlainSegment(id) && id != "" && PlainSegment(priceGroup)
    requires PlainCode(color) && PlainCode(size)
    requires wv.url == BuildProductUrl(PageBase(country), id, priceGroup, color, size, codeStyle)
    ensures var codes := PrintedCodes(color, size, codeStyle);
            FillFromUrl(wv)
            == if wv.id != "" then wv
               else WatchedVariant(wv.url, id, if codeStyle || priceGroup == "" then "00" else priceGroup, wv.name,
                                   if wv.color == "" then codes.color else wv.color, wv.colorName,
                                   if wv.size == "" then codes.size else wv.size)
    ensures FillFromUrl(wv.(url := "")) == wv.(url := "")
  {
    ProductUrlRoundTrip(country, id, priceGroup, color, size, codeStyle);
    PrintedUrlIsNotEmpty(country, id, priceGroup, color, size, codeStyle);
  }
}
