/** The products a check looks at: the sale feed, and the watched products the
    feed does not have. */
module WatchedProducts {
  import opened Text
  import opened Products
  import opened Filters
  import opened Sorting
  import opened Matching
  import opened MatchingLaws
  import opened LegacyEngine

  type Index = map<string, seq<WatchedVariant>>

  /** What the client answers to a set of product ids, in its own order. */
  type Client = set<string> -> seq<Product>

  function IdsIn(variants: seq<WatchedVariant>): set<string> {
    set i | 0 <= i < |variants| :: variants[i].id
  }

  /** The ids, as the variants spell them, under some keys of the index. */
  function AskedBy(index: Index, keys: set<string>): set<string>
    requires keys <= index.Keys
  {
    set key, id | key in keys && id in IdsIn(index[key]) :: id
  }

  /** The ids asked for: those of the watched products missing from the feed. */
  function ToFetch(index: Index, feedIds: set<string>): set<string> {
    AskedBy(index, index.Keys - feedIds)
  }

  function Included(index: Index, feed: seq<Product>, client: Client): seq<Product> {
    if index.Keys - UpperIds(feed) == {} then feed else feed + client(ToFetch(index, UpperIds(feed)))
  }

  /** The inner loop of the collection: one product's variants. */
  method AddIds(toFetch: set<string>, variants: seq<WatchedVariant>) returns (r: set<string>)
    ensures r == toFetch + IdsIn(variants)
  {
    r := toFetch;
    var n := 0;
    while n < |variants|
      invariant 0 <= n <= |variants|
      invariant r == toFetch + IdsIn(variants[..n])
    {
      assert IdsIn(variants[..n + 1]) == IdsIn(variants[..n]) + {variants[n].id} by {
        assert variants[..n + 1][n] == variants[n];
      }
      r := r + {variants[n].id};
      n := n + 1;
    }
    assert variants[..n] == variants;
  }

  lemma AskedByOneMore(index: Index, keys: set<string>, key: string)
    requires keys <= index.Keys && key in index
    ensures AskedBy(index, keys + {key}) == AskedBy(index, keys) + IdsIn(index[key])
  {
  }

  /** `_include_watched_products`. */
  method IncludeWatched(index: Index, feed: seq<Product>, client: Client) returns (all: seq<Product>)
    ensures all == Included(index, feed, client)
  {
    var missing := index.Keys - UpperIds(feed);
    if missing == {} {
      return feed;
    }
    var todo, toFetch: set<string> := missing, {};
    while todo != {}
      invariant todo <= missing
      invariant toFetch == AskedBy(index, missing - todo)
      decreases |todo|
    {
      var key :| key in todo;
      AskedByOneMore(index, missing - todo, key);
      assert missing - (todo - {key}) == (missing - todo) + {key};
      toFetch := AddIds(toFetch, index[key]);
      todo := todo - {key};
    }
    assert missing - todo == missing;
    all := feed + client(toFetch);
  }

  // ------------------------------------------------------------ properties

  lemma {:induction false} VariantsUnderMembers(variants: seq<WatchedVariant>, key: string, v: WatchedVariant)
    ensures v in VariantsUnder(variants, key) <==> v in variants && Upper(v.id) == key
  {
    if variants != [] {
      var n := |variants| - 1;
      VariantsUnderMembers(variants[..n], key, v);
      assert variants == variants[..n] + [variants[n]];
    }
  }

  /** An id is asked for exactly when it is a watched variant's and the feed has
      no product of that id in any case. */
  lemma AsksForTheMissing(variants: seq<WatchedVariant>, feed: seq<Product>, id: string)
    ensures id in ToFetch(WatchIndex(variants), UpperIds(feed))
            <==> Upper(id) !in UpperIds(feed) && exists v :: v in variants && v.id == id
  {
    var index := WatchIndex(variants);
    if v :| v in variants && v.id == id && Upper(id) !in UpperIds(feed) {
      VariantsUnderMembers(variants, Upper(id), v);
      assert v in index[Upper(id)] && id in IdsIn(index[Upper(id)]);
    }
    if id in ToFetch(index, UpperIds(feed)) {
      var key :| key in index.Keys - UpperIds(feed) && id in IdsIn(index[key]);
      var i :| 0 <= i < |index[key]| && index[key][i].id == id;
      VariantsUnderMembers(variants, key, index[key][i]);
    }
  }

  predicate HasId(products: seq<Product>, key: string) {
    exists i :: 0 <= i < |products| && Upper(products[i].id) == key
  }

  predicate ReportsWatched(items: seq<SaleItem>, key: string) {
    exists i :: 0 <= i < |items| && items[i].isWatched && Upper(items[i].productId) == key
  }

  lemma HasIdInIncluded(variants: seq<WatchedVariant>, feed: seq<Product>, client: Client, v: WatchedVariant)
    requires v in variants
    ensures var index := WatchIndex(variants);
            HasId(Included(index, feed, client), Upper(v.id))
            <==> HasId(feed, Upper(v.id)) || HasId(client(ToFetch(index, UpperIds(feed))), Upper(v.id))
  {
    var index := WatchIndex(variants);
    var extra := client(ToFetch(index, UpperIds(feed)));
    var key := Upper(v.id);
    assert key in index.Keys;
    if !HasId(feed, key) {
      assert key in index.Keys - UpperIds(feed);
    }
    assert forall i :: 0 <= i < |feed| ==> (feed + extra)[i] == feed[i];
    assert forall i :: 0 <= i < |extra| ==> (feed + extra)[|feed| + i] == extra[i];
  }

  lemma IdIsWatched(pass: Pass, p: Product)
    requires Upper(p.id) in pass.lists.watchedIds
    ensures pass.Watches(p) && pass.Reports(p)
  {
    assert Upper(p.id) <= Upper(p.id);
  }

  lemma InSorted(items: seq<SaleItem>, k: nat)
    requires k < |items|
    ensures exists j :: 0 <= j < |items| && SortByDiscount(items)[j] == items[k]
  {
    SortIsStable(items);
    assert items[k] in SortByDiscount(items);
  }

  lemma ReportedIsWatched(pass: Pass, products: seq<Product>, i: nat)
    requires i < |products| && Upper(products[i].id) in pass.lists.watchedIds
    ensures ReportsWatched(pass.Result(products), Upper(products[i].id))
  {
    var p := products[i];
    var items, reported, result := pass.Collect(products), Reported(pass, products), pass.Result(products);
    CollectsReported(pass, products);
    IdIsWatched(pass, p);
    assert p in products && pass.Reports(p);
    var k :| 0 <= k < |reported| && reported[k] == p;
    ItemIsWatched(pass, p);
    InSorted(items, k);
  }

  lemma ItemIsWatched(pass: Pass, p: Product)
    ensures pass.ItemOf(p).productId == p.id && pass.ItemOf(p).isWatched == pass.Watches(p)
  {
  }

  lemma ReportedHasId(pass: Pass, products: seq<Product>, key: string)
    requires ReportsWatched(pass.Result(products), key)
    ensures HasId(products, key)
  {
    var items, reported, result := pass.Collect(products), Reported(pass, products), pass.Result(products);
    CollectsReported(pass, products);
    SortIsStable(items);
    var j :| 0 <= j < |result| && result[j].isWatched && Upper(result[j].productId) == key;
    assert result[j] in items;
    var k :| 0 <= k < |items| && items[k] == result[j];
    ItemIsWatched(pass, reported[k]);
    assert reported[k] in products;
  }

  /** A watched variant's product is among the reported deals exactly when the
      feed has it or the client answers with it; ignored ids, keywords and the
      saved filters do not matter. */
  lemma WatchIsReportedIff(config: FilterConfig, site: Site, table: FilterTable, now: int,
                           feed: seq<Product>, client: Client, v: WatchedVariant)
    requires v in config.watchedVariants
    ensures var index := WatchIndex(config.watchedVariants);
            var pass := Pass(site, ListsOf(config), table, now, UpperIds(feed));
            ReportsWatched(pass.Result(Included(index, feed, client)), Upper(v.id))
            <==> HasId(feed, Upper(v.id))
                 || HasId(client(ToFetch(index, UpperIds(feed))), Upper(v.id))
  {
    var index := WatchIndex(config.watchedVariants);
    var pass := Pass(site, ListsOf(config), table, now, UpperIds(feed));
    assert Upper(v.id) in index;
    HasIdInIncluded(config.watchedVariants, feed, client, v);
    var products, key := Included(index, feed, client), Upper(v.id);
    if i :| 0 <= i < |products| && Upper(products[i].id) == key {
      ReportedIsWatched(pass, products, i);
    }
    if ReportsWatched(pass.Result(products), key) {
      ReportedHasId(pass, products, key);
    }
  }

  /** A client that answers no more than it is asked adds no product that the
      feed has. */
  lemma ExtrasAreNotInFeed(variants: seq<WatchedVariant>, feed: seq<Product>, client: Client, p: Product)
    requires var asked := ToFetch(WatchIndex(variants), UpperIds(feed));
             p in client(asked) && exists id :: id in asked && Upper(id) == Upper(p.id)
    ensures !HasId(feed, Upper(p.id))
  {
    var asked := ToFetch(WatchIndex(variants), UpperIds(feed));
    var id :| id in asked && Upper(id) == Upper(p.id);
    AsksForTheMissing(variants, feed, id);
  }
}
