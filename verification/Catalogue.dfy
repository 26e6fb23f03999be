/** Fetching the catalogue: pagination over one source, and the merge of
    several sources without repeats. */
module Catalogue {
  import opened Text
  import opened Products

  const PAGE_SIZE := 100

  // ---------------------------------------------------------- pagination

  datatype Page = Page(items: seq<Product>, total: nat)

  /** A server: what it answers to an offset; None is a failed page. */
  type Server = nat -> Option<Page>

  /** The total never grows past a bound, so that paging ends. */
  ghost predicate Bounded(server: Server, bound: nat) {
    forall o: nat :: server(o).Some? ==> server(o).value.total <= bound
  }

  /** `_paginate`: what it returns and how many requests it makes. */
  function PagesFrom(server: Server, offset: nat, bound: nat): (seq<Product>, nat)
    requires Bounded(server, bound)
    decreases if offset >= bound then 0 else bound - offset
  {
    var page := server(offset);
    if page.None? then ([], 1)
    else if offset + PAGE_SIZE >= page.value.total then (page.value.items, 1)
    else
      var (rest, n) := PagesFrom(server, offset + PAGE_SIZE, bound);
      (page.value.items + rest, n + 1)
  }

  /** What one more request does to the pages collected before it. */
  lemma PagesStep(server: Server, offset: nat, bound: nat, before: seq<Product>)
    requires Bounded(server, bound)
    ensures var page, all := server(offset), PagesFrom(server, offset, bound);
            if page.None? then before + all.0 == before && all.1 == 1
            else if offset + PAGE_SIZE >= page.value.total then all == (page.value.items, 1)
            else
              var rest := PagesFrom(server, offset + PAGE_SIZE, bound);
              before + all.0 == before + page.value.items + rest.0 && all.1 == 1 + rest.1
  {
    var page := server(offset);
    if page.Some? && offset + PAGE_SIZE < page.value.total {
      var items, rest := page.value.items, PagesFrom(server, offset + PAGE_SIZE, bound).0;
      assert before + (items + rest) == before + items + rest;
    }
  }

  method Paginate(server: Server, ghost bound: nat) returns (products: seq<Product>, requests: nat)
    requires Bounded(server, bound)
    ensures (products, requests) == PagesFrom(server, 0, bound)
  {
    products, requests := [], 0;
    var offset: nat := 0;
    assert [] + PagesFrom(server, 0, bound).0 == PagesFrom(server, 0, bound).0;
    while true
      invariant PagesFrom(server, 0, bound)
                == (products + PagesFrom(server, offset, bound).0, requests + PagesFrom(server, offset, bound).1)
      decreases if offset >= bound then 0 else bound - offset
    {
      var page := server(offset);
      PagesStep(server, offset, bound, products);
      requests := requests + 1;
      if page.None? {
        break;
      }
      products := products + page.value.items;
      offset := offset + PAGE_SIZE;
      if offset >= page.value.total {
        break;
      }
    }
  }

  /** A fixed catalogue served in pages, the page at `failsAt` excepted. */
  function Serves(catalogue: seq<Product>, failsAt: Option<nat>): Server {
    (offset: nat) =>
      if failsAt == Some(offset) then None
      else Some(Page(
        if offset >= |catalogue| then []
        else if offset + PAGE_SIZE <= |catalogue| then catalogue[offset..offset + PAGE_SIZE]
        else catalogue[offset..],
        |catalogue|))
  }

  /** Requests for a catalogue of `total` products: ceil(total / 100), and at
      least one. */
  function RequestsFor(total: nat): nat {
    if total == 0 then 1 else (total + PAGE_SIZE - 1) / PAGE_SIZE
  }

  lemma {:induction false} PagesOfCatalogue(catalogue: seq<Product>, offset: nat)
    requires offset % PAGE_SIZE == 0 && (offset < |catalogue| || offset == 0)
    ensures PagesFrom(Serves(catalogue, None), offset, |catalogue|)
            == (if offset < |catalogue| then catalogue[offset..] else [],
                RequestsFor(|catalogue|) - offset / PAGE_SIZE)
    decreases |catalogue| - offset
  {
    if offset + PAGE_SIZE < |catalogue| {
      PagesOfCatalogue(catalogue, offset + PAGE_SIZE);
      assert catalogue[offset..offset + PAGE_SIZE] + catalogue[offset + PAGE_SIZE..] == catalogue[offset..];
    } else if offset + PAGE_SIZE == |catalogue| {
      assert catalogue[offset..offset + PAGE_SIZE] == catalogue[offset..];
    }
  }

  /** Paging a fixed catalogue of any size yields exactly the catalogue, in
      order, in max(1, ceil(total / 100)) requests. */
  lemma PaginatesCatalogue(catalogue: seq<Product>)
    ensures PagesFrom(Serves(catalogue, None), 0, |catalogue|)
            == (catalogue, if catalogue == [] then 1 else (|catalogue| + 99) / 100)
  {
    PagesOfCatalogue(catalogue, 0);
  }

  lemma {:induction false} PagesUpToFailure(catalogue: seq<Product>, k: nat, offset: nat)
    requires offset % PAGE_SIZE == 0 && offset <= k * PAGE_SIZE < |catalogue|
    ensures PagesFrom(Serves(catalogue, Some(k * PAGE_SIZE)), offset, |catalogue|)
            == (catalogue[offset..k * PAGE_SIZE], k + 1 - offset / PAGE_SIZE)
    decreases |catalogue| - offset
  {
    var end := k * PAGE_SIZE;
    if offset < end {
      assert offset + PAGE_SIZE <= end;
      PagesUpToFailure(catalogue, k, offset + PAGE_SIZE);
      assert catalogue[offset..offset + PAGE_SIZE] + catalogue[offset + PAGE_SIZE..end] == catalogue[offset..end];
    } else {
      assert offset == end;
      assert catalogue[end..end] == [];
    }
  }

  /** A failed page ends the walk with exactly the earlier pages. */
  lemma FailedPageKeepsEarlierPages(catalogue: seq<Product>, k: nat)
    requires k * PAGE_SIZE < |catalogue|
    ensures PagesFrom(Serves(catalogue, Some(k * PAGE_SIZE)), 0, |catalogue|) == (catalogue[..k * PAGE_SIZE], k + 1)
  {
    PagesUpToFailure(catalogue, k, 0);
    assert catalogue[0..k * PAGE_SIZE] == catalogue[..k * PAGE_SIZE];
  }

  // ---------------------------------------------------------- the merge

  function IdsOf(products: seq<Product>): set<string> {
    if products == [] then {}
    else IdsOf(products[..|products| - 1]) + {products[|products| - 1].id}
  }

  lemma {:induction false} IdsOfMembers(products: seq<Product>, id: string)
    ensures id in IdsOf(products) <==> exists i :: 0 <= i < |products| && products[i].id == id
  {
    if products != [] {
      IdsOfMembers(products[..|products| - 1], id);
    }
  }

  /** First occurrences of each id, in order. */
  function Merged(products: seq<Product>): seq<Product> {
    if products == [] then []
    else
      var before, last := Merged(products[..|products| - 1]), products[|products| - 1];
      if last.id in IdsOf(before) then before else before + [last]
  }

  /** All products of the first `n` batches, in order. */
  function Fetched(batches: seq<seq<Product>>, n: nat): seq<Product>
    requires n <= |batches|
  {
    if n == 0 then [] else Fetched(batches, n - 1) + batches[n - 1]
  }

  /** The counts after `n` batches; a repeated label keeps its last. */
  function Counts(labels: seq<string>, batches: seq<seq<Product>>, n: nat): map<string, nat>
    requires n <= |labels| == |batches|
  {
    if n == 0 then map[] else Counts(labels, batches, n - 1)[labels[n - 1] := NewIn(batches, n - 1)]
  }

  /** How many products batch `n` adds to the batches before it. */
  function NewIn(batches: seq<seq<Product>>, n: nat): nat
    requires n < |batches|
  {
    MergedGrows(Fetched(batches, n), batches[n]);
    |Merged(Fetched(batches, n + 1))| - |Merged(Fetched(batches, n))|
  }

  lemma {:induction false} MergedGrows(a: seq<Product>, b: seq<Product>)
    ensures Merged(a) <= Merged(a + b)
  {
    if b == [] {
      assert a + b == a;
    } else {
      MergedGrows(a, b[..|b| - 1]);
      assert (a + b)[..|a + b| - 1] == a + b[..|b| - 1];
    }
  }

  lemma AppendedIds(products: seq<Product>, p: Product)
    ensures IdsOf(products + [p]) == IdsOf(products) + {p.id}
  {
    assert (products + [p])[..|products|] == products;
  }

  /** The merged list covers exactly the ids seen. */
  lemma {:induction false} MergeCoversAllIds(products: seq<Product>)
    ensures IdsOf(Merged(products)) == IdsOf(products)
  {
    if products != [] {
      var n := |products| - 1;
      MergeCoversAllIds(products[..n]);
      AppendedIds(Merged(products[..n]), products[n]);
    }
  }

  /** No id comes twice. */
  lemma {:induction false} MergedIdsAreUnique(products: seq<Product>)
    ensures forall i, j :: 0 <= i < j < |Merged(products)| ==> Merged(products)[i].id != Merged(products)[j].id
  {
    if products != [] {
      var n := |products| - 1;
      MergedIdsAreUnique(products[..n]);
      IdsOfMembers(Merged(products[..n]), products[n].id);
    }
  }

  lemma MergedSnoc(products: seq<Product>, p: Product)
    ensures Merged(products + [p])
            == if p.id in IdsOf(Merged(products)) then Merged(products) else Merged(products) + [p]
  {
    assert (products + [p])[..|products|] == products;
  }

  /** A product is kept, at the end of the list so far, exactly when no product
      before it has its id; what is kept stays in place. */
  lemma KeepsFirstOccurrences(before: seq<Product>, p: Product, after: seq<Product>)
    ensures Merged(before + [p]) == if p.id in IdsOf(before) then Merged(before) else Merged(before) + [p]
    ensures Merged(before + [p]) <= Merged(before + [p] + after)
  {
    MergedSnoc(before, p);
    MergeCoversAllIds(before);
    MergedGrows(before + [p], after);
  }

  lemma BatchStep(all: seq<Product>, batch: seq<Product>, k: nat)
    requires k < |batch|
    ensures Merged(all + batch[..k + 1])
            == if batch[k].id in IdsOf(Merged(all + batch[..k])) then Merged(all + batch[..k])
               else Merged(all + batch[..k]) + [batch[k]]
  {
    assert all + batch[..k + 1] == (all + batch[..k]) + [batch[k]];
    MergedSnoc(all + batch[..k], batch[k]);
  }

  /** The inner loop: one batch against the ids seen so far. */
  method AddBatch(before: seq<Product>, batch: seq<Product>, seen0: set<string>, ghost all: seq<Product>)
    returns (merged: seq<Product>, seen: set<string>, count: nat)
    requires before == Merged(all) && seen0 == IdsOf(before)
    ensures merged == Merged(all + batch) && seen == IdsOf(merged) && count == |merged| - |before|
  {
    merged, seen, count := before, seen0, 0;
    assert all + batch[..0] == all;
    var k := 0;
    while k < |batch|
      invariant 0 <= k <= |batch|
      invariant merged == Merged(all + batch[..k])
      invariant seen == IdsOf(merged) && count == |merged| - |before|
    {
      var product := batch[k];
      BatchStep(all, batch, k);
      if product.id !in seen {
        AppendedIds(merged, product);
        seen := seen + {product.id};
        merged := merged + [product];
        count := count + 1;
      }
      k := k + 1;
    }
    assert batch[..k] == batch;
  }

  lemma SourceStep(labels: seq<string>, batches: seq<seq<Product>>, n: nat, merged: seq<Product>, count: int)
    requires n < |labels| == |batches|
    requires merged == Merged(Fetched(batches, n) + batches[n])
    requires count == |merged| - |Merged(Fetched(batches, n))|
    ensures merged == Merged(Fetched(batches, n + 1))
    ensures count >= 0 && Counts(labels, batches, n + 1) == Counts(labels, batches, n)[labels[n] := count]
  {
    assert count == NewIn(batches, n);
  }

  lemma NothingFetched(labels: seq<string>, batches: seq<seq<Product>>)
    requires |labels| == |batches|
    ensures Merged(Fetched(batches, 0)) == [] && IdsOf([]) == {} && Counts(labels, batches, 0) == map[]
  {
  }

  /** The merge loop of `fetch_sale_products`. */
  method MergeSources(labels: seq<string>, batches: seq<seq<Product>>)
    returns (merged: seq<Product>, counts: map<string, nat>)
    requires |labels| == |batches|
    ensures merged == Merged(Fetched(batches, |batches|))
    ensures counts == Counts(labels, batches, |batches|)
  {
    var seen: set<string> := {};
    merged, counts := [], map[];
    var n := 0;
    NothingFetched(labels, batches);
    while n < |batches|
      invariant 0 <= n <= |batches|
      invariant merged == Merged(Fetched(batches, n)) && seen == IdsOf(merged)
      invariant counts == Counts(labels, batches, n)
    {
      var count;
      merged, seen, count := AddBatch(merged, batches[n], seen, Fetched(batches, n));
      SourceStep(labels, batches, n, merged, count);
      counts := counts[labels[n] := count];
      n := n + 1;
    }
  }

  function SumOfNew(batches: seq<seq<Product>>, n: nat): nat
    requires n <= |batches|
  {
    if n == 0 then 0 else SumOfNew(batches, n - 1) + NewIn(batches, n - 1)
  }

  lemma {:induction false} NewOnesAddUp(batches: seq<seq<Product>>, n: nat)
    requires n <= |batches|
    ensures SumOfNew(batches, n) == |Merged(Fetched(batches, n))|
  {
    if n > 0 {
      NewOnesAddUp(batches, n - 1);
    }
  }

  predicate Distinct(labels: seq<string>) {
    forall j, k :: 0 <= j < k < |labels| ==> labels[j] != labels[k]
  }

  lemma OwnCount(labels: seq<string>, batches: seq<seq<Product>>, n: nat)
    requires n < |labels| == |batches|
    ensures labels[n] in Counts(labels, batches, n + 1)
    ensures Counts(labels, batches, n + 1)[labels[n]] == NewIn(batches, n)
  {
  }

  lemma OtherCount(labels: seq<string>, batches: seq<seq<Product>>, n: nat, name: string)
    requires n < |labels| == |batches| && name != labels[n]
    ensures name in Counts(labels, batches, n + 1) <==> name in Counts(labels, batches, n)
    ensures name in Counts(labels, batches, n) ==>
              Counts(labels, batches, n + 1)[name] == Counts(labels, batches, n)[name]
  {
  }

  /** The last of the first `n` labels that is `name`, or -1. */
  function LastLabel(labels: seq<string>, n: nat, name: string): (m: int)
    requires n <= |labels|
    ensures -1 <= m < n && (0 <= m ==> labels[m] == name)
  {
    if n == 0 then -1 else if labels[n - 1] == name then n - 1 else LastLabel(labels, n - 1, name)
  }

  lemma {:induction false} LastLabelIsOwn(labels: seq<string>, n: nat, i: nat)
    requires i < n <= |labels| && forall k :: i < k < n ==> labels[k] != labels[i]
    ensures LastLabel(labels, n, labels[i]) == i
  {
    if i < n - 1 {
      LastLabelIsOwn(labels, n - 1, i);
    }
  }

  /** A label counts the new products of its last batch. */
  lemma {:induction false} CountIsOfLastBatch(labels: seq<string>, batches: seq<seq<Product>>, n: nat, name: string)
    requires n <= |labels| == |batches|
    ensures var m := LastLabel(labels, n, name);
            && (name in Counts(labels, batches, n) <==> m >= 0)
            && (m >= 0 ==> Counts(labels, batches, n)[name] == NewIn(batches, m))
  {
    if n > 0 {
      CountIsOfLastBatch(labels, batches, n - 1, name);
      if labels[n - 1] == name {
        OwnCount(labels, batches, n - 1);
      } else {
        OtherCount(labels, batches, n - 1, name);
      }
    }
  }

  /** For distinct labels the per-source counts add up to the merged length. */
  lemma CountsAddUp(labels: seq<string>, batches: seq<seq<Product>>)
    requires |labels| == |batches| && Distinct(labels)
    ensures var counts := Counts(labels, batches, |batches|);
            forall i :: 0 <= i < |labels| ==> labels[i] in counts && counts[labels[i]] == NewIn(batches, i)
    ensures SumOfNew(batches, |batches|) == |Merged(Fetched(batches, |batches|))|
  {
    var counts := Counts(labels, batches, |batches|);
    forall i | 0 <= i < |labels| ensures labels[i] in counts && counts[labels[i]] == NewIn(batches, i) {
      LastLabelIsOwn(labels, |batches|, i);
      CountIsOfLastBatch(labels, batches, |batches|, labels[i]);
    }
    NewOnesAddUp(batches, |batches|);
  }
}
