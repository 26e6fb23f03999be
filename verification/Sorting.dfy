/** The library sort that both filter engines end with: stable, by discount,
    largest first. */
module Sorting {
  import opened FlatMaps
  import opened Products

  predicate Descending(s: seq<SaleItem>) {
    forall i, j :: 0 <= i < j < |s| ==> s[i].discount >= s[j].discount
  }

  function Insert(x: SaleItem, s: seq<SaleItem>): (r: seq<SaleItem>)
    ensures |r| == |s| + 1
  {
    if s == [] || s[0].discount <= x.discount then [x] + s
    else [s[0]] + Insert(x, s[1..])
  }

  /** `results.sort(key=discount, reverse=True)`: Python keeps equal elements
      in their original order also when the sort is reversed. */
  function SortByDiscount(s: seq<SaleItem>): (r: seq<SaleItem>)
    ensures |r| == |s|
  {
    if s == [] then [] else Insert(s[0], SortByDiscount(s[1..]))
  }

  /** The elements with discount `d`, in order. */
  function WithDiscount(s: seq<SaleItem>, d: nat): seq<SaleItem> {
    if s == [] then []
    else (if s[0].discount == d then [s[0]] else []) + WithDiscount(s[1..], d)
  }

  // --------------------------------------------- what the sort is, uniquely

  lemma {:induction false} InsertKeepsOrder(x: SaleItem, s: seq<SaleItem>)
    requires Descending(s)
    ensures Descending(Insert(x, s))
    ensures forall y :: y in Insert(x, s) <==> y == x || y in s
  {
    if s == [] || s[0].discount <= x.discount {
    } else {
      InsertKeepsOrder(x, s[1..]);
      var t := Insert(x, s[1..]);
      forall k | 0 <= k < |t| ensures s[0].discount >= t[k].discount {
        assert t[k] in t;
      }
      assert s == [s[0]] + s[1..];
    }
  }

  lemma {:induction false} InsertIsStable(x: SaleItem, s: seq<SaleItem>, d: nat)
    requires Descending(s)
    ensures WithDiscount(Insert(x, s), d) == WithDiscount([x] + s, d)
  {
    if s == [] || s[0].discount <= x.discount {
    } else {
      InsertIsStable(x, s[1..], d);
      assert ([s[0]] + Insert(x, s[1..]))[1..] == Insert(x, s[1..]);
      assert ([x] + s)[1..] == s;
      assert ([x] + s[1..])[1..] == s[1..];
    }
  }

  /** The sort is descending and stable. */
  lemma {:induction false} SortIsStable(s: seq<SaleItem>)
    ensures Descending(SortByDiscount(s))
    ensures forall y :: y in SortByDiscount(s) <==> y in s
    ensures forall d: nat :: WithDiscount(SortByDiscount(s), d) == WithDiscount(s, d)
  {
    if s != [] {
      var t := SortByDiscount(s[1..]);
      SortIsStable(s[1..]);
      InsertKeepsOrder(s[0], t);
      forall d: nat ensures WithDiscount(SortByDiscount(s), d) == WithDiscount(s, d) {
        InsertIsStable(s[0], t, d);
        assert ([s[0]] + t)[1..] == t;
      }
      assert s == [s[0]] + s[1..];
    }
  }

  lemma WithDiscountTail(s: seq<SaleItem>, d: nat)
    requires s != []
    ensures WithDiscount(s[1..], d) ==
            if s[0].discount == d then WithDiscount(s, d)[1..] else WithDiscount(s, d)
  {
  }

  lemma {:induction false} WithDiscountMembers(s: seq<SaleItem>, d: nat)
    ensures forall y :: y in WithDiscount(s, d) <==> y in s && y.discount == d
  {
    if s != [] {
      WithDiscountMembers(s[1..], d);
      assert s == [s[0]] + s[1..];
    }
  }

  lemma HeadOfDescending(s: seq<SaleItem>)
    requires s != [] && Descending(s)
    ensures WithDiscount(s, s[0].discount) != []
    ensures WithDiscount(s, s[0].discount)[0] == s[0]
    ensures forall y :: y in s ==> y.discount <= s[0].discount
  {
  }

  /** Descending order and stability leave no freedom: they determine the list. */
  lemma {:induction false} SortIsUnique(a: seq<SaleItem>, b: seq<SaleItem>)
    requires Descending(a) && Descending(b)
    requires forall d: nat :: WithDiscount(a, d) == WithDiscount(b, d)
    ensures a == b
  {
    if a == [] || b == [] {
      if b != [] {
        HeadOfDescending(b);
      }
      if a != [] {
        HeadOfDescending(a);
      }
    } else {
      HeadOfDescending(a);
      HeadOfDescending(b);
      WithDiscountMembers(a, a[0].discount);
      WithDiscountMembers(b, a[0].discount);
      WithDiscountMembers(a, b[0].discount);
      WithDiscountMembers(b, b[0].discount);
      assert a[0] in WithDiscount(b, a[0].discount);
      assert b[0] in WithDiscount(a, b[0].discount);
      assert a[0].discount == b[0].discount;
      assert a[0] == b[0];
      forall d: nat ensures WithDiscount(a[1..], d) == WithDiscount(b[1..], d) {
        assert WithDiscount(a, d) == WithDiscount(b, d);
        WithDiscountTail(a, d);
        WithDiscountTail(b, d);
      }
      SortIsUnique(a[1..], b[1..]);
      assert a == [a[0]] + a[1..];
      assert b == [b[0]] + b[1..];
    }
  }

  // ------------------------------- sorting and element-wise transformations

  /** What a rewriting that may drop an element returns for it. */
  type Rewrite = SaleItem -> seq<SaleItem>

  /** `f` drops an element or replaces it by one of the same discount. */
  ghost predicate KeepsDiscount(f: Rewrite) {
    forall x :: |f(x)| <= 1 && (|f(x)| == 1 ==> f(x)[0].discount == x.discount)
  }

  function RewriteAll(f: Rewrite, s: seq<SaleItem>): seq<SaleItem> {
    FlatMap(f, s)
  }

  lemma RewrittenDiscount(f: Rewrite, s: seq<SaleItem>, y: SaleItem)
    requires KeepsDiscount(f) && y in RewriteAll(f, s)
    ensures exists x :: x in s && x.discount == y.discount
  {
    FlatMapMember(f, s, y);
    var x :| x in s && y in f(x);
    assert y == f(x)[0];
  }

  lemma ShortThenDescending(short: seq<SaleItem>, t: seq<SaleItem>)
    requires |short| <= 1 && Descending(t)
    requires |short| == 1 ==> forall y :: y in t ==> y.discount <= short[0].discount
    ensures Descending(short + t)
  {
    forall k | 0 <= k < |t| && |short| == 1 ensures t[k].discount <= short[0].discount {
      assert t[k] in t;
    }
  }

  lemma {:induction false} RewriteKeepsOrder(f: Rewrite, s: seq<SaleItem>)
    requires KeepsDiscount(f) && Descending(s)
    ensures Descending(RewriteAll(f, s))
  {
    if s != [] {
      RewriteKeepsOrder(f, s[1..]);
      forall y | y in RewriteAll(f, s[1..]) ensures y.discount <= s[0].discount {
        RewrittenDiscount(f, s[1..], y);
      }
      ShortThenDescending(f(s[0]), RewriteAll(f, s[1..]));
    }
  }

  lemma {:induction false} RewriteWithDiscount(f: Rewrite, s: seq<SaleItem>, d: nat)
    requires KeepsDiscount(f)
    ensures WithDiscount(RewriteAll(f, s), d) == RewriteAll(f, WithDiscount(s, d))
  {
    if s != [] {
      RewriteWithDiscount(f, s[1..], d);
      var t := RewriteAll(f, s[1..]);
      var u := WithDiscount(s[1..], d);
      if f(s[0]) == [] {
        assert f(s[0]) + t == t;
        assert f(s[0]) + RewriteAll(f, u) == RewriteAll(f, u);
      } else {
        assert f(s[0]) == [f(s[0])[0]];
        assert (f(s[0]) + t)[1..] == t;
      }
      if s[0].discount == d {
        assert ([s[0]] + u)[1..] == u;
      } else {
        assert [] + u == u;
      }
    }
  }

  /** Rewriting commutes with the sort. */
  lemma SortOfRewrite(f: Rewrite, s: seq<SaleItem>)
    requires KeepsDiscount(f)
    ensures SortByDiscount(RewriteAll(f, s)) == RewriteAll(f, SortByDiscount(s))
  {
    var a, b := SortByDiscount(RewriteAll(f, s)), RewriteAll(f, SortByDiscount(s));
    SortIsStable(s);
    SortIsStable(RewriteAll(f, s));
    RewriteKeepsOrder(f, SortByDiscount(s));
    forall d: nat ensures WithDiscount(a, d) == WithDiscount(b, d) {
      RewriteWithDiscount(f, s, d);
      RewriteWithDiscount(f, SortByDiscount(s), d);
    }
    SortIsUnique(a, b);
  }

  // ---------------------------------------------- sorting two lists in step

  type Relation = (SaleItem, SaleItem) -> bool

  ghost predicate Pointwise(r: Relation, a: seq<SaleItem>, b: seq<SaleItem>) {
    |a| == |b| && forall i :: 0 <= i < |a| ==> a[i].discount == b[i].discount && r(a[i], b[i])
  }

  lemma ConsPointwise(r: Relation, x: SaleItem, y: SaleItem, a: seq<SaleItem>, b: seq<SaleItem>)
    requires Pointwise(r, a, b) && x.discount == y.discount && r(x, y)
    ensures Pointwise(r, [x] + a, [y] + b)
  {
  }

  lemma {:induction false} InsertPointwise(r: Relation, x: SaleItem, y: SaleItem, a: seq<SaleItem>, b: seq<SaleItem>)
    requires Pointwise(r, a, b) && x.discount == y.discount && r(x, y)
    ensures Pointwise(r, Insert(x, a), Insert(y, b))
  {
    if a != [] && a[0].discount > x.discount {
      InsertPointwise(r, x, y, a[1..], b[1..]);
      ConsPointwise(r, a[0], b[0], Insert(x, a[1..]), Insert(y, b[1..]));
    } else {
      ConsPointwise(r, x, y, a, b);
    }
  }

  /** Two lists that agree place by place still do after both are sorted. */
  lemma {:induction false} SortPointwise(r: Relation, a: seq<SaleItem>, b: seq<SaleItem>)
    requires Pointwise(r, a, b)
    ensures Pointwise(r, SortByDiscount(a), SortByDiscount(b))
  {
    if a != [] {
      SortPointwise(r, a[1..], b[1..]);
      InsertPointwise(r, a[0], b[0], SortByDiscount(a[1..]), SortByDiscount(b[1..]));
    }
  }
}
