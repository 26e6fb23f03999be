/** Products, sale items and the product-page URL they carry.

    Prices are natural numbers of minor currency units; a discount is a whole
    number of tenths of a percent. */
module Products {
  import opened Text

  // ------------------------------------------------------------- entities

  datatype Size = Size(name: string, code: string, displayCode: string)

  datatype Product = Product(
    id: string,
    name: string,
    gender: string,
    base: nat,
    promo: Option<nat>,
    sizes: seq<Size>,
    priceGroup: string,
    colorDisplayCode: string,
    colorCode: string,
    storeStockOnly: bool)
  {
    predicate IsOnSale() {
      promo.Some? && promo.value < base
    }

    /** Tenths of a percent, rounded half to even; 0 when not on sale. */
    function Discount(): nat {
      if IsOnSale() then RoundHalfEven(1000 * (base - promo.value), base) else 0
    }

    function SalePrice(): nat {
      if promo.Some? then promo.value else base
    }
  }

  datatype WatchedVariant = WatchedVariant(
    url: string,
    id: string,
    priceGroup: string,
    name: string,
    color: string,
    colorName: string,
    size: string)

  datatype SaleItem = SaleItem(
    productId: string,
    name: string,
    originalPrice: nat,
    salePrice: nat,
    discount: nat,
    gender: string,
    sizes: seq<string>,
    urls: seq<string>,
    colorNames: seq<string>,
    quantities: seq<int>,
    statuses: seq<string>,
    priceGroup: string,
    isWatched: bool,
    hasKnownDiscount: bool,
    matchedFilterIds: seq<int>)
  {
    function QuantityAt(i: nat): int {
      if i < |quantities| then quantities[i] else 0
    }

    function StatusAt(i: nat): string {
      if i < |statuses| then statuses[i] else ""
    }

    /** The three lists every stage keeps in step. */
    predicate Aligned() {
      |sizes| == |urls| == |colorNames|
    }

    /** The five lists that stock data keeps in step. */
    predicate FullyAligned() {
      Aligned() && |sizes| == |quantities| == |statuses|
    }
  }

  // ------------------------------------------------------------- discount

  /** n / d to the nearest integer, ties to the even one. */
  function RoundHalfEven(n: nat, d: nat): nat
    requires d > 0
  {
    var q, m := n / d, n % d;
    if 2 * m > d || (2 * m == d && q % 2 == 1) then q + 1 else q
  }

  lemma Divided(n: nat, d: nat)
    requires d > 0
    ensures n == (n / d) * d + n % d && n % d < d
  {
  }

  /** The rounding is within half a unit. Ties are idealised: they go to the
      even unit here, while the code rounds a binary float. */
  lemma RoundsToNearest(n: nat, d: nat)
    requires d > 0
    ensures var r := RoundHalfEven(n, d);
            && -(d as int) <= 2 * (n - r * d) <= d
            && (2 * (n - r * d) == d || 2 * (n - r * d) == -(d as int) ==> r % 2 == 0)
  {
    Divided(n, d);
    var q, m := n / d, n % d;
    assert (q + 1) * d == q * d + d;
  }

  /** A discount lies between 0 and 100.0 percent. */
  lemma DiscountRange(p: Product)
    ensures p.Discount() <= 1000
  {
    if p.IsOnSale() {
      RoundsToNearest(1000 * (p.base - p.promo.value), p.base);
      QuotientBound(1000 * (p.base - p.promo.value), p.base, p.Discount());
    }
  }

  /** On sale, which is to say with a promo price below the base price, the promo
      price is the base price less the discount, within half a tenth of a percent
      of the base price; otherwise there is no discount. */
  lemma PromoIsBaseLessDiscount(p: Product)
    ensures p.promo.Some? && p.promo.value < p.base ==>
              -(p.base as int) <= 2 * ((1000 - p.Discount()) * p.base - 1000 * p.promo.value) <= p.base
    ensures p.promo.None? || p.promo.value >= p.base ==> p.Discount() == 0
    ensures p.SalePrice() == match p.promo case Some(price) => price case None => p.base
  {
    if p.IsOnSale() {
      RoundsToNearest(1000 * (p.base - p.promo.value), p.base);
      Rearranged(p.base, p.promo.value, p.Discount());
    }
  }

  lemma Rearranged(base: int, promo: int, r: int)
    ensures (1000 - r) * base - 1000 * promo == 1000 * (base - promo) - r * base
  {
  }

  lemma QuotientBound(n: nat, d: nat, r: nat)
    requires d > 0 && n <= 1000 * d && 2 * (n - r * d) >= -(d as int)
    ensures r <= 1000
  {
    assert r >= 1001 ==> (r - 1001) * d >= 0;
  }

  // ------------------------------------------------------------ low stock

  const LOW_STOCK := "LOW_STOCK"

  predicate IsLowStock(quantity: int, status: string, threshold: nat) {
    if threshold > 0 then 0 < quantity <= threshold else status == LOW_STOCK
  }

  /** A positive threshold decides by the quantity alone, threshold 0 by the
      status alone. */
  lemma LowStockInNumbers(quantity: int, status: string, threshold: nat)
    ensures threshold > 0 ==> (IsLowStock(quantity, status, threshold) <==> quantity >= 1 && quantity <= threshold)
    ensures threshold == 0 ==> (IsLowStock(quantity, status, threshold) <==> status == "LOW_STOCK")
  {
  }

  /** The documentation says unknown stock (quantity 0 or less) is never low.
      With the threshold switched off the code ignores the quantity: that
      promise holds exactly when the threshold is positive or the status is
      not LOW_STOCK. */
  lemma UnknownStockIsLowIff(status: string, threshold: nat)
    ensures (forall quantity: int :: quantity <= 0 ==> !IsLowStock(quantity, status, threshold))
            <==> (threshold > 0 || status != LOW_STOCK)
  {
    if threshold == 0 && status == LOW_STOCK {
      assert IsLowStock(0, status, threshold);
    }
  }
}
