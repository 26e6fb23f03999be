/** Variant keys and the durable table of the variants seen last. */
module SeenVariants {
  import opened Text
  import opened Products
  import opened ProductUrls

  // -------------------------------------------------------------- keys

  /** `f"{discount:g}"` of a whole number of tenths. */
  function TenthsText(tenths: nat): string {
    if tenths % 10 == 0 then Decimal(tenths / 10)
    else Decimal(tenths / 10) + "." + [DigitChar(tenths % 10)]
  }

  const SALE := "sale"

  function Suffix(item: SaleItem): string {
    if item.hasKnownDiscount then TenthsText(item.discount) else SALE
  }

  function VariantKey(id: string, color: string, size: string, suffix: string): string {
    id + ":" + color + ":" + size + ":" + suffix
  }

  function ItemKey(id: string, suffix: string): string {
    id + ":" + suffix
  }

  /** The two settings of the store. */
  datatype LowStock = LowStock(suppress: bool, threshold: nat)

  /** What one slot of an item's parallel lists says about its variant. */
  datatype Slot = Slot(codes: Codes, suppressed: bool)
  {
    predicate Coded() {
      codes.color != "" && codes.size != ""
    }

    predicate Counts() {
      Coded() && !suppressed
    }
  }

  /** The variant in slot `i` is low and suppressed. */
  predicate IsSuppressed(low: LowStock, item: SaleItem, i: nat) {
    low.suppress && IsLowStock(item.QuantityAt(i), item.StatusAt(i), low.threshold)
  }

  function Slots(low: LowStock, item: SaleItem): (r: seq<Slot>)
    ensures |r| == |item.urls|
  {
    seq(|item.urls|, i requires 0 <= i < |item.urls| =>
      Slot(ParseVariantCodes(item.urls[i]), IsSuppressed(low, item, i)))
  }

  predicate AnyCoded(slots: seq<Slot>) {
    slots != [] && (AnyCoded(slots[..|slots| - 1]) || slots[|slots| - 1].Coded())
  }

  function KeyOf(id: string, suffix: string, slot: Slot): string {
    VariantKey(id, slot.codes.color, slot.codes.size, suffix)
  }

  function KeysOf(id: string, suffix: string, slots: seq<Slot>): set<string> {
    if slots == [] then {}
    else
      var last := slots[|slots| - 1];
      KeysOf(id, suffix, slots[..|slots| - 1]) + if last.Counts() then {KeyOf(id, suffix, last)} else {}
  }

  /** The keys an item stands for: its coded variants that are not suppressed,
      or the product alone when no URL carries both codes. */
  function VariantKeys(low: LowStock, item: SaleItem): set<string> {
    if AnyCoded(Slots(low, item)) then KeysOf(item.productId, Suffix(item), Slots(low, item))
    else {ItemKey(item.productId, Suffix(item))}
  }

  lemma {:induction false} AnyCodedIff(slots: seq<Slot>)
    ensures AnyCoded(slots) <==> exists i :: 0 <= i < |slots| && slots[i].Coded()
  {
    if slots != [] {
      AnyCodedIff(slots[..|slots| - 1]);
    }
  }

  lemma {:induction false} KeysOfMembers(id: string, suffix: string, slots: seq<Slot>, key: string)
    ensures key in KeysOf(id, suffix, slots)
            <==> exists i :: 0 <= i < |slots| && slots[i].Counts() && KeyOf(id, suffix, slots[i]) == key
  {
    if slots != [] {
      KeysOfMembers(id, suffix, slots[..|slots| - 1], key);
    }
  }

  lemma {:induction false} UncodedHasNoKeys(id: string, suffix: string, slots: seq<Slot>)
    requires !AnyCoded(slots)
    ensures KeysOf(id, suffix, slots) == {}
  {
    if slots != [] {
      UncodedHasNoKeys(id, suffix, slots[..|slots| - 1]);
    }
  }

  /** `variant_keys`. */
  method ComputeVariantKeys(low: LowStock, item: SaleItem) returns (keys: set<string>)
    ensures keys == VariantKeys(low, item)
  {
    keys := CollectSlotKeys(item.productId, Suffix(item), Slots(low, item));
  }

  /** Its loop over the slots, with a flag. */
  method CollectSlotKeys(id: string, suffix: string, slots: seq<Slot>) returns (keys: set<string>)
    ensures keys == if AnyCoded(slots) then KeysOf(id, suffix, slots) else {ItemKey(id, suffix)}
  {
    keys := {};
    var sawVariantUrl := false;
    var n := 0;
    while n < |slots|
      invariant 0 <= n <= |slots|
      invariant sawVariantUrl == AnyCoded(slots[..n])
      invariant keys == KeysOf(id, suffix, slots[..n])
    {
      assert slots[..n + 1][..n] == slots[..n];
      if slots[n].Coded() {
        sawVariantUrl := true;
        if !slots[n].suppressed {
          keys := keys + {KeyOf(id, suffix, slots[n])};
        }
      }
      n := n + 1;
    }
    assert slots[..n] == slots;
    if !sawVariantUrl {
      UncodedHasNoKeys(id, suffix, slots);
      keys := keys + {ItemKey(id, suffix)};
    }
  }

  // ----------------------------------------------------- keys read back

  datatype KeyParts = KeyParts(id: string, color: string, size: string, discount: Option<nat>)

  /** `float(suffix)` of a numeral with at most one decimal. */
  function ParseTenths(s: string): Option<nat> {
    var dot := IndexOf(s, '.');
    if dot == |s| then
      if s != "" && AllDigits(s) then Some(10 * NumeralValue(s)) else None
    else if dot > 0 && |s| == dot + 2 && AllDigits(s[..dot]) && IsDigit(s[dot + 1]) then
      Some(10 * NumeralValue(s[..dot]) + DigitValue(s[dot + 1]))
    else None
  }

  /** `_parse_variant_key`. */
  function ParseVariantKey(key: string): KeyParts {
    var parts := Split(key, ':');
    if |parts| == 4 then KeyParts(parts[0], parts[1], parts[2], ParseTenths(parts[3]))
    else if |parts| == 2 then KeyParts(parts[0], "", "", ParseTenths(parts[1]))
    else KeyParts(key, "", "", None)
  }

  predicate NoColon(s: string) {
    ':' !in s
  }

  lemma DecimalHasNo(n: nat, c: char)
    requires !IsDigit(c)
    ensures c !in Decimal(n)
  {
  }

  lemma TenthsTextReads(tenths: nat)
    ensures ParseTenths(TenthsText(tenths)) == Some(tenths)
    ensures NoColon(TenthsText(tenths))
  {
    var whole := Decimal(tenths / 10);
    NumeralOfDecimal(tenths / 10);
    DecimalHasNo(tenths / 10, '.');
    DecimalHasNo(tenths / 10, ':');
    if tenths % 10 == 0 {
      IndexOfNone(whole, '.');
    } else {
      var s := TenthsText(tenths);
      IndexOfAt(whole, '.', [DigitChar(tenths % 10)]);
      assert s[..|whole|] == whole;
    }
  }

  /** A whole percentage is printed without a point, any other with a digit other
      than zero after it. */
  lemma TenthsTextIsShort(tenths: nat)
    ensures var text := TenthsText(tenths);
            if tenths % 10 == 0 then '.' !in text && NumeralValue(Decimal(tenths / 10)) * 10 == tenths
            else |text| >= 3 && text[|text| - 2] == '.' && '1' <= text[|text| - 1] <= '9'
  {
    DecimalHasNo(tenths / 10, '.');
    NumeralOfDecimal(tenths / 10);
  }

  lemma SaleIsNoNumber()
    ensures ParseTenths(SALE) == None && NoColon(SALE)
  {
    assert SALE[0] == 's';
    IndexOfNone(SALE, '.');
  }

  function DiscountOf(item: SaleItem): Option<nat> {
    if item.hasKnownDiscount then Some(item.discount) else None
  }

  lemma SuffixReads(item: SaleItem)
    ensures ParseTenths(Suffix(item)) == DiscountOf(item) && NoColon(Suffix(item))
  {
    TenthsTextReads(item.discount);
    SaleIsNoNumber();
  }

  lemma SplitTwo(a: string, b: string)
    requires NoColon(a) && NoColon(b)
    ensures Split(a + ":" + b, ':') == [a, b]
  {
    SplitAt(a, ':', b);
    IndexOfNone(b, ':');
  }

  lemma RegroupKey(a: string, b: string, c: string, d: string)
    ensures VariantKey(a, b, c, d) == a + ":" + (b + ":" + (c + ":" + d))
  {
  }

  lemma SplitFour(a: string, b: string, c: string, d: string)
    requires NoColon(a) && NoColon(b) && NoColon(c) && NoColon(d)
    ensures Split(VariantKey(a, b, c, d), ':') == [a, b, c, d]
  {
    SplitTwo(c, d);
    SplitAt(b, ':', c + ":" + d);
    assert [b] + [c, d] == [b, c, d];
    SplitAt(a, ':', b + ":" + (c + ":" + d));
    assert [a] + [b, c, d] == [a, b, c, d];
    RegroupKey(a, b, c, d);
  }

  /** `_parse_variant_key` inverts both printed forms. */
  lemma KeyRoundTrip(item: SaleItem, color: string, size: string)
    requires NoColon(item.productId) && NoColon(color) && NoColon(size)
    ensures ParseVariantKey(VariantKey(item.productId, color, size, Suffix(item)))
            == KeyParts(item.productId, color, size, DiscountOf(item))
    ensures ParseVariantKey(ItemKey(item.productId, Suffix(item)))
            == KeyParts(item.productId, "", "", DiscountOf(item))
  {
    SuffixReads(item);
    SplitFour(item.productId, color, size, Suffix(item));
    SplitTwo(item.productId, Suffix(item));
  }

  /** Two variants share a key exactly when product, colour, size and known
      discount agree. */
  lemma SameKeyIff(a: SaleItem, b: SaleItem, slot: Slot, slot': Slot)
    requires NoColon(a.productId) && NoColon(slot.codes.color) && NoColon(slot.codes.size)
    requires NoColon(b.productId) && NoColon(slot'.codes.color) && NoColon(slot'.codes.size)
    ensures KeyOf(a.productId, Suffix(a), slot) == KeyOf(b.productId, Suffix(b), slot')
            <==> a.productId == b.productId && slot.codes == slot'.codes && DiscountOf(a) == DiscountOf(b)
  {
    KeyRoundTrip(a, slot.codes.color, slot.codes.size);
    KeyRoundTrip(b, slot'.codes.color, slot'.codes.size);
  }

  // ------------------------------------------------------- the table

  datatype Row = Row(productId: string, color: string, size: string, discount: Option<nat>, lastSeenAt: int)

  type Table = map<string, Row>

  function RowFor(key: string, now: int): Row {
    var parts := ParseVariantKey(key);
    Row(parts.id, parts.color, parts.size, parts.discount, now)
  }

  /** An upsert keeps the first three columns of a row that is there. */
  function Upserted(table: Table, key: string, now: int): Row {
    if key in table then table[key].(discount := RowFor(key, now).discount, lastSeenAt := now)
    else RowFor(key, now)
  }

  function Saved(table: Table, keys: set<string>, now: int): Table {
    map key | key in keys :: Upserted(table, key, now)
  }

  const YEAR := 365 * 86_400_000_000

  /** The rows not older than 365 days. */
  function Pruned(table: Table, now: int): Table {
    map key | key in table && table[key].lastSeenAt >= now - YEAR :: table[key]
  }

  /** A prune keeps exactly the rows of the last 365 days, as they are. */
  lemma PrunedIs(table: Table, now: int, key: string)
    ensures key in Pruned(table, now) <==> key in table && now - table[key].lastSeenAt <= 365 * 24 * 3_600_000_000
    ensures key in Pruned(table, now) ==> Pruned(table, now)[key] == table[key]
  {
  }

  /** Every row's columns are what its key says. */
  ghost predicate Consistent(table: Table) {
    forall key :: key in table ==> table[key] == RowFor(key, table[key].lastSeenAt)
  }

  lemma SaveKeepsConsistent(table: Table, keys: set<string>, now: int)
    requires Consistent(table)
    ensures Consistent(Saved(table, keys, now))
    ensures Saved(table, keys, now) == map key | key in keys :: RowFor(key, now)
  {
  }

  /** A saved row has the discount its key says and the time of the save; the
      other columns are the old row's, if there was one. */
  lemma SavedRowIs(table: Table, keys: set<string>, now: int, key: string)
    requires key in keys
    ensures key in Saved(table, keys, now)
    ensures var row, parts := Saved(table, keys, now)[key], ParseVariantKey(key);
            && row.discount == parts.discount && row.lastSeenAt == now
            && (row.productId, row.color, row.size)
               == if key in table then (table[key].productId, table[key].color, table[key].size)
                  else (parts.id, parts.color, parts.size)
  {
  }

  class SeenVariantStore {
    const low: LowStock
    var table: Table

    constructor (low: LowStock, table: Table)
      ensures this.low == low && this.table == table
    {
      this.low := low;
      this.table := table;
    }

    method Load() returns (keys: set<string>)
      ensures keys == table.Keys
    {
      keys := table.Keys;
    }

    /** One transaction: upsert every key, then delete the others. A failure
        leaves the table as it was. */
    method Save(keys: set<string>, now: int, fails: bool) returns (ok: bool)
      modifies this
      ensures ok == !fails
      ensures table == if fails then old(table) else Saved(old(table), keys, now)
    {
      if fails {
        return false;
      }
      var upserted := table + map key | key in keys :: Upserted(table, key, now);
      table := map key | key in upserted && key in keys :: upserted[key];
      ok := true;
    }

    method PruneOlderThanAYear(now: int) returns (deleted: nat)
      modifies this
      ensures table == Pruned(old(table), now)
      ensures deleted == |old(table)| - |table|
    {
      var kept := map key | key in table && table[key].lastSeenAt >= now - YEAR :: table[key];
      assert kept.Keys <= table.Keys;
      FewerKeys(kept.Keys, table.Keys);
      deleted := |table| - |kept|;
      table := kept;
    }
  }

  lemma FewerKeys(a: set<string>, b: set<string>)
    requires a <= b
    ensures |a| <= |b|
  {
    assert b == a + (b - a);
  }
}
