/** The sale check as a state machine: a set in memory, a durable table, and
    the object whose `check` moves both. */
module SaleChecks {
  import opened Text
  import opened Products
  import opened FlatMaps
  import opened SeenVariants

  datatype NotifyMode = NewDealsMode | AllThenNew | EveryCheck

  datatype Settings = Settings(mode: NotifyMode, low: LowStock)

  /** `seen` is None until the first check of a process has loaded it. */
  datatype State = State(seen: Option<set<string>>, table: Table)

  /** The matched items and the clock are inputs of a check. */
  datatype Event =
    | Check(items: seq<SaleItem>, now: int, saveFails: bool)
    | FetchFails
    | Restart
    | Prune(now: int)

  datatype Output = Silent | Raised | Reported(matching: seq<SaleItem>, newDeals: seq<SaleItem>)

  // ---------------------------------------------------------- one step

  /** What the next check will compare with. */
  function Baseline(s: Settings, st: State): set<string> {
    if st.seen.Some? then st.seen.value
    else if s.mode.NewDealsMode? then st.table.Keys else {}
  }

  function AllKeys(low: LowStock, items: seq<SaleItem>): set<string> {
    if items == [] then {}
    else AllKeys(low, items[..|items| - 1]) + VariantKeys(low, items[|items| - 1])
  }

  lemma {:induction false} AllKeysMembers(low: LowStock, items: seq<SaleItem>)
    ensures forall k :: k in AllKeys(low, items) <==> exists item :: item in items && k in VariantKeys(low, item)
  {
    if items != [] {
      AllKeysMembers(low, items[..|items| - 1]);
      assert items == items[..|items| - 1] + [items[|items| - 1]];
    }
  }

  predicate IsNew(low: LowStock, item: SaleItem, seen: set<string>) {
    VariantKeys(low, item) - seen != {}
  }

  function NewDeals(low: LowStock, items: seq<SaleItem>, seen: set<string>): seq<SaleItem> {
    Kept((item: SaleItem) => IsNew(low, item, seen), items)
  }

  lemma NewDealsMembers(low: LowStock, items: seq<SaleItem>, seen: set<string>)
    ensures forall item :: item in NewDeals(low, items, seen) <==> item in items && IsNew(low, item, seen)
  {
    KeptMembers((item: SaleItem) => IsNew(low, item, seen), items);
  }

  /** One event. A failed save raises after memory has moved on. */
  function Step(s: Settings, st: State, ev: Event): (State, Output) {
    match ev
    case Check(items, now, saveFails) =>
      var keys := AllKeys(s.low, items);
      if saveFails then (State(Some(keys), st.table), Raised)
      else (State(Some(keys), Saved(st.table, keys, now)), Reported(items, NewDeals(s.low, items, Baseline(s, st))))
    case FetchFails => (st, Raised)
    case Restart => (st.(seen := None), Silent)
    case Prune(now) => (st.(table := Pruned(st.table, now)), Silent)
  }

  /** `run_sale_check`: what is sent out after a check. */
  function Dispatched(mode: NotifyMode, out: Output): seq<SaleItem> {
    if out.Reported? then if mode.EveryCheck? then out.matching else out.newDeals else []
  }

  // ---------------------------------------------------------- the object

  class SaleChecker {
    const settings: Settings
    const store: SeenVariantStore
    var seen: Option<set<string>>
    var lastResult: Output

    /** A process start and a reload both build a fresh object on the table. */
    constructor (settings: Settings, store: SeenVariantStore)
      ensures this.settings == settings && this.store == store
      ensures seen == None && lastResult == Silent
    {
      this.settings := settings;
      this.store := store;
      seen := None;
      lastResult := Silent;
    }

    ghost function View(): State
      reads this, store
    {
      State(seen, store.table)
    }

    /** The first check of a process loads the seen set, or starts empty. */
    method EnsureLoaded()
      modifies this`seen
      ensures seen == Some(Baseline(settings, old(View())))
    {
      if seen.None? {
        if settings.mode.NewDealsMode? {
          var loaded := store.Load();
          seen := Some(loaded);
        } else {
          seen := Some({});
        }
      }
    }

    /** `SaleChecker.check` from the matched items on. */
    method Check(items: seq<SaleItem>, now: int, saveFails: bool) returns (out: Output)
      requires store.low == settings.low
      modifies this, store
      ensures (View(), out) == Step(settings, old(View()), Event.Check(items, now, saveFails))
      ensures lastResult == if out.Reported? then out else old(lastResult)
    {
      EnsureLoaded();
      var current := CollectKeys(settings.low, items);
      var newDeals := NewDeals(settings.low, items, seen.value);
      seen := Some(current);
      var ok := store.Save(current, now, saveFails);
      if !ok {
        return Raised;
      }
      out := Reported(items, newDeals);
      lastResult := out;
    }
  }

  /** `current_variants |= variant_keys(item)` over all items. */
  method CollectKeys(low: LowStock, items: seq<SaleItem>) returns (current: set<string>)
    ensures current == AllKeys(low, items)
  {
    current := {};
    var n := 0;
    while n < |items|
      invariant 0 <= n <= |items|
      invariant current == AllKeys(low, items[..n])
    {
      assert items[..n + 1][..n] == items[..n];
      var keys := ComputeVariantKeys(low, items[n]);
      current := current + keys;
      n := n + 1;
    }
    assert items[..n] == items;
  }

  // ---------------------------------------------------------- runs

  function After(s: Settings, st: State, evs: seq<Event>): State {
    if evs == [] then st
    else Step(s, After(s, st, evs[..|evs| - 1]), evs[|evs| - 1]).0
  }

  function OutputAt(s: Settings, st: State, evs: seq<Event>, i: nat): Output
    requires i < |evs|
  {
    Step(s, After(s, st, evs[..i]), evs[i]).1
  }

  lemma AfterStep(s: Settings, st: State, evs: seq<Event>, i: nat)
    requires i < |evs|
    ensures After(s, st, evs[..i + 1]) == Step(s, After(s, st, evs[..i]), evs[i]).0
  {
    assert evs[..i + 1][..i] == evs[..i];
  }
}
