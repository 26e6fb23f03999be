/** Who is notified when: theorems about whole runs of the sale checker. */
module RunLaws {
  import opened Text
  import opened ProductUrls
  import opened Products
  import opened FlatMaps
  import opened SeenVariants
  import opened SaleChecks

  // ------------------------------------------------ what a run remembers

  /** The keys of the last check, if there was one. */
  function LastKeys(low: LowStock, evs: seq<Event>): Option<set<string>> {
    if evs == [] then None
    else match evs[|evs| - 1]
      case Check(items, _, _) => Some(AllKeys(low, items))
      case _ => LastKeys(low, evs[..|evs| - 1])
  }

  /** The time of the last check, if there was one. */
  function LastCheck(evs: seq<Event>): Option<int> {
    if evs == [] then None
    else match evs[|evs| - 1]
      case Check(_, now, _) => Some(now)
      case _ => LastCheck(evs[..|evs| - 1])
  }

  /** Saves succeed, and no prune comes more than 365 days after the check
      before it. */
  predicate Calm(evs: seq<Event>) {
    evs == [] || (Calm(evs[..|evs| - 1]) &&
      match evs[|evs| - 1]
      case Check(_, _, saveFails) => !saveFails
      case Prune(now) =>
        var last := LastCheck(evs[..|evs| - 1]);
        last.Some? ==> last.value >= now - YEAR
      case _ => true)
  }

  /** After a check of a calm run the table holds the keys of that check, all
      stamped with its time, so a prune takes all rows or none. */
  ghost predicate Settled(s: Settings, st: State, evs: seq<Event>) {
    var keys, last := LastKeys(s.low, evs), LastCheck(evs);
    && (keys.Some? <==> last.Some?)
    && (keys.None? ==> st.seen == None)
    && (keys.Some? ==>
          && st.table.Keys == keys.value
          && (forall k :: k in st.table ==> st.table[k].lastSeenAt == last.value)
          && (st.seen.Some? ==> st.seen.value == keys.value))
  }

  lemma {:induction false} CalmRunSettles(s: Settings, st0: State, evs: seq<Event>)
    requires st0.seen == None && Calm(evs)
    ensures Settled(s, After(s, st0, evs), evs)
  {
    if evs != [] {
      CalmRunSettles(s, st0, evs[..|evs| - 1]);
    }
  }

  // ------------------------------------------------ restart transparency

  predicate IsRestart(ev: Event) {
    ev.Restart?
  }

  function DropRestarts(evs: seq<Event>): seq<Event> {
    if evs == [] then []
    else DropRestarts(evs[..|evs| - 1]) + if IsRestart(evs[|evs| - 1]) then [] else [evs[|evs| - 1]]
  }

  lemma DropStep(evs: seq<Event>)
    requires evs != []
    ensures var n := |evs| - 1;
            var d, before := DropRestarts(evs), DropRestarts(evs[..n]);
            if IsRestart(evs[n]) then d == before
            else d != [] && d[..|d| - 1] == before && d[|d| - 1] == evs[n]
  {
  }

  /** The outputs of all events but the restarts. */
  function Outputs(s: Settings, st: State, evs: seq<Event>): seq<Output> {
    if evs == [] then []
    else
      var n := |evs| - 1;
      Outputs(s, st, evs[..n]) + if IsRestart(evs[n]) then [] else [Step(s, After(s, st, evs[..n]), evs[n]).1]
  }

  lemma {:induction false} DropKeepsChecks(low: LowStock, evs: seq<Event>)
    ensures LastKeys(low, DropRestarts(evs)) == LastKeys(low, evs)
    ensures LastCheck(DropRestarts(evs)) == LastCheck(evs)
    ensures Calm(evs) ==> Calm(DropRestarts(evs))
  {
    if evs != [] {
      var n := |evs| - 1;
      DropKeepsChecks(low, evs[..n]);
      DropStep(evs);
    }
  }

  /** With and without the restarts, a calm run keeps one table, and the next
      check compares with one set. */
  lemma {:induction false} SameTables(s: Settings, st0: State, evs: seq<Event>)
    requires s.mode.NewDealsMode? && st0.seen == None && Calm(evs)
    ensures var a, b := After(s, st0, evs), After(s, st0, DropRestarts(evs));
            a.table == b.table && Baseline(s, a) == Baseline(s, b)
  {
    CalmRunSettles(s, st0, evs);
    DropKeepsChecks(s.low, evs);
    CalmRunSettles(s, st0, DropRestarts(evs));
    if evs != [] {
      var n := |evs| - 1;
      SameTables(s, st0, evs[..n]);
      DropStep(evs);
    }
  }

  /** Restart transparency. In `new_deals` mode, restarts and reloads put
      anywhere into a run leave every output of the run as it was, as long as
      saves succeed and no prune comes more than 365 days after a check. */
  lemma {:induction false} RestartTransparency(s: Settings, st0: State, evs: seq<Event>)
    requires s.mode.NewDealsMode? && st0.seen == None && Calm(evs)
    ensures Outputs(s, st0, evs) == Outputs(s, st0, DropRestarts(evs))
  {
    if evs != [] {
      var n := |evs| - 1;
      RestartTransparency(s, st0, evs[..n]);
      SameTables(s, st0, evs[..n]);
      DropStep(evs);
    }
  }

  // ---------------------------------- when exactly one restart is invisible

  /** Some item stands for exactly this key. */
  ghost predicate Realizable(low: LowStock, key: string) {
    exists item :: VariantKeys(low, item) == {key}
  }

  /** The item reduced to one of its slots. */
  function SlotOnly(item: SaleItem, i: nat): SaleItem
    requires i < |item.urls|
  {
    item.(urls := [item.urls[i]], quantities := [item.QuantityAt(i)], statuses := [item.StatusAt(i)])
  }

  lemma SlotOnlySlots(low: LowStock, item: SaleItem, i: nat)
    requires i < |item.urls|
    ensures Slots(low, SlotOnly(item, i)) == [Slots(low, item)[i]]
  {
  }

  lemma OneSlotKeys(id: string, suffix: string, slot: Slot)
    requires slot.Counts()
    ensures AnyCoded([slot]) && KeysOf(id, suffix, [slot]) == {KeyOf(id, suffix, slot)}
  {
    assert [slot][..0] == [];
    assert KeysOf(id, suffix, []) == {};
  }

  /** Every key that a check stores is the only key of some item. */
  lemma KeysAreRealizable(low: LowStock, item: SaleItem, key: string)
    requires key in VariantKeys(low, item)
    ensures Realizable(low, key)
  {
    var slots := Slots(low, item);
    if AnyCoded(slots) {
      KeysOfMembers(item.productId, Suffix(item), slots, key);
      var i :| 0 <= i < |slots| && slots[i].Counts() && KeyOf(item.productId, Suffix(item), slots[i]) == key;
      SlotOnlySlots(low, item, i);
      OneSlotKeys(item.productId, Suffix(item), slots[i]);
      assert VariantKeys(low, SlotOnly(item, i)) == {key};
    } else {
      assert VariantKeys(low, item) == {key};
    }
  }

  /** Every key in memory and in the table is the only key of some item. */
  ghost predicate AllRealizable(low: LowStock, st: State) {
    && (st.seen.Some? ==> forall k :: k in st.seen.value ==> Realizable(low, k))
    && (forall k :: k in st.table ==> Realizable(low, k))
  }

  lemma CheckedKeysAreRealizable(low: LowStock, items: seq<SaleItem>)
    ensures forall k :: k in AllKeys(low, items) ==> Realizable(low, k)
  {
    AllKeysMembers(low, items);
    forall k | k in AllKeys(low, items) ensures Realizable(low, k) {
      var item :| item in items && k in VariantKeys(low, item);
      KeysAreRealizable(low, item, k);
    }
  }

  /** So it is after every run that starts so, and after every run that ends
      with a successful check, whatever it starts with. */
  lemma {:induction false} RunsAreRealizable(s: Settings, st0: State, evs: seq<Event>)
    ensures AllRealizable(s.low, st0) ==> AllRealizable(s.low, After(s, st0, evs))
    ensures evs != [] && evs[|evs| - 1].Check? && !evs[|evs| - 1].saveFails ==> AllRealizable(s.low, After(s, st0, evs))
  {
    if evs != [] {
      RunsAreRealizable(s, st0, evs[..|evs| - 1]);
      match evs[|evs| - 1]
      case Check(items, _, _) => CheckedKeysAreRealizable(s.low, items);
      case _ =>
    }
  }

  lemma KeyIsSeenIff<T>(k: T, seen: set<T>)
    ensures {k} - seen == {} <==> k in seen
  {
    if k !in seen {
      assert k in {k} - seen;
    }
  }

  /** What a check of one item with one key tells about the set it compares
      with. */
  lemma OneItemTells(low: LowStock, item: SaleItem, k: string, seen: set<string>)
    requires VariantKeys(low, item) == {k}
    ensures NewDeals(low, [item], seen) == if k in seen then [] else [item]
  {
    KeyIsSeenIff(k, seen);
    KeptOne((x: SaleItem) => IsNew(low, x, seen), item);
  }

  /** A key in one of two sets only shows in the next check of its item. */
  lemma DifferenceShows(low: LowStock, k: string, mine: set<string>, theirs: set<string>) returns (item: SaleItem)
    requires Realizable(low, k) && (k in mine) != (k in theirs)
    ensures NewDeals(low, [item], mine) != NewDeals(low, [item], theirs)
  {
    item :| VariantKeys(low, item) == {k};
    OneItemTells(low, item, k, mine);
    OneItemTells(low, item, k, theirs);
  }

  lemma DifferentSets<T>(a: set<T>, b: set<T>) returns (k: T)
    requires a != b
    ensures (k in a) != (k in b)
  {
    k :| (k in a) != (k in b);
  }

  /** The next check, whatever it finds, goes the same way in both states. */
  ghost predicate SameNextCheck(s: Settings, a: State, b: State) {
    forall items, now :: Step(s, a, Check(items, now, false)) == Step(s, b, Check(items, now, false))
  }

  lemma SameBaselineSameCheck(s: Settings, a: State, b: State)
    requires a.table == b.table && Baseline(s, a) == Baseline(s, b)
    ensures SameNextCheck(s, a, b)
  {
  }

  lemma OtherBaselineOtherCheck(s: Settings, a: State, b: State, k: string)
    requires Realizable(s.low, k) && (k in Baseline(s, a)) != (k in Baseline(s, b))
    ensures !SameNextCheck(s, a, b)
  {
    var item := DifferenceShows(s.low, k, Baseline(s, a), Baseline(s, b));
    assert Step(s, a, Check([item], 0, false)).1 != Step(s, b, Check([item], 0, false)).1;
  }

  /** A restart now changes no report of the next check, whatever the check
      finds, exactly when the set in memory is the set a fresh process would
      start with: the table's keys in `new_deals` mode, the empty set in the
      other modes. Past the next check the restart leaves no trace. */
  lemma RestartInvisibleIff(s: Settings, st: State)
    requires st.seen.Some? && AllRealizable(s.low, st)
    ensures var restarted := Step(s, st, Restart).0;
            SameNextCheck(s, restarted, st) <==> st.seen.value == Baseline(s, restarted)
  {
    var restarted := Step(s, st, Restart).0;
    if st.seen.value == Baseline(s, restarted) {
      SameBaselineSameCheck(s, restarted, st);
    } else {
      var k := DifferentSets(st.seen.value, Baseline(s, restarted));
      OtherBaselineOtherCheck(s, restarted, st, k);
    }
  }

  // ------------------------------------------------ once per appearance

  /** At event `i` the key makes an item new. */
  predicate FreshAt(s: Settings, st0: State, evs: seq<Event>, i: int, key: string) {
    && 0 <= i < |evs| && evs[i].Check?
    && key in AllKeys(s.low, evs[i].items)
    && key !in Baseline(s, After(s, st0, evs[..i]))
  }

  /** A key that is fresh in a successful check is in a reported item, and a
      reported item has a fresh key. */
  lemma ReportedHasFreshKey(s: Settings, st0: State, evs: seq<Event>, i: nat, item: SaleItem)
    requires i < |evs| && evs[i].Check? && !evs[i].saveFails && item in evs[i].items
    ensures item in OutputAt(s, st0, evs, i).newDeals
            <==> exists key :: key in VariantKeys(s.low, item) && FreshAt(s, st0, evs, i, key)
  {
    var seen := Baseline(s, After(s, st0, evs[..i]));
    var unseen := VariantKeys(s.low, item) - seen;
    NewDealsMembers(s.low, evs[i].items, seen);
    if unseen != {} {
      var key :| key in unseen;
      AllKeysMembers(s.low, evs[i].items);
      assert FreshAt(s, st0, evs, i, key);
    }
    if key :| key in VariantKeys(s.low, item) && FreshAt(s, st0, evs, i, key) {
      assert key in unseen;
    }
  }

  /** The event is a check without the key. */
  predicate Lacks(low: LowStock, ev: Event, key: string) {
    ev.Check? && key !in AllKeys(low, ev.items)
  }

  /** While every check has the key and nothing restarts, memory keeps it. */
  lemma {:induction false} KeyStays(s: Settings, st0: State, evs: seq<Event>, i: nat, j: nat, key: string)
    requires i < j <= |evs| && evs[i].Check? && !Lacks(s.low, evs[i], key)
    requires forall m :: i < m < j ==> !evs[m].Restart? && !Lacks(s.low, evs[m], key)
    ensures var st := After(s, st0, evs[..j]); st.seen.Some? && key in st.seen.value
    decreases j
  {
    AfterStep(s, st0, evs, j - 1);
    if j > i + 1 {
      KeyStays(s, st0, evs, i, j - 1, key);
    }
  }

  /** Two alerts for one key are separated by a check without it, or by a
      restart, in every mode and every run. */
  lemma OncePerAppearance(s: Settings, st0: State, evs: seq<Event>, i: nat, j: nat, key: string)
    requires i < j < |evs|
    ensures FreshAt(s, st0, evs, i, key) && FreshAt(s, st0, evs, j, key)
            ==> exists m :: i < m < j && (evs[m].Restart? || Lacks(s.low, evs[m], key))
  {
    if FreshAt(s, st0, evs, i, key) && forall m :: i < m < j ==> !evs[m].Restart? && !Lacks(s.low, evs[m], key) {
      KeyStays(s, st0, evs, i, j, key);
    }
  }

  lemma {:induction false} CalmPrefix(evs: seq<Event>, n: nat)
    requires Calm(evs) && n <= |evs|
    ensures Calm(evs[..n])
    decreases |evs| - n
  {
    if n < |evs| {
      CalmPrefix(evs, n + 1);
      assert evs[..n + 1][..n] == evs[..n];
    } else {
      assert evs[..n] == evs;
    }
  }

  /** In a calm `new_deals` run each check compares with the keys of the check
      before it, across restarts and prunes. */
  lemma ComparesWithLastCheck(s: Settings, st0: State, evs: seq<Event>, i: nat)
    requires s.mode.NewDealsMode? && st0.seen == None && Calm(evs) && i <= |evs|
    requires LastKeys(s.low, evs[..i]).Some?
    ensures Baseline(s, After(s, st0, evs[..i])) == LastKeys(s.low, evs[..i]).value
  {
    CalmPrefix(evs, i);
    CalmRunSettles(s, st0, evs[..i]);
  }

  lemma LastKeysStep(low: LowStock, evs: seq<Event>, i: nat)
    requires i < |evs|
    ensures LastKeys(low, evs[..i + 1])
            == if evs[i].Check? then Some(AllKeys(low, evs[i].items)) else LastKeys(low, evs[..i])
  {
    assert evs[..i + 1][..i] == evs[..i];
  }

  /** The last check before event `j`, or -1. */
  function LastCheckBefore(evs: seq<Event>, j: nat): (m: int)
    requires j <= |evs|
    ensures m < j && (0 <= m ==> evs[m].Check?)
    ensures forall i :: 0 <= i < j && evs[i].Check? ==> i <= m
  {
    if j == 0 then -1 else if evs[j - 1].Check? then j - 1 else LastCheckBefore(evs, j - 1)
  }

  lemma {:induction false} LastKeysAre(low: LowStock, evs: seq<Event>, j: nat)
    requires j <= |evs|
    ensures var m := LastCheckBefore(evs, j);
            LastKeys(low, evs[..j]) == if m < 0 then None else Some(AllKeys(low, evs[m].items))
  {
    if j > 0 {
      LastKeysStep(low, evs, j - 1);
      LastKeysAre(low, evs, j - 1);
    }
  }

  // ------------------------------------------ what every check compares with

  /** The set in memory after a run: the keys of the last check since the last
      restart, whether its save failed or not. */
  function Remembered(low: LowStock, seen: Option<set<string>>, evs: seq<Event>): Option<set<string>> {
    if evs == [] then seen
    else match evs[|evs| - 1]
      case Check(items, _, _) => Some(AllKeys(low, items))
      case Restart => None
      case _ => Remembered(low, seen, evs[..|evs| - 1])
  }

  /** What the last successful save leaves in the table, with the time of the
      save: all its keys, or none after a prune more than 365 days later. */
  function LastSave(low: LowStock, evs: seq<Event>): Option<(set<string>, int)> {
    if evs == [] then None
    else
      var before := LastSave(low, evs[..|evs| - 1]);
      match evs[|evs| - 1]
      case Check(items, now, false) => Some((AllKeys(low, items), now))
      case Prune(now) => if before.Some? && before.value.1 < now - YEAR then Some(({}, before.value.1)) else before
      case _ => before
  }

  /** The table that a run's prunes alone leave. */
  function OnlyPruned(table: Table, evs: seq<Event>): Table {
    if evs == [] then table
    else
      var before := OnlyPruned(table, evs[..|evs| - 1]);
      match evs[|evs| - 1]
      case Prune(now) => Pruned(before, now)
      case _ => before
  }

  /** What a fresh process loads after a run. */
  function Stored(s: Settings, table: Table, evs: seq<Event>): set<string> {
    match LastSave(s.low, evs)
    case Some((keys, _)) => keys
    case None => OnlyPruned(table, evs).Keys
  }

  /** What a check after a run compares with. */
  function Compared(s: Settings, st0: State, evs: seq<Event>): set<string> {
    match Remembered(s.low, st0.seen, evs)
    case Some(keys) => keys
    case None => if s.mode.NewDealsMode? then Stored(s, st0.table, evs) else {}
  }

  lemma {:induction false} MemoryIs(s: Settings, st0: State, evs: seq<Event>)
    ensures After(s, st0, evs).seen == Remembered(s.low, st0.seen, evs)
  {
    if evs != [] {
      MemoryIs(s, st0, evs[..|evs| - 1]);
    }
  }

  lemma {:induction false} TableIs(s: Settings, st0: State, evs: seq<Event>)
    ensures var table, last := After(s, st0, evs).table, LastSave(s.low, evs);
            match last
            case Some((keys, at)) => table.Keys == keys && forall k :: k in table ==> table[k].lastSeenAt == at
            case None => table == OnlyPruned(st0.table, evs)
  {
    if evs != [] {
      TableIs(s, st0, evs[..|evs| - 1]);
    }
  }

  /** In every mode and every run, failing saves, restarts and prunes included,
      a check compares with the keys of the check before it in its process; the
      first check of a process compares with what the last successful save left
      in `new_deals` mode, and with nothing in the other modes. */
  lemma ComparesWith(s: Settings, st0: State, evs: seq<Event>)
    ensures Baseline(s, After(s, st0, evs)) == Compared(s, st0, evs)
  {
    MemoryIs(s, st0, evs);
    TableIs(s, st0, evs);
  }

  /** Conversely the first check of every appearance is an alert: in every mode
      and every run a key is fresh exactly when the check has it and what it
      compares with does not. */
  lemma FreshIff(s: Settings, st0: State, evs: seq<Event>, i: nat, key: string)
    requires i < |evs| && evs[i].Check?
    ensures FreshAt(s, st0, evs, i, key)
            <==> key in AllKeys(s.low, evs[i].items)
                 && match Remembered(s.low, st0.seen, evs[..i])
                    case Some(keys) => key !in keys
                    case None => s.mode.NewDealsMode? ==> key !in Stored(s, st0.table, evs[..i])
  {
    ComparesWith(s, st0, evs[..i]);
  }

  /** In a calm `new_deals` run restarts do not count: a key is fresh exactly
      when the check before did not have it. */
  lemma FreshInCalmRunIff(s: Settings, st0: State, evs: seq<Event>, i: nat, key: string)
    requires s.mode.NewDealsMode? && st0.seen == None && Calm(evs)
    requires i < |evs| && evs[i].Check? && LastKeys(s.low, evs[..i]).Some?
    ensures FreshAt(s, st0, evs, i, key)
            <==> key in AllKeys(s.low, evs[i].items) && key !in LastKeys(s.low, evs[..i]).value
  {
    ComparesWithLastCheck(s, st0, evs, i);
  }

  lemma FreshAfterLack(s: Settings, st0: State, evs: seq<Event>, j: nat, key: string)
    requires s.mode.NewDealsMode? && st0.seen == None && Calm(evs)
    requires j < |evs| && LastCheckBefore(evs, j) >= 0
    ensures FreshAt(s, st0, evs, j, key) ==> Lacks(s.low, evs[LastCheckBefore(evs, j)], key)
  {
    LastKeysAre(s.low, evs, j);
    if evs[j].Check? {
      FreshInCalmRunIff(s, st0, evs, j, key);
    }
  }

  lemma LaterThan(low: LowStock, evs: seq<Event>, i: nat, j: nat, key: string)
    requires i < j <= |evs| && evs[i].Check? && !Lacks(low, evs[i], key)
    ensures 0 <= LastCheckBefore(evs, j)
    ensures Lacks(low, evs[LastCheckBefore(evs, j)], key) ==> i < LastCheckBefore(evs, j)
  {
  }

  lemma FreshIsNoLack(s: Settings, st0: State, evs: seq<Event>, i: nat, key: string)
    requires FreshAt(s, st0, evs, i, key)
    ensures evs[i].Check? && !Lacks(s.low, evs[i], key)
  {
  }

  lemma LackBetween(s: Settings, st0: State, evs: seq<Event>, i: nat, j: nat, key: string)
    requires s.mode.NewDealsMode? && st0.seen == None && Calm(evs)
    requires i < j && FreshAt(s, st0, evs, i, key) && FreshAt(s, st0, evs, j, key)
    ensures i < LastCheckBefore(evs, j) < j && Lacks(s.low, evs[LastCheckBefore(evs, j)], key)
  {
    FreshIsNoLack(s, st0, evs, i, key);
    LaterThan(s.low, evs, i, j, key);
    FreshAfterLack(s, st0, evs, j, key);
  }

  /** In a calm `new_deals` run restarts do not count: two alerts for one key
      always have a check without it between them. */
  lemma OncePerAppearanceAcrossRestarts(s: Settings, st0: State, evs: seq<Event>, i: nat, j: nat, key: string)
    requires s.mode.NewDealsMode? && st0.seen == None && Calm(evs)
    requires i < j < |evs|
    ensures FreshAt(s, st0, evs, i, key) && FreshAt(s, st0, evs, j, key)
            ==> exists m :: i < m < j && Lacks(s.low, evs[m], key)
  {
    if FreshAt(s, st0, evs, i, key) && FreshAt(s, st0, evs, j, key) {
      LackBetween(s, st0, evs, i, j, key);
    }
  }

  // ------------------------------------------------ repeated checks

  lemma NothingNew(low: LowStock, items: seq<SaleItem>, seen: set<string>)
    requires forall item :: item in items ==> VariantKeys(low, item) <= seen
    ensures NewDeals(low, items, seen) == []
  {
    forall item | item in items ensures !IsNew(low, item, seen) {
      assert forall k :: k in VariantKeys(low, item) ==> k in seen;
    }
    KeptNone((item: SaleItem) => IsNew(low, item, seen), items);
  }

  /** A repeated check finds nothing new in any mode, `every_check` included,
      where the comment in the source says that every match is a new deal. It
      sends nothing out, except in `every_check` mode, which sends all. */
  lemma RepeatedCheck(s: Settings, st: State, items: seq<SaleItem>, t0: int, t1: int, saveFails: bool)
    ensures var first := Step(s, st, Check(items, t0, saveFails)).0;
            var out := Step(s, first, Check(items, t1, false)).1;
            && out == Reported(items, [])
            && Dispatched(s.mode, out) == if s.mode.EveryCheck? then items else []
  {
    var keys := AllKeys(s.low, items);
    AllKeysMembers(s.low, items);
    forall item | item in items ensures VariantKeys(s.low, item) <= keys {
    }
    NothingNew(s.low, items, keys);
  }

  /** Memory moves before the save, so a failed save loses its alerts for the
      life of the process, in every mode: the next identical check reports
      nothing. After a restart it is as if the failed check had not been. */
  lemma FailedSaveLosesAlerts(s: Settings, st: State, items: seq<SaleItem>, t0: int, t1: int)
    ensures var failed := Step(s, st, Check(items, t0, true));
            && failed.1 == Raised
            && Step(s, failed.0, Check(items, t1, false)).1 == Reported(items, [])
            && Step(s, failed.0, Restart).0 == Step(s, st, Restart).0
    ensures var restarted := Step(s, Step(s, st, Check(items, t0, true)).0, Restart).0;
            Baseline(s, restarted) == Baseline(s, st) ==>
              Step(s, restarted, Check(items, t1, false)).1 == Step(s, st, Check(items, t1, false)).1
  {
    RepeatedCheck(s, st, items, t0, t1, true);
  }

  // ------------------------------------------------ when every match is new

  /** A check reports every match as new exactly when every match has a key it
      does not compare with. */
  lemma AllAreNewIff(low: LowStock, items: seq<SaleItem>, seen: set<string>)
    ensures NewDeals(low, items, seen) == items <==> forall item :: item in items ==> IsNew(low, item, seen)
  {
    KeptAllIff((item: SaleItem) => IsNew(low, item, seen), items);
  }

  /** Suppression leaves the item no key: it has coded URLs, all of them low. */
  predicate AllLow(low: LowStock, item: SaleItem) {
    low.suppress && HasCodedUrl(item) && forall i :: 0 <= i < |item.urls| ==> !Sellable(low, item, i)
  }

  lemma NoKeysIff(low: LowStock, item: SaleItem)
    ensures VariantKeys(low, item) == {} <==> AllLow(low, item)
  {
    var slots := Slots(low, item);
    CodedIff(low, item);
    if HasCodedUrl(item) {
      if low.suppress {
        if key :| key in VariantKeys(low, item) {
          SuppressedKeys(low, item, key);
        }
        if i :| 0 <= i < |item.urls| && Sellable(low, item, i) {
          SuppressedKeys(low, item, KeyAt(low, item, i));
        }
      } else {
        var i :| 0 <= i < |item.urls| && CodedAt(item, i);
        KeysOfMembers(item.productId, Suffix(item), slots, KeyAt(low, item, i));
        assert slots[i].Counts();
      }
    } else {
      assert ItemKey(item.productId, Suffix(item)) in VariantKeys(low, item);
    }
  }

  /** The promise made for `every_check`, that every match is a new deal, with
      the empty seen set it is explained by: it holds exactly when suppression
      leaves every match a key. */
  lemma EveryMatchIsNewIff(s: Settings, st: State, items: seq<SaleItem>, now: int)
    requires Baseline(s, st) == {}
    ensures Step(s, st, Check(items, now, false)).1.newDeals == items
            <==> forall item :: item in items ==> !AllLow(s.low, item)
  {
    AllAreNewIff(s.low, items, {});
    forall item ensures IsNew(s.low, item, {}) <==> !AllLow(s.low, item) {
      NoKeysIff(s.low, item);
      assert VariantKeys(s.low, item) - {} == VariantKeys(s.low, item);
    }
  }

  // ------------------------------------------------ low stock over runs

  /** The URL in slot `i` carries both codes. */
  predicate CodedAt(item: SaleItem, i: int) {
    0 <= i < |item.urls| &&
      var codes := ParseVariantCodes(item.urls[i]);
      codes.color != "" && codes.size != ""
  }

  /** Slot `i` carries both codes and is not low: with a positive threshold the
      quantity is above it or unknown (0 or less), with threshold 0 the status
      is not LOW_STOCK. A missing quantity is 0, a missing status empty. */
  predicate Sellable(low: LowStock, item: SaleItem, i: int) {
    CodedAt(item, i) &&
      var quantity := if i < |item.quantities| then item.quantities[i] else 0;
      var status := if i < |item.statuses| then item.statuses[i] else "";
      if low.threshold > 0 then quantity <= 0 || quantity > low.threshold else status != "LOW_STOCK"
  }

  function KeyAt(low: LowStock, item: SaleItem, i: nat): string
    requires i < |item.urls|
  {
    KeyOf(item.productId, Suffix(item), Slots(low, item)[i])
  }

  predicate HasCodedUrl(item: SaleItem) {
    exists i :: 0 <= i < |item.urls| && CodedAt(item, i)
  }

  lemma SellableCounts(low: LowStock, item: SaleItem, i: nat)
    requires low.suppress && i < |item.urls|
    ensures Sellable(low, item, i) <==> Slots(low, item)[i].Counts()
    ensures CodedAt(item, i) <==> Slots(low, item)[i].Coded()
  {
    LowStockInNumbers(item.QuantityAt(i), item.StatusAt(i), low.threshold);
  }

  lemma CodedIff(low: LowStock, item: SaleItem)
    ensures AnyCoded(Slots(low, item)) <==> HasCodedUrl(item)
  {
    var slots := Slots(low, item);
    AnyCodedIff(slots);
    assert forall i :: 0 <= i < |item.urls| ==> (CodedAt(item, i) <==> slots[i].Coded());
  }

  /** The keys of an item with coded URLs, under suppression. */
  lemma SuppressedKeys(low: LowStock, item: SaleItem, key: string)
    requires low.suppress && HasCodedUrl(item)
    ensures key in VariantKeys(low, item) <==> exists i :: Sellable(low, item, i) && KeyAt(low, item, i) == key
  {
    var slots := Slots(low, item);
    CodedIff(low, item);
    KeysOfMembers(item.productId, Suffix(item), slots, key);
    if i :| 0 <= i < |slots| && slots[i].Counts() && KeyOf(item.productId, Suffix(item), slots[i]) == key {
      SellableCounts(low, item, i);
    }
    if i :| Sellable(low, item, i) && KeyAt(low, item, i) == key {
      SellableCounts(low, item, i);
      assert slots[i].Counts();
    }
  }

  /** Without suppression every coded variant gives its key, whatever its stock;
      an item without coded URLs gives the key of the product. */
  lemma PlainKeys(low: LowStock, item: SaleItem, key: string)
    ensures !low.suppress && HasCodedUrl(item) ==>
              (key in VariantKeys(low, item) <==>
               exists i :: 0 <= i < |item.urls| && CodedAt(item, i) && KeyAt(low, item, i) == key)
    ensures !HasCodedUrl(item) ==> VariantKeys(low, item) == {ItemKey(item.productId, Suffix(item))}
  {
    var slots := Slots(low, item);
    CodedIff(low, item);
    if !low.suppress {
      KeysOfMembers(item.productId, Suffix(item), slots, key);
      assert forall i :: 0 <= i < |item.urls| ==> (slots[i].Counts() <==> CodedAt(item, i));
      if i :| 0 <= i < |item.urls| && CodedAt(item, i) && KeyAt(low, item, i) == key {
        assert slots[i].Counts();
      }
    }
  }

  /** With suppression on, an item with coded URLs is reported exactly when some
      variant is not low now and its key is not among those compared with. */
  lemma LowStockLaw(s: Settings, st: State, items: seq<SaleItem>, now: int, item: SaleItem)
    requires s.low.suppress && item in items && HasCodedUrl(item)
    ensures item in Step(s, st, Check(items, now, false)).1.newDeals
            <==> exists i :: Sellable(s.low, item, i) && KeyAt(s.low, item, i) !in Baseline(s, st)
  {
    var seen := Baseline(s, st);
    var unseen := VariantKeys(s.low, item) - seen;
    NewDealsMembers(s.low, items, seen);
    if unseen != {} {
      var key :| key in unseen;
      SuppressedKeys(s.low, item, key);
    }
    if i :| Sellable(s.low, item, i) && KeyAt(s.low, item, i) !in seen {
      SuppressedKeys(s.low, item, KeyAt(s.low, item, i));
      assert KeyAt(s.low, item, i) in unseen;
    }
  }

  /** Over every run in every mode: an item with coded URLs is reported exactly
      when some variant is not low now and its key is not in what the check
      compares with. */
  lemma LowStockLawOverRuns(s: Settings, st0: State, evs: seq<Event>, i: nat, item: SaleItem)
    requires s.low.suppress && i < |evs| && evs[i].Check? && !evs[i].saveFails
    requires item in evs[i].items && HasCodedUrl(item)
    ensures item in OutputAt(s, st0, evs, i).newDeals
            <==> exists k :: Sellable(s.low, item, k) && KeyAt(s.low, item, k) !in Compared(s, st0, evs[..i])
  {
    ComparesWith(s, st0, evs[..i]);
    LowStockLaw(s, After(s, st0, evs[..i]), evs[i].items, evs[i].now, item);
  }

  lemma CalmSaves(evs: seq<Event>, i: nat)
    requires Calm(evs) && i < |evs| && evs[i].Check?
    ensures !evs[i].saveFails
  {
    CalmPrefix(evs, i + 1);
    assert evs[..i + 1][i] == evs[i];
  }

  /** Over a calm `new_deals` run the comparison is with the variants that were
      not low in the check before. */
  lemma LowStockLawInCalmRuns(s: Settings, st0: State, evs: seq<Event>, i: nat, item: SaleItem)
    requires s.mode.NewDealsMode? && s.low.suppress && st0.seen == None && Calm(evs)
    requires i < |evs| && evs[i].Check? && item in evs[i].items && HasCodedUrl(item)
    requires LastKeys(s.low, evs[..i]).Some?
    ensures !evs[i].saveFails
    ensures item in OutputAt(s, st0, evs, i).newDeals
            <==> exists k :: Sellable(s.low, item, k) && KeyAt(s.low, item, k) !in LastKeys(s.low, evs[..i]).value
  {
    CalmSaves(evs, i);
    ComparesWithLastCheck(s, st0, evs, i);
    LowStockLaw(s, After(s, st0, evs[..i]), evs[i].items, evs[i].now, item);
  }

  /** An item whose variants are all low is never reported, in any run. */
  lemma AllLowIsNeverReported(s: Settings, st0: State, evs: seq<Event>, i: nat, item: SaleItem)
    requires s.low.suppress && i < |evs| && evs[i].Check? && !evs[i].saveFails
    requires item in evs[i].items && HasCodedUrl(item) && forall k :: !Sellable(s.low, item, k)
    ensures item !in OutputAt(s, st0, evs, i).newDeals
  {
    LowStockLaw(s, After(s, st0, evs[..i]), evs[i].items, evs[i].now, item);
  }

  // ------------------------------------------------ climbing back

  /** Every variant of the items that prints the key is low. Ids of products
      without coded URLs hold no colon, so that their keys look otherwise. */
  ghost predicate KeyIsLow(low: LowStock, items: seq<SaleItem>, key: string) {
    forall item :: item in items ==>
      && (forall k :: Sellable(low, item, k) ==> KeyAt(low, item, k) != key)
      && (HasCodedUrl(item) || NoColon(item.productId))
  }

  /** A variant's key never looks like the key of a product without codes. */
  lemma KeysLookDifferent(id: string, suffix: string, other: string, color: string, size: string, suffix': string)
    requires NoColon(id) && NoColon(suffix)
    ensures ItemKey(id, suffix) != VariantKey(other, color, size, suffix')
  {
    SplitTwo(id, suffix);
    RegroupKey(other, color, size, suffix');
    SplitOfConcat(size, ':', suffix');
    SplitOfConcat(color, ':', size + ":" + suffix');
    SplitOfConcat(other, ':', color + ":" + (size + ":" + suffix'));
  }

  /** A key all of whose variants are low is no key of the check. */
  lemma LowKeyIsAbsent(low: LowStock, items: seq<SaleItem>, item: SaleItem, k: nat)
    requires low.suppress && k < |item.urls| && KeyIsLow(low, items, KeyAt(low, item, k))
    ensures KeyAt(low, item, k) !in AllKeys(low, items)
  {
    var key := KeyAt(low, item, k);
    AllKeysMembers(low, items);
    forall other | other in items ensures key !in VariantKeys(low, other) {
      if HasCodedUrl(other) {
        SuppressedKeys(low, other, key);
      } else {
        CodedIff(low, other);
        SuffixReads(other);
        var codes := Slots(low, item)[k].codes;
        KeysLookDifferent(other.productId, Suffix(other), item.productId, codes.color, codes.size, Suffix(item));
      }
    }
  }

  /** The event is no check with the key, and no restart that could bring it
      back from a table that the save of check `i` did not reach. */
  predicate KeepsAway(s: Settings, saved: bool, ev: Event, key: string) {
    && (ev.Check? ==> Lacks(s.low, ev, key))
    && (ev.Restart? ==> saved || !s.mode.NewDealsMode?)
  }

  lemma {:induction false} AbsentKeyStaysAway(s: Settings, st0: State, evs: seq<Event>, i: nat, j: nat, key: string)
    requires i < j <= |evs| && evs[i].Check?
    requires forall m :: i <= m < j ==> KeepsAway(s, !evs[i].saveFails, evs[m], key)
    ensures var memory, last := Remembered(s.low, st0.seen, evs[..j]), LastSave(s.low, evs[..j]);
            && (memory.Some? ==> key !in memory.value)
            && (memory.None? ==> !evs[i].saveFails || !s.mode.NewDealsMode?)
            && (!evs[i].saveFails ==> last.Some? && key !in last.value.0)
    decreases j
  {
    assert evs[..j][..j - 1] == evs[..j - 1] && evs[..j][j - 1] == evs[j - 1];
    assert KeepsAway(s, !evs[i].saveFails, evs[j - 1], key);
    if j > i + 1 {
      AbsentKeyStaysAway(s, st0, evs, i, j - 1, key);
    }
  }

  /** Climbing above the threshold reports once, over every run. At check `i`
      all variants with the key are low, and so they are in every check until
      check `j`, where slot `k` of the item is not: the key is fresh at none of
      the checks before `j`; at `j` it is, and the item is reported if the save
      succeeds; and it is not fresh again until after a check without it, or a
      restart. */
  lemma ClimbReportsOnce(s: Settings, st0: State, evs: seq<Event>, i: nat, j: nat, item: SaleItem, k: nat)
    requires s.low.suppress && i < j < |evs| && evs[i].Check? && evs[j].Check?
    requires item in evs[j].items && Sellable(s.low, item, k)
    requires forall m :: i <= m < j && evs[m].Check? ==> KeyIsLow(s.low, evs[m].items, KeyAt(s.low, item, k))
    requires s.mode.NewDealsMode? && evs[i].saveFails ==> forall m :: i < m < j ==> !evs[m].Restart?
    ensures var key := KeyAt(s.low, item, k);
            && (forall m :: i <= m < j ==> !FreshAt(s, st0, evs, m, key))
            && FreshAt(s, st0, evs, j, key)
            && (!evs[j].saveFails ==> item in OutputAt(s, st0, evs, j).newDeals)
            && (forall n :: j < n < |evs| && FreshAt(s, st0, evs, n, key)
                  ==> exists m :: j < m < n && (evs[m].Restart? || Lacks(s.low, evs[m], key)))
  {
    var key := KeyAt(s.low, item, k);
    forall m | i <= m < j ensures KeepsAway(s, !evs[i].saveFails, evs[m], key) && !FreshAt(s, st0, evs, m, key) {
      if evs[m].Check? {
        LowKeyIsAbsent(s.low, evs[m].items, item, k);
      }
    }
    AbsentKeyStaysAway(s, st0, evs, i, j, key);
    SellableKeyIsFresh(s, st0, evs, j, item, k);
    forall n | j < n < |evs| && FreshAt(s, st0, evs, n, key)
      ensures exists m :: j < m < n && (evs[m].Restart? || Lacks(s.low, evs[m], key))
    {
      OncePerAppearance(s, st0, evs, j, n, key);
    }
  }

  /** The climb in quantities: from check `i` on every variant with the key has
      between 1 and `t` pieces, at check `j` slot `k` has more than `t`. */
  lemma ClimbOfQuantities(s: Settings, st0: State, evs: seq<Event>, i: nat, j: nat, item: SaleItem, k: nat)
    requires s.low.suppress && s.low.threshold > 0 && i < j < |evs| && evs[i].Check? && evs[j].Check?
    requires item in evs[j].items && CodedAt(item, k) && k < |item.quantities| && item.quantities[k] > s.low.threshold
    requires forall m :: i <= m < j && evs[m].Check? ==>
               QuantitiesUpTo(s.low, evs[m].items, KeyAt(s.low, item, k), s.low.threshold)
    requires s.mode.NewDealsMode? && evs[i].saveFails ==> forall m :: i < m < j ==> !evs[m].Restart?
    ensures var key := KeyAt(s.low, item, k);
            && (forall m :: i <= m < j ==> !FreshAt(s, st0, evs, m, key))
            && FreshAt(s, st0, evs, j, key)
            && (!evs[j].saveFails ==> item in OutputAt(s, st0, evs, j).newDeals)
            && (forall n :: j < n < |evs| && FreshAt(s, st0, evs, n, key)
                  ==> exists m :: j < m < n && (evs[m].Restart? || Lacks(s.low, evs[m], key)))
  {
    forall m | i <= m < j && evs[m].Check? ensures KeyIsLow(s.low, evs[m].items, KeyAt(s.low, item, k)) {
      assert QuantitiesUpTo(s.low, evs[m].items, KeyAt(s.low, item, k), s.low.threshold);
    }
    ClimbReportsOnce(s, st0, evs, i, j, item, k);
  }

  /** Every variant of the items that prints the key has 1 to `t` pieces. */
  ghost predicate QuantitiesUpTo(low: LowStock, items: seq<SaleItem>, key: string, t: nat) {
    forall item :: item in items ==>
      && (forall k :: CodedAt(item, k) && KeyAt(low, item, k) == key ==>
            k < |item.quantities| && 1 <= item.quantities[k] <= t)
      && (HasCodedUrl(item) || NoColon(item.productId))
  }

  lemma SellableKeyIsFresh(s: Settings, st0: State, evs: seq<Event>, j: nat, item: SaleItem, k: nat)
    requires s.low.suppress && j < |evs| && evs[j].Check? && item in evs[j].items && Sellable(s.low, item, k)
    requires KeyAt(s.low, item, k) !in Compared(s, st0, evs[..j])
    ensures FreshAt(s, st0, evs, j, KeyAt(s.low, item, k))
    ensures !evs[j].saveFails ==> item in OutputAt(s, st0, evs, j).newDeals
  {
    var key := KeyAt(s.low, item, k);
    assert HasCodedUrl(item);
    SuppressedKeys(s.low, item, key);
    AllKeysMembers(s.low, evs[j].items);
    ComparesWith(s, st0, evs[..j]);
    if !evs[j].saveFails {
      ReportedHasFreshKey(s, st0, evs, j, item);
    }
  }
}
