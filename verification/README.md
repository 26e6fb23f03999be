# Uniqlo sales alerter: a verified model

A Dafny model of the sale-check engine and of the transformations it rests on,
with proofs. `dafny verify dfyconfig.toml` checks it.

- **Runs.** A sale check is a step of a state machine over a set in memory and a
  durable table; restarts, prunes, failing saves and failing fetches are steps
  too. The theorems are about all runs: restarts are invisible, one alert per
  appearance, low stock, conservation of deep discounts, and when a periodic
  check may start.
- **Matching.** The legacy single filter, the multi-filter matcher, the migration
  from one to the other, the overlay of watched variants and the verification
  against stock.
- **Text.** Signed action URLs, product-page URLs, variant keys, size tokens and
  pasted invoices. Percent-encoding follows sections 2.1 and 2.3 of RFC 3986,
  form decoding section 5.1 of the WHATWG URL Standard; the keyed hash of section
  2 of RFC 2104 is an arbitrary function.
- **Folds.** Configuration merge with environment overrides, pagination and
  merge of the sale sources, the heatmap, and the watch list.

Objects that change state are classes with `modifies` clauses, loops are loops
with invariants, and each such method is proved equal to a specification
function; the laws are lemmas about those functions. `Text`, `FlatMaps` and
`IdLists` are helpers. Discounts are whole tenths of a percent, prices minor
currency units, times whole microseconds (minutes and hours are derived), tables
are maps, and what a server, a database or a clock answers is an input.

## Where the code and its documentation differ

The model follows the code.

- `services/sale_checker.py:106` says that in `every_check` mode the seen set is
  always empty and every match is a new deal. It fails twice. The set is empty
  only at process start, so the second identical check has no new deal
  (`RunLaws.RepeatedCheck`); in general every match is new exactly when every
  match has an unseen key (`RunLaws.AllAreNewIff`). And even with the empty set a
  match all of whose variants are low under suppression has no key and is not new
  (`RunLaws.EveryMatchIsNewIff`). `main.py:155-158` makes up for both by
  dispatching every match.
- `models/products.py:23-40` says unknown stock is never low. It is low for the
  status LOW_STOCK when the threshold is 0 (`Products.UnknownStockIsLowIff`).
- A configuration whose filter has the default shape is not migrated, so its
  filter stops reporting (`BridgeMigration.MigrationPreservesMeaningIff`).
- Snoozing a filter can lengthen a deal's size list
  (`MatchingLaws.SnoozeGrowsSizesIff`, `Counterexamples.SnoozingAddsASize`), and
  tags can outlive the sizes that earned them (`StockLaws.TagOutlivesSizesUnless`,
  `Counterexamples.TagOutlivesItsSize`).
- A failed save loses its alerts until the next restart
  (`RunLaws.FailedSaveLosesAlerts`).
- `parsers/size.py:7` says inch sizes are even and `parsers/size.py:9` limits
  kids sizes; the code checks neither parity (`Sizes.InchReads`) nor the range in
  the years pattern (`Sizes.YearsHaveNoRangeCheck`).
- `verify_action` promises its own error for a bad signature. It raises others in
  two cases (`ActionUrls.ForeignErrorIff`): for an `exp` that no date can hold,
  before it looks at the signature (`ActionUrls.OutOfRangeIff`,
  `ActionUrls.ForgedExpiryRaises`), and for a signature that is not ASCII, which
  the digest comparison refuses (`ActionUrls.AccentedSignatureRaises`).
- When the URL names another product than the request, watching is not idempotent
  (`WatchList.WatchTwiceIff`, `Counterexamples.WatchingTwiceAddsTwice`) and
  unwatching does not undo it; nor does unwatching without codes, which removes
  every variant of the product (`WatchList.WatchThenUnwatchIff`,
  `Counterexamples.UnwatchingMissesTheWrongPage`,
  `Counterexamples.UnwatchingTakesOthersAlong`).
- When a history write fails and the observation write does not, or the other way
  round, the two counts of deep discounts part (`Monitor.CheckKeepsBalanceIff`,
  `Counterexamples.CountsPart`).

## Model

| member | source | states |
|---|---|---|
| `SaleChecks.SaleChecker.EnsureLoaded` | src/uniqlo_sales_alerter/services/sale_checker.py:107-111 | the first check compares with the table's keys in `new_deals` mode and with nothing in the others; later checks keep what is in memory |
| `SaleChecks.CollectKeys` | src/uniqlo_sales_alerter/services/sale_checker.py:113-115 | the loop collects exactly the keys of all matched items |
| `SaleChecks.SaleChecker.Check` | src/uniqlo_sales_alerter/services/sale_checker.py:107-132 | one check is one step of the state machine, with the result it returns; a failing save leaves memory moved, the table and the last result as they were |
| `SaleChecks.AllKeysMembers` | src/uniqlo_sales_alerter/services/sale_checker.py:113-115 | the next seen set holds exactly the keys of the matched items |
| `SaleChecks.NewDealsMembers` | src/uniqlo_sales_alerter/services/sale_checker.py:117-120 | the new deals are exactly the matched items with a key that was not seen |
| `RunLaws.CalmRunSettles` | src/uniqlo_sales_alerter/services/sale_checker.py:129-130 | invariant of every run whose saves succeed and whose prunes come at most 365 days after a check: memory, once loaded, and the table hold the keys of the last check, all rows stamped with its time, so a prune takes every row or none |
| `RunLaws.SameTables` | src/uniqlo_sales_alerter/services/sale_checker.py:107-130 | with and without its restarts such a run keeps one table and the next check compares with one set |
| `RunLaws.RestartTransparency` | src/uniqlo_sales_alerter/services/sale_checker.py:101-132 | in `new_deals` mode restarts and reloads put anywhere into such a run change no output of any other event |
| `RunLaws.RestartInvisibleIff` | src/uniqlo_sales_alerter/services/sale_checker.py:107-130 | in any state and mode, a restart changes no possible next check if and only if memory equals what a fresh process would load (the table's keys, or nothing) |
| `RunLaws.KeysAreRealizable` | src/uniqlo_sales_alerter/services/state.py:121-146 | each key of an item is the only key of some item, so the quantification over next checks above reaches every key |
| `RunLaws.RunsAreRealizable` | src/uniqlo_sales_alerter/services/sale_checker.py:107-130 | so it is for every key in memory and in the table after any run that starts so, or that ends with a successful check |
| `RunLaws.ReportedHasFreshKey` | src/uniqlo_sales_alerter/services/sale_checker.py:117-120 | in a successful check an item is a new deal exactly when one of its keys is fresh at that event of the run |
| `RunLaws.OncePerAppearance` | src/uniqlo_sales_alerter/services/sale_checker.py:113-130 | in every mode and every run, failing saves included, two alerts for one key have a check without the key or a restart between them |
| `RunLaws.OncePerAppearanceAcrossRestarts` | src/uniqlo_sales_alerter/services/sale_checker.py:107-130 | in a calm `new_deals` run two alerts for one key have a check without the key between them, restarts or not |
| `RunLaws.ComparesWith` | src/uniqlo_sales_alerter/services/sale_checker.py:107-130 | in every mode and every run, failing saves, restarts and prunes included, a check compares with the keys of the check before it in its process; the first check of a process compares, in `new_deals` mode, with what the last successful save left in the table, less stale prunes, and with nothing in the other modes |
| `RunLaws.FreshIff` | src/uniqlo_sales_alerter/services/sale_checker.py:113-130 | in every mode and every run a key is fresh exactly when the check has it and that set does not: the first check of each stretch alerts |
| `RunLaws.FreshInCalmRunIff` | src/uniqlo_sales_alerter/services/sale_checker.py:107-130 | in a calm `new_deals` run, across restarts, a key is fresh exactly when this check has it and the check before did not |
| `RunLaws.RepeatedCheck` | src/uniqlo_sales_alerter/main.py:155-160 | a repeated identical check finds no new deal in any mode, and dispatches nothing except in `every_check` mode, which dispatches every match |
| `RunLaws.FailedSaveLosesAlerts` | src/uniqlo_sales_alerter/services/sale_checker.py:129-130 | memory moves before the save, in every mode: after a failed save the identical check reports nothing, and after a restart the state is as if the failed check had not been |
| `RunLaws.AllAreNewIff` | src/uniqlo_sales_alerter/services/sale_checker.py:117-120 | a check reports every match as new exactly when every match has a key it does not compare with |
| `RunLaws.EveryMatchIsNewIff` | src/uniqlo_sales_alerter/services/sale_checker.py:106-111 | with the empty seen set, every match is new if and only if no match has coded URLs all of which are low under suppression |
| `RunLaws.LowStockLaw` | src/uniqlo_sales_alerter/services/state.py:129-146 | with suppression on and threshold t, an item with coded URLs is new exactly when some coded slot whose key was not seen has a quantity above t or of 0 or less (t > 0), or a status other than LOW_STOCK (t = 0) |
| `RunLaws.LowStockLawOverRuns` | src/uniqlo_sales_alerter/services/state.py:121-146 | over every run in every mode: the same in quantities and statuses, with a key that is not in what the check compares with |
| `RunLaws.LowStockLawInCalmRuns` | src/uniqlo_sales_alerter/services/state.py:121-146 | over a calm `new_deals` run: exactly when some variant is not low now and was not among the non-low variants of the check before |
| `RunLaws.AllLowIsNeverReported` | src/uniqlo_sales_alerter/services/state.py:138-141 | an item with coded URLs whose variants are all low is never a new deal, in any run and mode |
| `RunLaws.ClimbReportsOnce` | src/uniqlo_sales_alerter/services/state.py:121-146 | over every run: while no slot with a key sells, in stock numbers, the key is fresh at no check; at the first check where one does, it is and the item is reported; and it is not fresh again until after a check without it or a restart |
| `RunLaws.ClimbOfQuantities` | src/uniqlo_sales_alerter/services/state.py:121-146 | the same climb for a positive threshold t: from checks where each slot of the key has a quantity from 1 to t to a check where a slot has more than t |
| `RunLaws.PlainKeys` | src/uniqlo_sales_alerter/services/state.py:129-146 | without suppression every coded slot gives its key, whatever its stock; an item without coded URLs gives the key of the product |
| `SeenVariants.ComputeVariantKeys` | src/uniqlo_sales_alerter/services/state.py:121-146 | the loop with its flag gives the keys of the coded slots that are not suppressed, or the one product key when no slot is coded |
| `SeenVariants.KeysOfMembers` | src/uniqlo_sales_alerter/services/state.py:134-143 | a key is in the set exactly when some coded, unsuppressed slot prints it |
| `SeenVariants.AnyCodedIff` | src/uniqlo_sales_alerter/services/state.py:133-145 | the flag is up exactly when some URL carries both codes, low or not |
| `SeenVariants.KeyRoundTrip` | src/uniqlo_sales_alerter/services/state.py:27-49 | parsing a printed key gives back id, colour, size and known discount, in both shapes, for components without a colon |
| `SeenVariants.SameKeyIff` | src/uniqlo_sales_alerter/services/state.py:132-146 | two variants share a key if and only if id, codes and known discount tenth agree, for components without a colon |
| `SeenVariants.TenthsTextIsShort` | src/uniqlo_sales_alerter/services/state.py:132-132 | a whole percentage is printed without a point, any other with a last digit other than zero |
| `SeenVariants.SavedRowIs` | src/uniqlo_sales_alerter/services/state.py:88-118 | a saved row has the discount of its key and the time of the save, and keeps the other columns of the row that was there |
| `SeenVariants.PrunedIs` | src/uniqlo_sales_alerter/services/state.py:157-167 | a prune keeps exactly the rows at most 365 days old, as they are |
| `SeenVariants.SeenVariantStore.Save` | src/uniqlo_sales_alerter/services/state.py:78-119 | one transaction: the table holds exactly the given keys, all stamped now, kept rows keep their product columns; a failure changes nothing |
| `SeenVariants.SaveKeepsConsistent` | src/uniqlo_sales_alerter/services/state.py:88-118 | invariant: every row's columns are what its key says, because the upsert leaves exactly those columns alone that the key determines |
| `SeenVariants.SeenVariantStore.PruneOlderThanAYear` | src/uniqlo_sales_alerter/services/state.py:157-167 | removes exactly the rows older than 365 days and counts them |
| `Matching.Matcher.MatchesAvailability` | src/uniqlo_sales_alerter/services/matcher.py:38-69 | the three modes; on an unreliable store flag every mode passes, and `in_store` warns once per country |
| `Matching.Matcher.TryFilters` | src/uniqlo_sales_alerter/services/matcher.py:173-203 | the inner loop returns the matching filters in order, the union of the sizes they name, and warns exactly if some filter fell back |
| `Matching.Matcher.TryProduct` | src/uniqlo_sales_alerter/services/matcher.py:147-217 | one product gives at most one item: the watched one, the tagged one, or none |
| `Matching.Matcher.TryProducts` | src/uniqlo_sales_alerter/services/matcher.py:146-217 | the outer loop collects them in catalogue order and warns exactly if some considered product fell back |
| `Matching.Matcher.Apply` | src/uniqlo_sales_alerter/services/matcher.py:123-220 | the loops, the in-place sort and the warning state refine the declarative pass; the feed defaults to the products' own ids |
| `Matching.TriedAll` | src/uniqlo_sales_alerter/services/matcher.py:102-113 | the running results over the active rows in id order are the ordered set of all matching active filters and the union of their sizes |
| `MatchingLaws.ReportsIff` | src/uniqlo_sales_alerter/services/matcher.py:148-206 | a product is reported exactly when it is watched, or is not ignored and some enabled filter that is not snoozed matches it |
| `MatchingLaws.ResultIsStableSelection` | src/uniqlo_sales_alerter/services/matcher.py:148-220 | the result is descending by discount, stable, and has one item for each such product in catalogue order |
| `MatchingLaws.TaggedExactly` | src/uniqlo_sales_alerter/services/matcher.py:160-217 | a watched item has no tag; any other has exactly its matching active ids, increasing, and at least one |
| `MatchingLaws.SizeUnionLaw` | src/uniqlo_sales_alerter/services/matcher.py:203-215 | an unwatched deal lists, in product order, exactly the product's sizes that some matched filter names, or all of them when no matched filter names any |
| `MatchingLaws.MatchedFilterKeepsASize` | src/uniqlo_sales_alerter/services/matcher.py:202-214 | before stock verification each matched filter that names sizes has one of them listed |
| `MatchingLaws.ListedSizeIsNamed` | src/uniqlo_sales_alerter/services/matcher.py:202-214 | when all matched filters name sizes, every listed size is one of theirs |
| `MatchingLaws.SnoozeLaw` | src/uniqlo_sales_alerter/services/matcher.py:102-113 | snoozing one filter removes exactly the deals only it tagged, strips its id from the others and keeps the order, for every catalogue |
| `MatchingLaws.SnoozeGrowsSizesIff` | src/uniqlo_sales_alerter/services/matcher.py:203-203 | snoozing makes a deal list a size it did not list exactly when the remaining matched filters name no sizes and some product size was unlisted |
| `FilterLaws.TakesIff` | src/uniqlo_sales_alerter/services/matcher.py:173-200 | a saved filter takes a product exactly when no keyword of it that is not blank is in the name in any case, the gender is UNISEX or one of its genders if it has any, the discount is unknown or at least the minimum, some size is one of its sizes or ONE SIZE if it asks for any, and the store flag fits its mode |
| `FilterLaws.ReportedIff` | src/uniqlo_sales_alerter/services/matcher.py:148-206 | the same for the whole pass, by the fields of configuration and rows: reported exactly when a watched id is a prefix of the id in any case, or no ignored id or keyword applies and some enabled row, not snoozed, takes it |
| `FilterLaws.LegacyReportedIff` | src/uniqlo_sales_alerter/services/filters.py:229-282 | the legacy engine by the fields of its configuration |
| `FilterLaws.TagsKeepAvailability` | src/uniqlo_sales_alerter/services/matcher.py:58-69 | with a reliable store flag a deal tagged by an `online` row comes from a product that is not store-only, one tagged by an `in_store` row from one that is |
| `FilterLaws.ModesSplitBoth` | src/uniqlo_sales_alerter/services/matcher.py:58-69 | with a reliable flag a product that the row takes in `both` mode is taken in `online` mode exactly when it is not store-only, and in `in_store` mode exactly when it is |
| `FilterLaws.UnreliableFlagIgnoresModes` | src/uniqlo_sales_alerter/services/matcher.py:58-63 | without one, tables that differ in modes only give the same deals with the same tags, for every catalogue |
| `FilterLaws.DealFields` | src/uniqlo_sales_alerter/services/filters.py:199-221 | what a deal says of its product: prices, discount, and a known discount exactly for a promo price below the base price or a product outside the feed |
| `FilterLaws.KnownDiscountIff` | src/uniqlo_sales_alerter/services/matcher.py:142-154 | with no feed given every product of the pass counts as in the feed |
| `FilterLaws.WatchedSizes` | src/uniqlo_sales_alerter/services/matcher.py:155-170 | the matcher lists all sizes of a watched product first, the legacy engine those it is configured for |
| `Counterexamples.SnoozingAddsASize` | src/uniqlo_sales_alerter/services/matcher.py:173-203 | a filter for M and one for any size: a shirt in S and M is listed in M, and after snoozing the first filter in both |
| `Sorting.SortIsStable` | src/uniqlo_sales_alerter/services/matcher.py:219-219 | the sort is descending, keeps the members, and keeps the order among equal discounts |
| `Sorting.SortIsUnique` | src/uniqlo_sales_alerter/services/filters.py:285-291 | descending order and stability determine the list |
| `Sorting.SortOfRewrite` | src/uniqlo_sales_alerter/services/matcher.py:219-219 | sorting commutes with dropping or rewriting elements that keep their discount |
| `LegacyEngine.IndexWatched` | src/uniqlo_sales_alerter/services/sale_checker.py:200-207 | the index maps each upper-case id to its variants in order |
| `LegacyEngine.ApplyFilters` | src/uniqlo_sales_alerter/services/filters.py:229-291 | the legacy loop and sort refine the declarative legacy pass |
| `BridgeMigration.LegacyIsDefaultIff` | src/uniqlo_sales_alerter/services/bridge_migration.py:34-60 | the default values field by field: the genders men and women in either order and any case, 50 percent, no sizes, no one size, no keywords |
| `BridgeMigration.SeedsNothingIff` | src/uniqlo_sales_alerter/services/bridge_migration.py:78-108 | without a marker an empty table stays empty exactly for those values, and else gets the imported row; any other table stays as it is; the marker is set in any case |
| `BridgeMigration.ImportedRowIs` | src/uniqlo_sales_alerter/services/bridge_migration.py:63-75 | the imported row is active at any time, has the genders in lower case and takes over the rest |
| `BridgeMigration.Database.EnsureBridgeMigration` | src/uniqlo_sales_alerter/services/bridge_migration.py:78-108 | seeds exactly when the marker is missing, the table is empty and the legacy filter is not default-shaped; always leaves the marker |
| `BridgeMigration.MigratesOnce` | src/uniqlo_sales_alerter/services/bridge_migration.py:78-108 | after a migration no later one changes anything, whatever happens to the rows and the configuration |
| `BridgeMigration.ImportedRowAgrees` | src/uniqlo_sales_alerter/services/bridge_migration.py:63-75 | the imported row asks of a product that is not excluded what the legacy filter asked, and names the same sizes |
| `BridgeMigration.SeededMatcherAgrees` | src/uniqlo_sales_alerter/services/bridge_migration.py:63-75 | for every catalogue the matcher with only the seeded row returns the legacy deals in the legacy order: unwatched ones equal up to the tag, watched ones up to sizes, URLs and colours |
| `BridgeMigration.MigrationPreservesMeaningIff` | src/uniqlo_sales_alerter/services/bridge_migration.py:78-108 | migrating a fresh installation preserves the meaning for every catalogue if and only if some field differs from the default values, or an empty id watches or ignores everything |
| `WatchedProducts.IncludeWatched` | src/uniqlo_sales_alerter/services/sale_checker.py:174-197 | the feed, followed by what the client answers to the ids of the watched products the feed lacks; no request when none is missing |
| `WatchedProducts.AsksForTheMissing` | src/uniqlo_sales_alerter/services/sale_checker.py:182-190 | an id is requested exactly when a watched variant spells it so and the feed has no product of that id in any case |
| `WatchedProducts.WatchIsReportedIff` | src/uniqlo_sales_alerter/services/sale_checker.py:88-98 | from configuration to matcher result: a watched variant's product is reported as watched exactly when the feed has it or the client answers with it, whatever the saved filters, ignored ids and keywords are |
| `WatchedProducts.ExtrasAreNotInFeed` | src/uniqlo_sales_alerter/services/sale_checker.py:182-197 | a client that answers no more than it is asked adds no product the feed already has |
| `Filters.Overlay` | src/uniqlo_sales_alerter/services/filters.py:174-198 | the in-place loop over the watched variants gives the three lists their specified slots |
| `Filters.ToSaleItem` | src/uniqlo_sales_alerter/services/filters.py:159-221 | the item is the specified one |
| `Filters.SaleItemIsAligned` | src/uniqlo_sales_alerter/services/filters.py:159-221 | sizes, URLs and colour names have one length, whatever the variants |
| `Filters.WatchedVariantIsShown` | src/uniqlo_sales_alerter/services/filters.py:174-198 | each watched variant whose size code names a product size has that size listed, and the last variant of a size gives it its URL and colour |
| `FilterLaws.NameOfCodeIs` | src/uniqlo_sales_alerter/services/filters.py:181-186 | a watched variant stands for the last product size with its display code |
| `LinkLaws.FreshSlotLink` | src/uniqlo_sales_alerter/services/filters.py:124-156 | the link of a slot no variant shows reads back as the product's id, its representative colour and the size's code |
| `LinkLaws.WatchedSlotLink` | src/uniqlo_sales_alerter/services/filters.py:174-198 | the link of a watched variant's slot reads back as the product's id and the variant's own codes |
| `LinkLaws.VariantsAreThoseOfTheId` | src/uniqlo_sales_alerter/services/matcher.py:150-156 | matcher and verifier find all configured variants with the product's id in any case, in order |
| `Stock.PickInStockVariant` | src/uniqlo_sales_alerter/services/stock.py:187-229 | the two loops return the specified pick |
| `Stock.PickedRow` | src/uniqlo_sales_alerter/services/stock.py:187-229 | a size is picked exactly when a row of it is in stock: the first row in the preferred colour if that is in stock, else the first row of the largest quantity |
| `Stock.PreferredColorMap` | src/uniqlo_sales_alerter/services/stock.py:144-160 | each size maps to the colour of the last watched variant for it |
| `Stock.RebuildFromL2` | src/uniqlo_sales_alerter/services/stock.py:232-283 | sizes stay, each slot takes URL and colour of the first row of its size, quantities are zero and statuses empty |
| `Stock.Verifier.VerifyOne` | src/uniqlo_sales_alerter/services/stock.py:84-142 | one deal against its rows and stock: unchanged without data, dropped without a size, otherwise the five lists rebuilt together |
| `Stock.Verifier.Verify` | src/uniqlo_sales_alerter/services/stock.py:44-78 | the batch in order, without the dropped deals; an error keeps the deal |
| `StockLaws.SurvivingSizes` | src/uniqlo_sales_alerter/services/stock.py:106-142 | when both answers arrive, exactly the sizes with an in-stock row survive, in order; the deal is dropped exactly when there are none; the five lists have one length |
| `StockLaws.SlotShowsPickedRow` | src/uniqlo_sales_alerter/services/stock.py:106-142 | each surviving slot shows URL, colour, quantity and status of one in-stock row: first in the preferred colour, else first of the largest quantity |
| `LinkLaws.VerifiedSlotLink` | src/uniqlo_sales_alerter/services/stock.py:106-142 | the link of each surviving slot reads back as the deal's id and the codes of one in-stock row of its size, without leading capitals in code style, whose colour name, quantity and status it shows |
| `LinkLaws.RebuiltSlotLink` | src/uniqlo_sales_alerter/services/stock.py:232-283 | so does the link of a rebuilt slot for the first row of its size; a size without a row has no link |
| `LinkLaws.InStockIff` | src/uniqlo_sales_alerter/services/stock.py:187-210 | a size is in stock exactly when a row of its name in any case has the status IN_STOCK or LOW_STOCK |
| `LinkLaws.PreferredColorIs` | src/uniqlo_sales_alerter/services/stock.py:144-160 | the preferred colour is that of the last watched variant with a colour whose size code names the size |
| `LinkLaws.RowSizeNameIs` | src/uniqlo_sales_alerter/services/stock.py:144-160 | a size code names the size of the last row with that display code |
| `StockLaws.NoDataKeepsDeal` | src/uniqlo_sales_alerter/services/stock.py:67-92 | an error, no rows, or no stock data from a reliable source leave a deal as it is |
| `StockLaws.BatchIsSelection` | src/uniqlo_sales_alerter/services/stock.py:44-78 | the output is an in-order selection of the input, and a kept deal changes in its five variant lists only |
| `StockLaws.DroppedIff` | src/uniqlo_sales_alerter/services/stock.py:44-142 | a deal is dropped exactly when rows and stock arrived, the API is reliable and no listed size is in stock |
| `StockLaws.UnreliableStockDropsNothing` | src/uniqlo_sales_alerter/services/stock.py:166-179 | with `stock_api` "none" no deal and no size is dropped, whatever the client answers |
| `StockLaws.OutcomeKeepsAlignment` | src/uniqlo_sales_alerter/services/stock.py:100-142 | the parallel lists stay parallel, and are five of one length unless the deal is unchanged |
| `StockLaws.TagOutlivesSizesUnless` | src/uniqlo_sales_alerter/services/stock.py:106-142 | tags stay as they are; a matched filter still has a listed size exactly when a listed size of it is in stock |
| `Counterexamples.TagOutlivesItsSize` | src/uniqlo_sales_alerter/services/stock.py:106-142 | filters for M and for S, and only S in stock: the shirt keeps the tag of the first and no size of it |
| `StockLaws.SomeFilterKeepsASize` | src/uniqlo_sales_alerter/services/stock.py:106-142 | when every matched filter names sizes, a surviving deal lists a size of one of them, whatever the client answers |
| `Products.RoundsToNearest` | src/uniqlo_sales_alerter/models/products.py:195-201 | the discount is the nearest tenth of a percent |
| `Products.DiscountRange` | src/uniqlo_sales_alerter/models/products.py:195-201 | a discount lies between 0 and 100.0 percent |
| `Products.PromoIsBaseLessDiscount` | src/uniqlo_sales_alerter/models/products.py:191-201 | a promo price below the base price is the base price less the discount, within half a tenth of a percent; otherwise there is no discount |
| `Products.LowStockInNumbers` | src/uniqlo_sales_alerter/models/products.py:23-40 | a positive threshold decides by the quantity alone, threshold 0 by the status alone |
| `Products.UnknownStockIsLowIff` | src/uniqlo_sales_alerter/models/products.py:23-40 | unknown stock is never low, as documented, if and only if the threshold is positive or the status is not LOW_STOCK |
| `ProductUrls.VariantCodesRoundTrip` | src/uniqlo_sales_alerter/models/products.py:65-127 | the codes a URL was printed from are read back; code style loses leading capitals |
| `ProductUrls.ProductUrlRoundTrip` | src/uniqlo_sales_alerter/config.py:206-246 | id, price group and codes of a printed page URL are read back; a missing price group reads as 00 |
| `ProductUrls.PrintedForm` | src/uniqlo_sales_alerter/models/products.py:94-127 | the literal form of a printed URL with both codes, in both styles |
| `ProductUrls.PagesAre` | src/uniqlo_sales_alerter/config.py:521-522 | the literal page base of a country |
| `ProductUrls.PrefixIsCapitals` | src/uniqlo_sales_alerter/models/products.py:65-91 | exactly the leading capitals of a code are dropped |
| `ProductUrls.DisplayCodesWin` | src/uniqlo_sales_alerter/models/products.py:65-91 | in a query with the parameters of both styles, in either order, a display code wins over the code |
| `UrlText.DecodeOfEncode` | src/uniqlo_sales_alerter/notifications/action_urls.py:32-35 | form decoding undoes percent-encoding on every byte text |
| `UrlText.EncodedForm` | src/uniqlo_sales_alerter/notifications/action_urls.py:32-35 | letters, digits and `-._~` stand for themselves, every other byte is `%` and two capital hexadecimal digits of its value |
| `UrlText.PlusIsBlank` | src/uniqlo_sales_alerter/api/routes.py:35-38 | a plus sign reads as a blank |
| `ActionUrls.ParseOfUrlEncode` | src/uniqlo_sales_alerter/notifications/action_urls.py:32-35 | form decoding an encoded query gives back all pairs, in order, blank values included |
| `ActionUrls.CanonicalIff` | src/uniqlo_sales_alerter/notifications/action_urls.py:32-35 | two parameter dicts have one canonical string if and only if they agree apart from `sig`, whatever their order |
| `ActionUrls.SignThenVerify` | src/uniqlo_sales_alerter/notifications/action_urls.py:44-139 | any signed URL, as the receiver reads it, verifies up to and including its whole-second expiry, yields the payload without `sig` and `exp`, and is expired afterwards |
| `ActionLinks.SignedPath` | src/uniqlo_sales_alerter/notifications/action_urls.py:72-79 | under a base URL with scheme and host the path of a signed URL splits into the base's segments, `actions`, the action and, if there is a path argument, one more segment that decodes to it |
| `ActionLinks.ExpiryIs` | src/uniqlo_sales_alerter/notifications/action_urls.py:63-64 | the expiry is the whole second in which the time to live ends, towards 1970 |
| `ActionLinks.NoLink` | src/uniqlo_sales_alerter/notifications/action_urls.py:60-61 | there is no link exactly without a base URL or a secret |
| `ActionLinks.VerifiedIff` | src/uniqlo_sales_alerter/notifications/action_urls.py:116-139 | a request verifies exactly when there is a secret, the signature is the keyed hash of the rest and `exp` is a date that has not passed |
| `ActionLinks.TrimmedIsPrefix` | src/uniqlo_sales_alerter/notifications/action_urls.py:79-79 | exactly the slashes at the end of the base URL go |
| `RequestLaws.OverflowIff` | src/uniqlo_sales_alerter/notifications/action_urls.py:63-64 | signing overflows exactly when the time to live ends before year 1 or after year 9999 of the Gregorian calendar |
| `RequestLaws.DatesAre` | src/uniqlo_sales_alerter/notifications/action_urls.py:130-130 | the seconds that are dates, from that calendar |
| `RequestLaws.ReadsAsInt` | src/uniqlo_sales_alerter/notifications/action_urls.py:125-125 | groups of digits between underscores, signed or not and among blanks, read as the number their digits spell |
| `RequestLaws.IntShape` | src/uniqlo_sales_alerter/notifications/action_urls.py:125-125 | and nothing else reads as a number |
| `RequestLaws.LastValueIsReceived` | src/uniqlo_sales_alerter/api/routes.py:35-38 | of a repeated parameter the last value is received, once |
| `RequestLaws.FirstPlaceIsReceived` | src/uniqlo_sales_alerter/api/routes.py:35-38 | in the place where its key first came |
| `ActionUrls.SignatureBinds` | src/uniqlo_sales_alerter/notifications/action_urls.py:102-139 | a request that verifies under a signature carries exactly the signed parameters, unless the keyed hash collides on the two canonical strings |
| `ActionUrls.OutOfRangeIff` | src/uniqlo_sales_alerter/notifications/action_urls.py:115-131 | verifying raises the date error exactly when there are a secret, any non-empty signature and a numeric `exp` that no date can hold; the signature is not looked at |
| `ActionUrls.ForeignErrorIff` | src/uniqlo_sales_alerter/notifications/action_urls.py:115-136 | verifying raises an error that is not one of its own if and only if there are a secret, a non-empty signature and a numeric `exp`, and either the `exp` is no date, or it is one that has not passed and the signature is not ASCII |
| `ActionUrls.ForgedExpiryRaises` | src/uniqlo_sales_alerter/notifications/action_urls.py:115-131 | an unsigned request with `exp` 999999999999 raises the date error, for every keyed hash, secret and time |
| `ActionUrls.AccentedSignatureRaises` | src/uniqlo_sales_alerter/notifications/action_urls.py:115-136 | an unsigned request with `exp` 253402300799 and `sig` %C3%A9 raises the error of the comparison, for every keyed hash, secret and time before that second |
| `ActionUrls.ParseIntOfDecimal` | src/uniqlo_sales_alerter/notifications/action_urls.py:123-126 | reading a printed expiry gives the number back, negative ones included |
| `ConfigTree.DeepMerge` | src/uniqlo_sales_alerter/config.py:140-148 | copying the base and visiting the override's keys in any order gives the recursive merge |
| `ConfigTree.OverrideWins` | src/uniqlo_sales_alerter/config.py:140-148 | a value of the override is found at its path after the merge |
| `ConfigTree.BaseSurvives` | src/uniqlo_sales_alerter/config.py:140-148 | a path that leaves the override at one of its dicts reads as before |
| `ConfigTree.MergeIsIdempotent` | src/uniqlo_sales_alerter/config.py:140-148 | merging the same override again changes nothing, for all trees |
| `ConfigTree.SetNestedSucceedsIff` | src/uniqlo_sales_alerter/config.py:118-122 | nested assignment fails exactly when a proper prefix of the path holds a value |
| `ConfigTree.SetNestedShapes` | src/uniqlo_sales_alerter/config.py:118-122 | it changes its path, its prefixes and its extensions, and nothing else |
| `ConfigTree.AssignedShapes` | src/uniqlo_sales_alerter/config.py:125-137 | prefix-free assignments all succeed and leave exactly the prescribed tree |
| `ConfigTree.OrderDoesNotMatter` | src/uniqlo_sales_alerter/config.py:125-137 | the tree is the same for every order of the assignments |
| `ConfigTree.OverrideLaw` | src/uniqlo_sales_alerter/config.py:671-674 | on any file: assigned paths hold their values, incomparable paths read as before, merging again changes nothing |
| `EnvMap.MapFinds` | src/uniqlo_sales_alerter/config.py:53-102 | one tree has every variable of the map, by name, at its path; so the map is prefix-free |
| `EnvMap.EnvMapIsPrefixFree` | src/uniqlo_sales_alerter/config.py:53-102 | comparable paths of a map that a tree finds belong to one variable |
| `EnvMap.OverridesArePrefixFree` | src/uniqlo_sales_alerter/config.py:125-137 | whatever variables are set, the assignments they make are prefix-free |
| `EnvMap.ConfigFromEnv` | src/uniqlo_sales_alerter/config.py:125-137 | the loop over the 39 variables never assigns through a value, and builds the tree of the set ones |
| `EnvMap.EnvironmentOverrides` | src/uniqlo_sales_alerter/config.py:645-676 | the override law for the real map, every environment, every file and every order of the map |
| `Catalogue.Paginate` | src/uniqlo_sales_alerter/clients/uniqlo.py:351-389 | the loop terminates for every server with bounded totals and returns the specified pages and requests |
| `Catalogue.PaginatesCatalogue` | src/uniqlo_sales_alerter/clients/uniqlo.py:351-389 | against a fixed catalogue of any size T it returns exactly the catalogue after max(1, ceil(T / 100)) requests |
| `Catalogue.FailedPageKeepsEarlierPages` | src/uniqlo_sales_alerter/clients/uniqlo.py:351-389 | a failed page yields exactly the earlier pages |
| `Catalogue.MergeSources` | src/uniqlo_sales_alerter/clients/uniqlo.py:266-284 | the nested loops return the merge of all batches and the per-label counts |
| `Catalogue.MergeCoversAllIds` | src/uniqlo_sales_alerter/clients/uniqlo.py:266-284 | the merged list covers exactly the ids seen |
| `Catalogue.MergedIdsAreUnique` | src/uniqlo_sales_alerter/clients/uniqlo.py:266-284 | no id comes twice |
| `Catalogue.KeepsFirstOccurrences` | src/uniqlo_sales_alerter/clients/uniqlo.py:266-284 | a product is kept, behind those before it, exactly when none before it has its id |
| `Catalogue.CountIsOfLastBatch` | src/uniqlo_sales_alerter/clients/uniqlo.py:266-284 | a label counts the new products of the last batch that carries it |
| `Catalogue.CountsAddUp` | src/uniqlo_sales_alerter/clients/uniqlo.py:266-284 | for distinct labels each label has its own batch's count and the counts sum to the merged length |
| `Monitor.QuietHoursOnTheCircle` | src/uniqlo_sales_alerter/main.py:124-137 | both branches equal the single modular test, midnight wrap and equal bounds included |
| `Monitor.AppState.RunSaleCheck` | src/uniqlo_sales_alerter/main.py:140-181 | one attempt moves checker, last-check time, history, observations and dispatches as recorded, for every combination of failing steps, and tells whether it raises |
| `Monitor.AppState.IntervalJob` | src/uniqlo_sales_alerter/main.py:187-203 | starts exactly outside quiet hours and at least 0.8 of the interval after the last check; otherwise nothing changes |
| `Monitor.CheckKeepsBalanceIff` | src/uniqlo_sales_alerter/main.py:169-181 | one check keeps deep history and deep observations in step if and only if both writes succeed or both fail, or it found no deep deal |
| `Monitor.DeepDiscountsAreConserved` | src/uniqlo_sales_alerter/main.py:65-108 | over any run with successful writes the two counts stay equal, failed checks and dispatches included |
| `Counterexamples.CountsPart` | src/uniqlo_sales_alerter/main.py:169-181 | one deep deal and a failing history write: an observation that the history does not count |
| `Monitor.PeriodicChecksKeepTheirDistance` | src/uniqlo_sales_alerter/main.py:184-206 | over any run with a clock that does not go back, no periodic check starts in quiet hours, nor within 0.8 of the interval after any earlier successful check, periodic or not, the last one before the run included |
| `Monitor.PeriodicStartsIff` | src/uniqlo_sales_alerter/main.py:187-203 | in any run a periodic job starts a check exactly outside quiet hours, if they are enabled, and at least 0.8 of the interval in minutes after the last check |
| `Monitor.SuccessIsRecorded` | src/uniqlo_sales_alerter/main.py:147-181 | in any run a check that returns notes its time, one history row, one observation per match with its discount if known, and sends all matches in `every_check` mode and the new deals in the others |
| `Monitor.FailureIsRecorded` | src/uniqlo_sales_alerter/main.py:163-181 | a check that raises leaves a history row marked failed and nothing else |
| `Heatmap.FillGrid` | src/uniqlo_sales_alerter/services/heatmap.py:91-96 | every cell of the zeroed grid ends with its own count |
| `Heatmap.MaxOf` | src/uniqlo_sales_alerter/services/heatmap.py:98-98 | an upper bound of all cells that some cell attains |
| `Heatmap.Aggregate` | src/uniqlo_sales_alerter/services/heatmap.py:91-120 | 168 cells in row order, each with the count of its day and hour and its opacity; the maximum is attained |
| `Heatmap.CellsAddUp` | src/uniqlo_sales_alerter/services/heatmap.py:63-96 | the 168 cells sum to the observations in the window |
| `Heatmap.WholeWindowIsDeepObservations` | src/uniqlo_sales_alerter/services/heatmap.py:63-77 | with all observations in the window, those that count are exactly the deep ones |
| `Heatmap.CellsAddUpToHistory` | src/uniqlo_sales_alerter/services/heatmap.py:63-96 | for every run from empty books with successful writes and every window that holds all observations, the 168 deep cells sum to the deep discounts of the check history |
| `Heatmap.Opacity` | src/uniqlo_sales_alerter/services/heatmap.py:103-105 | opacity lies within 0.05 and 1 |
| `Heatmap.OpacityIsMonotone` | src/uniqlo_sales_alerter/services/heatmap.py:103-105 | a larger count is never fainter |
| `Heatmap.OpacityIs` | src/uniqlo_sales_alerter/services/heatmap.py:103-105 | the fullest cell has opacity 1, an empty one 0.05, any other its ratio to the fullest but at least 0.05 |
| `Heatmap.ClockIs` | src/uniqlo_sales_alerter/services/heatmap.py:68-76 | day and hour of a time on the week's clock, from a known Thursday on |
| `Heatmap.CountIsOfMembers` | src/uniqlo_sales_alerter/services/heatmap.py:63-96 | the count of a cell is the number of the observations at or after the cutoff, deep if asked for, of its day and hour |
| `Sizes.CanonicalReadsBackIff` | src/uniqlo_sales_alerter/parsers/size.py:42-75 | a canonical size reads back as itself and in its category if and only if it is no kids size outside 60 to 180 cm; otherwise it reads as nothing |
| `Sizes.YearsHaveNoRangeCheck` | src/uniqlo_sales_alerter/parsers/size.py:58-66 | a token such as `5-6 Years (120cm)` is a kids size for all years and every number from 10 to 999, while its canonical form is a size only from 60 to 180 |
| `Sizes.ClothingIff` | src/uniqlo_sales_alerter/parsers/size.py:48-50 | a token is a clothing size exactly when it is one of the eight names in any case; the canonical form is in capitals |
| `Sizes.InchReads` | src/uniqlo_sales_alerter/parsers/size.py:52-56 | a printed number of inches is a pants size exactly from 22 to 40, odd ones too |
| `Sizes.CmReads` | src/uniqlo_sales_alerter/parsers/size.py:62-66 | a printed number of centimetres is a size exactly from 60 to 180 |
| `Sizes.UnitReads` | src/uniqlo_sales_alerter/parsers/size.py:52-66 | digits and a unit in any case, with or without a gap: two digits from 22 to 40 inches are pants, two or three from 60 to 180 centimetres kids sizes, all others nothing |
| `Sizes.ShoeReads` | src/uniqlo_sales_alerter/parsers/size.py:68-73 | a number, with or without half, is a shoe size exactly from 37 to 43 |
| `SizeLaws.YearsInAnySpelling` | src/uniqlo_sales_alerter/parsers/size.py:58-61 | one number of years, or two with a dash, a slash or blanks between them, the word in any case with or without its s, the centimetres in parentheses or not, and blanks between any two parts: the centimetres count |
| `Invoice.ReadLine` | src/uniqlo_sales_alerter/parsers/invoice_paste.py:69-112 | the loop body: the flag and the seen sets together add exactly what a line adds given the line before it, and the flag then tells whether the line is a header |
| `Invoice.ParseInvoice` | src/uniqlo_sales_alerter/parsers/invoice_paste.py:50-125 | the line loop with its flag and seen sets returns the invoice of the findings, each line looked at with no more than the line before it |
| `Invoice.ListsAreFirstAppearances` | src/uniqlo_sales_alerter/parsers/invoice_paste.py:54-112 | all six lists hold exactly the texts found, without repeats, in the order of first appearance |
| `Invoice.ListedSizesReadBack` | src/uniqlo_sales_alerter/parsers/invoice_paste.py:98-112 | every listed size reads back in its category, except the kids sizes outside 60 to 180 cm |
| `Invoice.FindingsAfterBlank` | src/uniqlo_sales_alerter/parsers/invoice_paste.py:69-73 | what follows a blank line is read as from the start |
| `Invoice.FindingsHavePlaces` | src/uniqlo_sales_alerter/parsers/invoice_paste.py:69-112 | a product id comes from a header line; a colour, a size and an unparsed line come from a line right after a header that is no header itself |
| `Invoice.SpacedHeader` | src/uniqlo_sales_alerter/parsers/invoice_paste.py:26-26 | digits, a comma and a text, with blanks around each, are a header exactly when there are 10 to 16 digits and a text |
| `Invoice.SpacedColour` | src/uniqlo_sales_alerter/parsers/invoice_paste.py:27-27 | a colour name before the comma and a size after it are read with any blanks around the comma; a single letter needs a blank after it |
| `Invoice.ColourIsName` | src/uniqlo_sales_alerter/parsers/invoice_paste.py:27-27 | nothing else is read as a colour |
| `Invoice.ItemReads` | src/uniqlo_sales_alerter/parsers/invoice_paste.py:81-112 | the line after a header gives its colour and the one-size flag, a size, or the whole line as unparsed; anywhere else nothing |
| `Invoice.BlockReads` | src/uniqlo_sales_alerter/parsers/invoice_paste.py:69-112 | the block of a kids product gives its id, its colour and its size, for all of them |
| `Invoice.InvisibleGoes` | src/uniqlo_sales_alerter/parsers/invoice_paste.py:29-47 | each of the four invisible characters can be left out anywhere in a text |
| `Invoice.ParsingIsCompositional` | src/uniqlo_sales_alerter/parsers/invoice_paste.py:46-125 | for all texts, any blank line with invisible characters and any of the three line breaks on either side of it, unless the two are the halves of one: the joined text parses as the first result followed by what is new in the second |
| `WatchList.WatchStore.ActionWatch` | src/uniqlo_sales_alerter/api/routes.py:353-400 | the stored list becomes the watched one; the answer says whether it changed |
| `WatchList.WatchStore.ActionUnwatch` | src/uniqlo_sales_alerter/api/routes.py:298-349 | the stored list becomes the unwatched one; equal length means nothing was removed |
| `WatchList.FillIsIdempotent` | src/uniqlo_sales_alerter/config.py:261-269 | validating a stored variant again changes nothing |
| `WatchList.FilledEntry` | src/uniqlo_sales_alerter/config.py:261-269 | a printed page URL fills in what an entry without an id does not say; an entry with an id stays as it is |
| `WatchList.PrintedEntry` | src/uniqlo_sales_alerter/api/routes.py:390-395 | the entry a watch request leaves says what its URL says, or has the requested id without one |
| `WatchList.WatchTwiceIff` | src/uniqlo_sales_alerter/api/routes.py:353-400 | watching twice is watching once if and only if the first watch added nothing, or the URL's own id is the requested one |
| `Counterexamples.WatchingTwiceAddsTwice` | src/uniqlo_sales_alerter/api/routes.py:353-400 | watching E1 with the page of E2 a second time changes the list again |
| `WatchList.WatchThenUnwatchIff` | src/uniqlo_sales_alerter/api/routes.py:298-400 | for every request about an absent variant: watching and unwatching restores the list if and only if nothing is added, there is no URL or the URL's own id is the requested one, and the request carries a code or the product had no variant |
| `Counterexamples.UnwatchingTakesOthersAlong` | src/uniqlo_sales_alerter/api/routes.py:298-400 | watching E1 without a page and unwatching it removes a variant of E1 that was there before |
| `Counterexamples.UnwatchingMissesTheWrongPage` | src/uniqlo_sales_alerter/api/routes.py:298-400 | watching E1 with the page of E2 and unwatching it with the codes of that page leaves an entry behind |
| `WatchList.UnwatchLeavesOthers` | src/uniqlo_sales_alerter/api/routes.py:314-332 | exactly the named variants go, the others stay; a second unwatch changes nothing |
| `WatchList.PrintedUrlsAreWatchable` | src/uniqlo_sales_alerter/api/routes.py:353-400 | for printed page URLs of both styles watching is idempotent, and unwatching the codes the URL reads as undoes it if there are any |

## Left out

- Sizes.CanonicalReadsBackIff: texts are ASCII for case mapping, digits and white space; Python's Unicode digits and spaces are not modelled.
- Sizes.YearsHaveNoRangeCheck: states the spelling the shop prints; `SizeLaws.YearsInAnySpelling` has the others.
- ActionUrls.SignThenVerify: requires a base URL and an action without `?` and `#`, a payload of UTF-8 bytes and an expiry a date can hold; secrets are not empty and the digest is hexadecimal; the computed digest is taken to be ASCII; the comparison's timing and `int()` of more than 4300 digits are not modelled, and `timestamp()` is exact.
- ActionLinks.SignedPath: requires a base URL of scheme, host and path without reserved characters, and an action of one plain segment; `ActionUrls.SignThenVerify` needs neither scheme nor host.
- LinkLaws.VerifiedSlotLink: like its three neighbours it requires ids, price groups and codes free of reserved characters, which the printer does not escape.
- ProductUrls.ProductUrlRoundTrip: requires components free of reserved characters, which the printer does not escape; `;params`, bracketed hosts and the removal of control characters by `urlparse` are not modelled.
- SeenVariants.KeyRoundTrip: a stored discount is a numeral with at most one decimal, as the keys print it; exponents, infinities and other texts `float()` accepts read as no discount.
- RunLaws.RestartTransparency: the settings do not change during a run; a reload with other settings is a new run on the same table.
- RunLaws.CalmRunSettles: two checks do not overlap; the asynchronous session and SQLite's limit on bound variables are not modelled.
- Matching.Matcher.Apply: log texts are not modelled, only when a warning is due; the database rows are the input `table`.
- Catalogue.Paginate: requires a server whose totals stay under some bound, without which the source loops on; requests, retries and the v3 format are not modelled.
- Heatmap.Aggregate: the rows of the grouping query are an input that holds one row per non-empty cell; the count of distinct days is not modelled.
- Monitor.DeepDiscountsAreConserved: the last-check time read back from the history at startup is an input of the run; durations and error texts are not modelled.
- EnvMap.ConfigFromEnv: starts from coerced values; the coercion of texts and the `${VAR}` substitution are not modelled.
- ConfigTree.SetNestedShapes: nested dicts are values, so in-place aliasing between them is not modelled; the merge copies its base, so callers cannot see a difference.
- WatchList.WatchStore.ActionWatch: the signature check before it, the lookup of a name and the saving and reloading of the file are not modelled; the name is an input, empty when none is found.
- WatchList.WatchTwiceIff: the colour and size names of a variant play no part in the handlers.
- Stock.Verifier.Verify: the client's answers are an input; the semaphore has no effect on the result.
- Products.RoundsToNearest: discounts are exact fractions, with ties to the even tenth; the code rounds a binary float, which at a tie may give the other tenth.
- RunLaws.ClimbReportsOnce: requires that products without coded URLs have ids without a colon, else their key could equal a variant's; and in `new_deals` mode no restart before the climb if the save of the first low check failed, since the old table then still has the key.
- Invoice.ParsingIsCompositional: `\r` before and `\n` after nothing visible are one line break, so there is no blank line; that pair is excluded.
- Products: ratings, images, currency symbols and enrichment.
- HTTP, retries, header parsing, sessions, schema migrations and the scheduler library.
- Notification channels, templates, translations, console and e-mail rendering.
- Saved-filter editing and snooze setters: one-line updates of rows the matcher takes as input.
- Comment transplanting when the YAML file is written: depends on a library's internals.
- The upstream file migration and the health endpoint: straight-line plumbing.
