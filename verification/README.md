# Reliquary effect picker, modelled in Dafny

Reliquary is a one-page relic builder. The page loads a catalog of relic
effects. Each row of the catalog has an effect id, a relic type
("Standard", "Depth Of Night" or "Both"), a free-form category and an
optional compatibility group. The user picks up to three effects, one per
column, while a relic-type select, three category selects and a "show
illegal" checkbox narrow what each column offers. Every change re-runs
`updateUI` (`Reliquary/reliquary.js:207-369`), which does the following:

- recomputes each column's candidate list. Column 1 offers the relic-type
  pool narrowed by its category, whatever the other columns hold. Columns
  2 and 3 offer the relic-type pool minus the effects held in the other
  two columns and, unless illegal picks are shown, minus the effects whose
  compatibility group a column to their left already uses, then narrowed
  by their category;
- refills the three effect selects, keeping a previous pick only while it
  is still offered, and clearing the columns to the right when a column
  to their left is lost;
- locks column 2 until column 1 is filled, and column 3 until columns 1
  and 2 are;
- writes the status line and the "n Effects Available" line under the
  active column, and draws the relic at a size that follows how many
  effects were picked.

The project has five modules, one per layer of `reliquary.js`:

- `Text` (`text.dfy`) is JavaScript's `trim`, behind `normalize`, and the
  string order the category list is sorted by.
- `Catalog` (`catalog.dfy`) is the row record, the `byId` index `load`
  builds, and `getRow`.
- `Filters` (`filters.dfy`) holds the three list filters (relic type,
  category, eligibility) and the category list, as functions with lemmas.
- `Selection` (`selection.dfy`) describes what one `updateUI` run does to
  the three slots, as functions of the catalog, the slots before the run
  and the other controls. Its lemmas state the selection invariants.
- `Reliquary` (`reliquary.dfy`) covers `updateCounts` and `updateUI` as
  methods, written step by step the way the source writes them. The
  `Session` class holds the page state these methods overwrite. Its
  constructor is `load` once the data has arrived, and its method
  `UpdateUI` is one run of `updateUI`.

A select's value `""` stands for the placeholder, that is an empty slot.
A missing or `null` `RelicType`, `EffectCategory` or `CompatibilityID`
is the empty string, as `normalize` and `compatId` make it.

## Model

| member | source | states |
|---|---|---|
| Text.TrimStart | Reliquary/reliquary.js:56-58 | the result is no longer than the input and does not start with whitespace |
| Text.TrimEnd | Reliquary/reliquary.js:56-58 | the result is a prefix of the input and does not end with whitespace |
| Text.Normalize | Reliquary/reliquary.js:56-58 | the trimmed value neither starts nor ends with whitespace, and it is empty exactly when the input is all whitespace |
| Text.TrimStartEmpty | Reliquary/reliquary.js:56-58 | stripping leading whitespace leaves nothing exactly when the string is all whitespace |
| Text.TrimEndEmpty | Reliquary/reliquary.js:56-58 | stripping trailing whitespace leaves nothing exactly when the string is all whitespace |
| Text.TrimStartSkips | Reliquary/reliquary.js:56-58 | leading whitespace in front of a non-whitespace start is removed, and nothing more |
| Text.TrimEndSkips | Reliquary/reliquary.js:56-58 | trailing whitespace after a non-whitespace end is removed, and nothing more |
| Text.TrimUnique | Reliquary/reliquary.js:56-58 | trim gives exactly the core of any string that is a whitespace-free-edged core wrapped in whitespace (an independent definition of trim) |
| Text.NormalizeIdempotent | Reliquary/reliquary.js:56-58 | normalizing twice is normalizing once |
| Text.LessIrreflexive | Reliquary/reliquary.js:135 | the sort order never puts a string before itself |
| Text.LessTransitive | Reliquary/reliquary.js:135 | the sort order is transitive |
| Text.LessTotal | Reliquary/reliquary.js:135 | any two different strings are ordered one way or the other |
| Text.LessAsymmetric | Reliquary/reliquary.js:135 | no two strings are each before the other |
| Catalog.CompatId | Reliquary/reliquary.js:60-62 | a row's compatibility group, "" for none; see `Filters.EligibleList`, `Selection.BlockedSetsFromLeftSlots` |
| Catalog.RelicTypeForRow | Reliquary/reliquary.js:64-66 | a row's trimmed relic type; see `Filters.RelicTypeFilterCases`, `Selection.StandardTyped` |
| Catalog.EffectCategoryForRow | Reliquary/reliquary.js:68-70 | a row's trimmed category; see `Filters.ApplyCategory`, `Filters.CategoriesFor` |
| Catalog.IndexById | Reliquary/reliquary.js:381 | every row's id is a key, and each key maps to a row of the list that carries that id |
| Catalog.IndexByIdLastWins | Reliquary/reliquary.js:381 | when several rows share an id, the index keeps the last of them |
| Catalog.Load | Reliquary/reliquary.js:380-381 | the loaded catalog keeps the rows as given and indexes them by id |
| Catalog.GetRow | Reliquary/reliquary.js:88-90 | the lookup by id; see `Catalog.GetRowSound`, `Catalog.GetRowFindsRow`, `Catalog.GetRowBlank` |
| Catalog.GetRowSound | Reliquary/reliquary.js:88-90 | the lookup finds a row exactly for the ids the rows carry, and the row it returns is a catalog row with that id |
| Catalog.GetRowFindsRow | Reliquary/reliquary.js:88-90 | with distinct ids, looking up a row's id returns that very row |
| Catalog.GetRowBlank | Reliquary/reliquary.js:88-90 | with non-empty ids, the empty slot value names no row |
| Filters.IsSubsequenceReflexive | Reliquary/reliquary.js:140 | a list is an order-preserving sublist of itself |
| Filters.OfferedForType | Reliquary/reliquary.js:125-129 | the per-row relic-type test; see `Filters.RelicTypeFilterCases` |
| Filters.BaseFilteredByRelicType | Reliquary/reliquary.js:120-131 | a row is in the pool exactly when it is a catalog row offered under the selected relic type |
| Filters.BaseFilteredOrder | Reliquary/reliquary.js:124-130 | the pool keeps catalog order, and it is the whole catalog when every row is offered |
| Filters.BaseFilteredMultiplicity | Reliquary/reliquary.js:124-130 | every copy of an offered row is kept and no copy of another, so the pool's length counts the offered rows |
| Filters.RelicTypeFilterCases | Reliquary/reliquary.js:120-131 | "Standard" keeps the Standard and Both rows, "Depth Of Night" keeps its own and the Both rows, "Both" keeps only Both rows, and any other value keeps the catalog unchanged, always in catalog order |
| Filters.BothRowsAlwaysOffered | Reliquary/reliquary.js:126-129 | a row typed Both is in the pool under every relic type |
| Filters.ApplyCategory | Reliquary/reliquary.js:138-142 | a blank category returns the list unchanged; otherwise a row is kept exactly when its trimmed category equals the trimmed choice |
| Filters.InCategory | Reliquary/reliquary.js:141 | a row is kept exactly when it is in the list with that trimmed category |
| Filters.InCategoryOrder | Reliquary/reliquary.js:141 | the kept rows are in list order |
| Filters.ApplyCategoryPreservesOrder | Reliquary/reliquary.js:138-142 | the category filter returns an order-preserving sublist |
| Filters.InCategoryIdempotent | Reliquary/reliquary.js:141 | filtering by the same category twice is filtering once |
| Filters.InCategoryMultiplicity | Reliquary/reliquary.js:141 | every copy of a row in the category is kept and no copy of another |
| Filters.ApplyCategoryMultiplicity | Reliquary/reliquary.js:138-142 | a blank category keeps every copy of every row; otherwise every copy of a row in the category and no copy of another |
| Filters.ApplyCategoryIdempotent | Reliquary/reliquary.js:138-142 | applying the same category twice is applying it once |
| Filters.ApplyCategoryKeeps | Reliquary/reliquary.js:141 | whether a row survives depends on the row alone, not on the rest of the list |
| Filters.InsertSorted | Reliquary/reliquary.js:134-135 | adding a string to a strictly sorted list keeps it strictly sorted, and the result holds exactly the old elements and the new one |
| Filters.CategoriesFor | Reliquary/reliquary.js:133-136 | the list is strictly sorted, so it has no duplicates, and its elements are exactly the distinct non-empty trimmed categories of the rows |
| Filters.StrictlySortedDistinct | Reliquary/reliquary.js:134-135 | a strictly sorted list repeats no element |
| Filters.SortedSetUnique | Reliquary/reliquary.js:135 | two strictly sorted lists with the same elements are equal, so the category list is determined by its set |
| Filters.OfferedCategorySelectsRows | Reliquary/reliquary.js:133-142 | every category offered selects at least one row of the list it came from |
| Filters.Eligible | Reliquary/reliquary.js:149-155 | the per-row eligibility test; see `Filters.EligibleAmong`, `Filters.EligibleList` |
| Filters.EligibleList | Reliquary/reliquary.js:144-157 | no returned row has a taken id; with the override on the result is the pool minus taken ids; with it off a row is kept exactly when it is in the pool, its id is not taken, and its group is empty or not blocked |
| Filters.EligibleAmong | Reliquary/reliquary.js:148-156 | a row is kept exactly when it is in the pool and passes the per-row test |
| Filters.EligibleAmongMultiplicity | Reliquary/reliquary.js:148-156 | every copy of an eligible pool row is kept and no copy of another |
| Filters.EligibleListMultiplicity | Reliquary/reliquary.js:144-157 | every copy of a catalog row that is offered for the relic type and eligible is kept, and no copy of another, so the length counts those rows |
| Filters.EligibleAmongOrder | Reliquary/reliquary.js:148-156 | the kept rows are in pool order |
| Filters.EligibleListPreservesOrder | Reliquary/reliquary.js:144-157 | the eligible list is an order-preserving sublist of the relic-type pool |
| Filters.ShowIllegalOnlyWidens | Reliquary/reliquary.js:151 | turning the override on never removes a row |
| Filters.EligibleAntitone | Reliquary/reliquary.js:150-155 | fewer taken ids or fewer blocked groups never remove a row |
| Selection.OptionValues | Reliquary/reliquary.js:77-80 | a select offers the placeholder plus one value per row, and exactly the blank and the rows' ids |
| Selection.OfferedInList | Reliquary/reliquary.js:77-80 | a non-empty value a select offers is the id of one of the rows it was filled from |
| Selection.OfferedId | Reliquary/reliquary.js:286-298 | when the catalog is indexed, a non-empty value a select filled from catalog rows offers names a row the lookup finds |
| Selection.OfferedRow | Reliquary/reliquary.js:286-298 | with unique ids, the row the lookup finds for an offered value is the very row the select offered |
| Selection.TakenFor2 | Reliquary/reliquary.js:230 | slot 2's taken ids; see `Selection.TakenFromOtherSlots` |
| Selection.TakenFor3 | Reliquary/reliquary.js:231 | slot 3's taken ids; see `Selection.TakenFromOtherSlots` |
| Selection.TakenFromOtherSlots | Reliquary/reliquary.js:229-231 | for any selection, slot 2's taken ids are exactly the non-empty values of slots 1 and 3, and slot 3's exactly those of slots 1 and 2 |
| Selection.OwnValueNotTaken | Reliquary/reliquary.js:229-231 | when each filled slot differs from the other two, a slot's own value is never taken from it |
| Selection.RepeatedPickCleared | Reliquary/reliquary.js:229-308 | slot 1 is offered without regard to the other slots, so it can be switched to slot 2's or slot 3's effect; a slot repeating an effect held to its left is then emptied by the run |
| Selection.BlockedFor2 | Reliquary/reliquary.js:233-238 | slot 2's blocked groups; see `Selection.BlockedSetsFromLeftSlots` |
| Selection.BlockedFor3 | Reliquary/reliquary.js:240-248 | slot 3's blocked groups; see `Selection.BlockedSetsFromLeftSlots` |
| Selection.BlockedSetsFromLeftSlots | Reliquary/reliquary.js:233-248 | slot 2's blocked groups are exactly slot 1's non-empty group; slot 3's are exactly the non-empty groups of slots 1 and 2 |
| Selection.Filtered1 | Reliquary/reliquary.js:261-262 | slot 1's list: the relic-type pool in slot 1's category; see `Filters.RelicTypeFilterCases`, `Filters.ApplyCategory`, `Reliquary.AvailableLists` |
| Selection.Eligible2 | Reliquary/reliquary.js:264 | slot 2's gated eligible list; see `Selection.SlotGating`, `Selection.Eligible2NoClash` |
| Selection.Filtered2 | Reliquary/reliquary.js:265 | slot 2's list; see `Selection.SlotGating`, `Reliquary.AvailableLists` |
| Selection.Eligible3 | Reliquary/reliquary.js:267 | slot 3's gated eligible list; see `Selection.SlotGating`, `Selection.Eligible3NoClash` |
| Selection.Filtered3 | Reliquary/reliquary.js:268 | slot 3's list; see `Selection.SlotGating`, `Reliquary.AvailableLists` |
| Selection.SlotGating | Reliquary/reliquary.js:264-268 | slot 2 offers nothing while slot 1 is empty; slot 3 offers nothing unless slots 1 and 2 are filled |
| Selection.Kept1 | Reliquary/reliquary.js:275-284 | slot 1 after the run; see `Selection.CascadeFromSlot1` |
| Selection.Kept2 | Reliquary/reliquary.js:286-296 | slot 2 after the run; see `Selection.KeepOnlyIfOffered`, `Selection.Kept2Filled` |
| Selection.Kept3 | Reliquary/reliquary.js:298-308 | slot 3 after the run; see `Selection.KeepOnlyIfOffered`, `Selection.Kept3Filled` |
| Selection.Refreshed | Reliquary/reliquary.js:270-308 | the slots after the run; see `Selection.RefreshedWellFormed`, `Selection.RefreshedCompatDisjoint`, `Selection.RefreshedIdempotent`, `Reliquary.RefillSelects` |
| Selection.Stage | Reliquary/reliquary.js:226 | the relic stage; see `Selection.StageCountsFilled`, `Selection.StageLagsCascade` |
| Selection.ActiveSlot | Reliquary/reliquary.js:313-368 | the column that shows the count; see `Selection.ActiveSlotIsFirstEmpty` |
| Selection.AvailableCount | Reliquary/reliquary.js:325-368 | the number shown; see `Reliquary.RenderedCountMatchesOptions` and the multiplicity lemmas of `Filters` |
| Selection.CascadeFromSlot1 | Reliquary/reliquary.js:275-284 | slot 1's old value gone from its options empties all three slots; otherwise slot 1 is unchanged |
| Selection.ClearingSlot1ClearsAll | Reliquary/reliquary.js:277-308 | an empty slot 1 leaves every slot empty after the run |
| Selection.KeepOnlyIfOffered | Reliquary/reliquary.js:286-308 | slot 2 keeps its value exactly when slot 1 is filled and the value is still offered; slot 3 exactly when slots 1 and 2 are filled and the value is still offered; otherwise the slot is emptied |
| Selection.RefreshedWellFormed | Reliquary/reliquary.js:229-308 | after a run the slots fill left to right, every filled slot names a catalog row, and no effect is picked twice |
| Selection.IdOffered | Reliquary/reliquary.js:77-80 | every row's id is offered by the select filled from its list |
| Selection.Kept2Filled | Reliquary/reliquary.js:286-296 | a filled slot 2 after the run is its old value, kept because slot 1 kept its row and slot 2 still offered the value |
| Selection.Kept3Filled | Reliquary/reliquary.js:298-308 | a filled slot 3 after the run is its old value, kept because slots 1 and 2 kept their rows and slot 3 still offered the value |
| Selection.Slot2Row | Reliquary/reliquary.js:288-296 | a filled slot 2 names a row of slot 2's filtered list |
| Selection.Slot3Row | Reliquary/reliquary.js:300-308 | a filled slot 3 names a row of slot 3's filtered list |
| Selection.Eligible2NoClash | Reliquary/reliquary.js:233-265 | with the override off, slot 2 offers no row in slot 1's group |
| Selection.Eligible3NoClash | Reliquary/reliquary.js:240-268 | with the override off, slot 3 offers no row in slot 1's or slot 2's group |
| Selection.RefreshedCompatDisjoint | Reliquary/reliquary.js:233-308 | with the override off and unique ids, no two slots share a non-empty compatibility group after a run |
| Selection.RepeatedIdCatalog | Reliquary/reliquary.js:88-90 | in a catalog where the id "y" appears twice, the lookup of "y" answers with the later row |
| Selection.RepeatedIdRun | Reliquary/reliquary.js:229-308 | on that catalog, the run keeps slots ("x", "y", "") as they are, offering the ungrouped "y" in slot 2, while the lookup places slots 1 and 2 in the same group |
| Selection.RepeatedIdBreaksDisjoint | Reliquary/reliquary.js:233-308 | without unique ids, the page reaches a selection whose slots share a group even with illegal picks hidden, so `Selection.RefreshedCompatDisjoint` needs that assumption |
| Selection.Slot2LessTaken | Reliquary/reliquary.js:229-238 | emptying slot 3 keeps slot 2's blocked groups and never adds to its taken ids |
| Selection.Slot2StaysOffered | Reliquary/reliquary.js:264-296 | a value slot 2 kept is still offered when the run is repeated |
| Selection.RefreshedIdempotent | Reliquary/reliquary.js:270-308 | a second run with the same controls leaves the slots as the first run left them |
| Selection.LockedSlotsEmpty | Reliquary/reliquary.js:250-308 | a slot locked during a run ends the run empty |
| Selection.StageCountsFilled | Reliquary/reliquary.js:225-226 | on a well-formed selection the stage is the number of filled slots |
| Selection.ActiveSlotIsFirstEmpty | Reliquary/reliquary.js:313-368 | the count goes under the first empty slot after the run, or under slot 3 when all are filled |
| Selection.StageOfSettledSelection | Reliquary/reliquary.js:225-226 | when the run changes no slot, the relic size is the number of filled slots |
| Selection.StageLagsCascade | Reliquary/reliquary.js:221-284 | when the run empties slot 1, the relic is still drawn for the slots as they were before the run, at a non-zero stage |
| Selection.StandardTyped | Reliquary/reliquary.js:64-66 | a row whose relic type is exactly "Standard" reads as Standard |
| Selection.StageLagExample | Reliquary/reliquary.js:120-284 | a Standard effect in slot 1, after a switch to "Depth Of Night", leaves every slot empty while the relic is drawn at stage 1 |
| Reliquary.StatusFor | Reliquary/reliquary.js:313-358 | the status message; see `Reliquary.RenderedStatusCountsFilled` |
| Reliquary.Rendered | Reliquary/reliquary.js:207-369 | the page after one run; see `Reliquary.ComputePage` and the `Reliquary.Rendered…` lemmas |
| Reliquary.UpdateCounts | Reliquary/reliquary.js:194-205 | only the active column's count line shows the number; the other two are blank, and an index outside 1..3 blanks all three |
| Reliquary.AvailableLists | Reliquary/reliquary.js:229-268 | the taken sets, blocked sets and gated lists built step by step are each slot's filtered list |
| Reliquary.RefillSelects | Reliquary/reliquary.js:270-308 | the refill cascade leaves the refreshed slots; each select offers its list only when the slots to its left name rows, and each value is among its select's options |
| Reliquary.ReportProgress | Reliquary/reliquary.js:310-368 | the status is decided by the first slot that names no row, and the count under the active column is the length of that column's list |
| Reliquary.ComputePage | Reliquary/reliquary.js:207-369 | one run produces exactly the rendering of the previous slots under the current controls |
| Reliquary.RenderedOffersValues | Reliquary/reliquary.js:275-308 | after every run each effect select holds one of its own options |
| Reliquary.RenderedLockedBoxesEmpty | Reliquary/reliquary.js:250-308 | a locked column ends the run empty, offering only the placeholder, and locking column 2 empties column 3 too |
| Reliquary.RenderedCountMatchesOptions | Reliquary/reliquary.js:194-205 | exactly one column shows a count, and it is the number of effects that column's select offers |
| Reliquary.RenderedCountUnderFirstEmpty | Reliquary/reliquary.js:313-368 | column k shows the count exactly when it is the first empty column, or column 3 once all are filled |
| Reliquary.RenderedStatusCountsFilled | Reliquary/reliquary.js:313-358 | each status message corresponds to exactly one number of filled slots: 0, 1, 2 or 3 |
| Reliquary.FirstRender | Reliquary/reliquary.js:386-415 | the first render shows every slot empty, column 1 offering the whole relic-type pool with its size as the count, columns 2 and 3 locked on the placeholder, and the default relic image |
| Reliquary.LoadedBlankNamesNoRow | Reliquary/reliquary.js:381 | rows loaded with non-empty ids leave the blank value unnamed |
| Reliquary.Session.constructor | Reliquary/reliquary.js:375-415 | after loading, the catalog is the indexed data, the category selects offer the categories of the relic-type pool, and the page is the first render |
| Reliquary.Session.UpdateUI | Reliquary/reliquary.js:207-369 | the page becomes the rendering of the slots as they were before the run, under the current controls |

## Left out

- Fetching and parsing the data file, the failed-load handler and event
  wiring (`Reliquary/reliquary.js:375-380`, 401-412, 418-423): the
  catalog is a parameter of the constructor. The `reason` argument of
  `updateUI` only matters to the colour reroll, so it is dropped.
- The random relic colour (`pickRandomColor`, `effectiveColor`, the reroll
  at lines 208-217) and the image URLs (`relicPath`, `relicDefaultPath`,
  the error fallback at lines 115-118). The model keeps the stage the
  image is drawn for (`imageStage`, 0 for the default image) and not the
  image path.
- HTML text: option labels (`optionHtml`), the placeholder texts, the
  details and chosen-effects panels (`renderChosenLine`, lines 159-192 and
  the `innerHTML` writes in 315-366). A select is modelled by its option
  values, and the status and count lines by the message they carry.
- `catN.disabled` is not a separate field: the code always sets it to the
  same value as `selN.disabled` (lines 251-258), and column 1 is never
  disabled.
- The category selects are filled once, in `load`, from the relic-type
  pool of that moment (lines 386-391), and `updateUI` never refills them.
  The model follows the code: `categoryOptions` is set by the constructor
  and `UpdateUI` does not touch it.
- `Reliquary/reliquary.ui.js` and `Reliquary/reliquary.dom.js` are not
  part of this model. They hold DOM look-ups and markup. The effect
  validity check and the roll-order sort live in `reliquary.logic.js`,
  which is not part of this model either.
- Text.Less: `localeCompare` is locale-dependent, so the model sorts
  categories by plain code-point order, proved to be a strict total
  order. The model's strings are sequences of code points, not UTF-16
  code units.
- A missing or `null` `EffectID` is not modelled. The page
  turns it into the text `"undefined"` or `"null"` (lines 74 and 381),
  which is then an ordinary selectable id; the model has no row for it,
  and an id written as `""` would be taken for the placeholder.
- Selection.OptionValues: an option's value is taken to be the id as
  written. The page builds options by pasting ids and categories into
  HTML attributes without escaping (lines 74 and 84), so an id or category
  holding `"` or a character reference is read back differently; the
  model does not capture that.
- Catalog.IndexById: JSON values are taken to be strings already, so
  `String(r.EffectID)` and `compatId`'s `String(...)` conversions are
  identities. An id given as a number and the same id given as a string
  are not told apart.
- Selection.RefreshedCompatDisjoint holds only for catalogs whose effect
  ids are distinct (`Keyed()`). With a repeated id, `getRow` returns the
  last row with that id, which need not be the row the slot's filtered
  list offered. `Selection.RepeatedIdBreaksDisjoint` shows a reachable
  selection whose slots then share a group.
- Selection.RefreshedWellFormed, Selection.RefreshedIdempotent, the
  other slot lemmas and the `Rendered…` lemmas assume only that no effect
  id is the empty string (`Named()`), which the placeholder would
  otherwise be mistaken for. The methods and the constructor assume
  nothing about the data.
- Reliquary.Session.UpdateUI: the `disabled` flags and the relic stage
  come from the slots as they were before the refill cascade (lines
  221-227, 254-258), as in the code. When the cascade empties slots in
  the same run, the page keeps the old lock state and relic size until
  the next change. `Selection.StageLagsCascade` and
  `Selection.StageLagExample` state this behaviour; it is modelled as
  written.
