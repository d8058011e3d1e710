# Wrestling admin dashboard: relationship layer, list rules and dialogs

This project models the core of a small admin dashboard for a wrestling
database. The dashboard manages four entity tables: wrestlers, promotions,
factions and championships. Three junction tables link a wrestler to the
promotions, factions and championships they belong to. The data layer talks
to a hosted SQL store, and the screens build lists, filters and edit dialogs
on top of it.

The model has three layers.

- **Store.** `Schema.Db` is the whole database as a value: the four tables,
  the three junction tables, a flag per image-capable table saying whether
  its `image_url` column exists, and the next id the store hands out.
  `Database.Store` is a class with one field per table. Its write methods
  change those fields in the same order of requests as the data layer, and
  each ensures that the new state and the result are those of the matching
  specification function in `Writes`. The read operations are functions in
  `Queries` over the state, because the source reads without changing
  anything.
- **Remote failures.** A remote request that reports an error is a key of a
  `Faults` map, whose value is the error message. A request not in the map
  succeeds. The exception fallbacks of the promotion and faction writes take
  a `threw` flag. Those fallbacks run only on a thrown error, not on a
  reported one.
- **Screens.** The search, filter and sort rules of the list screens are
  pure functions. Each edit dialog is a class: its fields are the form
  state, and its methods are the handlers. The dialog calls the `Store`
  methods, and the outcome of an image upload is a parameter.

Among the properties proved are the following.

- Updating a wrestler leaves every other wrestler's junction rows
  unchanged. When the junction delete and the inserts of a kind succeed, the
  wrestler's rows of that kind are exactly one per submitted id. When no
  junction delete fails, doing the same update twice gives the same state;
  after a failed delete the second update appends the rows a second time.
- When both of their queries succeed, the two-step lookups return exactly
  the linked entities that exist. On a well-formed store each appears once.
  They return `[]` when the wrestler has no junction rows, without
  depending on the entity query.
- Wrestler counts are junction-row counts. A count equals the number of
  wrestlers whose lookup returns the entity when the store is well formed,
  no request fails, and no junction row is repeated or names a wrestler that
  is gone. Without those conditions the two differ: two concrete stores show
  an orphaned row counted after its wrestler is deleted, and a repeated row
  counted twice.
- Deletes remove one row and never cascade. A deleted promotion, faction or
  championship keeps its junction rows, yet no later lookup returns it.
- Faction writes retry without the image exactly when the error names the
  `image_url` column.
- The wrestler-list filter is an AND across the search and the three kinds,
  and an OR within one kind.
- Filter options have no duplicates and appear in first-occurrence order.
- The sorted entity lists are permutations of the searched lists. Count mode
  is non-increasing and name mode is ascending.
- The wrestler dialog's selection stays free of duplicates. Selecting and
  removing keep it so. An inline create keeps it so while every selected id
  is below the store's next id, because the created row gets that next id.
  On a well-formed store, the ids loaded from a looked-up wrestler on
  opening are distinct and below the next id.
- The saved wrestler's image is the uploaded URL when a file was chosen and
  the upload gave a non-empty URL, and the form's URL otherwise.
- The image-support flag of the promotion and faction dialogs only ever goes
  from on to off during a save. A save that starts with the flag off leaves
  every stored image of its table as it was.
- The create-entity dialog submits only a trimmed, non-blank name.

Two further properties are proved outright.

- Promotion writes have no column fallback. This is a consequence of the
  code as written. Take a promotions table without an `image_url` column,
  an upload that does not throw, and a first request that reports an error
  rather than throwing. Then editing a promotion with the flag on always
  fails and leaves the store unchanged, and the flag stays on
  (`EntityDialog.PromotionSaveWithoutColumn`). A thrown first request
  instead takes the name-only fallback. When that fallback request reports
  no error, it succeeds exactly when a promotion with the id exists, and
  then renames that row only; otherwise it returns null and leaves the
  store unchanged (`Writes.UpdateThrownIsNameOnly`).
- The dialogs' upload catch clears the image. This is a property of that
  catch block taken on its own. `uploadImage` catches its own errors and
  returns null (lib/storage.ts:3-14), so it never throws, and the path is not
  reached through it. If the upload did throw, the edit would send `""` as
  the image, and the row's image would be cleared.
  (`EntityDialog.ThrownUploadClearsImage`)

## Model

| member | source | states |
|---|---|---|
| Database.Store.InsertLinks | lib/database.ts:130-145 | the junction table of that kind gains one row (wrestler, id) per submitted id whose insert succeeds, in submission order; a failed insert is skipped and nothing else changes |
| Database.Store.DeleteLinks | lib/database.ts:185-189 | the wrestler's junction rows of that kind are removed, and only those, unless that delete fails, in which case nothing changes |
| Database.Store.CreateWrestler | lib/database.ts:111-160 | the new store and result are those of `Writes.CreateWrestlerSpec`: insert the row, then insert the links of each kind, then re-read the wrestler with its related entities |
| Database.Store.UpdateWrestler | lib/database.ts:162-222 | the new store and result are those of `Writes.UpdateWrestlerSpec`: no id or id 0 gives null with no change, then update the row, delete the old links, insert the new ones and re-read |
| Database.Store.Delete | lib/database.ts:224-235 | `deleteWrestler`, and likewise `deletePromotion` (lib/database.ts:343-354), `deleteFaction` (573-584) and `deleteChampionship` (719-730): the new store and result are those of `Writes.DeleteSpec` on the named table |
| Database.Store.CreatePromotion | lib/database.ts:264-298 | the new store and result are those of `Writes.CreatePromotionSpec`: an insert carrying the image only when it is truthy, or a name-only insert when the first request threw |
| Database.Store.UpdatePromotion | lib/database.ts:300-341 | the new store and result are those of `Writes.UpdatePromotionSpec`: an update carrying the image whenever it is given, or a name-only update when the first request threw |
| Database.Store.CreateFaction | lib/database.ts:446-496 | the new store and result are those of `Writes.CreateFactionSpec`, including the one name-only retry after an error that mentions `image_url` |
| Database.Store.UpdateFaction | lib/database.ts:499-558 | the new store and result are those of `Writes.UpdateFactionSpec`, including the one name-only retry after an error that mentions `image_url` |
| Database.Store.CreateChampionship | lib/database.ts:675-686 | the new store and result are those of `Writes.CreateChampionshipSpec` |
| Database.Store.UpdateChampionship | lib/database.ts:701-717 | the new store and result are those of `Writes.UpdateChampionshipSpec` |
| Writes.AddedAll | lib/database.ts:130-145 | when no junction insert of that kind fails, the rows added are exactly one per submitted id, in order |
| Writes.UpdateWrestlerNull | lib/database.ts:162-182 | `updateWrestler` gives null iff the id is missing or 0, the row update reports an error, or no wrestler has that id; a null result leaves the whole store unchanged |
| Writes.UpdateWrestlerLinks | lib/database.ts:184-207 | after a successful update, the other wrestlers' rows of each kind are unchanged, and the wrestler's own rows are the inserted ones (after the old rows when their delete failed) |
| Writes.UpdateWrestlerExact | lib/database.ts:184-207 | when the delete and the inserts of a kind succeed, the wrestler's rows of that kind are exactly one per submitted id |
| Writes.UpdateWrestlerReadsBack | lib/database.ts:184-221 | after such an update, the entities read back for the wrestler are exactly the existing entities whose id was submitted |
| Writes.UpdateWrestlerIdempotent | lib/database.ts:162-222 | when no junction delete fails, updating twice with the same form gives the same store and result as updating once |
| Writes.FailedDeleteAppends | lib/database.ts:184-207 | when the junction delete of a kind reports an error, a successful update leaves that kind's rows as the old ones followed by the inserted ones, and the wrestler is still in the table |
| Writes.UpdateTwiceAfterFailedDelete | lib/database.ts:162-222 | when the junction delete of a kind fails, updating a second time with the same form succeeds and appends the inserted rows again, so the store differs from the one after the first update whenever a row was inserted |
| Writes.CreateWrestlerNull | lib/database.ts:115-127 | `createWrestler` gives null iff the row insert reports an error, and then the store is unchanged |
| Writes.CreateWrestlerLinks | lib/database.ts:128-159 | on success the new wrestler has the next id, each junction table gains exactly the surviving rows for it, and with no failed insert its rows are one per submitted id |
| Writes.DeleteWrestlerSpec | lib/database.ts:224-235 | gives false iff the delete reports an error; a row stays iff it was there and, on success, has another id; entity tables and all junction rows are unchanged (no cascade) |
| Writes.DeleteEntitySpec | lib/database.ts:343-354 | the same for promotions: only that table loses the row with that id, and no junction row or other table changes. Also lib/database.ts:573-584: the same for factions; lib/database.ts:719-730: the same for championships |
| Writes.DeletedEntityNeverReturned | lib/database.ts:343-354 | after a successful delete of a promotion id, the junction rows of that kind are unchanged, and no later lookup of any wrestler returns a row with that id. Also lib/database.ts:573-584: the same for factions; lib/database.ts:719-730: the same for championships |
| Writes.OrphanedRowIsCounted | lib/database.ts:224-235 | on a concrete well-formed store, deleting the only wrestler of a promotion leaves a well-formed store with no wrestler, yet the promotion's count (lib/database.ts:369-381) is still 1 |
| Writes.RepeatedRowIsCounted | lib/database.ts:369-381 | on a concrete well-formed store whose junction row is inserted twice, the count is 2 while exactly one wrestler's lookup returns the promotion |
| Writes.CreatePromotionImage | lib/database.ts:264-284 | with the column present, the new promotion has the next id, the name, the image when it is given and non-empty (`TruthyImage`) and null otherwise, and is appended; without the column, a truthy image makes the insert fail with no change, and a falsy one inserts a row without the column. `createFaction` applies the same truthy rule (lib/database.ts:454-456) |
| Writes.PromotionWithoutColumn | lib/database.ts:277-284 | creating a promotion with a non-empty image on a table without the column fails and changes nothing, since promotions have no column fallback |
| Writes.CreateThrownIsNameOnly | lib/database.ts:285-297 | when the first promotion insert throws and the fallback request reports no error, the fallback stores a new row with the name, no image and the next id: the table is the old one with that row appended, and the id counter advances. Also lib/database.ts:484-495: the same for the faction fallback |
| Writes.UpdateEntityImage | lib/database.ts:311-313 | with the column present, an update sets the name and the update time, and replaces the image whenever one is passed, so `""` clears it. The stored table is the old one with the rows of that id replaced by the returned row, which it holds. Also lib/database.ts:510-512: the same rule for `updateFaction` |
| Writes.UpdateThrownIsNameOnly | lib/database.ts:323-340 | when the first update throws and the fallback request reports no error, the fallback succeeds iff a row with the id exists, and changes only its name. On success the stored table is the old one with the rows of that id replaced by the returned row, which it holds; on failure the store is unchanged. Also lib/database.ts:540-557: the same for the faction fallback |
| Writes.FactionRetry | lib/database.ts:464-479 | when the faction insert reports an error, the result is that of one name-only retry if the message contains `image_url`, and null with no change otherwise. Also lib/database.ts:520-536: the same rule for the faction update |
| Writes.FactionWithoutColumn | lib/database.ts:446-477 | on a factions table without the column, creating with a non-empty image still succeeds through the retry, and stores the name without an image |
| Writes.ChampionshipWrites | lib/database.ts:675-717 | a championship create appends a row with the name and no image column; an update succeeds iff the id exists, and sets the name and the update time |
| Writes.FailedPromotionWritesChangeNothing | lib/database.ts:264-341 | a promotion create or update that returns null, thrown first request included, leaves the store as it was |
| Writes.FailedFactionWritesChangeNothing | lib/database.ts:446-558 | a faction create or update that returns null, after its retry without the image included, leaves the store as it was |
| Writes.FailedChampionshipWritesChangeNothing | lib/database.ts:675-717 | a championship create or update that returns null leaves the store as it was |
| Writes.PromotionWritesValid | lib/database.ts:264-341 | promotion creates and updates keep the store well formed: ids unique and below the next id, image keys agreeing with the column flag, junction ids below the next id |
| Writes.FactionWritesValid | lib/database.ts:446-558 | faction creates and updates, retries included, keep the store well formed in the same sense |
| Writes.ChampionshipWritesValid | lib/database.ts:675-717 | championship creates and updates keep the store well formed in the same sense |
| Writes.DeleteValid | lib/database.ts:224-235 | deletes keep the store well formed |
| Writes.CreateWrestlerValid | lib/database.ts:111-160 | `createWrestler` keeps the store well formed |
| Writes.UpdateWrestlerValid | lib/database.ts:162-222 | `updateWrestler` keeps the store well formed |
| Writes.NoImageCreatesKeepImages | lib/database.ts:264-298 | a promotion create given no image, thrown first request included, keeps every stored image of the table and adds at most a row without an image. Also lib/database.ts:446-496: the same for `createFaction`, retry included |
| Writes.NoImageUpdatesKeepImages | lib/database.ts:300-341 | a promotion update given no image, thrown first request included, keeps the image of every row of a table with unique ids. Also lib/database.ts:499-558: the same for `updateFaction`, retry included |
| Queries.ListEntities | lib/database.ts:238-249 | `getPromotions`: `[]` when the query reports an error, otherwise a permutation of the table. Also lib/database.ts:432-443: `getFactions`: the same; lib/database.ts:662-673: `getChampionships`: the same |
| Queries.ListEntitiesSorted | lib/database.ts:238-249 | the list is ordered by name under any total preorder on names |
| Queries.WrestlerEntities | lib/database.ts:36-61 | every promotion returned for a wrestler is in the table and linked to that wrestler |
| Queries.WrestlerEntitiesExact | lib/database.ts:36-61 | when both queries succeed, a promotion is returned iff it exists and is linked to the wrestler, in table order; unlinked and orphan ids are skipped. Also lib/database.ts:63-82: the same for factions; lib/database.ts:84-109: the same for championships |
| Queries.NoLinksShortCircuits | lib/database.ts:44-46 | a wrestler with no junction rows gets `[]`, whatever the entity query would do |
| Queries.WrestlerEntitiesOnceEach | lib/database.ts:48-53 | in a well-formed store each related entity is returned at most once |
| Queries.ListWrestlersSpec | lib/database.ts:5-34 | when the query succeeds, the wrestlers returned are a permutation of the table, each carrying its promotions, factions and championships |
| Queries.ListWrestlersSorted | lib/database.ts:5-13 | the list is `[]` on error, and is ordered by name |
| Queries.CountIsHolderCount | lib/database.ts:369-381 | the junction-row count of an entity equals the number of wrestler ids its by-entity lookup fetches, counted with repeats |
| Queries.LinkCountIsLinkedWrestlers | lib/database.ts:369-381 | when no junction row is repeated and each names an existing wrestler of a table with unique ids, the count equals the number of wrestlers that have a junction row to the entity |
| Queries.CountMatchesHolders | lib/database.ts:369-381 | on a well-formed store with no repeated or orphaned junction row of the kind and no failing request, an entity's count equals the number of wrestlers whose lookup (lib/database.ts:36-61) returns it |
| Queries.WithWrestlerCountSpec | lib/database.ts:357-386 | when the outer query succeeds, the rows are the promotions, permuted and ordered by name, and each count is the number of junction rows carrying its id, or 0 when its count query reports an error. Also lib/database.ts:587-616: the same for factions; lib/database.ts:733-762: the same for championships |
| Queries.WithWrestlerCountRows | lib/database.ts:357-386 | when the outer query succeeds, the rows carry exactly the table's entities |
| Queries.WrestlersByMembers | lib/database.ts:389-429 | a wrestler is returned for a promotion iff it exists and is linked to it. Also lib/database.ts:619-659: the same for factions; lib/database.ts:765-809: the same for championships |
| Queries.WrestlersBySorted | lib/database.ts:405-410 | the wrestlers are ordered by name |
| Queries.WrestlersByEnriched | lib/database.ts:417-426 | by promotion or faction, each wrestler carries only its championships; by championship, it carries its promotions and factions. Also lib/database.ts:793-806: the championship case of the same rule |
| Queries.WrestlersByNoLinks | lib/database.ts:398-401 | no junction rows for the entity gives `[]`, whatever the wrestler query would do. Also lib/database.ts:774-777: the same for championships |
| Sorting.SortBy | components/promotion-list.tsx:64-70 | sorting a copy gives a permutation of the list |
| Sorting.SortSorted | components/promotion-list.tsx:64-70 | under a total preorder, the sorted copy is ordered |
| Text.Lower | components/wrestler-list.tsx:55 | lower-casing works letter by letter and keeps the length |
| Text.LowerIsLower | components/wrestler-list.tsx:55 | lower-cased text has no upper-case letter, and lower-casing twice changes nothing |
| Text.ContainsIffOccurs | components/wrestler-list.tsx:55 | `includes` holds iff the query occurs at some position of the name |
| Text.EmptyQueryMatches | components/wrestler-list.tsx:55 | the empty query matches every name |
| Text.Trim | components/create-entity-dialog.tsx:21 | the trimmed text is a contiguous part of the input with no white space at either end; it is empty iff the input is all white space |
| Text.TrimIdempotent | components/create-entity-dialog.tsx:21 | trimming twice is trimming once |
| WrestlerList.AnyNamedIff | components/wrestler-list.tsx:58-67 | `some` over the related entities holds iff one of them has a selected name |
| WrestlerList.MatchesKindIff | components/wrestler-list.tsx:58-67 | a kind matches iff nothing is selected for it, or the wrestler has that relation and some related name is selected |
| WrestlerList.FilteredMembers | components/wrestler-list.tsx:53-70 | a wrestler is kept iff it is loaded, its lower-cased name contains the lower-cased query, and every kind matches |
| WrestlerList.NoFiltersKeepAll | components/wrestler-list.tsx:55-67 | an empty query and three empty selections keep the whole list |
| WrestlerList.AbsentRelationNeverMatches | components/wrestler-list.tsx:58-60 | a wrestler without that relation never passes a non-empty selection for it |
| WrestlerList.FilteredIsSubsequence | components/wrestler-list.tsx:53 | the result keeps the loaded order |
| FilterDialog.NamesMembers | components/filter-dialog.tsx:27-31 | a name is extracted iff some loaded wrestler has a related entity of that kind with that name |
| FilterDialog.OptionsSpec | components/filter-dialog.tsx:27-31 | each option list has no duplicates, and a name is an option iff some wrestler has a related entity of that kind with that name |
| FilterDialog.OptionsFirstOccurrenceOrder | components/filter-dialog.tsx:27 | options appear in the order of their first occurrence across the wrestlers |
| FilterDialog.HandleChangeSpec | components/filter-dialog.tsx:33-73 | checking appends the name to that kind's list; unchecking removes every occurrence and keeps the rest in order; the other two lists never change |
| FilterDialog.CheckThenUncheck | components/filter-dialog.tsx:33-45 | checking then unchecking a name that was absent restores the filters |
| FilterDialog.ClearedShowsSearch | components/filter-dialog.tsx:75-81 | after clearing (`Cleared`, three empty lists), a wrestler is shown iff it is loaded and its lower-cased name contains the lower-cased query (components/wrestler-list.tsx:53-70); with no query every loaded wrestler is shown, in order |
| EntityList.ToggleSwaps | components/promotion-list.tsx:124-126 | the toggle always changes the order, and twice is the identity. Also components/faction-list.tsx:124-126: the same toggle; components/championship-list.tsx:214-216: the same toggle |
| EntityList.SearchSpec | components/promotion-list.tsx:59-61 | the search keeps exactly the rows whose lower-cased name contains the lower-cased query, in order; the empty query keeps all. Also components/faction-list.tsx:59-61: the same search; components/championship-list.tsx:149-151: the same search |
| EntityList.SortedIsPermutation | components/promotion-list.tsx:64-70 | the sorted list is a permutation of the searched list. Also components/faction-list.tsx:64-70: the same; components/championship-list.tsx:154-160: the same |
| EntityList.CountModeNonIncreasing | components/promotion-list.tsx:67-68 | in count mode the counts never increase along the list. Also components/faction-list.tsx:67-68: the same; components/championship-list.tsx:157-158: the same |
| EntityList.NameModeAscending | components/promotion-list.tsx:65-66 | in name mode, under a total preorder, each name comes before every later one. Also components/faction-list.tsx:65-66: the same; components/championship-list.tsx:155-156: the same |
| EntityList.ImageUploadSupportedIff | components/promotion-list.tsx:44-45 | the flag holds iff some loaded row carries an `image_url` key, and is false for an empty list. Also components/faction-list.tsx:44-45: the same |
| EntityList.ImageUploadMatchesColumn | components/promotion-list.tsx:40-45 | on a well-formed store, the flag holds iff the load succeeds, the table is non-empty and it has the column |
| ChampionshipDialog.Dialog.Open | components/championship-list.tsx:38-48 | opening on a championship fills in its name; opening on none clears it |
| ChampionshipDialog.Dialog.SaveDisabled | components/championship-list.tsx:104 | Save is disabled while the name is empty or a save is running; `HandleSave` leaves it disabled after a success, and after a failure enabled iff a name was typed |
| ChampionshipDialog.Dialog.HandleSave | components/championship-list.tsx:50-80 | calls update iff a championship is being edited, and create otherwise; a saved row is passed on and the name reset, leaving Save disabled; a null result passes nothing on, keeps the name and reports an error; saving ends |
| ChampionshipDialog.SaveSpec | components/championship-list.tsx:56-62 | a null result leaves the store unchanged; a saved row has the typed name, and the edited championship's id or the store's next id |
| ChampionshipDialog.SaveUpdatesIffEditing | components/championship-list.tsx:56-62 | when the write succeeds, creating appends a row with the next id, and editing keeps the table size and gives a row with that id and name iff the id exists |
| WrestlerDialog.WithId | components/wrestler-dialog.tsx:320-324 | selecting keeps the selected ids, adds the new one, and grows the list by at most one at the end |
| WrestlerDialog.WithIdKeepsNoDuplicates | components/wrestler-dialog.tsx:322 | an already selected id leaves the list unchanged, another is appended, and the list stays duplicate-free |
| WrestlerDialog.RemoveSpec | components/wrestler-dialog.tsx:257-267 | removing deletes every occurrence of the id, keeps the other ids in order, and keeps duplicate-freeness |
| WrestlerDialog.NameOfSpec | components/wrestler-dialog.tsx:269-279 | the name shown is that of the first loaded entity with that id, or `""` when there is none |
| WrestlerDialog.OfferedSpec | components/wrestler-dialog.tsx:333-334 | the dropdown offers exactly the loaded entities not selected, in loaded order; choosing one appends its id |
| WrestlerDialog.EditStoresSelection | components/wrestler-dialog.tsx:136-139 | editing an existing wrestler stores one junction row per selected id, and reads back exactly the existing selected entities |
| WrestlerDialog.CreateStoresSelection | components/wrestler-dialog.tsx:140-142 | creating gives a wrestler with the next id and the name, with one junction row per selected id |
| WrestlerDialog.SaveSpec | components/wrestler-dialog.tsx:134-142 | `updateWrestler` iff editing, `createWrestler` otherwise; a null result leaves the store unchanged, and a create gives null only when its insert fails; a saved wrestler has the form's name |
| WrestlerDialog.SavedImage | components/wrestler-dialog.tsx:117-126 | with the form built by `SaveForm` from `FinalImageUrl`, a saved wrestler is in the table with the typed name and the edited id or the next id; its image is the uploaded URL iff a file was chosen and the upload gave a non-empty URL, and the form's URL otherwise |
| WrestlerDialog.OpenedSelectionFresh | components/wrestler-dialog.tsx:68-70 | on a well-formed store, the ids `IdsOf` takes from a looked-up wrestler's entities are distinct and below the next id |
| WrestlerDialog.AddSpecIsNext | components/wrestler-dialog.tsx:193-196 | an inline create either returns null and changes nothing, or returns a row with the next id, the name and no image, which is in the table, and moves the next id on by one. Also components/wrestler-dialog.tsx:215-218 and 237-240: the same for factions and championships |
| WrestlerDialog.AddKeepsNoDuplicates | components/wrestler-dialog.tsx:196 | appending an id above every selected one keeps the selection free of repeats, with every id below the next one. Also components/wrestler-dialog.tsx:218 and 240: the same for factions and championships |
| WrestlerDialog.Dialog.Open | components/wrestler-dialog.tsx:65-76 | opening on a wrestler fills in its name, its three id lists and its image URL or `""`; opening on none resets the form |
| WrestlerDialog.Dialog.Name | components/wrestler-dialog.tsx:269-279 | the name shown for an id is that of the first loaded entity of the kind with it, or `""` when there is none |
| WrestlerDialog.Dialog.Options | components/wrestler-dialog.tsx:333-334 | the dropdown holds exactly the loaded entities of the kind whose id is not selected, in loaded order. Also components/wrestler-dialog.tsx:382-383 and 431-432: the same for factions and championships |
| WrestlerDialog.Dialog.SaveDisabled | components/wrestler-dialog.tsx:490 | Save is disabled while the name is empty or a save is running; `HandleSave` leaves it disabled after a success, and after a failure enabled iff a name was typed |
| WrestlerDialog.Dialog.ResetForm | components/wrestler-dialog.tsx:102-110 | the name, the selections, the URL and the file are cleared, and nothing else changes |
| WrestlerDialog.Dialog.LoadData | components/wrestler-dialog.tsx:78-100 | the three loaded lists become the store's three entity lists as the data layer returns them |
| WrestlerDialog.Dialog.SelectId | components/wrestler-dialog.tsx:320-324 | that kind's selection becomes `WithId` of it, and the other selections are unchanged |
| WrestlerDialog.Dialog.RemoveId | components/wrestler-dialog.tsx:257-267 | that kind's selection loses every occurrence of the id, and the other selections are unchanged |
| WrestlerDialog.Dialog.HandleAdd | components/wrestler-dialog.tsx:191-255 | the store and result are those of `AddSpec`, a name-only create; a created entity is appended to that kind's loaded list and its id to the selection; on null nothing else changes; a selection free of repeats and below the next id stays so, for every kind |
| WrestlerDialog.Dialog.ChooseFile | components/wrestler-dialog.tsx:162-185 | choosing or dropping a file records it and changes nothing else |
| WrestlerDialog.Dialog.ClearImage | components/wrestler-dialog.tsx:466-471 | the URL and the file are cleared |
| WrestlerDialog.Dialog.HandleSave | components/wrestler-dialog.tsx:112-160 | uploads iff a file is chosen, saves the form of `SaveForm` with the URL of `FinalImageUrl` by update iff editing, passes a saved wrestler on and resets the form, leaving Save disabled, and on null keeps the form and reports an error |
| EntityDialog.EscapedSave | components/faction-dialog.tsx:86-101 | when create or update throws, the faction dialog retries once without an image, so every stored image of a table with unique ids is kept, and the flag goes off. Also components/promotion-dialog.tsx:75-104: a thrown promotion write has no retry: the save fails and the store is unchanged |
| EntityDialog.FlagOffStaysOff | components/faction-dialog.tsx:60-130 | once the flag is off, a save attempts no upload, sends no image and leaves the flag off |
| EntityDialog.FlagOffKeepsImages | components/faction-dialog.tsx:66-102 | a save that starts with the flag off attempts no upload and, whatever the data layer does, leaves every stored image of a table with unique ids as it was. Also components/promotion-dialog.tsx:59-81: the same for promotions |
| EntityDialog.CallWithoutImageKeepsImages | components/faction-dialog.tsx:82-102 | a create or update sent without an image keeps every stored image and adds only rows without one. Also components/promotion-dialog.tsx:75-81: the same for promotions |
| EntityDialog.CallSpec | components/faction-dialog.tsx:82-92 | update iff editing, create otherwise; a null result leaves the store unchanged; a saved row has the typed name and the edited id or the next id. Also components/promotion-dialog.tsx:75-81: the same for promotions |
| EntityDialog.SaveSpec | components/faction-dialog.tsx:82-102 | the call, or after a throw the faction retry without an image; a null result leaves the store unchanged; a saved row has the typed name and the edited id or the next id; a thrown promotion write saves nothing. Also components/promotion-dialog.tsx:75-81: the promotion call |
| EntityDialog.FactionSaveWithoutColumn | components/faction-dialog.tsx:93-113 | without the column, a faction created with an uploaded image is saved without it, a warning is issued and the flag goes off |
| EntityDialog.PromotionSaveWithoutColumn | components/promotion-dialog.tsx:53-98 | without the column and with the flag on, a promotion edit always fails with the store unchanged and the flag still on; so does a create with an uploaded image |
| EntityDialog.ThrownUploadClearsImage | components/promotion-dialog.tsx:65-77 | with the column present, a thrown upload while editing sends `""` and the saved row's image becomes empty, with no warning and the flag off. Also components/faction-dialog.tsx:72-85: the same for factions |
| EntityDialog.Dialog.Open | components/faction-dialog.tsx:40-51 | opening fills in the name; the flag comes back on only when the faction has a non-empty image, whose URL is then shown; opening on none resets the form. Also components/promotion-dialog.tsx:33-44: the same for promotions |
| EntityDialog.Dialog.ResetForm | components/faction-dialog.tsx:53-58 | the name, the URL and the file are cleared, and nothing else changes. Also components/promotion-dialog.tsx:46-51: the same for promotions |
| EntityDialog.Dialog.ChooseFile | components/faction-dialog.tsx:132-155 | choosing or dropping a file records it and changes nothing else. Also components/promotion-dialog.tsx:111-133: the same for promotions |
| EntityDialog.Dialog.SaveDisabled | components/faction-dialog.tsx:233 | Save is disabled while the name is empty or a save is running; `HandleSave` leaves it disabled after a success, and after a failure enabled iff a name was typed. Also components/promotion-dialog.tsx:209: the same for promotions |
| EntityDialog.Dialog.HandleSave | components/faction-dialog.tsx:60-130 | the store and result are those of the upload step (`UploadStep`: attempted iff a file is chosen and the flag is on; a non-empty URL replaces the form's), then an update iff editing with the image argument fixed by the flag at the start (`ImageArgument`), then the retry on a throw; the flag only goes off, and goes off when a non-empty URL was meant but the saved row has no image (`FlagAfterSave`); uploads go to the `factions` folder; a warning on a dropped image; a saved row is passed on and the form reset, a null keeps the form and reports an error. Also components/promotion-dialog.tsx:53-104: the same steps for promotions, without the retry; uploads go to the default `wrestlers` folder |
| CreateEntityDialog.Submission | components/create-entity-dialog.tsx:20-25 | a name is submitted iff it is not all white space, and what is submitted is the trimmed name, non-empty with no white space at either end |
| CreateEntityDialog.SubmissionIdempotent | components/create-entity-dialog.tsx:21-22 | submitting what was submitted gives the same submission |
| CreateEntityDialog.Dialog.SetName | components/create-entity-dialog.tsx:39 | typing sets the name and submits nothing |
| CreateEntityDialog.Dialog.HandleSave | components/create-entity-dialog.tsx:20-25 | a non-blank name is submitted trimmed and the field reset; a blank one submits nothing and keeps the field |
| CreateEntityDialog.SaveDisabledIffBlank | components/create-entity-dialog.tsx:49 | Save is disabled iff the trimmed name is empty, that is iff nothing would be submitted |

## Left out

- `getPromotion`, `getFaction` and `getChampionship` (lib/database.ts:251-262, 560-571, 688-699) are single-row reads that no modelled screen uses.
- Client construction and caching (lib/supabase.ts, lib/supabase-server.ts, lib/supabase-provider.tsx) are library calls with no logic.
- The upload plumbing is not modelled: the file reading, the server action, the object-storage call and the random file name (lib/storage.ts, lib/server-actions.ts). The upload's result is a parameter. `uploadImage` catches every error and returns null (lib/storage.ts:3-14), so the dialogs' upload catch is unreachable as written. It is modelled anyway, as the `UploadThrew` outcome.
- Bucket provisioning (lib/create-storage-bucket.ts, app/page.tsx) is I/O only.
- Presentation is not modelled: JSX, toasts, loading flags, image previews, and the dialogs that only display data (admin-dashboard, admin-header, admin-sidebar, championship-wrestlers-dialog). The dialogs count toasts as `warnings` and `errors` only.
- `Promise.all` is modelled as sequential steps in order. Junction rows have no observable order beyond what is stated.
- `localeCompare` and `ORDER BY name` are a comparator parameter. The ordering lemmas require it to be a total preorder. The JavaScript sort is modelled as a stable insertion sort.
- `toLowerCase` folds ASCII letters only. `trim` removes the white-space and line-terminator characters of the JavaScript definition.
- Timestamps are an opaque `now` string. The store's `created_at` default is taken to be `now`.
- Ids come from one counter shared by all tables.
- An `.in(...)` query returns rows in table order.
- A write that throws or reports an error is taken not to change the store.
- A missing `image_url` column is modelled by the error message that names it.
- The nested throws inside the data-layer fallbacks are not modelled separately. A throw that escapes a data-layer fallback is the `escaped` flag of the promotion and faction dialogs.
- `loadData` in the wrestler dialog has a catch that is unreachable, because the `get*` functions return `[]` on error. It is not modelled.
- Concurrency between screens and the React re-render schedule are not modelled. A handler's effects are applied in program order, and each handler sees the state from when it began.
