# Translation Management API — a verified model of its core

This project models, in Dafny, the data layer of a Laravel service that stores
translation strings (a key such as `common.welcome`, a locale such as `en`, and a
value), tags them, searches them and exports them as nested JSON maps. It also
models the command that bulk-seeds the store. The model's state consists of:

- a translations table (`id -> key, locale, value`) with its auto-increment counter;
- a tag table (`id -> name`);
- the tag pivot, a set of `(translation id, tag id)` pairs.

The Eloquent calls the code relies on get in-memory meanings:

| Eloquent call | meaning in the model |
|---|---|
| `where` on a query (`byLocale`) | exact match |
| `where` on a collection (`exportByLocale`) | PHP `==`: two digit strings compare as numbers (see Findings) |
| `like '%p%'` | substring containment |
| `whereHas`/`whereIn` | set overlap |
| `sync` | set replacement |
| `findOrFail` | a `NotFound` result |
| `paginate` | first page plus total |
| `groupBy`/`pluck` | a last-write-wins fold |
| `upsert` | insert-or-overwrite on `(key, locale)` |

The modules follow the program:

- `Wrappers`: `Option`, `Result`, the error kinds, and the id-ordered scan of a table.
- `Text`: substring search, string order, and decimal rendering of ids.
- `TranslationModel`: `app/Models/Translation.php`, covering the record, `$fillable` mass assignment and the four scopes.
- `Translations`: `app/Repositories/TranslationRepository.php`, as the class `TranslationRepository` over the table and the pivot, plus the search and export-order specifications.
- `Export`: `app/Services/ExportService.php`, as pure functions over the rows of `getAllForExport()`.
- `Tags`: `app/Repositories/TagRepository.php`, as the class `TagRepository`.
- `Services`: `app/Services/TranslationService.php`, as the class `TranslationService`, which holds a repository.
- `Seeding`: the batch loop of `app/Console/Commands/SeedTranslationsCommand.php`. It includes the upsert, the key and value generators, and the batch arithmetic.

Two invariants govern the store, both kept by every write:

- `TranslationRepository.Valid()`: every row is stored under its own id below the counter, no two rows share `(key, locale)`, and every pivot row names an id already handed out.
- `TagRepository.Valid()`: every tag id is below the counter, and names are unique.

The `(key, locale)` and tag-name uniqueness constraints live in database migrations that are not part of this model. The model carries them as these invariants. For tags, the form requests also reject a taken name (`app/Http/Requests/StoreTagRequest.php:34`, `app/Http/Requests/UpdateTagRequest.php:35`). For translations, no request rule checks the pair (`app/Http/Requests/StoreTranslationRequest.php:29-52`). There the database constraint raises a query exception, which the controller does not catch: it catches only a missing model (`app/Http/Controllers/Api/TranslationController.php:124`, `:150`). The model renders that failed write as the `Conflict` result, with the store unchanged.

## Model

| member | source | states |
|---|---|---|
| Wrappers.Ascending | app/Repositories/TranslationRepository.php:27-30 | the ids of a table below its counter, strictly ascending and each exactly once: the order in which the model lists a table (SQL without ORDER BY promises no order; see Left out) |
| Text.ContainsIffSlice | app/Models/Translation.php:57-60 | the sliding `LIKE '%p%'` test holds exactly when `p` is a contiguous slice of the string |
| Text.LessEqTotal | app/Repositories/TranslationRepository.php:111-112 | any two strings are ordered one way or the other, so sorting by text is well defined |
| Text.LessEqAntisymmetric | app/Repositories/TranslationRepository.php:111-112 | two strings each ordered before the other are equal |
| Text.Decimal | app/Console/Commands/SeedTranslationsCommand.php:112 | the interpolated form of an id is a non-empty run of digits |
| Text.ParseDecimalInverts | app/Console/Commands/SeedTranslationsCommand.php:112 | reading the decimal rendering of an id back gives the id |
| Text.DecimalInjective | app/Console/Commands/SeedTranslationsCommand.php:112 | different ids render differently |
| TranslationModel.Fill | app/Models/Translation.php:32-36 | mass assignment keeps the id; each of key, locale and value takes the supplied value when the input has it and keeps its value otherwise |
| TranslationModel.FillableOnly | app/Models/Translation.php:32-36 | exactly the input's fillable names (key, locale, value) survive, each with the value it was given |
| TranslationModel.FillIgnoresGuarded | app/Models/Translation.php:32-36 | attributes outside `$fillable` have no effect on the record |
| TranslationModel.Holds | app/Models/Translation.php:49-81 | the four scopes as conditions: `byLocale` is exact locale equality, `byKeyPattern`/`byContent` are `LIKE '%p%'`, `byTags` is overlap with the id list; the lemmas below state each |
| TranslationModel.ByKeyPatternIsSlice | app/Models/Translation.php:57-60 | `byKeyPattern(p)` keeps a record exactly when `p` occurs contiguously in its key |
| TranslationModel.ByContentIsSlice | app/Models/Translation.php:65-68 | `byContent(c)` keeps a record exactly when `c` occurs contiguously in its value |
| TranslationModel.ByTagsIsOverlap | app/Models/Translation.php:75-81 | `byTags(ids)` keeps a record exactly when its tag set shares at least one id with the list (OR, not AND) |
| TranslationModel.ByTagsSingleIsList | app/Models/Translation.php:77 | a single id filters exactly like the one-element list |
| TranslationModel.ByTagsNeedsATag | app/Models/Translation.php:79-81 | an untagged record never passes `byTags` |
| TranslationModel.ByTagsGrows | app/Models/Translation.php:79-81 | listing more ids never drops a record that passed |
| Translations.RowsInIdOrder | app/Repositories/TranslationRepository.php:27-30 | reading the table yields ids in ascending order and exactly the stored rows |
| Translations.Sync | app/Repositories/TranslationRepository.php:119-123 | after `sync`, the translation's tag set is exactly the given ids, and every other translation's links are untouched |
| Translations.SyncIdempotent | app/Repositories/TranslationRepository.php:119-123 | a second `sync` with the same ids changes nothing |
| Translations.Admits | app/Repositories/TranslationRepository.php:84-98 | the conjunction of the scopes whose filter `empty()` keeps; `Matches` and the step lemmas state its use |
| Translations.Matches | app/Repositories/TranslationRepository.php:80-101 | the search's specification: a row is selected exactly when it satisfies every filter that PHP `empty()` does not discard (null, `""`, `"0"`, `0`, `[]`) |
| Translations.Narrow | app/Repositories/TranslationRepository.php:84-98 | one chained scope keeps exactly the rows that pass it |
| Translations.MatchesKeepsOrder | app/Repositories/TranslationRepository.php:100 | filtering keeps the rows in id order |
| Translations.NarrowMatches | app/Repositories/TranslationRepository.php:82-98 | chaining a scope onto a query equals adding that condition to the conjunction |
| Translations.KeyStep | app/Repositories/TranslationRepository.php:84-86 | applying `byKeyPattern` only when the key filter is non-empty adds exactly the key filter to the conjunction |
| Translations.LocaleStep | app/Repositories/TranslationRepository.php:88-90 | applying `byLocale` only when the locale filter is non-empty adds exactly the locale filter |
| Translations.ContentStep | app/Repositories/TranslationRepository.php:92-94 | applying `byContent` only when the content filter is non-empty adds exactly the content filter |
| Translations.TagsStep | app/Repositories/TranslationRepository.php:96-98 | applying `byTags` only when the tags filter is non-empty adds exactly the tags filter |
| Translations.MatchesWithoutFilters | app/Repositories/TranslationRepository.php:84-98 | with every filter absent or empty, the search selects every row, as `paginate` does |
| Translations.MatchesShrink | app/Repositories/TranslationRepository.php:84-98 | a stricter condition never selects more rows |
| Translations.AddingFilterNarrows | app/Repositories/TranslationRepository.php:84-98 | adding a filter never raises the match count, and every new match was an old one |
| Translations.HydratedTable | app/Repositories/TranslationRepository.php:27-30 | the table loaded `with('tags')` lists each stored row once, in id order, with its own tags |
| Translations.FirstPage | app/Repositories/TranslationRepository.php:100 | the first page holds `min(perPage, total)` rows, the first ones of the query with their tags, and `total` counts every match |
| Translations.RowLeTotal | app/Repositories/TranslationRepository.php:111-112 | any two rows are ordered by (locale, key) one way or the other |
| Translations.Insert | app/Repositories/TranslationRepository.php:111-112 | inserting a row into a sorted list keeps it sorted and adds exactly that row |
| Translations.SortForExport | app/Repositories/TranslationRepository.php:109-113 | the result is sorted by locale then key and is a permutation of the rows |
| Translations.TranslationRepository.constructor | app/Repositories/TranslationRepository.php:20-22 | an empty store that satisfies the invariant |
| Translations.TranslationRepository.All | app/Repositories/TranslationRepository.php:27-30 | every stored translation appears once, in id order, with exactly its tags, and nothing else appears |
| Translations.TranslationRepository.Find | app/Repositories/TranslationRepository.php:35-38 | null exactly for an unknown id; otherwise the stored record with its tags |
| Translations.TranslationRepository.Create | app/Repositories/TranslationRepository.php:43-46 | `Conflict` exactly when the `(key, locale)` pair is taken, with nothing changed; otherwise one new untagged row under the next id, holding the given fields |
| Translations.TranslationRepository.Update | app/Repositories/TranslationRepository.php:51-57 | `NotFound` for an unknown id and `Conflict` when another row holds the new pair, both leaving the store unchanged; otherwise only that row changes, to the mass-assigned record, and it is returned with its tags |
| Translations.TranslationRepository.Delete | app/Repositories/TranslationRepository.php:62-67 | `NotFound` for an unknown id, with the table unchanged; otherwise exactly that row is removed and `true` returned; the pivot is not touched |
| Translations.TranslationRepository.Paginate | app/Repositories/TranslationRepository.php:72-75 | `total` = number of rows; page one holds the first `perPage` rows in id order with their tags; a size of 0 falls back to the model's default of 15, and a negative size puts every row on the page |
| Translations.TranslationRepository.Search | app/Repositories/TranslationRepository.php:80-101 | the conditional chain of scopes returns the first page of exactly the rows `Matches` selects |
| Translations.TranslationRepository.ExportRows | app/Repositories/TranslationRepository.php:106-114 | every stored row exactly once, sorted by locale then key |
| Translations.TranslationRepository.SyncTags | app/Repositories/TranslationRepository.php:119-123 | `NotFound` for an unknown id, with nothing changed; otherwise the pivot becomes `Sync(links, id, tagIds)` and the table is unchanged |
| Export.Pluck | app/Services/ExportService.php:47 | `pluck('value', 'key')` as a fold in which a later row overwrites an earlier one; `ExportKeys` and `ExportLastWins` state its content |
| Export.Export | app/Services/ExportService.php:44-49 | `groupBy('locale')` then `pluck`; the lemmas below state its entries |
| Export.OfLocale | app/Services/ExportService.php:62 | the rows of one locale, in order, compared exactly (the corrected filter) |
| Export.ExportByLocale | app/Services/ExportService.php:57-65 | `pluck` over `OfLocale`; `ExportByLocaleAgrees` ties it to `Export` |
| Export.OfLocaleAsWritten | app/Services/ExportService.php:62 | the collection `where` as written, comparing locales with PHP `==` |
| Export.ExportByLocaleAsWritten | app/Services/ExportService.php:57-65 | `exportByLocale` as written, over the loose filter |
| Export.AsWrittenAgreesOffDigits | app/Services/ExportService.php:61-64 | for a locale that is not a digit string, the code as written and the exact filter export the same map |
| Export.LooseLocaleLeaks | app/Services/ExportService.php:61-64 | with rows of locales "1" and "01", `exportByLocale("1")` as written holds the key of the "01" row, which `export()["1"]` and the exact filter do not |
| Export.ExportOfNothing | tests/Unit/Services/ExportServiceTest.php:78-89 | an empty store exports as the empty map, both in full and per locale |
| Export.ExportLocales | app/Services/ExportService.php:45-48 | the export has an entry for a locale exactly when some row has that locale |
| Export.ExportKeys | app/Services/ExportService.php:46-48 | the keys under a locale are exactly the keys of that locale's rows |
| Export.ExportHasNoEmptyLocale | app/Services/ExportService.php:45-48 | no locale maps to an empty inner map |
| Export.ExportLastWins | app/Services/ExportService.php:44-49 | `export()[l][k]` is the value of the last row with locale `l` and key `k` |
| Export.ExportByLocaleAgrees | app/Services/ExportService.php:57-65 | `exportByLocale(l)` equals `export()[l]` when `l` occurs, and the empty map otherwise |
| Export.ExportByLocaleOwnRows | app/Services/ExportService.php:61-64 | every entry of `exportByLocale(l)` comes from a row of locale `l`, the last with that key |
| Export.ExportRoundTrip | tests/Feature/Api/ExportControllerTest.php:23-39 | when no pair has two values, every row's value is found at `[locale][key]` |
| Export.ExportEntryCount | tests/Feature/Api/ExportControllerTest.php:23-39 | when no pair repeats, the export holds exactly one entry per row |
| Export.StoreRowsConsistent | app/Repositories/TranslationRepository.php:106-114 | the rows read from a valid store never give one pair two values |
| Export.StoreRowsDistinct | app/Repositories/TranslationRepository.php:106-114 | the rows read from a valid store are pairwise distinct, with no `(key, locale)` pair repeated |
| Export.StoreExportEntryCount | app/Services/ExportService.php:44-49 | the export of a valid store holds exactly one entry per stored translation |
| Export.ExportShowsStoredValue | tests/Feature/Api/ExportControllerTest.php:75-89 | each export reads the current store: a stored translation's current value is what both exports return for its pair |
| Tags.FirstNamed | app/Repositories/TagRepository.php:42-45 | among ascending ids, the lowest id whose tag has the name, or none when no tag has it |
| Tags.TagRepository.constructor | app/Repositories/TagRepository.php:19-21 | an empty tag table that satisfies the invariant |
| Tags.TagRepository.All | app/Repositories/TagRepository.php:26-29 | every tag appears once, in id order, and nothing else appears |
| Tags.TagRepository.Find | app/Repositories/TagRepository.php:34-37 | null exactly for an unknown id; otherwise that tag |
| Tags.TagRepository.FindByName | app/Repositories/TagRepository.php:42-45 | null exactly when no tag has the name; otherwise a tag with that name, the one with the lowest id |
| Tags.TagRepository.Create | app/Repositories/TagRepository.php:50-53 | `Conflict` exactly when the name is taken, with nothing changed; otherwise one new tag under the next id, and names stay unique |
| Tags.TagRepository.Update | app/Repositories/TagRepository.php:58-64 | `NotFound` for an unknown id and `Conflict` when another tag has the name, both with nothing changed; otherwise only that tag is renamed and returned |
| Tags.TagRepository.Delete | app/Repositories/TagRepository.php:69-74 | `NotFound` for an unknown id, with nothing changed; otherwise exactly that tag is removed |
| Services.TranslationService.constructor | app/Services/TranslationService.php:20-22 | the service holds the repository it is given |
| Services.TranslationService.All | app/Services/TranslationService.php:29-32 | the repository's listing: every translation once, in id order, with its tags |
| Services.TranslationService.Paginate | app/Services/TranslationService.php:37-40 | the repository's first page, with the same fallback to 15 for a size of 0 and every row for a negative size |
| Services.TranslationService.Find | app/Services/TranslationService.php:45-48 | the repository's lookup: null exactly for an unknown id |
| Services.TranslationService.Search | app/Services/TranslationService.php:99-102 | the repository's search: the first page of the rows `Matches` selects |
| Services.TranslationService.Delete | app/Services/TranslationService.php:89-92 | the repository's delete, with the same `NotFound` case; the pivot and the id counter are unchanged |
| Services.TranslationService.Create | app/Services/TranslationService.php:56-66 | `Conflict` with nothing changed, id counter included, when the pair is taken; otherwise the new row under the next id, the counter advancing by one, whose tags are exactly the given ids; the pivot is synced only for a non-empty list and untouched for `[]` |
| Services.TranslationService.Update | app/Services/TranslationService.php:74-84 | `NotFound` or `Conflict` before any sync, with nothing changed; otherwise the row is updated; the id counter never changes; a null list leaves the tags alone, and any list, `[]` included, replaces them |
| Seeding.BatchCount | app/Console/Commands/SeedTranslationsCommand.php:99 | `(int) ceil($count / $batchSize)` by integer division; `CeilDivision` states its meaning |
| Seeding.CeilDivision | app/Console/Commands/SeedTranslationsCommand.php:99 | `batches * batchSize` is the least multiple of `batchSize` that reaches `count`, i.e. `batches = ceil(count / batchSize)` |
| Seeding.SomeBatchIffCount | app/Console/Commands/SeedTranslationsCommand.php:99 | there is at least one batch exactly when `count > 0` |
| Seeding.BatchStartsBeforeCount | app/Console/Commands/SeedTranslationsCommand.php:102-104 | every batch starts below `count` |
| Seeding.BatchLength | app/Console/Commands/SeedTranslationsCommand.php:104 | each batch size lies between 1 and `batchSize` |
| Seeding.CoveredIsPrefix | app/Console/Commands/SeedTranslationsCommand.php:102-104 | the first `k` batches cover exactly `min(k * batchSize, count)` ids |
| Seeding.BatchLengthsSum | app/Console/Commands/SeedTranslationsCommand.php:102-104 | the batch sizes sum to `count` |
| Seeding.EveryIdHasASlot | app/Console/Commands/SeedTranslationsCommand.php:106-109 | every id below `count` is `batch * batchSize + i` for a batch that runs and an `i` below its size |
| Seeding.SlotsDistinct | app/Console/Commands/SeedTranslationsCommand.php:106-109 | different `(batch, i)` slots give different unique ids |
| Seeding.NextBatch | app/Console/Commands/SeedTranslationsCommand.php:104 | batch `b` starts where the earlier batches stop, and its computed size is its share of the partition |
| Seeding.PhraseOptions | app/Console/Commands/SeedTranslationsCommand.php:209 | the phrase list for a prefix is never empty |
| Seeding.UnknownPrefixFallsBack | app/Console/Commands/SeedTranslationsCommand.php:209 | a prefix without its own list draws from the 'common' list |
| Seeding.EveryPrefixHasPhrases | app/Console/Commands/SeedTranslationsCommand.php:48-64 | each prefix the command draws has a phrase list of its own |
| Seeding.FakeValue | app/Console/Commands/SeedTranslationsCommand.php:211 | a value is a phrase of the prefix's list, a space, and a number from 1 to 1000 |
| Seeding.KeyFor | app/Console/Commands/SeedTranslationsCommand.php:112 | the key `{prefix}.key_{uniqueId}`; `KeyIdOfKey` and `KeysDistinct` state what it keeps |
| Seeding.KeyIdOfKey | app/Console/Commands/SeedTranslationsCommand.php:112 | a generated key gives back its unique id, whatever the prefix |
| Seeding.KeysDistinct | app/Console/Commands/SeedTranslationsCommand.php:107-113 | keys generated for different unique ids differ, even with different prefixes |
| Seeding.Generated | app/Console/Commands/SeedTranslationsCommand.php:107-117 | the record built for a unique id carries that id in its key and one of the ten seeded locales |
| Seeding.GeneratedKeysDistinct | app/Console/Commands/SeedTranslationsCommand.php:107-113 | whatever the random draws, no two rows of a run share a key, so no `(key, locale)` pair repeats |
| Seeding.UpsertRow | app/Console/Commands/SeedTranslationsCommand.php:121 | the upsert of one record on `(key, locale)`; the three lemmas below state its cases and invariant |
| Seeding.UpsertRowOverwrites | app/Console/Commands/SeedTranslationsCommand.php:121 | upserting a taken pair overwrites only the value of the row holding it; no row or id is added |
| Seeding.UpsertRowInserts | app/Console/Commands/SeedTranslationsCommand.php:121 | upserting a free pair inserts one row under the next id |
| Seeding.UpsertRowKeepsValid | app/Console/Commands/SeedTranslationsCommand.php:121 | an upsert keeps ids consistent and `(key, locale)` unique |
| Seeding.UpsertAll | app/Console/Commands/SeedTranslationsCommand.php:121 | the batch upsert as the records applied in order |
| Seeding.UpsertAllKeepsValid | app/Console/Commands/SeedTranslationsCommand.php:121 | a batch upsert keeps ids consistent and `(key, locale)` unique, and never lowers the counter |
| Seeding.Seeded | app/Console/Commands/SeedTranslationsCommand.php:102-129 | the table a run on an empty table builds: the first `n` generated records under ids `base` on |
| Seeding.SeededStateIsSeeded | app/Console/Commands/SeedTranslationsCommand.php:102-129 | a table holding exactly the generated rows under ids `base` to `base + n - 1` is the seeded table, with `n` rows |
| Seeding.NextKeyIsFree | app/Console/Commands/SeedTranslationsCommand.php:112-121 | during a run on an empty table, the next generated key is held by no row |
| Seeding.UpsertExtendsSeeded | app/Console/Commands/SeedTranslationsCommand.php:102-129 | during a run on an empty table, upserting the next batch only appends its rows |
| Seeding.UpsertBatch | app/Console/Commands/SeedTranslationsCommand.php:121 | the table becomes the batch upsert of the records, keeps the invariant, and the pivot is untouched |
| Seeding.Attachable | app/Console/Commands/SeedTranslationsCommand.php:183 | the sampled pivot rows that `insertOrIgnore` keeps, a definition whose meaning `AttachedPairsAreLive` states |
| Seeding.AttachedPairsAreLive | app/Console/Commands/SeedTranslationsCommand.php:183 | every kept pivot row was sampled and names a stored translation below the counter |
| Seeding.AttachSample | app/Console/Commands/SeedTranslationsCommand.php:161-184 | `insertOrIgnore` adds the sampled pivot rows and changes nothing else |
| Seeding.BuildBatch | app/Console/Commands/SeedTranslationsCommand.php:106-118 | the inner loop builds, for each `i`, the record of unique id `start + i` |
| Seeding.SeedBatch | app/Console/Commands/SeedTranslationsCommand.php:103-128 | one batch visits ids `start` to `start + size - 1`, keeps the invariant, appends on an empty-table run, and attaches tags only when asked |
| Seeding.RunBatches | app/Console/Commands/SeedTranslationsCommand.php:99-129 | the loop visits every id in `[0, count)` once in order, keeps the invariant, leaves an empty table with exactly `count` generated rows and the counter `count` past its start, and attaches tags once, after the last batch, only with `--with-tags` |
| Seeding.Seed | app/Console/Commands/SeedTranslationsCommand.php:69-140 | as `RunBatches`, after an optional truncation that also clears the pivot and restarts the ids, so a truncated run ends with exactly `count` rows and the next id `count` |

## Left out

- The controllers, routes, resources, authentication and form requests are left out. Their bounds appear only as preconditions: the 1 to 100 page size of `app/Http/Requests/SearchTranslationRequest.php:53-58` on `Search`. The listing's page size is not validated (`app/Http/Controllers/Api/TranslationController.php:44`), so `Paginate` takes any integer; the `(int)` cast that turns a non-numeric `per_page` into 0 happens in the controller. The search filters hold no `%`, `_` or `\`. Create receives key, locale and value.
- The database is not modelled: LIKE collation and case folding, the sort collation (text is ordered by character code), timestamps, transactions and concurrent writers.
- Translations.TranslationRepository.All, Translations.TranslationRepository.Paginate, Translations.TranslationRepository.Search and Tags.TagRepository.All: rows are returned in id order (`Wrappers.Ascending`). The queries (`app/Repositories/TranslationRepository.php:27-30`, `:72-75`, `:80-101`, `app/Repositories/TagRepository.php:26-29`) have no ORDER BY, so the database promises no order; the model fixes one.
- Export.ExportByLocaleAsWritten: PHP `==` is modelled only for strings made of digits. Other numeric strings (`" 1"`, `"1.0"`, `"1e0"`) also compare as numbers in PHP; the model compares them as text.
- Translations.TranslationRepository.Paginate, Translations.TranslationRepository.Search, Services.TranslationService.Paginate and Services.TranslationService.Search: only the first page is modelled. `paginate($perPage)` reads the page number from the request's `page` parameter (`app/Repositories/TranslationRepository.php:29`, `:100`); later pages are not modelled.
- Translations.TranslationRepository.Paginate: the cases for a size of 0 and for a negative size follow Laravel's paginator and query builder. That framework code is not part of this model: a falsy size is replaced by `Model::$perPage`, and a negative `limit` is ignored.
- Translations.TranslationRepository.Delete: foreign-key cascades live in migrations that are not part of this model. Deleting a translation leaves its pivot rows, as the code does. Deleting a tag does not remove its pivot rows here, because the tag repository does not hold the pivot.
- The tag id lists given to `sync`, `byTags` and the seeder's sample are not checked against the tag table.
- Seeding.Seed: a run on a non-empty table that is not truncated is only proved to keep the invariant. The exact resulting table is not stated.
- Seeding.Seed requires `batchSize > 0`. `--count` and `--batch` are taken as natural numbers. PHP would fail on division by zero and would cast negative or non-numeric options.
- `ceil` over a float is modelled by integer ceiling division. The two agree for the sizes involved.
- The randomness comes in as inputs:
  - each row's `array_rand` picks, its phrase pick and its `rand(1, 1000)` are an arbitrary function of the unique id, reduced to the picked-from range;
  - the sampled translations and tags of `attachTagsToSampleTranslations` are an input set of pivot rows.
- Seeding.AttachSample: the sample size is not modelled. The sample size uses `$total * 0.1` in floating point, and the 1 to 3 tags per translation are random.
- The progress bar, console output, query-log toggling and the foreign-key toggles around truncation are not modelled.
- `createDefaultTags` and `Tag::pluck('id')` are not modelled. The ids of existing tags only feed the random sample, which is an input here.
- Tag mass assignment is modelled as a rename of the `name` attribute. `app/Models/Tag.php` is not part of this model.

## Findings

| source | as written | input that shows it | evidently intended | confidence | as-written member | corrected member |
|---|---|---|---|---|---|---|
| app/Services/ExportService.php:61-63 | `exportByLocale` filters the collection with `where('locale', $locale)`, which compares with PHP `==`, so `"1" == "01"` | rows `(k1, "1", a)` and `(k2, "01", b)`: `exportByLocale("1")` holds `k2`, while `export()["1"]` holds only `k1` | the locale compared exactly, as the query scope `byLocale` does, so `exportByLocale(l)` is `export()[l]` | medium, not executed | Export.LooseLocaleLeaks | Export.ExportByLocaleAgrees |
