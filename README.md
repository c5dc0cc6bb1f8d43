# Manga catalog stores — a Dafny model

This project models the three Pinia stores of a manga catalog web application and proves
properties of them:

- **Catalog** (`catalog.dfy`, from `src/stores/manga.ts`). It loads the catalog from two
  fetched documents and merges in the media-mix overrides, newest release first. It also
  covers lookup by id, faceted filtering with a case-insensitive text search, sorting by
  title, release date or rating, and the related-title heuristic (a 0–100 relationship
  score, at least 65 to count, top two shown).
- **Preferences** (`preferences.dfy`, from `src/stores/storage.ts`). It keeps the favourite
  ids, with add, remove, toggle and membership, and a visit history of at most 20 entries
  with one entry per title. The history view is newest first.
- **UI state** (`ui_state.dfy`, from `src/stores/ui.ts`). It holds the current filter and
  sort criteria and the facet vocabularies offered (deduplicated and sorted). It also keeps
  the UI settings: dark mode, page size and a saved filter snapshot.

Support modules:

- `types.dfy` holds the records of `src/types/manga.ts`.
- `seqs.dfy` models `Array.prototype.filter` and `map`, and defines subsequences and the
  absence of duplicates.
- `sorting.dfy` models `Array.prototype.sort` as a stable insertion sort under a comparator.
  A comparator `cmp` becomes `leq(a, b) := cmp(a, b) <= 0`.
- `strings.dfy` models `String.prototype.includes` and the default string order of `sort()`.

The catalog queries are functions of the store's title list. `Catalog.GetRelatedMangas`
stands for `getRelatedMangas`; its properties are in the rows `Catalog.StrongCandidatesFaithful`,
`Catalog.RankedCandidatesFaithful`, `Catalog.RankedCandidatesStable`,
`Catalog.GetRelatedMangasSound` and `Catalog.GetRelatedMangasTop`. `Catalog.LoadCatalog`
stands for the sort-and-merge step of `fetchMangas`; its properties are in the rows
`Catalog.LoadCatalogOrder`, `Catalog.LoadCatalogEntries` and `Catalog.LoadCatalogStable`. The three stores with state
(`CatalogStore`, `PreferenceStore`, `UIStore`) are classes. Their fields are what the
source mutates, and each method's contract states the store's whole new state.

Library behaviour and the environment are parameters, not definitions:

- `lower` stands for `toLowerCase`.
- `yearOf` stands for `getFullYear` of a parsed release date.
- `collate` stands for `localeCompare(…, 'ja')`. Sorting by title is proved ordered only
  for a collation that is antisymmetric in sign and transitive (`ConsistentCollation`).
- `now` stands for `Date.now()`.
- `prefersDark` stands for the `prefers-color-scheme` media query.
- The two fetch outcomes are the values `Response<T>`.

Release dates are integer millisecond timestamps.

Three behaviours of the code are worth knowing when reading the model:

- Author credits count as identical when each list contains every name of the other. Their
  lengths are not compared (`Catalog.RepeatedCreditMatches`).
- Shared genres and tags are counted once per entry of the first title's list, so a
  repeated genre scores twice (`Catalog.RepeatedGenreCountsTwice`).
- A visit replaces the earlier entries for its title and the history is then trimmed to the
  20 entries with the latest timestamps. A visit stamped earlier than 20 stored visits to
  other titles is therefore trimmed away at once (`Preferences.VisitedCanDropNewVisit`).

## Model

| member | source | states |
|---|---|---|
| Catalog.GetMangaById | src/stores/manga.ts:63-65 | Nothing is returned exactly when no title has the id; otherwise the result is the first title with that id in list order |
| Catalog.MatchesSearch | src/stores/manga.ts:222-248 | The loop with early returns answers true exactly when the lowered query occurs in the lowered title or original title, in the lowered author name, or in the lowered name followed by 原作 (writer) or 作画 (artist), or in the publisher |
| Catalog.SearchFindsOwnTitle | src/stores/manga.ts:226 | Searching for a title's own title always selects it |
| Catalog.ContainsAny | src/stores/manga.ts:250-252 | True exactly when the two lists share an element |
| Catalog.FilterMangas | src/stores/manga.ts:72-124 | The result is a subsequence of the catalog in catalog order; it holds exactly the catalog titles that match, each with every copy it has in the catalog |
| Catalog.FilterMangasKeepsExactly | src/stores/manga.ts:75-121 | A title is kept exactly when the search (if any) hits, and it shares a genre and a tag with the requested ones (if any). Its status must be a requested one (if any). Its year and chapter count (missing counts as 0) must lie within the inclusive bounds; a bound of 0 or absent is not in force. A positive minimum rating must be reached |
| Catalog.FilterUnconstrainedIsIdentity | src/stores/manga.ts:72-124 | With an empty search, no facet values and no bound in force, the whole catalog is returned unchanged |
| Catalog.FilterMangasIdempotent | src/stores/manga.ts:72-124 | Filtering the filtered catalog again with the same options returns it unchanged |
| Catalog.SortMangas | src/stores/manga.ts:133-151 | The result is a permutation of the input (same multiset, same length); the input value itself is not changed |
| Catalog.ComparatorIsTotalPreorder | src/stores/manga.ts:134-150 | The store's comparator, with the sign flip for descending order, is total and transitive for every field (for title, under a consistent collation) |
| Catalog.SortMangasOrdered | src/stores/manga.ts:133-151 | Ascending results are non-decreasing and descending results non-increasing in rating, in release date, and in collation order of titles |
| Catalog.SortMangasStable | src/stores/manga.ts:133-151 | Titles that compare equal keep their relative input order |
| Catalog.SortDirectionsMirror | src/stores/manga.ts:133-151 | When no two distinct titles compare equal, the descending result is exactly the ascending result reversed |
| Catalog.RelationshipScore | src/stores/manga.ts:159-199 | The score lies in [0, 100]. It is 100 whenever both author lists are non-empty and each contains every name of the other. A sum of the six weighted criteria below 100 is the score, and a score below 100 is that sum |
| Catalog.RelatedWithoutLinkSharesFacets | src/stores/manga.ts:171-198 | Without an author match or a series link, a score of at least 65 needs at least three shared genre or tag entries |
| Catalog.SameAuthorScoresFull | src/stores/manga.ts:159-199 | Worked example: two titles with the same single author score 100 |
| Catalog.DifferentAuthorScoresFifty | src/stores/manga.ts:159-214 | Worked example: the same pair with different authors scores 20 + 15 + 10 + 5 = 50 in both directions, so neither is among the other's related titles |
| Catalog.RepeatedCreditMatches | src/stores/manga.ts:163-169 | A name credited twice matches a single credit of that name: credits compare as sets, not as counted lists |
| Catalog.RepeatedGenreCountsTwice | src/stores/manga.ts:177-178 | A genre listed twice in the first title scores 20 twice |
| Catalog.StrongCandidatesFaithful | src/stores/manga.ts:203-209 | Before ranking, the candidates are exactly the other catalog titles paired with their true score, where that score is at least 65 |
| Catalog.RankedCandidatesFaithful | src/stores/manga.ts:203-210 | Every ranked candidate is a catalog title with another id, carrying its true score, which is at least 65. Every such title is among the candidates, and they are in non-increasing score order |
| Catalog.RankedCandidatesStable | src/stores/manga.ts:210 | Candidates with equal scores keep their catalog order |
| Catalog.GetRelatedMangasSound | src/stores/manga.ts:201-214 | At most 2 titles are returned. None has the input's id, each is in the catalog and scores at least 65, and they come in non-increasing score order |
| Catalog.GetRelatedMangasTop | src/stores/manga.ts:201-214 | Every other title scoring at least 65 is either returned, or two titles are returned and the second scores at least as high |
| Catalog.LoadCatalogOrder | src/stores/manga.ts:40-48 | The loaded catalog is a permutation of the merged input, sorted newest release first |
| Catalog.LoadCatalogEntries | src/stores/manga.ts:45-48 | Each entry is an input title whose media mix the override for its id replaced, if there is one; an entry without an override is an input title unchanged |
| Catalog.LoadCatalogStable | src/stores/manga.ts:40-42 | Titles with the same release date keep their order from the fetched data |
| Catalog.LoadError | src/stores/manga.ts:21-51 | A load records no error exactly when both fetches settled with an OK status. A rejected title-list fetch records its message (不明なエラーが発生しました when the rejection carries none), then a rejected media-mix fetch likewise; with both settled, a non-OK title list records マンガデータの取得に失敗しました and otherwise a non-OK media-mix map records メディアミックスデータの取得に失敗しました |
| Catalog.CatalogStore.constructor | src/stores/manga.ts:9-12 | The store starts with an empty catalog, an empty media-mix map, not loading and with no error |
| Catalog.CatalogStore.FetchMangas | src/stores/manga.ts:17-56 | Loading ends with the flag cleared and the error from LoadError. On success the catalog is the merged, date-sorted input and the media-mix map is the fetched one; on failure both keep their previous values |
| Preferences.WithFavorite | src/stores/storage.ts:27-31 | Adding keeps the favourites duplicate-free. A present id leaves the list unchanged; an absent id is appended at the end |
| Preferences.WithoutFavorite | src/stores/storage.ts:34-36 | Removing deletes every occurrence of the id and keeps every other id, with its multiplicity, in its original order |
| Preferences.ToggleTwiceRestores | src/stores/storage.ts:39-47 | Two toggles of the same id restore the set of favourites, and the list itself when the id was absent |
| Preferences.Visited | src/stores/storage.ts:55-74 | After a visit the history has at most 20 entries |
| Preferences.VisitedFromPushed | src/stores/storage.ts:62-73 | Every entry after a visit is the new one or an earlier entry for another title |
| Preferences.VisitedDistinct | src/stores/storage.ts:62-73 | A visit keeps the history at one entry per title, and the only entry left for the visited title is the new one |
| Preferences.VisitedUntrimmed | src/stores/storage.ts:62-66 | Without trimming, the new entry is last and the other entries keep their order and values |
| Preferences.VisitedTrimmed | src/stores/storage.ts:68-73 | With trimming exactly 20 entries remain, newest first, taken from the pushed history; nothing dropped is later than anything kept |
| Preferences.VisitedRecordsLatest | src/stores/storage.ts:55-74 | When the clock is past every stored visit, the new entry is kept |
| Preferences.VisitedCanDropNewVisit | src/stores/storage.ts:68-73 | When every stored visit is later than the clock and at least 20 are for other titles, the new entry is dropped immediately |
| Preferences.VisitedHeadsView | src/stores/storage.ts:24 | When the clock is past every stored visit, the new entry heads the newest-first view |
| Preferences.PreferenceStore.constructor | src/stores/storage.ts:8-18 | The default preferences: no favourites, no history, light mode, 12 items per page, and the store invariant |
| Preferences.PreferenceStore.HistoryView | src/stores/storage.ts:24 | The view is a permutation of the stored history, ordered by non-increasing timestamp |
| Preferences.PreferenceStore.IsFavorite | src/stores/storage.ts:50-52 | True exactly when the id occurs in the favourites |
| Preferences.PreferenceStore.AddToFavorites | src/stores/storage.ts:27-31 | The favourites become WithFavorite of the old ones; the invariant holds and nothing else changes |
| Preferences.PreferenceStore.RemoveFromFavorites | src/stores/storage.ts:34-36 | The favourites become WithoutFavorite of the old ones; the invariant holds and nothing else changes |
| Preferences.PreferenceStore.ToggleFavorite | src/stores/storage.ts:39-47 | Returns true exactly when the id was absent before, and afterwards IsFavorite of the id equals the returned value |
| Preferences.PreferenceStore.AddToHistory | src/stores/storage.ts:55-74 | The history becomes Visited of the old one, which keeps the invariant (at most 20 entries, one per title); favourites and settings are unchanged |
| Preferences.PreferenceStore.ClearHistory | src/stores/storage.ts:77-79 | The history becomes empty; favourites and settings are unchanged |
| Preferences.ToggleFavoriteTwice | src/stores/storage.ts:39-47 | Two toggles in a row report opposite outcomes and leave the favourite set and the history as they were |
| UIState.Dedupe | src/stores/ui.ts:39-40 | The distinct values of the input, each exactly once |
| UIState.Vocabulary | src/stores/ui.ts:39-40 | Exactly the distinct input values, strictly increasing in the default string order |
| UIState.UIStore.constructor | src/stores/ui.ts:8-35 | Settings start from the colour-scheme preference with 12 items per page and no snapshot. Filters start at the reset default and sorting at release date descending. No vocabularies exist yet |
| UIState.UIStore.InitializeFilters | src/stores/ui.ts:38-41 | The offered genres and tags become the vocabularies of the inputs; the criteria and settings are unchanged |
| UIState.UIStore.ResetFilters | src/stores/ui.ts:44-54 | The filter options become the default (empty search, no facets, no bounds); sorting, settings and vocabularies are unchanged |
| UIState.UIStore.SaveFilters | src/stores/ui.ts:57-59 | The settings' snapshot becomes the current filter options; all else is unchanged |
| UIState.UIStore.LoadSavedFilters | src/stores/ui.ts:62-66 | With a snapshot the filter options become it; without one nothing changes |
| UIState.UIStore.ToggleDarkMode | src/stores/ui.ts:69-71 | Dark mode flips; page size, snapshot and everything else are unchanged |
| UIState.UIStore.SetItemsPerPage | src/stores/ui.ts:74-76 | The page size becomes the argument; dark mode, snapshot and everything else are unchanged |
| UIState.SaveThenLoad | src/stores/ui.ts:57-66 | Saving and then loading leaves the filter options as they were at save time |
| UIState.ToggleDarkModeTwice | src/stores/ui.ts:69-71 | Two toggles restore the settings |

## Left out

- The network half of `fetchMangas` is not modelled: `fetch`, `Promise.all`, `.json()` and `console.error`. The two outcomes are parameters of `FetchMangas`, and a body that fails to decode is not modelled.
- Catalog.LoadError: when both fetches reject, the model reports the title-list rejection. `Promise.all` reports whichever rejection happens first in time, and the model has no timing.
- Catalog.CatalogStore.FetchMangas: the intermediate state is not observable to other code while the fetches are pending, because the model has no concurrency.
- Date parsing is not modelled. Release dates are integer timestamps, and the NaN an unparsable date produces is not modelled.
- Catalog.SortMangasOrdered: the title order is proved only for a collation that is antisymmetric in sign and transitive. Real Japanese collation rules are not modelled.
- Unicode lower-casing is not modelled; `lower` is an arbitrary function.
- UIState.Vocabulary: the default `sort()` compares UTF-16 code units. The model compares the characters of `seq<char>` lexicographically, which only agrees with it when no string contains characters outside the Basic Multilingual Plane.
- `Math.floor` on the score is not modelled, because the sum is always an integer. Ratings are `real`, so floating-point rounding is not modelled.
- Preferences.PreferenceStore.AddToHistory: the new visit is proved to be the only entry for its title only when the clock is past every stored visit (`VisitedRecordsLatest`); otherwise the trim may remove it (`VisitedCanDropNewVisit`).
- Persistence and reactivity are not modelled: `useLocalStorage`, `ref` and `computed`. Stores start from their defaults, and a previously persisted state is not read back.
- The computed `favorites` view of storage.ts is the `favorites` field itself.
- Sharing of arrays between the filter options and the saved snapshot is not modelled. Both are values, so later in-place changes to one cannot show in the other.
- The `uiSettings` record persisted with the preferences is carried but never changed there, as in the source.
- The router, the Vuetify plugin, the analytics helper, `main.ts` and the build configuration are not part of this model. They hold no store logic.
