/** The UI-state store (src/stores/ui.ts): the current filter and sort criteria, the facet
    vocabularies offered for filtering, and the persisted UI settings (dark mode, page
    size, a saved filter snapshot). The default dark mode, which the store reads from the
    browser's colour-scheme preference, is the constructor parameter `prefersDark`. */
module UIState {
  import opened Types
  import opened Seqs
  import opened Sorting
  import opened Strings

  /** `[...new Set(values)]`: each distinct value exactly once. */
  function Dedupe(values: seq<string>): (r: seq<string>)
    ensures NoDup(r)
    ensures forall x :: x in r <==> x in values
  {
    if values == [] then []
    else
      var init, last := values[..|values| - 1], values[|values| - 1];
      assert values == init + [last];
      var d := Dedupe(init);
      if last in d then d else d + [last]
  }

  /** Strictly increasing in the default string order: sorted, and no value twice. */
  predicate StrictlySorted(s: seq<string>) {
    forall i, j :: 0 <= i < j < |s| ==> CodeUnitLeq(s[i], s[j]) && s[i] != s[j]
  }

  /** `[...new Set(values)].sort()`: the distinct values, in increasing order. */
  function Vocabulary(values: seq<string>): (r: seq<string>)
    ensures forall x :: x in r <==> x in values
    ensures StrictlySorted(r)
  {
    var d := Dedupe(values);
    var r := SortBy(d, CodeUnitLeq);
    CodeUnitOrderIsTotalPreorder();
    SortBySorted(d, CodeUnitLeq);
    NoDupMultiplicity(d);
    NoDupMultiplicity(r);
    assert forall x :: x in r <==> x in multiset(d);
    r
  }

  const DefaultItemsPerPage := 12
  const DefaultSort := SortOption(ReleaseDate, Desc)

  class UIStore {
    var uiSettings: UISettings
    var filterOptions: FilterOptions
    var sortOption: SortOption
    var availableGenres: seq<string>
    var availableTags: seq<string>

    /** The facet vocabularies offered are always increasing and duplicate-free. The methods
        only preserve this invariant; none of their other clauses depends on it. */
    ghost predicate Valid()
      reads this
    {
      StrictlySorted(availableGenres) && StrictlySorted(availableTags)
    }

    /** The initial state: default filters, newest first, no vocabularies yet. */
    constructor (prefersDark: bool)
      ensures Valid()
      ensures uiSettings == UISettings(prefersDark, DefaultItemsPerPage, None)
      ensures filterOptions == DefaultFilters
      ensures sortOption == DefaultSort
      ensures availableGenres == [] && availableTags == []
    {
      uiSettings := UISettings(prefersDark, DefaultItemsPerPage, None);
      filterOptions := FilterOptions("", [], [], [], None, None, None, None, None);
      sortOption := SortOption(ReleaseDate, Desc);
      availableGenres := [];
      availableTags := [];
    }

    /** `initializeFilters`: offer exactly the distinct genres and tags seen, sorted. */
    method InitializeFilters(genres: seq<string>, tags: seq<string>)
      modifies this
      ensures Valid()
      ensures availableGenres == Vocabulary(genres) && availableTags == Vocabulary(tags)
      ensures uiSettings == old(uiSettings) && filterOptions == old(filterOptions)
      ensures sortOption == old(sortOption)
    {
      availableGenres := Vocabulary(genres);
      availableTags := Vocabulary(tags);
    }

    /** `resetFilters`: back to the default criteria; sorting and settings are untouched. */
    method ResetFilters()
      requires Valid()
      modifies this
      ensures Valid()
      ensures filterOptions == DefaultFilters
      ensures uiSettings == old(uiSettings) && sortOption == old(sortOption)
      ensures availableGenres == old(availableGenres) && availableTags == old(availableTags)
    {
      filterOptions := FilterOptions("", [], [], [], None, None, None, None, None);
    }

    /** `saveFilters`: snapshot the current criteria into the settings. */
    method SaveFilters()
      requires Valid()
      modifies this
      ensures Valid()
      ensures uiSettings == old(uiSettings).(savedFilters := Some(old(filterOptions)))
      ensures filterOptions == old(filterOptions) && sortOption == old(sortOption)
      ensures availableGenres == old(availableGenres) && availableTags == old(availableTags)
    {
      uiSettings := uiSettings.(savedFilters := Some(filterOptions));
    }

    /** `loadSavedFilters`: restore the snapshot if there is one, else change nothing. */
    method LoadSavedFilters()
      requires Valid()
      modifies this
      ensures Valid()
      ensures old(uiSettings).savedFilters.Some? ==> filterOptions == old(uiSettings).savedFilters.value
      ensures old(uiSettings).savedFilters.None? ==> filterOptions == old(filterOptions)
      ensures uiSettings == old(uiSettings) && sortOption == old(sortOption)
      ensures availableGenres == old(availableGenres) && availableTags == old(availableTags)
    {
      if uiSettings.savedFilters.Some? {
        filterOptions := uiSettings.savedFilters.value;
      }
    }

    /** `toggleDarkMode`: flips dark mode; page size and snapshot stay. */
    method ToggleDarkMode()
      requires Valid()
      modifies this
      ensures Valid()
      ensures uiSettings.darkMode == !old(uiSettings.darkMode)
      ensures uiSettings.itemsPerPage == old(uiSettings.itemsPerPage)
      ensures uiSettings.savedFilters == old(uiSettings.savedFilters)
      ensures filterOptions == old(filterOptions) && sortOption == old(sortOption)
      ensures availableGenres == old(availableGenres) && availableTags == old(availableTags)
    {
      uiSettings := uiSettings.(darkMode := !uiSettings.darkMode);
    }

    /** `setItemsPerPage`: sets the page size; dark mode and snapshot stay. */
    method SetItemsPerPage(count: int)
      requires Valid()
      modifies this
      ensures Valid()
      ensures uiSettings.itemsPerPage == count
      ensures uiSettings.darkMode == old(uiSettings.darkMode)
      ensures uiSettings.savedFilters == old(uiSettings.savedFilters)
      ensures filterOptions == old(filterOptions) && sortOption == old(sortOption)
      ensures availableGenres == old(availableGenres) && availableTags == old(availableTags)
    {
      uiSettings := uiSettings.(itemsPerPage := count);
    }
  }

  /** Saving and then loading, with nothing in between, leaves the criteria as they were. */
  method SaveThenLoad(store: UIStore)
    requires store.Valid()
    modifies store
    ensures store.Valid()
    ensures store.filterOptions == old(store.filterOptions)
    ensures store.uiSettings == old(store.uiSettings).(savedFilters := Some(old(store.filterOptions)))
  {
    store.SaveFilters();
    store.LoadSavedFilters();
  }

  /** Two dark-mode toggles restore the settings. */
  method ToggleDarkModeTwice(store: UIStore)
    requires store.Valid()
    modifies store
    ensures store.Valid()
    ensures store.uiSettings == old(store.uiSettings)
    ensures store.filterOptions == old(store.filterOptions)
  {
    store.ToggleDarkMode();
    store.ToggleDarkMode();
  }
}
