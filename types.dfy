/** The records the stores work on (src/types/manga.ts), restricted to the fields
    the store logic reads. */
module Types {

  datatype Option<T> = None | Some(value: T)

  /** An author's credit; the role is optional in the data. */
  datatype Role = Writer | Artist | Both
  datatype Author = Author(name: string, role: Option<Role>)

  datatype Status = Ongoing | Completed | Hiatus | Cancelled

  /** The string a status has in the data; filter options hold such strings. */
  function StatusName(s: Status): string {
    match s
    case Ongoing => "ongoing"
    case Completed => "completed"
    case Hiatus => "hiatus"
    case Cancelled => "cancelled"
  }

  /** Cross-media availability; carried through, never inspected by the stores. */
  datatype MediaMix = MediaMix(anime: bool, movie: bool, drama: bool, game: bool, merchandise: bool)

  /** One catalog title. `releaseDate` is the parsed release date in milliseconds since the
      epoch; a missing `authors` or `relatedWorks` array is the empty sequence. */
  datatype Manga = Manga(
    id: string,
    title: string,
    originalTitle: Option<string>,
    authors: seq<Author>,
    publisher: string,
    releaseDate: int,
    completionStatus: Status,
    genres: seq<string>,
    tags: seq<string>,
    rating: real,
    chapters: Option<int>,
    relatedWorks: seq<string>,
    mediaMix: Option<MediaMix>)

  /** Search and facet criteria; an absent numeric bound is `None`. */
  datatype FilterOptions = FilterOptions(
    search: string,
    genres: seq<string>,
    tags: seq<string>,
    status: seq<string>,
    yearFrom: Option<int>,
    yearTo: Option<int>,
    minRating: Option<real>,
    chaptersFrom: Option<int>,
    chaptersTo: Option<int>)

  datatype SortField = Title | ReleaseDate | Rating
  datatype SortDirection = Asc | Desc
  datatype SortOption = SortOption(field: SortField, direction: SortDirection)

  datatype UISettings = UISettings(darkMode: bool, itemsPerPage: int, savedFilters: Option<FilterOptions>)

  /** A visit: which title, and when (milliseconds since the epoch). */
  datatype HistoryItem = HistoryItem(mangaId: string, timestamp: int)

  /** The filter options nothing has narrowed: empty search, no facets, no bounds. */
  const DefaultFilters := FilterOptions("", [], [], [], None, None, None, None, None)
}
