/** The catalog store (src/stores/manga.ts): loading the title list, lookup by id,
    faceted filtering with text search, sorting, and related-title scoring.

    The queries are functions of the store's `mangaList`, passed in as `list`. Library
    behaviour the store relies on is a parameter: `lower` is `String.prototype.toLowerCase`,
    `yearOf` maps a release timestamp to its calendar year (`getFullYear`), and `collate`
    is `localeCompare(…, 'ja')`. */
module Catalog {
  import opened Types
  import opened Seqs
  import opened Sorting
  import opened Strings

  // ---------------------------------------------------------------- lookup

  /** `mangaList.find(manga => manga.id === id)`. */
  function GetMangaById(list: seq<Manga>, id: string): (r: Option<Manga>)
    ensures r.None? <==> forall k :: 0 <= k < |list| ==> list[k].id != id
    ensures r.Some? ==> exists k :: 0 <= k < |list| && list[k] == r.value && r.value.id == id
                                    && forall j :: 0 <= j < k ==> list[j].id != id
  {
    if list == [] then None
    else if list[0].id == id then Some(list[0])
    else
      var r := GetMangaById(list[1..], id);
      assert r.Some? ==> exists k :: 1 <= k < |list| && list[k] == r.value && r.value.id == id
                                     && forall j :: 0 <= j < k ==> list[j].id != id
      by {
        if r.Some? {
          var k :| 0 <= k < |list[1..]| && list[1..][k] == r.value && r.value.id == id
                   && forall j :: 0 <= j < k ==> list[1..][j].id != id;
          assert list[k + 1] == r.value;
          assert forall j :: 0 <= j < k + 1 ==> list[j].id != id by {
            forall j | 0 <= j < k + 1 ensures list[j].id != id {
              if j > 0 { assert list[j] == list[1..][j - 1]; }
            }
          }
        }
      }
      r
  }

  // ---------------------------------------------------------------- search

  /** The search label of an author role: "原作" (original work) for a writer, "作画" (art)
      for an artist, nothing otherwise. */
  function RoleText(role: Option<Role>): string {
    match role
    case Some(Writer) => "原作"
    case Some(Artist) => "作画"
    case _ => ""
  }

  /** The lowered query `q` occurs in the author's lowered name, or in the lowered name
      followed by its role label. */
  predicate AuthorHit(a: Author, q: string, lower: string -> string) {
    || Contains(lower(a.name), q)
    || (RoleText(a.role) != "" && Contains(lower(a.name + RoleText(a.role)), q))
  }

  /** Some searchable field of `m` contains the lowered query. */
  predicate SearchHit(m: Manga, search: string, lower: string -> string) {
    var q := lower(search);
    || Contains(lower(m.title), q)
    || (m.originalTitle.Some? && Contains(lower(m.originalTitle.value), q))
    || (exists k :: 0 <= k < |m.authors| && AuthorHit(m.authors[k], q, lower))
    || Contains(lower(m.publisher), q)
  }

  /** `matchesSearch`: the fields in the store's order, one author at a time, stopping at
      the first hit. */
  method MatchesSearch(m: Manga, search: string, lower: string -> string) returns (found: bool)
    ensures found == SearchHit(m, search, lower)
  {
    var q := lower(search);
    if Contains(lower(m.title), q) {
      return true;
    }
    if m.originalTitle.Some? && Contains(lower(m.originalTitle.value), q) {
      return true;
    }
    for i := 0 to |m.authors|
      invariant forall k :: 0 <= k < i ==> !AuthorHit(m.authors[k], q, lower)
    {
      var author := m.authors[i];
      if Contains(lower(author.name), q) {
        return true;
      }
      var roleText := RoleText(author.role);
      if roleText != "" && Contains(lower(author.name + roleText), q) {
        return true;
      }
    }
    found := Contains(lower(m.publisher), q);
  }

  /** Searching for a title's own title selects it, whatever the case mapping. */
  lemma SearchFindsOwnTitle(m: Manga, lower: string -> string)
    ensures SearchHit(m, m.title, lower)
  {
    ContainsInfix([], lower(m.title), []);
    assert [] + lower(m.title) + [] == lower(m.title);
  }

  // ---------------------------------------------------------------- filter

  /** `containsAny`: the two lists share an element. */
  function ContainsAny(list1: seq<string>, list2: seq<string>): (r: bool)
    ensures r <==> exists x :: x in list1 && x in list2
  {
    if list1 == [] then false
    else
      assert forall x :: x in list1 <==> x == list1[0] || x in list1[1..];
      list1[0] in list2 || ContainsAny(list1[1..], list2)
  }

  /** A numeric filter bound is in force when it is truthy: present and not 0. */
  predicate Truthy(bound: Option<int>) {
    bound.Some? && bound.value != 0
  }

  /** Inclusive range check; a bound that is not in force imposes nothing. */
  predicate WithinBounds(v: int, from: Option<int>, to: Option<int>) {
    (Truthy(from) ==> from.value <= v) && (Truthy(to) ==> v <= to.value)
  }

  /** `manga.chapters || 0`. */
  function ChapterCount(m: Manga): int {
    if m.chapters.Some? then m.chapters.value else 0
  }

  /** The minimum rating is in force when it is a number above 0. */
  predicate RatingFloorSet(o: FilterOptions) {
    o.minRating.Some? && o.minRating.value > 0.0
  }

  /** The per-title test of `filterMangas`: every category in force must pass. */
  predicate Matches(m: Manga, o: FilterOptions, lower: string -> string, yearOf: int -> int) {
    && (o.search == "" || SearchHit(m, o.search, lower))
    && (o.genres == [] || ContainsAny(m.genres, o.genres))
    && (o.tags == [] || ContainsAny(m.tags, o.tags))
    && (o.status == [] || StatusName(m.completionStatus) in o.status)
    && WithinBounds(yearOf(m.releaseDate), o.yearFrom, o.yearTo)
    && WithinBounds(ChapterCount(m), o.chaptersFrom, o.chaptersTo)
    && (RatingFloorSet(o) ==> m.rating >= o.minRating.value)
  }

  function Matcher(o: FilterOptions, lower: string -> string, yearOf: int -> int): Manga -> bool {
    (m: Manga) => Matches(m, o, lower, yearOf)
  }

  /** `filterMangas`: the matching titles, every copy, in catalog order. */
  function FilterMangas(list: seq<Manga>, o: FilterOptions, lower: string -> string, yearOf: int -> int): (r: seq<Manga>)
    ensures IsSubsequence(r, list)
    ensures forall m :: m in r <==> m in list && Matches(m, o, lower, yearOf)
    ensures forall m :: Matches(m, o, lower, yearOf) ==> multiset(r)[m] == multiset(list)[m]
  {
    FilterMultiplicity(list, Matcher(o, lower, yearOf));
    Filter(list, Matcher(o, lower, yearOf))
  }

  /** Options that narrow nothing: empty search, no facet values, no bound in force. */
  predicate Unconstrained(o: FilterOptions) {
    && o.search == "" && o.genres == [] && o.tags == [] && o.status == []
    && !Truthy(o.yearFrom) && !Truthy(o.yearTo)
    && !Truthy(o.chaptersFrom) && !Truthy(o.chaptersTo)
    && !RatingFloorSet(o)
  }

  /** With nothing in force the filter returns the whole catalog. */
  lemma FilterUnconstrainedIsIdentity(list: seq<Manga>, o: FilterOptions, lower: string -> string, yearOf: int -> int)
    requires Unconstrained(o)
    ensures FilterMangas(list, o, lower, yearOf) == list
  {
    FilterKeepsAll(list, Matcher(o, lower, yearOf));
  }

  /** Filtering a filtered list again changes nothing. */
  lemma FilterMangasIdempotent(list: seq<Manga>, o: FilterOptions, lower: string -> string, yearOf: int -> int)
    ensures FilterMangas(FilterMangas(list, o, lower, yearOf), o, lower, yearOf) == FilterMangas(list, o, lower, yearOf)
  {
    FilterIdempotent(list, Matcher(o, lower, yearOf));
  }

  /** AND across categories, OR within one: a catalog title is kept exactly when the search
      (if any) hits, it shares a genre and a tag with the requested ones (if any), its status
      is a requested one (if any), its year and chapter count (0 when missing) lie within
      the bounds in force, and its rating reaches a positive minimum. */
  lemma FilterMangasKeepsExactly(list: seq<Manga>, o: FilterOptions, lower: string -> string, yearOf: int -> int, m: Manga)
    requires m in list
    ensures m in FilterMangas(list, o, lower, yearOf) <==>
      && (o.search != "" ==> SearchHit(m, o.search, lower))
      && (o.genres != [] ==> exists g :: g in m.genres && g in o.genres)
      && (o.tags != [] ==> exists t :: t in m.tags && t in o.tags)
      && (o.status != [] ==> StatusName(m.completionStatus) in o.status)
      && (Truthy(o.yearFrom) ==> o.yearFrom.value <= yearOf(m.releaseDate))
      && (Truthy(o.yearTo) ==> yearOf(m.releaseDate) <= o.yearTo.value)
      && (Truthy(o.chaptersFrom) ==> o.chaptersFrom.value <= (if m.chapters.Some? then m.chapters.value else 0))
      && (Truthy(o.chaptersTo) ==> (if m.chapters.Some? then m.chapters.value else 0) <= o.chaptersTo.value)
      && (o.minRating.Some? && o.minRating.value > 0.0 ==> m.rating >= o.minRating.value)
  {
  }

  // ---------------------------------------------------------------- sort

  /** The sign of the store's comparator for ascending order. */
  function Comparison(field: SortField, collate: (string, string) -> int, a: Manga, b: Manga): real {
    match field
    case Title => collate(a.title, b.title) as real
    case ReleaseDate => (a.releaseDate - b.releaseDate) as real
    case Rating => a.rating - b.rating
  }

  /** `a` may stay in front of `b`: the comparator, negated for descending order, is not positive. */
  predicate InOrder(opt: SortOption, collate: (string, string) -> int, a: Manga, b: Manga) {
    var c := Comparison(opt.field, collate, a, b);
    (if opt.direction == Asc then c else -c) <= 0.0
  }

  function Comparator(opt: SortOption, collate: (string, string) -> int): (Manga, Manga) -> bool {
    (a: Manga, b: Manga) => InOrder(opt, collate, a, b)
  }

  /** What ECMAScript asks of a comparator, for `localeCompare`: swapping the arguments
      flips the sign, and "not after" is transitive. */
  ghost predicate ConsistentCollation(collate: (string, string) -> int) {
    && (forall x, y :: collate(x, y) <= 0 <==> collate(y, x) >= 0)
    && (forall x, y, z :: collate(x, y) <= 0 && collate(y, z) <= 0 ==> collate(x, z) <= 0)
  }

  /** `sortMangas`: a reordered copy of `mangas`; the input value is not touched. */
  function SortMangas(mangas: seq<Manga>, opt: SortOption, collate: (string, string) -> int): (r: seq<Manga>)
    ensures |r| == |mangas|
    ensures multiset(r) == multiset(mangas)
  {
    SortBy(mangas, Comparator(opt, collate))
  }

  lemma ComparatorIsTotalPreorder(opt: SortOption, collate: (string, string) -> int)
    requires opt.field == Title ==> ConsistentCollation(collate)
    ensures TotalPreorder(Comparator(opt, collate))
  {
    var leq := Comparator(opt, collate);
    forall a, b ensures leq(a, b) || leq(b, a) {
      if opt.field == Title {
        assert collate(a.title, b.title) <= 0 <==> collate(b.title, a.title) >= 0;
      }
    }
    forall a, b, c | leq(a, b) && leq(b, c) ensures leq(a, c) {
      if opt.field == Title {
        if opt.direction == Desc {
          assert collate(b.title, a.title) <= 0 && collate(c.title, b.title) <= 0;
          assert collate(c.title, a.title) <= 0;
        }
      }
    }
  }

  /** The result of `sortMangas` is in the requested order: by rating or release date
      non-decreasing for `asc` and non-increasing for `desc`, by title in the order of a
      consistent collation. */
  lemma SortMangasOrdered(mangas: seq<Manga>, opt: SortOption, collate: (string, string) -> int)
    requires opt.field == Title ==> ConsistentCollation(collate)
    ensures var r := SortMangas(mangas, opt, collate);
      && (opt == SortOption(Rating, Asc) ==> forall i, j :: 0 <= i < j < |r| ==> r[i].rating <= r[j].rating)
      && (opt == SortOption(Rating, Desc) ==> forall i, j :: 0 <= i < j < |r| ==> r[i].rating >= r[j].rating)
      && (opt == SortOption(ReleaseDate, Asc) ==> forall i, j :: 0 <= i < j < |r| ==> r[i].releaseDate <= r[j].releaseDate)
      && (opt == SortOption(ReleaseDate, Desc) ==> forall i, j :: 0 <= i < j < |r| ==> r[i].releaseDate >= r[j].releaseDate)
      && (opt == SortOption(Title, Asc) ==> forall i, j :: 0 <= i < j < |r| ==> collate(r[i].title, r[j].title) <= 0)
      && (opt == SortOption(Title, Desc) ==> forall i, j :: 0 <= i < j < |r| ==> collate(r[i].title, r[j].title) >= 0)
  {
    ComparatorIsTotalPreorder(opt, collate);
    SortBySorted(mangas, Comparator(opt, collate));
  }

  /** The sort is stable: titles that compare equal to `x0` (the same rating, the same
      release date, or titles the collation ranks equal) keep their relative input order. */
  lemma SortMangasStable(mangas: seq<Manga>, opt: SortOption, collate: (string, string) -> int, x0: Manga)
    requires opt.field == Title ==> ConsistentCollation(collate)
    ensures Filter(SortMangas(mangas, opt, collate), Tied(Comparator(opt, collate), x0))
         == Filter(mangas, Tied(Comparator(opt, collate), x0))
  {
    ComparatorIsTotalPreorder(opt, collate);
    SortByStable(mangas, Comparator(opt, collate), x0);
  }

  /** With no two distinct titles comparing equal, sorting descending gives exactly the
      ascending order reversed. */
  lemma SortDirectionsMirror(mangas: seq<Manga>, field: SortField, collate: (string, string) -> int)
    requires field == Title ==> ConsistentCollation(collate)
    requires forall x, y :: x in mangas && y in mangas && Comparison(field, collate, x, y) == 0.0 ==> x == y
    ensures Reverse(SortMangas(mangas, SortOption(field, Asc), collate))
         == SortMangas(mangas, SortOption(field, Desc), collate)
  {
    var up, down := Comparator(SortOption(field, Asc), collate), Comparator(SortOption(field, Desc), collate);
    ComparatorIsTotalPreorder(SortOption(field, Asc), collate);
    ComparatorIsTotalPreorder(SortOption(field, Desc), collate);
    FlippedComparison(field, collate);
    assert forall a, b :: down(a, b) == up(b, a);
    SortByConverse(mangas, up, down);
  }

  /** Swapping the titles compared flips the sign of the comparison. */
  lemma FlippedComparison(field: SortField, collate: (string, string) -> int)
    requires field == Title ==> ConsistentCollation(collate)
    ensures forall a, b :: Comparison(field, collate, a, b) <= 0.0 <==> Comparison(field, collate, b, a) >= 0.0
  {
    forall a, b ensures Comparison(field, collate, a, b) <= 0.0 <==> Comparison(field, collate, b, a) >= 0.0 {
      if field == Title {
        assert collate(a.title, b.title) <= 0 <==> collate(b.title, a.title) >= 0;
      }
    }
  }

  // ---------------------------------------------------------------- relationship score

  /** One year in milliseconds, without leap days. */
  const YearInMs := 365 * 24 * 60 * 60 * 1000
  /** The least score a related title needs, and how many are shown. */
  const RelatedThreshold := 65
  const MaxRelated := 2

  function Abs(x: int): int { if x < 0 then -x else x }

  function AuthorNames(m: Manga): seq<string> {
    MapSeq(m.authors, (a: Author) => a.name)
  }

  /** Both titles credit someone, and each credits every name the other does. */
  predicate SameAuthors(a: Manga, b: Manga) {
    var n1, n2 := AuthorNames(a), AuthorNames(b);
    && |n1| > 0 && |n2| > 0
    && (forall i :: 0 <= i < |n1| ==> n1[i] in n2)
    && (forall i :: 0 <= i < |n2| ==> n2[i] in n1)
  }

  /** Either title lists the other among its related works. */
  predicate SameSeries(a: Manga, b: Manga) {
    b.id in a.relatedWorks || a.id in b.relatedWorks
  }

  /** The entries of `xs` that `ys` also has (duplicates in `xs` count again). */
  function Overlap(xs: seq<string>, ys: seq<string>): seq<string> {
    Filter(xs, (x: string) => x in ys)
  }

  /** The unclamped sum of the six criteria. */
  function RawScore(a: Manga, b: Manga): int {
    (if SameAuthors(a, b) then 100 else 0)
    + (if SameSeries(a, b) then 80 else 0)
    + 20 * |Overlap(a.genres, b.genres)|
    + 15 * |Overlap(a.tags, b.tags)|
    + (if a.publisher == b.publisher then 10 else 0)
    + (if Abs(a.releaseDate - b.releaseDate) <= YearInMs then 5 else 0)
  }

  /** `calculateRelationshipScore`: within [0, 100], and 100 for identical author credits. */
  function RelationshipScore(a: Manga, b: Manga): (r: int)
    ensures 0 <= r <= 100
    ensures SameAuthors(a, b) ==> r == 100
    ensures r < 100 ==> r == RawScore(a, b)
    ensures RawScore(a, b) < 100 ==> r == RawScore(a, b)
  {
    var raw := RawScore(a, b);
    if raw < 100 then raw else 100
  }

  /** Without an author match or a series link, reaching the related threshold takes at
      least three shared genre or tag entries: publisher and date add only 15. */
  lemma RelatedWithoutLinkSharesFacets(a: Manga, b: Manga)
    requires !SameAuthors(a, b) && !SameSeries(a, b)
    requires RelationshipScore(a, b) >= RelatedThreshold
    ensures |Overlap(a.genres, b.genres)| + |Overlap(a.tags, b.tags)| >= 3
  {
  }

  /** A title credited to the single author `author`, published by P and tagged robot. */
  function SampleTitle(id: string, genres: seq<string>, author: string, releaseDate: int): Manga {
    Manga(id, id, None, [Author(author, None)], "P", releaseDate, Ongoing,
          genres, ["robot"], 4.0, None, [], None)
  }

  /** The same author credit alone reaches the cap of 100. */
  lemma SameAuthorScoresFull()
    ensures RelationshipScore(SampleTitle("a", ["sf", "action"], "X", 1577836800000),
                              SampleTitle("b", ["sf"], "X", 1590969600000)) == 100
  {
    var a := SampleTitle("a", ["sf", "action"], "X", 1577836800000);
    var b := SampleTitle("b", ["sf"], "X", 1590969600000);
    assert AuthorNames(a) == ["X"] && AuthorNames(b) == ["X"];
  }

  /** With different authors the same pair scores 20 + 15 + 10 + 5 = 50, below the
      threshold, so neither is related to the other. */
  lemma DifferentAuthorScoresFifty()
    ensures RelationshipScore(SampleTitle("a", ["sf", "action"], "X", 1577836800000),
                              SampleTitle("b", ["sf"], "Y", 1590969600000)) == 50
    ensures var a, b := SampleTitle("a", ["sf", "action"], "X", 1577836800000),
                        SampleTitle("b", ["sf"], "Y", 1590969600000);
            GetRelatedMangas([a, b], a) == [] && RelationshipScore(b, a) == 50 && GetRelatedMangas([a, b], b) == []
  {
    var a := SampleTitle("a", ["sf", "action"], "X", 1577836800000);
    var b := SampleTitle("b", ["sf"], "Y", 1590969600000);
    assert AuthorNames(a) == ["X"] && AuthorNames(b) == ["Y"];
    assert !SameAuthors(a, b);
    var g := Overlap(a.genres, b.genres);
    assert "sf" in g && "action" !in g;
    assert g == ["sf"];
    assert Overlap(a.tags, b.tags) == ["robot"];
    assert RawScore(a, b) == 50;
    assert [a, b][1..] == [b] && [b][1..] == [];
    var others := Filter([a, b], NotSelf(a));
    assert others == Filter([b], NotSelf(a)) == [b];
    var scored := MapSeq(others, ScoreAgainst(a));
    assert scored == [Scored(b, 50)];
    assert Filter(scored, IsStrong) == [];
    assert Overlap(b.genres, a.genres) == ["sf"];
    assert Overlap(b.tags, a.tags) == ["robot"];
    assert RawScore(b, a) == 50;
    assert Filter([b], NotSelf(b)) == [];
    var othersB := Filter([a, b], NotSelf(b));
    assert othersB == [a];
    var scoredB := MapSeq(othersB, ScoreAgainst(b));
    assert scoredB == [Scored(a, 50)];
    assert Filter(scoredB, IsStrong) == [];
  }

  /** Author credits are compared as sets: a name credited twice still matches a single
      credit, although the two lists differ in length. */
  lemma RepeatedCreditMatches()
    ensures var a := SampleTitle("a", [], "X", 0);
            SameAuthors(a.(authors := [Author("X", None), Author("X", Some(Artist))]), a)
  {
    var a := SampleTitle("a", [], "X", 0);
    var a2 := a.(authors := [Author("X", None), Author("X", Some(Artist))]);
    assert AuthorNames(a2) == ["X", "X"] && AuthorNames(a) == ["X"];
  }

  /** Shared genres are counted per entry of the first title's list, so a genre listed
      twice there scores twice. */
  lemma RepeatedGenreCountsTwice()
    ensures var a, b := SampleTitle("a", ["sf", "sf"], "X", 0), SampleTitle("b", ["sf"], "Y", 0);
            RawScore(a, b) == 40 + 15 + 10 + 5
  {
    var a, b := SampleTitle("a", ["sf", "sf"], "X", 0), SampleTitle("b", ["sf"], "Y", 0);
    assert AuthorNames(a) == ["X"] && AuthorNames(b) == ["Y"];
    assert !SameAuthors(a, b);
    assert a.genres[1..] == ["sf"] && ["sf"][1..] == [];
    assert Overlap(["sf"], b.genres) == ["sf"];
    assert Overlap(a.genres, b.genres) == ["sf", "sf"];
    assert Overlap(a.tags, b.tags) == ["robot"];
  }

  // ---------------------------------------------------------------- related titles

  datatype Scored = Scored(manga: Manga, score: int)

  /** The comparator `b.score - a.score`: higher scores first. */
  predicate HigherScoreFirst(a: Scored, b: Scored) {
    a.score >= b.score
  }

  predicate IsStrong(s: Scored) {
    s.score >= RelatedThreshold
  }

  function NotSelf(m: Manga): Manga -> bool {
    (x: Manga) => x.id != m.id
  }

  function ScoreAgainst(m: Manga): Manga -> Scored {
    (x: Manga) => Scored(x, RelationshipScore(m, x))
  }

  /** The other titles that clear the threshold, best first. */
  function StrongCandidates(list: seq<Manga>, m: Manga): seq<Scored> {
    Filter(MapSeq(Filter(list, NotSelf(m)), ScoreAgainst(m)), IsStrong)
  }

  function RankedCandidates(list: seq<Manga>, m: Manga): seq<Scored> {
    SortBy(StrongCandidates(list, m), HigherScoreFirst)
  }

  /** `getRelatedMangas`. */
  function GetRelatedMangas(list: seq<Manga>, m: Manga): seq<Manga> {
    var ranked := RankedCandidates(list, m);
    MapSeq(ranked[..if |ranked| < MaxRelated then |ranked| else MaxRelated], (s: Scored) => s.manga)
  }

  /** Scoring pairs each title with its own score and nothing else. */
  lemma ScoredAreFaithful(others: seq<Manga>, m: Manga)
    ensures forall s :: s in MapSeq(others, ScoreAgainst(m)) <==>
              s.manga in others && s.score == RelationshipScore(m, s.manga)
  {
    var scored := MapSeq(others, ScoreAgainst(m));
    forall s | s in scored
      ensures s.manga in others && s.score == RelationshipScore(m, s.manga)
    {
      var k :| 0 <= k < |scored| && scored[k] == s;
      assert others[k] == s.manga;
    }
    forall s: Scored | s.manga in others && s.score == RelationshipScore(m, s.manga)
      ensures s in scored
    {
      var k :| 0 <= k < |others| && others[k] == s.manga;
      assert scored[k] == s;
    }
  }

  /** The candidates before ranking: exactly the other titles with a strong score. */
  lemma StrongCandidatesFaithful(list: seq<Manga>, m: Manga)
    ensures forall s :: s in StrongCandidates(list, m) <==>
        s.manga in list && s.manga.id != m.id && s.score == RelationshipScore(m, s.manga)
        && s.score >= RelatedThreshold
  {
    ScoredAreFaithful(Filter(list, NotSelf(m)), m);
  }

  /** Each ranked candidate is another catalog title, carrying its true score. */
  lemma RankedCandidatesFaithful(list: seq<Manga>, m: Manga)
    ensures var ranked := RankedCandidates(list, m);
      && SortedBy(ranked, HigherScoreFirst)
      && (forall i :: 0 <= i < |ranked| ==>
            ranked[i].manga in list && ranked[i].manga.id != m.id
            && ranked[i].score == RelationshipScore(m, ranked[i].manga)
            && ranked[i].score >= RelatedThreshold)
      && (forall x :: x in list && x.id != m.id && RelationshipScore(m, x) >= RelatedThreshold ==>
            Scored(x, RelationshipScore(m, x)) in ranked)
  {
    var strong := StrongCandidates(list, m);
    var ranked := RankedCandidates(list, m);
    assert TotalPreorder(HigherScoreFirst);
    SortBySorted(strong, HigherScoreFirst);
    StrongCandidatesFaithful(list, m);
    assert multiset(ranked) == multiset(strong);
    forall i | 0 <= i < |ranked|
      ensures ranked[i] in strong
    {
      assert ranked[i] in multiset(ranked);
      assert ranked[i] in multiset(strong);
    }
    forall x | x in list && x.id != m.id && RelationshipScore(m, x) >= RelatedThreshold
      ensures Scored(x, RelationshipScore(m, x)) in ranked
    {
      var c := Scored(x, RelationshipScore(m, x));
      assert c in strong;
      assert c in multiset(strong);
      assert c in multiset(ranked);
    }
  }

  /** The result is the best (at most two) ranked candidates, in rank order. */
  lemma {:induction false} RelatedArePrefixOfRanked(list: seq<Manga>, m: Manga)
    ensures var r, ranked := GetRelatedMangas(list, m), RankedCandidates(list, m);
      && |r| == (if |ranked| < MaxRelated then |ranked| else MaxRelated)
      && forall i :: 0 <= i < |r| ==> r[i] == ranked[i].manga
  {
  }

  /** At most two titles, none of them `m` by id, each scoring at least 65, best first. */
  lemma GetRelatedMangasSound(list: seq<Manga>, m: Manga)
    ensures var r := GetRelatedMangas(list, m);
      && |r| <= MaxRelated
      && (forall i :: 0 <= i < |r| ==>
            r[i] in list && r[i].id != m.id && RelationshipScore(m, r[i]) >= RelatedThreshold)
      && (forall i, j :: 0 <= i < j < |r| ==> RelationshipScore(m, r[i]) >= RelationshipScore(m, r[j]))
  {
    RankedCandidatesFaithful(list, m);
    RelatedArePrefixOfRanked(list, m);
  }

  /** A qualifying title is left out only behind two others scoring at least as much. */
  lemma GetRelatedMangasTop(list: seq<Manga>, m: Manga, x: Manga)
    requires x in list && x.id != m.id && RelationshipScore(m, x) >= RelatedThreshold
    ensures var r := GetRelatedMangas(list, m);
      x in r || (|r| == MaxRelated && RelationshipScore(m, x) <= RelationshipScore(m, r[1]))
  {
    var ranked := RankedCandidates(list, m);
    RankedCandidatesFaithful(list, m);
    RelatedArePrefixOfRanked(list, m);
    var r := GetRelatedMangas(list, m);
    var k :| 0 <= k < |ranked| && ranked[k] == Scored(x, RelationshipScore(m, x));
    if k < |r| {
      assert r[k] == x;
    } else {
      assert HigherScoreFirst(ranked[1], ranked[k]);
    }
  }

  /** Candidates with equal scores stay in catalog order, so among equally related titles
      the earlier ones in the catalog are shown. */
  lemma RankedCandidatesStable(list: seq<Manga>, m: Manga, s0: Scored)
    ensures var strong := StrongCandidates(list, m);
      Filter(RankedCandidates(list, m), Tied(HigherScoreFirst, s0)) == Filter(strong, Tied(HigherScoreFirst, s0))
  {
    var strong := StrongCandidates(list, m);
    assert TotalPreorder(HigherScoreFirst);
    SortByStable(strong, HigherScoreFirst, s0);
  }

  // ---------------------------------------------------------------- load

  /** The comparator `dateB - dateA`: newer releases first. */
  predicate NewerRelease(a: Manga, b: Manga) {
    a.releaseDate >= b.releaseDate
  }

  /** `mediaMix[manga.id] || manga.mediaMix`: an override present for the id replaces the
      title's own media-mix information; nothing else changes. */
  function WithMediaMix(m: Manga, overrides: map<string, MediaMix>): Manga {
    m.(mediaMix := if m.id in overrides then Some(overrides[m.id]) else m.mediaMix)
  }

  function Merger(overrides: map<string, MediaMix>): Manga -> Manga {
    (m: Manga) => WithMediaMix(m, overrides)
  }

  /** The post-fetch step of `fetchMangas`: sort by descending release date, then merge. */
  function LoadCatalog(mangas: seq<Manga>, overrides: map<string, MediaMix>): seq<Manga> {
    MapSeq(SortBy(mangas, NewerRelease), Merger(overrides))
  }

  /** Merging keeps release dates, so sorting before merging equals sorting after. */
  lemma LoadCatalogSortsMerged(mangas: seq<Manga>, overrides: map<string, MediaMix>)
    ensures LoadCatalog(mangas, overrides) == SortBy(MapSeq(mangas, Merger(overrides)), NewerRelease)
  {
    SortByMap(mangas, Merger(overrides), NewerRelease, NewerRelease);
  }

  /** The loaded catalog is the merged input reordered newest first. */
  lemma LoadCatalogOrder(mangas: seq<Manga>, overrides: map<string, MediaMix>)
    ensures var r := LoadCatalog(mangas, overrides);
      && multiset(r) == multiset(MapSeq(mangas, Merger(overrides)))
      && SortedBy(r, NewerRelease)
  {
    LoadCatalogSortsMerged(mangas, overrides);
    assert TotalPreorder(NewerRelease);
    SortBySorted(MapSeq(mangas, Merger(overrides)), NewerRelease);
  }

  /** Each loaded entry is an input title whose media-mix information the override for its
      id replaced, if there is one; an entry without an override is an input title as is. */
  lemma LoadCatalogEntries(mangas: seq<Manga>, overrides: map<string, MediaMix>)
    ensures var r := LoadCatalog(mangas, overrides);
      && (forall i :: 0 <= i < |r| ==> exists k :: 0 <= k < |mangas| && r[i] == WithMediaMix(mangas[k], overrides))
      && (forall i :: 0 <= i < |r| && r[i].id in overrides ==> r[i].mediaMix == Some(overrides[r[i].id]))
      && (forall i :: 0 <= i < |r| && r[i].id !in overrides ==> r[i] in mangas)
  {
    var r := LoadCatalog(mangas, overrides);
    LoadCatalogSortsMerged(mangas, overrides);
    PermutedImages(mangas, Merger(overrides), r);
    forall i | 0 <= i < |r|
      ensures r[i].id in overrides ==> r[i].mediaMix == Some(overrides[r[i].id])
      ensures r[i].id !in overrides ==> r[i] in mangas
    {
      var k :| 0 <= k < |mangas| && r[i] == WithMediaMix(mangas[k], overrides);
      assert mangas[k] in mangas;
    }
  }

  /** Titles released at the same instant keep their order in the fetched data. */
  lemma LoadCatalogStable(mangas: seq<Manga>, overrides: map<string, MediaMix>, x0: Manga)
    ensures var merged := MapSeq(mangas, Merger(overrides));
      Filter(LoadCatalog(mangas, overrides), Tied(NewerRelease, x0)) == Filter(merged, Tied(NewerRelease, x0))
  {
    var merged := MapSeq(mangas, Merger(overrides));
    LoadCatalogSortsMerged(mangas, overrides);
    assert TotalPreorder(NewerRelease);
    SortByStable(merged, NewerRelease, x0);
  }

  /** One fetch's outcome: rejected (with the message of the `Error` thrown, if it was one)
      or settled with an HTTP status that is OK or not and a decoded body. */
  datatype Response<T> = Rejected(errorMessage: Option<string>) | Settled(ok: bool, body: T)

  const MangaFetchFailed := "マンガデータの取得に失敗しました"
  const MediaMixFetchFailed := "メディアミックスデータの取得に失敗しました"
  const UnknownError := "不明なエラーが発生しました"

  function RejectionMessage<T>(r: Response<T>): string
    requires r.Rejected?
  {
    if r.errorMessage.Some? then r.errorMessage.value else UnknownError
  }

  /** The message a load records, or `None` when it succeeds: a rejected fetch first, then
      a status that is not OK, title list before media-mix map. */
  function LoadError<A, B>(mangaResponse: Response<A>, mediaMixResponse: Response<B>): (e: Option<string>)
    ensures e.None? <==> mangaResponse.Settled? && mediaMixResponse.Settled? && mangaResponse.ok && mediaMixResponse.ok
    ensures mangaResponse.Rejected? ==> e == Some(RejectionMessage(mangaResponse))
    ensures mangaResponse.Settled? && mediaMixResponse.Rejected? ==> e == Some(RejectionMessage(mediaMixResponse))
    ensures mangaResponse.Settled? && mediaMixResponse.Settled? && !mangaResponse.ok ==> e == Some(MangaFetchFailed)
    ensures mangaResponse.Settled? && mediaMixResponse.Settled? && mangaResponse.ok && !mediaMixResponse.ok
      ==> e == Some(MediaMixFetchFailed)
  {
    if mangaResponse.Rejected? then Some(RejectionMessage(mangaResponse))
    else if mediaMixResponse.Rejected? then Some(RejectionMessage(mediaMixResponse))
    else if !mangaResponse.ok then Some(MangaFetchFailed)
    else if !mediaMixResponse.ok then Some(MediaMixFetchFailed)
    else None
  }

  /** The store's state: the loaded catalog, the media-mix map, and the load flags. */
  class CatalogStore {
    var mangaList: seq<Manga>
    var mediaMixData: map<string, MediaMix>
    var isLoading: bool
    var error: Option<string>

    constructor ()
      ensures mangaList == [] && mediaMixData == map[] && !isLoading && error == None
    {
      mangaList := [];
      mediaMixData := map[];
      isLoading := false;
      error := None;
    }

    /** `fetchMangas`, given what the two fetches produced. On failure the message is
        recorded and the catalog is left as it was; on success it is replaced wholesale. */
    method FetchMangas(mangaResponse: Response<seq<Manga>>, mediaMixResponse: Response<map<string, MediaMix>>)
      modifies this
      ensures !isLoading
      ensures error == LoadError(mangaResponse, mediaMixResponse)
      ensures error.None? ==>
                mangaList == LoadCatalog(mangaResponse.body, mediaMixResponse.body)
                && mediaMixData == mediaMixResponse.body
      ensures error.Some? ==> mangaList == old(mangaList) && mediaMixData == old(mediaMixData)
    {
      isLoading := true;
      error := None;
      if mangaResponse.Rejected? {
        error := Some(RejectionMessage(mangaResponse));
      } else if mediaMixResponse.Rejected? {
        error := Some(RejectionMessage(mediaMixResponse));
      } else if !mangaResponse.ok {
        error := Some(MangaFetchFailed);
      } else if !mediaMixResponse.ok {
        error := Some(MediaMixFetchFailed);
      } else {
        mangaList := LoadCatalog(mangaResponse.body, mediaMixResponse.body);
        mediaMixData := mediaMixResponse.body;
      }
      isLoading := false;
    }
  }
}
