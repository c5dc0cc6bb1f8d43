/** The preference store (src/stores/storage.ts): favourite titles with add, remove and
    toggle, and a visit history that holds at most one entry per title and at most
    `MaxHistory` entries. `Date.now()` is the parameter `now`. */
module Preferences {
  import opened Types
  import opened Seqs
  import opened Sorting

  const MaxHistory := 20

  // ---------------------------------------------------------------- favourites

  /** `addToFavorites`: appends `id` unless it is already there. */
  function WithFavorite(favorites: seq<string>, id: string): (r: seq<string>)
    ensures forall x :: x in r <==> x in favorites || x == id
    ensures NoDup(favorites) ==> NoDup(r)
    ensures id in favorites ==> r == favorites
    ensures id !in favorites ==> r == favorites + [id]
  {
    if id in favorites then favorites else favorites + [id]
  }

  function OtherThan(id: string): string -> bool {
    (x: string) => x != id
  }

  /** `removeFromFavorites`: drops every occurrence of `id`; the others keep their order. */
  function WithoutFavorite(favorites: seq<string>, id: string): (r: seq<string>)
    ensures id !in r
    ensures forall x :: x != id ==> multiset(r)[x] == multiset(favorites)[x]
    ensures IsSubsequence(r, favorites)
  {
    FilterMultiplicity(favorites, OtherThan(id));
    Filter(favorites, OtherThan(id))
  }

  /** `toggleFavorite`'s effect on the list. */
  function ToggledFavorites(favorites: seq<string>, id: string): seq<string> {
    if id in favorites then WithoutFavorite(favorites, id) else WithFavorite(favorites, id)
  }

  /** Toggling twice restores the set of favourites; when `id` was absent it restores the
      list itself. */
  lemma ToggleTwiceRestores(favorites: seq<string>, id: string)
    ensures forall x :: x in ToggledFavorites(ToggledFavorites(favorites, id), id) <==> x in favorites
    ensures id !in favorites ==> ToggledFavorites(ToggledFavorites(favorites, id), id) == favorites
  {
    if id !in favorites {
      FilterConcat(favorites, [id], OtherThan(id));
      FilterKeepsAll(favorites, OtherThan(id));
      assert Filter([id], OtherThan(id)) == [];
    }
  }

  // ---------------------------------------------------------------- history

  function MangaIdOf(e: HistoryItem): string {
    e.mangaId
  }

  /** The comparator `b.timestamp - a.timestamp`: later visits first. */
  predicate NewerFirst(a: HistoryItem, b: HistoryItem) {
    a.timestamp >= b.timestamp
  }

  function NotFor(id: string): HistoryItem -> bool {
    (e: HistoryItem) => e.mangaId != id
  }

  /** The history after the old entry for `id` is removed and the new one pushed. */
  function Pushed(history: seq<HistoryItem>, id: string, now: int): seq<HistoryItem> {
    Filter(history, NotFor(id)) + [HistoryItem(id, now)]
  }

  /** `addToHistory`: push `{id, now}` in place of any earlier entry for `id`; past the
      limit, keep the first `MaxHistory` in newest-first order. */
  function Visited(history: seq<HistoryItem>, id: string, now: int): (r: seq<HistoryItem>)
    ensures |r| <= MaxHistory
  {
    var pushed := Pushed(history, id, now);
    if |pushed| > MaxHistory then SortBy(pushed, NewerFirst)[..MaxHistory] else pushed
  }

  /** Every entry after a visit is the new one or an old entry for another title. */
  lemma VisitedFromPushed(history: seq<HistoryItem>, id: string, now: int)
    ensures multiset(Visited(history, id, now)) <= multiset(Pushed(history, id, now))
    ensures forall e :: e in Visited(history, id, now) ==> e == HistoryItem(id, now) || (e in history && e.mangaId != id)
  {
    var pushed := Pushed(history, id, now);
    if |pushed| > MaxHistory {
      var sorted := SortBy(pushed, NewerFirst);
      assert sorted == sorted[..MaxHistory] + sorted[MaxHistory..];
      assert multiset(sorted[..MaxHistory]) <= multiset(sorted);
    }
    forall e | e in Visited(history, id, now)
      ensures e == HistoryItem(id, now) || (e in history && e.mangaId != id)
    {
      assert e in multiset(pushed);
    }
  }

  /** A visit keeps the history free of repeated titles, and the only entry for `id` left
      is the new one. */
  lemma VisitedDistinct(history: seq<HistoryItem>, id: string, now: int)
    requires DistinctBy(history, MangaIdOf)
    ensures DistinctBy(Visited(history, id, now), MangaIdOf)
    ensures forall e :: e in Visited(history, id, now) && e.mangaId == id ==> e == HistoryItem(id, now)
  {
    var kept := Filter(history, NotFor(id));
    FilterKeepsDistinctBy(history, NotFor(id), MangaIdOf);
    DistinctByAppend(kept, HistoryItem(id, now), MangaIdOf);
    var pushed := Pushed(history, id, now);
    if |pushed| > MaxHistory {
      var sorted := SortBy(pushed, NewerFirst);
      SortByKeepsDistinctBy(pushed, NewerFirst, MangaIdOf);
      assert Visited(history, id, now) == sorted[..MaxHistory];
    }
    VisitedFromPushed(history, id, now);
  }

  /** Without trimming the other entries keep their order and values and the new entry
      comes last. */
  lemma VisitedUntrimmed(history: seq<HistoryItem>, id: string, now: int)
    requires |Pushed(history, id, now)| <= MaxHistory
    ensures var r := Visited(history, id, now);
      && r != [] && r[|r| - 1] == HistoryItem(id, now)
      && IsSubsequence(r[..|r| - 1], history)
      && forall e :: e in history && e.mangaId != id ==> e in r
  {
    var r := Visited(history, id, now);
    assert r[..|r| - 1] == Filter(history, NotFor(id));
  }

  /** A prefix of a newest-first sequence is newest first and holds its latest entries. */
  lemma PrefixKeepsLatest(sorted: seq<HistoryItem>, n: nat)
    requires SortedBy(sorted, NewerFirst) && n <= |sorted|
    ensures SortedBy(sorted[..n], NewerFirst)
    ensures multiset(sorted[..n]) <= multiset(sorted)
    ensures forall e :: multiset(sorted[..n])[e] < multiset(sorted)[e] ==>
              forall i :: 0 <= i < n ==> sorted[i].timestamp >= e.timestamp
  {
    var kept, dropped := sorted[..n], sorted[n..];
    assert sorted == kept + dropped;
    assert multiset(sorted) == multiset(kept) + multiset(dropped);
    forall e | multiset(kept)[e] < multiset(sorted)[e]
      ensures forall i :: 0 <= i < n ==> sorted[i].timestamp >= e.timestamp
    {
      assert e in multiset(dropped);
      assert e in dropped;
      var j :| 0 <= j < |dropped| && dropped[j] == e;
      assert sorted[n + j] == e;
      forall i | 0 <= i < n
        ensures sorted[i].timestamp >= e.timestamp
      {
        assert NewerFirst(sorted[i], sorted[n + j]);
      }
    }
  }

  /** With trimming the history is newest first and keeps the `MaxHistory` latest visits:
      whatever was dropped is no later than anything kept. */
  lemma VisitedTrimmed(history: seq<HistoryItem>, id: string, now: int)
    requires |Pushed(history, id, now)| > MaxHistory
    ensures var r, pushed := Visited(history, id, now), Pushed(history, id, now);
      && |r| == MaxHistory
      && SortedBy(r, NewerFirst)
      && multiset(r) <= multiset(pushed)
      && forall e :: multiset(r)[e] < multiset(pushed)[e] ==>
           forall i :: 0 <= i < |r| ==> r[i].timestamp >= e.timestamp
  {
    var pushed := Pushed(history, id, now);
    var sorted := SortBy(pushed, NewerFirst);
    assert TotalPreorder(NewerFirst);
    SortBySorted(pushed, NewerFirst);
    PrefixKeepsLatest(sorted, MaxHistory);
  }

  /** When the clock has moved past every stored visit, the new visit survives trimming. */
  lemma VisitedRecordsLatest(history: seq<HistoryItem>, id: string, now: int)
    requires forall e :: e in history ==> e.timestamp < now
    ensures HistoryItem(id, now) in Visited(history, id, now)
  {
    var pushed := Pushed(history, id, now);
    var item := HistoryItem(id, now);
    if |pushed| > MaxHistory {
      VisitedTrimmed(history, id, now);
      VisitedFromPushed(history, id, now);
      var r := Visited(history, id, now);
      assert pushed[|pushed| - 1] == item;
      assert r[0] == item || r[0].timestamp < now;
    }
  }

  /** In a newest-first sequence, an entry that occurs once and is older than all the
      others can only be the last. */
  lemma OldestIsLast(s: seq<HistoryItem>, x: HistoryItem)
    requires SortedBy(s, NewerFirst)
    requires multiset(s)[x] == 1
    requires forall e :: e in s && e != x ==> e.timestamp > x.timestamp
    ensures forall k :: 0 <= k < |s| - 1 ==> s[k] != x
  {
    forall k | 0 <= k < |s| - 1
      ensures s[k] != x
    {
      assert NewerFirst(s[k], s[|s| - 1]);
      if s[k] == x {
        TwoPositions(s, k, |s| - 1);
      }
    }
  }

  /** When stored visits are later than `now` and `MaxHistory` of them are for other
      titles, the visit just recorded is dropped at once. */
  lemma VisitedCanDropNewVisit(history: seq<HistoryItem>, id: string, now: int)
    requires forall e :: e in history ==> e.timestamp > now
    requires |Filter(history, NotFor(id))| >= MaxHistory
    ensures HistoryItem(id, now) !in Visited(history, id, now)
  {
    var kept := Filter(history, NotFor(id));
    var pushed := Pushed(history, id, now);
    var item := HistoryItem(id, now);
    var sorted := SortBy(pushed, NewerFirst);
    assert TotalPreorder(NewerFirst);
    SortBySorted(pushed, NewerFirst);
    assert item !in kept;
    assert multiset(pushed) == multiset(kept) + multiset{item};
    forall e | e in sorted && e != item
      ensures e.timestamp > now
    {
      assert e in multiset(pushed);
      assert e in kept;
    }
    OldestIsLast(sorted, item);
  }

  /** The visit just recorded heads the newest-first view when the clock has moved past
      every stored visit. */
  lemma VisitedHeadsView(history: seq<HistoryItem>, id: string, now: int)
    requires forall e :: e in history ==> e.timestamp < now
    ensures var view := SortBy(Visited(history, id, now), NewerFirst);
      view != [] && view[0] == HistoryItem(id, now)
  {
    var r := Visited(history, id, now);
    var view := SortBy(r, NewerFirst);
    VisitedRecordsLatest(history, id, now);
    VisitedFromPushed(history, id, now);
    assert TotalPreorder(NewerFirst);
    SortBySorted(r, NewerFirst);
    assert HistoryItem(id, now) in multiset(view);
    var k :| 0 <= k < |view| && view[k] == HistoryItem(id, now);
    assert k == 0 || NewerFirst(view[0], view[k]);
    assert view[0] in multiset(r);
  }

  // ---------------------------------------------------------------- store

  /** The preferences record; `uiSettings` is persisted here too but no operation of this
      store changes it. */
  class PreferenceStore {
    var favorites: seq<string>
    var history: seq<HistoryItem>
    var uiSettings: UISettings

    /** What every operation keeps: no favourite twice, at most one bounded entry per title. */
    ghost predicate Valid()
      reads this
    {
      NoDup(favorites) && |history| <= MaxHistory && DistinctBy(history, MangaIdOf)
    }

    /** The default preferences. */
    constructor ()
      ensures Valid()
      ensures favorites == [] && history == [] && uiSettings == UISettings(false, 12, None)
    {
      favorites := [];
      history := [];
      uiSettings := UISettings(false, 12, None);
    }

    /** The `history` view: the stored entries, latest visit first. */
    function HistoryView(): (r: seq<HistoryItem>)
      reads this
      ensures multiset(r) == multiset(history)
      ensures forall i, j :: 0 <= i < j < |r| ==> r[i].timestamp >= r[j].timestamp
    {
      assert TotalPreorder(NewerFirst);
      SortBySorted(history, NewerFirst);
      SortBy(history, NewerFirst)
    }

    /** `isFavorite`: `id` occurs in the favourites. */
    function IsFavorite(id: string): (r: bool)
      reads this
      ensures r <==> exists i :: 0 <= i < |favorites| && favorites[i] == id
    {
      id in favorites
    }

    method AddToFavorites(id: string)
      requires Valid()
      modifies this
      ensures Valid()
      ensures favorites == WithFavorite(old(favorites), id)
      ensures history == old(history) && uiSettings == old(uiSettings)
    {
      if id !in favorites {
        favorites := favorites + [id];
      }
    }

    method RemoveFromFavorites(id: string)
      requires Valid()
      modifies this
      ensures Valid()
      ensures favorites == WithoutFavorite(old(favorites), id)
      ensures history == old(history) && uiSettings == old(uiSettings)
    {
      FilterKeepsDistinctBy(favorites, OtherThan(id), (x: string) => x);
      favorites := Filter(favorites, OtherThan(id));
    }

    /** `toggleFavorite`: returns whether `id` is a favourite now, which is whether it was
        not one before. */
    method ToggleFavorite(id: string) returns (added: bool)
      requires Valid()
      modifies this
      ensures Valid()
      ensures added == (id !in old(favorites))
      ensures IsFavorite(id) == added
      ensures favorites == ToggledFavorites(old(favorites), id)
      ensures history == old(history) && uiSettings == old(uiSettings)
    {
      if id in favorites {
        RemoveFromFavorites(id);
        return false;
      } else {
        AddToFavorites(id);
        return true;
      }
    }

    method AddToHistory(id: string, now: int)
      requires Valid()
      modifies this
      ensures Valid()
      ensures history == Visited(old(history), id, now)
      ensures favorites == old(favorites) && uiSettings == old(uiSettings)
    {
      VisitedDistinct(history, id, now);
      history := Filter(history, NotFor(id));
      history := history + [HistoryItem(id, now)];
      if |history| > MaxHistory {
        history := SortBy(history, NewerFirst)[..MaxHistory];
      }
    }

    method ClearHistory()
      requires Valid()
      modifies this
      ensures Valid()
      ensures history == []
      ensures favorites == old(favorites) && uiSettings == old(uiSettings)
    {
      history := [];
    }
  }

  /** Two toggles in a row report opposite outcomes and leave the favourite set as it was. */
  method ToggleFavoriteTwice(store: PreferenceStore, id: string) returns (first: bool, second: bool)
    requires store.Valid()
    modifies store
    ensures store.Valid()
    ensures first != second
    ensures forall x :: x in store.favorites <==> x in old(store.favorites)
    ensures store.history == old(store.history)
  {
    ghost var before := store.favorites;
    first := store.ToggleFavorite(id);
    second := store.ToggleFavorite(id);
    ToggleTwiceRestores(before, id);
  }
}
