/** The decision logic of the admin anime page,
    client/src/pages/admin/anime-management.tsx: the message shown when a
    mutation fails, the genres offered for adding to an anime, and the
    numeric bounds of the anime form. */
module AnimeManagement {
  import opened Common
  import QueryClient
  import SeedData

  /** The message the `onError` handlers show: when the error message
      holds a colon, what follows the first colon (later colons kept),
      trimmed; otherwise the message itself. */
  function ExtractErrorMessage(message: string): (r: string)
    ensures ':' !in message ==> r == message
    ensures ':' in message ==> r == Trim(message[IndexOf(message, ':') + 1..])
  {
    if ':' in message then
      JoinSplitTail(message, ':');
      Trim(Join(Split(message, ':')[1..], ':'))
    else message
  }

  /** The round trip with the request helpers: an error raised for a
      failed response with a non-empty body shows that body, trimmed,
      whatever the status. */
  lemma ExtractsFormattedBody(status: int, text: string, statusText: string)
    requires text != ""
    ensures ExtractErrorMessage(QueryClient.FormatErrorMessage(Some(status), text, statusText)) == Trim(text)
  {
    var head := IntToString(status);
    var msg := QueryClient.FormatErrorMessage(Some(status), text, statusText);
    assert msg == head + ": " + text;
    assert msg[|head|] == ':';
    assert msg[..|head|] == head;
    assert IndexOf(msg, ':') == |head|;
    assert msg[|head| + 1..] == [' '] + text;
    TrimLeadingSpace(' ', text);
  }

  /** Only the first colon splits: everything after it, later colons
      included, is kept. */
  lemma ExtractKeepsLaterColons(head: string, tail: string)
    requires ':' !in head
    ensures ExtractErrorMessage(head + ":" + tail) == Trim(tail)
  {
    var m := head + ":" + tail;
    assert m[|head|] == ':' && m[..|head|] == head;
    assert IndexOf(m, ':') == |head|;
    assert m[|head| + 1..] == tail;
  }

  // ---------------------------------------------------------------------
  // Genres that can still be added
  // ---------------------------------------------------------------------

  /** A genre as the page receives it. */
  datatype GenreItem = GenreItem(id: string, name: string)

  /** Whether the anime's loaded genre list holds a genre with this id. */
  predicate Assigned(animeGenres: Option<seq<GenreItem>>, id: string)
  {
    animeGenres.Some? && exists ag :: ag in animeGenres.value && ag.id == id
  }

  /** The filter over the loaded genres. */
  function Unassigned(genres: seq<GenreItem>, animeGenres: Option<seq<GenreItem>>): (r: seq<GenreItem>)
    ensures |r| <= |genres|
    ensures forall g :: g in r <==> g in genres && !Assigned(animeGenres, g.id)
  {
    if genres == [] then []
    else
      var rest := Unassigned(genres[1..], animeGenres);
      if Assigned(animeGenres, genres[0].id) then rest else [genres[0]] + rest
  }

  /** `availableGenres`: empty while the genres have not loaded; every
      loaded genre while the anime's own list has not loaded. */
  function AvailableGenres(genresData: Option<seq<GenreItem>>, animeGenres: Option<seq<GenreItem>>)
    : (r: seq<GenreItem>)
    ensures genresData.None? ==> r == []
    ensures genresData.Some? ==> forall g :: g in r <==> g in genresData.value && !Assigned(animeGenres, g.id)
  {
    if genresData.Some? then Unassigned(genresData.value, animeGenres) else []
  }

  /** The filter keeps the original order: filtering a concatenation is
      the concatenation of the filtered parts. */
  lemma {:induction false} UnassignedKeepsOrder(a: seq<GenreItem>, b: seq<GenreItem>,
                                                animeGenres: Option<seq<GenreItem>>)
    ensures Unassigned(a + b, animeGenres) == Unassigned(a, animeGenres) + Unassigned(b, animeGenres)
  {
    if a != [] {
      assert (a + b)[1..] == a[1..] + b;
      UnassignedKeepsOrder(a[1..], b, animeGenres);
    } else {
      assert a + b == b;
    }
  }

  /** Before the anime's genres load, everything is offered, in order. */
  lemma {:induction false} NothingAssignedOffersAll(genres: seq<GenreItem>)
    ensures AvailableGenres(Some(genres), None) == genres
  {
    if genres != [] {
      NothingAssignedOffersAll(genres[1..]);
    }
  }

  // ---------------------------------------------------------------------
  // Form bounds
  // ---------------------------------------------------------------------

  /** The numeric checks of `animeFormSchema` on already-coerced values:
      a release year from 1900 to next year, and an episode count that is
      absent or not negative. */
  predicate FormAccepts(releaseYear: int, episodes: Option<int>, currentYear: int)
  {
    1900 <= releaseYear <= currentYear + 1 && (episodes.None? || episodes.value >= 0)
  }

  /** Every sample anime the server starts with can be saved back through
      the form unchanged from 2021 on. */
  lemma SeedAnimesPassForm(currentYear: int)
    requires currentYear >= 2021
    ensures forall i :: 0 <= i < |SeedData.Animes| ==>
      FormAccepts(SeedData.Animes[i].releaseYear, Some(SeedData.Animes[i].episodeCount), currentYear)
  {
  }

  /** The upper bound moves with the clock: a year accepted now is still
      accepted later, a release two years ahead is always refused, and
      next year's release is accepted. */
  lemma FormYearBoundMoves(releaseYear: int, episodes: Option<int>, currentYear: int, laterYear: int)
    requires currentYear <= laterYear
    ensures FormAccepts(releaseYear, episodes, currentYear) ==> FormAccepts(releaseYear, episodes, laterYear)
    ensures !FormAccepts(currentYear + 2, episodes, currentYear)
    ensures FormAccepts(currentYear + 1, None, currentYear) <==> currentYear + 1 >= 1900
  {
  }
}
