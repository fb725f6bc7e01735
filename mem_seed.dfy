/** The seeding `initializeData` performs when the in-memory store is built:
    the admin account, then the genres, then each anime followed by links to
    the genres it names, then the episodes. Each step is a fold over a sample
    list, defined on the list minus its last element so that a loop over the
    list can be related to it one element at a time. */
module MemSeed {
  import opened Common
  import opened Flags
  import opened MemTables
  import opened SeedData

  function Empty(): (t: Tables)
    ensures Valid(t)
  {
    Tables(map[], map[], map[], map[], map[], 1, 1, 1, 1, 1)
  }

  /** The seeded administrator: plaintext password, flag `true`. */
  function AdminUser(now: int): User
  {
    User(1, "admin", "admin123", JBool(true), now)
  }

  /** The empty store with the administrator stored under id 1; the user
      counter is then set to 2 directly. */
  function WithAdmin(now: int): (t: Tables)
    ensures Valid(t)
    ensures t.users == map[1 := AdminUser(now)] && t.nextUser == 2
  {
    Empty().(users := map[1 := AdminUser(now)], nextUser := 2)
  }

  /** `genreData.forEach(...)`: one genre per name, ids in list order. */
  function SeedGenres(t: Tables, names: seq<string>): (r: Tables)
    requires Valid(t)
    ensures Valid(r)
    ensures r == t.(genres := r.genres, nextGenre := r.nextGenre)
    ensures r.nextGenre == t.nextGenre + |names|
  {
    if names == [] then t
    else CreateGenre(SeedGenres(t, names[..|names| - 1]), names[|names| - 1]).0
  }

  /** The i-th name is stored under the i-th fresh id, and nothing else is
      added. */
  lemma {:induction false} SeedGenresStores(t: Tables, names: seq<string>)
    requires Valid(t)
    ensures forall k :: k in SeedGenres(t, names).genres <==> k in t.genres || t.nextGenre <= k < t.nextGenre + |names|
    ensures forall k :: k in t.genres ==> SeedGenres(t, names).genres[k] == t.genres[k]
    ensures forall k :: t.nextGenre <= k < t.nextGenre + |names| ==> SeedGenres(t, names).genres[k] == Genre(k, names[k - t.nextGenre])
  {
    if names != [] {
      var init := names[..|names| - 1];
      SeedGenresStores(t, init);
      var t1 := SeedGenres(t, init);
      var r := SeedGenres(t, names);
      assert r.genres == t1.genres[t1.nextGenre := Genre(t1.nextGenre, names[|names| - 1])];
      forall k | t.nextGenre <= k < t1.nextGenre
        ensures r.genres[k] == Genre(k, names[k - t.nextGenre])
      {
        assert init[k - t.nextGenre] == names[k - t.nextGenre];
      }
    }
  }


  /** How many of the names match an existing genre, ignoring case. */
  function FoundCount(t: Tables, names: seq<string>): (n: nat)
    requires Valid(t)
    ensures n <= |names|
  {
    if names == [] then 0
    else FoundCount(t, names[..|names| - 1]) + (if FindGenreByName(t, names[|names| - 1]).Some? then 1 else 0)
  }

  /** `anime.genres.forEach(...)`: a link for every name that matches a
      genre; a name that matches none is skipped. */
  function LinkGenres(t: Tables, animeId: int, names: seq<string>): (r: Tables)
    requires Valid(t)
    ensures Valid(r)
    ensures r == t.(links := r.links, nextLink := r.nextLink)
  {
    if names == [] then t
    else LinkGenre(LinkGenres(t, animeId, names[..|names| - 1]), animeId, names[|names| - 1])
  }

  /** One name of that list: a link to the first genre with that name,
      ignoring case, or nothing when no genre has it. */
  function LinkGenre(t: Tables, animeId: int, name: string): (r: Tables)
    requires Valid(t)
    ensures Valid(r)
    ensures r == t.(links := r.links, nextLink := r.nextLink)
  {
    var k := GenresNamed(t.genres, name, t.nextGenre);
    if k.Some? then AddGenreToAnime(t, animeId, t.genres[k.value].id).0 else t
  }

  /** One link per name that matches a genre. */
  lemma {:induction false} LinkGenresCount(t: Tables, animeId: int, names: seq<string>)
    requires Valid(t)
    ensures LinkGenres(t, animeId, names).nextLink == t.nextLink + FoundCount(t, names)
  {
    if names != [] {
      var init := names[..|names| - 1];
      LinkGenresCount(t, animeId, init);
      assert LinkGenres(t, animeId, init).genres == t.genres;
    }
  }

  /** The link joins a genre of `genres` whose name matches one of `names`,
      ignoring case. */
  predicate NamedLink(genres: map<int, Genre>, l: AnimeGenre, names: seq<string>)
  {
    l.genreId in genres && exists n :: n in names && ToLower(genres[l.genreId].name) == ToLower(n)
  }

  /** Linking keeps the existing links, and every new link joins the anime to
      a genre whose name matches one of the names, ignoring case. */
  lemma {:induction false} LinkGenresProvenance(t: Tables, animeId: int, names: seq<string>)
    requires Valid(t)
    ensures forall k :: k in t.links ==> k in LinkGenres(t, animeId, names).links && LinkGenres(t, animeId, names).links[k] == t.links[k]
    ensures forall k :: k in LinkGenres(t, animeId, names).links && k !in t.links ==>
      LinkGenres(t, animeId, names).links[k].animeId == animeId &&
      NamedLink(t.genres, LinkGenres(t, animeId, names).links[k], names)
  {
    if names != [] {
      var init := names[..|names| - 1];
      var name := names[|names| - 1];
      LinkGenresProvenance(t, animeId, init);
      var t1 := LinkGenres(t, animeId, init);
      var r := LinkGenres(t, animeId, names);
      assert t1.genres == t.genres;
      var g := GenresNamed(t1.genres, name, t1.nextGenre);
      GenresNamedFinds(t1.genres, name, t1.nextGenre);
      forall k | k in r.links && k !in t.links
        ensures r.links[k].animeId == animeId && NamedLink(t.genres, r.links[k], names)
      {
        if k in t1.links {
          assert r.links[k] == t1.links[k];
          assert NamedLink(t.genres, t1.links[k], init);
          var n :| n in init && ToLower(t.genres[t1.links[k].genreId].name) == ToLower(n);
          assert n in names;
        } else {
          assert g.Some? && r.links[k] == AnimeGenre(k, animeId, g.value);
          assert name in names;
        }
      }
    }
  }

  /** The stored form of a sample anime: optional fields pass through as
      given; the text payload the catalogue leaves out is empty. */
  function SeedAnimeRecord(id: int, a: AnimeSeed): Anime
  {
    Anime(id, a.title, "", "", Some(""), a.releaseYear,
          a.status, a.animeType, Some(a.episodeCount), Some(a.rating), Some(a.studio))
  }

  /** The store with a sample anime put under the next anime id and the
      counter advanced. */
  function PutSeedAnime(t: Tables, a: AnimeSeed): (r: Tables)
    requires Valid(t)
    ensures Valid(r)
    ensures r == t.(animes := t.animes[t.nextAnime := SeedAnimeRecord(t.nextAnime, a)], nextAnime := t.nextAnime + 1)
  {
    t.(animes := t.animes[t.nextAnime := SeedAnimeRecord(t.nextAnime, a)], nextAnime := t.nextAnime + 1)
  }

  /** `animeData.forEach(...)`: each anime, then links to the genres it
      names. The source advances the anime counter after the links are made;
      linking does not read that counter, so advancing it first gives the
      same store. */
  function SeedAnimes(t: Tables, animes: seq<AnimeSeed>): (r: Tables)
    requires Valid(t)
    ensures Valid(r)
    ensures r == t.(animes := r.animes, nextAnime := r.nextAnime, links := r.links, nextLink := r.nextLink)
    ensures r.nextAnime == t.nextAnime + |animes|
  {
    if animes == [] then t
    else SeedAnime(SeedAnimes(t, animes[..|animes| - 1]), animes[|animes| - 1])
  }

  /** One anime of that list: stored under the next id, then linked. */
  function SeedAnime(t: Tables, a: AnimeSeed): (r: Tables)
    requires Valid(t)
    ensures Valid(r)
    ensures r == t.(animes := r.animes, nextAnime := r.nextAnime, links := r.links, nextLink := r.nextLink)
    ensures r.nextAnime == t.nextAnime + 1
  {
    LinkGenres(PutSeedAnime(t, a), t.nextAnime, a.genres)
  }

  /** One anime step stores the anime under the next id and leaves the
      other animes alone. */
  lemma SeedAnimeStores(t: Tables, a: AnimeSeed)
    requires Valid(t)
    ensures SeedAnime(t, a).animes == t.animes[t.nextAnime := SeedAnimeRecord(t.nextAnime, a)]
  {
  }

  /** The i-th sample anime is stored under the i-th fresh id, and nothing
      else is added. */
  lemma SeedAnimesStores(t: Tables, animes: seq<AnimeSeed>)
    requires Valid(t)
    ensures forall k :: k in SeedAnimes(t, animes).animes <==> k in t.animes || t.nextAnime <= k < t.nextAnime + |animes|
    ensures forall k :: k in t.animes ==> SeedAnimes(t, animes).animes[k] == t.animes[k]
    ensures forall k :: t.nextAnime <= k < t.nextAnime + |animes| ==> SeedAnimes(t, animes).animes[k] == SeedAnimeRecord(k, animes[k - t.nextAnime])
  {
    SeedAnimesKeys(t, animes);
    SeedAnimesKeeps(t, animes);
    SeedAnimesValues(t, animes);
  }

  lemma {:induction false} SeedAnimesKeys(t: Tables, animes: seq<AnimeSeed>)
    requires Valid(t)
    ensures forall k :: k in SeedAnimes(t, animes).animes <==> k in t.animes || t.nextAnime <= k < t.nextAnime + |animes|
  {
    if animes != [] {
      var init := animes[..|animes| - 1];
      SeedAnimesKeys(t, init);
      SeedAnimeStores(SeedAnimes(t, init), animes[|animes| - 1]);
    }
  }

  lemma {:induction false} SeedAnimesKeeps(t: Tables, animes: seq<AnimeSeed>)
    requires Valid(t)
    ensures forall k :: k in t.animes ==> k in SeedAnimes(t, animes).animes && SeedAnimes(t, animes).animes[k] == t.animes[k]
  {
    if animes != [] {
      var init := animes[..|animes| - 1];
      SeedAnimesKeeps(t, init);
      SeedAnimeStores(SeedAnimes(t, init), animes[|animes| - 1]);
    }
  }

  lemma SeedAnimesValues(t: Tables, animes: seq<AnimeSeed>)
    requires Valid(t)
    ensures forall k :: t.nextAnime <= k < t.nextAnime + |animes| ==>
      k in SeedAnimes(t, animes).animes && SeedAnimes(t, animes).animes[k] == SeedAnimeRecord(k, animes[k - t.nextAnime])
  {
    forall k | t.nextAnime <= k < t.nextAnime + |animes|
      ensures k in SeedAnimes(t, animes).animes && SeedAnimes(t, animes).animes[k] == SeedAnimeRecord(k, animes[k - t.nextAnime])
    {
      SeedAnimeAt(t, animes, k);
    }
  }

  lemma {:induction false} SeedAnimeAt(t: Tables, animes: seq<AnimeSeed>, k: int)
    requires Valid(t) && t.nextAnime <= k < t.nextAnime + |animes|
    ensures k in SeedAnimes(t, animes).animes && SeedAnimes(t, animes).animes[k] == SeedAnimeRecord(k, animes[k - t.nextAnime])
  {
    var init := animes[..|animes| - 1];
    SeedAnimeStores(SeedAnimes(t, init), animes[|animes| - 1]);
    if k < t.nextAnime + |init| {
      SeedAnimeAt(t, init, k);
      assert init[k - t.nextAnime] == animes[k - t.nextAnime];
    }
  }

  /** The link joins one of the animes seeded from `animes` from id `base`
      on to a genre named by that anime. */
  predicate SeededLink(genres: map<int, Genre>, l: AnimeGenre, animes: seq<AnimeSeed>, base: int)
  {
    base <= l.animeId < base + |animes| && NamedLink(genres, l, animes[l.animeId - base].genres)
  }

  /** One anime step: the links made for the anime just stored. */
  lemma SeedAnimeStepLinks(t1: Tables, a: AnimeSeed)
    requires Valid(t1)
    ensures forall k :: k in t1.links ==>
      k in LinkGenres(PutSeedAnime(t1, a), t1.nextAnime, a.genres).links &&
      LinkGenres(PutSeedAnime(t1, a), t1.nextAnime, a.genres).links[k] == t1.links[k]
    ensures forall k :: k in LinkGenres(PutSeedAnime(t1, a), t1.nextAnime, a.genres).links && k !in t1.links ==>
      LinkGenres(PutSeedAnime(t1, a), t1.nextAnime, a.genres).links[k].animeId == t1.nextAnime &&
      NamedLink(t1.genres, LinkGenres(PutSeedAnime(t1, a), t1.nextAnime, a.genres).links[k], a.genres)
  {
    LinkGenresProvenance(PutSeedAnime(t1, a), t1.nextAnime, a.genres);
  }

  /** Seeding animes keeps the existing links, and every new link joins one
      of the new animes to a genre matching, ignoring case, a name that anime
      lists. */
  lemma {:induction false} SeedAnimesLinks(t: Tables, animes: seq<AnimeSeed>)
    requires Valid(t)
    ensures forall k :: k in t.links ==> k in SeedAnimes(t, animes).links && SeedAnimes(t, animes).links[k] == t.links[k]
    ensures forall k :: k in SeedAnimes(t, animes).links && k !in t.links ==>
      SeededLink(t.genres, SeedAnimes(t, animes).links[k], animes, t.nextAnime)
  {
    if animes != [] {
      var init := animes[..|animes| - 1];
      var a := animes[|animes| - 1];
      SeedAnimesLinks(t, init);
      var t1 := SeedAnimes(t, init);
      SeedAnimeStepLinks(t1, a);
      var r := SeedAnimes(t, animes);
      assert r == LinkGenres(PutSeedAnime(t1, a), t1.nextAnime, a.genres);
      assert t1.genres == t.genres;
      forall k | k in r.links && k !in t.links
        ensures SeededLink(t.genres, r.links[k], animes, t.nextAnime)
      {
        var l := r.links[k];
        if k in t1.links {
          assert l == t1.links[k];
          assert SeededLink(t.genres, l, init, t.nextAnime);
          assert init[l.animeId - t.nextAnime] == animes[l.animeId - t.nextAnime];
        } else {
          assert l.animeId == t.nextAnime + |init|;
          assert animes[l.animeId - t.nextAnime] == a;
        }
      }
    }
  }

  /** The stored form of a sample episode. */
  function SeedEpisodeRecord(id: int, e: EpisodeSeed): Episode
  {
    Episode(id, e.animeId, e.title, e.number, Some(""), Some(""), "", Some(e.duration), e.releaseDate)
  }

  /** The store with a sample episode put under the next episode id and the
      counter advanced. */
  function PutSeedEpisode(t: Tables, e: EpisodeSeed): (r: Tables)
    requires Valid(t)
    ensures Valid(r)
    ensures r == t.(episodes := t.episodes[t.nextEpisode := SeedEpisodeRecord(t.nextEpisode, e)], nextEpisode := t.nextEpisode + 1)
  {
    t.(episodes := t.episodes[t.nextEpisode := SeedEpisodeRecord(t.nextEpisode, e)], nextEpisode := t.nextEpisode + 1)
  }

  /** `episodeData.forEach(...)`. */
  function SeedEpisodes(t: Tables, eps: seq<EpisodeSeed>): (r: Tables)
    requires Valid(t)
    ensures Valid(r)
    ensures r == t.(episodes := r.episodes, nextEpisode := r.nextEpisode)
    ensures r.nextEpisode == t.nextEpisode + |eps|
  {
    if eps == [] then t
    else PutSeedEpisode(SeedEpisodes(t, eps[..|eps| - 1]), eps[|eps| - 1])
  }

  /** The i-th sample episode is stored under the i-th fresh id, and nothing
      else is added. */
  lemma {:induction false} SeedEpisodesStores(t: Tables, eps: seq<EpisodeSeed>)
    requires Valid(t)
    ensures forall k :: k in SeedEpisodes(t, eps).episodes <==> k in t.episodes || t.nextEpisode <= k < t.nextEpisode + |eps|
    ensures forall k :: k in t.episodes ==> SeedEpisodes(t, eps).episodes[k] == t.episodes[k]
    ensures forall k :: t.nextEpisode <= k < t.nextEpisode + |eps| ==> SeedEpisodes(t, eps).episodes[k] == SeedEpisodeRecord(k, eps[k - t.nextEpisode])
  {
    if eps != [] {
      var init := eps[..|eps| - 1];
      SeedEpisodesStores(t, init);
      var t1 := SeedEpisodes(t, init);
      var r := SeedEpisodes(t, eps);
      assert r.episodes == t1.episodes[t1.nextEpisode := SeedEpisodeRecord(t1.nextEpisode, eps[|eps| - 1])];
      forall k | t.nextEpisode <= k < t1.nextEpisode
        ensures r.episodes[k] == SeedEpisodeRecord(k, eps[k - t.nextEpisode])
      {
        assert init[k - t.nextEpisode] == eps[k - t.nextEpisode];
      }
    }
  }


  // Each fold, taken over a growing prefix of its list, advances by one
  // step: the form a loop over the list keeps as its invariant.

  lemma SeedGenresPrefix(t: Tables, names: seq<string>, i: nat)
    requires Valid(t) && i < |names|
    ensures SeedGenres(t, names[..i + 1]) == CreateGenre(SeedGenres(t, names[..i]), names[i]).0
  {
    assert names[..i + 1][..i] == names[..i];
  }

  /** The step of a loop over the names that looks each one up with
      `findGenreByName` and links the genre it returns. */
  lemma LinkGenresPrefix(t: Tables, animeId: int, names: seq<string>, j: nat, g: Option<Genre>)
    requires Valid(t) && j < |names|
    requires g == FindGenreByName(LinkGenres(t, animeId, names[..j]), names[j])
    ensures var t1 := LinkGenres(t, animeId, names[..j]);
      LinkGenres(t, animeId, names[..j + 1]) ==
        if g.Some? then AddGenreToAnime(t1, animeId, g.value.id).0 else t1
  {
    assert names[..j + 1][..j] == names[..j];
  }

  lemma SeedAnimesPrefix(t: Tables, animes: seq<AnimeSeed>, i: nat)
    requires Valid(t) && i < |animes|
    ensures SeedAnimes(t, animes[..i + 1]) == SeedAnime(SeedAnimes(t, animes[..i]), animes[i])
  {
    assert animes[..i + 1][..i] == animes[..i];
  }

  lemma SeedEpisodesPrefix(t: Tables, eps: seq<EpisodeSeed>, i: nat)
    requires Valid(t) && i < |eps|
    ensures SeedEpisodes(t, eps[..i + 1]) == PutSeedEpisode(SeedEpisodes(t, eps[..i]), eps[i])
  {
    assert eps[..i + 1][..i] == eps[..i];
  }

  /** The store after the genre step, and after the anime step. */
  function GenresSeeded(now: int): (t: Tables)
    ensures Valid(t)
  {
    SeedGenres(WithAdmin(now), GenreNames)
  }

  function AnimesSeeded(now: int): (t: Tables)
    ensures Valid(t)
  {
    SeedAnimes(GenresSeeded(now), Animes)
  }

  /** The store right after construction. */
  function SeedTables(now: int): (t: Tables)
    ensures Valid(t)
  {
    SeedEpisodes(AnimesSeeded(now), Episodes)
  }

  /** Each later step leaves alone what the earlier ones built. */
  lemma SeedStepsFrame(now: int)
    ensures GenresSeeded(now).users == map[1 := AdminUser(now)] && GenresSeeded(now).nextUser == 2
    ensures GenresSeeded(now).links == map[] && GenresSeeded(now).nextAnime == 1
    ensures AnimesSeeded(now).genres == GenresSeeded(now).genres && AnimesSeeded(now).nextGenre == GenresSeeded(now).nextGenre
    ensures AnimesSeeded(now).users == GenresSeeded(now).users && AnimesSeeded(now).nextUser == GenresSeeded(now).nextUser
    ensures AnimesSeeded(now).episodes == map[] && AnimesSeeded(now).nextEpisode == 1
    ensures SeedTables(now) == AnimesSeeded(now).(episodes := SeedTables(now).episodes, nextEpisode := SeedTables(now).nextEpisode)
  {
  }

  /** After construction user 1 is the administrator, the only user, and the
      next user id is 2. */
  lemma SeedUsers(now: int)
    ensures SeedTables(now).users == map[1 := AdminUser(now)] && SeedTables(now).nextUser == 2
    ensures NormalizeBoolean(SeedTables(now).users[1].isAdmin)
  {
    SeedStepsFrame(now);
  }

  /** The genres carry ids 1..15 in sample-list order. */
  lemma SeedGenreIds(now: int)
    ensures GenresSeeded(now).nextGenre == 16
    ensures forall k :: k in GenresSeeded(now).genres <==> 1 <= k <= 15
    ensures forall k :: 1 <= k <= 15 ==> GenresSeeded(now).genres[k] == Genre(k, GenreNames[k - 1])
  {
    assert |GenreNames| == 15;
    SeedGenresStores(WithAdmin(now), GenreNames);
  }

  /** The animes carry ids 1..12 in sample-list order. */
  lemma SeedAnimeIds(now: int)
    ensures AnimesSeeded(now).nextAnime == 13
    ensures forall k :: k in AnimesSeeded(now).animes <==> 1 <= k <= 12
    ensures forall k :: 1 <= k <= 12 ==> AnimesSeeded(now).animes[k] == SeedAnimeRecord(k, Animes[k - 1])
  {
    SeedStepsFrame(now);
    assert |Animes| == 12;
    SeedAnimesStores(GenresSeeded(now), Animes);
  }

  /** The episodes carry ids 1..19 in sample-list order. */
  lemma SeedEpisodeIds(now: int)
    ensures SeedTables(now).nextEpisode == 20
    ensures forall k :: k in SeedTables(now).episodes <==> 1 <= k <= 19
    ensures forall k :: 1 <= k <= 19 ==> SeedTables(now).episodes[k] == SeedEpisodeRecord(k, Episodes[k - 1])
  {
    SeedStepsFrame(now);
    assert |Episodes| == 19;
    SeedEpisodesStores(AnimesSeeded(now), Episodes);
  }

  /** Appending one name adds one to the count exactly when it matches a
      genre. */
  lemma FoundCountSnoc(t: Tables, names: seq<string>, x: string)
    requires Valid(t)
    ensures FoundCount(t, names + [x]) == FoundCount(t, names) + (if FindGenreByName(t, x).Some? then 1 else 0)
  {
    assert (names + [x])[..|names|] == names;
  }

  /** A sample genre name is found, ignoring case, after the genre step. */
  lemma SeededGenreFound(now: int, k: int)
    requires 1 <= k <= 15
    ensures FindGenreByName(GenresSeeded(now), GenreNames[k - 1]).Some?
  {
    SeedGenreIds(now);
    assert GenresSeeded(now).genres[k].name == GenreNames[k - 1];
  }

  /** No sample genre name has ten letters. */
  lemma NoTenLetterGenreName(i: int)
    requires 0 <= i < |GenreNames|
    ensures |GenreNames[i]| != 10
  {
  }

  /** No sample genre is called "Historical" in any letter case: no sample
      genre name has ten letters. */
  lemma HistoricalMatchesNoGenre(now: int)
    ensures FindGenreByName(GenresSeeded(now), "Historical").None?
  {
    var tg := GenresSeeded(now);
    SeedGenreIds(now);
    forall k | k in tg.genres
      ensures ToLower(tg.genres[k].name) != ToLower("Historical")
    {
      NoTenLetterGenreName(k - 1);
      assert |ToLower(tg.genres[k].name)| != |ToLower("Historical")|;
    }
  }

  /** Vinland Saga names four genres but gets only three links: "Historical"
      is skipped. */
  lemma VinlandSagaGetsThreeLinks(now: int)
    ensures Animes[11].title == "Vinland Saga"
    ensures FoundCount(GenresSeeded(now), Animes[11].genres) == 3
  {
    var tg := GenresSeeded(now);
    assert Animes[11].genres == [] + [GenreNames[0]] + [GenreNames[1]] + [GenreNames[3]] + ["Historical"];
    SeededGenreFound(now, 1);
    SeededGenreFound(now, 2);
    SeededGenreFound(now, 4);
    HistoricalMatchesNoGenre(now);
    FoundCountSnoc(tg, [], GenreNames[0]);
    FoundCountSnoc(tg, [] + [GenreNames[0]], GenreNames[1]);
    FoundCountSnoc(tg, [] + [GenreNames[0]] + [GenreNames[1]], GenreNames[3]);
    FoundCountSnoc(tg, [] + [GenreNames[0]] + [GenreNames[1]] + [GenreNames[3]], "Historical");
  }

  /** Every seeded link joins a sample anime to a genre whose name matches,
      ignoring case, one of the names that anime lists. */
  lemma SeedLinksFollowNames(now: int)
    ensures forall k :: k in AnimesSeeded(now).links ==>
      SeededLink(AnimesSeeded(now).genres, AnimesSeeded(now).links[k], Animes, 1)
  {
    SeedStepsFrame(now);
    assert |Animes| == 12;
    SeedAnimesLinks(GenresSeeded(now), Animes);
  }
}
