/** `MemStorage` of server/storage.ts: five tables and five id counters held
    in fields and updated in place. Each method is proved to leave the store
    in the state the matching function of `MemTables` computes from the
    state before, and to return what that function returns; the properties
    of the store are proved about those functions.

    A JavaScript `Map` visits its entries in ascending key order here (keys
    come from increasing counters and an update keeps the key's position),
    so a `for ... of map.values()` loop becomes a loop over the keys
    `0 .. counter - 1` that skips the absent ones. */
module Storage {
  import opened Common
  import opened Flags
  import opened OrderedMaps
  import opened Sorting
  import opened SeedData
  import opened MemTables
  import opened MemSeed

  class MemStorage {
    var users: map<int, User>
    var animes: map<int, Anime>
    var genres: map<int, Genre>
    var links: map<int, AnimeGenre>
    var episodes: map<int, Episode>
    var nextUser: nat
    var nextAnime: nat
    var nextGenre: nat
    var nextLink: nat
    var nextEpisode: nat

    /** The fields as a value of the functional model. */
    function State(): Tables
      reads this
    {
      Tables(users, animes, genres, links, episodes, nextUser, nextAnime, nextGenre, nextLink, nextEpisode)
    }

    predicate Valid()
      reads this
    {
      MemTables.Valid(State())
    }

    /** The constructor: empty tables, counters at 1, then the sample data. */
    constructor (now: int)
      ensures Valid() && State() == SeedTables(now)
    {
      users := map[];
      animes := map[];
      genres := map[];
      links := map[];
      episodes := map[];
      nextUser := 1;
      nextAnime := 1;
      nextGenre := 1;
      nextLink := 1;
      nextEpisode := 1;
      new;
      users := users[1 := AdminUser(now)];
      nextUser := 2;
      assert State() == WithAdmin(now);
      SeedGenreList(GenreNames);
      SeedAnimeList(Animes);
      SeedEpisodeList(Episodes);
    }

    /** `genreData.forEach(...)`. */
    method SeedGenreList(names: seq<string>)
      requires Valid()
      modifies this
      ensures State() == SeedGenres(old(State()), names)
    {
      ghost var t0 := State();
      var i := 0;
      while i < |names|
        invariant i <= |names|
        invariant State() == SeedGenres(t0, names[..i])
      {
        SeedGenresPrefix(t0, names, i);
        genres, nextGenre := genres[nextGenre := Genre(nextGenre, names[i])], nextGenre + 1;
        i := i + 1;
      }
      assert names[..i] == names;
    }

    /** `animeData.forEach(...)`: store the anime, then link it to every
        genre it names that exists. */
    method SeedAnimeList(seeds: seq<AnimeSeed>)
      requires Valid()
      modifies this
      ensures Valid() && State() == SeedAnimes(old(State()), seeds)
    {
      ghost var t0 := State();
      var i := 0;
      while i < |seeds|
        invariant 0 <= i <= |seeds|
        invariant State() == SeedAnimes(t0, seeds[..i])
      {
        ghost var t1 := State();
        var animeId := StoreSeedAnime(seeds[i]);
        LinkSeedGenres(animeId, seeds[i].genres);
        assert State() == SeedAnime(t1, seeds[i]);
        SeedAnimesPrefix(t0, seeds, i);
        i := i + 1;
      }
      assert seeds[..i] == seeds;
    }

    /** `this.animes.set(animeId, {...})` under the next anime id. */
    method StoreSeedAnime(a: AnimeSeed) returns (animeId: int)
      requires Valid()
      modifies this
      ensures Valid() && State() == PutSeedAnime(old(State()), a) && animeId == old(nextAnime)
    {
      animeId := nextAnime;
      animes, nextAnime := animes[animeId := SeedAnimeRecord(animeId, a)], nextAnime + 1;
    }

    /** `anime.genres.forEach(...)`: a link to each named genre that is
        found, none for a name that matches no genre. */
    method LinkSeedGenres(animeId: int, names: seq<string>)
      requires Valid()
      modifies this
      ensures Valid() && State() == LinkGenres(old(State()), animeId, names)
    {
      ghost var t0 := State();
      var j := 0;
      while j < |names|
        invariant 0 <= j <= |names|
        invariant State() == LinkGenres(t0, animeId, names[..j])
      {
        var genre := FindGenreByName(names[j]);
        LinkGenresPrefix(t0, animeId, names, j, genre);
        if genre.Some? {
          var _ := AddGenreToAnime(animeId, genre.value.id);
        }
        j := j + 1;
      }
      assert names[..j] == names;
    }

    /** `episodeData.forEach(...)`. */
    method SeedEpisodeList(eps: seq<EpisodeSeed>)
      requires Valid()
      modifies this
      ensures State() == SeedEpisodes(old(State()), eps)
    {
      ghost var t0 := State();
      var i := 0;
      while i < |eps|
        invariant i <= |eps|
        invariant State() == SeedEpisodes(t0, eps[..i])
      {
        SeedEpisodesPrefix(t0, eps, i);
        episodes, nextEpisode := episodes[nextEpisode := SeedEpisodeRecord(nextEpisode, eps[i])], nextEpisode + 1;
        i := i + 1;
      }
      assert eps[..i] == eps;
    }

    /** `findGenreByName` (and `getGenreByName`): the first genre in table
        order whose name equals `name` ignoring case. */
    method FindGenreByName(name: string) returns (r: Option<Genre>)
      requires Valid()
      ensures r == MemTables.FindGenreByName(State(), name)
    {
      var k := 0;
      while k < nextGenre
        invariant 0 <= k <= nextGenre
        invariant GenresNamed(genres, name, k).None?
      {
        if k in genres && ToLower(genres[k].name) == ToLower(name) {
          assert GenresNamed(genres, name, k + 1) == Some(k);
          GenresNamedStable(genres, name, k + 1, nextGenre);
          return Some(genres[k]);
        }
        k := k + 1;
      }
      return None;
    }

    /** `addGenreToAnime`: a new link under the next link id, whether or
        not the pair is already linked. */
    method AddGenreToAnime(animeId: int, genreId: int) returns (link: AnimeGenre)
      requires Valid()
      modifies this
      ensures Valid() && (State(), link) == MemTables.AddGenreToAnime(old(State()), animeId, genreId)
    {
      link := AnimeGenre(nextLink, animeId, genreId);
      links, nextLink := links[link.id := link], nextLink + 1;
    }

    // -------------------------------------------------------------------
    // Users
    // -------------------------------------------------------------------

    /** `getUserByUsername`: returns from inside the loop at the first user
        with exactly this name. */
    method GetUserByUsername(username: string) returns (r: Option<User>)
      requires Valid()
      ensures r == MemTables.GetUserByUsername(State(), username)
    {
      var k := 0;
      while k < nextUser
        invariant 0 <= k <= nextUser
        invariant UsersNamed(users, username, k).None?
      {
        if k in users && users[k].username == username {
          assert UsersNamed(users, username, k + 1) == Some(k);
          UsersNamedStable(users, username, k + 1, nextUser);
          return Some(users[k]);
        }
        k := k + 1;
      }
      return None;
    }

    /** `createUser`. */
    method CreateUser(u: NewUser, now: int) returns (user: User)
      requires Valid()
      modifies this
      ensures Valid() && (State(), user) == MemTables.CreateUser(old(State()), u, now)
    {
      user := NewUserRecord(State(), u, now);
      users, nextUser := users[user.id := user], nextUser + 1;
    }

    /** `updateUserAdminStatus`. */
    method UpdateUserAdminStatus(id: int, isAdmin: bool) returns (r: Option<User>)
      requires Valid()
      modifies this
      ensures Valid() && (State(), r) == MemTables.UpdateUserAdminStatus(old(State()), id, isAdmin)
    {
      if id !in users {
        return None;
      }
      var user := users[id].(isAdmin := JBool(isAdmin));
      users := users[id := user];
      return Some(user);
    }

    /** `deleteUser`. */
    method DeleteUser(id: int) returns (deleted: bool)
      requires Valid()
      modifies this
      ensures Valid() && (State(), deleted) == MemTables.DeleteUser(old(State()), id)
    {
      deleted := id in users;
      users := users - {id};
    }

    // -------------------------------------------------------------------
    // Animes
    // -------------------------------------------------------------------

    /** `createAnime`. */
    method CreateAnime(a: NewAnime) returns (anime: Anime)
      requires Valid()
      modifies this
      ensures Valid() && (State(), anime) == MemTables.CreateAnime(old(State()), a)
    {
      anime := NewAnimeRecord(nextAnime, a);
      animes, nextAnime := animes[anime.id := anime], nextAnime + 1;
    }

    /** `updateAnime`. */
    method UpdateAnime(id: int, p: AnimePatch) returns (r: Option<Anime>)
      requires Valid()
      modifies this
      ensures Valid() && (State(), r) == MemTables.UpdateAnime(old(State()), id, p)
    {
      if id !in animes {
        return None;
      }
      var anime := ApplyAnimePatch(animes[id], p);
      animes := animes[id := anime];
      return Some(anime);
    }

    /** `deleteAnime`: the anime's links, then its episodes, then the anime
        itself. */
    method DeleteAnime(id: int) returns (deleted: bool)
      requires Valid()
      modifies this
      ensures Valid() && (State(), deleted) == MemTables.DeleteAnime(old(State()), id)
    {
      ghost var t0 := State();
      LinksWithoutAnimeRemoves(t0.links, id);
      EpisodesWithoutAnimeRemoves(t0.episodes, id);
      var _ := DeleteLinksWhere(LinkOfAnime(id));
      DeleteEpisodesWhere(EpisodeOfAnime(id));
      deleted := id in animes;
      animes := animes - {id};
      assert State() == MemTables.DeleteAnime(t0, id).0;
    }

    /** The loop `for (const [key, link] of this.animeGenres.entries()) if
        (p(link)) this.animeGenres.delete(key)`, noting whether anything was
        deleted. */
    method DeleteLinksWhere(p: AnimeGenre -> bool) returns (found: bool)
      requires Valid()
      modifies this
      ensures State() == old(State()).(links := RemoveWhere(old(links), p))
      ensures found <==> exists j :: j in old(links) && p(old(links)[j])
    {
      ghost var t0 := State();
      RemovedBelowEnds(links, p, nextLink);
      found := false;
      var k := 0;
      while k < nextLink
        invariant 0 <= k <= nextLink
        invariant links == RemovedBelow(t0.links, p, k)
        invariant State() == t0.(links := links)
        invariant found <==> exists j :: j in t0.links && j < k && p(t0.links[j])
      {
        RemovedBelowStep(t0.links, p, k);
        if k in links && p(links[k]) {
          links := links - {k};
          found := true;
        }
        k := k + 1;
      }
    }

    /** The same loop over the episodes. */
    method DeleteEpisodesWhere(p: Episode -> bool)
      requires Valid()
      modifies this
      ensures State() == old(State()).(episodes := RemoveWhere(old(episodes), p))
    {
      ghost var t0 := State();
      RemovedBelowEnds(episodes, p, nextEpisode);
      var k := 0;
      while k < nextEpisode
        invariant 0 <= k <= nextEpisode
        invariant episodes == RemovedBelow(t0.episodes, p, k)
        invariant State() == t0.(episodes := episodes)
      {
        RemovedBelowStep(t0.episodes, p, k);
        if k in episodes && p(episodes[k]) {
          episodes := episodes - {k};
        }
        k := k + 1;
      }
    }

    /** `searchAnimes`: every anime whose lowercased title or description
        contains the lowercased query, in table order. */
    method SearchAnimes(query: string) returns (results: seq<Anime>)
      requires Valid()
      ensures results == MemTables.SearchAnimes(State(), query)
    {
      var normalizedQuery := ToLower(query);
      results := [];
      var k := 0;
      while k < nextAnime
        invariant 0 <= k <= nextAnime
        invariant results == SearchHits(animes, query, k)
      {
        if k in animes &&
           (Contains(ToLower(animes[k].title), normalizedQuery) ||
            Contains(ToLower(animes[k].description), normalizedQuery)) {
          results := results + [animes[k]];
        }
        k := k + 1;
      }
    }

    // -------------------------------------------------------------------
    // Genres
    // -------------------------------------------------------------------

    /** `createGenre`. */
    method CreateGenre(name: string) returns (genre: Genre)
      requires Valid()
      modifies this
      ensures Valid() && (State(), genre) == MemTables.CreateGenre(old(State()), name)
    {
      genre := Genre(nextGenre, name);
      genres, nextGenre := genres[genre.id := genre], nextGenre + 1;
    }

    /** `updateGenre`. */
    method UpdateGenre(id: int, name: Option<string>) returns (r: Option<Genre>)
      requires Valid()
      modifies this
      ensures Valid() && (State(), r) == MemTables.UpdateGenre(old(State()), id, name)
    {
      if id !in genres {
        return None;
      }
      var genre := Genre(id, Or(name, genres[id].name));
      genres := genres[id := genre];
      return Some(genre);
    }

    /** `deleteGenre`: the genre's links, then the genre. */
    method DeleteGenre(id: int) returns (deleted: bool)
      requires Valid()
      modifies this
      ensures Valid() && (State(), deleted) == MemTables.DeleteGenre(old(State()), id)
    {
      ghost var t0 := State();
      LinksWithoutGenreRemoves(t0.links, id);
      var _ := DeleteLinksWhere(LinkOfGenre(id));
      deleted := id in genres;
      genres := genres - {id};
      assert State() == MemTables.DeleteGenre(t0, id).0;
    }

    // -------------------------------------------------------------------
    // Links
    // -------------------------------------------------------------------

    /** `getAnimeGenres`: collects the linked genre ids in a set, then looks
        each one up, dropping ids whose genre is gone. */
    method GetAnimeGenres(animeId: int) returns (r: seq<Genre>)
      requires Valid()
      ensures r == MemTables.GetAnimeGenres(State(), animeId)
    {
      var genreIds: seq<int> := [];
      var k := 0;
      while k < nextLink
        invariant 0 <= k <= nextLink
        invariant genreIds == LinkedGenreIds(links, animeId, k)
      {
        if k in links && links[k].animeId == animeId && links[k].genreId !in genreIds {
          genreIds := genreIds + [links[k].genreId];
        }
        k := k + 1;
      }
      r := LookupAll(genreIds, genres);
    }

    /** `getAnimesByGenre`: the same with the roles of the ids swapped. */
    method GetAnimesByGenre(genreId: int) returns (r: seq<Anime>)
      requires Valid()
      ensures r == MemTables.GetAnimesByGenre(State(), genreId)
    {
      var animeIds: seq<int> := [];
      var k := 0;
      while k < nextLink
        invariant 0 <= k <= nextLink
        invariant animeIds == LinkedAnimeIds(links, genreId, k)
      {
        if k in links && links[k].genreId == genreId && links[k].animeId !in animeIds {
          animeIds := animeIds + [links[k].animeId];
        }
        k := k + 1;
      }
      r := LookupAll(animeIds, animes);
    }

    /** `removeGenreFromAnime`. */
    method RemoveGenreFromAnime(animeId: int, genreId: int) returns (found: bool)
      requires Valid()
      modifies this
      ensures Valid() && (State(), found) == MemTables.RemoveGenreFromAnime(old(State()), animeId, genreId)
    {
      ghost var t0 := State();
      LinksWithoutPairRemoves(t0.links, animeId, genreId);
      found := DeleteLinksWhere(LinkOfPair(animeId, genreId));
      assert State() == MemTables.RemoveGenreFromAnime(t0, animeId, genreId).0;
    }

    // -------------------------------------------------------------------
    // Episodes
    // -------------------------------------------------------------------

    /** `getEpisodesByAnime`: the anime's episodes in table order, then
        sorted by episode number. */
    method GetEpisodesByAnime(animeId: int) returns (r: seq<Episode>)
      requires Valid()
      ensures r == MemTables.GetEpisodesByAnime(State(), animeId)
    {
      var eps := CollectEpisodes(animeId);
      r := SortBy(eps, EpisodeNumber);
    }

    /** The loop of `getEpisodesByAnime`: the anime's episodes in ascending
        id order. */
    method CollectEpisodes(animeId: int) returns (eps: seq<Episode>)
      ensures eps == EpisodesOf(episodes, animeId, nextEpisode)
    {
      eps := [];
      var k := 0;
      while k < nextEpisode
        invariant 0 <= k <= nextEpisode
        invariant eps == EpisodesOf(episodes, animeId, k)
      {
        if k in episodes && episodes[k].animeId == animeId {
          eps := eps + [episodes[k]];
        }
        k := k + 1;
      }
    }

    /** `createEpisode`. */
    method CreateEpisode(e: NewEpisode, now: int) returns (episode: Episode)
      requires Valid()
      modifies this
      ensures Valid() && (State(), episode) == MemTables.CreateEpisode(old(State()), e, now)
    {
      episode := NewEpisodeRecord(nextEpisode, e, now);
      episodes, nextEpisode := episodes[episode.id := episode], nextEpisode + 1;
    }

    /** `updateEpisode`. */
    method UpdateEpisode(id: int, p: EpisodePatch) returns (r: Option<Episode>)
      requires Valid()
      modifies this
      ensures Valid() && (State(), r) == MemTables.UpdateEpisode(old(State()), id, p)
    {
      if id !in episodes {
        return None;
      }
      var episode := ApplyEpisodePatch(episodes[id], p);
      episodes := episodes[id := episode];
      return Some(episode);
    }

    /** `deleteEpisode`. */
    method DeleteEpisode(id: int) returns (deleted: bool)
      requires Valid()
      modifies this
      ensures Valid() && (State(), deleted) == MemTables.DeleteEpisode(old(State()), id)
    {
      deleted := id in episodes;
      episodes := episodes - {id};
    }

    /** `getRecentlyAddedEpisodes`: the four latest-released episodes, each
        paired with its anime when the anime still exists. */
    method GetRecentlyAddedEpisodes() returns (result: seq<(Anime, Episode)>)
      requires Valid()
      ensures result == MemTables.GetRecentlyAddedEpisodes(State())
    {
      var sortedEpisodes := Take(SortBy(Values(episodes, nextEpisode), NegatedReleaseDate), 4);
      result := PairWithAnimes(sortedEpisodes);
    }

    /** The loop of `getRecentlyAddedEpisodes`: each episode paired with its
        anime, skipping episodes whose anime is gone. */
    method PairWithAnimes(latest: seq<Episode>) returns (result: seq<(Anime, Episode)>)
      ensures result == WithAnime(latest, animes)
    {
      result := [];
      var i := 0;
      while i < |latest|
        invariant 0 <= i <= |latest|
        invariant result == WithAnime(latest[..i], animes)
      {
        var episode := latest[i];
        if episode.animeId in animes {
          result := result + [(animes[episode.animeId], episode)];
        }
        assert latest[..i + 1][..i] == latest[..i];
        i := i + 1;
      }
      assert latest[..i] == latest;
    }
  }
}
