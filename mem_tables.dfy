/** The in-memory store of server/storage.ts as a value: five tables keyed by
    id and five id counters. Every storage operation is a function from the
    tables before to the tables after (and its result); the `MemStorage`
    class in mem_storage.dfy performs the same operations in place and is
    proved to agree with these functions. */
module MemTables {
  import opened Common
  import opened Flags
  import opened OrderedMaps
  import opened Sorting
  import SeedData

  // ---------------------------------------------------------------------
  // Records
  // ---------------------------------------------------------------------

  /** A stored user. The flag is kept exactly as it was supplied (after the
      `|| false` default), so it may be any JavaScript value. */
  datatype User = User(id: int, username: string, password: string, isAdmin: JsValue, createdAt: int)

  /** A stored anime; `None` is a stored `null`. */
  datatype Anime = Anime(
    id: int, title: string, description: string, coverImage: string,
    bannerImage: Option<string>, releaseYear: int, status: string, animeType: string,
    episodes: Option<int>, rating: Option<string>, studio: Option<string>)

  datatype Genre = Genre(id: int, name: string)

  /** A link between an anime and a genre. */
  datatype AnimeGenre = AnimeGenre(id: int, animeId: int, genreId: int)

  /** A stored episode; `releaseDate` is a time value in milliseconds. */
  datatype Episode = Episode(
    id: int, animeId: int, title: string, number: int,
    description: Option<string>, thumbnail: Option<string>, videoUrl: string,
    duration: Option<string>, releaseDate: int)

  // ---------------------------------------------------------------------
  // Inputs
  // ---------------------------------------------------------------------

  /** The insert payload for a user; a missing flag is `JUndefined`. */
  datatype NewUser = NewUser(username: string, password: string, isAdmin: JsValue)

  /** The insert payload for an anime; `None` is a missing or null field. */
  datatype NewAnime = NewAnime(
    title: string, description: string, coverImage: string,
    bannerImage: Option<string>, releaseYear: int, status: string, animeType: string,
    episodes: Option<int>, rating: Option<string>, studio: Option<string>)

  /** A field of a partial update: left out, given as `null`, or given. */
  datatype Field<T> = Absent | Null | Given(value: T)

  /** A partial anime update; `None` leaves a non-nullable field out. */
  datatype AnimePatch = AnimePatch(
    title: Option<string>, description: Option<string>, coverImage: Option<string>,
    bannerImage: Field<string>, releaseYear: Option<int>, status: Option<string>,
    animeType: Option<string>, episodes: Field<int>, rating: Field<string>, studio: Field<string>)

  /** The insert payload for an episode; `releaseDate` may be missing. */
  datatype NewEpisode = NewEpisode(
    animeId: int, title: string, number: int,
    description: Option<string>, thumbnail: Option<string>, videoUrl: string,
    duration: Option<string>, releaseDate: Option<int>)

  /** A partial episode update. */
  datatype EpisodePatch = EpisodePatch(
    animeId: Option<int>, title: Option<string>, number: Option<int>,
    description: Field<string>, thumbnail: Field<string>, videoUrl: Option<string>,
    duration: Field<string>, releaseDate: Option<int>)

  // ---------------------------------------------------------------------
  // The tables
  // ---------------------------------------------------------------------

  datatype Tables = Tables(
    users: map<int, User>, animes: map<int, Anime>, genres: map<int, Genre>,
    links: map<int, AnimeGenre>, episodes: map<int, Episode>,
    nextUser: nat, nextAnime: nat, nextGenre: nat, nextLink: nat, nextEpisode: nat)

  /** Every entry is stored under its own id, and every id lies below the
      counter that will hand out the next one. */
  predicate Valid(t: Tables)
  {
    && 1 <= t.nextUser && 1 <= t.nextAnime && 1 <= t.nextGenre && 1 <= t.nextLink && 1 <= t.nextEpisode
    && (forall k :: k in t.users ==> 1 <= k < t.nextUser && t.users[k].id == k)
    && (forall k :: k in t.animes ==> 1 <= k < t.nextAnime && t.animes[k].id == k)
    && (forall k :: k in t.genres ==> 1 <= k < t.nextGenre && t.genres[k].id == k)
    && (forall k :: k in t.links ==> 1 <= k < t.nextLink && t.links[k].id == k)
    && (forall k :: k in t.episodes ==> 1 <= k < t.nextEpisode && t.episodes[k].id == k)
  }

  /** All counters of `u` are at least those of `t`. */
  predicate CountersGrow(t: Tables, u: Tables)
  {
    t.nextUser <= u.nextUser && t.nextAnime <= u.nextAnime && t.nextGenre <= u.nextGenre
    && t.nextLink <= u.nextLink && t.nextEpisode <= u.nextEpisode
  }

  // ---------------------------------------------------------------------
  // `x || null` and `x !== undefined ? x || null : existing`
  // ---------------------------------------------------------------------

  /** `s || null` for an optional string: the empty string becomes null. */
  function OrNull(s: Option<string>): (r: Option<string>)
    ensures r.Some? <==> s.Some? && s.value != ""
    ensures r.Some? ==> r == s
  {
    if s.Some? && s.value != "" then s else None
  }

  /** `n || null` for an optional number: zero becomes null. */
  function OrNullNum(n: Option<int>): (r: Option<int>)
    ensures r.Some? <==> n.Some? && n.value != 0
    ensures r.Some? ==> r == n
  {
    if n.Some? && n.value != 0 then n else None
  }

  /** The update rule for a nullable string field. */
  function PatchString(f: Field<string>, existing: Option<string>): (r: Option<string>)
    ensures f.Absent? ==> r == existing
    ensures f.Given? && f.value != "" ==> r == Some(f.value)
  {
    match f
    case Absent => existing
    case Null => None
    case Given(v) => OrNull(Some(v))
  }

  /** The update rule for a nullable number field. */
  function PatchNum(f: Field<int>, existing: Option<int>): (r: Option<int>)
    ensures f.Absent? ==> r == existing
    ensures f.Given? && f.value != 0 ==> r == Some(f.value)
  {
    match f
    case Absent => existing
    case Null => None
    case Given(v) => OrNullNum(Some(v))
  }

  /** A nullable field is replaced only when the update provides it; a
      provided falsy value (null, "" or 0) becomes null. */
  lemma NullableFieldRule(f: Field<string>, g: Field<int>, s: Option<string>, n: Option<int>)
    ensures f.Absent? ==> PatchString(f, s) == s
    ensures !f.Absent? ==> (PatchString(f, s).Some? <==> f.Given? && f.value != "")
    ensures f.Given? && f.value != "" ==> PatchString(f, s) == Some(f.value)
    ensures g.Absent? ==> PatchNum(g, n) == n
    ensures !g.Absent? ==> (PatchNum(g, n).Some? <==> g.Given? && g.value != 0)
    ensures g.Given? && g.value != 0 ==> PatchNum(g, n) == Some(g.value)
  {
  }

  /** `o ?? d`: the given value, or the default when there is none. */
  function Or<T>(o: Option<T>, d: T): (r: T)
    ensures o.Some? ==> r == o.value
    ensures o.None? ==> r == d
  {
    if o.Some? then o.value else d
  }

  // ---------------------------------------------------------------------
  // Users
  // ---------------------------------------------------------------------

  /** The first id below `hi` whose user has exactly this name. */
  function UsersNamed(users: map<int, User>, username: string, hi: nat): (r: Option<int>)
    ensures r.Some? ==> r.value in users && r.value < hi
  {
    FirstKey(users, (u: User) => u.username == username, hi)
  }

  lemma UsersNamedFinds(users: map<int, User>, username: string, hi: nat)
    ensures var r := UsersNamed(users, username, hi);
      && (r.Some? ==> users[r.value].username == username)
      && (r.Some? ==> forall k :: k in users && 0 <= k < r.value ==> users[k].username != username)
      && (r.None? ==> forall k :: k in users && 0 <= k < hi ==> users[k].username != username)
  {
    FirstKeyFinds(users, (u: User) => u.username == username, hi);
  }

  /** Once a user is found below `lo`, a larger bound finds the same one. */
  lemma UsersNamedStable(users: map<int, User>, username: string, lo: nat, hi: nat)
    requires lo <= hi && UsersNamed(users, username, lo).Some?
    ensures UsersNamed(users, username, hi) == UsersNamed(users, username, lo)
  {
    FirstKeyStable(users, (u: User) => u.username == username, lo, hi);
  }

  /** `getUserByUsername`: the first user, in id order, with exactly this
      name. */
  function GetUserByUsername(t: Tables, username: string): (r: Option<User>)
    requires Valid(t)
    ensures r.Some? ==> r.value.id in t.users && t.users[r.value.id] == r.value
    ensures r.Some? ==> r.value.username == username
    ensures r.Some? ==> forall k :: k in t.users && k < r.value.id ==> t.users[k].username != username
    ensures r.None? <==> forall k :: k in t.users ==> t.users[k].username != username
  {
    var k := UsersNamed(t.users, username, t.nextUser);
    UsersNamedFinds(t.users, username, t.nextUser);
    if k.Some? then Some(t.users[k.value]) else None
  }

  function NewUserRecord(t: Tables, u: NewUser, now: int): User
  {
    User(t.nextUser, u.username, u.password, OrFalse(u.isAdmin), now)
  }

  /** `createUser`: the user gets the current counter as id, the counter
      moves on, and a missing or falsy flag is stored as `false`. */
  function CreateUser(t: Tables, u: NewUser, now: int): (r: (Tables, User))
    requires Valid(t)
    ensures Valid(r.0) && CountersGrow(t, r.0)
    ensures r.1.id == t.nextUser && r.1.id !in t.users
    ensures r.0 == t.(users := t.users[r.1.id := r.1], nextUser := t.nextUser + 1)
    ensures r.1.username == u.username && r.1.password == u.password && r.1.createdAt == now
    ensures !Truthy(u.isAdmin) ==> r.1.isAdmin == JBool(false)
    ensures NormalizeBoolean(r.1.isAdmin) == NormalizeBoolean(u.isAdmin)
  {
    var user := NewUserRecord(t, u, now);
    (t.(users := t.users[user.id := user], nextUser := t.nextUser + 1), user)
  }

  /** `updateUserAdminStatus`: only the flag of that one user changes. */
  function UpdateUserAdminStatus(t: Tables, id: int, isAdmin: bool): (r: (Tables, Option<User>))
    requires Valid(t)
    ensures Valid(r.0)
    ensures id !in t.users ==> r == (t, None)
    ensures id in t.users ==> r.1 == Some(t.users[id].(isAdmin := JBool(isAdmin)))
    ensures id in t.users ==> r.0 == t.(users := t.users[id := r.1.value])
  {
    if id !in t.users then (t, None)
    else
      var user := t.users[id].(isAdmin := JBool(isAdmin));
      (t.(users := t.users[id := user]), Some(user))
  }

  /** `deleteUser`: removes the user whatever its flag; the result says
      whether it existed. */
  function DeleteUser(t: Tables, id: int): (r: (Tables, bool))
    requires Valid(t)
    ensures Valid(r.0)
    ensures r.1 <==> id in t.users
    ensures id !in r.0.users && r.0 == t.(users := t.users - {id})
  {
    (t.(users := t.users - {id}), id in t.users)
  }

  // ---------------------------------------------------------------------
  // Animes
  // ---------------------------------------------------------------------

  function NewAnimeRecord(id: int, a: NewAnime): Anime
  {
    Anime(id, a.title, a.description, a.coverImage, OrNull(a.bannerImage), a.releaseYear,
          a.status, a.animeType, OrNullNum(a.episodes), OrNull(a.rating), OrNull(a.studio))
  }

  /** `createAnime`: fresh id; falsy optional fields are stored as null. */
  function CreateAnime(t: Tables, a: NewAnime): (r: (Tables, Anime))
    requires Valid(t)
    ensures Valid(r.0) && CountersGrow(t, r.0)
    ensures r.1.id == t.nextAnime && r.1.id !in t.animes
    ensures r.0 == t.(animes := t.animes[r.1.id := r.1], nextAnime := t.nextAnime + 1)
    ensures r.1.title == a.title && r.1.description == a.description && r.1.releaseYear == a.releaseYear
    ensures r.1.bannerImage.Some? <==> a.bannerImage.Some? && a.bannerImage.value != ""
    ensures r.1.episodes.Some? <==> a.episodes.Some? && a.episodes.value != 0
    ensures r.1.rating.Some? <==> a.rating.Some? && a.rating.value != ""
    ensures r.1.studio.Some? <==> a.studio.Some? && a.studio.value != ""
  {
    var anime := NewAnimeRecord(t.nextAnime, a);
    (t.(animes := t.animes[anime.id := anime], nextAnime := t.nextAnime + 1), anime)
  }

  /** `{ ...existing, ...patch }` with the nullable-field rule. */
  function ApplyAnimePatch(a: Anime, p: AnimePatch): (r: Anime)
    ensures r.id == a.id
  {
    Anime(a.id, Or(p.title, a.title), Or(p.description, a.description), Or(p.coverImage, a.coverImage),
          PatchString(p.bannerImage, a.bannerImage), Or(p.releaseYear, a.releaseYear),
          Or(p.status, a.status), Or(p.animeType, a.animeType), PatchNum(p.episodes, a.episodes),
          PatchString(p.rating, a.rating), PatchString(p.studio, a.studio))
  }

  /** `updateAnime`: a missing id changes nothing; otherwise only that entry
      changes, and it keeps its key. */
  function UpdateAnime(t: Tables, id: int, p: AnimePatch): (r: (Tables, Option<Anime>))
    requires Valid(t)
    ensures Valid(r.0)
    ensures id !in t.animes ==> r == (t, None)
    ensures id in t.animes ==> r.1 == Some(ApplyAnimePatch(t.animes[id], p))
    ensures id in t.animes ==> r.0 == t.(animes := t.animes[id := r.1.value])
  {
    if id !in t.animes then (t, None)
    else
      var anime := ApplyAnimePatch(t.animes[id], p);
      (t.(animes := t.animes[id := anime]), Some(anime))
  }

  function LinksWithoutAnime(links: map<int, AnimeGenre>, id: int): map<int, AnimeGenre>
  {
    map k | k in links && links[k].animeId != id :: links[k]
  }

  function LinksWithoutGenre(links: map<int, AnimeGenre>, id: int): map<int, AnimeGenre>
  {
    map k | k in links && links[k].genreId != id :: links[k]
  }

  function EpisodesWithoutAnime(episodes: map<int, Episode>, id: int): map<int, Episode>
  {
    map k | k in episodes && episodes[k].animeId != id :: episodes[k]
  }

  /** The tests the storage's deletion loops apply to each entry. */
  function LinkOfAnime(id: int): AnimeGenre -> bool
  {
    (l: AnimeGenre) => l.animeId == id
  }

  function LinkOfGenre(id: int): AnimeGenre -> bool
  {
    (l: AnimeGenre) => l.genreId == id
  }

  function LinkOfPair(animeId: int, genreId: int): AnimeGenre -> bool
  {
    (l: AnimeGenre) => IsPair(l, animeId, genreId)
  }

  function EpisodeOfAnime(id: int): Episode -> bool
  {
    (e: Episode) => e.animeId == id
  }

  /** Each cascade is the generic removal under its test. */
  lemma LinksWithoutAnimeRemoves(links: map<int, AnimeGenre>, id: int)
    ensures LinksWithoutAnime(links, id) == RemoveWhere(links, LinkOfAnime(id))
  {
  }

  lemma LinksWithoutGenreRemoves(links: map<int, AnimeGenre>, id: int)
    ensures LinksWithoutGenre(links, id) == RemoveWhere(links, LinkOfGenre(id))
  {
  }

  lemma LinksWithoutPairRemoves(links: map<int, AnimeGenre>, animeId: int, genreId: int)
    ensures LinksWithoutPair(links, animeId, genreId) == RemoveWhere(links, LinkOfPair(animeId, genreId))
  {
  }

  lemma EpisodesWithoutAnimeRemoves(episodes: map<int, Episode>, id: int)
    ensures EpisodesWithoutAnime(episodes, id) == RemoveWhere(episodes, EpisodeOfAnime(id))
  {
  }

  /** `deleteAnime`: removes the anime's links, then its episodes, then the
      anime. The cascade runs even when the anime itself is absent, and the
      result says whether the anime existed. */
  function DeleteAnime(t: Tables, id: int): (r: (Tables, bool))
    requires Valid(t)
    ensures Valid(r.0)
    ensures r.1 <==> id in t.animes
    ensures id !in r.0.animes && r.0.animes == t.animes - {id}
    ensures forall k :: k in r.0.links ==> r.0.links[k].animeId != id
    ensures forall k :: k in r.0.episodes ==> r.0.episodes[k].animeId != id
    ensures forall k :: k in t.links && t.links[k].animeId != id ==> k in r.0.links && r.0.links[k] == t.links[k]
    ensures forall k :: k in t.episodes && t.episodes[k].animeId != id ==> k in r.0.episodes && r.0.episodes[k] == t.episodes[k]
    ensures forall k :: k in r.0.links ==> k in t.links
    ensures forall k :: k in r.0.episodes ==> k in t.episodes
    ensures r.0.users == t.users && r.0.genres == t.genres
    ensures r.0.nextUser == t.nextUser && r.0.nextAnime == t.nextAnime && r.0.nextGenre == t.nextGenre
    ensures r.0.nextLink == t.nextLink && r.0.nextEpisode == t.nextEpisode
  {
    (t.(links := LinksWithoutAnime(t.links, id), episodes := EpisodesWithoutAnime(t.episodes, id),
        animes := t.animes - {id}),
     id in t.animes)
  }

  // ---------------------------------------------------------------------
  // Genres
  // ---------------------------------------------------------------------

  predicate SameGenreName(g: Genre, name: string)
  {
    ToLower(g.name) == ToLower(name)
  }

  /** The first id below `hi` whose genre has this name, ignoring case. */
  function GenresNamed(genres: map<int, Genre>, name: string, hi: nat): (r: Option<int>)
    ensures r.Some? ==> r.value in genres && r.value < hi
  {
    FirstKey(genres, (g: Genre) => SameGenreName(g, name), hi)
  }

  lemma GenresNamedFinds(genres: map<int, Genre>, name: string, hi: nat)
    ensures var r := GenresNamed(genres, name, hi);
      && (r.Some? ==> SameGenreName(genres[r.value], name))
      && (r.Some? ==> forall k :: k in genres && 0 <= k < r.value ==> !SameGenreName(genres[k], name))
      && (r.None? ==> forall k :: k in genres && 0 <= k < hi ==> !SameGenreName(genres[k], name))
  {
    FirstKeyFinds(genres, (g: Genre) => SameGenreName(g, name), hi);
  }

  /** Once a genre is found below `lo`, a larger bound finds the same one. */
  lemma GenresNamedStable(genres: map<int, Genre>, name: string, lo: nat, hi: nat)
    requires lo <= hi && GenresNamed(genres, name, lo).Some?
    ensures GenresNamed(genres, name, hi) == GenresNamed(genres, name, lo)
  {
    FirstKeyStable(genres, (g: Genre) => SameGenreName(g, name), lo, hi);
  }

  /** `findGenreByName` / `getGenreByName`: the first genre, in id order,
      whose name equals `name` ignoring letter case. */
  function FindGenreByName(t: Tables, name: string): (r: Option<Genre>)
    requires Valid(t)
    ensures r.Some? ==> r.value.id in t.genres && t.genres[r.value.id] == r.value
    ensures r.Some? ==> ToLower(r.value.name) == ToLower(name)
    ensures r.Some? ==> forall k :: k in t.genres && k < r.value.id ==> ToLower(t.genres[k].name) != ToLower(name)
    ensures r.None? <==> forall k :: k in t.genres ==> ToLower(t.genres[k].name) != ToLower(name)
  {
    var k := GenresNamed(t.genres, name, t.nextGenre);
    GenresNamedFinds(t.genres, name, t.nextGenre);
    if k.Some? then Some(t.genres[k.value]) else None
  }

  /** `createGenre`: fresh id; no check against existing names. */
  function CreateGenre(t: Tables, name: string): (r: (Tables, Genre))
    requires Valid(t)
    ensures Valid(r.0) && CountersGrow(t, r.0)
    ensures r.1 == Genre(t.nextGenre, name) && r.1.id !in t.genres
    ensures r.0 == t.(genres := t.genres[r.1.id := r.1], nextGenre := t.nextGenre + 1)
  {
    var genre := Genre(t.nextGenre, name);
    (t.(genres := t.genres[genre.id := genre], nextGenre := t.nextGenre + 1), genre)
  }

  /** `updateGenre`: a missing id changes nothing; otherwise the name is
      replaced when given and the key is kept. */
  function UpdateGenre(t: Tables, id: int, name: Option<string>): (r: (Tables, Option<Genre>))
    requires Valid(t)
    ensures Valid(r.0)
    ensures id !in t.genres ==> r == (t, None)
    ensures id in t.genres ==> r.1 == Some(Genre(id, Or(name, t.genres[id].name)))
    ensures id in t.genres ==> r.0 == t.(genres := t.genres[id := r.1.value])
  {
    if id !in t.genres then (t, None)
    else
      var genre := t.genres[id].(name := Or(name, t.genres[id].name));
      (t.(genres := t.genres[id := genre]), Some(genre))
  }

  /** `deleteGenre`: removes the genre's links and the genre; animes are
      never touched. */
  function DeleteGenre(t: Tables, id: int): (r: (Tables, bool))
    requires Valid(t)
    ensures Valid(r.0)
    ensures r.1 <==> id in t.genres
    ensures r.0.genres == t.genres - {id}
    ensures forall k :: k in r.0.links ==> r.0.links[k].genreId != id
    ensures forall k :: k in t.links && t.links[k].genreId != id ==> k in r.0.links && r.0.links[k] == t.links[k]
    ensures forall k :: k in r.0.links ==> k in t.links
    ensures r.0.animes == t.animes && r.0.episodes == t.episodes && r.0.users == t.users
    ensures r.0.nextUser == t.nextUser && r.0.nextAnime == t.nextAnime && r.0.nextGenre == t.nextGenre
    ensures r.0.nextLink == t.nextLink && r.0.nextEpisode == t.nextEpisode
  {
    (t.(links := LinksWithoutGenre(t.links, id), genres := t.genres - {id}), id in t.genres)
  }

  // ---------------------------------------------------------------------
  // Links
  // ---------------------------------------------------------------------

  /** The distinct genre ids linked to an anime, in link order. */
  function LinkedGenreIds(links: map<int, AnimeGenre>, animeId: int, hi: nat): seq<int>
  {
    Distinct(links, (l: AnimeGenre) => l.animeId == animeId, (l: AnimeGenre) => l.genreId, hi)
  }

  /** The distinct anime ids linked to a genre, in link order. */
  function LinkedAnimeIds(links: map<int, AnimeGenre>, genreId: int, hi: nat): seq<int>
  {
    Distinct(links, (l: AnimeGenre) => l.genreId == genreId, (l: AnimeGenre) => l.animeId, hi)
  }

  /** `getAnimeGenres`: every existing genre linked to the anime, each once,
      however many links repeat the pair. */
  function GetAnimeGenres(t: Tables, animeId: int): (r: seq<Genre>)
    requires Valid(t)
    ensures forall i, j :: 0 <= i < j < |r| ==> r[i] != r[j]
    ensures forall g :: g in r <==>
      g.id in t.genres && t.genres[g.id] == g &&
      exists k :: k in t.links && t.links[k].animeId == animeId && t.links[k].genreId == g.id
  {
    var ids := LinkedGenreIds(t.links, animeId, t.nextLink);
    LookupAllDistinct(ids, t.genres, (g: Genre) => g.id);
    GenreLookupMembership(t, ids);
    LookupAll(ids, t.genres)
  }

  lemma GenreLookupMembership(t: Tables, ids: seq<int>)
    requires Valid(t)
    ensures forall g :: g in LookupAll(ids, t.genres) <==> g.id in t.genres && t.genres[g.id] == g && g.id in ids
  {
    forall g | g in LookupAll(ids, t.genres)
      ensures g.id in t.genres && t.genres[g.id] == g && g.id in ids
    {
      var i :| 0 <= i < |ids| && ids[i] in t.genres && t.genres[ids[i]] == g;
      assert t.genres[ids[i]].id == ids[i];
      assert g.id == ids[i];
    }
    forall g: Genre | g.id in t.genres && t.genres[g.id] == g && g.id in ids
      ensures g in LookupAll(ids, t.genres)
    {
      var i :| 0 <= i < |ids| && ids[i] == g.id;
    }
  }

  /** `getAnimesByGenre`: every existing anime linked to the genre, each
      once. */
  function GetAnimesByGenre(t: Tables, genreId: int): (r: seq<Anime>)
    requires Valid(t)
    ensures forall i, j :: 0 <= i < j < |r| ==> r[i] != r[j]
    ensures forall a :: a in r <==>
      a.id in t.animes && t.animes[a.id] == a &&
      exists k :: k in t.links && t.links[k].genreId == genreId && t.links[k].animeId == a.id
  {
    var ids := LinkedAnimeIds(t.links, genreId, t.nextLink);
    LookupAllDistinct(ids, t.animes, (a: Anime) => a.id);
    AnimeLookupMembership(t, ids);
    LookupAll(ids, t.animes)
  }

  lemma AnimeLookupMembership(t: Tables, ids: seq<int>)
    requires Valid(t)
    ensures forall a :: a in LookupAll(ids, t.animes) <==> a.id in t.animes && t.animes[a.id] == a && a.id in ids
  {
    forall a | a in LookupAll(ids, t.animes)
      ensures a.id in t.animes && t.animes[a.id] == a && a.id in ids
    {
      var i :| 0 <= i < |ids| && ids[i] in t.animes && t.animes[ids[i]] == a;
      assert t.animes[ids[i]].id == ids[i];
    }
    forall a: Anime | a.id in t.animes && t.animes[a.id] == a && a.id in ids
      ensures a in LookupAll(ids, t.animes)
    {
      var i :| 0 <= i < |ids| && ids[i] == a.id;
    }
  }

  /** `addGenreToAnime`: always inserts a new link, even for a pair that is
      already linked. */
  function AddGenreToAnime(t: Tables, animeId: int, genreId: int): (r: (Tables, AnimeGenre))
    requires Valid(t)
    ensures Valid(r.0) && CountersGrow(t, r.0)
    ensures r.1 == AnimeGenre(t.nextLink, animeId, genreId) && r.1.id !in t.links
    ensures r.0 == t.(links := t.links[r.1.id := r.1], nextLink := t.nextLink + 1)
  {
    var link := AnimeGenre(t.nextLink, animeId, genreId);
    (t.(links := t.links[link.id := link], nextLink := t.nextLink + 1), link)
  }

  predicate IsPair(l: AnimeGenre, animeId: int, genreId: int)
  {
    l.animeId == animeId && l.genreId == genreId
  }

  function LinksWithoutPair(links: map<int, AnimeGenre>, animeId: int, genreId: int): map<int, AnimeGenre>
  {
    map k | k in links && !IsPair(links[k], animeId, genreId) :: links[k]
  }

  /** `removeGenreFromAnime`: deletes every link of the pair; the result says
      whether there was at least one. */
  function RemoveGenreFromAnime(t: Tables, animeId: int, genreId: int): (r: (Tables, bool))
    requires Valid(t)
    ensures Valid(r.0)
    ensures r.1 <==> exists k :: k in t.links && IsPair(t.links[k], animeId, genreId)
    ensures forall k :: k in r.0.links ==> !IsPair(r.0.links[k], animeId, genreId)
    ensures forall k :: k in t.links && !IsPair(t.links[k], animeId, genreId) ==> k in r.0.links && r.0.links[k] == t.links[k]
    ensures forall k :: k in r.0.links ==> k in t.links
    ensures r.0 == t.(links := r.0.links)
  {
    (t.(links := LinksWithoutPair(t.links, animeId, genreId)),
     exists k :: k in t.links && IsPair(t.links[k], animeId, genreId))
  }

  // ---------------------------------------------------------------------
  // Episodes
  // ---------------------------------------------------------------------

  function EpisodesOf(episodes: map<int, Episode>, animeId: int, hi: nat): seq<Episode>
  {
    Select(episodes, (e: Episode) => e.animeId == animeId, hi)
  }

  lemma EpisodesOfMembership(t: Tables, animeId: int)
    requires Valid(t)
    ensures forall e :: e in EpisodesOf(t.episodes, animeId, t.nextEpisode) <==>
      e.id in t.episodes && t.episodes[e.id] == e && e.animeId == animeId
  {
    forall e | e in EpisodesOf(t.episodes, animeId, t.nextEpisode)
      ensures e.id in t.episodes && t.episodes[e.id] == e
    {
      var k :| k in t.episodes && 0 <= k < t.nextEpisode && t.episodes[k] == e;
      assert t.episodes[k].id == k;
    }
  }

  lemma AnimeValuesStored(t: Tables)
    requires Valid(t)
    ensures forall a :: a in Values(t.animes, t.nextAnime) ==> a.id in t.animes && t.animes[a.id] == a
    ensures forall k :: k in t.animes ==> t.animes[k] in Values(t.animes, t.nextAnime)
  {
    forall a | a in Values(t.animes, t.nextAnime)
      ensures a.id in t.animes && t.animes[a.id] == a
    {
      var k :| k in t.animes && 0 <= k < t.nextAnime && t.animes[k] == a;
      assert t.animes[k].id == k;
    }
  }

  lemma EpisodeValuesStored(t: Tables)
    requires Valid(t)
    ensures forall e :: e in Values(t.episodes, t.nextEpisode) ==> e.id in t.episodes && t.episodes[e.id] == e
    ensures forall k :: k in t.episodes ==> t.episodes[k] in Values(t.episodes, t.nextEpisode)
  {
    forall e | e in Values(t.episodes, t.nextEpisode)
      ensures e.id in t.episodes && t.episodes[e.id] == e
    {
      var k :| k in t.episodes && 0 <= k < t.nextEpisode && t.episodes[k] == e;
      assert t.episodes[k].id == k;
    }
  }

  function EpisodeNumber(e: Episode): int { e.number }

  /** `getEpisodesByAnime`: exactly the anime's episodes, ordered by
      episode number. */
  function GetEpisodesByAnime(t: Tables, animeId: int): (r: seq<Episode>)
    requires Valid(t)
    ensures SortedBy(r, EpisodeNumber)
    ensures forall e :: e in r <==> e.id in t.episodes && t.episodes[e.id] == e && e.animeId == animeId
    ensures multiset(r) == multiset(EpisodesOf(t.episodes, animeId, t.nextEpisode))
  {
    var selected := EpisodesOf(t.episodes, animeId, t.nextEpisode);
    EpisodesOfMembership(t, animeId);
    SortBy(selected, EpisodeNumber)
  }

  function NewEpisodeRecord(id: int, e: NewEpisode, now: int): Episode
  {
    Episode(id, e.animeId, e.title, e.number, OrNull(e.description), OrNull(e.thumbnail),
            e.videoUrl, OrNull(e.duration), Or(e.releaseDate, now))
  }

  /** `createEpisode`: fresh id; falsy optional fields become null and a
      missing release date becomes `now`. Nothing checks that the anime
      exists or that the number is unused. */
  function CreateEpisode(t: Tables, e: NewEpisode, now: int): (r: (Tables, Episode))
    requires Valid(t)
    ensures Valid(r.0) && CountersGrow(t, r.0)
    ensures r.1.id == t.nextEpisode && r.1.id !in t.episodes
    ensures r.0 == t.(episodes := t.episodes[r.1.id := r.1], nextEpisode := t.nextEpisode + 1)
    ensures r.1.animeId == e.animeId && r.1.number == e.number && r.1.title == e.title
    ensures r.1.description.Some? <==> e.description.Some? && e.description.value != ""
    ensures r.1.thumbnail.Some? <==> e.thumbnail.Some? && e.thumbnail.value != ""
    ensures r.1.duration.Some? <==> e.duration.Some? && e.duration.value != ""
    ensures r.1.releaseDate == if e.releaseDate.Some? then e.releaseDate.value else now
  {
    var episode := NewEpisodeRecord(t.nextEpisode, e, now);
    (t.(episodes := t.episodes[episode.id := episode], nextEpisode := t.nextEpisode + 1), episode)
  }

  /** `{ ...existing, ...patch }` with the nullable-field rule, and
      `patch.releaseDate || existing.releaseDate` for the date. */
  function ApplyEpisodePatch(e: Episode, p: EpisodePatch): (r: Episode)
    ensures r.id == e.id
    ensures p.title.Some? ==> r.title == p.title.value
    ensures p.number.Some? ==> r.number == p.number.value
    ensures p.releaseDate.Some? && p.releaseDate.value != 0 ==> r.releaseDate == p.releaseDate.value
    ensures p.releaseDate.None? || p.releaseDate == Some(0) ==> r.releaseDate == e.releaseDate
  {
    Episode(e.id, Or(p.animeId, e.animeId), Or(p.title, e.title), Or(p.number, e.number),
            PatchString(p.description, e.description), PatchString(p.thumbnail, e.thumbnail),
            Or(p.videoUrl, e.videoUrl), PatchString(p.duration, e.duration),
            Or(OrNullNum(p.releaseDate), e.releaseDate))
  }

  /** `updateEpisode`: a missing id changes nothing; otherwise only that
      entry changes, and it keeps its key. */
  function UpdateEpisode(t: Tables, id: int, p: EpisodePatch): (r: (Tables, Option<Episode>))
    requires Valid(t)
    ensures Valid(r.0)
    ensures id !in t.episodes ==> r == (t, None)
    ensures id in t.episodes ==> r.1 == Some(ApplyEpisodePatch(t.episodes[id], p))
    ensures id in t.episodes ==> r.0 == t.(episodes := t.episodes[id := r.1.value])
  {
    if id !in t.episodes then (t, None)
    else
      var episode := ApplyEpisodePatch(t.episodes[id], p);
      (t.(episodes := t.episodes[id := episode]), Some(episode))
  }

  /** `deleteEpisode`. */
  function DeleteEpisode(t: Tables, id: int): (r: (Tables, bool))
    requires Valid(t)
    ensures Valid(r.0)
    ensures r.1 <==> id in t.episodes
    ensures r.0 == t.(episodes := t.episodes - {id})
  {
    (t.(episodes := t.episodes - {id}), id in t.episodes)
  }

  // ---------------------------------------------------------------------
  // Reads by id and whole tables
  // ---------------------------------------------------------------------

  /** `getUser`, `getAnime`, `getGenre`, `getEpisode`: `map.get(id)`. */
  function GetUser(t: Tables, id: int): (r: Option<User>)
    requires Valid(t)
    ensures r.Some? <==> id in t.users
    ensures r.Some? ==> r.value == t.users[id] && r.value.id == id
  {
    if id in t.users then Some(t.users[id]) else None
  }

  function GetAnime(t: Tables, id: int): (r: Option<Anime>)
    requires Valid(t)
    ensures r.Some? <==> id in t.animes
    ensures r.Some? ==> r.value == t.animes[id] && r.value.id == id
  {
    if id in t.animes then Some(t.animes[id]) else None
  }

  function GetGenre(t: Tables, id: int): (r: Option<Genre>)
    requires Valid(t)
    ensures r.Some? <==> id in t.genres
    ensures r.Some? ==> r.value == t.genres[id] && r.value.id == id
  {
    if id in t.genres then Some(t.genres[id]) else None
  }

  function GetEpisode(t: Tables, id: int): (r: Option<Episode>)
    requires Valid(t)
    ensures r.Some? <==> id in t.episodes
    ensures r.Some? ==> r.value == t.episodes[id] && r.value.id == id
  {
    if id in t.episodes then Some(t.episodes[id]) else None
  }

  /** `getAllUsers` (and the other `getAll...`): `Array.from(map.values())`,
      every stored entry exactly once. */
  function GetAllUsers(t: Tables): (r: seq<User>)
    requires Valid(t)
    ensures forall u :: u in r <==> u.id in t.users && t.users[u.id] == u
  {
    UserValuesStored(t);
    Values(t.users, t.nextUser)
  }

  function GetAllAnimes(t: Tables): (r: seq<Anime>)
    requires Valid(t)
    ensures forall a :: a in r <==> a.id in t.animes && t.animes[a.id] == a
  {
    AnimeValuesStored(t);
    Values(t.animes, t.nextAnime)
  }

  function GetAllGenres(t: Tables): (r: seq<Genre>)
    requires Valid(t)
    ensures forall g :: g in r <==> g.id in t.genres && t.genres[g.id] == g
  {
    GenreValuesStored(t);
    Values(t.genres, t.nextGenre)
  }

  function GetAllEpisodes(t: Tables): (r: seq<Episode>)
    requires Valid(t)
    ensures forall e :: e in r <==> e.id in t.episodes && t.episodes[e.id] == e
  {
    EpisodeValuesStored(t);
    Values(t.episodes, t.nextEpisode)
  }

  lemma UserValuesStored(t: Tables)
    requires Valid(t)
    ensures forall u :: u in Values(t.users, t.nextUser) <==> u.id in t.users && t.users[u.id] == u
  {
    forall u | u in Values(t.users, t.nextUser)
      ensures u.id in t.users && t.users[u.id] == u
    {
      var k :| k in t.users && 0 <= k < t.nextUser && t.users[k] == u;
      assert t.users[k].id == k;
    }
  }

  lemma GenreValuesStored(t: Tables)
    requires Valid(t)
    ensures forall g :: g in Values(t.genres, t.nextGenre) <==> g.id in t.genres && t.genres[g.id] == g
  {
    forall g | g in Values(t.genres, t.nextGenre)
      ensures g.id in t.genres && t.genres[g.id] == g
    {
      var k :| k in t.genres && 0 <= k < t.nextGenre && t.genres[k] == g;
      assert t.genres[k].id == k;
    }
  }

  // ---------------------------------------------------------------------
  // Listings
  // ---------------------------------------------------------------------

  /** The search test: the lowercased title or description contains the
      lowercased query. */
  predicate MatchesQuery(a: Anime, query: string)
  {
    Contains(ToLower(a.title), ToLower(query)) || Contains(ToLower(a.description), ToLower(query))
  }

  function SearchHits(animes: map<int, Anime>, query: string, hi: nat): seq<Anime>
  {
    Select(animes, (a: Anime) => MatchesQuery(a, query), hi)
  }

  /** `searchAnimes`: an anime is listed iff it matches the query. */
  function SearchAnimes(t: Tables, query: string): (r: seq<Anime>)
    requires Valid(t)
    ensures forall a :: a in r <==> a.id in t.animes && t.animes[a.id] == a && MatchesQuery(a, query)
  {
    SearchHits(t.animes, query, t.nextAnime)
  }

  function NegatedId(a: Anime): int { -a.id }

  /** `getTrendingAnimes`: all animes sorted by id, newest first, cut to
      six. */
  function GetTrendingAnimes(t: Tables): (r: seq<Anime>)
    requires Valid(t)
    ensures |r| <= 6
    ensures forall i, j :: 0 <= i < j < |r| ==> r[i].id > r[j].id
    ensures forall a :: a in r ==> a.id in t.animes && t.animes[a.id] == a
  {
    NewestSixAreStrict(t);
    Take(SortBy(Values(t.animes, t.nextAnime), NegatedId), 6)
  }

  /** The six animes with the highest ids, newest first, are stored and
      have strictly decreasing ids. */
  lemma NewestSixAreStrict(t: Tables)
    requires Valid(t)
    ensures var r := Take(SortBy(Values(t.animes, t.nextAnime), NegatedId), 6);
      (forall i, j :: 0 <= i < j < |r| ==> r[i].id > r[j].id) &&
      (forall a :: a in r ==> a.id in t.animes && t.animes[a.id] == a)
  {
    var values := Values(t.animes, t.nextAnime);
    AnimeValuesStored(t);
    var sorted := SortBy(values, NegatedId);
    var r := Take(sorted, 6);
    assert forall i :: 0 <= i < |r| ==> r[i] == sorted[i];
    NewestFirstIsStrict(t, r);
  }

  /** A list of stored animes, each at most once, that is sorted newest
      first has strictly decreasing ids. */
  lemma NewestFirstIsStrict(t: Tables, r: seq<Anime>)
    requires Valid(t)
    requires forall a :: a in r ==> a.id in t.animes && t.animes[a.id] == a
    requires forall i, j :: 0 <= i < j < |r| ==> r[i].id >= r[j].id
    requires multiset(r) <= multiset(Values(t.animes, t.nextAnime))
    ensures forall i, j :: 0 <= i < j < |r| ==> r[i].id > r[j].id
  {
    forall i, j | 0 <= i < j < |r|
      ensures r[i].id > r[j].id
    {
      if r[i].id == r[j].id {
        assert r[i] in r && r[j] in r;
        assert r[i] == r[j];
        CountedTwice(r, i, j);
        SelectOnce(t.animes, _ => true, t.nextAnime, (a: Anime) => a.id, r[i]);
        assert false;
      }
    }
  }

  /** Nothing newer than the trending list is left out of it: an anime that
      is not listed is older than every listed one, and then the list is
      full. */
  lemma TrendingIsNewestSix(t: Tables, k: int)
    requires Valid(t)
    requires k in t.animes && t.animes[k] !in GetTrendingAnimes(t)
    ensures |GetTrendingAnimes(t)| == 6
    ensures forall a :: a in GetTrendingAnimes(t) ==> a.id >= k
  {
    var values := Values(t.animes, t.nextAnime);
    AnimeValuesStored(t);
    var sorted := SortBy(values, NegatedId);
    TakeSortedIsSmallest(sorted, NegatedId, 6, t.animes[k]);
  }

  function NegatedReleaseDate(e: Episode): int { -e.releaseDate }

  /** The episodes of a list of (anime, episode) pairs, in order. */
  function PairedEpisodes(ps: seq<(Anime, Episode)>): (r: seq<Episode>)
    ensures |r| == |ps|
    ensures forall i :: 0 <= i < |ps| ==> r[i] == ps[i].1
  {
    seq(|ps|, i requires 0 <= i < |ps| => ps[i].1)
  }

  /** Pairs each episode with its anime, dropping episodes whose anime is
      gone; no episode is paired more often than it occurs. */
  function WithAnime(eps: seq<Episode>, animes: map<int, Anime>): (r: seq<(Anime, Episode)>)
    ensures |r| <= |eps|
    ensures forall p :: p in r ==> p.1 in eps && p.1.animeId in animes && p.0 == animes[p.1.animeId]
    ensures forall e :: e in eps && e.animeId in animes ==> (animes[e.animeId], e) in r
    ensures multiset(PairedEpisodes(r)) <= multiset(eps)
  {
    if eps == [] then []
    else
      var init := eps[..|eps| - 1];
      var e := eps[|eps| - 1];
      assert forall x :: x in init ==> x in eps;
      assert eps == init + [e];
      var rest := WithAnime(init, animes);
      var last := if e.animeId in animes then [(animes[e.animeId], e)] else [];
      assert PairedEpisodes(rest + last) == PairedEpisodes(rest) + PairedEpisodes(last);
      assert multiset(PairedEpisodes(last)) <= multiset([e]);
      rest + last
  }

  /** The four latest-released episodes: all episodes sorted by release
      date, latest first, cut to four. */
  function LatestEpisodes(t: Tables): (r: seq<Episode>)
    requires Valid(t)
    ensures |r| <= 4
    ensures forall e :: e in r ==> e.id in t.episodes && t.episodes[e.id] == e
    ensures forall i, j :: 0 <= i < j < |r| ==> r[i].releaseDate >= r[j].releaseDate
    ensures multiset(r) <= multiset(Values(t.episodes, t.nextEpisode))
    ensures forall i, j :: 0 <= i < j < |r| ==> r[i].id != r[j].id
  {
    var values := Values(t.episodes, t.nextEpisode);
    EpisodeValuesStored(t);
    var sorted := SortBy(values, NegatedReleaseDate);
    var r := Take(sorted, 4);
    assert forall i :: 0 <= i < |r| ==> r[i] == sorted[i];
    StoredEpisodesOnce(t, r);
    r
  }

  /** A list of stored episodes, each at most as often as it is stored,
      names each episode id at most once. */
  lemma StoredEpisodesOnce(t: Tables, r: seq<Episode>)
    requires Valid(t)
    requires forall e :: e in r ==> e.id in t.episodes && t.episodes[e.id] == e
    requires multiset(r) <= multiset(Values(t.episodes, t.nextEpisode))
    ensures forall i, j :: 0 <= i < j < |r| ==> r[i].id != r[j].id
  {
    forall i, j | 0 <= i < j < |r|
      ensures r[i].id != r[j].id
    {
      if r[i].id == r[j].id {
        assert r[i] in r && r[j] in r;
        assert r[i] == r[j];
        CountedTwice(r, i, j);
        SelectOnce(t.episodes, _ => true, t.nextEpisode, (e: Episode) => e.id, r[i]);
        assert false;
      }
    }
  }

  /** No later-released episode is left out of the four: an episode that is
      not among them means four were taken, none released before it. */
  lemma LatestEpisodesAreNewest(t: Tables, k: int)
    requires Valid(t)
    requires k in t.episodes && t.episodes[k] !in LatestEpisodes(t)
    ensures |LatestEpisodes(t)| == 4
    ensures forall e :: e in LatestEpisodes(t) ==> e.releaseDate >= t.episodes[k].releaseDate
  {
    var values := Values(t.episodes, t.nextEpisode);
    EpisodeValuesStored(t);
    var sorted := SortBy(values, NegatedReleaseDate);
    TakeSortedIsSmallest(sorted, NegatedReleaseDate, 4, t.episodes[k]);
  }

  /** `getRecentlyAddedEpisodes`: the four latest-released episodes, each
      with its anime; an episode whose anime is gone is skipped. */
  function GetRecentlyAddedEpisodes(t: Tables): (r: seq<(Anime, Episode)>)
    requires Valid(t)
    ensures |r| <= 4
    ensures forall p :: p in r ==> p.1 in LatestEpisodes(t)
    ensures forall p :: p in r ==> p.1.id in t.episodes && t.episodes[p.1.id] == p.1
    ensures forall p :: p in r ==> p.1.animeId in t.animes && p.0 == t.animes[p.1.animeId]
    ensures forall e :: e in LatestEpisodes(t) && e.animeId in t.animes ==> (t.animes[e.animeId], e) in r
    ensures multiset(PairedEpisodes(r)) <= multiset(LatestEpisodes(t))
    ensures forall i, j :: 0 <= i < j < |r| ==> r[i].1.id != r[j].1.id
  {
    var latest := LatestEpisodes(t);
    var r := WithAnime(latest, t.animes);
    var eps := PairedEpisodes(r);
    forall e | e in eps
      ensures e.id in t.episodes && t.episodes[e.id] == e
    {
      var i :| 0 <= i < |eps| && eps[i] == e;
      assert r[i] in r;
    }
    StoredEpisodesOnce(t, eps);
    r
  }

  /** The recent list holds the latest episodes that still have an anime:
      a stored episode with an anime that is not listed was released no
      later than every listed one, and four episodes were taken before it. */
  lemma RecentlyAddedAreNewest(t: Tables, k: int)
    requires Valid(t)
    requires k in t.episodes && t.episodes[k].animeId in t.animes
    requires (t.animes[t.episodes[k].animeId], t.episodes[k]) !in GetRecentlyAddedEpisodes(t)
    ensures |LatestEpisodes(t)| == 4
    ensures forall p :: p in GetRecentlyAddedEpisodes(t) ==> p.1.releaseDate >= t.episodes[k].releaseDate
  {
    LatestEpisodesAreNewest(t, k);
  }

  // ---------------------------------------------------------------------
  // Properties relating several operations
  // ---------------------------------------------------------------------

  /** An id is never handed out twice: after deleting any entry, the next
      insert into the same table gets an id different from the deleted one. */
  lemma IdsNeverReused(t: Tables, id: int, u: NewUser, a: NewAnime, g: string, e: NewEpisode, now: int)
    requires Valid(t)
    ensures CreateUser(DeleteUser(t, id).0, u, now).1.id != id || id !in t.users
    ensures CreateAnime(DeleteAnime(t, id).0, a).1.id != id || id !in t.animes
    ensures CreateGenre(DeleteGenre(t, id).0, g).1.id != id || id !in t.genres
    ensures CreateEpisode(DeleteEpisode(t, id).0, e, now).1.id != id || id !in t.episodes
  {
  }

  /** Updating a missing id returns nothing and leaves every table as it was. */
  lemma UpdateMissingIsNoOp(t: Tables, id: int, flag: bool, ap: AnimePatch, name: Option<string>, ep: EpisodePatch)
    requires Valid(t)
    ensures id !in t.users ==> UpdateUserAdminStatus(t, id, flag) == (t, None)
    ensures id !in t.animes ==> UpdateAnime(t, id, ap) == (t, None)
    ensures id !in t.genres ==> UpdateGenre(t, id, name) == (t, None)
    ensures id !in t.episodes ==> UpdateEpisode(t, id, ep) == (t, None)
  {
  }

  /** Adding an already linked pair again still adds a link, and the
      genre list of the anime does not change. */
  lemma AddExistingPairDuplicates(t: Tables, animeId: int, genreId: int)
    requires Valid(t)
    requires exists k :: k in t.links && IsPair(t.links[k], animeId, genreId)
    ensures var t2 := AddGenreToAnime(t, animeId, genreId).0;
      |t2.links| == |t.links| + 1 && GetAnimeGenres(t2, animeId) == GetAnimeGenres(t, animeId)
  {
    var t2 := AddGenreToAnime(t, animeId, genreId).0;
    assert t.nextLink !in t.links;
    var k0 :| k0 in t.links && IsPair(t.links[k0], animeId, genreId);
    DistinctStepUnchanged(t.links, animeId, genreId, t.nextLink, k0);
  }

  lemma DistinctStepUnchanged(links: map<int, AnimeGenre>, animeId: int, genreId: int, hi: nat, k0: int)
    requires k0 in links && 0 <= k0 < hi && IsPair(links[k0], animeId, genreId)
    requires hi !in links
    ensures LinkedGenreIds(links[hi := AnimeGenre(hi, animeId, genreId)], animeId, hi + 1)
         == LinkedGenreIds(links, animeId, hi)
  {
    var links2 := links[hi := AnimeGenre(hi, animeId, genreId)];
    DistinctPrefixFrame(links, links2, animeId, hi);
    assert genreId in LinkedGenreIds(links, animeId, hi);
  }

  lemma {:induction false} DistinctPrefixFrame(links: map<int, AnimeGenre>, links2: map<int, AnimeGenre>, animeId: int, hi: nat)
    requires forall k :: 0 <= k < hi ==> (k in links <==> k in links2) && (k in links ==> links[k] == links2[k])
    ensures LinkedGenreIds(links2, animeId, hi) == LinkedGenreIds(links, animeId, hi)
  {
    if hi > 0 {
      DistinctPrefixFrame(links, links2, animeId, hi - 1);
    }
  }
}
