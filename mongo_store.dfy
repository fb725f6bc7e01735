/** The MongoDB side of the dual back-end, the Mongoose models under server/models as used by
    server/routes/admin.ts, server/auth.ts and server/routes/favorites.ts.
    A collection is a sequence of documents in natural (insertion) order;
    a document's `_id` is its 24-digit hexadecimal text. The unique indexes
    the schemas declare are part of `Valid`: a write that would break one
    fails, as MongoDB's duplicate-key error does. Ids are handed out by the
    driver and appear here as parameters that are fresh by precondition. */
module MongoStore {
  import opened Common

  /** `mongoose.Types.ObjectId.isValid` on a string id: 24 hexadecimal
      digits. */
  predicate IsObjectId(s: string)
  {
    |s| == 24 && forall i :: 0 <= i < |s| ==> IsHexDigit(s[i])
  }

  // ---------------------------------------------------------------------
  // Documents
  // ---------------------------------------------------------------------

  /** A user document; `password` holds the bcrypt hash the pre-save hook
      stored. The schema types `isAdmin` as Boolean. */
  datatype MUser = MUser(id: string, username: string, email: string, password: string, isAdmin: bool)

  /** An anime document; `None` is a stored null. */
  datatype MAnime = MAnime(
    id: string, title: string, description: string, coverImage: string,
    bannerImage: Option<string>, releaseYear: int, status: string, animeType: string,
    episodes: Option<int>, rating: Option<string>, studio: Option<string>)

  datatype MGenre = MGenre(id: string, name: string)

  /** An anime-genre link; both references are ObjectId texts. */
  datatype MLink = MLink(id: string, animeId: string, genreId: string)

  datatype MEpisode = MEpisode(
    id: string, animeId: string, title: string, number: int,
    description: Option<string>, thumbnail: Option<string>, videoUrl: string,
    duration: Option<string>, releaseDate: int)

  /** A favorite; `animeId` is kept as it was given. */
  datatype MFavorite = MFavorite(id: string, userId: string, animeId: string)

  datatype Db = Db(
    users: seq<MUser>, animes: seq<MAnime>, genres: seq<MGenre>,
    links: seq<MLink>, episodes: seq<MEpisode>, favorites: seq<MFavorite>)

  // ---------------------------------------------------------------------
  // Keys
  // ---------------------------------------------------------------------

  function UserId(u: MUser): string { u.id }
  function UserName(u: MUser): string { u.username }
  function UserEmail(u: MUser): string { u.email }
  function AnimeId(a: MAnime): string { a.id }
  function GenreId(g: MGenre): string { g.id }
  function GenreName(g: MGenre): string { g.name }
  function LinkId(l: MLink): string { l.id }
  function LinkPair(l: MLink): (string, string) { (l.animeId, l.genreId) }
  function EpisodeId(e: MEpisode): string { e.id }
  function EpisodeSlot(e: MEpisode): (string, int) { (e.animeId, e.number) }
  function FavoriteId(f: MFavorite): string { f.id }
  function FavoritePair(f: MFavorite): (string, string) { (f.userId, f.animeId) }

  /** No two positions of the collection hold documents with the same key
      (so, for the `_id` key, no document is stored twice). */
  predicate UniqueBy<T, K(==)>(s: seq<T>, key: T -> K)
  {
    forall i, j :: 0 <= i < j < |s| ==> key(s[i]) != key(s[j])
  }

  /** A key held by a stored document picks out that document. */
  lemma UniqueMembers<T(!new), K>(s: seq<T>, key: T -> K)
    requires UniqueBy(s, key)
    ensures forall x, y :: x in s && y in s && key(x) == key(y) ==> x == y
  {
    forall x, y | x in s && y in s && key(x) == key(y)
      ensures x == y
    {
      var i :| 0 <= i < |s| && s[i] == x;
      var j :| 0 <= j < |s| && s[j] == y;
      assert !(i < j) && !(j < i);
    }
  }

  /** `_id` is unique in every collection, and so are the schemas' unique
      indexes: username and email, genre name, the (anime, genre) pair of a
      link, the (anime, number) slot of an episode and the (user, anime)
      pair of a favorite. */
  predicate Valid(db: Db)
  {
    && UniqueBy(db.users, UserId) && UniqueBy(db.users, UserName) && UniqueBy(db.users, UserEmail)
    && UniqueBy(db.animes, AnimeId)
    && UniqueBy(db.genres, GenreId) && UniqueBy(db.genres, GenreName)
    && UniqueBy(db.links, LinkId) && UniqueBy(db.links, LinkPair)
    && UniqueBy(db.episodes, EpisodeId) && UniqueBy(db.episodes, EpisodeSlot)
    && UniqueBy(db.favorites, FavoriteId) && UniqueBy(db.favorites, FavoritePair)
  }

  /** An insert of `x` keeps `key` unique: no stored document has its key. */
  predicate Admits<T(==,!new), K(==)>(s: seq<T>, x: T, key: T -> K)
  {
    forall y :: y in s ==> key(y) != key(x)
  }

  // ---------------------------------------------------------------------
  // Queries and writes on one collection
  // ---------------------------------------------------------------------

  /** `findOne`: the first document, in natural order, that matches. */
  function First<T(==,!new)>(s: seq<T>, p: T -> bool): (r: Option<T>)
    ensures r.Some? ==> r.value in s && p(r.value)
    ensures r.None? <==> forall x :: x in s ==> !p(x)
  {
    if s == [] then None
    else if p(s[0]) then Some(s[0])
    else First(s[1..], p)
  }

  /** The documents that match, in natural order (`find`). */
  function Select<T(==,!new)>(s: seq<T>, p: T -> bool): (r: seq<T>)
    ensures |r| <= |s|
    ensures forall x :: x in r <==> x in s && p(x)
    ensures multiset(r) <= multiset(s)
  {
    if s == [] then []
    else
      var rest := Select(s[1..], p);
      assert s == [s[0]] + s[1..];
      if p(s[0]) then [s[0]] + rest else rest
  }

  /** `countDocuments`. */
  function Count<T(==,!new)>(s: seq<T>, p: T -> bool): (r: nat)
  {
    |Select(s, p)|
  }

  /** `deleteMany`: drops every matching document and keeps the others in
      order. */
  function Remove<T(==,!new)>(s: seq<T>, p: T -> bool): (r: seq<T>)
    ensures |r| <= |s|
    ensures forall x :: x in r <==> x in s && !p(x)
  {
    if s == [] then []
    else
      var rest := Remove(s[1..], p);
      if p(s[0]) then rest else [s[0]] + rest
  }

  /** Writing `x` over the stored document `prev` in place. */
  function Replace<T(==,!new)>(s: seq<T>, prev: T, x: T): (r: seq<T>)
    ensures |r| == |s|
    ensures forall i :: 0 <= i < |s| ==> r[i] == if s[i] == prev then x else s[i]
  {
    seq(|s|, i requires 0 <= i < |s| => if s[i] == prev then x else s[i])
  }

  /** Putting in front a document whose key no other holds keeps a key
      unique. */
  lemma ConsKeepsUnique<T(!new), K>(x: T, rest: seq<T>, key: T -> K)
    requires UniqueBy(rest, key) && Admits(rest, x, key)
    ensures UniqueBy([x] + rest, key)
  {
    var s := [x] + rest;
    forall i, j | 0 <= i < j < |s| ensures key(s[i]) != key(s[j])
    {
      assert s[j] == rest[j - 1];
      if i > 0 {
        assert s[i] == rest[i - 1];
      } else {
        assert s[j] in rest;
      }
    }
  }

  lemma {:induction false} RemoveKeepsUnique<T(!new), K>(s: seq<T>, p: T -> bool, key: T -> K)
    requires UniqueBy(s, key)
    ensures UniqueBy(Remove(s, p), key)
  {
    if s != [] {
      assert UniqueBy(s[1..], key) by {
        forall i, j | 0 <= i < j < |s[1..]| ensures key(s[1..][i]) != key(s[1..][j])
        {
          assert s[1..][i] == s[i + 1] && s[1..][j] == s[j + 1];
        }
      }
      RemoveKeepsUnique(s[1..], p, key);
      if !p(s[0]) {
        forall y | y in Remove(s[1..], p) ensures key(y) != key(s[0])
        {
          var j :| 0 <= j < |s[1..]| && s[1..][j] == y;
          assert s[j + 1] == y;
        }
        ConsKeepsUnique(s[0], Remove(s[1..], p), key);
      }
    }
  }

  /** The matching documents of a collection with a unique key have
      distinct keys too. */
  lemma {:induction false} SelectKeepsUnique<T(!new), K>(s: seq<T>, p: T -> bool, key: T -> K)
    requires UniqueBy(s, key)
    ensures UniqueBy(Select(s, p), key)
  {
    if s != [] {
      assert UniqueBy(s[1..], key) by {
        forall i, j | 0 <= i < j < |s[1..]| ensures key(s[1..][i]) != key(s[1..][j])
        {
          assert s[1..][i] == s[i + 1] && s[1..][j] == s[j + 1];
        }
      }
      SelectKeepsUnique(s[1..], p, key);
      if p(s[0]) {
        forall y | y in Select(s[1..], p) ensures key(y) != key(s[0])
        {
          var j :| 0 <= j < |s[1..]| && s[1..][j] == y;
          assert s[j + 1] == y;
        }
        ConsKeepsUnique(s[0], Select(s[1..], p), key);
      }
    }
  }

  lemma AppendKeepsUnique<T(!new), K>(s: seq<T>, x: T, key: T -> K)
    requires UniqueBy(s, key) && Admits(s, x, key)
    ensures UniqueBy(s + [x], key)
  {
    var r := s + [x];
    forall i, j | 0 <= i < j < |r| ensures key(r[i]) != key(r[j])
    {
      assert r[i] == s[i];
      if j == |s| {
        assert s[i] in s;
      }
    }
  }

  /** Replacing a stored document keeps a key unique when no other
      document holds the new key. */
  lemma ReplaceKeepsUnique<T(!new), K>(s: seq<T>, prev: T, x: T, key: T -> K)
    requires UniqueBy(s, key) && prev in s
    requires forall y :: y in s && y != prev ==> key(y) != key(x)
    ensures UniqueBy(Replace(s, prev, x), key)
    ensures forall y :: y in Replace(s, prev, x) <==> y == x || (y in s && y != prev)
  {
    var r := Replace(s, prev, x);
    forall y | y in r ensures y == x || (y in s && y != prev)
    {
      var i :| 0 <= i < |r| && r[i] == y;
    }
    var i :| 0 <= i < |s| && s[i] == prev;
    assert r[i] == x;
    forall m, n | 0 <= m < n < |r| ensures key(r[m]) != key(r[n])
    {
      if s[m] == prev && s[n] != prev {
        assert s[n] in s;
      } else if s[n] == prev && s[m] != prev {
        assert s[m] in s;
      }
    }
  }

  // ---------------------------------------------------------------------
  // Lookups by id and by reference
  // ---------------------------------------------------------------------

  function UserWithId(id: string): MUser -> bool { (u: MUser) => u.id == id }
  function UserNamed(name: string): MUser -> bool { (u: MUser) => u.username == name }
  function AnimeWithId(id: string): MAnime -> bool { (a: MAnime) => a.id == id }
  function GenreWithId(id: string): MGenre -> bool { (g: MGenre) => g.id == id }
  function GenreNamed(name: string): MGenre -> bool { (g: MGenre) => g.name == name }
  function LinkOfAnime(id: string): MLink -> bool { (l: MLink) => l.animeId == id }
  function LinkOfGenre(id: string): MLink -> bool { (l: MLink) => l.genreId == id }
  function LinkOfPair(animeId: string, genreId: string): MLink -> bool
  {
    (l: MLink) => l.animeId == animeId && l.genreId == genreId
  }
  function EpisodeWithId(id: string): MEpisode -> bool { (e: MEpisode) => e.id == id }
  function EpisodeOfAnime(id: string): MEpisode -> bool { (e: MEpisode) => e.animeId == id }
  function AdminUser(u: MUser): bool { u.isAdmin }

  /** A document found by a unique key is the only one with that key. */
  lemma FoundByIdIsUnique(db: Db, id: string)
    requires Valid(db)
    ensures First(db.users, UserWithId(id)).Some? ==>
      forall u :: u in db.users && u.id == id ==> u == First(db.users, UserWithId(id)).value
    ensures First(db.animes, AnimeWithId(id)).Some? ==>
      forall a :: a in db.animes && a.id == id ==> a == First(db.animes, AnimeWithId(id)).value
    ensures First(db.genres, GenreWithId(id)).Some? ==>
      forall g :: g in db.genres && g.id == id ==> g == First(db.genres, GenreWithId(id)).value
    ensures First(db.episodes, EpisodeWithId(id)).Some? ==>
      forall e :: e in db.episodes && e.id == id ==> e == First(db.episodes, EpisodeWithId(id)).value
  {
    UniqueMembers(db.users, UserId);
    UniqueMembers(db.animes, AnimeId);
    UniqueMembers(db.genres, GenreId);
    UniqueMembers(db.episodes, EpisodeId);
  }

  /** A fresh id the driver may hand out for a new document. */
  predicate FreshIn<T(==,!new)>(s: seq<T>, id: string, key: T -> string)
  {
    IsObjectId(id) && forall x :: x in s ==> key(x) != id
  }

  // ---------------------------------------------------------------------
  // Schema validation
  // ---------------------------------------------------------------------

  const AnimeStatuses: set<string> := {"Ongoing", "Completed", "Announced", "Cancelled"}
  const AnimeTypes: set<string> := {"TV", "TV Series", "Movie", "OVA", "Special", "ONA"}

  /** The Anime schema's validators: the required strings are not empty and
      status and type are among the enumerated values. */
  predicate AnimeDocOk(a: MAnime)
  {
    a.title != "" && a.description != "" && a.coverImage != ""
    && a.status in AnimeStatuses && a.animeType in AnimeTypes
  }

  /** The Episode schema's validators: title and video URL are required. */
  predicate EpisodeDocOk(e: MEpisode)
  {
    e.title != "" && e.videoUrl != ""
  }

  /** The User schema's validators that a plain string can break: the
      username is 3 to 20 characters, the password at least 6. */
  predicate UserDocOk(username: string, email: string, password: string)
  {
    3 <= |username| <= 20 && email != "" && |password| >= 6
  }
}
