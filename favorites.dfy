/** The favorites routes of server/routes/favorites.ts. A caller is known by
    the passport session or, failing that, by the token gate; a favorite is
    a (user, anime) pair in the MongoDB favorites collection, whose unique
    index makes the collection a set of pairs. An anime id may name a
    MongoDB anime or, when it is all digits, an in-memory one.

    The favorites schema types both references as ObjectId, so Mongoose
    casts every query value and every new document to an ObjectId before
    MongoDB sees it, and a value that does not cast fails the request with
    a 500. `RefSchema` names that typing, and `TextRefs` the typing the
    numeric-id paths of the routes evidently expect. */
module Favorites {
  import opened Common
  import opened Stores
  import Mem = MemTables
  import Mongo = MongoStore
  import TokenAuth
  import SessionAuth

  // ---------------------------------------------------------------------
  // Callers
  // ---------------------------------------------------------------------

  /** Who the request runs for: the session's user, or the user the token
      gate attached. */
  datatype Caller = SessionUser(principal: SessionAuth.Principal) | TokenCaller(user: TokenAuth.TokenUser)

  /** The middleware's decision: run the handler for a caller, or answer
      401 with a message. */
  datatype Access = Granted(caller: Caller) | Denied(message: string)

  /** `isAuthenticated`: a passport session admits the request; without one
      the token gate decides, and its refusal is the answer. */
  function Identify(session: Option<SessionAuth.Principal>, token: TokenAuth.AuthResult): (r: Access)
    ensures r.Granted? <==> session.Some? || token.Admit?
    ensures session.Some? ==> r == Granted(SessionUser(session.value))
    ensures session.None? && token.Admit? ==> r == Granted(TokenCaller(token.user))
    ensures r.Denied? ==> r.message == token.message
  {
    if session.Some? then Granted(SessionUser(session.value))
    else if token.Admit? then Granted(TokenCaller(token.user))
    else Denied(token.message)
  }

  /** A value placed in a query or a document: a number or a string. */
  datatype QueryValue = NumberValue(n: int) | TextValue(text: string)

  /** `getUserId`: the `_id` text of a MongoDB user, else the numeric `id`
      of an in-memory one. */
  function GetUserId(c: Caller): (r: QueryValue)
    ensures c.TokenCaller? ==> r == TextValue(c.user.id)
  {
    match c
    case TokenCaller(user) => TextValue(user.id)
    case SessionUser(p) =>
      match p
      case FromMongo(doc) => TextValue(doc.id)
      case FromMemory(record) => NumberValue(record.id)
  }

  /** The favorites identity of a session user is the very key passport
      keeps in the session. */
  lemma UserIdIsSessionKey(p: SessionAuth.Principal)
    ensures SessionAuth.Serialize(p).DocKey? <==> GetUserId(SessionUser(p)).TextValue?
    ensures SessionAuth.Serialize(p).DocKey? ==> GetUserId(SessionUser(p)).text == SessionAuth.Serialize(p).text
    ensures SessionAuth.Serialize(p).RecordKey? ==> GetUserId(SessionUser(p)).n == SessionAuth.Serialize(p).n
  {
  }

  // ---------------------------------------------------------------------
  // Casting
  // ---------------------------------------------------------------------

  /** How the favorites schema types its two references. */
  datatype RefSchema = ObjectIdRefs | TextRefs

  /** The stored text a query value casts to, or `None` for a cast error.
      An ObjectId cast takes the value's string form, which must be 24
      hexadecimal digits; a number never qualifies, because JavaScript
      prints numbers of 22 digits and more in exponent form. A String cast
      takes any value's string form. */
  function CastRef(schema: RefSchema, v: QueryValue): (r: Option<string>)
    ensures schema.ObjectIdRefs? ==> (r.Some? <==> v.TextValue? && Mongo.IsObjectId(v.text))
    ensures schema.TextRefs? ==> r.Some?
    ensures r.Some? && v.TextValue? ==> r.value == v.text
    ensures r.Some? && v.NumberValue? ==> r.value == IntToString(v.n)
  {
    match v
    case TextValue(s) => if schema.TextRefs? || Mongo.IsObjectId(s) then Some(s) else None
    case NumberValue(n) => if schema.TextRefs? then Some(IntToString(n)) else None
  }

  // ---------------------------------------------------------------------
  // Anime resolution
  // ---------------------------------------------------------------------

  /** An anime a favorite names, from either store. */
  datatype FavoriteAnime = MongoAnime(doc: Mongo.MAnime) | MemoryAnime(record: Mem.Anime)

  predicate OnMongo(b: Backends, animeId: string)
  {
    b.mongoLive && Mongo.IsObjectId(animeId) && Mongo.First(b.db.animes, Mongo.AnimeWithId(animeId)).Some?
  }

  predicate InMemory(b: Backends, animeId: string)
  {
    AllDigits(animeId) && DigitsValue(animeId) in b.mem.animes
  }

  /** The lookup both POST and GET make: `findById` on MongoDB for an
      ObjectId (a lookup that fails while MongoDB is disconnected is caught
      and counts as not found), then, for an all-digit id, the in-memory
      anime `parseInt` names. */
  function ResolveAnime(b: Backends, animeId: string): (r: Option<FavoriteAnime>)
    requires Valid(b)
    ensures r.None? <==> !OnMongo(b, animeId) && !InMemory(b, animeId)
    ensures r.Some? && r.value.MongoAnime? ==> r.value.doc in b.db.animes && r.value.doc.id == animeId
    ensures r.Some? && r.value.MemoryAnime? ==>
      !OnMongo(b, animeId) && r.value.record == b.mem.animes[DigitsValue(animeId)]
    ensures OnMongo(b, animeId) ==> r.Some? && r.value.MongoAnime?
  {
    if OnMongo(b, animeId) then Some(MongoAnime(Mongo.First(b.db.animes, Mongo.AnimeWithId(animeId)).value))
    else if InMemory(b, animeId) then Some(MemoryAnime(b.mem.animes[DigitsValue(animeId)]))
    else None
  }

  /** An in-memory anime is found under the text of its id. */
  lemma MemoryAnimeFoundByItsId(b: Backends, id: nat)
    requires Valid(b) && id in b.mem.animes
    requires !OnMongo(b, MemIdText(id))
    ensures ResolveAnime(b, MemIdText(id)) == Some(MemoryAnime(b.mem.animes[id]))
  {
  }

  // ---------------------------------------------------------------------
  // The collection as a set of pairs
  // ---------------------------------------------------------------------

  function FavoriteOf(userId: string, animeId: string): Mongo.MFavorite -> bool
  {
    (f: Mongo.MFavorite) => f.userId == userId && f.animeId == animeId
  }

  function FavoriteOfUser(userId: string): Mongo.MFavorite -> bool
  {
    (f: Mongo.MFavorite) => f.userId == userId
  }

  predicate HasPair(favorites: seq<Mongo.MFavorite>, userId: string, animeId: string)
  {
    exists f :: f in favorites && f.userId == userId && f.animeId == animeId
  }

  /** Deleting the pairs a sequence did not hold after one was appended
      gives the sequence back. */
  lemma {:induction false} RemoveAppended(s: seq<Mongo.MFavorite>, f: Mongo.MFavorite, p: Mongo.MFavorite -> bool)
    requires p(f) && forall x :: x in s ==> !p(x)
    ensures Mongo.Remove(s + [f], p) == s
  {
    if s == [] {
      assert Mongo.Remove([f], p) == Mongo.Remove([f][1..], p);
    } else {
      assert (s + [f])[1..] == s[1..] + [f];
      RemoveAppended(s[1..], f, p);
      assert s == [s[0]] + s[1..];
    }
  }

  // ---------------------------------------------------------------------
  // POST /api/favorites
  // ---------------------------------------------------------------------

  /** POST /api/favorites. The anime must resolve in one of the stores; the
      pair is then looked up and inserted on MongoDB, which must be
      connected (Mongoose otherwise buffers the query until it fails) and
      must accept both values under the schema. */
  function AddFavorite(schema: RefSchema, b: Backends, access: Access, animeId: Option<string>, newId: string)
    : (r: (Response, Backends))
    requires Valid(b) && Mongo.FreshIn(b.db.favorites, newId, Mongo.FavoriteId)
    ensures Valid(r.1)
    ensures r.0.status in {201, 400, 401, 404, 409, 500}
    ensures r.0.status != 201 ==> r.1 == b
    ensures access.Denied? <==> r.0.status == 401
    ensures access.Denied? ==> r == (Say(401, access.message), b)
    ensures access.Granted? ==>
      (r.0 == Say(400, "Anime ID is required") <==> animeId.None? || animeId.value == "")
    ensures r.0.status == 404 ==>
      r.0 == Say(404, "Anime not found") && access.Granted? &&
      animeId.Some? && ResolveAnime(b, animeId.value).None?
    ensures r.0.status == 500 ==> r.0 == Say(500, "Error adding to favorites")
    ensures r.0.status == 409 ==> r.0 == Say(409, "Anime already in favorites")
    ensures r.0.status in {201, 409, 500} ==>
      access.Granted? && animeId.Some? && ResolveAnime(b, animeId.value).Some?
    ensures r.0.status in {201, 409} <==>
      access.Granted? && animeId.Some? && animeId.value != "" && ResolveAnime(b, animeId.value).Some? &&
      b.mongoLive && CastRef(schema, GetUserId(access.caller)).Some? &&
      CastRef(schema, TextValue(animeId.value)).Some?
    ensures r.0.status in {201, 409} ==>
      var u := CastRef(schema, GetUserId(access.caller)).value;
      var a := CastRef(schema, TextValue(animeId.value)).value;
      (r.0.status == 409 <==> HasPair(b.db.favorites, u, a)) &&
      (r.0.status == 201 ==>
         r.0 == Say(201, "Added to favorites") &&
         r.1 == b.(db := b.db.(favorites := b.db.favorites + [Mongo.MFavorite(newId, u, a)])))
  {
    if access.Denied? then (Say(401, access.message), b)
    else if animeId.None? || animeId.value == "" then (Say(400, "Anime ID is required"), b)
    else if ResolveAnime(b, animeId.value).None? then (Say(404, "Anime not found"), b)
    else
      var u := CastRef(schema, GetUserId(access.caller));
      var a := CastRef(schema, TextValue(animeId.value));
      if !b.mongoLive || u.None? || a.None? then (Say(500, "Error adding to favorites"), b)
      else if Mongo.First(b.db.favorites, FavoriteOf(u.value, a.value)).Some? then
        (Say(409, "Anime already in favorites"), b)
      else
        var f := Mongo.MFavorite(newId, u.value, a.value);
        Mongo.AppendKeepsUnique(b.db.favorites, f, Mongo.FavoriteId);
        Mongo.AppendKeepsUnique(b.db.favorites, f, Mongo.FavoritePair);
        (Say(201, "Added to favorites"), b.(db := b.db.(favorites := b.db.favorites + [f])))
  }

  /** Adding a favorite twice: the second request is refused with 409 and
      changes nothing, so the collection stays a set of pairs. */
  lemma SecondAddConflicts(schema: RefSchema, b: Backends, access: Access, animeId: Option<string>,
                           id1: string, id2: string)
    requires Valid(b) && Mongo.FreshIn(b.db.favorites, id1, Mongo.FavoriteId)
    requires AddFavorite(schema, b, access, animeId, id1).0.status == 201
    requires Mongo.FreshIn(AddFavorite(schema, b, access, animeId, id1).1.db.favorites, id2, Mongo.FavoriteId)
    ensures var once := AddFavorite(schema, b, access, animeId, id1).1;
            AddFavorite(schema, once, access, animeId, id2) == (Say(409, "Anime already in favorites"), once)
  {
    var once := AddFavorite(schema, b, access, animeId, id1).1;
    var u := CastRef(schema, GetUserId(access.caller)).value;
    var a := CastRef(schema, TextValue(animeId.value)).value;
    var f := Mongo.MFavorite(id1, u, a);
    assert f in once.db.favorites;
    assert ResolveAnime(once, animeId.value) == ResolveAnime(b, animeId.value);
  }

  // ---------------------------------------------------------------------
  // DELETE /api/favorites/:animeId
  // ---------------------------------------------------------------------

  /** The query value for the route parameter: an all-digit parameter
      becomes the number `parseInt` reads, anything else stays a string. */
  function DeleteQuery(param: string): (r: QueryValue)
    ensures r.NumberValue? <==> AllDigits(param)
    ensures r.NumberValue? ==> ParseInt(param, false) == Some(r.n)
    ensures r.TextValue? ==> r.text == param
  {
    if AllDigits(param) then
      ParseIntOfDigits(param, false);
      NumberValue(DigitsValue(param))
    else TextValue(param)
  }

  /** DELETE /api/favorites/:animeId. */
  function RemoveFavorite(schema: RefSchema, b: Backends, access: Access, param: string): (r: (Response, Backends))
    requires Valid(b)
    ensures Valid(r.1)
    ensures r.0.status in {200, 401, 404, 500}
    ensures r.0.status != 200 ==> r.1 == b
    ensures access.Denied? <==> r.0.status == 401
    ensures access.Denied? ==> r == (Say(401, access.message), b)
    ensures r.0.status == 500 <==>
      access.Granted? &&
      (!b.mongoLive || CastRef(schema, GetUserId(access.caller)).None? || CastRef(schema, DeleteQuery(param)).None?)
    ensures r.0.status == 500 ==> r.0 == Say(500, "Error removing from favorites")
    ensures r.0.status in {200, 404} ==>
      access.Granted? &&
      var u := CastRef(schema, GetUserId(access.caller)).value;
      var a := CastRef(schema, DeleteQuery(param)).value;
      b.mongoLive &&
      (r.0.status == 200 <==> HasPair(b.db.favorites, u, a)) &&
      (r.0.status == 404 ==> r.0 == Say(404, "Favorite not found")) &&
      (r.0.status == 200 ==>
         r.0 == Say(200, "Removed from favorites") &&
         !HasPair(r.1.db.favorites, u, a) &&
         (forall f :: f in r.1.db.favorites <==> f in b.db.favorites && !(f.userId == u && f.animeId == a)) &&
         r.1 == b.(db := r.1.db) && r.1.db == b.db.(favorites := r.1.db.favorites))
  {
    if access.Denied? then (Say(401, access.message), b)
    else
      var u := CastRef(schema, GetUserId(access.caller));
      var a := CastRef(schema, DeleteQuery(param));
      if !b.mongoLive || u.None? || a.None? then (Say(500, "Error removing from favorites"), b)
      else if Mongo.First(b.db.favorites, FavoriteOf(u.value, a.value)).None? then
        (Say(404, "Favorite not found"), b)
      else
        var p := FavoriteOf(u.value, a.value);
        Mongo.RemoveKeepsUnique(b.db.favorites, p, Mongo.FavoriteId);
        Mongo.RemoveKeepsUnique(b.db.favorites, p, Mongo.FavoritePair);
        (Say(200, "Removed from favorites"), b.(db := b.db.(favorites := Mongo.Remove(b.db.favorites, p))))
  }

  /** A favorite just added is removed by the DELETE that names the same
      anime, and the collection returns to what it was, whenever the
      route's query value casts to the stored id. */
  lemma AddThenRemove(schema: RefSchema, b: Backends, access: Access, animeId: string, newId: string)
    requires Valid(b) && Mongo.FreshIn(b.db.favorites, newId, Mongo.FavoriteId)
    requires AddFavorite(schema, b, access, Some(animeId), newId).0.status == 201
    requires CastRef(schema, DeleteQuery(animeId)) == CastRef(schema, TextValue(animeId))
    ensures RemoveFavorite(schema, AddFavorite(schema, b, access, Some(animeId), newId).1, access, animeId)
            == (Say(200, "Removed from favorites"), b)
  {
    var added := AddFavorite(schema, b, access, Some(animeId), newId).1;
    var u := CastRef(schema, GetUserId(access.caller)).value;
    var a := CastRef(schema, TextValue(animeId)).value;
    var f := Mongo.MFavorite(newId, u, a);
    assert f in added.db.favorites && FavoriteOf(u, a)(f);
    RemoveAppended(b.db.favorites, f, FavoriteOf(u, a));
  }

  /** Under the ObjectId typing the numeric-id paths never succeed: an
      in-memory anime is found, yet favoriting it fails with a 500, and so
      does every DELETE with an all-digit parameter. */
  lemma NumericIdsNeverSucceed(b: Backends, access: Access, id: nat, newId: string, param: string)
    requires Valid(b) && Mongo.FreshIn(b.db.favorites, newId, Mongo.FavoriteId)
    requires access.Granted? && id in b.mem.animes && !OnMongo(b, MemIdText(id))
    requires |MemIdText(id)| != 24 && AllDigits(param)
    ensures ResolveAnime(b, MemIdText(id)).Some?
    ensures AddFavorite(ObjectIdRefs, b, access, Some(MemIdText(id)), newId) == (Say(500, "Error adding to favorites"), b)
    ensures RemoveFavorite(ObjectIdRefs, b, access, param) == (Say(500, "Error removing from favorites"), b)
  {
    MemoryAnimeFoundByItsId(b, id);
  }

  /** With references typed as text, an in-memory anime can be favorited
      while MongoDB is connected and unfavorited again by its id, which
      leaves the collection as it was. */
  lemma TextRefsKeepMemoryFavorites(b: Backends, access: Access, id: nat, newId: string)
    requires Valid(b) && Mongo.FreshIn(b.db.favorites, newId, Mongo.FavoriteId)
    requires b.mongoLive && access.Granted? && id in b.mem.animes && !OnMongo(b, MemIdText(id))
    requires !HasPair(b.db.favorites, CastRef(TextRefs, GetUserId(access.caller)).value, MemIdText(id))
    ensures AddFavorite(TextRefs, b, access, Some(MemIdText(id)), newId).0 == Say(201, "Added to favorites")
    ensures RemoveFavorite(TextRefs, AddFavorite(TextRefs, b, access, Some(MemIdText(id)), newId).1, access, MemIdText(id))
            == (Say(200, "Removed from favorites"), b)
  {
    MemoryAnimeFoundByItsId(b, id);
    ParseIntRoundTrip(id, false);
    AddThenRemove(TextRefs, b, access, MemIdText(id), newId);
  }

  // ---------------------------------------------------------------------
  // GET /api/favorites
  // ---------------------------------------------------------------------

  /** The anime ids of some favorites, in natural order. */
  function AnimeIds(favorites: seq<Mongo.MFavorite>): (r: seq<string>)
    ensures |r| == |favorites|
    ensures forall i :: 0 <= i < |favorites| ==> r[i] == favorites[i].animeId
  {
    seq(|favorites|, i requires 0 <= i < |favorites| => favorites[i].animeId)
  }

  /** Every id resolved, in order, with the ids that resolve nowhere left
      out. */
  function ResolveAll(b: Backends, ids: seq<string>): (r: seq<FavoriteAnime>)
    requires Valid(b)
    ensures |r| <= |ids|
    ensures forall x :: x in r <==> exists i :: 0 <= i < |ids| && ResolveAnime(b, ids[i]) == Some(x)
  {
    if ids == [] then []
    else
      var rest := ResolveAll(b, ids[1..]);
      assert forall i :: 1 <= i < |ids| ==> ids[i] == ids[1..][i - 1];
      match ResolveAnime(b, ids[0])
      case Some(x) => [x] + rest
      case None => rest
  }

  datatype Listing = Listed(animes: seq<FavoriteAnime>) | Failed(response: Response)

  /** GET /api/favorites: the caller's favorites that still resolve. */
  function ListFavorites(schema: RefSchema, b: Backends, access: Access): (r: Listing)
    requires Valid(b)
    ensures access.Denied? ==> r == Failed(Say(401, access.message))
    ensures r.Failed? && access.Granted? ==> r.response == Say(500, "Error fetching favorites")
    ensures r.Listed? <==> access.Granted? && b.mongoLive && CastRef(schema, GetUserId(access.caller)).Some?
    ensures r.Listed? ==>
      var u := CastRef(schema, GetUserId(access.caller)).value;
      (forall x :: x in r.animes <==>
         exists f :: f in b.db.favorites && f.userId == u && ResolveAnime(b, f.animeId) == Some(x)) &&
      |r.animes| <= |Mongo.Select(b.db.favorites, FavoriteOfUser(u))|
  {
    if access.Denied? then Failed(Say(401, access.message))
    else
      var u := CastRef(schema, GetUserId(access.caller));
      if !b.mongoLive || u.None? then Failed(Say(500, "Error fetching favorites"))
      else
        var mine := Mongo.Select(b.db.favorites, FavoriteOfUser(u.value));
        var ids := AnimeIds(mine);
        var r := ResolveAll(b, ids);
        assert forall x :: x in r ==> exists f :: f in b.db.favorites && f.userId == u.value && ResolveAnime(b, f.animeId) == Some(x) by {
          forall x | x in r
            ensures exists f :: f in b.db.favorites && f.userId == u.value && ResolveAnime(b, f.animeId) == Some(x)
          {
            var i :| 0 <= i < |ids| && ResolveAnime(b, ids[i]) == Some(x);
            assert mine[i] in mine;
          }
        }
        assert forall f :: f in b.db.favorites && f.userId == u.value && ResolveAnime(b, f.animeId).Some? ==> ResolveAnime(b, f.animeId).value in r by {
          forall f | f in b.db.favorites && f.userId == u.value && ResolveAnime(b, f.animeId).Some?
            ensures ResolveAnime(b, f.animeId).value in r
          {
            assert f in mine;
            var i :| 0 <= i < |mine| && mine[i] == f;
            assert ids[i] == f.animeId;
          }
        }
        Listed(r)
  }

  /** A favorite whose anime has been deleted from both stores drops out of
      the listing rather than failing it. */
  lemma DeletedAnimeDropsOut(schema: RefSchema, b: Backends, access: Access, f: Mongo.MFavorite)
    requires Valid(b) && ListFavorites(schema, b, access).Listed?
    requires f in b.db.favorites && ResolveAnime(b, f.animeId).None?
    ensures forall x :: x in ListFavorites(schema, b, access).animes ==>
      exists g :: g in b.db.favorites && g != f && ResolveAnime(b, g.animeId) == Some(x)
  {
  }
}
