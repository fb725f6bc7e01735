/** The admin API of server/routes/admin.ts. Every handler answers from
    MongoDB when it is connected and from the in-memory store otherwise; a
    handler is a function from the two stores (and the request) to the
    response and the two stores afterwards. The body schemas are applied
    before a handler runs: a body that fails them is `None`. */
module AdminRoutes {
  import opened Common
  import opened Flags
  import opened Stores
  import Mem = MemTables
  import Mongo = MongoStore
  import AdminGate
  import TokenAuth

  // ---------------------------------------------------------------------
  // The gate in front of every route
  // ---------------------------------------------------------------------

  /** The router's two middlewares: a request without a session goes
      through the token gate, which on success attaches the user; then the
      admin check reads whichever user is attached. `sessionUser` is the
      flag of the session's user when there is a session. */
  function AdminChain(sessionUser: Option<JsValue>, token: TokenAuth.AuthResult): (r: AdminGate.Outcome)
    ensures sessionUser.Some? ==> (r.Next? <==> NormalizeBoolean(sessionUser.value))
    ensures sessionUser.None? && token.Unauthorized? ==> r == AdminGate.Reject(401, token.message)
    ensures sessionUser.None? && token.Admit? ==> (r.Next? <==> NormalizeBoolean(token.user.isAdmin))
    ensures r.Reject? ==> r.status in {401, 403}
  {
    if sessionUser.Some? then AdminGate.AdminGate(true, sessionUser)
    else
      match token
      case Unauthorized(message) => AdminGate.Reject(401, message)
      case Admit(user, _) => AdminGate.AdminGate(true, Some(user.isAdmin))
  }

  /** A request that the token gate admits with a token issued for a
      non-admin never reaches a handler, whatever the stored flag says. */
  lemma TokenIssuedForNonAdminIsRefused(userId: string, token: string,
                                        verify: string -> TokenAuth.Verified,
                                        findById: string -> TokenAuth.Lookup<TokenAuth.TokenUser>)
    requires token != ""
    requires verify(token) == TokenAuth.Verified(TokenAuth.GenerateToken(userId, Some(false)).payload)
    requires findById(userId).Found?
    ensures AdminChain(None, TokenAuth.Authenticate(Some(token), verify, findById))
         == AdminGate.Reject(403, "Admin access required")
  {
    TokenAuth.IssuedTokenDecidesFlag(userId, Some(false), token, verify, findById);
  }

  // ---------------------------------------------------------------------
  // Users
  // ---------------------------------------------------------------------

  /** An in-memory user as the memory branch sends it: the stored record
      spread whole (password included) with the flag normalised. */
  function MemUserView(u: Mem.User): (r: UserView)
    ensures r.password == Some(u.password) && r.isAdmin == NormalizeBoolean(u.isAdmin)
  {
    UserView(MemIdText(u.id), u.username, None, Some(u.password), NormalizeBoolean(u.isAdmin))
  }

  /** GET /users. */
  function ListUsers(b: Backends): (r: Response)
    requires Valid(b)
    ensures r.status == 200 && r.body.UserList?
    ensures b.mongoLive ==> (|r.body.users| == |b.db.users| &&
      forall i :: 0 <= i < |b.db.users| ==> r.body.users[i] == MongoUserView(b.db.users[i]))
    ensures !b.mongoLive ==> (|r.body.users| == |Mem.GetAllUsers(b.mem)| &&
      forall i :: 0 <= i < |r.body.users| ==> r.body.users[i] == MemUserView(Mem.GetAllUsers(b.mem)[i]))
  {
    if b.mongoLive then
      Response(200, UserList(seq(|b.db.users|, i requires 0 <= i < |b.db.users| => MongoUserView(b.db.users[i]))))
    else
      var users := Mem.GetAllUsers(b.mem);
      Response(200, UserList(seq(|users|, i requires 0 <= i < |users| => MemUserView(users[i]))))
  }

  /** PATCH /users/:id/admin. The stored flag is the normalised body flag,
      on either branch; nothing stops the last admin from being demoted. */
  function SetUserAdmin(b: Backends, id: string, rawFlag: JsValue): (r: (Response, Backends))
    requires Valid(b)
    ensures Valid(r.1) && OnlyLive(b, r.1)
    ensures r.0.status != 200 ==> r.1 == b
    ensures r.0.status in {200, 400, 404}
    ensures r.0.status == 200 ==> r.0.body.OneUser? && r.0.body.user.isAdmin == NormalizeBoolean(rawFlag)
    ensures b.mongoLive ==> (r.0.status == 400 <==> !Mongo.IsObjectId(id))
    ensures b.mongoLive ==> (r.0.status == 200 <==>
      Mongo.IsObjectId(id) && Mongo.First(b.db.users, Mongo.UserWithId(id)).Some?)
    ensures b.mongoLive && r.0.status == 200 ==>
      var u := Mongo.First(b.db.users, Mongo.UserWithId(id)).value;
      r.1.db == b.db.(users := Mongo.Replace(b.db.users, u, u.(isAdmin := NormalizeBoolean(rawFlag))))
    ensures !b.mongoLive ==> (r.0.status == 200 <==> MemKey(id).Some? && MemKey(id).value in b.mem.users)
    ensures !b.mongoLive && r.0.status == 200 ==>
      r.1.mem == Mem.UpdateUserAdminStatus(b.mem, MemKey(id).value, NormalizeBoolean(rawFlag)).0
  {
    var flag := NormalizeBoolean(rawFlag);
    if b.mongoLive then
      if !Mongo.IsObjectId(id) then (Say(400, "Invalid user ID format"), b)
      else
        match Mongo.First(b.db.users, Mongo.UserWithId(id))
        case None => (Say(404, "User not found in MongoDB"), b)
        case Some(u) =>
          var updated := u.(isAdmin := flag);
          Mongo.UniqueMembers(b.db.users, Mongo.UserId);
          Mongo.ReplaceKeepsUnique(b.db.users, u, updated, Mongo.UserId);
          Mongo.ReplaceKeepsUnique(b.db.users, u, updated, Mongo.UserName);
          Mongo.ReplaceKeepsUnique(b.db.users, u, updated, Mongo.UserEmail);
          (Response(200, OneUser(MongoUserView(updated))),
           b.(db := b.db.(users := Mongo.Replace(b.db.users, u, updated))))
    else
      var key := MemKey(id);
      if key.None? then (Say(404, "User not found"), b)
      else
        var (t, user) := Mem.UpdateUserAdminStatus(b.mem, key.value, flag);
        if user.None? then (Say(404, "User not found"), b)
        else (Response(200, OneUser(MemUserView(user.value))), b.(mem := t))
  }

  /** The admin routes do not protect the last admin from demotion: with
      one admin stored, demoting it succeeds and leaves no admin. */
  lemma LastAdminCanBeDemoted(b: Backends, id: string, rawFlag: JsValue)
    requires Valid(b) && b.mongoLive && Mongo.IsObjectId(id) && !NormalizeBoolean(rawFlag)
    requires Mongo.First(b.db.users, Mongo.UserWithId(id)).Some?
    requires forall u :: u in b.db.users && u.isAdmin ==> u.id == id
    ensures SetUserAdmin(b, id, rawFlag).0.status == 200
    ensures forall u :: u in SetUserAdmin(b, id, rawFlag).1.db.users ==> !u.isAdmin
  {
    var prev := Mongo.First(b.db.users, Mongo.UserWithId(id)).value;
    var updated := prev.(isAdmin := false);
    Mongo.ReplaceKeepsUnique(b.db.users, prev, updated, Mongo.UserId);
  }

  /** DELETE /users/:id. On MongoDB an admin is deleted only while another
      admin is stored; the memory branch deletes whatever it finds. */
  function DeleteUser(b: Backends, id: string): (r: (Response, Backends))
    requires Valid(b)
    ensures Valid(r.1) && OnlyLive(b, r.1)
    ensures r.0.status != 200 ==> r.1 == b
    ensures r.0.status in {200, 400, 404}
    ensures b.mongoLive ==> (r.0 == Say(400, "Cannot delete the last admin user") <==>
      Mongo.IsObjectId(id) && Mongo.First(b.db.users, Mongo.UserWithId(id)).Some? &&
      Mongo.First(b.db.users, Mongo.UserWithId(id)).value.isAdmin &&
      Mongo.Count(b.db.users, Mongo.AdminUser) <= 1)
    ensures b.mongoLive && r.0.status == 200 ==>
      r.1.db == b.db.(users := Mongo.Remove(b.db.users, Mongo.UserWithId(id)))
    ensures !b.mongoLive ==> (r.0.status == 200 <==> MemKey(id).Some? && MemKey(id).value in b.mem.users)
    ensures !b.mongoLive && r.0.status == 200 ==> r.1.mem == Mem.DeleteUser(b.mem, MemKey(id).value).0
  {
    if b.mongoLive then
      if !Mongo.IsObjectId(id) then (Say(400, "Invalid user ID format"), b)
      else
        match Mongo.First(b.db.users, Mongo.UserWithId(id))
        case None => (Say(404, "User not found in MongoDB"), b)
        case Some(u) =>
          if u.isAdmin && Mongo.Count(b.db.users, Mongo.AdminUser) <= 1 then
            (Say(400, "Cannot delete the last admin user"), b)
          else
            var users := Mongo.Remove(b.db.users, Mongo.UserWithId(id));
            Mongo.RemoveKeepsUnique(b.db.users, Mongo.UserWithId(id), Mongo.UserId);
            Mongo.RemoveKeepsUnique(b.db.users, Mongo.UserWithId(id), Mongo.UserName);
            Mongo.RemoveKeepsUnique(b.db.users, Mongo.UserWithId(id), Mongo.UserEmail);
            (Say(200, "User deleted successfully"), b.(db := b.db.(users := users)))
    else
      var key := MemKey(id);
      if key.None? then (Say(404, "User not found"), b)
      else
        var (t, existed) := Mem.DeleteUser(b.mem, key.value);
        if !existed then (Say(404, "User not found"), b)
        else (Say(200, "User deleted successfully"), b.(mem := t))
  }

  /** The guard of the Mongo branch means what it says: while MongoDB is
      live, a deletion never leaves the users without an admin when there
      was one. */
  lemma MongoDeleteKeepsAnAdmin(b: Backends, id: string)
    requires Valid(b) && b.mongoLive
    requires exists u :: u in b.db.users && u.isAdmin
    ensures exists u :: u in DeleteUser(b, id).1.db.users && u.isAdmin
  {
    var r := DeleteUser(b, id);
    if r.0.status == 200 {
      var victim := Mongo.First(b.db.users, Mongo.UserWithId(id)).value;
      var w :| w in b.db.users && w.isAdmin;
      Mongo.UniqueMembers(b.db.users, Mongo.UserId);
      if victim.isAdmin {
        var admins := Mongo.Select(b.db.users, Mongo.AdminUser);
        Mongo.SelectKeepsUnique(b.db.users, Mongo.AdminUser, Mongo.UserId);
        assert |admins| > 1;
        assert admins[0].id != admins[1].id;
        var other := if admins[0].id != id then admins[0] else admins[1];
        assert other in admins && other.isAdmin && other.id != id;
        assert other in r.1.db.users;
      } else {
        assert w != victim;
        assert w.id != id;
        assert w in r.1.db.users;
      }
    }
  }

  /** The memory branch has no such guard: the only admin is deleted. */
  lemma MemoryDeletesLastAdmin(b: Backends, id: nat)
    requires Valid(b) && !b.mongoLive && id in b.mem.users
    requires NormalizeBoolean(b.mem.users[id].isAdmin)
    requires forall k :: k in b.mem.users && k != id ==> !NormalizeBoolean(b.mem.users[k].isAdmin)
    ensures DeleteUser(b, MemIdText(id)).0 == Say(200, "User deleted successfully")
    ensures forall k :: k in DeleteUser(b, MemIdText(id)).1.mem.users ==>
      !NormalizeBoolean(DeleteUser(b, MemIdText(id)).1.mem.users[k].isAdmin)
  {
    MemKeyRoundTrip(id);
  }

  // ---------------------------------------------------------------------
  // The password in the memory branch's user responses
  // ---------------------------------------------------------------------

  /** With MongoDB down, listing the users sends every stored password. */
  lemma MemoryListingSendsPasswords(b: Backends, k: int)
    requires Valid(b) && !b.mongoLive && k in b.mem.users
    ensures exists v :: v in ListUsers(b).body.users && v.password == Some(b.mem.users[k].password)
  {
    Mem.UserValuesStored(b.mem);
    var users := Mem.GetAllUsers(b.mem);
    assert b.mem.users[k] in users;
    var i :| 0 <= i < |users| && users[i] == b.mem.users[k];
    assert ListUsers(b).body.users[i] == MemUserView(users[i]);
  }

  /** With MongoDB down, changing a user's flag echoes its password. */
  lemma MemoryFlagChangeSendsPassword(b: Backends, id: nat, rawFlag: JsValue)
    requires Valid(b) && !b.mongoLive && id in b.mem.users
    ensures SetUserAdmin(b, MemIdText(id), rawFlag).0.body.OneUser? &&
            SetUserAdmin(b, MemIdText(id), rawFlag).0.body.user.password == Some(b.mem.users[id].password)
  {
    MemKeyRoundTrip(id);
  }

  /** The user listing as evidently intended: the Mongo branch's view on
      both branches, with no password. */
  function ListUsersIntended(b: Backends): (r: Response)
    requires Valid(b)
    ensures PasswordFree(r) && r.status == 200
    ensures r == StripPasswords(ListUsers(b))
  {
    StripPasswords(ListUsers(b))
  }

  /** The flag change as evidently intended: same effect, no password. */
  function SetUserAdminIntended(b: Backends, id: string, rawFlag: JsValue): (r: (Response, Backends))
    requires Valid(b)
    ensures PasswordFree(r.0)
    ensures r.1 == SetUserAdmin(b, id, rawFlag).1 && r.0.status == SetUserAdmin(b, id, rawFlag).0.status
  {
    var (resp, after) := SetUserAdmin(b, id, rawFlag);
    (StripPasswords(resp), after)
  }

  /** The intended responses differ from the written ones only in the
      password, and on the Mongo branch not at all. */
  lemma IntendedUserResponsesDropOnlyPasswords(b: Backends, id: string, rawFlag: JsValue)
    requires Valid(b)
    ensures b.mongoLive ==> ListUsersIntended(b) == ListUsers(b)
    ensures b.mongoLive ==> SetUserAdminIntended(b, id, rawFlag) == SetUserAdmin(b, id, rawFlag)
    ensures var w := ListUsers(b).body.users; var v := ListUsersIntended(b).body.users;
      |v| == |w| && forall i :: 0 <= i < |w| ==> v[i].(password := w[i].password) == w[i]
  {
    var w := ListUsers(b).body.users;
    if b.mongoLive {
      assert ListUsersIntended(b).body.users == w;
    }
  }

  // ---------------------------------------------------------------------
  // Animes
  // ---------------------------------------------------------------------

  /** POST /animes. MongoDB stores falsy optional fields as null, like the
      memory store; a document the Anime schema rejects is a server
      error. */
  function CreateAnime(b: Backends, body: Option<Mem.NewAnime>, newId: string): (r: (Response, Backends))
    requires Valid(b) && Mongo.FreshIn(b.db.animes, newId, Mongo.AnimeId)
    ensures Valid(r.1) && OnlyLive(b, r.1)
    ensures r.0.status != 201 ==> r.1 == b
    ensures r.0.status in {201, 400, 500}
    ensures r.0.status == 400 <==> body.None?
    ensures b.mongoLive && r.0.status == 201 ==>
      r.0.body == Document(newId) && r.1.db.animes == b.db.animes + [MongoAnimeRecord(newId, body.value)]
    ensures !b.mongoLive ==> (r.0.status == 201 <==> body.Some?)
    ensures !b.mongoLive && body.Some? ==>
      var (t, a) := Mem.CreateAnime(b.mem, body.value);
      r.1.mem == t && r.0.body == Document(MemIdText(a.id))
  {
    if body.None? then (Say(400, "Invalid anime data"), b)
    else if b.mongoLive then
      var doc := MongoAnimeRecord(newId, body.value);
      if !Mongo.AnimeDocOk(doc) then (Say(500, "Error creating anime"), b)
      else
        Mongo.AppendKeepsUnique(b.db.animes, doc, Mongo.AnimeId);
        (Response(201, Document(newId)), b.(db := b.db.(animes := b.db.animes + [doc])))
    else
      var (t, a) := Mem.CreateAnime(b.mem, body.value);
      (Response(201, Document(MemIdText(a.id))), b.(mem := t))
  }

  /** The document `Anime.create` receives: `x || null` for the four
      optional fields. */
  function MongoAnimeRecord(id: string, a: Mem.NewAnime): (r: Mongo.MAnime)
    ensures r.bannerImage == Mem.OrNull(a.bannerImage) && r.episodes == Mem.OrNullNum(a.episodes)
    ensures r.rating == Mem.OrNull(a.rating) && r.studio == Mem.OrNull(a.studio)
  {
    Mongo.MAnime(id, a.title, a.description, a.coverImage, Mem.OrNull(a.bannerImage), a.releaseYear,
                 a.status, a.animeType, Mem.OrNullNum(a.episodes), Mem.OrNull(a.rating), Mem.OrNull(a.studio))
  }

  /** Both back-ends store the same optional fields for the same body: a
      created anime looks alike whichever store took it. */
  lemma CreatedAnimeAgrees(b: Backends, body: Mem.NewAnime, newId: string)
    requires Valid(b)
    ensures var m := MongoAnimeRecord(newId, body);
            var a := Mem.CreateAnime(b.mem, body).1;
            m.bannerImage == a.bannerImage && m.episodes == a.episodes &&
            m.rating == a.rating && m.studio == a.studio && m.title == a.title
  {
  }

  /** A string the `$set` of PATCH /animes/:id includes: a truthy one. */
  function Truthy(s: Option<string>, existing: string): (r: string)
    ensures r == existing || (s.Some? && r == s.value)
    ensures s.Some? && s.value != "" ==> r == s.value
  {
    if s.Some? && s.value != "" then s.value else existing
  }

  /** A nullable field the `$set` includes whenever it is not undefined,
      stored as given. */
  function Provided<T>(f: Mem.Field<T>, existing: Option<T>): (r: Option<T>)
    ensures f.Absent? ==> r == existing
    ensures f.Null? ==> r.None?
    ensures f.Given? ==> r == Some(f.value)
  {
    match f
    case Absent => existing
    case Null => None
    case Given(v) => Some(v)
  }

  /** The anime after PATCH /animes/:id's `$set` on MongoDB. */
  function MongoAnimePatch(a: Mongo.MAnime, p: Mem.AnimePatch): (r: Mongo.MAnime)
    ensures r.id == a.id
    ensures r.title == (if p.title.Some? && p.title.value != "" then p.title.value else a.title)
    ensures r.releaseYear == (if p.releaseYear.Some? && p.releaseYear.value != 0 then p.releaseYear.value else a.releaseYear)
    ensures p.bannerImage.Absent? ==> r.bannerImage == a.bannerImage
    ensures p.bannerImage.Given? ==> r.bannerImage == Some(p.bannerImage.value)
    ensures p.episodes.Given? ==> r.episodes == Some(p.episodes.value)
    ensures p.rating.Null? ==> r.rating.None?
  {
    a.(title := Truthy(p.title, a.title),
       description := Truthy(p.description, a.description),
       coverImage := Truthy(p.coverImage, a.coverImage),
       bannerImage := Provided(p.bannerImage, a.bannerImage),
       releaseYear := if p.releaseYear.Some? && p.releaseYear.value != 0 then p.releaseYear.value else a.releaseYear,
       status := Truthy(p.status, a.status),
       animeType := Truthy(p.animeType, a.animeType),
       episodes := Provided(p.episodes, a.episodes),
       rating := Provided(p.rating, a.rating),
       studio := Provided(p.studio, a.studio))
  }

  /** The update validators of the `$set`: the status and type, when set,
      are among the enumerated values. */
  predicate AnimePatchOk(p: Mem.AnimePatch)
  {
    (p.status.Some? && p.status.value != "" ==> p.status.value in Mongo.AnimeStatuses)
    && (p.animeType.Some? && p.animeType.value != "" ==> p.animeType.value in Mongo.AnimeTypes)
  }

  /** PATCH /animes/:id. On MongoDB an id that is not an ObjectId fails the
      cast in `findById`, a server error. */
  function PatchAnime(b: Backends, id: string, p: Mem.AnimePatch): (r: (Response, Backends))
    requires Valid(b)
    ensures Valid(r.1) && OnlyLive(b, r.1)
    ensures r.0.status != 200 ==> r.1 == b
    ensures r.0.status in {200, 404, 500}
    ensures b.mongoLive ==> (r.0.status == 500 <==>
      !Mongo.IsObjectId(id) || (!AnimePatchOk(p) && Mongo.First(b.db.animes, Mongo.AnimeWithId(id)).Some?))
    ensures b.mongoLive ==> (r.0.status == 200 <==>
      Mongo.IsObjectId(id) && AnimePatchOk(p) && Mongo.First(b.db.animes, Mongo.AnimeWithId(id)).Some?)
    ensures b.mongoLive && r.0.status == 200 ==>
      var a := Mongo.First(b.db.animes, Mongo.AnimeWithId(id)).value;
      r.0.body == Document(id) && r.1.db.animes == Mongo.Replace(b.db.animes, a, MongoAnimePatch(a, p))
    ensures !b.mongoLive ==> (r.0.status == 200 <==> MemKey(id).Some? && MemKey(id).value in b.mem.animes)
    ensures !b.mongoLive && r.0.status == 200 ==> r.1.mem == Mem.UpdateAnime(b.mem, MemKey(id).value, p).0
  {
    if b.mongoLive then
      if !Mongo.IsObjectId(id) then (Say(500, "Error updating anime"), b)
      else
        match Mongo.First(b.db.animes, Mongo.AnimeWithId(id))
        case None => (Say(404, "Anime not found"), b)
        case Some(a) =>
          if !AnimePatchOk(p) then (Say(500, "Error updating anime"), b)
          else
            var updated := MongoAnimePatch(a, p);
            Mongo.ReplaceKeepsUnique(b.db.animes, a, updated, Mongo.AnimeId);
            (Response(200, Document(id)), b.(db := b.db.(animes := Mongo.Replace(b.db.animes, a, updated))))
    else
      var key := MemKey(id);
      if key.None? then (Say(404, "Anime not found"), b)
      else
        var (t, a) := Mem.UpdateAnime(b.mem, key.value, p);
        if a.None? then (Say(404, "Anime not found"), b)
        else (Response(200, Document(MemIdText(key.value))), b.(mem := t))
  }

  /** The two branches read the same body differently: an empty title is
      stored by the memory branch and skipped by MongoDB's `$set`, and an
      empty banner becomes null in memory but is stored as "" in
      MongoDB. */
  lemma PatchBranchesDiverge(a: Mongo.MAnime, m: Mem.Anime, p: Mem.AnimePatch)
    requires p.title == Some("") && p.bannerImage == Mem.Given("")
    ensures MongoAnimePatch(a, p).title == a.title
    ensures Mem.ApplyAnimePatch(m, p).title == ""
    ensures MongoAnimePatch(a, p).bannerImage == Some("")
    ensures Mem.ApplyAnimePatch(m, p).bannerImage == None
  {
  }

  /** The stages of DELETE /animes/:id on MongoDB, which are separate
      writes: the anime goes, then its episodes, then its genre links. */
  function MongoAnimeDeletion(db: Mongo.Db, id: string): (r: seq<Mongo.Db>)
    ensures |r| == 3
    ensures r[0] == db.(animes := Mongo.Remove(db.animes, Mongo.AnimeWithId(id)))
    ensures r[1] == r[0].(episodes := Mongo.Remove(db.episodes, Mongo.EpisodeOfAnime(id)))
    ensures r[2] == r[1].(links := Mongo.Remove(db.links, Mongo.LinkOfAnime(id)))
  {
    var afterAnime := db.(animes := Mongo.Remove(db.animes, Mongo.AnimeWithId(id)));
    var afterEpisodes := afterAnime.(episodes := Mongo.Remove(db.episodes, Mongo.EpisodeOfAnime(id)));
    [afterAnime, afterEpisodes, afterEpisodes.(links := Mongo.Remove(db.links, Mongo.LinkOfAnime(id)))]
  }

  lemma MongoAnimeDeletionKeepsValid(db: Mongo.Db, id: string)
    requires Mongo.Valid(db)
    ensures forall i :: 0 <= i < 3 ==> Mongo.Valid(MongoAnimeDeletion(db, id)[i])
  {
    Mongo.RemoveKeepsUnique(db.animes, Mongo.AnimeWithId(id), Mongo.AnimeId);
    Mongo.RemoveKeepsUnique(db.episodes, Mongo.EpisodeOfAnime(id), Mongo.EpisodeId);
    Mongo.RemoveKeepsUnique(db.episodes, Mongo.EpisodeOfAnime(id), Mongo.EpisodeSlot);
    Mongo.RemoveKeepsUnique(db.links, Mongo.LinkOfAnime(id), Mongo.LinkId);
    Mongo.RemoveKeepsUnique(db.links, Mongo.LinkOfAnime(id), Mongo.LinkPair);
  }

  /** DELETE /animes/:id. The memory store's cascade runs even for a
      missing anime, so a 404 there can still remove orphaned links and
      episodes. */
  function DeleteAnime(b: Backends, id: string): (r: (Response, Backends))
    requires Valid(b)
    ensures Valid(r.1) && OnlyLive(b, r.1)
    ensures r.0.status in {200, 404, 500}
    ensures b.mongoLive ==> (r.0.status != 200 ==> r.1 == b)
    ensures b.mongoLive ==> (r.0.status == 500 <==> !Mongo.IsObjectId(id))
    ensures b.mongoLive && r.0.status == 200 ==> r.1.db == MongoAnimeDeletion(b.db, id)[2]
    ensures b.mongoLive ==> (r.0.status == 200 <==>
      Mongo.IsObjectId(id) && Mongo.First(b.db.animes, Mongo.AnimeWithId(id)).Some?)
    ensures !b.mongoLive ==> (r.0.status == 200 <==> MemKey(id).Some? && MemKey(id).value in b.mem.animes)
    ensures !b.mongoLive && MemKey(id).Some? ==> r.1.mem == Mem.DeleteAnime(b.mem, MemKey(id).value).0
    ensures !b.mongoLive && MemKey(id).None? ==> r.1 == b
  {
    if b.mongoLive then
      if !Mongo.IsObjectId(id) then (Say(500, "Error deleting anime"), b)
      else if Mongo.First(b.db.animes, Mongo.AnimeWithId(id)).None? then (Say(404, "Anime not found"), b)
      else
        MongoAnimeDeletionKeepsValid(b.db, id);
        (Say(200, "Anime and related data deleted successfully"), b.(db := MongoAnimeDeletion(b.db, id)[2]))
    else
      var key := MemKey(id);
      if key.None? then (Say(404, "Anime not found"), b)
      else
        var (t, existed) := Mem.DeleteAnime(b.mem, key.value);
        if !existed then (Say(404, "Anime not found"), b.(mem := t))
        else (Say(200, "Anime deleted successfully"), b.(mem := t))
  }

  /** After a successful delete on MongoDB nothing refers to the anime; in
      between, the first stage has removed the anime while its episodes and
      links are still stored. */
  lemma MongoAnimeDeletionStages(db: Mongo.Db, id: string)
    ensures var s := MongoAnimeDeletion(db, id);
      && (forall a :: a in s[2].animes ==> a.id != id)
      && (forall e :: e in s[2].episodes ==> e.animeId != id)
      && (forall l :: l in s[2].links ==> l.animeId != id)
      && s[0].episodes == db.episodes && s[0].links == db.links
      && s[1].links == db.links
      && s[2].users == db.users && s[2].genres == db.genres && s[2].favorites == db.favorites
  {
  }

  /** In memory, deleting an anime id that is gone answers 404 yet still
      removes every link and episode that referred to it. */
  lemma MemoryDeleteOf404CleansUp(b: Backends, id: nat)
    requires Valid(b) && !b.mongoLive && id !in b.mem.animes
    ensures DeleteAnime(b, MemIdText(id)).0 == Say(404, "Anime not found")
    ensures forall k :: k in DeleteAnime(b, MemIdText(id)).1.mem.links ==>
      DeleteAnime(b, MemIdText(id)).1.mem.links[k].animeId != id
    ensures forall k :: k in DeleteAnime(b, MemIdText(id)).1.mem.episodes ==>
      DeleteAnime(b, MemIdText(id)).1.mem.episodes[k].animeId != id
  {
    MemKeyRoundTrip(id);
  }

  // ---------------------------------------------------------------------
  // Genres
  // ---------------------------------------------------------------------

  /** POST /genres. MongoDB refuses an exact duplicate name; the memory
      branch refuses a name equal up to letter case. */
  function CreateGenre(b: Backends, name: Option<string>, newId: string): (r: (Response, Backends))
    requires Valid(b) && Mongo.FreshIn(b.db.genres, newId, Mongo.GenreId)
    ensures Valid(r.1) && OnlyLive(b, r.1)
    ensures r.0.status != 201 ==> r.1 == b
    ensures r.0.status in {201, 400, 409, 500}
    ensures r.0.status == 400 <==> name.None?
    ensures b.mongoLive && name.Some? ==> (r.0.status == 409 <==>
      exists g :: g in b.db.genres && g.name == name.value)
    ensures !b.mongoLive && name.Some? ==> (r.0.status == 409 <==>
      exists k :: k in b.mem.genres && ToLower(b.mem.genres[k].name) == ToLower(name.value))
    ensures b.mongoLive && r.0.status == 201 ==>
      r.0.body == Document(newId) && r.1.db.genres == b.db.genres + [Mongo.MGenre(newId, name.value)]
    ensures !b.mongoLive && r.0.status == 201 ==> r.1.mem == Mem.CreateGenre(b.mem, name.value).0
  {
    if name.None? then (Say(400, "Invalid genre data"), b)
    else if b.mongoLive then
      if Mongo.First(b.db.genres, Mongo.GenreNamed(name.value)).Some? then
        (Say(409, "Genre with this name already exists"), b)
      else if name.value == "" then (Say(500, "Error creating genre"), b)
      else
        var doc := Mongo.MGenre(newId, name.value);
        Mongo.AppendKeepsUnique(b.db.genres, doc, Mongo.GenreId);
        Mongo.AppendKeepsUnique(b.db.genres, doc, Mongo.GenreName);
        (Response(201, Document(newId)), b.(db := b.db.(genres := b.db.genres + [doc])))
    else if Mem.FindGenreByName(b.mem, name.value).Some? then
      (Say(409, "Genre with this name already exists"), b)
    else
      var (t, g) := Mem.CreateGenre(b.mem, name.value);
      (Response(201, Document(MemIdText(g.id))), b.(mem := t))
  }

  /** The back-ends disagree on letter case: with "Action" stored, MongoDB
      accepts a new genre "action" while the memory store refuses it. */
  lemma GenreNameCaseDiverges(b: Backends, newId: string)
    requires Valid(b) && Mongo.FreshIn(b.db.genres, newId, Mongo.GenreId)
    requires forall g :: g in b.db.genres ==> g.name != "action"
    requires exists k :: k in b.mem.genres && b.mem.genres[k].name == "Action"
    ensures b.mongoLive ==> CreateGenre(b, Some("action"), newId).0.status == 201
    ensures !b.mongoLive ==> CreateGenre(b, Some("action"), newId).0.status == 409
  {
    assert ToLower("Action") == ToLower("action") by {
      assert ToLower("Action") == "action";
    }
  }

  /** PATCH /genres/:id. A truthy new name conflicts only with a genre that
      has another id; in memory the name comparison ignores case, and a
      NaN id conflicts with any holder. */
  function PatchGenre(b: Backends, id: string, name: Option<string>): (r: (Response, Backends))
    requires Valid(b)
    ensures Valid(r.1) && OnlyLive(b, r.1)
    ensures r.0.status != 200 ==> r.1 == b
    ensures r.0.status in {200, 400, 404, 409, 500}
    ensures b.mongoLive ==> (r.0.status == 400 <==> !Mongo.IsObjectId(id))
    ensures b.mongoLive && Mongo.IsObjectId(id) ==> (r.0.status == 409 <==>
      name.Some? && name.value != "" && exists g :: g in b.db.genres && g.name == name.value && g.id != id)
    ensures b.mongoLive && Mongo.IsObjectId(id) ==> (r.0.status == 500 <==> name == Some(""))
    ensures b.mongoLive && Mongo.IsObjectId(id) && r.0.status == 404 ==>
      name != Some("") && forall g :: g in b.db.genres ==> g.id != id
    ensures !b.mongoLive && MemKey(id).Some? ==> (r.0.status == 409 <==>
      name.Some? && name.value != "" && Mem.FindGenreByName(b.mem, name.value).Some? &&
      Mem.FindGenreByName(b.mem, name.value).value.id != MemKey(id).value)
    ensures !b.mongoLive ==> (r.0.status == 200 ==> MemKey(id).Some? && MemKey(id).value in b.mem.genres)
    ensures !b.mongoLive && r.0.status == 200 ==> r.1.mem == Mem.UpdateGenre(b.mem, MemKey(id).value, name).0
  {
    if b.mongoLive then
      if !Mongo.IsObjectId(id) then (Say(400, "Invalid genre ID format"), b)
      else if name.Some? && name.value != "" &&
              Mongo.First(b.db.genres, RenameConflict(name.value, id)).Some? then
        (Say(409, "Genre with this name already exists"), b)
      // Update validators run before the query, so an empty name fails
      // whether or not the genre exists.
      else if name == Some("") then (Say(500, "Error updating genre"), b)
      else
        match Mongo.First(b.db.genres, Mongo.GenreWithId(id))
        case None => (Say(404, "Genre not found in MongoDB"), b)
        case Some(g) =>
          var updated := g.(name := if name.Some? then name.value else g.name);
          Mongo.ReplaceKeepsUnique(b.db.genres, g, updated, Mongo.GenreId);
          Mongo.ReplaceKeepsUnique(b.db.genres, g, updated, Mongo.GenreName);
          (Response(200, Document(id)), b.(db := b.db.(genres := Mongo.Replace(b.db.genres, g, updated))))
    else
      var key := MemKey(id);
      var holder := if name.Some? && name.value != "" then Mem.FindGenreByName(b.mem, name.value) else None;
      if holder.Some? && (key.None? || holder.value.id != key.value) then
        (Say(409, "Genre with this name already exists"), b)
      else if key.None? then (Say(404, "Genre not found"), b)
      else
        var (t, g) := Mem.UpdateGenre(b.mem, key.value, name);
        if g.None? then (Say(404, "Genre not found"), b)
        else (Response(200, Document(MemIdText(key.value))), b.(mem := t))
  }

  /** `{ name, _id: { $ne: id } }`. */
  function RenameConflict(name: string, id: string): (r: Mongo.MGenre -> bool)
    ensures forall g :: r(g) <==> g.name == name && g.id != id
  {
    (g: Mongo.MGenre) => g.name == name && g.id != id
  }

  /** Renaming a genre to its own name in another letter case is not a
      conflict in memory: the only holder of the name is the genre itself. */
  lemma MemoryRenameToOwnName(b: Backends, id: nat, name: string)
    requires Valid(b) && !b.mongoLive && id in b.mem.genres && name != ""
    requires ToLower(b.mem.genres[id].name) == ToLower(name)
    requires forall k :: k in b.mem.genres && k != id ==> ToLower(b.mem.genres[k].name) != ToLower(name)
    ensures PatchGenre(b, MemIdText(id), Some(name)).0.status == 200
    ensures PatchGenre(b, MemIdText(id), Some(name)).1.mem.genres[id] == Mem.Genre(id, name)
  {
    MemKeyRoundTrip(id);
  }

  /** DELETE /genres/:id. MongoDB removes the genre's links before the
      genre; memory does the same, and its cascade runs even when the genre
      is missing. */
  function DeleteGenre(b: Backends, id: string): (r: (Response, Backends))
    requires Valid(b)
    ensures Valid(r.1) && OnlyLive(b, r.1)
    ensures r.0.status in {200, 400, 404}
    ensures b.mongoLive ==> (r.0.status != 200 ==> r.1 == b)
    ensures b.mongoLive ==> (r.0.status == 400 <==> !Mongo.IsObjectId(id))
    ensures b.mongoLive && r.0.status == 200 ==>
      r.1.db == b.db.(links := Mongo.Remove(b.db.links, Mongo.LinkOfGenre(id)),
                      genres := Mongo.Remove(b.db.genres, Mongo.GenreWithId(id)))
    ensures !b.mongoLive ==> (r.0.status == 200 <==> MemKey(id).Some? && MemKey(id).value in b.mem.genres)
    ensures !b.mongoLive && MemKey(id).Some? ==> r.1.mem == Mem.DeleteGenre(b.mem, MemKey(id).value).0
    ensures r.1.db.animes == b.db.animes && r.1.mem.animes == b.mem.animes
  {
    if b.mongoLive then
      if !Mongo.IsObjectId(id) then (Say(400, "Invalid genre ID format"), b)
      else if Mongo.First(b.db.genres, Mongo.GenreWithId(id)).None? then (Say(404, "Genre not found in MongoDB"), b)
      else
        Mongo.RemoveKeepsUnique(b.db.links, Mongo.LinkOfGenre(id), Mongo.LinkId);
        Mongo.RemoveKeepsUnique(b.db.links, Mongo.LinkOfGenre(id), Mongo.LinkPair);
        Mongo.RemoveKeepsUnique(b.db.genres, Mongo.GenreWithId(id), Mongo.GenreId);
        Mongo.RemoveKeepsUnique(b.db.genres, Mongo.GenreWithId(id), Mongo.GenreName);
        (Say(200, "Genre deleted successfully"),
         b.(db := b.db.(links := Mongo.Remove(b.db.links, Mongo.LinkOfGenre(id)),
                        genres := Mongo.Remove(b.db.genres, Mongo.GenreWithId(id)))))
    else
      var key := MemKey(id);
      if key.None? then (Say(404, "Genre not found"), b)
      else
        var (t, existed) := Mem.DeleteGenre(b.mem, key.value);
        if !existed then (Say(404, "Genre not found"), b.(mem := t))
        else (Say(200, "Genre deleted successfully"), b.(mem := t))
  }

  // ---------------------------------------------------------------------
  // Anime-genre links
  // ---------------------------------------------------------------------

  /** POST /animes/:animeId/genres/:genreId. MongoDB refuses a pair that is
      already linked; the memory branch checks only that both exist. */
  function AddLink(b: Backends, animeId: string, genreId: string, newId: string): (r: (Response, Backends))
    requires Valid(b) && Mongo.FreshIn(b.db.links, newId, Mongo.LinkId)
    ensures Valid(r.1) && OnlyLive(b, r.1)
    ensures r.0.status != 201 ==> r.1 == b
    ensures r.0.status in {201, 400, 404, 409}
    ensures b.mongoLive ==> (r.0.status == 400 <==> !Mongo.IsObjectId(animeId) || !Mongo.IsObjectId(genreId))
    ensures b.mongoLive ==> (r.0.status == 201 <==>
      Mongo.IsObjectId(animeId) && Mongo.IsObjectId(genreId) &&
      Mongo.First(b.db.animes, Mongo.AnimeWithId(animeId)).Some? &&
      Mongo.First(b.db.genres, Mongo.GenreWithId(genreId)).Some? &&
      forall l :: l in b.db.links ==> !(l.animeId == animeId && l.genreId == genreId))
    ensures b.mongoLive && r.0.status == 201 ==>
      r.1.db.links == b.db.links + [Mongo.MLink(newId, animeId, genreId)]
    ensures !b.mongoLive ==> (r.0.status == 201 <==>
      MemKey(animeId).Some? && MemKey(genreId).Some? &&
      MemKey(animeId).value in b.mem.animes && MemKey(genreId).value in b.mem.genres)
    ensures !b.mongoLive && r.0.status == 201 ==>
      r.1.mem == Mem.AddGenreToAnime(b.mem, MemKey(animeId).value, MemKey(genreId).value).0
  {
    if b.mongoLive then
      if !Mongo.IsObjectId(animeId) then (Say(400, "Invalid anime ID format"), b)
      else if !Mongo.IsObjectId(genreId) then (Say(400, "Invalid genre ID format"), b)
      else if Mongo.First(b.db.animes, Mongo.AnimeWithId(animeId)).None? then (Say(404, "Anime not found in MongoDB"), b)
      else if Mongo.First(b.db.genres, Mongo.GenreWithId(genreId)).None? then (Say(404, "Genre not found in MongoDB"), b)
      else if Mongo.First(b.db.links, Mongo.LinkOfPair(animeId, genreId)).Some? then
        (Say(409, "This genre is already added to the anime"), b)
      else
        var link := Mongo.MLink(newId, animeId, genreId);
        Mongo.AppendKeepsUnique(b.db.links, link, Mongo.LinkId);
        Mongo.AppendKeepsUnique(b.db.links, link, Mongo.LinkPair);
        (Response(201, Document(newId)), b.(db := b.db.(links := b.db.links + [link])))
    else
      var a := MemKey(animeId);
      var g := MemKey(genreId);
      if a.None? || a.value !in b.mem.animes then (Say(404, "Anime not found"), b)
      else if g.None? || g.value !in b.mem.genres then (Say(404, "Genre not found"), b)
      else
        var (t, link) := Mem.AddGenreToAnime(b.mem, a.value, g.value);
        (Response(201, Document(MemIdText(link.id))), b.(mem := t))
  }

  /** Adding the same pair twice: MongoDB answers 409 the second time and
      keeps one link; memory answers 201 both times and stores two. */
  lemma SecondLinkOfAPair(b: Backends, animeId: string, genreId: string, id1: string, id2: string)
    requires Valid(b)
    requires Mongo.FreshIn(b.db.links, id1, Mongo.LinkId)
    requires Mongo.FreshIn(b.db.links, id2, Mongo.LinkId) && id1 != id2
    requires AddLink(b, animeId, genreId, id1).0.status == 201
    ensures var b1 := AddLink(b, animeId, genreId, id1).1;
      Mongo.FreshIn(b1.db.links, id2, Mongo.LinkId) &&
      (b.mongoLive ==> AddLink(b1, animeId, genreId, id2) == (Say(409, "This genre is already added to the anime"), b1)) &&
      (!b.mongoLive ==> (AddLink(b1, animeId, genreId, id2).0.status == 201 &&
         |AddLink(b1, animeId, genreId, id2).1.mem.links| == |b.mem.links| + 2))
  {
    var b1 := AddLink(b, animeId, genreId, id1).1;
    if b.mongoLive {
      assert Mongo.MLink(id1, animeId, genreId) in b1.db.links;
    } else {
      var a := MemKey(animeId).value;
      var g := MemKey(genreId).value;
      assert b.mem.nextLink !in b.mem.links;
      assert b1.mem.nextLink !in b1.mem.links;
      assert b1.mem.animes == b.mem.animes && b1.mem.genres == b.mem.genres;
    }
  }

  /** DELETE /animes/:animeId/genres/:genreId. */
  function RemoveLink(b: Backends, animeId: string, genreId: string): (r: (Response, Backends))
    requires Valid(b)
    ensures Valid(r.1) && OnlyLive(b, r.1)
    ensures r.0.status != 200 ==> r.1 == b
    ensures r.0.status in {200, 400, 404}
    ensures b.mongoLive ==> (r.0.status == 200 <==>
      Mongo.IsObjectId(animeId) && Mongo.IsObjectId(genreId) &&
      exists l :: l in b.db.links && l.animeId == animeId && l.genreId == genreId)
    ensures b.mongoLive && r.0.status == 200 ==>
      r.1.db.links == Mongo.Remove(b.db.links, Mongo.LinkOfPair(animeId, genreId))
    ensures !b.mongoLive ==> (r.0.status == 200 <==>
      MemKey(animeId).Some? && MemKey(genreId).Some? &&
      exists k :: k in b.mem.links && Mem.IsPair(b.mem.links[k], MemKey(animeId).value, MemKey(genreId).value))
    ensures !b.mongoLive && r.0.status == 200 ==>
      r.1.mem == Mem.RemoveGenreFromAnime(b.mem, MemKey(animeId).value, MemKey(genreId).value).0
  {
    if b.mongoLive then
      if !Mongo.IsObjectId(animeId) then (Say(400, "Invalid anime ID format"), b)
      else if !Mongo.IsObjectId(genreId) then (Say(400, "Invalid genre ID format"), b)
      else if Mongo.First(b.db.links, Mongo.LinkOfPair(animeId, genreId)).None? then
        (Say(404, "Anime-Genre relationship not found in MongoDB"), b)
      else
        Mongo.RemoveKeepsUnique(b.db.links, Mongo.LinkOfPair(animeId, genreId), Mongo.LinkId);
        Mongo.RemoveKeepsUnique(b.db.links, Mongo.LinkOfPair(animeId, genreId), Mongo.LinkPair);
        (Say(200, "Genre removed from anime successfully"),
         b.(db := b.db.(links := Mongo.Remove(b.db.links, Mongo.LinkOfPair(animeId, genreId)))))
    else
      var a := MemKey(animeId);
      var g := MemKey(genreId);
      if a.None? || g.None? then (Say(404, "Anime-Genre relationship not found"), b)
      else
        var (t, removed) := Mem.RemoveGenreFromAnime(b.mem, a.value, g.value);
        if !removed then (Say(404, "Anime-Genre relationship not found"), b)
        else (Say(200, "Genre removed from anime successfully"), b.(mem := t))
  }

  // ---------------------------------------------------------------------
  // Episodes
  // ---------------------------------------------------------------------

  /** The `animeId` of an episode body, which the schema lets be a number
      (an in-memory id) or a string (an ObjectId). */
  datatype AnimeRef = ByNumber(n: int) | ByText(s: string)

  /** The body of POST /episodes once the insert schema accepted it; the
      release date is required there. */
  datatype EpisodeBody = EpisodeBody(
    animeId: AnimeRef, title: string, number: int,
    description: Option<string>, thumbnail: Option<string>, videoUrl: string,
    duration: Option<string>, releaseDate: int)

  /** The body of PATCH /episodes/:id, which no schema checks. */
  datatype EpisodeEdit = EpisodeEdit(
    animeId: Option<AnimeRef>, title: Option<string>, number: Option<int>,
    description: Mem.Field<string>, thumbnail: Mem.Field<string>, videoUrl: Option<string>,
    duration: Mem.Field<string>, releaseDate: Option<int>)

  /** Whether a reference is truthy: a non-zero number or a non-empty string. */
  predicate TruthyRef(ref: AnimeRef)
  {
    match ref
    case ByNumber(n) => n != 0
    case ByText(s) => s != ""
  }

  /** The outcome of resolving a new episode's anime on MongoDB. */
  datatype Resolution = Resolved(id: string) | Refused(response: Response)

  /** The anime a new episode names on MongoDB: an ObjectId string names
      itself; a number n names the anime at position n - 1 in natural order,
      clamped to the last one. */
  function ResolveMongoAnime(animes: seq<Mongo.MAnime>, ref: AnimeRef): (r: Resolution)
    ensures r.Refused? ==> r.response.status in {400, 404}
    ensures ref.ByText? ==> (r.Resolved? <==> Mongo.IsObjectId(ref.s))
    ensures ref.ByText? && r.Resolved? ==> r.id == ref.s
    ensures ref.ByNumber? ==> (r.Resolved? <==> animes != [] && ref.n >= 1)
    ensures ref.ByNumber? && r.Resolved? ==> r.id == animes[Min(ref.n - 1, |animes| - 1)].id
  {
    match ref
    case ByText(s) =>
      if Mongo.IsObjectId(s) then Resolved(s) else Refused(Say(400, "Invalid anime ID format"))
    case ByNumber(n) =>
      if animes == [] then Refused(Say(404, "No anime available in MongoDB"))
      else
        var index := Min(n - 1, |animes| - 1);
        if index < 0 then Refused(Say(404, "Anime not found in MongoDB"))
        else Resolved(animes[index].id)
  }

  /** A number names an anime by its position: the n-th anime for n up to
      the number of animes, the last one beyond. */
  lemma NumericRefByPosition(animes: seq<Mongo.MAnime>, n: int)
    requires 1 <= n
    requires animes != []
    ensures n <= |animes| ==> ResolveMongoAnime(animes, ByNumber(n)) == Resolved(animes[n - 1].id)
    ensures n > |animes| ==> ResolveMongoAnime(animes, ByNumber(n)) == Resolved(animes[|animes| - 1].id)
  {
  }

  /** The document `Episode.create` receives. */
  function MongoEpisodeRecord(id: string, animeId: string, e: EpisodeBody): (r: Mongo.MEpisode)
    ensures r.id == id && r.animeId == animeId && r.number == e.number && r.releaseDate == e.releaseDate
    ensures r.description.Some? && r.duration.Some?
    ensures e.description.None? || e.description == Some("") ==> r.description == Some("")
    ensures e.duration.None? || e.duration == Some("") ==> r.duration == Some("00:00")
    ensures r.thumbnail == Mem.OrNull(e.thumbnail)
  {
    Mongo.MEpisode(id, animeId, e.title, e.number,
                   Some(if e.description.Some? then e.description.value else ""),
                   Mem.OrNull(e.thumbnail), e.videoUrl,
                   Some(if e.duration.Some? && e.duration.value != "" then e.duration.value else "00:00"),
                   e.releaseDate)
  }

  /** The in-memory key a new episode's reference names: `parseInt(s, 10)`
      for a string. */
  function MemAnimeRef(ref: AnimeRef): (r: Option<int>)
    ensures ref.ByNumber? ==> r == Some(ref.n)
    ensures ref.ByText? && AllDigits(ref.s) ==> r == Some(DigitsValue(ref.s))
  {
    match ref
    case ByNumber(n) => Some(n)
    case ByText(s) => ParseInt(s, true)
  }

  /** The payload `storage.createEpisode` receives. */
  function MemNewEpisode(animeId: int, e: EpisodeBody): (r: Mem.NewEpisode)
    ensures r.animeId == animeId && r.releaseDate == Some(e.releaseDate)
  {
    Mem.NewEpisode(animeId, e.title, e.number, e.description, e.thumbnail, e.videoUrl,
                   e.duration, Some(e.releaseDate))
  }

  /** POST /episodes. On either store an episode is created only for an
      anime that exists; MongoDB's unique index refuses a second episode
      with the same number for the same anime, the memory store does not
      check. */
  function CreateEpisode(b: Backends, body: Option<EpisodeBody>, newId: string): (r: (Response, Backends))
    requires Valid(b) && Mongo.FreshIn(b.db.episodes, newId, Mongo.EpisodeId)
    ensures Valid(r.1) && OnlyLive(b, r.1)
    ensures r.0.status != 201 ==> r.1 == b
    ensures r.0.status in {201, 400, 404, 500}
    ensures body.None? ==> r.0 == Say(400, "Invalid episode data")
    ensures b.mongoLive && body.Some? ==>
      var res := ResolveMongoAnime(b.db.animes, body.value.animeId);
      (res.Refused? ==> r.0 == res.response) &&
      (r.0.status == 201 <==>
         res.Resolved? && Mongo.First(b.db.animes, Mongo.AnimeWithId(res.id)).Some? &&
         Mongo.EpisodeDocOk(MongoEpisodeRecord(newId, res.id, body.value)) &&
         forall e :: e in b.db.episodes ==> (e.animeId, e.number) != (res.id, body.value.number))
    ensures b.mongoLive && r.0.status == 201 ==>
      var aid := ResolveMongoAnime(b.db.animes, body.value.animeId).id;
      r.0.body == Document(newId) &&
      r.1.db.episodes == b.db.episodes + [MongoEpisodeRecord(newId, aid, body.value)] &&
      exists a :: a in b.db.animes && a.id == aid
    ensures !b.mongoLive && body.Some? ==> (r.0.status == 201 <==>
      MemAnimeRef(body.value.animeId).Some? && MemAnimeRef(body.value.animeId).value in b.mem.animes)
    ensures !b.mongoLive && r.0.status == 201 ==>
      var (t, e) := Mem.CreateEpisode(b.mem, MemNewEpisode(MemAnimeRef(body.value.animeId).value, body.value), body.value.releaseDate);
      r.1.mem == t && r.0.body == Document(MemIdText(e.id)) && e.animeId in b.mem.animes
  {
    if body.None? then (Say(400, "Invalid episode data"), b)
    else if b.mongoLive then
      match ResolveMongoAnime(b.db.animes, body.value.animeId)
      case Refused(response) => (response, b)
      case Resolved(aid) =>
        if Mongo.First(b.db.animes, Mongo.AnimeWithId(aid)).None? then (Say(404, "Anime not found in MongoDB"), b)
        else
          var doc := MongoEpisodeRecord(newId, aid, body.value);
          if !Mongo.EpisodeDocOk(doc) || !Mongo.Admits(b.db.episodes, doc, Mongo.EpisodeSlot) then
            (Say(500, "Error creating episode"), b)
          else
            Mongo.AppendKeepsUnique(b.db.episodes, doc, Mongo.EpisodeId);
            Mongo.AppendKeepsUnique(b.db.episodes, doc, Mongo.EpisodeSlot);
            (Response(201, Document(newId)), b.(db := b.db.(episodes := b.db.episodes + [doc])))
    else
      var key := MemAnimeRef(body.value.animeId);
      if key.None? then (Say(400, "Invalid anime ID format for in-memory storage"), b)
      else if Mem.GetAnime(b.mem, key.value).None? then (Say(404, "Anime not found"), b)
      else
        // The body always carries a release date, so the store's clock is not read.
        var (t, e) := Mem.CreateEpisode(b.mem, MemNewEpisode(key.value, body.value), body.value.releaseDate);
        (Response(201, Document(MemIdText(e.id))), b.(mem := t))
  }

  /** The episode after PATCH /episodes/:id's update on MongoDB: `||` for
      title, number, video URL and anime, `!== undefined` for the nullable
      fields, and a truthy release date replaces the stored one: a
      timestamp of 0 keeps it. */
  function MongoEpisodePatch(e: Mongo.MEpisode, p: EpisodeEdit): (r: Mongo.MEpisode)
    ensures r.id == e.id
    ensures p.releaseDate.Some? && p.releaseDate.value != 0 ==> r.releaseDate == p.releaseDate.value
    ensures p.releaseDate.None? || p.releaseDate == Some(0) ==> r.releaseDate == e.releaseDate
    ensures p.number.Some? && p.number.value != 0 ==> r.number == p.number.value
    ensures p.number.None? || p.number == Some(0) ==> r.number == e.number
    ensures p.description.Null? ==> r.description.None?
    ensures p.description.Given? ==> r.description == Some(p.description.value)
    ensures p.animeId.None? ==> r.animeId == e.animeId
  {
    e.(animeId := if p.animeId.Some? && p.animeId.value.ByText? && p.animeId.value.s != "" then p.animeId.value.s else e.animeId,
       title := Truthy(p.title, e.title),
       number := if p.number.Some? && p.number.value != 0 then p.number.value else e.number,
       description := Provided(p.description, e.description),
       thumbnail := Provided(p.thumbnail, e.thumbnail),
       videoUrl := Truthy(p.videoUrl, e.videoUrl),
       duration := Provided(p.duration, e.duration),
       releaseDate := if p.releaseDate.Some? && p.releaseDate.value != 0 then p.releaseDate.value else e.releaseDate)
  }

  /** The memory branch's check on a changed anime: a truthy reference that
      differs from the stored one must name a stored anime. A string never
      equals the stored number and never names a key, so it is refused. */
  predicate MemAnimeChangeRefused(t: Mem.Tables, e: Mem.Episode, p: EpisodeEdit)
  {
    p.animeId.Some? && TruthyRef(p.animeId.value) &&
    match p.animeId.value
    case ByNumber(n) => n != e.animeId && n !in t.animes
    case ByText(_) => true
  }

  /** The update `storage.updateEpisode` receives: the body itself. */
  function MemEpisodePatch(p: EpisodeEdit): (r: Mem.EpisodePatch)
    ensures r.animeId.Some? <==> p.animeId.Some? && p.animeId.value.ByNumber?
  {
    Mem.EpisodePatch(if p.animeId.Some? && p.animeId.value.ByNumber? then Some(p.animeId.value.n) else None,
                     p.title, p.number, p.description, p.thumbnail, p.videoUrl, p.duration, p.releaseDate)
  }

  /** Whether PATCH and DELETE /episodes/:id go to MongoDB: only when it is
      connected and the id is an ObjectId; any other id goes to the memory
      store, even while MongoDB is connected. */
  predicate EpisodeOnMongo(b: Backends, id: string)
  {
    b.mongoLive && Mongo.IsObjectId(id)
  }

  /** PATCH /episodes/:id. */
  function PatchEpisode(b: Backends, id: string, p: EpisodeEdit): (r: (Response, Backends))
    requires Valid(b)
    ensures Valid(r.1) && r.1.mongoLive == b.mongoLive
    ensures r.0.status != 200 ==> r.1 == b
    ensures r.0.status in {200, 400, 404, 500}
    ensures EpisodeOnMongo(b, id) ==> r.1.mem == b.mem
    ensures !EpisodeOnMongo(b, id) ==> r.1.db == b.db
    ensures EpisodeOnMongo(b, id) ==> (r.0 == Say(404, "Episode not found in MongoDB") <==>
      Mongo.First(b.db.episodes, Mongo.EpisodeWithId(id)).None?)
    ensures EpisodeOnMongo(b, id) && r.0.status == 200 ==>
      var e := Mongo.First(b.db.episodes, Mongo.EpisodeWithId(id)).value;
      r.0.body == Document(id) &&
      r.1.db.episodes == Mongo.Replace(b.db.episodes, e, MongoEpisodePatch(e, p)) &&
      (MongoEpisodePatch(e, p).animeId == e.animeId ||
       exists a :: a in b.db.animes && a.id == MongoEpisodePatch(e, p).animeId)
    ensures !EpisodeOnMongo(b, id) ==> (r.0.status == 400 <==> MemKey(id).None?)
    ensures !EpisodeOnMongo(b, id) ==> (r.0.status == 200 <==>
      MemKey(id).Some? && MemKey(id).value in b.mem.episodes &&
      !MemAnimeChangeRefused(b.mem, b.mem.episodes[MemKey(id).value], p))
    ensures !EpisodeOnMongo(b, id) && r.0.status == 200 ==>
      r.1.mem == Mem.UpdateEpisode(b.mem, MemKey(id).value, MemEpisodePatch(p)).0
  {
    if EpisodeOnMongo(b, id) then
      match Mongo.First(b.db.episodes, Mongo.EpisodeWithId(id))
      case None => (Say(404, "Episode not found in MongoDB"), b)
      case Some(e) =>
        if p.animeId.Some? && TruthyRef(p.animeId.value) && p.animeId.value != ByText(e.animeId) then
          match p.animeId.value
          // casting a number to an ObjectId throws
          case ByNumber(_) => (Say(500, "Error updating episode"), b)
          case ByText(s) =>
            if !Mongo.IsObjectId(s) then (Say(500, "Error updating episode"), b)
            else if Mongo.First(b.db.animes, Mongo.AnimeWithId(s)).None? then
              (Say(404, "New anime not found in MongoDB"), b)
            else MongoEpisodeUpdate(b, e, p)
        else MongoEpisodeUpdate(b, e, p)
    else
      var key := MemKey(id);
      if key.None? then (Say(400, "Invalid episode ID"), b)
      else if Mem.GetEpisode(b.mem, key.value).None? then (Say(404, "Episode not found"), b)
      else if MemAnimeChangeRefused(b.mem, b.mem.episodes[key.value], p) then (Say(404, "New anime not found"), b)
      else
        var (t, _) := Mem.UpdateEpisode(b.mem, key.value, MemEpisodePatch(p));
        (Response(200, Document(MemIdText(key.value))), b.(mem := t))
  }

  /** `findByIdAndUpdate` of a found episode: no schema validators run, but
      the unique (anime, number) index refuses a clash with another
      episode. */
  function MongoEpisodeUpdate(b: Backends, e: Mongo.MEpisode, p: EpisodeEdit): (r: (Response, Backends))
    requires Valid(b) && b.mongoLive && e in b.db.episodes
    ensures Valid(r.1) && r.1.mem == b.mem && r.1.mongoLive
    ensures r.0.status != 200 ==> r.1 == b
    ensures r.0.status in {200, 500}
    ensures r.0.status == 200 <==>
      forall y :: y in b.db.episodes && y != e ==> Mongo.EpisodeSlot(y) != Mongo.EpisodeSlot(MongoEpisodePatch(e, p))
    ensures r.0.status == 200 ==>
      r.0.body == Document(e.id) &&
      r.1.db == b.db.(episodes := Mongo.Replace(b.db.episodes, e, MongoEpisodePatch(e, p)))
  {
    var updated := MongoEpisodePatch(e, p);
    if exists y :: y in b.db.episodes && y != e && Mongo.EpisodeSlot(y) == Mongo.EpisodeSlot(updated) then
      (Say(500, "Error updating episode"), b)
    else
      Mongo.UniqueMembers(b.db.episodes, Mongo.EpisodeId);
      Mongo.ReplaceKeepsUnique(b.db.episodes, e, updated, Mongo.EpisodeId);
      Mongo.ReplaceKeepsUnique(b.db.episodes, e, updated, Mongo.EpisodeSlot);
      (Response(200, Document(e.id)), b.(db := b.db.(episodes := Mongo.Replace(b.db.episodes, e, updated))))
  }

  /** DELETE /episodes/:id. */
  function DeleteEpisode(b: Backends, id: string): (r: (Response, Backends))
    requires Valid(b)
    ensures Valid(r.1) && r.1.mongoLive == b.mongoLive
    ensures r.0.status != 200 ==> r.1 == b
    ensures r.0.status in {200, 400, 404}
    ensures EpisodeOnMongo(b, id) ==>
      r.1.mem == b.mem && (r.0.status == 200 <==> Mongo.First(b.db.episodes, Mongo.EpisodeWithId(id)).Some?)
    ensures EpisodeOnMongo(b, id) && r.0.status == 200 ==>
      r.1.db.episodes == Mongo.Remove(b.db.episodes, Mongo.EpisodeWithId(id)) &&
      forall e :: e in r.1.db.episodes ==> e.id != id
    ensures !EpisodeOnMongo(b, id) ==> r.1.db == b.db && (r.0.status == 400 <==> MemKey(id).None?)
    ensures !EpisodeOnMongo(b, id) ==> (r.0.status == 200 <==> MemKey(id).Some? && MemKey(id).value in b.mem.episodes)
    ensures !EpisodeOnMongo(b, id) && r.0.status == 200 ==> r.1.mem == Mem.DeleteEpisode(b.mem, MemKey(id).value).0
  {
    if EpisodeOnMongo(b, id) then
      if Mongo.First(b.db.episodes, Mongo.EpisodeWithId(id)).None? then (Say(404, "Episode not found in MongoDB"), b)
      else
        Mongo.RemoveKeepsUnique(b.db.episodes, Mongo.EpisodeWithId(id), Mongo.EpisodeId);
        Mongo.RemoveKeepsUnique(b.db.episodes, Mongo.EpisodeWithId(id), Mongo.EpisodeSlot);
        (Say(200, "Episode deleted successfully"),
         b.(db := b.db.(episodes := Mongo.Remove(b.db.episodes, Mongo.EpisodeWithId(id)))))
    else if b.mongoLive then
      // the connected branch deletes without looking the episode up first
      var key := MemKey(id);
      if key.None? then (Say(400, "Invalid episode ID"), b)
      else
        var (t, existed) := Mem.DeleteEpisode(b.mem, key.value);
        if !existed then (Say(404, "Episode not found"), b)
        else (Say(200, "Episode deleted successfully"), b.(mem := t))
    else
      var key := MemKey(id);
      if key.None? then (Say(400, "Invalid episode ID"), b)
      else if Mem.GetEpisode(b.mem, key.value).None? then (Say(404, "Episode not found"), b)
      else
        var (t, _) := Mem.DeleteEpisode(b.mem, key.value);
        (Say(200, "Episode deleted successfully"), b.(mem := t))
  }

  /** An episode id that is not an ObjectId reaches the memory store
      whether or not MongoDB is connected, and both memory branches answer
      and delete alike. */
  lemma EpisodeMemoryPathsAgree(b: Backends, id: string)
    requires Valid(b) && !Mongo.IsObjectId(id)
    ensures var live := DeleteEpisode(b.(mongoLive := true), id);
            var down := DeleteEpisode(b.(mongoLive := false), id);
            live.0 == down.0 && live.1.mem == down.1.mem
    ensures var live := PatchEpisode(b.(mongoLive := true), id, EpisodeEdit(None, None, None, Mem.Absent, Mem.Absent, None, Mem.Absent, None));
            var down := PatchEpisode(b.(mongoLive := false), id, EpisodeEdit(None, None, None, Mem.Absent, Mem.Absent, None, Mem.Absent, None));
            live.0 == down.0 && live.1.mem == down.1.mem
  {
  }

  /** While MongoDB is connected, a numeric episode id (any id whose text
      is not 24 digits long) edits the memory store, which the connected
      server otherwise does not read. */
  lemma NumericEpisodeIdWritesMemoryWhileConnected(b: Backends, id: nat, p: EpisodeEdit)
    requires Valid(b) && b.mongoLive && id in b.mem.episodes && |MemIdText(id)| != 24
    requires !MemAnimeChangeRefused(b.mem, b.mem.episodes[id], p)
    ensures PatchEpisode(b, MemIdText(id), p).0.status == 200
    ensures PatchEpisode(b, MemIdText(id), p).1.db == b.db
    ensures PatchEpisode(b, MemIdText(id), p).1.mem.episodes[id] == Mem.ApplyEpisodePatch(b.mem.episodes[id], MemEpisodePatch(p))
  {
    MemKeyRoundTrip(id);
  }
}
