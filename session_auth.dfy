/** The session authentication of server/auth.ts: the start-up creation of
    the administrator account, passport's local strategy, the session key
    passport stores and the lookup that restores a user from it, and the
    register, login and current-user routes. Like the admin routes, each
    operation reads MongoDB when it is connected and the in-memory store
    otherwise. bcrypt appears as two parameters: the digest the pre-save
    hook stores for a new password, and the comparison `matches(candidate,
    digest)`. */
module SessionAuth {
  import opened Common
  import opened Flags
  import opened Stores
  import Mem = MemTables
  import Mongo = MongoStore
  import MemSeed
  import AdminGate

  // ---------------------------------------------------------------------
  // Principals
  // ---------------------------------------------------------------------

  /** The user passport attaches to a request: a MongoDB document, or a copy
      of an in-memory record. */
  datatype Principal = FromMongo(doc: Mongo.MUser) | FromMemory(record: Mem.User)

  /** The flag of the attached user, which the admin gate reads. */
  function SessionFlag(p: Principal): JsValue
  {
    match p
    case FromMongo(doc) => JBool(doc.isAdmin)
    case FromMemory(record) => record.isAdmin
  }

  function PrincipalName(p: Principal): string
  {
    match p
    case FromMongo(doc) => doc.username
    case FromMemory(record) => record.username
  }

  /** A memory record as the strategy and the session lookup copy it: the
      flag replaced by its normalised boolean. */
  function NormalisedCopy(u: Mem.User): (r: Mem.User)
    ensures r.isAdmin == JBool(NormalizeBoolean(u.isAdmin))
    ensures r.(isAdmin := u.isAdmin) == u
  {
    u.(isAdmin := JBool(NormalizeBoolean(u.isAdmin)))
  }

  /** The user in a response: the attached user's fields without the
      password, and the flag normalised. */
  function View(p: Principal): (r: UserView)
    ensures r.password.None?
    ensures r.isAdmin == NormalizeBoolean(SessionFlag(p))
    ensures r.username == PrincipalName(p)
  {
    match p
    case FromMongo(doc) => MongoUserView(doc)
    case FromMemory(record) => UserView(MemIdText(record.id), record.username, None, None, NormalizeBoolean(record.isAdmin))
  }

  // ---------------------------------------------------------------------
  // The administrator account
  // ---------------------------------------------------------------------

  const AdminName: string := "admin"
  const AdminPassword: string := "admin123"
  const AdminEmail: string := "admin@animeverse.com"

  /** The document `User.create` receives for the administrator. */
  function MongoAdminDoc(newId: string, digest: string): Mongo.MUser
  {
    Mongo.MUser(newId, AdminName, AdminEmail, digest, true)
  }

  /** The memory store's half: nothing when a user named `admin` exists,
      otherwise one new administrator. */
  function MemBootstrap(t: Mem.Tables, now: int): (r: Mem.Tables)
    requires Mem.Valid(t)
    ensures Mem.Valid(r)
    ensures Mem.GetUserByUsername(r, AdminName).Some?
    ensures Mem.GetUserByUsername(t, AdminName).Some? ==> r == t
    ensures Mem.GetUserByUsername(t, AdminName).None? ==>
      r.users == t.users[t.nextUser := Mem.User(t.nextUser, AdminName, AdminPassword, JBool(true), now)] &&
      r == t.(users := r.users, nextUser := t.nextUser + 1)
  {
    if Mem.GetUserByUsername(t, AdminName).Some? then t
    else Mem.CreateUser(t, Mem.NewUser(AdminName, AdminPassword, JBool(true)), now).0
  }

  /** Whether MongoDB would store the administrator document: the name is
      checked before, the validators pass on the built-in values, and only
      the unique e-mail index can refuse it. */
  predicate MongoTakesAdmin(db: Mongo.Db, newId: string, digest: string)
  {
    Mongo.Admits(db.users, MongoAdminDoc(newId, digest), Mongo.UserEmail)
  }

  /** `createAdminUserIfNeeded`. When MongoDB is connected but refuses the
      insert, the memory store gets the account instead. */
  function CreateAdminUserIfNeeded(b: Backends, newId: string, digest: string, now: int): (r: Backends)
    requires Valid(b) && Mongo.FreshIn(b.db.users, newId, Mongo.UserId)
    ensures Valid(r) && r.mongoLive == b.mongoLive
    ensures !b.mongoLive ==> r == b.(mem := MemBootstrap(b.mem, now))
    ensures b.mongoLive && Mongo.First(b.db.users, Mongo.UserNamed(AdminName)).Some? ==> r == b
    ensures b.mongoLive && Mongo.First(b.db.users, Mongo.UserNamed(AdminName)).None? ==>
      if MongoTakesAdmin(b.db, newId, digest)
      then r == b.(db := b.db.(users := b.db.users + [MongoAdminDoc(newId, digest)]))
      else r == b.(mem := MemBootstrap(b.mem, now))
    ensures b.mongoLive ==> Mongo.First(r.db.users, Mongo.UserNamed(AdminName)).Some? ||
                            Mem.GetUserByUsername(r.mem, AdminName).Some?
  {
    if b.mongoLive then
      if Mongo.First(b.db.users, Mongo.UserNamed(AdminName)).Some? then b
      else
        var doc := MongoAdminDoc(newId, digest);
        if MongoTakesAdmin(b.db, newId, digest) then
          Mongo.AppendKeepsUnique(b.db.users, doc, Mongo.UserId);
          Mongo.AppendKeepsUnique(b.db.users, doc, Mongo.UserName);
          Mongo.AppendKeepsUnique(b.db.users, doc, Mongo.UserEmail);
          assert doc in b.db.users + [doc];
          b.(db := b.db.(users := b.db.users + [doc]))
        else b.(mem := MemBootstrap(b.mem, now))
    else b.(mem := MemBootstrap(b.mem, now))
  }

  /** Running the start-up check a second time changes nothing. */
  lemma CreateAdminIsIdempotent(b: Backends, id1: string, d1: string, now1: int, id2: string, d2: string, now2: int)
    requires Valid(b) && Mongo.FreshIn(b.db.users, id1, Mongo.UserId)
    requires Mongo.FreshIn(CreateAdminUserIfNeeded(b, id1, d1, now1).db.users, id2, Mongo.UserId)
    ensures var once := CreateAdminUserIfNeeded(b, id1, d1, now1);
            CreateAdminUserIfNeeded(once, id2, d2, now2) == once
  {
    var once := CreateAdminUserIfNeeded(b, id1, d1, now1);
    if b.mongoLive && Mongo.First(b.db.users, Mongo.UserNamed(AdminName)).None? {
      var doc := MongoAdminDoc(id1, d1);
      if MongoTakesAdmin(b.db, id1, d1) {
        assert doc in once.db.users && Mongo.UserNamed(AdminName)(doc);
      } else {
        var y :| y in b.db.users && Mongo.UserEmail(y) == Mongo.UserEmail(doc);
        assert Mongo.UserEmail(y) == Mongo.UserEmail(MongoAdminDoc(id2, d2));
      }
    }
  }

  // ---------------------------------------------------------------------
  // The local strategy
  // ---------------------------------------------------------------------

  datatype LoginResult = LoggedIn(principal: Principal) | Refused(message: string)

  /** A MongoDB user with this name whose stored digest matches. */
  predicate MongoMatch(b: Backends, username: string, password: string, matches: (string, string) -> bool)
  {
    b.mongoLive && Mongo.First(b.db.users, Mongo.UserNamed(username)).Some? &&
    matches(password, Mongo.First(b.db.users, Mongo.UserNamed(username)).value.password)
  }

  /** The first in-memory user with this name stores exactly this plaintext
      password. */
  predicate MemMatch(t: Mem.Tables, username: string, password: string)
    requires Mem.Valid(t)
  {
    Mem.GetUserByUsername(t, username).Some? && Mem.GetUserByUsername(t, username).value.password == password
  }

  /** The `LocalStrategy` callback. A MongoDB user whose digest does not
      match is not refused: the memory store is tried next. An unknown name
      and a wrong password are refused with the same message. */
  function Strategy(b: Backends, username: string, password: string, matches: (string, string) -> bool)
    : (r: LoginResult)
    requires Valid(b)
    ensures r.LoggedIn? <==> MongoMatch(b, username, password, matches) || MemMatch(b.mem, username, password)
    ensures r.Refused? ==> r.message == "Incorrect username or password"
    ensures MongoMatch(b, username, password, matches) ==>
      r == LoggedIn(FromMongo(Mongo.First(b.db.users, Mongo.UserNamed(username)).value))
    ensures !MongoMatch(b, username, password, matches) && r.LoggedIn? ==>
      r.principal == FromMemory(NormalisedCopy(Mem.GetUserByUsername(b.mem, username).value))
    ensures r.LoggedIn? ==> PrincipalName(r.principal) == username && SessionFlag(r.principal).JBool?
  {
    if MongoMatch(b, username, password, matches) then
      LoggedIn(FromMongo(Mongo.First(b.db.users, Mongo.UserNamed(username)).value))
    else
      match Mem.GetUserByUsername(b.mem, username)
      case None => Refused("Incorrect username or password")
      case Some(u) =>
        if u.password != password then Refused("Incorrect username or password")
        else LoggedIn(FromMemory(NormalisedCopy(u)))
  }

  /** The seeded in-memory administrator keeps its built-in credentials: it
      logs in with them, and passes the admin gate, even while MongoDB is
      connected and whatever MongoDB stores. */
  lemma SeededAdminAlwaysLogsIn(b: Backends, now: int, matches: (string, string) -> bool)
    requires Valid(b) && b.mem == MemSeed.SeedTables(now)
    ensures Strategy(b, AdminName, AdminPassword, matches).LoggedIn?
    ensures !MongoMatch(b, AdminName, AdminPassword, matches) ==>
      AdminGate.AdminGate(true, Some(SessionFlag(Strategy(b, AdminName, AdminPassword, matches).principal))).Next?
  {
    MemSeed.SeedUsers(now);
    var found := Mem.GetUserByUsername(b.mem, AdminName);
    assert b.mem.users[1].username == AdminName;
    assert found.Some?;
    assert found.value.id == 1;
  }

  /** A MongoDB user whose digest does not match is not refused when a
      memory user of the same name has that plaintext password: the login
      succeeds as the memory user. */
  lemma MongoMismatchFallsThrough(b: Backends, username: string, password: string, matches: (string, string) -> bool)
    requires Valid(b) && b.mongoLive
    requires Mongo.First(b.db.users, Mongo.UserNamed(username)).Some?
    requires !matches(password, Mongo.First(b.db.users, Mongo.UserNamed(username)).value.password)
    requires MemMatch(b.mem, username, password)
    ensures Strategy(b, username, password, matches).LoggedIn?
    ensures Strategy(b, username, password, matches).principal.FromMemory?
  {
  }

  // ---------------------------------------------------------------------
  // The session key
  // ---------------------------------------------------------------------

  /** What `serializeUser` stores: `_id` when the user has one, else `id`. */
  datatype SessionKey = DocKey(text: string) | RecordKey(n: int)

  function Serialize(p: Principal): SessionKey
  {
    match p
    case FromMongo(doc) => DocKey(doc.id)
    case FromMemory(record) => RecordKey(record.id)
  }

  datatype Restore = Restored(principal: Principal) | UserNotFound

  /** The memory half of `deserializeUser`: `storage.getUser(parseInt(id))`. */
  function MemRestore(t: Mem.Tables, key: Option<int>): (r: Restore)
    requires Mem.Valid(t)
    ensures r.Restored? <==> key.Some? && key.value in t.users
    ensures r.Restored? ==> r.principal == FromMemory(NormalisedCopy(t.users[key.value]))
  {
    if key.Some? && key.value in t.users then Restored(FromMemory(NormalisedCopy(t.users[key.value])))
    else UserNotFound
  }

  /** `parseInt(id)` on the stored key. */
  function KeyNumber(key: SessionKey): Option<int>
  {
    match key
    case DocKey(text) => ParseInt(text, false)
    case RecordKey(n) => Some(n)
  }

  /** `deserializeUser` as written: MongoDB first when connected, and for
      any key MongoDB does not resolve, the memory store through
      `parseInt`. A number never resolves on MongoDB. */
  function Deserialize(b: Backends, key: SessionKey): (r: Restore)
    requires Valid(b)
    ensures b.mongoLive && key.DocKey? && Mongo.First(b.db.users, Mongo.UserWithId(key.text)).Some? ==>
      r == Restored(FromMongo(Mongo.First(b.db.users, Mongo.UserWithId(key.text)).value))
    ensures !(b.mongoLive && key.DocKey? && Mongo.First(b.db.users, Mongo.UserWithId(key.text)).Some?) ==>
      r == MemRestore(b.mem, KeyNumber(key))
    ensures r.Restored? ==> SessionFlag(r.principal).JBool?
  {
    if b.mongoLive && key.DocKey? && Mongo.First(b.db.users, Mongo.UserWithId(key.text)).Some? then
      Restored(FromMongo(Mongo.First(b.db.users, Mongo.UserWithId(key.text)).value))
    else MemRestore(b.mem, KeyNumber(key))
  }

  /** A session of a stored user restores that user, with the flag
      normalised, as long as the store it came from still holds it. */
  lemma SessionRoundTrip(b: Backends, p: Principal)
    requires Valid(b)
    requires p.FromMongo? ==> b.mongoLive && p.doc in b.db.users
    requires p.FromMemory? ==> p.record.id in b.mem.users && b.mem.users[p.record.id] == p.record
    ensures p.FromMongo? ==> Deserialize(b, Serialize(p)) == Restored(p)
    ensures p.FromMemory? ==> Deserialize(b, Serialize(p)) == Restored(FromMemory(NormalisedCopy(p.record)))
  {
    if p.FromMongo? {
      Mongo.FoundByIdIsUnique(b.db, p.doc.id);
    }
  }

  /** The 24-digit key of a MongoDB user, `"6a"` followed by 22 zeros, as
      the session of a user created in 2026 would hold. */
  const SampleDocKey: string := "6a0000000000000000000000"

  lemma SampleDocKeyParses()
    ensures Mongo.IsObjectId(SampleDocKey)
    ensures ParseInt(SampleDocKey, false) == Some(6)
  {
    assert SampleDocKey[0] == '6' && SampleDocKey[1..][0] == 'a';
    assert TrimStart(SampleDocKey) == SampleDocKey;
    assert DigitRun(SampleDocKey[1..]) == [];
    assert DigitRun(SampleDocKey) == "6";
    assert DigitsValue("6") == 10 * DigitsValue("") + 6;
  }

  /** A MongoDB session restored while the user is no longer found there
      (MongoDB disconnected, or the user deleted) becomes whichever memory
      user has the number the id's leading digits spell: the session of the
      MongoDB user "6a00…" is restored as memory user 6, another account. */
  lemma MongoSessionBecomesMemoryUser(b: Backends)
    requires Valid(b) && !b.mongoLive && 6 in b.mem.users
    ensures Deserialize(b, DocKey(SampleDocKey)) == Restored(FromMemory(NormalisedCopy(b.mem.users[6])))
    ensures Serialize(Deserialize(b, DocKey(SampleDocKey)).principal) != DocKey(SampleDocKey)
  {
    SampleDocKeyParses();
  }

  /** `deserializeUser` as evidently intended: a MongoDB key is looked up
      only on MongoDB, a memory key only in memory. */
  function DeserializeIntended(b: Backends, key: SessionKey): (r: Restore)
    requires Valid(b)
    ensures r.Restored? ==> Serialize(r.principal) == key
    ensures r.Restored? ==> SessionFlag(r.principal).JBool?
    ensures key.DocKey? ==> (r.Restored? <==> b.mongoLive && Mongo.First(b.db.users, Mongo.UserWithId(key.text)).Some?)
    ensures key.RecordKey? ==> r == MemRestore(b.mem, Some(key.n))
  {
    match key
    case DocKey(text) =>
      if b.mongoLive && Mongo.First(b.db.users, Mongo.UserWithId(text)).Some? then
        Restored(FromMongo(Mongo.First(b.db.users, Mongo.UserWithId(text)).value))
      else UserNotFound
    case RecordKey(n) => MemRestore(b.mem, Some(n))
  }

  /** The intended lookup agrees with the written one on every session it
      restores, and keeps the round trip. */
  lemma IntendedRestoreAgrees(b: Backends, key: SessionKey)
    requires Valid(b)
    ensures DeserializeIntended(b, key).Restored? ==> DeserializeIntended(b, key) == Deserialize(b, key)
    ensures key.RecordKey? ==> DeserializeIntended(b, key) == Deserialize(b, key)
  {
  }

  // ---------------------------------------------------------------------
  // Routes
  // ---------------------------------------------------------------------

  /** POST /api/auth/login: 401 with the strategy's message, or the user.
      passport-local itself refuses an empty or absent username or
      password with "Missing credentials" before the strategy runs; a
      missing body field is the empty string here. */
  function LoginRoute(b: Backends, username: string, password: string, matches: (string, string) -> bool)
    : (r: Response)
    requires Valid(b)
    ensures PasswordFree(r)
    ensures r.status in {200, 401}
    ensures r == Say(401, "Missing credentials") <==> username == "" || password == ""
    ensures r.status == 200 <==>
      username != "" && password != "" &&
      (MongoMatch(b, username, password, matches) || MemMatch(b.mem, username, password))
    ensures r.status == 401 && username != "" && password != "" ==>
      r == Say(401, "Incorrect username or password")
    ensures r.status == 200 ==> r.body.OneUser? && r.body.user.username == username
  {
    if username == "" || password == "" then Say(401, "Missing credentials")
    else
      match Strategy(b, username, password, matches)
      case Refused(message) => Say(401, message)
      case LoggedIn(p) => Response(200, OneUser(View(p)))
  }

  /** GET /api/auth/me. */
  function MeRoute(session: Option<Principal>): (r: Response)
    ensures PasswordFree(r)
    ensures session.None? <==> r == Say(401, "Not authenticated")
    ensures session.Some? ==> r == Response(200, OneUser(View(session.value)))
  {
    if session.None? then Say(401, "Not authenticated") else Response(200, OneUser(View(session.value)))
  }

  /** The body of POST /api/auth/register. */
  datatype RegisterBody = RegisterBody(username: string, email: Option<string>, password: string, isAdmin: JsValue)

  /** `email || username@example.com`. */
  function RegisterEmail(body: RegisterBody): (r: string)
    ensures r != ""
  {
    if body.email.Some? && body.email.value != "" then body.email.value else body.username + "@example.com"
  }

  /** The document `User.create` receives for a registration. */
  function RegisterDoc(body: RegisterBody, newId: string, digest: string): Mongo.MUser
  {
    Mongo.MUser(newId, body.username, RegisterEmail(body), digest, NormalizeBoolean(body.isAdmin))
  }

  /** Whether MongoDB stores a new user: the schema validators pass on the
      plaintext and no stored user has the e-mail. */
  predicate MongoTakesUser(db: Mongo.Db, body: RegisterBody, newId: string, digest: string)
  {
    Mongo.UserDocOk(body.username, RegisterEmail(body), body.password) &&
    Mongo.Admits(db.users, RegisterDoc(body, newId, digest), Mongo.UserEmail)
  }

  /** POST /api/auth/register. A name taken on MongoDB, or, when the user
      goes to memory, in memory, is refused; a user MongoDB refuses goes to
      the memory store; the stored flag is the normalised flag the client
      sent. */
  function Register(b: Backends, body: RegisterBody, newId: string, digest: string, now: int): (r: (Response, Backends))
    requires Valid(b) && Mongo.FreshIn(b.db.users, newId, Mongo.UserId)
    ensures Valid(r.1) && r.1.mongoLive == b.mongoLive
    ensures r.1.db == b.db || r.1.mem == b.mem
    ensures PasswordFree(r.0) && r.0.status in {201, 400}
    ensures r.0.status == 400 ==> r == (Say(400, "Username already exists"), b)
    ensures r.0.status == 201 ==>
      r.0.body.OneUser? && r.0.body.user.username == body.username &&
      r.0.body.user.isAdmin == NormalizeBoolean(body.isAdmin)
    ensures b.mongoLive && Mongo.First(b.db.users, Mongo.UserNamed(body.username)).Some? ==> r.0.status == 400
    ensures b.mongoLive && Mongo.First(b.db.users, Mongo.UserNamed(body.username)).None? &&
            MongoTakesUser(b.db, body, newId, digest) ==>
      r.0.status == 201 && r.1 == b.(db := b.db.(users := b.db.users + [RegisterDoc(body, newId, digest)]))
    ensures (!b.mongoLive || (Mongo.First(b.db.users, Mongo.UserNamed(body.username)).None? &&
                              !MongoTakesUser(b.db, body, newId, digest))) ==>
      (r.0.status == 400 <==> Mem.GetUserByUsername(b.mem, body.username).Some?) &&
      (r.0.status == 201 ==>
         r.1 == b.(mem := Mem.CreateUser(b.mem, Mem.NewUser(body.username, body.password,
                                                            JBool(NormalizeBoolean(body.isAdmin))), now).0))
  {
    var flag := NormalizeBoolean(body.isAdmin);
    if b.mongoLive && Mongo.First(b.db.users, Mongo.UserNamed(body.username)).Some? then
      (Say(400, "Username already exists"), b)
    else if b.mongoLive && MongoTakesUser(b.db, body, newId, digest) then
      var doc := RegisterDoc(body, newId, digest);
      Mongo.AppendKeepsUnique(b.db.users, doc, Mongo.UserId);
      Mongo.AppendKeepsUnique(b.db.users, doc, Mongo.UserName);
      Mongo.AppendKeepsUnique(b.db.users, doc, Mongo.UserEmail);
      (Response(201, OneUser(View(FromMongo(doc)))), b.(db := b.db.(users := b.db.users + [doc])))
    else if Mem.GetUserByUsername(b.mem, body.username).Some? then
      (Say(400, "Username already exists"), b)
    else
      var (t, u) := Mem.CreateUser(b.mem, Mem.NewUser(body.username, body.password, JBool(flag)), now);
      (Response(201, OneUser(View(FromMemory(u)))), b.(mem := t))
  }

  /** Anyone can register an administrator: a client that sends the flag
      as the string "TRUE" gets an account whose session passes the admin
      gate. */
  lemma ClientChoosesOwnPrivilege(b: Backends, username: string, password: string, newId: string, digest: string, now: int)
    requires Valid(b) && Mongo.FreshIn(b.db.users, newId, Mongo.UserId)
    requires Mongo.First(b.db.users, Mongo.UserNamed(username)).None?
    requires Mem.GetUserByUsername(b.mem, username).None?
    ensures var r := Register(b, RegisterBody(username, None, password, JStr("TRUE")), newId, digest, now);
      r.0.status == 201 && r.0.body.user.isAdmin &&
      AdminGate.AdminGate(true, Some(JBool(r.0.body.user.isAdmin))).Next?
  {
    assert ToLower("TRUE") == "true";
  }
}
