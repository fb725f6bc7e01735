/** The two stores the server can answer from (server/db.ts's
    `isMongoConnected` picks one per request), and the JSON shape of a
    response. */
module Stores {
  import opened Common
  import Mem = MemTables
  import Mongo = MongoStore

  /** Whether MongoDB is connected, its collections, and the in-memory
      tables. */
  datatype Backends = Backends(mongoLive: bool, db: Mongo.Db, mem: Mem.Tables)

  predicate Valid(b: Backends)
  {
    Mongo.Valid(b.db) && Mem.Valid(b.mem)
  }

  /** A handler that writes only to the store the connection flag selects:
      the other store and the flag are untouched. */
  predicate OnlyLive(b: Backends, b2: Backends)
  {
    b2.mongoLive == b.mongoLive
    && (b.mongoLive ==> b2.mem == b.mem)
    && (!b.mongoLive ==> b2.db == b.db)
  }

  /** A user as a response shows it; `None` is a property the JSON does not
      carry. */
  datatype UserView = UserView(
    id: string, username: string, email: Option<string>, password: Option<string>, isAdmin: bool)

  /** A response body: a message, users, or a stored document named by its
      id (its fields are the stored ones). */
  datatype Body =
    | Message(text: string)
    | UserList(users: seq<UserView>)
    | OneUser(user: UserView)
    | Document(id: string)

  datatype Response = Response(status: int, body: Body)

  function Say(status: int, text: string): Response
  {
    Response(status, Message(text))
  }

  /** The view of a Mongo user that the admin routes build field by field:
      no password. */
  function MongoUserView(u: Mongo.MUser): (r: UserView)
    ensures r.password.None? && r.isAdmin == u.isAdmin && r.id == u.id
  {
    UserView(u.id, u.username, Some(u.email), None, u.isAdmin)
  }

  /** `String(id)` for an in-memory id. */
  function MemIdText(id: int): string
  {
    IntToString(id)
  }

  /** `parseInt(param)` without a radix; `None` is NaN, which matches no
      key of an in-memory table. */
  function MemKey(param: string): Option<int>
  {
    ParseInt(param, false)
  }

  /** The id of an in-memory record survives the trip through a route
      parameter. */
  lemma MemKeyRoundTrip(id: nat)
    ensures MemKey(MemIdText(id)) == Some(id)
  {
    ParseIntRoundTrip(id, false);
  }

  /** A response that carries no password anywhere. */
  predicate PasswordFree(r: Response)
  {
    match r.body
    case UserList(users) => forall i :: 0 <= i < |users| ==> users[i].password.None?
    case OneUser(user) => user.password.None?
    case _ => true
  }

  /** The same response with every password property removed. */
  function StripPasswords(r: Response): (s: Response)
    ensures PasswordFree(s) && s.status == r.status
    ensures r.body.UserList? ==> s.body.UserList? && |s.body.users| == |r.body.users|
    ensures r.body.UserList? ==> forall i :: 0 <= i < |r.body.users| ==>
      s.body.users[i] == r.body.users[i].(password := None)
    ensures r.body.OneUser? ==> s.body == OneUser(r.body.user.(password := None))
    ensures !r.body.UserList? && !r.body.OneUser? ==> s == r
  {
    match r.body
    case UserList(users) =>
      Response(r.status, UserList(seq(|users|, i requires 0 <= i < |users| => users[i].(password := None))))
    case OneUser(user) => Response(r.status, OneUser(user.(password := None)))
    case _ => r
  }
}
