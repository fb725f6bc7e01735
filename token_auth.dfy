/** The token gate of server/middleware/auth.ts. A request carrying a signed
    `token` cookie is admitted when the token verifies and names a stored
    user; the privilege flag attached to the request then comes from the
    token when the token carries one, and from the stored user otherwise.
    Signing, verification and the user lookup are foreign calls and appear
    here as their outcomes. */
module TokenAuth {
  import opened Common
  import opened Flags

  /** The claims inside a token; `isAdmin` is `JUndefined` when the claim is
      absent. */
  datatype Payload = Payload(userId: string, isAdmin: JsValue)

  /** A signing request: the claims and the expiry. */
  datatype SignRequest = SignRequest(payload: Payload, expiresIn: string)

  /** What `jwt.verify` does with a token: throws, or yields the claims. */
  datatype Verified = VerifyThrows | Verified(payload: Payload)

  /** What a lookup by id does: throws, finds nothing, or finds a document. */
  datatype Lookup<T> = LookupThrows | NotFound | Found(doc: T)

  /** A stored user as fetched without its password. */
  datatype TokenUser = TokenUser(id: string, username: string, isAdmin: JsValue)

  /** The gate's decision: admit with the user and token to attach, or
      answer 401 with a message. */
  datatype AuthResult = Admit(user: TokenUser, token: string) | Unauthorized(message: string)

  /** The flag the gate writes onto the fetched user: the token's claim
      when present, the stored flag otherwise, normalised either way. */
  function TokenFlag(claim: JsValue, stored: JsValue): (r: bool)
    ensures claim != JUndefined ==> r == NormalizeBoolean(claim)
    ensures claim == JUndefined ==> r == NormalizeBoolean(stored)
  {
    if claim != JUndefined then NormalizeBoolean(claim) else NormalizeBoolean(stored)
  }

  /** `auth`: the decision, with the verification and lookup outcomes as
      functions of their arguments. A missing or empty cookie is refused
      before verification; anything that throws becomes "Invalid token". */
  function Authenticate(cookie: Option<string>, verify: string -> Verified,
                        findById: string -> Lookup<TokenUser>): (r: AuthResult)
    ensures (cookie.None? || cookie.value == "") <==> r == Unauthorized("Authentication required")
    ensures r.Admit? ==> cookie == Some(r.token) && verify(r.token).Verified?
    ensures r.Admit? ==> findById(verify(r.token).payload.userId).Found?
    ensures r.Unauthorized? ==> r.message in {"Authentication required", "Invalid token", "User not found"}
  {
    if cookie.None? || cookie.value == "" then Unauthorized("Authentication required")
    else
      match verify(cookie.value)
      case VerifyThrows => Unauthorized("Invalid token")
      case Verified(payload) =>
        match findById(payload.userId)
        case LookupThrows => Unauthorized("Invalid token")
        case NotFound => Unauthorized("User not found")
        case Found(user) =>
          Admit(user.(isAdmin := JBool(TokenFlag(payload.isAdmin, user.isAdmin))), cookie.value)
  }

  /** The admitted user is the stored one, except that its flag is now a
      strict boolean taken with the precedence of `TokenFlag`. */
  lemma AdmittedUser(cookie: Option<string>, verify: string -> Verified,
                     findById: string -> Lookup<TokenUser>)
    requires Authenticate(cookie, verify, findById).Admit?
    ensures var r := Authenticate(cookie, verify, findById);
            var p := verify(r.token).payload;
            var stored := findById(p.userId).doc;
            && r.user == stored.(isAdmin := JBool(TokenFlag(p.isAdmin, stored.isAdmin)))
            && r.user.isAdmin.JBool?
  {
  }

  /** A failure never lets the request through, and no failure is a
      server error: every refusal is a 401 carrying one of three messages,
      decided by which step failed. */
  lemma FailureMessages(token: string, verify: string -> Verified,
                        findById: string -> Lookup<TokenUser>)
    requires token != ""
    ensures verify(token).VerifyThrows? ==>
      Authenticate(Some(token), verify, findById) == Unauthorized("Invalid token")
    ensures verify(token).Verified? && findById(verify(token).payload.userId).LookupThrows? ==>
      Authenticate(Some(token), verify, findById) == Unauthorized("Invalid token")
    ensures verify(token).Verified? && findById(verify(token).payload.userId).NotFound? ==>
      Authenticate(Some(token), verify, findById) == Unauthorized("User not found")
  {
  }

  /** The token outranks the database: a token claiming `false` demotes a
      stored admin, and a token claiming "true" promotes a stored
      non-admin. */
  lemma TokenClaimOutranksStoredFlag()
    ensures !TokenFlag(JBool(false), JBool(true))
    ensures TokenFlag(JStr("true"), JBool(false))
    ensures TokenFlag(JUndefined, JStr("TRUE"))
    ensures !TokenFlag(JNull, JBool(true))
  {
    assert ToLower("true") == "true";
    assert ToLower("TRUE") == "true";
  }

  /** `generateToken`: signs `{userId, isAdmin}` with `isAdmin` defaulting
      to false, valid for seven days. */
  function GenerateToken(userId: string, isAdmin: Option<bool>): (r: SignRequest)
    ensures r.payload.userId == userId
    ensures r.payload.isAdmin == JBool(isAdmin.Some? && isAdmin.value)
    ensures r.expiresIn == "7d"
  {
    SignRequest(Payload(userId, JBool(if isAdmin.Some? then isAdmin.value else false)), "7d")
  }

  /** A token issued by `generateToken` always carries the flag, so when it
      comes back it decides the privilege on its own: the stored flag plays
      no part, and a token issued without a flag admits a non-admin. */
  lemma IssuedTokenDecidesFlag(userId: string, isAdmin: Option<bool>, token: string,
                               verify: string -> Verified, findById: string -> Lookup<TokenUser>)
    requires token != ""
    requires verify(token) == Verified(GenerateToken(userId, isAdmin).payload)
    requires findById(userId).Found?
    ensures Authenticate(Some(token), verify, findById).Admit?
    ensures Authenticate(Some(token), verify, findById).user.isAdmin
         == JBool(isAdmin.Some? && isAdmin.value)
  {
  }

  /** The request object the gate writes into. */
  class Request {
    var user: Option<TokenUser>
    var token: Option<string>
    var nextCalls: nat
    var response: Option<(int, string)>

    constructor ()
      ensures user.None? && token.None? && nextCalls == 0 && response.None?
    {
      user, token, nextCalls, response := None, None, 0, None;
    }

    /** `auth` run against this request: on success it attaches the user
        (with the rewritten flag) and the token and calls `next` once; on
        failure it answers 401 and leaves the request otherwise alone. */
    method Auth(cookie: Option<string>, verify: string -> Verified,
                findById: string -> Lookup<TokenUser>)
      modifies this
      ensures var r := Authenticate(cookie, verify, findById);
              if r.Admit? then
                user == Some(r.user) && token == Some(r.token) &&
                nextCalls == old(nextCalls) + 1 && response == old(response)
              else
                user == old(user) && token == old(token) &&
                nextCalls == old(nextCalls) && response == Some((401, r.message))
    {
      if cookie.None? || cookie.value == "" {
        response := Some((401, "Authentication required"));
        return;
      }
      var decoded := verify(cookie.value);
      if decoded.VerifyThrows? {
        response := Some((401, "Invalid token"));
        return;
      }
      var found := findById(decoded.payload.userId);
      if found.LookupThrows? {
        response := Some((401, "Invalid token"));
        return;
      }
      if found.NotFound? {
        response := Some((401, "User not found"));
        return;
      }
      var fetched := found.doc;
      if decoded.payload.isAdmin != JUndefined {
        fetched := fetched.(isAdmin := JBool(NormalizeBoolean(decoded.payload.isAdmin)));
      } else {
        fetched := fetched.(isAdmin := JBool(NormalizeBoolean(fetched.isAdmin)));
      }
      user := Some(fetched);
      token := Some(cookie.value);
      nextCalls := nextCalls + 1;
    }
  }
}
