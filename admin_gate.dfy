/** The session-based admin gate of server/middleware/admin.ts: a decision
    on whether the session is authenticated, whether a user object is
    attached to the request, and that user's privilege flag. */
module AdminGate {
  import opened Common
  import opened Flags

  /** What a middleware does with a request: pass it on, or answer it. */
  datatype Outcome = Next | Reject(status: int, message: string)

  /** `isAdmin`. `user` is the flag of `req.user` when one is attached. */
  function AdminGate(authenticated: bool, user: Option<JsValue>): (r: Outcome)
    ensures r == Next <==> authenticated && user.Some? && NormalizeBoolean(user.value)
    ensures r.Reject? ==> r.status in {401, 403}
    ensures r == Reject(401, "Authentication required") <==> !authenticated
  {
    if !authenticated then Reject(401, "Authentication required")
    else if user.None? then Reject(401, "User data missing")
    else if !NormalizeBoolean(user.value) then Reject(403, "Admin access required")
    else Next
  }

  /** The gate looks at nothing but the session before answering 401, and a
      401 means the caller is unknown rather than unprivileged: an
      authenticated request with a user gets 403 or passes, never 401. */
  lemma GateStatusMeaning(authenticated: bool, user: Option<JsValue>)
    ensures !authenticated ==> AdminGate(authenticated, user) == AdminGate(false, None)
    ensures AdminGate(authenticated, user).Reject? && AdminGate(authenticated, user).status == 401
        <==> !authenticated || user.None?
    ensures authenticated && user.None? ==> AdminGate(authenticated, user) == Reject(401, "User data missing")
  {
  }

  /** The gate reads the flag through the normaliser, so a user whose flag
      is the string "false" (truthy in JavaScript) is refused, while the
      string "TRUE" and the number 1 are admitted. */
  lemma GateFlagExamples()
    ensures AdminGate(true, Some(JStr("false"))) == Reject(403, "Admin access required")
    ensures AdminGate(true, Some(JStr("TRUE"))) == Next
    ensures AdminGate(true, Some(JNum(1))) == Next
    ensures AdminGate(true, Some(JStr(" true"))) == Reject(403, "Admin access required")
  {
    assert ToLower("false") == "false";
    assert ToLower("TRUE") == "true";
    assert ToLower(" true") == " true";
  }

  /** Two flags that normalise alike are treated alike. */
  lemma GateDependsOnlyOnNormalizedFlag(authenticated: bool, a: JsValue, b: JsValue)
    requires NormalizeBoolean(a) == NormalizeBoolean(b)
    ensures AdminGate(authenticated, Some(a)) == AdminGate(authenticated, Some(b))
  {
  }
}
