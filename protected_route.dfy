/** The client route guard of client/src/lib/protected-route.tsx. Unlike
    the server, it does not normalise the privilege flag: only the boolean
    `true` opens an admin route. */
module ProtectedRoute {
  import opened Common
  import opened Flags

  datatype View = Spinner | RedirectToAuth | AccessDenied | RenderComponent

  /** `ProtectedRoute`. `user` is the signed-in user's `isAdmin` value. */
  function Guard(isLoading: bool, user: Option<JsValue>, requireAdmin: bool): (r: View)
    ensures isLoading ==> r == Spinner
    ensures !isLoading && user.None? ==> r == RedirectToAuth
    ensures r == RenderComponent <==>
      !isLoading && user.Some? && (!requireAdmin || user.value == JBool(true))
    ensures r == AccessDenied <==>
      !isLoading && user.Some? && requireAdmin && user.value != JBool(true)
  {
    if isLoading then Spinner
    else if user.None? then RedirectToAuth
    else if requireAdmin && user.value != JBool(true) then AccessDenied
    else RenderComponent
  }

  /** The guard is stricter than the server's normaliser: whatever it admits
      the server admits too, but the string "true" and the number 1, which
      the server treats as admin, are turned away here. */
  lemma GuardStricterThanServer(flag: JsValue)
    ensures Guard(false, Some(flag), true) == RenderComponent ==> NormalizeBoolean(flag)
    ensures NormalizeBoolean(JStr("true")) && Guard(false, Some(JStr("true")), true) == AccessDenied
    ensures NormalizeBoolean(JNum(1)) && Guard(false, Some(JNum(1)), true) == AccessDenied
  {
    assert ToLower("true") == "true";
  }

  /** A flag the server has already normalised is read the same way by
      both sides. */
  lemma GuardAgreesOnNormalizedFlag(flag: JsValue)
    ensures Guard(false, Some(JBool(NormalizeBoolean(flag))), true) == RenderComponent
        <==> NormalizeBoolean(flag)
  {
  }
}
