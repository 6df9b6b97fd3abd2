/**
 * The navigation bar src/components/Header.tsx: which link is active, and
 * signing out.
 */
module Header {
  import opened Js
  import UserSlice

  const LogoutDelayMs := 1500

  /** What a successful sign-out schedules after purging the persisted
      session: the login page and the toast, both after 1.5 seconds. */
  const LogoutEffects: seq<Effect> :=
    [PurgePersisted, After(LogoutDelayMs, Navigate("/login")), After(LogoutDelayMs, ToastSuccess("Logout Successful!"))]

  /** A sign-out answer that clears the session: a response with a truthy
      (non-zero) `status`; `None` stands for an `undefined` response. */
  predicate ClearsSession(response: Option<Response<JsValue>>) {
    response.Some? && response.value.status != 0
  }

  /** The bar's state: the path of the active link. */
  class HeaderState {
    var activePath: string

    constructor()
      ensures activePath == "/"
    {
      activePath := "/";
    }

    /** The effect on `location`: the active path follows the location. */
    method OnLocationChange(pathname: string)
      modifies this
      ensures activePath == pathname
    {
      activePath := pathname;
    }

    /** `isActive(path)`. */
    function IsActive(path: string): (active: bool)
      reads this
      ensures active <==> path == activePath
    {
      activePath == path
    }

    /** `handleLogout` with the settled request. Without a `catch`, a
        rejected request escapes the handler and changes nothing; a
        clearing answer signs out, purges and schedules the redirect; any
        other answer does nothing. */
    method HandleLogout(store: UserSlice.UserState, outcome: Outcome<Option<Response<JsValue>>>)
      returns (escaped: Option<Thrown>, effects: seq<Effect>)
      modifies store
      ensures outcome.Rejected? ==> escaped == Some(outcome.error) && store.userData == old(store.userData) && effects == []
      ensures outcome.Resolved? ==> escaped == None
      ensures outcome.Resolved? && ClearsSession(outcome.value) ==> store.userData == None && effects == LogoutEffects
      ensures outcome.Resolved? && !ClearsSession(outcome.value) ==> store.userData == old(store.userData) && effects == []
    {
      escaped := None;
      effects := [];
      match outcome {
        case Rejected(e) =>
          escaped := Some(e);
        case Resolved(response) =>
          if ClearsSession(response) {
            store.RemoveUserInfo();
            effects := LogoutEffects;
          }
      }
    }
  }

  /** Exactly one link is active at a time among links with distinct
      paths. */
  lemma OneActiveLink(h: HeaderState, p: string, q: string)
    requires p != q
    ensures !(h.IsActive(p) && h.IsActive(q))
  {
  }
}
