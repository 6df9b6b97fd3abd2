/**
 * The session slice src/redux/userSlice.ts: the signed-in user, or `null`,
 * and its two reducers. The store persists this one field.
 */
module UserSlice {
  import opened Js
  import opened Blogs

  /** The slice's actions. */
  datatype Action = SetUserInfo(payload: Option<User>) | RemoveUserInfo

  /** The slice's reducer: the value `userData` holds after an action. */
  function Next(userData: Option<User>, action: Action): (next: Option<User>)
    ensures action.SetUserInfo? ==> next == action.payload
    ensures action.RemoveUserInfo? ==> next == None
  {
    match action
    case SetUserInfo(p) => p
    case RemoveUserInfo => None
  }

  /** Every action overwrites the session: the value before does not matter. */
  lemma NextForgetsPrevious(a: Option<User>, b: Option<User>, action: Action)
    ensures Next(a, action) == Next(b, action)
  {
  }

  /** Signing out twice is signing out once. */
  lemma RemoveIdempotent(userData: Option<User>)
    ensures Next(Next(userData, RemoveUserInfo), RemoveUserInfo) == Next(userData, RemoveUserInfo)
  {
  }

  /** Setting the user to `null` is signing out. */
  lemma SetNullIsRemove(userData: Option<User>)
    ensures Next(userData, SetUserInfo(None)) == Next(userData, RemoveUserInfo)
  {
  }

  /** The user read back after `setUserInfo` is the one written. */
  lemma SetThenRead(userData: Option<User>, u: User)
    ensures Next(userData, SetUserInfo(Some(u))) == Some(u)
  {
  }

  /** The slice's state, updated in place by its reducers. */
  class UserState {
    var userData: Option<User>

    /** `initialState`: nobody is signed in. */
    constructor()
      ensures userData == None
    {
      userData := None;
    }

    /** `setUserInfo(payload)`. */
    method SetUserInfo(payload: Option<User>)
      modifies this
      ensures userData == Next(old(userData), Action.SetUserInfo(payload))
      ensures userData == payload
    {
      userData := payload;
    }

    /** `removeUserInfo()`. */
    method RemoveUserInfo()
      modifies this
      ensures userData == Next(old(userData), Action.RemoveUserInfo)
      ensures userData == None
    {
      userData := None;
    }
  }
}
