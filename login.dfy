/**
 * The submit handler of src/pages/Login.tsx: a successful answer toasts,
 * and when it carries the user, writes the session and goes home.
 */
module Login {
  import opened Js
  import opened Blogs
  import ErrorHandler
  import UserSlice

  /** The login answer's JSON body: `status` read as a condition and the
      user in `data`, where `None` stands for a falsy `data`. */
  datatype LoginReply = LoginReply(status: JsValue, data: Option<User>)

  const Welcome := "Successfully Logged into litStudio"

  /** The user that a settled login writes into the session, if any: the
      answer's `data`, when its `status` is truthy. */
  function SignedIn(outcome: Outcome<Response<LoginReply>>): (u: Option<User>)
    ensures u.Some? <==> outcome.Resolved? && outcome.value.data.Body? &&
                         Truthy(outcome.value.data.body.status) && outcome.value.data.body.data.Some?
    ensures u.Some? ==> u == outcome.value.data.body.data
  {
    match outcome
    case Rejected(_) => None
    case Resolved(response) =>
      if response.data.Body? && Truthy(response.data.body.status) then response.data.body.data else None
  }

  /** The visible effects of `handleSubmit` for a settled login. */
  function LoginEffects(outcome: Outcome<Response<LoginReply>>): (effects: seq<Effect>)
    ensures outcome.Rejected? ==> effects == [ToastError(ErrorHandler.HandleError(outcome.error))]
    ensures outcome.Resolved? && outcome.value.data.NoBody? ==>
              effects == [ToastError(ErrorHandler.HandleError(TypeErrorReading("status")))]
    ensures outcome.Resolved? && outcome.value.data.Body? && !Truthy(outcome.value.data.body.status) ==>
              effects == []
    ensures outcome.Resolved? && outcome.value.data.Body? && Truthy(outcome.value.data.body.status) ==>
              effects == [ToastSuccess(Welcome)] + (if SignedIn(outcome).Some? then [Navigate("/")] else [])
  {
    match outcome
    case Rejected(e) => [ToastError(ErrorHandler.HandleError(e))]
    case Resolved(response) =>
      if response.data.NoBody? then [ToastError(ErrorHandler.HandleError(TypeErrorReading("status")))]
      else if !Truthy(response.data.body.status) then []
      else if response.data.body.data.Some? then [ToastSuccess(Welcome), Navigate("/")]
      else [ToastSuccess(Welcome)]
  }

  /** The home page is opened exactly when a user is signed in, and then
      as the last step. */
  lemma NavigatesOnlyWhenSignedIn(outcome: Outcome<Response<LoginReply>>)
    ensures Navigate("/") in LoginEffects(outcome) <==> SignedIn(outcome).Some?
    ensures SignedIn(outcome).Some? ==> LoginEffects(outcome)[|LoginEffects(outcome)| - 1] == Navigate("/")
  {
  }

  /** A welcome toast without a user in the answer changes nothing else. */
  lemma WelcomeWithoutUser(outcome: Outcome<Response<LoginReply>>)
    requires outcome.Resolved? && outcome.value.data.Body?
    requires Truthy(outcome.value.data.body.status) && outcome.value.data.body.data.None?
    ensures LoginEffects(outcome) == [ToastSuccess(Welcome)] && SignedIn(outcome).None?
  {
  }

  /** `handleSubmit` with the settled request: the session is overwritten
      only by a signed-in user, and is untouched on every other path. */
  method HandleSubmit(store: UserSlice.UserState, outcome: Outcome<Response<LoginReply>>)
    returns (effects: seq<Effect>)
    modifies store
    ensures store.userData == (if SignedIn(outcome).Some? then SignedIn(outcome) else old(store.userData))
    ensures effects == LoginEffects(outcome)
  {
    effects := [];
    match outcome {
      case Resolved(response) =>
        if response.data.NoBody? {
          effects := [ToastError(ErrorHandler.HandleError(TypeErrorReading("status")))];
        } else if Truthy(response.data.body.status) {
          effects := effects + [ToastSuccess(Welcome)];
          if response.data.body.data.Some? {
            store.SetUserInfo(response.data.body.data);
            effects := effects + [Navigate("/")];
          }
        }
      case Rejected(e) =>
        effects := [ToastError(ErrorHandler.HandleError(e))];
    }
  }
}
