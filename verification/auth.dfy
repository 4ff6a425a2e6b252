/** The authentication reducer (`src/Context/AuthReducer.ts`): a pure state
    machine over the signed-in user, a fetching flag and an error flag. */
module Auth {
  import opened Wrappers

  datatype UserRecord = UserRecord(id: string, username: string, email: string, token: Option<string>)

  /** The reducer's user, which may be null. */
  type AuthUser = Option<UserRecord>

  datatype AuthState = AuthState(user: AuthUser, isFetching: bool, error: bool)

  /** The four declared actions, and `Unknown` for anything else dispatched at
      run time (which the reducer's default branch handles). The failure
      payload is never read, so it is not carried. */
  datatype AuthAction =
    | LoginStart
    | LoginSuccess(payload: AuthUser)
    | LoginFailure
    | Logout
    | Unknown(kind: string)

  /** The provider's starting state: the user restored from storage, neither
      fetching nor failed. */
  function Initial(stored: AuthUser): AuthState {
    AuthState(stored, false, false)
  }

  function Reduce(s: AuthState, a: AuthAction): (r: AuthState)
    ensures a == LoginStart ==> r == AuthState(None, true, false)
    ensures a.LoginSuccess? ==> r == AuthState(a.payload, false, false)
    ensures a == LoginFailure ==> r == AuthState(None, false, true)
    ensures a == Logout ==> r == AuthState(None, false, false)
    ensures a.Unknown? ==> r == s
    ensures r.error ==> a == LoginFailure || (a.Unknown? && s.error)
    ensures r.isFetching ==> a == LoginStart || (a.Unknown? && s.isFetching)
  {
    match a
    case LoginStart => AuthState(None, true, false)
    case LoginSuccess(payload) => AuthState(payload, false, false)
    case LoginFailure => AuthState(None, false, true)
    case Logout => AuthState(None, false, false)
    case Unknown(_) => s
  }

  /** Dispatching a sequence of actions in order. */
  function Dispatch(s: AuthState, actions: seq<AuthAction>): AuthState
    decreases |actions|
  {
    if |actions| == 0 then s else Dispatch(Reduce(s, actions[0]), actions[1..])
  }

  /** The last declared action of a sequence, skipping unknown ones. */
  function LastKnown(actions: seq<AuthAction>): (r: Option<AuthAction>)
    ensures r.Some? ==> !r.value.Unknown? && r.value in actions
    ensures r.Some? ==>
      exists k :: 0 <= k < |actions| && actions[k] == r.value && forall j :: k < j < |actions| ==> actions[j].Unknown?
    ensures r.None? <==> forall i :: 0 <= i < |actions| ==> actions[i].Unknown?
    decreases |actions|
  {
    if |actions| == 0 then None
    else if actions[|actions| - 1].Unknown? then LastKnown(actions[..|actions| - 1])
    else Some(actions[|actions| - 1])
  }

  /** For a declared action the result does not depend on the prior state. */
  lemma KnownActionForgetsState(s1: AuthState, s2: AuthState, a: AuthAction)
    requires !a.Unknown?
    ensures Reduce(s1, a) == Reduce(s2, a)
  {
  }

  lemma {:induction false} DispatchAppend(s: AuthState, actions: seq<AuthAction>, a: AuthAction)
    ensures Dispatch(s, actions + [a]) == Reduce(Dispatch(s, actions), a)
    decreases |actions|
  {
    if |actions| == 0 {
      assert actions + [a] == [a];
    } else {
      assert (actions + [a])[1..] == actions[1..] + [a];
      DispatchAppend(Reduce(s, actions[0]), actions[1..], a);
    }
  }

  /** A whole history collapses to its last declared action: the state after
      dispatching is what that one action yields, or the starting state when
      every action was unknown. */
  lemma {:induction false} DispatchIsLastKnown(s: AuthState, actions: seq<AuthAction>)
    ensures Dispatch(s, actions) ==
      match LastKnown(actions)
      case None => s
      case Some(a) => Reduce(s, a)
    decreases |actions|
  {
    if |actions| > 0 {
      var init, last := actions[..|actions| - 1], actions[|actions| - 1];
      assert actions == init + [last];
      DispatchAppend(s, init, last);
      DispatchIsLastKnown(s, init);
      if !last.Unknown? {
        KnownActionForgetsState(Dispatch(s, init), s, last);
      }
    }
  }

  /** From the provider's starting state the error flag is up exactly when the
      last declared action was a login failure, and the fetching flag exactly
      when it was a login start. */
  lemma FlagsFollowLastAction(stored: AuthUser, actions: seq<AuthAction>)
    ensures Dispatch(Initial(stored), actions).error <==> LastKnown(actions) == Some(LoginFailure)
    ensures Dispatch(Initial(stored), actions).isFetching <==> LastKnown(actions) == Some(LoginStart)
    ensures Dispatch(Initial(stored), actions).user.Some? ==>
      LastKnown(actions).None? || LastKnown(actions).value.LoginSuccess?
  {
    DispatchIsLastKnown(Initial(stored), actions);
  }
}
