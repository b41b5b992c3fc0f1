/** The client session of client/src/Redux/Slices/UserSlice.ts: the signed-in account's id
    (or none) and the login id it was typed with. */
module UserSlice {
  import opened Common

  /** A session value: the state of the slice and the payload of `setUser`. */
  datatype UserState = UserState(id: Option<string>, loginId: string)

  /** `initialState` (UserSlice.ts:9-12): nobody signed in. */
  const InitialState := UserState(None, "")

  /** The two actions the slice handles. */
  datatype UserAction = SetUser(payload: UserState) | ClearUser

  /** The reducer as a function of the prior state: `setUser` overwrites both fields with
      the payload whatever they held; `clearUser` returns to the initial state. */
  function Reduce(s: UserState, action: UserAction): (r: UserState)
    ensures action.SetUser? ==> r.id == action.payload.id && r.loginId == action.payload.loginId
    ensures action.ClearUser? ==> r.id.None? && r.loginId == ""
  {
    match action
    case SetUser(p) => UserState(p.id, p.loginId)
    case ClearUser => InitialState
  }

  /** Applies actions in order, as the store does. */
  function ReduceAll(s: UserState, actions: seq<UserAction>): UserState
    decreases |actions|
  {
    if actions == [] then s else ReduceAll(Reduce(s, actions[0]), actions[1..])
  }

  /** Whatever happened before, a session that ends with `clearUser` is the initial one. */
  lemma {:induction false} EndsClearedIsInitial(s: UserState, actions: seq<UserAction>)
    requires actions != [] && actions[|actions| - 1] == ClearUser
    ensures ReduceAll(s, actions) == InitialState
    decreases |actions|
  {
    if |actions| > 1 {
      EndsClearedIsInitial(Reduce(s, actions[0]), actions[1..]);
    }
  }

  /** The state depends only on the last `setUser` or `clearUser`. */
  lemma {:induction false} LastActionDecides(s: UserState, actions: seq<UserAction>)
    requires actions != []
    ensures ReduceAll(s, actions) == Reduce(s, actions[|actions| - 1])
    decreases |actions|
  {
    if |actions| > 1 {
      LastActionDecides(Reduce(s, actions[0]), actions[1..]);
    }
  }

  /** `clearUser` is idempotent, and `setUser` then `clearUser` equals `clearUser` alone. */
  lemma ClearAbsorbs(s: UserState, payload: UserState)
    ensures ReduceAll(s, [ClearUser, ClearUser]) == ReduceAll(s, [ClearUser])
    ensures ReduceAll(s, [SetUser(payload), ClearUser]) == ReduceAll(s, [ClearUser])
  {
    LastActionDecides(s, [ClearUser, ClearUser]);
    LastActionDecides(s, [SetUser(payload), ClearUser]);
    LastActionDecides(s, [ClearUser]);
  }

  /** The slice object whose two fields the reducers assign in place. */
  class Session {
    var id: Option<string>
    var loginId: string

    function State(): UserState
      reads this
    {
      UserState(id, loginId)
    }

    constructor ()
      ensures State() == InitialState
    {
      id := None;
      loginId := "";
    }

    /** `setUser` (UserSlice.ts:18-21). */
    method SetUser(payload: UserState)
      modifies this
      ensures State() == Reduce(old(State()), UserAction.SetUser(payload))
      ensures State() == payload
    {
      id := payload.id;
      loginId := payload.loginId;
    }

    /** `clearUser` (UserSlice.ts:22-25). */
    method ClearUser()
      modifies this
      ensures State() == Reduce(old(State()), UserAction.ClearUser)
      ensures State() == InitialState
    {
      id := None;
      loginId := "";
    }
  }
}
