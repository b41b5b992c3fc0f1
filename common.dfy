/** Values shared by the server and client models: optional values, identities,
    the HTTP status codes and the response messages the services return. */
module Common {

  /** A value that may be missing (the source's `null` results). */
  datatype Option<T> = None | Some(value: T)

  // ---------------------------------------------------------------------------------
  // The first-match search behind `findOne`, `findById` and `updateOne`: records keep the
  // collection's natural order.

  /** The index of the first element, in order, that satisfies `p`. */
  function FirstIndex<T>(s: seq<T>, p: T -> bool): (r: Option<nat>)
    ensures r.None? <==> forall k :: 0 <= k < |s| ==> !p(s[k])
    ensures r.Some? ==> r.value < |s| && p(s[r.value])
    ensures r.Some? ==> forall k :: 0 <= k < r.value ==> !p(s[k])
  {
    if s == [] then None
    else if p(s[0]) then Some(0)
    else match FirstIndex(s[1..], p)
      case None => None
      case Some(k) => Some(k + 1)
  }

  /** `findOne(filter)` and `findById(id)`: the first record in natural order that matches. */
  function FindFirst<T>(s: seq<T>, p: T -> bool): (r: Option<T>)
    ensures r.None? <==> forall x :: x in s ==> !p(x)
    ensures r.Some? ==> r.value in s && p(r.value)
  {
    match FirstIndex(s, p)
    case None => None
    case Some(k) => Some(s[k])
  }

  /** Database object identities (Mongo ObjectIds) are opaque; naturals stand for them. */
  type UserId = nat
  type ArticleId = nat

  /** The status codes of server/src/constants/status.code. */
  const OK: int := 200
  const CREATED: int := 201
  const BAD_REQUEST: int := 400
  const UNAUTHORIZED: int := 401
  const NOT_FOUND: int := 404
  const CONFLICT: int := 409

  /** A service answer: the status code and the message shown to the caller.
      Payloads beyond these two are carried separately by the operations that have them. */
  datatype Response = Response(statusCode: int, message: string)

  // Messages of server/src/constants/messages.ts
  const ACCOUNT_EXISTS := "Account already exists"
  const ACCOUNT_DOES_NOT_EXISTS := "Account doesnot exist"
  const SIGN_UP_SUCCESS := "Account created successfully"
  const SIGN_IN_SUCCESS := "Signed in successfully"
  const INVALID_CREDENTIALS := "Invalid credentials"
  const PROFILE_FETCH_FAILURE := "Failed to fetch profile details"
  const ARTICLE_FETCHING_FAILURE := "Failed to fetch article"
  const ARTICLE_LIKED := "Article liked successfully"
  const ARTICLE_DISLIKED := "Article disliked successfully"
  const ARTICLE_ALREADY_LIKED := "Article already liked article"
  const ARTICLE_ALREADY_DISLIKED := "Article already disliked article"
  const PASSWORD_INVALID := "Invalid current password"
  const PASSWORD_UPDATE_SUCCESS := "Password changed successfully"
  const PASSWORD_UPDATE_FAILURE := "Failed to update password"
}
