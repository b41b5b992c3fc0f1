/** The account decisions of server/src/services/user/user.service.ts: duplicate check on
    sign-up, email-or-phone lookup on sign-in, profile lookup and password change. Password
    hashing (bcrypt) is abstract: `hash` gives the stored form of a password and `matches`
    is bcrypt's comparison of a plain password with a stored one. */
module UserSvc {
  import opened Common
  import opened UserRepo
  import RegexCheck

  /** The lookup `authenticateUser` makes (user.service.ts:57-62): by email when the login
      id looks like an email, otherwise by phone. */
  function LoginLookup(users: seq<User>, loginId: string): (r: Option<User>)
    ensures r.Some? ==> r.value in users
    ensures r.Some? && RegexCheck.IsEmail(loginId) ==> r.value.email == loginId
    ensures r.Some? && !RegexCheck.IsEmail(loginId) ==> r.value.phone == loginId
    ensures r.None? <==>
              forall u :: u in users ==> if RegexCheck.IsEmail(loginId) then u.email != loginId else u.phone != loginId
  {
    if RegexCheck.IsEmail(loginId) then FindUserByEmail(users, loginId) else FindUserByPhone(users, loginId)
  }

  /** `createUser`'s duplicate test (user.service.ts:26-28): the email or the phone is taken. */
  predicate AccountExists(users: seq<User>, data: SignUpData) {
    FindUserByEmail(users, data.email).Some? || FindUserByPhone(users, data.phone).Some?
  }

  class UserService {
    const repo: UserRepository
    const hash: string -> string
    const matches: (string, string) -> bool

    constructor (repo: UserRepository, hash: string -> string, matches: (string, string) -> bool)
      ensures this.repo == repo && this.hash == hash && this.matches == matches
    {
      this.repo := repo;
      this.hash := hash;
      this.matches := matches;
    }

    /** `createUser` (user.service.ts:24-52): 409 and no insertion when the email or the
        phone is registered; otherwise one new record holding the hash of the password, 201. */
    method CreateUser(data: SignUpData) returns (res: Response)
      requires repo.Valid()
      modifies repo
      ensures repo.Valid()
      ensures AccountExists(old(repo.users), data) ==>
                res == Response(CONFLICT, ACCOUNT_EXISTS) && repo.users == old(repo.users)
      ensures !AccountExists(old(repo.users), data) ==>
                && res == Response(CREATED, SIGN_UP_SUCCESS)
                && |repo.users| == |old(repo.users)| + 1
                && repo.users[..|old(repo.users)|] == old(repo.users)
                && var u := repo.users[|old(repo.users)|];
                   && FindUserById(old(repo.users), u.id).None?
                   && u == NewUser(u.id, data.(password := hash(data.password)))
    {
      var taken := FindUserByEmail(repo.users, data.email).Some?
                   || FindUserByPhone(repo.users, data.phone).Some?;
      if !taken {
        var stored := data.(password := hash(data.password));
        var id := repo.InsertUser(stored);
        return Response(CREATED, SIGN_UP_SUCCESS);
      }
      return Response(CONFLICT, ACCOUNT_EXISTS);
    }

    /** `authenticateUser` (user.service.ts:55-97): 404 for an unknown account, 401 when the
        password does not match, otherwise 200 with the found account's id. Token issuing is
        not part of this model. */
    method AuthenticateUser(loginId: string, password: string) returns (res: Response, id: Option<UserId>)
      ensures var found := LoginLookup(repo.users, loginId);
              && (found.None? ==> res == Response(NOT_FOUND, ACCOUNT_DOES_NOT_EXISTS) && id.None?)
              && (found.Some? && !matches(password, found.value.password) ==>
                    res == Response(UNAUTHORIZED, INVALID_CREDENTIALS) && id.None?)
              && (found.Some? && matches(password, found.value.password) ==>
                    res == Response(OK, SIGN_IN_SUCCESS) && id == Some(found.value.id))
    {
      var inputIsEmail := RegexCheck.IsEmail(loginId);
      var found := if inputIsEmail then FindUserByEmail(repo.users, loginId)
                    else FindUserByPhone(repo.users, loginId);
      if found.None? {
        return Response(NOT_FOUND, ACCOUNT_DOES_NOT_EXISTS), None;
      }
      var passwordStatus := matches(password, found.value.password);
      if !passwordStatus {
        return Response(UNAUTHORIZED, INVALID_CREDENTIALS), None;
      }
      return Response(OK, SIGN_IN_SUCCESS), Some(found.value.id);
    }

    /** `getUserData` (user.service.ts:100-112): the account with that id, or null. */
    function GetUserData(id: UserId): (r: Option<User>)
      reads this, repo
      ensures r.None? <==> forall u :: u in repo.users ==> u.id != id
      ensures r.Some? ==> r.value in repo.users && r.value.id == id
    {
      FindUserById(repo.users, id)
    }

    /** `changePassword` (user.service.ts:124-164): 404 for an unknown id and 401 for a wrong
        current password, changing nothing; otherwise the stored password becomes the hash
        of the new one, and the answer is 200 if that changed the record, else 400. */
    method ChangePassword(id: UserId, currentPassword: string, newPassword: string) returns (res: Response)
      requires repo.Valid()
      modifies repo
      ensures repo.Valid()
      ensures var k := FirstIndex(old(repo.users), (u: User) => u.id == id);
              && (k.None? ==>
                    res == Response(NOT_FOUND, PROFILE_FETCH_FAILURE) && repo.users == old(repo.users))
              && (k.Some? && !matches(currentPassword, old(repo.users)[k.value].password) ==>
                    res == Response(UNAUTHORIZED, PASSWORD_INVALID) && repo.users == old(repo.users))
              && (k.Some? && matches(currentPassword, old(repo.users)[k.value].password) ==>
                    var found := old(repo.users)[k.value];
                    && repo.users == old(repo.users)[k.value := found.(password := hash(newPassword))]
                    && res == if found.password != hash(newPassword)
                              then Response(OK, PASSWORD_UPDATE_SUCCESS)
                              else Response(BAD_REQUEST, PASSWORD_UPDATE_FAILURE))
    {
      var found := FindUserById(repo.users, id);
      if found.None? {
        return Response(NOT_FOUND, PROFILE_FETCH_FAILURE);
      }
      var passwordStatus := matches(currentPassword, found.value.password);
      if !passwordStatus {
        return Response(UNAUTHORIZED, PASSWORD_INVALID);
      }
      var hashedPassword := hash(newPassword);
      var updateStatus := repo.UpdatePassword(id, hashedPassword);
      if updateStatus {
        res := Response(OK, PASSWORD_UPDATE_SUCCESS);
      } else {
        res := Response(BAD_REQUEST, PASSWORD_UPDATE_FAILURE);
      }
    }
  }
}
