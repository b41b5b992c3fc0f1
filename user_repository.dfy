/** The user collection behind server/src/repository/user/user.repository.ts: the records,
    the `findOne` lookups the services use, insertion and the password update. */
module UserRepo {
  import opened Common

  /** A stored account (server/src/models/user.model.ts). The password is the stored hash.
      The date of birth is an opaque timestamp. */
  datatype User = User(
    id: UserId,
    firstName: string,
    lastName: string,
    email: string,
    phone: string,
    password: string,
    dateOfBirth: int,
    preference: seq<string>)

  /** The sign-up payload (ISignUp). */
  datatype SignUpData = SignUpData(
    firstName: string,
    lastName: string,
    email: string,
    phone: string,
    password: string,
    dateOfBirth: int,
    interests: seq<string>)

  /** `findUserByEmail` (user.repository.ts:31-39). */
  function FindUserByEmail(users: seq<User>, email: string): (r: Option<User>)
    ensures r.None? <==> forall u :: u in users ==> u.email != email
    ensures r.Some? ==> r.value in users && r.value.email == email
  {
    FindFirst(users, (u: User) => u.email == email)
  }

  /** `findUserByPhone` (user.repository.ts:42-50). */
  function FindUserByPhone(users: seq<User>, phone: string): (r: Option<User>)
    ensures r.None? <==> forall u :: u in users ==> u.phone != phone
    ensures r.Some? ==> r.value in users && r.value.phone == phone
  {
    FindFirst(users, (u: User) => u.phone == phone)
  }

  /** `getUserDataWithId` (user.repository.ts:53-62), a `findById`. */
  function FindUserById(users: seq<User>, id: UserId): (r: Option<User>)
    ensures r.None? <==> forall u :: u in users ==> u.id != id
    ensures r.Some? ==> r.value in users && r.value.id == id
  {
    FindFirst(users, (u: User) => u.id == id)
  }

  /** The record `insertUser` (user.repository.ts:15-23) writes: `interests` become `preference`. */
  function NewUser(id: UserId, data: SignUpData): (u: User)
    ensures u.id == id && u.email == data.email && u.phone == data.phone
    ensures u.password == data.password && u.preference == data.interests
    ensures u.firstName == data.firstName && u.lastName == data.lastName
    ensures u.dateOfBirth == data.dateOfBirth
  {
    User(id, data.firstName, data.lastName, data.email, data.phone, data.password,
         data.dateOfBirth, data.interests)
  }

  class UserRepository {
    var users: seq<User>
    var nextId: UserId

    ghost predicate Valid()
      reads this
    {
      && (forall k :: 0 <= k < |users| ==> users[k].id < nextId)
      && (forall i, j :: 0 <= i < j < |users| ==> users[i].id != users[j].id)
    }

    constructor ()
      ensures Valid() && users == []
    {
      users := [];
      nextId := 0;
    }

    /** `insertUser` (user.repository.ts:13-28): appends one record with a fresh id. */
    method InsertUser(data: SignUpData) returns (id: UserId)
      requires Valid()
      modifies this
      ensures Valid()
      ensures FindUserById(old(users), id).None?
      ensures users == old(users) + [NewUser(id, data)]
    {
      id := nextId;
      users := users + [NewUser(id, data)];
      nextId := nextId + 1;
    }

    /** `updatePassword` (server/dist/repository/user/user.repository.js:87-97): `$set` the
        password of the record with that id; true only when the stored value changed. */
    method UpdatePassword(id: UserId, password: string) returns (modified: bool)
      requires Valid()
      modifies this
      ensures Valid() && nextId == old(nextId)
      ensures var k := FirstIndex(old(users), (u: User) => u.id == id);
              && (k.None? ==> users == old(users) && !modified)
              && (k.Some? ==> users == old(users)[k.value := old(users)[k.value].(password := password)]
                              && (modified <==> old(users)[k.value].password != password))
    {
      match FirstIndex(users, (u: User) => u.id == id)
      case None =>
        modified := false;
      case Some(k) =>
        modified := users[k].password != password;
        if !modified {
          assert users[k := users[k].(password := password)] == users;
        }
        users := users[k := users[k].(password := password)];
    }
  }
}
