/** The two storage collaborators the service is given, as in-memory stores. */
module Repositories {
  import opened Wrappers
  import opened Models

  /** Users are keyed by id, and every login name leads to exactly one user. */
  ghost predicate UsersIndexed(users: map<string, User>, byName: map<string, string>)
  {
    && (forall id :: id in users ==>
          users[id].id == id && users[id].name in byName && byName[users[id].name] == id)
    && (forall name :: name in byName ==> byName[name] in users && users[byName[name]].name == name)
  }

  /** Token records are keyed by their bearer value. */
  ghost predicate TokensKeyed(tokens: map<string, AuthToken>)
  {
    forall value :: value in tokens ==> tokens[value].token == value
  }

  /** The user with login name `name`, if any. */
  function UserNamed(users: map<string, User>, byName: map<string, string>, name: string): (r: Option<User>)
    ensures UsersIndexed(users, byName) ==>
      (r.Some? <==> exists id :: id in users && users[id].name == name)
    ensures UsersIndexed(users, byName) && r.Some? ==>
      r.value.name == name && r.value.id in users && users[r.value.id] == r.value
  {
    if name in byName && byName[name] in users then Some(users[byName[name]]) else None
  }

  function UserWithId(users: map<string, User>, id: string): Option<User>
  {
    if id in users then Some(users[id]) else None
  }

  function TokenWithValue(tokens: map<string, AuthToken>, value: string): Option<AuthToken>
  {
    if value in tokens then Some(tokens[value]) else None
  }

  class UserRepository {
    var users: map<string, User>
    var byName: map<string, string>

    ghost predicate Valid()
      reads this
    {
      UsersIndexed(users, byName)
    }

    constructor (users: map<string, User>, byName: map<string, string>)
      requires UsersIndexed(users, byName)
      ensures Valid() && this.users == users && this.byName == byName
    {
      this.users := users;
      this.byName := byName;
    }

    /** GetUserFromNameAsync. */
    method GetUserFromName(name: string) returns (user: Option<User>)
      requires Valid()
      ensures user.Some? <==> exists id :: id in users && users[id].name == name
      ensures user.Some? ==> user.value.name == name && user.value.id in users && users[user.value.id] == user.value
      ensures user == UserNamed(users, byName, name)
    {
      if name in byName {
        user := Some(users[byName[name]]);
      } else {
        user := None;
      }
    }

    /** GetUserFromIdAsync. */
    method GetUserFromId(id: string) returns (user: Option<User>)
      requires Valid()
      ensures user.Some? <==> id in users
      ensures user.Some? ==> user.value == users[id] && user.value.id == id
    {
      if id in users {
        user := Some(users[id]);
      } else {
        user := None;
      }
    }

    /** UpdateUserAsync: overwrites the stored record of an existing user; login names are not changed here. */
    method UpdateUser(user: User)
      requires Valid() && user.id in users && users[user.id].name == user.name
      modifies this
      ensures Valid()
      ensures users == old(users)[user.id := user] && byName == old(byName)
    {
      users := users[user.id := user];
    }
  }

  class AuthTokenRepository {
    var tokens: map<string, AuthToken>

    ghost predicate Valid()
      reads this
    {
      TokensKeyed(tokens)
    }

    constructor (tokens: map<string, AuthToken>)
      requires TokensKeyed(tokens)
      ensures Valid() && this.tokens == tokens
    {
      this.tokens := tokens;
    }

    /** InsertAsync. */
    method Insert(authToken: AuthToken)
      requires Valid()
      modifies this
      ensures Valid() && tokens == old(tokens)[authToken.token := authToken]
    {
      tokens := tokens[authToken.token := authToken];
    }

    /** GetFromTokenAsync. */
    method GetFromToken(value: string) returns (authToken: Option<AuthToken>)
      requires Valid()
      ensures authToken.Some? <==> value in tokens
      ensures authToken.Some? ==> authToken.value == tokens[value] && authToken.value.token == value
    {
      if value in tokens {
        authToken := Some(tokens[value]);
      } else {
        authToken := None;
      }
    }

    /** UpdateAsync: writes the record back under its value. */
    method Update(authToken: AuthToken)
      requires Valid()
      modifies this
      ensures Valid() && tokens == old(tokens)[authToken.token := authToken]
    {
      tokens := tokens[authToken.token := authToken];
    }

    /** DeleteAsync: removes the record with that value, if there is one. */
    method Delete(value: string)
      requires Valid()
      modifies this
      ensures Valid() && tokens == old(tokens) - {value}
    {
      tokens := tokens - {value};
    }
  }
}
