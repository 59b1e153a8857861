/** UserAuthenticationService: the object that holds the two secrets and the two
    store collaborators, and runs login, token re-authentication and revocation
    against them one store call at a time. */
module Service {
  import opened Wrappers
  import opened Calendar
  import opened Models
  import opened Tokens
  import opened Repositories
  import Protocol

  class UserAuthenticationService {
    const keys: Keys
    const authTokenRepository: AuthTokenRepository
    const userRepository: UserRepository

    /** Reads the server salt and the token secret (as UTF-8 bytes) from the configuration. */
    constructor (config: ApiConfig, crypto: Crypto, authTokenRepository: AuthTokenRepository, userRepository: UserRepository)
      ensures keys == Keys(config.passwordServerSalt, crypto.utf8(config.authTokenSecret), crypto)
      ensures this.authTokenRepository == authTokenRepository && this.userRepository == userRepository
    {
      keys := Keys(config.passwordServerSalt, crypto.utf8(config.authTokenSecret), crypto);
      this.authTokenRepository := authTokenRepository;
      this.userRepository := userRepository;
    }

    ghost predicate Valid()
      reads userRepository, authTokenRepository
    {
      userRepository.Valid() && authTokenRepository.Valid()
    }

    /** What the two stores hold now. */
    ghost function Snapshot(): (s: Protocol.Stores)
      reads userRepository, authTokenRepository
      ensures Valid() ==> Protocol.StoresValid(s)
    {
      Protocol.Stores(userRepository.users, userRepository.byName, authTokenRepository.tokens)
    }

    /** AuthenticateAsync: log in by name and password. */
    method Authenticate(name: string, password: string, newId: string, now: DateTime)
      returns (user: Option<User>, authToken: Option<AuthToken>)
      requires Valid()
      modifies userRepository, authTokenRepository
      ensures Valid()
      ensures Protocol.LoginOutcome(user, authToken, Snapshot())
           == Protocol.Login(keys, old(Snapshot()), name, password, newId, now)
    {
      var found := userRepository.GetUserFromName(name);
      if found.Some? {
        var givenHash := HashPassword(keys, password, found.value.passwordSalt);
        if givenHash == found.value.passwordHash {
          var t := CreateToken(keys, found.value.id, newId, now);
          authTokenRepository.Insert(t);
          var u := found.value.(lastAuthenticated := t.lastAccessed);
          userRepository.UpdateUser(u);
          return Some(u), Some(t);
        }
      }
      return None, None;
    }

    /** AuthenticateWithTokenAsync: re-authenticate with a bearer value. */
    method AuthenticateWithToken(token: string, nowCheck: DateTime, nowTouch: DateTime)
      returns (result: Checked<Option<User>>)
      requires Valid()
      modifies userRepository, authTokenRepository
      ensures Valid()
      ensures Protocol.TokenOutcome(result, Snapshot())
           == Protocol.AuthenticateWithToken(keys, old(Snapshot()), token, nowCheck, nowTouch)
    {
      var found := authTokenRepository.GetFromToken(token);
      if found.Some? {
        if ValidateToken(keys, found.value) {
          var expired := HasTokenExpired(found.value, nowCheck);
          if expired.ArgumentOutOfRange? {
            return ArgumentOutOfRange;
          }
          if !expired.value {
            var touched := found.value.(lastAccessed := nowTouch);
            authTokenRepository.Update(touched);
            var owner := userRepository.GetUserFromId(touched.userId);
            if owner.None? {
              authTokenRepository.Delete(token);
            } else {
              var u := owner.value.(lastAuthenticated := touched.lastAccessed);
              userRepository.UpdateUser(u);
              return Done(Some(u));
            }
          }
        }
      }
      return Done(None);
    }

    /** RevokeTokenAsync. */
    method RevokeToken(token: string)
      requires Valid()
      modifies authTokenRepository
      ensures Valid()
      ensures Snapshot() == Protocol.RevokeToken(old(Snapshot()), token)
    {
      authTokenRepository.Delete(token);
    }
  }
}
