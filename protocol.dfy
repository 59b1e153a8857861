/** The three store-backed operations of UserAuthenticationService as functions
    from a snapshot of both stores to the caller's result and the next snapshot,
    and the properties the service promises of them. */
module Protocol {
  import opened Wrappers
  import opened Calendar
  import opened Models
  import opened Tokens
  import opened Repositories

  /** The contents of the user store and the token store. */
  datatype Stores = Stores(users: map<string, User>, byName: map<string, string>, tokens: map<string, AuthToken>)

  ghost predicate StoresValid(s: Stores)
  {
    UsersIndexed(s.users, s.byName) && TokensKeyed(s.tokens)
  }

  /** There is a user called `name` and `password` hashes to its stored digest. */
  predicate PasswordMatches(k: Keys, s: Stores, name: string, password: string)
  {
    var found := UserNamed(s.users, s.byName, name);
    found.Some? && HashPassword(k, password, found.value.passwordSalt) == found.value.passwordHash
  }

  datatype LoginOutcome = LoginOutcome(user: Option<User>, authToken: Option<AuthToken>, stores: Stores)

  /** AuthenticateAsync, with the new token's GUID and the clock reading as parameters. */
  function Login(k: Keys, s: Stores, name: string, password: string, newId: string, now: DateTime): LoginOutcome
  {
    match UserNamed(s.users, s.byName, name)
    case None => LoginOutcome(None, None, s)
    case Some(user) =>
      if HashPassword(k, password, user.passwordSalt) != user.passwordHash then LoginOutcome(None, None, s)
      else
        var authToken := CreateToken(k, user.id, newId, now);
        var user' := user.(lastAuthenticated := authToken.lastAccessed);
        LoginOutcome(Some(user'), Some(authToken),
          s.(tokens := s.tokens[authToken.token := authToken], users := s.users[user'.id := user']))
  }

  datatype TokenOutcome = TokenOutcome(result: Checked<Option<User>>, stores: Stores)

  /** AuthenticateWithTokenAsync; the clock is read twice, once for the expiry test
      (`nowCheck`) and once for the new access time (`nowTouch`). */
  function AuthenticateWithToken(k: Keys, s: Stores, token: string, nowCheck: DateTime, nowTouch: DateTime): TokenOutcome
  {
    match TokenWithValue(s.tokens, token)
    case None => TokenOutcome(Done(None), s)
    case Some(authToken) =>
      if !ValidateToken(k, authToken) then TokenOutcome(Done(None), s)
      else match HasTokenExpired(authToken, nowCheck)
        case ArgumentOutOfRange => TokenOutcome(ArgumentOutOfRange, s)
        case Done(true) => TokenOutcome(Done(None), s)
        case Done(false) =>
          var touched := authToken.(lastAccessed := nowTouch);
          var s' := s.(tokens := s.tokens[touched.token := touched]);
          match UserWithId(s.users, touched.userId)
          case None => TokenOutcome(Done(None), s'.(tokens := s'.tokens - {token}))
          case Some(user) =>
            var user' := user.(lastAuthenticated := touched.lastAccessed);
            TokenOutcome(Done(Some(user')), s'.(users := s.users[user'.id := user']))
  }

  /** RevokeTokenAsync. */
  function RevokeToken(s: Stores, token: string): Stores
  {
    s.(tokens := s.tokens - {token})
  }

  // ---------------------------------------------------------------- login

  /** Login succeeds exactly when the name is known and the password matches; the user
      and the token are returned together or not at all, and a failure changes nothing. */
  lemma LoginFailsSilently(k: Keys, s: Stores, name: string, password: string, newId: string, now: DateTime)
    ensures var r := Login(k, s, name, password, newId, now);
      && (r.user.Some? <==> PasswordMatches(k, s, name, password))
      && (r.authToken.Some? <==> PasswordMatches(k, s, name, password))
      && (!PasswordMatches(k, s, name, password) ==> r.stores == s)
  {
  }

  /** A successful login inserts one token, the one CreateToken makes under the given id,
      and updates one user, whose lastAuthenticated is the token's lastAccessed; nothing else changes. */
  lemma LoginIssuesOneToken(k: Keys, s: Stores, name: string, password: string, newId: string, now: DateTime)
    requires StoresValid(s) && PasswordMatches(k, s, name, password)
    ensures var r := Login(k, s, name, password, newId, now);
      var found := UserNamed(s.users, s.byName, name).value;
      && r.user.Some? && r.authToken.Some?
      && var (user, t) := (r.user.value, r.authToken.value);
      && t.id == newId && t.userId == found.id && user.id == found.id
      && t == CreateToken(k, found.id, newId, now)
      && t.created.ticks <= now.ticks < t.created.ticks + TicksPerSecond
      && t.created.ticks % TicksPerSecond == 0
      && t.lastAccessed == t.created
      && ValidateToken(k, t)
      && user == found.(lastAuthenticated := t.lastAccessed)
      && r.stores.tokens == s.tokens[t.token := t]
      && r.stores.users == s.users[found.id := user] && r.stores.byName == s.byName
      && StoresValid(r.stores)
      && UserNamed(r.stores.users, r.stores.byName, name) == r.user
  {
    var found := UserNamed(s.users, s.byName, name).value;
    var r := Login(k, s, name, password, newId, now);
    var user := r.user.value;
    assert forall id :: id in r.stores.users ==> r.stores.users[id].name == s.users[id].name;
  }

  // ---------------------------------------------------------------- re-authentication

  /** An unknown value, a value that does not re-derive, and an expired token are all
      rejected with the same empty result and leave both stores, the record included, alone;
      a token last used in December 9999 makes AddMonths throw, also before any change. */
  lemma RejectedTokenLeavesStoresAlone(k: Keys, s: Stores, token: string, nowCheck: DateTime, nowTouch: DateTime)
    requires token !in s.tokens || !ValidateToken(k, s.tokens[token])
          || HasTokenExpired(s.tokens[token], nowCheck) != Done(false)
    ensures var r := AuthenticateWithToken(k, s, token, nowCheck, nowTouch);
      && r.stores == s
      && r.result == (if token in s.tokens && ValidateToken(k, s.tokens[token])
                         && HasTokenExpired(s.tokens[token], nowCheck).ArgumentOutOfRange?
                      then ArgumentOutOfRange else Done(None))
  {
  }

  /** A genuine, unexpired token of an existing user is touched: its lastAccessed and the
      user's lastAuthenticated both become the second clock reading, and that user is returned. */
  lemma AcceptedTokenIsTouched(k: Keys, s: Stores, token: string, nowCheck: DateTime, nowTouch: DateTime)
    requires StoresValid(s) && token in s.tokens
    requires ValidateToken(k, s.tokens[token]) && HasTokenExpired(s.tokens[token], nowCheck) == Done(false)
    requires s.tokens[token].userId in s.users
    ensures var t := s.tokens[token];
      var r := AuthenticateWithToken(k, s, token, nowCheck, nowTouch);
      var user := s.users[t.userId].(lastAuthenticated := nowTouch);
      && r.result == Done(Some(user))
      && r.stores.tokens == s.tokens[token := t.(lastAccessed := nowTouch)]
      && r.stores.users == s.users[t.userId := user] && r.stores.byName == s.byName
      && r.stores.tokens[token].lastAccessed == user.lastAuthenticated
      && ValidateToken(k, r.stores.tokens[token])
      && StoresValid(r.stores)
  {
    var t := s.tokens[token];
    var r := AuthenticateWithToken(k, s, token, nowCheck, nowTouch);
    assert forall id :: id in r.stores.users ==> r.stores.users[id].name == s.users[id].name;
  }

  /** A genuine, unexpired token whose user is gone is deleted and rejected, so the next
      attempt with it finds nothing. */
  lemma OrphanTokenIsPurged(k: Keys, s: Stores, token: string, nowCheck: DateTime, nowTouch: DateTime,
                            laterCheck: DateTime, laterTouch: DateTime)
    requires StoresValid(s) && token in s.tokens
    requires ValidateToken(k, s.tokens[token]) && HasTokenExpired(s.tokens[token], nowCheck) == Done(false)
    requires s.tokens[token].userId !in s.users
    ensures var r := AuthenticateWithToken(k, s, token, nowCheck, nowTouch);
      && r.result == Done(None)
      && r.stores == s.(tokens := s.tokens - {token})
      && StoresValid(r.stores)
      && AuthenticateWithToken(k, r.stores, token, laterCheck, laterTouch) == TokenOutcome(Done(None), r.stores)
  {
    var t := s.tokens[token];
    assert s.tokens[token := t.(lastAccessed := nowTouch)] - {token} == s.tokens - {token};
  }

  // ---------------------------------------------------------------- revocation

  /** Revocation removes that one token value and nothing else, and doing it twice is doing it once. */
  lemma RevokeRemovesOnlyThatToken(s: Stores, token: string)
    ensures var s' := RevokeToken(s, token);
      && token !in s'.tokens
      && s'.tokens.Keys == s.tokens.Keys - {token}
      && (forall value :: value in s'.tokens ==> s'.tokens[value] == s.tokens[value])
      && s'.users == s.users && s'.byName == s.byName
      && RevokeToken(s', token) == s'
      && (StoresValid(s) ==> StoresValid(s'))
  {
  }

  /** After revocation the value no longer authenticates, and the attempt changes nothing. */
  lemma RevokedTokenIsRejected(k: Keys, s: Stores, token: string, nowCheck: DateTime, nowTouch: DateTime)
    ensures var s' := RevokeToken(s, token);
      AuthenticateWithToken(k, s', token, nowCheck, nowTouch) == TokenOutcome(Done(None), s')
  {
  }

  // ---------------------------------------------------------------- round trip

  /** A token issued by a login authenticates its user again while the clock is less than
      28 days (minus the truncated second) past the login, the shortest one-month window. */
  lemma LoginThenTokenAuthenticates(k: Keys, s: Stores, name: string, password: string, newId: string,
                                    now: DateTime, nowCheck: DateTime, nowTouch: DateTime)
    requires StoresValid(s) && PasswordMatches(k, s, name, password)
    requires !(now.Year() == 9999 && now.Month() == 12)
    requires nowCheck.ticks + TicksPerSecond <= now.ticks + 28 * TicksPerDay
    ensures var r := Login(k, s, name, password, newId, now);
      && r.authToken.Some? && r.user.Some?
      && AuthenticateWithToken(k, r.stores, r.authToken.value.token, nowCheck, nowTouch).result
         == Done(Some(r.user.value.(lastAuthenticated := nowTouch)))
  {
    LoginIssuesOneToken(k, s, name, password, newId, now);
    var r := Login(k, s, name, password, newId, now);
    var t := r.authToken.value;
    assert r.stores.tokens[t.token] == t;
    assert HasTokenExpired(t, nowCheck) == Done(false);
    AcceptedTokenIsTouched(k, r.stores, t.token, nowCheck, nowTouch);
  }

  // ---------------------------------------------------------------- worked example

  /** alice, stored with salt "s1" and the digest of "pw1", logs in with "pw1" and receives
      a token whose value is the HMAC of its own id, her id and its created instant; with
      any password whose digest differs she receives nothing and nothing changes. */
  lemma AliceLogsIn(k: Keys, newId: string, now: DateTime, since: DateTime, other: string)
    ensures var alice := User("alice-id", "alice", HashPassword(k, "pw1", "s1"), "s1", since);
      var s := Stores(map["alice-id" := alice], map["alice" := "alice-id"], map[]);
      var r := Login(k, s, "alice", "pw1", newId, now);
      && r.user.Some? && r.authToken.Some? && r.user.value.id == "alice-id"
      && r.authToken.value.token
         == k.crypto.toHex(k.crypto.hmacSha512(k.authTokenSecret,
              TokenMessage(k, newId, "alice-id", r.authToken.value.created)))
      && (HashPassword(k, other, "s1") != alice.passwordHash ==>
            Login(k, s, "alice", other, newId, now) == LoginOutcome(None, None, s))
  {
  }
}
