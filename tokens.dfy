/** The pure part of UserAuthenticationService: password hashing, token
    derivation and validation, token creation and the expiry rule. */
module Tokens {
  import opened Wrappers
  import opened Calendar
  import opened Bytes
  import opened Models

  /** SHA-512 over the ASCII bytes of server salt ++ user salt ++ password, as hex. */
  function HashPassword(k: Keys, password: string, salt: string): string
  {
    k.crypto.toHex(k.crypto.sha512(Ascii(k.serverSalt + salt + password)))
  }

  /** The hash sees a password only through its ASCII bytes. */
  lemma HashPasswordSeesOnlyAscii(k: Keys, salt: string, p: string, q: string)
    requires Ascii(p) == Ascii(q)
    ensures HashPassword(k, p, salt) == HashPassword(k, q, salt)
  {
    AsciiAppend(k.serverSalt + salt, p);
    AsciiAppend(k.serverSalt + salt, q);
  }

  /** So every non-ASCII character of a password is interchangeable with '?':
      "é" and "?" are accepted for each other, whatever the hash function. */
  lemma NonAsciiPasswordsCollide(k: Keys, salt: string)
    ensures "\U{00E9}" != "?"
    ensures HashPassword(k, "\U{00E9}", salt) == HashPassword(k, "?", salt)
  {
    HashPasswordSeesOnlyAscii(k, salt, "\U{00E9}", "?");
  }

  /** The bytes GenerateToken authenticates: id, user id, then created.ToBinary() as a long. */
  function TokenMessage(k: Keys, id: string, userId: string, created: DateTime): (m: seq<byte>)
    ensures |m| >= 8 && LittleEndianValue(m[|m| - 8..]) == created.ticks + KindUtcFlag
  {
    var tail := WriteInt64(ToBinary(created));
    var m := k.crypto.writeString(id) + k.crypto.writeString(userId) + tail;
    assert m[|m| - 8..] == tail;
    m
  }

  /** The message pins down the created instant exactly, whatever the string encoding does:
      its last eight bytes are the instant's ticks. */
  lemma TokenMessageFixesCreated(k: Keys, id1: string, userId1: string, c1: DateTime,
                                 id2: string, userId2: string, c2: DateTime)
    requires TokenMessage(k, id1, userId1, c1) == TokenMessage(k, id2, userId2, c2)
    ensures c1 == c2
  {
    var m := TokenMessage(k, id1, userId1, c1);
    var tail1 := WriteInt64(ToBinary(c1));
    var tail2 := WriteInt64(ToBinary(c2));
    assert m[|m| - 8..] == tail1;
    assert m[|m| - 8..] == tail2;
    WriteInt64Injective(ToBinary(c1), ToBinary(c2));
  }

  /** HMAC-SHA-512 under the token secret of the token message, as hex. */
  function GenerateToken(k: Keys, id: string, userId: string, created: DateTime): string
  {
    k.crypto.toHex(k.crypto.hmacSha512(k.authTokenSecret, TokenMessage(k, id, userId, created)))
  }

  /** A token record is genuine when its value re-derives from its identity fields. */
  predicate ValidateToken(k: Keys, authToken: AuthToken)
  {
    authToken.token == GenerateToken(k, authToken.id, authToken.userId, authToken.created)
  }

  /** Touching a token (changing lastAccessed) never affects its validity. */
  lemma ValidationIgnoresLastAccessed(k: Keys, authToken: AuthToken, when: DateTime)
    ensures ValidateToken(k, authToken.(lastAccessed := when)) == ValidateToken(k, authToken)
  {
  }

  /** A record whose value was altered while its identity fields were kept is rejected. */
  lemma AlteredValueRejected(k: Keys, authToken: AuthToken, value: string)
    requires ValidateToken(k, authToken) && value != authToken.token
    ensures !ValidateToken(k, authToken.(token := value))
  {
  }

  /** A fresh token for `userId`: id from the caller (the GUID), created = `now`
      truncated to whole seconds, lastAccessed = created, value derived from the three. */
  function CreateToken(k: Keys, userId: string, id: string, now: DateTime): (t: AuthToken)
    ensures t.id == id && t.userId == userId
    ensures t.created.ticks <= now.ticks < t.created.ticks + TicksPerSecond
    ensures t.created.ticks % TicksPerSecond == 0
    ensures t.created.DatePart() == now.DatePart()
    ensures t.lastAccessed == t.created
    ensures ValidateToken(k, t)
  {
    RebuiltFromParts(now);
    var created := FromParts(now.DatePart(), now.Hour(), now.Minute(), now.Second());
    AuthToken(id, userId, GenerateToken(k, id, userId, created), created, created)
  }

  /** A store that keeps instants to whole seconds only. */
  function Reloaded(authToken: AuthToken): AuthToken
  {
    authToken.(created := WholeSeconds(authToken.created), lastAccessed := WholeSeconds(authToken.lastAccessed))
  }

  /** Why created is truncated: a created token still validates after such a store round trip. */
  lemma CreatedTokenSurvivesReload(k: Keys, userId: string, id: string, now: DateTime)
    ensures ValidateToken(k, Reloaded(CreateToken(k, userId, id, now)))
  {
    var t := CreateToken(k, userId, id, now);
    assert WholeSeconds(t.created) == t.created;
  }

  /** Without the truncation, a created instant with sub-second ticks would come back from
      such a store as a different message, so validation would compare against another MAC. */
  lemma SubSecondTicksChangeMessage(k: Keys, id: string, userId: string, created: DateTime)
    requires created.ticks % TicksPerSecond != 0
    ensures TokenMessage(k, id, userId, created) != TokenMessage(k, id, userId, WholeSeconds(created))
  {
    if TokenMessage(k, id, userId, created) == TokenMessage(k, id, userId, WholeSeconds(created)) {
      TokenMessageFixesCreated(k, id, userId, created, id, userId, WholeSeconds(created));
    }
  }

  /** Expired when `now` is strictly after lastAccessed plus one calendar month;
      AddMonths throws for a token last used in December 9999. */
  function HasTokenExpired(authToken: AuthToken, now: DateTime): (r: Checked<bool>)
    ensures r.Done? <==> !(authToken.lastAccessed.Year() == 9999 && authToken.lastAccessed.Month() == 12)
    ensures r.Done? && now.ticks <= authToken.lastAccessed.ticks + 28 * TicksPerDay ==> r == Done(false)
    ensures r.Done? && now.ticks > authToken.lastAccessed.ticks + 31 * TicksPerDay ==> r == Done(true)
  {
    AddOneMonth(authToken.lastAccessed);
    match AddMonths(authToken.lastAccessed, 1)
    case ArgumentOutOfRange => ArgumentOutOfRange
    case Done(limit) => Done(now.ticks > limit.ticks)
  }

  /** The boundary itself is inside the window: the comparison is strict. */
  lemma ExpiryBoundaryIsStrict(authToken: AuthToken, now: DateTime)
    requires AddMonths(authToken.lastAccessed, 1) == Done(now)
    ensures HasTokenExpired(authToken, now) == Done(false)
  {
  }

  /** Once expired, a token stays expired for every later clock reading. */
  lemma ExpiryIsPermanent(authToken: AuthToken, now: DateTime, later: DateTime)
    requires HasTokenExpired(authToken, now) == Done(true) && now.ticks <= later.ticks
    ensures HasTokenExpired(authToken, later) == Done(true)
  {
  }
}
