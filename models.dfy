/** The records the authentication service reads and writes, and the
    configuration and primitives it is built from. */
module Models {
  import opened Calendar
  import opened Bytes

  /** A registered user (only the attributes the service touches). */
  datatype User = User(
    id: string,
    name: string,
    passwordHash: string,
    passwordSalt: string,
    lastAuthenticated: DateTime)

  /** A session token record; `token` is the bearer value derived from id, userId and created. */
  datatype AuthToken = AuthToken(
    id: string,
    userId: string,
    token: string,
    created: DateTime,
    lastAccessed: DateTime)

  /** The library primitives the service calls, as deterministic functions about which
      nothing else is known (in particular none of them is assumed injective). */
  datatype Crypto = Crypto(
    sha512: seq<byte> -> seq<byte>,                 // SHA512.ComputeHash
    hmacSha512: (seq<byte>, seq<byte>) -> seq<byte>, // new HMACSHA512(key).ComputeHash(message)
    toHex: seq<byte> -> string,                     // the ToHexString extension
    writeString: string -> seq<byte>,               // BinaryWriter.Write(string)
    utf8: string -> seq<byte>)                      // Encoding.UTF8.GetBytes

  /** The two secrets read from the API configuration. */
  datatype ApiConfig = ApiConfig(passwordServerSalt: string, authTokenSecret: string)

  /** What a service instance holds after construction: the server salt, the
      token-derivation key as bytes, and the primitives. */
  datatype Keys = Keys(serverSalt: string, authTokenSecret: seq<byte>, crypto: Crypto)
}
