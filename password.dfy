/**
 * `hash_password` and `verify_password`: thin wrappers around an Argon2
 * hasher. The key-derivation computation itself is foreign code, so it is a
 * parameter `kdf`: given the algorithm configuration, the password and the
 * salt it yields the digest, or `None` when the computation fails. The salt,
 * drawn from the operating system's generator, is a parameter too.
 */
module Passwords {
  import opened Wrappers
  import opened Phc
  import opened AuthErrors

  /** Algorithm, version and cost parameters, as written in a PHC string. */
  datatype Config = Config(algorithm: Field, version: Field, params: Field)

  /**
   * The hasher's default configuration: Argon2id, version 0x13 and the default
   * costs of the argon2 crate's 0.5 series (earlier series use other costs).
   */
  const DEFAULT_CONFIG: Config := Config("argon2id", "v=19", "m=19456,t=2,p=1")

  /** The Argon2 computation: a digest, or `None` when it fails. */
  type Kdf = (Config, string, Field) -> Option<Field>

  /** The configuration a parsed hash was made with. */
  function ConfigOf(h: PasswordHash): Config {
    Config(h.algorithm, h.version, h.params)
  }

  /**
   * Hashes `password` with a fresh `salt` under the default configuration.
   * It fails with `PasswordHashFailed` exactly when the computation fails;
   * otherwise the result is a self-describing string that parses back to the
   * configuration, the salt and the digest.
   */
  function HashPassword(password: string, salt: Field, kdf: Kdf): (r: Result<string, AuthError>)
    ensures r.Err? <==> kdf(DEFAULT_CONFIG, password, salt).None?
    ensures r.Err? ==> r.error == PasswordHashFailed
    ensures r.Ok? ==> Parse(r.value) == Some(PasswordHash(
      DEFAULT_CONFIG.algorithm, DEFAULT_CONFIG.version, DEFAULT_CONFIG.params,
      salt, kdf(DEFAULT_CONFIG, password, salt).value))
  {
    match kdf(DEFAULT_CONFIG, password, salt)
    case None => Err(PasswordHashFailed)
    case Some(digest) =>
      var h := PasswordHash(DEFAULT_CONFIG.algorithm, DEFAULT_CONFIG.version, DEFAULT_CONFIG.params, salt, digest);
      ParseFormat(h);
      Ok(Format(h))
  }

  /**
   * Checks `password` against a stored hash string. A string that does not
   * parse is reported as `InvalidCredentials`; otherwise the answer is whether
   * recomputing the digest with the stored configuration and salt succeeds and
   * gives the stored digest (a failed recomputation is a mismatch).
   */
  function VerifyPassword(password: string, stored: string, kdf: Kdf): (r: Result<bool, AuthError>)
    ensures r.Err? <==> Parse(stored).None?
    ensures r.Err? ==> r.error == InvalidCredentials
    ensures r == Ok(true) <==>
      Parse(stored).Some? &&
      kdf(ConfigOf(Parse(stored).value), password, Parse(stored).value.salt) == Some(Parse(stored).value.digest)
  {
    match Parse(stored)
    case None => Err(InvalidCredentials)
    case Some(h) => Ok(kdf(ConfigOf(h), password, h.salt) == Some(h.digest))
  }

  /** A password verifies against its own hash. */
  lemma HashVerifyRoundTrip(password: string, salt: Field, kdf: Kdf)
    requires HashPassword(password, salt, kdf).Ok?
    ensures VerifyPassword(password, HashPassword(password, salt, kdf).value, kdf) == Ok(true)
  {
  }

  /**
   * Another password verifies against a hash exactly when its digest under the
   * same salt collides with the original one.
   */
  lemma VerifyOtherPassword(password: string, other: string, salt: Field, kdf: Kdf)
    requires HashPassword(password, salt, kdf).Ok?
    ensures VerifyPassword(other, HashPassword(password, salt, kdf).value, kdf)
      == Ok(kdf(DEFAULT_CONFIG, other, salt) == kdf(DEFAULT_CONFIG, password, salt))
  {
  }

  /** Hashing one password under two different salts gives two different strings. */
  lemma DistinctSaltsDistinctHashes(password: string, salt1: Field, salt2: Field, kdf: Kdf)
    requires HashPassword(password, salt1, kdf).Ok? && HashPassword(password, salt2, kdf).Ok?
    requires salt1 != salt2
    ensures HashPassword(password, salt1, kdf).value != HashPassword(password, salt2, kdf).value
  {
  }
}
