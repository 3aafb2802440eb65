/**
 * The password hashing pair the account model relies on:
 * `generate_password_hash` and `check_password_hash`.
 *
 * The real functions run a salted PBKDF2-SHA256 key derivation with a random
 * salt. Here the salt is a parameter (the caller supplies the randomness) and
 * the key derivation is a fixed stand-in, `DeriveKey`. Nothing proved about the
 * accounts depends on how `DeriveKey` mixes its inputs: only on its being a
 * function of the salt and the password, which is what makes a hash verify the
 * password it was made from.
 */
module Passwords {

  /** An encoded password hash: the salt it was made with and the derived key. */
  datatype PasswordHash = PasswordHash(salt: string, key: nat)

  const KeyModulus: nat := 0x1_0000_0000_0000_0000

  /** A polynomial digest of a string, kept below `KeyModulus`. */
  function Digest(s: string): (d: nat)
    ensures d < KeyModulus
    decreases |s|
  {
    if s == [] then 0
    else (Digest(s[..|s| - 1]) * 131 + s[|s| - 1] as nat) % KeyModulus
  }

  /** Stand-in for the key derivation: a function of the salt and the password only. */
  function DeriveKey(salt: string, password: string): nat {
    Digest(salt + "$" + password)
  }

  /** generate_password_hash: derive a key from the password under a fresh salt. */
  function GeneratePasswordHash(password: string, salt: string): (h: PasswordHash)
    ensures h.salt == salt
  {
    PasswordHash(salt, DeriveKey(salt, password))
  }

  /**
   * check_password_hash: re-derive the key with the salt embedded in the hash
   * and compare.
   */
  function CheckPasswordHash(h: PasswordHash, password: string): (ok: bool)
    ensures ok <==> h == GeneratePasswordHash(password, h.salt)
  {
    DeriveKey(h.salt, password) == h.key
  }

  /** The round trip: a hash verifies the password it was made from. */
  lemma HashRoundTrip(password: string, salt: string)
    ensures CheckPasswordHash(GeneratePasswordHash(password, salt), password)
  {
  }

  /**
   * Two hashes of one password made under different salts are different
   * values, and each of them verifies the password. They differ because each
   * encoded hash embeds its own salt.
   */
  lemma SaltedHashesDiffer(password: string, salt1: string, salt2: string)
    requires salt1 != salt2
    ensures GeneratePasswordHash(password, salt1) != GeneratePasswordHash(password, salt2)
    ensures CheckPasswordHash(GeneratePasswordHash(password, salt1), password)
    ensures CheckPasswordHash(GeneratePasswordHash(password, salt2), password)
  {
  }
}
