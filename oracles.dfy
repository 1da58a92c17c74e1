/**
 * The library calls the handlers delegate to, kept abstract: bcrypt's `hash` and
 * `compare`, jsonwebtoken's `sign` and `verify`, and zod's `.email()` check. They
 * are passed around as one bundle of functions; what the model assumes of them is
 * stated as predicates over the bundle, and only the lemmas that need an
 * assumption require it.
 */
module Oracles {
  import opened Wrappers

  /** The token payload: `{ userId, username, email }` (the `AuthUser` interface). */
  datatype Claims = Claims(userId: string, username: string, email: string)

  datatype Oracles = Oracles(
    /** `bcrypt.hash(plaintext, rounds)`; the random salt bcrypt draws is an explicit argument. */
    hash: (string, nat, string) -> string,
    /** `bcrypt.compare(plaintext, digest)`. */
    matches: (string, string) -> bool,
    /** `jwt.sign(claims, secret, { expiresIn: "7d" })`. */
    sign: (Claims, string) -> string,
    /** `jwt.verify(token, secret)`: None wherever the library throws (bad signature, malformed, expired). */
    verify: (string, string) -> Option<Claims>,
    /** zod's `z.string().email()` test. */
    isEmail: string -> bool
  )

  /** The cost factor passed to `bcrypt.hash`. */
  const BcryptRounds: nat := 12

  /** The secret used when `JWT_SECRET` is unset or empty. */
  const FallbackSecret: string := "fallback-secret"

  /** `process.env.JWT_SECRET || "fallback-secret"`: an unset or empty variable falls back. */
  function Secret(env: Option<string>): (secret: string)
    ensures env.Some? && env.value != "" ==> secret == env.value
    ensures env.None? || env.value == "" ==> secret == FallbackSecret
    ensures secret != ""
  {
    if env.Some? && env.value != "" then env.value else FallbackSecret
  }

  /** bcrypt reads at most this many bytes of the UTF-8 encoded plaintext and ignores the rest. */
  const BcryptMaxBytes: nat := 72

  /** Number of bytes of the UTF-8 encoding of `s`: one to four per code point. */
  function Utf8Length(s: string): (n: nat)
    ensures |s| <= n <= 4 * |s|
  {
    if s == [] then 0
    else
      var c := s[0] as int;
      (if c < 0x80 then 1 else if c < 0x800 then 2 else if c < 0x1_0000 then 3 else 4)
      + Utf8Length(s[1..])
  }

  /** ASCII text takes one UTF-8 byte per character. */
  lemma {:induction false} Utf8LengthOfAscii(s: string)
    requires forall i :: 0 <= i < |s| ==> s[i] as int < 0x80
    ensures Utf8Length(s) == |s|
  {
    if s != [] {
      Utf8LengthOfAscii(s[1..]);
    }
  }

  /**
   * bcrypt assumption: a plaintext always matches a digest made from it, and a
   * NUL-free plaintext that fits in bcrypt's 72-byte input matches no digest
   * made from a different such plaintext (no collisions). bcrypt's key is the
   * UTF-8 bytes and a closing NUL, repeated to fill 72 bytes: for these
   * plaintexts distinct inputs give distinct keys, while an embedded NUL or
   * bytes past the 72nd can make two inputs share a key, and nothing is
   * assumed there.
   */
  ghost predicate HashVerifies(o: Oracles) {
    && (forall p, rounds, salt :: o.matches(p, o.hash(p, rounds, salt)))
    && (forall p, q, rounds, salt ::
          && Utf8Length(p) <= BcryptMaxBytes && Utf8Length(q) <= BcryptMaxBytes
          && '\0' !in p && '\0' !in q && p != q
          ==> !o.matches(p, o.hash(q, rounds, salt)))
  }

  /** jsonwebtoken assumption: a freshly signed token verifies, under the same secret, to its claims. */
  ghost predicate SignVerifies(o: Oracles) {
    forall c, secret :: o.verify(o.sign(c, secret), secret) == Some(c)
  }
}
