/**
 * The libraries the core calls but does not define: python-slugify, bleach, the password hasher and the JWT
 * helpers of app.core.security (app/core/security.py is not part of this model), UUID parsing and printing,
 * and pydantic's EmailStr validation. Each is an uninterpreted function; what the core relies on about them is
 * stated as a named assumption and used only as a hypothesis.
 */
module Foreign {
  import opened Prelude

  /** The string claims of a decoded token. */
  type Claims = map<string, string>

  datatype Externals = Externals(
    /** `slugify(value)` */
    slugify: string -> string,
    /** `bleach.clean(html, tags, attributes, strip)` */
    clean: (string, seq<string>, map<string, seq<string>>, bool) -> string,
    hashPassword: string -> string,
    /** `verify_password(plain, hashed)` */
    verifyPassword: (string, string) -> bool,
    /** `create_access_token({"sub": subject}, expires_delta)`, the lifetime in seconds */
    createAccessToken: (string, nat) -> string,
    /** `create_refresh_token({"sub": subject}, expires_delta)`, the lifetime in seconds */
    createRefreshToken: (string, nat) -> string,
    /** `verify_refresh_token(token)`: the payload, or None when the token does not verify */
    verifyRefreshToken: string -> Option<Claims>,
    /** `uuid.UUID(text)`: the id, or None where it raises ValueError */
    parseUuid: string -> Option<Id>,
    /** `str(id)` */
    idText: Id -> string,
    /**
     * pydantic's EmailStr: the address in the normal form email-validator returns (the domain lower-cased,
     * among others), or None where validation fails
     */
    emailStr: string -> Option<string>)

  /** A password verifies against its own hash. */
  ghost predicate PasswordCodecSound(x: Externals)
  {
    forall p :: x.verifyPassword(p, x.hashPassword(p))
  }

  /** A hash fits the users.hashed_password column (String(255)). */
  ghost predicate HashFits(x: Externals)
  {
    forall p :: |x.hashPassword(p)| <= 255
  }

  /** A refresh token that the server issued verifies, and its payload carries the subject it was issued for. */
  ghost predicate TokensRoundTrip(x: Externals)
  {
    forall sub: string, ttl: nat :: x.verifyRefreshToken(x.createRefreshToken(sub, ttl)).Some? &&
      "sub" in x.verifyRefreshToken(x.createRefreshToken(sub, ttl)).value &&
      x.verifyRefreshToken(x.createRefreshToken(sub, ttl)).value["sub"] == sub
  }

  /** The text of an id is non-empty and parses back to that id. */
  ghost predicate UuidTextRoundTrip(x: Externals)
  {
    forall id: Id :: x.idText(id) != [] && x.parseUuid(x.idText(id)) == Some(id)
  }
}
