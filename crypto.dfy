/**
 * The foreign primitives the service calls: UTF-8 encoding, SHA-256,
 * ASP.NET Identity's `IPasswordHasher<User>` and the JWT token writer.
 * Each is an arbitrary function supplied by the caller, so no property of a
 * real hash or signature is assumed beyond the digest length.
 */
module Crypto {
  import opened Models

  type byte = b: int | 0 <= b < 256

  /** A SHA-256 digest is always 32 bytes. */
  type Digest = s: seq<byte> | |s| == 32 witness seq(32, _ => 0)

  /** `IPasswordHasher<User>.HashPassword(user, password)`. The default
      hasher salts at random, so every call site takes its own function. */
  type PasswordHasher = (User, string) -> string

  /** What the login handler puts in a token: the Name claim, the Role claim
      and the expiry instant in ticks. */
  datatype TokenDescriptor = TokenDescriptor(name: string, role: string, expires: int)

  datatype Primitives = Primitives(
    utf8: string -> seq<byte>,
    sha256: seq<byte> -> Digest,
    writeToken: (TokenDescriptor, seq<byte>) -> string)
}
