/**
 * The cryptographic and encoding primitives the client calls into. They are
 * not modelled: every operation receives them as uninterpreted functions, so
 * the model covers everything up to the digest and its base64 text.
 */
module Crypto {
  import opened Utf8

  datatype Primitives = Primitives(
    /** `hmac.new(key, msg, sha1).digest()` */
    hmacSha1: (seq<byte>, seq<byte>) -> seq<byte>,
    /** `hashlib.sha256(data).digest()` */
    sha256: seq<byte> -> seq<byte>,
    /** `base64.b64encode(data)`, as text */
    b64encode: seq<byte> -> string,
    /** `base64.urlsafe_b64encode(data)`, as text */
    urlsafeB64encode: seq<byte> -> string
  )
}
