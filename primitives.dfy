/**
 * The values the provenance logger handles and the cryptographic and
 * serialisation primitives it calls but does not implement.
 *
 * SHA-256 (FIPS 180-4, section 6.2), UTF-8 encoding, the canonical
 * `json.dumps(..., sort_keys=True, separators=(',', ':'))` and Ed25519
 * (section 5.1 of RFC 8032) are foreign code: they are fields of a `Backend`
 * value, and the facts the logger relies on are predicates over a backend
 * that the lemmas take as hypotheses.
 */
module Primitives {

  newtype byte = x: int | 0 <= x < 256

  /** A JSON value as `json.loads` produces it (floats are not modelled). */
  datatype Json =
    | JNull
    | JBool(b: bool)
    | JInt(i: int)
    | JStr(s: string)
    | JArray(items: seq<Json>)
    | JObject(fields: map<string, Json>)

  /** A Python dict with string keys, as the chain entries are passed around. */
  type Dict = map<string, Json>

  /** Python truthiness of a JSON value (`if x:` / `x or y`). */
  predicate Truthy(j: Json)
  {
    match j
    case JNull => false
    case JBool(b) => b
    case JInt(i) => i != 0
    case JStr(s) => s != ""
    case JArray(items) => items != []
    case JObject(fields) => fields != map[]
  }

  type SigningKey = seq<byte>
  type VerifyKey = seq<byte>

  /** The foreign primitives. */
  datatype Backend = Backend(
    sha256: seq<byte> -> seq<byte>,                  // hashlib.sha256(data).digest()
    encode: string -> seq<byte>,                     // str.encode('utf-8')
    dumps: Json -> string,                           // canonical json.dumps with sorted keys
    sign: (SigningKey, seq<byte>) -> seq<byte>,      // SigningKey.sign(m).signature
    verify: (VerifyKey, seq<byte>, seq<byte>) -> bool, // VerifyKey.verify(m, s) did not raise
    publicKeyOf: SigningKey -> VerifyKey)            // SigningKey.verify_key

  /**
   * What the primitives promise: a SHA-256 digest is never empty, and an
   * Ed25519 signature is never empty and verifies under the signing key's
   * public key for the message it was made for.
   */
  ghost predicate Sound(b: Backend)
  {
    && (forall x :: b.sha256(x) != [])
    && (forall sk, m :: b.sign(sk, m) != [] && b.verify(b.publicKeyOf(sk), m, b.sign(sk, m)))
  }

  /**
   * Idealised unforgeability: a signature made with `sk` verifies under `sk`'s
   * public key only for the message it was made for.
   */
  ghost predicate Binding(b: Backend)
  {
    forall sk, m, m' :: b.verify(b.publicKeyOf(sk), m, b.sign(sk, m')) ==> m == m'
  }

  /**
   * Idealised collision resistance of SHA-256, and injectivity of UTF-8 encoding
   * and of the canonical JSON encoding (distinct dicts give distinct text).
   */
  ghost predicate CollisionFree(b: Backend)
  {
    && (forall x, y :: b.sha256(x) == b.sha256(y) ==> x == y)
    && (forall s, t :: b.encode(s) == b.encode(t) ==> s == t)
    && (forall j, k :: b.dumps(j) == b.dumps(k) ==> j == k)
  }
}
