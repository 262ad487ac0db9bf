/**
 * The entry codec of the provenance logger (python_core/lib/crypto.py):
 * hashing, the signed chain entry `create_chain_entry` builds, and the two
 * checks that recompute its canonical form.
 */
module Crypto {
  import opened Wrappers
  import opened Primitives
  import opened HexText

  /** The five keys `create_chain_entry` signs. */
  const SignedKeys: set<string> := {"index", "timestamp", "frame_hash", "previous_hash", "metadata"}

  /** The two keys derived from the signed payload, left out when it is recomputed. */
  const DerivedKeys: set<string> := {"signature", "entry_hash"}

  /** Size of the chunks `hash_file` reads. */
  const ChunkSize: nat := 8192

  /** `json.dumps(d, sort_keys=True, separators=(',', ':'))`: a function of the key/value map alone. */
  function Canonical(b: Backend, d: Dict): string
  {
    b.dumps(JObject(d))
  }

  /** `hash_data`: the hex SHA-256 digest of a byte string. */
  function HashData(b: Backend, data: seq<byte>): (r: string)
    ensures |r| == 2 * |b.sha256(data)|
    ensures FromHex(r) == Some(b.sha256(data))
  {
    FromHexOfHex(b.sha256(data));
    Hex(b.sha256(data))
  }

  /**
   * `hash_file`: read the file in chunks of `ChunkSize` bytes until a read
   * returns nothing, feeding each chunk to a running SHA-256 state. The state
   * of the incremental hash is identified with the bytes it has absorbed.
   */
  method HashFile(b: Backend, contents: seq<byte>) returns (digest: string)
    ensures digest == HashData(b, contents)
  {
    var absorbed: seq<byte> := [];
    var offset := 0;
    while true
      invariant 0 <= offset <= |contents|
      invariant absorbed == contents[..offset]
      decreases |contents| - offset
    {
      var end := if offset + ChunkSize <= |contents| then offset + ChunkSize else |contents|;
      var chunk := contents[offset..end];
      if chunk == [] {
        break;
      }
      absorbed := absorbed + chunk;
      offset := end;
    }
    assert absorbed == contents;
    digest := Hex(b.sha256(absorbed));
  }

  /** `metadata or {}`. */
  function MetadataOrEmpty(metadata: Json): Json
  {
    if Truthy(metadata) then metadata else JObject(map[])
  }

  /** The dict `create_chain_entry` builds before signing (`metadata` JNull stands for None). */
  function UnsignedEntry(index: int, timestamp: string, frameHash: string, previousHash: string,
                         metadata: Json): Dict
  {
    map["index" := JInt(index), "timestamp" := JStr(timestamp), "frame_hash" := JStr(frameHash),
        "previous_hash" := JStr(previousHash), "metadata" := MetadataOrEmpty(metadata)]
  }

  /**
   * `create_chain_entry` once the signing key is loaded: sign the canonical form,
   * then hash the canonical form followed by the signature's hex text.
   */
  function BuildEntry(b: Backend, sk: SigningKey, index: int, timestamp: string, frameHash: string,
                      previousHash: string, metadata: Json): Dict
  {
    var entry := UnsignedEntry(index, timestamp, frameHash, previousHash, metadata);
    var canonical := Canonical(b, entry);
    var signatureHex := Hex(b.sign(sk, b.encode(canonical)));
    var entryHash := HashData(b, b.encode(canonical + signatureHex));
    entry["signature" := JStr(signatureHex)]["entry_hash" := JStr(entryHash)]
  }

  /**
   * `verify_entry_signature` with the verify key loaded: false when the signature
   * is missing or falsy, when it is not hex text (the exception is caught), or
   * when Ed25519 rejects it for the canonical form of the dict minus the two
   * derived keys.
   */
  function SignatureValid(b: Backend, vk: VerifyKey, entry: Dict): (r: bool)
    ensures r ==> "signature" in entry && entry["signature"].JStr? && entry["signature"].s != ""
    ensures r ==> FromHex(entry["signature"].s).Some?
    ensures r ==> b.verify(vk, b.encode(Canonical(b, entry - DerivedKeys)), FromHex(entry["signature"].s).value)
  {
    if "signature" !in entry || !Truthy(entry["signature"]) then false
    else
      var canonical := Canonical(b, entry - DerivedKeys);
      match entry["signature"]
      case JStr(signatureHex) =>
        (match FromHex(signatureHex)
         case None => false
         case Some(signature) => b.verify(vk, b.encode(canonical), signature))
      case _ => false
  }

  datatype PyError = TypeError

  /**
   * `verify_entry_hash`: false when `entry_hash` is missing or falsy; otherwise
   * compare it with the hash of the canonical form followed by the signature
   * text (`""` when there is none). A signature that is not a string makes the
   * concatenation raise TypeError, which this function does not catch.
   */
  function VerifyEntryHash(b: Backend, entry: Dict): (r: Result<bool, PyError>)
    ensures r.Err? <==> "entry_hash" in entry && Truthy(entry["entry_hash"])
                        && "signature" in entry && !entry["signature"].JStr?
    ensures r == Ok(true) ==> "entry_hash" in entry && entry["entry_hash"].JStr?
  {
    if "entry_hash" !in entry || !Truthy(entry["entry_hash"]) then Ok(false)
    else
      var canonical := Canonical(b, entry - DerivedKeys);
      var signature := if "signature" in entry then entry["signature"] else JStr("");
      match signature
      case JStr(signatureHex) =>
        Ok(entry["entry_hash"] == JStr(HashData(b, b.encode(canonical + signatureHex))))
      case _ => Err(TypeError)
  }

  /** The created entry copies its inputs, defaults metadata to `{}`, and adds the two derived keys. */
  lemma CreatedEntryFields(b: Backend, sk: SigningKey, index: int, timestamp: string, frameHash: string,
                           previousHash: string, metadata: Json)
    ensures var e := BuildEntry(b, sk, index, timestamp, frameHash, previousHash, metadata);
      && e.Keys == SignedKeys + DerivedKeys
      && e["index"] == JInt(index) && e["timestamp"] == JStr(timestamp)
      && e["frame_hash"] == JStr(frameHash) && e["previous_hash"] == JStr(previousHash)
      && e["metadata"] == (if Truthy(metadata) then metadata else JObject(map[]))
  {
  }

  /**
   * The signature covers exactly the five signed keys, and the entry hash
   * covers that payload followed by the signature.
   */
  lemma CreatedEntryPayload(b: Backend, sk: SigningKey, index: int, timestamp: string, frameHash: string,
                            previousHash: string, metadata: Json)
    ensures var e := BuildEntry(b, sk, index, timestamp, frameHash, previousHash, metadata);
      var payload := e - DerivedKeys;
      var signatureHex := Hex(b.sign(sk, b.encode(Canonical(b, payload))));
      && payload.Keys == SignedKeys
      && payload == UnsignedEntry(index, timestamp, frameHash, previousHash, metadata)
      && e["signature"] == JStr(signatureHex)
      && e["entry_hash"] == JStr(HashData(b, b.encode(Canonical(b, payload) + signatureHex)))
  {
    var u := UnsignedEntry(index, timestamp, frameHash, previousHash, metadata);
    var e := BuildEntry(b, sk, index, timestamp, frameHash, previousHash, metadata);
    assert e - DerivedKeys == u;
  }

  /** Round trip: `verify_entry_hash(create_chain_entry(...))` is true. */
  lemma CreatedEntryHashVerifies(b: Backend, sk: SigningKey, index: int, timestamp: string, frameHash: string,
                                 previousHash: string, metadata: Json)
    requires Sound(b)
    ensures VerifyEntryHash(b, BuildEntry(b, sk, index, timestamp, frameHash, previousHash, metadata)) == Ok(true)
  {
    CreatedEntryPayload(b, sk, index, timestamp, frameHash, previousHash, metadata);
    var e := BuildEntry(b, sk, index, timestamp, frameHash, previousHash, metadata);
    var digest := b.sha256(b.encode(Canonical(b, e - DerivedKeys) + e["signature"].s));
    assert |Hex(digest)| == 2 * |digest| > 0;
  }

  /** Round trip: `verify_entry_signature(create_chain_entry(...))` is true under the signing key's public key. */
  lemma CreatedEntrySignatureVerifies(b: Backend, sk: SigningKey, index: int, timestamp: string,
                                      frameHash: string, previousHash: string, metadata: Json)
    requires Sound(b)
    ensures SignatureValid(b, b.publicKeyOf(sk),
                           BuildEntry(b, sk, index, timestamp, frameHash, previousHash, metadata))
  {
    CreatedEntryPayload(b, sk, index, timestamp, frameHash, previousHash, metadata);
    var e := BuildEntry(b, sk, index, timestamp, frameHash, previousHash, metadata);
    var m := b.encode(Canonical(b, e - DerivedKeys));
    var signature := b.sign(sk, m);
    FromHexOfHex(signature);
    assert |Hex(signature)| == 2 * |signature| > 0;
  }

  lemma PrependCancel(a: string, s: string, s': string)
    requires a + s == a + s'
    ensures s == s'
  {
    assert s == (a + s)[|a|..];
    assert s' == (a + s')[|a|..];
  }

  /**
   * Under an idealised signature scheme and injective encodings, a signature
   * made by `sk` over the canonical form of `payload` passes
   * `verify_entry_signature` only for a dict whose non-derived part is exactly
   * `payload`: altering, adding or removing any key is detected.
   */
  lemma SignatureBindsPayload(b: Backend, sk: SigningKey, payload: Dict, entry: Dict)
    requires Binding(b) && CollisionFree(b)
    requires "signature" in entry
    requires entry["signature"] == JStr(Hex(b.sign(sk, b.encode(Canonical(b, payload)))))
    ensures SignatureValid(b, b.publicKeyOf(sk), entry) ==> entry - DerivedKeys == payload
  {
    var signature := b.sign(sk, b.encode(Canonical(b, payload)));
    FromHexOfHex(signature);
    if SignatureValid(b, b.publicKeyOf(sk), entry) {
      assert b.verify(b.publicKeyOf(sk), b.encode(Canonical(b, entry - DerivedKeys)), signature);
      assert b.encode(Canonical(b, entry - DerivedKeys)) == b.encode(Canonical(b, payload));
      assert JObject(entry - DerivedKeys) == JObject(payload);
    }
  }

  /**
   * The entry hash also covers the signature: two entries that both pass
   * `verify_entry_hash` with the same payload but different signature text
   * have different entry hashes.
   */
  lemma EntryHashCoversSignature(b: Backend, e1: Dict, e2: Dict)
    requires CollisionFree(b)
    requires VerifyEntryHash(b, e1) == Ok(true) && VerifyEntryHash(b, e2) == Ok(true)
    requires e1 - DerivedKeys == e2 - DerivedKeys
    requires "signature" in e1 && "signature" in e2 && e1["signature"] != e2["signature"]
    ensures e1["entry_hash"] != e2["entry_hash"]
  {
    var c := Canonical(b, e1 - DerivedKeys);
    var s1, s2 := e1["signature"].s, e2["signature"].s;
    if e1["entry_hash"] == e2["entry_hash"] {
      HexInjective(b.sha256(b.encode(c + s1)), b.sha256(b.encode(c + s2)));
      PrependCancel(c, s1, s2);
    }
  }

  /** Where the signing and verify keys come from: the two key files, or None when a file is absent. */
  datatype KeyFiles = KeyFiles(privateKey: Option<SigningKey>, publicKey: Option<VerifyKey>)

  datatype CryptoError = PrivateKeyNotFound | PublicKeyNotFound

  /** `ProvenanceCrypto`: the backend, the key files, and the two lazily loaded keys. */
  class ProvenanceCrypto {
    const backend: Backend
    const keyFiles: KeyFiles
    var signingKey: Option<SigningKey>
    var verifyKey: Option<VerifyKey>

    /** A loaded key is the one in its file. */
    ghost predicate Valid()
      reads this
    {
      && (signingKey.Some? ==> signingKey == keyFiles.privateKey)
      && (verifyKey.Some? ==> verifyKey == keyFiles.publicKey)
    }

    constructor (backend: Backend, keyFiles: KeyFiles)
      ensures Valid()
      ensures this.backend == backend && this.keyFiles == keyFiles
      ensures signingKey == None && verifyKey == None
    {
      this.backend := backend;
      this.keyFiles := keyFiles;
      signingKey := None;
      verifyKey := None;
    }

    /** `load_signing_key`: FileNotFoundError when the private key file is absent. */
    method LoadSigningKey() returns (r: Result<SigningKey, CryptoError>)
      modifies this
      ensures Valid()
      ensures keyFiles.privateKey.None? ==> r == Err(PrivateKeyNotFound) && signingKey == old(signingKey)
      ensures keyFiles.privateKey.Some? ==> r == Ok(keyFiles.privateKey.value) && signingKey == keyFiles.privateKey
      ensures verifyKey == old(verifyKey)
      requires Valid()
    {
      if keyFiles.privateKey.None? {
        return Err(PrivateKeyNotFound);
      }
      signingKey := keyFiles.privateKey;
      r := Ok(signingKey.value);
    }

    /** `load_verify_key`: FileNotFoundError when the public key file is absent. */
    method LoadVerifyKey() returns (r: Result<VerifyKey, CryptoError>)
      requires Valid()
      modifies this
      ensures Valid()
      ensures keyFiles.publicKey.None? ==> r == Err(PublicKeyNotFound) && verifyKey == old(verifyKey)
      ensures keyFiles.publicKey.Some? ==> r == Ok(keyFiles.publicKey.value) && verifyKey == keyFiles.publicKey
      ensures signingKey == old(signingKey)
    {
      if keyFiles.publicKey.None? {
        return Err(PublicKeyNotFound);
      }
      verifyKey := keyFiles.publicKey;
      r := Ok(verifyKey.value);
    }

    /** `create_chain_entry`: load the signing key if it is not loaded yet, then build the signed entry. */
    method CreateChainEntry(index: int, timestamp: string, frameHash: string, previousHash: string,
                            metadata: Json) returns (r: Result<Dict, CryptoError>)
      requires Valid()
      modifies this
      ensures Valid() && verifyKey == old(verifyKey)
      ensures keyFiles.privateKey.None? ==> r == Err(PrivateKeyNotFound) && signingKey == old(signingKey)
      ensures keyFiles.privateKey.Some? ==>
        && signingKey == keyFiles.privateKey
        && r == Ok(BuildEntry(backend, keyFiles.privateKey.value, index, timestamp, frameHash, previousHash, metadata))
    {
      if signingKey.None? {
        var loaded := LoadSigningKey();
        if loaded.Err? {
          return Err(loaded.error);
        }
      }
      r := Ok(BuildEntry(backend, signingKey.value, index, timestamp, frameHash, previousHash, metadata));
    }

    /** `verify_entry_signature`: load the verify key if it is not loaded yet, then check the signature. */
    method VerifyEntrySignature(entry: Dict) returns (r: Result<bool, CryptoError>)
      requires Valid()
      modifies this
      ensures Valid() && signingKey == old(signingKey)
      ensures keyFiles.publicKey.None? ==> r == Err(PublicKeyNotFound) && verifyKey == old(verifyKey)
      ensures keyFiles.publicKey.Some? ==>
        && verifyKey == keyFiles.publicKey
        && r == Ok(SignatureValid(backend, keyFiles.publicKey.value, entry))
    {
      if verifyKey.None? {
        var loaded := LoadVerifyKey();
        if loaded.Err? {
          return Err(loaded.error);
        }
      }
      r := Ok(SignatureValid(backend, verifyKey.value, entry));
    }
  }
}
