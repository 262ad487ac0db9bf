# Provenance hash chain — a Dafny model

This project models the hash-chain core of a camera provenance logger.
The logger signs every captured frame into an append-only chain. It stores the chain in a database, and a verifier later re-checks the chain. The modelled core has four parts:

- **Entry codec** (`python_core/lib/crypto.py`), module `Crypto`:
  - `create_chain_entry` signs the canonical compact, sorted-key JSON of five keys: `index`, `timestamp`, `frame_hash`, `previous_hash` and `metadata`.
  - It sets `entry_hash = SHA-256(canonical ++ signature_hex)`.
  - `verify_entry_signature` and `verify_entry_hash` recompute that canonical form from a dict.
  - `hash_file` feeds a file to SHA-256 in 8192-byte chunks.
  - The signing and verify keys are loaded lazily into fields of `ProvenanceCrypto`.
- **Chain store** (`python_core/lib/chain.py`), module `Chain`:
  - The `chain_entries` table, with its unique `index` column, is a map from index to row held by the class `ProvenanceChain`.
  - `add_entry` and `import_from_json` change that map.
  - The queries are functions of it.
- **Builder step** (`python_core/logger.py`), module `Logger`:
  - `capture_and_log` derives the next index and previous hash from the latest row. The genesis entry gets index 0 and previous hash `""`.
  - It signs the entry, stores it and counts the capture.
  - The camera, the sensors and the clock are parameters.
- **Verifier** (`python_core/verifier.py`), module `Verifier`:
  - `verify_entry` runs four ordered checks.
  - `verify_chain_linkage` is a separate pass over the links.
  - `verify_full_chain` counts into a `VerificationResult`.

SHA-256 (FIPS 180-4), Ed25519 signing (section 5.1 of RFC 8032), UTF-8 encoding and `json.dumps` are abstract functions, the fields of `Primitives.Backend`. Each lemma relies only on the idealisations it names:

- `Sound`:
  - Ed25519 verification accepts what the matching signing key signed.
  - Digests and signatures are non-empty.
- `Binding`: a signature verifies under `pk(sk)` only for the message `sk` signed.
- `CollisionFree`: SHA-256, the UTF-8 encoder and the canonical JSON serialiser are injective.

Hexadecimal text (`bytes.hex`, `hexdigest`, `bytes.fromhex`) is modelled concretely, in module `HexText`. The canonical form is a function of the key/value map (`Crypto.Canonical`), so key insertion order cannot matter, as `sort_keys=True` guarantees.

Facts about the code that the model keeps:

- The genesis `previous_hash` is the empty string, not a zero hash.
- Nothing checks that an entry's `index` equals its position.
- `add_entry` performs no sequence or linkage validation.
- `import_from_json` does not re-verify what it imports.
- The verifier does not stop at the first failure.
- `entry_hash` covers the signature text.
- `metadata` is signed and `frame_path` is not.
- A broken genesis link is always reported under index 0. Other broken links are reported under the entry's own `index`.

## Model

| member | source | states |
|---|---|---|
| HexText.Hex | python_core/lib/crypto.py:184 | `bytes.hex()` gives two hexadecimal digits per byte |
| HexText.FromHexOfHex | python_core/lib/crypto.py:184-220 | `bytes.fromhex(s.hex())` gives back the signature bytes, so hex-encoding a signature loses nothing |
| HexText.HexInjective | python_core/lib/crypto.py:184 | distinct byte strings have distinct hex text |
| Crypto.HashData | python_core/lib/crypto.py:133-144 | the result is hex text twice as long as the SHA-256 digest, and it decodes back to exactly that digest |
| Crypto.HashFile | python_core/lib/crypto.py:124-131 | folding 8192-byte chunks into the incremental hash until an empty read gives `hash_data` of the whole contents (line 144) |
| Crypto.BuildEntry | python_core/lib/crypto.py:170-194 | no ensures of its own: it is the reference definition of the entry `create_chain_entry` returns once the key is loaded, and `CreatedEntryFields`, `CreatedEntryPayload`, `CreatedEntryHashVerifies` and `CreatedEntrySignatureVerifies` state its properties |
| Crypto.CreatedEntryFields | python_core/lib/crypto.py:171-177 | the created entry has exactly the five signed keys plus `signature` and `entry_hash`; it copies index, timestamp, frame hash and previous hash unchanged, and metadata becomes `{}` when it is falsy |
| Crypto.CreatedEntryPayload | python_core/lib/crypto.py:179-192 | the signature is the signature over the canonical form of exactly the five signed keys; `entry_hash` is the hash of that form followed by the signature's hex text |
| Crypto.CreatedEntryHashVerifies | python_core/lib/crypto.py:186-188 | round trip: `verify_entry_hash` accepts what `create_chain_entry` returns (lines 237-252) |
| Crypto.CreatedEntrySignatureVerifies | python_core/lib/crypto.py:180-184 | round trip: `verify_entry_signature` accepts what `create_chain_entry` returns, under the signing key's public key (lines 206-222) |
| Crypto.SignatureValid | python_core/lib/crypto.py:209-225 | acceptance implies that the signature is present, is a non-empty string and is valid hex, and that Ed25519 verifies it over the canonical form of the dict minus `signature` and `entry_hash`; so an absent or empty signature gives false |
| Crypto.VerifyEntryHash | python_core/lib/crypto.py:237-252 | it raises TypeError exactly when `entry_hash` is truthy and the signature is present but not a string; acceptance implies that `entry_hash` is present and is a string, so an absent hash gives false |
| Crypto.SignatureBindsPayload | python_core/lib/crypto.py:214-221 | under an idealised signature scheme, a signature made over a payload verifies only when the dict minus the derived keys is exactly that payload |
| Crypto.EntryHashCoversSignature | python_core/lib/crypto.py:186-188 | two entries with the same payload and different signatures cannot both pass `verify_entry_hash` with the same `entry_hash` |
| Crypto.ProvenanceCrypto.constructor | python_core/lib/crypto.py:21-33 | both keys start unloaded |
| Crypto.ProvenanceCrypto.LoadSigningKey | python_core/lib/crypto.py:70-90 | a missing key file is an error and leaves the field unchanged; otherwise the field holds the file's key |
| Crypto.ProvenanceCrypto.LoadVerifyKey | python_core/lib/crypto.py:92-111 | the same for the verify key |
| Crypto.ProvenanceCrypto.CreateChainEntry | python_core/lib/crypto.py:167-194 | it loads the signing key if none is loaded and fails when there is no key file; otherwise it returns the signed entry of `BuildEntry`, leaving the verify key alone |
| Crypto.ProvenanceCrypto.VerifyEntrySignature | python_core/lib/crypto.py:206-225 | it loads the verify key lazily; a missing key file is an error; otherwise the result is `SignatureValid` under the file's key |
| Chain.ToDict | python_core/lib/chain.py:35-46 | `to_dict` has all eight keys, `frame_path` among them, and carries the row's frame path and signature text; the metadata it reads back is stated by `MetadataRoundTrip` |
| Chain.MetadataRoundTrip | python_core/lib/chain.py:45 | falsy metadata is stored as NULL (line 122) and read back as `{}`; other metadata reads back unchanged |
| Chain.ProvenanceChain.constructor | python_core/lib/chain.py:54-78 | opening the database: the store holds exactly the rows already committed to `chain.db` (none for a new file), keyed by their indices |
| Chain.GetEntryByIndex | python_core/lib/chain.py:134-150 | None exactly when no row has that index; otherwise the row stored under it |
| Chain.GetLatestEntry | python_core/lib/chain.py:152-165 | None exactly on an empty table; otherwise a stored row whose index is the greatest |
| Chain.GetAllEntries | python_core/lib/chain.py:167-180 | every row, each as stored, in strictly ascending index order; its length is `get_chain_length` (lines 182-193) |
| Chain.GetChainLength | python_core/lib/chain.py:182-193 | the count of stored rows is the number of distinct indices, and it is zero exactly when the table is empty |
| Chain.GetAllEntriesComplete | python_core/lib/chain.py:176-178 | every stored row appears in the listing |
| Chain.AddedEntryFound | python_core/lib/chain.py:111-129 | after storing a row under a fresh index, the length grows by exactly one, `get_entry_by_index` returns the new row, and every other row is kept |
| Chain.ProvenanceChain.AddEntry | python_core/lib/chain.py:111-129 | a duplicate index fails on the unique constraint (line 25) and leaves the table unchanged; otherwise the one new row holds the given fields, with metadata stored as NULL when falsy |
| Chain.ImportRows | python_core/lib/chain.py:227-245 | the staging loop stages at most one row per input dict, only rows whose index is not committed, and each staged row is built from some input dict |
| Chain.InsertedFresh | python_core/lib/chain.py:244-247 | committing staged rows with fresh, distinct indices keeps every old row, adds exactly those rows under their indices, and adds nothing else |
| Chain.ImportRowsComplete | python_core/lib/chain.py:227-245 | every input dict whose index is not committed is read into a row, and that row is staged |
| Chain.ImportStoresFresh | python_core/lib/chain.py:227-247 | after a successful import, every input dict whose index was not stored before is stored, as the row built from it, under its index |
| Chain.ImportSkipsExisting | python_core/lib/chain.py:227-249 | import keeps every existing row unchanged, each added row comes from an input dict, and the returned count equals the growth in length |
| Chain.ImportRowsErrorPersists | python_core/lib/chain.py:226-251 | an exception while staging one dict aborts the whole import |
| Chain.ProvenanceChain.ImportFromJson | python_core/lib/chain.py:223-252 | the loop and the commit give the table and count of `Imported`; on any error, including duplicate indices within the input at commit, nothing is stored |
| Verifier.VerificationResult.constructor | python_core/verifier.py:20-24 | the counters start at zero and the failure list starts empty |
| Verifier.VerificationResult.AddFailure | python_core/verifier.py:28-35 | `failed_entries` grows by exactly one, exactly one record with the given index, reason and details is appended, and nothing else changes |
| Verifier.VerificationResult.IsValid | python_core/verifier.py:41-43 | no ensures of its own: the reference definition of validity (no failure recorded); `VerifyFullChain` states what it means for a verified chain |
| Verifier.CheckEntryWith | python_core/verifier.py:87-107 | the checks run in order (frame present, frame hash, signature, entry hash) and the first failing one decides; each verdict holds exactly when its check is the first to fail, and a hash mismatch carries the stored and the computed frame hash; Passed exactly when all four hold |
| Verifier.CheckEntry | python_core/verifier.py:87-107 | no ensures of its own: `verify_entry` as written, the four checks of `CheckEntryWith` on `to_dict()`, which includes `frame_path`; `LoggedEntryRejected` states its effect |
| Verifier.CheckEntryFixed | python_core/verifier.py:87-107 | no ensures of its own: `verify_entry` corrected, the four checks on the dict that was signed (`to_dict()` without `frame_path`); `LoggedEntryAcceptedByFixedCheck` states its effect |
| Verifier.ProvenanceVerifier.constructor | python_core/verifier.py:62-75 | the verifier holds the crypto handler for the keys directory and the chain store opened on `chain.db`, both given as arguments |
| Verifier.ProvenanceVerifier.VerifyEntry | python_core/verifier.py:77-107 | with a public key file the verdict is `CheckEntry` of the row; without one, it fails only when the signature check is reached |
| Verifier.LinkFailuresAtBrokenPositions | python_core/verifier.py:124-142 | every position is checked with no early stop: exactly one failure per broken link, in position order, the genesis one under index 0 and the others under `entries[i].index` |
| Verifier.LinkageCleanIff | python_core/verifier.py:121-142 | the linkage pass reports nothing exactly when the genesis `previous_hash` is empty and every `previous_hash` equals its predecessor's `entry_hash`; an empty list reports nothing |
| Verifier.GenesisFailureIff | python_core/verifier.py:124-130 | a genesis failure is recorded exactly when `entries[0].previous_hash != ""`, and it is the first failure |
| Verifier.ProvenanceVerifier.VerifyChainLinkage | python_core/verifier.py:109-144 | the result holds the failures `LinkageFailures` describes, with zero total and verified counts |
| Verifier.EntryCountsAddUp | python_core/verifier.py:175-186 | after the per-entry loop, verified plus failed equals the number of entries; there are no entry failures exactly when every entry passed |
| Verifier.NonePassed | python_core/verifier.py:179-180 | when no entry passes, `verified_entries` stays 0 |
| Verifier.ProvenanceVerifier.VerifyEntries | python_core/verifier.py:175-186 | the loop counts the passed entries and records one failure per failed entry, in order |
| Verifier.ProvenanceVerifier.TallyEntry | python_core/verifier.py:176-186 | one entry of the loop: a Passed verdict adds one verified entry; any other verdict adds one failed entry and exactly one record carrying the entry's index and the verdict's message |
| Verifier.ProvenanceVerifier.VerifyLoaded | python_core/verifier.py:166-191 | with the key loaded, the result counts every listed entry and appends the linkage failures: it equals `FullChainReport` of the entries and their verdicts |
| Verifier.ProvenanceVerifier.VerifyFullChain | python_core/verifier.py:156-191 | a missing public key stops verification (lines 159-163); otherwise the result is `FullChainReport` of the listed entries and their verdicts, and `is_valid` (lines 41-43) holds exactly when every entry passed and the linkage pass found nothing |
| Verifier.FullChainReportSound | python_core/verifier.py:166-191 | the total is the number of entries; verified plus entry failures is the total; `failed_entries` counts the records; `is_valid` (lines 41-43) holds exactly when every entry verifies and no link is broken |
| Verifier.LoggedEntryRejected | python_core/verifier.py:87-101 | as written, every row `capture_and_log` stored fails the signature check, because the recomputed form includes the unsigned `frame_path` |
| Verifier.LoggedEntryHashRejected | python_core/verifier.py:87-101 | as written, the entry-hash check also fails on every row `capture_and_log` stored, because the recomputed text includes `frame_path` |
| Verifier.LoggedEntryAcceptedByFixedCheck | python_core/lib/crypto.py:171-192 | checked against the signed dict, a stored row whose frame is intact passes all four checks |
| Verifier.SignedRowSignatureValid | python_core/lib/crypto.py:209-225 | the signature of a row as the logger stores it verifies against the dict that was signed |
| Verifier.SignedRowHashVerifies | python_core/lib/crypto.py:237-252 | the entry hash of a row as the logger stores it verifies against the dict that was signed |
| Logger.BaseName | python_core/logger.py:135 | `frame_path.name` is the longest suffix of the path that contains no `/` |
| Logger.CaptureMetadata | python_core/logger.py:134-138 | the metadata built for a frame is never empty, so `add_entry` stores it as given and `create_chain_entry` signs it unchanged |
| Logger.NextLink | python_core/logger.py:117-125 | on an empty chain it gives index 0 and previous hash `""`; otherwise one past the latest index and the latest entry hash; the index exceeds every stored index |
| Logger.LinkedNextLink | python_core/logger.py:117-121 | on a chain indexed 0..n-1 the next entry gets index n and links to entry n-1 |
| Logger.LinkedAppend | python_core/logger.py:117-159 | storing the row `NextLink` describes keeps the chain gap-free and linked |
| Logger.LoggedAppend | python_core/logger.py:150-159 | storing one more signed row keeps every row signed |
| Logger.LinkedEntriesInPlace | python_core/lib/chain.py:167-180 | on a gap-free chain, `get_all_entries` lists the entry with index i at position i |
| Logger.LinkedChainHasCleanLinkage | python_core/verifier.py:124-142 | a chain built by successive captures passes the linkage pass with no failure |
| Logger.StoredRowSigned | python_core/logger.py:141-159 | the row stored from the created entry reads back, without `frame_path` and the derived keys, as exactly the signed payload, with its signature and entry hash |
| Logger.ProvenanceLogger.constructor | python_core/logger.py:49-56 | the logger holds the given crypto handler and chain store, and `capture_count` starts at zero |
| Logger.CapturedRowFacts | python_core/logger.py:114-159 | the captured row goes under a fresh index one past the latest, links to the latest entry hash, records the frame path, frame hash, timestamp and metadata, and carries the signature and entry hash `create_chain_entry` returned |
| Logger.ProvenanceLogger.CaptureAndLog | python_core/logger.py:101-164 | a failed capture returns false with the chain and counter unchanged; a missing private key raises with the chain unchanged; otherwise it returns true, stores exactly the one captured row and increments `capture_count` by one |
| Logger.AfterCaptures | python_core/logger.py:101-164 | each successful capture adds exactly one row |
| Logger.CapturesKeepChainLinked | python_core/logger.py:117-159 | successive captures keep a gap-free, linked, signed chain gap-free, linked and signed |
| Logger.CapturesFromEmptyLinkClean | python_core/logger.py:117-125 | N captures from an empty chain give N rows indexed 0..N-1 on which `verify_chain_linkage` reports no failure |
| Logger.LoggedEntriesFail | python_core/verifier.py:99-101 | as written, no entry of a logged chain passes `verify_entry` |
| Logger.LoggedChainRejected | python_core/verifier.py:175-191 | as written, `verify_full_chain` on a chain the logger built verifies no entry and fails at least as many as there are entries |
| Logger.LoggedEntriesPassFixedCheck | python_core/verifier.py:87-107 | with the corrected check, every logged entry with an intact frame passes |
| Logger.LoggedChainAcceptedByFixedCheck | python_core/verifier.py:175-191 | with the corrected check, a logged chain with intact frames verifies every entry and records no failure |

## Left out

- SHA-256, Ed25519, UTF-8 encoding and `json.dumps` are abstract functions. Each lemma states which of the three idealisations (`Sound`, `Binding`, `CollisionFree`) it relies on. Digest and signature lengths are not fixed, because fixed lengths are inconsistent with exact injectivity.
- Loading `private_key.pem` and `public_key.pem` is modelled by `Crypto.KeyFiles`, the key each file holds or None when it is missing. `FileNotFoundError` is the `Err` result of `Crypto.CryptoError`. PEM and hex decoding of key files, key generation and `chmod` are left out as file I/O.
- The SQLAlchemy engine and sessions, the surrogate `id`, `created_at`, and the declared column widths are left out. SQLite does not enforce the widths.
- `export_to_json`, and reading the file in `import_from_json`, are left out as file I/O. The import takes the already parsed list of dicts.
- Chain.ProvenanceChain.ImportFromJson: a dict whose value has the wrong JSON type for its column is rejected with `BadValue`. For a null value, every column being NOT NULL, and for a list or dict value, which cannot be bound, the source also raises and stores nothing. Only a scalar of the wrong type (a number where text is expected, or the reverse) would have been stored as given, so the model is narrower there.
- `Primitives.Json` has no float case, so a float in the metadata (a configured frame rate such as `29.97` in the camera info, say) cannot be represented. `json.loads(json.dumps(v)) == v` is taken for the metadata values the model can represent. In Python that round trip fails for NaN, for tuples (they come back as lists) and for non-string keys.
- Verifier.ProvenanceVerifier.VerifyEntry: returns an `EntryVerdict` whose `Message()` is the error text, rather than the `(bool, str)` pair. The frame file system is a map from path to bytes.
- Verifier.ProvenanceVerifier.VerifyFullChain: `sys.exit(1)` on a missing public key is the `Err` result. Console output, `start_time`, `end_time`, `finalize` and `to_dict` of the result, `export_verification_report`, and `main` are left out as console, clock and process control.
- The printing inside `verify_entry_signature` is left out.
- `logger.py` `setup`, `run`, the signal handlers, the sleep loop and `shutdown` are left out as process supervision and timing. So are `camera.py` and `sensors.py`: the captured frame, the camera info, the sensor readings and the timestamp are parameters of `CaptureAndLog`.
- Logger.BaseName: does not strip trailing separators as `Path.name` does. Frame paths the camera writes never end in one.
- `api/server.py` and `ai_quality.py` are not part of this model.

## Findings

| source | as written | input that shows it | evidently intended | confidence | as-written member | corrected member |
|---|---|---|---|---|---|---|
| python_core/verifier.py:87-101 | `verify_entry` hands `entry.to_dict()`, which carries `frame_path` (python_core/lib/chain.py:40), to `verify_entry_signature`. The recomputed canonical form therefore contains a key that was never signed (python_core/lib/crypto.py:171-184), and the same holds for `verify_entry_hash` (`LoggedEntryHashRejected`). | Any entry stored by `capture_and_log`, such as the genesis entry of a fresh chain with its frame file intact. The signature check fails, so `verify_full_chain` reports every entry as failed. | Check the dict that was signed: `to_dict()` without `frame_path`. | not executed | Verifier.LoggedEntryRejected | Verifier.LoggedEntryAcceptedByFixedCheck |
