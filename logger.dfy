/**
 * The builder step of the provenance logger (python_core/logger.py,
 * `capture_and_log`): derive the next index and previous hash from the
 * latest stored entry, sign the entry, store it, count the capture. The
 * camera, the sensors and the clock are parameters.
 */
module Logger {
  import opened Wrappers
  import opened Primitives
  import opened HexText
  import opened Crypto
  import opened Chain
  import opened Verifier

  /** A captured frame: the path the camera wrote and the bytes of that file. */
  datatype Frame = Frame(path: string, contents: seq<byte>)

  /** `Path.name`: the longest suffix of the path without a `/`. */
  function BaseName(path: string): (name: string)
    ensures '/' !in name
    ensures |name| <= |path| && path[|path| - |name|..] == name
    ensures |name| < |path| ==> path[|path| - |name| - 1] == '/'
  {
    if path == [] || path[|path| - 1] == '/' then []
    else BaseName(path[..|path| - 1]) + [path[|path| - 1]]
  }

  /** The metadata `capture_and_log` builds for a frame. */
  function CaptureMetadata(frameName: string, cameraInfo: Json, sensorData: Json): (md: Json)
    ensures Truthy(md)
  {
    var fields := map["frame_filename" := JStr(frameName), "camera" := cameraInfo, "sensors" := sensorData];
    assert fields != map[] by {
      assert "frame_filename" in fields;
    }
    JObject(fields)
  }

  /**
   * The index and previous hash of the next entry: `(0, "")` on an empty
   * chain, otherwise one past the latest index and the latest entry hash.
   */
  function NextLink(t: Table): (link: (int, string))
    requires WellKeyed(t)
    ensures t == map[] ==> link == (0, "")
    ensures t != map[] ==> link.0 - 1 in t && link.1 == t[link.0 - 1].entryHash
    ensures forall k :: k in t ==> k < link.0
  {
    match GetLatestEntry(t)
    case None => (0, "")
    case Some(latest) => (latest.index + 1, latest.entryHash)
  }

  /**
   * A chain as successive captures leave it: indices 0 to n-1 without gaps,
   * an empty genesis `previous_hash`, and every other `previous_hash` equal
   * to the entry hash stored just before it.
   */
  ghost predicate Linked(t: Table)
  {
    && WellKeyed(t)
    && (forall k :: k in t <==> 0 <= k < |t|)
    && (0 in t ==> t[0].previousHash == "")
    && (forall k :: 1 <= k < |t| ==> t[k].previousHash == t[k - 1].entryHash)
  }

  /** Every row was signed and hashed by `capture_and_log` with key `sk`. */
  ghost predicate Logged(b: Backend, sk: SigningKey, t: Table)
  {
    forall k :: k in t ==> SignedBy(b, sk, t[k])
  }

  /** On a linked chain the next entry goes at position |t| and links to the entry before it. */
  lemma LinkedNextLink(t: Table)
    requires Linked(t)
    ensures NextLink(t).0 == |t|
    ensures t != map[] ==> NextLink(t).1 == t[|t| - 1].entryHash
  {
    if t != map[] {
      var n := NextLink(t).0;
      assert n - 1 < |t|;
      assert |t| - 1 in t;
    }
  }

  /** Storing the row `NextLink` describes keeps a chain linked. */
  lemma LinkedAppend(t: Table, row: ChainEntry)
    requires Linked(t)
    requires (row.index, row.previousHash) == NextLink(t)
    ensures Linked(t[row.index := row])
  {
    LinkedNextLink(t);
    var t' := t[row.index := row];
    assert row.index !in t;
    assert |t'| == |t| + 1;
  }

  /** Storing a signed row under a fresh index keeps every row signed. */
  lemma LoggedAppend(b: Backend, sk: SigningKey, t: Table, row: ChainEntry)
    requires SignedBy(b, sk, row)
    ensures Logged(b, sk, t) ==> Logged(b, sk, t[row.index := row])
  {
  }

  /** Positions of a strictly ascending list of indices below its length are the indices themselves: the lower half. */
  lemma {:induction false} AscendingLowerBound(es: seq<ChainEntry>, i: nat)
    requires forall j :: 0 <= j < |es| ==> 0 <= es[j].index
    requires forall j, l :: 0 <= j < l < |es| ==> es[j].index < es[l].index
    requires i < |es|
    ensures i <= es[i].index
  {
    if i > 0 {
      AscendingLowerBound(es, i - 1);
    }
  }

  /** The upper half of the same fact. */
  lemma {:induction false} AscendingUpperBound(es: seq<ChainEntry>, i: nat)
    requires forall j :: 0 <= j < |es| ==> es[j].index < |es|
    requires forall j, l :: 0 <= j < l < |es| ==> es[j].index < es[l].index
    requires i < |es|
    ensures es[i].index <= i
    decreases |es| - i
  {
    if i < |es| - 1 {
      AscendingUpperBound(es, i + 1);
    }
  }

  /** On a linked chain `get_all_entries` lists the entry with index i at position i. */
  lemma LinkedEntriesInPlace(t: Table)
    requires Linked(t)
    ensures forall i :: 0 <= i < |GetAllEntries(t)| ==> GetAllEntries(t)[i] == t[i]
  {
    ListingInPlace(t, GetAllEntries(t));
  }

  /** A listing of a linked chain's rows in ascending index order holds the entry with index i at position i. */
  lemma ListingInPlace(t: Table, es: seq<ChainEntry>)
    requires Linked(t)
    requires |es| == |t|
    requires forall i :: 0 <= i < |es| ==> es[i].index in t && t[es[i].index] == es[i]
    requires forall i, j :: 0 <= i < j < |es| ==> es[i].index < es[j].index
    ensures forall i :: 0 <= i < |es| ==> es[i] == t[i]
  {
    forall i | 0 <= i < |es|
      ensures es[i] == t[i]
    {
      AscendingLowerBound(es, i);
      AscendingUpperBound(es, i);
    }
  }

  /** A chain built by successive captures passes `verify_chain_linkage` with no failure. */
  lemma LinkedChainHasCleanLinkage(t: Table)
    requires Linked(t)
    ensures LinkageFailures(GetAllEntries(t)) == []
  {
    var es := GetAllEntries(t);
    ListingInPlace(t, es);
    ListingLinkClean(t, es);
  }

  /** A listing that holds a linked chain's entry i at position i has no broken link. */
  lemma ListingLinkClean(t: Table, es: seq<ChainEntry>)
    requires Linked(t)
    requires |es| == |t|
    requires forall i :: 0 <= i < |es| ==> es[i] == t[i]
    ensures LinkageFailures(es) == []
  {
    forall i | 0 <= i < |es|
      ensures !LinkBroken(es, i)
    {
      if i > 0 {
        assert es[i] == t[i] && es[i - 1] == t[i - 1];
      }
    }
    LinkageCleanIff(es);
  }

  /** The stored row reads back, minus `frame_path` and the derived keys, as exactly the payload that was signed. */
  lemma StoredRowSigned(b: Backend, sk: SigningKey, index: int, timestamp: string, framePath: string,
                        frameHash: string, previousHash: string, metadata: Json, entryHash: string, signature: string)
    requires Truthy(metadata)
    requires var e := BuildEntry(b, sk, index, timestamp, frameHash, previousHash, metadata);
      e["entry_hash"] == JStr(entryHash) && e["signature"] == JStr(signature)
    ensures var row := ChainEntry(index, timestamp, framePath, frameHash, previousHash, entryHash, signature,
                                  StoredMetadata(metadata));
      && SignedDict(row) - DerivedKeys == UnsignedEntry(index, timestamp, frameHash, previousHash, metadata)
      && SignedBy(b, sk, row)
  {
    CreatedEntryPayload(b, sk, index, timestamp, frameHash, previousHash, metadata);
    var row := ChainEntry(index, timestamp, framePath, frameHash, previousHash, entryHash, signature,
                          StoredMetadata(metadata));
    assert SignedDict(row) - DerivedKeys == UnsignedEntry(index, timestamp, frameHash, previousHash, metadata);
  }

  /**
   * The row `capture_and_log` stores for a frame on the table `t`: the fields
   * of the entry `create_chain_entry` returns, with the frame's path and the
   * metadata as built.
   */
  function CapturedRow(b: Backend, sk: SigningKey, t: Table, frame: Frame, cameraInfo: Json, sensorData: Json,
                       timestamp: string): ChainEntry
    requires WellKeyed(t)
  {
    var (index, previousHash) := NextLink(t);
    var metadata := CaptureMetadata(BaseName(frame.path), cameraInfo, sensorData);
    var entry := BuildEntry(b, sk, index, timestamp, HashData(b, frame.contents), previousHash, metadata);
    CreatedEntryFields(b, sk, index, timestamp, HashData(b, frame.contents), previousHash, metadata);
    CreatedEntryPayload(b, sk, index, timestamp, HashData(b, frame.contents), previousHash, metadata);
    ChainEntry(entry["index"].i, entry["timestamp"].s, frame.path, entry["frame_hash"].s, entry["previous_hash"].s,
               entry["entry_hash"].s, entry["signature"].s, StoredMetadata(metadata))
  }

  /**
   * The captured row goes under a fresh index one past the latest, links to
   * the latest entry hash, records the frame and its hash, is signed, and
   * keeps a linked, signed chain linked and signed.
   */
  lemma CapturedRowFacts(b: Backend, sk: SigningKey, t: Table, frame: Frame, cameraInfo: Json, sensorData: Json,
                         timestamp: string)
    requires WellKeyed(t)
    ensures var row := CapturedRow(b, sk, t, frame, cameraInfo, sensorData, timestamp);
      && (row.index, row.previousHash) == NextLink(t)
      && row.index !in t
      && row.timestamp == timestamp
      && row.framePath == frame.path
      && row.frameHash == HashData(b, frame.contents)
      && row.metadata == Some(CaptureMetadata(BaseName(frame.path), cameraInfo, sensorData))
      && SignedBy(b, sk, row)
      && (Linked(t) ==> Linked(t[row.index := row]))
      && (Logged(b, sk, t) ==> Logged(b, sk, t[row.index := row]))
  {
    var (index, previousHash) := NextLink(t);
    var metadata := CaptureMetadata(BaseName(frame.path), cameraInfo, sensorData);
    var frameHash := HashData(b, frame.contents);
    var entry := BuildEntry(b, sk, index, timestamp, frameHash, previousHash, metadata);
    CreatedEntryFields(b, sk, index, timestamp, frameHash, previousHash, metadata);
    CreatedEntryPayload(b, sk, index, timestamp, frameHash, previousHash, metadata);
    StoredRowSigned(b, sk, index, timestamp, frame.path, frameHash, previousHash, metadata,
                    entry["entry_hash"].s, entry["signature"].s);
    var row := CapturedRow(b, sk, t, frame, cameraInfo, sensorData, timestamp);
    assert row == ChainEntry(index, timestamp, frame.path, frameHash, previousHash, entry["entry_hash"].s,
                             entry["signature"].s, StoredMetadata(metadata));
    if Linked(t) {
      LinkedAppend(t, row);
    }
    LoggedAppend(b, sk, t, row);
  }

  /** `ProvenanceLogger`: the crypto handler, the chain store and the capture counter. */
  class ProvenanceLogger {
    const crypto: ProvenanceCrypto
    const chain: ProvenanceChain
    var captureCount: nat

    ghost predicate Valid()
      reads crypto, chain
    {
      crypto.Valid() && chain.Valid()
    }

    constructor (crypto: ProvenanceCrypto, chain: ProvenanceChain)
      ensures this.crypto == crypto && this.chain == chain && captureCount == 0
    {
      this.crypto := crypto;
      this.chain := chain;
      captureCount := 0;
    }

    /**
     * `capture_and_log`: `shot` is what the camera returned, `cameraInfo`,
     * `sensorData` and `timestamp` what the camera, the sensors and the clock
     * report. A missing frame returns false; a missing private key raises
     * out of `create_chain_entry`; otherwise exactly one row is stored, under
     * a fresh index (see `CapturedRowFacts`), and the capture is counted.
     */
    method CaptureAndLog(shot: Option<Frame>, cameraInfo: Json, sensorData: Json, timestamp: string)
      returns (r: Result<bool, CryptoError>)
      requires Valid()
      modifies this, crypto, chain
      ensures Valid() && crypto.verifyKey == old(crypto.verifyKey)
      ensures shot.None? ==>
        r == Ok(false) && chain.rows == old(chain.rows) && captureCount == old(captureCount)
        && crypto.signingKey == old(crypto.signingKey)
      ensures shot.Some? && crypto.keyFiles.privateKey.None? ==>
        r == Err(PrivateKeyNotFound) && chain.rows == old(chain.rows) && captureCount == old(captureCount)
      ensures shot.Some? && crypto.keyFiles.privateKey.Some? ==>
        var row := CapturedRow(crypto.backend, crypto.keyFiles.privateKey.value, old(chain.rows), shot.value,
                               cameraInfo, sensorData, timestamp);
        && r == Ok(true)
        && crypto.signingKey == crypto.keyFiles.privateKey
        && captureCount == old(captureCount) + 1
        && chain.rows == old(chain.rows)[row.index := row]
    {
      assert this as object != chain as object && chain as object != crypto as object && crypto as object != this as object;
      if shot.None? {
        return Ok(false);
      }
      var frame := shot.value;
      var frameHash := HashFile(crypto.backend, frame.contents);
      var latest := GetLatestEntry(chain.rows);
      var index, previousHash := 0, "";
      if latest.Some? {
        index, previousHash := latest.value.index + 1, latest.value.entryHash;
      }
      assert (index, previousHash) == NextLink(chain.rows);
      var metadata := CaptureMetadata(BaseName(frame.path), cameraInfo, sensorData);
      var entry :- crypto.CreateChainEntry(index, timestamp, frameHash, previousHash, metadata);
      ghost var sk := crypto.keyFiles.privateKey.value;
      ghost var loadedKey := crypto.signingKey;
      assert loadedKey == crypto.keyFiles.privateKey;
      CreatedEntryFields(crypto.backend, sk, index, timestamp, frameHash, previousHash, metadata);
      CreatedEntryPayload(crypto.backend, sk, index, timestamp, frameHash, previousHash, metadata);
      ghost var row := CapturedRow(crypto.backend, sk, chain.rows, frame, cameraInfo, sensorData, timestamp);
      CapturedRowFacts(crypto.backend, sk, chain.rows, frame, cameraInfo, sensorData, timestamp);
      var entryIndex, entryTimestamp, entryFrameHash := entry["index"].i, entry["timestamp"].s, entry["frame_hash"].s;
      var entryPreviousHash, entryHash, signature := entry["previous_hash"].s, entry["entry_hash"].s, entry["signature"].s;
      assert row == ChainEntry(entryIndex, entryTimestamp, frame.path, entryFrameHash, entryPreviousHash, entryHash, signature,
                               StoredMetadata(metadata));
      assert entryIndex !in chain.rows;
      var stored := chain.AddEntry(entryIndex, entryTimestamp, frame.path, entryFrameHash,
                                   entryPreviousHash, entryHash, signature, metadata);
      assert crypto.signingKey == loadedKey;
      captureCount := captureCount + 1;
      r := Ok(true);
    }
  }

  /** What one successful `capture_and_log` is given: the frame and what the camera, sensors and clock report. */
  datatype Capture = Capture(frame: Frame, cameraInfo: Json, sensorData: Json, timestamp: string)

  /** The table after a run of successful captures, each storing its `CapturedRow`. */
  ghost function AfterCaptures(b: Backend, sk: SigningKey, t: Table, captures: seq<Capture>): (t': Table)
    requires WellKeyed(t)
    ensures WellKeyed(t')
    ensures |t'| == |t| + |captures|
    decreases |captures|
  {
    if captures == [] then t
    else
      var c := captures[0];
      var row := CapturedRow(b, sk, t, c.frame, c.cameraInfo, c.sensorData, c.timestamp);
      CapturedRowFacts(b, sk, t, c.frame, c.cameraInfo, c.sensorData, c.timestamp);
      AddedEntryFound(t, row);
      AfterCaptures(b, sk, t[row.index := row], captures[1..])
  }

  /** Successive captures keep a linked, signed chain linked and signed. */
  lemma {:induction false} CapturesKeepChainLinked(b: Backend, sk: SigningKey, t: Table, captures: seq<Capture>)
    requires Linked(t) && Logged(b, sk, t)
    ensures Linked(AfterCaptures(b, sk, t, captures)) && Logged(b, sk, AfterCaptures(b, sk, t, captures))
    decreases |captures|
  {
    if captures != [] {
      var c := captures[0];
      var row := CapturedRow(b, sk, t, c.frame, c.cameraInfo, c.sensorData, c.timestamp);
      CapturedRowFacts(b, sk, t, c.frame, c.cameraInfo, c.sensorData, c.timestamp);
      CapturesKeepChainLinked(b, sk, t[row.index := row], captures[1..]);
    }
  }

  /**
   * N successful captures from an empty chain give N entries, indexed 0 to
   * N-1, on which `verify_chain_linkage` reports no failure.
   */
  lemma CapturesFromEmptyLinkClean(b: Backend, sk: SigningKey, captures: seq<Capture>)
    ensures var t := AfterCaptures(b, sk, map[], captures);
      && Linked(t) && Logged(b, sk, t)
      && GetChainLength(t) == |captures|
      && LinkageFailures(GetAllEntries(t)) == []
  {
    CapturesKeepChainLinked(b, sk, map[], captures);
    LinkedChainHasCleanLinkage(AfterCaptures(b, sk, map[], captures));
  }

  /** The frame files on disk still hold the bytes whose hash each row records. */
  ghost predicate FramesIntact(b: Backend, files: Files, t: Table)
  {
    forall k :: k in t ==> t[k].framePath in files && HashData(b, files[t[k].framePath]) == t[k].frameHash
  }

  /** As written, no entry of a logged chain passes `verify_entry`. */
  lemma LoggedEntriesFail(b: Backend, sk: SigningKey, files: Files, t: Table)
    requires Binding(b) && CollisionFree(b)
    requires WellKeyed(t) && Logged(b, sk, t)
    ensures var es := GetAllEntries(t);
      forall i :: 0 <= i < |es| ==> !Verdicts(b, b.publicKeyOf(sk), files, es)[i].Passed?
  {
    var es := GetAllEntries(t);
    forall i | 0 <= i < |es|
      ensures !Verdicts(b, b.publicKeyOf(sk), files, es)[i].Passed?
    {
      var e := es[i];
      assert e.index in t && t[e.index] == e;
      LoggedEntryRejected(b, sk, files, e);
    }
  }

  /**
   * As written, `verify_full_chain` on a chain the logger built reports every
   * entry as failed and none as verified, whatever the frame files hold.
   */
  lemma LoggedChainRejected(b: Backend, sk: SigningKey, files: Files, t: Table)
    requires Binding(b) && CollisionFree(b)
    requires WellKeyed(t) && Logged(b, sk, t)
    ensures var es := GetAllEntries(t);
      var report := FullChainReport(es, Verdicts(b, b.publicKeyOf(sk), files, es));
      report.verifiedEntries == 0 && report.failedEntries >= report.totalEntries
  {
    var es := GetAllEntries(t);
    var vs := Verdicts(b, b.publicKeyOf(sk), files, es);
    LoggedEntriesFail(b, sk, files, t);
    NonePassed(vs);
    EntryCountsAddUp(es, vs);
  }

  /** With the corrected entry check, every entry of a logged chain whose frames are intact passes. */
  lemma LoggedEntriesPassFixedCheck(b: Backend, sk: SigningKey, files: Files, t: Table)
    requires Sound(b)
    requires WellKeyed(t) && Logged(b, sk, t) && FramesIntact(b, files, t)
    ensures var es := GetAllEntries(t);
      forall i :: 0 <= i < |es| ==> FixedVerdicts(b, b.publicKeyOf(sk), files, es)[i].Passed?
  {
    var es := GetAllEntries(t);
    forall i | 0 <= i < |es|
      ensures FixedVerdicts(b, b.publicKeyOf(sk), files, es)[i].Passed?
    {
      var e := es[i];
      assert e.index in t && t[e.index] == e;
      LoggedEntryAcceptedByFixedCheck(b, sk, files, e);
    }
  }

  /**
   * With the corrected entry check, a chain built by successive captures whose
   * frame files are intact verifies with no failure.
   */
  lemma LoggedChainAcceptedByFixedCheck(b: Backend, sk: SigningKey, files: Files, t: Table)
    requires Sound(b)
    requires Linked(t) && Logged(b, sk, t) && FramesIntact(b, files, t)
    ensures var es := GetAllEntries(t);
      var report := FullChainReport(es, FixedVerdicts(b, b.publicKeyOf(sk), files, es));
      report.verifiedEntries == report.totalEntries && report.failedEntries == 0
  {
    var es := GetAllEntries(t);
    var vs := FixedVerdicts(b, b.publicKeyOf(sk), files, es);
    LoggedEntriesPassFixedCheck(b, sk, files, t);
    LinkedChainHasCleanLinkage(t);
    FullChainReportSound(es, vs);
    EntryCountsAddUp(es, vs);
  }
}
