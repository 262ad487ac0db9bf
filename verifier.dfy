/**
 * The chain verifier (python_core/verifier.py): the per-entry check, the
 * separate linkage pass, and the counting of `verify_full_chain`. Nothing
 * stops at the first failure: every entry is checked and every link is
 * checked, and `index == position` is never checked.
 */
module Verifier {
  import opened Wrappers
  import opened Primitives
  import opened HexText
  import opened Crypto
  import opened Chain

  /** One record of `VerificationResult.failures`. */
  datatype Failure = Failure(entryIndex: int, reason: string, details: string)

  const EntryReason: string := "Entry verification failed"
  const GenesisReason: string := "Invalid genesis entry"
  const LinkageReason: string := "Broken chain linkage"

  /** Python's `s[:16]`. */
  function Prefix16(s: string): string
  {
    if |s| <= 16 then s else s[..16]
  }

  /** The outcome of `verify_entry`: `(True, "")` for Passed, `(False, Message())` otherwise. */
  datatype EntryVerdict =
    | Passed
    | FrameNotFound(path: string)
    | FrameHashMismatch(expected: string, actual: string)
    | InvalidSignature
    | InvalidEntryHash
  {
    function Message(): string
    {
      match this
      case Passed => ""
      case FrameNotFound(path) => "Frame file not found: " + path
      case FrameHashMismatch(expected, actual) =>
        "Frame hash mismatch: expected " + Prefix16(expected) + "..., got " + Prefix16(actual) + "..."
      case InvalidSignature => "Invalid Ed25519 signature"
      case InvalidEntryHash => "Invalid entry hash"
    }
  }

  /** The frame files on disk at verification time, by path. */
  type Files = map<string, seq<byte>>

  /**
   * The four checks of `verify_entry`, in order, on the row `e` and the dict
   * `d` handed to the signature and entry-hash checks; the first failing one
   * decides the verdict.
   */
  function CheckEntryWith(b: Backend, vk: VerifyKey, files: Files, e: ChainEntry, d: Dict): (v: EntryVerdict)
    ensures v.Passed? <==>
      && e.framePath in files && HashData(b, files[e.framePath]) == e.frameHash
      && SignatureValid(b, vk, d) && VerifyEntryHash(b, d) == Ok(true)
    ensures v.FrameNotFound? <==> e.framePath !in files
    ensures v.FrameNotFound? ==> v.path == e.framePath
    ensures v.FrameHashMismatch? <==> e.framePath in files && HashData(b, files[e.framePath]) != e.frameHash
    ensures v.FrameHashMismatch? ==> v.expected == e.frameHash && v.actual == HashData(b, files[e.framePath])
    ensures v.InvalidSignature? <==>
      e.framePath in files && HashData(b, files[e.framePath]) == e.frameHash && !SignatureValid(b, vk, d)
    ensures v.InvalidEntryHash? <==>
      && e.framePath in files && HashData(b, files[e.framePath]) == e.frameHash
      && SignatureValid(b, vk, d) && VerifyEntryHash(b, d) != Ok(true)
  {
    if e.framePath !in files then FrameNotFound(e.framePath)
    else
      var actual := HashData(b, files[e.framePath]);
      if actual != e.frameHash then FrameHashMismatch(e.frameHash, actual)
      else if !SignatureValid(b, vk, d) then InvalidSignature
      else if VerifyEntryHash(b, d) != Ok(true) then InvalidEntryHash
      else Passed
  }

  /** `verify_entry` as written: the checks get `entry.to_dict()`, which carries `frame_path`. */
  function CheckEntry(b: Backend, vk: VerifyKey, files: Files, e: ChainEntry): EntryVerdict
  {
    CheckEntryWith(b, vk, files, e, ToDict(e))
  }

  /** The dict `create_chain_entry` returned for a stored row: `to_dict()` without `frame_path`. */
  function SignedDict(e: ChainEntry): (d: Dict)
    ensures d.Keys == SignedKeys + DerivedKeys
  {
    ToDict(e) - {"frame_path"}
  }

  /** `verify_entry` corrected: the checks get the dict that was signed. */
  function CheckEntryFixed(b: Backend, vk: VerifyKey, files: Files, e: ChainEntry): EntryVerdict
  {
    CheckEntryWith(b, vk, files, e, SignedDict(e))
  }

  /** The verdict of every entry, in order. */
  function Verdicts(b: Backend, vk: VerifyKey, files: Files, es: seq<ChainEntry>): (vs: seq<EntryVerdict>)
    ensures |vs| == |es|
  {
    seq(|es|, i requires 0 <= i < |es| => CheckEntry(b, vk, files, es[i]))
  }

  function FixedVerdicts(b: Backend, vk: VerifyKey, files: Files, es: seq<ChainEntry>): (vs: seq<EntryVerdict>)
    ensures |vs| == |es|
  {
    seq(|es|, i requires 0 <= i < |es| => CheckEntryFixed(b, vk, files, es[i]))
  }

  /** The link into position `i` is broken: a non-empty genesis `previous_hash`, or a `previous_hash` that is not its predecessor's `entry_hash`. */
  predicate LinkBroken(es: seq<ChainEntry>, i: nat)
    requires i < |es|
  {
    if i == 0 then es[0].previousHash != "" else es[i].previousHash != es[i - 1].entryHash
  }

  /** The failure `verify_chain_linkage` records for a broken link at position `i` (the genesis one always under index 0). */
  function LinkFailure(es: seq<ChainEntry>, i: nat): Failure
    requires i < |es|
  {
    if i == 0 then
      Failure(0, GenesisReason, "Genesis previous_hash should be empty, got: " + es[0].previousHash)
    else
      Failure(es[i].index, LinkageReason,
              "Expected previous_hash " + Prefix16(es[i - 1].entryHash) + "..., got " + Prefix16(es[i].previousHash) + "...")
  }

  /** The failures of the linkage pass over the first `n` positions. */
  function LinkFailures(es: seq<ChainEntry>, n: nat): seq<Failure>
    requires n <= |es|
  {
    if n == 0 then []
    else LinkFailures(es, n - 1) + (if LinkBroken(es, n - 1) then [LinkFailure(es, n - 1)] else [])
  }

  /** The failures `verify_chain_linkage` records. */
  function LinkageFailures(es: seq<ChainEntry>): seq<Failure>
  {
    LinkFailures(es, |es|)
  }

  /** The broken positions below `n`, in ascending order. */
  function BrokenPositions(es: seq<ChainEntry>, n: nat): (ps: seq<nat>)
    requires n <= |es|
    ensures forall k :: 0 <= k < |ps| ==> ps[k] < n && LinkBroken(es, ps[k])
    ensures forall i :: 0 <= i < n && LinkBroken(es, i) ==> i in ps
    ensures forall k, l :: 0 <= k < l < |ps| ==> ps[k] < ps[l]
  {
    if n == 0 then []
    else BrokenPositions(es, n - 1) + (if LinkBroken(es, n - 1) then [n - 1] else [])
  }

  /**
   * The linkage pass checks every position with no early stop: it records
   * exactly one failure per broken link, in position order, and nothing else.
   */
  lemma {:induction false} LinkFailuresAtBrokenPositions(es: seq<ChainEntry>, n: nat)
    requires n <= |es|
    ensures var ps := BrokenPositions(es, n);
      && |LinkFailures(es, n)| == |ps|
      && forall k :: 0 <= k < |ps| ==> LinkFailures(es, n)[k] == LinkFailure(es, ps[k])
  {
    if n > 0 {
      LinkFailuresAtBrokenPositions(es, n - 1);
    }
  }

  /** The linkage pass reports nothing exactly when no link is broken (in particular for an empty list). */
  lemma {:induction false} LinkageCleanIff(es: seq<ChainEntry>)
    ensures LinkageFailures(es) == [] <==> forall i :: 0 <= i < |es| ==> !LinkBroken(es, i)
  {
    LinkFailuresAtBrokenPositions(es, |es|);
    var ps := BrokenPositions(es, |es|);
    if LinkageFailures(es) == [] {
      assert ps == [];
    } else {
      assert LinkBroken(es, ps[0]);
    }
  }

  /** A genesis failure is recorded exactly when the first entry's `previous_hash` is not empty, and always first. */
  lemma GenesisFailureIff(es: seq<ChainEntry>)
    requires es != []
    ensures var fs := LinkageFailures(es);
      (es[0].previousHash != "") <==> (fs != [] && fs[0] == LinkFailure(es, 0))
  {
    LinkFailuresAtBrokenPositions(es, |es|);
    var ps := BrokenPositions(es, |es|);
    if es[0].previousHash != "" {
      assert 0 in ps;
      assert ps[0] == 0;
    } else if ps != [] {
      assert ps[0] != 0;
      assert LinkFailure(es, ps[0]).reason == LinkageReason;
    }
  }

  /** Failures the per-entry loop of `verify_full_chain` records, given each entry's verdict. */
  function EntryFailures(es: seq<ChainEntry>, vs: seq<EntryVerdict>): seq<Failure>
    requires |es| == |vs|
  {
    if es == [] then []
    else
      var n := |es| - 1;
      EntryFailures(es[..n], vs[..n]) + (if vs[n].Passed? then [] else [Failure(es[n].index, EntryReason, vs[n].Message())])
  }

  /** How many verdicts are Passed: the `verified_entries` counter. */
  function PassedCount(vs: seq<EntryVerdict>): nat
  {
    if vs == [] then 0
    else PassedCount(vs[..|vs| - 1]) + (if vs[|vs| - 1].Passed? then 1 else 0)
  }

  /** One more verdict: the counters of a prefix grow by that verdict alone. */
  lemma EntryStep(es: seq<ChainEntry>, vs: seq<EntryVerdict>, i: nat)
    requires |es| == |vs| && i < |es|
    ensures PassedCount(vs[..i + 1]) == PassedCount(vs[..i]) + (if vs[i].Passed? then 1 else 0)
    ensures EntryFailures(es[..i + 1], vs[..i + 1]) ==
      EntryFailures(es[..i], vs[..i]) + (if vs[i].Passed? then [] else [Failure(es[i].index, EntryReason, vs[i].Message())])
  {
    assert es[..i + 1][..i] == es[..i] && vs[..i + 1][..i] == vs[..i];
  }

  /** No verdict passed: nothing is counted as verified. */
  lemma {:induction false} NonePassed(vs: seq<EntryVerdict>)
    requires forall i :: 0 <= i < |vs| ==> !vs[i].Passed?
    ensures PassedCount(vs) == 0
  {
    if vs != [] {
      NonePassed(vs[..|vs| - 1]);
    }
  }

  /** The final counters and failures of `verify_full_chain`. */
  datatype Report = Report(totalEntries: int, verifiedEntries: int, failedEntries: int, failures: seq<Failure>)

  function FullChainReport(es: seq<ChainEntry>, vs: seq<EntryVerdict>): Report
    requires |es| == |vs|
  {
    var entryFailures := EntryFailures(es, vs);
    var linkFailures := LinkageFailures(es);
    Report(|es|, PassedCount(vs), |entryFailures| + |linkFailures|, entryFailures + linkFailures)
  }

  /** Every entry is counted once: verified or failed. */
  lemma {:induction false} EntryCountsAddUp(es: seq<ChainEntry>, vs: seq<EntryVerdict>)
    requires |es| == |vs|
    ensures PassedCount(vs) + |EntryFailures(es, vs)| == |es|
    ensures EntryFailures(es, vs) == [] <==> forall i :: 0 <= i < |vs| ==> vs[i].Passed?
  {
    if es != [] {
      var n := |es| - 1;
      EntryCountsAddUp(es[..n], vs[..n]);
      assert forall i :: 0 <= i < n ==> vs[..n][i] == vs[i];
    }
  }

  /**
   * After `verify_full_chain`: verified plus entry failures is the total, the
   * failure count is the entry failures plus the linkage failures, and the
   * result is valid exactly when every entry verifies and no link is broken.
   */
  lemma FullChainReportSound(es: seq<ChainEntry>, vs: seq<EntryVerdict>)
    requires |es| == |vs|
    ensures var r := FullChainReport(es, vs);
      && r.totalEntries == |es|
      && r.verifiedEntries + |EntryFailures(es, vs)| == r.totalEntries
      && r.failedEntries == |r.failures|
      && (r.failedEntries == 0 <==>
            (forall i :: 0 <= i < |vs| ==> vs[i].Passed?) && (forall i :: 0 <= i < |es| ==> !LinkBroken(es, i)))
  {
    EntryCountsAddUp(es, vs);
    LinkageCleanIff(es);
  }

  /**
   * A row as `capture_and_log` stores it: the signature covers the canonical
   * form of the five signed keys as `to_dict` reads them back, and the entry
   * hash covers that form followed by the signature.
   */
  ghost predicate SignedBy(b: Backend, sk: SigningKey, e: ChainEntry)
  {
    var payload := SignedDict(e) - DerivedKeys;
    && e.signature == Hex(b.sign(sk, b.encode(Canonical(b, payload))))
    && e.entryHash == HashData(b, b.encode(Canonical(b, payload) + e.signature))
  }

  /**
   * As written, `verify_entry` rejects every row it should accept: the
   * recomputed payload includes `frame_path`, which was not signed, so under
   * an idealised signature scheme the signature check fails.
   */
  lemma LoggedEntryRejected(b: Backend, sk: SigningKey, files: Files, e: ChainEntry)
    requires Binding(b) && CollisionFree(b)
    requires SignedBy(b, sk, e)
    ensures !SignatureValid(b, b.publicKeyOf(sk), ToDict(e))
    ensures !CheckEntry(b, b.publicKeyOf(sk), files, e).Passed?
  {
    var payload := SignedDict(e) - DerivedKeys;
    SignatureBindsPayload(b, sk, payload, ToDict(e));
    assert ToDict(e) - DerivedKeys != payload by {
      assert "frame_path" in ToDict(e) - DerivedKeys;
    }
  }

  /**
   * As written, the entry-hash check fails on a logged row as well: the
   * recomputed canonical form includes `frame_path`, so the text hashed
   * differs from the one hashed at creation.
   */
  lemma LoggedEntryHashRejected(b: Backend, sk: SigningKey, e: ChainEntry)
    requires CollisionFree(b)
    requires SignedBy(b, sk, e)
    ensures VerifyEntryHash(b, ToDict(e)) != Ok(true)
  {
    var d := ToDict(e);
    var payload := SignedDict(e) - DerivedKeys;
    assert d - DerivedKeys != payload by {
      assert "frame_path" in d - DerivedKeys;
    }
    var c, c0 := Canonical(b, d - DerivedKeys), Canonical(b, payload);
    assert JObject(d - DerivedKeys) != JObject(payload);
    assert c != c0;
    AppendDiffers(c, c0, e.signature);
    var h, h0 := b.sha256(b.encode(c + e.signature)), b.sha256(b.encode(c0 + e.signature));
    assert h != h0;
    HexInjective(h, h0);
    assert d["entry_hash"] == JStr(e.entryHash) && d["signature"] == JStr(e.signature);
  }

  /** Different texts stay different when the same suffix is appended. */
  lemma AppendDiffers(a: string, a': string, s: string)
    requires a != a'
    ensures a + s != a' + s
  {
    if |a| != |a'| {
      assert |a + s| != |a' + s|;
    } else {
      var k :| 0 <= k < |a| && a[k] != a'[k];
      assert (a + s)[k] != (a' + s)[k];
    }
  }

  /** With the signed dict, a stored row whose frame file is intact passes all four checks. */
  lemma LoggedEntryAcceptedByFixedCheck(b: Backend, sk: SigningKey, files: Files, e: ChainEntry)
    requires Sound(b)
    requires SignedBy(b, sk, e)
    requires e.framePath in files && HashData(b, files[e.framePath]) == e.frameHash
    ensures CheckEntryFixed(b, b.publicKeyOf(sk), files, e) == Passed
  {
    SignedRowSignatureValid(b, sk, e);
    SignedRowHashVerifies(b, sk, e);
  }

  /** The signature of a stored row verifies against the dict that was signed. */
  lemma SignedRowSignatureValid(b: Backend, sk: SigningKey, e: ChainEntry)
    requires Sound(b)
    requires SignedBy(b, sk, e)
    ensures SignatureValid(b, b.publicKeyOf(sk), SignedDict(e))
  {
    var payload := SignedDict(e) - DerivedKeys;
    var signature := b.sign(sk, b.encode(Canonical(b, payload)));
    FromHexOfHex(signature);
    assert |Hex(signature)| == 2 * |signature| > 0;
  }

  /** The entry hash of a stored row verifies against the dict that was signed. */
  lemma SignedRowHashVerifies(b: Backend, sk: SigningKey, e: ChainEntry)
    requires Sound(b)
    requires SignedBy(b, sk, e)
    ensures VerifyEntryHash(b, SignedDict(e)) == Ok(true)
  {
    var payload := SignedDict(e) - DerivedKeys;
    var signature := b.sign(sk, b.encode(Canonical(b, payload)));
    assert |Hex(signature)| == 2 * |signature| > 0;
    var digest := b.sha256(b.encode(Canonical(b, payload) + e.signature));
    assert |Hex(digest)| == 2 * |digest| > 0;
  }

  /** `VerificationResult`: the counters and the failure list. */
  class VerificationResult {
    var totalEntries: int
    var verifiedEntries: int
    var failedEntries: int
    var failures: seq<Failure>

    constructor ()
      ensures totalEntries == 0 && verifiedEntries == 0 && failedEntries == 0 && failures == []
    {
      totalEntries, verifiedEntries, failedEntries, failures := 0, 0, 0, [];
    }

    /** `add_failure`: one more failed entry and exactly one more record. */
    method AddFailure(entryIndex: int, reason: string, details: string)
      modifies this
      ensures failedEntries == old(failedEntries) + 1
      ensures failures == old(failures) + [Failure(entryIndex, reason, details)]
      ensures totalEntries == old(totalEntries) && verifiedEntries == old(verifiedEntries)
    {
      failedEntries := failedEntries + 1;
      failures := failures + [Failure(entryIndex, reason, details)];
    }

    /** `is_valid`. */
    predicate IsValid()
      reads this
    {
      failedEntries == 0
    }

    /** The counters and failures as a value. */
    function Snapshot(): Report
      reads this
    {
      Report(totalEntries, verifiedEntries, failedEntries, failures)
    }
  }

  /** `ProvenanceVerifier`: the crypto handler and the chain store it reads. */
  class ProvenanceVerifier {
    const crypto: ProvenanceCrypto
    const chain: ProvenanceChain

    constructor (crypto: ProvenanceCrypto, chain: ProvenanceChain)
      ensures this.crypto == crypto && this.chain == chain
    {
      this.crypto := crypto;
      this.chain := chain;
    }

    /** `verify_entry`: the four checks in order, loading the verify key only when the signature check is reached. */
    method VerifyEntry(e: ChainEntry, files: Files) returns (r: Result<EntryVerdict, CryptoError>)
      requires crypto.Valid()
      modifies crypto
      ensures crypto.Valid() && crypto.signingKey == old(crypto.signingKey)
      ensures old(crypto.verifyKey).Some? ==> crypto.verifyKey == old(crypto.verifyKey)
      ensures crypto.keyFiles.publicKey.Some? ==>
        r == Ok(CheckEntry(crypto.backend, crypto.keyFiles.publicKey.value, files, e))
      ensures crypto.keyFiles.publicKey.None? ==>
        if e.framePath in files && HashData(crypto.backend, files[e.framePath]) == e.frameHash
        then r == Err(PublicKeyNotFound)
        else r.Ok? && r.value == CheckEntry(crypto.backend, [], files, e)
    {
      var d := ToDict(e);
      if e.framePath !in files {
        return Ok(FrameNotFound(e.framePath));
      }
      var actual := HashFile(crypto.backend, files[e.framePath]);
      if actual != e.frameHash {
        return Ok(FrameHashMismatch(e.frameHash, actual));
      }
      var signatureOk := crypto.VerifyEntrySignature(d);
      if signatureOk.Err? {
        return Err(signatureOk.error);
      }
      if !signatureOk.value {
        return Ok(InvalidSignature);
      }
      if VerifyEntryHash(crypto.backend, d) != Ok(true) {
        return Ok(InvalidEntryHash);
      }
      r := Ok(Passed);
    }

    /** `verify_chain_linkage`: the genesis check, then every link from position 1 on. */
    method VerifyChainLinkage(entries: seq<ChainEntry>) returns (result: VerificationResult)
      ensures fresh(result)
      ensures result.Snapshot() == Report(0, 0, |LinkageFailures(entries)|, LinkageFailures(entries))
    {
      result := new VerificationResult();
      if entries == [] {
        return;
      }
      if entries[0].previousHash != "" {
        result.AddFailure(0, GenesisReason, "Genesis previous_hash should be empty, got: " + entries[0].previousHash);
      }
      assert result.failures == LinkFailures(entries, 1);
      for i := 1 to |entries|
        invariant result.failures == LinkFailures(entries, i)
        invariant result.failedEntries == |result.failures|
        invariant result.totalEntries == 0 && result.verifiedEntries == 0
      {
        var previous, current := entries[i - 1], entries[i];
        if current.previousHash != previous.entryHash {
          result.AddFailure(current.index, LinkageReason,
            "Expected previous_hash " + Prefix16(previous.entryHash) + "..., got " + Prefix16(current.previousHash) + "...");
        }
      }
    }

    /** The per-entry loop of `verify_full_chain`, with the verify key already loaded, on a fresh result. */
    method VerifyEntries(entries: seq<ChainEntry>, files: Files, result: VerificationResult)
      requires crypto.Valid() && crypto.verifyKey.Some?
      requires result.Snapshot() == Report(|entries|, 0, 0, [])
      modifies crypto, result
      ensures crypto.Valid() && crypto.signingKey == old(crypto.signingKey) && crypto.verifyKey == old(crypto.verifyKey)
      ensures var vs := Verdicts(crypto.backend, crypto.verifyKey.value, files, entries);
        result.Snapshot() == Report(|entries|, PassedCount(vs), |EntryFailures(entries, vs)|, EntryFailures(entries, vs))
    {
      assert result as object != crypto as object;
      ghost var vs := Verdicts(crypto.backend, crypto.verifyKey.value, files, entries);
      for i := 0 to |entries|
        invariant crypto.Valid() && crypto.signingKey == old(crypto.signingKey) && crypto.verifyKey == old(crypto.verifyKey)
        invariant result.totalEntries == |entries|
        invariant result.verifiedEntries == PassedCount(vs[..i])
        invariant result.failures == EntryFailures(entries[..i], vs[..i])
        invariant result.failedEntries == |result.failures|
      {
        EntryStep(entries, vs, i);
        assert vs[i] == CheckEntry(crypto.backend, crypto.verifyKey.value, files, entries[i]);
        TallyEntry(entries[i], files, result);
      }
      assert entries[..|entries|] == entries && vs[..|entries|] == vs;
    }

    /** One iteration of the per-entry loop: verify the entry, then count it as verified or record its failure. */
    method TallyEntry(e: ChainEntry, files: Files, result: VerificationResult)
      requires crypto.Valid() && crypto.verifyKey.Some?
      modifies crypto, result
      ensures crypto.Valid() && crypto.signingKey == old(crypto.signingKey) && crypto.verifyKey == old(crypto.verifyKey)
      ensures var v := CheckEntry(crypto.backend, crypto.verifyKey.value, files, e);
        && result.totalEntries == old(result.totalEntries)
        && result.verifiedEntries == old(result.verifiedEntries) + (if v.Passed? then 1 else 0)
        && result.failedEntries == old(result.failedEntries) + (if v.Passed? then 0 else 1)
        && result.failures == old(result.failures) + (if v.Passed? then [] else [Failure(e.index, EntryReason, v.Message())])
    {
      assert result as object != crypto as object;
      var verdict := VerifyEntry(e, files);
      if verdict.value.Passed? {
        result.verifiedEntries := result.verifiedEntries + 1;
      } else {
        result.AddFailure(e.index, EntryReason, verdict.value.Message());
      }
    }

    /**
     * The counting part of `verify_full_chain`, once the verify key is loaded:
     * every entry in order, then the linkage failures appended.
     */
    method VerifyLoaded(entries: seq<ChainEntry>, files: Files) returns (result: VerificationResult)
      requires crypto.Valid() && crypto.verifyKey.Some?
      modifies crypto
      ensures crypto.Valid() && crypto.signingKey == old(crypto.signingKey) && crypto.verifyKey == old(crypto.verifyKey)
      ensures fresh(result)
      ensures result.Snapshot() == FullChainReport(entries, Verdicts(crypto.backend, crypto.verifyKey.value, files, entries))
    {
      result := new VerificationResult();
      result.totalEntries := |entries|;
      VerifyEntries(entries, files, result);
      var linkage := VerifyChainLinkage(entries);
      result.failures := result.failures + linkage.failures;
      result.failedEntries := result.failedEntries + linkage.failedEntries;
    }

    /**
     * `verify_full_chain`: load the verify key (a missing key ends the process),
     * verify every entry in index order, then append the linkage failures.
     */
    method VerifyFullChain(files: Files) returns (r: Result<VerificationResult, CryptoError>)
      requires crypto.Valid() && chain.Valid()
      modifies crypto
      ensures crypto.Valid() && crypto.signingKey == old(crypto.signingKey)
      ensures crypto.keyFiles.publicKey.None? <==> r == Err(PublicKeyNotFound)
      ensures r.Ok? ==> crypto.verifyKey == crypto.keyFiles.publicKey
      ensures r.Ok? ==>
        var es := GetAllEntries(chain.rows);
        && fresh(r.value)
        && r.value.Snapshot() == FullChainReport(es, Verdicts(crypto.backend, crypto.keyFiles.publicKey.value, files, es))
      ensures r.Ok? ==>
        var es := GetAllEntries(chain.rows);
        var vs := Verdicts(crypto.backend, crypto.keyFiles.publicKey.value, files, es);
        (r.value.IsValid() <==> (forall i :: 0 <= i < |vs| ==> vs[i].Passed?) && LinkageFailures(es) == [])
    {
      assert chain as object != crypto as object;
      var loaded := crypto.LoadVerifyKey();
      if loaded.Err? {
        return Err(loaded.error);
      }
      var entries := GetAllEntries(chain.rows);
      var result := VerifyLoaded(entries, files);
      ghost var vs := Verdicts(crypto.backend, crypto.keyFiles.publicKey.value, files, entries);
      assert result.IsValid() <==> (forall i :: 0 <= i < |vs| ==> vs[i].Passed?) && LinkageFailures(entries) == [] by {
        FullChainReportSound(entries, vs);
        LinkageCleanIff(entries);
      }
      r := Ok(result);
    }
  }
}
