/**
 * The client-side checks of pkg/verify/verify.go: consistency between two signed
 * tree heads, fetching and checking the current tree head, the inclusion proof of
 * a log entry, the signed entry timestamp (SET) of a log entry, and both entry
 * checks in sequence.
 *
 * Everything the Go code reaches outside this file is a parameter: SHA-256, the
 * hex and base64 decoders, json.Marshal, the JSON canonicaliser, parsing and
 * signature checking of signed checkpoints, and the two replies of the log server
 * (`LogClient`). Each operation is a function that states its verdict and a method
 * that computes it the way the Go code does, with the decoding loops as loops.
 * `VerifyCurrentCheckpoint` and `VerifyLogEntry` have no loop of their own, but they
 * call the methods that do (`ProveConsistency`, `VerifyInclusion`, which run the
 * decoding loops and the RFC 9162 loops), so their contracts carry the proof of those
 * loops up to the entry points; the lemmas speak about the verdict functions.
 */
module Verify {
  import opened Wrappers
  import opened Merkle
  import Inclusion
  import Consistency

  // ---------------------------------------------------------------------------
  // Go integers
  // ---------------------------------------------------------------------------

  const Two63: int := 0x8000_0000_0000_0000
  const Two64: int := 0x1_0000_0000_0000_0000

  type Uint64 = x: int | 0 <= x < 0x1_0000_0000_0000_0000
  type Int64 = x: int | -0x8000_0000_0000_0000 <= x < 0x8000_0000_0000_0000

  /** Go's conversion int64(x) of a uint64: the same 64 bits read in two's complement. */
  function Int64Of(x: Uint64): (r: Int64)
    ensures x < Two63 ==> r == x
    ensures x >= Two63 ==> r < 0
  {
    if x < Two63 then x else x - Two64
  }

  /** Go's conversion uint64(x) of an int64: the same 64 bits read as unsigned. */
  function Uint64Of(x: Int64): (r: Uint64)
    ensures x >= 0 ==> r == x
    ensures x < 0 ==> r >= Two63
  {
    if x >= 0 then x else x + Two64
  }

  /** The two conversions are inverse to each other, so int64(x) == int64(y) exactly when x == y. */
  lemma ConversionsInverse(x: Uint64, y: Int64)
    ensures Uint64Of(Int64Of(x)) == x
    ensures Int64Of(Uint64Of(y)) == y
    ensures forall x': Uint64 {:trigger Int64Of(x')} :: Int64Of(x') == Int64Of(x) <==> x' == x
  {
  }

  // ---------------------------------------------------------------------------
  // Values read and produced
  // ---------------------------------------------------------------------------

  /**
   * A signed tree head (util.SignedCheckpoint): the tree size and root hash it states,
   * and the rest of the signed note (origin, extension lines, signatures), which only
   * the signature check reads.
   */
  datatype SignedCheckpoint = SignedCheckpoint(size: Uint64, hash: Bytes, note: string)

  /** The signature.Verifier: VerifySignature(signature, message) succeeds or not. */
  datatype Verifier = Verifier(verifySignature: (Bytes, Bytes) -> bool)

  /** hex.DecodeString returns the bytes decoded before the first bad character, and whether there was none. */
  datatype HexDecoded = HexDecoded(bytes: Bytes, ok: bool)

  /** The four fields the SET signs, in the order of the Go struct `bundle`. */
  datatype Bundle = Bundle(body: string, integratedTime: Int64, logIndex: Int64, logID: string)

  /** models.InclusionProof: hex-encoded audit path and root hash, leaf index and tree size. */
  datatype InclusionProof = InclusionProof(hashes: seq<string>, logIndex: Int64, rootHash: string, treeSize: Int64)

  /** models.LogEntryAnonVerification; a nil pointer is `None`. */
  datatype Verification = Verification(inclusionProof: Option<InclusionProof>, signedEntryTimestamp: Option<Bytes>)

  /** models.LogEntryAnon, with the body as the base64 string the log returns. */
  datatype LogEntryAnon = LogEntryAnon(
    body: string,
    integratedTime: Int64,
    logID: string,
    logIndex: Int64,
    verification: Option<Verification>)

  /** The reply of GetLogInfo: the signed tree head as text, and the tree ID. */
  datatype LogInfo = LogInfo(signedTreeHead: string, treeID: string)

  /**
   * The log server as this file sees it: the reply of GetLogInfo, and GetLogProof as a
   * function of (FirstSize, LastSize, TreeID) giving the hex-encoded proof hashes.
   */
  datatype LogClient = LogClient(
    getLogInfo: Result<LogInfo, string>,
    getLogProof: (Int64, Int64, string) -> Result<seq<string>, string>)

  /** The collaborators the Go code calls but does not define. */
  datatype Env = Env(
    sha256: Sha256,
    hexDecode: string -> HexDecoded,
    base64Decode: string -> Option<Bytes>,
    marshal: Bundle -> Option<Bytes>,
    canonicalize: Bytes -> Option<Bytes>,
    parseCheckpoint: string -> Result<SignedCheckpoint, string>,
    checkpointVerifies: (SignedCheckpoint, Verifier) -> bool)

  /** The errors the functions of verify.go return. */
  datatype Error =
    | RootHashMismatch               // equal sizes, different root hashes
    | ProofHashDecoding              // a consistency proof hash is not hex
    | TreeSizeDecreased              // the new tree head is smaller than the old one
    | OldHeadSignature               // the old tree head's signature does not verify
    | HeadSignature                  // the fetched tree head's signature does not verify
    | CheckpointParse(msg: string)   // the fetched tree head does not parse
    | InclusionProofMissing          // no verification or no inclusion proof
    | HexDecoding                    // the root hash is not hex
    | Base64Decoding                 // the body is not base64
    | VerificationMissing            // SET check: no verification
    | SignatureMissing               // SET check: no signed entry timestamp
    | Marshaling                     // json.Marshal of the bundle failed
    | Canonicalizing                 // the canonicaliser failed
    | BundleSignature                // the SET does not verify over the canonical bundle
    | Merkle(proofError: Inclusion.ProofError)   // the Merkle library rejected a proof
    | Remote(msg: string)            // the log server returned an error

  // ---------------------------------------------------------------------------
  // Decoding proof hashes
  // ---------------------------------------------------------------------------

  /** All hashes decoded, or None if one of them is not valid hex. */
  function DecodeAll(hexDecode: string -> HexDecoded, hs: seq<string>): (r: Option<seq<Bytes>>)
    ensures r.Some? <==> forall i | 0 <= i < |hs| :: hexDecode(hs[i]).ok
    ensures r.Some? ==> |r.value| == |hs| && forall i | 0 <= i < |hs| :: r.value[i] == hexDecode(hs[i]).bytes
    decreases |hs|
  {
    if hs == [] then Some([])
    else
      var last := hexDecode(hs[|hs| - 1]);
      match DecodeAll(hexDecode, hs[..|hs| - 1])
      case None => None
      case Some(bs) => if last.ok then Some(bs + [last.bytes]) else None
  }

  /** The loop of ProveConsistency: decode each hash, giving up at the first that is not hex. */
  method DecodeConsistencyHashes(hexDecode: string -> HexDecoded, hs: seq<string>) returns (r: Option<seq<Bytes>>)
    ensures r == DecodeAll(hexDecode, hs)
  {
    var hashes: seq<Bytes> := [];
    for i := 0 to |hs|
      invariant DecodeAll(hexDecode, hs[..i]) == Some(hashes)
    {
      assert hs[..i + 1][..i] == hs[..i];
      var b := hexDecode(hs[i]);
      if !b.ok {
        assert !DecodeAll(hexDecode, hs).Some?;
        return None;
      }
      hashes := hashes + [b.bytes];
    }
    assert hs[..|hs|] == hs;
    return Some(hashes);
  }

  /** The audit path as VerifyInclusion reads it: decoding errors are dropped, the decoded prefix kept. */
  function AuditPathBytes(hexDecode: string -> HexDecoded, hs: seq<string>): seq<Bytes> {
    seq(|hs|, i requires 0 <= i < |hs| => hexDecode(hs[i]).bytes)
  }

  /** The loop of VerifyInclusion: decode each hash and append it, whatever the decoder reports. */
  method DecodeAuditPath(hexDecode: string -> HexDecoded, hs: seq<string>) returns (hashes: seq<Bytes>)
    ensures |hashes| == |hs|
    ensures forall i | 0 <= i < |hs| :: hashes[i] == hexDecode(hs[i]).bytes
  {
    hashes := [];
    for i := 0 to |hs|
      invariant |hashes| == i
      invariant forall j | 0 <= j < i :: hashes[j] == hexDecode(hs[j]).bytes
    {
      var hb := hexDecode(hs[i]);
      hashes := hashes + [hb.bytes];
    }
  }

  // ---------------------------------------------------------------------------
  // ProveConsistency
  // ---------------------------------------------------------------------------

  /** The verdict of ProveConsistency(oldSTH, newSTH, treeID), with the log server `client`. */
  function ConsistencyVerdict(env: Env, client: LogClient, oldSTH: SignedCheckpoint, newSTH: SignedCheckpoint, treeID: string)
    : Outcome<Error>
  {
    var oldTreeSize := Int64Of(oldSTH.size);
    var newTreeSize := Int64Of(newSTH.size);
    if oldTreeSize == newTreeSize then
      if oldSTH.hash != newSTH.hash then Fail(RootHashMismatch) else Pass
    else if oldTreeSize < newTreeSize then
      match client.getLogProof(oldTreeSize, newTreeSize, treeID)
      case Failure(msg) => Fail(Remote(msg))
      case Success(hexHashes) =>
        match DecodeAll(env.hexDecode, hexHashes)
        case None => Fail(ProofHashDecoding)
        case Some(hashes) =>
          match Consistency.VerifyConsistency(env.sha256, oldSTH.size, newSTH.size, hashes, oldSTH.hash, newSTH.hash)
          case Fail(e) => Fail(Merkle(e))
          case Pass => Pass
    else
      Fail(TreeSizeDecreased)
  }

  /** ProveConsistency: split on the signed tree sizes; fetch, decode and check a proof when the tree grew. */
  method ProveConsistency(env: Env, client: LogClient, oldSTH: SignedCheckpoint, newSTH: SignedCheckpoint, treeID: string)
    returns (result: Outcome<Error>)
    ensures result == ConsistencyVerdict(env, client, oldSTH, newSTH, treeID)
  {
    var oldTreeSize := Int64Of(oldSTH.size);
    if oldTreeSize == Int64Of(newSTH.size) {
      if oldSTH.hash != newSTH.hash {
        return Fail(RootHashMismatch);
      }
    } else if oldTreeSize < Int64Of(newSTH.size) {
      var consistencyProof := client.getLogProof(oldTreeSize, Int64Of(newSTH.size), treeID);
      if consistencyProof.Failure? {
        return Fail(Remote(consistencyProof.error));
      }
      var hashes := DecodeConsistencyHashes(env.hexDecode, consistencyProof.value);
      if hashes.None? {
        return Fail(ProofHashDecoding);
      }
      var err := Consistency.VerifyConsistencyProof(env.sha256, oldSTH.size, newSTH.size, hashes.value, oldSTH.hash, newSTH.hash);
      if err.Fail? {
        return Fail(Merkle(err.error));
      }
    } else {
      return Fail(TreeSizeDecreased);
    }
    return Pass;
  }

  /** Equal sizes: no proof is fetched, and the heads are consistent exactly when their root hashes are equal. */
  lemma EqualSizesCompareRoots(env: Env, client: LogClient, other: LogClient, oldSTH: SignedCheckpoint, newSTH: SignedCheckpoint, treeID: string)
    requires oldSTH.size == newSTH.size
    ensures ConsistencyVerdict(env, client, oldSTH, newSTH, treeID) == ConsistencyVerdict(env, other, oldSTH, newSTH, treeID)
    ensures ConsistencyVerdict(env, client, oldSTH, newSTH, treeID)
         == if oldSTH.hash == newSTH.hash then Pass else Fail(RootHashMismatch)
  {
  }

  /** A new head smaller than the old one is always rejected, whatever the server replies. */
  lemma ShrinkingTreeRejected(env: Env, client: LogClient, oldSTH: SignedCheckpoint, newSTH: SignedCheckpoint, treeID: string)
    requires oldSTH.size > newSTH.size
    ensures ConsistencyVerdict(env, client, oldSTH, newSTH, treeID).Fail?
  {
    ConversionsInverse(oldSTH.size, 0);
    if Int64Of(oldSTH.size) < Int64Of(newSTH.size) {
      match client.getLogProof(Int64Of(oldSTH.size), Int64Of(newSTH.size), treeID)
      case Failure(_) =>
      case Success(hexHashes) =>
        match DecodeAll(env.hexDecode, hexHashes)
        case None =>
        case Some(hashes) =>
          Consistency.ShrinkingRejected(env.sha256, oldSTH.size, newSTH.size, hashes, oldSTH.hash, newSTH.hash);
    }
  }

  /**
   * Sizes compare as signed 64-bit integers: a new head of 2^63 leaves or more is read as
   * smaller than an old head below 2^63, and rejected as a decreased tree size.
   */
  lemma HugeNewSizeReadAsDecrease(env: Env, client: LogClient, oldSTH: SignedCheckpoint, newSTH: SignedCheckpoint, treeID: string)
    requires oldSTH.size < Two63 <= newSTH.size
    ensures ConsistencyVerdict(env, client, oldSTH, newSTH, treeID) == Fail(TreeSizeDecreased)
  {
  }

  /**
   * A grown tree, as the signed comparison sees it: the proof fetched for exactly
   * (int64(old size), int64(new size), tree ID) is rejected if one of its hashes is not
   * hex, and otherwise the heads are consistent exactly when the consistency
   * verification of section 2.1.4.2 of RFC 9162 accepts the decoded hashes between the
   * two unsigned sizes and root hashes.
   */
  lemma GrowingTreeUsesConsistencyProof(env: Env, client: LogClient, oldSTH: SignedCheckpoint, newSTH: SignedCheckpoint, treeID: string, hexHashes: seq<string>)
    requires Int64Of(oldSTH.size) < Int64Of(newSTH.size)
    requires client.getLogProof(Int64Of(oldSTH.size), Int64Of(newSTH.size), treeID) == Success(hexHashes)
    ensures (exists i | 0 <= i < |hexHashes| :: !env.hexDecode(hexHashes[i]).ok)
      ==> ConsistencyVerdict(env, client, oldSTH, newSTH, treeID) == Fail(ProofHashDecoding)
    ensures (forall i | 0 <= i < |hexHashes| :: env.hexDecode(hexHashes[i]).ok)
      ==> (ConsistencyVerdict(env, client, oldSTH, newSTH, treeID) == Pass
           <==> Consistency.VerifyConsistency(env.sha256, oldSTH.size, newSTH.size, AuditPathBytes(env.hexDecode, hexHashes), oldSTH.hash, newSTH.hash) == Pass)
  {
    var decoded := DecodeAll(env.hexDecode, hexHashes);
    if decoded.Some? {
      assert decoded.value == AuditPathBytes(env.hexDecode, hexHashes);
    }
  }

  /**
   * Two heads that ProveConsistency accepts, stating the sizes and Merkle Tree Hashes
   * of two logs D1 and D2, show that D1 is the first |D1| entries of D2, unless the
   * returned pair is a SHA-256 collision.
   */
  lemma ProvenHeadsAppendOnly(env: Env, client: LogClient, oldSTH: SignedCheckpoint, newSTH: SignedCheckpoint, treeID: string,
                              d1: seq<Bytes>, d2: seq<Bytes>)
    returns (x: Bytes, y: Bytes)
    requires oldSTH.size == |d1| && oldSTH.hash == MTH(env.sha256, d1)
    requires newSTH.size == |d2| && newSTH.hash == MTH(env.sha256, d2)
    requires ConsistencyVerdict(env, client, oldSTH, newSTH, treeID) == Pass
    ensures (|d1| <= |d2| && d1 == d2[..|d1|]) || IsCollision(env.sha256, x, y)
  {
    ConversionsInverse(oldSTH.size, 0);
    if Int64Of(oldSTH.size) == Int64Of(newSTH.size) {
      x, y := MTHSound(env.sha256, d1, d2);
      assert d2[..|d1|] == d2;
    } else {
      var hashes := DecodeAll(env.hexDecode, client.getLogProof(Int64Of(oldSTH.size), Int64Of(newSTH.size), treeID).value).value;
      assert Consistency.VerifyConsistency(env.sha256, |d1|, |d2|, hashes, MTH(env.sha256, d1), MTH(env.sha256, d2)) == Pass;
      if |d1| == 0 {
        x, y := [], [];
      } else {
        x, y := Consistency.ConsistencySound(env.sha256, d1, d2, hashes);
      }
    }
  }

  // ---------------------------------------------------------------------------
  // VerifyCurrentCheckpoint
  // ---------------------------------------------------------------------------

  /** The verdict of VerifyCurrentCheckpoint(oldSTH): the fetched head, or why it is not trusted. */
  function CheckpointVerdict(env: Env, client: LogClient, verifier: Verifier, oldSTH: SignedCheckpoint)
    : Result<SignedCheckpoint, Error>
  {
    if !env.checkpointVerifies(oldSTH, verifier) then Failure(OldHeadSignature)
    else
      match client.getLogInfo
      case Failure(msg) => Failure(Remote(msg))
      case Success(logInfo) =>
        match env.parseCheckpoint(logInfo.signedTreeHead)
        case Failure(msg) => Failure(CheckpointParse(msg))
        case Success(sth) =>
          if !env.checkpointVerifies(sth, verifier) then Failure(HeadSignature)
          else
            match ConsistencyVerdict(env, client, oldSTH, sth, logInfo.treeID)
            case Fail(e) => Failure(e)
            case Pass => Success(sth)
  }

  /** VerifyCurrentCheckpoint: check the old head, fetch and check the current head, prove consistency. */
  method VerifyCurrentCheckpoint(env: Env, client: LogClient, verifier: Verifier, oldSTH: SignedCheckpoint)
    returns (result: Result<SignedCheckpoint, Error>)
    ensures result == CheckpointVerdict(env, client, verifier, oldSTH)
  {
    if !env.checkpointVerifies(oldSTH, verifier) {
      return Failure(OldHeadSignature);
    }
    var reply := client.getLogInfo;
    if reply.Failure? {
      return Failure(Remote(reply.error));
    }
    var logInfo := reply.value;
    var parsed := env.parseCheckpoint(logInfo.signedTreeHead);
    if parsed.Failure? {
      return Failure(CheckpointParse(parsed.error));
    }
    var sth := parsed.value;
    if !env.checkpointVerifies(sth, verifier) {
      return Failure(HeadSignature);
    }
    var err := ProveConsistency(env, client, oldSTH, sth, logInfo.treeID);
    if err.Fail? {
      return Failure(err.error);
    }
    return Success(sth);
  }

  /**
   * The fetched head is returned exactly when the old head's signature verifies, the
   * server's head parses and its signature verifies, and the two heads are consistent;
   * the head returned is the one the server sent.
   */
  lemma CheckpointTrustedOnlyAfterAllChecks(env: Env, client: LogClient, verifier: Verifier, oldSTH: SignedCheckpoint, sth: SignedCheckpoint)
    ensures CheckpointVerdict(env, client, verifier, oldSTH) == Success(sth)
      <==> (env.checkpointVerifies(oldSTH, verifier)
            && client.getLogInfo.Success?
            && env.parseCheckpoint(client.getLogInfo.value.signedTreeHead) == Success(sth)
            && env.checkpointVerifies(sth, verifier)
            && ConsistencyVerdict(env, client, oldSTH, sth, client.getLogInfo.value.treeID) == Pass)
  {
  }

  /** The old head's signature is checked first: if it fails, nothing from the server matters. */
  lemma OldHeadCheckedFirst(env: Env, client: LogClient, verifier: Verifier, oldSTH: SignedCheckpoint)
    requires !env.checkpointVerifies(oldSTH, verifier)
    ensures CheckpointVerdict(env, client, verifier, oldSTH) == Failure(OldHeadSignature)
  {
  }

  // ---------------------------------------------------------------------------
  // VerifyInclusion
  // ---------------------------------------------------------------------------

  /** The verdict of VerifyInclusion(e). */
  function InclusionVerdict(env: Env, e: LogEntryAnon): Outcome<Error> {
    if e.verification.None? || e.verification.value.inclusionProof.None? then Fail(InclusionProofMissing)
    else
      var proof := e.verification.value.inclusionProof.value;
      var hashes := AuditPathBytes(env.hexDecode, proof.hashes);
      var root := env.hexDecode(proof.rootHash);
      if !root.ok then Fail(HexDecoding)
      else
        match env.base64Decode(e.body)
        case None => Fail(Base64Decoding)
        case Some(entryBytes) =>
          var leafHash := HashLeaf(env.sha256, entryBytes);
          match Inclusion.VerifyInclusion(env.sha256, Uint64Of(proof.logIndex), Uint64Of(proof.treeSize), leafHash, hashes, root.bytes)
          case Fail(err) => Fail(Merkle(err))
          case Pass => Pass
  }

  /** VerifyInclusion: decode the proof and the body, hash the leaf, verify the inclusion proof. */
  method VerifyInclusion(env: Env, e: LogEntryAnon) returns (result: Outcome<Error>)
    ensures result == InclusionVerdict(env, e)
  {
    if e.verification.None? || e.verification.value.inclusionProof.None? {
      return Fail(InclusionProofMissing);
    }
    var proof := e.verification.value.inclusionProof.value;
    var hashes := DecodeAuditPath(env.hexDecode, proof.hashes);
    assert hashes == AuditPathBytes(env.hexDecode, proof.hashes);
    var rootHash := env.hexDecode(proof.rootHash);
    if !rootHash.ok {
      return Fail(HexDecoding);
    }
    var entryBytes := env.base64Decode(e.body);
    if entryBytes.None? {
      return Fail(Base64Decoding);
    }
    var leafHash := HashLeaf(env.sha256, entryBytes.value);
    var err := Inclusion.VerifyInclusionProof(env.sha256, Uint64Of(proof.logIndex), Uint64Of(proof.treeSize), leafHash, hashes, rootHash.bytes);
    if err.Fail? {
      return Fail(Merkle(err.error));
    }
    return Pass;
  }

  /**
   * With the proof present, the root hash valid hex and the body valid base64, the entry is
   * included exactly when the inclusion verification of section 2.1.3.2 of RFC 9162 accepts
   * the RFC 6962 leaf hash of the decoded body at the proof's index and tree size.
   */
  lemma InclusionIsRfcInclusion(env: Env, e: LogEntryAnon, proof: InclusionProof, entryBytes: Bytes)
    requires e.verification.Some? && e.verification.value.inclusionProof == Some(proof)
    requires env.hexDecode(proof.rootHash).ok && env.base64Decode(e.body) == Some(entryBytes)
    ensures InclusionVerdict(env, e) == Pass
      <==> Inclusion.VerifyInclusion(env.sha256, Uint64Of(proof.logIndex), Uint64Of(proof.treeSize),
             HashLeaf(env.sha256, entryBytes), AuditPathBytes(env.hexDecode, proof.hashes),
             env.hexDecode(proof.rootHash).bytes) == Pass
  {
  }

  /** Missing proof material, a root hash that is not hex, or a body that is not base64 are reported, in that order. */
  lemma InclusionInputErrors(env: Env, e: LogEntryAnon)
    ensures e.verification.None? ==> InclusionVerdict(env, e) == Fail(InclusionProofMissing)
    ensures e.verification.Some? && e.verification.value.inclusionProof.None? ==> InclusionVerdict(env, e) == Fail(InclusionProofMissing)
    ensures e.verification.Some? && e.verification.value.inclusionProof.Some?
      && !env.hexDecode(e.verification.value.inclusionProof.value.rootHash).ok
      ==> InclusionVerdict(env, e) == Fail(HexDecoding)
    ensures e.verification.Some? && e.verification.value.inclusionProof.Some?
      && env.hexDecode(e.verification.value.inclusionProof.value.rootHash).ok
      && env.base64Decode(e.body).None?
      ==> InclusionVerdict(env, e) == Fail(Base64Decoding)
  {
  }

  /**
   * A bad hex character in an audit path hash is not reported: two hex decoders that
   * yield the same bytes everywhere, and agree on the root hash, give the same verdict
   * even when one flags errors the other does not.
   */
  lemma AuditPathHexErrorsIgnored(env: Env, hexDecode': string -> HexDecoded, e: LogEntryAnon)
    requires forall s :: hexDecode'(s).bytes == env.hexDecode(s).bytes
    requires e.verification.Some? && e.verification.value.inclusionProof.Some?
    requires hexDecode'(e.verification.value.inclusionProof.value.rootHash) == env.hexDecode(e.verification.value.inclusionProof.value.rootHash)
    ensures InclusionVerdict(env.(hexDecode := hexDecode'), e) == InclusionVerdict(env, e)
  {
    var proof := e.verification.value.inclusionProof.value;
    assert AuditPathBytes(hexDecode', proof.hashes) == AuditPathBytes(env.hexDecode, proof.hashes);
  }

  /**
   * An honest log is accepted: if the body decodes to entry m of the log d, the proof
   * carries m and |d|, its hashes decode to the audit path PATH(m, D[n]) of RFC 6962
   * and its root hash to MTH(D[n]), then VerifyInclusion passes.
   */
  lemma HonestEntryIncluded(env: Env, e: LogEntryAnon, proof: InclusionProof, d: seq<Bytes>, m: nat)
    requires e.verification.Some? && e.verification.value.inclusionProof == Some(proof)
    requires 0 <= proof.logIndex && proof.logIndex == m < |d| == proof.treeSize
    requires env.base64Decode(e.body) == Some(d[m])
    requires AuditPathBytes(env.hexDecode, proof.hashes) == InclusionPath(env.sha256, m, d)
    requires env.hexDecode(proof.rootHash) == HexDecoded(MTH(env.sha256, d), true)
    ensures InclusionVerdict(env, e) == Pass
  {
    Inclusion.InclusionComplete(env.sha256, m, d);
  }

  /**
   * A passing entry whose root hash decodes to MTH(D[n]) of a log d of the proof's tree
   * size is entry logIndex of d, with the audit path of that entry -- unless the returned
   * pair is a SHA-256 collision.
   */
  lemma IncludedEntryIsInLog(env: Env, e: LogEntryAnon, proof: InclusionProof, d: seq<Bytes>, entryBytes: Bytes)
    returns (x: Bytes, y: Bytes)
    requires e.verification.Some? && e.verification.value.inclusionProof == Some(proof)
    requires 0 <= proof.treeSize && |d| == proof.treeSize
    requires env.base64Decode(e.body) == Some(entryBytes)
    requires env.hexDecode(proof.rootHash).bytes == MTH(env.sha256, d)
    requires InclusionVerdict(env, e) == Pass
    ensures 0 <= proof.logIndex < |d|
    ensures (entryBytes == d[proof.logIndex]
             && AuditPathBytes(env.hexDecode, proof.hashes) == InclusionPath(env.sha256, proof.logIndex, d))
         || IsCollision(env.sha256, x, y)
  {
    var index := Uint64Of(proof.logIndex);
    x, y := Inclusion.InclusionSound(env.sha256, index, d, entryBytes, AuditPathBytes(env.hexDecode, proof.hashes));
  }

  // ---------------------------------------------------------------------------
  // VerifySignedEntryTimestamp and VerifyLogEntry
  // ---------------------------------------------------------------------------

  /** The payload the SET signs: exactly body, integrated time, log index and log ID. */
  function BundleOf(e: LogEntryAnon): Bundle {
    Bundle(e.body, e.integratedTime, e.logIndex, e.logID)
  }

  /** VerifySignedEntryTimestamp: the SET must verify over the canonical JSON of the entry's bundle. */
  function VerifySignedEntryTimestamp(env: Env, e: LogEntryAnon, verifier: Verifier): (r: Outcome<Error>)
    ensures r == Pass <==>
      e.verification.Some? && e.verification.value.signedEntryTimestamp.Some?
      && env.marshal(BundleOf(e)).Some?
      && env.canonicalize(env.marshal(BundleOf(e)).value).Some?
      && verifier.verifySignature(e.verification.value.signedEntryTimestamp.value,
                                  env.canonicalize(env.marshal(BundleOf(e)).value).value)
  {
    if e.verification.None? then Fail(VerificationMissing)
    else if e.verification.value.signedEntryTimestamp.None? then Fail(SignatureMissing)
    else
      match env.marshal(BundleOf(e))
      case None => Fail(Marshaling)
      case Some(contents) =>
        match env.canonicalize(contents)
        case None => Fail(Canonicalizing)
        case Some(canonicalized) =>
          if !verifier.verifySignature(e.verification.value.signedEntryTimestamp.value, canonicalized) then
            Fail(BundleSignature)
          else Pass
  }

  /**
   * The SET check reads only the four bundle fields and the stored SET: two entries that
   * agree on those get the same verdict, whatever their inclusion proofs.
   */
  lemma TimestampDependsOnlyOnBundle(env: Env, e1: LogEntryAnon, e2: LogEntryAnon, verifier: Verifier)
    requires BundleOf(e1) == BundleOf(e2)
    requires e1.verification.Some? <==> e2.verification.Some?
    requires e1.verification.Some? ==> e1.verification.value.signedEntryTimestamp == e2.verification.value.signedEntryTimestamp
    ensures VerifySignedEntryTimestamp(env, e1, verifier) == VerifySignedEntryTimestamp(env, e2, verifier)
  {
  }

  /** Missing verification is reported before a missing SET. */
  lemma TimestampMissingFields(env: Env, e: LogEntryAnon, verifier: Verifier)
    ensures e.verification.None? ==> VerifySignedEntryTimestamp(env, e, verifier) == Fail(VerificationMissing)
    ensures e.verification.Some? && e.verification.value.signedEntryTimestamp.None?
      ==> VerifySignedEntryTimestamp(env, e, verifier) == Fail(SignatureMissing)
  {
  }

  /** The verdict of VerifyLogEntry: inclusion first, then the SET. */
  function LogEntryVerdict(env: Env, e: LogEntryAnon, verifier: Verifier): Outcome<Error> {
    match InclusionVerdict(env, e)
    case Fail(err) => Fail(err)
    case Pass => VerifySignedEntryTimestamp(env, e, verifier)
  }

  /** VerifyLogEntry: verify the inclusion proof, then the SET, returning the first error. */
  method VerifyLogEntry(env: Env, e: LogEntryAnon, verifier: Verifier) returns (result: Outcome<Error>)
    ensures result == LogEntryVerdict(env, e, verifier)
  {
    var err := VerifyInclusion(env, e);
    if err.Fail? {
      return err;
    }
    return VerifySignedEntryTimestamp(env, e, verifier);
  }

  /**
   * An entry is verified exactly when both checks pass; a failed inclusion check is
   * returned unchanged and the SET is then not looked at.
   */
  lemma LogEntryShortCircuits(env: Env, e: LogEntryAnon, verifier: Verifier, verifier': Verifier)
    ensures LogEntryVerdict(env, e, verifier) == Pass
      <==> InclusionVerdict(env, e) == Pass && VerifySignedEntryTimestamp(env, e, verifier) == Pass
    ensures InclusionVerdict(env, e).Fail?
      ==> LogEntryVerdict(env, e, verifier) == InclusionVerdict(env, e) == LogEntryVerdict(env, e, verifier')
    ensures InclusionVerdict(env, e) == Pass
      ==> LogEntryVerdict(env, e, verifier) == VerifySignedEntryTimestamp(env, e, verifier)
  {
  }
}
