# Rekor client-side verification and in-toto entry validation, in Dafny

This project models three parts of the Rekor transparency log's Go code and proves
properties of them.

- **Log verification** (`pkg/verify/verify.go`, module `Verify`):
  - consistency between an old signed tree head and a newer one (`ProveConsistency`);
  - fetching the current signed tree head and checking it against a trusted one (`VerifyCurrentCheckpoint`);
  - the inclusion proof of a log entry (`VerifyInclusion`);
  - the signed entry timestamp (SET) of an entry (`VerifySignedEntryTimestamp`);
  - both entry checks in sequence (`VerifyLogEntry`).
- **The Merkle proofs those functions call**:
  - RFC 6962 leaf and node hashing, MTH, PATH and PROOF (module `Merkle`);
  - inclusion verification from section 2.1.3.2 of RFC 9162 (module `Inclusion`);
  - consistency verification from section 2.1.4.2 of RFC 9162, behind the Merkle library's guards (module `Consistency`).
- **The in-toto v0.0.2 schema validator** (`pkg/generated/models/intoto_v002_schema.go`, module `Schema`): the generated `Validate` methods for the entry, its content, envelope, signature items, hash and payload hash.
- **The in-toto entry type** (`pkg/types/intoto/intoto.go`, module `Intoto`): its kind, its supported and default versions, and the guards in front of the version-specific code.

Everything the Go code calls but does not define is a parameter of the model:
- SHA-256;
- the hex and base64 decoders;
- `json.Marshal` and the JSON canonicaliser;
- parsing and signature checking of signed checkpoints;
- the signature verifier;
- the two replies of the log server;
- the version-specific entry implementations.

`Wrappers` holds the `Option`, `Result` and `Outcome` types.

Each operation that loops or accumulates in Go is a method. Each method is proved equal to a function that states its verdict. The lemmas state the properties of those functions.

The central results:

- **Inclusion, against the RFC 6962 reference.** The bit-walking inclusion verifier agrees, on every input, with a top-down reading of the proof that follows the RFC 6962 tree definition (`Inclusion.VerifyMatchesReference`).
  - It accepts the audit path of every leaf (`Inclusion.InclusionComplete`).
  - Any proof it accepts against MTH(D[n]) is that leaf's audit path, unless the lemma exhibits a SHA-256 collision (`Inclusion.InclusionSound`).
- **Consistency, against the RFC 6962 reference.** The bit-walking consistency verifier agrees, on every input, with a top-down reading of the seeded proof that yields both roots (`Consistency.VerifyMatchesRootsReference`). After its seed, an accepted proof is also an inclusion proof for the new root (`Consistency.SecondRootIsInclusion`).
  - Every proof built as in section 2.1.2 of RFC 6962, PROOF(m, D[n]), is accepted between the two honest roots (`Consistency.ConsistencyComplete`).
  - Any proof accepted between MTH(D1) and MTH(D2) shows that D1 is a prefix of D2 and is PROOF(|D1|, D2), unless the lemma exhibits a SHA-256 collision (`Consistency.ConsistencySound`). At the level of signed tree heads this is `Verify.ProvenHeadsAppendOnly`.
- **Schema validation.** An entry passes validation exactly when the declarative rules hold (`Schema.SchemaValidIff`). Every failure is reported, with its path (`Schema.ContentReportsAll`).

## Model

| member | source | states |
|---|---|---|
| Merkle.HashLeaf | pkg/verify/verify.go:136 | the RFC 6962 leaf hash, SHA-256 of 0x00 followed by the data |
| Merkle.HashChildren | pkg/verify/verify.go:136 | the RFC 6962 node hash, SHA-256 of 0x01 followed by the two children |
| Merkle.DomainSeparation | pkg/verify/verify.go:136 | a leaf-hash input (prefix 0x00) never equals a node-hash input (prefix 0x01) |
| Merkle.NodeInputSplit | pkg/verify/verify.go:138-139 | equal node-hash inputs with equal-length parts have equal children |
| Merkle.SplitExpUnique | pkg/verify/verify.go:138-139 | the RFC 6962 split point k is the unique power of two with k < n <= 2k |
| Merkle.MTHSound | pkg/verify/verify.go:136-139 | two logs of equal size with equal Merkle Tree Hashes are equal, or a SHA-256 collision is returned |
| Inclusion.VerifyInclusion | pkg/verify/verify.go:138-139 | the RFC 9162 inclusion verdict: index below size, the walk over the path, sn = 0 at the end, root match |
| Inclusion.VerifyInclusionProof | pkg/verify/verify.go:138-139 | the RFC 9162 inclusion loop returns the verdict `VerifyInclusion` defines: index check, walk, sn = 0, root match |
| Inclusion.RootFromPathDefined | pkg/verify/verify.go:138-139 | the reference reading accepts exactly the proofs of the audit-path length |
| Inclusion.WalkMatchesRoot | pkg/verify/verify.go:138-139 | on a proof of the right length, the walk ends at sn = 0 with the reference root |
| Inclusion.ShortPathStops | pkg/verify/verify.go:138-139 | a proof that is too short leaves sn above 0 |
| Inclusion.LongPathOverruns | pkg/verify/verify.go:138-139 | a proof that is too long runs past sn = 0 |
| Inclusion.VerifyMatchesReference | pkg/verify/verify.go:138-139 | for every input, the verifier's verdict equals the reference verdict (index, length, root) |
| Inclusion.AuditPathReachesRoot | pkg/verify/verify.go:136-139 | PATH(m, D[n]) leads from the leaf hash of D[m] to MTH(D[n]) |
| Inclusion.InclusionComplete | pkg/verify/verify.go:136-139 | the audit path of every leaf is accepted against the tree's root |
| Inclusion.WrongRootRejected | pkg/verify/verify.go:136-139 | an audit path checked against any other root fails with a root mismatch |
| Inclusion.RootFromPathSound | pkg/verify/verify.go:136-139 | a path leading to MTH(D[n]) is PATH(m, D[n]) for D[m], or a SHA-256 collision is returned |
| Inclusion.InclusionSound | pkg/verify/verify.go:136-139 | an accepted proof against MTH(D[n]) has an index below n, and proves D[m] with its audit path, or a collision is returned |
| Inclusion.WalkLengthAtZero | pkg/verify/verify.go:138-139 | a walk that ends at sn = 0 has consumed exactly the audit-path length for its index |
| Consistency.VerifyConsistency | pkg/verify/verify.go:65-66 | the library guards (shrinking, equal sizes, empty first tree, empty proof) in front of the RFC 9162 consistency walk and both root checks |
| Consistency.VerifyConsistencyProof | pkg/verify/verify.go:65-66 | the library guards plus the RFC 9162 consistency loop return the verdict `VerifyConsistency` defines |
| Consistency.WalkProjection | pkg/verify/verify.go:65-66 | fn, sn and the new-root hash of the consistency walk move exactly as the inclusion walk |
| Consistency.SecondRootIsInclusion | pkg/verify/verify.go:65-66 | an accepted proof, after its seed, is an inclusion proof of the seed node for the new root |
| Consistency.ShrinkingRejected | pkg/verify/verify.go:65-66 | a second tree smaller than the first is rejected whatever the proof |
| Consistency.EqualSizes | pkg/verify/verify.go:65-66 | for equal sizes the library accepts exactly an empty proof with equal roots |
| Consistency.FromEmptyTree | pkg/verify/verify.go:65-66 | from the empty tree the library accepts exactly the empty proof |
| Consistency.EmptyProofRejected | pkg/verify/verify.go:65-66 | between two non-empty trees of different sizes an empty proof is rejected |
| Consistency.RootsFromProofDefined | pkg/verify/verify.go:65-66 | the top-down reference reading of a seeded proof accepts exactly the proofs of length ProofLen(m, n) |
| Consistency.SubProofLen | pkg/verify/verify.go:65-66 | SUBPROOF(m, D[n], false) has exactly ProofLen(m, n) hashes |
| Consistency.SubProofRoots | pkg/verify/verify.go:65-66 | the reference reading of SUBPROOF(m, D[n], false) yields MTH(D[0:m]) and MTH(D[n]) |
| Consistency.SeedRestoresSubProof | pkg/verify/verify.go:65-66 | the unflagged SUBPROOF is the flagged one with the old root in front exactly when m is a power of two, and equal to it otherwise |
| Consistency.SeededProofIsSubProof | pkg/verify/verify.go:65-66 | PROOF(m, D[n]) is non-empty and, after the verifier's seed, is SUBPROOF(m, D[n], false) |
| Consistency.StartOrdered | pkg/verify/verify.go:65-66 | after shifting out the common odd bits of m - 1 and n - 1, the first index still does not exceed the second |
| Consistency.PerfectConsistencyWalk | pkg/verify/verify.go:65-66 | inside a perfect subtree of depth d, the walk over d hashes ends at the subtree's roots for both trees |
| Consistency.ConsistencyOffsetWalk | pkg/verify/verify.go:65-66 | the walk on indices offset by a power of two above both moves as the walk on the unshifted indices, the offset shrinking in step |
| Consistency.WalkMatchesRoots | pkg/verify/verify.go:65-66 | on a seeded proof of length ProofLen(m, n), the RFC 9162 walk ends at sn = 0 with the two roots of the reference reading |
| Consistency.AcceptedByReference | pkg/verify/verify.go:65-66 | a proof whose seeded path the reference reads as (root1, root2) passes between root1 and root2 |
| Consistency.ConsistencyComplete | pkg/verify/verify.go:65-66 | for 0 < m < n the RFC 6962 proof PROOF(m, D[n]) passes between MTH(D[0:m]) and MTH(D[n]) |
| Consistency.AcceptedWalk | pkg/verify/verify.go:65-66 | an accepted proof is non-empty and its walk ends at sn = 0 with the two given roots |
| Consistency.ConsistencyWalkLength | pkg/verify/verify.go:65-66 | a consistency walk that ends at sn = 0 has consumed the audit-path length of its start indices |
| Consistency.ProofLenIsPathLen | pkg/verify/verify.go:65-66 | ProofLen(m, n) is one more than the audit-path length of the shifted start indices |
| Consistency.WalkLength | pkg/verify/verify.go:65-66 | a walk that reaches sn = 0 consumed exactly ProofLen(m, n) - 1 hashes after the seed |
| Consistency.AcceptedReadsRoots | pkg/verify/verify.go:65-66 | for 0 < m < n, an accepted proof is read by the reference as exactly (root1, root2) |
| Consistency.VerifyMatchesRootsReference | pkg/verify/verify.go:65-66 | for 0 < m < n, the verifier passes iff the reference reading of the seeded proof yields (root1, root2) |
| Consistency.RootsFromProofSound | pkg/verify/verify.go:65-66 | a seeded path the reference reads as (MTH(D1), MTH(D2)) has D1 a prefix of D2 and is SUBPROOF(|D1|, D2, false), or a collision is returned |
| Consistency.ConsistencySound | pkg/verify/verify.go:65-66 | a proof accepted between MTH(D1) and MTH(D2), 0 < |D1| <= |D2|, shows D1 is a prefix of D2 and is PROOF(|D1|, D2), or a collision is returned |
| Verify.Int64Of | pkg/verify/verify.go:42-44 | `int64(x)` of a uint64 keeps values below 2^63 and makes the others negative |
| Verify.Uint64Of | pkg/verify/verify.go:138-139 | `uint64(x)` of an int64 keeps non-negative values and maps negatives to 2^63 and above |
| Verify.ConversionsInverse | pkg/verify/verify.go:42-44 | the two conversions are inverse, so comparing converted sizes for equality is exact |
| Verify.DecodeAll | pkg/verify/verify.go:57-64 | the decoded proof is present iff every hash is valid hex, and then holds each hash's bytes in order |
| Verify.DecodeConsistencyHashes | pkg/verify/verify.go:57-64 | the decoding loop stops at the first bad hash and otherwise returns all decoded hashes |
| Verify.DecodeAuditPath | pkg/verify/verify.go:120-124 | the audit-path loop keeps one entry per hash, the decoder's bytes, whatever its error |
| Verify.ProveConsistency | pkg/verify/verify.go:40-74 | the method returns the verdict `ConsistencyVerdict` defines |
| Verify.EqualSizesCompareRoots | pkg/verify/verify.go:44-47 | for equal sizes no proof is fetched, and the heads pass exactly when the root hashes are equal |
| Verify.ShrinkingTreeRejected | pkg/verify/verify.go:65-70 | an old head larger than the new one always fails, for all 64-bit sizes |
| Verify.HugeNewSizeReadAsDecrease | pkg/verify/verify.go:42-44 | a new size of 2^63 or more, against an old size below 2^63, is reported as a decrease (signed comparison) |
| Verify.GrowingTreeUsesConsistencyProof | pkg/verify/verify.go:48-68 | whenever int64(old size) < int64(new size), the proof is fetched for those signed sizes; a bad hex hash fails; otherwise the heads pass iff RFC 9162 consistency accepts the decoded proof |
| Verify.ProvenHeadsAppendOnly | pkg/verify/verify.go:40-74 | heads accepted as consistent, stating the sizes and roots of two logs, show the old log is a prefix of the new one, or a collision is returned |
| Verify.VerifyCurrentCheckpoint | pkg/verify/verify.go:79-109 | the method returns the verdict `CheckpointVerdict` defines |
| Verify.CheckpointTrustedOnlyAfterAllChecks | pkg/verify/verify.go:82-108 | the fetched head is returned iff the old signature, the parse, the new signature and consistency all succeed |
| Verify.OldHeadCheckedFirst | pkg/verify/verify.go:82-84 | a bad old signature fails before anything is fetched |
| Verify.VerifyInclusion | pkg/verify/verify.go:115-144 | the method returns the verdict `InclusionVerdict` defines |
| Verify.InclusionIsRfcInclusion | pkg/verify/verify.go:126-141 | with valid root hex and body base64, the entry passes iff RFC 9162 inclusion accepts the RFC 6962 leaf hash of the body |
| Verify.InclusionInputErrors | pkg/verify/verify.go:116-135 | missing proof, bad root hex and bad body base64 fail, in that order |
| Verify.AuditPathHexErrorsIgnored | pkg/verify/verify.go:120-124 | a hex error in an audit-path hash never changes the verdict |
| Verify.HonestEntryIncluded | pkg/verify/verify.go:132-141 | an entry of a log with its true audit path and root passes |
| Verify.IncludedEntryIsInLog | pkg/verify/verify.go:132-141 | a passing entry is the log's entry at its index with its audit path, or a SHA-256 collision is returned |
| Verify.VerifySignedEntryTimestamp | pkg/verify/verify.go:149-185 | passes iff verification and SET are present, marshalling and canonicalisation succeed, and the SET verifies over the canonical bundle |
| Verify.TimestampDependsOnlyOnBundle | pkg/verify/verify.go:157-169 | the SET verdict depends only on body, integrated time, log index, log ID and the SET |
| Verify.TimestampMissingFields | pkg/verify/verify.go:150-155 | missing verification is reported before a missing SET |
| Verify.VerifyLogEntry | pkg/verify/verify.go:191-207 | the method returns the verdict `LogEntryVerdict` defines |
| Verify.LogEntryShortCircuits | pkg/verify/verify.go:193-205 | passes iff both checks pass; an inclusion error is returned unchanged and the SET is not consulted |
| Schema.RenameKeepsFailures | pkg/generated/models/intoto_v002_schema.go:173-176 | renaming a nested error keeps every failure and code, and prefixes each name |
| Schema.CollectReportsAll | pkg/generated/models/intoto_v002_schema.go:145-164 | the composite reports exactly the failures of all checks in order, and is nil iff no check fails |
| Schema.Required | pkg/generated/models/intoto_v002_schema.go:350 | a required field fails exactly when it is nil |
| Schema.MinItems | pkg/generated/models/intoto_v002_schema.go:363-367 | the item count fails exactly when below the minimum |
| Schema.AlgorithmEnum | pkg/generated/models/intoto_v002_schema.go:558-563 | the algorithm passes exactly when it is "sha256", case-sensitively |
| Schema.ValidateHash | pkg/generated/models/intoto_v002_schema.go:522-537 | the method returns the verdict `HashVerdict` defines (both checks, all failures) |
| Schema.HashValidIff | pkg/generated/models/intoto_v002_schema.go:558-586 | a hash passes iff its algorithm is present and "sha256" and its value is present |
| Schema.EmptyHashReportsBoth | pkg/generated/models/intoto_v002_schema.go:522-537 | a hash with neither field reports both required failures, algorithm first |
| Schema.HashContextAlwaysValid | pkg/generated/models/intoto_v002_schema.go:589-596 | ContextValidate of a hash or payload hash always succeeds |
| Schema.SignatureItemVerdict | pkg/generated/models/intoto_v002_schema.go:461-463 | a signature item always validates |
| Schema.ValidateItems | pkg/generated/models/intoto_v002_schema.go:369-385 | the loop over signature items returns the verdict `ItemsVerdict` defines |
| Schema.ItemsVerdictIff | pkg/generated/models/intoto_v002_schema.go:369-385 | the loop passes iff every non-nil item validates; nil items are skipped |
| Schema.ItemsAlwaysValid | pkg/generated/models/intoto_v002_schema.go:369-385 | the signature loop never reports an error |
| Schema.ValidateSignatures | pkg/generated/models/intoto_v002_schema.go:357-388 | the method returns the verdict `SignaturesCheck` defines |
| Schema.ValidateEnvelope | pkg/generated/models/intoto_v002_schema.go:331-346 | the method returns the verdict `EnvelopeVerdict` defines |
| Schema.EnvelopeValidIff | pkg/generated/models/intoto_v002_schema.go:348-367 | an envelope passes iff it has a payload type and a signature list of at least one item |
| Schema.EmptySignaturesTooFew | pkg/generated/models/intoto_v002_schema.go:359-367 | an empty non-nil signature list passes the required check and fails the minimum |
| Schema.ValidateContent | pkg/generated/models/intoto_v002_schema.go:145-221 | the method returns the verdict `ContentVerdict` defines |
| Schema.ContentValidIff | pkg/generated/models/intoto_v002_schema.go:145-221 | content passes iff each part that is present is valid |
| Schema.AbsentPartsAccepted | pkg/generated/models/intoto_v002_schema.go:166-207 | an absent envelope, hash or payload hash produces no error |
| Schema.ContentReportsAll | pkg/generated/models/intoto_v002_schema.go:145-221 | content reports every failure of every part, in order, each with the part's path prefixed |
| Schema.Validate | pkg/generated/models/intoto_v002_schema.go:48-79 | the method returns the verdict `SchemaVerdict` defines |
| Schema.SchemaValidIff | pkg/generated/models/intoto_v002_schema.go:48-79 | nil content fails as required; otherwise the entry passes iff its content does |
| Schema.MissingPayloadTypeName | pkg/generated/models/intoto_v002_schema.go:170-176 | a missing payload type is reported under the nested name content.content.envelope.content.envelope.payloadType |
| Intoto.New | pkg/types/intoto/intoto.go:28-45 | a new type has kind "intoto" |
| Intoto.DefaultVersion | pkg/types/intoto/intoto.go:73-75 | the default version is "0.0.2" |
| Intoto.SupportedVersions | pkg/types/intoto/intoto.go:77-83 | the supported versions are exactly ["0.0.2"] |
| Intoto.Contains | pkg/types/intoto/intoto.go:86 | membership test of a version list |
| Intoto.IsSupportedVersion | pkg/types/intoto/intoto.go:85-87 | a version is supported iff it is in the supported list |
| Intoto.SupportedIsDefaultOnly | pkg/types/intoto/intoto.go:73-87 | the supported list is exactly the default "0.0.2"; 0.0.1 is not supported |
| Intoto.UnmarshalEntry | pkg/types/intoto/intoto.go:49-60 | nil and other kinds fail; an in-toto entry is handed to the implementation of its API version |
| Intoto.UnmarshalEntryGuards | pkg/types/intoto/intoto.go:49-60 | nil fails, another kind fails; an in-toto entry yields exactly the version implementation's entry, or its error |
| Intoto.CreateProposedEntry | pkg/types/intoto/intoto.go:62-71 | an empty version means the default; the version's implementation builds the entry |
| Intoto.CreateUsesVersion | pkg/types/intoto/intoto.go:62-71 | an empty version means the default; a failed lookup is reported and no entry is built; otherwise the result is exactly the implementation's entry or its error |

## Left out

- Network calls, `context.Context` and cancellation. The two log-server replies (GetLogInfo and GetLogProof) are parameters.
- SHA-256, hex and base64 decoding, `json.Marshal`, JSON canonicalisation, checkpoint parsing and checkpoint signature checks are opaque function parameters. Their internals are not modelled.
- `hex.DecodeString` is modelled as an opaque function returning an arbitrary byte string plus an ok flag. The audit-path loop keeps those bytes whatever the flag; which bytes Go returns on a bad character is not modelled.
- Nil pointers that the Go code dereferences without a check are taken to be present; Go would panic on them, and the model has no panics. These are:
  - `*logInfo.TreeID` and `logInfo.SignedTreeHead` of the fetched log info (pkg/verify/verify.go:95, 105);
  - the root hash, log index and tree size of an inclusion proof (pkg/verify/verify.go:126, 138-139);
  - the integrated time, log index and log ID of an entry (pkg/verify/verify.go:164-169).
- The body is taken to be a string, so the `e.Body.(string)` assertion cannot fail.
- The Merkle library's own check that a leaf hash is 32 bytes is not modelled. `HashLeaf` always yields 32 bytes, so it cannot fail here.
- Consistency.VerifyConsistency holds the Merkle library's guards in front of the RFC 9162 algorithm: shrinking sizes, equal sizes, an empty first tree and an empty proof. They follow the transparency-dev Merkle library, whose source is not part of this model.
- Error messages and the numeric go-openapi error codes are not modelled; each failure is named by its kind. The error location ("body") is always the same and is dropped.
- `ValidateName` follows go-openapi's errors package, which is not part of this model: a name is prefixed with the given name and a dot.
- `MarshalBinary`/`UnmarshalBinary`, the enum `init` blocks (the enum is fixed to "sha256"), and all `ContextValidate` methods except those of the hash and payload hash. The others only forward to the signature item's read-only check on the public key, which depends on the request context.
- The global type registry (`types.TypeMap`), the version map, `VersionedUnmarshal` and `CreateFromArtifactProperties`: they live in packages that are not part of this model, so they are parameters.
- Intoto.UnmarshalEntryGuards: a nil `APIVersion` pointer would panic in Go; the model takes the API version as a plain string.
- The CLI (`cmd/rekor-cli/app/get.go`), which only calls these functions and formats output.
