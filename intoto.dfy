/**
 * The "intoto" entry type of the log (pkg/types/intoto/intoto.go): its kind,
 * the versions it accepts, and the guards and version defaulting in front of the
 * version-specific implementations.
 *
 * The version-specific code (VersionedUnmarshal and CreateFromArtifactProperties)
 * lives elsewhere; here it is a function parameter, generic in the entry
 * implementation `E` and the artifact properties `P` it works with.
 */
module Intoto {
  import opened Wrappers

  /** KIND. */
  const Kind: string := "intoto"

  /** The version that deliberately is not supported: it did not keep signatures in the log entry. */
  const RetiredVersion: string := "0.0.1"

  /** BaseIntotoType; its version map belongs to the version-specific code and is not modelled. */
  datatype IntotoType = IntotoType(kind: string)

  /** models.Intoto: the API version of the entry (its spec is only read by the version-specific code). */
  datatype IntotoEntry = IntotoEntry(apiVersion: string)

  /** models.ProposedEntry: an in-toto entry or an entry of another kind. */
  datatype ProposedEntry = IntotoProposed(entry: IntotoEntry) | OtherProposed(kind: string)

  /** The errors of UnmarshalEntry and CreateProposedEntry. */
  datatype Error =
    | NilEntry                          // "proposed entry cannot be nil"
    | NotIntoto                         // "cannot unmarshal non-Rekord types"
    | FetchingImplementation(cause: string) // "fetching Intoto version implementation: %w"
    | Passed(msg: string)               // an error of the version-specific code, returned unchanged

  /** New: a fresh type whose kind is "intoto". */
  function New(): (t: IntotoType)
    ensures t.kind == Kind
  {
    IntotoType(Kind)
  }

  /** DefaultVersion. */
  function DefaultVersion(): string {
    "0.0.2"
  }

  /** SupportedVersions: only the current version; 0.0.1 is left out on purpose. */
  function SupportedVersions(): seq<string> {
    ["0.0.2"]
  }

  /** slices.Contains. */
  function Contains(s: seq<string>, x: string): (b: bool)
    ensures b <==> x in s
  {
    if s == [] then false else s[0] == x || Contains(s[1..], x)
  }

  /** IsSupportedVersion: the proposed version is one of the supported versions. */
  function IsSupportedVersion(proposedVersion: string): (b: bool)
    ensures b <==> proposedVersion in SupportedVersions()
  {
    Contains(SupportedVersions(), proposedVersion)
  }

  /** Exactly one version is supported, the default; the retired 0.0.1 is not. */
  lemma SupportedIsDefaultOnly(v: string)
    ensures SupportedVersions() == [DefaultVersion()]
    ensures IsSupportedVersion(v) <==> v == DefaultVersion()
    ensures IsSupportedVersion(DefaultVersion())
    ensures !IsSupportedVersion(RetiredVersion)
  {
    assert RetiredVersion[4] != DefaultVersion()[4];
  }

  /**
   * UnmarshalEntry: a nil entry and an entry of another kind are rejected; an in-toto
   * entry goes to the implementation for its API version.
   */
  function UnmarshalEntry<E>(versionedUnmarshal: (Option<IntotoEntry>, string) -> Result<E, string>, pe: Option<ProposedEntry>)
    : Result<E, Error>
  {
    match pe
    case None => Failure(NilEntry)
    case Some(OtherProposed(_)) => Failure(NotIntoto)
    case Some(IntotoProposed(entry)) =>
      match versionedUnmarshal(Some(entry), entry.apiVersion)
      case Failure(msg) => Failure(Passed(msg))
      case Success(impl) => Success(impl)
  }

  /**
   * The guards come first and do not consult the versions; an in-toto entry is handed
   * to the implementation of exactly its own API version.
   */
  lemma UnmarshalEntryGuards<E>(versionedUnmarshal: (Option<IntotoEntry>, string) -> Result<E, string>, pe: Option<ProposedEntry>)
    ensures pe.None? ==> UnmarshalEntry(versionedUnmarshal, pe) == Failure(NilEntry)
    ensures pe.Some? && pe.value.OtherProposed? ==> UnmarshalEntry(versionedUnmarshal, pe) == Failure(NotIntoto)
    ensures pe.Some? && pe.value.IntotoProposed? ==>
      (UnmarshalEntry(versionedUnmarshal, pe).Success?
       <==> versionedUnmarshal(Some(pe.value.entry), pe.value.entry.apiVersion).Success?)
    ensures pe.Some? && pe.value.IntotoProposed? && versionedUnmarshal(Some(pe.value.entry), pe.value.entry.apiVersion).Success?
      ==> UnmarshalEntry(versionedUnmarshal, pe) == Success(versionedUnmarshal(Some(pe.value.entry), pe.value.entry.apiVersion).value)
    ensures pe.Some? && pe.value.IntotoProposed? && versionedUnmarshal(Some(pe.value.entry), pe.value.entry.apiVersion).Failure?
      ==> UnmarshalEntry(versionedUnmarshal, pe) == Failure(Passed(versionedUnmarshal(Some(pe.value.entry), pe.value.entry.apiVersion).error))
  {
  }

  /**
   * CreateProposedEntry: an empty version means the default one; the implementation of
   * that version builds the entry from the artifact properties.
   */
  function CreateProposedEntry<E, P>(
    versionedUnmarshal: (Option<IntotoEntry>, string) -> Result<E, string>,
    createFromArtifactProperties: (E, P) -> Result<ProposedEntry, string>,
    version: string,
    props: P)
    : Result<ProposedEntry, Error>
  {
    var v := if version == "" then DefaultVersion() else version;
    match versionedUnmarshal(None, v)
    case Failure(msg) => Failure(FetchingImplementation(msg))
    case Success(ei) =>
      match createFromArtifactProperties(ei, props)
      case Failure(msg) => Failure(Passed(msg))
      case Success(entry) => Success(entry)
  }

  /**
   * The version looked up is the default one for an empty version and the given one
   * otherwise; when the lookup fails, that failure is reported and the entry is never
   * built (any builder gives the same result).
   */
  lemma CreateUsesVersion<E, P>(
    versionedUnmarshal: (Option<IntotoEntry>, string) -> Result<E, string>,
    create: (E, P) -> Result<ProposedEntry, string>,
    create': (E, P) -> Result<ProposedEntry, string>,
    version: string,
    props: P)
    ensures var v := if version == "" then DefaultVersion() else version;
      v != "" && (version != "" ==> v == version)
      && (versionedUnmarshal(None, v).Failure? ==>
            CreateProposedEntry(versionedUnmarshal, create, version, props)
              == CreateProposedEntry(versionedUnmarshal, create', version, props)
              == Failure(FetchingImplementation(versionedUnmarshal(None, v).error)))
      && (versionedUnmarshal(None, v).Success? ==>
            (CreateProposedEntry(versionedUnmarshal, create, version, props).Success?
             <==> create(versionedUnmarshal(None, v).value, props).Success?))
      && (versionedUnmarshal(None, v).Success? && create(versionedUnmarshal(None, v).value, props).Success? ==>
            CreateProposedEntry(versionedUnmarshal, create, version, props)
              == Success(create(versionedUnmarshal(None, v).value, props).value))
      && (versionedUnmarshal(None, v).Success? && create(versionedUnmarshal(None, v).value, props).Failure? ==>
            CreateProposedEntry(versionedUnmarshal, create, version, props)
              == Failure(Passed(create(versionedUnmarshal(None, v).value, props).error)))
  {
  }
}
