/**
 * Validation of an in-toto v0.0.2 entry (pkg/generated/models/intoto_v002_schema.go,
 * generated by go-swagger).
 *
 * A Go pointer or slice that may be nil is an `Option`. The validators return
 * `None` for success or `Some` of a go-openapi error: a single `Validation`
 * (field name and failure code) or a `Composite` list of errors. Each aggregating
 * `Validate` runs all its field checks, collects their errors in order and wraps
 * them in one composite (`Collect`). A nested object's error is renamed with
 * go-openapi's `ValidateName`, which prefixes the name, so paths built by the
 * generated code nest once per level.
 *
 * Each validator is a function that states its verdict and, where the Go code
 * appends to a list or loops, a method that does so. `SchemaValidIff` relates the
 * verdict to the declarative validity predicates, in both directions.
 */
module Schema {
  import opened Wrappers

  // ---------------------------------------------------------------------------
  // Entities
  // ---------------------------------------------------------------------------

  /** strfmt.Base64: raw bytes, not checked by Validate. */
  type Base64 = seq<bv8>

  /** IntotoV002SchemaContentEnvelopeSignaturesItems0: one signature and its optional key. */
  datatype SignatureItem = SignatureItem(keyid: string, publicKey: Base64, sig: Base64)

  /** IntotoV002SchemaContentEnvelope; `signatures` is None for a nil slice and Some([]) for an empty one. */
  datatype Envelope = Envelope(
    payload: Base64,
    payloadType: Option<string>,
    signatures: Option<seq<Option<SignatureItem>>>)

  /** IntotoV002SchemaContentHash and IntotoV002SchemaContentPayloadHash, which have the same fields. */
  datatype HashSpec = HashSpec(algorithm: Option<string>, value: Option<string>)

  /** IntotoV002SchemaContent: three optional parts. */
  datatype Content = Content(envelope: Option<Envelope>, hash: Option<HashSpec>, payloadHash: Option<HashSpec>)

  /** IntotoV002Schema. */
  datatype IntotoSchema = IntotoSchema(content: Option<Content>)

  /** The only value of the algorithm enum. */
  const Sha256Algorithm: string := "sha256"

  // ---------------------------------------------------------------------------
  // go-openapi errors
  // ---------------------------------------------------------------------------

  /** The checks that can fail: a required field is nil, too few items, a value outside the enum. */
  datatype Code = RequiredFail | TooFewItems(min: int, actual: int) | EnumFail(value: string)

  /** errors.Validation (the location is always "body") and errors.CompositeError. */
  datatype VError = Validation(name: string, code: Code) | Composite(errors: seq<VError>)

  /** Validation.ValidateName: set an empty name, otherwise prefix it with `name` and a dot. */
  function RenameOne(n: string, name: string): string {
    if name == "" then n else if n == "" then name else name + "." + n
  }

  /** ValidateName on a Validation or, recursively, on every error of a CompositeError. */
  function ValidateName(e: VError, name: string): VError
    decreases e
  {
    match e
    case Validation(n, code) => Validation(RenameOne(n, name), code)
    case Composite(es) => Composite(ValidateNames(es, name))
  }

  function ValidateNames(es: seq<VError>, name: string): (r: seq<VError>)
    ensures |r| == |es|
    decreases es
  {
    if es == [] then [] else [ValidateName(es[0], name)] + ValidateNames(es[1..], name)
  }

  /** How the generated code passes a nested object's error up: renamed, or nothing. */
  function Nest(err: Option<VError>, name: string): Option<VError> {
    match err
    case None => None
    case Some(e) => Some(ValidateName(e, name))
  }

  /** A check's error as a list of zero or one errors. */
  function AsList(check: Option<VError>): (r: seq<VError>)
    ensures |r| <= 1
  {
    if check.Some? then [check.value] else []
  }

  /** The errors among the field checks, in order. */
  function Errors(checks: seq<Option<VError>>): (r: seq<VError>)
    ensures |r| <= |checks|
  {
    if checks == [] then [] else AsList(checks[0]) + Errors(checks[1..])
  }

  /** The end of every aggregating Validate: nil if no check failed, else one composite of all failures. */
  function Collect(checks: seq<Option<VError>>): Option<VError> {
    var res := Errors(checks);
    if |res| > 0 then Some(Composite(res)) else None
  }

  lemma ErrorsOfOne(a: Option<VError>)
    ensures Errors([a]) == AsList(a)
  {
    assert [a][1..] == [];
  }

  lemma ErrorsOfTwo(a: Option<VError>, b: Option<VError>)
    ensures Errors([a, b]) == AsList(a) + AsList(b)
  {
    assert [a, b][1..] == [b];
    ErrorsOfOne(b);
  }

  lemma ErrorsOfThree(a: Option<VError>, b: Option<VError>, c: Option<VError>)
    ensures Errors([a, b, c]) == AsList(a) + AsList(b) + AsList(c)
  {
    assert [a, b, c][1..] == [b, c];
    ErrorsOfTwo(b, c);
  }

  /** The failures an error reports: every Validation in it, in order, with its full name. */
  function Leaves(e: VError): seq<(string, Code)>
    decreases e
  {
    match e
    case Validation(n, code) => [(n, code)]
    case Composite(es) => LeavesOf(es)
  }

  function LeavesOf(es: seq<VError>): seq<(string, Code)>
    decreases es
  {
    if es == [] then [] else Leaves(es[0]) + LeavesOf(es[1..])
  }

  function OptLeaves(err: Option<VError>): seq<(string, Code)> {
    if err.Some? then Leaves(err.value) else []
  }

  /** The failures of every check, in order. */
  function CheckLeaves(checks: seq<Option<VError>>): seq<(string, Code)> {
    if checks == [] then [] else OptLeaves(checks[0]) + CheckLeaves(checks[1..])
  }

  /** `name` prefixed to every failure's name. */
  function Prefixed(name: string, ls: seq<(string, Code)>): (r: seq<(string, Code)>)
    ensures |r| == |ls|
  {
    if ls == [] then [] else [(RenameOne(ls[0].0, name), ls[0].1)] + Prefixed(name, ls[1..])
  }

  lemma PrefixedOne(name: string, n: string, code: Code)
    requires name != "" && n != ""
    ensures Prefixed(name, [(n, code)]) == [(name + "." + n, code)]
  {
    assert [(n, code)][1..] == [];
  }

  lemma {:induction false} PrefixedAppend(name: string, a: seq<(string, Code)>, b: seq<(string, Code)>)
    ensures Prefixed(name, a + b) == Prefixed(name, a) + Prefixed(name, b)
    decreases |a|
  {
    if a == [] {
      assert a + b == b;
    } else {
      assert (a + b)[0] == a[0];
      assert (a + b)[1..] == a[1..] + b;
      PrefixedAppend(name, a[1..], b);
    }
  }

  /** Renaming keeps every failure and its code, and prefixes each name. */
  lemma {:induction false} RenameKeepsFailures(e: VError, name: string)
    ensures Leaves(ValidateName(e, name)) == Prefixed(name, Leaves(e))
    decreases e
  {
    match e
    case Validation(n, code) =>
    case Composite(es) => RenameAllKeepsFailures(es, name);
  }

  lemma {:induction false} RenameAllKeepsFailures(es: seq<VError>, name: string)
    ensures LeavesOf(ValidateNames(es, name)) == Prefixed(name, LeavesOf(es))
    decreases es
  {
    if es != [] {
      RenameKeepsFailures(es[0], name);
      RenameAllKeepsFailures(es[1..], name);
      PrefixedAppend(name, Leaves(es[0]), LeavesOf(es[1..]));
    }
  }

  /** A composite reports exactly the failures of all the checks, in order: none is dropped. */
  lemma {:induction false} CollectReportsAll(checks: seq<Option<VError>>)
    ensures OptLeaves(Collect(checks)) == CheckLeaves(checks)
    ensures Collect(checks).None? <==> forall i | 0 <= i < |checks| :: checks[i].None?
  {
    ErrorsReportAll(checks);
  }

  /** `CollectReportsAll` for the three arities the generated code uses. */
  lemma CollectOfOne(a: Option<VError>)
    ensures OptLeaves(Collect([a])) == OptLeaves(a)
    ensures Collect([a]).None? <==> a.None?
  {
    CollectReportsAll([a]);
    assert [a][1..] == [];
  }

  lemma CollectOfTwo(a: Option<VError>, b: Option<VError>)
    ensures OptLeaves(Collect([a, b])) == OptLeaves(a) + OptLeaves(b)
    ensures Collect([a, b]).None? <==> a.None? && b.None?
  {
    CollectReportsAll([a, b]);
    assert [a, b][1..] == [b];
    assert [b][1..] == [];
    assert CheckLeaves([b]) == OptLeaves(b) + CheckLeaves([]);
  }

  lemma CollectOfThree(a: Option<VError>, b: Option<VError>, c: Option<VError>)
    ensures OptLeaves(Collect([a, b, c])) == OptLeaves(a) + OptLeaves(b) + OptLeaves(c)
    ensures Collect([a, b, c]).None? <==> a.None? && b.None? && c.None?
  {
    CollectReportsAll([a, b, c]);
    assert [a, b, c][1..] == [b, c];
    assert [b, c][1..] == [c];
    assert [c][1..] == [];
    assert CheckLeaves([c]) == OptLeaves(c) + CheckLeaves([]);
    assert CheckLeaves([b, c]) == OptLeaves(b) + OptLeaves(c);
  }

  lemma {:induction false} ErrorsReportAll(checks: seq<Option<VError>>)
    ensures LeavesOf(Errors(checks)) == CheckLeaves(checks)
    ensures Errors(checks) == [] <==> forall i | 0 <= i < |checks| :: checks[i].None?
  {
    if checks != [] {
      var rest := Errors(checks[1..]);
      ErrorsReportAll(checks[1..]);
      LeavesOfAppend(AsList(checks[0]), rest);
      assert LeavesOf(AsList(checks[0])) == OptLeaves(checks[0]) by {
        if checks[0].Some? {
          assert [checks[0].value][1..] == [];
        }
      }
      assert forall i | 1 <= i < |checks| :: checks[i] == checks[1..][i - 1];
    }
  }

  lemma {:induction false} LeavesOfAppend(a: seq<VError>, b: seq<VError>)
    ensures LeavesOf(a + b) == LeavesOf(a) + LeavesOf(b)
    decreases |a|
  {
    if a == [] {
      assert a + b == b;
    } else {
      assert (a + b)[1..] == a[1..] + b;
      LeavesOfAppend(a[1..], b);
    }
  }

  // ---------------------------------------------------------------------------
  // Leaf checks
  // ---------------------------------------------------------------------------

  /** validate.Required on a pointer or slice: nil fails, anything else (even empty) passes. */
  function Required(path: string, present: bool): (r: Option<VError>)
    ensures r.None? <==> present
  {
    if present then None else Some(Validation(path, RequiredFail))
  }

  /** validate.MinItems. */
  function MinItems(path: string, size: int, min: int): (r: Option<VError>)
    ensures r.None? <==> size >= min
  {
    if size < min then Some(Validation(path, TooFewItems(min, size))) else None
  }

  /** validateAlgorithmEnum: validate.EnumCase with case sensitivity, against the enum ["sha256"]. */
  function AlgorithmEnum(path: string, value: string): (r: Option<VError>)
    ensures r.None? <==> value == Sha256Algorithm
  {
    if value in [Sha256Algorithm] then None else Some(Validation(path, EnumFail(value)))
  }

  // ---------------------------------------------------------------------------
  // Hash and PayloadHash
  // ---------------------------------------------------------------------------

  /** validateAlgorithm: required, then in the enum; `prefix` is "content.hash" or "content.payloadHash". */
  function HashAlgorithmCheck(prefix: string, h: HashSpec): Option<VError> {
    match Required(prefix + ".algorithm", h.algorithm.Some?)
    case Some(err) => Some(err)
    case None => AlgorithmEnum(prefix + ".algorithm", h.algorithm.value)
  }

  /** validateValue: required. */
  function HashValueCheck(prefix: string, h: HashSpec): Option<VError> {
    Required(prefix + ".value", h.value.Some?)
  }

  /** The verdict of Hash.Validate and PayloadHash.Validate. */
  function HashVerdict(prefix: string, h: HashSpec): Option<VError> {
    Collect([HashAlgorithmCheck(prefix, h), HashValueCheck(prefix, h)])
  }

  /** Hash.Validate and PayloadHash.Validate: both checks, every failure collected. */
  method ValidateHash(prefix: string, h: HashSpec) returns (err: Option<VError>)
    ensures err == HashVerdict(prefix, h)
  {
    ErrorsOfTwo(HashAlgorithmCheck(prefix, h), HashValueCheck(prefix, h));
    var res: seq<VError> := [];
    var e := HashAlgorithmCheck(prefix, h);
    if e.Some? {
      res := res + [e.value];
    }
    assert res == AsList(HashAlgorithmCheck(prefix, h));
    e := HashValueCheck(prefix, h);
    if e.Some? {
      res := res + [e.value];
    }
    assert res == Errors([HashAlgorithmCheck(prefix, h), HashValueCheck(prefix, h)]);
    if |res| > 0 {
      return Some(Composite(res));
    }
    return None;
  }

  /** A hash is valid when its algorithm is present and exactly "sha256" and its value is present. */
  predicate ValidHash(h: HashSpec) {
    h.algorithm == Some(Sha256Algorithm) && h.value.Some?
  }

  lemma HashValidIff(prefix: string, h: HashSpec)
    ensures HashVerdict(prefix, h).None? <==> ValidHash(h)
  {
    CollectOfTwo(HashAlgorithmCheck(prefix, h), HashValueCheck(prefix, h));
  }

  /** With neither field set, both failures are reported, algorithm first. */
  lemma EmptyHashReportsBoth(prefix: string)
    ensures OptLeaves(HashVerdict(prefix, HashSpec(None, None)))
         == [(prefix + ".algorithm", RequiredFail), (prefix + ".value", RequiredFail)]
  {
    CollectOfTwo(HashAlgorithmCheck(prefix, HashSpec(None, None)), HashValueCheck(prefix, HashSpec(None, None)));
  }

  /** Hash.ContextValidate and PayloadHash.ContextValidate: no checks, so an empty composite list. */
  function HashContextVerdict(h: HashSpec): Option<VError> {
    Collect([])
  }

  lemma HashContextAlwaysValid(h: HashSpec)
    ensures HashContextVerdict(h) == None
  {
  }

  // ---------------------------------------------------------------------------
  // Envelope and its signatures
  // ---------------------------------------------------------------------------

  /** SignaturesItems0.Validate: a signature item has no checks. */
  function SignatureItemVerdict(item: SignatureItem): (r: Option<VError>)
    ensures r.None?
  {
    None
  }

  /** Decimal rendering of an index (strconv.Itoa). */
  function Itoa(n: nat): (s: string)
    ensures |s| > 0
  {
    if n < 10 then ["0123456789"[n]] else Itoa(n / 10) + ["0123456789"[n % 10]]
  }

  /** Checks one signature item. */
  type ItemValidator = SignatureItem -> Option<VError>

  /**
   * The loop of validateSignatures from index `from` on: nil items are skipped, and the
   * first error of an item is returned, renamed with the item's path.
   */
  function ItemsVerdict(validate: ItemValidator, items: seq<Option<SignatureItem>>, from: nat): Option<VError>
    requires from <= |items|
    decreases |items| - from
  {
    if from == |items| then None
    else if items[from].None? then ItemsVerdict(validate, items, from + 1)
    else match validate(items[from].value)
      case Some(e) => Some(ValidateName(e, "content.envelope.signatures." + Itoa(from)))
      case None => ItemsVerdict(validate, items, from + 1)
  }

  /** The loop itself. */
  method ValidateItems(validate: ItemValidator, items: seq<Option<SignatureItem>>) returns (err: Option<VError>)
    ensures err == ItemsVerdict(validate, items, 0)
  {
    for i := 0 to |items|
      invariant ItemsVerdict(validate, items, i) == ItemsVerdict(validate, items, 0)
    {
      if items[i].None? {
        continue;
      }
      var e := validate(items[i].value);
      if e.Some? {
        return Some(ValidateName(e.value, "content.envelope.signatures." + Itoa(i)));
      }
    }
    return None;
  }

  /** The items reported are exactly the non-nil ones the validator rejects: nil items are never validated. */
  lemma {:induction false} ItemsVerdictIff(validate: ItemValidator, items: seq<Option<SignatureItem>>, from: nat)
    requires from <= |items|
    ensures ItemsVerdict(validate, items, from).None?
        <==> forall i | from <= i < |items| :: items[i].Some? ==> validate(items[i].value).None?
    decreases |items| - from
  {
    if from < |items| {
      ItemsVerdictIff(validate, items, from + 1);
    }
  }

  /** No signature item can fail, so the loop over the items never reports an error. */
  lemma ItemsAlwaysValid(items: seq<Option<SignatureItem>>)
    ensures ItemsVerdict(SignatureItemVerdict, items, 0) == None
  {
    ItemsVerdictIff(SignatureItemVerdict, items, 0);
  }

  /** validatePayloadType. */
  function PayloadTypeCheck(env: Envelope): Option<VError> {
    Required("content.envelope.payloadType", env.payloadType.Some?)
  }

  /** validateSignatures: required, at least one item, then each non-nil item validated. */
  function SignaturesCheck(env: Envelope): Option<VError> {
    match Required("content.envelope.signatures", env.signatures.Some?)
    case Some(err) => Some(err)
    case None =>
      match MinItems("content.envelope.signatures", |env.signatures.value|, 1)
      case Some(err) => Some(err)
      case None => ItemsVerdict(SignatureItemVerdict, env.signatures.value, 0)
  }

  /** validateSignatures, with the loop over the items. */
  method ValidateSignatures(env: Envelope) returns (err: Option<VError>)
    ensures err == SignaturesCheck(env)
  {
    err := Required("content.envelope.signatures", env.signatures.Some?);
    if err.Some? {
      return;
    }
    var signatures := env.signatures.value;
    err := MinItems("content.envelope.signatures", |signatures|, 1);
    if err.Some? {
      return;
    }
    err := ValidateItems(SignatureItemVerdict, signatures);
  }

  /** The verdict of Envelope.Validate. */
  function EnvelopeVerdict(env: Envelope): Option<VError> {
    Collect([PayloadTypeCheck(env), SignaturesCheck(env)])
  }

  /** Envelope.Validate: both checks, every failure collected. */
  method ValidateEnvelope(env: Envelope) returns (err: Option<VError>)
    ensures err == EnvelopeVerdict(env)
  {
    ErrorsOfTwo(PayloadTypeCheck(env), SignaturesCheck(env));
    var res: seq<VError> := [];
    var e := PayloadTypeCheck(env);
    if e.Some? {
      res := res + [e.value];
    }
    assert res == AsList(PayloadTypeCheck(env));
    e := ValidateSignatures(env);
    if e.Some? {
      res := res + [e.value];
    }
    assert res == Errors([PayloadTypeCheck(env), SignaturesCheck(env)]);
    if |res| > 0 {
      return Some(Composite(res));
    }
    return None;
  }

  /** An envelope is valid when it has a payload type and a non-empty signature list; nil items are allowed. */
  predicate ValidEnvelope(env: Envelope) {
    env.payloadType.Some? && env.signatures.Some? && |env.signatures.value| >= 1
  }

  lemma EnvelopeValidIff(env: Envelope)
    ensures EnvelopeVerdict(env).None? <==> ValidEnvelope(env)
  {
    CollectOfTwo(PayloadTypeCheck(env), SignaturesCheck(env));
    if env.signatures.Some? {
      ItemsAlwaysValid(env.signatures.value);
    }
  }

  /** An empty (non-nil) signature list passes the required check and fails the minimum of one item. */
  lemma EmptySignaturesTooFew(env: Envelope)
    requires env.signatures == Some([])
    ensures SignaturesCheck(env) == Some(Validation("content.envelope.signatures", TooFewItems(1, 0)))
  {
  }

  // ---------------------------------------------------------------------------
  // Content and the schema
  // ---------------------------------------------------------------------------

  /** validateEnvelope: an absent envelope is not checked; a present one's error is renamed. */
  function EnvelopeCheck(c: Content): Option<VError> {
    if c.envelope.None? then None else Nest(EnvelopeVerdict(c.envelope.value), "content.envelope")
  }

  /** validateHash. */
  function HashCheck(c: Content): Option<VError> {
    if c.hash.None? then None else Nest(HashVerdict("content.hash", c.hash.value), "content.hash")
  }

  /** validatePayloadHash. */
  function PayloadHashCheck(c: Content): Option<VError> {
    if c.payloadHash.None? then None
    else Nest(HashVerdict("content.payloadHash", c.payloadHash.value), "content.payloadHash")
  }

  /** The verdict of Content.Validate. */
  function ContentVerdict(c: Content): Option<VError> {
    Collect([EnvelopeCheck(c), HashCheck(c), PayloadHashCheck(c)])
  }

  /** Content.Validate: the three part checks, every failure collected. */
  method ValidateContent(c: Content) returns (err: Option<VError>)
    ensures err == ContentVerdict(c)
  {
    ErrorsOfThree(EnvelopeCheck(c), HashCheck(c), PayloadHashCheck(c));
    var res: seq<VError> := [];
    if c.envelope.Some? {
      var e := ValidateEnvelope(c.envelope.value);
      if e.Some? {
        res := res + [ValidateName(e.value, "content.envelope")];
      }
    }
    assert res == AsList(EnvelopeCheck(c));
    if c.hash.Some? {
      var e := ValidateHash("content.hash", c.hash.value);
      if e.Some? {
        res := res + [ValidateName(e.value, "content.hash")];
      }
    }
    assert res == AsList(EnvelopeCheck(c)) + AsList(HashCheck(c));
    if c.payloadHash.Some? {
      var e := ValidateHash("content.payloadHash", c.payloadHash.value);
      if e.Some? {
        res := res + [ValidateName(e.value, "content.payloadHash")];
      }
    }
    assert res == Errors([EnvelopeCheck(c), HashCheck(c), PayloadHashCheck(c)]);
    if |res| > 0 {
      return Some(Composite(res));
    }
    return None;
  }

  /** Content is valid when each part that is present is valid. */
  predicate ValidContent(c: Content) {
    (c.envelope.Some? ==> ValidEnvelope(c.envelope.value))
    && (c.hash.Some? ==> ValidHash(c.hash.value))
    && (c.payloadHash.Some? ==> ValidHash(c.payloadHash.value))
  }

  lemma ContentValidIff(c: Content)
    ensures ContentVerdict(c).None? <==> ValidContent(c)
  {
    CollectOfThree(EnvelopeCheck(c), HashCheck(c), PayloadHashCheck(c));
    if c.envelope.Some? {
      EnvelopeValidIff(c.envelope.value);
    }
    if c.hash.Some? {
      HashValidIff("content.hash", c.hash.value);
    }
    if c.payloadHash.Some? {
      HashValidIff("content.payloadHash", c.payloadHash.value);
    }
  }

  /** Absent parts are never checked, so they never produce an error. */
  lemma AbsentPartsAccepted(c: Content)
    ensures c.envelope.None? ==> EnvelopeCheck(c) == None
    ensures c.hash.None? ==> HashCheck(c) == None
    ensures c.payloadHash.None? ==> PayloadHashCheck(c) == None
    ensures ContentVerdict(Content(None, None, None)) == None
  {
  }

  /**
   * Content.Validate reports every failure of every part, in the order envelope, hash,
   * payload hash, each with the part's name prefixed.
   */
  lemma ContentReportsAll(c: Content)
    ensures OptLeaves(ContentVerdict(c))
         == (if c.envelope.None? then [] else Prefixed("content.envelope", OptLeaves(EnvelopeVerdict(c.envelope.value))))
          + (if c.hash.None? then [] else Prefixed("content.hash", OptLeaves(HashVerdict("content.hash", c.hash.value))))
          + (if c.payloadHash.None? then []
             else Prefixed("content.payloadHash", OptLeaves(HashVerdict("content.payloadHash", c.payloadHash.value))))
  {
    CollectOfThree(EnvelopeCheck(c), HashCheck(c), PayloadHashCheck(c));
    if c.envelope.Some? && EnvelopeVerdict(c.envelope.value).Some? {
      RenameKeepsFailures(EnvelopeVerdict(c.envelope.value).value, "content.envelope");
    }
    if c.hash.Some? && HashVerdict("content.hash", c.hash.value).Some? {
      RenameKeepsFailures(HashVerdict("content.hash", c.hash.value).value, "content.hash");
    }
    if c.payloadHash.Some? && HashVerdict("content.payloadHash", c.payloadHash.value).Some? {
      RenameKeepsFailures(HashVerdict("content.payloadHash", c.payloadHash.value).value, "content.payloadHash");
    }
  }

  /** validateContent: required, then the content's error renamed with "content". */
  function ContentCheck(s: IntotoSchema): Option<VError> {
    match Required("content", s.content.Some?)
    case Some(err) => Some(err)
    case None => Nest(ContentVerdict(s.content.value), "content")
  }

  /** The verdict of IntotoV002Schema.Validate. */
  function SchemaVerdict(s: IntotoSchema): Option<VError> {
    Collect([ContentCheck(s)])
  }

  /** IntotoV002Schema.Validate. */
  method Validate(s: IntotoSchema) returns (err: Option<VError>)
    ensures err == SchemaVerdict(s)
  {
    ErrorsOfOne(ContentCheck(s));
    var res: seq<VError> := [];
    var e := Required("content", s.content.Some?);
    if e.None? {
      e := ValidateContent(s.content.value);
      e := Nest(e, "content");
    }
    assert e == ContentCheck(s);
    if e.Some? {
      res := res + [e.value];
    }
    assert res == Errors([ContentCheck(s)]);
    if |res| > 0 {
      return Some(Composite(res));
    }
    return None;
  }

  /** A schema is valid when its content is present and valid. */
  predicate ValidSchema(s: IntotoSchema) {
    s.content.Some? && ValidContent(s.content.value)
  }

  /**
   * A nil content is reported as a required failure; otherwise the schema is valid
   * exactly when the content is.
   */
  lemma SchemaValidIff(s: IntotoSchema)
    ensures s.content.None? ==> SchemaVerdict(s) == Some(Composite([Validation("content", RequiredFail)]))
    ensures s.content.Some? ==> (SchemaVerdict(s).None? <==> ContentVerdict(s.content.value).None?)
    ensures SchemaVerdict(s).None? <==> ValidSchema(s)
  {
    ErrorsOfOne(ContentCheck(s));
    CollectOfOne(ContentCheck(s));
    if s.content.Some? {
      ContentValidIff(s.content.value);
    }
  }

  /**
   * Paths nest once per level, because the generated code passes full paths to the
   * leaf checks and also renames each nested error: a missing payload type of an
   * otherwise valid entry is reported under "content.content.envelope.content.envelope.payloadType".
   */
  lemma MissingPayloadTypeName(env: Envelope)
    requires env.payloadType.None? && env.signatures.Some? && |env.signatures.value| >= 1
    ensures OptLeaves(SchemaVerdict(IntotoSchema(Some(Content(Some(env), None, None)))))
         == [("content" + "." + ("content.envelope" + "." + "content.envelope.payloadType"), RequiredFail)]
  {
    ItemsAlwaysValid(env.signatures.value);
    assert SignaturesCheck(env) == None;
    CollectOfTwo(PayloadTypeCheck(env), SignaturesCheck(env));
    var leaf := "content.envelope.payloadType";
    assert OptLeaves(EnvelopeVerdict(env)) == [(leaf, RequiredFail)];
    var c := Content(Some(env), None, None);
    ContentReportsAll(c);
    var mid := "content.envelope" + "." + leaf;
    PrefixedOne("content.envelope", leaf, RequiredFail);
    assert OptLeaves(ContentVerdict(c)) == [(mid, RequiredFail)] + [] + [];
    var s := IntotoSchema(Some(c));
    CollectOfOne(ContentCheck(s));
    RenameKeepsFailures(ContentVerdict(c).value, "content");
    PrefixedOne("content", mid, RequiredFail);
  }
}
