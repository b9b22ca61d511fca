/**
  The private-upload request gate and the mutations its published rejections are
  made with.  Under the golden signature nothing but the golden request is accepted,
  unless somebody signed other octets with it or found a second body of its digest;
  and every single mutation is stopped at one gate that its value decides.
 */
module PrivateUpload {
  import opened BitStream
  import opened GoStrings
  import opened Wrappers
  import opened Framing
  import Base64
  import BigEndian
  import Hexadecimal
  import LowS

  /** Strings are octets throughout. */
  type Text = seq<byte>

  datatype Golden<T> = Golden(fields: T, bodyHex: Text, signature: Text)
  datatype File = File(upload: Golden<Upload>, refresh: Golden<Refresh>)
  datatype Base = UploadGolden | RefreshGolden

  datatype Candidate = Candidate(
    base: Base, method': Text, authority: Text, path: Text, audience: Text, forbiddenHeaderPresent: bool,
    nonce: Text, bodyHex: Text, bodySha256: Text, signature: Text)

  datatype Class =
    | Accepted
    | MethodPath
    | ForbiddenHeader
    | Authority
    | Nonce
    | AudienceKeyId
    | Signature(fault: LowS.SignatureClass)
    | BodyDigest

  /** The authority grammar, SHA-256, and the fixture key on its curve. */
  datatype Env<!P> = Env(
    authorityOk: Text -> bool, sha256: seq<byte> -> seq<byte>, curve: LowS.Curve<P>, key: P, der: LowS.Der)

  /** How the signature text fares for these octets. */
  ghost function Verify<P>(env: Env<P>, octets: seq<byte>, signature: Text): LowS.SignatureClass {
    LowS.ClassifySignature(env.curve, env.key, BigEndian.Get(env.sha256(octets)), env.der, TextOf(signature))
  }

  function DigestHex<P>(env: Env<P>, body: seq<byte>): Text {
    var hex := Hexadecimal.Encode(env.sha256(body));
    assert forall i :: 0 <= i < |hex| ==> Hexadecimal.IsHex(hex[i]);
    OctetsOf(hex)
  }

  function MethodOf(base: Base): (m: Text)
    ensures 4 <= |m| <= 5
  {
    match base
    case UploadGolden => Ascii("POST")
    case RefreshGolden => Ascii("PATCH")
  }

  function Path(): (path: Text)
    ensures |path| == 20
  {
    Ascii("/internal/v1/uploads")
  }

  // ----- the gate

  predicate NonceOk(nonce: Text) {
    Base64.DecodeRequestNonce(TextOf(nonce)).Some?
  }

  predicate Alphanumeric(b: byte) {
    48 <= b <= 57 || 65 <= b <= 90 || 97 <= b <= 122
  }

  predicate AudienceOk(audience: Text) {
    |audience| == 16 && audience[..4] == Ascii("key_") && forall i :: 4 <= i < 16 ==> Alphanumeric(audience[i])
  }

  /** The golden request with the candidate's signed fields in place of its own. */
  function Signed(file: File, c: Candidate): Canonical {
    match c.base
    case UploadGolden =>
      UploadAuth(file.upload.fields.(method' := c.method', authority := c.authority, path := c.path, nonce := c.nonce,
                                     audienceKeyId := c.audience, bodySha256Hex := c.bodySha256))
    case RefreshGolden =>
      RefreshAuth(file.refresh.fields.(method' := c.method', authority := c.authority, path := c.path, nonce := c.nonce,
                                       bodySha256Hex := c.bodySha256))
  }

  function Octets(c: Canonical): Option<seq<byte>> {
    if Framable(Fields(c)) then Some(Frame(Domain(c), Fields(c))) else None
  }

  function Body(c: Candidate): Option<seq<byte>> {
    Hexadecimal.Decode(TextOf(c.bodyHex))
  }

  ghost function SignedClass<P>(env: Env<P>, canonical: Option<seq<byte>>, c: Candidate): Class {
    if canonical.None? then Signature(LowS.Mismatch)
    else
      var fault := Verify(env, canonical.value, c.signature);
      if fault != LowS.Accepted then Signature(fault)
      else if Body(c).None? || DigestHex(env, Body(c).value) != c.bodySha256 then BodyDigest
      else Accepted
  }

  /** The first rule broken before the signature is looked at. */
  function GateFault<P>(env: Env<P>, c: Candidate): Option<Class> {
    if c.method' != MethodOf(c.base) || c.path != Path() then Some(MethodPath)
    else if c.forbiddenHeaderPresent then Some(ForbiddenHeader)
    else if !env.authorityOk(c.authority) then Some(Authority)
    else if !NonceOk(c.nonce) then Some(Nonce)
    else if c.base == UploadGolden && !AudienceOk(c.audience) then Some(AudienceKeyId)
    else None
  }

  ghost function RejectClass<P>(env: Env<P>, file: File, c: Candidate): Class {
    match GateFault(env, c)
    case Some(fault) => fault
    case None => SignedClass(env, Octets(Signed(file, c)), c)
  }

  // ----- mutations

  datatype Mutation = Mutation(target: string, field: string, value: Text)

  function GoldenCandidate(file: File, base: Base): Candidate {
    match base
    case UploadGolden =>
      var g := file.upload;
      Candidate(base, g.fields.method', g.fields.authority, g.fields.path, g.fields.audienceKeyId, false,
                g.fields.nonce, g.bodyHex, g.fields.bodySha256Hex, g.signature)
    case RefreshGolden =>
      var g := file.refresh;
      Candidate(base, g.fields.method', g.fields.authority, g.fields.path, [], false, g.fields.nonce,
                g.bodyHex, g.fields.bodySha256Hex, g.signature)
  }

  predicate IsForbiddenHeader(base: Base, name: string) {
    name == "Authorization"
    || (base == RefreshGolden && (name == "X-LayerV-Audience-Key-ID" || name == "X-LayerV-Filename-B64"))
  }

  function Mutate(c: Candidate, m: Mutation): Option<Candidate> {
    match (m.target, m.field)
    case ("request_field", "method") => Some(c.(method' := m.value))
    case ("request_field", "authority") => Some(c.(authority := m.value))
    case ("request_field", "path") => Some(c.(path := m.value))
    case ("request_field", "audience_key_id") => if c.base == UploadGolden then Some(c.(audience := m.value)) else None
    case ("request_field", "nonce") => Some(c.(nonce := m.value))
    case ("request_field", "body_sha256_hex") => Some(c.(bodySha256 := m.value))
    case ("request_field", "signature_der_b64url") => Some(c.(signature := m.value))
    case ("body", "body_hex") => Some(c.(bodyHex := m.value))
    case ("request_header", name) =>
      if IsForbiddenHeader(c.base, name) then Some(c.(forbiddenHeaderPresent := true)) else None
    case _ => None
  }

  function MutateAll(c: Candidate, mutations: seq<Mutation>): Option<Candidate>
    decreases |mutations|
  {
    if mutations == [] then Some(c)
    else
      match Mutate(c, mutations[0])
      case None => None
      case Some(d) => MutateAll(d, mutations[1..])
  }

  method ApplyReject(file: File, base: Base, mutations: seq<Mutation>) returns (r: Option<Candidate>)
    ensures r == MutateAll(GoldenCandidate(file, base), mutations)
  {
    hide GoldenCandidate;
    var candidate := GoldenCandidate(file, base);
    BaseKept(file, base);
    var i := 0;
    while i < |mutations|
      invariant 0 <= i <= |mutations| && candidate.base == base
      invariant MutateAll(GoldenCandidate(file, base), mutations) == MutateAll(candidate, mutations[i..])
    {
      var mutation := mutations[i];
      assert mutations[i..][1..] == mutations[i + 1..];
      if mutation.target == "request_field" && mutation.field == "method" {
        candidate := candidate.(method' := mutation.value);
      } else if mutation.target == "request_field" && mutation.field == "authority" {
        candidate := candidate.(authority := mutation.value);
      } else if mutation.target == "request_field" && mutation.field == "path" {
        candidate := candidate.(path := mutation.value);
      } else if mutation.target == "request_field" && mutation.field == "audience_key_id" && base == UploadGolden {
        candidate := candidate.(audience := mutation.value);
      } else if mutation.target == "request_header" && IsForbiddenHeader(base, mutation.field) {
        candidate := candidate.(forbiddenHeaderPresent := true);
      } else if mutation.target == "request_field" && mutation.field == "nonce" {
        candidate := candidate.(nonce := mutation.value);
      } else if mutation.target == "body" && mutation.field == "body_hex" {
        candidate := candidate.(bodyHex := mutation.value);
      } else if mutation.target == "request_field" && mutation.field == "body_sha256_hex" {
        candidate := candidate.(bodySha256 := mutation.value);
      } else if mutation.target == "request_field" && mutation.field == "signature_der_b64url" {
        candidate := candidate.(signature := mutation.value);
      } else {
        return None;
      }
      i := i + 1;
    }
    return Some(candidate);
  }

  lemma BaseKept(file: File, base: Base)
    ensures GoldenCandidate(file, base).base == base
  {
  }

  // ----- what the golden signature covers

  ghost predicate GoldenAccepted<P>(env: Env<P>, file: File, base: Base) {
    RejectClass(env, file, GoldenCandidate(file, base)) == Accepted
  }

  /** The golden signature is good for octets other than the golden ones. */
  ghost predicate Forges<P>(env: Env<P>, file: File, c: Candidate) {
    var g := GoldenCandidate(file, c.base);
    var octets := Octets(Signed(file, c));
    octets.Some? && octets != Octets(Signed(file, g)) && Verify(env, octets.value, g.signature) == LowS.Accepted
  }

  /** The candidate has another body of the golden body's digest. */
  ghost predicate Collides<P>(env: Env<P>, file: File, c: Candidate) {
    var g := GoldenCandidate(file, c.base);
    Body(c).Some? && Body(g).Some? && Body(c) != Body(g) && env.sha256(Body(c).value) == env.sha256(Body(g).value)
  }

  /** The same request: every signed field, no forbidden header, and a spelling of the same body. */
  ghost predicate SameRequest(c: Candidate, g: Candidate) {
    SameSigned(c, g) && !c.forbiddenHeaderPresent && Body(c) == Body(g)
  }

  ghost predicate SameSigned(c: Candidate, g: Candidate) {
    c.base == g.base && c.method' == g.method' && c.authority == g.authority && c.path == g.path && c.nonce == g.nonce
    && c.bodySha256 == g.bodySha256 && (c.base == UploadGolden ==> c.audience == g.audience)
  }

  lemma SignedInjective(file: File, c: Candidate, g: Candidate)
    requires c.base == g.base && Octets(Signed(file, c)).Some? && Octets(Signed(file, c)) == Octets(Signed(file, g))
    ensures SameSigned(c, g)
  {
    hide Frame, Domain;
    CanonicalInjective(Signed(file, c), Signed(file, g));
    if c.base == RefreshGolden {
      RefreshFields(Signed(file, c).refresh, Signed(file, g).refresh);
    }
  }

  lemma RefreshFields(a: Refresh, b: Refresh)
    requires Fields(RefreshAuth(a)) == Fields(RefreshAuth(b))
    ensures a.method' == b.method' && a.authority == b.authority && a.path == b.path && a.nonce == b.nonce
    ensures a.bodySha256Hex == b.bodySha256Hex
  {
    var f, g := Fields(RefreshAuth(a)), Fields(RefreshAuth(b));
    assert f[0] == g[0] && f[1] == g[1] && f[2] == g[2] && f[4] == g[4] && f[7] == g[7];
  }

  /** Signature text that is good for one digest is, for another, good or a mismatch. */
  lemma OnlyMismatch<P(!new)>(c: LowS.Curve<P>, key: P, der: LowS.Der, encoded: string, z: nat, other: nat)
    requires LowS.ClassifySignature(c, key, z, der, encoded) == LowS.Accepted
    ensures LowS.ClassifySignature(c, key, other, der, encoded) == LowS.Accepted
            || LowS.ClassifySignature(c, key, other, der, encoded) == LowS.Mismatch
  {
    hide LowS.Verifies, Base64.StrictDecode, LowS.ORDER, LowS.HALF_ORDER;
  }

  lemma GoldenGates<P(!new)>(env: Env<P>, file: File, base: Base)
    requires GoldenAccepted(env, file, base)
    ensures var g := GoldenCandidate(file, base);
            g.base == base && g.method' == MethodOf(base) && g.path == Path() && !g.forbiddenHeaderPresent
            && env.authorityOk(g.authority) && NonceOk(g.nonce) && (base == UploadGolden ==> AudienceOk(g.audience))
            && Octets(Signed(file, g)).Some? && Verify(env, Octets(Signed(file, g)).value, g.signature) == LowS.Accepted
            && Body(g).Some? && DigestHex(env, Body(g).value) == g.bodySha256
  {
    hide NonceOk, AudienceOk, Body, DigestHex, Octets, Signed, MethodOf, Path, Verify;
  }

  lemma SameDigest<P(!new)>(env: Env<P>, a: seq<byte>, b: seq<byte>)
    requires DigestHex(env, a) == DigestHex(env, b)
    ensures env.sha256(a) == env.sha256(b)
  {
    var s, t := Hexadecimal.Encode(env.sha256(a)), Hexadecimal.Encode(env.sha256(b));
    assert forall i :: 0 <= i < |s| ==> Hexadecimal.IsHex(s[i]);
    assert forall i :: 0 <= i < |t| ==> Hexadecimal.IsHex(t[i]);
    OctetsOfInjective(s, t);
    Hexadecimal.EncodeInjective(env.sha256(a), env.sha256(b));
  }

  /** Signed fields other than the golden ones leave the golden signature a mismatch, or forge it. */
  lemma StaleClass<P(!new)>(env: Env<P>, file: File, c: Candidate)
    requires GoldenAccepted(env, file, c.base) && c.signature == GoldenCandidate(file, c.base).signature
    requires !SameSigned(c, GoldenCandidate(file, c.base))
    ensures SignedClass(env, Octets(Signed(file, c)), c) == Signature(LowS.Mismatch) || Forges(env, file, c)
  {
    hide Octets, Signed, GoldenCandidate, Body, DigestHex, GoldenAccepted;
    var g := GoldenCandidate(file, c.base);
    GoldenGates(env, file, c.base);
    if Octets(Signed(file, c)).Some? {
      if Octets(Signed(file, c)) == Octets(Signed(file, g)) {
        SignedInjective(file, c, g);
      } else {
        OnlyMismatch(env.curve, env.key, env.der, TextOf(c.signature),
                     BigEndian.Get(env.sha256(Octets(Signed(file, g)).value)),
                     BigEndian.Get(env.sha256(Octets(Signed(file, c)).value)));
      }
    }
  }

  /** The golden signed fields leave the body to decide, up to a collision. */
  lemma FreshClass<P(!new)>(env: Env<P>, file: File, c: Candidate)
    requires GoldenAccepted(env, file, c.base) && c.signature == GoldenCandidate(file, c.base).signature
    requires SameSigned(c, GoldenCandidate(file, c.base))
    ensures var g := GoldenCandidate(file, c.base);
            SignedClass(env, Octets(Signed(file, c)), c) == (if Body(c) == Body(g) then Accepted else BodyDigest)
            || Collides(env, file, c)
  {
    SameSignedOctets(file, c, GoldenCandidate(file, c.base));
    hide Octets, Signed, GoldenCandidate, Body, DigestHex, GoldenAccepted, Verify;
    var g := GoldenCandidate(file, c.base);
    GoldenGates(env, file, c.base);
    if Body(c).Some? && DigestHex(env, Body(c).value) == c.bodySha256 {
      SameDigest(env, Body(c).value, Body(g).value);
    }
  }

  lemma SameSignedOctets(file: File, c: Candidate, g: Candidate)
    requires SameSigned(c, g)
    ensures Signed(file, c) == Signed(file, g)
  {
  }

  /**
    Under the golden signature the golden request is accepted, and whatever else is
    accepted exhibits a forgery or a collision.
   */
  lemma AcceptedIsGolden<P(!new)>(env: Env<P>, file: File, c: Candidate)
    requires GoldenAccepted(env, file, c.base) && c.signature == GoldenCandidate(file, c.base).signature
    ensures SameRequest(c, GoldenCandidate(file, c.base)) ==> RejectClass(env, file, c) == Accepted
    ensures RejectClass(env, file, c) == Accepted ==>
              SameRequest(c, GoldenCandidate(file, c.base)) || Forges(env, file, c) || Collides(env, file, c)
  {
    hide SignedClass, Octets, NonceOk, AudienceOk, Signed, GoldenCandidate, GoldenAccepted, Body, Forges;
    GoldenGates(env, file, c.base);
    if SameSigned(c, GoldenCandidate(file, c.base)) {
      FreshClass(env, file, c);
    } else {
      StaleClass(env, file, c);
    }
  }

  // ----- single mutations

  /** The class a single mutation of the golden request belongs to, from its value alone. */
  ghost function Declared<P>(env: Env<P>, file: File, base: Base, m: Mutation): Class
    requires Octets(Signed(file, GoldenCandidate(file, base))).Some?
  {
    var g := GoldenCandidate(file, base);
    var stale := Signature(LowS.Mismatch);
    match (m.target, m.field)
    case ("request_field", "method") => if m.value == g.method' then Accepted else MethodPath
    case ("request_field", "path") => if m.value == g.path then Accepted else MethodPath
    case ("request_field", "authority") =>
      if !env.authorityOk(m.value) then Authority else if m.value == g.authority then Accepted else stale
    case ("request_field", "nonce") =>
      if !NonceOk(m.value) then Nonce else if m.value == g.nonce then Accepted else stale
    case ("request_field", "audience_key_id") =>
      if !AudienceOk(m.value) then AudienceKeyId else if m.value == g.audience then Accepted else stale
    case ("request_field", "body_sha256_hex") => if m.value == g.bodySha256 then Accepted else stale
    case ("body", "body_hex") => if Body(g.(bodyHex := m.value)) == Body(g) then Accepted else BodyDigest
    case ("request_field", "signature_der_b64url") =>
      var fault := Verify(env, Octets(Signed(file, g)).value, m.value);
      if fault == LowS.Accepted then Accepted else Signature(fault)
    case _ => ForbiddenHeader
  }

  lemma MutateOne(c: Candidate, m: Mutation)
    ensures MutateAll(c, [m]) == Mutate(c, m)
  {
    hide Mutate;
    assert [m][1..] == [];
  }

  lemma SignatureUnsigned(file: File, c: Candidate, signature: Text)
    ensures Signed(file, c.(signature := signature)) == Signed(file, c)
    ensures Body(c.(signature := signature)) == Body(c)
  {
  }

  lemma SignatureMutationClass<P(!new)>(env: Env<P>, file: File, base: Base, value: Text)
    requires GoldenAccepted(env, file, base)
    ensures var g := GoldenCandidate(file, base);
            Octets(Signed(file, g)).Some?
            && var fault := Verify(env, Octets(Signed(file, g)).value, value);
               RejectClass(env, file, g.(signature := value)) == if fault == LowS.Accepted then Accepted
                   else Signature(fault)
  {
    hide Octets, Signed, GoldenCandidate, Body, DigestHex, GoldenAccepted, Verify, NonceOk, AudienceOk, MethodOf, Path;
    GoldenGates(env, file, base);
    SignatureUnsigned(file, GoldenCandidate(file, base), value);
  }

  /** Golden signature and body, no header: the gate decides, and behind it equality with the golden request. */
  lemma SignedFieldsClass<P(!new)>(env: Env<P>, file: File, base: Base, c: Candidate)
    requires GoldenAccepted(env, file, base) && c.base == base && !c.forbiddenHeaderPresent
    requires var g := GoldenCandidate(file, base); c.signature == g.signature && c.bodyHex == g.bodyHex
    ensures RejectClass(env, file, c) == FieldsClass(env, c, GoldenCandidate(file, base))
            || Forges(env, file, c) || Collides(env, file, c)
  {
    hide GateFault, GoldenCandidate, SameSigned, SignedClass, Octets, Signed, Body, GoldenAccepted, Forges, Collides;
    if SameSigned(c, GoldenCandidate(file, base)) {
      FreshClass(env, file, c);
      BodyOnlyHex(c, GoldenCandidate(file, base));
    } else {
      StaleClass(env, file, c);
    }
  }

  ghost function FieldsClass<P>(env: Env<P>, c: Candidate, g: Candidate): Class {
    match GateFault(env, c)
    case Some(fault) => fault
    case None => if SameSigned(c, g) then Accepted else Signature(LowS.Mismatch)
  }

  lemma DeclaredField<P(!new)>(env: Env<P>, file: File, base: Base, m: Mutation)
    requires GoldenAccepted(env, file, base) && Mutate(GoldenCandidate(file, base), m).Some?
    requires m.target == "request_field" && m.field != "signature_der_b64url"
    ensures Octets(Signed(file, GoldenCandidate(file, base))).Some?
    ensures var g := GoldenCandidate(file, base);
            var c := Mutate(g, m).value;
            && c.base == base && !c.forbiddenHeaderPresent && c.signature == g.signature && c.bodyHex == g.bodyHex
            && Declared(env, file, base, m) == FieldsClass(env, c, g)
  {
    hide Octets, Signed, GoldenCandidate, Body, DigestHex, GoldenAccepted, Verify, NonceOk, AudienceOk, MethodOf, Path,
         IsForbiddenHeader;
    GoldenGates(env, file, base);
  }

  /** A mutated body leaves every signed field alone. */
  lemma BodyMutationClass<P(!new)>(env: Env<P>, file: File, base: Base, m: Mutation)
    requires GoldenAccepted(env, file, base) && Mutate(GoldenCandidate(file, base), m).Some? && m.target == "body"
    ensures Octets(Signed(file, GoldenCandidate(file, base))).Some?
    ensures var c := Mutate(GoldenCandidate(file, base), m).value;
            RejectClass(env, file, c) == Declared(env, file, base, m) || Collides(env, file, c)
  {
    hide Octets, Signed, GoldenCandidate, Body, DigestHex, GoldenAccepted, Verify, NonceOk, AudienceOk, MethodOf, Path,
         SignedClass, Collides, IsForbiddenHeader;
    GoldenGates(env, file, base);
    FreshClass(env, file, GoldenCandidate(file, base).(bodyHex := m.value));
  }

  lemma HeaderMutationClass<P(!new)>(env: Env<P>, file: File, base: Base, m: Mutation)
    requires GoldenAccepted(env, file, base) && Mutate(GoldenCandidate(file, base), m).Some?
    requires m.target != "request_field" && m.target != "body"
    ensures Octets(Signed(file, GoldenCandidate(file, base))).Some?
    ensures RejectClass(env, file, Mutate(GoldenCandidate(file, base), m).value) == Declared(env, file, base, m)
  {
    hide Octets, Signed, GoldenCandidate, Body, DigestHex, GoldenAccepted, Verify, NonceOk, AudienceOk, MethodOf, Path,
         IsForbiddenHeader;
    GoldenGates(env, file, base);
  }

  lemma FieldMutationClass<P(!new)>(env: Env<P>, file: File, base: Base, m: Mutation)
    requires GoldenAccepted(env, file, base) && Mutate(GoldenCandidate(file, base), m).Some?
    requires !(m.target == "request_field" && m.field == "signature_der_b64url")
    ensures Octets(Signed(file, GoldenCandidate(file, base))).Some?
    ensures var c := Mutate(GoldenCandidate(file, base), m).value;
            RejectClass(env, file, c) == Declared(env, file, base, m) || Forges(env, file, c) || Collides(env, file, c)
  {
    hide *;
    if m.target == "request_field" {
      DeclaredField(env, file, base, m);
      SignedFieldsClass(env, file, base, Mutate(GoldenCandidate(file, base), m).value);
    } else if m.target == "body" {
      BodyMutationClass(env, file, base, m);
    } else {
      HeaderMutationClass(env, file, base, m);
    }
  }

  lemma BodyOnlyHex(c: Candidate, g: Candidate)
    ensures c.bodyHex == g.bodyHex ==> Body(c) == Body(g)
  {
  }

  /**
    Every single mutation is stopped at exactly the gate its value decides, unless it
    exhibits a forgery or a collision.
   */
  lemma SingleMutationClass<P(!new)>(env: Env<P>, file: File, base: Base, m: Mutation)
    requires GoldenAccepted(env, file, base) && MutateAll(GoldenCandidate(file, base), [m]).Some?
    ensures Octets(Signed(file, GoldenCandidate(file, base))).Some?
    ensures var c := MutateAll(GoldenCandidate(file, base), [m]).value;
            RejectClass(env, file, c) == Declared(env, file, base, m) || Forges(env, file, c) || Collides(env, file, c)
  {
    MutateOne(GoldenCandidate(file, base), m);
    hide RejectClass, GoldenCandidate, MutateAll, Octets, Signed, Body, Forges, Collides, GoldenAccepted, Verify;
    if m.target == "request_field" && m.field == "signature_der_b64url" {
      SignatureMutationClass(env, file, base, m.value);
    } else {
      FieldMutationClass(env, file, base, m);
    }
  }

  // ----- the published high-S rejections

  function EncodedSignature<P>(env: Env<P>, r: int, s: int): Text {
    var t := LowS.Encoded(env.der, r, s);
    assert forall i :: 0 <= i < |t| ==> Base64.InAlphabet(Base64.Url, t[i]);
    OctetsOf(t)
  }

  lemma EncodedText<P(!new)>(env: Env<P>, r: int, s: int)
    ensures TextOf(EncodedSignature(env, r, s)) == LowS.Encoded(env.der, r, s)
  {
    var t := LowS.Encoded(env.der, r, s);
    assert forall i :: 0 <= i < |t| ==> Base64.InAlphabet(Base64.Url, t[i]);
    OctetsOfInjective(TextOf(OctetsOf(t)), t);
  }

  /** The golden request under the mirror (r, n - s) of its own signature is stopped as malleability. */
  lemma MirroredGolden<P(!new)>(env: Env<P>, file: File, base: Base, r: int, s: int)
    requires GoldenAccepted(env, file, base) && LowS.IsCurve(env.curve)
    requires forall r, s :: env.der.parse(env.der.marshal(r, s)) == Some((r, s))
    requires LowS.InRange(r) && LowS.InRange(s)
    requires GoldenCandidate(file, base).signature == EncodedSignature(env, r, s)
    ensures RejectClass(env, file, GoldenCandidate(file, base).(signature := EncodedSignature(env, r, LowS.ORDER - s)))
            == Signature(LowS.Malleability)
  {
    hide *;
    GoldenGates(env, file, base);
    SignatureMutationClass(env, file, base, EncodedSignature(env, r, LowS.ORDER - s));
    MirroredFault(env, Octets(Signed(file, GoldenCandidate(file, base))).value, r, s);
  }

  lemma MirroredFault<P(!new)>(env: Env<P>, octets: seq<byte>, r: int, s: int)
    requires forall r, s :: env.der.parse(env.der.marshal(r, s)) == Some((r, s))
    requires LowS.IsCurve(env.curve) && LowS.InRange(r) && LowS.InRange(s)
    requires Verify(env, octets, EncodedSignature(env, r, s)) == LowS.Accepted
    ensures Verify(env, octets, EncodedSignature(env, r, LowS.ORDER - s)) == LowS.Malleability
  {
    hide LowS.IsCurve, LowS.ClassifySignature, LowS.InRange, LowS.ORDER, LowS.Encoded, EncodedSignature;
    EncodedText(env, r, s);
    EncodedText(env, r, LowS.ORDER - s);
    var z := BigEndian.Get(env.sha256(octets));
    LowS.MirrorIsMalleability(env.curve, env.key, z, env.der, r, s);
    var here := LowS.ClassifySignature(env.curve, env.key, z, env.der, LowS.Encoded(env.der, r, s));
    var there := LowS.ClassifySignature(env.curve, env.key, z, env.der, LowS.Encoded(env.der, r, LowS.ORDER - s));
    assert here == LowS.Accepted;
    assert LowS.Malleability in {here, there};
  }

  // ----- whoever can sign has golden requests

  function ZeroNonce(): (nonce: Text)
    ensures |nonce| == 43
  {
    var t := Base64.Encode(Base64.Url, seq(Base64.NONCE_OCTETS, _ => 0));
    assert forall i :: 0 <= i < |t| ==> Base64.InAlphabet(Base64.Url, t[i]);
    OctetsOf(t)
  }

  lemma ZeroNonceOk()
    ensures NonceOk(ZeroNonce())
  {
    var octets: seq<byte> := seq(Base64.NONCE_OCTETS, _ => 0);
    var t := Base64.Encode(Base64.Url, octets);
    assert forall i :: 0 <= i < |t| ==> Base64.InAlphabet(Base64.Url, t[i]);
    OctetsOfInjective(TextOf(ZeroNonce()), t);
    Base64.RequestNonceExact(t, octets);
    hide Base64.DecodeRequestNonce, Base64.Encode;
  }

  function SampleAudience(): (audience: Text)
    ensures |audience| == 16
  {
    Ascii("key_") + seq(12, _ => 65)
  }

  lemma SampleAudienceOk()
    ensures AudienceOk(SampleAudience())
  {
  }

  function SampleUpload(authority: Text, digest: Text): Upload {
    Upload(MethodOf(UploadGolden), authority, Path(), [], ZeroNonce(), [], [], SampleAudience(), digest,
           [], [], [], [], [])
  }

  function SampleRefresh(authority: Text, digest: Text): Refresh {
    Refresh(MethodOf(RefreshGolden), authority, Path(), [], ZeroNonce(), [], [], digest, [], [], [], [], [], [])
  }

  /** Requests with an empty body, signed with `sign`. */
  function SampleFile<P>(env: Env<P>, sign: seq<byte> -> Text, authority: Text): File {
    var digest := DigestHex(env, []);
    var upload, refresh := SampleUpload(authority, digest), SampleRefresh(authority, digest);
    File(Golden(upload, [], sign(Frame(Domain(UploadAuth(upload)), Fields(UploadAuth(upload))))),
         Golden(refresh, [], sign(Frame(Domain(RefreshAuth(refresh)), Fields(RefreshAuth(refresh))))))
  }

  lemma SampleFramable(authority: Text, digest: Text)
    requires |authority| <= MAX_FIELD && |digest| <= MAX_FIELD
    ensures Framable(Fields(UploadAuth(SampleUpload(authority, digest))))
    ensures Framable(Fields(RefreshAuth(SampleRefresh(authority, digest))))
  {
    hide MethodOf, Path, SampleAudience, ZeroNonce;
  }

  lemma DigestLength<P(!new)>(env: Env<P>, body: seq<byte>)
    requires |env.sha256(body)| == 32
    ensures |DigestHex(env, body)| == 64
  {
    HexLength(env.sha256(body));
    hide Hexadecimal.Encode;
  }

  lemma {:induction false} HexLength(octets: seq<byte>)
    ensures |Hexadecimal.Encode(octets)| == 2 * |octets|
  {
    if octets != [] {
      HexLength(octets[1..]);
    }
  }

  lemma EmptyBody(c: Candidate)
    requires c.bodyHex == []
    ensures Body(c) == Some([])
  {
    assert TextOf([]) == "";
  }

  lemma SampleSigned<P(!new)>(env: Env<P>, sign: seq<byte> -> Text, authority: Text, base: Base)
    requires |authority| <= MAX_FIELD && |env.sha256([])| == 32
    ensures var file := SampleFile(env, sign, authority);
            var g := GoldenCandidate(file, base);
            g.base == base && g.method' == MethodOf(base) && g.path == Path() && !g.forbiddenHeaderPresent
            && g.authority == authority && g.nonce == ZeroNonce()
            && (base == UploadGolden ==> g.audience == SampleAudience())
            && g.bodyHex == [] && g.bodySha256 == DigestHex(env, []) && Octets(Signed(file, g)).Some?
            && g.signature == sign(Octets(Signed(file, g)).value)
  {
    var digest := DigestHex(env, []);
    DigestLength(env, []);
    SampleFramable(authority, digest);
    hide DigestHex, MethodOf, Path, SampleAudience, ZeroNonce, Frame, Domain, Fields;
    var file := SampleFile(env, sign, authority);
    var g := GoldenCandidate(file, base);
    assert Signed(file, g) == match base
      case UploadGolden => UploadAuth(SampleUpload(authority, digest))
      case RefreshGolden => RefreshAuth(SampleRefresh(authority, digest));
  }

  /** For every key somebody can sign with, and either base, a golden request is accepted. */
  lemma SignedGoldenAccepted<P(!new)>(env: Env<P>, sign: seq<byte> -> Text, authority: Text, base: Base)
    requires forall m :: Verify(env, m, sign(m)) == LowS.Accepted
    requires env.authorityOk(authority) && |authority| <= MAX_FIELD && |env.sha256([])| == 32
    ensures GoldenAccepted(env, SampleFile(env, sign, authority), base)
  {
    hide NonceOk, AudienceOk, ZeroNonce, GoldenCandidate, SampleFile, SampleAudience, Octets, Signed, MethodOf, Path,
         Verify, DigestHex, Body;
    SampleSigned(env, sign, authority, base);
    ZeroNonceOk();
    SampleAudienceOk();
    EmptyBody(GoldenCandidate(SampleFile(env, sign, authority), base));
  }
}
