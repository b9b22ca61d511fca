/**
  The published order of the private-upload rejection classes: a candidate belongs to
  the first class whose rule it breaks, each rule stated on its own.
 */
module UploadPrecedence {
  import opened BitStream
  import opened GoStrings
  import opened Wrappers
  import opened PrivateUpload
  import Base64
  import BigEndian
  import Hexadecimal
  import LowS

  const PRECEDENCE: seq<Class> := [
    MethodPath, ForbiddenHeader, Class.Authority, Class.Nonce, AudienceKeyId, Signature(LowS.Encoding),
    Signature(LowS.Scalar), Signature(LowS.Malleability), Signature(LowS.Mismatch), BodyDigest]

  /** The signature text is the canonical encoding of the canonical DER of this pair. */
  ghost predicate Spelled<P>(env: Env<P>, signature: Text, r: int, s: int) {
    env.der.parse(env.der.marshal(r, s)) == Some((r, s))
    && TextOf(signature) == Base64.Encode(Base64.Url, env.der.marshal(r, s))
  }

  ghost predicate IsNonce(nonce: Text) {
    exists octets: seq<byte> :: |octets| == 32 && TextOf(nonce) == Base64.Encode(Base64.Url, octets)
  }

  ghost predicate IsAudience(audience: Text) {
    |audience| == 16 && audience[..4] == [107, 101, 121, 95]
    && forall i :: 4 <= i < 16 ==> 48 <= audience[i] <= 57 || 65 <= audience[i] <= 90 || 97 <= audience[i] <= 122
  }

  /** The rule of one class, whatever the other rules say. */
  ghost predicate Breaks<P>(env: Env<P>, octets: seq<byte>, c: Candidate, rule: Class) {
    match rule
    case Accepted => false
    case MethodPath =>
      c.path != Ascii("/internal/v1/uploads")
      || c.method' != (if c.base == UploadGolden then Ascii("POST") else Ascii("PATCH"))
    case ForbiddenHeader => c.forbiddenHeaderPresent
    case Authority => !env.authorityOk(c.authority)
    case Nonce => !IsNonce(c.nonce)
    case AudienceKeyId => c.base == UploadGolden && !IsAudience(c.audience)
    case Signature(Encoding) => !exists r, s :: Spelled(env, c.signature, r, s)
    case Signature(Scalar) => exists r, s :: Spelled(env, c.signature, r, s) && !(LowS.InRange(r) && LowS.InRange(s))
    case Signature(Malleability) => exists r, s :: Spelled(env, c.signature, r, s) && s > LowS.ORDER / 2
    case Signature(Mismatch) =>
      var z := BigEndian.Get(env.sha256(octets));
      exists r, s :: Spelled(env, c.signature, r, s) && !LowS.Verifies(env.curve, env.key, z, r, s)
    case Signature(Accepted) => false
    case BodyDigest =>
      var body := Hexadecimal.Decode(TextOf(c.bodyHex));
      body.None? || TextOf(c.bodySha256) != Hexadecimal.Encode(env.sha256(body.value))
  }

  ghost function FirstBroken<P>(env: Env<P>, octets: seq<byte>, c: Candidate, rules: seq<Class>): Class {
    if rules == [] then Accepted
    else if Breaks(env, octets, c, rules[0]) then rules[0]
    else FirstBroken(env, octets, c, rules[1..])
  }

  lemma NonceExact(nonce: Text)
    ensures NonceOk(nonce) <==> IsNonce(nonce)
  {
    hide Base64.DecodeRequestNonce, Base64.Encode;
    var decoded := Base64.DecodeRequestNonce(TextOf(nonce));
    if decoded.Some? {
      Base64.RequestNonceExact(TextOf(nonce), decoded.value);
    }
    forall octets: seq<byte> | |octets| == 32 && TextOf(nonce) == Base64.Encode(Base64.Url, octets)
      ensures NonceOk(nonce)
    {
      Base64.RequestNonceExact(TextOf(nonce), octets);
    }
  }

  lemma AudienceExact(audience: Text)
    ensures AudienceOk(audience) <==> IsAudience(audience)
  {
    KeyPrefix();
    hide Ascii;
  }

  lemma KeyPrefix()
    ensures Ascii("key_") == [107, 101, 121, 95]
  {
  }

  lemma DigestExact<P(!new)>(env: Env<P>, body: seq<byte>, digest: Text)
    ensures DigestHex(env, body) == digest <==> TextOf(digest) == Hexadecimal.Encode(env.sha256(body))
  {
    var hex := Hexadecimal.Encode(env.sha256(body));
    assert forall i :: 0 <= i < |hex| ==> Hexadecimal.IsHex(hex[i]);
    hide Hexadecimal.Encode, Hexadecimal.IsHex;
    if DigestHex(env, body) == digest {
      OctetsOfInjective(TextOf(digest), hex);
    }
  }

  lemma SpelledExact<P(!new)>(env: Env<P>, signature: Text, r: int, s: int)
    ensures Spelled(env, signature, r, s)
            <==> var octets := Base64.StrictDecode(Base64.Url, TextOf(signature));
                 octets.Some? && env.der.parse(octets.value) == Some((r, s)) && env.der.marshal(r, s) == octets.value
  {
    var octets := Base64.StrictDecode(Base64.Url, TextOf(signature));
    if octets.Some? {
      Base64.StrictDecodeExact(Base64.Url, TextOf(signature), octets.value);
    }
    Base64.StrictDecodeExact(Base64.Url, TextOf(signature), env.der.marshal(r, s));
    hide Base64.StrictDecode, Base64.Encode;
  }

  lemma SpelledOnce<P(!new)>(env: Env<P>, signature: Text, r: int, s: int, r': int, s': int)
    requires Spelled(env, signature, r, s) && Spelled(env, signature, r', s')
    ensures r == r' && s == s'
  {
    hide Spelled;
    SpelledExact(env, signature, r, s);
    SpelledExact(env, signature, r', s');
    hide Base64.StrictDecode;
  }

  lemma UnspelledClass<P(!new)>(env: Env<P>, octets: seq<byte>, signature: Text)
    requires !exists r, s :: Spelled(env, signature, r, s)
    ensures Verify(env, octets, signature) == LowS.Encoding
  {
    hide Base64.StrictDecode, LowS.Verifies, LowS.ORDER, LowS.HALF_ORDER, Spelled;
    var decoded := Base64.StrictDecode(Base64.Url, TextOf(signature));
    if decoded.Some? && env.der.parse(decoded.value).Some? {
      var (r, s) := env.der.parse(decoded.value).value;
      SpelledExact(env, signature, r, s);
    }
  }

  lemma SpelledClass<P(!new)>(env: Env<P>, octets: seq<byte>, signature: Text, r: int, s: int)
    requires Spelled(env, signature, r, s)
    ensures Verify(env, octets, signature)
            == if !(LowS.InRange(r) && LowS.InRange(s)) then LowS.Scalar
               else if s > LowS.ORDER / 2 then LowS.Malleability
               else if !LowS.Verifies(env.curve, env.key, BigEndian.Get(env.sha256(octets)), r, s) then LowS.Mismatch
               else LowS.Accepted
  {
    SpelledExact(env, signature, r, s);
    LowS.Halves();
    hide Base64.StrictDecode, LowS.Verifies, Spelled, BigEndian.Get;
  }

  lemma SpelledRules<P(!new)>(env: Env<P>, octets: seq<byte>, c: Candidate, r: int, s: int)
    requires Spelled(env, c.signature, r, s)
    ensures !Breaks(env, octets, c, Signature(LowS.Encoding))
    ensures Breaks(env, octets, c, Signature(LowS.Scalar)) <==> !(LowS.InRange(r) && LowS.InRange(s))
    ensures Breaks(env, octets, c, Signature(LowS.Malleability)) <==> s > LowS.ORDER / 2
    ensures Breaks(env, octets, c, Signature(LowS.Mismatch))
            <==> !LowS.Verifies(env.curve, env.key, BigEndian.Get(env.sha256(octets)), r, s)
  {
    hide LowS.Verifies, LowS.ORDER, LowS.InRange, Spelled, BigEndian.Get;
    forall r', s' | Spelled(env, c.signature, r', s') ensures r' == r && s' == s {
      SpelledOnce(env, c.signature, r, s, r', s');
    }
  }

  /** The signature classes in their order, for the one pair a canonical signature spells. */
  lemma SignatureExact<P(!new)>(env: Env<P>, octets: seq<byte>, c: Candidate)
    ensures Verify(env, octets, c.signature)
            == if Breaks(env, octets, c, Signature(LowS.Encoding)) then LowS.Encoding
               else if Breaks(env, octets, c, Signature(LowS.Scalar)) then LowS.Scalar
               else if Breaks(env, octets, c, Signature(LowS.Malleability)) then LowS.Malleability
               else if Breaks(env, octets, c, Signature(LowS.Mismatch)) then LowS.Mismatch
               else LowS.Accepted
  {
    if r, s :| Spelled(env, c.signature, r, s) {
      hide *;
      SpelledRules(env, octets, c, r, s);
      SpelledClass(env, octets, c.signature, r, s);
    } else {
      hide Verify, Spelled;
      UnspelledClass(env, octets, c.signature);
    }
  }

  lemma GatesExact<P(!new)>(env: Env<P>, octets: seq<byte>, c: Candidate)
    ensures GateFault(env, c)
            == if Breaks(env, octets, c, MethodPath) then Some(MethodPath)
               else if Breaks(env, octets, c, ForbiddenHeader) then Some(ForbiddenHeader)
               else if Breaks(env, octets, c, Class.Authority) then Some(Class.Authority)
               else if Breaks(env, octets, c, Class.Nonce) then Some(Class.Nonce)
               else if Breaks(env, octets, c, AudienceKeyId) then Some(AudienceKeyId)
               else None
  {
    NonceExact(c.nonce);
    AudienceExact(c.audience);
    hide NonceOk, IsNonce, AudienceOk, IsAudience, Ascii;
  }

  lemma BodyDigestExact<P(!new)>(env: Env<P>, octets: seq<byte>, c: Candidate)
    ensures Breaks(env, octets, c, BodyDigest)
            <==> Body(c).None? || DigestHex(env, Body(c).value) != c.bodySha256
  {
    hide DigestHex, Hexadecimal.Decode, Hexadecimal.Encode;
    if Body(c).Some? {
      DigestExact(env, Body(c).value, c.bodySha256);
    }
  }

  lemma Next<P(!new)>(env: Env<P>, octets: seq<byte>, c: Candidate, k: nat, rule: Class)
    requires k < |PRECEDENCE| && PRECEDENCE[k] == rule
    ensures FirstBroken(env, octets, c, PRECEDENCE[k..])
            == if Breaks(env, octets, c, rule) then rule else FirstBroken(env, octets, c, PRECEDENCE[k + 1..])
  {
    hide Breaks;
    assert PRECEDENCE[k..][1..] == PRECEDENCE[k + 1..];
  }

  lemma GatesFirst<P(!new)>(env: Env<P>, octets: seq<byte>, c: Candidate)
    ensures FirstBroken(env, octets, c, PRECEDENCE)
            == if Breaks(env, octets, c, MethodPath) then MethodPath
               else if Breaks(env, octets, c, ForbiddenHeader) then ForbiddenHeader
               else if Breaks(env, octets, c, Class.Authority) then Class.Authority
               else if Breaks(env, octets, c, Class.Nonce) then Class.Nonce
               else if Breaks(env, octets, c, AudienceKeyId) then AudienceKeyId
               else FirstBroken(env, octets, c, PRECEDENCE[5..])
  {
    hide Breaks, FirstBroken;
    assert PRECEDENCE[0..] == PRECEDENCE;
    Next(env, octets, c, 0, MethodPath);
    Next(env, octets, c, 1, ForbiddenHeader);
    Next(env, octets, c, 2, Class.Authority);
    Next(env, octets, c, 3, Class.Nonce);
    Next(env, octets, c, 4, AudienceKeyId);
  }

  lemma SignatureThenBody<P(!new)>(env: Env<P>, octets: seq<byte>, c: Candidate)
    ensures FirstBroken(env, octets, c, PRECEDENCE[5..])
            == if Breaks(env, octets, c, Signature(LowS.Encoding)) then Signature(LowS.Encoding)
               else if Breaks(env, octets, c, Signature(LowS.Scalar)) then Signature(LowS.Scalar)
               else if Breaks(env, octets, c, Signature(LowS.Malleability)) then Signature(LowS.Malleability)
               else if Breaks(env, octets, c, Signature(LowS.Mismatch)) then Signature(LowS.Mismatch)
               else if Breaks(env, octets, c, BodyDigest) then BodyDigest
               else Accepted
  {
    NoRules(env, octets, c);
    hide Breaks, FirstBroken;
    assert PRECEDENCE[10..] == [];
    Next(env, octets, c, 5, Signature(LowS.Encoding));
    Next(env, octets, c, 6, Signature(LowS.Scalar));
    Next(env, octets, c, 7, Signature(LowS.Malleability));
    Next(env, octets, c, 8, Signature(LowS.Mismatch));
    Next(env, octets, c, 9, BodyDigest);
  }

  lemma NoRules<P(!new)>(env: Env<P>, octets: seq<byte>, c: Candidate)
    ensures FirstBroken(env, octets, c, []) == Accepted
  {
  }

  /**
    Every candidate that can be framed belongs to the first class, in the published
    order, whose rule it breaks, and is accepted if it breaks none.
   */
  lemma PrecedenceExact<P(!new)>(env: Env<P>, file: File, c: Candidate)
    requires Octets(Signed(file, c)).Some?
    ensures RejectClass(env, file, c) == FirstBroken(env, Octets(Signed(file, c)).value, c, PRECEDENCE)
  {
    hide Breaks, FirstBroken, GateFault, Verify, Octets, Signed, Body, DigestHex;
    var octets := Octets(Signed(file, c)).value;
    GatesExact(env, octets, c);
    SignatureExact(env, octets, c);
    BodyDigestExact(env, octets, c);
    GatesFirst(env, octets, c);
    SignatureThenBody(env, octets, c);
  }
}
