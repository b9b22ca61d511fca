/**
  The private-upload canonical bytes: a domain, a NUL, then every field after its
  own four-octet length.
 */
module Framing {
  import opened BitStream
  import opened Wrappers
  import BigEndian

  const MAX_FIELD := 0xFFFF_FFFF

  predicate Framable(fields: seq<seq<byte>>) {
    forall i :: 0 <= i < |fields| ==> |fields[i]| <= MAX_FIELD
  }

  function LengthOctets(n: nat): (octets: seq<byte>)
    ensures |octets| == 4
  {
    BigEndian.Put(n, 4)
  }

  function FrameFields(fields: seq<seq<byte>>): seq<byte> {
    if fields == [] then [] else LengthOctets(|fields[0]|) + fields[0] + FrameFields(fields[1..])
  }

  function Frame(domain: seq<byte>, fields: seq<seq<byte>>): seq<byte> {
    domain + [0] + FrameFields(fields)
  }

  lemma {:induction false} FrameFieldsAppend(fields: seq<seq<byte>>, field: seq<byte>)
    ensures FrameFields(fields + [field]) == FrameFields(fields) + LengthOctets(|field|) + field
  {
    if fields == [] {
      assert [field][1..] == [];
    } else {
      assert (fields + [field])[1..] == fields[1..] + [field];
      FrameFieldsAppend(fields[1..], field);
    }
  }

  lemma FrameAppend(domain: seq<byte>, fields: seq<seq<byte>>, i: nat)
    requires i < |fields|
    ensures Frame(domain, fields[..i + 1]) == Frame(domain, fields[..i]) + LengthOctets(|fields[i]|) + fields[i]
  {
    hide FrameFields, LengthOctets;
    assert fields[..i + 1] == fields[..i] + [fields[i]];
    FrameFieldsAppend(fields[..i], fields[i]);
  }

  method BuildFrame(domain: seq<byte>, fields: seq<seq<byte>>) returns (result: Option<seq<byte>>)
    ensures result == if Framable(fields) then Some(Frame(domain, fields)) else None
  {
    var buffer := domain + [0];
    assert buffer == Frame(domain, fields[..0]);
    hide Frame, LengthOctets;
    var i := 0;
    while i < |fields|
      invariant 0 <= i <= |fields| && Framable(fields[..i])
      invariant buffer == Frame(domain, fields[..i])
    {
      if |fields[i]| > MAX_FIELD {
        return None;
      }
      FrameAppend(domain, fields, i);
      buffer := buffer + LengthOctets(|fields[i]|);
      buffer := buffer + fields[i];
      i := i + 1;
    }
    assert fields[..i] == fields;
    return Some(buffer);
  }

  // ----- a decoder that inverts the framing

  function Unframe(octets: seq<byte>): Option<(seq<byte>, seq<seq<byte>>)> {
    if octets == [] then None
    else if octets[0] == 0 then
      var fields := UnframeFields(octets[1..]);
      if fields.None? then None else Some(([], fields.value))
    else
      var rest := Unframe(octets[1..]);
      if rest.None? then None else Some(([octets[0]] + rest.value.0, rest.value.1))
  }

  function UnframeFields(octets: seq<byte>): Option<seq<seq<byte>>>
    decreases |octets|
  {
    if octets == [] then Some([])
    else if |octets| < 4 then None
    else
      var n := BigEndian.Get(octets[..4]);
      if |octets| < 4 + n then None
      else
        var rest := UnframeFields(octets[4 + n..]);
        if rest.None? then None else Some([octets[4..4 + n]] + rest.value)
  }

  lemma HeadOfFrame(f: seq<byte>, tail: seq<byte>)
    requires |f| <= MAX_FIELD
    ensures var octets := LengthOctets(|f|) + f + tail;
            BigEndian.Get(octets[..4]) == |f| && octets[4..4 + |f|] == f && octets[4 + |f|..] == tail
  {
    assert BigEndian.Pow256(4) == 0x1_0000_0000;
    BigEndian.GetPut(|f|, 4);
    hide BigEndian.Get, BigEndian.Put;
    assert (LengthOctets(|f|) + f + tail)[..4] == LengthOctets(|f|);
  }

  lemma {:induction false} UnframeFieldsInverts(fields: seq<seq<byte>>)
    requires Framable(fields)
    ensures UnframeFields(FrameFields(fields)) == Some(fields)
  {
    hide BigEndian.Get, LengthOctets;
    if fields != [] {
      HeadOfFrame(fields[0], FrameFields(fields[1..]));
      assert Framable(fields[1..]);
      UnframeFieldsInverts(fields[1..]);
      assert [fields[0]] + fields[1..] == fields;
    }
  }

  /** The decoder recovers domain and fields of every frame. */
  lemma {:induction false} UnframeInverts(domain: seq<byte>, fields: seq<seq<byte>>)
    requires 0 !in domain && Framable(fields)
    ensures Unframe(Frame(domain, fields)) == Some((domain, fields))
  {
    var octets := Frame(domain, fields);
    if domain == [] {
      UnframeFieldsInverts(fields);
      assert octets[1..] == FrameFields(fields);
    } else {
      UnframeInverts(domain[1..], fields);
      assert octets[1..] == Frame(domain[1..], fields);
      assert [domain[0]] + domain[1..] == domain;
    }
  }

  /** Two frames are equal exactly when domain and field list are. */
  lemma FrameInjective(d: seq<byte>, fs: seq<seq<byte>>, e: seq<byte>, gs: seq<seq<byte>>)
    requires 0 !in d && 0 !in e && Framable(fs) && Framable(gs)
    ensures Frame(d, fs) == Frame(e, gs) <==> d == e && fs == gs
  {
    UnframeInverts(d, fs);
    UnframeInverts(e, gs);
  }

  lemma LengthInverts(octets: seq<byte>)
    requires |octets| == 4
    ensures BigEndian.Get(octets) <= MAX_FIELD && LengthOctets(BigEndian.Get(octets)) == octets
  {
    assert BigEndian.Pow256(4) == 0x1_0000_0000;
    BigEndian.PutGet(octets);
  }

  lemma FrameFieldsCons(field: seq<byte>, rest: seq<seq<byte>>)
    ensures FrameFields([field] + rest) == LengthOctets(|field|) + field + FrameFields(rest)
  {
    hide LengthOctets;
    assert ([field] + rest)[1..] == rest;
  }

  lemma FrameStep(octets: seq<byte>, n: nat, rest: seq<seq<byte>>)
    requires 4 + n <= |octets| && n == BigEndian.Get(octets[..4]) && FrameFields(rest) == octets[4 + n..]
    ensures n <= MAX_FIELD && FrameFields([octets[4..4 + n]] + rest) == octets
  {
    hide BigEndian.Get, LengthOctets, FrameFields;
    LengthInverts(octets[..4]);
    FrameFieldsCons(octets[4..4 + n], rest);
    assert octets == octets[..4] + octets[4..4 + n] + octets[4 + n..];
  }

  lemma {:induction false} FrameFieldsInverts(octets: seq<byte>)
    requires UnframeFields(octets).Some?
    ensures FrameFields(UnframeFields(octets).value) == octets
    ensures Framable(UnframeFields(octets).value)
    decreases |octets|
  {
    hide BigEndian.Get, LengthOctets;
    if octets != [] {
      var n := BigEndian.Get(octets[..4]);
      var rest := UnframeFields(octets[4 + n..]).value;
      FrameFieldsInverts(octets[4 + n..]);
      hide FrameFields;
      FrameStep(octets, n, rest);
      assert UnframeFields(octets).value == [octets[4..4 + n]] + rest;
    }
  }

  /** What the decoder accepts is a frame: no octet string stands outside the image. */
  lemma {:induction false} FrameInverts(octets: seq<byte>)
    requires Unframe(octets).Some?
    ensures var (domain, fields) := Unframe(octets).value;
            0 !in domain && Framable(fields) && Frame(domain, fields) == octets
  {
    var (domain, fields) := Unframe(octets).value;
    if octets[0] == 0 {
      FrameFieldsInverts(octets[1..]);
    } else {
      FrameInverts(octets[1..]);
      assert domain[1..] == Unframe(octets[1..]).value.0;
    }
  }

  // ----- the four canonical forms

  datatype Upload = Upload(
    method': seq<byte>, authority: seq<byte>, path: seq<byte>, timestamp: seq<byte>, nonce: seq<byte>,
    clientId: seq<byte>, keyId: seq<byte>, audienceKeyId: seq<byte>, bodySha256Hex: seq<byte>, bodyLength: seq<byte>,
    mediaType: seq<byte>, displayFilename: seq<byte>, authorityExpiresAt: seq<byte>, uploadRequestId: seq<byte>)

  datatype Refresh = Refresh(
    method': seq<byte>, authority: seq<byte>, path: seq<byte>, timestamp: seq<byte>, nonce: seq<byte>,
    clientId: seq<byte>, keyId: seq<byte>, bodySha256Hex: seq<byte>, bodyLength: seq<byte>,
    uploadHandle: seq<byte>, maxBatchSize: seq<byte>, maxLinkTtlSeconds: seq<byte>,
    authorityExpiresAt: seq<byte>, uploadRequestId: seq<byte>)

  datatype Canonical =
    | UploadAuth(upload: Upload)
    | UploadRequest(upload: Upload)
    | RefreshAuth(refresh: Refresh)
    | RefreshRequest(refresh: Refresh)

  function Domain(c: Canonical): (domain: seq<byte>)
    ensures 0 !in domain
  {
    match c
    case UploadAuth(_) => Ascii("LV-QURL-UPLOAD-AUTH-V1")
    case UploadRequest(_) => Ascii("LV-QURL-UPLOAD-REQUEST-V1")
    case RefreshAuth(_) => Ascii("LV-QURL-UPLOAD-REFRESH-AUTH-V1")
    case RefreshRequest(_) => Ascii("LV-QURL-UPLOAD-REFRESH-REQUEST-V1")
  }

  function Fields(c: Canonical): seq<seq<byte>> {
    match c
    case UploadAuth(g) => [
      g.method', g.authority, g.path, g.timestamp, g.nonce, g.clientId, g.keyId, g.audienceKeyId, g.bodySha256Hex,
      g.bodyLength, g.mediaType, g.displayFilename, g.authorityExpiresAt, g.uploadRequestId]
    case UploadRequest(g) => [
      g.clientId, g.audienceKeyId, g.bodySha256Hex, g.bodyLength, g.mediaType, g.displayFilename,
      g.authorityExpiresAt, g.uploadRequestId]
    case RefreshAuth(g) => [
      g.method', g.authority, g.path, g.timestamp, g.nonce, g.clientId, g.keyId, g.bodySha256Hex, g.bodyLength,
      g.uploadRequestId]
    case RefreshRequest(g) => [
      g.clientId, g.uploadHandle, g.maxBatchSize, g.maxLinkTtlSeconds, g.authorityExpiresAt, g.uploadRequestId]
  }

  method CanonicalBytes(c: Canonical) returns (result: Option<seq<byte>>)
    ensures result == if Framable(Fields(c)) then Some(Frame(Domain(c), Fields(c))) else None
  {
    result := BuildFrame(Domain(c), Fields(c));
  }

  lemma DomainLengths(c: Canonical)
    ensures |Domain(c)| == match c
      case UploadAuth(_) => 22
      case UploadRequest(_) => 25
      case RefreshAuth(_) => 30
      case RefreshRequest(_) => 33
  {
  }

  // ----- the published names

  const UPLOAD_FIELDS := [
    "method", "authority", "path", "timestamp_unix_decimal", "nonce", "client_id", "key_id", "audience_key_id",
    "body_sha256_hex", "body_length_decimal", "media_type", "display_filename_utf8", "authority_expires_at",
    "upload_request_id"]

  const UPLOAD_STABLE_FIELDS := [
    "client_id", "audience_key_id", "body_sha256_hex", "body_length_decimal", "media_type", "display_filename_utf8",
    "authority_expires_at", "upload_request_id"]

  const REFRESH_FIELDS := [
    "method", "authority", "path", "timestamp_unix_decimal", "nonce", "client_id", "key_id", "body_sha256_hex",
    "body_length_decimal", "upload_request_id"]

  const REFRESH_STABLE_FIELDS := [
    "client_id", "upload_handle", "max_batch_size_decimal", "max_link_ttl_seconds_decimal", "authority_expires_at",
    "upload_request_id"]

  function Names(c: Canonical): seq<string> {
    match c
    case UploadAuth(_) => UPLOAD_FIELDS
    case UploadRequest(_) => UPLOAD_STABLE_FIELDS
    case RefreshAuth(_) => REFRESH_FIELDS
    case RefreshRequest(_) => REFRESH_STABLE_FIELDS
  }

  /** The member of an upload fixture that has this name. */
  function UploadMember(g: Upload, name: string): seq<byte> {
    match name
    case "method" => g.method'
    case "authority" => g.authority
    case "path" => g.path
    case "timestamp_unix_decimal" => g.timestamp
    case "nonce" => g.nonce
    case "client_id" => g.clientId
    case "key_id" => g.keyId
    case "audience_key_id" => g.audienceKeyId
    case "body_sha256_hex" => g.bodySha256Hex
    case "body_length_decimal" => g.bodyLength
    case "media_type" => g.mediaType
    case "display_filename_utf8" => g.displayFilename
    case "authority_expires_at" => g.authorityExpiresAt
    case "upload_request_id" => g.uploadRequestId
    case _ => []
  }

  function RefreshMember(g: Refresh, name: string): seq<byte> {
    match name
    case "method" => g.method'
    case "authority" => g.authority
    case "path" => g.path
    case "timestamp_unix_decimal" => g.timestamp
    case "nonce" => g.nonce
    case "client_id" => g.clientId
    case "key_id" => g.keyId
    case "body_sha256_hex" => g.bodySha256Hex
    case "body_length_decimal" => g.bodyLength
    case "upload_handle" => g.uploadHandle
    case "max_batch_size_decimal" => g.maxBatchSize
    case "max_link_ttl_seconds_decimal" => g.maxLinkTtlSeconds
    case "authority_expires_at" => g.authorityExpiresAt
    case "upload_request_id" => g.uploadRequestId
    case _ => []
  }

  function NamedMember(c: Canonical, name: string): seq<byte> {
    match c
    case UploadAuth(g) => UploadMember(g, name)
    case UploadRequest(g) => UploadMember(g, name)
    case RefreshAuth(g) => RefreshMember(g, name)
    case RefreshRequest(g) => RefreshMember(g, name)
  }

  /** Each form frames the members its published list names, in that order. */
  lemma FieldsAreNamed(c: Canonical)
    ensures |Fields(c)| == |Names(c)|
    ensures forall i :: 0 <= i < |Names(c)| ==> Fields(c)[i] == NamedMember(c, Names(c)[i])
  {
  }

  lemma SameNamed(c: Canonical, d: Canonical)
    requires Fields(c) == Fields(d) && Names(c) == Names(d)
    ensures forall name :: name in Names(c) ==> NamedMember(c, name) == NamedMember(d, name)
  {
    FieldsAreNamed(c);
    FieldsAreNamed(d);
    hide Fields, Names, NamedMember;
  }

  /** The four forms never collide, and within one form the bytes fix every member its list names. */
  lemma CanonicalInjective(c: Canonical, d: Canonical)
    requires Framable(Fields(c)) && Framable(Fields(d))
    requires Frame(Domain(c), Fields(c)) == Frame(Domain(d), Fields(d))
    ensures Fields(c) == Fields(d)
    ensures c.UploadAuth? == d.UploadAuth? && c.UploadRequest? == d.UploadRequest?
    ensures c.RefreshAuth? == d.RefreshAuth? && c.RefreshRequest? == d.RefreshRequest?
    ensures c.UploadAuth? ==> c == d
    ensures forall name :: name in Names(c) ==> NamedMember(c, name) == NamedMember(d, name)
  {
    FrameInjective(Domain(c), Fields(c), Domain(d), Fields(d));
    DomainLengths(c);
    DomainLengths(d);
    if c.UploadAuth? {
      var f, g := Fields(c), Fields(d);
      assert f[0] == g[0] && f[1] == g[1] && f[2] == g[2] && f[3] == g[3] && f[4] == g[4] && f[5] == g[5]
          && f[6] == g[6];
      assert f[7] == g[7] && f[8] == g[8] && f[9] == g[9] && f[10] == g[10] && f[11] == g[11] && f[12] == g[12];
      assert f[13] == g[13];
    }
    SameNamed(c, d);
  }
}
