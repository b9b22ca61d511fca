/**
  The success body that answers a Connector resource query: its field checks, the
  binding of CRID to key, and the size of its canonical encoding.
 */
module ResourceResult {
  import opened BitStream
  import opened GoStrings
  import opened Hexadecimal
  import opened Wrappers
  import opened Utf8
  import Base32
  import Base64
  import Crid

  datatype SuccessList = SuccessList(
    query: text, version: int, agentId: text, connectorId: text, resourcePublicKey: text,
    routingId: text, knockId: text, crid: text, foundExisting: bool)

  datatype Request = Request(devId: text, connectorId: text, expectedCrid: Option<text>)

  datatype Class = Accepted | Semantic | RequestBinding | ResourceBinding | CridBinding

  /** SHA-256, and whether octets are the canonical DER of a P-256 public key. */
  datatype Crypto = Crypto(sha256: Crid.Hash, isKey: seq<byte> -> bool)

  const QUERY: text := "connector_resource"
  const KEY_OCTETS := 91
  const KEY_CHARS := 122
  const ROUTING_CHARS := 54
  const KNOCK_MAX := 64
  const MAX_BODY := 952
  const BODY_CAP := 976

  // ----- field grammars

  predicate LowerOrDigit(c: char) {
    'a' <= c <= 'z' || '0' <= c <= '9'
  }

  predicate AgentId(s: text) {
    2 <= |s| <= 64 && LowerOrDigit(s[0]) && LowerOrDigit(s[|s| - 1])
    && forall i :: 0 <= i < |s| ==> LowerOrDigit(s[i]) || s[i] == '-'
  }

  predicate ConnectorId(s: text) {
    3 <= |s| <= 64 && 'a' <= s[0] <= 'z' && LowerOrDigit(s[|s| - 1])
    && forall i :: 0 <= i < |s| ==> LowerOrDigit(s[i]) || s[i] == '-'
  }

  predicate ResourcePublicKey(crypto: Crypto, s: text) {
    |s| == KEY_CHARS
    && var der := Base64.StrictDecode(Base64.Url, s);
       der.Some? && |der.value| == KEY_OCTETS && crypto.isKey(der.value)
  }

  function Lower(c: char): char {
    if 'A' <= c <= 'Z' then c + ('a' - 'A') else c
  }

  function LowerText(s: string): (t: string)
    ensures |t| == |s|
  {
    seq(|s|, i requires 0 <= i < |s| => Lower(s[i]))
  }

  /** The decoder is given upper case and drops line breaks; the comparison is with lower case. */
  predicate RoutingId(s: text) {
    |s| == ROUTING_CHARS && s[0] == 'c' && s[1] == '-'
    && var payload := LowerText(Base64.DropLineBreaks(s[2..]));
       Base32.IsText(payload) && |Base32.Decode(payload)| == 32 && Base32.Encode(Base32.Decode(payload)) == s[2..]
  }

  predicate IsControl(r: nat) {
    r < 0x20 || 0x7F <= r < 0xA0
  }

  predicate KnockId(s: text) {
    s != "" && |s| <= KNOCK_MAX && Valid(OctetsOf(s))
    && var runes := CodePoints(OctetsOf(s));
       (runes != [] ==> !IsSpace(runes[0]) && !IsSpace(runes[|runes| - 1]))
       && forall i :: 0 <= i < |runes| ==> !IsControl(runes[i])
  }

  function Classify(crypto: Crypto, list: SuccessList, request: Option<Request>): Class
    requires forall m :: |crypto.sha256(m)| == 32
  {
    if list.query != QUERY || list.version != 1 then Semantic
    else if request.Some?
            && (list.agentId != request.value.devId || list.connectorId != request.value.connectorId)
    then RequestBinding
    else if !AgentId(list.agentId) || !ConnectorId(list.connectorId)
            || !ResourcePublicKey(crypto, list.resourcePublicKey)
            || !RoutingId(list.routingId) || !KnockId(list.knockId) then Semantic
    else if list.resourcePublicKey == list.knockId || list.routingId == list.knockId then ResourceBinding
    else
      match Crid.KeyMatchExpectation(crypto.sha256, list.crid, Base64.GoDecode(Base64.Url, list.resourcePublicKey))
      case Unusable => Semantic
      case Mismatch => CridBinding
      case Match =>
        if request.Some? && request.value.expectedCrid.Some?
            && list.crid != request.value.expectedCrid.value then ResourceBinding
        else Accepted
  }

  // ----- the canonical encoding

  function HexOctet(v: nat): byte
    requires v < 16
  {
    HexChar(v) as int
  }

  function UEscape(r: nat): (s: seq<byte>)
    requires r < 0x1_0000
    ensures |s| == 6
  {
    [92, 117, HexOctet(r / 0x1000), HexOctet(r / 0x100 % 16), HexOctet(r / 0x10 % 16), HexOctet(r % 16)]
  }

  /** encoding/json with HTML escaping, for one character. */
  function EscapedRune(rune: seq<byte>): (s: seq<byte>)
    requires RuneLength(rune) == |rune| > 0
    ensures |s| <= 6 * |rune|
  {
    var r := CodePoint(rune);
    if r == 34 || r == 92 then [92, r]
    else if r == 9 then [92, 116]
    else if r == 10 then [92, 110]
    else if r == 13 then [92, 114]
    else if r < 0x20 || r == 0x3C || r == 0x3E || r == 0x26 || r == 0x2028 || r == 0x2029 then UEscape(r)
    else rune
  }

  lemma RuneAlone(s: seq<byte>)
    requires RuneLength(s) > 0
    ensures RuneLength(s[..RuneLength(s)]) == RuneLength(s)
  {
    RuneOfPrefix(s, RuneLength(s));
  }

  function Escaped(s: seq<byte>): (e: seq<byte>)
    requires Valid(s)
    ensures |e| <= 6 * |s|
  {
    if s == [] then []
    else
      var n := RuneLength(s);
      RuneAlone(s);
      EscapedRune(s[..n]) + Escaped(s[n..])
  }

  function Quoted(s: text): seq<byte>
    requires Valid(OctetsOf(s))
  {
    [34] + Escaped(OctetsOf(s)) + [34]
  }

  ghost predicate AllValid(list: SuccessList) {
    Valid(OctetsOf(list.query)) && Valid(OctetsOf(list.agentId)) && Valid(OctetsOf(list.connectorId))
    && Valid(OctetsOf(list.resourcePublicKey)) && Valid(OctetsOf(list.routingId)) && Valid(OctetsOf(list.knockId))
    && Valid(OctetsOf(list.crid))
  }

  const ERR_CODE: text := "errCode"
  const LIST: text := "list"
  const QUERY_NAME: text := "query"
  const VERSION: text := "version"
  const AGENT_ID: text := "agent_id"
  const CONNECTOR_ID: text := "connector_id"
  const RESOURCE_PUBLIC_KEY: text := "resource_public_key"
  const ROUTING_ID: text := "connector_routing_id"
  const KNOCK_ID: text := "knock_resource_id"
  const CRID: text := "crid"
  const FOUND_EXISTING: text := "found_existing"

  /** A quoted member name and its colon. */
  function Label(name: text): (s: seq<byte>)
    ensures |s| == |name| + 3
  {
    [34] + OctetsOf(name) + [34, 58]
  }

  const COMMA: seq<byte> := [44]
  const OPEN: seq<byte> := [123]
  const CLOSE: seq<byte> := [125]

  function BoolText(b: bool): (s: seq<byte>)
    ensures |s| == if b then 4 else 5
  {
    if b then Ascii("true") else Ascii("false")
  }

  function Head(): (s: seq<byte>)
    ensures |s| == 23
  {
    OPEN + Label(ERR_CODE) + [34, 48, 34] + COMMA + Label(LIST) + OPEN
  }

  /** The members of the body in order; the version is the single digit 1. */
  function Marshal(list: SuccessList): seq<byte>
    requires AllValid(list) && list.version == 1
  {
    Head() + Label(QUERY_NAME) + Quoted(list.query)
    + COMMA + Label(VERSION) + [49]
    + COMMA + Label(AGENT_ID) + Quoted(list.agentId)
    + COMMA + Label(CONNECTOR_ID) + Quoted(list.connectorId)
    + COMMA + Label(RESOURCE_PUBLIC_KEY) + Quoted(list.resourcePublicKey)
    + COMMA + Label(ROUTING_ID) + Quoted(list.routingId)
    + COMMA + Label(KNOCK_ID) + Quoted(list.knockId)
    + COMMA + Label(CRID) + Quoted(list.crid)
    + COMMA + Label(FOUND_EXISTING) + BoolText(list.foundExisting) + CLOSE + CLOSE
  }

  // ----- sizes

  /** Characters that are octets of their own and are never escaped. */
  ghost predicate Plain(s: text) {
    forall i :: 0 <= i < |s| ==> LowerOrDigit(s[i]) || 'A' <= s[i] <= 'Z' || s[i] == '-' || s[i] == '_'
  }

  lemma {:induction false} PlainIsItself(s: text)
    requires Plain(s)
    ensures Valid(OctetsOf(s)) && Escaped(OctetsOf(s)) == OctetsOf(s)
  {
    var o := OctetsOf(s);
    if s != "" {
      PlainIsItself(s[1..]);
      assert o[1..] == OctetsOf(s[1..]);
      assert RuneLength(o) == 1 && CodePoint(o[..1]) == o[0] as int;
      assert o == o[..1] + o[1..];
    }
  }

  lemma KeyIsPlain(crypto: Crypto, s: text)
    requires ResourcePublicKey(crypto, s)
    ensures Plain(s)
  {
    var der := Base64.StrictDecode(Base64.Url, s).value;
    Base64.StrictDecodeExact(Base64.Url, s, der);
    hide Base64.StrictDecode, Base64.Encode;
    assert Base64.IsText(Base64.Url, s);
  }

  lemma RoutingIsPlain(s: text)
    requires RoutingId(s)
    ensures Plain(s)
  {
    hide Base32.Decode, Base32.Encode, Base64.DropLineBreaks, LowerText;
    assert Base32.IsText(s[2..]);
    forall i | 2 <= i < |s| ensures LowerOrDigit(s[i]) {
      assert Base32.InAlphabet(s[2..][i - 2]);
    }
  }

  lemma CridIsPlain(s: text)
    requires Crid.Gate(s) == Crid.Accept
    ensures Plain(s) && |s| <= Crid.FULL_CRID
  {
    hide Base32.Decode, Base32.Encode, Crid.ChecksumHolds;
    forall i | 0 <= i < |s| ensures LowerOrDigit(s[i]) {
      assert Base32.InAlphabet(s[i]);
    }
  }

  lemma AcceptedIsPlain(crypto: Crypto, list: SuccessList, request: Option<Request>)
    requires forall m :: |crypto.sha256(m)| == 32
    requires Classify(crypto, list, request) == Accepted
    ensures Plain(list.query) && Plain(list.agentId) && Plain(list.connectorId)
    ensures Plain(list.resourcePublicKey) && Plain(list.routingId) && Plain(list.crid)
    ensures |list.crid| <= Crid.FULL_CRID && Valid(OctetsOf(list.knockId))
  {
    hide Base32.Decode, Base32.Encode, Base64.GoDecode, Crid.Gate, ResourcePublicKey, RoutingId, CodePoints, Valid;
    KeyIsPlain(crypto, list.resourcePublicKey);
    RoutingIsPlain(list.routingId);
    CridIsPlain(list.crid);
    QueryIsPlain();
  }

  lemma QueryIsPlain()
    ensures Plain(QUERY)
  {
  }

  lemma QuotedPlain(s: text)
    requires Plain(s)
    ensures Valid(OctetsOf(s)) && |Quoted(s)| == |s| + 2
  {
    PlainIsItself(s);
  }

  lemma MarshalLength(list: SuccessList)
    requires AllValid(list) && list.version == 1
    ensures |Marshal(list)| == 167 + |Quoted(list.query)| + |Quoted(list.agentId)| + |Quoted(list.connectorId)|
                               + |Quoted(list.resourcePublicKey)| + |Quoted(list.routingId)| + |Quoted(list.knockId)|
                               + |Quoted(list.crid)| + if list.foundExisting then 4 else 5
  {
    hide Quoted, Head, Label, AllValid, BoolText;
  }

  /** The size of the canonical body of an accepted result, and its bound. */
  lemma AcceptedSize(crypto: Crypto, list: SuccessList, request: Option<Request>)
    requires forall m :: |crypto.sha256(m)| == 32
    requires Classify(crypto, list, request) == Accepted
    ensures AllValid(list)
    ensures |Marshal(list)| <= MAX_BODY < BODY_CAP
    ensures |Marshal(list)| == MAX_BODY
            <==> |list.agentId| == 64 && |list.connectorId| == 64 && |list.crid| == 60 && !list.foundExisting
                 && |Escaped(OctetsOf(list.knockId))| == 6 * KNOCK_MAX
  {
    hide Marshal, Classify, Plain, Escaped, Valid;
    AcceptedIsPlain(crypto, list, request);
    QuotedPlain(list.query);
    QuotedPlain(list.agentId);
    QuotedPlain(list.connectorId);
    QuotedPlain(list.resourcePublicKey);
    QuotedPlain(list.routingId);
    QuotedPlain(list.crid);
    AcceptedLengths(crypto, list, request);
    MarshalLength(list);
  }

  lemma AcceptedLengths(crypto: Crypto, list: SuccessList, request: Option<Request>)
    requires forall m :: |crypto.sha256(m)| == 32
    requires Classify(crypto, list, request) == Accepted
    ensures list.query == QUERY && list.version == 1 && |list.agentId| <= 64 && |list.connectorId| <= 64
    ensures |list.resourcePublicKey| == KEY_CHARS && |list.routingId| == ROUTING_CHARS && |list.knockId| <= KNOCK_MAX
  {
    hide Base32.Decode, Base32.Encode, Base64.GoDecode, Base64.StrictDecode, Crid.Gate, CodePoints, Valid;
  }

  // ----- the bound is attained

  function Brackets(k: nat): text {
    seq(k, i requires 0 <= i < k => '<')
  }

  lemma {:induction false} EscapedBrackets(k: nat)
    ensures Valid(OctetsOf(Brackets(k))) && |Escaped(OctetsOf(Brackets(k)))| == 6 * k
    ensures |CodePoints(OctetsOf(Brackets(k)))| == k
            && forall i :: 0 <= i < k ==> CodePoints(OctetsOf(Brackets(k)))[i] == 0x3C
  {
    hide *;
    BracketOctets(k);
    if k == 0 {
      NothingEscaped();
    } else {
      EscapedBrackets(k - 1);
      BracketFirst(OctetsOf(Brackets(k)));
    }
  }

  lemma NothingEscaped()
    ensures Valid([]) && Escaped([]) == [] && CodePoints([]) == []
  {
  }

  lemma BracketOctets(k: nat)
    ensures var o := OctetsOf(Brackets(k));
            |o| == k && (k > 0 ==> o[0] == 0x3C && o[1..] == OctetsOf(Brackets(k - 1)))
  {
    if k > 0 {
      assert OctetsOf(Brackets(k))[1..] == OctetsOf(Brackets(k - 1));
    }
  }

  lemma BracketFirst(o: seq<byte>)
    requires o != [] && o[0] == 0x3C
    ensures Valid(o) <==> Valid(o[1..])
    ensures Valid(o) ==> |Escaped(o)| == 6 + |Escaped(o[1..])| && CodePoints(o) == [0x3C] + CodePoints(o[1..])
  {
    assert RuneLength(o) == 1 && CodePoint(o) == 0x3C && CodePoint(o[..1]) == 0x3C;
  }

  lemma BracketsKnock()
    ensures KnockId(Brackets(KNOCK_MAX)) && |Brackets(KNOCK_MAX)| == 64
  {
    hide Valid, CodePoints, OctetsOf;
    EscapedBrackets(KNOCK_MAX);
    assert Brackets(KNOCK_MAX)[0] == '<';
  }

  function Letters(k: nat): text {
    seq(k, i requires 0 <= i < k => 'a')
  }

  function KeyText(der: seq<byte>): text {
    var t := Base64.Encode(Base64.Url, der);
    assert forall i :: 0 <= i < |t| ==> Base64.InAlphabet(Base64.Url, t[i]);
    t
  }

  function ZeroRouting(): text {
    var t := Base32.Encode(seq(32, _ => 0));
    assert forall i :: 0 <= i < |t| ==> Base32.InAlphabet(t[i]);
    "c-" + t
  }

  function CridText(version: byte, digest: seq<byte>): text {
    var t := Crid.CridOf(version, digest);
    assert forall i :: 0 <= i < |t| ==> Base32.InAlphabet(t[i]);
    t
  }

  /** A result for this key in which every field is as wide as it can be. */
  function Widest(crypto: Crypto, der: seq<byte>): SuccessList {
    SuccessList(QUERY, 1, Letters(64), Letters(64), KeyText(der), ZeroRouting(), Brackets(KNOCK_MAX),
                CridText(1, crypto.sha256(Crid.KeyMessage(der))), false)
  }

  /** The request, if one is known, names these identities and expects this CRID or none. */
  predicate Echoed(request: Option<Request>, list: SuccessList) {
    request.None?
    || (list.agentId == request.value.devId && list.connectorId == request.value.connectorId
        && (request.value.expectedCrid.None? || request.value.expectedCrid.value == list.crid))
  }

  lemma IdentitiesOk()
    ensures AgentId(Letters(64)) && ConnectorId(Letters(64)) && |Letters(64)| == 64
  {
  }

  lemma KeyTextOk(crypto: Crypto, der: seq<byte>)
    requires |der| == KEY_OCTETS && crypto.isKey(der)
    ensures ResourcePublicKey(crypto, KeyText(der)) && |KeyText(der)| == KEY_CHARS
    ensures Base64.GoDecode(Base64.Url, KeyText(der)) == Some(der)
  {
    Base64.StrictDecodeExact(Base64.Url, KeyText(der), der);
    Base64.GoDecodeEncode(Base64.Url, der);
    hide Base64.StrictDecode, Base64.GoDecode, Base64.Encode;
  }

  lemma {:induction false} LowerKept(t: string)
    requires Base32.IsText(t)
    ensures LowerText(t) == t && Base64.DropLineBreaks(t) == t
  {
    hide Base64.DropLineBreaks;
    assert forall i :: 0 <= i < |t| ==> Base32.InAlphabet(t[i]);
  }

  lemma ZeroRoutingOk()
    ensures RoutingId(ZeroRouting()) && |ZeroRouting()| == ROUTING_CHARS
  {
    var zeros: seq<byte> := seq(32, _ => 0);
    var t := Base32.Encode(zeros);
    LowerKept(t);
    Base32.DecodeEncode(zeros);
    assert |t| == 52;
    hide Base32.Encode, Base32.Decode, LowerText, Base64.DropLineBreaks;
    assert ZeroRouting() == "c-" + t;
    assert ZeroRouting()[2..] == t;
  }

  lemma CridTextMatches(crypto: Crypto, der: seq<byte>)
    requires forall m :: |crypto.sha256(m)| == 32
    ensures var crid := CridText(1, crypto.sha256(Crid.KeyMessage(der)));
            |crid| == 60 && Crid.KeyMatchExpectation(crypto.sha256, crid, Some(der)) == Crid.Match
  {
    var digest := crypto.sha256(Crid.KeyMessage(der));
    FullLength(digest);
    hide *;
    Crid.KeyMatchExact(crypto.sha256, 1, digest, der);
    CridTextIs(1, digest);
  }

  lemma CridTextIs(version: byte, digest: seq<byte>)
    ensures CridText(version, digest) == Crid.CridOf(version, digest)
  {
    hide Crid.CridOf;
  }

  lemma FullLength(digest: seq<byte>)
    requires |digest| == 32
    ensures Crid.IsDigest(digest) && |CridText(1, digest)| == 60
  {
    hide Base32.Encode;
  }

  lemma WidestAccepted(crypto: Crypto, der: seq<byte>, request: Option<Request>)
    requires forall m :: |crypto.sha256(m)| == 32
    requires |der| == KEY_OCTETS && crypto.isKey(der) && Echoed(request, Widest(crypto, der))
    ensures Classify(crypto, Widest(crypto, der), request) == Accepted
  {
    hide KnockId, Brackets, Letters, KeyText, ZeroRouting, CridText, Base64.GoDecode, Crid.KeyMatchExpectation,
         RoutingId, ResourcePublicKey, AgentId, ConnectorId;
    IdentitiesOk();
    KeyTextOk(crypto, der);
    ZeroRoutingOk();
    BracketsKnock();
    CridTextMatches(crypto, der);
  }

  /**
    The bound is attained under every key: its widest result is accepted, whether no
    request is known or one that it echoes, and encodes in exactly 952 octets.
   */
  lemma BoundAttained(crypto: Crypto, der: seq<byte>, request: Option<Request>)
    requires forall m :: |crypto.sha256(m)| == 32
    requires |der| == KEY_OCTETS && crypto.isKey(der) && Echoed(request, Widest(crypto, der))
    ensures Classify(crypto, Widest(crypto, der), request) == Accepted
    ensures AllValid(Widest(crypto, der)) && |Marshal(Widest(crypto, der))| == MAX_BODY
  {
    hide Classify, Brackets, Letters, KeyText, ZeroRouting, CridText, Marshal, Escaped, Valid, OctetsOf, Echoed;
    IdentitiesOk();
    CridTextMatches(crypto, der);
    EscapedBrackets(KNOCK_MAX);
    WidestAccepted(crypto, der, request);
    AcceptedSize(crypto, Widest(crypto, der), request);
  }

  // ----- what acceptance binds

  /** Two accepted results with one CRID deliver one key, or two keys whose digests agree on 192 bits. */
  lemma CridBindsKey(crypto: Crypto, l: SuccessList, m: SuccessList, request: Option<Request>, other: Option<Request>)
    requires forall m :: |crypto.sha256(m)| == 32
    requires Classify(crypto, l, request) == Accepted && Classify(crypto, m, other) == Accepted && l.crid == m.crid
    ensures l.resourcePublicKey == m.resourcePublicKey
            || exists p, q :: p != q && l.resourcePublicKey == Base64.Encode(Base64.Url, p)
                              && m.resourcePublicKey == Base64.Encode(Base64.Url, q)
                              && crypto.sha256(Crid.KeyMessage(p))[..24] == crypto.sha256(Crid.KeyMessage(q))[..24]
  {
    var p := AcceptedKey(crypto, l, request);
    var q := AcceptedKey(crypto, m, other);
    hide *;
    var version, digest := Crid.AcceptedIsDerived(l.crid);
    MatchingDigest(crypto, version, digest, p);
    MatchingDigest(crypto, version, digest, q);
  }

  lemma AcceptedKey(crypto: Crypto, l: SuccessList, request: Option<Request>) returns (der: seq<byte>)
    requires forall m :: |crypto.sha256(m)| == 32
    requires Classify(crypto, l, request) == Accepted
    ensures l.resourcePublicKey == Base64.Encode(Base64.Url, der) && Crid.Gate(l.crid) == Crid.Accept
    ensures Crid.KeyMatchExpectation(crypto.sha256, l.crid, Some(der)) == Crid.Match
  {
    hide Base64.GoDecode, Base64.Encode, Crid.KeyMatchExpectation, RoutingId, KnockId, ResourcePublicKey, AgentId,
         ConnectorId;
    der := KeyDer(crypto, l.resourcePublicKey);
    MatchNeedsGate(crypto, l.crid, Some(der));
  }

  lemma KeyDer(crypto: Crypto, s: text) returns (der: seq<byte>)
    requires ResourcePublicKey(crypto, s)
    ensures s == Base64.Encode(Base64.Url, der) && Base64.GoDecode(Base64.Url, s) == Some(der)
  {
    hide Base64.GoDecode, Base64.Encode;
    der := Base64.StrictDecode(Base64.Url, s).value;
  }

  lemma MatchNeedsGate(crypto: Crypto, crid: text, der: Option<seq<byte>>)
    requires forall m :: |crypto.sha256(m)| == 32
    requires Crid.KeyMatchExpectation(crypto.sha256, crid, der) == Crid.Match
    ensures Crid.Gate(crid) == Crid.Accept
  {
    hide Crid.Gate, Base32.Decode, Base32.Encode;
  }

  lemma MatchingDigest(crypto: Crypto, version: byte, digest: seq<byte>, der: seq<byte>)
    requires forall m :: |crypto.sha256(m)| == 32
    requires 0 < version && Crid.IsDigest(digest)
    requires Crid.KeyMatchExpectation(crypto.sha256, Crid.CridOf(version, digest), Some(der)) == Crid.Match
    ensures digest[..24] == crypto.sha256(Crid.KeyMessage(der))[..24]
  {
    hide *;
    Crid.KeyMatchExact(crypto.sha256, version, digest, der);
    DigestLength(digest);
    SharedPrefix(digest, crypto.sha256(Crid.KeyMessage(der)));
  }

  lemma DigestLength(digest: seq<byte>)
    requires Crid.IsDigest(digest)
    ensures |digest| >= 24
  {
  }

  lemma SharedPrefix(head: seq<byte>, full: seq<byte>)
    requires head <= full && |head| >= 24
    ensures head[..24] == full[..24]
  {
  }

  // ----- what is accepted

  predicate IdentityCharacters(s: string) {
    forall i :: 0 <= i < |s| ==> s[i] in "abcdefghijklmnopqrstuvwxyz0123456789-"
  }

  lemma IdentityCharacter(c: char)
    ensures LowerOrDigit(c) || c == '-' <==> c in "abcdefghijklmnopqrstuvwxyz0123456789-"
    ensures 'a' <= c <= 'z' <==> c in "abcdefghijklmnopqrstuvwxyz"
  {
  }

  /** The two published patterns: a first and a last character, and up to 62 or 1 to 62 between them. */
  lemma IdentityExact(s: text)
    ensures AgentId(s) <==> 2 <= |s| && |s| - 2 <= 62 && s[0] != '-' && s[|s| - 1] != '-' && IdentityCharacters(s)
    ensures ConnectorId(s) <==> 1 <= |s| - 2 <= 62 && s[0] in "abcdefghijklmnopqrstuvwxyz" && s[|s| - 1] != '-'
                                && IdentityCharacters(s)
  {
    forall c: char ensures LowerOrDigit(c) || c == '-' <==> c in "abcdefghijklmnopqrstuvwxyz0123456789-" {
      IdentityCharacter(c);
    }
    forall c: char ensures 'a' <= c <= 'z' <==> c in "abcdefghijklmnopqrstuvwxyz" {
      IdentityCharacter(c);
    }
    assert !LowerOrDigit('-');
    hide LowerOrDigit;
  }

  /** "c-" and the unpadded base32 of 32 octets, in one spelling. */
  lemma RoutingIdExact(s: text)
    ensures RoutingId(s) <==> exists o: seq<byte> :: |o| == 32 && s == "c-" + Base32.Encode(o)
  {
    if RoutingId(s) {
      var o := Base32.Decode(LowerText(Base64.DropLineBreaks(s[2..])));
      hide RoutingId, Base32.Decode, Base32.Encode, Base64.DropLineBreaks, LowerText;
      RoutingSpelling(s);
    }
    forall o: seq<byte> | |o| == 32 && s == "c-" + Base32.Encode(o) ensures RoutingId(s) {
      EncodedRouting(s, o);
    }
  }

  lemma RoutingSpelling(s: text)
    requires RoutingId(s)
    ensures exists o: seq<byte> :: |o| == 32 && s == "c-" + Base32.Encode(o)
  {
    hide Base32.Decode, Base32.Encode, Base64.DropLineBreaks, LowerText;
    var o := Base32.Decode(LowerText(Base64.DropLineBreaks(s[2..])));
    assert s == "c-" + s[2..];
  }

  lemma EncodedRouting(s: text, o: seq<byte>)
    requires |o| == 32 && s == "c-" + Base32.Encode(o)
    ensures RoutingId(s)
  {
    var payload := Base32.Encode(o);
    assert s[2..] == payload;
    Base32Untouched(payload);
    Base32.DecodeEncode(o);
    hide Base32.Decode, Base32.Encode, Base64.DropLineBreaks, LowerText;
  }

  lemma Base32Untouched(t: string)
    requires Base32.IsText(t)
    ensures Base64.DropLineBreaks(t) == t && LowerText(t) == t
  {
    forall i | 0 <= i < |t| ensures t[i] != '\r' && t[i] != '\n' && Lower(t[i]) == t[i] {
      assert Base32.InAlphabet(t[i]);
    }
    hide Base64.DropLineBreaks;
  }

  /** The resource's key, under its own name and under its CRID. */
  ghost predicate IsKeyOf(crypto: Crypto, list: SuccessList, der: seq<byte>)
    requires forall m :: |crypto.sha256(m)| == 32
  {
    && |der| == 91 && crypto.isKey(der) && list.resourcePublicKey == Base64.Encode(Base64.Url, der)
    && exists version: byte, digest ::
         0 < version && Crid.IsDigest(digest) && list.crid == Crid.CridOf(version, digest)
         && digest <= crypto.sha256(Crid.KeyMessage(der))
  }

  lemma KeyExact(crypto: Crypto, s: text, der: seq<byte>)
    ensures ResourcePublicKey(crypto, s) && Base64.GoDecode(Base64.Url, s) == Some(der)
            <==> |der| == 91 && crypto.isKey(der) && s == Base64.Encode(Base64.Url, der)
  {
    Base64.StrictDecodeExact(Base64.Url, s, der);
    hide Base64.GoDecode, Base64.Encode;
  }

  lemma CridExact(crypto: Crypto, crid: text, der: seq<byte>)
    requires forall m :: |crypto.sha256(m)| == 32
    ensures Crid.KeyMatchExpectation(crypto.sha256, crid, Some(der)) == Crid.Match
            <==> exists version: byte, digest ::
                   0 < version && Crid.IsDigest(digest) && crid == Crid.CridOf(version, digest)
                   && digest <= crypto.sha256(Crid.KeyMessage(der))
  {
    hide Crid.KeyMatchExpectation, Crid.CridOf, Crid.Gate, Crid.KeyMessage;
    if Crid.KeyMatchExpectation(crypto.sha256, crid, Some(der)) == Crid.Match {
      MatchNeedsGate(crypto, crid, Some(der));
      var version, digest := Crid.AcceptedIsDerived(crid);
      Crid.KeyMatchExact(crypto.sha256, version, digest, der);
    }
    forall version: byte, digest | 0 < version && Crid.IsDigest(digest) && crid == Crid.CridOf(version, digest)
                                   && digest <= crypto.sha256(Crid.KeyMessage(der))
      ensures Crid.KeyMatchExpectation(crypto.sha256, crid, Some(der)) == Crid.Match
    {
      Crid.KeyMatchExact(crypto.sha256, version, digest, der);
    }
  }

  ghost predicate HasRouting(list: SuccessList) {
    exists o: seq<byte> :: |o| == 32 && list.routingId == "c-" + Base32.Encode(o)
  }

  ghost predicate CridNamesKey(crypto: Crypto, list: SuccessList)
    requires forall m :: |crypto.sha256(m)| == 32
  {
    exists der :: IsKeyOf(crypto, list, der)
  }

  /**
    Accepted are exactly the version 1 results that answer the request, deliver a
    key that their CRID names, and give it a routing and a knock identity of its own.
   */
  lemma AcceptedExact(crypto: Crypto, list: SuccessList, request: Option<Request>)
    requires forall m :: |crypto.sha256(m)| == 32
    ensures Classify(crypto, list, request) == Accepted
            <==> && list.query == "connector_resource" && list.version == 1 && Echoed(request, list)
                 && AgentId(list.agentId) && ConnectorId(list.connectorId) && KnockId(list.knockId)
                 && HasRouting(list) && CridNamesKey(crypto, list)
                 && list.knockId != list.resourcePublicKey && list.knockId != list.routingId
  {
    hide Base64.GoDecode, RoutingId, KnockId, AgentId, ConnectorId, ResourcePublicKey, Crid.KeyMatchExpectation,
         HasRouting, CridNamesKey;
    RoutingNamed(list);
    KeyNamed(crypto, list);
  }

  lemma KeyNamed(crypto: Crypto, list: SuccessList)
    requires forall m :: |crypto.sha256(m)| == 32
    ensures CridNamesKey(crypto, list)
            <==> && ResourcePublicKey(crypto, list.resourcePublicKey)
                 && Crid.KeyMatchExpectation(crypto.sha256, list.crid,
                                             Base64.GoDecode(Base64.Url, list.resourcePublicKey)) == Crid.Match
  {
    hide Base64.GoDecode, Base64.Encode, ResourcePublicKey, Crid.KeyMatchExpectation, Crid.CridOf, Crid.KeyMessage;
    if ResourcePublicKey(crypto, list.resourcePublicKey) {
      var der := KeyDer(crypto, list.resourcePublicKey);
      KeyExact(crypto, list.resourcePublicKey, der);
      CridExact(crypto, list.crid, der);
      assert Crid.KeyMatchExpectation(crypto.sha256, list.crid, Some(der)) == Crid.Match <==>
             IsKeyOf(crypto, list, der);
    }
    forall der | IsKeyOf(crypto, list, der)
      ensures ResourcePublicKey(crypto, list.resourcePublicKey)
      ensures Crid.KeyMatchExpectation(crypto.sha256, list.crid,
                                       Base64.GoDecode(Base64.Url, list.resourcePublicKey)) == Crid.Match
    {
      KeyExact(crypto, list.resourcePublicKey, der);
      CridExact(crypto, list.crid, der);
    }
  }

  ghost predicate HasKey(crypto: Crypto, list: SuccessList) {
    exists der :: |der| == 91 && crypto.isKey(der) && list.resourcePublicKey == Base64.Encode(Base64.Url, der)
  }

  ghost predicate HasCrid(list: SuccessList) {
    exists version: byte, digest :: 0 < version && Crid.IsDigest(digest) && list.crid == Crid.CridOf(version, digest)
  }

  /** The class of every result, in the order in which the classes win. */
  lemma ClassExact(crypto: Crypto, list: SuccessList, request: Option<Request>)
    requires forall m :: |crypto.sha256(m)| == 32
    ensures Classify(crypto, list, request)
            == if list.query != "connector_resource" || list.version != 1 then Semantic
               else if request.Some?
                       && (list.agentId != request.value.devId || list.connectorId != request.value.connectorId) then
                 RequestBinding
               else if !AgentId(list.agentId) || !ConnectorId(list.connectorId) || !KnockId(list.knockId)
                       || !HasKey(crypto, list) || !HasRouting(list) then Semantic
               else if list.knockId == list.resourcePublicKey || list.knockId == list.routingId then ResourceBinding
               else if !HasCrid(list) then Semantic
               else if !CridNamesKey(crypto, list) then CridBinding
               else if request.Some? && request.value.expectedCrid != None
                       && request.value.expectedCrid != Some(list.crid) then ResourceBinding
               else Accepted
  {
    hide Base64.GoDecode, RoutingId, KnockId, AgentId, ConnectorId, ResourcePublicKey, Crid.KeyMatchExpectation, HasKey,
         HasCrid, HasRouting, CridNamesKey;
    HasKeyExact(crypto, list);
    RoutingNamed(list);
    KeyNamed(crypto, list);
    if ResourcePublicKey(crypto, list.resourcePublicKey) {
      UsableExact(crypto, list);
    }
  }

  lemma RoutingNamed(list: SuccessList)
    ensures RoutingId(list.routingId) <==> HasRouting(list)
  {
    hide RoutingId, Base32.Encode;
    RoutingIdExact(list.routingId);
  }

  lemma HasKeyExact(crypto: Crypto, list: SuccessList)
    ensures ResourcePublicKey(crypto, list.resourcePublicKey) <==> HasKey(crypto, list)
  {
    hide Base64.GoDecode, Base64.Encode, ResourcePublicKey;
    if ResourcePublicKey(crypto, list.resourcePublicKey) {
      var der := KeyDer(crypto, list.resourcePublicKey);
      KeyExact(crypto, list.resourcePublicKey, der);
    }
    forall der | |der| == 91 && crypto.isKey(der) && list.resourcePublicKey == Base64.Encode(Base64.Url, der)
      ensures ResourcePublicKey(crypto, list.resourcePublicKey)
    {
      KeyExact(crypto, list.resourcePublicKey, der);
    }
  }

  lemma UsableExact(crypto: Crypto, list: SuccessList)
    requires forall m :: |crypto.sha256(m)| == 32
    requires ResourcePublicKey(crypto, list.resourcePublicKey)
    ensures var der := Base64.GoDecode(Base64.Url, list.resourcePublicKey);
            HasCrid(list) <==> Crid.KeyMatchExpectation(crypto.sha256, list.crid, der) != Crid.Unusable
  {
    hide Base64.GoDecode, Crid.Gate, Crid.CridOf, Base32.Decode, Base32.Encode;
    Crid.GateExact(list.crid);
  }

  /** Under another CRID the key's digest decides, and nothing else changes. */
  lemma OtherCrid(crypto: Crypto, list: SuccessList, der: seq<byte>, version: byte, digest: seq<byte>)
    requires forall m :: |crypto.sha256(m)| == 32
    requires Classify(crypto, list, None) == Accepted && IsKeyOf(crypto, list, der)
    requires 0 < version && Crid.IsDigest(digest)
    ensures Classify(crypto, list.(crid := CridText(version, digest)), None)
            == if digest <= crypto.sha256(Crid.KeyMessage(der)) then Accepted else CridBinding
  {
    hide Base64.GoDecode, RoutingId, KnockId, AgentId, ConnectorId, ResourcePublicKey, IsKeyOf, CridText,
         Crid.KeyMatchExpectation, Crid.CridOf, Crid.KeyMessage, Crid.IsDigest;
    KeyDecodes(crypto, list, der);
    Crid.KeyMatchExact(crypto.sha256, version, digest, der);
    CridTextIs(version, digest);
  }

  lemma KeyDecodes(crypto: Crypto, list: SuccessList, der: seq<byte>)
    requires forall m :: |crypto.sha256(m)| == 32
    requires IsKeyOf(crypto, list, der)
    ensures Base64.GoDecode(Base64.Url, list.resourcePublicKey) == Some(der)
  {
    KeyExact(crypto, list.resourcePublicKey, der);
    hide Base64.GoDecode, Base64.Encode, ResourcePublicKey;
  }

  /** Which refusal wins: the request's identities before any grammar, the CRID's key before the expected CRID. */
  lemma RefusedFor(crypto: Crypto, list: SuccessList, asked: Request)
    requires forall m :: |crypto.sha256(m)| == 32
    requires list.query == "connector_resource" && list.version == 1
    ensures list.agentId != asked.devId || list.connectorId != asked.connectorId ==>
              Classify(crypto, list, Some(asked)) == RequestBinding
    ensures list.agentId == asked.devId && list.connectorId == asked.connectorId
            && Classify(crypto, list, None) == Accepted ==>
              Classify(crypto, list, Some(asked))
              == if asked.expectedCrid == None || asked.expectedCrid == Some(list.crid) then Accepted
                 else ResourceBinding
  {
    hide Base64.GoDecode, RoutingId, KnockId, AgentId, ConnectorId, ResourcePublicKey, Crid.KeyMatchExpectation;
  }
}
