/**
  One agent session, from KNK through the overload cookie, RKN and its ACK to the
  exact-session exit: the validator of a published flow, and a client that takes
  one message at a time.
 */
module AgentSession {
  import opened BitStream
  import opened GoStrings
  import opened Wrappers
  import Base64
  import Hexadecimal
  import Utf8

  const KNK := 1
  const RKN := 8
  const EXT := 16
  const COOKIE_OCTETS := 32
  const OPEN_TIME := 900

  // ----- cookie bodies

  datatype CookieBody = CookieBody(trxId: nat, cookie: text)
  datatype CookieClass = Canonical | BodyParse | CookieEncoding | CookieLength | CookieCanonical | Counter

  /** `body` is absent if its shape or its strict decoding failed. */
  function ClassifyCookie(body: Option<CookieBody>, requestCounter: nat): CookieClass {
    if body.None? || body.value.cookie == "" then BodyParse
    else
      match Base64.GoDecodePadded(body.value.cookie)
      case None =>
        var unpadded := Base64.GoDecode(Base64.Standard, body.value.cookie);
        if unpadded.Some? && |unpadded.value| == COOKIE_OCTETS then CookieCanonical else CookieEncoding
      case Some(raw) =>
        if |raw| != COOKIE_OCTETS then CookieLength
        else if Base64.EncodePadded(raw) != body.value.cookie then CookieCanonical
        else if body.value.trxId != requestCounter then Counter
        else Canonical
  }

  /** Accepted are the padded spellings of 32 octets, one each, under the counter of the request. */
  lemma CookieExact(trxId: nat, cookie: text, requestCounter: nat, raw: seq<byte>)
    requires |raw| == COOKIE_OCTETS
    ensures ClassifyCookie(Some(CookieBody(trxId, cookie)), requestCounter) == Canonical
            && Base64.GoDecodePadded(cookie) == Some(raw)
            <==> trxId == requestCounter && cookie == Base64.EncodePadded(raw)
  {
    Base64.DecodeEncodePadded(raw);
    assert |Base64.EncodePadded(raw)| == 44;
    hide Base64.GoDecodePadded, Base64.EncodePadded, Base64.GoDecode;
  }

  /** Why a padded spelling is refused: for its length before its counter, and neither for its spelling. */
  lemma CookieRefused(trxId: nat, cookie: text, requestCounter: nat, raw: seq<byte>)
    requires raw != [] && cookie == Base64.EncodePadded(raw)
    ensures ClassifyCookie(Some(CookieBody(trxId, cookie)), requestCounter)
            == if |raw| != 32 then CookieLength else if trxId != requestCounter then Counter else Canonical
  {
    Base64.DecodeEncodePadded(raw);
    NotEmpty(raw);
    hide Base64.GoDecodePadded, Base64.EncodePadded, Base64.GoDecode;
  }

  lemma NotEmpty(raw: seq<byte>)
    requires raw != []
    ensures Base64.EncodePadded(raw) != ""
  {
    assert |Base64.Encode(Base64.Standard, raw)| > 0;
    hide Base64.Encode;
  }

  /** The same octets without padding are told apart as a spelling fault. */
  lemma UnpaddedCookie(body: CookieBody, requestCounter: nat, raw: seq<byte>)
    requires |raw| == COOKIE_OCTETS && body.cookie == Base64.Encode(Base64.Standard, raw)
    ensures ClassifyCookie(Some(body), requestCounter) == CookieCanonical
  {
    var t := Base64.Encode(Base64.Standard, raw);
    assert |t| == 43;
    Base64.DropNothing(t);
    Base64.GoDecodeEncode(Base64.Standard, raw);
    hide Base64.GoDecode, Base64.Encode, Base64.DropLineBreaks;
  }

  // ----- the other bodies

  datatype KnockBody = KnockBody(
    headerType: int, userId: string, deviceId: string, aspId: string, resId: string, runId: string, runAttempt: nat)
  datatype Receipt = Receipt(cellId: string, sessionId: nat, issuedAtMillis: int, runId: string, runAttempt: nat)
  datatype AckBody = AckBody(
    errCode: string, receipt: Receipt, resHost: map<string, string>, openTime: nat, agentAddr: string,
    acTokens: map<string, string>, preActions: map<string, string>)
  datatype ExitBody = ExitBody(headerType: int, aspId: string, receipt: Receipt)
  datatype CloseBody = CloseBody(errCode: string, receipt: Receipt, closeEventId: string, state: string)
  datatype KnockDenial = KnockDenial(errCode: string, errMsg: string, openTime: nat)
  datatype ExitDenial = ExitDenial(errCode: string, errMsg: string)

  predicate Blank(s: string) {
    forall i :: 0 <= i < |s| ==> Utf8.IsSpace(s[i] as nat)
  }

  /** strings.TrimSpace leaves the string as it is. */
  predicate Trimmed(s: string) {
    s == "" || (!Utf8.IsSpace(s[0] as nat) && !Utf8.IsSpace(s[|s| - 1] as nat))
  }

  predicate LowerHex32(s: string) {
    |s| == 32 && forall i :: 0 <= i < |s| ==> '0' <= s[i] <= '9' || 'a' <= s[i] <= 'f'
  }

  function Entry(m: map<string, string>, key: string): string {
    if key in m then m[key] else ""
  }

  predicate KnockDecodes(b: KnockBody) {
    b.userId != "" && b.deviceId != "" && b.resId != "" && b.runAttempt != 0
  }

  predicate ReceiptOk(r: Receipt) {
    r.cellId != "" && Trimmed(r.cellId) && r.sessionId != 0 && r.issuedAtMillis > 0 && LowerHex32(r.runId)
    && r.runAttempt != 0
  }

  predicate AckOk(b: AckBody, resId: string) {
    |b.resHost| == 1 && |b.acTokens| == 1 && |b.preActions| == 1
    && b.errCode == "0" && b.openTime == OPEN_TIME && !Blank(b.agentAddr) && ReceiptOk(b.receipt)
    && !Blank(Entry(b.resHost, resId)) && !Blank(Entry(b.acTokens, resId)) && Entry(b.preActions, resId) == "null"
  }

  predicate CloseOk(b: CloseBody, receipt: Receipt) {
    b.errCode == "0" && b.receipt == receipt && LowerHex32(b.closeEventId)
    && (b.state == "closing" || b.state == "closed")
  }

  predicate KnockDenialOk(b: KnockDenial) {
    b.errCode != "" && b.errCode != "0" && b.errMsg != "" && b.openTime == 0
  }

  predicate ExitDenialOk(b: ExitDenial) {
    b.errCode != "" && b.errCode != "0" && b.errMsg != ""
  }

  // ----- the published flow and its validator

  /** A counter and the body, if it is canonical JSON of its shape. */
  datatype Packet<T> = Packet(counter: nat, body: Option<T>)

  datatype Flow = Flow(
    knock: Packet<KnockBody>, cookieReply: Option<CookieBody>, cookieB64: text, cookieHex: string,
    reknock: Packet<KnockBody>, ack: Packet<AckBody>, exit: Packet<ExitBody>, closeAck: Packet<CloseBody>,
    knockDenial: Packet<KnockDenial>, exitDenial: Packet<ExitDenial>)

  predicate SameKnock(a: KnockBody, b: KnockBody) {
    a.(headerType := 0) == b.(headerType := 0)
  }

  predicate CookieSpelt(f: Flow) {
    var raw := Base64.GoDecodePadded(f.cookieB64);
    raw.Some? && |raw.value| == COOKIE_OCTETS && Base64.EncodePadded(raw.value) == f.cookieB64
    && Hexadecimal.Encode(raw.value) == f.cookieHex
  }

  predicate KnocksBound(f: Flow) {
    f.knock.body.Some? && f.reknock.body.Some?
    && var (knock, rkn) := (f.knock.body.value, f.reknock.body.value);
       KnockDecodes(knock) && KnockDecodes(rkn) && knock.headerType == KNK && rkn.headerType == RKN
       && SameKnock(knock, rkn) && LowerHex32(knock.runId) && knock.aspId == "agent"
  }

  predicate ReceiptsBound(f: Flow)
    requires f.knock.body.Some?
  {
    f.ack.body.Some? && f.exit.body.Some? && f.closeAck.body.Some?
    && var receipt := f.ack.body.value.receipt;
       AckOk(f.ack.body.value, f.knock.body.value.resId)
       && receipt.runId == f.knock.body.value.runId && receipt.runAttempt == f.knock.body.value.runAttempt
       && ReceiptOk(f.exit.body.value.receipt) && f.exit.body.value == ExitBody(EXT, "agent", receipt)
       && CloseOk(f.closeAck.body.value, receipt)
  }

  predicate CountersBound(f: Flow) {
    f.ack.counter == f.reknock.counter && f.closeAck.counter == f.exit.counter
    && f.knockDenial.counter == f.reknock.counter && f.exitDenial.counter == f.exit.counter
    && f.knock.counter != f.reknock.counter && f.reknock.counter != f.exit.counter && f.knock.counter != f.exit.counter
  }

  predicate CookieBound(f: Flow) {
    ClassifyCookie(f.cookieReply, f.knock.counter) == Canonical && f.cookieReply.value.cookie == f.cookieB64
  }

  predicate DenialsBound(f: Flow) {
    f.knockDenial.body.Some? && KnockDenialOk(f.knockDenial.body.value)
    && f.exitDenial.body.Some? && ExitDenialOk(f.exitDenial.body.value)
  }

  predicate FlowAccepted(f: Flow) {
    CountersBound(f) && CookieSpelt(f) && KnocksBound(f) && ReceiptsBound(f) && CookieBound(f) && DenialsBound(f)
  }

  method ValidateFlowBindings(f: Flow) returns (accepted: bool)
    ensures accepted <==> FlowAccepted(f)
  {
    hide Base64.GoDecodePadded, Base64.GoDecode, Base64.EncodePadded, AckOk, CloseOk, ClassifyCookie;
    if f.ack.counter != f.reknock.counter || f.closeAck.counter != f.exit.counter {
      return false;
    }
    if f.knockDenial.counter != f.reknock.counter || f.exitDenial.counter != f.exit.counter {
      return false;
    }
    if f.knock.counter == f.reknock.counter || f.reknock.counter == f.exit.counter
        || f.knock.counter == f.exit.counter {
      return false;
    }
    var cookie := Base64.GoDecodePadded(f.cookieB64);
    if cookie.None? || |cookie.value| != COOKIE_OCTETS || Base64.EncodePadded(cookie.value) != f.cookieB64
      || Hexadecimal.Encode(cookie.value) != f.cookieHex {
      return false;
    }
    if f.knock.body.None? || !KnockDecodes(f.knock.body.value) || f.reknock.body.None?
        || !KnockDecodes(f.reknock.body.value) {
      return false;
    }
    var knock, rkn := f.knock.body.value, f.reknock.body.value;
    if knock.headerType != KNK || rkn.headerType != RKN {
      return false;
    }
    knock, rkn := knock.(headerType := 0), rkn.(headerType := 0);
    if knock != rkn || !LowerHex32(knock.runId) || knock.runAttempt == 0 || knock.aspId != "agent" {
      return false;
    }
    if f.ack.body.None? || !AckOk(f.ack.body.value, knock.resId) {
      return false;
    }
    var receipt := f.ack.body.value.receipt;
    if receipt.runId != knock.runId || receipt.runAttempt != knock.runAttempt {
      return false;
    }
    if f.exit.body.None? || !ReceiptOk(f.exit.body.value.receipt) || f.exit.body.value.headerType != EXT
      || f.exit.body.value.aspId != "agent" || f.exit.body.value.receipt != receipt {
      return false;
    }
    if ClassifyCookie(f.cookieReply, f.knock.counter) != Canonical {
      return false;
    }
    CanonicalHasBody(f.cookieReply, f.knock.counter);
    if f.cookieReply.value.cookie != f.cookieB64 {
      return false;
    }
    if f.closeAck.body.None? || !CloseOk(f.closeAck.body.value, receipt) {
      return false;
    }
    return f.knockDenial.body.Some? && KnockDenialOk(f.knockDenial.body.value)
           && f.exitDenial.body.Some? && ExitDenialOk(f.exitDenial.body.value);
  }

  lemma CanonicalHasBody(body: Option<CookieBody>, counter: nat)
    requires ClassifyCookie(body, counter) == Canonical
    ensures body.Some?
  {
  }
}
