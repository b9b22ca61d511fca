/**
  The flows the validator accepts, spelled out: each is composed from the values a
  session chooses freely, and every composition is accepted.
 */
module SessionFlows {
  import opened BitStream
  import opened GoStrings
  import opened Wrappers
  import opened AgentSession
  import Base64
  import Hexadecimal
  import Utf8

  /** What a session chooses: its run, its counters, the cookie, the grant, and the two refusals beside it. */
  datatype Choice = Choice(
    userId: string, deviceId: string, resId: string, runId: string, runAttempt: nat,
    first: nat, second: nat, third: nat, cookie: seq<byte>,
    cellId: string, sessionId: nat, issuedAtMillis: int, host: string, agentAddr: string, acToken: string,
    closeEventId: string, state: string,
    knockCode: string, knockMsg: string, exitCode: string, exitMsg: string)

  predicate HasInk(s: string) {
    exists i :: 0 <= i < |s| && !Utf8.IsSpace(s[i] as nat)
  }

  predicate IsRunId(s: string) {
    |s| == 32 && forall i :: 0 <= i < |s| ==> s[i] in "0123456789abcdef"
  }

  predicate IsRefusal(code: string, message: string) {
    code !in {"", "0"} && message != ""
  }

  ghost predicate Fit(x: Choice) {
    && x.userId != "" && x.deviceId != "" && x.resId != "" && IsRunId(x.runId) && x.runAttempt > 0
    && x.first != x.second && x.second != x.third && x.first != x.third && |x.cookie| == 32
    && x.cellId != "" && !Utf8.IsSpace(x.cellId[0] as nat) && !Utf8.IsSpace(x.cellId[|x.cellId| - 1] as nat)
    && x.sessionId > 0 && x.issuedAtMillis > 0 && HasInk(x.host) && HasInk(x.agentAddr) && HasInk(x.acToken)
    && IsRunId(x.closeEventId) && x.state in {"closing", "closed"}
    && IsRefusal(x.knockCode, x.knockMsg) && IsRefusal(x.exitCode, x.exitMsg)
  }

  function CookieText(cookie: seq<byte>): text {
    var t := Base64.EncodePadded(cookie);
    Base64.PaddedIsAscii(cookie);
    t
  }

  function KnockOf(x: Choice, headerType: int): KnockBody {
    KnockBody(headerType, x.userId, x.deviceId, "agent", x.resId, x.runId, x.runAttempt)
  }

  function ReceiptOf(x: Choice): Receipt {
    Receipt(x.cellId, x.sessionId, x.issuedAtMillis, x.runId, x.runAttempt)
  }

  function Compose(x: Choice): Flow {
    var cookie := CookieText(x.cookie);
    Flow(Packet(x.first, Some(KnockOf(x, 1))), Some(CookieBody(x.first, cookie)), cookie, Hexadecimal.Encode(x.cookie),
         Packet(x.second, Some(KnockOf(x, 8))),
         Packet(x.second, Some(AckBody("0", ReceiptOf(x), map[x.resId := x.host], 900, x.agentAddr,
                                       map[x.resId := x.acToken], map[x.resId := "null"]))),
         Packet(x.third, Some(ExitBody(16, "agent", ReceiptOf(x)))),
         Packet(x.third, Some(CloseBody("0", ReceiptOf(x), x.closeEventId, x.state))),
         Packet(x.second, Some(KnockDenial(x.knockCode, x.knockMsg, 0))),
         Packet(x.third, Some(ExitDenial(x.exitCode, x.exitMsg))))
  }

  lemma RunIdExact(s: string)
    ensures LowerHex32(s) <==> IsRunId(s)
  {
    forall c: char ensures ('0' <= c <= '9' || 'a' <= c <= 'f') <==> c in "0123456789abcdef" {
      HexDigits(c);
    }
  }

  lemma HexDigits(c: char)
    ensures ('0' <= c <= '9' || 'a' <= c <= 'f') <==> c in "0123456789abcdef"
  {
  }

  lemma InkExact(s: string)
    ensures HasInk(s) <==> !Blank(s)
  {
    hide Utf8.IsSpace;
  }

  /** A map of one entry is that entry. */
  lemma OneEntry(m: map<string, string>, key: string)
    requires |m| == 1 && key in m
    ensures m == map[key := m[key]]
  {
    var others := m.Keys - {key};
    assert m.Keys == {key} + others && |others| == 0;
    assert m.Keys == {key};
  }

  lemma EntryExact(m: map<string, string>, key: string)
    requires |m| == 1 && !Blank(Entry(m, key))
    ensures key in m && m == map[key := Entry(m, key)]
  {
    OneEntry(m, key);
  }

  lemma CookieComposes(x: Choice)
    requires |x.cookie| == 32
    ensures var cookie := CookieText(x.cookie);
            && ClassifyCookie(Some(CookieBody(x.first, cookie)), x.first) == Canonical
            && Base64.GoDecodePadded(cookie) == Some(x.cookie) && cookie == Base64.EncodePadded(x.cookie)
  {
    CookieExact(x.first, CookieText(x.cookie), x.first, x.cookie);
    hide ClassifyCookie, Base64.GoDecodePadded, Base64.EncodePadded;
  }

  lemma KnocksCompose(x: Choice)
    requires Fit(x)
    ensures KnocksBound(Compose(x)) && CountersBound(Compose(x)) && DenialsBound(Compose(x))
  {
    RunIdExact(x.runId);
    hide LowerHex32, IsRunId, HasInk, Utf8.IsSpace, CookieText, Hexadecimal.Encode;
  }

  lemma AckComposes(x: Choice)
    requires Fit(x)
    ensures AckOk(Compose(x).ack.body.value, x.resId)
  {
    RunIdExact(x.runId);
    InkExact(x.host);
    InkExact(x.agentAddr);
    InkExact(x.acToken);
    NullIsNoBlank();
    hide LowerHex32, IsRunId, HasInk, Blank, CookieText, Hexadecimal.Encode, Utf8.IsSpace;
  }

  lemma ReceiptsCompose(x: Choice)
    requires Fit(x)
    ensures ReceiptsBound(Compose(x))
  {
    AckComposes(x);
    RunIdExact(x.runId);
    RunIdExact(x.closeEventId);
    hide AckOk, LowerHex32, IsRunId, HasInk, CookieText, Hexadecimal.Encode, Utf8.IsSpace;
  }

  lemma CookiesCompose(x: Choice)
    requires Fit(x)
    ensures CookieSpelt(Compose(x)) && CookieBound(Compose(x))
  {
    CookieComposes(x);
    hide ClassifyCookie, Base64.GoDecodePadded, Base64.EncodePadded, CookieText, IsRunId, HasInk, Utf8.IsSpace,
         Hexadecimal.Encode;
  }

  /** Every composition is accepted. */
  lemma ComposedAccepted(x: Choice)
    requires Fit(x)
    ensures FlowAccepted(Compose(x))
  {
    hide Fit, Compose, KnocksBound, CountersBound, DenialsBound, ReceiptsBound, CookieSpelt, CookieBound;
    KnocksCompose(x);
    ReceiptsCompose(x);
    CookiesCompose(x);
  }

  lemma NullIsNoBlank()
    ensures !Blank("null") && Blank("")
  {
    assert "null"[0] == 'n';
  }

  // ----- and nothing else is

  lemma KnocksChosen(f: Flow)
    requires KnocksBound(f)
    ensures f.knock.body.Some? && f.reknock.body.Some?
    ensures var k := f.knock.body.value;
            && k == KnockBody(1, k.userId, k.deviceId, "agent", k.resId, k.runId, k.runAttempt)
            && f.reknock.body.value == KnockBody(8, k.userId, k.deviceId, "agent", k.resId, k.runId, k.runAttempt)
            && k.userId != "" && k.deviceId != "" && k.resId != "" && k.runAttempt > 0 && IsRunId(k.runId)
  {
    RunIdExact(f.knock.body.value.runId);
    hide LowerHex32, IsRunId;
  }

  lemma AckChosen(b: AckBody, resId: string)
    requires AckOk(b, resId)
    ensures resId in b.resHost && resId in b.acTokens && HasInk(b.agentAddr)
    ensures HasInk(b.resHost[resId]) && HasInk(b.acTokens[resId])
    ensures b == AckBody("0", b.receipt, map[resId := b.resHost[resId]], 900, b.agentAddr,
                         map[resId := b.acTokens[resId]], map[resId := "null"])
    ensures ReceiptOk(b.receipt)
  {
    hide ReceiptOk, Blank, HasInk;
    NullIsNoBlank();
    EntryExact(b.resHost, resId);
    EntryExact(b.acTokens, resId);
    EntryExact(b.preActions, resId);
    InkExact(b.agentAddr);
    InkExact(b.resHost[resId]);
    InkExact(b.acTokens[resId]);
  }

  lemma CookieChosen(f: Flow)
    requires CookieSpelt(f) && CookieBound(f)
    ensures Base64.GoDecodePadded(f.cookieB64).Some?
    ensures var c := Base64.GoDecodePadded(f.cookieB64).value;
            && |c| == 32 && f.cookieB64 == CookieText(c) && f.cookieHex == Hexadecimal.Encode(c)
            && f.cookieReply == Some(CookieBody(f.knock.counter, f.cookieB64))
  {
    hide Base64.GoDecodePadded, Base64.EncodePadded, Base64.GoDecode, Hexadecimal.Encode;
  }

  lemma CloseChosen(b: CloseBody, receipt: Receipt)
    requires CloseOk(b, receipt)
    ensures b == CloseBody("0", receipt, b.closeEventId, b.state) && IsRunId(b.closeEventId)
    ensures b.state in {"closing", "closed"}
  {
    RunIdExact(b.closeEventId);
    hide LowerHex32, IsRunId;
  }

  function ChoiceOf(f: Flow): Choice
    requires FlowAccepted(f)
  {
    AckChosen(f.ack.body.value, f.knock.body.value.resId);
    CookieChosen(f);
    var (knock, ack, close) := (f.knock.body.value, f.ack.body.value, f.closeAck.body.value);
    var (r, no, nay) := (ack.receipt, f.knockDenial.body.value, f.exitDenial.body.value);
    Choice(knock.userId, knock.deviceId, knock.resId, knock.runId, knock.runAttempt,
           f.knock.counter, f.reknock.counter, f.exit.counter, Base64.GoDecodePadded(f.cookieB64).value,
           r.cellId, r.sessionId, r.issuedAtMillis, ack.resHost[knock.resId], ack.agentAddr, ack.acTokens[knock.resId],
           close.closeEventId, close.state, no.errCode, no.errMsg, nay.errCode, nay.errMsg)
  }

  lemma ReceiptsChosen(f: Flow)
    requires FlowAccepted(f)
    ensures var r, k := f.ack.body.value.receipt, f.knock.body.value;
            && r == Receipt(r.cellId, r.sessionId, r.issuedAtMillis, k.runId, k.runAttempt)
            && r.cellId != "" && !Utf8.IsSpace(r.cellId[0] as nat) && !Utf8.IsSpace(r.cellId[|r.cellId| - 1] as nat)
            && r.sessionId > 0 && r.issuedAtMillis > 0 && f.exit.body == Some(ExitBody(16, "agent", r))
            && f.closeAck.body.Some? && CloseOk(f.closeAck.body.value, r)
  {
    AckChosen(f.ack.body.value, f.knock.body.value.resId);
    hide CookieSpelt, CookieBound, AckOk, CloseOk, Utf8.IsSpace, LowerHex32;
  }

  lemma DenialsChosen(f: Flow)
    requires FlowAccepted(f)
    ensures var no, nay := f.knockDenial.body.value, f.exitDenial.body.value;
            && f.knockDenial == Packet(f.reknock.counter, Some(KnockDenial(no.errCode, no.errMsg, 0)))
            && f.exitDenial == Packet(f.exit.counter, Some(ExitDenial(nay.errCode, nay.errMsg)))
            && IsRefusal(no.errCode, no.errMsg) && IsRefusal(nay.errCode, nay.errMsg)
    ensures f.ack.counter == f.reknock.counter && f.closeAck.counter == f.exit.counter
    ensures f.knock.counter != f.reknock.counter && f.reknock.counter != f.exit.counter
            && f.knock.counter != f.exit.counter
  {
    hide CookieSpelt, CookieBound, ReceiptsBound, KnocksBound;
  }

  lemma ChosenFits(f: Flow)
    requires FlowAccepted(f)
    ensures Fit(ChoiceOf(f))
  {
    KnocksChosen(f);
    AckChosen(f.ack.body.value, f.knock.body.value.resId);
    CookieChosen(f);
    ReceiptsChosen(f);
    DenialsChosen(f);
    CloseChosen(f.closeAck.body.value, f.ack.body.value.receipt);
    hide FlowAccepted, AckOk, CloseOk, HasInk, IsRunId, IsRefusal, Utf8.IsSpace, Base64.GoDecodePadded, CookieText,
         Hexadecimal.Encode;
  }

  lemma ChosenComposes(f: Flow)
    requires FlowAccepted(f)
    ensures f == Compose(ChoiceOf(f))
  {
    KnocksChosen(f);
    AckChosen(f.ack.body.value, f.knock.body.value.resId);
    CookieChosen(f);
    ReceiptsChosen(f);
    DenialsChosen(f);
    CloseChosen(f.closeAck.body.value, f.ack.body.value.receipt);
    hide FlowAccepted, AckOk, CloseOk, HasInk, IsRunId, IsRefusal, Utf8.IsSpace, Base64.GoDecodePadded, CookieText,
         Hexadecimal.Encode;
  }

  /** The accepted flows are exactly the compositions. */
  lemma AcceptedExact(f: Flow)
    ensures FlowAccepted(f) <==> exists x :: Fit(x) && Compose(x) == f
  {
    hide FlowAccepted, Fit, Compose, ChoiceOf;
    if FlowAccepted(f) {
      ChosenFits(f);
      ChosenComposes(f);
    }
    forall x | Fit(x) && Compose(x) == f ensures FlowAccepted(f) {
      ComposedAccepted(x);
    }
  }
}
