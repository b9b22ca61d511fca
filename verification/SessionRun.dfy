/**
  The client side of a session as a machine over arbitrary messages, which it drops
  unless they fit, and the proof that it closes exactly on the flows the validator
  accepts.
 */
module SessionRun {
  import opened BitStream
  import opened GoStrings
  import opened Wrappers
  import opened AgentSession
  import Base64
  import Hexadecimal

  /** What the client keeps: less and less of the opening as the session goes on. */
  datatype Client =
    | Fresh
    | Knocked(counter: nat, knock: KnockBody)
    | Challenged(counter: nat, knock: KnockBody, cookie: seq<byte>)
    | Reknocked(first: nat, counter: nat, knock: KnockBody)
    | Granted(first: nat, second: nat, receipt: Receipt)
    | Exiting(counter: nat, receipt: Receipt)
    | Closed(receipt: Receipt)
    | Denied
    | ExitDenied

  datatype Event =
    | SendKnock(counter: nat, knock: KnockBody)
    | ReceiveCookie(wireCounter: nat, cookieBody: Option<CookieBody>)
    | SendReknock(counter: nat, knock: KnockBody, cookie: seq<byte>)
    | ReceiveAck(counter: nat, ack: Option<AckBody>)
    | ReceiveKnockDenial(counter: nat, knockDenial: Option<KnockDenial>)
    | SendExit(counter: nat, exit: ExitBody)
    | ReceiveClose(counter: nat, close: Option<CloseBody>)
    | ReceiveExitDenial(counter: nat, exitDenial: Option<ExitDenial>)

  predicate KnockOk(b: KnockBody) {
    KnockDecodes(b) && b.headerType == KNK && LowerHex32(b.runId) && b.aspId == "agent"
  }

  /** None: the message does not fit and the client stays as it is. */
  function Step(c: Client, e: Event): Option<Client> {
    match (c, e)
    case (Fresh, SendKnock(n, b)) => if KnockOk(b) then Some(Knocked(n, b)) else None
    case (Knocked(n, k), ReceiveCookie(_, body)) =>
      if ClassifyCookie(body, n) != Canonical then None
      else Some(Challenged(n, k, Base64.GoDecodePadded(body.value.cookie).value))
    case (Challenged(n, k, cookie), SendReknock(m, b, proof)) =>
      if m != n && b.headerType == RKN && SameKnock(k, b) && proof == cookie then Some(Reknocked(n, m, b)) else None
    case (Reknocked(n, m, k), ReceiveAck(r, body)) =>
      if r == m && body.Some? && AckOk(body.value, k.resId) && body.value.receipt.runId == k.runId
         && body.value.receipt.runAttempt == k.runAttempt then Some(Granted(n, m, body.value.receipt)) else None
    case (Reknocked(_, m, _), ReceiveKnockDenial(r, body)) =>
      if r == m && body.Some? && KnockDenialOk(body.value) then Some(Denied) else None
    case (Granted(n, m, receipt), SendExit(x, b)) =>
      if x != n && x != m && b == ExitBody(EXT, "agent", receipt) then Some(Exiting(x, receipt)) else None
    case (Exiting(x, receipt), ReceiveClose(r, body)) =>
      if r == x && body.Some? && CloseOk(body.value, receipt) then Some(Closed(receipt)) else None
    case (Exiting(x, _), ReceiveExitDenial(r, body)) =>
      if r == x && body.Some? && ExitDenialOk(body.value) then Some(ExitDenied) else None
    case _ => None
  }

  function Run(events: seq<Event>): Client {
    if events == [] then Fresh
    else
      var before := Run(events[..|events| - 1]);
      match Step(before, events[|events| - 1])
      case None => before
      case Some(after) => after
  }

  /** The messages of a run that fitted. */
  function Taken(events: seq<Event>): (taken: seq<Event>)
    ensures |taken| <= |events|
    ensures |taken| == |events| ==> taken == events
  {
    if events == [] then []
    else
      var n := |events| - 1;
      assert events == events[..n] + [events[n]];
      if Step(Run(events[..n]), events[n]).None? then Taken(events[..n]) else Taken(events[..n]) + [events[n]]
  }

  // ----- what the client's state says about the messages taken

  ghost predicate Opened(log: seq<Event>, n: nat, k: KnockBody) {
    |log| >= 1 && log[0] == SendKnock(n, k) && KnockOk(k)
  }

  ghost predicate CookieTaken(log: seq<Event>, n: nat, k: KnockBody, cookie: seq<byte>) {
    |log| >= 2 && Opened(log, n, k) && log[1].ReceiveCookie? && ClassifyCookie(log[1].cookieBody, n) == Canonical
    && Base64.GoDecodePadded(log[1].cookieBody.value.cookie) == Some(cookie)
  }

  ghost predicate Proven(log: seq<Event>, n: nat, m: nat, b: KnockBody) {
    |log| >= 3 && log[0].SendKnock? && log[2].SendReknock? && log[2] == SendReknock(m, b, log[2].cookie)
    && CookieTaken(log, n, log[0].knock, log[2].cookie)
    && n != m && b.headerType == RKN && SameKnock(log[0].knock, b)
  }

  ghost predicate Acknowledged(log: seq<Event>, n: nat, m: nat, receipt: Receipt) {
    |log| >= 4 && log[2].SendReknock? && Proven(log, n, m, log[2].knock)
    && log[3].ReceiveAck? && log[3].counter == m && log[3].ack.Some?
    && AckOk(log[3].ack.value, log[2].knock.resId) && log[3].ack.value.receipt == receipt
    && receipt.runId == log[2].knock.runId && receipt.runAttempt == log[2].knock.runAttempt
  }

  ghost predicate ExitSent(log: seq<Event>, x: nat, receipt: Receipt) {
    |log| >= 5 && log[0].SendKnock? && log[2].SendReknock? && Acknowledged(log, log[0].counter, log[2].counter, receipt)
    && log[4] == SendExit(x, ExitBody(EXT, "agent", receipt)) && x != log[0].counter && x != log[2].counter
  }

  ghost predicate Explains(c: Client, log: seq<Event>) {
    match c
    case Fresh => log == []
    case Knocked(n, k) => |log| == 1 && Opened(log, n, k)
    case Challenged(n, k, cookie) => |log| == 2 && CookieTaken(log, n, k, cookie)
    case Reknocked(n, m, b) => |log| == 3 && Proven(log, n, m, b)
    case Granted(n, m, receipt) => |log| == 4 && Acknowledged(log, n, m, receipt)
    case Exiting(x, receipt) => |log| == 5 && ExitSent(log, x, receipt)
    case Closed(receipt) =>
      |log| == 6 && log[4].SendExit? && ExitSent(log, log[4].counter, receipt)
      && log[5].ReceiveClose? && log[5].counter == log[4].counter && log[5].close.Some?
      && CloseOk(log[5].close.value, receipt)
    case Denied =>
      |log| == 4 && log[0].SendKnock? && log[2].SendReknock?
      && Proven(log, log[0].counter, log[2].counter, log[2].knock)
      && log[3].ReceiveKnockDenial? && log[3].counter == log[2].counter && log[3].knockDenial.Some?
      && KnockDenialOk(log[3].knockDenial.value)
    case ExitDenied =>
      |log| == 6 && log[4].SendExit? && ExitSent(log, log[4].counter, log[4].exit.receipt)
      && log[5].ReceiveExitDenial? && log[5].counter == log[4].counter && log[5].exitDenial.Some?
      && ExitDenialOk(log[5].exitDenial.value)
  }

  lemma StepExplained(c: Client, log: seq<Event>, e: Event)
    requires Explains(c, log) && Step(c, e).Some?
    ensures Explains(Step(c, e).value, log + [e])
  {
    hide ClassifyCookie, Base64.GoDecodePadded, Base64.GoDecode, KnockOk, AckOk, CloseOk, SameKnock, KnockDenialOk,
         ExitDenialOk;
    var longer := log + [e];
    assert longer[|log|] == e && forall i :: 0 <= i < |log| ==> longer[i] == log[i];
    match c
    case Knocked(n, k) => CanonicalDecodes(e.cookieBody, n);
    case _ =>
  }

  lemma CanonicalDecodes(body: Option<CookieBody>, counter: nat)
    requires ClassifyCookie(body, counter) == Canonical
    ensures body.Some? && Base64.GoDecodePadded(body.value.cookie).Some? && body.value.trxId == counter
    ensures body.value.cookie == Base64.EncodePadded(Base64.GoDecodePadded(body.value.cookie).value)
  {
    hide Base64.GoDecodePadded, Base64.GoDecode, Base64.EncodePadded;
  }

  /** In every run the client's state is explained by the messages it took. */
  lemma {:induction false} RunExplained(events: seq<Event>)
    ensures Explains(Run(events), Taken(events))
  {
    hide Step, Explains;
    if events == [] {
      FreshExplained();
    } else {
      var n := |events| - 1;
      RunExplained(events[..n]);
      if Step(Run(events[..n]), events[n]).Some? {
        StepExplained(Run(events[..n]), Taken(events[..n]), events[n]);
      }
    }
  }

  lemma FreshExplained()
    ensures Explains(Fresh, [])
  {
  }

  // ----- a closed run is an accepted flow

  /** The flow that six messages spell, with denials to go beside them. */
  function FlowOf(log: seq<Event>, knockDenial: Option<KnockDenial>, exitDenial: Option<ExitDenial>): Flow
    requires |log| == 6 && log[0].SendKnock? && log[1].ReceiveCookie? && log[1].cookieBody.Some?
    requires log[2].SendReknock? && log[3].ReceiveAck? && log[4].SendExit? && log[5].ReceiveClose?
  {
    Flow(Packet(log[0].counter, Some(log[0].knock)), log[1].cookieBody, log[1].cookieBody.value.cookie,
         Hexadecimal.Encode(log[2].cookie), Packet(log[2].counter, Some(log[2].knock)),
         Packet(log[3].counter, log[3].ack),
         Packet(log[4].counter, Some(log[4].exit)), Packet(log[5].counter, log[5].close),
         Packet(log[2].counter, knockDenial), Packet(log[4].counter, exitDenial))
  }

  ghost predicate DenialsFit(knockDenial: Option<KnockDenial>, exitDenial: Option<ExitDenial>) {
    knockDenial.Some? && KnockDenialOk(knockDenial.value) && exitDenial.Some? && ExitDenialOk(exitDenial.value)
  }

  ghost predicate SixMessages(log: seq<Event>) {
    |log| == 6 && log[0].SendKnock? && log[1].ReceiveCookie? && log[1].cookieBody.Some?
    && log[2].SendReknock? && log[3].ReceiveAck? && log[4].SendExit? && log[5].ReceiveClose?
  }

  /** Whatever was sent to the client, the messages it took to close form a flow the validator accepts. */
  lemma ClosedRunIsAccepted(events: seq<Event>, knockDenial: Option<KnockDenial>, exitDenial: Option<ExitDenial>)
    requires Run(events).Closed? && DenialsFit(knockDenial, exitDenial)
    ensures SixMessages(Taken(events)) && FlowAccepted(FlowOf(Taken(events), knockDenial, exitDenial))
  {
    RunExplained(events);
    var log := Taken(events);
    hide Run, Taken;
    CanonicalDecodes(log[1].cookieBody, log[0].counter);
    ClosedLog(log, Run(events).receipt, knockDenial, exitDenial);
  }

  lemma ClosedLog(log: seq<Event>, receipt: Receipt, knockDenial: Option<KnockDenial>, exitDenial: Option<ExitDenial>)
    requires Explains(Closed(receipt), log) && SixMessages(log) && DenialsFit(knockDenial, exitDenial)
    ensures FlowAccepted(FlowOf(log, knockDenial, exitDenial))
  {
    hide ClassifyCookie, Base64.GoDecodePadded, Base64.GoDecode, Base64.EncodePadded, AckOk, CloseOk, KnockDenialOk,
         ExitDenialOk;
    CanonicalDecodes(log[1].cookieBody, log[0].counter);
    CanonicalLength(log[1].cookieBody, log[0].counter);
    AckHasReceipt(log[3].ack.value, log[2].knock.resId);
    var f := FlowOf(log, knockDenial, exitDenial);
    assert CookieSpelt(f) && CountersBound(f) && CookieBound(f) && DenialsBound(f);
    assert KnocksBound(f);
    assert ReceiptsBound(f);
  }

  lemma CanonicalLength(body: Option<CookieBody>, counter: nat)
    requires ClassifyCookie(body, counter) == Canonical
    ensures body.Some? && Base64.GoDecodePadded(body.value.cookie).Some?
    ensures |Base64.GoDecodePadded(body.value.cookie).value| == COOKIE_OCTETS
  {
    hide Base64.GoDecodePadded, Base64.GoDecode, Base64.EncodePadded;
  }

  lemma AckHasReceipt(b: AckBody, resId: string)
    requires AckOk(b, resId)
    ensures ReceiptOk(b.receipt)
  {
  }

  // ----- and an accepted flow closes

  /** The fixture's own parts: the sent bodies are there and the cookie is spelt as 32 octets. */
  ghost predicate Present(f: Flow) {
    f.knock.body.Some? && f.reknock.body.Some? && f.exit.body.Some? && CookieSpelt(f)
  }

  ghost function Opening(f: Flow, wireCounter: nat): (events: seq<Event>)
    requires Present(f)
    ensures |events| == 3
  {
    [SendKnock(f.knock.counter, f.knock.body.value), ReceiveCookie(wireCounter, f.cookieReply),
     SendReknock(f.reknock.counter, f.reknock.body.value, Base64.GoDecodePadded(f.cookieB64).value)]
  }

  ghost function Granting(f: Flow, wireCounter: nat): (events: seq<Event>)
    requires Present(f)
    ensures |events| == 5
  {
    Opening(f, wireCounter) + [ReceiveAck(f.ack.counter, f.ack.body)] + [SendExit(f.exit.counter, f.exit.body.value)]
  }

  ghost function Success(f: Flow, wireCounter: nat): (events: seq<Event>)
    requires Present(f)
  {
    Granting(f, wireCounter) + [ReceiveClose(f.closeAck.counter, f.closeAck.body)]
  }

  ghost function KnockRefused(f: Flow, wireCounter: nat): (events: seq<Event>)
    requires Present(f)
  {
    Opening(f, wireCounter) + [ReceiveKnockDenial(f.knockDenial.counter, f.knockDenial.body)]
  }

  ghost function ExitRefused(f: Flow, wireCounter: nat): (events: seq<Event>)
    requires Present(f)
  {
    Granting(f, wireCounter) + [ReceiveExitDenial(f.exitDenial.counter, f.exitDenial.body)]
  }

  lemma RunAppend(events: seq<Event>, e: Event)
    ensures Run(events + [e]) == var after := Step(Run(events), e); if after.None? then Run(events) else after.value
  {
    hide Step;
    assert (events + [e])[..|events|] == events;
  }

  lemma OpeningRuns(f: Flow, wireCounter: nat)
    requires Present(f) && FlowAccepted(f)
    ensures Run(Opening(f, wireCounter)) == Reknocked(f.knock.counter, f.reknock.counter, f.reknock.body.value)
  {
    hide ClassifyCookie, Base64.GoDecodePadded, Base64.GoDecode, Base64.EncodePadded, Run, ReceiptsBound, DenialsBound;
    var cookie := Base64.GoDecodePadded(f.cookieB64).value;
    CanonicalDecodes(f.cookieReply, f.knock.counter);
    var a := SendKnock(f.knock.counter, f.knock.body.value);
    var b := ReceiveCookie(wireCounter, f.cookieReply);
    var c := SendReknock(f.reknock.counter, f.reknock.body.value, cookie);
    StartsFresh();
    RunAppend([], a);
    assert [] + [a] == [a];
    RunAppend([a], b);
    RunAppend([a] + [b], c);
    assert Opening(f, wireCounter) == [a] + [b] + [c];
  }

  lemma StartsFresh()
    ensures Run([]) == Fresh
  {
  }

  lemma AcceptedFlowRuns(f: Flow, wireCounter: nat)
    requires Present(f) && FlowAccepted(f)
    ensures Run(Success(f, wireCounter)) == Closed(f.ack.body.value.receipt)
    ensures Run(KnockRefused(f, wireCounter)) == Denied && Run(ExitRefused(f, wireCounter)) == ExitDenied
  {
    hide ClassifyCookie, Base64.GoDecodePadded, Base64.GoDecode, Base64.EncodePadded, Run, AckOk, CloseOk,
         KnockDenialOk, ExitDenialOk, Opening, CookieSpelt, CookieBound;
    OpeningRuns(f, wireCounter);
    var events, ack := Opening(f, wireCounter), ReceiveAck(f.ack.counter, f.ack.body);
    RunAppend(events, ack);
    RunAppend(events, ReceiveKnockDenial(f.knockDenial.counter, f.knockDenial.body));
    RunAppend(events + [ack], SendExit(f.exit.counter, f.exit.body.value));
    RunAppend(Granting(f, wireCounter), ReceiveClose(f.closeAck.counter, f.closeAck.body));
    RunAppend(Granting(f, wireCounter), ReceiveExitDenial(f.exitDenial.counter, f.exitDenial.body));
  }

  lemma SamePadded(a: text, b: text)
    requires Base64.GoDecodePadded(a).Some? && Base64.GoDecodePadded(a) == Base64.GoDecodePadded(b)
    requires a == Base64.EncodePadded(Base64.GoDecodePadded(a).value)
            && b == Base64.EncodePadded(Base64.GoDecodePadded(b).value)
    ensures a == b
  {
  }

  lemma KnockRefusalFits(f: Flow, wireCounter: nat)
    requires Present(f) && Run(KnockRefused(f, wireCounter)) == Denied
    ensures f.knockDenial.counter == f.reknock.counter && f.knockDenial.body.Some?
    ensures KnockDenialOk(f.knockDenial.body.value)
  {
    hide Run, Taken, Proven, KnockDenialOk, CookieSpelt;
    RunExplained(KnockRefused(f, wireCounter));
    var log := Taken(KnockRefused(f, wireCounter));
    assert log == KnockRefused(f, wireCounter);
    assert log[2].counter == f.reknock.counter
           && log[3] == ReceiveKnockDenial(f.knockDenial.counter, f.knockDenial.body);
  }

  lemma ExitRefusalFits(f: Flow, wireCounter: nat)
    requires Present(f) && Run(ExitRefused(f, wireCounter)) == ExitDenied
    ensures f.exitDenial.counter == f.exit.counter && f.exitDenial.body.Some?
    ensures ExitDenialOk(f.exitDenial.body.value)
  {
    hide Run, Taken, ExitSent, ExitDenialOk, CookieSpelt;
    RunExplained(ExitRefused(f, wireCounter));
    var log := Taken(ExitRefused(f, wireCounter));
    assert log == ExitRefused(f, wireCounter);
    assert log[4].counter == f.exit.counter && log[5] == ReceiveExitDenial(f.exitDenial.counter, f.exitDenial.body);
  }

  lemma ClosedFlowAccepted(f: Flow, wireCounter: nat)
    requires Present(f) && DenialsBound(f)
    requires f.knockDenial.counter == f.reknock.counter && f.exitDenial.counter == f.exit.counter
    requires Run(Success(f, wireCounter)).Closed?
    ensures FlowAccepted(f)
  {
    hide Run, Taken, ClassifyCookie, Base64.GoDecodePadded, Base64.GoDecode, Base64.EncodePadded, AckOk, CloseOk;
    var events := Success(f, wireCounter);
    RunExplained(events);
    assert Taken(events) == events;
    ClosedRunIsAccepted(events, f.knockDenial.body, f.exitDenial.body);
    CookiesAgree(f, wireCounter, Run(events).receipt);
    hide KnocksBound, ReceiptsBound, CookieSpelt, DenialsBound, Explains;
  }

  lemma CookiesAgree(f: Flow, wireCounter: nat, receipt: Receipt)
    requires Present(f) && Explains(Closed(receipt), Success(f, wireCounter)) && f.cookieReply.Some?
    ensures ClassifyCookie(f.cookieReply, f.knock.counter) == Canonical && f.cookieReply.value.cookie == f.cookieB64
  {
    hide ClassifyCookie, Base64.GoDecodePadded, Base64.EncodePadded, AckOk, CloseOk;
    ProofIsCookie(Success(f, wireCounter), receipt);
    CanonicalDecodes(f.cookieReply, f.knock.counter);
    SpeltIsCanonical(f);
    SamePadded(f.cookieReply.value.cookie, f.cookieB64);
  }

  lemma ProofIsCookie(log: seq<Event>, receipt: Receipt)
    requires Explains(Closed(receipt), log) && SixMessages(log)
    ensures Base64.GoDecodePadded(log[1].cookieBody.value.cookie) == Some(log[2].cookie)
  {
    hide ClassifyCookie, Base64.GoDecodePadded, AckOk, CloseOk, KnockOk;
  }

  lemma SpeltIsCanonical(f: Flow)
    requires CookieSpelt(f)
    ensures Base64.GoDecodePadded(f.cookieB64).Some?
    ensures f.cookieB64 == Base64.EncodePadded(Base64.GoDecodePadded(f.cookieB64).value)
  {
    hide Base64.GoDecodePadded, Base64.EncodePadded;
  }

  /**
    The validator accepts a flow exactly if the client closes on it, and accepts its
    denials, whatever counter the cookie reply carries on the wire.
   */
  lemma FlowAcceptedExact(f: Flow, wireCounter: nat)
    requires Present(f)
    ensures FlowAccepted(f)
            <==> Run(Success(f, wireCounter)).Closed? && Run(KnockRefused(f, wireCounter)) == Denied
                 && Run(ExitRefused(f, wireCounter)) == ExitDenied
  {
    hide FlowAccepted, Run, Success, KnockRefused, ExitRefused, Present;
    if FlowAccepted(f) {
      AcceptedFlowRuns(f, wireCounter);
    }
    if Run(Success(f, wireCounter)).Closed? && Run(KnockRefused(f, wireCounter)) == Denied
        && Run(ExitRefused(f, wireCounter)) == ExitDenied {
      KnockRefusalFits(f, wireCounter);
      ExitRefusalFits(f, wireCounter);
      ClosedFlowAccepted(f, wireCounter);
    }
  }

  /** What closing means: one receipt throughout, bound to the run of both knocks, under three fresh counters. */
  lemma ClosedRunBindings(events: seq<Event>)
    requires Run(events).Closed?
    ensures SixMessages(Taken(events))
    ensures var log, receipt := Taken(events), Run(events).receipt;
            log[3].ack.Some? && log[5].close.Some?
            && log[3].ack.value.receipt == log[4].exit.receipt == log[5].close.value.receipt == receipt
            && receipt.runId == log[0].knock.runId == log[2].knock.runId
            && receipt.runAttempt == log[0].knock.runAttempt == log[2].knock.runAttempt > 0
            && log[3].counter == log[2].counter && log[5].counter == log[4].counter
            && log[0].counter != log[2].counter && log[2].counter != log[4].counter && log[0].counter != log[4].counter
            && log[1].cookieBody.value.trxId == log[0].counter
  {
    RunExplained(events);
    var log := Taken(events);
    hide Run, Taken, Base64.GoDecodePadded, ClassifyCookie, AckOk, LowerHex32;
    CanonicalDecodes(log[1].cookieBody, log[0].counter);
  }
}
