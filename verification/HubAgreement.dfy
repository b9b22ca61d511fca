/**
  What a call of the Authority says about the client behind it.  A call for an
  honest peer follows, message by message, an exchange which that peer began with
  the same body, and distinct calls come from distinct exchanges.
 */
module HubAgreement {
  import opened BitStream
  import opened HubCookie
  import opened HubProtocol
  import opened HubSafety
  import opened Wrappers

  // ----- what each event presupposes of the log before it

  /** Event `k` sent this packet, from whatever address it is now said to come. */
  ghost predicate SentAs(log: seq<Event>, k: nat, p: Request) {
    k < |log| && log[k].ClientSent? && Readdressed(p, log[k].packet)
  }

  ghost predicate Sent(log: seq<Event>, p: Request) {
    exists k: nat :: SentAs(log, k, p)
  }

  /** Event `j` is the first flight of the same client. */
  ghost predicate FirstFlightOf(log: seq<Event>, j: nat, id: nat, q: Request) {
    j < |log| && log[j].ClientSent? && log[j].client == id && log[j].packet.flags == NO_FLAGS
    && Answered(log, log[j].packet, q)
  }

  /** A challenge of an honest peer is a reply to an LST it sent. */
  ghost predicate Requested(log: seq<Event>, peer: seq<byte>, transaction: uint64) {
    exists j: nat :: RequestedAt(log, j, peer, transaction)
  }

  ghost predicate RequestedAt(log: seq<Event>, j: nat, peer: seq<byte>, transaction: uint64) {
    j < |log| && log[j].ClientSent? && log[j].packet.flags == NO_FLAGS
    && log[j].packet.peer == peer && log[j].packet.counter == transaction
  }

  /** The call is for the address, peer, key and window that challenge `h` was minted for. */
  ghost predicate CallMatches(log: seq<Event>, call: Event, h: nat)
    requires call.Called? && h < |log| && log[h].Challenged?
  {
    log[h].ip == call.ip && log[h].peer == call.peer
    && HoldsKey(call.slots, log[h].key) && Fresh(log[h].window, call.window)
  }

  ghost predicate EventOk(log: seq<Event>, e: Event, honest: set<seq<byte>>) {
    match e
    case Received(_, _) => true
    case ClientSent(id, q) => q.flags == NO_FLAGS || exists j: nat :: FirstFlightOf(log, j, id, q)
    case Challenged(_, peer, _, _, transaction, _) => peer in honest ==> Requested(log, peer, transaction)
    case Called(ip, peer, _, _, proof, _) =>
      && proof.source.Unmap() == ip && proof.peer == peer && proof.flags == PROOF_FLAG && proof.digest.Proof?
      && (peer in honest ==> Sent(log, proof))
      && (forall h: nat :: MintedBy(log, proof.digest.cookie, h) ==> CallMatches(log, e, h))
  }

  ghost predicate LogOk(log: seq<Event>, honest: set<seq<byte>>) {
    forall i :: 0 <= i < |log| ==> EventOk(log[..i], log[i], honest)
  }

  lemma LogOkAppend(log: seq<Event>, e: Event, honest: set<seq<byte>>)
    requires LogOk(log, honest) && EventOk(log, e, honest)
    ensures LogOk(log + [e], honest)
  {
    hide EventOk;
    var longer := log + [e];
    forall i | 0 <= i < |longer| ensures EventOk(longer[..i], longer[i], honest) {
      assert longer[..i] == if i < |log| then log[..i] else log;
    }
  }

  // ----- the state

  /** Every LST of an honest peer on the network was sent, from some address. */
  ghost predicate NetworkSent(s: State) {
    forall p :: p in s.network && p.Lst? && p.peer in s.honest ==> Sent(s.log, p)
  }

  /** A client that waits for a COK sent the LST it remembers. */
  ghost predicate AwaitingSent(s: State) {
    forall id :: id in s.clients && s.clients[id].AwaitCok? ==> FirstSent(s.log, id, s.clients[id].first)
  }

  ghost predicate FirstSent(log: seq<Event>, id: nat, first: Request) {
    first.flags == NO_FLAGS && ClientSent(id, first) in log
  }

  ghost predicate Agreeing(s: State) {
    CoksAnnounced(s) && NetworkSent(s) && AwaitingSent(s) && LogOk(s.log, s.honest)
  }

  lemma SentGrows(log: seq<Event>, more: seq<Event>, p: Request)
    requires Sent(log, p)
    ensures Sent(log + more, p)
  {
    var k: nat :| SentAs(log, k, p);
    assert SentAs(log + more, k, p);
  }

  lemma ReaddressedSent(log: seq<Event>, p: Request, q: Request)
    requires Readdressed(p, q) && Sent(log, q)
    ensures Sent(log, p)
  {
    var k: nat :| SentAs(log, k, q);
    assert SentAs(log, k, p);
  }

  /** Growth of log and network that keeps the network sent. */
  lemma NetworkSentGrows(s: State, t: State, more: seq<Event>, p: Packet)
    requires NetworkSent(s) && t.log == s.log + more && t.honest == s.honest && t.network <= s.network + {p}
    requires p !in s.network && p.Lst? && p.peer in s.honest ==> Sent(t.log, p)
    ensures NetworkSent(t)
  {
    hide Sent;
    forall q | q in t.network && q.Lst? && q.peer in t.honest ensures Sent(t.log, q) {
      if q in s.network {
        SentGrows(s.log, more, q);
      }
    }
  }

  lemma AwaitingGrows(s: State, t: State, more: seq<Event>)
    requires AwaitingSent(s) && t.log == s.log + more
    requires forall id :: id in t.clients && t.clients[id].AwaitCok?
                          ==> id in s.clients && t.clients[id] == s.clients[id]
    ensures AwaitingSent(t)
  {
  }

  // ----- one step

  lemma InjectAgrees(s: State, p: Packet)
    requires NetworkSent(s) && CanInject(s, p)
    ensures p.Lst? && p.peer in s.honest ==> Sent(s.log, p)
  {
    hide Sent;
    if p.Lst? && p.peer in s.honest {
      var q :| q in s.network && q.Lst? && Readdressed(p, q);
      ReaddressedSent(s.log, p, q);
    }
  }

  lemma StartAgrees(s: State, id: nat, first: Request)
    requires Agreeing(s)
    ensures var t := Apply(s, Start(id, first)); NetworkSent(t) && AwaitingSent(t) && LogOk(t.log, t.honest)
  {
    hide LogOk, CoksAnnounced;
    var t := Apply(s, Start(id, first));
    if t.log != s.log {
      var sent := ClientSent(id, first);
      LogOkAppend(s.log, sent, s.honest);
      assert SentAs(t.log, |s.log|, first);
      NetworkSentGrows(s, t, [sent], first);
      assert FirstSent(t.log, id, first);
    }
  }

  lemma ClientAgrees(s: State, id: nat, p: Packet, counter: uint64, stamp: nat)
    requires Agreeing(s) && id in s.clients && p in s.network
    ensures var t := ClientStep(s, id, p, counter, stamp);
            NetworkSent(t) && AwaitingSent(t) && LogOk(t.log, t.honest)
  {
    hide LogOk, CoksAnnounced;
    var t := ClientStep(s, id, p, counter, stamp);
    if t.log == s.log {
      assert s.log + [] == s.log;
      AwaitingGrows(s, t, []);
      NetworkSentGrows(s, t, [], p);
    } else {
      var first := s.clients[id].first;
      var proof := ProofOf(first, counter, stamp, p.cookie);
      var sent := ClientSent(id, proof);
      ProofFollows(s, id, p, counter, stamp);
      LogOkAppend(s.log, sent, s.honest);
      assert SentAs(t.log, |s.log|, proof);
      NetworkSentGrows(s, t, [sent], proof);
      AwaitingGrows(s, t, [sent]);
    }
  }

  lemma ProofFollows(s: State, id: nat, p: Packet, counter: uint64, stamp: nat)
    requires CoksAnnounced(s) && AwaitingSent(s) && id in s.clients && p in s.network && s.clients[id].AwaitCok?
    requires Usable(p, s.clients[id].first) && counter != s.clients[id].first.counter
    ensures EventOk(s.log, ClientSent(id, ProofOf(s.clients[id].first, counter, stamp, p.cookie)), s.honest)
  {
    hide Announced, Answered;
    var first := s.clients[id].first;
    ProofAnswers(s.log, p, first, counter, stamp);
    assert FirstSent(s.log, id, first);
    var j: nat :| j < |s.log| && s.log[j] == ClientSent(id, first);
    assert FirstFlightOf(s.log, j, id, ProofOf(first, counter, stamp, p.cookie));
  }

  lemma HubAgrees(s: State, p: Packet, admit: bool, bytes: nat)
    requires Agreeing(s) && p in s.network && p.Lst?
    ensures var t := HubStep(s, p, admit, bytes); NetworkSent(t) && AwaitingSent(t) && LogOk(t.log, t.honest)
  {
    hide LogOk, CoksAnnounced, EventOk, Sent;
    var t, received := HubStep(s, p, admit, bytes), Received(p.source.Unmap(), p.size);
    ReceivedOk(s.log, received, s.honest);
    LogOkAppend(s.log, received, s.honest);
    var more := t.log[|s.log|..];
    assert t.log == s.log + more;
    AwaitingGrows(s, t, more);
    match HubReaction(s, p, admit)
    case Drop =>
      NetworkSentGrows(s, t, more, p);
    case Challenge(cookie) =>
      NetworkSentGrows(s, t, more, Cok(true, p.peer, NO_FLAGS, p.counter, cookie, true));
      ChallengeOk(s, p, received);
      LogOkAppend(s.log + [received], ChallengeEvent(s, p), s.honest);
      assert t.log == s.log + [received] + [ChallengeEvent(s, p)];
    case Serve =>
      NetworkSentGrows(s, t, more, Lrt(true, p.peer, p.counter));
      var call := Called(p.source.Unmap(), p.peer, Window(s.now), s.slots, p, bytes);
      CallOk(s, p, received, call, admit);
      LogOkAppend(s.log + [received], call, s.honest);
      assert t.log == s.log + [received] + [call];
  }

  lemma ReceivedOk(log: seq<Event>, e: Event, honest: set<seq<byte>>)
    requires e.Received?
    ensures EventOk(log, e, honest)
  {
  }

  lemma ChallengeOk(s: State, p: Request, received: Event)
    requires NetworkSent(s) && p in s.network && p.flags == NO_FLAGS && s.slots.active.Some?
    ensures EventOk(s.log + [received], ChallengeEvent(s, p), s.honest)
  {
    if p.peer in s.honest {
      SentGrows(s.log, [received], p);
      var k: nat :| SentAs(s.log + [received], k, p);
      assert RequestedAt(s.log + [received], k, p.peer, p.counter);
    }
  }

  lemma CallOk(s: State, p: Request, received: Event, call: Event, admit: bool)
    requires NetworkSent(s) && p in s.network && HubReaction(s, p, admit).Serve? && received.Received?
    requires call.Called? && call.ip == p.source.Unmap() && call.peer == p.peer && call.window == Window(s.now)
    requires call.slots == s.slots && call.proof == p
    ensures EventOk(s.log + [received], call, s.honest)
  {
    hide Preimage, Sent;
    var log := s.log + [received];
    if p.peer in s.honest {
      SentGrows(s.log, [received], p);
    }
    var c :| c in Candidates(s.slots, Window(s.now)) && Matches(c, p);
    forall h: nat | MintedBy(log, p.digest.cookie, h) ensures CallMatches(log, call, h) {
      PreimageInjective(p.source, p.peer, c.1, log[h].ip, log[h].peer, log[h].window);
      CandidatesExact(s.slots, Window(s.now), c.0, c.1);
    }
  }

  lemma AgreementStep(s: State, step: Step)
    requires Agreeing(s)
    ensures Agreeing(Apply(s, step))
  {
    CoksStep(s, step);
    hide CoksAnnounced, LogOk, HubStep, ClientStep;
    var t := Apply(s, step);
    match step
    case Tick(_) =>
    case Rekey(_) =>
    case Inject(p) =>
      if CanInject(s, p) {
        InjectAgrees(s, p);
        hide CanInject;
        assert s.log + [] == s.log;
        NetworkSentGrows(s, t, [], p);
      }
    case Start(id, first) => StartAgrees(s, id, first);
    case HubReceives(p, admit, bytes) =>
      if p in s.network && p.Lst? {
        HubAgrees(s, p, admit, bytes);
      }
    case ClientReceives(id, p, counter, stamp) =>
      if p in s.network && id in s.clients {
        ClientAgrees(s, id, p, counter, stamp);
      }
  }

  lemma {:induction false} AgreementRun(now: uint64, slots: Slots, honest: set<seq<byte>>, steps: seq<Step>)
    ensures Agreeing(Run(Initial(now, slots, honest), steps))
    ensures Run(Initial(now, slots, honest), steps).honest == honest
  {
    if steps != [] {
      AgreementRun(now, slots, honest, steps[..|steps| - 1]);
      AgreementStep(Run(Initial(now, slots, honest), steps[..|steps| - 1]), steps[|steps| - 1]);
    }
  }

  // ----- agreement

  /**
    Call `i` carries proof `k`, made by the client of first flight `j` from that
    flight, with the cookie of challenge `h`, which named that flight and was minted
    for the address, peer, key and window the call was made under.
   */
  ghost predicate Agrees(log: seq<Event>, i: nat, j: nat, h: nat, k: nat)
    requires i < |log| && log[i].Called?
  {
    && j < k < i && h < k && SentAs(log, k, log[i].proof) && log[i].ip == log[i].proof.source.Unmap()
    && log[j].ClientSent? && log[j].client == log[k].client && log[j].packet.flags == NO_FLAGS
    && log[i].proof.digest.Proof?
    && log[k].packet == ProofOf(log[j].packet, log[k].packet.counter, log[k].packet.stamp, log[i].proof.digest.cookie)
    && log[k].packet.counter != log[j].packet.counter
    && ChallengeFor(log, h, log[j].packet, log[i].proof.digest.cookie) && CallMatches(log, log[i], h)
    && (exists r: nat :: r < h && RequestedAt(log, r, log[i].peer, log[j].packet.counter))
  }

  lemma RequestedBefore(log: seq<Event>, honest: set<seq<byte>>, h: nat)
    requires LogOk(log, honest) && h < |log| && log[h].Challenged? && log[h].peer in honest
    ensures exists r: nat :: r < h && RequestedAt(log, r, log[h].peer, log[h].transaction)
  {
    assert EventOk(log[..h], log[h], honest);
    var r: nat :| RequestedAt(log[..h], r, log[h].peer, log[h].transaction);
    assert RequestedAt(log, r, log[h].peer, log[h].transaction);
  }

  lemma FlightBefore(log: seq<Event>, honest: set<seq<byte>>, k: nat) returns (j: nat, h: nat)
    requires LogOk(log, honest) && k < |log| && log[k].ClientSent? && log[k].packet.flags != NO_FLAGS
    ensures j < k && h < k && FirstFlightOf(log[..k], j, log[k].client, log[k].packet)
    ensures ChallengeFor(log[..k], h, log[j].packet, log[k].packet.digest.cookie)
  {
    hide MintedBy;
    assert EventOk(log[..k], log[k], honest);
    j :| FirstFlightOf(log[..k], j, log[k].client, log[k].packet);
    h :| ChallengeFor(log[..k], h, log[..k][j].packet, log[k].packet.digest.cookie);
    ChallengeBelow(log[..k], h, log[j].packet, log[k].packet.digest.cookie);
  }

  lemma ChallengeBelow(log: seq<Event>, h: nat, first: Request, cookie: Cookie)
    requires ChallengeFor(log, h, first, cookie)
    ensures h < |log| && log[h].Challenged? && log[h].peer == first.peer && log[h].transaction == first.counter
  {
    hide Preimage;
  }

  lemma ChallengeInPrefix(log: seq<Event>, n: nat, h: nat, first: Request, cookie: Cookie)
    requires n <= |log| && ChallengeFor(log[..n], h, first, cookie)
    ensures ChallengeFor(log, h, first, cookie)
    ensures forall m :: n <= m <= |log| ==> MintedBy(log[..m], cookie, h)
  {
    hide Preimage;
  }

  lemma SentBefore(log: seq<Event>, honest: set<seq<byte>>, i: nat) returns (k: nat)
    requires LogOk(log, honest) && i < |log| && log[i].Called? && log[i].peer in honest
    ensures k < i && SentAs(log, k, log[i].proof)
  {
    assert EventOk(log[..i], log[i], honest);
    k :| SentAs(log[..i], k, log[i].proof);
  }

  /** Every sending of a call's proof begins a chain back to its exchange. */
  lemma CallChain(log: seq<Event>, honest: set<seq<byte>>, i: nat, k: nat) returns (j: nat, h: nat)
    requires LogOk(log, honest) && k < i < |log| && log[i].Called? && log[i].peer in honest
    requires SentAs(log, k, log[i].proof)
    ensures Agrees(log, i, j, h, k)
  {
    assert EventOk(log[..i], log[i], honest);
    var proof := log[i].proof;
    j, h := FlightBefore(log, honest, k);
    var first := log[j].packet;
    ChallengeBelow(log[..k], h, first, proof.digest.cookie);
    ChallengeInPrefix(log, k, h, first, proof.digest.cookie);
    assert MintedBy(log[..i], proof.digest.cookie, h);
    assert CallMatches(log[..i], log[i], h);
    RequestedBefore(log, honest, h);
    hide LogOk, EventOk, MintedBy;
    assert log[..k][j] == log[j];
  }

  /**
    In every run, a call for an honest peer agrees with an exchange of that peer's:
    its own first LST, a challenge that named it, and the proof it made from both,
    all before the call, with one body throughout.  The call has the address the
    exchange was begun from exactly if its proof arrived as from where it was sent.
   */
  lemma HonestCallAgrees(now: uint64, slots: Slots, honest: set<seq<byte>>, steps: seq<Step>, i: nat)
    requires var log := Run(Initial(now, slots, honest), steps).log;
             i < |log| && log[i].Called? && log[i].peer in honest
    ensures var log := Run(Initial(now, slots, honest), steps).log;
            exists j: nat, h: nat, k: nat ::
              Agrees(log, i, j, h, k) && log[i].proof.body == log[j].packet.body && AddressKept(log, i, j, k)
  {
    AgreementRun(now, slots, honest, steps);
    var log := Run(Initial(now, slots, honest), steps).log;
    hide Run;
    var k := SentBefore(log, honest, i);
    var j, h := CallChain(log, honest, i, k);
    AddressExact(log, i, j, h, k);
    assert Agrees(log, i, j, h, k) && log[i].proof.body == log[j].packet.body;
  }

  ghost predicate AddressKept(log: seq<Event>, i: nat, j: nat, k: nat)
    requires i < |log| && log[i].Called? && j < |log| && log[j].ClientSent? && k < |log| && log[k].ClientSent?
  {
    log[i].ip == log[j].packet.source.Unmap() <==> log[i].proof.source.Unmap() == log[k].packet.source.Unmap()
  }

  /** Whatever chain explains a call, its address is the client's exactly if the proof came as it was sent. */
  lemma AddressExact(log: seq<Event>, i: nat, j: nat, h: nat, k: nat)
    requires i < |log| && log[i].Called? && Agrees(log, i, j, h, k)
    ensures AddressKept(log, i, j, k)
  {
    hide MintedBy, CallMatches;
  }

  // ----- when nobody changes addresses

  /** The step puts no LST of an honest peer on the network that is not there already. */
  ghost predicate Direct(s: State, step: Step) {
    step.Inject? && step.packet.Lst? && step.packet.peer in s.honest ==> step.packet in s.network
  }

  ghost predicate DirectRun(s: State, steps: seq<Step>) {
    forall n :: 0 <= n < |steps| ==> Direct(Run(s, steps[..n]), steps[n])
  }

  ghost predicate SentOwn(log: seq<Event>, p: Request) {
    exists k: nat :: OwnAt(log, k, p)
  }

  /** Event `k` sent this very packet. */
  ghost predicate OwnAt(log: seq<Event>, k: nat, p: Request) {
    k < |log| && log[k].ClientSent? && log[k].packet == p
  }

  ghost predicate NetworkOwn(s: State) {
    forall p :: p in s.network && p.Lst? && p.peer in s.honest ==> SentOwn(s.log, p)
  }

  ghost predicate CallsOwn(log: seq<Event>, honest: set<seq<byte>>) {
    forall i :: 0 <= i < |log| && log[i].Called? && log[i].peer in honest ==> SentOwn(log[..i], log[i].proof)
  }

  lemma OwnGrows(log: seq<Event>, more: seq<Event>, p: Request)
    requires SentOwn(log, p)
    ensures SentOwn(log + more, p)
  {
    var k: nat :| OwnAt(log, k, p);
    assert OwnAt(log + more, k, p);
  }

  lemma NewPacketOwn(s: State, step: Step, p: Packet)
    requires Direct(s, step) && p in Apply(s, step).network && p !in s.network && p.Lst? && p.peer in s.honest
    ensures SentOwn(Apply(s, step).log, p)
  {
    hide HubReaction, CanInject, Usable;
    assert OwnAt(Apply(s, step).log, |s.log|, p);
  }

  lemma NewCall(s: State, step: Step, i: nat)
    requires |s.log| <= i < |Apply(s, step).log| && Apply(s, step).log[i].Called?
    ensures Apply(s, step).log[i].proof in s.network && Apply(s, step).log[i].proof.peer == Apply(s, step).log[i].peer
  {
    hide HubReaction, CanInject, Usable;
  }

  lemma DirectStep(s: State, step: Step)
    requires Direct(s, step) && NetworkOwn(s) && CallsOwn(s.log, s.honest)
    ensures NetworkOwn(Apply(s, step)) && CallsOwn(Apply(s, step).log, s.honest) && Apply(s, step).honest == s.honest
  {
    var t := Apply(s, step);
    assert t.honest == s.honest;
    var more := LogGrowth(s, step);
    hide Apply, SentOwn, Direct;
    forall p | p in t.network && p.Lst? && p.peer in t.honest ensures SentOwn(t.log, p) {
      if p in s.network {
        OwnGrows(s.log, more, p);
      } else {
        NewPacketOwn(s, step, p);
      }
    }
    forall i | 0 <= i < |t.log| && t.log[i].Called? && t.log[i].peer in s.honest
      ensures SentOwn(t.log[..i], t.log[i].proof)
    {
      if i < |s.log| {
        assert t.log[..i] == s.log[..i];
      } else {
        NewCall(s, step, i);
        assert t.log[..i] == s.log + more[..i - |s.log|];
        OwnGrows(s.log, more[..i - |s.log|], t.log[i].proof);
      }
    }
  }

  lemma {:induction false} DirectRunOwn(s: State, steps: seq<Step>)
    requires DirectRun(s, steps) && s.log == [] && s.network == {}
    ensures NetworkOwn(Run(s, steps)) && CallsOwn(Run(s, steps).log, s.honest) && Run(s, steps).honest == s.honest
  {
    if steps != [] {
      var n := |steps| - 1;
      forall m | 0 <= m < n ensures Direct(Run(s, steps[..n][..m]), steps[..n][m]) {
        assert steps[..n][..m] == steps[..m];
      }
      DirectRunOwn(s, steps[..n]);
      DirectStep(Run(s, steps[..n]), steps[n]);
    }
  }

  /**
    If nobody sends on an honest peer's LST under another address, every call for an
    honest peer carries the very proof its client sent, and the address that client
    began the exchange from.
   */
  lemma DirectCallAgrees(now: uint64, slots: Slots, honest: set<seq<byte>>, steps: seq<Step>, i: nat)
    requires DirectRun(Initial(now, slots, honest), steps)
    requires var log := Run(Initial(now, slots, honest), steps).log;
             i < |log| && log[i].Called? && log[i].peer in honest
    ensures var log := Run(Initial(now, slots, honest), steps).log;
            exists j: nat, h: nat, k: nat ::
              Agrees(log, i, j, h, k) && log[k].packet == log[i].proof && log[i].ip == log[j].packet.source.Unmap()
  {
    AgreementRun(now, slots, honest, steps);
    DirectRunOwn(Initial(now, slots, honest), steps);
    var log := Run(Initial(now, slots, honest), steps).log;
    hide Run, DirectRun, LogOk, NetworkSent, NetworkOwn, AwaitingSent, CoksAnnounced;
    var k: nat :| OwnAt(log[..i], k, log[i].proof);
    assert SentAs(log, k, log[i].proof);
    var j, h := CallChain(log, honest, i, k);
    AddressExact(log, i, j, h, k);
    assert Agrees(log, i, j, h, k) && log[k].packet == log[i].proof;
  }

  // ----- distinct calls

  lemma {:induction false} SendsContain(log: seq<Event>, k: nat)
    requires k < |log| && log[k].ClientSent?
    ensures log[k] in Sends(log, log[k].client)
  {
    var n := |log| - 1;
    if k < n {
      SendsContain(log[..n], k);
    }
  }

  /** Two calls for honest peers never come from the proof, nor from the client, of one exchange. */
  lemma DistinctExchanges(now: uint64, slots: Slots, honest: set<seq<byte>>, steps: seq<Step>,
                          i: nat, i': nat, k: nat, k': nat)
    requires var log := Run(Initial(now, slots, honest), steps).log;
             i < i' < |log| && log[i].Called? && log[i'].Called? && log[i].peer in honest && log[i'].peer in honest
             && SentAs(log, k, log[i].proof) && SentAs(log, k', log[i'].proof)
    ensures var log := Run(Initial(now, slots, honest), steps).log; log[k].client != log[k'].client
  {
    hide Run;
    var s := Run(Initial(now, slots, honest), steps);
    ProofDispatchedOnce(now, slots, honest, steps);
    AgreementRun(now, slots, honest, steps);
    ClientSendsTwice(now, slots, honest, steps, s.log[k].client);
    CalledAreProofs(s.log, honest, i);
    CalledAreProofs(s.log, honest, i');
    SamePacketServed(s, i, i');
    SamePacketId(s.log, k, k', s.log[i].proof, s.log[i'].proof);
    OneProofEach(s, k, k');
  }

  lemma SamePacketId(log: seq<Event>, k: nat, k': nat, p: Request, q: Request)
    requires SentAs(log, k, p) && SentAs(log, k', q)
    ensures log[k].packet == log[k'].packet ==> PacketId(p) == PacketId(q)
  {
  }

  lemma SamePacketServed(s: State, i: nat, i': nat)
    requires ServedOnce(s) && i < i' < |s.log| && s.log[i].Called? && s.log[i'].Called?
    ensures PacketId(s.log[i].proof) != PacketId(s.log[i'].proof)
  {
  }

  lemma OneProofEach(s: State, k: nat, k': nat)
    requires k < |s.log| && k' < |s.log| && s.log[k].ClientSent? && s.log[k'].ClientSent?
    requires ClientInOrder(s, s.log[k].client) && s.log[k].packet.flags == s.log[k'].packet.flags == PROOF_FLAG
    ensures s.log[k].client == s.log[k'].client ==> s.log[k] == s.log[k']
  {
    hide *;
    SendsContain(s.log, k);
    SendsContain(s.log, k');
    FlagsDiffer();
    OneProofSent(s, s.log[k].client, s.log[k], s.log[k']);
  }

  lemma FlagsDiffer()
    ensures NO_FLAGS != PROOF_FLAG
  {
  }

  lemma OneProofSent(s: State, id: nat, a: Event, b: Event)
    requires ClientInOrder(s, id) && NO_FLAGS != PROOF_FLAG && a.ClientSent? && b.ClientSent?
    requires a.packet.flags == b.packet.flags == PROOF_FLAG && a in Sends(s.log, id)
    ensures b in Sends(s.log, id) ==> a == b
  {
    hide Sends, Answered;
  }

  lemma CalledAreProofs(log: seq<Event>, honest: set<seq<byte>>, i: nat)
    requires LogOk(log, honest) && i < |log| && log[i].Called?
    ensures log[i].proof.flags == PROOF_FLAG
  {
    assert EventOk(log[..i], log[i], honest);
  }

  // ----- when somebody does

  /** The client starts, its LST is sent on from elsewhere, and the COK comes back to it. */
  function Relayed(now: uint64, key: Key, first: Request, other: SourceAddress, counter: uint64, stamp: nat): State
    requires !other.HasZone() && |first.peer| == PEER_OCTETS
  {
    var moved := first.(source := other);
    var cookie := Mint(key, other, first.peer, Window(now)).value;
    var s1 := Apply(Initial(now, Slots(Some(key), None), {first.peer}), Start(0, first));
    var s3 := Apply(Apply(s1, Inject(moved)), HubReceives(moved, true, 0));
    Apply(s3, ClientReceives(0, Cok(true, first.peer, NO_FLAGS, first.counter, cookie, true), counter, stamp))
  }

  /** Then its proof is sent on from there as well, and the Hub receives it. */
  function RelayedCall(now: uint64, key: Key, first: Request, other: SourceAddress, counter: uint64, stamp: nat,
                       bytes: nat): State
    requires !other.HasZone() && |first.peer| == PEER_OCTETS
  {
    var moved := MovedProof(now, key, first, other, counter, stamp);
    Apply(Apply(Relayed(now, key, first, other, counter, stamp), Inject(moved)), HubReceives(moved, true, bytes))
  }

  function MovedProof(now: uint64, key: Key, first: Request, other: SourceAddress, counter: uint64, stamp: nat): Request
    requires !other.HasZone() && |first.peer| == PEER_OCTETS
  {
    var proof: Request := ProofOf(first, counter, stamp, Mint(key, other, first.peer, Window(now)).value);
    assert proof.Lst?;
    proof.(source := other)
  }

  lemma RelayedProof(now: uint64, key: Key, first: Request, other: SourceAddress, counter: uint64, stamp: nat)
    requires first.flags == NO_FLAGS && first.digest == Plain && !other.HasZone() && |first.peer| == PEER_OCTETS
    requires ChallengePacket(first.counter) < first.size && counter != first.counter
    ensures var s := Relayed(now, key, first, other, counter, stamp);
            var proof := ProofOf(first, counter, stamp, Mint(key, other, first.peer, Window(now)).value);
            && |s.log| == 4 && s.log[0] == ClientSent(0, first) && s.log[3] == ClientSent(0, proof)
            && proof in s.network && s.now == now && s.slots == Slots(Some(key), None) && s.honest == {first.peer}
            && s.served == {}
  {
    var moved := first.(source := other);
    var s0 := Initial(now, Slots(Some(key), None), {first.peer});
    var s1 := Apply(s0, Start(0, first));
    assert Readdressed(moved, first) && first in s1.network;
    var s2 := Apply(s1, Inject(moved));
    assert moved in s2.network && s2.log == s1.log == [ClientSent(0, first)];
    hide Mint, Proven, CanInject;
    var cookie := MintedElsewhere(key, other, first.peer, now);
    var s3 := Apply(s2, HubReceives(moved, true, 0));
    assert s3.log == s2.log + [Received(other.Unmap(), first.size), ChallengeEvent(s2, moved)];
    assert Cok(true, first.peer, NO_FLAGS, first.counter, cookie, true) in s3.network;
  }

  lemma MintedElsewhere(key: Key, other: SourceAddress, peer: seq<byte>, now: uint64) returns (cookie: Cookie)
    requires !other.HasZone() && |peer| == PEER_OCTETS
    ensures Mint(key, other, peer, Window(now)) == Some(cookie)
  {
    cookie := Mint(key, other, peer, Window(now)).value;
  }

  /**
    The source address of an LST is not authenticated: when somebody sends on both
    flights of an honest client from another address and relays the COK, the
    Authority is called for that other address, with the client's own body.
   */
  lemma ChallengeElsewhere(now: uint64, key: Key, first: Request, other: SourceAddress, counter: uint64, stamp: nat,
                           bytes: nat)
    requires first.flags == NO_FLAGS && first.digest == Plain && !other.HasZone() && |first.peer| == PEER_OCTETS
    requires first.body.InitialAssignment? || first.body.RefreshAssignment?
    requires ChallengePacket(first.counter) < first.size && counter != first.counter
    requires other.Unmap() != first.source.Unmap()
    ensures var s := RelayedCall(now, key, first, other, counter, stamp, bytes);
            && |s.log| == 6 && s.log[0] == ClientSent(0, first) && s.log[5].Called?
            && s.log[5].peer == first.peer && first.peer in s.honest && s.log[5].proof.body == first.body
            && s.log[5].ip == other.Unmap() != first.source.Unmap()
  {
    hide Apply, Relayed, Mint, Proven, Window, ChallengePacket, ProofOf, MovedProof, Readdressed, PacketId;
    var s := Relayed(now, key, first, other, counter, stamp);
    var moved := MovedProof(now, key, first, other, counter, stamp);
    RelayedProof(now, key, first, other, counter, stamp);
    MovedProven(now, key, first, other, counter, stamp);
    InjectMoved(s, moved);
    ProofServed(Apply(s, Inject(moved)), moved, bytes);
    HonestKept(Apply(s, Inject(moved)), HubReceives(moved, true, bytes));
  }

  lemma HonestKept(s: State, step: Step)
    ensures Apply(s, step).honest == s.honest
  {
    hide HubReaction, CanInject, Usable;
  }

  lemma MovedProven(now: uint64, key: Key, first: Request, other: SourceAddress, counter: uint64, stamp: nat)
    requires !other.HasZone() && |first.peer| == PEER_OCTETS
    ensures var moved := MovedProof(now, key, first, other, counter, stamp);
            var proof := ProofOf(first, counter, stamp, Mint(key, other, first.peer, Window(now)).value);
            Proven(Slots(Some(key), None), now, moved) && Readdressed(moved, proof) && moved.flags == PROOF_FLAG
            && moved.source == other && moved.peer == first.peer && moved.body == first.body
  {
    var moved := MovedProof(now, key, first, other, counter, stamp);
    var cookie := MintedElsewhere(key, other, first.peer, now);
    ProvenExact(Slots(Some(key), None), now, moved, key, other, first.peer, Window(now));
    hide Mint, Proven, Window;
  }

  lemma InjectMoved(s: State, moved: Request)
    requires exists proof :: proof in s.network && proof.Lst? && Readdressed(moved, proof)
    requires moved.peer in s.honest
    ensures Apply(s, Inject(moved)) == s.(network := s.network + {moved})
  {
  }
}
