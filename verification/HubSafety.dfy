/** What every run of the Hub exchange keeps. */
module HubSafety {
  import opened BitStream
  import opened HubCookie
  import opened HubProtocol
  import opened Wrappers

  // ----- Authority calls are preceded by the challenge they answer

  /** Event `j` minted the cookie. */
  ghost predicate MintedBy(log: seq<Event>, cookie: Cookie, j: nat) {
    j < |log| && log[j].Challenged? && log[j].ip.Valid() && log[j].ip.Unmap() == log[j].ip
    && cookie.Mac? && cookie.key == log[j].key
    && Preimage(Some(log[j].ip), log[j].peer, log[j].window) == Some(cookie.preimage)
  }

  ghost predicate Minted(log: seq<Event>, cookie: Cookie) {
    cookie.Mac? ==> exists j: nat :: MintedBy(log, cookie, j)
  }

  function CookieOf(p: Packet): Option<Cookie> {
    if p.Cok? then Some(p.cookie) else if p.Lst? && p.digest.Proof? then Some(p.digest.cookie) else None
  }

  ghost predicate NetworkMinted(s: State) {
    forall p :: p in s.network && CookieOf(p).Some? ==> Minted(s.log, CookieOf(p).value)
  }

  /** The proof of a call: under the proof flag, for an assignment, from its address and peer. */
  ghost predicate CarriesAssignment(call: Event)
    requires call.Called?
  {
    && (call.proof.body.InitialAssignment? || call.proof.body.RefreshAssignment?) && call.proof.flags == 4
    && call.ip == call.proof.source.Unmap() && call.peer == call.proof.peer
  }

  /** Event `j` is the challenge that call `i` answers. */
  ghost predicate Answers(log: seq<Event>, i: nat, j: nat)
    requires i < |log| && log[i].Called?
  {
    && j < i && log[j].Challenged?
    && log[j].ip == log[i].ip && log[j].peer == log[i].peer
    && HoldsKey(log[i].slots, log[j].key) && Fresh(log[j].window, log[i].window)
    && CarriesAssignment(log[i])
  }

  ghost predicate CallsAnswered(log: seq<Event>) {
    forall i :: 0 <= i < |log| && log[i].Called? ==> exists j: nat :: Answers(log, i, j)
  }

  ghost predicate Sound(s: State) {
    NetworkMinted(s) && CallsAnswered(s.log)
  }

  lemma MintedGrows(log: seq<Event>, more: seq<Event>, cookie: Cookie)
    requires Minted(log, cookie)
    ensures Minted(log + more, cookie)
  {
    if cookie.Mac? {
      var j: nat :| MintedBy(log, cookie, j);
      assert MintedBy(log + more, cookie, j);
    }
  }

  lemma CallsAnsweredGrows(log: seq<Event>, more: seq<Event>)
    requires CallsAnswered(log) && forall i :: 0 <= i < |more| ==> !more[i].Called?
    ensures CallsAnswered(log + more)
  {
    var longer := log + more;
    forall i | 0 <= i < |longer| && longer[i].Called? ensures exists j: nat :: Answers(longer, i, j) {
      var j: nat :| Answers(log, i, j);
      assert Answers(longer, i, j);
    }
  }

  /** A packet that proves itself carries a cookie minted for its own address, peer and window. */
  lemma ProvenAnswers(s: State, p: Packet)
    requires Sound(s) && p in s.network && p.Lst? && Proven(s.slots, s.now, p)
    ensures exists j: nat ::
              j < |s.log| && s.log[j].Challenged? && s.log[j].ip == p.source.Unmap() && s.log[j].peer == p.peer
              && HoldsKey(s.slots, s.log[j].key) && Fresh(s.log[j].window, Window(s.now))
  {
    hide Preimage;
    var c :| c in Candidates(s.slots, Window(s.now)) && Matches(c, p);
    var cookie := p.digest.cookie;
    assert CookieOf(p) == Some(cookie);
    var j: nat :| MintedBy(s.log, cookie, j);
    PreimageInjective(p.source, p.peer, c.1, s.log[j].ip, s.log[j].peer, s.log[j].window);
    CandidatesExact(s.slots, Window(s.now), c.0, c.1);
  }

  /** More log and more packets with minted cookies keep the network minted. */
  lemma NetworkMintedGrows(s: State, t: State, more: seq<Event>, p: Packet)
    requires NetworkMinted(s) && t.log == s.log + more
    requires t.network <= s.network + {p} && (p !in s.network && CookieOf(p).Some? ==> Minted(t.log, CookieOf(p).value))
    ensures NetworkMinted(t)
  {
    forall q | q in t.network && CookieOf(q).Some? ensures Minted(t.log, CookieOf(q).value) {
      if q in s.network {
        MintedGrows(s.log, more, CookieOf(q).value);
      }
    }
  }

  lemma AvailableIsMinted(s: State, cookie: Cookie)
    requires NetworkMinted(s) && Available(s.network, cookie)
    ensures Minted(s.log, cookie)
  {
    if cookie.Mac? {
      var p :| p in s.network && p.Cok? && p.cookie == cookie;
      assert CookieOf(p) == Some(cookie);
    }
  }

  lemma InjectedIsMinted(s: State, p: Packet)
    requires NetworkMinted(s) && CanInject(s, p) && CookieOf(p).Some?
    ensures Minted(s.log, CookieOf(p).value)
  {
    if p.Lst? && p.peer in s.honest {
      var q :| q in s.network && q.Lst? && Readdressed(p, q);
      assert CookieOf(q) == CookieOf(p);
    } else {
      AvailableIsMinted(s, CookieOf(p).value);
    }
  }

  lemma ChallengeSound(s: State, p: Packet, admit: bool, bytes: nat)
    requires Sound(s) && p.Lst? && HubReaction(s, p, admit).Challenge?
    ensures Sound(HubStep(s, p, admit, bytes))
  {
    var t, ip := HubStep(s, p, admit, bytes), p.source.Unmap();
    var cookie := HubReaction(s, p, admit).cookie;
    var more := [Received(ip, p.size), ChallengeEvent(s, p)];
    assert t.log == s.log + more;
    UnmapTwice(p.source);
    MintSame(cookie.key, ip, p.source, p.peer, Window(s.now));
    assert MintedBy(t.log, cookie, |s.log| + 1);
    CallsAnsweredGrows(s.log, more);
    NetworkMintedGrows(s, t, more, Cok(true, p.peer, NO_FLAGS, p.counter, cookie, true));
  }

  lemma CallAppended(log: seq<Event>, call: Event, j: nat)
    requires CallsAnswered(log) && call.Called? && j < |log| && log[j].Challenged?
    requires log[j].ip == call.ip && log[j].peer == call.peer
    requires HoldsKey(call.slots, log[j].key) && Fresh(log[j].window, call.window) && CarriesAssignment(call)
    ensures CallsAnswered(log + [call])
  {
    var longer := log + [call];
    forall i | 0 <= i < |longer| && longer[i].Called? ensures exists j: nat :: Answers(longer, i, j) {
      if i < |log| {
        var k: nat :| Answers(log, i, k);
        assert Answers(longer, i, k);
      } else {
        assert Answers(longer, i, j);
      }
    }
  }

  lemma ServeStep(s: State, p: Packet, admit: bool, bytes: nat)
    requires p.Lst? && HubReaction(s, p, admit).Serve?
    ensures var t, ip := HubStep(s, p, admit, bytes), p.source.Unmap();
            t.network == s.network + {Lrt(true, p.peer, p.counter)}
            && t.log == s.log + [Received(ip, p.size), Called(ip, p.peer, Window(s.now), s.slots, p, bytes)]
    ensures Proven(s.slots, s.now, p)
    ensures CarriesAssignment(Called(p.source.Unmap(), p.peer, Window(s.now), s.slots, p, bytes))
  {
    hide Proven, Window, PacketId;
  }

  lemma ServeSound(s: State, p: Packet, admit: bool, bytes: nat)
    requires Sound(s) && p in s.network && p.Lst? && HubReaction(s, p, admit).Serve?
    ensures Sound(HubStep(s, p, admit, bytes))
  {
    hide HubStep, HubReaction, Proven, CallsAnswered, NetworkMinted, HoldsKey, Fresh, Window;
    var t, ip := HubStep(s, p, admit, bytes), p.source.Unmap();
    var received, call := Received(ip, p.size), Called(ip, p.peer, Window(s.now), s.slots, p, bytes);
    ServeStep(s, p, admit, bytes);
    ProvenAnswers(s, p);
    var j: nat :| j < |s.log| && s.log[j].Challenged? && s.log[j].ip == ip && s.log[j].peer == p.peer
                  && HoldsKey(s.slots, s.log[j].key) && Fresh(s.log[j].window, Window(s.now));
    CallsAnsweredGrows(s.log, [received]);
    CallAppended(s.log + [received], call, j);
    assert t.log == s.log + [received] + [call] == s.log + [received, call];
    NetworkMintedGrows(s, t, [received, call], Lrt(true, p.peer, p.counter));
  }

  lemma SoundStep(s: State, step: Step)
    requires Sound(s)
    ensures Sound(Apply(s, step))
  {
    var t := Apply(s, step);
    match step
    case Tick(_) =>
    case Rekey(_) =>
    case Inject(p) =>
      if CanInject(s, p) {
        if CookieOf(p).Some? {
          InjectedIsMinted(s, p);
        }
        NetworkMintedGrows(s, t, [], p);
      }
    case Start(id, first) =>
      if t.log != s.log {
        NetworkMintedGrows(s, t, [ClientSent(id, first)], first);
        CallsAnsweredGrows(s.log, [ClientSent(id, first)]);
      }
    case HubReceives(p, admit, bytes) =>
      if p in s.network && p.Lst? {
        match HubReaction(s, p, admit) {
          case Drop =>
            var more := [Received(p.source.Unmap(), p.size)];
            NetworkMintedGrows(s, t, more, p);
            CallsAnsweredGrows(s.log, more);
          case Challenge(_) => ChallengeSound(s, p, admit, bytes);
          case Serve => ServeSound(s, p, admit, bytes);
        }
      }
    case ClientReceives(id, p, counter, stamp) =>
      if p in s.network && id in s.clients {
        ClientSound(s, id, p, counter, stamp);
      }
  }

  lemma ClientSound(s: State, id: nat, p: Packet, counter: uint64, stamp: nat)
    requires Sound(s) && p in s.network && id in s.clients
    ensures Sound(ClientStep(s, id, p, counter, stamp))
  {
    var t, c := ClientStep(s, id, p, counter, stamp), s.clients[id];
    if t.log != s.log {
      assert CookieOf(p) == Some(p.cookie);
      var proof := ProofOf(c.first, counter, stamp, p.cookie);
      var more := [ClientSent(id, proof)];
      MintedGrows(s.log, more, p.cookie);
      CallsAnsweredGrows(s.log, more);
      NetworkMintedGrows(s, t, more, proof);
    }
  }

  lemma {:induction false} SoundRun(now: uint64, slots: Slots, honest: set<seq<byte>>, steps: seq<Step>)
    ensures Sound(Run(Initial(now, slots, honest), steps))
  {
    if steps != [] {
      SoundRun(now, slots, honest, steps[..|steps| - 1]);
      SoundStep(Run(Initial(now, slots, honest), steps[..|steps| - 1]), steps[|steps| - 1]);
    }
  }

  /**
    In every run, an Authority call for an address and a peer comes after a COK
    minted for the same unmapped address and the same peer, under a key that is
    still in a slot and in the current or the previous window, and what it carries is
    an initial or a refresh assignment.
   */
  lemma AuthorityOnlyAfterChallenge(now: uint64, slots: Slots, honest: set<seq<byte>>, steps: seq<Step>, i: nat)
    requires var log := Run(Initial(now, slots, honest), steps).log; i < |log| && log[i].Called?
    ensures var log := Run(Initial(now, slots, honest), steps).log; exists j: nat :: Answers(log, i, j)
  {
    SoundRun(now, slots, honest, steps);
  }

  // ----- how the log grows

  /** One step logs nothing, one receipt or sending, or a receipt and the reaction to it. */
  lemma LogGrowth(s: State, step: Step) returns (more: seq<Event>)
    ensures Apply(s, step).log == s.log + more && |more| <= 2
    ensures |more| == 1 ==> more[0].Received? || more[0].ClientSent?
    ensures |more| == 2 ==> more[0].Received? && (more[1].Challenged? || more[1].Called?) && more[1].ip == more[0].ip
    ensures |more| == 2 && more[1].Challenged? ==> more[1].bytes < more[0].bytes
    ensures !step.Start? && !step.ClientReceives? ==>
              Apply(s, step).clients == s.clients && (|more| == 1 ==> more[0].Received?)
  {
    hide Proven, Mint;
    more := Apply(s, step).log[|s.log|..];
  }

  // ----- amplification

  function BytesIn(log: seq<Event>, ip: Address): nat {
    if log == [] then 0
    else
      var e := log[|log| - 1];
      BytesIn(log[..|log| - 1], ip) + if e.Received? && e.ip == ip then e.bytes else 0
  }

  function BytesOut(log: seq<Event>, ip: Address): nat {
    if log == [] then 0
    else
      var e := log[|log| - 1];
      BytesOut(log[..|log| - 1], ip) + if (e.Challenged? || e.Called?) && e.ip == ip then e.bytes else 0
  }

  ghost predicate ProvenBefore(log: seq<Event>, ip: Address) {
    exists i :: 0 <= i < |log| && log[i].Called? && log[i].ip == ip
  }

  ghost predicate Dampened(log: seq<Event>, ip: Address) {
    ProvenBefore(log, ip) || BytesOut(log, ip) == 0 || BytesOut(log, ip) < BytesIn(log, ip)
  }

  lemma ProvenBeforeGrows(log: seq<Event>, e: Event, ip: Address)
    ensures ProvenBefore(log + [e], ip) <==> ProvenBefore(log, ip) || (e.Called? && e.ip == ip)
  {
    var longer := log + [e];
    assert longer[|log|] == e && forall i :: 0 <= i < |log| ==> longer[i] == log[i];
  }

  lemma BytesAppend(log: seq<Event>, e: Event, ip: Address)
    ensures BytesIn(log + [e], ip) == BytesIn(log, ip) + if e.Received? && e.ip == ip then e.bytes else 0
    ensures BytesOut(log + [e], ip)
            == BytesOut(log, ip) + if (e.Challenged? || e.Called?) && e.ip == ip then e.bytes else 0
  {
    assert (log + [e])[..|log|] == log;
  }

  lemma DampenedStep(s: State, step: Step, ip: Address)
    requires Dampened(s.log, ip)
    ensures Dampened(Apply(s, step).log, ip)
  {
    var more := LogGrowth(s, step);
    hide Apply;
    if |more| >= 1 {
      BytesAppend(s.log, more[0], ip);
      ProvenBeforeGrows(s.log, more[0], ip);
      if |more| == 2 {
        BytesAppend(s.log + [more[0]], more[1], ip);
        ProvenBeforeGrows(s.log + [more[0]], more[1], ip);
        assert s.log + more == s.log + [more[0]] + [more[1]];
      }
    }
    assert s.log + [] == s.log;
  }

  /** Until a source has proven itself, whatever the Hub sent it is strictly less than what came from it. */
  lemma {:induction false} NoAmplificationBeforeProof(now: uint64, slots: Slots, honest: set<seq<byte>>,
                                                      steps: seq<Step>, ip: Address)
    ensures Dampened(Run(Initial(now, slots, honest), steps).log, ip)
  {
    if steps != [] {
      NoAmplificationBeforeProof(now, slots, honest, steps[..|steps| - 1], ip);
      DampenedStep(Run(Initial(now, slots, honest), steps[..|steps| - 1]), steps[|steps| - 1], ip);
    }
  }

  // ----- one dispatch for each proof packet

  ghost predicate ServedOnce(s: State) {
    && (forall i :: 0 <= i < |s.log| && s.log[i].Called? ==> PacketId(s.log[i].proof) in s.served)
    && (forall i, j :: 0 <= i < j < |s.log| && s.log[i].Called? && s.log[j].Called? ==>
          PacketId(s.log[i].proof) != PacketId(s.log[j].proof))
  }

  lemma ServedOnceStep(s: State, step: Step)
    requires ServedOnce(s)
    ensures ServedOnce(Apply(s, step))
  {
    hide Proven, Mint;
  }

  /** However often a captured proof is delivered, it reaches the Authority at most once. */
  lemma {:induction false} ProofDispatchedOnce(now: uint64, slots: Slots, honest: set<seq<byte>>, steps: seq<Step>)
    ensures ServedOnce(Run(Initial(now, slots, honest), steps))
  {
    if steps != [] {
      ProofDispatchedOnce(now, slots, honest, steps[..|steps| - 1]);
      ServedOnceStep(Run(Initial(now, slots, honest), steps[..|steps| - 1]), steps[|steps| - 1]);
    }
  }

  // ----- the client's two flights

  function Sends(log: seq<Event>, id: nat): seq<Event> {
    if log == [] then []
    else
      var e := log[|log| - 1];
      Sends(log[..|log| - 1], id) + if e.ClientSent? && e.client == id then [e] else []
  }

  /** Event `h` challenged this peer for this transaction and minted the cookie. */
  ghost predicate ChallengeFor(log: seq<Event>, h: nat, first: Request, cookie: Cookie) {
    MintedBy(log, cookie, h) && log[h].peer == first.peer && log[h].transaction == first.counter
  }

  /** `q` is the proof for `p` with a cookie from a challenge of the same peer that names `p`. */
  ghost predicate Answered(log: seq<Event>, p: Request, q: Request) {
    q.digest.Proof? && q == ProofOf(p, q.counter, q.stamp, q.digest.cookie) && q.counter != p.counter
    && exists h: nat :: ChallengeFor(log, h, p, q.digest.cookie)
  }

  /** At most two LSTs: one without flags, and the proof made from it. */
  ghost predicate TwoFlights(log: seq<Event>, sends: seq<Event>) {
    |sends| <= 2 && (forall e :: e in sends ==> e.ClientSent?)
    && (|sends| >= 1 ==> sends[0].packet.flags == NO_FLAGS)
    && (|sends| == 2 ==> Answered(log, sends[0].packet, sends[1].packet))
  }

  ghost predicate ClientInOrder(s: State, id: nat) {
    var sends := Sends(s.log, id);
    && TwoFlights(s.log, sends)
    && (id !in s.clients ==> sends == [])
    && (id in s.clients && s.clients[id].AwaitCok? ==> sends == [ClientSent(id, s.clients[id].first)])
  }

  /** Every COK of the Hub's is the reply it recorded. */
  ghost predicate CoksAnnounced(s: State) {
    forall p :: p in s.network && p.Cok? && p.authentic ==> Announced(s.log, p)
  }

  ghost predicate Announced(log: seq<Event>, p: Packet)
    requires p.Cok?
  {
    exists h: nat :: MintedBy(log, p.cookie, h) && log[h].peer == p.peer && log[h].transaction == p.transaction
  }

  lemma AnnouncedGrows(log: seq<Event>, more: seq<Event>, p: Packet)
    requires p.Cok? && Announced(log, p)
    ensures Announced(log + more, p)
  {
    hide Preimage;
    var h: nat :| MintedBy(log, p.cookie, h) && log[h].peer == p.peer && log[h].transaction == p.transaction;
    assert MintedBy(log + more, p.cookie, h);
  }

  lemma AnsweredGrows(log: seq<Event>, more: seq<Event>, p: Request, q: Request)
    requires Answered(log, p, q)
    ensures Answered(log + more, p, q)
  {
    hide Preimage;
    var h: nat :| ChallengeFor(log, h, p, q.digest.cookie);
    assert ChallengeFor(log + more, h, p, q.digest.cookie);
  }

  lemma SendsAppend(log: seq<Event>, e: Event, id: nat)
    ensures Sends(log + [e], id) == Sends(log, id) + if e.ClientSent? && e.client == id then [e] else []
  {
    assert (log + [e])[..|log|] == log;
  }

  lemma SendsGrow(log: seq<Event>, more: seq<Event>, id: nat)
    requires |more| <= 2 && (|more| == 2 ==> !more[0].ClientSent? && !more[1].ClientSent?)
    ensures Sends(log + more, id)
            == Sends(log, id) + if |more| == 1 && more[0].ClientSent? && more[0].client == id then more else []
  {
    if |more| == 0 {
      assert log + more == log;
    } else {
      SendsAppend(log, more[0], id);
      if |more| == 2 {
        SendsAppend(log + [more[0]], more[1], id);
        assert log + more == log + [more[0]] + [more[1]];
      } else {
        assert more == [more[0]];
      }
    }
  }

  /** Growth that is no sending of this client and leaves the client alone. */
  lemma KeepsOrder(s: State, t: State, more: seq<Event>, id: nat)
    requires ClientInOrder(s, id) && t.log == s.log + more
    requires |more| <= 2 && (|more| == 2 ==> !more[0].ClientSent? && !more[1].ClientSent?)
    requires |more| == 1 && more[0].ClientSent? ==> more[0].client != id
    requires id in t.clients && t.clients[id].AwaitCok? ==> id in s.clients && t.clients[id] == s.clients[id]
    requires id in s.clients ==> id in t.clients
    ensures ClientInOrder(t, id)
  {
    SendsGrow(s.log, more, id);
    var sends := Sends(s.log, id);
    hide Sends, Answered;
    assert Sends(t.log, id) == sends + [] == sends;
    if |sends| == 2 {
      AnsweredGrows(s.log, more, sends[0].packet, sends[1].packet);
    }
  }

  /** The first sending of a client. */
  lemma FirstSend(s: State, t: State, first: Request, id: nat)
    requires ClientInOrder(s, id) && id !in s.clients && t.log == s.log + [ClientSent(id, first)]
    requires first.flags == NO_FLAGS && id in t.clients && t.clients[id] == AwaitCok(first)
    ensures ClientInOrder(t, id)
  {
    SendsAppend(s.log, ClientSent(id, first), id);
    hide Sends, Answered;
    assert Sends(t.log, id) == [] + [ClientSent(id, first)] == [ClientSent(id, first)];
  }

  /** The second one, in reply to a COK the Hub recorded. */
  lemma SecondSend(s: State, t: State, p: Packet, id: nat, counter: uint64, stamp: nat)
    requires ClientInOrder(s, id) && id in s.clients && s.clients[id].AwaitCok?
    requires p.Cok? && Usable(p, s.clients[id].first) && Announced(s.log, p)
    requires counter != s.clients[id].first.counter
    requires t.log == s.log + [ClientSent(id, ProofOf(s.clients[id].first, counter, stamp, p.cookie))]
    requires id in t.clients && t.clients[id].AwaitLrt?
    ensures ClientInOrder(t, id)
  {
    hide Sends, Answered, Announced, Usable, ProofOf;
    var first := s.clients[id].first;
    var proof := ProofOf(first, counter, stamp, p.cookie);
    var sent := ClientSent(id, proof);
    AnnouncedGrows(s.log, [sent], p);
    ProofAnswers(t.log, p, first, counter, stamp);
    SendsAppend(s.log, sent, id);
    assert Sends(t.log, id) == [ClientSent(id, first)] + [sent] == [ClientSent(id, first), sent];
    AwaitedFlag(s, id);
  }

  lemma AwaitedFlag(s: State, id: nat)
    requires ClientInOrder(s, id) && id in s.clients && s.clients[id].AwaitCok?
    ensures s.clients[id].first.flags == NO_FLAGS
  {
    hide Sends, Answered;
    assert [ClientSent(id, s.clients[id].first)][0].packet == s.clients[id].first;
  }

  lemma ProofAnswers(log: seq<Event>, p: Packet, first: Request, counter: uint64, stamp: nat)
    requires Usable(p, first) && Announced(log, p) && counter != first.counter
    ensures Answered(log, first, ProofOf(first, counter, stamp, p.cookie))
  {
    hide Preimage;
    var h: nat :| MintedBy(log, p.cookie, h) && log[h].peer == p.peer && log[h].transaction == p.transaction;
    assert ChallengeFor(log, h, first, p.cookie);
  }

  lemma ClientInOrderStep(s: State, step: Step, id: nat)
    requires CoksAnnounced(s) && ClientInOrder(s, id)
    ensures ClientInOrder(Apply(s, step), id)
  {
    hide HubStep, CanInject, ClientInOrder, Announced, ProofOf;
    var t := Apply(s, step);
    if !step.Start? && !step.ClientReceives? {
      var more := LogGrowth(s, step);
      hide Apply;
      KeepsOrder(s, t, more, id);
    } else if t.log == s.log {
      assert s.log + [] == s.log;
      KeepsOrder(s, t, [], id);
    } else if step.client != id {
      KeepsOrder(s, t, [t.log[|s.log|]], id);
    } else if step.Start? {
      FirstSend(s, t, step.first, id);
    } else {
      SecondSend(s, t, step.packet, id, step.counter, step.stamp);
    }
  }

  lemma CoksStep(s: State, step: Step)
    requires CoksAnnounced(s)
    ensures CoksAnnounced(Apply(s, step))
  {
    var t := Apply(s, step);
    var more := LogGrowth(s, step);
    hide Proven, Announced;
    forall p | p in t.network && p.Cok? && p.authentic ensures Announced(t.log, p) {
      if p in s.network {
        AnnouncedGrows(s.log, more, p);
      } else {
        NewCok(s, step, p);
      }
    }
  }

  lemma NewCok(s: State, step: Step, p: Packet)
    requires p in Apply(s, step).network && p !in s.network && p.Cok? && p.authentic
    ensures Announced(Apply(s, step).log, p)
  {
    var t, q := Apply(s, step), step.packet;
    UnmapTwice(q.source);
    MintSame(p.cookie.key, q.source.Unmap(), q.source, q.peer, Window(s.now));
    assert MintedBy(t.log, p.cookie, |s.log| + 1);
  }

  /**
    No client ever sends a third LST.  A second one is the proof of the first: the
    same body and address, another counter, and the cookie of a challenge of this
    very peer that names the first.
   */
  lemma {:induction false} ClientSendsTwice(now: uint64, slots: Slots, honest: set<seq<byte>>,
                                            steps: seq<Step>, id: nat)
    ensures CoksAnnounced(Run(Initial(now, slots, honest), steps))
    ensures ClientInOrder(Run(Initial(now, slots, honest), steps), id)
  {
    if steps != [] {
      var s := Run(Initial(now, slots, honest), steps[..|steps| - 1]);
      ClientSendsTwice(now, slots, honest, steps[..|steps| - 1], id);
      CoksStep(s, steps[|steps| - 1]);
      ClientInOrderStep(s, steps[|steps| - 1], id);
    }
  }

  // ----- an honest exchange succeeds

  /** Start, challenge and proof, nothing lost. */
  function Handshake(s: State, id: nat, first: Request, cookie: Cookie, counter: uint64, stamp: nat): State {
    var s1 := Apply(s, Start(id, first));
    var s2 := Apply(s1, HubReceives(first, true, 0));
    Apply(s2, ClientReceives(id, Cok(true, first.peer, NO_FLAGS, first.counter, cookie, true), counter, stamp))
  }

  lemma HandshakeProves(s: State, id: nat, first: Request, cookie: Cookie, counter: uint64, stamp: nat)
    requires id !in s.clients && s.slots.active.Some? && first.flags == NO_FLAGS && first.digest == Plain
    requires Mint(s.slots.active.value, first.source, first.peer, Window(s.now)) == Some(cookie)
    requires ChallengePacket(first.counter) < first.size && first.counter != counter
    ensures var t := Handshake(s, id, first, cookie, counter, stamp);
            && ProofOf(first, counter, stamp, cookie) in t.network && t.served == s.served
            && id in t.clients && t.clients[id] == AwaitLrt(first.peer, counter)
  {
    hide Mint, Window, ChallengePacket, Proven;
  }

  lemma ProofServed(t: State, proof: Request, bytes: nat)
    requires proof in t.network && proof.flags == PROOF_FLAG && Proven(t.slots, t.now, proof)
    requires PacketId(proof) !in t.served && (proof.body.InitialAssignment? || proof.body.RefreshAssignment?)
    ensures var ip, u := proof.source.Unmap(), Apply(t, HubReceives(proof, true, bytes));
            && u.log == t.log + [Received(ip, proof.size)]
                        + [Called(ip, proof.peer, Window(t.now), t.slots, proof, bytes)]
            && Lrt(true, proof.peer, proof.counter) in u.network && u.clients == t.clients
  {
    hide Proven, Window;
  }

  /**
    From any state, an exchange in which the clock moves by at most one window and
    the minting key stays in a slot ends in exactly the Authority call it asked for,
    and the client takes the LRT as served.
   */
  lemma HonestExchangeServed(s: State, id: nat, first: Request, counter: uint64, stamp: nat,
                             later: uint64, slots: Slots, bytes: nat)
    requires id !in s.clients && s.slots.active.Some? && first.flags == NO_FLAGS && first.digest == Plain
    requires !first.source.HasZone() && |first.peer| == PEER_OCTETS
    requires first.body.InitialAssignment? || first.body.RefreshAssignment?
    requires ChallengePacket(first.counter) < first.size && first.counter != counter
    requires (first.peer, counter, stamp) !in s.served
    requires Fresh(Window(s.now), Window(later)) && HoldsKey(slots, s.slots.active.value)
    ensures var cookie := Mint(s.slots.active.value, first.source, first.peer, Window(s.now)).value;
            var proof := ProofOf(first, counter, stamp, cookie);
            var t := Handshake(s, id, first, cookie, counter, stamp).(now := later, slots := slots);
            var u := Apply(t, HubReceives(proof, true, bytes));
            var v := Apply(u, ClientReceives(id, Lrt(true, first.peer, counter), counter, stamp));
            var ip := first.source.Unmap();
            && u.log == t.log + [Received(ip, first.size)]
                        + [Called(ip, first.peer, Window(later), slots, proof, bytes)]
            && v == u.(clients := u.clients[id := Served(first.peer, counter)])
  {
    var key := s.slots.active.value;
    var cookie := Mint(key, first.source, first.peer, Window(s.now)).value;
    var proof := ProofOf(first, counter, stamp, cookie);
    HandshakeProves(s, id, first, cookie, counter, stamp);
    ProvenExact(slots, later, proof, key, first.source, first.peer, Window(s.now));
    hide Proven, HoldsKey, Fresh, Mint, Window, Handshake, Apply;
    var t := Handshake(s, id, first, cookie, counter, stamp).(now := later, slots := slots);
    ProofServed(t, proof, bytes);
    ReplyTaken(Apply(t, HubReceives(proof, true, bytes)), id, first.peer, counter, stamp);
  }

  lemma ReplyTaken(u: State, id: nat, peer: seq<byte>, counter: uint64, stamp: nat)
    requires id in u.clients && u.clients[id] == AwaitLrt(peer, counter) && Lrt(true, peer, counter) in u.network
    ensures Apply(u, ClientReceives(id, Lrt(true, peer, counter), counter, stamp))
            == u.(clients := u.clients[id := Served(peer, counter)])
  {
  }
}
