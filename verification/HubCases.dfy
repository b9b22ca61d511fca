/**
  The closed case tables of the exchange: what one delivered packet does to the Hub
  and to a client, in every state.
 */
module HubCases {
  import opened BitStream
  import opened HubCookie
  import opened HubProtocol
  import opened HubSafety
  import opened Wrappers
  import Decimal

  // ----- the Hub

  /** A MAC over this very address and peer, in the current window or the one before, under a key in a slot. */
  ghost predicate Sealed(s: State, p: Request, key: Key, w: uint64) {
    && (s.slots.active == Some(key) || (s.slots.active.Some? && s.slots.previous == Some(key)))
    && (w == s.now / 30 || w + 1 == s.now / 30) && !p.source.HasZone() && |p.peer| == 32
    && p.digest == Proof(4, p.counter, p.stamp, Mac(key, Layout(p.source.Unmap(), p.peer, w)))
  }

  /** A first delivery of a sealed proof for an assignment. */
  ghost predicate Callable(s: State, p: Request) {
    && p.flags == 4 && (p.body.InitialAssignment? || p.body.RefreshAssignment?)
    && (p.peer, p.counter, p.stamp) !in s.served && exists key: Key, w: uint64 :: Sealed(s, p, key, w)
  }

  /** An admitted first flight that is longer than its challenge would be. */
  ghost predicate Challengeable(s: State, p: Request, admit: bool) {
    && p.flags == 0 && admit && s.slots.active.Some? && !p.source.HasZone() && |p.peer| == 32
    && 322 + |Decimal.Spell(p.counter)| < p.size
  }

  lemma ProvenIsSealed(s: State, p: Request)
    requires p.flags == 4
    ensures Proven(s.slots, s.now, p) <==> exists key: Key, w: uint64 :: Sealed(s, p, key, w)
  {
    hide Layout;
    forall key: Key, w: uint64 | Sealed(s, p, key, w) ensures Proven(s.slots, s.now, p) {
      CandidatesExact(s.slots, Window(s.now), key, w);
      assert Matches((key, w), p);
    }
    if Proven(s.slots, s.now, p) {
      var c :| c in Candidates(s.slots, Window(s.now)) && Matches(c, p);
      CandidatesExact(s.slots, Window(s.now), c.0, c.1);
      assert Sealed(s, p, c.0, c.1);
    }
  }

  /** The reaction to an LST, decided from the packet and the state alone. */
  lemma ReactionExact(s: State, p: Request, admit: bool)
    ensures HubReaction(s, p, admit).Serve? <==> Callable(s, p)
    ensures HubReaction(s, p, admit).Challenge? <==> Challengeable(s, p, admit)
  {
    hide Proven, Sealed, Layout;
    if p.flags == 4 {
      ProvenIsSealed(s, p);
    }
  }

  /**
    Delivering an LST calls the Authority, challenges, or leaves nothing but the
    receipt: not a packet, not a served entry.
   */
  lemma DeliveryExact(s: State, p: Request, admit: bool, bytes: nat)
    requires p in s.network
    ensures var t, ip := Apply(s, HubReceives(p, admit, bytes)), p.source.Unmap();
            var log := s.log + [Received(ip, p.size)];
            && (Callable(s, p) ==>
                  t == s.(network := s.network + {Lrt(true, p.peer, p.counter)},
                          served := s.served + {(p.peer, p.counter, p.stamp)},
                          log := log + [Called(ip, p.peer, s.now / 30, s.slots, p, bytes)]))
            && (Challengeable(s, p, admit) ==>
                  var key, size := s.slots.active.value, 322 + |Decimal.Spell(p.counter)|;
                  var cookie := Mac(key, Layout(ip, p.peer, s.now / 30));
                  t == s.(network := s.network + {Cok(true, p.peer, 0, p.counter, cookie, true)},
                          log := log + [Challenged(ip, p.peer, s.now / 30, key, p.counter, size)]))
            && (!Callable(s, p) && !Challengeable(s, p, admit) ==> t == s.(log := log))
  {
    ReactionExact(s, p, admit);
    hide Proven, Callable, Layout;
  }

  /** An LST that can neither call nor be challenged is dropped without a trace but its receipt. */
  lemma OtherBodiesDropped(s: State, p: Request, admit: bool, bytes: nat)
    requires p in s.network && p.flags != 0 && (p.body.OtherList? || p.body.Malformed?)
    ensures Apply(s, HubReceives(p, admit, bytes)) == s.(log := s.log + [Received(p.source.Unmap(), p.size)])
  {
    DeliveryExact(s, p, admit, bytes);
  }

  // ----- a client

  /**
    A client that waits for a COK answers exactly one sealed by the pinned Hub for
    its own peer, without flags, naming its LST, with a canonical cookie, under a
    fresh counter.  Every other COK stops it, and nothing is sent.
   */
  lemma ChallengeExact(s: State, id: nat, p: Packet, counter: uint64, stamp: nat)
    requires id in s.clients && s.clients[id].AwaitCok? && p in s.network && p.Cok?
    ensures var t, first := Apply(s, ClientReceives(id, p, counter, stamp)), s.clients[id].first;
            if p.authentic && p.peer == first.peer && p.flags == 0 && p.transaction == first.counter && p.canonical
               && counter != first.counter then
              var proof := Lst(first.source, first.peer, counter, stamp, 4, first.body,
                               Proof(4, counter, stamp, p.cookie), first.size);
              t == s.(network := s.network + {proof}, clients := s.clients[id := AwaitLrt(first.peer, counter)],
                      log := s.log + [ClientSent(id, proof)])
            else t == s.(clients := s.clients[id := Stopped])
  {
  }

  /** A client that waits for an LRT takes the Hub's own for its peer and counter, and stops at any COK. */
  lemma ReplyExact(s: State, id: nat, p: Packet, counter: uint64, stamp: nat)
    requires id in s.clients && s.clients[id].AwaitLrt? && p in s.network
    ensures var t, c := Apply(s, ClientReceives(id, p, counter, stamp)), s.clients[id];
            t == if p.Cok? then s.(clients := s.clients[id := Stopped])
                 else if p.Lrt? && p.authentic && p.peer == c.peer && p.transaction == c.proofCounter then
                   s.(clients := s.clients[id := Served(c.peer, c.proofCounter)])
                 else s
  {
  }

  /** A client that stopped or was served never sends or changes again. */
  lemma DoneStays(s: State, step: Step, id: nat)
    requires id in s.clients && (s.clients[id].Stopped? || s.clients[id].Served?)
    ensures var t := Apply(s, step);
            id in t.clients && t.clients[id] == s.clients[id] && Sends(t.log, id) == Sends(s.log, id)
  {
    var t := Apply(s, step);
    var more := LogGrowth(s, step);
    hide HubStep, CanInject, Usable, Sends;
    if |more| == 1 {
      assert t.log[|s.log|] == more[0];
    }
    SendsGrow(s.log, more, id);
    assert Sends(s.log, id) + [] == Sends(s.log, id);
  }
}
