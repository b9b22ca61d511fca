/**
  The Hub's return-routability exchange as a state machine: unproven LST, COK,
  proof LST, LRT, run over a network that loses, duplicates, reorders and injects
  packets while the clock jumps and the two key slots are reassigned at will.

  The MAC and the header digest are ideal: a MAC value is determined by, and
  determines, its key and the preimage of module HubCookie, and nobody but the
  Hub makes one under a Hub key.  A set of peers is honest: only they hold their
  static keys, so an LST of theirs can be repeated and sent on from any address,
  but not made or changed by anyone else.
 */
module HubProtocol {
  import opened BitStream
  import opened HubCookie
  import opened Wrappers

  type Key = nat

  datatype Cookie = Mac(key: Key, preimage: seq<byte>) | Raw(octets: seq<byte>)

  /** What an application body turns out to be once somebody decodes it. */
  datatype Body =
    InitialAssignment(nonce: nat) | RefreshAssignment(nonce: nat) | OtherList(nonce: nat) | Malformed(nonce: nat)

  /** The digest field: over the cookie it binds flags, counter and header freshness. */
  datatype Digest = Plain | Proof(flags: nat, counter: uint64, stamp: nat, cookie: Cookie)

  type SourceAddress = a: Address | a.Valid() witness V4([0, 0, 0, 0])

  /** Packets with valid framing and body authentication; replies are sealed for one peer. */
  datatype Packet =
    | Lst(source: SourceAddress, peer: seq<byte>, counter: uint64, stamp: nat, flags: nat, body: Body, digest: Digest,
          size: nat)
    | Cok(authentic: bool, peer: seq<byte>, flags: nat, transaction: uint64, cookie: Cookie, canonical: bool)
    | Lrt(authentic: bool, peer: seq<byte>, transaction: uint64)

  type Request = p: Packet | p.Lst? witness Lst(V4([0, 0, 0, 0]), [], 0, 0, 0, OtherList(0), Plain, 0)

  /** The same packet, perhaps from another address: what UDP does not authenticate. */
  predicate Readdressed(p: Request, q: Request) {
    p == q.(source := p.source)
  }

  const NO_FLAGS := 0
  const PROOF_FLAG := 4

  datatype Slots = Slots(active: Option<Key>, previous: Option<Key>)

  datatype Client =
    | AwaitCok(first: Request)
    | AwaitLrt(peer: seq<byte>, proofCounter: uint64)
    | Stopped
    | Served(peer: seq<byte>, proofCounter: uint64)

  datatype Event =
    | Received(ip: Address, bytes: nat)
    | Challenged(ip: Address, peer: seq<byte>, window: uint64, key: Key, transaction: uint64, bytes: nat)
    | Called(ip: Address, peer: seq<byte>, window: uint64, slots: Slots, proof: Request, bytes: nat)
    | ClientSent(client: nat, packet: Request)

  datatype State = State(
    now: uint64, slots: Slots, honest: set<seq<byte>>, network: set<Packet>, served: set<(seq<byte>, uint64, nat)>,
    clients: map<nat, Client>, log: seq<Event>)

  datatype Step =
    | Tick(now: uint64)
    | Rekey(slots: Slots)
    | Inject(packet: Packet)
    | Start(client: nat, first: Request)
    | HubReceives(packet: Packet, admit: bool, resultBytes: nat)
    | ClientReceives(client: nat, packet: Packet, counter: uint64, stamp: nat)

  // ----- the Hub

  function Window(now: uint64): uint64 {
    now / WINDOW_SECONDS
  }

  /** Keys and windows in verification order; without an active key there are none. */
  function Candidates(slots: Slots, window: uint64): seq<(Key, uint64)> {
    if slots.active.None? then []
    else WindowsOf(slots.active.value, window)
         + if slots.previous.None? then [] else WindowsOf(slots.previous.value, window)
  }

  function WindowsOf(key: Key, window: uint64): seq<(Key, uint64)> {
    if window == 0 then [(key, window)] else [(key, window), (key, window - 1)]
  }

  function Mint(key: Key, source: SourceAddress, peer: seq<byte>, window: uint64): Option<Cookie> {
    var preimage := Preimage(Some(source), peer, window);
    if preimage.None? then None else Some(Mac(key, preimage.value))
  }

  predicate Matches(candidate: (Key, uint64), p: Packet)
    requires p.Lst?
  {
    var cookie := Mint(candidate.0, p.source, p.peer, candidate.1);
    cookie.Some? && p.digest == Proof(p.flags, p.counter, p.stamp, cookie.value)
  }

  predicate Proven(slots: Slots, now: uint64, p: Packet)
    requires p.Lst?
  {
    exists c :: c in Candidates(slots, Window(now)) && Matches(c, p)
  }

  function PacketId(p: Packet): (seq<byte>, uint64, nat)
    requires p.Lst?
  {
    (p.peer, p.counter, p.stamp)
  }

  datatype Reaction = Drop | Challenge(cookie: Cookie) | Serve

  /** First flight: a challenge only under the active key and only if strictly smaller than the request. */
  function HubReaction(s: State, p: Packet, admit: bool): Reaction
    requires p.Lst?
  {
    if p.flags == NO_FLAGS then
      if !admit || s.slots.active.None? || ChallengePacket(p.counter) >= p.size then Drop
      else
        var cookie := Mint(s.slots.active.value, p.source, p.peer, Window(s.now));
        if cookie.None? then Drop else Challenge(cookie.value)
    else if p.flags != PROOF_FLAG || !Proven(s.slots, s.now, p) || PacketId(p) in s.served then Drop
    else if p.body.InitialAssignment? || p.body.RefreshAssignment? then Serve
    else Drop
  }

  /** The record of a challenge in reply to `p`. */
  function ChallengeEvent(s: State, p: Request): Event
    requires s.slots.active.Some?
  {
    Challenged(p.source.Unmap(), p.peer, Window(s.now), s.slots.active.value, p.counter, ChallengePacket(p.counter))
  }

  function HubStep(s: State, p: Packet, admit: bool, resultBytes: nat): State
    requires p.Lst?
  {
    var ip := p.source.Unmap();
    var log := s.log + [Received(ip, p.size)];
    match HubReaction(s, p, admit)
    case Drop => s.(log := log)
    case Challenge(cookie) =>
      s.(network := s.network + {Cok(true, p.peer, NO_FLAGS, p.counter, cookie, true)},
         log := log + [ChallengeEvent(s, p)])
    case Serve =>
      s.(network := s.network + {Lrt(true, p.peer, p.counter)},
         served := s.served + {PacketId(p)},
         log := log + [Called(ip, p.peer, Window(s.now), s.slots, p, resultBytes)])
  }

  // ----- the client

  /** The proof LST: same body, fresh counter and stamp, the proof flag and a digest over the cookie. */
  function ProofOf(first: Request, counter: uint64, stamp: nat, cookie: Cookie): Request {
    first.(counter := counter, stamp := stamp, flags := PROOF_FLAG, digest := Proof(PROOF_FLAG, counter, stamp, cookie))
  }

  /** Sealed by the pinned Hub for this peer, without flags, naming the first LST, with a canonical cookie. */
  predicate Usable(p: Packet, first: Request) {
    p.Cok? && p.authentic && p.peer == first.peer && p.flags == NO_FLAGS
    && p.transaction == first.counter && p.canonical
  }

  /** A usable COK is answered once; any other, or a second one, stops the client. */
  function ClientStep(s: State, id: nat, p: Packet, counter: uint64, stamp: nat): State
    requires id in s.clients
  {
    var c := s.clients[id];
    if c.AwaitCok? && p.Cok? then
      if Usable(p, c.first) && counter != c.first.counter then
        var proof := ProofOf(c.first, counter, stamp, p.cookie);
        s.(network := s.network + {proof},
           clients := s.clients[id := AwaitLrt(c.first.peer, counter)],
           log := s.log + [ClientSent(id, proof)])
      else s.(clients := s.clients[id := Stopped])
    else if c.AwaitLrt? && p.Cok? then s.(clients := s.clients[id := Stopped])
    else if c.AwaitLrt? && p.Lrt? && p.authentic && p.peer == c.peer && p.transaction == c.proofCounter then
      s.(clients := s.clients[id := Served(c.peer, c.proofCounter)])
    else s
  }

  // ----- runs

  /** A cookie somebody has seen, or one that is no MAC under a Hub key. */
  predicate Available(network: set<Packet>, cookie: Cookie) {
    cookie.Raw? || exists p :: p in network && p.Cok? && p.cookie == cookie
  }

  predicate CanInject(s: State, p: Packet) {
    match p
    case Lst(_, _, _, _, _, _, _, _) =>
      if p.peer in s.honest then exists q :: q in s.network && q.Lst? && Readdressed(p, q)
      else p.digest.Plain? || Available(s.network, p.digest.cookie)
    case Cok(_, _, _, _, _, _) => !p.authentic && Available(s.network, p.cookie)
    case Lrt(_, _, _) => !p.authentic
  }

  /** A step that is not enabled changes nothing. */
  function Apply(s: State, step: Step): State {
    match step
    case Tick(now) => s.(now := now)
    case Rekey(slots) => s.(slots := slots)
    case Inject(p) => if CanInject(s, p) then s.(network := s.network + {p}) else s
    case Start(id, first) =>
      if id in s.clients || first.flags != NO_FLAGS || first.digest != Plain then s
      else s.(network := s.network + {first},
              clients := s.clients[id := AwaitCok(first)],
              log := s.log + [ClientSent(id, first)])
    case HubReceives(p, admit, resultBytes) =>
      if p in s.network && p.Lst? then HubStep(s, p, admit, resultBytes) else s
    case ClientReceives(id, p, counter, stamp) =>
      if p in s.network && id in s.clients then ClientStep(s, id, p, counter, stamp) else s
  }

  function Initial(now: uint64, slots: Slots, honest: set<seq<byte>>): State {
    State(now, slots, honest, {}, {}, map[], [])
  }

  function Run(s: State, steps: seq<Step>): State {
    if steps == [] then s else Apply(Run(s, steps[..|steps| - 1]), steps[|steps| - 1])
  }

  // ----- which cookies verify

  lemma UnmapTwice(a: Address)
    requires a.Valid()
    ensures a.Unmap().Unmap() == a.Unmap()
  {
  }

  ghost predicate HoldsKey(slots: Slots, key: Key) {
    slots.active.Some? && (slots.active == Some(key) || slots.previous == Some(key))
  }

  ghost predicate Fresh(minted: uint64, current: uint64) {
    minted == current || minted + 1 == current
  }

  lemma CandidatesExact(slots: Slots, window: uint64, key: Key, w: uint64)
    ensures (key, w) in Candidates(slots, window) <==> HoldsKey(slots, key) && Fresh(w, window)
  {
  }

  /**
    A MAC minted for one address, peer and window under one key proves a packet
    exactly if the packet has that unmapped address and that peer, the key is still
    in a slot beside an active key, and the window is the current or previous one.
   */
  lemma ProvenExact(slots: Slots, now: uint64, p: Packet, key: Key, source: SourceAddress, peer: seq<byte>,
                    w: uint64)
    requires p.Lst? && Mint(key, source, peer, w).Some?
    requires p.digest == Proof(p.flags, p.counter, p.stamp, Mint(key, source, peer, w).value)
    ensures Proven(slots, now, p) <==>
            p.source.Unmap() == source.Unmap() && !p.source.HasZone() && p.peer == peer
            && HoldsKey(slots, key) && Fresh(w, Window(now))
  {
    hide Preimage;
    forall c | c in Candidates(slots, Window(now)) && Matches(c, p)
      ensures c == (key, w) && p.source.Unmap() == source.Unmap() && !p.source.HasZone() && p.peer == peer
    {
      MintInjective(c.0, p.source, p.peer, c.1, key, source, peer, w);
    }
    CandidatesExact(slots, Window(now), key, w);
    if p.source.Unmap() == source.Unmap() && !p.source.HasZone() && p.peer == peer {
      MintSame(key, p.source, source, peer, w);
    }
  }

  lemma MintInjective(k: Key, a: SourceAddress, p: seq<byte>, v: uint64,
                      l: Key, b: SourceAddress, q: seq<byte>, w: uint64)
    requires Mint(k, a, p, v).Some? && Mint(k, a, p, v) == Mint(l, b, q, w)
    ensures k == l && a.Unmap() == b.Unmap() && p == q && v == w && !a.HasZone()
  {
    PreimageInjective(a, p, v, b, q, w);
  }

  lemma MintSame(k: Key, a: SourceAddress, b: SourceAddress, p: seq<byte>, w: uint64)
    requires a.Unmap() == b.Unmap() && !a.HasZone() && Mint(k, b, p, w).Some?
    ensures Mint(k, a, p, w) == Mint(k, b, p, w)
  {
  }
}
