/**
  The second half of the exchange: a client that takes an LRT was served.  The
  Authority was called for its peer under the counter of the proof it sent.
 */
module HubReplies {
  import opened BitStream
  import opened HubCookie
  import opened HubProtocol
  import opened HubSafety

  /** Event `i` called the Authority for this peer and proof counter. */
  ghost predicate CalledAt(log: seq<Event>, i: nat, peer: seq<byte>, counter: uint64) {
    i < |log| && log[i].Called? && log[i].peer == peer && log[i].proof.counter == counter
  }

  ghost predicate Called(log: seq<Event>, peer: seq<byte>, counter: uint64) {
    exists i: nat :: CalledAt(log, i, peer, counter)
  }

  /** Event `k` is this client's proof with this peer and counter. */
  ghost predicate ProvedAt(log: seq<Event>, k: nat, id: nat, peer: seq<byte>, counter: uint64) {
    k < |log| && log[k].ClientSent? && log[k].client == id && log[k].packet.flags == PROOF_FLAG
    && log[k].packet.peer == peer && log[k].packet.counter == counter
  }

  ghost predicate Proved(log: seq<Event>, id: nat, peer: seq<byte>, counter: uint64) {
    exists k: nat :: ProvedAt(log, k, id, peer, counter)
  }

  ghost predicate RepliesBacked(s: State) {
    forall p :: p in s.network && p.Lrt? && p.authentic ==> Called(s.log, p.peer, p.transaction)
  }

  ghost predicate ClientBacked(log: seq<Event>, id: nat, c: Client) {
    match c
    case AwaitCok(_) => true
    case Stopped => true
    case AwaitLrt(peer, counter) => Proved(log, id, peer, counter)
    case Served(peer, counter) => Proved(log, id, peer, counter) && Called(log, peer, counter)
  }

  ghost predicate Backed(s: State) {
    RepliesBacked(s) && forall id :: id in s.clients ==> ClientBacked(s.log, id, s.clients[id])
  }

  lemma CalledGrows(log: seq<Event>, more: seq<Event>, peer: seq<byte>, counter: uint64)
    requires Called(log, peer, counter)
    ensures Called(log + more, peer, counter)
  {
    var i: nat :| CalledAt(log, i, peer, counter);
    assert CalledAt(log + more, i, peer, counter);
  }

  lemma ClientBackedGrows(log: seq<Event>, more: seq<Event>, id: nat, c: Client)
    requires ClientBacked(log, id, c)
    ensures ClientBacked(log + more, id, c)
  {
    hide Called;
    if c.AwaitLrt? || c.Served? {
      var k: nat :| ProvedAt(log, k, id, c.peer, c.proofCounter);
      assert ProvedAt(log + more, k, id, c.peer, c.proofCounter);
    }
    if c.Served? {
      CalledGrows(log, more, c.peer, c.proofCounter);
    }
  }

  /** A new authentic LRT is the Hub's, beside the call it reports. */
  lemma NewReply(s: State, step: Step, p: Packet)
    requires p in Apply(s, step).network && p !in s.network && p.Lrt? && p.authentic
    ensures Called(Apply(s, step).log, p.peer, p.transaction)
  {
    hide Mint, Proven, Usable;
    assert CalledAt(Apply(s, step).log, |s.log| + 1, p.peer, p.transaction);
  }

  lemma RepliesStep(s: State, step: Step)
    requires RepliesBacked(s)
    ensures RepliesBacked(Apply(s, step))
  {
    var t := Apply(s, step);
    var more := LogGrowth(s, step);
    hide Apply, Called;
    forall p | p in t.network && p.Lrt? && p.authentic ensures Called(t.log, p.peer, p.transaction) {
      if p in s.network {
        CalledGrows(s.log, more, p.peer, p.transaction);
      } else {
        NewReply(s, step, p);
      }
    }
  }

  /** A client that changes state sent the proof it now waits on, or was told of the call for it. */
  lemma ChangedClient(s: State, step: Step, id: nat)
    requires Backed(s) && id in Apply(s, step).clients
    requires id !in s.clients || Apply(s, step).clients[id] != s.clients[id]
    ensures ClientBacked(Apply(s, step).log, id, Apply(s, step).clients[id])
  {
    hide HubReaction, CanInject, Called;
    var t := Apply(s, step);
    var c := t.clients[id];
    if c.AwaitLrt? {
      assert ProvedAt(t.log, |s.log|, id, c.peer, c.proofCounter);
    }
  }

  lemma BackedStep(s: State, step: Step)
    requires Backed(s)
    ensures Backed(Apply(s, step))
  {
    RepliesStep(s, step);
    var t := Apply(s, step);
    var more := LogGrowth(s, step);
    hide Apply, ClientBacked, RepliesBacked;
    forall id | id in t.clients ensures ClientBacked(t.log, id, t.clients[id]) {
      if id in s.clients && t.clients[id] == s.clients[id] {
        ClientBackedGrows(s.log, more, id, t.clients[id]);
      } else {
        ChangedClient(s, step, id);
      }
    }
  }

  lemma {:induction false} BackedRun(now: uint64, slots: Slots, honest: set<seq<byte>>, steps: seq<Step>)
    ensures Backed(Run(Initial(now, slots, honest), steps))
  {
    if steps != [] {
      BackedRun(now, slots, honest, steps[..|steps| - 1]);
      BackedStep(Run(Initial(now, slots, honest), steps[..|steps| - 1]), steps[|steps| - 1]);
    }
  }

  /** In every run, a served client sent a proof, and the Authority was called for its peer and that proof's counter. */
  lemma ServedWasCalled(now: uint64, slots: Slots, honest: set<seq<byte>>, steps: seq<Step>, id: nat)
    requires var s := Run(Initial(now, slots, honest), steps); id in s.clients && s.clients[id].Served?
    ensures var s := Run(Initial(now, slots, honest), steps);
            var c := s.clients[id];
            exists i: nat, k: nat ::
              CalledAt(s.log, i, c.peer, c.proofCounter) && ProvedAt(s.log, k, id, c.peer, c.proofCounter)
  {
    BackedRun(now, slots, honest, steps);
    hide Run;
  }
}
