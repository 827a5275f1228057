/**
 The network task's loop: sweep, then either publish the next pending chunk or take one event.
 A local copy is split and queued; an incoming buffer goes to the receiver.
 */
module EventLoop {
  import opened Bytes
  import opened ClipboardContent
  import opened Chunking
  import opened Reassembly

  type Buffer = seq<byte>

  /** A clipboard content taken from the local channel, with the UUID its split draws. */
  datatype Copy = Copy(content: Content, id: TransferId)

  /** The event the loop would take next; it is left waiting while chunks are pending. */
  datatype Input = Local(copy: Copy) | Gossip(src: nat, data: Buffer) | Other

  /** One turn: the offered event, the clock at the sweep and at the handler, and whether the turn overran a minute. */
  datatype Turn = Turn(offered: Input, sweepNow: nat, now: nat, overran: bool)

  function Wire(ms: seq<NetworkMessage>): (w: seq<Buffer>)
    ensures |w| == |ms| && forall i :: 0 <= i < |ms| ==> w[i] == MessageToBytes(ms[i])
  {
    seq(|ms|, i requires 0 <= i < |ms| => MessageToBytes(ms[i]))
  }

  /** The messages of a series of copies, one split after another. */
  function Stream(copies: seq<Copy>, hash: Hasher): seq<NetworkMessage> {
    if copies == [] then []
    else
      var last := copies[|copies| - 1];
      Stream(copies[..|copies| - 1], hash) + Split(last.content, hash, last.id)
  }

  lemma SplitIsNonEmpty(c: Copy, hash: Hasher)
    ensures |Split(c.content, hash, c.id)| >= 1
  {
  }

  // ---------------------------------------------------------------- one turn

  /** How the run stands: going on, ended by a turn that overran, or ended by a crash. */
  datatype Status = Running | Restarting | Dead

  /** Everything a run of the loop has done so far. */
  datatype History = History(
    pending: seq<Buffer>, states: States, published: seq<Buffer>, accepted: seq<Copy>, delivered: seq<(nat, Content)>,
    status: Status)

  /** What a turn has done before it publishes, and the buffer it would publish. */
  datatype Halfway = Halfway(h: History, toPublish: Option<Buffer>)

  function TakeLocal(h: History, copy: Copy, hash: Hasher): Halfway {
    var wire := Wire(Split(copy.content, hash, copy.id));
    SplitIsNonEmpty(copy, hash);
    Halfway(h.(pending := wire[1..], accepted := h.accepted + [copy]), Some(wire[0]))
  }

  function TakeGossip(h: History, src: nat, data: Buffer, now: nat, hash: Hasher): Halfway {
    var (states, reply) := Handle(h.states, Classify(data), now, hash);
    Halfway(h.(states := states, delivered := h.delivered + (if reply.Out().Some? then [(src, reply.Out().value)] else []),
               status := if reply.Crashed? then Dead else Running), None)
  }

  function BeforePublishing(h0: History, t: Turn, hash: Hasher): Halfway {
    var h := h0.(states := Cleanup(h0.states, t.sweepNow));
    if h.pending != [] then Halfway(h.(pending := h.pending[1..]), Some(h.pending[0]))
    else
      match t.offered
      case Local(copy) => TakeLocal(h, copy, hash)
      case Gossip(src, data) => TakeGossip(h, src, data, t.now, hash)
      case Other => Halfway(h, None)
  }

  /** One turn: it ends the run if its handler crashes, or if it overran, when it returns without publishing. */
  function AfterTurn(h: History, t: Turn, hash: Hasher): History {
    if h.status != Running then h
    else
      var half := BeforePublishing(h, t, hash);
      if half.h.status == Dead then half.h
      else if t.overran then half.h.(status := Restarting)
      else half.h.(published := half.h.published + (if half.toPublish.Some? then [half.toPublish.value] else []))
  }

  const START: History := History([], map[], [], [], [], Running)

  /** The loop after these turns. */
  function Run(turns: seq<Turn>, hash: Hasher): History {
    if turns == [] then START
    else AfterTurn(Run(turns[..|turns| - 1], hash), turns[|turns| - 1], hash)
  }

  // ---------------------------------------------------------------- the source's form

  class Loop {
    var pendingChunks: seq<Buffer>
    const receiver: Receiver
    ghost var history: History

    ghost predicate Valid()
      reads this, receiver
    {
      history.pending == pendingChunks && history.states == receiver.chunkStates
    }

    constructor ()
      ensures Valid() && fresh(receiver) && history == START
    {
      pendingChunks := [];
      history := START;
      receiver := new Receiver();
    }

    /** Split the copy; its first message is to be published now, the others wait their turn. */
    method EnqueueLocal(copy: Copy, hash: Hasher) returns (first: Option<Buffer>)
      requires pendingChunks == []
      modifies this`pendingChunks
      ensures first.Some? && [first.value] + pendingChunks == Wire(Split(copy.content, hash, copy.id))
    {
      hide Split, MessageToBytes;
      var messages := SplitToNetworkMessages(copy.content, hash, copy.id);
      SplitIsNonEmpty(copy, hash);
      if |messages| == 1 {
        return Some(MessageToBytes(messages[0]));
      }
      ghost var wire := Wire(messages);
      first := None;
      var i := 0;
      while i < |messages|
        invariant 0 <= i <= |messages|
        invariant i == 0 ==> first == None && pendingChunks == []
        invariant i > 0 ==> first == Some(wire[0]) && pendingChunks == wire[1..i]
      {
        var bytes := MessageToBytes(messages[i]);
        if first.None? {
          first := Some(bytes);
        } else {
          pendingChunks := pendingChunks + [bytes];
        }
        i := i + 1;
      }
    }

    /**
     One iteration of `run`: what it publishes, what it hands to the clipboard channel, and how the
     run stands after it. A turn that overran returns before publishing, and the caller restarts
     everything.
     */
    method TakeTurn(t: Turn, hash: Hasher)
      returns (toPublish: Option<Buffer>, delivered: Option<Content>, status: Status)
      requires Valid() && history.status == Running
      modifies this, receiver
      ensures Valid() && history == AfterTurn(old(history), t, hash) && status == history.status
      ensures history.published == old(history.published) + (if toPublish.Some? then [toPublish.value] else [])
      ensures delivered.Some? ==>
                t.offered.Gossip? && history.delivered == old(history.delivered) + [(t.offered.src, delivered.value)]
      ensures delivered.None? ==> history.delivered == old(history.delivered)
    {
      hide Split, Handle, Classify, Cleanup;
      toPublish, delivered, status := None, None, Running;
      history := AfterTurn(history, t, hash);
      receiver.CleanupStaleChunkStates(t.sweepNow);
      if pendingChunks != [] {
        toPublish, pendingChunks := Some(pendingChunks[0]), pendingChunks[1..];
      } else {
        match t.offered {
          case Local(copy) => toPublish := EnqueueLocal(copy, hash);
          case Gossip(src, data) =>
            var reply := receiver.HandleIncomingMessage(data, t.now, hash);
            if reply.Crashed? {
              return None, None, Dead;
            }
            delivered := reply.value;
          case Other =>
        }
      }
      if t.overran {
        return None, delivered, Restarting;
      }
    }
  }

  // ---------------------------------------------------------------- what one turn does

  /** How a turn that did not crash leaves the run: one that overran ends it having published nothing. */
  ghost predicate Goes(h: History, t: Turn, h': History, published: seq<Buffer>) {
    if t.overran then h'.status == Restarting && h'.published == h.published
    else h'.status == Running && h'.published == h.published + published
  }

  /** While chunks are pending a turn publishes the next one, and what is offered waits. */
  lemma PendingComesFirst(h: History, t: Turn, hash: Hasher)
    requires h.status == Running && h.pending != []
    ensures var h' := AfterTurn(h, t, hash);
            && Goes(h, t, h', [h.pending[0]]) && h.pending == [h.pending[0]] + h'.pending
            && h'.accepted == h.accepted && h'.delivered == h.delivered
  {
    hide Handle, Classify, Cleanup, TakeLocal, TakeGossip;
  }

  /** A copy offered to a loop with nothing pending is accepted: the first message of its split is published, the others are pending. */
  lemma CopyIsAccepted(h: History, t: Turn, hash: Hasher)
    requires h.status == Running && h.pending == [] && t.offered.Local?
    ensures var h' := AfterTurn(h, t, hash);
            var wire := Wire(Split(t.offered.copy.content, hash, t.offered.copy.id));
            && wire != [] && Goes(h, t, h', [wire[0]]) && h'.pending == wire[1..]
            && h'.accepted == h.accepted + [t.offered.copy] && h'.delivered == h.delivered
  {
    hide Handle, Classify, Cleanup, Split, TakeGossip;
    SplitIsNonEmpty(t.offered.copy, hash);
  }

  /** A buffer offered to such a loop goes to the receiver, after its sweep: what that returns is delivered, and if it crashes the run is over. */
  lemma GossipIsHandled(h: History, t: Turn, hash: Hasher)
    requires h.status == Running && h.pending == [] && t.offered.Gossip?
    ensures var h' := AfterTurn(h, t, hash);
            var ev := Deliver(t.offered.src, t.offered.data, t.now);
            var (states, reply) := Step(Step(h.states, Sweep(t.sweepNow), hash).0, ev, hash);
            && h'.states == states && h'.accepted == h.accepted && h'.delivered == h.delivered + Handed(ev, reply)
            && (if reply.Crashed? then h'.status == Dead && h'.published == h.published else Goes(h, t, h', []))
            && h'.pending == []
  {
    hide Handle, Classify, Cleanup, TakeLocal;
    assert h.published + [] == h.published;
  }

  /** Anything else leaves the queues alone. */
  lemma OtherEventsPass(h: History, t: Turn, hash: Hasher)
    requires h.status == Running && h.pending == [] && t.offered.Other?
    ensures var h' := AfterTurn(h, t, hash);
            && Goes(h, t, h', []) && h'.pending == [] && h'.accepted == h.accepted && h'.delivered == h.delivered
  {
    hide Handle, Classify, Cleanup, TakeLocal, TakeGossip;
    assert h.published + [] == h.published;
  }

  /** A run that has ended stays as it ended. */
  lemma {:induction false} EndedStays(turns: seq<Turn>, more: seq<Turn>, hash: Hasher)
    requires Run(turns, hash).status != Running
    ensures Run(turns + more, hash) == Run(turns, hash)
  {
    hide BeforePublishing;
    if more == [] {
      assert turns + more == turns;
    } else {
      assert (turns + more)[..|turns + more| - 1] == turns + more[..|more| - 1];
      EndedStays(turns, more[..|more| - 1], hash);
    }
  }

  // ---------------------------------------------------------------- the queue is concatenation

  lemma WireAppends(a: seq<NetworkMessage>, b: seq<NetworkMessage>)
    ensures Wire(a + b) == Wire(a) + Wire(b)
  {
  }

  /** Published, then to be published, then pending. */
  function Queue(half: Halfway): seq<Buffer> {
    half.h.published + (if half.toPublish.Some? then [half.toPublish.value] else []) + half.h.pending
  }

  /** While the loop runs all of it is accounted for; once it has stopped, a prefix was published. */
  predicate Accounted(h: History, hash: Hasher) {
    && h.published <= Wire(Stream(h.accepted, hash))
    && (h.status == Running ==> h.published + h.pending == Wire(Stream(h.accepted, hash)))
  }

  /**
   At every loop head until the restart, what has been published followed by what is pending is the
   splits of all accepted copies, one after another: transfers of one sender never interleave. After
   it, what has been published is a prefix of them.
   */
  lemma {:induction false} QueueIsConcatenation(turns: seq<Turn>, hash: Hasher)
    ensures Accounted(Run(turns, hash), hash)
  {
    hide AfterTurn;
    if turns != [] {
      var n := |turns| - 1;
      QueueIsConcatenation(turns[..n], hash);
      QueueStep(Run(turns[..n], hash), turns[n], hash);
    }
  }

  lemma QueueStep(h: History, t: Turn, hash: Hasher)
    requires Accounted(h, hash)
    ensures Accounted(AfterTurn(h, t, hash), hash)
  {
    hide BeforePublishing, Wire, Stream;
    if h.status == Running {
      QueueIsKept(h, t, hash);
      var half := BeforePublishing(h, t, hash);
      assert half.h.published <= Queue(half);
    }
  }

  lemma QueueIsKept(h: History, t: Turn, hash: Hasher)
    requires h.status == Running && h.published + h.pending == Wire(Stream(h.accepted, hash))
    ensures var half := BeforePublishing(h, t, hash);
            half.h.published == h.published && Queue(half) == Wire(Stream(half.h.accepted, hash))
  {
    hide Split, Handle, Classify, Cleanup, TakeLocal, Wire, Stream;
    if h.pending == [] && t.offered.Local? {
      QueueTakesLocal(h.(states := Cleanup(h.states, t.sweepNow)), t.offered.copy, hash);
    }
  }

  lemma QueueTakesLocal(h: History, c: Copy, hash: Hasher)
    requires h.pending == [] && h.published + h.pending == Wire(Stream(h.accepted, hash))
    ensures var half := TakeLocal(h, c, hash);
            && half.h.published == h.published && half.h.status == h.status
            && Queue(half) == Wire(Stream(half.h.accepted, hash))
  {
    hide Split, Wire, MessageToBytes;
    var split := Split(c.content, hash, c.id);
    SplitIsNonEmpty(c, hash);
    assert (h.accepted + [c])[..|h.accepted|] == h.accepted;
    WireAppends(Stream(h.accepted, hash), split);
    assert Wire(split) == [Wire(split)[0]] + Wire(split)[1..];
  }

  /** So what a loop has published is always a prefix of its copies' splits, and all of them if it runs on with nothing pending. */
  lemma PublishedIsPrefix(turns: seq<Turn>, hash: Hasher)
    ensures var h := Run(turns, hash);
            && h.published <= Wire(Stream(h.accepted, hash))
            && (h.status == Running && h.pending == [] ==> h.published == Wire(Stream(h.accepted, hash)))
  {
    hide Run, Stream, Wire;
    QueueIsConcatenation(turns, hash);
  }

  // ---------------------------------------------------------------- a loop's run as a receiver trace

  /** What the receiver of a loop sees of one turn. */
  function TurnTrace(h: History, t: Turn): seq<Event> {
    if h.status != Running then []
    else
      [Sweep(t.sweepNow)]
      + (if h.pending == [] && t.offered.Gossip? then [Deliver(t.offered.src, t.offered.data, t.now)] else [])
  }

  function Trace(turns: seq<Turn>, hash: Hasher): seq<Event> {
    if turns == [] then []
    else
      var n := |turns| - 1;
      Trace(turns[..n], hash) + TurnTrace(Run(turns[..n], hash), turns[n])
  }

  /** What an event adds to what was returned. */
  function Handed(ev: Event, reply: Reply): seq<(nat, Content)> {
    if ev.Deliver? && reply.Out().Some? then [(ev.src, reply.Out().value)] else []
  }

  /** Everything a receiver returned over a trace, with the sender of the message that completed it. */
  function Deliveries(evs: seq<Event>, hash: Hasher): seq<(nat, Content)> {
    if evs == [] then []
    else
      var k := |evs| - 1;
      Deliveries(evs[..k], hash) + Handed(evs[k], OutputAt(map[], evs, k, hash))
  }

  lemma DeliveriesSnoc(evs: seq<Event>, ev: Event, hash: Hasher)
    ensures var (states, reply) := Step(Final(map[], evs, hash), ev, hash);
            && Final(map[], evs + [ev], hash) == states
            && (Survives(map[], evs + [ev], hash) <==> Survives(map[], evs, hash) && reply.Returned?)
            && (Survives(map[], evs, hash) ==> Deliveries(evs + [ev], hash) == Deliveries(evs, hash) + Handed(ev, reply))
  {
    hide Step, Handed;
    assert (evs + [ev])[..|evs|] == evs;
  }

  /** The loop's deliveries are the receiver's; it is dead exactly when the receiver did not survive; until then so is its table. */
  ghost predicate Mirrors(h: History, evs: seq<Event>, hash: Hasher) {
    && h.delivered == Deliveries(evs, hash)
    && (h.status != Dead <==> Survives(map[], evs, hash))
    && (h.status == Running ==> h.states == Final(map[], evs, hash))
  }

  lemma {:induction false} LoopFollowsTrace(turns: seq<Turn>, hash: Hasher)
    ensures Mirrors(Run(turns, hash), Trace(turns, hash), hash)
  {
    hide AfterTurn, TurnTrace;
    if turns != [] {
      var n := |turns| - 1;
      LoopFollowsTrace(turns[..n], hash);
      LoopFollowsTurn(Run(turns[..n], hash), turns[n], Trace(turns[..n], hash), hash);
    }
  }

  lemma LoopFollowsTurn(h: History, t: Turn, evs: seq<Event>, hash: Hasher)
    requires Mirrors(h, evs, hash)
    ensures Mirrors(AfterTurn(h, t, hash), evs + TurnTrace(h, t), hash)
  {
    hide Handle, Classify, Cleanup, TakeLocal, Deliveries, Final, Survives;
    var swept := evs + [Sweep(t.sweepNow)];
    DeliveriesSnoc(evs, Sweep(t.sweepNow), hash);
    if h.status != Running {
      assert evs + TurnTrace(h, t) == evs;
    } else if h.pending == [] && t.offered.Gossip? {
      var ev := Deliver(t.offered.src, t.offered.data, t.now);
      DeliveriesSnoc(swept, ev, hash);
      assert evs + TurnTrace(h, t) == swept + [ev];
      var reply := Handle(Cleanup(h.states, t.sweepNow), Classify(ev.data), t.now, hash).1;
      assert Survives(map[], swept, hash) && (reply.Crashed? <==> AfterTurn(h, t, hash).status == Dead);
      assert Survives(map[], swept + [ev], hash) <==> AfterTurn(h, t, hash).status != Dead;
      assert AfterTurn(h, t, hash).states == Final(map[], swept + [ev], hash);
    } else {
      assert evs + TurnTrace(h, t) == swept;
      if h.pending == [] && t.offered.Local? {
        LocalLeavesReceiver(h.(states := Cleanup(h.states, t.sweepNow)), t.offered.copy, hash);
      }
    }
  }

  lemma LocalLeavesReceiver(h: History, c: Copy, hash: Hasher)
    ensures var after := TakeLocal(h, c, hash).h;
            after.states == h.states && after.delivered == h.delivered && after.status == h.status
  {
  }
}
