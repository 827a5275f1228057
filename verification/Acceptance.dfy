/**
 What an accepted transfer proves, on any trace whatever: messages may be dropped, reordered,
 repeated, altered or forged. The reference is a look back over the trace itself.
 */
module Acceptance {
  import opened Bytes
  import opened ClipboardContent
  import opened Chunking
  import opened Reassembly

  /** The most recent ChunkStart for the id. */
  function LatestStart(evs: seq<Event>, id: TransferId): (m: Option<NetworkMessage>)
    ensures m.Some? ==> m.value.ChunkStart?
  {
    if evs == [] then None
    else
      var ev := evs[|evs| - 1];
      if Owns(ev, id) && Classify(ev.data).message.ChunkStart? then Some(Classify(ev.data).message)
      else LatestStart(evs[..|evs| - 1], id)
  }

  /** The data last sent for chunk `i` of the id since its latest ChunkStart. */
  function LastChunk(evs: seq<Event>, id: TransferId, i: u32): Option<seq<byte>> {
    if evs == [] then None
    else
      var ev := evs[|evs| - 1];
      if Owns(ev, id) && Classify(ev.data).message.ChunkStart? then None
      else if Owns(ev, id) && Classify(ev.data).message.Chunk? && Classify(ev.data).message.index == i then
        Some(Classify(ev.data).message.data)
      else LastChunk(evs[..|evs| - 1], id, i)
  }

  /** The distinct chunk indices sent for the id since its latest ChunkStart. */
  function Indices(evs: seq<Event>, id: TransferId): set<u32> {
    if evs == [] then {}
    else
      var ev := evs[|evs| - 1];
      if !Owns(ev, id) then Indices(evs[..|evs| - 1], id)
      else
        var m := Classify(ev.data).message;
        if m.ChunkStart? then {}
        else Indices(evs[..|evs| - 1], id) + (if m.Chunk? then {m.index} else {})
  }

  /** When the transfer was last started, if it has neither ended nor been swept away since. */
  function Started(evs: seq<Event>, id: TransferId): Option<nat> {
    if evs == [] then None
    else
      var ev, before := evs[|evs| - 1], Started(evs[..|evs| - 1], id);
      if ev.Sweep? then (if before.Some? && ev.now - before.value > CHUNK_TRANSFER_TIMEOUT then None else before)
      else if !Owns(ev, id) then before
      else
        var m := Classify(ev.data).message;
        if m.ChunkStart? then Some(ev.now) else if m.ChunkEnd? then None else before
  }

  function Lookup(received: map<u32, seq<byte>>, i: u32): Option<seq<byte>> {
    if i in received then Some(received[i]) else None
  }

  /** The table's entry for the id is what the trace says: there or not, and with what in it. */
  ghost predicate Ledger(states: States, evs: seq<Event>, id: TransferId) {
    && Started(evs, id) == (if id in states then Some(states[id].startedAt) else None)
    && (id in states ==> Entry(states[id], evs, id))
  }

  ghost predicate Entry(st: ChunkReceiveState, evs: seq<Event>, id: TransferId) {
    && LatestStart(evs, id) == Some(ChunkStart(id, st.totalChunks, st.dataHash, st.totalSize))
    && st.received.Keys == Indices(evs, id)
    && forall i: u32 :: Lookup(st.received, i) == LastChunk(evs, id, i)
  }

  lemma LedgerStep(states: States, evs: seq<Event>, ev: Event, id: TransferId, hash: Hasher)
    requires Ledger(states, evs, id)
    ensures Ledger(Step(states, ev, hash).0, evs + [ev], id)
  {
    hide Classify, Complete, Entry;
    assert (evs + [ev])[..|evs|] == evs;
    var after := Step(states, ev, hash).0;
    if id in after {
      if Owns(ev, id) {
        OwnEntry(states, evs, ev, id, hash);
      } else {
        assert after[id] == states[id];
        SameEntry(states[id], evs, ev, id);
      }
    }
  }

  lemma SameEntry(st: ChunkReceiveState, evs: seq<Event>, ev: Event, id: TransferId)
    requires Entry(st, evs, id) && !Owns(ev, id)
    ensures Entry(st, evs + [ev], id)
  {
    hide Classify;
    assert (evs + [ev])[..|evs|] == evs;
    forall i: u32 ensures Lookup(st.received, i) == LastChunk(evs + [ev], id, i) {
      assert Lookup(st.received, i) == LastChunk(evs, id, i);
    }
  }

  lemma OwnEntry(states: States, evs: seq<Event>, ev: Event, id: TransferId, hash: Hasher)
    requires Ledger(states, evs, id) && Owns(ev, id) && id in Step(states, ev, hash).0
    ensures Entry(Step(states, ev, hash).0[id], evs + [ev], id)
  {
    hide Classify, Complete;
    assert (evs + [ev])[..|evs|] == evs;
    var st := Step(states, ev, hash).0[id];
    var m := Classify(ev.data).message;
    if m.Chunk? {
      assert st.received == states[id].received[m.index := m.data];
      assert st.received.Keys == states[id].received.Keys + {m.index};
    }
    forall i: u32 ensures Lookup(st.received, i) == LastChunk(evs + [ev], id, i) {
      if id in states {
        assert Lookup(states[id].received, i) == LastChunk(evs, id, i);
      }
    }
  }

  lemma {:induction false} LedgerAlways(evs: seq<Event>, id: TransferId, hash: Hasher)
    ensures Ledger(Final(map[], evs, hash), evs, id)
  {
    hide Step;
    if evs != [] {
      var k := |evs| - 1;
      LedgerAlways(evs[..k], id, hash);
      LedgerStep(Final(map[], evs[..k], hash), evs[..k], evs[k], id, hash);
      assert evs == evs[..k] + [evs[k]];
    }
  }

  /** The in-order concatenation of the last-written chunks 0..n-1. */
  function Assembled(evs: seq<Event>, id: TransferId, n: u32): Option<seq<byte>> {
    if n == 0 then Some([])
    else
      match (Assembled(evs, id, n - 1), LastChunk(evs, id, n - 1))
      case (Some(prefix), Some(data)) => Some(prefix + data)
      case _ => None
  }

  lemma {:induction false} GatherIsAssembled(received: map<u32, seq<byte>>, evs: seq<Event>, id: TransferId, n: u32)
    requires forall i: u32 :: Lookup(received, i) == LastChunk(evs, id, i)
    ensures Gather(received, n) == Assembled(evs, id, n)
  {
    if n > 0 {
      GatherIsAssembled(received, evs, id, n - 1);
      assert Lookup(received, n - 1) == LastChunk(evs, id, n - 1);
    }
  }

  /**
   Whatever content a ChunkEnd returns decodes from the last-written chunks since the latest
   ChunkStart, all of them present, in order, and their hash is the announced one.
   */
  lemma AcceptedMatchesTrace(evs: seq<Event>, end: Event, id: TransferId, hash: Hasher)
    requires end.Deliver? && Classify(end.data) == Message(ChunkEnd(id))
    requires Step(Final(map[], evs, hash), end, hash).1.Out().Some?
    ensures var start := LatestStart(evs, id);
            && start.Some?
            && var bytes := Assembled(evs, id, start.value.totalChunks);
            && bytes.Some? && Sha256Hex(hash, bytes.value) == start.value.dataHash
            && ContentFromBytes(bytes.value) == Step(Final(map[], evs, hash), end, hash).1.Out()
  {
    hide Classify, Gather;
    var states := Final(map[], evs, hash);
    LedgerAlways(evs, id, hash);
    GatherIsAssembled(states[id].received, evs, id, states[id].totalChunks);
  }

  /**
   If the latest announced hash is that of a content's bytes, an accepted transfer is that
   content, however the chunks were tampered with on the way; the only escape is a hash collision
   between the assembled bytes and the bytes sent.
   */
  lemma AcceptedIsAuthentic(evs: seq<Event>, end: Event, id: TransferId, sent: Content, hash: Hasher)
    requires end.Deliver? && Classify(end.data) == Message(ChunkEnd(id))
    requires Step(Final(map[], evs, hash), end, hash).1.Out().Some?
    requires sent.Representable()
    requires LatestStart(evs, id).Some? && LatestStart(evs, id).value.dataHash == Sha256Hex(hash, ContentToBytes(sent))
    ensures var bytes := Assembled(evs, id, LatestStart(evs, id).value.totalChunks);
            || Step(Final(map[], evs, hash), end, hash).1 == Returned(Some(sent))
            || (bytes.Some? && Collide(hash, bytes.value, ContentToBytes(sent)))
  {
    hide Classify, Step, Assembled, Collide, ContentToBytes, ContentFromBytes, Content.Representable, Sha256Hex;
    AcceptedMatchesTrace(evs, end, id, hash);
    var bytes := Assembled(evs, id, LatestStart(evs, id).value.totalChunks).value;
    SameHexSameBytesOrCollision(hash, bytes, ContentToBytes(sent));
    DecodeEncodedContent(sent);
  }

  // ---------------------------------------------------------------- what the receiver survives

  /**
   A ChunkEnd of a transfer in progress, whose count matches the distinct indices sent, and whose
   announced size the machine does not grant.
   */
  predicate Fatal(evs: seq<Event>, ev: Event) {
    ev.Deliver? &&
    match Classify(ev.data)
    case Message(ChunkEnd(id)) =>
      var start := LatestStart(evs, id);
      && Started(evs, id).Some? && start.Some?
      && |Indices(evs, id)| % 0x1_0000_0000 == start.value.totalChunks && start.value.totalSize > MAX_CAPACITY
    case _ => false
  }

  lemma CrashesIffFatal(evs: seq<Event>, ev: Event, hash: Hasher)
    ensures Step(Final(map[], evs, hash), ev, hash).1.Crashed? <==> Fatal(evs, ev)
  {
    hide Classify, Sha256Hex, ContentFromBytes, Gather, Final, LatestStart, Started, Indices, LastChunk;
    if ev.Deliver? && Classify(ev.data).Message? && Classify(ev.data).message.ChunkEnd? {
      var id := Classify(ev.data).message.transferId;
      var states := Final(map[], evs, hash);
      LedgerAlways(evs, id, hash);
      if id in states {
        assert |states[id].received| == |states[id].received.Keys|;
      }
    }
  }

  /** The receiver survives a trace if and only if no message in it is fatal, given the messages before it. */
  lemma {:induction false} SurvivesIffNoneFatal(evs: seq<Event>, hash: Hasher)
    ensures Survives(map[], evs, hash) <==> forall k :: 0 <= k < |evs| ==> !Fatal(evs[..k], evs[k])
  {
    hide Step, Fatal, Final;
    if evs != [] {
      var n := |evs| - 1;
      var init := evs[..n];
      SurvivesIffNoneFatal(init, hash);
      CrashesIffFatal(init, evs[n], hash);
      assert forall k :: 0 <= k < n ==> init[..k] == evs[..k] && init[k] == evs[k];
    }
  }

  predicate Modest(ev: Event) {
    ev.Deliver? && Classify(ev.data).Message? && Classify(ev.data).message.ChunkStart? ==>
      Classify(ev.data).message.totalSize <= MAX_CAPACITY
  }

  lemma {:induction false} LatestStartIsModest(evs: seq<Event>, id: TransferId)
    requires forall k :: 0 <= k < |evs| ==> Modest(evs[k])
    ensures LatestStart(evs, id).Some? ==> LatestStart(evs, id).value.totalSize <= MAX_CAPACITY
  {
    hide Classify;
    if evs != [] {
      LatestStartIsModest(evs[..|evs| - 1], id);
    }
  }

  /** A trace in which no start announces more than the machine grants is survived, whatever else is in it. */
  lemma ModestStartsAreSurvived(evs: seq<Event>, hash: Hasher)
    requires forall k :: 0 <= k < |evs| ==> Modest(evs[k])
    ensures Survives(map[], evs, hash)
  {
    hide Classify, Started, Indices, LatestStart, Survives;
    forall k | 0 <= k < |evs| ensures !Fatal(evs[..k], evs[k]) {
      forall id ensures LatestStart(evs[..k], id).Some? ==> LatestStart(evs[..k], id).value.totalSize <= MAX_CAPACITY {
        LatestStartIsModest(evs[..k], id);
      }
    }
    SurvivesIffNoneFatal(evs, hash);
  }

  /**
   After any history two messages suffice, of any transfer: a start announcing no chunks, and its
   end, are survived if and only if the machine grants the size announced.
   */
  lemma TwoMessagesAreFatalIff(init: States, evs: seq<Event>, id: TransferId, h: seq<byte>, size: u64, src: nat, now: nat,
                               hash: Hasher)
    requires IsString(id) && IsString(h) && Survives(init, evs, hash)
    ensures var start := Deliver(src, MessageToBytes(ChunkStart(id, 0, h, size)), now);
            var end := Deliver(src, MessageToBytes(ChunkEnd(id)), now);
            && Survives(init, evs + [start], hash)
            && (Survives(init, evs + [start] + [end], hash) <==> size <= MAX_CAPACITY)
  {
    hide MessageToBytes, MessageFromBytes, Final, Survives;
    var s, e: NetworkMessage := ChunkStart(id, 0, h, size), ChunkEnd(id);
    DecodeEncodedMessage(s);
    DecodeEncodedMessage(e);
    var start, end := Deliver(src, MessageToBytes(s), now), Deliver(src, MessageToBytes(e), now);
    Snoc(init, evs, start, id, hash);
    Snoc(init, evs + [start], end, id, hash);
  }
}
