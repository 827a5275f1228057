/**
 The receiving side of a transfer: one message at a time against a table of transfers in
 progress, and the sweep that drops transfers older than the timeout.
 Instants are nanoseconds on a monotonic clock.
 */
module Reassembly {
  import opened Bytes
  import opened Utf8
  import opened ClipboardContent
  import opened Chunking

  const CHUNK_TRANSFER_TIMEOUT: nat := 120 * 1_000_000_000

  /** A capacity a vector can have at all is at most `isize::MAX`. */
  type Capacity = n: nat | n <= 0x7FFF_FFFF_FFFF_FFFF

  /**
   The largest capacity the machine grants, whatever it is. Asking for more ends the program: it
   aborts, or panics if no vector can be that large.
   */
  const MAX_CAPACITY: Capacity

  type TransferId = seq<byte>

  datatype ChunkReceiveState = ChunkReceiveState(
    totalChunks: u32, dataHash: seq<byte>, totalSize: u64, received: map<u32, seq<byte>>, startedAt: nat)

  type States = map<TransferId, ChunkReceiveState>

  // ---------------------------------------------------------------- what one message does

  /** A buffer as the receiver classifies it: a network message, else a bare content, else text. */
  datatype Incoming = Message(message: NetworkMessage) | Legacy(content: Content)

  /** How the handler ends: it returns, perhaps with a content, or it crashes, which ends the program. */
  datatype Reply = Returned(value: Option<Content>) | Crashed {
    function Out(): Option<Content> {
      if Returned? then value else None
    }
  }

  function Classify(data: seq<byte>): Incoming {
    match MessageFromBytes(data)
    case Some(m) => Message(m)
    case None =>
      match ContentFromBytes(data)
      case Some(c) => Legacy(c)
      case None => Legacy(Text(FromUtf8Lossy(data)))
  }

  /** The chunks 0..n-1 in order, if all of them are there. */
  function Gather(received: map<u32, seq<byte>>, n: u32): Option<seq<byte>> {
    if n == 0 then Some([])
    else
      match Gather(received, n - 1)
      case None => None
      case Some(prefix) => if n - 1 in received then Some(prefix + received[n - 1]) else None
  }

  predicate CountMatches(st: ChunkReceiveState) {
    |st.received| % 0x1_0000_0000 == st.totalChunks
  }

  /** The receiver's two checks before it hashes: the stored count, and every index present. */
  predicate Assembles(st: ChunkReceiveState) {
    CountMatches(st) && Gather(st.received, st.totalChunks).Some?
  }

  /** Once the count matches, the announced size is reserved, whatever it is. */
  predicate Overreserves(st: ChunkReceiveState) {
    CountMatches(st) && st.totalSize > MAX_CAPACITY
  }

  /** What a ChunkEnd makes of the transfer's state. */
  function Complete(st: ChunkReceiveState, hash: Hasher): Reply {
    if Overreserves(st) then Crashed
    else if !Assembles(st) then Returned(None)
    else
      var full := Gather(st.received, st.totalChunks).value;
      Returned(if Sha256Hex(hash, full) != st.dataHash then None else ContentFromBytes(full))
  }

  function Handle(states: States, incoming: Incoming, now: nat, hash: Hasher): (States, Reply) {
    match incoming
    case Legacy(content) => (states, Returned(Some(content)))
    case Message(Direct(content)) => (states, Returned(Some(content)))
    case Message(ChunkStart(id, n, h, size)) =>
      (states[id := ChunkReceiveState(n, h, size, map[], now)], Returned(None))
    case Message(Chunk(id, i, data)) =>
      if id in states then (states[id := states[id].(received := states[id].received[i := data])], Returned(None))
      else (states, Returned(None))
    case Message(ChunkEnd(id)) =>
      if id in states then (states - {id}, Complete(states[id], hash)) else (states, Returned(None))
  }

  predicate Stale(st: ChunkReceiveState, now: nat) {
    now - st.startedAt > CHUNK_TRANSFER_TIMEOUT
  }

  function Cleanup(states: States, now: nat): States {
    map id | id in states && !Stale(states[id], now) :: states[id]
  }

  // ---------------------------------------------------------------- the source's form

  class Receiver {
    var chunkStates: States

    constructor ()
      ensures chunkStates == map[]
    {
      chunkStates := map[];
    }

    /** `handle_incoming_message`. */
    method HandleIncomingMessage(data: seq<byte>, now: nat, hash: Hasher) returns (r: Reply)
      modifies this
      ensures (chunkStates, r) == Handle(old(chunkStates), Classify(data), now, hash)
    {
      match MessageFromBytes(data) {
        case Some(Direct(content)) =>
          return Returned(Some(content));
        case Some(ChunkStart(id, totalChunks, dataHash, totalSize)) =>
          chunkStates := chunkStates[id := ChunkReceiveState(totalChunks, dataHash, totalSize, map[], now)];
          return Returned(None);
        case Some(Chunk(id, index, chunk)) =>
          if id in chunkStates {
            var state := chunkStates[id];
            chunkStates := chunkStates[id := state.(received := state.received[index := chunk])];
          }
          return Returned(None);
        case Some(ChunkEnd(id)) =>
          if id in chunkStates {
            var state := chunkStates[id];
            chunkStates := chunkStates - {id};
            r := Finish(state, hash);
            return;
          }
          return Returned(None);
        case None =>
          match ContentFromBytes(data) {
            case Some(content) => return Returned(Some(content));
            case None => return Returned(Some(Text(FromUtf8Lossy(data))));
          }
      }
    }

    /** The body of the ChunkEnd arm, once the state has been taken out of the table. */
    static method Finish(state: ChunkReceiveState, hash: Hasher) returns (r: Reply)
      ensures r == Complete(state, hash)
    {
      hide Sha256Hex, ContentFromBytes;
      if |state.received| % 0x1_0000_0000 != state.totalChunks {
        return Returned(None);
      }
      if state.totalSize > MAX_CAPACITY {
        return Crashed;
      }
      var fullData := [];
      var i: u32 := 0;
      while i < state.totalChunks
        invariant i <= state.totalChunks && Gather(state.received, i) == Some(fullData)
      {
        if i !in state.received {
          GatherNeedsAll(state.received, i, state.totalChunks);
          return Returned(None);
        }
        fullData := fullData + state.received[i];
        i := i + 1;
      }
      if Sha256Hex(hash, fullData) != state.dataHash {
        return Returned(None);
      }
      return Returned(ContentFromBytes(fullData));
    }

    /** `cleanup_stale_chunk_states`: collect the stale ids, then remove them one by one. */
    method CleanupStaleChunkStates(now: nat)
      modifies this
      ensures chunkStates == Cleanup(old(chunkStates), now)
    {
      var staleIds := set id | id in chunkStates && Stale(chunkStates[id], now);
      while staleIds != {}
        invariant staleIds <= chunkStates.Keys
        invariant forall id :: id in staleIds ==> Stale(chunkStates[id], now)
        invariant forall id :: id in chunkStates && id !in staleIds ==> !Stale(chunkStates[id], now)
        invariant Cleanup(chunkStates, now) == Cleanup(old(chunkStates), now)
        decreases staleIds
      {
        var id :| id in staleIds;
        chunkStates := chunkStates - {id};
        staleIds := staleIds - {id};
      }
      assert chunkStates == Cleanup(chunkStates, now);
    }
  }

  /** A sweep keeps a transfer, as it is, until more than 120 seconds after its start. */
  lemma KeptForTwoMinutes(states: States, now: nat, id: TransferId)
    ensures id in Cleanup(states, now) <==> id in states && now <= states[id].startedAt + 120_000_000_000
    ensures id in Cleanup(states, now) ==> Cleanup(states, now)[id] == states[id]
  {
  }

  // ---------------------------------------------------------------- acceptance is exact

  lemma {:induction false} GatherNeedsAll(received: map<u32, seq<byte>>, i: u32, n: u32)
    requires i < n && i !in received
    ensures Gather(received, n).None?
  {
    if i < n - 1 {
      GatherNeedsAll(received, i, n - 1);
    }
  }

  lemma {:induction false} GatherExact(received: map<u32, seq<byte>>, n: u32)
    ensures Gather(received, n).Some? <==> forall i: u32 :: i < n ==> i in received
  {
    if n > 0 {
      GatherExact(received, n - 1);
    }
  }

  function Below(n: nat): (r: set<u32>)
    requires n <= 0x1_0000_0000
    ensures forall i: u32 :: i in r <==> i < n
  {
    if n == 0 then {} else Below(n - 1) + {n - 1}
  }

  lemma {:induction false} BelowSize(n: nat)
    requires n <= 0x1_0000_0000
    ensures |Below(n)| == n
  {
    if n > 0 {
      BelowSize(n - 1);
    }
  }

  lemma SubsetOfEqualSize<T>(a: set<T>, b: set<T>)
    requires a <= b && |a| == |b|
    ensures a == b
  {
    if x :| x in b && x !in a {
      assert |b - {x}| == |b| - 1;
      SubsetSize(a, b - {x});
    }
  }

  lemma {:induction false} SubsetSize<T>(a: set<T>, b: set<T>)
    requires a <= b
    ensures |a| <= |b|
  {
    if a != {} {
      var x :| x in a;
      SubsetSize(a - {x}, b - {x});
    }
  }

  /**
   The two checks pass exactly when the received indices are 0..totalChunks-1; the one other
   case is a table holding all 2^32 indices for an announced count of 0, where the 32-bit cast wraps.
   */
  lemma AcceptanceIsExact(st: ChunkReceiveState)
    ensures Assembles(st) <==>
              || st.received.Keys == Below(st.totalChunks)
              || (st.totalChunks == 0 && |st.received| == 0x1_0000_0000)
  {
    hide Gather, Below;
    var keys, n := st.received.Keys, st.totalChunks;
    AtMostAllIndices(keys);
    GatherExact(st.received, n);
    RangeBySize(keys, n);
    assert |keys| == |st.received|;
  }

  lemma RangeBySize(keys: set<u32>, n: u32)
    ensures keys == Below(n) <==> |keys| == n && forall i: u32 :: i < n ==> i in keys
  {
    BelowSize(n);
    if |keys| == n && forall i: u32 :: i < n ==> i in keys {
      SubsetOfEqualSize(Below(n), keys);
    }
  }

  lemma AtMostAllIndices(keys: set<u32>)
    ensures |keys| <= 0x1_0000_0000
  {
    BelowSize(0x1_0000_0000);
    SubsetSize(keys, Below(0x1_0000_0000));
  }

  // ---------------------------------------------------------------- traces

  /** What reaches the receiver: a buffer published by some sender, or a turn of the loop's sweep. */
  datatype Event = Deliver(src: nat, data: seq<byte>, now: nat) | Sweep(now: nat)

  function Step(states: States, ev: Event, hash: Hasher): (States, Reply) {
    match ev
    case Deliver(_, data, now) => Handle(states, Classify(data), now, hash)
    case Sweep(now) => (Cleanup(states, now), Returned(None))
  }

  /** The table after a trace, as long as the receiver survives it. */
  function Final(init: States, evs: seq<Event>, hash: Hasher): States {
    if evs == [] then init
    else Step(Final(init, evs[..|evs| - 1], hash), evs[|evs| - 1], hash).0
  }

  /** No message of the trace made the receiver crash. */
  predicate Survives(init: States, evs: seq<Event>, hash: Hasher) {
    evs == []
    || (Survives(init, evs[..|evs| - 1], hash) && Step(Final(init, evs[..|evs| - 1], hash), evs[|evs| - 1], hash).1.Returned?)
  }

  /** How the receiver took event `k`; a crash is for good. */
  function OutputAt(init: States, evs: seq<Event>, k: nat, hash: Hasher): Reply
    requires k < |evs|
  {
    if Survives(init, evs[..k], hash) then Step(Final(init, evs[..k], hash), evs[k], hash).1 else Crashed
  }

  lemma FinalStep(init: States, evs: seq<Event>, k: nat, hash: Hasher)
    requires k < |evs|
    ensures Final(init, evs[..k + 1], hash) == Step(Final(init, evs[..k], hash), evs[k], hash).0
  {
    assert evs[..k + 1][..k] == evs[..k];
  }

  /** The transfer a buffer belongs to, if it is part of one. */
  function TransferOf(incoming: Incoming): Option<TransferId> {
    match incoming
    case Message(ChunkStart(id, _, _, _)) => Some(id)
    case Message(Chunk(id, _, _)) => Some(id)
    case Message(ChunkEnd(id)) => Some(id)
    case _ => None
  }

  predicate Owns(ev: Event, id: TransferId) {
    ev.Deliver? && TransferOf(Classify(ev.data)) == Some(id)
  }

  // ---------------------------------------------------------------- non-interference

  function Restrict(states: States, id: TransferId): States {
    if id in states then map[id := states[id]] else map[]
  }

  /** The sub-trace of one transfer: its own messages and every sweep. */
  function Project(evs: seq<Event>, id: TransferId): seq<Event> {
    if evs == [] then []
    else
      var ev := evs[|evs| - 1];
      Project(evs[..|evs| - 1], id) + (if ev.Sweep? || Owns(ev, id) then [ev] else [])
  }

  /** The outputs at a transfer's own messages, in order, sweeps included as no output. */
  function OutputsFor(init: States, evs: seq<Event>, id: TransferId, hash: Hasher): seq<Reply> {
    if evs == [] then []
    else
      var k := |evs| - 1;
      OutputsFor(init, evs[..k], id, hash)
      + (if evs[k].Sweep? || Owns(evs[k], id) then [OutputAt(init, evs, k, hash)] else [])
  }

  lemma OwnStepIsLocal(states: States, ev: Event, id: TransferId, hash: Hasher)
    requires ev.Sweep? || Owns(ev, id)
    ensures Restrict(Step(states, ev, hash).0, id) == Step(Restrict(states, id), ev, hash).0
    ensures Step(states, ev, hash).1 == Step(Restrict(states, id), ev, hash).1
  {
  }

  lemma ForeignStepIsInvisible(states: States, ev: Event, id: TransferId, hash: Hasher)
    requires ev.Deliver? && !Owns(ev, id)
    ensures Restrict(Step(states, ev, hash).0, id) == Restrict(states, id)
  {
  }

  /** The projection agrees with the whole trace: it survives, with the same state for the id and the same outputs at its messages. */
  predicate Undisturbed(init: States, evs: seq<Event>, id: TransferId, hash: Hasher) {
    var own := Project(evs, id);
    && Survives(Restrict(init, id), own, hash)
    && Restrict(Final(init, evs, hash), id) == Final(Restrict(init, id), own, hash)
    && OutputsFor(init, evs, id, hash) == OutputsFor(Restrict(init, id), own, id, hash)
  }

  /**
   Transfers do not interfere: over any trace the receiver survives, the state kept for an id and
   everything returned at its messages are those of the trace with all other messages taken out.
   Whether it survives is itself decided transfer by transfer, as `SurvivalIsPerTransfer` says.
   */
  lemma {:induction false} NonInterference(init: States, evs: seq<Event>, id: TransferId, hash: Hasher)
    requires Survives(init, evs, hash)
    ensures Undisturbed(init, evs, id, hash)
  {
    hide Step, Owns, OutputAt;
    if evs != [] {
      var k := |evs| - 1;
      NonInterference(init, evs[..k], id, hash);
      UndisturbedStep(init, evs[..k], evs[k], id, hash);
      assert evs == evs[..k] + [evs[k]];
    }
  }

  lemma UndisturbedStep(init: States, evs: seq<Event>, ev: Event, id: TransferId, hash: Hasher)
    requires Undisturbed(init, evs, id, hash) && Survives(init, evs + [ev], hash)
    ensures Undisturbed(init, evs + [ev], id, hash)
  {
    hide Step, Final, Project, OutputsFor, Restrict, Owns, Survives;
    Snoc(init, evs, ev, id, hash);
    Snoc(Restrict(init, id), Project(evs, id), ev, id, hash);
    if ev.Sweep? || Owns(ev, id) {
      OwnStepIsLocal(Final(init, evs, hash), ev, id, hash);
    } else {
      ForeignStepIsInvisible(Final(init, evs, hash), ev, id, hash);
      assert Project(evs + [ev], id) == Project(evs, id);
      assert OutputsFor(init, evs + [ev], id, hash) == OutputsFor(init, evs, id, hash);
    }
  }

  lemma Snoc(init: States, evs: seq<Event>, ev: Event, id: TransferId, hash: Hasher)
    ensures var more, reply := evs + [ev], Step(Final(init, evs, hash), ev, hash).1;
            && Final(init, more, hash) == Step(Final(init, evs, hash), ev, hash).0
            && (Survives(init, more, hash) <==> Survives(init, evs, hash) && reply.Returned?)
            && Project(more, id) == Project(evs, id) + (if ev.Sweep? || Owns(ev, id) then [ev] else [])
            && OutputsFor(init, more, id, hash)
               == OutputsFor(init, evs, id, hash)
                  + (if ev.Sweep? || Owns(ev, id) then [if Survives(init, evs, hash) then reply else Crashed] else [])
  {
    hide Step, Owns;
    assert (evs + [ev])[..|evs|] == evs;
  }

  // ---------------------------------------------------------------- survival is per transfer

  lemma {:induction false} SurvivesPrefix(init: States, evs: seq<Event>, k: nat, hash: Hasher)
    requires k <= |evs| && Survives(init, evs, hash)
    ensures Survives(init, evs[..k], hash)
  {
    hide Step;
    if k == |evs| {
      assert evs[..k] == evs;
    } else {
      SurvivesPrefix(init, evs[..|evs| - 1], k, hash);
      assert evs[..|evs| - 1][..k] == evs[..k];
    }
  }

  lemma {:induction false} ProjectPrefix(evs: seq<Event>, k: nat, id: TransferId)
    requires k <= |evs|
    ensures Project(evs[..k], id) <= Project(evs, id)
  {
    hide Owns;
    if k == |evs| {
      assert evs[..k] == evs;
    } else {
      ProjectPrefix(evs[..|evs| - 1], k, id);
      assert evs[..|evs| - 1][..k] == evs[..k];
    }
  }

  /** The transfer's own messages and the sweeps, with nothing else before them, do no harm. */
  predicate Harmless(init: States, evs: seq<Event>, id: TransferId, hash: Hasher) {
    Survives(Restrict(init, id), Project(evs, id), hash)
  }

  lemma HarmlessPrefix(init: States, evs: seq<Event>, k: nat, id: TransferId, hash: Hasher)
    requires k <= |evs| && Harmless(init, evs, id, hash)
    ensures Harmless(init, evs[..k], id, hash)
  {
    hide Survives, Project, Restrict;
    ProjectPrefix(evs, k, id);
    var part := Project(evs[..k], id);
    SurvivesPrefix(Restrict(init, id), Project(evs, id), |part|, hash);
    assert Project(evs, id)[..|part|] == part;
  }

  /** A message of a harmless transfer is survived. */
  lemma HarmlessStep(init: States, evs: seq<Event>, ev: Event, id: TransferId, hash: Hasher)
    requires Survives(init, evs, hash) && Owns(ev, id) && Harmless(init, evs + [ev], id, hash)
    ensures Survives(init, evs + [ev], hash)
  {
    hide Step, Final, Project, OutputsFor, Restrict, Owns, Survives;
    NonInterference(init, evs, id, hash);
    Snoc(init, evs, ev, id, hash);
    Snoc(Restrict(init, id), Project(evs, id), ev, id, hash);
    OwnStepIsLocal(Final(init, evs, hash), ev, id, hash);
  }

  /** Only a transfer's message can stop the receiver. */
  lemma OthersReturn(init: States, evs: seq<Event>, ev: Event, hash: Hasher)
    requires Survives(init, evs, hash) && (ev.Sweep? || TransferOf(Classify(ev.data)) == None)
    ensures Survives(init, evs + [ev], hash)
  {
    hide Final, Classify, Cleanup;
    assert (evs + [ev])[..|evs|] == evs;
  }

  /** The receiver survives a trace if and only if it survives each transfer's own part of it. */
  lemma {:induction false} SurvivalIsPerTransfer(init: States, evs: seq<Event>, hash: Hasher)
    ensures Survives(init, evs, hash) <==> forall id :: Harmless(init, evs, id, hash)
  {
    hide Step, Final, Project, OutputsFor, Restrict, Survives, Classify, Owns;
    if Survives(init, evs, hash) {
      forall id ensures Harmless(init, evs, id, hash) {
        NonInterference(init, evs, id, hash);
      }
    }
    if forall id :: Harmless(init, evs, id, hash) {
      SurvivesAllHarmless(init, evs, |evs|, hash);
      assert evs[..|evs|] == evs;
    }
  }

  lemma {:induction false} SurvivesAllHarmless(init: States, evs: seq<Event>, k: nat, hash: Hasher)
    requires k <= |evs| && forall id :: Harmless(init, evs, id, hash)
    ensures Survives(init, evs[..k], hash)
  {
    hide Step, Final, Project, Restrict, Classify, Harmless;
    if k > 0 {
      SurvivesAllHarmless(init, evs, k - 1, hash);
      var ev := evs[k - 1];
      assert evs[..k] == evs[..k - 1] + [ev];
      if ev.Deliver? && TransferOf(Classify(ev.data)).Some? {
        var id := TransferOf(Classify(ev.data)).value;
        HarmlessPrefix(init, evs, k, id, hash);
        HarmlessStep(init, evs[..k - 1], ev, id, hash);
      } else {
        OthersReturn(init, evs[..k - 1], ev, hash);
      }
    }
  }
}
