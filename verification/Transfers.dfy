/**
 Whole transfers: one transfer among arbitrary other traffic, and what any accepted
 transfer proves about the bytes that were sent.
 */
module Transfers {
  import opened Bytes
  import opened Utf8
  import opened ClipboardContent
  import opened Chunking
  import opened Reassembly

  // ---------------------------------------------------------------- a transfer being built

  /** The state announces this transfer and holds only right pieces of it. */
  predicate Building(st: ChunkReceiveState, raw: seq<byte>, hash: Hasher) {
    && st.totalChunks == PieceCount(raw) && st.dataHash == Sha256Hex(hash, raw)
    && st.totalSize == |raw| % 0x1_0000_0000_0000_0000
    && forall i :: i in st.received ==> i < PieceCount(raw) && st.received[i] == Piece(raw, i)
  }

  lemma {:induction false} GatherPieces(received: map<u32, seq<byte>>, raw: seq<byte>, n: u32)
    requires n <= PieceCount(raw)
    requires forall i: u32 :: i < n ==> i in received && received[i] == Piece(raw, i)
    ensures Gather(received, n) == Some(Flatten(Pieces(raw, n)))
  {
    if n > 0 {
      GatherPieces(received, raw, n - 1);
      assert Pieces(raw, n)[..n - 1] == Pieces(raw, n - 1);
    }
  }

  /** The size a split announces is that of its bytes: the 32-bit chunk count already keeps it from wrapping. */
  lemma SplitSizeIsExact(st: ChunkReceiveState, raw: seq<byte>, hash: Hasher)
    requires Building(st, raw, hash)
    ensures st.totalSize == |raw|
  {
  }

  /** A state holding all pieces of a content yields it, if and only if the machine has room for it. */
  lemma CompleteTransfer(st: ChunkReceiveState, content: Content, hash: Hasher)
    requires content.Representable() && Building(st, ContentToBytes(content), hash)
    requires st.received.Keys == Below(st.totalChunks)
    ensures Complete(st, hash) == if |ContentToBytes(content)| <= MAX_CAPACITY then Returned(Some(content)) else Crashed
  {
    hide ContentToBytes, Content.Representable, Sha256Hex, ContentFromBytes;
    SplitSizeIsExact(st, ContentToBytes(content), hash);
    var raw := ContentToBytes(content);
    AcceptanceIsExact(st);
    GatherPieces(st.received, raw, st.totalChunks);
    PiecesJoin(raw, st.totalChunks);
    assert raw[..|raw|] == raw;
    DecodeEncodedContent(content);
  }

  /** The event brings a buffer that the receiver reads as this message. */
  predicate Carries(ev: Event, m: NetworkMessage) {
    ev.Deliver? && Classify(ev.data) == Message(m)
  }

  /** The bytes a sender publishes for a message of a split are read as that message. */
  lemma PublishedIsRead(content: Content, id: TransferId, m: NetworkMessage, hash: Hasher)
    requires content.Representable() && UuidText(id) && m in Split(content, hash, id)
    ensures Classify(MessageToBytes(m)) == Message(m)
  {
    hide MessageToBytes, MessageFromBytes, NetworkMessage.Representable, Content.Representable, Split, UuidText;
    SplitIsRepresentable(content, hash, id);
    DecodeEncodedMessage(m);
  }

  // ---------------------------------------------------------------- reassembly round trip

  /** One chunked transfer inside a trace: where its start and its first end arrive. */
  datatype Transfer = Transfer(content: Content, id: TransferId, start: nat, end: nat) {
    function Raw(): seq<byte> { ContentToBytes(content) }

    predicate Valid() {
      && content.Representable() && UuidText(id) && |Raw()| > CHUNK_DATA_SIZE && CountFits(Raw())
      && |Raw()| <= MAX_CAPACITY
    }

    /** The k-th chunk message, counting from 0. */
    function ChunkMessage(k: u32): NetworkMessage
      requires k < PieceCount(Raw())
    {
      Chunk(id, k, Piece(Raw(), k))
    }

    function StartMessage(hash: Hasher): NetworkMessage
      requires Valid()
    {
      ChunkStart(id, PieceCount(Raw()), Sha256Hex(hash, Raw()), |Raw()| % 0x1_0000_0000_0000_0000)
    }

    predicate ChunkAt(ev: Event) {
      exists k: u32 :: k < PieceCount(Raw()) && Carries(ev, ChunkMessage(k))
    }

    /** What the sender publishes for the content. */
    function Messages(hash: Hasher): seq<NetworkMessage> { Split(content, hash, id) }

    /** The event brings one of the split's chunks: any of its messages but the first and the last. */
    predicate ChunkOf(ev: Event, hash: Hasher) {
      var ms := Messages(hash);
      exists k :: 0 < k < |ms| - 1 && Carries(ev, ms[k])
    }

    /**
     The messages of the sender's split arrive: the first comes once and before the others; the
     last comes after all the chunks; chunks come in any order, any number of times; no sweep falls
     more than the timeout after the start. Nothing is asked of messages of other transfers.
     */
    ghost predicate ArrivesIn(evs: seq<Event>, hash: Hasher)
      requires Valid()
    {
      var ms := Messages(hash);
      && start < end < |evs| && |ms| > 2
      && Carries(evs[start], ms[0]) && Carries(evs[end], ms[|ms| - 1])
      && (forall i :: 0 <= i < start ==> !Owns(evs[i], id))
      && (forall i :: start < i < end && Owns(evs[i], id) ==> ChunkOf(evs[i], hash))
      && (forall k :: 0 < k < |ms| - 1 ==> exists i :: start < i < end && Carries(evs[i], ms[k]))
      && (forall i :: end < i < |evs| && Owns(evs[i], id) ==> !Classify(evs[i].data).message.ChunkStart?)
      && (forall i :: start < i < end && evs[i].Sweep? ==> evs[i].now <= evs[start].now + CHUNK_TRANSFER_TIMEOUT)
    }

    /** The same with the messages written out. */
    ghost predicate Arrives(evs: seq<Event>, hash: Hasher)
      requires Valid()
    {
      && start < end < |evs|
      && Carries(evs[start], StartMessage(hash)) && Carries(evs[end], ChunkEnd(id))
      && (forall i :: 0 <= i < start ==> !Owns(evs[i], id))
      && (forall i :: start < i < end && Owns(evs[i], id) ==> ChunkAt(evs[i]))
      && (forall k: u32 :: k < PieceCount(Raw()) ==> exists i :: start < i < end && Carries(evs[i], ChunkMessage(k)))
      && (forall i :: end < i < |evs| && Owns(evs[i], id) ==> !Classify(evs[i].data).message.ChunkStart?)
      && (forall i :: start < i < end && evs[i].Sweep? ==> evs[i].now <= evs[start].now + CHUNK_TRANSFER_TIMEOUT)
    }

    /** The receiver's state for this transfer just before event `k`. */
    ghost predicate Tracked(states: States, evs: seq<Event>, k: nat, hash: Hasher)
      requires Valid() && k <= |evs|
    {
      if k <= start || k > end then id !in states
      else
        && id in states && Building(states[id], Raw(), hash) && states[id].startedAt == evs[start].now
        && forall i, n: u32 :: start < i < k && n < PieceCount(Raw()) && Carries(evs[i], ChunkMessage(n)) ==>
             n in states[id].received
    }
  }

  /** The messages of a split, written out. */
  lemma SplitShape(content: Content, id: TransferId, hash: Hasher)
    requires CountFits(ContentToBytes(content))
    ensures var raw, ms := ContentToBytes(content), Split(content, hash, id);
            if |raw| <= CHUNK_DATA_SIZE then ms == [Direct(content)]
            else
              && |ms| == PieceCount(raw) + 2
              && ms[0] == ChunkStart(id, PieceCount(raw), Sha256Hex(hash, raw), |raw| % 0x1_0000_0000_0000_0000)
              && (forall k :: 1 <= k <= PieceCount(raw) ==> ms[k] == Chunk(id, k - 1, Piece(raw, k - 1)))
              && ms[PieceCount(raw) + 1] == ChunkEnd(id)
  {
    hide ContentToBytes, Sha256Hex, Piece;
    TransferMessageAt(ContentToBytes(content), hash, id);
  }

  lemma MessagesOf(t: Transfer, hash: Hasher)
    requires t.Valid()
    ensures var ms, n := t.Messages(hash), PieceCount(t.Raw());
            && n < 0x1_0000_0000 && |ms| == n + 2 && ms[0] == t.StartMessage(hash) && ms[n + 1] == ChunkEnd(t.id)
            && forall k: u32 :: k < n ==> ms[k + 1] == t.ChunkMessage(k)
  {
    hide Split, ContentToBytes, Sha256Hex, Piece, PieceCount;
    SplitShape(t.content, t.id, hash);
  }

  lemma ArrivalWrittenOut(t: Transfer, evs: seq<Event>, hash: Hasher)
    requires t.Valid() && t.ArrivesIn(evs, hash)
    ensures t.Arrives(evs, hash)
  {
    hide Transfer.Valid, Transfer.Messages, Transfer.Raw, Classify, Carries, Transfer.StartMessage, Transfer.ChunkMessage, PieceCount;
    MessagesOf(t, hash);
    var ms := t.Messages(hash);
    forall i | t.start < i < t.end && Owns(evs[i], t.id) ensures t.ChunkAt(evs[i]) {
      assert t.ChunkOf(evs[i], hash);
      var k :| 0 < k < |ms| - 1 && Carries(evs[i], ms[k]);
      var n: u32 := k - 1;
      assert ms[n + 1] == t.ChunkMessage(n);
      assert Carries(evs[i], t.ChunkMessage(n));
    }
    forall k: u32 | k < PieceCount(t.Raw()) ensures exists i :: t.start < i < t.end && Carries(evs[i], t.ChunkMessage(k)) {
      var m := ms[k + 1];
      assert m == t.ChunkMessage(k);
      var i :| t.start < i < t.end && Carries(evs[i], m);
    }
    assert Carries(evs[t.start], t.StartMessage(hash));
    assert Carries(evs[t.end], ChunkEnd(t.id));
    assert forall k: u32 :: k < PieceCount(t.Raw()) ==> exists i :: t.start < i < t.end && Carries(evs[i], t.ChunkMessage(k));
  }

  /** What the receiver returns at event `k` and keeps afterwards, given what it kept before. */
  ghost predicate StepsWell(t: Transfer, states: States, evs: seq<Event>, k: nat, hash: Hasher)
    requires t.Valid() && k < |evs|
  {
    && t.Tracked(Step(states, evs[k], hash).0, evs, k + 1, hash)
    && (Owns(evs[k], t.id) ==> Step(states, evs[k], hash).1 == Returned(if k == t.end then Some(t.content) else None))
  }

  lemma StepElsewhere(t: Transfer, states: States, evs: seq<Event>, k: nat, hash: Hasher)
    requires t.Valid() && t.Arrives(evs, hash) && k < |evs| && t.Tracked(states, evs, k, hash)
    requires !Owns(evs[k], t.id)
    ensures StepsWell(t, states, evs, k, hash)
  {
    hide Transfer.Valid, Classify, Transfer.Raw, PieceCount, Building;
    if evs[k].Deliver? {
      ForeignStepIsInvisible(states, evs[k], t.id, hash);
    }
  }

  lemma StepAtChunk(t: Transfer, states: States, evs: seq<Event>, k: nat, hash: Hasher)
    requires t.Valid() && t.Arrives(evs, hash) && k < |evs| && t.Tracked(states, evs, k, hash)
    requires Owns(evs[k], t.id) && t.start < k < t.end
    ensures StepsWell(t, states, evs, k, hash)
  {
    hide Transfer.Valid, Classify, Transfer.Raw, Piece;
    assert t.ChunkAt(evs[k]);
  }

  lemma AllReceived(t: Transfer, states: States, evs: seq<Event>, hash: Hasher)
    requires t.Valid() && t.Arrives(evs, hash) && t.Tracked(states, evs, t.end, hash)
    ensures forall n: u32 :: n < PieceCount(t.Raw()) ==> n in states[t.id].received
  {
    hide Transfer.Valid, Transfer.Raw, Transfer.ChunkMessage, Carries, Classify, PieceCount, Building;
    forall n: u32 | n < PieceCount(t.Raw()) ensures n in states[t.id].received {
      var m := t.ChunkMessage(n);
      assert exists i :: t.start < i < t.end && Carries(evs[i], m);
      var i :| t.start < i < t.end && Carries(evs[i], m);
    }
  }

  lemma StepAtEnd(t: Transfer, states: States, evs: seq<Event>, hash: Hasher)
    requires t.Valid() && t.Arrives(evs, hash) && t.Tracked(states, evs, t.end, hash)
    ensures StepsWell(t, states, evs, t.end, hash)
  {
    hide Classify, ContentToBytes, Piece, Complete, Sha256Hex, Content.Representable, UuidText, Overreserves, Assembles;
    var st := states[t.id];
    AllReceived(t, states, evs, hash);
    assert st.received.Keys == Below(st.totalChunks);
    CompleteTransfer(st, t.content, hash);
  }

  lemma StepAtStart(t: Transfer, states: States, evs: seq<Event>, hash: Hasher)
    requires t.Valid() && t.Arrives(evs, hash)
    ensures StepsWell(t, states, evs, t.start, hash)
  {
    hide Classify, ContentToBytes, Piece;
  }

  lemma TrackedStep(t: Transfer, states: States, evs: seq<Event>, k: nat, hash: Hasher)
    requires t.Valid() && t.Arrives(evs, hash) && k < |evs| && t.Tracked(states, evs, k, hash)
    ensures StepsWell(t, states, evs, k, hash)
  {
    hide Transfer.Valid, StepsWell, Classify, Transfer.Raw;
    if !Owns(evs[k], t.id) {
      StepElsewhere(t, states, evs, k, hash);
    } else if t.start < k < t.end {
      StepAtChunk(t, states, evs, k, hash);
    } else if k == t.end {
      StepAtEnd(t, states, evs, hash);
    } else if k == t.start {
      StepAtStart(t, states, evs, hash);
    } else {
      StepAfterEnd(t, states, evs, k, hash);
    }
  }

  lemma StepAfterEnd(t: Transfer, states: States, evs: seq<Event>, k: nat, hash: Hasher)
    requires t.Valid() && t.Arrives(evs, hash) && t.end < k < |evs| && Owns(evs[k], t.id) && t.id !in states
    ensures StepsWell(t, states, evs, k, hash)
  {
    hide Classify, Transfer.Raw, Transfer.Valid;
  }

  lemma {:induction false} TrackedThroughout(t: Transfer, init: States, evs: seq<Event>, k: nat, hash: Hasher)
    requires t.Valid() && t.Arrives(evs, hash) && t.id !in init && k <= |evs|
    ensures t.Tracked(Final(init, evs[..k], hash), evs, k, hash)
  {
    hide Transfer.Arrives, Step;
    if k > 0 {
      TrackedThroughout(t, init, evs, k - 1, hash);
      TrackedStep(t, Final(init, evs[..k - 1], hash), evs, k - 1, hash);
      FinalStep(init, evs, k - 1, hash);
    }
  }

  /**
   A transfer that arrives complete is returned exactly, once, at its last message; its other
   messages return nothing; no state is left behind. Other traffic may be anything at all: the one
   thing it can do to this transfer is to crash the receiver.
   */
  lemma ReassemblyRoundTrip(t: Transfer, init: States, evs: seq<Event>, hash: Hasher)
    requires t.Valid() && t.ArrivesIn(evs, hash) && t.id !in init
    ensures forall k :: 0 <= k < |evs| && Owns(evs[k], t.id) ==>
              OutputAt(init, evs, k, hash)
              == if Survives(init, evs[..k], hash) then Returned(if k == t.end then Some(t.content) else None) else Crashed
    ensures Owns(evs[t.end], t.id)
    ensures t.id !in Final(init, evs, hash)
  {
    hide Transfer.Valid, Transfer.ArrivesIn, Step, Survives;
    ArrivalWrittenOut(t, evs, hash);
    forall k | 0 <= k < |evs| && Owns(evs[k], t.id)
      ensures OutputAt(init, evs, k, hash)
           == if Survives(init, evs[..k], hash) then Returned(if k == t.end then Some(t.content) else None) else Crashed
    {
      TrackedThroughout(t, init, evs, k, hash);
      TrackedStep(t, Final(init, evs[..k], hash), evs, k, hash);
    }
    TrackedThroughout(t, init, evs, |evs|, hash);
    assert evs[..|evs|] == evs;
  }

  /** So the transfer is received if and only if each other transfer, by itself, does no harm. */
  lemma OnlyOthersStopIt(t: Transfer, init: States, evs: seq<Event>, hash: Hasher)
    requires t.Valid() && t.ArrivesIn(evs, hash) && t.id !in init
    ensures Survives(init, evs, hash) <==> forall id :: id != t.id ==> Harmless(init, evs, id, hash)
  {
    hide Transfer.Valid, Transfer.ArrivesIn, Survives, Harmless;
    SurvivalIsPerTransfer(init, evs, hash);
    ReassemblyRoundTrip(t, init, evs, hash);
    if forall id :: id != t.id ==> Harmless(init, evs, id, hash) {
      SurvivesWithOthers(t, init, evs, |evs|, hash);
      assert evs[..|evs|] == evs;
    }
  }

  lemma {:induction false} SurvivesWithOthers(t: Transfer, init: States, evs: seq<Event>, k: nat, hash: Hasher)
    requires t.Valid() && t.ArrivesIn(evs, hash) && t.id !in init && k <= |evs|
    requires forall id :: id != t.id ==> Harmless(init, evs, id, hash)
    ensures Survives(init, evs[..k], hash)
  {
    hide Transfer.Valid, Transfer.ArrivesIn, Step, Final, Harmless, Classify;
    if k > 0 {
      SurvivesWithOthers(t, init, evs, k - 1, hash);
      var ev := evs[k - 1];
      assert evs[..k] == evs[..k - 1] + [ev];
      if ev.Sweep? || TransferOf(Classify(ev.data)) == None {
        OthersReturn(init, evs[..k - 1], ev, hash);
      } else if Owns(ev, t.id) {
        ReassemblyRoundTrip(t, init, evs, hash);
      } else {
        var id := TransferOf(Classify(ev.data)).value;
        HarmlessPrefix(init, evs, k, id, hash);
        HarmlessStep(init, evs[..k - 1], ev, id, hash);
      }
    }
  }
}
