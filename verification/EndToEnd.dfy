/**
 Many senders, one receiver: if each sender's published buffers reach the receiver in that
 sender's order, interleaved with the others' in any way, the receiver hands out exactly each
 sender's copies, in order, each once, but for those whose transfer a sweep found too old.
 */
module EndToEnd {
  import opened Bytes
  import opened ClipboardContent
  import opened Chunking
  import opened Reassembly
  import opened Transfers
  import opened Acceptance
  import opened EventLoop

  // ---------------------------------------------------------------- what the network did

  function ReceivedFrom(evs: seq<Event>, s: nat): seq<Buffer> {
    if evs == [] then []
    else
      var ev := evs[|evs| - 1];
      ReceivedFrom(evs[..|evs| - 1], s) + (if ev.Deliver? && ev.src == s then [ev.data] else [])
  }

  function From(deliveries: seq<(nat, Content)>, s: nat): seq<Content> {
    if deliveries == [] then []
    else
      var (src, c) := deliveries[|deliveries| - 1];
      From(deliveries[..|deliveries| - 1], s) + (if src == s then [c] else [])
  }

  /** Some sweep found the transfer in progress for longer than the timeout. */
  predicate Caught(evs: seq<Event>, id: TransferId) {
    if evs == [] then false
    else
      var ev, before := evs[|evs| - 1], evs[..|evs| - 1];
      || Caught(before, id)
      || (ev.Sweep? && Started(before, id).Some? && ev.now - Started(before, id).value > CHUNK_TRANSFER_TIMEOUT)
  }

  // ---------------------------------------------------------------- what a sender sent

  function Contents(copies: seq<Copy>): (cs: seq<Content>)
    ensures |cs| == |copies| && forall i :: 0 <= i < |cs| ==> cs[i] == copies[i].content
  {
    seq(|copies|, i requires 0 <= i < |copies| => copies[i].content)
  }

  /** The contents of the copies no sweep caught. */
  function Uncaught(evs: seq<Event>, copies: seq<Copy>): seq<Content> {
    if copies == [] then []
    else
      var n := |copies| - 1;
      Uncaught(evs, copies[..n]) + (if Caught(evs, copies[n].id) then [] else [copies[n].content])
  }

  lemma {:induction false} NoneCaught(evs: seq<Event>, copies: seq<Copy>)
    requires forall i :: 0 <= i < |copies| ==> !Caught(evs, copies[i].id)
    ensures Uncaught(evs, copies) == Contents(copies)
  {
    hide Caught;
    if copies != [] {
      NoneCaught(evs, copies[..|copies| - 1]);
    }
  }

  lemma {:induction false} SameCaught(evs: seq<Event>, more: seq<Event>, copies: seq<Copy>)
    requires forall i :: 0 <= i < |copies| ==> Caught(evs, copies[i].id) == Caught(more, copies[i].id)
    ensures Uncaught(evs, copies) == Uncaught(more, copies)
  {
    hide Caught;
    if copies != [] {
      SameCaught(evs, more, copies[..|copies| - 1]);
    }
  }

  predicate SoundCopy(c: Copy) {
    && c.content.Representable() && UuidText(c.id) && CountFits(ContentToBytes(c.content))
    && |ContentToBytes(c.content)| <= MAX_CAPACITY
  }

  predicate Sound(copies: seq<Copy>) {
    && (forall i :: 0 <= i < |copies| ==> SoundCopy(copies[i]))
    && (forall i, j :: 0 <= i < j < |copies| ==> copies[i].id != copies[j].id)
  }

  function SplitOf(c: Copy, hash: Hasher): seq<NetworkMessage> {
    Split(c.content, hash, c.id)
  }

  /** Exactly the first `j` copies have all their messages among the first `n` of the stream. */
  predicate CompleteUpTo(copies: seq<Copy>, n: nat, j: nat, hash: Hasher) {
    && j <= |copies| && |Stream(copies[..j], hash)| <= n
    && (j < |copies| ==> n < |Stream(copies[..j + 1], hash)|)
  }

  lemma StreamGrows(copies: seq<Copy>, j: nat, hash: Hasher)
    requires j < |copies|
    ensures Stream(copies[..j + 1], hash) == Stream(copies[..j], hash) + SplitOf(copies[j], hash)
  {
    assert copies[..j + 1][..j] == copies[..j];
  }

  lemma {:induction false} StreamPrefix(copies: seq<Copy>, j: nat, hash: Hasher)
    requires j <= |copies|
    ensures Stream(copies[..j], hash) <= Stream(copies, hash)
    decreases |copies| - j
  {
    if j == |copies| {
      assert copies[..j] == copies;
    } else {
      StreamGrows(copies, j, hash);
      StreamPrefix(copies, j + 1, hash);
    }
  }

  lemma StreamAt(copies: seq<Copy>, j: nat, o: nat, hash: Hasher)
    requires j < |copies| && o < |SplitOf(copies[j], hash)|
    ensures var p := |Stream(copies[..j], hash)| + o;
            p < |Stream(copies, hash)| && Stream(copies, hash)[p] == SplitOf(copies[j], hash)[o]
  {
    hide Split, SplitOf;
    StreamGrows(copies, j, hash);
    StreamPrefix(copies, j + 1, hash);
  }

  lemma {:induction false} StreamMember(copies: seq<Copy>, m: NetworkMessage, hash: Hasher) returns (i: nat)
    requires m in Stream(copies, hash)
    ensures i < |copies| && m in SplitOf(copies[i], hash)
  {
    var n := |copies| - 1;
    if m in SplitOf(copies[n], hash) {
      i := n;
    } else {
      i := StreamMember(copies[..n], m, hash);
    }
  }

  // ---------------------------------------------------------------- one sender's progress

  /** How far into its stream a sender is: `j` copies complete, then `o` messages of the next. */
  datatype Cursor = Cursor(j: nat, o: nat)

  /** The receiver's table holds nothing of a sender's copies but the one in progress, and of that what has arrived unless a sweep took it. */
  ghost predicate AtCursor(evs: seq<Event>, states: States, copies: seq<Copy>, cur: Cursor, hash: Hasher) {
    && cur.j <= |copies| && (if cur.j == |copies| then cur.o == 0 else cur.o < |SplitOf(copies[cur.j], hash)|)
    && (forall i :: 0 <= i < |copies| && (i != cur.j || cur.o == 0) ==> copies[i].id !in states)
    && (forall i :: cur.j <= i < |copies| && (i != cur.j || cur.o == 0) ==> !Caught(evs, copies[i].id))
    && (cur.o > 0 ==> InProgress(evs, states, copies[cur.j], cur.o, hash))
  }

  ghost predicate InProgress(evs: seq<Event>, states: States, c: Copy, o: nat, hash: Hasher) {
    if Caught(evs, c.id) then c.id !in states && 1 <= o <= PieceCount(ContentToBytes(c.content)) + 1
    else MidTransfer(states, c, o, hash)
  }

  ghost predicate MidTransfer(states: States, c: Copy, o: nat, hash: Hasher) {
    && 1 <= o <= PieceCount(ContentToBytes(c.content)) + 1 && CountFits(ContentToBytes(c.content))
    && c.id in states && Building(states[c.id], ContentToBytes(c.content), hash)
    && states[c.id].received.Keys == Below(o - 1)
  }

  lemma CaughtSnoc(evs: seq<Event>, ev: Event, id: TransferId, hash: Hasher)
    ensures var states := Final(map[], evs, hash);
            Caught(evs + [ev], id) <==> Caught(evs, id) || (ev.Sweep? && id in states && Stale(states[id], ev.now))
  {
    hide Final, Step;
    assert (evs + [ev])[..|evs|] == evs;
    LedgerAlways(evs, id, hash);
  }

  lemma MessageTransfer(c: Copy, m: NetworkMessage, hash: Hasher)
    requires CountFits(ContentToBytes(c.content)) && m in SplitOf(c, hash)
    ensures TransferOf(Message(m)) in {None, Some(c.id)}
  {
    hide Split, ContentToBytes, Sha256Hex, Piece;
    SplitShape(c.content, c.id, hash);
    var ms := SplitOf(c, hash);
    var k :| 0 <= k < |ms| && ms[k] == m;
  }

  /** A message of another sender, or a sweep, moves no cursor; a sweep may catch the transfer in progress. */
  lemma CursorStays(evs: seq<Event>, copies: seq<Copy>, cur: Cursor, ev: Event, hash: Hasher)
    requires AtCursor(evs, Final(map[], evs, hash), copies, cur, hash)
    requires forall i :: 0 <= i < |copies| ==> !Owns(ev, copies[i].id)
    ensures AtCursor(evs + [ev], Step(Final(map[], evs, hash), ev, hash).0, copies, cur, hash)
    ensures forall i :: 0 <= i < cur.j ==> Caught(evs + [ev], copies[i].id) == Caught(evs, copies[i].id)
  {
    hide Classify, SplitOf, MidTransfer, ContentToBytes, Complete, Caught, Final, PieceCount;
    var states := Final(map[], evs, hash);
    forall i | 0 <= i < |copies|
      ensures ev.Deliver? ==> Restrict(Step(states, ev, hash).0, copies[i].id) == Restrict(states, copies[i].id)
      ensures Caught(evs + [ev], copies[i].id)
           <==> Caught(evs, copies[i].id) || (ev.Sweep? && copies[i].id in states && Stale(states[copies[i].id], ev.now))
    {
      CaughtSnoc(evs, ev, copies[i].id, hash);
      if ev.Deliver? {
        ForeignStepIsInvisible(states, ev, copies[i].id, hash);
      }
    }
    if cur.o > 0 {
      var c := copies[cur.j];
      if c.id in states && c.id in Step(states, ev, hash).0 {
        MidTransferStays(states, Step(states, ev, hash).0, c, cur.o, hash);
      }
      InProgressIsThere(states, c, cur.o, hash);
    }
  }

  lemma MidTransferStays(states: States, after: States, c: Copy, o: nat, hash: Hasher)
    requires c.id in states && c.id in after
    ensures states[c.id] == after[c.id] && MidTransfer(states, c, o, hash) ==> MidTransfer(after, c, o, hash)
  {
    hide ContentToBytes, PieceCount, Building;
  }

  lemma InProgressIsThere(states: States, c: Copy, o: nat, hash: Hasher)
    ensures MidTransfer(states, c, o, hash) ==>
              c.id in states && 1 <= o <= PieceCount(ContentToBytes(c.content)) + 1
  {
    hide ContentToBytes, PieceCount, Building;
  }

  /** The next message of a copy moves its transfer on, and only the last one returns the copy; none of them is fatal. */
  lemma CopyAdvances(states: States, c: Copy, o: nat, ev: Event, hash: Hasher)
    requires SoundCopy(c) && o < |SplitOf(c, hash)| && (if o == 0 then c.id !in states else MidTransfer(states, c, o, hash))
    requires ev.Deliver? && Classify(ev.data) == Message(SplitOf(c, hash)[o])
    ensures var (after, reply) := Step(states, ev, hash);
            if o + 1 < |SplitOf(c, hash)|
            then reply == Returned(None) && MidTransfer(after, c, o + 1, hash)
            else reply == Returned(Some(c.content)) && c.id !in after
  {
    hide Classify, Split, ContentToBytes, Content.Representable, UuidText, Sha256Hex, Piece, Complete;
    SplitShape(c.content, c.id, hash);
    var raw := ContentToBytes(c.content);
    if |raw| > CHUNK_DATA_SIZE {
      if 1 <= o <= PieceCount(raw) {
        assert Below(o) == Below(o - 1) + {o - 1};
      } else if o == PieceCount(raw) + 1 {
        CompleteTransfer(states[c.id], c.content, hash);
      }
    }
  }

  /** The rest of a copy that a sweep caught returns nothing and leaves nothing. */
  lemma CaughtCopyIsSilent(states: States, c: Copy, o: nat, ev: Event, hash: Hasher)
    requires SoundCopy(c) && 1 <= o < |SplitOf(c, hash)| && c.id !in states
    requires ev.Deliver? && Classify(ev.data) == Message(SplitOf(c, hash)[o])
    ensures Step(states, ev, hash) == (states, Returned(None))
    ensures o + 1 < |SplitOf(c, hash)| ==> o + 1 <= PieceCount(ContentToBytes(c.content)) + 1
  {
    hide Classify, Split, ContentToBytes, Content.Representable, UuidText, Sha256Hex, Piece, Complete;
    SplitShape(c.content, c.id, hash);
    var raw := ContentToBytes(c.content);
    if o == PieceCount(raw) + 1 {
      assert SplitOf(c, hash)[o] == ChunkEnd(c.id);
    } else {
      assert SplitOf(c, hash)[o] == Chunk(c.id, o - 1, Piece(raw, o - 1));
    }
  }

  /** A copy's message leaves the transfers of other ids as they are. */
  lemma OthersStay(states: States, c: Copy, o: nat, ev: Event, id: TransferId, hash: Hasher)
    requires SoundCopy(c) && o < |SplitOf(c, hash)| && id != c.id
    requires ev.Deliver? && Classify(ev.data) == Message(SplitOf(c, hash)[o])
    ensures id in Step(states, ev, hash).0 <==> id in states
  {
    hide Classify, Split, SplitOf, ContentToBytes, Content.Representable, UuidText, Complete;
    MessageTransfer(c, SplitOf(c, hash)[o], hash);
  }

  /** What the next message of a copy returns. */
  function Due(evs: seq<Event>, c: Copy, o: nat, hash: Hasher): Option<Content> {
    if o + 1 < |SplitOf(c, hash)| || Caught(evs, c.id) then None else Some(c.content)
  }

  /**
   The next message of the sender's own stream moves its cursor by one, and only the last of a copy
   that no sweep caught returns it.
   */
  lemma CursorMoves(evs: seq<Event>, copies: seq<Copy>, cur: Cursor, ev: Event, hash: Hasher) returns (next: Cursor)
    requires Sound(copies) && AtCursor(evs, Final(map[], evs, hash), copies, cur, hash) && cur.j < |copies|
    requires ev.Deliver? && Classify(ev.data) == Message(SplitOf(copies[cur.j], hash)[cur.o])
    ensures AtCursor(evs + [ev], Step(Final(map[], evs, hash), ev, hash).0, copies, next, hash)
    ensures Step(Final(map[], evs, hash), ev, hash).1 == Returned(Due(evs, copies[cur.j], cur.o, hash))
    ensures next == if cur.o + 1 < |SplitOf(copies[cur.j], hash)| then Cursor(cur.j, cur.o + 1) else Cursor(cur.j + 1, 0)
    ensures forall i :: 0 <= i < |copies| ==> Caught(evs + [ev], copies[i].id) == Caught(evs, copies[i].id)
  {
    hide Classify, SplitOf, SoundCopy, MidTransfer, Step, Caught, Final, PieceCount;
    var c, states := copies[cur.j], Final(map[], evs, hash);
    SplitIsNonEmptyOf(copies, hash);
    next := if cur.o + 1 < |SplitOf(c, hash)| then Cursor(cur.j, cur.o + 1) else Cursor(cur.j + 1, 0);
    forall i | 0 <= i < |copies| ensures Caught(evs + [ev], copies[i].id) == Caught(evs, copies[i].id) {
      CaughtSnoc(evs, ev, copies[i].id, hash);
    }
    if cur.o > 0 && Caught(evs, c.id) {
      CaughtCopyIsSilent(states, c, cur.o, ev, hash);
    } else {
      CopyAdvances(states, c, cur.o, ev, hash);
      InProgressIsThere(Step(states, ev, hash).0, c, cur.o + 1, hash);
    }
    forall i | 0 <= i < |copies| && i != cur.j ensures copies[i].id !in Step(states, ev, hash).0 {
      assert copies[i].id != c.id;
      OthersStay(states, c, cur.o, ev, copies[i].id, hash);
    }
  }

  lemma SplitIsNonEmptyOf(copies: seq<Copy>, hash: Hasher)
    ensures forall i :: 0 <= i < |copies| ==> |SplitOf(copies[i], hash)| >= 1
  {
  }

  // ---------------------------------------------------------------- the simulation

  /** What must be known of the messages to follow one sender through them. */
  ghost predicate InStep(evs: seq<Event>, s: nat, copies: seq<Copy>, hash: Hasher) {
    && ReceivedFrom(evs, s) <= Wire(Stream(copies, hash))
    && forall k, i :: 0 <= k < |evs| && evs[k].Deliver? && evs[k].src != s && 0 <= i < |copies| ==>
         !Owns(evs[k], copies[i].id)
  }

  /** And the receiver was there to take them. */
  ghost predicate Follows(evs: seq<Event>, s: nat, copies: seq<Copy>, hash: Hasher) {
    InStep(evs, s, copies, hash) && Survives(map[], evs, hash)
  }

  ghost predicate View(evs: seq<Event>, s: nat, copies: seq<Copy>, cur: Cursor, hash: Hasher) {
    && AtCursor(evs, Final(map[], evs, hash), copies, cur, hash)
    && |ReceivedFrom(evs, s)| == |Stream(copies[..cur.j], hash)| + cur.o
    && From(Deliveries(evs, hash), s) == Uncaught(evs, copies[..cur.j])
  }

  lemma ViewSnoc(evs: seq<Event>, ev: Event, s: nat)
    ensures ReceivedFrom(evs + [ev], s) == ReceivedFrom(evs, s) + (if ev.Deliver? && ev.src == s then [ev.data] else [])
  {
    assert (evs + [ev])[..|evs|] == evs;
  }

  lemma FromSnoc(ds: seq<(nat, Content)>, d: (nat, Content), s: nat)
    ensures From(ds + [d], s) == From(ds, s) + (if d.0 == s then [d.1] else [])
  {
    assert (ds + [d])[..|ds|] == ds;
  }

  lemma ViewStep(evs: seq<Event>, ev: Event, s: nat, copies: seq<Copy>, cur: Cursor, hash: Hasher) returns (next: Cursor)
    requires Sound(copies) && View(evs, s, copies, cur, hash) && Follows(evs + [ev], s, copies, hash)
    ensures View(evs + [ev], s, copies, next, hash)
  {
    hide Classify, Step, AtCursor, Split, SplitOf, SoundCopy, Stream, Deliveries, Final, From, Survives, Caught, Uncaught;
    ViewSnoc(evs, ev, s);
    DeliveriesSnoc(evs, ev, hash);
    assert (evs + [ev])[|evs|] == ev;
    if ev.Deliver? && ev.src == s {
      next := OwnViewStep(evs, ev, s, copies, cur, hash);
    } else {
      next := cur;
      NobodysOwn(evs, ev, s, copies, hash);
      CursorStays(evs, copies, cur, ev, hash);
      CursorInRange(evs, copies, cur, hash);
      SameCaught(evs, evs + [ev], copies[..cur.j]);
      var out := Step(Final(map[], evs, hash), ev, hash).1.Out();
      if ev.Deliver? && out.Some? {
        FromSnoc(Deliveries(evs, hash), (ev.src, out.value), s);
      } else {
        assert Deliveries(evs, hash) + [] == Deliveries(evs, hash);
      }
    }
  }

  lemma CursorInRange(evs: seq<Event>, copies: seq<Copy>, cur: Cursor, hash: Hasher)
    requires AtCursor(evs, Final(map[], evs, hash), copies, cur, hash)
    ensures cur.j <= |copies|
  {
  }

  lemma NobodysOwn(evs: seq<Event>, ev: Event, s: nat, copies: seq<Copy>, hash: Hasher)
    requires InStep(evs + [ev], s, copies, hash) && !(ev.Deliver? && ev.src == s)
    ensures forall i :: 0 <= i < |copies| ==> !Owns(ev, copies[i].id)
  {
    hide Classify, ReceivedFrom, Wire, Stream;
    assert (evs + [ev])[|evs|] == ev;
  }

  /** The sender's next buffer is the message at its cursor. */
  lemma NextMessage(evs: seq<Event>, ev: Event, s: nat, copies: seq<Copy>, cur: Cursor, hash: Hasher)
    requires View(evs, s, copies, cur, hash) && InStep(evs + [ev], s, copies, hash)
    requires ev.Deliver? && ev.src == s
    ensures cur.j < |copies| && cur.o < |SplitOf(copies[cur.j], hash)|
    ensures ev.data == MessageToBytes(SplitOf(copies[cur.j], hash)[cur.o])
  {
    hide SplitOf, MessageToBytes, Stream, ReceivedFrom, InProgress, Deliveries, Final, From, Owns, Caught, Uncaught;
    ViewSnoc(evs, ev, s);
    var p := |ReceivedFrom(evs, s)|;
    assert ev.data == (ReceivedFrom(evs, s) + [ev.data])[p] == Wire(Stream(copies, hash))[p];
    assert copies[..|copies|] == copies;
    StreamAt(copies, cur.j, cur.o, hash);
  }

  /** The sender's own buffer keeps the view. */
  lemma OwnViewStep(evs: seq<Event>, ev: Event, s: nat, copies: seq<Copy>, cur: Cursor, hash: Hasher) returns (next: Cursor)
    requires Sound(copies) && View(evs, s, copies, cur, hash) && InStep(evs + [ev], s, copies, hash)
    requires Survives(map[], evs, hash) && ev.Deliver? && ev.src == s
    ensures View(evs + [ev], s, copies, next, hash)
  {
    hide Classify, Step, SplitOf, Deliveries, Final, From, MessageToBytes, Stream, AtCursor, InStep, ReceivedFrom, SoundCopy,
      Survives, Caught;
    NextMessage(evs, ev, s, copies, cur, hash);
    var ds, c := Deliveries(evs, hash), copies[cur.j];
    ViewSnoc(evs, ev, s);
    DeliveriesSnoc(evs, ev, hash);
    OwnMessageIsRead(c, cur.o, hash);
    next := CursorMoves(evs, copies, cur, ev, hash);
    StreamGrows(copies, cur.j, hash);
    SameCaught(evs, evs + [ev], copies[..cur.j]);
    assert copies[..cur.j + 1][..cur.j] == copies[..cur.j];
    assert ds + [] == ds;
    FromSnoc(ds, (s, c.content), s);
  }

  lemma OwnMessageIsRead(c: Copy, o: nat, hash: Hasher)
    requires SoundCopy(c) && o < |SplitOf(c, hash)|
    ensures Classify(MessageToBytes(SplitOf(c, hash)[o])) == Message(SplitOf(c, hash)[o])
  {
    hide Classify, MessageToBytes, Split;
    PublishedIsRead(c.content, c.id, SplitOf(c, hash)[o], hash);
  }

  lemma {:induction false} SenderView(evs: seq<Event>, s: nat, copies: seq<Copy>, hash: Hasher) returns (cur: Cursor)
    requires Sound(copies) && Follows(evs, s, copies, hash)
    ensures View(evs, s, copies, cur, hash)
  {
    hide Sound, SplitOf, InStep, Survives;
    if evs == [] {
      cur := Cursor(0, 0);
      SplitIsNonEmptyOf(copies, hash);
    } else {
      var k := |evs| - 1;
      assert evs == evs[..k] + [evs[k]];
      FollowsShrinks(evs[..k], evs[k], s, copies, hash);
      cur := SenderView(evs[..k], s, copies, hash);
      cur := ViewStep(evs[..k], evs[k], s, copies, cur, hash);
    }
  }

  lemma FollowsShrinks(evs: seq<Event>, ev: Event, s: nat, copies: seq<Copy>, hash: Hasher)
    requires InStep(evs + [ev], s, copies, hash)
    ensures InStep(evs, s, copies, hash)
    ensures Survives(map[], evs + [ev], hash) ==> Survives(map[], evs, hash)
  {
    hide Owns, ReceivedFrom, Wire, Stream, Survives;
    ViewSnoc(evs, ev, s);
    assert (evs + [ev])[..|evs|] == evs;
    if Survives(map[], evs + [ev], hash) {
      SurvivesPrefix(map[], evs + [ev], |evs|, hash);
    }
    forall k, i | 0 <= k < |evs| && evs[k].Deliver? && evs[k].src != s && 0 <= i < |copies|
      ensures !Owns(evs[k], copies[i].id)
    {
      assert (evs + [ev])[k] == evs[k];
    }
  }

  // ---------------------------------------------------------------- the theorem

  /** Copies of different senders, and different copies of one, draw different transfer ids. */
  ghost predicate DistinctIds(senders: seq<seq<Copy>>) {
    forall s, i, s', i' ::
      0 <= s < |senders| && 0 <= i < |senders[s]| && 0 <= s' < |senders| && 0 <= i' < |senders[s']| && (s, i) != (s', i')
      ==> senders[s][i].id != senders[s'][i'].id
  }

  /** Every buffer that arrives is one its sender's splits put on the wire; they may be lost, repeated or reordered. */
  ghost predicate FromSplits(evs: seq<Event>, senders: seq<seq<Copy>>, hash: Hasher) {
    forall k :: 0 <= k < |evs| && evs[k].Deliver? ==>
      evs[k].src < |senders| && evs[k].data in Wire(Stream(senders[evs[k].src], hash))
  }

  ghost predicate AllSound(senders: seq<seq<Copy>>) {
    forall s, i :: 0 <= s < |senders| && 0 <= i < |senders[s]| ==> SoundCopy(senders[s][i])
  }

  /** Such a buffer is a message of one of its sender's copies, and is read as that message. */
  lemma SplitMessage(evs: seq<Event>, senders: seq<seq<Copy>>, k: nat, hash: Hasher) returns (j: nat, m: NetworkMessage)
    requires FromSplits(evs, senders, hash) && AllSound(senders) && k < |evs| && evs[k].Deliver?
    ensures evs[k].src < |senders| && j < |senders[evs[k].src]| && m in SplitOf(senders[evs[k].src][j], hash)
    ensures Classify(evs[k].data) == Message(m)
  {
    hide Classify, MessageToBytes, Split, SplitOf, Stream, SoundCopy;
    var copies := senders[evs[k].src];
    var ms := Stream(copies, hash);
    var p :| 0 <= p < |Wire(ms)| && Wire(ms)[p] == evs[k].data;
    m := ms[p];
    j := StreamMember(copies, m, hash);
    SplitMemberIsOwn(copies[j], m, hash);
  }

  lemma SplitMemberIsOwn(c: Copy, m: NetworkMessage, hash: Hasher)
    requires SoundCopy(c) && m in SplitOf(c, hash)
    ensures Classify(MessageToBytes(m)) == Message(m) && TransferOf(Message(m)) in {None, Some(c.id)}
    ensures m.ChunkStart? ==> m.totalSize <= MAX_CAPACITY
  {
    hide Classify, MessageToBytes, Split;
    PublishedIsRead(c.content, c.id, m, hash);
    MessageTransfer(c, m, hash);
    StartIsModest(c, m, hash);
  }

  lemma StartIsModest(c: Copy, m: NetworkMessage, hash: Hasher)
    requires SoundCopy(c) && m in SplitOf(c, hash)
    ensures m.ChunkStart? ==> m.totalSize <= MAX_CAPACITY
  {
    hide Split, ContentToBytes, Content.Representable, UuidText, Sha256Hex, Piece;
    SplitShape(c.content, c.id, hash);
    var ms := SplitOf(c, hash);
    var k :| 0 <= k < |ms| && ms[k] == m;
  }

  /** Nothing that senders' splits put on the wire crashes the receiver, lost, repeated or reordered as it may be. */
  lemma SendersAreSurvived(evs: seq<Event>, senders: seq<seq<Copy>>, hash: Hasher)
    requires FromSplits(evs, senders, hash) && AllSound(senders)
    ensures Survives(map[], evs, hash)
  {
    hide Classify, SplitOf, SoundCopy, FromSplits, Survives;
    forall k | 0 <= k < |evs| ensures Modest(evs[k]) {
      if evs[k].Deliver? {
        var j, m := SplitMessage(evs, senders, k, hash);
        SplitMemberIsOwn(senders[evs[k].src][j], m, hash);
      }
    }
    ModestStartsAreSurvived(evs, hash);
  }

  lemma SendersInStep(evs: seq<Event>, senders: seq<seq<Copy>>, s: nat, hash: Hasher)
    requires s < |senders| && DistinctIds(senders) && FromSplits(evs, senders, hash) && AllSound(senders)
    requires ReceivedFrom(evs, s) <= Wire(Stream(senders[s], hash))
    ensures InStep(evs, s, senders[s], hash) && Sound(senders[s])
  {
    hide Classify, SplitOf, SoundCopy, FromSplits, Stream, ReceivedFrom;
    forall k, i | 0 <= k < |evs| && evs[k].Deliver? && evs[k].src != s && 0 <= i < |senders[s]|
      ensures !Owns(evs[k], senders[s][i].id)
    {
      var j, m := SplitMessage(evs, senders, k, hash);
      SplitMemberIsOwn(senders[evs[k].src][j], m, hash);
    }
  }

  /**
   What the receiver handed out for a sender whose buffers arrive in its order, none lost before
   one that arrives: the copies wholly received that no sweep caught, in order, each once. The other
   senders' buffers may be lost, repeated or reordered, and their transfers may be left unfinished.
   */
  lemma DeliveredInOrder(evs: seq<Event>, senders: seq<seq<Copy>>, s: nat, hash: Hasher) returns (j: nat)
    requires s < |senders| && DistinctIds(senders) && FromSplits(evs, senders, hash) && AllSound(senders)
    requires ReceivedFrom(evs, s) <= Wire(Stream(senders[s], hash))
    ensures Survives(map[], evs, hash)
    ensures CompleteUpTo(senders[s], |ReceivedFrom(evs, s)|, j, hash)
    ensures From(Deliveries(evs, hash), s) == Uncaught(evs, senders[s][..j])
    ensures ReceivedFrom(evs, s) == Wire(Stream(senders[s], hash)) ==> j == |senders[s]|
  {
    hide Sound, AllSound, FromSplits, Stream, ReceivedFrom, Deliveries, From, Split, Owns, InProgress, Final, InStep, DistinctIds,
      Survives, Caught, Uncaught;
    var copies := senders[s];
    SendersAreSurvived(evs, senders, hash);
    SendersInStep(evs, senders, s, hash);
    var cur := SenderView(evs, s, copies, hash);
    j := cur.j;
    if j < |copies| {
      StreamGrows(copies, j, hash);
      StreamPrefix(copies, j + 1, hash);
    }
  }

  /** The copies each loop accepted, up to a restart if there was one. */
  function AcceptedBy(loops: seq<seq<Turn>>, hash: Hasher): (r: seq<seq<Copy>>)
    ensures |r| == |loops| && forall s :: 0 <= s < |loops| ==> r[s] == Run(loops[s], hash).accepted
  {
    seq(|loops|, s requires 0 <= s < |loops| => Run(loops[s], hash).accepted)
  }

  /** What reached a receiver was published by the loops. */
  ghost predicate PublishedBy(evs: seq<Event>, loops: seq<seq<Turn>>, hash: Hasher) {
    forall k :: 0 <= k < |evs| && evs[k].Deliver? ==>
      evs[k].src < |loops| && evs[k].data in Run(loops[evs[k].src], hash).published
  }

  lemma PublishedIsFromSplits(evs: seq<Event>, loops: seq<seq<Turn>>, hash: Hasher)
    requires PublishedBy(evs, loops, hash)
    ensures FromSplits(evs, AcceptedBy(loops, hash), hash)
  {
    hide Run, Stream, Wire;
    forall k | 0 <= k < |evs| && evs[k].Deliver?
      ensures evs[k].data in Wire(Stream(Run(loops[evs[k].src], hash).accepted, hash))
    {
      PublishedIsPrefix(loops[evs[k].src], hash);
    }
  }

  /**
   Sender loops to receiver loop. The receiving loop takes buffers that sending loops published, and
   those of loop `s` in their order; other loops' may be lost, repeated or reordered. Then it never
   crashes, and has handed to its clipboard exactly the copies of `s` whose messages all arrived and
   that no sweep caught in progress past the timeout; with none caught and nothing missing from a
   sender that runs on, exactly the contents that sender took from its clipboard.
   */
  lemma EndToEnd(loops: seq<seq<Turn>>, receiver: seq<Turn>, s: nat, hash: Hasher) returns (j: nat)
    requires s < |loops|
    requires DistinctIds(AcceptedBy(loops, hash)) && AllSound(AcceptedBy(loops, hash))
    requires PublishedBy(Trace(receiver, hash), loops, hash)
    requires ReceivedFrom(Trace(receiver, hash), s) <= Run(loops[s], hash).published
    ensures Run(receiver, hash).status != Dead
    ensures var evs, h, out := Trace(receiver, hash), Run(loops[s], hash), From(Run(receiver, hash).delivered, s);
            && CompleteUpTo(h.accepted, |ReceivedFrom(evs, s)|, j, hash)
            && out == Uncaught(evs, h.accepted[..j])
            && ((forall i :: 0 <= i < j ==> !Caught(evs, h.accepted[i].id)) ==> out == Contents(h.accepted[..j]))
            && (h.status == Running && h.pending == [] && ReceivedFrom(evs, s) == h.published ==> j == |h.accepted|)
  {
    hide Sound, AllSound, Stream, ReceivedFrom, Deliveries, From, Run, Wire, DistinctIds, CompleteUpTo, Survives, Final, Caught,
      Uncaught, PublishedBy, FromSplits;
    var accepted, evs := AcceptedBy(loops, hash), Trace(receiver, hash);
    PublishedIsFromSplits(evs, loops, hash);
    PublishedIsPrefix(loops[s], hash);
    LoopFollowsTrace(receiver, hash);
    j := DeliveredInOrder(evs, accepted, s, hash);
    CompleteInRange(accepted[s], |ReceivedFrom(evs, s)|, j, hash);
    if forall i :: 0 <= i < j ==> !Caught(evs, accepted[s][i].id) {
      NoneCaught(evs, accepted[s][..j]);
    }
  }

  lemma CompleteInRange(copies: seq<Copy>, n: nat, j: nat, hash: Hasher)
    requires CompleteUpTo(copies, n, j, hash)
    ensures j <= |copies|
  {
  }
}
