/** Whole runs of an enabled mDNS behaviour: what it has emitted agrees with its table, and nothing expires early. */
module DiscoveryRuns {
  import opened Bytes
  import opened Addresses
  import opened Discovery

  // ---------------------------------------------------------------- runs

  datatype Op = Announce(item: Entry) | Poll(now: Instant) | Expire(peer: PeerId, now: Instant)

  /** What happened to a pair: an announcement was read, or it was dropped as expired. */
  datatype Mark = Seen(item: Entry) | Dropped(pair: Pair, at: Instant)

  /** One refill of the event queue. */
  datatype Block = Gained(pairs: seq<Pair>) | Lost(pairs: seq<Pair>)

  /** The state with its history: events returned to the swarm, refills, and marks. */
  datatype World = World(s: State, emitted: seq<Event>, blocks: seq<Block>, trail: seq<Mark>)

  const START: World := World(State([], [], None, []), [], [], [])

  function SeenMarks(items: seq<Entry>): (ms: seq<Mark>)
    ensures |ms| == |items| && forall i :: 0 <= i < |items| ==> ms[i] == Seen(items[i])
  {
    seq(|items|, i requires 0 <= i < |items| => Seen(items[i]))
  }

  function DropMarks(pairs: seq<Pair>, now: Instant): (ms: seq<Mark>)
    ensures |ms| == |pairs| && forall i :: 0 <= i < |pairs| ==> ms[i] == Dropped(pairs[i], now)
  {
    seq(|pairs|, i requires 0 <= i < |pairs| => Dropped(pairs[i], now))
  }

  /** The history of a refill. */
  function Refilled(w: World, now: Instant): World {
    var a := Absorb(w.s.nodes, w.s.inbox);
    var lapsed := Lapsed(a.nodes, now);
    var seen := w.trail + SeenMarks(w.s.inbox);
    var s := Refill(w.s, now);
    if a.found != [] then World(s, w.emitted, w.blocks + [Gained(a.found)], seen)
    else if lapsed != [] then World(s, w.emitted, w.blocks + [Lost(lapsed)], seen + DropMarks(lapsed, now))
    else World(s, w.emitted, w.blocks, seen)
  }

  function Next(w: World, op: Op): World {
    match op
    case Announce(item) => w.(s := w.s.(inbox := w.s.inbox + [item]))
    case Expire(peer, now) => w.(s := w.s.(nodes := ExpirePeer(w.s.nodes, peer, now), timer := Some(now)))
    case Poll(now) =>
      var w' := if w.s.pending == [] then Refilled(w, now) else w;
      var (s, r) := Polled(w.s, now);
      w'.(s := s, emitted := w.emitted + (if r.Some? then [r.value] else []))
  }

  function Run(ops: seq<Op>): World {
    if ops == [] then START else Next(Run(ops[..|ops| - 1]), ops[|ops| - 1])
  }

  // ---------------------------------------------------------------- the table

  ghost predicate Unique(nodes: seq<Entry>) {
    forall i, j :: 0 <= i < j < |nodes| ==> nodes[i].pair != nodes[j].pair
  }

  ghost predicate Distinct(pairs: seq<Pair>) {
    forall i, j :: 0 <= i < j < |pairs| ==> pairs[i] != pairs[j]
  }

  lemma {:induction false} AbsorbFacts(nodes: seq<Entry>, items: seq<Entry>)
    requires Unique(nodes)
    ensures var a := Absorb(nodes, items);
            && Unique(a.nodes) && Distinct(a.found)
            && (forall p :: Listed(a.nodes, p) <==> Listed(nodes, p) || p in a.found)
            && (forall p :: p in a.found ==> !Listed(nodes, p))
  {
    if items != [] {
      var n := |items| - 1;
      AbsorbFacts(nodes, items[..n]);
      AbsorbOneFacts(Absorb(nodes, items[..n]), items[n]);
    }
  }

  lemma AbsorbOneFacts(a: Absorbed, item: Entry)
    requires Unique(a.nodes)
    ensures var b := AbsorbOne(a, item);
            && Unique(b.nodes)
            && (forall p :: Listed(b.nodes, p) <==> Listed(a.nodes, p) || p == item.pair)
            && b.found == if Listed(a.nodes, item.pair) then a.found else a.found + [item.pair]
  {
    var b := AbsorbOne(a, item);
    var i := Find(a.nodes, item.pair);
    forall p ensures Listed(b.nodes, p) <==> Listed(a.nodes, p) || p == item.pair {
      if Listed(a.nodes, p) {
        var k :| 0 <= k < |a.nodes| && a.nodes[k].pair == p;
        assert b.nodes[k].pair == p;
      }
      if p == item.pair {
        assert b.nodes[i].pair == p;
      }
    }
  }

  lemma FindSnoc(nodes: seq<Entry>, e: Entry, p: Pair)
    ensures Find(nodes + [e], p)
         == if Find(nodes, p) < |nodes| then Find(nodes, p) else if e.pair == p then |nodes| else |nodes| + 1
  {
    var more := nodes + [e];
    var i, j := Find(nodes, p), Find(more, p);
    assert forall k :: 0 <= k < |nodes| ==> more[k] == nodes[k];
    if i < |nodes| {
      assert more[i].pair == p;
    } else if e.pair == p {
      assert more[|nodes|].pair == p;
    }
  }

  lemma {:induction false} AnnouncedIsListed(nodes: seq<Entry>, items: seq<Entry>, p: Pair)
    requires Unique(nodes) && Find(items, p) < |items|
    ensures Listed(Absorb(nodes, items).nodes, p)
  {
    hide Find, Unique, AbsorbOne;
    var n := |items| - 1;
    AbsorbFacts(nodes, items[..n]);
    AbsorbOneFacts(Absorb(nodes, items[..n]), items[n]);
    assert items == items[..n] + [items[n]];
    FindSnoc(items[..n], items[n], p);
    if Find(items[..n], p) < n {
      AnnouncedIsListed(nodes, items[..n], p);
    }
  }

  function Pairs(nodes: seq<Entry>): (ps: seq<Pair>)
    ensures |ps| == |nodes|
  {
    seq(|nodes|, i requires 0 <= i < |nodes| => nodes[i].pair)
  }

  /** These pairs are announced, in this order. */
  predicate AnnouncedInOrder(items: seq<Entry>, ps: seq<Pair>) {
    && (forall i :: 0 <= i < |ps| ==> Find(items, ps[i]) < |items|)
    && forall i, j :: 0 <= i < j < |ps| ==> Find(items, ps[i]) < Find(items, ps[j])
  }

  lemma AbsorbOneShape(a: Absorbed, item: Entry)
    ensures var b, more := AbsorbOne(a, item), if Listed(a.nodes, item.pair) then [] else [item.pair];
            b.found == a.found + more && Pairs(b.nodes) == Pairs(a.nodes) + more
  {
    hide Find, Listed;
    var b := AbsorbOne(a, item);
    if Listed(a.nodes, item.pair) {
      assert a.found + [] == a.found;
      assert Pairs(b.nodes) == Pairs(a.nodes);
    }
  }

  lemma FirstsStay(items: seq<Entry>, ps: seq<Pair>, item: Entry)
    requires AnnouncedInOrder(items, ps)
    ensures AnnouncedInOrder(items + [item], ps)
    ensures forall i :: 0 <= i < |ps| ==> Find(items + [item], ps[i]) < |items|
  {
    hide Find;
    forall i | 0 <= i < |ps| ensures Find(items + [item], ps[i]) == Find(items, ps[i]) {
      FindSnoc(items, item, ps[i]);
    }
  }

  lemma OneMoreInOrder(items: seq<Entry>, ps: seq<Pair>, p: Pair)
    requires AnnouncedInOrder(items, ps) && Find(items, p) < |items|
    requires forall i :: 0 <= i < |ps| ==> Find(items, ps[i]) < Find(items, p)
    ensures AnnouncedInOrder(items, ps + [p])
  {
    hide Find;
  }

  /** New pairs are reported, and added to the table, in the order in which they were first announced. */
  lemma {:induction false} FoundInOrder(nodes: seq<Entry>, items: seq<Entry>)
    requires Unique(nodes)
    ensures var a := Absorb(nodes, items);
            Pairs(a.nodes) == Pairs(nodes) + a.found && AnnouncedInOrder(items, a.found)
  {
    hide Find, Unique, AbsorbOne, AnnouncedInOrder;
    if items == [] {
      NoneInOrder();
      assert Pairs(nodes) + [] == Pairs(nodes);
    } else {
      var n := |items| - 1;
      var a := Absorb(nodes, items[..n]);
      FoundInOrder(nodes, items[..n]);
      if Find(items[..n], items[n].pair) < n {
        AnnouncedIsListed(nodes, items[..n], items[n].pair);
      }
      AbsorbOneShape(a, items[n]);
      assert items == items[..n] + [items[n]];
      FirstsStay(items[..n], a.found, items[n]);
      FindSnoc(items[..n], items[n], items[n].pair);
      if Find(items, items[n].pair) == n {
        OneMoreInOrder(items, a.found, items[n].pair);
      }
      assert a.found + [] == a.found;
    }
  }

  lemma NoneInOrder()
    ensures AnnouncedInOrder([], [])
  {
  }

  lemma ListedSnoc(nodes: seq<Entry>, e: Entry)
    ensures forall p :: Listed(nodes + [e], p) <==> Listed(nodes, p) || p == e.pair
  {
    assert (nodes + [e])[|nodes|] == e;
    assert forall k :: 0 <= k < |nodes| ==> (nodes + [e])[k] == nodes[k];
  }

  lemma {:induction false} ExpiryFacts(nodes: seq<Entry>, now: Instant)
    requires Unique(nodes)
    ensures Unique(Alive(nodes, now)) && Distinct(Lapsed(nodes, now))
    ensures forall p :: Listed(Alive(nodes, now), p) <==> Listed(nodes, p) && p !in Lapsed(nodes, now)
    ensures forall p :: p in Lapsed(nodes, now) ==> Listed(nodes, p)
  {
    if nodes != [] {
      var n := |nodes| - 1;
      var e, before := nodes[n], nodes[..n];
      ExpiryFacts(before, now);
      assert !Listed(before, e.pair);
      assert nodes == before + [e];
      ListedSnoc(before, e);
      var alive, lapsed := Alive(before, now), Lapsed(before, now);
      ListedSnoc(alive, e);
      assert !Listed(alive, e.pair) && e.pair !in lapsed;
      assert forall k :: 0 <= k < |alive| ==> Listed(alive, alive[k].pair);
      if e.expires <= now {
        assert Alive(nodes, now) == alive && Lapsed(nodes, now) == lapsed + [e.pair];
        assert forall p :: p in lapsed + [e.pair] <==> p in lapsed || p == e.pair;
      } else {
        assert Alive(nodes, now) == alive + [e] && Lapsed(nodes, now) == lapsed;
      }
    }
  }

  // ---------------------------------------------------------------- the event log

  /** Everything emitted, then everything still queued. */
  function Log(w: World): seq<Event> {
    w.emitted + w.s.pending
  }

  function BlockEvents(b: Block): seq<Event> {
    match b
    case Gained(pairs) => [Discovered(pairs)] + NewAddresses(pairs)
    case Lost(pairs) => [Expired(pairs)]
  }

  function LogOf(blocks: seq<Block>): seq<Event> {
    if blocks == [] then [] else LogOf(blocks[..|blocks| - 1]) + BlockEvents(blocks[|blocks| - 1])
  }

  /** A pair's history in a log: true where a Discovered lists it, false where an Expired does. */
  function Marks(log: seq<Event>, p: Pair): seq<bool> {
    if log == [] then [] else Marks(log[..|log| - 1], p) + EventMarks(log[|log| - 1], p)
  }

  function EventMarks(ev: Event, p: Pair): seq<bool> {
    match ev
    case Discovered(pairs) => Occurrences(pairs, p, true)
    case Expired(pairs) => Occurrences(pairs, p, false)
    case NewExternalAddrOfPeer(_) => []
  }

  function Occurrences(pairs: seq<Pair>, p: Pair, b: bool): seq<bool> {
    if pairs == [] then []
    else Occurrences(pairs[..|pairs| - 1], p, b) + (if pairs[|pairs| - 1] == p then [b] else [])
  }

  /** Discovered and expired in turn, discovered first. */
  predicate Alternates(marks: seq<bool>) {
    forall i :: 0 <= i < |marks| ==> marks[i] == (i % 2 == 0)
  }

  /** The log agrees with the table about a pair: it is listed exactly when its last event is a discovery. */
  ghost predicate Agrees(nodes: seq<Entry>, log: seq<Event>, p: Pair) {
    && Alternates(Marks(log, p))
    && (Listed(nodes, p) <==> |Marks(log, p)| % 2 == 1)
  }

  lemma {:induction false} OccurrencesOfDistinct(pairs: seq<Pair>, p: Pair, b: bool)
    requires Distinct(pairs)
    ensures Occurrences(pairs, p, b) == if p in pairs then [b] else []
  {
    if pairs != [] {
      OccurrencesOfDistinct(pairs[..|pairs| - 1], p, b);
    }
  }

  lemma MarksSnoc(log: seq<Event>, ev: Event, p: Pair)
    ensures Marks(log + [ev], p) == Marks(log, p) + EventMarks(ev, p)
  {
    hide EventMarks;
    assert (log + [ev])[..|log|] == log;
  }

  lemma {:induction false} AddressesAreNoMarks(log: seq<Event>, pairs: seq<Pair>, p: Pair)
    ensures Marks(log + NewAddresses(pairs), p) == Marks(log, p)
  {
    hide Marks;
    if pairs == [] {
      assert log + NewAddresses(pairs) == log;
    } else {
      var n := |pairs| - 1;
      AddressesAreNoMarks(log, pairs[..n], p);
      assert log + NewAddresses(pairs) == (log + NewAddresses(pairs[..n])) + [NewExternalAddrOfPeer(pairs[n])];
      MarksSnoc(log + NewAddresses(pairs[..n]), NewExternalAddrOfPeer(pairs[n]), p);
      assert Marks(log, p) + [] == Marks(log, p);
    }
  }

  lemma BlockMarks(log: seq<Event>, b: Block, p: Pair)
    requires Distinct(b.pairs)
    ensures Marks(log + BlockEvents(b), p) == Marks(log, p) + (if p in b.pairs then [b.Gained?] else [])
  {
    hide Marks, Distinct;
    OccurrencesOfDistinct(b.pairs, p, b.Gained?);
    match b
    case Gained(pairs) =>
      MarksSnoc(log, Discovered(pairs), p);
      AddressesAreNoMarks(log + [Discovered(pairs)], pairs, p);
      assert log + BlockEvents(b) == (log + [Discovered(pairs)]) + NewAddresses(pairs);
    case Lost(pairs) =>
      MarksSnoc(log, Expired(pairs), p);
  }

  /** What every reachable world keeps. */
  ghost predicate Consistent(w: World) {
    && Unique(w.s.nodes)
    && Log(w) == LogOf(w.blocks)
    && (forall b :: b in w.blocks ==> b.pairs != [] && Distinct(b.pairs))
    && forall p :: Agrees(w.s.nodes, Log(w), p)
  }

  lemma GainAgrees(nodes: seq<Entry>, nodes': seq<Entry>, log: seq<Event>, b: Block, p: Pair)
    requires Agrees(nodes, log, p) && Distinct(b.pairs)
    requires p in b.pairs ==> Listed(nodes, p) == b.Lost?
    requires Listed(nodes', p) <==> if p in b.pairs then b.Gained? else Listed(nodes, p)
    ensures Agrees(nodes', log + BlockEvents(b), p)
  {
    hide Listed, BlockEvents, Marks;
    BlockMarks(log, b, p);
  }

  lemma AppendBlock(w: World, w': World, b: Block)
    requires Consistent(w) && Unique(w'.s.nodes)
    requires w'.blocks == w.blocks + [b] && Log(w') == Log(w) + BlockEvents(b)
    requires b.pairs != [] && Distinct(b.pairs)
    requires forall p :: p in b.pairs ==> Listed(w.s.nodes, p) == b.Lost?
    requires forall p :: Listed(w'.s.nodes, p) <==> if p in b.pairs then b.Gained? else Listed(w.s.nodes, p)
    ensures Consistent(w')
  {
    hide Listed, Agrees, LogOf, BlockEvents, Log, Unique, Distinct;
    LogOfSnoc(w.blocks, b);
    forall p ensures Agrees(w'.s.nodes, Log(w'), p) {
      GainAgrees(w.s.nodes, w'.s.nodes, Log(w), b, p);
    }
  }

  lemma SameListing(w: World, w': World)
    requires Consistent(w) && Unique(w'.s.nodes) && w'.blocks == w.blocks && Log(w') == Log(w)
    requires forall p :: Listed(w'.s.nodes, p) <==> Listed(w.s.nodes, p)
    ensures Consistent(w')
  {
    hide Listed, Marks, LogOf, Log;
    forall p ensures Agrees(w'.s.nodes, Log(w'), p) {
      assert Agrees(w.s.nodes, Log(w), p);
    }
  }

  /** A refill appends one block, or changes neither log nor membership. */
  lemma RefillConsistent(w: World, now: Instant)
    requires Consistent(w) && w.s.pending == []
    ensures Consistent(Refilled(w, now))
  {
    hide Listed, LogOf, Absorb, Alive, Lapsed, Distinct, Agrees;
    var w' := Refilled(w, now);
    var a := Absorb(w.s.nodes, w.s.inbox);
    AbsorbFacts(w.s.nodes, w.s.inbox);
    ExpiryFacts(a.nodes, now);
    if a.found != [] {
      AppendBlock(w, w', Gained(a.found));
    } else if Lapsed(a.nodes, now) != [] {
      AppendBlock(w, w', Lost(Lapsed(a.nodes, now)));
    } else {
      SameListing(w, w');
    }
  }

  lemma LogOfSnoc(blocks: seq<Block>, b: Block)
    ensures LogOf(blocks + [b]) == LogOf(blocks) + BlockEvents(b)
  {
    assert (blocks + [b])[..|blocks|] == blocks;
  }

  lemma ExpireKeepsListing(nodes: seq<Entry>, peer: PeerId, now: Instant)
    requires Unique(nodes)
    ensures Unique(ExpirePeer(nodes, peer, now))
    ensures forall p :: Listed(ExpirePeer(nodes, peer, now), p) <==> Listed(nodes, p)
  {
    var r := ExpirePeer(nodes, peer, now);
    assert forall i :: 0 <= i < |nodes| ==> r[i].pair == nodes[i].pair;
  }

  lemma StepConsistent(w: World, op: Op)
    requires Consistent(w)
    ensures Consistent(Next(w, op))
  {
    hide Listed, Marks, LogOf, Refill, Alternates, Unique, ExpirePeer;
    var w' := Next(w, op);
    match op
    case Announce(_) =>
    case Expire(peer, now) =>
      ExpireKeepsListing(w.s.nodes, peer, now);
      forall p ensures Agrees(w'.s.nodes, Log(w'), p) {
        assert Agrees(w.s.nodes, Log(w), p);
      }
    case Poll(now) =>
      if w.s.pending == [] {
        RefillConsistent(w, now);
      }
      var m := if w.s.pending == [] then Refilled(w, now) else w;
      assert Log(w') == Log(m);
  }

  /**
   Over every run of an enabled behaviour: pairs in the table are unique; the log is a series of
   blocks, each a Discovered followed at once by one NewExternalAddrOfPeer per item in order, or
   an Expired; for each pair discoveries and expiries alternate, discovery first, and the pair is
   in the table exactly when its last event is a discovery.
   */
  lemma {:induction false} LogAgreesWithTable(ops: seq<Op>)
    ensures Consistent(Run(ops))
  {
    if ops == [] {
      assert forall p :: !Listed([], p);
    } else {
      LogAgreesWithTable(ops[..|ops| - 1]);
      StepConsistent(Run(ops[..|ops| - 1]), ops[|ops| - 1]);
    }
  }

  /** So the addresses offered for dialling a peer are exactly those whose last event is a discovery. */
  lemma DialledAddressesAreLive(ops: seq<Op>, peer: PeerId, a: Multiaddr)
    ensures var w := Run(ops);
            a in AddressesOf(w.s.nodes, peer) <==> |Marks(Log(w), (peer, a))| % 2 == 1
  {
    hide Marks, Listed, Unique, LogOf;
    LogAgreesWithTable(ops);
    assert Agrees(Run(ops).s.nodes, Log(Run(ops)), (peer, a));
  }

  // ---------------------------------------------------------------- expiry

  /** The largest expiration announced for a pair since it was last dropped. */
  function Largest(trail: seq<Mark>, p: Pair): Option<Instant> {
    if trail == [] then None else AfterMark(Largest(trail[..|trail| - 1], p), trail[|trail| - 1], p)
  }

  function AfterMark(before: Option<Instant>, m: Mark, p: Pair): Option<Instant> {
    match m
    case Seen(item) => if item.pair == p then Some(Refresh(before, item.expires)) else before
    case Dropped(q, _) => if q == p then None else before
  }

  function Refresh(before: Option<Instant>, expires: Instant): Instant {
    if before.Some? then Max(before.value, expires) else expires
  }

  function Lookup(nodes: seq<Entry>, p: Pair): Option<Instant> {
    var i := Find(nodes, p);
    if i < |nodes| then Some(nodes[i].expires) else None
  }

  /** Every entry's expiration is the largest announced since the pair was last dropped. */
  ghost predicate Current(nodes: seq<Entry>, trail: seq<Mark>) {
    forall p :: Lookup(nodes, p) == Largest(trail, p)
  }

  /** No drop came before the largest expiration announced for its pair. */
  ghost predicate NeverEarly(trail: seq<Mark>) {
    forall i :: 0 <= i < |trail| && trail[i].Dropped? ==>
      var largest := Largest(trail[..i], trail[i].pair);
      largest.Some? && largest.value <= trail[i].at
  }

  lemma LookupAbsorbOne(a: Absorbed, item: Entry, p: Pair)
    ensures Lookup(AbsorbOne(a, item).nodes, p) == AfterMark(Lookup(a.nodes, p), Seen(item), p)
  {
    var b := AbsorbOne(a, item);
    var i, j := Find(a.nodes, p), Find(b.nodes, p);
    assert forall k :: 0 <= k < |a.nodes| ==> b.nodes[k].pair == a.nodes[k].pair;
    if i < |b.nodes| && b.nodes[i].pair == p {
      assert j <= i;
      assert i <= j by {
        if j < |a.nodes| { assert a.nodes[j].pair == p; }
      }
    }
  }

  lemma LargestSnoc(trail: seq<Mark>, m: Mark, p: Pair)
    ensures Largest(trail + [m], p) == AfterMark(Largest(trail, p), m, p)
  {
    hide AfterMark;
    assert (trail + [m])[..|trail|] == trail;
  }

  lemma {:induction false} AbsorbCurrent(nodes: seq<Entry>, items: seq<Entry>, trail: seq<Mark>)
    requires Current(nodes, trail)
    ensures Current(Absorb(nodes, items).nodes, trail + SeenMarks(items))
  {
    if items == [] {
      assert trail + SeenMarks(items) == trail;
    } else {
      var n := |items| - 1;
      AbsorbCurrent(nodes, items[..n], trail);
      var more := trail + SeenMarks(items[..n]);
      assert trail + SeenMarks(items) == more + [Seen(items[n])];
      forall p ensures Lookup(Absorb(nodes, items).nodes, p) == Largest(trail + SeenMarks(items), p) {
        LookupAbsorbOne(Absorb(nodes, items[..n]), items[n], p);
        LargestSnoc(more, Seen(items[n]), p);
      }
    }
  }

  lemma {:induction false} DropsForget(trail: seq<Mark>, pairs: seq<Pair>, now: Instant, p: Pair)
    ensures Largest(trail + DropMarks(pairs, now), p) == if p in pairs then None else Largest(trail, p)
  {
    if pairs == [] {
      assert trail + DropMarks(pairs, now) == trail;
    } else {
      var n := |pairs| - 1;
      DropsForget(trail, pairs[..n], now, p);
      assert trail + DropMarks(pairs, now) == (trail + DropMarks(pairs[..n], now)) + [Dropped(pairs[n], now)];
      LargestSnoc(trail + DropMarks(pairs[..n], now), Dropped(pairs[n], now), p);
      assert pairs == pairs[..n] + [pairs[n]];
    }
  }

  lemma LookupOf(nodes: seq<Entry>, e: Entry)
    requires Unique(nodes) && e in nodes
    ensures Lookup(nodes, e.pair) == Some(e.expires)
  {
    var i :| 0 <= i < |nodes| && nodes[i] == e;
    var k := Find(nodes, e.pair);
    assert k <= i;
  }

  /** Dropping the lapsed pairs keeps the table current, and each was due. */
  lemma ExpiryCurrent(nodes: seq<Entry>, trail: seq<Mark>, now: Instant)
    requires Unique(nodes) && Current(nodes, trail)
    ensures Current(Alive(nodes, now), trail + DropMarks(Lapsed(nodes, now), now))
    ensures forall p :: p in Lapsed(nodes, now) ==> Largest(trail, p).Some? && Largest(trail, p).value <= now
  {
    hide Find, Largest;
    var alive, lapsed := Alive(nodes, now), Lapsed(nodes, now);
    ExpiryFacts(nodes, now);
    ExpiryMembers(nodes, now);
    forall p ensures Lookup(alive, p) == Largest(trail + DropMarks(lapsed, now), p) {
      DropsForget(trail, lapsed, now, p);
      if Listed(alive, p) {
        var i :| 0 <= i < |alive| && alive[i].pair == p;
        assert alive[i] in alive;
        LookupOf(alive, alive[i]);
        LookupOf(nodes, alive[i]);
      }
    }
    forall p | p in lapsed ensures Largest(trail, p).Some? && Largest(trail, p).value <= now {
      var e :| e in nodes && e.expires <= now && e.pair == p;
      LookupOf(nodes, e);
    }
  }

  lemma SeenNeverEarly(trail: seq<Mark>, items: seq<Entry>)
    requires NeverEarly(trail)
    ensures NeverEarly(trail + SeenMarks(items))
  {
    hide Largest;
    var more := trail + SeenMarks(items);
    forall i | 0 <= i < |more| && more[i].Dropped?
      ensures Largest(more[..i], more[i].pair).Some? && Largest(more[..i], more[i].pair).value <= more[i].at
    {
      assert i < |trail| && more[..i] == trail[..i];
    }
  }

  lemma DropsNeverEarly(trail: seq<Mark>, pairs: seq<Pair>, now: Instant)
    requires NeverEarly(trail) && Distinct(pairs)
    requires forall p :: p in pairs ==> Largest(trail, p).Some? && Largest(trail, p).value <= now
    ensures NeverEarly(trail + DropMarks(pairs, now))
  {
    hide Largest;
    var more := trail + DropMarks(pairs, now);
    forall i | 0 <= i < |more| && more[i].Dropped?
      ensures Largest(more[..i], more[i].pair).Some? && Largest(more[..i], more[i].pair).value <= more[i].at
    {
      if i < |trail| {
        assert more[..i] == trail[..i];
      } else {
        var k := i - |trail|;
        assert more[..i] == trail + DropMarks(pairs[..k], now);
        assert pairs[k] in pairs && pairs[k] !in pairs[..k];
        DropsForget(trail, pairs[..k], now, pairs[k]);
      }
    }
  }

  ghost predicate Timely(w: World) {
    Current(w.s.nodes, w.trail) && NeverEarly(w.trail)
  }

  lemma RefillTimely(w: World, now: Instant)
    requires Unique(w.s.nodes) && Timely(w)
    ensures Timely(Refilled(w, now))
  {
    hide Largest, Lookup, NeverEarly, Current, Unique, Absorb, Alive, Lapsed;
    var a := Absorb(w.s.nodes, w.s.inbox);
    AbsorbFacts(w.s.nodes, w.s.inbox);
    AbsorbCurrent(w.s.nodes, w.s.inbox, w.trail);
    SeenNeverEarly(w.trail, w.s.inbox);
    ExpiryFacts(a.nodes, now);
    ExpiryCurrent(a.nodes, w.trail + SeenMarks(w.s.inbox), now);
    DropsNeverEarly(w.trail + SeenMarks(w.s.inbox), Lapsed(a.nodes, now), now);
  }

  /** Mark `k` announces the pair, and it has not been dropped since. */
  predicate Standing(trail: seq<Mark>, p: Pair, k: int) {
    && 0 <= k < |trail| && trail[k].Seen? && trail[k].item.pair == p
    && forall j :: k < j < |trail| ==> !(trail[j].Dropped? && trail[j].pair == p)
  }

  /** `at` is the expiration of some standing announcement of the pair and no less than that of any. */
  ghost predicate LatestStanding(trail: seq<Mark>, p: Pair, at: Instant) {
    && (exists k :: Standing(trail, p, k) && trail[k].item.expires == at)
    && forall k :: Standing(trail, p, k) ==> trail[k].item.expires <= at
  }

  lemma StandingSnoc(trail: seq<Mark>, m: Mark, p: Pair, k: int)
    ensures Standing(trail + [m], p, k)
            <==> if k == |trail| then m.Seen? && m.item.pair == p
                 else Standing(trail, p, k) && !(m.Dropped? && m.pair == p)
  {
    var more := trail + [m];
    assert forall j :: 0 <= j < |trail| ==> more[j] == trail[j];
    assert more[|trail|] == m;
  }

  /** What is called largest is just that. */
  lemma {:induction false} LargestIsLatest(trail: seq<Mark>, p: Pair)
    ensures Largest(trail, p).None? <==> forall k :: !Standing(trail, p, k)
    ensures Largest(trail, p).Some? ==> LatestStanding(trail, p, Largest(trail, p).value)
  {
    if trail == [] {
      NoneStanding(p);
    } else {
      var n := |trail| - 1;
      var m := trail[n];
      LargestIsLatest(trail[..n], p);
      assert trail == trail[..n] + [m];
      forall k ensures Standing(trail, p, k)
        <==> if k == n then m.Seen? && m.item.pair == p else Standing(trail[..n], p, k) && !(m.Dropped? && m.pair == p)
      {
        StandingSnoc(trail[..n], m, p, k);
      }
      StandingIsMark(trail[..n], p);
      if m.Seen? && m.item.pair == p {
        assert Standing(trail, p, n);
      }
      if Largest(trail[..n], p).Some? {
        var k :| Standing(trail[..n], p, k) && trail[..n][k].item.expires == Largest(trail[..n], p).value;
        assert trail[k] == trail[..n][k];
      }
    }
  }

  lemma NoneStanding(p: Pair)
    ensures forall k :: !Standing([], p, k)
  {
  }

  lemma StandingIsMark(trail: seq<Mark>, p: Pair)
    ensures forall k :: Standing(trail, p, k) ==> 0 <= k < |trail| && trail[k].Seen?
  {
  }

  /**
   A pair is listed exactly while an announcement of it stands, with the latest expiration of those
   standing; and when it was dropped, that had come for all of them.
   */
  ghost predicate Punctual(w: World) {
    && (forall p :: Listed(w.s.nodes, p) <==> exists k :: Standing(w.trail, p, k))
    && (forall e :: e in w.s.nodes ==> LatestStanding(w.trail, e.pair, e.expires))
    && (forall i :: 0 <= i < |w.trail| && w.trail[i].Dropped? ==>
          && (exists k :: Standing(w.trail[..i], w.trail[i].pair, k))
          && forall k :: Standing(w.trail[..i], w.trail[i].pair, k) ==> w.trail[k].item.expires <= w.trail[i].at)
  }

  lemma TimelyIsPunctual(w: World)
    requires Unique(w.s.nodes) && Timely(w)
    ensures Punctual(w)
  {
    hide Largest, Find, Unique;
    forall p ensures Listed(w.s.nodes, p) <==> exists k :: Standing(w.trail, p, k) {
      LargestIsLatest(w.trail, p);
      assert Lookup(w.s.nodes, p) == Largest(w.trail, p);
    }
    forall e | e in w.s.nodes ensures LatestStanding(w.trail, e.pair, e.expires) {
      LargestIsLatest(w.trail, e.pair);
      LookupOf(w.s.nodes, e);
    }
    forall i | 0 <= i < |w.trail| && w.trail[i].Dropped?
      ensures exists k :: Standing(w.trail[..i], w.trail[i].pair, k)
      ensures forall k :: Standing(w.trail[..i], w.trail[i].pair, k) ==> w.trail[k].item.expires <= w.trail[i].at
    {
      LargestIsLatest(w.trail[..i], w.trail[i].pair);
      StandingIsMark(w.trail[..i], w.trail[i].pair);
    }
  }

  /**
   Without `expire_node`, over every run a pair is never dropped before the largest expiration
   announced for it since it was last dropped, and the table holds exactly those expirations.
   */
  lemma ExpiryIsTimely(ops: seq<Op>)
    requires forall op :: op in ops ==> !op.Expire?
    ensures Punctual(Run(ops))
  {
    hide Punctual, Timely, Unique;
    TimelyAlways(ops);
    UniqueAlways(ops);
    TimelyIsPunctual(Run(ops));
  }

  /** What was announced, in order, is what has been seen and then what is waiting to be read. */
  lemma {:induction false} AnnouncementsAreSeen(ops: seq<Op>)
    ensures SeenItems(Run(ops).trail) + Run(ops).s.inbox == Announced(ops)
  {
    hide Absorb, Alive, Lapsed, Earliest;
    if ops != [] {
      var n := |ops| - 1;
      var w := Run(ops[..n]);
      AnnouncementsAreSeen(ops[..n]);
      if ops[n].Announce? {
        Assoc(SeenItems(w.trail), w.s.inbox, [ops[n].item]);
      } else if ops[n].Poll? && w.s.pending == [] {
        SeenAppend(w.trail, SeenMarks(w.s.inbox));
        SeenOfMarks(w.s.inbox);
        var lapsed := Lapsed(Absorb(w.s.nodes, w.s.inbox).nodes, ops[n].now);
        SeenAppend(w.trail + SeenMarks(w.s.inbox), DropMarks(lapsed, ops[n].now));
        SeenOfDrops(lapsed, ops[n].now);
        assert SeenItems(w.trail) + w.s.inbox + [] == SeenItems(w.trail) + w.s.inbox;
      }
    }
  }

  function Announced(ops: seq<Op>): seq<Entry> {
    if ops == [] then []
    else
      var op := ops[|ops| - 1];
      Announced(ops[..|ops| - 1]) + (if op.Announce? then [op.item] else [])
  }

  function SeenItems(trail: seq<Mark>): seq<Entry> {
    if trail == [] then []
    else
      var m := trail[|trail| - 1];
      SeenItems(trail[..|trail| - 1]) + (if m.Seen? then [m.item] else [])
  }

  lemma {:induction false} SeenAppend(a: seq<Mark>, b: seq<Mark>)
    ensures SeenItems(a + b) == SeenItems(a) + SeenItems(b)
  {
    if b == [] {
      assert a + b == a;
    } else {
      var n := |b| - 1;
      assert (a + b)[..|a + b| - 1] == a + b[..n];
      SeenAppend(a, b[..n]);
    }
  }

  lemma {:induction false} SeenOfMarks(items: seq<Entry>)
    ensures SeenItems(SeenMarks(items)) == items
  {
    if items != [] {
      var n := |items| - 1;
      SeenOfMarks(items[..n]);
      assert SeenMarks(items)[..n] == SeenMarks(items[..n]);
    }
  }

  lemma {:induction false} SeenOfDrops(pairs: seq<Pair>, now: Instant)
    ensures SeenItems(DropMarks(pairs, now)) == []
  {
    if pairs != [] {
      var n := |pairs| - 1;
      SeenOfDrops(pairs[..n], now);
      assert DropMarks(pairs, now)[..n] == DropMarks(pairs[..n], now);
    }
  }

  lemma {:induction false} TimelyAlways(ops: seq<Op>)
    requires forall op :: op in ops ==> !op.Expire?
    ensures Timely(Run(ops))
  {
    hide Lookup, Refilled, Polled, Consistent;
    if ops == [] {
      NothingAtStart();
    } else {
      var n := |ops| - 1;
      assert forall op :: op in ops[..n] ==> op in ops;
      assert ops[n] in ops;
      TimelyAlways(ops[..n]);
      UniqueAlways(ops[..n]);
      StepTimely(Run(ops[..n]), ops[n]);
    }
  }

  lemma NothingAtStart()
    ensures Timely(START)
  {
    assert forall p :: !Listed([], p);
  }

  lemma UniqueAlways(ops: seq<Op>)
    ensures Unique(Run(ops).s.nodes)
  {
    LogAgreesWithTable(ops);
  }

  lemma StepTimely(w: World, op: Op)
    requires Unique(w.s.nodes) && Timely(w) && !op.Expire?
    ensures Timely(Next(w, op))
  {
    hide Lookup, Largest, NeverEarly, Current, Unique;
    if op.Poll? && w.s.pending == [] {
      RefillTimely(w, op.now);
    }
  }

  // ---------------------------------------------------------------- the marks are what happened

  function DroppedPairs(trail: seq<Mark>): seq<Pair> {
    if trail == [] then []
    else
      DroppedPairs(trail[..|trail| - 1])
      + (if trail[|trail| - 1].Dropped? then [trail[|trail| - 1].pair] else [])
  }

  function ExpiredPairs(blocks: seq<Block>): seq<Pair> {
    if blocks == [] then []
    else
      ExpiredPairs(blocks[..|blocks| - 1])
      + (if blocks[|blocks| - 1].Lost? then blocks[|blocks| - 1].pairs else [])
  }

  lemma {:induction false} DroppedAppend(a: seq<Mark>, b: seq<Mark>)
    ensures DroppedPairs(a + b) == DroppedPairs(a) + DroppedPairs(b)
  {
    if b == [] {
      assert a + b == a;
    } else {
      var n := |b| - 1;
      DroppedAppend(a, b[..n]);
      assert (a + b)[..|a| + n] == a + b[..n];
    }
  }

  lemma {:induction false} DroppedOfMarks(items: seq<Entry>, pairs: seq<Pair>, now: Instant)
    ensures DroppedPairs(SeenMarks(items)) == [] && DroppedPairs(DropMarks(pairs, now)) == pairs
    decreases |items| + |pairs|
  {
    if items != [] {
      DroppedOfMarks(items[..|items| - 1], pairs, now);
      assert SeenMarks(items)[..|items| - 1] == SeenMarks(items[..|items| - 1]);
    } else if pairs != [] {
      DroppedOfMarks(items, pairs[..|pairs| - 1], now);
      assert DropMarks(pairs, now)[..|pairs| - 1] == DropMarks(pairs[..|pairs| - 1], now);
    }
  }

  /** The pairs dropped over a run are exactly those of its Expired events, in order. */
  lemma {:induction false} DropsAreExpiredEvents(ops: seq<Op>)
    ensures DroppedPairs(Run(ops).trail) == ExpiredPairs(Run(ops).blocks)
  {
    hide Next;
    if ops != [] {
      DropsAreExpiredEvents(ops[..|ops| - 1]);
      DropsStep(Run(ops[..|ops| - 1]), ops[|ops| - 1]);
    }
  }

  lemma DropsStep(w: World, op: Op)
    requires DroppedPairs(w.trail) == ExpiredPairs(w.blocks)
    ensures DroppedPairs(Next(w, op).trail) == ExpiredPairs(Next(w, op).blocks)
  {
    hide Absorb, Lapsed, Refill, Polled, ExpirePeer, DroppedPairs, ExpiredPairs;
    if op.Poll? && w.s.pending == [] {
      var a := Absorb(w.s.nodes, w.s.inbox);
      var lapsed := Lapsed(a.nodes, op.now);
      DroppedOfMarks(w.s.inbox, lapsed, op.now);
      DroppedAppend(w.trail, SeenMarks(w.s.inbox));
      if a.found != [] {
        ExpiredSnoc(w.blocks, Gained(a.found));
      } else {
        DroppedAppend(w.trail + SeenMarks(w.s.inbox), DropMarks(lapsed, op.now));
        ExpiredSnoc(w.blocks, Lost(lapsed));
      }
    }
  }

  lemma ExpiredSnoc(blocks: seq<Block>, b: Block)
    ensures ExpiredPairs(blocks + [b]) == ExpiredPairs(blocks) + (if b.Lost? then b.pairs else [])
  {
    assert (blocks + [b])[..|blocks|] == blocks;
  }

  /** A poll that returns nothing leaves nothing overdue, and a timer armed for the earliest expiration; with an empty table the timer is let be. */
  lemma QuietPollIsUpToDate(s: State, now: Instant)
    requires Polled(s, now).1 == None
    ensures var s' := Polled(s, now).0;
            && s'.pending == [] && s'.inbox == []
            && (forall e :: e in s'.nodes ==> now < e.expires)
            && (s'.nodes != [] ==>
                  && s'.timer.Some? && (forall e :: e in s'.nodes ==> s'.timer.value <= e.expires)
                  && exists e :: e in s'.nodes && s'.timer == Some(e.expires))
            && (s'.nodes == [] ==> s'.timer == s.timer)
  {
    hide Absorb, Alive, Lapsed, Earliest;
    var nodes := Absorb(s.nodes, s.inbox).nodes;
    NothingLapsed(nodes, now);
    ExpiryMembers(nodes, now);
    EarliestIsMinimum(nodes);
  }
}
