/** The mDNS behaviour: the table of discovered nodes, the queue of events to emit, and the expiry timer. */
module Discovery {
  import opened Bytes
  import opened Addresses

  type Pair = (PeerId, Multiaddr)
  type Instant = nat

  datatype Entry = Entry(pair: Pair, expires: Instant)

  datatype Event =
    | Discovered(pairs: seq<Pair>)
    | Expired(pairs: seq<Pair>)
    | NewExternalAddrOfPeer(pair: Pair)

  // ---------------------------------------------------------------- what one poll does

  function Max(a: nat, b: nat): nat { if a >= b then a else b }

  predicate Listed(nodes: seq<Entry>, pair: Pair) {
    exists i :: 0 <= i < |nodes| && nodes[i].pair == pair
  }

  /** The position of the first entry for the pair, or the length of the table. */
  function Find(nodes: seq<Entry>, pair: Pair): (i: nat)
    ensures i <= |nodes| && (i < |nodes| <==> Listed(nodes, pair))
    ensures i < |nodes| ==> nodes[i].pair == pair
    ensures forall k :: 0 <= k < i ==> nodes[k].pair != pair
  {
    if nodes == [] then 0
    else if nodes[0].pair == pair then 0
    else
      var k := Find(nodes[1..], pair);
      assert forall i :: 1 <= i < |nodes| ==> nodes[i] == nodes[1..][i - 1];
      1 + k
  }

  /** The table after some announcements, and the pairs that were new to it. */
  datatype Absorbed = Absorbed(nodes: seq<Entry>, found: seq<Pair>)

  function AbsorbOne(a: Absorbed, item: Entry): Absorbed {
    var i := Find(a.nodes, item.pair);
    if i < |a.nodes| then a.(nodes := a.nodes[i := Entry(item.pair, Max(a.nodes[i].expires, item.expires))])
    else Absorbed(a.nodes + [item], a.found + [item.pair])
  }

  function Absorb(nodes: seq<Entry>, items: seq<Entry>): Absorbed {
    if items == [] then Absorbed(nodes, [])
    else AbsorbOne(Absorb(nodes, items[..|items| - 1]), items[|items| - 1])
  }

  function Alive(nodes: seq<Entry>, now: Instant): seq<Entry> {
    if nodes == [] then []
    else
      var e := nodes[|nodes| - 1];
      Alive(nodes[..|nodes| - 1], now) + (if e.expires > now then [e] else [])
  }

  function Lapsed(nodes: seq<Entry>, now: Instant): seq<Pair> {
    if nodes == [] then []
    else
      var e := nodes[|nodes| - 1];
      Lapsed(nodes[..|nodes| - 1], now) + (if e.expires <= now then [e.pair] else [])
  }

  /** The smallest expiration in the table. */
  function Earliest(nodes: seq<Entry>): Option<Instant> {
    if nodes == [] then None
    else
      var e := nodes[|nodes| - 1];
      match Earliest(nodes[..|nodes| - 1])
      case None => Some(e.expires)
      case Some(m) => Some(Min(m, e.expires))
  }

  function NewAddresses(pairs: seq<Pair>): (evs: seq<Event>)
    ensures |evs| == |pairs| && forall i :: 0 <= i < |pairs| ==> evs[i] == NewExternalAddrOfPeer(pairs[i])
  {
    seq(|pairs|, i requires 0 <= i < |pairs| => NewExternalAddrOfPeer(pairs[i]))
  }

  /** The whole state: the table, the events not yet emitted, the timer, and the announcements not yet read. */
  datatype State = State(nodes: seq<Entry>, pending: seq<Event>, timer: Option<Instant>, inbox: seq<Entry>)

  /** A poll that found nothing pending queues these events. */
  function Refill(s: State, now: Instant): State {
    var a := Absorb(s.nodes, s.inbox);
    if a.found != [] then State(a.nodes, [Discovered(a.found)] + NewAddresses(a.found), s.timer, [])
    else if Lapsed(a.nodes, now) != [] then State(Alive(a.nodes, now), [Expired(Lapsed(a.nodes, now))], s.timer, [])
    else State(a.nodes, [], if a.nodes == [] then s.timer else Earliest(a.nodes), [])
  }

  /** One poll of an enabled behaviour: the state after it and the event it returned, if any. */
  function Polled(s: State, now: Instant): (State, Option<Event>) {
    var s' := if s.pending == [] then Refill(s, now) else s;
    if s'.pending == [] then (s', None) else (s'.(pending := s'.pending[1..]), Some(s'.pending[0]))
  }

  function ExpirePeer(nodes: seq<Entry>, peer: PeerId, now: Instant): (r: seq<Entry>)
    ensures |r| == |nodes|
    ensures forall i :: 0 <= i < |nodes| ==> r[i] == if nodes[i].pair.0 == peer then nodes[i].(expires := now) else nodes[i]
  {
    seq(|nodes|, i requires 0 <= i < |nodes| => if nodes[i].pair.0 == peer then nodes[i].(expires := now) else nodes[i])
  }

  function AddressesOf(nodes: seq<Entry>, peer: PeerId): (r: seq<Multiaddr>)
    ensures forall a :: a in r <==> Listed(nodes, (peer, a))
  {
    if nodes == [] then []
    else
      var e := nodes[|nodes| - 1];
      assert forall p :: Listed(nodes, p) <==> Listed(nodes[..|nodes| - 1], p) || e.pair == p;
      AddressesOf(nodes[..|nodes| - 1], peer) + (if e.pair.0 == peer then [e.pair.1] else [])
  }

  // ---------------------------------------------------------------- the source's form

  class Behaviour {
    const disabled: bool
    var discoveredNodes: seq<Entry>
    var pendingEvents: seq<Event>
    var closestExpiration: Option<Instant>
    var queryResponses: seq<Entry>

    constructor (disabled: bool)
      ensures Value() == State([], [], None, []) && this.disabled == disabled
    {
      this.disabled := disabled;
      discoveredNodes, pendingEvents, closestExpiration, queryResponses := [], [], None, [];
    }

    function Value(): State
      reads this
    {
      State(discoveredNodes, pendingEvents, closestExpiration, queryResponses)
    }

    /** Read every waiting announcement: refresh known pairs, list and queue new ones. */
    method DrainResponses() returns (discovered: seq<Pair>)
      modifies this
      ensures var a := Absorb(old(discoveredNodes), old(queryResponses));
              discoveredNodes == a.nodes && discovered == a.found
      ensures pendingEvents == old(pendingEvents) + NewAddresses(discovered)
      ensures queryResponses == [] && closestExpiration == old(closestExpiration)
    {
      discovered := [];
      ghost var all, done := queryResponses, 0;
      while queryResponses != []
        invariant 0 <= done <= |all| && queryResponses == all[done..]
        invariant Absorb(old(discoveredNodes), all[..done]) == Absorbed(discoveredNodes, discovered)
        invariant pendingEvents == old(pendingEvents) + NewAddresses(discovered)
        invariant closestExpiration == old(closestExpiration)
        decreases |queryResponses|
      {
        var item := queryResponses[0];
        assert all[..done + 1][..done] == all[..done];
        queryResponses, done := queryResponses[1..], done + 1;
        var i := Find(discoveredNodes, item.pair);
        if i < |discoveredNodes| {
          var expires := Max(discoveredNodes[i].expires, item.expires);
          discoveredNodes := discoveredNodes[i := Entry(item.pair, expires)];
        } else {
          discoveredNodes := discoveredNodes + [item];
          discovered := discovered + [item.pair];
          pendingEvents := pendingEvents + [NewExternalAddrOfPeer(item.pair)];
        }
      }
      assert all[..done] == all;
    }

    /** `retain` over the table, collecting what lapsed and the earliest of what stays. */
    method RetainAlive(now: Instant) returns (expired: seq<Pair>, earliest: Option<Instant>)
      modifies this`discoveredNodes
      ensures discoveredNodes == Alive(old(discoveredNodes), now)
      ensures expired == Lapsed(old(discoveredNodes), now) && earliest == Earliest(discoveredNodes)
    {
      var nodes, kept := discoveredNodes, [];
      expired, earliest := [], None;
      var i := 0;
      while i < |nodes|
        invariant 0 <= i <= |nodes|
        invariant kept == Alive(nodes[..i], now) && expired == Lapsed(nodes[..i], now) && earliest == Earliest(kept)
      {
        var e := nodes[i];
        assert nodes[..i + 1][..i] == nodes[..i];
        if e.expires <= now {
          expired := expired + [e.pair];
        } else {
          earliest := Some(if earliest.Some? then Min(earliest.value, e.expires) else e.expires);
          assert (kept + [e])[..|kept|] == kept;
          kept := kept + [e];
        }
        i := i + 1;
      }
      assert nodes[..i] == nodes;
      discoveredNodes := kept;
    }

    /** `poll`; the outer loop restarts at most once, since a restart leaves an event to return. */
    method Poll(now: Instant) returns (r: Option<Event>)
      modifies this
      ensures disabled ==> r == None && Value() == old(Value()).(pending := [])
      ensures !disabled ==> (Value(), r) == Polled(old(Value()), now)
    {
      hide Absorb, Alive, Lapsed, Earliest;
      EarliestIsMinimum(Absorb(discoveredNodes, queryResponses).nodes);
      if disabled {
        pendingEvents := [];
        return None;
      }
      ghost var restarts := 0;
      while true
        invariant restarts <= 1
        invariant restarts == 0 ==> Value() == old(Value())
        invariant restarts == 1 ==> pendingEvents != [] && old(pendingEvents) == [] && Value() == Refill(old(Value()), now)
        decreases 1 - restarts
      {
        if pendingEvents != [] {
          var event := pendingEvents[0];
          pendingEvents := pendingEvents[1..];
          return Some(event);
        }
        var discovered := DrainResponses();
        if discovered != [] {
          pendingEvents := [Discovered(discovered)] + pendingEvents;
          restarts := restarts + 1;
          continue;
        }
        var expired, earliest := RetainAlive(now);
        if expired != [] {
          pendingEvents := pendingEvents + [Expired(expired)];
          restarts := restarts + 1;
          continue;
        }
        NothingLapsed(Absorb(old(discoveredNodes), old(queryResponses)).nodes, now);
        if earliest.Some? {
          closestExpiration := earliest;
        }
        return None;
      }
    }

    /** The deprecated `expire_node`. */
    method ExpireNode(peer: PeerId, now: Instant)
      modifies this
      ensures Value() == old(Value()).(nodes := ExpirePeer(old(discoveredNodes), peer, now), timer := Some(now))
    {
      var i := 0;
      while i < |discoveredNodes|
        invariant 0 <= i <= |discoveredNodes| == |old(discoveredNodes)|
        invariant forall k :: 0 <= k < i ==> discoveredNodes[k] == ExpirePeer(old(discoveredNodes), peer, now)[k]
        invariant forall k :: i <= k < |discoveredNodes| ==> discoveredNodes[k] == old(discoveredNodes)[k]
        invariant pendingEvents == old(pendingEvents) && queryResponses == old(queryResponses)
      {
        if discoveredNodes[i].pair.0 == peer {
          discoveredNodes := discoveredNodes[i := discoveredNodes[i].(expires := now)];
        }
        i := i + 1;
      }
      closestExpiration := Some(now);
    }

    /** `handle_pending_outbound_connection`: the addresses known for the peer being dialled. */
    method PendingOutbound(maybePeer: Option<PeerId>) returns (addrs: seq<Multiaddr>)
      ensures addrs == if maybePeer.Some? then AddressesOf(discoveredNodes, maybePeer.value) else []
    {
      if maybePeer == None {
        return [];
      }
      addrs := [];
      var i := 0;
      while i < |discoveredNodes|
        invariant 0 <= i <= |discoveredNodes| && addrs == AddressesOf(discoveredNodes[..i], maybePeer.value)
      {
        assert discoveredNodes[..i + 1][..i] == discoveredNodes[..i];
        if discoveredNodes[i].pair.0 == maybePeer.value {
          addrs := addrs + [discoveredNodes[i].pair.1];
        }
        i := i + 1;
      }
      assert discoveredNodes[..i] == discoveredNodes;
    }
  }

  lemma {:induction false} ExpiryMembers(nodes: seq<Entry>, now: Instant)
    ensures forall e :: e in Alive(nodes, now) <==> e in nodes && e.expires > now
    ensures forall p :: p in Lapsed(nodes, now) <==> exists e :: e in nodes && e.expires <= now && e.pair == p
  {
    if nodes != [] {
      ExpiryMembers(nodes[..|nodes| - 1], now);
      assert nodes == nodes[..|nodes| - 1] + [nodes[|nodes| - 1]];
    }
  }

  lemma {:induction false} AliveAppends(a: seq<Entry>, b: seq<Entry>, now: Instant)
    ensures Alive(a + b, now) == Alive(a, now) + Alive(b, now)
  {
    if b == [] {
      assert a + b == a;
    } else {
      var n := |b| - 1;
      assert (a + b)[..|a| + n] == a + b[..n];
      AliveAppends(a, b[..n], now);
    }
  }

  lemma {:induction false} LapsedAppends(a: seq<Entry>, b: seq<Entry>, now: Instant)
    ensures Lapsed(a + b, now) == Lapsed(a, now) + Lapsed(b, now)
  {
    if b == [] {
      assert a + b == a;
    } else {
      var n := |b| - 1;
      assert (a + b)[..|a| + n] == a + b[..n];
      LapsedAppends(a, b[..n], now);
    }
  }

  lemma {:induction false} AddressesAppend(a: seq<Entry>, b: seq<Entry>, peer: PeerId)
    ensures AddressesOf(a + b, peer) == AddressesOf(a, peer) + AddressesOf(b, peer)
  {
    hide Listed;
    if b == [] {
      assert a + b == a;
    } else {
      var n := |b| - 1;
      assert (a + b)[..|a| + n] == a + b[..n];
      AddressesAppend(a, b[..n], peer);
    }
  }

  /** What stays, what lapses and what is offered for a dial are taken entry by entry, in table order. */
  lemma InTableOrder(a: seq<Entry>, b: seq<Entry>, e: Entry, now: Instant, peer: PeerId)
    ensures Alive(a + [e] + b, now) == Alive(a, now) + (if now < e.expires then [e] else []) + Alive(b, now)
    ensures Lapsed(a + [e] + b, now) == Lapsed(a, now) + (if now < e.expires then [] else [e.pair]) + Lapsed(b, now)
    ensures AddressesOf(a + [e] + b, peer)
         == AddressesOf(a, peer) + (if e.pair.0 == peer then [e.pair.1] else []) + AddressesOf(b, peer)
  {
    hide Alive, Lapsed, AddressesOf;
    OneEntry(e, now, peer);
    AliveAppends(a, [e], now);
    AliveAppends(a + [e], b, now);
    LapsedAppends(a, [e], now);
    LapsedAppends(a + [e], b, now);
    AddressesAppend(a, [e], peer);
    AddressesAppend(a + [e], b, peer);
  }

  lemma OneEntry(e: Entry, now: Instant, peer: PeerId)
    ensures Alive([e], now) == if now < e.expires then [e] else []
    ensures Lapsed([e], now) == if now < e.expires then [] else [e.pair]
    ensures AddressesOf([e], peer) == if e.pair.0 == peer then [e.pair.1] else []
  {
  }

  /** `Earliest` is the exact minimum. */
  lemma {:induction false} EarliestIsMinimum(nodes: seq<Entry>)
    ensures Earliest(nodes).None? <==> nodes == []
    ensures nodes != [] ==>
              && (exists e :: e in nodes && Earliest(nodes) == Some(e.expires))
              && forall e :: e in nodes ==> Earliest(nodes).value <= e.expires
  {
    if nodes != [] {
      var n := |nodes| - 1;
      EarliestIsMinimum(nodes[..n]);
      assert nodes == nodes[..n] + [nodes[n]];
      assert nodes[n] in nodes;
    }
  }

  lemma {:induction false} NothingLapsed(nodes: seq<Entry>, now: Instant)
    requires Lapsed(nodes, now) == []
    ensures Alive(nodes, now) == nodes
  {
    if nodes != [] {
      NothingLapsed(nodes[..|nodes| - 1], now);
    }
  }
}
