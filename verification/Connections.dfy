/** The network task's bookkeeping of connections: the endpoint cache with its index, and the retry scheduler. */
module Connections {
  import opened Bytes
  import opened Addresses

  datatype Endpoint = Endpoint(peer: PeerId, address: Multiaddr)
  datatype RetryTask = RetryTask(target: Endpoint, retryCount: u64)

  /** A callback the retry thread has put to sleep. */
  datatype Sleeper = Sleeper(target: Endpoint, seconds: nat)

  // ---------------------------------------------------------------- what happens to the task

  datatype AddressError = NotSupported(of: Multiaddr) | HoldAndRetry | Unrecoverable | Opaque

  datatype DialError =
    | Transport(errors: seq<(Multiaddr, AddressError)>)
    | NoAddresses | Aborted | DialPeerConditionFalse | LocalPeerId | WrongPeerId | Denied

  datatype Cause = NoError | IoError | OtherError

  /** The boot node, if there is one, and the library's two kinds of addresses the task tells apart. */
  datatype Config = Config(boot: Option<Endpoint>, local: Multiaddr -> bool, linkLocal: Multiaddr -> bool)

  datatype Event =
    | NewListenAddr(address: Multiaddr)
    | ListenAddrExpired(address: Multiaddr)
    | ConnectionEstablished(peer: PeerId, remote: Multiaddr)
    | ConnectionClosed(peer: PeerId, remote: Multiaddr, numEstablished: nat, cause: Cause, dialer: bool)
    | OutgoingConnectionError(maybePeer: Option<PeerId>, error: DialError)
    | RetryThreadReceives
    | SleeperWakes(i: nat)
    | RetryCallback(connectedPeers: nat, targetConnected: bool)

  /**
   The task's state, with its history: when each endpoint was last established, how often the
   retry branch dialled an entry since it was inserted, and which entries it dialled since their
   last enqueue.
   */
  datatype State = State(
    cache: seq<Endpoint>, unique: set<Endpoint>,
    failing: map<Endpoint, RetryTask>, retryQueue: seq<RetryTask>, sleepers: seq<Sleeper>, callbacks: seq<Endpoint>,
    listening: set<Multiaddr>, time: nat, stamps: map<Endpoint, nat>, dials: map<Endpoint, nat>, dialled: set<Endpoint>)

  const START: State := State([], {}, map[], [], [], [], {}, 0, map[], map[], {})

  /** `get_non_p2p_multiaddr`: pop until at most two protocols are left. */
  function NonP2p(addr: Multiaddr): Multiaddr
    decreases |addr|
  {
    if |addr| > 2 then NonP2p(addr[..|addr| - 1]) else addr
  }

  function Without(cache: seq<Endpoint>, drop: Endpoint -> bool): (r: seq<Endpoint>)
    ensures forall e :: e in r <==> e in cache && !drop(e)
  {
    if cache == [] then []
    else
      var e := cache[|cache| - 1];
      assert forall x :: x in cache <==> x in cache[..|cache| - 1] || x == e;
      Without(cache[..|cache| - 1], drop) + (if drop(e) then [] else [e])
  }

  /** `retain` on both the cache and its index. */
  function Forget(s: State, drop: Endpoint -> bool): State {
    s.(cache := Without(s.cache, drop), unique := set e | e in s.unique && !drop(e))
  }

  function ForgetPeer(s: State, peer: PeerId): State { Forget(s, (e: Endpoint) => e.peer == peer) }
  function ForgetAddress(s: State, address: Multiaddr): State { Forget(s, (e: Endpoint) => e.address == address) }

  /** Insert the endpoint among the failing ones, keeping its count if it is there, and queue a retry. */
  function Enqueue(s: State, target: Endpoint): State {
    var task := if target in s.failing then s.failing[target] else RetryTask(target, 0);
    s.(failing := s.failing[target := task], retryQueue := s.retryQueue + [task],
       dials := if target in s.failing then s.dials else s.dials[target := 0],
       dialled := s.dialled - {target})
  }

  function Establish(s: State, peer: PeerId, remote: Multiaddr): State {
    var e := Endpoint(peer, NonP2p(remote));
    s.(cache := [e] + (if e in s.unique then Without(s.cache, x => x == e) else s.cache),
       unique := s.unique + {e},
       failing := map x | x in s.failing && x.peer != peer :: s.failing[x],
       time := s.time + 1, stamps := s.stamps[e := s.time])
  }

  function Close(s: State, ev: Event): State
    requires ev.ConnectionClosed?
  {
    var s1 := if ev.numEstablished == 0 then ForgetPeer(s, ev.peer) else s;
    if ev.cause == NoError then s1
    else
      var s2 := ForgetAddress(s1, ev.remote);
      if ev.cause == IoError && ev.dialer then Enqueue(s2, Endpoint(ev.peer, ev.remote)) else s2
  }

  /** One failed address of a transport error. */
  function FailAddress(s: State, peer: Option<PeerId>, address: Multiaddr, error: AddressError): State {
    if peer == None then s
    else
      var e := Endpoint(peer.value, address);
      match error
      case HoldAndRetry => Enqueue(s, e)
      case Unrecoverable => var s1 := ForgetAddress(s, address); s1.(failing := s1.failing - {e})
      case _ => s
  }

  function FailAddresses(s: State, peer: Option<PeerId>, errors: seq<(Multiaddr, AddressError)>): State {
    if errors == [] then s
    else
      var (address, error) := errors[|errors| - 1];
      FailAddress(FailAddresses(s, peer, errors[..|errors| - 1]), peer, address, error)
  }

  /** Does this error mean the peer itself is to be forgotten? */
  predicate ShouldClean(error: DialError) {
    match error
    case Transport(errors) => exists i :: 0 <= i < |errors| && errors[i].1.NotSupported?
    case NoAddresses => true
    case Aborted => false
    case DialPeerConditionFalse => false
    case LocalPeerId => true
    case WrongPeerId => true
    case Denied => true
  }

  function FailDial(s: State, peer: Option<PeerId>, error: DialError): State {
    var s1 := if error.Transport? then FailAddresses(s, peer, error.errors) else s;
    if ShouldClean(error) && peer.Some? then ForgetPeer(s1, peer.value) else s1
  }

  /** The delay before a callback: the square of the count plus one, or one if the square overflows. */
  function Delay(count: u64): nat {
    (if count * count < 0x1_0000_0000_0000_0000 then count * count else 0) + 1
  }

  function NonLocal(listening: set<Multiaddr>, cfg: Config): set<Multiaddr> {
    set a | a in listening && !cfg.local(a)
  }

  function LinkLocal(listening: set<Multiaddr>, cfg: Config): set<Multiaddr> {
    set a | a in listening && cfg.linkLocal(a)
  }

  /** Is there a network to reach the address through? */
  predicate NetworkOk(listening: set<Multiaddr>, address: Multiaddr, connectedPeers: nat, cfg: Config) {
    var nonLocal, linkLocal := |NonLocal(listening, cfg)|, |LinkLocal(listening, cfg)|;
    if connectedPeers > 0 then true
    else if nonLocal > 0 then (if cfg.linkLocal(address) then linkLocal > 0 else linkLocal < nonLocal)
    else false
  }

  /**
   When an address counts as reachable: through a connected peer; or, with a non-local listen address,
   for a link-local address when there is a link-local one to listen on, and for any other when fewer
   listen addresses are link-local than are not local.
   */
  ghost predicate Reachable(listening: set<Multiaddr>, address: Multiaddr, connectedPeers: nat, cfg: Config) {
    || connectedPeers >= 1
    || (&& (exists a :: a in listening && !cfg.local(a))
        && if cfg.linkLocal(address) then exists a :: a in listening && cfg.linkLocal(a)
           else |set a | a in listening && cfg.linkLocal(a)| < |set a | a in listening && !cfg.local(a)|)
  }

  lemma NetworkOkIsReachable(listening: set<Multiaddr>, address: Multiaddr, connectedPeers: nat, cfg: Config)
    ensures NetworkOk(listening, address, connectedPeers, cfg) <==> Reachable(listening, address, connectedPeers, cfg)
  {
    var nonLocal, linkLocal := NonLocal(listening, cfg), LinkLocal(listening, cfg);
    assert nonLocal == set a | a in listening && !cfg.local(a);
    assert linkLocal == set a | a in listening && cfg.linkLocal(a);
    if a :| a in listening && !cfg.local(a) {
      assert a in nonLocal;
    }
    if a :| a in listening && cfg.linkLocal(a) {
      assert a in linkLocal;
    }
    if |nonLocal| > 0 {
      var a :| a in nonLocal;
    }
    if |linkLocal| > 0 {
      var a :| a in linkLocal;
    }
  }

  function Callback(s: State, connectedPeers: nat, targetConnected: bool, cfg: Config): State
    requires s.callbacks != []
  {
    var e, s1 := s.callbacks[0], s.(callbacks := s.callbacks[1..]);
    if e !in s1.failing then s1
    else
      var task := s1.failing[e];
      if !NetworkOk(s.listening, task.target.address, connectedPeers, cfg) then
        s1.(retryQueue := s1.retryQueue + [task], dialled := s1.dialled - {e})
      else if task.retryCount > 3 || targetConnected then s1.(failing := s1.failing - {e})
      else
        s1.(failing := s1.failing[e := task.(retryCount := task.retryCount + 1)],
            dials := s1.dials[e := (if e in s1.dials then s1.dials[e] else 0) + 1], dialled := s1.dialled + {e})
  }

  /** A listen address is gone; if another non-local one is left, the boot node is tried again. */
  function StopListening(s: State, address: Multiaddr, cfg: Config): State {
    var s1 := s.(listening := s.listening - {address});
    if |NonLocal(s1.listening, cfg)| > 0 && cfg.boot.Some? then Enqueue(s1, cfg.boot.value) else s1
  }

  function Remove<T>(ts: seq<T>, i: nat): seq<T>
    requires i < |ts|
  {
    ts[..i] + ts[i + 1..]
  }

  function Next(s: State, ev: Event, cfg: Config): State {
    match ev
    case NewListenAddr(address) => s.(listening := s.listening + {address})
    case ListenAddrExpired(address) => StopListening(s, address, cfg)
    case ConnectionEstablished(peer, remote) => Establish(s, peer, remote)
    case ConnectionClosed(_, _, _, _, _) => Close(s, ev)
    case OutgoingConnectionError(peer, error) => FailDial(s, peer, error)
    case RetryThreadReceives =>
      if s.retryQueue == [] then s
      else
        var task := s.retryQueue[0];
        s.(retryQueue := s.retryQueue[1..], sleepers := s.sleepers + [Sleeper(task.target, Delay(task.retryCount))])
    case SleeperWakes(i) =>
      if i >= |s.sleepers| then s
      else s.(sleepers := Remove(s.sleepers, i), callbacks := s.callbacks + [s.sleepers[i].target])
    case RetryCallback(connectedPeers, targetConnected) =>
      if s.callbacks == [] then s else Callback(s, connectedPeers, targetConnected, cfg)
  }

  function Run(evs: seq<Event>, cfg: Config): State {
    if evs == [] then START else Next(Run(evs[..|evs| - 1], cfg), evs[|evs| - 1], cfg)
  }

  // ---------------------------------------------------------------- the source's form

  /** The variables of the network task's loop, and the two channels to and from the retry thread. */
  class NetworkTask {
    const config: Config
    var currentListenAddresses: set<Multiaddr>
    var endpointCache: seq<Endpoint>
    var uniqueEndpoints: set<Endpoint>
    var failingConnections: map<Endpoint, RetryTask>
    var retryQueue: seq<RetryTask>
    var sleepers: seq<Sleeper>
    var callbacks: seq<Endpoint>
    ghost var history: State

    ghost predicate Valid()
      reads this
    {
      && history.cache == endpointCache && history.unique == uniqueEndpoints
      && history.failing == failingConnections && history.retryQueue == retryQueue
      && history.sleepers == sleepers && history.callbacks == callbacks && history.listening == currentListenAddresses
    }

    constructor (config: Config)
      ensures Valid() && history == START && this.config == config
    {
      this.config := config;
      currentListenAddresses := {};
      endpointCache, uniqueEndpoints, failingConnections := [], {}, map[];
      retryQueue, sleepers, callbacks := [], [], [];
      history := START;
    }

    method EnqueueRetry(target: Endpoint)
      requires Valid()
      modifies this
      ensures Valid() && history == Enqueue(old(history), target)
    {
      history := Enqueue(history, target);
      var task := if target in failingConnections then failingConnections[target] else RetryTask(target, 0);
      failingConnections := failingConnections[target := task];
      retryQueue := retryQueue + [task];
    }

    method OnNewListenAddr(address: Multiaddr)
      requires Valid()
      modifies this
      ensures Valid() && history == Next(old(history), NewListenAddr(address), config)
    {
      history := Next(history, NewListenAddr(address), config);
      currentListenAddresses := currentListenAddresses + {address};
    }

    method OnListenAddrExpired(address: Multiaddr)
      requires Valid()
      modifies this
      ensures Valid() && history == Next(old(history), ListenAddrExpired(address), config)
    {
      currentListenAddresses := currentListenAddresses - {address};
      history := history.(listening := currentListenAddresses);
      if |NonLocal(currentListenAddresses, config)| > 0 {
        if config.boot.Some? {
          EnqueueRetry(config.boot.value);
        }
      }
    }

    method OnConnectionEstablished(peer: PeerId, remote: Multiaddr)
      requires Valid()
      modifies this
      ensures Valid() && history == Next(old(history), ConnectionEstablished(peer, remote), config)
    {
      hide Without;
      history := Establish(history, peer, remote);
      var address := remote;
      while |address| > 2
        invariant NonP2p(address) == NonP2p(remote)
        decreases |address|
      {
        address := address[..|address| - 1];
      }
      var entry := Endpoint(peer, address);
      if entry in uniqueEndpoints {
        endpointCache := Without(endpointCache, x => x == entry);
      } else {
        uniqueEndpoints := uniqueEndpoints + {entry};
      }
      failingConnections := map x | x in failingConnections && x.peer != peer :: failingConnections[x];
      endpointCache := [entry] + endpointCache;
    }

    method Retain(drop: Endpoint -> bool)
      requires Valid()
      modifies this
      ensures Valid() && history == Forget(old(history), drop)
    {
      hide Without;
      history := Forget(history, drop);
      uniqueEndpoints := set e | e in uniqueEndpoints && !drop(e);
      endpointCache := Without(endpointCache, drop);
    }

    method OnConnectionClosed(peer: PeerId, remote: Multiaddr, numEstablished: nat, cause: Cause, dialer: bool)
      requires Valid()
      modifies this
      ensures Valid() && history == Next(old(history), ConnectionClosed(peer, remote, numEstablished, cause, dialer), config)
    {
      hide Forget, Enqueue;
      if numEstablished == 0 {
        Retain((e: Endpoint) => e.peer == peer);
      }
      if cause != NoError {
        Retain((e: Endpoint) => e.address == remote);
        if cause == IoError {
          if dialer {
            EnqueueRetry(Endpoint(peer, remote));
          }
        }
      }
    }

    method OnAddressError(peer: PeerId, address: Multiaddr, error: AddressError)
      requires Valid()
      modifies this
      ensures Valid() && history == FailAddress(old(history), Some(peer), address, error)
    {
      hide Forget, Enqueue;
      match error {
        case HoldAndRetry => EnqueueRetry(Endpoint(peer, address));
        case Unrecoverable =>
          Retain((e: Endpoint) => e.address == address);
          failingConnections := failingConnections - {Endpoint(peer, address)};
          history := history.(failing := failingConnections);
        case _ =>
      }
    }

    method OnOutgoingConnectionError(maybePeer: Option<PeerId>, error: DialError)
      requires Valid()
      modifies this
      ensures Valid() && history == Next(old(history), OutgoingConnectionError(maybePeer, error), config)
    {
      hide Forget, FailAddress;
      var clean := false;
      match error {
        case Transport(errors) =>
          var i := 0;
          while i < |errors|
            invariant 0 <= i <= |errors| && Valid()
            invariant history == FailAddresses(old(history), maybePeer, errors[..i])
            invariant clean <==> exists j :: 0 <= j < i && errors[j].1.NotSupported?
          {
            assert errors[..i + 1][..i] == errors[..i];
            var (address, kind) := errors[i];
            if kind.NotSupported? {
              clean := true;
            }
            if maybePeer.Some? {
              OnAddressError(maybePeer.value, address, kind);
            } else {
              NoPeer(history, address, kind);
            }
            i := i + 1;
          }
          assert errors[..i] == errors;
        case NoAddresses => clean := true;
        case Aborted =>
        case DialPeerConditionFalse =>
        case LocalPeerId => clean := true;
        case WrongPeerId => clean := true;
        case Denied => clean := true;
      }
      if clean {
        if maybePeer.Some? {
          Retain((e: Endpoint) => e.peer == maybePeer.value);
        }
      }
    }

    /** The retry thread takes a task off its channel and puts a callback to sleep. */
    method OnRetryThreadReceives()
      requires Valid()
      modifies this
      ensures Valid() && history == Next(old(history), RetryThreadReceives, config)
    {
      history := Next(history, RetryThreadReceives, config);
      if retryQueue != [] {
        var task := retryQueue[0];
        retryQueue := retryQueue[1..];
        var square := task.retryCount * task.retryCount;
        var seconds := (if square < 0x1_0000_0000_0000_0000 then square else 0) + 1;
        sleepers := sleepers + [Sleeper(task.target, seconds)];
      }
    }

    method OnSleeperWakes(i: nat)
      requires Valid()
      modifies this
      ensures Valid() && history == Next(old(history), SleeperWakes(i), config)
    {
      history := Next(history, SleeperWakes(i), config);
      if i < |sleepers| {
        callbacks := callbacks + [sleepers[i].target];
        sleepers := sleepers[..i] + sleepers[i + 1..];
      }
    }

    method OnRetryCallback(connectedPeers: nat, targetConnected: bool) returns (dial: Option<Endpoint>)
      requires Valid()
      modifies this
      ensures Valid() && history == Next(old(history), RetryCallback(connectedPeers, targetConnected), config)
      ensures dial.Some? <==> history.dials != old(history).dials
      ensures dial.Some? ==> old(callbacks != [] && callbacks[0] in failingConnections)
      ensures dial.Some? ==> dial.value == old(failingConnections[callbacks[0]].target)
      ensures old(callbacks != [] && callbacks[0] in failingConnections) ==>
                var task := old(failingConnections[callbacks[0]]);
                dial.Some? <==> && Reachable(old(currentListenAddresses), task.target.address, connectedPeers, config)
                                && task.retryCount <= 3 && !targetConnected
    {
      dial := None;
      history := Next(history, RetryCallback(connectedPeers, targetConnected), config);
      if callbacks == [] {
        return;
      }
      var failing := callbacks[0];
      callbacks := callbacks[1..];
      if failing in failingConnections {
        var task := failingConnections[failing];
        NetworkOkIsReachable(currentListenAddresses, task.target.address, connectedPeers, config);
        var nonLocal := |NonLocal(currentListenAddresses, config)|;
        var networkOk := false;
        if connectedPeers > 0 {
          networkOk := true;
        } else if nonLocal > 0 {
          var linkLocal := |LinkLocal(currentListenAddresses, config)|;
          if config.linkLocal(task.target.address) {
            networkOk := linkLocal > 0;
          } else {
            networkOk := linkLocal < nonLocal;
          }
        }
        if !networkOk {
          retryQueue := retryQueue + [task];
        } else if !(task.retryCount <= 3) || targetConnected {
          failingConnections := failingConnections - {failing};
        } else {
          failingConnections := failingConnections[failing := task.(retryCount := task.retryCount + 1)];
          dial := Some(task.target);
        }
      }
    }
  }

  lemma NoPeer(s: State, address: Multiaddr, error: AddressError)
    ensures FailAddress(s, None, address, error) == s
  {
  }

  // ---------------------------------------------------------------- the cache agrees with its index

  /** Stamped before `time`, newest first; hence without duplicates. */
  ghost predicate Ordered(cache: seq<Endpoint>, stamps: map<Endpoint, nat>, time: nat) {
    && (forall e :: e in cache ==> e in stamps && stamps[e] < time)
    && (forall i, j :: 0 <= i < j < |cache| ==> cache[i] in stamps && cache[j] in stamps && stamps[cache[i]] > stamps[cache[j]])
  }

  lemma {:induction false} WithoutOrdered(cache: seq<Endpoint>, drop: Endpoint -> bool, stamps: map<Endpoint, nat>, time: nat)
    requires Ordered(cache, stamps, time)
    ensures Ordered(Without(cache, drop), stamps, time)
  {
    if cache != [] {
      var n := |cache| - 1;
      assert forall e :: e in cache[..n] ==> e in cache;
      WithoutOrdered(cache[..n], drop, stamps, time);
      if !drop(cache[n]) {
        OlderLast(cache, Without(cache[..n], drop), stamps, time);
      }
    }
  }

  lemma OlderLast(cache: seq<Endpoint>, kept: seq<Endpoint>, stamps: map<Endpoint, nat>, time: nat)
    requires Ordered(cache, stamps, time) && Ordered(kept, stamps, time) && cache != []
    requires forall e :: e in kept ==> e in cache[..|cache| - 1]
    ensures Ordered(kept + [cache[|cache| - 1]], stamps, time)
  {
    var last := cache[|cache| - 1];
    assert last in cache;
    forall i | 0 <= i < |kept| ensures stamps[kept[i]] > stamps[last] {
      assert kept[i] in cache[..|cache| - 1];
    }
  }

  ghost predicate CacheAgrees(s: State) {
    && Ordered(s.cache, s.stamps, s.time)
    && forall e :: e in s.cache <==> e in s.unique
  }

  lemma ForgetAgrees(s: State, drop: Endpoint -> bool)
    requires CacheAgrees(s)
    ensures CacheAgrees(Forget(s, drop))
  {
    hide Ordered;
    WithoutOrdered(s.cache, drop, s.stamps, s.time);
  }

  lemma EstablishAgrees(s: State, peer: PeerId, remote: Multiaddr)
    requires CacheAgrees(s)
    ensures CacheAgrees(Establish(s, peer, remote))
  {
    var e := Endpoint(peer, NonP2p(remote));
    var rest := if e in s.unique then Without(s.cache, x => x == e) else s.cache;
    WithoutOrdered(s.cache, x => x == e, s.stamps, s.time);
    assert e !in rest;
    var s' := Establish(s, peer, remote);
    assert s'.cache == [e] + rest;
    forall i, j | 0 <= i < j < |s'.cache| ensures s'.stamps[s'.cache[i]] > s'.stamps[s'.cache[j]] {
      assert s'.cache[j] == rest[j - 1] && rest[j - 1] in rest;
      if i > 0 {
        assert s'.cache[i] == rest[i - 1] && rest[i - 1] in rest;
      }
    }
  }

  lemma {:induction false} FailAddressesAgree(s: State, peer: Option<PeerId>, errors: seq<(Multiaddr, AddressError)>)
    requires CacheAgrees(s)
    ensures CacheAgrees(FailAddresses(s, peer, errors))
  {
    hide Forget, Ordered;
    if errors != [] {
      var n := |errors| - 1;
      FailAddressesAgree(s, peer, errors[..n]);
      ForgetAgrees(FailAddresses(s, peer, errors[..n]), (e: Endpoint) => e.address == errors[n].0);
    }
  }

  /**
   Over every series of events the cache has no duplicates, holds exactly the endpoints of its
   index, and lists the most recently established first.
   */
  lemma {:induction false} CacheAgreesWithIndex(evs: seq<Event>, cfg: Config)
    ensures CacheAgrees(Run(evs, cfg))
    ensures var c := Run(evs, cfg).cache; forall i, j :: 0 <= i < j < |c| ==> c[i] != c[j]
  {
    if evs != [] {
      var n := |evs| - 1;
      CacheAgreesWithIndex(evs[..n], cfg);
      CacheStep(Run(evs[..n], cfg), evs[n], cfg);
    }
  }

  lemma CacheStep(s: State, ev: Event, cfg: Config)
    requires CacheAgrees(s)
    ensures CacheAgrees(Next(s, ev, cfg))
  {
    hide Forget, Ordered, Establish, FailAddresses;
    match ev
    case ConnectionEstablished(peer, remote) => EstablishAgrees(s, peer, remote);
    case ConnectionClosed(peer, remote, num, _, _) =>
      ForgetAgrees(s, (e: Endpoint) => e.peer == peer);
      var s1 := if num == 0 then ForgetPeer(s, peer) else s;
      ForgetAgrees(s1, (e: Endpoint) => e.address == remote);
    case OutgoingConnectionError(peer, error) =>
      var s1 := s;
      if error.Transport? {
        FailAddressesAgree(s, peer, error.errors);
        s1 := FailAddresses(s, peer, error.errors);
      }
      if peer.Some? {
        ForgetAgrees(s1, (e: Endpoint) => e.peer == peer.value);
      }
    case _ =>
  }

  // ---------------------------------------------------------------- what is forgotten, and nothing else

  /** A closed connection costs the cache the peer's endpoints if it was the last, the address's if it failed, and no others. */
  lemma ForgottenOnClose(s: State, ev: Event, e: Endpoint, cfg: Config)
    requires ev.ConnectionClosed?
    ensures e in Next(s, ev, cfg).cache
            <==> && e in s.cache
                 && !(ev.numEstablished == 0 && e.peer == ev.peer)
                 && !(ev.cause != NoError && e.address == ev.remote)
  {
    hide Without, Forget, Enqueue;
    ForgetMembers(s, (x: Endpoint) => x.peer == ev.peer, e);
    var s1 := if ev.numEstablished == 0 then ForgetPeer(s, ev.peer) else s;
    ForgetMembers(s1, (x: Endpoint) => x.address == ev.remote, e);
    EnqueueKeepsCache(ForgetAddress(s1, ev.remote), Endpoint(ev.peer, ev.remote));
  }

  lemma ForgetMembers(s: State, drop: Endpoint -> bool, e: Endpoint)
    ensures e in Forget(s, drop).cache <==> e in s.cache && !drop(e)
    ensures Forget(s, drop).failing == s.failing
  {
  }

  lemma EnqueueKeepsCache(s: State, target: Endpoint)
    ensures Enqueue(s, target).cache == s.cache
    ensures Enqueue(s, target).failing.Keys == s.failing.Keys + {target}
  {
  }

  /** It leaves every failing entry, and adds the endpoint itself when a dialled connection broke with an I/O error. */
  lemma RetriedOnClose(s: State, ev: Event, e: Endpoint, cfg: Config)
    requires ev.ConnectionClosed?
    ensures e in Next(s, ev, cfg).failing <==> e in s.failing || (ev.cause == IoError && ev.dialer && e == Endpoint(ev.peer, ev.remote))
  {
    hide Without, Forget, Enqueue;
    ForgetMembers(s, (x: Endpoint) => x.peer == ev.peer, e);
    var s1 := if ev.numEstablished == 0 then ForgetPeer(s, ev.peer) else s;
    ForgetMembers(s1, (x: Endpoint) => x.address == ev.remote, e);
    EnqueueKeepsCache(ForgetAddress(s1, ev.remote), Endpoint(ev.peer, ev.remote));
  }

  /** Some address of the peer failed for good. */
  predicate FailedForGood(peer: Option<PeerId>, errors: seq<(Multiaddr, AddressError)>, address: Multiaddr) {
    peer.Some? && exists i :: 0 <= i < |errors| && errors[i] == (address, Unrecoverable)
  }

  lemma {:induction false} ForgottenAddresses(s: State, peer: Option<PeerId>, errors: seq<(Multiaddr, AddressError)>, e: Endpoint)
    ensures e in FailAddresses(s, peer, errors).cache <==> e in s.cache && !FailedForGood(peer, errors, e.address)
  {
    hide Without;
    if errors != [] {
      var n := |errors| - 1;
      ForgottenAddresses(s, peer, errors[..n], e);
      assert FailedForGood(peer, errors, e.address)
        <==> FailedForGood(peer, errors[..n], e.address) || (peer.Some? && errors[n] == (e.address, Unrecoverable));
    }
  }

  /** The errors that speak against the peer, not against one address or the dial. */
  ghost predicate Condemning(error: DialError) {
    || error in {NoAddresses, LocalPeerId, WrongPeerId, Denied}
    || (error.Transport? && exists a, of :: (a, NotSupported(of)) in error.errors)
  }

  lemma CondemnedAreCleaned(error: DialError)
    ensures ShouldClean(error) <==> Condemning(error)
  {
    if error.Transport? {
      if a, of :| (a, NotSupported(of)) in error.errors {
        var i :| 0 <= i < |error.errors| && error.errors[i] == (a, NotSupported(of));
      }
      if i :| 0 <= i < |error.errors| && error.errors[i].1.NotSupported? {
        assert (error.errors[i].0, NotSupported(error.errors[i].1.of)) in error.errors;
      }
    }
  }

  /**
   A failed dial costs the cache the endpoints at addresses that failed for good, and the peer's
   own if the error condemns the peer; all others stay.
   */
  lemma ForgottenOnFailedDial(s: State, peer: Option<PeerId>, error: DialError, e: Endpoint, cfg: Config)
    ensures e in Next(s, OutgoingConnectionError(peer, error), cfg).cache
            <==> && e in s.cache
                 && !(error.Transport? && FailedForGood(peer, error.errors, e.address))
                 && !(Condemning(error) && peer == Some(e.peer))
  {
    hide Without, FailAddresses, FailedForGood, ShouldClean, Condemning;
    CondemnedAreCleaned(error);
    if error.Transport? {
      ForgottenAddresses(s, peer, error.errors, e);
    }
  }

  /** Whether an entry fails after a list of errors is settled by the last one that concerns it. */
  lemma {:induction false} LastErrorSettles(s: State, peer: PeerId, errors: seq<(Multiaddr, AddressError)>, address: Multiaddr)
    ensures Endpoint(peer, address) in FailAddresses(s, Some(peer), errors).failing
            <==> (var last := LastVerdict(errors, address);
                  if last == None then Endpoint(peer, address) in s.failing else last == Some(HoldAndRetry))
  {
    hide Without;
    if errors != [] {
      LastErrorSettles(s, peer, errors[..|errors| - 1], address);
    }
  }

  /** The last retryable or final error of an address. */
  function LastVerdict(errors: seq<(Multiaddr, AddressError)>, address: Multiaddr): Option<AddressError> {
    if errors == [] then None
    else
      var (a, error) := errors[|errors| - 1];
      if a == address && (error.HoldAndRetry? || error.Unrecoverable?) then Some(error)
      else LastVerdict(errors[..|errors| - 1], address)
  }

  // ---------------------------------------------------------------- retries are bounded and never lost

  /** A retry of this endpoint is on its way: queued, sleeping, or called back. */
  predicate Outstanding(s: State, e: Endpoint) {
    || (exists i :: 0 <= i < |s.retryQueue| && s.retryQueue[i].target == e)
    || (exists i :: 0 <= i < |s.sleepers| && s.sleepers[i].target == e)
    || e in s.callbacks
  }

  ghost predicate Bounded(s: State) {
    && (forall e :: e in s.failing ==>
          && s.failing[e].target == e && s.failing[e].retryCount <= 4
          && e in s.dials && s.dials[e] == s.failing[e].retryCount)
    && (forall i :: 0 <= i < |s.retryQueue| ==> s.retryQueue[i].retryCount <= 4)
    && (forall i :: 0 <= i < |s.sleepers| ==> 1 <= s.sleepers[i].seconds <= 17)
  }

  ghost predicate NoneLost(s: State) {
    forall e :: e in s.failing ==> e in s.dialled || Outstanding(s, e)
  }

  lemma EnqueueKeeps(s: State, target: Endpoint)
    requires Bounded(s) && NoneLost(s)
    ensures Bounded(Enqueue(s, target)) && NoneLost(Enqueue(s, target))
  {
    var s' := Enqueue(s, target);
    forall e | e in s'.failing ensures e in s'.dialled || Outstanding(s', e) {
      OutstandingGrows(s, s', e);
      if e == target {
        assert s'.retryQueue[|s.retryQueue|].target == target;
      }
    }
  }

  lemma OutstandingGrows(s: State, s': State, e: Endpoint)
    requires s.retryQueue <= s'.retryQueue && s.sleepers == s'.sleepers && s.callbacks == s'.callbacks
    ensures Outstanding(s, e) ==> Outstanding(s', e)
  {
    if i :| 0 <= i < |s.retryQueue| && s.retryQueue[i].target == e {
      assert s'.retryQueue[i].target == e;
    }
  }

  lemma {:induction false} FailAddressesKeep(s: State, peer: Option<PeerId>, errors: seq<(Multiaddr, AddressError)>)
    requires Bounded(s) && NoneLost(s)
    ensures Bounded(FailAddresses(s, peer, errors)) && NoneLost(FailAddresses(s, peer, errors))
  {
    hide Enqueue, Outstanding, Without;
    if errors != [] {
      var n := |errors| - 1;
      var s1 := FailAddresses(s, peer, errors[..n]);
      FailAddressesKeep(s, peer, errors[..n]);
      if peer.Some? {
        EnqueueKeeps(s1, Endpoint(peer.value, errors[n].0));
        SameRetries(s1, FailAddress(s1, peer, errors[n].0, errors[n].1));
      }
    }
  }

  lemma SameRetries(s: State, s': State)
    ensures s.retryQueue == s'.retryQueue && s.sleepers == s'.sleepers && s.callbacks == s'.callbacks ==>
              forall e :: Outstanding(s, e) ==> Outstanding(s', e)
  {
  }

  lemma ReceiveKeeps(s: State, cfg: Config)
    requires Bounded(s) && NoneLost(s) && s.retryQueue != []
    ensures Bounded(Next(s, RetryThreadReceives, cfg)) && NoneLost(Next(s, RetryThreadReceives, cfg))
  {
    var s' := Next(s, RetryThreadReceives, cfg);
    var task := s.retryQueue[0];
    DelayBound(task.retryCount);
    forall e | Outstanding(s, e) ensures Outstanding(s', e) {
      if i :| 0 <= i < |s.retryQueue| && s.retryQueue[i].target == e {
        if i == 0 {
          assert s'.sleepers[|s.sleepers|].target == e;
        } else {
          assert s'.retryQueue[i - 1].target == e;
        }
      } else if i :| 0 <= i < |s.sleepers| && s.sleepers[i].target == e {
        assert s'.sleepers[i].target == e;
      }
    }
  }

  lemma DelayBound(count: u64)
    ensures count <= 4 ==> Delay(count) == count * count + 1 <= 17
  {
    if count <= 4 {
      assert count in {0, 1, 2, 3, 4};
    }
  }

  lemma WakeKeeps(s: State, i: nat, cfg: Config)
    requires Bounded(s) && NoneLost(s) && i < |s.sleepers|
    ensures Bounded(Next(s, SleeperWakes(i), cfg)) && NoneLost(Next(s, SleeperWakes(i), cfg))
  {
    var s' := Next(s, SleeperWakes(i), cfg);
    forall e | Outstanding(s, e) ensures Outstanding(s', e) {
      if k :| 0 <= k < |s.retryQueue| && s.retryQueue[k].target == e {
        assert s'.retryQueue[k].target == e;
      } else if k :| 0 <= k < |s.sleepers| && s.sleepers[k].target == e {
        if k < i {
          assert s'.sleepers[k].target == e;
        } else if k > i {
          assert s'.sleepers[k - 1].target == e;
        } else {
          assert s'.callbacks[|s.callbacks|] == e;
        }
      }
    }
  }

  lemma CallbackKeeps(s: State, connectedPeers: nat, targetConnected: bool, cfg: Config)
    requires Bounded(s) && NoneLost(s) && s.callbacks != []
    ensures Bounded(Callback(s, connectedPeers, targetConnected, cfg)) && NoneLost(Callback(s, connectedPeers, targetConnected, cfg))
  {
    var s' := Callback(s, connectedPeers, targetConnected, cfg);
    var called := s.callbacks[0];
    forall e | e in s'.failing ensures e in s'.dialled || Outstanding(s', e) {
      if e == called {
        if !NetworkOk(s.listening, s.failing[called].target.address, connectedPeers, cfg) {
          assert s'.retryQueue[|s.retryQueue|].target == e;
        }
      } else if k :| 0 <= k < |s.retryQueue| && s.retryQueue[k].target == e {
        assert s'.retryQueue[k].target == e;
      } else if k :| 0 <= k < |s.sleepers| && s.sleepers[k].target == e {
        assert s'.sleepers[k].target == e;
      } else if e in s.callbacks {
        assert s.callbacks == [called] + s'.callbacks;
      }
    }
  }

  lemma RetryStep(s: State, ev: Event, cfg: Config)
    requires Bounded(s) && NoneLost(s)
    ensures Bounded(Next(s, ev, cfg)) && NoneLost(Next(s, ev, cfg))
  {
    hide Enqueue, Outstanding, Without, FailAddresses, Callback, Bounded, NoneLost;
    match ev
    case NewListenAddr(address) => SameBounds(s, Next(s, ev, cfg));
    case ListenAddrExpired(address) =>
      var s1 := s.(listening := s.listening - {address});
      SameBounds(s, s1);
      if cfg.boot.Some? { EnqueueKeeps(s1, cfg.boot.value); }
    case ConnectionEstablished(peer, remote) => EstablishKeeps(s, peer, remote);
    case ConnectionClosed(peer, remote, num, _, _) =>
      ForgetKeeps(s, (e: Endpoint) => e.peer == peer);
      var s1 := if num == 0 then ForgetPeer(s, peer) else s;
      ForgetKeeps(s1, (e: Endpoint) => e.address == remote);
      EnqueueKeeps(ForgetAddress(s1, remote), Endpoint(peer, remote));
    case OutgoingConnectionError(peer, error) =>
      var s1 := s;
      if error.Transport? {
        FailAddressesKeep(s, peer, error.errors);
        s1 := FailAddresses(s, peer, error.errors);
      }
      if peer.Some? { ForgetKeeps(s1, (e: Endpoint) => e.peer == peer.value); }
    case RetryThreadReceives => if s.retryQueue != [] { ReceiveKeeps(s, cfg); }
    case SleeperWakes(i) => if i < |s.sleepers| { WakeKeeps(s, i, cfg); }
    case RetryCallback(connectedPeers, targetConnected) =>
      if s.callbacks != [] { CallbackKeeps(s, connectedPeers, targetConnected, cfg); }
  }

  /** Losing a listen address while another non-local one is left puts the boot node back on its way, and otherwise changes no retry. */
  lemma BootNodeIsRetried(s: State, address: Multiaddr, cfg: Config)
    requires Bounded(s)
    ensures var s' := Next(s, ListenAddrExpired(address), cfg);
            && (forall a :: a in s'.listening <==> a in s.listening && a != address)
            && if cfg.boot.Some? && exists a :: a in s.listening && a != address && !cfg.local(a)
               then cfg.boot.value in s'.failing && Outstanding(s', cfg.boot.value)
               else s'.failing == s.failing && s'.retryQueue == s.retryQueue
  {
    var s' := Next(s, ListenAddrExpired(address), cfg);
    var left := NonLocal(s.listening - {address}, cfg);
    if a :| a in s.listening && a != address && !cfg.local(a) {
      assert a in left;
    }
    if |left| > 0 && cfg.boot.Some? {
      var a :| a in left;
      assert s'.retryQueue[|s.retryQueue|].target == cfg.boot.value;
    }
  }

  lemma SameBounds(s: State, s': State)
    requires Bounded(s) && NoneLost(s) && s' == s.(listening := s'.listening)
    ensures Bounded(s') && NoneLost(s')
  {
    hide Outstanding;
    SameRetries(s, s');
  }

  lemma ForgetKeeps(s: State, drop: Endpoint -> bool)
    requires Bounded(s) && NoneLost(s)
    ensures Bounded(Forget(s, drop)) && NoneLost(Forget(s, drop))
  {
    hide Without, Outstanding;
    SameRetries(s, Forget(s, drop));
  }

  lemma EstablishKeeps(s: State, peer: PeerId, remote: Multiaddr)
    requires Bounded(s) && NoneLost(s)
    ensures Bounded(Establish(s, peer, remote)) && NoneLost(Establish(s, peer, remote))
  {
    hide Without, Outstanding;
    SameRetries(s, Establish(s, peer, remote));
  }

  /**
   In every reachable state: an entry's key is its task's target; its count is at most 4 and is
   the number of times the retry branch dialled it since it was inserted; no callback sleeps
   longer than 17 seconds; and an entry not dialled since its last enqueue still has a retry on
   its way.
   */
  lemma {:induction false} RetriesAreBoundedAndNotLost(evs: seq<Event>, cfg: Config)
    ensures Bounded(Run(evs, cfg)) && NoneLost(Run(evs, cfg))
  {
    hide Next;
    if evs != [] {
      var n := |evs| - 1;
      RetriesAreBoundedAndNotLost(evs[..n], cfg);
      RetryStep(Run(evs[..n], cfg), evs[n], cfg);
    }
  }
}
