/** What each connection event does to the cache, the failing entries and their retries, and what that makes of whole runs. */
module ConnectionRuns {
  import opened Bytes
  import opened Addresses
  import opened Connections

  // ---------------------------------------------------------------- one event

  lemma {:induction false} NonP2pIsPrefix(addr: Multiaddr)
    ensures NonP2p(addr) == addr[..Min(2, |addr|)]
    decreases |addr|
  {
    if |addr| > 2 {
      NonP2pIsPrefix(addr[..|addr| - 1]);
    }
  }

  /**
   An established connection puts the endpoint, under the first two components of its address, at
   the head of the cache, keeps all others, and clears every failing entry of the peer and no other.
   */
  lemma EstablishedIsFirst(s: State, peer: PeerId, remote: Multiaddr, cfg: Config)
    requires CacheAgrees(s)
    ensures var (s', e) := (Next(s, ConnectionEstablished(peer, remote), cfg), Endpoint(peer, remote[..Min(2, |remote|)]));
            && s'.cache != [] && s'.cache[0] == e && e !in s'.cache[1..]
            && (forall x :: x in s'.cache[1..] <==> x in s.cache && x != e)
            && (forall x :: x in s'.failing <==> x in s.failing && x.peer != peer)
            && (forall x :: x in s'.failing ==> s'.failing[x] == s.failing[x])
            && s'.retryQueue == s.retryQueue && s'.sleepers == s.sleepers && s'.callbacks == s.callbacks
  {
    hide NonP2p, Without;
    NonP2pIsPrefix(remote);
    var s', e := Next(s, ConnectionEstablished(peer, remote), cfg), Endpoint(peer, NonP2p(remote));
    var rest := if e in s.unique then Without(s.cache, x => x == e) else s.cache;
    assert s'.cache == [e] + rest && s'.cache[1..] == rest;
  }

  /** A close queues exactly one retry, of the closed endpoint with the count it has, when a dialled connection broke with an I/O error. */
  lemma QueuedOnClose(s: State, ev: Event, cfg: Config)
    requires ev.ConnectionClosed?
    ensures var (s', e) := (Next(s, ev, cfg), Endpoint(ev.peer, ev.remote));
            if ev.cause == IoError && ev.dialer
            then && e in s'.failing && s'.retryQueue == s.retryQueue + [s'.failing[e]]
                 && s'.failing[e] == (if e in s.failing then s.failing[e] else RetryTask(e, 0))
                 && forall x :: x in s.failing && x != e ==> x in s'.failing && s'.failing[x] == s.failing[x]
            else s'.retryQueue == s.retryQueue && s'.failing == s.failing
  {
    hide Without;
  }

  /** The targets of the errors that are worth a retry, in order. */
  function Held(peer: Option<PeerId>, errors: seq<(Multiaddr, AddressError)>): seq<Endpoint> {
    if errors == [] || peer == None then []
    else
      var (address, error) := errors[|errors| - 1];
      Held(peer, errors[..|errors| - 1]) + (if error.HoldAndRetry? then [Endpoint(peer.value, address)] else [])
  }

  function Targets(tasks: seq<RetryTask>): (ts: seq<Endpoint>)
    ensures |ts| == |tasks| && forall i :: 0 <= i < |ts| ==> ts[i] == tasks[i].target
  {
    seq(|tasks|, i requires 0 <= i < |tasks| => tasks[i].target)
  }

  /** A failed dial queues one retry for each error worth one, in their order, and nothing else. */
  lemma {:induction false} QueuedOnErrors(s: State, peer: Option<PeerId>, errors: seq<(Multiaddr, AddressError)>)
    requires Bounded(s) && NoneLost(s)
    ensures Targets(FailAddresses(s, peer, errors).retryQueue) == Targets(s.retryQueue) + Held(peer, errors)
    ensures s.retryQueue <= FailAddresses(s, peer, errors).retryQueue
  {
    hide Without, Enqueue;
    if errors != [] {
      var n := |errors| - 1;
      var s1 := FailAddresses(s, peer, errors[..n]);
      QueuedOnErrors(s, peer, errors[..n]);
      FailAddressesKeep(s, peer, errors[..n]);
      if peer.Some? {
        OneQueued(s1, Endpoint(peer.value, errors[n].0));
      }
    }
    assert Targets(s.retryQueue) + [] == Targets(s.retryQueue);
  }

  lemma OneQueued(s: State, target: Endpoint)
    requires Bounded(s)
    ensures var s' := Enqueue(s, target);
            s.retryQueue <= s'.retryQueue && Targets(s'.retryQueue) == Targets(s.retryQueue) + [target]
  {
  }

  /** The retry thread takes the oldest task and lets its endpoint sleep the square of its count plus one. */
  lemma ThreadTakesOldest(s: State, cfg: Config)
    requires Bounded(s) && s.retryQueue != []
    ensures var s' := Next(s, RetryThreadReceives, cfg);
            var task := s.retryQueue[0];
            && s.retryQueue == [task] + s'.retryQueue
            && s'.sleepers == s.sleepers + [Sleeper(task.target, task.retryCount * task.retryCount + 1)]
            && s'.failing == s.failing && s'.callbacks == s.callbacks && s'.cache == s.cache
  {
    DelayBound(s.retryQueue[0].retryCount);
  }

  /** A sleeper that wakes is called back after those that woke before it, and no other is. */
  lemma WakingCallsBack(s: State, i: nat, cfg: Config)
    requires i < |s.sleepers|
    ensures var s' := Next(s, SleeperWakes(i), cfg);
            && s'.callbacks == s.callbacks + [s.sleepers[i].target]
            && s.sleepers == s'.sleepers[..i] + [s.sleepers[i]] + s'.sleepers[i..]
            && s'.failing == s.failing && s'.retryQueue == s.retryQueue && s'.cache == s.cache
  {
  }

  /**
   What a callback makes of its entry: dialled, with its count up by one, if and only if its address
   is reachable, it was dialled at most three times, and its peer is not connected; given up if and
   only if reachable and dialled more often or connected; otherwise queued again as it is. Other
   entries are left alone.
   */
  lemma CallbackDecides(s: State, connectedPeers: nat, targetConnected: bool, cfg: Config)
    requires Bounded(s) && s.callbacks != [] && s.callbacks[0] in s.failing
    ensures var (s', e) := (Next(s, RetryCallback(connectedPeers, targetConnected), cfg), s.callbacks[0]);
            var (count, reachable) := (s.failing[e].retryCount, Reachable(s.listening, e.address, connectedPeers, cfg));
            && s.callbacks == [e] + s'.callbacks && s'.sleepers == s.sleepers && s'.cache == s.cache
            && (forall x :: x != e ==> (x in s'.failing <==> x in s.failing))
            && (forall x :: x != e && x in s.failing ==> s'.failing[x] == s.failing[x])
            && (e in s'.dialled && e in s'.failing && s'.failing[e] == RetryTask(e, count + 1)
                <==> reachable && count <= 3 && !targetConnected)
            && (e !in s'.failing <==> reachable && (count > 3 || targetConnected))
            && s'.retryQueue == s.retryQueue + (if reachable then [] else [s.failing[e]])
            && (!reachable ==> s'.failing == s.failing)
  {
    hide NetworkOk;
    var e := s.callbacks[0];
    NetworkOkIsReachable(s.listening, e.address, connectedPeers, cfg);
    assert s.retryQueue + [] == s.retryQueue;
  }

  // ---------------------------------------------------------------- whole runs

  /** The last thing that was said of a listen address. */
  predicate Listening(evs: seq<Event>, a: Multiaddr) {
    if evs == [] then false
    else
      var ev := evs[|evs| - 1];
      if ev == NewListenAddr(a) then true
      else if ev == ListenAddrExpired(a) then false
      else Listening(evs[..|evs| - 1], a)
  }

  lemma ListeningChanges(s: State, ev: Event, a: Multiaddr, cfg: Config)
    ensures a in Next(s, ev, cfg).listening
            <==> ev == NewListenAddr(a) || (ev != ListenAddrExpired(a) && a in s.listening)
  {
    hide Without, FailAddresses;
    if ev.OutgoingConnectionError? && ev.error.Transport? {
      ListeningStays(s, ev.maybePeer, ev.error.errors);
    }
  }

  lemma {:induction false} ListeningStays(s: State, peer: Option<PeerId>, errors: seq<(Multiaddr, AddressError)>)
    ensures FailAddresses(s, peer, errors).listening == s.listening
  {
    hide Without;
    if errors != [] {
      ListeningStays(s, peer, errors[..|errors| - 1]);
    }
  }

  /** Over every run the task listens on exactly the addresses it was last told of as new. */
  lemma {:induction false} ListeningIsCurrent(evs: seq<Event>, a: Multiaddr, cfg: Config)
    ensures a in Run(evs, cfg).listening <==> Listening(evs, a)
  {
    hide Next;
    if evs != [] {
      var n := |evs| - 1;
      ListeningIsCurrent(evs[..n], a, cfg);
      ListeningChanges(Run(evs[..n], cfg), evs[n], a, cfg);
    }
  }

  /** This event calls the entry back. */
  predicate CallsBack(s: State, ev: Event, e: Endpoint) {
    ev.RetryCallback? && s.callbacks != [] && s.callbacks[0] == e
  }

  /** This event takes the entry out for good, even if it puts it back in afterwards. */
  predicate GivesUp(ev: Event, e: Endpoint) {
    && ev.OutgoingConnectionError? && ev.error.Transport? && ev.maybePeer == Some(e.peer)
    && exists i :: 0 <= i < |ev.error.errors| && ev.error.errors[i] == (e.address, Unrecoverable)
  }

  /** How often the entry was called back since it was last put in. */
  function CallbacksSince(evs: seq<Event>, e: Endpoint, cfg: Config): nat {
    if evs == [] then 0
    else
      var n := |evs| - 1;
      var s := Run(evs[..n], cfg);
      if e !in s.failing || e !in Run(evs, cfg).failing || GivesUp(evs[n], e) then 0
      else CallbacksSince(evs[..n], e, cfg) + (if CallsBack(s, evs[n], e) then 1 else 0)
  }

  /** Every callback of the entry finds some peer connected, and its own not. */
  ghost predicate WellConnected(evs: seq<Event>, e: Endpoint, cfg: Config) {
    forall k :: 0 <= k < |evs| && CallsBack(Run(evs[..k], cfg), evs[k], e) ==>
      evs[k].connectedPeers > 0 && !evs[k].targetConnected
  }

  /** Only a callback changes a count; a new entry starts at zero. */
  lemma CountChanges(s: State, ev: Event, e: Endpoint, cfg: Config)
    requires e in Next(s, ev, cfg).failing && !CallsBack(s, ev, e)
    ensures Next(s, ev, cfg).failing[e].retryCount
            == if e in s.failing && !GivesUp(ev, e) then s.failing[e].retryCount else 0
  {
    hide Without, NetworkOk, FailDial, Forget, NonP2p, Delay, NonLocal;
    if ev.OutgoingConnectionError? {
      CountAfterDial(s, ev, e);
    } else if ev.ConnectionClosed? {
      ForgetMembers(s, (x: Endpoint) => x.peer == ev.peer, e);
      var s1 := if ev.numEstablished == 0 then ForgetPeer(s, ev.peer) else s;
      ForgetMembers(s1, (x: Endpoint) => x.address == ev.remote, e);
    }
  }

  lemma CountAfterDial(s: State, ev: Event, e: Endpoint)
    requires ev.OutgoingConnectionError? && e in FailDial(s, ev.maybePeer, ev.error).failing
    ensures FailDial(s, ev.maybePeer, ev.error).failing[e].retryCount
            == if e in s.failing && !GivesUp(ev, e) then s.failing[e].retryCount else 0
  {
    hide Without, FailAddresses, ShouldClean, Forget;
    if ev.maybePeer.Some? {
      ForgetMembers(s, (x: Endpoint) => x.peer == ev.maybePeer.value, e);
    }
    if ev.error.Transport? {
      var s1 := FailAddresses(s, ev.maybePeer, ev.error.errors);
      if ev.maybePeer.Some? {
        ForgetMembers(s1, (x: Endpoint) => x.peer == ev.maybePeer.value, e);
      }
      CountAfterErrors(s, ev.maybePeer, ev.error.errors, e);
    }
  }

  lemma {:induction false} CountAfterErrors(s: State, peer: Option<PeerId>, errors: seq<(Multiaddr, AddressError)>, e: Endpoint)
    requires e in FailAddresses(s, peer, errors).failing
    ensures FailAddresses(s, peer, errors).failing[e].retryCount
            == if e in s.failing && !(peer == Some(e.peer) && exists i :: 0 <= i < |errors| && errors[i] == (e.address, Unrecoverable))
               then s.failing[e].retryCount else 0
  {
    hide Without;
    if errors != [] {
      var n := |errors| - 1;
      var before := FailAddresses(s, peer, errors[..n]);
      assert (exists i :: 0 <= i < |errors| && errors[i] == (e.address, Unrecoverable))
        <==> (exists i :: 0 <= i < n && errors[..n][i] == (e.address, Unrecoverable)) || errors[n] == (e.address, Unrecoverable);
      if e in before.failing {
        CountAfterErrors(s, peer, errors[..n], e);
      } else if e in s.failing {
        LostByUnrecoverable(s, peer, errors[..n], e);
      }
    }
  }

  lemma {:induction false} LostByUnrecoverable(s: State, peer: Option<PeerId>, errors: seq<(Multiaddr, AddressError)>, e: Endpoint)
    requires e in s.failing && e !in FailAddresses(s, peer, errors).failing
    ensures peer == Some(e.peer) && exists i :: 0 <= i < |errors| && errors[i] == (e.address, Unrecoverable)
  {
    hide Without;
    var n := |errors| - 1;
    if e !in FailAddresses(s, peer, errors[..n]).failing {
      LostByUnrecoverable(s, peer, errors[..n], e);
      var i :| 0 <= i < n && errors[..n][i] == (e.address, Unrecoverable);
      assert errors[i] == (e.address, Unrecoverable);
    } else {
      assert errors[n] == (e.address, Unrecoverable);
    }
  }

  lemma WellConnectedPrefix(evs: seq<Event>, e: Endpoint, cfg: Config)
    requires evs != [] && WellConnected(evs, e, cfg)
    ensures WellConnected(evs[..|evs| - 1], e, cfg)
  {
    hide Run;
    var n := |evs| - 1;
    assert forall k :: 0 <= k < n ==> evs[..n][..k] == evs[..k] && evs[..n][k] == evs[k];
  }

  /** An entry whose callbacks all find a connected peer, but not its own, was dialled at each of them. */
  lemma {:induction false} EveryCallbackDials(evs: seq<Event>, e: Endpoint, cfg: Config)
    requires WellConnected(evs, e, cfg) && e in Run(evs, cfg).failing
    ensures Run(evs, cfg).failing[e].retryCount == CallbacksSince(evs, e, cfg)
  {
    hide Next, GivesUp, Bounded, NoneLost;
    if evs != [] {
      var n := |evs| - 1;
      var s := Run(evs[..n], cfg);
      WellConnectedPrefix(evs, e, cfg);
      if e in s.failing {
        EveryCallbackDials(evs[..n], e, cfg);
      }
      if CallsBack(s, evs[n], e) {
        assert evs[..n] + [evs[n]] == evs;
        CallbackStep(evs[..n], evs[n], e, cfg);
      } else {
        CountChanges(s, evs[n], e, cfg);
      }
    }
  }

  lemma CallbackStep(evs: seq<Event>, ev: Event, e: Endpoint, cfg: Config)
    requires CallsBack(Run(evs, cfg), ev, e) && ev.connectedPeers > 0 && !ev.targetConnected
    ensures var (s, s') := (Run(evs, cfg), Next(Run(evs, cfg), ev, cfg));
            && !GivesUp(ev, e) && (e in s'.failing ==> e in s.failing)
            && (e in s.failing ==>
                  var count := s.failing[e].retryCount;
                  && (e in s'.failing <==> count <= 3)
                  && (count <= 3 ==> s'.failing[e].retryCount == count + 1 && e in s'.dialled))
  {
    hide Run, Reachable, NetworkOk, NoneLost;
    RetriesAreBoundedAndNotLost(evs, cfg);
    var s := Run(evs, cfg);
    if e in s.failing {
      CallbackDecides(s, ev.connectedPeers, ev.targetConnected, cfg);
      ConnectedIsReachable(s.listening, e.address, ev.connectedPeers, cfg);
    }
  }

  lemma ConnectedIsReachable(listening: set<Multiaddr>, address: Multiaddr, connectedPeers: nat, cfg: Config)
    requires connectedPeers > 0
    ensures Reachable(listening, address, connectedPeers, cfg)
  {
  }

  /**
   Such an entry is dialled at its first four callbacks and given up at the fifth: at the next
   callback it is dialled if there were fewer than four since it was put in, and removed if there
   were four.
   */
  lemma FourDialsThenRemoved(evs: seq<Event>, ev: Event, e: Endpoint, cfg: Config)
    requires WellConnected(evs + [ev], e, cfg) && e in Run(evs, cfg).failing && CallsBack(Run(evs, cfg), ev, e)
    ensures var s' := Run(evs + [ev], cfg);
            && CallbacksSince(evs, e, cfg) <= 4
            && (e in s'.failing <==> CallbacksSince(evs, e, cfg) < 4)
            && (e in s'.failing ==>
                  e in s'.dialled && s'.failing[e].retryCount == CallbacksSince(evs, e, cfg) + 1 == CallbacksSince(evs + [ev], e, cfg))
  {
    hide Next, GivesUp, NoneLost;
    var all := evs + [ev];
    assert all[..|evs|] == evs && all[|evs|] == ev;
    WellConnectedPrefix(all, e, cfg);
    EveryCallbackDials(evs, e, cfg);
    RetriesAreBoundedAndNotLost(evs, cfg);
    CallbackStep(evs, ev, e, cfg);
  }
}
