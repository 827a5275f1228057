/** One network interface's mDNS task: two queues, the probe state, and its polling loop. Durations are nanoseconds. */
module Interface {
  import opened Bytes
  import opened Discovery

  type Packet = seq<byte>
  type Duration = nat

  const INITIAL_TIMEOUT_INTERVAL: Duration := 500_000_000

  datatype ProbeState = Probing(interval: Duration) | Finished(interval: Duration)

  /** The outcomes of the calls one iteration of the loop makes, if it gets to make them. */
  datatype Write = Sent | Failed | Blocked
  datatype TrySend = Accepted | Disconnected | Full
  datatype Read =
    | QueryRead(answers: seq<Packet>)
    | ResponseRead(found: seq<Entry>)
    | ServiceRead(answer: Packet)
    | Skipped            // malformed, unrelated, or would block
    | ReadFailed
    | NotReady

  datatype Env = Env(tick: bool, query: Packet, write: Write, senderReady: bool, send: TrySend, read: Read)

  datatype Control = Continue | Pending | Done

  /**
   The task's state with its history: what each queue was ever given, what was taken from it, the
   item in hand when the receiver was found gone, and the probing intervals there have been.
   */
  datatype Task = Task(
    sendBuffer: seq<Packet>, discovered: seq<Entry>, probe: ProbeState, timeout: Duration,
    enqueued: seq<Packet>, taken: seq<Packet>, found: seq<Entry>, handed: seq<Entry>, lost: seq<Entry>, probed: seq<Duration>)

  const START: Task :=
    Task([], [], Probing(INITIAL_TIMEOUT_INTERVAL), INITIAL_TIMEOUT_INTERVAL, [], [], [], [], [], [INITIAL_TIMEOUT_INTERVAL])

  // ---------------------------------------------------------------- one iteration

  function Enqueue(s: Task, ps: seq<Packet>): Task {
    s.(sendBuffer := s.sendBuffer + ps, enqueued := s.enqueued + ps)
  }

  function SetProbe(s: Task, p: ProbeState): Task {
    s.(probe := p, timeout := p.interval, probed := s.probed + (if p.Probing? && p != s.probe then [p.interval] else []))
  }

  function Tick(s: Task, query: Packet, queryInterval: Duration): Task {
    var s1 := Enqueue(s, [query]);
    if s1.probe.Probing? then
      var interval := s1.probe.interval * 2;
      SetProbe(s1, if interval >= queryInterval then Finished(queryInterval) else Probing(interval))
    else SetProbe(s1, s1.probe)
  }

  /** Reading a datagram, the last thing an iteration does. */
  function TakeRead(s: Task, read: Read, queryInterval: Duration): (Task, Control) {
    match read
    case QueryRead(answers) => (Enqueue(s, answers), Continue)
    case ResponseRead(found) =>
      var s1 := s.(discovered := s.discovered + found, found := s.found + found);
      (if s1.discovered != [] then SetProbe(s1, Finished(queryInterval)) else s1, Continue)
    case ServiceRead(answer) => (Enqueue(s, [answer]), Continue)
    case Skipped => (s, Continue)
    case ReadFailed => (s, Done)
    case NotReady => (s, Pending)
  }

  function HandOver(s: Task, env: Env, queryInterval: Duration): (Task, Control) {
    if env.senderReady && s.discovered != [] then
      match env.send
      case Accepted => (s.(discovered := s.discovered[1..], handed := s.handed + [s.discovered[0]]), Continue)
      case Disconnected => (s.(discovered := s.discovered[1..], lost := [s.discovered[0]]), Done)
      case Full => (s, Continue)
    else TakeRead(s, env.read, queryInterval)
  }

  function Iterate(s: Task, env: Env, queryInterval: Duration): (Task, Control) {
    var s1 := if env.tick then Tick(s, env.query, queryInterval) else s;
    if s1.sendBuffer != [] && env.write != Blocked then
      (s1.(sendBuffer := s1.sendBuffer[1..], taken := s1.taken + [s1.sendBuffer[0]]), Continue)
    else HandOver(s1, env, queryInterval)
  }

  /** The state after these iterations, stopping for good at the first that is done. */
  function RunFrom(s0: Task, envs: seq<Env>, queryInterval: Duration): (Task, bool) {
    if envs == [] then (s0, false)
    else
      var (s, done) := RunFrom(s0, envs[..|envs| - 1], queryInterval);
      if done then (s, true)
      else
        var (s', c) := Iterate(s, envs[|envs| - 1], queryInterval);
        (s', c.Done?)
  }

  /** What iteration `k` of such a series decided. */
  function Decision(s0: Task, envs: seq<Env>, k: nat, queryInterval: Duration): Control
    requires k < |envs|
  {
    Iterate(RunFrom(s0, envs[..k], queryInterval).0, envs[k], queryInterval).1
  }

  function Run(envs: seq<Env>, queryInterval: Duration): (Task, bool) {
    RunFrom(START, envs, queryInterval)
  }

  // ---------------------------------------------------------------- the source's form

  class InterfaceState {
    const queryInterval: Duration
    var sendBuffer: seq<Packet>
    var discovered: seq<Entry>
    var probeState: ProbeState
    var timeout: Duration
    ghost var history: Task

    ghost predicate Valid()
      reads this
    {
      && history.sendBuffer == sendBuffer && history.discovered == discovered
      && history.probe == probeState && history.timeout == timeout
    }

    constructor (queryInterval: Duration)
      ensures Valid() && history == START && this.queryInterval == queryInterval
    {
      this.queryInterval := queryInterval;
      sendBuffer, discovered := [], [];
      probeState, timeout := Probing(INITIAL_TIMEOUT_INTERVAL), INITIAL_TIMEOUT_INTERVAL;
      history := START;
    }

    method ResetTimer()
      modifies this`timeout
      ensures timeout == probeState.interval
    {
      timeout := probeState.interval;
    }

    /** The first priority: a tick queues a query and backs the probe off. */
    method OnTick(query: Packet)
      requires Valid()
      modifies this
      ensures Valid() && history == Tick(old(history), query, queryInterval)
    {
      history := Tick(history, query, queryInterval);
      sendBuffer := sendBuffer + [query];
      if probeState.Probing? {
        var interval := probeState.interval * 2;
        probeState := if interval >= queryInterval then Finished(queryInterval) else Probing(interval);
      }
      ResetTimer();
    }

    /** The last priority: a datagram. */
    method OnRead(read: Read) returns (c: Control)
      requires Valid()
      modifies this
      ensures Valid() && (history, c) == TakeRead(old(history), read, queryInterval)
    {
      history := TakeRead(history, read, queryInterval).0;
      match read {
        case QueryRead(answers) => sendBuffer := sendBuffer + answers;
        case ResponseRead(found) =>
          discovered := discovered + found;
          if discovered != [] {
            probeState := Finished(queryInterval);
            ResetTimer();
          }
        case ServiceRead(answer) => sendBuffer := sendBuffer + [answer];
        case Skipped =>
        case ReadFailed => return Done;
        case NotReady => return Pending;
      }
      return Continue;
    }

    /** One iteration of the loop in `poll`, in the source's order of priorities. */
    method Step(env: Env) returns (c: Control)
      requires Valid()
      modifies this
      ensures Valid() && (history, c) == Iterate(old(history), env, queryInterval)
    {
      hide Tick, TakeRead;
      if env.tick {
        OnTick(env.query);
      }
      if sendBuffer != [] {
        var packet := sendBuffer[0];
        sendBuffer := sendBuffer[1..];
        if env.write != Blocked {
          history := history.(sendBuffer := sendBuffer, taken := history.taken + [packet]);
          return Continue;
        }
        sendBuffer := [packet] + sendBuffer;
      }
      if env.senderReady && discovered != [] {
        var item := discovered[0];
        discovered := discovered[1..];
        match env.send {
          case Accepted =>
            history := history.(discovered := discovered, handed := history.handed + [item]);
          case Disconnected =>
            history := history.(discovered := discovered, lost := [item]);
            return Done;
          case Full =>
            discovered := [item] + discovered;
        }
        return Continue;
      }
      c := OnRead(env.read);
    }

    /**
     `poll`: iterate until the first iteration that is done or must wait; `envs` says how the calls
     it makes turn out.
     */
    method Poll(envs: seq<Env>) returns (used: nat, c: Control)
      requires Valid()
      modifies this
      ensures Valid() && used <= |envs| && (c == Continue ==> used == |envs|)
      ensures (history, c == Done) == RunFrom(old(history), envs[..used], queryInterval)
      ensures forall k :: 0 <= k < used ==>
                Decision(old(history), envs, k, queryInterval) == if k == used - 1 then c else Continue
      ensures envs != [] ==> used > 0
    {
      hide Iterate;
      used, c := 0, Continue;
      while used < |envs| && c == Continue
        invariant Valid() && 0 <= used <= |envs| && (used == 0 ==> c == Continue)
        invariant (history, c == Done) == RunFrom(old(history), envs[..used], queryInterval)
        invariant forall k :: 0 <= k < used ==>
                    Decision(old(history), envs, k, queryInterval) == if k == used - 1 then c else Continue
        decreases |envs| - used
      {
        assert envs[..used + 1][..used] == envs[..used];
        c := Step(envs[used]);
        used := used + 1;
      }
    }
  }

  // ---------------------------------------------------------------- what every run keeps

  /** Whatever was put in a queue is what was taken from it, then what is still in it, in order. */
  predicate Lossless(s: Task) {
    && s.taken + s.sendBuffer == s.enqueued
    && s.handed + s.lost + s.discovered == s.found && |s.lost| <= 1
  }

  lemma TickLossless(s: Task, query: Packet, queryInterval: Duration)
    requires Lossless(s)
    ensures Lossless(Tick(s, query, queryInterval))
  {
  }

  lemma HandOverLossless(s: Task, env: Env, queryInterval: Duration)
    requires Lossless(s) && s.lost == []
    ensures var (s', c) := HandOver(s, env, queryInterval); Lossless(s') && (!c.Done? ==> s'.lost == [])
  {
    hide TakeRead;
    if env.senderReady && s.discovered != [] {
      var item, others := s.discovered[0], s.discovered[1..];
      assert s.handed + s.lost + s.discovered == (s.handed + [item]) + s.lost + others;
      assert s.handed + s.lost + s.discovered == s.handed + [item] + others;
    } else {
      TakeReadLossless(s, env.read, queryInterval);
    }
  }

  lemma TakeReadLossless(s: Task, read: Read, queryInterval: Duration)
    requires Lossless(s)
    ensures var s' := TakeRead(s, read, queryInterval).0; Lossless(s') && s'.lost == s.lost
  {
    hide SetProbe;
    KeepsQueues(s, Finished(queryInterval));
    if read.ResponseRead? {
      assert s.handed + s.lost + (s.discovered + read.found) == s.handed + s.lost + s.discovered + read.found;
      KeepsQueues(s.(discovered := s.discovered + read.found, found := s.found + read.found), Finished(queryInterval));
    }
  }

  lemma KeepsQueues(s: Task, p: ProbeState)
    ensures var s' := SetProbe(s, p);
            && s'.sendBuffer == s.sendBuffer && s'.enqueued == s.enqueued && s'.taken == s.taken
            && s'.discovered == s.discovered && s'.found == s.found && s'.handed == s.handed && s'.lost == s.lost
  {
  }

  lemma IterateLossless(s: Task, env: Env, queryInterval: Duration)
    requires Lossless(s) && s.lost == []
    ensures var (s', c) := Iterate(s, env, queryInterval); Lossless(s') && (!c.Done? ==> s'.lost == [])
  {
    hide Tick, HandOver;
    if env.tick {
      TickLossless(s, env.query, queryInterval);
      TickKeepsLost(s, env.query, queryInterval);
    }
    var s1 := if env.tick then Tick(s, env.query, queryInterval) else s;
    if s1.sendBuffer != [] && env.write != Blocked {
      assert s1.sendBuffer == [s1.sendBuffer[0]] + s1.sendBuffer[1..];
    } else {
      HandOverLossless(s1, env, queryInterval);
    }
  }

  lemma TickKeepsLost(s: Task, query: Packet, queryInterval: Duration)
    ensures Tick(s, query, queryInterval).lost == s.lost
  {
  }

  // ---------------------------------------------------------------- what ticks and datagrams ask for

  /** What waits to be sent once the tick's query is there. */
  function Waiting(s: Task, env: Env): seq<Packet> {
    s.sendBuffer + (if env.tick then [env.query] else [])
  }

  predicate Writes(s: Task, env: Env) {
    Waiting(s, env) != [] && env.write != Blocked
  }

  predicate Offers(s: Task, env: Env) {
    !Writes(s, env) && env.senderReady && s.discovered != []
  }

  /** It gets to the socket only if it neither wrote nor offered an address. */
  predicate Reads(s: Task, env: Env) {
    !Writes(s, env) && !Offers(s, env)
  }

  function Answers(read: Read): seq<Packet> {
    if read.QueryRead? then read.answers else if read.ServiceRead? then [read.answer] else []
  }

  function Addresses(read: Read): seq<Entry> {
    if read.ResponseRead? then read.found else []
  }

  /** What one iteration puts into the queues and takes out of them, and how it ends. */
  lemma IterationMoves(s: Task, env: Env, queryInterval: Duration)
    ensures var (s', c) := Iterate(s, env, queryInterval);
            && s'.enqueued == s.enqueued + (if env.tick then [env.query] else []) + (if Reads(s, env) then Answers(env.read) else [])
            && s'.taken == s.taken + (if Writes(s, env) then [Waiting(s, env)[0]] else [])
            && s'.found == s.found + (if Reads(s, env) then Addresses(env.read) else [])
            && s'.handed == s.handed + (if Offers(s, env) && env.send == Accepted then [s.discovered[0]] else [])
            && s'.lost == (if Offers(s, env) && env.send == Disconnected then [s.discovered[0]] else s.lost)
            && c == if Writes(s, env) then Continue
                    else if Offers(s, env) then (if env.send == Disconnected then Done else Continue)
                    else if env.read == NotReady then Pending
                    else if env.read == ReadFailed then Done
                    else Continue
  {
    hide SetProbe;
    var s1 := if env.tick then Tick(s, env.query, queryInterval) else s;
    TickMoves(s, env.query, queryInterval);
    if Reads(s, env) {
      ReadMoves(s1, env.read, queryInterval);
    }
    assert s.enqueued + [] == s.enqueued && s1.enqueued + [] == s1.enqueued && s.taken + [] == s.taken;
    assert s.found + [] == s.found && s.handed + [] == s.handed;
  }

  lemma TickMoves(s: Task, query: Packet, queryInterval: Duration)
    ensures var s' := Tick(s, query, queryInterval);
            && s'.sendBuffer == s.sendBuffer + [query] && s'.enqueued == s.enqueued + [query] && s'.taken == s.taken
            && s'.discovered == s.discovered && s'.found == s.found && s'.handed == s.handed && s'.lost == s.lost
  {
  }

  lemma ReadMoves(s: Task, read: Read, queryInterval: Duration)
    ensures var (s', c) := TakeRead(s, read, queryInterval);
            && s'.enqueued == s.enqueued + Answers(read) && s'.taken == s.taken
            && s'.found == s.found + Addresses(read) && s'.handed == s.handed && s'.lost == s.lost
            && c == if read == NotReady then Pending else if read == ReadFailed then Done else Continue
  {
    assert s.enqueued + [] == s.enqueued && s.found + [] == s.found;
  }

  /** Every query a tick asked for and every answer a datagram asked for, in order. */
  function Asked(envs: seq<Env>, queryInterval: Duration): seq<Packet> {
    if envs == [] then []
    else
      var (n, env) := (|envs| - 1, envs[|envs| - 1]);
      var (s, done) := Run(envs[..n], queryInterval);
      Asked(envs[..n], queryInterval)
      + (if done then [] else (if env.tick then [env.query] else []) + (if Reads(s, env) then Answers(env.read) else []))
  }

  /** Every address a response brought, in order. */
  function Heard(envs: seq<Env>, queryInterval: Duration): seq<Entry> {
    if envs == [] then []
    else
      var (n, env) := (|envs| - 1, envs[|envs| - 1]);
      var (s, done) := Run(envs[..n], queryInterval);
      Heard(envs[..n], queryInterval) + (if !done && Reads(s, env) then Addresses(env.read) else [])
  }

  lemma {:induction false} QueuesGetWhatIsAsked(envs: seq<Env>, queryInterval: Duration)
    ensures var s := Run(envs, queryInterval).0;
            s.enqueued == Asked(envs, queryInterval) && s.found == Heard(envs, queryInterval)
  {
    hide Iterate, Reads;
    if envs != [] {
      var n := |envs| - 1;
      var (s, done) := Run(envs[..n], queryInterval);
      QueuesGetWhatIsAsked(envs[..n], queryInterval);
      IterationMoves(s, envs[n], queryInterval);
      if done {
        assert s.enqueued + [] == s.enqueued && s.found + [] == s.found;
      } else {
        Assoc(s.enqueued, if envs[n].tick then [envs[n].query] else [], if Reads(s, envs[n]) then Answers(envs[n].read) else []);
      }
    }
  }

  /**
   Over every run, what was taken for sending and what still waits is every query a tick asked for
   and every answer a datagram asked for, in order; and what was handed over and what still waits is
   every address a response brought, in order, but for the single item in hand when the receiver is
   found to be gone, which ends the run.
   */
  lemma NothingAskedIsLost(envs: seq<Env>, queryInterval: Duration)
    ensures var (s, done) := Run(envs, queryInterval);
            && s.taken + s.sendBuffer == Asked(envs, queryInterval)
            && s.handed + s.lost + s.discovered == Heard(envs, queryInterval)
            && |s.lost| <= 1 && (!done ==> s.lost == [])
  {
    hide Run, Asked, Heard;
    QueuesGetWhatIsAsked(envs, queryInterval);
    QueuesAreLossless(envs, queryInterval);
  }

  /**
   Over every run, packets taken for sending followed by the send buffer are all packets enqueued,
   in order, and addresses handed over followed by those waiting are all addresses found; the one
   exception is the single item in hand when the receiver is found to be gone, which ends the run.
   */
  lemma {:induction false} QueuesAreLossless(envs: seq<Env>, queryInterval: Duration)
    ensures var (s, done) := Run(envs, queryInterval); Lossless(s) && (!done ==> s.lost == [])
  {
    hide Iterate, Lossless;
    if envs == [] {
      StartIsLossless();
    } else {
      var n := |envs| - 1;
      QueuesAreLossless(envs[..n], queryInterval);
      if !Run(envs[..n], queryInterval).1 {
        IterateLossless(Run(envs[..n], queryInterval).0, envs[n], queryInterval);
      }
    }
  }

  lemma StartIsLossless()
    ensures Lossless(START)
  {
  }

  // ---------------------------------------------------------------- probing backs off and ends

  function Pow2(k: nat): nat {
    if k == 0 then 1 else 2 * Pow2(k - 1)
  }

  function Sum(ds: seq<Duration>): nat {
    if ds == [] then 0 else Sum(ds[..|ds| - 1]) + ds[|ds| - 1]
  }

  /** The probing intervals so far are 500 ms doubling; all but the first are below the query interval; the timer has the state's period. */
  predicate Backoff(s: Task, queryInterval: Duration) {
    && s.probed != [] && s.timeout == s.probe.interval
    && (forall k :: 0 <= k < |s.probed| ==> s.probed[k] == INITIAL_TIMEOUT_INTERVAL * Pow2(k))
    && (forall k :: 0 < k < |s.probed| ==> s.probed[k] < queryInterval)
    && (s.probe.Probing? ==> s.probe.interval == s.probed[|s.probed| - 1])
    && (s.probe.Finished? ==> s.probe.interval == queryInterval)
  }

  /** Nothing but a tick or a response touches the probe, and a response only finishes it. */
  lemma HandOverBackoff(s: Task, env: Env, queryInterval: Duration)
    requires Backoff(s, queryInterval)
    ensures var s' := HandOver(s, env, queryInterval).0;
            && Backoff(s', queryInterval)
            && (s.probe.Finished? ==> s'.probe == s.probe && s'.probed == s.probed)
  {
    hide Pow2;
    var s' := HandOver(s, env, queryInterval).0;
    assert s'.probed == s.probed;
  }

  lemma IterateBackoff(s: Task, env: Env, queryInterval: Duration)
    requires Backoff(s, queryInterval)
    ensures var s' := Iterate(s, env, queryInterval).0;
            && Backoff(s', queryInterval)
            && (s.probe.Finished? ==> s'.probe == s.probe && s'.probed == s.probed)
  {
    hide Tick, HandOver, Pow2;
    var s1 := if env.tick then Tick(s, env.query, queryInterval) else s;
    TickBackoff(s, env.query, queryInterval);
    HandOverBackoff(s1, env, queryInterval);
  }

  lemma TickBackoff(s: Task, query: Packet, queryInterval: Duration)
    requires Backoff(s, queryInterval)
    ensures var s' := Tick(s, query, queryInterval);
            && Backoff(s', queryInterval)
            && (s.probe.Finished? ==> s'.probe == s.probe && s'.probed == s.probed)
  {
    var n := |s.probed|;
    assert Pow2(n) == 2 * Pow2(n - 1);
    assert INITIAL_TIMEOUT_INTERVAL * Pow2(n) == 2 * (INITIAL_TIMEOUT_INTERVAL * Pow2(n - 1));
  }

  lemma {:induction false} ProbingBacksOff(envs: seq<Env>, queryInterval: Duration)
    ensures Backoff(Run(envs, queryInterval).0, queryInterval)
  {
    hide Iterate;
    if envs != [] {
      var n := |envs| - 1;
      ProbingBacksOff(envs[..n], queryInterval);
      if !Run(envs[..n], queryInterval).1 {
        IterateBackoff(Run(envs[..n], queryInterval).0, envs[n], queryInterval);
      }
    }
  }

  /** This iteration reads a response that leaves addresses to hand over. */
  predicate Answered(s: Task, env: Env) {
    Reads(s, env) && env.read.ResponseRead? && s.discovered + env.read.found != []
  }

  /** A tick doubles the probing interval, or ends probing when it has reached the query interval; a response with addresses ends it. */
  lemma IterationProbes(s: Task, env: Env, queryInterval: Duration)
    ensures var s' := Iterate(s, env, queryInterval).0;
            s'.probe == if Answered(s, env) then Finished(queryInterval)
                        else if !env.tick || s.probe.Finished? then s.probe
                        else if 2 * s.probe.interval >= queryInterval then Finished(queryInterval)
                        else Probing(2 * s.probe.interval)
  {
    var s1 := if env.tick then Tick(s, env.query, queryInterval) else s;
    assert s1.sendBuffer == Waiting(s, env) && s1.discovered == s.discovered;
  }

  /** How many ticks there have been, and whether a response has ended probing. */
  function Ticks(envs: seq<Env>, queryInterval: Duration): nat {
    if envs == [] then 0
    else
      var n := |envs| - 1;
      Ticks(envs[..n], queryInterval) + (if envs[n].tick && !Run(envs[..n], queryInterval).1 then 1 else 0)
  }

  predicate EverAnswered(envs: seq<Env>, queryInterval: Duration) {
    if envs == [] then false
    else
      var n := |envs| - 1;
      var (s, done) := Run(envs[..n], queryInterval);
      EverAnswered(envs[..n], queryInterval) || (!done && Answered(s, envs[n]))
  }

  /** Where probing stands is settled by the ticks so far and whether a response has ended it. */
  lemma {:induction false} ProbeFollowsTicks(envs: seq<Env>, queryInterval: Duration)
    ensures var k := Ticks(envs, queryInterval);
            Run(envs, queryInterval).0.probe
            == if EverAnswered(envs, queryInterval) || (k > 0 && INITIAL_TIMEOUT_INTERVAL * Pow2(k) >= queryInterval)
               then Finished(queryInterval)
               else Probing(INITIAL_TIMEOUT_INTERVAL * Pow2(k))
  {
    hide Iterate, Answered;
    if envs == [] {
      assert Pow2(0) == 1;
    } else {
      var n := |envs| - 1;
      var (s, done) := Run(envs[..n], queryInterval);
      var k := Ticks(envs[..n], queryInterval);
      ProbeFollowsTicks(envs[..n], queryInterval);
      IterationProbes(s, envs[n], queryInterval);
      assert INITIAL_TIMEOUT_INTERVAL * Pow2(k + 1) == 2 * (INITIAL_TIMEOUT_INTERVAL * Pow2(k)) by {
        assert Pow2(k + 1) == 2 * Pow2(k);
      }
    }
  }

  /** Once finished, probing stays finished at the query interval for the rest of the run. */
  lemma {:induction false} FinishedIsAbsorbing(envs: seq<Env>, more: seq<Env>, queryInterval: Duration)
    requires Run(envs, queryInterval).0.probe.Finished?
    ensures Run(envs + more, queryInterval).0.probe == Finished(queryInterval)
    ensures Run(envs + more, queryInterval).0.probed == Run(envs, queryInterval).0.probed
  {
    hide Iterate, Backoff;
    ProbingBacksOff(envs, queryInterval);
    FinishedInterval(Run(envs, queryInterval).0, queryInterval);
    if more == [] {
      assert envs + more == envs;
    } else {
      var n := |more| - 1;
      FinishedIsAbsorbing(envs, more[..n], queryInterval);
      assert (envs + more)[..|envs + more| - 1] == envs + more[..n];
      ProbingBacksOff(envs + more[..n], queryInterval);
      IterateBackoff(Run(envs + more[..n], queryInterval).0, more[n], queryInterval);
    }
  }

  lemma FinishedInterval(s: Task, queryInterval: Duration)
    requires Backoff(s, queryInterval) && s.probe.Finished?
    ensures s.probe == Finished(queryInterval)
  {
  }

  lemma {:induction false} DoublingSum(ds: seq<Duration>, n: nat)
    requires 1 <= n <= |ds| && forall k :: 0 <= k < |ds| ==> ds[k] == INITIAL_TIMEOUT_INTERVAL * Pow2(k)
    ensures Sum(ds[..n]) == 2 * ds[n - 1] - INITIAL_TIMEOUT_INTERVAL
  {
    assert ds[..n][..n - 1] == ds[..n - 1];
    if n == 1 {
      assert Sum(ds[..1]) == Sum(ds[..0]) + ds[0];
    } else {
      DoublingSum(ds, n - 1);
      assert INITIAL_TIMEOUT_INTERVAL * Pow2(n - 1) == 2 * (INITIAL_TIMEOUT_INTERVAL * Pow2(n - 2));
    }
  }

  /** With a query interval above 500 ms, all the probing there ever is lasts less than twice that interval. */
  lemma ProbingEnds(envs: seq<Env>, queryInterval: Duration)
    requires queryInterval > INITIAL_TIMEOUT_INTERVAL
    ensures Sum(Run(envs, queryInterval).0.probed) < 2 * queryInterval
  {
    hide Run, Sum;
    ProbingBacksOff(envs, queryInterval);
    var ds := Run(envs, queryInterval).0.probed;
    DoublingSum(ds, |ds|);
    assert ds[..|ds|] == ds;
    assert Pow2(0) == 1;
  }
}
