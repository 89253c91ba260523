/**
  One upstream server and its circuit breaker (backend/backend.go).

  Every method of the source runs one section under the backend's lock, so each one is a
  single step from one `BackendState` to the next.  The functions on `BackendState` are the
  specification of those steps; the class `Backend` is the mutable object and proves that each
  of its methods performs the step it is named after.  Instants and durations are nanoseconds;
  the clock is an argument of the steps that read it.
 */
module Backends {
  import opened Options

  const MAX_FAILURES := 5

  // Ten seconds.
  const OPEN_STATE_TIMEOUT := 10_000_000_000

  datatype Circuit = Closed | Open | HalfOpen

  /** The guarded fields.  `lastFailure` is `None` for Go's zero time, which lies centuries before
      any clock reading. */
  datatype BackendState = BackendState(
    alive: bool,
    circuit: Circuit,
    lastFailure: Option<int>,
    failureCount: int,
    active: int,
    avgLatency: int)

  const NEW_BACKEND := BackendState(true, Closed, None, 0, 0, 0)

  /** At least OPEN_STATE_TIMEOUT has passed since the last recorded failure. */
  predicate CooledDown(lastFailure: Option<int>, now: int) {
    lastFailure.None? || now - lastFailure.value >= OPEN_STATE_TIMEOUT
  }

  /** What CheckCircuitState answers: may this backend be offered a request? */
  predicate Eligible(s: BackendState, now: int) {
    match s.circuit
    case Open => CooledDown(s.lastFailure, now)
    case HalfOpen => true
    case Closed => s.alive
  }

  function WithAlive(s: BackendState, alive: bool): BackendState {
    s.(alive := alive)
  }

  function Failed(s: BackendState, now: int): BackendState {
    s.(failureCount := s.failureCount + 1,
       lastFailure := Some(now),
       circuit := if s.failureCount + 1 >= MAX_FAILURES && s.circuit.Closed? then Open else s.circuit)
  }

  function Succeeded(s: BackendState): BackendState {
    s.(failureCount := 0, circuit := if s.circuit.HalfOpen? then Closed else s.circuit)
  }

  function HalfOpened(s: BackendState): BackendState {
    s.(circuit := HalfOpen)
  }

  function Connected(s: BackendState): BackendState {
    s.(active := s.active + 1)
  }

  function Disconnected(s: BackendState): BackendState {
    s.(active := if s.active > 0 then s.active - 1 else s.active)
  }

  /** Conversion of a floating-point value to an integer drops the fraction. */
  function Truncate(x: real): int {
    if x >= 0.0 then x.Floor else -((-x).Floor)
  }

  /** The moving average after one sample.  `err` is the rounding error that the floating-point
      evaluation of the weighted sum happens to make. */
  function NextAverage(avg: int, sample: int, err: real): int {
    if avg == 0 then sample else Truncate(0.8 * avg as real + 0.2 * sample as real + err)
  }

  function Sampled(s: BackendState, sample: int, err: real): BackendState {
    s.(avgLatency := NextAverage(s.avgLatency, sample, err))
  }

  /** What every reachable state satisfies, whoever calls the steps and in whatever order. */
  predicate Sound(s: BackendState) {
    && 0 <= s.failureCount
    && 0 <= s.active
    && (s.circuit.Closed? ==> s.failureCount < MAX_FAILURES)
    && (s.circuit.Open? ==> s.lastFailure.Some?)
    && (s.failureCount > 0 ==> s.lastFailure.Some?)
  }

  /** The reverse proxy that a backend owns; only its two handlers matter here, and a handler is
      known by the backend it reports to. */
  class ReverseProxy {
    var modifyResponse: Backend?
    var errorHandler: Backend?

    constructor ()
      ensures modifyResponse == null && errorHandler == null
    {
      modifyResponse, errorHandler := null, null;
    }
  }

  class Backend {
    const url: string
    const proxy: ReverseProxy
    var alive: bool
    var circuit: Circuit
    var lastFailure: Option<int>
    var failureCount: int
    var activeConnections: int
    var avgLatency: int

    constructor (url: string, proxy: ReverseProxy)
      ensures this.url == url && this.proxy == proxy
      ensures State() == NEW_BACKEND
      ensures alive && circuit == Closed && lastFailure == None
      ensures failureCount == activeConnections == avgLatency == 0
    {
      this.url, this.proxy := url, proxy;
      alive, circuit := true, Closed;
      lastFailure, failureCount := None, 0;
      activeConnections, avgLatency := 0, 0;
    }

    function State(): BackendState
      reads this
    {
      BackendState(alive, circuit, lastFailure, failureCount, activeConnections, avgLatency)
    }

    method SetAlive(alive: bool)
      modifies this`alive
      ensures State() == WithAlive(old(State()), alive)
      ensures this.alive == alive
    {
      this.alive := alive;
    }

    method IncConnections()
      modifies this`activeConnections
      ensures State() == Connected(old(State()))
      ensures activeConnections == old(activeConnections) + 1
    {
      activeConnections := activeConnections + 1;
    }

    method DecConnections()
      modifies this`activeConnections
      ensures State() == Disconnected(old(State()))
      ensures activeConnections == if old(activeConnections) > 0 then old(activeConnections) - 1
                                   else old(activeConnections)
    {
      if activeConnections > 0 {
        activeConnections := activeConnections - 1;
      }
    }

    method RecordLatency(sample: int, err: real)
      modifies this`avgLatency
      ensures State() == Sampled(old(State()), sample, err)
      ensures avgLatency == NextAverage(old(avgLatency), sample, err)
      ensures old(avgLatency) == 0 ==> avgLatency == sample
      ensures old(avgLatency) != 0 ==>
                var exact := 0.8 * old(avgLatency) as real + 0.2 * sample as real + err;
                if exact >= 0.0 then avgLatency as real <= exact < avgLatency as real + 1.0
                else avgLatency as real - 1.0 < exact <= avgLatency as real
    {
      if avgLatency == 0 {
        avgLatency := sample;
        return;
      }
      avgLatency := Truncate((1.0 - 0.2) * avgLatency as real + 0.2 * sample as real + err);
    }

    method RecordFailure(now: int)
      modifies this`failureCount, this`lastFailure, this`circuit
      ensures State() == Failed(old(State()), now)
      ensures failureCount == old(failureCount) + 1 && lastFailure == Some(now)
      ensures circuit == if old(circuit) == Closed && old(failureCount) + 1 >= 5 then Open else old(circuit)
      ensures old(Sound(State())) ==> Sound(State())
    {
      failureCount := failureCount + 1;
      lastFailure := Some(now);
      if failureCount >= MAX_FAILURES && circuit == Closed {
        circuit := Open;
      }
    }

    method RecordSuccess()
      modifies this`failureCount, this`circuit
      ensures State() == Succeeded(old(State()))
      ensures failureCount == 0
      ensures circuit == if old(circuit) == HalfOpen then Closed else old(circuit)
      ensures old(Sound(State())) ==> Sound(State())
    {
      failureCount := 0;
      if circuit == HalfOpen {
        circuit := Closed;
      }
    }

    method CheckCircuitState(now: int) returns (ok: bool)
      ensures ok == Eligible(State(), now)
      ensures circuit == Closed ==> ok == alive
      ensures circuit == HalfOpen ==> ok
      ensures circuit == Open ==> ok == (lastFailure == None || now - lastFailure.value >= 10_000_000_000)
    {
      match circuit {
        case Open =>
          var cooled := CanAttemptHalfOpen(now);
          return cooled;
        case HalfOpen =>
          return true;
        case Closed =>
          return alive;
      }
    }

    method CanAttemptHalfOpen(now: int) returns (ok: bool)
      ensures ok == CooledDown(State().lastFailure, now)
      ensures ok == (lastFailure == None || now - lastFailure.value >= 10_000_000_000)
    {
      match lastFailure {
        case None => return true;
        case Some(t) => return now - t >= OPEN_STATE_TIMEOUT;
      }
    }

    method SetCircuitHalfOpen()
      modifies this`circuit
      ensures State() == HalfOpened(old(State()))
      ensures circuit == HalfOpen
    {
      circuit := HalfOpen;
    }

    method GetCircuitState() returns (c: Circuit)
      ensures c == State().circuit == circuit
    {
      return circuit;
    }

    method GetActiveConnections() returns (n: int)
      ensures n == State().active == activeConnections
    {
      return activeConnections;
    }
  }

  function Urls(backends: seq<Backend>): seq<string> {
    seq(|backends|, i requires 0 <= i < |backends| => backends[i].url)
  }

  function States(backends: seq<Backend>): seq<BackendState>
    reads backends
  {
    seq(|backends|, i requires 0 <= i < |backends| reads backends => backends[i].State())
  }

  /** Which backends of the slice CheckCircuitState lets through when it reads the clock `nows[i]` for
      backend i. */
  function Eligibility(states: seq<BackendState>, nows: seq<int>): seq<bool>
    requires |nows| == |states|
  {
    seq(|states|, i requires 0 <= i < |states| => Eligible(states[i], nows[i]))
  }

  /** The slice holds no backend twice. */
  predicate Separate(backends: seq<Backend>) {
    forall i, j :: 0 <= i < j < |backends| ==> backends[i] != backends[j]
  }

  /** That is to say, it has as many entries as there are backends in it. */
  lemma {:induction false} SeparateIff(backends: seq<Backend>)
    ensures |set b | b in backends| <= |backends|
    ensures Separate(backends) <==> |set b | b in backends| == |backends|
  {
    if backends != [] {
      var n := |backends| - 1;
      var init, last := backends[..n], backends[n];
      SeparateIff(init);
      assert backends == init + [last];
      if last in init {
        assert (set b | b in backends) == (set b | b in init);
        var i :| 0 <= i < n && backends[i] == last;
      } else {
        assert (set b | b in backends) == (set b | b in init) + {last};
        assert Separate(backends) <==> Separate(init) by {
          assert forall i :: 0 <= i < n ==> backends[i] == init[i];
        }
      }
    }
  }
}
