/**
  The proxy around one backend and the health checker (proxy/reverse_proxy.go, backend/health.go),
  run one request or one probe at a time on the mutable objects.  `Interleaving` covers the
  concurrent case; `CallIsARun` and `ProbeIsARun` tie the two together.
 */
module Proxying {
  import opened Options
  import opened Backends
  import opened Interleaving
  import opened DeadBackend

  const BAD_GATEWAY := 502
  const SERVICE_UNAVAILABLE := 503
  const GATEWAY_TIMEOUT := 504

  /** The final status codes. */
  type Status = s: int | 200 <= s <= 999 witness 200

  /** What the upstream server does with a forwarded request. */
  datatype Upstream = Response(status: Status) | TransportError

  /** Everything a proxied request gets from outside: three clock readings, the upstream's answer
      and the latency sample. */
  datatype Call = Call(gateAt: int, cooldownAt: int, failedAt: int, upstream: Upstream, sample: int, err: real)

  /** The backend after one request that nothing else interleaves with. */
  function AfterCall(s: BackendState, c: Call): BackendState {
    if !Eligible(s, c.gateAt) then s
    else
      var gated := if s.circuit.Open? && CooledDown(s.lastFailure, c.cooldownAt) then HalfOpened(s) else s;
      var counted := Connected(gated);
      var answered := if c.upstream.Response? then Succeeded(counted) else Failed(counted, c.failedAt);
      Disconnected(Sampled(answered, c.sample, c.err))
  }

  /** The status the request is answered with. */
  function CallStatus(s: BackendState, c: Call): Status {
    if !Eligible(s, c.gateAt) then SERVICE_UNAVAILABLE
    else if c.upstream.Response? then c.upstream.status
    else BAD_GATEWAY
  }

  // ---- Writers ----

  /** The connection to the client; 0 while no status has been sent.  Only the first status goes out. */
  class ClientWriter {
    var status: int

    constructor ()
      ensures status == 0
    {
      status := 0;
    }

    method WriteHeader(code: int)
      modifies this
      ensures status == if old(status) == 0 then code else old(status)
    {
      if status == 0 {
        status := code;
      }
    }
  }

  /** server/http_server.go:56-64: remembers the status and passes it on at once. */
  class ResponseRecorder {
    const writer: ClientWriter
    var status: int

    constructor (writer: ClientWriter)
      ensures this.writer == writer && status == 0
    {
      this.writer, status := writer, 0;
    }

    method WriteHeader(code: int)
      modifies this, writer
      ensures status == code
      ensures writer.status == if old(writer.status) == 0 then code else old(writer.status)
    {
      status := code;
      writer.WriteHeader(code);
    }
  }

  /** The two implementations of http.ResponseWriter a request can meet. */
  datatype Writer = Direct(client: ClientWriter) | Recorded(recorder: ResponseRecorder) {
    function Client(): ClientWriter {
      if Direct? then client else recorder.writer
    }

    function Footprint(): set<object> {
      if Direct? then {client} else {recorder, recorder.writer}
    }
  }

  /** The status `code` has gone to the writer. */
  twostate predicate Wrote(w: Writer, code: int)
    reads w.Footprint()
  {
    && w.Client().status == (if old(w.Client().status) == 0 then code else old(w.Client().status))
    && (w.Recorded? ==> w.recorder.status == code)
  }

  method WriteHeader(w: Writer, code: int)
    modifies w.Footprint()
    ensures Wrote(w, code)
  {
    match w {
      case Direct(client) => client.WriteHeader(code);
      case Recorded(recorder) => recorder.WriteHeader(code);
    }
  }

  // ---- The proxy ----

  class Proxy {
    const backend: Backend
    const proxy: ReverseProxy

    /** Points both handlers of the backend's shared reverse proxy at this backend, over whatever an
        earlier NewProxy had put there. */
    constructor (b: Backend)
      modifies b.proxy
      ensures backend == b && proxy == b.proxy
      ensures Bound()
      ensures b.proxy.modifyResponse == b && b.proxy.errorHandler == b
    {
      backend, proxy := b, b.proxy;
      new;
      proxy.modifyResponse := backend;
      proxy.errorHandler := backend;
    }

    /** The reverse proxy reports to this proxy's backend. */
    predicate Bound()
      reads proxy
    {
      proxy.modifyResponse == backend && proxy.errorHandler == backend
    }

    /** The handler that an earlier or this NewProxy bound to backend `b`. */
    static method HandleSuccess(b: Backend)
      modifies b
      ensures b.State() == Succeeded(old(b.State()))
    {
      b.RecordSuccess();
    }

    static method HandleError(b: Backend, w: Writer, now: int)
      modifies b, w.Footprint()
      ensures b.State() == Failed(old(b.State()), now)
      ensures Wrote(w, 502)
    {
      b.RecordFailure(now);
      WriteHeader(w, BAD_GATEWAY);
    }

    /** The inner ReverseProxy.ServeHTTP: a response goes through ModifyResponse and then to the
        client, a transport error goes to ErrorHandler; whichever backend these are bound to is told. */
    method Forward(w: Writer, c: Call)
      requires Bound()
      modifies backend, w.Footprint()
      ensures backend.State() == if c.upstream.Response? then Succeeded(old(backend.State()))
                                 else Failed(old(backend.State()), c.failedAt)
      ensures Wrote(w, if c.upstream.Response? then c.upstream.status else 502)
    {
      match c.upstream {
        case Response(status) =>
          HandleSuccess(proxy.modifyResponse);
          WriteHeader(w, status);
        case TransportError =>
          HandleError(proxy.errorHandler, w, c.failedAt);
      }
    }

    /** The sections of ServeHTTP, one after the other. */
    method Handle(w: Writer, c: Call)
      requires Bound()
      modifies backend, w.Footprint()
      ensures backend.State() == AfterCall(old(backend.State()), c)
      ensures Wrote(w, CallStatus(old(backend.State()), c))
    {
      var admitted := backend.CheckCircuitState(c.gateAt);
      if !admitted {
        WriteHeader(w, SERVICE_UNAVAILABLE);
        return;
      }
      var circuit := backend.GetCircuitState();
      if circuit == Open {
        var cooled := backend.CanAttemptHalfOpen(c.cooldownAt);
        if cooled {
          backend.SetCircuitHalfOpen();
        }
      }
      backend.IncConnections();
      Forward(w, c);
      backend.RecordLatency(c.sample, c.err);
      backend.DecConnections();
    }

    method ServeHTTP(w: Writer, c: Call)
      requires Bound()
      modifies backend, w.Footprint()
      ensures backend.State() == AfterCall(old(backend.State()), c)
      ensures Wrote(w, CallStatus(old(backend.State()), c))
      ensures old(ShutAt(backend.State(), c.gateAt)) ==> backend.State() == old(backend.State()) && Wrote(w, 503)
      ensures !old(ShutAt(backend.State(), c.gateAt)) ==>
                var gated := old(GateLeaves(backend.State(), c));
                && backend.alive == old(backend.alive)
                && (old(backend.activeConnections) >= 0 ==> backend.activeConnections == old(backend.activeConnections))
                && backend.avgLatency == NextAverage(old(backend.avgLatency), c.sample, c.err)
                && (c.upstream.Response? ==>
                      && backend.failureCount == 0 && backend.lastFailure == old(backend.lastFailure)
                      && backend.circuit == (if gated == HalfOpen then Closed else gated)
                      && Wrote(w, c.upstream.status))
                && (c.upstream.TransportError? ==>
                      && backend.failureCount == old(backend.failureCount) + 1
                      && backend.lastFailure == Some(c.failedAt)
                      && backend.circuit == (if gated == Closed && backend.failureCount >= 5 then Open else gated)
                      && Wrote(w, 502))
    {
      ghost var s := backend.State();
      Handle(w, c);
      if ShutAt(s, c.gateAt) {
        RefusedCall(s, c);
      } else {
        ForwardedCall(s, c);
      }
    }
  }

  // ---- What one request does to its backend ----

  /** A request leaves the connection count as it found it and keeps the breaker's invariant. */
  lemma CallKeepsSound(s: BackendState, c: Call)
    requires Sound(s)
    ensures Sound(AfterCall(s, c))
    ensures AfterCall(s, c).active == s.active && AfterCall(s, c).alive == s.alive
  {
  }

  /** The gate is shut: the backend is Closed and marked dead, or Open and ten seconds have not passed. */
  predicate ShutAt(s: BackendState, now: int) {
    match s.circuit
    case Closed => !s.alive
    case Open => s.lastFailure.Some? && now - s.lastFailure.value < 10_000_000_000
    case HalfOpen => false
  }

  /** The circuit once the gate has let the request in: an Open one is HalfOpen if the ten seconds have
      passed at the second reading of the clock as well. */
  function GateLeaves(s: BackendState, c: Call): Circuit {
    var cooled := s.lastFailure == None || c.cooldownAt - s.lastFailure.value >= 10_000_000_000;
    if s.circuit == Open && cooled then HalfOpen else s.circuit
  }

  /** What a request that nothing interleaves with does.  Refused, it changes nothing and is answered 503. */
  lemma RefusedCall(s: BackendState, c: Call)
    requires ShutAt(s, c.gateAt)
    ensures AfterCall(s, c) == s && CallStatus(s, c) == 503
  {
  }

  /** Let in and answered, with whatever status, it clears the failures and closes a half-open circuit;
      let in and not answered, it counts as a failure, opens a closed circuit the fifth time, and leaves
      a trial half-open. */
  lemma ForwardedCall(s: BackendState, c: Call)
    requires !ShutAt(s, c.gateAt)
    ensures var s', gated := AfterCall(s, c), GateLeaves(s, c);
            && s'.alive == s.alive && (s.active >= 0 ==> s'.active == s.active)
            && s'.avgLatency == NextAverage(s.avgLatency, c.sample, c.err)
            && (c.upstream.Response? ==>
                  && s'.failureCount == 0 && s'.lastFailure == s.lastFailure
                  && s'.circuit == if gated == HalfOpen then Closed else gated)
            && (c.upstream.TransportError? ==>
                  && s'.failureCount == s.failureCount + 1 && s'.lastFailure == Some(c.failedAt)
                  && s'.circuit == if gated == Closed && s.failureCount + 1 >= 5 then Open else gated)
    ensures CallStatus(s, c) == if c.upstream.Response? then c.upstream.status else 502
  {
  }

  function AfterCalls(s: BackendState, calls: seq<Call>): BackendState {
    if calls == [] then s else AfterCall(AfterCalls(s, calls[..|calls| - 1]), calls[|calls| - 1])
  }

  /** Five requests in a row that cannot reach the backend open its circuit, and not fewer. */
  lemma {:induction false} ErrorsOpenTheCircuit(s: BackendState, calls: seq<Call>)
    requires s.circuit.Closed? && s.alive && s.failureCount == 0
    requires |calls| <= 5 && forall i :: 0 <= i < |calls| ==> calls[i].upstream.TransportError?
    ensures AfterCalls(s, calls).failureCount == |calls| && AfterCalls(s, calls).alive
    ensures AfterCalls(s, calls).circuit == if |calls| == 5 then Open else Closed
  {
    if calls != [] {
      ErrorsOpenTheCircuit(s, calls[..|calls| - 1]);
    }
  }

  // ---- One request alone is one run of the interleaved machine ----

  /** The gate's sections after CheckCircuitState said yes. */
  function Gated(s: BackendState, r: RequestId, c: Call): seq<Step> {
    if s.circuit.Open? then
      [Step(c.gateAt, ReadCircuit(r)), Step(c.cooldownAt, CheckCooldown(r)), Step(c.cooldownAt, SetHalfOpen(r))]
    else [Step(c.gateAt, ReadCircuit(r))]
  }

  function Entry(s: BackendState, r: RequestId, c: Call): seq<Step> {
    [Step(c.gateAt, Arrive(r)), Step(c.gateAt, PassGate(r))] +
    if Eligible(s, c.gateAt) then Gated(s, r, c) else []
  }

  function Exchange(r: RequestId, c: Call): seq<Step> {
    [Step(c.cooldownAt, Increment(r)),
     Step(c.failedAt, if c.upstream.Response? then ReportSuccess(r) else ReportFailure(r)),
     Step(c.failedAt, Return(r))]
  }

  function Cleanup(r: RequestId, c: Call): seq<Step> {
    [Step(c.failedAt, Measure(r, c.sample, c.err)), Step(c.failedAt, Decrement(r))]
  }

  function Alone(s: BackendState, r: RequestId, c: Call): seq<Step> {
    Entry(s, r, c) + if Eligible(s, c.gateAt) then Exchange(r, c) + Cleanup(r, c) else []
  }

  lemma GatedRuns(m: Machine, r: RequestId, c: Call)
    requires m.clock <= c.gateAt <= c.cooldownAt && At(m, r, Admitted) && Eligible(m.backend, c.gateAt)
    ensures var k := Run(m, Gated(m.backend, r, c));
            && k.Some? && k.value.clock <= c.cooldownAt && At(k.value, r, Tracking)
            && k.value.backend == if m.backend.circuit.Open? then HalfOpened(m.backend) else m.backend
  {
    var d := Gated(m.backend, r, c);
    if m.backend.circuit.Open? {
      RunPair(m, d[0], d[1]);
      RunSnoc(m, [d[0], d[1]], d[2]);
      assert [d[0], d[1]] + [d[2]] == d;
    } else {
      RunOne(m, d[0]);
    }
  }

  lemma EntryRuns(m: Machine, r: RequestId, c: Call)
    requires m.clock <= c.gateAt <= c.cooldownAt && r !in m.requests
    ensures var k := Run(m, Entry(m.backend, r, c));
            && k.Some? && k.value.clock <= c.cooldownAt
            && At(k.value, r, if Eligible(m.backend, c.gateAt) then Tracking else Rejected)
            && k.value.backend == if Eligible(m.backend, c.gateAt) && m.backend.circuit.Open? then HalfOpened(m.backend)
                                  else m.backend
  {
    var arrive, pass := Step(c.gateAt, Arrive(r)), Step(c.gateAt, PassGate(r));
    RunPair(m, arrive, pass);
    if Eligible(m.backend, c.gateAt) {
      RunAppend(m, [arrive, pass], Gated(m.backend, r, c));
      GatedRuns(Next(Next(m, arrive), pass), r, c);
    } else {
      assert Entry(m.backend, r, c) == [arrive, pass];
    }
  }

  lemma ExchangeRuns(m: Machine, r: RequestId, c: Call)
    requires m.clock <= c.cooldownAt <= c.failedAt && At(m, r, Tracking)
    ensures Run(m, Exchange(r, c)).Some?
    ensures At(Run(m, Exchange(r, c)).value, r, Returned) && Run(m, Exchange(r, c)).value.clock == c.failedAt
    ensures Run(m, Exchange(r, c)).value.backend ==
            if c.upstream.Response? then Succeeded(Connected(m.backend)) else Failed(Connected(m.backend), c.failedAt)
  {
    var d := Exchange(r, c);
    RunPair(m, d[0], d[1]);
    RunSnoc(m, [d[0], d[1]], d[2]);
    assert [d[0], d[1]] + [d[2]] == d;
  }

  lemma CleanupRuns(m: Machine, r: RequestId, c: Call)
    requires m.clock <= c.failedAt && At(m, r, Returned)
    ensures Run(m, Cleanup(r, c)).Some? && At(Run(m, Cleanup(r, c)).value, r, Finished)
    ensures Run(m, Cleanup(r, c)).value.backend == Disconnected(Sampled(m.backend, c.sample, c.err))
  {
    var measure, decrement := Step(c.failedAt, Measure(r, c.sample, c.err)), Step(c.failedAt, Decrement(r));
    var k := Next(m, measure);
    assert Enabled(m, measure) && k.clock == c.failedAt && At(k, r, Measured);
    RunPair(m, measure, decrement);
    assert Run(m, Cleanup(r, c)) == Some(Next(k, decrement));
  }

  /** From any point of any interleaving, a request that runs through without interruption is a run
      of the machine, and changes the backend exactly as `AfterCall` says. */
  lemma CallIsARun(m: Machine, r: RequestId, c: Call)
    requires m.clock <= c.gateAt <= c.cooldownAt <= c.failedAt && r !in m.requests
    ensures Run(m, Alone(m.backend, r, c)).Some?
    ensures Run(m, Alone(m.backend, r, c)).value.backend == AfterCall(m.backend, c)
    ensures At(Run(m, Alone(m.backend, r, c)).value, r, if Eligible(m.backend, c.gateAt) then Finished else Rejected)
  {
    EntryRuns(m, r, c);
    if Eligible(m.backend, c.gateAt) {
      var entry, exchange, cleanup := Entry(m.backend, r, c), Exchange(r, c), Cleanup(r, c);
      var k := Run(m, entry).value;
      ExchangeRuns(k, r, c);
      CleanupRuns(Run(k, exchange).value, r, c);
      RunAppend(m, entry, exchange + cleanup);
      RunAppend(k, exchange, cleanup);
    } else {
      assert Alone(m.backend, r, c) == Entry(m.backend, r, c);
    }
  }

  /** Recovery from end to end.  At the end of any run whose last probe found the backend well and in
      which the timeout has passed since the last failure, whatever state the circuit is in: a request
      that then runs without interruption and is answered is let through, closes the circuit and
      clears the failures, and the backend is eligible at every instant. */
  lemma OneAnswerRecovers(clock: int, trace: seq<Step>, r: RequestId, c: Call)
    requires Run(Start(clock), trace).Some?
    requires LastMark(trace) && CooledDown(LastFailureIn(trace), c.gateAt)
    requires var m := Run(Start(clock), trace).value;
             m.clock <= c.gateAt <= c.cooldownAt <= c.failedAt && r !in m.requests
    requires c.upstream.Response?
    ensures var before := Run(Start(clock), trace).value.backend;
            var k := Run(Start(clock), trace + Alone(before, r, c));
            && k.Some? && At(k.value, r, Finished)
            && k.value.backend.circuit.Closed? && k.value.backend.failureCount == 0
            && k.value.backend.active == before.active
            && forall now :: Eligible(k.value.backend, now)
  {
    var m := Run(Start(clock), trace).value;
    FieldsMatchHistory(clock, trace);
    RecoveredIsEligible(clock, trace, c.gateAt);
    CallIsARun(m, r, c);
    RunAppend(Start(clock), trace, Alone(m.backend, r, c));
    CallKeepsSound(m.backend, c);
  }

  // ---- The health checker ----

  /** One probe: the status the backend answered with, or `None` for a transport error, and the
      instant at which a failure is recorded. */
  datatype ProbeResult = ProbeResult(answer: Option<int>, at: int)

  predicate Well(p: ProbeResult) {
    p.answer.Some? && p.answer.value < 500
  }

  function Probed(s: BackendState, p: ProbeResult): BackendState {
    if Well(p) then Succeeded(WithAlive(s, true)) else Failed(WithAlive(s, false), p.at)
  }

  /** A backend after several probes in a row. */
  function AfterProbes(s: BackendState, ps: seq<ProbeResult>): BackendState {
    if ps == [] then s else Probed(AfterProbes(s, ps[..|ps| - 1]), ps[|ps| - 1])
  }

  /** Any number of probes that meet an error or a status of 500 and more take a new backend out: it is
      ineligible until an answer comes, or from the fifth on until the timeout after the last of them. */
  lemma {:induction false} BadProbesTakeOut(ps: seq<ProbeResult>, now: int)
    requires ps != [] && forall i :: 0 <= i < |ps| ==> ps[i].answer == None || ps[i].answer.value >= 500
    ensures var s, last := AfterProbes(NEW_BACKEND, ps), ps[|ps| - 1].at;
            && !s.alive && s.failureCount == |ps| && s.lastFailure == Some(last)
            && s.circuit == (if |ps| >= 5 then Open else Closed)
            && (Eligible(s, now) <==> |ps| >= 5 && now - last >= 10_000_000_000)
  {
    var init := ps[..|ps| - 1];
    if init != [] { BadProbesTakeOut(init, now); }
  }

  /** One answer below 500 then makes it alive again, and eligible: at once if there were fewer than five
      failures, otherwise when the timeout has passed. */
  lemma OneGoodProbeRevives(ps: seq<ProbeResult>, good: ProbeResult, now: int)
    requires ps != [] && forall i :: 0 <= i < |ps| ==> ps[i].answer == None || ps[i].answer.value >= 500
    requires good.answer.Some? && good.answer.value < 500
    ensures var s := AfterProbes(NEW_BACKEND, ps + [good]);
            && s.alive && s.failureCount == 0
            && (Eligible(s, now) <==> |ps| < 5 || now - ps[|ps| - 1].at >= 10_000_000_000)
  {
    BadProbesTakeOut(ps, now);
    assert (ps + [good])[..|ps|] == ps;
  }

  /** Backend `b`, first in state `s`, after a round of probes: once for each time the slice holds it. */
  function ProbedAll(s: BackendState, b: Backend, backends: seq<Backend>, results: seq<ProbeResult>): BackendState
    requires |results| == |backends|
  {
    if backends == [] then s
    else
      var n := |backends| - 1;
      var k := ProbedAll(s, b, backends[..n], results[..n]);
      if backends[n] == b then Probed(k, results[n]) else k
  }

  lemma {:induction false} NotProbed(s: BackendState, b: Backend, backends: seq<Backend>, results: seq<ProbeResult>)
    requires |results| == |backends| && b !in backends
    ensures ProbedAll(s, b, backends, results) == s
  {
    if backends != [] {
      var n := |backends| - 1;
      assert backends[n] in backends;
      NotProbed(s, b, backends[..n], results[..n]);
    }
  }

  /** The entries take effect in the order of the slice. */
  lemma {:induction false} ProbedInOrder(s: BackendState, b: Backend, xs: seq<Backend>, rs: seq<ProbeResult>,
                                         ys: seq<Backend>, qs: seq<ProbeResult>)
    requires |rs| == |xs| && |qs| == |ys|
    ensures ProbedAll(s, b, xs + ys, rs + qs) == ProbedAll(ProbedAll(s, b, xs, rs), b, ys, qs)
  {
    if ys == [] {
      assert xs + ys == xs && rs + qs == rs;
    } else {
      var n := |ys| - 1;
      ProbedInOrder(s, b, xs, rs, ys[..n], qs[..n]);
      assert (xs + ys)[..|xs + ys| - 1] == xs + ys[..n] && (rs + qs)[..|rs + qs| - 1] == rs + qs[..n];
    }
  }

  /** A backend that the slice holds once is changed by its own result only. */
  lemma {:induction false} ProbedOnce(s: BackendState, i: nat, backends: seq<Backend>, results: seq<ProbeResult>)
    requires i < |backends| == |results| && Separate(backends)
    ensures ProbedAll(s, backends[i], backends, results) == Probed(s, results[i])
  {
    var n := |backends| - 1;
    if i == n {
      NotProbed(s, backends[i], backends[..n], results[..n]);
    } else {
      ProbedOnce(s, i, backends[..n], results[..n]);
    }
  }

  class HealthChecker {
    const backends: seq<Backend>

    constructor (backends: seq<Backend>)
      ensures this.backends == backends
    {
      this.backends := backends;
    }

    method CheckOne(b: Backend, p: ProbeResult)
      modifies b
      ensures b.State() == Probed(old(b.State()), p)
      ensures b.alive == (p.answer.Some? && p.answer.value < 500)
      ensures b.failureCount == if b.alive then 0 else old(b.failureCount) + 1
      ensures b.lastFailure == if b.alive then old(b.lastFailure) else Some(p.at)
      ensures b.alive ==> b.circuit == if old(b.circuit) == HalfOpen then Closed else old(b.circuit)
      ensures !b.alive ==>
                b.circuit == if old(b.circuit) == Closed && old(b.failureCount) + 1 >= 5 then Open else old(b.circuit)
      ensures b.activeConnections == old(b.activeConnections) && b.avgLatency == old(b.avgLatency)
    {
      if p.answer.None? {
        b.SetAlive(false);
        b.RecordFailure(p.at);
        return;
      }
      if p.answer.value >= 500 {
        b.SetAlive(false);
        b.RecordFailure(p.at);
        return;
      }
      b.SetAlive(true);
      b.RecordSuccess();
    }

    /** Every entry of the slice is probed once, in order. */
    method CheckAll(results: seq<ProbeResult>)
      requires |results| == |backends|
      modifies backends
      ensures forall b :: b in backends ==> b.State() == ProbedAll(old(b.State()), b, backends, results)
      ensures Separate(backends) ==>
                forall i :: 0 <= i < |backends| ==>
                  backends[i].State() == Probed(old(backends[i].State()), results[i])
    {
      for n := 0 to |backends|
        invariant forall b :: b in backends ==>
                    b.State() == ProbedAll(old(b.State()), b, backends[..n], results[..n])
      {
        assert backends[..n + 1][..n] == backends[..n] && results[..n + 1][..n] == results[..n];
        CheckOne(backends[n], results[n]);
      }
      assert backends[..|backends|] == backends && results[..|backends|] == results;
      forall i | 0 <= i < |backends| && Separate(backends)
        ensures backends[i].State() == Probed(old(backends[i].State()), results[i])
      {
        ProbedOnce(old(backends[i].State()), i, backends, results);
      }
    }
  }

  /** A probe that nothing interleaves with is a run of the machine. */
  lemma ProbeIsARun(m: Machine, p: ProbeResult)
    requires m.clock <= p.at && m.probe == Idle
    ensures var k := Run(m, [Step(p.at, MarkProbe(Well(p))), Step(p.at, RecordProbe(Well(p)))]);
            k.Some? && k.value.backend == Probed(m.backend, p)
  {
    RunPair(m, Step(p.at, MarkProbe(Well(p))), Step(p.at, RecordProbe(Well(p))));
  }
}
