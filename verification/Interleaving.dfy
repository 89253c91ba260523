/**
  One backend, its health checker and any number of proxied requests, interleaved
  (backend/backend.go, backend/health.go, proxy/reverse_proxy.go).

  Fine-grained level: every section under the backend's lock is one step, at an instant of a
  clock that never runs backwards.  A section touches one backend only, so the machine follows a
  single backend; steps of other backends do not change its state.
 */
module Interleaving {
  import opened Options
  import opened Backends

  type RequestId = nat

  /** Where a request is inside the proxy's ServeHTTP. */
  datatype Phase =
    | Arrived    // nothing read yet
    | Admitted   // CheckCircuitState said yes
    | SawOpen    // GetCircuitState said Open
    | MayReopen  // CanAttemptHalfOpen said yes; SetCircuitHalfOpen comes next
    | Tracking   // about to increment
    | InFlight   // inside the inner proxy
    | Returned   // the inner proxy returned
    | Measured   // latency recorded, about to decrement
    | Finished
    | Rejected
    | Aborted    // the inner proxy panicked: the decrement is skipped

  datatype Event =
    | Arrive(r: RequestId)
    | PassGate(r: RequestId)
    | ReadCircuit(r: RequestId)
    | CheckCooldown(r: RequestId)
    | SetHalfOpen(r: RequestId)
    | Increment(r: RequestId)
    | ReportSuccess(r: RequestId)
    | ReportFailure(r: RequestId)
    | Return(r: RequestId)
    | Abort(r: RequestId)
    | Measure(r: RequestId, sample: int, err: real)
    | Decrement(r: RequestId)
    | MarkProbe(ok: bool)    // the checker's SetAlive
    | RecordProbe(ok: bool)  // the RecordSuccess or RecordFailure that follows it

  datatype Step = Step(now: int, event: Event)

  datatype Probe = Idle | Marked(ok: bool)

  datatype Machine = Machine(clock: int, backend: BackendState, requests: map<RequestId, Phase>, probe: Probe)

  function Start(clock: int): Machine {
    Machine(clock, NEW_BACKEND, map[], Idle)
  }

  predicate At(m: Machine, r: RequestId, p: Phase) {
    r in m.requests && m.requests[r] == p
  }

  predicate Enabled(m: Machine, s: Step) {
    m.clock <= s.now &&
    match s.event
    case Arrive(r) => r !in m.requests
    case PassGate(r) => At(m, r, Arrived)
    case ReadCircuit(r) => At(m, r, Admitted)
    case CheckCooldown(r) => At(m, r, SawOpen)
    case SetHalfOpen(r) => At(m, r, MayReopen)
    case Increment(r) => At(m, r, Tracking)
    case ReportSuccess(r) => At(m, r, InFlight)
    case ReportFailure(r) => At(m, r, InFlight)
    case Return(r) => At(m, r, InFlight)
    case Abort(r) => At(m, r, InFlight)
    case Measure(r, _, _) => At(m, r, Returned)
    case Decrement(r) => At(m, r, Measured)
    case MarkProbe(_) => m.probe == Idle
    case RecordProbe(ok) => m.probe == Marked(ok)
  }

  predicate IsFailure(e: Event) {
    e.ReportFailure? || e == RecordProbe(false)
  }

  predicate IsSuccess(e: Event) {
    e.ReportSuccess? || e == RecordProbe(true)
  }

  /** What the step does to the backend. */
  function BackendAfter(b: BackendState, s: Step): BackendState {
    if IsFailure(s.event) then Failed(b, s.now)
    else if IsSuccess(s.event) then Succeeded(b)
    else match s.event
      case SetHalfOpen(_) => HalfOpened(b)
      case Increment(_) => Connected(b)
      case Measure(_, sample, err) => Sampled(b, sample, err)
      case Decrement(_) => Disconnected(b)
      case MarkProbe(ok) => WithAlive(b, ok)
      case _ => b
  }

  /** What the step does to the requests. */
  function RequestsAfter(m: Machine, s: Step): map<RequestId, Phase> {
    match s.event
    case Arrive(r) => m.requests[r := Arrived]
    case PassGate(r) => m.requests[r := if Eligible(m.backend, s.now) then Admitted else Rejected]
    case ReadCircuit(r) => m.requests[r := if m.backend.circuit.Open? then SawOpen else Tracking]
    case CheckCooldown(r) => m.requests[r := if CooledDown(m.backend.lastFailure, s.now) then MayReopen else Tracking]
    case SetHalfOpen(r) => m.requests[r := Tracking]
    case Increment(r) => m.requests[r := InFlight]
    case Return(r) => m.requests[r := Returned]
    case Abort(r) => m.requests[r := Aborted]
    case Measure(r, _, _) => m.requests[r := Measured]
    case Decrement(r) => m.requests[r := Finished]
    case _ => m.requests
  }

  function Next(m: Machine, s: Step): Machine {
    Machine(s.now, BackendAfter(m.backend, s), RequestsAfter(m, s),
            match s.event case MarkProbe(ok) => Marked(ok) case RecordProbe(_) => Idle case _ => m.probe)
  }

  /** The machine after the whole trace, or `None` when some step was not enabled. */
  function Run(m: Machine, trace: seq<Step>): Option<Machine> {
    if trace == [] then Some(m)
    else
      var k, s := Run(m, trace[..|trace| - 1]), trace[|trace| - 1];
      if k.Some? && Enabled(k.value, s) then Some(Next(k.value, s)) else None
  }

  lemma RunSnoc(m: Machine, trace: seq<Step>, s: Step)
    ensures Run(m, trace + [s]) ==
            var k := Run(m, trace); if k.Some? && Enabled(k.value, s) then Some(Next(k.value, s)) else None
  {
    assert (trace + [s])[..|trace|] == trace;
  }

  lemma {:induction false} RunAppend(m: Machine, a: seq<Step>, b: seq<Step>)
    ensures Run(m, a + b) == var k := Run(m, a); if k.Some? then Run(k.value, b) else None
  {
    if b == [] {
      assert a + b == a;
    } else {
      var init, last := b[..|b| - 1], b[|b| - 1];
      RunAppend(m, a, init);
      RunSnoc(m, a + init, last);
      assert a + b == a + init + [last];
    }
  }

  lemma RunOne(m: Machine, s: Step)
    requires Enabled(m, s)
    ensures Run(m, [s]) == Some(Next(m, s))
  {
    RunSnoc(m, [], s);
    assert [] + [s] == [s];
  }

  lemma RunPair(m: Machine, s: Step, t: Step)
    ensures Run(m, [s, t]) == if Enabled(m, s) && Enabled(Next(m, s), t) then Some(Next(Next(m, s), t)) else None
  {
    assert [] + [s] == [s] && [s] + [t] == [s, t];
    RunSnoc(m, [], s);
    RunSnoc(m, [s], t);
  }

  lemma RunTwoPairs(m: Machine, s: Step, t: Step, u: Step, w: Step)
    ensures var k := Run(m, [s, t]);
            Run(m, [s, t, u, w]) == if k.Some? then Run(k.value, [u, w]) else None
  {
    assert [s, t] + [u, w] == [s, t, u, w];
    RunAppend(m, [s, t], [u, w]);
  }

  // ---- The steps are the sections of the source ----

  /** The section of the source that a step stands for, on the mutable backend: what each event does is
      what the method it is named after does. */
  method Perform(b: Backend, s: Step)
    modifies b
    ensures b.State() == BackendAfter(old(b.State()), s)
  {
    match s.event {
      case SetHalfOpen(_) =>
        b.SetCircuitHalfOpen();
      case Increment(_) =>
        b.IncConnections();
      case ReportSuccess(_) =>
        b.RecordSuccess();
      case ReportFailure(_) =>
        b.RecordFailure(s.now);
      case Measure(_, sample, err) =>
        b.RecordLatency(sample, err);
      case Decrement(_) =>
        b.DecConnections();
      case MarkProbe(ok) =>
        b.SetAlive(ok);
      case RecordProbe(ok) =>
        if ok {
          b.RecordSuccess();
        } else {
          b.RecordFailure(s.now);
        }
      case _ =>
    }
  }

  /** A step of request r. */
  predicate Of(e: Event, r: RequestId) {
    !e.MarkProbe? && !e.RecordProbe? && e.r == r
  }

  /** The position of the last step of request r, -1 if there is none. */
  function LastOf(trace: seq<Step>, r: RequestId): (p: int)
    ensures -1 <= p < |trace|
  {
    if trace == [] then -1
    else if Of(trace[|trace| - 1].event, r) then |trace| - 1
    else LastOf(trace[..|trace| - 1], r)
  }

  /** The position of the health checker's last step. */
  function LastProbe(trace: seq<Step>): (p: int)
    ensures -1 <= p < |trace|
  {
    if trace == [] then -1
    else if trace[|trace| - 1].event.MarkProbe? || trace[|trace| - 1].event.RecordProbe? then |trace| - 1
    else LastProbe(trace[..|trace| - 1])
  }

  /** The backend that step number p found. */
  function Found(clock: int, trace: seq<Step>, p: nat): BackendState
    requires p < |trace|
  {
    var k := Run(Start(clock), trace[..p]);
    if k.Some? then k.value.backend else NEW_BACKEND
  }

  /** The program text: which step of a request, or of the checker, may come next, by the last one before
      it and what that one read. */
  predicate InOrder(clock: int, trace: seq<Step>, e: Event) {
    if e.MarkProbe? || e.RecordProbe? then
      var p := LastProbe(trace);
      if e.MarkProbe? then p < 0 || trace[p].event.RecordProbe? else p >= 0 && trace[p].event == MarkProbe(e.ok)
    else
      var p := LastOf(trace, e.r);
      if p < 0 then e.Arrive?
      else
        var last, b := trace[p], Found(clock, trace, p);
        match last.event
        case Arrive(_) => e.PassGate?
        case PassGate(_) => e.ReadCircuit? && Eligible(b, last.now)
        case ReadCircuit(_) => if b.circuit.Open? then e.CheckCooldown? else e.Increment?
        case CheckCooldown(_) => if CooledDown(b.lastFailure, last.now) then e.SetHalfOpen? else e.Increment?
        case SetHalfOpen(_) => e.Increment?
        case Return(_) => e.Measure?
        case Measure(_, _, _) => e.Decrement?
        case Decrement(_) => false
        case Abort(_) => false
        case _ => e.ReportSuccess? || e.ReportFailure? || e.Return? || e.Abort?
  }

  /** The phase in which its last step leaves a request. */
  function PhaseAfter(b: BackendState, s: Step): Phase
    requires !s.event.MarkProbe? && !s.event.RecordProbe?
  {
    match s.event
    case Arrive(_) => Arrived
    case PassGate(_) => if Eligible(b, s.now) then Admitted else Rejected
    case ReadCircuit(_) => if b.circuit.Open? then SawOpen else Tracking
    case CheckCooldown(_) => if CooledDown(b.lastFailure, s.now) then MayReopen else Tracking
    case SetHalfOpen(_) => Tracking
    case Return(_) => Returned
    case Abort(_) => Aborted
    case Measure(_, _, _) => Measured
    case Decrement(_) => Finished
    case _ => InFlight
  }

  predicate PhaseIsLast(clock: int, trace: seq<Step>, r: RequestId, m: Machine) {
    var p := LastOf(trace, r);
    if p < 0 then r !in m.requests
    else Of(trace[p].event, r) && At(m, r, PhaseAfter(Found(clock, trace, p), trace[p]))
  }

  predicate ProbeIsLast(trace: seq<Step>, m: Machine) {
    var p := LastProbe(trace);
    if p < 0 || trace[p].event.RecordProbe? then m.probe == Idle
    else trace[p].event.MarkProbe? && m.probe == Marked(trace[p].event.ok)
  }

  lemma FoundEarlier(clock: int, trace: seq<Step>, s: Step, p: nat)
    requires p < |trace|
    ensures Found(clock, trace + [s], p) == Found(clock, trace, p)
  {
    assert (trace + [s])[..p] == trace[..p];
  }

  lemma OwnPhase(m: Machine, s: Step, r: RequestId)
    requires Enabled(m, s) && Of(s.event, r)
    ensures At(Next(m, s), r, PhaseAfter(m.backend, s))
  {
  }

  lemma OtherPhase(m: Machine, s: Step, r: RequestId)
    requires Enabled(m, s) && !Of(s.event, r)
    ensures r in Next(m, s).requests <==> r in m.requests
    ensures r in m.requests ==> Next(m, s).requests[r] == m.requests[r]
  {
  }

  lemma PhaseStep(clock: int, init: seq<Step>, s: Step, r: RequestId)
    requires Run(Start(clock), init).Some? && Enabled(Run(Start(clock), init).value, s)
    requires PhaseIsLast(clock, init, r, Run(Start(clock), init).value)
    ensures PhaseIsLast(clock, init + [s], r, Next(Run(Start(clock), init).value, s))
  {
    var trace, m := init + [s], Run(Start(clock), init).value;
    assert trace[..|init|] == init;
    if Of(s.event, r) {
      OwnPhase(m, s, r);
      assert LastOf(trace, r) == |init| && Found(clock, trace, |init|) == m.backend;
    } else {
      OtherPhase(m, s, r);
      assert LastOf(trace, r) == LastOf(init, r);
      if LastOf(init, r) >= 0 { FoundEarlier(clock, init, s, LastOf(init, r)); }
    }
  }

  lemma {:induction false} PhasesAreLast(clock: int, trace: seq<Step>, r: RequestId)
    requires Run(Start(clock), trace).Some?
    ensures PhaseIsLast(clock, trace, r, Run(Start(clock), trace).value)
    ensures ProbeIsLast(trace, Run(Start(clock), trace).value)
  {
    if trace != [] {
      var init, s := trace[..|trace| - 1], trace[|trace| - 1];
      PhasesAreLast(clock, init, r);
      PhaseStep(clock, init, s, r);
      assert trace == init + [s];
    }
  }

  /** The instant of the last step. */
  function Latest(clock: int, trace: seq<Step>): int {
    if trace == [] then clock else trace[|trace| - 1].now
  }

  lemma NextOfRequest(clock: int, trace: seq<Step>, m: Machine, s: Step)
    requires m.clock <= s.now && !s.event.MarkProbe? && !s.event.RecordProbe?
    requires PhaseIsLast(clock, trace, s.event.r, m)
    ensures Enabled(m, s) <==> InOrder(clock, trace, s.event)
  {
  }

  lemma NextOfProbe(clock: int, trace: seq<Step>, m: Machine, s: Step)
    requires m.clock <= s.now && (s.event.MarkProbe? || s.event.RecordProbe?)
    requires ProbeIsLast(trace, m)
    ensures Enabled(m, s) <==> InOrder(clock, trace, s.event)
  {
  }

  /** The runs of the machine are exactly the interleavings of the program text: a run can go on with a
      step if and only if the clock does not run backwards and the step is the next one of its request,
      or of the health checker. */
  lemma RunsAreInterleavings(clock: int, trace: seq<Step>, s: Step)
    requires Run(Start(clock), trace).Some?
    ensures Run(Start(clock), trace + [s]).Some? <==> Latest(clock, trace) <= s.now && InOrder(clock, trace, s.event)
  {
    var m := Run(Start(clock), trace).value;
    RunSnoc(Start(clock), trace, s);
    ClockIsLatest(clock, trace);
    if m.clock <= s.now {
      if s.event.MarkProbe? || s.event.RecordProbe? {
        PhasesAreLast(clock, trace, 0);
        NextOfProbe(clock, trace, m, s);
      } else {
        PhasesAreLast(clock, trace, s.event.r);
        NextOfRequest(clock, trace, m, s);
      }
    }
  }

  lemma ClockIsLatest(clock: int, trace: seq<Step>)
    requires Run(Start(clock), trace).Some?
    ensures Run(Start(clock), trace).value.clock == Latest(clock, trace)
  {
  }

  // ---- The circuit breaker's fields are functions of the recorded outcomes ----

  /** Failures recorded since the last recorded success. */
  function FailuresSinceSuccess(trace: seq<Step>): nat {
    if trace == [] then 0
    else
      var e := trace[|trace| - 1].event;
      if IsSuccess(e) then 0
      else FailuresSinceSuccess(trace[..|trace| - 1]) + if IsFailure(e) then 1 else 0
  }

  /** The instant of the last recorded failure. */
  function LastFailureIn(trace: seq<Step>): Option<int> {
    if trace == [] then None
    else if IsFailure(trace[|trace| - 1].event) then Some(trace[|trace| - 1].now)
    else LastFailureIn(trace[..|trace| - 1])
  }

  /** What the last completed SetAlive said; a new backend counts as alive. */
  function LastMark(trace: seq<Step>): bool {
    if trace == [] then true
    else if trace[|trace| - 1].event.MarkProbe? then trace[|trace| - 1].event.ok
    else LastMark(trace[..|trace| - 1])
  }

  /** The moving average of the latencies recorded. */
  function AverageIn(trace: seq<Step>): int {
    if trace == [] then 0
    else
      var e := trace[|trace| - 1].event;
      if e.Measure? then NextAverage(AverageIn(trace[..|trace| - 1]), e.sample, e.err)
      else AverageIn(trace[..|trace| - 1])
  }

  /** In every interleaving the stored fields say exactly what was recorded, and the breaker's own
      invariant holds: a Closed circuit has fewer than five failures behind it, an Open one at least one
      recorded failure. */
  lemma {:induction false} FieldsMatchHistory(clock: int, trace: seq<Step>)
    requires Run(Start(clock), trace).Some?
    ensures var m := Run(Start(clock), trace).value;
            && m.backend.failureCount == FailuresSinceSuccess(trace)
            && m.backend.lastFailure == LastFailureIn(trace)
            && m.backend.alive == LastMark(trace)
            && m.backend.avgLatency == AverageIn(trace)
            && (m.backend.circuit.Closed? ==> FailuresSinceSuccess(trace) < 5)
            && (m.backend.circuit.Open? ==> LastFailureIn(trace).Some?)
            && (m.probe.Marked? ==> m.backend.alive == m.probe.ok)
            && (m.backend.lastFailure.Some? ==> m.backend.lastFailure.value <= m.clock)
            && Sound(m.backend)
  {
    if trace != [] {
      FieldsMatchHistory(clock, trace[..|trace| - 1]);
    }
  }

  /** When the circuit changes, in any run: Closed opens exactly on the fifth failure since the last
      success, Open is left only by a SetCircuitHalfOpen, and HalfOpen only by a success, to Closed. */
  lemma CircuitMoves(clock: int, trace: seq<Step>, s: Step)
    requires Run(Start(clock), trace + [s]).Some?
    ensures Run(Start(clock), trace).Some?
    ensures var b, b' := Run(Start(clock), trace).value.backend, Run(Start(clock), trace + [s]).value.backend;
            match b.circuit
            case Closed =>
              && (b'.circuit.Open? <==> IsFailure(s.event) && FailuresSinceSuccess(trace) + 1 == 5)
              && (b'.circuit.HalfOpen? <==> s.event.SetHalfOpen?)
            case Open =>
              && (b'.circuit.HalfOpen? <==> s.event.SetHalfOpen?)
              && !b'.circuit.Closed?
            case HalfOpen =>
              && (b'.circuit.Closed? <==> IsSuccess(s.event))
              && !b'.circuit.Open?
  {
    RunSnoc(Start(clock), trace, s);
    FieldsMatchHistory(clock, trace);
  }

  // ---- Where a SetCircuitHalfOpen comes from ----

  /** At position `i` request `r` read Open. */
  predicate ReadOpenAt(m: Machine, trace: seq<Step>, i: nat, r: RequestId) {
    && i < |trace| && trace[i].event == ReadCircuit(r)
    && Run(m, trace[..i]).Some? && Run(m, trace[..i]).value.backend.circuit.Open?
  }

  /** At position `j` request `r` read a clock at least the timeout past the last failure then recorded. */
  predicate FoundCoolAt(m: Machine, trace: seq<Step>, j: nat, r: RequestId) {
    && j < |trace| && trace[j].event == CheckCooldown(r)
    && Run(m, trace[..j]).Some?
    && Run(m, trace[..j]).value.backend.lastFailure.Some?
    && trace[j].now - Run(m, trace[..j]).value.backend.lastFailure.value >= OPEN_STATE_TIMEOUT
  }

  lemma PositionsPersist(m: Machine, trace: seq<Step>, s: Step, i: nat, r: RequestId)
    ensures ReadOpenAt(m, trace, i, r) ==> ReadOpenAt(m, trace + [s], i, r)
    ensures FoundCoolAt(m, trace, i, r) ==> FoundCoolAt(m, trace + [s], i, r)
  {
    if i < |trace| {
      assert (trace + [s])[..i] == trace[..i];
    }
  }

  /** What the run must contain for request `r` to be in its present phase. */
  ghost predicate Accounted(m: Machine, trace: seq<Step>, r: RequestId, p: Phase) {
    match p
    case SawOpen => exists i :: ReadOpenAt(m, trace, i, r)
    case MayReopen => exists i, j :: i < j && ReadOpenAt(m, trace, i, r) && FoundCoolAt(m, trace, j, r)
    case _ => true
  }

  lemma AccountedPersists(m: Machine, trace: seq<Step>, s: Step, r: RequestId, p: Phase)
    requires Accounted(m, trace, r, p)
    ensures Accounted(m, trace + [s], r, p)
  {
    if p.SawOpen? {
      var i :| ReadOpenAt(m, trace, i, r);
      PositionsPersist(m, trace, s, i, r);
    } else if p.MayReopen? {
      var i, j :| i < j && ReadOpenAt(m, trace, i, r) && FoundCoolAt(m, trace, j, r);
      PositionsPersist(m, trace, s, i, r);
      PositionsPersist(m, trace, s, j, r);
    }
  }

  /** One more step: a request that enters one of the two phases leaves its position in the trace. */
  lemma StepAccounted(clock: int, init: seq<Step>, s: Step, r: RequestId)
    requires Run(Start(clock), init + [s]).Some?
    requires Run(Start(clock), init).Some? && r in Run(Start(clock), init).value.requests
    requires Accounted(Start(clock), init, r, Run(Start(clock), init).value.requests[r])
    ensures Accounted(Start(clock), init + [s], r, Run(Start(clock), init + [s]).value.requests[r])
  {
    var m := Start(clock);
    var k := Run(m, init).value;
    RunSnoc(m, init, s);
    AccountedPersists(m, init, s, r, k.requests[r]);
    assert (init + [s])[..|init|] == init;
    if s.event == ReadCircuit(r) {
      assert k.backend.circuit.Open? ==> ReadOpenAt(m, init + [s], |init|, r);
    } else if s.event == CheckCooldown(r) {
      var i :| ReadOpenAt(m, init, i, r);
      PositionsPersist(m, init, s, i, r);
      FailureStaysRecorded(clock, init, i);
      assert CooledDown(k.backend.lastFailure, s.now) ==> FoundCoolAt(m, init + [s], |init|, r);
    }
  }

  lemma {:induction false} EveryPhaseAccounted(clock: int, trace: seq<Step>, r: RequestId)
    requires Run(Start(clock), trace).Some?
    requires r in Run(Start(clock), trace).value.requests
    ensures Accounted(Start(clock), trace, r, Run(Start(clock), trace).value.requests[r])
  {
    var init, s := trace[..|trace| - 1], trace[|trace| - 1];
    assert trace == init + [s];
    if r in Run(Start(clock), init).value.requests {
      EveryPhaseAccounted(clock, init, r);
      StepAccounted(clock, init, s, r);
    }
  }

  /** A recorded failure is never forgotten, only replaced by a later one. */
  lemma {:induction false} FailureStaysRecorded(clock: int, trace: seq<Step>, i: nat)
    requires i <= |trace| && Run(Start(clock), trace).Some?
    ensures Run(Start(clock), trace[..i]).Some?
    ensures Run(Start(clock), trace[..i]).value.backend.circuit.Open? ==>
              Run(Start(clock), trace).value.backend.lastFailure.Some?
  {
    FieldsMatchHistory(clock, trace);
    if i == |trace| {
      assert trace[..i] == trace;
    } else {
      FailureStaysRecorded(clock, trace[..|trace| - 1], i);
      assert trace[..|trace| - 1][..i] == trace[..i];
    }
  }

  /** Every SetCircuitHalfOpen step belongs to a request that read Open and then, later, a clock at
      least the timeout past the failure recorded at that moment. */
  lemma HalfOpenProvenance(clock: int, trace: seq<Step>, s: Step)
    requires Run(Start(clock), trace + [s]).Some? && s.event.SetHalfOpen?
    ensures exists i, j :: i < j && ReadOpenAt(Start(clock), trace, i, s.event.r)
                                 && FoundCoolAt(Start(clock), trace, j, s.event.r)
  {
    RunSnoc(Start(clock), trace, s);
    EveryPhaseAccounted(clock, trace, s.event.r);
  }

  // ---- Connections ----

  /** The requests between their increment and their decrement. */
  function Counted(m: Machine): set<RequestId> {
    set r | r in m.requests && (m.requests[r].InFlight? || m.requests[r].Returned? || m.requests[r].Measured?)
  }

  /** The requests whose decrement will never come. */
  function Lost(m: Machine): set<RequestId> {
    set r | r in m.requests && m.requests[r].Aborted?
  }

  lemma CountedAfterStep(m: Machine, s: Step)
    requires Enabled(m, s)
    ensures s.event.Increment? ==> Counted(Next(m, s)) == Counted(m) + {s.event.r} && s.event.r !in Counted(m)
    ensures s.event.Decrement? || s.event.Abort? ==>
              Counted(Next(m, s)) == Counted(m) - {s.event.r} && s.event.r in Counted(m)
    ensures !s.event.Increment? && !s.event.Decrement? && !s.event.Abort? ==> Counted(Next(m, s)) == Counted(m)
  {
  }

  lemma LostAfterStep(m: Machine, s: Step)
    requires Enabled(m, s)
    ensures s.event.Abort? ==> Lost(Next(m, s)) == Lost(m) + {s.event.r} && s.event.r !in Lost(m)
    ensures !s.event.Abort? ==> Lost(Next(m, s)) == Lost(m)
  {
  }

  predicate Conserved(m: Machine) {
    m.backend.active == |Counted(m)| + |Lost(m)|
  }

  lemma StepConserves(m: Machine, s: Step)
    requires Enabled(m, s) && Conserved(m)
    ensures Conserved(Next(m, s))
  {
    CountedAfterStep(m, s);
    LostAfterStep(m, s);
  }

  /** The connection count is the number of requests in flight plus the number of aborted ones. */
  lemma {:induction false} ConnectionsConserved(clock: int, trace: seq<Step>)
    requires Run(Start(clock), trace).Some?
    ensures var m := Run(Start(clock), trace).value;
            m.backend.active == |Counted(m)| + |Lost(m)|
  {
    if trace != [] {
      ConnectionsConserved(clock, trace[..|trace| - 1]);
      StepConserves(Run(Start(clock), trace[..|trace| - 1]).value, trace[|trace| - 1]);
    }
  }

  /** Where every inner call returns, the count is the number in flight and nothing else. */
  lemma {:induction false} NothingLostWithoutAbort(clock: int, trace: seq<Step>)
    requires Run(Start(clock), trace).Some?
    requires forall i :: 0 <= i < |trace| ==> !trace[i].event.Abort?
    ensures var m := Run(Start(clock), trace).value;
            Lost(m) == {} && m.backend.active == |Counted(m)|
  {
    ConnectionsConserved(clock, trace);
    if trace != [] {
      NothingLostWithoutAbort(clock, trace[..|trace| - 1]);
      LostAfterStep(Run(Start(clock), trace[..|trace| - 1]).value, trace[|trace| - 1]);
    }
  }

  /** How many steps of a run are increments, decrements and aborts. */
  function Increments(trace: seq<Step>): nat {
    if trace == [] then 0
    else Increments(trace[..|trace| - 1]) + if trace[|trace| - 1].event.Increment? then 1 else 0
  }

  function Decrements(trace: seq<Step>): nat {
    if trace == [] then 0
    else Decrements(trace[..|trace| - 1]) + if trace[|trace| - 1].event.Decrement? then 1 else 0
  }

  function Aborts(trace: seq<Step>): nat {
    if trace == [] then 0
    else Aborts(trace[..|trace| - 1]) + if trace[|trace| - 1].event.Abort? then 1 else 0
  }

  /** Counted on the steps of the run: the connection count is the increments less the decrements, and
      every abort has leaked one connection for good. */
  lemma {:induction false} AbortsLeak(clock: int, trace: seq<Step>)
    requires Run(Start(clock), trace).Some?
    ensures var m := Run(Start(clock), trace).value;
            && m.backend.active == Increments(trace) - Decrements(trace)
            && |Lost(m)| == Aborts(trace)
            && m.backend.active >= Aborts(trace)
  {
    ConnectionsConserved(clock, trace);
    if trace != [] {
      var init, s := trace[..|trace| - 1], trace[|trace| - 1];
      AbortsLeak(clock, init);
      LostAfterStep(Run(Start(clock), init).value, s);
      ConnectionsConserved(clock, init);
      CountedAfterStep(Run(Start(clock), init).value, s);
    }
  }

  /** So the guard of DecConnections never suppresses a decrement. */
  lemma DecrementNeverSuppressed(clock: int, trace: seq<Step>, s: Step)
    requires Run(Start(clock), trace + [s]).Some? && s.event.Decrement?
    ensures Run(Start(clock), trace).Some? && Run(Start(clock), trace).value.backend.active > 0
    ensures Run(Start(clock), trace + [s]).value.backend.active
            == Run(Start(clock), trace).value.backend.active - 1
  {
    RunSnoc(Start(clock), trace, s);
    ConnectionsConserved(clock, trace);
    var m := Run(Start(clock), trace).value;
    assert s.event.r in Counted(m);
  }
}
