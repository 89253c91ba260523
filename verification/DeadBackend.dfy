/**
  How long a backend that failed its health check stays out of rotation
  (backend/health.go:69-92, backend/backend.go:117-175, proxy/reverse_proxy.go:89-97).

  All results are at the fine-grained level of `Interleaving` unless they mention `AtomicStep`,
  where the gate of proxy/reverse_proxy.go:89-97 is one step.
 */
module DeadBackend {
  import opened Options
  import opened Backends
  import opened Interleaving

  /** No later probe finds the backend well, and no step comes as late as the timeout after the
      failure then last recorded. */
  predicate Quiet(m: Machine, trace: seq<Step>) {
    trace == [] ||
    var init, s := trace[..|trace| - 1], trace[|trace| - 1];
    && Quiet(m, init)
    && Run(m, init).Some?
    && s.event != MarkProbe(true)
    && !CooledDown(Run(m, init).value.backend.lastFailure, s.now)
  }

  /** Step number i neither marks the backend well nor comes as late as the timeout after the failure
      then last recorded. */
  predicate QuietAt(m: Machine, trace: seq<Step>, i: nat)
    requires i < |trace| && Run(m, trace[..i]).Some?
  {
    var last := Run(m, trace[..i]).value.backend.lastFailure;
    trace[i].event != MarkProbe(true) && last.Some? && trace[i].now - last.value < 10_000_000_000
  }

  lemma QuietStep(m: Machine, init: seq<Step>, s: Step)
    requires Run(m, init).Some?
    ensures (init + [s])[..|init|] == init
    ensures Quiet(m, init + [s]) <==> Quiet(m, init) && QuietAt(m, init + [s], |init|)
  {
    assert (init + [s])[..|init|] == init;
  }

  lemma QuietEarlier(m: Machine, init: seq<Step>, s: Step, i: nat)
    requires i < |init| && Run(m, init[..i]).Some?
    ensures (init + [s])[..i] == init[..i]
    ensures QuietAt(m, init + [s], i) <==> QuietAt(m, init, i)
  {
    assert (init + [s])[..i] == init[..i];
  }

  lemma {:induction false} QuietIff(m: Machine, trace: seq<Step>)
    requires Run(m, trace).Some?
    ensures forall i :: 0 <= i < |trace| ==> Run(m, trace[..i]).Some?
    ensures Quiet(m, trace) <==> forall i :: 0 <= i < |trace| ==> QuietAt(m, trace, i)
  {
    if trace != [] {
      var n := |trace| - 1;
      var init, s := trace[..n], trace[n];
      assert trace == init + [s];
      QuietIff(m, init);
      QuietStep(m, init, s);
      forall i | 0 <= i < n
        ensures Run(m, trace[..i]).Some? && (QuietAt(m, trace, i) <==> QuietAt(m, init, i))
      {
        QuietEarlier(m, init, s, i);
      }
    }
  }

  /** No instant before the timeout finds the backend eligible. */
  ghost predicate OutNow(m: Machine) {
    forall now :: m.clock <= now && !CooledDown(m.backend.lastFailure, now) ==> !Eligible(m.backend, now)
  }

  /** ... and that remains so through every quiet run, whatever the requests report. */
  ghost predicate StaysOut(m: Machine) {
    forall trace :: Run(m, trace).Some? && Quiet(m, trace) ==> OutNow(Run(m, trace).value)
  }

  /** Some request has already decided to call SetCircuitHalfOpen. */
  predicate ReopenPending(m: Machine) {
    exists r :: r in m.requests && m.requests[r].MayReopen?
  }

  predicate Dead(m: Machine) {
    && !m.backend.alive
    && !m.backend.circuit.HalfOpen?
    && m.probe != Marked(true)
    && !ReopenPending(m)
  }

  lemma {:induction false} QuietRunKeepsDead(m: Machine, trace: seq<Step>)
    requires Dead(m) && Run(m, trace).Some? && Quiet(m, trace)
    ensures Dead(Run(m, trace).value)
  {
    if trace != [] {
      QuietRunKeepsDead(m, trace[..|trace| - 1]);
    }
  }

  /** A backend whose probe has just failed stays out through every quiet run if and only if its
      circuit is not HalfOpen and no request has already been promised a half-open trial. */
  lemma DeadBackendStaysOut(clock: int, trace: seq<Step>, now: int)
    requires Run(Start(clock), trace + [Step(now, RecordProbe(false))]).Some?
    ensures var m := Run(Start(clock), trace + [Step(now, RecordProbe(false))]).value;
            StaysOut(m) <==> !m.backend.circuit.HalfOpen? && !ReopenPending(m)
  {
    var s := Step(now, RecordProbe(false));
    var m := Run(Start(clock), trace + [s]).value;
    RunSnoc(Start(clock), trace, s);
    FieldsMatchHistory(clock, trace);
    if !m.backend.circuit.HalfOpen? && !ReopenPending(m) {
      forall rest | Run(m, rest).Some? && Quiet(m, rest)
        ensures OutNow(Run(m, rest).value)
      {
        QuietRunKeepsDead(m, rest);
      }
    } else if m.backend.circuit.HalfOpen? {
      assert Quiet(m, []) && Run(m, []) == Some(m);
      assert Eligible(m.backend, m.clock) && !OutNow(m);
    } else {
      var r :| r in m.requests && m.requests[r].MayReopen?;
      PendingReopenLetsIn(m, r);
    }
  }

  /** The promised trial alone makes the backend eligible again, without any time passing. */
  lemma PendingReopenLetsIn(m: Machine, r: RequestId)
    requires At(m, r, MayReopen) && !CooledDown(m.backend.lastFailure, m.clock)
    ensures !StaysOut(m)
  {
    var s := Step(m.clock, SetHalfOpen(r));
    RunSnoc(m, [], s);
    assert [] + [s] == [s] && [s][..0] == [];
    var k := Run(m, [s]).value;
    assert Quiet(m, [s]);
    assert Eligible(k.backend, k.clock) && !OutNow(k);
  }

  /** The circuit is HalfOpen at the start of the run and after every step of it. */
  predicate AlwaysHalfOpen(m: Machine, trace: seq<Step>) {
    && (trace == [] || AlwaysHalfOpen(m, trace[..|trace| - 1]))
    && Run(m, trace).Some? && Run(m, trace).value.backend.circuit.HalfOpen?
  }

  /** Failures never re-open a half-open circuit and no time limit ends the trial: it goes on until
      the first success, and meanwhile the backend is eligible at every instant. */
  lemma {:induction false} HalfOpenLastsUntilSuccess(m: Machine, trace: seq<Step>)
    requires m.backend.circuit.HalfOpen? && Run(m, trace).Some?
    ensures AlwaysHalfOpen(m, trace) <==> forall i :: 0 <= i < |trace| ==> !IsSuccess(trace[i].event)
    ensures AlwaysHalfOpen(m, trace) ==> forall now :: Eligible(Run(m, trace).value.backend, now)
  {
    if trace != [] {
      var init := trace[..|trace| - 1];
      HalfOpenLastsUntilSuccess(m, init);
      assert forall i :: 0 <= i < |init| ==> init[i] == trace[i];
    }
  }

  /** The requests that the gate has let in, and those it has turned away. */
  function LetIn(m: Machine): set<RequestId> {
    set r | r in m.requests && !m.requests[r].Arrived? && !m.requests[r].Rejected?
  }

  function TurnedAway(m: Machine): set<RequestId> {
    set r | r in m.requests && m.requests[r].Rejected?
  }

  /** How many requests have come to the gate. */
  function AtTheGate(trace: seq<Step>): nat {
    if trace == [] then 0
    else AtTheGate(trace[..|trace| - 1]) + if trace[|trace| - 1].event.PassGate? then 1 else 0
  }

  lemma LetInAfterStep(m: Machine, s: Step)
    requires Enabled(m, s) && m.backend.circuit.HalfOpen?
    ensures s.event.PassGate? ==> LetIn(Next(m, s)) == LetIn(m) + {s.event.r} && s.event.r !in LetIn(m)
    ensures !s.event.PassGate? ==> LetIn(Next(m, s)) == LetIn(m)
  {
  }

  lemma NobodyTurnedAway(m: Machine, s: Step)
    requires Enabled(m, s) && m.backend.circuit.HalfOpen?
    ensures TurnedAway(Next(m, s)) == TurnedAway(m)
  {
  }

  /** While it lasts the trial is open to all: every request that comes to the gate is let in and none
      is turned away. */
  lemma {:induction false} TrialLetsEveryoneIn(m: Machine, trace: seq<Step>)
    requires AlwaysHalfOpen(m, trace)
    ensures Run(m, trace).Some?
    ensures |LetIn(Run(m, trace).value)| == |LetIn(m)| + AtTheGate(trace)
    ensures TurnedAway(Run(m, trace).value) == TurnedAway(m)
  {
    if trace != [] {
      var init, s := trace[..|trace| - 1], trace[|trace| - 1];
      TrialLetsEveryoneIn(m, init);
      LetInAfterStep(Run(m, init).value, s);
      NobodyTurnedAway(Run(m, init).value, s);
    }
  }

  // ---- The gate as one step ----

  datatype AtomicStep =
    | Gate(now: int, r: RequestId)  // proxy/reverse_proxy.go:89-97 at one instant
    | Single(step: Step)            // any other step

  predicate IsGateEvent(e: Event) {
    e.PassGate? || e.ReadCircuit? || e.CheckCooldown? || e.SetHalfOpen?
  }

  predicate AtomicEnabled(m: Machine, a: AtomicStep) {
    match a
    case Gate(now, r) => m.clock <= now && At(m, r, Arrived)
    case Single(s) => !IsGateEvent(s.event) && Enabled(m, s)
  }

  function AtomicNext(m: Machine, a: AtomicStep): Machine {
    match a
    case Single(s) => Next(m, s)
    case Gate(now, r) =>
      if !Eligible(m.backend, now) then m.(clock := now, requests := m.requests[r := Rejected])
      else m.(clock := now, requests := m.requests[r := Tracking],
              backend := if m.backend.circuit.Open? then HalfOpened(m.backend) else m.backend)
  }

  function AtomicRun(m: Machine, trace: seq<AtomicStep>): Option<Machine> {
    if trace == [] then Some(m)
    else
      var k, a := AtomicRun(m, trace[..|trace| - 1]), trace[|trace| - 1];
      if k.Some? && AtomicEnabled(k.value, a) then Some(AtomicNext(k.value, a)) else None
  }

  /** The fine-grained steps behind one atomic step taken from `m`. */
  function Expansion(m: Machine, a: AtomicStep): seq<Step> {
    match a
    case Single(s) => [s]
    case Gate(now, r) =>
      if !Eligible(m.backend, now) then [Step(now, PassGate(r))]
      else if !m.backend.circuit.Open? then [Step(now, PassGate(r)), Step(now, ReadCircuit(r))]
      else [Step(now, PassGate(r)), Step(now, ReadCircuit(r)), Step(now, CheckCooldown(r)), Step(now, SetHalfOpen(r))]
  }

  function Expanded(m: Machine, trace: seq<AtomicStep>): seq<Step> {
    if trace == [] then []
    else
      var init := trace[..|trace| - 1];
      var k := AtomicRun(m, init);
      Expanded(m, init) + if k.Some? then Expansion(k.value, trace[|trace| - 1]) else []
  }

  /** `m` with request `r` in phase `p` at instant `now`. */
  function Moved(m: Machine, now: int, r: RequestId, p: Phase): Machine {
    m.(clock := now, requests := m.requests[r := p])
  }

  lemma PassAndRead(m: Machine, now: int, r: RequestId)
    requires m.clock <= now && At(m, r, Arrived) && Eligible(m.backend, now)
    ensures Run(m, [Step(now, PassGate(r)), Step(now, ReadCircuit(r))])
            == Some(Moved(m, now, r, if m.backend.circuit.Open? then SawOpen else Tracking))
  {
    RunPair(m, Step(now, PassGate(r)), Step(now, ReadCircuit(r)));
    var p := if m.backend.circuit.Open? then SawOpen else Tracking;
    assert m.requests[r := Admitted][r := p] == m.requests[r := p];
  }

  lemma CheckAndSet(m: Machine, now: int, r: RequestId)
    requires m.clock <= now && At(m, r, SawOpen) && CooledDown(m.backend.lastFailure, now)
    ensures Run(m, [Step(now, CheckCooldown(r)), Step(now, SetHalfOpen(r))])
            == Some(Moved(m, now, r, Tracking).(backend := HalfOpened(m.backend)))
  {
    RunPair(m, Step(now, CheckCooldown(r)), Step(now, SetHalfOpen(r)));
    assert m.requests[r := MayReopen][r := Tracking] == m.requests[r := Tracking];
  }

  lemma ReopeningRefines(m: Machine, now: int, r: RequestId)
    requires AtomicEnabled(m, Gate(now, r)) && Eligible(m.backend, now) && m.backend.circuit.Open?
    ensures Run(m, Expansion(m, Gate(now, r))) == Some(AtomicNext(m, Gate(now, r)))
  {
    PassAndRead(m, now, r);
    CheckAndSet(Moved(m, now, r, SawOpen), now, r);
    RunTwoPairs(m, Step(now, PassGate(r)), Step(now, ReadCircuit(r)),
                Step(now, CheckCooldown(r)), Step(now, SetHalfOpen(r)));
    assert m.requests[r := SawOpen][r := Tracking] == m.requests[r := Tracking];
  }

  lemma ExpansionRefines(m: Machine, a: AtomicStep)
    requires AtomicEnabled(m, a)
    ensures Run(m, Expansion(m, a)) == Some(AtomicNext(m, a))
  {
    match a
    case Single(s) => RunOne(m, s);
    case Gate(now, r) =>
      if !Eligible(m.backend, now) {
        RunOne(m, Step(now, PassGate(r)));
      } else if m.backend.circuit.Open? {
        ReopeningRefines(m, now, r);
      } else {
        PassAndRead(m, now, r);
      }
  }

  /** The gate can be passed in one step exactly when its sections can be taken back to back. */
  lemma GateIsItsSections(m: Machine, now: int, r: RequestId)
    ensures AtomicEnabled(m, Gate(now, r)) <==> Run(m, Expansion(m, Gate(now, r))).Some?
  {
    var d, pass := Expansion(m, Gate(now, r)), Step(now, PassGate(r));
    if AtomicEnabled(m, Gate(now, r)) {
      ExpansionRefines(m, Gate(now, r));
    } else {
      RunSnoc(m, [], pass);
      assert [] + [pass] == [pass];
      RunAppend(m, [pass], d[1..]);
      assert d == [pass] + d[1..];
    }
  }

  /** No request is between two of the gate's sections. */
  predicate Settled(m: Machine) {
    forall r :: r in m.requests ==>
      !m.requests[r].Admitted? && !m.requests[r].SawOpen? && !m.requests[r].MayReopen?
  }

  lemma AtomicStepSettles(m: Machine, a: AtomicStep)
    requires AtomicEnabled(m, a) && Settled(m)
    ensures Settled(AtomicNext(m, a))
  {
  }

  /** Every atomic-gate run is a fine-grained run with the gate's steps taken back to back, so every
      fine-grained theorem holds of it; and between its steps no request is inside the gate. */
  lemma {:induction false} AtomicRefinesFine(clock: int, trace: seq<AtomicStep>)
    requires AtomicRun(Start(clock), trace).Some?
    ensures Run(Start(clock), Expanded(Start(clock), trace)) == AtomicRun(Start(clock), trace)
    ensures Settled(AtomicRun(Start(clock), trace).value)
  {
    if trace != [] {
      var m, init, a := Start(clock), trace[..|trace| - 1], trace[|trace| - 1];
      AtomicRefinesFine(clock, init);
      var k := AtomicRun(m, init).value;
      ExpansionRefines(k, a);
      AtomicStepSettles(k, a);
      RunAppend(m, Expanded(m, init), Expansion(k, a));
    }
  }

  /** With an atomic gate, the backend whose probe has just failed stays out unless the circuit was
      already HalfOpen: nothing the requests do afterwards, interleaved however finely, lets it in. */
  lemma AtomicGateKeepsDeadOut(clock: int, trace: seq<AtomicStep>, now: int)
    requires AtomicRun(Start(clock), trace + [Single(Step(now, RecordProbe(false)))]).Some?
    ensures var m := AtomicRun(Start(clock), trace + [Single(Step(now, RecordProbe(false)))]).value;
            StaysOut(m) <==> !m.backend.circuit.HalfOpen?
  {
    var s := Step(now, RecordProbe(false));
    var whole := trace + [Single(s)];
    AtomicRefinesFine(clock, whole);
    assert whole[..|whole| - 1] == trace;
    assert Expanded(Start(clock), whole) == Expanded(Start(clock), trace) + [s];
    DeadBackendStaysOut(clock, Expanded(Start(clock), trace), now);
  }

  lemma AtomicSound(clock: int, trace: seq<AtomicStep>)
    requires AtomicRun(Start(clock), trace).Some?
    ensures Sound(AtomicRun(Start(clock), trace).value.backend)
  {
    AtomicRefinesFine(clock, trace);
    FieldsMatchHistory(clock, Expanded(Start(clock), trace));
  }

  /** With an atomic gate, HalfOpen is entered only from Open and only when the cooldown has passed
      at that very instant. */
  lemma AtomicHalfOpenEntry(clock: int, trace: seq<AtomicStep>, a: AtomicStep)
    requires AtomicRun(Start(clock), trace + [a]).Some?
    ensures AtomicRun(Start(clock), trace).Some?
    ensures var b := AtomicRun(Start(clock), trace).value.backend;
            var b' := AtomicRun(Start(clock), trace + [a]).value.backend;
            !b.circuit.HalfOpen? ==>
              (b'.circuit.HalfOpen? <==>
                 && a.Gate? && b.circuit.Open?
                 && b.lastFailure.Some? && a.now - b.lastFailure.value >= OPEN_STATE_TIMEOUT)
  {
    assert (trace + [a])[..|trace|] == trace;
    AtomicSound(clock, trace);
  }

  // ---- What the fine-grained level allows ----

  /** The trace `n` failed probes leave, all at one instant. */
  function FailedProbes(now: int, n: nat): seq<Step> {
    if n == 0 then [] else FailedProbes(now, n - 1) + [Step(now, MarkProbe(false)), Step(now, RecordProbe(false))]
  }

  lemma {:induction false} AfterFailedProbes(clock: int, n: nat)
    ensures Run(Start(clock), FailedProbes(clock, n)) ==
            Some(Machine(clock, BackendState(n == 0, if n >= MAX_FAILURES then Open else Closed,
                                             if n == 0 then None else Some(clock), n, 0, 0), map[], Idle))
  {
    if n > 0 {
      AfterFailedProbes(clock, n - 1);
      var mark, record := Step(clock, MarkProbe(false)), Step(clock, RecordProbe(false));
      RunPair(Run(Start(clock), FailedProbes(clock, n - 1)).value, mark, record);
      RunAppend(Start(clock), FailedProbes(clock, n - 1), [mark, record]);
    }
  }

  /** Request `r` comes in at `t` and gets as far as deciding to set the open circuit half-open. */
  function Decide(t: int, r: RequestId): seq<Step> {
    [Step(t, Arrive(r)), Step(t, PassGate(r)), Step(t, ReadCircuit(r)), Step(t, CheckCooldown(r))]
  }

  /** ... does so, and its upstream answers. */
  function Succeed(t: int, r: RequestId): seq<Step> {
    [Step(t, SetHalfOpen(r)), Step(t, Increment(r)), Step(t, ReportSuccess(r))]
  }

  lemma ArriveAndPass(m: Machine, now: int, r: RequestId)
    requires m.clock <= now && r !in m.requests && Eligible(m.backend, now)
    ensures Run(m, [Step(now, Arrive(r)), Step(now, PassGate(r))]) == Some(Moved(m, now, r, Admitted))
  {
    RunPair(m, Step(now, Arrive(r)), Step(now, PassGate(r)));
    assert m.requests[r := Arrived][r := Admitted] == m.requests[r := Admitted];
  }

  lemma ReadAndCheck(m: Machine, now: int, r: RequestId)
    requires m.clock <= now && At(m, r, Admitted) && m.backend.circuit.Open? && CooledDown(m.backend.lastFailure, now)
    ensures Run(m, [Step(now, ReadCircuit(r)), Step(now, CheckCooldown(r))]) == Some(Moved(m, now, r, MayReopen))
  {
    RunPair(m, Step(now, ReadCircuit(r)), Step(now, CheckCooldown(r)));
    assert m.requests[r := SawOpen][r := MayReopen] == m.requests[r := MayReopen];
  }

  lemma DecideReaches(m: Machine, t: int, r: RequestId)
    requires m.clock <= t && m.backend.circuit.Open? && CooledDown(m.backend.lastFailure, t) && r !in m.requests
    ensures Run(m, Decide(t, r)) == Some(Moved(m, t, r, MayReopen))
  {
    ArriveAndPass(m, t, r);
    ReadAndCheck(Moved(m, t, r, Admitted), t, r);
    RunTwoPairs(m, Step(t, Arrive(r)), Step(t, PassGate(r)), Step(t, ReadCircuit(r)), Step(t, CheckCooldown(r)));
    assert m.requests[r := Admitted][r := MayReopen] == m.requests[r := MayReopen];
  }

  lemma SucceedCloses(m: Machine, t: int, r: RequestId, other: RequestId)
    requires m.clock <= t && At(m, r, MayReopen) && At(m, other, MayReopen) && r != other
    ensures Run(m, Succeed(t, r)).Some?
    ensures Run(m, Succeed(t, r)).value.backend.circuit.Closed? && Run(m, Succeed(t, r)).value.clock == t
    ensures At(Run(m, Succeed(t, r)).value, other, MayReopen)
  {
    var d := Succeed(t, r);
    RunOne(m, d[0]);
    RunSnoc(m, [d[0]], d[1]);
    RunSnoc(m, [d[0], d[1]], d[2]);
    assert [d[0]] + [d[1]] == [d[0], d[1]] && [d[0], d[1]] + [d[2]] == d;
  }

  /** Requests 1 and 2 decide, and 1 then acts and succeeds. */
  function Overtake(t: int): seq<Step> {
    Decide(t, 1) + Decide(t, 2) + Succeed(t, 1)
  }

  lemma OvertakeCloses(m: Machine, t: int)
    requires m.clock <= t && m.backend.circuit.Open? && CooledDown(m.backend.lastFailure, t) && m.requests == map[]
    ensures Run(m, Overtake(t)).Some?
    ensures Run(m, Overtake(t)).value.backend.circuit.Closed? && Run(m, Overtake(t)).value.clock == t
    ensures At(Run(m, Overtake(t)).value, 2, MayReopen)
  {
    DecideReaches(m, t, 1);
    var k := Run(m, Decide(t, 1)).value;
    DecideReaches(k, t, 2);
    RunAppend(m, Decide(t, 1), Decide(t, 2));
    SucceedCloses(Run(k, Decide(t, 2)).value, t, 1, 2);
    RunAppend(m, Decide(t, 1) + Decide(t, 2), Succeed(t, 1));
  }

  /** A stale request can move the circuit from Closed to HalfOpen: two requests decide to set it
      half-open, the first one does and succeeds, and only then the second one acts. */
  lemma ClosedToHalfOpenHappens(clock: int) returns (trace: seq<Step>, s: Step)
    ensures Run(Start(clock), trace).Some? && Run(Start(clock), trace + [s]).Some?
    ensures Run(Start(clock), trace).value.backend.circuit.Closed?
    ensures Run(Start(clock), trace + [s]).value.backend.circuit.HalfOpen?
  {
    var t, probes := clock + OPEN_STATE_TIMEOUT, FailedProbes(clock, MAX_FAILURES);
    AfterFailedProbes(clock, MAX_FAILURES);
    OvertakeCloses(Run(Start(clock), probes).value, t);
    RunAppend(Start(clock), probes, Overtake(t));
    trace, s := probes + Overtake(t), Step(t, SetHalfOpen(2));
    RunSnoc(Start(clock), trace, s);
  }

  /** One more request passing the gate of a half-open backend. */
  function Enter(t: int, r: RequestId): seq<Step> {
    [Step(t, Arrive(r)), Step(t, PassGate(r)), Step(t, ReadCircuit(r)), Step(t, Increment(r))]
  }

  lemma ReadAndIncrement(m: Machine, now: int, r: RequestId)
    requires m.clock <= now && At(m, r, Admitted) && m.backend.circuit.HalfOpen?
    ensures Run(m, [Step(now, ReadCircuit(r)), Step(now, Increment(r))])
            == Some(Moved(m, now, r, InFlight).(backend := Connected(m.backend)))
  {
    RunPair(m, Step(now, ReadCircuit(r)), Step(now, Increment(r)));
    assert m.requests[r := Tracking][r := InFlight] == m.requests[r := InFlight];
  }

  lemma HalfOpenLetsIn(m: Machine, r: RequestId)
    requires m.backend.circuit.HalfOpen? && r !in m.requests
    ensures Run(m, Enter(m.clock, r)) == Some(Moved(m, m.clock, r, InFlight).(backend := Connected(m.backend)))
  {
    ArriveAndPass(m, m.clock, r);
    ReadAndIncrement(Moved(m, m.clock, r, Admitted), m.clock, r);
    RunTwoPairs(m, Step(m.clock, Arrive(r)), Step(m.clock, PassGate(r)),
                Step(m.clock, ReadCircuit(r)), Step(m.clock, Increment(r)));
    assert m.requests[r := Admitted][r := InFlight] == m.requests[r := InFlight];
  }

  /** A half-open trial is not one request: any number of requests can be in flight to a backend
      that is still HalfOpen. */
  lemma {:induction false} TrialIsNotSingle(clock: int, n: nat) returns (trace: seq<Step>)
    ensures Run(Start(clock), trace).Some?
    ensures Run(Start(clock), trace).value.backend.circuit.HalfOpen?
    ensures Run(Start(clock), trace).value.backend.active == n
    ensures forall r :: r in Run(Start(clock), trace).value.requests ==> r <= n
  {
    if n == 0 {
      var t, probes := clock + OPEN_STATE_TIMEOUT, FailedProbes(clock, MAX_FAILURES);
      AfterFailedProbes(clock, MAX_FAILURES);
      DecideReaches(Run(Start(clock), probes).value, t, 0);
      RunAppend(Start(clock), probes, Decide(t, 0));
      RunSnoc(Start(clock), probes + Decide(t, 0), Step(t, SetHalfOpen(0)));
      trace := probes + Decide(t, 0) + [Step(t, SetHalfOpen(0))];
    } else {
      var init := TrialIsNotSingle(clock, n - 1);
      var m := Run(Start(clock), init).value;
      HalfOpenLetsIn(m, n);
      RunAppend(Start(clock), init, Enter(m.clock, n));
      trace := init + Enter(m.clock, n);
      forall r | r in Run(Start(clock), trace).value.requests
        ensures r <= n
      {
        assert r in m.requests || r == n;
      }
    }
  }

  // ---- Recovery ----

  /** In every run, a backend whose last probe found it well and which has had no failure for the
      timeout is eligible, whatever state its circuit is in. */
  lemma RecoveredIsEligible(clock: int, trace: seq<Step>, now: int)
    requires Run(Start(clock), trace).Some?
    requires LastMark(trace) && CooledDown(LastFailureIn(trace), now)
    ensures Eligible(Run(Start(clock), trace).value.backend, now)
  {
    FieldsMatchHistory(clock, trace);
  }
}
