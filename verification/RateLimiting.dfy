/**
  The sliding-window rate limiter (middleware/ratelimit.go).

  `LimiterState` and the functions on it specify the stored, pruned log.  `Reference` is the
  limiter one would write without pruning: it keeps every admission for ever.  The refinement
  theorem says the two decide alike while no window is enlarged, and a second theorem says exactly
  when they do in any run at all.
 */
module RateLimiting {

  datatype LimiterState = LimiterState(
    requests: map<string, seq<int>>,
    maxRequests: int,
    window: int,
    enabled: bool)

  /** The entries younger than the window. */
  function Young(times: seq<int>, now: int, window: int): seq<int> {
    if times == [] then []
    else
      Young(times[..|times| - 1], now, window) +
      if now - times[|times| - 1] < window then [times[|times| - 1]] else []
  }

  lemma CountSnoc<T>(s: seq<T>, x: T, t: T)
    ensures multiset(s + [x])[t] == multiset(s)[t] + if x == t then 1 else 0
  {
  }

  /** Each entry is kept as often as it occurs if it is younger than the window, and dropped otherwise. */
  lemma {:induction false} YoungCounts(times: seq<int>, now: int, window: int, t: int)
    ensures multiset(Young(times, now, window))[t] == if now - t < window then multiset(times)[t] else 0
  {
    if times != [] {
      var n := |times| - 1;
      YoungCounts(times[..n], now, window, t);
      assert times == times[..n] + [times[n]];
      CountSnoc(times[..n], times[n], t);
      CountSnoc(Young(times[..n], now, window), times[n], t);
      assert Young(times[..n], now, window) + [] == Young(times[..n], now, window);
    }
  }

  lemma YoungIsEmpty(times: seq<int>, now: int, window: int)
    ensures Young(times, now, window) == [] <==> forall t :: t in times ==> now - t >= window
  {
    var young := Young(times, now, window);
    forall t
      ensures t in young <==> t in times && now - t < window
    {
      YoungCounts(times, now, window, t);
      assert t in young <==> t in multiset(young);
      assert t in times <==> t in multiset(times);
    }
    if young != [] { assert young[0] in young; }
  }

  /** Go's map lookup: a missing key reads as an empty slice. */
  function Stored(requests: map<string, seq<int>>, ip: string): seq<int> {
    if ip in requests then requests[ip] else []
  }

  function Allowed(s: LimiterState, ip: string, now: int): bool {
    !s.enabled || |Young(Stored(s.requests, ip), now, s.window)| < s.maxRequests
  }

  function AfterAllow(s: LimiterState, ip: string, now: int): LimiterState {
    if !s.enabled then s
    else
      var valid := Young(Stored(s.requests, ip), now, s.window);
      s.(requests := s.requests[ip := if |valid| >= s.maxRequests then valid else valid + [now]])
  }

  /** One tick of the background goroutine. */
  function AfterCleanup(s: LimiterState, now: int): LimiterState {
    s.(requests := map ip | ip in s.requests && Young(s.requests[ip], now, s.window) != [] ::
                     Young(s.requests[ip], now, s.window))
  }

  class RateLimiter {
    var requests: map<string, seq<int>>
    var maxRequests: int
    var window: int
    var enabled: bool

    constructor (maxRequests: int, window: int, enabled: bool)
      ensures State() == LimiterState(map[], maxRequests, window, enabled)
      ensures requests == map[]
      ensures this.maxRequests == maxRequests && this.window == window && this.enabled == enabled
    {
      requests := map[];
      this.maxRequests, this.window, this.enabled := maxRequests, window, enabled;
    }

    function State(): LimiterState
      reads this
    {
      LimiterState(requests, maxRequests, window, enabled)
    }

    /** The filtering loop that Allow and cleanup share. */
    method Prune(times: seq<int>, now: int) returns (valid: seq<int>)
      ensures valid == Young(times, now, window)
      ensures forall t :: multiset(valid)[t] == if now - t < window then multiset(times)[t] else 0
    {
      valid := [];
      for n := 0 to |times|
        invariant valid == Young(times[..n], now, window)
      {
        assert times[..n + 1][..n] == times[..n];
        if now - times[n] < window {
          valid := valid + [times[n]];
        }
      }
      assert times[..|times|] == times;
      forall t
        ensures multiset(valid)[t] == if now - t < window then multiset(times)[t] else 0
      {
        YoungCounts(times, now, window, t);
      }
    }

    method Allow(ip: string, now: int) returns (ok: bool)
      modifies this`requests
      ensures ok == Allowed(old(State()), ip, now)
      ensures State() == AfterAllow(old(State()), ip, now)
      ensures !enabled ==> ok && requests == old(requests)
      ensures enabled ==>
                var valid := Young(if ip in old(requests) then old(requests)[ip] else [], now, window);
                && ok == (|valid| < maxRequests)
                && requests == old(requests)[ip := if ok then valid + [now] else valid]
    {
      if !enabled {
        return true;
      }
      var times := if ip in requests then requests[ip] else [];
      var valid := Prune(times, now);
      if |valid| >= maxRequests {
        requests := requests[ip := valid];
        return false;
      }
      requests := requests[ip := valid + [now]];
      return true;
    }

    /** The keys are visited in any order, and deleted or rewritten on the way. */
    method Cleanup(now: int)
      modifies this`requests
      ensures State() == AfterCleanup(old(State()), now)
      ensures forall ip :: ip in requests <==>
                ip in old(requests) && exists t :: t in old(requests)[ip] && now - t < window
      ensures forall ip :: ip in requests ==> requests[ip] == Young(old(requests)[ip], now, window)
    {
      var todo := requests.Keys;
      while todo != {}
        invariant todo <= old(requests).Keys
        invariant State() == old(State()).(requests := requests)
        invariant forall ip :: ip in requests <==>
                    ip in old(requests) && (ip in todo || Young(old(requests)[ip], now, window) != [])
        invariant forall ip :: ip in requests ==>
                    requests[ip] == if ip in todo then old(requests)[ip] else Young(old(requests)[ip], now, window)
      {
        var ip :| ip in todo;
        todo := todo - {ip};
        var valid := Prune(requests[ip], now);
        if |valid| == 0 {
          requests := requests - {ip};
        } else {
          requests := requests[ip := valid];
        }
      }
      assert requests == AfterCleanup(old(State()), now).requests;
      forall ip | ip in old(requests)
        ensures Young(old(requests)[ip], now, window) == [] <==>
                forall t :: t in old(requests)[ip] ==> now - t >= window
      {
        YoungIsEmpty(old(requests)[ip], now, window);
      }
    }

    method SetEnabled(enabled: bool)
      modifies this`enabled
      ensures State() == old(State()).(enabled := enabled)
      ensures this.enabled == enabled
    {
      this.enabled := enabled;
    }

    method SetLimits(maxRequests: int, window: int)
      modifies this`maxRequests, this`window
      ensures State() == old(State()).(maxRequests := maxRequests, window := window)
      ensures this.maxRequests == maxRequests && this.window == window
    {
      this.maxRequests, this.window := maxRequests, window;
    }
  }

  // ---- Runs ----

  datatype Event =
    | Request(ip: string)
    | Tick
    | SetLimits(maxRequests: int, window: int)
    | SetEnabled(on: bool)

  datatype Timed = Timed(now: int, event: Event)

  function Step(s: LimiterState, e: Timed): LimiterState {
    match e.event
    case Request(ip) => AfterAllow(s, ip, e.now)
    case Tick => AfterCleanup(s, e.now)
    case SetLimits(maxRequests, window) => s.(maxRequests := maxRequests, window := window)
    case SetEnabled(on) => s.(enabled := on)
  }

  function Run(s: LimiterState, trace: seq<Timed>): LimiterState {
    if trace == [] then s else Step(Run(s, trace[..|trace| - 1]), trace[|trace| - 1])
  }

  function New(maxRequests: int, window: int, enabled: bool): LimiterState {
    LimiterState(map[], maxRequests, window, enabled)
  }

  /** The limiter itself goes through the events of a run; `admitted` are the instants at which, being on,
      it lets a request of `ip` through. */
  method Replay(limiter: RateLimiter, trace: seq<Timed>, ip: string) returns (admitted: seq<int>)
    modifies limiter
    ensures limiter.State() == Run(old(limiter.State()), trace)
    ensures admitted == Admitted(old(limiter.State()), trace, ip)
  {
    admitted := [];
    for n := 0 to |trace|
      invariant limiter.State() == Run(old(limiter.State()), trace[..n])
      invariant admitted == Admitted(old(limiter.State()), trace[..n], ip)
    {
      assert trace[..n + 1][..n] == trace[..n];
      var now := trace[n].now;
      match trace[n].event {
        case Request(from) =>
          var on := limiter.enabled;
          var ok := limiter.Allow(from, now);
          if on && ok && from == ip {
            admitted := admitted + [now];
          }
        case Tick =>
          limiter.Cleanup(now);
        case SetLimits(maxRequests, window) =>
          limiter.SetLimits(maxRequests, window);
        case SetEnabled(on) =>
          limiter.SetEnabled(on);
      }
    }
    assert trace[..|trace|] == trace;
  }

  /** The limiter without pruning: `history` holds every recorded admission. */
  datatype Reference = Reference(history: map<string, seq<int>>, maxRequests: int, window: int, enabled: bool)

  function NewReference(maxRequests: int, window: int, enabled: bool): Reference {
    Reference(map[], maxRequests, window, enabled)
  }

  /** Fewer than maxRequests admissions in the whole history are younger than the window. */
  function ReferenceAllows(r: Reference, ip: string, now: int): bool {
    !r.enabled || |Young(Stored(r.history, ip), now, r.window)| < r.maxRequests
  }

  function ReferenceStep(r: Reference, e: Timed): Reference {
    match e.event
    case Request(ip) =>
      if r.enabled && ReferenceAllows(r, ip, e.now)
      then r.(history := r.history[ip := Stored(r.history, ip) + [e.now]]) else r
    case Tick => r
    case SetLimits(maxRequests, window) => r.(maxRequests := maxRequests, window := window)
    case SetEnabled(on) => r.(enabled := on)
  }

  function ReferenceRun(r: Reference, trace: seq<Timed>): Reference {
    if trace == [] then r else ReferenceStep(ReferenceRun(r, trace[..|trace| - 1]), trace[|trace| - 1])
  }

  /** The clock does not run backwards. */
  predicate Timely(trace: seq<Timed>) {
    trace == [] ||
    (var n := |trace| - 1;
     && Timely(trace[..n])
     && (n > 0 ==> trace[n - 1].now <= trace[n].now))
  }

  /** No SetLimits enlarges the window. */
  predicate NeverEnlarges(s: LimiterState, trace: seq<Timed>) {
    trace == [] ||
    (var n := |trace| - 1;
     && NeverEnlarges(s, trace[..n])
     && (trace[n].event.SetLimits? ==> trace[n].event.window <= Run(s, trace[..n]).window))
  }

  lemma {:induction false} TimelyIff(trace: seq<Timed>)
    ensures Timely(trace) <==> forall i, j :: 0 <= i < j < |trace| ==> trace[i].now <= trace[j].now
  {
    if trace != [] {
      var n := |trace| - 1;
      TimelyIff(trace[..n]);
      assert forall i :: 0 <= i < n ==> trace[..n][i] == trace[i];
      if Timely(trace) && n > 0 {
        forall i | 0 <= i < n
          ensures trace[i].now <= trace[n].now
        {
          assert i < n - 1 ==> trace[..n][i].now <= trace[..n][n - 1].now;
        }
      }
    }
  }

  /** Event i does not set a larger window than the one in force. */
  predicate KeepsWindow(s: LimiterState, trace: seq<Timed>, i: nat)
    requires i < |trace|
  {
    trace[i].event.SetLimits? ==> trace[i].event.window <= Run(s, trace[..i]).window
  }

  lemma {:induction false} NeverEnlargesIff(s: LimiterState, trace: seq<Timed>)
    ensures NeverEnlarges(s, trace) <==> forall i :: 0 <= i < |trace| ==> KeepsWindow(s, trace, i)
  {
    if trace != [] {
      var n := |trace| - 1;
      var init := trace[..n];
      NeverEnlargesIff(s, init);
      assert NeverEnlarges(s, trace) <==> NeverEnlarges(s, init) && KeepsWindow(s, trace, n);
      forall i | 0 <= i < n
        ensures KeepsWindow(s, init, i) <==> KeepsWindow(s, trace, i)
      {
        assert init[..i] == trace[..i] && init[i] == trace[i];
      }
    }
  }

  predicate Wellbehaved(s: LimiterState, trace: seq<Timed>) {
    Timely(trace) && NeverEnlarges(s, trace)
  }

  // ---- Pruning forgets nothing that counts ----

  predicate Ordered(times: seq<int>) {
    forall i, j :: 0 <= i < j < |times| ==> times[i] <= times[j]
  }

  lemma {:induction false} YoungAppend(a: seq<int>, b: seq<int>, now: int, window: int)
    ensures Young(a + b, now, window) == Young(a, now, window) + Young(b, now, window)
  {
    if b == [] {
      assert a + b == a;
    } else {
      YoungAppend(a, b[..|b| - 1], now, window);
      assert (a + b)[..|a + b| - 1] == a + b[..|b| - 1];
    }
  }

  lemma {:induction false} AllOld(times: seq<int>, now: int, window: int)
    requires forall i :: 0 <= i < |times| ==> now - times[i] >= window
    ensures Young(times, now, window) == []
  {
    if times != [] { AllOld(times[..|times| - 1], now, window); }
  }

  lemma {:induction false} AllYoung(times: seq<int>, now: int, window: int)
    requires forall i :: 0 <= i < |times| ==> now - times[i] < window
    ensures Young(times, now, window) == times
  {
    if times != [] { AllYoung(times[..|times| - 1], now, window); }
  }

  lemma YoungSplit(times: seq<int>, k: nat, now: int, window: int)
    requires k <= |times|
    requires forall i :: 0 <= i < k ==> now - times[i] >= window
    requires forall i :: k <= i < |times| ==> now - times[i] < window
    ensures Young(times, now, window) == times[k..]
  {
    var old', young := times[..k], times[k..];
    AllOld(old', now, window);
    AllYoung(young, now, window);
    YoungAppend(old', young, now, window);
    assert times == old' + young;
  }

  /** In an ordered log the young entries are the last ones. */
  lemma YoungIsSuffix(times: seq<int>, now: int, window: int)
    requires Ordered(times)
    ensures var k := |times| - |Young(times, now, window)|;
            && 0 <= k
            && Young(times, now, window) == times[k..]
            && (forall i :: 0 <= i < k ==> now - times[i] >= window)
            && (forall i :: k <= i < |times| ==> now - times[i] < window)
  {
    var k := 0;
    while k < |times| && now - times[k] >= window
      invariant 0 <= k <= |times|
      invariant forall i :: 0 <= i < k ==> now - times[i] >= window
    {
      k := k + 1;
    }
    forall i | k <= i < |times|
      ensures now - times[i] < window
    {
      if k < i { assert times[k] <= times[i]; }
    }
    YoungSplit(times, k, now, window);
  }

  /** The log is the end of a history in order of time. */
  predicate IsSuffix(log: seq<int>, history: seq<int>) {
    Ordered(history) && |log| <= |history| && log == history[|history| - |log|..]
  }

  /** ... and at `clock` everything before that is too old. */
  predicate Remembers(log: seq<int>, history: seq<int>, clock: int, window: int) {
    && IsSuffix(log, history)
    && (forall i :: 0 <= i < |history| ==> history[i] <= clock)
    && forall i :: 0 <= i < |history| - |log| ==> clock - history[i] >= window
  }

  lemma RemembersYoung(log: seq<int>, history: seq<int>, clock: int, window: int, now: int)
    requires Remembers(log, history, clock, window) && clock <= now
    ensures Young(log, now, window) == Young(history, now, window)
    ensures Remembers(Young(log, now, window), history, now, window)
  {
    var dropped := history[..|history| - |log|];
    assert history == dropped + log;
    YoungAppend(dropped, log, now, window);
    AllOld(dropped, now, window);
    YoungIsSuffix(history, now, window);
  }

  lemma RemembersAppend(log: seq<int>, history: seq<int>, now: int, window: int)
    requires Remembers(log, history, now, window)
    ensures Remembers(log + [now], history + [now], now, window)
  {
  }

  ghost predicate Refines(s: LimiterState, r: Reference, clock: int) {
    && s.maxRequests == r.maxRequests && s.window == r.window && s.enabled == r.enabled
    && forall ip :: Remembers(Stored(s.requests, ip), Stored(r.history, ip), clock, s.window)
  }

  lemma RefinesLater(s: LimiterState, r: Reference, clock: int, now: int, window: int)
    requires Refines(s, r, clock) && clock <= now && window <= s.window
    ensures forall ip :: Remembers(Stored(s.requests, ip), Stored(r.history, ip), now, window)
  {
  }

  lemma AllowRefines(s: LimiterState, r: Reference, clock: int, ip: string, now: int)
    requires Refines(s, r, clock) && clock <= now
    ensures Allowed(s, ip, now) == ReferenceAllows(r, ip, now)
    ensures Refines(AfterAllow(s, ip, now), ReferenceStep(r, Timed(now, Request(ip))), now)
  {
    var s', r' := AfterAllow(s, ip, now), ReferenceStep(r, Timed(now, Request(ip)));
    RemembersYoung(Stored(s.requests, ip), Stored(r.history, ip), clock, s.window, now);
    RemembersAppend(Young(Stored(s.requests, ip), now, s.window), Stored(r.history, ip), now, s.window);
    RefinesLater(s, r, clock, now, s.window);
    forall other
      ensures Remembers(Stored(s'.requests, other), Stored(r'.history, other), now, s.window)
    {
      if other != ip {
        assert Stored(s'.requests, other) == Stored(s.requests, other);
        assert Stored(r'.history, other) == Stored(r.history, other);
      }
    }
  }

  lemma CleanupRefines(s: LimiterState, r: Reference, clock: int, now: int)
    requires Refines(s, r, clock) && clock <= now
    ensures Refines(AfterCleanup(s, now), r, now)
  {
    forall ip
      ensures Remembers(Stored(AfterCleanup(s, now).requests, ip), Stored(r.history, ip), now, s.window)
    {
      RemembersYoung(Stored(s.requests, ip), Stored(r.history, ip), clock, s.window, now);
      assert Stored(AfterCleanup(s, now).requests, ip) == Young(Stored(s.requests, ip), now, s.window);
    }
  }

  /** The instant of the last event. */
  function Clock(trace: seq<Timed>, start: int): int {
    if trace == [] then start else trace[|trace| - 1].now
  }

  lemma {:induction false} RunRefines(maxRequests: int, window: int, enabled: bool, trace: seq<Timed>, start: int)
    requires Wellbehaved(New(maxRequests, window, enabled), trace)
    requires trace != [] ==> start <= trace[0].now
    ensures Refines(Run(New(maxRequests, window, enabled), trace),
                    ReferenceRun(NewReference(maxRequests, window, enabled), trace), Clock(trace, start))
  {
    if trace != [] {
      var init, e := trace[..|trace| - 1], trace[|trace| - 1];
      RunRefines(maxRequests, window, enabled, init, start);
      var s := Run(New(maxRequests, window, enabled), init);
      var r := ReferenceRun(NewReference(maxRequests, window, enabled), init);
      match e.event
      case Request(ip) => AllowRefines(s, r, Clock(init, start), ip, e.now);
      case Tick => CleanupRefines(s, r, Clock(init, start), e.now);
      case SetLimits(_, w) => RefinesLater(s, r, Clock(init, start), e.now, w);
      case SetEnabled(_) => RefinesLater(s, r, Clock(init, start), e.now, s.window);
    }
  }

  lemma RunSnoc(s: LimiterState, r: Reference, trace: seq<Timed>, e: Timed)
    ensures Run(s, trace + [e]) == Step(Run(s, trace), e)
    ensures ReferenceRun(r, trace + [e]) == ReferenceStep(ReferenceRun(r, trace), e)
  {
    assert (trace + [e])[..|trace|] == trace;
  }

  /** The instants at which the limiter, being on, let a request of this address through. */
  function Admitted(s: LimiterState, trace: seq<Timed>, ip: string): seq<int> {
    if trace == [] then []
    else
      var init, e := trace[..|trace| - 1], trace[|trace| - 1];
      Admitted(s, init, ip) +
      if e.event == Request(ip) && Run(s, init).enabled && Allowed(Run(s, init), ip, e.now) then [e.now] else []
  }

  lemma AdmittedStep(s: LimiterState, r: Reference, e: Timed, ip: string)
    requires s.enabled == r.enabled
    requires e.event == Request(ip) ==> Allowed(s, ip, e.now) == ReferenceAllows(r, ip, e.now)
    ensures Stored(ReferenceStep(r, e).history, ip) == Stored(r.history, ip) +
            if e.event == Request(ip) && s.enabled && Allowed(s, ip, e.now) then [e.now] else []
  {
  }

  lemma {:induction false} AdmittedIsHistory(maxRequests: int, window: int, enabled: bool, trace: seq<Timed>,
                                             ip: string)
    requires Wellbehaved(New(maxRequests, window, enabled), trace)
    ensures Admitted(New(maxRequests, window, enabled), trace, ip)
            == Stored(ReferenceRun(NewReference(maxRequests, window, enabled), trace).history, ip)
  {
    if trace != [] {
      var init, e, start := trace[..|trace| - 1], trace[|trace| - 1], trace[0].now;
      var s := Run(New(maxRequests, window, enabled), init);
      var r := ReferenceRun(NewReference(maxRequests, window, enabled), init);
      AdmittedIsHistory(maxRequests, window, enabled, init, ip);
      RunRefines(maxRequests, window, enabled, init, start);
      AllowRefines(s, r, Clock(init, start), ip, e.now);
      AdmittedStep(s, r, e, ip);
    }
  }

  lemma NextRequest(maxRequests: int, window: int, enabled: bool, trace: seq<Timed>, ip: string, now: int)
    requires Wellbehaved(New(maxRequests, window, enabled), trace + [Timed(now, Request(ip))])
    ensures Wellbehaved(New(maxRequests, window, enabled), trace)
    ensures Refines(Run(New(maxRequests, window, enabled), trace),
                    ReferenceRun(NewReference(maxRequests, window, enabled), trace), now)
    ensures Allowed(Run(New(maxRequests, window, enabled), trace), ip, now)
            == ReferenceAllows(ReferenceRun(NewReference(maxRequests, window, enabled), trace), ip, now)
  {
    var whole, s := trace + [Timed(now, Request(ip))], New(maxRequests, window, enabled);
    assert whole[..|whole| - 1] == trace;
    var start := if trace == [] then now else trace[0].now;
    assert trace != [] ==> whole[|trace| - 1] == trace[|trace| - 1];
    RunRefines(maxRequests, window, enabled, trace, start);
    var k, r := Run(s, trace), ReferenceRun(NewReference(maxRequests, window, enabled), trace);
    AllowRefines(k, r, Clock(trace, start), ip, now);
    RefinesLater(k, r, Clock(trace, start), now, k.window);
  }

  /** After any run of requests from any addresses, cleanup ticks, switching on and off, and limit
      changes that never enlarge the window, a request is let through exactly when the limiter is off
      or fewer than maxRequests of that address's admissions over the entire run are younger than the
      window: what has been pruned meanwhile makes no difference. */
  lemma DecisionsMatchHistory(maxRequests: int, window: int, enabled: bool, trace: seq<Timed>, ip: string, now: int)
    requires Wellbehaved(New(maxRequests, window, enabled), trace + [Timed(now, Request(ip))])
    ensures var s, admitted := Run(New(maxRequests, window, enabled), trace),
                               Admitted(New(maxRequests, window, enabled), trace, ip);
            Allowed(s, ip, now) <==> !s.enabled || |Young(admitted, now, s.window)| < s.maxRequests
  {
    NextRequest(maxRequests, window, enabled, trace, ip, now);
    AdmittedIsHistory(maxRequests, window, enabled, trace, ip);
  }

  /** The events that concern one address: its own requests and the changes of settings. */
  function Only(trace: seq<Timed>, ip: string): seq<Timed> {
    if trace == [] then []
    else
      var e := trace[|trace| - 1];
      Only(trace[..|trace| - 1], ip) +
      if e.event.Tick? || (e.event.Request? && e.event.ip != ip) then [] else [e]
  }

  /** Every event that concerns the address is kept as often as it occurs, and no other. */
  lemma {:induction false} OnlyKeeps(trace: seq<Timed>, ip: string, e: Timed)
    ensures multiset(Only(trace, ip))[e] ==
            if e.event == Request(ip) || e.event.SetLimits? || e.event.SetEnabled? then multiset(trace)[e] else 0
  {
    if trace != [] {
      var n := |trace| - 1;
      OnlyKeeps(trace[..n], ip, e);
      assert trace == trace[..n] + [trace[n]];
      CountSnoc(trace[..n], trace[n], e);
      CountSnoc(Only(trace[..n], ip), trace[n], e);
      assert Only(trace[..n], ip) + [] == Only(trace[..n], ip);
    }
  }

  predicate SameFor(a: Reference, b: Reference, ip: string) {
    && Stored(a.history, ip) == Stored(b.history, ip)
    && a.maxRequests == b.maxRequests && a.window == b.window && a.enabled == b.enabled
  }

  lemma SameStep(a: Reference, b: Reference, e: Timed, ip: string)
    requires SameFor(a, b, ip)
    ensures SameFor(ReferenceStep(a, e), ReferenceStep(b, e), ip)
    ensures e.event.Tick? || (e.event.Request? && e.event.ip != ip) ==> SameFor(ReferenceStep(a, e), b, ip)
  {
  }

  lemma {:induction false} OthersLeaveNoTrace(r: Reference, trace: seq<Timed>, ip: string)
    ensures SameFor(ReferenceRun(r, trace), ReferenceRun(r, Only(trace, ip)), ip)
  {
    if trace != [] {
      var init, e := trace[..|trace| - 1], trace[|trace| - 1];
      OthersLeaveNoTrace(r, init, ip);
      SameStep(ReferenceRun(r, init), ReferenceRun(r, Only(init, ip)), e, ip);
      RunSnoc(New(0, 0, false), r, Only(init, ip), e);
      assert Only(init, ip) + [] == Only(init, ip);
    }
  }

  lemma WellbehavedSnoc(s: LimiterState, trace: seq<Timed>, e: Timed)
    requires Wellbehaved(s, trace) && (trace != [] ==> trace[|trace| - 1].now <= e.now)
    requires e.event.SetLimits? ==> e.event.window <= Run(s, trace).window
    ensures Wellbehaved(s, trace + [e]) && Run(s, trace + [e]) == Step(Run(s, trace), e)
  {
    var whole := trace + [e];
    assert whole[..|trace|] == trace;
    assert trace != [] ==> whole[|trace| - 1] == trace[|trace| - 1];
  }

  /** `kept` is a wellbehaved run that ends no later than `trace`, under the same window. */
  predicate KeepsUp(s: LimiterState, kept: seq<Timed>, trace: seq<Timed>) {
    && Wellbehaved(s, kept)
    && (kept != [] ==> trace != [] && kept[|kept| - 1].now <= trace[|trace| - 1].now)
    && Run(s, kept).window == Run(s, trace).window
  }

  lemma KeepsUpStep(s: LimiterState, kept: seq<Timed>, init: seq<Timed>, e: Timed)
    requires KeepsUp(s, kept, init) && Wellbehaved(s, init + [e])
    ensures KeepsUp(s, kept + [e], init + [e])
    ensures e.event.Request? || e.event.Tick? ==> KeepsUp(s, kept, init + [e])
  {
    var whole := init + [e];
    assert whole[..|init|] == init;
    assert init != [] ==> whole[|init| - 1] == init[|init| - 1];
    WellbehavedSnoc(s, kept, e);
  }

  /** Leaving out other addresses and ticks. */
  lemma {:induction false} OnlyKeepsUp(s: LimiterState, trace: seq<Timed>, ip: string)
    requires Wellbehaved(s, trace)
    ensures KeepsUp(s, Only(trace, ip), trace)
  {
    if trace != [] {
      var init, e := trace[..|trace| - 1], trace[|trace| - 1];
      OnlyKeepsUp(s, init, ip);
      assert trace == init + [e] && Only(init, ip) + [] == Only(init, ip);
      KeepsUpStep(s, Only(init, ip), init, e);
    }
  }

  /** Neither other addresses nor cleanup ticks change a decision: it is the one the limiter takes
      when they are left out of the run altogether. */
  lemma DecisionsIgnoreOthers(maxRequests: int, window: int, enabled: bool, trace: seq<Timed>, ip: string, now: int)
    requires Wellbehaved(New(maxRequests, window, enabled), trace + [Timed(now, Request(ip))])
    ensures Allowed(Run(New(maxRequests, window, enabled), trace), ip, now)
            == Allowed(Run(New(maxRequests, window, enabled), Only(trace, ip)), ip, now)
  {
    var s, request := New(maxRequests, window, enabled), Timed(now, Request(ip));
    NextRequest(maxRequests, window, enabled, trace, ip, now);
    OthersLeaveNoTrace(NewReference(maxRequests, window, enabled), trace, ip);
    OnlyKeepsUp(s, trace + [request], ip);
    assert (trace + [request])[..|trace|] == trace;
    assert Only(trace + [request], ip) == Only(trace, ip) + [request];
    NextRequest(maxRequests, window, enabled, Only(trace, ip), ip, now);
  }

  // ---- Exactly when pruning shows ----

  predicate Admits(times: seq<int>, now: int, window: int, limit: int) {
    |Young(times, now, window)| < limit
  }

  lemma NoneYoung(times: seq<int>, now: int, window: int)
    requires Ordered(times)
    ensures |Young(times, now, window)| == 0 <==> times == [] || now - times[|times| - 1] >= window
  {
    YoungIsSuffix(times, now, window);
  }

  /** The history counts more than the log exactly if its youngest dropped entry is young again. */
  lemma DroppedCount(log: seq<int>, history: seq<int>, now: int, window: int)
    requires IsSuffix(log, history)
    ensures |Young(log, now, window)| <= |Young(history, now, window)|
    ensures |Young(log, now, window)| == |Young(history, now, window)|
            <==> |log| == |history| || now - history[|history| - |log| - 1] >= window
  {
    var lacking := |history| - |log|;
    assert history == history[..lacking] + log;
    YoungAppend(history[..lacking], log, now, window);
    NoneYoung(history[..lacking], now, window);
  }

  /** Under any window, perhaps an enlarged one, a log and a history it is the end of decide alike for
      every limit if and only if nothing was dropped or the youngest dropped entry is as old as that
      window. */
  lemma AgreementIff(log: seq<int>, history: seq<int>, now: int, window: int)
    requires IsSuffix(log, history)
    ensures (forall limit :: Admits(log, now, window, limit) <==> Admits(history, now, window, limit))
            <==> |log| == |history| || now - history[|history| - |log| - 1] >= window
  {
    DroppedCount(log, history, now, window);
    var limit := |Young(log, now, window)| + 1;
    assert Admits(log, now, window, limit);
    assert |Young(history, now, window)| != |Young(log, now, window)| ==> !Admits(history, now, window, limit);
  }

  /** For one limit: they differ exactly if the entry that many places from the end of the history
      was dropped and is younger than the window. */
  lemma DifferenceIff(log: seq<int>, history: seq<int>, now: int, window: int, limit: int)
    requires IsSuffix(log, history)
    ensures (Admits(log, now, window, limit) <==> Admits(history, now, window, limit))
            <==> !(|log| < limit <= |history| && now - history[|history| - limit] < window)
  {
    YoungIsSuffix(history, now, window);
    assert Ordered(log);
    YoungIsSuffix(log, now, window);
    DroppedCount(log, history, now, window);
    if 0 < limit <= |log| {
      assert log[|log| - limit] == history[|history| - limit];
    }
  }

  lemma PrunedIsSuffix(log: seq<int>, history: seq<int>, now: int, window: int)
    requires IsSuffix(log, history)
    ensures IsSuffix(Young(log, now, window), history)
  {
    assert Ordered(log);
    YoungIsSuffix(log, now, window);
  }

  lemma SuffixAppend(log: seq<int>, history: seq<int>, now: int)
    requires IsSuffix(log, history) && NoLater(history, now)
    ensures IsSuffix(log + [now], history + [now])
  {
  }

  predicate NoLater(times: seq<int>, now: int) {
    forall i :: 0 <= i < |times| ==> times[i] <= now
  }

  lemma AllowSuffix(s: LimiterState, now: int, ip: string, history: seq<int>)
    requires IsSuffix(Stored(s.requests, ip), history) && NoLater(history, now)
    ensures var history' := history + if s.enabled && Allowed(s, ip, now) then [now] else [];
            IsSuffix(Stored(AfterAllow(s, ip, now).requests, ip), history') && NoLater(history', now)
  {
    var valid := Young(Stored(s.requests, ip), now, s.window);
    PrunedIsSuffix(Stored(s.requests, ip), history, now, s.window);
    SuffixAppend(valid, history, now);
    assert history + [] == history;
  }

  lemma SuffixStep(s: LimiterState, e: Timed, ip: string, history: seq<int>)
    requires IsSuffix(Stored(s.requests, ip), history) && NoLater(history, e.now)
    ensures var history' := history +
                            if e.event == Request(ip) && s.enabled && Allowed(s, ip, e.now) then [e.now] else [];
            IsSuffix(Stored(Step(s, e).requests, ip), history') && NoLater(history', e.now)
  {
    assert history + [] == history;
    match e.event
    case Request(other) =>
      if other == ip { AllowSuffix(s, e.now, ip, history); }
    case Tick =>
      PrunedIsSuffix(Stored(s.requests, ip), history, e.now, s.window);
      assert Stored(Step(s, e).requests, ip) == Young(Stored(s.requests, ip), e.now, s.window);
    case _ =>
  }

  /** In every run, windows enlarged or not, the stored log is the end of the admissions. */
  lemma {:induction false} LogEndsHistory(maxRequests: int, window: int, enabled: bool, trace: seq<Timed>, ip: string)
    requires Timely(trace)
    ensures var admitted := Admitted(New(maxRequests, window, enabled), trace, ip);
            && IsSuffix(Stored(Run(New(maxRequests, window, enabled), trace).requests, ip), admitted)
            && (if trace == [] then admitted == [] else NoLater(admitted, trace[|trace| - 1].now))
  {
    if trace != [] {
      var s, init, e := New(maxRequests, window, enabled), trace[..|trace| - 1], trace[|trace| - 1];
      LogEndsHistory(maxRequests, window, enabled, init, ip);
      assert NoLater(Admitted(s, init, ip), e.now);
      SuffixStep(Run(s, init), e, ip, Admitted(s, init, ip));
    }
  }

  /** Event e, met in state s, prunes the log of this address. */
  predicate Prunes(s: LimiterState, e: Timed, ip: string) {
    e.event.Tick? || (e.event == Request(ip) && s.enabled)
  }

  /** Event e, met in state s, prunes the log, and admission number j is then as old as the window. */
  predicate Forgets(s: LimiterState, e: Timed, ip: string, admitted: seq<int>, j: nat) {
    Prunes(s, e, ip) && j < |admitted| && e.now - admitted[j] >= s.window
  }

  /** Some event of the run, later than admission number j, has forgotten it. */
  predicate Forgotten(s: LimiterState, trace: seq<Timed>, ip: string, j: nat) {
    trace != [] &&
    (var init := trace[..|trace| - 1];
     || Forgotten(s, init, ip, j)
     || Forgets(Run(s, init), trace[|trace| - 1], ip, Admitted(s, init, ip), j))
  }

  /** Pruning drops exactly the entries that are too old. */
  lemma PruneDrops(log: seq<int>, history: seq<int>, now: int, window: int, j: nat)
    requires IsSuffix(log, history) && j < |history|
    ensures |Young(log, now, window)| <= |log|
    ensures j < |history| - |Young(log, now, window)| <==> j < |history| - |log| || now - history[j] >= window
  {
    assert Ordered(log);
    YoungIsSuffix(log, now, window);
    if |history| - |log| <= j {
      assert log[j - (|history| - |log|)] == history[j];
    }
  }

  lemma DropStep(s: LimiterState, e: Timed, ip: string, history: seq<int>, j: nat)
    requires IsSuffix(Stored(s.requests, ip), history)
    ensures var history' := history +
                            if e.event == Request(ip) && s.enabled && Allowed(s, ip, e.now) then [e.now] else [];
            j < |history'| - |Stored(Step(s, e).requests, ip)| <==>
              j < |history| - |Stored(s.requests, ip)| || Forgets(s, e, ip, history, j)
  {
    var log := Stored(s.requests, ip);
    PrunedIsSuffix(log, history, e.now, s.window);
    if j < |history| { PruneDrops(log, history, e.now, s.window, j); }
    match e.event
    case Request(_) =>
    case Tick => assert Stored(Step(s, e).requests, ip) == Young(log, e.now, s.window);
    case _ =>
  }

  /** What the log lacks is exactly what was forgotten. */
  lemma {:induction false} DroppedIffForgotten(maxRequests: int, window: int, enabled: bool, trace: seq<Timed>,
                                               ip: string, j: nat)
    requires Timely(trace)
    ensures var s := New(maxRequests, window, enabled);
            j < |Admitted(s, trace, ip)| - |Stored(Run(s, trace).requests, ip)| <==> Forgotten(s, trace, ip, j)
  {
    if trace != [] {
      var s, init := New(maxRequests, window, enabled), trace[..|trace| - 1];
      DroppedIffForgotten(maxRequests, window, enabled, init, ip, j);
      LogEndsHistory(maxRequests, window, enabled, init, ip);
      DropStep(Run(s, init), trace[|trace| - 1], ip, Admitted(s, init, ip), j);
    }
  }

  /** What the limiter would decide now if its limits were set to these. */
  predicate AllowedUnder(s: LimiterState, ip: string, now: int, window: int, limit: int) {
    Allowed(Step(s, Timed(now, SetLimits(limit, window))), ip, now)
  }

  /** The limiter, its window set to this, decides for every limit as the admissions would have it. */
  ghost predicate AgreesUnder(s: LimiterState, ip: string, admitted: seq<int>, now: int, window: int) {
    forall limit :: AllowedUnder(s, ip, now, window, limit) <==> Admits(admitted, now, window, limit)
  }

  lemma AgreesUnderIff(s: LimiterState, ip: string, admitted: seq<int>, now: int, window: int)
    requires s.enabled && IsSuffix(Stored(s.requests, ip), admitted)
    ensures AgreesUnder(s, ip, admitted, now, window) <==>
              var log := Stored(s.requests, ip);
              |log| == |admitted| || now - admitted[|admitted| - |log| - 1] >= window
  {
    var log := Stored(s.requests, ip);
    AgreementIff(log, admitted, now, window);
    assert forall limit :: Admits(log, now, window, limit) == AllowedUnder(s, ip, now, window, limit);
  }

  /** Every forgotten admission is as old as the window. */
  ghost predicate ForgottenAreOld(s: LimiterState, trace: seq<Timed>, ip: string, now: int, window: int) {
    forall j: nat :: Forgotten(s, trace, ip, j) && j < |Admitted(s, trace, ip)| ==>
                       now - Admitted(s, trace, ip)[j] >= window
  }

  /** `lacking` counts what the log lacks: the first so many admissions. */
  lemma YoungestLacking(admitted: seq<int>, lacking: nat, j: nat)
    requires Ordered(admitted) && j < lacking <= |admitted|
    ensures admitted[j] <= admitted[lacking - 1]
  {
  }

  lemma OneForgotten(s: LimiterState, trace: seq<Timed>, ip: string, now: int, window: int, j: nat)
    requires ForgottenAreOld(s, trace, ip, now, window)
    requires Forgotten(s, trace, ip, j) && j < |Admitted(s, trace, ip)|
    ensures now - Admitted(s, trace, ip)[j] >= window
  {
  }

  lemma ForgottenAreOldIff(s: LimiterState, trace: seq<Timed>, ip: string, now: int, window: int, lacking: nat)
    requires Ordered(Admitted(s, trace, ip)) && lacking <= |Admitted(s, trace, ip)|
    requires forall j: nat :: j < lacking <==> Forgotten(s, trace, ip, j)
    ensures ForgottenAreOld(s, trace, ip, now, window)
            <==> lacking == 0 || now - Admitted(s, trace, ip)[lacking - 1] >= window
  {
    var admitted := Admitted(s, trace, ip);
    if ForgottenAreOld(s, trace, ip, now, window) {
      if lacking > 0 { OneForgotten(s, trace, ip, now, window, lacking - 1); }
    } else {
      var j: nat :| Forgotten(s, trace, ip, j) && j < |admitted| && now - admitted[j] < window;
      YoungestLacking(admitted, lacking, j);
    }
  }

  /** After any run at all whose clock does not run backwards (limits changed freely, the limiter
      switched off and on, other addresses, ticks) and whatever the window is set to now, the limiter
      decides for every limit as the admissions of the whole run would have it if and only if every
      forgotten admission is as old as that window; which is to say that the log lacks nothing, or the
      youngest admission it lacks is that old. */
  lemma EnlargementIff(maxRequests: int, window: int, enabled: bool, trace: seq<Timed>, ip: string, now: int,
                       newWindow: int)
    requires Timely(trace) && Run(New(maxRequests, window, enabled), trace).enabled
    ensures var s0 := New(maxRequests, window, enabled);
            var s, admitted := Run(s0, trace), Admitted(s0, trace, ip);
            var log := Stored(s.requests, ip);
            && |log| <= |admitted|
            && (AgreesUnder(s, ip, admitted, now, newWindow) <==> ForgottenAreOld(s0, trace, ip, now, newWindow))
            && (AgreesUnder(s, ip, admitted, now, newWindow)
                <==> |log| == |admitted| || now - admitted[|admitted| - |log| - 1] >= newWindow)
  {
    var s0 := New(maxRequests, window, enabled);
    LogEndsHistory(maxRequests, window, enabled, trace, ip);
    AgreesUnderIff(Run(s0, trace), ip, Admitted(s0, trace, ip), now, newWindow);
    var lacking := |Admitted(s0, trace, ip)| - |Stored(Run(s0, trace).requests, ip)|;
    forall j: nat
      ensures j < lacking <==> Forgotten(s0, trace, ip, j)
    {
      DroppedIffForgotten(maxRequests, window, enabled, trace, ip, j);
    }
    ForgottenAreOldIff(s0, trace, ip, now, newWindow, lacking);
  }

  /** `dropped` says whether the admission maxRequests places from the end is missing from the log. */
  lemma DecisionDiffersIff(s: LimiterState, ip: string, admitted: seq<int>, now: int, dropped: bool)
    requires IsSuffix(Stored(s.requests, ip), admitted)
    requires 0 < s.maxRequests <= |admitted| ==>
               (|admitted| - s.maxRequests < |admitted| - |Stored(s.requests, ip)| <==> dropped)
    ensures (Allowed(s, ip, now) <==> !s.enabled || Admits(admitted, now, s.window, s.maxRequests))
            <==> !(&& s.enabled && 0 < s.maxRequests <= |admitted|
                   && now - admitted[|admitted| - s.maxRequests] < s.window && dropped)
  {
    DifferenceIff(Stored(s.requests, ip), admitted, now, s.window, s.maxRequests);
  }

  /** One decision under the limits in force, in any such run: it is the one the whole history calls
      for unless the limiter is on and the admission maxRequests places from the end is younger than
      the window although an earlier pruning, under a smaller window, has forgotten it. */
  lemma DecisionIsRightIff(maxRequests: int, window: int, enabled: bool, trace: seq<Timed>, ip: string, now: int)
    requires Timely(trace)
    ensures var s0 := New(maxRequests, window, enabled);
            var s, admitted := Run(s0, trace), Admitted(s0, trace, ip);
            (Allowed(s, ip, now) <==> !s.enabled || Admits(admitted, now, s.window, s.maxRequests))
            <==> !(&& s.enabled && 0 < s.maxRequests <= |admitted|
                   && now - admitted[|admitted| - s.maxRequests] < s.window
                   && Forgotten(s0, trace, ip, |admitted| - s.maxRequests))
  {
    var s0 := New(maxRequests, window, enabled);
    var s, admitted := Run(s0, trace), Admitted(s0, trace, ip);
    LogEndsHistory(maxRequests, window, enabled, trace, ip);
    var last := if 0 < s.maxRequests <= |admitted| then |admitted| - s.maxRequests else 0;
    DroppedIffForgotten(maxRequests, window, enabled, trace, ip, last);
    DecisionDiffersIff(s, ip, admitted, now, Forgotten(s0, trace, ip, last));
  }

  /** Concretely: an admission that has aged out of a small window is forgotten, and when the window
      is then enlarged the limiter admits a request that the history would refuse. */
  lemma EnlargedWindowForgets(ip: string) returns (trace: seq<Timed>)
    ensures Allowed(Run(New(1, 10, true), trace), ip, 11)
    ensures !ReferenceAllows(ReferenceRun(NewReference(1, 10, true), trace), ip, 11)
  {
    var s, r := New(1, 10, true), NewReference(1, 10, true);
    var a, b, c := Timed(0, Request(ip)), Timed(10, Tick), Timed(10, SetLimits(1, 100));
    RunSnoc(s, r, [], a);
    RunSnoc(s, r, [] + [a], b);
    RunSnoc(s, r, [] + [a] + [b], c);
    trace := [] + [a] + [b] + [c];
    assert Stored(ReferenceStep(r, a).history, ip) == [0] && Stored(Step(s, a).requests, ip) == [0];
    assert Young([0], 10, 10) == [] && Young([0], 11, 100) == [0] by {
      assert [0][..0] == [];
    }
    assert ip !in Step(Step(s, a), b).requests;
  }

  // ---- Safety with fixed limits ----

  /** Requests and ticks only. */
  predicate LimitsFixed(trace: seq<Timed>) {
    forall i :: 0 <= i < |trace| ==> trace[i].event.Request? || trace[i].event.Tick?
  }

  function Positive(x: int): nat {
    if x > 0 then x else 0
  }

  /** Every entry is at least the window later than the one `most` places before it. */
  predicate Spaced(history: seq<int>, most: nat, window: int) {
    forall i :: 0 <= i < |history| - most ==> history[i + most] - history[i] >= window
  }

  lemma AdmissionKeepsSpacing(history: seq<int>, most: nat, window: int, now: int)
    requires Ordered(history) && Spaced(history, most, window) && most > 0
    requires |Young(history, now, window)| < most
    ensures Spaced(history + [now], most, window)
  {
    YoungIsSuffix(history, now, window);
  }

  /** The limiter is on, with these limits, and has kept to them. */
  predicate Kept(r: Reference, ip: string, maxRequests: int, window: int) {
    && r.enabled && r.maxRequests == maxRequests && r.window == window
    && Ordered(Stored(r.history, ip)) && Spaced(Stored(r.history, ip), Positive(maxRequests), window)
    && (maxRequests <= 0 ==> Stored(r.history, ip) == [])
  }

  lemma StepKeeps(r: Reference, e: Timed, ip: string, maxRequests: int, window: int)
    requires Kept(r, ip, maxRequests, window) && (e.event.Request? || e.event.Tick?)
    requires forall i :: 0 <= i < |Stored(r.history, ip)| ==> Stored(r.history, ip)[i] <= e.now
    ensures Kept(ReferenceStep(r, e), ip, maxRequests, window)
  {
    if e.event == Request(ip) && ReferenceAllows(r, ip, e.now) && maxRequests > 0 {
      AdmissionKeepsSpacing(Stored(r.history, ip), maxRequests, window, e.now);
    }
  }

  lemma {:induction false} AdmissionsSpaced(maxRequests: int, window: int, trace: seq<Timed>, ip: string)
    requires Wellbehaved(New(maxRequests, window, true), trace) && LimitsFixed(trace)
    ensures Kept(ReferenceRun(NewReference(maxRequests, window, true), trace), ip, maxRequests, window)
  {
    if trace != [] {
      var init, e := trace[..|trace| - 1], trace[|trace| - 1];
      AdmissionsSpaced(maxRequests, window, init, ip);
      RunRefines(maxRequests, window, true, init, trace[0].now);
      var r := ReferenceRun(NewReference(maxRequests, window, true), init);
      assert Remembers(Stored(Run(New(maxRequests, window, true), init).requests, ip), Stored(r.history, ip),
                       Clock(init, trace[0].now), window);
      StepKeeps(r, e, ip, maxRequests, window);
    }
  }

  /** Entries in the half-open interval [from, to). */
  function CountIn(times: seq<int>, from: int, to: int): nat {
    if times == [] then 0
    else CountIn(times[..|times| - 1], from, to) + if from <= times[|times| - 1] < to then 1 else 0
  }

  /** Entries of an ordered log that fall into an interval are consecutive. */
  lemma {:induction false} CountedAreConsecutive(times: seq<int>, from: int, to: int) returns (p: nat)
    requires Ordered(times)
    ensures p + CountIn(times, from, to) <= |times|
    ensures forall i :: p <= i < p + CountIn(times, from, to) ==> from <= times[i] < to
    ensures forall i :: 0 <= i < p ==> times[i] < from
    ensures forall i :: p + CountIn(times, from, to) <= i < |times| ==> times[i] >= to
  {
    if times == [] {
      p := 0;
    } else {
      var n := |times| - 1;
      p := CountedAreConsecutive(times[..n], from, to);
      var next := p + CountIn(times[..n], from, to);
      assert next < n ==> times[next] >= to;
      assert p < next ==> times[p] >= from;
      if times[n] < from { p := n + 1; }
    }
  }

  lemma {:induction false} SpacedFar(history: seq<int>, most: nat, window: int, i: nat, k: nat)
    requires Spaced(history, most, window) && i + most * k < |history|
    ensures history[i + most * k] - history[i] >= k * window
  {
    if k > 0 {
      assert most * k == most * (k - 1) + most;
      SpacedFar(history, most, window, i, k - 1);
      var j := i + most * (k - 1);
      assert history[j + most] - history[j] >= window;
      assert k * window == (k - 1) * window + window;
    }
  }

  lemma SpacedBound(history: seq<int>, most: nat, window: int, from: int, k: nat)
    requires Ordered(history) && Spaced(history, most, window) && window > 0
    requires most == 0 ==> history == []
    ensures CountIn(history, from, from + k * window) <= k * most
  {
    var to := from + k * window;
    var p := CountedAreConsecutive(history, from, to);
    var far := most * k;
    if CountIn(history, from, to) > far {
      SpacedFar(history, most, window, p, k);
    }
  }

  /** With fixed limits and the limiter on, no half-open interval of k windows sees more than
      k * max(0, maxRequests) admissions of one address; and what the limiter stores is a time-ordered
      suffix of the admissions, never longer than max(0, maxRequests). */
  lemma RateIsBounded(maxRequests: int, window: int, trace: seq<Timed>, ip: string, from: int, k: nat)
    requires window > 0 && Wellbehaved(New(maxRequests, window, true), trace) && LimitsFixed(trace)
    ensures var admitted := Admitted(New(maxRequests, window, true), trace, ip);
            var log := Stored(Run(New(maxRequests, window, true), trace).requests, ip);
            var most := if maxRequests > 0 then maxRequests else 0;
            && CountIn(admitted, from, from + k * window) <= k * most
            && Ordered(log) && |log| <= |admitted| && log == admitted[|admitted| - |log|..]
            && |log| <= most
  {
    AdmissionsSpaced(maxRequests, window, trace, ip);
    AdmittedIsHistory(maxRequests, window, true, trace, ip);
    SpacedBound(Admitted(New(maxRequests, window, true), trace, ip), Positive(maxRequests), window, from, k);
    RunRefines(maxRequests, window, true, trace, if trace == [] then 0 else trace[0].now);
    LogIsShort(maxRequests, window, trace, ip);
  }

  lemma {:induction false} YoungNoLonger(times: seq<int>, now: int, window: int)
    ensures |Young(times, now, window)| <= |times|
  {
    if times != [] { YoungNoLonger(times[..|times| - 1], now, window); }
  }

  lemma {:induction false} LogIsShort(maxRequests: int, window: int, trace: seq<Timed>, ip: string)
    requires LimitsFixed(trace)
    ensures var s := Run(New(maxRequests, window, true), trace);
            && s.maxRequests == maxRequests && s.window == window && s.enabled
            && |Stored(s.requests, ip)| <= Positive(maxRequests)
  {
    if trace != [] {
      var init, e := trace[..|trace| - 1], trace[|trace| - 1];
      LogIsShort(maxRequests, window, init, ip);
      YoungNoLonger(Stored(Run(New(maxRequests, window, true), init).requests, ip), e.now, window);
    }
  }
}
