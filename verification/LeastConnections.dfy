/**
  The least-connections strategy (strategy/least_connections.go) and the load it can put on one
  backend over a whole run of dispatches and departures.
 */
module LeastConnections {
  import opened Options
  import opened Backends
  import opened Counting
  import opened Tickets

  /** Backend i is eligible, carries no more than any eligible backend, and less than those before it. */
  predicate IsLeast(loads: seq<int>, eligible: seq<bool>, i: nat) {
    && i < |loads| == |eligible| && eligible[i]
    && (forall j :: 0 <= j < |loads| && eligible[j] ==> loads[i] <= loads[j])
    && (forall j :: 0 <= j < i && eligible[j] ==> loads[i] < loads[j])
  }

  function Loads(states: seq<BackendState>): seq<int> {
    seq(|states|, i requires 0 <= i < |states| => states[i].active)
  }

  /** One backend more: the least one so far stays, unless the new one carries less. */
  lemma LeastStep(loads: seq<int>, eligible: seq<bool>, n: nat, i: nat)
    requires n < |loads| == |eligible| && IsLeast(loads[..n], eligible[..n], i)
    ensures IsLeast(loads[..n + 1], eligible[..n + 1], if eligible[n] && loads[n] < loads[i] then n else i)
  {
  }

  /** At its reading of the clock the backend at position i is eligible, no eligible one of the slice has
      fewer connections, and those before it have more. */
  predicate LeastLoaded(backends: seq<Backend>, nows: seq<int>, i: nat)
    requires |nows| == |backends|
    reads backends
  {
    && i < |backends| && Eligible(backends[i].State(), nows[i])
    && forall j :: 0 <= j < |backends| && Eligible(backends[j].State(), nows[j]) ==>
         && backends[i].activeConnections <= backends[j].activeConnections
         && (j < i ==> backends[i].activeConnections < backends[j].activeConnections)
  }

  /** Looking at backend i, CheckCircuitState reads the clock `nows[i]`. */
  method Scan(backends: seq<Backend>, nows: seq<int>) returns (selected: Backend?)
    requires |nows| == |backends|
    ensures var loads, eligible := Loads(States(backends)), Eligibility(States(backends), nows);
            if true in eligible then
              exists i: nat :: IsLeast(loads, eligible, i) && selected == backends[i]
            else selected == null
  {
    selected := null;
    if |backends| == 0 {
      return;
    }
    ghost var loads, eligible := Loads(States(backends)), Eligibility(States(backends), nows);
    ghost var least := 0;
    var minConnections := -1;
    for n := 0 to |backends|
      invariant selected == null ==> forall j :: 0 <= j < n ==> !eligible[j]
      invariant selected != null ==> least < n && selected == backends[least] && minConnections == loads[least]
      invariant selected != null ==> IsLeast(loads[..n], eligible[..n], least)
    {
      if selected != null {
        LeastStep(loads, eligible, n, least);
      }
      var ok := backends[n].CheckCircuitState(nows[n]);
      if !ok {
        continue;
      }
      var active := backends[n].GetActiveConnections();
      if selected == null {
        selected, minConnections := backends[n], active;
        least := n;
        continue;
      }
      if active < minConnections {
        selected, minConnections := backends[n], active;
        least := n;
      }
    }
    assert loads[..|backends|] == loads && eligible[..|backends|] == eligible;
  }

  method NextBackend(backends: seq<Backend>, nows: seq<int>) returns (selected: Backend?)
    requires |nows| == |backends|
    ensures var loads, eligible := Loads(States(backends)), Eligibility(States(backends), nows);
            if true in eligible then
              exists i: nat :: IsLeast(loads, eligible, i) && selected == backends[i]
            else selected == null
    ensures if exists i: nat :: i < |backends| && Eligible(backends[i].State(), nows[i]) then
              exists i: nat :: LeastLoaded(backends, nows, i) && selected == backends[i]
            else selected == null
  {
    selected := Scan(backends, nows);
    ghost var states := States(backends);
    ghost var loads, eligible := Loads(states), Eligibility(states, nows);
    forall i: nat
      ensures IsLeast(loads, eligible, i) <==> LeastLoaded(backends, nows, i)
    {
      LeastByFields(backends, nows, i);
    }
    forall i: nat | i < |backends|
      ensures eligible[i] == Eligible(backends[i].State(), nows[i])
    {
    }
  }

  lemma LeastByFields(backends: seq<Backend>, nows: seq<int>, i: nat)
    requires |nows| == |backends|
    ensures IsLeast(Loads(States(backends)), Eligibility(States(backends), nows), i) <==> LeastLoaded(backends, nows, i)
  {
    var states := States(backends);
    assert forall j :: 0 <= j < |backends| ==>
      Loads(states)[j] == backends[j].activeConnections &&
      Eligibility(states, nows)[j] == Eligible(backends[j].State(), nows[j]);
  }

  // ---- Runs ----

  /** `loads` are the connection counts; `waiting[i]` counts the requests that have been given
      backend i but have not incremented its count yet. */
  datatype Fleet = Fleet(loads: seq<int>, waiting: seq<nat>)

  datatype Move =
    | Pick(eligible: seq<bool>, i: nat)  // NextBackend answers backend i
    | Refuse(i: nat)                     // the proxy's gate answers 503
    | Increment(i: nat)                  // the proxy's IncConnections
    | Depart(i: nat)                     // the proxy's DecConnections

  predicate CanMove(f: Fleet, e: Move)
    requires |f.loads| == |f.waiting|
  {
    match e
    case Pick(eligible, i) => IsLeast(f.loads, eligible, i)
    case Refuse(i) => i < |f.waiting| && f.waiting[i] > 0
    case Increment(i) => i < |f.waiting| && f.waiting[i] > 0
    case Depart(i) => i < |f.loads| && f.loads[i] > 0
  }

  function Moved(f: Fleet, e: Move): (g: Fleet)
    requires |f.loads| == |f.waiting| && CanMove(f, e)
    ensures |g.loads| == |g.waiting| == |f.loads|
  {
    match e
    case Pick(_, i) => Fleet(f.loads, f.waiting[i := f.waiting[i] + 1])
    case Refuse(i) => Fleet(f.loads, f.waiting[i := f.waiting[i] - 1])
    case Increment(i) => Fleet(f.loads[i := f.loads[i] + 1], f.waiting[i := f.waiting[i] - 1])
    case Depart(i) => Fleet(f.loads[i := f.loads[i] - 1], f.waiting)
  }

  function Zeros(n: nat): (s: seq<nat>)
    ensures |s| == n
  {
    seq(n, _ => 0)
  }

  function Idle(n: nat): Fleet {
    Fleet(Zeros(n), Zeros(n))
  }

  function After(n: nat, moves: seq<Move>): (f: Option<Fleet>)
    ensures f.Some? ==> |f.value.loads| == |f.value.waiting| == n
  {
    if moves == [] then Some(Idle(n))
    else
      var f, e := After(n, moves[..|moves| - 1]), moves[|moves| - 1];
      if f.Some? && CanMove(f.value, e) then Some(Moved(f.value, e)) else None
  }

  function Sum(s: seq<int>): int {
    if s == [] then 0 else Sum(s[..|s| - 1]) + s[|s| - 1]
  }

  /** Throughout the run at least `m` backends are eligible at every pick, at most `most` requests
      are anywhere between pick and departure, and at most `racing` between pick and increment. */
  predicate Within(n: nat, moves: seq<Move>, m: nat, most: nat, racing: nat) {
    moves == [] ||
    (var e := moves[|moves| - 1];
     && Within(n, moves[..|moves| - 1], m, most, racing)
     && (e.Pick? ==> Count(e.eligible) >= m)
     && After(n, moves).Some?
     && Sum(After(n, moves).value.loads) + Sum(After(n, moves).value.waiting) <= most
     && Sum(After(n, moves).value.waiting) <= racing)
  }

  lemma {:induction false} SumUpdate(s: seq<int>, i: nat, x: int)
    requires i < |s|
    ensures Sum(s[i := x]) == Sum(s) - s[i] + x
  {
    var n := |s| - 1;
    if i == n {
      assert s[i := x][..n] == s[..n];
    } else {
      assert s[i := x][..n] == s[..n][i := x];
      SumUpdate(s[..n], i, x);
    }
  }

  lemma {:induction false} ElementWithinSum(s: seq<int>, i: nat)
    requires i < |s| && forall j :: 0 <= j < |s| ==> s[j] >= 0
    ensures s[i] <= Sum(s)
  {
    SumNonNegative(s[..|s| - 1]);
    if i < |s| - 1 { ElementWithinSum(s[..|s| - 1], i); }
  }

  lemma {:induction false} SumNonNegative(s: seq<int>)
    requires forall j :: 0 <= j < |s| ==> s[j] >= 0
    ensures Sum(s) >= 0
  {
    if s != [] { SumNonNegative(s[..|s| - 1]); }
  }

  /** If every eligible backend carries at least `low`, the fleet carries `low` per eligible backend. */
  lemma {:induction false} EligibleLoadsAddUp(loads: seq<int>, eligible: seq<bool>, low: nat)
    requires |loads| == |eligible|
    requires forall i :: 0 <= i < |loads| ==> loads[i] >= 0
    requires forall i :: 0 <= i < |loads| && eligible[i] ==> loads[i] >= low
    ensures low * Count(eligible) <= Sum(loads)
  {
    if loads != [] {
      var n := |loads| - 1;
      EligibleLoadsAddUp(loads[..n], eligible[..n], low);
      assert low * (Count(eligible[..n]) + 1) == low * Count(eligible[..n]) + low;
    }
  }

  function CeilingShare(most: nat, m: nat): nat
    requires m > 0
  {
    (most + m - 1) / m
  }

  function Smaller(a: nat, b: nat): nat {
    if a < b then a else b
  }

  /** As many requests as can race pile up on an equal share of all the others. */
  function RaceBound(most: nat, m: nat, racing: nat): nat
    requires m > 0
  {
    var p := Smaller(racing, most);
    (most - p) / m + p
  }

  lemma QuotientAtLeast(low: nat, m: nat, x: nat)
    requires m > 0 && m * low <= x
    ensures low <= x / m
  {
    ModShift(x - m * low, m, low);
  }

  /** Adding d raises a quotient by d at the most. */
  lemma {:induction false} QuotientGrowth(x: nat, d: nat, m: nat)
    requires m > 0
    ensures (x + d) / m <= x / m + d
  {
    if d > 0 {
      QuotientGrowth(x, d - 1, m);
      QuotientStep(x + d, m);
    }
  }

  /** Even when picks and increments of different requests interleave, no backend ever carries, or is
      about to carry, more than the racing requests on top of an equal share of the others. */
  lemma {:induction false} LoadBound(n: nat, moves: seq<Move>, m: nat, most: nat, racing: nat)
    requires m > 0 && Within(n, moves, m, most, racing)
    ensures After(n, moves).Some?
    ensures var f := After(n, moves).value;
            forall i :: 0 <= i < n ==>
              0 <= f.loads[i] && f.loads[i] + f.waiting[i] <= RaceBound(most, m, racing)
  {
    if moves == [] {
      assert RaceBound(most, m, racing) >= 0;
    } else {
      var init, e := moves[..|moves| - 1], moves[|moves| - 1];
      LoadBound(n, init, m, most, racing);
      if e.Pick? {
        PickBound(After(n, init).value, e.eligible, e.i, m, most, racing);
      }
    }
  }

  lemma ShareOfPick(low: nat, w: nat, count: nat, m: nat, most: nat, racing: nat)
    requires 0 < m <= count && low * count + w <= most && w <= racing
    ensures low + w <= RaceBound(most, m, racing)
  {
    assert m * low + w <= most by {
      assert low * count == m * low + low * (count - m);
      assert low * (count - m) >= 0;
    }
    var p := Smaller(racing, most);
    QuotientAtLeast(low, m, most - w);
    QuotientGrowth(most - p, p - w, m);
  }

  lemma PickBound(f: Fleet, eligible: seq<bool>, i: nat, m: nat, most: nat, racing: nat)
    requires |f.loads| == |f.waiting| && IsLeast(f.loads, eligible, i)
    requires forall j :: 0 <= j < |f.loads| ==> f.loads[j] >= 0
    requires 0 < m <= Count(eligible)
    requires var g := Moved(f, Pick(eligible, i));
             Sum(g.loads) + Sum(g.waiting) <= most && Sum(g.waiting) <= racing
    ensures f.loads[i] + f.waiting[i] + 1 <= RaceBound(most, m, racing)
  {
    var g := Moved(f, Pick(eligible, i));
    ElementWithinSum(g.waiting, i);
    EligibleLoadsAddUp(f.loads, eligible, f.loads[i]);
    ShareOfPick(f.loads[i], Sum(g.waiting), Count(eligible), m, most, racing);
  }

  lemma CeilingIsOneRace(most: nat, m: nat)
    requires m > 0
    ensures CeilingShare(most, m) == RaceBound(most, m, 1)
  {
    if most == 0 {
      DivModUnique(m - 1, m, 0, m - 1);
      DivModUnique(0, m, 0, 0);
    } else {
      ModShift(most - 1, m, 1);
    }
  }

  /** When pick and increment are one atomic step, so that at most one request is ever in between,
      each backend's count is at most the ceiling of most / m. */
  lemma AtomicDispatchBound(n: nat, moves: seq<Move>, m: nat, most: nat, i: nat)
    requires m > 0 && i < n && Within(n, moves, m, most, 1)
    ensures After(n, moves).Some? && After(n, moves).value.loads[i] <= CeilingShare(most, m)
  {
    LoadBound(n, moves, m, most, 1);
    CeilingIsOneRace(most, m);
  }

  // ---- The counts of the backends themselves ----

  /** The states of the backends, and for each the requests that have been given it and have not reached
      the increment, and those between increment and decrement. */
  datatype Site = Site(states: seq<BackendState>, waiting: seq<nat>, inside: seq<nat>)

  datatype Act =
    | Select(nows: seq<int>, i: nat)    // NextBackend answers backend i
    | Refused(i: nat, now: int)         // the gate finds it ineligible
    | Enter(i: nat)                     // IncConnections
    | Leave(i: nat)                     // DecConnections
    | Change(i: nat, s: BackendState)   // any section that leaves the count alone

  predicate Fits(s: Site) {
    |s.states| == |s.waiting| == |s.inside|
  }

  predicate CanAct(s: Site, a: Act)
    requires Fits(s)
  {
    match a
    case Select(nows, i) =>
      && i < |s.states| == |nows| && Eligible(s.states[i], nows[i])
      && forall j :: 0 <= j < |s.states| && Eligible(s.states[j], nows[j]) ==>
           s.states[i].active <= s.states[j].active && (j < i ==> s.states[i].active < s.states[j].active)
    case Refused(i, now) => i < |s.states| && s.waiting[i] > 0 && !Eligible(s.states[i], now)
    case Enter(i) => i < |s.states| && s.waiting[i] > 0
    case Leave(i) => i < |s.states| && s.inside[i] > 0
    case Change(i, b) => i < |s.states| && b.active == s.states[i].active
  }

  /** A selection is what NextBackend answers on backends in these states. */
  lemma SelectIsNextBackend(backends: seq<Backend>, nows: seq<int>, i: nat)
    requires |nows| == |backends|
    ensures CanAct(Opening(States(backends)), Select(nows, i)) <==> LeastLoaded(backends, nows, i)
  {
    assert forall j :: 0 <= j < |backends| ==> States(backends)[j].active == backends[j].activeConnections;
  }

  function Acted(s: Site, a: Act): (r: Site)
    requires Fits(s) && CanAct(s, a)
    ensures Fits(r) && |r.states| == |s.states|
  {
    match a
    case Select(_, i) => s.(waiting := s.waiting[i := s.waiting[i] + 1])
    case Refused(i, _) => s.(waiting := s.waiting[i := s.waiting[i] - 1])
    case Enter(i) =>
      Site(s.states[i := Connected(s.states[i])], s.waiting[i := s.waiting[i] - 1], s.inside[i := s.inside[i] + 1])
    case Leave(i) => Site(s.states[i := Disconnected(s.states[i])], s.waiting, s.inside[i := s.inside[i] - 1])
    case Change(i, b) => s.(states := s.states[i := b])
  }

  function Opening(states: seq<BackendState>): (s: Site)
    ensures Fits(s) && |s.states| == |states|
  {
    Site(states, Zeros(|states|), Zeros(|states|))
  }

  function SiteAfter(states: seq<BackendState>, acts: seq<Act>): (s: Option<Site>)
    ensures s.Some? ==> Fits(s.value) && |s.value.states| == |states|
  {
    if acts == [] then Some(Opening(states))
    else
      var s, a := SiteAfter(states, acts[..|acts| - 1]), acts[|acts| - 1];
      if s.Some? && CanAct(s.value, a) then Some(Acted(s.value, a)) else None
  }

  /** The move of the fleet that an act is. */
  function MoveOf(s: Site, a: Act): seq<Move>
    requires Fits(s)
  {
    match a
    case Select(nows, i) => if |nows| == |s.states| then [Pick(Eligibility(s.states, nows), i)] else []
    case Refused(i, _) => [Refuse(i)]
    case Enter(i) => [Increment(i)]
    case Leave(i) => [Depart(i)]
    case Change(_, _) => []
  }

  function Moves(states: seq<BackendState>, acts: seq<Act>): seq<Move> {
    if acts == [] then []
    else
      var init := acts[..|acts| - 1];
      var s := SiteAfter(states, init);
      Moves(states, init) + if s.Some? then MoveOf(s.value, acts[|acts| - 1]) else []
  }

  /** `Within`, in terms of the backends: at least m are eligible at every selection, at most `most`
      connections and requests on their way are anywhere, and at most `racing` are on their way. */
  predicate Busy(states: seq<BackendState>, acts: seq<Act>, m: nat, most: nat, racing: nat) {
    acts == [] ||
    (var init, a := acts[..|acts| - 1], acts[|acts| - 1];
     var s, s' := SiteAfter(states, init), SiteAfter(states, acts);
     && Busy(states, init, m, most, racing)
     && s.Some? && s'.Some?
     && (a.Select? ==> |a.nows| == |s.value.states| && Count(Eligibility(s.value.states, a.nows)) >= m)
     && Sum(Loads(s'.value.states)) + Sum(s'.value.waiting) <= most
     && Sum(s'.value.waiting) <= racing)
  }

  function FleetOf(s: Site): Fleet {
    Fleet(Loads(s.states), s.waiting)
  }

  /** Every count is the number of requests inside. */
  predicate CountsInside(s: Site) {
    Fits(s) && forall i :: 0 <= i < |s.states| ==> s.states[i].active == s.inside[i]
  }

  lemma ActIsMove(s: Site, a: Act)
    requires CountsInside(s) && CanAct(s, a)
    ensures CountsInside(Acted(s, a))
    ensures if a.Change? then FleetOf(Acted(s, a)) == FleetOf(s)
            else |MoveOf(s, a)| == 1 && CanMove(FleetOf(s), MoveOf(s, a)[0]) &&
                 Moved(FleetOf(s), MoveOf(s, a)[0]) == FleetOf(Acted(s, a))
  {
    var s' := Acted(s, a);
    match a
    case Select(nows, i) =>
    case Refused(i, _) =>
    case Enter(i) => assert Loads(s'.states) == Loads(s.states)[i := s.states[i].active + 1];
    case Leave(i) => assert Loads(s'.states) == Loads(s.states)[i := s.states[i].active - 1];
    case Change(i, b) => assert Loads(s'.states) == Loads(s.states);
  }

  lemma MoveSnoc(n: nat, moves: seq<Move>, e: Move, m: nat, most: nat, racing: nat)
    requires After(n, moves).Some? && CanMove(After(n, moves).value, e)
    ensures After(n, moves + [e]) == Some(Moved(After(n, moves).value, e))
    ensures var g := Moved(After(n, moves).value, e);
            Within(n, moves, m, most, racing) && (e.Pick? ==> Count(e.eligible) >= m)
            && Sum(g.loads) + Sum(g.waiting) <= most && Sum(g.waiting) <= racing
            ==> Within(n, moves + [e], m, most, racing)
  {
    assert (moves + [e])[..|moves|] == moves;
  }

  /** Every run of the backends is a run of the fleet, whose loads are the `active` fields throughout. */
  lemma {:induction false} SiteIsFleet(states: seq<BackendState>, acts: seq<Act>, m: nat, most: nat, racing: nat)
    requires (forall i :: 0 <= i < |states| ==> states[i].active == 0) && Busy(states, acts, m, most, racing)
    ensures SiteAfter(states, acts).Some? && CountsInside(SiteAfter(states, acts).value)
    ensures After(|states|, Moves(states, acts)) == Some(FleetOf(SiteAfter(states, acts).value))
    ensures Within(|states|, Moves(states, acts), m, most, racing)
  {
    if acts == [] {
      assert Loads(states) == Zeros(|states|);
    } else {
      var init, a := acts[..|acts| - 1], acts[|acts| - 1];
      SiteIsFleet(states, init, m, most, racing);
      var s := SiteAfter(states, init).value;
      ActIsMove(s, a);
      if a.Change? {
        assert Moves(states, init) + [] == Moves(states, init);
      } else {
        assert MoveOf(s, a) == [MoveOf(s, a)[0]];
        MoveSnoc(|states|, Moves(states, init), MoveOf(s, a)[0], m, most, racing);
      }
    }
  }

  /** So the load bound holds of the counts that IncConnections and DecConnections keep, which are the
      numbers of requests between the two. */
  lemma CountsAreBounded(states: seq<BackendState>, acts: seq<Act>, m: nat, most: nat, racing: nat, i: nat)
    requires forall j :: 0 <= j < |states| ==> states[j].active == 0
    requires m > 0 && i < |states| && Busy(states, acts, m, most, racing)
    ensures SiteAfter(states, acts).Some?
    ensures var s := SiteAfter(states, acts).value;
            && s.states[i].active == s.inside[i]
            && s.states[i].active + s.waiting[i] <= RaceBound(most, m, racing)
  {
    SiteIsFleet(states, acts, m, most, racing);
    LoadBound(|states|, Moves(states, acts), m, most, racing);
  }

  // ---- The bound is attained ----

  function AllUp(n: nat): seq<bool> {
    seq(n, _ => true)
  }

  lemma {:induction false} AllUpCount(p: nat)
    ensures Count(AllUp(p)) == p
  {
    if p > 0 {
      AllUpCount(p - 1);
      assert AllUp(p)[..p - 1] == AllUp(p - 1);
    }
  }

  /** The first j of n backends carry r + 1, the others r. */
  function Stair(n: nat, r: nat, j: nat): (s: seq<nat>)
    ensures |s| == n
  {
    seq(n, i => if i < j then r + 1 else r)
  }

  lemma {:induction false} FlatSum(n: nat, r: nat)
    ensures Sum(Stair(n, r, 0)) == n * r
  {
    if n > 0 {
      FlatSum(n - 1, r);
      assert Stair(n, r, 0)[..n - 1] == Stair(n - 1, r, 0);
      assert n * r == (n - 1) * r + r;
    }
  }

  lemma ZeroSum(n: nat)
    ensures Sum(Zeros(n)) == 0
  {
    FlatSum(n, 0);
    assert Stair(n, 0, 0) == Zeros(n);
  }

  lemma ExtendRun(n: nat, moves: seq<Move>, e: Move, f: Fleet, g: Fleet, m: nat, most: nat, racing: nat)
    requires After(n, moves) == Some(f) && CanMove(f, e) && Moved(f, e) == g
    requires Within(n, moves, m, most, racing)
    requires e.Pick? ==> Count(e.eligible) >= m
    requires Sum(g.loads) + Sum(g.waiting) <= most && Sum(g.waiting) <= racing
    ensures After(n, moves + [e]) == Some(g) && Within(n, moves + [e], m, most, racing)
  {
    assert (moves + [e])[..|moves + [e]| - 1] == moves;
  }

  /** Only selections among m eligible backends, and increments. */
  predicate Plain(moves: seq<Move>, m: nat) {
    forall k :: 0 <= k < |moves| ==> moves[k].Increment? || (moves[k].Pick? && moves[k].eligible == AllUp(m))
  }

  lemma PlainSnoc(moves: seq<Move>, e: Move, m: nat)
    requires Plain(moves, m) && (e.Increment? || (e.Pick? && e.eligible == AllUp(m)))
    ensures Plain(moves + [e], m)
  {
  }

  /** A run over m backends, all eligible at every pick, ends in `f`. */
  predicate Reaches(moves: seq<Move>, f: Fleet, m: nat, most: nat, racing: nat) {
    After(m, moves) == Some(f) && Within(m, moves, m, most, racing)
  }

  /** One undisturbed dispatch to a least loaded backend. */
  lemma DispatchExtends(moves: seq<Move>, loads: seq<nat>, j: nat, m: nat, most: nat, racing: nat)
    requires j < m == |loads| && racing > 0 && IsLeast(loads, AllUp(m), j) && Sum(loads) < most
    requires Reaches(moves, Fleet(loads, Zeros(m)), m, most, racing)
    ensures Reaches(moves + [Pick(AllUp(m), j)] + [Increment(j)], Fleet(loads[j := loads[j] + 1], Zeros(m)),
                    m, most, racing)
  {
    var f := Fleet(loads, Zeros(m));
    var g := Fleet(loads, Zeros(m)[j := 1]);
    var h := Fleet(loads[j := loads[j] + 1], Zeros(m));
    ZeroSum(m);
    AllUpCount(m);
    SumUpdate(Zeros(m), j, 1);
    SumUpdate(loads, j, loads[j] + 1);
    ExtendRun(m, moves, Pick(AllUp(m), j), f, g, m, most, racing);
    assert g.waiting[j := 0] == h.waiting;
    ExtendRun(m, moves + [Pick(AllUp(m), j)], Increment(j), g, h, m, most, racing);
  }

  lemma StairStep(m: nat, r: nat, j: nat)
    requires j < m
    ensures IsLeast(Stair(m, r, j), AllUp(m), j)
    ensures Stair(m, r, j)[j := r + 1] == Stair(m, r, j + 1)
    ensures Sum(Stair(m, r, j + 1)) == Sum(Stair(m, r, j)) + 1
  {
    SumUpdate(Stair(m, r, j), j, r + 1);
    assert Stair(m, r, j)[j := r + 1] == Stair(m, r, j + 1);
  }

  /** One dispatch after the other fills the backends evenly. */
  lemma {:induction false} Filling(m: nat, r: nat, j: nat, most: nat, racing: nat) returns (moves: seq<Move>)
    requires m > 0 && racing > 0 && j <= m && Sum(Stair(m, r, j)) <= most
    ensures Reaches(moves, Fleet(Stair(m, r, j), Zeros(m)), m, most, racing)
    ensures Plain(moves, m)
    decreases r, j
  {
    if j > 0 {
      StairStep(m, r, j - 1);
      var init := Filling(m, r, j - 1, most, racing);
      DispatchExtends(init, Stair(m, r, j - 1), j - 1, m, most, racing);
      PlainSnoc(init, Pick(AllUp(m), j - 1), m);
      PlainSnoc(init + [Pick(AllUp(m), j - 1)], Increment(j - 1), m);
      moves := init + [Pick(AllUp(m), j - 1)] + [Increment(j - 1)];
    } else if r > 0 {
      assert Stair(m, r - 1, m) == Stair(m, r, 0);
      moves := Filling(m, r - 1, m, most, racing);
    } else {
      moves := [];
      assert Idle(m) == Fleet(Stair(m, 0, 0), Zeros(m));
    }
  }

  /** All carry q, the first one k more, and w requests are on their way to the first. */
  function Crowd(m: nat, q: nat, k: nat, w: nat): Fleet
    requires m > 0
  {
    Fleet(Stair(m, q, 0)[0 := q + k], Zeros(m)[0 := w])
  }

  lemma CrowdTotal(m: nat, q: nat, k: nat, w: nat)
    requires m > 0
    ensures Sum(Crowd(m, q, k, w).loads) == Sum(Stair(m, q, 0)) + k
    ensures Sum(Crowd(m, q, k, w).waiting) == w
  {
    ZeroSum(m);
    SumUpdate(Stair(m, q, 0), 0, q + k);
    SumUpdate(Zeros(m), 0, w);
  }

  lemma PickExtends(moves: seq<Move>, q: nat, w: nat, m: nat, most: nat, racing: nat)
    requires m > 0 && w < racing && Sum(Stair(m, q, 0)) + w < most
    requires Reaches(moves, Crowd(m, q, 0, w), m, most, racing)
    ensures Reaches(moves + [Pick(AllUp(m), 0)], Crowd(m, q, 0, w + 1), m, most, racing)
  {
    AllUpCount(m);
    CrowdTotal(m, q, 0, w + 1);
    ExtendRun(m, moves, Pick(AllUp(m), 0), Crowd(m, q, 0, w), Crowd(m, q, 0, w + 1), m, most, racing);
  }

  lemma IncrementExtends(moves: seq<Move>, q: nat, k: nat, w: nat, m: nat, most: nat, racing: nat)
    requires m > 0 && w < racing && Sum(Stair(m, q, 0)) + k + w < most
    requires Reaches(moves, Crowd(m, q, k, w + 1), m, most, racing)
    ensures Reaches(moves + [Increment(0)], Crowd(m, q, k + 1, w), m, most, racing)
  {
    CrowdTotal(m, q, k + 1, w);
    var f, g := Crowd(m, q, k, w + 1), Crowd(m, q, k + 1, w);
    assert f.loads[0 := q + k + 1] == g.loads && f.waiting[0 := w] == g.waiting;
    assert Moved(f, Increment(0)) == g;
    ExtendRun(m, moves, Increment(0), Crowd(m, q, k, w + 1), Crowd(m, q, k + 1, w), m, most, racing);
  }

  /** w requests read the evenly loaded fleet and are all given backend 0. */
  lemma {:induction false} Picking(q: nat, w: nat, m: nat, most: nat, racing: nat) returns (moves: seq<Move>)
    requires m > 0 && racing > 0 && w <= racing && Sum(Stair(m, q, 0)) + w <= most
    ensures Reaches(moves, Crowd(m, q, 0, w), m, most, racing)
    ensures Plain(moves, m)
  {
    if w == 0 {
      moves := Filling(m, q, 0, most, racing);
      assert Fleet(Stair(m, q, 0), Zeros(m)) == Crowd(m, q, 0, 0);
    } else {
      var init := Picking(q, w - 1, m, most, racing);
      PickExtends(init, q, w - 1, m, most, racing);
      PlainSnoc(init, Pick(AllUp(m), 0), m);
      moves := init + [Pick(AllUp(m), 0)];
    }
  }

  /** p of them are, and then k of those increment. */
  lemma {:induction false} Racing(q: nat, p: nat, k: nat, m: nat, most: nat, racing: nat) returns (moves: seq<Move>)
    requires m > 0 && racing > 0 && k <= p <= racing && Sum(Stair(m, q, 0)) + p <= most
    ensures Reaches(moves, Crowd(m, q, k, p - k), m, most, racing)
    ensures Plain(moves, m)
  {
    if k == 0 {
      moves := Picking(q, p, m, most, racing);
    } else {
      var init := Racing(q, p, k - 1, m, most, racing);
      IncrementExtends(init, q, k - 1, p - k, m, most, racing);
      PlainSnoc(init, Increment(0), m);
      moves := init + [Increment(0)];
    }
  }

  /** The bound cannot be lowered, whatever m, most and racing are: some run over m backends, all of
      them eligible at every pick, reaches it. */
  lemma RaceAttainsBound(m: nat, most: nat, racing: nat) returns (moves: seq<Move>)
    requires m > 0 && racing > 0
    ensures Within(m, moves, m, most, racing)
    ensures After(m, moves).Some? && After(m, moves).value.loads[0] == RaceBound(most, m, racing)
    ensures Plain(moves, m)
  {
    var p := Smaller(racing, most);
    var q := (most - p) / m;
    FlatSum(m, q);
    moves := Racing(q, p, p, m, most, racing);
  }

  // ---- ... by the counts of the backends ----

  /** m new backends, carrying these loads. */
  function Loaded(loads: seq<int>): seq<BackendState> {
    seq(|loads|, i requires 0 <= i < |loads| => NEW_BACKEND.(active := loads[i]))
  }

  function ActOf(e: Move, m: nat): Act {
    if e.Pick? then Select(seq(m, _ => 0), e.i) else Enter(e.i)
  }

  function ActsOf(moves: seq<Move>, m: nat): seq<Act> {
    if moves == [] then [] else ActsOf(moves[..|moves| - 1], m) + [ActOf(moves[|moves| - 1], m)]
  }

  /** The backends stand where the fleet stands. */
  predicate Mirrors(s: Site, f: Fleet) {
    Fits(s) && s.states == Loaded(f.loads) && s.waiting == f.waiting
  }

  lemma LoadedEligibility(loads: seq<int>, m: nat)
    requires |loads| == m
    ensures Eligibility(Loaded(loads), seq(m, _ => 0)) == AllUp(m)
    ensures Loads(Loaded(loads)) == loads
  {
  }

  lemma MoveIsAct(s: Site, f: Fleet, e: Move, m: nat)
    requires |f.loads| == |f.waiting| == m && Mirrors(s, f) && CanMove(f, e)
    requires e.Increment? || (e.Pick? && e.eligible == AllUp(m))
    ensures CanAct(s, ActOf(e, m)) && Mirrors(Acted(s, ActOf(e, m)), Moved(f, e))
    ensures Loads(Acted(s, ActOf(e, m)).states) == Moved(f, e).loads
  {
    LoadedEligibility(f.loads, m);
    LoadedEligibility(Moved(f, e).loads, m);
    if e.Increment? {
      assert Loaded(f.loads)[e.i := Connected(s.states[e.i])] == Loaded(f.loads[e.i := f.loads[e.i] + 1]);
    } else {
      assert forall j :: 0 <= j < m ==> Eligible(s.states[j], 0) && e.eligible[j];
    }
  }

  lemma ActSnoc(states: seq<BackendState>, acts: seq<Act>, a: Act, m: nat, most: nat, racing: nat)
    requires SiteAfter(states, acts).Some? && CanAct(SiteAfter(states, acts).value, a)
    requires Busy(states, acts, m, most, racing)
    requires var s := SiteAfter(states, acts).value;
             a.Select? ==> |a.nows| == |s.states| && Count(Eligibility(s.states, a.nows)) >= m
    requires var s' := Acted(SiteAfter(states, acts).value, a);
             Sum(Loads(s'.states)) + Sum(s'.waiting) <= most && Sum(s'.waiting) <= racing
    ensures SiteAfter(states, acts + [a]) == Some(Acted(SiteAfter(states, acts).value, a))
    ensures Busy(states, acts + [a], m, most, racing)
  {
    assert (acts + [a])[..|acts|] == acts;
  }

  lemma {:induction false} PlainRunsAreReal(moves: seq<Move>, m: nat, most: nat, racing: nat)
    requires Within(m, moves, m, most, racing) && Plain(moves, m) && After(m, moves).Some?
    ensures var s := SiteAfter(Loaded(Zeros(m)), ActsOf(moves, m));
            s.Some? && Mirrors(s.value, After(m, moves).value)
    ensures Busy(Loaded(Zeros(m)), ActsOf(moves, m), m, most, racing)
  {
    if moves != [] {
      var init, e := moves[..|moves| - 1], moves[|moves| - 1];
      assert moves[|moves| - 1].Increment? || moves[|moves| - 1].eligible == AllUp(m);
      assert Plain(init, m) by { assert forall k :: 0 <= k < |init| ==> init[k] == moves[k]; }
      PlainRunsAreReal(init, m, most, racing);
      var s, f := SiteAfter(Loaded(Zeros(m)), ActsOf(init, m)).value, After(m, init).value;
      MoveIsAct(s, f, e, m);
      LoadedEligibility(f.loads, m);
      AllUpCount(m);
      ActSnoc(Loaded(Zeros(m)), ActsOf(init, m), ActOf(e, m), m, most, racing);
    }
  }

  /** And the counts of m new backends reach the bound: it is attained by ActiveConnections itself. */
  lemma CountsAttainBound(m: nat, most: nat, racing: nat) returns (acts: seq<Act>)
    requires m > 0 && racing > 0
    ensures Busy(Loaded(Zeros(m)), acts, m, most, racing)
    ensures SiteAfter(Loaded(Zeros(m)), acts).Some?
    ensures SiteAfter(Loaded(Zeros(m)), acts).value.states[0].active == RaceBound(most, m, racing)
  {
    var moves := RaceAttainsBound(m, most, racing);
    PlainRunsAreReal(moves, m, most, racing);
    acts := ActsOf(moves, m);
  }
}
