/**
  The round-robin strategy (strategy/round_robin.go): a 64-bit ticket counter and a scan of at
  most n tickets per call.
 */
module RoundRobins {
  import opened Options
  import opened Backends
  import opened Tickets

  // ---- One call ----

  function FirstTrue(up: seq<bool>): (k: nat)
    ensures k <= |up|
    ensures forall j :: 0 <= j < k ==> !up[j]
    ensures k < |up| ==> up[k]
  {
    if up == [] || up[0] then 0 else 1 + FirstTrue(up[1..])
  }

  datatype Answer = Answer(counter: Counter, pick: Option<nat>)

  /** The tickets taken by a call whose attempts find `up`. */
  function Taken(up: seq<bool>): nat {
    if FirstTrue(up) < |up| then FirstTrue(up) + 1 else |up|
  }

  /** That call: attempt number a (from 0) takes ticket c + a + 1. */
  function Call(c: Counter, up: seq<bool>): Answer
    requires up != []
  {
    var t := Taken(up);
    Answer((c + t) % TICKETS, if FirstTrue(up) < |up| then Some(Slot(c, t, |up|)) else None)
  }

  /** What the attempts of a call find: attempt number a reads the clock `nows[a]`. */
  function TriedAt(c: Counter, states: seq<BackendState>, nows: seq<int>): seq<bool>
    requires states != [] && |nows| == |states|
  {
    seq(|states|, a requires 0 <= a < |states| => Eligible(states[Slot(c, a + 1, |states|)], nows[a]))
  }

  /** What they find when eligibility does not change meanwhile. */
  function Tried(c: Counter, eligible: seq<bool>): seq<bool>
    requires eligible != []
  {
    seq(|eligible|, a requires 0 <= a < |eligible| => eligible[Slot(c, a + 1, |eligible|)])
  }

  /** ... as it does not when every reading of the clock gives the same answers. */
  lemma SteadyReadings(c: Counter, states: seq<BackendState>, nows: seq<int>, eligible: seq<bool>)
    requires 0 < |nows| == |states| == |eligible|
    requires forall i, a :: 0 <= i < |states| && 0 <= a < |nows| ==> Eligible(states[i], nows[a]) == eligible[i]
    ensures TriedAt(c, states, nows) == Tried(c, eligible)
  {
  }

  lemma {:induction false} FirstTrueAt(up: seq<bool>, k: nat)
    requires k <= |up| && (forall j :: 0 <= j < k ==> !up[j])
    requires k < |up| ==> up[k]
    ensures FirstTrue(up) == k
  {
    if k > 0 { FirstTrueAt(up[1..], k - 1); }
  }

  lemma CallFound(c: Counter, up: seq<bool>, a: nat)
    requires a < |up| && up[a] && forall j :: 0 <= j < a ==> !up[j]
    ensures Call(c, up) == Answer((c + a + 1) % TICKETS, Some(Slot(c, a + 1, |up|)))
  {
    FirstTrueAt(up, a);
  }

  lemma CallFailed(c: Counter, up: seq<bool>)
    requires up != [] && forall j :: 0 <= j < |up| ==> !up[j]
    ensures Call(c, up) == Answer((c + |up|) % TICKETS, None)
  {
    FirstTrueAt(up, |up|);
  }

  // ---- The method ----

  /** The backend that the ticket a places after counter value c leads to. */
  function LookedAt(c: Counter, a: nat, backends: seq<Backend>): Backend
    requires backends != []
  {
    backends[(c + a) % 0x1_0000_0000_0000_0000 % |backends|]
  }

  lemma LookedAtSlot(c: Counter, a: nat, backends: seq<Backend>)
    requires backends != []
    ensures LookedAt(c, a, backends) == backends[Slot(c, a, |backends|)]
  {
    RemainderIsMod((c + a) % TICKETS, |backends|);
  }

  /** Attempt number a, from 1, finds its backend eligible. */
  predicate Sees(c: Counter, a: nat, backends: seq<Backend>, nows: seq<int>)
    requires 0 < a <= |backends| == |nows|
    reads backends
  {
    Eligible(LookedAt(c, a, backends).State(), nows[a - 1])
  }

  /** The scan made t attempts, none of which before the last found its backend eligible; it answers with
      the last one if that is, and gives up after n. */
  predicate Scan(c: Counter, backends: seq<Backend>, nows: seq<int>, c': Counter, b: Backend?, t: nat)
    requires |nows| == |backends|
    reads backends
  {
    && 0 < t <= |backends| && c' == (c + t) % 0x1_0000_0000_0000_0000
    && (forall a :: 0 < a < t ==> !Sees(c, a, backends, nows))
    && (if Sees(c, t, backends, nows) then b == LookedAt(c, t, backends) else b == null && t == |backends|)
  }

  lemma SeesIsTried(c: Counter, a: nat, backends: seq<Backend>, nows: seq<int>)
    requires 0 < a <= |backends| == |nows|
    ensures Sees(c, a, backends, nows) == TriedAt(c, States(backends), nows)[a - 1]
  {
    LookedAtSlot(c, a, backends);
  }

  /** What the call answers, as a backend. */
  function Answered(answer: Answer, backends: seq<Backend>): Backend? {
    if answer.pick.Some? && answer.pick.value < |backends| then backends[answer.pick.value] else null
  }

  lemma SeesNoneBefore(c: Counter, backends: seq<Backend>, nows: seq<int>, t: nat)
    requires 0 < |nows| == |backends| && t <= |backends|
    requires forall j :: 0 <= j < t - 1 ==> !TriedAt(c, States(backends), nows)[j]
    ensures forall a :: 0 < a < t ==> !Sees(c, a, backends, nows)
  {
    forall a | 0 < a < t
      ensures !Sees(c, a, backends, nows)
    {
      SeesIsTried(c, a, backends, nows);
    }
  }

  lemma AnsweredIs(c: Counter, up: seq<bool>, backends: seq<Backend>)
    requires 0 < |up| == |backends|
    ensures 0 < Taken(up) <= |up|
    ensures Call(c, up).counter == (c + Taken(up)) % TICKETS
    ensures if up[Taken(up) - 1] then Answered(Call(c, up), backends) == backends[Slot(c, Taken(up), |up|)]
            else Answered(Call(c, up), backends) == null && Taken(up) == |up|
  {
  }

  lemma CallScans(c: Counter, backends: seq<Backend>, nows: seq<int>)
    requires 0 < |nows| == |backends|
    ensures var up := TriedAt(c, States(backends), nows);
            Scan(c, backends, nows, Call(c, up).counter, Answered(Call(c, up), backends), Taken(up))
  {
    var up := TriedAt(c, States(backends), nows);
    AnsweredIs(c, up, backends);
    SeesNoneBefore(c, backends, nows, Taken(up));
    SeesIsTried(c, Taken(up), backends, nows);
    LookedAtSlot(c, Taken(up), backends);
  }

  class RoundRobin {
    var counter: Counter

    constructor ()
      ensures counter == 0
    {
      counter := 0;
    }

    /** One pass of the loop: attempt number `a` of a call that began with the counter at `c`. */
    method Attempt(backends: seq<Backend>, now: int, ghost c: Counter, ghost a: nat) returns (b: Backend?)
      requires a < |backends| && counter == (c + a) % TICKETS
      modifies this
      ensures counter == (c + a + 1) % TICKETS
      ensures var i := Slot(c, a + 1, |backends|);
              b == if Eligible(backends[i].State(), now) then backends[i] else null
      ensures counter == (old(counter) + 1) % 0x1_0000_0000_0000_0000
    {
      CounterStep(c, a);
      counter := (counter + 1) % TICKETS;
      RemainderIsMod(counter, |backends|);
      var idx := counter % |backends|;
      assert idx == Slot(c, a + 1, |backends|);
      var ok := backends[idx].CheckCircuitState(now);
      return if ok then backends[idx] else null;
    }

    /** The loop. */
    method Walk(backends: seq<Backend>, nows: seq<int>) returns (b: Backend?)
      requires 0 < |nows| == |backends|
      modifies this
      ensures var answer := Call(old(counter), TriedAt(old(counter), States(backends), nows));
              && counter == answer.counter
              && (answer.pick.None? ==> b == null)
              && (answer.pick.Some? ==> answer.pick.value < |backends| && b == backends[answer.pick.value])
    {
      ghost var c, up := counter, TriedAt(counter, States(backends), nows);
      for attempt := 0 to |backends|
        invariant counter == (c + attempt) % TICKETS
        invariant forall a :: 0 <= a < attempt ==> !up[a]
      {
        b := Attempt(backends, nows[attempt], c, attempt);
        assert up[attempt] == (b != null);
        if b != null {
          CallFound(c, up, attempt);
          return b;
        }
      }
      CallFailed(c, up);
      return null;
    }

    method NextBackend(backends: seq<Backend>, nows: seq<int>) returns (b: Backend?)
      requires |nows| == |backends|
      modifies this
      ensures backends == [] ==> b == null && counter == old(counter)
      ensures backends != [] ==>
                var answer := Call(old(counter), TriedAt(old(counter), States(backends), nows));
                && counter == answer.counter
                && (answer.pick.None? ==> b == null)
                && (answer.pick.Some? ==> answer.pick.value < |backends| && b == backends[answer.pick.value])
      ensures backends != [] ==> exists t: nat :: Scan(old(counter), backends, nows, counter, b, t)
    {
      var n := |backends|;
      if n == 0 {
        return null;
      }
      b := Walk(backends, nows);
      CallScans(old(counter), backends, nows);
    }
  }

  // ---- When the scan is complete ----

  /** One of the n tickets of a call leads to backend i. */
  predicate HasTicket(c: Counter, n: nat, i: nat) {
    exists a :: 0 < a <= n && Slot(c, a, n) == i
  }

  /** The tickets of one call reach every one of the n backends. */
  predicate Covers(c: Counter, n: nat) {
    forall i :: 0 <= i < n ==> HasTicket(c, n, i)
  }

  /** The call finds nothing exactly when nothing is eligible, for every eligibility. */
  ghost predicate Complete(c: Counter, n: nat) {
    forall eligible :: 0 < |eligible| == n ==>
      (Call(c, Tried(c, eligible)).pick.None? <==> true !in eligible)
  }

  /** The guard: no wrap of the counter within the call, or one that does no harm. */
  predicate WrapIsHarmless(c: Counter, n: nat)
    requires n > 0
  {
    Linear(c, n, n) || c == TICKETS - 1
  }

  lemma TicketWhenHarmless(c: Counter, n: nat, i: nat)
    requires i < n < TICKETS && WrapIsHarmless(c, n)
    ensures HasTicket(c, n, i)
  {
    if c == TICKETS - 1 {
      DivModUnique(c + i + 1, TICKETS, 1, i);
      assert Slot(c, i + 1, n) == i;
    } else {
      var d := ResidueAhead(c, i, n);
      DivModUnique(c, TICKETS, 0, c);
      LinearSlot(c, d, n);
      assert Slot(c, d, n) == i;
    }
  }

  lemma CoversWhenHarmless(c: Counter, n: nat)
    requires 0 < n < TICKETS && WrapIsHarmless(c, n)
    ensures Covers(c, n)
  {
    forall i | 0 <= i < n
      ensures HasTicket(c, n, i)
    {
      TicketWhenHarmless(c, n, i);
    }
  }

  /** If the counter wraps inside the call and n does not divide 2^64, one backend gets no ticket. */
  lemma MissedBackend(c: Counter, n: nat) returns (j: nat)
    requires 0 < n < TICKETS && !WrapIsHarmless(c, n)
    ensures j < n && forall a :: 0 < a <= n ==> Slot(c, a, n) != j
  {
    RemainderIsMod(TICKETS, n);
    var r := TICKETS % n;
    var before := TICKETS - 1 - c;  // tickets left before the wrap
    var after := n - before;        // tickets taken from 0 on
    j := if r >= after then r else after;
    forall a | 0 < a <= n
      ensures Slot(c, a, n) != j
    {
      if a <= before {
        DivModUnique(c + a, TICKETS, 0, c + a);
        ResidueBeforeWrap(n, TICKETS - c - a, j);
        RemainderIsMod(c + a, n);
      } else {
        DivModUnique(c + a, TICKETS, 1, a - before - 1);
      }
    }
  }

  /** k before the wrap the residue is (2^64 mod n) - k, taken modulo n. */
  lemma ResidueBeforeWrap(n: nat, k: nat, j: nat)
    requires 0 < k < n && k <= TICKETS && j < n
    requires j == TICKETS % n || (TICKETS % n < j && 0 < TICKETS % n && j + k <= n)
    ensures (TICKETS - k) % n != j
  {
    var q, r := TICKETS / n, TICKETS % n;
    assert TICKETS == n * q + r;
    if r >= k {
      DivModUnique(TICKETS - k, n, q, r - k);
    } else {
      assert n * (q - 1) == n * q - n;
      DivModUnique(TICKETS - k, n, q - 1, n + r - k);
    }
  }

  lemma CoversImpliesComplete(c: Counter, eligible: seq<bool>)
    requires eligible != [] && Covers(c, |eligible|)
    ensures Call(c, Tried(c, eligible)).pick.None? <==> true !in eligible
  {
    var up := Tried(c, eligible);
    if true in eligible {
      var i :| 0 <= i < |eligible| && eligible[i];
      assert HasTicket(c, |eligible|, i);
      var a :| 0 < a <= |eligible| && Slot(c, a, |eligible|) == i;
      CallStopsBy(c, up, a);
    } else {
      CallFailed(c, up);
    }
  }

  lemma MissedBackendIsNotFound(c: Counter, n: nat, j: nat) returns (only: seq<bool>)
    requires j < n && !HasTicket(c, n, j)
    ensures |only| == n && true in only && Call(c, Tried(c, only)).pick.None?
  {
    only := seq(n, k => k == j);
    assert only[j];
    var up := Tried(c, only);
    forall a | 0 <= a < n
      ensures !up[a]
    {
      assert Slot(c, a + 1, n) != j;
    }
  }

  /** Exactly when a call at counter value c misses no eligible backend: the counter does not wrap
      inside the call, or n divides 2^64, or the wrap comes with the first ticket. */
  lemma ScanCompleteIff(c: Counter, n: nat)
    requires 0 < n < TICKETS
    ensures Complete(c, n) <==> c + n < TICKETS || TICKETS % n == 0 || c == TICKETS - 1
  {
    RemainderIsMod(TICKETS, n);
    if WrapIsHarmless(c, n) {
      CoversWhenHarmless(c, n);
      forall eligible | 0 < |eligible| == n
        ensures Call(c, Tried(c, eligible)).pick.None? <==> true !in eligible
      {
        CoversImpliesComplete(c, eligible);
      }
    } else {
      var j := MissedBackend(c, n);
      var only := MissedBackendIsNotFound(c, n, j);
      assert Tried(c, only) != [];
    }
  }

  /** Ticket v + a is the first after v that leads to an eligible backend. */
  predicate FirstAfter(v: nat, eligible: seq<bool>, a: nat) {
    && 0 < a <= |eligible|
    && eligible[Index(v, a, |eligible|)]
    && forall b :: 0 < b < a ==> !eligible[Index(v, b, |eligible|)]
  }

  /** Over `steps` tickets, what follows counter value c is what follows the unbounded number `lo`. */
  predicate Aligned(c: Counter, lo: nat, steps: nat, n: nat)
    requires n > 0
  {
    forall a :: 0 < a <= steps ==> Slot(c, a, n) == Index(lo, a, n)
  }

  lemma TriedAligned(c: Counter, lo: nat, eligible: seq<bool>, b: nat)
    requires eligible != [] && Aligned(c, lo, Taken(Tried(c, eligible)), |eligible|)
    requires 0 < b <= Taken(Tried(c, eligible))
    ensures Tried(c, eligible)[b - 1] == eligible[Index(lo, b, |eligible|)]
  {
  }

  /** The call finds the first eligible backend in cyclic order, and nothing only if there is nothing. */
  lemma ScanFollows(c: Counter, lo: nat, eligible: seq<bool>)
    requires eligible != [] && Aligned(c, lo, Taken(Tried(c, eligible)), |eligible|)
    ensures var up, n := Tried(c, eligible), |eligible|;
            if true in eligible then
              FirstAfter(lo, eligible, Taken(up)) && Call(c, up).pick == Some(Index(lo, Taken(up), n))
            else Taken(up) == n && Call(c, up).pick == None
  {
    var up, n := Tried(c, eligible), |eligible|;
    forall b | 0 < b <= Taken(up)
      ensures up[b - 1] == eligible[Index(lo, b, n)]
    {
      TriedAligned(c, lo, eligible, b);
    }
    if true in eligible {
      SomeAttemptFinds(c, lo, eligible);
    } else {
      FirstTrueAt(up, n);
    }
  }

  lemma SomeAttemptFinds(c: Counter, lo: nat, eligible: seq<bool>)
    requires true in eligible
    requires forall b :: 0 < b <= Taken(Tried(c, eligible)) ==>
               Tried(c, eligible)[b - 1] == eligible[Index(lo, b, |eligible|)]
    ensures FirstTrue(Tried(c, eligible)) < |eligible|
    ensures FirstAfter(lo, eligible, Taken(Tried(c, eligible)))
  {
    var i :| 0 <= i < |eligible| && eligible[i];
    var d := ResidueAhead(lo, i, |eligible|);
  }

  lemma LinearIsAligned(v: nat, steps: nat, n: nat)
    requires n > 0 && Linear(v, steps, n)
    ensures Aligned(v % TICKETS, v, steps, n)
  {
    forall a | 0 < a <= steps
      ensures Slot(v % TICKETS, a, n) == Index(v, a, n)
    {
      LinearSlot(v, a, n);
    }
  }

  lemma CounterAfterCall(v: nat, up: seq<bool>)
    requires up != []
    ensures Call(v % TICKETS, up).counter == (v + Taken(up)) % TICKETS
  {
    var c, t := v % TICKETS, Taken(up);
    WrapAdd(v, t);
    assert Call(c, up).counter == (c + t) % TICKETS;
  }

  /** The call picks the first eligible backend in cyclic order after the counter, and finds none
      only if there is none; provided the tickets it takes do not wrap the counter, or the number of
      backends divides 2^64. */
  lemma ScanPicksFirst(v: nat, eligible: seq<bool>)
    requires eligible != [] && Linear(v, Taken(Tried(v % TICKETS, eligible)), |eligible|)
    ensures var answer, a := Call(v % TICKETS, Tried(v % TICKETS, eligible)), Taken(Tried(v % TICKETS, eligible));
            if true in eligible then
              FirstAfter(v, eligible, a) && answer == Answer((v + a) % TICKETS, Some(Index(v, a, |eligible|)))
            else answer == Answer((v + |eligible|) % TICKETS, None)
  {
    var up := Tried(v % TICKETS, eligible);
    CounterAfterCall(v, up);
    LinearIsAligned(v, Taken(up), |eligible|);
    ScanFollows(v % TICKETS, v, eligible);
  }

  /** The same of the method's own readings, whenever the clock readings of the call all give the same
      answers. */
  lemma ReadingsPickFirst(v: nat, states: seq<BackendState>, nows: seq<int>, eligible: seq<bool>)
    requires 0 < |nows| == |states| == |eligible|
    requires forall i, a :: 0 <= i < |states| && 0 <= a < |nows| ==> Eligible(states[i], nows[a]) == eligible[i]
    requires Linear(v, Taken(TriedAt(v % TICKETS, states, nows)), |states|)
    ensures var answer := Call(v % TICKETS, TriedAt(v % TICKETS, states, nows));
            var a := Taken(TriedAt(v % TICKETS, states, nows));
            if true in eligible then
              FirstAfter(v, eligible, a) && answer == Answer((v + a) % TICKETS, Some(Index(v, a, |states|)))
            else answer == Answer((v + |states|) % TICKETS, None)
  {
    SteadyReadings(v % TICKETS, states, nows, eligible);
    ScanPicksFirst(v, eligible);
  }

  // ---- Starvation freedom under changing eligibility ----

  /** What a run of calls picks when call number k finds `ups[k]`. */
  function Picks(c: Counter, ups: seq<seq<bool>>, n: nat): seq<Option<nat>>
    requires n > 0 && forall k :: 0 <= k < |ups| ==> |ups[k]| == n
    decreases |ups|
  {
    if ups == [] then []
    else [Call(c, ups[0]).pick] + Picks(Call(c, ups[0]).counter, ups[1..], n)
  }

  /** Every attempt of the run that looks at backend i finds it eligible. */
  predicate SteadilyUp(c: Counter, ups: seq<seq<bool>>, n: nat, i: nat)
    requires n > 0 && forall k :: 0 <= k < |ups| ==> |ups[k]| == n
    decreases |ups|
  {
    ups != [] ==>
      && (forall a :: 0 <= a < n && Slot(c, a + 1, n) == i ==> ups[0][a])
      && SteadilyUp(Call(c, ups[0]).counter, ups[1..], n, i)
  }

  /** A call stops at the latest with the first attempt known to succeed. */
  lemma CallStopsBy(c: Counter, up: seq<bool>, d: nat)
    requires 0 < d <= |up| && up[d - 1]
    ensures FirstTrue(up) < d && Call(c, up).counter == (c + (FirstTrue(up) + 1)) % TICKETS
    ensures FirstTrue(up) + 1 == d ==> Call(c, up).pick == Some(Slot(c, d, |up|))
  {
    CallFound(c, up, FirstTrue(up));
    assert c + FirstTrue(up) + 1 == c + (FirstTrue(up) + 1);
  }

  /** Seen from a later counter value the same ticket is that much nearer. */
  lemma SlotShift(c: Counter, a: nat, d: nat, n: nat)
    requires n > 0 && a <= d
    ensures Slot((c + a) % TICKETS, d - a, n) == Slot(c, d, n)
  {
    CounterStep(c + a, d - a);
    assert c + a + (d - a) == c + d;
  }

  /** A call never passes over a ticket of backend i while that is up: it either answers with it, or
      stops earlier and leaves the ticket for the calls to come. */
  lemma CallAndTicket(c: Counter, up: seq<bool>, i: nat, d: nat) returns (rest: nat)
    requires 0 < d <= |up| && Slot(c, d, |up|) == i && up[d - 1]
    ensures rest < d
    ensures rest == 0 ==> Call(c, up).pick == Some(i)
    ensures rest > 0 ==> Slot(Call(c, up).counter, rest, |up|) == i
  {
    CallStopsBy(c, up, d);
    rest := d - (FirstTrue(up) + 1);
    SlotShift(c, FirstTrue(up) + 1, d, |up|);
  }

  lemma {:induction false} PickedBeforeTicket(c: Counter, ups: seq<seq<bool>>, n: nat, i: nat, d: nat) returns (k: nat)
    requires 0 < n && i < n && forall k :: 0 <= k < |ups| ==> |ups[k]| == n
    requires SteadilyUp(c, ups, n, i)
    requires 0 < d <= n && d <= |ups| && Slot(c, d, n) == i
    ensures |Picks(c, ups, n)| == |ups|
    ensures k < d && Picks(c, ups, n)[k] == Some(i)
    decreases d
  {
    PicksLength(c, ups, n);
    var rest := CallAndTicket(c, ups[0], i, d);
    if rest == 0 {
      k := 0;
    } else {
      var later := PickedBeforeTicket(Call(c, ups[0]).counter, ups[1..], n, i, rest);
      k := later + 1;
    }
  }

  lemma {:induction false} PicksLength(c: Counter, ups: seq<seq<bool>>, n: nat)
    requires n > 0 && forall k :: 0 <= k < |ups| ==> |ups[k]| == n
    ensures |Picks(c, ups, n)| == |ups|
    decreases |ups|
  {
    if ups != [] { PicksLength(Call(c, ups[0]).counter, ups[1..], n); }
  }

  /** A backend that stays eligible is picked within n calls, however the eligibility of the others
      changes between calls and even between the attempts of one call, if one of the next n tickets
      leads to it. */
  lemma NoStarvation(c: Counter, ups: seq<seq<bool>>, n: nat, i: nat) returns (k: nat)
    requires i < n <= |ups| && forall k :: 0 <= k < |ups| ==> |ups[k]| == n
    requires SteadilyUp(c, ups, n, i)
    requires HasTicket(c, n, i)
    ensures |Picks(c, ups, n)| == |ups|
    ensures k < n && Picks(c, ups, n)[k] == Some(i)
  {
    var d :| 0 < d <= n && Slot(c, d, n) == i;
    k := PickedBeforeTicket(c, ups, n, i, d);
  }

  /** n calls. */
  predicate Round(ups: seq<seq<bool>>, n: nat) {
    |ups| == n && forall k :: 0 <= k < |ups| ==> |ups[k]| == n
  }

  /** Whatever n calls from counter value c find, they pick backend i if they find it steadily up. */
  ghost predicate NeverStarves(c: Counter, n: nat, i: nat)
    requires n > 0
  {
    forall ups :: Round(ups, n) && SteadilyUp(c, ups, n, i) ==> Some(i) in Picks(c, ups, n)
  }

  function Everyone(n: nat): (up: seq<bool>)
    ensures |up| == n
  {
    seq(n, _ => true)
  }

  /** k calls that find everyone up. */
  function AllUp(n: nat, k: nat): (ups: seq<seq<bool>>)
    ensures |ups| == k && forall j :: 0 <= j < k ==> ups[j] == Everyone(n)
  {
    seq(k, _ => Everyone(n))
  }

  lemma OneTurn(c: Counter, n: nat)
    requires n > 0
    ensures Call(c, Everyone(n)) == Answer((c + 1) % TICKETS, Some(Slot(c, 1, n)))
  {
    CallFound(c, Everyone(n), 0);
  }

  /** Then each call takes one ticket and answers with it. */
  lemma {:induction false} EveryoneTakesTurns(c: Counter, n: nat, k: nat, i: nat)
    requires n > 0 && forall a :: 0 < a <= k ==> Slot(c, a, n) != i
    ensures SteadilyUp(c, AllUp(n, k), n, i) && Some(i) !in Picks(c, AllUp(n, k), n)
    decreases k
  {
    if k > 0 {
      var next := (c + 1) % TICKETS;
      OneTurn(c, n);
      assert AllUp(n, k)[1..] == AllUp(n, k - 1);
      forall a | 0 < a <= k - 1
        ensures Slot(next, a, n) != i
      {
        SlotShift(c, 1, a + 1, n);
      }
      EveryoneTakesTurns(next, n, k - 1, i);
    }
  }

  /** For one backend: it can be passed over for n calls if and only if none of the next n tickets
      leads to it. */
  lemma NoStarvationIff(c: Counter, n: nat, i: nat)
    requires i < n
    ensures NeverStarves(c, n, i) <==> HasTicket(c, n, i)
  {
    if HasTicket(c, n, i) {
      forall ups | Round(ups, n) && SteadilyUp(c, ups, n, i)
        ensures Some(i) in Picks(c, ups, n)
      {
        var k := NoStarvation(c, ups, n, i);
      }
    } else {
      EveryoneTakesTurns(c, n, n, i);
      assert Round(AllUp(n, n), n);
    }
  }

  /** For all backends: nobody starves from counter value c on if and only if the counter does not wrap
      within the next n tickets, or n divides 2^64, or the wrap comes with the first of them. */
  lemma NobodyStarvesIff(c: Counter, n: nat)
    requires 0 < n < TICKETS
    ensures (forall i: nat :: i < n ==> NeverStarves(c, n, i))
            <==> c + n < TICKETS || TICKETS % n == 0 || c == TICKETS - 1
  {
    RemainderIsMod(TICKETS, n);
    if WrapIsHarmless(c, n) {
      CoversWhenHarmless(c, n);
      forall i: nat | i < n
        ensures NeverStarves(c, n, i)
      {
        assert HasTicket(c, n, i);
        NoStarvationIff(c, n, i);
      }
    } else {
      var j := MissedBackend(c, n);
      NoStarvationIff(c, n, j);
    }
  }
}
