/**
  Round-robin calls that run at the same time (strategy/round_robin.go:26-33), with a fixed eligible set.

  Every attempt of a call is one step: it takes the next ticket and looks at the backend that leads to.
  Attempts of any number of calls interleave freely, and a call that has found a backend returns later.
 */
module ConcurrentRoundRobin {
  import opened Options
  import opened Counting
  import opened Tickets
  import opened RoundRobins
  import opened RoundRobinFairness

  datatype Event = Attempt(call: nat) | Return(call: nat)

  /** `taken` counts the tickets; `tries` says how many attempts of an unfinished call have failed and
      `holding` what a call has found; `picks` are the answers returned and `failed` counts the nils. */
  datatype Shared = Shared(
    counter: Counter,
    taken: nat,
    tries: map<nat, nat>,
    holding: map<nat, nat>,
    picks: seq<nat>,
    failed: nat)

  function Fresh(v: nat): Shared {
    Shared(v % TICKETS, 0, map[], map[], [], 0)
  }

  predicate CanStep(s: Shared, e: Event) {
    match e case Attempt(call) => call !in s.holding case Return(call) => call in s.holding
  }

  /** How many attempts the call has behind it. */
  function Tries(s: Shared, call: nat): nat {
    if call in s.tries then s.tries[call] else 0
  }

  function Attempted(s: Shared, call: nat, eligible: seq<bool>): Shared
    requires eligible != []
  {
    var i := Slot(s.counter, 1, |eligible|);
    var t := s.(counter := (s.counter + 1) % TICKETS, taken := s.taken + 1, tries := s.tries - {call});
    if eligible[i] then t.(holding := s.holding[call := i])
    else if Tries(s, call) + 1 >= |eligible| then t.(failed := s.failed + 1)
    else t.(tries := s.tries[call := Tries(s, call) + 1])
  }

  function StepShared(s: Shared, e: Event, eligible: seq<bool>): Shared
    requires eligible != [] && CanStep(s, e)
  {
    match e
    case Attempt(call) => Attempted(s, call, eligible)
    case Return(call) => s.(holding := s.holding - {call}, picks := s.picks + [s.holding[call]])
  }

  function RunShared(s: Shared, es: seq<Event>, eligible: seq<bool>): Option<Shared>
    requires eligible != []
  {
    if es == [] then Some(s)
    else
      var k, e := RunShared(s, es[..|es| - 1], eligible), es[|es| - 1];
      if k.Some? && CanStep(k.value, e) then Some(StepShared(k.value, e, eligible)) else None
  }

  function Holders(s: Shared, i: nat): set<nat> {
    set call | call in s.holding && s.holding[call] == i
  }

  // ---- One call alone, and one among others ----

  lemma RunSnoc(s: Shared, es: seq<Event>, e: Event, eligible: seq<bool>)
    requires eligible != []
    ensures RunShared(s, es + [e], eligible) ==
            var k := RunShared(s, es, eligible);
            if k.Some? && CanStep(k.value, e) then Some(StepShared(k.value, e, eligible)) else None
  {
    assert (es + [e])[..|es|] == es;
  }

  /** The events of a call that makes t attempts without interruption. */
  function Alone(call: nat, t: nat): (es: seq<Event>)
    ensures |es| == t
  {
    seq(t, _ => Attempt(call))
  }

  /** The state after d failed attempts in a row. */
  function Failing(s: Shared, call: nat, d: nat): Shared {
    s.(counter := (s.counter + d) % TICKETS, taken := s.taken + d,
       tries := if d == 0 then s.tries else s.tries[call := d])
  }

  /** The ticket that attempt number d + 1 takes. */
  lemma NextTicket(s: Shared, call: nat, d: nat, n: nat)
    requires n > 0
    ensures Slot(Failing(s, call, d).counter, 1, n) == Slot(s.counter, d + 1, n)
    ensures (Failing(s, call, d).counter + 1) % TICKETS == (s.counter + (d + 1)) % TICKETS
  {
    SlotShift(s.counter, d, d + 1, n);
    CounterStep(s.counter, d);
    assert s.counter + d + 1 == s.counter + (d + 1);
  }

  lemma OneMoreFailure(s: Shared, call: nat, eligible: seq<bool>, d: nat)
    requires call !in s.holding && call !in s.tries && d + 1 < |eligible|
    requires !eligible[Slot(s.counter, d + 1, |eligible|)]
    ensures StepShared(Failing(s, call, d), Attempt(call), eligible) == Failing(s, call, d + 1)
  {
    NextTicket(s, call, d, |eligible|);
    if d > 0 { assert s.tries[call := d][call := d + 1] == s.tries[call := d + 1]; }
  }

  lemma {:induction false} FailuresInARow(s: Shared, call: nat, eligible: seq<bool>, d: nat)
    requires call !in s.holding && call !in s.tries && d < |eligible|
    requires forall a :: 0 < a <= d ==> !eligible[Slot(s.counter, a, |eligible|)]
    ensures RunShared(s, Alone(call, d), eligible) == Some(Failing(s, call, d))
  {
    if d == 0 {
      DivModUnique(s.counter, TICKETS, 0, s.counter);
    } else {
      FailuresInARow(s, call, eligible, d - 1);
      OneMoreFailure(s, call, eligible, d - 1);
      assert Alone(call, d) == Alone(call, d - 1) + [Attempt(call)];
      RunSnoc(s, Alone(call, d - 1), Attempt(call), eligible);
    }
  }

  /** The last attempt of a call: it finds a backend, or it is the n-th. */
  lemma LastAttempt(s: Shared, call: nat, eligible: seq<bool>, d: nat)
    requires call !in s.holding && call !in s.tries && d < |eligible|
    requires eligible[Slot(s.counter, d + 1, |eligible|)] || d + 1 == |eligible|
    ensures var slot, k := Slot(s.counter, d + 1, |eligible|), StepShared(Failing(s, call, d), Attempt(call), eligible);
            && k.counter == (s.counter + (d + 1)) % TICKETS && k.taken == s.taken + d + 1
            && k.tries == s.tries && k.picks == s.picks
            && k.holding == (if eligible[slot] then s.holding[call := slot] else s.holding)
            && k.failed == (if eligible[slot] then s.failed else s.failed + 1)
  {
    NextTicket(s, call, d, |eligible|);
    if d > 0 { assert s.tries[call := d] - {call} == s.tries; } else { assert s.tries - {call} == s.tries; }
  }

  /** The call has ended with this answer, and nothing else has changed. */
  predicate EndsWith(s: Shared, k: Shared, call: nat, answer: Answer) {
    && k.counter == answer.counter && k.tries == s.tries && k.picks == s.picks
    && k.holding == (if answer.pick.Some? then s.holding[call := answer.pick.value] else s.holding)
    && k.failed == (if answer.pick.Some? then s.failed else s.failed + 1)
  }

  lemma AttemptsOfCall(c: Counter, eligible: seq<bool>) returns (d: nat)
    requires eligible != []
    ensures d < |eligible| && d + 1 == Taken(Tried(c, eligible))
    ensures forall a :: 0 < a <= d ==> !eligible[Slot(c, a, |eligible|)]
    ensures var slot := Slot(c, d + 1, |eligible|);
            && (eligible[slot] || d + 1 == |eligible|)
            && Call(c, Tried(c, eligible)).counter == (c + (d + 1)) % TICKETS
            && Call(c, Tried(c, eligible)).pick == if eligible[slot] then Some(slot) else None
  {
    var up := Tried(c, eligible);
    d := Taken(up) - 1;
    forall a | 0 < a <= d
      ensures !eligible[Slot(c, a, |eligible|)]
    {
      assert !up[a - 1];
    }
    assert up[d] == eligible[Slot(c, d + 1, |eligible|)];
  }

  /** A call with no attempts behind it that runs without interruption does what `Call` says: it takes
      those tickets, ends with that counter and that answer, and touches nothing else. */
  lemma UninterruptedCall(s: Shared, call: nat, eligible: seq<bool>)
    requires eligible != [] && call !in s.holding && call !in s.tries
    ensures var up := Tried(s.counter, eligible);
            var k := RunShared(s, Alone(call, Taken(up)), eligible);
            && k.Some? && k.value.taken == s.taken + Taken(up)
            && EndsWith(s, k.value, call, Call(s.counter, up))
  {
    var d := AttemptsOfCall(s.counter, eligible);
    FailuresInARow(s, call, eligible, d);
    LastAttempt(s, call, eligible, d);
    RunSnoc(s, Alone(call, d), Attempt(call), eligible);
    assert Alone(call, d + 1) == Alone(call, d) + [Attempt(call)];
  }

  /** How many tickets the events take. */
  function Drawn(es: seq<Event>): nat {
    if es == [] then 0 else Drawn(es[..|es| - 1]) + if es[|es| - 1].Attempt? then 1 else 0
  }

  /** Where the next ticket after these events leads. */
  function NextSlot(v: nat, es: seq<Event>, n: nat): nat
    requires n > 0
  {
    (v + Drawn(es) + 1) % 0x1_0000_0000_0000_0000 % n
  }

  /** The last event is an attempt of the call that ends it: the call now holds a backend, or one more
      nil has been answered. */
  predicate EndsCall(v: nat, es: seq<Event>, call: nat, eligible: seq<bool>)
    requires eligible != [] && es != []
  {
    var s, s' := RunShared(Fresh(v), es[..|es| - 1], eligible), RunShared(Fresh(v), es, eligible);
    && es[|es| - 1] == Attempt(call) && s.Some? && s'.Some?
    && (call in s'.value.holding || s'.value.failed > s.value.failed)
  }

  /** Where the tickets lead that the call has taken since it last ended. */
  function Since(v: nat, es: seq<Event>, call: nat, eligible: seq<bool>): seq<nat>
    requires eligible != []
  {
    if es == [] then []
    else
      var init := es[..|es| - 1];
      if es[|es| - 1] != Attempt(call) then Since(v, init, call, eligible)
      else if EndsCall(v, es, call, eligible) then []
      else Since(v, init, call, eligible) + [NextSlot(v, init, |eligible|)]
  }

  predicate AllIneligible(slots: seq<nat>, eligible: seq<bool>) {
    forall j :: 0 <= j < |slots| ==> slots[j] < |eligible| && !eligible[slots[j]]
  }

  /** The stored counts say what the events say. */
  predicate Counted(s: Shared, v: nat, es: seq<Event>, call: nat, eligible: seq<bool>)
    requires eligible != []
  {
    var since := Since(v, es, call, eligible);
    && s.counter == (v + s.taken) % TICKETS && s.taken == Drawn(es)
    && Tries(s, call) == |since| < |eligible| && (call in s.tries <==> since != [])
    && AllIneligible(since, eligible)
  }

  lemma NextSlotIs(s: Shared, v: nat, es: seq<Event>, n: nat)
    requires n > 0 && s.counter == (v + s.taken) % TICKETS && s.taken == Drawn(es)
    ensures NextSlot(v, es, n) == Slot(s.counter, 1, n)
  {
    CounterStep(v, s.taken);
    RemainderIsMod((v + s.taken + 1) % TICKETS, n);
  }

  lemma OwnStep(s: Shared, call: nat, eligible: seq<bool>)
    requires eligible != [] && call !in s.holding
    ensures var slot, k := Slot(s.counter, 1, |eligible|), Attempted(s, call, eligible);
            var ends := eligible[slot] || Tries(s, call) + 1 >= |eligible|;
            && (ends <==> call in k.holding || k.failed > s.failed)
            && Tries(k, call) == (if ends then 0 else Tries(s, call) + 1)
            && (call in k.tries <==> !ends)
  {
  }

  lemma OtherStep(s: Shared, e: Event, call: nat, eligible: seq<bool>)
    requires eligible != [] && CanStep(s, e) && e != Attempt(call)
    ensures var k := StepShared(s, e, eligible);
            Tries(k, call) == Tries(s, call) && (call in k.tries <==> call in s.tries)
  {
  }

  lemma CounterFollows(s: Shared, v: nat, e: Event, eligible: seq<bool>)
    requires eligible != [] && CanStep(s, e) && s.counter == (v + s.taken) % TICKETS
    ensures var k := StepShared(s, e, eligible);
            k.counter == (v + k.taken) % TICKETS && k.taken == s.taken + if e.Attempt? then 1 else 0
  {
    CounterStep(v, s.taken);
  }

  lemma SinceSnoc(v: nat, es: seq<Event>, e: Event, call: nat, eligible: seq<bool>)
    requires eligible != [] && RunShared(Fresh(v), es, eligible).Some?
    requires CanStep(RunShared(Fresh(v), es, eligible).value, e)
    ensures var s := RunShared(Fresh(v), es, eligible).value;
            var k, before := StepShared(s, e, eligible), Since(v, es, call, eligible);
            && RunShared(Fresh(v), es + [e], eligible) == Some(k)
            && Drawn(es + [e]) == Drawn(es) + (if e.Attempt? then 1 else 0)
            && Since(v, es + [e], call, eligible) ==
               if e != Attempt(call) then before
               else if call in k.holding || k.failed > s.failed then []
               else before + [NextSlot(v, es, |eligible|)]
  {
    assert (es + [e])[..|es|] == es;
    RunSnoc(Fresh(v), es, e, eligible);
  }

  lemma CountedStep(v: nat, es: seq<Event>, e: Event, call: nat, eligible: seq<bool>)
    requires eligible != [] && RunShared(Fresh(v), es, eligible).Some?
    requires CanStep(RunShared(Fresh(v), es, eligible).value, e)
    requires Counted(RunShared(Fresh(v), es, eligible).value, v, es, call, eligible)
    ensures Counted(StepShared(RunShared(Fresh(v), es, eligible).value, e, eligible), v, es + [e], call, eligible)
  {
    var s := RunShared(Fresh(v), es, eligible).value;
    SinceSnoc(v, es, e, call, eligible);
    CounterFollows(s, v, e, eligible);
    if e == Attempt(call) {
      OwnStep(s, call, eligible);
      NextSlotIs(s, v, es, |eligible|);
    } else {
      OtherStep(s, e, call, eligible);
    }
  }

  lemma {:induction false} CountsMatchEvents(v: nat, es: seq<Event>, call: nat, eligible: seq<bool>)
    requires eligible != [] && RunShared(Fresh(v), es, eligible).Some?
    ensures Counted(RunShared(Fresh(v), es, eligible).value, v, es, call, eligible)
  {
    if es != [] {
      var init := es[..|es| - 1];
      CountsMatchEvents(v, init, call, eligible);
      assert es == init + [es[|es| - 1]];
      CountedStep(v, init, es[|es| - 1], call, eligible);
    }
  }

  /** In every interleaving, counted on the events: a step answers nil if and only if it is the n-th
      attempt of a call since it last ended and all n tickets led to ineligible backends; and a call comes
      to hold the backend its ticket leads to if and only if that is eligible. */
  lemma FailsExactlyOnTheNth(v: nat, es: seq<Event>, e: Event, eligible: seq<bool>)
    requires eligible != [] && RunShared(Fresh(v), es + [e], eligible).Some?
    ensures RunShared(Fresh(v), es, eligible).Some?
    ensures var s, s' := RunShared(Fresh(v), es, eligible).value, RunShared(Fresh(v), es + [e], eligible).value;
            var slot, since := NextSlot(v, es, |eligible|), Since(v, es, e.call, eligible);
            && slot < |eligible| && s.failed <= s'.failed <= s.failed + 1
            && (s'.failed > s.failed <==>
                  && e.Attempt? && |since| + 1 == |eligible|
                  && AllIneligible(since, eligible) && !eligible[slot])
            && (e.Attempt? ==> s'.holding == if eligible[slot] then s.holding[e.call := slot] else s.holding)
  {
    RunSnoc(Fresh(v), es, e, eligible);
    CountsMatchEvents(v, es, e.call, eligible);
    NextSlotIs(RunShared(Fresh(v), es, eligible).value, v, es, |eligible|);
  }

  // ---- No ticket of an eligible backend is lost ----

  /** Picks made and picks to come, by backend. */
  function Share(s: Shared, i: nat): nat {
    Tally(s.picks, i) + |Holders(s, i)|
  }

  lemma HoldersAfter(s: Shared, call: nat, slot: nat, i: nat)
    requires call !in s.holding
    ensures |Holders(s.(holding := s.holding[call := slot]), i)| == |Holders(s, i)| + if slot == i then 1 else 0
  {
    var s' := s.(holding := s.holding[call := slot]);
    if slot == i {
      assert Holders(s', i) == Holders(s, i) + {call};
    } else {
      assert Holders(s', i) == Holders(s, i);
    }
  }

  lemma AttemptAddsShare(s: Shared, call: nat, eligible: seq<bool>, i: nat)
    requires eligible != [] && call !in s.holding
    ensures var slot := Slot(s.counter, 1, |eligible|);
            Share(Attempted(s, call, eligible), i) == Share(s, i) + if slot == i && eligible[slot] then 1 else 0
  {
    var slot, s' := Slot(s.counter, 1, |eligible|), Attempted(s, call, eligible);
    HoldersAfter(s, call, slot, i);
    if eligible[slot] {
      assert Holders(s', i) == Holders(s.(holding := s.holding[call := slot]), i);
    } else {
      assert Holders(s', i) == Holders(s, i);
    }
  }

  lemma ReturnKeepsShare(s: Shared, call: nat, eligible: seq<bool>, i: nat)
    requires eligible != [] && call in s.holding
    ensures Share(StepShared(s, Return(call), eligible), i) == Share(s, i)
  {
    var s' := StepShared(s, Return(call), eligible);
    assert s'.picks[..|s'.picks| - 1] == s.picks;
    if s.holding[call] == i {
      assert call in Holders(s, i);
      assert Holders(s', i) == Holders(s, i) - {call};
    } else {
      assert Holders(s', i) == Holders(s, i);
    }
  }

  /** The picks and holders of i are the tickets that lead to it, if it is eligible; else there are none. */
  predicate NothingLost(s: Shared, v: nat, eligible: seq<bool>, i: nat)
    requires i < |eligible|
  {
    && s.counter == (v + s.taken) % TICKETS
    && Share(s, i) == if eligible[i] then SlotHits(v % TICKETS, s.taken, i, |eligible|) else 0
  }

  lemma NothingLostStep(s: Shared, e: Event, v: nat, eligible: seq<bool>, i: nat)
    requires i < |eligible| && NothingLost(s, v, eligible, i) && CanStep(s, e)
    ensures NothingLost(StepShared(s, e, eligible), v, eligible, i)
  {
    match e
    case Attempt(call) =>
      AttemptAddsShare(s, call, eligible, i);
      SlotHitsOnward(v, s.taken, 1, i, |eligible|);
      CounterStep(v, s.taken);
    case Return(call) =>
      ReturnKeepsShare(s, call, eligible, i);
  }

  /** Whatever the interleaving and however often the counter wraps: every ticket that leads to an
      eligible backend has ended in a pick of it, or is held by a call about to return it; nobody else is
      ever picked. */
  lemma {:induction false} NoTicketIsLost(v: nat, es: seq<Event>, eligible: seq<bool>, i: nat)
    requires i < |eligible| && RunShared(Fresh(v), es, eligible).Some?
    ensures NothingLost(RunShared(Fresh(v), es, eligible).value, v, eligible, i)
  {
    if es != [] {
      var init := es[..|es| - 1];
      NoTicketIsLost(v, init, eligible, i);
      NothingLostStep(RunShared(Fresh(v), init, eligible).value, es[|es| - 1], v, eligible, i);
    }
  }

  // ---- Fairness ----

  lemma {:induction false} AlignedHits(c: Counter, lo: nat, steps: nat, i: nat, n: nat)
    requires n > 0 && Aligned(c, lo, steps, n)
    ensures SlotHits(c, steps, i, n) == Hits(lo, lo + steps, i, n)
  {
    if steps > 0 {
      AlignedHits(c, lo, steps - 1, i, n);
      assert Slot(c, steps, n) == Index(lo, steps, n);
    }
  }

  lemma SlotHitsBalanced(c: Counter, steps: nat, i: nat, n: nat)
    requires i < n && Unbroken(c, steps, n)
    ensures steps / n <= SlotHits(c, steps, i, n) <= steps / n + 1
  {
    var lo := UnbrokenIsAligned(c, steps, n);
    AlignedHits(c, lo, steps, i, n);
    HitsBalanced(lo, lo + steps, i, n);
  }

  lemma {:induction false} CardinalityMonotone(a: set<nat>, b: set<nat>)
    requires a <= b
    ensures |a| <= |b|
  {
    if a != {} {
      var x :| x in a;
      CardinalityMonotone(a - {x}, b - {x});
    }
  }

  lemma SharesAreFair(s: Shared, v: nat, eligible: seq<bool>, i: nat, j: nat)
    requires i < |eligible| && j < |eligible| && eligible[i] && eligible[j]
    requires NothingLost(s, v, eligible, i) && NothingLost(s, v, eligible, j)
    requires Unbroken(v % TICKETS, s.taken, |eligible|)
    ensures Tally(s.picks, i) <= Tally(s.picks, j) + 1 + |s.holding|
  {
    SlotHitsBalanced(v % TICKETS, s.taken, i, |eligible|);
    SlotHitsBalanced(v % TICKETS, s.taken, j, |eligible|);
    CardinalityMonotone(Holders(s, j), s.holding.Keys);
  }

  /** After any interleaving of concurrent calls the completed picks of two eligible backends differ by at
      most one plus the number of calls that have found a backend and not returned it yet: by at most one
      whenever every call has returned.  The tickets taken must not wrap the counter harmfully. */
  lemma ConcurrentCallsAreFair(v: nat, es: seq<Event>, eligible: seq<bool>, i: nat, j: nat)
    requires i < |eligible| && j < |eligible| && eligible[i] && eligible[j]
    requires RunShared(Fresh(v), es, eligible).Some?
    requires Unbroken(v % TICKETS, RunShared(Fresh(v), es, eligible).value.taken, |eligible|)
    ensures var s := RunShared(Fresh(v), es, eligible).value;
            Tally(s.picks, i) <= Tally(s.picks, j) + 1 + |s.holding|
  {
    NoTicketIsLost(v, es, eligible, i);
    NoTicketIsLost(v, es, eligible, j);
    SharesAreFair(RunShared(Fresh(v), es, eligible).value, v, eligible, i, j);
  }

  // ---- A call can fail although somebody is eligible ----

  /** Call 0 has `t` failed attempts behind it and has found nothing; or some call has failed. */
  predicate Luckless(s: Shared, t: nat) {
    s.failed > 0 || (0 !in s.holding && Tries(s, 0) == t)
  }

  /** Call numbers from `next` up hold nothing. */
  predicate Unused(s: Shared, next: nat) {
    next > 0 && forall call :: call in s.holding ==> call < next
  }

  /** The others have taken d tickets. */
  predicate Passed(s: Shared, t: nat, next: nat, c: Counter, d: nat) {
    Luckless(s, t) && Unused(s, next + d) && s.counter == (c + d) % TICKETS
  }

  lemma OtherAttempt(s: Shared, eligible: seq<bool>, t: nat, next: nat, c: Counter, d: nat)
    requires eligible != [] && Passed(s, t, next, c, d)
    ensures Passed(Attempted(s, next + d, eligible), t, next, c, d + 1)
  {
    CounterStep(c, d);
  }

  lemma OneOther(s: Shared, es: seq<Event>, eligible: seq<bool>, t: nat, next: nat, c: Counter, d: nat)
    returns (longer: seq<Event>)
    requires eligible != [] && RunShared(s, es, eligible).Some?
    requires Passed(RunShared(s, es, eligible).value, t, next, c, d)
    ensures RunShared(s, longer, eligible).Some?
    ensures Passed(RunShared(s, longer, eligible).value, t, next, c, d + 1)
  {
    var k := RunShared(s, es, eligible).value;
    longer := es + [Attempt(next + d)];
    RunSnoc(s, es, Attempt(next + d), eligible);
    OtherAttempt(k, eligible, t, next, c, d);
    assert next + d !in k.holding;
  }

  /** Other calls take the next d tickets. */
  lemma {:induction false} OthersPass(s: Shared, eligible: seq<bool>, t: nat, next: nat, d: nat)
    returns (es: seq<Event>)
    requires eligible != [] && Luckless(s, t) && Unused(s, next)
    ensures RunShared(s, es, eligible).Some?
    ensures Passed(RunShared(s, es, eligible).value, t, next, s.counter, d)
  {
    if d == 0 {
      es := [];
      DivModUnique(s.counter, TICKETS, 0, s.counter);
    } else {
      es := OthersPass(s, eligible, t, next, d - 1);
      es := OneOther(s, es, eligible, t, next, s.counter, d - 1);
    }
  }

  lemma {:induction false} RunAppend(s: Shared, a: seq<Event>, b: seq<Event>, eligible: seq<bool>)
    requires eligible != []
    ensures RunShared(s, a + b, eligible) ==
            var k := RunShared(s, a, eligible); if k.Some? then RunShared(k.value, b, eligible) else None
  {
    if b == [] {
      assert a + b == a;
    } else {
      RunAppend(s, a, b[..|b| - 1], eligible);
      assert (a + b)[..|a + b| - 1] == a + b[..|b| - 1];
    }
  }

  lemma OwnAttempt(s: Shared, eligible: seq<bool>, t: nat, next: nat)
    requires eligible != [] && Luckless(s, t) && Unused(s, next) && !eligible[Slot(s.counter, 1, |eligible|)]
    ensures var k := RunShared(s, [Attempt(0)], eligible);
            s.failed == 0 ==> k.Some? && Luckless(k.value, t + 1) && Unused(k.value, next)
                              && (t + 1 >= |eligible| ==> k.value.failed > 0)
  {
    assert [Attempt(0)][..0] == [];
    assert RunShared(s, [], eligible) == Some(s);
  }

  /** Wherever the counter stands, the others can take tickets until the next one leads to backend j. */
  lemma OthersMakeWay(s: Shared, eligible: seq<bool>, j: nat, t: nat, next: nat) returns (es: seq<Event>, next': nat)
    requires j < |eligible| < TICKETS && Luckless(s, t) && Unused(s, next)
    ensures var k := RunShared(s, es, eligible);
            && k.Some? && Luckless(k.value, t) && Unused(k.value, next') && Slot(k.value.counter, 1, |eligible|) == j
  {
    var d := TICKETS - s.counter + j - 1;
    es := OthersPass(s, eligible, t, next, d);
    next' := next + d;
    SlotShift(s.counter, d, d + 1, |eligible|);
    SlotAfterWrap(s.counter, j, |eligible|);
  }

  /** So call 0 can be led to the ineligible backend j again and again, until it gives up. */
  lemma {:induction false} LedAstray(v: nat, eligible: seq<bool>, j: nat, t: nat) returns (es: seq<Event>, next: nat)
    requires j < |eligible| < TICKETS && !eligible[j] && t <= |eligible|
    ensures var k := RunShared(Fresh(v), es, eligible);
            k.Some? && Luckless(k.value, t) && Unused(k.value, next) && (t == |eligible| ==> k.value.failed > 0)
  {
    if t == 0 {
      es, next := [], 1;
    } else {
      var init, next0 := LedAstray(v, eligible, j, t - 1);
      var s := RunShared(Fresh(v), init, eligible).value;
      if s.failed > 0 {
        es, next := init, next0;
      } else {
        var way;
        way, next := OthersMakeWay(s, eligible, j, t - 1, next0);
        var s' := RunShared(s, way, eligible).value;
        RunAppend(Fresh(v), init, way, eligible);
        if s'.failed > 0 {
          es := init + way;
        } else {
          OwnAttempt(s', eligible, t - 1, next);
          RunAppend(Fresh(v), init + way, [Attempt(0)], eligible);
          es := init + way + [Attempt(0)];
        }
      }
    }
  }

  lemma {:induction false} NobodyFails(v: nat, es: seq<Event>, eligible: seq<bool>)
    requires eligible != [] && false !in eligible && RunShared(Fresh(v), es, eligible).Some?
    ensures RunShared(Fresh(v), es, eligible).value.failed == 0
  {
    if es != [] { NobodyFails(v, es[..|es| - 1], eligible); }
  }

  /** From any counter value, no interleaving of concurrent calls makes one of them answer nil if and only
      if every backend is eligible: with a single ineligible one, and however many eligible ones, a call
      can be led to it n times. */
  lemma NobodyFailsIff(v: nat, eligible: seq<bool>)
    requires 0 < |eligible| < TICKETS
    ensures (forall es :: RunShared(Fresh(v), es, eligible).Some? ==>
                            RunShared(Fresh(v), es, eligible).value.failed == 0)
            <==> false !in eligible
  {
    if false !in eligible {
      forall es | RunShared(Fresh(v), es, eligible).Some?
        ensures RunShared(Fresh(v), es, eligible).value.failed == 0
      {
        NobodyFails(v, es, eligible);
      }
    } else {
      var j :| 0 <= j < |eligible| && !eligible[j];
      var es, next := LedAstray(v, eligible, j, |eligible|);
    }
  }
}
