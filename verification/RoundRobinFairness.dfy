/**
  How a run of round-robin calls (strategy/round_robin.go:19-35) shares its picks among a fixed set of
  eligible backends, before and across the wrap of the 64-bit counter.
 */
module RoundRobinFairness {
  import opened Options
  import opened Counting
  import opened Tickets
  import opened RoundRobins

  /** `taken` counts the tickets. */
  datatype Session = Session(counter: Counter, picks: seq<nat>, taken: nat)

  function OneMore(s: Session, eligible: seq<bool>): Session
    requires eligible != []
  {
    var up := Tried(s.counter, eligible);
    var answer := Call(s.counter, up);
    Session(answer.counter, s.picks + (if answer.pick.Some? then [answer.pick.value] else []), s.taken + Taken(up))
  }

  /** k calls in a row from counter value v mod 2^64. */
  function Calls(v: nat, eligible: seq<bool>, k: nat): Session
    requires eligible != []
  {
    if k == 0 then Session(v % TICKETS, [], 0) else OneMore(Calls(v, eligible, k - 1), eligible)
  }

  // ---- Picks and tickets ----

  /** How many of the next `steps` tickets lead to backend i. */
  function SlotHits(c: Counter, steps: nat, i: nat, n: nat): nat
    requires n > 0
  {
    if steps == 0 then 0 else SlotHits(c, steps - 1, i, n) + if Slot(c, steps, n) == i then 1 else 0
  }

  lemma {:induction false} SlotHitsNone(c: Counter, steps: nat, i: nat, n: nat)
    requires n > 0 && forall a :: 0 < a <= steps ==> Slot(c, a, n) != i
    ensures SlotHits(c, steps, i, n) == 0
  {
    if steps > 0 { SlotHitsNone(c, steps - 1, i, n); }
  }

  lemma {:induction false} SlotHitsMonotone(c: Counter, few: nat, steps: nat, i: nat, n: nat)
    requires n > 0 && few <= steps
    ensures SlotHits(c, few, i, n) <= SlotHits(c, steps, i, n)
  {
    if few < steps { SlotHitsMonotone(c, few, steps - 1, i, n); }
  }

  lemma HitTwice(c: Counter, steps: nat, a: nat, b: nat, i: nat, n: nat)
    requires n > 0 && 0 < a < b <= steps && Slot(c, a, n) == i == Slot(c, b, n)
    ensures SlotHits(c, steps, i, n) >= 2
  {
    SlotHitsMonotone(c, a, b - 1, i, n);
    SlotHitsMonotone(c, b, steps, i, n);
  }

  lemma SlotOnward(v: nat, t: nat, a: nat, n: nat)
    requires n > 0
    ensures Slot((v + t) % TICKETS, a, n) == Slot(v % TICKETS, t + a, n)
  {
    WrapAdd(v + t, a);
    WrapAdd(v, t + a);
    assert v + t + a == v + (t + a);
  }

  lemma {:induction false} SlotHitsOnward(v: nat, t: nat, a: nat, i: nat, n: nat)
    requires n > 0
    ensures SlotHits(v % TICKETS, t + a, i, n)
            == SlotHits(v % TICKETS, t, i, n) + SlotHits((v + t) % TICKETS, a, i, n)
  {
    if a > 0 {
      SlotHitsOnward(v, t, a - 1, i, n);
      SlotOnward(v, t, a, n);
    }
  }

  /** Of the tickets of one call only the last can lead to an eligible backend, and then it is picked. */
  lemma CallHits(c: Counter, eligible: seq<bool>, i: nat)
    requires i < |eligible| && eligible[i]
    ensures var up := Tried(c, eligible);
            SlotHits(c, Taken(up), i, |eligible|) == if Call(c, up).pick == Some(i) then 1 else 0
  {
    var up, n := Tried(c, eligible), |eligible|;
    forall a | 0 < a <= FirstTrue(up)
      ensures Slot(c, a, n) != i
    {
      assert !up[a - 1];
    }
    SlotHitsNone(c, FirstTrue(up), i, n);
  }

  /** Every pick is of a backend in the slice, and each eligible one is picked once per ticket of its own. */
  predicate TicketsPicked(s: Session, eligible: seq<bool>, v: nat)
    requires eligible != []
  {
    && s.counter == (v + s.taken) % TICKETS
    && (forall j :: 0 <= j < |s.picks| ==> s.picks[j] < |eligible|)
    && forall i :: 0 <= i < |eligible| ==>
         Tally(s.picks, i) == if eligible[i] then SlotHits(v % TICKETS, s.taken, i, |eligible|) else 0
  }

  lemma PickIsEligible(c: Counter, eligible: seq<bool>)
    requires eligible != []
    ensures var pick := Call(c, Tried(c, eligible)).pick;
            pick.Some? ==> pick.value < |eligible| && eligible[pick.value]
  {
    var up := Tried(c, eligible);
    if FirstTrue(up) < |up| { assert up[FirstTrue(up)]; }
  }

  lemma OneMoreTally(s: Session, eligible: seq<bool>, v: nat, i: nat)
    requires i < |eligible| && eligible[i] && s.counter == (v + s.taken) % TICKETS
    requires Tally(s.picks, i) == SlotHits(v % TICKETS, s.taken, i, |eligible|)
    ensures var s' := OneMore(s, eligible);
            Tally(s'.picks, i) == SlotHits(v % TICKETS, s'.taken, i, |eligible|)
  {
    var up := Tried(s.counter, eligible);
    TallyAnswer(s.picks, Call(s.counter, up).pick, i);
    CallHits(s.counter, eligible, i);
    SlotHitsOnward(v, s.taken, Taken(up), i, |eligible|);
  }

  lemma OneMoreCounter(s: Session, eligible: seq<bool>, v: nat)
    requires eligible != [] && s.counter == (v + s.taken) % TICKETS
    ensures OneMore(s, eligible).counter == (v + OneMore(s, eligible).taken) % TICKETS
  {
    var up := Tried(s.counter, eligible);
    CounterAfterCall(v + s.taken, up);
    assert v + s.taken + Taken(up) == v + (s.taken + Taken(up));
  }

  lemma OneMoreTicketsPicked(s: Session, eligible: seq<bool>, v: nat)
    requires eligible != [] && TicketsPicked(s, eligible, v)
    ensures TicketsPicked(OneMore(s, eligible), eligible, v)
  {
    var up, s', n := Tried(s.counter, eligible), OneMore(s, eligible), |eligible|;
    PickIsEligible(s.counter, eligible);
    OneMoreCounter(s, eligible, v);
    forall i | 0 <= i < n
      ensures Tally(s'.picks, i) == if eligible[i] then SlotHits(v % TICKETS, s'.taken, i, n) else 0
    {
      if eligible[i] {
        OneMoreTally(s, eligible, v, i);
      } else {
        TallyAnswer(s.picks, Call(s.counter, up).pick, i);
      }
    }
  }

  lemma TallyAnswer(picks: seq<nat>, pick: Option<nat>, i: nat)
    ensures Tally(picks + (if pick.Some? then [pick.value] else []), i)
            == Tally(picks, i) + if pick == Some(i) then 1 else 0
  {
    if pick.Some? {
      assert (picks + [pick.value])[..|picks|] == picks;
    } else {
      assert picks + [] == picks;
    }
  }

  /** In any run with a fixed eligible set, however often the counter wraps in it, each member is picked
      exactly as often as a ticket taken leads to it, and nobody else is picked. */
  lemma {:induction false} PicksAreTickets(v: nat, eligible: seq<bool>, k: nat)
    requires eligible != []
    ensures TicketsPicked(Calls(v, eligible, k), eligible, v)
    ensures |Calls(v, eligible, k).picks| <= k
  {
    if k > 0 {
      PicksAreTickets(v, eligible, k - 1);
      OneMoreTicketsPicked(Calls(v, eligible, k - 1), eligible, v);
    }
  }

  // ---- Fair shares ----

  /** Backend i has its share of k / |E| picks, rounded down or up; none if it is not in E. */
  predicate FairPicks(picks: seq<nat>, eligible: seq<bool>, k: nat, i: nat)
    requires i < |eligible|
  {
    var share, m := Tally(picks, i), Count(eligible);
    && m > 0
    && if eligible[i] then share == k / m || share == (k + m - 1) / m else share == 0
  }

  /** ... after k calls. */
  predicate Fair(v: nat, eligible: seq<bool>, k: nat, i: nat)
    requires eligible != [] && i < |eligible|
  {
    FairPicks(Calls(v, eligible, k).picks, eligible, k, i)
  }

  /** `picks` is what the unbounded tickets in (lo, hi] give: each eligible backend once per ticket. */
  predicate Matches(picks: seq<nat>, eligible: seq<bool>, lo: nat, hi: nat)
    requires eligible != []
  {
    && (forall j :: 0 <= j < |picks| ==> picks[j] < |eligible|)
    && forall i :: 0 <= i < |eligible| ==>
         Tally(picks, i) == if eligible[i] then Hits(lo, hi, i, |eligible|) else 0
  }

  lemma MatchesStep(picks: seq<nat>, eligible: seq<bool>, lo: nat, mid: nat, a: nat)
    requires eligible != [] && lo <= mid && Matches(picks, eligible, lo, mid)
    requires FirstAfter(mid, eligible, a)
    ensures Matches(picks + [Index(mid, a, |eligible|)], eligible, lo, mid + a)
  {
    var n, i := |eligible|, Index(mid, a, |eligible|);
    forall j | 0 <= j < n
      ensures Tally(picks + [i], j) == if eligible[j] then Hits(lo, mid + a, j, n) else 0
    {
      assert (picks + [i])[..|picks|] == picks;
      if eligible[j] {
        forall t | mid < t <= mid + a - 1
          ensures Remainder(t, n) != j
        {
          assert !eligible[Index(mid, t - mid, n)];
        }
        HitsSkip(lo, mid, mid + a - 1, j, n);
      }
    }
  }

  lemma MatchesIsBalanced(picks: seq<nat>, eligible: seq<bool>, lo: nat, hi: nat) returns (q: nat)
    requires eligible != [] && lo <= hi && Matches(picks, eligible, lo, hi)
    ensures Balanced(picks, eligible, q)
  {
    q := (hi - lo) / |eligible|;
    forall j | 0 <= j < |eligible| && eligible[j]
      ensures q <= Tally(picks, j) <= q + 1
    {
      HitsBalanced(lo, hi, j, |eligible|);
    }
  }

  /** k picks, one a call, those of some range of consecutive unbounded tickets. */
  predicate InCycle(picks: seq<nat>, eligible: seq<bool>, k: nat, lo: nat, hi: nat)
    requires eligible != []
  {
    |picks| == k && lo <= hi && Matches(picks, eligible, lo, hi)
  }

  lemma InCycleIsFair(picks: seq<nat>, eligible: seq<bool>, k: nat, lo: nat, hi: nat, i: nat)
    requires true in eligible && i < |eligible| && InCycle(picks, eligible, k, lo, hi)
    ensures FairPicks(picks, eligible, k, i)
  {
    CountZero(eligible);
    if eligible[i] {
      var q := MatchesIsBalanced(picks, eligible, lo, hi);
      BalancedIsFair(picks, eligible, q, i);
    }
  }

  lemma InCycleStep(s: Session, eligible: seq<bool>, k: nat, lo: nat, hi: nat, a: nat)
    requires eligible != [] && InCycle(s.picks, eligible, k, lo, hi) && FirstAfter(hi, eligible, a)
    requires Call(s.counter, Tried(s.counter, eligible)).pick == Some(Index(hi, a, |eligible|))
    ensures InCycle(OneMore(s, eligible).picks, eligible, k + 1, lo, hi + a)
  {
    MatchesStep(s.picks, eligible, lo, hi, a);
  }

  // ---- Runs without a harmful wrap ----

  lemma AlignedOnward(v: nat, lo: nat, t: nat, a: nat, n: nat)
    requires n > 0 && Aligned(v % TICKETS, lo, t + a, n)
    ensures Aligned((v + t) % TICKETS, lo + t, a, n)
    ensures Aligned(v % TICKETS, lo, t, n)
  {
    var c, from := (v + t) % TICKETS, lo + t;
    forall b | 0 < b <= a
      ensures Slot(c, b, n) == Index(from, b, n)
    {
      SlotOnward(v, t, b, n);
      assert Slot(v % TICKETS, t + b, n) == Index(lo, t + b, n);
      assert lo + t + b == lo + (t + b);
    }
  }

  /** The session has made k picks, with the tickets from v up, which lead where those from `lo` up do. */
  predicate UsedUp(s: Session, v: nat, lo: nat, eligible: seq<bool>, k: nat)
    requires eligible != []
  {
    s.counter == (v + s.taken) % TICKETS && InCycle(s.picks, eligible, k, lo, lo + s.taken)
  }

  lemma OneMoreInCycle(s: Session, lo: nat, eligible: seq<bool>, k: nat)
    requires true in eligible && InCycle(s.picks, eligible, k, lo, lo + s.taken)
    requires Aligned(s.counter, lo + s.taken, Taken(Tried(s.counter, eligible)), |eligible|)
    ensures InCycle(OneMore(s, eligible).picks, eligible, k + 1, lo, lo + OneMore(s, eligible).taken)
  {
    var a := Taken(Tried(s.counter, eligible));
    ScanFollows(s.counter, lo + s.taken, eligible);
    InCycleStep(s, eligible, k, lo, lo + s.taken, a);
    assert lo + s.taken + a == lo + OneMore(s, eligible).taken;
  }

  lemma OneMoreUsesTickets(s: Session, v: nat, lo: nat, eligible: seq<bool>, k: nat)
    requires true in eligible && UsedUp(s, v, lo, eligible, k)
    requires Aligned(s.counter, lo + s.taken, Taken(Tried(s.counter, eligible)), |eligible|)
    ensures UsedUp(OneMore(s, eligible), v, lo, eligible, k + 1)
  {
    OneMoreInCycle(s, lo, eligible, k);
    OneMoreCounter(s, eligible, v);
  }

  lemma AlignedBefore(s: Session, v: nat, lo: nat, eligible: seq<bool>)
    requires eligible != [] && Aligned(v % TICKETS, lo, OneMore(s, eligible).taken, |eligible|)
    ensures Aligned(v % TICKETS, lo, s.taken, |eligible|)
  {
  }

  lemma AlignedAfter(s: Session, v: nat, lo: nat, eligible: seq<bool>)
    requires eligible != [] && Aligned(v % TICKETS, lo, OneMore(s, eligible).taken, |eligible|)
    requires s.counter == (v + s.taken) % TICKETS
    ensures Aligned(s.counter, lo + s.taken, Taken(Tried(s.counter, eligible)), |eligible|)
  {
    AlignedOnward(v, lo, s.taken, Taken(Tried(s.counter, eligible)), |eligible|);
  }

  lemma OneMoreAligned(s: Session, v: nat, lo: nat, eligible: seq<bool>, k: nat)
    requires true in eligible && UsedUp(s, v, lo, eligible, k)
    requires Aligned(v % TICKETS, lo, OneMore(s, eligible).taken, |eligible|)
    ensures UsedUp(OneMore(s, eligible), v, lo, eligible, k + 1)
  {
    AlignedAfter(s, v, lo, eligible);
    OneMoreUsesTickets(s, v, lo, eligible, k);
  }

  lemma {:induction false} CallsUseTickets(v: nat, lo: nat, eligible: seq<bool>, k: nat)
    requires true in eligible && Aligned(v % TICKETS, lo, Calls(v, eligible, k).taken, |eligible|)
    ensures UsedUp(Calls(v, eligible, k), v, lo, eligible, k)
  {
    if k > 0 {
      var s := Calls(v, eligible, k - 1);
      AlignedBefore(s, v, lo, eligible);
      CallsUseTickets(v, lo, eligible, k - 1);
      OneMoreAligned(s, v, lo, eligible, k - 1);
    }
  }

  /** The guard of `ScanCompleteIff`, for the tickets of a whole run. */
  predicate Unbroken(c: Counter, steps: nat, n: nat)
    requires n > 0
  {
    Linear(c, steps, n) || (c == TICKETS - 1 && steps <= TICKETS)
  }

  lemma UnbrokenIsAligned(c: Counter, steps: nat, n: nat) returns (lo: nat)
    requires n > 0 && Unbroken(c, steps, n)
    ensures Aligned(c, lo, steps, n)
  {
    DivModUnique(c, TICKETS, 0, c);
    if Linear(c, steps, n) {
      lo := c;
      LinearIsAligned(c, steps, n);
    } else {
      lo := n - 1;
      forall a | 0 < a <= steps
        ensures Slot(c, a, n) == Index(lo, a, n)
      {
        DivModUnique(c + a, TICKETS, 1, a - 1);
      }
    }
  }

  /** If ticket w - 1 is the last before the wrap, what follows is not what follows in a cycle. */
  lemma BrokenAtWrap(c: Counter, lo: nat, w: nat, n: nat)
    requires 1 < w && 0 < n < TICKETS && Remainder(TICKETS, n) != 0
    requires (c + (w - 1)) % TICKETS == TICKETS - 1 && (c + w) % TICKETS == 0
    requires Slot(c, w - 1, n) == Index(lo, w - 1, n)
    ensures Slot(c, w, n) != Index(lo, w, n)
  {
    RemainderAhead(TICKETS - 1, 1, n);
    RemainderAhead(lo + (w - 1), 1, n);
    assert lo + (w - 1) + 1 == lo + w;
  }

  /** The guard says exactly that the tickets lead round the slice without a break. */
  lemma UnbrokenIff(c: Counter, steps: nat, n: nat)
    requires 0 < n < TICKETS
    ensures Unbroken(c, steps, n) <==> exists lo: nat :: Aligned(c, lo, steps, n)
  {
    if Unbroken(c, steps, n) {
      var lo := UnbrokenIsAligned(c, steps, n);
    } else if lo: nat :| Aligned(c, lo, steps, n) {
      var w := if c < TICKETS - 1 then TICKETS - c else TICKETS + 1;
      if c < TICKETS - 1 {
        DivModUnique(c + (w - 1), TICKETS, 0, TICKETS - 1);
        DivModUnique(c + w, TICKETS, 1, 0);
      } else {
        DivModUnique(c + (w - 1), TICKETS, 1, TICKETS - 1);
        DivModUnique(c + w, TICKETS, 2, 0);
      }
      BrokenAtWrap(c, lo, w, n);
    }
  }

  // ---- Which eligible sets the wrap spares ----

  function LastTrue(up: seq<bool>): (k: nat)
    requires true in up
    ensures k < |up| && up[k]
    ensures forall j :: k < j < |up| ==> !up[j]
  {
    var n := |up| - 1;
    assert up == up[..n] + [up[n]];
    if up[n] then n else LastTrue(up[..n])
  }

  /** `r` is 2^64 modulo the number of backends: the wrap cuts off a turn after its first r indices.
      That does no harm if there is no cut, or no member is cut off, or all are and the detour still
      fits into one call. */
  predicate WrapSpares(eligible: seq<bool>, r: nat)
    requires true in eligible
  {
    var low, high := FirstTrue(eligible), LastTrue(eligible);
    r == 0 || high < r || (r <= low && r <= high - low)
  }

  /** The index a places after p. */
  function Ahead(p: nat, a: nat, n: nat): int {
    if p + a < n then p + a else p + a - n
  }

  lemma RemainderAhead(x: nat, a: nat, n: nat)
    requires a <= n && n > 0
    ensures Remainder(x + a, n) == Ahead(Remainder(x, n), a, n)
  {
    var q, p := x / n, Remainder(x, n);
    RemainderIsMod(x, n);
    RemainderIsMod(x + a, n);
    SumInTurns(x + a, n, q, p + a);
  }

  lemma SumInTurns(y: nat, n: nat, q: nat, x: nat)
    requires y == n * q + x && x < 2 * n
    ensures y % n == if x < n then x else x - n
  {
    if x < n {
      DivModUnique(y, n, q, x);
    } else {
      assert n * (q + 1) == n * q + n;
      DivModUnique(y, n, q + 1, x - n);
    }
  }

  /** If the wrap, s places on, comes before the next member, a places on, then the first member is
      next either way, and within n tickets. */
  lemma NextIsLowest(p: nat, a: nat, s: nat, eligible: seq<bool>)
    requires true in eligible && p < |eligible| && 0 < s <= a <= |eligible|
    requires WrapSpares(eligible, Ahead(p, s, |eligible|))
    requires eligible[Ahead(p, a, |eligible|)]
    requires forall b :: 0 < b < a ==> !eligible[Ahead(p, b, |eligible|)]
    ensures Ahead(p, a, |eligible|) == FirstTrue(eligible) && s + FirstTrue(eligible) <= |eligible|
  {
    var n, low, high := |eligible|, FirstTrue(eligible), LastTrue(eligible);
    assert high > p ==> Ahead(p, high - p, n) == high;
    assert low > p ==> Ahead(p, low - p, n) == low;
    assert low <= p ==> Ahead(p, n - p + low, n) == low;
  }

  lemma SlotBeforeWrap(c: Counter, a: nat, n: nat)
    requires n > 0 && a <= n && c + a < TICKETS
    ensures Slot(c, a, n) == Ahead(Remainder(c, n), a, n)
  {
    DivModUnique(c + a, TICKETS, 0, c + a);
    RemainderAhead(c, a, n);
  }

  lemma SlotAfterWrap(c: Counter, q: nat, n: nat)
    requires q < n < TICKETS
    ensures Slot(c, TICKETS - c + q, n) == q
  {
    DivModUnique(c + (TICKETS - c + q), TICKETS, 1, q);
  }

  /** The place of the next member, counted without a wrap. */
  lemma NextMember(v: nat, eligible: seq<bool>) returns (a: nat)
    requires true in eligible
    ensures FirstAfter(v, eligible, a)
  {
    var i :| 0 <= i < |eligible| && eligible[i];
    var d := ResidueAhead(v, i, |eligible|);
    a := 1;
    while !eligible[Index(v, a, |eligible|)]
      invariant 0 < a <= d
      invariant forall b :: 0 < b < a ==> !eligible[Index(v, b, |eligible|)]
      decreases d - a
    {
      a := a + 1;
    }
  }

  lemma CounterTaken(c: Counter, up: seq<bool>)
    requires up != []
    ensures Call(c, up).counter == (c + Taken(up)) % TICKETS
  {
  }

  lemma PickTaken(c: Counter, up: seq<bool>)
    requires FirstTrue(up) < |up|
    ensures Call(c, up).pick == Some(Slot(c, Taken(up), |up|))
  {
  }

  lemma SlotOfCounter(c: Counter, d: nat, n: nat)
    requires n > 0
    ensures Remainder((c + d) % TICKETS, n) == Slot(c, d, n)
  {
  }

  lemma AnswerTaken(c: Counter, up: seq<bool>, d: nat, x: Counter)
    requires FirstTrue(up) < |up| && d == Taken(up) && x == Call(c, up).counter
    ensures Call(c, up).pick == Some(Slot(c, d, |up|))
    ensures Remainder(x, |up|) == Slot(c, d, |up|)
  {
    CounterTaken(c, up);
    PickTaken(c, up);
    SlotOfCounter(c, d, |up|);
  }

  /** The call that finds a member with its ticket number d; the counter is then where its index is. */
  lemma FoundAt(c: Counter, eligible: seq<bool>, d: nat)
    requires 0 < d <= |eligible| && eligible[Slot(c, d, |eligible|)]
    requires forall b :: 0 < b < d ==> !eligible[Slot(c, b, |eligible|)]
    ensures var answer := Call(c, Tried(c, eligible));
            && answer.pick == Some(Slot(c, d, |eligible|))
            && Remainder(answer.counter, |eligible|) == Slot(c, d, |eligible|)
  {
    var up := Tried(c, eligible);
    forall j | 0 <= j < d - 1
      ensures !up[j]
    {
      assert !eligible[Slot(c, j + 1, |eligible|)];
    }
    FirstTrueAt(up, d - 1);
    AnswerTaken(c, up, d, Call(c, up).counter);
  }

  /** `WrapSpares` for the counter at hand. */
  predicate Spared(eligible: seq<bool>)
    requires true in eligible
  {
    WrapSpares(eligible, Remainder(TICKETS, |eligible|))
  }

  lemma SlotAcrossWrap(c: Counter, eligible: seq<bool>, a: nat, b: nat)
    requires true in eligible && |eligible| < TICKETS && a <= |eligible|
    requires 0 < b < TICKETS - c + FirstTrue(eligible) && TICKETS <= c + a
    requires forall b :: 0 < b < a ==> !eligible[Ahead(Remainder(c, |eligible|), b, |eligible|)]
    ensures !eligible[Slot(c, b, |eligible|)]
  {
    if c + b < TICKETS {
      SlotBeforeWrap(c, b, |eligible|);
    } else {
      SlotAfterWrap(c, c + b - TICKETS, |eligible|);
    }
  }

  /** When the wrap comes first, the next member is still the one found. */
  lemma FoundAcrossWrap(c: Counter, eligible: seq<bool>, a: nat)
    requires true in eligible && |eligible| < TICKETS && Spared(eligible)
    requires a <= |eligible| && TICKETS <= c + a
    requires eligible[Ahead(Remainder(c, |eligible|), a, |eligible|)]
    requires forall b :: 0 < b < a ==> !eligible[Ahead(Remainder(c, |eligible|), b, |eligible|)]
    ensures var answer, next := Call(c, Tried(c, eligible)), Ahead(Remainder(c, |eligible|), a, |eligible|);
            answer.pick == Some(next) && Remainder(answer.counter, |eligible|) == next
  {
    var n, s, low := |eligible|, TICKETS - c, FirstTrue(eligible);
    RemainderAhead(c, s, n);
    NextIsLowest(Remainder(c, n), a, s, eligible);
    forall b | 0 < b < s + low
      ensures !eligible[Slot(c, b, n)]
    {
      SlotAcrossWrap(c, eligible, a, b);
    }
    SlotAfterWrap(c, low, n);
    FoundAt(c, eligible, s + low);
  }

  /** Where the wrap spares the set, every call from everywhere picks the next member in cyclic order. */
  lemma SparedCall(c: Counter, hi: nat, eligible: seq<bool>) returns (a: nat)
    requires true in eligible && |eligible| < TICKETS && Spared(eligible)
    requires Remainder(c, |eligible|) == Remainder(hi, |eligible|)
    ensures FirstAfter(hi, eligible, a)
    ensures var answer := Call(c, Tried(c, eligible));
            && answer.pick == Some(Index(hi, a, |eligible|))
            && Remainder(answer.counter, |eligible|) == Remainder(hi + a, |eligible|)
  {
    var n := |eligible|;
    a := NextMember(hi, eligible);
    forall b | 0 < b <= a
      ensures Index(hi, b, n) == Ahead(Remainder(c, n), b, n)
    {
      RemainderAhead(hi, b, n);
    }
    if c + a < TICKETS {
      forall b | 0 < b <= a
        ensures Slot(c, b, n) == Index(hi, b, n)
      {
        SlotBeforeWrap(c, b, n);
      }
      FoundAt(c, eligible, a);
    } else {
      FoundAcrossWrap(c, eligible, a);
    }
  }

  lemma SparedOneMore(s: Session, eligible: seq<bool>, k: nat, lo: nat, mid: nat) returns (hi: nat)
    requires true in eligible && |eligible| < TICKETS && Spared(eligible)
    requires InCycle(s.picks, eligible, k, lo, mid) && Remainder(s.counter, |eligible|) == Remainder(mid, |eligible|)
    ensures var s' := OneMore(s, eligible);
            && InCycle(s'.picks, eligible, k + 1, lo, hi)
            && Remainder(s'.counter, |eligible|) == Remainder(hi, |eligible|)
  {
    var a := SparedCall(s.counter, mid, eligible);
    InCycleStep(s, eligible, k, lo, mid, a);
    hi := mid + a;
  }

  lemma {:induction false} SparedCallsInCycle(v: nat, eligible: seq<bool>, k: nat) returns (hi: nat)
    requires true in eligible && |eligible| < TICKETS && Spared(eligible)
    ensures var s := Calls(v, eligible, k);
            && InCycle(s.picks, eligible, k, v % TICKETS, hi)
            && Remainder(s.counter, |eligible|) == Remainder(hi, |eligible|)
  {
    if k == 0 {
      hi := v % TICKETS;
    } else {
      var mid := SparedCallsInCycle(v, eligible, k - 1);
      hi := SparedOneMore(Calls(v, eligible, k - 1), eligible, k - 1, v % TICKETS, mid);
    }
  }

  lemma AlignedIsFair(v: nat, lo: nat, eligible: seq<bool>, k: nat, i: nat)
    requires true in eligible && i < |eligible|
    requires Aligned(v % TICKETS, lo, Calls(v, eligible, k).taken, |eligible|)
    ensures Fair(v, eligible, k, i)
  {
    CallsUseTickets(v, lo, eligible, k);
    InCycleIsFair(Calls(v, eligible, k).picks, eligible, k, lo, lo + Calls(v, eligible, k).taken, i);
  }

  lemma UnbrokenIsFair(v: nat, eligible: seq<bool>, k: nat, i: nat)
    requires true in eligible && i < |eligible| && Unbroken(v % TICKETS, Calls(v, eligible, k).taken, |eligible|)
    ensures Fair(v, eligible, k, i)
  {
    var lo := UnbrokenIsAligned(v % TICKETS, Calls(v, eligible, k).taken, |eligible|);
    AlignedIsFair(v, lo, eligible, k, i);
  }

  lemma SparedIsFair(v: nat, eligible: seq<bool>, k: nat, i: nat)
    requires true in eligible && i < |eligible| < TICKETS && Spared(eligible)
    ensures Fair(v, eligible, k, i)
  {
    var hi := SparedCallsInCycle(v, eligible, k);
    InCycleIsFair(Calls(v, eligible, k).picks, eligible, k, v % TICKETS, hi, i);
  }

  /** Any k consecutive calls with a fixed nonempty eligible set E give each member of E its share of
      k / |E| picks, rounded down or up, and nobody else any, provided that the tickets they take do not
      wrap the counter, or n divides 2^64, or the first of them wraps it and no other; or that the wrap
      spares E. */
  lemma RoundRobinIsFair(v: nat, eligible: seq<bool>, k: nat, i: nat)
    requires true in eligible && i < |eligible|
    requires || Unbroken(v % TICKETS, Calls(v, eligible, k).taken, |eligible|)
             || (|eligible| < TICKETS && WrapSpares(eligible, TICKETS % |eligible|))
    ensures Fair(v, eligible, k, i)
  {
    if Unbroken(v % TICKETS, Calls(v, eligible, k).taken, |eligible|) {
      UnbrokenIsFair(v, eligible, k, i);
    } else {
      RemainderIsMod(TICKETS, |eligible|);
      SparedIsFair(v, eligible, k, i);
    }
  }

  // ---- ... and that it spares no others ----

  /** The counter value at index x of the last full turn before the wrap. */
  lemma LastTurn(n: nat, x: nat) returns (c: Counter)
    requires x < n < TICKETS
    ensures c == TICKETS - TICKETS % n - n + x && Remainder(c, n) == x
  {
    var q, r := TICKETS / n, TICKETS % n;
    assert TICKETS == n * q + r;
    NonzeroMultiple(n, q);
    assert n * (q - 1) == n * q - n;
    c := n * (q - 1) + x;
    DivModUnique(c, n, q - 1, x);
    RemainderIsMod(c, n);
  }

  /** |E| fair calls pick every member once, so a member picked otherwise is not treated fairly. */
  lemma NotOnceIsUnfair(v: nat, eligible: seq<bool>, j: nat)
    requires j < |eligible| && eligible[j]
    requires Tally(Calls(v, eligible, Count(eligible)).picks, j) != 1
    ensures !Fair(v, eligible, Count(eligible), j)
  {
    var m := Count(eligible);
    if m > 0 {
      DivModUnique(m, m, 1, 0);
      DivModUnique(m + m - 1, m, 1, m - 1);
    }
  }

  lemma SomeoneMissed(picks: seq<nat>, eligible: seq<bool>) returns (i: nat)
    requires |picks| < Count(eligible) && forall k :: 0 <= k < |picks| ==> picks[k] < |eligible|
    ensures i < |eligible| && eligible[i] && Tally(picks, i) == 0
  {
    var n := |eligible|;
    if j: nat :| j < n && eligible[j] && Tally(picks, j) == 0 {
      i := j;
    } else {
      i := 0;
      assert eligible[..n] == eligible;
      TallyTotal(picks, n);
      TallyAtLeast(picks, eligible, n, 1, 0);
      assert false;
    }
  }

  lemma CutSlot(v: Counter, r: nat, n: nat, high: nat, b: nat)
    requires r <= high < n < TICKETS && v == TICKETS - r - n + high && Remainder(v, n) == high
    requires 0 < b < r + n
    ensures Slot(v, b, n) != high
  {
    if v + b < TICKETS { SlotBeforeWrap(v, b, n); } else { SlotAfterWrap(v, v + b - TICKETS, n); }
  }

  /** Where the wrap cuts off some members and not others: after the last member, the first one gets two
      tickets before the last one gets its next. */
  lemma CutTickets(v: Counter, r: nat, n: nat, low: nat, high: nat)
    requires low < r <= high < n < TICKETS && v == TICKETS - r - n + high && Remainder(v, n) == high
    ensures SlotHits(v, r + n - 1, high, n) == 0
    ensures SlotHits(v, r + n, low, n) >= 2
  {
    forall b | 0 < b <= r + n - 1
      ensures Slot(v, b, n) != high
    {
      CutSlot(v, r, n, high, b);
    }
    SlotHitsNone(v, r + n - 1, high, n);
    LowTwice(v, r, n, low, high);
  }

  lemma LowTwice(v: Counter, r: nat, n: nat, low: nat, high: nat)
    requires low < r <= high < n < TICKETS && v == TICKETS - r - n + high && Remainder(v, n) == high
    ensures SlotHits(v, r + n, low, n) >= 2
  {
    SlotBeforeWrap(v, n - high + low, n);
    SlotAfterWrap(v, low, n);
    HitTwice(v, r + n, n - high + low, TICKETS - v + low, low, n);
  }

  lemma TallyIsHits(v: nat, eligible: seq<bool>, k: nat, i: nat)
    requires i < |eligible| && eligible[i]
    ensures var s := Calls(v, eligible, k);
            Tally(s.picks, i) == SlotHits(v % TICKETS, s.taken, i, |eligible|)
  {
    PicksAreTickets(v, eligible, k);
  }

  /** Then a run of calls either misses the last member or picks the first one twice. */
  lemma CutRoundIsUneven(v: nat, k: nat, all: nat, eligible: seq<bool>, last: nat, first: nat) returns (i: nat)
    requires all > 0 && last < |eligible| && eligible[last] && first < |eligible| && eligible[first]
    requires SlotHits(v % TICKETS, all - 1, last, |eligible|) == 0
    requires SlotHits(v % TICKETS, all, first, |eligible|) >= 2
    ensures i < |eligible| && eligible[i] && Tally(Calls(v, eligible, k).picks, i) != 1
  {
    var taken := Calls(v, eligible, k).taken;
    if taken < all {
      SlotHitsMonotone(v % TICKETS, taken, all - 1, last, |eligible|);
      i := last;
    } else {
      SlotHitsMonotone(v % TICKETS, all, taken, first, |eligible|);
      i := first;
    }
    TallyIsHits(v, eligible, k, i);
  }

  lemma CutSetIsUnfair(eligible: seq<bool>) returns (v: nat, i: nat)
    requires true in eligible && |eligible| < TICKETS
    requires FirstTrue(eligible) < TICKETS % |eligible| <= LastTrue(eligible)
    ensures i < |eligible| && !Fair(v, eligible, Count(eligible), i)
  {
    var n, r := |eligible|, TICKETS % |eligible|;
    v := LastTurn(n, LastTrue(eligible));
    DivModUnique(v, TICKETS, 0, v);
    CutTickets(v, r, n, FirstTrue(eligible), LastTrue(eligible));
    i := CutRoundIsUneven(v, Count(eligible), r + n, eligible, LastTrue(eligible), FirstTrue(eligible));
    NotOnceIsUnfair(v, eligible, i);
  }

  lemma {:induction false} NothingFirst(v: nat, eligible: seq<bool>, k: nat)
    requires eligible != [] && k > 0 && Calls(v, eligible, 1).picks == []
    ensures |Calls(v, eligible, k).picks| < k
  {
    if k > 1 { NothingFirst(v, eligible, k - 1); }
  }

  lemma NoSlotFails(c: Counter, eligible: seq<bool>)
    requires eligible != [] && forall b :: 0 < b <= |eligible| ==> !eligible[Slot(c, b, |eligible|)]
    ensures Call(c, Tried(c, eligible)).pick == None
  {
    var up := Tried(c, eligible);
    forall a | 0 <= a < |eligible|
      ensures !up[a]
    {
      assert !eligible[Slot(c, a + 1, |eligible|)];
    }
    FirstTrueAt(up, |eligible|);
  }

  lemma FarSlot(v: Counter, r: nat, eligible: seq<bool>, b: nat)
    requires true in eligible && 0 < b <= |eligible| < TICKETS
    requires LastTrue(eligible) - FirstTrue(eligible) < r <= FirstTrue(eligible)
    requires v == TICKETS - r - |eligible| + LastTrue(eligible) && Remainder(v, |eligible|) == LastTrue(eligible)
    ensures !eligible[Slot(v, b, |eligible|)]
  {
    if v + b < TICKETS {
      SlotBeforeWrap(v, b, |eligible|);
    } else {
      SlotAfterWrap(v, v + b - TICKETS, |eligible|);
    }
  }

  /** Where the wrap cuts off all members and the detour is too long for one call, that call finds
      nothing. */
  lemma FarCallFails(v: Counter, r: nat, eligible: seq<bool>)
    requires true in eligible && |eligible| < TICKETS
    requires LastTrue(eligible) - FirstTrue(eligible) < r <= FirstTrue(eligible)
    requires v == TICKETS - r - |eligible| + LastTrue(eligible) && Remainder(v, |eligible|) == LastTrue(eligible)
    ensures Call(v, Tried(v, eligible)).pick == None
  {
    forall b | 0 < b <= |eligible|
      ensures !eligible[Slot(v, b, |eligible|)]
    {
      FarSlot(v, r, eligible, b);
    }
    NoSlotFails(v, eligible);
  }

  lemma FarSetIsUnfair(eligible: seq<bool>) returns (v: nat, i: nat)
    requires true in eligible && |eligible| < TICKETS
    requires LastTrue(eligible) - FirstTrue(eligible) < TICKETS % |eligible| <= FirstTrue(eligible)
    ensures i < |eligible| && !Fair(v, eligible, Count(eligible), i)
  {
    v := LastTurn(|eligible|, LastTrue(eligible));
    DivModUnique(v, TICKETS, 0, v);
    FarCallFails(v, TICKETS % |eligible|, eligible);
    i := FailingRoundIsUnfair(v, eligible);
  }

  lemma FailingRoundIsUnfair(v: nat, eligible: seq<bool>) returns (i: nat)
    requires true in eligible && Call(v % TICKETS, Tried(v % TICKETS, eligible)).pick == None
    ensures i < |eligible| && !Fair(v, eligible, Count(eligible), i)
  {
    var m := Count(eligible);
    CountZero(eligible);
    assert Calls(v, eligible, 1) == OneMore(Calls(v, eligible, 0), eligible);
    NothingFirst(v, eligible, m);
    PicksAreTickets(v, eligible, m);
    i := SomeoneMissed(Calls(v, eligible, m).picks, eligible);
    NotOnceIsUnfair(v, eligible, i);
  }

  /** For a fixed eligible set, every run from every counter value is fair if and only if n divides 2^64,
      or all members come before index 2^64 mod n, or none does and they lie at least so far apart. */
  lemma FairToSetIff(eligible: seq<bool>)
    requires true in eligible && |eligible| < TICKETS
    ensures (forall v: nat, k: nat, i: nat :: i < |eligible| ==> Fair(v, eligible, k, i))
            <==> WrapSpares(eligible, TICKETS % |eligible|)
  {
    if WrapSpares(eligible, TICKETS % |eligible|) {
      forall v: nat, k: nat, i: nat | i < |eligible|
        ensures Fair(v, eligible, k, i)
      {
        RoundRobinIsFair(v, eligible, k, i);
      }
    } else if FirstTrue(eligible) < TICKETS % |eligible| {
      var v, i := CutSetIsUnfair(eligible);
    } else {
      var v, i := FarSetIsUnfair(eligible);
    }
  }

  lemma {:induction false} EveryoneCounts(n: nat)
    ensures Count(Everyone(n)) == n
  {
    if n > 0 {
      EveryoneCounts(n - 1);
      assert Everyone(n)[..n - 1] == Everyone(n - 1);
    }
  }

  /** In any k calls from v on, with everybody eligible, backend i gets its share rounded down or up. */
  predicate FairShare(v: nat, n: nat, k: nat, i: nat)
    requires n > 0
  {
    var share := Tally(Calls(v, Everyone(n), k).picks, i);
    share == k / n || share == (k + n - 1) / n
  }

  lemma FairShareIsFair(v: nat, n: nat, k: nat, i: nat)
    requires i < n
    ensures FairShare(v, n, k, i) <==> Fair(v, Everyone(n), k, i)
  {
    EveryoneCounts(n);
  }

  /** With everybody eligible, round robin is fair from every counter value on if and only if the
      number of backends divides 2^64; otherwise the wrap breaks it. */
  lemma FairForeverIff(n: nat)
    requires 0 < n < TICKETS
    ensures (forall v: nat, k: nat, i: nat :: i < n ==> FairShare(v, n, k, i)) <==> TICKETS % n == 0
  {
    var all := Everyone(n);
    assert all[0] && all[n - 1];
    FairToSetIff(all);
    forall v: nat, k: nat, i: nat | i < n
      ensures FairShare(v, n, k, i) <==> Fair(v, all, k, i)
    {
      FairShareIsFair(v, n, k, i);
    }
  }
}
