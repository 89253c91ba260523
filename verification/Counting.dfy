/** Counting backends in a slice and picks in a run. */
module Counting {
  import opened Tickets

  /** How many backends are eligible. */
  function Count(eligible: seq<bool>): nat {
    if eligible == [] then 0
    else Count(eligible[..|eligible| - 1]) + if eligible[|eligible| - 1] then 1 else 0
  }

  lemma {:induction false} CountZero(eligible: seq<bool>)
    ensures Count(eligible) <= |eligible|
    ensures Count(eligible) == 0 <==> true !in eligible
  {
    if eligible != [] {
      var n := |eligible| - 1;
      CountZero(eligible[..n]);
      assert eligible == eligible[..n] + [eligible[n]];
    }
  }

  /** ... as a set. */
  function Members(eligible: seq<bool>): set<nat> {
    set i | 0 <= i < |eligible| && eligible[i]
  }

  lemma {:induction false} CountIsCardinality(eligible: seq<bool>)
    ensures Count(eligible) == |Members(eligible)|
  {
    if eligible != [] {
      var n := |eligible| - 1;
      CountIsCardinality(eligible[..n]);
      if eligible[n] {
        assert Members(eligible) == Members(eligible[..n]) + {n};
      } else {
        assert Members(eligible) == Members(eligible[..n]);
      }
    }
  }

  /** How often backend `i` was picked. */
  function Tally(picks: seq<nat>, i: nat): nat {
    if picks == [] then 0
    else Tally(picks[..|picks| - 1], i) + if picks[|picks| - 1] == i then 1 else 0
  }

  /** Picks of the backends below `j`. */
  function TallyBelow(picks: seq<nat>, j: nat): nat {
    if j == 0 then 0 else TallyBelow(picks, j - 1) + Tally(picks, j - 1)
  }

  lemma {:induction false} TallyBelowStep(picks: seq<nat>, j: nat)
    requires picks != []
    ensures TallyBelow(picks, j) == TallyBelow(picks[..|picks| - 1], j) + if picks[|picks| - 1] < j then 1 else 0
  {
    if j > 0 { TallyBelowStep(picks, j - 1); }
  }

  lemma {:induction false} TallyBelowNone(j: nat)
    ensures TallyBelow([], j) == 0
  {
    if j > 0 { TallyBelowNone(j - 1); }
  }

  /** The tallies of all n backends add up to the number of picks. */
  lemma {:induction false} TallyTotal(picks: seq<nat>, n: nat)
    requires forall k :: 0 <= k < |picks| ==> picks[k] < n
    ensures TallyBelow(picks, n) == |picks|
  {
    if picks == [] {
      TallyBelowNone(n);
    } else {
      TallyBelowStep(picks, n);
      TallyTotal(picks[..|picks| - 1], n);
    }
  }

  /** Eligible backends are picked q or q + 1 times, the others never. */
  predicate Balanced(picks: seq<nat>, eligible: seq<bool>, q: nat) {
    forall i :: 0 <= i < |eligible| ==>
      if eligible[i] then q <= Tally(picks, i) <= q + 1 else Tally(picks, i) == 0
  }

  lemma OnceMore(x: nat, count: nat)
    ensures x * (count + 1) == x * count + x
  {
  }

  /** If every eligible backend below j was picked at least `low` times, so much adds up; and more
      if one of them was picked more often. */
  lemma {:induction false} TallyAtLeast(picks: seq<nat>, eligible: seq<bool>, j: nat, low: nat, i: nat)
    requires j <= |eligible| && forall k :: 0 <= k < j && eligible[k] ==> low <= Tally(picks, k)
    ensures low * Count(eligible[..j]) <= TallyBelow(picks, j)
    ensures i < j && eligible[i] && low < Tally(picks, i) ==> low * Count(eligible[..j]) < TallyBelow(picks, j)
  {
    if j > 0 {
      TallyAtLeast(picks, eligible, j - 1, low, i);
      assert eligible[..j][..j - 1] == eligible[..j - 1];
      OnceMore(low, Count(eligible[..j - 1]));
    }
  }

  /** Likewise from above, when the others were never picked. */
  lemma {:induction false} TallyAtMost(picks: seq<nat>, eligible: seq<bool>, j: nat, high: nat, i: nat)
    requires j <= |eligible|
    requires forall k :: 0 <= k < j ==> Tally(picks, k) <= if eligible[k] then high else 0
    ensures TallyBelow(picks, j) <= high * Count(eligible[..j])
    ensures i < j && eligible[i] && Tally(picks, i) < high ==> TallyBelow(picks, j) < high * Count(eligible[..j])
  {
    if j > 0 {
      TallyAtMost(picks, eligible, j - 1, high, i);
      assert eligible[..j][..j - 1] == eligible[..j - 1];
      OnceMore(high, Count(eligible[..j - 1]));
    }
  }

  lemma FloorShare(k: nat, m: nat, q: nat)
    requires q * m <= k < (q + 1) * m
    ensures k / m == q
  {
    assert (q + 1) * m == m * q + m && q * m == m * q;
    DivModUnique(k, m, q, k - m * q);
  }

  lemma CeilingShare(k: nat, m: nat, q: nat)
    requires q * m < k <= (q + 1) * m
    ensures (k + m - 1) / m == q + 1
  {
    assert (q + 1) * m == m * (q + 1) == m * q + m && q * m == m * q;
    DivModUnique(k + m - 1, m, q + 1, k + m - 1 - m * (q + 1));
  }

  lemma BalancedBounds(picks: seq<nat>, eligible: seq<bool>, q: nat, i: nat)
    requires Balanced(picks, eligible, q) && i < |eligible| && eligible[i]
    requires forall k :: 0 <= k < |picks| ==> picks[k] < |eligible|
    ensures q * Count(eligible) <= |picks| <= (q + 1) * Count(eligible)
    ensures if Tally(picks, i) == q then |picks| < (q + 1) * Count(eligible) else q * Count(eligible) < |picks|
  {
    assert eligible[..|eligible|] == eligible;
    TallyTotal(picks, |eligible|);
    TallyAtLeast(picks, eligible, |eligible|, q, i);
    TallyAtMost(picks, eligible, |eligible|, q + 1, i);
  }

  /** A balanced run gives every eligible backend the floor or the ceiling of its equal share. */
  lemma BalancedIsFair(picks: seq<nat>, eligible: seq<bool>, q: nat, i: nat)
    requires Balanced(picks, eligible, q)
    requires forall k :: 0 <= k < |picks| ==> picks[k] < |eligible|
    requires i < |eligible| && eligible[i]
    ensures Count(eligible) > 0
    ensures var m := Count(eligible);
            Tally(picks, i) == |picks| / m || Tally(picks, i) == (|picks| + m - 1) / m
  {
    CountZero(eligible);
    BalancedBounds(picks, eligible, q, i);
    if Tally(picks, i) == q {
      FloorShare(|picks|, Count(eligible), q);
    } else {
      CeilingShare(|picks|, Count(eligible), q);
    }
  }
}
