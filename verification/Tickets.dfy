/**
  Arithmetic of a 64-bit ticket counter reduced modulo the number of backends: which residues a
  range of tickets hits, and how often.
 */
module Tickets {

  const TICKETS := 0x1_0000_0000_0000_0000

  type Counter = c: int | 0 <= c < TICKETS

  lemma NonzeroMultiple(n: int, d: int)
    requires n > 0
    ensures d >= 1 ==> n * d >= n
    ensures d <= -1 ==> n * d <= -n
  {
    if d >= 1 {
      assert n * (d - 1) >= 0;
    } else if d <= -1 {
      assert n * (-1 - d) >= 0;
    }
  }

  /** Quotient and remainder are unique. */
  lemma DivModUnique(x: int, n: int, q: int, r: int)
    requires x == n * q + r && 0 <= r < n
    ensures x / n == q && x % n == r
  {
    var d := x / n - q;
    assert n * d == r - x % n by {
      assert n * (x / n) + x % n == x;
      assert n * d == n * (x / n) - n * q;
    }
    NonzeroMultiple(n, d);
  }

  lemma ModShift(x: int, n: int, k: int)
    requires n > 0
    ensures (x + n * k) % n == x % n && (x + n * k) / n == x / n + k
  {
    assert x + n * k == n * (x / n + k) + x % n by {
      assert n * (x / n + k) == n * (x / n) + n * k;
    }
    DivModUnique(x + n * k, n, x / n + k, x % n);
  }

  /** The remainder, by repeated subtraction.  `RemainderIsMod` identifies it with `%`; proofs that do
      not depend on its arithmetic are spared the division. */
  function Remainder(x: nat, n: nat): (r: nat)
    requires n > 0
    ensures r < n
  {
    if x < n then x else Remainder(x - n, n)
  }

  lemma {:induction false} RemainderIsMod(x: nat, n: nat)
    requires n > 0
    ensures Remainder(x, n) == x % n
  {
    if x < n {
      DivModUnique(x, n, 0, x);
    } else {
      RemainderIsMod(x - n, n);
      ModShift(x - n, n, 1);
    }
  }

  /** The backend index that the `a`-th ticket after counter value `c` leads to. */
  function Slot(c: Counter, a: nat, n: nat): (i: nat)
    requires n > 0
    ensures i < n
  {
    Remainder((c + a) % TICKETS, n)
  }

  lemma WrapAdd(v: nat, a: nat)
    ensures (v % TICKETS + a) % TICKETS == (v + a) % TICKETS
  {
    assert v == TICKETS * (v / TICKETS) + v % TICKETS;
    ModShift(v % TICKETS + a, TICKETS, v / TICKETS);
  }

  /** Stepping the counter a times and once more. */
  lemma CounterStep(v: nat, a: nat)
    ensures ((v + a) % TICKETS + 1) % TICKETS == (v + a + 1) % TICKETS
    ensures (v % TICKETS + a) % TICKETS == (v + a) % TICKETS
  {
    assert v + a == TICKETS * ((v + a) / TICKETS) + (v + a) % TICKETS;
    ModShift((v + a) % TICKETS + 1, TICKETS, (v + a) / TICKETS);
    WrapAdd(v, a);
  }

  /** The index that unbounded ticket number v + a leads to. */
  function Index(v: nat, a: nat, n: nat): (i: nat)
    requires n > 0
    ensures i < n
  {
    Remainder(v + a, n)
  }

  /** Over `steps` tickets from `v` on, reduction modulo 2^64 does not show in the indices: the
      counter does not wrap, or n divides 2^64. */
  predicate Linear(v: nat, steps: nat, n: nat)
    requires n > 0
  {
    v + steps < TICKETS || Remainder(TICKETS, n) == 0
  }

  lemma ModOfMod(t: nat, n: nat)
    requires n > 0 && TICKETS % n == 0
    ensures (t % TICKETS) % n == t % n
  {
    var per, rounds := TICKETS / n, t / TICKETS;
    assert TICKETS == n * per && t == TICKETS * rounds + t % TICKETS;
    assert TICKETS * rounds == n * (per * rounds);
    ModShift(t % TICKETS, n, per * rounds);
  }

  lemma SmallRemainder(t: nat, n: nat)
    requires n > 0 && (t < TICKETS || Remainder(TICKETS, n) == 0)
    ensures Remainder(t % TICKETS, n) == Remainder(t, n)
  {
    if t < TICKETS {
      DivModUnique(t, TICKETS, 0, t);
    } else {
      RemainderIsMod(TICKETS, n);
      ModOfMod(t, n);
      RemainderIsMod(t, n);
      RemainderIsMod(t % TICKETS, n);
    }
  }

  /** There the index is just the unbounded ticket number modulo n. */
  lemma LinearSlot(v: nat, a: nat, n: nat)
    requires n > 0 && Linear(v, a, n)
    ensures Slot(v % TICKETS, a, n) == Index(v, a, n)
  {
    CounterStep(v, a);
    SmallRemainder(v + a, n);
  }

  /** Among any n consecutive numbers one has residue i. */
  lemma ResidueAhead(v: nat, i: nat, n: nat) returns (d: nat)
    requires i < n
    ensures 1 <= d <= n && Index(v, d, n) == i
  {
    var x := i - v - 1;
    d := x % n + 1;
    assert x == n * (x / n) + x % n;
    assert v + d == i + n * (-(x / n)) by {
      assert n * (-(x / n)) == -(n * (x / n));
    }
    ModShift(i, n, -(x / n));
    DivModUnique(i, n, 0, i);
    RemainderIsMod(v + d, n);
  }

  // ---- How often a residue occurs ----

  /** Tickets t with lo < t <= hi and residue i. */
  function Hits(lo: nat, hi: nat, i: nat, n: nat): nat
    requires n > 0
  {
    if hi <= lo then 0 else Hits(lo, hi - 1, i, n) + if Remainder(hi, n) == i then 1 else 0
  }

  lemma QuotientStep(x: int, n: int)
    requires n > 0
    ensures x / n == (x - 1) / n + if x % n == 0 then 1 else 0
  {
    var q, r := x / n, x % n;
    assert x == n * q + r;
    if r == 0 {
      assert x - 1 == n * (q - 1) + (n - 1) by { assert n * (q - 1) == n * q - n; }
      DivModUnique(x - 1, n, q - 1, n - 1);
    } else {
      DivModUnique(x - 1, n, q, r - 1);
    }
  }

  lemma ResidueTest(t: nat, i: nat, n: nat)
    requires i < n
    ensures t % n == i <==> (t - i) % n == 0
  {
    var q, r := t / n, t % n;
    assert t == n * q + r;
    if r >= i {
      DivModUnique(t - i, n, q, r - i);
    } else {
      assert t - i == n * (q - 1) + (n + r - i) by { assert n * (q - 1) == n * q - n; }
      DivModUnique(t - i, n, q - 1, n + r - i);
    }
  }

  lemma {:induction false} HitsClosedForm(lo: nat, hi: nat, i: nat, n: nat)
    requires lo <= hi && i < n
    ensures Hits(lo, hi, i, n) == (hi - i) / n - (lo - i) / n
    decreases hi
  {
    if lo < hi {
      HitsClosedForm(lo, hi - 1, i, n);
      QuotientStep(hi - i, n);
      RemainderIsMod(hi, n);
      ResidueTest(hi, i, n);
    }
  }

  lemma FloorOfSum(x: int, l: nat, n: int)
    requires n > 0
    ensures l / n <= (x + l) / n - x / n <= l / n + 1
  {
    var q, r, q', r' := x / n, x % n, l / n, l % n;
    assert x == n * q + r && l == n * q' + r';
    assert n * (q + q') == n * q + n * q';
    if r + r' < n {
      DivModUnique(x + l, n, q + q', r + r');
    } else {
      assert n * (q + q' + 1) == n * (q + q') + n;
      DivModUnique(x + l, n, q + q' + 1, r + r' - n);
    }
  }

  /** Every residue occurs floor(L/n) times or once more among L consecutive tickets. */
  lemma HitsBalanced(lo: nat, hi: nat, i: nat, n: nat)
    requires lo <= hi && i < n
    ensures (hi - lo) / n <= Hits(lo, hi, i, n) <= (hi - lo) / n + 1
  {
    HitsClosedForm(lo, hi, i, n);
    FloorOfSum(lo - i, hi - lo, n);
  }

  /** A stretch without residue i adds nothing. */
  lemma {:induction false} HitsSkip(lo: nat, mid: nat, hi: nat, i: nat, n: nat)
    requires n > 0 && lo <= mid <= hi
    requires forall t :: mid < t <= hi ==> Remainder(t, n) != i
    ensures Hits(lo, hi, i, n) == Hits(lo, mid, i, n)
    decreases hi
  {
    if mid < hi { HitsSkip(lo, mid, hi - 1, i, n); }
  }
}
