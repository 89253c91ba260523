/**
  The keys of virtual nodes (strategy/consistent_hash.go:50): the backend's URL, '#', and the
  node's number in decimal.
 */
module Keys {

  function Digit(d: nat): char
    requires d < 10
  {
    '0' + d as char
  }

  /** strconv.Itoa on the numbers that occur. */
  function Itoa(v: nat): string {
    if v < 10 then [Digit(v)] else Itoa(v / 10) + [Digit(v % 10)]
  }

  function Key(url: string, v: nat): string {
    url + "#" + Itoa(v)
  }

  lemma {:induction false} ItoaHasNoHash(v: nat)
    ensures Itoa(v) != [] && '#' !in Itoa(v)
  {
    if v >= 10 { ItoaHasNoHash(v / 10); }
  }

  predicate IsDigit(c: char) {
    '0' <= c <= '9'
  }

  /** The number that a string of digits stands for. */
  function Value(s: string): nat
    requires forall c :: c in s ==> IsDigit(c)
  {
    if s == [] then 0
    else
      assert s[|s| - 1] in s && IsDigit(s[|s| - 1]);
      10 * Value(s[..|s| - 1]) + (s[|s| - 1] as int - '0' as int)
  }

  /** `s` is the number v written in decimal, without leading zeros. */
  predicate Decimal(s: string, v: nat) {
    && s != [] && (forall c :: c in s ==> IsDigit(c))
    && (|s| > 1 ==> s[0] != '0')
    && Value(s) == v
  }

  lemma {:induction false} ItoaIsDecimal(v: nat)
    ensures Decimal(Itoa(v), v)
    ensures v > 0 ==> Itoa(v)[0] != '0'
  {
    if v >= 10 {
      ItoaIsDecimal(v / 10);
      assert Itoa(v)[..|Itoa(v)| - 1] == Itoa(v / 10);
      assert Itoa(v)[0] == Itoa(v / 10)[0];
    } else {
      assert Itoa(v)[..0] == [];
    }
  }

  lemma {:induction false} PositiveValue(s: string)
    requires s != [] && (forall c :: c in s ==> IsDigit(c)) && s[0] != '0'
    ensures Value(s) > 0
  {
    assert s[|s| - 1] in s;
    if |s| > 1 {
      PositiveValue(s[..|s| - 1]);
    } else {
      assert s[..0] == [];
    }
  }

  lemma DigitOfChar(c: char)
    requires IsDigit(c)
    ensures Digit(c as int - '0' as int) == c
  {
  }

  /** Writing one more digit. */
  lemma OneMoreDigit(w: nat, d: nat)
    requires w > 0 && d < 10
    ensures Itoa(10 * w + d) == Itoa(w) + [Digit(d)]
  {
    assert (10 * w + d) / 10 == w && (10 * w + d) % 10 == d;
  }

  lemma {:induction false} DecimalIsItoa(s: string, v: nat)
    requires Decimal(s, v)
    ensures s == Itoa(v)
  {
    var n := |s| - 1;
    var init, last := s[..n], s[n];
    assert last in s && IsDigit(last) && s == init + [last];
    DigitOfChar(last);
    if n == 0 {
      assert Value(init) == 0;
    } else {
      PositiveValue(init);
      DecimalIsItoa(init, Value(init));
      OneMoreDigit(Value(init), last as int - '0' as int);
    }
  }

  /** Decimal printing is what a reader of decimal numbers expects, and nothing else is. */
  lemma DecimalIff(s: string, v: nat)
    ensures Decimal(s, v) <==> s == Itoa(v)
  {
    ItoaIsDecimal(v);
    if Decimal(s, v) { DecimalIsItoa(s, v); }
  }

  lemma DigitInjective(d: nat, e: nat)
    requires d < 10 && e < 10 && Digit(d) == Digit(e)
    ensures d == e
  {
  }

  /** Decimal printing tells numbers apart. */
  lemma {:induction false} ItoaInjective(v: nat, w: nat)
    requires Itoa(v) == Itoa(w)
    ensures v == w
  {
    ItoaHasNoHash(v / 10);
    ItoaHasNoHash(w / 10);
    var s, t := Itoa(v), Itoa(w);
    assert s[|s| - 1] == Digit(v % 10) && t[|t| - 1] == Digit(w % 10);
    DigitInjective(v % 10, w % 10);
    if v >= 10 && w >= 10 {
      assert s[..|s| - 1] == Itoa(v / 10) && t[..|t| - 1] == Itoa(w / 10);
      ItoaInjective(v / 10, w / 10);
    }
  }

  /** The last '#' of a key is the one that precedes the number. */
  lemma SplitAtLastHash(a: string, b: string, x: string, y: string)
    requires a + "#" + b == x + "#" + y
    requires '#' !in b && '#' !in y
    ensures a == x && b == y
  {
    var s := a + "#" + b;
    assert s[|a|] == '#' && forall k :: |a| < k < |s| ==> s[k] == b[k - |a| - 1];
    assert s[|x|] == '#' && forall k :: |x| < k < |s| ==> s[k] == y[k - |x| - 1];
    assert |a| == |x|;
    assert s[..|a|] == a && s[..|x|] == x;
    assert s[|a| + 1..] == b && s[|x| + 1..] == y;
  }

  /** Different virtual nodes have different keys, whatever the URLs contain. */
  lemma KeyInjective(url: string, v: nat, url': string, v': nat)
    requires Key(url, v) == Key(url', v')
    ensures url == url' && v == v'
  {
    ItoaHasNoHash(v);
    ItoaHasNoHash(v');
    SplitAtLastHash(url, Itoa(v), url', Itoa(v'));
    ItoaInjective(v, v');
  }
}
