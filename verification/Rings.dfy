/**
  The hash ring as a value (strategy/consistent_hash.go:14-62 and 83-97): what it contains, what a
  lookup finds in it, and how the answer moves when backends come and go.

  SHA-256 is an uninterpreted function to 64-bit numbers.  Results that need the hashes of the
  virtual nodes to differ say so with `CollisionFree`, about the finitely many nodes at hand.
 */
module Rings {
  import opened Counting
  import opened Keys

  const HASH_SPACE := 0x1_0000_0000_0000_0000

  type Hash = h: int | 0 <= h < HASH_SPACE

  type HashFunction = string -> Hash

  datatype RingEntry = RingEntry(hash: Hash, idx: nat)

  function NodeHash(hash: HashFunction, url: string, v: nat): Hash {
    hash(Key(url, v))
  }

  // ---- Contents ----

  /** The entries of one backend. */
  function NodesOf(hash: HashFunction, url: string, idx: nat, vn: nat): seq<RingEntry> {
    seq(vn, v requires 0 <= v < vn => RingEntry(NodeHash(hash, url, v), idx))
  }

  /** The entries of all eligible backends, in the order they are generated. */
  function AllNodes(hash: HashFunction, urls: seq<string>, eligible: seq<bool>, vn: nat): seq<RingEntry>
    requires |urls| == |eligible|
  {
    if urls == [] then []
    else
      var n := |urls| - 1;
      AllNodes(hash, urls[..n], eligible[..n], vn) +
      if eligible[n] then NodesOf(hash, urls[n], n, vn) else []
  }

  predicate Sorted(ring: seq<RingEntry>) {
    forall i, j :: 0 <= i < j < |ring| ==> ring[i].hash <= ring[j].hash
  }

  /** `ring` is some sorted arrangement of the nodes.  Nothing more is known of sort.Slice, which is
      not stable. */
  ghost predicate IsRing(ring: seq<RingEntry>, hash: HashFunction, urls: seq<string>, eligible: seq<bool>, vn: nat) {
    |urls| == |eligible| && Sorted(ring) && multiset(ring) == multiset(AllNodes(hash, urls, eligible, vn))
  }

  lemma {:induction false} NodeTotal(hash: HashFunction, urls: seq<string>, eligible: seq<bool>, vn: nat)
    requires |urls| == |eligible|
    ensures |AllNodes(hash, urls, eligible, vn)| == vn * Count(eligible)
  {
    if urls != [] {
      var n := |urls| - 1;
      NodeTotal(hash, urls[..n], eligible[..n], vn);
      if eligible[n] {
        assert vn * (Count(eligible[..n]) + 1) == vn * Count(eligible[..n]) + vn;
      }
    }
  }

  /** The size of a ring tells how many backends it was built for, and nothing else. */
  lemma RingSize(ring: seq<RingEntry>, hash: HashFunction, urls: seq<string>, eligible: seq<bool>, vn: nat)
    requires IsRing(ring, hash, urls, eligible, vn)
    ensures |ring| == vn * Count(eligible)
    ensures vn > 0 ==> (ring == [] <==> true !in eligible)
  {
    NodeTotal(hash, urls, eligible, vn);
    assert |ring| == |multiset(ring)|;
    CountZero(eligible);
    if vn > 0 && Count(eligible) > 0 {
      assert vn * Count(eligible) > 0;
    }
  }

  /** `e` is virtual node `v` of the eligible backend at its own index. */
  predicate IsNode(e: RingEntry, v: nat, hash: HashFunction, urls: seq<string>, eligible: seq<bool>, vn: nat)
    requires |urls| == |eligible|
  {
    v < vn && e.idx < |urls| && eligible[e.idx] && e.hash == NodeHash(hash, urls[e.idx], v)
  }

  lemma {:induction false} NodeMembers(hash: HashFunction, urls: seq<string>, eligible: seq<bool>, vn: nat,
                                       e: RingEntry)
    requires |urls| == |eligible|
    ensures e in AllNodes(hash, urls, eligible, vn) <==> exists v: nat :: IsNode(e, v, hash, urls, eligible, vn)
  {
    if urls != [] {
      var n := |urls| - 1;
      var init, last := AllNodes(hash, urls[..n], eligible[..n], vn), NodesOf(hash, urls[n], n, vn);
      NodeMembers(hash, urls[..n], eligible[..n], vn, e);
      forall v: nat
        ensures IsNode(e, v, hash, urls, eligible, vn) <==>
                IsNode(e, v, hash, urls[..n], eligible[..n], vn) ||
                (eligible[n] && v < vn && e == RingEntry(NodeHash(hash, urls[n], v), n))
      {
      }
      if eligible[n] {
        if v: nat :| v < vn && e == RingEntry(NodeHash(hash, urls[n], v), n) {
          assert last[v] == e;
        }
        if e in last {
          var v :| 0 <= v < |last| && last[v] == e;
          assert IsNode(e, v, hash, urls, eligible, vn);
        }
      }
    }
  }

  lemma RingMembers(ring: seq<RingEntry>, hash: HashFunction, urls: seq<string>, eligible: seq<bool>, vn: nat,
                    e: RingEntry)
    requires IsRing(ring, hash, urls, eligible, vn)
    ensures e in ring <==> exists v: nat :: IsNode(e, v, hash, urls, eligible, vn)
  {
    NodeMembers(hash, urls, eligible, vn, e);
    assert e in ring <==> e in multiset(ring);
    assert e in AllNodes(hash, urls, eligible, vn) <==> e in multiset(AllNodes(hash, urls, eligible, vn));
  }

  // ---- Shape ----

  function Occurrences(ring: seq<RingEntry>, idx: nat): nat {
    if ring == [] then 0
    else Occurrences(ring[..|ring| - 1], idx) + if ring[|ring| - 1].idx == idx then 1 else 0
  }

  lemma {:induction false} OccurrencesAppend(a: seq<RingEntry>, b: seq<RingEntry>, idx: nat)
    ensures Occurrences(a + b, idx) == Occurrences(a, idx) + Occurrences(b, idx)
  {
    if b == [] {
      assert a + b == a;
    } else {
      OccurrencesAppend(a, b[..|b| - 1], idx);
      assert (a + b)[..|a + b| - 1] == a + b[..|b| - 1];
    }
  }

  /** Taking one entry out. */
  lemma OccurrencesWithout(s: seq<RingEntry>, p: nat, idx: nat)
    requires p < |s|
    ensures multiset(s[..p] + s[p + 1..]) == multiset(s) - multiset{s[p]}
    ensures Occurrences(s, idx) == Occurrences(s[..p] + s[p + 1..], idx) + if s[p].idx == idx then 1 else 0
  {
    assert s == s[..p + 1] + s[p + 1..] && s[..p + 1] == s[..p] + [s[p]];
    OccurrencesAppend(s[..p + 1], s[p + 1..], idx);
    OccurrencesAppend(s[..p], s[p + 1..], idx);
  }

  /** Rearranging a ring changes no count. */
  lemma {:induction false} OccurrencesPermute(a: seq<RingEntry>, b: seq<RingEntry>, idx: nat)
    requires multiset(a) == multiset(b)
    ensures Occurrences(a, idx) == Occurrences(b, idx)
    decreases |a|
  {
    if a == [] {
      assert |multiset(b)| == 0;
    } else {
      var n := |a| - 1;
      assert a[n] in multiset(b);
      var p :| 0 <= p < |b| && b[p] == a[n];
      OccurrencesWithout(a, n, idx);
      OccurrencesWithout(b, p, idx);
      OccurrencesPermute(a[..n] + a[n + 1..], b[..p] + b[p + 1..], idx);
    }
  }

  lemma {:induction false} OccurrencesUniform(s: seq<RingEntry>, i: nat, idx: nat)
    requires forall k :: 0 <= k < |s| ==> s[k].idx == i
    ensures Occurrences(s, idx) == if i == idx then |s| else 0
  {
    if s != [] { OccurrencesUniform(s[..|s| - 1], i, idx); }
  }

  lemma {:induction false} OccurrencesOfNodes(hash: HashFunction, urls: seq<string>, eligible: seq<bool>, vn: nat,
                                              idx: nat)
    requires |urls| == |eligible|
    ensures Occurrences(AllNodes(hash, urls, eligible, vn), idx) == if idx < |urls| && eligible[idx] then vn else 0
  {
    if urls != [] {
      var n := |urls| - 1;
      OccurrencesOfNodes(hash, urls[..n], eligible[..n], vn, idx);
      var last := if eligible[n] then NodesOf(hash, urls[n], n, vn) else [];
      OccurrencesUniform(last, n, idx);
      OccurrencesAppend(AllNodes(hash, urls[..n], eligible[..n], vn), last, idx);
    }
  }

  /** Every eligible index occurs exactly `vn` times on the ring, and no other index occurs. */
  lemma RingShares(ring: seq<RingEntry>, hash: HashFunction, urls: seq<string>, eligible: seq<bool>, vn: nat, idx: nat)
    requires IsRing(ring, hash, urls, eligible, vn)
    ensures Occurrences(ring, idx) == if idx < |urls| && eligible[idx] then vn else 0
  {
    OccurrencesOfNodes(hash, urls, eligible, vn, idx);
    OccurrencesPermute(ring, AllNodes(hash, urls, eligible, vn), idx);
  }

  /** No two different keys among the first `vn` nodes of these URLs hash alike. */
  ghost predicate CollisionFree(hash: HashFunction, urls: set<string>, vn: nat) {
    forall u, v, u', v' | u in urls && u' in urls && 0 <= v < vn && 0 <= v' < vn && Key(u, v) != Key(u', v') ::
      NodeHash(hash, u, v) != NodeHash(hash, u', v')
  }

  /** The hash tells node v of `u` and node v' of `u'` apart. */
  predicate Apart(hash: HashFunction, u: string, v: nat, u': string, v': nat) {
    hash(u + "#" + Itoa(v)) != hash(u' + "#" + Itoa(v'))
  }

  /** That is to say, the hash tells any two nodes apart that differ in URL or number. */
  lemma CollisionFreeIff(hash: HashFunction, urls: set<string>, vn: nat)
    ensures CollisionFree(hash, urls, vn) <==>
              forall u, v: nat, u', v': nat :: u in urls && u' in urls && v < vn && v' < vn && (u != u' || v != v') ==>
                Apart(hash, u, v, u', v')
  {
    if CollisionFree(hash, urls, vn) {
      forall u, v: nat, u', v': nat | u in urls && u' in urls && v < vn && v' < vn && (u != u' || v != v')
        ensures Apart(hash, u, v, u', v')
      {
        if Key(u, v) == Key(u', v') { KeyInjective(u, v, u', v'); }
        assert NodeHash(hash, u, v) != NodeHash(hash, u', v');
      }
    } else {
      var u, v, u', v' :| u in urls && u' in urls && 0 <= v < vn && 0 <= v' < vn && Key(u, v) != Key(u', v') &&
                          NodeHash(hash, u, v) == NodeHash(hash, u', v');
      assert !Apart(hash, u, v, u', v');
    }
  }

  function EligibleUrls(urls: seq<string>, eligible: seq<bool>): set<string>
    requires |urls| == |eligible|
  {
    set i | 0 <= i < |urls| && eligible[i] :: urls[i]
  }

  predicate Distinct<T(==)>(s: seq<T>) {
    forall i, j :: 0 <= i < j < |s| ==> s[i] != s[j]
  }

  /** Two equal hashes on the ring come from the same entry. */
  lemma HashIdentifiesEntry(ring: seq<RingEntry>, hash: HashFunction, urls: seq<string>, eligible: seq<bool>, vn: nat,
                            d: RingEntry, e: RingEntry)
    requires IsRing(ring, hash, urls, eligible, vn) && Distinct(urls)
    requires CollisionFree(hash, EligibleUrls(urls, eligible), vn)
    requires d in ring && e in ring && d.hash == e.hash
    ensures d == e
  {
    RingMembers(ring, hash, urls, eligible, vn, d);
    RingMembers(ring, hash, urls, eligible, vn, e);
    var v: nat :| IsNode(d, v, hash, urls, eligible, vn);
    var w: nat :| IsNode(e, w, hash, urls, eligible, vn);
    assert urls[d.idx] in EligibleUrls(urls, eligible) && urls[e.idx] in EligibleUrls(urls, eligible);
    KeyInjective(urls[d.idx], v, urls[d.idx], v);
    assert Key(urls[d.idx], v) == Key(urls[e.idx], w);
    KeyInjective(urls[d.idx], v, urls[e.idx], w);
  }

  /** The generated entries are pairwise different. */
  lemma {:induction false} NodesDistinct(hash: HashFunction, urls: seq<string>, eligible: seq<bool>, vn: nat)
    requires |urls| == |eligible| && Distinct(urls)
    requires CollisionFree(hash, EligibleUrls(urls, eligible), vn)
    ensures Distinct(AllNodes(hash, urls, eligible, vn))
  {
    if urls != [] {
      var n := |urls| - 1;
      assert EligibleUrls(urls[..n], eligible[..n]) <= EligibleUrls(urls, eligible);
      NodesDistinct(hash, urls[..n], eligible[..n], vn);
      var init := AllNodes(hash, urls[..n], eligible[..n], vn);
      forall k | 0 <= k < |init|
        ensures init[k].idx < n
      {
        NodeMembers(hash, urls[..n], eligible[..n], vn, init[k]);
      }
      if eligible[n] {
        LastNodesDistinct(hash, urls, eligible, vn);
      }
    }
  }

  lemma LastNodesDistinct(hash: HashFunction, urls: seq<string>, eligible: seq<bool>, vn: nat)
    requires 0 < |urls| == |eligible| && eligible[|urls| - 1]
    requires CollisionFree(hash, EligibleUrls(urls, eligible), vn)
    ensures Distinct(NodesOf(hash, urls[|urls| - 1], |urls| - 1, vn))
  {
    var n := |urls| - 1;
    assert urls[n] in EligibleUrls(urls, eligible);
    forall i, j | 0 <= i < j < vn
      ensures NodeHash(hash, urls[n], i) != NodeHash(hash, urls[n], j)
    {
      if Key(urls[n], i) == Key(urls[n], j) { KeyInjective(urls[n], i, urls[n], j); }
    }
  }

  lemma {:induction false} DistinctMultiplicity(s: seq<RingEntry>, e: RingEntry)
    requires Distinct(s)
    ensures multiset(s)[e] <= 1
  {
    if s != [] {
      var n := |s| - 1;
      DistinctMultiplicity(s[..n], e);
      assert s == s[..n] + [s[n]];
      assert s[n] !in s[..n];
    }
  }

  lemma RepeatedMultiplicity(s: seq<RingEntry>, i: nat, j: nat)
    requires i < j < |s| && s[i] == s[j]
    ensures multiset(s)[s[i]] >= 2
  {
    assert s == s[..j] + s[j..];
    assert s[i] in s[..j] && s[i] in s[j..];
  }

  /** With distinct URLs and no collisions, the ring is strictly sorted. */
  lemma RingStrictlySorted(ring: seq<RingEntry>, hash: HashFunction, urls: seq<string>, eligible: seq<bool>, vn: nat)
    requires IsRing(ring, hash, urls, eligible, vn) && Distinct(urls)
    requires CollisionFree(hash, EligibleUrls(urls, eligible), vn)
    ensures forall i, j :: 0 <= i < j < |ring| ==> ring[i].hash < ring[j].hash
  {
    NodesDistinct(hash, urls, eligible, vn);
    forall i, j | 0 <= i < j < |ring|
      ensures ring[i].hash < ring[j].hash
    {
      if ring[i].hash == ring[j].hash {
        HashIdentifiesEntry(ring, hash, urls, eligible, vn, ring[i], ring[j]);
        RepeatedMultiplicity(ring, i, j);
        DistinctMultiplicity(AllNodes(hash, urls, eligible, vn), ring[i]);
      }
    }
  }

  // ---- Lookup ----

  /** The way from `h` to `to`, clockwise. */
  function Distance(h: Hash, to: Hash): int {
    (to - h) % HASH_SPACE
  }

  /** The first entry at or after `h`, found by walking; `|ring|` when there is none. */
  function FirstAtLeast(ring: seq<RingEntry>, h: Hash): (k: nat)
    ensures k <= |ring|
    ensures forall j :: 0 <= j < k ==> ring[j].hash < h
    ensures k < |ring| ==> ring[k].hash >= h
  {
    if ring == [] || ring[0].hash >= h then 0 else 1 + FirstAtLeast(ring[1..], h)
  }

  /** The entry a lookup of `h` lands on. */
  function Lookup(ring: seq<RingEntry>, h: Hash): (e: RingEntry)
    requires ring != []
    ensures e in ring
  {
    var k := FirstAtLeast(ring, h);
    if k == |ring| then ring[0] else ring[k]
  }

  lemma DistanceCases(h: Hash, to: Hash)
    ensures Distance(h, to) == if h <= to then to - h else to - h + HASH_SPACE
    ensures 0 <= Distance(h, to) < HASH_SPACE
  {
  }

  lemma DistanceInjective(h: Hash, a: Hash, b: Hash)
    requires Distance(h, a) == Distance(h, b)
    ensures a == b
  {
    DistanceCases(h, a);
    DistanceCases(h, b);
  }

  /** Search and wrap-around find the entry nearest to `h` clockwise. */
  lemma LookupIsNearestEntry(ring: seq<RingEntry>, h: Hash)
    requires Sorted(ring) && ring != []
    ensures forall e :: e in ring ==> Distance(h, Lookup(ring, h).hash) <= Distance(h, e.hash)
  {
    var k := FirstAtLeast(ring, h);
    forall e | e in ring
      ensures Distance(h, Lookup(ring, h).hash) <= Distance(h, e.hash)
    {
      var j :| 0 <= j < |ring| && ring[j] == e;
      DistanceCases(h, e.hash);
      DistanceCases(h, Lookup(ring, h).hash);
    }
  }

  /** `u` owns `h` among `urls`: one of its nodes is at least as near, clockwise, as every node of
      every URL.  No ring, order or index is involved. */
  ghost predicate Owns(hash: HashFunction, urls: set<string>, vn: nat, h: Hash, u: string) {
    u in urls && exists v :: 0 <= v < vn && NearestNode(hash, urls, vn, h, NodeHash(hash, u, v))
  }

  ghost predicate NearestNode(hash: HashFunction, urls: set<string>, vn: nat, h: Hash, node: Hash) {
    forall u, v :: u in urls && 0 <= v < vn ==> Distance(h, node) <= Distance(h, NodeHash(hash, u, v))
  }

  /** The lookup refines the simple definition: for every 64-bit `h`, the backend found on the ring
      is eligible and owns `h`. */
  lemma LookupFindsOwner(ring: seq<RingEntry>, hash: HashFunction, urls: seq<string>, eligible: seq<bool>, vn: nat,
                         h: Hash)
    requires IsRing(ring, hash, urls, eligible, vn) && ring != []
    ensures Lookup(ring, h).idx < |urls| && eligible[Lookup(ring, h).idx]
    ensures Owns(hash, EligibleUrls(urls, eligible), vn, h, urls[Lookup(ring, h).idx])
  {
    var e := Lookup(ring, h);
    RingMembers(ring, hash, urls, eligible, vn, e);
    var v: nat :| IsNode(e, v, hash, urls, eligible, vn);
    LookupIsNearestEntry(ring, h);
    forall u, w | u in EligibleUrls(urls, eligible) && 0 <= w < vn
      ensures Distance(h, e.hash) <= Distance(h, NodeHash(hash, u, w))
    {
      var i :| 0 <= i < |urls| && eligible[i] && urls[i] == u;
      var d := RingEntry(NodeHash(hash, u, w), i);
      assert IsNode(d, w, hash, urls, eligible, vn);
      RingMembers(ring, hash, urls, eligible, vn, d);
    }
    assert NearestNode(hash, EligibleUrls(urls, eligible), vn, h, NodeHash(hash, urls[e.idx], v));
  }

  /** Without collisions there is only one owner. */
  lemma OwnerUnique(hash: HashFunction, urls: set<string>, vn: nat, h: Hash, u: string, u': string)
    requires CollisionFree(hash, urls, vn)
    requires Owns(hash, urls, vn, h, u) && Owns(hash, urls, vn, h, u')
    ensures u == u'
  {
    var v :| 0 <= v < vn && NearestNode(hash, urls, vn, h, NodeHash(hash, u, v));
    var v' :| 0 <= v' < vn && NearestNode(hash, urls, vn, h, NodeHash(hash, u', v'));
    DistanceInjective(h, NodeHash(hash, u, v), NodeHash(hash, u', v'));
    assert Key(u, v) == Key(u', v');
    KeyInjective(u, v, u', v');
  }

  // ---- Disruption ----

  /** The URL that a lookup of `h` on this ring leads to. */
  function OwnerUrl(ring: seq<RingEntry>, urls: seq<string>, h: Hash): string
    requires ring != [] && Lookup(ring, h).idx < |urls|
  {
    urls[Lookup(ring, h).idx]
  }

  ghost predicate RingFor(ring: seq<RingEntry>, hash: HashFunction, urls: seq<string>, eligible: seq<bool>, vn: nat,
                          h: Hash)
  {
    IsRing(ring, hash, urls, eligible, vn) && ring != [] && Lookup(ring, h).idx < |urls|
  }

  /** The owner depends on the set of eligible URLs only: not on the order of the slice, the indices,
      the ineligible backends in it, or how the sort arranged the entries. */
  lemma OwnerIgnoresOrder(hash: HashFunction, vn: nat, h: Hash,
                          ring: seq<RingEntry>, urls: seq<string>, eligible: seq<bool>,
                          ring': seq<RingEntry>, urls': seq<string>, eligible': seq<bool>)
    requires RingFor(ring, hash, urls, eligible, vn, h) && RingFor(ring', hash, urls', eligible', vn, h)
    requires CollisionFree(hash, EligibleUrls(urls, eligible), vn)
    requires EligibleUrls(urls', eligible') == EligibleUrls(urls, eligible)
    ensures OwnerUrl(ring', urls', h) == OwnerUrl(ring, urls, h)
  {
    LookupFindsOwner(ring, hash, urls, eligible, vn, h);
    LookupFindsOwner(ring', hash, urls', eligible', vn, h);
    OwnerUnique(hash, EligibleUrls(urls, eligible), vn, h, OwnerUrl(ring, urls, h), OwnerUrl(ring', urls', h));
  }

  lemma OwnershipShrinks(hash: HashFunction, urls: set<string>, vn: nat, h: Hash, fewer: set<string>, u: string)
    requires fewer <= urls && u in fewer && Owns(hash, urls, vn, h, u)
    ensures Owns(hash, fewer, vn, h, u)
  {
    var v :| 0 <= v < vn && NearestNode(hash, urls, vn, h, NodeHash(hash, u, v));
    assert NearestNode(hash, fewer, vn, h, NodeHash(hash, u, v));
  }

  /** Minimal disruption.  Take any set of backends away, however the slices are ordered: a key
      changes hands if and only if its owner was taken away.  Read from right to left, adding
      backends moves a key only to one of those that were added. */
  lemma MinimalDisruption(hash: HashFunction, vn: nat, h: Hash, removed: set<string>,
                          ring: seq<RingEntry>, urls: seq<string>, eligible: seq<bool>,
                          ring': seq<RingEntry>, urls': seq<string>, eligible': seq<bool>)
    requires RingFor(ring, hash, urls, eligible, vn, h) && RingFor(ring', hash, urls', eligible', vn, h)
    requires CollisionFree(hash, EligibleUrls(urls, eligible), vn)
    requires EligibleUrls(urls', eligible') == EligibleUrls(urls, eligible) - removed
    ensures OwnerUrl(ring', urls', h) != OwnerUrl(ring, urls, h) <==> OwnerUrl(ring, urls, h) in removed
  {
    var all, rest := EligibleUrls(urls, eligible), EligibleUrls(urls', eligible');
    LookupFindsOwner(ring, hash, urls, eligible, vn, h);
    LookupFindsOwner(ring', hash, urls', eligible', vn, h);
    var u, u' := OwnerUrl(ring, urls, h), OwnerUrl(ring', urls', h);
    assert u in all && u' in rest;
    if u !in removed {
      OwnershipShrinks(hash, all, vn, h, rest, u);
      OwnerUnique(hash, rest, vn, h, u, u');
    }
  }

  /** Rings for the same slice and the same eligible backends answer with the same index. */
  lemma AnswerIsDetermined(hash: HashFunction, vn: nat, h: Hash, urls: seq<string>, eligible: seq<bool>,
                           ring: seq<RingEntry>, ring': seq<RingEntry>)
    requires IsRing(ring, hash, urls, eligible, vn) && IsRing(ring', hash, urls, eligible, vn) && ring != []
    requires Distinct(urls) && CollisionFree(hash, EligibleUrls(urls, eligible), vn)
    ensures ring' != [] && Lookup(ring', h).idx == Lookup(ring, h).idx
  {
    RingSize(ring, hash, urls, eligible, vn);
    RingSize(ring', hash, urls, eligible, vn);
    LookupFindsOwner(ring, hash, urls, eligible, vn, h);
    LookupFindsOwner(ring', hash, urls, eligible, vn, h);
    OwnerIgnoresOrder(hash, vn, h, ring, urls, eligible, ring', urls, eligible);
  }
}
