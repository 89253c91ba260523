/**
  The consistent-hash strategy with its cached ring (strategy/consistent_hash.go).

  Every CheckCircuitState reads the clock anew: a call has one sequence of readings for validating
  the ring and one for rebuilding it.  `builtUrls` and `builtFor` remember which slice and which
  eligibility the cached ring was built for.
 */
module ConsistentHashing {
  import opened Backends
  import opened Counting
  import opened Keys
  import opened Rings

  lemma InsertKeepsSorted(r: seq<RingEntry>, x: RingEntry, p: nat)
    requires Sorted(r) && p <= |r|
    requires forall i :: 0 <= i < p ==> r[i].hash < x.hash
    requires forall i :: p <= i < |r| ==> r[i].hash >= x.hash
    ensures Sorted(r[..p] + [x] + r[p..])
    ensures multiset(r[..p] + [x] + r[p..]) == multiset(r) + multiset{x}
  {
    assert r == r[..p] + r[p..];
  }

  /** A sorted rearrangement, standing for sort.Slice: callers learn that much and no more. */
  method SortByHash(s: seq<RingEntry>) returns (r: seq<RingEntry>)
    ensures Sorted(r) && multiset(r) == multiset(s)
  {
    r := [];
    for n := 0 to |s|
      invariant Sorted(r) && multiset(r) == multiset(s[..n])
    {
      var p := Search(r, s[n].hash);
      InsertKeepsSorted(r, s[n], p);
      assert s[..n + 1] == s[..n] + [s[n]];
      r := r[..p] + [s[n]] + r[p..];
    }
    assert s[..|s|] == s;
  }

  lemma {:induction false} WalkStopsAt(ring: seq<RingEntry>, h: Hash, k: nat)
    requires k <= |ring| && (forall i :: 0 <= i < k ==> ring[i].hash < h)
    requires k < |ring| ==> ring[k].hash >= h
    ensures FirstAtLeast(ring, h) == k
  {
    if k > 0 { WalkStopsAt(ring[1..], h, k - 1); }
  }

  /** sort.Search with the test `ring[i].Hash >= h`: binary search finds what a walk would find. */
  method Search(ring: seq<RingEntry>, h: Hash) returns (k: nat)
    requires Sorted(ring)
    ensures k == FirstAtLeast(ring, h)
    ensures k <= |ring|
    ensures forall i :: 0 <= i < k ==> ring[i].hash < h
    ensures forall i :: k <= i < |ring| ==> ring[i].hash >= h
  {
    var lo, hi := 0, |ring|;
    while lo < hi
      invariant 0 <= lo <= hi <= |ring|
      invariant forall i :: 0 <= i < lo ==> ring[i].hash < h
      invariant forall i :: hi <= i < |ring| ==> ring[i].hash >= h
    {
      var mid := (lo + hi) / 2;
      if ring[mid].hash >= h {
        hi := mid;
      } else {
        lo := mid + 1;
      }
    }
    k := lo;
    WalkStopsAt(ring, h, k);
  }

  lemma AllNodesStep(hash: HashFunction, urls: seq<string>, eligible: seq<bool>, i: nat, vn: nat)
    requires i < |urls| == |eligible|
    ensures AllNodes(hash, urls[..i + 1], eligible[..i + 1], vn)
            == AllNodes(hash, urls[..i], eligible[..i], vn) + if eligible[i] then NodesOf(hash, urls[i], i, vn) else []
  {
    assert urls[..i + 1][..i] == urls[..i] && eligible[..i + 1][..i] == eligible[..i];
  }

  /** The two looks a call can take at the backends: what validation sees, and what a rebuild at
      that call finds. */
  datatype Look = Look(seen: seq<bool>, found: seq<bool>)

  /** The eligibility the cached ring stands for after a call, if it stood for `built` before: an
      empty ring, or one of the wrong size, is rebuilt. */
  function CacheStep(built: seq<bool>, look: Look): seq<bool> {
    if Count(built) == 0 || Count(built) != Count(look.seen) then look.found else built
  }

  // ---- The ring in terms of the backends ----

  /** `h` is the hash of url, '#' and one of the first `vn` numbers in decimal. */
  ghost predicate NodeAt(hash: HashFunction, url: string, vn: nat, h: Hash) {
    exists v: nat, s :: v < vn && Decimal(s, v) && h == hash(url + "#" + s)
  }

  lemma NodeAtIff(hash: HashFunction, url: string, vn: nat, h: Hash)
    ensures NodeAt(hash, url, vn, h) <==> exists v: nat :: v < vn && h == NodeHash(hash, url, v)
  {
    if NodeAt(hash, url, vn, h) {
      var v: nat, s :| v < vn && Decimal(s, v) && h == hash(url + "#" + s);
      DecimalIff(s, v);
      assert h == NodeHash(hash, url, v);
    }
    if v: nat :| v < vn && h == NodeHash(hash, url, v) {
      DecimalIff(Itoa(v), v);
    }
  }

  /** At its reading of the clock, the backend at position i is eligible. */
  predicate Up(backends: seq<Backend>, nows: seq<int>, i: nat)
    requires |nows| == |backends|
    reads backends
  {
    i < |backends| && Eligible(backends[i].State(), nows[i])
  }

  /** The positions of the eligible backends. */
  function UpSet(backends: seq<Backend>, nows: seq<int>): set<nat>
    requires |nows| == |backends|
    reads backends
  {
    set i | 0 <= i < |backends| && Up(backends, nows, i)
  }

  lemma UpSetIsCounted(backends: seq<Backend>, nows: seq<int>)
    requires |nows| == |backends|
    ensures |UpSet(backends, nows)| == Count(Eligibility(States(backends), nows))
  {
    CountIsCardinality(Eligibility(States(backends), nows));
    assert UpSet(backends, nows) == Members(Eligibility(States(backends), nows));
  }

  /** `e` stands for a virtual node of an eligible backend. */
  ghost predicate Belongs(e: RingEntry, hash: HashFunction, vn: nat, backends: seq<Backend>, nows: seq<int>)
    requires |nows| == |backends|
    reads backends
  {
    Up(backends, nows, e.idx) && NodeAt(hash, backends[e.idx].url, vn, e.hash)
  }

  lemma RingBelongs(ring: seq<RingEntry>, hash: HashFunction, vn: nat, backends: seq<Backend>, nows: seq<int>,
                    e: RingEntry)
    requires |nows| == |backends|
    requires IsRing(ring, hash, Urls(backends), Eligibility(States(backends), nows), vn)
    ensures e in ring <==> Belongs(e, hash, vn, backends, nows)
  {
    var urls, eligible := Urls(backends), Eligibility(States(backends), nows);
    RingMembers(ring, hash, urls, eligible, vn, e);
    if e.idx < |backends| {
      NodeAtIff(hash, backends[e.idx].url, vn, e.hash);
      forall v: nat
        ensures IsNode(e, v, hash, urls, eligible, vn) <==>
                v < vn && Up(backends, nows, e.idx) && e.hash == NodeHash(hash, backends[e.idx].url, v)
      {
      }
    }
  }

  /** How far clockwise it is from h to x on a ring of 2^64 places. */
  function Clockwise(h: Hash, x: Hash): int {
    if x >= h then x - h else x - h + 0x1_0000_0000_0000_0000
  }

  /** One of the nodes of the backend at position i, which is eligible, is at least as near to h as every
      node of every eligible backend. */
  ghost predicate NearestUp(hash: HashFunction, vn: nat, backends: seq<Backend>, nows: seq<int>, h: Hash, i: nat)
    requires |nows| == |backends|
    reads backends
  {
    Up(backends, nows, i) &&
    exists x :: NodeAt(hash, backends[i].url, vn, x) &&
      forall e :: Belongs(e, hash, vn, backends, nows) ==> Clockwise(h, x) <= Clockwise(h, e.hash)
  }

  lemma LookupIsNearestUp(ring: seq<RingEntry>, hash: HashFunction, vn: nat, backends: seq<Backend>, nows: seq<int>,
                          h: Hash)
    requires |nows| == |backends| && ring != []
    requires IsRing(ring, hash, Urls(backends), Eligibility(States(backends), nows), vn)
    ensures NearestUp(hash, vn, backends, nows, h, Lookup(ring, h).idx)
  {
    var found := Lookup(ring, h);
    RingBelongs(ring, hash, vn, backends, nows, found);
    LookupIsNearestEntry(ring, h);
    forall e | Belongs(e, hash, vn, backends, nows)
      ensures Clockwise(h, found.hash) <= Clockwise(h, e.hash)
    {
      RingBelongs(ring, hash, vn, backends, nows, e);
      DistanceCases(h, e.hash);
      DistanceCases(h, found.hash);
    }
  }

  /** The sorted ring of the nodes of the backends that are eligible, each backend with all of its own. */
  ghost predicate BuiltFrom(ring: seq<RingEntry>, hash: HashFunction, vn: nat, backends: seq<Backend>, nows: seq<int>)
    requires |nows| == |backends|
    reads backends
  {
    && (forall e :: e in ring <==> Belongs(e, hash, vn, backends, nows))
    && (forall i, j :: 0 <= i < j < |ring| ==> ring[i].hash <= ring[j].hash)
    && |ring| == vn * |UpSet(backends, nows)|
  }

  lemma RingIsBuilt(ring: seq<RingEntry>, hash: HashFunction, vn: nat, backends: seq<Backend>, nows: seq<int>)
    requires |nows| == |backends|
    requires IsRing(ring, hash, Urls(backends), Eligibility(States(backends), nows), vn)
    ensures BuiltFrom(ring, hash, vn, backends, nows)
  {
    forall e
      ensures e in ring <==> Belongs(e, hash, vn, backends, nows)
    {
      RingBelongs(ring, hash, vn, backends, nows, e);
    }
    RingSize(ring, hash, Urls(backends), Eligibility(States(backends), nows), vn);
    UpSetIsCounted(backends, nows);
  }

  /** What a rebuilt ring answers to h: nothing if nobody is eligible, else the backend of a nearest node. */
  ghost predicate Serves(b: Backend?, hash: HashFunction, vn: nat, backends: seq<Backend>, nows: seq<int>, h: Hash)
    requires |nows| == |backends|
    reads backends
  {
    if UpSet(backends, nows) == {} then b == null
    else exists i: nat :: NearestUp(hash, vn, backends, nows, h, i) && b == backends[i]
  }

  lemma LookupServes(ring: seq<RingEntry>, hash: HashFunction, vn: nat, backends: seq<Backend>, nows: seq<int>,
                     h: Hash)
    requires |nows| == |backends| && vn > 0
    requires IsRing(ring, hash, Urls(backends), Eligibility(States(backends), nows), vn)
    ensures ring == [] ==> Serves(null, hash, vn, backends, nows, h)
    ensures ring != [] ==> Lookup(ring, h).idx < |backends| &&
                           Serves(backends[Lookup(ring, h).idx], hash, vn, backends, nows, h)
  {
    RingIsBuilt(ring, hash, vn, backends, nows);
    SameMultiple(vn, |UpSet(backends, nows)|, 0);
    if ring != [] {
      LookupIsNearestUp(ring, hash, vn, backends, nows, h);
      assert Lookup(ring, h).idx in UpSet(backends, nows);
    }
  }

  class ConsistentHash {
    const hash: HashFunction
    const virtualNodes: nat
    var ring: seq<RingEntry>
    ghost var builtUrls: seq<string>
    ghost var builtFor: seq<bool>

    ghost predicate Valid()
      reads this
    {
      virtualNodes > 0 && IsRing(ring, hash, builtUrls, builtFor, virtualNodes)
    }

    constructor (hash: HashFunction, virtualNodes: int)
      ensures Valid() && ring == [] && builtFor == []
      ensures this.hash == hash
      ensures this.virtualNodes == if virtualNodes <= 0 then 50 else virtualNodes
    {
      this.hash := hash;
      this.virtualNodes := if virtualNodes <= 0 then 50 else virtualNodes;
      ring := [];
      builtUrls, builtFor := [], [];
    }

    /** The inner loop: the virtual nodes of one backend. */
    method AppendNodes(before: seq<RingEntry>, url: string, idx: nat) returns (entries: seq<RingEntry>)
      ensures entries == before + NodesOf(hash, url, idx, virtualNodes)
      ensures |entries| == |before| + virtualNodes
    {
      ghost var nodes := NodesOf(hash, url, idx, virtualNodes);
      entries := before;
      for v := 0 to virtualNodes
        invariant entries == before + nodes[..v]
      {
        assert nodes[..v + 1] == nodes[..v] + [nodes[v]];
        entries := entries + [RingEntry(hash(url + "#" + Itoa(v)), idx)];
      }
      assert nodes[..virtualNodes] == nodes;
    }

    /** The outer loop: the nodes of all eligible backends. */
    method Collect(backends: seq<Backend>, nows: seq<int>) returns (entries: seq<RingEntry>)
      requires |nows| == |backends|
      ensures entries == AllNodes(hash, Urls(backends), Eligibility(States(backends), nows), virtualNodes)
    {
      ghost var urls, eligible := Urls(backends), Eligibility(States(backends), nows);
      entries := [];
      for i := 0 to |backends|
        invariant entries == AllNodes(hash, urls[..i], eligible[..i], virtualNodes)
      {
        AllNodesStep(hash, urls, eligible, i, virtualNodes);
        var ok := backends[i].CheckCircuitState(nows[i]);
        if !ok {
          continue;
        }
        entries := AppendNodes(entries, backends[i].url, i);
      }
      assert urls[..|backends|] == urls && eligible[..|backends|] == eligible;
    }

    /** ... sorted. */
    method MakeRing(backends: seq<Backend>, nows: seq<int>) returns (sorted: seq<RingEntry>)
      requires |nows| == |backends|
      ensures IsRing(sorted, hash, Urls(backends), Eligibility(States(backends), nows), virtualNodes)
      ensures BuiltFrom(sorted, hash, virtualNodes, backends, nows)
    {
      var entries := Collect(backends, nows);
      sorted := SortByHash(entries);
      RingIsBuilt(sorted, hash, virtualNodes, backends, nows);
    }

    method BuildRing(backends: seq<Backend>, nows: seq<int>)
      requires virtualNodes > 0 && |nows| == |backends|
      modifies this
      ensures Valid()
      ensures builtUrls == Urls(backends) && builtFor == Eligibility(States(backends), nows)
      ensures BuiltFrom(ring, hash, virtualNodes, backends, nows)
    {
      ring := MakeRing(backends, nows);
      builtUrls, builtFor := Urls(backends), Eligibility(States(backends), nows);
    }

    /** The size heuristic: compares numbers of eligible backends, not the backends themselves. */
    method ValidateRing(backends: seq<Backend>, nows: seq<int>) returns (ok: bool)
      requires Valid() && |nows| == |backends|
      ensures ok == (Count(builtFor) == Count(Eligibility(States(backends), nows)))
      ensures ok == (|ring| == virtualNodes * |UpSet(backends, nows)|)
    {
      ghost var eligible := Eligibility(States(backends), nows);
      var expected := 0;
      for i := 0 to |backends|
        invariant expected == virtualNodes * Count(eligible[..i])
      {
        assert eligible[..i + 1][..i] == eligible[..i];
        var up := backends[i].CheckCircuitState(nows[i]);
        if up {
          assert virtualNodes * (Count(eligible[..i]) + 1) == virtualNodes * Count(eligible[..i]) + virtualNodes;
          expected := expected + virtualNodes;
        }
      }
      assert eligible[..|backends|] == eligible;
      RingSize(ring, hash, builtUrls, builtFor, virtualNodes);
      SameMultiple(virtualNodes, Count(builtFor), Count(eligible));
      UpSetIsCounted(backends, nows);
      ok := |ring| == expected;
    }

    /** The backend at the entry the constant key leads to, if there is one. */
    method FollowKey(backends: seq<Backend>, ghost nows: seq<int>) returns (b: Backend?)
      requires Valid() && |nows| == |backends|
      ensures ring == [] ==> b == null
      ensures ring != [] ==>
                var i := Lookup(ring, hash("default")).idx;
                b == if i < |backends| then backends[i] else null
      ensures builtUrls == Urls(backends) && builtFor == Eligibility(States(backends), nows) ==>
                Serves(b, hash, virtualNodes, backends, nows, hash("default"))
    {
      if builtUrls == Urls(backends) && builtFor == Eligibility(States(backends), nows) {
        LookupServes(ring, hash, virtualNodes, backends, nows, hash("default"));
      }
      if |ring| == 0 {
        return null;
      }
      var idx := Search(ring, hash("default"));
      if idx == |ring| {
        idx := 0;
      }
      var beIdx := ring[idx].idx;
      if beIdx < 0 || beIdx >= |backends| {
        return null;
      }
      return backends[beIdx];
    }

    /** Rebuilds the ring if it is empty or has the wrong size. */
    method Refresh(backends: seq<Backend>, validateAt: seq<int>, buildAt: seq<int>)
      requires Valid() && |validateAt| == |buildAt| == |backends|
      modifies this
      ensures Valid()
      ensures var look := Look(Eligibility(States(backends), validateAt), Eligibility(States(backends), buildAt));
              builtFor == CacheStep(old(builtFor), look)
      ensures (0 < Count(old(builtFor)) == Count(Eligibility(States(backends), validateAt)))
              <==> 0 < |old(ring)| == virtualNodes * |UpSet(backends, validateAt)|
      ensures if 0 < |old(ring)| == virtualNodes * |UpSet(backends, validateAt)|
              then ring == old(ring) && builtUrls == old(builtUrls)
              else && builtUrls == Urls(backends) && builtFor == Eligibility(States(backends), buildAt)
                   && |ring| == virtualNodes * |UpSet(backends, buildAt)|
    {
      RingSize(ring, hash, builtUrls, builtFor, virtualNodes);
      CountZero(builtFor);
      UpSetIsCounted(backends, validateAt);
      SameMultiple(virtualNodes, Count(builtFor), Count(Eligibility(States(backends), validateAt)));
      var rebuild := |ring| == 0;
      if !rebuild {
        var ok := ValidateRing(backends, validateAt);
        rebuild := !ok;
      }
      if rebuild {
        BuildRing(backends, buildAt);
      }
    }

    method NextBackend(backends: seq<Backend>, validateAt: seq<int>, buildAt: seq<int>) returns (b: Backend?)
      requires Valid() && |validateAt| == |buildAt| == |backends|
      modifies this
      ensures Valid()
      ensures backends == [] ==>
                b == null && builtFor == old(builtFor) && builtUrls == old(builtUrls) && ring == old(ring)
      ensures backends != [] ==>
                var look := Look(Eligibility(States(backends), validateAt), Eligibility(States(backends), buildAt));
                && builtFor == CacheStep(old(builtFor), look)
                && (if ring == [] then b == null
                    else var i := Lookup(ring, hash("default")).idx;
                         b == if i < |backends| then backends[i] else null)
      ensures backends != [] ==>
                if 0 < |old(ring)| == virtualNodes * |UpSet(backends, validateAt)|
                then ring == old(ring) && builtUrls == old(builtUrls)
                else && builtUrls == Urls(backends) && |ring| == virtualNodes * |UpSet(backends, buildAt)|
                     && Serves(b, hash, virtualNodes, backends, buildAt, hash("default"))
      ensures backends != [] ==>
                (0 < Count(old(builtFor)) == Count(Eligibility(States(backends), validateAt))
                 <==> 0 < |old(ring)| == virtualNodes * |UpSet(backends, validateAt)|)
    {
      if |backends| == 0 {
        return null;
      }
      Refresh(backends, validateAt, buildAt);
      b := FollowKey(backends, buildAt);
    }
  }

  lemma SameMultiple(vn: nat, a: nat, b: nat)
    requires vn > 0
    ensures vn * a == vn * b <==> a == b
  {
    if a < b {
      assert vn * b == vn * a + vn * (b - a);
    } else if b < a {
      assert vn * a == vn * b + vn * (a - b);
    }
  }

  // ---- The cache over whole runs, on a fixed slice of backends ----

  /** What the cached ring stands for after a run of calls that took these looks, oldest first. */
  function CacheAfter(built: seq<bool>, looks: seq<Look>): seq<bool> {
    if looks == [] then built
    else CacheStep(CacheAfter(built, looks[..|looks| - 1]), looks[|looks| - 1])
  }

  /** At the end of every call of the run the cached ring is the one a rebuild would have produced. */
  predicate AlwaysFresh(looks: seq<Look>) {
    looks == [] || (AlwaysFresh(looks[..|looks| - 1]) && CacheAfter([], looks) == looks[|looks| - 1].found)
  }

  /** Call k sees as many eligible backends as there were at the call before, but they are others. */
  predicate SwapAt(looks: seq<Look>, k: nat) {
    && 0 < k < |looks|
    && 0 < Count(looks[k - 1].found) == Count(looks[k].seen)
    && looks[k - 1].found != looks[k].found
  }

  predicate Subset(a: seq<bool>, b: seq<bool>) {
    |a| == |b| && forall i :: 0 <= i < |a| && a[i] ==> b[i]
  }

  lemma {:induction false} CountMonotone(a: seq<bool>, b: seq<bool>)
    requires Subset(a, b)
    ensures Count(a) <= Count(b)
    ensures Count(a) == Count(b) ==> a == b
  {
    if a != [] {
      var n := |a| - 1;
      CountMonotone(a[..n], b[..n]);
      assert a == a[..n] + [a[n]] && b == b[..n] + [b[n]];
    }
  }

  /** The cache is right at every call of a run if and only if no call of it sees a swap. */
  lemma {:induction false} FreshIffNoSwap(looks: seq<Look>)
    ensures AlwaysFresh(looks) <==> forall k :: 0 < k < |looks| ==> !SwapAt(looks, k)
  {
    if looks != [] {
      var n := |looks| - 1;
      var init := looks[..n];
      FreshIffNoSwap(init);
      assert forall k :: 0 < k < n ==> (SwapAt(init, k) <==> SwapAt(looks, k));
      assert n > 0 && AlwaysFresh(init) ==> (CacheAfter([], looks) == looks[n].found <==> !SwapAt(looks, n));
    }
  }

  /** Validation and rebuild see the same: the call is over before any eligibility changes. */
  predicate OneInstant(looks: seq<Look>) {
    forall k :: 0 <= k < |looks| ==> looks[k].seen == looks[k].found
  }

  /** So it is right throughout whenever, between successive calls, the eligible set only grows or
      only shrinks; in particular when one backend changes at a time. */
  lemma MonotoneChangesStayFresh(looks: seq<Look>)
    requires OneInstant(looks)
    requires forall k :: 0 < k < |looks| ==>
               Subset(looks[k - 1].found, looks[k].found) || Subset(looks[k].found, looks[k - 1].found)
    ensures AlwaysFresh(looks)
  {
    forall k | 0 < k < |looks|
      ensures !SwapAt(looks, k)
    {
      if Subset(looks[k - 1].found, looks[k].found) {
        CountMonotone(looks[k - 1].found, looks[k].found);
      } else {
        CountMonotone(looks[k].found, looks[k - 1].found);
      }
    }
    FreshIffNoSwap(looks);
  }

  /** With one look per call the heuristic keeps the cardinality right, whatever else it gets wrong. */
  lemma CacheCountsRight(looks: seq<Look>)
    requires looks != [] && OneInstant(looks)
    ensures Count(CacheAfter([], looks)) == Count(looks[|looks| - 1].found)
  {
  }

  // ---- What the cache means for the answers ----

  /** Some sorted arrangement of the entries exists. */
  lemma {:induction false} SortExists(s: seq<RingEntry>) returns (r: seq<RingEntry>)
    ensures Sorted(r) && multiset(r) == multiset(s)
  {
    if s == [] {
      r := [];
    } else {
      var n := |s| - 1;
      var init := SortExists(s[..n]);
      var p := FirstAtLeast(init, s[n].hash);
      InsertKeepsSorted(init, s[n], p);
      assert s == s[..n] + [s[n]];
      r := init[..p] + [s[n]] + init[p..];
    }
  }

  lemma RingExists(hash: HashFunction, urls: seq<string>, eligible: seq<bool>, vn: nat) returns (r: seq<RingEntry>)
    requires |urls| == |eligible|
    ensures IsRing(r, hash, urls, eligible, vn)
  {
    r := SortExists(AllNodes(hash, urls, eligible, vn));
  }

  /** A hash function without collisions on the nodes of this slice of distinct URLs. */
  ghost predicate Spread(hash: HashFunction, urls: seq<string>, vn: nat) {
    Distinct(urls) && CollisionFree(hash, (set u | u in urls), vn)
  }

  lemma SpreadOnEligible(hash: HashFunction, urls: seq<string>, eligible: seq<bool>, vn: nat)
    requires Spread(hash, urls, vn) && |urls| == |eligible|
    ensures CollisionFree(hash, EligibleUrls(urls, eligible), vn)
  {
    assert forall u :: u in EligibleUrls(urls, eligible) ==> u in urls;
  }

  /** A key that hashes onto a node of an eligible backend belongs to that backend. */
  lemma NodeLeadsHome(ring: seq<RingEntry>, hash: HashFunction, urls: seq<string>, eligible: seq<bool>, vn: nat, i: nat)
    requires IsRing(ring, hash, urls, eligible, vn) && vn > 0 && Spread(hash, urls, vn)
    requires i < |urls| && eligible[i]
    ensures ring != [] && Lookup(ring, NodeHash(hash, urls[i], 0)).idx == i
  {
    var h := NodeHash(hash, urls[i], 0);
    var e := RingEntry(h, i);
    assert IsNode(e, 0, hash, urls, eligible, vn);
    RingMembers(ring, hash, urls, eligible, vn, e);
    LookupIsNearestEntry(ring, h);
    DistanceCases(h, h);
    DistanceCases(h, Lookup(ring, h).hash);
    DistanceInjective(h, Lookup(ring, h).hash, h);
    SpreadOnEligible(hash, urls, eligible, vn);
    HashIdentifiesEntry(ring, hash, urls, eligible, vn, Lookup(ring, h), e);
  }

  /** The two rings answer every key alike. */
  ghost predicate SameAnswers(cached: seq<RingEntry>, rebuilt: seq<RingEntry>) {
    && (cached == [] <==> rebuilt == [])
    && (cached != [] ==> forall h: Hash :: Lookup(cached, h).idx == Lookup(rebuilt, h).idx)
  }

  /** For some key the ring answers with a backend that is not eligible. */
  ghost predicate NamesIneligible(ring: seq<RingEntry>, eligible: seq<bool>) {
    ring != [] && exists h: Hash :: Lookup(ring, h).idx < |eligible| && !eligible[Lookup(ring, h).idx]
  }

  /** Some key shows the difference between two rings as soon as one backend is in the first only. */
  lemma ExtraBackendShows(hash: HashFunction, vn: nat, urls: seq<string>, more: seq<bool>, fewer: seq<bool>,
                          ring: seq<RingEntry>, ring': seq<RingEntry>, i: nat)
    requires vn > 0 && Spread(hash, urls, vn)
    requires IsRing(ring, hash, urls, more, vn) && IsRing(ring', hash, urls, fewer, vn)
    requires i < |urls| && more[i] && !fewer[i]
    ensures !SameAnswers(ring, ring') && !SameAnswers(ring', ring)
  {
    var h := NodeHash(hash, urls[i], 0);
    NodeLeadsHome(ring, hash, urls, more, vn, i);
    if ring' != [] {
      LookupFindsOwner(ring', hash, urls, fewer, vn, h);
    }
  }

  /** Two rings over one slice answer alike if and only if they were built for the same backends. */
  lemma SameAnswersIff(hash: HashFunction, vn: nat, urls: seq<string>, built: seq<bool>, found: seq<bool>,
                       cached: seq<RingEntry>, rebuilt: seq<RingEntry>)
    requires vn > 0 && Spread(hash, urls, vn)
    requires IsRing(cached, hash, urls, built, vn) && IsRing(rebuilt, hash, urls, found, vn)
    ensures SameAnswers(cached, rebuilt) <==> built == found
  {
    if built == found {
      RingSize(cached, hash, urls, built, vn);
      RingSize(rebuilt, hash, urls, built, vn);
      SpreadOnEligible(hash, urls, built, vn);
      forall h: Hash | cached != []
        ensures Lookup(cached, h).idx == Lookup(rebuilt, h).idx
      {
        AnswerIsDetermined(hash, vn, h, urls, built, cached, rebuilt);
      }
    } else {
      var i: nat :| i < |urls| && built[i] != found[i];
      if built[i] {
        ExtraBackendShows(hash, vn, urls, built, found, cached, rebuilt, i);
      } else {
        ExtraBackendShows(hash, vn, urls, found, built, rebuilt, cached, i);
      }
    }
  }

  /** A ring built for `built` names an ineligible backend for some key if and only if one of the
      backends it was built for is no longer eligible. */
  lemma NamesIneligibleIff(hash: HashFunction, vn: nat, urls: seq<string>, built: seq<bool>, found: seq<bool>,
                           cached: seq<RingEntry>)
    requires vn > 0 && Spread(hash, urls, vn)
    requires IsRing(cached, hash, urls, built, vn) && |found| == |urls|
    ensures NamesIneligible(cached, found) <==> !Subset(built, found)
  {
    if Subset(built, found) {
      forall h: Hash | cached != []
        ensures Lookup(cached, h).idx < |found| && found[Lookup(cached, h).idx]
      {
        LookupFindsOwner(cached, hash, urls, built, vn, h);
      }
    } else {
      var i: nat :| i < |urls| && built[i] && !found[i];
      NodeLeadsHome(cached, hash, urls, built, vn, i);
    }
  }

  /** The backends of either of two eligible sets. */
  function Either(a: seq<bool>, b: seq<bool>): (e: seq<bool>)
    requires |a| == |b|
    ensures |e| == |a|
  {
    seq(|a|, i requires 0 <= i < |a| => a[i] || b[i])
  }

  /** Leaving out some of the backends moves the keys of those left out, and no others. */
  lemma OwnerStaysIff(hash: HashFunction, vn: nat, h: Hash, urls: seq<string>, all: seq<bool>, some: seq<bool>,
                      full: seq<RingEntry>, ring: seq<RingEntry>)
    requires Spread(hash, urls, vn) && Subset(some, all) && full != [] && ring != []
    requires IsRing(full, hash, urls, all, vn) && IsRing(ring, hash, urls, some, vn)
    ensures Lookup(full, h).idx < |urls|
    ensures Lookup(ring, h).idx == Lookup(full, h).idx <==> some[Lookup(full, h).idx]
  {
    LookupFindsOwner(full, hash, urls, all, vn, h);
    LookupFindsOwner(ring, hash, urls, some, vn, h);
    SpreadOnEligible(hash, urls, all, vn);
    var o, more, fewer := Lookup(full, h).idx, EligibleUrls(urls, all), EligibleUrls(urls, some);
    assert fewer == more - (more - fewer);
    MinimalDisruption(hash, vn, h, more - fewer, full, urls, all, ring, urls, some);
    assert urls[o] in more && (urls[o] in fewer <==> some[o]);
  }

  /** One key: two rings answer it alike if and only if its owner among the backends of either set
      belongs to both. */
  lemma KeyAgreesIff(hash: HashFunction, vn: nat, h: Hash, urls: seq<string>, built: seq<bool>, found: seq<bool>,
                     cached: seq<RingEntry>, rebuilt: seq<RingEntry>, both: seq<RingEntry>)
    requires vn > 0 && Spread(hash, urls, vn) && cached != [] && rebuilt != []
    requires IsRing(cached, hash, urls, built, vn) && IsRing(rebuilt, hash, urls, found, vn)
    requires IsRing(both, hash, urls, Either(built, found), vn)
    ensures both != [] && Lookup(both, h).idx < |urls|
    ensures Lookup(cached, h).idx == Lookup(rebuilt, h).idx
            <==> built[Lookup(both, h).idx] && found[Lookup(both, h).idx]
  {
    var all := Either(built, found);
    LookupFindsOwner(cached, hash, urls, built, vn, h);
    assert all[Lookup(cached, h).idx];
    RingSize(both, hash, urls, all, vn);
    OwnerStaysIff(hash, vn, h, urls, all, built, both, cached);
    OwnerStaysIff(hash, vn, h, urls, all, found, both, rebuilt);
    LookupFindsOwner(both, hash, urls, all, vn, h);
  }

  // ---- ... over whole runs ----

  /** The looks are at a slice of n backends. */
  predicate ForSlice(looks: seq<Look>, n: nat) {
    forall k :: 0 <= k < |looks| ==> |looks[k].seen| == n && |looks[k].found| == n
  }

  /** What the cached ring stands for at the end of call number k. */
  function CacheAt(looks: seq<Look>, k: nat): seq<bool>
    requires k < |looks|
  {
    CacheAfter([], looks[..k + 1])
  }

  lemma {:induction false} CacheFitsSlice(looks: seq<Look>, n: nat)
    requires looks != [] && ForSlice(looks, n)
    ensures |CacheAfter([], looks)| == n
  {
    var init := looks[..|looks| - 1];
    if init != [] { CacheFitsSlice(init, n); }
  }

  lemma {:induction false} FreshAtEveryCall(looks: seq<Look>)
    ensures AlwaysFresh(looks) <==> forall k :: 0 <= k < |looks| ==> CacheAt(looks, k) == looks[k].found
  {
    if looks != [] {
      var n := |looks| - 1;
      FreshAtEveryCall(looks[..n]);
      forall k | 0 <= k < n
        ensures CacheAt(looks[..n], k) == CacheAt(looks, k)
      {
        assert looks[..n][..k + 1] == looks[..k + 1];
      }
      assert looks[..n + 1] == looks;
    }
  }

  /** At call k the cached ring gives every key the answer a ring rebuilt at that call would give. */
  ghost predicate AgreesAt(hash: HashFunction, vn: nat, urls: seq<string>, looks: seq<Look>, k: nat)
    requires k < |looks|
  {
    forall cached, rebuilt ::
      IsRing(cached, hash, urls, CacheAt(looks, k), vn) && IsRing(rebuilt, hash, urls, looks[k].found, vn) ==>
        SameAnswers(cached, rebuilt)
  }

  /** At call k the cached ring names eligible backends only. */
  ghost predicate SafeAt(hash: HashFunction, vn: nat, urls: seq<string>, looks: seq<Look>, k: nat)
    requires k < |looks|
  {
    forall cached ::
      IsRing(cached, hash, urls, CacheAt(looks, k), vn) ==> !NamesIneligible(cached, looks[k].found)
  }

  lemma AgreesIffFresh(hash: HashFunction, vn: nat, urls: seq<string>, looks: seq<Look>, k: nat)
    requires vn > 0 && Spread(hash, urls, vn) && ForSlice(looks, |urls|) && k < |looks|
    ensures AgreesAt(hash, vn, urls, looks, k) <==> CacheAt(looks, k) == looks[k].found
  {
    var built, found := CacheAt(looks, k), looks[k].found;
    CacheFitsSlice(looks[..k + 1], |urls|);
    var cached := RingExists(hash, urls, built, vn);
    var rebuilt := RingExists(hash, urls, found, vn);
    SameAnswersIff(hash, vn, urls, built, found, cached, rebuilt);
    forall c, r | IsRing(c, hash, urls, built, vn) && IsRing(r, hash, urls, found, vn)
      ensures SameAnswers(c, r) <==> built == found
    {
      SameAnswersIff(hash, vn, urls, built, found, c, r);
    }
  }

  lemma SafeIffFresh(hash: HashFunction, vn: nat, urls: seq<string>, looks: seq<Look>, k: nat)
    requires vn > 0 && Spread(hash, urls, vn) && ForSlice(looks, |urls|) && OneInstant(looks) && k < |looks|
    ensures SafeAt(hash, vn, urls, looks, k) <==> CacheAt(looks, k) == looks[k].found
  {
    var built, found := CacheAt(looks, k), looks[k].found;
    CacheFitsSlice(looks[..k + 1], |urls|);
    CacheCountsRight(looks[..k + 1]);
    if Subset(built, found) { CountMonotone(built, found); }
    var cached := RingExists(hash, urls, built, vn);
    NamesIneligibleIff(hash, vn, urls, built, found, cached);
    forall c | IsRing(c, hash, urls, built, vn)
      ensures NamesIneligible(c, found) <==> built != found
    {
      NamesIneligibleIff(hash, vn, urls, built, found, c);
    }
  }

  /** For distinct URLs whose nodes do not collide: the cached ring answers every key at every call of
      a run as a ring rebuilt at that call would, if and only if no call of the run sees a swap. */
  lemma AnswersAgreeIffNoSwap(hash: HashFunction, vn: nat, urls: seq<string>, looks: seq<Look>)
    requires vn > 0 && Spread(hash, urls, vn) && ForSlice(looks, |urls|)
    ensures (forall k :: 0 <= k < |looks| ==> AgreesAt(hash, vn, urls, looks, k))
            <==> forall k :: 0 < k < |looks| ==> !SwapAt(looks, k)
  {
    forall k | 0 <= k < |looks|
      ensures AgreesAt(hash, vn, urls, looks, k) <==> CacheAt(looks, k) == looks[k].found
    {
      AgreesIffFresh(hash, vn, urls, looks, k);
    }
    FreshAtEveryCall(looks);
    FreshIffNoSwap(looks);
  }

  /** And when every call has one look, a swap is not merely a difference: the ring names eligible
      backends only, for every key at every call, if and only if no call sees a swap. */
  lemma SafeIffNoSwap(hash: HashFunction, vn: nat, urls: seq<string>, looks: seq<Look>)
    requires vn > 0 && Spread(hash, urls, vn) && ForSlice(looks, |urls|) && OneInstant(looks)
    ensures (forall k :: 0 <= k < |looks| ==> SafeAt(hash, vn, urls, looks, k))
            <==> forall k :: 0 < k < |looks| ==> !SwapAt(looks, k)
  {
    forall k | 0 <= k < |looks|
      ensures SafeAt(hash, vn, urls, looks, k) <==> CacheAt(looks, k) == looks[k].found
    {
      SafeIffFresh(hash, vn, urls, looks, k);
    }
    FreshAtEveryCall(looks);
    FreshIffNoSwap(looks);
  }

  /** Where the cache is right, the answers agree as soon as the nodes of the eligible backends do not
      collide. */
  lemma CachedAnswersAgree(hash: HashFunction, vn: nat, h: Hash, urls: seq<string>, looks: seq<Look>,
                           cached: seq<RingEntry>, rebuilt: seq<RingEntry>)
    requires vn > 0 && looks != [] && AlwaysFresh(looks) && Distinct(urls)
    requires IsRing(cached, hash, urls, CacheAfter([], looks), vn)
    requires IsRing(rebuilt, hash, urls, looks[|looks| - 1].found, vn)
    requires CollisionFree(hash, EligibleUrls(urls, looks[|looks| - 1].found), vn)
    ensures cached == [] <==> rebuilt == []
    ensures cached != [] ==> Lookup(cached, h).idx == Lookup(rebuilt, h).idx
  {
    var eligible := looks[|looks| - 1].found;
    RingSize(cached, hash, urls, eligible, vn);
    RingSize(rebuilt, hash, urls, eligible, vn);
    if cached != [] {
      AnswerIsDetermined(hash, vn, h, urls, eligible, cached, rebuilt);
    }
  }

  /** A swap can be total: whatever the hash function and the key, collisions included, the stale ring
      names the backend that went down.  First only backend 0 is up, then only backend 1. */
  lemma StaleRingNamesDeadBackend(hash: HashFunction, vn: nat, h: Hash, urls: seq<string>,
                                  cached: seq<RingEntry>, rebuilt: seq<RingEntry>)
    requires vn > 0 && |urls| == 2
    requires var up0, up1 := [true, false], [false, true];
             IsRing(cached, hash, urls, CacheAfter([], [Look(up0, up0), Look(up1, up1)]), vn)
    requires IsRing(rebuilt, hash, urls, [false, true], vn)
    ensures cached != [] && Lookup(cached, h).idx == 0
    ensures rebuilt != [] && Lookup(rebuilt, h).idx == 1
  {
    var up0, up1 := [true, false], [false, true];
    var looks := [Look(up0, up0), Look(up1, up1)];
    assert looks[..1] == [Look(up0, up0)];
    assert Count(up0) == 1 && Count(up1) == 1 by {
      assert up0[..1] == [true] && up1[..1] == [false];
    }
    assert CacheAfter([], looks[..1]) == up0;
    assert CacheAfter([], looks) == up0;
    assert up0[0] && up1[1];
    RingSize(cached, hash, urls, up0, vn);
    RingSize(rebuilt, hash, urls, up1, vn);
    LookupFindsOwner(cached, hash, urls, up0, vn, h);
    LookupFindsOwner(rebuilt, hash, urls, up1, vn, h);
  }
}
