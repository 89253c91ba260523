/**
  The retry loop (server/http_server.go), one client request at a time.

  The strategy is an arbitrary oracle: attempt number k gets whatever backend the script says, or
  none.  So every result holds for every strategy, including a stale consistent-hash ring.
 */
module Serving {
  import opened Options
  import opened Backends
  import opened Proxying

  const MAX_RETRIES := 2

  /** What NextBackend answers (an index into the slice), and what the proxied call then meets. */
  datatype Attempt = Attempt(pick: Option<nat>, call: Call)

  predicate Retryable(code: int) {
    code == BAD_GATEWAY || code == SERVICE_UNAVAILABLE || code == GATEWAY_TIMEOUT
  }

  predicate RetryableMethod(verb: string) {
    verb == "GET" || verb == "HEAD" || verb == "OPTIONS"
  }

  /** The attempts that this method is given. */
  function Allowance(verb: string): nat {
    if RetryableMethod(verb) then MAX_RETRIES + 1 else 1
  }

  /** The picks are indices into a slice of `n` backends. */
  predicate WithinSlice(attempts: seq<Attempt>, n: nat) {
    forall k :: 0 <= k < |attempts| && attempts[k].pick.Some? ==> attempts[k].pick.value < n
  }

  /** The states afterwards, the status each proxied attempt recorded, the status the server finally
      settles on, and how often the strategy was asked. */
  datatype Outcome = Outcome(states: seq<BackendState>, statuses: seq<int>, reply: int, selections: nat)

  /** The loop with `attempts` left to make; `last` is the status of the attempt before.  No two
      positions of `states` belong to one backend: see `Canonical`. */
  function Retry(states: seq<BackendState>, attempts: seq<Attempt>, last: int): (o: Outcome)
    requires WithinSlice(attempts, |states|)
    ensures |o.states| == |states|
    decreases |attempts|
  {
    if attempts == [] then Outcome(states, [], last, 0)
    else match attempts[0].pick
      case None => Outcome(states, [], SERVICE_UNAVAILABLE, 1)
      case Some(i) =>
        var status := CallStatus(states[i], attempts[0].call);
        var states' := states[i := AfterCall(states[i], attempts[0].call)];
        if Retryable(status) then
          var rest := Retry(states', attempts[1..], status);
          Outcome(rest.states, [status] + rest.statuses, rest.reply, rest.selections + 1)
        else Outcome(states', [status], status, 1)
  }

  /** What reaches the client: the first status written. */
  function Seen(o: Outcome): int {
    if o.statuses == [] then o.reply else o.statuses[0]
  }

  // ---- A slice may hold one backend twice ----

  /** The first position of the element at position i. */
  function First<T(==)>(s: seq<T>, i: nat): (k: nat)
    requires i < |s|
    ensures k <= i && s[k] == s[i] && forall j :: 0 <= j < k ==> s[j] != s[i]
  {
    if s[0] == s[i] then 0 else 1 + First(s[1..], i - 1)
  }

  lemma FirstIdentifies<T>(s: seq<T>, i: nat, j: nat)
    requires i < |s| && j < |s|
    ensures First(s, i) == First(s, j) <==> s[i] == s[j]
  {
  }

  /** The same attempts, every pick by the first position of its backend. */
  function Canonical<T(==)>(s: seq<T>, attempts: seq<Attempt>): (r: seq<Attempt>)
    requires WithinSlice(attempts, |s|)
    ensures |r| == |attempts| && WithinSlice(r, |s|)
  {
    seq(|attempts|, k requires 0 <= k < |attempts| =>
      var pick := attempts[k].pick;
      attempts[k].(pick := if pick.Some? then Some(First(s, pick.value)) else None))
  }

  /** Position by position the slice is in states `now`, every backend in the state that `cells` gives
      for its first position. */
  predicate Fits<T(==)>(s: seq<T>, now: seq<BackendState>, cells: seq<BackendState>) {
    |s| == |now| == |cells| && forall j :: 0 <= j < |s| ==> now[j] == cells[First(s, j)]
  }

  /** One attempt on the backend at position i, wherever else in the slice that may be. */
  function Called<T(==)>(s: seq<T>, now: seq<BackendState>, i: nat, c: Call): (r: seq<BackendState>)
    requires i < |s| == |now|
    ensures |r| == |s|
  {
    seq(|s|, j requires 0 <= j < |s| => if s[j] == s[i] then AfterCall(now[j], c) else now[j])
  }

  function CallCell<T(==)>(s: seq<T>, cells: seq<BackendState>, i: nat, c: Call): seq<BackendState>
    requires i < |s| == |cells|
  {
    cells[First(s, i) := AfterCall(cells[First(s, i)], c)]
  }

  lemma CalledFits<T>(s: seq<T>, now: seq<BackendState>, cells: seq<BackendState>, i: nat, c: Call)
    requires i < |s| && Fits(s, now, cells)
    ensures Fits(s, Called(s, now, i, c), CallCell(s, cells, i, c))
  {
    forall j | 0 <= j < |s|
      ensures Called(s, now, i, c)[j] == CallCell(s, cells, i, c)[First(s, j)]
    {
      FirstIdentifies(s, i, j);
    }
  }

  /** Where no backend occurs twice there is nothing to rename. */
  lemma FitsWhenSeparate(backends: seq<Backend>, attempts: seq<Attempt>)
    requires Separate(backends) && WithinSlice(attempts, |backends|)
    ensures Canonical(backends, attempts) == attempts
    ensures forall now, cells :: Fits(backends, now, cells) ==> now == cells
  {
    assert forall i :: 0 <= i < |backends| ==> First(backends, i) == i;
  }

  class Server {
    const backends: seq<Backend>

    constructor (backends: seq<Backend>)
      ensures this.backends == backends
    {
      this.backends := backends;
    }

    /** A server needs at least one backend. */
    static method NewServer(backends: seq<Backend>) returns (s: Option<Server>)
      ensures s.None? <==> backends == []
      ensures s.Some? ==> fresh(s.value) && s.value.backends == backends
    {
      if |backends| == 0 {
        return None;
      }
      var server := new Server(backends);
      return Some(server);
    }

    /** NewProxy and its ServeHTTP: one attempt on backend `i`. */
    method Try(w: Writer, i: nat, c: Call)
      requires i < |backends|
      modifies w.Footprint(), backends[i], backends[i].proxy
      ensures States(backends) == Called(backends, old(States(backends)), i, c)
      ensures backends[i].State() == AfterCall(old(backends[i].State()), c)
      ensures Wrote(w, CallStatus(old(States(backends))[i], c))
    {
      var p := new Proxy(backends[i]);
      p.ServeHTTP(w, c);
    }

    /** One pass of the retry loop: `last` is the status recorded if another one is due. */
    method Pass(w: ClientWriter, a: Attempt) returns (last: Option<int>)
      requires a.pick.Some? ==> a.pick.value < |backends|
      modifies w, backends, set b | b in backends :: b.proxy
      ensures a.pick.None? ==>
                && last == None && States(backends) == old(States(backends))
                && w.status == if old(w.status) == 0 then SERVICE_UNAVAILABLE else old(w.status)
      ensures a.pick.Some? ==>
                var i := a.pick.value;
                var status := CallStatus(old(States(backends))[i], a.call);
                && last == (if Retryable(status) then Some(status) else None)
                && States(backends) == Called(backends, old(States(backends)), i, a.call)
                && w.status == if old(w.status) == 0 then status else old(w.status)
    {
      match a.pick {
        case None =>
          w.WriteHeader(SERVICE_UNAVAILABLE);
          return None;
        case Some(i) =>
          var rec := new ResponseRecorder(w);
          Try(Recorded(rec), i, a.call);
          if !Retryable(rec.status) {
            if rec.status != 0 {
              w.WriteHeader(rec.status);
            }
            return None;
          }
          return Some(rec.status);
      }
    }

    /** The branch for methods that are not retried. */
    method ServeOnce(w: ClientWriter, a: Attempt)
      requires w.status == 0 && WithinSlice([a], |backends|)
      modifies w, backends, set b | b in backends :: b.proxy
      ensures var o := Retry(old(States(backends)), Canonical(backends, [a]), 0);
              Fits(backends, States(backends), o.states) && o.selections == 1 && w.status == Seen(o)
      ensures forall b :: b in backends && (a.pick.Some? ==> b != backends[a.pick.value]) ==>
                b.State() == old(b.State())
    {
      ghost var now := States(backends);
      SingleAttempt(now, Canonical(backends, [a]));
      assert [a][0] == a;
      match a.pick {
        case None =>
          w.WriteHeader(SERVICE_UNAVAILABLE);
          assert States(backends) == now;
        case Some(i) =>
          CalledFits(backends, now, now, i, a.call);
          Try(Direct(w), i, a.call);
      }
    }

    /** The branch for the others. */
    method ServeRetrying(w: ClientWriter, attempts: seq<Attempt>) returns (selections: nat)
      requires w.status == 0
      requires |attempts| == MAX_RETRIES + 1 && WithinSlice(attempts, |backends|)
      modifies w, backends, set b | b in backends :: b.proxy
      ensures var o := Retry(old(States(backends)), Canonical(backends, attempts), 0);
              && Fits(backends, States(backends), o.states)
              && selections == o.selections
              && w.status == Seen(o)
    {
      ghost var script, now, cells := Canonical(backends, attempts), States(backends), States(backends);
      ghost var o := Retry(cells, script, 0);
      selections := 0;
      var lastStatus := 0;
      assert script[0..] == script;
      for attempt := 0 to MAX_RETRIES + 1
        invariant selections == attempt
        invariant States(backends) == now && Fits(backends, now, cells)
        invariant Midway(o, script, cells, attempt, lastStatus, w.status)
      {
        PassStep(o, backends, attempts, now, cells, attempt, lastStatus, w.status);
        selections := selections + 1;
        var last := Pass(w, attempts[attempt]);
        now, cells := States(backends), CellsAfter(backends, cells, attempts[attempt]);
        if last.None? {
          return;
        }
        lastStatus := last.value;
      }
      w.WriteHeader(lastStatus);
      assert States(backends) == now;
    }

    /** Serves one request; `attempts` says what each of up to three attempts would meet, `selections` counts
        the calls of NextBackend. */
    method ServeHTTP(w: ClientWriter, verb: string, attempts: seq<Attempt>) returns (selections: nat)
      requires w.status == 0
      requires |attempts| == 3 && WithinSlice(attempts, |backends|)
      modifies w, backends, set b | b in backends :: b.proxy
      ensures var o := Retry(old(States(backends)), Canonical(backends, attempts[..Allowance(verb)]), 0);
              && Fits(backends, States(backends), o.states)
              && selections == o.selections
              && w.status == Seen(o)
      ensures Separate(backends) ==>
                var o := Retry(old(States(backends)), attempts[..Allowance(verb)], 0);
                States(backends) == o.states && selections == o.selections && w.status == Seen(o)
      ensures verb != "GET" && verb != "HEAD" && verb != "OPTIONS" ==>
                && selections == 1
                && forall b :: b in backends && (attempts[0].pick.Some? ==> b != backends[attempts[0].pick.value]) ==>
                     b.State() == old(b.State())
      ensures w.status == if attempts[0].pick.None? then 503
                          else CallStatus(old(backends[attempts[0].pick.value].State()), attempts[0].call)
    {
      ghost var given := attempts[..Allowance(verb)];
      if Separate(backends) {
        FitsWhenSeparate(backends, given);
      }
      FirstStatusIsSeen(States(backends), Canonical(backends, given));
      if !RetryableMethod(verb) {
        assert given == [attempts[0]];
        ServeOnce(w, attempts[0]);
        return 1;
      }
      assert given == attempts;
      selections := ServeRetrying(w, attempts);
    }
  }

  /** What remains of the loop: `k` selections made, `sent` the status the client already has. */
  predicate Midway(o: Outcome, script: seq<Attempt>, cells: seq<BackendState>, k: nat, last: int, sent: int)
    requires WithinSlice(script, |cells|)
  {
    && k <= |script|
    && Continues(o, Retry(cells, script[k..], last), k)
    && (if k == 0 then sent == 0 && o == Retry(cells, script, last)
        else o.statuses != [] && sent == o.statuses[0] && sent != 0)
  }

  /** After `made` selections, `rest` is what remains of `o`. */
  predicate Continues(o: Outcome, rest: Outcome, made: nat) {
    o.states == rest.states && o.reply == rest.reply && o.selections == made + rest.selections
  }

  lemma MidwayStep(o: Outcome, script: seq<Attempt>, cells: seq<BackendState>, k: nat, last: int, sent: int)
    requires WithinSlice(script, |cells|) && k < |script| && Midway(o, script, cells, k, last, sent)
    ensures script[k].pick.None? ==>
              && o.states == cells && o.selections == k + 1
              && Seen(o) == if sent == 0 then SERVICE_UNAVAILABLE else sent
    ensures script[k].pick.Some? ==>
              var i, c := script[k].pick.value, script[k].call;
              var status, next := CallStatus(cells[i], c), cells[i := AfterCall(cells[i], c)];
              var sent' := if sent == 0 then status else sent;
              if Retryable(status) then Midway(o, script, next, k + 1, status, sent')
              else o.states == next && o.selections == k + 1 && Seen(o) == sent'
  {
    assert script[k..][1..] == script[k + 1..];
  }

  function CellsAfter<T(==)>(s: seq<T>, cells: seq<BackendState>, a: Attempt): (r: seq<BackendState>)
    requires |s| == |cells| && (a.pick.Some? ==> a.pick.value < |s|)
    ensures |r| == |s|
  {
    if a.pick.None? then cells else CallCell(s, cells, a.pick.value, a.call)
  }

  /** One pass of the loop on the slice as it is. */
  lemma PassStep<T>(o: Outcome, s: seq<T>, attempts: seq<Attempt>, now: seq<BackendState>, cells: seq<BackendState>,
                    k: nat, last: int, sent: int)
    requires k < |attempts| && WithinSlice(attempts, |s|) && Fits(s, now, cells)
    requires Midway(o, Canonical(s, attempts), cells, k, last, sent)
    ensures var a := attempts[k];
            var status := if a.pick.None? then SERVICE_UNAVAILABLE else CallStatus(now[a.pick.value], a.call);
            var next, sent' := CellsAfter(s, cells, a), if sent == 0 then status else sent;
            && Fits(s, if a.pick.None? then now else Called(s, now, a.pick.value, a.call), next)
            && (if a.pick.Some? && Retryable(status) then Midway(o, Canonical(s, attempts), next, k + 1, status, sent')
                else o.states == next && o.selections == k + 1 && Seen(o) == sent')
  {
    MidwayStep(o, Canonical(s, attempts), cells, k, last, sent);
    var a := attempts[k];
    if a.pick.Some? {
      CalledFits(s, now, cells, a.pick.value, a.call);
    }
  }

  lemma SingleAttempt(cells: seq<BackendState>, script: seq<Attempt>)
    requires |script| == 1 && WithinSlice(script, |cells|)
    ensures var o, pick, c := Retry(cells, script, 0), script[0].pick, script[0].call;
            && o.selections == 1
            && (pick.None? ==> o.states == cells && Seen(o) == SERVICE_UNAVAILABLE)
            && (pick.Some? ==> o.states == cells[pick.value := AfterCall(cells[pick.value], c)] &&
                               Seen(o) == CallStatus(cells[pick.value], c))
  {
    assert script[1..] == [];
  }

  // ---- What the loop guarantees ----

  /** The fleet after these attempts, were all of them made. */
  function AfterAttempts(states: seq<BackendState>, attempts: seq<Attempt>): (r: seq<BackendState>)
    requires WithinSlice(attempts, |states|)
    ensures |r| == |states|
    decreases |attempts|
  {
    if attempts == [] then states
    else AfterAttempts(AfterOne(states, attempts[0]), attempts[1..])
  }

  function AfterOne(states: seq<BackendState>, a: Attempt): (r: seq<BackendState>)
    requires a.pick.Some? ==> a.pick.value < |states|
    ensures |r| == |states|
  {
    if a.pick.None? then states else states[a.pick.value := AfterCall(states[a.pick.value], a.call)]
  }

  /** The status of attempt number k, if all before it are made; 503 if the strategy finds nothing. */
  function StatusOf(states: seq<BackendState>, attempts: seq<Attempt>, k: nat): int
    requires WithinSlice(attempts, |states|) && k < |attempts|
  {
    if attempts[k].pick.None? then 503
    else CallStatus(AfterAttempts(states, attempts[..k])[attempts[k].pick.value], attempts[k].call)
  }

  /** Attempt number k picks a backend and is answered 502, 503 or 504. */
  predicate GoesOn(states: seq<BackendState>, attempts: seq<Attempt>, k: nat)
    requires WithinSlice(attempts, |states|) && k < |attempts|
  {
    attempts[k].pick.Some? && StatusOf(states, attempts, k) in {502, 503, 504}
  }

  lemma OneLater(states: seq<BackendState>, attempts: seq<Attempt>, k: nat)
    requires WithinSlice(attempts, |states|) && k + 1 < |attempts|
    ensures AfterAttempts(states, attempts[..k + 1]) == AfterAttempts(AfterOne(states, attempts[0]), attempts[1..][..k])
    ensures StatusOf(states, attempts, k + 1) == StatusOf(AfterOne(states, attempts[0]), attempts[1..], k)
    ensures GoesOn(states, attempts, k + 1) <==> GoesOn(AfterOne(states, attempts[0]), attempts[1..], k)
  {
    assert attempts[..k + 1][1..] == attempts[1..][..k] && attempts[..k + 1][0] == attempts[0];
    assert attempts[1..][k] == attempts[k + 1];
  }

  /** The loop makes attempt number k if and only if all attempts before it were answered 502, 503 or 504.
      The reply it settles on is the status of the last attempt made, and the fleet is as after exactly
      those attempts. */
  predicate Shape(states: seq<BackendState>, attempts: seq<Attempt>, o: Outcome)
    requires WithinSlice(attempts, |states|)
  {
    && 1 <= o.selections <= |attempts|
    && (forall k :: 0 <= k < o.selections - 1 ==> GoesOn(states, attempts, k))
    && (o.selections < |attempts| ==> !GoesOn(states, attempts, o.selections - 1))
    && o.reply == StatusOf(states, attempts, o.selections - 1)
    && |o.statuses| == (if attempts[o.selections - 1].pick.None? then o.selections - 1 else o.selections)
    && (forall k :: 0 <= k < |o.statuses| ==> o.statuses[k] == StatusOf(states, attempts, k))
    && o.states == AfterAttempts(states, attempts[..o.selections])
  }

  lemma ShapeLater(states: seq<BackendState>, attempts: seq<Attempt>, rest: Outcome)
    requires WithinSlice(attempts, |states|) && |attempts| > 1 && GoesOn(states, attempts, 0)
    requires Shape(AfterOne(states, attempts[0]), attempts[1..], rest)
    ensures var statuses := [StatusOf(states, attempts, 0)] + rest.statuses;
            Shape(states, attempts, Outcome(rest.states, statuses, rest.reply, rest.selections + 1))
  {
    var next, tail := AfterOne(states, attempts[0]), attempts[1..];
    forall k | 0 <= k < |tail|
      ensures StatusOf(states, attempts, k + 1) == StatusOf(next, tail, k)
      ensures GoesOn(states, attempts, k + 1) <==> GoesOn(next, tail, k)
    {
      OneLater(states, attempts, k);
    }
    forall k | 0 < k < rest.selections
      ensures GoesOn(states, attempts, k)
    {
      assert GoesOn(next, tail, k - 1);
      OneLater(states, attempts, k - 1);
    }
    assert attempts[..rest.selections + 1][1..] == tail[..rest.selections];
    assert attempts[..rest.selections + 1][0] == attempts[0];
  }

  lemma {:induction false} RetryShape(states: seq<BackendState>, attempts: seq<Attempt>, last: int)
    requires WithinSlice(attempts, |states|) && attempts != []
    ensures Shape(states, attempts, Retry(states, attempts, last))
    decreases |attempts|
  {
    var first := attempts[0];
    assert attempts[..0] == [] && attempts[..1] == [first];
    if |attempts| == 1 {
      SingleShape(states, first, last);
      assert attempts == [first];
    } else if GoesOn(states, attempts, 0) {
      RetryShape(AfterOne(states, first), attempts[1..], StatusOf(states, attempts, 0));
      ShapeLater(states, attempts, Retry(AfterOne(states, first), attempts[1..], StatusOf(states, attempts, 0)));
    }
  }

  lemma SingleShape(states: seq<BackendState>, a: Attempt, last: int)
    requires WithinSlice([a], |states|)
    ensures Shape(states, [a], Retry(states, [a], last))
  {
    assert [a][..0] == [] && [a][..1] == [a] && [a][1..] == [] && [a][0] == a;
  }

  /** The client sees the status of the first attempt, however the loop goes on. */
  lemma FirstStatusIsSeen(states: seq<BackendState>, attempts: seq<Attempt>)
    requires WithinSlice(attempts, |states|) && attempts != []
    ensures Seen(Retry(states, attempts, 0)) ==
            if attempts[0].pick.None? then 503 else CallStatus(states[attempts[0].pick.value], attempts[0].call)
  {
    RetryShape(states, attempts, 0);
    assert attempts[..0] == [];
  }

  lemma AllowanceIs(verb: string)
    ensures Allowance(verb) == if verb == "GET" || verb == "HEAD" || verb == "OPTIONS" then 3 else 1
  {
  }

  lemma OneSelection(states: seq<BackendState>, a: Attempt)
    requires WithinSlice([a], |states|)
    ensures Retry(states, [a], 0).selections == 1 && Retry(states, [a], 0).states == AfterOne(states, a)
  {
    assert [a][1..] == [];
  }

  lemma ThreeSelections(states: seq<BackendState>, attempts: seq<Attempt>)
    requires WithinSlice(attempts, |states|) && |attempts| == 3
    ensures var o := Retry(states, attempts, 0);
            && 1 <= o.selections <= 3
            && (o.selections >= 2 <==> GoesOn(states, attempts, 0))
            && (o.selections == 3 <==> GoesOn(states, attempts, 0) && GoesOn(states, attempts, 1))
  {
    RetryShape(states, attempts, 0);
  }

  /** One request makes one selection, and changes no backend but that one, unless it is a GET, a HEAD or
      an OPTIONS; these make up to three, another one exactly after a 502, 503 or 504. */
  lemma SelectionBound(states: seq<BackendState>, verb: string, attempts: seq<Attempt>)
    requires WithinSlice(attempts, |states|) && |attempts| == 3
    ensures Allowance(verb) == if verb == "GET" || verb == "HEAD" || verb == "OPTIONS" then 3 else 1
    ensures var o := Retry(states, attempts[..Allowance(verb)], 0);
            if verb == "GET" || verb == "HEAD" || verb == "OPTIONS" then
              && 1 <= o.selections <= 3
              && (o.selections >= 2 <==> GoesOn(states, attempts, 0))
              && (o.selections == 3 <==> GoesOn(states, attempts, 0) && GoesOn(states, attempts, 1))
            else o.selections == 1 && o.states == AfterOne(states, attempts[0])
  {
    AllowanceIs(verb);
    if Allowance(verb) == 3 {
      assert attempts[..3] == attempts;
      ThreeSelections(states, attempts);
    } else {
      assert attempts[..1] == [attempts[0]];
      OneSelection(states, attempts[0]);
    }
  }

  /** Whatever the strategy picks and the upstreams answer, every backend's breaker stays sound and
      every connection count ends where it began. */
  lemma {:induction false} RetryKeepsSound(states: seq<BackendState>, attempts: seq<Attempt>, last: int)
    requires WithinSlice(attempts, |states|)
    requires forall i :: 0 <= i < |states| ==> Sound(states[i])
    ensures var o := Retry(states, attempts, last);
            forall i :: 0 <= i < |states| ==>
              Sound(o.states[i]) && o.states[i].active == states[i].active && o.states[i].alive == states[i].alive
    decreases |attempts|
  {
    if attempts != [] && attempts[0].pick.Some? {
      var i, c := attempts[0].pick.value, attempts[0].call;
      CallKeepsSound(states[i], c);
      RetryKeepsSound(states[i := AfterCall(states[i], c)], attempts[1..], CallStatus(states[i], c));
    }
  }

  /** The attempts that pick backend `i` find its gate shut. */
  predicate ShutOut(s: BackendState, attempts: seq<Attempt>, i: nat) {
    forall k :: 0 <= k < |attempts| && attempts[k].pick == Some(i) ==> !Eligible(s, attempts[k].call.gateAt)
  }

  /** No request reaches a backend through a shut gate, even when the strategy picks it: the backend
      is left untouched, whatever its upstream would have answered. */
  lemma {:induction false} ShutGateForwardsNothing(states: seq<BackendState>, attempts: seq<Attempt>, last: int, i: nat)
    requires WithinSlice(attempts, |states|) && i < |states| && ShutOut(states[i], attempts, i)
    ensures Retry(states, attempts, last).states[i] == states[i]
    decreases |attempts|
  {
    if attempts != [] && attempts[0].pick.Some? {
      var j, c := attempts[0].pick.value, attempts[0].call;
      var states' := states[j := AfterCall(states[j], c)];
      assert ShutOut(states'[i], attempts[1..], i) by {
        assert forall k :: 0 <= k < |attempts[1..]| ==> attempts[1..][k] == attempts[k + 1];
      }
      ShutGateForwardsNothing(states', attempts[1..], CallStatus(states[j], c), i);
    }
  }

  /** ... nor does what that upstream would have answered make any difference to anyone. */
  lemma {:induction false} ShutGateHidesUpstream(states: seq<BackendState>, xs: seq<Attempt>, ys: seq<Attempt>,
                                                 last: int, i: nat)
    requires WithinSlice(xs, |states|) && i < |states| && ShutOut(states[i], xs, i)
    requires |xs| == |ys|
    requires forall k :: 0 <= k < |xs| ==>
               && ys[k].pick == xs[k].pick && ys[k].call.gateAt == xs[k].call.gateAt
               && (xs[k].pick != Some(i) ==> ys[k] == xs[k])
    ensures WithinSlice(ys, |states|)
    ensures Retry(states, ys, last) == Retry(states, xs, last)
    decreases |xs|
  {
    assert forall k :: 0 <= k < |xs| ==> ys[k].pick == xs[k].pick;
    if xs != [] && xs[0].pick.Some? {
      var j, c := xs[0].pick.value, xs[0].call;
      var states' := states[j := AfterCall(states[j], c)];
      assert forall k :: 0 <= k < |xs[1..]| ==> xs[1..][k] == xs[k + 1] && ys[1..][k] == ys[k + 1];
      assert ys[0].call == c || states[j] == states[i];
      ShutGateHidesUpstream(states', xs[1..], ys[1..], CallStatus(states[j], c), i);
    }
  }

  /** Two more attempts, no earlier than the end of the first one. */
  predicate Follows(first: Attempt, rest: seq<Attempt>, n: nat) {
    && |rest| == 2 && WithinSlice(rest, n)
    && forall k :: 0 <= k < |rest| ==>
         first.call.failedAt <= rest[k].call.gateAt <= rest[k].call.cooldownAt <= rest[k].call.failedAt
  }

  /** Closed and marked dead: no passage of time makes such a backend eligible. */
  predicate DeadForGood(states: seq<BackendState>) {
    forall j :: 0 <= j < |states| ==> states[j].circuit.Closed? && !states[j].alive
  }

  lemma {:induction false} DeadFleetAnswers503(states: seq<BackendState>, attempts: seq<Attempt>)
    requires WithinSlice(attempts, |states|) && DeadForGood(states)
    ensures Retry(states, attempts, SERVICE_UNAVAILABLE).reply == SERVICE_UNAVAILABLE
    decreases |attempts|
  {
    if attempts != [] && attempts[0].pick.Some? {
      var i := attempts[0].pick.value;
      assert states[i := states[i]] == states;
      DeadFleetAnswers503(states, attempts[1..]);
    }
  }

  /** Anything but a dead fleet can still answer 200 to the next attempt. */
  lemma AnswersLater(states: seq<BackendState>, j: nat, from: int) returns (a: Attempt)
    requires j < |states| && !(states[j].circuit.Closed? && !states[j].alive)
    ensures a.pick == Some(j) && a.call.upstream == Response(200)
    ensures from <= a.call.gateAt == a.call.cooldownAt == a.call.failedAt
    ensures Eligible(states[j], a.call.gateAt)
  {
    var cooled := if states[j].lastFailure.Some? then states[j].lastFailure.value + OPEN_STATE_TIMEOUT else from;
    var at := if from < cooled then cooled else from;
    a := Attempt(Some(j), Call(at, at, at, Response(200), 1, 0.0));
  }

  /** The fleet and the status after the first attempt, which picked a backend. */
  function AfterFirst(states: seq<BackendState>, first: Attempt): seq<BackendState>
    requires first.pick.Some? && first.pick.value < |states|
  {
    states[first.pick.value := AfterCall(states[first.pick.value], first.call)]
  }

  /** The client is sure to get the status the server settles on, however the remaining attempts go,
      if and only if the first attempt needs no retry, or was answered 503 by a fleet that is dead
      for good. */
  lemma ReplyReachesClientIff(states: seq<BackendState>, first: Attempt)
    requires first.pick.Some? && first.pick.value < |states|
    ensures var status := CallStatus(states[first.pick.value], first.call);
            (forall rest :: Follows(first, rest, |states|) ==>
               WithinSlice([first] + rest, |states|) &&
               Seen(Retry(states, [first] + rest, 0)) == Retry(states, [first] + rest, 0).reply)
            <==> status !in {502, 503, 504} || (status == 503 && DeadForGood(AfterFirst(states, first)))
  {
    var status, next := CallStatus(states[first.pick.value], first.call), AfterFirst(states, first);
    forall rest | Follows(first, rest, |states|)
      ensures WithinSlice([first] + rest, |states|)
      ensures Seen(Retry(states, [first] + rest, 0)) == status
      ensures Retryable(status) ==> Retry(states, [first] + rest, 0).reply == Retry(next, rest, status).reply
      ensures !Retryable(status) ==> Retry(states, [first] + rest, 0).reply == status
    {
      assert ([first] + rest)[1..] == rest;
    }
    if Retryable(status) {
      if status == 503 && DeadForGood(next) {
        forall rest | Follows(first, rest, |states|)
          ensures Retry(next, rest, status).reply == status
        {
          DeadFleetAnswers503(next, rest);
        }
      } else {
        var rest := DifferentEnding(next, first, status);
        assert Follows(first, rest, |states|);
      }
    }
  }

  /** Otherwise some continuation settles on another status than the first one. */
  lemma DifferentEnding(next: seq<BackendState>, first: Attempt, status: int) returns (rest: seq<Attempt>)
    requires Retryable(status) && !(status == 503 && DeadForGood(next))
    ensures Follows(first, rest, |next|) && Retry(next, rest, status).reply != status
  {
    var t := first.call.failedAt;
    var none := Attempt(None, Call(t, t, t, Response(200), 1, 0.0));
    if status != SERVICE_UNAVAILABLE {
      rest := [none, none];
    } else {
      var j: nat :| j < |next| && !(next[j].circuit.Closed? && !next[j].alive);
      var a := AnswersLater(next, j, t);
      rest := [a, none];
    }
  }

  /** Concretely: one backend cannot be reached, the next one answers 200, and the client sees 502. */
  lemma RescuedRequestStillFails(t: int) returns (attempts: seq<Attempt>)
    ensures WithinSlice(attempts, 2) && |attempts| == 3 && attempts[..Allowance("GET")] == attempts
    ensures var o := Retry([NEW_BACKEND, NEW_BACKEND], attempts, 0);
            o.selections == 2 && o.reply == 200 && Seen(o) == 502
  {
    var lost, good := Call(t, t, t, TransportError, 1, 0.0), Call(t, t, t, Response(200), 1, 0.0);
    attempts := [Attempt(Some(0), lost), Attempt(Some(1), good), Attempt(None, good)];
    var states := [NEW_BACKEND, NEW_BACKEND];
    var states' := states[0 := AfterCall(NEW_BACKEND, lost)];
    assert attempts[1..][0] == attempts[1];
    assert Retry(states', attempts[1..], BAD_GATEWAY).reply == 200;
  }
}
