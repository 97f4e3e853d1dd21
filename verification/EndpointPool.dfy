/** The endpoint pool of internal/transport/rotation.go: round robin with a circuit breaker. */
module EndpointPool {
  import opened Outcomes

  datatype Endpoint = Endpoint(
    address: string, consecutiveFails: nat, totalSuccesses: nat, totalFails: nat, lastFailTime: int, lastRtt: int,
      healthy: bool)

  function NewEndpoint(addr: string): Endpoint {
    Endpoint(addr, 0, 0, 0, 0, 0, true)
  }

  /** A fresh endpoint for each address that is not empty, in order. */
  function NewEndpoints(addrs: seq<string>): seq<Endpoint> {
    if addrs == [] then []
    else
      var n := |addrs| - 1;
      NewEndpoints(addrs[..n]) + if addrs[n] == "" then [] else [NewEndpoint(addrs[n])]
  }

  /** Healthy, or cooled down since its last failure. */
  predicate Available(e: Endpoint, now: int, cooldown: int) {
    e.healthy || now - e.lastFailTime > cooldown
  }

  ghost function AvailableSet(es: seq<Endpoint>, now: int, cooldown: int): (a: set<nat>)
    ensures forall i :: i in a <==> 0 <= i < |es| && Available(es[i], now, cooldown)
  {
    set i: nat | i < |es| && Available(es[i], now, cooldown)
  }

  // ---- going round -------------------------------------------------------------------------------

  function Wrap(x: nat, n: nat): nat
    requires x < 2 * n
  {
    if x < n then x else x - n
  }

  lemma ModIsWrap(x: nat, n: nat)
    requires x < 2 * n
    ensures x % n == Wrap(x, n)
  {
    if x >= n {
      assert x == n * 1 + (x - n);
      DivModUnique(x, n);
    }
  }

  lemma DivModUnique(x: nat, n: nat)
    requires n <= x < 2 * n
    ensures x % n == x - n
  {
    var q := x / n;
    assert x == n * q + x % n;
    assert q != 0;
    assert q >= 2 ==> n * q >= n * 2;
  }

  /** How far `a` is ahead of `c`, going round. */
  function Ahead(a: nat, c: nat, n: nat): nat
    requires a < n && c < n
  {
    if a >= c then a - c else a + n - c
  }

  /** `a` is the first member of `avail` at or after `c`, going round. */
  ghost predicate NextInTurn(avail: set<nat>, c: nat, n: nat, a: nat) {
    && c < n && a in avail && (forall x <- avail :: x < n)
    && forall x <- avail :: Ahead(a, c, n) <= Ahead(x, c, n)
  }

  // ---- the pool ----------------------------------------------------------------------------------

  class Pool {
    var endpoints: seq<Endpoint>
    var currentIndex: nat
    const failThreshold: nat
    const cooldown: int

    /** In every reachable state an unhealthy endpoint has failed at least `failThreshold` times in a row. */
    ghost predicate Valid()
      reads this
    {
      && 0 < failThreshold && 0 < cooldown
      && (if endpoints == [] then currentIndex == 0 else currentIndex < |endpoints|)
      && (forall i :: 0 <= i < |endpoints| ==>
         (!endpoints[i].healthy ==> endpoints[i].consecutiveFails >= failThreshold))
    }

    constructor (addrs: seq<string>, failThreshold: int, cooldown: int)
      ensures Valid() && currentIndex == 0
      ensures this.failThreshold == (if failThreshold <= 0 then 3 else failThreshold)
      ensures this.cooldown == (if cooldown <= 0 then 60_000_000_000 else cooldown)
      ensures endpoints == NewEndpoints(addrs)
    {
      this.failThreshold := if failThreshold <= 0 then 3 else failThreshold;
      this.cooldown := if cooldown <= 0 then 60_000_000_000 else cooldown;
      var es: seq<Endpoint> := [];
      for i := 0 to |addrs|
        invariant es == NewEndpoints(addrs[..i]) && forall j :: 0 <= j < |es| ==> es[j].healthy
      {
        assert addrs[..i + 1][..i] == addrs[..i];
        if addrs[i] != "" {
          es := es + [NewEndpoint(addrs[i])];
        }
      }
      assert addrs[..|addrs|] == addrs;
      endpoints, currentIndex := es, 0;
    }

    /** AddEndpoint */
    method AddEndpoint(addr: string)
      requires Valid()
      modifies this
      ensures Valid() && currentIndex == old(currentIndex)
      ensures endpoints == if addr == "" || Lists(old(endpoints), addr) then old(endpoints)
              else old(endpoints) + [NewEndpoint(addr)]
    {
      if addr == "" {
        return;
      }
      for i := 0 to |endpoints|
        invariant endpoints == old(endpoints) && currentIndex == old(currentIndex)
        invariant forall j :: 0 <= j < i ==> endpoints[j].address != addr
      {
        if endpoints[i].address == addr {
          return;
        }
      }
      endpoints := endpoints + [NewEndpoint(addr)];
    }

    /** SelectNext: the next available endpoint in turn; when none is, the one whose failure is oldest. */
    method SelectNext(now: int) returns (addr: Option<string>, ghost idx: nat)
      requires Valid()
      modifies this
      ensures Valid() && (addr.None? <==> old(endpoints) == [])
      ensures addr.None? ==> endpoints == old(endpoints) && currentIndex == old(currentIndex)
      ensures addr.Some? ==> idx < |old(endpoints)| && addr.value == old(endpoints)[idx].address
      ensures var avail := AvailableSet(old(endpoints), now, cooldown);
              addr.Some? ==>
                if avail != {} then
                  && NextInTurn(avail, old(currentIndex), |old(endpoints)|, idx)
                  && currentIndex == Wrap(idx + 1, |old(endpoints)|)
                  && endpoints == old(endpoints)[idx := old(endpoints)[idx].(healthy := true)]
                else
                  && endpoints == old(endpoints) && currentIndex == old(currentIndex)
                  && (forall i :: 0 <= i < |endpoints| ==> endpoints[idx].lastFailTime <= endpoints[i].lastFailTime)
                  && (forall i :: 0 <= i < idx ==> endpoints[idx].lastFailTime < endpoints[i].lastFailTime)
    {
      if |endpoints| == 0 {
        return None, 0;
      }
      var n := |endpoints|;
      for i := 0 to n
        invariant endpoints == old(endpoints) && currentIndex == old(currentIndex)
        invariant forall x <- AvailableSet(endpoints, now, cooldown) :: Ahead(x, currentIndex, n) >= i
      {
        var at := (currentIndex + i) % n;
        ModIsWrap(currentIndex + i, n);
        assert Ahead(at, currentIndex, n) == i;
        ModIsWrap(at + 1, n);
        var ep := endpoints[at];
        if !ep.healthy && now - ep.lastFailTime > cooldown {
          assert at in AvailableSet(endpoints, now, cooldown);
          endpoints := endpoints[at := ep.(healthy := true)];
          currentIndex := (at + 1) % n;
          return Some(ep.address), at;
        }
        if ep.healthy {
          assert at in AvailableSet(endpoints, now, cooldown);
          currentIndex := (at + 1) % n;
          return Some(ep.address), at;
        }
        forall x | x in AvailableSet(endpoints, now, cooldown)
          ensures Ahead(x, currentIndex, n) >= i + 1
        {
        }
      }
      assert AvailableSet(endpoints, now, cooldown) == {};
      var oldest := 0;
      for i := 1 to n
        invariant oldest < n && endpoints == old(endpoints) && currentIndex == old(currentIndex)
        invariant forall j :: 0 <= j < i ==> endpoints[oldest].lastFailTime <= endpoints[j].lastFailTime
        invariant forall j :: 0 <= j < oldest ==> endpoints[oldest].lastFailTime < endpoints[j].lastFailTime
      {
        if endpoints[i].lastFailTime < endpoints[oldest].lastFailTime {
          oldest := i;
        }
      }
      return Some(endpoints[oldest].address), oldest;
    }

    /** RecordResult */
    method RecordResult(addr: string, success: bool, rtt: int, now: int)
      requires Valid()
      modifies this
      ensures Valid() && currentIndex == old(currentIndex) && |endpoints| == |old(endpoints)|
      ensures forall i :: 0 <= i < |endpoints| ==>
                endpoints[i] == if FirstWith(old(endpoints), addr, i)
                  then Recorded(old(endpoints)[i], failThreshold, success, rtt, now)
                                else old(endpoints)[i]
    {
      for i := 0 to |endpoints|
        invariant endpoints == old(endpoints) && currentIndex == old(currentIndex)
        invariant forall j :: 0 <= j < i ==> endpoints[j].address != addr
      {
        var ep := endpoints[i];
        if ep.address == addr {
          if success {
            ep := ep.(totalSuccesses := ep.totalSuccesses + 1, consecutiveFails := 0, healthy := true);
            if rtt > 0 {
              ep := ep.(lastRtt := rtt);
            }
          } else {
            ep := ep.(totalFails := ep.totalFails + 1, consecutiveFails := ep.consecutiveFails + 1,
              lastFailTime := now);
            if ep.consecutiveFails >= failThreshold {
              ep := ep.(healthy := false);
            }
          }
          endpoints := endpoints[i := ep];
          return;
        }
      }
    }

    /** HealthyCount */
    method HealthyCount(now: int) returns (count: nat)
      requires Valid()
      ensures count == |AvailableSet(endpoints, now, cooldown)|
    {
      count := 0;
      for i := 0 to |endpoints|
        invariant count == |AvailableSet(endpoints[..i], now, cooldown)|
      {
        var before, after := AvailableSet(endpoints[..i], now, cooldown),
          AvailableSet(endpoints[..i + 1], now, cooldown);
        if Available(endpoints[i], now, cooldown) {
          assert after == before + {i};
          count := count + 1;
        } else {
          assert after == before;
        }
      }
      assert endpoints[..|endpoints|] == endpoints;
    }
  }

  predicate FirstWith(es: seq<Endpoint>, addr: string, i: nat)
    requires i < |es|
  {
    es[i].address == addr && forall j :: 0 <= j < i ==> es[j].address != addr
  }

  /** An endpoint after one more result. */
  function Recorded(e: Endpoint, threshold: nat, success: bool, rtt: int, now: int): Endpoint {
    if success then
      e.(totalSuccesses := e.totalSuccesses + 1, consecutiveFails := 0, healthy := true,
         lastRtt := if rtt > 0 then rtt else e.lastRtt)
    else
      e.(totalFails := e.totalFails + 1, consecutiveFails := e.consecutiveFails + 1, lastFailTime := now,
         healthy := e.healthy && e.consecutiveFails + 1 < threshold)
  }

  // ---- runs of calls -----------------------------------------------------------------------------

  datatype Op = Select(now: int) | Record(addr: string, success: bool, rtt: int, now: int) | Add(addr: string)

  /** Endpoints and the index where the next turn starts. */
  datatype State = State(endpoints: seq<Endpoint>, current: nat)

  /** The next in turn; there is only one (see NextUnique). */
  ghost function NextOf(avail: set<nat>, c: nat, n: nat): nat {
    if exists a: nat :: NextInTurn(avail, c, n, a) then var a: nat :| NextInTurn(avail, c, n, a); a else 0
  }

  lemma NextUnique(avail: set<nat>, c: nat, n: nat, a: nat)
    requires NextInTurn(avail, c, n, a)
    ensures NextOf(avail, c, n) == a
  {
    var b := NextOf(avail, c, n);
    assert NextInTurn(avail, c, n, b);
    assert Ahead(a, c, n) == Ahead(b, c, n);
  }

  function AllRecorded(es: seq<Endpoint>, addr: string, threshold: nat, success: bool, rtt: int,
    now: int): (r: seq<Endpoint>)
    ensures |r| == |es|
    ensures forall i :: 0 <= i < |es| ==> r[i] == if FirstWith(es, addr, i)
            then Recorded(es[i], threshold, success, rtt, now) else es[i]
  {
    seq(|es|, i requires 0 <= i < |es| => if FirstWith(es, addr, i) then Recorded(es[i], threshold, success, rtt, now)
      else es[i])
  }

  predicate Lists(es: seq<Endpoint>, addr: string) {
    exists i :: 0 <= i < |es| && es[i].address == addr
  }

  ghost function After(st: State, op: Op, threshold: nat, cooldown: int): State {
    var es, c := st.endpoints, st.current;
    match op
    case Select(now) =>
      var avail := AvailableSet(es, now, cooldown);
      var a := NextOf(avail, c, |es|);
      if avail == {} || a >= |es| then st else State(es[a := es[a].(healthy := true)], Wrap(a + 1, |es|))
    case Record(addr, success, rtt, now) => State(AllRecorded(es, addr, threshold, success, rtt, now), c)
    case Add(addr) => if addr == "" || Lists(es, addr) then st else State(es + [NewEndpoint(addr)], c)
  }

  ghost function StateAfter(st: State, ops: seq<Op>, threshold: nat, cooldown: int): State {
    if ops == [] then st
    else After(StateAfter(st, ops[..|ops| - 1], threshold, cooldown), ops[|ops| - 1], threshold, cooldown)
  }

  /** One call on the pool. */
  method Apply(p: Pool, op: Op) returns (addr: Option<string>, ghost idx: nat)
    requires p.Valid()
    modifies p
    ensures p.Valid()
    ensures State(p.endpoints, p.currentIndex) ==
            After(State(old(p.endpoints), old(p.currentIndex)), op, p.failThreshold, p.cooldown)
    ensures op.Select? ==>
              && (addr.None? <==> old(p.endpoints) == [])
              && (addr.Some? ==> idx < |old(p.endpoints)| && addr.value == old(p.endpoints)[idx].address)
    ensures op.Select? && AvailableSet(old(p.endpoints), op.now, p.cooldown) != {} ==>
              && addr.Some? && p.currentIndex == Wrap(idx + 1, |p.endpoints|)
              && NextInTurn(AvailableSet(old(p.endpoints), op.now, p.cooldown), old(p.currentIndex), |p.endpoints|, idx)
  {
    addr, idx := None, 0;
    match op {
      case Select(now) =>
        ghost var avail, n, c := AvailableSet(p.endpoints, now, p.cooldown), |p.endpoints|, p.currentIndex;
        addr, idx := p.SelectNext(now);
        hide NextOf;
        if avail != {} {
          NextUnique(avail, c, n, idx);
        }
      case Record(a, success, rtt, now) =>
        ghost var es := p.endpoints;
        p.RecordResult(a, success, rtt, now);
        assert p.endpoints == AllRecorded(es, a, p.failThreshold, success, rtt, now);
      case Add(a) =>
        p.AddEndpoint(a);
    }
  }

  // ---- what the records of an endpoint say ----------------------------------------------------------

  /** The results recorded for one address: failures since the last success, and the totals. */
  datatype Ledger = Ledger(inRow: nat, successes: nat, failures: nat, lastFail: int, rtt: int)

  function LedgerAfter(l: Ledger, ops: seq<Op>, addr: string): Ledger {
    if ops == [] then l
    else
      var before := LedgerAfter(l, ops[..|ops| - 1], addr);
      match ops[|ops| - 1]
      case Record(a, success, rtt, now) =>
        if a != addr then before
        else if success then Ledger(0, before.successes + 1, before.failures, before.lastFail, if rtt > 0 then rtt
          else before.rtt)
        else Ledger(before.inRow + 1, before.successes, before.failures + 1, now, before.rtt)
      case _ => before
  }

  function LedgerOf(e: Endpoint): Ledger {
    Ledger(e.consecutiveFails, e.totalSuccesses, e.totalFails, e.lastFailTime, e.lastRtt)
  }

  /** In every reachable state (Pool.Valid): an endpoint that is out has failed often enough in a row. */
  ghost predicate Sane(es: seq<Endpoint>, threshold: nat) {
    forall i :: 0 <= i < |es| ==> (!es[i].healthy ==> es[i].consecutiveFails >= threshold)
  }

  lemma LedgerStep(st: State, op: Op, threshold: nat, cooldown: int, addr: string, idx: nat)
    requires idx < |st.endpoints| && FirstWith(st.endpoints, addr, idx)
    ensures var es := After(st, op, threshold, cooldown).endpoints;
            && idx < |es| && FirstWith(es, addr, idx)
            && LedgerOf(es[idx]) == LedgerAfter(LedgerOf(st.endpoints[idx]), [op], addr)
            && (Sane(st.endpoints, threshold) && 0 < threshold ==> Sane(es, threshold))
  {
    hide NextOf, AvailableSet;
    var es, es' := st.endpoints, After(st, op, threshold, cooldown).endpoints;
    assert [op][..0] == [];
    assert forall i :: 0 <= i < |es| ==> es'[i].address == es[i].address;
  }

  /** Over any run of calls, an endpoint's counters are just what was recorded for its address. */
  lemma {:induction false} CountersAreLedger(st: State, ops: seq<Op>, threshold: nat, cooldown: int, addr: string,
    idx: nat)
    requires idx < |st.endpoints| && FirstWith(st.endpoints, addr, idx) && Sane(st.endpoints, threshold) &&
             0 < threshold
    ensures var es := StateAfter(st, ops, threshold, cooldown).endpoints;
            && idx < |es| && FirstWith(es, addr, idx) && Sane(es, threshold)
            && LedgerOf(es[idx]) == LedgerAfter(LedgerOf(st.endpoints[idx]), ops, addr)
  {
    hide After, FirstWith, Sane, LedgerOf;
    if ops != [] {
      var n := |ops| - 1;
      CountersAreLedger(st, ops[..n], threshold, cooldown, addr, idx);
      LedgerStep(StateAfter(st, ops[..n], threshold, cooldown), ops[n], threshold, cooldown, addr, idx);
      assert [ops[n]][..0] == [];
    }
  }

  /**
   * The breaker opens exactly at the threshold: right after a failure the endpoint is out if and only if
   * `threshold` or more failures in a row were recorded for it. Fewer never take it out, whatever else
   * happens to the pool.
   */
  lemma BreaksAtThreshold(st: State, ops: seq<Op>, threshold: nat, cooldown: int, addr: string, idx: nat)
    requires idx < |st.endpoints| && FirstWith(st.endpoints, addr, idx) && Sane(st.endpoints, threshold) &&
             0 < threshold
    ensures idx < |StateAfter(st, ops, threshold, cooldown).endpoints|
    ensures var e, l := StateAfter(st, ops, threshold, cooldown).endpoints[idx],
            LedgerAfter(LedgerOf(st.endpoints[idx]), ops, addr);
            && (l.inRow < threshold ==> e.healthy)
            && (ops != [] && ops[|ops| - 1].Record? && ops[|ops| - 1].addr == addr && !ops[|ops| - 1].success ==>
                  (e.healthy <==> l.inRow < threshold))
  {
    CountersAreLedger(st, ops, threshold, cooldown, addr, idx);
    if ops != [] {
      CountersAreLedger(st, ops[..|ops| - 1], threshold, cooldown, addr, idx);
    }
    hide LedgerAfter;
  }

  // ---- the circuit breaker -----------------------------------------------------------------------

  /** The endpoint that results for `addr` go to, with as many failures in a row as take an endpoint out. */
  ghost predicate OnProbation(es: seq<Endpoint>, addr: string, idx: nat, threshold: nat) {
    idx < |es| && FirstWith(es, addr, idx) && es[idx].consecutiveFails >= threshold
  }

  /** Probation ends only with a success. */
  lemma ProbationStays(st: State, op: Op, addr: string, idx: nat, threshold: nat, cooldown: int)
    requires OnProbation(st.endpoints, addr, idx, threshold) && !(op.Record? && op.success && op.addr == addr)
    ensures OnProbation(After(st, op, threshold, cooldown).endpoints, addr, idx, threshold)
  {
    hide NextOf, AvailableSet;
    var es, es' := st.endpoints, After(st, op, threshold, cooldown).endpoints;
    assert forall i :: 0 <= i < |es| ==> es'[i].address == es[i].address;
  }

  /**
   * One failure after a retry: an endpoint that was out is selected again, because it has cooled down or
   * for want of a better one; whatever else happens to the pool short of a success for it, the next
   * failure takes it out for a whole cooldown.
   */
  method RetryThenFail(p: Pool, start: int, ops: seq<Op>, rtt: int, now: int)
    returns (addr: Option<string>, ghost idx: nat)
    requires p.Valid()
    modifies p
    ensures p.Valid() && (addr.None? <==> old(p.endpoints) == [])
    ensures addr.Some? ==> idx < |old(p.endpoints)| && addr.value == old(p.endpoints)[idx].address
    ensures addr.Some? && !old(p.endpoints)[idx].healthy && FirstWith(old(p.endpoints), addr.value, idx) &&
            (forall k :: 0 <= k < |ops| ==> !(ops[k].Record? && ops[k].success && ops[k].addr == addr.value)) ==>
              forall t :: t <= now + p.cooldown ==> idx !in AvailableSet(p.endpoints, t, p.cooldown)
  {
    addr, idx := p.SelectNext(start);
    if addr.None? {
      return;
    }
    ghost var watched := !old(p.endpoints)[idx].healthy && FirstWith(old(p.endpoints), addr.value, idx) &&
                         forall k :: 0 <= k < |ops| ==>
                           !(ops[k].Record? && ops[k].success && ops[k].addr == addr.value);
    assert watched ==> OnProbation(p.endpoints, addr.value, idx, p.failThreshold);
    hide AvailableSet, NextInTurn, After, OnProbation, FirstWith;
    for k := 0 to |ops|
      invariant p.Valid() && (watched ==> OnProbation(p.endpoints, addr.value, idx, p.failThreshold))
    {
      if watched {
        ProbationStays(State(p.endpoints, p.currentIndex), ops[k], addr.value, idx, p.failThreshold, p.cooldown);
      }
      var _, _ := Apply(p, ops[k]);
    }
    ghost var es := p.endpoints;
    p.RecordResult(addr.value, false, rtt, now);
    if watched {
      FailureOut(es, p.endpoints, addr.value, idx, p.failThreshold, rtt, now, p.cooldown);
    }
  }

  lemma FailureOut(
    es: seq<Endpoint>, es': seq<Endpoint>, addr: string, idx: nat, threshold: nat, rtt: int, now: int, cooldown: int)
    requires OnProbation(es, addr, idx, threshold) && |es'| == |es|
    requires FirstWith(es, addr, idx) ==> es'[idx] == Recorded(es[idx], threshold, false, rtt, now)
    ensures forall t :: t <= now + cooldown ==> idx !in AvailableSet(es', t, cooldown)
  {
  }

  // ---- fairness ----------------------------------------------------------------------------------

  /** The members of `avail` less than `d` ahead of `c`. */
  ghost function Passed(avail: set<nat>, c: nat, n: nat, d: nat): (s: set<nat>)
    requires c < n && forall x <- avail :: x < n
    ensures forall x :: x in s <==> x in avail && Ahead(x, c, n) < d
  {
    set x | x in avail && Ahead(x, c, n) < d
  }

  lemma AheadFrom(x: nat, c: nat, d: nat, n: nat)
    requires x < n && c < n && d <= n
    ensures Ahead(x, Wrap(c + d, n), n) == if Ahead(x, c, n) >= d then Ahead(x, c, n) - d else Ahead(x, c, n) + n - d
  {
  }

  /** After going `d` places round from `c`, the next in turn is the next one from `c` that has not been passed. */
  lemma TurnStep(avail: set<nat>, c: nat, n: nat, d: nat, a: nat)
    requires c < n && d <= n && (forall x <- avail :: x < n)
    requires NextInTurn(avail, Wrap(c + d, n), n, a) && |Passed(avail, c, n, d)| < |avail|
    ensures d <= Ahead(a, c, n) && Wrap(c + Ahead(a, c, n) + 1, n) == Wrap(a + 1, n)
    ensures Passed(avail, c, n, Ahead(a, c, n) + 1) == Passed(avail, c, n, d) + {a}
  {
    var passed := Passed(avail, c, n, d);
    assert |avail - passed| == |avail| - |passed * avail| && passed * avail == passed;
    var x :| x in avail - passed;
    AheadOfAll(c, n, d, a, x, x);
    forall y | y in avail
      ensures Ahead(y, c, n) < Ahead(a, c, n) + 1 <==> Ahead(y, c, n) < d || y == a
    {
      AheadOfAll(c, n, d, a, x, y);
    }
  }

  /** With `a` first at or after the place d ahead, and `x` somewhere at or after it. */
  lemma AheadOfAll(c: nat, n: nat, d: nat, a: nat, x: nat, y: nat)
    requires c < n && d <= n && a < n && x < n && y < n && Ahead(x, c, n) >= d
    requires Ahead(a, Wrap(c + d, n), n) <= Ahead(x, Wrap(c + d, n), n)
    requires Ahead(a, Wrap(c + d, n), n) <= Ahead(y, Wrap(c + d, n), n)
    ensures d <= Ahead(a, c, n) && Wrap(c + Ahead(a, c, n) + 1, n) == Wrap(a + 1, n)
    ensures Ahead(y, c, n) < Ahead(a, c, n) + 1 <==> Ahead(y, c, n) < d || y == a
  {
    AheadFrom(a, c, d, n);
    AheadFrom(x, c, d, n);
    AheadFrom(y, c, d, n);
  }

  /** Picks that follow each other in turn. */
  ghost predicate Turns(avail: set<nat>, n: nat, c: nat, picks: seq<nat>)
    decreases |picks|
  {
    picks != [] ==> NextInTurn(avail, c, n, picks[0]) && Turns(avail, n, Wrap(picks[0] + 1, n), picks[1..])
  }

  lemma {:induction false} TurnsFrom(avail: set<nat>, n: nat, c: nat, d: nat, picks: seq<nat>)
    requires c < n && d <= n && (forall x <- avail :: x < n)
    requires Turns(avail, n, Wrap(c + d, n), picks) && |Passed(avail, c, n, d)| + |picks| <= |avail|
    ensures forall i :: 0 <= i < |picks| ==> picks[i] in avail && picks[i] !in Passed(avail, c, n, d)
    ensures forall i, j :: 0 <= i < j < |picks| ==> picks[i] != picks[j]
    decreases |picks|
  {
    if picks != [] {
      var a, rest := picks[0], picks[1..];
      TurnStep(avail, c, n, d, a);
      TurnsFrom(avail, n, c, Ahead(a, c, n) + 1, rest);
      forall i | 0 < i < |picks|
        ensures picks[i] == rest[i - 1]
      {
      }
    }
  }

  /**
   * While the k available endpoints stay the same, any k selections in a row are k different endpoints, all
   * available.
   */
  lemma RoundIsFair(avail: set<nat>, n: nat, c: nat, picks: seq<nat>)
    requires c < n && (forall x <- avail :: x < n) && Turns(avail, n, c, picks) && |picks| <= |avail|
    ensures forall i :: 0 <= i < |picks| ==> picks[i] in avail
    ensures forall i, j :: 0 <= i < j < |picks| ==> picks[i] != picks[j]
  {
    assert Passed(avail, c, n, 0) == {};
    TurnsFrom(avail, n, c, 0, picks);
  }

  lemma {:induction false} TurnsSnoc(avail: set<nat>, n: nat, c: nat, picks: seq<nat>, a: nat)
    requires Turns(avail, n, c, picks)
    requires forall i :: 0 <= i < |picks| ==> picks[i] < n
    requires NextInTurn(avail, if picks == [] then c else Wrap(picks[|picks| - 1] + 1, n), n, a)
    ensures Turns(avail, n, c, picks + [a])
    decreases |picks|
  {
    if picks == [] {
      assert picks + [a] == [a] && [a][1..] == [];
    } else {
      assert (picks + [a])[1..] == picks[1..] + [a];
      TurnsSnoc(avail, n, Wrap(picks[0] + 1, n), picks[1..], a);
    }
  }

  predicate AllDifferent(addrs: seq<string>) {
    forall i, j :: 0 <= i < j < |addrs| ==> addrs[i] != addrs[j]
  }

  /** The address of one of these endpoints. */
  ghost predicate AddressIn(es: seq<Endpoint>, avail: set<nat>, addr: string) {
    exists a :: a in avail && a < |es| && es[a].address == addr
  }

  function Selections(ops: seq<Op>): nat {
    if ops == [] then 0 else Selections(ops[..|ops| - 1]) + if ops[|ops| - 1].Select? then 1 else 0
  }

  /**
   * The pool itself: selections with any results recorded in between, the same endpoints being available
   * at each selection. Up to as many selections as there are of them return different addresses.
   */
  method SelectRound(p: Pool, ops: seq<Op>, ghost avail: set<nat>) returns (addrs: seq<string>)
    requires p.Valid() && avail != {} && Selections(ops) <= |avail| && forall k :: 0 <= k < |ops| ==> !ops[k].Add?
    requires forall k :: 0 <= k < |ops| && ops[k].Select? ==>
               AvailableSet(StateAfter(State(p.endpoints, p.currentIndex), ops[..k], p.failThreshold,
                 p.cooldown).endpoints,
                            ops[k].now, p.cooldown) == avail
    requires forall i, j :: 0 <= i < j < |p.endpoints| ==> p.endpoints[i].address != p.endpoints[j].address
    modifies p
    ensures p.Valid() && |addrs| == Selections(ops)
    ensures AllDifferent(addrs) && forall i :: 0 <= i < |addrs| ==> AddressIn(old(p.endpoints), avail, addrs[i])
  {
    hide AllDifferent, AddressIn, InRound, NextInTurn, AvailableSet, After, SameAddresses;
    addrs := [];
    ghost var picks: seq<nat> := [];
    ghost var es, c := p.endpoints, p.currentIndex;
    ghost var start := State(es, c);
    RoundStarts(avail, es, c);
    for k := 0 to |ops|
      invariant p.Valid() && |picks| == |addrs| == Selections(ops[..k]) && SameAddresses(es, p.endpoints)
      invariant State(p.endpoints, p.currentIndex) == StateAfter(start, ops[..k], p.failThreshold, p.cooldown)
      invariant InRound(avail, es, c, picks, addrs, p.currentIndex)
    {
      assert ops[..k + 1][..k] == ops[..k];
      ghost var before := State(p.endpoints, p.currentIndex);
      AddressesStay(es, before, ops[k], p.failThreshold, p.cooldown);
      var addr;
      ghost var idx;
      addr, idx := Apply(p, ops[k]);
      if ops[k].Select? {
        RoundGoesOn(avail, es, c, picks, addrs, before, idx, addr.value);
        picks := picks + [idx];
        addrs := addrs + [addr.value];
      } else {
        OnlySelectMoves(before, ops[k], p.failThreshold, p.cooldown);
      }
    }
    assert ops[..|ops|] == ops;
    RoundEnds(avail, es, c, picks, addrs, p.currentIndex);
  }

  /** The selections so far are turns among `avail` that started at `c`, and these are their addresses. */
  ghost predicate InRound(avail: set<nat>, es: seq<Endpoint>, c: nat, picks: seq<nat>, addrs: seq<string>,
    current: nat) {
    && |addrs| == |picks| && (forall i :: 0 <= i < |picks| ==> picks[i] < |es| && es[picks[i]].address == addrs[i])
    && Turns(avail, |es|, c, picks)
    && current == if picks == [] then c else Wrap(picks[|picks| - 1] + 1, |es|)
  }

  lemma RoundStarts(avail: set<nat>, es: seq<Endpoint>, c: nat)
    ensures InRound(avail, es, c, [], [], c) && SameAddresses(es, es)
  {
  }

  lemma RoundGoesOn(
    avail: set<nat>, es: seq<Endpoint>, c: nat, picks: seq<nat>, addrs: seq<string>, st: State, idx: nat, addr: string)
    requires InRound(avail, es, c, picks, addrs, st.current) && SameAddresses(es, st.endpoints)
    requires NextInTurn(avail, st.current, |es|, idx) && idx < |es| && st.endpoints[idx].address == addr
    ensures InRound(avail, es, c, picks + [idx], addrs + [addr], Wrap(idx + 1, |es|))
  {
    hide Turns, NextInTurn;
    TurnsSnoc(avail, |es|, c, picks, idx);
  }

  lemma RoundEnds(avail: set<nat>, es: seq<Endpoint>, c: nat, picks: seq<nat>, addrs: seq<string>, current: nat)
    requires InRound(avail, es, c, picks, addrs, current) && |picks| <= |avail|
    requires forall i, j :: 0 <= i < j < |es| ==> es[i].address != es[j].address
    ensures AllDifferent(addrs) && forall i :: 0 <= i < |addrs| ==> AddressIn(es, avail, addrs[i])
  {
    hide Turns;
    if picks != [] {
      RoundOf(avail, |es|, c, picks);
      RoundIsFair(avail, |es|, c, picks);
      forall i | 0 <= i < |addrs|
        ensures AddressIn(es, avail, addrs[i])
      {
        assert picks[i] in avail && es[picks[i]].address == addrs[i];
      }
    }
  }

  ghost predicate SameAddresses(es: seq<Endpoint>, ps: seq<Endpoint>) {
    |ps| == |es| && forall i :: 0 <= i < |es| ==> ps[i].address == es[i].address
  }

  lemma AddressesStay(es: seq<Endpoint>, st: State, op: Op, threshold: nat, cooldown: int)
    requires !op.Add? && SameAddresses(es, st.endpoints)
    ensures SameAddresses(es, After(st, op, threshold, cooldown).endpoints)
    ensures |es| == |st.endpoints| == |After(st, op, threshold, cooldown).endpoints|
  {
    hide NextOf, AvailableSet;
  }

  lemma OnlySelectMoves(st: State, op: Op, threshold: nat, cooldown: int)
    requires !op.Select?
    ensures After(st, op, threshold, cooldown).current == st.current
  {
  }

  lemma RoundOf(avail: set<nat>, n: nat, c: nat, picks: seq<nat>)
    requires picks != [] && Turns(avail, n, c, picks)
    ensures c < n && forall x <- avail :: x < n
  {
  }
}
