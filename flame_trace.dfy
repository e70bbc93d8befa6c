/** Sequences of calls on the FLAME routing table. A run replays AddPath and Lookup calls
    in order, each with its own `now`, optionally erasing the expired entries Lookup meets. */
module FlameTrace {
  import opened Mac48
  import opened Flame

  datatype Call =
    | AddPathCall(now: nat, destination: Mac48Address, retransmitter: Mac48Address,
                  interface: uint32, cost: uint8, seqnum: uint16)
    | LookupCall(now: nat, destination: Mac48Address)

  /** The answers of the Lookup calls of a run, in order, and the table it leaves. */
  datatype Outcome = Outcome(answers: seq<LookupResult>, routes: map<Mac48Address, Route>)

  /** How many of `calls` are Lookup calls. */
  function LookupCount(calls: seq<Call>): nat
    decreases |calls|
  {
    if calls == [] then 0
    else (if calls[0].LookupCall? then 1 else 0) + LookupCount(calls[1..])
  }

  /** Replay `calls` on `routes`; `evict` says whether Lookup erases an expired entry.
      Every Lookup call contributes exactly one answer. */
  function Replay(lifetime: nat, policy: UpdatePolicy, routes: map<Mac48Address, Route>,
                  calls: seq<Call>, evict: bool): (o: Outcome)
    ensures |o.answers| == LookupCount(calls)
    decreases |calls|
  {
    if calls == [] then Outcome([], routes)
    else
      match calls[0]
      case AddPathCall(now, d, r, i, c, s) =>
        Replay(lifetime, policy, AddedRoutes(lifetime, policy, routes, d, r, i, c, s, now), calls[1..], evict)
      case LookupCall(now, d) =>
        var rest := Replay(lifetime, policy, if evict then Evicted(routes, d, now) else routes, calls[1..], evict);
        Outcome([Resolve(routes, d, now)] + rest.answers, rest.routes)
  }

  /** Every call's clock is at least `start`, and the clock never goes backwards. */
  ghost predicate ClockFrom(calls: seq<Call>, start: nat) {
    && (forall i :: 0 <= i < |calls| ==> start <= calls[i].now)
    && (forall i, j :: 0 <= i <= j < |calls| ==> calls[i].now <= calls[j].now)
  }

  /** Every table reachable from a well-formed one keeps costs within MAX_COST and sequence
      numbers within 16 bits, so every Lookup returns the stored fields without truncation. */
  lemma {:induction false} ReplayKeepsWellFormed(lifetime: nat, policy: UpdatePolicy,
                                                 routes: map<Mac48Address, Route>,
                                                 calls: seq<Call>, evict: bool)
    requires WellFormed(routes)
    ensures WellFormed(Replay(lifetime, policy, routes, calls, evict).routes)
    decreases |calls|
  {
    if calls != [] {
      match calls[0]
      case AddPathCall(now, d, r, i, c, s) =>
        ReplayKeepsWellFormed(lifetime, policy,
          AddedRoutes(lifetime, policy, routes, d, r, i, c, s, now), calls[1..], evict);
      case LookupCall(now, d) =>
        ReplayKeepsWellFormed(lifetime, policy,
          if evict then Evicted(routes, d, now) else routes, calls[1..], evict);
    }
  }

  /** `lazy` is `full` with some entries erased that had already expired by `t`. */
  ghost predicate AgreeFrom(lazy: map<Mac48Address, Route>, full: map<Mac48Address, Route>, t: nat) {
    && (forall d :: d in lazy ==> d in full && lazy[d] == full[d])
    && (forall d :: d in full && d !in lazy ==> !Live(full[d], t))
  }

  /** One AddPath at time `now` (no earlier than `t`) keeps two agreeing tables agreeing. */
  lemma AgreeAfterAdd(lifetime: nat, policy: UpdatePolicy,
                      lazy: map<Mac48Address, Route>, full: map<Mac48Address, Route>, t: nat,
                      d: Mac48Address, r: Mac48Address, i: uint32, c: uint8, s: uint16, now: nat)
    requires AgreeFrom(lazy, full, t) && t <= now
    ensures AgreeFrom(AddedRoutes(lifetime, policy, lazy, d, r, i, c, s, now),
                      AddedRoutes(lifetime, policy, full, d, r, i, c, s, now), now)
  {
  }

  /** Replaying the same calls under a non-decreasing clock on two agreeing tables, the
      lazily evicting run gives the same answers as the run that never erases anything. */
  lemma {:induction false} AgreeingRunsAnswerAlike(lifetime: nat, policy: UpdatePolicy,
                                                   lazy: map<Mac48Address, Route>,
                                                   full: map<Mac48Address, Route>,
                                                   calls: seq<Call>, t: nat)
    requires AgreeFrom(lazy, full, t) && ClockFrom(calls, t)
    ensures Replay(lifetime, policy, lazy, calls, true).answers
            == Replay(lifetime, policy, full, calls, false).answers
    decreases |calls|
  {
    if calls != [] {
      var now := calls[0].now;
      assert ClockFrom(calls[1..], now) by {
        forall k | 0 <= k < |calls[1..]| ensures now <= calls[1..][k].now {
          assert calls[1..][k] == calls[k + 1];
        }
      }
      match calls[0]
      case AddPathCall(_, d, r, i, c, s) =>
        AgreeAfterAdd(lifetime, policy, lazy, full, t, d, r, i, c, s, now);
        AgreeingRunsAnswerAlike(lifetime, policy,
          AddedRoutes(lifetime, policy, lazy, d, r, i, c, s, now),
          AddedRoutes(lifetime, policy, full, d, r, i, c, s, now), calls[1..], now);
      case LookupCall(_, d) =>
        assert Resolve(lazy, d, now) == Resolve(full, d, now) by {
          if d in full && d !in lazy {
            assert !Live(full[d], now);
          }
        }
        AgreeingRunsAnswerAlike(lifetime, policy, Evicted(lazy, d, now), full, calls[1..], now);
    }
  }

  /** The eviction Lookup performs is unobservable: with a non-decreasing clock, a table
      that erases expired entries on Lookup answers every Lookup exactly as one that keeps
      them. */
  lemma LazyEvictionUnobservable(lifetime: nat, policy: UpdatePolicy,
                                 routes: map<Mac48Address, Route>, calls: seq<Call>, start: nat)
    requires ClockFrom(calls, start)
    ensures Replay(lifetime, policy, routes, calls, true).answers
            == Replay(lifetime, policy, routes, calls, false).answers
  {
    AgreeingRunsAnswerAlike(lifetime, policy, routes, routes, calls, start);
  }

  /** The clock after a run that starts at `start`: the time of its last call. */
  function LastClock(calls: seq<Call>, start: nat): (t: nat)
    requires ClockFrom(calls, start)
    ensures start <= t
    ensures forall i :: 0 <= i < |calls| ==> calls[i].now <= t
    decreases |calls|
  {
    if calls == [] then start
    else
      assert ClockFrom(calls[1..], calls[0].now) by {
        forall k | 0 <= k < |calls[1..]| ensures calls[0].now <= calls[1..][k].now {
          assert calls[1..][k] == calls[k + 1];
        }
      }
      LastClock(calls[1..], calls[0].now)
  }

  /** No entry ever outlives the latest clock by more than the lifetime: the bound holding
      at `start` still holds, at the run's last clock, after any run with a non-decreasing
      clock. An empty table satisfies it at any start. */
  lemma {:induction false} ReplayExpiresBy(lifetime: nat, policy: UpdatePolicy,
                                           routes: map<Mac48Address, Route>,
                                           calls: seq<Call>, evict: bool, start: nat)
    requires ClockFrom(calls, start) && ExpiresBy(routes, start + lifetime)
    ensures ExpiresBy(Replay(lifetime, policy, routes, calls, evict).routes,
                      LastClock(calls, start) + lifetime)
    decreases |calls|
  {
    if calls != [] {
      var now := calls[0].now;
      assert ClockFrom(calls[1..], now) by {
        forall k | 0 <= k < |calls[1..]| ensures now <= calls[1..][k].now {
          assert calls[1..][k] == calls[k + 1];
        }
      }
      match calls[0]
      case AddPathCall(_, d, r, i, c, s) =>
        ReplayExpiresBy(lifetime, policy,
          AddedRoutes(lifetime, policy, routes, d, r, i, c, s, now), calls[1..], evict, now);
      case LookupCall(_, d) =>
        var next := if evict then Evicted(routes, d, now) else routes;
        assert ExpiresBy(next, now + lifetime);
        ReplayExpiresBy(lifetime, policy, next, calls[1..], evict, now);
    }
  }

  /** A run with no AddPath for `d` never changes or creates the entry for `d`. */
  lemma {:induction false} UntouchedEntryKept(lifetime: nat, policy: UpdatePolicy,
                                              routes: map<Mac48Address, Route>,
                                              calls: seq<Call>, evict: bool, d: Mac48Address)
    requires forall i :: 0 <= i < |calls| && calls[i].AddPathCall? ==> calls[i].destination != d
    ensures var m := Replay(lifetime, policy, routes, calls, evict).routes;
            d in m ==> d in routes && m[d] == routes[d]
    decreases |calls|
  {
    if calls != [] {
      assert forall i :: 0 <= i < |calls[1..]| ==> calls[1..][i] == calls[i + 1];
      match calls[0]
      case AddPathCall(now, d', r, i, c, s) =>
        UntouchedEntryKept(lifetime, policy,
          AddedRoutes(lifetime, policy, routes, d', r, i, c, s, now), calls[1..], evict, d);
      case LookupCall(now, d') =>
        UntouchedEntryKept(lifetime, policy,
          if evict then Evicted(routes, d', now) else routes, calls[1..], evict, d);
    }
  }

  /** After AddPath(d, ...) at `now`, any run with no further AddPath for `d`, then a Lookup
      of `d` once the lifetime has elapsed, answers "not found", whatever the policy did with
      the offered path and whatever happened to other destinations in between. */
  lemma PathExpiresWithoutRefresh(lifetime: nat, policy: UpdatePolicy,
                                  routes: map<Mac48Address, Route>,
                                  d: Mac48Address, retransmitter: Mac48Address, interface: uint32,
                                  cost: uint8, seqnum: uint16, now: nat,
                                  calls: seq<Call>, evict: bool, later: nat)
    requires ExpiresBy(routes, now + lifetime)
    requires forall i :: 0 <= i < |calls| && calls[i].AddPathCall? ==> calls[i].destination != d
    requires now + lifetime < later
    ensures var added := AddedRoutes(lifetime, policy, routes, d, retransmitter, interface, cost, seqnum, now);
            Resolve(Replay(lifetime, policy, added, calls, evict).routes, d, later) == NotFound()
  {
    var added := AddedRoutes(lifetime, policy, routes, d, retransmitter, interface, cost, seqnum, now);
    UntouchedEntryKept(lifetime, policy, added, calls, evict, d);
  }
}
