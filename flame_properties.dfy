/** Properties of one AddPath or Lookup on the FLAME routing table, stated on the
    abstract table (`AddedRoutes`, `Resolve`, `Evicted`) that the class methods follow. */
module FlameProperties {
  import opened Mac48
  import opened Flame

  /** Lookup reports a usable route exactly when a live entry exists whose fields are not
      those of the "not found" value. */
  lemma LookupValidIff(routes: map<Mac48Address, Route>, d: Mac48Address, now: nat)
    requires WellFormed(routes)
    ensures Resolve(routes, d, now).IsValid() <==>
      (d in routes && Live(routes[d], now)
       && !(routes[d].retransmitter == BROADCAST && routes[d].interface == INTERFACE_ANY
            && routes[d].cost == MAX_COST && routes[d].seqnum == 0))
  {
  }

  /** Adding a path to a destination with no live entry, then looking it up before the
      entry expires, gives back exactly the fields that were added, under every policy. */
  lemma AddThenLookup(lifetime: nat, policy: UpdatePolicy, routes: map<Mac48Address, Route>,
                      d: Mac48Address, retransmitter: Mac48Address, interface: uint32,
                      cost: uint8, seqnum: uint16, now: nat, later: nat)
    requires d !in routes || !Live(routes[d], now)
    requires now <= later <= now + lifetime
    ensures Resolve(AddedRoutes(lifetime, policy, routes, d, retransmitter, interface, cost, seqnum, now), d, later)
            == LookupResult(retransmitter, interface, cost, seqnum)
  {
  }

  /** With the Overwrite policy the same round trip holds whatever the table held. */
  lemma OverwriteThenLookup(lifetime: nat, routes: map<Mac48Address, Route>,
                            d: Mac48Address, retransmitter: Mac48Address, interface: uint32,
                            cost: uint8, seqnum: uint16, now: nat, later: nat)
    requires now <= later <= now + lifetime
    ensures Resolve(AddedRoutes(lifetime, Overwrite, routes, d, retransmitter, interface, cost, seqnum, now), d, later)
            == LookupResult(retransmitter, interface, cost, seqnum)
  {
  }

  /** Once its lifetime has passed with no further AddPath, an added path is no longer found,
      whether the AddPath created, replaced, refreshed or ignored the entry, under every
      policy. The table must satisfy the expiry bound that every reachable table keeps
      (`FlameTrace.ReplayExpiresBy`). */
  lemma AddedPathExpires(lifetime: nat, policy: UpdatePolicy, routes: map<Mac48Address, Route>,
                         d: Mac48Address, retransmitter: Mac48Address, interface: uint32,
                         cost: uint8, seqnum: uint16, now: nat, later: nat)
    requires ExpiresBy(routes, now + lifetime)
    requires now + lifetime < later
    ensures Resolve(AddedRoutes(lifetime, policy, routes, d, retransmitter, interface, cost, seqnum, now), d, later)
            == NotFound()
  {
  }

  /** AddPath for one destination changes no answer for any other destination. */
  lemma AddPathLeavesOthers(lifetime: nat, policy: UpdatePolicy, routes: map<Mac48Address, Route>,
                            d: Mac48Address, retransmitter: Mac48Address, interface: uint32,
                            cost: uint8, seqnum: uint16, now: nat, x: Mac48Address, t: nat)
    requires x != d
    ensures Resolve(AddedRoutes(lifetime, policy, routes, d, retransmitter, interface, cost, seqnum, now), x, t)
            == Resolve(routes, x, t)
  {
  }

  /** Under SeqThenCost a strictly higher sequence number replaces a live entry,
      whatever the costs. */
  lemma HigherSeqReplaces(lifetime: nat, routes: map<Mac48Address, Route>,
                          d: Mac48Address, retransmitter: Mac48Address, interface: uint32,
                          cost: uint8, seqnum: uint16, now: nat, later: nat)
    requires d in routes && Live(routes[d], now)
    requires routes[d].seqnum as int < seqnum as int
    requires now <= later <= now + lifetime
    ensures Resolve(AddedRoutes(lifetime, SeqThenCost, routes, d, retransmitter, interface, cost, seqnum, now), d, later)
            == LookupResult(retransmitter, interface, cost, seqnum)
  {
  }

  /** Under SeqThenCost an equal sequence number with a strictly lower cost replaces a live
      entry. */
  lemma LowerCostReplaces(lifetime: nat, routes: map<Mac48Address, Route>,
                          d: Mac48Address, retransmitter: Mac48Address, interface: uint32,
                          cost: uint8, seqnum: uint16, now: nat, later: nat)
    requires d in routes && Live(routes[d], now)
    requires routes[d].seqnum as int == seqnum as int && (cost as int) < routes[d].cost as int
    requires now <= later <= now + lifetime
    ensures Resolve(AddedRoutes(lifetime, SeqThenCost, routes, d, retransmitter, interface, cost, seqnum, now), d, later)
            == LookupResult(retransmitter, interface, cost, seqnum)
  {
  }

  /** Under SeqThenCost an equal sequence number with an equal or higher cost keeps the
      stored path, answers as before, and renews the expiry. */
  lemma EqualSeqNoBetterCostRefreshes(lifetime: nat, routes: map<Mac48Address, Route>,
                                      d: Mac48Address, retransmitter: Mac48Address, interface: uint32,
                                      cost: uint8, seqnum: uint16, now: nat, later: nat)
    requires d in routes && Live(routes[d], now)
    requires routes[d].seqnum as int == seqnum as int && routes[d].cost as int <= cost as int
    requires now <= later <= now + lifetime
    ensures var m := AddedRoutes(lifetime, SeqThenCost, routes, d, retransmitter, interface, cost, seqnum, now);
            && m[d] == routes[d].(whenExpire := now + lifetime)
            && Resolve(m, d, later) == Resolve(routes, d, now)
  {
  }

  /** Under SeqThenCost a stale (strictly lower) sequence number changes nothing at all,
      not even the expiry. */
  lemma StaleSeqIgnored(lifetime: nat, routes: map<Mac48Address, Route>,
                        d: Mac48Address, retransmitter: Mac48Address, interface: uint32,
                        cost: uint8, seqnum: uint16, now: nat)
    requires d in routes && Live(routes[d], now)
    requires (seqnum as int) < routes[d].seqnum as int
    ensures AddedRoutes(lifetime, SeqThenCost, routes, d, retransmitter, interface, cost, seqnum, now) == routes
  {
  }

  /** Repeating an AddPath while its entry is still live changes only the expiry, which
      does not move backwards. */
  lemma AddPathIdempotent(lifetime: nat, policy: UpdatePolicy, routes: map<Mac48Address, Route>,
                          d: Mac48Address, retransmitter: Mac48Address, interface: uint32,
                          cost: uint8, seqnum: uint16, now: nat, now': nat)
    requires now <= now'
    requires now' <= AddedRoutes(lifetime, policy, routes, d, retransmitter, interface, cost, seqnum, now)[d].whenExpire
    ensures var once := AddedRoutes(lifetime, policy, routes, d, retransmitter, interface, cost, seqnum, now);
            var twice := AddedRoutes(lifetime, policy, once, d, retransmitter, interface, cost, seqnum, now');
            && twice.Keys == once.Keys
            && (forall x :: x in once && x != d ==> twice[x] == once[x])
            && twice[d] == once[d].(whenExpire := twice[d].whenExpire)
            && once[d].whenExpire <= twice[d].whenExpire
  {
  }

  /** The eviction Lookup performs is invisible to any later lookup: erasing an entry that
      has already expired changes no answer at `now` or afterwards. */
  lemma EvictionUnobservable(routes: map<Mac48Address, Route>, d: Mac48Address, now: nat,
                             x: Mac48Address, t: nat)
    requires now <= t
    ensures Resolve(Evicted(routes, d, now), x, t) == Resolve(routes, x, t)
  {
  }
}
