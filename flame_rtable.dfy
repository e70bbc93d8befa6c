/** The FLAME mesh routing table: one route per destination MAC address, each with a
    retransmitter (next hop), an interface, a cost, a sequence number and an expiry time.
    Time is a caller-supplied `now` instead of the simulator clock. */
module Flame {
  import opened Mac48

  /** Means all interfaces. */
  const INTERFACE_ANY: uint32 := 0xffff_ffff
  /** The largest path cost; it also marks "no route". */
  const MAX_COST: uint32 := 0xff

  /** Value returned by Lookup. */
  datatype LookupResult = LookupResult(
    retransmitter: Mac48Address,
    ifIndex: uint32,
    cost: uint8,
    seqnum: uint16)
  {
    /** A result is a usable route exactly when it differs from the default-constructed
        value (broadcast, any interface, maximal cost, sequence number 0). */
    predicate IsValid(): (b: bool)
      ensures b <==> this != LookupResult(BROADCAST, INTERFACE_ANY, 0xff, 0)
    {
      !(retransmitter == BROADCAST && ifIndex == INTERFACE_ANY
        && cost as int == MAX_COST as int && seqnum == 0)
    }

    /** Field-wise comparison; it coincides with equality of the values. */
    predicate Equals(o: LookupResult): (b: bool)
      ensures b <==> this == o
    {
      retransmitter == o.retransmitter && ifIndex == o.ifIndex
      && cost == o.cost && seqnum == o.seqnum
    }
  }

  /** The default-constructed LookupResult: broadcast, any interface, maximal cost,
      sequence number 0. */
  function NotFound(): (r: LookupResult)
    ensures r.retransmitter == BROADCAST && r.ifIndex as int == 0xffff_ffff
    ensures r.cost as int == 0xff && r.seqnum == 0
    ensures !r.IsValid()
  {
    LookupResult(BROADCAST, INTERFACE_ANY, MAX_COST as int as uint8, 0)
  }

  /** A stored routing table entry. Cost and sequence number are held in 32 bits. */
  datatype Route = Route(
    retransmitter: Mac48Address,
    interface: uint32,
    cost: uint32,
    whenExpire: nat,
    seqnum: uint32)

  /** A route is expired once its expiry time lies strictly before `now`. */
  predicate Live(r: Route, now: nat) {
    now <= r.whenExpire
  }

  /** Every stored cost fits in 8 bits and every stored sequence number in 16 bits,
      as AddPath only ever receives such values. */
  ghost predicate WellFormed(routes: map<Mac48Address, Route>) {
    forall d :: d in routes ==> routes[d].cost <= MAX_COST && routes[d].seqnum <= 0xffff
  }

  /** No stored route outlives `limit`: with `limit` the latest clock plus the lifetime,
      this holds of every table reachable from an empty one. */
  ghost predicate ExpiresBy(routes: map<Mac48Address, Route>, limit: nat) {
    forall d :: d in routes ==> routes[d].whenExpire <= limit
  }

  /** How AddPath treats an existing, unexpired entry. The rule is a configuration choice
      of this model: the header that declares AddPath does not fix it. */
  datatype UpdatePolicy =
    | Overwrite    // the new path always replaces the stored one
    | SeqThenCost  // a higher sequence number wins; on a tie a strictly lower cost wins

  /** What AddPath does to an existing, unexpired entry. */
  datatype Decision =
    | Replace  // store the new path with a fresh expiry
    | Refresh  // keep the stored path, renew its expiry
    | Ignore   // leave the entry exactly as it is

  /** The update rule applied to a live stored route and an offered (cost, seqnum). */
  function Decide(policy: UpdatePolicy, stored: Route, cost: uint8, seqnum: uint16): (d: Decision)
    ensures policy == Overwrite ==> d == Replace
    ensures policy == SeqThenCost ==>
      && (d == Replace <==>
            (seqnum as int > stored.seqnum as int
             || (seqnum as int == stored.seqnum as int && (cost as int) < stored.cost as int)))
      && (d == Ignore <==> (seqnum as int) < stored.seqnum as int)
  {
    match policy
    case Overwrite => Replace
    case SeqThenCost =>
      if seqnum as int > stored.seqnum as int then Replace
      else if (seqnum as int) < stored.seqnum as int then Ignore
      else if (cost as int) < stored.cost as int then Replace
      else Refresh
  }

  /** The entry AddPath creates at time `now`. */
  function NewRoute(retransmitter: Mac48Address, interface: uint32, cost: uint8, seqnum: uint16,
                    now: nat, lifetime: nat): (r: Route)
    ensures r.retransmitter == retransmitter && r.interface == interface
    ensures r.cost as int == cost as int && r.seqnum as int == seqnum as int
    ensures r.cost <= MAX_COST && r.seqnum <= 0xffff
    ensures Live(r, now + lifetime) && !Live(r, now + lifetime + 1)
  {
    Route(retransmitter, interface, cost as int as uint32, now + lifetime, seqnum as int as uint32)
  }

  /** The table after AddPath(destination, retransmitter, interface, cost, seqnum) at `now`.
      A missing or expired entry is (re)created; a live one is handled by Decide. */
  function AddedRoutes(lifetime: nat, policy: UpdatePolicy, routes: map<Mac48Address, Route>,
                       destination: Mac48Address, retransmitter: Mac48Address, interface: uint32,
                       cost: uint8, seqnum: uint16, now: nat): (m: map<Mac48Address, Route>)
    ensures m.Keys == routes.Keys + {destination}
    ensures forall d :: d in routes && d != destination ==> m[d] == routes[d]
    ensures WellFormed(routes) ==> WellFormed(m)
    ensures forall limit: nat :: limit <= now + lifetime && ExpiresBy(routes, limit) ==> ExpiresBy(m, now + lifetime)
  {
    if destination !in routes || !Live(routes[destination], now) then
      routes[destination := NewRoute(retransmitter, interface, cost, seqnum, now, lifetime)]
    else
      var stored := routes[destination];
      match Decide(policy, stored, cost, seqnum)
      case Replace => routes[destination := NewRoute(retransmitter, interface, cost, seqnum, now, lifetime)]
      case Refresh => routes[destination := stored.(whenExpire := now + lifetime)]
      case Ignore => routes
  }

  /** What Lookup(destination) answers at `now`: the stored fields of a live entry,
      otherwise the "not found" value. */
  function Resolve(routes: map<Mac48Address, Route>, destination: Mac48Address, now: nat): (r: LookupResult)
    ensures destination !in routes ==> r == NotFound()
    ensures destination in routes && !Live(routes[destination], now) ==> r == NotFound()
    ensures WellFormed(routes) && destination in routes && Live(routes[destination], now) ==>
      var s := routes[destination];
      r.retransmitter == s.retransmitter && r.ifIndex == s.interface
      && r.cost as int == s.cost as int && r.seqnum as int == s.seqnum as int
  {
    if destination !in routes || !Live(routes[destination], now) then NotFound()
    else
      var s := routes[destination];
      LookupResult(s.retransmitter, s.interface, Narrow8(s.cost), Narrow16(s.seqnum))
  }

  /** The table after Lookup(destination) at `now`: an expired entry for the destination is
      erased, and nothing else changes. */
  function Evicted(routes: map<Mac48Address, Route>, destination: Mac48Address, now: nat): (m: map<Mac48Address, Route>)
    ensures forall d :: d in m <==> d in routes && (d != destination || Live(routes[d], now))
    ensures forall d :: d in m ==> m[d] == routes[d]
  {
    if destination in routes && !Live(routes[destination], now) then routes - {destination}
    else routes
  }

  /** FLAME routing table. */
  class FlameRtable {
    /** Lifetime given to a path each time it is added or refreshed. */
    const lifetime: nat
    /** Rule for an AddPath that meets an existing unexpired entry. */
    const policy: UpdatePolicy
    /** The routes, one per destination. */
    var routes: map<Mac48Address, Route>

    ghost predicate Valid()
      reads this
    {
      WellFormed(routes)
    }

    constructor (lifetime: nat, policy: UpdatePolicy)
      ensures Valid()
      ensures this.lifetime == lifetime && this.policy == policy && routes == map[]
    {
      this.lifetime := lifetime;
      this.policy := policy;
      routes := map[];
    }

    /** Add or update the path to `destination`. */
    method AddPath(destination: Mac48Address, retransmitter: Mac48Address, interface: uint32,
                   cost: uint8, seqnum: uint16, now: nat)
      requires Valid()
      modifies this
      ensures Valid()
      ensures routes == AddedRoutes(lifetime, policy, old(routes), destination, retransmitter,
                                    interface, cost, seqnum, now)
    {
      if destination !in routes || routes[destination].whenExpire < now {
        routes := routes[destination := NewRoute(retransmitter, interface, cost, seqnum, now, lifetime)];
        return;
      }
      var stored := routes[destination];
      var decision := Decide(policy, stored, cost, seqnum);
      if decision == Replace {
        routes := routes[destination := NewRoute(retransmitter, interface, cost, seqnum, now, lifetime)];
      } else if decision == Refresh {
        routes := routes[destination := stored.(whenExpire := now + lifetime)];
      }
    }

    /** Look up the path to `destination`; the "not found" value if there is none.
        An expired entry met on the way is erased. */
    method Lookup(destination: Mac48Address, now: nat) returns (r: LookupResult)
      requires Valid()
      modifies this
      ensures Valid()
      ensures r == Resolve(old(routes), destination, now)
      ensures routes == Evicted(old(routes), destination, now)
    {
      if destination !in routes {
        return NotFound();
      }
      var route := routes[destination];
      if route.whenExpire < now {
        routes := routes - {destination};
        return NotFound();
      }
      r := LookupResult(route.retransmitter, route.interface, Narrow8(route.cost), Narrow16(route.seqnum));
    }
  }
}
