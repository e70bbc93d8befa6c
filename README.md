# FLAME routing table

A Dafny model of `FlameRtable`, the routing table of ns-3's FLAME mesh routing protocol.
The table holds at most one route per destination MAC address. Each route has a
retransmitter (the next hop), an interface index, a cost, a sequence number and an expiry
time. Routes are added with `AddPath` and queried with `Lookup`. When `Lookup` finds no
usable route it answers with the default-constructed `LookupResult`: the broadcast address,
`INTERFACE_ANY` (0xffffffff), `MAX_COST` (0xff) and sequence number 0.

Files:

- `mac48.dfy` (module `Mac48`): fixed-width integers, 48-bit addresses with the broadcast
  constant, and the C++ narrowing conversions from `uint32_t` to `uint8_t` and `uint16_t`.
- `flame_rtable.dfy` (module `Flame`): `LookupResult` with `IsValid` and `operator==`;
  the stored `Route`; the abstract table operations `AddedRoutes`, `Resolve` and `Evicted`;
  and the class `FlameRtable`. Its field `routes` is the `std::map` and its methods
  `AddPath` and `Lookup` update it in place. Each method is proved to follow its
  abstract operation and to keep the table invariant.
- `flame_properties.dfy` (module `FlameProperties`): properties of a single call. These
  cover the add-then-lookup round trip, expiry, independence of other destinations, the
  update rule's cases, repeating a call, and eviction.
- `flame_trace.dfy` (module `FlameTrace`): sequences of calls. It proves that the table
  invariant holds in every reachable table. It also proves that erasing expired entries in
  `Lookup` changes no answer when the clock does not go backwards.

Design decisions:

- The simulator clock becomes an explicit `now: nat` argument of `AddPath` and `Lookup`.
  The lifetime is a `nat` given to the constructor.
- A route is expired when its expiry time is strictly before `now`. `AddPath` sets the
  expiry to `now + lifetime`.
- The header passes cost as `uint8_t` and the sequence number as `uint16_t`. `Route`
  stores both in `uint32_t` fields, and `LookupResult` narrows them back to 8 and 16 bits.
  The model writes this narrowing out (`Narrow8`, `Narrow16`). The invariant `WellFormed`
  (cost at most `MAX_COST`, sequence number within 16 bits) shows that the narrowing never
  loses anything.
- The header does not say how `AddPath` treats an existing entry, so the rule is a
  configuration value `UpdatePolicy` fixed at construction:
  - `Overwrite`: the new path always replaces the stored one.
  - `SeqThenCost`: a strictly higher sequence number replaces the stored path. With an equal
    sequence number, a strictly lower cost replaces it, and otherwise only the expiry is
    renewed. A lower sequence number is ignored, and the expiry is not renewed.
  Under both rules an expired entry counts as absent and is recreated. The properties that
  hold under every rule are stated for an arbitrary policy. The rule-specific ones name
  their rule.
- `Lookup` is non-const. The model lets it erase the expired entry it meets, and
  `FlameTrace.LazyEvictionUnobservable` proves that this cannot be observed.
- `IsValid` is read as "differs from the default-constructed result", following the
  header's "Broadcast if not found".

## Model

| member | source | states |
|---|---|---|
| `Mac48.Narrow8` | src/mesh/model/flame/flame-rtable.h:114-121 | converting a stored 32-bit cost to the 8-bit result field keeps its value whenever it is at most 0xff |
| `Mac48.Narrow16` | src/mesh/model/flame/flame-rtable.h:114-121 | converting a stored 32-bit sequence number to the 16-bit result field keeps its value whenever it fits in 16 bits |
| `Flame.NotFound` | src/mesh/model/flame/flame-rtable.h:30-60 | the default LookupResult is exactly (broadcast, 0xffffffff, 0xff, 0), and it is not a valid route |
| `Flame.LookupResult.IsValid` | src/mesh/model/flame/flame-rtable.h:62-65 | a result is valid if and only if it differs from the default (broadcast, INTERFACE_ANY, MAX_COST, 0) |
| `Flame.LookupResult.Equals` | src/mesh/model/flame/flame-rtable.h:66-72 | field-wise comparison holds if and only if the two results are the same value |
| `Flame.Decide` | src/mesh/model/flame/flame-rtable.h:100-104 | the update rule for a live entry: Overwrite always replaces; SeqThenCost replaces exactly on a higher sequence number or an equal one with a lower cost, and ignores exactly a lower sequence number |
| `Flame.NewRoute` | src/mesh/model/flame/flame-rtable.h:114-124 | a new entry holds exactly the given retransmitter, interface, cost and sequence number (so cost is at most MAX_COST and the sequence number fits in 16 bits), and it expires at exactly `now + lifetime`: live then, expired one tick later |
| `Flame.AddedRoutes` | src/mesh/model/flame/flame-rtable.h:100-104 | AddPath leaves exactly one entry for the destination, does not change any other entry, keeps the cost and sequence-number bounds, and keeps every expiry at most `now + lifetime` when the table already met that bound for an earlier clock |
| `Flame.Resolve` | src/mesh/model/flame/flame-rtable.h:105-110 | Lookup answers the default (broadcast) result when there is no entry or it has expired, and otherwise the stored fields without truncation |
| `Flame.Evicted` | src/mesh/model/flame/flame-rtable.h:105-110 | Lookup erases the destination's entry only when it has expired and keeps every other entry unchanged |
| `Flame.FlameRtable.constructor` | src/mesh/model/flame/flame-rtable.h:82 | a new table is empty and has the given lifetime |
| `Flame.FlameRtable.AddPath` | src/mesh/model/flame/flame-rtable.h:100-104 | the map after the call is `AddedRoutes` of the map before it, and the cost and sequence-number bounds still hold |
| `Flame.FlameRtable.Lookup` | src/mesh/model/flame/flame-rtable.h:105-110 | the answer is `Resolve` of the map before the call, and the map afterwards is `Evicted` of it |
| `FlameProperties.LookupValidIff` | src/mesh/model/flame/flame-rtable.h:62-65 | Lookup gives a valid result if and only if a live entry exists whose fields differ from the default result's |
| `FlameProperties.AddThenLookup` | src/mesh/model/flame/flame-rtable.h:100-110 | under every policy, AddPath on a destination with no live entry followed by Lookup before expiry returns exactly the added retransmitter, interface, cost and sequence number |
| `FlameProperties.OverwriteThenLookup` | src/mesh/model/flame/flame-rtable.h:100-110 | under Overwrite, the same round trip holds whatever the table held before |
| `FlameProperties.AddedPathExpires` | src/mesh/model/flame/flame-rtable.h:105-110 | under every policy, and whether AddPath created, replaced, refreshed or ignored the entry, Lookup of the destination after `now + lifetime` gives the default result, for every table whose expiries are bounded by `now + lifetime` |
| `FlameProperties.AddPathLeavesOthers` | src/mesh/model/flame/flame-rtable.h:100-104 | AddPath for one destination changes no Lookup answer for any other destination at any time |
| `FlameProperties.HigherSeqReplaces` | src/mesh/model/flame/flame-rtable.h:100-104 | under SeqThenCost, a higher sequence number replaces a live entry whatever the costs |
| `FlameProperties.LowerCostReplaces` | src/mesh/model/flame/flame-rtable.h:100-104 | under SeqThenCost, an equal sequence number with a strictly lower cost replaces a live entry |
| `FlameProperties.EqualSeqNoBetterCostRefreshes` | src/mesh/model/flame/flame-rtable.h:100-104 | under SeqThenCost, an equal sequence number without a lower cost keeps the stored path and its answer, and renews only the expiry |
| `FlameProperties.StaleSeqIgnored` | src/mesh/model/flame/flame-rtable.h:100-104 | under SeqThenCost, a lower sequence number leaves the table unchanged, expiry included |
| `FlameProperties.AddPathIdempotent` | src/mesh/model/flame/flame-rtable.h:100-104 | repeating an AddPath while its entry is live changes only that entry's expiry, which does not move backwards |
| `FlameProperties.EvictionUnobservable` | src/mesh/model/flame/flame-rtable.h:105-110 | erasing an expired entry during Lookup changes no answer at that time or later |
| `FlameTrace.Replay` | src/mesh/model/flame/flame-rtable.h:100-110 | replaying a sequence of AddPath and Lookup calls yields exactly one answer per Lookup call |
| `FlameTrace.ReplayKeepsWellFormed` | src/mesh/model/flame/flame-rtable.h:100-126 | after any sequence of AddPath and Lookup calls, every stored cost is at most MAX_COST and every sequence number fits in 16 bits |
| `FlameTrace.ReplayExpiresBy` | src/mesh/model/flame/flame-rtable.h:100-124 | with a non-decreasing clock, no stored entry ever expires later than the latest clock plus the lifetime, after any sequence of AddPath and Lookup calls |
| `FlameTrace.UntouchedEntryKept` | src/mesh/model/flame/flame-rtable.h:100-126 | a call sequence with no AddPath for a destination never creates or changes that destination's entry |
| `FlameTrace.PathExpiresWithoutRefresh` | src/mesh/model/flame/flame-rtable.h:100-124 | after AddPath for a destination, any calls with no further AddPath for it, and a Lookup after `now + lifetime`, the answer is the default result under every policy |
| `FlameTrace.AgreeingRunsAnswerAlike` | src/mesh/model/flame/flame-rtable.h:105-110 | with a non-decreasing clock, an evicting run on a table that lacks only entries already expired gives the same Lookup answers as a non-evicting run on the full table, along any call sequence |
| `FlameTrace.LazyEvictionUnobservable` | src/mesh/model/flame/flame-rtable.h:105-110 | with a non-decreasing clock, a table whose Lookup erases expired entries answers every call sequence exactly as one that never erases |

## Left out

- flame-rtable.cc is not part of this model. Three things are therefore modelled from the
  header's declarations and documentation alone: the bodies of `AddPath`, `Lookup`,
  `IsValid` and `operator==`; `AddPath`'s treatment of an existing entry, which is the
  `UpdatePolicy` parameter; and the exact expiry comparison.
- The `LookupResult` constructor's partial-default forms (some arguments given, the rest
  defaulted) are not modelled. Only the all-defaults value (`NotFound`) and the
  all-arguments value (the datatype constructor) are, and no table operation uses the others.
- `Object` machinery (`GetTypeId`, `DoDispose`, the destructor, the deleted copy
  operations) is not modelled. The lifetime is a constructor argument, not a configurable
  attribute, and its default value is not modelled.
- `Flame.FlameRtable.constructor`: takes the lifetime and the update policy as arguments,
  whereas the source's constructor takes none and reads the lifetime from an attribute.
- Time is a non-negative unbounded integer. The 64-bit range of `Time` and any overflow of
  `now + lifetime` are not modelled.
- `Mac48Address` is a 48-bit number compared only for equality. The map's key ordering is
  not modelled because it does not affect any answer.
- Sequence-number wrap-around is not modelled. Sequence numbers compare as plain integers.
- A periodic sweep of all expired entries is not modelled, because the header declares none.
