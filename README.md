# BGP NLRI records in Dafny

This project models the in-memory shape of BGP Network Layer Reachability
Information as the bgpkit parser keeps it (`src/models/bgp/attributes/nlri.rs`):

- `Nlri`, the legacy per-address-family record of an UPDATE message
  (section 4.3 of RFC 4271): an AFI, a SAFI, an optional next hop and an ordered
  sequence of prefixes. The optional next hop alone tells an announcement from a
  withdrawal. Its two constructors, `new_reachable` and `new_unreachable`, derive
  the AFI from the IPv4/IPv6 tag of the prefix instead of taking it as an
  argument, always use SAFI Unicast and store a one-element prefix sequence.
  Iterating a record, by value or through a reference, yields the IP network of
  each prefix in stored order.
- `MpReachableNlri` (MP_REACH_NLRI, section 3 of RFC 4760): families given
  explicitly, a mandatory next hop, prefixes; stored verbatim.
- `MpUnreachableNlri` (MP_UNREACH_NLRI, section 4 of RFC 4760): families and
  prefixes only; the type has no next-hop field at all, so no value of it can
  expose one.

Everything is pure: every record is a `datatype`, every operation a
`function`, and the properties are the functions' `ensures` clauses and
lemmas beside them.

Files:

- `wrappers.dfy`: `Option`, for Rust's `Option`.
- `afi.dfy`: `Afi` (`Ipv4`, `Ipv6`) and `Safi` (`Unicast`, `Multicast`,
  `UnicastMulticast`).
- `network.dfy`: `IpAddr`, `IpNet` (an address of 32 or 128 bits and a prefix
  length bounded by 32 or 128), `NetworkPrefix` (a wrapper with a `prefix`
  field) and `NextHopAddress` with `From` and `Addr`.
- `nlri.dfy`: the three record types, their operations and lemmas.
- `nlri_scenarios.dfy`: the unit tests of `nlri.rs` as lemmas over the concrete
  prefixes 10.0.2.0/24 and 2001:db8::/32 and the next hop 10.0.2.1.

Design choices:

- The panic of `next_hop_addr` on a record without a next hop becomes the
  precondition `requires IsReachable()`. A caller that may hold a withdrawal
  must check `IsReachable()` first or it does not verify.
- `NextHopAddress` is defined outside `nlri.rs`. The model keeps only what
  `nlri.rs` relies on: the conversion `From` from a plain address and the
  single representative address `Addr()`, with `From(a).Addr() == a` (the
  round trip the test of `MpReachableNlri::new` asserts).
- Iteration is a sequence-valued function (`IntoIter`, `Iter`) computed by the
  recursive projection `Networks`, not a stateful iterator.
- `FamilyConsistent()` states the design invariant that every prefix belongs
  to the record's AFI. Both legacy constructors establish it; the
  multiprotocol constructors do not check it, as in the source.

## Model

| member | source | states |
|---|---|---|
| `BgpNlri.Networks` | src/models/bgp/attributes/nlri.rs:80 | the projection has one network per prefix, and element i is the `prefix` of prefix i |
| `BgpNlri.Nlri.IsIpv4` | src/models/bgp/attributes/nlri.rs:21-23 | on a family-consistent record, for every stored prefix, `is_ipv4` holds exactly when that prefix is IPv4; on a non-empty one, exactly when all its prefixes are IPv4 |
| `BgpNlri.Nlri.IsIpv6` | src/models/bgp/attributes/nlri.rs:26-28 | on a family-consistent record, for every stored prefix, `is_ipv6` holds exactly when that prefix is IPv6; on a non-empty one, exactly when all its prefixes are IPv6 |
| `BgpNlri.ReachabilityByConstructor` | src/models/bgp/attributes/nlri.rs:31-69 | `new_reachable(p, h)` is reachable exactly when h is present; `new_unreachable(p)` never is |
| `BgpNlri.ReachableHasAddr` | src/models/bgp/attributes/nlri.rs:31-43 | a record whose next hop was made from address a is reachable, so the accessor may be called, and it returns a |
| `BgpNlri.NoNextHopIsUnreachable` | src/models/bgp/attributes/nlri.rs:31-43 | a record without a next hop is not reachable, so the next-hop accessor cannot be called on it |
| `BgpNlri.EmptyRecordIsPermitted` | src/models/bgp/attributes/nlri.rs:12-17 | a record with no prefixes is accepted and family-consistent for any family, and it iterates to nothing |
| `BgpNlri.Nlri.NextHopAddr` | src/models/bgp/attributes/nlri.rs:35-43 | defined only on a reachable record; for a next hop made from address h it returns h |
| `BgpNlri.Nlri.NewReachable` | src/models/bgp/attributes/nlri.rs:45-58 | AFI Ipv4 for a V4 prefix and Ipv6 for a V6 prefix; SAFI Unicast; prefixes exactly `[prefix]`; family-consistent; reachable if and only if a next hop is given, and then `NextHopAddr()` returns that address |
| `BgpNlri.Nlri.NewUnreachable` | src/models/bgp/attributes/nlri.rs:60-72 | AFI derived from the prefix as above; SAFI Unicast; prefixes exactly `[prefix]`; family-consistent; no next hop and not reachable |
| `BgpNlri.Nlri.IntoIter` | src/models/bgp/attributes/nlri.rs:75-82 | consuming iteration yields `prefixes[i].prefix` for every i, in stored order, and as many networks as prefixes |
| `BgpNlri.Nlri.Iter` | src/models/bgp/attributes/nlri.rs:84-91 | borrowed iteration is the consuming one taken without giving up the record: `prefixes[i].prefix` for every i, in stored order, as many as prefixes |
| `BgpNlri.FamilyPredicatesExclusive` | src/models/bgp/attributes/nlri.rs:21-28 | `is_ipv4` and `is_ipv6` never hold together; that one of them always holds is a consequence of the model's two-variant `Afi` |
| `BgpNlri.AfiIndependentOfNextHop` | src/models/bgp/attributes/nlri.rs:45-64 | the derived AFI does not depend on the next hop and is the same for both legacy constructors |
| `BgpNlri.NewReachableWithoutNextHop` | src/models/bgp/attributes/nlri.rs:45-72 | `new_reachable(p, None)` builds the same record as `new_unreachable(p)` |
| `BgpNlri.IterationViewsAgree` | src/models/bgp/attributes/nlri.rs:75-91 | the consuming and the borrowed iteration yield the same sequence |
| `BgpNlri.IterationFamily` | src/models/bgp/attributes/nlri.rs:75-82 | on a family-consistent record every iterated network has the record's AFI |
| `BgpNlri.MpReachableNlri.New` | src/models/bgp/attributes/nlri.rs:103-115 | AFI, SAFI, next hop and prefixes are stored exactly as given |
| `BgpNlri.MpUnreachableNlri.New` | src/models/bgp/attributes/nlri.rs:127-133 | AFI, SAFI and prefixes are stored exactly as given |
| `BgpNlri.MpReachableNextHopRoundTrip` | src/models/bgp/attributes/nlri.rs:177-188 | an announcement built with `NextHopAddress::from(a)` reports `a` as its next-hop address |
| `Network.NextHopAddress.From` | src/models/bgp/attributes/nlri.rs:46 | converting a plain address to a next hop and reading its address back gives the same address |
| `NlriScenarios.ReachableIpv4Announcement` | src/models/bgp/attributes/nlri.rs:142-166 | `new_reachable(10.0.2.0/24, Some(10.0.2.1))` is IPv4, not IPv6, reachable, with next-hop address 10.0.2.1 |
| `NlriScenarios.UnreachableIpv6Withdrawal` | src/models/bgp/attributes/nlri.rs:152-156 | `new_unreachable(2001:db8::/32)` is IPv6 and not reachable |
| `NlriScenarios.UnreachableHasNoNextHopAddr` | src/models/bgp/attributes/nlri.rs:168-174 | `new_unreachable(10.0.2.0/24)` fails the precondition of the next-hop accessor |
| `NlriScenarios.MpReachableStoresArguments` | src/models/bgp/attributes/nlri.rs:177-190 | `MpReachableNlri::new(Ipv4, Unicast, from(10.0.2.1), [10.0.2.0/24])` keeps Ipv4, Unicast, next-hop address 10.0.2.1 and one prefix |
| `NlriScenarios.MpUnreachableStoresArguments` | src/models/bgp/attributes/nlri.rs:193-203 | `MpUnreachableNlri::new(Ipv4, Unicast, [10.0.2.0/24])` keeps Ipv4, Unicast and one prefix |
| `NlriScenarios.ReachableIteration` | src/models/bgp/attributes/nlri.rs:79-90 | iterating `new_reachable(10.0.2.0/24, …)` either way yields exactly `[10.0.2.0/24]` |

## Left out

- `src/wasm.rs`: the WebAssembly binding over the streaming parser is I/O and
  foreign-call plumbing (byte cursors, JSON serialisation, JavaScript errors)
  with no logic of its own.
- The serde `Serialize`/`Deserialize` derives on the three records: the code is
  generated by a library outside this model, so the serialisation round trip
  is not stated.
- The variants of `NextHopAddress` (single address, global and link-local
  IPv6 pair) and its rule for choosing the representative address are defined
  outside `nlri.rs`; the model holds one representative address.
- `NetworkPrefix` is reduced to its `prefix` field; any other field of the
  real type is defined outside `nlri.rs` and ignored by the code modelled here.
- `NetworkPrefix::from_str` and address parsing, used only by the tests: the
  scenarios build their prefixes directly as values.
- `Afi` and `Safi` are defined outside `nlri.rs`, and their wire codes are
  not modelled. `Afi` has exactly `Ipv4` and `Ipv6`. As a result,
  `FamilyPredicatesExclusive`'s clause that one of the two predicates always
  holds comes from that closed set, not from the source. `nlri.rs` uses only
  `Safi::Unicast`. `Multicast` and `UnicastMulticast` are there so that
  "the SAFI is Unicast" rules out other values.
- The Rust iterator adapter types and the move/borrow distinction between the
  two iteration views: both are modelled as the same sequence of values.
- Non-empty prefix sequences are not enforced, as in the source: a legacy
  record or a multiprotocol constructor may hold an empty sequence
  (`EmptyRecordIsPermitted`). On such a record the family predicates say
  nothing about prefixes.
