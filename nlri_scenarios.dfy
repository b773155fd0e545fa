/** The unit tests that accompany the NLRI records, stated as lemmas over
    concrete values: the prefixes 10.0.2.0/24 and 2001:db8::/32 and the next
    hop 10.0.2.1. */
module NlriScenarios {
  import opened Wrappers
  import opened AddressFamily
  import opened Network
  import opened BgpNlri

  /** 10.0.2.0/24 */
  const V4Prefix := NetworkPrefix(IpNet.V4(0x0A00_0200, 24))

  /** 2001:db8::/32 */
  const V6Prefix := NetworkPrefix(IpNet.V6(0x2001_0db8_0000_0000_0000_0000_0000_0000, 32))

  /** 10.0.2.1 */
  const V4NextHop := IpAddr.V4Addr(0x0A00_0201)

  /** An announcement of an IPv4 prefix is an IPv4, reachable record whose
      next hop is the address it was built with. */
  lemma ReachableIpv4Announcement()
    ensures Nlri.NewReachable(V4Prefix, Some(V4NextHop)).IsIpv4()
    ensures !Nlri.NewReachable(V4Prefix, Some(V4NextHop)).IsIpv6()
    ensures Nlri.NewReachable(V4Prefix, Some(V4NextHop)).IsReachable()
    ensures Nlri.NewReachable(V4Prefix, Some(V4NextHop)).NextHopAddr() == V4NextHop
  {
  }

  /** A withdrawal of an IPv6 prefix is an IPv6 record without a next hop. */
  lemma UnreachableIpv6Withdrawal()
    ensures Nlri.NewUnreachable(V6Prefix).IsIpv6()
    ensures !Nlri.NewUnreachable(V6Prefix).IsReachable()
  {
  }

  /** A withdrawal of an IPv4 prefix does not meet the precondition of the
      next-hop accessor, so a caller that asks it for a next hop cannot be
      verified. */
  lemma UnreachableHasNoNextHopAddr()
    ensures !Nlri.NewUnreachable(V4Prefix).IsReachable()
  {
  }

  /** A multiprotocol announcement keeps the families, the next hop and the
      single prefix it was given. */
  lemma MpReachableStoresArguments()
    ensures MpReachableNlri.New(Afi.Ipv4, Safi.Unicast, NextHopAddress.From(V4NextHop), [V4Prefix]).afi == Afi.Ipv4
    ensures MpReachableNlri.New(Afi.Ipv4, Safi.Unicast, NextHopAddress.From(V4NextHop), [V4Prefix]).safi == Safi.Unicast
    ensures MpReachableNlri.New(Afi.Ipv4, Safi.Unicast, NextHopAddress.From(V4NextHop), [V4Prefix]).nextHop.Addr() == V4NextHop
    ensures |MpReachableNlri.New(Afi.Ipv4, Safi.Unicast, NextHopAddress.From(V4NextHop), [V4Prefix]).prefixes| == 1
  {
  }

  /** A multiprotocol withdrawal keeps the families and the single prefix it
      was given. */
  lemma MpUnreachableStoresArguments()
    ensures MpUnreachableNlri.New(Afi.Ipv4, Safi.Unicast, [V4Prefix]).afi == Afi.Ipv4
    ensures MpUnreachableNlri.New(Afi.Ipv4, Safi.Unicast, [V4Prefix]).safi == Safi.Unicast
    ensures |MpUnreachableNlri.New(Afi.Ipv4, Safi.Unicast, [V4Prefix]).prefixes| == 1
  {
  }

  /** Iterating the announcement yields exactly its one network. */
  lemma ReachableIteration()
    ensures Nlri.NewReachable(V4Prefix, Some(V4NextHop)).IntoIter() == [IpNet.V4(0x0A00_0200, 24)]
    ensures Nlri.NewReachable(V4Prefix, Some(V4NextHop)).Iter() == [IpNet.V4(0x0A00_0200, 24)]
  {
  }
}
