/** Network Layer Reachability Information in its three in-memory shapes: the
    legacy NLRI field of an UPDATE message (section 4.3 of RFC 4271), and the
    MP_REACH_NLRI and MP_UNREACH_NLRI attributes (sections 3 and 4 of
    RFC 4760). */
module BgpNlri {
  import opened Wrappers
  import opened AddressFamily
  import opened Network

  /** The address family of an IP network, read off its IPv4/IPv6 tag. */
  function AfiOf(net: IpNet): (a: Afi)
  {
    match net
    case V4(_, _) => Afi.Ipv4
    case V6(_, _) => Afi.Ipv6
  }

  /** The IP networks of a sequence of prefixes, one per prefix, in order. */
  function Networks(ps: seq<NetworkPrefix>): (nets: seq<IpNet>)
    ensures |nets| == |ps|
    ensures forall i :: 0 <= i < |ps| ==> nets[i] == ps[i].prefix
  {
    if ps == [] then [] else [ps[0].prefix] + Networks(ps[1..])
  }

  /** A legacy per-address-family reachability record. The optional next hop
      alone tells an announcement from a withdrawal. */
  datatype Nlri = Nlri(
    afi: Afi,
    safi: Safi,
    nextHop: Option<NextHopAddress>,
    prefixes: seq<NetworkPrefix>)
  {
    /** Every prefix belongs to the address family the record names. */
    predicate FamilyConsistent()
    {
      forall i :: 0 <= i < |prefixes| ==> AfiOf(prefixes[i].prefix) == afi
    }

    /** The record refers to the IPv4 address space. On a family-consistent
        record, for every stored prefix this says that prefix is an IPv4
        network; on a non-empty one it says all its prefixes are. */
    function IsIpv4(): (r: bool)
      ensures FamilyConsistent() ==>
        forall i :: 0 <= i < |prefixes| ==> (r <==> prefixes[i].prefix.V4?)
      ensures FamilyConsistent() && |prefixes| > 0 ==>
        (r <==> forall i :: 0 <= i < |prefixes| ==> prefixes[i].prefix.V4?)
    {
      // On a non-empty record the first prefix witnesses the family.
      assert FamilyConsistent() && |prefixes| > 0 ==> AfiOf(prefixes[0].prefix) == afi;
      afi.Ipv4?
    }

    /** The record refers to the IPv6 address space. On a family-consistent
        record, for every stored prefix this says that prefix is an IPv6
        network; on a non-empty one it says all its prefixes are. */
    function IsIpv6(): (r: bool)
      ensures FamilyConsistent() ==>
        forall i :: 0 <= i < |prefixes| ==> (r <==> prefixes[i].prefix.V6?)
      ensures FamilyConsistent() && |prefixes| > 0 ==>
        (r <==> forall i :: 0 <= i < |prefixes| ==> prefixes[i].prefix.V6?)
    {
      // On a non-empty record the first prefix witnesses the family.
      assert FamilyConsistent() && |prefixes| > 0 ==> AfiOf(prefixes[0].prefix) == afi;
      afi.Ipv6?
    }

    /** The record announces reachable prefixes: it carries a next hop. */
    predicate IsReachable()
    {
      nextHop.Some?
    }

    /** The address of the next hop. Only a reachable record has one; asking
        an unreachable record for it is a caller error, hence the
        precondition. */
    function NextHopAddr(): (a: IpAddr)
      requires IsReachable()
      ensures forall h :: nextHop == Some(NextHopAddress.From(h)) ==> a == h
    {
      nextHop.value.Addr()
    }

    /** An announcement of one prefix. The address family is taken from the
        prefix, never from the next hop; the record is reachable exactly when
        a next hop is given, and then reports that address back. */
    static function NewReachable(prefix: NetworkPrefix, nextHop: Option<IpAddr>): (n: Nlri)
      ensures prefix.prefix.V4? ==> n.afi == Afi.Ipv4 && n.IsIpv4()
      ensures prefix.prefix.V6? ==> n.afi == Afi.Ipv6 && n.IsIpv6()
      ensures n.safi == Safi.Unicast
      ensures n.prefixes == [prefix]
      ensures n.FamilyConsistent()
      ensures n.IsReachable() <==> nextHop.Some?
      ensures nextHop.Some? ==> n.NextHopAddr() == nextHop.value
    {
      var hop := match nextHop
        case Some(a) => Some(NextHopAddress.From(a))
        case None => None;
      Nlri(AfiOf(prefix.prefix), Safi.Unicast, hop, [prefix])
    }

    /** A withdrawal of one prefix: the address family is taken from the
        prefix and the record has no next hop. */
    static function NewUnreachable(prefix: NetworkPrefix): (n: Nlri)
      ensures prefix.prefix.V4? ==> n.afi == Afi.Ipv4 && n.IsIpv4()
      ensures prefix.prefix.V6? ==> n.afi == Afi.Ipv6 && n.IsIpv6()
      ensures n.safi == Safi.Unicast
      ensures n.prefixes == [prefix]
      ensures n.FamilyConsistent()
      ensures n.nextHop == None && !n.IsReachable()
    {
      Nlri(AfiOf(prefix.prefix), Safi.Unicast, None, [prefix])
    }

    /** Iteration that consumes the record: the IP network of every stored
        prefix, in stored order. */
    function IntoIter(): (nets: seq<IpNet>)
      ensures |nets| == |prefixes|
      ensures forall i :: 0 <= i < |prefixes| ==> nets[i] == prefixes[i].prefix
    {
      Networks(prefixes)
    }

    /** Iteration through a borrowed record: the same networks, in the same
        order, without giving up the record. */
    function Iter(): (nets: seq<IpNet>)
      ensures |nets| == |prefixes|
      ensures forall i :: 0 <= i < |prefixes| ==> nets[i] == prefixes[i].prefix
    {
      IntoIter()
    }
  }

  /** The two address-family predicates never hold together, since both
      match the one `afi` field. The second clause holds only because the
      model's `Afi` has exactly the two families. */
  lemma FamilyPredicatesExclusive(n: Nlri)
    ensures !(n.IsIpv4() && n.IsIpv6())
    ensures n.IsIpv4() || n.IsIpv6()
  {
  }

  /** The address family a legacy constructor derives does not depend on the
      next hop, and is the same for an announcement and a withdrawal. */
  lemma AfiIndependentOfNextHop(prefix: NetworkPrefix, h1: Option<IpAddr>, h2: Option<IpAddr>)
    ensures Nlri.NewReachable(prefix, h1).afi == Nlri.NewReachable(prefix, h2).afi
    ensures Nlri.NewReachable(prefix, h1).afi == Nlri.NewUnreachable(prefix).afi
  {
  }

  /** Reachability is decided by the constructor: an announcement is
      reachable exactly when it is given a next hop, a withdrawal never is. */
  lemma ReachabilityByConstructor(prefix: NetworkPrefix, nextHop: Option<IpAddr>)
    ensures Nlri.NewReachable(prefix, nextHop).IsReachable() <==> nextHop.Some?
    ensures !Nlri.NewUnreachable(prefix).IsReachable()
  {
  }

  /** A record that carries a next hop made from an address is reachable, so
      the next-hop accessor may be called on it, and it reports that
      address. */
  lemma ReachableHasAddr(n: Nlri, a: IpAddr)
    requires n.nextHop == Some(NextHopAddress.From(a))
    ensures n.IsReachable() && n.NextHopAddr() == a
  {
  }

  /** A record without a next hop is not reachable, so the next-hop accessor
      cannot be called on it. */
  lemma NoNextHopIsUnreachable(n: Nlri)
    requires n.nextHop == None
    ensures !n.IsReachable()
  {
  }

  /** Empty prefix sequences are not rejected: an empty record of either
      family is family-consistent, and it yields no networks. */
  lemma EmptyRecordIsPermitted(afi: Afi, safi: Safi, nextHop: Option<NextHopAddress>)
    ensures Nlri(afi, safi, nextHop, []).FamilyConsistent()
    ensures Nlri(afi, safi, nextHop, []).IntoIter() == []
  {
  }

  /** A reachable constructor called without a next hop builds the same
      record as the unreachable constructor. */
  lemma NewReachableWithoutNextHop(prefix: NetworkPrefix)
    ensures Nlri.NewReachable(prefix, None) == Nlri.NewUnreachable(prefix)
  {
  }

  /** Both iteration views of a record yield the same sequence. */
  lemma IterationViewsAgree(n: Nlri)
    ensures n.IntoIter() == n.Iter()
  {
  }

  /** On a family-consistent record, every network an iteration yields is of
      the family the record names. */
  lemma IterationFamily(n: Nlri, net: IpNet)
    requires n.FamilyConsistent()
    requires net in n.IntoIter()
    ensures AfiOf(net) == n.afi
  {
  }

  /** The explicit multiprotocol announcement: the next hop is mandatory and
      the families are given, not derived. */
  datatype MpReachableNlri = MpReachableNlri(
    afi: Afi,
    safi: Safi,
    nextHop: NextHopAddress,
    prefixes: seq<NetworkPrefix>)
  {
    /** Stores every argument exactly as given. */
    static function New(afi: Afi, safi: Safi, nextHop: NextHopAddress,
                        prefixes: seq<NetworkPrefix>): (m: MpReachableNlri)
      ensures m.afi == afi && m.safi == safi
      ensures m.nextHop == nextHop
      ensures m.prefixes == prefixes
    {
      MpReachableNlri(afi, safi, nextHop, prefixes)
    }
  }

  /** The explicit multiprotocol withdrawal: there is no next-hop field. */
  datatype MpUnreachableNlri = MpUnreachableNlri(
    afi: Afi,
    safi: Safi,
    prefixes: seq<NetworkPrefix>)
  {
    /** Stores every argument exactly as given. */
    static function New(afi: Afi, safi: Safi, prefixes: seq<NetworkPrefix>): (m: MpUnreachableNlri)
      ensures m.afi == afi && m.safi == safi
      ensures m.prefixes == prefixes
    {
      MpUnreachableNlri(afi, safi, prefixes)
    }
  }

  /** Building a multiprotocol announcement from a plain address keeps that
      address as its representative next hop. */
  lemma MpReachableNextHopRoundTrip(afi: Afi, safi: Safi, a: IpAddr, prefixes: seq<NetworkPrefix>)
    ensures MpReachableNlri.New(afi, safi, NextHopAddress.From(a), prefixes).nextHop.Addr() == a
  {
  }
}
