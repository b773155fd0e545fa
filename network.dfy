/** The network values an NLRI record is built from: IP addresses, IP networks
    (an address with a prefix length), the NetworkPrefix wrapper around an IP
    network, and the next-hop address of a reachable route. */
module Network {

  /** A 32-bit IPv4 address, as an unsigned integer. */
  type Ipv4Bits = x: int | 0 <= x < 0x1_0000_0000

  /** A 128-bit IPv6 address, as an unsigned integer. */
  type Ipv6Bits = x: int | 0 <= x < 0x1_0000_0000_0000_0000_0000_0000_0000_0000

  /** Prefix lengths an IPv4 or IPv6 network accepts; a network with a longer
      prefix cannot be constructed. */
  type Ipv4PrefixLen = n: int | 0 <= n <= 32
  type Ipv6PrefixLen = n: int | 0 <= n <= 128

  /** An IP address of either family. */
  datatype IpAddr = V4Addr(v4: Ipv4Bits) | V6Addr(v6: Ipv6Bits)

  /** An IP network of either family: an address and a prefix length. */
  datatype IpNet =
    | V4(addr4: Ipv4Bits, len4: Ipv4PrefixLen)
    | V6(addr6: Ipv6Bits, len6: Ipv6PrefixLen)

  /** One announced or withdrawn route: a wrapper around its IP network. */
  datatype NetworkPrefix = NetworkPrefix(prefix: IpNet)

  /** The forwarding address of a reachable route. Only the conversion from a
      plain address and the single representative address are modelled. */
  datatype NextHopAddress = NextHop(representative: IpAddr)
  {
    /** The conversion from a plain address; reading the representative
        address back gives that address. */
    static function From(a: IpAddr): (h: NextHopAddress)
      ensures h.Addr() == a
    {
      NextHop(a)
    }

    /** The single representative address of this next hop. */
    function Addr(): (a: IpAddr)
    {
      representative
    }
  }

}
