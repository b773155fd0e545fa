/** Address Family Identifier and Subsequent Address Family Identifier:
    plain tags compared structurally, with no decoding logic of their own. */
module AddressFamily {

  /** The address families an NLRI record can refer to. */
  datatype Afi = Ipv4 | Ipv6

  /** Subsequent address families that qualify an AFI. */
  datatype Safi = Unicast | Multicast | UnicastMulticast

}
