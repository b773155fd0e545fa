/** The optional value used for the next hop of a legacy NLRI record and for
    the optional next-hop argument of its reachable constructor. */
module Wrappers {

  datatype Option<+T> = None | Some(value: T)

}
