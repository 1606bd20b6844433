/**
 * The address values an interface record points at. The translation of a raw
 * socket address into an IP address (`sockaddr::to_ipaddr`) is not part of this
 * model: operations that need it take it as a function parameter.
 */
module Sockaddr {
  import opened Wrappers

  /** A raw, family-tagged `struct sockaddr`, kept opaque. */
  datatype RawSockaddr = RawSockaddr(family: nat, data: seq<bv8>)

  /** A `*mut sockaddr` field of an interface record: `None` is the null pointer. */
  type SockaddrPtr = Option<RawSockaddr>

  /** A structured IP address, the result of translating a raw address. */
  datatype IpAddr = V4(octets: seq<bv8>) | V6(octets: seq<bv8>)
}
