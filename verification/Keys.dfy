// The cache key: what tells two queries apart.

module Keys {
  import opened Bytes

  // The first three octets of a /24 network.
  type Subnet = s: bytes | |s| == 3 witness [0, 0, 0]

  datatype CacheKey =
    CacheKey(name: bytes, qtype: nat, qclass: nat, flags: nat, dnssecOk: bool, subnet: Option<Subnet>)
}
