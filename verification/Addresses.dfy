/** IP addresses as numbers (server/src/utils/address.js). */
module Addresses {
  import opened Digits

  datatype Ip = V4(n: nat) | V6(n: nat)

  ghost predicate ValidIp(ip: Ip) {
    match ip
    case V4(n) => n < Pow(256, 4)
    case V6(n) => n < Pow(16, 32)
  }

  /** ::ffff:0:0, the first address of the IPv4-mapped range. */
  const MAPPED: nat := 0xffff_0000_0000
  const MAPPED_SIZE: nat := 0x1_0000_0000

  predicate IsMapped(ip: Ip) {
    ip.V6? && MAPPED <= ip.n < MAPPED + MAPPED_SIZE
  }

  /** parseIp reads an IPv4-mapped address as its IPv4 address. */
  function Fold(ip: Ip): Ip {
    if IsMapped(ip) then V4(ip.n - MAPPED) else ip
  }
}
