/** Rows and lookups shared by the DHCP lease naming, storing and DNS sync. */
module DhcpTables {
  import opened Addresses
  import opened Options

  datatype RecordType = A | AAAA | CNAME | OtherType
  datatype Source = Dhcp | Reservation | Manual
  datatype Value = Addr(ip: Ip) | Text(text: string)
  datatype Record =
    Record(id: nat, zone: nat, name: string, rtype: RecordType, value: Value, source: Source)

  /** expires_at: a readable time, the word 'infinite', or text no parser reads. */
  datatype Expiry = At(time: int) | Infinite | Unreadable

  /** A lease as the backend reports it and as dhcp_leases stores it; hostname "" is no name. */
  datatype Lease = Lease(subnet: Option<nat>, ip: Ip, mac: Option<string>, duid: Option<string>,
                         hostname: string, expires: Expiry)
  datatype Reserved = Reserved(subnet: nat, ip: Ip, hostname: string, enabled: bool)

  datatype Zone = Zone(id: nat, name: string)

  /** dhcpZoneResolver: the domain of a subnet and address, and the enabled forward zones by name. */
  datatype Resolver =
    Resolver(domainFor: (nat, Ip) -> Option<string>, zoneByName: map<string, Zone>, allDomains: set<string>)
  {
    ghost predicate Valid() {
      && (forall n :: n in zoneByName ==> zoneByName[n].name == n)
      && (forall n, m :: n in zoneByName && m in zoneByName && zoneByName[n].id == zoneByName[m].id ==> n == m)
    }

    function ZoneFor(subnet: Option<nat>, ip: Ip): Option<Zone> {
      if subnet.None? then None
      else
        var domain := domainFor(subnet.value, ip);
        if domain.Some? && domain.value in zoneByName then Some(zoneByName[domain.value]) else None
    }
  }

  function TypeOf(ip: Ip): RecordType {
    if ip.V6? then AAAA else A
  }

  ghost predicate DistinctIps(leases: seq<Lease>) {
    forall i, j :: 0 <= i < j < |leases| ==> leases[i].ip != leases[j].ip
  }

  predicate SameName(r: Record, s: Record) {
    r.zone == s.zone && r.name == s.name && r.rtype == s.rtype
  }

  /** No zone answers one dhcp name and type with two addresses. */
  ghost predicate DhcpUnique(records: seq<Record>) {
    forall r, s :: r in records && s in records && r.source == Dhcp && s.source == Dhcp && SameName(r, s)
      ==> r.value == s.value
  }
}
