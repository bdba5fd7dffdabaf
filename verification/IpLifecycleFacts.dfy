/** What the lifecycle upgrade reads (loadFacts, server/src/db/ip-lifecycle-upgrade.js). */
module IpLifecycleFacts {
  import opened Options
  import opened Addresses

  /** A stored address text: one spelling of an address (0 is the canonical one), or text that is none. */
  datatype Text = Spelling(ip: Ip, variant: nat) | Junk(text: nat)

  /** canonicalizeIp(text) || text */
  function Canonical(t: Text): Text {
    match t
    case Spelling(ip, _) => Spelling(ip, 0)
    case Junk(_) => t
  }

  /** identityKey; the address is canonical. */
  datatype Key = Key(subnet: nat, address: Text)

  function KeyOf(subnet: nat, t: Text): Key {
    Key(subnet, Canonical(t))
  }

  datatype Subnet =
    Subnet(id: nat, network: Text, broadcast: Text, gateway: Option<Text>, prefix: nat, isAllocated: bool)
  datatype Scope = Scope(subnet: nat, enabled: bool, first: Text, last: Text)
  datatype IpRow = IpRow(id: nat, subnet: nat, address: Text, locked: bool, interface: Option<nat>)
  datatype Claimed = Claimed(id: nat, subnet: nat, address: Text, mac: nat)
  /** An enabled manual address record of an enabled forward zone. */
  datatype DnsRow = DnsRow(id: nat, address: Text)
  datatype DnsClaim = DnsClaim(id: nat, address: Text, subnet: nat)

  datatype Facts = Facts(
    subnets: seq<Subnet>,
    scopes: seq<Scope>,
    ips: seq<IpRow>,
    reservations: seq<Claimed>,
    leases: seq<Claimed>,
    dns: seq<DnsClaim>,
    localAddresses: set<Text>)

  // ---- Address ranges ----

  function Bits(ip: Ip): nat {
    if ip.V4? then 32 else 128
  }

  predicate ContainsAddress(first: Text, last: Text, t: Text) {
    && first.Spelling? && last.Spelling? && t.Spelling?
    && Bits(first.ip) == Bits(t.ip) == Bits(last.ip)
    && first.ip.n <= t.ip.n <= last.ip.n
  }

  function Pow2(n: nat): nat {
    if n == 0 then 1 else 2 * Pow2(n - 1)
  }

  predicate SubnetContains(s: Subnet, t: Text) {
    && s.network.Spelling? && t.Spelling? && Bits(s.network.ip) == Bits(t.ip) && s.prefix <= Bits(t.ip)
    && s.network.ip.n <= t.ip.n < s.network.ip.n + Pow2(Bits(t.ip) - s.prefix)
  }

  predicate Holds(s: Subnet, t: Text) {
    s.isAllocated && SubnetContains(s, t)
  }

  /** No subnet before it holds the address with as long a prefix. */
  ghost predicate IsFirstHolding(subnets: seq<Subnet>, t: Text, i: nat)
    requires i < |subnets|
  {
    forall j :: 0 <= j < i && Holds(subnets[j], t) ==> subnets[j].prefix < subnets[i].prefix
  }

  /** The first of the longest-prefix allocated subnets holding the address. */
  function BestSubnet(subnets: seq<Subnet>, t: Text): (best: Option<Subnet>)
    ensures best.Some? ==> best.value in subnets && Holds(best.value, t)
    ensures best.Some? ==> forall s :: s in subnets && Holds(s, t) ==> s.prefix <= best.value.prefix
    ensures best.None? ==> forall s :: s in subnets ==> !Holds(s, t)
    ensures best.Some? ==> exists i :: 0 <= i < |subnets| && subnets[i] == best.value && IsFirstHolding(subnets, t, i)
  {
    if subnets == [] then None
    else
      var rest := BestSubnet(subnets[1..], t);
      if Holds(subnets[0], t) && (rest.None? || rest.value.prefix <= subnets[0].prefix)
      then
        assert IsFirstHolding(subnets, t, 0);
        Some(subnets[0])
      else
        assert rest.Some? ==>
            exists i :: 0 <= i < |subnets| && subnets[i] == rest.value && IsFirstHolding(subnets, t, i) by {
          if rest.Some? {
            FirstOfRest(subnets, t, rest);
          }
        }
        rest
  }

  lemma FirstOfRest(subnets: seq<Subnet>, t: Text, rest: Option<Subnet>)
    requires subnets != [] && rest.Some?
    requires Holds(subnets[0], t) ==> subnets[0].prefix < rest.value.prefix
    requires exists i :: 0 <= i < |subnets[1..]| && subnets[1..][i] == rest.value && IsFirstHolding(subnets[1..], t, i)
    ensures exists i :: 0 <= i < |subnets| && subnets[i] == rest.value && IsFirstHolding(subnets, t, i)
  {
    hide Holds;
    var i :| 0 <= i < |subnets[1..]| && subnets[1..][i] == rest.value && IsFirstHolding(subnets[1..], t, i);
    assert subnets[i + 1] == rest.value;
    assert forall j :: 0 < j < i + 1 ==> subnets[j] == subnets[1..][j - 1];
  }

  /** The claim is the record's, in its best subnet. */
  predicate Places(subnets: seq<Subnet>, r: DnsRow, c: DnsClaim) {
    var best := BestSubnet(subnets, r.address);
    r.id == c.id && r.address == c.address && best.Some? && best.value.id == c.subnet
  }

  /** The records some allocated subnet holds, every one of them, each with its best subnet. */
  function LocateDns(subnets: seq<Subnet>, rows: seq<DnsRow>): (claims: seq<DnsClaim>)
    ensures forall c :: c in claims ==> exists r :: r in rows && Places(subnets, r, c)
    ensures forall r :: r in rows && (exists s :: s in subnets && Holds(s, r.address)) ==>
              exists c :: c in claims && Places(subnets, r, c)
  {
    if rows == [] then []
    else
      var r, best := rows[0], BestSubnet(subnets, rows[0].address);
      var here := if best.Some? then [DnsClaim(r.id, r.address, best.value.id)] else [];
      var rest := LocateDns(subnets, rows[1..]);
      assert rows == [r] + rows[1..];
      assert best.Some? ==> here[0] in here + rest && Places(subnets, r, here[0]);
      assert forall c :: c in here + rest ==> c in rest || (best.Some? && c == here[0]);
      here + rest
  }

  // ---- Lookups ----

  function SubnetById(subnets: seq<Subnet>, id: nat): Option<Subnet> {
    if subnets == [] then None
    else if subnets[|subnets| - 1].id == id then Some(subnets[|subnets| - 1])
    else SubnetById(subnets[..|subnets| - 1], id)
  }

  function DnsAt(dns: seq<DnsClaim>, k: Key): seq<DnsClaim> {
    if dns == [] then []
    else (if KeyOf(dns[0].subnet, dns[0].address) == k then [dns[0]] else []) + DnsAt(dns[1..], k)
  }

  function RowsAt(ips: seq<IpRow>, k: Key): seq<IpRow> {
    if ips == [] then []
    else (if KeyOf(ips[0].subnet, ips[0].address) == k then [ips[0]] else []) + RowsAt(ips[1..], k)
  }

  /** The last claim at the key, as a Map built in row order keeps it. */
  function ClaimAt(claims: seq<Claimed>, k: Key): Option<Claimed> {
    if claims == [] then None
    else
      var last := claims[|claims| - 1];
      if KeyOf(last.subnet, last.address) == k then Some(last) else ClaimAt(claims[..|claims| - 1], k)
  }

  predicate InEnabledPool(f: Facts, subnet: nat, t: Text) {
    exists s :: s in f.scopes && s.enabled && s.subnet == subnet && ContainsAddress(s.first, s.last, t)
  }

  datatype Protection = Unprotected | GatewayAddress | SystemAddress

  predicate SameAddress(t: Text, other: Option<Text>) {
    other.Some? && other.value.Spelling? && Canonical(t) == Canonical(other.value)
  }

  function ProtectedKind(f: Facts, subnet: nat, t: Text): Protection {
    var s := SubnetById(f.subnets, subnet);
    if s.None? then Unprotected
    else if SameAddress(t, s.value.gateway) then GatewayAddress
    else if SameAddress(t, Some(s.value.network)) || SameAddress(t, Some(s.value.broadcast)) then SystemAddress
    else Unprotected
  }

  /** A gateway may carry a DNS name. */
  predicate CanName(f: Facts, subnet: nat, t: Text) {
    var s := SubnetById(f.subnets, subnet);
    s.Some? && SameAddress(t, s.value.gateway)
  }

  /** CIDRella's own address, stored locked before the canonical model. */
  predicate IsLegacyLocal(f: Facts, row: IpRow, k: Key) {
    && row.locked && Canonical(row.address) in f.localAddresses
    && DnsAt(f.dns, k) != [] && ClaimAt(f.reservations, k).None? && ClaimAt(f.leases, k).None?
  }

  predicate IsLinkLocal(t: Text) {
    t.Spelling? && t.ip.V6?
    && 0xfe800000000000000000000000000000 <= t.ip.n <= 0xfebfffffffffffffffffffffffffffff
  }

  // ---- Lookups and rows ----

  lemma DnsAtHas(dns: seq<DnsClaim>, k: Key)
    ensures forall c :: c in DnsAt(dns, k) <==> c in dns && KeyOf(c.subnet, c.address) == k
  {}

  lemma RowsAtHas(ips: seq<IpRow>, k: Key)
    ensures forall r :: r in RowsAt(ips, k) <==> r in ips && KeyOf(r.subnet, r.address) == k
  {}

  lemma ClaimAtHas(claims: seq<Claimed>, k: Key)
    ensures ClaimAt(claims, k).Some? <==> exists c :: c in claims && KeyOf(c.subnet, c.address) == k
    ensures ClaimAt(claims, k).Some? ==>
      var c := ClaimAt(claims, k).value;
      c in claims && KeyOf(c.subnet, c.address) == k
  {
    if claims != [] {
      ClaimAtHas(claims[..|claims| - 1], k);
      assert claims == claims[..|claims| - 1] + [claims[|claims| - 1]];
    }
  }

  /** Protection does not depend on the spelling. */
  lemma SameProtection(f: Facts, subnet: nat, t: Text)
    ensures ProtectedKind(f, subnet, t) == ProtectedKind(f, subnet, Canonical(t))
    ensures CanName(f, subnet, t) == CanName(f, subnet, Canonical(t))
    ensures CanName(f, subnet, t) <==> ProtectedKind(f, subnet, t) == GatewayAddress
  {}
}
