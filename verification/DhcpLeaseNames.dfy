/** assignLeaseNames (server/src/models/dhcp-lease.js): sticky names, unique in their zone. */
module DhcpLeaseNames {
  import opened Addresses
  import opened Options
  import opened DhcpTables
  import opened DnsNames

  const MAX_LABEL: nat := 63

  /** Everything the naming reads besides the leases themselves. */
  datatype Facts = Facts(
    records: seq<Record>,
    stored: seq<Lease>,
    holderMac: map<Ip, string>,
    resolver: Resolver,
    fallbackName: string -> string,
    macFromDuid: string -> Option<string>)

  /** A name settled in this batch. */
  datatype Claim = Claim(zone: nat, name: string, rtype: RecordType, ip: Ip)

  datatype Pending = Pending(index: nat, lease: Lease, zone: Zone, candidate: string)

  /** An empty text counts as none. */
  function Given(text: Option<string>): Option<string> {
    if text == Some("") then None else text
  }

  function VendorMac(f: Facts, lease: Lease): Option<string> {
    if Given(lease.mac).Some? then lease.mac
    else if Given(lease.duid).Some? then Given(f.macFromDuid(lease.duid.value))
    else None
  }

  function VendorName(f: Facts, lease: Lease): string {
    var mac := VendorMac(f, lease);
    if mac.Some? then f.fallbackName(mac.value) else ""
  }

  /** The last stored hostname of an address: later rows overwrite earlier ones. */
  function PreviousName(stored: seq<Lease>, ip: Ip): string {
    if stored == [] then ""
    else
      var last := stored[|stored| - 1];
      if last.ip == ip && last.hostname != "" then last.hostname
      else PreviousName(stored[..|stored| - 1], ip)
  }

  predicate HoldsName(r: Record, zone: nat, ip: Ip) {
    r.zone == zone && r.source == Dhcp && r.value == Addr(ip) && r.rtype == TypeOf(ip)
  }

  /** The DHCP-derived name the address already holds in the zone, or "". */
  function HeldName(records: seq<Record>, zone: nat, ip: Ip): string {
    if records == [] then ""
    else if HoldsName(records[0], zone, ip) then Lower(records[0].name)
    else HeldName(records[1..], zone, ip)
  }

  function WantedName(lease: Lease, zone: Zone): string {
    if lease.hostname == "" then "" else NormalizeRecordName(lease.hostname, zone.name)
  }

  predicate HexLower(c: char) {
    '0' <= c <= '9' || 'a' <= c <= 'f'
  }

  /** The held name is the wanted one with a two-digit suffix. */
  predicate IsSuffixed(held: string, wanted: string) {
    && |held| == |wanted| + 3 && held[..|wanted|] == wanted && held[|wanted|] == '-'
    && HexLower(held[|wanted| + 1]) && HexLower(held[|wanted| + 2])
  }

  predicate KeepsHeld(held: string, wanted: string) {
    held != "" && (wanted == "" || held == wanted || IsSuffixed(held, wanted))
  }

  /** The spelling a kept name is stored with. */
  function KeptSpelling(previous: string, held: string, lease: Lease, zone: Zone): string {
    if previous != "" && NormalizeRecordName(previous, zone.name) == held then previous
    else if held == WantedName(lease, zone) then lease.hostname
    else held
  }

  predicate IsKept(f: Facts, lease: Lease) {
    var zone := f.resolver.ZoneFor(lease.subnet, lease.ip);
    zone.Some?
    && KeepsHeld(HeldName(f.records, zone.value.id, lease.ip), WantedName(lease, zone.value))
  }

  predicate IsPending(f: Facts, lease: Lease) {
    f.resolver.ZoneFor(lease.subnet, lease.ip).Some? && !IsKept(f, lease)
  }

  function KeptName(f: Facts, lease: Lease, zone: Zone): string {
    KeptSpelling(PreviousName(f.stored, lease.ip), HeldName(f.records, zone.id, lease.ip), lease, zone)
  }

  function Candidate(f: Facts, lease: Lease): string {
    if lease.hostname != "" then lease.hostname else VendorName(f, lease)
  }

  /** The hostname after the first loop; a pending lease still has its reported one. */
  function FirstName(f: Facts, lease: Lease): string {
    var zone := f.resolver.ZoneFor(lease.subnet, lease.ip);
    if zone.None? then (if lease.hostname == "" then VendorName(f, lease) else lease.hostname)
    else if IsKept(f, lease) then KeptName(f, lease, zone.value)
    else lease.hostname
  }

  function ClaimSet(zone: Zone, ip: Ip, hostname: string): set<Claim> {
    if hostname == "" then {}
    else {Claim(zone.id, NormalizeRecordName(hostname, zone.name), TypeOf(ip), ip)}
  }

  function HeldClaim(f: Facts, lease: Lease): set<Claim> {
    if IsKept(f, lease)
    then
      var zone := f.resolver.ZoneFor(lease.subnet, lease.ip).value;
      ClaimSet(zone, lease.ip, KeptName(f, lease, zone))
    else {}
  }

  function HeldClaims(f: Facts, leases: seq<Lease>): set<Claim> {
    if leases == [] then {}
    else HeldClaims(f, leases[..|leases| - 1]) + HeldClaim(f, leases[|leases| - 1])
  }

  function PendingOne(f: Facts, lease: Lease, index: nat): seq<Pending> {
    if IsPending(f, lease)
    then [Pending(index, lease, f.resolver.ZoneFor(lease.subnet, lease.ip).value, Candidate(f, lease))]
    else []
  }

  function PendingOf(f: Facts, leases: seq<Lease>): (ps: seq<Pending>)
    ensures forall p :: p in ps ==> p.index < |leases| && leases[p.index] == p.lease
    ensures forall p :: p in ps ==>
      IsPending(f, p.lease) && Some(p.zone) == f.resolver.ZoneFor(p.lease.subnet, p.lease.ip)
      && p.candidate == Candidate(f, p.lease)
  {
    if leases == [] then []
    else
      var n := |leases| - 1;
      PendingOf(f, leases[..n]) + PendingOne(f, leases[n], n)
  }

  /** The order of sortKey: IPv4 before IPv6, each numerically. */
  predicate KeyBefore(a: Ip, b: Ip) {
    if a.V4? && b.V4? then a.n <= b.n
    else if a.V6? && b.V6? then a.n <= b.n
    else a.V4?
  }

  function Insert(p: Pending, ps: seq<Pending>): seq<Pending> {
    if ps == [] || KeyBefore(p.lease.ip, ps[0].lease.ip) then [p] + ps
    else [ps[0]] + Insert(p, ps[1..])
  }

  function SortByAddress(ps: seq<Pending>): seq<Pending> {
    if ps == [] then [] else Insert(ps[0], SortByAddress(ps[1..]))
  }

  /** A record that only this client's own lapsed lease holds. */
  predicate OwnLapsed(f: Facts, leasedIps: set<Ip>, r: Record, mac: Option<string>) {
    && r.source == Dhcp && r.value.Addr? && r.value.ip !in leasedIps && Given(mac).Some?
    && r.value.ip in f.holderMac && f.holderMac[r.value.ip] == Lower(mac.value)
  }

  predicate Clashes(f: Facts, leasedIps: set<Ip>, r: Record, ip: Ip, mac: Option<string>) {
    r.rtype == CNAME || (r.rtype == TypeOf(ip) && r.value != Addr(ip) && !OwnLapsed(f, leasedIps, r, mac))
  }

  predicate IsFree(f: Facts, leasedIps: set<Ip>, claims: set<Claim>, zone: Zone, name: string, ip: Ip,
                   mac: Option<string>) {
    && (forall r :: r in f.records && r.zone == zone.id && Lower(r.name) == name
          ==> !Clashes(f, leasedIps, r, ip, mac))
    && (forall c :: c in claims && c.zone == zone.id && c.name == name && c.rtype == TypeOf(ip) ==> c.ip == ip)
  }

  function OptionsOf(candidate: string): seq<string> {
    var base := if |candidate| <= MAX_LABEL - 3 then candidate else candidate[..MAX_LABEL - 3];
    [candidate] + seq(256, i requires 0 <= i < 256 => base + NameSuffix(i))
  }

  function FirstFree(f: Facts, leasedIps: set<Ip>, claims: set<Claim>, p: Pending, options: seq<string>): string {
    if options == [] then ""
    else if IsFree(f, leasedIps, claims, p.zone, NormalizeRecordName(options[0], p.zone.name), p.lease.ip,
                   VendorMac(f, p.lease))
    then options[0]
    else FirstFree(f, leasedIps, claims, p, options[1..])
  }

  function ChooseName(f: Facts, leasedIps: set<Ip>, claims: set<Claim>, p: Pending): string {
    if p.candidate == "" then "" else FirstFree(f, leasedIps, claims, p, OptionsOf(p.candidate))
  }

  /** The option clashes with no record and no claim. */
  predicate OptionIsFree(f: Facts, leasedIps: set<Ip>, claims: set<Claim>, p: Pending, option: string) {
    IsFree(f, leasedIps, claims, p.zone, NormalizeRecordName(option, p.zone.name), p.lease.ip, VendorMac(f, p.lease))
  }

  /** The name is a free option with every option before it taken, or there is none and all are taken. */
  ghost predicate IsFirstFree(f: Facts, leasedIps: set<Ip>, claims: set<Claim>, p: Pending, options: seq<string>,
                              name: string)
  {
    if name == "" then forall o :: o in options ==> !OptionIsFree(f, leasedIps, claims, p, o)
    else exists k :: IsFirstAt(f, leasedIps, claims, p, options, name, k)
  }

  ghost predicate IsFirstAt(f: Facts, leasedIps: set<Ip>, claims: set<Claim>, p: Pending, options: seq<string>,
                            name: string, k: nat)
  {
    && k < |options| && options[k] == name && OptionIsFree(f, leasedIps, claims, p, name)
    && forall j :: 0 <= j < k ==> !OptionIsFree(f, leasedIps, claims, p, options[j])
  }

  lemma {:induction false} FirstFreeExactly(f: Facts, leasedIps: set<Ip>, claims: set<Claim>, p: Pending,
                                            options: seq<string>, name: string)
    requires "" !in options
    ensures FirstFree(f, leasedIps, claims, p, options) == name <==>
            IsFirstFree(f, leasedIps, claims, p, options, name)
  {
    hide OptionIsFree, IsFirstAt;
    if options == [] {
      NoOptions(f, leasedIps, claims, p, name);
    } else {
      hide IsFirstFree, FirstFree;
      FirstFreeNext(f, leasedIps, claims, p, options);
      assert options == [options[0]] + options[1..];
      FirstFreeExactly(f, leasedIps, claims, p, options[1..], name);
      if OptionIsFree(f, leasedIps, claims, p, options[0]) {
        HeadIsFirst(f, leasedIps, claims, p, options, name);
      } else {
        TailIsFirst(f, leasedIps, claims, p, options, name);
      }
    }
  }

  lemma NoOptions(f: Facts, leasedIps: set<Ip>, claims: set<Claim>, p: Pending, name: string)
    ensures IsFirstFree(f, leasedIps, claims, p, [], name) <==> name == ""
    ensures FirstFree(f, leasedIps, claims, p, []) == ""
  {}

  lemma HeadIsFirst(f: Facts, leasedIps: set<Ip>, claims: set<Claim>, p: Pending, options: seq<string>, name: string)
    requires options != [] && "" !in options && OptionIsFree(f, leasedIps, claims, p, options[0])
    ensures IsFirstFree(f, leasedIps, claims, p, options, name) <==> name == options[0]
  {
    hide OptionIsFree;
    assert options[0] in options;
    if name == options[0] {
      assert IsFirstAt(f, leasedIps, claims, p, options, name, 0);
    }
  }

  lemma TailIsFirst(f: Facts, leasedIps: set<Ip>, claims: set<Claim>, p: Pending, options: seq<string>, name: string)
    requires options != [] && !OptionIsFree(f, leasedIps, claims, p, options[0])
    ensures IsFirstFree(f, leasedIps, claims, p, options, name) <==>
            IsFirstFree(f, leasedIps, claims, p, options[1..], name)
  {
    hide OptionIsFree;
    var rest := options[1..];
    assert options == [options[0]] + rest;
    assert forall j :: 0 <= j < |rest| ==> options[j + 1] == rest[j];
    if name != "" {
      if k: nat :| IsFirstAt(f, leasedIps, claims, p, rest, name, k) {
        assert forall j :: 0 < j < k + 1 ==> options[j] == rest[j - 1];
        assert IsFirstAt(f, leasedIps, claims, p, options, name, k + 1);
      }
      if k: nat :| IsFirstAt(f, leasedIps, claims, p, options, name, k) {
        assert IsFirstAt(f, leasedIps, claims, p, rest, name, k - 1);
      }
    }
  }

  lemma FirstFreeNext(f: Facts, leasedIps: set<Ip>, claims: set<Claim>, p: Pending, options: seq<string>)
    requires options != []
    ensures FirstFree(f, leasedIps, claims, p, options) ==
            if OptionIsFree(f, leasedIps, claims, p, options[0]) then options[0]
            else FirstFree(f, leasedIps, claims, p, options[1..])
  {
    hide IsFree, NormalizeRecordName, VendorMac;
  }

  /** The choice is this name exactly when it is the first option that clashes with nothing. */
  lemma ChoosesExactly(f: Facts, leasedIps: set<Ip>, claims: set<Claim>, p: Pending, name: string)
    requires p.candidate != ""
    ensures ChooseName(f, leasedIps, claims, p) == name <==>
            IsFirstFree(f, leasedIps, claims, p, OptionsOf(p.candidate), name)
  {
    hide FirstFree, IsFirstFree;
    assert forall i :: 0 <= i < 256 ==> |NameSuffix(i)| > 0;
    FirstFreeExactly(f, leasedIps, claims, p, OptionsOf(p.candidate), name);
  }

  /** The second loop: each pending lease in turn takes its first free name. */
  function SettleAll(f: Facts, leasedIps: set<Ip>, ps: seq<Pending>, names: seq<string>, claims: set<Claim>)
    : (r: (seq<string>, set<Claim>))
    requires forall p :: p in ps ==> p.index < |names|
    ensures |r.0| == |names|
  {
    if ps == [] then (names, claims)
    else
      var name := ChooseName(f, leasedIps, claims, ps[0]);
      SettleAll(f, leasedIps, ps[1..], names[ps[0].index := name],
                claims + ClaimSet(ps[0].zone, ps[0].lease.ip, name))
  }

  function FirstNames(f: Facts, leases: seq<Lease>): seq<string> {
    seq(|leases|, i requires 0 <= i < |leases| => FirstName(f, leases[i]))
  }

  function IpsOf(leases: seq<Lease>): set<Ip> {
    set l | l in leases :: l.ip
  }

  function Settled(f: Facts, leases: seq<Lease>): (r: (seq<string>, set<Claim>))
    ensures |r.0| == |leases|
  {
    var ps := PendingOf(f, leases);
    SortedHasSame(ps);
    SettleAll(f, IpsOf(leases), SortByAddress(ps), FirstNames(f, leases), HeldClaims(f, leases))
  }

  /** The leases with the names assignLeaseNames gives them. */
  function Named(f: Facts, leases: seq<Lease>): (r: seq<Lease>)
    ensures |r| == |leases|
    ensures forall i :: 0 <= i < |leases| ==> r[i] == leases[i].(hostname := Settled(f, leases).0[i])
  {
    seq(|leases|, i requires 0 <= i < |leases| => leases[i].(hostname := Settled(f, leases).0[i]))
  }

  // ---- Sorting ----

  lemma InsertHasSame(p: Pending, ps: seq<Pending>)
    ensures multiset(Insert(p, ps)) == multiset(ps) + multiset{p}
  {
    if ps == [] {
    } else {
      assert ps == [ps[0]] + ps[1..];
      if !KeyBefore(p.lease.ip, ps[0].lease.ip) {
        InsertHasSame(p, ps[1..]);
      }
    }
  }

  lemma SortedHasSame(ps: seq<Pending>)
    ensures multiset(SortByAddress(ps)) == multiset(ps)
    ensures forall p :: p in SortByAddress(ps) <==> p in ps
  {
    if ps != [] {
      SortedHasSame(ps[1..]);
      InsertHasSame(ps[0], SortByAddress(ps[1..]));
      assert ps == [ps[0]] + ps[1..];
    }
    forall p ensures p in SortByAddress(ps) <==> p in ps {
      assert p in SortByAddress(ps) <==> p in multiset(SortByAddress(ps));
      assert p in ps <==> p in multiset(ps);
    }
  }

  ghost predicate DistinctIndexes(ps: seq<Pending>) {
    forall i, j :: 0 <= i < j < |ps| ==> ps[i].index != ps[j].index
  }

  lemma InsertDistinct(p: Pending, ps: seq<Pending>)
    requires DistinctIndexes(ps) && forall q :: q in ps ==> q.index != p.index
    ensures DistinctIndexes(Insert(p, ps))
    ensures forall q :: q in Insert(p, ps) <==> q == p || q in ps
  {
    if ps != [] && !KeyBefore(p.lease.ip, ps[0].lease.ip) {
      InsertDistinct(p, ps[1..]);
      assert ps == [ps[0]] + ps[1..];
      assert forall q :: q in Insert(p, ps[1..]) ==> q.index != ps[0].index;
    }
  }

  lemma SortedDistinct(ps: seq<Pending>)
    requires DistinctIndexes(ps)
    ensures DistinctIndexes(SortByAddress(ps))
    ensures forall q :: q in SortByAddress(ps) <==> q in ps
  {
    if ps != [] {
      SortedDistinct(ps[1..]);
      InsertDistinct(ps[0], SortByAddress(ps[1..]));
      assert ps == [ps[0]] + ps[1..];
    }
  }

  lemma PendingDistinct(f: Facts, leases: seq<Lease>)
    ensures DistinctIndexes(PendingOf(f, leases))
    ensures forall i :: 0 <= i < |leases| && IsPending(f, leases[i]) ==>
      exists p :: p in PendingOf(f, leases) && p.index == i
  {
    if leases != [] {
      var n := |leases| - 1;
      PendingDistinct(f, leases[..n]);
      var before, one := PendingOf(f, leases[..n]), PendingOne(f, leases[n], n);
      forall i | 0 <= i < |leases| && IsPending(f, leases[i])
        ensures exists p: Pending :: p in before + one && p.index == i
      {
        if i == n {
          assert one[0] in before + one;
        } else {
          assert leases[..n][i] == leases[i];
          var p :| p in before && p.index == i;
          assert p in before + one;
        }
      }
    }
  }

  // ---- Uniqueness ----

  predicate SameClaim(c: Claim, d: Claim) {
    c.zone == d.zone && c.name == d.name && c.rtype == d.rtype
  }

  /** No zone, name and type is claimed for two addresses. */
  ghost predicate ClaimsUnique(claims: set<Claim>) {
    forall c, d :: c in claims && d in claims && SameClaim(c, d) ==> c.ip == d.ip
  }

  lemma FirstFreeIsFree(f: Facts, leasedIps: set<Ip>, claims: set<Claim>, p: Pending, options: seq<string>)
    ensures var name := FirstFree(f, leasedIps, claims, p, options);
            name != "" ==>
              name in options
              && IsFree(f, leasedIps, claims, p.zone, NormalizeRecordName(name, p.zone.name), p.lease.ip,
                        VendorMac(f, p.lease))
  {
    hide NormalizeRecordName;
  }

  lemma ChosenKeepsUnique(f: Facts, leasedIps: set<Ip>, claims: set<Claim>, p: Pending)
    requires ClaimsUnique(claims)
    ensures ClaimsUnique(claims + ClaimSet(p.zone, p.lease.ip, ChooseName(f, leasedIps, claims, p)))
  {
    hide NormalizeRecordName, OptionsOf;
    FirstFreeIsFree(f, leasedIps, claims, p, OptionsOf(p.candidate));
  }

  lemma {:induction false} SettleAllUnique(f: Facts, leasedIps: set<Ip>, ps: seq<Pending>, names: seq<string>,
                                           claims: set<Claim>)
    requires forall p :: p in ps ==> p.index < |names|
    requires ClaimsUnique(claims) && DistinctIndexes(ps)
    ensures var (names', claims') := SettleAll(f, leasedIps, ps, names, claims);
            && ClaimsUnique(claims') && claims <= claims'
            && (forall i :: 0 <= i < |names| && (forall p :: p in ps ==> p.index != i) ==> names'[i] == names[i])
            && (forall p :: p in ps ==> ClaimSet(p.zone, p.lease.ip, names'[p.index]) <= claims')
  {
    hide NormalizeRecordName, ChooseName, ClaimSet;
    if ps != [] {
      var p := ps[0];
      var name := ChooseName(f, leasedIps, claims, p);
      ChosenKeepsUnique(f, leasedIps, claims, p);
      assert forall q :: q in ps[1..] ==> q in ps && q.index != p.index;
      SettleAllUnique(f, leasedIps, ps[1..], names[p.index := name], claims + ClaimSet(p.zone, p.lease.ip, name));
      assert ps == [p] + ps[1..];
    }
  }

  lemma HeldClaimsHas(f: Facts, leases: seq<Lease>)
    ensures forall i :: 0 <= i < |leases| ==> HeldClaim(f, leases[i]) <= HeldClaims(f, leases)
    ensures forall c :: c in HeldClaims(f, leases) ==>
      exists i :: 0 <= i < |leases| && c in HeldClaim(f, leases[i])
  {
    hide HeldClaim;
    if leases != [] {
      var n := |leases| - 1;
      HeldClaimsHas(f, leases[..n]);
      assert forall i :: 0 <= i < n ==> leases[..n][i] == leases[i];
      forall c | c in HeldClaims(f, leases)
        ensures exists i :: 0 <= i < |leases| && c in HeldClaim(f, leases[i])
      {
        if c in HeldClaims(f, leases[..n]) {
          var i :| 0 <= i < n && c in HeldClaim(f, leases[..n][i]);
          assert c in HeldClaim(f, leases[i]);
        } else {
          assert c in HeldClaim(f, leases[n]);
        }
      }
    }
  }

  /** The claim a lease's name makes on its zone. */
  function ClaimOf(resolver: Resolver, lease: Lease): set<Claim> {
    var zone := resolver.ZoneFor(lease.subnet, lease.ip);
    if zone.None? then {} else ClaimSet(zone.value, lease.ip, lease.hostname)
  }

  /** No two addresses of a zone carry one name and type. */
  ghost predicate NamesUnique(resolver: Resolver, leases: seq<Lease>) {
    forall l, m, c, d ::
      l in leases && m in leases && c in ClaimOf(resolver, l) && d in ClaimOf(resolver, m) && SameClaim(c, d)
      ==> l.ip == m.ip
  }

  /** What Settled says of each lease. */
  lemma NamedClaims(f: Facts, leases: seq<Lease>)
    requires ClaimsUnique(HeldClaims(f, leases))
    ensures ClaimsUnique(Settled(f, leases).1)
    ensures forall i :: 0 <= i < |leases| ==> ClaimOf(f.resolver, Named(f, leases)[i]) <= Settled(f, leases).1
  {
    var ps := PendingOf(f, leases);
    var names := FirstNames(f, leases);
    var sorted := SortByAddress(ps);
    PendingDistinct(f, leases);
    SortedDistinct(ps);
    HeldClaimsHas(f, leases);
    SettleAllUnique(f, IpsOf(leases), sorted, names, HeldClaims(f, leases));
    var names' := Settled(f, leases).0;
    forall i | 0 <= i < |leases|
      ensures ClaimOf(f.resolver, Named(f, leases)[i]) <= Settled(f, leases).1
    {
      if IsPending(f, leases[i]) {
        var p :| p in ps && p.index == i;
        assert p in sorted && ClaimSet(p.zone, p.lease.ip, names'[i]) <= Settled(f, leases).1;
      } else {
        assert forall p :: p in sorted ==> p.index != i;
        assert names'[i] == names[i];
        assert HeldClaim(f, leases[i]) <= HeldClaims(f, leases);
      }
    }
  }

  lemma KeptStaysKept(f: Facts, leases: seq<Lease>, i: nat)
    requires i < |leases| && !IsPending(f, leases[i])
    ensures Named(f, leases)[i] == leases[i].(hostname := FirstName(f, leases[i]))
  {
    var ps := PendingOf(f, leases);
    PendingDistinct(f, leases);
    SortedDistinct(ps);
    SettleOthers(f, IpsOf(leases), SortByAddress(ps), FirstNames(f, leases), HeldClaims(f, leases), i);
  }

  lemma {:induction false} SettleOthers(f: Facts, leasedIps: set<Ip>, ps: seq<Pending>, names: seq<string>,
                                        claims: set<Claim>, i: nat)
    requires forall p :: p in ps ==> p.index < |names| && p.index != i
    requires i < |names|
    ensures SettleAll(f, leasedIps, ps, names, claims).0[i] == names[i]
    decreases |ps|
  {
    hide ChooseName, ClaimSet;
    if ps != [] {
      var name := ChooseName(f, leasedIps, claims, ps[0]);
      SettleOthers(f, leasedIps, ps[1..], names[ps[0].index := name],
                   claims + ClaimSet(ps[0].zone, ps[0].lease.ip, name), i);
    }
  }

  lemma ClaimIp(resolver: Resolver, lease: Lease)
    ensures forall c :: c in ClaimOf(resolver, lease) ==> c.ip == lease.ip
  {
    hide NormalizeRecordName;
  }

  lemma HeldClaimIsClaim(f: Facts, leases: seq<Lease>, i: nat)
    requires i < |leases|
    ensures HeldClaim(f, leases[i]) <= ClaimOf(f.resolver, Named(f, leases)[i])
  {
    hide NormalizeRecordName, Settled, KeptName;
    if IsKept(f, leases[i]) {
      KeptStaysKept(f, leases, i);
    }
  }

  lemma UniqueFromHeld(f: Facts, leases: seq<Lease>)
    requires ClaimsUnique(HeldClaims(f, leases))
    ensures NamesUnique(f.resolver, Named(f, leases))
  {
    hide ClaimOf, HeldClaims, Settled;
    NamedClaims(f, leases);
    var named := Named(f, leases);
    forall l, m, c, d | l in named && m in named && c in ClaimOf(f.resolver, l) && d in ClaimOf(f.resolver, m)
      && SameClaim(c, d)
      ensures l.ip == m.ip
    {
      ClaimIp(f.resolver, l);
      ClaimIp(f.resolver, m);
    }
  }

  lemma HeldFromUnique(f: Facts, leases: seq<Lease>)
    requires NamesUnique(f.resolver, Named(f, leases))
    ensures ClaimsUnique(HeldClaims(f, leases))
  {
    hide ClaimOf, HeldClaims, HeldClaim, Settled;
    var named := Named(f, leases);
    HeldClaimsHas(f, leases);
    forall c, d | c in HeldClaims(f, leases) && d in HeldClaims(f, leases) && SameClaim(c, d)
      ensures c.ip == d.ip
    {
      var i :| 0 <= i < |leases| && c in HeldClaim(f, leases[i]);
      var j :| 0 <= j < |leases| && d in HeldClaim(f, leases[j]);
      HeldClaimIsClaim(f, leases, i);
      HeldClaimIsClaim(f, leases, j);
      ClaimIp(f.resolver, named[i]);
      ClaimIp(f.resolver, named[j]);
      assert named[i] in named && named[j] in named;
    }
  }

  /** The names are unique exactly when the names kept from the records are: the suffix search never clashes. */
  lemma NamesUniqueExactly(f: Facts, leases: seq<Lease>)
    ensures NamesUnique(f.resolver, Named(f, leases)) <==> ClaimsUnique(HeldClaims(f, leases))
  {
    hide *;
    if ClaimsUnique(HeldClaims(f, leases)) {
      UniqueFromHeld(f, leases);
    }
    if NamesUnique(f.resolver, Named(f, leases)) {
      HeldFromUnique(f, leases);
    }
  }

  // ---- Names kept from the records ----

  /** Every dhcp record has a name, and one its zone's normalisation leaves alone. */
  ghost predicate StableRecords(resolver: Resolver, records: seq<Record>) {
    forall r, n :: r in records && r.source == Dhcp && n in resolver.zoneByName
      && resolver.zoneByName[n].id == r.zone
      ==> r.name != "" && NormalizeRecordName(r.name, resolver.zoneByName[n].name) == r.name
  }

  lemma HeldNameSource(records: seq<Record>, zone: nat, ip: Ip)
    requires HeldName(records, zone, ip) != ""
    ensures exists r :: r in records && HoldsName(r, zone, ip) && Lower(r.name) == HeldName(records, zone, ip)
  {
    if HoldsName(records[0], zone, ip) {
      assert records[0] in records;
    } else {
      HeldNameSource(records[1..], zone, ip);
    }
  }

  /** A kept lease claims exactly the name its record already has. */
  lemma KeptClaim(f: Facts, lease: Lease, c: Claim) returns (r: Record)
    requires StableRecords(f.resolver, f.records) && c in HeldClaim(f, lease)
    ensures r in f.records && r.source == Dhcp && r.value == Addr(c.ip)
    ensures r.zone == c.zone && r.name == c.name && r.rtype == c.rtype
    ensures c.ip == lease.ip
    ensures r.name == HeldName(f.records, c.zone, lease.ip)
  {
    hide NormalizeRecordName;
    var zone := f.resolver.ZoneFor(lease.subnet, lease.ip).value;
    HeldNameSource(f.records, zone.id, lease.ip);
    r :| r in f.records && HoldsName(r, zone.id, lease.ip)
         && Lower(r.name) == HeldName(f.records, zone.id, lease.ip);
    assert NormalizeRecordName(r.name, zone.name) == r.name;
    NormalIsLower(r.name, zone.name);
  }

  lemma HeldClaimsUnique(f: Facts, leases: seq<Lease>)
    requires DhcpUnique(f.records) && StableRecords(f.resolver, f.records)
    ensures ClaimsUnique(HeldClaims(f, leases))
  {
    hide HeldClaim, HeldClaims;
    HeldClaimsHas(f, leases);
    forall c, d | c in HeldClaims(f, leases) && d in HeldClaims(f, leases) && SameClaim(c, d)
      ensures c.ip == d.ip
    {
      var i :| 0 <= i < |leases| && c in HeldClaim(f, leases[i]);
      var j :| 0 <= j < |leases| && d in HeldClaim(f, leases[j]);
      var r := KeptClaim(f, leases[i], c);
      var s := KeptClaim(f, leases[j], d);
      assert SameName(r, s);
    }
  }

  /**
   * The held phase takes a record's name at its word. A record name that normalisation changes
   * (a doubled zone suffix) lets two addresses of one zone end with one name.
   */
  lemma UnstableNameBreaksUniqueness(f: Facts, host: string, zone: Zone, subnet: nat, a: Lease, b: Lease)
    requires PlainLower(host) && PlainLower(zone.name) && host != "@" && host != zone.name
    requires a == Lease(Some(subnet), V4(1), None, None, "", Infinite)
    requires b == Lease(Some(subnet), V4(2), None, None, "", Infinite)
    requires f.records == [Record(1, zone.id, host + "." + zone.name, A, Addr(V4(1)), Dhcp),
                           Record(2, zone.id, host, A, Addr(V4(2)), Dhcp)]
    requires f.stored == []
    requires f.resolver.ZoneFor(Some(subnet), V4(1)) == f.resolver.ZoneFor(Some(subnet), V4(2)) == Some(zone)
    ensures DhcpUnique(f.records) && DistinctIps([a, b])
    ensures !NamesUnique(f.resolver, Named(f, [a, b]))
  {
    hide NormalizeRecordName, NamesUnique, Named, HeldClaims, HeldClaim, Lower, HeldName, PlainLower;
    PlainHostNames(host, zone.name);
    HeldNameOfPair(f.records, zone.id, V4(1), V4(2));
    UnreportedKeepsRecordName(f, a, zone, host + "." + zone.name);
    UnreportedKeepsRecordName(f, b, zone, host);
    ClashingPair(f, a, b, Claim(zone.id, host, A, V4(1)), Claim(zone.id, host, A, V4(2)));
  }

  lemma ClashingPair(f: Facts, a: Lease, b: Lease, c: Claim, d: Claim)
    requires HeldClaim(f, a) == {c} && HeldClaim(f, b) == {d} && SameClaim(c, d) && c.ip != d.ip
    ensures !NamesUnique(f.resolver, Named(f, [a, b]))
  {
    hide NamesUnique, Named, HeldClaims, HeldClaim;
    var leases := [a, b];
    HeldClaimsHas(f, leases);
    assert HeldClaim(f, leases[0]) == {c} && HeldClaim(f, leases[1]) == {d};
    NamesUniqueExactly(f, leases);
  }

  lemma HeldNameOfPair(records: seq<Record>, zone: nat, ip: Ip, other: Ip)
    requires |records| == 2 && ip != other
    requires HoldsName(records[0], zone, ip) && HoldsName(records[1], zone, other)
    ensures HeldName(records, zone, ip) == Lower(records[0].name)
    ensures HeldName(records, zone, other) == Lower(records[1].name)
  {
    hide Lower;
    assert records[1..][0] == records[1];
  }

  lemma UnreportedKeepsRecordName(f: Facts, lease: Lease, zone: Zone, held: string)
    requires lease.hostname == "" && f.stored == [] && held != ""
    requires f.resolver.ZoneFor(lease.subnet, lease.ip) == Some(zone)
    requires HeldName(f.records, zone.id, lease.ip) == held
    ensures HeldClaim(f, lease) == {Claim(zone.id, NormalizeRecordName(held, zone.name), TypeOf(lease.ip), lease.ip)}
  {
    hide NormalizeRecordName;
  }

  // ---- The suffix search ----

  /** The record names another address, or an alias, could hold against a newcomer. */
  function TakenNames(f: Facts, claims: set<Claim>, zone: Zone): set<string> {
    (set r | r in f.records && r.zone == zone.id :: Lower(r.name))
    + (set c | c in claims && c.zone == zone.id :: c.name)
  }

  lemma FirstFreeFails(f: Facts, leasedIps: set<Ip>, claims: set<Claim>, p: Pending, options: seq<string>)
    requires "" !in options
    ensures FirstFree(f, leasedIps, claims, p, options) == "" <==>
            forall o :: o in options ==> !IsFree(f, leasedIps, claims, p.zone, NormalizeRecordName(o, p.zone.name),
                                                 p.lease.ip, VendorMac(f, p.lease))
  {
    hide NormalizeRecordName, IsFree;
    if options != [] {
      FirstFreeFails(f, leasedIps, claims, p, options[1..]);
      assert options == [options[0]] + options[1..];
    }
  }

  /** A named client goes unnamed exactly when its name and all 256 suffixes are taken. */
  lemma UnnamedExactly(f: Facts, leasedIps: set<Ip>, claims: set<Claim>, p: Pending)
    requires p.candidate != ""
    ensures |OptionsOf(p.candidate)| == 257
    ensures ChooseName(f, leasedIps, claims, p) == "" <==>
            forall o :: o in OptionsOf(p.candidate) ==>
              !IsFree(f, leasedIps, claims, p.zone, NormalizeRecordName(o, p.zone.name), p.lease.ip,
                      VendorMac(f, p.lease))
  {
    hide NormalizeRecordName, IsFree;
    FirstFreeFails(f, leasedIps, claims, p, OptionsOf(p.candidate));
  }

  /** The names the first n suffixes give. */
  function SuffixedNames(base: string, zoneName: string, n: nat): (names: set<string>)
    requires n <= 256
  {
    set i | 0 <= i < n :: NormalizeRecordName(base + NameSuffix(i), zoneName)
  }

  lemma {:induction false} SuffixedNamesCount(base: string, zoneName: string, n: nat)
    requires n <= 256
    ensures |SuffixedNames(base, zoneName, n)| == n
  {
    hide NormalizeRecordName, NameSuffix;
    if n > 0 {
      SuffixedNamesCount(base, zoneName, n - 1);
      var last := NormalizeRecordName(base + NameSuffix(n - 1), zoneName);
      forall i | 0 <= i < n - 1 ensures NormalizeRecordName(base + NameSuffix(i), zoneName) != last {
        SuffixedNamesDistinct(base, i, n - 1, zoneName);
      }
      assert SuffixedNames(base, zoneName, n) == SuffixedNames(base, zoneName, n - 1) + {last};
    }
  }

  lemma SmallerSetMisses(big: set<string>, small: set<string>) returns (x: string)
    requires |small| < |big|
    ensures x in big && x !in small
  {
    if big <= small {
      SubsetSize(big, small);
      assert false;
    }
    x :| x in big && x !in small;
  }

  lemma SubsetSize(a: set<string>, b: set<string>)
    requires a <= b
    ensures |a| <= |b|
  {
    assert b == a + (b - a);
  }

  /** Fewer than 256 taken names always leave a client one of its own, clear of every other holder. */
  lemma AlwaysNamed(f: Facts, leasedIps: set<Ip>, claims: set<Claim>, p: Pending)
    requires p.candidate != "" && |TakenNames(f, claims, p.zone)| < 256
    ensures var name := ChooseName(f, leasedIps, claims, p);
            && name != "" && name in OptionsOf(p.candidate)
            && IsFree(f, leasedIps, claims, p.zone, NormalizeRecordName(name, p.zone.name), p.lease.ip,
                      VendorMac(f, p.lease))
  {
    hide NormalizeRecordName, IsFree, TakenNames, FirstFree, NameSuffix, OptionsOf;
    var o := UntakenOption(p.candidate, p.zone.name, TakenNames(f, claims, p.zone));
    UntakenIsFree(f, leasedIps, claims, p.zone, NormalizeRecordName(o, p.zone.name), p.lease.ip,
                  VendorMac(f, p.lease));
    UnnamedExactly(f, leasedIps, claims, p);
    FirstFreeIsFree(f, leasedIps, claims, p, OptionsOf(p.candidate));
  }

  lemma UntakenOption(candidate: string, zoneName: string, taken: set<string>) returns (o: string)
    requires |taken| < 256
    ensures o in OptionsOf(candidate) && NormalizeRecordName(o, zoneName) !in taken
  {
    hide NormalizeRecordName, NameSuffix;
    var base := if |candidate| <= MAX_LABEL - 3 then candidate else candidate[..MAX_LABEL - 3];
    SuffixedNamesCount(base, zoneName, 256);
    var free := SmallerSetMisses(SuffixedNames(base, zoneName, 256), taken);
    var i :| 0 <= i < 256 && free == NormalizeRecordName(base + NameSuffix(i), zoneName);
    o := base + NameSuffix(i);
    assert OptionsOf(candidate)[i + 1] == o;
  }

  lemma UntakenIsFree(f: Facts, leasedIps: set<Ip>, claims: set<Claim>, zone: Zone, name: string, ip: Ip,
                      mac: Option<string>)
    requires name !in TakenNames(f, claims, zone)
    ensures IsFree(f, leasedIps, claims, zone, name, ip, mac)
  {
    hide Clashes, Lower;
    assert forall r :: r in f.records && r.zone == zone.id ==> Lower(r.name) in TakenNames(f, claims, zone);
    assert forall c :: c in claims && c.zone == zone.id ==> c.name in TakenNames(f, claims, zone);
  }
}
