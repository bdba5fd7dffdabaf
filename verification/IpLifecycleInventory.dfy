/** inventoryLegacyIpLifecycle (server/src/db/ip-lifecycle-upgrade.js): the conflicts that block an upgrade. */
module IpLifecycleInventory {
  import opened IpLifecycleFacts

  datatype Category =
    | MultipleStaticDnsNames
    | ManualDnsInsideDynamicPool
    | ProtocolClaimOnProtectedAddress
    | CompetingDnsAndReservation
    | CompetingDnsAndLease
    | LeaseOutsideEnabledPool
    | ReservationLeaseMismatch
    | LockedWithProtocolClaim
    | UnscopedLinkLocal
    | DuplicateIdentity

  datatype Issue = Issue(category: Category, key: Key)

  datatype ClaimKind =
    | Topology | AdminReservation | Dns | DuplicateDns | DhcpReservation | DhcpLease

  function DnsIssues(f: Facts, c: DnsClaim): set<Issue> {
    var k := KeyOf(c.subnet, c.address);
    var free := !CanName(f, c.subnet, c.address);
    (if InEnabledPool(f, c.subnet, c.address) then {Issue(ManualDnsInsideDynamicPool, k)} else {})
    + (if ProtectedKind(f, c.subnet, c.address) != Unprotected && free
       then {Issue(ProtocolClaimOnProtectedAddress, k)} else {})
    + (if free && ClaimAt(f.reservations, k).Some? then {Issue(CompetingDnsAndReservation, k)}
       else if free && ClaimAt(f.leases, k).Some? then {Issue(CompetingDnsAndLease, k)} else {})
  }

  function ReservationIssues(f: Facts, r: Claimed): set<Issue> {
    if ProtectedKind(f, r.subnet, r.address) != Unprotected
    then {Issue(ProtocolClaimOnProtectedAddress, KeyOf(r.subnet, r.address))} else {}
  }

  function LeaseIssues(f: Facts, l: Claimed): set<Issue> {
    var k := KeyOf(l.subnet, l.address);
    var reservation := ClaimAt(f.reservations, k);
    (if ProtectedKind(f, l.subnet, l.address) != Unprotected
     then {Issue(ProtocolClaimOnProtectedAddress, k)} else {})
    + (if reservation.None? && !InEnabledPool(f, l.subnet, l.address)
       then {Issue(LeaseOutsideEnabledPool, k)} else {})
    + (if reservation.Some? && reservation.value.mac != l.mac then {Issue(ReservationLeaseMismatch, k)} else {})
  }

  predicate HasProtocolClaim(f: Facts, k: Key) {
    DnsAt(f.dns, k) != [] || ClaimAt(f.reservations, k).Some? || ClaimAt(f.leases, k).Some?
  }

  predicate AdminReserved(f: Facts, r: IpRow, k: Key) {
    r.locked && ProtectedKind(f, k.subnet, k.address) == Unprotected && !IsLegacyLocal(f, r, k)
  }

  function RowIssues(f: Facts, r: IpRow): set<Issue> {
    var k := KeyOf(r.subnet, r.address);
    (if AdminReserved(f, r, k) && HasProtocolClaim(f, k) then {Issue(LockedWithProtocolClaim, k)} else {})
    + (if IsLinkLocal(r.address) && r.interface.None? then {Issue(UnscopedLinkLocal, k)} else {})
  }

  function DnsKeys(f: Facts): set<Key> {
    set c | c in f.dns :: KeyOf(c.subnet, c.address)
  }

  function IpKeys(f: Facts): set<Key> {
    set r | r in f.ips :: KeyOf(r.subnet, r.address)
  }

  function ClaimKeys(f: Facts): set<Key> {
    IpKeys(f) + DnsKeys(f)
    + (set r | r in f.reservations :: KeyOf(r.subnet, r.address))
    + (set l | l in f.leases :: KeyOf(l.subnet, l.address))
  }

  function DuplicateDnsIssues(f: Facts): set<Issue> {
    set k | k in DnsKeys(f) && |DnsAt(f.dns, k)| >= 2 :: Issue(MultipleStaticDnsNames, k)
  }

  function DuplicateRowIssues(f: Facts): set<Issue> {
    set k | k in IpKeys(f) && |RowsAt(f.ips, k)| > 1 :: Issue(DuplicateIdentity, k)
  }

  ghost function Issues(f: Facts): set<Issue> {
    DuplicateDnsIssues(f)
    + (set c, i | c in f.dns && i in DnsIssues(f, c) :: i)
    + (set r, i | r in f.reservations && i in ReservationIssues(f, r) :: i)
    + (set l, i | l in f.leases && i in LeaseIssues(f, l) :: i)
    + (set r, i | r in f.ips && i in RowIssues(f, r) :: i)
    + DuplicateRowIssues(f)
  }

  /** The enabled claims on one address. */
  function Claims(f: Facts, k: Key): set<ClaimKind> {
    var rows, records := RowsAt(f.ips, k), DnsAt(f.dns, k);
    (if ProtectedKind(f, k.subnet, k.address) != Unprotected then {Topology} else {})
    + (if rows != [] && AdminReserved(f, rows[0], k) then {AdminReservation} else {})
    + (if records != [] && !CanName(f, k.subnet, k.address) then {Dns} else {})
    + (if |records| > 1 then {DuplicateDns} else {})
    + (if ClaimAt(f.reservations, k).Some? then {DhcpReservation}
       else if ClaimAt(f.leases, k).Some? then {DhcpLease} else {})
  }

  function ContestedKeys(f: Facts): set<Key> {
    set k | k in ClaimKeys(f) && |Claims(f, k)| > 1
  }

  // ---- Zero conflicts leave every address one claim ----

  /** The categories that report one address claimed twice. */
  predicate IsClaimConflict(c: Category) {
    c in {MultipleStaticDnsNames, ProtocolClaimOnProtectedAddress, CompetingDnsAndReservation, CompetingDnsAndLease,
          LockedWithProtocolClaim}
  }

  ghost predicate HasClaimConflict(f: Facts, k: Key) {
    exists i :: i in Issues(f) && i.key == k && IsClaimConflict(i.category)
  }

  lemma TwoMembers<T>(s: set<T>, a: T, b: T)
    requires a in s && b in s && a != b
    ensures |s| > 1
  {
    assert {a, b} <= s;
    SubsetCount({a, b}, s);
  }

  lemma SubsetCount<T>(a: set<T>, b: set<T>)
    requires a <= b
    ensures |a| <= |b|
  {
    assert b == a + (b - a);
  }

  lemma AtMostOne<T>(s: set<T>)
    requires |s| > 1
    ensures exists a, b :: a in s && b in s && a != b
  {
    var a :| a in s;
    var rest := s - {a};
    assert |rest| > 0;
    var b :| b in rest;
  }

  lemma DnsConflict(f: Facts, k: Key)
    requires Canonical(k.address) == k.address && DnsAt(f.dns, k) != [] && !CanName(f, k.subnet, k.address)
    requires ProtectedKind(f, k.subnet, k.address) != Unprotected || ClaimAt(f.reservations, k).Some?
          || ClaimAt(f.leases, k).Some?
    ensures HasClaimConflict(f, k)
  {
    DnsAtHas(f.dns, k);
    var c := DnsAt(f.dns, k)[0];
    assert c in DnsAt(f.dns, k);
    SameProtection(f, c.subnet, c.address);
    var category :=
      if ProtectedKind(f, k.subnet, k.address) != Unprotected then ProtocolClaimOnProtectedAddress
      else if ClaimAt(f.reservations, k).Some? then CompetingDnsAndReservation else CompetingDnsAndLease;
    assert Issue(category, k) in DnsIssues(f, c);
  }

  lemma DhcpOnProtected(f: Facts, k: Key)
    requires Canonical(k.address) == k.address && ProtectedKind(f, k.subnet, k.address) != Unprotected
    requires ClaimAt(f.reservations, k).Some? || ClaimAt(f.leases, k).Some?
    ensures HasClaimConflict(f, k)
  {
    ClaimAtHas(f.reservations, k);
    ClaimAtHas(f.leases, k);
    if ClaimAt(f.reservations, k).Some? {
      var r := ClaimAt(f.reservations, k).value;
      SameProtection(f, r.subnet, r.address);
      assert Issue(ProtocolClaimOnProtectedAddress, k) in ReservationIssues(f, r);
    } else {
      var l := ClaimAt(f.leases, k).value;
      SameProtection(f, l.subnet, l.address);
      assert Issue(ProtocolClaimOnProtectedAddress, k) in LeaseIssues(f, l);
    }
  }

  lemma LockedConflict(f: Facts, k: Key)
    requires Canonical(k.address) == k.address && RowsAt(f.ips, k) != [] && AdminReserved(f, RowsAt(f.ips, k)[0], k)
    requires HasProtocolClaim(f, k)
    ensures HasClaimConflict(f, k)
  {
    RowsAtHas(f.ips, k);
    var r := RowsAt(f.ips, k)[0];
    assert r in RowsAt(f.ips, k);
    assert Issue(LockedWithProtocolClaim, k) in RowIssues(f, r);
  }

  lemma DuplicateConflict(f: Facts, k: Key)
    requires |DnsAt(f.dns, k)| > 1
    ensures HasClaimConflict(f, k)
  {
    DnsAtHas(f.dns, k);
    assert DnsAt(f.dns, k)[0] in DnsAt(f.dns, k);
    assert Issue(MultipleStaticDnsNames, k) in DuplicateDnsIssues(f);
  }

  /** An address with two claims is reported as a claim conflict. */
  lemma ContestedIsReported(f: Facts, k: Key)
    requires Canonical(k.address) == k.address && |Claims(f, k)| > 1
    ensures HasClaimConflict(f, k)
  {
    hide HasClaimConflict, AdminReserved, ProtectedKind, CanName;
    AtMostOne(Claims(f, k));
    var a, b :| a in Claims(f, k) && b in Claims(f, k) && a != b;
    if |DnsAt(f.dns, k)| > 1 {
      DuplicateConflict(f, k);
    } else if AdminReservation in Claims(f, k) && HasProtocolClaim(f, k) {
      LockedConflict(f, k);
    } else if Dns in Claims(f, k) {
      AdminIsUnprotected(f, k);
      DnsConflict(f, k);
    } else {
      AdminIsUnprotected(f, k);
      DhcpOnProtected(f, k);
    }
  }

  lemma AdminIsUnprotected(f: Facts, k: Key)
    ensures AdminReservation in Claims(f, k) ==> Topology !in Claims(f, k)
  {}

  lemma IssueFrom(f: Facts, i: Issue)
    requires i in Issues(f) && IsClaimConflict(i.category)
    ensures i in DuplicateDnsIssues(f)
         || (exists c :: c in f.dns && i in DnsIssues(f, c))
         || (exists r :: r in f.reservations && i in ReservationIssues(f, r))
         || (exists l :: l in f.leases && i in LeaseIssues(f, l))
         || (exists r :: r in f.ips && i in RowIssues(f, r))
  {
    hide DuplicateDnsIssues, DnsIssues, ReservationIssues, LeaseIssues, RowIssues;
  }

  /** A reported claim conflict is an address with two claims, unless its table rows are themselves duplicated. */
  lemma ReportedIsContested(f: Facts, k: Key)
    requires |RowsAt(f.ips, k)| <= 1 && HasClaimConflict(f, k)
    ensures |Claims(f, k)| > 1
  {
    hide Issues, Claims, DuplicateDnsIssues, DnsIssues, ReservationIssues, LeaseIssues, RowIssues;
    var i :| i in Issues(f) && i.key == k && IsClaimConflict(i.category);
    IssueFrom(f, i);
    if i in DuplicateDnsIssues(f) {
      DuplicateIsContested(f, i);
    } else if c :| c in f.dns && i in DnsIssues(f, c) {
      DnsIsContested(f, c, i);
    } else if r :| r in f.reservations && i in ReservationIssues(f, r) {
      ReservationIsContested(f, r, i);
    } else if l :| l in f.leases && i in LeaseIssues(f, l) {
      LeaseIsContested(f, l, i);
    } else {
      var r :| r in f.ips && i in RowIssues(f, r);
      LockedIsContested(f, k, r, i);
    }
  }

  lemma DuplicateIsContested(f: Facts, i: Issue)
    requires i in DuplicateDnsIssues(f)
    ensures |Claims(f, i.key)| > 1
  {
    hide ProtectedKind;
    var k := i.key;
    SameProtection(f, k.subnet, k.address);
    TwoMembers(Claims(f, k), if CanName(f, k.subnet, k.address) then Topology else Dns, DuplicateDns);
  }

  lemma DnsIsContested(f: Facts, c: DnsClaim, i: Issue)
    requires c in f.dns && i in DnsIssues(f, c) && IsClaimConflict(i.category)
    ensures |Claims(f, i.key)| > 1
  {
    hide ProtectedKind, CanName;
    var k := i.key;
    DnsAtHas(f.dns, k);
    SameProtection(f, c.subnet, c.address);
    assert c in DnsAt(f.dns, k);
    var dhcp := if ClaimAt(f.reservations, k).Some? then DhcpReservation else DhcpLease;
    TwoMembers(Claims(f, k), Dns, if i.category == ProtocolClaimOnProtectedAddress then Topology else dhcp);
  }

  lemma ReservationIsContested(f: Facts, r: Claimed, i: Issue)
    requires r in f.reservations && i in ReservationIssues(f, r)
    ensures |Claims(f, i.key)| > 1
  {
    hide ProtectedKind, CanName;
    ClaimAtHas(f.reservations, i.key);
    SameProtection(f, r.subnet, r.address);
    TwoMembers(Claims(f, i.key), Topology, DhcpReservation);
  }

  lemma LeaseIsContested(f: Facts, l: Claimed, i: Issue)
    requires l in f.leases && i in LeaseIssues(f, l) && IsClaimConflict(i.category)
    ensures |Claims(f, i.key)| > 1
  {
    hide ProtectedKind, CanName;
    ClaimAtHas(f.leases, i.key);
    SameProtection(f, l.subnet, l.address);
    TwoMembers(Claims(f, i.key), Topology,
               if ClaimAt(f.reservations, i.key).Some? then DhcpReservation else DhcpLease);
  }

  lemma LockedIsContested(f: Facts, k: Key, r: IpRow, i: Issue)
    requires |RowsAt(f.ips, k)| <= 1 && r in f.ips
    requires i in RowIssues(f, r) && IsClaimConflict(i.category) && i.key == k
    ensures |Claims(f, k)| > 1
  {
    hide ProtectedKind, IsLegacyLocal;
    RowsAtHas(f.ips, k);
    assert r in RowsAt(f.ips, k);
    assert RowsAt(f.ips, k)[0] == r;
    SameProtection(f, k.subnet, k.address);
    var other :=
      if DnsAt(f.dns, k) != [] then Dns else if ClaimAt(f.reservations, k).Some? then DhcpReservation else DhcpLease;
    TwoMembers(Claims(f, k), AdminReservation, other);
  }

  lemma ClaimKeysCanonical(f: Facts)
    ensures forall k :: k in ClaimKeys(f) ==> Canonical(k.address) == k.address
  {}

  /** With no blocking conflict, no address has two claims: a reservation absorbs its lease, a gateway its DNS name. */
  lemma NoConflictOneClaim(f: Facts)
    requires Issues(f) == {}
    ensures ContestedKeys(f) == {}
    ensures forall k: Key :: Canonical(k.address) == k.address ==> |Claims(f, k)| <= 1
  {
    hide Claims, ClaimKeys;
    ClaimKeysCanonical(f);
    forall k: Key | Canonical(k.address) == k.address ensures |Claims(f, k)| <= 1 {
      if |Claims(f, k)| > 1 {
        ContestedIsReported(f, k);
      }
    }
  }

  /** With one table row an address, the two-claim addresses are exactly the ones reported as claim conflicts. */
  lemma ContestedExactly(f: Facts, k: Key)
    requires |RowsAt(f.ips, k)| <= 1 && Canonical(k.address) == k.address
    ensures |Claims(f, k)| > 1 <==> HasClaimConflict(f, k)
  {
    if |Claims(f, k)| > 1 {
      ContestedIsReported(f, k);
    }
    if HasClaimConflict(f, k) {
      ReportedIsContested(f, k);
    }
  }

  // ---- The inventory loops ----

  /** The report: its conflicts and how many addresses carry more than one claim. */
  method InventoryLegacyIpLifecycle(f: Facts) returns (issues: set<Issue>, multipleClaims: nat)
    ensures issues == Issues(f)
    ensures multipleClaims == |ContestedKeys(f)|
    ensures issues == {} ==> multipleClaims == 0
  {
    hide DnsIssues, ReservationIssues, LeaseIssues, RowIssues, Claims, ClaimKeys, DuplicateDnsIssues,
      DuplicateRowIssues;
    issues := DuplicateDnsIssues(f);
    for i := 0 to |f.dns|
      invariant issues == DuplicateDnsIssues(f) + (set c, x | c in f.dns[..i] && x in DnsIssues(f, c) :: x)
    {
      issues := issues + DnsIssues(f, f.dns[i]);
      assert f.dns[..i + 1] == f.dns[..i] + [f.dns[i]];
    }
    assert f.dns[..|f.dns|] == f.dns;
    ghost var s1 := issues;
    for i := 0 to |f.reservations|
      invariant issues == s1 + (set r, x | r in f.reservations[..i] && x in ReservationIssues(f, r) :: x)
    {
      issues := issues + ReservationIssues(f, f.reservations[i]);
      assert f.reservations[..i + 1] == f.reservations[..i] + [f.reservations[i]];
    }
    assert f.reservations[..|f.reservations|] == f.reservations;
    ghost var s2 := issues;
    for i := 0 to |f.leases|
      invariant issues == s2 + (set l, x | l in f.leases[..i] && x in LeaseIssues(f, l) :: x)
    {
      issues := issues + LeaseIssues(f, f.leases[i]);
      assert f.leases[..i + 1] == f.leases[..i] + [f.leases[i]];
    }
    assert f.leases[..|f.leases|] == f.leases;
    ghost var s3 := issues;
    for i := 0 to |f.ips|
      invariant issues == s3 + (set r, x | r in f.ips[..i] && x in RowIssues(f, r) :: x)
    {
      issues := issues + RowIssues(f, f.ips[i]);
      assert f.ips[..i + 1] == f.ips[..i] + [f.ips[i]];
    }
    assert f.ips[..|f.ips|] == f.ips;
    issues := issues + DuplicateRowIssues(f);
    multipleClaims := CountContested(f);
    if issues == {} {
      NoConflictOneClaim(f);
    }
  }

  method CountContested(f: Facts) returns (multipleClaims: nat)
    ensures multipleClaims == |ContestedKeys(f)|
  {
    hide Claims, ClaimKeys;
    multipleClaims := 0;
    var claimKeys := ClaimKeys(f);
    ghost var seen: set<Key> := {};
    while claimKeys != {}
      invariant seen !! claimKeys && seen + claimKeys == ClaimKeys(f)
      invariant multipleClaims == |set k | k in seen && |Claims(f, k)| > 1|
      decreases claimKeys
    {
      var key :| key in claimKeys;
      ghost var counted := set k | k in seen && |Claims(f, k)| > 1;
      if |Claims(f, key)| > 1 {
        multipleClaims := multipleClaims + 1;
        assert (set k | k in seen + {key} && |Claims(f, k)| > 1) == counted + {key};
      } else {
        assert (set k | k in seen + {key} && |Claims(f, k)| > 1) == counted;
      }
      seen := seen + {key};
      claimKeys := claimKeys - {key};
    }
    assert (set k | k in seen && |Claims(f, k)| > 1) == ContestedKeys(f);
  }
}
