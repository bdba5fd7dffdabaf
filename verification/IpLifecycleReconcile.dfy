/** reconcileMigratedIpLifecycle and the upsert it commits (server/src/db/ip-identity.js). */
module IpLifecycleReconcile {
  import opened Options
  import opened IpLifecycleFacts
  import opened IpLifecycleInventory

  datatype State = Unassigned | Reserved | StaticDns | DynamicDhcp | StaticDhcp | System | Gateway
  datatype Owner =
    | NoOwner | OfTopology(subnet: nat) | OfReservation(id: nat) | OfDns(id: nat) | OfLease(id: nat) | OfAdmin

  /** A row of the migrated ip_addresses table. */
  datatype Row =
    Row(id: nat, subnet: nat, address: Text, interface: Option<nat>, state: State, owner: Owner, rogue: bool)

  /** What a claimed address gets. */
  datatype Allocation = Allocation(state: State, owner: Owner)

  /** Which test comes first; a reservation always comes before its lease. */
  datatype Order = ReservationDnsLease | DnsReservationLease | ReservationLeaseDns

  function ProtectedAllocation(f: Facts, k: Key): Option<Allocation> {
    match ProtectedKind(f, k.subnet, k.address)
    case Unprotected => None
    case GatewayAddress => Some(Allocation(Gateway, OfTopology(k.subnet)))
    case SystemAddress => Some(Allocation(System, OfTopology(k.subnet)))
  }

  function ByReservation(f: Facts, k: Key): Option<Allocation> {
    var r := ClaimAt(f.reservations, k);
    if r.Some? then Some(Allocation(StaticDhcp, OfReservation(r.value.id))) else None
  }

  function ByDns(f: Facts, k: Key): Option<Allocation> {
    var records := DnsAt(f.dns, k);
    if records != [] then Some(Allocation(StaticDns, OfDns(records[0].id))) else None
  }

  function ByLease(f: Facts, k: Key): Option<Allocation> {
    var l := ClaimAt(f.leases, k);
    if l.Some? then Some(Allocation(DynamicDhcp, OfLease(l.value.id))) else None
  }

  function OrElse(a: Option<Allocation>, b: Option<Allocation>): Option<Allocation> {
    if a.Some? then a else b
  }

  function ByProtocol(order: Order, f: Facts, k: Key): Option<Allocation> {
    var r, d, l := ByReservation(f, k), ByDns(f, k), ByLease(f, k);
    match order
    case ReservationDnsLease => OrElse(r, OrElse(d, l))
    case DnsReservationLease => OrElse(d, OrElse(r, l))
    case ReservationLeaseDns => OrElse(r, OrElse(l, d))
  }

  /** The allocation of a candidate, given the last row stored for it. */
  function AllocationIn(order: Order, f: Facts, k: Key, existing: Option<Row>): Allocation {
    var claimed := OrElse(ProtectedAllocation(f, k), ByProtocol(order, f, k));
    if claimed.Some? then claimed.value
    else if existing.Some? && existing.value.state == Reserved then Allocation(Reserved, OfAdmin)
    else Allocation(Unassigned, NoOwner)
  }

  /** The source's order. */
  function AllocationOf(f: Facts, k: Key, existing: Option<Row>): Allocation {
    AllocationIn(ReservationDnsLease, f, k, existing)
  }

  // ---- The order of the tests does not matter ----

  /** The facts the reconcile reads: as inventoried, except that leases may have run out since. */
  ghost predicate LaterFacts(before: Facts, after: Facts) {
    && after.subnets == before.subnets && after.reservations == before.reservations && after.dns == before.dns
    && forall l :: l in after.leases ==> l in before.leases
  }

  lemma LaterLease(before: Facts, after: Facts, k: Key)
    requires LaterFacts(before, after) && ClaimAt(after.leases, k).Some?
    ensures ClaimAt(before.leases, k).Some?
  {
    ClaimAtHas(after.leases, k);
    ClaimAtHas(before.leases, k);
  }

  lemma DnsStandsAlone(before: Facts, after: Facts, k: Key)
    requires Issues(before) == {} && LaterFacts(before, after) && Canonical(k.address) == k.address
    requires DnsAt(after.dns, k) != [] && ProtectedKind(after, k.subnet, k.address) == Unprotected
    ensures ClaimAt(after.reservations, k).None? && ClaimAt(after.leases, k).None?
  {
    hide Issues;
    SameProtection(before, k.subnet, k.address);
    if ClaimAt(after.leases, k).Some? {
      LaterLease(before, after, k);
    }
    if ClaimAt(before.reservations, k).Some? || ClaimAt(before.leases, k).Some? {
      DnsConflict(before, k);
    }
  }

  /** After an inventory without conflicts every order of the tests allocates the same. */
  lemma OrderDoesNotMatter(before: Facts, after: Facts, k: Key, existing: Option<Row>, order: Order)
    requires Issues(before) == {} && LaterFacts(before, after) && Canonical(k.address) == k.address
    ensures AllocationIn(order, after, k, existing) == AllocationOf(after, k, existing)
  {
    hide Issues, ProtectedKind;
    if DnsAt(after.dns, k) != [] && ProtectedKind(after, k.subnet, k.address) == Unprotected {
      DnsStandsAlone(before, after, k);
    }
  }

  function StateOfClaim(c: ClaimKind, gateway: bool): State {
    match c
    case Topology => if gateway then Gateway else System
    case AdminReservation => Reserved
    case Dns => StaticDns
    case DuplicateDns => StaticDns
    case DhcpReservation => StaticDhcp
    case DhcpLease => DynamicDhcp
  }

  /** Each address with a protocol or topology claim gets the state of that one claim. */
  lemma AllocatedByItsClaim(f: Facts, k: Key, existing: Option<Row>, c: ClaimKind)
    requires Issues(f) == {} && Canonical(k.address) == k.address
    requires c in Claims(f, k) && c != AdminReservation
    ensures Claims(f, k) == {c}
    ensures AllocationOf(f, k, existing).state == StateOfClaim(c, CanName(f, k.subnet, k.address))
  {
    hide Issues, ProtectedKind, CanName, IsLegacyLocal;
    NoConflictOneClaim(f);
    SameProtection(f, k.subnet, k.address);
    OnlyMember(Claims(f, k), c);
  }

  lemma OnlyMember<T>(s: set<T>, c: T)
    requires c in s && |s| <= 1
    ensures s == {c}
  {
    var rest := s - {c};
    assert s == rest + {c};
    assert |rest| == 0;
  }

  // ---- Writing the rows ----

  /** One candidate's values, keyed by subnet and canonical address. */
  datatype Write = Write(key: Key, allocation: Allocation)

  predicate At(r: Row, k: Key) {
    r.subnet == k.subnet && r.address == k.address && r.interface.None?
  }

  function FindRow(rows: seq<Row>, k: Key): (i: nat)
    ensures i <= |rows| && (i < |rows| ==> At(rows[i], k))
    ensures forall j :: 0 <= j < i ==> !At(rows[j], k)
  {
    if rows == [] then 0 else if At(rows[0], k) then 0 else 1 + FindRow(rows[1..], k)
  }

  function Updated(r: Row, a: Allocation): Row {
    r.(state := a.state, owner := a.owner, rogue := if a.state == Unassigned then r.rogue else false)
  }

  function NewRow(id: nat, w: Write): Row {
    Row(id, w.key.subnet, w.key.address, None, w.allocation.state, w.allocation.owner, false)
  }

  function WriteOne(rows: seq<Row>, nextId: nat, w: Write): (seq<Row>, nat) {
    var i := FindRow(rows, w.key);
    if i < |rows| then (rows[i := Updated(rows[i], w.allocation)], nextId)
    else (rows + [NewRow(nextId, w)], nextId + 1)
  }

  function WriteAll(rows: seq<Row>, nextId: nat, writes: seq<Write>): (seq<Row>, nat) {
    if writes == [] then (rows, nextId)
    else
      var n := |writes| - 1;
      var before := WriteAll(rows, nextId, writes[..n]);
      WriteOne(before.0, before.1, writes[n])
  }

  // ---- The candidates ----

  predicate IsAddress(k: Key) {
    k.address.Spelling? && Canonical(k.address) == k.address
  }

  function KeyIf(subnet: nat, t: Text): set<Key> {
    if t.Spelling? then {KeyOf(subnet, t)} else {}
  }

  function SubnetKeys(s: Subnet): set<Key> {
    if !s.isAllocated then {}
    else KeyIf(s.id, s.network) + KeyIf(s.id, s.broadcast)
         + (if s.gateway.Some? then KeyIf(s.id, s.gateway.value) else {})
  }

  ghost function CandidateKeys(f: Facts, rows: seq<Row>): set<Key> {
    (set r, k | r in rows && k in KeyIf(r.subnet, r.address) :: k)
    + (set r, k | r in f.reservations && k in KeyIf(r.subnet, r.address) :: k)
    + (set l, k | l in f.leases && k in KeyIf(l.subnet, l.address) :: k)
    + (set d, k | d in f.dns && k in KeyIf(d.subnet, d.address) :: k)
    + (set s, k | s in f.subnets && k in SubnetKeys(s) :: k)
  }

  /** The last row stored for a key, whatever its spelling or interface. */
  function Existing(rows: seq<Row>, k: Key): Option<Row> {
    if rows == [] then None
    else
      var last := rows[|rows| - 1];
      if KeyOf(last.subnet, last.address) == k then Some(last) else Existing(rows[..|rows| - 1], k)
  }

  /** A list of every candidate once, in any order, with its allocation. */
  ghost predicate WritesOf(f: Facts, rows: seq<Row>, writes: seq<Write>) {
    && (forall i, j :: 0 <= i < j < |writes| ==> writes[i].key != writes[j].key)
    && (forall k :: k in CandidateKeys(f, rows) <==> exists w :: w in writes && w.key == k)
    && (forall w :: w in writes ==> w.allocation == AllocationOf(f, w.key, Existing(rows, w.key)))
  }

  // ---- What the writes leave ----

  /** The row the upsert finds for the key carries the allocation. */
  ghost predicate Carries(rows: seq<Row>, w: Write) {
    var i := FindRow(rows, w.key);
    i < |rows| && rows[i] == Updated(rows[i], w.allocation)
  }

  lemma FindRowIs(rows: seq<Row>, k: Key, i: nat)
    requires i <= |rows| && (i < |rows| ==> At(rows[i], k)) && forall j :: 0 <= j < i ==> !At(rows[j], k)
    ensures FindRow(rows, k) == i
  {}

  lemma WriteOneCarries(rows: seq<Row>, nextId: nat, w: Write, v: Write)
    requires Carries(rows, v) && v.key != w.key
    ensures Carries(WriteOne(rows, nextId, w).0, v)
  {
    var i := FindRow(rows, v.key);
    FindRowIs(WriteOne(rows, nextId, w).0, v.key, i);
  }

  lemma WriteOneCarriesItself(rows: seq<Row>, nextId: nat, w: Write)
    ensures Carries(WriteOne(rows, nextId, w).0, w)
  {
    FindRowIs(WriteOne(rows, nextId, w).0, w.key, FindRow(rows, w.key));
  }

  ghost predicate DistinctKeys(writes: seq<Write>) {
    forall i, j :: 0 <= i < j < |writes| ==> writes[i].key != writes[j].key
  }

  /** After the transaction every candidate's row carries its allocation. */
  lemma {:induction false} WritesCarried(rows: seq<Row>, nextId: nat, writes: seq<Write>)
    requires DistinctKeys(writes)
    ensures forall w :: w in writes ==> Carries(WriteAll(rows, nextId, writes).0, w)
  {
    hide Carries, WriteOne;
    if writes != [] {
      var n := |writes| - 1;
      WritesCarried(rows, nextId, writes[..n]);
      var before := WriteAll(rows, nextId, writes[..n]);
      WriteOneCarriesItself(before.0, before.1, writes[n]);
      forall w | w in writes[..n] ensures Carries(WriteAll(rows, nextId, writes).0, w) {
        WriteOneCarries(before.0, before.1, writes[n], w);
      }
      assert writes == writes[..n] + [writes[n]];
    }
  }

  /** A write whose row already carries the allocation changes nothing. */
  lemma {:induction false} CarriedWritesNothing(rows: seq<Row>, nextId: nat, writes: seq<Write>)
    requires forall w :: w in writes ==> Carries(rows, w)
    ensures WriteAll(rows, nextId, writes) == (rows, nextId)
  {
    if writes != [] {
      var n := |writes| - 1;
      CarriedWritesNothing(rows, nextId, writes[..n]);
      assert Carries(rows, writes[n]);
      var i := FindRow(rows, writes[n].key);
      assert rows[i := rows[i]] == rows;
    }
  }

  lemma WriteOneExisting(rows: seq<Row>, nextId: nat, w: Write, k: Key)
    requires IsAddress(w.key)
    ensures var after := WriteOne(rows, nextId, w).0;
            && (k != w.key ==> Existing(after, k) == Existing(rows, k))
            && (Existing(after, w.key) == Existing(rows, w.key)
                || (Existing(after, w.key).Some? && Existing(after, w.key).value.state == w.allocation.state))
  {
    var i := FindRow(rows, w.key);
    if i == |rows| {
      var after := rows + [NewRow(nextId, w)];
      assert after[..|rows|] == rows;
    } else {
      ExistingAfterUpdate(rows, i, Updated(rows[i], w.allocation), k);
      ExistingAfterUpdate(rows, i, Updated(rows[i], w.allocation), w.key);
    }
  }

  lemma ExistingAfterUpdate(rows: seq<Row>, i: nat, r: Row, k: Key)
    requires i < |rows| && r.subnet == rows[i].subnet && r.address == rows[i].address
    ensures var after := rows[i := r];
            Existing(after, k) == Existing(rows, k)
            || (Existing(after, k) == Some(r) && KeyOf(r.subnet, r.address) == k)
  {
    var n := |rows| - 1;
    var after := rows[i := r];
    if i < n {
      assert after[..n] == rows[..n][i := r];
      ExistingAfterUpdate(rows[..n], i, r, k);
    } else {
      assert after[..n] == rows[..n];
    }
  }

  lemma {:induction false} WriteAllExisting(rows: seq<Row>, nextId: nat, writes: seq<Write>, k: Key)
    requires forall w :: w in writes ==> IsAddress(w.key)
    ensures var after := WriteAll(rows, nextId, writes).0;
            Existing(after, k) == Existing(rows, k)
            || exists w :: w in writes && w.key == k && Existing(after, k).Some?
                 && Existing(after, k).value.state == w.allocation.state
  {
    hide WriteOne;
    if writes != [] {
      var n := |writes| - 1;
      WriteAllExisting(rows, nextId, writes[..n], k);
      var before := WriteAll(rows, nextId, writes[..n]);
      WriteOneExisting(before.0, before.1, writes[n], k);
      assert forall w :: w in writes[..n] ==> w in writes;
      assert writes[n] in writes;
    }
  }

  lemma {:induction false} WriteAllKeys(rows: seq<Row>, nextId: nat, writes: seq<Write>)
    ensures forall r :: r in WriteAll(rows, nextId, writes).0 ==>
              (exists o :: o in rows && o.subnet == r.subnet && o.address == r.address)
              || (exists w :: w in writes && w.key == Key(r.subnet, r.address))
  {
    if writes != [] {
      var n := |writes| - 1;
      WriteAllKeys(rows, nextId, writes[..n]);
      assert writes == writes[..n] + [writes[n]];
    }
  }

  lemma CandidateIsAddress(f: Facts, rows: seq<Row>)
    ensures forall k :: k in CandidateKeys(f, rows) ==> IsAddress(k)
  {}

  /** The second run has no candidates the first did not. */
  lemma SameCandidates(f: Facts, rows: seq<Row>, nextId: nat, writes: seq<Write>, k: Key)
    requires WritesOf(f, rows, writes)
    requires k in CandidateKeys(f, WriteAll(rows, nextId, writes).0)
    ensures k in CandidateKeys(f, rows)
  {
    WriteAllKeys(rows, nextId, writes);
    CandidateIsAddress(f, rows);
    var after := WriteAll(rows, nextId, writes).0;
    if r :| r in after && k in KeyIf(r.subnet, r.address) {
      if o :| o in rows && o.subnet == r.subnet && o.address == r.address {
        assert k in KeyIf(o.subnet, o.address);
      } else {
        var w :| w in writes && w.key == Key(r.subnet, r.address);
        assert w.key in CandidateKeys(f, rows);
      }
    }
  }

  /** A candidate's allocation reads the same after the run that wrote it. */
  lemma SameAllocation(f: Facts, rows: seq<Row>, nextId: nat, writes: seq<Write>, k: Key)
    requires WritesOf(f, rows, writes)
    ensures AllocationOf(f, k, Existing(WriteAll(rows, nextId, writes).0, k)) == AllocationOf(f, k, Existing(rows, k))
  {
    hide ProtectedAllocation, ByProtocol, WriteAll;
    CandidateIsAddress(f, rows);
    WriteAllExisting(rows, nextId, writes, k);
  }

  /** Retrying a reconcile that had already committed changes nothing. */
  lemma ReconcileIsIdempotent(f: Facts, rows: seq<Row>, nextId: nat, writes: seq<Write>, again: seq<Write>)
    requires WritesOf(f, rows, writes)
    requires WritesOf(f, WriteAll(rows, nextId, writes).0, again)
    ensures var once := WriteAll(rows, nextId, writes);
            WriteAll(once.0, once.1, again) == once
  {
    hide CandidateKeys, WriteAll, AllocationOf, Carries;
    var once := WriteAll(rows, nextId, writes);
    WritesCarried(rows, nextId, writes);
    forall w | w in again ensures Carries(once.0, w) {
      SameCandidates(f, rows, nextId, writes, w.key);
      var v :| v in writes && v.key == w.key;
      SameAllocation(f, rows, nextId, writes, w.key);
      assert v == w;
    }
    CarriedWritesNothing(once.0, once.1, again);
  }

  /** After a conflict-free inventory every claimed address ends in the state of its one claim. */
  lemma ReconciledByClaim(f: Facts, rows: seq<Row>, nextId: nat, writes: seq<Write>, k: Key, c: ClaimKind)
    requires Issues(f) == {} && WritesOf(f, rows, writes) && k in CandidateKeys(f, rows)
    requires c in Claims(f, k) && c != AdminReservation
    ensures var after := WriteAll(rows, nextId, writes).0;
            var i := FindRow(after, k);
            i < |after| && after[i].state == StateOfClaim(c, CanName(f, k.subnet, k.address))
  {
    hide Issues, Claims, CandidateKeys, WriteAll, AllocationOf, CanName;
    CandidateIsAddress(f, rows);
    WritesCarried(rows, nextId, writes);
    var w :| w in writes && w.key == k;
    AllocatedByItsClaim(f, k, Existing(rows, k), c);
    assert Carries(WriteAll(rows, nextId, writes).0, w);
  }

  // ---- The reconcile itself ----

  function CountState(writes: seq<Write>, s: State): nat {
    if writes == [] then 0
    else CountState(writes[..|writes| - 1], s) + if writes[|writes| - 1].allocation.state == s then 1 else 0
  }

  class IpTable {
    var rows: seq<Row>
    var nextId: nat

    constructor (rows: seq<Row>, nextId: nat)
      ensures this.rows == rows && this.nextId == nextId
    {
      this.rows, this.nextId := rows, nextId;
    }

    /** Inserts or updates the row of every candidate, counting both and each state. */
    method WriteMigratedIpLifecycleRows(writes: seq<Write>)
      returns (inserted: nat, updated: nat, stateCounts: map<State, nat>)
      modifies this
      ensures (rows, nextId) == WriteAll(old(rows), old(nextId), writes)
      ensures inserted + updated == |writes| && |rows| == |old(rows)| + inserted && nextId == old(nextId) + inserted
      ensures forall s :: (s in stateCounts <==> CountState(writes, s) > 0)
                       && (s in stateCounts ==> stateCounts[s] == CountState(writes, s))
    {
      inserted, updated, stateCounts := 0, 0, map[];
      for i := 0 to |writes|
        invariant (rows, nextId) == WriteAll(old(rows), old(nextId), writes[..i])
        invariant inserted + updated == i && |rows| == |old(rows)| + inserted && nextId == old(nextId) + inserted
        invariant forall s :: (s in stateCounts <==> CountState(writes[..i], s) > 0)
                           && (s in stateCounts ==> stateCounts[s] == CountState(writes[..i], s))
      {
        assert writes[..i + 1][..i] == writes[..i];
        var w := writes[i];
        var row := FindRow(rows, w.key);
        if row < |rows| {
          rows := rows[row := Updated(rows[row], w.allocation)];
          updated := updated + 1;
        } else {
          rows, nextId := rows + [NewRow(nextId, w)], nextId + 1;
          inserted := inserted + 1;
        }
        var s := w.allocation.state;
        stateCounts := stateCounts[s := (if s in stateCounts then stateCounts[s] else 0) + 1];
      }
      assert writes[..|writes|] == writes;
    }

    /** Gives every stored, claimed or topology address its one allocation. */
    method ReconcileMigratedIpLifecycle(f: Facts) returns (writes: seq<Write>)
      modifies this
      ensures WritesOf(f, old(rows), writes)
      ensures (rows, nextId) == WriteAll(old(rows), old(nextId), writes)
    {
      hide AllocationOf, Existing, CandidateKeys, WriteAll;
      var candidates := Candidates(f);
      writes := [];
      ghost var done: set<Key> := {};
      while candidates != {}
        invariant rows == old(rows) && nextId == old(nextId)
        invariant done !! candidates && done + candidates == CandidateKeys(f, rows)
        invariant DistinctKeys(writes)
        invariant forall w :: w in writes ==>
                    w.key in done && w.allocation == AllocationOf(f, w.key, Existing(rows, w.key))
        invariant forall k :: k in done ==> exists w :: w in writes && w.key == k
        decreases candidates
      {
        var k :| k in candidates;
        var w := Write(k, AllocationOf(f, k, Existing(rows, k)));
        ghost var before := writes;
        writes := writes + [w];
        assert w in writes && forall v :: v in before ==> v in writes;
        done, candidates := done + {k}, candidates - {k};
      }
      var _, _, _ := WriteMigratedIpLifecycleRows(writes);
    }

    method Candidates(f: Facts) returns (keys: set<Key>)
      ensures keys == CandidateKeys(f, rows)
    {
      hide SubnetKeys, KeyIf;
      keys := {};
      for i := 0 to |rows|
        invariant keys == set r, k | r in rows[..i] && k in KeyIf(r.subnet, r.address) :: k
      {
        assert rows[..i + 1] == rows[..i] + [rows[i]];
        keys := keys + KeyIf(rows[i].subnet, rows[i].address);
      }
      assert rows[..|rows|] == rows;
      var claimed := KeysOfClaims(f.reservations);
      var leased := KeysOfClaims(f.leases);
      var named: set<Key> := {};
      for i := 0 to |f.dns|
        invariant named == set d, k | d in f.dns[..i] && k in KeyIf(d.subnet, d.address) :: k
      {
        assert f.dns[..i + 1] == f.dns[..i] + [f.dns[i]];
        named := named + KeyIf(f.dns[i].subnet, f.dns[i].address);
      }
      assert f.dns[..|f.dns|] == f.dns;
      var topology: set<Key> := {};
      for i := 0 to |f.subnets|
        invariant topology == set s, k | s in f.subnets[..i] && k in SubnetKeys(s) :: k
      {
        assert f.subnets[..i + 1] == f.subnets[..i] + [f.subnets[i]];
        topology := topology + SubnetKeys(f.subnets[i]);
      }
      assert f.subnets[..|f.subnets|] == f.subnets;
      keys := keys + claimed + leased + named + topology;
    }
  }

  method KeysOfClaims(claims: seq<Claimed>) returns (keys: set<Key>)
    ensures keys == set c, k | c in claims && k in KeyIf(c.subnet, c.address) :: k
  {
    hide KeyIf;
    keys := {};
    for i := 0 to |claims|
      invariant keys == set c, k | c in claims[..i] && k in KeyIf(c.subnet, c.address) :: k
    {
      assert claims[..i + 1] == claims[..i] + [claims[i]];
      keys := keys + KeyIf(claims[i].subnet, claims[i].address);
    }
    assert claims[..|claims|] == claims;
  }
}
