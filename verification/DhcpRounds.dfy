/**
 * Runs of lease reports (server/src/services/dhcp-lease-sync.js): each report is named, stored and
 * synced into DNS, and operators and the retirement sweep edit the tables in between.
 */
module DhcpRounds {
  import opened Addresses
  import opened Options
  import opened DhcpTables
  import opened DnsNames
  import opened DhcpLeaseNames
  import opened DhcpLeaseRetention
  import DhcpDnsSync

  datatype Tables = Tables(records: seq<Record>, nextId: nat, leases: seq<Lease>)

  datatype Inputs = Inputs(
    batch: seq<Lease>,
    reservations: seq<Reserved>,
    holderMac: map<Ip, string>,
    resolver: Resolver,
    fallbackName: string -> string,
    macFromDuid: string -> Option<string>,
    now: int)

  function FactsOf(db: Tables, inp: Inputs): Facts {
    Facts(db.records, db.leases, inp.holderMac, inp.resolver, inp.fallbackName, inp.macFromDuid)
  }

  function NamedBatch(db: Tables, inp: Inputs): (r: seq<Lease>)
    ensures |r| == |inp.batch|
  {
    Named(FactsOf(db, inp), inp.batch)
  }

  function TargetsOf(db: Tables, inp: Inputs): seq<DhcpDnsSync.Target> {
    DhcpDnsSync.Targets(inp.resolver, DhcpDnsSync.Entries(NamedBatch(db, inp), inp.reservations))
  }

  /** One report: names, then stored leases, then DNS records. */
  function Ingest(db: Tables, inp: Inputs): Tables {
    var synced := DhcpDnsSync.SyncTargets(db.records, db.nextId, DhcpDnsSync.ZoneIds(inp.resolver), TargetsOf(db, inp));
    Tables(synced.records, synced.nextId, Replaced(db.leases, NamedBatch(db, inp), inp.reservations, inp.now))
  }

  // ---- Targets of a batch ----

  lemma TargetsFrom(resolver: Resolver, entries: seq<DhcpDnsSync.Entry>)
    ensures forall t :: t in DhcpDnsSync.Targets(resolver, entries) <==>
              exists e :: e in entries && t in DhcpDnsSync.TargetOf(resolver, e)
  {
    hide DhcpDnsSync.TargetOf;
    if entries != [] {
      var n := |entries| - 1;
      TargetsFrom(resolver, entries[..n]);
      assert entries == entries[..n] + [entries[n]];
    }
  }

  lemma LeaseEntriesFrom(leases: seq<Lease>, reserved: set<Ip>)
    ensures forall e :: e in DhcpDnsSync.LeaseEntries(leases, reserved) <==>
              exists l :: l in leases && l.ip !in reserved
                && e == DhcpDnsSync.Entry(l.ip, l.hostname, l.subnet, Dhcp)
  {
    if leases != [] {
      LeaseEntriesFrom(leases[1..], reserved);
      assert leases == [leases[0]] + leases[1..];
    }
  }

  /** The record a named lease asks for. */
  function LeaseTarget(resolver: Resolver, l: Lease): seq<DhcpDnsSync.Target> {
    DhcpDnsSync.TargetOf(resolver, DhcpDnsSync.Entry(l.ip, l.hostname, l.subnet, Dhcp))
  }

  lemma EntriesFrom(leases: seq<Lease>, reservations: seq<Reserved>, e: DhcpDnsSync.Entry)
    ensures var reserved := DhcpDnsSync.ReservationIps(reservations);
            var entries := DhcpDnsSync.Entries(leases, reservations);
            && (e in entries && e.source == Dhcp ==>
                  exists l :: l in leases && l.ip !in reserved
                    && e == DhcpDnsSync.Entry(l.ip, l.hostname, l.subnet, Dhcp))
            && (e in entries && e.source != Dhcp ==> e.source == Reservation && e.ip in reserved)
            && ((exists l :: l in leases && l.ip !in reserved
                  && e == DhcpDnsSync.Entry(l.ip, l.hostname, l.subnet, Dhcp)) ==> e in entries)
  {
    hide DhcpDnsSync.LeaseEntries, DhcpDnsSync.NamedReservations;
    LeaseEntriesFrom(leases, DhcpDnsSync.ReservationIps(reservations));
  }

  lemma BatchTarget(resolver: Resolver, leases: seq<Lease>, reservations: seq<Reserved>, t: DhcpDnsSync.Target)
    requires t in DhcpDnsSync.Targets(resolver, DhcpDnsSync.Entries(leases, reservations))
    ensures var reserved := DhcpDnsSync.ReservationIps(reservations);
            && (t.source == Dhcp ==>
                  t.ip !in reserved && exists l :: l in leases && l.ip == t.ip && t in LeaseTarget(resolver, l))
            && (t.source != Dhcp ==> t.source == Reservation && t.ip in reserved)
  {
    hide NormalizeRecordName, DhcpDnsSync.Entries, DhcpDnsSync.ReservationIps, DhcpDnsSync.Targets;
    TargetsFrom(resolver, DhcpDnsSync.Entries(leases, reservations));
    var e :| e in DhcpDnsSync.Entries(leases, reservations) && t in DhcpDnsSync.TargetOf(resolver, e);
    EntriesFrom(leases, reservations, e);
  }

  lemma LeaseHasTarget(resolver: Resolver, leases: seq<Lease>, reservations: seq<Reserved>, l: Lease,
                       t: DhcpDnsSync.Target)
    requires l in leases && l.ip !in DhcpDnsSync.ReservationIps(reservations) && t in LeaseTarget(resolver, l)
    ensures t in DhcpDnsSync.Targets(resolver, DhcpDnsSync.Entries(leases, reservations))
  {
    hide DhcpDnsSync.TargetOf, DhcpDnsSync.Entries, DhcpDnsSync.ReservationIps, DhcpDnsSync.Targets;
    TargetsFrom(resolver, DhcpDnsSync.Entries(leases, reservations));
    EntriesFrom(leases, reservations, DhcpDnsSync.Entry(l.ip, l.hostname, l.subnet, Dhcp));
  }

  /** A reserved address answers for its reservation and for nothing else. */
  lemma BatchSources(resolver: Resolver, leases: seq<Lease>, reservations: seq<Reserved>)
    ensures var ts := DhcpDnsSync.Targets(resolver, DhcpDnsSync.Entries(leases, reservations));
            DhcpDnsSync.NotReserved(ts) && DhcpDnsSync.OneSource(ts)
  {
    hide DhcpDnsSync.Entries, DhcpDnsSync.ReservationIps, DhcpDnsSync.Targets, LeaseTarget;
    var ts := DhcpDnsSync.Targets(resolver, DhcpDnsSync.Entries(leases, reservations));
    forall t | t in ts
      ensures t.source == Dhcp || t.source == Reservation
      ensures t.source == Reservation <==> t.ip in DhcpDnsSync.ReservationIps(reservations)
    {
      BatchTarget(resolver, leases, reservations, t);
    }
  }

  // ---- Names stay unique over any run ----

  /** Every dhcp record lies in a known zone, with a name that zone's normalisation leaves alone. */
  ghost predicate StableIn(zoneNames: map<nat, string>, records: seq<Record>) {
    forall r :: r in records && r.source == Dhcp ==>
      r.zone in zoneNames && r.name != "" && NormalizeRecordName(r.name, zoneNames[r.zone]) == r.name
  }

  /** The zones a resolver serves, under names that never change. */
  ghost predicate KnownZones(zoneNames: map<nat, string>, resolver: Resolver) {
    forall n :: n in resolver.zoneByName ==>
      resolver.zoneByName[n].name == n && resolver.zoneByName[n].id in zoneNames
      && zoneNames[resolver.zoneByName[n].id] == n
  }

  /** Every name the batch may hand out normalises to a record name that stays put. */
  ghost predicate LastingNames(f: Facts, leases: seq<Lease>) {
    forall l, o :: l in leases && Candidate(f, l) != "" && o in OptionsOf(Candidate(f, l)) ==>
      var zone := f.resolver.ZoneFor(l.subnet, l.ip);
      zone.Some? ==> Lasting(o, zone.value.name)
  }

  predicate Lasting(name: string, zoneName: string) {
    NormalizeRecordName(name, zoneName) != "" && Stable(name, zoneName)
  }

  ghost predicate TablesOk(zoneNames: map<nat, string>, db: Tables) {
    DhcpDnsSync.ValidIds(db.records, db.nextId) && DhcpUnique(db.records) && StableIn(zoneNames, db.records)
  }

  ghost predicate InputsOk(zoneNames: map<nat, string>, db: Tables, inp: Inputs) {
    DistinctIps(inp.batch) && KnownZones(zoneNames, inp.resolver) && LastingNames(FactsOf(db, inp), inp.batch)
  }

  lemma {:induction false} SettleAllChooses(f: Facts, leasedIps: set<Ip>, ps: seq<Pending>, names: seq<string>,
                                            claims: set<Claim>)
    requires forall p :: p in ps ==> p.index < |names|
    requires DistinctIndexes(ps)
    ensures var names' := SettleAll(f, leasedIps, ps, names, claims).0;
            forall p :: p in ps ==>
              names'[p.index] == "" || (p.candidate != "" && names'[p.index] in OptionsOf(p.candidate))
  {
    hide NormalizeRecordName, ClaimSet, ChooseName, OptionsOf;
    if ps != [] {
      var p := ps[0];
      var name := ChooseName(f, leasedIps, claims, p);
      assert name == "" || (p.candidate != "" && name in OptionsOf(p.candidate)) by {
        ChosenIsOption(f, leasedIps, claims, p);
      }
      assert forall q :: q in ps[1..] ==> q in ps && q.index != p.index;
      SettleAllChooses(f, leasedIps, ps[1..], names[p.index := name], claims + ClaimSet(p.zone, p.lease.ip, name));
      SettleOthers(f, leasedIps, ps[1..], names[p.index := name], claims + ClaimSet(p.zone, p.lease.ip, name),
                   p.index);
      assert ps == [p] + ps[1..];
    }
  }

  lemma ChosenIsOption(f: Facts, leasedIps: set<Ip>, claims: set<Claim>, p: Pending)
    ensures var name := ChooseName(f, leasedIps, claims, p);
            name == "" || (p.candidate != "" && name in OptionsOf(p.candidate))
  {
    hide NormalizeRecordName, OptionsOf, IsFree;
    FirstFreeIsFree(f, leasedIps, claims, p, OptionsOf(p.candidate));
  }

  /** The name of a pending lease is one of its options, or none. */
  lemma PendingTakesOption(f: Facts, leases: seq<Lease>, i: nat)
    requires i < |leases| && IsPending(f, leases[i])
    ensures var name := Named(f, leases)[i].hostname;
            name == "" || (Candidate(f, leases[i]) != "" && name in OptionsOf(Candidate(f, leases[i])))
  {
    hide NormalizeRecordName, IsPending, Candidate, OptionsOf, SortByAddress;
    var ps := PendingOf(f, leases);
    PendingDistinct(f, leases);
    SortedDistinct(ps);
    SettleAllChooses(f, IpsOf(leases), SortByAddress(ps), FirstNames(f, leases), HeldClaims(f, leases));
    var p :| p in ps && p.index == i;
  }

  /** Whatever name a zoned lease ends with, its record name is a lasting one. */
  lemma NamedLasts(f: Facts, leases: seq<Lease>, i: nat, t: DhcpDnsSync.Target)
    requires StableRecords(f.resolver, f.records) && LastingNames(f, leases)
    requires i < |leases| && t in LeaseTarget(f.resolver, Named(f, leases)[i])
    ensures var zone := f.resolver.ZoneFor(leases[i].subnet, leases[i].ip);
            zone.Some? && t.zone == zone.value.id && t.name != ""
            && NormalizeRecordName(t.name, zone.value.name) == t.name
  {
    hide NormalizeRecordName, Named, OptionsOf, Candidate, HeldClaim, IsKept;
    var l := leases[i];
    var zone := f.resolver.ZoneFor(l.subnet, l.ip).value;
    var named := Named(f, leases)[i];
    if IsPending(f, l) {
      PendingTakesOption(f, leases, i);
      assert l in leases && Lasting(named.hostname, zone.name);
    } else {
      KeptStaysKept(f, leases, i);
      KeptTarget(f, l, t);
    }
  }

  lemma KeptTarget(f: Facts, l: Lease, t: DhcpDnsSync.Target)
    requires StableRecords(f.resolver, f.records) && IsKept(f, l)
    requires t in LeaseTarget(f.resolver, l.(hostname := FirstName(f, l)))
    ensures t.name != "" && NormalizeRecordName(t.name, f.resolver.ZoneFor(l.subnet, l.ip).value.name) == t.name
  {
    hide NormalizeRecordName, KeptSpelling;
    var zone := f.resolver.ZoneFor(l.subnet, l.ip).value;
    var c := Claim(zone.id, t.name, TypeOf(l.ip), l.ip);
    assert c in HeldClaim(f, l);
    var r := KeptClaim(f, l, c);
  }

  lemma KnownIsStable(zoneNames: map<nat, string>, resolver: Resolver, records: seq<Record>)
    requires StableIn(zoneNames, records) && KnownZones(zoneNames, resolver)
    ensures StableRecords(resolver, records)
  {
    hide NormalizeRecordName;
  }

  lemma BatchNamesUnique(zoneNames: map<nat, string>, db: Tables, inp: Inputs)
    requires TablesOk(zoneNames, db) && InputsOk(zoneNames, db, inp)
    ensures StableRecords(inp.resolver, db.records)
    ensures NamesUnique(inp.resolver, NamedBatch(db, inp))
  {
    hide StableRecords, HeldClaims, Named, LastingNames;
    KnownIsStable(zoneNames, inp.resolver, db.records);
    HeldClaimsUnique(FactsOf(db, inp), inp.batch);
    NamesUniqueExactly(FactsOf(db, inp), inp.batch);
  }

  lemma LeaseTargetIsClaim(resolver: Resolver, l: Lease, t: DhcpDnsSync.Target)
    requires t in LeaseTarget(resolver, l)
    ensures Claim(t.zone, t.name, TypeOf(t.ip), t.ip) in ClaimOf(resolver, l) && t.ip == l.ip && t.source == Dhcp
  {
    hide NormalizeRecordName;
  }

  lemma BatchTargetsUnique(zoneNames: map<nat, string>, db: Tables, inp: Inputs)
    requires TablesOk(zoneNames, db) && InputsOk(zoneNames, db, inp)
    ensures DhcpDnsSync.TargetsUnique(TargetsOf(db, inp))
  {
    hide TablesOk, InputsOk, LeaseTarget, ClaimOf, NamedBatch, DhcpDnsSync.Entries, DhcpDnsSync.Targets;
    BatchNamesUnique(zoneNames, db, inp);
    var named := NamedBatch(db, inp);
    forall t, u | t in TargetsOf(db, inp) && u in TargetsOf(db, inp) && t.source == Dhcp && u.source == Dhcp
      && DhcpDnsSync.SameTargetName(t, u)
      ensures t.ip == u.ip
    {
      BatchTarget(inp.resolver, named, inp.reservations, t);
      BatchTarget(inp.resolver, named, inp.reservations, u);
      var l :| l in named && l.ip == t.ip && t in LeaseTarget(inp.resolver, l);
      var m :| m in named && m.ip == u.ip && u in LeaseTarget(inp.resolver, m);
      LeaseTargetIsClaim(inp.resolver, l, t);
      LeaseTargetIsClaim(inp.resolver, m, u);
      assert SameClaim(Claim(t.zone, t.name, TypeOf(t.ip), t.ip), Claim(u.zone, u.name, TypeOf(u.ip), u.ip));
    }
  }

  lemma TargetLasts(zoneNames: map<nat, string>, db: Tables, inp: Inputs, t: DhcpDnsSync.Target)
    requires TablesOk(zoneNames, db) && InputsOk(zoneNames, db, inp)
    requires t in TargetsOf(db, inp) && t.source == Dhcp
    ensures t.zone in zoneNames && t.name != "" && NormalizeRecordName(t.name, zoneNames[t.zone]) == t.name
  {
    hide NormalizeRecordName, Named, LeaseTarget, StableIn, DhcpUnique, DhcpDnsSync.ValidIds, LastingNames,
      DhcpDnsSync.Targets, DhcpDnsSync.Entries;
    KnownIsStable(zoneNames, inp.resolver, db.records);
    var f, named := FactsOf(db, inp), NamedBatch(db, inp);
    BatchTarget(inp.resolver, named, inp.reservations, t);
    var l :| l in named && l.ip == t.ip && t in LeaseTarget(inp.resolver, l);
    var i :| 0 <= i < |named| && named[i] == l;
    NamedLasts(f, inp.batch, i, t);
  }

  lemma SyncKeepsIds(before: seq<Record>, nextId: nat, zones: set<nat>, ts: seq<DhcpDnsSync.Target>)
    requires DhcpDnsSync.ValidIds(before, nextId) && DhcpDnsSync.NotReserved(ts)
    ensures var after := DhcpDnsSync.SyncTargets(before, nextId, zones, ts);
            DhcpDnsSync.ValidIds(after.records, after.nextId)
  {
    var st := DhcpDnsSync.Run(DhcpDnsSync.Start(before, nextId, zones), ts);
    DhcpDnsSync.RunInv(before, nextId, zones, ts);
    DhcpDnsSync.SweepIds(st, st.records, st.nextId);
  }

  /** One report keeps the DNS tables in order. */
  lemma IngestKeepsTables(zoneNames: map<nat, string>, db: Tables, inp: Inputs)
    requires TablesOk(zoneNames, db) && InputsOk(zoneNames, db, inp)
    ensures TablesOk(zoneNames, Ingest(db, inp))
  {
    hide NormalizeRecordName, InputsOk, NamedBatch, Replaced, TargetsOf, DhcpDnsSync.SyncTargets;
    var ts, zones := TargetsOf(db, inp), DhcpDnsSync.ZoneIds(inp.resolver);
    assert DhcpDnsSync.NotReserved(ts) by {
      hide *;
      TargetSources(db, inp);
    }
    BatchTargetsUnique(zoneNames, db, inp);
    DhcpDnsSync.SyncKeepsUnique(db.records, db.nextId, zones, ts);
    SyncKeepsIds(db.records, db.nextId, zones, ts);
    forall r | r in Ingest(db, inp).records && r.source == Dhcp
      ensures r.zone in zoneNames && r.name != "" && NormalizeRecordName(r.name, zoneNames[r.zone]) == r.name
    {
      DhcpDnsSync.LeftRow(db.records, db.nextId, zones, ts, r);
      if t :| t in ts && t.source == Dhcp && DhcpDnsSync.Matches(r, t) {
        TargetLasts(zoneNames, db, inp, t);
      }
    }
  }

  lemma TargetSources(db: Tables, inp: Inputs)
    ensures DhcpDnsSync.NotReserved(TargetsOf(db, inp)) && DhcpDnsSync.OneSource(TargetsOf(db, inp))
  {
    hide DhcpDnsSync.Entries, DhcpDnsSync.Targets, NamedBatch;
    BatchSources(inp.resolver, NamedBatch(db, inp), inp.reservations);
  }

  // ---- A DHCP apply syncs the stored leases, lapsed ones included ----

  function StoredTargets(db: Tables, resolver: Resolver, reservations: seq<Reserved>): seq<DhcpDnsSync.Target> {
    DhcpDnsSync.Targets(resolver, DhcpDnsSync.Entries(db.leases, reservations))
  }

  /** applyDhcp: the records synced with every stored lease. */
  function ApplyDhcp(db: Tables, resolver: Resolver, reservations: seq<Reserved>): DhcpDnsSync.Result {
    DhcpDnsSync.SyncTargets(db.records, db.nextId, DhcpDnsSync.ZoneIds(resolver),
                            StoredTargets(db, resolver, reservations))
  }

  /** The dhcp records asked for are in known zones, under names that stay put. */
  ghost predicate LastingTargets(zoneNames: map<nat, string>, ts: seq<DhcpDnsSync.Target>) {
    forall t :: t in ts && t.source == Dhcp ==>
      t.zone in zoneNames && t.name != "" && NormalizeRecordName(t.name, zoneNames[t.zone]) == t.name
  }

  // ---- Runs ----

  /** Between reports and applies anything may change, but only the sync makes dhcp records. */
  datatype Action =
    | Report(inputs: Inputs)
    | Apply(resolver: Resolver, reservations: seq<Reserved>)
    | Edit(tables: Tables)

  /** An apply is allowed when the stored leases ask for unique, lasting names. */
  ghost predicate Allowed(zoneNames: map<nat, string>, db: Tables, a: Action) {
    match a
    case Report(inp) => InputsOk(zoneNames, db, inp)
    case Apply(resolver, reservations) =>
      var ts := StoredTargets(db, resolver, reservations);
      DhcpDnsSync.TargetsUnique(ts) && LastingTargets(zoneNames, ts)
    case Edit(db') =>
      DhcpDnsSync.ValidIds(db'.records, db'.nextId)
      && forall r :: r in db'.records && r.source == Dhcp ==> r in db.records
  }

  function Act(db: Tables, a: Action): Tables {
    match a
    case Report(inp) => Ingest(db, inp)
    case Apply(resolver, reservations) =>
      var synced := ApplyDhcp(db, resolver, reservations);
      Tables(synced.records, synced.nextId, db.leases)
    case Edit(db') => db'
  }

  function RunActions(db: Tables, actions: seq<Action>): Tables
    decreases |actions|
  {
    if actions == [] then db else RunActions(Act(db, actions[0]), actions[1..])
  }

  ghost predicate AllAllowed(zoneNames: map<nat, string>, db: Tables, actions: seq<Action>)
    decreases |actions|
  {
    actions == [] || (Allowed(zoneNames, db, actions[0]) && AllAllowed(zoneNames, Act(db, actions[0]), actions[1..]))
  }

  lemma ActKeepsTables(zoneNames: map<nat, string>, db: Tables, a: Action)
    requires TablesOk(zoneNames, db) && Allowed(zoneNames, db, a)
    ensures TablesOk(zoneNames, Act(db, a))
  {
    hide NormalizeRecordName, InputsOk, Ingest, ApplyDhcp, DhcpDnsSync.TargetsUnique, LastingTargets;
    match a
    case Report(inp) => IngestKeepsTables(zoneNames, db, inp);
    case Apply(resolver, reservations) => ApplyKeepsTables(zoneNames, db, resolver, reservations);
    case Edit(_) =>
  }

  lemma ApplyKeepsTables(zoneNames: map<nat, string>, db: Tables, resolver: Resolver, reservations: seq<Reserved>)
    requires TablesOk(zoneNames, db) && DhcpDnsSync.TargetsUnique(StoredTargets(db, resolver, reservations))
    requires LastingTargets(zoneNames, StoredTargets(db, resolver, reservations))
    ensures var after := ApplyDhcp(db, resolver, reservations);
            TablesOk(zoneNames, Tables(after.records, after.nextId, db.leases))
  {
    hide NormalizeRecordName, StoredTargets, DhcpDnsSync.SyncTargets, DhcpDnsSync.TargetsUnique;
    var ts, zones := StoredTargets(db, resolver, reservations), DhcpDnsSync.ZoneIds(resolver);
    assert DhcpDnsSync.NotReserved(ts) by { StoredSources(db, resolver, reservations); }
    DhcpDnsSync.SyncKeepsUnique(db.records, db.nextId, zones, ts);
    SyncKeepsIds(db.records, db.nextId, zones, ts);
    forall r | r in ApplyDhcp(db, resolver, reservations).records && r.source == Dhcp
      ensures r.zone in zoneNames && r.name != "" && NormalizeRecordName(r.name, zoneNames[r.zone]) == r.name
    {
      DhcpDnsSync.LeftRow(db.records, db.nextId, zones, ts, r);
    }
  }

  lemma StoredSources(db: Tables, resolver: Resolver, reservations: seq<Reserved>)
    ensures DhcpDnsSync.NotReserved(StoredTargets(db, resolver, reservations))
  {
    hide DhcpDnsSync.Entries, DhcpDnsSync.Targets;
    BatchSources(resolver, db.leases, reservations);
  }

  /** Over any run of reports, applies and edits no zone ever answers one dhcp name with two addresses. */
  lemma {:induction false} RunKeepsNamesUnique(zoneNames: map<nat, string>, db: Tables, actions: seq<Action>)
    requires TablesOk(zoneNames, db) && AllAllowed(zoneNames, db, actions)
    ensures TablesOk(zoneNames, RunActions(db, actions))
    ensures DhcpUnique(RunActions(db, actions).records)
    decreases |actions|
  {
    hide InputsOk, Ingest, StableIn, ApplyDhcp, LastingTargets;
    if actions != [] {
      ActKeepsTables(zoneNames, db, actions[0]);
      RunKeepsNamesUnique(zoneNames, Act(db, actions[0]), actions[1..]);
    }
  }

  // ---- Each named address has its record ----

  /** A named lease outside the reservations ends with exactly one generated record, unless an operator holds it. */
  lemma NamedLeaseHasItsRecord(db: Tables, inp: Inputs, i: nat, t: DhcpDnsSync.Target) returns (r: Record)
    requires DhcpDnsSync.ValidIds(db.records, db.nextId) && DistinctIps(inp.batch) && i < |inp.batch|
    requires inp.batch[i].ip !in DhcpDnsSync.ReservationIps(inp.reservations)
    requires t in LeaseTarget(inp.resolver, NamedBatch(db, inp)[i])
    requires DhcpDnsSync.NotOperators(db.records, t)
    ensures r in Ingest(db, inp).records && r.source == Dhcp && DhcpDnsSync.Matches(r, t)
    ensures forall s :: s in Ingest(db, inp).records && DhcpDnsSync.GeneratedAt(s, t.zone, t.ip) ==> s == r
  {
    hide NormalizeRecordName, Settled, Replaced, DhcpDnsSync.SyncTargets, DhcpDnsSync.Entries, DhcpDnsSync.Targets,
      DhcpDnsSync.ReservationIps;
    var ts, zones := TargetsOf(db, inp), DhcpDnsSync.ZoneIds(inp.resolver);
    var named := NamedBatch(db, inp);
    TargetSources(db, inp);
    LeaseHasTarget(inp.resolver, named, inp.reservations, named[i], t);
    forall u | u in ts && u.ip == t.ip ensures u == t {
      BatchTarget(inp.resolver, named, inp.reservations, u);
      var m :| m in named && m.ip == u.ip && u in LeaseTarget(inp.resolver, m);
      var j :| 0 <= j < |named| && named[j] == m;
      assert j == i;
    }
    r := DhcpDnsSync.ExactlyOneRecord(db.records, db.nextId, zones, ts, t);
  }

  // ---- When an apply keeps names unique ----

  ghost predicate NoOperatorRows(records: seq<Record>, ts: seq<DhcpDnsSync.Target>) {
    forall t :: t in ts && t.source == Dhcp ==> DhcpDnsSync.NotOperators(records, t)
  }

  /** An apply keeps the names unique exactly when the stored leases, lapsed ones included, have unique names. */
  lemma ApplyKeepsUniqueExactly(db: Tables, resolver: Resolver, reservations: seq<Reserved>)
    requires DhcpDnsSync.ValidIds(db.records, db.nextId) && DhcpUnique(db.records)
    requires NoOperatorRows(db.records, StoredTargets(db, resolver, reservations))
    ensures DhcpUnique(ApplyDhcp(db, resolver, reservations).records)
       <==> DhcpDnsSync.TargetsUnique(StoredTargets(db, resolver, reservations))
  {
    hide DhcpDnsSync.Targets, DhcpDnsSync.Entries, DhcpDnsSync.SyncTargets, DhcpDnsSync.TargetsUnique;
    BatchSources(resolver, db.leases, reservations);
    DhcpDnsSync.SyncUniqueExactly(db.records, db.nextId, DhcpDnsSync.ZoneIds(resolver),
                                  StoredTargets(db, resolver, reservations));
  }

  /**
   * A client that comes back on a new address takes its old name back, and its lapsed row stays stored
   * for the window. The report leaves the name with one address; an apply in the window gives it both.
   */
  lemma ApplyUndoesTakeBack(zoneNames: map<nat, string>, db: Tables, inp: Inputs, i: nat, k: Key,
                            t: DhcpDnsSync.Target, u: DhcpDnsSync.Target)
    requires TablesOk(zoneNames, db) && InputsOk(zoneNames, db, inp) && i < |inp.batch|
    requires k !in KeysOf(NamedBatch(db, inp)) && k !in ReservedKeys(inp.reservations)
    requires Lookup(db.leases, k).Some? && !TooOld(Lookup(db.leases, k).value.expires, inp.now)
    requires t in LeaseTarget(inp.resolver, NamedBatch(db, inp)[i])
    requires u in LeaseTarget(inp.resolver, Lookup(db.leases, k).value)
    requires DhcpDnsSync.SameTargetName(t, u) && t.ip != u.ip
    requires t.ip !in DhcpDnsSync.ReservationIps(inp.reservations)
    requires u.ip !in DhcpDnsSync.ReservationIps(inp.reservations)
    requires NoOperatorRows(Ingest(db, inp).records, StoredTargets(Ingest(db, inp), inp.resolver, inp.reservations))
    ensures DhcpUnique(Ingest(db, inp).records)
    ensures !DhcpUnique(ApplyDhcp(Ingest(db, inp), inp.resolver, inp.reservations).records)
  {
    hide DhcpDnsSync.Targets, DhcpDnsSync.Entries, DhcpDnsSync.ReservationIps, LeaseTarget, ApplyDhcp, NamedBatch,
      StableIn, InputsOk, NoOperatorRows;
    IngestKeepsTables(zoneNames, db, inp);
    var after := Ingest(db, inp);
    var named, lapsed := NamedBatch(db, inp), Lookup(db.leases, k).value;
    BatchKeys(zoneNames, db, inp);
    VanishedOnce(db.leases, named, inp.reservations, inp.now, k);
    LookupIn(after.leases, k);
    var kept := Lookup(after.leases, k).value;
    SameTarget(inp.resolver, lapsed, kept);
    LeaseTargetIsClaim(inp.resolver, named[i], t);
    LeaseTargetIsClaim(inp.resolver, kept, u);
    LeaseHasTarget(inp.resolver, after.leases, inp.reservations, named[i], t);
    LeaseHasTarget(inp.resolver, after.leases, inp.reservations, kept, u);
    ApplyKeepsUniqueExactly(after, inp.resolver, inp.reservations);
  }

  lemma SameTarget(resolver: Resolver, a: Lease, b: Lease)
    requires a.(expires := b.expires) == b
    ensures LeaseTarget(resolver, a) == LeaseTarget(resolver, b)
  {
    assert a.ip == b.ip && a.hostname == b.hostname && a.subnet == b.subnet;
  }

  lemma BatchKeys(zoneNames: map<nat, string>, db: Tables, inp: Inputs)
    requires InputsOk(zoneNames, db, inp)
    ensures DistinctKeys(NamedBatch(db, inp))
  {
    hide Settled;
  }
}
