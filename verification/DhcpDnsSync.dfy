/** syncDhcpDnsRecords (server/src/models/dhcp-lease.js): dns_records made to match the leases. */
module DhcpDnsSync {
  import opened Addresses
  import opened Options
  import opened DhcpTables
  import opened DnsNames

  datatype Entry = Entry(ip: Ip, hostname: string, subnet: Option<nat>, source: Source)

  /** The record an entry answers with. */
  datatype Target = Target(zone: nat, name: string, ip: Ip, source: Source)

  datatype NameKey = NameKey(zone: nat, name: string, rtype: RecordType)

  datatype State = State(
    records: seq<Record>,
    nextId: nat,
    activeIds: set<nat>,
    activeIps: set<Ip>,
    activeNames: set<NameKey>,
    processed: set<nat>,
    changed: bool)

  function NamedReservations(reservations: seq<Reserved>): seq<Reserved> {
    if reservations == [] then []
    else
      var r := reservations[0];
      (if r.enabled && r.hostname != "" then [r] else []) + NamedReservations(reservations[1..])
  }

  function ReservationIps(reservations: seq<Reserved>): set<Ip> {
    set r | r in NamedReservations(reservations) :: r.ip
  }

  function LeaseEntries(leases: seq<Lease>, reserved: set<Ip>): seq<Entry> {
    if leases == [] then []
    else
      var l := leases[0];
      (if l.ip in reserved then [] else [Entry(l.ip, l.hostname, l.subnet, Dhcp)])
      + LeaseEntries(leases[1..], reserved)
  }

  function ReservationEntries(reservations: seq<Reserved>): seq<Entry> {
    var named := NamedReservations(reservations);
    seq(|named|, i requires 0 <= i < |named| =>
      Entry(named[i].ip, named[i].hostname, Some(named[i].subnet), Reservation))
  }

  function Entries(leases: seq<Lease>, reservations: seq<Reserved>): seq<Entry> {
    LeaseEntries(leases, ReservationIps(reservations)) + ReservationEntries(reservations)
  }

  function TargetOf(resolver: Resolver, e: Entry): seq<Target> {
    var zone := resolver.ZoneFor(e.subnet, e.ip);
    if e.hostname == "" || zone.None? then []
    else [Target(zone.value.id, NormalizeRecordName(e.hostname, zone.value.name), e.ip, e.source)]
  }

  function Targets(resolver: Resolver, entries: seq<Entry>): seq<Target> {
    if entries == [] then []
    else
      var n := |entries| - 1;
      Targets(resolver, entries[..n]) + TargetOf(resolver, entries[n])
  }

  predicate Matches(r: Record, t: Target) {
    r.zone == t.zone && r.name == t.name && r.rtype == TypeOf(t.ip) && r.value == Addr(t.ip)
  }

  /** The row findRecord returns: the first that matches, |records| when none does. */
  function Find(records: seq<Record>, t: Target): (i: nat)
    ensures i <= |records|
    ensures i < |records| ==> Matches(records[i], t)
    ensures forall j :: 0 <= j < i ==> !Matches(records[j], t)
  {
    if records == [] then 0
    else if Matches(records[0], t) then 0
    else 1 + Find(records[1..], t)
  }

  function Step(st: State, t: Target): State {
    var i := Find(st.records, t);
    var st := st.(activeNames := st.activeNames + {NameKey(t.zone, t.name, TypeOf(t.ip))},
                  processed := st.processed + {t.zone});
    if i == |st.records| then
      st.(records := st.records + [Record(st.nextId, t.zone, t.name, TypeOf(t.ip), Addr(t.ip), t.source)],
          nextId := st.nextId + 1,
          activeIds := st.activeIds + {st.nextId},
          activeIps := st.activeIps + {t.ip},
          changed := true)
    else if st.records[i].source == Manual then st
    else
      st.(records := st.records[i := st.records[i].(source := t.source)],
          activeIds := st.activeIds + {st.records[i].id},
          activeIps := st.activeIps + {t.ip},
          changed := st.changed || st.records[i].source != t.source)
  }

  function Run(st: State, ts: seq<Target>): State {
    if ts == [] then st else Step(Run(st, ts[..|ts| - 1]), ts[|ts| - 1])
  }

  lemma NoTargets(resolver: Resolver, st: State)
    ensures Run(st, Targets(resolver, [])) == st
  {}

  /** One more entry is one more step, or none when the entry has no name or no zone. */
  lemma RunEntry(resolver: Resolver, st: State, entries: seq<Entry>, i: nat)
    requires i < |entries|
    ensures var before, t := Run(st, Targets(resolver, entries[..i])), TargetOf(resolver, entries[i]);
            && |t| <= 1
            && Run(st, Targets(resolver, entries[..i + 1])) == if t == [] then before else Step(before, t[0])
  {
    hide Step, NormalizeRecordName;
    assert entries[..i + 1][..i] == entries[..i];
    var ts, t := Targets(resolver, entries[..i]), TargetOf(resolver, entries[i]);
    assert t == [] ==> ts + t == ts;
    assert t != [] ==> (ts + t)[..|ts|] == ts;
  }

  /** The stale sweep keeps a row no entry answered only in these cases. */
  predicate Survives(st: State, r: Record) {
    || r.source == Manual
    || r.zone !in st.processed
    || r.id in st.activeIds
    || (r.source == Dhcp && !(r.value.Addr? && r.value.ip in st.activeIps)
        && NameKey(r.zone, r.name, r.rtype) !in st.activeNames)
  }

  function Sweep(st: State, records: seq<Record>): (kept: seq<Record>)
    ensures forall r :: r in kept <==> r in records && Survives(st, r)
  {
    if records == [] then []
    else (if Survives(st, records[0]) then [records[0]] else []) + Sweep(st, records[1..])
  }

  lemma SweepNext(st: State, rows: seq<Record>, i: nat, kept: seq<Record>)
    requires i < |rows|
    ensures kept + Sweep(st, rows[i..]) ==
            (if Survives(st, rows[i]) then kept + [rows[i]] else kept) + Sweep(st, rows[i + 1..])
  {
    hide Survives;
    var rest := Sweep(st, rows[i + 1..]);
    assert rows[i..][0] == rows[i] && rows[i..][1..] == rows[i + 1..];
    assert kept + ([rows[i]] + rest) == (kept + [rows[i]]) + rest && kept + ([] + rest) == kept + rest;
  }

  lemma SweepNone(st: State)
    ensures Sweep(st, []) == []
  {}

  function ZoneIds(resolver: Resolver): set<nat> {
    set d | d in resolver.allDomains && d in resolver.zoneByName :: resolver.zoneByName[d].id
  }

  function Start(records: seq<Record>, nextId: nat, zones: set<nat>): State {
    State(records, nextId, {}, {}, {}, zones, false)
  }

  /** The records, the next row id and whether DNS has to be regenerated. */
  datatype Result = Result(records: seq<Record>, nextId: nat, changed: bool)

  function SyncTargets(records: seq<Record>, nextId: nat, zones: set<nat>, ts: seq<Target>): Result {
    var st := Run(Start(records, nextId, zones), ts);
    var kept := Sweep(st, st.records);
    Result(kept, st.nextId, st.changed || |kept| < |st.records|)
  }

  function Sync(records: seq<Record>, nextId: nat, resolver: Resolver, leases: seq<Lease>,
                reservations: seq<Reserved>): Result
  {
    SyncTargets(records, nextId, ZoneIds(resolver), Targets(resolver, Entries(leases, reservations)))
  }

  // ---- What the entry loop keeps ----

  ghost predicate ValidIds(records: seq<Record>, nextId: nat) {
    && (forall r :: r in records ==> r.id < nextId)
    && (forall i, j :: 0 <= i < j < |records| ==> records[i].id != records[j].id)
  }

  /** The rows of the table before, and what the targets did to them. */
  ghost predicate RowsFollow(before: seq<Record>, st: State) {
    && |before| <= |st.records|
    && (forall i :: 0 <= i < |before| ==>
          st.records[i].(source := before[i].source) == before[i]
          && (st.records[i].source == Manual <==> before[i].source == Manual)
          && (before[i].id !in st.activeIds ==> st.records[i] == before[i]))
    && (forall i :: |before| <= i < |st.records| ==> st.records[i].id in st.activeIds)
  }

  /** The target found its row: an operator's, which it leaves alone, or one it made active. */
  ghost predicate Answered(st: State, t: Target) {
    var i := Find(st.records, t);
    && i < |st.records|
    && NameKey(t.zone, t.name, TypeOf(t.ip)) in st.activeNames && t.zone in st.processed
    && (st.records[i].source != Manual ==> st.records[i].id in st.activeIds && t.ip in st.activeIps)
  }

  /** r is the row t found, and carries t's source. */
  ghost predicate RowOf(records: seq<Record>, t: Target, r: Record) {
    var i := Find(records, t);
    i < |records| && records[i] == r && r.source == t.source
  }

  /** t found a row that is not an operator's. */
  ghost predicate Served(records: seq<Record>, t: Target) {
    var i := Find(records, t);
    i < |records| && records[i].source != Manual
  }

  /** Every active row, address and name comes from a target. */
  ghost predicate ActiveFromTargets(st: State, ts: seq<Target>) {
    && (forall r :: r in st.records && r.id in st.activeIds ==> exists t :: t in ts && RowOf(st.records, t, r))
    && (forall ip :: ip in st.activeIps ==> exists t :: t in ts && t.ip == ip && Served(st.records, t))
    && (forall k :: k in st.activeNames ==> exists t :: t in ts && k == NameKey(t.zone, t.name, TypeOf(t.ip)))
    && (forall id :: id in st.activeIds ==> exists r :: r in st.records && r.id == id)
  }

  lemma FindIs(records: seq<Record>, t: Target, i: nat)
    requires i < |records| && Matches(records[i], t)
    requires forall j :: 0 <= j < i ==> !Matches(records[j], t)
    ensures Find(records, t) == i
  {
  }

  /** Where a target's row is after another target's step. */
  lemma FindAfterStep(st: State, t: Target, u: Target)
    ensures var st' := Step(st, t);
            var i := Find(st.records, u);
            && (i < |st.records| ==> Find(st'.records, u) == i)
            && (i == |st.records| ==> Find(st'.records, u) >= i)
            && (i < |st.records| && i != Find(st.records, t) ==> st'.records[i] == st.records[i])
            && Find(st'.records, t) < |st'.records|
  {
    var st' := Step(st, t);
    var i, k := Find(st.records, u), Find(st.records, t);
    assert forall j :: 0 <= j < |st.records| ==> (Matches(st'.records[j], u) <==> Matches(st.records[j], u));
    assert forall j :: 0 <= j < |st.records| ==> (Matches(st'.records[j], t) <==> Matches(st.records[j], t));
    if i < |st.records| {
      FindIs(st'.records, u, i);
    }
    FindIs(st'.records, t, k);
  }

  ghost predicate NotReserved(ts: seq<Target>) {
    forall t :: t in ts ==> t.source != Manual
  }

  ghost predicate Inv(before: seq<Record>, st: State, ts: seq<Target>) {
    && ValidIds(st.records, st.nextId)
    && RowsFollow(before, st)
    && (forall t :: t in ts ==> Answered(st, t))
    && ActiveFromTargets(st, ts)
  }

  lemma StepRows(before: seq<Record>, st: State, t: Target)
    requires ValidIds(st.records, st.nextId) && RowsFollow(before, st) && t.source != Manual
    requires forall id :: id in st.activeIds ==> exists r :: r in st.records && r.id == id
    ensures ValidIds(Step(st, t).records, Step(st, t).nextId) && RowsFollow(before, Step(st, t))
    ensures Answered(Step(st, t), t)
  {
    StepIds(st, t);
    StepFollows(before, st, t);
    StepAnswers(st, t);
  }

  lemma StepIds(st: State, t: Target)
    requires ValidIds(st.records, st.nextId)
    ensures ValidIds(Step(st, t).records, Step(st, t).nextId)
  {
    hide Matches, NormalizeRecordName;
    var st' := Step(st, t);
    var i := Find(st.records, t);
    if i < |st.records| && st.records[i].source != Manual {
      forall j | 0 <= j < |st'.records| ensures st'.records[j].id == st.records[j].id {}
      assert forall r :: r in st'.records ==> r.id < st'.nextId;
    }
  }

  lemma StepFollows(before: seq<Record>, st: State, t: Target)
    requires ValidIds(st.records, st.nextId) && RowsFollow(before, st) && t.source != Manual
    requires forall id :: id in st.activeIds ==> exists r :: r in st.records && r.id == id
    ensures RowsFollow(before, Step(st, t))
  {
    hide Matches, NormalizeRecordName;
  }

  lemma StepAnswers(st: State, t: Target)
    requires t.source != Manual
    ensures Answered(Step(st, t), t)
  {
    FindAfterStep(st, t, t);
    hide Matches, NormalizeRecordName;
    var i := Find(st.records, t);
    FindIsSame(st, t, i);
  }

  /** After its own step a target finds the row it found or the one it added. */
  lemma FindIsSame(st: State, t: Target, i: nat)
    requires i == Find(st.records, t)
    ensures Find(Step(st, t).records, t) == i
  {
    FindAfterStep(st, t, t);
    if i == |st.records| {
      FindIs(Step(st, t).records, t, i);
    }
  }

  lemma StepAnswered(st: State, t: Target, u: Target)
    requires Answered(st, u) && t.source != Manual
    ensures Answered(Step(st, t), u)
  {
    FindAfterStep(st, t, u);
  }

  lemma StepRowOf(st: State, t: Target, ts: seq<Target>, r: Record)
    requires ValidIds(st.records, st.nextId) && ActiveFromTargets(st, ts) && t.source != Manual
    requires r in Step(st, t).records && r.id in Step(st, t).activeIds
    ensures exists u :: u in ts + [t] && RowOf(Step(st, t).records, u, r)
  {
    hide Served, Matches;
    var st' := Step(st, t);
    var i := Find(st.records, t);
    FindAfterStep(st, t, t);
    var j :| 0 <= j < |st'.records| && st'.records[j] == r;
    if j == i && (i == |st.records| || st.records[i].source != Manual) {
      FindIs(st'.records, t, i);
      assert t in ts + [t] && RowOf(st'.records, t, r);
    } else {
      assert r == st.records[j] && r in st.records && r.id in st.activeIds;
      var u :| u in ts && RowOf(st.records, u, r);
      FindAfterStep(st, t, u);
      assert u in ts + [t] && RowOf(st'.records, u, r);
    }
  }

  lemma StepActive(st: State, t: Target, ts: seq<Target>)
    requires ValidIds(st.records, st.nextId) && ActiveFromTargets(st, ts) && t.source != Manual
    ensures ActiveFromTargets(Step(st, t), ts + [t])
  {
    hide RowOf, Matches;
    var st' := Step(st, t);
    var i := Find(st.records, t);
    var us := ts + [t];
    FindAfterStep(st, t, t);
    assert t in us && forall u :: u in ts ==> u in us;
    forall r | r in st'.records && r.id in st'.activeIds ensures exists u :: u in us && RowOf(st'.records, u, r) {
      StepRowOf(st, t, ts, r);
    }
    forall ip | ip in st'.activeIps ensures exists u :: u in us && u.ip == ip && Served(st'.records, u) {
      if ip in st.activeIps {
        var u :| u in ts && u.ip == ip && Served(st.records, u);
        FindAfterStep(st, t, u);
        assert Served(st'.records, u);
      } else {
        FindIs(st'.records, t, i);
        assert Served(st'.records, t);
      }
    }
    forall k | k in st'.activeNames ensures exists u :: u in us && k == NameKey(u.zone, u.name, TypeOf(u.ip)) {
      if k in st.activeNames {
        var u :| u in ts && k == NameKey(u.zone, u.name, TypeOf(u.ip));
      }
    }
    forall id | id in st'.activeIds ensures exists r :: r in st'.records && r.id == id {
      StepActiveId(st, t, id);
    }
  }

  lemma StepActiveId(st: State, t: Target, id: nat)
    requires forall a :: a in st.activeIds ==> exists r :: r in st.records && r.id == a
    requires id in Step(st, t).activeIds
    ensures exists r :: r in Step(st, t).records && r.id == id
  {
    hide Matches;
    var st' := Step(st, t);
    var i := Find(st.records, t);
    if id in st.activeIds {
      var r :| r in st.records && r.id == id;
      var j :| 0 <= j < |st.records| && st.records[j] == r;
      assert st'.records[j].id == id;
    } else {
      assert st'.records[i].id == id;
    }
  }

  /** What the entry loop has done after any targets. */
  lemma {:induction false} RunInv(before: seq<Record>, nextId: nat, zones: set<nat>, ts: seq<Target>)
    requires ValidIds(before, nextId) && NotReserved(ts)
    ensures Inv(before, Run(Start(before, nextId, zones), ts), ts)
    ensures zones <= Run(Start(before, nextId, zones), ts).processed
  {
    hide ValidIds, RowsFollow, ActiveFromTargets, Answered, Step;
    if ts == [] {
      StartInv(before, nextId, zones);
    } else {
      var n := |ts| - 1;
      var st := Run(Start(before, nextId, zones), ts[..n]);
      RunInv(before, nextId, zones, ts[..n]);
      StepInv(before, st, ts[..n], ts[n]);
      assert ts == ts[..n] + [ts[n]];
    }
  }

  lemma StartInv(before: seq<Record>, nextId: nat, zones: set<nat>)
    requires ValidIds(before, nextId)
    ensures Inv(before, Start(before, nextId, zones), [])
  {}

  lemma StepInv(before: seq<Record>, st: State, ts: seq<Target>, t: Target)
    requires Inv(before, st, ts) && t.source != Manual
    ensures Inv(before, Step(st, t), ts + [t]) && st.processed <= Step(st, t).processed
  {
    assert ActiveFromTargets(st, ts);
    StepRows(before, st, t);
    StepActive(st, t, ts);
    forall u | u in ts ensures Answered(Step(st, t), u) {
      StepAnswered(st, t, u);
    }
    assert st.processed <= Step(st, t).processed;
    hide Step, Answered, ActiveFromTargets, ValidIds, RowsFollow;
  }

  // ---- Main results ----

  predicate SameTargetName(t: Target, u: Target) {
    t.zone == u.zone && t.name == u.name && TypeOf(t.ip) == TypeOf(u.ip)
  }

  /** Targets of the leases give no zone two addresses under one name and type. */
  ghost predicate TargetsUnique(ts: seq<Target>) {
    forall t, u :: t in ts && u in ts && t.source == Dhcp && u.source == Dhcp && SameTargetName(t, u)
      ==> t.ip == u.ip
  }

  /** A dhcp row left by the sync answers a lease, or was there before under a name no entry answers. */
  lemma LeftRow(before: seq<Record>, nextId: nat, zones: set<nat>, ts: seq<Target>, r: Record)
    requires ValidIds(before, nextId) && NotReserved(ts)
    requires r in SyncTargets(before, nextId, zones, ts).records && r.source == Dhcp
    ensures (exists t :: t in ts && t.source == Dhcp && Matches(r, t))
         || (r in before && forall t :: t in ts && t.zone == r.zone && t.name == r.name ==> TypeOf(t.ip) != r.rtype)
  {
    hide Answered;
    RunInv(before, nextId, zones, ts);
    var st := Run(Start(before, nextId, zones), ts);
    if r.id in st.activeIds {
      var t :| t in ts && RowOf(st.records, t, r);
    } else {
      var i :| 0 <= i < |st.records| && st.records[i] == r;
      assert r == before[i];
      forall t | t in ts && t.zone == r.zone && t.name == r.name ensures TypeOf(t.ip) != r.rtype {
        AnsweredNames(st, t);
      }
    }
  }

  lemma AnsweredNames(st: State, t: Target)
    requires Answered(st, t)
    ensures NameKey(t.zone, t.name, TypeOf(t.ip)) in st.activeNames && t.zone in st.processed
  {}

  /** The sync never gives a dhcp name a second address. */
  lemma SyncKeepsUnique(before: seq<Record>, nextId: nat, zones: set<nat>, ts: seq<Target>)
    requires ValidIds(before, nextId) && NotReserved(ts)
    requires DhcpUnique(before) && TargetsUnique(ts)
    ensures DhcpUnique(SyncTargets(before, nextId, zones, ts).records)
  {
    hide SyncTargets, ValidIds;
    var after := SyncTargets(before, nextId, zones, ts).records;
    forall r, s | r in after && s in after && r.source == Dhcp && s.source == Dhcp && SameName(r, s)
      ensures r.value == s.value
    {
      LeftRow(before, nextId, zones, ts, r);
      LeftRow(before, nextId, zones, ts, s);
    }
  }

  /** The row findRecord would return for t, if any, is not an operator's. */
  ghost predicate NotOperators(records: seq<Record>, t: Target) {
    var i := Find(records, t);
    i < |records| ==> records[i].source != Manual
  }

  /** No two entries claim one record for different sources. */
  ghost predicate OneSource(ts: seq<Target>) {
    forall t, u :: t in ts && u in ts && t.zone == u.zone && t.name == u.name && t.ip == u.ip
      ==> t.source == u.source
  }

  /** A target whose record is not an operator's ends with an active row of its own source. */
  lemma TargetRow(before: seq<Record>, nextId: nat, zones: set<nat>, ts: seq<Target>, t: Target)
    requires ValidIds(before, nextId) && NotReserved(ts) && OneSource(ts)
    requires t in ts && NotOperators(before, t)
    ensures var st := Run(Start(before, nextId, zones), ts);
            && Find(st.records, t) < |st.records|
            && st.records[Find(st.records, t)].source == t.source
            && Survives(st, st.records[Find(st.records, t)])
  {
    RunInv(before, nextId, zones, ts);
    var st := Run(Start(before, nextId, zones), ts);
    assert Answered(st, t);
    var i := Find(st.records, t);
    var r := st.records[i];
    if i < |before| {
      assert forall j :: 0 <= j < i ==> st.records[j].(source := before[j].source) == before[j];
      FindIs(before, t, i);
    }
    assert r in st.records && r.id in st.activeIds;
    var u :| u in ts && RowOf(st.records, u, r);
  }

  predicate GeneratedAt(r: Record, zone: nat, ip: Ip) {
    r.source != Manual && r.zone == zone && r.value == Addr(ip)
  }

  /** Each lease address ends with exactly one generated record in its zone, under its own name. */
  lemma ExactlyOneRecord(before: seq<Record>, nextId: nat, zones: set<nat>, ts: seq<Target>, t: Target)
    returns (r: Record)
    requires ValidIds(before, nextId) && NotReserved(ts) && OneSource(ts)
    requires t in ts && t.source == Dhcp && NotOperators(before, t)
    requires forall u :: u in ts && u.ip == t.ip ==> u == t
    ensures r in SyncTargets(before, nextId, zones, ts).records && r.source == Dhcp && Matches(r, t)
    ensures forall s :: s in SyncTargets(before, nextId, zones, ts).records && GeneratedAt(s, t.zone, t.ip) ==> s == r
  {
    hide Run;
    RunInv(before, nextId, zones, ts);
    TargetRow(before, nextId, zones, ts, t);
    var st := Run(Start(before, nextId, zones), ts);
    r := st.records[Find(st.records, t)];
    assert Answered(st, t);
    forall s | s in SyncTargets(before, nextId, zones, ts).records && GeneratedAt(s, t.zone, t.ip)
      ensures s == r
    {
      assert s in st.records && Survives(st, s);
      var u :| u in ts && RowOf(st.records, u, s);
    }
  }

  /** With no operator record in the way, the DNS names stay unique exactly when the entries' names are. */
  lemma SyncUniqueExactly(before: seq<Record>, nextId: nat, zones: set<nat>, ts: seq<Target>)
    requires ValidIds(before, nextId) && NotReserved(ts) && OneSource(ts) && DhcpUnique(before)
    requires forall t :: t in ts && t.source == Dhcp ==> NotOperators(before, t)
    ensures DhcpUnique(SyncTargets(before, nextId, zones, ts).records) <==> TargetsUnique(ts)
  {
    var after := SyncTargets(before, nextId, zones, ts).records;
    if DhcpUnique(after) {
      var st := Run(Start(before, nextId, zones), ts);
      forall t, u | t in ts && u in ts && t.source == Dhcp && u.source == Dhcp && SameTargetName(t, u)
        ensures t.ip == u.ip
      {
        TargetRow(before, nextId, zones, ts, t);
        TargetRow(before, nextId, zones, ts, u);
        assert SameName(st.records[Find(st.records, t)], st.records[Find(st.records, u)]);
      }
    }
    if TargetsUnique(ts) {
      SyncKeepsUnique(before, nextId, zones, ts);
    }
  }

  // ---- A second sync of the same entries ----

  lemma SweepIds(st: State, records: seq<Record>, nextId: nat)
    requires ValidIds(records, nextId)
    ensures ValidIds(Sweep(st, records), nextId)
  {
    if records != [] {
      SweepIds(st, records[1..], nextId);
      assert records == [records[0]] + records[1..];
      forall r | r in Sweep(st, records[1..]) ensures r.id != records[0].id {
        var j :| 0 <= j < |records[1..]| && records[1..][j] == r;
        assert records[j + 1] == r;
      }
    }
  }

  lemma {:induction false} FindSwept(st: State, records: seq<Record>, t: Target)
    requires Find(records, t) < |records| && Survives(st, records[Find(records, t)])
    ensures var kept := Sweep(st, records);
            Find(kept, t) < |kept| && kept[Find(kept, t)] == records[Find(records, t)]
  {
    hide Survives, Matches;
    var kept := Sweep(st, records);
    if Matches(records[0], t) {
      assert kept[0] == records[0];
    } else {
      FindSwept(st, records[1..], t);
      var rest := Sweep(st, records[1..]);
      assert Find(records, t) == 1 + Find(records[1..], t);
      if Survives(st, records[0]) {
        assert kept[1..] == rest;
      } else {
        assert kept == rest;
      }
    }
  }

  lemma SweepAll(st: State, records: seq<Record>)
    requires forall r :: r in records ==> Survives(st, r)
    ensures Sweep(st, records) == records
  {
    if records != [] {
      SweepAll(st, records[1..]);
      assert records == [records[0]] + records[1..];
    }
  }

  /** The zones and names a run marks depend on its targets alone. */
  lemma SameMarks(a: State, b: State, ts: seq<Target>)
    requires a.activeNames == b.activeNames && a.processed == b.processed
    ensures Run(a, ts).activeNames == Run(b, ts).activeNames && Run(a, ts).processed == Run(b, ts).processed
  {}

  /** t finds a row of an operator's or of its own source. */
  ghost predicate Settled(records: seq<Record>, t: Target) {
    var i := Find(records, t);
    i < |records| && (records[i].source == Manual || records[i].source == t.source)
  }

  /** A run whose targets all find a row of an operator or of their own source writes nothing. */
  lemma {:induction false} QuietRun(st: State, ts: seq<Target>)
    requires forall t :: t in ts ==> Settled(st.records, t)
    ensures Run(st, ts).records == st.records && Run(st, ts).nextId == st.nextId
    ensures Run(st, ts).changed == st.changed
  {
    if ts != [] {
      var t := ts[|ts| - 1];
      QuietRun(st, ts[..|ts| - 1]);
      assert Settled(st.records, t);
      var i := Find(st.records, t);
      assert st.records[i].source == t.source ==> st.records[i := st.records[i].(source := t.source)] == st.records;
    }
  }

  /** After one sync the same entries find everything as they left it. */
  lemma SyncIsIdempotent(before: seq<Record>, nextId: nat, zones: set<nat>, ts: seq<Target>)
    requires ValidIds(before, nextId) && NotReserved(ts) && OneSource(ts)
    ensures var once := SyncTargets(before, nextId, zones, ts);
            SyncTargets(once.records, once.nextId, zones, ts) == once.(changed := false)
  {
    var first := Run(Start(before, nextId, zones), ts);
    var kept := Sweep(first, first.records);
    RunInv(before, nextId, zones, ts);
    SweepIds(first, first.records, first.nextId);
    forall t | t in ts
      ensures Find(kept, t) < |kept| && kept[Find(kept, t)] == first.records[Find(first.records, t)]
      ensures Settled(kept, t)
    {
      FoundAgain(before, first, ts, t);
    }
    QuietRun(Start(kept, first.nextId, zones), ts);
    RunInv(kept, first.nextId, zones, ts);
    var second := Run(Start(kept, first.nextId, zones), ts);
    SameMarks(Start(before, nextId, zones), Start(kept, first.nextId, zones), ts);
    forall r | r in kept ensures Survives(second, r) {
      StillSurvives(first, second, ts, r);
    }
    SweepAll(second, kept);
  }

  lemma FoundAgain(before: seq<Record>, st: State, ts: seq<Target>, t: Target)
    requires Inv(before, st, ts) && OneSource(ts) && t in ts
    ensures Find(st.records, t) < |st.records|
    ensures var kept := Sweep(st, st.records);
            && Settled(kept, t) && kept[Find(kept, t)] == st.records[Find(st.records, t)]
  {
    assert Answered(st, t);
    var r := st.records[Find(st.records, t)];
    if r.source != Manual {
      assert r in st.records && r.id in st.activeIds;
      var u :| u in ts && RowOf(st.records, u, r);
    }
    FindSwept(st, st.records, t);
  }

  lemma StillSurvives(first: State, second: State, ts: seq<Target>, r: Record)
    requires ActiveFromTargets(first, ts) && ActiveFromTargets(second, ts)
    requires forall t :: t in ts ==> Answered(first, t) && Answered(second, t)
    requires first.activeNames == second.activeNames && first.processed == second.processed
    requires second.records == Sweep(first, first.records)
    requires forall t :: t in ts ==>
      Find(first.records, t) < |first.records| && Find(second.records, t) < |second.records|
      && second.records[Find(second.records, t)] == first.records[Find(first.records, t)]
    requires r in second.records
    ensures Survives(second, r)
  {
    if r.id in first.activeIds {
      var t :| t in ts && RowOf(first.records, t, r);
      assert Answered(second, t);
    }
    if r.value.Addr? && r.value.ip in second.activeIps {
      var t :| t in ts && t.ip == r.value.ip && Served(second.records, t);
      assert Answered(first, t);
    }
  }
}
