/** reconcileManagedReverseDns (server/src/models/dns-record.js): the generated PTR rows of managed networks. */
module ReverseReconcile {
  import opened Options
  import opened Addresses
  import opened DnsNames
  import opened ReversePtr

  datatype Source = Dns | Dhcp | Reservation | Placeholder | Operator

  datatype AllocationState = StaticDns | Gateway | System | StaticDhcp | DynamicDhcp | OtherState

  /** The names protocols give an address; "" is none. */
  datatype Names = Names(dns: string, reservation: string, lease: string)

  /** An allocated network with reverse DNS; `allocated` is what an IPv6 network walks instead. */
  datatype Network =
    | Net4(id: nat, prefix: nat, networkLong: nat, broadcastLong: nat)
    | Net6(id: nat, prefix: nat, addresses: seq<Ip>)

  datatype PtrKey = PtrKey(zone: nat, name: seq<nat>)
  datatype Desired = Desired(key: PtrKey, ip: Ip, value: string, source: Source)
  datatype PtrRow = PtrRow(id: nat, key: PtrKey, value: string, source: Source, enabled: bool)

  datatype Facts = Facts(
    networks: seq<Network>,
    zones: map<ZoneName, nat>,
    names: Ip -> Names,
    stateOf: (nat, Ip) -> AllocationState,
    textOf: Ip -> string,
    isAddress: string -> bool,
    maxAddresses: nat)

  ghost predicate ValidFacts(f: Facts) {
    && (forall a, b :: a in f.zones && b in f.zones && f.zones[a] == f.zones[b] ==> a == b)
    && (forall n :: n in f.networks && n.Net4? ==> n.networkLong <= n.broadcastLong < MAPPED_SIZE)
    && (forall n, ip :: n in f.networks && n.Net6? && ip in n.addresses ==> ValidIp(ip) && Fold(ip) == ip)
  }

  // ---- What each address should answer ----

  function Choose(name: string, source: Source): (string, Source) {
    if name != "" then (name, source) else ("", Placeholder)
  }

  /** canonicalHostnameForAllocation (server/src/models/ip-lifecycle.js). */
  function CanonicalHostname(state: AllocationState, names: Names): (string, Source) {
    match state
    case StaticDns => Choose(names.dns, Dns)
    case Gateway => Choose(names.dns, Dns)
    case System => ("", Placeholder)
    case StaticDhcp => Choose(names.reservation, Reservation)
    case DynamicDhcp => Choose(names.lease, Dhcp)
    case OtherState =>
      if names.dns != "" then (names.dns, Dns)
      else if names.reservation != "" then (names.reservation, Reservation)
      else Choose(names.lease, Dhcp)
  }

  /** The first candidate whose zone is managed. */
  function MostSpecific(zones: map<ZoneName, nat>, cs: seq<Candidate>): (c: Option<Candidate>)
    ensures c.Some? ==> c.value in cs && c.value.zone in zones
    ensures c.None? <==> forall d :: d in cs ==> d.zone !in zones
    ensures c.Some? ==> exists i :: 0 <= i < |cs| && cs[i] == c.value && forall j :: 0 <= j < i ==> cs[j].zone !in zones
  {
    if cs == [] then None
    else if cs[0].zone in zones then
      assert cs[0] == cs[0];
      Some(cs[0])
    else
      var c := MostSpecific(zones, cs[1..]);
      assert c.Some? ==>
          exists i :: 1 <= i < |cs| && cs[i] == c.value && forall j :: 0 <= j < i ==> cs[j].zone !in zones by {
        if c.Some? {
          var i :| 0 <= i < |cs[1..]| && cs[1..][i] == c.value && forall j :: 0 <= j < i ==> cs[1..][j].zone !in zones;
          assert cs[i + 1] == c.value;
          assert forall j :: 0 < j < i + 1 ==> cs[j] == cs[1..][j - 1];
        }
      }
      c
  }

  function DesiredFor(f: Facts, network: nat, ip: Ip, c: Candidate): Desired
    requires c.zone in f.zones
  {
    var chosen := CanonicalHostname(f.stateOf(network, ip), f.names(ip));
    Desired(PtrKey(f.zones[c.zone], c.ptrName), ip, if chosen.0 != "" then chosen.0 else f.textOf(ip), chosen.1)
  }

  predicate HasKey(desired: seq<Desired>, key: PtrKey) {
    exists d :: d in desired && d.key == key
  }

  /** considerAddress: the first network to reach a PTR name decides it. */
  function Consider(f: Facts, desired: seq<Desired>, network: nat, ip: Ip): seq<Desired> {
    var c := MostSpecific(f.zones, Candidates(ip));
    if c.None? then desired
    else
      var d := DesiredFor(f, network, ip, c.value);
      if HasKey(desired, d.key) then desired else desired + [d]
  }

  function First(n: Network): nat
    requires n.Net4?
  {
    if n.prefix >= 31 then n.networkLong else n.networkLong + 1
  }

  function Last(n: Network): int
    requires n.Net4?
  {
    if n.prefix >= 31 then n.broadcastLong else n.broadcastLong - 1
  }

  function UsableCount(n: Network): int
    requires n.Net4?
  {
    Last(n) - First(n) + 1
  }

  /** An IPv4 network over the limit is left out. */
  predicate IsSkipped(f: Facts, n: Network) {
    n.Net4? && UsableCount(n) > f.maxAddresses
  }

  /** The addresses first to last of an IPv4 network. */
  function Range(first: nat, last: int): (ips: seq<Ip>)
    ensures forall v: nat :: first <= v <= last <==> V4(v) in ips
    ensures forall ip :: ip in ips ==> ip.V4?
    decreases last - first
  {
    if first > last then [] else Range(first, last - 1) + [V4(last)]
  }

  /** The addresses of a network the reconcile walks; an IPv4 network over the limit is skipped. */
  function Walked(f: Facts, n: Network): seq<Ip> {
    match n
    case Net6(_, _, addresses) => addresses
    case Net4(_, _, _, _) => if IsSkipped(f, n) then [] else Range(First(n), Last(n))
  }

  function ConsiderAll(f: Facts, desired: seq<Desired>, network: nat, ips: seq<Ip>): seq<Desired> {
    if ips == [] then desired
    else Consider(f, ConsiderAll(f, desired, network, ips[..|ips| - 1]), network, ips[|ips| - 1])
  }

  function DesiredOf(f: Facts, networks: seq<Network>): seq<Desired> {
    if networks == [] then []
    else
      var n := networks[|networks| - 1];
      ConsiderAll(f, DesiredOf(f, networks[..|networks| - 1]), n.id, Walked(f, n))
  }

  // ---- Writing the rows ----

  predicate IsGeneratedSource(s: Source) {
    s != Operator
  }

  predicate SameValue(row: PtrRow, d: Desired) {
    Lower(Trim(row.value)) == Lower(d.value)
  }

  /** A row the repair may rewrite: a placeholder, a generated row, or one that already says the name. */
  predicate IsGenerated(isAddress: string -> bool, row: PtrRow, d: Desired) {
    Trim(row.value) == "" || isAddress(Trim(row.value)) || IsGeneratedSource(row.source) || SameValue(row, d)
  }

  predicate NeedsUpdate(isAddress: string -> bool, row: PtrRow, d: Desired) {
    IsGenerated(isAddress, row, d) && (!SameValue(row, d) || row.source != d.source || !row.enabled)
  }

  /** The last row of the name, |rows| when there is none. */
  function LastRow(rows: seq<PtrRow>, key: PtrKey): (i: nat)
    ensures i <= |rows|
    ensures i < |rows| ==> rows[i].key == key && forall j :: i < j < |rows| ==> rows[j].key != key
    ensures i == |rows| ==> forall j :: 0 <= j < |rows| ==> rows[j].key != key
  {
    if rows == [] then 0
    else
      var n := |rows| - 1;
      if rows[n].key == key then n
      else var i := LastRow(rows[..n], key); if i == n then |rows| else i
  }

  datatype Result = Result(rows: seq<PtrRow>, nextId: nat, changedZones: set<nat>, inserted: nat, updated: nat)

  function WriteOne(isAddress: string -> bool, r: Result, d: Desired): Result {
    var i := LastRow(r.rows, d.key);
    if i == |r.rows| then
      r.(rows := r.rows + [PtrRow(r.nextId, d.key, d.value, d.source, true)], nextId := r.nextId + 1,
         changedZones := r.changedZones + {d.key.zone}, inserted := r.inserted + 1)
    else if NeedsUpdate(isAddress, r.rows[i], d) then
      r.(rows := r.rows[i := r.rows[i].(value := d.value, source := d.source, enabled := true)],
         changedZones := r.changedZones + {d.key.zone}, updated := r.updated + 1)
    else r
  }

  function WriteAll(isAddress: string -> bool, r: Result, desired: seq<Desired>): Result {
    if desired == [] then r
    else WriteOne(isAddress, WriteAll(isAddress, r, desired[..|desired| - 1]), desired[|desired| - 1])
  }

  function Begin(rows: seq<PtrRow>, nextId: nat): Result {
    Result(rows, nextId, {}, 0, 0)
  }

  function Reconcile(f: Facts, rows: seq<PtrRow>, nextId: nat): Result {
    WriteAll(f.isAddress, Begin(rows, nextId), DesiredOf(f, f.networks))
  }

  function Bumped(serials: map<nat, nat>, zones: set<nat>): map<nat, nat> {
    map z | z in serials :: if z in zones then serials[z] + 1 else serials[z]
  }

  // ---- Every covered address is desired, under its own name ----

  ghost predicate DistinctKeys(desired: seq<Desired>) {
    forall i, j :: 0 <= i < j < |desired| ==> desired[i].key != desired[j].key
  }

  /** Each entry is the most specific PTR name of its address. */
  ghost predicate Placed(f: Facts, d: Desired) {
    && ValidIp(d.ip) && Fold(d.ip) == d.ip
    && (exists c, network :: MostSpecific(f.zones, Candidates(d.ip)) == Some(c) && d == DesiredFor(f, network, d.ip, c))
  }

  ghost predicate AllPlaced(f: Facts, desired: seq<Desired>) {
    DistinctKeys(desired) && forall d :: d in desired ==> Placed(f, d)
  }

  /** The desired row of an address, when some managed zone covers it. */
  ghost predicate Wanted(f: Facts, desired: seq<Desired>, ip: Ip) {
    var c := MostSpecific(f.zones, Candidates(ip));
    c.None? || exists d :: d in desired && d.ip == ip && d.key == PtrKey(f.zones[c.value.zone], c.value.ptrName)
  }

  /** Of the managed zones that hold an address, the one chosen has the most labels, and no other has as many. */
  lemma MostSpecificIsLongest(zones: map<ZoneName, nat>, ip: Ip, zone: ZoneName)
    requires zone in zones && IsProper(zone) && !IsMappedZone(zone) && ReverseZoneContains(zone, ip)
    ensures var c := MostSpecific(zones, Candidates(ip));
            c.Some? && (zone == c.value.zone || |zone.labels| < |c.value.zone.labels|)
  {
    hide ReverseZoneContains, IsMappedZone, Candidates, MostSpecific;
    ContainsExactlyCandidates(zone, ip);
    var d :| d in Candidates(ip) && d.zone == zone;
    FirstManagedIsLongest(zones, ip, d);
  }

  /** Candidates come longest zone first. */
  lemma FirstManagedIsLongest(zones: map<ZoneName, nat>, ip: Ip, d: Candidate)
    requires d in Candidates(ip) && d.zone in zones
    ensures var c := MostSpecific(zones, Candidates(ip));
            c.Some? && (d == c.value || |d.zone.labels| < |c.value.zone.labels|)
  {
    hide DigitsOf, Fold, MostSpecific;
    var cs := Candidates(ip);
    var c := MostSpecific(zones, cs);
    var i :| 0 <= i < |cs| && cs[i] == c.value && forall j :: 0 <= j < i ==> cs[j].zone !in zones;
    var k :| 0 <= k < |cs| && cs[k] == d;
    CandidateLabels(ip, i);
    CandidateLabels(ip, k);
  }

  lemma CandidateLabels(ip: Ip, k: nat)
    requires k < |Candidates(ip)|
    ensures |Candidates(ip)[k].zone.labels| == |Candidates(ip)| - k
  {
    hide DigitsOf, Fold;
  }

  lemma SameKeySameAddress(f: Facts, d: Desired, e: Desired)
    requires ValidFacts(f) && Placed(f, d) && Placed(f, e) && d.key == e.key
    ensures d.ip == e.ip
  {
    hide Candidates, CanonicalHostname;
    var c, n :| MostSpecific(f.zones, Candidates(d.ip)) == Some(c) && d == DesiredFor(f, n, d.ip, c);
    var c', n' :| MostSpecific(f.zones, Candidates(e.ip)) == Some(c') && e == DesiredFor(f, n', e.ip, c');
    assert c.zone == c'.zone && c == c';
    PtrNamesDistinct(d.ip, e.ip, c);
  }

  lemma ConsiderPlaces(f: Facts, desired: seq<Desired>, network: nat, ip: Ip)
    requires ValidFacts(f) && AllPlaced(f, desired) && ValidIp(ip) && Fold(ip) == ip
    ensures AllPlaced(f, Consider(f, desired, network, ip)) && Wanted(f, Consider(f, desired, network, ip), ip)
    ensures forall d :: d in desired ==> d in Consider(f, desired, network, ip)
  {
    hide Candidates, CanonicalHostname, ValidIp, Fold;
    var c := MostSpecific(f.zones, Candidates(ip));
    if c.Some? {
      var d := DesiredFor(f, network, ip, c.value);
      assert Placed(f, d);
      if HasKey(desired, d.key) {
        var e :| e in desired && e.key == d.key;
        SameKeySameAddress(f, d, e);
      } else {
        assert d in desired + [d];
      }
    }
  }

  lemma WantedStays(f: Facts, desired: seq<Desired>, more: seq<Desired>, ip: Ip)
    requires Wanted(f, desired, ip) && forall d :: d in desired ==> d in more
    ensures Wanted(f, more, ip)
  {
    hide Candidates;
  }

  lemma {:induction false} ConsiderAllPlaces(f: Facts, desired: seq<Desired>, network: nat, ips: seq<Ip>)
    requires ValidFacts(f) && AllPlaced(f, desired)
    requires forall ip :: ip in ips ==> ValidIp(ip) && Fold(ip) == ip
    ensures var more := ConsiderAll(f, desired, network, ips);
            && AllPlaced(f, more) && (forall d :: d in desired ==> d in more)
            && forall ip :: ip in ips ==> Wanted(f, more, ip)
  {
    hide AllPlaced, Wanted, Consider, ValidFacts, ValidIp, Fold;
    if ips != [] {
      var n := |ips| - 1;
      assert ips == ips[..n] + [ips[n]];
      ConsiderAllPlaces(f, desired, network, ips[..n]);
      var before := ConsiderAll(f, desired, network, ips[..n]);
      ConsiderPlaces(f, before, network, ips[n]);
      forall ip | ip in ips[..n] ensures Wanted(f, ConsiderAll(f, desired, network, ips), ip) {
        WantedStays(f, before, ConsiderAll(f, desired, network, ips), ip);
      }
    }
  }

  lemma WalkedValid(f: Facts, n: Network)
    requires ValidFacts(f) && n in f.networks
    ensures forall ip :: ip in Walked(f, n) ==> ValidIp(ip) && Fold(ip) == ip
  {
    SixteenToTheEight();
  }

  lemma {:induction false} DesiredPlaces(f: Facts, networks: seq<Network>)
    requires ValidFacts(f) && forall n :: n in networks ==> n in f.networks
    ensures AllPlaced(f, DesiredOf(f, networks))
    ensures forall n, ip :: n in networks && ip in Walked(f, n) ==> Wanted(f, DesiredOf(f, networks), ip)
  {
    hide AllPlaced, Wanted, ConsiderAll, ValidFacts, ValidIp, Fold, Walked;
    if networks == [] {
      NothingPlaced(f);
    } else {
      var k := |networks| - 1;
      assert networks == networks[..k] + [networks[k]];
      var n := networks[k];
      DesiredPlaces(f, networks[..k]);
      WalkedValid(f, n);
      var before := DesiredOf(f, networks[..k]);
      ConsiderAllPlaces(f, before, n.id, Walked(f, n));
      forall m, ip | m in networks && ip in Walked(f, m) ensures Wanted(f, DesiredOf(f, networks), ip) {
        if m in networks[..k] {
          WantedStays(f, before, DesiredOf(f, networks), ip);
        }
      }
    }
  }

  lemma NothingPlaced(f: Facts)
    ensures AllPlaced(f, [])
  {}

  // ---- What the transaction leaves ----

  function Rewritten(row: PtrRow, d: Desired): PtrRow {
    row.(value := d.value, source := d.source, enabled := true)
  }

  /** The row of d's name after the transaction, from the rows before. */
  ghost predicate Answered(isAddress: string -> bool, before: seq<PtrRow>, after: seq<PtrRow>, d: Desired) {
    var i, j := LastRow(before, d.key), LastRow(after, d.key);
    && j < |after|
    && if i == |before| then after[j] == PtrRow(after[j].id, d.key, d.value, d.source, true)
       else i == j && after[i] == if NeedsUpdate(isAddress, before[i], d) then Rewritten(before[i], d) else before[i]
  }

  /** Rows before stay in place and change only where a desired name rewrites its last row. */
  ghost predicate RowsFollow(isAddress: string -> bool, before: seq<PtrRow>, after: seq<PtrRow>,
                             desired: seq<Desired>)
  {
    && |before| <= |after|
    && forall i :: 0 <= i < |before| ==>
         after[i] == before[i]
         || exists d :: d in desired && i == LastRow(before, d.key) && NeedsUpdate(isAddress, before[i], d)
                        && after[i] == Rewritten(before[i], d)
  }

  /** d's name has no row, or one that has to be rewritten. */
  predicate Touches(isAddress: string -> bool, rows: seq<PtrRow>, d: Desired) {
    var i := LastRow(rows, d.key);
    i == |rows| || NeedsUpdate(isAddress, rows[i], d)
  }

  lemma LastRowIs(rows: seq<PtrRow>, key: PtrKey, i: nat)
    requires i <= |rows|
    requires i < |rows| ==> rows[i].key == key && forall j :: i < j < |rows| ==> rows[j].key != key
    requires i == |rows| ==> forall j :: 0 <= j < |rows| ==> rows[j].key != key
    ensures LastRow(rows, key) == i
  {}

  lemma WriteOneLast(isAddress: string -> bool, r: Result, d: Desired, key: PtrKey)
    requires key != d.key
    ensures var i, after := LastRow(r.rows, key), WriteOne(isAddress, r, d).rows;
            && (i == |r.rows| ==> LastRow(after, key) == |after|)
            && (i < |r.rows| ==> LastRow(after, key) == i && after[i] == r.rows[i])
  {
    hide NeedsUpdate, LastRow;
    var i, after := LastRow(r.rows, key), WriteOne(isAddress, r, d).rows;
    assert forall j :: 0 <= j < |r.rows| ==>
        after[j].key == r.rows[j].key && (r.rows[j].key != d.key ==> after[j] == r.rows[j]);
    LastRowIs(after, key, if i == |r.rows| then |after| else i);
  }

  lemma WriteOneAnswers(isAddress: string -> bool, before: seq<PtrRow>, r: Result, d: Desired)
    requires |before| <= |r.rows|
    requires var i := LastRow(before, d.key);
             if i == |before| then LastRow(r.rows, d.key) == |r.rows|
             else LastRow(r.rows, d.key) == i && r.rows[i] == before[i]
    ensures Answered(isAddress, before, WriteOne(isAddress, r, d).rows, d)
  {
    hide NeedsUpdate;
    var after := WriteOne(isAddress, r, d).rows;
    LastRowIs(after, d.key, LastRow(r.rows, d.key));
  }

  /** Where an unvisited name stands during the transaction. */
  ghost predicate Unvisited(before: seq<PtrRow>, after: seq<PtrRow>, key: PtrKey) {
    var i := LastRow(before, key);
    if i == |before| then LastRow(after, key) == |after|
    else i < |after| && LastRow(after, key) == i && after[i] == before[i]
  }

  lemma UnvisitedStays(isAddress: string -> bool, before: seq<PtrRow>, r: Result, d: Desired, key: PtrKey)
    requires Unvisited(before, r.rows, key) && key != d.key
    ensures Unvisited(before, WriteOne(isAddress, r, d).rows, key)
  {
    WriteOneLast(isAddress, r, d, key);
  }

  lemma AnsweredStays(isAddress: string -> bool, before: seq<PtrRow>, r: Result, d: Desired, e: Desired)
    requires Answered(isAddress, before, r.rows, e) && e.key != d.key
    ensures Answered(isAddress, before, WriteOne(isAddress, r, d).rows, e)
  {
    hide NeedsUpdate;
    WriteOneLast(isAddress, r, d, e.key);
  }

  lemma WriteOneFollows(isAddress: string -> bool, before: seq<PtrRow>, r: Result, desired: seq<Desired>, d: Desired)
    requires RowsFollow(isAddress, before, r.rows, desired) && Unvisited(before, r.rows, d.key)
    ensures RowsFollow(isAddress, before, WriteOne(isAddress, r, d).rows, desired + [d])
  {
    hide NeedsUpdate;
    var after := WriteOne(isAddress, r, d).rows;
    assert d in desired + [d];
    forall i | 0 <= i < |before|
      ensures after[i] == before[i]
           || exists e :: e in desired + [d] && i == LastRow(before, e.key) && NeedsUpdate(isAddress, before[i], e)
                          && after[i] == Rewritten(before[i], e)
    {
      if after[i] == r.rows[i] && r.rows[i] != before[i] {
        var e :| e in desired && i == LastRow(before, e.key) && NeedsUpdate(isAddress, before[i], e)
                 && r.rows[i] == Rewritten(before[i], e);
        assert e in desired + [d];
      }
    }
  }

  lemma WriteOneTouches(isAddress: string -> bool, before: seq<PtrRow>, r: Result, d: Desired)
    requires Unvisited(before, r.rows, d.key)
    ensures var r' := WriteOne(isAddress, r, d);
            && r'.changedZones == r.changedZones + (if Touches(isAddress, before, d) then {d.key.zone} else {})
            && r'.inserted + r'.updated == r.inserted + r.updated + (if Touches(isAddress, before, d) then 1 else 0)
  {
    hide NeedsUpdate;
  }

  function TouchedCount(isAddress: string -> bool, rows: seq<PtrRow>, desired: seq<Desired>): nat {
    if desired == [] then 0
    else TouchedCount(isAddress, rows, desired[..|desired| - 1])
         + if Touches(isAddress, rows, desired[|desired| - 1]) then 1 else 0
  }

  ghost predicate Outcome(isAddress: string -> bool, before: seq<PtrRow>, r: Result, desired: seq<Desired>) {
    && RowsFollow(isAddress, before, r.rows, desired)
    && (forall d :: d in desired ==> Answered(isAddress, before, r.rows, d))
    && (forall z :: z in r.changedZones <==>
          exists d :: d in desired && d.key.zone == z && Touches(isAddress, before, d))
    && r.inserted + r.updated == TouchedCount(isAddress, before, desired)
  }

  lemma BeginOutcome(isAddress: string -> bool, rows: seq<PtrRow>, nextId: nat)
    ensures Outcome(isAddress, rows, Begin(rows, nextId), [])
    ensures forall key :: Unvisited(rows, Begin(rows, nextId).rows, key)
  {}

  lemma StepOutcome(isAddress: string -> bool, before: seq<PtrRow>, r: Result, desired: seq<Desired>, d: Desired)
    requires Outcome(isAddress, before, r, desired) && Unvisited(before, r.rows, d.key)
    requires forall e :: e in desired ==> e.key != d.key
    ensures Outcome(isAddress, before, WriteOne(isAddress, r, d), desired + [d])
  {
    hide Answered, RowsFollow, Touches, WriteOne, LastRow;
    WriteOneFollows(isAddress, before, r, desired, d);
    WriteOneTouches(isAddress, before, r, d);
    FromUnvisited(isAddress, before, r, desired, d);
    forall e | e in desired ensures Answered(isAddress, before, WriteOne(isAddress, r, d).rows, e) {
      AnsweredStays(isAddress, before, r, d, e);
    }
    assert (desired + [d])[..|desired|] == desired;
  }

  lemma FromUnvisited(isAddress: string -> bool, before: seq<PtrRow>, r: Result, desired: seq<Desired>, d: Desired)
    requires RowsFollow(isAddress, before, r.rows, desired) && Unvisited(before, r.rows, d.key)
    ensures Answered(isAddress, before, WriteOne(isAddress, r, d).rows, d)
  {
    WriteOneAnswers(isAddress, before, r, d);
  }

  lemma {:induction false} WriteAllOutcome(isAddress: string -> bool, before: seq<PtrRow>, nextId: nat,
                                           desired: seq<Desired>)
    requires DistinctKeys(desired)
    ensures Outcome(isAddress, before, WriteAll(isAddress, Begin(before, nextId), desired), desired)
    ensures forall key :: (forall d :: d in desired ==> d.key != key) ==>
              Unvisited(before, WriteAll(isAddress, Begin(before, nextId), desired).rows, key)
  {
    hide Outcome, Unvisited, WriteOne;
    if desired == [] {
      BeginOutcome(isAddress, before, nextId);
    } else {
      var n := |desired| - 1;
      var d := desired[n];
      WriteAllOutcome(isAddress, before, nextId, desired[..n]);
      var r := WriteAll(isAddress, Begin(before, nextId), desired[..n]);
      assert desired == desired[..n] + [d];
      assert forall e :: e in desired[..n] ==> e.key != d.key;
      StepOutcome(isAddress, before, r, desired[..n], d);
      forall key | forall e :: e in desired ==> e.key != key
        ensures Unvisited(before, WriteAll(isAddress, Begin(before, nextId), desired).rows, key)
      {
        assert d in desired && forall e :: e in desired[..n] ==> e in desired;
        UnvisitedStays(isAddress, before, r, d, key);
      }
    }
  }

  // ---- Main results ----

  lemma ReconcileOutcome(f: Facts, rows: seq<PtrRow>, nextId: nat)
    requires ValidFacts(f)
    ensures Outcome(f.isAddress, rows, Reconcile(f, rows, nextId), DesiredOf(f, f.networks))
    ensures AllPlaced(f, DesiredOf(f, f.networks))
    ensures forall n, ip :: n in f.networks && ip in Walked(f, n) ==> Wanted(f, DesiredOf(f, f.networks), ip)
  {
    hide Outcome, DesiredOf, Placed, Wanted, Walked, ValidFacts, Unvisited, WriteAll;
    DesiredPlaces(f, f.networks);
    WriteAllOutcome(f.isAddress, rows, nextId, DesiredOf(f, f.networks));
  }

  /** The row says d, or an operator's override stands in its place. */
  ghost predicate Says(f: Facts, row: PtrRow, d: Desired) {
    (SameValue(row, d) || row.value == d.value) && row.source == d.source && row.enabled
  }

  // ---- Which network decides an address ----

  /** The first network, in the order they are visited, that walks the address. */
  function Decider(f: Facts, networks: seq<Network>, ip: Ip): (n: Option<Network>)
    ensures n.Some? ==> n.value in networks && ip in Walked(f, n.value)
    ensures n.None? <==> forall m :: m in networks ==> ip !in Walked(f, m)
  {
    if networks == [] then None
    else
      var k := |networks| - 1;
      var before := Decider(f, networks[..k], ip);
      assert networks == networks[..k] + [networks[k]];
      if before.Some? then before else if ip in Walked(f, networks[k]) then Some(networks[k]) else None
  }

  /** ORDER BY prefix_length DESC */
  ghost predicate LongestPrefixFirst(networks: seq<Network>) {
    forall i, j :: 0 <= i < j < |networks| ==> networks[i].prefix >= networks[j].prefix
  }

  /** Visited in that order, the most specific network that walks the address decides it. */
  lemma {:induction false} DeciderIsMostSpecific(f: Facts, networks: seq<Network>, ip: Ip, n: Network)
    requires LongestPrefixFirst(networks) && n in networks && ip in Walked(f, n)
    ensures Decider(f, networks, ip).Some? && Decider(f, networks, ip).value.prefix >= n.prefix
  {
    hide Walked;
    var k := |networks| - 1;
    assert networks == networks[..k] + [networks[k]];
    if n in networks[..k] {
      DeciderIsMostSpecific(f, networks[..k], ip, n);
    } else if Decider(f, networks[..k], ip).Some? {
      var m := Decider(f, networks[..k], ip).value;
      var i :| 0 <= i < k && networks[..k][i] == m;
      assert networks[i] == m;
    }
  }

  lemma {:induction false} ConsiderAllFrom(f: Facts, desired: seq<Desired>, network: nat, ips: seq<Ip>)
    ensures forall d :: d in ConsiderAll(f, desired, network, ips) ==> d in desired || d.ip in ips
  {
    hide Candidates, CanonicalHostname;
    if ips != [] {
      var n := |ips| - 1;
      assert ips == ips[..n] + [ips[n]];
      ConsiderAllFrom(f, desired, network, ips[..n]);
    }
  }

  lemma {:induction false} DesiredFrom(f: Facts, networks: seq<Network>)
    ensures forall d :: d in DesiredOf(f, networks) ==> exists n :: n in networks && d.ip in Walked(f, n)
  {
    hide Walked, ConsiderAll;
    if networks != [] {
      var k := |networks| - 1;
      assert networks == networks[..k] + [networks[k]];
      DesiredFrom(f, networks[..k]);
      ConsiderAllFrom(f, DesiredOf(f, networks[..k]), networks[k].id, Walked(f, networks[k]));
    }
  }

  /** A network reaching an address nobody reached before decides it. */
  lemma {:induction false} ConsiderAllDecides(f: Facts, desired: seq<Desired>, network: nat, ips: seq<Ip>, ip: Ip,
                                              c: Candidate)
    requires ValidFacts(f) && AllPlaced(f, desired) && ip in ips
    requires forall i :: i in ips ==> ValidIp(i) && Fold(i) == i
    requires forall d :: d in desired ==> d.ip != ip
    requires MostSpecific(f.zones, Candidates(ip)) == Some(c)
    ensures DesiredFor(f, network, ip, c) in ConsiderAll(f, desired, network, ips)
  {
    hide *;
    var n := |ips| - 1;
    assert ips == ips[..n] + [ips[n]];
    var before := ConsiderAll(f, desired, network, ips[..n]);
    ConsiderLast(f, desired, network, ips);
    ConsiderAllPlaces(f, desired, network, ips[..n]);
    if ip in ips[..n] {
      ConsiderAllDecides(f, desired, network, ips[..n], ip, c);
      ConsiderPlaces(f, before, network, ips[n]);
    } else {
      ConsiderAllFrom(f, desired, network, ips[..n]);
      ConsiderDecides(f, before, network, ip, c);
    }
  }

  lemma ConsiderLast(f: Facts, desired: seq<Desired>, network: nat, ips: seq<Ip>)
    requires ips != []
    ensures var n := |ips| - 1;
            ConsiderAll(f, desired, network, ips) ==
            Consider(f, ConsiderAll(f, desired, network, ips[..n]), network, ips[n])
  {}

  lemma ConsiderDecides(f: Facts, desired: seq<Desired>, network: nat, ip: Ip, c: Candidate)
    requires ValidFacts(f) && AllPlaced(f, desired) && ValidIp(ip) && Fold(ip) == ip
    requires forall d :: d in desired ==> d.ip != ip
    requires MostSpecific(f.zones, Candidates(ip)) == Some(c)
    ensures DesiredFor(f, network, ip, c) in Consider(f, desired, network, ip)
  {
    hide Candidates, CanonicalHostname, ValidIp, Fold, ValidFacts;
    var d := DesiredFor(f, network, ip, c);
    assert Placed(f, d);
    if HasKey(desired, d.key) {
      var e :| e in desired && e.key == d.key;
      SameKeySameAddress(f, d, e);
    }
  }

  /** Each address is wanted with the state its deciding network gives it. */
  lemma {:induction false} DesiredIsDeciders(f: Facts, networks: seq<Network>, ip: Ip, c: Candidate)
    requires ValidFacts(f) && (forall n :: n in networks ==> n in f.networks) && Decider(f, networks, ip).Some?
    requires MostSpecific(f.zones, Candidates(ip)) == Some(c)
    ensures DesiredFor(f, Decider(f, networks, ip).value.id, ip, c) in DesiredOf(f, networks)
  {
    hide Candidates, CanonicalHostname, AllPlaced, ValidFacts, ValidIp, Fold, Walked, ConsiderAll, MostSpecific, Wanted,
      DesiredFor;
    var k := |networks| - 1;
    assert networks == networks[..k] + [networks[k]];
    var before := DesiredOf(f, networks[..k]);
    DesiredPlaces(f, networks[..k]);
    WalkedValid(f, networks[k]);
    if Decider(f, networks[..k], ip).Some? {
      DesiredIsDeciders(f, networks[..k], ip, c);
      ConsiderAllPlaces(f, before, networks[k].id, Walked(f, networks[k]));
    } else {
      DesiredFrom(f, networks[..k]);
      ConsiderAllDecides(f, before, networks[k].id, Walked(f, networks[k]), ip, c);
    }
  }

  /**
   * Every address a network walks and a managed zone covers has a PTR row in its most specific zone, saying the name
   * and source the deciding network's allocation gives it, or its text, unless an operator's override was there.
   */
  lemma WalkedAddressHasPtr(f: Facts, rows: seq<PtrRow>, nextId: nat, ip: Ip, c: Candidate)
    requires ValidFacts(f) && Decider(f, f.networks, ip).Some?
    requires MostSpecific(f.zones, Candidates(ip)) == Some(c)
    ensures var d := DesiredFor(f, Decider(f, f.networks, ip).value.id, ip, c);
            var after := Reconcile(f, rows, nextId).rows;
            var i, j := LastRow(rows, d.key), LastRow(after, d.key);
            && j < |after| && after[j].key == d.key
            && (Says(f, after[j], d)
                || (i < |rows| && !IsGenerated(f.isAddress, rows[i], d) && after[j] == rows[i]))
  {
    hide Candidates, DesiredOf, Reconcile, Placed, LastRow, ValidFacts, DesiredFor, MostSpecific, Wanted, Walked,
      Decider;
    ReconcileOutcome(f, rows, nextId);
    DesiredIsDeciders(f, f.networks, ip, c);
    var d := DesiredFor(f, Decider(f, f.networks, ip).value.id, ip, c);
    assert Answered(f.isAddress, rows, Reconcile(f, rows, nextId).rows, d);
    LastRowBound(Reconcile(f, rows, nextId).rows, d.key);
  }

  /** Complete: that holds of every usable address of a managed IPv4 network within the limit. */
  lemma EveryCoveredAddressHasPtr(f: Facts, rows: seq<PtrRow>, nextId: nat, n: Network, v: nat, c: Candidate)
    returns (m: Network)
    requires ValidFacts(f) && n in f.networks && n.Net4? && UsableCount(n) <= f.maxAddresses && First(n) <= v <= Last(n)
    requires MostSpecific(f.zones, Candidates(V4(v))) == Some(c)
    ensures Decider(f, f.networks, V4(v)) == Some(m) && (LongestPrefixFirst(f.networks) ==> m.prefix >= n.prefix)
    ensures var d := DesiredFor(f, m.id, V4(v), c);
            var after := Reconcile(f, rows, nextId).rows;
            var i, j := LastRow(rows, d.key), LastRow(after, d.key);
            && j < |after| && after[j].key == d.key
            && (Says(f, after[j], d)
                || (i < |rows| && !IsGenerated(f.isAddress, rows[i], d) && after[j] == rows[i]))
  {
    hide Candidates, Reconcile, LastRow, ValidFacts, DesiredFor, MostSpecific;
    assert V4(v) in Walked(f, n);
    m := Decider(f, f.networks, V4(v)).value;
    WalkedAddressHasPtr(f, rows, nextId, V4(v), c);
    if LongestPrefixFirst(f.networks) {
      DeciderIsMostSpecific(f, f.networks, V4(v), n);
    }
  }

  lemma LastRowBound(rows: seq<PtrRow>, key: PtrKey)
    ensures LastRow(rows, key) < |rows| ==> rows[LastRow(rows, key)].key == key
  {}

  /** A row no desired name may rewrite is left as it is. */
  lemma OverrideUntouched(f: Facts, rows: seq<PtrRow>, nextId: nat, i: nat)
    requires ValidFacts(f) && i < |rows|
    requires forall d :: d in DesiredOf(f, f.networks) && d.key == rows[i].key ==> !IsGenerated(f.isAddress, rows[i], d)
    ensures i < |Reconcile(f, rows, nextId).rows| && Reconcile(f, rows, nextId).rows[i] == rows[i]
  {
    hide DesiredOf, Reconcile, LastRow, ValidFacts, AllPlaced;
    ReconcileOutcome(f, rows, nextId);
    forall d | d in DesiredOf(f, f.networks) && i == LastRow(rows, d.key) ensures d.key == rows[i].key {
      LastRowBound(rows, d.key);
    }
  }

  lemma TrimShorter(v: string)
    ensures Trim(v) == v || |Trim(v)| < |v|
  {}

  /** The value compares equal with its own trimmed text exactly when it is trimmed. */
  lemma SameAsTrimmed(row: PtrRow, d: Desired)
    ensures row.value == d.value ==> (SameValue(row, d) <==> Trim(d.value) == d.value)
    ensures SameValue(row, d) ==> Trim(d.value) == d.value
  {
    TrimShorter(d.value);
    if SameValue(row, d) {
      TrimEnds(row.value);
      SameTrimmed(Trim(row.value), d.value);
    }
  }

  lemma SameTrimmed(a: string, b: string)
    requires Lower(a) == Lower(b)
    requires a == "" || (!IsSpace(a[0]) && !IsSpace(a[|a| - 1]))
    ensures Trim(b) == b
  {
    assert |a| == |Lower(a)| == |Lower(b)| == |b|;
    if b != "" {
      LowerKeepsSpace(a[0]);
      LowerKeepsSpace(b[0]);
      LowerKeepsSpace(a[|a| - 1]);
      LowerKeepsSpace(b[|b| - 1]);
      assert Lower(a)[0] == Lower(b)[0] && Lower(a)[|a| - 1] == Lower(b)[|b| - 1];
    }
    TrimNoop(b);
  }

  /** d's own value has no spaces around it, or its name is an operator's override. */
  ghost predicate Repeats(f: Facts, rows: seq<PtrRow>, d: Desired) {
    var i := LastRow(rows, d.key);
    Trim(d.value) == d.value || (i < |rows| && !IsGenerated(f.isAddress, rows[i], d))
  }

  lemma TouchedAgain(f: Facts, rows: seq<PtrRow>, after: seq<PtrRow>, d: Desired)
    requires Answered(f.isAddress, rows, after, d) && d.source != Operator
    ensures !Touches(f.isAddress, after, d) <==> Repeats(f, rows, d)
  {
    hide SameValue, LastRow, Trim;
    var i, j := LastRow(rows, d.key), LastRow(after, d.key);
    SameAsTrimmed(after[j], d);
    if i < |rows| {
      SameAsTrimmed(rows[i], d);
    }
  }

  lemma DesiredIsGenerated(f: Facts, d: Desired)
    requires Placed(f, d)
    ensures d.source != Operator
  {
    hide Candidates;
  }

  lemma UntouchedIsSame(isAddress: string -> bool, before: seq<PtrRow>, nextId: nat, desired: seq<Desired>)
    requires forall d :: d in desired ==> !Touches(isAddress, before, d)
    ensures WriteAll(isAddress, Begin(before, nextId), desired) == Begin(before, nextId)
  {
    if desired != [] {
      UntouchedIsSame(isAddress, before, nextId, desired[..|desired| - 1]);
      assert !Touches(isAddress, before, desired[|desired| - 1]);
    }
  }

  /**
   * A second run changes nothing, serials included, exactly when every desired value that is not shadowed
   * by an override has no spaces around it.
   */
  lemma SecondRunChangesNothingExactly(f: Facts, rows: seq<PtrRow>, nextId: nat)
    requires ValidFacts(f)
    ensures var once := Reconcile(f, rows, nextId);
            var again := Reconcile(f, once.rows, once.nextId);
            && (again.changedZones == {} <==> forall d :: d in DesiredOf(f, f.networks) ==> Repeats(f, rows, d))
            && (again.changedZones == {} ==> again == Begin(once.rows, once.nextId))
  {
    hide DesiredOf, Touches, Repeats, RowsFollow, Answered, Placed, WriteAll, ValidFacts;
    var desired := DesiredOf(f, f.networks);
    var once := Reconcile(f, rows, nextId);
    var again := Reconcile(f, once.rows, once.nextId);
    ReconcileOutcome(f, rows, nextId);
    ReconcileOutcome(f, once.rows, once.nextId);
    forall d | d in desired
      ensures !Touches(f.isAddress, once.rows, d) <==> Repeats(f, rows, d)
    {
      DesiredIsGenerated(f, d);
      TouchedAgain(f, rows, once.rows, d);
    }
    assert forall d :: d in desired && Touches(f.isAddress, once.rows, d) ==> d.key.zone in again.changedZones;
    if again.changedZones == {} {
      UntouchedIsSame(f.isAddress, once.rows, once.nextId, desired);
    }
  }

  /** One leased IPv4 address, one zone over it, and the hostname the client sent, in a subnet without a domain. */
  function LeasedName(v: nat, zone: ZoneName, hostname: string): Facts {
    Facts([Net4(1, 32, v, v)], map[zone := 7], (ip: Ip) => Names("", "", NormalizeDnsName(hostname)),
          (n: nat, ip: Ip) => DynamicDhcp, (ip: Ip) => "", (s: string) => false, 1)
  }

  lemma FirstIsMostSpecific(zones: map<ZoneName, nat>, cs: seq<Candidate>)
    requires cs != [] && cs[0].zone in zones
    ensures MostSpecific(zones, cs) == Some(cs[0])
  {}

  lemma LeasedNameDesired(v: nat, hostname: string) returns (zone: ZoneName, f: Facts, d: Desired)
    requires v < MAPPED_SIZE
    ensures zone == Candidates(V4(v))[0].zone && f == LeasedName(v, zone, hostname) && ValidFacts(f)
    ensures d in DesiredOf(f, f.networks)
  {
    hide Candidates, DesiredOf, Range, MostSpecific, NormalizeDnsName;
    var first := Candidates(V4(v))[0];
    zone := first.zone;
    f := LeasedName(v, zone, hostname);
    var n := f.networks[0];
    assert first in Candidates(V4(v)) && n in f.networks && f.networks == [n];
    assert V4(v) in Walked(f, n) && [n][..0] == [];
    FirstIsMostSpecific(f.zones, Candidates(V4(v)));
    DesiredIsDeciders(f, f.networks, V4(v), first);
    d := DesiredFor(f, n.id, V4(v), first);
  }

  lemma LeasedValue(v: nat, zone: ZoneName, hostname: string, d: Desired)
    requires Placed(LeasedName(v, zone, hostname), d)
    ensures d.value == NormalizeDnsName(hostname)
  {
    hide Candidates, MostSpecific, NormalizeDnsName, ValidIp, Fold;
  }

  /** The second run over a leased name is quiet exactly when the hostname has no space before a final dot. */
  lemma LeasedNameSettlesExactly(v: nat, hostname: string)
    requires v < MAPPED_SIZE
    ensures var f := LeasedName(v, Candidates(V4(v))[0].zone, hostname);
            var once := Reconcile(f, [], 1);
            ValidFacts(f) &&
            (Reconcile(f, once.rows, once.nextId).changedZones == {} <==> !SpaceBeforeDot(hostname))
  {
    hide *;
    var zone, f, d := LeasedNameDesired(v, hostname);
    NormalIsTrimmedExactly(hostname);
    DesiredPlaces(f, f.networks);
    forall e | e in DesiredOf(f, f.networks)
      ensures Repeats(f, [], e) <==> !SpaceBeforeDot(hostname)
    {
      PlacedIn(f, DesiredOf(f, f.networks), e);
      LeasedValue(v, zone, hostname, e);
      FreshRepeats(f, e);
    }
    SecondRunChangesNothingExactly(f, [], 1);
  }

  lemma PlacedIn(f: Facts, desired: seq<Desired>, d: Desired)
    requires AllPlaced(f, desired) && d in desired
    ensures Placed(f, d)
  {}

  lemma FreshRepeats(f: Facts, d: Desired)
    ensures Repeats(f, [], d) <==> Trim(d.value) == d.value
  {}

  /** A client named "a ." has its name written again by every run, and the zone's serial raised. */
  lemma SpacedNameNeverSettles(v: nat)
    requires v < MAPPED_SIZE
    ensures var f := LeasedName(v, Candidates(V4(v))[0].zone, "a .");
            var once := Reconcile(f, [], 1);
            ValidFacts(f) && Reconcile(f, once.rows, once.nextId).changedZones != {}
  {
    hide *;
    SpaceDotEnds();
    LeasedNameSettlesExactly(v, "a .");
  }

  lemma SpaceDotEnds()
    ensures SpaceBeforeDot("a .") && NormalizeDnsName("a .") == "a "
  {
    hide Trim, Lower;
    TrimNoop("a .");
    LowerCaseStays("a ");
    assert "a ."[..2] == "a ";
  }

  lemma LowerCaseStays(s: string)
    requires forall i :: 0 <= i < |s| ==> LowerChar(s[i]) == s[i]
    ensures Lower(s) == s
  {}

  /** A zone's serial moves exactly when some name of it had no row or one to rewrite. */
  lemma ChangedZonesExactly(f: Facts, rows: seq<PtrRow>, nextId: nat, zone: nat)
    requires ValidFacts(f)
    ensures zone in Reconcile(f, rows, nextId).changedZones
       <==> exists d :: d in DesiredOf(f, f.networks) && d.key.zone == zone && Touches(f.isAddress, rows, d)
  {
    hide DesiredOf, Touches, Reconcile, Answered, RowsFollow, ValidFacts;
    ReconcileOutcome(f, rows, nextId);
  }

  // ---- The reconcile over the tables ----

  class ReverseRecords {
    var rows: seq<PtrRow>
    var nextId: nat
    var serials: map<nat, nat>

    constructor (rows: seq<PtrRow>, nextId: nat, serials: map<nat, nat>)
      ensures this.rows == rows && this.nextId == nextId && this.serials == serials
    {
      this.rows, this.nextId, this.serials := rows, nextId, serials;
    }

    method ReconcileManagedReverseDns(f: Facts)
      returns (inserted: nat, updated: nat, kept: int, skippedNetworks: seq<nat>)
      requires ValidFacts(f)
      modifies this
      ensures var result := Reconcile(f, old(rows), old(nextId));
              && rows == result.rows && nextId == result.nextId
              && inserted == result.inserted && updated == result.updated
              && kept == |DesiredOf(f, f.networks)| - inserted - updated
              && serials == Bumped(old(serials), result.changedZones)
      ensures forall id :: id in skippedNetworks <==> exists n :: n in f.networks && IsSkipped(f, n) && n.id == id
    {
      hide DesiredOf, ValidFacts, Placed, Outcome, NeedsUpdate, LastRow;
      var desired;
      desired, skippedNetworks := CollectDesired(f);
      DesiredPlaces(f, f.networks);
      var existing := IndexRows();
      var changedZones: set<nat> := {};
      inserted, updated := 0, 0;
      for i := 0 to |desired|
        invariant serials == old(serials)
        invariant Result(rows, nextId, changedZones, inserted, updated)
               == WriteAll(f.isAddress, Begin(old(rows), old(nextId)), desired[..i])
      {
        assert desired[..i + 1][..i] == desired[..i];
        var d := desired[i];
        WriteAllOutcome(f.isAddress, old(rows), old(nextId), desired[..i]);
        assert Unvisited(old(rows), rows, d.key);
        if d.key !in existing {
          rows := rows + [PtrRow(nextId, d.key, d.value, d.source, true)];
          nextId, inserted, changedZones := nextId + 1, inserted + 1, changedZones + {d.key.zone};
        } else if NeedsUpdate(f.isAddress, rows[existing[d.key]], d) {
          var row := existing[d.key];
          rows := rows[row := rows[row].(value := d.value, source := d.source, enabled := true)];
          updated, changedZones := updated + 1, changedZones + {d.key.zone};
        }
      }
      assert desired[..|desired|] == desired;
      kept := |desired| - inserted - updated;
      TouchZones(changedZones);
    }

    /** The row of each name, the last of several winning. */
    method IndexRows() returns (existing: map<PtrKey, nat>)
      ensures forall key :: (key in existing <==> LastRow(rows, key) < |rows|)
                         && (key in existing ==> existing[key] == LastRow(rows, key))
    {
      existing := map[];
      for i := 0 to |rows|
        invariant forall key :: (key in existing <==> LastRow(rows[..i], key) < i)
                             && (key in existing ==> existing[key] == LastRow(rows[..i], key))
      {
        assert rows[..i + 1][..i] == rows[..i];
        existing := existing[rows[i].key := i];
      }
      assert rows[..|rows|] == rows;
    }

    method CollectDesired(f: Facts) returns (desired: seq<Desired>, skippedNetworks: seq<nat>)
      ensures desired == DesiredOf(f, f.networks)
      ensures forall id :: id in skippedNetworks <==> exists n :: n in f.networks && IsSkipped(f, n) && n.id == id
    {
      hide Consider, IsSkipped, Walked;
      desired, skippedNetworks := [], [];
      for i := 0 to |f.networks|
        invariant desired == DesiredOf(f, f.networks[..i])
        invariant forall id :: id in skippedNetworks <==>
                    exists n :: n in f.networks[..i] && IsSkipped(f, n) && n.id == id
      {
        var n := f.networks[i];
        assert f.networks[..i + 1] == f.networks[..i] + [n] && f.networks[..i + 1][..i] == f.networks[..i];
        if IsSkipped(f, n) {
          skippedNetworks := skippedNetworks + [n.id];
        }
        desired := ConsiderNetwork(f, desired, n);
      }
      assert f.networks[..|f.networks|] == f.networks;
    }

    method ConsiderNetwork(f: Facts, before: seq<Desired>, n: Network) returns (desired: seq<Desired>)
      ensures desired == ConsiderAll(f, before, n.id, Walked(f, n))
    {
      hide Consider, Walked;
      desired := before;
      var ips := Walked(f, n);
      for j := 0 to |ips|
        invariant desired == ConsiderAll(f, before, n.id, ips[..j])
      {
        assert ips[..j + 1][..j] == ips[..j];
        desired := Consider(f, desired, n.id, ips[j]);
      }
      assert ips[..|ips|] == ips;
    }

    /** Raises the serial of each changed zone once. */
    method TouchZones(changedZones: set<nat>)
      modifies this`serials
      ensures serials == Bumped(old(serials), changedZones)
    {
      var zones := changedZones;
      ghost var touched: set<nat> := {};
      while zones != {}
        invariant touched !! zones && touched + zones == changedZones
        invariant serials == Bumped(old(serials), touched)
        decreases zones
      {
        var z :| z in zones;
        if z in serials {
          serials := serials[z := serials[z] + 1];
        }
        touched, zones := touched + {z}, zones - {z};
      }
    }
  }
}
