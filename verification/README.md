# CIDRella: a Dafny model of its stateful projections

CIDRella is an IP address manager: it learns DHCP leases, names them in DNS, keeps reverse zones, upgrades
its own database and reports what the network does. This project models the parts of it that turn one set of
tables into another, and proves what those parts keep over every input and every run.

Where the program changes state in place, the model does too: a class holds the table, its methods carry the
program's loops, and each method is proved equal to a function of the old state. The properties are then lemmas
about those functions, and about runs of them.

- `DnsNames`, `AddressText`, `Addresses`, `Texts`, `Digits`: record names under the zone-file rule, and address
  text to number and back (with the `::` compression of RFC 5952).
- `DhcpLeaseNames`, `DhcpLeaseSearch`, `DhcpNameOrder`, `DhcpLeaseRetention`, `DhcpDnsSync`, `DhcpRounds`,
  `DhcpStickiness`, `DhcpLeaseStore` (over `DhcpTables`): lease naming, lease storage and the DNS records made of
  them, one report at a time and over runs of reports, applies and operator edits. `DhcpCounterexamples` holds the
  concrete reports that are not handled as one would wish.
- `IpLifecycleFacts`, `IpLifecycleInventory`, `IpLifecycleReconcile`, `InitDb`: the legacy upgrade, from the
  conflict inventory through the reconcile to the crash-and-restart protocol around them.
- `ReversePtr`, `ReverseReconcile`: PTR names, and the projection of allocated addresses into reverse zones.
- `ScopeOptions`: what a DHCP scope serves, and which submitted options are stored.
- `ReleaseManifest`: the release lint, the upgrade chains it makes possible and the walk that picks one.
- `Base32`, `GeoipAllowlist`, `ImportRecords`, `CommentMask`: loops whose state is an accumulator, a table under a
  UNIQUE column, two indexes, and a lexer state.
- `DeviceClassifier`, `DeviceFingerprint`, `ConfigurationGeneration`, `DashboardReads`: a classifier over its rule
  set, the merge and change log it feeds, and two small concurrent protocols as interleaved steps.

`dafny verify dfyconfig.toml` checks the whole project.

## Where a promise needs a condition

Some properties the program is written for fail on inputs it accepts. Each is listed with the lemma that shows a
failing input or run, and with the condition under which it holds, exact in both directions.

- A record name whose zone suffix is doubled (`a.corp.corp` in `corp`) loses one copy at each normalisation.
  Two addresses can then end with one name (`UnstableNameBreaksUniqueness`); the names are unique exactly when
  the names kept from the records are (`NamesUniqueExactly`).
- The report path syncs DNS from the reported leases, the apply path from all stored ones, lapsed leases
  included. A client that took its old name back on a new address gets both addresses under it at the next
  apply (`TakeBackUndone`, an instance of `ApplyUndoesTakeBack`); uniqueness holds exactly when the stored names
  are unique (`ApplyKeepsUniqueExactly`).
- A report that repeats itself can rename a lease. One whose address is reserved under another name finds its
  first name taken by the record of a second reservation (`ReservedLeaseRenamed`), and an address with a row in
  another subnet takes that row's spelling (`OtherSubnetRespells`). All names stay exactly when every unreserved
  spelling leads back to itself and every reserved or unserved lease has the name of the record it kept, or kept none
  and has the first option that clashes with nothing (`SecondNamesExactly`).
- Skipping options the network already gives can change what is served when the scope has values in its legacy
  columns (`SkipUncoversColumn4`, `SkipUncoversColumn6`; exactly when: `SkipKeepsServed4`, `SkipKeepsServed6`).
- The reverse reconcile writes a leased name again on every run when the client sent a space before a final dot, as
  in `a .` (`SpacedNameNeverSettles`; exactly when: `LeasedNameSettlesExactly`, and for all names
  `SecondRunChangesNothingExactly`).
- The client's zone test says that a zone over an IPv4-mapped network contains an IPv4 address, while the server
  never looks for it there (`MappedZoneIsNoCandidate`); the two agree on a zone exactly when its network is not
  IPv4-mapped (`ContainmentAgreesExactly`).
- A batch that gives one name and type two values is not quiet when imported again (`TwoValuesNeverQuiet`; over
  zones with one row a name and type, exactly when: `ReimportIsQuietExactly`).
- In a Python file the comment mask starts at a `#` inside a string (`PythonStringsNotKept`); exactly the characters
  from the first `#` of a line on are blanked (`PythonBlanksFromHash`).
- A DHCP capture that tells a type but no OS still raises the confidence and then keeps a better OS out: a client seen
  as Linux at 45, then as a printer at 65, stays Linux when its options say Apple iOS at 60 (`MissingOsShields`, an
  instance of `MissingFieldShields`). The comment in the source says the strongest classification is kept: it is
  exactly when it came first or no capture before it, with or without the field, was more confident
  (`StrongestKeptExactly`). For the type that always holds, as every rule names one (`OwnTypeIsStrongest`).
- The drift log is meant as a chain of values. The program's own captures never break it (`OwnCapturesKeepChain`). An
  override to a third value does, and so does clearing an override, but not an override to the last logged value
  (`OperatorBreaksChain`); over a run of captures, overrides and clears it holds throughout exactly when no action
  leaves a logged value behind (`RunChainsExactly`).
- A start after the upgrade was interrupted skips the reconcile when the report file is gone
  (`RemovedReportSkipsReconcile`); initDb returns reconciled exactly when nobody removed the report while the
  reconcile was owed (`ReturnsOnlyReconciled`).
- With two workers a late report of an older generation reopens a row that was done (`LateReportReopens`); a
  report leaves the row done exactly when nothing was asked for since the worker read its generation
  (`ReportSettlesExactly`), and the single-flight queue excludes the rest (`RestMeansDone`).
- A range change while a dashboard refresh is out drops what the refresh read of the state panels
  (`RangeChangeDropsRefresh`); a round is shown exactly when no other was launched meanwhile (`ShownExactly`).

## Model

| member | source | states |
|---|---|---|
| DnsNames.DotFreeIsStable | server/src/utils/dns-names.js:29-39 | a single-label record name is left alone by a second normalisation, in any zone |
| DnsNames.DoubledZoneIsNotStable | server/src/utils/dns-names.js:29-39 | a family of names that normalisation changes again: a doubled zone suffix |
| DnsNames.SuffixedNamesDistinct | server/src/models/dhcp-lease.js:191-196 | for any base name and zone, two different suffixes of -00 to -FF give two different record names |
| DnsNames.HostSuffixNormal | server/src/utils/dns-names.js:29-39 | a host label with a suffix normalises to the label in lower case with the suffix in lower case |
| DnsNames.NormalIsTrimmedExactly | server/src/utils/dns-names.js:9-15 | a normalised name has no space around it if and only if the name has none before a final dot |
| AddressText.FormatReads | server/src/utils/address.js:130-161 | parsing what formatIp printed gives the address back, for every IPv4 and IPv6 number; lenient parsing folds exactly the IPv4-mapped range |
| AddressText.GapReads | server/src/utils/address.js:56-108 | an address printed with its longest run of zero groups replaced by :: reads back as its eight groups |
| AddressText.ReadValid | server/src/utils/address.js:130-161 | what parseIp returns fits its family, and nothing IPv4-mapped comes out of lenient parsing |
| AddressText.CanonicalizeTwice | server/src/utils/address.js:227-231 | the canonical spelling of any text is its own canonical spelling |
| AddressText.SameSpellingExactly | server/src/utils/address.js:227-231 | two texts have one canonical spelling if and only if they are one address |
| AddressText.CidrReads | server/src/utils/cidr-match.js:28-58 | printing a network with its prefix and parsing it again gives the same network |
| AddressText.CanonicalKeepsNetwork | server/src/utils/cidr-match.js:61-64 | the canonical form of an allowlist value reads as the same network |
| AddressText.SameNetworkExactly | server/src/utils/cidr-match.js:61-64 | two allowlist values have one canonical form if and only if they are one network |
| AddressText.BestFrom | server/src/utils/address.js:202-216 | the gap is the longest run of zero groups, the leftmost of equally long ones |
| AddressText.FindGap | server/src/utils/address.js:202-216 | the scanning loop finds that gap |
| AddressText.FormatAddress | server/src/utils/address.js:187-224 | the shift loops print the octets or hextets of the number |
| DhcpLeaseStore.LeaseStore.AssignLeaseNames | server/src/models/dhcp-lease.js:214-335 | the two loops, writing into the batch in place, give each lease the name of the specification |
| DhcpLeaseStore.LeaseStore.KeepHeldNames | server/src/models/dhcp-lease.js:273-314 | the first loop: which names are kept, which leases wait, which claims are made |
| DhcpLeaseStore.LeaseStore.NamePending | server/src/models/dhcp-lease.js:316-333 | the second loop: each waiting lease takes its first free option given all claims before it |
| DhcpLeaseNames.NamesUniqueExactly | server/src/models/dhcp-lease.js:214-335 | no two addresses of a zone get one name and type if and only if the names kept from the records are unique |
| DhcpLeaseNames.HeldClaimsUnique | server/src/models/dhcp-lease.js:282-305 | when the dhcp records have unique, stable names, the kept names are unique |
| DhcpLeaseNames.SettleAllUnique | server/src/models/dhcp-lease.js:316-333 | the suffix search never claims a name another address has claimed |
| DhcpLeaseNames.KeptClaim | server/src/models/dhcp-lease.js:282-305 | a kept lease claims exactly the name its record has |
| DhcpLeaseNames.UnstableNameBreaksUniqueness | server/src/models/dhcp-lease.js:282-305 | two leases that end with one name because a record holds a doubled zone suffix |
| DhcpLeaseNames.UnnamedExactly | server/src/models/dhcp-lease.js:322-332 | a client with a candidate goes unnamed if and only if the candidate and all 256 suffixes clash |
| DhcpLeaseNames.AlwaysNamed | server/src/models/dhcp-lease.js:322-332 | with fewer than 256 taken names in the zone every client with a candidate gets one, and it clashes with nobody |
| DhcpLeaseSearch.NamedExactly | server/src/models/dhcp-lease.js:316-333 | the batch gets these names if and only if each of them is the kept name, or the first free one beside the kept names and those of the waiting addresses before it |
| DhcpLeaseSearch.NamedBeside | server/src/models/dhcp-lease.js:316-333 | the names a batch gets are such a solution |
| DhcpLeaseSearch.UnnamedInBatchExactly | server/src/models/dhcp-lease.js:322-332 | a waiting lease of the batch ends without a name if and only if its candidate and all 256 suffixes clash with what came before it |
| DhcpLeaseSearch.AlwaysNamedInBatch | server/src/models/dhcp-lease.js:322-332 | when the record names of a zone and the leases are together at most 256, every lease with a candidate is named |
| DhcpNameOrder.NamesIgnoreReportOrder | server/src/models/dhcp-lease.js:316-333 | the names do not depend on the order in which the leases were reported |
| DhcpNameOrder.SortedSame | server/src/models/dhcp-lease.js:316 | sorting the waiting leases by address leaves one order only |
| DhcpLeaseStore.LeaseStore.ReplaceLeases | server/src/models/dhcp-lease.js:10-110 | the table after the delete, the inserts and the retained rows |
| DhcpLeaseRetention.OneRowPerKey | server/src/models/dhcp-lease.js:10-110 | no subnet and address has two rows after a report without duplicates, whatever was stored |
| DhcpLeaseRetention.VanishedOnce | server/src/models/dhcp-lease.js:78-96 | an address left out keeps its row as expired unless reserved or past the window |
| DhcpLeaseRetention.VanishedLease | server/src/models/dhcp-lease.js:71-96 | over a run of reports with a nondecreasing clock: the stored expiry is frozen at the first report that missed the lease, and the row is there exactly until that expiry is more than the window ago |
| DhcpLeaseStore.LeaseStore.SyncDhcpDnsRecords | server/src/models/dhcp-lease.js:345-501 | the entry loop and the sweep leave the records, ids and change flag of the specification |
| DhcpLeaseStore.LeaseStore.AnswerEntry | server/src/models/dhcp-lease.js:433-460 | one entry: takes over its generated row, leaves an operator row, or inserts |
| DhcpLeaseStore.LeaseStore.FindRecord | server/src/models/dhcp-lease.js:387-389 | the first row of a zone, name, type and address |
| DhcpLeaseStore.LeaseStore.SweepStale | server/src/models/dhcp-lease.js:463-496 | deletes the generated rows that nothing answers, and says whether it deleted any |
| DhcpDnsSync.LeftRow | server/src/models/dhcp-lease.js:415-496 | a dhcp row left by the sync answers a lease, or was there before under a name no entry answers |
| DhcpDnsSync.SyncKeepsUnique | server/src/models/dhcp-lease.js:415-496 | the sync never gives a dhcp name and type a second address |
| DhcpDnsSync.TargetRow | server/src/models/dhcp-lease.js:415-461 | an entry with no operator record in its place ends with an active row of its source |
| DhcpDnsSync.ExactlyOneRecord | server/src/models/dhcp-lease.js:415-496 | an entry of a leased address ends with exactly one generated record at that address in the zone |
| DhcpDnsSync.SyncUniqueExactly | server/src/models/dhcp-lease.js:415-496 | without operator records in the way the dhcp names stay unique if and only if the entries ask for unique names |
| DhcpDnsSync.SyncIsIdempotent | server/src/models/dhcp-lease.js:345-501 | the same entries again change no record, no id and queue no regeneration |
| DhcpLeaseStore.LeaseStore.IngestLeases | server/src/services/dhcp-lease-sync.js:56-61 | one report: named, stored and synced, as one step of a run |
| DhcpRounds.IngestKeepsTables | server/src/services/dhcp-lease-sync.js:56-61 | a report keeps the record ids, the uniqueness of dhcp names and their stability |
| DhcpRounds.RunKeepsNamesUnique | server/src/models/dhcp-lease.js:345-501 | over every run of reports, applies of uniquely named stored leases and operator edits, no zone ever answers one dhcp name and type with two addresses |
| DhcpRounds.ApplyKeepsTables | server/src/services/backend-apply.js:41-49 | an apply over stored leases with unique, stable names keeps the record ids, the uniqueness of dhcp names and their stability |
| DhcpRounds.BatchTargetsUnique | server/src/models/dhcp-lease.js:214-335 | the names one report hands out ask DNS for unique names |
| DhcpRounds.NamedLeaseHasItsRecord | server/src/models/dhcp-lease.js:345-501 | after a report each named, unreserved lease has exactly one generated record, its own |
| DhcpRounds.ApplyKeepsUniqueExactly | server/src/services/backend-apply.js:41-49 | an apply over the stored leases keeps names unique if and only if the stored leases ask for unique names |
| DhcpRounds.ApplyUndoesTakeBack | server/src/services/backend-apply.js:41-49 | a name taken back on a new address is answered with both addresses after an apply within the retention window |
| DhcpCounterexamples.TakeBackUndone | server/src/services/backend-apply.js:41-49 | a concrete such client: one address under the name after the report, two after the apply |
| DhcpStickiness.RepeatedReportChangesNothing | server/src/models/dhcp-lease.js:282-335 | naming, storing and syncing the same report again changes no record and no id; an unreserved lease keeps its hostname letter by letter if and only if its spelling leads back to itself |
| DhcpStickiness.SecondNamesExactly | server/src/models/dhcp-lease.js:282-335 | the same report again leaves every hostname as it was if and only if every unreserved spelling stays, and each reserved or unserved lease has the name of the record it kept, or kept none and has the first option clashing with no record and no claim ahead of it |
| DhcpLeaseNames.ChoosesExactly | server/src/models/dhcp-lease.js:322-332 | a candidate gets a name if and only if it is the first option that clashes with no record and no claim, and none if and only if all clash |
| DhcpStickiness.OneSubnetKeepsSpelling | server/src/models/dhcp-lease.js:222-305 | with one subnet an address every spelling stays |
| DhcpStickiness.RoomForAll | server/src/models/dhcp-lease.js:322-332 | with at most 256 record names and leases in a zone nobody who asks is left without a name |
| DhcpCounterexamples.ReservedLeaseRenamed | server/src/models/dhcp-lease.js:282-335 | a lease on a reserved address that the second identical report renames |
| DhcpCounterexamples.OtherSubnetRespells | server/src/models/dhcp-lease.js:222-305 | a lease that the second identical report respells after the row of another subnet |
| DhcpStickiness.NamedAgain | server/src/models/dhcp-lease.js:282-305 | an unreserved lease that ended with a name keeps it when reported again, its spelling if and only if it leads back to itself |
| DhcpStickiness.UnnamedAgain | server/src/models/dhcp-lease.js:306-320 | a lease with nothing to be named by that ended without a name holds no record and gets no name when reported again |
| IpLifecycleFacts.BestSubnet | server/src/db/ip-lifecycle-upgrade.js:52-58 | the first of the longest-prefix subnets that hold the address |
| IpLifecycleFacts.LocateDns | server/src/db/ip-lifecycle-upgrade.js:107-211 | every address record some allocated subnet holds and no other, each in its best subnet |
| IpLifecycleInventory.InventoryLegacyIpLifecycle | server/src/db/ip-lifecycle-upgrade.js:238-674 | the loops produce exactly the blocking issues and the number of addresses claimed twice |
| IpLifecycleInventory.ContestedIsReported | server/src/db/ip-lifecycle-upgrade.js:264-433 | every address with two claim kinds is reported as a claim conflict |
| IpLifecycleInventory.ContestedExactly | server/src/db/ip-lifecycle-upgrade.js:264-433 | for an address with at most one stored row: two claim kinds if and only if a claim conflict is reported |
| IpLifecycleInventory.NoConflictOneClaim | server/src/db/ip-lifecycle-upgrade.js:521-548 | no blocking conflict means no address with more than one claim kind |
| IpLifecycleReconcile.OrderDoesNotMatter | server/src/db/ip-lifecycle-upgrade.js:696-736 | after a conflict-free inventory the three orders that test a reservation before its lease allocate the same, also when leases ran out in between |
| IpLifecycleReconcile.AllocatedByItsClaim | server/src/db/ip-lifecycle-upgrade.js:696-736 | each claimed address is allocated the state of its one claim |
| IpLifecycleReconcile.IpTable.WriteMigratedIpLifecycleRows | server/src/db/ip-identity.js:64-133 | the upsert loop writes each row in turn and counts inserts, updates and states |
| IpLifecycleReconcile.IpTable.ReconcileMigratedIpLifecycle | server/src/db/ip-lifecycle-upgrade.js:676-738 | every stored, claimed or topology address is written once, in some order, with its allocation |
| IpLifecycleReconcile.WritesCarried | server/src/db/ip-identity.js:64-133 | after the transaction the row of each written address carries its allocation |
| IpLifecycleReconcile.ReconcileIsIdempotent | server/src/db/ip-lifecycle-upgrade.js:676-738 | a reconcile repeated over the same facts after it committed changes nothing, whatever order it takes |
| IpLifecycleReconcile.ReconciledByClaim | server/src/db/ip-lifecycle-upgrade.js:676-738 | after a conflict-free inventory the stored row of each claimed address has the state of its one claim |
| InitDb.RunKeepsInv | server/src/db/init.js:65-146 | the protocol invariant holds after any sequence of steps, crashes, restarts, edits, and damaged or removed reports |
| InitDb.ReturnsOnlyReconciled | server/src/db/init.js:74-146 | initDb returns on a legacy install only when every migration is applied, and reconciled if and only if no step removed the report while the reconcile was owed; until then an owed reconcile has a report that makes the next start retry or refuse |
| InitDb.RemovedReportSkipsReconcile | server/src/db/init.js:100-121 | a run whose second start finds no report and returns unreconciled |
| InitDb.ConflictRunsNoMigration | server/src/db/init.js:83-98 | a start whose inventory found a conflict has run no migration |
| InitDb.MigrationsFinish | server/src/db/init.js:171-286 | the migration loop ends with none missing |
| InitDb.UninterruptedStartReturns | server/src/db/init.js:65-146 | a start that is not interrupted, with no conflict, a readable report and no newer schema, returns, and reconciled if and only if the report was not lost before |
| ReversePtr.ReversePtrCandidates | server/src/models/dns-record.js:307-327 | the push loop gives the splits, most specific first |
| ReversePtr.PtrRoundTrip | server/src/models/dns-record.js:307-350 | every candidate of every address names that address |
| ReversePtr.CandidatesExactly | server/src/models/dns-record.js:307-350 | a zone and name are a candidate of an address if and only if they read back as it and split it at a label |
| ReversePtr.PtrNamesDistinct | server/src/models/dns-record.js:307-350 | no PTR name belongs to two addresses |
| ReversePtr.PtrRecordAddress | client/src/utils/reverseZone.js:35-48 | the client groups nibbles into hextets and spells the same address |
| ReversePtr.ClientFoldsServer | client/src/utils/reverseZone.js:35-48 | the client reads what the server reads, folded out of the IPv4-mapped range |
| ReversePtr.ClientAgreesExactly | client/src/utils/reverseZone.js:35-48 | client and server read a name alike if and only if it names no IPv4-mapped address |
| ReversePtr.HextetsValue | client/src/utils/reverseZone.js:45-46 | grouping nibbles by four keeps the number |
| ReversePtr.ContainsIsLeading | client/src/utils/reverseZone.js:84-96 | comparing prefixes of sort keys is comparing leading labels |
| ReversePtr.ContainsExactlyCandidates | client/src/utils/reverseZone.js:84-96 | the client places an address in a zone if and only if the zone is one of its candidates on the server |
| ReversePtr.ContainmentAgreesExactly | client/src/utils/reverseZone.js:84-96 | client and server place every address alike in a zone if and only if its network is not IPv4-mapped |
| ReversePtr.MappedZoneIsNoCandidate | client/src/utils/reverseZone.js:84-96 | a zone over any IPv4-mapped network contains an address whose PTR the server never looks for there |
| ReversePtr.MappedBlockContainsIpv4 | client/src/utils/reverseZone.js:84-96 | the zone of the whole IPv4-mapped range contains every IPv4 address and is a candidate of none |
| ReverseReconcile.ReverseRecords.ReconcileManagedReverseDns | server/src/models/dns-record.js:475-708 | the index, the walk over the networks and the writes leave the rows and changed zones of the specification, and raise each changed serial once |
| ReverseReconcile.ReverseRecords.CollectDesired | server/src/models/dns-record.js:591-645 | the desired row of each covered address, the first network to reach a name deciding it |
| ReverseReconcile.ReverseRecords.ConsiderNetwork | server/src/models/dns-record.js:594-645 | the addresses of one network, an IPv4 network over the limit skipped |
| ReverseReconcile.ReverseRecords.TouchZones | server/src/models/dns-record.js:701 | each changed zone has its serial raised exactly once |
| ReverseReconcile.WalkedAddressHasPtr | server/src/models/dns-record.js:594-708 | every address of either family that a managed network walks and a managed zone covers has a row in its most specific zone saying the name and source the first network to walk it allocates, or the address text, unless an override stands there unchanged |
| ReverseReconcile.EveryCoveredAddressHasPtr | server/src/models/dns-record.js:594-708 | that holds of every usable address of a managed IPv4 subnet within the limit; with the networks ordered by prefix the deciding network is at least as specific |
| ReverseReconcile.DeciderIsMostSpecific | server/src/models/dns-record.js:594-645 | with the networks ordered by prefix no network that walks the address is more specific than the deciding one |
| ReverseReconcile.MostSpecificIsLongest | server/src/models/dns-record.js:307-327 | of the managed zones that contain an address the one chosen for its PTR has the most labels, and no other has as many |
| ReverseReconcile.OverrideUntouched | server/src/models/dns-record.js:680-700 | a row that is neither generated, nor a placeholder, nor already right is not changed |
| ReverseReconcile.SecondRunChangesNothingExactly | server/src/models/dns-record.js:475-708 | a second run changes nothing, serials included, if and only if each desired value without an override is trimmed |
| ReverseReconcile.LeasedNameSettlesExactly | server/src/models/dns-record.js:511-577 | over a leased IPv4 address in a subnet without a domain the second run is quiet if and only if the hostname has no space before a final dot |
| ReverseReconcile.SpacedNameNeverSettles | server/src/models/dns-record.js:511-708 | a leased client that calls itself "a ." has its PTR written again by the second run |
| ReverseReconcile.ChangedZonesExactly | server/src/models/dns-record.js:676-708 | a zone is changed if and only if one of its desired names had no row or one to rewrite |
| ScopeOptions.ScopeOptionTable.SaveScopeOptions | server/src/models/dhcp-scope.js:383-406 | stores the rows of the submission that are neither blank nor redundant, or refuses a lease time option and leaves the stored rows as they were |
| ScopeOptions.ScopeOptionTable.ResolveEffectiveScopeOptions | server/src/models/dhcp-scope.js:283-381 | the layers set and deleted in turn give what is served |
| ScopeOptions.Served4 | server/src/models/dhcp-scope.js:283-381 | what each IPv4 code is served as, in closed form over the submission |
| ScopeOptions.Served6 | server/src/models/dhcp-scope.js:283-381 | what each IPv6 code is served as, in closed form over the submission |
| ScopeOptions.SkipKeepsServed4 | server/src/models/dhcp-scope.js:383-406 | IPv4: skipping redundant values serves the same if and only if the submission has no values, keeps one, or its legacy columns say what defaults and network give |
| ScopeOptions.SkipUncoversColumn4 | server/src/models/dhcp-scope.js:383-406 | for any scope with a domain of its own in the old columns: the network domain, submitted and skipped, is replaced by that column, and the two other columns come back with it |
| ScopeOptions.SkipKeepsServed6 | server/src/models/dhcp-scope.js:383-406 | IPv6: skipping redundant values serves the same if and only if no legacy search list is uncovered |
| ScopeOptions.SkipUncoversColumn6 | server/src/models/dhcp-scope.js:383-406 | for any IPv6 scope with an old search list: the network domain, submitted and skipped, is replaced by it |
| ScopeOptions.SkipKeepsServed | server/src/models/dhcp-scope.js:383-406 | with no legacy columns, the values served are the same in both families whether or not redundant values are stored |
| ReleaseManifest.Lint | scripts/build-releases-manifest.js:273-376 | the loops report no issue if and only if no release breaks a rule and the notes parsed |
| ReleaseManifest.EveryReleaseReachable | scripts/build-releases-manifest.js:305-360 | after a clean lint a finite chain of single jumps through the manifest reaches each release from every older version |
| ReleaseManifest.MinFromIsOffered | scripts/build-releases-manifest.js:305-326 | the release another one needs first is a later entry of the same manifest |
| ReleaseManifest.StrictlyDescending | scripts/build-releases-manifest.js:328-337 | a clean manifest is in strictly descending order |
| ReleaseManifest.ComputeBestTarget | server/src/utils/releases-manifest.js:215-262 | the bounded, guarded walk visits what the unbounded greedy one does, and its target is where that ends |
| ReleaseManifest.HighestIsHighest | server/src/utils/releases-manifest.js:232-238 | the release a step of the walk takes is the highest one a single jump reaches |
| ReleaseManifest.GreedyReachesNewest | server/src/utils/releases-manifest.js:202-250 | over a manifest that passed the lint the walk from any older version ends at the newest release |
| Base32.Base32Encode | server/src/auth/totp.js:14-28 | the loop with its wrapping accumulator emits the five-bit groups of the bytes, zero padded |
| Base32.EmitDigits | server/src/auth/totp.js:21-24 | the inner loop takes whole digits off the top of at most 12 live bits |
| Base32.Base32Decode | server/src/auth/totp.js:30-46 | the loop with its wrapping accumulator emits the whole bytes the digits spell |
| Base32.Wrapped | server/src/auth/totp.js:14-46 | the bits lost at the 32-bit wrap are never among the live ones |
| Base32.DecodeUndoesEncode | server/src/auth/totp.js:14-46 | whatever decodes an encoding of a byte sequence is that sequence |
| Base32.EncodingUnique | server/src/auth/totp.js:14-28 | a byte sequence has one encoding |
| Base32.RetypesExactly | server/src/auth/totp.js:30-34 | two texts clean to the same digits if and only if one is the other retyped: letters in either case, other characters put in or left out |
| Base32.SecretRoundTrip | server/src/auth/totp.js:14-46 | encoding bytes, retyping the text with other case, spaces or dashes and decoding gives the bytes back |
| GeoipAllowlist.Allowlist.CanonicalizeExisting | server/src/models/geoip-ip-allowlist.js:17-46 | the two passes leave the healed table and keep UNIQUE(value) at every write |
| GeoipAllowlist.Allowlist.Rewrite | server/src/models/geoip-ip-allowlist.js:31-45 | a rewrite is only made when no other row holds the value |
| GeoipAllowlist.HealedExactly | server/src/models/geoip-ip-allowlist.js:17-46 | the rows left are exactly the unparseable ones unchanged and, for each network present, its oldest row in canonical form with the first reason given |
| GeoipAllowlist.HealedUnique | server/src/models/geoip-ip-allowlist.js:17-46 | no two rows are left for one network or one value |
| GeoipAllowlist.HealedTwice | server/src/models/geoip-ip-allowlist.js:17-46 | a second pass changes nothing |
| GeoipAllowlist.AllowlistIsCanon | server/src/models/geoip-ip-allowlist.js:24 | the allowlist's canonicaliser is idempotent, which the pass relies on |
| ImportRecords.ZoneRecords.ImportRecords | server/src/models/dns-record.js:938-1017 | for entries without the separator, over any rows, the batch leaves the rows, counters and reverse syncs of the specification; for any input the counters account for every entry, the serial rises once exactly when an entry was written, and otherwise nothing changes |
| ImportRecords.ZoneRecords.ImportOne | server/src/models/dns-record.js:964-1006 | one record keeps both indexes in step with the rows |
| ImportRecords.ZoneRecords.BuildIndexes | server/src/models/dns-record.js:940-947 | one scan of any table gives indexes that are right about every record without the separator |
| ImportRecords.KeyIsItsRecord | server/src/models/dns-record.js:974-980 | a row shares the joined key of a record without the separator if and only if it is that record, whatever the row holds |
| ImportRecords.IndexedUpdate | server/src/models/dns-record.js:985-992 | rewriting the youngest row of a name keeps both indexes those of the table |
| ImportRecords.CountersAccount | server/src/models/dns-record.js:956-1007 | created, updated, skipped and failed of a type add up to its entries |
| ImportRecords.ElsewhereUntouched | server/src/models/dns-record.js:964-1007 | rows of names and types not in the batch are neither changed nor invented |
| ImportRecords.ChangedRowsSynced | server/src/models/dns-record.js:1001-1003 | each address row that is new or changed is handed on with its final value |
| ImportRecords.UnwrittenKeepsTable | server/src/models/dns-record.js:964-1011 | without a created or updated entry the table stays and nothing is handed on; a created one leaves more rows |
| ImportRecords.WroteExactly | server/src/models/dns-record.js:956-1000 | the counters show a created or updated entry if and only if one was written |
| ImportRecords.SkippedExactly | server/src/models/dns-record.js:974-978 | a batch is skipped whole if and only if the table holds all of it |
| ImportRecords.ReimportIsQuiet | server/src/models/dns-record.js:938-1017 | importing a fully written batch again is skipped whole when no two entries give one name and type two values |
| ImportRecords.ReimportIsQuietExactly | server/src/models/dns-record.js:938-1017 | over a zone with one row a name and type, that condition is exact |
| ImportRecords.TwoValuesNeverQuiet | server/src/models/dns-record.js:974-1000 | two values for one name: every repetition of the batch writes both again |
| CommentMask.MaskComments | scripts/check-db-ownership.js:296-379 | the lexer loop, or the line loop for a Python file, computes the mask |
| CommentMask.MaskScript | scripts/check-db-ownership.js:307-378 | the four-state loop computes the mask of the specification |
| CommentMask.MaskShows | scripts/check-db-ownership.js:307-378 | for every way of cutting a text into its lexemes, the mask is the lexemes with the comments blanked and nothing else |
| CommentMask.EveryTextHasLexemes | scripts/check-db-ownership.js:307-378 | every text has such lexemes, unterminated ones included |
| CommentMask.MaskKeepsPositions | scripts/check-db-ownership.js:307-378 | same length, and each character is kept or blanked, newlines kept |
| CommentMask.MaskIsIdempotent | scripts/check-db-ownership.js:307-378 | masking a mask changes nothing |
| CommentMask.PythonBlanksFromHash | scripts/check-db-ownership.js:297-305 | in a Python file a character is blanked if and only if a hash stands at or before it on its line |
| CommentMask.PythonStringsNotKept | scripts/check-db-ownership.js:297-305 | a string with a hash in it loses its contents in a Python file |
| CommentMask.MaskedKeeps | scripts/check-db-ownership.js:296-379 | newlines are kept and the mask is idempotent for either kind of file |
| CommentMask.MatchLineIsOriginalLine | scripts/check-db-ownership.js:292-294 | an index in the masked text has the line number it has in the original |
| DeviceClassifier.ClassifySignals | server/src/utils/device-classifier.js:89-111 | the loop over the candidates and the agreement boost compute the classification |
| DeviceClassifier.BestIsFirstStrongest | server/src/utils/device-classifier.js:89-102 | the type and the OS are each those of the first of the most confident candidates that say one |
| DeviceClassifier.RulesNameAType | server/src/data/device-fingerprints.js:9-50 | every rule of the set names a type, and none an empty OS |
| DeviceClassifier.TypelessIsZero | server/src/utils/device-classifier.js:89-111 | from the rule set no classification is empty, and one without a type has no OS and confidence 0 |
| DeviceFingerprint.FingerprintTable.UpsertFingerprint | server/src/models/device-fingerprint.js:31-91 | the upsert and its drift log |
| DeviceFingerprint.FingerprintTable.LogDrift | server/src/models/device-fingerprint.js:12-25 | one entry for each field that changed between two known values |
| DeviceFingerprint.FingerprintTable.SetManual | server/src/models/device-fingerprint.js:154-169 | the override replaces type and OS, and logs nothing |
| DeviceFingerprint.FingerprintTable.ClearManual | server/src/models/device-fingerprint.js:147-151 | the row goes only when it is an override |
| DeviceFingerprint.ManualIsSticky | server/src/models/device-fingerprint.js:51-69 | no run of captures changes type, OS, confidence or source of an override |
| DeviceFingerprint.CapturesOnlyStrengthen | server/src/models/device-fingerprint.js:42-70 | over captures confidence never falls and a stored column never becomes NULL |
| DeviceFingerprint.CaptureStoredExactly | server/src/models/device-fingerprint.js:51-68 | for a device first seen in these captures: a classified capture is stored exactly when it is the first or none before it was more confident, otherwise the stored value stays |
| DeviceFingerprint.StoredIsLastWinner | server/src/models/device-fingerprint.js:51-68 | what is stored is the value of the last capture that was, and nothing when none carried one |
| DeviceFingerprint.StrongestKeptExactly | server/src/models/device-fingerprint.js:51-68 | the strongest classification is stored if and only if it came first or no capture before it was more confident |
| DeviceFingerprint.StrongestWins | server/src/models/device-fingerprint.js:51-68 | when each capture carries a classification, the last of the most confident ones is stored |
| DeviceFingerprint.OwnTypeIsStrongest | server/src/models/device-fingerprint.js:51-68 | for a device the program first sees in these captures the strongest type is what is stored |
| DeviceFingerprint.MissingFieldShields | server/src/models/device-fingerprint.js:51-68 | a capture without a type or OS keeps out a later one more confident than the stored one, for either field |
| DeviceFingerprint.MissingOsShields | server/src/utils/dhcp-fingerprint.js:26-51 | three exchanges of one client: the OS classified at 60 is kept out for the one at 45 by a printer at 65 |
| DeviceFingerprint.PersistedIsOwn | server/src/utils/dhcp-fingerprint.js:26-51 | what the watcher hands to the upsert has no empty field, and no confidence without a type |
| DeviceFingerprint.CaptureChainsExactly | server/src/models/device-fingerprint.js:12-25 | a capture keeps a field's drift chain if and only if it does not empty a logged value |
| DeviceFingerprint.StepChainsExactly | server/src/models/device-fingerprint.js:12-169 | a capture, override or clear keeps the chain if and only if it does not leave the last logged value behind |
| DeviceFingerprint.RunChainsExactly | server/src/models/device-fingerprint.js:12-169 | over any run of captures, overrides and clears the chain holds at every point if and only if no action does that |
| DeviceFingerprint.OwnCapturesKeepChain | server/src/models/device-fingerprint.js:12-91 | no run of captures the program makes breaks the chain of any field |
| DeviceFingerprint.OperatorBreaksChain | server/src/models/device-fingerprint.js:147-169 | a chain broken by an override to a third type and by clearing an override, and kept by an override to the logged type |
| DeviceFingerprint.OverrideOutlastsCaptures | server/src/models/device-fingerprint.js:51-69 | after an override and any run of captures the chain holds if and only if nothing was logged or the override repeats the last logged type |
| ConfigurationGeneration.GenerationTable.EnqueueGeneration | server/src/models/configuration-generation.js:1-14 | a request raises the desired generation and reopens the row |
| ConfigurationGeneration.GenerationTable.MarkApplied | server/src/models/configuration-generation.js:35-45 | a report never lowers the applied generation, and shows applied only when nothing newer is desired |
| ConfigurationGeneration.HistorySound | server/src/models/configuration-generation.js:1-55 | under any interleaving of requests and workers reporting a generation they read: applied never exceeds desired, never falls, and status applied means applied equals desired |
| ConfigurationGeneration.NoRequestShownAppliedEarly | server/src/models/configuration-generation.js:35-45 | a request made after a worker read its generation is not shown as applied by that worker |
| ConfigurationGeneration.ReportSettlesExactly | server/src/models/configuration-generation.js:35-45 | with any number of workers a report leaves the row applied if and only if no request was made since that worker read its generation |
| ConfigurationGeneration.LateReportReopens | server/src/models/configuration-generation.js:35-45 | two workers: a late older report turns a finished row back to pending |
| ConfigurationGeneration.HookQueue.FireHook | server/src/utils/after-commit.js:82-89 | a hook that runs or is held is marked pending, any other is scheduled |
| ConfigurationGeneration.HookQueue.RunMicrotask | server/src/utils/after-commit.js:95-97 | the run reads the generation it will report |
| ConfigurationGeneration.HookQueue.HandlerSettled | server/src/utils/after-commit.js:98-123 | the outcome of the run is stored under the generation it read |
| ConfigurationGeneration.HookQueue.FinishRun | server/src/utils/after-commit.js:102-107 | a pending request starts the next run |
| ConfigurationGeneration.HookQueue.ReleaseHold | server/src/utils/after-commit.js:173-182 | the last release starts what was asked for meanwhile |
| ConfigurationGeneration.HookQueue.ResumePendingRegeneration | server/src/utils/after-commit.js:185-194 | a restart fires a hook that was not done |
| ConfigurationGeneration.RunKeepsInv | server/src/utils/after-commit.js:68-194 | the queue invariant holds under requests, runs, failures, holds, crashes and restarts |
| ConfigurationGeneration.RestMeansDone | server/src/utils/after-commit.js:68-194 | a resumed hook at rest has applied every generation asked for, or its last run failed |
| ConfigurationGeneration.RestartResumesExactly | server/src/utils/after-commit.js:185-194 | after a crash the hook runs again if and only if its status is not applied |
| ConfigurationGeneration.HoldIsExclusive | server/src/utils/after-commit.js:168-183 | while a hold is out a hook at rest does not start |
| ConfigurationGeneration.BurstTakesOneMorePass | server/src/utils/after-commit.js:82-125 | any number of requests during a run are covered by one more run |
| DashboardReads.DashboardStore.IssueRead | client/src/stores/dashboard.js:113-118 | a read takes the next number of its metric |
| DashboardReads.DashboardStore.ReadAnswered | client/src/stores/dashboard.js:113-121 | an answer is stored only under the newest number |
| DashboardReads.DashboardStore.LaunchRound | client/src/stores/dashboard.js:167-169 | a round takes the next run number and counts as in flight |
| DashboardReads.DashboardStore.RoundSettled | client/src/stores/dashboard.js:186-195 | a settled round writes its page only as the newest, and leaves the count |
| DashboardReads.Page.Show | client/src/stores/dashboard.js:188-194 | the loop over the sources writes values and the failed list |
| DashboardReads.LoadingExactly | client/src/stores/dashboard.js:92-103 | loading is on if and only if a tracked round or read is out |
| DashboardReads.StoredNeverOlder | client/src/stores/dashboard.js:113-121 | the request number behind a stored metric only rises |
| DashboardReads.NewestAnswerStays | client/src/stores/dashboard.js:113-121 | once the newest read has answered, its answer stays until a newer read is issued |
| DashboardReads.ShownExactly | client/src/stores/dashboard.js:167-188 | a round is shown if and only if no other round of its page was launched before it settled |
| DashboardReads.WrittenExactly | client/src/stores/dashboard.js:188-194 | which values and failed marks a shown round leaves, source by source |
| DashboardReads.RangeRoundKeepsPanels | client/src/stores/dashboard.js:173-194 | a range-only round keeps the state panels and their marks |
| DashboardReads.RangeChangeDropsRefresh | client/src/stores/dashboard.js:167-195 | a range change during a full round leaves the state panels as they were before that round |

## Left out

- PTR rows written while DHCP records are synced (`syncPtrForARecord`, `clearPtrForARecord`): the sync model stops at
  the A and AAAA rows. `reconcileManagedReverseDns`, which repairs reverse zones as a whole, is modelled.
- The `observeDhcpLeases` call at the end of `replaceLeases`, and the `updated_at` and `last_seen` columns.
- Lease expiry text: an expiry is a time, infinite or unreadable, and the clock is one integer. SQLite's `datetime`
  truncates to seconds where `Date.now()` counts milliseconds.
- Which zone a subnet and address belong to (`dhcpZoneResolver`): a parameter of the naming and sync models.
- An absent hostname and an empty one are one value, as the code tests them alike.
- Unicode case mapping: names are lowered as ASCII. `String.prototype.trim` removes exactly the characters it does.
- SQLite's choice among several rows a query without an order may return: the first row is taken.
- Reason, label and remediation texts of the inventory: an issue is its category, subnet and address.
- The legacy report as JSON text and the SQL of the migrations: a report is its outcome and the schema before, or
  unreadable; a migration is its version.
- The lifecycle inventory and reconcile run over address spellings (an address and how it is spelled); the text
  functions are modelled on their own in `AddressText`.
- The release notes parser: the lint starts from parsed releases with their parse errors.
- `generateTotpSecret`, HOTP, backup codes: random and cryptographic parts of `totp.js`.
- Zone ids returned by `parseIp`: the model drops them after checking them.
- The value of a zone serial: a serial is a counter of bumps.
- Which writes of an import the database refuses: an input, one flag for each entry.
- The patterns and the option list similarity of the device classifier: which rules match, and how far an option list
  lowers its rule's confidence, is the list of candidates it starts from.
- The pattern search after masking in `check-db-ownership.js`: only the index and its line number.
- The configuration row before migration 065 inserts it. The three hooks share only the hold count, so one hook
  is modelled with it.
- The timer that waits in `holdHooks` for running hooks.
- The unguarded reads of services and system health in the dashboard store, and Vue's reactivity. A settled round is
  one step, from its last answer to the end of its tracking.
- Folders, VLANs, range types, settings, roles, scanning, the anomaly sidecar and the user interface: row edits and
  displays without an invariant that spans operations.
- ImportRecords.ZoneRecords.ImportRecords: the exact table is stated for entries without the separator `|`, the only ones
  the importing route lets through (`server/src/routes/pihole.js` lines 158 to 190), over zones that do not hold one
  address or CNAME record twice.
- DhcpLeaseStore.LeaseStore.SyncDhcpDnsRecords: the flag tells of changed records only; the PTR sync of each entry,
  which can raise it too, is left out.
- DhcpLeaseStore.LeaseStore.AnswerEntry: leaves out the PTR sync of the entry and its part in the change flag.
- DhcpDnsSync.SyncIsIdempotent: says that no record changes; whether a PTR row does is left out with the PTR sync.
- DhcpRounds.RunKeepsNamesUnique: stated for reports with distinct addresses, zones that keep their names and lease
  names that normalise to stable record names (`UnstableNameBreaksUniqueness` shows why the last is needed), and for
  applies whose stored leases ask for unique names (`TakeBackUndone` shows why).
- DhcpStickiness.RepeatedReportChangesNothing: stated for unreserved hostnames that are single labels of at most 60
  characters, no exhausted suffixes (`RoomForAll` says when) and no operator record on an unreserved leased address.
- ReverseReconcile.EveryCoveredAddressHasPtr: stated for IPv4 subnets within the size limit; of an IPv6 network the
  reconcile walks only the stored addresses, which `WalkedAddressHasPtr` covers.
- ReleaseManifest.ComputeBestTarget: takes the manifest already sorted, newest first, as the lint leaves it; the sort
  and the notes about intermediate versions are left out.
- IpLifecycleReconcile.AllocatedByItsClaim: leaves out the claim of a locked row, as `ReconciledByClaim` does.
- IpLifecycleReconcile.ReconciledByClaim: leaves out the claim of a locked row, because the reconcile reads the
  `allocation_state` column that a migration fills from it, and the SQL of the migrations is not modelled.
