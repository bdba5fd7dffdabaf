/** The lease and record tables, and the three steps a lease report takes over them. */
module DhcpLeaseStore {
  import opened Addresses
  import opened Options
  import opened DhcpTables
  import opened DnsNames
  import Naming = DhcpLeaseNames
  import Retention = DhcpLeaseRetention
  import DnsSync = DhcpDnsSync
  import Rounds = DhcpRounds

  class LeaseStore {
    var leases: seq<Lease>
    var records: seq<Record>
    var nextRecordId: nat
    /** Whether a regeneration of the DNS configuration is queued. */
    var regenerateDns: bool

    constructor (leases: seq<Lease>, records: seq<Record>, nextRecordId: nat)
      ensures this.leases == leases && this.records == records && this.nextRecordId == nextRecordId && !regenerateDns
    {
      this.leases, this.records, this.nextRecordId, regenerateDns := leases, records, nextRecordId, false;
    }

    /** Decides each lease's name, writing it into the batch. */
    method AssignLeaseNames(batch: array<Lease>, holderMac: map<Ip, string>, resolver: Resolver,
                            fallbackName: string -> string, macFromDuid: string -> Option<string>)
      modifies batch
      ensures batch[..] == Naming.Named(Naming.Facts(records, leases, holderMac, resolver, fallbackName, macFromDuid),
                                        old(batch[..]))
    {
      hide NormalizeRecordName, Naming.HeldClaims, Naming.PendingOf, Naming.FirstName, Naming.SettleAll,
        Naming.SortByAddress;
      var f := Naming.Facts(records, leases, holderMac, resolver, fallbackName, macFromDuid);
      ghost var before := batch[..];
      var leasedIps := set l | l in batch[..] :: l.ip;
      var claimed, pending := KeepHeldNames(batch, f);
      Naming.SortedHasSame(pending);
      NamePending(batch, f, leasedIps, Naming.SortByAddress(pending), claimed, Naming.FirstNames(f, before));
      assert forall k :: 0 <= k < batch.Length ==> batch[..][k] == Naming.Named(f, before)[k];
    }

    /** The first loop: a lease keeps the name its address holds, or waits for one. */
    method KeepHeldNames(batch: array<Lease>, f: Naming.Facts)
      returns (claimed: set<Naming.Claim>, pending: seq<Naming.Pending>)
      modifies batch
      ensures forall k :: 0 <= k < batch.Length ==>
                batch[k] == old(batch[k]).(hostname := Naming.FirstName(f, old(batch[k])))
      ensures claimed == Naming.HeldClaims(f, old(batch[..])) && pending == Naming.PendingOf(f, old(batch[..]))
    {
      hide NormalizeRecordName, Naming.VendorName, Naming.KeepsHeld, Naming.HeldName, Naming.WantedName,
        Naming.KeptName, Naming.ClaimSet, Naming.Candidate;
      ghost var before := batch[..];
      claimed, pending := {}, [];
      var i := 0;
      while i < batch.Length
        invariant 0 <= i <= batch.Length
        invariant forall k :: 0 <= k < i ==> batch[k] == before[k].(hostname := Naming.FirstName(f, before[k]))
        invariant forall k :: i <= k < batch.Length ==> batch[k] == before[k]
        invariant claimed == Naming.HeldClaims(f, before[..i])
        invariant pending == Naming.PendingOf(f, before[..i])
      {
        assert before[..i + 1][..i] == before[..i];
        var lease := batch[i];
        var zone := f.resolver.ZoneFor(lease.subnet, lease.ip);
        if zone.None? {
          if lease.hostname == "" {
            batch[i] := lease.(hostname := Naming.VendorName(f, lease));
          }
        } else if Naming.IsKept(f, lease) {
          var stored := Naming.KeptName(f, lease, zone.value);
          batch[i] := lease.(hostname := stored);
          claimed := claimed + Naming.ClaimSet(zone.value, lease.ip, stored);
        } else {
          pending := pending + [Naming.Pending(i, lease, zone.value, Naming.Candidate(f, lease))];
        }
        i := i + 1;
      }
      assert before[..i] == before;
    }

    /** The second loop: each waiting lease takes its first free name. */
    method NamePending(batch: array<Lease>, f: Naming.Facts, leasedIps: set<Ip>, pending: seq<Naming.Pending>,
                       held: set<Naming.Claim>, ghost first: seq<string>)
      requires |first| == batch.Length && forall p :: p in pending ==> p.index < batch.Length
      requires forall k :: 0 <= k < batch.Length ==> batch[k].hostname == first[k]
      modifies batch
      ensures forall k :: 0 <= k < batch.Length ==>
                batch[k] == old(batch[k]).(hostname := Naming.SettleAll(f, leasedIps, pending, first, held).0[k])
    {
      hide NormalizeRecordName, Naming.ChooseName, Naming.ClaimSet;
      ghost var before := batch[..];
      ghost var names := first;
      var claimed := held;
      var j := 0;
      while j < |pending|
        invariant 0 <= j <= |pending| && |names| == batch.Length
        invariant forall k :: 0 <= k < batch.Length ==> batch[k] == before[k].(hostname := names[k])
        invariant Naming.SettleAll(f, leasedIps, pending[j..], names, claimed)
               == Naming.SettleAll(f, leasedIps, pending, first, held)
      {
        var p := pending[j];
        var name := Naming.ChooseName(f, leasedIps, claimed, p);
        assert p in pending && pending[j..][0] == p && pending[j..][1..] == pending[j + 1..];
        batch[p.index] := batch[p.index].(hostname := name);
        names := names[p.index := name];
        claimed := claimed + Naming.ClaimSet(p.zone, p.lease.ip, name);
        j := j + 1;
      }
      assert pending[j..] == [];
    }

    /** Stores the batch, and the leases the backend no longer holds as expired. */
    method ReplaceLeases(batch: seq<Lease>, reservations: seq<Reserved>, now: int)
      modifies this`leases
      ensures leases == Retention.Replaced(old(leases), batch, reservations, now)
    {
      hide Retention.Retains, Retention.ExpiredBy, Retention.Put, Retention.ReservedKeys, Retention.KeysOf;
      var previous: seq<Lease> := [];
      for i := 0 to |leases|
        invariant leases == old(leases) && previous == Retention.ByKey(leases[..i])
      {
        assert leases[..i + 1][..i] == leases[..i];
        previous := Retention.Put(previous, leases[i]);
      }
      assert leases[..|leases|] == leases;
      var reservationKeys := Retention.ReservedKeys(reservations);
      leases := [];
      for i := 0 to |batch|
        invariant leases == batch[..i]
      {
        leases := leases + [batch[i]];
      }
      assert leases == batch;
      var currentKeys := Retention.KeysOf(batch);
      for i := 0 to |previous|
        invariant leases + Retention.Retain(previous[i..], currentKeys, reservationKeys, now)
               == batch + Retention.Retain(previous, currentKeys, reservationKeys, now)
      {
        var row := previous[i];
        assert previous[i..][0] == row && previous[i..][1..] == previous[i + 1..];
        if Retention.Retains(row, currentKeys, reservationKeys, now) {
          leases := leases + [row.(expires := Retention.ExpiredBy(row.expires, now))];
        }
      }
    }

    /** Makes the generated records of the processed zones match the leases and reservations. */
    method SyncDhcpDnsRecords(batch: seq<Lease>, reservations: seq<Reserved>, resolver: Resolver)
      modifies this`records, this`nextRecordId, this`regenerateDns
      ensures var synced := DnsSync.Sync(old(records), old(nextRecordId), resolver, batch, reservations);
              records == synced.records && nextRecordId == synced.nextId
              && regenerateDns == (old(regenerateDns) || synced.changed)
    {
      hide NormalizeRecordName, DnsSync.Entries, DnsSync.ZoneIds, DnsSync.Step, DnsSync.Sweep, DnsSync.Run,
        DnsSync.Targets;
      var entries := DnsSync.Entries(batch, reservations);
      var activeRecordIds: set<nat>, activeIps: set<Ip>, activeNames: set<DnsSync.NameKey> := {}, {}, {};
      var processedZoneIds, configChanged := DnsSync.ZoneIds(resolver), false;
      ghost var start := DnsSync.Start(records, nextRecordId, processedZoneIds);
      ghost var st := start;
      DnsSync.NoTargets(resolver, start);
      for i := 0 to |entries|
        invariant st == DnsSync.Run(start, DnsSync.Targets(resolver, entries[..i]))
        invariant st == StateWith(activeRecordIds, activeIps, activeNames, processedZoneIds, configChanged)
        invariant regenerateDns == old(regenerateDns)
      {
        var l := entries[i];
        var zone := resolver.ZoneFor(l.subnet, l.ip);
        DnsSync.RunEntry(resolver, start, entries, i);
        if l.hostname == "" || zone.None? {
          continue;
        }
        var recordName := NormalizeRecordName(l.hostname, zone.value.name);
        var t := DnsSync.Target(zone.value.id, recordName, l.ip, l.source);
        ghost var was := st;
        st := DnsSync.Step(st, t);
        processedZoneIds := processedZoneIds + {t.zone};
        activeNames := activeNames + {DnsSync.NameKey(t.zone, t.name, TypeOf(t.ip))};
        activeRecordIds, activeIps, configChanged :=
          AnswerEntry(t, activeRecordIds, activeIps, configChanged, was);
      }
      assert entries[..|entries|] == entries;
      var deleted := SweepStale(activeRecordIds, activeIps, activeNames, processedZoneIds, st);
      if configChanged || deleted {
        regenerateDns := true;
      }
    }

    ghost function StateWith(activeRecordIds: set<nat>, activeIps: set<Ip>, activeNames: set<DnsSync.NameKey>,
                             processedZoneIds: set<nat>, configChanged: bool): DnsSync.State
      reads this
    {
      DnsSync.State(records, nextRecordId, activeRecordIds, activeIps, activeNames, processedZoneIds, configChanged)
    }

    /** Takes over the entry's row, adds one, or leaves the operator's alone. */
    method AnswerEntry(t: DnsSync.Target, activeRecordIds: set<nat>, activeIps: set<Ip>, configChanged: bool,
                       ghost st: DnsSync.State)
      returns (ids: set<nat>, ips: set<Ip>, changed: bool)
      requires st == StateWith(activeRecordIds, activeIps, st.activeNames, st.processed, configChanged)
      modifies this`records, this`nextRecordId
      ensures DnsSync.Step(st, t) ==
              StateWith(ids, ips, st.activeNames + {DnsSync.NameKey(t.zone, t.name, TypeOf(t.ip))},
                        st.processed + {t.zone}, changed)
    {
      ids, ips, changed := activeRecordIds, activeIps, configChanged;
      var row := FindRecord(t);
      if row < |records| {
        var existing := records[row];
        if existing.source != Manual {
          changed := changed || existing.source != t.source;
          records := records[row := existing.(source := t.source)];
          ids, ips := ids + {existing.id}, ips + {t.ip};
        }
      } else {
        records := records + [Record(nextRecordId, t.zone, t.name, TypeOf(t.ip), Addr(t.ip), t.source)];
        ids, ips, changed := ids + {nextRecordId}, ips + {t.ip}, true;
        nextRecordId := nextRecordId + 1;
      }
    }

    /** The first row at the key, |records| when there is none. */
    method FindRecord(t: DnsSync.Target) returns (row: nat)
      ensures row == DnsSync.Find(records, t)
    {
      row := 0;
      while row < |records|
        invariant row <= |records|
        invariant forall k :: 0 <= k < row ==> !DnsSync.Matches(records[k], t)
      {
        if DnsSync.Matches(records[row], t) {
          break;
        }
        row := row + 1;
      }
      if row < |records| {
        DnsSync.FindIs(records, t, row);
      }
    }

    /** Deletes the generated rows of the processed zones that nothing answers any more. */
    method SweepStale(activeRecordIds: set<nat>, activeIps: set<Ip>, activeNames: set<DnsSync.NameKey>,
                      processedZoneIds: set<nat>, ghost st: DnsSync.State) returns (deleted: bool)
      requires st.activeIds == activeRecordIds && st.activeIps == activeIps && st.activeNames == activeNames
      requires st.processed == processedZoneIds
      modifies this`records
      ensures records == DnsSync.Sweep(st, old(records))
      ensures deleted <==> |records| < |old(records)|
    {
      hide DnsSync.Sweep;
      var rows := records;
      var kept: seq<Record> := [];
      deleted := false;
      assert rows[0..] == rows;
      for i := 0 to |rows|
        invariant |kept| <= i && (deleted <==> |kept| < i)
        invariant kept + DnsSync.Sweep(st, rows[i..]) == DnsSync.Sweep(st, rows)
      {
        var r := rows[i];
        DnsSync.SweepNext(st, rows, i, kept);
        var generated := r.source != Manual && r.zone in processedZoneIds;
        var retained := r.source == Dhcp && !(r.value.Addr? && r.value.ip in activeIps)
                        && DnsSync.NameKey(r.zone, r.name, r.rtype) !in activeNames;
        if !generated || r.id in activeRecordIds || retained {
          kept := kept + [r];
        } else {
          deleted := true;
        }
      }
      DnsSync.SweepNone(st);
      assert rows[|rows|..] == [] && kept + [] == kept;
      records := kept;
    }

    /** One lease report: named, stored and synced. */
    method IngestLeases(batch: array<Lease>, reservations: seq<Reserved>, holderMac: map<Ip, string>,
                        resolver: Resolver, fallbackName: string -> string, macFromDuid: string -> Option<string>,
                        now: int)
      modifies this, batch
      ensures var before := Rounds.Tables(old(records), old(nextRecordId), old(leases));
              var inputs := Rounds.Inputs(old(batch[..]), reservations, holderMac, resolver, fallbackName, macFromDuid,
                                          now);
              && Rounds.Tables(records, nextRecordId, leases) == Rounds.Ingest(before, inputs)
              && batch[..] == Rounds.NamedBatch(before, inputs)
    {
      hide Naming.Named, Retention.Replaced, DnsSync.Entries, DnsSync.Targets, DnsSync.SyncTargets;
      AssignLeaseNames(batch, holderMac, resolver, fallbackName, macFromDuid);
      ReplaceLeases(batch[..], reservations, now);
      SyncDhcpDnsRecords(batch[..], reservations, resolver);
    }
  }
}
