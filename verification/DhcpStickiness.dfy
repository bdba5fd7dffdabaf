/** What a lease report that repeats itself changes, to the letter. */
module DhcpStickiness {
  import opened Addresses
  import opened Options
  import opened DhcpTables
  import opened DnsNames
  import opened DhcpLeaseNames
  import opened DhcpLeaseRetention
  import opened DhcpRounds
  import opened DhcpLeaseSearch
  import DhcpDnsSync

  /** The address answers for its lease: no enabled reservation names it. */
  predicate Unreserved(inp: Inputs, l: Lease) {
    l.ip !in DhcpDnsSync.ReservationIps(inp.reservations)
  }

  /** A reported hostname of at most 60 characters that a suffix extends without cutting it. */
  ghost predicate ShortLabels(inp: Inputs) {
    forall l :: l in inp.batch && Unreserved(inp, l) && l.hostname != "" &&
                inp.resolver.ZoneFor(l.subnet, l.ip).Some? ==>
      |l.hostname| <= MAX_LABEL - 3 && HostLabel(l.hostname, inp.resolver.ZoneFor(l.subnet, l.ip).value.name)
  }

  ghost predicate NoOperatorOnLeases(records: seq<Record>, inp: Inputs) {
    forall r, l :: r in records && l in inp.batch && Unreserved(inp, l) && r.source == Manual ==> r.value != Addr(l.ip)
  }

  ghost predicate Repeatable(zoneNames: map<nat, string>, db: Tables, inp: Inputs) {
    TablesOk(zoneNames, db) && InputsOk(zoneNames, db, inp) && ShortLabels(inp) && NoOperatorOnLeases(db.records, inp)
  }

  /** The lease is one the naming has to find a name for. */
  predicate Asks(db: Tables, inp: Inputs, l: Lease) {
    Unreserved(inp, l) && Candidate(FactsOf(db, inp), l) != "" && inp.resolver.ZoneFor(l.subnet, l.ip).Some?
  }

  /** Who asks for a name of its own gets one. */
  ghost predicate NoneExhausted(db: Tables, inp: Inputs) {
    forall i :: 0 <= i < |inp.batch| && Asks(db, inp, inp.batch[i]) ==> NamedBatch(db, inp)[i].hostname != ""
  }

  /** The name an address still has under another subnet: that of its last retained row. */
  function OtherName(db: Tables, inp: Inputs, ip: Ip): string {
    PreviousName(Retain(ByKey(db.leases), KeysOf(inp.batch), ReservedKeys(inp.reservations), inp.now), ip)
  }

  /** The other subnet's row has no name, or one that leads back to this spelling. */
  predicate SpellingStays(db: Tables, inp: Inputs, i: nat)
    requires i < |inp.batch|
  {
    var l, name, other := inp.batch[i], NamedBatch(db, inp)[i].hostname, OtherName(db, inp, inp.batch[i].ip);
    var zone := inp.resolver.ZoneFor(l.subnet, l.ip);
    other == "" || zone.None? || name == "" ||
    KeptSpelling(other, NormalizeRecordName(name, zone.value.name), l, zone.value) == name
  }

  // ---- What the second report finds ----

  lemma HeldNameOfOnly(records: seq<Record>, zone: nat, ip: Ip, r: Record)
    requires r in records && HoldsName(r, zone, ip)
    requires forall s :: s in records && DhcpDnsSync.GeneratedAt(s, zone, ip) ==> s == r
    ensures HeldName(records, zone, ip) == Lower(r.name)
  {
    hide Lower;
    if !HoldsName(records[0], zone, ip) {
      HeldNameOfOnly(records[1..], zone, ip, r);
    } else {
      assert DhcpDnsSync.GeneratedAt(records[0], zone, ip);
    }
  }

  lemma HeldNameOfNone(records: seq<Record>, zone: nat, ip: Ip)
    requires forall r :: r in records ==> !HoldsName(r, zone, ip)
    ensures HeldName(records, zone, ip) == ""
  {}

  lemma HeldNameOfSome(records: seq<Record>, zone: nat, ip: Ip)
    requires exists r :: r in records && HoldsName(r, zone, ip)
    requires forall r :: r in records && r.source == Dhcp ==> r.name != ""
    ensures HeldName(records, zone, ip) != ""
  {
    if !HoldsName(records[0], zone, ip) {
      var r :| r in records && HoldsName(r, zone, ip);
      assert r in records[1..];
      HeldNameOfSome(records[1..], zone, ip);
    } else {
      assert records[0] in records;
    }
  }

  lemma PreviousNameIn(stored: seq<Lease>, ip: Ip, l: Lease)
    requires l in stored && l.ip == ip && l.hostname != ""
    requires forall m :: m in stored && m.ip == ip ==> m == l
    ensures PreviousName(stored, ip) == l.hostname
  {
    var n := |stored| - 1;
    if stored[n].ip != ip {
      assert l in stored[..n] by { assert stored == stored[..n] + [stored[n]]; }
      PreviousNameIn(stored[..n], ip, l);
    }
  }

  lemma {:induction false} PreviousNameJoin(a: seq<Lease>, b: seq<Lease>, ip: Ip)
    ensures PreviousName(a + b, ip) == if PreviousName(b, ip) != "" then PreviousName(b, ip) else PreviousName(a, ip)
  {
    if b == [] {
      assert a + b == a;
    } else {
      var n := |b| - 1;
      PreviousNameJoin(a, b[..n], ip);
      assert (a + b)[..|a| + n] == a + b[..n];
    }
  }

  /** What the second report reads as a leased address's last name. */
  lemma PreviousAgain(db: Tables, inp: Inputs, i: nat)
    requires DistinctIps(inp.batch) && i < |inp.batch| && NamedBatch(db, inp)[i].hostname != ""
    ensures var l, other := NamedBatch(db, inp)[i], OtherName(db, inp, inp.batch[i].ip);
            PreviousName(Ingest(db, inp).leases, l.ip) == if other != "" then other else l.hostname
  {
    hide Settled, TargetsOf, DhcpDnsSync.SyncTargets, Retain, ByKey, ReservedKeys;
    var named := NamedBatch(db, inp);
    var l := named[i];
    SameKeys(db, inp);
    PreviousNameJoin(named, Retain(ByKey(db.leases), KeysOf(named), ReservedKeys(inp.reservations), inp.now), l.ip);
    forall m | m in named && m.ip == l.ip ensures m == l {
      var j :| 0 <= j < |named| && named[j] == m;
      assert j == i;
    }
    PreviousNameIn(named, l.ip, l);
  }

  lemma SameKeys(db: Tables, inp: Inputs)
    ensures KeysOf(NamedBatch(db, inp)) == KeysOf(inp.batch)
  {
    hide Settled;
    var named := NamedBatch(db, inp);
    forall k ensures k in KeysOf(named) <==> k in KeysOf(inp.batch) {
      if k in KeysOf(named) {
        var l :| l in named && KeyOf(l) == k;
        var j :| 0 <= j < |named| && named[j] == l;
        assert inp.batch[j] in inp.batch && KeyOf(inp.batch[j]) == k;
      }
      if k in KeysOf(inp.batch) {
        var l :| l in inp.batch && KeyOf(l) == k;
        var j :| 0 <= j < |named| && inp.batch[j] == l;
        assert named[j] in named && KeyOf(named[j]) == k;
      }
    }
  }

  // ---- The second report keeps the first one's name ----

  lemma SuffixedLabel(h: string, zoneName: string, o: string)
    requires HostLabel(h, zoneName) && |h| <= MAX_LABEL - 3 && o in OptionsOf(h)
    ensures KeepsHeld(NormalizeRecordName(o, zoneName), NormalizeRecordName(h, zoneName))
  {
    hide NormalizeRecordName, HostLabel, NameSuffix, KeepsHeld, Lower;
    HostLabelNormal(h, zoneName);
    if o == h {
      LabelNotEmpty(h, zoneName);
      HeldIsWanted(Lower(h));
      return;
    }
    var k :| 0 <= k < |OptionsOf(h)| && OptionsOf(h)[k] == o;
    assert Lower(h) != "" by { LabelNotEmpty(h, zoneName); }
    if k > 0 {
      assert h[..|h|] == h;
      assert o == h + NameSuffix(k - 1);
      HostSuffixNormal(h, k - 1, zoneName);
      SuffixedHeld(h, k - 1);
    }
  }

  lemma HeldIsWanted(held: string)
    requires held != ""
    ensures KeepsHeld(held, held)
  {}

  lemma SuffixedHeld(h: string, i: nat)
    requires i < 256 && Lower(h) != ""
    ensures KeepsHeld(Lower(h) + Lower(NameSuffix(i)), Lower(h))
  {
    HexIsVisible(i / 16);
    HexIsVisible(i % 16);
    var held := Lower(h) + Lower(NameSuffix(i));
    assert held[..|h|] == Lower(h);
  }

  lemma LabelNotEmpty(h: string, zoneName: string)
    requires HostLabel(h, zoneName)
    ensures h != ""
  {}

  lemma KeepsAgain(zoneNames: map<nat, string>, db: Tables, inp: Inputs, i: nat, t: DhcpDnsSync.Target, zone: Zone)
    requires Repeatable(zoneNames, db, inp) && i < |inp.batch| && Unreserved(inp, inp.batch[i])
    requires inp.resolver.ZoneFor(inp.batch[i].subnet, inp.batch[i].ip) == Some(zone)
    requires t in LeaseTarget(inp.resolver, NamedBatch(db, inp)[i])
    ensures KeepsHeld(t.name, WantedName(inp.batch[i], zone)) && Lower(t.name) == t.name
    ensures t.name == NormalizeRecordName(NamedBatch(db, inp)[i].hostname, zone.name)
    ensures NamedBatch(db, inp)[i].hostname != "" && t.zone == zone.id && t.ip == inp.batch[i].ip
    ensures NormalizeRecordName(t.name, zone.name) == t.name
  {
    hide NormalizeRecordName, Settled, HostLabel, OptionsOf, StableIn, DhcpUnique, LastingNames,
      DhcpDnsSync.ValidIds, DhcpDnsSync.ReservationIps;
    var f, l := FactsOf(db, inp), inp.batch[i];
    var named := NamedBatch(db, inp)[i];
    assert l in inp.batch;
    KnownIsStable(zoneNames, inp.resolver, db.records);
    NamedLasts(f, inp.batch, i, t);
    NormalIsLower(named.hostname, zone.name);
    if IsPending(f, l) {
      PendingTakesOption(f, inp.batch, i);
      if l.hostname != "" {
        SuffixedLabel(l.hostname, zone.name, named.hostname);
      }
    } else {
      KeptStaysKept(f, inp.batch, i);
      var c := Claim(zone.id, t.name, TypeOf(l.ip), l.ip);
      assert c in HeldClaim(f, l);
      var r := KeptClaim(f, l, c);
    }
  }

  /** A kept name is a spelling of the record it is kept from. */
  lemma KeptNormal(previous: string, held: string, lease: Lease, zone: Zone)
    requires NormalizeRecordName(held, zone.name) == held && KeepsHeld(held, WantedName(lease, zone))
    ensures NormalizeRecordName(KeptSpelling(previous, held, lease, zone), zone.name) == held
  {
    hide NormalizeRecordName;
  }

  /** An unreserved lease that ended with a name keeps it, its spelling exactly when no other subnet's row has one. */
  lemma NamedAgain(zoneNames: map<nat, string>, db: Tables, inp: Inputs, holderMac: map<Ip, string>, now: int, i: nat,
                   zone: Zone)
    requires Repeatable(zoneNames, db, inp) && i < |inp.batch| && Unreserved(inp, inp.batch[i])
    requires inp.resolver.ZoneFor(inp.batch[i].subnet, inp.batch[i].ip) == Some(zone)
    requires NamedBatch(db, inp)[i].hostname != ""
    ensures var f := FactsOf(Ingest(db, inp), inp.(holderMac := holderMac, now := now));
            var name := NamedBatch(db, inp)[i].hostname;
            && IsKept(f, inp.batch[i]) && FirstName(f, inp.batch[i]) != ""
            && NormalizeRecordName(FirstName(f, inp.batch[i]), zone.name) == NormalizeRecordName(name, zone.name)
            && (FirstName(f, inp.batch[i]) == name <==> SpellingStays(db, inp, i))
  {
    hide NormalizeRecordName, Named, Ingest, TablesOk, InputsOk, ShortLabels, DhcpDnsSync.ReservationIps, OtherName;
    var l, named := inp.batch[i], NamedBatch(db, inp)[i];
    var after := Ingest(db, inp);
    assert l in inp.batch && named.ip == l.ip && named.subnet == l.subnet by {
      SameLease(db, inp, i);
    }
    var t := DhcpDnsSync.Target(zone.id, NormalizeRecordName(named.hostname, zone.name), l.ip, Dhcp);
    assert t in LeaseTarget(inp.resolver, named);
    KeepsAgain(zoneNames, db, inp, i, t, zone);
    TablesHaveIds(zoneNames, db, inp);
    NotOperatorsOn(db, inp, l, t);
    var r := NamedLeaseHasItsRecord(db, inp, i, t);
    HeldNameOfOnly(after.records, zone.id, l.ip, r);
    PreviousAgain(db, inp, i);
    KeptNormal(PreviousName(after.leases, l.ip), t.name, l, zone);
  }

  lemma SameLease(db: Tables, inp: Inputs, i: nat)
    requires i < |inp.batch|
    ensures NamedBatch(db, inp)[i].(hostname := "") == inp.batch[i].(hostname := "")
  {
    hide Settled;
  }

  lemma TablesHaveIds(zoneNames: map<nat, string>, db: Tables, inp: Inputs)
    requires TablesOk(zoneNames, db) && InputsOk(zoneNames, db, inp)
    ensures DhcpDnsSync.ValidIds(db.records, db.nextId) && DistinctIps(inp.batch)
    ensures forall r :: r in db.records && r.source == Dhcp ==> r.name != ""
  {}

  lemma NotOperatorsOn(db: Tables, inp: Inputs, l: Lease, t: DhcpDnsSync.Target)
    requires NoOperatorOnLeases(db.records, inp) && l in inp.batch && Unreserved(inp, l) && t.ip == l.ip
    ensures DhcpDnsSync.NotOperators(db.records, t)
  {
    var i := DhcpDnsSync.Find(db.records, t);
    if i < |db.records| {
      assert db.records[i] in db.records;
    }
  }

  /** A lease that had no name to ask for leaves no record to keep one by. */
  lemma UnnamedHoldsNothing(zoneNames: map<nat, string>, db: Tables, inp: Inputs, i: nat, zone: Zone)
    requires TablesOk(zoneNames, db) && InputsOk(zoneNames, db, inp) && i < |inp.batch|
    requires inp.resolver.ZoneFor(inp.batch[i].subnet, inp.batch[i].ip) == Some(zone)
    requires NamedBatch(db, inp)[i].hostname == "" && Candidate(FactsOf(db, inp), inp.batch[i]) == ""
    ensures HeldName(Ingest(db, inp).records, zone.id, inp.batch[i].ip) == ""
  {
    hide NormalizeRecordName, Named, TablesOk, InputsOk, DhcpDnsSync.ReservationIps, DhcpDnsSync.SyncTargets,
      DhcpDnsSync.Targets, DhcpDnsSync.Entries, Replaced;
    var f, l := FactsOf(db, inp), inp.batch[i];
    TablesHaveIds(zoneNames, db, inp);
    TargetSources(db, inp);
    SameLease(db, inp, i);
    if exists r :: r in db.records && HoldsName(r, zone.id, l.ip) {
      HeldNameOfSome(db.records, zone.id, l.ip);
      KeptHasName(f, l, zone);
      KeptStaysKept(f, inp.batch, i);
    }
    UnnamedAsksNothing(db, inp, i);
    forall r | r in Ingest(db, inp).records ensures !HoldsName(r, zone.id, l.ip) {
      if r.source == Dhcp {
        DhcpDnsSync.LeftRow(db.records, db.nextId, DhcpDnsSync.ZoneIds(inp.resolver), TargetsOf(db, inp), r);
      }
    }
    HeldNameOfNone(Ingest(db, inp).records, zone.id, l.ip);
  }

  /** A lease that had no name to ask for gets none when reported again. */
  lemma UnnamedAgain(zoneNames: map<nat, string>, db: Tables, inp: Inputs, holderMac: map<Ip, string>, now: int,
                     i: nat)
    requires TablesOk(zoneNames, db) && InputsOk(zoneNames, db, inp) && i < |inp.batch|
    requires inp.resolver.ZoneFor(inp.batch[i].subnet, inp.batch[i].ip).Some?
    requires NamedBatch(db, inp)[i].hostname == "" && Candidate(FactsOf(db, inp), inp.batch[i]) == ""
    ensures var again := inp.(holderMac := holderMac, now := now);
            IsPending(FactsOf(Ingest(db, inp), again), inp.batch[i]) &&
            NamedBatch(Ingest(db, inp), again)[i].hostname == ""
  {
    hide NormalizeRecordName, Named, Ingest, HeldName, TablesOk, InputsOk, WantedName, OptionsOf;
    var l := inp.batch[i];
    UnnamedHoldsNothing(zoneNames, db, inp, i, inp.resolver.ZoneFor(l.subnet, l.ip).value);
    PendingTakesOption(FactsOf(Ingest(db, inp), inp.(holderMac := holderMac, now := now)), inp.batch, i);
  }

  lemma UnnamedAsksNothing(db: Tables, inp: Inputs, i: nat)
    requires DistinctIps(inp.batch) && i < |inp.batch| && NamedBatch(db, inp)[i].hostname == ""
    ensures forall t :: t in TargetsOf(db, inp) && t.source == Dhcp ==> t.ip != inp.batch[i].ip
  {
    hide NamedBatch, LeaseTarget, DhcpDnsSync.ReservationIps, DhcpDnsSync.Targets, DhcpDnsSync.Entries;
    var named := NamedBatch(db, inp);
    forall t | t in TargetsOf(db, inp) && t.source == Dhcp
      ensures t.ip != inp.batch[i].ip
    {
      BatchTarget(inp.resolver, named, inp.reservations, t);
      var m :| m in named && m.ip == t.ip && t in LeaseTarget(inp.resolver, m);
      var j :| 0 <= j < |inp.batch| && named[j] == m;
      SameLease(db, inp, j);
      UnnamedHasNoTarget(inp.resolver, named[i]);
      assert j != i;
    }
  }

  lemma UnnamedHasNoTarget(resolver: Resolver, l: Lease)
    requires l.hostname == ""
    ensures LeaseTarget(resolver, l) == []
  {}

  lemma KeptHasName(f: Facts, l: Lease, zone: Zone)
    requires f.resolver.ZoneFor(l.subnet, l.ip) == Some(zone) && l.hostname == ""
    requires HeldName(f.records, zone.id, l.ip) != ""
    ensures IsKept(f, l) && FirstName(f, l) != ""
  {
    hide NormalizeRecordName, HeldName, PreviousName;
  }

  /**
   * What the second naming finds at a lease whose name may move: the record it kept names it, or it holds none and the
   * name is the first option clashing with no record and no claim ahead of it, and "" when every option clashes.
   */
  ghost predicate NameIsLeft(db: Tables, again: Inputs, names: seq<string>, i: nat)
    requires |names| == |again.batch| && i < |names|
  {
    var f, l := FactsOf(db, again), again.batch[i];
    if !IsPending(f, l) then names[i] == FirstName(f, l)
    else
      Candidate(f, l) != "" &&
      IsFirstFree(f, IpsOf(again.batch), Ahead(f, again.batch, names, i), Turn(f, again.batch, i),
                  OptionsOf(Candidate(f, l)), names[i])
  }

  /** The lease's second name is its first one, seen from what the first report left. */
  ghost predicate Stays(db: Tables, inp: Inputs, again: Inputs, i: nat)
    requires i < |inp.batch| && again.batch == inp.batch
  {
    var l, name := inp.batch[i], NamedBatch(db, inp)[i].hostname;
    if inp.resolver.ZoneFor(l.subnet, l.ip).None? || (name == "" && Candidate(FactsOf(db, inp), l) == "") then true
    else if Unreserved(inp, l) && name != "" then SpellingStays(db, inp, i)
    else NameIsLeft(Ingest(db, inp), again, NamesOf(NamedBatch(db, inp)), i)
  }

  lemma StaysIsBeside(zoneNames: map<nat, string>, db: Tables, inp: Inputs, holderMac: map<Ip, string>, now: int,
                      i: nat)
    requires Repeatable(zoneNames, db, inp) && i < |inp.batch|
    ensures var again := inp.(holderMac := holderMac, now := now);
            var names := NamesOf(NamedBatch(db, inp));
            Stays(db, inp, again, i) <==> names[i] == NameBeside(FactsOf(Ingest(db, inp), again), inp.batch, names, i)
  {
    hide Repeatable, NamedBatch, Ingest, Candidate, Stays, NameBeside, NameIsLeft, NamesOf, Unreserved;
    var l, again := inp.batch[i], inp.(holderMac := holderMac, now := now);
    var name := NamedBatch(db, inp)[i].hostname;
    if inp.resolver.ZoneFor(l.subnet, l.ip).None? || (name == "" && Candidate(FactsOf(db, inp), l) == "") {
      SettledIsBeside(zoneNames, db, inp, holderMac, now, i);
    } else if Unreserved(inp, l) && name != "" {
      NamedIsBeside(zoneNames, db, inp, holderMac, now, i);
    } else {
      SameCandidate(db, inp, again, l);
      assert NamesOf(NamedBatch(db, inp))[i] == name;
      LeftIsBeside(Ingest(db, inp), again, NamesOf(NamedBatch(db, inp)), i);
      MovesByName(db, inp, again, i);
    }
  }

  lemma SameCandidate(db: Tables, inp: Inputs, again: Inputs, l: Lease)
    requires again == inp.(holderMac := again.holderMac, now := again.now)
    ensures Candidate(FactsOf(Ingest(db, inp), again), l) == Candidate(FactsOf(db, inp), l)
  {
    hide Ingest;
  }

  /** Outside the zones, and for a lease with nothing to be named by, nothing moves. */
  lemma SettledIsBeside(zoneNames: map<nat, string>, db: Tables, inp: Inputs, holderMac: map<Ip, string>, now: int,
                        i: nat)
    requires Repeatable(zoneNames, db, inp) && i < |inp.batch|
    requires var l := inp.batch[i];
             inp.resolver.ZoneFor(l.subnet, l.ip).None? ||
             (NamedBatch(db, inp)[i].hostname == "" && Candidate(FactsOf(db, inp), l) == "")
    ensures var again := inp.(holderMac := holderMac, now := now);
            var names := NamesOf(NamedBatch(db, inp));
            && Stays(db, inp, again, i)
            && names[i] == NameBeside(FactsOf(Ingest(db, inp), again), inp.batch, names, i)
  {
    hide NormalizeRecordName, Named, Ingest, HeldName, PreviousName, KeptSpelling, TablesOk, InputsOk, ShortLabels,
      NoOperatorOnLeases, Ahead, SpellingStays, NameIsLeft, WantedName;
    if inp.resolver.ZoneFor(inp.batch[i].subnet, inp.batch[i].ip).None? {
      KeptStaysKept(FactsOf(db, inp), inp.batch, i);
    } else {
      UnnamedAgain(zoneNames, db, inp, holderMac, now, i);
    }
  }

  lemma NamedIsBeside(zoneNames: map<nat, string>, db: Tables, inp: Inputs, holderMac: map<Ip, string>, now: int,
                      i: nat)
    requires Repeatable(zoneNames, db, inp) && i < |inp.batch|
    requires inp.resolver.ZoneFor(inp.batch[i].subnet, inp.batch[i].ip).Some?
    requires Unreserved(inp, inp.batch[i]) && NamedBatch(db, inp)[i].hostname != ""
    ensures var again := inp.(holderMac := holderMac, now := now);
            var names := NamesOf(NamedBatch(db, inp));
            Stays(db, inp, again, i) <==> names[i] == NameBeside(FactsOf(Ingest(db, inp), again), inp.batch, names, i)
  {
    hide NormalizeRecordName, NamedBatch, Ingest, IsKept, FirstName, Repeatable, Ahead, SpellingStays, NameIsLeft,
      Unreserved;
    var l := inp.batch[i];
    NamedAgain(zoneNames, db, inp, holderMac, now, i, inp.resolver.ZoneFor(l.subnet, l.ip).value);
  }

  lemma LeftIsBeside(db: Tables, again: Inputs, names: seq<string>, i: nat)
    requires |names| == |again.batch| && i < |names|
    requires names[i] != "" || Candidate(FactsOf(db, again), again.batch[i]) != ""
    ensures NameIsLeft(db, again, names, i) <==> names[i] == NameBeside(FactsOf(db, again), again.batch, names, i)
  {
    hide FirstName, IsPending, Candidate, Ahead, IsFirstFree, OptionsOf;
    var f, l := FactsOf(db, again), again.batch[i];
    if IsPending(f, l) && Candidate(f, l) != "" {
      ChoosesExactly(f, IpsOf(again.batch), Ahead(f, again.batch, names, i), Turn(f, again.batch, i), names[i]);
    }
  }

  lemma MovesByName(db: Tables, inp: Inputs, again: Inputs, i: nat)
    requires i < |inp.batch| && again.batch == inp.batch
    requires inp.resolver.ZoneFor(inp.batch[i].subnet, inp.batch[i].ip).Some?
    requires NamedBatch(db, inp)[i].hostname != "" || Candidate(FactsOf(db, inp), inp.batch[i]) != ""
    requires !Unreserved(inp, inp.batch[i]) || NamedBatch(db, inp)[i].hostname == ""
    ensures Stays(db, inp, again, i) <==> NameIsLeft(Ingest(db, inp), again, NamesOf(NamedBatch(db, inp)), i)
  {
    hide NameIsLeft, NamedBatch, Ingest, Candidate, Unreserved;
  }

  /**
   * The same report again leaves every name as it was exactly when each unreserved name keeps its spelling and each
   * reserved or exhausted lease has the name of the record it kept, or holds none and has the first free option.
   */
  lemma SecondNamesExactly(zoneNames: map<nat, string>, db: Tables, inp: Inputs, holderMac: map<Ip, string>, now: int)
    requires Repeatable(zoneNames, db, inp)
    ensures var once := Ingest(db, inp);
            var again := inp.(holderMac := holderMac, now := now);
            NamedBatch(once, again) == NamedBatch(db, inp) <==>
            forall i :: 0 <= i < |inp.batch| ==> Stays(db, inp, again, i)
  {
    hide Ingest, Settled, NameBeside, Stays, Repeatable;
    var once, again := Ingest(db, inp), inp.(holderMac := holderMac, now := now);
    var names := NamesOf(NamedBatch(db, inp));
    assert DistinctIps(inp.batch) by { RepeatableIsDistinct(zoneNames, db, inp); }
    NamedExactly(FactsOf(once, again), inp.batch, names);
    forall i | 0 <= i < |inp.batch|
      ensures Stays(db, inp, again, i) <==> names[i] == NameBeside(FactsOf(once, again), inp.batch, names, i)
    {
      StaysIsBeside(zoneNames, db, inp, holderMac, now, i);
    }
  }

  lemma RepeatableIsDistinct(zoneNames: map<nat, string>, db: Tables, inp: Inputs)
    requires Repeatable(zoneNames, db, inp)
    ensures DistinctIps(inp.batch)
  {}

  // ---- The records ----

  ghost predicate SameTargets(inp: Inputs, a: seq<Lease>, b: seq<Lease>) {
    && |a| == |b|
    && forall i :: 0 <= i < |a| ==>
         a[i].ip == b[i].ip &&
         (Unreserved(inp, a[i]) ==> LeaseTarget(inp.resolver, a[i]) == LeaseTarget(inp.resolver, b[i]))
  }

  lemma {:induction false} TargetsJoin(resolver: Resolver, a: seq<DhcpDnsSync.Entry>, b: seq<DhcpDnsSync.Entry>)
    ensures DhcpDnsSync.Targets(resolver, a + b) == DhcpDnsSync.Targets(resolver, a) + DhcpDnsSync.Targets(resolver, b)
  {
    hide DhcpDnsSync.TargetOf;
    if b == [] {
      assert a + b == a;
    } else {
      var n := |b| - 1;
      TargetsJoin(resolver, a, b[..n]);
      assert (a + b)[..|a| + n] == a + b[..n];
    }
  }

  lemma {:induction false} SameLeaseTargets(inp: Inputs, a: seq<Lease>, b: seq<Lease>)
    requires SameTargets(inp, a, b)
    ensures var reserved := DhcpDnsSync.ReservationIps(inp.reservations);
            DhcpDnsSync.Targets(inp.resolver, DhcpDnsSync.LeaseEntries(a, reserved)) ==
            DhcpDnsSync.Targets(inp.resolver, DhcpDnsSync.LeaseEntries(b, reserved))
  {
    hide DhcpDnsSync.TargetOf, DhcpDnsSync.ReservationIps;
    if a != [] {
      var reserved := DhcpDnsSync.ReservationIps(inp.reservations);
      assert forall i :: 0 <= i < |a| - 1 ==> a[1..][i] == a[i + 1] && b[1..][i] == b[i + 1];
      SameLeaseTargets(inp, a[1..], b[1..]);
      FirstEntry(inp.resolver, a, reserved);
      FirstEntry(inp.resolver, b, reserved);
    }
  }

  lemma FirstEntry(resolver: Resolver, leases: seq<Lease>, reserved: set<Ip>)
    requires leases != []
    ensures DhcpDnsSync.Targets(resolver, DhcpDnsSync.LeaseEntries(leases, reserved)) ==
            (if leases[0].ip in reserved then [] else LeaseTarget(resolver, leases[0])) +
            DhcpDnsSync.Targets(resolver, DhcpDnsSync.LeaseEntries(leases[1..], reserved))
  {
    hide DhcpDnsSync.TargetOf;
    var l := leases[0];
    var first := if l.ip in reserved then [] else [DhcpDnsSync.Entry(l.ip, l.hostname, l.subnet, Dhcp)];
    TargetsJoin(resolver, first, DhcpDnsSync.LeaseEntries(leases[1..], reserved));
    assert first != [] ==> first[..0] == [];
  }

  lemma SameBatchTargets(db: Tables, once: Tables, inp: Inputs, again: Inputs)
    requires again == inp.(holderMac := again.holderMac, now := again.now)
    requires SameTargets(inp, NamedBatch(db, inp), NamedBatch(once, again))
    ensures TargetsOf(once, again) == TargetsOf(db, inp)
  {
    hide NamedBatch, DhcpDnsSync.Targets, DhcpDnsSync.LeaseEntries, DhcpDnsSync.ReservationIps,
      DhcpDnsSync.ReservationEntries, SameTargets;
    var reserved := DhcpDnsSync.ReservationIps(inp.reservations);
    SameLeaseTargets(inp, NamedBatch(db, inp), NamedBatch(once, again));
    TargetsJoin(inp.resolver, DhcpDnsSync.LeaseEntries(NamedBatch(db, inp), reserved),
                DhcpDnsSync.ReservationEntries(inp.reservations));
    TargetsJoin(inp.resolver, DhcpDnsSync.LeaseEntries(NamedBatch(once, again), reserved),
                DhcpDnsSync.ReservationEntries(inp.reservations));
  }

  /** An unreserved lease asks for the same record again. */
  lemma SecondName(zoneNames: map<nat, string>, db: Tables, inp: Inputs, holderMac: map<Ip, string>, now: int, i: nat)
    requires Repeatable(zoneNames, db, inp) && NoneExhausted(db, inp)
    requires i < |inp.batch| && Unreserved(inp, inp.batch[i])
    ensures var first := NamedBatch(db, inp)[i];
            var second := NamedBatch(Ingest(db, inp), inp.(holderMac := holderMac, now := now))[i];
            && LeaseTarget(inp.resolver, second) == LeaseTarget(inp.resolver, first)
            && (second == first <==> SpellingStays(db, inp, i))
  {
    hide Repeatable, NormalizeRecordName, Named, Ingest, HeldName, PreviousName, KeptSpelling, OtherName, SpellingStays,
      DhcpDnsSync.ReservationIps, LeaseTarget, Unreserved;
    var inp' := inp.(holderMac := holderMac, now := now);
    var f' := FactsOf(Ingest(db, inp), inp');
    var l := inp.batch[i];
    var zone := inp.resolver.ZoneFor(l.subnet, l.ip);
    SameLease(db, inp, i);
    SameLease(Ingest(db, inp), inp', i);
    if zone.Some? && NamedBatch(db, inp)[i].hostname != "" {
      NamedAgain(zoneNames, db, inp, holderMac, now, i, zone.value);
      KeptStaysKept(f', inp.batch, i);
      SameNameSameTarget(inp.resolver, NamedBatch(db, inp)[i], NamedBatch(Ingest(db, inp), inp')[i], zone.value);
    } else {
      StaysUnnamed(db, inp, i);
      SameWithoutName(zoneNames, db, inp, holderMac, now, i);
    }
  }

  lemma SameWithoutName(zoneNames: map<nat, string>, db: Tables, inp: Inputs, holderMac: map<Ip, string>, now: int,
                        i: nat)
    requires Repeatable(zoneNames, db, inp) && NoneExhausted(db, inp)
    requires i < |inp.batch| && Unreserved(inp, inp.batch[i])
    requires inp.resolver.ZoneFor(inp.batch[i].subnet, inp.batch[i].ip).None? || NamedBatch(db, inp)[i].hostname == ""
    ensures NamedBatch(Ingest(db, inp), inp.(holderMac := holderMac, now := now))[i] == NamedBatch(db, inp)[i]
  {
    hide Repeatable, NormalizeRecordName, Named, Ingest, HeldName, PreviousName, KeptSpelling,
      DhcpDnsSync.ReservationIps, Unreserved, NoneExhausted, NamedBatch;
    var inp' := inp.(holderMac := holderMac, now := now);
    var l := inp.batch[i];
    SameLease(db, inp, i);
    SameLease(Ingest(db, inp), inp', i);
    if inp.resolver.ZoneFor(l.subnet, l.ip).None? {
      hide Asks;
      OutsideZones(db, inp, i);
      OutsideZones(Ingest(db, inp), inp', i);
    } else {
      UnnamedStays(zoneNames, db, inp, holderMac, now, i);
    }
  }

  lemma OutsideZones(db: Tables, inp: Inputs, i: nat)
    requires i < |inp.batch| && inp.resolver.ZoneFor(inp.batch[i].subnet, inp.batch[i].ip).None?
    ensures var l := inp.batch[i];
            NamedBatch(db, inp)[i] == if l.hostname == "" then l.(hostname := VendorName(FactsOf(db, inp), l)) else l
  {
    hide Named, VendorName;
    KeptStaysKept(FactsOf(db, inp), inp.batch, i);
  }

  lemma UnnamedStays(zoneNames: map<nat, string>, db: Tables, inp: Inputs, holderMac: map<Ip, string>, now: int,
                     i: nat)
    requires Repeatable(zoneNames, db, inp) && NoneExhausted(db, inp)
    requires i < |inp.batch| && Unreserved(inp, inp.batch[i]) && NamedBatch(db, inp)[i].hostname == ""
    requires inp.resolver.ZoneFor(inp.batch[i].subnet, inp.batch[i].ip).Some?
    ensures NamedBatch(Ingest(db, inp), inp.(holderMac := holderMac, now := now))[i].hostname == ""
  {
    hide Repeatable, NormalizeRecordName, Named, Ingest, HeldName, PreviousName, KeptSpelling, TablesOk, InputsOk,
      WantedName, OptionsOf;
    var l := inp.batch[i];
    RepeatableTables(zoneNames, db, inp);
    UnnamedAgain(zoneNames, db, inp, holderMac, now, i);
  }

  lemma StaysUnnamed(db: Tables, inp: Inputs, i: nat)
    requires i < |inp.batch|
    requires var l := inp.batch[i];
             inp.resolver.ZoneFor(l.subnet, l.ip).None? || NamedBatch(db, inp)[i].hostname == ""
    ensures SpellingStays(db, inp, i)
  {}

  lemma RepeatableTables(zoneNames: map<nat, string>, db: Tables, inp: Inputs)
    requires Repeatable(zoneNames, db, inp)
    ensures TablesOk(zoneNames, db) && InputsOk(zoneNames, db, inp)
  {}

  lemma SameNameSameTarget(resolver: Resolver, a: Lease, b: Lease, zone: Zone)
    requires a.ip == b.ip && a.subnet == b.subnet && resolver.ZoneFor(a.subnet, a.ip) == Some(zone)
    requires a.hostname != "" && b.hostname != ""
    requires NormalizeRecordName(a.hostname, zone.name) == NormalizeRecordName(b.hostname, zone.name)
    ensures LeaseTarget(resolver, a) == LeaseTarget(resolver, b)
  {
    hide NormalizeRecordName;
  }

  /**
   * Naming is sticky: the same report again changes no DNS record, and an unreserved lease keeps its name letter by
   * letter exactly when its spelling stays.
   */
  lemma RepeatedReportChangesNothing(zoneNames: map<nat, string>, db: Tables, inp: Inputs, holderMac: map<Ip, string>,
                                     now: int)
    requires Repeatable(zoneNames, db, inp) && NoneExhausted(db, inp)
    ensures var once := Ingest(db, inp);
            var again := inp.(holderMac := holderMac, now := now);
            && Ingest(once, again).records == once.records && Ingest(once, again).nextId == once.nextId
            && forall i :: 0 <= i < |inp.batch| && Unreserved(inp, inp.batch[i]) ==>
                 (NamedBatch(once, again)[i] == NamedBatch(db, inp)[i] <==> SpellingStays(db, inp, i))
  {
    hide Named, Replaced, DhcpDnsSync.Entries, DhcpDnsSync.Targets, DhcpDnsSync.SyncTargets, Repeatable, NoneExhausted,
      SpellingStays, LeaseTarget, DhcpDnsSync.ReservationIps;
    var once, again := Ingest(db, inp), inp.(holderMac := holderMac, now := now);
    forall i | 0 <= i < |inp.batch|
      ensures NamedBatch(db, inp)[i].ip == NamedBatch(once, again)[i].ip == inp.batch[i].ip
      ensures Unreserved(inp, inp.batch[i]) ==>
                LeaseTarget(inp.resolver, NamedBatch(db, inp)[i]) ==
                LeaseTarget(inp.resolver, NamedBatch(once, again)[i]) &&
                (NamedBatch(once, again)[i] == NamedBatch(db, inp)[i] <==> SpellingStays(db, inp, i))
    {
      SameLease(db, inp, i);
      SameLease(once, again, i);
      if Unreserved(inp, inp.batch[i]) {
        SecondName(zoneNames, db, inp, holderMac, now, i);
      }
    }
    SameBatchTargets(db, once, inp, again);
    TargetSources(db, inp);
    RepeatableIds(zoneNames, db, inp);
    DhcpDnsSync.SyncIsIdempotent(db.records, db.nextId, DhcpDnsSync.ZoneIds(inp.resolver), TargetsOf(db, inp));
  }

  lemma RepeatableIds(zoneNames: map<nat, string>, db: Tables, inp: Inputs)
    requires Repeatable(zoneNames, db, inp)
    ensures DhcpDnsSync.ValidIds(db.records, db.nextId)
  {}

  // ---- When the conditions hold ----

  /** Every address of the batch is stored under one subnet only. */
  ghost predicate OneSubnetEach(stored: seq<Lease>, leases: seq<Lease>) {
    forall r, l :: r in stored && l in leases && r.ip == l.ip ==> r.subnet == l.subnet
  }

  lemma {:induction false} NoPreviousName(rows: seq<Lease>, ip: Ip)
    requires forall m :: m in rows ==> m.ip != ip
    ensures PreviousName(rows, ip) == ""
  {
    if rows != [] {
      NoPreviousName(rows[..|rows| - 1], ip);
    }
  }

  /** With one subnet an address every spelling stays. */
  lemma OneSubnetKeepsSpelling(db: Tables, inp: Inputs, i: nat)
    requires OneSubnetEach(db.leases, inp.batch) && i < |inp.batch|
    ensures SpellingStays(db, inp, i)
  {
    hide Retain, ByKey, NamedBatch, KeptSpelling, NormalizeRecordName;
    var l := inp.batch[i];
    var rows := Retain(ByKey(db.leases), KeysOf(inp.batch), ReservedKeys(inp.reservations), inp.now);
    ByKeyIs(db.leases);
    RetainHas(ByKey(db.leases), KeysOf(inp.batch), ReservedKeys(inp.reservations), inp.now);
    assert l in inp.batch && KeyOf(l) in KeysOf(inp.batch);
    forall m | m in rows ensures m.ip != l.ip {
      var prior :| prior in ByKey(db.leases) && m == prior.(expires := ExpiredBy(prior.expires, inp.now)) &&
                   Retains(prior, KeysOf(inp.batch), ReservedKeys(inp.reservations), inp.now);
      LookupIn(db.leases, KeyOf(prior));
    }
    NoPreviousName(rows, l.ip);
  }

  /** With fewer than 256 record names and other leases in a zone nobody is left out. */
  lemma RoomForAll(db: Tables, inp: Inputs)
    requires DistinctIps(inp.batch)
    requires forall l :: l in inp.batch && inp.resolver.ZoneFor(l.subnet, l.ip).Some? ==>
               |RecordNames(FactsOf(db, inp), inp.resolver.ZoneFor(l.subnet, l.ip).value)| + |inp.batch| <= 256
    ensures NoneExhausted(db, inp)
  {
    hide Named, Candidate, RecordNames, DhcpDnsSync.ReservationIps;
    var f := FactsOf(db, inp);
    forall i | 0 <= i < |inp.batch| && Candidate(f, inp.batch[i]) != "" &&
               inp.resolver.ZoneFor(inp.batch[i].subnet, inp.batch[i].ip).Some?
      ensures NamedBatch(db, inp)[i].hostname != ""
    {
      var l := inp.batch[i];
      assert l in inp.batch;
      AlwaysNamedInBatch(f, inp.batch, i, inp.resolver.ZoneFor(l.subnet, l.ip).value);
    }
  }
}
