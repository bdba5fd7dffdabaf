/** Concrete reports that the lease naming, the sync and the apply do not handle as one would wish. */
module DhcpCounterexamples {
  import opened Addresses
  import opened Options
  import opened DhcpTables
  import opened DnsNames
  import opened DhcpLeaseNames
  import opened DhcpLeaseRetention
  import opened DhcpLeaseSearch
  import opened DhcpRounds
  import opened DhcpStickiness
  import DhcpDnsSync

  const LAN := Zone(1, "lan")
  const ZONE_NAMES: map<nat, string> := map[1 := "lan"]

  /** One zone for every subnet and address. */
  function OneZone(): Resolver {
    Resolver((s: nat, ip: Ip) => Some("lan"), map["lan" := LAN], {"lan"})
  }

  function Given(batch: seq<Lease>, reservations: seq<Reserved>, holderMac: map<Ip, string>): Inputs {
    Inputs(batch, reservations, holderMac, OneZone(), (mac: string) => "", (duid: string) => None, 0)
  }

  lemma LanIsPlain()
    ensures NormalizeDnsName("lan") == "lan"
  {
    TrimNoop("lan");
    LowerFixed("lan");
  }

  lemma LowerOfFoo()
    ensures Lower("Foo") == "foo" == Lower("foo")
  {
    var s := Lower("Foo");
    assert s[0] == 'f' && s[1] == 'o' && s[2] == 'o';
    LowerFixed("foo");
  }

  lemma ThreeLetters(h: string)
    requires |h| == 3 && DotFree(h) && Lower(h) == "foo" && forall i :: 0 <= i < 3 ==> !IsSpace(h[i])
    ensures HostLabel(h, "lan")
  {
    LanIsPlain();
    hide NormalizeDnsName, Lower;
    assert "foo"[0] == 'f' && "lan"[0] == 'l';
    forall i | 0 <= i < 256 ensures Lower(h) + Lower(NameSuffix(i)) != "lan" {
      assert |Lower(h) + Lower(NameSuffix(i))| == 6;
    }
  }

  lemma NoDotsOrSpaces(h: string)
    requires h == "foo" || h == "Foo"
    ensures DotFree(h) && forall i :: 0 <= i < 3 ==> !IsSpace(h[i])
  {
    assert h[0] == 'f' || h[0] == 'F';
    assert h[1] == 'o' && h[2] == 'o';
  }

  lemma NormalOfFoo(h: string)
    requires h == "foo" || h == "Foo"
    ensures HostLabel(h, "lan") && Lower(h) == "foo" == NormalizeRecordName(h, "lan")
  {
    hide HostLabel, NormalizeRecordName, Lower, DotFree, IsSpace;
    LowerOfFoo();
    NoDotsOrSpaces(h);
    ThreeLetters(h);
    HostLabelNormal(h, "lan");
  }

  lemma FooIsLabel()
    ensures HostLabel("foo", "lan") && Lower("foo") == "foo" == NormalizeRecordName("foo", "lan")
    ensures NormalizeRecordName("Foo", "lan") == "foo"
  {
    hide *;
    NormalOfFoo("foo");
    NormalOfFoo("Foo");
  }

  /** Every option of a short label is a lasting name. */
  lemma LabelsLast(h: string, zoneName: string, o: string)
    requires HostLabel(h, zoneName) && |h| <= MAX_LABEL - 3 && o in OptionsOf(h)
    ensures Lasting(o, zoneName)
  {
    hide NormalizeRecordName, HostLabel, NameSuffix, Lower;
    HostLabelNormal(h, zoneName);
    var k :| 0 <= k < |OptionsOf(h)| && OptionsOf(h)[k] == o;
    LabelParts(h, zoneName);
    if k > 0 {
      assert h[..|h|] == h && o == h + NameSuffix(k - 1);
      HostSuffixNormal(h, k - 1, zoneName);
      SuffixDotFree(h, k - 1);
    }
    DotFreeIsStable(o, zoneName);
  }

  lemma LabelParts(h: string, zoneName: string)
    requires HostLabel(h, zoneName)
    ensures h != "" && DotFree(h) && Lower(h) != ""
  {}

  lemma SuffixDotFree(h: string, i: nat)
    requires DotFree(h) && i < 256
    ensures DotFree(h + NameSuffix(i))
  {
    HexIsVisible(i / 16);
    HexIsVisible(i % 16);
  }

  /** A batch of leases called foo meets the conditions of the naming results. */
  lemma FooInputs(db: Tables, inp: Inputs)
    requires inp == Given(inp.batch, inp.reservations, inp.holderMac) && DistinctIps(inp.batch)
    requires forall l :: l in inp.batch ==> l.hostname == "foo"
    ensures InputsOk(ZONE_NAMES, db, inp) && ShortLabels(inp)
  {
    hide NormalizeRecordName, HostLabel, OptionsOf, Lasting;
    FooIsLabel();
    forall l, o | l in inp.batch && o in OptionsOf(Candidate(FactsOf(db, inp), l))
      ensures Lasting(o, "lan")
    {
      LabelsLast("foo", "lan", o);
    }
  }

  // ---- The suffix search on a lone client called foo ----

  function Foo(ip: Ip, mac: Option<string>): Lease {
    Lease(Some(1), ip, mac, None, "foo", Infinite)
  }

  /** A lone lease called foo that holds no name takes foo exactly when it is free. */
  lemma LoneFoo(f: Facts, ip: Ip, mac: Option<string>)
    requires f.resolver == OneZone() && HeldName(f.records, 1, ip) == ""
    ensures |Named(f, [Foo(ip, mac)])| == 1 && Named(f, [Foo(ip, mac)])[0].(hostname := "foo") == Foo(ip, mac)
    ensures Named(f, [Foo(ip, mac)])[0].hostname == "foo" <==>
            IsFree(f, {ip}, {}, LAN, "foo", ip, VendorMac(f, Foo(ip, mac)))
  {
    hide NormalizeRecordName, IsFree, HeldName, ChooseName, Settled, VendorMac;
    FooIsLabel();
    var l := Foo(ip, mac);
    NothingAhead(f, l);
    NamedBeside(f, [l], 0);
    LoneChoice(f, Turn(f, [l], 0), ip);
  }

  lemma NothingAhead(f: Facts, l: Lease)
    requires IsPending(f, l)
    ensures forall names: seq<string> | |names| == 1 :: Ahead(f, [l], names, 0) == {}
    ensures IpsOf([l]) == {l.ip}
  {
    hide IsPending, KeptName, ClaimSet;
    assert [l][..0] == [];
    assert HeldClaim(f, l) == {} by { PendingClaimsNothing(f, l); }
    assert HeldClaims(f, [l]) == {};
  }

  lemma PendingClaimsNothing(f: Facts, l: Lease)
    requires IsPending(f, l)
    ensures HeldClaim(f, l) == {}
  {
    hide KeptName, ClaimSet, KeepsHeld;
  }

  lemma LoneChoice(f: Facts, p: Pending, ip: Ip)
    requires p.candidate == "foo" && p.zone == LAN && p.lease.ip == ip && NormalizeRecordName("foo", "lan") == "foo"
    ensures ChooseName(f, {ip}, {}, p) == "foo" <==> IsFree(f, {ip}, {}, LAN, "foo", ip, VendorMac(f, p.lease))
  {
    hide NormalizeRecordName, IsFree, NameSuffix;
    var options := OptionsOf("foo");
    assert options[0] == "foo";
    FirstFreeIsFree(f, {ip}, {}, p, options);
  }

  // ---- A reserved lease loses its name to a reservation ----

  /** Nothing stored; a lease of 0.0.0.1 called foo, reserved as bar, and 0.0.0.3 reserved as foo. */
  function Empty(): Tables {
    Tables([], 1, [])
  }

  function Reservations(): Inputs {
    Given([Foo(V4(1), None)], [Reserved(1, V4(1), "bar", true), Reserved(1, V4(3), "foo", true)], map[])
  }

  lemma NamesReserved()
    ensures DhcpDnsSync.NamedReservations(Reservations().reservations) == Reservations().reservations
    ensures DhcpDnsSync.ReservationIps(Reservations().reservations) == {V4(1), V4(3)}
  {
    var rs := Reservations().reservations;
    assert rs[1..][1..] == [] && rs[1..] == [rs[1]];
    assert DhcpDnsSync.NamedReservations(rs[1..]) == [rs[1]];
    assert rs[0] in rs && rs[1] in rs;
  }

  lemma FirstFoo()
    ensures NamedBatch(Empty(), Reservations())[0].hostname == "foo"
    ensures Repeatable(ZONE_NAMES, Empty(), Reservations())
  {
    hide NormalizeRecordName, Named, InputsOk, ShortLabels;
    var inp := Reservations();
    LoneFoo(FactsOf(Empty(), inp), V4(1), None);
    FooInputs(Empty(), inp);
  }

  lemma FooEntry(leases: seq<Lease>)
    ensures DhcpDnsSync.Entry(V4(3), "foo", Some(1), Reservation)
         in DhcpDnsSync.Entries(leases, Reservations().reservations)
  {
    hide DhcpDnsSync.LeaseEntries, DhcpDnsSync.NamedReservations, DhcpDnsSync.ReservationIps;
    NamesReserved();
    var entries := DhcpDnsSync.ReservationEntries(Reservations().reservations);
    assert entries[1] == DhcpDnsSync.Entry(V4(3), "foo", Some(1), Reservation);
    assert entries[1] in entries;
  }

  lemma FooTarget(t: DhcpDnsSync.Target)
    requires t == DhcpDnsSync.Target(1, "foo", V4(3), Reservation)
    ensures t in DhcpDnsSync.TargetOf(OneZone(), DhcpDnsSync.Entry(V4(3), "foo", Some(1), Reservation))
  {
    hide NormalizeRecordName, HostLabel, Lower;
    FooIsLabel();
  }

  lemma FooReserved(t: DhcpDnsSync.Target)
    requires t == DhcpDnsSync.Target(1, "foo", V4(3), Reservation)
    ensures t in TargetsOf(Empty(), Reservations())
  {
    hide NamedBatch, DhcpDnsSync.Targets, DhcpDnsSync.Entries, DhcpDnsSync.TargetOf;
    var inp := Reservations();
    var named := NamedBatch(Empty(), inp);
    TargetsFrom(inp.resolver, DhcpDnsSync.Entries(named, inp.reservations));
    FooEntry(named);
    FooTarget(t);
  }

  lemma OnlyReservations()
    ensures forall u :: u in TargetsOf(Empty(), Reservations()) ==> u.source == Reservation
  {
    hide NormalizeRecordName, Named, DhcpDnsSync.ReservationIps, DhcpDnsSync.Targets, DhcpDnsSync.Entries;
    var inp := Reservations();
    var named := NamedBatch(Empty(), inp);
    NamesReserved();
    SameLease(Empty(), inp, 0);
    forall u | u in TargetsOf(Empty(), inp)
      ensures u.source == Reservation
    {
      BatchTarget(inp.resolver, named, inp.reservations, u);
    }
  }

  /**
   * The first report names the lease foo and makes a record of it for the other reservation; the second finds that
   * record in the way.
   */
  lemma ReservedLeaseRenamed()
    ensures Repeatable(ZONE_NAMES, Empty(), Reservations())
    ensures NamedBatch(Empty(), Reservations())[0].hostname == "foo"
    ensures NamedBatch(Ingest(Empty(), Reservations()), Reservations())[0].hostname != "foo"
  {
    hide NormalizeRecordName, Named, DhcpDnsSync.Run, DhcpDnsSync.Targets, DhcpDnsSync.Entries, Repeatable;
    var db, inp := Empty(), Reservations();
    FirstFoo();
    var t := DhcpDnsSync.Target(1, "foo", V4(3), Reservation);
    FooReserved(t);
    OnlyReservations();
    TargetSources(db, inp);
    var ts, zones := TargetsOf(db, inp), DhcpDnsSync.ZoneIds(inp.resolver);
    DhcpDnsSync.TargetRow(db.records, db.nextId, zones, ts, t);
    var st := DhcpDnsSync.Run(DhcpDnsSync.Start(db.records, db.nextId, zones), ts);
    var r := st.records[DhcpDnsSync.Find(st.records, t)];
    var after := Ingest(db, inp);
    assert r in after.records;
    forall s | s in after.records ensures !HoldsName(s, 1, V4(1)) {
      if s.source == Dhcp {
        DhcpDnsSync.LeftRow(db.records, db.nextId, zones, ts, s);
      }
    }
    HeldNameOfNone(after.records, 1, V4(1));
    LowerOfFoo();
    assert Clashes(FactsOf(after, inp), {V4(1)}, r, V4(1), None);
    LoneFoo(FactsOf(after, inp), V4(1), None);
  }

  // ---- Another subnet's row respells a name ----

  /** The address is still stored as Foo under subnet 2, and reported as foo under subnet 1. */
  function StoredTwice(): Tables {
    Tables([], 1, [Lease(Some(2), V4(1), None, None, "Foo", Infinite)])
  }

  function Reported(): Inputs {
    Given([Foo(V4(1), None)], [], map[])
  }

  lemma FirstFooOfTwo()
    ensures Repeatable(ZONE_NAMES, StoredTwice(), Reported()) && NoneExhausted(StoredTwice(), Reported())
    ensures NamedBatch(StoredTwice(), Reported())[0].hostname == "foo"
  {
    hide NormalizeRecordName, Named, InputsOk, ShortLabels;
    var db, inp := StoredTwice(), Reported();
    LoneFoo(FactsOf(db, inp), V4(1), None);
    FooInputs(db, inp);
  }

  lemma FooLosesToFoo()
    requires NamedBatch(StoredTwice(), Reported())[0].hostname == "foo"
    ensures !SpellingStays(StoredTwice(), Reported(), 0)
  {
    hide NormalizeRecordName, NamedBatch, OtherName, HostLabel, Lower;
    FooIsLabel();
    OtherIsFoo();
    assert "Foo"[0] == 'F' && "foo"[0] == 'f';
  }

  /** The first report stores foo, the second another spelling of it. */
  lemma OtherSubnetRespells()
    ensures Repeatable(ZONE_NAMES, StoredTwice(), Reported()) && NoneExhausted(StoredTwice(), Reported())
    ensures NamedBatch(StoredTwice(), Reported())[0].hostname == "foo"
    ensures NamedBatch(Ingest(StoredTwice(), Reported()), Reported())[0].hostname != "foo"
  {
    hide NamedBatch, Repeatable, NoneExhausted, Ingest, SpellingStays, DhcpDnsSync.ReservationIps;
    var db, inp := StoredTwice(), Reported();
    FirstFooOfTwo();
    FooLosesToFoo();
    OtherIsFoo();
    SameLease(db, inp, 0);
    SameLease(Ingest(db, inp), inp, 0);
    RepeatedReportChangesNothing(ZONE_NAMES, db, inp, inp.holderMac, inp.now);
    assert inp.(holderMac := inp.holderMac, now := inp.now) == inp;
  }

  lemma OtherIsFoo()
    ensures OtherName(StoredTwice(), Reported(), V4(1)) == "Foo"
    ensures DhcpDnsSync.ReservationIps(Reported().reservations) == {}
  {
    var row := StoredTwice().leases[0];
    assert [row][..0] == [] && [row][1..] == [];
    assert ByKey([row]) == Put([], row) == [row];
    var current := KeysOf(Reported().batch);
    assert KeyOf(row) !in current;
    var kept := row.(expires := At(0));
    assert Retain([row], current, {}, 0) == [kept];
    assert ReservedKeys(Reported().reservations) == {};
  }

  // ---- An apply undoes a name taken back ----

  /** The client's lapsed lease and record at 0.0.0.1, and the client back at 0.0.0.2. */
  function Lapsed(): Tables {
    Tables([Record(1, 1, "foo", A, Addr(V4(1)), Dhcp)], 2, [Foo(V4(1), Some("m"))])
  }

  function ComesBack(): Inputs {
    Given([Foo(V4(2), Some("m"))], [], map[V4(1) := "m"])
  }

  lemma {:induction false} NoOperatorsMade(before: seq<Record>, nextId: nat, zones: set<nat>,
                                           ts: seq<DhcpDnsSync.Target>)
    requires DhcpDnsSync.ValidIds(before, nextId) && DhcpDnsSync.NotReserved(ts)
    requires forall r :: r in before ==> r.source != Manual
    ensures forall r :: r in DhcpDnsSync.SyncTargets(before, nextId, zones, ts).records ==> r.source != Manual
  {
    hide DhcpDnsSync.Run, DhcpDnsSync.Answered;
    DhcpDnsSync.RunInv(before, nextId, zones, ts);
    var st := DhcpDnsSync.Run(DhcpDnsSync.Start(before, nextId, zones), ts);
    forall i | 0 <= i < |st.records|
      ensures st.records[i].source != Manual
    {
      if i < |before| {
        assert before[i] in before;
      } else {
        assert st.records[i] in st.records && st.records[i].id in st.activeIds;
        var t :| t in ts && DhcpDnsSync.RowOf(st.records, t, st.records[i]);
      }
    }
  }

  lemma FooIsHisAgain()
    ensures IsFree(FactsOf(Lapsed(), ComesBack()), {V4(2)}, {}, LAN, "foo", V4(2), Some("m"))
    ensures HeldName(Lapsed().records, 1, V4(2)) == ""
  {
    LowerFixed("m");
    HeldNameOfNone(Lapsed().records, 1, V4(2));
  }

  lemma LapsedIsOk()
    ensures TablesOk(ZONE_NAMES, Lapsed()) && InputsOk(ZONE_NAMES, Lapsed(), ComesBack())
  {
    hide NormalizeRecordName, InputsOk, HostLabel, Lower, ShortLabels;
    FooIsLabel();
    FooInputs(Lapsed(), ComesBack());
  }

  lemma TakesFooBack()
    ensures NamedBatch(Lapsed(), ComesBack()) == [Foo(V4(2), Some("m"))]
  {
    hide NormalizeRecordName, Named, IsFree, HeldName;
    FooIsHisAgain();
    LoneFoo(FactsOf(Lapsed(), ComesBack()), V4(2), Some("m"));
  }

  lemma FooTargets(ip: Ip)
    requires ip.V4?
    ensures LeaseTarget(OneZone(), Foo(ip, Some("m"))) == [DhcpDnsSync.Target(1, "foo", ip, Dhcp)]
  {
    hide NormalizeRecordName, HostLabel, Lower;
    FooIsLabel();
  }

  lemma LapsedKey()
    ensures Lookup(Lapsed().leases, Key(Some(1), V4(1))) == Some(Foo(V4(1), Some("m")))
    ensures Key(Some(1), V4(1)) !in KeysOf([Foo(V4(2), Some("m"))])
    ensures Key(Some(1), V4(1)) !in ReservedKeys([]) && DhcpDnsSync.ReservationIps([]) == {}
  {}

  /** The report answers foo with 0.0.0.2 alone; an apply in the same hour answers it with both. */
  lemma TakeBackUndone()
    ensures NamedBatch(Lapsed(), ComesBack())[0].hostname == "foo"
    ensures DhcpUnique(Ingest(Lapsed(), ComesBack()).records)
    ensures !DhcpUnique(ApplyDhcp(Ingest(Lapsed(), ComesBack()), OneZone(), []).records)
  {
    hide NamedBatch, TablesOk, InputsOk, Ingest, ApplyDhcp, DhcpUnique, NoOperatorRows, LeaseTarget, Lookup, KeysOf,
      ReservedKeys, DhcpDnsSync.ReservationIps;
    var db, inp := Lapsed(), ComesBack();
    var t, u := DhcpDnsSync.Target(1, "foo", V4(2), Dhcp), DhcpDnsSync.Target(1, "foo", V4(1), Dhcp);
    TakesFooBack();
    LapsedIsOk();
    LapsedKey();
    FooTargets(V4(1));
    FooTargets(V4(2));
    NobodyOperates(db, inp);
    ApplyUndoesTakeBack(ZONE_NAMES, db, inp, 0, Key(Some(1), V4(1)), t, u);
  }

  lemma NobodyOperates(db: Tables, inp: Inputs)
    requires db == Lapsed() && inp == ComesBack()
    ensures NoOperatorRows(Ingest(db, inp).records, StoredTargets(Ingest(db, inp), inp.resolver, inp.reservations))
  {
    hide NamedBatch, DhcpDnsSync.SyncTargets, TargetsOf, StoredTargets;
    assert DhcpDnsSync.ValidIds(db.records, db.nextId);
    TargetSources(db, inp);
    NoOperatorsMade(db.records, db.nextId, DhcpDnsSync.ZoneIds(inp.resolver), TargetsOf(db, inp));
  }
}
