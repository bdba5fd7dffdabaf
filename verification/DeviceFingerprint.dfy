/**
 * Passive device fingerprints and their drift log (server/src/models/device-fingerprint.js), fed by the DHCP log
 * watcher (server/src/utils/dhcp-fingerprint.js).
 */
module DeviceFingerprint {
  import opened Options
  import opened DnsNames
  import opened DeviceClassifier

  datatype Field = DeviceType | OsFamily | VendorClass

  datatype Row = Row(dhcpFingerprint: Option<string>, vendorClass: Option<string>, dhcpHostname: Option<string>,
                     deviceType: Option<string>, osFamily: Option<string>, confidence: int, source: string,
                     raw: Option<string>)
  {
    function Get(f: Field): Option<string> {
      match f
      case DeviceType => deviceType
      case OsFamily => osFamily
      case VendorClass => vendorClass
    }
  }

  /** One DHCP transaction's evidence; confidence None is one that is no integer. */
  datatype Capture = Capture(mac: string, dhcpFingerprint: Option<string>, vendorClass: Option<string>,
                             dhcpHostname: Option<string>, deviceType: Option<string>, osFamily: Option<string>,
                             confidence: Option<int>, source: string, raw: Option<string>)
  {
    function Get(f: Field): Option<string> {
      match f
      case DeviceType => deviceType
      case OsFamily => osFamily
      case VendorClass => vendorClass
    }

    function Confidence(): int {
      if confidence.Some? then confidence.value else 0
    }
  }

  datatype Change = Change(mac: string, field: Field, previous: string, next: string)

  datatype Store = Store(rows: map<string, Row>, log: seq<Change>)

  datatype Action =
    | Captured(c: Capture)
    | Overridden(mac: string, deviceType: Option<string>, osFamily: Option<string>)
    | Cleared(mac: string)

  const DRIFT_FIELDS := [DeviceType, OsFamily, VendorClass]

  function Coalesce(a: Option<string>, b: Option<string>): Option<string> {
    if a.Some? then a else b
  }

  // ---- The upsert ----

  function Inserted(c: Capture): Row {
    Row(c.dhcpFingerprint, c.vendorClass, c.dhcpHostname, c.deviceType, c.osFamily, c.Confidence(),
        if c.source == "" then "dhcp" else c.source, c.raw)
  }

  /** The CASE of a classified column. */
  function Classified(row: Row, c: Capture, stored: Option<string>, seen: Option<string>): Option<string> {
    if row.source == "manual" then stored
    else if stored == None then seen
    else if c.Confidence() >= row.confidence then Coalesce(seen, stored)
    else stored
  }

  function Refreshed(row: Row, c: Capture): Row {
    Row(Coalesce(c.dhcpFingerprint, row.dhcpFingerprint), Coalesce(c.vendorClass, row.vendorClass),
        Coalesce(c.dhcpHostname, row.dhcpHostname), Classified(row, c, row.deviceType, c.deviceType),
        Classified(row, c, row.osFamily, c.osFamily),
        if row.source != "manual" && c.Confidence() > row.confidence then c.Confidence() else row.confidence,
        row.source, Coalesce(c.raw, row.raw))
  }

  predicate Drifts(before: Row, after: Row, f: Field) {
    Known(before.Get(f)) && Known(after.Get(f)) && before.Get(f) != after.Get(f)
  }

  function DriftOf(mac: string, before: Row, after: Row, fields: seq<Field>): seq<Change> {
    if fields == [] then []
    else
      var f := fields[|fields| - 1];
      DriftOf(mac, before, after, fields[..|fields| - 1]) +
      if Drifts(before, after, f) then [Change(mac, f, before.Get(f).value, after.Get(f).value)] else []
  }

  function Step(s: Store, a: Action): Store {
    match a
    case Captured(c) =>
      var mac := Lower(c.mac);
      if mac in s.rows then
        var after := Refreshed(s.rows[mac], c);
        Store(s.rows[mac := after], s.log + DriftOf(mac, s.rows[mac], after, DRIFT_FIELDS))
      else
        s.(rows := s.rows[mac := Inserted(c)])
    case Overridden(m, deviceType, osFamily) =>
      var mac := Lower(m);
      var row := if mac in s.rows then s.rows[mac] else Row(None, None, None, None, None, 0, "", None);
      s.(rows := s.rows[mac := row.(deviceType := deviceType, osFamily := osFamily, confidence := 100,
                                    source := "manual")])
    case Cleared(m) =>
      var mac := Lower(m);
      if mac in s.rows && s.rows[mac].source == "manual" then s.(rows := s.rows - {mac}) else s
  }

  function Run(s: Store, actions: seq<Action>): Store
    decreases |actions|
  {
    if actions == [] then s else Step(Run(s, actions[..|actions| - 1]), actions[|actions| - 1])
  }

  function Captures(cs: seq<Capture>): seq<Action> {
    seq(|cs|, i requires 0 <= i < |cs| => Captured(cs[i]))
  }

  function After(s: Store, cs: seq<Capture>): Store {
    Run(s, Captures(cs))
  }

  lemma AfterLast(s: Store, cs: seq<Capture>)
    ensures cs != [] ==> After(s, cs) == Step(After(s, cs[..|cs| - 1]), Captured(cs[|cs| - 1]))
    ensures cs == [] ==> After(s, cs) == s
  {
    if cs != [] {
      assert Captures(cs)[..|cs| - 1] == Captures(cs[..|cs| - 1]);
    }
  }

  // ---- The captures the program makes ----

  /** A finished DHCP exchange; what it leaves out is taken from the stored row. */
  datatype Exchange = Exchange(mac: string, opt55: Option<string>, opt60: Option<string>, hostname: Option<string>)

  function Supplied(sent: Option<string>, stored: Option<string>): Option<string> {
    if Known(sent) then sent else if Known(stored) then stored else None
  }

  /** persist: the evidence, and what the classifier makes of the candidates it matched. */
  function Persisted(s: Store, x: Exchange, candidates: seq<Candidate>, raw: string): Capture {
    var mac, found := Lower(x.mac), Classify(candidates);
    var row := if mac in s.rows then s.rows[mac] else Row(None, None, None, None, None, 0, "", None);
    Capture(x.mac, Supplied(x.opt55, row.dhcpFingerprint), Supplied(x.opt60, row.vendorClass),
            Supplied(x.hostname, row.dhcpHostname), found.deviceType, found.os, Some(found.confidence), "dhcp",
            Some(raw))
  }

  /** What holds of every such capture. */
  predicate IsOwn(c: Capture) {
    && c.source == "dhcp" && c.Confidence() >= 0
    && c.deviceType != Some("") && c.osFamily != Some("") && c.vendorClass != Some("")
    && (c.deviceType == None ==> c.Confidence() == 0)
  }

  lemma PersistedIsOwn(s: Store, x: Exchange, candidates: seq<Candidate>, raw: string)
    requires forall c :: c in candidates ==> FromRules(c)
    ensures IsOwn(Persisted(s, x, candidates, raw))
  {
    hide Classify, FromRules;
    TypelessIsZero(candidates);
  }

  // ---- What captures never do ----

  /** No capture touches what an operator set, on any device, for as long as the override stands. */
  lemma {:induction false} ManualIsSticky(s: Store, cs: seq<Capture>, mac: string)
    requires mac in s.rows && s.rows[mac].source == "manual"
    ensures mac in After(s, cs).rows
    ensures var was, now := s.rows[mac], After(s, cs).rows[mac];
            && now.source == "manual" && now.confidence == was.confidence
            && now.deviceType == was.deviceType && now.osFamily == was.osFamily
    decreases |cs|
  {
    AfterLast(s, cs);
    if cs != [] {
      hide Run, After, DriftOf, Lower;
      ManualIsSticky(s, cs[..|cs| - 1], mac);
    }
  }

  /** Over captures a row stays, its source stays, its confidence never falls and a stored column never becomes NULL. */
  lemma {:induction false} CapturesOnlyStrengthen(s: Store, cs: seq<Capture>, mac: string)
    requires mac in s.rows
    ensures mac in After(s, cs).rows
    ensures var was, now := s.rows[mac], After(s, cs).rows[mac];
            && now.source == was.source && now.confidence >= was.confidence
            && forall f: Field :: was.Get(f).Some? ==> now.Get(f).Some?
    decreases |cs|
  {
    AfterLast(s, cs);
    if cs != [] {
      hide Run, After, DriftOf, Lower;
      CapturesOnlyStrengthen(s, cs[..|cs| - 1], mac);
    }
  }

  // ---- Which capture is stored ----

  predicate Mine(c: Capture, mac: string) {
    Lower(c.mac) == mac
  }

  /** A classified field: the type or the OS. */
  predicate IsClass(f: Field) {
    f == DeviceType || f == OsFamily
  }

  predicate Carries(c: Capture, mac: string, f: Field) {
    Mine(c, mac) && c.Get(f).Some?
  }

  /** No earlier capture of the device carried the field. */
  ghost predicate FirstOf(cs: seq<Capture>, mac: string, f: Field, k: nat)
    requires k <= |cs|
  {
    forall i :: 0 <= i < k ==> !Carries(cs[i], mac, f)
  }

  /** No earlier capture of the device was more confident, whether or not it carried the field. */
  ghost predicate NoneAbove(cs: seq<Capture>, mac: string, k: nat, confidence: int)
    requires k <= |cs|
  {
    forall i :: 0 <= i < k && Mine(cs[i], mac) ==> cs[i].Confidence() <= confidence
  }

  ghost predicate Wins(cs: seq<Capture>, mac: string, f: Field, k: nat)
    requires k < |cs|
  {
    Carries(cs[k], mac, f) && (FirstOf(cs, mac, f, k) || NoneAbove(cs, mac, k, cs[k].Confidence()))
  }

  ghost predicate NoneManual(cs: seq<Capture>) {
    forall c :: c in cs ==> c.source != "manual"
  }

  /** The row of a device first seen in these captures: its confidence is the highest of theirs. */
  lemma {:induction false} FreshRow(s: Store, cs: seq<Capture>, mac: string, f: Field)
    requires mac !in s.rows && NoneManual(cs) && IsClass(f)
    ensures mac in After(s, cs).rows <==> exists i :: 0 <= i < |cs| && Mine(cs[i], mac)
    ensures mac in After(s, cs).rows ==>
              var row := After(s, cs).rows[mac];
              && row.source != "manual"
              && (forall c: int :: row.confidence <= c <==> NoneAbove(cs, mac, |cs|, c))
              && (row.Get(f) == None <==> FirstOf(cs, mac, f, |cs|))
    decreases |cs|
  {
    hide Run, After, DriftOf, Lower, Mine;
    AfterLast(s, cs);
    if cs != [] {
      var n := |cs| - 1;
      FreshRow(s, cs[..n], mac, f);
      assert cs[n] in cs && forall i :: 0 <= i < n ==> cs[..n][i] == cs[i];
      FreshStep(After(s, cs[..n]), cs[n], mac, f);
      assert forall c: int :: NoneAbove(cs, mac, |cs|, c) <==>
        NoneAbove(cs[..n], mac, n, c) && (Mine(cs[n], mac) ==> cs[n].Confidence() <= c);
      assert FirstOf(cs, mac, f, |cs|) <==> FirstOf(cs[..n], mac, f, n) && !Carries(cs[n], mac, f);
    }
  }

  /** What one capture does to the row of a device no operator touched. */
  lemma FreshStep(s: Store, c: Capture, mac: string, f: Field)
    requires IsClass(f) && c.source != "manual" && (mac in s.rows ==> s.rows[mac].source != "manual")
    ensures var after := Step(s, Captured(c));
            && (mac in after.rows <==> mac in s.rows || Mine(c, mac))
            && (mac in s.rows && !Mine(c, mac) ==> after.rows[mac] == s.rows[mac])
            && (mac !in s.rows && Mine(c, mac) ==>
                  after.rows[mac].source != "manual" && after.rows[mac].confidence == c.Confidence() &&
                  after.rows[mac].Get(f) == c.Get(f))
            && (mac in s.rows && Mine(c, mac) ==>
                  var was, now := s.rows[mac], after.rows[mac];
                  && now.source != "manual"
                  && now.confidence == (if c.Confidence() > was.confidence then c.Confidence() else was.confidence)
                  && now.Get(f) == if c.Get(f).Some? && (was.Get(f) == None || c.Confidence() >= was.confidence)
                                   then c.Get(f) else was.Get(f))
  {
    hide Run, After, DriftOf, Lower;
  }

  /**
   * A classified capture is stored exactly when it is the device's first one or no earlier capture was more confident;
   * otherwise what was stored stays.
   */
  lemma CaptureStoredExactly(s: Store, cs: seq<Capture>, c: Capture, mac: string, f: Field)
    requires mac !in s.rows && NoneManual(cs + [c]) && IsClass(f) && Carries(c, mac, f)
    ensures mac in After(s, cs + [c]).rows
    ensures FirstOf(cs, mac, f, |cs|) || NoneAbove(cs, mac, |cs|, c.Confidence()) ==>
              After(s, cs + [c]).rows[mac].Get(f) == c.Get(f)
    ensures !(FirstOf(cs, mac, f, |cs|) || NoneAbove(cs, mac, |cs|, c.Confidence())) ==>
              mac in After(s, cs).rows && After(s, cs + [c]).rows[mac].Get(f) == After(s, cs).rows[mac].Get(f)
  {
    hide Run, After, DriftOf, Lower, Mine;
    AfterLast(s, cs + [c]);
    assert (cs + [c])[..|cs|] == cs;
    assert c in cs + [c] && forall d :: d in cs ==> d in cs + [c];
    FreshRow(s, cs, mac, f);
    FreshStep(After(s, cs), c, mac, f);
  }

  ghost predicate LastWinner(cs: seq<Capture>, mac: string, f: Field, k: nat) {
    && k < |cs| && Wins(cs, mac, f, k)
    && forall j :: k < j < |cs| ==> !Wins(cs, mac, f, j)
  }

  /** The stored value is that of the last capture that won; there is none when nothing carried the field. */
  lemma {:induction false} StoredIsLastWinner(s: Store, cs: seq<Capture>, mac: string, f: Field) returns (k: int)
    requires mac !in s.rows && NoneManual(cs) && IsClass(f)
    ensures k < 0 <==> FirstOf(cs, mac, f, |cs|)
    ensures k >= 0 ==> LastWinner(cs, mac, f, k) && mac in After(s, cs).rows &&
                       After(s, cs).rows[mac].Get(f) == cs[k].Get(f)
    decreases |cs|
  {
    hide Run, After, DriftOf, Lower, Mine;
    k := -1;
    if cs != [] {
      var n := |cs| - 1;
      k := StoredIsLastWinner(s, cs[..n], mac, f);
      assert cs[..n] + [cs[n]] == cs && cs[n] in cs;
      FreshRow(s, cs[..n], mac, f);
      AfterLast(s, cs);
      FreshStep(After(s, cs[..n]), cs[n], mac, f);
      WinsPrefix(cs, mac, f);
      if Wins(cs, mac, f, n) {
        k := n;
      }
    }
  }

  lemma WinsPrefix(cs: seq<Capture>, mac: string, f: Field)
    requires cs != []
    ensures var n := |cs| - 1;
            && (forall k :: 0 <= k < n ==> (Wins(cs, mac, f, k) <==> Wins(cs[..n], mac, f, k)))
            && (forall c: int :: NoneAbove(cs, mac, n, c) <==> NoneAbove(cs[..n], mac, n, c))
            && (FirstOf(cs, mac, f, n) <==> FirstOf(cs[..n], mac, f, n))
            && (FirstOf(cs, mac, f, n + 1) <==> FirstOf(cs, mac, f, n) && !Carries(cs[n], mac, f))
  {
    hide Lower, Mine, Carries;
    var n := |cs| - 1;
    assert forall i :: 0 <= i < n ==> cs[..n][i] == cs[i];
    forall k | 0 <= k < n
      ensures Wins(cs, mac, f, k) <==> Wins(cs[..n], mac, f, k)
    {
      assert FirstOf(cs, mac, f, k) <==> FirstOf(cs[..n], mac, f, k);
      assert NoneAbove(cs, mac, k, cs[k].Confidence()) <==> NoneAbove(cs[..n], mac, k, cs[k].Confidence());
    }
  }

  /** The last of the most confident captures among those that carry the field. */
  ghost predicate IsStrongest(cs: seq<Capture>, mac: string, f: Field, k: nat) {
    && k < |cs| && Carries(cs[k], mac, f)
    && (forall i :: 0 <= i < |cs| && Carries(cs[i], mac, f) ==> cs[i].Confidence() <= cs[k].Confidence())
    && forall i :: k < i < |cs| && Carries(cs[i], mac, f) ==> cs[i].Confidence() < cs[k].Confidence()
  }

  /**
   * The strongest classification is what is stored exactly when it came first or nothing before it was more confident,
   * the captures without a classification included.
   */
  lemma StrongestKeptExactly(s: Store, cs: seq<Capture>, mac: string, f: Field, k: nat)
    requires mac !in s.rows && NoneManual(cs) && IsClass(f) && IsStrongest(cs, mac, f, k)
    requires forall j :: 0 <= j < |cs| && j != k && Carries(cs[j], mac, f) ==> cs[j].Get(f) != cs[k].Get(f)
    ensures mac in After(s, cs).rows
    ensures After(s, cs).rows[mac].Get(f) == cs[k].Get(f) <==>
            FirstOf(cs, mac, f, k) || NoneAbove(cs, mac, k, cs[k].Confidence())
  {
    hide After, Lower, Mine;
    var j := StoredIsLastWinner(s, cs, mac, f);
    assert Carries(cs[j], mac, f);
    if Wins(cs, mac, f, k) {
      StrongestWinsLast(cs, mac, f, k);
    }
  }

  lemma StrongestWinsLast(cs: seq<Capture>, mac: string, f: Field, k: nat)
    requires IsStrongest(cs, mac, f, k) && Wins(cs, mac, f, k)
    ensures LastWinner(cs, mac, f, k)
  {
    hide Lower, Mine;
    assert Carries(cs[k], mac, f);
  }

  /** When each capture carries a classification, the last of the strongest ones is what is stored. */
  lemma StrongestWins(s: Store, cs: seq<Capture>, mac: string, f: Field, k: nat)
    requires mac !in s.rows && NoneManual(cs) && IsClass(f) && IsStrongest(cs, mac, f, k)
    requires forall c :: c in cs && Mine(c, mac) ==> c.Get(f).Some?
    ensures mac in After(s, cs).rows && After(s, cs).rows[mac].Get(f) == cs[k].Get(f)
  {
    hide After, Lower, Mine;
    var j := StoredIsLastWinner(s, cs, mac, f);
    assert forall i :: 0 <= i < |cs| ==> cs[i] in cs;
    assert Wins(cs, mac, f, k);
    StrongestWinsLast(cs, mac, f, k);
  }

  /** So the program's own captures always leave the strongest type stored: without a type they carry no confidence. */
  lemma OwnTypeIsStrongest(s: Store, cs: seq<Capture>, mac: string, k: nat)
    requires mac !in s.rows && (forall c :: c in cs ==> IsOwn(c)) && IsStrongest(cs, mac, DeviceType, k)
    ensures mac in After(s, cs).rows && After(s, cs).rows[mac].deviceType == cs[k].deviceType
  {
    hide After, Lower, Mine;
    var j := StoredIsLastWinner(s, cs, mac, DeviceType);
    assert forall i :: 0 <= i < |cs| ==> cs[i] in cs;
    assert Wins(cs, mac, DeviceType, k);
    StrongestWinsLast(cs, mac, DeviceType, k);
  }

  /**
   * Otherwise it may not be: a capture that leaves the field out still raises the confidence, and then keeps out a
   * later value that is more certain than the stored one.
   */
  lemma MissingFieldShields(s: Store, weak: Capture, silent: Capture, better: Capture, f: Field)
    requires Lower(weak.mac) == Lower(silent.mac) == Lower(better.mac) && Lower(weak.mac) !in s.rows
    requires IsClass(f) && weak.Get(f).Some? && silent.Get(f) == None && weak.source != "manual"
    requires weak.Confidence() < better.Confidence() < silent.Confidence()
    ensures Lower(weak.mac) in After(s, [weak, silent, better]).rows
    ensures After(s, [weak, silent, better]).rows[Lower(weak.mac)].Get(f) == weak.Get(f)
  {
    hide Run, After, DriftOf, Lower;
    var cs := [weak, silent, better];
    AfterLast(s, cs);
    assert cs[..2] == [weak, silent];
    AfterLast(s, cs[..2]);
    assert cs[..2][..1] == [weak];
    AfterLast(s, [weak]);
    assert [weak][..0] == [];
    AfterLast(s, []);
  }

  /** What the rules make of a BusyBox client, of a booting printer, and of Apple's option list but for one code. */
  const BUSYBOX := [Candidate(Some("Linux"), Some("IoT"), 45, Opt60)]
  const PRINTER := [Candidate(None, Some("Computer"), 40, Opt60), Candidate(None, Some("Printer"), 65, Hostname)]
  const PHONE := [Candidate(Some("Apple iOS"), Some("Smartphone"), 60, Opt55)]

  lemma ThreeClasses()
    ensures Classify(BUSYBOX) == Classification(Some("IoT"), Some("Linux"), 45)
    ensures Classify(PRINTER) == Classification(Some("Printer"), None, 65)
    ensures Classify(PHONE) == Classification(Some("Smartphone"), Some("Apple iOS"), 60)
    ensures forall c :: c in BUSYBOX + PRINTER + PHONE ==> FromRules(c)
  {
    OneClass(BUSYBOX[0]);
    OneClass(PHONE[0]);
    assert BUSYBOX == [BUSYBOX[0]] && PHONE == [PHONE[0]];
    assert PRINTER[..1] == [PRINTER[0]] && PRINTER[..1][..0] == [];
    assert BestOf(PRINTER[..1], OfOs) == Best(None, 0) && BestOf(PRINTER[..1], OfType) == Best(Some("Computer"), 40);
    IsFromRule(BUSYBOX[0], 3);
    IsFromRule(PRINTER[0], 4);
    IsFromRule(PRINTER[1], 8);
    IsFromRule(PHONE[0], 3);
  }

  lemma IsFromRule(c: Candidate, i: nat)
    requires i < |RulesOf(c.signal)| && Matches(c, RulesOf(c.signal)[i])
    ensures FromRules(c)
  {
    assert RulesOf(c.signal)[i] in RulesOf(c.signal);
  }

  lemma OneClass(c: Candidate)
    requires Known(c.os) && Known(c.deviceType) && 0 < c.confidence
    ensures Classify([c]) == Classification(c.deviceType, c.os, c.confidence)
  {
    assert [c][..0] == [];
    assert BestOf([], OfOs) == BestOf([], OfType) == Best(None, 0);
    assert SignalsFor([c], c.os.value) == {c.signal} && |{c.signal}| == 1;
  }

  /** One address, three exchanges: the phone's OS, seen at 60, is kept out by the printer's 65, which says no OS. */
  lemma MissingOsShields(x: Exchange, y: Exchange, z: Exchange, raw: string) returns (cs: seq<Capture>)
    requires Lower(x.mac) == Lower(y.mac) == Lower(z.mac)
    ensures var s := Store(map[], []);
            && |cs| == 3 && cs[0] == Persisted(s, x, BUSYBOX, raw)
            && cs[1] == Persisted(After(s, cs[..1]), y, PRINTER, raw)
            && cs[2] == Persisted(After(s, cs[..2]), z, PHONE, raw)
            && (forall c :: c in cs ==> IsOwn(c))
            && IsStrongest(cs, Lower(x.mac), OsFamily, 2) && cs[2].osFamily == Some("Apple iOS")
            && Lower(x.mac) in After(s, cs).rows && After(s, cs).rows[Lower(x.mac)].osFamily == Some("Linux")
  {
    hide Lower, After, Classify, FromRules;
    ThreeClasses();
    var s := Store(map[], []);
    var a := Persisted(s, x, BUSYBOX, raw);
    var b := Persisted(After(s, [a]), y, PRINTER, raw);
    var c := Persisted(After(s, [a, b]), z, PHONE, raw);
    cs := [a, b, c];
    assert cs[..1] == [a] && cs[..2] == [a, b];
    MissingFieldShields(s, a, b, c, OsFamily);
  }

  // ---- The drift log ----

  /** The log of one field of one device. */
  function LogOf(log: seq<Change>, mac: string, f: Field): seq<Change> {
    if log == [] then []
    else
      var last := log[|log| - 1];
      LogOf(log[..|log| - 1], mac, f) + if last.mac == mac && last.field == f then [last] else []
  }

  lemma {:induction false} LogOfJoin(a: seq<Change>, b: seq<Change>, mac: string, f: Field)
    ensures LogOf(a + b, mac, f) == LogOf(a, mac, f) + LogOf(b, mac, f)
    decreases |b|
  {
    if b == [] {
      assert a + b == a;
    } else {
      LogOfJoin(a, b[..|b| - 1], mac, f);
      assert (a + b)[..|a + b| - 1] == a + b[..|b| - 1];
    }
  }

  lemma {:induction false} DriftInTurn(mac: string, before: Row, after: Row, fields: seq<Field>, m: string, f: Field)
    requires forall i, j :: 0 <= i < j < |fields| ==> fields[i] != fields[j]
    ensures LogOf(DriftOf(mac, before, after, fields), m, f) ==
            if m == mac && f in fields then OneDrift(mac, before, after, f) else []
  {
    hide *;
    if fields == [] {
      NoDrift(mac, before, after, m, f);
    } else {
      var n := |fields| - 1;
      var g := fields[n];
      DriftInTurn(mac, before, after, fields[..n], m, f);
      OneLogged(mac, before, after, g, m, f);
      DriftLast(mac, before, after, fields);
      LogOfJoin(DriftOf(mac, before, after, fields[..n]), OneDrift(mac, before, after, g), m, f);
      assert f in fields <==> f in fields[..n] || f == g;
    }
  }

  lemma NoDrift(mac: string, before: Row, after: Row, m: string, f: Field)
    ensures LogOf(DriftOf(mac, before, after, []), m, f) == []
  {}

  lemma DriftLast(mac: string, before: Row, after: Row, fields: seq<Field>)
    requires fields != []
    ensures DriftOf(mac, before, after, fields) ==
            DriftOf(mac, before, after, fields[..|fields| - 1]) + OneDrift(mac, before, after, fields[|fields| - 1])
  {}

  /** A capture logs a field at most once, under its own device. */
  lemma DriftLogged(mac: string, before: Row, after: Row, m: string, f: Field)
    ensures LogOf(DriftOf(mac, before, after, DRIFT_FIELDS), m, f) ==
            if m == mac then OneDrift(mac, before, after, f) else []
  {
    DriftInTurn(mac, before, after, DRIFT_FIELDS, m, f);
    match f {
      case DeviceType => assert f == DRIFT_FIELDS[0];
      case OsFamily => assert f == DRIFT_FIELDS[1];
      case VendorClass => assert f == DRIFT_FIELDS[2];
    }
  }

  function OneDrift(mac: string, before: Row, after: Row, f: Field): seq<Change> {
    if Drifts(before, after, f) then [Change(mac, f, before.Get(f).value, after.Get(f).value)] else []
  }

  lemma OneLogged(mac: string, before: Row, after: Row, g: Field, m: string, f: Field)
    ensures LogOf(OneDrift(mac, before, after, g), m, f) ==
            if m == mac && f == g then OneDrift(mac, before, after, g) else []
  {
    var one := OneDrift(mac, before, after, g);
    assert one != [] ==> one[..0] == [];
  }

  ghost predicate Linked(log: seq<Change>) {
    && (forall i :: 0 <= i < |log| ==> log[i].previous != "" && log[i].next != "")
    && forall i :: 0 < i < |log| ==> log[i].previous == log[i - 1].next
  }

  /** Each previous value is the last new one, and the last new one is the value stored. */
  ghost predicate Chained(s: Store, mac: string, f: Field) {
    var log := LogOf(s.log, mac, f);
    && Linked(log)
    && (log != [] ==> mac in s.rows && s.rows[mac].Get(f) == Some(log[|log| - 1].next))
  }

  /** The capture overwrites a value the log ends in with the empty string, which counts as no drift. */
  predicate Empties(s: Store, c: Capture, f: Field) {
    var mac := Lower(c.mac);
    && mac in s.rows && LogOf(s.log, mac, f) != [] && c.Get(f) == Some("")
    && (f == VendorClass || (s.rows[mac].source != "manual" && c.Confidence() >= s.rows[mac].confidence))
  }

  lemma CaptureLog(s: Store, c: Capture, mac: string, f: Field)
    ensures var after := Step(s, Captured(c));
            LogOf(after.log, mac, f) == LogOf(s.log, mac, f) +
              if mac == Lower(c.mac) && mac in s.rows then OneDrift(mac, s.rows[mac], after.rows[mac], f) else []
  {
    hide LogOf, DriftOf, Lower;
    if Lower(c.mac) in s.rows {
      var m := Lower(c.mac);
      var after := Refreshed(s.rows[m], c);
      LogOfJoin(s.log, DriftOf(m, s.rows[m], after, DRIFT_FIELDS), mac, f);
      DriftLogged(m, s.rows[m], after, mac, f);
    }
  }

  /** A capture keeps the chain exactly when it empties no logged value. */
  lemma CaptureChainsExactly(s: Store, c: Capture, mac: string, f: Field)
    requires Chained(s, mac, f)
    ensures Chained(Step(s, Captured(c)), mac, f) <==> !(mac == Lower(c.mac) && Empties(s, c, f))
  {
    hide LogOf, DriftOf, Lower;
    CaptureLog(s, c, mac, f);
    var after := Step(s, Captured(c));
    var log := LogOf(s.log, mac, f);
    if mac == Lower(c.mac) && mac in s.rows {
      var one := OneDrift(mac, s.rows[mac], after.rows[mac], f);
      StoredValue(s.rows[mac], c, f);
      LinkedNext(log, one);
    } else {
      assert log + [] == log;
    }
  }

  /** What a capture leaves in a field: the fresh value or the stored one. */
  lemma StoredValue(row: Row, c: Capture, f: Field)
    ensures var now := Refreshed(row, c).Get(f);
            now == if c.Get(f).Some? && (f == VendorClass || (row.source != "manual" &&
                        (row.Get(f) == None || c.Confidence() >= row.confidence))) then c.Get(f) else row.Get(f)
  {}

  lemma LinkedNext(log: seq<Change>, one: seq<Change>)
    requires Linked(log) && |one| <= 1
    ensures Linked(log + one) <==>
            one == [] || (one[0].previous != "" && one[0].next != "" &&
                          (log != [] ==> one[0].previous == log[|log| - 1].next))
  {
    var all := log + one;
    assert forall i :: 0 <= i < |log| ==> all[i] == log[i];
    if one != [] {
      assert all[|log|] == one[0];
    } else {
      assert all == log;
    }
  }

  /** What an override stores in a field, if it stores anything there. */
  function Dictated(deviceType: Option<string>, osFamily: Option<string>, f: Field): Option<Option<string>> {
    match f
    case DeviceType => Some(deviceType)
    case OsFamily => Some(osFamily)
    case VendorClass => None
  }

  /** The action leaves the value the log ends in behind: emptied, overridden away from it, or the row dropped. */
  predicate Breaks(s: Store, a: Action, mac: string, f: Field) {
    var log := LogOf(s.log, mac, f);
    match a
    case Captured(c) => mac == Lower(c.mac) && Empties(s, c, f)
    case Overridden(m, deviceType, osFamily) =>
      var told := Dictated(deviceType, osFamily, f);
      mac == Lower(m) && log != [] && told.Some? && told.value != Some(log[|log| - 1].next)
    case Cleared(m) => mac == Lower(m) && log != [] && mac in s.rows && s.rows[mac].source == "manual"
  }

  /** One action of any kind keeps the chain exactly when it leaves no logged value behind. */
  lemma StepChainsExactly(s: Store, a: Action, mac: string, f: Field)
    requires Chained(s, mac, f)
    ensures Chained(Step(s, a), mac, f) <==> !Breaks(s, a, mac, f)
  {
    match a {
      case Captured(c) =>
        CaptureChainsExactly(s, c, mac, f);
      case Overridden(m, deviceType, osFamily) =>
        hide LogOf, Lower;
      case Cleared(m) =>
        hide LogOf, Lower;
    }
  }

  ghost predicate ChainedThroughout(s: Store, actions: seq<Action>, mac: string, f: Field) {
    forall k :: 0 <= k <= |actions| ==> Chained(Run(s, actions[..k]), mac, f)
  }

  ghost predicate NeverBreaks(s: Store, actions: seq<Action>, mac: string, f: Field) {
    forall k :: 0 <= k < |actions| ==> !Breaks(Run(s, actions[..k]), actions[k], mac, f)
  }

  /** Over any run of captures, overrides and clears the chain holds at every point exactly when no action breaks it. */
  lemma {:induction false} RunChainsExactly(s: Store, actions: seq<Action>, mac: string, f: Field)
    requires Chained(s, mac, f)
    ensures ChainedThroughout(s, actions, mac, f) <==> NeverBreaks(s, actions, mac, f)
    decreases |actions|
  {
    hide *;
    ThroughoutNext(s, actions, mac, f);
    NeverNext(s, actions, mac, f);
    if actions != [] {
      var n := |actions| - 1;
      RunChainsExactly(s, actions[..n], mac, f);
      LastChained(s, actions[..n], mac, f);
      if Chained(Run(s, actions[..n]), mac, f) {
        StepChainsExactly(Run(s, actions[..n]), actions[n], mac, f);
      }
    }
  }

  lemma ThroughoutNext(s: Store, actions: seq<Action>, mac: string, f: Field)
    ensures actions == [] ==> (ChainedThroughout(s, actions, mac, f) <==> Chained(s, mac, f))
    ensures actions != [] ==>
              var n := |actions| - 1;
              (ChainedThroughout(s, actions, mac, f) <==>
               ChainedThroughout(s, actions[..n], mac, f) &&
               Chained(Step(Run(s, actions[..n]), actions[n]), mac, f))
  {
    hide Chained, Step;
    if actions == [] {
      assert actions[..0] == [];
    } else {
      var n := |actions| - 1;
      assert forall k :: 0 <= k <= n ==> actions[..n][..k] == actions[..k];
      assert actions[..n + 1] == actions;
    }
  }

  lemma NeverNext(s: Store, actions: seq<Action>, mac: string, f: Field)
    ensures actions == [] ==> NeverBreaks(s, actions, mac, f)
    ensures actions != [] ==>
              var n := |actions| - 1;
              (NeverBreaks(s, actions, mac, f) <==>
               NeverBreaks(s, actions[..n], mac, f) && !Breaks(Run(s, actions[..n]), actions[n], mac, f))
  {
    hide Run, Breaks;
    if actions != [] {
      var n := |actions| - 1;
      assert forall k :: 0 <= k <= n ==> actions[..n][..k] == actions[..k];
    }
  }

  lemma LastChained(s: Store, actions: seq<Action>, mac: string, f: Field)
    ensures ChainedThroughout(s, actions, mac, f) ==> Chained(Run(s, actions), mac, f)
  {
    hide Chained, Run;
    assert actions[..|actions|] == actions;
  }

  /** The program's own captures hand in nothing empty, so they never break a chain. */
  lemma OwnCapturesKeepChain(s: Store, cs: seq<Capture>, mac: string, f: Field)
    requires Chained(s, mac, f) && forall c :: c in cs ==> IsOwn(c)
    ensures ChainedThroughout(s, Captures(cs), mac, f)
  {
    hide Run, Lower, LogOf, ChainedThroughout, Chained;
    RunChainsExactly(s, Captures(cs), mac, f);
    forall k | 0 <= k < |cs|
      ensures !Breaks(Run(s, Captures(cs)[..k]), Captures(cs)[k], mac, f)
    {
      assert cs[k] in cs;
    }
  }

  /** A capture of one type, at one confidence. */
  function Seen(deviceType: string): Capture {
    Capture("aa", None, None, None, Some(deviceType), None, Some(85), "dhcp", None)
  }

  /**
   * A phone becomes a computer. An override to a third type breaks the chain and one to the logged type does not, but
   * clearing that one does.
   */
  lemma OperatorBreaksChain()
    ensures var s := Run(Store(map[], []), [Captured(Seen("Smartphone")), Captured(Seen("Computer"))]);
            var told := Step(s, Overridden("aa", Some("Computer"), None));
            && Chained(s, Lower("aa"), DeviceType)
            && !Chained(Step(s, Overridden("aa", Some("Printer"), None)), Lower("aa"), DeviceType)
            && Chained(told, Lower("aa"), DeviceType)
            && !Chained(Step(told, Cleared("aa")), Lower("aa"), DeviceType)
  {
    hide Run, DriftOf, Lower, LogOf;
    var mac := Lower("aa");
    var empty := Store(map[], []);
    var phone, computer := Captured(Seen("Smartphone")), Captured(Seen("Computer"));
    var one, two := Step(empty, phone), Step(Step(empty, phone), computer);
    TwoActions(empty, phone, computer);
    NoLog(mac, DeviceType);
    CaptureLog(empty, Seen("Smartphone"), mac, DeviceType);
    CaptureLog(one, Seen("Computer"), mac, DeviceType);
    assert LogOf(two.log, mac, DeviceType) == [Change(mac, DeviceType, "Smartphone", "Computer")];
    StepChainsExactly(two, Overridden("aa", Some("Printer"), None), mac, DeviceType);
    StepChainsExactly(two, Overridden("aa", Some("Computer"), None), mac, DeviceType);
    StepChainsExactly(Step(two, Overridden("aa", Some("Computer"), None)), Cleared("aa"), mac, DeviceType);
  }

  lemma NoLog(mac: string, f: Field)
    ensures LogOf([], mac, f) == []
  {}

  lemma TwoActions(s: Store, a: Action, b: Action)
    ensures Run(s, [a, b]) == Step(Step(s, a), b)
  {
    hide Step;
    assert [a, b][..1] == [a] && [a][..0] == [];
    assert Run(s, []) == s && Run(s, [a]) == Step(s, a);
  }

  /** Captures never mend or break what an override did to the type's chain: it holds after them if and only if it
      held right after the override, which is when the override repeats the last logged type. */
  lemma OverrideOutlastsCaptures(s: Store, m: string, deviceType: Option<string>, osFamily: Option<string>,
                                 cs: seq<Capture>)
    requires Chained(s, Lower(m), DeviceType)
    ensures var log := LogOf(s.log, Lower(m), DeviceType);
            Chained(After(Step(s, Overridden(m, deviceType, osFamily)), cs), Lower(m), DeviceType) <==>
            log == [] || deviceType == Some(log[|log| - 1].next)
  {
    hide LogOf, Run, After, Lower;
    var from := Step(s, Overridden(m, deviceType, osFamily));
    ManualIsSticky(from, cs, Lower(m));
    ManualLogsNoType(from, cs, Lower(m));
  }

  lemma {:induction false} ManualLogsNoType(s: Store, cs: seq<Capture>, mac: string)
    requires mac in s.rows && s.rows[mac].source == "manual"
    ensures LogOf(After(s, cs).log, mac, DeviceType) == LogOf(s.log, mac, DeviceType)
    decreases |cs|
  {
    AfterLast(s, cs);
    if cs != [] {
      hide Run, After, DriftOf, Lower, LogOf;
      var n := |cs| - 1;
      ManualLogsNoType(s, cs[..n], mac);
      ManualIsSticky(s, cs[..n], mac);
      CaptureLog(After(s, cs[..n]), cs[n], mac, DeviceType);
    }
  }

  // ---- The table ----

  class FingerprintTable {
    var rows: map<string, Row>
    var changes: seq<Change>

    constructor (rows: map<string, Row>, changes: seq<Change>)
      ensures this.rows == rows && this.changes == changes
    {
      this.rows, this.changes := rows, changes;
    }

    ghost function Contents(): Store
      reads this
    {
      Store(rows, changes)
    }

    method LogDrift(mac: string, before: Row, after: Row)
      modifies this`changes
      ensures changes == old(changes) + DriftOf(mac, before, after, DRIFT_FIELDS)
    {
      for k := 0 to |DRIFT_FIELDS|
        invariant changes == old(changes) + DriftOf(mac, before, after, DRIFT_FIELDS[..k])
      {
        var f := DRIFT_FIELDS[k];
        var prev, next := before.Get(f), after.Get(f);
        assert DRIFT_FIELDS[..k + 1][..k] == DRIFT_FIELDS[..k];
        if Known(prev) && Known(next) && prev != next {
          changes := changes + [Change(mac, f, prev.value, next.value)];
        }
      }
      assert DRIFT_FIELDS[..|DRIFT_FIELDS|] == DRIFT_FIELDS;
    }

    method UpsertFingerprint(c: Capture)
      modifies this
      ensures Contents() == Step(old(Contents()), Captured(c))
    {
      var mac := Lower(c.mac);
      if mac in rows {
        var before := rows[mac];
        rows := rows[mac := Refreshed(before, c)];
        LogDrift(mac, before, rows[mac]);
      } else {
        rows := rows[mac := Inserted(c)];
      }
    }

    method SetManual(m: string, deviceType: Option<string>, osFamily: Option<string>)
      modifies this`rows
      ensures Contents() == Step(old(Contents()), Overridden(m, deviceType, osFamily))
    {
      var mac := Lower(m);
      if mac in rows {
        rows := rows[mac := rows[mac].(deviceType := deviceType, osFamily := osFamily, confidence := 100,
                                       source := "manual")];
      } else {
        rows := rows[mac := Row(None, None, None, deviceType, osFamily, 100, "manual", None)];
      }
    }

    method ClearManual(m: string)
      modifies this`rows
      ensures Contents() == Step(old(Contents()), Cleared(m))
    {
      var mac := Lower(m);
      if mac in rows && rows[mac].source == "manual" {
        rows := rows - {mac};
      }
    }
  }
}
