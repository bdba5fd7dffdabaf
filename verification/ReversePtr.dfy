/**
 * PTR names (server/src/models/dns-record.js, client/src/utils/reverseZone.js), with names as lists of
 * labels: octets under in-addr.arpa (section 3.5 of RFC 1035), nibbles under ip6.arpa (section 2.5 of
 * RFC 3596).
 */
module ReversePtr {
  import opened Options
  import opened Addresses
  import opened Digits

  datatype Family = InAddr | Ip6Arpa

  /** A reverse zone: its labels as written, least significant first. */
  datatype ZoneName = ZoneName(family: Family, labels: seq<nat>)

  datatype Candidate = Candidate(zone: ZoneName, ptrName: seq<nat>)

  function Base(f: Family): nat {
    if f == InAddr then 256 else 16
  }

  function Width(f: Family): nat {
    if f == InAddr then 4 else 32
  }

  function Reverse(s: seq<nat>): (r: seq<nat>)
    ensures |r| == |s| && forall i :: 0 <= i < |s| ==> r[i] == s[|s| - 1 - i]
  {
    if s == [] then [] else Reverse(s[1..]) + [s[0]]
  }

  function FamilyOf(ip: Ip): Family {
    if ip.V4? then InAddr else Ip6Arpa
  }

  /** The octets or nibbles of an address, most significant first. */
  function DigitsOf(ip: Ip): (ds: seq<nat>)
    ensures |ds| == Width(FamilyOf(ip))
  {
    Of(Base(FamilyOf(ip)), Width(FamilyOf(ip)), ip.n)
  }

  function SplitAt(f: Family, ds: seq<nat>, k: nat): Candidate
    requires k <= |ds|
  {
    Candidate(ZoneName(f, Reverse(ds[..k])), Reverse(ds[k..]))
  }

  /** The splits from k labels down to one, most specific first. */
  function SplitsFrom(f: Family, ds: seq<nat>, k: nat): (cs: seq<Candidate>)
    requires k <= |ds|
    ensures |cs| == k && forall i :: 0 <= i < k ==> cs[i] == SplitAt(f, ds, k - i)
  {
    if k == 0 then [] else [SplitAt(f, ds, k)] + SplitsFrom(f, ds, k - 1)
  }

  function Candidates(ip: Ip): (cs: seq<Candidate>)
    ensures |cs| == Width(FamilyOf(Fold(ip))) - 1
    ensures forall i :: 0 <= i < |cs| ==> cs[i] == SplitAt(FamilyOf(Fold(ip)), DigitsOf(Fold(ip)), |cs| - i)
  {
    SplitsFrom(FamilyOf(Fold(ip)), DigitsOf(Fold(ip)), Width(FamilyOf(Fold(ip))) - 1)
  }

  /** The push loop of reversePtrCandidates. */
  method ReversePtrCandidates(ip: Ip) returns (candidates: seq<Candidate>)
    ensures candidates == Candidates(ip)
  {
    var parsed := Fold(ip);
    var ds := DigitsOf(parsed);
    if parsed.V4? {
      candidates := [SplitAt(InAddr, ds, 3), SplitAt(InAddr, ds, 2), SplitAt(InAddr, ds, 1)];
      return;
    }
    candidates := [];
    var zoneNibbles := 31;
    while zoneNibbles >= 1
      invariant 0 <= zoneNibbles <= 31 && |candidates| == 31 - zoneNibbles
      invariant forall i :: 0 <= i < |candidates| ==> candidates[i] == SplitAt(Ip6Arpa, ds, 31 - i)
    {
      candidates := candidates + [SplitAt(Ip6Arpa, ds, zoneNibbles)];
      zoneNibbles := zoneNibbles - 1;
    }
  }

  predicate AllBelow(base: nat, ds: seq<nat>) {
    forall i :: 0 <= i < |ds| ==> ds[i] < base
  }

  function FromLabels(f: Family, ds: seq<nat>): Option<Ip> {
    if |ds| != Width(f) || !AllBelow(Base(f), ds) then None
    else if f == InAddr then Some(V4(Value(256, ds))) else Some(V6(Value(16, ds)))
  }

  /** The address a PTR row answers for, as the server reads it. */
  function IpForPtrRecord(ptrName: seq<nat>, zone: ZoneName): Option<Ip> {
    FromLabels(zone.family, Reverse(ptrName + zone.labels))
  }

  // ---- Round trip ----

  lemma ReverseConcat(a: seq<nat>, b: seq<nat>)
    ensures Reverse(a + b) == Reverse(b) + Reverse(a)
  {}

  lemma ReverseTwice(a: seq<nat>)
    ensures Reverse(Reverse(a)) == a
  {}

  lemma SplitJoins(f: Family, ds: seq<nat>, k: nat)
    requires k <= |ds|
    ensures Reverse(SplitAt(f, ds, k).ptrName + SplitAt(f, ds, k).zone.labels) == ds
  {
    hide Reverse;
    ReverseConcat(Reverse(ds[k..]), Reverse(ds[..k]));
    ReverseTwice(ds[..k]);
    ReverseTwice(ds[k..]);
    assert ds == ds[..k] + ds[k..];
  }

  lemma FoldValid(ip: Ip)
    requires ValidIp(ip)
    ensures ValidIp(Fold(ip))
  {
    assert Pow(256, 4) == MAPPED_SIZE by {
      assert Pow(256, 1) == 256 && Pow(256, 2) == 256 * 256 && Pow(256, 3) == 256 * Pow(256, 2);
    }
  }

  lemma DigitsReadBack(ip: Ip)
    requires ValidIp(ip)
    ensures FromLabels(FamilyOf(ip), DigitsOf(ip)) == Some(ip)
  {
    OfValid(Base(FamilyOf(ip)), Width(FamilyOf(ip)), ip.n);
    ValueOf(Base(FamilyOf(ip)), Width(FamilyOf(ip)), ip.n);
  }

  /** Every candidate of every address names that address. */
  lemma PtrRoundTrip(ip: Ip, c: Candidate)
    requires ValidIp(ip) && c in Candidates(ip)
    ensures IpForPtrRecord(c.ptrName, c.zone) == Some(Fold(ip))
  {
    hide FromLabels;
    var f, ds := FamilyOf(Fold(ip)), DigitsOf(Fold(ip));
    var i :| 0 <= i < |Candidates(ip)| && Candidates(ip)[i] == c;
    SplitJoins(f, ds, |Candidates(ip)| - i);
    FoldValid(ip);
    DigitsReadBack(Fold(ip));
  }

  /** A zone that can hold PTR rows: at least one label short of a whole address. */
  predicate IsProper(zone: ZoneName) {
    0 < |zone.labels| < Width(zone.family)
  }

  lemma LabelsAreDigits(f: Family, ds: seq<nat>, ip: Ip)
    requires FromLabels(f, ds) == Some(ip)
    ensures f == FamilyOf(ip) && ds == DigitsOf(ip)
  {
    OfValue(Base(f), ds);
  }

  /** The candidates of an address are exactly the names that read back as it, split at a label. */
  lemma CandidatesExactly(ip: Ip, c: Candidate)
    requires ValidIp(ip)
    ensures c in Candidates(ip) <==> IpForPtrRecord(c.ptrName, c.zone) == Some(Fold(ip)) && IsProper(c.zone)
  {
    hide FromLabels, Value, Of;
    var ds := DigitsOf(Fold(ip));
    if c in Candidates(ip) {
      PtrRoundTrip(ip, c);
    }
    if IpForPtrRecord(c.ptrName, c.zone) == Some(Fold(ip)) && IsProper(c.zone) {
      LabelsAreDigits(c.zone.family, Reverse(c.ptrName + c.zone.labels), Fold(ip));
      ReverseConcat(c.ptrName, c.zone.labels);
      var k := |c.zone.labels|;
      ReverseTwice(c.zone.labels);
      ReverseTwice(c.ptrName);
      assert ds[..k] == Reverse(c.zone.labels) && ds[k..] == Reverse(c.ptrName);
      assert c == SplitAt(c.zone.family, ds, k);
      assert Candidates(ip)[|Candidates(ip)| - k] == c;
    }
  }

  /** No PTR name belongs to two addresses. */
  lemma PtrNamesDistinct(a: Ip, b: Ip, c: Candidate)
    requires ValidIp(a) && ValidIp(b) && c in Candidates(a) && c in Candidates(b)
    ensures Fold(a) == Fold(b)
  {
    hide IpForPtrRecord;
    PtrRoundTrip(a, c);
    PtrRoundTrip(b, c);
  }

  // ---- The client's reading ----

  /** Four nibbles make a hextet. */
  function Hextets(nibbles: seq<nat>): (h: seq<nat>)
    requires |nibbles| % 4 == 0
    ensures |h| == |nibbles| / 4
  {
    if nibbles == [] then []
    else
      var k := |nibbles| - 4;
      Hextets(nibbles[..k]) + [Value(16, nibbles[k..])]
  }

  lemma HextetsNext(labels: seq<nat>, i: nat)
    requires i % 4 == 0 && i + 4 <= |labels|
    ensures Hextets(labels[..i + 4]) == Hextets(labels[..i]) + [Value(16, labels[i..i + 4])]
  {
    hide Value;
    assert labels[..i + 4][..i] == labels[..i] && labels[..i + 4][i..] == labels[i..i + 4];
  }

  /** ptrRecordAddress: labels in address order, hextets grouped by a loop, then the canonical spelling. */
  method PtrRecordAddress(zone: ZoneName, recordName: seq<nat>) returns (address: Option<Ip>)
    ensures address == ClientAddress(zone, recordName)
  {
    hide Reverse, Value, FromLabels, Fold;
    var labels := Reverse(zone.labels) + Reverse(recordName);
    if zone.family == InAddr {
      return FromLabels(InAddr, labels);
    }
    if |labels| != 32 || !AllBelow(16, labels) {
      return None;
    }
    var hextets: seq<nat> := [];
    var i := 0;
    while i < 32
      invariant 0 <= i <= 32 && i % 4 == 0 && hextets == Hextets(labels[..i])
    {
      HextetsNext(labels, i);
      hextets := hextets + [Value(16, labels[i..i + 4])];
      i := i + 4;
    }
    assert labels[..32] == labels;
    address := Some(Fold(V6(Value(0x10000, hextets))));
  }

  function ClientAddress(zone: ZoneName, recordName: seq<nat>): Option<Ip> {
    var labels := Reverse(zone.labels) + Reverse(recordName);
    if zone.family == InAddr then FromLabels(InAddr, labels)
    else if |labels| != 32 || !AllBelow(16, labels) then None
    else Some(Fold(V6(Value(0x10000, Hextets(labels)))))
  }

  lemma FourNibbles(d: seq<nat>)
    requires |d| == 4 && AllBelow(16, d)
    ensures Value(16, d) < 0x10000 && Pow(16, 4) == 0x10000
  {
    OfValue(16, d);
    assert Pow(16, 1) == 16 && Pow(16, 2) == 256 && Pow(16, 3) == 4096;
  }

  lemma {:induction false} HextetsValue(nibbles: seq<nat>)
    requires |nibbles| % 4 == 0 && AllBelow(16, nibbles)
    ensures Value(0x10000, Hextets(nibbles)) == Value(16, nibbles)
  {
    if nibbles != [] {
      var k := |nibbles| - 4;
      HextetsValue(nibbles[..k]);
      FourNibbles(nibbles[k..]);
      ValueConcat(16, nibbles[..k], nibbles[k..]);
      assert nibbles == nibbles[..k] + nibbles[k..];
      var h := Hextets(nibbles);
      assert h[..|h| - 1] == Hextets(nibbles[..k]);
    }
  }

  function FoldOption(ip: Option<Ip>): Option<Ip> {
    if ip.Some? then Some(Fold(ip.value)) else None
  }

  /** The client reads a name as the server does, but spells an IPv4-mapped address as IPv4. */
  lemma ClientFoldsServer(zone: ZoneName, ptrName: seq<nat>)
    ensures ClientAddress(zone, ptrName) == FoldOption(IpForPtrRecord(ptrName, zone))
  {
    hide Fold, Hextets, Value;
    var labels := Reverse(zone.labels) + Reverse(ptrName);
    ReverseConcat(ptrName, zone.labels);
    if zone.family == Ip6Arpa {
      if |labels| == 32 && AllBelow(16, labels) {
        HextetsValue(labels);
      }
    } else {
      V4Unfolded(FromLabels(InAddr, labels));
    }
  }

  lemma V4Unfolded(ip: Option<Ip>)
    ensures ip.Some? && ip.value.V4? ==> Fold(ip.value) == ip.value
  {}

  /** Both read every name alike exactly when it names no IPv4-mapped address. */
  lemma ClientAgreesExactly(zone: ZoneName, ptrName: seq<nat>)
    ensures ClientAddress(zone, ptrName) == IpForPtrRecord(ptrName, zone)
       <==> (IpForPtrRecord(ptrName, zone).Some? ==> !IsMapped(IpForPtrRecord(ptrName, zone).value))
  {
    ClientFoldsServer(zone, ptrName);
    hide IpForPtrRecord, ClientAddress;
  }

  // ---- The client's containment test ----

  function Zeros(n: nat): (z: seq<nat>)
    ensures |z| == n && forall i :: 0 <= i < n ==> z[i] == 0
  {
    seq(n, _ => 0)
  }

  /** The labels in address order, padded with zeros or cut to a whole address. */
  function Padded(zone: ZoneName): (ds: seq<nat>)
    ensures |ds| == Width(zone.family)
  {
    var width, given := Width(zone.family), |zone.labels|;
    var ds := Reverse(zone.labels) + Zeros(if given < width then width - given else 0);
    ds[..width]
  }

  /** sortKey: the family and 32 hex digits of the canonical address. */
  datatype SortKey = SortKey(family: Family, digits: seq<nat>)

  function SortKeyOf(ip: Ip): (k: SortKey)
    ensures |k.digits| == 32
  {
    SortKey(FamilyOf(Fold(ip)), Of(16, 32, Fold(ip).n))
  }

  /** Hex digits a zone's prefix covers. */
  function PrefixDigits(zone: ZoneName): nat {
    if zone.family == InAddr then 2 * (if |zone.labels| < 4 then |zone.labels| else 4)
    else if |zone.labels| < 32 then |zone.labels| else 32
  }

  predicate ReverseZoneContains(zone: ZoneName, ip: Ip) {
    var network := FromLabels(zone.family, Padded(zone));
    network.Some?
    && var a, z := SortKeyOf(ip), SortKeyOf(network.value);
       var start := if zone.family == InAddr then 24 else 0;
       a.family == z.family
       && a.digits[start..start + PrefixDigits(zone)] == z.digits[start..start + PrefixDigits(zone)]
  }

  /** The zone's network reads as an IPv4-mapped address. */
  predicate IsMappedZone(zone: ZoneName) {
    var network := FromLabels(zone.family, Padded(zone));
    network.Some? && IsMapped(network.value)
  }

  lemma {:induction false} OfTail(base: nat, count: nat, k: nat, n: nat)
    requires base > 0 && k <= count
    ensures Of(base, count, n)[count - k..] == Of(base, k, n)
  {
    if k > 0 {
      OfTail(base, count - 1, k - 1, n / base);
    }
  }

  /** Two hex digits an octet. */
  function Expand(octets: seq<nat>): (hex: seq<nat>)
    ensures |hex| == 2 * |octets|
    ensures forall i :: 0 <= i < |octets| ==> hex[2 * i] == octets[i] / 16 && hex[2 * i + 1] == octets[i] % 16
  {
    if octets == [] then []
    else
      var k := |octets| - 1;
      Expand(octets[..k]) + [octets[k] / 16, octets[k] % 16]
  }

  lemma {:induction false} OctetsExpand(count: nat, n: nat)
    ensures Of(16, 2 * count, n) == Expand(Of(256, count, n))
  {
    if count > 0 {
      OctetsExpand(count - 1, n / 256);
      assert Of(16, 2 * count, n) == Of(16, 2 * count - 1, n / 16) + [n % 16];
      assert Of(16, 2 * count - 1, n / 16) == Of(16, 2 * count - 2, n / 16 / 16) + [n / 16 % 16];
      assert n / 16 / 16 == n / 256 && n % 256 / 16 == n / 16 % 16 && n % 256 % 16 == n % 16;
      var octets := Of(256, count, n);
      assert octets[..count - 1] == Of(256, count - 1, n / 256);
    }
  }

  lemma {:induction false} ExpandTake(octets: seq<nat>, k: nat)
    requires k <= |octets|
    ensures Expand(octets)[..2 * k] == Expand(octets[..k])
  {
    var n := |octets|;
    if k == n {
      assert octets[..k] == octets;
    } else {
      ExpandTake(octets[..n - 1], k);
      assert octets[..n - 1][..k] == octets[..k];
      assert Expand(octets)[..2 * k] == Expand(octets[..n - 1])[..2 * k];
    }
  }

  lemma {:induction false} ExpandInjective(a: seq<nat>, b: seq<nat>)
    requires |a| == |b| && Expand(a) == Expand(b)
    ensures a == b
  {
    if a != [] {
      var n := |a| - 1;
      assert Expand(a)[2 * n] == a[n] / 16 && Expand(a)[2 * n + 1] == a[n] % 16;
      assert Expand(b)[2 * n] == b[n] / 16 && Expand(b)[2 * n + 1] == b[n] % 16;
      ExpandTake(a, n);
      ExpandTake(b, n);
      ExpandInjective(a[..n], b[..n]);
      assert a == a[..n] + [a[n]] && b == b[..n] + [b[n]];
    }
  }

  lemma ExpandPrefix(a: seq<nat>, b: seq<nat>, k: nat)
    requires k <= |a| && k <= |b|
    ensures Expand(a)[..2 * k] == Expand(b)[..2 * k] <==> a[..k] == b[..k]
  {
    ExpandTake(a, k);
    ExpandTake(b, k);
    hide Expand;
    if Expand(a[..k]) == Expand(b[..k]) {
      ExpandInjective(a[..k], b[..k]);
    }
  }

  lemma PaddedPrefix(zone: ZoneName)
    requires |zone.labels| <= Width(zone.family)
    ensures Padded(zone)[..|zone.labels|] == Reverse(zone.labels)
    ensures AllBelow(Base(zone.family), Padded(zone)) <==> AllBelow(Base(zone.family), zone.labels)
  {
    var ds := Padded(zone);
    if AllBelow(Base(zone.family), ds) {
      forall i | 0 <= i < |zone.labels| ensures zone.labels[i] < Base(zone.family) {
        assert ds[|zone.labels| - 1 - i] == zone.labels[i];
      }
    }
  }

  lemma SortDigits(ip: Ip, k: nat)
    requires k <= Width(FamilyOf(Fold(ip)))
    ensures Fold(ip).V6? ==> SortKeyOf(ip).digits[0..k] == DigitsOf(Fold(ip))[..k]
    ensures Fold(ip).V4? ==> SortKeyOf(ip).digits[24..24 + 2 * k] == Expand(DigitsOf(Fold(ip)))[..2 * k]
  {
    if Fold(ip).V4? {
      OfTail(16, 32, 8, Fold(ip).n);
      OctetsExpand(4, Fold(ip).n);
      assert SortKeyOf(ip).digits[24..][..2 * k] == SortKeyOf(ip).digits[24..24 + 2 * k];
    }
  }

  /** The zone's labels lead the address. */
  predicate Leads(zone: ZoneName, ip: Ip) {
    && FamilyOf(Fold(ip)) == zone.family && |zone.labels| <= Width(zone.family)
    && Reverse(zone.labels) == DigitsOf(Fold(ip))[..|zone.labels|]
  }

  lemma LeadingBelow(zone: ZoneName, ip: Ip)
    requires Leads(zone, ip)
    ensures AllBelow(Base(zone.family), zone.labels)
  {
    OfValid(Base(zone.family), Width(zone.family), Fold(ip).n);
    var ds := DigitsOf(Fold(ip));
    forall i | 0 <= i < |zone.labels| ensures zone.labels[i] < Base(zone.family) {
      assert Reverse(zone.labels)[|zone.labels| - 1 - i] == ds[|zone.labels| - 1 - i];
    }
  }

  /** Containment is a comparison of leading labels, for every zone whose network is not IPv4-mapped. */
  lemma ContainsIsLeading(zone: ZoneName, ip: Ip)
    requires |zone.labels| <= Width(zone.family) && !IsMappedZone(zone)
    ensures ReverseZoneContains(zone, ip) <==> Leads(zone, ip)
  {
    hide Of, Value, Reverse, Expand, Fold, AllBelow, Padded;
    var f, k := zone.family, |zone.labels|;
    PaddedPrefix(zone);
    var network := FromLabels(f, Padded(zone));
    if Leads(zone, ip) {
      LeadingBelow(zone, ip);
    }
    if network.Some? {
      var net := network.value;
      LabelsAreDigits(f, Padded(zone), net);
      assert Fold(net) == net by { UnmappedUnfolded(net); }
      SortDigits(net, k);
      if FamilyOf(Fold(ip)) == f {
        SortDigits(ip, k);
        ExpandPrefix(DigitsOf(Fold(ip)), DigitsOf(net), k);
      }
    }
  }

  lemma UnmappedUnfolded(ip: Ip)
    requires !IsMapped(ip)
    ensures Fold(ip) == ip
  {}

  predicate HasCandidate(zone: ZoneName, ip: Ip) {
    exists c :: c in Candidates(ip) && c.zone == zone
  }

  /** The client's test holds exactly for the zones the server would look for the address's PTR in. */
  lemma ContainsExactlyCandidates(zone: ZoneName, ip: Ip)
    requires IsProper(zone) && !IsMappedZone(zone)
    ensures ReverseZoneContains(zone, ip) <==> HasCandidate(zone, ip)
  {
    hide Of, Reverse, Fold, ReverseZoneContains, IsMappedZone;
    ContainsIsLeading(zone, ip);
    var ds, k := DigitsOf(Fold(ip)), |zone.labels|;
    if Leads(zone, ip) {
      ReverseTwice(zone.labels);
      var c := Candidates(ip)[|Candidates(ip)| - k];
      assert c.zone == zone;
    }
    if c :| c in Candidates(ip) && c.zone == zone {
      var i :| 0 <= i < |Candidates(ip)| && Candidates(ip)[i] == c;
      ReverseTwice(ds[..|Candidates(ip)| - i]);
      LengthOfReverse(ds[..|Candidates(ip)| - i]);
    }
  }

  lemma LengthOfReverse(s: seq<nat>)
    ensures |Reverse(s)| == |s|
  {}

  lemma {:induction false} LeadingZeros(base: nat, count: nat, k: nat, n: nat)
    requires base > 0 && k <= count && n < Pow(base, k)
    ensures Of(base, count, n)[..count - k] == Zeros(count - k)
  {
    if k > 0 {
      DivBound(n, base, Pow(base, k - 1));
      LeadingZeros(base, count - 1, k - 1, n / base);
    } else if count > 0 {
      assert n == 0 && n / base == 0 && n % base == 0;
      LeadingZeros(base, count - 1, 0, 0);
    }
  }

  /** A zone over an IPv4-mapped network is the exception: it contains an address it is no candidate of. */
  lemma MappedZoneIsNoCandidate(zone: ZoneName) returns (ip: Ip)
    requires IsMappedZone(zone)
    ensures ValidIp(ip) && ReverseZoneContains(zone, ip) && !HasCandidate(zone, ip)
  {
    hide Of, Value, Reverse, Padded;
    var network := FromLabels(zone.family, Padded(zone)).value;
    ip := Fold(network);
    SixteenToTheEight();
    assert zone.family == Ip6Arpa;
    assert Fold(ip) == ip && ip.V4?;
    assert SortKeyOf(ip) == SortKeyOf(network);
  }

  /** So client and server agree on a zone, for every address, exactly when its network is not IPv4-mapped. */
  lemma ContainmentAgreesExactly(zone: ZoneName)
    requires IsProper(zone)
    ensures !IsMappedZone(zone) <==>
            forall ip :: ValidIp(ip) ==> (ReverseZoneContains(zone, ip) <==> HasCandidate(zone, ip))
  {
    hide ReverseZoneContains, IsMappedZone, Candidates;
    if IsMappedZone(zone) {
      var ip := MappedZoneIsNoCandidate(zone);
    } else {
      forall ip | ValidIp(ip)
        ensures ReverseZoneContains(zone, ip) <==> HasCandidate(zone, ip)
      {
        ContainsExactlyCandidates(zone, ip);
      }
    }
  }

  /** The zone of the whole mapped /96 contains every IPv4 address. */
  lemma MappedBlockContainsIpv4(zone: ZoneName, ip: Ip)
    requires ValidIp(ip) && ip.V4? && zone.family == Ip6Arpa && |zone.labels| == 24 && IsMappedZone(zone)
    ensures ReverseZoneContains(zone, ip) && !HasCandidate(zone, ip)
  {
    hide Of, Value, Reverse, Padded;
    var network := FromLabels(zone.family, Padded(zone)).value;
    assert Fold(ip) == ip;
    SixteenToTheEight();
    LeadingZeros(16, 32, 8, ip.n);
    LeadingZeros(16, 32, 8, Fold(network).n);
  }

  lemma SixteenToTheEight()
    ensures Pow(16, 8) == MAPPED_SIZE == Pow(256, 4)
  {
    assert Pow(16, 4) == 0x10000 by {
      assert Pow(16, 1) == 16 && Pow(16, 2) == 256 && Pow(16, 3) == 4096;
    }
    assert Pow(16, 6) == 0x100_0000 by { assert Pow(16, 5) == 0x10_0000; }
    assert Pow(16, 7) == 0x1000_0000;
    assert Pow(256, 1) == 256 && Pow(256, 2) == 0x1_0000 && Pow(256, 3) == 0x100_0000;
  }
}
