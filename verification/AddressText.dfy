/** The address core: text to number and back (server/src/utils/address.js, server/src/utils/cidr-match.js). */
module AddressText {
  import opened Addresses
  import opened Options
  import opened Digits
  import opened Texts
  import DnsNames

  // ---- Reading ----

  predicate IsOctet(part: string) {
    1 <= |part| <= 3 && IsNumeral(10, part) && NumeralValue(10, part) <= 255
  }

  predicate IsHextet(part: string) {
    1 <= |part| <= 4 && IsNumeral(16, part)
  }

  function OctetValue(part: string): nat {
    if IsOctet(part) then NumeralValue(10, part) else 0
  }

  function HextetValue(part: string): nat {
    if IsHextet(part) then NumeralValue(16, part) else 0
  }

  function Values(value: string -> nat, parts: seq<string>): (ds: seq<nat>)
    ensures |ds| == |parts| && forall i :: 0 <= i < |parts| ==> ds[i] == value(parts[i])
  {
    seq(|parts|, i requires 0 <= i < |parts| => value(parts[i]))
  }

  function ParseV4(str: string): Option<nat> {
    var octets := Split(str, '.');
    if |octets| == 4 && forall i :: 0 <= i < |octets| ==> IsOctet(octets[i])
    then Some(Value(256, Values(OctetValue, octets)))
    else None
  }

  predicate DoubleColonAt(s: string, i: nat) {
    i + 1 < |s| && s[i] == ':' && s[i + 1] == ':'
  }

  /** indexOf('::'), |s| when there is none. */
  function FirstDouble(s: string): (k: nat)
    ensures k <= |s| && (k < |s| ==> DoubleColonAt(s, k)) && forall i: nat :: i < k ==> !DoubleColonAt(s, i)
  {
    if s == "" || DoubleColonAt(s, 0) then 0
    else
      var k := FirstDouble(s[1..]);
      assert forall i: nat :: i > 0 ==> (DoubleColonAt(s, i) <==> DoubleColonAt(s[1..], i - 1));
      k + 1
  }

  function PartsOf(half: string): seq<string> {
    if half == "" then [] else Split(half, ':')
  }

  function ZeroParts(n: nat): (zeros: seq<string>)
    ensures |zeros| == n
  {
    seq(n, i => "0")
  }

  /** The hextets with the gap filled; None when the count is not `count`. */
  function Filled(gap: bool, at: nat, parts: seq<string>, count: nat): Option<seq<string>>
    requires at <= |parts|
  {
    if gap && |parts| >= count then None
    else
      var all := if gap then parts[..at] + ZeroParts(count - |parts|) + parts[at..] else parts;
      if |all| == count then Some(all) else None
  }

  function HextetNumber(parts: Option<seq<string>>): Option<nat> {
    if parts.Some? && forall i :: 0 <= i < |parts.value| ==> IsHextet(parts.value[i])
    then Some(Value(65536, Values(HextetValue, parts.value)))
    else None
  }

  function ParseV6(str: string, embeddedV4: bool): Option<nat> {
    var k := FirstDouble(str);
    if exists j: nat :: k < j < |str| && DoubleColonAt(str, j) then None
    else
      var gap := k < |str|;
      var head := PartsOf(if gap then str[..k] else str);
      var tail := PartsOf(if gap then str[k + 2..] else "");
      ParseParts(gap, head, tail, embeddedV4)
  }

  function ParseParts(gap: bool, head: seq<string>, tail: seq<string>, embeddedV4: bool): Option<nat> {
    var parts := head + tail;
    if parts != [] && '.' in parts[|parts| - 1] then
      if !embeddedV4 || (gap && tail == []) then None
      else
        var quad := ParseV4(parts[|parts| - 1]);
        var rest := parts[..|parts| - 1];
        var v := HextetNumber(Filled(gap, if |head| <= |rest| then |head| else |rest|, rest, 6));
        if quad.None? || v.None? then None else Some(v.value * Pow(65536, 2) + quad.value)
    else HextetNumber(Filled(gap, |head|, parts, 8))
  }

  /** parseIp's options: the allowlist refuses zone ids, mapped folding and embedded IPv4. */
  datatype Mode = Lenient | Strict

  function Folded(ip: Ip, mode: Mode): Ip {
    if mode == Lenient then Fold(ip) else ip
  }

  /** parseIp without the zone id it also returns. */
  function ParseIp(str: string, mode: Mode): Option<Ip> {
    var trimmed := DnsNames.Trim(str);
    var s := Split(trimmed, '%')[0];
    if '%' in trimmed && (mode == Strict || |trimmed| == |s| + 1) then None
    else if ':' in s then
      var v := ParseV6(s, mode == Lenient);
      if v.None? then None
      else Some(Folded(V6(v.value), mode))
    else if '%' in trimmed then None
    else
      var v := ParseV4(s);
      if v.None? then None else Some(V4(v.value))
  }

  // ---- Printing ----

  function Numerals(base: nat, ns: seq<nat>): (ts: seq<string>)
    requires 2 <= base <= 16
    ensures |ts| == |ns| && forall i :: 0 <= i < |ns| ==> ts[i] == Numeral(base, ns[i])
  {
    seq(|ns|, i requires 0 <= i < |ns| => Numeral(base, ns[i]))
  }

  /** How many zero groups stand from i on. */
  function RunAt(groups: seq<string>, i: nat): (n: nat)
    requires i <= |groups|
    ensures i + n <= |groups|
    ensures forall k :: i <= k < i + n ==> groups[k] == "0"
    ensures i + n < |groups| ==> groups[i + n] != "0"
    decreases |groups| - i
  {
    if i < |groups| && groups[i] == "0" then 1 + RunAt(groups, i + 1) else 0
  }

  datatype Gap = Gap(start: nat, length: nat)

  /** The longest run of zero groups from i on, the leftmost of equals. */
  function BestFrom(groups: seq<string>, i: nat): (g: Gap)
    requires i <= |groups|
    ensures i <= g.start <= |groups| && g.length == RunAt(groups, g.start)
    ensures forall k :: i <= k < |groups| ==> RunAt(groups, k) <= g.length
    ensures forall k :: i <= k < g.start ==> RunAt(groups, k) < g.length
    decreases |groups| - i
  {
    if i == |groups| then Gap(i, 0)
    else
      var later := BestFrom(groups, i + 1);
      if RunAt(groups, i) >= later.length then Gap(i, RunAt(groups, i)) else later
  }

  function JoinParts(parts: seq<string>, sep: char): string {
    if parts == [] then "" else Join(parts, sep)
  }

  function Compressed(groups: seq<string>): string {
    var gap := BestFrom(groups, 0);
    if gap.length >= 2 then
      JoinParts(groups[..gap.start], ':') + "::" + JoinParts(groups[gap.start + gap.length..], ':')
    else JoinParts(groups, ':')
  }

  function FormatIp(ip: Ip): string {
    match ip
    case V4(n) => JoinParts(Numerals(10, Of(256, 4, n)), '.')
    case V6(n) => Compressed(Numerals(16, Of(65536, 8, n)))
  }

  // ---- Round trips ----

  lemma OfBelow(base: nat, count: nat, n: nat)
    requires base > 0
    ensures forall i :: 0 <= i < count ==> Of(base, count, n)[i] < base
  {
    OfValid(base, count, n);
  }

  /** A small number's decimal numeral is an octet that reads back. */
  lemma OctetText(n: nat)
    requires n < 256
    ensures IsOctet(Numeral(10, n)) && NumeralValue(10, Numeral(10, n)) == n
  {
    NumeralReads(10, n);
    assert Pow(10, 1) == 10 && Pow(10, 2) == 100 && Pow(10, 3) == 1000;
    NumeralLength(10, n, 3);
  }

  lemma HextetText(n: nat)
    requires n < 65536
    ensures IsHextet(Numeral(16, n)) && NumeralValue(16, Numeral(16, n)) == n
  {
    NumeralReads(16, n);
    assert Pow(16, 2) == 256 && Pow(16, 4) == 65536;
    NumeralLength(16, n, 4);
  }

  /** What stands between the separators of a printed address. */
  ghost predicate IsGroup(p: string) {
    p != "" && forall c :: c in p ==> '0' <= c <= '9' || 'a' <= c <= 'f'
  }

  ghost predicate AllGroups(parts: seq<string>) {
    forall p :: p in parts ==> IsGroup(p)
  }

  lemma NumeralsAreGroups(base: nat, ns: seq<nat>)
    requires 2 <= base <= 16
    ensures AllGroups(Numerals(base, ns))
  {
    forall i | 0 <= i < |ns|
      ensures IsGroup(Numerals(base, ns)[i])
    {
      NumeralChars(base, ns[i]);
    }
  }

  ghost predicate AddressChars(s: string, sep: char) {
    forall i :: 0 <= i < |s| ==> '0' <= s[i] <= '9' || 'a' <= s[i] <= 'f' || s[i] == sep
  }

  /** Joined groups: no separator at either end, none twice in a row. */
  ghost predicate Punctuated(s: string, sep: char) {
    && AddressChars(s, sep)
    && (s != "" ==> s[0] != sep && s[|s| - 1] != sep)
    && forall i :: 0 <= i < |s| - 1 ==> !(s[i] == sep && s[i + 1] == sep)
  }

  lemma GroupPunctuated(p: string, sep: char)
    requires IsGroup(p) && (sep == ':' || sep == '.')
    ensures Punctuated(p, sep) && sep !in p
  {
    assert forall i :: 0 <= i < |p| ==> p[i] in p;
  }

  lemma {:induction false} JoinPunctuated(parts: seq<string>, sep: char)
    requires AllGroups(parts) && |parts| > 0 && (sep == ':' || sep == '.')
    ensures Join(parts, sep) != "" && Punctuated(Join(parts, sep), sep)
    ensures |parts| > 1 ==> sep in Join(parts, sep)
  {
    assert parts[0] in parts;
    GroupPunctuated(parts[0], sep);
    if |parts| > 1 {
      var rest := Join(parts[1..], sep);
      JoinPunctuated(parts[1..], sep);
      var s := parts[0] + [sep] + rest;
      assert s[|parts[0]|] == sep;
      PunctuatedJoin(parts[0], rest, sep);
    }
  }

  lemma PunctuatedJoin(a: string, b: string, sep: char)
    requires a != "" && b != "" && Punctuated(a, sep) && Punctuated(b, sep)
    ensures Punctuated(a + [sep] + b, sep)
  {
    var s := a + [sep] + b;
    assert forall i :: 0 <= i < |a| ==> s[i] == a[i];
    assert forall i :: 0 <= i < |b| ==> s[|a| + 1 + i] == b[i];
    forall i | 0 <= i < |s| - 1
      ensures !(s[i] == sep && s[i + 1] == sep)
    {
      if i > |a| {
        assert s[i] == b[i - |a| - 1] && s[i + 1] == b[i - |a|];
      }
    }
  }

  lemma SplitGroups(parts: seq<string>, sep: char)
    requires AllGroups(parts) && |parts| > 0 && (sep == ':' || sep == '.')
    ensures Split(Join(parts, sep), sep) == parts
  {
    forall p | p in parts
      ensures sep !in p
    {
      GroupPunctuated(p, sep);
    }
    SplitJoin(parts, sep);
  }

  lemma V4RoundTrip(n: nat)
    requires ValidIp(V4(n))
    ensures ParseV4(FormatIp(V4(n))) == Some(n)
  {
    var octets := Of(256, 4, n);
    var parts := Numerals(10, octets);
    OfBelow(256, 4, n);
    NumeralsAreGroups(10, octets);
    SplitGroups(parts, '.');
    forall i | 0 <= i < 4
      ensures IsOctet(parts[i]) && OctetValue(parts[i]) == octets[i]
    {
      OctetText(octets[i]);
    }
    assert Values(OctetValue, parts) == octets;
    ValueOf(256, 4, n);
  }

  lemma {:induction false} HextetPow(k: nat)
    ensures Pow(65536, k) == Pow(16, 4 * k)
  {
    if k > 0 {
      HextetPow(k - 1);
      var p := Pow(16, 4 * k - 4);
      assert Pow(16, 4 * k - 3) == 16 * p && Pow(16, 4 * k - 2) == 256 * p && Pow(16, 4 * k - 1) == 4096 * p;
    }
  }

  lemma HextetsRead(n: nat)
    requires ValidIp(V6(n))
    ensures HextetNumber(Some(Numerals(16, Of(65536, 8, n)))) == Some(n)
  {
    var ds := Of(65536, 8, n);
    var parts := Numerals(16, ds);
    OfBelow(65536, 8, n);
    forall i | 0 <= i < 8
      ensures IsHextet(parts[i]) && HextetValue(parts[i]) == ds[i]
    {
      HextetText(ds[i]);
    }
    assert Values(HextetValue, parts) == ds;
    HextetPow(8);
    ValueOf(65536, 8, n);
  }

  lemma JoinPartsReads(parts: seq<string>)
    requires AllGroups(parts)
    ensures PartsOf(JoinParts(parts, ':')) == parts && Punctuated(JoinParts(parts, ':'), ':')
  {
    if parts != [] {
      JoinPunctuated(parts, ':');
      SplitGroups(parts, ':');
    }
  }

  /** The one "::" of a compressed address is where the gap is. */
  lemma OneDouble(a: string, b: string)
    requires Punctuated(a, ':') && Punctuated(b, ':')
    ensures var s := a + "::" + b;
            FirstDouble(s) == |a| && !(exists j: nat :: |a| < j < |s| && DoubleColonAt(s, j))
  {
    var s := a + "::" + b;
    assert forall i :: 0 <= i < |a| ==> s[i] == a[i];
    assert forall i :: 0 <= i < |b| ==> s[|a| + 2 + i] == b[i];
    assert DoubleColonAt(s, |a|);
    forall j: nat | j != |a|
      ensures !DoubleColonAt(s, j)
    {
      if |a| + 2 <= j < |s| - 1 {
        assert s[j] == b[j - |a| - 2] && s[j + 1] == b[j - |a| - 1];
      }
    }
  }

  lemma NoDouble(s: string)
    requires Punctuated(s, ':')
    ensures FirstDouble(s) == |s|
  {
    assert forall i: nat :: !DoubleColonAt(s, i);
  }

  lemma NoDots(parts: seq<string>)
    requires AllGroups(parts)
    ensures parts != [] ==> '.' !in parts[|parts| - 1]
  {
    if parts != [] {
      var last := parts[|parts| - 1];
      assert last in parts && IsGroup(last);
    }
  }

  lemma GapRefills(groups: seq<string>, start: nat, length: nat)
    requires start + length <= |groups| && length > 0
    requires forall k :: start <= k < start + length ==> groups[k] == "0"
    ensures Filled(true, start, groups[..start] + groups[start + length..], |groups|) == Some(groups)
  {
    var parts := groups[..start] + groups[start + length..];
    assert parts[..start] == groups[..start] && parts[start..] == groups[start + length..];
    assert groups == groups[..start] + ZeroParts(length) + groups[start + length..];
  }

  lemma ReadsAtGap(s: string, k: nat, embeddedV4: bool)
    requires k < |s| && FirstDouble(s) == k && !(exists j: nat :: k < j < |s| && DoubleColonAt(s, j))
    ensures ParseV6(s, embeddedV4) == ParseParts(true, PartsOf(s[..k]), PartsOf(s[k + 2..]), embeddedV4)
  {
    hide ParseParts, PartsOf, DoubleColonAt;
  }

  lemma ReadsPlain(s: string, embeddedV4: bool)
    requires FirstDouble(s) == |s|
    ensures ParseV6(s, embeddedV4) == ParseParts(false, PartsOf(s), [], embeddedV4)
  {
    assert PartsOf("") == [];
    hide ParseParts, PartsOf, DoubleColonAt;
  }

  lemma PureHextets(gap: bool, head: seq<string>, tail: seq<string>, embeddedV4: bool)
    requires AllGroups(head + tail)
    ensures ParseParts(gap, head, tail, embeddedV4) == HextetNumber(Filled(gap, |head|, head + tail, 8))
  {
    NoDots(head + tail);
    hide Filled, HextetNumber, AllGroups, ParseV4;
  }

  lemma CompressedChars(x: string, y: string)
    requires AddressChars(x, ':') && AddressChars(y, ':')
    ensures var s := x + "::" + y; AddressChars(s, ':') && ':' in s && s[..|x|] == x && s[|x| + 2..] == y
  {
    var s := x + "::" + y;
    assert s[|x|] == ':';
  }

  lemma CompressedReads(a: seq<string>, b: seq<string>, embeddedV4: bool)
    requires AllGroups(a) && AllGroups(b)
    ensures var s := JoinParts(a, ':') + "::" + JoinParts(b, ':');
            && ParseV6(s, embeddedV4) == HextetNumber(Filled(true, |a|, a + b, 8))
            && AddressChars(s, ':') && ':' in s
  {
    var x, y := JoinParts(a, ':'), JoinParts(b, ':');
    var s := x + "::" + y;
    JoinPartsReads(a);
    JoinPartsReads(b);
    assert AllGroups(a + b);
    CompressedChars(x, y);
    OneDouble(x, y);
    hide *;
    ReadsAtGap(s, |x|, embeddedV4);
    PureHextets(true, a, b, embeddedV4);
  }

  lemma JoinedReads(groups: seq<string>, embeddedV4: bool)
    requires AllGroups(groups) && |groups| == 8
    ensures var s := JoinParts(groups, ':');
            && ParseV6(s, embeddedV4) == HextetNumber(Some(groups)) && AddressChars(s, ':') && ':' in s
  {
    JoinPartsReads(groups);
    JoinPunctuated(groups, ':');
    NoDouble(JoinParts(groups, ':'));
    assert groups + [] == groups;
    assert Filled(false, 8, groups, 8) == Some(groups);
    hide PartsOf, JoinParts, HextetNumber, Filled, ParseV6, ParseParts, AllGroups, DoubleColonAt;
    ReadsPlain(Join(groups, ':'), embeddedV4);
    PureHextets(false, groups, [], embeddedV4);
  }

  /** A compressed address reads back as its eight groups. */
  lemma GapReads(groups: seq<string>, embeddedV4: bool)
    requires AllGroups(groups) && |groups| == 8
    ensures ParseV6(Compressed(groups), embeddedV4) == HextetNumber(Some(groups))
    ensures AddressChars(Compressed(groups), ':') && ':' in Compressed(groups)
  {
    hide ParseV6, HextetNumber, JoinParts;
    var gap := BestFrom(groups, 0);
    if gap.length >= 2 {
      var a, b := groups[..gap.start], groups[gap.start + gap.length..];
      GapRefills(groups, gap.start, gap.length);
      CompressedReads(a, b, embeddedV4);
    } else {
      JoinedReads(groups, embeddedV4);
    }
  }

  // ---- parseIp and formatIp ----

  lemma PlainAddress(s: string, sep: char)
    requires s != "" && AddressChars(s, sep) && (sep == ':' || sep == '.')
    ensures DnsNames.Trim(s) == s && '%' !in s && Split(s, '%') == [s]
  {
    DnsNames.TrimNoop(s);
    SplitFree(s, '%');
  }

  lemma PlainReads(s: string, sep: char, mode: Mode)
    requires s != "" && AddressChars(s, sep) && (sep == ':' || sep == '.')
    ensures ':' in s ==> ParseIp(s, mode) == match ParseV6(s, mode == Lenient)
                                              case None => None
                                              case Some(v) => Some(Folded(V6(v), mode))
    ensures ':' !in s ==> ParseIp(s, mode) == match ParseV4(s)
                                               case None => None
                                               case Some(v) => Some(V4(v))
  {
    PlainAddress(s, sep);
    hide ParseV4, ParseV6, IsMapped, AddressChars;
  }

  /** Printing an address and reading it gives it back; the lenient reader folds the IPv4-mapped range. */
  lemma FormatReads(ip: Ip, mode: Mode)
    requires ValidIp(ip)
    ensures ParseIp(FormatIp(ip), mode) == Some(Folded(ip, mode))
  {
    match ip
    case V4(n) => FormatReadsV4(n, mode);
    case V6(n) => FormatReadsV6(n, mode);
  }

  lemma FormatReadsV4(n: nat, mode: Mode)
    requires ValidIp(V4(n))
    ensures ParseIp(FormatIp(V4(n)), mode) == Some(V4(n))
  {
    V4RoundTrip(n);
    NumeralsAreGroups(10, Of(256, 4, n));
    JoinPunctuated(Numerals(10, Of(256, 4, n)), '.');
    var s := FormatIp(V4(n));
    assert ':' !in s;
    hide ParseIp, ParseV4, ParseV6, Numerals, AllGroups;
    PlainReads(s, '.', mode);
  }

  lemma FormatReadsV6(n: nat, mode: Mode)
    requires ValidIp(V6(n))
    ensures ParseIp(FormatIp(V6(n)), mode) == Some(Folded(V6(n), mode))
  {
    NumeralsAreGroups(16, Of(65536, 8, n));
    HextetsRead(n);
    hide ParseIp, ParseV4, ParseV6, Numerals, AllGroups, Compressed, HextetNumber;
    GapReads(Numerals(16, Of(65536, 8, n)), mode == Lenient);
    PlainReads(FormatIp(V6(n)), ':', mode);
  }

  // ---- What is read is a number of its width ----

  lemma {:induction false} NumeralBelow(base: nat, s: string, k: nat)
    requires 2 <= base <= 16 && IsNumeral(base, s) && |s| <= k
    ensures NumeralValue(base, s) < Pow(base, k)
  {
    OfValue(base, NumeralDigits(base, s));
    PowGrows(base, |s|, k);
  }

  lemma {:induction false} PowGrows(base: nat, a: nat, b: nat)
    requires a <= b && base > 0
    ensures Pow(base, a) <= Pow(base, b)
  {
    if a < b {
      PowGrows(base, a, b - 1);
      PowPositive(base, b - 1);
      assert Pow(base, b) == base * Pow(base, b - 1);
    }
  }

  lemma ReadV4Valid(s: string)
    ensures ParseV4(s).Some? ==> ValidIp(V4(ParseV4(s).value))
  {
    hide IsOctet;
    if ParseV4(s).Some? {
      var ds := Values(OctetValue, Split(s, '.'));
      forall i | 0 <= i < |ds|
        ensures ds[i] < 256
      {
        OctetSmall(Split(s, '.')[i]);
      }
      OfValue(256, ds);
    }
  }

  lemma OctetSmall(part: string)
    ensures OctetValue(part) < 256
  {}

  lemma HextetSmall(part: string)
    ensures HextetValue(part) < 65536
  {
    if IsHextet(part) {
      NumeralBelow(16, part, 4);
      assert Pow(16, 2) == 256 && Pow(16, 4) == 65536;
    }
  }

  lemma HextetsValid(parts: Option<seq<string>>)
    ensures var v := HextetNumber(parts); v.Some? ==> v.value < Pow(65536, |parts.value|)
  {
    if HextetNumber(parts).Some? {
      hide IsHextet;
      var ds := Values(HextetValue, parts.value);
      forall i | 0 <= i < |ds|
        ensures ds[i] < 65536
      {
        HextetSmall(parts.value[i]);
      }
      OfValue(65536, ds);
    }
  }

  lemma ReadPartsValid(gap: bool, head: seq<string>, tail: seq<string>, embeddedV4: bool)
    ensures var v := ParseParts(gap, head, tail, embeddedV4); v.Some? ==> v.value < Pow(65536, 8)
  {
    var parts := head + tail;
    HextetsValid(Filled(gap, |head|, parts, 8));
    if parts != [] {
      var rest := parts[..|parts| - 1];
      ReadV4Valid(parts[|parts| - 1]);
      HextetsValid(Filled(gap, if |head| <= |rest| then |head| else |rest|, rest, 6));
      assert Pow(256, 4) == Pow(65536, 2) == 0x1_0000_0000;
      assert Pow(65536, 8) == Pow(65536, 6) * Pow(65536, 2) == Pow(65536, 6) * 0x1_0000_0000;
    }
    hide HextetNumber, ParseV4, Pow, Filled;
  }

  lemma ReadV6Valid(s: string, embeddedV4: bool)
    ensures ParseV6(s, embeddedV4).Some? ==> ValidIp(V6(ParseV6(s, embeddedV4).value))
  {
    hide ParseParts, FirstDouble, PartsOf, Pow;
    HextetPow(8);
    var k := FirstDouble(s);
    ReadPartsValid(k < |s|, PartsOf(if k < |s| then s[..k] else s), PartsOf(if k < |s| then s[k + 2..] else ""),
                   embeddedV4);
  }

  lemma FoldedOnce(ip: Ip, mode: Mode)
    requires ValidIp(ip)
    ensures ValidIp(Folded(ip, mode)) && Folded(Folded(ip, mode), mode) == Folded(ip, mode)
  {
    assert MAPPED_SIZE == Pow(256, 4);
    hide Pow;
  }

  /** What is read is a number of its family's width, and lenient reading leaves nothing to fold. */
  lemma ReadValid(s: string, mode: Mode)
    ensures ParseIp(s, mode).Some? ==>
              ValidIp(ParseIp(s, mode).value) && Folded(ParseIp(s, mode).value, mode) == ParseIp(s, mode).value
  {
    hide ParseV4, ParseV6, DnsNames.Trim, Split, Folded, ValidIp;
    var t := Split(DnsNames.Trim(s), '%')[0];
    ReadV4Valid(t);
    ReadV6Valid(t, mode == Lenient);
    if ParseV4(t).Some? {
      FoldedOnce(V4(ParseV4(t).value), mode);
      NothingToFold(ParseV4(t).value, mode);
    }
    if ParseV6(t, mode == Lenient).Some? {
      FoldedOnce(V6(ParseV6(t, mode == Lenient).value), mode);
    }
  }

  lemma NothingToFold(n: nat, mode: Mode)
    ensures Folded(V4(n), mode) == V4(n)
  {}

  // ---- Canonical spellings ----

  /** canonicalizeIp */
  function CanonicalizeIp(str: string): Option<string> {
    var ip := ParseIp(str, Lenient);
    if ip.None? then None else Some(FormatIp(ip.value))
  }

  /** The canonical spelling is its own. */
  lemma CanonicalizeTwice(str: string)
    ensures CanonicalizeIp(str).Some? ==> CanonicalizeIp(CanonicalizeIp(str).value) == CanonicalizeIp(str)
  {
    hide ParseIp, FormatIp;
    var ip := ParseIp(str, Lenient);
    if ip.Some? {
      ReadValid(str, Lenient);
      FormatReads(ip.value, Lenient);
    }
  }

  /** Two texts have one canonical spelling exactly when they are one address. */
  lemma SameSpellingExactly(s: string, t: string)
    requires ParseIp(s, Lenient).Some? && ParseIp(t, Lenient).Some?
    ensures CanonicalizeIp(s) == CanonicalizeIp(t) <==> ParseIp(s, Lenient) == ParseIp(t, Lenient)
  {
    hide ParseIp, FormatIp;
    ReadValid(s, Lenient);
    ReadValid(t, Lenient);
    FormatReads(ParseIp(s, Lenient).value, Lenient);
    FormatReads(ParseIp(t, Lenient).value, Lenient);
  }

  // ---- Networks ----

  function Bits(ip: Ip): nat {
    if ip.V4? then 32 else 128
  }

  /** A network: its first address and its prefix length. */
  datatype Entry = Entry(network: Ip, prefix: nat)

  /** v & mask: the host bits cleared. */
  function Masked(ip: Ip, prefix: nat): Ip
    requires prefix <= Bits(ip)
  {
    var hosts := Bits(ip) - prefix;
    match ip
    case V4(n) => V4(Cleared(n, hosts))
    case V6(n) => V6(Cleared(n, hosts))
  }

  function Cleared(n: nat, hosts: nat): nat {
    PowPositive(2, hosts);
    n / Pow(2, hosts) * Pow(2, hosts)
  }

  function PrefixOf(text: string, bits: nat): Option<nat> {
    if 1 <= |text| <= 3 && IsNumeral(10, text) && NumeralValue(10, text) <= bits
    then Some(NumeralValue(10, text)) else None
  }

  /** parseCidrEntry */
  function ParseCidr(entry: string): Option<Entry> {
    var segments := Split(DnsNames.Trim(entry), '/');
    if |segments| > 2 then None
    else
      var ip := ParseIp(segments[0], Strict);
      if ip.None? then None
      else
        var prefix := if |segments| == 2 then PrefixOf(segments[1], Bits(ip.value)) else Some(Bits(ip.value));
        if prefix.None? || prefix.value > Bits(ip.value) then None
        else Some(Entry(Masked(ip.value, prefix.value), prefix.value))
  }

  /** formatCidrEntry */
  function FormatCidr(e: Entry): string {
    FormatIp(e.network) + "/" + Numeral(10, e.prefix)
  }

  /** canonicalizeIpOrCidr */
  function CanonicalizeIpOrCidr(value: string): Option<string> {
    var e := ParseCidr(value);
    if e.None? then None else Some(FormatCidr(e.value))
  }

  ghost predicate IsNetwork(e: Entry) {
    ValidIp(e.network) && e.prefix <= Bits(e.network) && Masked(e.network, e.prefix) == e.network
  }

  lemma ClearedTwice(n: nat, hosts: nat)
    ensures Cleared(n, hosts) <= n && Cleared(Cleared(n, hosts), hosts) == Cleared(n, hosts)
  {
    PowPositive(2, hosts);
    var size := Pow(2, hosts);
    var q, r := n / size, n % size;
    assert n == q * size + r;
    Quotient(q, size, 0);
  }

  lemma MaskedIsNetwork(ip: Ip, prefix: nat)
    requires ValidIp(ip) && prefix <= Bits(ip)
    ensures IsNetwork(Entry(Masked(ip, prefix), prefix))
  {
    ClearedTwice(ip.n, Bits(ip) - prefix);
    hide Pow, Cleared;
  }

  lemma ReadNetwork(s: string)
    ensures ParseCidr(s).Some? ==> IsNetwork(ParseCidr(s).value)
  {
    hide ParseIp, Split, DnsNames.Trim, PrefixOf, Masked, ValidIp, IsNetwork, Folded;
    if ParseCidr(s).Some? {
      var segment := Split(DnsNames.Trim(s), '/')[0];
      ReadValid(segment, Strict);
      MaskedIsNetwork(ParseIp(segment, Strict).value, ParseCidr(s).value.prefix);
    }
  }

  lemma PrintedIp(ip: Ip)
    ensures var s := FormatIp(ip); s != "" && exists sep :: (sep == ':' || sep == '.') && AddressChars(s, sep)
  {
    match ip
    case V4(n) =>
      NumeralsAreGroups(10, Of(256, 4, n));
      JoinPunctuated(Numerals(10, Of(256, 4, n)), '.');
    case V6(n) =>
      hide ParseV6, HextetNumber;
      NumeralsAreGroups(16, Of(65536, 8, n));
      GapReads(Numerals(16, Of(65536, 8, n)), false);
  }

  lemma PrefixReads(prefix: nat, bits: nat)
    requires prefix <= bits <= 128
    ensures PrefixOf(Numeral(10, prefix), bits) == Some(prefix)
    ensures forall c :: c in Numeral(10, prefix) ==> '0' <= c <= '9' || 'a' <= c <= 'f'
  {
    NumeralReads(10, prefix);
    NumeralChars(10, prefix);
    assert Pow(10, 1) == 10 && Pow(10, 2) == 100 && Pow(10, 3) == 1000;
    NumeralLength(10, prefix, 3);
  }

  ghost predicate Inner(s: string) {
    s != "" && '/' !in s && !DnsNames.IsSpace(s[0]) && !DnsNames.IsSpace(s[|s| - 1])
  }

  lemma TwoSegments(a: string, b: string)
    requires Inner(a) && Inner(b)
    ensures Split(DnsNames.Trim(a + "/" + b), '/') == [a, b]
  {
    var s := a + "/" + b;
    assert s[0] == a[0] && s[|s| - 1] == b[|b| - 1];
    DnsNames.TrimNoop(s);
    SplitFree(b, '/');
    SplitFirst(a, b, '/');
  }

  lemma CharsInner(s: string, sep: char)
    requires s != "" && AddressChars(s, sep) && (sep == ':' || sep == '.')
    ensures Inner(s)
  {}

  /** An entry's text splits into its two parts. */
  lemma CidrSplits(e: Entry)
    requires e.prefix <= Bits(e.network)
    ensures Split(DnsNames.Trim(FormatCidr(e)), '/') == [FormatIp(e.network), Numeral(10, e.prefix)]
  {
    var a, b := FormatIp(e.network), Numeral(10, e.prefix);
    PrintedIp(e.network);
    PrefixReads(e.prefix, Bits(e.network));
    hide FormatIp, Numeral, PrefixOf, Inner;
    var sep :| (sep == ':' || sep == '.') && AddressChars(a, sep);
    CharsInner(a, sep);
    assert forall i :: 0 <= i < |b| ==> b[i] in b;
    CharsInner(b, '.');
    TwoSegments(a, b);
  }

  /** Printing a network and reading it gives it back. */
  lemma CidrReads(e: Entry)
    requires IsNetwork(e)
    ensures ParseCidr(FormatCidr(e)) == Some(e)
  {
    CidrSplits(e);
    FormatReads(e.network, Strict);
    PrefixReads(e.prefix, Bits(e.network));
    hide FormatIp, Numeral, PrefixOf, ParseIp, Masked, Split, FormatCidr;
  }

  /** Canonicalising an allowlist value changes its spelling only: it still reads as the same network. */
  lemma CanonicalKeepsNetwork(s: string)
    ensures CanonicalizeIpOrCidr(s).Some? ==> ParseCidr(CanonicalizeIpOrCidr(s).value) == ParseCidr(s)
  {
    hide ParseCidr, FormatCidr, IsNetwork;
    ReadNetwork(s);
    if ParseCidr(s).Some? {
      CidrReads(ParseCidr(s).value);
    }
  }

  lemma CanonicalIsItsOwn(s: string)
    ensures CanonicalizeIpOrCidr(s).Some? ==>
              CanonicalizeIpOrCidr(CanonicalizeIpOrCidr(s).value) == CanonicalizeIpOrCidr(s)
  {
    hide ParseCidr, FormatCidr;
    CanonicalKeepsNetwork(s);
  }

  /** Two values have one canonical text exactly when they are one network. */
  lemma SameNetworkExactly(s: string, t: string)
    requires ParseCidr(s).Some? && ParseCidr(t).Some?
    ensures CanonicalizeIpOrCidr(s) == CanonicalizeIpOrCidr(t) <==> ParseCidr(s) == ParseCidr(t)
  {
    hide ParseCidr, FormatCidr;
    CanonicalKeepsNetwork(s);
    CanonicalKeepsNetwork(t);
  }

  // ---- The loops ----

  lemma DivDiv(n: nat, a: nat, b: nat)
    requires a > 0 && b > 0
    ensures a * b > 0 && n / a / b == n / (a * b)
  {
    var q, r := n / a, n % a;
    var s, t := q / b, q % b;
    Nest(n, b, a, q, r, s, t);
    Below(t, b, a, r);
    Quotient(s, b * a, t * a + r);
  }

  /** A digit is what a shift and a mask take out. */
  lemma {:induction false} OfAt(base: nat, count: nat, n: nat, i: nat)
    requires base > 0 && i < count
    ensures Pow(base, count - 1 - i) > 0 && Of(base, count, n)[i] == n / Pow(base, count - 1 - i) % base
    decreases count
  {
    PowPositive(base, count - 1 - i);
    if i < count - 1 {
      OfAt(base, count - 1, n / base, i);
      DivDiv(n, base, Pow(base, count - 2 - i));
    }
  }

  lemma {:induction false} RunInside(groups: seq<string>, i: nat, j: nat)
    requires i <= j <= |groups| && (forall k :: i <= k < j ==> groups[k] == "0") && (j < |groups| ==> groups[j] != "0")
    ensures forall k :: i <= k <= j ==> RunAt(groups, k) == j - k
    decreases j - i
  {
    if i < j {
      RunInside(groups, i + 1, j);
      assert RunAt(groups, i) == 1 + RunAt(groups, i + 1);
    }
  }

  /** The scan for the gap: skip to each run of zeros, measure it, keep a strictly longer one. */
  method FindGap(groups: seq<string>) returns (start: nat, length: nat)
    ensures length == BestFrom(groups, 0).length && (length > 0 ==> start == BestFrom(groups, 0).start)
  {
    start, length := 0, 0;
    var i := 0;
    while i < |groups|
      invariant i <= |groups|
      invariant forall k :: 0 <= k < i ==> RunAt(groups, k) <= length
      invariant length > 0 ==> start < i && RunAt(groups, start) == length
      invariant length > 0 ==> forall k :: 0 <= k < start ==> RunAt(groups, k) < length
    {
      if groups[i] != "0" {
        i := i + 1;
        continue;
      }
      var j := i;
      while j < |groups| && groups[j] == "0"
        invariant i <= j <= |groups| && forall k :: i <= k < j ==> groups[k] == "0"
      {
        j := j + 1;
      }
      RunInside(groups, i, j);
      if j - i > length {
        start, length := i, j - i;
      }
      i := j;
    }
    var best := BestFrom(groups, 0);
    assert best.length > 0 ==> best.start < |groups|;
  }

  /** formatIp */
  method FormatAddress(value: nat, bits: nat) returns (text: string)
    requires bits == 32 || bits == 128
    ensures text == FormatIp(if bits == 32 then V4(value) else V6(value))
  {
    hide FormatIp, Compressed;
    if bits == 32 {
      text := FormatV4(value);
    } else {
      text := FormatV6(value);
    }
  }

  method FormatV4(value: nat) returns (text: string)
    ensures text == FormatIp(V4(value))
  {
    hide Numeral, Of, JoinParts;
    var octets: seq<string> := [];
    for k := 0 to 4
      invariant octets == Numerals(10, Of(256, 4, value))[..k]
    {
      OfAt(256, 4, value, k);
      octets := octets + [Numeral(10, value / Pow(256, 3 - k) % 256)];
    }
    assert octets == Numerals(10, Of(256, 4, value));
    text := JoinParts(octets, '.');
  }

  method FormatV6(value: nat) returns (text: string)
    ensures text == FormatIp(V6(value))
  {
    hide Numeral, Of, JoinParts, BestFrom;
    var groups: seq<string> := [];
    for k := 0 to 8
      invariant groups == Numerals(16, Of(65536, 8, value))[..k]
    {
      OfAt(65536, 8, value, k);
      groups := groups + [Numeral(16, value / Pow(65536, 7 - k) % 65536)];
    }
    assert groups == Numerals(16, Of(65536, 8, value));
    var start, length := FindGap(groups);
    if length >= 2 {
      return JoinParts(groups[..start], ':') + "::" + JoinParts(groups[start + length..], ':');
    }
    return JoinParts(groups, ':');
  }
}
