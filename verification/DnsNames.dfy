/** Record names under the zone-file rule (server/src/utils/dns-names.js). */
module DnsNames {

  /** What String.prototype.trim removes. */
  predicate IsSpace(c: char) {
    var u := c as int;
    || 9 <= u <= 13 || u == 32 || u == 0xA0 || u == 0x1680 || 0x2000 <= u <= 0x200A
    || u == 0x2028 || u == 0x2029 || u == 0x202F || u == 0x205F || u == 0x3000 || u == 0xFEFF
  }

  function LowerChar(c: char): char {
    if 'A' <= c <= 'Z' then c - 'A' + 'a' else c
  }

  function Lower(s: string): (r: string)
    ensures |r| == |s|
  {
    seq(|s|, i requires 0 <= i < |s| => LowerChar(s[i]))
  }

  function TrimLeft(s: string): (r: string)
    ensures r != "" ==> !IsSpace(r[0])
    ensures |r| <= |s| && r == s[|s| - |r|..]
  {
    if s != "" && IsSpace(s[0]) then TrimLeft(s[1..]) else s
  }

  function TrimRight(s: string): (r: string)
    ensures r != "" ==> !IsSpace(r[|r| - 1])
    ensures |r| <= |s| && r == s[..|r|]
  {
    if s != "" && IsSpace(s[|s| - 1]) then TrimRight(s[..|s| - 1]) else s
  }

  function Trim(s: string): string {
    TrimRight(TrimLeft(s))
  }

  function StripDot(s: string): string {
    if s != "" && s[|s| - 1] == '.' then s[..|s| - 1] else s
  }

  predicate EndsWith(s: string, tail: string) {
    |tail| <= |s| && s[|s| - |tail|..] == tail
  }

  function NormalizeDnsName(name: string): string {
    Lower(StripDot(Trim(name)))
  }

  /** The canonical stored form of a record name in a zone; "@" is the apex. */
  function NormalizeRecordName(name: string, zoneName: string): string {
    RelativeTo(Lower(Trim(name)), NormalizeDnsName(zoneName))
  }

  function RelativeTo(raw: string, zone: string): string {
    var normalized := StripDot(raw);
    if normalized == "@" || normalized == zone then "@"
    else if EndsWith(normalized, "." + zone) then normalized[..|normalized| - |zone| - 1]
    else if normalized != raw then normalized + "."
    else normalized
  }

  /** The name ends, spaces aside, in a dot with a space before it. */
  predicate SpaceBeforeDot(name: string) {
    var t := Trim(name);
    |t| >= 2 && t[|t| - 1] == '.' && IsSpace(t[|t| - 2])
  }

  /** A name that normalisation leaves as it is once normalised. */
  predicate Stable(name: string, zoneName: string) {
    var n := NormalizeRecordName(name, zoneName);
    NormalizeRecordName(n, zoneName) == n
  }

  // ---- Lower and Trim ----

  lemma LowerIdempotent(s: string)
    ensures Lower(Lower(s)) == Lower(s)
  {}

  lemma LowerConcat(a: string, b: string)
    ensures Lower(a + b) == Lower(a) + Lower(b)
  {}

  lemma LowerPrefix(s: string, n: nat)
    requires n <= |s|
    ensures Lower(s)[..n] == Lower(s[..n])
  {}

  lemma LowerKeepsSpace(c: char)
    ensures IsSpace(LowerChar(c)) == IsSpace(c)
    ensures LowerChar(c) == '.' <==> c == '.'
  {}

  lemma TrimNoop(s: string)
    requires s == "" || (!IsSpace(s[0]) && !IsSpace(s[|s| - 1]))
    ensures Trim(s) == s
  {}

  /** The dot is cut off after the spaces are, so a space before it is left behind, and only then. */
  lemma NormalIsTrimmedExactly(name: string)
    ensures Trim(NormalizeDnsName(name)) == NormalizeDnsName(name) <==> !SpaceBeforeDot(name)
  {
    hide IsSpace, LowerChar;
    var t, n := Trim(name), NormalizeDnsName(name);
    TrimEnds(name);
    TrimEnds(n);
    if n != "" {
      assert n[0] == LowerChar(t[0]) && n[|n| - 1] == LowerChar(t[|n| - 1]);
      LowerKeepsSpace(t[0]);
      LowerKeepsSpace(t[|n| - 1]);
    }
    if !SpaceBeforeDot(name) {
      TrimNoop(n);
    }
  }

  lemma TrimLower(s: string)
    requires s == "" || (!IsSpace(s[0]) && !IsSpace(s[|s| - 1]))
    ensures Trim(Lower(s)) == Lower(s)
  {
    if s != "" {
      LowerKeepsSpace(s[0]);
      LowerKeepsSpace(s[|s| - 1]);
    }
  }

  lemma TrimEnds(s: string)
    ensures Trim(s) == "" || (!IsSpace(Trim(s)[0]) && !IsSpace(Trim(s)[|Trim(s)| - 1]))
  {
    var l := TrimLeft(s);
    var r := TrimRight(l);
    if r != "" {
      assert r[0] == l[0];
    }
  }

  lemma TrimLeftConcat(s: string, t: string)
    requires t != "" && !IsSpace(t[0])
    ensures TrimLeft(s + t) == TrimLeft(s) + t
  {
    if s == "" {
      assert s + t == t;
    } else {
      assert (s + t)[1..] == s[1..] + t;
      if IsSpace(s[0]) {
        TrimLeftConcat(s[1..], t);
      }
    }
  }

  lemma NormalIsLower(name: string, zoneName: string)
    ensures Lower(NormalizeRecordName(name, zoneName)) == NormalizeRecordName(name, zoneName)
  {
    var raw := Lower(Trim(name));
    LowerIdempotent(Trim(name));
    var normalized := StripDot(raw);
    if raw != normalized {
      LowerPrefix(raw, |raw| - 1);
    }
    assert Lower(normalized) == normalized;
    var zone := NormalizeDnsName(zoneName);
    if EndsWith(normalized, "." + zone) {
      LowerPrefix(normalized, |normalized| - |zone| - 1);
    }
    LowerConcat(normalized, ".");
    assert Lower(".") == ".";
    assert Lower("@") == "@";
  }

  // ---- Names without dots ----

  predicate DotFree(s: string) {
    forall i :: 0 <= i < |s| ==> s[i] != '.'
  }

  lemma DotFreeNormal(name: string, zoneName: string)
    requires DotFree(name)
    ensures NormalizeRecordName(name, zoneName)
         == var n := Lower(Trim(name)); if n == "@" || n == NormalizeDnsName(zoneName) then "@" else n
  {
    var t := Trim(name);
    var raw := Lower(t);
    assert DotFree(t);
    forall i | 0 <= i < |raw| ensures raw[i] != '.' {
      LowerKeepsSpace(t[i]);
    }
    DottedTail(raw, NormalizeDnsName(zoneName));
  }

  lemma DottedTail(s: string, zone: string)
    ensures EndsWith(s, "." + zone) ==> s[|s| - |zone| - 1] == '.'
  {
    if EndsWith(s, "." + zone) {
      assert s[|s| - |zone| - 1..][0] == ("." + zone)[0];
    }
  }

  lemma ApexIsPlain()
    ensures Lower(Trim("@")) == "@" && StripDot("@") == "@"
  {
    assert !IsSpace('@') && LowerChar('@') == '@';
    hide IsSpace, LowerChar;
    assert TrimLeft("@") == "@" && TrimRight("@") == "@";
    assert Lower("@")[0] == '@';
  }

  lemma ApexIsStable(zoneName: string)
    ensures NormalizeRecordName("@", zoneName) == "@"
  {
    hide NormalizeDnsName, Lower, Trim, EndsWith;
    ApexIsPlain();
  }

  lemma LowerTrimmed(name: string)
    requires DotFree(name)
    ensures var n := Lower(Trim(name)); DotFree(n) && Lower(Trim(n)) == n
  {
    var t := Trim(name);
    forall i | 0 <= i < |t| ensures Lower(t)[i] != '.' {
      LowerKeepsSpace(t[i]);
    }
    TrimEnds(name);
    TrimLower(t);
    LowerIdempotent(t);
  }

  /** A single label survives a second normalisation unchanged. */
  lemma DotFreeIsStable(name: string, zoneName: string)
    requires DotFree(name)
    ensures Stable(name, zoneName)
  {
    LowerTrimmed(name);
    ApexIsStable(zoneName);
    DotFreeNormal(name, zoneName);
    DotFreeNormal(Lower(Trim(name)), zoneName);
  }

  /** Lower-case text without dots or spaces. */
  predicate PlainLower(s: string) {
    s != "" && forall i :: 0 <= i < |s| ==> s[i] != '.' && !IsSpace(s[i]) && LowerChar(s[i]) == s[i]
  }

  lemma RelativeOfTail(head: string, zone: string)
    requires zone != "" && zone[|zone| - 1] != '.' && head != ""
    ensures RelativeTo(head + "." + zone, zone) == head
  {
    var x := head + "." + zone;
    assert x[|x| - 1] == zone[|zone| - 1];
    assert x[|head|..] == "." + zone && x[..|head|] == head;
  }

  lemma PlainText(s: string)
    requires s != "" && !IsSpace(s[0]) && !IsSpace(s[|s| - 1])
    requires forall i :: 0 <= i < |s| ==> LowerChar(s[i]) == s[i]
    ensures Lower(Trim(s)) == s
  {
    TrimNoop(s);
  }

  /** Not every name is stable: a doubled zone suffix loses one copy a pass. */
  lemma DoubledZoneIsNotStable(host: string, zone: string)
    requires PlainLower(host) && PlainLower(zone)
    ensures NormalizeRecordName(host + "." + zone + "." + zone, zone) == host + "." + zone
    ensures NormalizeRecordName(host + "." + zone, zone) == host
    ensures !Stable(host + "." + zone + "." + zone, zone)
  {
    PlainText(host + "." + zone);
    PlainText(host + "." + zone + "." + zone);
    TrimNoop(zone);
    assert Lower(zone) == zone;
    RelativeOfTail(host, zone);
    RelativeOfTail(host + "." + zone, zone);
  }

  lemma PlainHostNames(host: string, zone: string)
    requires PlainLower(host) && PlainLower(zone) && host != "@" && host != zone
    ensures host != "" && Lower(host) == host == NormalizeRecordName(host, zone)
    ensures Lower(host + "." + zone) == host + "." + zone != host
    ensures NormalizeRecordName(host + "." + zone, zone) == host
  {
    hide NormalizeRecordName, NormalizeDnsName, RelativeTo, Trim, Stable, Lower;
    PlainHost(host, zone);
    DoubledZoneIsNotStable(host, zone);
    LowerFixed(host);
    LowerFixed(host + "." + zone);
    assert |host + "." + zone| > |host|;
  }

  lemma LowerFixed(s: string)
    requires forall i :: 0 <= i < |s| ==> LowerChar(s[i]) == s[i]
    ensures Lower(s) == s
  {}

  lemma PlainHost(host: string, zone: string)
    requires PlainLower(host) && PlainLower(zone) && host != "@" && host != zone
    ensures host == NormalizeRecordName(host, zone)
  {
    PlainText(host);
    PlainText(zone);
    TrimNoop(zone);
    DotFreeNormal(host, zone);
  }

  // ---- The 256 suffixes of ADR 005 ----

  function HexUpper(d: nat): char
    requires d < 16
  {
    "0123456789ABCDEF"[d]
  }

  /** -00 through -FF. */
  function NameSuffix(i: nat): (s: string)
    requires i < 256
    ensures |s| == 3
  {
    ['-', HexUpper(i / 16), HexUpper(i % 16)]
  }

  lemma HexDistinct(a: nat, b: nat)
    requires a < 16 && b < 16 && LowerChar(HexUpper(a)) == LowerChar(HexUpper(b))
    ensures a == b
  {}

  lemma HexIsVisible(a: nat)
    requires a < 16
    ensures !IsSpace(HexUpper(a)) && HexUpper(a) != '.' && LowerChar(HexUpper(a)) != '.'
    ensures '0' <= LowerChar(HexUpper(a)) <= '9' || 'a' <= LowerChar(HexUpper(a)) <= 'f'
  {}

  lemma SuffixDistinct(i: nat, j: nat)
    requires i < 256 && j < 256 && Lower(NameSuffix(i))[1..] == Lower(NameSuffix(j))[1..]
    ensures i == j
  {
    var a, b := Lower(NameSuffix(i)), Lower(NameSuffix(j));
    assert a[1] == a[1..][0] && a[2] == a[1..][1] && b[1] == b[1..][0] && b[2] == b[1..][1];
    HexDistinct(i / 16, j / 16);
    HexDistinct(i % 16, j % 16);
  }

  /** The text a suffixed name has before the zone is taken off. */
  lemma SuffixedRaw(base: string, i: nat)
    requires i < 256
    ensures Lower(Trim(base + NameSuffix(i))) == Lower(TrimLeft(base)) + Lower(NameSuffix(i))
    ensures StripDot(Lower(Trim(base + NameSuffix(i)))) == Lower(Trim(base + NameSuffix(i)))
  {
    var suffix := NameSuffix(i);
    HexIsVisible(i / 16);
    HexIsVisible(i % 16);
    TrimLeftConcat(base, suffix);
    var l := TrimLeft(base) + suffix;
    assert l[|l| - 1] == suffix[2];
    assert Trim(base + suffix) == l;
    LowerConcat(TrimLeft(base), suffix);
    var raw := Lower(l);
    assert raw[|raw| - 1] == LowerChar(suffix[2]);
  }

  /** Two texts that differ in their last two characters name different records. */
  lemma RelativeDistinct(stem: string, i: nat, j: nat, zone: string)
    requires i < 256 && j < 256 && i != j
    requires StripDot(stem + Lower(NameSuffix(i))) == stem + Lower(NameSuffix(i))
    requires StripDot(stem + Lower(NameSuffix(j))) == stem + Lower(NameSuffix(j))
    ensures RelativeTo(stem + Lower(NameSuffix(i)), zone) != RelativeTo(stem + Lower(NameSuffix(j)), zone)
  {
    var a, b := Lower(NameSuffix(i)), Lower(NameSuffix(j));
    var x, y := stem + a, stem + b;
    if x == y {
      assert a == x[|stem|..] == y[|stem|..] == b;
      SuffixDistinct(i, j);
    }
    if EndsWith(x, "." + zone) && EndsWith(y, "." + zone) {
      SameTail(stem, i, j, zone);
    }
  }

  /** No two of the 256 suffixes give one record name, whatever the base and the zone. */
  lemma SuffixedNamesDistinct(base: string, i: nat, j: nat, zoneName: string)
    requires i < 256 && j < 256 && i != j
    ensures NormalizeRecordName(base + NameSuffix(i), zoneName)
         != NormalizeRecordName(base + NameSuffix(j), zoneName)
  {
    SuffixedRaw(base, i);
    SuffixedRaw(base, j);
    RelativeDistinct(Lower(TrimLeft(base)), i, j, NormalizeDnsName(zoneName));
  }

  lemma SameTail(stem: string, i: nat, j: nat, zone: string)
    requires i < 256 && j < 256
    requires EndsWith(stem + Lower(NameSuffix(i)), "." + zone)
    requires EndsWith(stem + Lower(NameSuffix(j)), "." + zone)
    ensures i == j
  {
    var a, b := Lower(NameSuffix(i)), Lower(NameSuffix(j));
    var x, y, tail := stem + a, stem + b, "." + zone;
    HexIsVisible(i / 16);
    HexIsVisible(i % 16);
    DottedTail(x, zone);
    assert x[|x| - 1] == a[2] && x[|x| - 2] == a[1];
    assert |tail| >= 3;
    assert x[|x| - |tail|..][|tail| - 1] == tail[|tail| - 1] == y[|y| - |tail|..][|tail| - 1];
    assert x[|x| - |tail|..][|tail| - 2] == tail[|tail| - 2] == y[|y| - |tail|..][|tail| - 2];
    assert a[1] == b[1] && a[2] == b[2];
    assert a[1..] == b[1..];
    SuffixDistinct(i, j);
  }

  /** A single host label that neither is the zone's own name nor becomes it with a suffix. */
  ghost predicate HostLabel(h: string, zoneName: string) {
    && h != "" && DotFree(h) && (forall i :: 0 <= i < |h| ==> !IsSpace(h[i]))
    && Lower(h) != "@" && Lower(h) != NormalizeDnsName(zoneName)
    && forall i :: 0 <= i < 256 ==> Lower(h) + Lower(NameSuffix(i)) != NormalizeDnsName(zoneName)
  }

  lemma HostLabelNormal(h: string, zoneName: string)
    requires HostLabel(h, zoneName)
    ensures NormalizeRecordName(h, zoneName) == Lower(h)
  {
    TrimNoop(h);
    DotFreeNormal(h, zoneName);
  }

  lemma HostSuffixNormal(h: string, i: nat, zoneName: string)
    requires HostLabel(h, zoneName) && i < 256
    ensures NormalizeRecordName(h + NameSuffix(i), zoneName) == Lower(h) + Lower(NameSuffix(i))
  {
    var x := h + NameSuffix(i);
    HexIsVisible(i / 16);
    HexIsVisible(i % 16);
    assert DotFree(x);
    TrimNoop(x);
    LowerConcat(h, NameSuffix(i));
    DotFreeNormal(x, zoneName);
    assert |Lower(x)| >= 3;
  }
}
