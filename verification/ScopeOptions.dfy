/** Option layering of a DHCP scope (server/src/models/dhcp-scope.js); "" is a missing value. */
module ScopeOptions {
  import opened Options

  datatype Family = IPv4 | IPv6

  /** The network a scope belongs to, as both the save and the resolver read it. */
  datatype Subnet = Subnet(family: Family, gateway: string, mask: string, broadcast: string, domain: string)

  /** The scope's own columns, which predate option rows. */
  datatype Legacy =
    Legacy(gateway: string, domainName: string, domainSearch: string, ntpServers: string, dnsServers: string)

  /** A stored row; no value means the row follows the default. */
  datatype Row = Row(code: nat, value: Option<string>)

  datatype Submitted = Submitted(code: nat, useDefault: bool, value: string)

  datatype Source = FromDefault | FromScope | FromLegacy | FromNetwork | NoRouter

  /** The two Maps of the resolver. */
  datatype Served = Served(values: map<nat, string>, provenance: map<nat, Source>)

  function Set(s: Served, code: nat, value: string, source: Source): Served {
    if value == "" then s else Served(s.values[code := value], s.provenance[code := source])
  }

  function Fallback(s: Served, code: nat, value: string, source: Source): Served {
    if code in s.values then s else Set(s, code, value, source)
  }

  function DefaultFor(defaults: map<nat, string>, code: nat): string {
    if code in defaults then defaults[code] else ""
  }

  /** Code 51 is the lease time on IPv4. */
  predicate IsLeaseTime(family: Family, code: nat) {
    family == IPv4 && code == 51
  }

  function Linked(family: Family, defaults: map<nat, string>, rows: seq<Row>): Served {
    if rows == [] then Served(map[], map[])
    else
      var r := rows[|rows| - 1];
      var before := Linked(family, defaults, rows[..|rows| - 1]);
      if r.value.Some? || IsLeaseTime(family, r.code) then before
      else Set(before, r.code, DefaultFor(defaults, r.code), FromDefault)
  }

  function Explicit(family: Family, s: Served, rows: seq<Row>): Served {
    if rows == [] then s
    else
      var r := rows[|rows| - 1];
      var before := Explicit(family, s, rows[..|rows| - 1]);
      if r.value.None? || IsLeaseTime(family, r.code) then before else Set(before, r.code, r.value.value, FromScope)
  }

  predicate HasExplicit(rows: seq<Row>) {
    exists r :: r in rows && r.value.Some?
  }

  function LegacyFallback(s: Served, legacy: Legacy): Served {
    Set(Set(Set(Set(s, 3, legacy.gateway, FromLegacy), 15, legacy.domainName, FromLegacy),
            42, legacy.ntpServers, FromLegacy), 119, legacy.domainSearch, FromLegacy)
  }

  function WithRouter(s: Served, gateway: string): Served {
    if gateway != "" then Set(s, 3, gateway, FromNetwork)
    else Served(s.values - {3}, s.provenance[3 := NoRouter])
  }

  function Network4(s: Served, subnet: Subnet): Served {
    var masked := Set(Set(s, 1, subnet.mask, FromNetwork), 28, subnet.broadcast, FromNetwork);
    Fallback(Fallback(WithRouter(masked, subnet.gateway), 15, subnet.domain, FromNetwork),
             119, subnet.domain, FromNetwork)
  }

  function Legacy6(s: Served, legacy: Legacy): Served {
    Set(Set(Set(s, 23, legacy.dnsServers, FromLegacy), 24, legacy.domainSearch, FromLegacy),
        56, legacy.ntpServers, FromLegacy)
  }

  /** resolveEffectiveScopeOptions: what a scope serves, and from where. */
  function Resolve(subnet: Subnet, legacy: Legacy, defaults: map<nat, string>, rows: seq<Row>): Served {
    var linked := Linked(subnet.family, defaults, rows);
    if subnet.family == IPv6 then
      Fallback(Explicit(IPv6, Legacy6(linked, legacy), rows),
               24, if legacy.domainName != "" then legacy.domainName else subnet.domain, FromNetwork)
    else
      var own := Explicit(IPv4, linked, rows);
      Network4(if HasExplicit(rows) then own else LegacyFallback(own, legacy), subnet)
  }

  /** computeInheritedOptions: the value the network gives a code, "" when it gives none. */
  function Inherited(subnet: Subnet, code: nat): string {
    if subnet.family == IPv6 then (if code == 24 then subnet.domain else "")
    else if code == 3 then subnet.gateway
    else if code == 1 then subnet.mask
    else if code == 28 then subnet.broadcast
    else if code == 15 || code == 119 then subnet.domain
    else ""
  }

  predicate IsBlank(o: Submitted) {
    o.code == 0 || (!o.useDefault && o.value == "")
  }

  /** A submitted value the network already gives. */
  predicate IsRedundant(subnet: Subnet, o: Submitted) {
    !o.useDefault && Inherited(subnet, o.code) != "" && o.value == Inherited(subnet, o.code)
  }

  function RowOf(o: Submitted): Row {
    Row(o.code, if o.useDefault then None else Some(o.value))
  }

  /** The rows of the submitted options: all of them, or all but the redundant ones. */
  function Stored(subnet: Subnet, options: seq<Submitted>, dropRedundant: bool): seq<Row> {
    if options == [] then []
    else
      var o := options[|options| - 1];
      var before := Stored(subnet, options[..|options| - 1], dropRedundant);
      if IsBlank(o) || (dropRedundant && IsRedundant(subnet, o)) then before else before + [RowOf(o)]
  }

  /** The submission names the lease time as an option, which the save refuses. */
  predicate Refused(subnet: Subnet, options: seq<Submitted>) {
    exists o :: o in options && !IsBlank(o) && IsLeaseTime(subnet.family, o.code)
  }

  ghost predicate DistinctCodes(options: seq<Submitted>) {
    forall i, j :: 0 <= i < j < |options| ==> options[i].code != options[j].code
  }

  // ---- What a code is served as ----

  function ValueAt(s: Served, code: nat): string {
    if code in s.values then s.values[code] else ""
  }

  /** The one submitted option of a code that is stored, if any. */
  function OptionAt(options: seq<Submitted>, code: nat): Option<Submitted> {
    if options == [] then None
    else
      var o := options[|options| - 1];
      if o.code == code && !IsBlank(o) then Some(o) else OptionAt(options[..|options| - 1], code)
  }

  predicate Keeps(subnet: Subnet, o: Option<Submitted>, dropRedundant: bool) {
    o.Some? && !(dropRedundant && IsRedundant(subnet, o.value))
  }

  lemma {:induction false} OptionAtIs(options: seq<Submitted>, code: nat)
    ensures OptionAt(options, code).Some? ==>
      OptionAt(options, code).value in options && OptionAt(options, code).value.code == code
      && !IsBlank(OptionAt(options, code).value)
    ensures (exists o :: o in options && o.code == code && !IsBlank(o)) ==> OptionAt(options, code).Some?
  {
    hide IsBlank;
    if options != [] {
      OptionAtIs(options[..|options| - 1], code);
      assert options == options[..|options| - 1] + [options[|options| - 1]];
    }
  }

  /** The linked layer by code. */
  lemma {:induction false} LinkedAt(subnet: Subnet, defaults: map<nat, string>, options: seq<Submitted>, drop: bool,
                                    code: nat)
    requires DistinctCodes(options)
    ensures var o := OptionAt(options, code);
            ValueAt(Linked(subnet.family, defaults, Stored(subnet, options, drop)), code)
            == if o.Some? && o.value.useDefault && !IsLeaseTime(subnet.family, code)
               then DefaultFor(defaults, code) else ""
    ensures forall c :: c in Linked(subnet.family, defaults, Stored(subnet, options, drop)).values ==>
              Linked(subnet.family, defaults, Stored(subnet, options, drop)).values[c] != ""
  {
    if options != [] {
      var n := |options| - 1;
      LinkedAt(subnet, defaults, options[..n], drop, code);
      OptionAtIs(options[..n], code);
      var before, o := Stored(subnet, options[..n], drop), options[n];
      assert o.code == code ==> OptionAt(options[..n], code) == None;
      LinkedNext(subnet.family, defaults, before, RowOf(o), code);
      hide Linked, DefaultFor, IsLeaseTime, Inherited;
    }
  }

  lemma LinkedNext(family: Family, defaults: map<nat, string>, rows: seq<Row>, r: Row, code: nat)
    ensures var before, after := Linked(family, defaults, rows), Linked(family, defaults, rows + [r]);
            && ValueAt(after, code) == (if r.value.None? && r.code == code && !IsLeaseTime(family, code)
                                        then Over(DefaultFor(defaults, code), ValueAt(before, code))
                                        else ValueAt(before, code))
            && (NoBlankValues(before) ==> NoBlankValues(after))
  {
    assert (rows + [r])[..|rows|] == rows;
  }

  ghost predicate NoBlankValues(s: Served) {
    forall c :: c in s.values ==> s.values[c] != ""
  }

  /** The scope's own value of a code: its stored row, or else the default a linked row follows. */
  function Own(subnet: Subnet, defaults: map<nat, string>, options: seq<Submitted>, drop: bool, code: nat): string {
    var o := OptionAt(options, code);
    if o.None? || IsLeaseTime(subnet.family, code) then ""
    else if o.value.useDefault then DefaultFor(defaults, code)
    else if Keeps(subnet, o, drop) then o.value.value
    else ""
  }

  lemma {:induction false} ExplicitAt(subnet: Subnet, s: Served, options: seq<Submitted>, drop: bool, code: nat)
    requires DistinctCodes(options) && NoBlankValues(s)
    ensures var o := OptionAt(options, code);
            ValueAt(Explicit(subnet.family, s, Stored(subnet, options, drop)), code)
            == if Keeps(subnet, o, drop) && !o.value.useDefault && !IsLeaseTime(subnet.family, code)
               then o.value.value else ValueAt(s, code)
    ensures NoBlankValues(Explicit(subnet.family, s, Stored(subnet, options, drop)))
  {
    if options == [] {
      assert Stored(subnet, options, drop) == [] && OptionAt(options, code) == None;
    } else {
      hide Explicit, ValueAt, IsRedundant, IsBlank, IsLeaseTime, NoBlankValues, DistinctCodes;
      var n := |options| - 1;
      FewerCodes(options);
      ExplicitAt(subnet, s, options[..n], drop, code);
      var before, o := Stored(subnet, options[..n], drop), options[n];
      assert o.code == code ==> OptionAt(options[..n], code) == None;
      ExplicitNext(subnet.family, s, before, RowOf(o), code);
    }
  }

  lemma FewerCodes(options: seq<Submitted>)
    requires DistinctCodes(options) && options != []
    ensures DistinctCodes(options[..|options| - 1])
    ensures OptionAt(options[..|options| - 1], options[|options| - 1].code) == None
  {
    OptionAtIs(options[..|options| - 1], options[|options| - 1].code);
  }

  lemma ExplicitNext(family: Family, s: Served, rows: seq<Row>, r: Row, code: nat)
    ensures var before, after := Explicit(family, s, rows), Explicit(family, s, rows + [r]);
            && ValueAt(after, code) == (if r.value.Some? && r.code == code && !IsLeaseTime(family, code)
                                        then Over(r.value.value, ValueAt(before, code))
                                        else ValueAt(before, code))
            && (NoBlankValues(before) ==> NoBlankValues(after))
  {
    assert (rows + [r])[..|rows|] == rows;
  }

  /** Some submitted value is stored. */
  ghost predicate StoresValue(subnet: Subnet, options: seq<Submitted>, drop: bool) {
    exists o :: o in options && !IsBlank(o) && !o.useDefault && !(drop && IsRedundant(subnet, o))
  }

  lemma HasExplicitAt(subnet: Subnet, options: seq<Submitted>, drop: bool)
    ensures HasExplicit(Stored(subnet, options, drop)) <==> StoresValue(subnet, options, drop)
  {
    hide IsRedundant, IsBlank;
    if options != [] {
      var n := |options| - 1;
      HasExplicitAt(subnet, options[..n], drop);
      assert options == options[..n] + [options[n]];
      var before, after := Stored(subnet, options[..n], drop), Stored(subnet, options, drop);
      assert forall r :: r in before ==> r in after;
      if after != before {
        assert RowOf(options[n]) in after;
      }
    }
  }

  function Over(value: string, below: string): string {
    if value != "" then value else below
  }

  function LegacyOver(legacy: Legacy, own: string, code: nat): string {
    if code == 15 then Over(legacy.domainName, own)
    else if code == 42 then Over(legacy.ntpServers, own)
    else if code == 119 then Over(legacy.domainSearch, own)
    else own
  }

  /** The IPv4 layers above the scope's own value. */
  function Final4(subnet: Subnet, legacy: Legacy, has: bool, own: string, code: nat): string {
    var low := if has then own else LegacyOver(legacy, own, code);
    if code == 3 then subnet.gateway
    else if code == 1 then Over(subnet.mask, low)
    else if code == 28 then Over(subnet.broadcast, low)
    else if code == 15 || code == 119 then Over(low, subnet.domain)
    else low
  }

  lemma Network4At(s: Served, subnet: Subnet, code: nat)
    requires NoBlankValues(s)
    ensures ValueAt(Network4(s, subnet), code)
         == if code == 3 then subnet.gateway
            else if code == 1 then Over(subnet.mask, ValueAt(s, code))
            else if code == 28 then Over(subnet.broadcast, ValueAt(s, code))
            else if code == 15 || code == 119 then Over(ValueAt(s, code), subnet.domain)
            else ValueAt(s, code)
    ensures NoBlankValues(Network4(s, subnet))
  {
    var masked := Set(Set(s, 1, subnet.mask, FromNetwork), 28, subnet.broadcast, FromNetwork);
    SetAt(s, 1, subnet.mask, code);
    SetAt(Set(s, 1, subnet.mask, FromNetwork), 28, subnet.broadcast, code);
    var routed := WithRouter(masked, subnet.gateway);
    RouterAt(masked, subnet.gateway, code);
    FallbackAt(routed, 15, subnet.domain, code);
    FallbackAt(Fallback(routed, 15, subnet.domain, FromNetwork), 119, subnet.domain, code);
    hide Set, Fallback, WithRouter, ValueAt, NoBlankValues;
  }

  lemma SetAt(s: Served, at: nat, value: string, code: nat)
    requires NoBlankValues(s)
    ensures var t := Set(s, at, value, FromNetwork);
            && NoBlankValues(t)
            && ValueAt(t, code) == if code == at then Over(value, ValueAt(s, code)) else ValueAt(s, code)
  {}

  lemma RouterAt(s: Served, gateway: string, code: nat)
    requires NoBlankValues(s)
    ensures var t := WithRouter(s, gateway);
            NoBlankValues(t) && ValueAt(t, code) == if code == 3 then gateway else ValueAt(s, code)
  {}

  lemma FallbackAt(s: Served, at: nat, value: string, code: nat)
    requires NoBlankValues(s)
    ensures var t := Fallback(s, at, value, FromNetwork);
            && NoBlankValues(t)
            && ValueAt(t, code) == if code == at then Over(ValueAt(s, code), value) else ValueAt(s, code)
  {}

  lemma LegacyFallbackAt(s: Served, legacy: Legacy, code: nat)
    requires NoBlankValues(s) && code != 3
    ensures ValueAt(LegacyFallback(s, legacy), code) == LegacyOver(legacy, ValueAt(s, code), code)
    ensures NoBlankValues(LegacyFallback(s, legacy))
  {}

  lemma LegacyFallbackSound(s: Served, legacy: Legacy)
    requires NoBlankValues(s)
    ensures NoBlankValues(LegacyFallback(s, legacy))
  {}

  lemma Served4(subnet: Subnet, legacy: Legacy, defaults: map<nat, string>, options: seq<Submitted>, drop: bool,
                code: nat)
    requires subnet.family == IPv4 && DistinctCodes(options)
    ensures var s := Resolve(subnet, legacy, defaults, Stored(subnet, options, drop));
            && ValueAt(s, code) == Final4(subnet, legacy, StoresValue(subnet, options, drop),
                                          Own(subnet, defaults, options, drop, code), code)
            && NoBlankValues(s)
  {
    hide Network4, LegacyFallback, StoresValue, Inherited, OptionAt;
    var rows := Stored(subnet, options, drop);
    LinkedAt(subnet, defaults, options, drop, code);
    var linked := Linked(IPv4, defaults, rows);
    ExplicitAt(subnet, linked, options, drop, code);
    HasExplicitAt(subnet, options, drop);
    var own := Explicit(IPv4, linked, rows);
    if !HasExplicit(rows) {
      LegacyFallbackSound(own, legacy);
      if code != 3 {
        LegacyFallbackAt(own, legacy, code);
      }
    }
    Network4At(if HasExplicit(rows) then own else LegacyFallback(own, legacy), subnet, code);
  }

  /** The IPv6 layers: default, legacy column, scope, and the search list from the scope or the network. */
  function Final6(subnet: Subnet, legacy: Legacy, linked: string, explicit: string, code: nat): string {
    var low :=
      if code == 23 then Over(legacy.dnsServers, linked)
      else if code == 24 then Over(legacy.domainSearch, linked)
      else if code == 56 then Over(legacy.ntpServers, linked)
      else linked;
    var own := Over(explicit, low);
    if code == 24 then Over(own, Over(legacy.domainName, subnet.domain)) else own
  }

  function LinkedValue(defaults: map<nat, string>, options: seq<Submitted>, code: nat): string {
    var o := OptionAt(options, code);
    if o.Some? && o.value.useDefault then DefaultFor(defaults, code) else ""
  }

  function ExplicitValue(subnet: Subnet, options: seq<Submitted>, drop: bool, code: nat): string {
    var o := OptionAt(options, code);
    if Keeps(subnet, o, drop) && !o.value.useDefault then o.value.value else ""
  }

  lemma Legacy6At(s: Served, legacy: Legacy, code: nat)
    requires NoBlankValues(s)
    ensures ValueAt(Legacy6(s, legacy), code)
         == if code == 23 then Over(legacy.dnsServers, ValueAt(s, code))
            else if code == 24 then Over(legacy.domainSearch, ValueAt(s, code))
            else if code == 56 then Over(legacy.ntpServers, ValueAt(s, code))
            else ValueAt(s, code)
    ensures NoBlankValues(Legacy6(s, legacy))
  {}

  lemma Served6(subnet: Subnet, legacy: Legacy, defaults: map<nat, string>, options: seq<Submitted>, drop: bool,
                code: nat)
    requires subnet.family == IPv6 && DistinctCodes(options)
    ensures var s := Resolve(subnet, legacy, defaults, Stored(subnet, options, drop));
            && ValueAt(s, code) == Final6(subnet, legacy, LinkedValue(defaults, options, code),
                                          ExplicitValue(subnet, options, drop, code), code)
            && NoBlankValues(s)
  {
    hide Legacy6, Inherited, OptionAt;
    var rows := Stored(subnet, options, drop);
    LinkedAt(subnet, defaults, options, drop, code);
    var linked := Linked(IPv6, defaults, rows);
    Legacy6At(linked, legacy, code);
    ExplicitAt(subnet, Legacy6(linked, legacy), options, drop, code);
    OptionAtIs(options, code);
  }

  lemma SameValuesExactly(a: Served, b: Served)
    requires NoBlankValues(a) && NoBlankValues(b)
    ensures a.values == b.values <==> forall code :: ValueAt(a, code) == ValueAt(b, code)
  {
    if forall code :: ValueAt(a, code) == ValueAt(b, code) {
      forall code ensures code in a.values <==> code in b.values {
        assert ValueAt(a, code) == ValueAt(b, code);
      }
      forall code | code in a.values ensures a.values[code] == b.values[code] {
        assert ValueAt(a, code) == ValueAt(b, code);
      }
    }
  }

  // ---- Dropping what the network already gives ----

  /** The options served once the redundant values are skipped, and as if all had been stored. */
  function ServedAfter(subnet: Subnet, legacy: Legacy, defaults: map<nat, string>, options: seq<Submitted>,
                       drop: bool): Served {
    Resolve(subnet, legacy, defaults, Stored(subnet, options, drop))
  }

  predicate Agrees(value: string, served: string) {
    value == "" || value == served
  }

  /**
   * The IPv4 condition, read off the request: skipping must not leave the scope without a value of its own, or the
   * legacy columns that then come back must say what the defaults and the network give anyway.
   */
  ghost predicate SkipIsSafe4(subnet: Subnet, legacy: Legacy, defaults: map<nat, string>, options: seq<Submitted>) {
    || !StoresValue(subnet, options, false)
    || StoresValue(subnet, options, true)
    || (&& Agrees(legacy.domainName, Over(LinkedValue(defaults, options, 15), subnet.domain))
        && Agrees(legacy.ntpServers, LinkedValue(defaults, options, 42))
        && Agrees(legacy.domainSearch, Over(LinkedValue(defaults, options, 119), subnet.domain)))
  }

  /** When every submitted value is redundant, the three codes with legacy columns are served from below. */
  lemma ServedFromBelow(subnet: Subnet, legacy: Legacy, defaults: map<nat, string>, options: seq<Submitted>, code: nat)
    requires subnet.family == IPv4 && DistinctCodes(options) && code in {15, 42, 119}
    requires StoresValue(subnet, options, false) && !StoresValue(subnet, options, true)
    ensures ValueAt(ServedAfter(subnet, legacy, defaults, options, false), code)
         == if code == 42 then LinkedValue(defaults, options, 42)
            else Over(LinkedValue(defaults, options, code), subnet.domain)
  {
    hide Resolve, OptionAt;
    Served4(subnet, legacy, defaults, options, false, code);
    OptionAtIs(options, code);
  }

  lemma SkipAt4(subnet: Subnet, legacy: Legacy, defaults: map<nat, string>, options: seq<Submitted>, code: nat)
    requires subnet.family == IPv4 && DistinctCodes(options)
    ensures var full, kept := ServedAfter(subnet, legacy, defaults, options, false),
                              ServedAfter(subnet, legacy, defaults, options, true);
            var lost := StoresValue(subnet, options, false) && !StoresValue(subnet, options, true);
            var column := if code == 15 then legacy.domainName else if code == 42 then legacy.ntpServers
                          else if code == 119 then legacy.domainSearch else "";
            ValueAt(full, code) == ValueAt(kept, code) <==> !lost || Agrees(column, ValueAt(full, code))
  {
    hide Resolve, StoresValue, OptionAt;
    Served4(subnet, legacy, defaults, options, false, code);
    Served4(subnet, legacy, defaults, options, true, code);
    OptionAtIs(options, code);
    MoreStored(subnet, options);
  }

  lemma MoreStored(subnet: Subnet, options: seq<Submitted>)
    ensures StoresValue(subnet, options, true) ==> StoresValue(subnet, options, false)
  {
    hide IsRedundant;
  }

  /** IPv4: skipping redundant values keeps every served value exactly when the skip is safe. */
  lemma SkipKeepsServed4(subnet: Subnet, legacy: Legacy, defaults: map<nat, string>, options: seq<Submitted>)
    requires subnet.family == IPv4 && DistinctCodes(options)
    ensures ServedAfter(subnet, legacy, defaults, options, true).values
         == ServedAfter(subnet, legacy, defaults, options, false).values
       <==> SkipIsSafe4(subnet, legacy, defaults, options)
  {
    hide StoresValue, ServedAfter, Resolve;
    var full, kept := ServedAfter(subnet, legacy, defaults, options, false),
                      ServedAfter(subnet, legacy, defaults, options, true);
    NoBlanks(subnet, legacy, defaults, options);
    SameValuesExactly(kept, full);
    SkipAt4(subnet, legacy, defaults, options, 15);
    SkipAt4(subnet, legacy, defaults, options, 42);
    SkipAt4(subnet, legacy, defaults, options, 119);
    if StoresValue(subnet, options, false) && !StoresValue(subnet, options, true) {
      ServedFromBelow(subnet, legacy, defaults, options, 15);
      ServedFromBelow(subnet, legacy, defaults, options, 42);
      ServedFromBelow(subnet, legacy, defaults, options, 119);
    }
    if SkipIsSafe4(subnet, legacy, defaults, options) {
      forall code ensures ValueAt(kept, code) == ValueAt(full, code) {
        SkipAt4(subnet, legacy, defaults, options, code);
      }
    }
  }

  /** The network's domain, submitted as the scope's own, is skipped, and the scope's old columns take its place. */
  lemma SkipUncoversColumn4(subnet: Subnet, legacy: Legacy, defaults: map<nat, string>)
    requires subnet.family == IPv4 && subnet.domain != "" && legacy.domainName != ""
    ensures var options := [Submitted(15, false, subnet.domain)];
            var full, kept := ServedAfter(subnet, legacy, defaults, options, false),
                              ServedAfter(subnet, legacy, defaults, options, true);
            && ValueAt(full, 15) == subnet.domain && ValueAt(kept, 15) == legacy.domainName
            && ValueAt(full, 42) == "" && ValueAt(kept, 42) == legacy.ntpServers
            && ValueAt(full, 119) == subnet.domain && ValueAt(kept, 119) == Over(legacy.domainSearch, subnet.domain)
  {
    hide Resolve, IsBlank, IsRedundant;
    var options := [Submitted(15, false, subnet.domain)];
    OnlyOption(subnet, options[0]);
    forall code | code in {15, 42, 119}
      ensures ValueAt(ServedAfter(subnet, legacy, defaults, options, false), code) ==
              Final4(subnet, legacy, true, if code == 15 then subnet.domain else "", code)
      ensures ValueAt(ServedAfter(subnet, legacy, defaults, options, true), code) ==
              Final4(subnet, legacy, false, "", code)
    {
      Served4(subnet, legacy, defaults, options, false, code);
      Served4(subnet, legacy, defaults, options, true, code);
    }
  }

  /** The same for the search list of an IPv6 scope. */
  lemma SkipUncoversColumn6(subnet: Subnet, legacy: Legacy, defaults: map<nat, string>)
    requires subnet.family == IPv6 && subnet.domain != "" && legacy.domainSearch != ""
    ensures var options := [Submitted(24, false, subnet.domain)];
            && ValueAt(ServedAfter(subnet, legacy, defaults, options, false), 24) == subnet.domain
            && ValueAt(ServedAfter(subnet, legacy, defaults, options, true), 24) == legacy.domainSearch
  {
    hide Resolve, IsBlank, IsRedundant;
    var options := [Submitted(24, false, subnet.domain)];
    OnlyOption(subnet, options[0]);
    Served6(subnet, legacy, defaults, options, false, 24);
    Served6(subnet, legacy, defaults, options, true, 24);
  }

  /** A submission of one redundant value: it is the option of its code, and stored only without the skip. */
  lemma OnlyOption(subnet: Subnet, o: Submitted)
    requires !o.useDefault && o.value != "" && o.code != 0 && o.value == Inherited(subnet, o.code)
    ensures OptionAt([o], o.code) == Some(o) && !IsBlank(o) && IsRedundant(subnet, o)
    ensures StoresValue(subnet, [o], false) && !StoresValue(subnet, [o], true)
    ensures forall code :: code != o.code ==> OptionAt([o], code) == None
  {
    assert o in [o] && [o][..0] == [];
    assert forall code :: OptionAt([], code) == None;
  }

  lemma NoBlanks(subnet: Subnet, legacy: Legacy, defaults: map<nat, string>, options: seq<Submitted>)
    requires DistinctCodes(options)
    ensures NoBlankValues(ServedAfter(subnet, legacy, defaults, options, false))
    ensures NoBlankValues(ServedAfter(subnet, legacy, defaults, options, true))
  {
    hide Resolve;
    if subnet.family == IPv4 {
      Served4(subnet, legacy, defaults, options, false, 0);
      Served4(subnet, legacy, defaults, options, true, 0);
    } else {
      Served6(subnet, legacy, defaults, options, false, 0);
      Served6(subnet, legacy, defaults, options, true, 0);
    }
  }

  /** The search list an IPv6 scope's own columns hold. */
  function LegacySearch(legacy: Legacy): string {
    Over(legacy.domainSearch, legacy.domainName)
  }

  /** The IPv6 condition: a skipped search list must not uncover another one in the scope's columns. */
  ghost predicate SkipIsSafe6(subnet: Subnet, legacy: Legacy, options: seq<Submitted>) {
    var o := OptionAt(options, 24);
    o.Some? && IsRedundant(subnet, o.value) ==> Agrees(LegacySearch(legacy), subnet.domain)
  }

  /** IPv6: skipping redundant values keeps every served value exactly when the skip is safe. */
  lemma SkipKeepsServed6(subnet: Subnet, legacy: Legacy, defaults: map<nat, string>, options: seq<Submitted>)
    requires subnet.family == IPv6 && DistinctCodes(options)
    ensures ServedAfter(subnet, legacy, defaults, options, true).values
         == ServedAfter(subnet, legacy, defaults, options, false).values
       <==> SkipIsSafe6(subnet, legacy, options)
  {
    hide OptionAt, Resolve;
    var full, kept := ServedAfter(subnet, legacy, defaults, options, false),
                      ServedAfter(subnet, legacy, defaults, options, true);
    NoBlanks(subnet, legacy, defaults, options);
    SameValuesExactly(kept, full);
    Served6(subnet, legacy, defaults, options, false, 24);
    Served6(subnet, legacy, defaults, options, true, 24);
    OptionAtIs(options, 24);
    assert ValueAt(kept, 24) == ValueAt(full, 24) <==> SkipIsSafe6(subnet, legacy, options);
    if SkipIsSafe6(subnet, legacy, options) {
      forall code ensures ValueAt(kept, code) == ValueAt(full, code) {
        Served6(subnet, legacy, defaults, options, false, code);
        Served6(subnet, legacy, defaults, options, true, code);
        OptionAtIs(options, code);
      }
    }
  }

  /** A scope without column values is served the same whether or not the redundant values are stored. */
  lemma SkipKeepsServed(subnet: Subnet, legacy: Legacy, defaults: map<nat, string>, options: seq<Submitted>)
    requires DistinctCodes(options)
    requires legacy == Legacy("", "", "", "", "")
    ensures ServedAfter(subnet, legacy, defaults, options, true).values
         == ServedAfter(subnet, legacy, defaults, options, false).values
  {
    hide ServedAfter, StoresValue, OptionAt;
    if subnet.family == IPv4 {
      SkipKeepsServed4(subnet, legacy, defaults, options);
    } else {
      SkipKeepsServed6(subnet, legacy, defaults, options);
    }
  }

  // ---- The loops ----

  datatype SaveResult = Saved | RefusedLeaseTime

  class ScopeOptionTable {
    var rows: seq<Row>

    constructor ()
      ensures rows == []
    {
      rows := [];
    }

    /**
     * Stores what the submission adds to the network's own values. The lease time is no option on IPv4: the save
     * throws, and the caller's transaction takes back what it had stored.
     */
    method SaveScopeOptions(subnet: Subnet, options: seq<Submitted>, replace: bool) returns (result: SaveResult)
      modifies this
      ensures result == Saved <==> !Refused(subnet, options)
      ensures result == Saved ==> rows == (if replace then [] else old(rows)) + Stored(subnet, options, true)
      ensures result != Saved ==> rows == old(rows)
    {
      hide Inherited;
      var start := rows;
      if replace {
        rows := [];
      }
      ghost var before := rows;
      for i := 0 to |options|
        invariant rows == before + Stored(subnet, options[..i], true)
        invariant forall o :: o in options[..i] && !IsBlank(o) ==> !IsLeaseTime(subnet.family, o.code)
      {
        var o := options[i];
        assert options[..i + 1] == options[..i] + [o] && options[..i + 1][..i] == options[..i];
        if IsBlank(o) {
          continue;
        }
        if IsLeaseTime(subnet.family, o.code) {
          rows := start;
          return RefusedLeaseTime;
        }
        if !o.useDefault && IsRedundant(subnet, o) {
          continue;
        }
        rows := rows + [RowOf(o)];
      }
      assert options[..|options|] == options;
      return Saved;
    }

    method ResolveEffectiveScopeOptions(subnet: Subnet, legacy: Legacy, defaults: map<nat, string>)
      returns (served: Served)
      ensures served == Resolve(subnet, legacy, defaults, rows)
    {
      hide Set, Network4, LegacyFallback, Legacy6;
      served := Served(map[], map[]);
      for i := 0 to |rows|
        invariant served == Linked(subnet.family, defaults, rows[..i])
      {
        assert rows[..i + 1][..i] == rows[..i];
        var r := rows[i];
        if r.value.None? && !IsLeaseTime(subnet.family, r.code) {
          served := Set(served, r.code, DefaultFor(defaults, r.code), FromDefault);
        }
      }
      assert rows[..|rows|] == rows;
      if subnet.family == IPv6 {
        served := Legacy6(served, legacy);
      }
      ghost var below := served;
      var count := 0;
      for i := 0 to |rows|
        invariant served == Explicit(subnet.family, below, rows[..i])
        invariant count > 0 <==> HasExplicit(rows[..i])
      {
        assert rows[..i + 1][..i] == rows[..i] && rows[..i + 1] == rows[..i] + [rows[i]];
        var r := rows[i];
        if r.value.Some? {
          count := count + 1;
          if !IsLeaseTime(subnet.family, r.code) {
            served := Set(served, r.code, r.value.value, FromScope);
          }
        }
      }
      assert rows[..|rows|] == rows;
      if subnet.family == IPv6 {
        served := Fallback(served, 24, if legacy.domainName != "" then legacy.domainName else subnet.domain,
                           FromNetwork);
      } else {
        if count == 0 {
          served := LegacyFallback(served, legacy);
        }
        served := Network4(served, subnet);
      }
    }
  }
}
