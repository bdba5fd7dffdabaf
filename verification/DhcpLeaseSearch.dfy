/**
 * What the suffix search of assignLeaseNames (server/src/models/dhcp-lease.js) settles on, said of the whole batch:
 * each waiting lease has the first option that is free beside the kept names and the names of the addresses before it.
 */
module DhcpLeaseSearch {
  import opened Addresses
  import opened Options
  import opened DhcpTables
  import opened DnsNames
  import opened DhcpLeaseNames
  import opened DhcpNameOrder

  predicate Before(a: Ip, b: Ip) {
    a != b && KeyBefore(a, b)
  }

  /** What a waiting lease claims under a name. */
  function WaitingClaim(f: Facts, lease: Lease, name: string): set<Claim> {
    if IsPending(f, lease) then ClaimSet(f.resolver.ZoneFor(lease.subnet, lease.ip).value, lease.ip, name) else {}
  }

  /** The claims the search meets at the lease's turn: the kept names, and those of the waiting addresses before it. */
  function Ahead(f: Facts, leases: seq<Lease>, names: seq<string>, i: nat): set<Claim>
    requires |names| == |leases| && i < |leases|
  {
    HeldClaims(f, leases) +
    set j, c | 0 <= j < |leases| && Before(leases[j].ip, leases[i].ip) && c in WaitingClaim(f, leases[j], names[j]) :: c
  }

  function Turn(f: Facts, leases: seq<Lease>, i: nat): Pending
    requires i < |leases| && IsPending(f, leases[i])
  {
    var l := leases[i];
    Pending(i, l, f.resolver.ZoneFor(l.subnet, l.ip).value, Candidate(f, l))
  }

  /** The name a lease gets when the others have these names. */
  function NameBeside(f: Facts, leases: seq<Lease>, names: seq<string>, i: nat): string
    requires |names| == |leases| && i < |leases|
  {
    if IsPending(f, leases[i]) then ChooseName(f, IpsOf(leases), Ahead(f, leases, names, i), Turn(f, leases, i))
    else FirstName(f, leases[i])
  }

  function NamesOf(leases: seq<Lease>): (names: seq<string>)
    ensures |names| == |leases| && forall i :: 0 <= i < |leases| ==> names[i] == leases[i].hostname
  {
    seq(|leases|, i requires 0 <= i < |leases| => leases[i].hostname)
  }

  // ---- The search, one turn at a time ----

  function ClaimsOf(ps: seq<Pending>, names: seq<string>): set<Claim>
    requires forall p :: p in ps ==> p.index < |names|
  {
    if ps == [] then {} else ClaimSet(ps[0].zone, ps[0].lease.ip, names[ps[0].index]) + ClaimsOf(ps[1..], names)
  }

  lemma ClaimsOfHas(ps: seq<Pending>, names: seq<string>)
    requires forall p :: p in ps ==> p.index < |names|
    ensures forall c :: c in ClaimsOf(ps, names) <==>
              exists p :: p in ps && c in ClaimSet(p.zone, p.lease.ip, names[p.index])
  {
    hide ClaimSet;
    if ps != [] {
      assert ps == [ps[0]] + ps[1..];
      ClaimsOfHas(ps[1..], names);
    }
  }

  ghost predicate Chosen(f: Facts, ips: set<Ip>, ps: seq<Pending>, claims: set<Claim>, names: seq<string>, k: nat)
    requires k < |ps| && forall p :: p in ps ==> p.index < |names|
  {
    names[ps[k].index] == ChooseName(f, ips, claims + ClaimsOf(ps[..k], names), ps[k])
  }

  ghost predicate Reached(ps: seq<Pending>, out: seq<string>, names: seq<string>)
    requires |out| == |names| && forall p :: p in ps ==> p.index < |names|
  {
    forall k :: 0 <= k < |ps| ==> out[ps[k].index] == names[ps[k].index]
  }

  /** The search ends in these names exactly when each is the choice beside the ones before it. */
  lemma {:induction false} SettleExactly(f: Facts, ips: set<Ip>, ps: seq<Pending>, start: seq<string>,
                                         claims: set<Claim>, names: seq<string>)
    requires DistinctIndexes(ps) && |start| == |names| && forall p :: p in ps ==> p.index < |names|
    ensures Reached(ps, SettleAll(f, ips, ps, start, claims).0, names) <==>
            forall k :: 0 <= k < |ps| ==> Chosen(f, ips, ps, claims, names, k)
    decreases |ps|
  {
    hide ChooseName, ClaimSet, SettleAll;
    if ps != [] {
      var p := ps[0];
      var name := ChooseName(f, ips, claims, p);
      assert ps[..0] == [] && claims + ClaimsOf([], names) == claims;
      SettleFirst(f, ips, ps, start, claims);
      assert ps == [p] + ps[1..];
      var out := SettleAll(f, ips, ps, start, claims).0;
      assert Chosen(f, ips, ps, claims, names, 0) <==> names[p.index] == name;
      if names[p.index] == name {
        var claims' := claims + ClaimSet(p.zone, p.lease.ip, name);
        SettleExactly(f, ips, ps[1..], start[p.index := name], claims', names);
        ReachedTail(ps, out, names);
        forall k | 0 < k < |ps|
          ensures Chosen(f, ips, ps, claims, names, k) <==> Chosen(f, ips, ps[1..], claims', names, k - 1)
        {
          assert ps[..k] == [p] + ps[1..][..k - 1];
          assert claims + ClaimsOf(ps[..k], names) == claims' + ClaimsOf(ps[1..][..k - 1], names);
        }
        ChosenTail(f, ips, ps, claims, claims', names);
      } else {
        assert !Reached(ps, out, names);
      }
    }
  }

  lemma ReachedTail(ps: seq<Pending>, out: seq<string>, names: seq<string>)
    requires ps != [] && |out| == |names| && forall p :: p in ps ==> p.index < |names|
    requires out[ps[0].index] == names[ps[0].index]
    ensures (forall p :: p in ps[1..] ==> p in ps) && (Reached(ps, out, names) <==> Reached(ps[1..], out, names))
  {
    assert forall k :: 0 < k < |ps| ==> ps[k] == ps[1..][k - 1];
    assert forall k :: 0 <= k < |ps[1..]| ==> ps[1..][k] == ps[k + 1];
  }

  lemma ChosenTail(f: Facts, ips: set<Ip>, ps: seq<Pending>, claims: set<Claim>, claims': set<Claim>,
                   names: seq<string>)
    requires ps != [] && forall p :: p in ps ==> p.index < |names|
    requires Chosen(f, ips, ps, claims, names, 0)
    requires forall p :: p in ps[1..] ==> p in ps
    requires forall k :: 0 < k < |ps| ==>
               (Chosen(f, ips, ps, claims, names, k) <==> Chosen(f, ips, ps[1..], claims', names, k - 1))
    ensures (forall k :: 0 <= k < |ps| ==> Chosen(f, ips, ps, claims, names, k)) <==>
            (forall k :: 0 <= k < |ps[1..]| ==> Chosen(f, ips, ps[1..], claims', names, k))
  {
    hide Chosen;
    if forall k :: 0 <= k < |ps| ==> Chosen(f, ips, ps, claims, names, k) {
      forall k | 0 <= k < |ps[1..]| ensures Chosen(f, ips, ps[1..], claims', names, k) {
        assert Chosen(f, ips, ps, claims, names, k + 1);
      }
    }
  }

  // ---- The same, said of the batch ----

  ghost predicate IsTurn(f: Facts, leases: seq<Lease>, p: Pending) {
    p.index < |leases| && IsPending(f, leases[p.index]) && p == Turn(f, leases, p.index)
  }

  /** The turns of the waiting leases, in the order of their addresses. */
  ghost predicate Turns(f: Facts, leases: seq<Lease>, ps: seq<Pending>) {
    && DistinctIndexes(ps)
    && (forall p :: p in ps ==> IsTurn(f, leases, p))
    && (forall i :: 0 <= i < |leases| && IsPending(f, leases[i]) ==> exists k :: 0 <= k < |ps| && ps[k].index == i)
    && forall m, k :: 0 <= m < k < |ps| ==> Before(ps[m].lease.ip, ps[k].lease.ip)
  }

  lemma SortedTurns(f: Facts, leases: seq<Lease>)
    requires DistinctIps(leases)
    ensures Turns(f, leases, SortByAddress(PendingOf(f, leases)))
  {
    hide IsPending, Candidate, SortByAddress, KeyBefore;
    var ps := SortByAddress(PendingOf(f, leases));
    SortSorts(PendingOf(f, leases));
    SortedIsDistinct(f, leases);
    PendingDistinct(f, leases);
    forall p | p in ps
      ensures IsTurn(f, leases, p)
    {
      assert p in PendingOf(f, leases);
    }
    forall i | 0 <= i < |leases| && IsPending(f, leases[i])
      ensures exists k :: 0 <= k < |ps| && ps[k].index == i
    {
      var p :| p in PendingOf(f, leases) && p.index == i;
      assert p in ps;
    }
    forall m, k | 0 <= m < k < |ps|
      ensures Before(ps[m].lease.ip, ps[k].lease.ip)
    {
      assert ps[m] in ps && ps[k] in ps;
    }
  }

  /** Another lease claims the name at an earlier turn. */
  ghost predicate ClaimsBefore(f: Facts, leases: seq<Lease>, names: seq<string>, i: nat, j: nat, c: Claim)
    requires |names| == |leases| && i < |leases|
  {
    j < |leases| && Before(leases[j].ip, leases[i].ip) && c in WaitingClaim(f, leases[j], names[j])
  }

  lemma TurnClaims(f: Facts, leases: seq<Lease>, ps: seq<Pending>, names: seq<string>, k: nat, m: nat, c: Claim)
    requires Turns(f, leases, ps) && |names| == |leases| && m < k < |ps|
    requires ps[k] in ps && ps[m] in ps
    requires c in ClaimSet(ps[m].zone, ps[m].lease.ip, names[ps[m].index])
    ensures ClaimsBefore(f, leases, names, ps[k].index, ps[m].index, c)
  {
    hide ClaimSet, IsPending, Candidate, Before;
    assert IsTurn(f, leases, ps[m]) && IsTurn(f, leases, ps[k]);
  }

  lemma ClaimHasTurn(f: Facts, leases: seq<Lease>, ps: seq<Pending>, names: seq<string>, k: nat, j: nat, c: Claim)
    returns (m: nat)
    requires Turns(f, leases, ps) && |names| == |leases| && k < |ps| && ps[k] in ps
    requires ClaimsBefore(f, leases, names, ps[k].index, j, c)
    ensures m < k && ps[m] in ps && c in ClaimSet(ps[m].zone, ps[m].lease.ip, names[ps[m].index])
  {
    hide ClaimSet, IsPending, Candidate, KeyBefore;
    assert IsPending(f, leases[j]);
    m :| 0 <= m < |ps| && ps[m].index == j;
    assert ps[m] in ps && IsTurn(f, leases, ps[m]) && IsTurn(f, leases, ps[k]);
    KeyOrder(ps[m].lease.ip, ps[k].lease.ip, ps[m].lease.ip);
    assert k < m ==> Before(ps[k].lease.ip, ps[m].lease.ip);
  }

  /** Sorted by address, the turns before k are those of the waiting addresses before it. */
  lemma AheadIsPrefix(f: Facts, leases: seq<Lease>, ps: seq<Pending>, names: seq<string>, k: nat)
    requires Turns(f, leases, ps) && |names| == |leases| && k < |ps|
    requires forall p :: p in ps ==> p.index < |leases|
    ensures ps[k] in ps && HeldClaims(f, leases) + ClaimsOf(ps[..k], names) == Ahead(f, leases, names, ps[k].index)
  {
    hide HeldClaims, ClaimSet, Turns, Before, WaitingClaim, ClaimsOf;
    var i := ps[k].index;
    ClaimsOfHas(ps[..k], names);
    forall c | c in ClaimsOf(ps[..k], names)
      ensures exists j :: ClaimsBefore(f, leases, names, i, j, c)
    {
      var p :| p in ps[..k] && c in ClaimSet(p.zone, p.lease.ip, names[p.index]);
      var m :| 0 <= m < k && ps[..k][m] == p;
      TurnClaims(f, leases, ps, names, k, m, c);
    }
    forall j, c | ClaimsBefore(f, leases, names, i, j, c)
      ensures c in ClaimsOf(ps[..k], names)
    {
      var m := ClaimHasTurn(f, leases, ps, names, k, j, c);
      assert ps[m] in ps[..k];
    }
    AheadHas(f, leases, names, i);
  }

  lemma AheadHas(f: Facts, leases: seq<Lease>, names: seq<string>, i: nat)
    requires |names| == |leases| && i < |leases|
    ensures forall c :: c in Ahead(f, leases, names, i) <==>
              c in HeldClaims(f, leases) || exists j :: ClaimsBefore(f, leases, names, i, j, c)
  {
    hide HeldClaims, Before, WaitingClaim;
    forall c | c in Ahead(f, leases, names, i) && c !in HeldClaims(f, leases)
      ensures exists j :: ClaimsBefore(f, leases, names, i, j, c)
    {
      var j :| 0 <= j < |leases| && Before(leases[j].ip, leases[i].ip) && c in WaitingClaim(f, leases[j], names[j]);
      assert ClaimsBefore(f, leases, names, i, j, c);
    }
  }

  /** The naming gives these names exactly when each of them is the lease's name beside the others. */
  lemma NamedExactly(f: Facts, leases: seq<Lease>, names: seq<string>)
    requires DistinctIps(leases) && |names| == |leases|
    ensures (forall i :: 0 <= i < |leases| ==> Named(f, leases)[i].hostname == names[i]) <==>
            (forall i :: 0 <= i < |leases| ==> names[i] == NameBeside(f, leases, names, i))
  {
    hide HeldClaims, FirstName, IsPending, Candidate, SortByAddress, ChooseName, Ahead, SettleAll, ClaimsOf;
    var ps := SortByAddress(PendingOf(f, leases));
    SortedTurns(f, leases);
    SettleExactly(f, IpsOf(leases), ps, FirstNames(f, leases), HeldClaims(f, leases), names);
    forall i | 0 <= i < |leases| && !IsPending(f, leases[i])
      ensures Named(f, leases)[i].hostname == NameBeside(f, leases, names, i)
    {
      KeptStaysKept(f, leases, i);
    }
    forall k | 0 <= k < |ps|
      ensures Chosen(f, IpsOf(leases), ps, HeldClaims(f, leases), names, k) <==>
              names[ps[k].index] == NameBeside(f, leases, names, ps[k].index)
    {
      ChosenIsBeside(f, leases, ps, names, k);
    }
    assert forall k :: 0 <= k < |ps| ==> Named(f, leases)[ps[k].index].hostname == Settled(f, leases).0[ps[k].index];
  }

  lemma ChosenIsBeside(f: Facts, leases: seq<Lease>, ps: seq<Pending>, names: seq<string>, k: nat)
    requires Turns(f, leases, ps) && |names| == |leases| && k < |ps|
    requires forall p :: p in ps ==> p.index < |leases|
    ensures Chosen(f, IpsOf(leases), ps, HeldClaims(f, leases), names, k) <==>
            names[ps[k].index] == NameBeside(f, leases, names, ps[k].index)
  {
    hide HeldClaims, FirstName, IsPending, Candidate, ChooseName, Ahead, ClaimsOf, Before, IpsOf;
    AheadIsPrefix(f, leases, ps, names, k);
    assert IsTurn(f, leases, ps[k]);
  }

  /** The names the naming gives are the one solution: each lease's own name is its name beside the others. */
  lemma NamedBeside(f: Facts, leases: seq<Lease>, i: nat)
    requires DistinctIps(leases) && i < |leases|
    ensures Named(f, leases)[i].hostname == NameBeside(f, leases, NamesOf(Named(f, leases)), i)
  {
    hide NameBeside;
    NamedExactly(f, leases, NamesOf(Named(f, leases)));
  }

  // ---- Unnamed leases ----

  /** A lease that asks for a name ends without one exactly when all 257 options clash at its turn. */
  lemma UnnamedInBatchExactly(f: Facts, leases: seq<Lease>, i: nat)
    requires DistinctIps(leases) && i < |leases| && IsPending(f, leases[i]) && Candidate(f, leases[i]) != ""
    ensures var p, ahead := Turn(f, leases, i), Ahead(f, leases, NamesOf(Named(f, leases)), i);
            Named(f, leases)[i].hostname == "" <==>
            forall o :: o in OptionsOf(p.candidate) ==>
              !IsFree(f, IpsOf(leases), ahead, p.zone, NormalizeRecordName(o, p.zone.name), p.lease.ip,
                      VendorMac(f, p.lease))
  {
    hide Named, Ahead, IsFree, OptionsOf, ChooseName, NormalizeRecordName, Candidate, IsPending;
    NamedBeside(f, leases, i);
    UnnamedExactly(f, IpsOf(leases), Ahead(f, leases, NamesOf(Named(f, leases)), i), Turn(f, leases, i));
  }

  function RecordNames(f: Facts, zone: Zone): set<string> {
    set r | r in f.records && r.zone == zone.id :: Lower(r.name)
  }

  function RecordNameOf(f: Facts, lease: Lease, name: string): string {
    var zone := f.resolver.ZoneFor(lease.subnet, lease.ip);
    if zone.None? then "" else NormalizeRecordName(name, zone.value.name)
  }

  /** The record names the first n leases but i have. */
  function OtherNames(f: Facts, leases: seq<Lease>, names: seq<string>, i: nat, n: nat): set<string>
    requires |names| == |leases| && n <= |leases|
  {
    set j | 0 <= j < n && j != i :: RecordNameOf(f, leases[j], names[j])
  }

  lemma {:induction false} OtherNamesCount(f: Facts, leases: seq<Lease>, names: seq<string>, i: nat, n: nat)
    requires |names| == |leases| && n <= |leases|
    ensures |OtherNames(f, leases, names, i, n)| <= if i < n then n - 1 else n
  {
    hide RecordNameOf;
    if n > 0 {
      OtherNamesCount(f, leases, names, i, n - 1);
      var last := RecordNameOf(f, leases[n - 1], names[n - 1]);
      var before := OtherNames(f, leases, names, i, n - 1);
      assert OtherNames(f, leases, names, i, n) == if n - 1 == i then before else before + {last};
    }
  }

  /** Each claim ahead of a lease is one of the other leases' names. */
  lemma AheadOfOthers(f: Facts, leases: seq<Lease>, i: nat, c: Claim)
    requires DistinctIps(leases) && i < |leases| && IsPending(f, leases[i])
    requires c in Ahead(f, leases, NamesOf(Named(f, leases)), i)
    ensures c.name in OtherNames(f, leases, NamesOf(Named(f, leases)), i, |leases|)
  {
    hide NormalizeRecordName, KeepsHeld, HeldName, HeldClaims, KeptName, Settled, KeyBefore;
    var names := NamesOf(Named(f, leases));
    HeldClaimsHas(f, leases);
    if c in HeldClaims(f, leases) {
      var j :| 0 <= j < |leases| && c in HeldClaim(f, leases[j]);
      KeptStaysKept(f, leases, j);
      assert names[j] == FirstName(f, leases[j]);
      assert c.name == RecordNameOf(f, leases[j], names[j]);
    } else {
      var j :| 0 <= j < |leases| && Before(leases[j].ip, leases[i].ip) && c in WaitingClaim(f, leases[j], names[j]);
      assert IsPending(f, leases[j]);
      assert c.name == RecordNameOf(f, leases[j], names[j]);
    }
  }

  /** Room for all: with the zone's records and the other leases fewer than 256 together, who asks gets a name. */
  lemma AlwaysNamedInBatch(f: Facts, leases: seq<Lease>, i: nat, zone: Zone)
    requires DistinctIps(leases) && i < |leases| && Candidate(f, leases[i]) != ""
    requires f.resolver.ZoneFor(leases[i].subnet, leases[i].ip) == Some(zone)
    requires |RecordNames(f, zone)| + |leases| <= 256
    ensures Named(f, leases)[i].hostname != ""
  {
    if !IsPending(f, leases[i]) {
      KeptIsNamed(f, leases, i);
    } else {
      hide NormalizeRecordName, Named, OtherNames, Ahead, Candidate, IsPending, ChooseName, Lower;
      var names := NamesOf(Named(f, leases));
      var ahead := Ahead(f, leases, names, i);
      OtherNamesCount(f, leases, names, i, |leases|);
      forall c | c in ahead ensures c.name in OtherNames(f, leases, names, i, |leases|) {
        AheadOfOthers(f, leases, i, c);
      }
      var few := RecordNames(f, zone) + OtherNames(f, leases, names, i, |leases|);
      assert TakenNames(f, ahead, zone) <= few;
      SubsetSize(TakenNames(f, ahead, zone), few);
      UnionSize(RecordNames(f, zone), OtherNames(f, leases, names, i, |leases|));
      NamedBeside(f, leases, i);
      AlwaysNamed(f, IpsOf(leases), ahead, Turn(f, leases, i));
    }
  }

  lemma UnionSize(a: set<string>, b: set<string>)
    ensures |a + b| <= |a| + |b|
  {
    assert a + b == a + (b - a);
    SubsetSize(b - a, b);
  }

  lemma KeptIsNamed(f: Facts, leases: seq<Lease>, i: nat)
    requires i < |leases| && IsKept(f, leases[i])
    ensures Named(f, leases)[i].hostname != ""
  {
    hide NormalizeRecordName, HeldName, PreviousName;
    KeptStaysKept(f, leases, i);
  }
}
