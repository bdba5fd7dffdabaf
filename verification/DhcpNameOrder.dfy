/** The names do not depend on the order the backend reports the leases in. */
module DhcpNameOrder {
  import opened Addresses
  import opened DhcpTables
  import opened DnsNames
  import opened DhcpLeaseNames

  ghost predicate SortedPending(ps: seq<Pending>) {
    forall i, j :: 0 <= i < j < |ps| ==> KeyBefore(ps[i].lease.ip, ps[j].lease.ip)
  }

  lemma KeyOrder(a: Ip, b: Ip, c: Ip)
    ensures KeyBefore(a, b) || KeyBefore(b, a)
    ensures KeyBefore(a, b) && KeyBefore(b, a) ==> a == b
    ensures KeyBefore(a, b) && KeyBefore(b, c) ==> KeyBefore(a, c)
  {}

  lemma InsertSorted(p: Pending, ps: seq<Pending>)
    requires SortedPending(ps)
    ensures SortedPending(Insert(p, ps))
    ensures forall q :: q in Insert(p, ps) <==> q == p || q in ps
  {
    if ps != [] {
      KeyOrder(p.lease.ip, ps[0].lease.ip, p.lease.ip);
      assert ps == [ps[0]] + ps[1..];
      if !KeyBefore(p.lease.ip, ps[0].lease.ip) {
        InsertSorted(p, ps[1..]);
        assert forall q :: q in Insert(p, ps[1..]) ==> KeyBefore(ps[0].lease.ip, q.lease.ip);
      } else {
        forall q | q in ps ensures KeyBefore(p.lease.ip, q.lease.ip) {
          KeyOrder(p.lease.ip, ps[0].lease.ip, q.lease.ip);
        }
      }
    }
  }

  lemma SortSorts(ps: seq<Pending>)
    ensures SortedPending(SortByAddress(ps))
    ensures forall q :: q in SortByAddress(ps) <==> q in ps
  {
    if ps != [] {
      SortSorts(ps[1..]);
      InsertSorted(ps[0], SortByAddress(ps[1..]));
      assert ps == [ps[0]] + ps[1..];
    }
  }

  predicate SamePending(p: Pending, q: Pending) {
    p.lease == q.lease && p.zone == q.zone && p.candidate == q.candidate
  }

  ghost predicate SameLeases(ps: seq<Pending>, qs: seq<Pending>) {
    |ps| == |qs| && forall k :: 0 <= k < |ps| ==> SamePending(ps[k], qs[k])
  }

  ghost predicate Within(ps: seq<Pending>, qs: seq<Pending>) {
    forall p :: p in ps ==> exists q :: q in qs && SamePending(p, q)
  }

  ghost predicate DistinctPending(ps: seq<Pending>) {
    forall i, j :: 0 <= i < j < |ps| ==> ps[i].lease.ip != ps[j].lease.ip
  }

  lemma WithinTail(ps: seq<Pending>, qs: seq<Pending>)
    requires ps != [] && qs != [] && SamePending(ps[0], qs[0])
    requires Within(ps, qs) && DistinctPending(ps)
    ensures Within(ps[1..], qs[1..])
  {
    forall p | p in ps[1..] ensures exists q :: q in qs[1..] && SamePending(p, q) {
      assert ps == [ps[0]] + ps[1..] && p in ps;
      var q :| q in qs && SamePending(p, q);
      assert p.lease.ip != ps[0].lease.ip;
      assert qs == [qs[0]] + qs[1..];
      assert q.lease.ip == p.lease.ip;
    }
  }

  lemma SameHead(ps: seq<Pending>, qs: seq<Pending>)
    requires SortedPending(ps) && SortedPending(qs) && DistinctPending(qs)
    requires ps != [] && Within(ps, qs) && Within(qs, ps)
    ensures qs != [] && SamePending(ps[0], qs[0])
  {
    hide KeyBefore;
    assert ps[0] in ps;
    var q :| q in qs && SamePending(ps[0], q);
    assert qs[0] in qs;
    var p :| p in ps && SamePending(qs[0], p);
    var i :| 0 <= i < |ps| && ps[i] == p;
    var j :| 0 <= j < |qs| && qs[j] == q;
    assert p.lease == qs[0].lease && q.lease == ps[0].lease;
    KeyOrder(q.lease.ip, p.lease.ip, q.lease.ip);
    assert i > 0 ==> KeyBefore(ps[0].lease.ip, ps[i].lease.ip);
  }

  /** Sorting by address leaves one order only. */
  lemma {:induction false} SortedSame(ps: seq<Pending>, qs: seq<Pending>)
    requires SortedPending(ps) && SortedPending(qs) && DistinctPending(ps) && DistinctPending(qs)
    requires Within(ps, qs) && Within(qs, ps)
    ensures SameLeases(ps, qs)
  {
    hide KeyBefore, Within;
    if ps == [] {
      if qs != [] {
        WithinNonempty(qs, ps);
      }
    } else {
      SameHead(ps, qs);
      WithinTail(ps, qs);
      WithinTail(qs, ps);
      SortedSame(ps[1..], qs[1..]);
    }
  }

  lemma WithinNonempty(qs: seq<Pending>, ps: seq<Pending>)
    requires Within(qs, ps) && qs != []
    ensures ps != []
  {
    assert qs[0] in qs;
  }

  lemma {:induction false} SameChoices(f: Facts, ips: set<Ip>, ps: seq<Pending>, xs: seq<string>, qs: seq<Pending>,
                                       ys: seq<string>, claims: set<Claim>)
    requires SameLeases(ps, qs) && DistinctIndexes(ps) && DistinctIndexes(qs)
    requires (forall p :: p in ps ==> p.index < |xs|) && (forall q :: q in qs ==> q.index < |ys|)
    ensures var xs', ys' := SettleAll(f, ips, ps, xs, claims).0, SettleAll(f, ips, qs, ys, claims).0;
            forall k :: 0 <= k < |ps| ==> xs'[ps[k].index] == ys'[qs[k].index]
  {
    hide NormalizeRecordName, ClaimSet, ChooseName, SettleAll;
    if ps != [] {
      var p, q := ps[0], qs[0];
      var name := ChooseName(f, ips, claims, p);
      SameChoice(f, ips, claims, p, q);
      var claims' := claims + ClaimSet(p.zone, p.lease.ip, name);
      var xs1, ys1 := xs[p.index := name], ys[q.index := name];
      SettleFirst(f, ips, ps, xs, claims);
      SettleFirst(f, ips, qs, ys, claims);
      assert SamePending(p, q);
      SameChoices(f, ips, ps[1..], xs1, qs[1..], ys1, claims');
      forall k | 0 < k < |ps| ensures ps[k] == ps[1..][k - 1] && qs[k] == qs[1..][k - 1] {}
    }
  }

  lemma SettleFirst(f: Facts, ips: set<Ip>, ps: seq<Pending>, xs: seq<string>, claims: set<Claim>)
    requires ps != [] && DistinctIndexes(ps) && forall p :: p in ps ==> p.index < |xs|
    ensures var name := ChooseName(f, ips, claims, ps[0]);
            var rest := SettleAll(f, ips, ps[1..], xs[ps[0].index := name],
                                  claims + ClaimSet(ps[0].zone, ps[0].lease.ip, name));
            SettleAll(f, ips, ps, xs, claims) == rest && rest.0[ps[0].index] == name
  {
    hide NormalizeRecordName, ClaimSet, ChooseName;
    var name := ChooseName(f, ips, claims, ps[0]);
    assert forall r :: r in ps[1..] ==> r in ps && r.index != ps[0].index;
    SettleOthers(f, ips, ps[1..], xs[ps[0].index := name], claims + ClaimSet(ps[0].zone, ps[0].lease.ip, name),
                 ps[0].index);
  }

  lemma SameFirstFree(f: Facts, ips: set<Ip>, claims: set<Claim>, p: Pending, q: Pending, options: seq<string>)
    requires SamePending(p, q)
    ensures FirstFree(f, ips, claims, p, options) == FirstFree(f, ips, claims, q, options)
  {
    hide NormalizeRecordName, IsFree;
    assert p.lease == q.lease && p.zone == q.zone;
  }

  lemma SameChoice(f: Facts, ips: set<Ip>, claims: set<Claim>, p: Pending, q: Pending)
    requires SamePending(p, q)
    ensures ChooseName(f, ips, claims, p) == ChooseName(f, ips, claims, q)
  {
    hide NormalizeRecordName, IsFree, OptionsOf;
    assert p.candidate == q.candidate;
    SameFirstFree(f, ips, claims, p, q, OptionsOf(p.candidate));
  }

  lemma PendingWithin(f: Facts, a: seq<Lease>, b: seq<Lease>)
    requires forall l :: l in a ==> l in b
    ensures Within(SortByAddress(PendingOf(f, a)), SortByAddress(PendingOf(f, b)))
  {
    hide SortByAddress, IsPending, Candidate;
    SortSorts(PendingOf(f, a));
    SortSorts(PendingOf(f, b));
    PendingDistinct(f, b);
    forall p | p in PendingOf(f, a) ensures exists q :: q in PendingOf(f, b) && SamePending(p, q) {
      assert p.lease in b;
      var j :| 0 <= j < |b| && b[j] == p.lease;
      var q :| q in PendingOf(f, b) && q.index == j;
    }
  }

  lemma SortedIsDistinct(f: Facts, a: seq<Lease>)
    requires DistinctIps(a)
    ensures DistinctPending(SortByAddress(PendingOf(f, a)))
    ensures DistinctIndexes(SortByAddress(PendingOf(f, a)))
  {
    hide SortByAddress, IsPending, Candidate;
    PendingDistinct(f, a);
    SortedDistinct(PendingOf(f, a));
  }

  lemma SameHeldClaims(f: Facts, a: seq<Lease>, b: seq<Lease>)
    requires forall l :: l in a ==> l in b
    ensures HeldClaims(f, a) <= HeldClaims(f, b)
  {
    hide HeldClaims, HeldClaim;
    HeldClaimsHas(f, a);
    HeldClaimsHas(f, b);
    forall c | c in HeldClaims(f, a) ensures c in HeldClaims(f, b) {
      var i :| 0 <= i < |a| && c in HeldClaim(f, a[i]);
      assert a[i] in b;
      var j :| 0 <= j < |b| && b[j] == a[i];
    }
  }

  /** Two reports of the same leases, in whatever order, give every lease the same name. */
  lemma NamesIgnoreReportOrder(f: Facts, a: seq<Lease>, b: seq<Lease>, i: nat, j: nat)
    requires DistinctIps(a) && DistinctIps(b) && (forall l :: l in a <==> l in b)
    requires i < |a| && j < |b| && a[i] == b[j]
    ensures Named(f, a)[i] == Named(f, b)[j]
  {
    hide HeldClaims, HeldClaim, FirstName, SortByAddress, IsPending, Candidate, SettleAll, Named;
    if !IsPending(f, a[i]) {
      KeptStaysKept(f, a, i);
      KeptStaysKept(f, b, j);
    } else {
      PendingSameName(f, a, b, i, j);
    }
  }

  lemma PendingSameName(f: Facts, a: seq<Lease>, b: seq<Lease>, i: nat, j: nat)
    requires DistinctIps(a) && DistinctIps(b) && (forall l :: l in a <==> l in b)
    requires i < |a| && j < |b| && a[i] == b[j] && IsPending(f, a[i])
    ensures Named(f, a)[i] == Named(f, b)[j]
  {
    hide HeldClaims, HeldClaim, FirstName, SortByAddress, IsPending, Candidate, SettleAll;
    var ps, qs := SortByAddress(PendingOf(f, a)), SortByAddress(PendingOf(f, b));
    PendingWithin(f, a, b);
    PendingWithin(f, b, a);
    SortSorts(PendingOf(f, a));
    SortSorts(PendingOf(f, b));
    SortedIsDistinct(f, a);
    SortedIsDistinct(f, b);
    SortedSame(ps, qs);
    SameHeldClaims(f, a, b);
    SameHeldClaims(f, b, a);
    assert HeldClaims(f, a) == HeldClaims(f, b) && IpsOf(a) == IpsOf(b);
    SameChoices(f, IpsOf(a), ps, FirstNames(f, a), qs, FirstNames(f, b), HeldClaims(f, a));
    PendingDistinct(f, a);
    var p :| p in PendingOf(f, a) && p.index == i;
    assert p in ps;
    var k :| 0 <= k < |ps| && ps[k] == p;
    assert qs[k] in qs && qs[k].lease == a[i];
    assert b[qs[k].index] == b[j];
    assert qs[k].index == j;
  }
}
