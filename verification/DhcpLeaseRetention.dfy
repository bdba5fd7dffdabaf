/** replaceLeases (server/src/models/dhcp-lease.js): the stored leases after a backend report. */
module DhcpLeaseRetention {
  import opened Addresses
  import opened Options
  import opened DhcpTables

  /** One hour, in milliseconds. */
  const OFFLINE_RETIREMENT: int := 3_600_000

  datatype Key = Key(subnet: Option<nat>, ip: Ip)

  function KeyOf(l: Lease): Key {
    Key(l.subnet, l.ip)
  }

  function KeysOf(leases: seq<Lease>): set<Key> {
    set l | l in leases :: KeyOf(l)
  }

  function ReservedKeys(reservations: seq<Reserved>): set<Key> {
    set r | r in reservations && r.enabled :: Key(Some(r.subnet), r.ip)
  }

  /** A Map entry: a key seen before keeps its place and takes the new row. */
  function Put(rows: seq<Lease>, l: Lease): seq<Lease> {
    if rows == [] then [l]
    else if KeyOf(rows[0]) == KeyOf(l) then [l] + rows[1..]
    else [rows[0]] + Put(rows[1..], l)
  }

  /** The rows of the table by key, the last of several winning. */
  function ByKey(rows: seq<Lease>): seq<Lease> {
    if rows == [] then [] else Put(ByKey(rows[..|rows| - 1]), rows[|rows| - 1])
  }

  predicate TooOld(e: Expiry, now: int) {
    e.At? && e.time < now - OFFLINE_RETIREMENT
  }

  /** A lease the backend dropped is stored as expired by now. */
  function ExpiredBy(e: Expiry, now: int): Expiry {
    if e.Infinite? || (e.At? && e.time > now) then At(now) else e
  }

  predicate Retains(l: Lease, current: set<Key>, reserved: set<Key>, now: int) {
    KeyOf(l) !in current && KeyOf(l) !in reserved && !TooOld(l.expires, now)
  }

  function Retain(rows: seq<Lease>, current: set<Key>, reserved: set<Key>, now: int): seq<Lease> {
    if rows == [] then []
    else
      (if Retains(rows[0], current, reserved, now) then [rows[0].(expires := ExpiredBy(rows[0].expires, now))]
       else [])
      + Retain(rows[1..], current, reserved, now)
  }

  function Replaced(rows: seq<Lease>, batch: seq<Lease>, reservations: seq<Reserved>, now: int): seq<Lease> {
    batch + Retain(ByKey(rows), KeysOf(batch), ReservedKeys(reservations), now)
  }

  /** The row a key reads back as: the last stored under it. */
  function Lookup(rows: seq<Lease>, k: Key): Option<Lease> {
    if rows == [] then None
    else if KeyOf(rows[|rows| - 1]) == k then Some(rows[|rows| - 1])
    else Lookup(rows[..|rows| - 1], k)
  }

  ghost predicate DistinctKeys(rows: seq<Lease>) {
    forall i, j :: 0 <= i < j < |rows| ==> KeyOf(rows[i]) != KeyOf(rows[j])
  }

  // ---- Reading back ----

  lemma LookupIn(rows: seq<Lease>, k: Key)
    ensures Lookup(rows, k).Some? ==> Lookup(rows, k).value in rows && KeyOf(Lookup(rows, k).value) == k
    ensures Lookup(rows, k).None? <==> k !in KeysOf(rows)
  {
    if rows != [] {
      var n := |rows| - 1;
      LookupIn(rows[..n], k);
      assert rows == rows[..n] + [rows[n]];
    }
  }

  lemma LookupDistinct(rows: seq<Lease>, l: Lease)
    requires DistinctKeys(rows) && l in rows
    ensures Lookup(rows, KeyOf(l)) == Some(l)
  {
    LookupIn(rows, KeyOf(l));
  }

  lemma PutKeys(rows: seq<Lease>, l: Lease)
    requires DistinctKeys(rows)
    ensures DistinctKeys(Put(rows, l)) && l in Put(rows, l)
    ensures forall m :: m in Put(rows, l) <==> m == l || (m in rows && KeyOf(m) != KeyOf(l))
  {
    if rows != [] {
      assert rows == [rows[0]] + rows[1..];
      PutKeys(rows[1..], l);
    }
  }

  lemma ByKeyIs(rows: seq<Lease>)
    ensures DistinctKeys(ByKey(rows))
    ensures forall l :: l in ByKey(rows) <==> Lookup(rows, KeyOf(l)) == Some(l)
  {
    if rows != [] {
      var n := |rows| - 1;
      ByKeyIs(rows[..n]);
      PutKeys(ByKey(rows[..n]), rows[n]);
    }
  }

  lemma RetainHas(rows: seq<Lease>, current: set<Key>, reserved: set<Key>, now: int)
    requires DistinctKeys(rows)
    ensures DistinctKeys(Retain(rows, current, reserved, now))
    ensures forall m :: m in Retain(rows, current, reserved, now) <==>
              exists l :: l in rows && Retains(l, current, reserved, now)
                && m == l.(expires := ExpiredBy(l.expires, now))
  {
    if rows != [] {
      assert rows == [rows[0]] + rows[1..];
      RetainHas(rows[1..], current, reserved, now);
      assert forall m :: m in Retain(rows[1..], current, reserved, now) ==> KeyOf(m) != KeyOf(rows[0]);
    }
  }

  // ---- One report ----

  /** Whatever the table held, no subnet and address has two rows after a report without duplicates. */
  lemma OneRowPerKey(rows: seq<Lease>, batch: seq<Lease>, reservations: seq<Reserved>, now: int)
    requires DistinctKeys(batch)
    ensures DistinctKeys(Replaced(rows, batch, reservations, now))
  {
    var current, reserved := KeysOf(batch), ReservedKeys(reservations);
    ByKeyIs(rows);
    RetainHas(ByKey(rows), current, reserved, now);
    var kept := Retain(ByKey(rows), current, reserved, now);
    forall i, j | 0 <= i < |batch| && 0 <= j < |kept| ensures KeyOf(batch[i]) != KeyOf(kept[j]) {
      assert kept[j] in kept && KeyOf(batch[i]) in current;
    }
  }

  /** An address the report leaves out keeps its row, expired, unless it is reserved or past the window. */
  lemma VanishedOnce(rows: seq<Lease>, batch: seq<Lease>, reservations: seq<Reserved>, now: int, k: Key)
    requires DistinctKeys(batch) && k !in KeysOf(batch)
    ensures var after := Lookup(Replaced(rows, batch, reservations, now), k);
            var before := Lookup(rows, k);
            after == if before.Some? && k !in ReservedKeys(reservations) && !TooOld(before.value.expires, now)
                     then Some(before.value.(expires := ExpiredBy(before.value.expires, now)))
                     else None
  {
    var current, reserved := KeysOf(batch), ReservedKeys(reservations);
    var all := Replaced(rows, batch, reservations, now);
    ByKeyIs(rows);
    RetainHas(ByKey(rows), current, reserved, now);
    OneRowPerKey(rows, batch, reservations, now);
    LookupIn(all, k);
    LookupIn(rows, k);
    var before := Lookup(rows, k);
    if before.Some? && Retains(before.value, current, reserved, now) {
      var l := before.value.(expires := ExpiredBy(before.value.expires, now));
      assert before.value in ByKey(rows);
      assert l in Retain(ByKey(rows), current, reserved, now);
      assert l in all;
      LookupDistinct(all, l);
    }
  }

  // ---- A run of reports ----

  datatype Report = Report(batch: seq<Lease>, reservations: seq<Reserved>, now: int)

  function AfterReports(rows: seq<Lease>, reports: seq<Report>): seq<Lease> {
    if reports == [] then rows
    else
      var r := reports[|reports| - 1];
      Replaced(AfterReports(rows, reports[..|reports| - 1]), r.batch, r.reservations, r.now)
  }

  ghost predicate ClockRuns(reports: seq<Report>) {
    forall i, j :: 0 <= i < j < |reports| ==> reports[i].now <= reports[j].now
  }

  ghost predicate AbsentFrom(reports: seq<Report>, k: Key) {
    forall r :: r in reports ==> DistinctKeys(r.batch) && k !in KeysOf(r.batch) && k !in ReservedKeys(r.reservations)
  }

  /**
   * A lease that vanished and stays away unreserved: its row is frozen at the expiry of the report
   * that first missed it, and is there exactly until that expiry is more than the window ago.
   */
  lemma {:induction false} VanishedLease(rows: seq<Lease>, reports: seq<Report>, k: Key)
    requires reports != [] && ClockRuns(reports) && AbsentFrom(reports, k)
    requires Lookup(rows, k).Some?
    ensures var l := Lookup(rows, k).value;
            var frozen := ExpiredBy(l.expires, reports[0].now);
            && !(frozen.At? && frozen.time > reports[0].now) && !frozen.Infinite?
            && Lookup(AfterReports(rows, reports), k)
               == if TooOld(frozen, reports[|reports| - 1].now) then None else Some(l.(expires := frozen))
  {
    var n := |reports| - 1;
    var r := reports[n];
    assert r in reports;
    VanishedOnce(AfterReports(rows, reports[..n]), r.batch, r.reservations, r.now, k);
    if n > 0 {
      assert forall q :: q in reports[..n] ==> q in reports;
      VanishedLease(rows, reports[..n], k);
      assert reports[n - 1].now <= r.now && reports[0].now <= r.now;
    }
  }
}
