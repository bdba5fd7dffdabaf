/** importRecords (server/src/models/dns-record.js): a batch written into one zone through two in-memory indexes. */
module ImportRecords {
  import opened Options
  import opened DnsNames

  datatype Row = Row(id: nat, kind: string, name: string, value: string)

  /** A record of the imported file; its name is as the file spells it. */
  datatype Entry = Entry(kind: string, name: string, value: string)

  datatype Outcome = Ignored | Skipped | Created | Updated | Failed

  /** An address row whose reverse record has to follow. */
  datatype Sync = Sync(id: nat, name: string, value: string, previous: Option<string>)

  datatype Tally = Tally(created: nat, updated: nat, skipped: nat, failed: nat) {
    function Total(): nat { created + updated + skipped + failed }

    function Plus(o: Outcome): Tally {
      match o
      case Ignored => this
      case Skipped => this.(skipped := skipped + 1)
      case Created => this.(created := created + 1)
      case Updated => this.(updated := updated + 1)
      case Failed => this.(failed := failed + 1)
    }
  }

  /** The table, the next row id, and what the batch did so far. */
  datatype State = State(rows: seq<Row>, next: nat, outcomes: seq<Outcome>, syncs: seq<Sync>)

  predicate Supported(kind: string) {
    kind == "A" || kind == "AAAA" || kind == "CNAME"
  }

  predicate IsAddress(kind: string) {
    kind == "A" || kind == "AAAA"
  }

  predicate Keyed(r: Row, kind: string, name: string) {
    r.kind == kind && r.name == name
  }

  predicate Holds(rows: seq<Row>, kind: string, name: string, value: string) {
    exists r :: r in rows && Keyed(r, kind, name) && r.value == value
  }

  /** Where the youngest row of a name and type sits, -1 when there is none. */
  function Last(rows: seq<Row>, kind: string, name: string): (i: int)
    ensures -1 <= i < |rows|
    ensures i >= 0 ==> Keyed(rows[i], kind, name)
    ensures forall j :: i < j < |rows| ==> !Keyed(rows[j], kind, name)
  {
    if rows == [] then -1
    else if Keyed(rows[|rows| - 1], kind, name) then |rows| - 1
    else Last(rows[..|rows| - 1], kind, name)
  }

  /** One entry; `refused` is the write throwing. */
  function Step(zone: string, st: State, e: Entry, refused: bool): State {
    var name := NormalizeRecordName(e.name, zone);
    var i := Last(st.rows, e.kind, name);
    if !Supported(e.kind) then st.(outcomes := st.outcomes + [Ignored])
    else if Holds(st.rows, e.kind, name, e.value) then st.(outcomes := st.outcomes + [Skipped])
    else if refused then st.(outcomes := st.outcomes + [Failed])
    else if i >= 0 then
      State(st.rows[i := st.rows[i].(value := e.value)], st.next, st.outcomes + [Updated],
            st.syncs + Synced(st.rows[i].id, e.kind, name, e.value, Some(st.rows[i].value)))
    else
      State(st.rows + [Row(st.next, e.kind, name, e.value)], st.next + 1, st.outcomes + [Created],
            st.syncs + Synced(st.next, e.kind, name, e.value, None))
  }

  function Synced(id: nat, kind: string, name: string, value: string, previous: Option<string>): seq<Sync> {
    if IsAddress(kind) then [Sync(id, name, value, previous)] else []
  }

  function Run(zone: string, rows: seq<Row>, next: nat, entries: seq<Entry>, refused: seq<bool>): (st: State)
    requires |refused| == |entries|
    ensures |st.outcomes| == |entries|
  {
    if entries == [] then State(rows, next, [], [])
    else
      var n := |entries| - 1;
      Step(zone, Run(zone, rows, next, entries[..n], refused[..n]), entries[n], refused[n])
  }

  lemma RunLast(zone: string, rows: seq<Row>, next: nat, entries: seq<Entry>, refused: seq<bool>)
    requires |refused| == |entries| > 0
    ensures Run(zone, rows, next, entries, refused) ==
            Step(zone, Run(zone, rows, next, entries[..|entries| - 1], refused[..|entries| - 1]),
                 entries[|entries| - 1], refused[|entries| - 1])
  {}

  function TallyOf(entries: seq<Entry>, outcomes: seq<Outcome>, kind: string): Tally
    requires |outcomes| == |entries|
  {
    if entries == [] then Tally(0, 0, 0, 0)
    else
      var n := |entries| - 1;
      var before := TallyOf(entries[..n], outcomes[..n], kind);
      if entries[n].kind == kind then before.Plus(outcomes[n]) else before
  }

  function CountOf(entries: seq<Entry>, kind: string): nat {
    if entries == [] then 0
    else CountOf(entries[..|entries| - 1], kind) + if entries[|entries| - 1].kind == kind then 1 else 0
  }

  // ---- The table ----

  ghost predicate DistinctIds(rows: seq<Row>) {
    forall i, j :: 0 <= i < j < |rows| ==> rows[i].id != rows[j].id
  }

  predicate SameExact(r: Row, s: Row) {
    Keyed(r, s.kind, s.name) && r.value == s.value
  }

  ghost predicate NoRepeats(rows: seq<Row>) {
    forall i, j :: 0 <= i < j < |rows| && Supported(rows[i].kind) ==> !SameExact(rows[i], rows[j])
  }

  /** Ids are keys and no address or CNAME record is stored twice. */
  ghost predicate Sound(rows: seq<Row>, next: nat) {
    DistinctIds(rows) && NoRepeats(rows) && forall r :: r in rows ==> r.id < next
  }

  lemma StepSound(zone: string, st: State, e: Entry, refused: bool)
    requires Sound(st.rows, st.next)
    ensures var after := Step(zone, st, e, refused); Sound(after.rows, after.next)
  {
    hide NormalizeRecordName, Last;
  }

  lemma {:induction false} RunSound(zone: string, rows: seq<Row>, next: nat, entries: seq<Entry>, refused: seq<bool>)
    requires |refused| == |entries| && Sound(rows, next)
    ensures var st := Run(zone, rows, next, entries, refused); Sound(st.rows, st.next)
  {
    if entries != [] {
      var n := |entries| - 1;
      RunSound(zone, rows, next, entries[..n], refused[..n]);
      StepSound(zone, Run(zone, rows, next, entries[..n], refused[..n]), entries[n], refused[n]);
    }
  }

  lemma StepOutcome(zone: string, st: State, e: Entry, refused: bool) returns (o: Outcome)
    ensures var after := Step(zone, st, e, refused);
            && after.outcomes == st.outcomes + [o]
            && (o == Ignored <==> !Supported(e.kind))
            && (o == Skipped <==>
                  Supported(e.kind) && Holds(st.rows, e.kind, NormalizeRecordName(e.name, zone), e.value))
            && (o != Created && o != Updated ==>
                  after.rows == st.rows && after.next == st.next && after.syncs == st.syncs)
            && (o == Created ==> |after.rows| == |st.rows| + 1 && after.next == st.next + 1)
            && (o == Updated ==> |after.rows| == |st.rows| && after.next == st.next)
  {
    hide NormalizeRecordName, Last, Holds, Synced;
    o := Step(zone, st, e, refused).outcomes[|st.outcomes|];
  }

  // ---- The counters ----

  /** The four counters of a type account for each of its entries, once. */
  lemma {:induction false} CountersAccount(zone: string, rows: seq<Row>, next: nat, entries: seq<Entry>,
                                           refused: seq<bool>, kind: string)
    requires |refused| == |entries| && Supported(kind)
    ensures TallyOf(entries, Run(zone, rows, next, entries, refused).outcomes, kind).Total() == CountOf(entries, kind)
  {
    if entries != [] {
      hide NormalizeRecordName, Last, Holds, Step;
      var n := |entries| - 1;
      CountersAccount(zone, rows, next, entries[..n], refused[..n], kind);
      var before := Run(zone, rows, next, entries[..n], refused[..n]);
      var after := Run(zone, rows, next, entries, refused);
      var o := StepOutcome(zone, before, entries[n], refused[n]);
      assert after.outcomes[..n] == before.outcomes;
    }
  }

  /** A batch that wrote nothing leaves the table and hands nothing on; one that created a row leaves more rows. */
  lemma {:induction false} UnwrittenKeepsTable(zone: string, rows: seq<Row>, next: nat, entries: seq<Entry>,
                                               refused: seq<bool>)
    requires |refused| == |entries| && Sound(rows, next)
    ensures var st := Run(zone, rows, next, entries, refused);
            && (Created !in st.outcomes && Updated !in st.outcomes ==> st.rows == rows && st.syncs == [])
            && |rows| <= |st.rows| && next <= st.next
            && (Created in st.outcomes ==> |rows| < |st.rows|)
  {
    if entries != [] {
      hide NormalizeRecordName, Last, Holds, Step;
      var n := |entries| - 1;
      UnwrittenKeepsTable(zone, rows, next, entries[..n], refused[..n]);
      var o := StepOutcome(zone, Run(zone, rows, next, entries[..n], refused[..n]), entries[n], refused[n]);
    }
  }

  // ---- What the batch leaves ----

  predicate Touches(zone: string, entries: seq<Entry>, r: Row) {
    exists e :: e in entries && Supported(e.kind) && Keyed(r, e.kind, NormalizeRecordName(e.name, zone))
  }

  /** Rows of other names and types are neither changed nor invented. */
  lemma {:induction false} ElsewhereUntouched(zone: string, rows: seq<Row>, next: nat, entries: seq<Entry>,
                                              refused: seq<bool>, r: Row)
    requires |refused| == |entries| && !Touches(zone, entries, r)
    ensures r in Run(zone, rows, next, entries, refused).rows <==> r in rows
  {
    if entries != [] {
      hide NormalizeRecordName, Last;
      var n := |entries| - 1;
      assert entries == entries[..n] + [entries[n]];
      ElsewhereUntouched(zone, rows, next, entries[..n], refused[..n], r);
      var st := Run(zone, rows, next, entries[..n], refused[..n]);
      StepElsewhere(zone, st, entries[n], refused[n], r);
    }
  }

  lemma StepElsewhere(zone: string, st: State, e: Entry, refused: bool, r: Row)
    requires Supported(e.kind) ==> !Keyed(r, e.kind, NormalizeRecordName(e.name, zone))
    ensures r in Step(zone, st, e, refused).rows <==> r in st.rows
  {
    hide NormalizeRecordName, Last;
    var i := Last(st.rows, e.kind, NormalizeRecordName(e.name, zone));
    if i >= 0 {
      var rows := st.rows[i := st.rows[i].(value := e.value)];
      assert forall j :: 0 <= j < |rows| && j != i ==> rows[j] == st.rows[j];
      assert rows[i].kind == st.rows[i].kind && rows[i].name == st.rows[i].name;
    }
  }

  /** Each address row that is not as it was is handed on, with the value it ends with. */
  lemma {:induction false} ChangedRowsSynced(zone: string, rows: seq<Row>, next: nat, entries: seq<Entry>,
                                             refused: seq<bool>, r: Row)
    requires |refused| == |entries| && Sound(rows, next)
    requires r in Run(zone, rows, next, entries, refused).rows && IsAddress(r.kind) && r !in rows
    ensures exists s :: s in Run(zone, rows, next, entries, refused).syncs && s.id == r.id && s.value == r.value
  {
    hide NormalizeRecordName, Last;
    var n := |entries| - 1;
    var st := Run(zone, rows, next, entries[..n], refused[..n]);
    var after := Step(zone, st, entries[n], refused[n]);
    if r in st.rows {
      ChangedRowsSynced(zone, rows, next, entries[..n], refused[..n], r);
      var s :| s in st.syncs && s.id == r.id && s.value == r.value;
      assert s in after.syncs;
    } else {
      var s := after.syncs[|after.syncs| - 1];
      assert s in after.syncs;
    }
  }

  // ---- Importing the same batch again ----

  ghost predicate Held(zone: string, rows: seq<Row>, entries: seq<Entry>) {
    forall e :: e in entries && Supported(e.kind) ==>
      Holds(rows, e.kind, NormalizeRecordName(e.name, zone), e.value)
  }

  predicate Clash(zone: string, d: Entry, e: Entry) {
    && Supported(d.kind) && d.kind == e.kind && NormalizeRecordName(d.name, zone) == NormalizeRecordName(e.name, zone)
    && d.value != e.value
  }

  /** No two entries give one name and type two values. */
  ghost predicate OneValueEach(zone: string, entries: seq<Entry>) {
    forall d, e :: d in entries && e in entries ==> !Clash(zone, d, e)
  }

  ghost predicate NoneRefused(refused: seq<bool>) {
    forall i :: 0 <= i < |refused| ==> !refused[i]
  }

  /** A write loses no record another entry wants. */
  lemma StepHolds(zone: string, st: State, e: Entry, refused: bool, d: Entry)
    requires Supported(d.kind) && !Clash(zone, d, e)
    requires Holds(st.rows, d.kind, NormalizeRecordName(d.name, zone), d.value) || (e == d && !refused)
    ensures Holds(Step(zone, st, e, refused).rows, d.kind, NormalizeRecordName(d.name, zone), d.value)
  {
    hide NormalizeRecordName, Last;
    var name := NormalizeRecordName(e.name, zone);
    var i := Last(st.rows, e.kind, name);
    var after := Step(zone, st, e, refused).rows;
    if Holds(st.rows, d.kind, NormalizeRecordName(d.name, zone), d.value) {
      var k :| 0 <= k < |st.rows| && Keyed(st.rows[k], d.kind, NormalizeRecordName(d.name, zone)) &&
              st.rows[k].value == d.value;
      assert after[k] == st.rows[k];
    } else if i >= 0 {
      assert after[i] in after;
    } else {
      assert after[|after| - 1] in after;
    }
  }

  lemma {:induction false} ImportedIsHeld(zone: string, rows: seq<Row>, next: nat, entries: seq<Entry>,
                                          refused: seq<bool>)
    requires |refused| == |entries| && NoneRefused(refused) && OneValueEach(zone, entries)
    ensures Held(zone, Run(zone, rows, next, entries, refused).rows, entries)
  {
    if entries != [] {
      hide NormalizeRecordName, Last, Holds, Step, Clash;
      var n := |entries| - 1;
      assert entries == entries[..n] + [entries[n]] && refused == refused[..n] + [refused[n]];
      assert OneValueEach(zone, entries[..n]) && NoneRefused(refused[..n]);
      ImportedIsHeld(zone, rows, next, entries[..n], refused[..n]);
      var st := Run(zone, rows, next, entries[..n], refused[..n]);
      forall e | e in entries && Supported(e.kind)
        ensures Holds(Run(zone, rows, next, entries, refused).rows, e.kind, NormalizeRecordName(e.name, zone), e.value)
      {
        StepHolds(zone, st, entries[n], refused[n], e);
      }
    }
  }

  predicate Quiet(outcomes: seq<Outcome>) {
    forall i :: 0 <= i < |outcomes| ==> outcomes[i] == Ignored || outcomes[i] == Skipped
  }

  /** A batch is skipped whole exactly when the table holds all of it; the table then stays. */
  lemma {:induction false} SkippedExactly(zone: string, rows: seq<Row>, next: nat, entries: seq<Entry>,
                                          refused: seq<bool>)
    requires |refused| == |entries|
    ensures Quiet(Run(zone, rows, next, entries, refused).outcomes) <==> Held(zone, rows, entries)
    ensures Held(zone, rows, entries) ==> Run(zone, rows, next, entries, refused).rows == rows
  {
    hide *;
    if entries == [] {
      NothingRun(zone, rows, next);
    } else {
      var n := |entries| - 1;
      RunLast(zone, rows, next, entries, refused);
      SkippedExactly(zone, rows, next, entries[..n], refused[..n]);
      var st := Run(zone, rows, next, entries[..n], refused[..n]);
      var o := StepOutcome(zone, st, entries[n], refused[n]);
      QuietNext(st.outcomes, o);
      HeldNext(zone, rows, entries[..n], entries[n]);
      assert entries == entries[..n] + [entries[n]];
    }
  }

  lemma NothingRun(zone: string, rows: seq<Row>, next: nat)
    ensures var st := Run(zone, rows, next, [], []); Quiet(st.outcomes) && st.rows == rows && Held(zone, rows, [])
  {}

  lemma QuietNext(outcomes: seq<Outcome>, o: Outcome)
    ensures Quiet(outcomes + [o]) <==> Quiet(outcomes) && (o == Ignored || o == Skipped)
  {
    var all := outcomes + [o];
    assert all[..|outcomes|] == outcomes && all[|outcomes|] == o;
    assert forall i :: 0 <= i < |outcomes| ==> all[i] == outcomes[i];
  }

  lemma HeldNext(zone: string, rows: seq<Row>, entries: seq<Entry>, e: Entry)
    ensures Held(zone, rows, entries + [e]) <==>
            Held(zone, rows, entries) &&
            (Supported(e.kind) ==> Holds(rows, e.kind, NormalizeRecordName(e.name, zone), e.value))
  {
    hide NormalizeRecordName, Holds;
    assert forall d :: d in entries + [e] <==> d in entries || d == e;
  }

  ghost predicate SingleRows(rows: seq<Row>) {
    forall i, j :: 0 <= i < j < |rows| ==> !Keyed(rows[i], rows[j].kind, rows[j].name)
  }

  lemma StepSingle(zone: string, st: State, e: Entry, refused: bool)
    requires SingleRows(st.rows)
    ensures SingleRows(Step(zone, st, e, refused).rows)
  {
    hide NormalizeRecordName, Last, Holds;
  }

  lemma {:induction false} RunSingle(zone: string, rows: seq<Row>, next: nat, entries: seq<Entry>, refused: seq<bool>)
    requires |refused| == |entries| && SingleRows(rows)
    ensures SingleRows(Run(zone, rows, next, entries, refused).rows)
  {
    if entries != [] {
      hide NormalizeRecordName, Last, Holds, Step;
      var n := |entries| - 1;
      RunSingle(zone, rows, next, entries[..n], refused[..n]);
      StepSingle(zone, Run(zone, rows, next, entries[..n], refused[..n]), entries[n], refused[n]);
    }
  }

  /** Importing a fully written batch again is skipped whole when no two of its entries clash. */
  lemma ReimportIsQuiet(zone: string, rows: seq<Row>, next: nat, entries: seq<Entry>, refused: seq<bool>,
                        again: seq<bool>)
    requires |refused| == |again| == |entries| && NoneRefused(refused) && OneValueEach(zone, entries)
    ensures var first := Run(zone, rows, next, entries, refused);
            var second := Run(zone, first.rows, first.next, entries, again);
            Quiet(second.outcomes) && second.rows == first.rows
  {
    hide *;
    var first := Run(zone, rows, next, entries, refused);
    ImportedIsHeld(zone, rows, next, entries, refused);
    SkippedExactly(zone, first.rows, first.next, entries, again);
  }

  /** Over a zone with one row a name and type, that is the exact condition. */
  lemma ReimportIsQuietExactly(zone: string, rows: seq<Row>, next: nat, entries: seq<Entry>, refused: seq<bool>,
                               again: seq<bool>)
    requires |refused| == |again| == |entries| && NoneRefused(refused) && SingleRows(rows)
    ensures var first := Run(zone, rows, next, entries, refused);
            Quiet(Run(zone, first.rows, first.next, entries, again).outcomes) <==> OneValueEach(zone, entries)
  {
    hide NormalizeRecordName, Last, Run, Quiet;
    var first := Run(zone, rows, next, entries, refused);
    SkippedExactly(zone, first.rows, first.next, entries, again);
    if OneValueEach(zone, entries) {
      ReimportIsQuiet(zone, rows, next, entries, refused, again);
    } else {
      var d, e :| d in entries && e in entries && Clash(zone, d, e);
      RunSingle(zone, rows, next, entries, refused);
      NotBoth(first.rows, d.kind, NormalizeRecordName(d.name, zone), d.value, e.value);
    }
  }

  /** Two addresses for one name: the import is not quiet when repeated, and never will be. */
  lemma TwoValuesNeverQuiet(zone: string, next: nat)
    ensures var entries := [Entry("A", "@", "10.0.0.1"), Entry("A", "@", "10.0.0.2")];
            var first := Run(zone, [], next, entries, [false, false]);
            && first.rows == [Row(next, "A", "@", "10.0.0.2")]
            && Run(zone, first.rows, first.next, entries, [false, false]).outcomes == [Updated, Updated]
            && Run(zone, first.rows, first.next, entries, [false, false]).rows == first.rows
  {
    hide NormalizeRecordName, Run, Step, Synced;
    var d, e := Entry("A", "@", "10.0.0.1"), Entry("A", "@", "10.0.0.2");
    RunPair(zone, [], next);
    ApexCreated(zone, State([], next, [], []), d.value);
    ApexUpdated(zone, Step(zone, State([], next, [], []), d, false), e.value);
    var first := Run(zone, [], next, [d, e], [false, false]);
    RunPair(zone, first.rows, first.next);
    ApexUpdated(zone, State(first.rows, first.next, [], []), d.value);
    ApexUpdated(zone, Step(zone, State(first.rows, first.next, [], []), d, false), e.value);
  }

  lemma ApexCreated(zone: string, st: State, value: string)
    requires st.rows == []
    ensures var after := Step(zone, st, Entry("A", "@", value), false);
            && after.rows == [Row(st.next, "A", "@", value)] && after.next == st.next + 1
            && after.outcomes == st.outcomes + [Created]
  {
    hide NormalizeRecordName, Synced;
    ApexIsStable(zone);
  }

  lemma ApexUpdated(zone: string, st: State, value: string)
    requires |st.rows| == 1 && Keyed(st.rows[0], "A", "@") && st.rows[0].value != value
    ensures var after := Step(zone, st, Entry("A", "@", value), false);
            && after.rows == [st.rows[0].(value := value)] && after.next == st.next
            && after.outcomes == st.outcomes + [Updated]
  {
    hide NormalizeRecordName, Synced;
    ApexIsStable(zone);
  }

  lemma RunPair(zone: string, rows: seq<Row>, next: nat)
    ensures var entries := [Entry("A", "@", "10.0.0.1"), Entry("A", "@", "10.0.0.2")];
            Run(zone, rows, next, entries, [false, false]) ==
            Step(zone, Step(zone, State(rows, next, [], []), entries[0], false), entries[1], false)
  {
    hide Step, NormalizeRecordName;
    var entries := [Entry("A", "@", "10.0.0.1"), Entry("A", "@", "10.0.0.2")];
    assert entries[..1] == [entries[0]] && [false, false][..1] == [false];
    assert [entries[0]][..0] == [] && [false][..0] == [];
    RunLast(zone, rows, next, entries, [false, false]);
    RunLast(zone, rows, next, [entries[0]], [false]);
    NothingRun(zone, rows, next);
  }

  lemma NotBoth(rows: seq<Row>, kind: string, name: string, v: string, w: string)
    requires SingleRows(rows) && v != w
    ensures !Holds(rows, kind, name, v) || !Holds(rows, kind, name, w)
  {}

  // ---- The two indexes ----

  function NameKey(kind: string, name: string): string {
    kind + "|" + name
  }

  function ExactKey(kind: string, name: string, value: string): string {
    NameKey(kind, name) + "|" + value
  }

  predicate Bare(text: string) {
    '|' !in text
  }

  /** What the caller lets through: no separator in a name or value it hands over. */
  ghost predicate BareBatch(zone: string, entries: seq<Entry>) {
    forall e :: e in entries && Supported(e.kind) ==> Bare(NormalizeRecordName(e.name, zone)) && Bare(e.value)
  }

  lemma SplitOnce(a: string, b: string, c: string, d: string)
    requires Bare(c) && Bare(d)
    ensures a + "|" + b == c + "|" + d <==> a == c && b == d
  {
    var k := c + "|" + d;
    if a + "|" + b == k {
      assert k[|a|] == '|';
      assert forall i :: 0 <= i < |c| ==> k[i] == c[i];
      assert forall i :: |c| < i < |k| ==> k[i] == d[i - |c| - 1];
      assert |a| == |c|;
      assert a == k[..|a|] && c == k[..|c|] && b == k[|a| + 1..] && d == k[|c| + 1..];
    }
  }

  lemma SplitTwice(a: string, b: string, v: string, c: string, d: string, w: string)
    requires Bare(c) && Bare(d) && Bare(w)
    ensures a + "|" + b + "|" + v == c + "|" + d + "|" + w <==> a == c && b == d && v == w
  {
    var k := c + "|" + d + "|" + w;
    if a + "|" + b + "|" + v == k {
      var m := a + "|" + b;
      assert k == m + "|" + v;
      assert k[|a|] == '|' && k[|m|] == '|';
      assert forall i :: 0 <= i < |c| ==> k[i] == c[i];
      assert forall i :: |c| < i < |c| + 1 + |d| ==> k[i] == d[i - |c| - 1];
      assert forall i :: |c| + 1 + |d| < i < |k| ==> k[i] == w[i - |c| - |d| - 2];
      assert |m| == |c| + 1 + |d|;
      assert m == k[..|m|] && c + "|" + d == k[..|m|] && v == k[|m| + 1..] && w == k[|m| + 1..];
      SplitOnce(a, b, c, d);
    }
  }

  /** Whatever its fields hold, a row shares the joined key of a separator-free record only if it is that record. */
  lemma KeyIsItsRecord(r: Row, kind: string, name: string, value: string)
    requires Bare(kind) && Bare(name)
    ensures NameKey(r.kind, r.name) == NameKey(kind, name) <==> Keyed(r, kind, name)
    ensures Bare(value) ==>
              (ExactKey(r.kind, r.name, r.value) == ExactKey(kind, name, value) <==>
               Keyed(r, kind, name) && r.value == value)
  {
    SplitOnce(r.kind, r.name, kind, name);
    if Bare(value) {
      SplitTwice(r.kind, r.name, r.value, kind, name, value);
    }
  }

  datatype Known = Known(id: nat, value: string)

  /** The name index answers with the youngest row of a name and type. */
  ghost predicate Indexes(byName: map<string, Known>, rows: seq<Row>, kind: string, name: string) {
    var i := Last(rows, kind, name);
    && (NameKey(kind, name) in byName <==> i >= 0)
    && (i >= 0 ==> byName[NameKey(kind, name)] == Known(rows[i].id, rows[i].value))
  }

  /** The exact index answers whether the table holds a record. */
  ghost predicate Answers(exact: set<string>, rows: seq<Row>, kind: string, name: string, value: string) {
    ExactKey(kind, name, value) in exact <==> Holds(rows, kind, name, value)
  }

  /** Both indexes are right about every record without a separator, over whatever rows the table holds. */
  ghost predicate Indexed(exact: set<string>, byName: map<string, Known>, rows: seq<Row>) {
    && (forall kind, name :: Bare(kind) && Bare(name) ==> Indexes(byName, rows, kind, name))
    && forall kind, name, value :: Bare(kind) && Bare(name) && Bare(value) ==> Answers(exact, rows, kind, name, value)
  }

  /** Rewriting the youngest row of a name keeps both indexes in step. */
  lemma IndexedUpdate(exact: set<string>, byName: map<string, Known>, rows: seq<Row>, i: nat, value: string)
    requires Indexed(exact, byName, rows) && NoRepeats(rows)
    requires i < |rows| && Supported(rows[i].kind) && i == Last(rows, rows[i].kind, rows[i].name)
    ensures var r := rows[i];
            Indexed(exact - {ExactKey(r.kind, r.name, r.value)} + {ExactKey(r.kind, r.name, value)},
                    byName[NameKey(r.kind, r.name) := Known(r.id, value)], rows[i := r.(value := value)])
  {
    hide ExactKey, NameKey, Last, Holds;
    var r := rows[i];
    var after := rows[i := r.(value := value)];
    forall kind, name | Bare(kind) && Bare(name)
      ensures Indexes(byName[NameKey(r.kind, r.name) := Known(r.id, value)], after, kind, name)
    {
      assert Indexes(byName, rows, kind, name);
      KeyIsItsRecord(r, kind, name, "");
      LastUpdate(rows, i, value, kind, name);
    }
    forall kind, name, v | Bare(kind) && Bare(name) && Bare(v)
      ensures Answers(exact - {ExactKey(r.kind, r.name, r.value)} + {ExactKey(r.kind, r.name, value)}, after,
                      kind, name, v)
    {
      assert Answers(exact, rows, kind, name, v);
      KeyIsItsRecord(r, kind, name, v);
      KeyIsItsRecord(r.(value := value), kind, name, v);
      HoldsUpdate(rows, i, value, kind, name, v);
    }
  }

  lemma HoldsUpdate(rows: seq<Row>, i: nat, value: string, kind: string, name: string, v: string)
    requires i < |rows| && Supported(rows[i].kind) && NoRepeats(rows)
    ensures var r := rows[i];
            Holds(rows[i := r.(value := value)], kind, name, v) <==>
            (Keyed(r, kind, name) && v == value) ||
            (Holds(rows, kind, name, v) && !(Keyed(r, kind, name) && v == r.value))
  {
    var r := rows[i];
    var after := rows[i := r.(value := value)];
    assert forall j :: 0 <= j < |rows| && j != i ==> after[j] == rows[j];
    assert after[i] == r.(value := value) && after[i] in after;
    if Holds(rows, kind, name, v) && !(Keyed(r, kind, name) && v == r.value) {
      var j :| 0 <= j < |rows| && Keyed(rows[j], kind, name) && rows[j].value == v;
      assert after[j] in after;
    }
    if Holds(after, kind, name, v) && !(Keyed(r, kind, name) && v == value) {
      var j :| 0 <= j < |after| && Keyed(after[j], kind, name) && after[j].value == v;
      assert rows[j] in rows;
      assert j < i ==> !SameExact(rows[j], rows[i]);
      assert i < j ==> !SameExact(rows[i], rows[j]);
    }
  }

  lemma LastUpdate(rows: seq<Row>, i: nat, value: string, kind: string, name: string)
    requires i < |rows|
    ensures Last(rows[i := rows[i].(value := value)], kind, name) == Last(rows, kind, name)
  {
    LastIs(rows[i := rows[i].(value := value)], kind, name, Last(rows, kind, name));
  }

  lemma LastIs(rows: seq<Row>, kind: string, name: string, i: int)
    requires -1 <= i < |rows| && (i >= 0 ==> Keyed(rows[i], kind, name))
    requires forall j :: i < j < |rows| ==> !Keyed(rows[j], kind, name)
    ensures Last(rows, kind, name) == i
  {}

  lemma KeysAnswer(exact: set<string>, byName: map<string, Known>, rows: seq<Row>, kind: string, name: string,
                   value: string)
    requires Indexed(exact, byName, rows) && Supported(kind) && Bare(name) && Bare(value)
    ensures ExactKey(kind, name, value) in exact <==> Holds(rows, kind, name, value)
    ensures Indexes(byName, rows, kind, name)
  {
    hide ExactKey, NameKey, Indexes, Holds;
    assert Bare(kind);
    assert Answers(exact, rows, kind, name, value);
  }

  /** A scanned or new row takes its name's entry whether or not one was there. */
  lemma Reindexed(exact: set<string>, byName: map<string, Known>, rows: seq<Row>, r: Row)
    requires Indexed(exact, byName, rows)
    ensures Indexed(exact + {ExactKey(r.kind, r.name, r.value)},
                    byName[NameKey(r.kind, r.name) := Known(r.id, r.value)], rows + [r])
  {
    hide ExactKey, NameKey;
    forall kind, name | Bare(kind) && Bare(name)
      ensures Indexes(byName[NameKey(r.kind, r.name) := Known(r.id, r.value)], rows + [r], kind, name)
    {
      assert Indexes(byName, rows, kind, name);
      KeyIsItsRecord(r, kind, name, "");
      assert (rows + [r])[..|rows|] == rows;
    }
    assert forall s :: s in rows + [r] <==> s in rows || s == r;
    forall kind, name, v | Bare(kind) && Bare(name) && Bare(v)
      ensures Answers(exact + {ExactKey(r.kind, r.name, r.value)}, rows + [r], kind, name, v)
    {
      assert Answers(exact, rows, kind, name, v);
      KeyIsItsRecord(r, kind, name, v);
    }
  }

  lemma NothingWritten(zone: string, rows: seq<Row>, next: nat)
    ensures Run(zone, rows, next, [], []) == State(rows, next, [], [])
    ensures forall kind :: TallyOf([], [], kind) == Tally(0, 0, 0, 0)
  {}

  lemma RunNext(zone: string, rows: seq<Row>, next: nat, entries: seq<Entry>, refused: seq<bool>, k: nat)
    requires |refused| == |entries| && k < |entries|
    ensures Run(zone, rows, next, entries[..k + 1], refused[..k + 1]) ==
            Step(zone, Run(zone, rows, next, entries[..k], refused[..k]), entries[k], refused[k])
  {
    assert entries[..k + 1][..k] == entries[..k] && refused[..k + 1][..k] == refused[..k];
  }

  /** The counters so far: right for each type, and accounting for each of its entries. */
  ghost predicate Tallied(results: map<string, Tally>, entries: seq<Entry>, outcomes: seq<Outcome>) {
    && |outcomes| == |entries|
    && (forall i :: 0 <= i < |entries| ==> (outcomes[i] == Ignored <==> !Supported(entries[i].kind)))
    && (forall kind :: kind in results <==> Supported(kind))
    && forall kind :: Supported(kind) ==>
         results[kind] == TallyOf(entries, outcomes, kind) && results[kind].Total() == CountOf(entries, kind)
  }

  lemma TalliedNext(results: map<string, Tally>, entries: seq<Entry>, k: nat, outcomes: seq<Outcome>, o: Outcome)
    requires k < |entries| && Tallied(results, entries[..k], outcomes)
    requires o == Ignored <==> !Supported(entries[k].kind)
    ensures o != Ignored ==> entries[k].kind in results
    ensures var kind := entries[k].kind;
            Tallied(if o == Ignored then results else results[kind := results[kind].Plus(o)],
                    entries[..k + 1], outcomes + [o])
  {
    assert entries[..k + 1][..k] == entries[..k] && (outcomes + [o])[..k] == outcomes;
  }

  /** The table and the indexes of a batch under way are those of its state. */
  ghost predicate Follows(rows: seq<Row>, next: nat, syncs: seq<Sync>, exact: set<string>,
                          byName: map<string, Known>, st: State)
  {
    rows == st.rows && next == st.next && syncs == st.syncs && Sound(rows, next) &&
    Indexed(exact, byName, rows)
  }

  function WithValue(rows: seq<Row>, id: nat, value: string): seq<Row> {
    seq(|rows|, i requires 0 <= i < |rows| => if rows[i].id == id then rows[i].(value := value) else rows[i])
  }

  lemma WithValueAt(rows: seq<Row>, i: nat, value: string)
    requires DistinctIds(rows) && i < |rows|
    ensures WithValue(rows, rows[i].id, value) == rows[i := rows[i].(value := value)]
  {
    assert forall j :: 0 <= j < |rows| && j != i ==> rows[j].id != rows[i].id;
  }

  lemma NothingIndexed()
    ensures Indexed({}, map[], [])
  {}

  lemma BareEntry(zone: string, entries: seq<Entry>, k: nat)
    requires k < |entries| && BareBatch(zone, entries) && Supported(entries[k].kind)
    ensures Bare(NormalizeRecordName(entries[k].name, zone)) && Bare(entries[k].value)
  {
    hide NormalizeRecordName, Bare;
    assert entries[k] in entries;
  }

  lemma Starts(rows: seq<Row>, next: nat, exact: set<string>, byName: map<string, Known>, results: map<string, Tally>)
    requires Indexed(exact, byName, rows)
    requires results == map["A" := Tally(0, 0, 0, 0), "AAAA" := Tally(0, 0, 0, 0), "CNAME" := Tally(0, 0, 0, 0)]
    ensures Sound(rows, next) ==> Follows(rows, next, [], exact, byName, State(rows, next, [], []))
    ensures Tallied(results, [], [])
  {
    hide Indexed, Sound;
  }

  lemma Ends(regular: bool, rows: seq<Row>, next: nat, syncs: seq<Sync>, exact: set<string>,
             byName: map<string, Known>, st: State, results: map<string, Tally>, entries: seq<Entry>)
    requires regular ==> Follows(rows, next, syncs, exact, byName, st)
    requires Tallied(results, entries, st.outcomes)
    ensures regular ==> rows == st.rows && next == st.next && syncs == st.syncs && Sound(rows, next)
    ensures |st.outcomes| == |entries|
    ensures forall kind :: Supported(kind) ==>
              && kind in results
              && results[kind] == TallyOf(entries, st.outcomes, kind) && results[kind].Total() == CountOf(entries, kind)
  {}

  ghost predicate Wrote(results: map<string, Tally>, kind: string) {
    kind in results && results[kind].created + results[kind].updated > 0
  }

  /** The counters tell whether an entry was written. */
  lemma {:induction false} WroteExactly(results: map<string, Tally>, entries: seq<Entry>, outcomes: seq<Outcome>)
    requires Tallied(results, entries, outcomes)
    ensures Created in outcomes || Updated in outcomes <==> exists kind :: Supported(kind) && Wrote(results, kind)
  {
    if i :| 0 <= i < |outcomes| && (outcomes[i] == Created || outcomes[i] == Updated) {
      Counted(entries, outcomes, i);
      assert Wrote(results, entries[i].kind);
    }
    if kind :| Supported(kind) && Wrote(results, kind) {
      NoneCounted(entries, outcomes, kind);
    }
  }

  lemma {:induction false} Counted(entries: seq<Entry>, outcomes: seq<Outcome>, i: nat)
    requires |outcomes| == |entries| && i < |entries| && (outcomes[i] == Created || outcomes[i] == Updated)
    ensures var t := TallyOf(entries, outcomes, entries[i].kind); t.created + t.updated > 0
  {
    var n := |entries| - 1;
    if i < n {
      Counted(entries[..n], outcomes[..n], i);
    }
  }

  lemma {:induction false} NoneCounted(entries: seq<Entry>, outcomes: seq<Outcome>, kind: string)
    requires |outcomes| == |entries|
    ensures Created !in outcomes && Updated !in outcomes ==>
              var t := TallyOf(entries, outcomes, kind); t.created + t.updated == 0
  {
    if entries != [] {
      var n := |entries| - 1;
      NoneCounted(entries[..n], outcomes[..n], kind);
      assert outcomes[n] in outcomes;
    }
  }

  // ---- The zone's records ----

  class ZoneRecords {
    const zone: string
    var rows: seq<Row>
    var next: nat
    var serial: nat

    constructor (zone: string, rows: seq<Row>, next: nat, serial: nat)
      ensures this.zone == zone && this.rows == rows && this.next == next && this.serial == serial
    {
      this.zone, this.rows, this.next, this.serial := zone, rows, next, serial;
    }

    /** UPDATE by id. */
    method UpdateValue(id: nat, value: string)
      modifies this`rows
      ensures rows == WithValue(old(rows), id, value)
    {
      for k := 0 to |rows|
        invariant |rows| == |old(rows)|
        invariant forall j :: 0 <= j < |rows| ==>
                    rows[j] == if j < k then WithValue(old(rows), id, value)[j] else old(rows)[j]
      {
        if rows[k].id == id {
          rows := rows[k := rows[k].(value := value)];
        }
      }
    }

    /** Reads the zone once into the two indexes. */
    method BuildIndexes() returns (exact: set<string>, byName: map<string, Known>)
      ensures Indexed(exact, byName, rows)
    {
      hide ExactKey, NameKey, Indexed;
      exact, byName := {}, map[];
      NothingIndexed();
      for k := 0 to |rows|
        invariant Indexed(exact, byName, rows[..k])
      {
        var r := rows[k];
        assert rows[..k + 1] == rows[..k] + [r];
        Reindexed(exact, byName, rows[..k], r);
        exact := exact + {ExactKey(r.kind, r.name, r.value)};
        byName := byName[NameKey(r.kind, r.name) := Known(r.id, r.value)];
      }
      assert rows[..|rows|] == rows;
    }

    /** One transaction: writes the batch and bumps the serial once if an entry was written. */
    method ImportRecords(entries: seq<Entry>, refused: seq<bool>)
      returns (results: map<string, Tally>, syncs: seq<Sync>, changed: bool)
      requires |refused| == |entries|
      modifies this`rows, this`next, this`serial
      ensures Sound(old(rows), old(next)) && BareBatch(zone, entries) ==>
                var st := Run(zone, old(rows), old(next), entries, refused);
                && rows == st.rows && next == st.next && syncs == st.syncs && Sound(rows, next)
                && (forall kind :: Supported(kind) ==>
                      kind in results && results[kind] == TallyOf(entries, st.outcomes, kind))
      ensures forall kind :: Supported(kind) ==> kind in results && results[kind].Total() == CountOf(entries, kind)
      ensures changed <==> exists kind :: Supported(kind) && Wrote(results, kind)
      ensures !changed ==> rows == old(rows) && next == old(next) && syncs == []
      ensures serial == old(serial) + if changed then 1 else 0
    {
      hide NormalizeRecordName, ExactKey, NameKey, Last, Holds, Indexed, Run, TallyOf, CountOf, Sound, BareBatch,
        Step, Tallied, Follows, Bare, Wrote;
      ghost var regular := Sound(rows, next) && BareBatch(zone, entries);
      NothingWritten(zone, rows, next);
      var exact, byName := BuildIndexes();
      results := map["A" := Tally(0, 0, 0, 0), "AAAA" := Tally(0, 0, 0, 0), "CNAME" := Tally(0, 0, 0, 0)];
      syncs, changed := [], false;
      ghost var st := State(rows, next, [], []);
      Starts(rows, next, exact, byName, results);
      for k := 0 to |entries|
        invariant serial == old(serial)
        invariant |st.outcomes| == k
        invariant regular ==> st == Run(zone, old(rows), old(next), entries[..k], refused[..k])
        invariant regular ==> Follows(rows, next, syncs, exact, byName, st)
        invariant Tallied(results, entries[..k], st.outcomes)
        invariant changed <==> Created in st.outcomes || Updated in st.outcomes
        invariant !changed ==> rows == old(rows) && next == old(next) && syncs == []
      {
        var e := entries[k];
        if regular && Supported(e.kind) {
          BareEntry(zone, entries, k);
        }
        var o: Outcome;
        o, exact, byName, syncs := ImportOne(e, refused[k], exact, byName, syncs, st, regular);
        ghost var before := st.outcomes;
        st := if regular then Step(zone, st, e, refused[k]) else st.(outcomes := st.outcomes + [o]);
        assert st.outcomes == before + [o];
        RunNext(zone, old(rows), old(next), entries, refused, k);
        TalliedNext(results, entries, k, before, o);
        if o != Ignored {
          results := results[e.kind := results[e.kind].Plus(o)];
        }
        changed := changed || o == Created || o == Updated;
      }
      assert entries[..|entries|] == entries && refused[..|entries|] == refused;
      WroteExactly(results, entries, st.outcomes);
      Ends(regular, rows, next, syncs, exact, byName, st, results, entries);
      if changed {
        serial := serial + 1;
      }
    }

    /** One record of the batch. */
    method ImportOne(e: Entry, refused: bool, exact0: set<string>, byName0: map<string, Known>, syncs0: seq<Sync>,
                     ghost st: State, ghost regular: bool)
      returns (o: Outcome, exact: set<string>, byName: map<string, Known>, syncs: seq<Sync>)
      requires regular ==> Follows(rows, next, syncs0, exact0, byName0, st)
      requires regular && Supported(e.kind) ==> Bare(NormalizeRecordName(e.name, zone)) && Bare(e.value)
      modifies this`rows, this`next
      ensures o == Ignored <==> !Supported(e.kind)
      ensures o != Created && o != Updated ==> rows == old(rows) && next == old(next) && syncs == syncs0
      ensures regular ==>
                var after := Step(zone, st, e, refused);
                after.outcomes == st.outcomes + [o] && Follows(rows, next, syncs, exact, byName, after)
    {
      hide NormalizeRecordName, ExactKey, NameKey, Indexed, Last, Holds, Bare;
      exact, byName, syncs := exact0, byName0, syncs0;
      if regular {
        StepSound(zone, st, e, refused);
      }
      if !Supported(e.kind) {
        return Ignored, exact, byName, syncs;
      }
      var name := NormalizeRecordName(e.name, zone);
      var exactKey, nameKey := ExactKey(e.kind, name, e.value), NameKey(e.kind, name);
      if regular {
        KeysAnswer(exact, byName, rows, e.kind, name, e.value);
      }
      if exactKey in exact {
        return Skipped, exact, byName, syncs;
      }
      if refused {
        return Failed, exact, byName, syncs;
      }
      if nameKey in byName {
        var known := byName[nameKey];
        if regular {
          var i := Last(rows, e.kind, name);
          IndexedUpdate(exact, byName, rows, i, e.value);
          WithValueAt(rows, i, e.value);
        }
        UpdateValue(known.id, e.value);
        exact := exact - {ExactKey(e.kind, name, known.value)} + {exactKey};
        byName := byName[nameKey := Known(known.id, e.value)];
        o := Updated;
        if IsAddress(e.kind) {
          syncs := syncs + [Sync(known.id, name, e.value, Some(known.value))];
        }
      } else {
        if regular {
          Reindexed(exact, byName, rows, Row(next, e.kind, name, e.value));
        }
        rows := rows + [Row(next, e.kind, name, e.value)];
        exact := exact + {exactKey};
        byName := byName[nameKey := Known(next, e.value)];
        o := Created;
        if IsAddress(e.kind) {
          syncs := syncs + [Sync(next, name, e.value, None)];
        }
        next := next + 1;
      }
    }
  }
}
