/** Overlapping reads of the dashboard store (client/src/stores/dashboard.js), as interleaved issue and answer steps. */
module DashboardReads {
  import opened Options

  datatype Board = Health | Intelligence

  /** A page round in flight. */
  datatype Round = Round(board: Board, run: nat, rangeOnly: bool)

  /** One metric read in flight, by its request number. */
  datatype Read = Read(key: string, request: nat)

  /** A settled source of a round; None is the failed marker. */
  datatype Result = Result(key: string, data: Option<string>)

  /** A page's panels: the run number, what each source last gave, and the sources marked unavailable. */
  datatype Panel = Panel(run: nat, values: map<string, Option<string>>, failed: set<string>)

  datatype Store = Store(requests: map<string, nat>, metrics: map<string, string>, sent: set<Read>,
                         inFlight: nat, loading: bool, rounds: set<Round>, others: nat, health: Panel, intel: Panel)
  {
    function PanelOf(b: Board): Panel {
      if b == Health then health else intel
    }

    function WithPanel(b: Board, p: Panel): Store {
      if b == Health then this.(health := p) else this.(intel := p)
    }

    function Newest(key: string): nat {
      if key in requests then requests[key] else 0
    }
  }

  datatype Event =
    | Issue(key: string)
    | Answer(read: Read, data: string)
    | Fail(read: Read)
    | Launch(board: Board, rangeOnly: bool)
    | Settled(round: Round, results: seq<Result>)
    | TrackStart
    | TrackEnd

  function RangeKeys(b: Board): seq<string> {
    match b
    case Health => ["timeseries", "proxyPerf", "topClients", "topDomains"]
    case Intelligence =>
      ["queryVolume", "actionBreakdown", "allowedTopDomains", "allowedTopClients", "blocklistTopDomains",
       "blocklistTopCategories", "blocklistTopClients", "blocklistTopClientDomains", "geoipHits", "geoipTopDomains",
       "geoipTopClients", "dnssecUnsupportedDomains"]
  }

  function StateKeys(b: Board): seq<string> {
    match b
    case Health => ["services", "system", "lifecycle", "networkDhcp", "rogueDhcp", "anomalies"]
    case Intelligence => ["services", "system", "blocklistSettings", "blocklistStats", "geoip"]
  }

  /** A key of `metrics`, as opposed to a panel of its own. */
  predicate IsMetric(key: string) {
    key !in ["services", "system", "lifecycle", "networkDhcp", "rogueDhcp", "anomalies", "blocklistSettings",
             "blocklistStats", "geoip"]
  }

  function Sources(b: Board, rangeOnly: bool): seq<string> {
    RangeKeys(b) + if rangeOnly then [] else StateKeys(b)
  }

  predicate Answers(results: seq<Result>, keys: seq<string>) {
    |results| == |keys| && forall i :: 0 <= i < |keys| ==> results[i].key == keys[i]
  }

  /** What the newest run writes into its page. */
  function Written(p: Panel, rangeOnly: bool, results: seq<Result>): Panel {
    if results == [] then p.(failed := if rangeOnly then set k | k in p.failed && !IsMetric(k) else {})
    else
      var before := Written(p, rangeOnly, results[..|results| - 1]);
      var r := results[|results| - 1];
      Panel(p.run, if r.key in p.values then before.values[r.key := r.data] else before.values,
            if r.data == None then before.failed + {r.key} else before.failed)
  }

  predicate Enabled(s: Store, e: Event) {
    match e
    case Answer(read, _) => read in s.sent
    case Fail(read) => read in s.sent
    case Settled(round, results) => round in s.rounds && Answers(results, Sources(round.board, round.rangeOnly))
    case TrackEnd => s.others > 0 && s.inFlight > 0
    case Issue(_) => true
    case Launch(_, _) => true
    case TrackStart => true
  }

  function Begun(s: Store): Store {
    s.(inFlight := s.inFlight + 1, loading := true)
  }

  function Ended(s: Store): Store
    requires s.inFlight > 0
  {
    s.(inFlight := s.inFlight - 1, loading := s.inFlight - 1 > 0)
  }

  function Next(s: Store, e: Event): Store
    requires Enabled(s, e) && (e.Settled? ==> s.inFlight > 0)
  {
    match e
    case Issue(key) =>
      var n := s.Newest(key) + 1;
      s.(requests := s.requests[key := n], sent := s.sent + {Read(key, n)})
    case Answer(read, data) =>
      var after := s.(sent := s.sent - {read});
      if read.request == s.Newest(read.key) then after.(metrics := s.metrics[read.key := data]) else after
    case Fail(read) => s.(sent := s.sent - {read})
    case Launch(board, rangeOnly) =>
      var p := s.PanelOf(board);
      Begun(s.WithPanel(board, p.(run := p.run + 1)).(rounds := s.rounds + {Round(board, p.run + 1, rangeOnly)}))
    case Settled(round, results) =>
      var p := s.PanelOf(round.board);
      var shown := if round.run == p.run then s.WithPanel(round.board, Written(p, round.rangeOnly, results)) else s;
      Ended(shown.(rounds := s.rounds - {round}))
    case TrackStart => Begun(s.(others := s.others + 1))
    case TrackEnd => Ended(s.(others := s.others - 1))
  }

  /** The counts agree with what is in flight. */
  ghost predicate Counted(s: Store) {
    s.inFlight == |s.rounds| + s.others && (s.loading <==> s.inFlight > 0)
  }

  /** No number is handed out before its turn. */
  ghost predicate Numbered(s: Store) {
    && (forall r :: r in s.sent ==> 0 < r.request <= s.Newest(r.key))
    && (forall r :: r in s.rounds ==> r.run <= s.PanelOf(r.board).run)
  }

  ghost predicate Inv(s: Store) {
    Counted(s) && Numbered(s)
  }

  lemma InFlight(s: Store, e: Event)
    requires Inv(s) && Enabled(s, e)
    ensures e.Settled? ==> s.inFlight > 0
  {
    if e.Settled? {
      assert {e.round} <= s.rounds;
      CardinalityAtMost({e.round}, s.rounds);
    }
  }

  lemma {:induction false} CardinalityAtMost<T>(a: set<T>, b: set<T>)
    requires a <= b
    ensures |a| <= |b|
  {
    if a != {} {
      var x :| x in a;
      CardinalityAtMost(a - {x}, b - {x});
    }
  }

  lemma NextCounted(s: Store, e: Event)
    requires Inv(s) && Enabled(s, e) && (e.Settled? ==> s.inFlight > 0)
    ensures Counted(Next(s, e))
  {
    hide Written, IsMetric, Sources;
    if e.Launch? {
      assert Round(e.board, s.PanelOf(e.board).run + 1, e.rangeOnly) !in s.rounds;
    }
  }

  lemma NextNumbered(s: Store, e: Event)
    requires Numbered(s) && Enabled(s, e) && (e.Settled? ==> s.inFlight > 0)
    ensures Numbered(Next(s, e))
  {
    hide Written, IsMetric, Sources;
    if e.Settled? {
      WrittenRun(s.PanelOf(e.round.board), e.round.rangeOnly, e.results);
    }
  }

  lemma NextKeepsInv(s: Store, e: Event)
    requires Inv(s) && Enabled(s, e) && (e.Settled? ==> s.inFlight > 0)
    ensures Inv(Next(s, e))
  {
    hide Next, Enabled, Counted, Numbered;
    NextCounted(s, e);
    NextNumbered(s, e);
  }

  lemma {:induction false} WrittenRun(p: Panel, rangeOnly: bool, results: seq<Result>)
    ensures Written(p, rangeOnly, results).run == p.run
    ensures Written(p, rangeOnly, results).values.Keys == p.values.Keys
  {
    if results != [] {
      hide IsMetric;
      WrittenRun(p, rangeOnly, results[..|results| - 1]);
    }
  }

  ghost predicate IsRun(states: seq<Store>, events: seq<Event>) {
    && |states| == |events| + 1
    && Inv(states[0])
    && forall i :: 0 <= i < |events| ==> Follows(states[i], events[i], states[i + 1])
  }

  ghost predicate Follows(s: Store, e: Event, t: Store) {
    Enabled(s, e) && (e.Settled? ==> s.inFlight > 0) && t == Next(s, e)
  }

  lemma {:induction false} RunKeepsInv(states: seq<Store>, events: seq<Event>, j: nat)
    requires IsRun(states, events) && j < |states|
    ensures Inv(states[j])
  {
    if j > 0 {
      hide Inv, Next, Enabled;
      RunKeepsInv(states, events, j - 1);
      assert Follows(states[j - 1], events[j - 1], states[j]);
      NextKeepsInv(states[j - 1], events[j - 1]);
    }
  }

  /** `loading` is on exactly while some tracked round or read is out. */
  lemma LoadingExactly(states: seq<Store>, events: seq<Event>, j: nat)
    requires IsRun(states, events) && j < |states|
    ensures states[j].loading <==> states[j].rounds != {} || states[j].others > 0
  {
    RunKeepsInv(states, events, j);
  }

  // ---- Newest read wins ----

  /** The event stores an answer under the key. */
  predicate Stores(s: Store, e: Event, key: string) {
    e.Answer? && e.read.key == key && e.read.request == s.Newest(key)
  }

  lemma NextMetric(s: Store, e: Event, key: string)
    requires Enabled(s, e) && (e.Settled? ==> s.inFlight > 0)
    ensures var t := Next(s, e);
            && (Stores(s, e, key) ==> key in t.metrics && t.metrics[key] == e.data)
            && (!Stores(s, e, key) ==> (key in t.metrics <==> key in s.metrics) &&
                                       (key in s.metrics ==> t.metrics[key] == s.metrics[key]))
            && t.Newest(key) == s.Newest(key) + (if e == Issue(key) then 1 else 0)
            && (forall r :: r in t.sent ==> r in s.sent || (e == Issue(r.key) && r.request == t.Newest(r.key)))
            && ((e.Answer? || e.Fail?) ==> e.read !in t.sent)
  {
    hide Written, IsMetric;
  }

  lemma {:induction false} NewestGrows(states: seq<Store>, events: seq<Event>, i: nat, j: nat, key: string)
    requires IsRun(states, events) && i <= j < |states|
    ensures states[i].Newest(key) <= states[j].Newest(key)
    ensures (forall k :: i <= k < j ==> events[k] != Issue(key)) ==> states[i].Newest(key) == states[j].Newest(key)
    decreases j
  {
    if i < j {
      hide Next, Enabled, Inv;
      NewestGrows(states, events, i, j - 1, key);
      assert Follows(states[j - 1], events[j - 1], states[j]);
      NextMetric(states[j - 1], events[j - 1], key);
    }
  }

  lemma {:induction false} AnsweredIsGone(states: seq<Store>, events: seq<Event>, i: nat, j: nat, read: Read)
    requires IsRun(states, events) && i <= j < |states| && read !in states[i].sent
    requires read.request <= states[i].Newest(read.key)
    ensures read !in states[j].sent
    decreases j
  {
    if i < j {
      hide Next, Enabled, Inv;
      var k := j - 1;
      AnsweredIsGone(states, events, i, k, read);
      NewestGrows(states, events, i, k, read.key);
      assert Follows(states[k], events[k], states[k + 1]);
      NextMetric(states[k], events[k], read.key);
    }
  }

  /** The request number behind a stored metric only rises: a later write is of a later request. */
  lemma StoredNeverOlder(states: seq<Store>, events: seq<Event>, i: nat, j: nat, key: string)
    requires IsRun(states, events) && i < j < |events|
    requires Stores(states[i], events[i], key) && Stores(states[j], events[j], key)
    ensures events[i].read.request < events[j].read.request
  {
    hide Next, Inv;
    assert Follows(states[i], events[i], states[i + 1]) && Follows(states[j], events[j], states[j + 1]);
    NextMetric(states[i], events[i], key);
    NewestGrows(states, events, i + 1, j, key);
    if events[j].read.request == events[i].read.request {
      AnsweredIsGone(states, events, i + 1, j, events[i].read);
    }
  }

  /** Once the newest read of a metric has answered, its answer stays until a newer read is issued. */
  lemma {:induction false} NewestAnswerStays(states: seq<Store>, events: seq<Event>, i: nat, j: nat, key: string)
    requires IsRun(states, events) && i < j < |states| && Stores(states[i], events[i], key)
    requires forall k :: i < k < j ==> events[k] != Issue(key)
    ensures key in states[j].metrics && states[j].metrics[key] == events[i].data
    decreases j
  {
    hide Next, Inv, Enabled;
    assert Follows(states[j - 1], events[j - 1], states[j]);
    NextMetric(states[j - 1], events[j - 1], key);
    if i + 1 < j {
      NewestAnswerStays(states, events, i, j - 1, key);
      if Stores(states[j - 1], events[j - 1], key) {
        StoredNeverOlder(states, events, i, j - 1, key);
        assert Follows(states[i], events[i], states[i + 1]);
        NextMetric(states[i], events[i], key);
        NewestGrows(states, events, i + 1, j - 1, key);
      }
    }
  }

  // ---- Pages: only the newest run writes ----

  predicate Launches(e: Event, b: Board) {
    e.Launch? && e.board == b
  }

  lemma NextPanel(s: Store, e: Event, b: Board)
    requires Enabled(s, e) && (e.Settled? ==> s.inFlight > 0)
    ensures var p, q := s.PanelOf(b), Next(s, e).PanelOf(b);
            && q.run == p.run + (if Launches(e, b) then 1 else 0)
            && (if e.Settled? && e.round.board == b && e.round.run == p.run
                then q == Written(p, e.round.rangeOnly, e.results)
                else q.values == p.values && q.failed == p.failed)
  {
    if e.Settled? {
      WrittenRun(s.PanelOf(e.round.board), e.round.rangeOnly, e.results);
    }
    hide Written, IsMetric;
  }

  lemma {:induction false} RunCounts(states: seq<Store>, events: seq<Event>, i: nat, j: nat, b: Board)
    requires IsRun(states, events) && i <= j < |states|
    ensures states[i].PanelOf(b).run <= states[j].PanelOf(b).run
    ensures states[i].PanelOf(b).run == states[j].PanelOf(b).run <==> forall k :: i <= k < j ==> !Launches(events[k], b)
    decreases j
  {
    if i < j {
      hide Next, Enabled, Inv;
      RunCounts(states, events, i, j - 1, b);
      assert Follows(states[j - 1], events[j - 1], states[j]);
      NextPanel(states[j - 1], events[j - 1], b);
    }
  }

  /** A round is shown exactly when no other round of its page was launched before it settled. */
  lemma ShownExactly(states: seq<Store>, events: seq<Event>, i: nat, j: nat, b: Board)
    requires IsRun(states, events) && i < j < |events| && Launches(events[i], b)
    requires events[j].Settled? && events[j].round == Round(b, states[i].PanelOf(b).run + 1, events[i].rangeOnly)
    ensures events[j].round.run == states[j].PanelOf(b).run <==> forall k :: i < k < j ==> !Launches(events[k], b)
  {
    hide Next, Enabled, Inv;
    assert Follows(states[i], events[i], states[i + 1]);
    NextPanel(states[i], events[i], b);
    RunCounts(states, events, i + 1, j, b);
  }

  predicate Failed(results: seq<Result>, key: string) {
    exists r :: r in results && r.key == key && r.data == None
  }

  /** What a shown round leaves: its own sources' failures, and the state panels only when it read them. */
  lemma {:induction false} WrittenExactly(p: Panel, rangeOnly: bool, results: seq<Result>, key: string)
    requires forall i, j :: 0 <= i < j < |results| ==> results[i].key != results[j].key
    ensures var q := Written(p, rangeOnly, results);
            && (key in q.failed <==> Failed(results, key) || (rangeOnly && key in p.failed && !IsMetric(key)))
            && (key in q.values <==> key in p.values)
            && (forall r :: r in results && r.key == key && key in p.values ==> q.values[key] == r.data)
            && (key in p.values && (forall r :: r in results ==> r.key != key) ==> q.values[key] == p.values[key])
  {
    if results != [] {
      hide IsMetric;
      var n := |results| - 1;
      assert results == results[..n] + [results[n]];
      WrittenExactly(p, rangeOnly, results[..n], key);
      WrittenRun(p, rangeOnly, results[..n]);
      assert Failed(results, key) <==> Failed(results[..n], key) || (results[n].key == key && results[n].data == None);
    }
  }

  /** The sources of a round are distinct, and a range-only round has none of the state panels among them. */
  lemma SourcesDistinct(b: Board, rangeOnly: bool)
    ensures forall i, j :: 0 <= i < j < |Sources(b, rangeOnly)| ==> Sources(b, rangeOnly)[i] != Sources(b, rangeOnly)[j]
    ensures forall k :: k in RangeKeys(b) ==> IsMetric(k)
    ensures forall k :: k in StateKeys(b) ==> !IsMetric(k)
  {
    RangeKeysDistinct(b);
    StateKeysDistinct(b);
    hide RangeKeys, StateKeys, IsMetric;
    var range, all := RangeKeys(b), Sources(b, rangeOnly);
    forall i, j | 0 <= i < j < |all|
      ensures all[i] != all[j]
    {
      if j < |range| {
        assert all[i] == range[i] && all[j] == range[j];
      } else if i < |range| {
        assert all[i] in range && all[j] == StateKeys(b)[j - |range|];
      } else {
        assert all[i] == StateKeys(b)[i - |range|] && all[j] == StateKeys(b)[j - |range|];
      }
    }
  }

  lemma RangeKeysDistinct(b: Board)
    ensures forall i, j :: 0 <= i < j < |RangeKeys(b)| ==> RangeKeys(b)[i] != RangeKeys(b)[j]
    ensures forall k :: k in RangeKeys(b) ==> IsMetric(k)
  {}

  lemma StateKeysDistinct(b: Board)
    ensures forall i, j :: 0 <= i < j < |StateKeys(b)| ==> StateKeys(b)[i] != StateKeys(b)[j]
    ensures forall k :: k in StateKeys(b) ==> !IsMetric(k)
  {}

  ghost predicate StatePanels(p: Panel, b: Board) {
    p.values.Keys == set k | k in StateKeys(b)
  }

  /** A shown range-only round leaves every state panel, and whether it is marked unavailable, as it was. */
  lemma RangeRoundKeepsPanels(p: Panel, b: Board, results: seq<Result>)
    requires Answers(results, Sources(b, true)) && StatePanels(p, b)
    ensures var q := Written(p, true, results);
            && q.values == p.values
            && forall key :: key in StateKeys(b) ==> (key in q.failed <==> key in p.failed)
  {
    hide Written, IsMetric, StateKeys, RangeKeys;
    SourcesDistinct(b, true);
    assert Sources(b, true) == RangeKeys(b);
    assert forall r :: r in results ==> r.key in RangeKeys(b);
    var q := Written(p, true, results);
    WrittenRun(p, true, results);
    forall key | key in StateKeys(b)
      ensures key in p.values && q.values[key] == p.values[key] && (key in q.failed <==> key in p.failed)
    {
      WrittenExactly(p, true, results, key);
    }
  }

  lemma NextRounds(s: Store, e: Event, r: Round)
    requires Enabled(s, e) && (e.Settled? ==> s.inFlight > 0)
    ensures r in Next(s, e).rounds ==>
              r in s.rounds || (e == Launch(r.board, r.rangeOnly) && r.run == s.PanelOf(r.board).run + 1)
  {
    hide Written, IsMetric;
  }

  /** Between the two launches and after them, with no third one. */
  ghost predicate Superseding(states: seq<Store>, events: seq<Event>, i: nat, l: nat, j: nat, b: Board) {
    && IsRun(states, events) && i < l < |events| && i < j < |states|
    && events[i] == Launch(b, false) && events[l] == Launch(b, true)
    && (forall k :: i < k < j && k != l ==> !Launches(events[k], b))
    && (forall k :: i < k < l && events[k].Settled? ==> events[k].round.board != b)
    && (forall r :: r in states[i].rounds ==> r.board != b)
    && StatePanels(states[i].PanelOf(b), b)
  }

  /** One step of it: the panels stay, and only the two rounds can be out. */
  ghost predicate Dropped(first: Store, s: Store, b: Board, both: bool) {
    var n := first.PanelOf(b).run;
    && s.PanelOf(b).values == first.PanelOf(b).values
    && s.PanelOf(b).run == n + (if both then 2 else 1)
    && forall r :: r in s.rounds && r.board == b ==> r == Round(b, n + 1, false) || (both && r == Round(b, n + 2, true))
  }

  lemma DroppedNext(first: Store, s: Store, e: Event, b: Board, both: bool)
    requires StatePanels(first.PanelOf(b), b) && Dropped(first, s, b, both)
    requires Enabled(s, e) && (e.Settled? ==> s.inFlight > 0)
    requires if Launches(e, b) then e.rangeOnly && !both else both || (e.Settled? ==> e.round.board != b)
    ensures Dropped(first, Next(s, e), b, both || Launches(e, b))
  {
    NextPanel(s, e, b);
    forall r | r in Next(s, e).rounds && r.board == b
      ensures r in s.rounds || (e == Launch(r.board, r.rangeOnly) && r.run == s.PanelOf(r.board).run + 1)
    {
      NextRounds(s, e, r);
    }
    if e.Settled? && e.round.board == b && e.round.run == s.PanelOf(b).run {
      hide Next, Written, IsMetric, StateKeys, RangeKeys, Sources;
      RangeRoundKeepsPanels(s.PanelOf(b), b, e.results);
    }
  }

  /**
   * A range change while a full round is out drops what that round read of the state panels: it is not shown, and the
   * range-only round that takes its place reads none of them.
   */
  lemma {:induction false} RangeChangeDropsRefresh(states: seq<Store>, events: seq<Event>, i: nat, l: nat, j: nat,
                                                  b: Board)
    requires Superseding(states, events, i, l, j, b)
    ensures states[j].PanelOf(b).values == states[i].PanelOf(b).values
    ensures Dropped(states[i], states[j], b, l < j)
    decreases j
  {
    hide Next, Enabled, Inv, StatePanels;
    assert Follows(states[j - 1], events[j - 1], states[j]);
    if i + 1 == j {
      NextPanel(states[i], events[i], b);
      forall r | r in states[j].rounds && r.board == b
        ensures r == Round(b, states[i].PanelOf(b).run + 1, false)
      {
        NextRounds(states[i], events[i], r);
      }
    } else {
      RangeChangeDropsRefresh(states, events, i, l, j - 1, b);
      DroppedNext(states[i], states[j - 1], events[j - 1], b, l < j - 1);
    }
  }

  // ---- The store in place ----

  class Page {
    var run: nat
    var values: map<string, Option<string>>
    var failed: set<string>

    constructor (b: Board)
      ensures run == 0 && failed == {} && StatePanels(Contents(), b) && forall k :: k in values ==> values[k] == None
    {
      run, values, failed := 0, map k | k in StateKeys(b) :: None, {};
    }

    function Contents(): Panel
      reads this
    {
      Panel(run, values, failed)
    }

    /** The loop over the settled sources of a round that is still the newest. */
    method Show(rangeOnly: bool, results: seq<Result>)
      modifies this`values, this`failed
      ensures Contents() == Written(old(Contents()), rangeOnly, results)
    {
      hide IsMetric;
      ghost var p := Contents();
      var shown := if rangeOnly then set k | k in failed && !IsMetric(k) else {};
      assert results[..0] == [];
      for i := 0 to |results|
        invariant run == p.run && failed == p.failed && values.Keys == p.values.Keys
        invariant Panel(run, values, shown) == Written(p, rangeOnly, results[..i])
      {
        var r := results[i];
        assert results[..i + 1][..i] == results[..i];
        WrittenRun(p, rangeOnly, results[..i]);
        if r.data == None {
          shown := shown + {r.key};
        }
        if r.key in values {
          values := values[r.key := r.data];
        }
      }
      assert results[..|results|] == results;
      failed := shown;
    }
  }

  class DashboardStore {
    var metricRequests: map<string, nat>
    var metrics: map<string, string>
    var inFlight: nat
    var loading: bool
    const health: Page
    const intel: Page
    ghost var sent: set<Read>
    ghost var rounds: set<Round>
    ghost var others: nat

    ghost predicate Valid()
      reads this, health, intel
    {
      health != intel && Inv(Contents())
    }

    ghost function Contents(): Store
      reads this, health, intel
    {
      Store(metricRequests, metrics, sent, inFlight, loading, rounds, others, health.Contents(), intel.Contents())
    }

    constructor (metrics: map<string, string>)
      ensures Valid() && fresh(health) && fresh(intel) && this.metrics == metrics && metricRequests == map[]
    {
      this.metrics, metricRequests, inFlight, loading := metrics, map[], 0, false;
      sent, rounds, others := {}, {}, 0;
      health := new Page(Health);
      intel := new Page(Intelligence);
    }

    method IssueRead(key: string) returns (request: nat)
      requires Valid()
      modifies this
      ensures Valid() && Contents() == Next(old(Contents()), Issue(key)) && Read(key, request) in sent
    {
      hide Inv;
      NextKeepsInv(Contents(), Issue(key));
      request := (if key in metricRequests then metricRequests[key] else 0) + 1;
      metricRequests := metricRequests[key := request];
      sent := sent + {Read(key, request)};
    }

    method ReadAnswered(key: string, request: nat, data: string)
      requires Valid() && Read(key, request) in sent
      modifies this
      ensures Valid() && Contents() == Next(old(Contents()), Answer(Read(key, request), data))
    {
      NextKeepsInv(Contents(), Answer(Read(key, request), data));
      hide Inv;
      sent := sent - {Read(key, request)};
      if key in metricRequests && request == metricRequests[key] {
        metrics := metrics[key := data];
      }
    }

    method LaunchRound(b: Board, rangeOnly: bool) returns (run: nat)
      requires Valid()
      modifies this, health`run, intel`run
      ensures Valid() && Contents() == Next(old(Contents()), Launch(b, rangeOnly)) && Round(b, run, rangeOnly) in rounds
    {
      hide Inv;
      NextKeepsInv(Contents(), Launch(b, rangeOnly));
      var page := if b == Health then health else intel;
      page.run := page.run + 1;
      run := page.run;
      inFlight, loading := inFlight + 1, true;
      rounds := rounds + {Round(b, run, rangeOnly)};
    }

    /** Every source of a round has settled. */
    method RoundSettled(b: Board, run: nat, rangeOnly: bool, results: seq<Result>)
      requires Valid() && Round(b, run, rangeOnly) in rounds && Answers(results, Sources(b, rangeOnly))
      modifies this, health, intel
      ensures old(inFlight) > 0 && Valid()
      ensures Contents() == Next(old(Contents()), Settled(Round(b, run, rangeOnly), results))
    {
      hide Inv, Written, Sources, Answers, RangeKeys, StateKeys, IsMetric;
      ghost var e := Settled(Round(b, run, rangeOnly), results);
      InFlight(Contents(), e);
      NextKeepsInv(Contents(), e);
      var page := if b == Health then health else intel;
      if run == page.run {
        page.Show(rangeOnly, results);
      }
      inFlight := inFlight - 1;
      loading := inFlight > 0;
      rounds := rounds - {Round(b, run, rangeOnly)};
    }
  }
}
