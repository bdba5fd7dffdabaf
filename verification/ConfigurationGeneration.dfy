/**
 * Apply requests counted by generation (server/src/models/configuration-generation.js), and the single-flight queue
 * that works them off (server/src/utils/after-commit.js). One hook; its row is there from migration 065 on.
 */
module ConfigurationGeneration {
  datatype Status = Pending | Applying | Applied | Failed

  datatype Row = Row(desired: nat, applied: nat, status: Status)

  function Enqueued(r: Row): Row {
    Row(r.desired + 1, r.applied, Pending)
  }

  function Begun(r: Row): Row {
    r.(status := Applying)
  }

  function MarkedApplied(r: Row, generation: nat): Row {
    Row(r.desired, if generation > r.applied then generation else r.applied,
        if r.desired > generation then Pending else Applied)
  }

  function MarkedFailed(r: Row): Row {
    r.(status := Failed)
  }

  // ---- The row alone, under any number of workers ----

  /** `read` holds each generation some worker has read and may still report. */
  datatype Shared = Shared(row: Row, read: set<nat>)

  datatype Event = Requested | Reads | Reports(generation: nat) | Fails

  predicate Possible(s: Shared, e: Event) {
    e.Reports? ==> e.generation in s.read
  }

  function Happens(s: Shared, e: Event): Shared {
    match e
    case Requested => s.(row := Enqueued(s.row))
    case Reads => Shared(Begun(s.row), s.read + {s.row.desired})
    case Reports(generation) => s.(row := MarkedApplied(s.row, generation))
    case Fails => s.(row := MarkedFailed(s.row))
  }

  ghost predicate IsHistory(states: seq<Shared>, events: seq<Event>) {
    && |states| == |events| + 1
    && forall i :: 0 <= i < |events| ==>
         Possible(states[i], events[i]) && states[i + 1] == Happens(states[i], events[i])
  }

  /** Nothing ahead of the requests is applied or being applied, and "applied" means all of them. */
  ghost predicate Sound(s: Shared) {
    && s.row.applied <= s.row.desired
    && (forall g :: g in s.read ==> g <= s.row.desired)
    && (s.row.status == Applied ==> s.row.applied == s.row.desired)
  }

  lemma {:induction false} HistorySound(states: seq<Shared>, events: seq<Event>, i: nat, j: nat)
    requires IsHistory(states, events) && i <= j < |states| && Sound(states[i])
    ensures Sound(states[j]) && states[i].row.applied <= states[j].row.applied
    ensures states[i].row.desired <= states[j].row.desired && states[i].read <= states[j].read
    decreases j
  {
    if i < j {
      HistorySound(states, events, i, j - 1);
      assert states[j] == Happens(states[j - 1], events[j - 1]);
    }
  }

  /** A request made after a worker read its generation is not shown as applied by that worker's report. */
  lemma NoRequestShownAppliedEarly(states: seq<Shared>, events: seq<Event>, r: nat, q: nat, w: nat)
    requires IsHistory(states, events) && r < q < w < |events| && Sound(states[0])
    requires events[r] == Reads && events[q] == Requested && events[w] == Reports(states[r].row.desired)
    ensures states[w + 1].row.status == Pending && states[r].row.desired < states[w + 1].row.desired
  {
    HistorySound(states, events, 0, r);
    HistorySound(states, events, 0, q);
    HistorySound(states, events, r, q);
    HistorySound(states, events, 0, q + 1);
    HistorySound(states, events, q + 1, w);
    assert states[q + 1] == Happens(states[q], events[q]);
    assert states[w + 1] == Happens(states[w], events[w]);
  }

  /** With two workers the status alone errs the other way: a late report of an older generation reopens a done row. */
  lemma LateReportReopens(n: nat) returns (states: seq<Shared>)
    ensures IsHistory(states, [Requested, Reads, Requested, Reads, Reports(n + 2), Reports(n + 1)])
    ensures states[0] == Shared(Row(n, n, Applied), {}) && states[5].row == Row(n + 2, n + 2, Applied)
    ensures states[6].row == Row(n + 2, n + 2, Pending)
  {
    var s0 := Shared(Row(n, n, Applied), {});
    var s1 := Happens(s0, Requested);
    var s2 := Happens(s1, Reads);
    var s3 := Happens(s2, Requested);
    var s4 := Happens(s3, Reads);
    var s5 := Happens(s4, Reports(n + 2));
    states := [s0, s1, s2, s3, s4, s5, Happens(s5, Reports(n + 1))];
  }

  ghost predicate AsksBetween(events: seq<Event>, i: nat, j: nat)
    requires j <= |events|
  {
    exists q :: i <= q < j && events[q] == Requested
  }

  lemma {:induction false} DesiredRisesExactly(states: seq<Shared>, events: seq<Event>, i: nat, j: nat)
    requires IsHistory(states, events) && i <= j < |states|
    ensures states[i].row.desired <= states[j].row.desired
    ensures states[i].row.desired < states[j].row.desired <==> AsksBetween(events, i, j)
    decreases j
  {
    if i < j {
      DesiredRisesExactly(states, events, i, j - 1);
      assert states[j - 1 + 1] == Happens(states[j - 1], events[j - 1]);
    }
  }

  /** However many workers there are, a report leaves the row applied exactly when nobody asked since its read. */
  lemma ReportSettlesExactly(states: seq<Shared>, events: seq<Event>, r: nat, w: nat)
    requires IsHistory(states, events) && r < w < |events|
    requires events[r] == Reads && events[w] == Reports(states[r].row.desired)
    ensures states[w + 1].row.status == (if AsksBetween(events, r, w) then Pending else Applied)
  {
    DesiredRisesExactly(states, events, r, w);
    assert states[w + 1] == Happens(states[w], events[w]);
  }

  // ---- The queue: one worker at a time ----

  /** Where the hook's run stands; `Flying` holds the generation it read. */
  datatype Phase = Idle | Scheduled | Flying(generation: nat) | Settled

  /** `resumed` is whether this process has picked up what the last one left. */
  datatype Hook = Hook(row: Row, phase: Phase, pending: bool, holds: nat, resumed: bool)

  datatype Step = Request | Start | Settle(ok: bool) | Finish | Hold | Release | Crash | Resume

  function Fire(h: Hook): Hook {
    if h.phase != Idle || h.holds > 0 then h.(pending := true) else h.(phase := Scheduled, pending := false)
  }

  predicate Enabled(h: Hook, step: Step) {
    match step
    case Start => h.phase == Scheduled
    case Settle(_) => h.phase.Flying?
    case Finish => h.phase == Settled
    case Release => h.holds > 0
    case Request => true
    case Hold => true
    case Crash => true
    case Resume => true
  }

  function Next(h: Hook, step: Step): Hook
    requires Enabled(h, step)
  {
    match step
    case Request => Fire(h.(row := Enqueued(h.row)))
    case Start => h.(row := Begun(h.row), phase := Flying(h.row.desired))
    case Settle(ok) =>
      h.(row := if ok then MarkedApplied(h.row, h.phase.generation) else MarkedFailed(h.row), phase := Settled)
    case Finish => var done := h.(phase := Idle); if done.pending then Fire(done) else done
    case Hold => h.(holds := h.holds + 1)
    case Release =>
      var released := h.(holds := h.holds - 1);
      if released.holds == 0 && released.pending then Fire(released) else released
    case Crash => Hook(h.row, Idle, false, 0, false)
    case Resume =>
      var booted := h.(resumed := true);
      if h.row.desired > h.row.applied || h.row.status != Applied then Fire(booted) else booted
  }

  ghost predicate IsRun(states: seq<Hook>, steps: seq<Step>) {
    && |states| == |steps| + 1
    && forall i :: 0 <= i < |steps| ==> Follows(states[i], steps[i], states[i + 1])
  }

  ghost predicate Follows(h: Hook, step: Step, after: Hook) {
    Enabled(h, step) && after == Next(h, step)
  }

  ghost predicate Inv(h: Hook) {
    && h.row.applied <= h.row.desired
    && (h.row.status == Applied ==> h.row.applied == h.row.desired)
    && (h.phase.Flying? ==> h.phase.generation <= h.row.desired && (h.phase.generation < h.row.desired ==> h.pending))
    && (h.pending ==> h.phase != Idle || h.holds > 0)
    && (h.resumed && h.row.status == Pending ==> h.pending || h.phase == Scheduled)
    && (h.resumed && h.row.status == Applying ==> h.pending || h.phase == Scheduled || h.phase.Flying?)
  }

  lemma NextKeepsInv(h: Hook, step: Step)
    requires Inv(h) && Enabled(h, step)
    ensures var after := Next(h, step);
            Inv(after) && h.row.applied <= after.row.applied && h.row.desired <= after.row.desired
  {}

  lemma {:induction false} RunKeepsInv(states: seq<Hook>, steps: seq<Step>, i: nat, j: nat)
    requires IsRun(states, steps) && i <= j < |states| && Inv(states[i])
    ensures Inv(states[j])
    ensures states[i].row.applied <= states[j].row.applied && states[i].row.desired <= states[j].row.desired
    decreases j
  {
    if i < j {
      hide Next, Inv, Enabled;
      RunKeepsInv(states, steps, i, j - 1);
      var k := j - 1;
      assert Follows(states[k], steps[k], states[k + 1]);
      NextKeepsInv(states[k], steps[k]);
    }
  }

  /**
   * No request is lost: whatever requests, failures, holds, crashes and restarts came before, a resumed hook at rest
   * has applied every generation asked for, or its last run failed.
   */
  lemma RestMeansDone(states: seq<Hook>, steps: seq<Step>, j: nat)
    requires IsRun(states, steps) && j < |states| && states[0] == Hook(Row(0, 0, Applied), Idle, false, 0, false)
    requires states[j].resumed && states[j].phase == Idle && states[j].holds == 0
    ensures states[j].row.status == Failed ||
            (states[j].row.status == Applied && states[j].row.applied == states[j].row.desired)
    ensures !states[j].pending
  {
    RunKeepsInv(states, steps, 0, j);
  }

  /** A restart runs the hook again exactly when its status says it was not done. */
  lemma RestartResumesExactly(h: Hook)
    requires Inv(h)
    ensures var back := Next(Next(h, Crash), Resume);
            back.row == h.row && back.phase == if h.row.status == Applied then Idle else Scheduled
  {}

  /** While a hold is out, a hook that is not running does not start. */
  lemma {:induction false} HoldIsExclusive(states: seq<Hook>, steps: seq<Step>, i: nat, j: nat)
    requires IsRun(states, steps) && i <= j < |states| && states[i].phase == Idle
    requires forall k :: i <= k <= j ==> states[k].holds > 0
    ensures states[j].phase == Idle
    decreases j
  {
    if i < j {
      HoldIsExclusive(states, steps, i, j - 1);
      assert Follows(states[j - 1], steps[j - 1], states[j]);
    }
  }

  /** One whole run of a scheduled hook. */
  function Pass(h: Hook, ok: bool): Hook
    requires h.phase == Scheduled
  {
    Next(Next(Next(h, Start), Settle(ok)), Finish)
  }

  /** Requests that come in during a run, however many, are worked off by one more run that covers them all. */
  lemma BurstTakesOneMorePass(h: Hook, requests: nat, ok: bool)
    requires Inv(h) && h.phase.Flying? && !h.pending && h.holds == 0 && h.resumed && requests > 0
    ensures var busy := Burst(h, requests);
            && Enabled(busy, Settle(ok)) && Enabled(Next(busy, Settle(ok)), Finish)
            && var again := Next(Next(busy, Settle(ok)), Finish);
               && again.phase == Scheduled && again.row.applied <= h.row.desired
               && Pass(again, true).phase == Idle && !Pass(again, true).pending
               && Pass(again, true).row == Row(h.row.desired + requests, h.row.desired + requests, Applied)
  {
    BurstWaits(h, requests);
  }

  function Burst(h: Hook, requests: nat): Hook {
    if requests == 0 then h else Next(Burst(h, requests - 1), Request)
  }

  lemma {:induction false} BurstWaits(h: Hook, requests: nat)
    requires Inv(h) && h.phase.Flying?
    ensures var busy := Burst(h, requests);
            && busy.row.desired == h.row.desired + requests && busy.row.applied == h.row.applied
            && busy.phase == h.phase && busy.holds == h.holds && busy.resumed == h.resumed
            && busy.pending == (h.pending || requests > 0)
  {
    if requests > 0 {
      BurstWaits(h, requests - 1);
    }
  }

  // ---- The row and the queue in place ----

  class GenerationTable {
    var desired: nat
    var applied: nat
    var status: Status

    constructor ()
      ensures Contents() == Row(0, 0, Applied)
    {
      desired, applied, status := 0, 0, Applied;
    }

    function Contents(): Row
      reads this
    {
      Row(desired, applied, status)
    }

    method EnqueueGeneration()
      modifies this
      ensures Contents() == Enqueued(old(Contents()))
    {
      desired, status := desired + 1, Pending;
    }

    method MarkApplying() returns (generation: nat)
      modifies this`status
      ensures Contents() == Begun(old(Contents())) && generation == desired
    {
      status := Applying;
      generation := desired;
    }

    method MarkApplied(generation: nat)
      modifies this
      ensures Contents() == MarkedApplied(old(Contents()), generation)
    {
      if generation > applied {
        applied := generation;
      }
      status := if desired > generation then Pending else Applied;
    }

    method MarkFailed()
      modifies this`status
      ensures Contents() == MarkedFailed(old(Contents()))
    {
      status := Failed;
    }
  }

  class HookQueue {
    const table: GenerationTable
    var running: bool
    var pending: bool
    var holds: nat
    /** Where the callbacks of the run in progress stand. */
    var phase: Phase
    ghost var resumed: bool

    ghost predicate Valid()
      reads this
    {
      running == (phase != Idle)
    }

    ghost function State(): Hook
      reads this, table
    {
      Hook(table.Contents(), phase, pending, holds, resumed)
    }

    /** A process starting over a table that another may have left. */
    constructor (table: GenerationTable)
      ensures this.table == table && Valid() && State() == Hook(table.Contents(), Idle, false, 0, false)
    {
      this.table := table;
      running, pending, holds, phase, resumed := false, false, 0, Idle, false;
    }

    method FireHook()
      requires Valid()
      modifies this
      ensures Valid() && State() == Fire(old(State()))
    {
      if running || holds > 0 {
        pending := true;
        return;
      }
      running, pending, phase := true, false, Scheduled;
    }

    method QueueRegen()
      requires Valid()
      modifies this, table
      ensures Valid() && State() == Next(old(State()), Request)
    {
      table.EnqueueGeneration();
      FireHook();
    }

    /** The microtask: the handler is called after the generation is read. */
    method RunMicrotask()
      requires Valid() && Enabled(State(), Start)
      modifies this, table
      ensures Valid() && State() == Next(old(State()), Start)
    {
      var generation := table.MarkApplying();
      phase := Flying(generation);
    }

    method HandlerSettled(ok: bool)
      requires Valid() && Enabled(State(), Settle(ok))
      modifies this, table
      ensures Valid() && State() == Next(old(State()), Settle(ok))
    {
      if ok {
        table.MarkApplied(phase.generation);
      } else {
        table.MarkFailed();
      }
      phase := Settled;
    }

    method FinishRun()
      requires Valid() && Enabled(State(), Finish)
      modifies this
      ensures Valid() && State() == Next(old(State()), Finish)
    {
      running, phase := false, Idle;
      if pending {
        FireHook();
      }
    }

    method HoldHooks()
      requires Valid()
      modifies this
      ensures Valid() && State() == Next(old(State()), Hold)
    {
      holds := holds + 1;
    }

    method ReleaseHold()
      requires Valid() && Enabled(State(), Release)
      modifies this
      ensures Valid() && State() == Next(old(State()), Release)
    {
      holds := holds - 1;
      if holds > 0 {
        return;
      }
      if pending {
        FireHook();
      }
    }

    method ResumePendingRegeneration()
      requires Valid()
      modifies this
      ensures Valid() && State() == Next(old(State()), Resume)
    {
      resumed := true;
      if table.desired > table.applied || table.status != Applied {
        FireHook();
      }
    }
  }
}
