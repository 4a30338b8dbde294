/** backend/src/events.rs: the registry of ingest runs. Every method body of the registry runs
    under one mutex, so a call is one atomic step; clock readings are nanoseconds. */
module Events {
  import opened Sets

  const SECOND := 1_000_000_000
  const COOLDOWN := 60 * SECOND
  const RUN_TTL := 300 * SECOND

  datatype PollOutcome = PollOutcome(newItems: nat, failed: bool)

  datatype Event =
    | FeedPolled(runId: int, done: int, total: int)
    | IngestFinished(runId: int, newItems: int, failed: int, timedOut: bool)

  datatype UserEvent = UserEvent(userId: int, event: Event)

  datatype Run = Run(userId: int, pending: set<int>, total: nat, newItems: nat, failed: nat, started: int)

  datatype State = State(runs: map<int, Run>, lastRunAt: map<int, int>, nextId: int)

  /** One call. `open_run` reads the clock three times - for the cooldown check, the stamp and the
      run's start - and `sweep` once for each run. */
  datatype Step =
    | Open(user: int, feeds: seq<int>, check: int, stamp: int, start: int)
    | Done(feed: int, outcome: PollOutcome)
    | Sweep(clock: int -> int)

  const INITIAL := State(map[], map[], 1)

  /** `Instant::elapsed` saturates at zero. */
  function Elapsed(since: int, now: int): int {
    if now < since then 0 else now - since
  }

  function CooldownLeft(s: State, user: int, now: int): int {
    if user !in s.lastRunAt then 0
    else
      var elapsed := Elapsed(s.lastRunAt[user], now);
      if elapsed <= COOLDOWN then (COOLDOWN - elapsed) / SECOND + 1 else 0
  }

  /** The run after a report from one of its pending feeds. */
  function Count(run: Run, feed: int, outcome: PollOutcome): Run {
    run.(pending := run.pending - {feed}, newItems := run.newItems + outcome.newItems,
         failed := run.failed + if outcome.failed then 1 else 0)
  }

  function Stale(run: Run, now: int): bool {
    Elapsed(run.started, now) > RUN_TTL
  }

  function Feeds(feeds: seq<int>): set<int> {
    set f | f in feeds
  }

  predicate Opens(s: State, step: Step) {
    step.Open? && CooldownLeft(s, step.user, step.check) == 0
  }

  function Next(s: State, step: Step): State {
    match step
    case Open(user, feeds, check, stamp, start) =>
      if !Opens(s, step) then s
      else State(s.runs[s.nextId := Run(user, Feeds(feeds), |Feeds(feeds)|, 0, 0, start)],
                 s.lastRunAt[user := stamp], s.nextId + 1)
    case Done(feed, outcome) =>
      s.(runs := map id | id in s.runs && s.runs[id].pending != {feed} ::
           if feed in s.runs[id].pending then Count(s.runs[id], feed, outcome) else s.runs[id])
    case Sweep(clock) =>
      s.(runs := map id | id in s.runs && !Stale(s.runs[id], clock(id)) :: s.runs[id])
  }

  function Finish(id: int, run: Run, timedOut: bool): Event {
    IngestFinished(id, run.newItems, run.failed, timedOut)
  }

  /** The events a step decides for run `id`, in order. */
  function Decided(s: State, step: Step, id: int): seq<Event> {
    if id !in s.runs then []
    else
      var run := s.runs[id];
      match step
      case Open(_, _, _, _, _) => []
      case Done(feed, outcome) =>
        if feed !in run.pending then []
        else
          var counted := Count(run, feed, outcome);
          [FeedPolled(id, run.total - |counted.pending|, run.total)]
          + if counted.pending == {} then [Finish(id, counted, false)] else []
      case Sweep(clock) => if Stale(run, clock(id)) then [Finish(id, run, true)] else []
  }

  // ------------------------------------------------------------ whole histories

  /** The registry after the first `n` steps of a history. */
  function Exec(trace: seq<Step>, n: nat): State
    requires n <= |trace|
  {
    if n == 0 then INITIAL else Next(Exec(trace, n - 1), trace[n - 1])
  }

  /** Everything decided for run `id` by the first `n` steps, in order. */
  function Log(trace: seq<Step>, n: nat, id: int): seq<Event>
    requires n <= |trace|
  {
    if n == 0 then [] else Log(trace, n - 1, id) + Decided(Exec(trace, n - 1), trace[n - 1], id)
  }

  // ----------------------------------------- one run on its own: the reference

  datatype Report = Report(feed: int, outcome: PollOutcome)

  datatype Phase = Live | Finished | TimedOut

  datatype Life = Life(reports: seq<Report>, phase: Phase)

  function Reported(reports: seq<Report>): set<int> {
    set r | r in reports :: r.feed
  }

  function NewItems(reports: seq<Report>): nat {
    if reports == [] then 0 else NewItems(reports[..|reports| - 1]) + reports[|reports| - 1].outcome.newItems
  }

  function Failures(reports: seq<Report>): nat {
    if reports == [] then 0
    else Failures(reports[..|reports| - 1]) + if reports[|reports| - 1].outcome.failed then 1 else 0
  }

  /** One step in the life of a run over `feeds` started at `started`, told without the registry:
      it counts the first report of each of its feeds, finishes when all have reported, and is
      timed out by the first sweep that finds it too old. */
  function LiveOn(id: int, feeds: set<int>, started: int, life: Life, step: Step): Life {
    if life.phase != Live then life
    else
      match step
      case Open(_, _, _, _, _) => life
      case Done(feed, outcome) =>
        if feed !in feeds || feed in Reported(life.reports) then life
        else
          var reports := life.reports + [Report(feed, outcome)];
          Life(reports, if Reported(reports) == feeds then Finished else Live)
      case Sweep(clock) =>
        if clock(id) - started > 300_000_000_000 then life.(phase := TimedOut) else life
  }

  /** `FeedPolled` with `done` counting 1, 2, 3 up to `n`. */
  function Progress(id: int, n: nat, total: int): seq<Event> {
    if n == 0 then [] else Progress(id, n - 1, total) + [FeedPolled(id, n, total)]
  }

  function Story(id: int, total: int, life: Life): seq<Event> {
    Progress(id, |life.reports|, total)
    + match life.phase
      case Live => []
      case Finished => [IngestFinished(id, NewItems(life.reports), Failures(life.reports), false)]
      case TimedOut => [IngestFinished(id, NewItems(life.reports), Failures(life.reports), true)]
  }

  function RunAt(user: int, feeds: set<int>, started: int, life: Life): Run {
    Run(user, feeds - Reported(life.reports), |feeds|, NewItems(life.reports), Failures(life.reports), started)
  }

  /** How many of the events report a polled feed. */
  function PolledCount(events: seq<Event>): nat {
    if events == [] then 0
    else PolledCount(events[..|events| - 1]) + if events[|events| - 1].FeedPolled? then 1 else 0
  }

  predicate OpensAt(trace: seq<Step>, k: nat) {
    k < |trace| && Opens(Exec(trace, k), trace[k])
  }

  /** The identifier of the run opened by step `k` of a history. */
  function OpenedId(trace: seq<Step>, k: nat): int
    requires k < |trace|
  {
    Exec(trace, k).nextId
  }

  /** The life of that run up to step `n`. */
  function LifeOf(trace: seq<Step>, k: nat, n: nat): Life
    requires k < n <= |trace| && trace[k].Open?
  {
    if n == k + 1 then Life([], Live)
    else LiveOn(OpenedId(trace, k), Feeds(trace[k].feeds), trace[k].start, LifeOf(trace, k, n - 1), trace[n - 1])
  }

  /** Accounting: whatever else happens in the shared registry, the run opened by step `k` lives
      exactly its own life - it is registered while live, with pending feeds, totals and sums of
      exactly the counted reports, and its events are the progress 1, 2, 3, ... of those reports
      followed, once closed, by one `IngestFinished` and nothing more. Its total is always what it
      still waits for plus the polled events decided for it. */
  lemma {:induction false} Accounting(trace: seq<Step>, k: nat, n: nat)
    requires k < n <= |trace| && OpensAt(trace, k)
    ensures var id, feeds, life := OpenedId(trace, k), Feeds(trace[k].feeds), LifeOf(trace, k, n);
            && (id in Exec(trace, n).runs <==> life.phase == Live)
            && (life.phase == Live ==>
                  Exec(trace, n).runs[id] == RunAt(trace[k].user, feeds, trace[k].start, life))
            && Log(trace, n, id) == Story(id, |feeds|, life)
            && PolledCount(Log(trace, n, id)) == |life.reports|
            && (life.phase == Live ==>
                  var run := Exec(trace, n).runs[id];
                  run.total == |run.pending| + PolledCount(Log(trace, n, id)))
    decreases n
  {
    hide Next, Decided, LiveOn, Reported, Story, RunAt, CooldownLeft, PolledCount;
    var id, feeds := OpenedId(trace, k), Feeds(trace[k].feeds);
    if n == k + 1 {
      FreshIds(trace, k);
      Opening(Exec(trace, k), trace[k]);
    } else {
      Accounting(trace, k, n - 1);
      Opening(Exec(trace, k), trace[k]) by { FreshIds(trace, k); }
      IdsGrow(trace, k + 1, n - 1);
      LifeCounts(trace, k, n - 1);
      OneStep(Exec(trace, n - 1), trace[n - 1], id, trace[k].user, feeds, trace[k].start, LifeOf(trace, k, n - 1));
    }
    PolledInStory(id, |feeds|, LifeOf(trace, k, n));
    LifeCounts(trace, k, n);
    PendingLeft(trace[k].user, feeds, trace[k].start, LifeOf(trace, k, n));
  }

  lemma {:induction false} PolledInProgress(id: int, n: nat, total: int)
    ensures PolledCount(Progress(id, n, total)) == n
  {
    if n == 0 {
    } else {
      PolledInProgress(id, n - 1, total);
      assert Progress(id, n, total)[..|Progress(id, n, total)| - 1] == Progress(id, n - 1, total);
    }
  }

  lemma PolledInStory(id: int, total: int, life: Life)
    ensures PolledCount(Story(id, total, life)) == |life.reports|
  {
    var progress := Progress(id, |life.reports|, total);
    PolledInProgress(id, |life.reports|, total);
    hide Progress;
    if life.phase == Live {
      assert Story(id, total, life) == progress;
    } else {
      assert Story(id, total, life)[..|progress|] == progress;
    }
  }

  lemma PendingLeft(user: int, feeds: set<int>, started: int, life: Life)
    requires Reported(life.reports) <= feeds && |Reported(life.reports)| == |life.reports|
    ensures var run := RunAt(user, feeds, started, life); run.total == |run.pending| + |life.reports|
  {
    hide Reported;
    CardinalityLess(feeds, Reported(life.reports));
  }

  lemma Opening(s: State, step: Step)
    requires Opens(s, step) && s.nextId !in s.runs
    ensures Tells(Next(s, step), s.nextId, step.user, Feeds(step.feeds), step.start, Life([], Live))
    ensures Decided(s, step, s.nextId) == []
    ensures Story(s.nextId, |Feeds(step.feeds)|, Life([], Live)) == []
    ensures Next(s, step).nextId == s.nextId + 1
  {
    assert Reported([]) == {};
  }

  /** Identifiers are handed out in order: none at or above the next one has been used. */
  lemma {:induction false} FreshIds(trace: seq<Step>, n: nat)
    requires n <= |trace|
    ensures forall id :: id in Exec(trace, n).runs ==> id < Exec(trace, n).nextId
    ensures forall id :: id >= Exec(trace, n).nextId ==> Log(trace, n, id) == []
  {
    if n == 0 {
    } else {
      FreshIds(trace, n - 1);
    }
  }

  lemma IdsGrow(trace: seq<Step>, i: nat, j: nat)
    requires i <= j <= |trace|
    ensures Exec(trace, i).nextId <= Exec(trace, j).nextId
    decreases j
  {
    if i == j {
    } else {
      IdsGrow(trace, i, j - 1);
    }
  }

  /** A life counts each feed once. */
  lemma {:induction false} LifeCounts(trace: seq<Step>, k: nat, n: nat)
    requires k < n <= |trace| && trace[k].Open?
    ensures var life, feeds := LifeOf(trace, k, n), Feeds(trace[k].feeds);
            && Reported(life.reports) <= feeds
            && |Reported(life.reports)| == |life.reports|
            && (life.phase == Live && Reported(life.reports) == feeds ==> feeds == {})
            && (life.phase == Finished ==> Reported(life.reports) == feeds)
  {
    hide Feeds, Reported;
    if n == k + 1 {
      NothingReported();
    } else {
      LifeCounts(trace, k, n - 1);
      match trace[n - 1]
      case Done(feed, outcome) => ReportedAppend(LifeOf(trace, k, n - 1).reports, Report(feed, outcome));
      case _ =>
    }
  }

  lemma NothingReported()
    ensures Reported([]) == {}
  {
  }

  lemma ReportedAppend(reports: seq<Report>, r: Report)
    ensures Reported(reports + [r]) == Reported(reports) + {r.feed}
    ensures NewItems(reports + [r]) == NewItems(reports) + r.outcome.newItems
    ensures Failures(reports + [r]) == Failures(reports) + if r.outcome.failed then 1 else 0
  {
    assert (reports + [r])[..|reports|] == reports;
    assert forall x :: x in reports + [r] <==> x in reports || x == r;
  }

  ghost predicate Tells(s: State, id: int, user: int, feeds: set<int>, started: int, life: Life) {
    && (id in s.runs <==> life.phase == Live)
    && (life.phase == Live ==> s.runs[id] == RunAt(user, feeds, started, life))
  }

  lemma OneStep(s: State, step: Step, id: int, user: int, feeds: set<int>, started: int, life: Life)
    requires id < s.nextId && Tells(s, id, user, feeds, started, life)
    requires Reported(life.reports) <= feeds && |Reported(life.reports)| == |life.reports|
    requires life.phase == Live && Reported(life.reports) == feeds ==> feeds == {}
    ensures var after := LiveOn(id, feeds, started, life, step);
            && Tells(Next(s, step), id, user, feeds, started, after)
            && Story(id, |feeds|, after) == Story(id, |feeds|, life) + Decided(s, step, id)
  {
    if life.phase != Live {
      ClosedStaysClosed(s, step, id);
    } else {
      match step
      case Open(_, _, _, _, _) => OpenElsewhere(s, step, id);
      case Done(feed, outcome) =>
        if feed in feeds && feed !in Reported(life.reports) {
          Counted(s, step, id, user, feeds, started, life);
        } else {
          hide CooldownLeft, Reported, NewItems, Failures;
        }
      case Sweep(clock) => hide CooldownLeft, Reported, NewItems, Failures;
    }
  }

  lemma Counted(s: State, step: Step, id: int, user: int, feeds: set<int>, started: int, life: Life)
    requires life.phase == Live && id in s.runs && s.runs[id] == RunAt(user, feeds, started, life)
    requires step.Done? && step.feed in feeds && step.feed !in Reported(life.reports)
    requires Reported(life.reports) <= feeds && |Reported(life.reports)| == |life.reports|
    ensures var after := LiveOn(id, feeds, started, life, step);
            && Tells(Next(s, step), id, user, feeds, started, after)
            && Story(id, |feeds|, after) == Story(id, |feeds|, life) + Decided(s, step, id)
  {
    var reports := life.reports + [Report(step.feed, step.outcome)];
    CountedNext(s, step, id, user, feeds, started, life);
    CountedStory(id, feeds, life, reports);
    LiveOnCounts(id, feeds, started, life, step);
    hide *;
    if Reported(reports) != feeds {
      assert Decided(s, step, id) == [FeedPolled(id, |reports|, |feeds|)];
    }
  }

  lemma LiveOnCounts(id: int, feeds: set<int>, started: int, life: Life, step: Step)
    requires life.phase == Live && step.Done? && step.feed in feeds && step.feed !in Reported(life.reports)
    ensures var reports := life.reports + [Report(step.feed, step.outcome)];
            LiveOn(id, feeds, started, life, step) == Life(reports, if Reported(reports) == feeds then Finished else Live)
  {
    hide Reported;
  }

  lemma CountedNext(s: State, step: Step, id: int, user: int, feeds: set<int>, started: int, life: Life)
    requires life.phase == Live && id in s.runs && s.runs[id] == RunAt(user, feeds, started, life)
    requires step.Done? && step.feed in feeds && step.feed !in Reported(life.reports)
    requires Reported(life.reports) <= feeds && |Reported(life.reports)| == |life.reports|
    ensures var reports := life.reports + [Report(step.feed, step.outcome)];
            && Tells(Next(s, step), id, user, feeds, started,
                     Life(reports, if Reported(reports) == feeds then Finished else Live))
            && Progress(id, |reports|, |feeds|) ==
               Progress(id, |life.reports|, |feeds|) + [FeedPolled(id, |reports|, |feeds|)]
            && Decided(s, step, id) ==
               [FeedPolled(id, |reports|, |feeds|)]
               + if Reported(reports) == feeds then [IngestFinished(id, NewItems(reports), Failures(reports), false)] else []
  {
    var reports := life.reports + [Report(step.feed, step.outcome)];
    CountOne(id, user, feeds, started, life, step.feed, step.outcome);
    DoneNext(s, step, id);
    hide Reported, NewItems, Failures, Next, Decided, Progress, Feeds, Story, LiveOn;
    var counted := Count(s.runs[id], step.feed, step.outcome);
    PendingEmptied(s.runs[id], step.feed, step.outcome);
    assert counted.total == |feeds|;
    assert Finish(id, counted, false) == IngestFinished(id, NewItems(reports), Failures(reports), false);
    hide *;
  }

  lemma PendingEmptied(run: Run, feed: int, outcome: PollOutcome)
    requires feed in run.pending
    ensures Count(run, feed, outcome).pending == {} <==> run.pending == {feed}
  {
  }

  lemma CountedStory(id: int, feeds: set<int>, life: Life, reports: seq<Report>)
    requires life.phase == Live && |reports| == |life.reports| + 1
    requires Progress(id, |reports|, |feeds|) == Progress(id, |life.reports|, |feeds|) + [FeedPolled(id, |reports|, |feeds|)]
    ensures Story(id, |feeds|, Life(reports, Live)) == Story(id, |feeds|, life) + [FeedPolled(id, |reports|, |feeds|)]
    ensures Story(id, |feeds|, Life(reports, Finished)) ==
            Story(id, |feeds|, life) + [FeedPolled(id, |reports|, |feeds|)]
            + [IngestFinished(id, NewItems(reports), Failures(reports), false)]
  {
    hide Progress, NewItems, Failures;
  }

  lemma DoneNext(s: State, step: Step, id: int)
    requires step.Done? && id in s.runs && step.feed in s.runs[id].pending
    ensures var counted := Count(s.runs[id], step.feed, step.outcome);
            && (id in Next(s, step).runs <==> s.runs[id].pending != {step.feed})
            && (id in Next(s, step).runs ==> Next(s, step).runs[id] == counted)
            && Decided(s, step, id) ==
               [FeedPolled(id, counted.total - |counted.pending|, counted.total)]
               + if counted.pending == {} then [Finish(id, counted, false)] else []
  {
  }

  lemma ClosedStaysClosed(s: State, step: Step, id: int)
    requires id < s.nextId && id !in s.runs
    ensures id !in Next(s, step).runs && Decided(s, step, id) == []
  {
  }

  lemma OpenElsewhere(s: State, step: Step, id: int)
    requires id < s.nextId && step.Open?
    ensures id in Next(s, step).runs <==> id in s.runs
    ensures id in s.runs ==> Next(s, step).runs[id] == s.runs[id] && Decided(s, step, id) == []
  {
  }

  lemma CountOne(id: int, user: int, feeds: set<int>, started: int, life: Life, feed: int, outcome: PollOutcome)
    requires life.phase == Live && feed in feeds && feed !in Reported(life.reports)
    requires Reported(life.reports) <= feeds && |Reported(life.reports)| == |life.reports|
    ensures var reports := life.reports + [Report(feed, outcome)];
            var run := RunAt(user, feeds, started, life);
            && Count(run, feed, outcome) == RunAt(user, feeds, started, Life(reports, Live))
            && (run.pending == {feed} <==> Reported(reports) == feeds)
            && run.total - |Count(run, feed, outcome).pending| == |reports|
            && Progress(id, |reports|, |feeds|) == Progress(id, |life.reports|, |feeds|) + [FeedPolled(id, |reports|, |feeds|)]
  {
    var reports := life.reports + [Report(feed, outcome)];
    ReportedAppend(life.reports, Report(feed, outcome));
    hide Reported, NewItems, Failures;
    CardinalityLess(feeds, Reported(reports));
    assert feeds - Reported(life.reports) - {feed} == feeds - Reported(reports);
    assert |Reported(reports)| == |life.reports| + 1;
  }

  predicate ReportedIn(trace: seq<Step>, m: nat, n: nat, feed: int) {
    exists j :: m <= j < n && j < |trace| && trace[j].Done? && trace[j].feed == feed
  }

  /** An open run loses a feed with that feed's report, and is never open with none pending. */
  lemma {:induction false} PendingShrinks(trace: seq<Step>, m: nat, n: nat, id: int)
    requires m <= n <= |trace| && id in Exec(trace, m).runs && Exec(trace, m).runs[id].pending != {}
    ensures id < Exec(trace, n).nextId
    ensures id in Exec(trace, n).runs ==>
              var pending := Exec(trace, n).runs[id].pending;
              && pending != {} && pending <= Exec(trace, m).runs[id].pending
              && forall j :: m <= j < n && trace[j].Done? ==> trace[j].feed !in pending
    decreases n
  {
    if n == m {
      FreshIds(trace, m);
    } else {
      PendingShrinks(trace, m, n - 1, id);
      hide CooldownLeft, Stale, Feeds;
      if id in Exec(trace, n).runs {
        assert id in Exec(trace, n - 1).runs;
      }
    }
  }

  /** A run waiting on at least one feed is closed once all the feeds it waits on have reported,
      whatever else happens in between. */
  lemma ReportsCloseRun(trace: seq<Step>, m: nat, n: nat, id: int)
    requires m <= n <= |trace| && id in Exec(trace, m).runs && Exec(trace, m).runs[id].pending != {}
    requires forall f :: f in Exec(trace, m).runs[id].pending ==> ReportedIn(trace, m, n, f)
    ensures id !in Exec(trace, n).runs
  {
    hide Exec;
    PendingShrinks(trace, m, n, id);
    var after := Exec(trace, n).runs;
    var left := if id in after then after[id].pending else {};
    forall f | f in Exec(trace, m).runs[id].pending
      ensures f !in left
    {
      assert ReportedIn(trace, m, n, f);
    }
    assert left == {};
  }
}
