/** backend/src/events.rs: the registry object itself, each method proved to be one step of the
    machine in module Events. */
module EventBus {
  import opened Text
  import opened Events

  /** The events of one run among those decided, in order. */
  function ForRun(out: seq<UserEvent>, id: int): seq<Event> {
    if out == [] then []
    else
      var last := out[|out| - 1].event;
      ForRun(out[..|out| - 1], id) + if last.runId == id then [last] else []
  }

  lemma ForRunAppend(out: seq<UserEvent>, e: UserEvent, id: int)
    ensures ForRun(out + [e], id) == ForRun(out, id) + if e.event.runId == id then [e.event] else []
  {
    assert (out + [e])[..|out|] == out;
  }

  datatype RunStatus = RunStatus(runId: int, done: int, total: int)

  datatype OpenResult = Opened(runId: int) | TooSoon(secondsLeft: int)

  /** A map's keys in the order an iteration happens to visit them. */
  ghost predicate IsOrder(order: seq<int>, keys: set<int>) {
    && (forall i, j :: 0 <= i < j < |order| ==> order[i] != order[j])
    && (forall i :: 0 <= i < |order| ==> order[i] in keys)
    && (forall id :: id in keys ==> id in order)
  }

  /** Every event goes to the owner of its run. */
  predicate Addressed(runs: map<int, Run>, out: seq<UserEvent>) {
    forall i :: 0 <= i < |out| ==> out[i].event.runId in runs && out[i].userId == runs[out[i].event.runId].userId
  }

  // ------------------------------------------ the loops, one visited run at a time

  function PolledEvent(id: int, run: Run): UserEvent {
    UserEvent(run.userId, FeedPolled(id, run.total - |run.pending|, run.total))
  }

  predicate Waits(runs: map<int, Run>, feed: int, id: int) {
    id in runs && feed in runs[id].pending
  }

  function AfterReport(runs: map<int, Run>, feed: int, outcome: PollOutcome, id: int): Run
    requires id in runs
  {
    if feed in runs[id].pending then Count(runs[id], feed, outcome) else runs[id]
  }

  /** The runs after the report has been counted in the first `n` visited. */
  function CountedRuns(runs: map<int, Run>, feed: int, outcome: PollOutcome, order: seq<int>, n: nat): map<int, Run>
    requires n <= |order|
  {
    if n == 0 then runs
    else
      var before := CountedRuns(runs, feed, outcome, order, n - 1);
      var id := order[n - 1];
      if Waits(runs, feed, id) then before[id := Count(runs[id], feed, outcome)] else before
  }

  function PolledEvents(runs: map<int, Run>, feed: int, outcome: PollOutcome, order: seq<int>, n: nat): seq<UserEvent>
    requires n <= |order|
  {
    if n == 0 then []
    else
      var before := PolledEvents(runs, feed, outcome, order, n - 1);
      var id := order[n - 1];
      if Waits(runs, feed, id) then before + [PolledEvent(id, Count(runs[id], feed, outcome))] else before
  }

  function FinishedIds(runs: map<int, Run>, feed: int, order: seq<int>, n: nat): seq<int>
    requires n <= |order|
  {
    if n == 0 then []
    else
      var before := FinishedIds(runs, feed, order, n - 1);
      var id := order[n - 1];
      if id in runs && runs[id].pending == {feed} then before + [id] else before
  }

  function Without(runs: map<int, Run>, ids: seq<int>, n: nat): map<int, Run>
    requires n <= |ids|
  {
    if n == 0 then runs else Without(runs, ids, n - 1) - {ids[n - 1]}
  }

  function FinishEvents(runs: map<int, Run>, ids: seq<int>, n: nat, timedOut: bool): seq<UserEvent>
    requires n <= |ids| && forall i :: 0 <= i < |ids| ==> ids[i] in runs
  {
    if n == 0 then []
    else
      var id := ids[n - 1];
      FinishEvents(runs, ids, n - 1, timedOut) + [UserEvent(runs[id].userId, Finish(id, runs[id], timedOut))]
  }

  function StaleIds(runs: map<int, Run>, clock: int -> int, order: seq<int>, n: nat): seq<int>
    requires n <= |order|
  {
    if n == 0 then []
    else
      var before := StaleIds(runs, clock, order, n - 1);
      var id := order[n - 1];
      if id in runs && Stale(runs[id], clock(id)) then before + [id] else before
  }

  class EventBus {
    var runs: map<int, Run>
    var lastRunAt: map<int, int>
    var nextId: int
    /** Everything put into the broadcast, in the order decided under the lock. */
    var decided: seq<UserEvent>

    constructor ()
      ensures View() == INITIAL && decided == []
    {
      runs, lastRunAt, nextId, decided := map[], map[], 1, [];
    }

    function View(): State
      reads this
    {
      State(runs, lastRunAt, nextId)
    }

    /** `open_run`, with its three clock readings. */
    method OpenRun(user: int, feeds: seq<int>, check: int, stamp: int, start: int) returns (r: OpenResult)
      modifies this
      ensures View() == Next(old(View()), Open(user, feeds, check, stamp, start))
      ensures decided == old(decided)
      ensures r == if CooldownLeft(old(View()), user, check) > 0 then TooSoon(CooldownLeft(old(View()), user, check))
                   else Opened(old(nextId))
    {
      var left := CooldownLeft(View(), user, check);
      if left > 0 { return TooSoon(left); }
      lastRunAt := lastRunAt[user := stamp];
      var runId := nextId;
      nextId := nextId + 1;
      var pending := Feeds(feeds);
      runs := runs[runId := Run(user, pending, |pending|, 0, 0, start)];
      r := Opened(runId);
    }

    /** `feed_done`; `order` is the order in which the map of runs happens to be visited. */
    method FeedDone(feed: int, outcome: PollOutcome, order: seq<int>) returns (out: seq<UserEvent>)
      requires IsOrder(order, runs.Keys)
      modifies this
      ensures View() == Next(old(View()), Done(feed, outcome))
      ensures decided == old(decided) + out
      ensures forall id :: ForRun(out, id) == Decided(old(View()), Done(feed, outcome), id)
      ensures Addressed(old(runs), out)
    {
      hide Next, Decided, Addressed, Count, ForRun;
      out := [];
      var finished: seq<int> := [];
      var i := 0;
      while i < |order|
        invariant 0 <= i <= |order|
        invariant runs == CountedRuns(old(runs), feed, outcome, order, i)
        invariant lastRunAt == old(lastRunAt) && nextId == old(nextId) && decided == old(decided)
        invariant out == PolledEvents(old(runs), feed, outcome, order, i)
        invariant finished == FinishedIds(old(runs), feed, order, i)
      {
        var id := order[i];
        CountedMeans(old(runs), feed, outcome, order, i);
        CountRemoves(runs[id], feed, outcome);
        if feed in runs[id].pending {
          var run := Count(runs[id], feed, outcome);
          runs := runs[id := run];
          out := out + [PolledEvent(id, run)];
          if run.pending == {} { finished := finished + [id]; }
        }
        i := i + 1;
      }
      FinishedMeans(old(runs), feed, order, i);
      CountedMeans(old(runs), feed, outcome, order, i);
      LoopsDone(old(runs), feed, outcome, order, runs, finished);
      ghost var counted := runs;
      var closing := CloseRuns(finished, false);
      FeedDoneIsNext(old(View()), feed, outcome, order, counted, finished, View(), out, closing);
      out := out + closing;
      decided := decided + out;
    }

    /** Remove the given runs and announce the end of each. */
    method CloseRuns(ids: seq<int>, timedOut: bool) returns (out: seq<UserEvent>)
      requires forall i, j :: 0 <= i < j < |ids| ==> ids[i] != ids[j]
      requires forall i :: 0 <= i < |ids| ==> ids[i] in runs
      modifies `runs
      ensures runs == Without(old(runs), ids, |ids|)
      ensures out == FinishEvents(old(runs), ids, |ids|, timedOut)
    {
      out := [];
      var i := 0;
      while i < |ids|
        invariant 0 <= i <= |ids|
        invariant runs == Without(old(runs), ids, i)
        invariant out == FinishEvents(old(runs), ids, i, timedOut)
      {
        var id := ids[i];
        WithoutMeans(old(runs), ids, i);
        var run := runs[id];
        runs := runs - {id};
        out := out + [UserEvent(run.userId, Finish(id, run, timedOut))];
        i := i + 1;
      }
    }

    /** `sweep`: `clock(id)` is the reading taken for run `id`. */
    method Sweep(clock: int -> int, order: seq<int>) returns (out: seq<UserEvent>)
      requires IsOrder(order, runs.Keys)
      modifies this
      ensures View() == Next(old(View()), Step.Sweep(clock))
      ensures decided == old(decided) + out
      ensures forall id :: ForRun(out, id) == Decided(old(View()), Step.Sweep(clock), id)
      ensures Addressed(old(runs), out)
    {
      hide Next, Decided, Addressed, Stale, ForRun, Without, FinishEvents;
      var stale: seq<int> := [];
      var i := 0;
      while i < |order|
        invariant 0 <= i <= |order|
        invariant stale == StaleIds(runs, clock, order, i)
      {
        if Stale(runs[order[i]], clock(order[i])) { stale := stale + [order[i]]; }
        i := i + 1;
      }
      StaleMeans(runs, clock, order, i);
      out := CloseRuns(stale, true);
      SweepIsNext(old(View()), clock, order, stale, View(), out);
      decided := decided + out;
    }

    /** `run_for`: some open run of the user; the map decides which when there are several. */
    method RunFor(user: int, order: seq<int>) returns (r: Option<RunStatus>)
      requires IsOrder(order, runs.Keys)
      ensures r.None? <==> forall id :: id in runs ==> runs[id].userId != user
      ensures r.Some? ==> r.value.runId in runs && runs[r.value.runId].userId == user
      ensures r.Some? ==> r.value.total == runs[r.value.runId].total
      ensures r.Some? ==> r.value.done == r.value.total - |runs[r.value.runId].pending|
    {
      var i := 0;
      while i < |order|
        invariant 0 <= i <= |order|
        invariant forall j :: 0 <= j < i ==> runs[order[j]].userId != user
      {
        var id := order[i];
        var run := runs[id];
        if run.userId == user {
          return Some(RunStatus(id, run.total - |run.pending|, run.total));
        }
        i := i + 1;
      }
      r := None;
    }
  }

  // --------------------------------------------------------- what the loops leave

  lemma CountRemoves(run: Run, feed: int, outcome: PollOutcome)
    ensures feed in run.pending && Count(run, feed, outcome).pending == {} <==> run.pending == {feed}
  {
  }

  lemma {:induction false} CountedMeans(runs: map<int, Run>, feed: int, outcome: PollOutcome, order: seq<int>, n: nat)
    requires n <= |order| && IsOrder(order, runs.Keys)
    ensures var after := CountedRuns(runs, feed, outcome, order, n);
            && after.Keys == runs.Keys
            && (forall i :: 0 <= i < n ==> after[order[i]] == AfterReport(runs, feed, outcome, order[i]))
            && (forall i :: n <= i < |order| ==> after[order[i]] == runs[order[i]])
    ensures Addressed(runs, PolledEvents(runs, feed, outcome, order, n))
  {
    hide Count;
    if n == 0 {
    } else {
      CountedMeans(runs, feed, outcome, order, n - 1);
      CountKeepsOwner(runs, feed, outcome, order[n - 1]);
    }
  }

  lemma CountKeepsOwner(runs: map<int, Run>, feed: int, outcome: PollOutcome, id: int)
    ensures id in runs ==> Count(runs[id], feed, outcome).userId == runs[id].userId
  {
  }

  lemma {:induction false} PolledFor(runs: map<int, Run>, feed: int, outcome: PollOutcome, order: seq<int>, n: nat, id: int)
    requires n <= |order| && IsOrder(order, runs.Keys)
    ensures ForRun(PolledEvents(runs, feed, outcome, order, n), id) ==
            if id in order[..n] && Waits(runs, feed, id) then [PolledEvent(id, Count(runs[id], feed, outcome)).event] else []
  {
    hide Count, ForRun;
    if n == 0 {
      ForRunEmpty(id);
    } else {
      PolledFor(runs, feed, outcome, order, n - 1, id);
      assert order[..n] == order[..n - 1] + [order[n - 1]];
      ForRunAppend(PolledEvents(runs, feed, outcome, order, n - 1),
                   PolledEvent(order[n - 1], Count(runs[order[n - 1]], feed, outcome)), id);
    }
  }

  lemma ForRunEmpty(id: int)
    ensures ForRun([], id) == []
  {
  }

  lemma {:induction false} FinishedMeans(runs: map<int, Run>, feed: int, order: seq<int>, n: nat)
    requires n <= |order| && IsOrder(order, runs.Keys)
    ensures IsOrder(FinishedIds(runs, feed, order, n), set id | id in order[..n] && id in runs && runs[id].pending == {feed})
  {
    if n == 0 {
    } else {
      FinishedMeans(runs, feed, order, n - 1);
      assert order[..n] == order[..n - 1] + [order[n - 1]];
      OrderAppend(FinishedIds(runs, feed, order, n - 1),
                  (set id | id in order[..n - 1] && id in runs && runs[id].pending == {feed}), order[n - 1]);
    }
  }

  lemma {:induction false} StaleMeans(runs: map<int, Run>, clock: int -> int, order: seq<int>, n: nat)
    requires n <= |order| && IsOrder(order, runs.Keys)
    ensures IsOrder(StaleIds(runs, clock, order, n), set id | id in order[..n] && id in runs && Stale(runs[id], clock(id)))
  {
    hide Stale;
    if n == 0 {
    } else {
      hide IsOrder;
      OrderIndex(order, runs.Keys, n - 1);
      StaleMeans(runs, clock, order, n - 1);
      assert order[..n] == order[..n - 1] + [order[n - 1]];
      OrderAppend(StaleIds(runs, clock, order, n - 1),
                  (set id | id in order[..n - 1] && id in runs && Stale(runs[id], clock(id))), order[n - 1]);
    }
  }

  lemma OrderIndex(order: seq<int>, keys: set<int>, n: nat)
    requires IsOrder(order, keys) && n < |order|
    ensures order[n] in keys && order[n] !in order[..n]
  {
  }

  lemma OrderAppend(order: seq<int>, keys: set<int>, id: int)
    requires IsOrder(order, keys) && id !in keys
    ensures IsOrder(order + [id], keys + {id})
  {
  }

  lemma {:induction false} WithoutMeans(runs: map<int, Run>, ids: seq<int>, n: nat)
    requires n <= |ids|
    ensures var after := Without(runs, ids, n);
            && (forall id :: id in after <==> id in runs && id !in ids[..n])
            && (forall id :: id in after ==> after[id] == runs[id])
  {
    if n == 0 {
    } else {
      WithoutMeans(runs, ids, n - 1);
      assert ids[..n] == ids[..n - 1] + [ids[n - 1]];
    }
  }

  lemma {:induction false} FinishFor(runs: map<int, Run>, ids: seq<int>, n: nat, timedOut: bool, id: int)
    requires n <= |ids| && forall i :: 0 <= i < |ids| ==> ids[i] in runs
    requires forall i, j :: 0 <= i < j < |ids| ==> ids[i] != ids[j]
    ensures ForRun(FinishEvents(runs, ids, n, timedOut), id) ==
            if id in ids[..n] then [Finish(id, runs[id], timedOut)] else []
    ensures Addressed(runs, FinishEvents(runs, ids, n, timedOut))
  {
    hide ForRun;
    if n == 0 {
      ForRunEmpty(id);
    } else {
      FinishFor(runs, ids, n - 1, timedOut, id);
      var last := ids[n - 1];
      assert ids[..n] == ids[..n - 1] + [last];
      ForRunAppend(FinishEvents(runs, ids, n - 1, timedOut), UserEvent(runs[last].userId, Finish(last, runs[last], timedOut)), id);
    }
  }

  lemma {:induction false} ForRunConcat(a: seq<UserEvent>, b: seq<UserEvent>, id: int)
    ensures ForRun(a + b, id) == ForRun(a, id) + ForRun(b, id)
  {
    if b == [] {
      assert a + b == a;
    } else {
      assert (a + b)[..|a + b| - 1] == a + b[..|b| - 1];
      ForRunConcat(a, b[..|b| - 1], id);
    }
  }

  lemma OrderMembers(order: seq<int>, keys: set<int>)
    requires IsOrder(order, keys)
    ensures forall id :: id in order <==> id in keys
  {
  }

  lemma LoopsDone(runs: map<int, Run>, feed: int, outcome: PollOutcome, order: seq<int>, counted: map<int, Run>, finished: seq<int>)
    requires IsOrder(order, runs.Keys) && counted.Keys == runs.Keys
    requires forall i :: 0 <= i < |order| ==> counted[order[i]] == AfterReport(runs, feed, outcome, order[i])
    requires IsOrder(finished, set id | id in order[..|order|] && id in runs && runs[id].pending == {feed})
    ensures Counted(runs, feed, outcome, counted) && Finishing(runs, feed, finished)
  {
    hide AfterReport;
    assert order[..|order|] == order;
    OrderMembers(finished, set id | id in order[..|order|] && id in runs && runs[id].pending == {feed});
    forall id | id in runs ensures counted[id] == AfterReport(runs, feed, outcome, id) {
      var i :| 0 <= i < |order| && order[i] == id;
    }
  }

  lemma SweepIsNext(s: State, clock: int -> int, order: seq<int>, stale: seq<int>, after: State, out: seq<UserEvent>)
    requires IsOrder(order, s.runs.Keys) && stale == StaleIds(s.runs, clock, order, |order|)
    requires IsOrder(stale, set id | id in order[..|order|] && id in s.runs && Stale(s.runs[id], clock(id)))
    requires after == State(Without(s.runs, stale, |stale|), s.lastRunAt, s.nextId)
    requires out == FinishEvents(s.runs, stale, |stale|, true)
    ensures after == Next(s, Step.Sweep(clock))
    ensures forall id :: ForRun(out, id) == Decided(s, Step.Sweep(clock), id)
    ensures Addressed(s.runs, out)
  {
    hide Stale, StaleIds, Without, FinishEvents, ForRun, Addressed;
    OrderMembers(stale, set id | id in order[..|order|] && id in s.runs && Stale(s.runs[id], clock(id)));
    OrderMembers(order, s.runs.Keys);
    WithoutMeans(s.runs, stale, |stale|);
    assert stale[..|stale|] == stale && order[..|order|] == order;
    var next := Next(s, Step.Sweep(clock)).runs;
    assert forall id :: id in after.runs <==> id in next;
    assert forall id :: id in after.runs ==> after.runs[id] == next[id];
    assert after.runs == next;
    FinishFor(s.runs, stale, |stale|, true, 0);
    forall id ensures ForRun(out, id) == Decided(s, Step.Sweep(clock), id) {
      FinishFor(s.runs, stale, |stale|, true, id);
    }
  }

  ghost predicate Counted(runs: map<int, Run>, feed: int, outcome: PollOutcome, counted: map<int, Run>) {
    && counted.Keys == runs.Keys
    && (forall id :: id in runs ==> counted[id] == AfterReport(runs, feed, outcome, id))
  }

  ghost predicate Finishing(runs: map<int, Run>, feed: int, finished: seq<int>) {
    && (forall i, j :: 0 <= i < j < |finished| ==> finished[i] != finished[j])
    && (forall i :: 0 <= i < |finished| ==> finished[i] in runs)
    && (forall id :: id in finished <==> id in runs && runs[id].pending == {feed})
  }

  lemma FeedDoneIsNext(s: State, feed: int, outcome: PollOutcome, order: seq<int>, counted: map<int, Run>,
                       finished: seq<int>, after: State, polled: seq<UserEvent>, closing: seq<UserEvent>)
    requires IsOrder(order, s.runs.Keys)
    requires Counted(s.runs, feed, outcome, counted) && Finishing(s.runs, feed, finished)
    requires after == State(Without(counted, finished, |finished|), s.lastRunAt, s.nextId)
    requires polled == PolledEvents(s.runs, feed, outcome, order, |order|) && Addressed(s.runs, polled)
    requires closing == FinishEvents(counted, finished, |finished|, false)
    ensures after == Next(s, Done(feed, outcome))
    ensures forall id :: ForRun(polled + closing, id) == Decided(s, Done(feed, outcome), id)
    ensures Addressed(s.runs, polled + closing)
  {
    hide PolledEvents, FinishEvents, Without, ForRun, Next, Decided, AfterReport;
    assert finished[..|finished|] == finished;
    WithoutMeans(counted, finished, |finished|);
    DoneNext(s, feed, outcome, after);
    forall id ensures ForRun(polled + closing, id) == Decided(s, Done(feed, outcome), id) {
      FeedDoneDecides(s, feed, outcome, order, counted, finished, id);
    }
    FinishFor(counted, finished, |finished|, false, 0);
    forall id | id in s.runs ensures counted[id].userId == s.runs[id].userId {
      AfterReportKeeps(s.runs, feed, outcome, id);
    }
  }

  lemma FeedDoneDecides(s: State, feed: int, outcome: PollOutcome, order: seq<int>, counted: map<int, Run>,
                        finished: seq<int>, id: int)
    requires IsOrder(order, s.runs.Keys)
    requires Counted(s.runs, feed, outcome, counted) && Finishing(s.runs, feed, finished)
    ensures ForRun(PolledEvents(s.runs, feed, outcome, order, |order|)
                   + FinishEvents(counted, finished, |finished|, false), id) == Decided(s, Done(feed, outcome), id)
  {
    hide PolledEvents, FinishEvents, ForRun, Decided, AfterReport, Count;
    assert finished[..|finished|] == finished && order[..|order|] == order;
    ForRunConcat(PolledEvents(s.runs, feed, outcome, order, |order|), FinishEvents(counted, finished, |finished|, false), id);
    PolledFor(s.runs, feed, outcome, order, |order|, id);
    FinishFor(counted, finished, |finished|, false, id);
    DoneDecides(s, feed, outcome, id);
  }

  lemma AfterReportKeeps(runs: map<int, Run>, feed: int, outcome: PollOutcome, id: int)
    requires id in runs
    ensures AfterReport(runs, feed, outcome, id).userId == runs[id].userId
  {
  }

  lemma DoneNext(s: State, feed: int, outcome: PollOutcome, after: State)
    requires after.lastRunAt == s.lastRunAt && after.nextId == s.nextId
    requires forall id :: id in after.runs <==> id in s.runs && s.runs[id].pending != {feed}
    requires forall id :: id in after.runs ==> after.runs[id] == AfterReport(s.runs, feed, outcome, id)
    ensures after == Next(s, Done(feed, outcome))
  {
    hide Count;
    var next := Next(s, Done(feed, outcome)).runs;
    assert forall id :: id in after.runs <==> id in next;
    assert forall id :: id in after.runs ==> after.runs[id] == next[id];
    assert after.runs == next;
  }

  lemma DoneDecides(s: State, feed: int, outcome: PollOutcome, id: int)
    ensures Decided(s, Done(feed, outcome), id) ==
            (if Waits(s.runs, feed, id) then [PolledEvent(id, Count(s.runs[id], feed, outcome)).event] else [])
            + (if id in s.runs && s.runs[id].pending == {feed}
               then [Finish(id, AfterReport(s.runs, feed, outcome, id), false)] else [])
  {
    if id in s.runs { CountRemoves(s.runs[id], feed, outcome); }
  }
}
