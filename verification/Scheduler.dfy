/** backend/src/ingest/scheduler.rs: ticks, permits and per-host locks as a machine whose atomic
    steps may interleave in any order. A sequence of steps is a history: a step that is not
    enabled when its turn comes changes nothing. Panics are excluded. */
module Scheduler {
  import Events

  /** Where the task of one due feed stands. A permit is held from `Permitted` to `Reported`, the
      lock of the feed's host in `Locked` and `Fetching`. */
  datatype Phase = Due | Queued | Permitted | Locked | Fetching | Released | Reported | Gone

  datatype Task = Task(feed: int, host: string, phase: Phase)

  /** `permits` are the free ones; `locks` maps a locked host to the index of its holder;
      `lastFetch` is what the host lock guards. */
  datatype State = State(clock: int, concurrency: nat, delay: nat, permits: int, tasks: seq<Task>,
                         locks: map<string, nat>, lastFetch: map<string, int>,
                         reports: seq<int>)

  datatype Step =
    | BeginTick(due: seq<(int, string)>, limit: int, delay: nat)
    | Advance(to: int)
    | Claim(i: nat)
    | Acquire(i: nat)
    | LockHost(i: nat)
    | StartFetch(i: nat)
    | FinishFetch(i: nat)
    | Report(i: nat)
    | End(i: nat)

  const INITIAL := State(0, 1, 0, 1, [], map[], map[], [])

  predicate AllGone(s: State) {
    forall i :: 0 <= i < |s.tasks| ==> s.tasks[i].phase == Gone
  }

  /** The selected rows have distinct ids. */
  predicate Enabled(s: State, step: Step) {
    match step
    case BeginTick(due, _, _) =>
      AllGone(s) && forall i, j :: 0 <= i < j < |due| ==> due[i].0 != due[j].0
    case Advance(to) => to >= s.clock
    case Claim(i) => i < |s.tasks| && s.tasks[i].phase == Due
    case Acquire(i) => i < |s.tasks| && s.tasks[i].phase == Queued && s.permits > 0
    case LockHost(i) => i < |s.tasks| && s.tasks[i].phase == Permitted && s.tasks[i].host !in s.locks
    case StartFetch(i) =>
      && i < |s.tasks| && s.tasks[i].phase == Locked
      && (s.tasks[i].host in s.lastFetch ==> s.clock >= s.lastFetch[s.tasks[i].host] + s.delay)
    case FinishFetch(i) => i < |s.tasks| && s.tasks[i].phase == Fetching
    case Report(i) => i < |s.tasks| && s.tasks[i].phase == Released
    case End(i) => i < |s.tasks| && s.tasks[i].phase == Reported
  }

  function Spawned(due: seq<(int, string)>): (tasks: seq<Task>)
    ensures |tasks| == |due|
    ensures forall i :: 0 <= i < |due| ==> tasks[i] == Task(due[i].0, due[i].1, Due)
  {
    if due == [] then [] else Spawned(due[..|due| - 1]) + [Task(due[|due| - 1].0, due[|due| - 1].1, Due)]
  }

  function Move(s: State, i: nat, phase: Phase): State
    requires i < |s.tasks|
  {
    s.(tasks := s.tasks[i := s.tasks[i].(phase := phase)])
  }

  function Next(s: State, step: Step): State {
    if !Enabled(s, step) then s
    else
      match step
      case BeginTick(due, limit, delay) =>
        var concurrency := if limit > 1 then limit else 1;
        s.(concurrency := concurrency, delay := delay, permits := concurrency, tasks := Spawned(due), reports := [])
      case Advance(to) => s.(clock := to)
      case Claim(i) => Move(s, i, Queued)
      case Acquire(i) => Move(s, i, Permitted).(permits := s.permits - 1)
      case LockHost(i) => Move(s, i, Locked).(locks := s.locks[s.tasks[i].host := i])
      case StartFetch(i) => Move(s, i, Fetching)
      case FinishFetch(i) =>
        var t := s.tasks[i];
        Move(s, i, Released).(locks := s.locks - {t.host}, lastFetch := s.lastFetch[t.host := s.clock])
      case Report(i) => Move(s, i, Reported).(reports := s.reports + [s.tasks[i].feed])
      case End(i) => Move(s, i, Gone).(permits := s.permits + 1)
  }

  /** The machine after the first `n` steps of a history that starts in `from`. */
  function At(from: State, steps: seq<Step>, n: nat): State
    requires n <= |steps|
  {
    if n == 0 then from else Next(At(from, steps, n - 1), steps[n - 1])
  }

  // ---------------------------------------------------------------- invariants

  predicate HoldsPermit(p: Phase) {
    p.Permitted? || p.Locked? || p.Fetching? || p.Released? || p.Reported?
  }

  predicate HoldsLock(p: Phase) {
    p.Locked? || p.Fetching?
  }

  predicate HasReported(p: Phase) {
    p.Reported? || p.Gone?
  }

  function PermitsHeld(tasks: seq<Task>): nat {
    if tasks == [] then 0
    else PermitsHeld(tasks[..|tasks| - 1]) + if HoldsPermit(tasks[|tasks| - 1].phase) then 1 else 0
  }

  predicate PermitsBalance(s: State) {
    s.permits >= 0 && s.permits + PermitsHeld(s.tasks) == s.concurrency && s.concurrency >= 1
  }

  /** A host's lock is held exactly by the one task of that host between lock and release. */
  predicate LocksMatch(s: State) {
    && (forall i :: 0 <= i < |s.tasks| && HoldsLock(s.tasks[i].phase) ==>
          s.tasks[i].host in s.locks && s.locks[s.tasks[i].host] == i)
    && (forall h :: h in s.locks ==>
          s.locks[h] < |s.tasks| && s.tasks[s.locks[h]].host == h && HoldsLock(s.tasks[s.locks[h]].phase))
  }

  predicate FetchesMatch(s: State) {
    forall h :: h in s.lastFetch ==> s.lastFetch[h] <= s.clock
  }

  predicate ReportsMatch(s: State) {
    && (forall i, j :: 0 <= i < j < |s.tasks| ==> s.tasks[i].feed != s.tasks[j].feed)
    && (forall i, j :: 0 <= i < j < |s.reports| ==> s.reports[i] != s.reports[j])
    && (forall i :: 0 <= i < |s.tasks| ==> (s.tasks[i].feed in s.reports <==> HasReported(s.tasks[i].phase)))
    && (forall f :: f in s.reports ==> exists i :: 0 <= i < |s.tasks| && s.tasks[i].feed == f)
  }

  ghost predicate Inv(s: State) {
    PermitsBalance(s) && LocksMatch(s) && FetchesMatch(s) && ReportsMatch(s)
  }

  lemma PermitsHeldMove(tasks: seq<Task>, i: nat, t: Task)
    requires i < |tasks|
    ensures PermitsHeld(tasks[i := t]) ==
            PermitsHeld(tasks) - (if HoldsPermit(tasks[i].phase) then 1 else 0) + (if HoldsPermit(t.phase) then 1 else 0)
  {
    if i == |tasks| - 1 {
      assert tasks[i := t][..i] == tasks[..i];
    } else {
      assert tasks[i := t][..|tasks| - 1] == tasks[..|tasks| - 1][i := t];
      PermitsHeldMove(tasks[..|tasks| - 1], i, t);
    }
  }

  lemma NoPermitsHeld(tasks: seq<Task>)
    requires forall i :: 0 <= i < |tasks| ==> !HoldsPermit(tasks[i].phase)
    ensures PermitsHeld(tasks) == 0
  {
  }

  lemma KeepsPermits(s: State, step: Step)
    requires PermitsBalance(s)
    ensures PermitsBalance(Next(s, step))
  {
    hide PermitsHeld;
    if Enabled(s, step) {
      match step
      case BeginTick(due, _, _) => NoPermitsHeld(Spawned(due));
      case Advance(_) =>
      case _ =>
        PermitsHeldMove(s.tasks, step.i, Next(s, step).tasks[step.i]);
        if step.Acquire? || step.End? { }
    }
  }

  predicate SameTasks(s: State, after: State) {
    && |after.tasks| == |s.tasks|
    && forall k :: 0 <= k < |s.tasks| ==>
         after.tasks[k].feed == s.tasks[k].feed && after.tasks[k].host == s.tasks[k].host
  }

  lemma MoveKeepsLocks(s: State, after: State)
    requires LocksMatch(s) && SameTasks(s, after) && after.locks == s.locks
    requires forall k :: 0 <= k < |s.tasks| ==> (HoldsLock(after.tasks[k].phase) <==> HoldsLock(s.tasks[k].phase))
    ensures LocksMatch(after)
  {
    hide HoldsLock;
  }

  lemma LockKeepsLocks(s: State, i: nat, after: State)
    requires LocksMatch(s) && SameTasks(s, after) && i < |s.tasks| && s.tasks[i].host !in s.locks
    requires after.locks == s.locks[s.tasks[i].host := i]
    requires forall k :: 0 <= k < |s.tasks| ==>
               (HoldsLock(after.tasks[k].phase) <==> k == i || HoldsLock(s.tasks[k].phase))
    ensures LocksMatch(after)
  {
    hide HoldsLock;
  }

  lemma UnlockKeepsLocks(s: State, i: nat, after: State)
    requires LocksMatch(s) && SameTasks(s, after) && i < |s.tasks| && HoldsLock(s.tasks[i].phase)
    requires after.locks == s.locks - {s.tasks[i].host}
    requires forall k :: 0 <= k < |s.tasks| ==>
               (HoldsLock(after.tasks[k].phase) <==> k != i && HoldsLock(s.tasks[k].phase))
    ensures LocksMatch(after)
  {
    hide HoldsLock;
  }

  lemma KeepsLocks(s: State, step: Step)
    requires LocksMatch(s)
    ensures LocksMatch(Next(s, step))
  {
    if Enabled(s, step) && !step.BeginTick? && !step.Advance? {
      hide LocksMatch, Spawned;
      var after := Next(s, step);
      if step.LockHost? {
        LockKeepsLocks(s, step.i, after);
      } else if step.FinishFetch? {
        UnlockKeepsLocks(s, step.i, after);
      } else {
        MoveKeepsLocks(s, after);
      }
    }
  }

  lemma KeepsFetches(s: State, step: Step)
    requires FetchesMatch(s)
    ensures FetchesMatch(Next(s, step))
  {
  }

  /** Moving task `i` to a phase that reports the same, with the same list of reports. */
  lemma MoveKeepsReports(s: State, i: nat, after: State)
    requires ReportsMatch(s) && i < |s.tasks|
    requires after.reports == s.reports && |after.tasks| == |s.tasks|
    requires forall k :: 0 <= k < |s.tasks| ==> after.tasks[k].feed == s.tasks[k].feed
    requires forall k :: 0 <= k < |s.tasks| ==>
               (HasReported(after.tasks[k].phase) <==> HasReported(s.tasks[k].phase))
    ensures ReportsMatch(after)
  {
    hide HasReported;
    forall f | f in after.reports
      ensures exists k :: 0 <= k < |after.tasks| && after.tasks[k].feed == f
    {
      var k :| 0 <= k < |s.tasks| && s.tasks[k].feed == f;
      assert after.tasks[k].feed == f;
    }
  }

  lemma ReportKeepsReports(s: State, i: nat, after: State)
    requires ReportsMatch(s) && i < |s.tasks| && !HasReported(s.tasks[i].phase)
    requires after.reports == s.reports + [s.tasks[i].feed] && |after.tasks| == |s.tasks|
    requires forall k :: 0 <= k < |s.tasks| ==> after.tasks[k].feed == s.tasks[k].feed
    requires forall k :: 0 <= k < |s.tasks| ==>
               (HasReported(after.tasks[k].phase) <==> k == i || HasReported(s.tasks[k].phase))
    ensures ReportsMatch(after)
  {
    hide HasReported;
    forall f | f in after.reports
      ensures exists k :: 0 <= k < |after.tasks| && after.tasks[k].feed == f
    {
      if f == s.tasks[i].feed {
        assert after.tasks[i].feed == f;
      } else {
        var k :| 0 <= k < |s.tasks| && s.tasks[k].feed == f;
        assert after.tasks[k].feed == f;
      }
    }
  }

  lemma SpawnKeepsReports(due: seq<(int, string)>, after: State)
    requires after.tasks == Spawned(due) && after.reports == []
    requires forall i, j :: 0 <= i < j < |due| ==> due[i].0 != due[j].0
    ensures ReportsMatch(after)
  {
  }

  lemma KeepsReports(s: State, step: Step)
    requires ReportsMatch(s)
    ensures ReportsMatch(Next(s, step))
  {
    hide ReportsMatch, Spawned, HasReported;
    var after := Next(s, step);
    if !Enabled(s, step) {
    } else if step.BeginTick? {
      SpawnKeepsReports(step.due, after);
    } else if step.Advance? {
      AdvanceKeepsReports(s, after);
    } else {
      StepKeepsReports(s, step, after);
    }
  }

  lemma AdvanceKeepsReports(s: State, after: State)
    requires ReportsMatch(s) && after.tasks == s.tasks && after.reports == s.reports
    ensures ReportsMatch(after)
  {
  }

  lemma StepKeepsReports(s: State, step: Step, after: State)
    requires ReportsMatch(s) && Enabled(s, step) && !step.BeginTick? && !step.Advance? && after == Next(s, step)
    ensures ReportsMatch(after)
  {
    hide ReportsMatch, Spawned;
    if step.Report? {
      ReportKeepsReports(s, step.i, after);
    } else {
      MoveKeepsReports(s, step.i, after);
    }
  }

  lemma InitialInv()
    ensures Inv(INITIAL)
  {
    assert PermitsHeld([]) == 0;
  }

  lemma KeepsInv(s: State, step: Step)
    requires Inv(s)
    ensures Inv(Next(s, step))
  {
    hide PermitsBalance, LocksMatch, FetchesMatch, ReportsMatch, Next;
    KeepsPermits(s, step);
    KeepsLocks(s, step);
    KeepsFetches(s, step);
    KeepsReports(s, step);
  }

  lemma {:induction false} Reachable(steps: seq<Step>, n: nat)
    requires n <= |steps|
    ensures Inv(At(INITIAL, steps, n))
  {
    hide Inv, Next;
    InitialInv();
    if n == 0 {
    } else {
      Reachable(steps, n - 1);
      var s := At(INITIAL, steps, n - 1);
      KeepsInv(s, steps[n - 1]);
    }
  }

  // ---------------------------------------------------------------- safety

  lemma {:induction false} PermitsHeldCounts(tasks: seq<Task>)
    ensures PermitsHeld(tasks) == |set i | 0 <= i < |tasks| && HoldsPermit(tasks[i].phase)|
  {
    var holders := set i | 0 <= i < |tasks| && HoldsPermit(tasks[i].phase);
    if tasks == [] {
    } else {
      var last := |tasks| - 1;
      var front := tasks[..last];
      var others := set i | 0 <= i < |front| && HoldsPermit(front[i].phase);
      PermitsHeldCounts(front);
      assert holders == if HoldsPermit(tasks[last].phase) then others + {last} else others;
    }
  }

  // The laws below speak of the steps of a history and their parameters: of the settings with which
  // the current tick began, not of what the machine made of them.

  predicate TakenAt(steps: seq<Step>, k: nat) {
    k < |steps| && Enabled(At(INITIAL, steps, k), steps[k])
  }

  /** Step `b` is the latest beginning of a tick among the first `n` steps. */
  predicate BegunAt(steps: seq<Step>, b: nat, n: nat) {
    && b < n <= |steps| && steps[b].BeginTick? && TakenAt(steps, b)
    && forall j :: b < j < n && steps[j].BeginTick? ==> !TakenAt(steps, j)
  }

  function AtLeastOne(limit: int): int {
    if limit < 1 then 1 else limit
  }

  predicate WorksWith(s: State, due: seq<(int, string)>, limit: int, delay: nat) {
    && s.concurrency == AtLeastOne(limit) && s.delay == delay && |s.tasks| == |due|
    && forall i :: 0 <= i < |due| ==> s.tasks[i].feed == due[i].0 && s.tasks[i].host == due[i].1
  }

  lemma StepWorksWith(s: State, step: Step, due: seq<(int, string)>, limit: int, delay: nat)
    requires if step.BeginTick? && Enabled(s, step)
             then step == BeginTick(due, limit, delay)
             else WorksWith(s, due, limit, delay)
    ensures WorksWith(Next(s, step), due, limit, delay)
  {
  }

  /** The tick works with the settings it began with, on the feeds it selected. */
  lemma {:induction false} TickKeepsSettings(steps: seq<Step>, b: nat, n: nat)
    requires BegunAt(steps, b, n)
    ensures WorksWith(At(INITIAL, steps, n), steps[b].due, steps[b].limit, steps[b].delay)
    decreases n
  {
    hide Enabled, Next, WorksWith;
    StepWorksWith(At(INITIAL, steps, n - 1), steps[n - 1], steps[b].due, steps[b].limit, steps[b].delay) by {
      if n == b + 1 {
      } else {
        TickKeepsSettings(steps, b, n - 1);
        assert steps[n - 1].BeginTick? ==> !TakenAt(steps, n - 1);
      }
    }
  }

  /** The tasks that hold a permit. */
  function Holders(s: State): set<int> {
    set i | 0 <= i < |s.tasks| && HoldsPermit(s.tasks[i].phase)
  }

  /** At every interleaving at most as many tasks as the tick was set to (or one, if set to less) are
      between permit and release, and a queued task can take a permit exactly while there are fewer. */
  lemma ConcurrencyBound(steps: seq<Step>, b: nat, n: nat)
    requires BegunAt(steps, b, n)
    ensures var s := At(INITIAL, steps, n);
            && |Holders(s)| <= AtLeastOne(steps[b].limit)
            && forall i: nat :: i < |s.tasks| && s.tasks[i].phase == Queued ==>
                 (Enabled(s, Acquire(i)) <==> |Holders(s)| < AtLeastOne(steps[b].limit))
  {
    Reachable(steps, n);
    TickKeepsSettings(steps, b, n);
    PermitsHeldCounts(At(INITIAL, steps, n).tasks);
  }

  /** No two tasks of one host are ever between lock and release, and a task with a permit can take
      the lock of its host exactly while none is. */
  lemma HostsAreExclusive(steps: seq<Step>, n: nat)
    requires n <= |steps|
    ensures var s := At(INITIAL, steps, n);
            && (forall i, j :: 0 <= i < j < |s.tasks| && HoldsLock(s.tasks[i].phase) && HoldsLock(s.tasks[j].phase) ==>
                  s.tasks[i].host != s.tasks[j].host)
            && forall i: nat :: i < |s.tasks| && s.tasks[i].phase == Permitted ==>
                 (Enabled(s, LockHost(i)) <==>
                  forall j :: 0 <= j < |s.tasks| && HoldsLock(s.tasks[j].phase) ==> s.tasks[j].host != s.tasks[i].host)
  {
    Reachable(steps, n);
  }

  /** Step `k` ends a fetch of `host`, selected by the tick that began with step `b`. */
  predicate FinishesAt(steps: seq<Step>, b: nat, k: nat, host: string) {
    && BegunAt(steps, b, k) && TakenAt(steps, k) && steps[k].FinishFetch?
    && steps[k].i < |steps[b].due| && steps[b].due[steps[k].i].1 == host
  }

  /** What the lock of a host remembers is the time of some earlier end of a fetch of that host, and
      of the latest. */
  ghost predicate Remembers(steps: seq<Step>, n: nat, host: string)
    requires n <= |steps|
  {
    var s := At(INITIAL, steps, n);
    && (host in s.lastFetch ==> exists b: nat, k: nat :: k < n && FinishesAt(steps, b, k, host)
                                                         && At(INITIAL, steps, k).clock == s.lastFetch[host])
    && forall b: nat, k: nat :: k < n && FinishesAt(steps, b, k, host) ==>
         host in s.lastFetch && At(INITIAL, steps, k).clock <= s.lastFetch[host]
  }

  lemma {:induction false} LastFetchIsLatest(steps: seq<Step>, n: nat, host: string)
    requires n <= |steps|
    ensures Remembers(steps, n, host)
  {
    hide FinishesAt;
    if n == 0 {
    } else {
      hide *;
      LastFetchIsLatest(steps, n - 1, host);
      LastFetchStep(steps, n - 1, host);
      StillRemembers(steps, n - 1, host);
    }
  }

  lemma StillRemembers(steps: seq<Step>, n: nat, host: string)
    requires n < |steps| && Remembers(steps, n, host) && LastFetchMoves(steps, n, host)
    ensures Remembers(steps, n + 1, host)
  {
    hide FinishesAt, At;
    var s, after := At(INITIAL, steps, n), At(INITIAL, steps, n + 1);
    if b: nat :| FinishesAt(steps, b, n, host) {
      assert n < n + 1 && s.clock == after.lastFetch[host];
    }
    forall b: nat, k: nat | k < n + 1 && FinishesAt(steps, b, k, host)
      ensures host in after.lastFetch && At(INITIAL, steps, k).clock <= after.lastFetch[host]
    {
      if k < n {
        assert host in s.lastFetch && At(INITIAL, steps, k).clock <= s.lastFetch[host];
      }
    }
  }

  ghost predicate LastFetchMoves(steps: seq<Step>, k: nat, host: string)
    requires k < |steps|
  {
    var s, after := At(INITIAL, steps, k), At(INITIAL, steps, k + 1);
    if exists b: nat :: FinishesAt(steps, b, k, host)
    then host in after.lastFetch && after.lastFetch[host] == s.clock
         && (host in s.lastFetch ==> s.lastFetch[host] <= s.clock)
    else (host in after.lastFetch <==> host in s.lastFetch)
         && (host in s.lastFetch ==> after.lastFetch[host] == s.lastFetch[host])
  }

  lemma LastFetchStep(steps: seq<Step>, k: nat, host: string)
    requires k < |steps|
    ensures LastFetchMoves(steps, k, host)
  {
    Reachable(steps, k);
    var s := At(INITIAL, steps, k);
    if TakenAt(steps, k) && steps[k].FinishFetch? {
      var b := SomeTick(steps, k);
      TickKeepsSettings(steps, b, k);
      if s.tasks[steps[k].i].host == host {
        assert FinishesAt(steps, b, k, host);
      } else {
        forall c: nat | BegunAt(steps, c, k)
          ensures c == b
        {
          OneLatestTick(steps, b, c, k);
        }
      }
    }
  }

  lemma OneLatestTick(steps: seq<Step>, b: nat, c: nat, n: nat)
    requires BegunAt(steps, b, n) && BegunAt(steps, c, n)
    ensures b == c
  {
    hide TakenAt;
  }

  /** There are tasks only after a tick has begun. */
  lemma {:induction false} SomeTick(steps: seq<Step>, n: nat) returns (b: nat)
    requires n <= |steps| && At(INITIAL, steps, n).tasks != []
    ensures BegunAt(steps, b, n)
  {
    if steps[n - 1].BeginTick? && TakenAt(steps, n - 1) {
      b := n - 1;
    } else {
      b := SomeTick(steps, n - 1);
    }
  }

  /** Politeness: a task that holds the lock of its host can start its fetch exactly when the delay
      its tick began with has passed since the end of every earlier fetch of that host, in this tick
      or any other. */
  lemma FetchesArePolite(steps: seq<Step>, b: nat, n: nat, i: nat)
    requires BegunAt(steps, b, n) && i < |steps[b].due| && i < |At(INITIAL, steps, n).tasks|
    requires At(INITIAL, steps, n).tasks[i].phase == Locked
    ensures Enabled(At(INITIAL, steps, n), StartFetch(i)) <==>
            forall c: nat, k: nat :: k < n && FinishesAt(steps, c, k, steps[b].due[i].1) ==>
              At(INITIAL, steps, n).clock >= At(INITIAL, steps, k).clock + steps[b].delay
  {
    TickKeepsSettings(steps, b, n);
    LastFetchIsLatest(steps, n, steps[b].due[i].1);
    hide FinishesAt;
  }

  function Feeds(tasks: seq<Task>): (feeds: seq<int>)
    ensures |feeds| == |tasks|
    ensures forall i :: 0 <= i < |tasks| ==> feeds[i] == tasks[i].feed
  {
    if tasks == [] then [] else Feeds(tasks[..|tasks| - 1]) + [tasks[|tasks| - 1].feed]
  }

  predicate Distinct(xs: seq<int>) {
    forall i, j :: 0 <= i < j < |xs| ==> xs[i] != xs[j]
  }

  lemma {:induction false} CountOfDistinct(xs: seq<int>, x: int)
    requires Distinct(xs)
    ensures multiset(xs)[x] == if x in xs then 1 else 0
  {
    if xs == [] {
    } else {
      var last := |xs| - 1;
      assert xs == xs[..last] + [xs[last]];
      CountOfDistinct(xs[..last], x);
    }
  }

  function Selected(due: seq<(int, string)>): (feeds: seq<int>)
    ensures |feeds| == |due| && forall i :: 0 <= i < |due| ==> feeds[i] == due[i].0
  {
    if due == [] then [] else Selected(due[..|due| - 1]) + [due[|due| - 1].0]
  }

  /** When a tick is over, every feed it selected has been reported to the registry exactly once, and
      no other has. */
  lemma TickReportsOnce(steps: seq<Step>, b: nat, n: nat)
    requires BegunAt(steps, b, n) && AllGone(At(INITIAL, steps, n))
    ensures var s := At(INITIAL, steps, n);
            multiset(s.reports) == multiset(Selected(steps[b].due)) && Distinct(s.reports)
  {
    TickKeepsSettings(steps, b, n);
    ReportsAreFeeds(steps, n);
    assert Feeds(At(INITIAL, steps, n).tasks) == Selected(steps[b].due);
  }

  lemma ReportsAreFeeds(steps: seq<Step>, n: nat)
    requires n <= |steps|
    requires AllGone(At(INITIAL, steps, n))
    ensures var s := At(INITIAL, steps, n);
            multiset(s.reports) == multiset(Feeds(s.tasks)) && Distinct(s.reports)
  {
    Reachable(steps, n);
    var s := At(INITIAL, steps, n);
    var feeds := Feeds(s.tasks);
    forall x: int
      ensures multiset(s.reports)[x] == multiset(feeds)[x]
    {
      CountOfDistinct(s.reports, x);
      CountOfDistinct(feeds, x);
      if x in s.reports {
        var i :| 0 <= i < |s.tasks| && s.tasks[i].feed == x;
        assert feeds[i] == x;
      }
      if x in feeds {
        var i :| 0 <= i < |feeds| && feeds[i] == x;
        assert HasReported(s.tasks[i].phase);
      }
    }
  }

  /** A registry run that waits on feeds of this tick only is closed by the tick's reports, however
      they interleave with other calls: no feed of a tick can leave a run hanging. */
  lemma TickClosesRun(steps: seq<Step>, b: nat, n: nat, calls: seq<Events.Step>, m: nat, id: int)
    requires BegunAt(steps, b, n) && AllGone(At(INITIAL, steps, n))
    requires m <= |calls| && id in Events.Exec(calls, m).runs
    requires Events.Exec(calls, m).runs[id].pending != {}
    requires forall f :: f in Events.Exec(calls, m).runs[id].pending ==> f in Selected(steps[b].due)
    requires forall f :: f in At(INITIAL, steps, n).reports ==> Events.ReportedIn(calls, m, |calls|, f)
    ensures id !in Events.Exec(calls, |calls|).runs
  {
    TickReportsOnce(steps, b, n);
    var s := At(INITIAL, steps, n);
    forall f | f in Events.Exec(calls, m).runs[id].pending
      ensures Events.ReportedIn(calls, m, |calls|, f)
    {
      assert f in multiset(Selected(steps[b].due));
      assert f in multiset(s.reports);
    }
    Events.ReportsCloseRun(calls, m, |calls|, id);
  }

  // ---------------------------------------------------------------- progress

  function Rank(p: Phase): nat {
    match p
    case Due => 7
    case Queued => 6
    case Permitted => 5
    case Locked => 4
    case Fetching => 3
    case Released => 2
    case Reported => 1
    case Gone => 0
  }

  function Work(tasks: seq<Task>): nat {
    if tasks == [] then 0 else Work(tasks[..|tasks| - 1]) + Rank(tasks[|tasks| - 1].phase)
  }

  lemma {:induction false} WorkMove(tasks: seq<Task>, i: nat, t: Task)
    requires i < |tasks|
    ensures Work(tasks[i := t]) == Work(tasks) - Rank(tasks[i].phase) + Rank(t.phase)
  {
    if i == |tasks| - 1 {
      assert tasks[i := t][..i] == tasks[..i];
    } else {
      assert tasks[i := t][..|tasks| - 1] == tasks[..|tasks| - 1][i := t];
      WorkMove(tasks[..|tasks| - 1], i, t);
    }
  }

  /** Every step a task takes removes one unit of the tick's work, so a tick has at most seven
      steps per feed; the clock takes none away. */
  lemma StepsDrain(s: State, step: Step)
    requires Enabled(s, step) && !step.BeginTick?
    ensures Work(Next(s, step).tasks) == if step.Advance? then Work(s.tasks) else Work(s.tasks) - 1
  {
    hide Work;
    if !step.Advance? {
      WorkMove(s.tasks, step.i, Next(s, step).tasks[step.i]);
    }
  }

  /** The step with which task `i` goes on once nothing blocks it. */
  function Own(i: nat, p: Phase): Step
    requires !p.Gone?
  {
    match p
    case Due => Claim(i)
    case Queued => Acquire(i)
    case Permitted => LockHost(i)
    case Locked => StartFetch(i)
    case Fetching => FinishFetch(i)
    case Released => Report(i)
    case Reported => End(i)
  }

  /** The earliest time at which task `i`, holding its host's lock, may fetch. */
  function Wait(s: State, i: nat): int
    requires i < |s.tasks|
  {
    var h := s.tasks[i].host;
    if h in s.lastFetch && s.lastFetch[h] + s.delay > s.clock then s.lastFetch[h] + s.delay else s.clock
  }

  /** Whichever task waits for a lock, the holder of that lock can go on. */
  lemma LockedProgress(s: State, i: nat) returns (k: nat)
    requires Inv(s) && i < |s.tasks| && !s.tasks[i].phase.Gone? && !s.tasks[i].phase.Queued?
    ensures k < |s.tasks| && !s.tasks[k].phase.Gone?
    ensures s.clock <= Wait(s, k) <= s.clock + s.delay
    ensures Enabled(s.(clock := Wait(s, k)), Own(k, s.tasks[k].phase))
  {
    k := i;
    if s.tasks[i].phase.Permitted? && s.tasks[i].host in s.locks {
      k := s.locks[s.tasks[i].host];
    }
  }

  lemma {:induction false} SomeHolder(tasks: seq<Task>) returns (i: nat)
    requires PermitsHeld(tasks) > 0
    ensures i < |tasks| && HoldsPermit(tasks[i].phase)
  {
    var last := |tasks| - 1;
    if HoldsPermit(tasks[last].phase) {
      i := last;
    } else {
      i := SomeHolder(tasks[..last]);
    }
  }

  /** The permit-then-host-lock order cannot deadlock: while a tick is not over, after a wait of no
      more than the per-host delay some task can take its next step. */
  lemma NoDeadlock(steps: seq<Step>, n: nat)
    requires n <= |steps|
    requires !AllGone(At(INITIAL, steps, n))
    ensures var s := At(INITIAL, steps, n);
            exists k: nat, to :: k < |s.tasks| && !s.tasks[k].phase.Gone? && s.clock <= to <= s.clock + s.delay
              && Enabled(Next(s, Advance(to)), Own(k, s.tasks[k].phase))
  {
    Reachable(steps, n);
    var s := At(INITIAL, steps, n);
    var k := Progress(s);
    assert Next(s, Advance(Wait(s, k))) == s.(clock := Wait(s, k));
  }

  lemma Progress(s: State) returns (k: nat)
    requires Inv(s) && !AllGone(s)
    ensures k < |s.tasks| && !s.tasks[k].phase.Gone?
    ensures s.clock <= Wait(s, k) <= s.clock + s.delay
    ensures Enabled(s.(clock := Wait(s, k)), Own(k, s.tasks[k].phase))
  {
    var i :| 0 <= i < |s.tasks| && s.tasks[i].phase != Gone;
    k := i;
    if s.tasks[i].phase.Queued? {
      if s.permits == 0 {
        k := SomeHolder(s.tasks);
        k := LockedProgress(s, k);
      }
    } else {
      k := LockedProgress(s, i);
    }
  }

  /** From every reachable state the tick can be driven to its end. */
  lemma {:induction false} CanFinish(s: State) returns (steps: seq<Step>)
    requires Inv(s)
    ensures |steps| == 2 * Work(s.tasks) && AllGone(At(s, steps, |steps|))
    decreases Work(s.tasks)
  {
    if AllGone(s) {
      NoWork(s.tasks);
      steps := [];
    } else {
      var k := Progress(s);
      var wait, own := Advance(Wait(s, k)), Own(k, s.tasks[k].phase);
      var waited, next := WaitAndStep(s, k, wait, own);
      hide *;
      var rest := CanFinish(next);
      steps := [wait, own] + rest;
      AtAppends(s, wait, own, rest, |rest|);
    }
  }

  lemma WaitAndStep(s: State, k: nat, wait: Step, own: Step) returns (waited: State, next: State)
    requires Inv(s) && k < |s.tasks| && !s.tasks[k].phase.Gone? && Wait(s, k) >= s.clock
    requires wait == Advance(Wait(s, k)) && own == Own(k, s.tasks[k].phase)
    requires Enabled(s.(clock := Wait(s, k)), own)
    ensures waited == Next(s, wait) && next == Next(waited, own)
    ensures Inv(next) && Work(next.tasks) == Work(s.tasks) - 1
  {
    hide Inv, Work;
    waited := Next(s, wait);
    assert waited == s.(clock := Wait(s, k));
    next := Next(waited, own);
    hide Next, Enabled;
    KeepsInv(s, wait);
    KeepsInv(waited, own);
    StepsDrain(waited, own);
  }

  lemma NoWork(tasks: seq<Task>)
    requires forall i :: 0 <= i < |tasks| ==> tasks[i].phase == Gone
    ensures Work(tasks) == 0
  {
  }

  lemma {:induction false} AtAppends(s: State, first: Step, second: Step, rest: seq<Step>, n: nat)
    requires n <= |rest|
    ensures At(s, [first, second] + rest, n + 2) == At(Next(Next(s, first), second), rest, n)
  {
    var steps := [first, second] + rest;
    if n == 0 {
      assert At(s, steps, 1) == Next(At(s, steps, 0), first);
    } else {
      AtAppends(s, first, second, rest, n - 1);
    }
  }
}
