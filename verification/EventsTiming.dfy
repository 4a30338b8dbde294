/** Timing of the ingest runs of backend/src/events.rs: the cooldown, the time to live, and how
    many runs one user can have open. */
module EventsTiming {
  import opened Events
  import opened Sets

  /** Clock readings along a history: step `i` holds the lock from `times[i]` to `times[i + 1]` and
      reads a monotonic clock in between. */
  ghost predicate Clocked(trace: seq<Step>, times: seq<int>) {
    && |times| == |trace| + 1
    && (forall i, j :: 0 <= i <= j < |times| ==> times[i] <= times[j])
    && (forall i :: 0 <= i < |trace| ==> ReadWithin(trace[i], times[i], times[i + 1]))
  }

  ghost predicate ReadWithin(step: Step, from: int, to: int) {
    match step
    case Open(_, _, check, stamp, start) => from <= check <= stamp <= start <= to
    case Done(_, _) => true
    case Sweep(clock) => forall id :: from <= clock(id) <= to
  }

  // ---------------------------------------------------------------- cooldown

  /** `cooldown_left` is 0 exactly when the user may ingest: never yet, or strictly longer ago than
      the cooldown. Otherwise it is the time left in whole seconds and one more, at most 61. */
  lemma CooldownLeftMeans(s: State, user: int, now: int)
    ensures CooldownLeft(s, user, now) == 0 <==>
            user !in s.lastRunAt || now - s.lastRunAt[user] > 60_000_000_000
    ensures 0 <= CooldownLeft(s, user, now) <= 61
    ensures CooldownLeft(s, user, now) > 0 ==>
              var left := 60_000_000_000 - if now < s.lastRunAt[user] then 0 else now - s.lastRunAt[user];
              (CooldownLeft(s, user, now) - 1) * 1_000_000_000 <= left < CooldownLeft(s, user, now) * 1_000_000_000
  {
  }

  lemma {:induction false} StampRemembered(trace: seq<Step>, times: seq<int>, k: nat, n: nat)
    requires Clocked(trace, times) && k < n <= |trace| && OpensAt(trace, k)
    ensures trace[k].user in Exec(trace, n).lastRunAt
    ensures trace[k].stamp <= Exec(trace, n).lastRunAt[trace[k].user]
    decreases n
  {
    hide CooldownLeft;
    if n == k + 1 {
    } else {
      StampRemembered(trace, times, k, n - 1);
      assert ReadWithin(trace[n - 1], times[n - 1], times[n]);
      assert ReadWithin(trace[k], times[k], times[k + 1]);
      StampBound(trace, times, n - 1, trace[k].user);
    }
  }

  lemma {:induction false} StampBound(trace: seq<Step>, times: seq<int>, n: nat, user: int)
    requires Clocked(trace, times) && n <= |trace|
    requires user in Exec(trace, n).lastRunAt
    ensures Exec(trace, n).lastRunAt[user] <= times[n]
  {
    hide CooldownLeft;
    assert ReadWithin(trace[n - 1], times[n - 1], times[n]);
    if user in Exec(trace, n - 1).lastRunAt { StampBound(trace, times, n - 1, user); }
  }

  /** One user's runs are opened strictly more than the cooldown apart: from the stamp of the
      earlier to the check, hence to the stamp and the start, of the later. */
  lemma StartsApart(trace: seq<Step>, times: seq<int>, i: nat, j: nat)
    requires Clocked(trace, times) && i < j < |trace|
    requires OpensAt(trace, i) && OpensAt(trace, j) && trace[i].user == trace[j].user
    ensures trace[j].check - trace[i].stamp > 60_000_000_000
    ensures trace[j].stamp - trace[i].stamp > 60_000_000_000
    ensures trace[j].start - trace[i].stamp > 60_000_000_000
  {
    StampRemembered(trace, times, i, j);
    CooldownLeftMeans(Exec(trace, j), trace[j].user, trace[j].check);
    assert ReadWithin(trace[j], times[j], times[j + 1]);
  }

  // ------------------------------------------------------------- time to live

  /** The step that opened a registered run. */
  lemma {:induction false} Origin(trace: seq<Step>, n: nat, id: int) returns (k: nat)
    requires n <= |trace| && id in Exec(trace, n).runs
    ensures k < n && OpensAt(trace, k) && OpenedId(trace, k) == id
  {
    hide CooldownLeft;
    if id in Exec(trace, n - 1).runs { k := Origin(trace, n - 1, id); } else { k := n - 1; }
  }

  /** Right after a sweep no registered run is older than the time to live. */
  lemma SweepLeavesFresh(trace: seq<Step>, times: seq<int>, n: nat, id: int)
    requires Clocked(trace, times) && 0 < n <= |trace| && trace[n - 1].Sweep?
    requires id in Exec(trace, n).runs
    ensures trace[n - 1].clock(id) - Exec(trace, n).runs[id].started <= 300_000_000_000
  {
  }

  function RunsOf(s: State, user: int): set<int> {
    set id | id in s.runs && s.runs[id].userId == user
  }

  /** How long after its stamp a run takes its start time, at most. */
  predicate StartsWithin(trace: seq<Step>, skew: int) {
    forall k :: 0 <= k < |trace| && trace[k].Open? ==> trace[k].start - trace[k].stamp <= skew
  }

  /** The most runs of one user a sweep can leave open when starts come within `skew` of their stamps:
      six, or five while six stamps a cooldown apart do not fit into the time to live and the skew. */
  function Most(skew: nat): nat {
    if 5 * (60_000_000_000 + 1) > 300_000_000_000 + skew then 5 else 6
  }

  /** What a sweep can leave open: no run older than the time to live, never more than six of one
      user whatever the clock reads, and five when starts come less than 5 ns after their stamps. */
  lemma SweepBound(trace: seq<Step>, times: seq<int>, n: nat, user: int)
    requires Clocked(trace, times) && 0 < n <= |trace| && trace[n - 1].Sweep?
    ensures forall id :: id in RunsOf(Exec(trace, n), user) ==>
              trace[n - 1].clock(id) - Exec(trace, n).runs[id].started <= 300_000_000_000
    ensures |RunsOf(Exec(trace, n), user)| <= 6
    ensures forall skew: nat :: StartsWithin(trace, skew) ==> |RunsOf(Exec(trace, n), user)| <= Most(skew)
  {
    var ids := RunsOf(Exec(trace, n), user);
    if forall id :: id !in ids {
      assert ids == {};
    } else {
      forall id | id in ids
        ensures trace[n - 1].clock(id) - Exec(trace, n).runs[id].started <= 300_000_000_000
      {
        SweepLeavesFresh(trace, times, n, id);
      }
      hide Exec;
      AtMostSix(trace, times, n, user);
      forall skew: nat | StartsWithin(trace, skew)
        ensures |ids| <= Most(skew)
      {
        var lo, hi := Spread(trace, times, n, user, ids);
        WithinLifetime(trace, times, n, lo, hi, skew);
      }
    }
  }

  /** A later opening of any run takes its stamp after the start of an earlier one is read: both
      happen under the lock. */
  lemma StampAfterStart(trace: seq<Step>, times: seq<int>, i: nat, j: nat)
    requires Clocked(trace, times) && i < j < |trace| && trace[i].Open? && trace[j].Open?
    ensures trace[j].stamp >= trace[i].start
  {
    assert ReadWithin(trace[i], times[i], times[i + 1]);
    assert ReadWithin(trace[j], times[j], times[j + 1]);
  }

  /** So all runs but the oldest are stamped within one time to live of the oldest one's start. */
  lemma AtMostSix(trace: seq<Step>, times: seq<int>, n: nat, user: int)
    requires Clocked(trace, times) && 0 < n <= |trace| && trace[n - 1].Sweep?
    ensures |RunsOf(Exec(trace, n), user)| <= 6
  {
    hide Exec;
    var ids := RunsOf(Exec(trace, n), user);
    if forall id :: id !in ids {
      assert ids == {};
    } else {
      var bottom := Least(ids);
      var rest := ids - {bottom};
      assert |rest| == |ids| - 1;
      if forall id :: id !in rest {
        assert rest == {};
      } else {
        var first := Origin(trace, n, bottom);
        var lo, hi := Spread(trace, times, n, user, rest);
        if lo <= first { IdsGrow(trace, lo, first); }
        StampAfterStart(trace, times, first, lo);
        SinceStart(trace, times, n, first, hi);
      }
    }
  }

  lemma SinceStart(trace: seq<Step>, times: seq<int>, n: nat, first: nat, hi: nat)
    requires Clocked(trace, times) && 0 < n <= |trace| && trace[n - 1].Sweep?
    requires first < n && hi < n && OpensAt(trace, first) && OpensAt(trace, hi)
    requires OpenedId(trace, first) in Exec(trace, n).runs
    ensures trace[hi].stamp - trace[first].start <= RUN_TTL
  {
    hide Exec, CooldownLeft;
    SweepLeavesFresh(trace, times, n, OpenedId(trace, first));
    StartKept(trace, first, n);
    assert ReadWithin(trace[n - 1], times[n - 1], times[n]);
    assert ReadWithin(trace[hi], times[hi], times[hi + 1]);
  }

  /** A registered run keeps the start read when it was opened. */
  lemma StartKept(trace: seq<Step>, k: nat, n: nat)
    requires k < n <= |trace| && OpensAt(trace, k) && OpenedId(trace, k) in Exec(trace, n).runs
    ensures Exec(trace, n).runs[OpenedId(trace, k)].started == trace[k].start
  {
    hide Exec, Log, Story, LifeOf, Opens;
    Accounting(trace, k, n);
  }

  /** Some two of `c` runs of one user were opened `c - 1` cooldowns apart. */
  lemma {:induction false} Spread(trace: seq<Step>, times: seq<int>, n: nat, user: int, ids: set<int>)
    returns (lo: nat, hi: nat)
    requires Clocked(trace, times) && n <= |trace|
    requires (exists id :: id in ids) && ids <= RunsOf(Exec(trace, n), user)
    ensures lo <= hi < n && OpensAt(trace, lo) && OpensAt(trace, hi)
    ensures OpenedId(trace, lo) in ids && OpenedId(trace, hi) in ids
    ensures forall id :: id in ids ==> id <= OpenedId(trace, hi)
    ensures trace[hi].stamp - trace[lo].stamp >= (|ids| - 1) * (COOLDOWN + 1)
    decreases ids
  {
    hide Next, CooldownLeft, Opens;
    var top := Greatest(ids);
    hi := Origin(trace, n, top);
    if forall id :: id in ids ==> id == top {
      assert ids == {top};
      lo := hi;
    } else {
      var other :| other in ids && other != top;
      assert other in ids - {top};
      var next: nat;
      lo, next := Spread(trace, times, n, user, ids - {top});
      Owner(trace, n, next, user);
      Owner(trace, n, hi, user);
      if hi <= next { IdsGrow(trace, hi, next); }
      StartsApart(trace, times, next, hi);
      assert |ids - {top}| == |ids| - 1;
    }
  }

  lemma Owner(trace: seq<Step>, n: nat, k: nat, user: int)
    requires k < n <= |trace| && OpensAt(trace, k) && OpenedId(trace, k) in RunsOf(Exec(trace, n), user)
    ensures trace[k].user == user
  {
    Accounting(trace, k, n);
  }

  lemma WithinLifetime(trace: seq<Step>, times: seq<int>, n: nat, lo: nat, hi: nat, skew: int)
    requires Clocked(trace, times) && 0 < n <= |trace| && trace[n - 1].Sweep? && StartsWithin(trace, skew)
    requires lo <= hi < n && OpensAt(trace, lo) && OpensAt(trace, hi)
    requires OpenedId(trace, lo) in Exec(trace, n).runs
    ensures trace[hi].stamp - trace[lo].stamp <= RUN_TTL + skew
  {
    hide Exec, Clocked, CooldownLeft;
    SinceStart(trace, times, n, lo, hi);
  }

  // ------------------------------------------------------------ one run at a time

  /** After each of the first `m` steps the user has at most one run open. */
  predicate OneAtATime(trace: seq<Step>, m: nat, user: int)
    requires m <= |trace|
  {
    forall n :: 0 <= n <= m ==> |RunsOf(Exec(trace, n), user)| <= 1
  }

  predicate OpensFor(trace: seq<Step>, k: nat, user: int) {
    OpensAt(trace, k) && trace[k].user == user
  }

  /** Every run of the user is opened while the user has none: what a call of `run_for` before
      `open_run` would check. */
  predicate OpensAlone(trace: seq<Step>, m: nat, user: int)
    requires m <= |trace|
  {
    forall k :: 0 <= k < m && OpensFor(trace, k, user) ==> RunsOf(Exec(trace, k), user) == {}
  }

  /** The exact condition for the comment on `run_for`: a user has at most one run at a time if and
      only if none is opened while another is open. */
  lemma {:induction false} OneAtATimeIff(trace: seq<Step>, m: nat, user: int)
    requires m <= |trace|
    ensures OneAtATime(trace, m, user) <==> OpensAlone(trace, m, user)
  {
    hide Exec, OpensFor, RunsOf;
    if m == 0 {
      NoRunsAtFirst(trace, user);
    } else {
      OneAtATimeIff(trace, m - 1, user);
      RunsStep(trace, m - 1, user);
      assert OneAtATime(trace, m, user) <==>
             OneAtATime(trace, m - 1, user) && |RunsOf(Exec(trace, m), user)| <= 1;
      assert OpensAlone(trace, m, user) <==>
             OpensAlone(trace, m - 1, user)
             && (OpensFor(trace, m - 1, user) ==> RunsOf(Exec(trace, m - 1), user) == {});
      if OneAtATime(trace, m - 1, user) {
        assert |RunsOf(Exec(trace, m - 1), user)| <= 1;
      }
    }
  }

  lemma NoRunsAtFirst(trace: seq<Step>, user: int)
    ensures RunsOf(Exec(trace, 0), user) == {}
  {
  }

  lemma RunsOfNext(s: State, step: Step, user: int)
    requires s.nextId !in s.runs
    ensures if Opens(s, step) && step.user == user then RunsOf(Next(s, step), user) == RunsOf(s, user) + {s.nextId}
            else RunsOf(Next(s, step), user) <= RunsOf(s, user)
  {
    hide CooldownLeft, Stale, Events.Feeds;
    match step
    case Open(_, _, _, _, _) =>
    case Done(_, _) =>
      var after := Next(s, step).runs;
      forall id | id in after
        ensures id in s.runs && after[id].userId == s.runs[id].userId
      {
      }
    case Sweep(_) =>
  }

  /** An opening adds one run to its user's; nothing else adds any. */
  lemma RunsStep(trace: seq<Step>, k: nat, user: int)
    requires k < |trace|
    ensures var before, after := RunsOf(Exec(trace, k), user), RunsOf(Exec(trace, k + 1), user);
            if OpensFor(trace, k, user) then |after| == |before| + 1 else |after| <= |before|
  {
    FreshIds(trace, k);
    var s := Exec(trace, k);
    RunsOfNext(s, trace[k], user);
    hide Next, Opens;
    var before, after := RunsOf(s, user), RunsOf(Next(s, trace[k]), user);
    if !OpensFor(trace, k, user) {
      assert before == after + (before - after);
    }
  }

  // ------------------------------------------------------------ the bound is met

  /** One user opening a run as often as the cooldown allows; only the first start is late. */
  function Burst(n: nat, skew: nat): (trace: seq<Step>)
    ensures |trace| == n
  {
    if n == 0 then [] else Burst(n - 1, skew) + [BurstStep(n, skew)]
  }

  function BurstAt(n: nat): int
    requires n > 0
  {
    (n - 1) * (COOLDOWN + 1)
  }

  function BurstStart(n: nat, skew: nat): int
    requires n > 0
  {
    BurstAt(n) + if n == 1 then skew else 0
  }

  function BurstStep(n: nat, skew: nat): Step
    requires n > 0
  {
    Open(1, [10], BurstAt(n), BurstAt(n), BurstStart(n, skew))
  }

  lemma ExecPrefix(a: seq<Step>, b: seq<Step>, n: nat)
    requires n <= |a| && n <= |b| && a[..n] == b[..n]
    ensures Exec(a, n) == Exec(b, n)
  {
    if n == 0 {
    } else {
      assert a[..n - 1] == a[..n][..n - 1] && b[..n - 1] == b[..n][..n - 1];
      ExecPrefix(a, b, n - 1);
      assert a[n - 1] == a[..n][n - 1] && b[n - 1] == b[..n][n - 1];
    }
  }

  ghost predicate BurstState(s: State, n: nat, skew: nat) {
    && s.nextId == n + 1
    && s.lastRunAt == (if n == 0 then map[] else map[1 := BurstAt(n)])
    && (forall id :: id in s.runs <==> 1 <= id <= n)
    && (forall id :: 1 <= id <= n ==> s.runs[id].userId == 1 && s.runs[id].started == BurstStart(id, skew))
  }

  lemma BurstRuns(n: nat, skew: nat)
    ensures BurstState(Exec(Burst(n, skew), n), n, skew)
  {
    if n == 0 {
    } else {
      BurstRuns(n - 1, skew);
      ExecPrefix(Burst(n, skew), Burst(n - 1, skew), n - 1);
      BurstNext(Exec(Burst(n - 1, skew), n - 1), n, skew);
    }
  }

  lemma BurstNext(s: State, n: nat, skew: nat)
    requires n > 0 && BurstState(s, n - 1, skew)
    ensures BurstState(Next(s, BurstStep(n, skew)), n, skew)
  {
    if n > 1 { assert BurstAt(n) - BurstAt(n - 1) == COOLDOWN + 1; }
    CooldownLeftMeans(s, 1, BurstAt(n));
  }

  /** The bound of `SweepBound` is the maximum for every skew: some history leaves exactly that many
      runs open. So a user can have five open at once with all clock readings equal, and six with the
      first start 5 ns late - the comment on `run_for` says at most one. */
  lemma MostIsMet(skew: nat) returns (trace: seq<Step>, times: seq<int>)
    ensures Clocked(trace, times) && StartsWithin(trace, skew)
    ensures |trace| > 0 && trace[|trace| - 1].Sweep?
    ensures |RunsOf(Exec(trace, |trace|), 1)| == Most(skew)
  {
    trace, times := BoundIsMet(Most(skew), if Most(skew) == 5 then 0 else 5);
  }

  lemma BoundIsMet(n: nat, skew: nat) returns (trace: seq<Step>, times: seq<int>)
    requires n > 0 && skew <= COOLDOWN && (n - 1) * (COOLDOWN + 1) <= RUN_TTL + skew
    ensures Clocked(trace, times) && StartsWithin(trace, skew)
    ensures |trace| == n + 1 && trace[n].Sweep?
    ensures |RunsOf(Exec(trace, n + 1), 1)| == n
  {
    var end := if BurstAt(n) < skew then skew else BurstAt(n);
    trace := Burst(n, skew) + [Sweep(_ => end)];
    times := seq(n + 2, i requires 0 <= i < n + 2 => if i < n then BurstAt(i + 1) else end);
    BurstClocked(n, skew, trace, times, end);
    BurstRuns(n, skew);
    ExecPrefix(trace, Burst(n, skew), n);
    BurstSwept(Exec(trace, n), n, skew, end);
  }

  lemma BurstSteps(n: nat, skew: nat)
    ensures forall i :: 0 <= i < n ==> Burst(n, skew)[i] == BurstStep(i + 1, skew)
  {
  }

  lemma BurstClocked(n: nat, skew: nat, trace: seq<Step>, times: seq<int>, end: int)
    requires n > 0 && skew <= COOLDOWN && end == if BurstAt(n) < skew then skew else BurstAt(n)
    requires trace == Burst(n, skew) + [Sweep(_ => end)]
    requires |times| == n + 2 && forall i :: 0 <= i < n + 2 ==> times[i] == if i < n then BurstAt(i + 1) else end
    ensures Clocked(trace, times) && StartsWithin(trace, skew)
  {
    BurstSteps(n, skew);
    hide Burst;
    forall i, j | 0 <= i <= j < |times| ensures times[i] <= times[j] {
      hide BurstAt;
      if j < n { BurstGap(i + 1, j + 1); } else if i < n { BurstGap(i + 1, n); }
    }
    forall i | 0 <= i < n ensures ReadWithin(trace[i], times[i], times[i + 1]) {
      assert trace[i] == BurstStep(i + 1, skew);
    }
  }

  lemma BurstGap(i: nat, j: nat)
    requires 0 < i <= j
    ensures BurstAt(j) - BurstAt(i) == (j - i) * (COOLDOWN + 1) >= 0
  {
  }

  lemma BurstSwept(s: State, n: nat, skew: nat, end: int)
    requires n > 0 && BurstState(s, n, skew) && end == if BurstAt(n) < skew then skew else BurstAt(n)
    requires skew <= COOLDOWN && (n - 1) * (COOLDOWN + 1) <= RUN_TTL + skew
    ensures |RunsOf(Next(s, Sweep(_ => end)), 1)| == n
  {
    forall id | id in s.runs ensures !Stale(s.runs[id], end) {
      assert BurstAt(n) - BurstAt(id) == (n - id) * (COOLDOWN + 1);
    }
    assert RunsOf(Next(s, Sweep(_ => end)), 1) == UpTo(n);
  }
}
