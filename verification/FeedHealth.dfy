/** The health of one feed: backend/src/ingest/store.rs, lines 131-219, the outcomes of
    backend/src/ingest/scheduler.rs, lines 118-256, the refresh of backend/src/routes/feeds.rs,
    lines 264-323 and 639-645, and the backoff of backend/src/ingest/mod.rs, lines 111-120. Every database
    statement is one atomic step; a user's refresh may come between any two. Times are seconds. */
module FeedHealth {
  import opened Text

  const MAX_FAILURES := 6
  const BACKOFF_CAP := 6 * 3600
  const CLAIM_LEASE := 300

  /** `RetryAfter` carries the parsed header, if any. */
  datatype FetchError = Disable | RetryAfter(header: Option<int>) | Transient

  /** Where the scheduler stands with the feed. `Counted` lies between the two UPDATEs of
      `record_failure`: the failure is counted, the outcome not yet written. */
  datatype Poll = Idle | Selected | Polling | Counted(newCount: int, error: FetchError)

  datatype Feed = Feed(failures: int, disabled: bool, nextFetch: Option<int>, poll: Poll)

  datatype Step =
    | Select(now: int)
    | Claim(now: int)
    | Stored(now: int, interval: int)
    | NotModified(now: int, interval: int)
    | Unparsable
    | CountFailure(error: FetchError)
    | Settle(now: int, jitter: real)
    | Refresh(now: int)
    | MarkDue(now: int)

  const INITIAL := Feed(0, false, None, Idle)

  // ------------------------------------------------------------ delays

  function Clamp(n: int, low: int, high: int): int {
    if n < low then low else if n > high then high else n
  }

  function PowerOfTwo(n: nat): nat {
    if n == 0 then 1 else 2 * PowerOfTwo(n - 1)
  }

  /** `backoff_secs`; the exponent is at most 23, so nothing saturates. */
  function Backoff(failures: int, jitter: real): int {
    var raw := 60 * PowerOfTwo(Clamp(failures, 1, 24) - 1);
    var capped := if raw < BACKOFF_CAP then raw else BACKOFF_CAP;
    var fraction := if jitter < 0.0 then 0.0 else if jitter > 1.0 then 1.0 else jitter;
    capped + (capped as real * 0.25 * fraction).Floor
  }

  function RetryAfterSecs(header: Option<int>): int {
    Clamp(if header.Some? then header.value else 300, 30, 3600)
  }

  function Delay(newCount: int, error: FetchError, jitter: real): int {
    if error.RetryAfter? then RetryAfterSecs(error.header) else Backoff(newCount, jitter)
  }

  predicate Disables(newCount: int, error: FetchError) {
    error.Disable? || newCount >= MAX_FAILURES
  }

  // ------------------------------------------------------------ the machine

  predicate Due(s: Feed, now: int) {
    !s.disabled && (s.nextFetch.None? || s.nextFetch.value <= now)
  }

  predicate Enabled(s: Feed, step: Step) {
    match step
    case Select(now) => s.poll.Idle? && Due(s, now)
    case Claim(_) => s.poll.Selected?
    case Stored(_, _) => s.poll.Polling?
    case NotModified(_, _) => s.poll.Polling?
    case Unparsable => s.poll.Polling?
    case CountFailure(_) => s.poll.Polling?
    case Settle(_, _) => s.poll.Counted?
    case Refresh(_) => true
    case MarkDue(_) => true
  }

  function Next(s: Feed, step: Step): Feed {
    if !Enabled(s, step) then s
    else
      match step
      case Select(_) => s.(poll := Selected)
      case Claim(now) => s.(nextFetch := Some(now + CLAIM_LEASE), poll := Polling)
      case Stored(now, interval) => s.(failures := 0, nextFetch := Some(now + interval), poll := Idle)
      case NotModified(now, interval) => s.(failures := 0, nextFetch := Some(now + interval), poll := Idle)
      case Unparsable => s.(poll := Idle)
      case CountFailure(error) => s.(failures := s.failures + 1, poll := Counted(s.failures + 1, error))
      case Settle(now, jitter) =>
        s.(disabled := Disables(s.poll.newCount, s.poll.error),
           nextFetch := Some(now + Delay(s.poll.newCount, s.poll.error, jitter)), poll := Idle)
      case Refresh(now) => s.(failures := 0, disabled := false, nextFetch := Some(now))
      case MarkDue(now) => s.(nextFetch := Some(now))
  }

  /** The feed after the first `n` steps of a history. */
  function Exec(trace: seq<Step>, n: nat): Feed
    requires n <= |trace|
  {
    if n == 0 then INITIAL else Next(Exec(trace, n - 1), trace[n - 1])
  }

  // ------------------------------------------------------------ the source's statements

  class FeedRow {
    var failures: int
    var disabled: bool
    var nextFetch: Option<int>
    ghost var poll: Poll

    constructor ()
      ensures View() == INITIAL
    {
      failures, disabled, nextFetch, poll := 0, false, None, Idle;
    }

    ghost function View(): Feed
      reads this
    {
      Feed(failures, disabled, nextFetch, poll)
    }

    method RecordSuccess(now: int, interval: int)
      requires poll.Polling?
      modifies this
      ensures View() == Next(old(View()), Stored(now, interval))
    {
      failures := 0;
      nextFetch := Some(now + interval);
      poll := Idle;
    }

    method RecordNotModified(now: int, interval: int)
      requires poll.Polling?
      modifies this
      ensures View() == Next(old(View()), NotModified(now, interval))
    {
      failures := 0;
      nextFetch := Some(now + interval);
      poll := Idle;
    }

    /** The first UPDATE, with what it returns: the new count and whether the feed was healthy. */
    method BumpFailures(error: FetchError) returns (newCount: int, becameUnhealthy: bool)
      requires poll.Polling?
      modifies this
      ensures View() == Next(old(View()), CountFailure(error)) && poll == Counted(newCount, error)
      ensures becameUnhealthy <==> Alerts(old(View()), CountFailure(error))
    {
      failures := failures + 1;
      newCount := failures;
      becameUnhealthy := newCount == 1 && !disabled;
      poll := Counted(newCount, error);
    }

    /** The second UPDATE. */
    method WriteOutcome(newCount: int, error: FetchError, now: int, jitter: real)
      requires poll == Counted(newCount, error)
      modifies this
      ensures View() == Next(old(View()), Settle(now, jitter))
    {
      var disable, delay;
      match error {
        case Disable => disable, delay := true, Backoff(newCount, jitter);
        case RetryAfter(header) => disable, delay := newCount >= MAX_FAILURES, RetryAfterSecs(header);
        case Transient => disable, delay := newCount >= MAX_FAILURES, Backoff(newCount, jitter);
      }
      disabled := disable;
      nextFetch := Some(now + delay);
      poll := Idle;
    }

    /** Both UPDATEs with nothing in between. */
    method RecordFailure(error: FetchError, now: int, jitter: real) returns (becameUnhealthy: bool)
      requires poll.Polling?
      modifies this
      ensures View() == Next(Next(old(View()), CountFailure(error)), Settle(now, jitter))
      ensures becameUnhealthy <==> Alerts(old(View()), CountFailure(error))
    {
      var newCount;
      newCount, becameUnhealthy := BumpFailures(error);
      WriteOutcome(newCount, error, now, jitter);
    }

    method RefreshFeed(now: int)
      modifies this
      ensures View() == Next(old(View()), Refresh(now))
    {
      disabled, failures, nextFetch := false, 0, Some(now);
    }

    /** A new subscription makes the feed due at once, but does not touch its health. */
    method MarkFeedDue(now: int)
      modifies this
      ensures View() == Next(old(View()), MarkDue(now))
    {
      nextFetch := Some(now);
    }
  }

  // ------------------------------------------------------------ ranges

  /** The latest of a feed's counted failures and refreshes is a refresh that fell between the two
      UPDATEs of a failing poll. */
  predicate Undercut(trace: seq<Step>, n: nat)
    requires n <= |trace|
  {
    if n == 0 then false
    else
      var s, step := Exec(trace, n - 1), trace[n - 1];
      if step.Refresh? then s.poll.Counted?
      else if step.CountFailure? && Enabled(s, step) then false
      else Undercut(trace, n - 1)
  }

  predicate InRange(s: Feed, undercut: bool) {
    && 0 <= s.failures <= MAX_FAILURES
    && (s.poll.Counted? ==>
          && !s.disabled && 1 <= s.poll.newCount <= MAX_FAILURES
          && s.failures == if undercut then 0 else s.poll.newCount)
    && (!s.poll.Counted? && !s.disabled ==> s.failures < MAX_FAILURES)
    && (s.disabled ==> s.poll.Idle? && (s.failures == 0 <==> undercut))
  }

  lemma {:induction false} Ranges(trace: seq<Step>, n: nat)
    requires n <= |trace|
    ensures InRange(Exec(trace, n), Undercut(trace, n))
  {
    hide Delay;
    if n == 0 {
    } else {
      Ranges(trace, n - 1);
    }
  }

  /** Whatever happens, a feed whose poll is settled has fewer than six failures while it is
      enabled; a disabled one has between one and six unless a refresh fell between the two UPDATEs
      that disabled it, and then it has none. */
  lemma HealthBounds(trace: seq<Step>, n: nat)
    requires n <= |trace|
    ensures var s := Exec(trace, n);
            && (!s.disabled && !s.poll.Counted? ==> 0 <= s.failures < MAX_FAILURES)
            && (s.disabled ==> 0 <= s.failures <= MAX_FAILURES)
            && (s.disabled ==> (1 <= s.failures <==> !Undercut(trace, n)))
  {
    hide Exec, Undercut;
    Ranges(trace, n);
  }

  /** Six failures without being disabled is visible exactly between the two UPDATEs of the sixth
      failure in a row. */
  lemma SixFailuresEnabled(trace: seq<Step>, n: nat)
    requires n <= |trace|
    ensures var s := Exec(trace, n);
            !s.disabled && s.failures >= MAX_FAILURES <==>
            s.poll.Counted? && s.poll.newCount == MAX_FAILURES && !Undercut(trace, n)
  {
    hide Exec, Undercut;
    Ranges(trace, n);
  }

  /** A refresh that falls between the two UPDATEs of a poll answered with 410 Gone is lost: the
      feed ends up disabled, with no failure on record. */
  lemma LostRefresh()
    ensures var s := Exec([Select(0), Claim(0), CountFailure(Disable), Refresh(1), Settle(1, 0.0)], 5);
            s.disabled && s.failures == 0
  {
    hide Delay;
    var trace := [Select(0), Claim(0), CountFailure(Disable), Refresh(1), Settle(1, 0.0)];
    assert Exec(trace, 1).poll == Selected;
    assert Exec(trace, 2).poll == Polling;
    assert Exec(trace, 3).poll == Counted(1, Disable);
    assert Exec(trace, 4).failures == 0 && Exec(trace, 4).poll == Counted(1, Disable);
  }

  /** Steps that are neither a counted or settled failure, nor a success, nor a refresh. */
  predicate Bystander(step: Step) {
    step.Select? || step.Claim? || step.Unparsable? || step.MarkDue?
  }

  /** Health is moved by failures, successes and refreshes alone: however often a feed is selected,
      claimed and answered with a body that does not parse, or subscribed to, its failures and
      whether it is disabled stay, and the next failure alerts or not as it would have. */
  lemma {:induction false} BystandersKeepHealth(trace: seq<Step>, i: nat, n: nat)
    requires i <= n <= |trace| && forall j :: i <= j < n ==> Bystander(trace[j])
    ensures var before, after := Exec(trace, i), Exec(trace, n);
            && after.failures == before.failures && after.disabled == before.disabled
            && (before.poll.Counted? ==> after.poll == before.poll)
            && (Healthy(trace, i) <==> Healthy(trace, n))
    decreases n
  {
    if n == i {
    } else {
      hide Delay, Healthy;
      BystandersKeepHealth(trace, i, n - 1);
    }
    hide Exec, Healthy;
    NoFailuresIsHealthy(trace, i);
    NoFailuresIsHealthy(trace, n);
  }

  // ------------------------------------------------------------ alerts

  /** `became_unhealthy` of the failure counted by this step. */
  predicate Alerts(s: Feed, step: Step) {
    step.CountFailure? && Enabled(s, step) && s.failures + 1 == 1 && !s.disabled
  }

  predicate FailsAt(trace: seq<Step>, k: nat) {
    k < |trace| && trace[k].CountFailure? && Enabled(Exec(trace, k), trace[k])
  }

  predicate ResetsAt(trace: seq<Step>, k: nat) {
    && k < |trace| && Enabled(Exec(trace, k), trace[k])
    && (trace[k].Stored? || trace[k].NotModified? || trace[k].Refresh?)
  }

  predicate ResetBetween(trace: seq<Step>, j: nat, n: nat) {
    exists i :: j < i < n && ResetsAt(trace, i)
  }

  /** The feed is healthy after `n` steps: every failure was followed by a success or a refresh. */
  predicate Healthy(trace: seq<Step>, n: nat) {
    forall j :: 0 <= j < n && FailsAt(trace, j) ==> ResetBetween(trace, j, n)
  }

  lemma ResetBetweenGrows(trace: seq<Step>, j: nat, n: nat)
    ensures ResetBetween(trace, j, n + 1) <==> ResetBetween(trace, j, n) || (j < n && ResetsAt(trace, n))
  {
    hide ResetsAt;
    if ResetBetween(trace, j, n + 1) {
      var i :| j < i < n + 1 && ResetsAt(trace, i);
    }
    if j < n && ResetsAt(trace, n) {
      assert j < n < n + 1;
    }
  }

  lemma HealthyStep(trace: seq<Step>, n: nat)
    requires n < |trace|
    ensures Healthy(trace, n + 1) <==> !FailsAt(trace, n) && (Healthy(trace, n) || ResetsAt(trace, n))
  {
    hide FailsAt, ResetsAt, ResetBetween;
    forall j | 0 <= j <= n
      ensures ResetBetween(trace, j, n + 1) <==> ResetBetween(trace, j, n) || (j < n && ResetsAt(trace, n))
    {
      ResetBetweenGrows(trace, j, n);
    }
    assert !ResetBetween(trace, n, n) by { NothingBetween(trace, n); }
    if Healthy(trace, n + 1) {
      assert !FailsAt(trace, n);
      if !ResetsAt(trace, n) {
        forall j | 0 <= j < n && FailsAt(trace, j)
          ensures ResetBetween(trace, j, n)
        {
          assert ResetBetween(trace, j, n + 1);
        }
      }
    } else if !FailsAt(trace, n) {
      var j :| 0 <= j < n + 1 && FailsAt(trace, j) && !ResetBetween(trace, j, n + 1);
      assert j < n && !ResetBetween(trace, j, n);
    }
  }

  lemma NothingBetween(trace: seq<Step>, n: nat)
    ensures !ResetBetween(trace, n, n)
  {
  }

  lemma {:induction false} NoFailuresIsHealthy(trace: seq<Step>, n: nat)
    requires n <= |trace|
    ensures Exec(trace, n).failures == 0 <==> Healthy(trace, n)
  {
    hide Delay, Healthy;
    if n == 0 {
      assert Healthy(trace, 0) by { HealthyAtFirst(trace); }
    } else {
      NoFailuresIsHealthy(trace, n - 1);
      HealthyStep(trace, n - 1);
      Ranges(trace, n - 1);
    }
  }

  lemma HealthyAtFirst(trace: seq<Step>)
    ensures Healthy(trace, 0)
  {
  }

  /** The health notification fires exactly for the failures that directly follow a healthy state:
      once per streak, whatever refreshes come in between. */
  lemma AlertsStartStreaks(trace: seq<Step>, k: nat)
    requires k < |trace|
    ensures Alerts(Exec(trace, k), trace[k]) <==> FailsAt(trace, k) && Healthy(trace, k)
  {
    hide Exec, Healthy, Undercut;
    NoFailuresIsHealthy(trace, k);
    Ranges(trace, k);
  }

  // ------------------------------------------------------------ delays reached

  lemma {:induction false} PowersGrow(m: nat, n: nat)
    requires m <= n
    ensures PowerOfTwo(m) <= PowerOfTwo(n)
  {
    if m == n {
    } else {
      PowersGrow(m, n - 1);
    }
  }

  lemma SmallPowers()
    ensures PowerOfTwo(0) == 1 && PowerOfTwo(5) == 32 && PowerOfTwo(8) == 256 && PowerOfTwo(9) == 512
  {
    assert PowerOfTwo(2) == 4;
    assert PowerOfTwo(4) == 16;
    assert PowerOfTwo(6) == 64;
  }

  /** The six-hour cap is reached from the tenth failure in a row on. */
  lemma CapFromTenth(failures: int)
    ensures 60 * PowerOfTwo(Clamp(failures, 1, 24) - 1) >= BACKOFF_CAP <==> failures >= 10
  {
    SmallPowers();
    hide PowerOfTwo;
    var exponent := Clamp(failures, 1, 24) - 1;
    if failures >= 10 { PowersGrow(9, exponent); } else { PowersGrow(exponent, 8); }
  }

  lemma BackoffBounds(failures: int, jitter: real)
    requires 1 <= failures <= MAX_FAILURES && 0.0 <= jitter < 1.0
    ensures 60 * PowerOfTwo(failures - 1) <= Backoff(failures, jitter)
    ensures 60 <= Backoff(failures, jitter) < 2400
  {
    SmallPowers();
    PowersGrow(0, failures - 1);
    PowersGrow(failures - 1, 5);
    hide PowerOfTwo;
    var raw := 60 * PowerOfTwo(failures - 1);
    Quarter(raw, jitter);
  }

  lemma Quarter(n: int, fraction: real)
    requires 0 < n <= 1920 && 0.0 <= fraction < 1.0
    ensures 0 <= (n as real * 0.25 * fraction).Floor < 480
  {
    var quarter := n as real * 0.25;
    assert 0.0 <= quarter <= 480.0;
    ProductNotNegative(quarter, fraction);
    ProductNotNegative(480.0 - quarter, fraction);
    assert quarter * fraction <= 480.0 * fraction < 480.0;
  }

  lemma ProductNotNegative(a: real, b: real)
    requires 0.0 <= a && 0.0 <= b
    ensures 0.0 <= a * b
  {
  }

  /** Every delay a failing feed is ever given is between 60 and 2400 seconds, so the six-hour cap
      is out of reach, or it is the server's own wish held between 30 seconds and an hour. */
  lemma DelaysReached(trace: seq<Step>, n: nat)
    requires n < |trace| && trace[n].Settle? && Enabled(Exec(trace, n), trace[n]) && 0.0 <= trace[n].jitter < 1.0
    ensures var poll := Exec(trace, n).poll;
            var delay := Delay(poll.newCount, poll.error, trace[n].jitter);
            && Exec(trace, n + 1).nextFetch == Some(trace[n].now + delay)
            && if poll.error.RetryAfter? then 30 <= delay <= 3600 else 60 <= delay < 2400
  {
    Ranges(trace, n);
    hide Undercut, Backoff;
    var poll := Exec(trace, n).poll;
    BackoffBounds(poll.newCount, trace[n].jitter);
  }

  /** Unless someone refreshes the feed or subscribes to it, it is not polled again before the delay it was given. */
  lemma {:induction false} DelayIsKept(trace: seq<Step>, i: nat, k: nat)
    requires i < k <= |trace| && trace[i].Settle? && Enabled(Exec(trace, i), trace[i])
    requires forall j :: i < j < k ==> !trace[j].Refresh? && !trace[j].MarkDue? && !(trace[j].Select? && Enabled(Exec(trace, j), trace[j]))
    ensures Exec(trace, k).poll.Idle? && Exec(trace, k).nextFetch == Exec(trace, i + 1).nextFetch
    ensures k < |trace| && trace[k].Select? && Enabled(Exec(trace, k), trace[k]) ==>
              trace[k].now >= trace[i].now + Delay(Exec(trace, i).poll.newCount, Exec(trace, i).poll.error, trace[i].jitter)
    decreases k
  {
    hide Delay;
    if k == i + 1 {
    } else {
      DelayIsKept(trace, i, k - 1);
    }
  }

  // ------------------------------------------------------------ the policy in figures

  /** Failures in a row: how many polls have failed since the last success or refresh. */
  function InARow(trace: seq<Step>, n: nat): nat
    requires n <= |trace|
  {
    if n == 0 || ResetsAt(trace, n - 1) then 0
    else InARow(trace, n - 1) + if FailsAt(trace, n - 1) then 1 else 0
  }

  /** The counter of a feed is the number of its failures in a row. */
  lemma {:induction false} CounterIsStreak(trace: seq<Step>, n: nat)
    requires n <= |trace|
    ensures Exec(trace, n).failures == InARow(trace, n)
  {
    hide Delay, Disables;
    if n == 0 {
    } else {
      CounterIsStreak(trace, n - 1);
    }
  }

  /** Steps `k` and `n` are the two UPDATEs of one failed poll. */
  predicate FailedPoll(trace: seq<Step>, k: nat, n: nat) {
    && FailsAt(trace, k) && k < n < |trace| && trace[n].Settle? && Enabled(Exec(trace, n), trace[n])
    && forall j :: k < j < n ==> !(trace[j].Settle? && Enabled(Exec(trace, j), trace[j]))
  }

  lemma {:induction false} PollRemembers(trace: seq<Step>, k: nat, n: nat)
    requires FailsAt(trace, k) && k < n <= |trace|
    requires forall j :: k < j < n ==> !(trace[j].Settle? && Enabled(Exec(trace, j), trace[j]))
    ensures Exec(trace, n).poll == Counted(InARow(trace, k + 1), trace[k].error)
    decreases n
  {
    hide Delay, Disables, InARow;
    if n == k + 1 {
      CounterIsStreak(trace, n);
    } else {
      PollRemembers(trace, k, n - 1);
    }
  }

  /** The wait after the `k`-th failure in a row: a minute, doubled each time, and up to a quarter on
      top; or what the server asked for, five minutes if it did not say, from 30 seconds to an hour. */
  ghost predicate WaitsFor(delay: int, failures: int, error: FetchError, jitter: real) {
    match error
    case RetryAfter(None) => delay == 300
    case RetryAfter(Some(secs)) => delay == if secs < 30 then 30 else if secs > 3600 then 3600 else secs
    case _ =>
      1 <= failures <= 6 ==>
        var base := [60, 120, 240, 480, 960, 1920][failures - 1] as real;
        delay as real <= base + base * jitter / 4.0 < delay as real + 1.0
  }

  /** What a failed poll writes, whatever happens between its two UPDATEs: the feed is disabled if and
      only if the answer said so or it was the sixth failure in a row, and the next poll waits. */
  lemma FailureOutcome(trace: seq<Step>, k: nat, n: nat)
    requires FailedPoll(trace, k, n) && 0.0 <= trace[n].jitter < 1.0
    ensures var after, failures := Exec(trace, n + 1), InARow(trace, k + 1);
            && 1 <= failures <= 6
            && (after.disabled <==> trace[k].error == Disable || failures == 6)
            && after.nextFetch.Some?
            && WaitsFor(after.nextFetch.value - trace[n].now, failures, trace[k].error, trace[n].jitter)
  {
    hide Undercut, Delay, InARow, WaitsFor;
    PollRemembers(trace, k, n);
    Ranges(trace, n);
    DelayIsWait(InARow(trace, k + 1), trace[k].error, trace[n].jitter);
  }

  lemma DelayIsWait(failures: int, error: FetchError, jitter: real)
    requires 1 <= failures <= 6 && 0.0 <= jitter < 1.0
    ensures WaitsFor(Delay(failures, error, jitter), failures, error, jitter)
  {
    FirstPowers();
    hide PowerOfTwo;
    if !error.RetryAfter? {
      var base := [60, 120, 240, 480, 960, 1920][failures - 1];
      assert 60 * PowerOfTwo(failures - 1) == base;
      assert base as real * 0.25 * jitter == base as real * jitter / 4.0;
    }
  }

  lemma FirstPowers()
    ensures PowerOfTwo(0) == 1 && PowerOfTwo(1) == 2 && PowerOfTwo(2) == 4
    ensures PowerOfTwo(3) == 8 && PowerOfTwo(4) == 16 && PowerOfTwo(5) == 32
  {
    assert PowerOfTwo(2) == 4;
    assert PowerOfTwo(4) == 16;
  }

  /** When the feed was last told to be polled again, and from when on: five minutes after a claim, an
      interval after a success, at once after a refresh or a subscription. */
  function DueFrom(trace: seq<Step>, n: nat): Option<int>
    requires n <= |trace|
  {
    if n == 0 then None
    else if !Enabled(Exec(trace, n - 1), trace[n - 1]) then DueFrom(trace, n - 1)
    else
      match trace[n - 1]
      case Claim(now) => Some(now + 300)
      case Stored(now, interval) => Some(now + interval)
      case NotModified(now, interval) => Some(now + interval)
      case Refresh(now) => Some(now)
      case MarkDue(now) => Some(now)
      case Settle(_, _) => Exec(trace, n).nextFetch
      case _ => DueFrom(trace, n - 1)
  }

  /** A feed at rest is selected exactly when it is enabled and that time has come. */
  lemma SelectedWhenDue(trace: seq<Step>, n: nat, now: int)
    requires n <= |trace|
    ensures Enabled(Exec(trace, n), Select(now)) <==>
            && Exec(trace, n).poll == Idle && !Exec(trace, n).disabled
            && match DueFrom(trace, n) case None => true case Some(time) => time <= now
  {
    DueIsNextFetch(trace, n);
  }

  lemma {:induction false} DueIsNextFetch(trace: seq<Step>, n: nat)
    requires n <= |trace|
    ensures Exec(trace, n).nextFetch == DueFrom(trace, n)
  {
    hide Delay, Disables;
    if n == 0 {
    } else {
      DueIsNextFetch(trace, n - 1);
    }
  }
}
