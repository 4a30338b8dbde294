/** backend/src/digest/cron.rs, lines 46-65 and 109-128: matching an instant and the bounded
    minute-by-minute search, over an arbitrary time zone. */
module CronSearch {
  import opened Text
  import opened Calendar
  import opened Cron

  const NANOS := 1_000_000_000
  const MINUTE := 60 * NANOS
  const DAY_MINUTES := 24 * 60
  const MAX_MINUTES := 366 * 24 * 60 * 2

  /** A time zone: the offset from UTC, in seconds, in force at a UTC second. Instants are
      nanoseconds since the Unix epoch. The zone database is not part of this model. */
  type Zone = int -> int

  function LocalSecond(z: Zone, t: int): int {
    t / NANOS + z(t / NANOS)
  }

  function DayOfMinute(q: int): int {
    q / DAY_MINUTES + UNIX_EPOCH_DAY
  }

  /** The match on one local wall-clock minute, counted from the epoch. */
  predicate MatchesMinute(c: Cron, q: int) {
    var date := DateOf(DayOfMinute(q));
    && c.minute.Contains(q % 60)
    && c.hour.Contains(q % DAY_MINUTES / 60)
    && c.month.Contains(date.month)
    && MatchesDay(c, date.day, Weekday(DayOfMinute(q)))
  }

  /** Day of month OR day of week when both are restricted. */
  predicate MatchesDay(c: Cron, day: int, weekday: int) {
    match (c.dom, c.dow)
    case (Any, Any) => true
    case (_, Any) => c.dom.Contains(day)
    case (Any, _) => c.dow.Contains(weekday)
    case (_, _) => c.dom.Contains(day) || c.dow.Contains(weekday)
  }

  /** `Cron::matches` on an instant seen in zone `z`. */
  predicate Matches(c: Cron, z: Zone, t: int) {
    MatchesMinute(c, LocalSecond(z, t) / 60)
  }

  /** Where the search starts: one minute on, less the local second and the nanoseconds. */
  function Start(z: Zone, after: int): (t: int)
    ensures after < t <= after + MINUTE
  {
    var t := after + MINUTE;
    t - (LocalSecond(z, t) % 60) * NANOS - t % NANOS
  }

  /** The `k`-th candidate of the search. */
  function Candidate(z: Zone, after: int, k: int): int {
    Start(z, after) + k * MINUTE
  }

  /** What the search returns: the first candidate that matches, or nothing when none of the
      candidates within the cap does. */
  ghost predicate IsNext(c: Cron, z: Zone, after: int, r: Option<int>) {
    match r
    case Some(t) =>
      exists k :: 0 <= k < MAX_MINUTES && t == Candidate(z, after, k) && Matches(c, z, t)
               && forall j :: 0 <= j < k ==> !Matches(c, z, Candidate(z, after, j))
    case None => forall j :: 0 <= j < MAX_MINUTES ==> !Matches(c, z, Candidate(z, after, j))
  }

  // ------------------------------------------------- the promise, on the civil calendar

  /** What a schedule asks of a civil minute: minute, hour and month from their fields, and the day
      from the one field that restricts it, or from either of two. Day 0 is a Monday. */
  predicate Admits(c: Cron, d: Date, h: int, mi: int)
    requires IsDate(d)
  {
    var weekday := (DayNumber(d) + 1) % 7;
    && Lists(c.minute, mi) && Lists(c.hour, h) && Lists(c.month, d.month)
    && if c.dom.Any? || c.dow.Any? then Lists(c.dom, d.day) && Lists(c.dow, weekday)
       else Lists(c.dom, d.day) || Lists(c.dow, weekday)
  }

  predicate Lists(f: Field, v: int) {
    match f
    case Any => true
    case Values(vs) => v in vs
  }

  /** In zone `z`, instant `t` lies in minute `mi` of hour `h` of day `d`; 1970-01-01 has day number
      719162. */
  predicate CivilTime(z: Zone, t: int, d: Date, h: int, mi: int) {
    && IsDate(d) && 0 <= h < 24 && 0 <= mi < 60
    && 0 <= t / 1_000_000_000 + z(t / 1_000_000_000) - ((DayNumber(d) - 719162) * 86400 + h * 3600 + mi * 60) < 60
  }

  ghost predicate AdmittedAt(c: Cron, z: Zone, t: int) {
    exists d, h, mi :: CivilTime(z, t, d, h, mi) && Admits(c, d, h, mi)
  }

  /** The first candidate: at most a minute after the input, on a whole second, and second 0 under
      the offset in force a minute after the input. */
  predicate StartsAt(z: Zone, after: int, s: int) {
    && after < s <= after + 60_000_000_000 && s % 1_000_000_000 == 0
    && (s / 1_000_000_000 + z((after + 60_000_000_000) / 1_000_000_000)) % 60 == 0
  }

  /** The answer is the first of 732 days of minutes whose civil time the schedule admits, and there
      is none exactly when it admits none of them. */
  ghost predicate CivilNext(c: Cron, z: Zone, after: int, r: Option<int>) {
    exists s :: StartsAt(z, after, s) && CivilNextFrom(c, z, s, r)
  }

  function MinutesOn(s: int, j: int): int {
    s + j * 60_000_000_000
  }

  ghost predicate CivilNextFrom(c: Cron, z: Zone, s: int, r: Option<int>) {
    match r
    case Some(t) =>
      exists k :: 0 <= k < 732 * 1440 && t == MinutesOn(s, k) && AdmittedAt(c, z, t)
               && forall j :: 0 <= j < k ==> !AdmittedAt(c, z, MinutesOn(s, j))
    case None => forall j :: 0 <= j < 732 * 1440 ==> !AdmittedAt(c, z, MinutesOn(s, j))
  }

  lemma MinuteSplits(q: int)
    ensures q * 60 == q / 1440 * 86400 + q % 1440 / 60 * 3600 + q % 60 * 60
    ensures 0 <= q % 1440 / 60 < 24
  {
    var day, rest := q / 1440, q % 1440;
    Remainder(q, 60, 24 * day + rest / 60, rest % 60);
  }

  lemma CivilTimeOf(z: Zone, t: int) returns (d: Date, h: int, mi: int)
    ensures CivilTime(z, t, d, h, mi)
  {
    hide YearOf, DaysBeforeYear, DaysBeforeMonth, IsLeap, DayNumber, DateOf;
    var q := LocalSecond(z, t) / 60;
    d, h, mi := DateOf(DayOfMinute(q)), q % DAY_MINUTES / 60, q % 60;
    DayNumberOfDate(DayOfMinute(q));
    MinuteSplits(q);
  }

  lemma MatchesOnDate(c: Cron, z: Zone, t: int, d: Date, h: int, mi: int)
    requires CivilTime(z, t, d, h, mi)
    ensures Matches(c, z, t) <==> Admits(c, d, h, mi)
  {
    hide YearOf, DaysBeforeYear, DaysBeforeMonth, IsLeap, DayNumber, DateOf;
    var q := (DayNumber(d) - UNIX_EPOCH_DAY) * DAY_MINUTES + h * 60 + mi;
    assert LocalSecond(z, t) / 60 == q;
    MinuteParts(DayNumber(d) - UNIX_EPOCH_DAY, h, mi);
    DateOfDayNumber(d);
  }

  lemma MatchesIffAdmitted(c: Cron, z: Zone, t: int)
    ensures Matches(c, z, t) <==> AdmittedAt(c, z, t)
  {
    hide Matches, Admits, DayNumber;
    var d, h, mi := CivilTimeOf(z, t);
    MatchesOnDate(c, z, t, d, h, mi);
    forall e, i, n | CivilTime(z, t, e, i, n)
      ensures Matches(c, z, t) <==> Admits(c, e, i, n)
    {
      MatchesOnDate(c, z, t, e, i, n);
    }
  }

  lemma StartIsFirst(z: Zone, after: int)
    ensures StartsAt(z, after, Start(z, after))
  {
    var t := after + MINUTE;
    var s := t / NANOS;
    var back := LocalSecond(z, t) % 60;
    assert Start(z, after) == (s - back) * NANOS;
    assert Start(z, after) / NANOS == s - back;
  }

  lemma CandidateIsTried(c: Cron, z: Zone, after: int, j: int)
    ensures Candidate(z, after, j) == MinutesOn(Start(z, after), j)
    ensures Matches(c, z, Candidate(z, after, j)) <==> AdmittedAt(c, z, MinutesOn(Start(z, after), j))
  {
    hide Matches, AdmittedAt, Start;
    MatchesIffAdmitted(c, z, Candidate(z, after, j));
  }

  lemma FirstMatchIsCivil(c: Cron, z: Zone, after: int, r: Option<int>)
    requires IsNext(c, z, after, r)
    ensures CivilNext(c, z, after, r)
  {
    hide Matches, AdmittedAt, Start, StartsAt, Candidate, MinutesOn;
    var s := Start(z, after);
    StartIsFirst(z, after);
    forall j: int
      ensures Candidate(z, after, j) == MinutesOn(s, j)
      ensures Matches(c, z, MinutesOn(s, j)) <==> AdmittedAt(c, z, MinutesOn(s, j))
    {
      CandidateIsTried(c, z, after, j);
    }
    assert CivilNextFrom(c, z, s, r);
  }

  lemma MinuteParts(day: int, h: int, mi: int)
    requires 0 <= h < 24 && 0 <= mi < 60
    ensures var q := day * DAY_MINUTES + h * 60 + mi;
            q / DAY_MINUTES == day && q % DAY_MINUTES / 60 == h && q % 60 == mi
  {
    assert day * DAY_MINUTES + h * 60 + mi == (day * 24 + h) * 60 + mi;
  }

  /** `Cron::next_after`. */
  method NextAfter(c: Cron, z: Zone, after: int) returns (r: Option<int>)
    ensures IsNext(c, z, after, r) && CivilNext(c, z, after, r)
  {
    hide Matches, Start, CivilNext;
    var candidate := Start(z, after);
    for i := 0 to MAX_MINUTES
      invariant candidate == Candidate(z, after, i)
      invariant forall j :: 0 <= j < i ==> !Matches(c, z, Candidate(z, after, j))
    {
      if Matches(c, z, candidate) {
        FirstMatchIsCivil(c, z, after, Some(candidate));
        return Some(candidate);
      }
      candidate := candidate + MINUTE;
    }
    r := None;
    FirstMatchIsCivil(c, z, after, r);
  }

  // -------------------------------------------- the search on the calendar

  /** The UTC instant of a civil minute under an offset of `m` minutes. */
  function InstantOf(d: Date, h: int, mi: int, m: int): int
    requires IsDate(d)
  {
    ((DayNumber(d) - 719162) * 1440 + h * 60 + mi - m) * 60_000_000_000
  }

  predicate IsMinute(d: Date, h: int, mi: int) {
    IsDate(d) && 0 <= h < 24 && 0 <= mi < 60
  }

  lemma MinuteIsCivil(z: Zone, m: int, d: Date, h: int, mi: int)
    requires IsMinute(d, h, mi) && forall s :: z(s) == 60 * m
    ensures CivilTime(z, InstantOf(d, h, mi, m), d, h, mi)
  {
    hide DayNumber;
    var u := InstantOf(d, h, mi, m);
    assert u == ((DayNumber(d) - 719162) * 86400 + h * 3600 + mi * 60 - 60 * m) * 1_000_000_000;
  }

  lemma CivilIsMinute(z: Zone, m: int, t: int, d: Date, h: int, mi: int)
    requires t % 60_000_000_000 == 0 && CivilTime(z, t, d, h, mi) && forall s :: z(s) == 60 * m
    ensures t == InstantOf(d, h, mi, m)
  {
    hide DayNumber;
    var q := t / 60_000_000_000;
    assert t / 1_000_000_000 == 60 * q;
  }

  lemma StartOfMinute(z: Zone, m: int, after: int, s: int)
    requires StartsAt(z, after, s) && forall x :: z(x) == 60 * m
    ensures s % 60_000_000_000 == 0
  {
    var q := s / 1_000_000_000;
    assert (q + 60 * m) % 60 == q % 60;
  }

  lemma MinuteIsAdmitted(c: Cron, z: Zone, m: int, d: Date, h: int, mi: int)
    requires IsMinute(d, h, mi) && forall x :: z(x) == 60 * m
    ensures AdmittedAt(c, z, InstantOf(d, h, mi, m)) <==> Admits(c, d, h, mi)
  {
    hide AdmittedAt, Matches, Admits, CivilTime, InstantOf;
    MinuteIsCivil(z, m, d, h, mi);
    MatchesOnDate(c, z, InstantOf(d, h, mi, m), d, h, mi);
    MatchesIffAdmitted(c, z, InstantOf(d, h, mi, m));
  }

  lemma InstantIsWhole(d: Date, h: int, mi: int, m: int)
    requires IsDate(d)
    ensures InstantOf(d, h, mi, m) % 60_000_000_000 == 0
  {
  }

  lemma WholeMinutesApart(s: int, u: int)
    requires s % 60_000_000_000 == 0 && u % 60_000_000_000 == 0
    ensures u == MinutesOn(s, (u - s) / 60_000_000_000)
  {
  }

  lemma NoEarlierMinute(c: Cron, z: Zone, m: int, after: int, s: int, k: int, d: Date, h: int, mi: int)
    requires StartsAt(z, after, s) && k >= 0 && forall x :: z(x) == 60 * m
    requires forall j :: 0 <= j < k ==> !AdmittedAt(c, z, MinutesOn(s, j))
    requires IsMinute(d, h, mi) && Admits(c, d, h, mi) && after < InstantOf(d, h, mi, m)
    ensures InstantOf(d, h, mi, m) >= MinutesOn(s, k)
  {
    hide AdmittedAt, Admits, InstantOf;
    MinuteIsAdmitted(c, z, m, d, h, mi);
    StartOfMinute(z, m, after, s);
    InstantIsWhole(d, h, mi, m);
    WholeMinutesApart(s, InstantOf(d, h, mi, m));
  }

  lemma AnswerIsMinute(c: Cron, z: Zone, m: int, t: int) returns (d: Date, h: int, mi: int)
    requires AdmittedAt(c, z, t) && t % 60_000_000_000 == 0 && forall x :: z(x) == 60 * m
    ensures IsMinute(d, h, mi) && t == InstantOf(d, h, mi, m) && Admits(c, d, h, mi)
  {
    hide Admits, InstantOf;
    d, h, mi :| CivilTime(z, t, d, h, mi) && Admits(c, d, h, mi);
    CivilIsMinute(z, m, t, d, h, mi);
  }

  /** No admitted minute lies after the input and before `t`. */
  ghost predicate NothingBefore(c: Cron, m: int, after: int, t: int) {
    forall d, h, mi :: IsMinute(d, h, mi) && Admits(c, d, h, mi) && after < InstantOf(d, h, mi, m) ==>
      InstantOf(d, h, mi, m) >= t
  }

  lemma NothingTried(c: Cron, z: Zone, m: int, after: int, s: int, k: int)
    requires StartsAt(z, after, s) && k >= 0 && forall x :: z(x) == 60 * m
    requires forall j :: 0 <= j < k ==> !AdmittedAt(c, z, MinutesOn(s, j))
    ensures NothingBefore(c, m, after, MinutesOn(s, k))
  {
    hide AdmittedAt, Admits, InstantOf, StartsAt, MinutesOn;
    forall d, h, mi | IsMinute(d, h, mi) && Admits(c, d, h, mi) && after < InstantOf(d, h, mi, m)
      ensures InstantOf(d, h, mi, m) >= MinutesOn(s, k)
    {
      NoEarlierMinute(c, z, m, after, s, k, d, h, mi);
    }
  }

  lemma FoundOnCalendar(c: Cron, z: Zone, m: int, after: int, t: int, d: Date, h: int, mi: int)
    requires NothingBefore(c, m, after, t) && AdmittedAt(c, z, t) && after < t && t % 60_000_000_000 == 0
    requires IsMinute(d, h, mi) && forall x :: z(x) == 60 * m
    ensures t == InstantOf(d, h, mi, m) <==>
            && Admits(c, d, h, mi) && after < InstantOf(d, h, mi, m)
            && NothingBefore(c, m, after, InstantOf(d, h, mi, m))
  {
    hide AdmittedAt, Admits, InstantOf;
    var e, i, n := AnswerIsMinute(c, z, m, t);
    MinuteIsAdmitted(c, z, m, d, h, mi);
  }

  lemma MinutesOnBounds(z: Zone, m: int, after: int, s: int, k: int)
    requires StartsAt(z, after, s) && 0 <= k && forall x :: z(x) == 60 * m
    ensures MinutesOn(s, k) % 60_000_000_000 == 0 && after < MinutesOn(s, k)
    ensures k < 732 * 1440 ==> MinutesOn(s, k) <= after + 732 * 86_400_000_000_000
    ensures k >= 732 * 1440 ==> MinutesOn(s, k) > after + 732 * 86_400_000_000_000
  {
    StartOfMinute(z, m, after, s);
    Remainder(MinutesOn(s, k), 60_000_000_000, s / 60_000_000_000 + k, 0);
  }

  lemma FoundIsNext(c: Cron, z: Zone, m: int, after: int, s: int, k: int, d: Date, h: int, mi: int)
    requires StartsAt(z, after, s) && 0 <= k < 732 * 1440 && AdmittedAt(c, z, MinutesOn(s, k))
    requires forall j :: 0 <= j < k ==> !AdmittedAt(c, z, MinutesOn(s, j))
    requires IsMinute(d, h, mi) && forall x :: z(x) == 60 * m
    ensures MinutesOn(s, k) == InstantOf(d, h, mi, m) <==>
            && Admits(c, d, h, mi) && after < InstantOf(d, h, mi, m) <= after + 732 * 86_400_000_000_000
            && NothingBefore(c, m, after, InstantOf(d, h, mi, m))
  {
    hide AdmittedAt, Admits, InstantOf, NothingBefore, StartsAt, MinutesOn;
    NothingTried(c, z, m, after, s, k);
    MinutesOnBounds(z, m, after, s, k);
    FoundOnCalendar(c, z, m, after, MinutesOn(s, k), d, h, mi);
  }

  lemma NoneIsNext(c: Cron, z: Zone, m: int, after: int, s: int, d: Date, h: int, mi: int)
    requires StartsAt(z, after, s) && IsMinute(d, h, mi) && forall x :: z(x) == 60 * m
    requires forall j :: 0 <= j < 732 * 1440 ==> !AdmittedAt(c, z, MinutesOn(s, j))
    ensures !(Admits(c, d, h, mi) && after < InstantOf(d, h, mi, m) <= after + 732 * 86_400_000_000_000)
  {
    hide AdmittedAt, Admits, InstantOf, NothingBefore, StartsAt, MinutesOn;
    NothingTried(c, z, m, after, s, 732 * 1440);
    MinutesOnBounds(z, m, after, s, 732 * 1440);
    NothingBeforeEarlier(c, m, after, MinutesOn(s, 732 * 1440), d, h, mi);
  }

  /** Under a fixed offset of whole minutes a civil minute is the answer if and only if the schedule
      admits it, it is the first such minute after the input, and it comes within 732 days. */
  lemma NextOnCalendar(c: Cron, z: Zone, m: int, after: int, r: Option<int>, d: Date, h: int, mi: int)
    requires CivilNext(c, z, after, r) && IsMinute(d, h, mi) && forall x :: z(x) == 60 * m
    ensures r == Some(InstantOf(d, h, mi, m)) <==>
            && Admits(c, d, h, mi) && after < InstantOf(d, h, mi, m) <= after + 732 * 86_400_000_000_000
            && NothingBefore(c, m, after, InstantOf(d, h, mi, m))
  {
    hide AdmittedAt, Admits, InstantOf, NothingBefore, StartsAt, MinutesOn;
    var s :| StartsAt(z, after, s) && CivilNextFrom(c, z, s, r);
    if r.None? {
      NoneIsNext(c, z, m, after, s, d, h, mi);
    } else {
      var k :| 0 <= k < 732 * 1440 && r.value == MinutesOn(s, k)
            && forall j :: 0 <= j < k ==> !AdmittedAt(c, z, MinutesOn(s, j));
      FoundIsNext(c, z, m, after, s, k, d, h, mi);
    }
  }

  lemma NothingBeforeEarlier(c: Cron, m: int, after: int, t: int, d: Date, h: int, mi: int)
    requires NothingBefore(c, m, after, t) && IsMinute(d, h, mi)
    ensures Admits(c, d, h, mi) && after < InstantOf(d, h, mi, m) ==> InstantOf(d, h, mi, m) >= t
  {
    hide Admits, InstantOf;
  }

  /** And every answer is a civil minute: there is none if and only if the schedule admits no minute
      of those 732 days. */
  lemma NoneOnCalendar(c: Cron, z: Zone, m: int, after: int, r: Option<int>)
    requires CivilNext(c, z, after, r) && forall x :: z(x) == 60 * m
    ensures r.None? <==> forall d, h, mi :: IsMinute(d, h, mi) && Admits(c, d, h, mi) ==>
              !(after < InstantOf(d, h, mi, m) <= after + 732 * 86_400_000_000_000)
  {
    hide AdmittedAt, Admits, InstantOf, StartsAt, MinutesOn;
    var s :| StartsAt(z, after, s) && CivilNextFrom(c, z, s, r);
    if r.None? {
      forall d, h, mi | IsMinute(d, h, mi) && Admits(c, d, h, mi)
        ensures !(after < InstantOf(d, h, mi, m) <= after + 732 * 86_400_000_000_000)
      {
        NoneIsNext(c, z, m, after, s, d, h, mi);
      }
    } else {
      var k :| 0 <= k < 732 * 1440 && r.value == MinutesOn(s, k);
      MinutesOnBounds(z, m, after, s, k);
      var d, h, mi := AnswerIsMinute(c, z, m, r.value);
    }
  }

  // -------------------------------------------- the search in terms of instants

  /** The minute grid of a search: the instants a whole number of minutes from its start. */
  ghost predicate OnGrid(z: Zone, after: int, t: int) {
    t % MINUTE == Start(z, after) % MINUTE
  }

  lemma GridIsCandidates(z: Zone, after: int, t: int)
    requires OnGrid(z, after, t) && after < t
    ensures t >= Start(z, after)
    ensures t == Candidate(z, after, (t - Start(z, after)) / MINUTE)
  {
    hide Start;
    SameRemainder(t, Start(z, after));
  }

  lemma SameRemainder(a: int, b: int)
    requires a % MINUTE == b % MINUTE && a > b - MINUTE
    ensures a >= b && a == b + (a - b) / MINUTE * MINUTE
  {
    var q := a / MINUTE - b / MINUTE;
    assert a - b == q * MINUTE;
    Remainder(a - b, MINUTE, q, 0);
  }

  lemma CandidateIsOnGrid(z: Zone, after: int, k: int)
    requires k >= 0
    ensures OnGrid(z, after, Candidate(z, after, k))
    ensures after + k * MINUTE < Candidate(z, after, k) <= after + (k + 1) * MINUTE
  {
    hide Start, LocalSecond;
    var t := Start(z, after);
    Remainder(Candidate(z, after, k), MINUTE, t / MINUTE + k, t % MINUTE);
  }

  /** Soundness and minimality in every zone: the answer is the least matching instant of the grid
      after the input, and there is none exactly when no grid instant of the 732-day window
      matches. */
  lemma NextIsLeast(c: Cron, z: Zone, after: int, r: Option<int>)
    requires IsNext(c, z, after, r)
    ensures r.Some? ==> OnGrid(z, after, r.value) && after < r.value && Matches(c, z, r.value)
    ensures r.Some? ==> forall t :: OnGrid(z, after, t) && after < t < r.value ==> !Matches(c, z, t)
    ensures r.None? <==> forall t :: OnGrid(z, after, t) && after < t <= after + MAX_MINUTES * MINUTE ==> !Matches(c, z, t)
  {
    hide Matches, Candidate, OnGrid, Start;
    match r
    case Some(next) =>
      var k :| 0 <= k < MAX_MINUTES && next == Candidate(z, after, k)
            && forall j :: 0 <= j < k ==> !Matches(c, z, Candidate(z, after, j));
      CandidateIsOnGrid(z, after, k);
      forall t | OnGrid(z, after, t) && after < t < next ensures !Matches(c, z, t) {
        EarlierCandidate(z, after, t, k);
      }
    case None =>
      forall t | OnGrid(z, after, t) && after < t <= after + MAX_MINUTES * MINUTE ensures !Matches(c, z, t) {
        CandidateIsOnGrid(z, after, MAX_MINUTES);
        EarlierCandidate(z, after, t, MAX_MINUTES);
      }
  }

  lemma EarlierCandidate(z: Zone, after: int, t: int, k: int)
    requires OnGrid(z, after, t) && after < t < Candidate(z, after, k)
    ensures exists j :: 0 <= j < k && t == Candidate(z, after, j)
  {
    GridIsCandidates(z, after, t);
    assert 0 <= (t - Start(z, after)) / MINUTE < k;
  }

  // -------------------------------------------- where the grid lies

  /** The grid is that of the UTC minutes exactly when the offset in force one minute after the
      input is a whole number of minutes; no other second of the zone matters. */
  lemma GridIsUtcMinutes(z: Zone, after: int)
    ensures Start(z, after) % MINUTE == 0 <==> z((after + MINUTE) / NANOS) % 60 == 0
    ensures z((after + MINUTE) / NANOS) % 60 == 0 ==> Start(z, after) == (after / MINUTE + 1) * MINUTE
  {
    var t := after + MINUTE;
    var s := t / NANOS;
    var back := LocalSecond(z, t) % 60;
    assert Start(z, after) == (s - back) * NANOS;
    ScaledRemainder(s - back);
    OffsetRemainder(s, z(s));
    if z(s) % 60 == 0 {
      Remainder(t, MINUTE, s / 60, s % 60 * NANOS + t % NANOS);
      Remainder(after, MINUTE, s / 60 - 1, s % 60 * NANOS + t % NANOS);
    }
  }

  lemma ScaledRemainder(seconds: int)
    ensures seconds * NANOS % MINUTE == seconds % 60 * NANOS
  {
    Remainder(seconds * NANOS, MINUTE, seconds / 60, seconds % 60 * NANOS);
  }

  lemma OffsetRemainder(s: int, offset: int)
    ensures (s - (s + offset) % 60) % 60 == 0 <==> offset % 60 == 0
    ensures offset % 60 == 0 ==> (s + offset) % 60 == s % 60
  {
    var e := (s + offset) / 60;
    assert s - (s + offset) % 60 == 60 * e - offset;
  }

  /** The local clock shows second 0 at the start of the search exactly when the offset there
      agrees, modulo a minute, with the offset one minute after the input. */
  lemma StartAligned(z: Zone, after: int)
    ensures LocalSecond(z, Start(z, after)) % 60 == 0 <==>
            (z(Start(z, after) / NANOS) - z((after + MINUTE) / NANOS)) % 60 == 0
  {
    var t := after + MINUTE;
    var s := t / NANOS;
    var back := LocalSecond(z, t) % 60;
    assert Start(z, after) == (s - back) * NANOS;
    assert Start(z, after) / NANOS == s - back;
    var d := z(s - back) - z(s);
    assert (LocalSecond(z, t) - back) % 60 == 0;
    assert LocalSecond(z, Start(z, after)) == (LocalSecond(z, t) - back) + d;
  }

  ghost predicate IsBoundary(t: int) {
    t % MINUTE == 0
  }

  /** So, where that one offset is a whole number of minutes, the answer is the least matching UTC
      minute after the input. */
  lemma NextIsLeastBoundary(c: Cron, z: Zone, after: int, r: Option<int>)
    requires z((after + MINUTE) / NANOS) % 60 == 0 && IsNext(c, z, after, r)
    ensures r.Some? ==> IsBoundary(r.value) && after < r.value && Matches(c, z, r.value)
    ensures r.Some? ==> forall t :: IsBoundary(t) && after < t < r.value ==> !Matches(c, z, t)
    ensures r.None? <==> forall t :: IsBoundary(t) && after < t <= after + MAX_MINUTES * MINUTE ==> !Matches(c, z, t)
  {
    hide Matches, Start, IsNext;
    GridIsUtcMinutes(z, after);
    assert forall t :: IsBoundary(t) <==> OnGrid(z, after, t);
    NextIsLeast(c, z, after, r);
    hide OnGrid, IsBoundary;
  }
}
