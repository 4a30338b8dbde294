/** The two-year cap of backend/src/digest/cron.rs as a theorem about the calendar: in a zone
    with a fixed offset, which accepted schedules always find a next run. */
module CronHorizon {
  import opened Text
  import opened Calendar
  import opened Cron
  import opened CronSearch

  function FixedOffset(offset: int): Zone {
    _ => offset
  }

  /** The month and day exist in a common year and the schedule admits both. */
  predicate AdmitsCommonDate(c: Cron, m: int, d: int) {
    1 <= m <= 12 && 1 <= d <= MonthDays(false, m) && c.month.Contains(m) && c.dom.Contains(d)
  }

  /** The guard a caller can check: only the day of month restricts the day, and every month and
      day the schedule admits is 29 February or no date at all. */
  ghost predicate NoCommonDate(c: Cron) {
    c.dow.Any? && c.dom.Values? && forall m, d :: !AdmitsCommonDate(c, m, d)
  }

  ghost predicate FindsNext(c: Cron, z: Zone, after: int) {
    exists k :: 0 <= k < MAX_MINUTES && Matches(c, z, Candidate(z, after, k))
  }

  /** The horizon theorem, both directions: an accepted schedule finds a next run from every
      instant if and only if it is not one of the dateless or 29-February-only schedules. */
  lemma Horizon(expr: string, c: Cron, offset: int)
    requires CronOf(expr) == Some(c)
    ensures (forall after :: FindsNext(c, FixedOffset(offset), after)) <==> !NoCommonDate(c)
  {
    ParsedFits(expr, c);
    if NoCommonDate(c) {
      var after := CommonWindow(c, offset);
      assert !FindsNext(c, FixedOffset(offset), after);
    } else {
      forall after ensures FindsNext(c, FixedOffset(offset), after) {
        AlwaysFinds(c, offset, after);
      }
    }
  }

  // ------------------------------------------------- local minutes advance by one

  /** In a fixed-offset zone the candidates are consecutive local minutes. */
  lemma CandidateMinute(offset: int, after: int, k: int)
    ensures var z := FixedOffset(offset);
            LocalSecond(z, Candidate(z, after, k)) / 60 == LocalSecond(z, Start(z, after)) / 60 + k
  {
    var z := FixedOffset(offset);
    var t := Start(z, after);
    assert t + k * MINUTE == t + (k * 60) * NANOS;
    assert (t + (k * 60) * NANOS) / NANOS == t / NANOS + k * 60;
  }

  // -------------------------------------------------------- what parsing yields

  predicate Fits(f: Field, min: int, max: int) {
    f.Any? || exists v :: v in f.vs && min <= v <= max
  }

  predicate CronFits(c: Cron) {
    Fits(c.minute, 0, 59) && Fits(c.hour, 0, 23) && Fits(c.month, 1, 12) && Fits(c.dow, 0, 6)
  }

  lemma ParsedFits(expr: string, c: Cron)
    requires CronOf(expr) == Some(c)
    ensures CronFits(c)
  {
    hide FieldOf, DowOf;
    var parts := Words(expr);
    FieldFits(parts[0], 0, 59);
    FieldFits(parts[1], 0, 23);
    FieldFits(parts[3], 1, 12);
    DowFits(parts[4]);
  }

  lemma FieldFits(spec: string, min: int, max: int)
    requires 0 <= min <= max < 0x8000_0000 && FieldOf(spec, min, max).Some?
    ensures Fits(FieldOf(spec, min, max).value, min, max)
  {
    if FieldOf(spec, min, max).value.Values? { FieldDenotes(spec, min, max); }
  }

  lemma DowFits(spec: string)
    requires DowOf(spec).Some?
    ensures Fits(DowOf(spec).value, 0, 6)
  {
    if DowOf(spec).value.Values? {
      DowFoldsSunday(spec);
      assert DowOf(spec).value.vs[0] in DowOf(spec).value.vs;
    }
  }

  lemma Pick(f: Field, min: int, max: int) returns (v: int)
    requires min <= max && Fits(f, min, max)
    ensures min <= v <= max && f.Contains(v)
  {
    if f.Any? { v := min; } else { v :| v in f.vs && min <= v <= max; }
  }

  // ------------------------------------------------------------- the positive half

  /** A day the schedule admits lies within any 372 consecutive days. */
  lemma AdmittedDay(c: Cron, from: int) returns (n: int)
    requires CronFits(c) && !NoCommonDate(c)
    ensures from <= n < from + 372
    ensures c.month.Contains(DateOf(n).month) && MatchesDay(c, DateOf(n).day, Weekday(n))
  {
    if c.dow.Values? {
      n := AdmittedWeekday(c, from);
    } else if c.dom.Values? {
      var m, d :| AdmitsCommonDate(c, m, d);
      n := DateRecurs(m, d, from);
    } else {
      var m := Pick(c.month, 1, 12);
      n := DateRecurs(m, 1, from);
    }
  }

  /** The first seven days of an admitted month hold every weekday. */
  lemma AdmittedWeekday(c: Cron, from: int) returns (n: int)
    requires CronFits(c) && c.dow.Values?
    ensures from <= n < from + 372
    ensures c.month.Contains(DateOf(n).month) && c.dow.Contains(Weekday(n))
  {
    hide DateOf;
    var m := Pick(c.month, 1, 12);
    var w := Pick(c.dow, 0, 6);
    var first := DateRecurs(m, 1, from);
    n := first + (w - Weekday(first)) % 7;
    SameMonth(first, n - first);
    assert Weekday(n) == w;
  }

  lemma SameMonth(first: int, days: int)
    requires DateOf(first).day == 1 && 0 <= days < 7
    ensures DateOf(first + days).month == DateOf(first).month
  {
    hide DateOf, DaysBeforeYear, DaysBeforeMonth, IsLeap;
    var d := DateOf(first);
    DayNumberOfDate(first);
    DateOfDayNumber(Date(d.year, d.month, 1 + days));
  }

  lemma AlwaysFinds(c: Cron, offset: int, after: int)
    requires CronFits(c) && !NoCommonDate(c)
    ensures FindsNext(c, FixedOffset(offset), after)
  {
    hide MatchesMinute, Start;
    var z := FixedOffset(offset);
    var q0 := LocalSecond(z, Start(z, after)) / 60;
    var q := AdmittedMinute(c, q0);
    CandidateMinute(offset, after, q - q0);
    assert Matches(c, z, Candidate(z, after, q - q0));
  }

  lemma AdmittedMinute(c: Cron, q0: int) returns (q: int)
    requires CronFits(c) && !NoCommonDate(c)
    ensures q0 <= q < q0 + MAX_MINUTES
    ensures MatchesMinute(c, q)
  {
    hide DateOf, MatchesDay;
    var n := AdmittedDay(c, DayOfMinute(q0) + 1);
    var h := Pick(c.hour, 0, 23);
    var mi := Pick(c.minute, 0, 59);
    q := (n - UNIX_EPOCH_DAY) * DAY_MINUTES + h * 60 + mi;
    MinuteParts(n - UNIX_EPOCH_DAY, h, mi);
    assert DayOfMinute(q) == n;
  }

  // ------------------------------------------------------------- the negative half

  /** A start whose whole window, 2021-01-01 to 2023-01-02, lies in common years. */
  lemma CommonWindow(c: Cron, offset: int) returns (after: int)
    requires NoCommonDate(c)
    ensures !FindsNext(c, FixedOffset(offset), after)
  {
    hide MatchesMinute, Start, DayNumber, DateOf;
    var z := FixedOffset(offset);
    var q0 := (DayNumber(Date(2021, 1, 1)) - UNIX_EPOCH_DAY) * DAY_MINUTES;
    after := StartingAt(offset, q0);
    forall k | 0 <= k < MAX_MINUTES ensures !Matches(c, z, Candidate(z, after, k)) {
      CandidateMinute(offset, after, k);
      CommonDay(DayOfMinute(q0 + k));
      CommonDateMissed(c, q0 + k);
    }
  }

  /** An input from which the search starts at local minute `q`. */
  lemma StartingAt(offset: int, q: int) returns (after: int)
    ensures LocalSecond(FixedOffset(offset), Start(FixedOffset(offset), after)) / 60 == q
  {
    after := (q * 60 - offset) * NANOS - MINUTE;
    assert (after + MINUTE) / NANOS == q * 60 - offset;
  }

  lemma CommonDay(n: int)
    requires DayNumber(Date(2021, 1, 1)) <= n < DayNumber(Date(2021, 1, 1)) + 732
    ensures !IsLeap(DateOf(n).year)
  {
    assert DaysBeforeYear(2021) == 737790 && DaysBeforeYear(2022) == 738155;
    assert DaysBeforeYear(2023) == 738520 && DaysBeforeYear(2024) == 738885;
    YearIsUnique(n, if n < 738155 then 2021 else if n < 738520 then 2022 else 2023);
  }

  lemma CommonDateMissed(c: Cron, q: int)
    requires NoCommonDate(c) && !IsLeap(DateOf(DayOfMinute(q)).year)
    ensures !MatchesMinute(c, q)
  {
    var d := DateOf(DayOfMinute(q));
    assert !AdmitsCommonDate(c, d.month, d.day);
  }

  /** What such a schedule can still match, in any zone: 29 February and nothing else. */
  lemma OnlyLeapDayLeft(c: Cron, z: Zone, t: int)
    requires NoCommonDate(c) && Matches(c, z, t)
    ensures var d := DateOf(DayOfMinute(LocalSecond(z, t) / 60));
            d.month == 2 && d.day == 29 && c.month.Contains(2) && c.dom.Contains(29)
  {
    var d := DateOf(DayOfMinute(LocalSecond(z, t) / 60));
    assert !AdmitsCommonDate(c, d.month, d.day);
  }

  // ------------------------------------------------------- the comment, contradicted

  /** From `after` nothing is found although the schedule matches later. */
  ghost predicate Missed(c: Cron, z: Zone, after: int, t: int) {
    !FindsNext(c, z, after) && after < t && Matches(c, z, t)
  }

  /** The comment at cron.rs:109-112 says the cap only stops schedules that can never match. For an
      accepted schedule and a fixed offset it is wrong exactly when the schedule admits 29 February
      and, by day of month alone, no date of a common year. */
  lemma MissedIffLeapDayOnly(expr: string, c: Cron, offset: int)
    requires CronOf(expr) == Some(c)
    ensures (exists after, t :: Missed(c, FixedOffset(offset), after, t)) <==>
            NoCommonDate(c) && c.month.Contains(2) && c.dom.Contains(29)
  {
    hide CronOf, Matches, FindsNext;
    ParsedFits(expr, c);
    if after, t :| Missed(c, FixedOffset(offset), after, t) {
      if !NoCommonDate(c) { AlwaysFinds(c, offset, after); }
      OnlyLeapDayLeft(c, FixedOffset(offset), t);
    }
    if NoCommonDate(c) && c.month.Contains(2) && c.dom.Contains(29) {
      var after := CommonWindow(c, offset);
      var t := LeapDayMatch(c, offset, after);
      assert Missed(c, FixedOffset(offset), after, t);
    }
  }

  /** In particular the schedule for 29 February finds nothing from the start of 2021, yet it does
      match. */
  lemma LeapDayMissed() returns (c: Cron, after: int, t: int)
    ensures CronOf("0 0 29 2 *") == Some(c)
    ensures IsNext(c, FixedOffset(0), after, None)
    ensures t > after && Matches(c, FixedOffset(0), t)
  {
    hide Matches, CronOf, Candidate;
    c := LeapDaySchedule();
    ParsedFits("0 0 29 2 *", c);
    after := CommonWindow(c, 0);
    t := LeapDayMatch(c, 0, after);
  }

  /** A schedule that admits 29 February matches on one after any instant. */
  lemma LeapDayMatch(c: Cron, offset: int, after: int) returns (t: int)
    requires CronFits(c) && c.dow.Any? && c.month.Contains(2) && c.dom.Contains(29)
    ensures t > after && Matches(c, FixedOffset(offset), t)
  {
    hide DateOf;
    var h := Pick(c.hour, 0, 23);
    var mi := Pick(c.minute, 0, 59);
    var n := LeapDayAfter((after / NANOS + offset) / 86400 + UNIX_EPOCH_DAY + 1);
    var q := (n - UNIX_EPOCH_DAY) * DAY_MINUTES + h * 60 + mi;
    MinuteParts(n - UNIX_EPOCH_DAY, h, mi);
    t := (q * 60 - offset) * NANOS;
    assert t / NANOS == q * 60 - offset;
    assert LocalSecond(FixedOffset(offset), t) == q * 60;
    assert DayOfMinute(q) == n;
    assert (n - UNIX_EPOCH_DAY) * 86400 > after / NANOS + offset;
  }

  lemma LeapDaySchedule() returns (c: Cron)
    ensures CronOf("0 0 29 2 *") == Some(c)
    ensures c == Cron(Values([0]), Values([0]), Values([29]), Values([2]), Any)
  {
    hide FieldOf, Words;
    c := Cron(Values([0]), Values([0]), Values([29]), Values([2]), Any);
    LeapDayWords();
    SingleValue("0", 0, 0, 59);
    SingleValue("0", 0, 0, 23);
    SingleValue("29", 29, 1, 31);
    SingleValue("2", 2, 1, 12);
    StarField();
  }

  lemma LeapDayWords()
    ensures Words("0 0 29 2 *") == ["0", "0", "29", "2", "*"]
  {
    hide Words;
    WordsOfWordThen("*", "");
    EmptyWords();
    assert "*" + "" == "*";
    WordsOfWordSpace("2", "*");
    assert "2" + " " + "*" == "2 *";
    WordsOfWordSpace("29", "2 *");
    assert "29" + " " + "2 *" == "29 2 *";
    WordsOfWordSpace("0", "29 2 *");
    assert "0" + " " + "29 2 *" == "0 29 2 *";
    WordsOfWordSpace("0", "0 29 2 *");
    assert "0" + " " + "0 29 2 *" == "0 0 29 2 *";
  }

  lemma EmptyWords()
    ensures Words("") == []
  {
  }

  lemma StarField()
    ensures FieldOf("*", 0, 7) == Some(Any)
  {
  }

  /** A plain number in range denotes itself. */
  lemma SingleValue(spec: string, v: int, min: int, max: int)
    requires 0 <= min <= v <= max < 100
    requires spec != "*" && ',' !in spec
    requires ReadPart(spec, min, max) == Some(Part(v, v, 1))
    ensures FieldOf(spec, min, max) == Some(Values([v]))
  {
    hide ReadPart, SplitOn;
    SplitOnNothing(spec, ',');
    var ps := [Part(v, v, 1)];
    assert [spec][1..] == [];
    assert ReadParts([], min, max) == Some([]);
    assert ReadParts([spec], min, max) == Some(ps + []) && ps + [] == ps;
    assert forall x :: InParts(ps, x) <==> x == v by {
      assert ps[0] in ps && InPart(ps[0], v);
    }
    AscendingIsUnique(Members(ps, 0, max), [v]);
  }

  /** 29 February keeps coming back. */
  lemma LeapDayAfter(from: int) returns (n: int)
    ensures from <= n && DateOf(n).month == 2 && DateOf(n).day == 29
  {
    hide DateOf, YearOf;
    var y := YearOf(from);
    YearOfBrackets(from);
    var q := y / 400 + 1;
    LeapYear(q);
    YearsAscend(y + 1, 400 * q);
    DateOfDayNumber(Date(400 * q, 2, 29));
    n := DayNumber(Date(400 * q, 2, 29));
  }

  lemma LeapYear(q: int)
    ensures IsLeap(400 * q)
  {
    assert 400 * q == 4 * (100 * q);
  }
}
