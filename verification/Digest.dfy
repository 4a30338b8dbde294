/** backend/src/digest/mod.rs: the per-user window, the selection and grouping of items, the
    archive of digests, and the engine run over all users. Clock readings are nanoseconds since the
    epoch; stored timestamps are whole seconds. */
module Digest {
  import opened Text

  const NANOS := 1_000_000_000
  const DAY := 86_400 * NANOS

  // ------------------------------------------------------------------ data

  /** `published` is `None` for a NULL column; identity is the row id. */
  datatype Item = Item(id: int, published: Option<int>)

  /** One row of the selection query: an item of an enabled subscription that passes the score
      limit, under the category of that subscription. */
  datatype Row = Row(category: string, item: Item, feedTitle: string)

  datatype CategoryFilter = All | Names(names: seq<string>) {
    predicate Includes(name: string) {
      All? || exists i :: 0 <= i < |names| && EqIgnoreAsciiCase(names[i], name)
    }
  }

  function AsciiLower(c: char): char {
    if 'A' <= c <= 'Z' then (c as int + 0x20) as char else c
  }

  predicate EqIgnoreAsciiCase(a: string, b: string) {
    |a| == |b| && forall i :: 0 <= i < |a| ==> AsciiLower(a[i]) == AsciiLower(b[i])
  }

  /** One engine run as one user sees it. `rows` is the query result before the date bounds, in
      its order; `lookbackDays` is the configured look-back, which may change between runs. */
  datatype Run = Run(now: int, lookbackDays: int, lookbackOverride: Option<int>,
                     filter: CategoryFilter, rows: seq<Row>)

  datatype Section = Section(name: string, items: seq<Item>)

  datatype DigestRow = DigestRow(start: int, end: int, itemCount: nat, sections: seq<Section>,
                                 sources: seq<string>)

  // ------------------------------------------------------------ the window

  datatype Window = Window(start: int, exclusive: bool, end: int) {
    predicate Holds(item: Item) {
      && item.published.Some?
      && (if exclusive then start < item.published.value else start <= item.published.value)
      && item.published.value <= end
    }
  }

  function Clamp(v: int, lo: int, hi: int): int {
    if v < lo then lo else if v > hi then hi else v
  }

  function Floor(run: Run): int {
    run.now - DAY * Clamp(if run.lookbackOverride.Some? then run.lookbackOverride.value else run.lookbackDays, 1, 90)
  }

  /** `fmt_dt` keeps whole seconds. */
  function Second(t: int): int {
    t / NANOS
  }

  /** `compute_period_start`. */
  function PeriodStart(lastEnd: Option<int>, floor: int): int {
    match lastEnd
    case None => floor
    case Some(e) => if e * NANOS > floor then e * NANOS else floor
  }

  function WindowOf(lastEnd: Option<int>, run: Run): Window {
    var floor := Floor(run);
    if run.lookbackOverride.Some? then Window(Second(floor), false, Second(run.now))
    else
      var start := PeriodStart(lastEnd, floor);
      Window(Second(start), start > floor, Second(run.now))
  }

  // -------------------------------------------------- selection and grouping

  /** The date bounds of the selection query. */
  function InWindow(rows: seq<Row>, w: Window): (r: seq<Row>)
    ensures forall x :: x in r <==> x in rows && w.Holds(x.item)
  {
    if rows == [] then []
    else
      var last := rows[|rows| - 1];
      var before := InWindow(rows[..|rows| - 1], w);
      assert forall x :: x in rows <==> x == last || x in rows[..|rows| - 1];
      if w.Holds(last.item) then before + [last] else before
  }

  function Included(rows: seq<Row>, filter: CategoryFilter): (r: seq<Row>)
    ensures forall x :: x in r <==> x in rows && filter.Includes(x.category)
  {
    if rows == [] then []
    else
      var last := rows[|rows| - 1];
      var before := Included(rows[..|rows| - 1], filter);
      assert forall x :: x in rows <==> x == last || x in rows[..|rows| - 1];
      if filter.Includes(last.category) then before + [last] else before
  }

  function Chosen(rows: seq<Row>, w: Window, filter: CategoryFilter): seq<Row> {
    Included(InWindow(rows, w), filter)
  }

  /** The distinct values of a sequence in order of first appearance. */
  function FirstSeen(s: seq<string>): (r: seq<string>)
    ensures forall x :: x in r <==> x in s
    ensures forall i, j :: 0 <= i < j < |r| ==> r[i] != r[j]
  {
    if s == [] then []
    else
      var last := s[|s| - 1];
      var before := FirstSeen(s[..|s| - 1]);
      assert forall x :: x in s <==> x == last || x in s[..|s| - 1];
      if last in before then before else before + [last]
  }

  function Categories(rows: seq<Row>): (r: seq<string>)
    ensures |r| == |rows|
    ensures forall i :: 0 <= i < |r| ==> r[i] == rows[i].category
  {
    if rows == [] then [] else Categories(rows[..|rows| - 1]) + [rows[|rows| - 1].category]
  }

  function FeedTitles(rows: seq<Row>): (r: seq<string>)
    ensures |r| == |rows|
    ensures forall i :: 0 <= i < |r| ==> r[i] == rows[i].feedTitle
  {
    if rows == [] then [] else FeedTitles(rows[..|rows| - 1]) + [rows[|rows| - 1].feedTitle]
  }

  function ItemsOf(rows: seq<Row>, category: string): seq<Item> {
    if rows == [] then []
    else
      var last := rows[|rows| - 1];
      ItemsOf(rows[..|rows| - 1], category) + if last.category == category then [last.item] else []
  }

  function FindSection(sections: seq<Section>, name: string, from: nat := 0): (k: Option<nat>)
    requires from <= |sections|
    ensures k.Some? ==> from <= k.value < |sections| && sections[k.value].name == name
    ensures k.None? ==> forall i :: from <= i < |sections| ==> sections[i].name != name
    decreases |sections| - from
  {
    if from == |sections| then None
    else if sections[from].name == name then Some(from)
    else FindSection(sections, name, from + 1)
  }

  /** The `iter_mut().find` step: into the row's section when there is one, else a new last one. */
  function AddRow(sections: seq<Section>, r: Row): seq<Section> {
    match FindSection(sections, r.category)
    case Some(k) => sections[k := Section(r.category, sections[k].items + [r.item])]
    case None => sections + [Section(r.category, [r.item])]
  }

  /** The rows grouped by category; `SectionsMean` says what the groups are. */
  function SectionsOf(rows: seq<Row>): seq<Section> {
    if rows == [] then [] else AddRow(SectionsOf(rows[..|rows| - 1]), rows[|rows| - 1])
  }

  function SectionNames(sections: seq<Section>): (r: seq<string>)
    ensures |r| == |sections|
    ensures forall i :: 0 <= i < |r| ==> r[i] == sections[i].name
  {
    if sections == [] then []
    else SectionNames(sections[..|sections| - 1]) + [sections[|sections| - 1].name]
  }

  function ItemCount(sections: seq<Section>): nat {
    if sections == [] then 0 else ItemCount(sections[..|sections| - 1]) + |sections[|sections| - 1].items|
  }

  /** What one run archives for a user whose last boundary is `lastEnd`: nothing when the window
      holds no item. */
  function DigestOf(lastEnd: Option<int>, run: Run): Option<DigestRow> {
    var w := WindowOf(lastEnd, run);
    var chosen := Chosen(run.rows, w, run.filter);
    if chosen == [] then None
    else Some(DigestRow(w.start, w.end, |chosen|, SectionsOf(chosen), FirstSeen(FeedTitles(chosen))))
  }

  function SectionItems(sections: seq<Section>): set<Item> {
    set s, x | s in sections && x in s.items :: x
  }

  // ------------------------------------------------------- archive and history

  /** `SELECT MAX(period_end)`. */
  function LastEnd(archive: seq<DigestRow>): (r: Option<int>)
    ensures r.None? <==> archive == []
    ensures r.Some? ==> exists d :: d in archive && d.end == r.value
    ensures r.Some? ==> forall d :: d in archive ==> d.end <= r.value
  {
    if archive == [] then None
    else
      var last := archive[|archive| - 1];
      var before := archive[..|archive| - 1];
      assert archive == before + [last];
      match LastEnd(before)
      case None => Some(last.end)
      case Some(e) =>
        assert exists d :: d in before && d.end == e;
        if last.end > e then Some(last.end) else Some(e)
  }

  function RunOnce(archive: seq<DigestRow>, run: Run): seq<DigestRow> {
    match DigestOf(LastEnd(archive), run)
    case None => archive
    case Some(d) => archive + [d]
  }

  /** Whether a run archives anything. */
  predicate Archives(archive: seq<DigestRow>, run: Run) {
    DigestOf(LastEnd(archive), run).Some?
  }

  /** A user's archive after a history of runs. */
  function Archive(history: seq<Run>): seq<DigestRow> {
    if history == [] then []
    else RunOnce(Archive(history[..|history| - 1]), history[|history| - 1])
  }

  function Boundary(history: seq<Run>): Option<int> {
    LastEnd(Archive(history))
  }

  /** The items printed by run `j` of a history. */
  function Printed(history: seq<Run>, j: nat): set<Item>
    requires j < |history|
  {
    match DigestOf(Boundary(history[..j]), history[j])
    case None => {}
    case Some(d) => SectionItems(d.sections)
  }

  /** The items a run may print, whatever its window. */
  function Eligible(run: Run): set<Item> {
    set r | r in run.rows && run.filter.Includes(r.category) :: r.item
  }

  // -------------------------------------------------------- grouping is lossless

  /** Sections are the distinct categories in order of first appearance, and each holds exactly
      the items of its category, in row order. */
  lemma {:induction false} SectionsMean(rows: seq<Row>)
    ensures SectionNames(SectionsOf(rows)) == FirstSeen(Categories(rows))
    ensures forall i :: 0 <= i < |SectionsOf(rows)| ==>
              SectionsOf(rows)[i].items == ItemsOf(rows, SectionsOf(rows)[i].name)
  {
    if rows == [] {
    } else {
      var before, r := rows[..|rows| - 1], rows[|rows| - 1];
      SectionsMean(before);
      assert Categories(rows) == Categories(before) + [r.category];
      assert SectionsOf(rows) == AddRow(SectionsOf(before), r);
      hide AddRow, SectionsOf, SectionNames, Categories;
      FirstSeenAppend(Categories(before), r.category);
      AddRowNames(SectionsOf(before), r);
      if r.category !in Categories(before) { NoItemsOf(before, r.category); }
      AddRowItems(before, r, SectionsOf(before));
    }
  }

  lemma FirstSeenAppend(s: seq<string>, x: string)
    ensures FirstSeen(s + [x]) == if x in FirstSeen(s) then FirstSeen(s) else FirstSeen(s) + [x]
  {
    assert (s + [x])[..|s|] == s;
  }

  lemma AddRowNames(sections: seq<Section>, r: Row)
    ensures var names := SectionNames(sections);
            SectionNames(AddRow(sections, r)) == if r.category in names then names else names + [r.category]
  {
    hide SectionNames;
  }

  lemma AddRowItems(before: seq<Row>, r: Row, sections: seq<Section>)
    requires SectionNames(sections) == FirstSeen(Categories(before))
    requires forall i :: 0 <= i < |sections| ==> sections[i].items == ItemsOf(before, sections[i].name)
    requires r.category !in Categories(before) ==> ItemsOf(before, r.category) == []
    ensures var grown := AddRow(sections, r);
            forall i :: 0 <= i < |grown| ==>
              grown[i].items == ItemsOf(before, grown[i].name) + (if r.category == grown[i].name then [r.item] else [])
  {
    hide SectionNames, FirstSeen, Categories, ItemsOf, FindSection;
    var names := SectionNames(sections);
    match FindSection(sections, r.category)
    case Some(k) =>
      assert forall i :: 0 <= i < |sections| && i != k ==> names[i] != names[k];
    case None =>
      assert r.category !in names;
  }

  lemma {:induction false} NoItemsOf(rows: seq<Row>, name: string)
    requires name !in Categories(rows)
    ensures ItemsOf(rows, name) == []
  {
    if rows == [] {
    } else {
      assert Categories(rows)[|rows| - 1] == rows[|rows| - 1].category;
      NoItemsOf(rows[..|rows| - 1], name);
    }
  }

  /** Grouping keeps exactly the items of the grouped rows. */
  lemma {:induction false} SectionsKeepItems(rows: seq<Row>)
    ensures forall x :: x in SectionItems(SectionsOf(rows)) <==> exists r :: r in rows && r.item == x
  {
    if rows == [] {
    } else {
      var before, r := rows[..|rows| - 1], rows[|rows| - 1];
      SectionsKeepItems(before);
      AddRowKeeps(SectionsOf(before), r);
      assert forall x :: x in rows <==> x == r || x in before;
    }
  }

  lemma AddRowKeeps(sections: seq<Section>, r: Row)
    ensures SectionItems(AddRow(sections, r)) == SectionItems(sections) + {r.item}
  {
    hide FindSection;
    var grown := AddRow(sections, r);
    forall s, x | s in sections && x in s.items ensures x in SectionItems(grown) {
      var i :| 0 <= i < |sections| && sections[i] == s;
      assert grown[i] in grown && x in grown[i].items;
    }
    match FindSection(sections, r.category)
    case Some(k) => assert grown[k] in grown && r.item in grown[k].items;
    case None => assert grown[|sections|] in grown && r.item in grown[|sections|].items;
  }

  /** Conservation: the sections together hold as many items as there are rows. */
  lemma {:induction false} SectionsConserve(rows: seq<Row>)
    ensures ItemCount(SectionsOf(rows)) == |rows|
  {
    if rows == [] {
    } else {
      SectionsConserve(rows[..|rows| - 1]);
      AddRowCounts(SectionsOf(rows[..|rows| - 1]), rows[|rows| - 1]);
    }
  }

  lemma AddRowCounts(sections: seq<Section>, r: Row)
    ensures ItemCount(AddRow(sections, r)) == ItemCount(sections) + 1
  {
    match FindSection(sections, r.category)
    case Some(k) => ItemCountUpdate(sections, k, Section(r.category, sections[k].items + [r.item]));
    case None => assert (sections + [Section(r.category, [r.item])])[..|sections|] == sections;
  }

  lemma ItemCountUpdate(sections: seq<Section>, k: nat, s: Section)
    requires k < |sections|
    ensures ItemCount(sections[k := s]) == ItemCount(sections) - |sections[k].items| + |s.items|
  {
    if k == |sections| - 1 {
      assert sections[k := s][..k] == sections[..k];
    } else {
      ItemCountUpdate(sections[..|sections| - 1], k, s);
      assert sections[k := s][..|sections| - 1] == sections[..|sections| - 1][k := s];
    }
  }

  lemma PrintedIffChosen(history: seq<Run>, j: nat, x: Item)
    requires j < |history|
    ensures x in Printed(history, j) <==>
            x in Eligible(history[j]) && WindowOf(Boundary(history[..j]), history[j]).Holds(x)
  {
    hide SectionsOf, WindowOf, FirstSeen, SectionItems, Boundary;
    var run := history[j];
    var w := WindowOf(Boundary(history[..j]), run);
    SectionsKeepItems(Chosen(run.rows, w, run.filter));
  }

  // --------------------------------------------------------- over whole histories

  predicate Normal(run: Run) {
    run.lookbackOverride.None?
  }

  // What a run covers, in figures: whole seconds since the epoch, and a look-back of 1 to 90 days.

  function EndSecond(run: Run): int {
    run.now / 1_000_000_000
  }

  function HeldDays(days: int): int {
    if days <= 0 then 1 else if days >= 91 then 90 else days
  }

  function SecondsBack(run: Run, days: int): int {
    (run.now - days * 86_400_000_000_000) / 1_000_000_000
  }

  function FloorSecond(run: Run): int {
    SecondsBack(run, HeldDays(run.lookbackDays))
  }

  lemma FloorIsLookback(run: Run)
    requires Normal(run)
    ensures Second(Floor(run)) == FloorSecond(run) && Second(run.now) == EndSecond(run)
  {
  }

  /** Coverage, as an equivalence: a run without override prints exactly the eligible items from
      its whole-second floor to its whole-second end that lie after the last boundary - or, when
      the boundary is not after the floor, all of them. */
  lemma Coverage(history: seq<Run>, j: nat, x: Item)
    requires j < |history| && Normal(history[j])
    ensures var last := Boundary(history[..j]);
            x in Printed(history, j) <==>
              && x in Eligible(history[j]) && x.published.Some?
              && FloorSecond(history[j]) <= x.published.value <= EndSecond(history[j])
              && (last.None? || x.published.value > last.value || last.value <= FloorSecond(history[j]))
  {
    hide Printed, Eligible, Boundary;
    PrintedIffChosen(history, j, x);
    if x.published.Some? { WindowMeans(Boundary(history[..j]), history[j], x); }
  }

  lemma WindowMeans(last: Option<int>, run: Run, x: Item)
    requires Normal(run) && x.published.Some?
    ensures WindowOf(last, run).Holds(x) <==>
              && FloorSecond(run) <= x.published.value <= EndSecond(run)
              && (last.None? || x.published.value > last.value || last.value <= FloorSecond(run))
  {
    FloorIsLookback(run);
    hide FloorSecond;
    if last.Some? {
      assert last.value * NANOS / NANOS == last.value;
      assert last.value * NANOS <= Floor(run) <==> last.value <= FloorSecond(run);
    }
  }

  /** In figures: with a look-back of 1 to 90 days and no boundary after it, a run without override
      prints exactly what was published from `now` less that many days on, in whole seconds. */
  lemma LookbackPrints(history: seq<Run>, j: nat, x: Item)
    requires j < |history| && Normal(history[j]) && 1 <= history[j].lookbackDays <= 90
    requires var last, run := Boundary(history[..j]), history[j];
             last.None? || last.value <= (run.now - run.lookbackDays * 86_400_000_000_000) / 1_000_000_000
    ensures var run := history[j];
            x in Printed(history, j) <==>
              && x in Eligible(run) && x.published.Some?
              && (run.now - run.lookbackDays * 86_400_000_000_000) / 1_000_000_000 <= x.published.value
              && x.published.value <= run.now / 1_000_000_000
  {
    hide Printed, Eligible, Boundary;
    Coverage(history, j, x);
  }

  /** A run with an override prints exactly what was published from `now` less that many days on,
      held to 1 to 90, the first second included, whatever was archived before. */
  lemma OverridePrints(history: seq<Run>, j: nat, x: Item, days: int)
    requires j < |history| && history[j].lookbackOverride == Some(days)
    ensures var run := history[j];
            x in Printed(history, j) <==>
              && x in Eligible(run) && x.published.Some?
              && SecondsBack(run, HeldDays(days)) <= x.published.value <= EndSecond(run)
  {
    hide Printed, Eligible, Boundary;
    PrintedIffChosen(history, j, x);
  }

  /** What a run may print: the items of its rows, or of those rows whose category is one of the
      names, but for ASCII case. */
  lemma EligibleMeans(run: Run, x: Item)
    ensures x in Eligible(run) <==>
            exists r :: r in run.rows && r.item == x
              && (run.filter.All? || exists i :: 0 <= i < |run.filter.names| && SameButCase(run.filter.names[i], r.category))
  {
    forall a, b
      ensures EqIgnoreAsciiCase(a, b) <==> SameButCase(a, b)
    {
      CaseOnly(a, b);
    }
    hide EqIgnoreAsciiCase, SameButCase;
  }

  lemma CaseOnly(a: string, b: string)
    ensures EqIgnoreAsciiCase(a, b) <==> SameButCase(a, b)
  {
  }

  lemma ArchiveGrows(history: seq<Run>, i: nat, j: nat)
    requires i <= j <= |history|
    ensures Archive(history[..i]) <= Archive(history[..j])
    decreases j
  {
    hide DigestOf, LastEnd;
    if i == j {
    } else {
      ArchiveGrows(history, i, j - 1);
      assert history[..j][..j - 1] == history[..j - 1];
    }
  }

  /** Having printed something, a run's end is a lower bound of every later boundary. */
  lemma BoundaryCoversPrinted(history: seq<Run>, i: nat, j: nat)
    requires i < j <= |history| && Printed(history, i) != {}
    ensures Boundary(history[..j]).Some? && EndSecond(history[i]) <= Boundary(history[..j]).value
  {
    hide DigestOf, SectionItems;
    assert history[..i + 1][..i] == history[..i];
    var d := DigestOf(Boundary(history[..i]), history[i]).value;
    assert d.end == EndSecond(history[i]) by { EndOfDigest(Boundary(history[..i]), history[i]); }
    var archive := Archive(history[..i + 1]);
    assert archive[|archive| - 1] == d;
    ArchiveGrows(history, i + 1, j);
    assert Archive(history[..j])[|archive| - 1] == d;
    assert d in Archive(history[..j]);
  }

  lemma WindowEnds(last: Option<int>, run: Run)
    ensures WindowOf(last, run).end == EndSecond(run)
  {
  }

  lemma FloorBeforeEnd(run: Run)
    ensures FloorSecond(run) <= EndSecond(run)
  {
  }

  lemma EndOfDigest(last: Option<int>, run: Run)
    ensures DigestOf(last, run).Some? ==> DigestOf(last, run).value.end == EndSecond(run)
  {
  }

  lemma PrintedUpToBoundary(history: seq<Run>, i: nat, j: nat, x: Item)
    requires i < j <= |history| && x in Printed(history, i)
    ensures x.published.Some? && Boundary(history[..j]).Some?
    ensures x.published.value <= Boundary(history[..j]).value
  {
    hide Printed, Eligible, Boundary, WindowOf, EndSecond;
    PrintedIffChosen(history, i, x);
    WindowEnds(Boundary(history[..i]), history[i]);
    BoundaryCoversPrinted(history, i, j);
  }

  /** Never twice, with the exact exception: an item already printed by any earlier run is
      reprinted by a run without override if and only if its timestamp is the one second where
      the previous boundary equals the truncated floor. No assumption on the clock is needed. */
  lemma ReprintExactly(history: seq<Run>, i: nat, j: nat, x: Item)
    requires i < j < |history| && Normal(history[j])
    requires x in Printed(history, i) && x in Eligible(history[j])
    ensures x in Printed(history, j) <==>
            x.published == Boundary(history[..j]) == Some(FloorSecond(history[j]))
  {
    hide *;
    PrintedUpToBoundary(history, i, j, x);
    Coverage(history, j, x);
    FloorBeforeEnd(history[j]);
  }

  /** It happens: a run with a one-day look-back that follows the previous run by a day, give or take
      a fraction of a second, prints again what was published in the second of that run. */
  lemma DailyRunReprints(row: Row, p: int, fraction: int)
    requires 0 <= fraction < NANOS && row.item.published == Some(p)
    ensures var history := [Run(p * NANOS, 1, None, All, [row]), Run(p * NANOS + DAY + fraction, 1, None, All, [row])];
            row.item in Printed(history, 0) && row.item in Printed(history, 1)
  {
    var first, second := Run(p * NANOS, 1, None, All, [row]), Run(p * NANOS + DAY + fraction, 1, None, All, [row]);
    var history, x := [first, second], row.item;
    assert row in first.rows;
    assert x in Eligible(first) && x in Eligible(second);
    assert (p * NANOS + fraction) / NANOS == p && p * NANOS / NANOS == p;
    assert FloorSecond(first) <= p && FloorSecond(second) == p;
    hide Printed, Eligible, FloorSecond;
    assert Boundary(history[..0]) == None;
    hide Boundary;
    Coverage(history, 0, x);
    PrintedUpToBoundary(history, 0, 1, x);
    var i := BoundaryIsAnEnd(history[..1]);
    assert history[..1][0] == first;
    ReprintExactly(history, 0, 1, x);
  }

  /** A run that printed nothing does not move the boundary. */
  lemma EmptyRunKeepsArchive(history: seq<Run>, k: nat)
    requires k < |history| && Printed(history, k) == {}
    ensures Archive(history[..k + 1]) == Archive(history[..k])
  {
    hide DigestOf, SectionItems, LastEnd;
    assert history[..k + 1][..k] == history[..k];
    NothingPrinted(Boundary(history[..k]), history[k]);
  }

  /** And it can be struck from a history without changing anything else: the archive stays as it
      was, and every other run prints the same. */
  lemma {:induction false} EmptyRunInvisible(history: seq<Run>, k: nat, n: nat)
    requires k < n <= |history| && Printed(history, k) == {}
    ensures Archive(history[..n]) == Archive(history[..k] + history[k + 1..n])
    decreases n
  {
    hide RunOnce, Printed;
    var without := history[..k] + history[k + 1..n];
    if n == k + 1 {
      assert without == history[..k];
      EmptyRunKeepsArchive(history, k);
    } else {
      EmptyRunInvisible(history, k, n - 1);
      assert without[..|without| - 1] == history[..k] + history[k + 1..n - 1];
      assert history[..n][..n - 1] == history[..n - 1];
    }
  }

  lemma NothingPrinted(last: Option<int>, run: Run)
    ensures DigestOf(last, run).Some? ==> SectionItems(DigestOf(last, run).value.sections) != {}
  {
    hide SectionsOf, WindowOf, SectionItems;
    var chosen := Chosen(run.rows, WindowOf(last, run), run.filter);
    if chosen != [] {
      SectionsKeepItems(chosen);
      assert chosen[0] in chosen;
      assert chosen[0].item in SectionItems(SectionsOf(chosen));
    }
  }

  lemma StruckRunPrintsTheSame(history: seq<Run>, k: nat, j: nat)
    requires k < j < |history| && Printed(history, k) == {}
    ensures Printed(history, j) == Printed(history[..k] + history[k + 1..], j - 1)
  {
    hide DigestOf, SectionItems, LastEnd, Archive;
    EmptyRunInvisible(history, k, j);
    var without := history[..k] + history[k + 1..];
    assert without[..j - 1] == history[..k] + history[k + 1..j];
  }

  // ------------------------------------------------------------- exactly once

  /** No gap between runs is longer than the look-back: each run's floor reaches back to the
      whole-second end of the run before it. */
  predicate NoGap(history: seq<Run>) {
    forall j :: 0 < j < |history| ==> FloorSecond(history[j]) <= EndSecond(history[j - 1])
  }

  /** The first run from `from` on whose end reaches `p`. */
  function FirstReaching(history: seq<Run>, p: int, from: nat): (k: nat)
    requires from < |history| && p <= EndSecond(history[|history| - 1])
    ensures from <= k < |history| && p <= EndSecond(history[k])
    ensures forall i :: from <= i < k ==> EndSecond(history[i]) < p
    decreases |history| - from
  {
    if p <= EndSecond(history[from]) then from else FirstReaching(history, p, from + 1)
  }

  lemma BoundaryIsAnEnd(history: seq<Run>) returns (i: nat)
    requires Boundary(history).Some?
    ensures i < |history| && Boundary(history) == Some(EndSecond(history[i]))
  {
    hide DigestOf, EndSecond;
    var before := history[..|history| - 1];
    var run := history[|history| - 1];
    EndOfDigest(Boundary(before), run);
    if DigestOf(Boundary(before), run).None? {
      i := BoundaryIsAnEnd(before);
    } else {
      LastEndAppend(Archive(before), DigestOf(Boundary(before), run).value);
      if Boundary(history) == Some(EndSecond(run)) {
        i := |history| - 1;
      } else {
        i := BoundaryIsAnEnd(before);
      }
    }
  }

  lemma LastEndAppend(archive: seq<DigestRow>, d: DigestRow)
    ensures LastEnd(archive + [d]) == Some(d.end) || (archive != [] && LastEnd(archive + [d]) == LastEnd(archive))
  {
    assert (archive + [d])[..|archive|] == archive;
  }

  /** Every item published after the first run of a gap-free history of normal runs, stored by the
      first run that reaches it and eligible from then on, is printed by that run - and by no
      other, but for the one-second exception of `ReprintExactly`. Empty runs and a clock that
      steps back are allowed. */
  lemma ExactlyOnce(history: seq<Run>, x: Item, p: int)
    requires (forall j :: 0 <= j < |history| ==> Normal(history[j])) && NoGap(history)
    requires |history| > 0 && x.published == Some(p)
    requires EndSecond(history[0]) < p <= EndSecond(history[|history| - 1])
    requires forall j :: FirstReaching(history, p, 0) <= j < |history| ==> x in Eligible(history[j])
    ensures x in Printed(history, FirstReaching(history, p, 0))
    ensures forall j :: 0 <= j < |history| && j != FirstReaching(history, p, 0) ==>
              (x in Printed(history, j) <==>
                j > FirstReaching(history, p, 0) && Boundary(history[..j]) == Some(p) == Some(FloorSecond(history[j])))
  {
    hide Printed, Boundary, Eligible, FloorSecond, EndSecond, FirstReaching;
    var k := FirstReaching(history, p, 0);
    var last := Boundary(history[..k]);
    assert k > 0 && FloorSecond(history[k]) <= EndSecond(history[k - 1]) < p;
    if last.Some? {
      var i := BoundaryIsAnEnd(history[..k]);
      assert history[..k][i] == history[i];
    }
    Coverage(history, k, x);
    forall j | 0 <= j < |history| && j != k
      ensures x in Printed(history, j) <==> j > k && Boundary(history[..j]) == Some(p) == Some(FloorSecond(history[j]))
    {
      if j > k { ReprintExactly(history, k, j, x); } else { Coverage(history, j, x); }
    }
  }

  // ------------------------------------------------------------- build_and_archive

  /** The grouping loop of `build_and_archive`, with its early return on an empty window. */
  method Build(rows: seq<Row>, filter: CategoryFilter, w: Window) returns (d: Option<DigestRow>)
    ensures var chosen := Chosen(rows, w, filter);
            d == if chosen == [] then None
                 else Some(DigestRow(w.start, w.end, |chosen|, SectionsOf(chosen), FirstSeen(FeedTitles(chosen))))
  {
    EmptyGrouping();
    hide ItemCount, AddRow, SectionsOf, FirstSeen, FeedTitles, InWindow;
    var selected := InWindow(rows, w);
    var sections: seq<Section> := [];
    var sources: seq<string> := [];
    var i := 0;
    while i < |selected|
      invariant 0 <= i <= |selected|
      invariant sections == SectionsOf(Included(selected[..i], filter))
      invariant sources == FirstSeen(FeedTitles(Included(selected[..i], filter)))
    {
      var r := selected[i];
      IncludedStep(selected, i, filter);
      if filter.Includes(r.category) {
        GroupStep(Included(selected[..i], filter), r);
        if r.feedTitle !in sources { sources := sources + [r.feedTitle]; }
        sections := AddRow(sections, r);
      }
      i := i + 1;
    }
    assert selected[..i] == selected;
    SectionsConserve(Included(selected, filter));
    var count := ItemCount(sections);
    if count == 0 { return None; }
    d := Some(DigestRow(w.start, w.end, count, sections, sources));
  }

  lemma IncludedStep(rows: seq<Row>, i: nat, filter: CategoryFilter)
    requires i < |rows|
    ensures Included(rows[..i + 1], filter) ==
            if filter.Includes(rows[i].category) then Included(rows[..i], filter) + [rows[i]]
            else Included(rows[..i], filter)
  {
    assert rows[..i + 1][..i] == rows[..i];
  }

  lemma EmptyGrouping()
    ensures SectionsOf([]) == [] && FirstSeen(FeedTitles([])) == []
  {
  }

  lemma GroupStep(rows: seq<Row>, r: Row)
    ensures SectionsOf(rows + [r]) == AddRow(SectionsOf(rows), r)
    ensures var seen := FirstSeen(FeedTitles(rows));
            FirstSeen(FeedTitles(rows + [r])) == if r.feedTitle in seen then seen else seen + [r.feedTitle]
  {
    hide AddRow;
    assert (rows + [r])[..|rows|] == rows;
  }

  /** How many of the users a run archives a digest for. */
  function CountArchiving(users: seq<int>, archives: map<int, seq<DigestRow>>, runs: map<int, Run>): nat
    requires forall u :: u in users ==> u in runs
  {
    if users == [] then 0
    else
      var u := users[|users| - 1];
      CountArchiving(users[..|users| - 1], archives, runs)
      + if Archives(if u in archives then archives[u] else [], runs[u]) then 1 else 0
  }

  lemma CountNothing(archives: map<int, seq<DigestRow>>, runs: map<int, Run>)
    ensures CountArchiving([], archives, runs) == 0
  {
  }

  lemma CountArchivingStep(users: seq<int>, i: nat, archives: map<int, seq<DigestRow>>, runs: map<int, Run>)
    requires i < |users| && forall u :: u in users ==> u in runs
    ensures var u := users[i];
            CountArchiving(users[..i + 1], archives, runs) == CountArchiving(users[..i], archives, runs)
              + if Archives(if u in archives then archives[u] else [], runs[u]) then 1 else 0
  {
    assert users[..i + 1][..i] == users[..i];
  }

  datatype RunSummary = RunSummary(users: nat, digests: nat)

  /** The engine: the `digests` table, one archive per user. */
  class Engine {
    var archives: map<int, seq<DigestRow>>

    constructor ()
      ensures archives == map[]
    {
      archives := map[];
    }

    function ArchiveOf(user: int): seq<DigestRow>
      reads this
    {
      if user in archives then archives[user] else []
    }

    /** One user's share of a run: window, build, insert. */
    method RunUser(user: int, run: Run) returns (archived: bool)
      modifies this
      ensures archives.Keys == old(archives.Keys) + if archived then {user} else {}
      ensures forall u :: u != user ==> ArchiveOf(u) == old(ArchiveOf(u))
      ensures ArchiveOf(user) == RunOnce(old(ArchiveOf(user)), run)
      ensures archived <==> Archives(old(ArchiveOf(user)), run)
    {
      hide DigestOf, WindowOf, Chosen, LastEnd, RunOnce, Archives;
      var w := WindowOf(LastEnd(ArchiveOf(user)), run);
      var built := Build(run.rows, run.filter, w);
      BuiltIsDigest(LastEnd(ArchiveOf(user)), run, w, built);
      archived := built.Some?;
      if archived { archives := archives[user := ArchiveOf(user) + [built.value]]; }
    }

    /** `run_all`: every listed user's archive takes one step of `RunOnce`, nobody else's moves. */
    method RunAll(users: seq<int>, runs: map<int, Run>) returns (summary: RunSummary)
      requires forall i, j :: 0 <= i < j < |users| ==> users[i] != users[j]
      requires forall u :: u in users ==> u in runs
      modifies this
      ensures forall u :: u in users ==> ArchiveOf(u) == RunOnce(old(ArchiveOf(u)), runs[u])
      ensures forall u :: u !in users ==> ArchiveOf(u) == old(ArchiveOf(u))
      ensures summary.users == |users|
      ensures summary.digests == CountArchiving(users, old(archives), runs)
    {
      hide Archives, RunOnce, CountArchiving;
      var digests := 0;
      var i := 0;
      assert CountArchiving([], archives, runs) == 0 by { CountNothing(archives, runs); }
      while i < |users|
        invariant 0 <= i <= |users|
        invariant forall k :: 0 <= k < i ==> ArchiveOf(users[k]) == RunOnce(old(ArchiveOf(users[k])), runs[users[k]])
        invariant forall u :: u !in users[..i] ==> ArchiveOf(u) == old(ArchiveOf(u))
        invariant digests == CountArchiving(users[..i], old(archives), runs)
      {
        var user := users[i];
        assert user !in users[..i];
        var made := RunUser(user, runs[user]);
        CountArchivingStep(users, i, old(archives), runs);
        if made { digests := digests + 1; }
        i := i + 1;
      }
      assert users[..i] == users;
      summary := RunSummary(|users|, digests);
    }
  }

  lemma BuiltIsDigest(last: Option<int>, run: Run, w: Window, d: Option<DigestRow>)
    requires w == WindowOf(last, run)
    requires var chosen := Chosen(run.rows, w, run.filter);
             d == if chosen == [] then None
                  else Some(DigestRow(w.start, w.end, |chosen|, SectionsOf(chosen), FirstSeen(FeedTitles(chosen))))
    ensures d == DigestOf(last, run)
    ensures forall archive :: last == LastEnd(archive) ==>
      RunOnce(archive, run) == (if d.Some? then archive + [d.value] else archive) && (Archives(archive, run) <==> d.Some?)
  {
    hide LastEnd, WindowOf, Chosen, SectionsOf, FirstSeen, FeedTitles;
  }
}
