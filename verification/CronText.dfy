/** What the text of a schedule means: numbers, pieces, lists and fields printed as text, and the
    values the parser of backend/src/digest/cron.rs makes of them. The laws speak of the printed
    numbers only, not of how the parser takes the text apart. */
module CronText {
  import opened Text
  import opened Calendar
  import opened Cron
  import opened Numerals

  // ------------------------------------------------------------------ pieces

  datatype Range = Whole | Span(lo: nat, hi: nat) | Single(v: nat) {
    function Lo(min: int): int {
      match this case Whole => min case Span(lo, _) => lo case Single(v) => v
    }

    function Hi(max: int): int {
      match this case Whole => max case Span(_, hi) => hi case Single(v) => v
    }

    function Text(): (s: string)
      ensures s != "" && '/' !in s && ',' !in s
      ensures (s == "*") == Whole?
    {
      match this
      case Whole => "*"
      case Span(lo, hi) => Dec(lo) + "-" + Dec(hi)
      case Single(v) =>
        assert Dec(v)[0] in Dec(v);
        Dec(v)
    }
  }

  datatype Piece = Piece(range: Range, step: Option<nat>) {
    function Text(): (s: string)
      ensures s != "" && ',' !in s
      ensures s == "*" <==> range.Whole? && step.None?
    {
      match step
      case None => range.Text()
      case Some(n) => range.Text() + "/" + Dec(n)
    }

    /** Both ends in range and in order, and a step from 1 to the largest 32-bit number. */
    predicate Reads(min: int, max: int) {
      && min <= range.Lo(min) <= range.Hi(max) <= max
      && (step.Some? ==> 0 < step.value < 0x1_0000_0000)
    }

    /** From the low end up to the high end in strides of the step, or of 1 without one. */
    predicate Has(min: int, max: int, v: int) {
      && range.Lo(min) <= v <= range.Hi(max)
      && (step.Some? && step.value > 0 ==> (v - range.Lo(min)) % step.value == 0)
    }
  }

  const STAR := Piece(Whole, None)

  lemma {:induction false} SplitsOnceAt(a: string, c: char, b: string)
    requires c !in a
    ensures SplitOnce(a + [c] + b, c) == Some((a, b))
  {
    if a == "" {
      assert (a + [c] + b)[1..] == b;
    } else {
      SplitsOnceAt(a[1..], c, b);
      assert (a + [c] + b)[1..] == a[1..] + [c] + b;
      assert [a[0]] + a[1..] == a;
    }
  }

  lemma {:induction false} SplitsNowhere(a: string, c: char)
    requires c !in a
    ensures SplitOnce(a, c) == None
  {
    if a == "" {
    } else {
      SplitsNowhere(a[1..], c);
    }
  }

  lemma RangeReads(r: Range, min: int, max: int)
    requires 0 <= min <= max < 0x8000_0000
    ensures if min <= r.Lo(min) <= r.Hi(max) <= max
            then ReadRange(r.Text(), min, max) == Some((r.Lo(min), r.Hi(max)))
            else match ReadRange(r.Text(), min, max)
                 case None => true
                 case Some((lo, hi)) => lo > hi || lo < min || hi > max
  {
    hide ParseU32, SplitOnce;
    match r
    case Whole =>
    case Span(lo, hi) =>
      SplitsOnceAt(Dec(lo), '-', Dec(hi));
      DecReads(lo);
      DecReads(hi);
    case Single(v) =>
      SplitsNowhere(Dec(v), '-');
      DecReads(v);
  }

  function AsPart(p: Piece, min: int, max: int): Part {
    Part(p.range.Lo(min), p.range.Hi(max), if p.step.Some? then p.step.value else 1)
  }

  lemma PieceReads(p: Piece, min: int, max: int)
    requires 0 <= min <= max < 0x8000_0000
    ensures ReadPart(p.Text(), min, max) ==
            if p.Reads(min, max) then Some(AsPart(p, min, max)) else None
  {
    hide ReadRange, SplitOnce, ParseU32;
    RangeReads(p.range, min, max);
    match p.step
    case None => SplitsNowhere(p.range.Text(), '/');
    case Some(n) =>
      SplitsOnceAt(p.range.Text(), '/', Dec(n));
      DecReads(n);
  }

  // ------------------------------------------------------------------ lists

  function ListText(ps: seq<Piece>): (s: string)
    requires ps != []
    ensures s != ""
  {
    if |ps| == 1 then ps[0].Text() else ps[0].Text() + "," + ListText(ps[1..])
  }

  function Texts(ps: seq<Piece>): (ts: seq<string>)
    ensures |ts| == |ps| && forall i :: 0 <= i < |ps| ==> ts[i] == ps[i].Text()
  {
    if ps == [] then [] else [ps[0].Text()] + Texts(ps[1..])
  }

  lemma {:induction false} SplitsAt(a: string, c: char, b: string)
    requires c !in a
    ensures SplitOn(a + [c] + b, c) == [a] + SplitOn(b, c)
  {
    if a == "" {
      assert (a + [c] + b)[1..] == b;
    } else {
      SplitsAt(a[1..], c, b);
      assert (a + [c] + b)[1..] == a[1..] + [c] + b;
      assert [a[0]] + a[1..] == a;
    }
  }

  lemma {:induction false} ListSplits(ps: seq<Piece>)
    requires ps != []
    ensures SplitOn(ListText(ps), ',') == Texts(ps)
  {
    hide SplitOn;
    if |ps| == 1 {
      SplitOnNothing(ps[0].Text(), ',');
      assert Texts(ps[1..]) == [];
    } else {
      SplitsAt(ps[0].Text(), ',', ListText(ps[1..]));
      ListSplits(ps[1..]);
    }
  }

  predicate AllRead(ps: seq<Piece>, min: int, max: int) {
    forall i :: 0 <= i < |ps| ==> ps[i].Reads(min, max)
  }

  /** Every step is small enough for the 32-bit addition not to overflow. */
  predicate Plain(ps: seq<Piece>, max: int) {
    forall i :: 0 <= i < |ps| && ps[i].step.Some? ==> ps[i].step.value <= 4_294_967_295 - max
  }

  predicate Union(ps: seq<Piece>, min: int, max: int, v: int) {
    exists i :: 0 <= i < |ps| && ps[i].Has(min, max, v)
  }

  /** The field stands for the printed list: everything for the star alone, and otherwise the union
      of the pieces in ascending order. */
  ghost predicate Means(f: Field, ps: seq<Piece>, min: int, max: int) {
    match f
    case Any => ps == [STAR]
    case Values(vs) => ps != [STAR] && Ascending(vs) && forall v :: v in vs <==> Union(ps, min, max, v)
  }

  function AsParts(ps: seq<Piece>, min: int, max: int): (parts: seq<Part>)
    ensures |parts| == |ps| && forall i :: 0 <= i < |ps| ==> parts[i] == AsPart(ps[i], min, max)
  {
    if ps == [] then [] else [AsPart(ps[0], min, max)] + AsParts(ps[1..], min, max)
  }

  lemma {:induction false} PiecesRead(ps: seq<Piece>, min: int, max: int)
    requires 0 <= min <= max < 0x8000_0000
    ensures ReadParts(Texts(ps), min, max) == if AllRead(ps, min, max) then Some(AsParts(ps, min, max)) else None
  {
    hide ReadPart, AllRead, AsPart;
    AllReadSplits(ps, min, max);
    if ps == [] {
    } else {
      PiecesRead(ps[1..], min, max);
      PieceReads(ps[0], min, max);
      assert Texts(ps)[1..] == Texts(ps[1..]);
    }
  }

  lemma AllReadSplits(ps: seq<Piece>, min: int, max: int)
    ensures AllRead(ps, min, max) <==> ps == [] || (ps[0].Reads(min, max) && AllRead(ps[1..], min, max))
  {
  }

  lemma OnlyStarIsStar(ps: seq<Piece>)
    requires ps != []
    ensures ListText(ps) == "*" <==> ps == [STAR]
  {
    if |ps| == 1 {
      assert ps == [ps[0]];
    } else {
      assert ListText(ps)[|ps[0].Text()|] == ',';
    }
  }

  lemma PieceIsPart(p: Piece, min: int, max: int, v: int)
    requires 0 <= min <= max < 0x8000_0000 && p.Reads(min, max)
    requires p.step.Some? ==> p.step.value <= 4_294_967_295 - max
    ensures AsPart(p, min, max).step > 0 && (InPart(AsPart(p, min, max), v) <==> p.Has(min, max, v))
  {
  }

  lemma UnionIsParts(ps: seq<Piece>, min: int, max: int, v: int)
    requires 0 <= min <= max < 0x8000_0000 && AllRead(ps, min, max) && Plain(ps, max)
    ensures forall p :: p in AsParts(ps, min, max) ==> p.step > 0
    ensures InParts(AsParts(ps, min, max), v) <==> Union(ps, min, max, v)
  {
    var parts := AsParts(ps, min, max);
    forall i | 0 <= i < |ps|
      ensures parts[i].step > 0 && (InPart(parts[i], v) <==> ps[i].Has(min, max, v))
    {
      PieceIsPart(ps[i], min, max, v);
    }
    hide InPart, AsPart, AsParts;
    if InParts(parts, v) {
      var p :| p in parts && InPart(p, v);
      var i :| 0 <= i < |parts| && parts[i] == p;
      assert ps[i].Has(min, max, v);
    }
    if i :| 0 <= i < |ps| && ps[i].Has(min, max, v) {
      assert parts[i] in parts && InPart(parts[i], v);
    }
  }

  /** Printing and parsing back: a list is rejected exactly when one of its pieces has its ends out of
      order or out of range or its step 0 or above 32 bits; otherwise the field is its meaning. */
  lemma ListMeans(ps: seq<Piece>, min: int, max: int)
    requires ps != [] && 0 <= min <= max < 0x8000_0000
    ensures FieldOf(ListText(ps), min, max).Some? <==> AllRead(ps, min, max)
    ensures AllRead(ps, min, max) && Plain(ps, max) ==> Means(FieldOf(ListText(ps), min, max).value, ps, min, max)
  {
    hide ReadPart, ReadParts, SplitOn, ListText, Union, InParts, Plain;
    OnlyStarIsStar(ps);
    ListSplits(ps);
    PiecesRead(ps, min, max);
    if AllRead(ps, min, max) && Plain(ps, max) && ps != [STAR] {
      FieldDenotes(ListText(ps), min, max);
      forall v
        ensures InParts(AsParts(ps, min, max), v) <==> Union(ps, min, max, v)
      {
        UnionIsParts(ps, min, max, v);
      }
    }
  }

  // ------------------------------------------------------------ single pieces

  /** From `lo` in strides of `step` up to `hi`. */
  function Every(lo: int, hi: int, step: int): (vs: seq<int>)
    requires step > 0
    ensures forall i :: 0 <= i < |vs| ==> lo <= vs[i] <= hi
    ensures Ascending(vs)
    decreases hi - lo + 1
  {
    if lo > hi then [] else [lo] + Every(lo + step, hi, step)
  }

  lemma {:induction false} EveryMeans(lo: int, hi: int, step: int, v: int)
    requires step > 0
    ensures v in Every(lo, hi, step) <==> lo <= v <= hi && (v - lo) % step == 0
    decreases hi - lo + 1
  {
    if lo > hi {
    } else {
      EveryMeans(lo + step, hi, step, v);
      if lo < v < lo + step { SmallRemainder(v - lo, step); }
      if v >= lo + step { RemainderShifts(v - lo, step); }
    }
  }

  lemma SmallRemainder(a: int, m: int)
    requires 0 < a < m
    ensures a % m != 0
  {
  }

  lemma RemainderShifts(a: int, m: int)
    requires m > 0
    ensures a % m == 0 <==> (a - m) % m == 0
  {
    if a % m == 0 { Remainder(a - m, m, a / m - 1, 0); }
    if (a - m) % m == 0 { NextMultiple(a - m, m); }
  }

  lemma PieceMeans(p: Piece, min: int, max: int)
    requires 0 <= min <= max < 0x8000_0000 && p.Reads(min, max) && p != STAR
    requires p.step.Some? ==> p.step.value <= 4_294_967_295 - max
    ensures FieldOf(p.Text(), min, max) ==
            Some(Values(Every(p.range.Lo(min), p.range.Hi(max), if p.step.Some? then p.step.value else 1)))
  {
    hide FieldOf;
    var step := if p.step.Some? then p.step.value else 1;
    ListMeans([p], min, max);
    var vs := Every(p.range.Lo(min), p.range.Hi(max), step);
    forall v
      ensures v in vs <==> Union([p], min, max, v)
    {
      EveryMeans(p.range.Lo(min), p.range.Hi(max), step, v);
      assert [p][0] == p;
    }
    AscendingIsUnique(FieldOf(p.Text(), min, max).value.vs, vs);
  }

  /** The four forms of a piece, each with exactly its values. */
  lemma FormsMean(lo: nat, hi: nat, step: nat, min: int, max: int)
    requires 0 <= min <= lo <= hi <= max < 0x8000_0000 && 0 < step <= 4_294_967_295 - max
    ensures FieldOf(Dec(lo) + "-" + Dec(hi) + "/" + Dec(step), min, max) == Some(Values(Every(lo, hi, step)))
    ensures FieldOf(Dec(lo) + "-" + Dec(hi), min, max) == Some(Values(Every(lo, hi, 1)))
    ensures FieldOf("*" + "/" + Dec(step), min, max) == Some(Values(Every(min, max, step)))
    ensures FieldOf(Dec(lo), min, max) == Some(Values([lo]))
    ensures FieldOf("*", min, max) == Some(Any)
  {
    hide FieldOf, Dec;
    PieceMeans(Piece(Span(lo, hi), Some(step)), min, max);
    PieceMeans(Piece(Span(lo, hi), None), min, max);
    PieceMeans(Piece(Whole, Some(step)), min, max);
    PieceMeans(Piece(Single(lo), None), min, max);
    assert Every(lo, lo, 1) == [lo];
    ListMeans([STAR], min, max);
  }

  // ------------------------------------------------------------------ schedules

  lemma PieceIsWord(p: Piece)
    ensures IsWord(p.Text())
  {
    forall c: char | c in p.Text()
      ensures !IsWhitespace(c)
    {
    }
  }

  lemma {:induction false} ListIsWord(ps: seq<Piece>)
    requires ps != []
    ensures IsWord(ListText(ps))
  {
    PieceIsWord(ps[0]);
    if |ps| == 1 {
    } else {
      ListIsWord(ps[1..]);
    }
  }

  datatype Lists = Lists(minute: seq<Piece>, hour: seq<Piece>, dom: seq<Piece>, month: seq<Piece>, dow: seq<Piece>) {
    predicate Filled() {
      minute != [] && hour != [] && dom != [] && month != [] && dow != []
    }

    function Text(): string
      requires Filled()
    {
      ListText(minute) + " " + (ListText(hour) + " " + (ListText(dom) + " " + (ListText(month) + " " + ListText(dow))))
    }

    predicate Reads() {
      && AllRead(minute, 0, 59) && AllRead(hour, 0, 23) && AllRead(dom, 1, 31) && AllRead(month, 1, 12)
      && AllRead(dow, 0, 7)
    }

    predicate IsPlain() {
      Plain(minute, 59) && Plain(hour, 23) && Plain(dom, 31) && Plain(month, 12) && Plain(dow, 7)
    }
  }

  /** Weekdays run from 0 to 6; 7 is another name for 0. */
  ghost predicate MeansDays(f: Field, ps: seq<Piece>) {
    match f
    case Any => ps == [STAR]
    case Values(vs) =>
      && ps != [STAR] && Ascending(vs)
      && forall v :: v in vs <==> 0 <= v <= 6 && (Union(ps, 0, 7, v) || (v == 0 && Union(ps, 0, 7, 7)))
  }

  ghost predicate MeansAll(c: Cron, l: Lists) {
    && Means(c.minute, l.minute, 0, 59) && Means(c.hour, l.hour, 0, 23) && Means(c.dom, l.dom, 1, 31)
    && Means(c.month, l.month, 1, 12) && MeansDays(c.dow, l.dow)
  }

  lemma FiveWords(a: string, b: string, c: string, d: string, e: string)
    requires IsWord(a) && IsWord(b) && IsWord(c) && IsWord(d) && IsWord(e)
    ensures Words(a + " " + (b + " " + (c + " " + (d + " " + e)))) == [a, b, c, d, e]
  {
    WordsOfWordThen(e, "");
    assert e + "" == e && Words("") == [];
    hide *;
    WordsOfWordSpace(d, e);
    WordsOfWordSpace(c, d + " " + e);
    WordsOfWordSpace(b, c + " " + (d + " " + e));
    WordsOfWordSpace(a, b + " " + (c + " " + (d + " " + e)));
  }

  lemma DaysMean(ps: seq<Piece>)
    requires ps != []
    ensures DowOf(ListText(ps)).Some? <==> AllRead(ps, 0, 7)
    ensures AllRead(ps, 0, 7) && Plain(ps, 7) ==> MeansDays(DowOf(ListText(ps)).value, ps)
  {
    hide FieldOf, Union, AllRead, Plain, ListText;
    ListMeans(ps, 0, 7);
    if AllRead(ps, 0, 7) && FieldOf(ListText(ps), 0, 7).value.Values? { DowFoldsSunday(ListText(ps)); }
  }

  /** Printing and parsing back a whole schedule: it is rejected exactly when some piece of some field
      does not read in that field's range, and otherwise every field has its meaning. */
  lemma ScheduleMeans(l: Lists)
    requires l.Filled()
    ensures CronOf(l.Text()).Some? <==> l.Reads()
    ensures l.Reads() && l.IsPlain() ==> MeansAll(CronOf(l.Text()).value, l)
  {
    hide Words, FieldOf, DowOf, Means, MeansDays, AllRead, Plain, ListText;
    ListIsWord(l.minute);
    ListIsWord(l.hour);
    ListIsWord(l.dom);
    ListIsWord(l.month);
    ListIsWord(l.dow);
    FiveWords(ListText(l.minute), ListText(l.hour), ListText(l.dom), ListText(l.month), ListText(l.dow));
    ListMeans(l.minute, 0, 59);
    ListMeans(l.hour, 0, 23);
    ListMeans(l.dom, 1, 31);
    ListMeans(l.month, 1, 12);
    DaysMean(l.dow);
  }

  /** The program's own example: at 8:00 from Monday to Friday. */
  lemma WeekdaysAtEight()
    ensures CronOf("0 8 * * 1-5") == Some(Cron(Values([0]), Values([8]), Any, Any, Values([1, 2, 3, 4, 5])))
  {
    hide FieldOf, Words, DowOf;
    EightOClockWords();
    EightOClock();
    MondayToFriday();
  }

  lemma EightOClockWords()
    ensures Words("0 8 * * 1-5") == ["0", "8", "*", "*", "1-5"]
  {
    hide *;
    EightOClockParts();
    EightOClockText();
    FiveWords("0", "8", "*", "*", "1-5");
  }

  lemma EightOClockParts()
    ensures IsWord("0") && IsWord("8") && IsWord("*") && IsWord("1-5")
  {
  }

  lemma EightOClockText()
    ensures "0" + " " + ("8" + " " + ("*" + " " + ("*" + " " + "1-5"))) == "0 8 * * 1-5"
  {
    hide *;
    assert "*" + " " + "1-5" == "* 1-5";
    assert "*" + " " + "* 1-5" == "* * 1-5";
    assert "8" + " " + "* * 1-5" == "8 * * 1-5";
    assert "0" + " " + "8 * * 1-5" == "0 8 * * 1-5";
  }

  lemma EightOClock()
    ensures FieldOf("0", 0, 59) == Some(Values([0])) && FieldOf("8", 0, 23) == Some(Values([8]))
    ensures FieldOf("*", 1, 31) == FieldOf("*", 1, 12) == Some(Any)
  {
    hide FieldOf;
    FormsMean(0, 0, 1, 0, 59);
    FormsMean(8, 8, 1, 0, 23);
    FormsMean(1, 1, 1, 1, 31);
    FormsMean(1, 1, 1, 1, 12);
  }

  lemma OneToFive()
    ensures Every(1, 5, 1) == [1, 2, 3, 4, 5]
  {
    assert Every(5, 5, 1) == [5];
    assert Every(4, 5, 1) == [4, 5];
    assert Every(3, 5, 1) == [3, 4, 5];
    assert Every(2, 5, 1) == [2, 3, 4, 5];
  }

  lemma OneDashFive()
    ensures FieldOf("1-5", 0, 7) == Some(Values([1, 2, 3, 4, 5]))
  {
    hide FieldOf, Every;
    OneToFive();
    FormsMean(1, 5, 1, 0, 7);
    assert Dec(1) + "-" + Dec(5) == "1-5";
  }

  lemma MondayToFriday()
    ensures DowOf("1-5") == Some(Values([1, 2, 3, 4, 5]))
  {
    hide *;
    OneDashFive();
    DowFoldsSunday("1-5");
    SameDays(DowOf("1-5").value.vs);
  }

  lemma SameDays(vs: seq<int>)
    requires Ascending(vs)
    requires forall v :: v in vs <==> 0 <= v <= 6 && (v in [1, 2, 3, 4, 5] || (v == 0 && 7 in [1, 2, 3, 4, 5]))
    ensures vs == [1, 2, 3, 4, 5]
  {
    AscendingIsUnique(vs, [1, 2, 3, 4, 5]);
  }
}
