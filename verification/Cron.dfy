/** backend/src/digest/cron.rs, lines 22-41 and 131-187: the five-field parser. */
module Cron {
  import opened Text

  // ------------------------------------------------------------------ fields

  datatype Field = Any | Values(vs: seq<int>) {
    predicate Contains(v: int) {
      Any? || v in vs
    }
  }

  datatype Cron = Cron(minute: Field, hour: Field, dom: Field, month: Field, dow: Field)

  /** One comma-separated piece, after its numbers have been read. */
  datatype Part = Part(lo: int, hi: int, step: int)

  predicate IsPart(p: Part, min: int, max: int) {
    min <= p.lo <= p.hi <= max && 0 < p.step < U32_MODULUS
  }

  /** The step addition is `u32`: it wraps in a release build exactly when this holds, and then
      on the first addition (see `NoLateOverflow`). */
  predicate Wraps(p: Part) {
    p.lo + p.step >= U32_MODULUS
  }

  /** What a piece denotes. A wrapping step walks down from `lo` by the step's complement. */
  predicate InPart(p: Part, v: int)
    requires p.step > 0
  {
    if Wraps(p) then 0 <= v <= p.lo && p.step < U32_MODULUS && (p.lo - v) % (U32_MODULUS - p.step) == 0
    else p.lo <= v <= p.hi && (v - p.lo) % p.step == 0
  }

  predicate InParts(ps: seq<Part>, v: int)
    requires forall p :: p in ps ==> p.step > 0
  {
    exists p :: p in ps && InPart(p, v)
  }

  /** The range before any `/`: `*`, `a-b` or a single value. */
  function ReadRange(range: string, min: int, max: int): Option<(int, int)> {
    if range == "*" then Some((min, max))
    else
      match SplitOnce(range, '-')
      case Some((a, b)) =>
        (match (ParseU32(a, 10), ParseU32(b, 10))
         case (Some(lo), Some(hi)) => Some((lo, hi))
         case (_, _) => None)
      case None =>
        match ParseU32(range, 10)
        case Some(v) => Some((v, v))
        case None => None
  }

  function ReadStep(s: string): (r: Option<int>)
    ensures r.Some? ==> 0 < r.value < U32_MODULUS
  {
    match ParseU32(s, 10)
    case Some(n) => if n > 0 then Some(n) else None
    case None => None
  }

  /** One piece of the comma list: a range with an optional `/step`. */
  function ReadPart(part: string, min: int, max: int): (r: Option<Part>)
    ensures r.Some? ==> IsPart(r.value, min, max)
  {
    var (range, step) :=
      match SplitOnce(part, '/')
      case Some((before, after)) => (before, ReadStep(after))
      case None => (part, Some(1));
    var bounds := ReadRange(range, min, max);
    if step.None? || bounds.None? then None
    else
      var (lo, hi) := bounds.value;
      if lo > hi || lo < min || hi > max then None else Some(Part(lo, hi, step.value))
  }

  function ReadParts(pieces: seq<string>, min: int, max: int): (r: Option<seq<Part>>)
    ensures r.Some? ==> |r.value| == |pieces| && forall p :: p in r.value ==> IsPart(p, min, max)
    ensures r.None? <==> exists s :: s in pieces && ReadPart(s, min, max).None?
  {
    if pieces == [] then Some([])
    else
      match (ReadPart(pieces[0], min, max), ReadParts(pieces[1..], min, max))
      case (Some(p), Some(ps)) => Some([p] + ps)
      case (_, _) => None
  }

  predicate Ascending(s: seq<int>) {
    forall i, j :: 0 <= i < j < |s| ==> s[i] < s[j]
  }

  /** The members of a list of pieces from `lo` up to `hi`, in ascending order. */
  function Members(ps: seq<Part>, lo: int, hi: int): (s: seq<int>)
    requires forall p :: p in ps ==> p.step > 0
    ensures forall v :: v in s <==> lo <= v <= hi && InParts(ps, v)
    ensures Ascending(s)
    decreases hi - lo + 1
  {
    if lo > hi then []
    else
      var rest := Members(ps, lo + 1, hi);
      assert forall i :: 0 <= i < |rest| ==> rest[i] in rest;
      if InParts(ps, lo) then [lo] + rest else rest
  }

  /** What `Field::parse` promises: the union of the pieces, each value once, in order. */
  function FieldOf(spec: string, min: int, max: int): Option<Field> {
    if spec == "*" then Some(Any)
    else
      match ReadParts(SplitOn(spec, ','), min, max)
      case None => None
      case Some(ps) => Some(Values(Members(ps, 0, max)))
  }

  /** Day-of-week accepts 0 to 7 and files 7 under 0. */
  function DowOf(spec: string): Option<Field> {
    match FieldOf(spec, 0, 7)
    case Some(Values(vs)) => Some(Values(FoldSunday(vs)))
    case other => other
  }

  function FoldSunday(vs: seq<int>): seq<int> {
    SortedDistinct(seq(|vs|, i requires 0 <= i < |vs| => if vs[i] == 7 then 0 else vs[i]))
  }

  function CronOf(expr: string): Option<Cron> {
    var parts := Words(expr);
    if |parts| != 5 then None
    else
      match (FieldOf(parts[0], 0, 59), FieldOf(parts[1], 0, 23), FieldOf(parts[2], 1, 31),
             FieldOf(parts[3], 1, 12), DowOf(parts[4]))
      case (Some(minute), Some(hour), Some(dom), Some(month), Some(dow)) =>
        Some(Cron(minute, hour, dom, month, dow))
      case (_, _, _, _, _) => None
  }

  // ------------------------------------------------- sort_unstable and dedup

  function InsertDistinct(s: seq<int>, v: int): (r: seq<int>)
    requires Ascending(s)
    ensures Ascending(r)
    ensures forall x :: x in r <==> x in s || x == v
  {
    if s == [] then [v]
    else if v < s[0] then [v] + s
    else if v == s[0] then s
    else
      var rest := InsertDistinct(s[1..], v);
      assert forall x :: x in s <==> x == s[0] || x in s[1..];
      HeadStaysFirst(s, v, rest);
      [s[0]] + rest
  }

  lemma HeadStaysFirst(s: seq<int>, v: int, rest: seq<int>)
    requires s != [] && Ascending(s) && v > s[0]
    requires forall x :: x in rest <==> x in s[1..] || x == v
    ensures forall i :: 0 <= i < |rest| ==> s[0] < rest[i]
  {
    forall i | 0 <= i < |rest|
      ensures s[0] < rest[i]
    {
      assert rest[i] in rest;
      if rest[i] != v {
        var j :| 0 <= j < |s[1..]| && s[1..][j] == rest[i];
        assert s[j + 1] == rest[i];
      }
    }
  }

  /** `sort_unstable` followed by `dedup`. */
  function SortedDistinct(s: seq<int>): (r: seq<int>)
    ensures Ascending(r)
    ensures forall x :: x in r <==> x in s
  {
    if s == [] then []
    else
      var r := InsertDistinct(SortedDistinct(s[1..]), s[0]);
      assert forall x :: x in s <==> x == s[0] || x in s[1..];
      r
  }

  lemma {:induction false} AscendingIsUnique(a: seq<int>, b: seq<int>)
    requires Ascending(a) && Ascending(b)
    requires forall x :: x in a <==> x in b
    ensures a == b
  {
    if a == [] {
      assert forall i :: 0 <= i < |b| ==> b[i] in b;
    } else {
      assert a[0] in a;
      assert b != [];
      assert b[0] in b;
      assert a[0] == b[0];
      forall x ensures x in a[1..] <==> x in b[1..] {
        assert x in a[1..] <==> x in a && x != a[0];
        assert x in b[1..] <==> x in b && x != b[0];
      }
      AscendingIsUnique(a[1..], b[1..]);
      assert a == [a[0]] + a[1..] && b == [b[0]] + b[1..];
    }
  }

  // ------------------------------------------------------------ Field::parse

  predicate Stepping(p: Part, v: int) {
    && 0 <= p.lo <= p.hi < 0x8000_0000 && 0 < p.step < U32_MODULUS
    && (v <= p.hi ==> Walking(p, v))
  }

  /** The loop variable is a member of the piece's progression. */
  predicate Walking(p: Part, v: int)
    requires p.step > 0
  {
    if Wraps(p) then InPart(p, v) else p.lo <= v && (v - p.lo) % p.step == 0
  }

  /** The values pushed from loop variable `v` on. */
  function Steps(p: Part, v: int): (s: seq<int>)
    requires Stepping(p, v)
    ensures v <= p.hi ==> s != []
    decreases Remaining(p, v)
  {
    if v > p.hi then []
    else
      StepAdvances(p, v);
      [v] + Steps(p, (v + p.step) % U32_MODULUS)
  }

  /** The `while v <= hi` loop, with the wrapping addition written out. */
  method PushSteps(values: seq<int>, p: Part) returns (out: seq<int>)
    requires Stepping(p, p.lo)
    ensures out == values + Steps(p, p.lo)
  {
    out := values;
    var v := p.lo;
    while v <= p.hi
      invariant Stepping(p, v)
      invariant out + Steps(p, v) == values + Steps(p, p.lo)
      decreases Remaining(p, v)
    {
      StepAdvances(p, v);
      out := out + [v];
      v := (v + p.step) % U32_MODULUS;
    }
  }

  function Remaining(p: Part, v: int): int {
    if v > p.hi then 0 else if Wraps(p) then v + 1 else p.hi + 1 - v
  }

  lemma {:induction false} StepsDenote(p: Part, v: int)
    requires Stepping(p, v) && v <= p.hi
    ensures forall x :: x in Steps(p, v) <==> InPart(p, x) && if Wraps(p) then x <= v else x >= v
    decreases Remaining(p, v)
  {
    StepAdvances(p, v);
    var next := (v + p.step) % U32_MODULUS;
    if next <= p.hi { StepsDenote(p, next); }
  }

  /** A walk that does not overflow at its first addition never does: a later value is at least
      one step, and two steps below 2^31 apart cannot reach 2^32. */
  lemma NoLateOverflow(p: Part, v: int)
    requires 0 <= p.lo && 0 < p.step && v <= p.hi < 0x8000_0000
    requires !Wraps(p) && Walking(p, v) && v > p.lo
    ensures v + p.step < U32_MODULUS
  {
    if v - p.lo < p.step { MultiplesApart(0, v - p.lo, p.step); }
  }

  lemma StepAdvances(p: Part, v: int)
    requires Stepping(p, v) && v <= p.hi
    ensures var next := (v + p.step) % U32_MODULUS;
            && Stepping(p, next)
            && 0 <= Remaining(p, next) < Remaining(p, v)
            && (if Wraps(p) then next < v || next > p.hi else next > v)
            && InPart(p, v)
            && forall x :: InPart(p, x) ==>
              if Wraps(p) then x <= v ==> x == v || (next <= p.hi && x <= next)
              else x >= v ==> x == v || (next <= p.hi && x >= next)
  {
    if Wraps(p) { DownStep(p, v); } else { UpStep(p, v); }
  }

  lemma UpStep(p: Part, v: int)
    requires 0 <= p.lo <= v <= p.hi < 0x8000_0000 && 0 < p.step < U32_MODULUS && !Wraps(p)
    requires (v - p.lo) % p.step == 0
    ensures (v + p.step) % U32_MODULUS == v + p.step
    ensures (v + p.step - p.lo) % p.step == 0
    ensures forall x :: InPart(p, x) && x < v + p.step <==> x == v || (InPart(p, x) && x < v)
  {
    if v > p.lo { NoLateOverflow(p, v); }
    NextMultiple(v - p.lo, p.step);
    forall x | InPart(p, x) && v <= x < v + p.step ensures x == v {
      MultiplesApart(v - p.lo, x - p.lo, p.step);
    }
  }

  lemma DownStep(p: Part, v: int)
    requires 0 <= v <= p.lo <= p.hi < 0x8000_0000 && 0 < p.step < U32_MODULUS && Wraps(p)
    requires InPart(p, v)
    ensures var k := U32_MODULUS - p.step;
            && (v + p.step) % U32_MODULUS == (if v >= k then v - k else v + p.step)
            && (v >= k ==> InPart(p, v - k))
            && v + p.step > p.hi
            && forall x :: InPart(p, x) && x > v - k <==> x == v || (InPart(p, x) && x > v)
  {
    var k := U32_MODULUS - p.step;
    NextMultiple(p.lo - v, k);
    forall x | InPart(p, x) && v - k < x <= v ensures x == v {
      MultiplesApart(p.lo - v, p.lo - x, k);
    }
  }

  lemma NextMultiple(a: int, m: int)
    requires m > 0 && a % m == 0
    ensures (a + m) % m == 0
  {
    var e := a / m + 1 - (a + m) / m;
    assert m * e == (a + m) % m;
    SmallProduct(m, e);
  }

  lemma SmallProduct(m: int, e: int)
    requires m > 0 && 0 <= m * e < m
    ensures e == 0
  {
  }

  /** Two multiples of `m` less than `m` apart are equal. */
  lemma MultiplesApart(a: int, b: int, m: int)
    requires m > 0 && a % m == 0 && b % m == 0
    requires a <= b < a + m
    ensures a == b
  {
    var d := b / m - a / m;
    assert b - a == m * d;
  }

  /** `Field::parse`. Callers pass `max` up to 59. */
  method ParseField(spec: string, min: int, max: int) returns (r: Option<Field>)
    requires 0 <= min <= max < 0x8000_0000
    ensures r == FieldOf(spec, min, max)
  {
    hide InPart, Walking, Stepping, ReadPart, SplitOn, Members, SortedDistinct, Steps;
    if spec == "*" { return Some(Any); }
    var values: seq<int> := [];
    var pieces := SplitOn(spec, ',');
    ghost var ps: seq<Part> := [];
    var i := 0;
    assert pieces[0..] == pieces;
    assert forall rest: seq<Part> :: [] + rest == rest;
    while i < |pieces|
      invariant 0 <= i <= |pieces| && |ps| == i
      invariant forall p :: p in ps ==> IsPart(p, min, max)
      invariant ReadParts(pieces, min, max) ==
                match ReadParts(pieces[i..], min, max) case Some(rest) => Some(ps + rest) case None => None
      invariant forall x :: x in values <==> InParts(ps, x)
      invariant i > 0 ==> values != []
    {
      var part := ReadPart(pieces[i], min, max);
      assert pieces[i..] == [pieces[i]] + pieces[i + 1..];
      if part.None? { return None; }
      ghost var old_values := values;
      StartsOnItself(part.value);
      values := PushSteps(values, part.value);
      StepsDenote(part.value, part.value.lo);
      InPartsAppend(ps, part.value);
      assert forall rest: seq<Part> :: ps + ([part.value] + rest) == (ps + [part.value]) + rest;
      ps := ps + [part.value];
      i := i + 1;
    }
    if values == [] { return None; }
    assert ps + [] == ps;
    PartsBounded(ps, min, max);
    assert forall x :: x in Members(ps, 0, max) <==> x in SortedDistinct(values);
    AscendingIsUnique(SortedDistinct(values), Members(ps, 0, max));
    r := Some(Values(SortedDistinct(values)));
  }

  lemma PartsBounded(ps: seq<Part>, min: int, max: int)
    requires 0 <= min && forall p :: p in ps ==> IsPart(p, min, max) && p.step > 0
    ensures forall x :: InParts(ps, x) ==> 0 <= x <= max
  {
  }

  lemma StartsOnItself(p: Part)
    requires 0 <= p.lo <= p.hi < 0x8000_0000 && 0 < p.step < U32_MODULUS
    ensures Stepping(p, p.lo) && InPart(p, p.lo)
    ensures forall x :: InPart(p, x) ==> if Wraps(p) then x <= p.lo else x >= p.lo
  {
  }

  lemma InPartsAppend(ps: seq<Part>, p: Part)
    requires (forall q :: q in ps ==> q.step > 0) && p.step > 0
    ensures forall x :: InParts(ps + [p], x) <==> InParts(ps, x) || InPart(p, x)
  {
    forall x | InParts(ps, x) ensures InParts(ps + [p], x) {
      var q :| q in ps && InPart(q, x);
      assert q in ps + [p];
    }
    assert p in ps + [p];
  }

  /** `Field::parse_dow`. */
  method ParseDow(spec: string) returns (r: Option<Field>)
    ensures r == DowOf(spec)
  {
    var f := ParseField(spec, 0, 7);
    match f
    case Some(Values(vs)) => r := Some(Values(FoldSunday(vs)));
    case _ => r := f;
  }

  /** `Cron::parse`: any failing field fails the whole expression. */
  method Parse(expr: string) returns (r: Option<Cron>)
    ensures r == CronOf(expr)
  {
    var parts := Words(expr);
    if |parts| != 5 { return None; }
    var minute := ParseField(parts[0], 0, 59);
    if minute.None? { return None; }
    var hour := ParseField(parts[1], 0, 23);
    if hour.None? { return None; }
    var dom := ParseField(parts[2], 1, 31);
    if dom.None? { return None; }
    var month := ParseField(parts[3], 1, 12);
    if month.None? { return None; }
    var dow := ParseDow(parts[4]);
    if dow.None? { return None; }
    r := Some(Cron(minute.value, hour.value, dom.value, month.value, dow.value));
  }

  // ------------------------------------------------- what parsing guarantees

  /** Every accepted list denotes the union of its pieces: sorted, without repeats, not empty,
      never above `max`, with at least one value in range. */
  lemma FieldDenotes(spec: string, min: int, max: int)
    requires 0 <= min <= max < 0x8000_0000
    requires FieldOf(spec, min, max).Some? && FieldOf(spec, min, max).value.Values?
    ensures var ps := ReadParts(SplitOn(spec, ','), min, max).value;
            var vs := FieldOf(spec, min, max).value.vs;
            && Ascending(vs)
            && (forall v :: v in vs <==> InParts(ps, v))
            && (forall v :: v in vs ==> 0 <= v <= max)
            && (exists v :: v in vs && min <= v <= max)
  {
    var ps := ReadParts(SplitOn(spec, ','), min, max).value;
    forall p | p in ps ensures InPart(p, p.lo) { StartsOnItself(p); }
    assert ps[0] in ps && InPart(ps[0], ps[0].lo);
    assert ps[0].lo in FieldOf(spec, min, max).value.vs;
  }

  /** With every step at most u32::MAX less the field's maximum nothing overflows, and the field is
      the union of its stepped ranges, inside the range of the field. */
  lemma UnionOfRanges(spec: string, min: int, max: int)
    requires 0 <= min <= max < 0x8000_0000
    requires FieldOf(spec, min, max).Some? && FieldOf(spec, min, max).value.Values?
    requires forall p :: p in ReadParts(SplitOn(spec, ','), min, max).value ==> p.step <= U32_MODULUS - 1 - max
    ensures var ps := ReadParts(SplitOn(spec, ','), min, max).value;
            var vs := FieldOf(spec, min, max).value.vs;
            && (forall p :: p in ps ==> !Wraps(p))
            && (forall v :: v in vs <==> exists p :: p in ps && p.lo <= v <= p.hi && (v - p.lo) % p.step == 0)
            && (forall v :: v in vs ==> min <= v <= max)
  {
    FieldDenotes(spec, min, max);
    hide FieldOf, ReadPart, SplitOn;
    var ps := ReadParts(SplitOn(spec, ','), min, max).value;
    forall v
      ensures InParts(ps, v) <==> exists p :: p in ps && p.lo <= v <= p.hi && (v - p.lo) % p.step == 0
    {
      PlainPieces(ps, v);
    }
  }

  lemma PlainPieces(ps: seq<Part>, v: int)
    requires forall p :: p in ps ==> p.step > 0 && !Wraps(p)
    ensures InParts(ps, v) <==> exists p :: p in ps && p.lo <= v <= p.hi && (v - p.lo) % p.step == 0
  {
    forall p | p in ps
      ensures InPart(p, v) <==> p.lo <= v <= p.hi && (v - p.lo) % p.step == 0
    {
    }
  }

  /** The exact condition for the promise "inside [min, max]": it fails only for the two fields
      that start at 1, and only when a wrapping step walks down to 0. */
  lemma FieldStaysInRange(spec: string, min: int, max: int)
    requires 0 <= min <= 1 && min <= max < 0x8000_0000
    requires FieldOf(spec, min, max).Some? && FieldOf(spec, min, max).value.Values?
    ensures var ps := ReadParts(SplitOn(spec, ','), min, max).value;
            (forall v :: v in FieldOf(spec, min, max).value.vs ==> min <= v <= max) <==>
            min == 0 || !exists p :: p in ps && Wraps(p) && p.lo % (U32_MODULUS - p.step) == 0
  {
    FieldDenotes(spec, min, max);
    var ps := ReadParts(SplitOn(spec, ','), min, max).value;
    var vs := FieldOf(spec, min, max).value.vs;
    if p :| min == 1 && p in ps && Wraps(p) && p.lo % (U32_MODULUS - p.step) == 0 {
      assert InPart(p, 0);
      assert 0 in vs;
    }
    if min == 1 && 0 in vs {
      var p :| p in ps && InPart(p, 0);
      assert Wraps(p);
    }
  }

  lemma DigitStep(d: char, rest: string, acc: nat)
    requires '0' <= d <= '9' && acc * 10 + (d as int - 0x30) < U32_MODULUS
    ensures ParseDigits([d] + rest, 10, acc) == ParseDigits(rest, 10, acc * 10 + (d as int - 0x30))
  {
    assert ([d] + rest)[1..] == rest;
  }

  lemma LargestStep()
    ensures ReadStep("4294967295") == Some(U32_MODULUS - 1)
  {
    hide ParseDigits;
    FirstDigits();
    LastDigits();
    assert "4294967295"[0] == '4';
  }

  lemma FirstDigits()
    ensures ParseDigits("4294967295", 10, 0) == ParseDigits("67295", 10, 42949)
  {
    hide ParseDigits;
    var s := "4294967295";
    DigitStep('4', s[1..], 0);
    DigitStep('2', s[2..], 4);
    DigitStep('9', s[3..], 42);
    DigitStep('4', s[4..], 429);
    DigitStep('9', s[5..], 4294);
    assert forall i :: 0 <= i < 5 ==> s[i..] == [s[i]] + s[i + 1..];
    assert s[0..] == s && s[5..] == "67295";
  }

  lemma LastDigits()
    ensures ParseDigits("67295", 10, 42949) == Some(U32_MODULUS - 1)
  {
    NoDigitsLeft(U32_MODULUS - 1);
    hide ParseDigits;
    var s := "67295";
    DigitStep('6', s[1..], 42949);
    DigitStep('7', s[2..], 429496);
    DigitStep('2', s[3..], 4294967);
    DigitStep('9', s[4..], 42949672);
    DigitStep('5', s[5..], 429496729);
    assert forall i :: 0 <= i < 5 ==> s[i..] == [s[i]] + s[i + 1..];
    assert s[0..] == s && s[5..] == "";
  }

  lemma NoDigitsLeft(acc: nat)
    requires acc < U32_MODULUS
    ensures ParseDigits("", 10, acc) == Some(acc)
  {
  }

  /** The failing case is reachable from text: with this step the day-of-month field accepts a
      day 0. */
  lemma DayZero()
    ensures FieldOf("5/4294967295", 1, 31).Some? && FieldOf("5/4294967295", 1, 31).value.Values?
    ensures 0 in FieldOf("5/4294967295", 1, 31).value.vs
  {
    var spec := "5/4294967295";
    hide Members, ParseU32;
    assert spec == "5" + "/4294967295";
    SplitOnNothing(spec, ',');
    SlashSplit();
    LargestStep();
    assert ParseU32("5", 10) == Some(5) by { Five(); }
    assert SplitOnce("5", '-') == None by { Five(); }
    hide SplitOnce, SplitOn, ReadStep;
    assert ReadPart(spec, 1, 31) == Some(Part(5, 5, U32_MODULUS - 1));
    OnePiece(spec, Part(5, 5, U32_MODULUS - 1));
    var p := Part(5, 5, U32_MODULUS - 1);
    assert p in [p] && InPart(p, 0);
    assert InParts([p], 0);
  }

  lemma SlashSplit()
    ensures SplitOnce("5/4294967295", '/') == Some(("5", "4294967295"))
  {
    var spec := "5/4294967295";
    assert spec[1..][0] == '/' && spec[1..][1..] == "4294967295";
    assert SplitOnce(spec[1..], '/') == Some(("", "4294967295"));
    assert ['5'] + "" == "5";
  }

  lemma Five()
    ensures ParseU32("5", 10) == Some(5) && SplitOnce("5", '-') == None
  {
    assert "5"[1..] == "";
    assert ParseDigits("", 10, 5) == Some(5);
  }

  lemma OnePiece(spec: string, p: Part)
    requires ReadPart(spec, 1, 31) == Some(p)
    ensures ReadParts([spec], 1, 31) == Some([p])
  {
    assert [spec][1..] == [];
    assert ReadParts([], 1, 31) == Some([]);
    assert [p] + [] == [p];
  }

  /** 7 is identified with 0, every other value is kept. */
  lemma DowFoldsSunday(spec: string)
    requires FieldOf(spec, 0, 7).Some? && FieldOf(spec, 0, 7).value.Values?
    ensures DowOf(spec).Some? && DowOf(spec).value.Values?
    ensures var vs, ws := FieldOf(spec, 0, 7).value.vs, DowOf(spec).value.vs;
            && Ascending(ws) && ws != []
            && forall v :: v in ws <==> 0 <= v <= 6 && (v in vs || (v == 0 && 7 in vs))
  {
    FieldDenotes(spec, 0, 7);
    var vs := FieldOf(spec, 0, 7).value.vs;
    var mapped := seq(|vs|, i requires 0 <= i < |vs| => if vs[i] == 7 then 0 else vs[i]);
    forall v ensures v in mapped <==> 0 <= v <= 6 && (v in vs || (v == 0 && 7 in vs)) {
      if v in mapped {
        var i :| 0 <= i < |mapped| && mapped[i] == v;
        assert vs[i] in vs;
      }
      if v in vs && v <= 6 {
        var i :| 0 <= i < |vs| && vs[i] == v;
        assert mapped[i] == v;
      }
      if v == 0 && 7 in vs {
        var i :| 0 <= i < |vs| && vs[i] == 7;
        assert mapped[i] == 0;
      }
    }
    assert mapped[0] in mapped;
  }
}
