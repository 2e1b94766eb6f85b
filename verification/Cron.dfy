/** The five-field cron expression: its field parser and the minute-by-minute search. */
module Cron {
  import opened Text
  import opened Calendar

  // ----- the field parser ----------------------------------------------------

  datatype Error =
    | InvalidStep | InvalidRangeStart | InvalidRangeEnd | InvalidValue | OutOfRange
    | FieldCount | NoMatch

  /** One list element, parsed: every `step`-th value from `start` to `end`. */
  datatype Range = Range(start: int, end: int, step: int) {
    predicate Within(lo: int, hi: int) {
      lo <= start <= end <= hi && 1 <= step <= MAX_INT64
    }

    /** A whole number of steps away from the start. */
    predicate OnGrid(v: int)
      requires step >= 1
    {
      (v - start) % step == 0
    }

    /** The values the list element stands for. */
    predicate Names(v: int)
      requires step >= 1
    {
      start <= v <= end && OnGrid(v)
    }

    /** The last value of the element, at most `end`. */
    function Last(): int
      requires step >= 1
    {
      end - (end - start) % step
    }
  }

  function ParseSpan(part: string, lo: int, hi: int): Result<(int, int), Error> {
    if part == "*" then Ok((lo, hi))
    else match Cut(part, '-')
      case Some(ends) => (
        match (Atoi(ends.0), Atoi(ends.1))
        case (None, _) => Err(InvalidRangeStart)
        case (Some(_), None) => Err(InvalidRangeEnd)
        case (Some(a), Some(b)) => Ok((a, b)))
      case None => (
        match Atoi(part)
        case None => Err(InvalidValue)
        case Some(v) => Ok((v, v)))
  }

  function ParsePart(part: string, lo: int, hi: int): (r: Result<Range, Error>)
    ensures r.Ok? ==> r.value.Within(lo, hi)
  {
    var cut := Cut(part, '/');
    var step := if cut.Some? then Atoi(cut.value.1) else Some(1);
    if step.None? || step.value < 1 then Err(InvalidStep)
    else match ParseSpan(if cut.Some? then cut.value.0 else part, lo, hi)
      case Err(e) => Err(e)
      case Ok(ends) =>
        if ends.0 < lo || ends.1 > hi || ends.0 > ends.1 then Err(OutOfRange)
        else Ok(Range(ends.0, ends.1, step.value))
  }

  // ----- marking values: the inner loop, with its 64-bit addition ------------

  /** The values `for v := start; v <= end; v += step` can take for field bounds
      below 60: the sum only wraps for steps close to 2^63, and then v alternates
      between the far negative end and values near zero. */
  predicate InOrbit(v: int, end: int, step: int) {
    && 0 <= end < 60 && 1 <= step <= MAX_INT64
    && (0 <= v || (step > MAX_INT64 - end && (-60 <= v || -MAX_INT64 - 1 <= v <= -MAX_INT64 + 60)))
  }

  function Remaining(v: int, end: int, step: int): int {
    if step <= MAX_INT64 - end then end - v
    else if v < -60 then 2 * (v + step) + 201
    else 2 * v + 200
  }

  lemma WrapOnce(sum: int)
    requires -MAX_INT64 - 1 <= sum <= TWO_64
    ensures Wrap64(sum) == if sum <= MAX_INT64 then sum else sum - TWO_64
  {
  }

  lemma OrbitStep(v: int, end: int, step: int)
    requires InOrbit(v, end, step) && v <= end
    ensures var next := Wrap64(v + step);
            next <= end ==> InOrbit(next, end, step)
                            && 0 <= Remaining(next, end, step) < Remaining(v, end, step)
    ensures 0 <= Remaining(v, end, step)
    ensures Wrap64(v + step) == if v + step <= MAX_INT64 then v + step else v + step - TWO_64
  {
    hide Wrap64;
    WrapOnce(v + step);
  }

  /** The values the loop marks from `v` on. */
  function Marked(v: int, end: int, step: int): set<int>
    requires InOrbit(v, end, step) || v > end
    decreases if v <= end then Remaining(v, end, step) + 1 else 0
  {
    if v > end then {}
    else
      OrbitStep(v, end, step);
      {v} + Marked(Wrap64(v + step), end, step)
  }

  lemma {:induction false} ModuloStep(x: int, d: int)
    requires d > 0
    ensures (x - d) % d == x % d
  {
    var q := x / d - (x - d) / d;
    assert q * d == d + (x - d) % d - x % d;
    if q <= 0 {
      NonPositiveProduct(q, d);
    } else if q >= 2 {
      NonPositiveProduct(2 - q, d);
    }
  }

  lemma NonPositiveProduct(q: int, d: int)
    requires q <= 0 && d > 0
    ensures q * d <= 0
  {
  }

  lemma StartOnGrid(r: Range)
    requires r.step >= 1
    ensures r.OnGrid(r.start)
  {
  }

  lemma NextOnGrid(r: Range, v: int)
    requires r.step >= 1 && r.OnGrid(v)
    ensures r.OnGrid(v + r.step)
  {
    ModuloStep(v + r.step - r.start, r.step);
  }

  /** Without a wrap the marks from `v` are every `step`-th value up to `end`. */
  lemma {:induction false} MarkedWithoutWrap(r: Range, v: int, u: int)
    requires r.Within(0, 59) && r.Last() + r.step <= MAX_INT64
    requires r.start <= v && r.OnGrid(v)
    ensures u in Marked(v, r.end, r.step) <==> v <= u && r.Names(u)
    decreases r.end - v
  {
    hide Range.OnGrid, Range.Last, Wrap64;
    if v <= r.end {
      NotPastLast(r, v);
      OrbitStep(v, r.end, r.step);
      NextOnGrid(r, v);
      MarkedWithoutWrap(r, v + r.step, u);
      if v < u < v + r.step { NoneBetween(r, v, u); }
    }
  }

  lemma NoneBetween(r: Range, v: int, u: int)
    requires r.step >= 1 && r.OnGrid(v) && v < u < v + r.step
    ensures !r.OnGrid(u)
  {
    var d, x, y := r.step, v - r.start, u - r.start;
    if y % d == 0 {
      assert (y / d - x / d) * d == y - x;
      if y / d - x / d <= 0 {
        NonPositiveProduct(y / d - x / d, d);
      } else {
        NonPositiveProduct(1 - (y / d - x / d), d);
      }
    }
  }

  lemma NotPastLast(r: Range, v: int)
    requires r.step >= 1 && r.start <= v <= r.end && r.OnGrid(v)
    ensures v <= r.Last()
  {
    hide Range.OnGrid, Range.Last;
    LastIsMark(r);
    if r.Last() < v { NoneBetween(r, r.Last(), v); }
  }

  lemma LastIsMark(r: Range)
    requires r.step >= 1 && r.start <= r.end
    ensures r.start <= r.Last() <= r.end < r.Last() + r.step
    ensures r.OnGrid(r.Last())
  {
    var x, d := r.end - r.start, r.step;
    assert x == (x / d) * d + x % d;
    if x / d < 0 { NonPositiveProduct(x / d + 1, d); }
    MultipleIsZero(x / d, d);
  }

  lemma {:induction false} MultipleIsZero(q: int, d: int)
    requires d > 0 && 0 <= q
    ensures 0 <= q * d && (q * d) % d == 0
    decreases q
  {
    if q > 0 {
      MultipleIsZero(q - 1, d);
      assert (q - 1) * d == q * d - d;
      ModuloStep(q * d, d);
    }
  }

  /** The loop reaches the last value before anything can wrap ... */
  lemma {:induction false} MarkedReachesLast(r: Range, v: int)
    requires r.Within(0, 59) && r.start <= v <= r.Last() && r.OnGrid(v)
    ensures InOrbit(r.Last(), r.end, r.step)
    ensures Marked(r.Last(), r.end, r.step) <= Marked(v, r.end, r.step)
    decreases r.end - v
  {
    hide Range.OnGrid, Range.Last, Wrap64;
    LastIsMark(r);
    if v < r.Last() {
      if r.Last() < v + r.step { NoneBetween(r, v, r.Last()); }
      OrbitStep(v, r.end, r.step);
      NextOnGrid(r, v);
      MarkedReachesLast(r, v + r.step);
    }
  }

  /** A list element marks exactly its denotation if and only if the addition
      after its last value stays within 64 bits; otherwise the sum wraps to a
      negative number, which the loop condition lets in. */
  lemma MarkedIsDenotationIff(r: Range)
    requires r.Within(0, 59)
    ensures (forall v :: v in Marked(r.start, r.end, r.step) <==> r.Names(v))
            <==> r.Last() + r.step <= MAX_INT64
  {
    StartOnGrid(r);
    hide Marked, Range.Last, Range.OnGrid;
    if r.Last() + r.step <= MAX_INT64 {
      forall v ensures v in Marked(r.start, r.end, r.step) <==> r.Names(v) {
        MarkedWithoutWrap(r, r.start, v);
      }
    } else {
      var v := WrappedMark(r);
      assert !r.Names(v);
    }
  }

  lemma WrappedMark(r: Range) returns (v: int)
    requires r.Within(0, 59) && r.Last() + r.step > MAX_INT64
    ensures v in Marked(r.start, r.end, r.step) && v < 0
  {
    hide Marked, Range.Last, InOrbit;
    StartReachesLast(r);
    v := r.Last() + r.step - TWO_64;
    WrapIsMarked(r.Last(), r.end, r.step);
  }

  lemma StartReachesLast(r: Range)
    requires r.Within(0, 59)
    ensures r.Last() <= r.end && InOrbit(r.Last(), r.end, r.step)
    ensures Marked(r.Last(), r.end, r.step) <= Marked(r.start, r.end, r.step)
  {
    StartOnGrid(r);
    hide Marked, Range.Last, Range.OnGrid;
    LastIsMark(r);
    MarkedReachesLast(r, r.start);
  }

  lemma WrapIsMarked(last: int, end: int, step: int)
    requires InOrbit(last, end, step) && last <= end && last + step > MAX_INT64
    ensures last + step - TWO_64 in Marked(last, end, step)
  {
  }

  /** The minute field "5/9223372036854775807" lets minute 3 through as well. */
  lemma WrappedStepMarksMore()
    ensures var term := Term(Value(5), Some(MAX_INT64));
            ParsePart(term.Print(), 0, 59) == Ok(Range(5, 5, MAX_INT64))
    ensures 3 in Marked(5, 5, MAX_INT64) && !Range(5, 5, MAX_INT64).Names(3)
  {
    ParsePrinted(Term(Value(5), Some(MAX_INT64)), 0, 59);
    MarkedStep(5, 5, MAX_INT64);
    MarkedStep(5 + MAX_INT64 - TWO_64, 5, MAX_INT64);
    MarkedStep(3, 5, MAX_INT64);
    hide Marked, ParsePart, Itoa;
  }

  lemma MarkedStep(v: int, end: int, step: int)
    requires InOrbit(v, end, step) && v <= end
    ensures var next := Wrap64(v + step); InOrbit(next, end, step) || next > end
    ensures Marked(v, end, step) == {v} + Marked(Wrap64(v + step), end, step)
  {
  }

  // ----- the grammar ---------------------------------------------------------

  /** A list element as written: `*`, a value or a span, perhaps with a step. */
  datatype Base = Every | Value(v: nat) | Span(first: nat, last: nat) {
    function Print(): string {
      match this
      case Every => "*"
      case Value(v) => Itoa(v)
      case Span(first, last) => Itoa(first) + ['-'] + Itoa(last)
    }

    function Bounds(lo: int, hi: int): (int, int) {
      match this
      case Every => (lo, hi)
      case Value(v) => (v, v)
      case Span(first, last) => (first, last)
    }

    predicate Representable() {
      match this
      case Every => true
      case Value(v) => v <= MAX_INT64
      case Span(first, last) => first <= MAX_INT64 && last <= MAX_INT64
    }
  }

  datatype Term = Term(base: Base, step: Option<nat>) {
    function Print(): string {
      match step
      case None => base.Print()
      case Some(n) => base.Print() + ['/'] + Itoa(n)
    }

    predicate Representable() {
      base.Representable() && (step.Some? ==> step.value <= MAX_INT64)
    }

    /** What the element means: its error, or its values. */
    function Meaning(lo: int, hi: int): Result<Range, Error> {
      var bounds := base.Bounds(lo, hi);
      if step == Some(0) then Err(InvalidStep)
      else if bounds.0 < lo || bounds.1 > hi || bounds.0 > bounds.1 then Err(OutOfRange)
      else Ok(Range(bounds.0, bounds.1, if step.Some? then step.value else 1))
    }
  }

  lemma DigitsOnly(n: nat)
    ensures '/' !in Itoa(n) && '-' !in Itoa(n) && ',' !in Itoa(n) && Itoa(n) != "*"
  {
  }

  lemma BaseCharacters(base: Base)
    ensures '/' !in base.Print() && ',' !in base.Print()
  {
  }

  lemma ParsePrintedBase(base: Base, lo: int, hi: int)
    requires base.Representable()
    ensures ParseSpan(base.Print(), lo, hi) == Ok(base.Bounds(lo, hi))
  {
    hide Itoa, Atoi, Cut;
    match base
    case Every =>
    case Value(v) =>
      DigitsOnly(v);
      CutFinds(Itoa(v), '-');
      AtoiItoa(v);
    case Span(first, last) =>
      DigitsOnly(first);
      CutAt(Itoa(first), '-', Itoa(last));
      AtoiItoa(first);
      AtoiItoa(last);
      assert '-' in base.Print();
  }

  /** Parsing what the grammar prints gives what the grammar means. */
  lemma ParsePrinted(term: Term, lo: int, hi: int)
    requires term.Representable()
    ensures ParsePart(term.Print(), lo, hi) == term.Meaning(lo, hi)
    ensures ',' !in term.Print()
  {
    hide Itoa, Atoi, Cut, ParseSpan, Base.Print;
    BaseCharacters(term.base);
    ParsePrintedBase(term.base, lo, hi);
    match term.step
    case None =>
      CutFinds(term.base.Print(), '/');
    case Some(n) =>
      CutAt(term.base.Print(), '/', Itoa(n));
      AtoiItoa(n);
      DigitsOnly(n);
  }

  // ----- whole fields --------------------------------------------------------

  /** The values marked by one list element. */
  function PartValues(part: string, lo: int, hi: int): set<int>
    requires 0 <= lo <= hi < 60 && ParsePart(part, lo, hi).Ok?
  {
    var r := ParsePart(part, lo, hi).value;
    Marked(r.start, r.end, r.step)
  }

  /** A field is the union of its elements, or the first element's error. */
  function FieldValues(parts: seq<string>, lo: int, hi: int): Result<set<int>, Error>
    requires 0 <= lo <= hi < 60
  {
    if parts == [] then Ok({})
    else match ParsePart(parts[0], lo, hi)
      case Err(e) => Err(e)
      case Ok(_) => (
        match FieldValues(parts[1..], lo, hi)
        case Err(e) => Err(e)
        case Ok(rest) => Ok(PartValues(parts[0], lo, hi) + rest))
  }

  lemma {:induction false} FieldMembers(parts: seq<string>, lo: int, hi: int)
    requires 0 <= lo <= hi < 60
    ensures var r := FieldValues(parts, lo, hi);
            && (r.Err? <==> exists i :: 0 <= i < |parts| && ParsePart(parts[i], lo, hi).Err?)
            && (r.Ok? ==>
                  forall v :: (v in r.value <==> exists i :: 0 <= i < |parts| && v in PartValues(parts[i], lo, hi)))
  {
    hide ParsePart, PartValues;
    if parts != [] {
      FieldMembers(parts[1..], lo, hi);
      assert parts == [parts[0]] + parts[1..];
    }
  }

  method MarkRange(out: set<int>, r: Range) returns (marked: set<int>)
    requires r.Within(0, 59)
    ensures marked == out + Marked(r.start, r.end, r.step)
  {
    marked := out;
    var v := r.start;
    while v <= r.end
      invariant v <= r.end ==> InOrbit(v, r.end, r.step)
      invariant marked + Marked(v, r.end, r.step) == out + Marked(r.start, r.end, r.step)
      decreases if v <= r.end then Remaining(v, r.end, r.step) + 1 else 0
    {
      OrbitStep(v, r.end, r.step);
      marked := marked + {v};
      v := Wrap64(v + r.step);
    }
  }

  method CronField(f: string, lo: int, hi: int) returns (r: Result<set<int>, Error>)
    requires 0 <= lo <= hi < 60
    ensures r == FieldValues(Split(f, ','), lo, hi)
    ensures r.Ok? ==> r.value != {}
  {
    hide ParsePart, PartValues, Marked;
    var parts := Split(f, ',');
    var out: set<int> := {};
    assert parts[0..] == parts;
    for i := 0 to |parts|
      invariant FieldValues(parts, lo, hi) == Combine(out, FieldValues(parts[i..], lo, hi))
      invariant i > 0 ==> out != {}
    {
      FieldStep(parts, i, lo, hi, out);
      match ParsePart(parts[i], lo, hi) {
        case Err(e) => return Err(e);
        case Ok(range) =>
          MarkedFirst(range);
          out := MarkRange(out, range);
      }
    }
    assert out + {} == out;
    r := Ok(out);
  }

  function Combine(out: set<int>, rest: Result<set<int>, Error>): (r: Result<set<int>, Error>)
    ensures out == {} ==> r == rest
  {
    assert rest.Ok? ==> {} + rest.value == rest.value;
    if rest.Ok? then Ok(out + rest.value) else rest
  }

  lemma FieldStep(parts: seq<string>, i: nat, lo: int, hi: int, out: set<int>)
    requires i < |parts| && 0 <= lo <= hi < 60
    ensures Combine(out, FieldValues(parts[i..], lo, hi)) ==
            match ParsePart(parts[i], lo, hi)
            case Err(e) => Err(e)
            case Ok(r) => Combine(out + Marked(r.start, r.end, r.step), FieldValues(parts[i + 1..], lo, hi))
  {
    hide ParsePart, Marked;
    assert parts[i..][1..] == parts[i + 1..];
    var rest := FieldValues(parts[i + 1..], lo, hi);
    if ParsePart(parts[i], lo, hi).Ok? && rest.Ok? {
      assert out + (PartValues(parts[i], lo, hi) + rest.value) == out + PartValues(parts[i], lo, hi) + rest.value;
    }
  }

  lemma MarkedFirst(r: Range)
    requires r.Within(0, 59)
    ensures r.start in Marked(r.start, r.end, r.step)
  {
  }

  /** No addition of the field can leave 64 bits. */
  predicate NoWrap(parts: seq<string>, lo: int, hi: int) {
    forall i :: 0 <= i < |parts| ==>
      var r := ParsePart(parts[i], lo, hi);
      r.Ok? ==> r.value.Last() + r.value.step <= MAX_INT64
  }

  predicate PartNames(part: string, lo: int, hi: int, v: int) {
    var r := ParsePart(part, lo, hi);
    r.Ok? && r.value.Names(v)
  }

  /** An accepted field holds exactly the values its elements name if and only if
      no element's step carries past its last value into a 64-bit wrap. */
  lemma FieldIsMeaningIff(parts: seq<string>, lo: int, hi: int)
    requires 0 <= lo <= hi < 60 && FieldValues(parts, lo, hi).Ok?
    ensures (forall v :: v in FieldValues(parts, lo, hi).value
                         <==> exists i :: 0 <= i < |parts| && PartNames(parts[i], lo, hi, v))
            <==> NoWrap(parts, lo, hi)
  {
    hide ParsePart, Marked;
    FieldMembers(parts, lo, hi);
    hide FieldValues;
    var values := FieldValues(parts, lo, hi).value;
    if NoWrap(parts, lo, hi) {
      forall i, v | 0 <= i < |parts| ensures v in PartValues(parts[i], lo, hi) <==> PartNames(parts[i], lo, hi, v) {
        MarkedIsDenotationIff(ParsePart(parts[i], lo, hi).value);
      }
    } else {
      var i :| 0 <= i < |parts| && ParsePart(parts[i], lo, hi).Ok?
               && ParsePart(parts[i], lo, hi).value.Last() + ParsePart(parts[i], lo, hi).value.step > MAX_INT64;
      var v := WrappedMark(ParsePart(parts[i], lo, hi).value);
      assert v in PartValues(parts[i], lo, hi) && v in values;
      assert forall j :: 0 <= j < |parts| ==> !PartNames(parts[j], lo, hi, v);
    }
  }

  function PrintTerms(terms: seq<Term>): (parts: seq<string>)
    ensures |parts| == |terms|
    ensures forall i :: 0 <= i < |terms| ==> parts[i] == terms[i].Print()
  {
    seq(|terms|, i requires 0 <= i < |terms| => terms[i].Print())
  }

  predicate TermNames(term: Term, lo: int, hi: int, v: int) {
    var r := term.Meaning(lo, hi);
    r.Ok? && r.value.Names(v)
  }

  lemma PrintedPart(term: Term, lo: int, hi: int, v: int)
    requires term.Representable()
    ensures PartNames(term.Print(), lo, hi, v) <==> TermNames(term, lo, hi, v)
    ensures ParsePart(term.Print(), lo, hi).Ok? <==> term.Meaning(lo, hi).Ok?
    ensures ',' !in term.Print()
  {
    hide ParsePart, Term.Meaning, Range.Names;
    ParsePrinted(term, lo, hi);
  }

  /** A list as written, and its elements can be. */
  function PrintList(terms: seq<Term>): string {
    Join(PrintTerms(terms), ',')
  }

  predicate Writable(terms: seq<Term>) {
    |terms| > 0 && forall i :: 0 <= i < |terms| ==> terms[i].Representable()
  }

  /** Every element means a range. */
  predicate AllMean(terms: seq<Term>, lo: int, hi: int) {
    forall i :: 0 <= i < |terms| ==> terms[i].Meaning(lo, hi).Ok?
  }

  /** Some element of the list names the value. */
  predicate Listed(terms: seq<Term>, lo: int, hi: int, v: int) {
    exists i :: 0 <= i < |terms| && TermNames(terms[i], lo, hi, v)
  }

  /** A written field is accepted exactly when each element's meaning is a range,
      and without a wrap it then holds exactly the values of those ranges. */
  lemma PrintedFieldMeans(terms: seq<Term>, lo: int, hi: int)
    requires 0 <= lo <= hi < 60 && Writable(terms)
    ensures var r := FieldValues(Split(PrintList(terms), ','), lo, hi);
            && (r.Ok? <==> AllMean(terms, lo, hi))
            && (r.Ok? && NoWrap(PrintTerms(terms), lo, hi) ==>
                  forall v :: v in r.value <==> Listed(terms, lo, hi, v))
  {
    hide ParsePart, Marked, Term.Meaning, Term.Print, Split, Join, FieldValues, PartValues,
         PartNames, TermNames, NoWrap, PrintTerms;
    var parts := PrintTerms(terms);
    forall i, v | 0 <= i < |terms|
      ensures ',' !in parts[i]
      ensures ParsePart(parts[i], lo, hi).Ok? <==> terms[i].Meaning(lo, hi).Ok?
      ensures PartNames(parts[i], lo, hi, v) <==> TermNames(terms[i], lo, hi, v)
    {
      PrintedPart(terms[i], lo, hi, v);
    }
    assert forall i :: 0 <= i < |terms| ==> PartNames(parts[i], lo, hi, 0) == TermNames(terms[i], lo, hi, 0);
    SplitJoin(parts, ',');
    FieldMembers(parts, lo, hi);
    if FieldValues(parts, lo, hi).Ok? && NoWrap(parts, lo, hi) {
      FieldIsMeaningIff(parts, lo, hi);
    }
  }

  // ----- the search ----------------------------------------------------------

  datatype Sets = Sets(minutes: set<int>, hours: set<int>, days: set<int>, months: set<int>, weekdays: set<int>)

  predicate FieldsMatch(c: Sets, t: Instant) {
    && MonthOfYear(t) in c.months && DayOfMonth(t) in c.days && Weekday(t) in c.weekdays
    && HourOf(t) in c.hours && MinuteOf(t) in c.minutes
  }

  /** A whole minute all of whose fields are in the sets. */
  predicate Matches(c: Sets, t: Instant) {
    t % MINUTE == 0 && FieldsMatch(c, t)
  }

  /** The least match after `a` inside the two-year window, or proof of none. */
  ghost predicate IsFirstMatch(c: Sets, a: Instant, r: Result<Instant, Error>) {
    match r
    case Ok(t) => a < t < AddYears(a, 2) && Matches(c, t) && forall u :: a < u < t ==> !Matches(c, u)
    case Err(e) => e == NoMatch && forall u :: a < u < AddYears(a, 2) ==> !Matches(c, u)
  }

  method Search(c: Sets, a: Instant) returns (r: Result<Instant, Error>)
    ensures IsFirstMatch(c, a, r)
  {
    hide FieldsMatch, AddYears;
    var t := a / MINUTE * MINUTE + MINUTE;
    var limit := AddYears(a, 2);
    while t < limit
      invariant t % MINUTE == 0 && a < t
      invariant forall u :: a < u < t ==> !Matches(c, u)
      decreases limit - t
    {
      if FieldsMatch(c, t) {
        return Ok(t);
      }
      forall u | a < u < t + MINUTE ensures !Matches(c, u) {
        if t < u { InsideMinute(t, u); }
      }
      t := t + MINUTE;
    }
    r := Err(NoMatch);
  }

  lemma InsideMinute(t: int, u: int)
    requires t % MINUTE == 0 && t < u < t + MINUTE
    ensures u % MINUTE != 0
  {
  }

  /** What the search answers for an expression: its error, or the first match. */
  ghost predicate IsNextCron(expr: string, a: Instant, r: Result<Instant, Error>) {
    if |Fields(expr)| != 5 then r == Err(FieldCount)
    else
      match ParseSets(Fields(expr))
      case Err(e) => r == Err(e)
      case Ok(c) => IsFirstMatch(c, a, r)
  }

  method NextCron(expr: string, a: Instant) returns (r: Result<Instant, Error>)
    ensures IsNextCron(expr, a, r)
  {
    hide Split, FieldValues;
    var fields := Fields(expr);
    if |fields| != 5 { return Err(FieldCount); }
    var minutes := CronField(fields[0], 0, 59);
    if minutes.Err? { return Err(minutes.error); }
    var hours := CronField(fields[1], 0, 23);
    if hours.Err? { return Err(hours.error); }
    var days := CronField(fields[2], 1, 31);
    if days.Err? { return Err(days.error); }
    var months := CronField(fields[3], 1, 12);
    if months.Err? { return Err(months.error); }
    var weekdays := CronField(fields[4], 0, 6);
    if weekdays.Err? { return Err(weekdays.error); }
    r := Search(Sets(minutes.value, hours.value, days.value, months.value, weekdays.value), a);
  }

  function ParseSets(fields: seq<string>): (r: Result<Sets, Error>)
    requires |fields| == 5
  {
    match FieldValues(Split(fields[0], ','), 0, 59)
    case Err(e) => Err(e)
    case Ok(minutes) =>
    match FieldValues(Split(fields[1], ','), 0, 23)
    case Err(e) => Err(e)
    case Ok(hours) =>
    match FieldValues(Split(fields[2], ','), 1, 31)
    case Err(e) => Err(e)
    case Ok(days) =>
    match FieldValues(Split(fields[3], ','), 1, 12)
    case Err(e) => Err(e)
    case Ok(months) =>
    match FieldValues(Split(fields[4], ','), 0, 6)
    case Err(e) => Err(e)
    case Ok(weekdays) => Ok(Sets(minutes, hours, days, months, weekdays))
  }

  // ----- a whole expression as written ---------------------------------------

  datatype Expression = Expression(
    minutes: seq<Term>, hours: seq<Term>, days: seq<Term>, months: seq<Term>, weekdays: seq<Term>)
  {
    function Lists(): (lists: seq<string>)
      ensures |lists| == 5
    {
      [PrintList(minutes), PrintList(hours), PrintList(days), PrintList(months), PrintList(weekdays)]
    }

    function Print(): string {
      Join(Lists(), ' ')
    }

    predicate AllWritable() {
      && Writable(minutes) && Writable(hours) && Writable(days)
      && Writable(months) && Writable(weekdays)
    }

    predicate AllRanges() {
      && AllMean(minutes, 0, 59) && AllMean(hours, 0, 23) && AllMean(days, 1, 31)
      && AllMean(months, 1, 12) && AllMean(weekdays, 0, 6)
    }

    predicate NeverWraps() {
      && NoWrap(PrintTerms(minutes), 0, 59) && NoWrap(PrintTerms(hours), 0, 23)
      && NoWrap(PrintTerms(days), 1, 31) && NoWrap(PrintTerms(months), 1, 12)
      && NoWrap(PrintTerms(weekdays), 0, 6)
    }

    /** A whole minute that every list names. */
    predicate Names(t: Instant) {
      && t % MINUTE == 0
      && Listed(minutes, 0, 59, MinuteOf(t)) && Listed(hours, 0, 23, HourOf(t))
      && Listed(days, 1, 31, DayOfMonth(t)) && Listed(months, 1, 12, MonthOfYear(t))
      && Listed(weekdays, 0, 6, Weekday(t))
    }

    /** The first instant of the window that is named, or proof of none. */
    ghost predicate IsFirstNamed(a: Instant, r: Result<Instant, Error>) {
      match r
      case Ok(t) => a < t < AddYears(a, 2) && Names(t) && forall u :: a < u < t ==> !Names(u)
      case Err(e) => e == NoMatch && forall u :: a < u < AddYears(a, 2) ==> !Names(u)
    }
  }

  lemma SolidTogether(a: string, c: char, b: string)
    requires Solid(a) && !IsSpace(c) && Solid(b)
    ensures Solid(a + [c] + b)
  {
    hide IsSpace;
  }

  lemma BaseIsSolid(base: Base)
    ensures Solid(base.Print())
  {
    hide Itoa, Solid;
    match base
    case Every => assert Solid("*") by { OneIsSolid('*'); }
    case Value(v) => NumbersAreSolid(v);
    case Span(first, last) =>
      NumbersAreSolid(first);
      NumbersAreSolid(last);
      SolidTogether(Itoa(first), '-', Itoa(last));
  }

  lemma OneIsSolid(c: char)
    requires !IsSpace(c)
    ensures Solid([c])
  {
  }

  lemma TermIsSolid(term: Term)
    ensures Solid(term.Print())
  {
    hide Itoa, Solid, Base.Print;
    BaseIsSolid(term.base);
    match term.step
    case None =>
    case Some(n) =>
      NumbersAreSolid(n);
      SolidTogether(term.base.Print(), '/', Itoa(n));
  }

  lemma ListIsSolid(terms: seq<Term>)
    requires |terms| > 0
    ensures Solid(PrintList(terms))
  {
    hide Term.Print, Solid;
    forall i | 0 <= i < |terms| ensures Solid(PrintTerms(terms)[i]) {
      TermIsSolid(terms[i]);
    }
    SolidJoin(PrintTerms(terms), ',');
  }

  lemma FieldsOfExpression(e: Expression)
    requires e.AllWritable()
    ensures Fields(TrimSpace(e.Print())) == e.Lists()
  {
    hide PrintList, Fields, TrimSpace, Solid, Join;
    ListIsSolid(e.minutes);
    ListIsSolid(e.hours);
    ListIsSolid(e.days);
    ListIsSolid(e.months);
    ListIsSolid(e.weekdays);
    FieldsOfJoin(e.Lists());
  }

  lemma {:induction false} FieldErrors(parts: seq<string>, lo: int, hi: int)
    requires 0 <= lo <= hi < 60
    ensures FieldValues(parts, lo, hi) != Err(NoMatch)
  {
    hide PartValues;
    if parts != [] { FieldErrors(parts[1..], lo, hi); }
  }

  lemma SetsErrors(fields: seq<string>)
    requires |fields| == 5
    ensures ParseSets(fields) != Err(NoMatch)
  {
    FieldErrors(Split(fields[0], ','), 0, 59);
    FieldErrors(Split(fields[1], ','), 0, 23);
    FieldErrors(Split(fields[2], ','), 1, 31);
    FieldErrors(Split(fields[3], ','), 1, 12);
    FieldErrors(Split(fields[4], ','), 0, 6);
    hide FieldValues, Split;
  }

  /** The five sets of an expression are accepted together, each being its list's. */
  lemma SetsOfExpression(e: Expression)
    requires e.AllWritable()
    ensures ParseSets(e.Lists()).Ok? <==> e.AllRanges()
    ensures ParseSets(e.Lists()).Ok? && e.NeverWraps() ==>
              var c := ParseSets(e.Lists()).value;
              && (forall v :: v in c.minutes <==> Listed(e.minutes, 0, 59, v))
              && (forall v :: v in c.hours <==> Listed(e.hours, 0, 23, v))
              && (forall v :: v in c.days <==> Listed(e.days, 1, 31, v))
              && (forall v :: v in c.months <==> Listed(e.months, 1, 12, v))
              && (forall v :: v in c.weekdays <==> Listed(e.weekdays, 0, 6, v))
  {
    hide PrintList, FieldValues, Split, AllMean, NoWrap, Listed, Writable, PrintTerms;
    PrintedFieldMeans(e.minutes, 0, 59);
    PrintedFieldMeans(e.hours, 0, 23);
    PrintedFieldMeans(e.days, 1, 31);
    PrintedFieldMeans(e.months, 1, 12);
    PrintedFieldMeans(e.weekdays, 0, 6);
  }

  lemma MatchesNames(e: Expression, t: Instant)
    requires e.AllWritable() && ParseSets(e.Lists()).Ok? && e.NeverWraps()
    ensures Matches(ParseSets(e.Lists()).value, t) <==> e.Names(t)
  {
    SetsOfExpression(e);
    hide Expression.Lists, ParseSets, Listed, Expression.AllWritable, Expression.NeverWraps, MinuteOf, HourOf,
         DayOfMonth, MonthOfYear, Weekday;
  }

  /** The answer for an expression is that of its sets. */
  lemma NextOfSets(e: Expression, a: Instant, r: Result<Instant, Error>)
    requires IsNextCron(TrimSpace(e.Print()), a, r) && Fields(TrimSpace(e.Print())) == e.Lists()
    ensures ParseSets(e.Lists()).Ok? ==>
              IsFirstMatch(ParseSets(e.Lists()).value, a, r) && (r.Ok? || r.error == NoMatch)
    ensures ParseSets(e.Lists()).Err? ==> r == Err(ParseSets(e.Lists()).error)
  {
    hide Expression.Print, TrimSpace, Fields, ParseSets, PrintList, Matches, AddYears;
  }

  lemma FirstNamed(e: Expression, a: Instant, r: Result<Instant, Error>)
    requires e.AllWritable() && ParseSets(e.Lists()).Ok? && e.NeverWraps()
    requires IsFirstMatch(ParseSets(e.Lists()).value, a, r)
    ensures e.IsFirstNamed(a, r)
  {
    hide Expression.AllWritable, Expression.NeverWraps, Expression.Names, Expression.Lists, ParseSets,
         Matches, AddYears;
    forall t ensures Matches(ParseSets(e.Lists()).value, t) <==> e.Names(t) {
      MatchesNames(e, t);
    }
  }

  /** A written expression gets a run or the error that there is none exactly when each
      of its elements means a range; if no step wraps, its next run is the first whole
      minute of the window that all five lists name. */
  lemma WrittenExpressionMeans(e: Expression, a: Instant, r: Result<Instant, Error>)
    requires e.AllWritable() && IsNextCron(TrimSpace(e.Print()), a, r)
    ensures r.Ok? || r.error == NoMatch <==> e.AllRanges()
    ensures e.AllRanges() && e.NeverWraps() ==> e.IsFirstNamed(a, r)
  {
    hide *;
    FieldsOfExpression(e);
    SetsOfExpression(e);
    SetsErrors(e.Lists());
    NextOfSets(e, a, r);
    if e.AllRanges() && e.NeverWraps() {
      FirstNamed(e, a, r);
    }
  }

  // ----- expressions on known days -------------------------------------------

  /** The list of one value, and `*`. */
  function Only(v: nat): seq<Term> { [Term(Value(v), None)] }
  function Any(): seq<Term> { [Term(Every, None)] }

  lemma OneTerm(term: Term, lo: int, hi: int)
    requires 0 <= lo <= hi < 60 && term.step.None? && term.Representable() && term.Meaning(lo, hi).Ok?
    ensures Writable([term]) && AllMean([term], lo, hi) && NoWrap(PrintTerms([term]), lo, hi)
    ensures forall v :: Listed([term], lo, hi, v) <==> term.base.Bounds(lo, hi).0 <= v <= term.base.Bounds(lo, hi).1
  {
    ParsePrinted(term, lo, hi);
    assert [term][0] == term && PrintTerms([term]) == [term.Print()];
    hide ParsePart, Term.Print, Base.Print;
    forall v ensures TermNames(term, lo, hi, v)
                     <==> term.base.Bounds(lo, hi).0 <= v <= term.base.Bounds(lo, hi).1 {}
  }

  /** A list of one value accepts that value, `*` the whole range of the field. */
  lemma OnlyAndAny(v: nat, lo: int, hi: int)
    requires 0 <= lo <= v <= hi < 60
    ensures Writable(Only(v)) && AllMean(Only(v), lo, hi) && NoWrap(PrintTerms(Only(v)), lo, hi)
    ensures Writable(Any()) && AllMean(Any(), lo, hi) && NoWrap(PrintTerms(Any()), lo, hi)
    ensures forall x :: Listed(Only(v), lo, hi, x) <==> x == v
    ensures forall x :: Listed(Any(), lo, hi, x) <==> lo <= x <= hi
  {
    OneTerm(Term(Value(v), None), lo, hi);
    OneTerm(Term(Every, None), lo, hi);
    hide Writable, AllMean, NoWrap, Listed, PrintTerms;
  }

  /** "minute hour day month *". */
  function Yearly(minute: nat, hour: nat, day: nat, month: nat): Expression {
    Expression(Only(minute), Only(hour), Only(day), Only(month), Any())
  }

  predicate YearlyAt(minute: nat, hour: nat, day: nat, month: nat, t: Instant) {
    && t % MINUTE == 0 && MinuteOf(t) == minute && HourOf(t) == hour
    && DayOfMonth(t) == day && MonthOfYear(t) == month
  }

  lemma YearlyNames(minute: nat, hour: nat, day: nat, month: nat)
    requires 1 <= month <= 12 && 1 <= day <= 31 && hour < 24 && minute < 60
    ensures var e := Yearly(minute, hour, day, month);
            e.AllWritable() && e.AllRanges() && e.NeverWraps()
            && forall t :: e.Names(t) <==> YearlyAt(minute, hour, day, month, t)
  {
    hide Only, Any, Writable, AllMean, NoWrap, Listed, PrintTerms, MinuteOf, HourOf, DayOfMonth, MonthOfYear;
    OnlyAndAny(minute, 0, 59);
    OnlyAndAny(hour, 0, 23);
    OnlyAndAny(day, 1, 31);
    OnlyAndAny(month, 1, 12);
    OnlyAndAny(0, 0, 6);
  }

  /** In its year such an expression runs at that minute of that day. */
  lemma YearlyRuns(year: int, minute: nat, hour: nat, day: nat, month: nat, r: Result<Instant, Error>)
    requires 1 <= month <= 12 && 1 <= day <= MonthLength(12 * year + month - 1) && hour < 24 && minute < 60
    requires IsNextCron(TrimSpace(Yearly(minute, hour, day, month).Print()), Date(12 * year, 1, 0) - 1, r)
    ensures r == Ok(Date(12 * year + month - 1, day, Clock(hour, minute, 0)))
  {
    hide *;
    var a, t := Date(12 * year, 1, 0) - 1, Date(12 * year + month - 1, day, Clock(hour, minute, 0));
    var e := Yearly(minute, hour, day, month);
    ClockWithinDay(hour, minute);
    YearlyFields(12 * year + month - 1, minute, hour, day);
    YearlyInWindow(year, month, day, Clock(hour, minute, 0));
    YearlyNames(minute, hour, day, month);
    WrittenExpressionMeans(e, a, r);
    MonthOfTheYear(year, month);
    assert e.Names(t);
    forall u | a < u && e.Names(u) ensures t <= u {
      YearlyOnce(year, minute, hour, day, month, u);
    }
    FirstIs(e, a, t, r);
  }

  /** The earliest instant named is the one found. */
  lemma FirstIs(e: Expression, a: Instant, t: Instant, r: Result<Instant, Error>)
    requires e.IsFirstNamed(a, r) && a < t < AddYears(a, 2) && e.Names(t)
    requires forall u :: a < u && e.Names(u) ==> t <= u
    ensures r == Ok(t)
  {
    hide AddYears, Expression.Names;
  }

  lemma ClockWithinDay(hour: nat, minute: nat)
    requires hour < 24 && minute < 60
    ensures 0 <= Clock(hour, minute, 0) < DAY
  {
  }

  lemma MonthOfTheYear(year: int, month: nat)
    requires 1 <= month <= 12
    ensures (12 * year + month - 1) % 12 + 1 == month
  {
  }

  lemma YearlyFields(m: int, minute: nat, hour: nat, day: nat)
    requires 1 <= day <= MonthLength(m) && hour < 24 && minute < 60
    ensures YearlyAt(minute, hour, day, m % 12 + 1, Date(m, day, Clock(hour, minute, 0)))
  {
    assert 0 <= Clock(hour, minute, 0) < DAY;
    hide Date, MonthLength, MonthOfYear, DayOfMonth, HourOf, MinuteOf, Clock;
    FieldsRoundTrip(m, day, Clock(hour, minute, 0));
    ClockOfDate(m, day, hour, minute);
  }

  lemma YearlyInWindow(year: int, month: nat, day: nat, timeOfDay: int)
    requires 1 <= month <= 12 && 1 <= day <= MonthLength(12 * year + month - 1) && 0 <= timeOfDay < DAY
    ensures var a := Date(12 * year, 1, 0) - 1;
            a < Date(12 * year + month - 1, day, timeOfDay) < AddYears(a, 2)
  {
    hide FirstDay, MonthLength, AddYears, Date;
    WindowIsTwoYears(Date(12 * year, 1, 0) - 1);
    MonthsIncrease(12 * year, 12 * year + month - 1);
    FirstDayOfNextMonth(12 * year + month - 1);
    MonthsIncrease(12 * year + month, 12 * year + 12);
    YearIsShort(year);
    DatesApart(12 * year, 1, 0, 12 * year + month - 1, day, timeOfDay);
  }

  lemma YearIsShort(year: int)
    ensures FirstDay(12 * year + 12) - FirstDay(12 * year) <= 366
  {
    hide FirstDay, DaysBeforeYear;
    MonthParts(year, 0);
    MonthParts(year + 1, 0);
    DaysBeforeNextYear(year);
    assert 12 * (year + 1) + 0 == 12 * year + 12;
    hide IsLeap;
  }

  /** Every instant with those fields in the year or later is that minute or later. */
  lemma YearlyOnce(year: int, minute: nat, hour: nat, day: nat, month: nat, u: Instant)
    requires 1 <= month <= 12 && YearlyAt(minute, hour, day, month, u) && Date(12 * year, 1, 0) <= u
    ensures Date(12 * year + month - 1, day, Clock(hour, minute, 0)) <= u
  {
    hide *;
    YearlyDate(minute, hour, day, month, u);
    YearlyAfter(year, month, u);
    MonthsIncrease(12 * year + month - 1, MonthOf(DayOf(u)));
    DatesApart(12 * year + month - 1, day, Clock(hour, minute, 0), MonthOf(DayOf(u)), day, Clock(hour, minute, 0));
  }

  lemma YearlyAfter(year: int, month: nat, u: Instant)
    requires 1 <= month <= 12 && Date(12 * year, 1, 0) <= u && MonthOfYear(u) == month
    ensures 12 * year + month - 1 <= MonthOf(DayOf(u))
  {
    var m := MonthOf(DayOf(u));
    assert m % 12 == month - 1;
    hide *;
    FieldsRoundTrip(12 * year, 1, 0);
    MonthsOrdered(Date(12 * year, 1, 0), u);
    YearOfMonth(m, year, month);
  }

  lemma YearOfMonth(m: int, year: int, month: nat)
    requires 1 <= month <= 12 && m % 12 == month - 1
    ensures 12 * year <= m ==> 12 * year + month - 1 <= m
  {
  }

  lemma YearlyDate(minute: nat, hour: nat, day: nat, month: nat, u: Instant)
    requires YearlyAt(minute, hour, day, month, u)
    ensures MonthOfYear(u) == month && u == Date(MonthOf(DayOf(u)), day, Clock(hour, minute, 0))
  {
    hide MinuteOf, HourOf, DayOfMonth, MonthOfYear, MonthOf, DayOf, Date;
    DateOfFields(u);
  }

  /** "minute hour * * weekday". */
  function Weekly(minute: nat, hour: nat, weekday: nat): Expression {
    Expression(Only(minute), Only(hour), Any(), Any(), Only(weekday))
  }

  predicate WeeklyAt(minute: nat, hour: nat, weekday: nat, t: Instant) {
    t % MINUTE == 0 && MinuteOf(t) == minute && HourOf(t) == hour && Weekday(t) == weekday
  }

  lemma WeeklyNames(minute: nat, hour: nat, weekday: nat)
    requires hour < 24 && minute < 60 && weekday < 7
    ensures var e := Weekly(minute, hour, weekday);
            e.AllWritable() && e.AllRanges() && e.NeverWraps()
            && forall t :: e.Names(t) <==> WeeklyAt(minute, hour, weekday, t)
  {
    hide Only, Any, Writable, AllMean, NoWrap, Listed, PrintTerms, MinuteOf, HourOf, MonthOf, DayOf, MonthLength;
    OnlyAndAny(minute, 0, 59);
    OnlyAndAny(hour, 0, 23);
    OnlyAndAny(1, 1, 31);
    OnlyAndAny(1, 1, 12);
    OnlyAndAny(weekday, 0, 6);
  }

  /** From the end of Saturday 31 January 2026 on, weekday 0 to 6 runs on 1 to 7 February. */
  lemma WeeklyRuns(minute: nat, hour: nat, weekday: nat, r: Result<Instant, Error>)
    requires hour < 24 && minute < 60 && weekday < 7
    requires IsNextCron(TrimSpace(Weekly(minute, hour, weekday).Print()), Date(12 * 2026 + 1, 1, 0) - 1, r)
    ensures r == Ok(Date(12 * 2026 + 1, 1 + weekday, Clock(hour, minute, 0)))
  {
    hide *;
    var a, t := Date(12 * 2026 + 1, 1, 0) - 1, Date(12 * 2026 + 1, 1 + weekday, Clock(hour, minute, 0));
    var e := Weekly(minute, hour, weekday);
    ClockWithinDay(hour, minute);
    WeeklyNames(minute, hour, weekday);
    WrittenExpressionMeans(e, a, r);
    WeeklyInstant(minute, hour, weekday);
    forall u | a < u && e.Names(u) ensures t <= u {
      WeeklyDate(minute, hour, weekday, u);
      FebruaryWeek(weekday, Clock(hour, minute, 0), u);
    }
    FirstIs(e, a, t, r);
  }

  lemma WeeklyDate(minute: nat, hour: nat, weekday: nat, u: Instant)
    requires WeeklyAt(minute, hour, weekday, u) && hour < 24 && minute < 60
    ensures Weekday(u) == weekday && TimeOfDay(u) == Clock(hour, minute, 0)
  {
    hide MinuteOf, HourOf, DayOfMonth, MonthOf, DayOf, Date, TimeOfDay, Clock, Weekday;
    ClockWithinDay(hour, minute);
    DateOfFields(u);
    DateParts(MonthOf(DayOf(u)), DayOfMonth(u), Clock(hour, minute, 0));
  }

  lemma WeeklyInstant(minute: nat, hour: nat, weekday: nat)
    requires hour < 24 && minute < 60 && weekday < 7
    ensures var t := Date(12 * 2026 + 1, 1 + weekday, Clock(hour, minute, 0));
            WeeklyAt(minute, hour, weekday, t)
            && Date(12 * 2026 + 1, 1, 0) <= t < AddYears(Date(12 * 2026 + 1, 1, 0) - 1, 2)
  {
    hide MinuteOf, HourOf, Date, TimeOfDay, Clock, Weekday, AddYears, FirstDay;
    ClockWithinDay(hour, minute);
    FebruaryWeek(weekday, Clock(hour, minute, 0), 0);
    ClockOfDate(12 * 2026 + 1, 1 + weekday, hour, minute);
    WindowIsTwoYears(Date(12 * 2026 + 1, 1, 0) - 1);
    DatesApart(12 * 2026 + 1, 1, 0, 12 * 2026 + 1, 1 + weekday, Clock(hour, minute, 0));
  }

  /** The text of such an expression, and of a list. */
  lemma WeeklyText()
    ensures Weekly(0, 4, 0).Print() == "0 4 * * 0"
  {
    assert Itoa(0) == "0" && Itoa(4) == "4";
    hide Itoa;
    OneText(Term(Value(0), None));
    OneText(Term(Value(4), None));
    OneText(Term(Every, None));
    JoinFive("0", "4", "*", "*", "0");
  }

  lemma ListText()
    ensures PrintList([Term(Span(1, 5), Some(2)), Term(Every, Some(7))]) == "1-5/2,*/7"
  {
    assert Itoa(1) == "1" && Itoa(5) == "5" && Itoa(2) == "2" && Itoa(7) == "7";
    hide Itoa;
    var terms := [Term(Span(1, 5), Some(2)), Term(Every, Some(7))];
    assert terms[0].Print() == "1-5/2" && terms[1].Print() == "*/7";
    hide Term.Print;
    assert PrintTerms(terms) == ["1-5/2", "*/7"];
    JoinTwo("1-5/2", ',', "*/7");
  }

  lemma OneText(term: Term)
    ensures PrintList([term]) == term.Print()
  {
    assert PrintTerms([term]) == [term.Print()];
  }

  lemma JoinFive(a: string, b: string, c: string, d: string, e: string)
    ensures Join([a, b, c, d, e], ' ') == a + [' '] + (b + [' '] + (c + [' '] + (d + [' '] + e)))
  {
    JoinTwo(d, ' ', e);
    assert [c, d, e][1..] == [d, e];
    assert Join([c, d, e], ' ') == c + [' '] + Join([d, e], ' ');
    assert [b, c, d, e][1..] == [c, d, e];
    assert Join([b, c, d, e], ' ') == b + [' '] + Join([c, d, e], ' ');
    assert [a, b, c, d, e][1..] == [b, c, d, e];
  }

  /** The window of the search is 730 or 731 days long, whatever the start. */
  lemma WindowIsTwoYears(a: Instant)
    ensures AddYears(a, 2) - a == 730 * DAY || AddYears(a, 2) - a == 731 * DAY
  {
    DateRoundTrip(a);
    hide MonthOf, DayOfMonth, FirstDay, DayOf, TimeOfDay, DaysBeforeYear, DaysBeforeMonth, IsLeap;
    var month := MonthOf(DayOf(a));
    var year := month / 12;
    var m := month % 12;
    assert month == 12 * year + m && month + 24 == 12 * (year + 2) + m;
    MonthParts(year, m);
    MonthParts(year + 2, m);
    DaysBeforeNextYear(year);
    DaysBeforeNextYear(year + 1);
    TwoYears(year, m);
    assert AddYears(a, 2) - a == (FirstDay(month + 24) - FirstDay(month)) * DAY;
  }

  lemma TwoYears(year: int, m: nat)
    requires m < 12
    ensures 730 <= YearLength(year) + YearLength(year + 1)
                   + DaysBeforeMonth(year + 2, m) - DaysBeforeMonth(year, m) <= 731
  {
  }

}
