/** The date stamp of a `once` schedule: the two layouts the code tries, read the way
    Go's `time.Parse` reads them. */
module Stamps {
  import opened Text
  import opened Calendar

  datatype Chunk = Year | Month | Day | Hour | Minute | Second | Lit(c: char)

  type Layout = seq<Chunk>

  /** "2006-01-02 15:04", and the same with seconds. */
  function ToMinutes(): Layout {
    [Year, Lit('-'), Month, Lit('-'), Day, Lit(' '), Hour, Lit(':'), Minute]
  }

  function ColonSeconds(): Layout { [Lit(':'), Second] }

  function ToSeconds(): Layout { ToMinutes() + ColonSeconds() }

  datatype Stamp = Stamp(year: nat, month: nat, day: nat, hour: nat, minute: nat, second: nat, nano: nat) {
    /** A day that exists and a time of day. */
    predicate Valid() {
      && 1 <= month <= 12 && 1 <= day <= MonthLength(12 * year + month - 1)
      && hour < 24 && minute < 60 && second < 60 && nano < SECOND
    }

    function ToInstant(): Instant {
      Date(12 * year + month - 1, day, Clock(hour, minute, second) + nano)
    }
  }

  const ZERO := Stamp(0, 0, 0, 0, 0, 0, 0)

  // ----- reading -------------------------------------------------------------

  function Digit(c: char): nat
    requires IsDigit(c)
  {
    c as nat - '0' as nat
  }

  /** Two digits, or one where the layout is lenient. */
  function TakeNumber(s: string, strict: bool): Option<(nat, string)> {
    if s == "" || !IsDigit(s[0]) then None
    else if |s| < 2 || !IsDigit(s[1]) then (if strict then None else Some((Digit(s[0]), s[1..])))
    else Some((10 * Digit(s[0]) + Digit(s[1]), s[2..]))
  }

  function TakeYear(s: string): Option<(nat, string)> {
    if |s| < 4 || !AllDigits(s[..4]) then None
    else Some((1000 * Digit(s[0]) + 100 * Digit(s[1]) + 10 * Digit(s[2]) + Digit(s[3]), s[4..]))
  }

  function SkipSpaces(s: string): string {
    if s != "" && s[0] == ' ' then SkipSpaces(s[1..]) else s
  }

  /** A space stands for any number of them. */
  function TakeLiteral(s: string, c: char): Option<string> {
    if s == "" || s[0] != c then None
    else if c == ' ' then Some(SkipSpaces(s)) else Some(s[1..])
  }

  function CountDigits(s: string): (n: nat)
    ensures n <= |s| && AllDigits(s[..n])
  {
    if s == "" || !IsDigit(s[0]) then 0 else CountDigits(s[1..]) + 1
  }

  /** Nanoseconds of at most nine decimals. */
  function Decimals(s: string, place: nat): nat
    requires AllDigits(s)
  {
    if s == "" || place == 0 then 0 else Digit(s[0]) * place + Decimals(s[1..], place / 10)
  }

  /** A fraction after the seconds is accepted although no layout asks for one. */
  function TakeFraction(s: string): (nat, string) {
    if |s| >= 2 && s[0] in ".," && IsDigit(s[1]) then
      var n := CountDigits(s[1..]);
      (Decimals(s[1..][..n], SECOND / 10), s[1..][n..])
    else (0, s)
  }

  function TakeChunk(c: Chunk, s: string, t: Stamp): Option<(Stamp, string)> {
    match c
    case Lit(x) => (
      match TakeLiteral(s, x)
      case None => None
      case Some(rest) => Some((t, rest)))
    case Year => (
      match TakeYear(s)
      case None => None
      case Some(v) => Some((t.(year := v.0), v.1)))
    case _ => (
      match TakeNumber(s, !c.Hour?)
      case None => None
      case Some(v) => Some(Put(c, v.0, v.1, t)))
  }

  function Put(c: Chunk, n: nat, rest: string, t: Stamp): (Stamp, string) {
    match c
    case Month => (t.(month := n), rest)
    case Day => (t.(day := n), rest)
    case Hour => (t.(hour := n), rest)
    case Minute => (t.(minute := n), rest)
    case _ =>
      var f := TakeFraction(rest);
      (t.(second := n, nano := f.0), f.1)
  }

  function ReadLayout(layout: Layout, s: string, t: Stamp): Option<Stamp>
    decreases |layout|
  {
    if layout == [] then (if s == "" then Some(t) else None)
    else match TakeChunk(layout[0], s, t)
      case None => None
      case Some(v) => ReadLayout(layout[1..], v.1, v.0)
  }

  function ParseStamp(layout: Layout, s: string): Option<Instant> {
    match ReadLayout(layout, s, ZERO)
    case Some(t) => if t.Valid() then Some(t.ToInstant()) else None
    case None => None
  }

  /** With seconds, or failing that without. */
  function ParseOnce(expression: string): Option<Instant> {
    var expr := TrimSpace(expression);
    var full := ParseStamp(ToSeconds(), expr);
    if full.Some? then full else ParseStamp(ToMinutes(), expr)
  }

  // ----- writing -------------------------------------------------------------

  function DigitChar(n: nat): (c: char)
    requires n < 10
    ensures IsDigit(c) && Digit(c) == n
  {
    ('0' as int + n) as char
  }

  function TwoDigits(n: nat): string
    requires n < 100
  {
    [DigitChar(n / 10), DigitChar(n % 10)]
  }

  function FourDigits(n: nat): string
    requires n < 10000
  {
    TwoDigits(n / 100) + TwoDigits(n % 100)
  }

  predicate Printable(t: Stamp) {
    t.year < 10000 && t.month < 100 && t.day < 100 && t.hour < 100 && t.minute < 100 && t.second < 100
  }

  function PrintChunk(c: Chunk, t: Stamp): string
    requires Printable(t)
  {
    match c
    case Lit(x) => [x]
    case Year => FourDigits(t.year)
    case Month => TwoDigits(t.month)
    case Day => TwoDigits(t.day)
    case Hour => TwoDigits(t.hour)
    case Minute => TwoDigits(t.minute)
    case Second => TwoDigits(t.second)
  }

  function PrintStamp(layout: Layout, t: Stamp): string
    requires Printable(t)
    decreases |layout|
  {
    if layout == [] then "" else PrintChunk(layout[0], t) + PrintStamp(layout[1..], t)
  }

  /** One field of `t` put into `into`. */
  function Copied(c: Chunk, t: Stamp, into: Stamp): Stamp {
    match c
    case Lit(_) => into
    case Year => into.(year := t.year)
    case Month => into.(month := t.month)
    case Day => into.(day := t.day)
    case Hour => into.(hour := t.hour)
    case Minute => into.(minute := t.minute)
    case Second => into.(second := t.second, nano := 0)
  }

  function CopiedAll(layout: Layout, t: Stamp, into: Stamp): Stamp
    decreases |layout|
  {
    if layout == [] then into else CopiedAll(layout[1..], t, Copied(layout[0], t, into))
  }

  /** What follows does not run into what was just printed. */
  predicate Parted(c: Chunk, rest: string) {
    && (c == Lit(' ') ==> rest == "" || rest[0] != ' ')
    && (c == Second ==> rest == "" || rest[0] !in ".,")
  }

  lemma TakePrinted(c: Chunk, t: Stamp, into: Stamp, rest: string)
    requires Printable(t) && Parted(c, rest)
    ensures TakeChunk(c, PrintChunk(c, t) + rest, into) == Some((Copied(c, t, into), rest))
  {
    var s := PrintChunk(c, t) + rest;
    match c
    case Lit(x) => LiteralTaken(x, rest);
    case Year => YearTaken(t.year, rest);
    case Month => NumberTaken(t.month, rest, true);
    case Day => NumberTaken(t.day, rest, true);
    case Hour => NumberTaken(t.hour, rest, false);
    case Minute => NumberTaken(t.minute, rest, true);
    case Second => NumberTaken(t.second, rest, true);
  }

  lemma LiteralTaken(x: char, rest: string)
    requires x == ' ' ==> rest == "" || rest[0] != ' '
    ensures TakeLiteral([x] + rest, x) == Some(rest)
  {
    assert ([x] + rest)[1..] == rest;
    if x == ' ' { assert SkipSpaces([x] + rest) == SkipSpaces(rest) == rest; }
  }

  lemma NumberTaken(n: nat, rest: string, strict: bool)
    requires n < 100
    ensures TakeNumber(TwoDigits(n) + rest, strict) == Some((n, rest))
  {
    assert (TwoDigits(n) + rest)[2..] == rest;
  }

  lemma YearTaken(n: nat, rest: string)
    requires n < 10000
    ensures TakeYear(FourDigits(n) + rest) == Some((n, rest))
  {
    var s := FourDigits(n) + rest;
    assert s[..4] == FourDigits(n) && s[4..] == rest;
  }

  /** Each chunk is parted from what the rest of the layout prints. */
  predicate AllParted(layout: Layout, t: Stamp, tail: string)
    requires Printable(t)
    decreases |layout|
  {
    layout == []
    || (Parted(layout[0], PrintStamp(layout[1..], t) + tail) && AllParted(layout[1..], t, tail))
  }

  lemma {:induction false} ReadPrinted(layout: Layout, more: Layout, t: Stamp, into: Stamp, tail: string)
    requires Printable(t) && AllParted(layout, t, tail)
    ensures ReadLayout(layout + more, PrintStamp(layout, t) + tail, into) ==
            ReadLayout(more, tail, CopiedAll(layout, t, into))
    decreases |layout|
  {
    hide PrintChunk, TakeChunk, Copied, Parted;
    if layout == [] {
      assert layout + more == more && PrintStamp(layout, t) + tail == tail;
    } else {
      var rest := PrintStamp(layout[1..], t) + tail;
      TakePrinted(layout[0], t, into, rest);
      assert PrintStamp(layout, t) + tail == PrintChunk(layout[0], t) + rest;
      assert (layout + more)[1..] == layout[1..] + more;
      ReadPrinted(layout[1..], more, t, Copied(layout[0], t, into), tail);
    }
  }

  /** A space stands before a number, and seconds stand last. */
  predicate ClearAt(layout: Layout, i: nat)
    requires i < |layout|
  {
    && (layout[i] == Lit(' ') ==> i + 1 < |layout| && !layout[i + 1].Lit?)
    && (layout[i] == Second ==> i + 1 == |layout|)
  }

  predicate Unambiguous(layout: Layout) {
    forall i :: 0 <= i < |layout| ==> ClearAt(layout, i)
  }

  lemma {:induction false} UnambiguousIsParted(layout: Layout, t: Stamp, tail: string)
    requires Printable(t) && Unambiguous(layout) && (Second in layout ==> tail == "" || tail[0] !in ".,")
    ensures AllParted(layout, t, tail)
    decreases |layout|
  {
    if layout != [] {
      UnambiguousTail(layout);
      UnambiguousIsParted(layout[1..], t, tail);
      hide AllParted;
      if layout[0] == Lit(' ') {
        NumberFirst(layout[1..], t, tail);
      } else if layout[0] == Second {
        assert PrintStamp(layout[1..], t) + tail == tail;
      }
    }
  }

  lemma UnambiguousTail(layout: Layout)
    requires Unambiguous(layout) && layout != []
    ensures Unambiguous(layout[1..]) && (Second in layout[1..] ==> Second in layout)
    ensures layout[0] == Lit(' ') ==> layout[1..] != [] && !layout[1..][0].Lit?
    ensures layout[0] == Second ==> layout[1..] == []
  {
    assert ClearAt(layout, 0);
    forall i | 0 <= i < |layout| - 1 ensures ClearAt(layout[1..], i) {
      assert ClearAt(layout, i + 1);
    }
  }

  lemma NumberFirst(layout: Layout, t: Stamp, tail: string)
    requires Printable(t) && layout != [] && !layout[0].Lit?
    ensures var s := PrintStamp(layout, t) + tail; s != "" && IsDigit(s[0])
  {
    assert PrintStamp(layout, t)[0] == PrintChunk(layout[0], t)[0];
  }

  lemma {:induction false} PrintConcat(a: Layout, b: Layout, t: Stamp)
    requires Printable(t)
    ensures PrintStamp(a + b, t) == PrintStamp(a, t) + PrintStamp(b, t)
    decreases |a|
  {
    hide PrintChunk;
    if a == [] {
      assert a + b == b;
    } else {
      PrintConcat(a[1..], b, t);
      assert (a + b)[1..] == a[1..] + b;
    }
  }

  lemma SecondsPrinted(t: Stamp)
    requires Printable(t)
    ensures PrintStamp(ColonSeconds(), t) == [':'] + TwoDigits(t.second)
    ensures PrintStamp(ToSeconds(), t) == PrintStamp(ToMinutes(), t) + PrintStamp(ColonSeconds(), t)
  {
    PrintConcat(ToMinutes(), ColonSeconds(), t);
    assert ColonSeconds()[1..] == [Second] && [Second][1..] == [];
    assert PrintStamp([Second], t) == TwoDigits(t.second) + PrintStamp([], t);
  }

  lemma CopiedMinutes(t: Stamp)
    ensures CopiedAll(ToMinutes(), t, ZERO) == t.(second := 0, nano := 0)
  {
    hide CopiedAll;
    var l := ToMinutes();
    assert l == [Year, Lit('-'), Month, Lit('-'), Day, Lit(' '), Hour, Lit(':'), Minute];
    CopyStep(l, t, ZERO);
    CopyFrom(l, 1, t, ZERO.(year := t.year));
    CopyFrom(l, 2, t, ZERO.(year := t.year));
    CopyFrom(l, 3, t, ZERO.(year := t.year, month := t.month));
    CopyFrom(l, 4, t, ZERO.(year := t.year, month := t.month));
    CopyFrom(l, 5, t, ZERO.(year := t.year, month := t.month, day := t.day));
    CopyFrom(l, 6, t, ZERO.(year := t.year, month := t.month, day := t.day));
    CopyFrom(l, 7, t, t.(minute := 0, second := 0, nano := 0));
    CopyFrom(l, 8, t, t.(minute := 0, second := 0, nano := 0));
    assert l[9..] == [];
    CopyNone(t, t.(second := 0, nano := 0));
  }

  lemma CopyNone(t: Stamp, into: Stamp)
    ensures CopiedAll([], t, into) == into
  {
  }

  lemma CopyStep(layout: Layout, t: Stamp, into: Stamp)
    requires layout != []
    ensures CopiedAll(layout, t, into) == CopiedAll(layout[1..], t, Copied(layout[0], t, into))
  {
  }

  lemma CopyFrom(layout: Layout, i: nat, t: Stamp, into: Stamp)
    requires i < |layout|
    ensures CopiedAll(layout[i..], t, into) == CopiedAll(layout[i + 1..], t, Copied(layout[i], t, into))
  {
    CopyStep(layout[i..], t, into);
    hide CopiedAll, Copied;
    assert layout[i..][1..] == layout[i + 1..];
  }

  lemma ReadEnd(t: Stamp)
    ensures ReadLayout([], "", t) == Some(t) && ReadLayout(ColonSeconds(), "", t) == None
  {
  }

  lemma ReadMinutes(t: Stamp, more: Layout, tail: string)
    requires Printable(t)
    ensures ReadLayout(ToMinutes() + more, PrintStamp(ToMinutes(), t) + tail, ZERO) ==
            ReadLayout(more, tail, t.(second := 0, nano := 0))
  {
    assert Unambiguous(ToMinutes()) && Second !in ToMinutes();
    hide *;
    UnambiguousIsParted(ToMinutes(), t, tail);
    ReadPrinted(ToMinutes(), more, t, ZERO, tail);
    CopiedMinutes(t);
  }

  /** Reading what was printed with seconds, and a fraction after it. */
  lemma ReadSeconds(t: Stamp, tail: string)
    requires Printable(t) && t.nano == 0
    ensures ReadLayout(ToSeconds(), PrintStamp(ToSeconds(), t) + tail, ZERO) ==
            if TakeFraction(tail).1 == "" then Some(t.(nano := TakeFraction(tail).0)) else None
  {
    var text := PrintStamp(ColonSeconds(), t) + tail;
    var into := t.(second := 0, nano := 0);
    ReadMinutes(t, ColonSeconds(), text);
    SecondsPrinted(t);
    NumberTaken(t.second, tail, true);
    AfterColon(TwoDigits(t.second), tail);
    hide *;
    Reassociated(PrintStamp(ToMinutes(), t), PrintStamp(ColonSeconds(), t), tail);
    ReadTail(into, t.second, text, tail);
  }

  lemma Reassociated(a: string, b: string, c: string)
    ensures a + b + c == a + (b + c)
  {
  }

  lemma AfterColon(s: string, tail: string)
    ensures ([':'] + s + tail)[0] == ':' && ([':'] + s + tail)[1..] == s + tail
  {
  }

  lemma ReadTail(into: Stamp, second: nat, text: string, tail: string)
    requires text != "" && text[0] == ':' && TakeNumber(text[1..], true) == Some((second, tail))
    ensures ReadLayout(ColonSeconds(), text, into) ==
            if TakeFraction(tail).1 == "" then Some(into.(second := second, nano := TakeFraction(tail).0)) else None
  {
    hide TakeFraction, TakeNumber;
    assert ColonSeconds()[1..] == [Second] && [Second][1..] == [];
    assert ReadLayout(ColonSeconds(), text, into) == ReadLayout([Second], text[1..], into);
    assert [Second][0] == Second;
  }

  lemma PrintedIsTrimmed(t: Stamp)
    requires Printable(t)
    ensures TrimSpace(PrintStamp(ToSeconds(), t)) == PrintStamp(ToSeconds(), t)
    ensures TrimSpace(PrintStamp(ToMinutes(), t)) == PrintStamp(ToMinutes(), t)
  {
    var front: Layout := [Year, Lit('-'), Month, Lit('-'), Day, Lit(' '), Hour, Lit(':')];
    assert ToMinutes() == front + [Minute] && ToSeconds() == (front + [Minute, Lit(':')]) + [Second];
    assert front[0] == (front + [Minute, Lit(':')])[0] == Year;
    hide *;
    PrintedBetweenDigits(front, Minute, t);
    PrintedBetweenDigits(front + [Minute, Lit(':')], Second, t);
  }

  lemma PrintedBetweenDigits(front: Layout, last: Chunk, t: Stamp)
    requires Printable(t) && front != [] && front[0] == Year && last in {Minute, Second}
    ensures TrimSpace(PrintStamp(front + [last], t)) == PrintStamp(front + [last], t)
  {
    PrintConcat(front, [last], t);
    assert [last][1..] == [];
    assert PrintStamp([last], t) == PrintChunk(last, t) + PrintStamp([], t);
    NumberFirst(front, t, "");
    assert PrintStamp(front, t) + "" == PrintStamp(front, t);
    hide PrintStamp;
    DigitsAreTrimmed(PrintStamp(front + [last], t));
  }

  lemma DigitsAreTrimmed(s: string)
    requires s != "" && IsDigit(s[0]) && IsDigit(s[|s| - 1])
    ensures TrimSpace(s) == s
  {
    TrimmedIsFixed(s);
    hide TrimSpace;
  }

  lemma NoTail(s: string)
    ensures s + "" == s
  {
  }

  lemma ParsePrintedSeconds(t: Stamp)
    requires Printable(t) && t.nano == 0
    ensures ParseStamp(ToSeconds(), PrintStamp(ToSeconds(), t)) == if t.Valid() then Some(t.ToInstant()) else None
    ensures ParseStamp(ToMinutes(), PrintStamp(ToSeconds(), t)) == None
  {
    ReadSeconds(t, "");
    assert TakeFraction("") == (0, "");
    ReadEnd(t.(second := 0, nano := 0));
    PrintConcat(ToMinutes(), ColonSeconds(), t);
    SecondsPrinted(t);
    ReadMinutes(t, [], PrintStamp(ColonSeconds(), t));
    hide PrintStamp, ReadLayout, Stamp.ToInstant, Stamp.Valid, ToMinutes, ColonSeconds;
    NoTail(PrintStamp(ToSeconds(), t));
    assert t.(nano := 0) == t && ToMinutes() + [] == ToMinutes();
    NothingAfter(PrintStamp(ColonSeconds(), t), t.(second := 0, nano := 0));
  }

  lemma NothingAfter(s: string, t: Stamp)
    ensures s != "" ==> ReadLayout([], s, t) == None
  {
  }

  lemma ParsePrintedMinutes(t: Stamp)
    requires Printable(t) && t.nano == 0
    ensures ParseStamp(ToSeconds(), PrintStamp(ToMinutes(), t)) == None
    ensures var to := t.(second := 0);
            ParseStamp(ToMinutes(), PrintStamp(ToMinutes(), t)) == if to.Valid() then Some(to.ToInstant()) else None
  {
    var to := t.(second := 0, nano := 0);
    assert to == t.(second := 0);
    ReadEnd(to);
    ReadMinutes(t, ColonSeconds(), "");
    ReadMinutes(t, [], "");
    hide PrintStamp, ReadLayout, Stamp.ToInstant, Stamp.Valid, ToMinutes, ColonSeconds;
    NoTail(PrintStamp(ToMinutes(), t));
    assert ToMinutes() + [] == ToMinutes();
  }

  /** A date and time of four and two digits each, in either layout, is read as the instant
      it names if there is such a day and time, and rejected if not. */
  lemma ParsePrintedOnce(t: Stamp)
    requires Printable(t) && t.nano == 0
    ensures var valid := 1 <= t.month <= 12 && 1 <= t.day <= MonthLength(12 * t.year + t.month - 1)
                         && t.hour < 24 && t.minute < 60;
            && (ParseOnce(PrintStamp(ToSeconds(), t)) ==
                if valid && t.second < 60 then Some(t.ToInstant()) else None)
            && (ParseOnce(PrintStamp(ToMinutes(), t)) ==
                if valid then Some(t.(second := 0).ToInstant()) else None)
  {
    hide *;
    ValidMeans(t);
    ValidMeans(t.(second := 0));
    PrintedIsTrimmed(t);
    ParsePrintedSeconds(t);
    ParsePrintedMinutes(t);
    OnceIs(PrintStamp(ToSeconds(), t));
    OnceIs(PrintStamp(ToMinutes(), t));
  }

  lemma ValidMeans(t: Stamp)
    requires t.nano == 0
    ensures t.Valid() <==>
            && 1 <= t.month <= 12 && 1 <= t.day <= MonthLength(12 * t.year + t.month - 1)
            && t.hour < 24 && t.minute < 60 && t.second < 60
  {
    hide MonthLength;
  }

  lemma OnceIs(text: string)
    requires TrimSpace(text) == text
    ensures ParseOnce(text) ==
            if ParseStamp(ToSeconds(), text).Some? then ParseStamp(ToSeconds(), text) else ParseStamp(ToMinutes(), text)
  {
    hide TrimSpace, ParseStamp, ToSeconds, ToMinutes;
  }

  /** A fraction nobody asked for is read too, and added to the instant. */
  lemma FractionIsRead(t: Stamp, tail: string)
    requires t.Valid() && t.year < 10000 && t.nano == 0
    requires tail != "" && IsDigit(tail[|tail| - 1])
    requires TakeFraction(tail).1 == "" && TakeFraction(tail).0 < SECOND
    ensures ParseOnce(PrintStamp(ToSeconds(), t) + tail) == Some(t.ToInstant() + TakeFraction(tail).0)
  {
    hide PrintStamp, ReadLayout, Stamp.ToInstant, ToSeconds, ToMinutes, TakeFraction, TrimSpace, MonthLength;
    FractionTrimmed(t, tail);
    ReadSeconds(t, tail);
    LaterInSecond(t, TakeFraction(tail).0);
    hide Stamp.Valid, IsDigit, Printable;
  }

  lemma LaterInSecond(t: Stamp, nano: nat)
    requires t.Valid() && t.nano == 0 && nano < SECOND
    ensures t.(nano := nano).Valid() && t.(nano := nano).ToInstant() == t.ToInstant() + nano
  {
    hide FirstDay, MonthLength;
  }

  lemma FractionTrimmed(t: Stamp, tail: string)
    requires Printable(t) && tail != "" && IsDigit(tail[|tail| - 1])
    ensures TrimSpace(PrintStamp(ToSeconds(), t) + tail) == PrintStamp(ToSeconds(), t) + tail
  {
    NumberFirst(ToSeconds(), t, tail);
    hide PrintStamp, ToSeconds;
    DigitsAreTrimmed(PrintStamp(ToSeconds(), t) + tail);
    hide TrimSpace;
  }

  lemma OneDecimal(tenths: nat)
    requires tenths < 10
    ensures TakeFraction(['.', DigitChar(tenths)]) == (tenths * (SECOND / 10), "")
  {
    var d := DigitChar(tenths);
    assert ['.', d][1..] == [d] && [d][1..] == [] && [d][..1] == [d];
    assert CountDigits([d]) == 1;
    assert Decimals([d], SECOND / 10) == Digit(d) * (SECOND / 10) + Decimals([], SECOND / 100);
  }

  /** Nine decimals count, further ones do not; the hour alone may have one digit. */
  lemma KnownDigitsRead(d: nat, more: string, t: Stamp)
    requires d < 10 && AllDigits(more)
    ensures Decimals([DigitChar(d)] + more, 1) == d && Decimals(more, 0) == 0
    ensures TakeChunk(Hour, [DigitChar(d), ':'], t) == Some((t.(hour := d), ":"))
    ensures TakeChunk(Month, [DigitChar(d), '-'], t) == None && TakeChunk(Day, [DigitChar(d), ' '], t) == None
    ensures TakeChunk(Minute, [DigitChar(d), ':'], t) == None && TakeChunk(Second, [DigitChar(d)], t) == None
  {
    assert ([DigitChar(d)] + more)[1..] == more;
    assert [DigitChar(d), ':'][1..] == ":";
  }

  lemma TwoDecimals(a: nat, b: nat)
    requires a < 10 && b < 10
    ensures TakeFraction(['.', DigitChar(a), DigitChar(b)]) == (a * 100_000_000 + b * 10_000_000, "")
  {
    var s := [DigitChar(a), DigitChar(b)];
    assert ['.', DigitChar(a), DigitChar(b)][1..] == s && s[1..] == [DigitChar(b)] && [DigitChar(b)][1..] == [];
    assert CountDigits([DigitChar(b)]) == 1 && CountDigits(s) == 2;
    assert s[..2] == s && s[2..] == [];
    assert Decimals([DigitChar(b)], SECOND / 100) == b * (SECOND / 100) + Decimals([], SECOND / 1000);
  }

  /** What the two layouts look like. */
  lemma KnownStamps()
    ensures var t := Stamp(2026, 2, 1, 10, 30, 15, 0);
            PrintStamp(ToSeconds(), t) == "2026-02-01 10:30:15" && PrintStamp(ToMinutes(), t) == "2026-02-01 10:30"
  {
    var t := Stamp(2026, 2, 1, 10, 30, 15, 0);
    hide *;
    KnownChunks();
    KnownGlue();
    PrintConcat(ToMinutes(), ColonSeconds(), t);
    PrintAll(ColonSeconds(), t, [":", "15"]);
    PrintAll(ToMinutes(), t, ["2026", "-", "02", "-", "01", " ", "10", ":", "30"]);
    SecondsFollowMinutes();
  }

  lemma SecondsFollowMinutes()
    ensures ToSeconds() == ToMinutes() + ColonSeconds() && |ToMinutes()| == 9 && |ColonSeconds()| == 2
    ensures "2026-02-01 10:30" + ":15" == "2026-02-01 10:30:15"
  {
  }

  lemma KnownChunks()
    ensures Printable(Stamp(2026, 2, 1, 10, 30, 15, 0)) && |ToMinutes()| == 9 && |ColonSeconds()| == 2
    ensures var t, parts := Stamp(2026, 2, 1, 10, 30, 15, 0), ["2026", "-", "02", "-", "01", " ", "10", ":", "30"];
            forall i :: 0 <= i < 9 ==> PrintChunk(ToMinutes()[i], t) == parts[i]
    ensures var t, parts := Stamp(2026, 2, 1, 10, 30, 15, 0), [":", "15"];
            forall i :: 0 <= i < 2 ==> PrintChunk(ColonSeconds()[i], t) == parts[i]
  {
    KnownDigits();
    hide TwoDigits, FourDigits;
  }

  lemma KnownDigits()
    ensures TwoDigits(2) == "02" && TwoDigits(1) == "01" && TwoDigits(10) == "10" && TwoDigits(30) == "30"
    ensures TwoDigits(15) == "15" && FourDigits(2026) == "2026"
  {
  }

  lemma KnownGlue()
    ensures Glued(["2026", "-", "02", "-", "01", " ", "10", ":", "30"]) == "2026-02-01 10:30"
    ensures Glued([":", "15"]) == ":15"
  {
    var p := ["2026", "-", "02", "-", "01", " ", "10", ":", "30"];
    assert [":", "15"][1..] == ["15"];
    hide Glued;
    GluedFrom(p, 8);
    GluedFrom(p, 7);
    GluedFrom(p, 6);
    assert Glued(p[6..]) == "10:30";
    GluedFrom(p, 5);
    GluedFrom(p, 4);
    GluedFrom(p, 3);
    assert Glued(p[3..]) == "-01 10:30";
    GluedFrom(p, 2);
    GluedFrom(p, 1);
    GluedFrom(p, 0);
  }

  lemma GluedFrom(p: seq<string>, i: nat)
    requires i < |p|
    ensures Glued(p[i..]) == p[i] + Glued(p[i + 1..])
    ensures i + 1 == |p| ==> Glued(p[i..]) == p[i]
    ensures p[0..] == p
  {
    assert p[i..][1..] == p[i + 1..];
  }

  /** The texts of the chunks, one after the other. */
  function Glued(parts: seq<string>): string {
    if parts == [] then "" else parts[0] + Glued(parts[1..])
  }

  lemma {:induction false} PrintAll(layout: Layout, t: Stamp, parts: seq<string>)
    requires Printable(t) && |parts| == |layout|
    requires forall i :: 0 <= i < |layout| ==> PrintChunk(layout[i], t) == parts[i]
    ensures PrintStamp(layout, t) == Glued(parts)
    decreases |layout|
  {
    hide PrintChunk;
    if layout != [] { PrintAll(layout[1..], t, parts[1..]); }
  }
}
