/** `SanitizeLine`: what of a raw terminal line reaches the console. */
module Sanitize {
  import opened Utf8

  const MAX_RUNES := 4000
  const ESC: Rune := 0x1b

  /** " …[truncated]". */
  const MARKER: seq<Rune> :=
    [0x20, 0x2026, 0x5b, 0x74, 0x72, 0x75, 0x6e, 0x63, 0x61, 0x74, 0x65, 0x64, 0x5d]

  /** `unicode.Cf`, the format characters of Unicode 15. */
  predicate IsFormat(r: Rune) {
    || r == 0xad || 0x600 <= r <= 0x605 || r == 0x61c || r == 0x6dd || r == 0x70f
    || 0x890 <= r <= 0x891 || r == 0x8e2 || r == 0x180e || 0x200b <= r <= 0x200f
    || 0x202a <= r <= 0x202e || 0x2060 <= r <= 0x2064 || 0x2066 <= r <= 0x206f || r == 0xfeff
    || 0xfff9 <= r <= 0xfffb || r == 0x110bd || r == 0x110cd || 0x13430 <= r <= 0x1343f
    || 0x1bca0 <= r <= 0x1bca3 || 0x1d173 <= r <= 0x1d17a || r == 0xe0001 || 0xe0020 <= r <= 0xe007f
  }

  /** What may appear in the result: no C0 control, no DEL, no format character. */
  predicate Printable(r: Rune) {
    IsScalar(r) && r >= 0x20 && r != 0x7f && !IsFormat(r)
  }

  predicate AllPrintable(runes: seq<Rune>) {
    forall i :: 0 <= i < |runes| ==> Printable(runes[i])
  }

  // ----- escape sequences ----------------------------------------------------

  /** Index after the first byte from `i` that ends a CSI, or the end. */
  function AfterFinal(s: Bytes, i: nat): (n: nat)
    requires i <= |s|
    ensures i <= n <= |s|
    decreases |s| - i
  {
    if i == |s| then i else if 0x40 <= s[i] <= 0x7e then i + 1 else AfterFinal(s, i + 1)
  }

  predicate StringEndAt(s: Bytes, i: nat)
    requires i < |s|
  {
    s[i] == 0x1b && i + 1 < |s| && s[i + 1] == 0x5c
  }

  /** Index after the first ESC \ from `i`, or BEL if that ends the string too. */
  function AfterString(s: Bytes, i: nat, bel: bool): (n: nat)
    requires i <= |s|
    ensures i <= n <= |s|
    decreases |s| - i
  {
    if i == |s| then i
    else if bel && s[i] == 0x07 then i + 1
    else if StringEndAt(s, i) then i + 2
    else AfterString(s, i + 1, bel)
  }

  /** Length of the escape sequence at the start of `s`, or 0. */
  function EscapeLength(s: Bytes): (n: nat)
    ensures n <= |s|
    ensures |s| >= 2 && s[0] == 0x1b ==> n >= 2
  {
    if |s| < 2 || s[0] != 0x1b then 0
    else if s[1] == '[' as int then AfterFinal(s, 2)
    else if s[1] == ']' as int then AfterString(s, 2, true)
    else if s[1] in {'P' as int, '^' as int, '_' as int} then AfterString(s, 2, false)
    else if s[1] in {'(' as int, ')' as int, '*' as int, '+' as int} then (if |s| >= 3 then 3 else |s|)
    else 2
  }

  /** `escapeLength`, scanning. */
  method ScanEscape(s: Bytes) returns (n: nat)
    ensures n == EscapeLength(s)
  {
    if |s| < 2 || s[0] != 0x1b { return 0; }
    var i := 2;
    if s[1] == '[' as int {
      while i < |s|
        invariant 2 <= i <= |s| && AfterFinal(s, i) == AfterFinal(s, 2)
      {
        if 0x40 <= s[i] <= 0x7e { return i + 1; }
        i := i + 1;
      }
      return |s|;
    }
    if s[1] == ']' as int {
      while i < |s|
        invariant 2 <= i <= |s| && AfterString(s, i, true) == AfterString(s, 2, true)
      {
        if s[i] == 0x07 { return i + 1; }
        if s[i] == 0x1b && i + 1 < |s| && s[i + 1] == 0x5c { return i + 2; }
        i := i + 1;
      }
      return |s|;
    }
    if s[1] in {'P' as int, '^' as int, '_' as int} {
      while i < |s|
        invariant 2 <= i <= |s| && AfterString(s, i, false) == AfterString(s, 2, false)
      {
        if s[i] == 0x1b && i + 1 < |s| && s[i + 1] == 0x5c { return i + 2; }
        i := i + 1;
      }
      return |s|;
    }
    if s[1] in {'(' as int, ')' as int, '*' as int, '+' as int} {
      return if |s| >= 3 then 3 else |s|;
    }
    n := 2;
  }

  // ----- the scan ------------------------------------------------------------

  /** How far the scan moves on, and whether it keeps, resets or drops. */
  datatype Step = Keep(rune: Rune, size: nat) | Reset(size: nat) | Drop(size: nat)

  function NextStep(s: Bytes): (step: Step)
    requires s != []
    ensures 1 <= step.size <= |s|
    ensures step.Keep? ==> Printable(step.rune)
  {
    var d := Decode(s);
    if d.rune == ESC then Drop(if EscapeLength(s) > 0 then EscapeLength(s) else d.size)
    else if d.rune == 0x0d then Reset(d.size)
    else if d.rune == 0x09 then Keep(0x20, d.size)
    else if d == INVALID then Drop(1)
    else if d.rune < 0x20 || d.rune == 0x7f then Drop(d.size)
    else if IsFormat(d.rune) then Drop(d.size)
    else Keep(d.rune, d.size)
  }

  function Grown(kept: seq<Rune>, step: Step): seq<Rune> {
    match step
    case Keep(r, _) => kept + [r]
    case Reset(_) => []
    case Drop(_) => kept
  }

  /** The runes built from the rest of a line, after those already kept. */
  function Scan(s: Bytes, kept: seq<Rune>): seq<Rune>
    decreases |s|
  {
    if s == [] then kept
    else
      var step := NextStep(s);
      Scan(s[step.size..], Grown(kept, step))
  }

  lemma {:induction false} ScanIsPrintable(s: Bytes, kept: seq<Rune>)
    requires AllPrintable(kept)
    ensures AllPrintable(Scan(s, kept))
    decreases |s|
  {
    hide NextStep, Printable;
    if s != [] {
      var step := NextStep(s);
      ScanIsPrintable(s[step.size..], Grown(kept, step));
    }
  }

  function TrimSpaces(runes: seq<Rune>): seq<Rune> {
    if runes != [] && runes[|runes| - 1] == 0x20 then TrimSpaces(runes[..|runes| - 1]) else runes
  }

  function Truncated(runes: seq<Rune>): seq<Rune> {
    if |runes| > MAX_RUNES then runes[..MAX_RUNES] + MARKER else runes
  }

  /** The runes of the sanitized line. */
  function CleanRunes(line: Bytes): (r: seq<Rune>)
    ensures AllPrintable(r)
  {
    ScanIsPrintable(line, []);
    var trimmed := TrimSpaces(Scan(line, []));
    TrimIsPrefix(Scan(line, []));
    MarkerIsPrintable();
    Truncated(trimmed)
  }

  lemma {:induction false} TrimIsPrefix(runes: seq<Rune>)
    ensures TrimSpaces(runes) <= runes
    ensures var t := TrimSpaces(runes); t == [] || t[|t| - 1] != 0x20
  {
    if runes != [] && runes[|runes| - 1] == 0x20 { TrimIsPrefix(runes[..|runes| - 1]); }
  }

  lemma MarkerIsPrintable()
    ensures AllPrintable(MARKER)
  {
  }

  lemma PrintableIsScalar(runes: seq<Rune>)
    requires AllPrintable(runes)
    ensures AllScalar(runes)
  {
  }

  function Sanitized(line: Bytes): Bytes {
    PrintableIsScalar(CleanRunes(line));
    EncodeAll(CleanRunes(line))
  }

  // ----- the builder ---------------------------------------------------------

  /** `strings.TrimRight(s, " ")`. */
  function TrimBytes(s: Bytes): Bytes {
    if s != [] && s[|s| - 1] == 0x20 then TrimBytes(s[..|s| - 1]) else s
  }

  /** Trimming the bytes trims the runes: no other rune ends in a space byte. */
  lemma {:induction false} TrimBytesTrimsRunes(runes: seq<Rune>)
    requires AllScalar(runes)
    ensures AllScalar(TrimSpaces(runes)) && TrimBytes(EncodeAll(runes)) == EncodeAll(TrimSpaces(runes))
  {
    if runes != [] {
      var front, last := runes[..|runes| - 1], runes[|runes| - 1];
      assert runes == front + [last];
      EncodeAllConcat(front, [last]);
      EncodeOne(last);
      var s, e := EncodeAll(runes), Encode(last);
      assert s == EncodeAll(front) + e;
      assert s[|s| - 1] == e[|e| - 1];
      if last == 0x20 {
        assert s[..|s| - 1] == EncodeAll(front);
        TrimBytesTrimsRunes(front);
      }
    }
  }

  lemma EncodeOne(r: Rune)
    requires IsScalar(r)
    ensures EncodeAll([r]) == Encode(r)
  {
  }

  /** The `switch` of the loop: one rune or escape sequence of the line. */
  method ScanOne(line: Bytes, i: nat, b: Bytes, ghost kept: seq<Rune>)
    returns (next: nat, out: Bytes, ghost now: seq<Rune>)
    requires i < |line| && AllScalar(kept) && b == EncodeAll(kept)
    ensures i < next <= |line| && AllScalar(now) && out == EncodeAll(now)
    ensures ScanFrom(line, next, now) == ScanFrom(line, i, kept)
  {
    NothingKept();
    hide AllScalar, IsScalar, Decode, Encode, IsFormat, EscapeLength, EncodeAll, ScanFrom;
    var rest := line[i..];
    var d := Decode(rest);
    out, now := b, kept;
    if d.rune == ESC {
      ScanDrops(line, i, kept);
      var n := ScanEscape(rest);
      next := i + if n > 0 then n else d.size;
    } else if d.rune == 0x0d {
      ScanResets(line, i, kept);
      out, now, next := [], [], i + d.size;
    } else if d.rune == 0x09 {
      ScanKeepsOne(line, i, kept, 0x20);
      out, now, next := b + Encode(0x20), kept + [0x20], i + d.size;
    } else if d == INVALID {
      ScanDrops(line, i, kept);
      next := i + 1;
    } else if d.rune < 0x20 || d.rune == 0x7f {
      ScanDrops(line, i, kept);
      next := i + d.size;
    } else if IsFormat(d.rune) {
      ScanDrops(line, i, kept);
      next := i + d.size;
    } else {
      ScanKeepsOne(line, i, kept, d.rune);
      out, now, next := b + Encode(d.rune), kept + [d.rune], i + d.size;
    }
  }

  lemma NothingKept()
    ensures AllScalar([]) && EncodeAll([]) == []
  {
  }

  /** `SanitizeLine`: an index over the bytes and a builder that can be reset. */
  method SanitizeLine(line: Bytes) returns (out: Bytes)
    ensures out == Sanitized(line)
  {
    hide AllScalar, EncodeAll, Sanitized, ScanFrom, Scan;
    NothingKept();
    ScanBegins(line);
    var b: Bytes := [];
    ghost var kept: seq<Rune> := [];
    var i := 0;
    while i < |line|
      invariant 0 <= i <= |line| && AllScalar(kept) && b == EncodeAll(kept)
      invariant ScanFrom(line, i, kept) == Scan(line, [])
    {
      i, b, kept := ScanOne(line, i, b, kept);
    }
    ScanEnds(line, kept);
    out := Finish(line, kept, b);
  }

  /** The end of `SanitizeLine`: trim, and cut what is too long. */
  method Finish(ghost line: Bytes, ghost kept: seq<Rune>, b: Bytes) returns (out: Bytes)
    requires kept == Scan(line, []) && AllScalar(kept) && b == EncodeAll(kept)
    ensures out == Sanitized(line)
  {
    hide Truncated, TrimSpaces, TrimBytes, EncodeAll, DecodeAll, Sanitized, Scan;
    MarkerIsScalar();
    FinishIsSanitized(line, kept, b);
    out := TrimBytes(b);
    var runes := DecodeAll(out);
    if |runes| > MAX_RUNES {
      out := EncodeAll(runes[..MAX_RUNES]) + EncodeAll(MARKER);
    }
  }

  /** The scan of what is left from an index on. */
  function ScanFrom(line: Bytes, i: nat, kept: seq<Rune>): seq<Rune>
    requires i <= |line|
  {
    Scan(line[i..], kept)
  }

  lemma ScanBegins(line: Bytes)
    ensures ScanFrom(line, 0, []) == Scan(line, [])
  {
    assert line[0..] == line;
  }

  lemma ScanEnds(line: Bytes, kept: seq<Rune>)
    ensures ScanFrom(line, |line|, kept) == kept
  {
    assert line[|line|..] == [];
  }

  lemma MarkerIsScalar()
    ensures AllScalar(MARKER)
  {
  }

  /** Trimming the bytes and cutting the runes gives what is specified on runes. */
  lemma FinishIsSanitized(line: Bytes, kept: seq<Rune>, b: Bytes)
    requires kept == Scan(line, []) && AllScalar(kept) && b == EncodeAll(kept) && AllScalar(MARKER)
    ensures var out := TrimBytes(b);
            var runes := DecodeAll(out);
            Sanitized(line) ==
              if |runes| > MAX_RUNES then EncodeAll(runes[..MAX_RUNES]) + EncodeAll(MARKER) else out
  {
    TrimBytesTrimsRunes(kept);
    DecodeEncodeAll(TrimSpaces(kept));
    var t := TrimSpaces(kept);
    if |t| > MAX_RUNES { EncodeAllConcat(t[..MAX_RUNES], MARKER); }
    assert CleanRunes(line) == Truncated(t);
    hide EncodeAll, DecodeAll, TrimBytes, TrimSpaces, Scan;
  }

  lemma AppendRune(kept: seq<Rune>, r: Rune)
    requires AllScalar(kept) && IsScalar(r)
    ensures AllScalar(kept + [r]) && EncodeAll(kept + [r]) == EncodeAll(kept) + Encode(r)
  {
    EncodeAllConcat(kept, [r]);
    EncodeOne(r);
  }

  lemma ScanStep(line: Bytes, i: nat, kept: seq<Rune>)
    requires i < |line|
    ensures var step := NextStep(line[i..]);
            i + step.size <= |line| && ScanFrom(line, i, kept) == ScanFrom(line, i + step.size, Grown(kept, step))
  {
    hide NextStep;
    var step := NextStep(line[i..]);
    assert line[i..][step.size..] == line[i + step.size..];
  }

  /** Dropped: an escape sequence, a byte that is no text, a control or format character. */
  lemma ScanDrops(line: Bytes, i: nat, kept: seq<Rune>)
    requires i < |line|
    requires var d := Decode(line[i..]);
             d.rune == ESC || d == INVALID || (d.rune < 0x20 && d.rune !in {0x09, 0x0d}) || d.rune == 0x7f
             || IsFormat(d.rune)
    ensures var d, n := Decode(line[i..]), EscapeLength(line[i..]);
            var size := if d.rune == ESC && n > 0 then n else d.size;
            i + size <= |line| && ScanFrom(line, i, kept) == ScanFrom(line, i + size, kept)
  {
    ScanStep(line, i, kept);
    hide Decode, EscapeLength, ScanFrom;
  }

  lemma ScanResets(line: Bytes, i: nat, kept: seq<Rune>)
    requires i < |line| && Decode(line[i..]).rune == 0x0d
    ensures var d := Decode(line[i..]);
            i + d.size <= |line| && ScanFrom(line, i, kept) == ScanFrom(line, i + d.size, [])
  {
    ScanStep(line, i, kept);
    hide Decode, EscapeLength, ScanFrom;
  }

  /** A tab is kept as a space, anything else as it is. */
  lemma ScanKeepsOne(line: Bytes, i: nat, kept: seq<Rune>, r: Rune)
    requires i < |line| && AllScalar(kept)
    requires var d := Decode(line[i..]);
             if d.rune == 0x09 then r == 0x20
             else r == d.rune && d != INVALID && d.rune >= 0x20 && d.rune != 0x7f && !IsFormat(d.rune)
    ensures var d := Decode(line[i..]);
            i + d.size <= |line| && ScanFrom(line, i, kept) == ScanFrom(line, i + d.size, kept + [r])
    ensures IsScalar(r) && AllScalar(kept + [r]) && EncodeAll(kept + [r]) == EncodeAll(kept) + Encode(r)
  {
    hide Decode, EscapeLength, ScanFrom, EncodeAll, Encode, IsFormat;
    ScanStep(line, i, kept);
    assert IsScalar(r);
    AppendRune(kept, r);
  }

  // ----- what the result is like ---------------------------------------------

  /** Reading the result back as UTF-8 gives printable runes only, no escape, no
      control, and no more of them than the limit and the marker. */
  lemma SanitizedIsPrintable(line: Bytes)
    ensures AllPrintable(DecodeAll(Sanitized(line)))
    ensures |DecodeAll(Sanitized(line))| <= MAX_RUNES + |MARKER|
  {
    PrintableIsScalar(CleanRunes(line));
    DecodeEncodeAll(CleanRunes(line));
  }

  /** Printable text is kept as it stands, whatever follows it. */
  lemma {:induction false} ScanOfPrintable(runes: seq<Rune>, rest: Bytes, kept: seq<Rune>)
    requires AllPrintable(runes)
    ensures AllScalar(runes) && Scan(EncodeAll(runes) + rest, kept) == Scan(rest, kept + runes)
    decreases |runes|
  {
    PrintableIsScalar(runes);
    EncodeFront(runes, rest);
    hide EncodeAll, NextStep, Decode, Encode, Printable, Scan, IsScalar;
    if runes != [] {
      var r, tail := runes[0], EncodeAll(runes[1..]) + rest;
      ScanKeeps(r, tail, kept);
      ScanOfPrintable(runes[1..], rest, kept + [r]);
    }
    FrontMoves(kept, runes);
  }

  lemma FrontMoves(kept: seq<Rune>, runes: seq<Rune>)
    ensures kept + runes == if runes == [] then kept else kept + [runes[0]] + runes[1..]
  {
  }

  lemma EncodeFront(runes: seq<Rune>, rest: Bytes)
    requires AllScalar(runes)
    ensures EncodeAll(runes) + rest ==
            if runes == [] then rest else Encode(runes[0]) + (EncodeAll(runes[1..]) + rest)
  {
    hide Encode;
  }

  lemma ScanKeeps(r: Rune, tail: Bytes, kept: seq<Rune>)
    requires Printable(r)
    ensures Scan(Encode(r) + tail, kept) == Scan(tail, kept + [r])
  {
    DecodeEncode(r, tail);
    StepOfPrintable(r, tail);
    hide NextStep, Decode, Encode, Printable;
  }

  /** A carriage return erases the text before it, as on a terminal. */
  lemma CarriageReturnErases(before: seq<Rune>, after: Bytes)
    requires AllPrintable(before)
    ensures AllScalar(before) && Sanitized(EncodeAll(before) + ([0x0d] + after)) == Sanitized(after)
  {
    ScanOfPrintable(before, [0x0d] + after, []);
    assert NextStep([0x0d] + after) == Reset(1);
    assert ([0x0d] + after)[1..] == after;
    hide NextStep;
  }

  /** An escape sequence in the text leaves no trace. */
  lemma EscapeVanishes(before: seq<Rune>, escape: Bytes, after: Bytes)
    requires AllPrintable(before) && |escape| >= 2 && EscapeLength(escape + after) == |escape|
    ensures AllScalar(before) && Sanitized(EncodeAll(before) + (escape + after)) == Sanitized(EncodeAll(before) + after)
  {
    ScanOfPrintable(before, escape + after, []);
    ScanOfPrintable(before, after, []);
    assert NextStep(escape + after) == Drop(|escape|);
    assert (escape + after)[|escape|..] == after;
    hide NextStep;
  }

  /** The bytes that end a control sequence. */
  lemma {:induction false} FinalAt(s: Bytes, i: nat, k: nat)
    requires i <= k < |s| && 0x40 <= s[k] <= 0x7e && forall j :: i <= j < k ==> !(0x40 <= s[j] <= 0x7e)
    ensures AfterFinal(s, i) == k + 1
    decreases k - i
  {
    if i < k { FinalAt(s, i + 1, k); }
  }

  lemma {:induction false} NoFinal(s: Bytes, i: nat)
    requires i <= |s| && forall j :: i <= j < |s| ==> !(0x40 <= s[j] <= 0x7e)
    ensures AfterFinal(s, i) == |s|
    decreases |s| - i
  {
    if i < |s| { NoFinal(s, i + 1); }
  }

  /** Nothing before index `k` ends a control string: no ESC \, and no BEL if that does. */
  predicate NoStringEnd(s: Bytes, from: nat, k: nat, bel: bool)
    requires k <= |s|
  {
    forall j :: from <= j < k ==> !(bel && s[j] == 0x07) && !(s[j] == 0x1b && j + 1 < |s| && s[j + 1] == 0x5c)
  }

  lemma {:induction false} StringEnds(s: Bytes, i: nat, k: nat, bel: bool)
    requires i <= k < |s| && NoStringEnd(s, i, k, bel)
    requires (bel && s[k] == 0x07) || (s[k] == 0x1b && k + 1 < |s| && s[k + 1] == 0x5c)
    ensures AfterString(s, i, bel) == if s[k] == 0x1b then k + 2 else k + 1
    decreases k - i
  {
    if i < k { StringEnds(s, i + 1, k, bel); }
  }

  lemma {:induction false} NoEndOfString(s: Bytes, i: nat, bel: bool)
    requires i <= |s| && NoStringEnd(s, i, |s|, bel)
    ensures AfterString(s, i, bel) == |s|
    decreases |s| - i
  {
    if i < |s| { NoEndOfString(s, i + 1, bel); }
  }

  /** The line is the same without these bytes. */
  ghost predicate Vanishes(before: seq<Rune>, bytes: Bytes, after: Bytes)
    requires AllScalar(before)
  {
    Sanitized(EncodeAll(before) + (bytes + after)) == Sanitized(EncodeAll(before) + after)
  }

  /** A control sequence such as a colour code: ESC [, parameters, a final byte. */
  lemma CsiVanishes(before: seq<Rune>, params: Bytes, final: Byte, after: Bytes)
    requires AllPrintable(before) && 0x40 <= final <= 0x7e
    requires forall i :: 0 <= i < |params| ==> !(0x40 <= params[i] <= 0x7e)
    ensures AllScalar(before) && Vanishes(before, [0x1b, 0x5b] + params + [final], after)
  {
    var escape := [0x1b, 0x5b] + params + [final];
    FinalAt(escape + after, 2, |params| + 2);
    EscapeVanishes(before, escape, after);
  }

  /** A control string: OSC ends with BEL or ESC \, DCS, PM and APC with ESC \ only. */
  lemma ControlStringVanishes(before: seq<Rune>, kind: Byte, text: Bytes, end: Bytes, after: Bytes)
    requires AllPrintable(before) && kind in {0x5d, 0x50, 0x5e, 0x5f}
    requires end == [0x1b, 0x5c] || (kind == 0x5d && end == [0x07])
    requires NoStringEnd(text + end, 0, |text|, kind == 0x5d)
    ensures AllScalar(before) && Vanishes(before, [0x1b, kind] + text + end, after)
  {
    var escape := [0x1b, kind] + text + end;
    var s, k := escape + after, |text| + 2;
    assert forall j :: 0 <= j < |text| + |end| ==> s[j + 2] == (text + end)[j];
    forall j | 2 <= j < k
      ensures !(kind == 0x5d && s[j] == 0x07) && !(s[j] == 0x1b && j + 1 < |s| && s[j + 1] == 0x5c)
    {
      assert s[j] == (text + end)[j - 2] && s[j + 1] == (text + end)[j - 1];
    }
    StringEnds(s, 2, k, kind == 0x5d);
    EscapeVanishes(before, escape, after);
  }

  /** A character set selection takes one more byte; any other escape is two bytes. */
  lemma ShortEscapeVanishes(before: seq<Rune>, kind: Byte, charset: Byte, after: Bytes)
    requires AllPrintable(before)
    ensures AllScalar(before)
    ensures kind in {0x28, 0x29, 0x2a, 0x2b} ==> Vanishes(before, [0x1b, kind, charset], after)
    ensures kind !in {0x28, 0x29, 0x2a, 0x2b, 0x5b, 0x5d, 0x50, 0x5e, 0x5f} ==> Vanishes(before, [0x1b, kind], after)
  {
    PrintableIsScalar(before);
    if kind in {0x28, 0x29, 0x2a, 0x2b} {
      EscapeVanishes(before, [0x1b, kind, charset], after);
    } else if kind !in {0x5b, 0x5d, 0x50, 0x5e, 0x5f} {
      EscapeVanishes(before, [0x1b, kind], after);
    }
  }

  /** An escape sequence that does not end takes the rest of the line with it. */
  lemma UnendedEscapeDropsRest(before: seq<Rune>, kind: Byte, rest: Bytes)
    requires AllPrintable(before)
    requires match kind
             case 0x5b => forall i :: 0 <= i < |rest| ==> !(0x40 <= rest[i] <= 0x7e)
             case 0x5d => NoStringEnd(rest, 0, |rest|, true)
             case _ => kind in {0x50, 0x5e, 0x5f} && NoStringEnd(rest, 0, |rest|, false)
    ensures AllScalar(before) && Vanishes(before, [0x1b, kind] + rest, [])
  {
    var escape := [0x1b, kind] + rest;
    assert forall j :: 0 <= j < |rest| ==> escape[j + 2] == rest[j];
    if kind == 0x5b {
      NoFinal(escape, 2);
    } else {
      forall j | 2 <= j < |escape|
        ensures !(kind == 0x5d && escape[j] == 0x07)
                && !(escape[j] == 0x1b && j + 1 < |escape| && escape[j + 1] == 0x5c)
      {
        assert escape[j] == rest[j - 2] && (j + 1 < |escape| ==> escape[j + 1] == rest[j - 1]);
      }
      NoEndOfString(escape, 2, kind == 0x5d);
    }
    assert escape + [] == escape;
    EscapeVanishes(before, escape, []);
  }

  /** A charset selection cut short and an escape character at the end of the line. */
  lemma CutEscapeVanishes(before: seq<Rune>, kind: Byte)
    requires AllPrintable(before)
    ensures AllScalar(before) && Vanishes(before, [0x1b], [])
    ensures kind in {0x28, 0x29, 0x2a, 0x2b} ==> Vanishes(before, [0x1b, kind], [])
  {
    PrintableIsScalar(before);
    if kind in {0x28, 0x29, 0x2a, 0x2b} {
      assert [0x1b, kind] + [] == [0x1b, kind];
      EscapeVanishes(before, [0x1b, kind], []);
    }
    DropVanishes(before, [0x1b], []);
  }

  /** What one step of the scan drops leaves no trace. */
  lemma DropVanishes(before: seq<Rune>, bytes: Bytes, after: Bytes)
    requires AllPrintable(before) && bytes != [] && NextStep(bytes + after) == Drop(|bytes|)
    ensures AllScalar(before) && Vanishes(before, bytes, after)
  {
    ScanOfPrintable(before, bytes + after, []);
    ScanOfPrintable(before, after, []);
    assert (bytes + after)[|bytes|..] == after;
    hide NextStep;
  }

  /** Other control characters, DEL, and characters that do not show, such as the soft
      hyphen, zero-width spaces and joiners, direction overrides and the byte order mark. */
  lemma UnseenVanishes(before: seq<Rune>, r: Rune, after: Bytes)
    requires AllPrintable(before)
    requires (0 <= r < 0x20 && r !in {0x09, 0x0d, 0x1b}) || r in {0x7f, 0xad, 0x200b, 0x200d, 0x202e, 0x2066, 0xfeff}
    ensures AllScalar(before) && Vanishes(before, Encode(r), after)
  {
    DecodeEncode(r, after);
    EncodingOfUnseen(r);
    hide Decode, Encode;
    DropVanishes(before, Encode(r), after);
  }

  lemma EncodingOfUnseen(r: Rune)
    requires IsScalar(r)
    ensures Encode(r) != [] && (r == RUNE_ERROR ==> |Encode(r)| == 3)
  {
  }

  /** A byte that is no text is not shown, and a tab is shown as a space. */
  lemma StrayByteVanishes(before: seq<Rune>, stray: Byte, after: Bytes)
    requires AllPrintable(before) && (0x80 <= stray <= 0xbf || 0xf8 <= stray)
    ensures AllScalar(before) && Vanishes(before, [stray], after)
  {
    StrayStep(stray, after);
    DropVanishes(before, [stray], after);
  }

  lemma StrayStep(stray: Byte, after: Bytes)
    requires 0x80 <= stray <= 0xbf || 0xf8 <= stray
    ensures NextStep([stray] + after) == Drop(1)
  {
    assert Decode([stray] + after) == INVALID;
    hide Decode, IsFormat;
  }

  lemma TabIsSpace(before: seq<Rune>, after: Bytes)
    requires AllPrintable(before)
    ensures AllScalar(before)
    ensures Sanitized(EncodeAll(before) + ([0x09] + after)) == Sanitized(EncodeAll(before) + ([0x20] + after))
  {
    TabStep(after);
    ScanOfPrintable(before, [0x09] + after, []);
    ScanOfPrintable(before, [0x20] + after, []);
    assert ([0x09] + after)[1..] == after == ([0x20] + after)[1..];
    hide NextStep;
  }

  lemma TabStep(after: Bytes)
    ensures NextStep([0x09] + after) == Keep(0x20, 1) && NextStep([0x20] + after) == Keep(0x20, 1)
  {
    assert Decode([0x09] + after).rune == 0x09 && Decode([0x20] + after).rune == 0x20;
    assert Decode([0x09] + after).size == 1 && Decode([0x20] + after).size == 1;
    hide Decode, EscapeLength;
  }

  /** Printable text that does not end in a space is shown as it is, cut after 4000
      characters. */
  lemma PrintableIsShown(runes: seq<Rune>)
    requires AllPrintable(runes) && (runes != [] ==> runes[|runes| - 1] != 0x20)
    ensures var shown := if |runes| <= 4000 then runes else runes[..4000] + MARKER;
            AllScalar(runes) && AllScalar(shown) && Sanitized(EncodeAll(runes)) == EncodeAll(shown)
  {
    hide Scan, EncodeAll, CleanRunes, Printable, IsScalar;
    PrintableIsScalar(runes);
    CleanOfPrintable(runes);
    PrintableIsScalar(CleanRunes(EncodeAll(runes)));
  }

  lemma CleanOfPrintable(runes: seq<Rune>)
    requires AllPrintable(runes) && (runes != [] ==> runes[|runes| - 1] != 0x20) && AllScalar(runes)
    ensures CleanRunes(EncodeAll(runes)) == if |runes| <= 4000 then runes else runes[..4000] + MARKER
  {
    hide *;
    ScanOfPrintable(runes, [], []);
    assert EncodeAll(runes) + [] == EncodeAll(runes) && [] + runes == runes;
    ScanOfNothing(runes);
    CleanIs(EncodeAll(runes));
    NothingTrimmed(runes);
  }

  lemma CleanIs(line: Bytes)
    ensures CleanRunes(line) == Truncated(TrimSpaces(Scan(line, [])))
  {
    hide Truncated, TrimSpaces, Scan, AllPrintable;
  }

  lemma NothingTrimmed(runes: seq<Rune>)
    requires runes != [] ==> runes[|runes| - 1] != 0x20
    ensures Truncated(TrimSpaces(runes)) == if |runes| <= 4000 then runes else runes[..4000] + MARKER
  {
  }

  lemma ScanOfNothing(kept: seq<Rune>)
    ensures Scan([], kept) == kept
  {
  }

  lemma StepOfPrintable(r: Rune, rest: Bytes)
    requires Printable(r)
    ensures NextStep(Encode(r) + rest) == Keep(r, |Encode(r)|)
  {
    DecodeEncode(r, rest);
    ReplacementIsThreeBytes();
    hide Decode, Encode, EscapeLength, IsFormat;
  }

  lemma ReplacementIsThreeBytes()
    ensures |Encode(RUNE_ERROR)| == 3
  {
  }

  /** Sanitizing twice is sanitizing once, for every byte string, truncated lines
      included. */
  lemma SanitizeIsIdempotent(line: Bytes)
    ensures Sanitized(Sanitized(line)) == Sanitized(line)
  {
    var runes := CleanRunes(line);
    ScanOfPrintable(runes, [], []);
    assert [] + runes == runes && EncodeAll(runes) + [] == EncodeAll(runes);
    CleanIsFixed(line);
    hide Scan;
  }

  lemma CleanIsFixed(line: Bytes)
    ensures Truncated(TrimSpaces(CleanRunes(line))) == CleanRunes(line)
  {
    var t := TrimSpaces(Scan(line, []));
    TrimIsPrefix(Scan(line, []));
    if |t| > MAX_RUNES {
      var f := t[..MAX_RUNES] + MARKER;
      assert f[|f| - 1] == 0x5d;
      assert f[..MAX_RUNES] == t[..MAX_RUNES];
    }
  }
}
