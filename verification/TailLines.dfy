/** The last lines of a log file, read backwards in chunks. */
module TailLines {
  import opened Text

  type Byte = bv8
  const LF: Byte := 10
  const CR: Byte := 13
  const CHUNK_SIZE := 32 * 1024

  /** `strings.ReplaceAll(s, "\r\n", "\n")`. */
  function JoinCRLF(s: seq<Byte>): seq<Byte> {
    if |s| < 2 then s
    else if s[0] == CR && s[1] == LF then [LF] + JoinCRLF(s[2..])
    else [s[0]] + JoinCRLF(s[1..])
  }

  /** `strings.ReplaceAll(s, "\r", "\n")`. */
  function CRToLF(s: seq<Byte>): seq<Byte> {
    if s == [] then [] else [if s[0] == CR then LF else s[0]] + CRToLF(s[1..])
  }

  function Normalised(s: seq<Byte>): seq<Byte> {
    CRToLF(JoinCRLF(s))
  }

  /** The lines of a text; a line end at the very end starts no further line. */
  function Lines(text: seq<Byte>): seq<seq<Byte>> {
    var parts := Split(text, LF);
    if parts[|parts| - 1] == [] then parts[..|parts| - 1] else parts
  }

  function Last<T>(s: seq<T>, n: nat): seq<T> {
    if |s| > n then s[|s| - n..] else s
  }

  /** What the reader is after: the last lines of the whole file. */
  function LastLines(file: seq<Byte>, limit: nat): seq<seq<Byte>> {
    Last(Lines(Normalised(file)), limit)
  }

  /** Each line is ended by a line feed but the last, which is not empty: together they are
      the text. */
  lemma LinesMakeText(text: seq<Byte>)
    ensures forall i :: 0 <= i < |Lines(text)| ==> LF !in Lines(text)[i]
    ensures text == [] <==> Lines(text) == []
    ensures text != [] ==> text == Join(Lines(text), LF) + if text[|text| - 1] == LF then [LF] else []
  {
    PartsHaveNoSeparator(text, LF);
    JoinSplit(text, LF);
    var parts := Split(text, LF);
    var n := |parts| - 1;
    if n == 0 {
      assert parts == [parts[0]] && Join(parts, LF) == parts[0];
    } else {
      JoinLast(parts, LF);
    }
    hide Split, Join;
    assert parts[n] != [] ==> text[|text| - 1] == parts[n][|parts[n]| - 1];
  }

  lemma {:induction false} JoinLast<T>(parts: seq<seq<T>>, sep: T)
    requires |parts| >= 2
    ensures var n := |parts| - 1; Join(parts, sep) == Join(parts[..n], sep) + [sep] + parts[n]
  {
    var n := |parts| - 1;
    if n == 1 {
      JoinTwo(parts[0], sep, parts[1]);
      assert parts == [parts[0], parts[1]] && parts[..1] == [parts[0]];
    } else {
      JoinLast(parts[1..], sep);
      assert parts[1..][..n - 1] == parts[..n][1..];
      JoinAgain(parts[0], sep, Join(parts[..n][1..], sep), parts[n]);
    }
  }

  lemma JoinAgain<T>(a: seq<T>, sep: T, b: seq<T>, c: seq<T>)
    ensures a + [sep] + (b + [sep] + c) == (a + [sep] + b) + [sep] + c
  {
  }

  /** Any of the three line ends becomes one line feed, and nothing else changes. */
  lemma NormalisedLine(line: seq<Byte>, end: seq<Byte>, rest: seq<Byte>)
    requires CR !in line && LF !in line && (end == [CR] || end == [LF] || end == [CR, LF])
    requires end == [CR] ==> rest == [] || rest[0] != LF
    ensures Normalised(line) == line
    ensures Normalised(line + end + rest) == line + [LF] + Normalised(rest)
  {
    hide *;
    PlainIsNormal(line);
    PlainPrefix(line, end + rest);
    EndJoins(end, rest);
    assert line + end + rest == line + (end + rest);
    NormalisedIs(line + end + rest);
    NormalisedIs(rest);
    EndNormalised(line, if end == [CR, LF] then [LF] else end, JoinCRLF(rest));
  }

  lemma PlainIsNormal(line: seq<Byte>)
    requires CR !in line
    ensures Normalised(line) == line
  {
    assert JoinCRLF([]) == [];
    hide CRToLF, JoinCRLF;
    PlainPrefix(line, []);
    PlainStays(line);
    assert line + [] == line;
  }

  lemma NormalisedIs(s: seq<Byte>)
    ensures Normalised(s) == CRToLF(JoinCRLF(s))
  {
    hide CRToLF, JoinCRLF;
  }

  lemma EndNormalised(line: seq<Byte>, end: seq<Byte>, rest: seq<Byte>)
    requires CR !in line && (end == [CR] || end == [LF])
    ensures CRToLF(line + (end + rest)) == line + [LF] + CRToLF(rest)
  {
    assert CRToLF(end) == [LF];
    hide CRToLF;
    PlainStays(line);
    CRToLFConcat(line, end + rest);
    CRToLFConcat(end, rest);
    assert line + ([LF] + CRToLF(rest)) == line + [LF] + CRToLF(rest);
  }

  lemma EndJoins(end: seq<Byte>, rest: seq<Byte>)
    requires end == [CR] || end == [LF] || end == [CR, LF]
    requires end == [CR] ==> rest == [] || rest[0] != LF
    ensures JoinCRLF(end + rest) == (if end == [CR, LF] then [LF] else end) + JoinCRLF(rest)
  {
    var s := end + rest;
    JoinStep(s);
    hide JoinCRLF;
    if end == [CR, LF] {
      assert s[2..] == rest;
    } else {
      assert s[1..] == rest;
    }
  }

  lemma {:induction false} PlainPrefix(line: seq<Byte>, rest: seq<Byte>)
    requires CR !in line
    ensures JoinCRLF(line + rest) == line + JoinCRLF(rest)
  {
    JoinStep(line + rest);
    hide JoinCRLF;
    if line == [] {
      assert line + rest == rest;
      assert line + JoinCRLF(rest) == JoinCRLF(rest);
    } else {
      PlainPrefix(line[1..], rest);
      assert (line + rest)[1..] == line[1..] + rest;
      assert [line[0]] + (line[1..] + JoinCRLF(rest)) == line + JoinCRLF(rest);
    }
  }

  lemma {:induction false} PlainStays(line: seq<Byte>)
    requires CR !in line
    ensures CRToLF(line) == line
  {
    if line != [] { PlainStays(line[1..]); }
  }

  // ----- line ends across a seam ---------------------------------------------

  /** Normalising a file ends in what normalising its tail gives, even when the cut
      falls between a CR and its LF. */
  lemma {:induction false} JoinCRLFConcat(a: seq<Byte>, b: seq<Byte>) returns (x: seq<Byte>)
    ensures JoinCRLF(a + b) == x + JoinCRLF(b)
    decreases |a|
  {
    JoinStep(a + b);
    JoinStep(b);
    hide JoinCRLF;
    if a == [] {
      x := [];
      assert a + b == b;
    } else if |a| >= 2 && a[0] == CR && a[1] == LF {
      x := JoinCRLFConcat(a[2..], b);
      assert (a + b)[2..] == a[2..] + b;
      x := [LF] + x;
    } else if a == [CR] && b != [] && b[0] == LF {
      x := [];
      assert (a + b)[2..] == b[1..];
    } else {
      x := JoinCRLFConcat(a[1..], b);
      assert (a + b)[1..] == a[1..] + b;
      x := [a[0]] + x;
    }
  }

  lemma JoinStep(s: seq<Byte>)
    ensures s != [] ==> JoinCRLF(s) == if |s| >= 2 && s[0] == CR && s[1] == LF then [LF] + JoinCRLF(s[2..])
                                       else [s[0]] + JoinCRLF(s[1..])
    ensures s == [] ==> JoinCRLF(s) == []
  {
  }

  lemma {:induction false} CRToLFConcat(a: seq<Byte>, b: seq<Byte>)
    ensures CRToLF(a + b) == CRToLF(a) + CRToLF(b)
  {
    if a == [] {
      assert a + b == b;
    } else {
      var first := [if a[0] == CR then LF else a[0]];
      assert CRToLF(a + b) == first + CRToLF((a + b)[1..]) && CRToLF(a) == first + CRToLF(a[1..]);
      hide CRToLF;
      CRToLFConcat(a[1..], b);
      assert (a + b)[1..] == a[1..] + b;
      assert first + (CRToLF(a[1..]) + CRToLF(b)) == first + CRToLF(a[1..]) + CRToLF(b);
    }
  }

  /** Normalising loses no line end. */
  lemma {:induction false} LineEndsKept(s: seq<Byte>)
    ensures Count(JoinCRLF(s), LF) == Count(s, LF)
  {
    if |s| >= 2 {
      if s[0] == CR && s[1] == LF {
        LineEndsKept(s[2..]);
        assert Count(s, LF) == Count(s[1..], LF) == 1 + Count(s[1..][1..], LF);
        assert s[1..][1..] == s[2..];
        assert ([LF] + JoinCRLF(s[2..]))[1..] == JoinCRLF(s[2..]);
      } else {
        LineEndsKept(s[1..]);
        assert ([s[0]] + JoinCRLF(s[1..]))[1..] == JoinCRLF(s[1..]);
      }
    }
  }

  lemma {:induction false} LineEndsAdded(s: seq<Byte>)
    ensures Count(CRToLF(s), LF) >= Count(s, LF)
  {
    if s != [] {
      LineEndsAdded(s[1..]);
      assert CRToLF(s)[1..] == CRToLF(s[1..]);
    }
  }

  // ----- a long enough tail is enough ----------------------------------------

  lemma TailPartsAgree(x: seq<Byte>, y: seq<Byte>, limit: nat)
    requires Count(y, LF) > limit
    ensures Last(Lines(x + y), limit) == Last(Lines(y), limit)
  {
    SplitConcat(x, y, LF);
    hide Split, Count;
    var p, q, all := Split(x, LF), Split(y, LF), Split(x + y, LF);
    assert |q| >= limit + 2;
    // Everything after the first part of the tail is the end of the whole.
    assert all[|all| - (|q| - 1)..] == q[1..];
    assert all[|all| - 1] == q[|q| - 1];
    var n := if q[|q| - 1] == [] then 1 else 0;
    assert Last(Lines(x + y), limit) == all[|all| - n - limit..|all| - n];
    assert Last(Lines(y), limit) == q[|q| - n - limit..|q| - n];
    SameEnd(all, q, n, limit);
  }

  lemma SameEnd<T>(all: seq<T>, q: seq<T>, n: nat, limit: nat)
    requires |q| >= limit + 2 && n <= 1 && |all| >= |q| && all[|all| - (|q| - 1)..] == q[1..]
    ensures all[|all| - n - limit..|all| - n] == q[|q| - n - limit..|q| - n]
  {
  }

  /** A tail of the file with more than `limit` line ends already has the answer. */
  lemma TailIsEnough(file: seq<Byte>, offset: nat, limit: nat)
    requires offset <= |file| && Count(file[offset..], LF) > limit
    ensures LastLines(file[offset..], limit) == LastLines(file, limit)
  {
    var a, b := file[..offset], file[offset..];
    assert a + b == file;
    var x := JoinCRLFConcat(a, b);
    CRToLFConcat(x, JoinCRLF(b));
    LineEndsKept(b);
    LineEndsAdded(JoinCRLF(b));
    hide JoinCRLF, CRToLF, Lines, Last;
    TailPartsAgree(CRToLF(x), Normalised(b), limit);
  }

  lemma ChunkJoins(contents: seq<Byte>, offset: nat, n: nat)
    requires offset + n <= |contents|
    ensures contents[offset..] == contents[offset..offset + n] + contents[offset + n..]
  {
  }

  datatype Error = CannotOpen

  /** `tailLines`: 32 KiB chunks from the end until more than `limit` line ends are in. */
  method Tail(file: Option<seq<Byte>>, limit: int) returns (r: Result<seq<seq<Byte>>, Error>)
    ensures limit <= 0 ==> r == Ok([])
    ensures limit > 0 ==> r == if file.None? then Err(CannotOpen) else Ok(LastLines(file.value, limit))
  {
    hide LastLines;
    if limit <= 0 { return Ok([]); }
    if file.None? { return Err(CannotOpen); }
    var contents := file.value;
    if contents == [] {
      EmptyFile(limit);
      return Ok([]);
    }
    var data: seq<Byte> := [];
    var offset := |contents|;
    var newlines := 0;
    while offset > 0 && newlines <= limit
      invariant 0 <= offset <= |contents| && data == contents[offset..]
      invariant newlines == Count(data, LF)
      decreases offset
    {
      var n := if offset < CHUNK_SIZE then offset else CHUNK_SIZE;
      offset := offset - n;
      var chunk := contents[offset..offset + n];
      newlines := newlines + Count(chunk, LF);
      CountConcat(chunk, data, LF);
      ChunkJoins(contents, offset, n);
      data := chunk + data;
    }
    if newlines > limit {
      TailIsEnough(contents, offset, limit);
    } else {
      assert data == contents;
    }
    r := Ok(LastLines(data, limit));
  }

  lemma EmptyFile(limit: nat)
    ensures LastLines([], limit) == []
  {
  }

  /** Every line returned is a whole line of the normalised file, and at most
      `limit` of them come back. */
  lemma LinesAreWhole(file: seq<Byte>, limit: nat)
    ensures |LastLines(file, limit)| <= limit
    ensures forall line :: line in LastLines(file, limit) ==> LF !in line && CR !in line
  {
    var text := Normalised(file);
    PartsAreWhole(file);
    hide Normalised, Split, Count;
    var parts, lines := Split(text, LF), Lines(text);
    assert forall line :: line in lines ==> line in parts;
    assert forall line :: line in Last(lines, limit) ==> line in lines;
  }

  lemma PartsAreWhole(file: seq<Byte>)
    ensures forall line :: line in Split(Normalised(file), LF) ==> LF !in line && CR !in line
  {
    PartsHaveNoSeparator(Normalised(file), LF);
    NoCarriageReturn(JoinCRLF(file));
    PartsAvoid(Normalised(file), LF, CR);
    hide Split, Normalised;
  }

  lemma {:induction false} NoCarriageReturn(s: seq<Byte>)
    ensures CR !in CRToLF(s)
  {
    if s != [] { NoCarriageReturn(s[1..]); }
  }

  lemma {:induction false} PartsAvoid(s: seq<Byte>, sep: Byte, b: Byte)
    requires b !in s
    ensures forall i :: 0 <= i < |Split(s, sep)| ==> b !in Split(s, sep)[i]
  {
    if s != [] { PartsAvoid(s[1..], sep, b); }
  }
}
