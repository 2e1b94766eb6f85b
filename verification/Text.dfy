/** The pieces of Go's `strings` and `strconv` packages that the modelled code
    is written with, on sequences of Unicode scalar values. */
module Text {
  datatype Option<+T> = None | Some(value: T)

  datatype Result<+T, +E> = Ok(value: T) | Err(error: E)

  // ----- searching and splitting ---------------------------------------------

  /** `strings.Split(s, sep)` for a one-element separator. */
  function Split<T(==)>(s: seq<T>, sep: T): (parts: seq<seq<T>>)
    ensures |parts| == Count(s, sep) + 1
  {
    if s == [] then [[]]
    else
      var rest := Split(s[1..], sep);
      if s[0] == sep then [[]] + rest else [[s[0]] + rest[0]] + rest[1..]
  }

  /** `bytes.Count` for a one-element pattern. */
  function Count<T(==)>(s: seq<T>, x: T): nat {
    if s == [] then 0 else (if s[0] == x then 1 else 0) + Count(s[1..], x)
  }

  /** `strings.Join(parts, sep)` for a one-element separator. */
  function Join<T>(parts: seq<seq<T>>, sep: T): seq<T> {
    if parts == [] then []
    else if |parts| == 1 then parts[0]
    else parts[0] + [sep] + Join(parts[1..], sep)
  }

  lemma {:induction false} CountZero<T>(s: seq<T>, x: T)
    ensures Count(s, x) == 0 <==> x !in s
  {
    if s != [] { CountZero(s[1..], x); }
  }

  lemma {:induction false} CountConcat<T>(a: seq<T>, b: seq<T>, x: T)
    ensures Count(a + b, x) == Count(a, x) + Count(b, x)
  {
    if a == [] {
      assert a + b == b;
    } else {
      assert (a + b)[1..] == a[1..] + b;
      CountConcat(a[1..], b, x);
    }
  }

  /** Two lists of parts, the last of the one joined to the first of the other. */
  function Seamed<T>(p: seq<seq<T>>, q: seq<seq<T>>): (r: seq<seq<T>>)
    requires |p| > 0 && |q| > 0
    ensures |r| == |p| + |q| - 1
  {
    p[..|p| - 1] + [p[|p| - 1] + q[0]] + q[1..]
  }

  /** One more element in front of a list of parts. */
  function InFront<T>(isSep: bool, x: T, parts: seq<seq<T>>): (r: seq<seq<T>>)
    requires |parts| > 0
    ensures |r| > 0
  {
    if isSep then [[]] + parts else [[x] + parts[0]] + parts[1..]
  }

  /** Only the two parts beside the seam of a concatenation are joined. */
  lemma {:induction false} SplitConcat<T>(a: seq<T>, b: seq<T>, sep: T)
    ensures Split(a + b, sep) == Seamed(Split(a, sep), Split(b, sep))
  {
    if a == [] {
      assert a + b == b;
      NothingBefore(Split(b, sep));
    } else {
      hide *;
      SplitFront(a, sep);
      SplitFront(a + b, sep);
      SplitConcat(a[1..], b, sep);
      assert (a + b)[1..] == a[1..] + b && (a + b)[0] == a[0];
      SeamStep(a[0] == sep, a[0], Split(a[1..], sep), Split(b, sep));
    }
  }

  lemma NothingBefore<T>(q: seq<seq<T>>)
    requires |q| > 0
    ensures Seamed([[]], q) == q
  {
    assert [] + q[0] == q[0];
  }

  lemma SplitFront<T>(s: seq<T>, sep: T)
    requires s != []
    ensures Split(s, sep) == InFront(s[0] == sep, s[0], Split(s[1..], sep))
  {
  }

  /** One more element in front of two joined lists of parts. */
  lemma SeamStep<T>(isSep: bool, x: T, r: seq<seq<T>>, q: seq<seq<T>>)
    requires |r| > 0 && |q| > 0
    ensures InFront(isSep, x, Seamed(r, q)) == Seamed(InFront(isSep, x, r), q)
  {
    if isSep {
      assert ([[]] + r)[..|r|] == [[]] + r[..|r| - 1];
    } else if |r| == 1 {
      assert [x] + r[0] + q[0] == [x] + (r[0] + q[0]);
    } else {
      assert ([[x] + r[0]] + r[1..])[..|r| - 1] == [[x] + r[0]] + r[1..|r| - 1];
    }
  }

  lemma {:induction false} SplitOfPart<T>(s: seq<T>, sep: T)
    requires sep !in s
    ensures Split(s, sep) == [s]
  {
    if s != [] {
      SplitOfPart(s[1..], sep);
      assert s == [s[0]] + s[1..];
    }
  }

  lemma {:induction false} PartsHaveNoSeparator<T>(s: seq<T>, sep: T)
    ensures forall i :: 0 <= i < |Split(s, sep)| ==> sep !in Split(s, sep)[i]
  {
    if s != [] {
      PartsHaveNoSeparator(s[1..], sep);
    }
  }

  lemma {:induction false} SplitAfterPart<T>(part: seq<T>, sep: T, rest: seq<T>)
    requires sep !in part
    ensures Split(part + [sep] + rest, sep) == [part] + Split(rest, sep)
  {
    var s := part + [sep] + rest;
    SplitFront(s, sep);
    if part == [] {
      assert s[1..] == rest;
    } else {
      SplitAfterPart(part[1..], sep, rest);
      assert s[1..] == part[1..] + [sep] + rest;
      assert [part[0]] + part[1..] == part;
    }
  }

  lemma {:induction false} SplitJoin<T>(parts: seq<seq<T>>, sep: T)
    requires |parts| > 0 && forall i :: 0 <= i < |parts| ==> sep !in parts[i]
    ensures Split(Join(parts, sep), sep) == parts
  {
    if |parts| == 1 {
      SplitOfPart(parts[0], sep);
      assert parts == [parts[0]];
    } else {
      SplitJoin(parts[1..], sep);
      SplitAfterPart(parts[0], sep, Join(parts[1..], sep));
      assert parts == [parts[0]] + parts[1..];
    }
  }

  lemma {:induction false} JoinSplit<T>(s: seq<T>, sep: T)
    ensures Join(Split(s, sep), sep) == s
  {
    if s != [] {
      JoinSplit(s[1..], sep);
      var rest := Split(s[1..], sep);
      assert Split(s, sep)[1..] == if s[0] == sep then rest else rest[1..];
      if |rest| > 1 {
        assert ([s[0]] + rest[0]) + [sep] + Join(rest[1..], sep)
            == [s[0]] + (rest[0] + [sep] + Join(rest[1..], sep));
      }
    }
  }

  /** `strings.Cut(s, sep)`: the text before and after the first separator. */
  function Cut<T(==)>(s: seq<T>, sep: T): Option<(seq<T>, seq<T>)> {
    if s == [] then None
    else if s[0] == sep then Some(([], s[1..]))
    else match Cut(s[1..], sep)
      case None => None
      case Some(pair) => Some(([s[0]] + pair.0, pair.1))
  }

  lemma {:induction false} CutAt<T>(before: seq<T>, sep: T, after: seq<T>)
    requires sep !in before
    ensures Cut(before + [sep] + after, sep) == Some((before, after))
  {
    var s := before + [sep] + after;
    if before == [] {
      assert s[1..] == after;
    } else {
      assert s[1..] == before[1..] + [sep] + after;
      CutAt(before[1..], sep, after);
      assert s[0] == before[0] && [before[0]] + before[1..] == before;
    }
  }

  lemma {:induction false} CutFinds<T>(s: seq<T>, sep: T)
    ensures Cut(s, sep).None? <==> sep !in s
    ensures Cut(s, sep).Some? ==>
              var p := Cut(s, sep).value; sep !in p.0 && s == p.0 + [sep] + p.1
  {
    if s != [] {
      CutFinds(s[1..], sep);
    }
  }

  predicate HasPrefix<T(==)>(s: seq<T>, prefix: seq<T>) { prefix <= s }

  predicate HasSuffix<T(==)>(s: seq<T>, suffix: seq<T>) {
    |suffix| <= |s| && s[|s| - |suffix|..] == suffix
  }

  /** `strings.Contains(s, sub)`. */
  predicate Contains<T(==)>(s: seq<T>, sub: seq<T>) {
    sub <= s || (s != [] && Contains(s[1..], sub))
  }

  lemma {:induction false} ContainsIff<T>(s: seq<T>, sub: seq<T>)
    ensures Contains(s, sub) <==> exists i :: 0 <= i <= |s| && sub <= s[i..]
  {
    assert s[0..] == s;
    if s != [] {
      ContainsIff(s[1..], sub);
      forall i | 0 <= i < |s| ensures s[1..][i..] == s[i + 1..] {}
      if Contains(s[1..], sub) {
        var i :| 0 <= i < |s| && sub <= s[1..][i..];
        assert sub <= s[i + 1..];
      }
      if i :| 0 <= i <= |s| && sub <= s[i..] {
        if i > 0 { assert sub <= s[1..][i - 1..]; }
      }
    }
  }

  // ----- white space ---------------------------------------------------------

  /** `unicode.IsSpace`. */
  predicate IsSpace(c: char) {
    c in "\t\n\r " || c == '\U{b}' || c == '\U{c}' || c == '\U{85}' || c == '\U{a0}'
    || c == '\U{1680}' || '\U{2000}' <= c <= '\U{200a}' || c == '\U{2028}' || c == '\U{2029}'
    || c == '\U{202f}' || c == '\U{205f}' || c == '\U{3000}'
  }

  function TrimLeft(s: string): string {
    if s != [] && IsSpace(s[0]) then TrimLeft(s[1..]) else s
  }

  function TrimRight(s: string): string {
    if s != [] && IsSpace(s[|s| - 1]) then TrimRight(s[..|s| - 1]) else s
  }

  /** `strings.TrimSpace`. */
  function TrimSpace(s: string): string {
    TrimRight(TrimLeft(s))
  }

  /** No white space at either end. */
  predicate Trimmed(s: string) {
    s == [] || (!IsSpace(s[0]) && !IsSpace(s[|s| - 1]))
  }

  lemma {:induction false} TrimRightShape(s: string)
    ensures TrimRight(s) <= s
    ensures TrimRight(s) != [] ==> !IsSpace(TrimRight(s)[|TrimRight(s)| - 1])
  {
    if s != [] && IsSpace(s[|s| - 1]) {
      TrimRightShape(s[..|s| - 1]);
    }
  }

  lemma {:induction false} TrimLeftShape(s: string)
    ensures |TrimLeft(s)| <= |s| && TrimLeft(s) == s[|s| - |TrimLeft(s)|..]
    ensures TrimLeft(s) != [] ==> !IsSpace(TrimLeft(s)[0])
  {
    if s != [] && IsSpace(s[0]) {
      TrimLeftShape(s[1..]);
    }
  }

  /** TrimSpace yields trimmed text made of characters of its argument. */
  lemma TrimSpaceTrims(s: string)
    ensures Trimmed(TrimSpace(s))
    ensures forall c :: c in TrimSpace(s) ==> c in s
  {
    TrimLeftShape(s);
    TrimRightShape(TrimLeft(s));
  }

  /** and leaves trimmed text alone. */
  lemma TrimmedIsFixed(s: string)
    requires Trimmed(s)
    ensures TrimSpace(s) == s
  {
  }

  /** `strings.Fields`: the maximal runs of non-space characters. */
  function Fields(s: string): seq<string> {
    TakeFields(s, [])
  }

  function TakeFields(s: string, word: string): seq<string> {
    if s == [] then (if word == [] then [] else [word])
    else if IsSpace(s[0]) then (if word == [] then [] else [word]) + TakeFields(s[1..], [])
    else TakeFields(s[1..], word + [s[0]])
  }

  /** The words hold no white space and are not empty. */
  lemma {:induction false} FieldsAreSolid(s: string, word: string)
    requires forall i :: 0 <= i < |word| ==> !IsSpace(word[i])
    ensures forall i :: 0 <= i < |TakeFields(s, word)| ==> Solid(TakeFields(s, word)[i])
    decreases |s|
  {
    hide IsSpace;
    if s != [] {
      FieldsAreSolid(s[1..], []);
      if !IsSpace(s[0]) { FieldsAreSolid(s[1..], word + [s[0]]); }
    }
  }

  /** Text without white space at all. */
  predicate Solid(s: string) {
    s != [] && forall i :: 0 <= i < |s| ==> !IsSpace(s[i])
  }

  lemma JoinTwo<T>(a: seq<T>, sep: T, b: seq<T>)
    ensures Join([a, b], sep) == a + [sep] + b
  {
    assert [a, b][1..] == [b];
  }

  lemma {:induction false} TakeSolid(s: string, rest: string, word: string)
    requires forall i :: 0 <= i < |s| ==> !IsSpace(s[i])
    ensures TakeFields(s + rest, word) == TakeFields(rest, word + s)
  {
    if s == [] {
      assert s + rest == rest && word + s == word;
    } else {
      TakeSolid(s[1..], rest, word + [s[0]]);
      assert (s + rest)[1..] == s[1..] + rest;
      assert word + s == word + [s[0]] + s[1..];
    }
  }

  lemma TakeWord(word: string, rest: string)
    requires Solid(word)
    ensures TakeFields(word + [' '] + rest, []) == [word] + TakeFields(rest, [])
  {
    hide IsSpace;
    TakeSolid(word, [' '] + rest, []);
    assert word + [' '] + rest == word + ([' '] + rest);
    assert [] + word == word && ([' '] + rest)[1..] == rest;
    SpaceEndsWord(rest, word);
  }

  lemma SpaceEndsWord(rest: string, word: string)
    requires word != []
    ensures TakeFields([' '] + rest, word) == [word] + TakeFields(([' '] + rest)[1..], [])
  {
  }

  lemma {:induction false} TakeJoined(words: seq<string>)
    requires |words| > 0 && forall i :: 0 <= i < |words| ==> Solid(words[i])
    ensures TakeFields(Join(words, ' '), []) == words
  {
    hide Solid, TakeFields;
    if |words| == 1 {
      TakeLast(words[0]);
      assert words == [words[0]];
    } else {
      TakeJoined(words[1..]);
      TakeWord(words[0], Join(words[1..], ' '));
      assert words == [words[0]] + words[1..];
    }
  }

  lemma TakeLast(word: string)
    requires Solid(word)
    ensures TakeFields(word, []) == [word]
  {
    hide IsSpace;
    TakeSolid(word, [], []);
    assert word + [] == word && [] + word == word;
  }

  lemma {:induction false} JoinedIsTrimmed(words: seq<string>)
    requires |words| > 0 && forall i :: 0 <= i < |words| ==> Solid(words[i])
    ensures Join(words, ' ') != [] && Trimmed(Join(words, ' '))
  {
    hide IsSpace;
    if |words| > 1 { JoinedIsTrimmed(words[1..]); }
  }

  /** Words joined by single spaces are trimmed text that splits into the words. */
  lemma FieldsOfJoin(words: seq<string>)
    requires |words| > 0 && forall i :: 0 <= i < |words| ==> Solid(words[i])
    ensures TrimSpace(Join(words, ' ')) == Join(words, ' ') && Fields(Join(words, ' ')) == words
  {
    JoinedIsTrimmed(words);
    TakeJoined(words);
    hide Trimmed, Solid;
    TrimmedIsFixed(Join(words, ' '));
  }

  lemma {:induction false} SolidJoin(parts: seq<string>, sep: char)
    requires |parts| > 0 && !IsSpace(sep) && forall i :: 0 <= i < |parts| ==> Solid(parts[i])
    ensures Solid(Join(parts, sep))
  {
    hide IsSpace;
    if |parts| > 1 { SolidJoin(parts[1..], sep); }
  }

  // ----- decimal numbers -----------------------------------------------------

  const MAX_INT64: int := 0x7fff_ffff_ffff_ffff
  const TWO_64: int := 0x1_0000_0000_0000_0000

  /** Two's complement wrap-around of a 64-bit signed integer. */
  function Wrap64(n: int): (r: int)
    ensures -MAX_INT64 - 1 <= r <= MAX_INT64
    ensures r == n <==> -MAX_INT64 - 1 <= n <= MAX_INT64
  {
    var m := n % TWO_64;
    if m > MAX_INT64 then m - TWO_64 else m
  }

  /** A signed 64-bit integer. */
  type Int64 = n: int | -MAX_INT64 - 1 <= n <= MAX_INT64

  /** Numbers a multiple of 2^64 apart wrap to the same one. */
  lemma SameWrap(a: int, b: int, k: int)
    requires a == b + k * TWO_64
    ensures Wrap64(a) == Wrap64(b)
  {
    assert a / TWO_64 == b / TWO_64 + k;
  }

  /** A wrap on the way does not change the wrapped double. */
  lemma WrapDoubled(x: int)
    ensures Wrap64(Wrap64(x) * 2) == Wrap64(x * 2)
  {
    var k := x / TWO_64 + if x % TWO_64 > MAX_INT64 then 1 else 0;
    assert x == Wrap64(x) + k * TWO_64;
    SameWrap(x * 2, Wrap64(x) * 2, 2 * k);
  }

  predicate IsDigit(c: char) { '0' <= c <= '9' }

  predicate AllDigits(s: string) {
    forall i :: 0 <= i < |s| ==> IsDigit(s[i])
  }

  function DecimalValue(s: string): nat
    requires AllDigits(s)
  {
    if s == [] then 0
    else 10 * DecimalValue(s[..|s| - 1]) + (s[|s| - 1] as int - '0' as int)
  }

  /** `strconv.Atoi`: an optional sign and at least one digit, within 64 bits. */
  function Atoi(s: string): Option<int> {
    var signed := s != [] && s[0] in "+-";
    var digits := if signed then s[1..] else s;
    if digits == [] || !AllDigits(digits) then None
    else
      var n: int := DecimalValue(digits);
      var v := if signed && s[0] == '-' then -n else n;
      if -MAX_INT64 - 1 <= v <= MAX_INT64 then Some(v) else None
  }

  function Itoa(n: nat): (s: string)
    ensures s != [] && AllDigits(s) && DecimalValue(s) == n
  {
    if n < 10 then [('0' as int + n) as char]
    else
      var s := Itoa(n / 10) + [('0' as int + n % 10) as char];
      assert s[..|s| - 1] == Itoa(n / 10);
      s
  }

  lemma AtoiItoa(n: nat)
    requires n <= MAX_INT64
    ensures Atoi(Itoa(n)) == Some(n)
  {
  }

  /** A number is read with either sign or none, if it fits 64 bits. */
  lemma AtoiSigned(n: nat)
    ensures Atoi(Itoa(n)) == if n <= MAX_INT64 then Some(n) else None
    ensures Atoi("+" + Itoa(n)) == if n <= MAX_INT64 then Some(n) else None
    ensures Atoi("-" + Itoa(n)) == if n <= MAX_INT64 + 1 then Some(-(n as int)) else None
    ensures Atoi("") == None && Atoi("+") == None && Atoi("-") == None
  {
    var digits := Itoa(n);
    hide Itoa;
    assert ("+" + digits)[1..] == digits && ("-" + digits)[1..] == digits;
    assert IsDigit(digits[0]);
    hide DecimalValue;
  }

  lemma NumbersAreSolid(n: nat)
    ensures Solid(Itoa(n)) && ':' !in Itoa(n)
  {
  }
}
