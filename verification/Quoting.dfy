/** `strconv.Quote` and `strconv.Unquote` on code points.  Which characters count as
    printable is a parameter: only that a newline does not is ever needed. */
module Quoting {
  import opened Text

  type Printable = char -> bool

  const DEL := '\U{7f}'

  function HexDigit(n: nat): char
    requires n < 16
  {
    "0123456789abcdef"[n]
  }

  function HexDigitValue(c: char): (r: Option<nat>)
    ensures r.Some? ==> r.value < 16
  {
    if '0' <= c <= '9' then Some((c - '0') as nat)
    else if 'a' <= c <= 'f' then Some((c - 'a') as nat + 10)
    else if 'A' <= c <= 'F' then Some((c - 'A') as nat + 10)
    else None
  }

  /** Hexadecimal digits are read in either case. */
  lemma UpperCaseHex(n: nat)
    requires n < 16
    ensures HexDigitValue("0123456789ABCDEF"[n]) == Some(n) && HexDigitValue("0123456789abcdef"[n]) == Some(n)
  {
  }

  /** `n` in `k` hexadecimal digits. */
  function Hex(n: nat, k: nat): (s: string)
    ensures |s| == k
  {
    if k == 0 then [] else Hex(n / 16, k - 1) + [HexDigit(n % 16)]
  }

  function HexValue(s: string): Option<nat> {
    if s == [] then Some(0)
    else
      match (HexValue(s[..|s| - 1]), HexDigitValue(s[|s| - 1]))
      case (Some(v), Some(d)) => Some(16 * v + d)
      case _ => None
  }

  function Pow16(k: nat): nat {
    if k == 0 then 1 else 16 * Pow16(k - 1)
  }

  lemma HexDigitRoundTrip(n: nat)
    requires n < 16
    ensures HexDigitValue(HexDigit(n)) == Some(n)
  {
  }

  lemma Nibble(n: nat, k: nat)
    requires k > 0 && n < Pow16(k)
    ensures n / 16 < Pow16(k - 1)
  {
  }

  lemma HexParts(n: nat, k: nat)
    requires k > 0
    ensures Hex(n, k)[..k - 1] == Hex(n / 16, k - 1) && Hex(n, k)[k - 1] == HexDigit(n % 16)
  {
  }

  /** One digit more. */
  lemma HexStep(n: nat, k: nat)
    requires k > 0 && HexValue(Hex(n / 16, k - 1)) == Some(n / 16)
    ensures HexValue(Hex(n, k)) == Some(n)
  {
    HexParts(n, k);
    HexDigitRoundTrip(n % 16);
    hide HexDigit, HexDigitValue, Hex;
    assert 16 * (n / 16) + n % 16 == n;
  }

  lemma {:induction false} HexRoundTrip(n: nat, k: nat)
    requires n < Pow16(k)
    ensures HexValue(Hex(n, k)) == Some(n)
  {
    if k > 0 {
      Nibble(n, k);
      HexRoundTrip(n / 16, k - 1);
      HexStep(n, k);
      hide Hex, HexValue, Pow16;
    }
  }

  // ----- quoting -------------------------------------------------------------

  /** The letter of a named escape. */
  function NameOf(c: char): Option<char> {
    if c == '\U{7}' then Some('a') else if c == '\U{8}' then Some('b') else if c == '\U{c}' then Some('f')
    else if c == '\n' then Some('n') else if c == '\r' then Some('r') else if c == '\t' then Some('t')
    else if c == '\U{b}' then Some('v') else None
  }

  function Named(letter: char): Option<char> {
    if letter == 'a' then Some('\U{7}') else if letter == 'b' then Some('\U{8}')
    else if letter == 'f' then Some('\U{c}')
    else if letter == 'n' then Some('\n') else if letter == 'r' then Some('\r') else if letter == 't' then Some('\t')
    else if letter == 'v' then Some('\U{b}') else None
  }

  predicate Bare(shown: Printable, c: char) {
    c != '"' && c != '\\' && shown(c)
  }

  function Escape(shown: Printable, c: char): (s: string)
    ensures s != []
    ensures |s| == 1 <==> Bare(shown, c)
    ensures if Bare(shown, c) then s == [c] else s[0] == '\\'
  {
    if c == '"' || c == '\\' then ['\\', c]
    else if shown(c) then [c]
    else if NameOf(c).Some? then ['\\', NameOf(c).value]
    else if c < ' ' || c == DEL then ['\\', 'x'] + Hex(c as nat, 2)
    else if (c as nat) < 0x10000 then ['\\', 'u'] + Hex(c as nat, 4)
    else ['\\', 'U'] + Hex(c as nat, 8)
  }

  function EscapeAll(shown: Printable, s: string): string {
    if s == [] then [] else Escape(shown, s[0]) + EscapeAll(shown, s[1..])
  }

  function Quote(shown: Printable, s: string): string {
    ['"'] + EscapeAll(shown, s) + ['"']
  }

  // ----- unquoting -----------------------------------------------------------

  /** A scalar value written as a number. */
  function ToChar(n: nat): Option<char> {
    if n < 0xD800 || 0xE000 <= n <= 0x10FFFF then Some(n as char) else None
  }

  function FromHex(s: string, k: nat, limit: nat): Option<(char, nat)> {
    if |s| < k then None
    else match HexValue(s[..k])
      case Some(n) => (if n < limit && ToChar(n).Some? then Some((ToChar(n).value, k)) else None)
      case None => None
  }

  /** The character of an escape and how many characters follow the backslash. */
  function Unescape(s: string, quote: char): (r: Option<(char, nat)>)
    ensures r.Some? ==> 1 <= r.value.1 <= |s|
  {
    if s == [] then None
    else if Named(s[0]).Some? then Some((Named(s[0]).value, 1))
    else if s[0] == '\\' || s[0] == quote then Some((s[0], 1))
    else
      var k, limit := if s[0] == 'x' then 2 else if s[0] == 'u' then 4 else 8, if s[0] == 'x' then 0x80 else 0x110000;
      if s[0] in "xuU" then
        match FromHex(s[1..], k, limit)
        case Some(p) => Some((p.0, k + 1))
        case None => None
      else if |s| >= 3 && '0' <= s[0] <= '1' && '0' <= s[1] <= '7' && '0' <= s[2] <= '7' then
        Some((((s[0] - '0') as nat * 64 + (s[1] - '0') as nat * 8 + (s[2] - '0') as nat) as char, 3))
      else None
  }

  /** The text up to the closing quote, which must end the input. */
  function UnquoteBody(s: string, quote: char): Option<string>
    decreases |s|
  {
    if s == [] || s[0] == '\n' then None
    else if s[0] == quote then (if |s| == 1 then Some([]) else None)
    else if s[0] == '\\' then
      match Unescape(s[1..], quote)
      case None => None
      case Some(p) => Prepend(p.0, UnquoteBody(s[1 + p.1..], quote))
    else Prepend(s[0], UnquoteBody(s[1..], quote))
  }

  function Prepend(c: char, rest: Option<string>): Option<string> {
    if rest.Some? then Some([c] + rest.value) else None
  }

  function Unquote(v: string): Option<string> {
    if |v| < 2 then None
    else if v[0] == '"' then UnquoteBody(v[1..], '"')
    else if v[0] == '\'' then
      var r := UnquoteBody(v[1..], '\'');
      if r.Some? && |r.value| == 1 then r else None
    else if v[0] == '`' then
      if v[|v| - 1] == '`' && '`' !in v[1..|v| - 1] then Some(WithoutCR(v[1..|v| - 1])) else None
    else None
  }

  function WithoutCR(s: string): string {
    if s == [] then [] else (if s[0] == '\r' then [] else [s[0]]) + WithoutCR(s[1..])
  }

  // ----- the round trip ------------------------------------------------------

  lemma HexEscape(n: nat, k: nat, limit: nat, rest: string)
    requires n < Pow16(k) && n < limit && ToChar(n).Some?
    ensures FromHex(Hex(n, k) + rest, k, limit) == Some((n as char, k))
  {
    HexRoundTrip(n, k);
    assert (Hex(n, k) + rest)[..k] == Hex(n, k);
  }

  lemma Powers()
    ensures Pow16(2) == 256 && Pow16(4) == 65536 && Pow16(8) == 0x1_0000_0000
  {
  }

  lemma UnescapeEscape(shown: Printable, c: char, rest: string)
    requires !Bare(shown, c)
    ensures var e := Escape(shown, c);
            Unescape((e + rest)[1..], '"') == Some((c, |e| - 1))
  {
    var e := Escape(shown, c);
    assert (e + rest)[1..] == e[1..] + rest;
    if c == '"' || c == '\\' || NameOf(c).Some? {
      UnescapeLetter(c, rest);
    } else {
      var kind, k := if c < ' ' || c == DEL then 'x' else if (c as nat) < 0x10000 then 'u' else 'U',
                     if c < ' ' || c == DEL then 2 else if (c as nat) < 0x10000 then 4 else 8;
      UnescapeHex(kind, c as nat, k, rest);
      assert e[1..] == [kind] + Hex(c as nat, k);
    }
    hide Unescape, Hex, Escape;
  }

  lemma UnescapeLetter(c: char, rest: string)
    requires c == '"' || c == '\\' || NameOf(c).Some?
    ensures var letter := if c == '"' || c == '\\' then c else NameOf(c).value;
            Unescape([letter] + rest, '"') == Some((c, 1))
  {
  }

  lemma UnescapeHex(kind: char, n: nat, k: nat, rest: string)
    requires (kind == 'x' && k == 2 && n < 0x80) || (kind == 'u' && k == 4 && n < 0x10000)
             || (kind == 'U' && k == 8 && n < 0x110000)
    requires ToChar(n).Some?
    ensures Unescape([kind] + Hex(n, k) + rest, '"') == Some((n as char, k + 1))
  {
    Powers();
    HexEscape(n, k, if kind == 'x' then 0x80 else 0x110000, rest);
    var s := [kind] + Hex(n, k) + rest;
    assert Named(kind).None?;
    hide FromHex, Hex, Pow16, HexValue, ToChar, Named;
    assert s[0] == kind && s[1..] == Hex(n, k) + rest;
  }

  lemma {:induction false} UnquoteEscaped(shown: Printable, s: string)
    requires !shown('\n')
    ensures UnquoteBody(EscapeAll(shown, s) + ['"'], '"') == Some(s)
  {
    if s != [] {
      UnquoteEscaped(shown, s[1..]);
      EscapeFront(shown, s);
      UnquoteStep(shown, s[0], EscapeAll(shown, s[1..]) + ['"']);
      assert [s[0]] + s[1..] == s;
      hide Escape, EscapeAll, UnquoteBody;
    }
  }

  lemma EscapeFront(shown: Printable, s: string)
    requires s != []
    ensures EscapeAll(shown, s) + ['"'] == Escape(shown, s[0]) + (EscapeAll(shown, s[1..]) + ['"'])
  {
    hide Escape;
  }

  /** Reading one escaped character and the rest. */
  lemma UnquoteStep(shown: Printable, c: char, rest: string)
    requires !shown('\n')
    ensures UnquoteBody(Escape(shown, c) + rest, '"') == Prepend(c, UnquoteBody(rest, '"'))
  {
    var e := Escape(shown, c);
    if !Bare(shown, c) { UnescapeEscape(shown, c, rest); }
    assert (e + rest)[|e|..] == rest;
    hide Escape, Unescape;
  }

  /** Every string comes back from its quoted form. */
  lemma UnquoteQuote(shown: Printable, s: string)
    requires !shown('\n')
    ensures Unquote(Quote(shown, s)) == Some(s)
  {
    UnquoteEscaped(shown, s);
    assert Quote(shown, s)[1..] == EscapeAll(shown, s) + ['"'];
    hide EscapeAll, UnquoteBody;
  }

  lemma {:induction false} HexIsPlain(n: nat, k: nat, c: char)
    requires c in "\n,"
    ensures c !in Hex(n, k)
  {
    if k > 0 { HexIsPlain(n / 16, k - 1, c); }
  }

  /** Escaping adds neither line ends nor commas. */
  lemma {:induction false} EscapeAddsNone(shown: Printable, s: string, c: char)
    requires (c == '\n' && !shown('\n')) || (c == ',' && ',' !in s)
    ensures c !in EscapeAll(shown, s)
  {
    if s != [] {
      EscapeAddsNone(shown, s[1..], c);
      HexIsPlain(s[0] as nat, 2, c);
      HexIsPlain(s[0] as nat, 4, c);
      HexIsPlain(s[0] as nat, 8, c);
      hide Hex, EscapeAll;
      assert c !in Escape(shown, s[0]);
    }
  }

  /** Escaping leaves a string alone exactly when every character may stand bare. */
  lemma {:induction false} EscapeIsIdentityIff(shown: Printable, s: string)
    ensures |EscapeAll(shown, s)| >= |s|
    ensures EscapeAll(shown, s) == s <==> forall i :: 0 <= i < |s| ==> Bare(shown, s[i])
  {
    if s != [] {
      EscapeIsIdentityIff(shown, s[1..]);
      var e := Escape(shown, s[0]);
      hide Escape, Bare;
      assert s == [s[0]] + s[1..];
      if |e| == 1 {
        assert EscapeAll(shown, s)[1..] == EscapeAll(shown, s[1..]);
      } else {
        assert |EscapeAll(shown, s)| > |s|;
      }
    }
  }

  // ----- what else is read ---------------------------------------------------

  /** The escapes with a letter of their own. */
  lemma NamedEscapes(shown: Printable, i: nat)
    requires i < 7
    ensures var c := ['\U{7}', '\U{8}', '\U{c}', '\n', '\r', '\t', '\U{b}'][i];
            !shown(c) ==> Escape(shown, c) == ['\\', "abfnrtv"[i]]
  {
  }

  /** Three octal digits, up to 177, stand for a character. */
  lemma OctalEscape(a: nat, b: nat, c: nat, rest: string, quote: char)
    requires a < 2 && b < 8 && c < 8 && quote in "\"'"
    ensures Unescape(["01"[a], "01234567"[b], "01234567"[c]] + rest, quote) == Some(((64 * a + 8 * b + c) as char, 3))
  {
    var s := ["01"[a], "01234567"[b], "01234567"[c]] + rest;
    assert s[0] == "01"[a] && s[1] == "01234567"[b] && s[2] == "01234567"[c];
    assert (s[0] - '0') as nat == a && (s[1] - '0') as nat == b && (s[2] - '0') as nat == c;
  }

  /** Between backquotes text is taken as it stands but for carriage returns. */
  lemma RawText(a: string, b: string)
    requires '`' !in a && '`' !in b && '\r' !in a && '\r' !in b
    ensures Unquote(['`'] + a + ['`']) == Some(a)
    ensures Unquote(['`'] + (a + (['\r'] + b)) + ['`']) == Some(a + b)
  {
    RawIs(a);
    RawIs(a + (['\r'] + b));
    hide Unquote;
    KeepsOthers(a, []);
    KeepsOthers(a, ['\r'] + b);
    KeepsOthers(b, []);
    assert a + [] == a && b + [] == b && (['\r'] + b)[1..] == b;
    assert WithoutCR(['\r'] + b) == [] + WithoutCR(b);
    assert [] + WithoutCR(b) == b;
  }

  lemma RawIs(body: string)
    requires '`' !in body
    ensures Unquote(['`'] + body + ['`']) == Some(WithoutCR(body))
  {
    var v := ['`'] + body + ['`'];
    assert v[1..|v| - 1] == body;
    hide WithoutCR;
  }

  lemma {:induction false} KeepsOthers(a: string, rest: string)
    requires '\r' !in a
    ensures WithoutCR(a + rest) == a + WithoutCR(rest)
  {
    if a == [] {
      assert a + rest == rest;
    } else {
      KeepsOthers(a[1..], rest);
      assert (a + rest)[1..] == a[1..] + rest;
    }
  }

  /** One character may stand between single quotes, two may not. */
  lemma SingleQuoted(c: char, d: char)
    requires c !in "'\\\n" && d !in "'\\\n"
    ensures Unquote(['\''] + ([c] + ['\''])) == Some([c]) && Unquote(['\''] + ([c] + ([d] + ['\'']))) == None
  {
    BodyPlain(c, ['\'']);
    BodyPlain(d, ['\'']);
    BodyPlain(c, [d] + ['\'']);
    assert UnquoteBody(['\''], '\'') == Some([]);
    hide UnquoteBody;
    var none: string := [];
    assert [c] + none == [c] && [d] + none == [d];
    assert (['\''] + ([c] + ['\'']))[1..] == [c] + ['\''];
    assert (['\''] + ([c] + ([d] + ['\''])))[1..] == [c] + ([d] + ['\'']);
  }

  lemma BodyPlain(c: char, rest: string)
    requires c !in "'\\\n"
    ensures UnquoteBody([c] + rest, '\'') == Prepend(c, UnquoteBody(rest, '\''))
  {
    assert ([c] + rest)[1..] == rest;
    hide Unescape;
  }

  /** Text that does not begin with a quote is not quoted, ... */
  lemma NotQuoted(s: string)
    ensures |s| < 2 || s[0] !in "\"'`" ==> Unquote(s).None?
  {
    hide UnquoteBody, WithoutCR;
  }

  /** ... nor is text that is cut short, goes on after its closing quote or holds a line end. */
  lemma BadlyQuoted(shown: Printable, s: string, more: string)
    requires !shown('\n')
    ensures more != [] ==> Unquote(Quote(shown, s) + more).None?
    ensures Unquote(['"'] + EscapeAll(shown, s)).None?
    ensures Unquote(['"'] + EscapeAll(shown, s) + ['\n'] + more).None?
  {
    Unclosed(more);
    hide UnquoteBody, EscapeAll, Unquote;
    BodyEnds(shown, s, []);
    BodyEnds(shown, s, ['\n'] + more);
    BodyEnds(shown, s, ['"'] + more);
    var text := EscapeAll(shown, s);
    assert text + [] == text && ['"'] + text + ['\n'] + more == ['"'] + (text + (['\n'] + more));
    NoneInside(['"'] + text, text);
    NoneInside(['"'] + text + ['\n'] + more, text + (['\n'] + more));
    assert Quote(shown, s) + more == ['"'] + (text + (['"'] + more));
    if more != [] { NoneInside(Quote(shown, s) + more, text + (['"'] + more)); }
  }

  lemma NoneInside(v: string, body: string)
    requires v == ['"'] + body && UnquoteBody(body, '"').None?
    ensures Unquote(v).None?
  {
    hide UnquoteBody;
    assert v[1..] == body;
  }

  lemma Unclosed(more: string)
    ensures UnquoteBody([], '"').None? && UnquoteBody(['\n'] + more, '"').None?
    ensures more != [] ==> UnquoteBody(['"'] + more, '"').None?
  {
    hide Unescape;
  }

  /** What follows the escaped text decides. */
  lemma {:induction false} BodyEnds(shown: Printable, s: string, rest: string)
    requires !shown('\n')
    ensures UnquoteBody(rest, '"').None? ==> UnquoteBody(EscapeAll(shown, s) + rest, '"').None?
  {
    hide UnquoteBody, Escape;
    if s == [] {
      assert [] + rest == rest;
    } else {
      BodyEnds(shown, s[1..], rest);
      UnquoteStep(shown, s[0], EscapeAll(shown, s[1..]) + rest);
      assert Escape(shown, s[0]) + EscapeAll(shown, s[1..]) + rest
          == Escape(shown, s[0]) + (EscapeAll(shown, s[1..]) + rest);
    }
  }
}
