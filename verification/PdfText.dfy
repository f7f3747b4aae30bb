/**
 Texts and numbers inside a PDF file: literal strings (section 7.3.4.2 of ISO 32000-1) and
 decimal numbers, each with the writer's function and a reader's. Bytes are characters below 256.
 */
module PdfText {
  import opened Prelude

  // ----- Literal strings -----

  /** `s.replace(c, w)` for a single character. */
  function Replace(s: string, c: char, w: string): string {
    if s == "" then ""
    else (if s[0] == c then w else [s[0]]) + Replace(s[1..], c, w)
  }

  function PdfEscape(text: string): string {
    Replace(Replace(Replace(text, '\\', "\\\\"), '(', "\\("), ')', "\\)")
  }

  predicate Special(c: char) {
    c == '\\' || c == '(' || c == ')'
  }

  function EscapeChar(c: char): string {
    if Special(c) then ['\\', c] else [c]
  }

  /** The same in one pass. */
  function Escape(text: string): string {
    if text == "" then "" else EscapeChar(text[0]) + Escape(text[1..])
  }

  lemma {:induction false} ReplaceAppend(s: string, t: string, c: char, w: string)
    ensures Replace(s + t, c, w) == Replace(s, c, w) + Replace(t, c, w)
  {
    if s == "" {
      assert s + t == t;
    } else {
      assert (s + t)[1..] == s[1..] + t;
      ReplaceAppend(s[1..], t, c, w);
      var head := if s[0] == c then w else [s[0]];
      assert head + (Replace(s[1..], c, w) + Replace(t, c, w)) == (head + Replace(s[1..], c, w)) + Replace(t, c, w);
    }
  }

  lemma ReplaceOne(x: char, c: char, w: string)
    ensures Replace([x], c, w) == if x == c then w else [x]
  {
    assert [x][1..] == "";
    var head := if x == c then w else [x];
    assert head + "" == head;
  }

  lemma ReplaceTwo(x: char, y: char, c: char, w: string)
    requires x != c && y != c
    ensures Replace([x, y], c, w) == [x, y]
  {
    assert [x, y][1..] == [y];
    ReplaceOne(y, c, w);
  }

  lemma EscapeOneChar(x: char)
    ensures PdfEscape([x]) == EscapeChar(x)
  {
    ReplaceOne(x, '\\', "\\\\");
    if x == '\\' {
      ReplaceTwo('\\', '\\', '(', "\\(");
      ReplaceTwo('\\', '\\', ')', "\\)");
    } else {
      ReplaceOne(x, '(', "\\(");
      if x == '(' {
        ReplaceTwo('\\', '(', ')', "\\)");
      } else {
        ReplaceOne(x, ')', "\\)");
      }
    }
  }

  lemma PdfEscapeAppend(s: string, t: string)
    ensures PdfEscape(s + t) == PdfEscape(s) + PdfEscape(t)
  {
    hide Replace;
    ReplaceAppend(s, t, '\\', "\\\\");
    var s1, t1 := Replace(s, '\\', "\\\\"), Replace(t, '\\', "\\\\");
    ReplaceAppend(s1, t1, '(', "\\(");
    ReplaceAppend(Replace(s1, '(', "\\("), Replace(t1, '(', "\\("), ')', "\\)");
  }

  /** The three replacements in sequence are one pass over the text: no replacement touches another's output. */
  lemma {:induction false} EscapeIsOnePass(text: string)
    ensures PdfEscape(text) == Escape(text)
  {
    if text != "" {
      hide PdfEscape, EscapeChar;
      assert [text[0]] + text[1..] == text;
      PdfEscapeAppend([text[0]], text[1..]);
      EscapeOneChar(text[0]);
      EscapeIsOnePass(text[1..]);
    }
  }

  /** A text read from a file, and what follows it. */
  datatype Reading = Reading(text: string, rest: string)

  predicate Octal(c: char) {
    '0' <= c <= '7'
  }

  /** The value of the octal digits at the start of `b`, at most `limit` of them, and their number. */
  function OctalCode(b: string, limit: nat, code: nat): (nat, nat) {
    if limit == 0 || b == "" || !Octal(b[0]) then (code, 0)
    else
      var (value, n) := OctalCode(b[1..], limit - 1, code * 8 + (b[0] as int - '0' as int));
      (value, n + 1)
  }

  function Prepend(c: char, r: Option<Reading>): Option<Reading> {
    match r case None => None case Some(Reading(text, rest)) => Some(Reading([c] + text, rest))
  }

  function DropNewline(b: string): string {
    if b != "" && b[0] == '\n' then b[1..] else b
  }

  /** What a reader makes of the bytes after an opening parenthesis, with `depth` further ones open. */
  function ReadLiteral(b: string, depth: nat): (r: Option<Reading>)
    ensures r.Some? ==> |r.value.rest| < |b|
    decreases |b|
  {
    if b == "" then None
    else if b[0] == ')' then
      if depth == 0 then Some(Reading("", b[1..])) else Prepend(')', ReadLiteral(b[1..], depth - 1))
    else if b[0] == '(' then Prepend('(', ReadLiteral(b[1..], depth + 1))
    else if b[0] == '\r' then Prepend('\n', ReadLiteral(DropNewline(b[1..]), depth))
    else if b[0] != '\\' then Prepend(b[0], ReadLiteral(b[1..], depth))
    else if |b| == 1 then None
    else if Octal(b[1]) then
      var (code, n) := OctalCode(b[1..], 3, 0);
      if 1 + n <= |b| && n > 0 then Prepend((code % 256) as char, ReadLiteral(b[1 + n..], depth)) else None
    else
      match b[1]
      case 'n' => Prepend('\n', ReadLiteral(b[2..], depth))
      case 'r' => Prepend('\r', ReadLiteral(b[2..], depth))
      case 't' => Prepend('\t', ReadLiteral(b[2..], depth))
      case 'b' => Prepend('\U{0008}', ReadLiteral(b[2..], depth))
      case 'f' => Prepend('\U{000C}', ReadLiteral(b[2..], depth))
      case '\n' => ReadLiteral(b[2..], depth)
      case '\r' => ReadLiteral(DropNewline(b[2..]), depth)
      case c => Prepend(c, ReadLiteral(b[2..], depth))
  }

  /** A reader takes every end-of-line marker in a literal string as one line feed. */
  function NormalizeEol(text: string): string
    decreases |text|
  {
    if text == "" then ""
    else if text[0] == '\r' then "\n" + NormalizeEol(DropNewline(text[1..]))
    else [text[0]] + NormalizeEol(text[1..])
  }

  lemma EscapeDropNewline(text: string, rest: string)
    ensures DropNewline(Escape(text) + ")" + rest) == Escape(DropNewline(text)) + ")" + rest
  {
    if text != "" {
      var b := Escape(text) + ")" + rest;
      assert b[0] == EscapeChar(text[0])[0];
      if text[0] == '\n' {
        assert b[1..] == Escape(text[1..]) + ")" + rest;
      }
    } else {
      assert Escape(text) + ")" + rest == ")" + rest;
    }
  }

  /** One escaped character is read as itself, a carriage return as the end of a line. */
  lemma EscapedCharReadsBack(c: char, tail: string)
    ensures ReadLiteral(EscapeChar(c) + tail, 0)
         == if c == '\r' then Prepend('\n', ReadLiteral(DropNewline(tail), 0)) else Prepend(c, ReadLiteral(tail, 0))
  {
    var b := EscapeChar(c) + tail;
    if Special(c) {
      assert b[0] == '\\' && b[1] == c && b[2..] == tail;
    } else {
      assert b[0] == c && b[1..] == tail;
    }
  }

  /** Reading back an escaped text gives the text with its line ends normalised, and stops at the closing parenthesis. */
  lemma {:induction false} EscapedTextReadsBack(text: string, rest: string)
    ensures ReadLiteral(Escape(text) + ")" + rest, 0) == Some(Reading(NormalizeEol(text), rest))
    decreases |text|
  {
    var b := Escape(text) + ")" + rest;
    if text == "" {
      assert b == ")" + rest;
      assert b[1..] == rest;
    } else {
      hide ReadLiteral, EscapeChar;
      var c, tail := text[0], text[1..];
      assert b == EscapeChar(c) + (Escape(tail) + ")" + rest);
      EscapedCharReadsBack(c, Escape(tail) + ")" + rest);
      if c == '\r' {
        EscapeDropNewline(tail, rest);
        EscapedTextReadsBack(DropNewline(tail), rest);
      } else {
        EscapedTextReadsBack(tail, rest);
      }
    }
  }

  /** Only a carriage return is not read back as it was. */
  lemma {:induction false} NormalizedExactly(text: string)
    ensures NormalizeEol(text) == text <==> '\r' !in text
    ensures |NormalizeEol(text)| <= |text|
    decreases |text|
  {
    if text != "" {
      if text[0] == '\r' {
        NormalizedExactly(DropNewline(text[1..]));
        assert NormalizeEol(text)[0] == '\n';
      } else {
        NormalizedExactly(text[1..]);
        assert text == [text[0]] + text[1..];
        assert NormalizeEol(text)[1..] == NormalizeEol(text[1..]);
      }
    }
  }

  // ----- Numbers -----

  function Digit(d: nat): char
    requires d < 10
  {
    ('0' as int + d) as char
  }

  predicate IsDigit(c: char) {
    '0' <= c <= '9'
  }

  /** `%d`. */
  function Dec(n: nat): (s: string)
    ensures |s| > 0
    ensures forall i :: 0 <= i < |s| ==> IsDigit(s[i])
  {
    if n < 10 then [Digit(n)] else Dec(n / 10) + [Digit(n % 10)]
  }

  function Zeros(n: nat): (s: string)
    ensures |s| == n
    ensures forall i :: 0 <= i < n ==> s[i] == '0'
  {
    if n == 0 then "" else "0" + Zeros(n - 1)
  }

  /** `%010d`. */
  function Pad10(n: nat): (s: string)
    ensures |s| >= 10
    ensures forall i :: 0 <= i < |s| ==> IsDigit(s[i])
  {
    var d := Dec(n);
    if |d| >= 10 then d else Zeros(10 - |d|) + d
  }

  datatype NatReading = NatReading(value: nat, rest: string)

  function ReadDigits(b: string, value: nat): NatReading {
    if b != "" && IsDigit(b[0]) then ReadDigits(b[1..], value * 10 + (b[0] as int - '0' as int))
    else NatReading(value, b)
  }

  lemma ReadOneDigit(d: nat, rest: string, value: nat)
    requires d < 10
    ensures ReadDigits([Digit(d)] + rest, value) == ReadDigits(rest, value * 10 + d)
  {
    assert ([Digit(d)] + rest)[1..] == rest;
  }

  lemma {:induction false} ReadDec(n: nat, rest: string)
    ensures ReadDigits(Dec(n) + rest, 0) == ReadDigits(rest, n)
  {
    if n < 10 {
      hide ReadDigits, Digit;
      ReadOneDigit(n, rest, 0);
    } else {
      hide ReadDigits, Digit;
      var tail := [Digit(n % 10)] + rest;
      assert Dec(n) + rest == Dec(n / 10) + tail;
      hide Dec;
      ReadDec(n / 10, tail);
      ReadOneDigit(n % 10, rest, n / 10);
    }
  }

  lemma {:induction false} ReadZeros(k: nat, b: string)
    ensures ReadDigits(Zeros(k) + b, 0) == ReadDigits(b, 0)
  {
    if k == 0 {
      assert Zeros(k) + b == b;
    } else {
      assert (Zeros(k) + b)[1..] == Zeros(k - 1) + b;
      ReadZeros(k - 1, b);
    }
  }

  /** Printed numbers, padded or not, read back up to the first byte that is no digit. */
  lemma NumbersReadBack(n: nat, rest: string)
    requires rest == "" || !IsDigit(rest[0])
    ensures ReadDigits(Dec(n) + rest, 0) == NatReading(n, rest)
    ensures ReadDigits(Pad10(n) + rest, 0) == NatReading(n, rest)
  {
    ReadDec(n, rest);
    var d := Dec(n);
    if |d| < 10 {
      ReadZeros(10 - |d|, d + rest);
      assert Zeros(10 - |d|) + d + rest == Zeros(10 - |d|) + (d + rest);
    }
  }

  function Power10(k: nat): nat {
    if k == 0 then 1 else 10 * Power10(k - 1)
  }

  lemma {:induction false} DecLength(n: nat, k: nat)
    requires k >= 1
    ensures |Dec(n)| <= k <==> n < Power10(k)
  {
    if k == 1 {
      assert Power10(1) == 10 * Power10(0);
    } else if n >= 10 {
      DecLength(n / 10, k - 1);
      assert n / 10 < Power10(k - 1) <==> n < 10 * Power10(k - 1);
    } else {
      PowerLarge(k);
    }
  }

  lemma {:induction false} PowerLarge(k: nat)
    requires k >= 1
    ensures Power10(k) >= 10
  {
    if k > 1 {
      PowerLarge(k - 1);
    } else {
      assert Power10(1) == 10 * Power10(0);
    }
  }

  /** A padded number is exactly ten bytes as long as it is below 10^10. */
  lemma PaddedExactly(n: nat)
    ensures |Pad10(n)| == 10 <==> n < Power10(10)
  {
    DecLength(n, 10);
  }
}
