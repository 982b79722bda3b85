/** `JSON.stringify` and `JSON.parse` for the one shape the love chest stores:
    an array of strings. Stringify follows QuoteJSONString (section 25.5.2.3
    of ECMA-262); the parser reads the compact text stringify produces, with
    every escape sequence JSON allows inside a string. */
module Json {
  import opened Wrappers
  import Js

  /** The lower-case hexadecimal digit for `d`. */
  function HexDigit(d: nat): (c: char)
    requires d < 16
    ensures Js.DigitValue(c) == d
  {
    "0123456789abcdef"[d]
  }

  /** How stringify writes one character inside a string literal. */
  function EscapeChar(c: char): string {
    var k := c as int;
    if c == '"' then "\\\""
    else if c == '\\' then "\\\\"
    else if k == 0x08 then "\\b"
    else if k == 0x09 then "\\t"
    else if k == 0x0A then "\\n"
    else if k == 0x0C then "\\f"
    else if k == 0x0D then "\\r"
    else if k < 0x20 then "\\u00" + [HexDigit(k / 16), HexDigit(k % 16)]
    else [c]
  }

  function EscapeString(s: string): string {
    if |s| == 0 then "" else EscapeChar(s[0]) + EscapeString(s[1..])
  }

  /** A string literal: the escaped text between double quotes. */
  function Quote(s: string): string {
    "\"" + EscapeString(s) + "\""
  }

  /** The comma-separated string literals of an array's elements. */
  function Elements(xs: seq<string>): string {
    if |xs| == 0 then ""
    else if |xs| == 1 then Quote(xs[0])
    else Quote(xs[0]) + "," + Elements(xs[1..])
  }

  /** `JSON.stringify(xs)` for an array of strings. */
  function Stringify(xs: seq<string>): string {
    "[" + Elements(xs) + "]"
  }

  /** The character a one-letter escape `\e` stands for, if `e` is one. */
  function SimpleEscape(e: char): Option<char> {
    if e == '"' then Some('"')
    else if e == '\\' then Some('\\')
    else if e == '/' then Some('/')
    else if e == 'b' then Some(8 as char)
    else if e == 'f' then Some(12 as char)
    else if e == 'n' then Some(10 as char)
    else if e == 'r' then Some(13 as char)
    else if e == 't' then Some(9 as char)
    else None
  }

  predicate IsHex(c: char) {
    Js.DigitValue(c) < 16
  }

  /** The code point of four hexadecimal digits. */
  function Hex4(h: string): nat
    requires |h| == 4
  {
    ((Js.DigitValue(h[0]) * 16 + Js.DigitValue(h[1])) * 16 + Js.DigitValue(h[2])) * 16 + Js.DigitValue(h[3])
  }

  /** Prepends a character to the text of a parsed literal. */
  function Cons(c: char, r: Option<(string, string)>): Option<(string, string)> {
    match r
    case None => None
    case Some((s, rest)) => Some(([c] + s, rest))
  }

  /** Reads a string literal whose opening quote has been consumed: its text
      and what follows the closing quote, or None when the text is not a
      literal (an unknown escape, a raw control character, no closing quote,
      or a `\u` escape naming a lone surrogate, which a Dafny string cannot hold). */
  function ParseStringBody(t: string): (r: Option<(string, string)>)
    ensures r.Some? ==> |r.value.1| < |t|
    decreases |t|
  {
    if |t| == 0 then None
    else if t[0] == '"' then Some(("", t[1..]))
    else if t[0] == '\\' then
      if |t| >= 2 && SimpleEscape(t[1]).Some? then
        Cons(SimpleEscape(t[1]).value, ParseStringBody(t[2..]))
      else if |t| >= 6 && t[1] == 'u' && IsHex(t[2]) && IsHex(t[3]) && IsHex(t[4]) && IsHex(t[5]) then
        var k := Hex4(t[2..6]);
        if 0xD800 <= k < 0xE000 then None else Cons(k as char, ParseStringBody(t[6..]))
      else None
    else if (t[0] as int) < 0x20 then None
    else Cons(t[0], ParseStringBody(t[1..]))
  }

  /** Reads `"…","…",…]` up to the end of the text. */
  function ParseElements(t: string): Option<seq<string>>
    decreases |t|
  {
    if |t| == 0 || t[0] != '"' then None
    else
      match ParseStringBody(t[1..])
      case None => None
      case Some((s, rest)) =>
        if rest == "]" then Some([s])
        else if |rest| > 0 && rest[0] == ',' then
          match ParseElements(rest[1..])
          case None => None
          case Some(more) => Some([s] + more)
        else None
  }

  /** `JSON.parse(text)` when the text is an array of strings; None for any other text. */
  function Parse(text: string): Option<seq<string>> {
    if text == "[]" then Some([])
    else if |text| > 0 && text[0] == '[' then ParseElements(text[1..])
    else None
  }

  /** A character stringify writes unescaped reads back as itself. */
  lemma ParsePlainChar(c: char, u: string)
    requires c != '"' && c != '\\' && c as int >= 0x20
    ensures ParseStringBody([c] + u) == Cons(c, ParseStringBody(u))
  {
    assert ([c] + u)[1..] == u;
  }

  /** A one-letter escape reads back as the character it stands for. */
  lemma ParseSimpleEscape(c: char, u: string)
    requires |EscapeChar(c)| == 2 && EscapeChar(c)[0] == '\\'
    requires SimpleEscape(EscapeChar(c)[1]) == Some(c)
    ensures ParseStringBody(EscapeChar(c) + u) == Cons(c, ParseStringBody(u))
  {
    var t := EscapeChar(c) + u;
    assert t[0] == '\\' && t[1] == EscapeChar(c)[1];
    assert t[2..] == u;
  }

  /** A `\u00XX` escape of a control character reads back as that character. */
  lemma ParseUnicodeEscape(c: char, u: string)
    requires c as int < 0x20
    requires EscapeChar(c) == "\\u00" + [HexDigit(c as int / 16), HexDigit(c as int % 16)]
    ensures ParseStringBody(EscapeChar(c) + u) == Cons(c, ParseStringBody(u))
  {
    var k := c as int;
    var t := EscapeChar(c) + u;
    assert t[0] == '\\' && t[1] == 'u';
    assert SimpleEscape(t[1]).None?;
    assert t[2..6] == ['0', '0', HexDigit(k / 16), HexDigit(k % 16)];
    assert Hex4(t[2..6]) == k;
    assert t[6..] == u;
  }

  /** Each escaped character reads back as itself, whatever follows it. */
  lemma ParseEscapeChar(c: char, u: string)
    ensures ParseStringBody(EscapeChar(c) + u) == Cons(c, ParseStringBody(u))
  {
    var k := c as int;
    if c == '"' || c == '\\' || k == 0x08 || k == 0x09 || k == 0x0A || k == 0x0C || k == 0x0D {
      ParseSimpleEscape(c, u);
    } else if k < 0x20 {
      ParseUnicodeEscape(c, u);
    } else {
      ParsePlainChar(c, u);
    }
  }

  /** An escaped string followed by a closing quote reads back as the string. */
  lemma {:induction false} ParseEscapeString(s: string, rest: string)
    ensures ParseStringBody(EscapeString(s) + "\"" + rest) == Some((s, rest))
    decreases |s|
  {
    if |s| == 0 {
      assert EscapeString(s) + "\"" + rest == "\"" + rest;
    } else {
      var u := EscapeString(s[1..]) + "\"" + rest;
      assert EscapeString(s) + "\"" + rest == EscapeChar(s[0]) + u;
      ParseEscapeChar(s[0], u);
      ParseEscapeString(s[1..], rest);
      assert [s[0]] + s[1..] == s;
    }
  }

  /** The element list of a non-empty array, closed by `]`, reads back as the array. */
  lemma {:induction false} ParseElementsOfStringify(xs: seq<string>)
    requires |xs| > 0
    ensures ParseElements(Elements(xs) + "]") == Some(xs)
    decreases |xs|
  {
    if |xs| == 1 {
      ParseElementsSingle(xs[0]);
      assert [xs[0]] == xs;
    } else {
      ParseElementsOfStringify(xs[1..]);
      ParseElementsCons(xs[0], xs[1..]);
      assert [xs[0]] + xs[1..] == xs;
    }
  }

  lemma ParseElementsSingle(x: string)
    ensures ParseElements(Elements([x]) + "]") == Some([x])
  {
    var t := Elements([x]) + "]";
    assert t == Quote(x) + "]";
    ParseQuoted(x, "]");
    ParseElementsStep(t, x, "]");
  }

  lemma Associate(a: string, b: string, c: string, d: string)
    ensures a + b + c + d == a + (b + (c + d))
  {
  }

  lemma ParseElementsCons(x: string, ys: seq<string>)
    requires |ys| > 0 && ParseElements(Elements(ys) + "]") == Some(ys)
    ensures ParseElements(Elements([x] + ys) + "]") == Some([x] + ys)
  {
    var xs := [x] + ys;
    assert xs[0] == x && xs[1..] == ys;
    var t := Elements(xs) + "]";
    var rest := Elements(ys) + "]";
    var tail := "," + rest;
    assert Elements(xs) == Quote(x) + "," + Elements(ys);
    Associate(Quote(x), ",", Elements(ys), "]");
    ParseQuoted(x, tail);
    ParseElementsStep(t, x, tail);
    assert tail[1..] == rest;
  }

  /** One step of the element reader, after the first literal has been read. */
  lemma ParseElementsStep(t: string, x: string, tail: string)
    requires |t| > 0 && t[0] == '"' && ParseStringBody(t[1..]) == Some((x, tail))
    ensures tail == "]" ==> ParseElements(t) == Some([x])
    ensures tail != "]" && |tail| > 0 && tail[0] == ',' && ParseElements(tail[1..]).Some?
            ==> ParseElements(t) == Some([x] + ParseElements(tail[1..]).value)
  {
  }

  /** A string literal followed by more text: its body reads back as the string. */
  lemma ParseQuoted(x: string, tail: string)
    ensures var t := Quote(x) + tail;
            t[0] == '"' && ParseStringBody(t[1..]) == Some((x, tail))
  {
    var t := Quote(x) + tail;
    assert t[1..] == EscapeString(x) + "\"" + tail;
    ParseEscapeString(x, tail);
  }

  /** Parsing what stringify wrote gives the array back. */
  lemma {:induction false} ParseStringify(xs: seq<string>)
    ensures Parse(Stringify(xs)) == Some(xs)
  {
    if |xs| == 0 {
      assert Stringify(xs) == "[]";
    } else {
      var text := Stringify(xs);
      assert text[0] == '[' && text[1..] == Elements(xs) + "]";
      ParseElementsOfStringify(xs);
    }
  }
}
