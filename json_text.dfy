/** JSON string literals: the quoting `JSON.stringify` applies to a string value,
    and the reading of a string literal back as section 7 of RFC 8259 defines it. */
module JsonText {
  import opened Wrappers

  function HexDigit(n: int): (c: char)
    requires 0 <= n < 16
    ensures IsHexDigit(c) && HexValue(c) == n
    ensures '0' <= c <= '9' || 'a' <= c <= 'f'
  {
    if n < 10 then ('0' as int + n) as char else ('a' as int + n - 10) as char
  }

  predicate IsHexDigit(c: char) {
    '0' <= c <= '9' || 'a' <= c <= 'f' || 'A' <= c <= 'F'
  }

  function HexValue(c: char): (n: int)
    requires IsHexDigit(c)
    ensures 0 <= n < 16
  {
    if c <= '9' then c as int - '0' as int
    else if 'a' <= c then c as int - 'a' as int + 10
    else c as int - 'A' as int + 10
  }

  /** A character `JSON.stringify` writes as itself inside a string literal. */
  predicate NeedsNoEscape(c: char) {
    c as int >= 0x20 && c != '"' && c != '\\'
  }

  /** How `JSON.stringify` writes one character inside a string literal: the two
      characters with a meaning in JSON and the control characters are escaped,
      control characters without a short form as lower-case `\u00xx`; every
      other character stands for itself. */
  function EscapeChar(c: char): (r: string)
    ensures r == [c] <==> NeedsNoEscape(c)
    ensures !NeedsNoEscape(c) ==> |r| >= 2 && r[0] == '\\'
  {
    if c == '"' then "\\\""
    else if c == '\\' then "\\\\"
    else if c == 8 as char then "\\b"
    else if c == '\t' then "\\t"
    else if c == '\n' then "\\n"
    else if c == 12 as char then "\\f"
    else if c == '\r' then "\\r"
    else if (c as int) < 0x20 then "\\u00" + [HexDigit(c as int / 16), HexDigit(c as int % 16)]
    else [c]
  }

  /** The escaped characters of a string: never shorter than the string, and the
      string itself when no character needs an escape. */
  function Escape(s: string): (r: string)
    ensures |r| >= |s|
    ensures (forall i :: 0 <= i < |s| ==> NeedsNoEscape(s[i])) ==> r == s
  {
    if s == [] then []
    else
      assert forall i :: 0 <= i < |s| - 1 ==> s[1..][i] == s[i + 1];
      EscapeChar(s[0]) + Escape(s[1..])
  }

  /** `JSON.stringify(s)` for a string `s`: the escaped text between double quotes. */
  function Quote(s: string): (r: string)
    ensures |r| >= |s| + 2 && r[0] == '"' && r[|r| - 1] == '"'
    ensures (forall i :: 0 <= i < |s| ==> NeedsNoEscape(s[i])) ==> r == "\"" + s + "\""
  {
    "\"" + Escape(s) + "\""
  }

  // ---------------------------------------------------------------------------
  // Reading a string literal (RFC 8259, section 7)

  /** A decoded string value and the text that follows its closing quote. */
  datatype Decoded = Decoded(value: string, rest: string)

  /** The character a one-character escape `\x` stands for, for the eight `x`
      that have one. */
  function ShortEscape(x: char): (r: Option<char>)
    ensures r.Some? <==> x in "\"\\/bfnrt"
    ensures r.Some? ==> (r.value as int) < 0x80
  {
    if x == '"' then Some('"')
    else if x == '\\' then Some('\\')
    else if x == '/' then Some('/')
    else if x == 'b' then Some(8 as char)
    else if x == 'f' then Some(12 as char)
    else if x == 'n' then Some('\n')
    else if x == 'r' then Some('\r')
    else if x == 't' then Some('\t')
    else None
  }

  /** The character an escape sequence stands for and the length of the sequence
      after the backslash. A `\u` escape of a UTF-16 surrogate is refused. */
  function Unescape(s: string): (r: Option<(char, nat)>)
    ensures r.Some? ==> 1 <= r.value.1 <= |s|
    ensures |s| > 0 && s[0] in "\"\\/bfnrt" ==> r.Some? && r.value.1 == 1
    ensures r.Some? && r.value.1 == 1 ==> s[0] in "\"\\/bfnrt"
    ensures r.Some? && r.value.1 != 1 ==> r.value.1 == 5 && s[0] == 'u'
    ensures r.Some? ==> !(0xD800 <= r.value.0 as int < 0xE000)
  {
    if |s| == 0 then None
    else match ShortEscape(s[0])
      case Some(c) => Some((c, 1))
      case None =>
        if s[0] == 'u' && |s| >= 5
           && IsHexDigit(s[1]) && IsHexDigit(s[2]) && IsHexDigit(s[3]) && IsHexDigit(s[4]) then
          var v := HexQuad(s[1], s[2], s[3], s[4]);
          if 0xD800 <= v < 0xE000 then None else Some((v as char, 5))
        else None
  }

  /** The value of four hexadecimal digits, most significant first. */
  function HexQuad(a: char, b: char, c: char, d: char): (v: int)
    requires IsHexDigit(a) && IsHexDigit(b) && IsHexDigit(c) && IsHexDigit(d)
    ensures 0 <= v < 0x10000
  {
    HexValue(a) * 4096 + HexValue(b) * 256 + HexValue(c) * 16 + HexValue(d)
  }

  /** The characters of a string literal after its opening quote, up to and
      including the closing quote. Unescaped control characters are refused. */
  function ParseChars(s: string): (r: Option<Decoded>)
    ensures r.Some? ==> |r.value.value| < |s| - |r.value.rest|
    decreases |s|
  {
    if s == [] then None
    else if s[0] == '"' then Some(Decoded([], s[1..]))
    else if s[0] == '\\' then
      match Unescape(s[1..])
      case None => None
      case Some((c, n)) =>
        match ParseChars(s[1 + n..])
        case None => None
        case Some(d) => Some(Decoded([c] + d.value, d.rest))
    else if (s[0] as int) < 0x20 then None
    else
      match ParseChars(s[1..])
      case None => None
      case Some(d) => Some(Decoded([s[0]] + d.value, d.rest))
  }

  /** A string literal at the start of `s`: its value and what follows it. */
  function ParseString(s: string): (r: Option<Decoded>)
    ensures r.Some? ==> |s| > 0 && s[0] == '"' && |r.value.value| + 2 <= |s| - |r.value.rest|
  {
    if |s| > 0 && s[0] == '"' then ParseChars(s[1..]) else None
  }

  /** `JSON.parse` of a text that is a single string literal. */
  function Unquote(s: string): (r: Option<string>)
    ensures r.Some? ==> |s| >= 2 && s[0] == '"' && s[|s| - 1] == '"' && |r.value| <= |s| - 2
  {
    match ParseString(s)
    case Some(Decoded(v, rest)) =>
      ParseCharsConsumes(s[1..]);
      if rest == [] then Some(v) else None
    case None => None
  }

  // ---------------------------------------------------------------------------
  // Lemmas

  /** What follows a string literal is the untouched end of the text, and the
      literal itself ends with its closing quote. */
  lemma {:induction false} ParseCharsConsumes(s: string)
    requires ParseChars(s).Some?
    ensures var rest := ParseChars(s).value.rest;
      rest == s[|s| - |rest|..] && s[|s| - |rest| - 1] == '"'
    decreases |s|
  {
    if s[0] == '\\' {
      var n := Unescape(s[1..]).value.1;
      ParseCharsConsumes(s[1 + n..]);
    } else if s[0] != '"' {
      ParseCharsConsumes(s[1..]);
    }
  }

  /** Reading one escaped character gives the character back. */
  lemma EscapeCharParses(c: char, t: string, d: Decoded)
    requires ParseChars(t) == Some(d)
    ensures ParseChars(EscapeChar(c) + t) == Some(Decoded([c] + d.value, d.rest))
  {
    if c == '"' || c == '\\' || c == 8 as char || c == '\t' || c == '\n' || c == 12 as char || c == '\r' {
      ShortEscapeParses(c, t, d);
    } else if (c as int) < 0x20 {
      HexEscapeParses(c, t, d);
    } else {
      var s := EscapeChar(c) + t;
      assert s[0] == c && s[1..] == t;
    }
  }

  lemma ShortEscapeParses(c: char, t: string, d: Decoded)
    requires c == '"' || c == '\\' || c == 8 as char || c == '\t' || c == '\n' || c == 12 as char || c == '\r'
    requires ParseChars(t) == Some(d)
    ensures ParseChars(EscapeChar(c) + t) == Some(Decoded([c] + d.value, d.rest))
  {
    var s := EscapeChar(c) + t;
    assert s[0] == '\\' && s[2..] == t;
    assert Unescape(s[1..]) == Some((c, 1));
  }

  lemma HexEscapeParses(c: char, t: string, d: Decoded)
    requires (c as int) < 0x20 && c != 8 as char && c != '\t' && c != '\n' && c != 12 as char && c != '\r'
    requires ParseChars(t) == Some(d)
    ensures ParseChars(EscapeChar(c) + t) == Some(Decoded([c] + d.value, d.rest))
  {
    var s := EscapeChar(c) + t;
    var hi, lo := c as int / 16, c as int % 16;
    assert s[0] == '\\' && s[6..] == t;
    assert s[1..][1] == '0' && s[1..][2] == '0' && s[1..][3] == HexDigit(hi) && s[1..][4] == HexDigit(lo);
    assert Unescape(s[1..]) == Some((c, 5));
  }

  /** The characters written by `Escape`, followed by a closing quote, read back as
      the original string. */
  lemma {:induction false} ParseEscaped(s: string, rest: string)
    ensures ParseChars(Escape(s) + "\"" + rest) == Some(Decoded(s, rest))
  {
    if s == [] {
      assert Escape(s) + "\"" + rest == ['"'] + rest;
    } else {
      var tail := Escape(s[1..]) + "\"" + rest;
      assert Escape(s) + "\"" + rest == EscapeChar(s[0]) + tail;
      ParseEscaped(s[1..], rest);
      EscapeCharParses(s[0], tail, Decoded(s[1..], rest));
      assert [s[0]] + s[1..] == s;
    }
  }

  /** A quoted string followed by any text reads back as the string and that text. */
  lemma ParseQuoted(s: string, rest: string)
    ensures ParseString(Quote(s) + rest) == Some(Decoded(s, rest))
  {
    var t := Quote(s) + rest;
    assert t[0] == '"' && t[1..] == Escape(s) + "\"" + rest;
    ParseEscaped(s, rest);
  }

  /** Unquoting a quoted string recovers it. */
  lemma UnquoteQuote(s: string)
    ensures Unquote(Quote(s)) == Some(s)
  {
    ParseQuoted(s, []);
    assert Quote(s) + [] == Quote(s);
  }

  /** No line break survives quoting, so a quoted value always stays on one line. */
  lemma {:induction false} EscapeHasNoLineBreak(s: string)
    ensures '\n' !in Escape(s)
  {
    if s != [] {
      EscapeHasNoLineBreak(s[1..]);
    }
  }

  lemma QuoteHasNoLineBreak(s: string)
    ensures '\n' !in Quote(s)
  {
    EscapeHasNoLineBreak(s);
  }
}
