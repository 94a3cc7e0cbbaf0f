/**
 jsoncpp's quoted strings: the escaping writer, the scan for the closing quote and the
 decoder of escape sequences.
 */
module JsonString {

  datatype Option<T> = None | Some(value: T)

  // ----- writing

  predicate IsControl(c: char) {
    0 < c as int <= 0x1F
  }

  function HexDigit(d: nat): (c: char)
    requires d < 16
    ensures c != '\\' && c != '"'
  {
    if d < 10 then '0' + d as char else 'A' + (d - 10) as char
  }

  /** Four upper-case hexadecimal digits. */
  function Hex4(n: nat): (s: string)
    requires n < 0x1_0000
    ensures |s| == 4 && forall i :: 0 <= i < 4 ==> s[i] != '\\' && s[i] != '"'
  {
    [HexDigit(n / 16 / 16 / 16), HexDigit(n / 16 / 16 % 16), HexDigit(n / 16 % 16), HexDigit(n % 16)]
  }

  function EscapeChar(c: char): string {
    if c == '"' then "\\\""
    else if c == '\\' then "\\\\"
    else if c as int == 8 then "\\b"
    else if c as int == 12 then "\\f"
    else if c == '\n' then "\\n"
    else if c == '\r' then "\\r"
    else if c == '\t' then "\\t"
    else if IsControl(c) || c as int == 0 then "\\u" + Hex4(c as int)
    else [c]
  }

  function EscapeAll(s: string): string {
    if s == "" then "" else EscapeChar(s[0]) + EscapeAll(s[1..])
  }

  function Quote(s: string): string {
    "\"" + EscapeAll(s) + "\""
  }

  predicate NeedsEscape(c: char) {
    c == '"' || c == '\\' || IsControl(c) || c as int == 0
  }

  lemma {:induction false} EscapeAllSnoc(s: string, c: char)
    ensures EscapeAll(s + [c]) == EscapeAll(s) + EscapeChar(c)
  {
    if s == "" {
      assert s + [c] == [c];
      assert EscapeAll([c]) == EscapeChar(c) + EscapeAll("");
    } else {
      assert (s + [c])[1..] == s[1..] + [c];
      EscapeAllSnoc(s[1..], c);
    }
  }

  lemma PlainChar(c: char)
    requires !NeedsEscape(c)
    ensures EscapeChar(c) == [c]
  {
  }

  /** A string without special characters is copied whole; any other is escaped one character at a time. */
  method ValueToQuotedString(value: string) returns (result: string)
    ensures result == Quote(value)
  {
    hide EscapeChar, NeedsEscape;
    var plain := true;
    for i := 0 to |value|
      invariant plain ==> EscapeAll(value[..i]) == value[..i]
    {
      if NeedsEscape(value[i]) {
        plain := false;
        break;
      }
      assert value[..i + 1] == value[..i] + [value[i]];
      EscapeAllSnoc(value[..i], value[i]);
      PlainChar(value[i]);
    }
    assert value[..|value|] == value;
    if plain {
      return "\"" + value + "\"";
    }
    result := "\"";
    for i := 0 to |value|
      invariant result == "\"" + EscapeAll(value[..i])
    {
      assert value[..i + 1] == value[..i] + [value[i]];
      EscapeAllSnoc(value[..i], value[i]);
      result := result + EscapeChar(value[i]);
    }
    result := result + "\"";
  }

  // ----- scanning for the closing quote

  /** What follows the closing quote, or None when the text ends first. */
  function ScanString(s: string): (r: Option<string>)
    ensures r.Some? ==> |r.value| < |s| && r.value == s[|s| - |r.value|..]
    ensures r.Some? ==> s[|s| - |r.value| - 1] == '"'
  {
    if s == "" then None
    else if s[0] == '\\' then (if |s| == 1 then None else ScanString(s[2..]))
    else if s[0] == '"' then Some(s[1..])
    else ScanString(s[1..])
  }

  // ----- decoding

  function HexValue(c: char): (r: Option<nat>)
    ensures r.Some? ==> r.value < 16
  {
    if '0' <= c <= '9' then Some(c as int - '0' as int)
    else if 'a' <= c <= 'f' then Some(c as int - 'a' as int + 10)
    else if 'A' <= c <= 'F' then Some(c as int - 'A' as int + 10)
    else None
  }

  /** Value of the four hexadecimal digits that s starts with. */
  function EscapeSequence(s: string): (r: Option<nat>)
    ensures r.Some? ==> |s| >= 4 && r.value < 0x1_0000
  {
    if |s| < 4 then None
    else
      var a, b, c, d := HexValue(s[0]), HexValue(s[1]), HexValue(s[2]), HexValue(s[3]);
      if a.Some? && b.Some? && c.Some? && d.Some?
      then Some(a.value * 0x1000 + b.value * 0x100 + c.value * 16 + d.value)
      else None
  }

  datatype CodePoint = CodePoint(code: nat, used: nat)

  /** The code point written by the digits after a \u, with a second escape for a high surrogate. */
  function DecodeCodePoint(s: string): (r: Option<CodePoint>)
    ensures r.Some? ==> 4 <= r.value.used <= |s| && r.value.code <= 0x10FFFF
  {
    var first := EscapeSequence(s);
    if first.None? then None
    else if 0xD800 <= first.value <= 0xDBFF then
      if |s| < 10 || s[4] != '\\' || s[5] != 'u' then None
      else
        var second := EscapeSequence(s[6..]);
        if second.None? then None
        else Some(CodePoint(0x10000 + first.value % 0x400 * 0x400 + second.value % 0x400, 10))
    else Some(CodePoint(first.value, 4))
  }

  function Utf8(cp: nat): string
    requires cp <= 0x10FFFF
  {
    if cp <= 0x7F then [cp as char]
    else if cp <= 0x7FF then [(0xC0 + cp / 64) as char, (0x80 + cp % 64) as char]
    else if cp <= 0xFFFF then
      [(0xE0 + cp / 0x1000) as char, (0x80 + cp / 64 % 64) as char, (0x80 + cp % 64) as char]
    else
      [(0xF0 + cp / 0x40000) as char, (0x80 + cp / 0x1000 % 64) as char, (0x80 + cp / 64 % 64) as char, (0x80 + cp % 64) as char]
  }

  function SimpleEscape(c: char): Option<string> {
    if c == '"' then Some("\"")
    else if c == '/' then Some("/")
    else if c == '\\' then Some("\\")
    else if c == 'b' then Some([8 as char])
    else if c == 'f' then Some([12 as char])
    else if c == 'n' then Some("\n")
    else if c == 'r' then Some("\r")
    else if c == 't' then Some("\t")
    else None
  }

  /** One step of decoding: the text a character or escape stands for, and how long it is. */
  function DecodeOne(s: string): (r: Option<(string, nat)>)
    requires s != ""
    ensures r.Some? ==> 0 < r.value.1 <= |s|
  {
    if s[0] != '\\' then Some(([s[0]], 1))
    else if |s| == 1 then None
    else if s[1] == 'u' then
      var cp := DecodeCodePoint(s[2..]);
      if cp.None? then None else Some((Utf8(cp.value.code), 2 + cp.value.used))
    else
      var e := SimpleEscape(s[1]);
      if e.None? then None else Some((e.value, 2))
  }

  /** Text between the quotes, decoded; None for a bad escape. */
  function Decode(s: string): Option<string>
    decreases |s|
  {
    if s == "" || s[0] == '"' then Some("")
    else
      var one := DecodeOne(s);
      if one.None? then None
      else
        Prepend(one.value.0, Decode(s[one.value.1..]))
  }

  function Prepend(s: string, t: Option<string>): Option<string> {
    if t.None? then None else Some(s + t.value)
  }

  method DecodeString(s: string) returns (r: Option<string>)
    ensures r == Decode(s)
  {
    var decoded := "";
    var current := 0;
    assert s[0..] == s;
    PrependNothing(Decode(s));
    while current != |s|
      invariant current <= |s|
      invariant Decode(s) == Prepend(decoded, Decode(s[current..]))
    {
      hide DecodeOne;
      if s[current] == '"' {
        break;
      }
      var one := DecodeOne(s[current..]);
      if one.None? {
        return None;
      }
      var more := s[current + one.value.1..];
      assert s[current..][one.value.1..] == more;
      PrependTwice(decoded, one.value.0, Decode(more));
      decoded := decoded + one.value.0;
      current := current + one.value.1;
    }
    assert decoded + "" == decoded;
    r := Some(decoded);
  }

  lemma PrependNothing(t: Option<string>)
    ensures Prepend("", t) == t
  {
    if t.Some? { assert "" + t.value == t.value; }
  }

  lemma PrependTwice(a: string, b: string, t: Option<string>)
    ensures Prepend(a, Prepend(b, t)) == Prepend(a + b, t)
  {
    if t.Some? { assert a + (b + t.value) == (a + b) + t.value; }
  }

  // ----- round trip

  lemma HexDigitValue(d: nat)
    requires d < 16
    ensures HexValue(HexDigit(d)) == Some(d)
  {
  }

  lemma HexInverse(n: nat)
    requires n < 0x1_0000
    ensures EscapeSequence(Hex4(n)) == Some(n)
  {
    hide HexDigit, HexValue;
    HexDigitValue(n / 16 / 16 / 16);
    HexDigitValue(n / 16 / 16 % 16);
    HexDigitValue(n / 16 % 16);
    HexDigitValue(n % 16);
  }

  lemma EscapeSequencePrefix(s: string, t: string)
    requires EscapeSequence(s).Some?
    ensures EscapeSequence(s + t) == EscapeSequence(s)
  {
  }

  /** An escaped character decodes to itself, whatever follows it. */
  lemma DecodeEscaped(c: char, t: string)
    ensures EscapeChar(c) != "" && EscapeChar(c)[0] != '"'
    ensures DecodeOne(EscapeChar(c) + t) == Some(([c], |EscapeChar(c)|))
  {
    hide EscapeSequence, Hex4;
    var e := EscapeChar(c);
    var s := e + t;
    if |e| > 2 {
      HexInverse(c as int);
      EscapeSequencePrefix(Hex4(c as int), t);
      assert s[2..] == Hex4(c as int) + t;
    }
  }

  /** The closing quote is found behind any escaped text. */
  lemma ScanEscaped(c: char, t: string)
    ensures ScanString(EscapeChar(c) + t) == ScanString(t)
  {
    hide Hex4;
    var e := EscapeChar(c);
    if |e| == 6 {
      var h := Hex4(c as int);
      assert (e + t)[2..] == h + t;
      ScanPlain(h, t);
    } else if |e| == 2 {
      assert (e + t)[2..] == t;
    } else {
      ScanPlain(e, t);
    }
  }

  lemma {:induction false} ScanPlain(h: string, t: string)
    requires forall i :: 0 <= i < |h| ==> h[i] != '\\' && h[i] != '"'
    ensures ScanString(h + t) == ScanString(t)
  {
    if h == "" {
      assert h + t == t;
    } else {
      assert (h + t)[1..] == h[1..] + t;
      ScanPlain(h[1..], t);
    }
  }

  lemma ScanClose(t: string)
    ensures ScanString("\"" + t) == Some(t)
  {
    assert ("\"" + t)[1..] == t;
  }

  lemma {:induction false} ScanQuoted(s: string, t: string)
    ensures ScanString(EscapeAll(s) + ("\"" + t)) == Some(t)
  {
    hide EscapeChar, ScanString;
    if s == "" {
      ScanClose(t);
      assert EscapeAll(s) + ("\"" + t) == "\"" + t;
    } else {
      var e, r := EscapeChar(s[0]), EscapeAll(s[1..]);
      ScanEscaped(s[0], r + ("\"" + t));
      ScanQuoted(s[1..], t);
      assert (e + r) + ("\"" + t) == e + (r + ("\"" + t));
    }
  }

  /** Decoding what was escaped gives back every string, control characters and NUL included. */
  lemma {:induction false} DecodeEscapedAll(s: string)
    ensures Decode(EscapeAll(s)) == Some(s)
  {
    if s != "" {
      var e, more := EscapeChar(s[0]), EscapeAll(s[1..]);
      DecodeEscaped(s[0], more);
      DecodeEscapedAll(s[1..]);
      assert (e + more)[|e|..] == more;
      assert [s[0]] + s[1..] == s;
    }
  }
}
