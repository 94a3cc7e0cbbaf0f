/**
 minijson's reader as functions of the text still to be read: strings with their escapes,
 unquoted values, objects and arrays, with every parse error.  A NUL character ends the
 input, as the context's read() returns 0 both for it and at the end of the buffer.
 */
module MiniJson {
  import opened JsonNumber
  import opened JsonString

  const NESTING_LIMIT := 32
  const NUL := 0 as char

  datatype Reason =
    | ExpectedOpeningQuote | ExpectedLowSurrogate | InvalidEscape | InvalidUtf16 | ExpectedClosingQuote
    | InvalidValue | UnterminatedValue | ExpectedOpeningBracket | ExpectedColon
    | ExpectedCommaOrClosingBracket | ExceededNestingLimit

  /** What a document holds; a number that is no long is kept as a double. */
  datatype Tree =
    | Null
    | Bool(b: bool)
    | Long(n: int)
    | Double(d: real)
    | Str(s: string)
    | Array(items: Items)
    | Object(members: Members)

  datatype Items = NoItems | Item(value: Tree, rest: Items)

  datatype Members = NoMembers | Member(name: string, value: Tree, rest: Members)

  /** Success with the unread text, or a parse error with the text unread when it was thrown. */
  datatype Result<T> = Ok(value: T, rest: string) | Err(reason: Reason, rest: string)

  // ----- characters

  predicate IsSpace(c: char) {
    c == ' ' || 9 <= c as int <= 13
  }

  /** The next character, NUL at the end. */
  function Peek(s: string): char {
    if s == "" then NUL else s[0]
  }

  function Drop(s: string): (t: string)
    ensures |t| <= |s|
  {
    if s == "" then "" else s[1..]
  }

  function SkipSpaces(s: string): (t: string)
    ensures |t| <= |s|
  {
    if s != "" && IsSpace(s[0]) then SkipSpaces(s[1..]) else s
  }

  // ----- strings

  function Prefixed(a: string, r: Result<string>): Result<string> {
    match r
    case Ok(t, rest) => Ok(a + t, rest)
    case Err(e, rest) => Err(e, rest)
  }

  lemma PrefixedNothing(r: Result<string>)
    ensures Prefixed("", r) == r
  {
    if r.Ok? { assert "" + r.value == r.value; }
  }

  lemma PrefixedTwice(a: string, b: string, r: Result<string>)
    ensures Prefixed(a, Prefixed(b, r)) == Prefixed(a + b, r)
  {
    if r.Ok? { assert a + (b + r.value) == (a + b) + r.value; }
  }

  predicate IsHigh(u: nat) {
    0xD800 <= u <= 0xDBFF
  }

  predicate IsLow(u: nat) {
    0xDC00 <= u <= 0xDFFF
  }

  /** A code point that is no surrogate. */
  predicate IsScalar(cp: nat) {
    cp <= 0x10FFFF && !IsHigh(cp) && !IsLow(cp)
  }

  function PairCode(high: nat, low: nat): (cp: nat)
    requires IsHigh(high) && IsLow(low)
    ensures 0x10000 <= cp <= 0x10FFFF && IsScalar(cp)
  {
    0x10000 + (high - 0xD800) * 0x400 + (low - 0xDC00)
  }

  function SimpleEscapeChar(c: char): Option<char> {
    match c
    case '"' => Some('"')
    case '\\' => Some('\\')
    case '/' => Some('/')
    case 'b' => Some(8 as char)
    case 'f' => Some(12 as char)
    case 'n' => Some('\n')
    case 'r' => Some('\r')
    case 't' => Some('\t')
    case _ => None
  }

  /** Effect of a complete \u escape: what it writes and the high surrogate now pending; None if it is no character. */
  function CodeUnit(u: nat, high: nat): (r: Option<(string, nat)>)
    requires high == 0 || IsHigh(high)
    ensures r.Some? ==> r.value.1 == 0 || IsHigh(r.value.1)
  {
    if high != 0 then (if IsLow(u) then Some((Utf8(PairCode(high, u)), 0)) else None)
    else if IsHigh(u) then Some(("", u))
    else if IsLow(u) || u > 0xFFFF then None
    else Some((Utf8(u), 0))
  }

  /** Text up to the first NUL among the next k characters is too short for an escape. */
  predicate Short(s: string, k: nat): (b: bool)
    ensures !b ==> |s| >= k
  {
    k > 0 && (s == "" || s[0] == NUL || Short(s[1..], k - 1))
  }

  /** Unread text after running into the end or a NUL within k characters. */
  function AfterShort(s: string, k: nat): (t: string)
    ensures |t| <= |s|
  {
    if k == 0 || s == "" then s else if s[0] == NUL then s[1..] else AfterShort(s[1..], k - 1)
  }

  /** A quoted string whose opening quote has been read; high is a high surrogate waiting for its partner. */
  function Quoted(s: string, high: nat): (r: Result<string>)
    requires high == 0 || IsHigh(high)
    ensures |r.rest| <= |s|
    ensures r.Ok? ==> |r.rest| < |s|
    decreases |s|
  {
    if Peek(s) == NUL then Err(ExpectedClosingQuote, Drop(s))
    else if s[0] == '\\' then
      var t := s[1..];
      if Peek(t) == NUL then Err(ExpectedClosingQuote, Drop(t))
      else if t[0] == 'u' then
        var h := t[1..];
        if Short(h, 4) then Err(ExpectedClosingQuote, AfterShort(h, 4))
        else
          var u := EscapeSequence(h);
          if u.None? then Err(InvalidUtf16, h[4..])
          else
            var w := CodeUnit(u.value, high);
            if w.None? then Err(InvalidUtf16, h[4..])
            else Prefixed(w.value.0, Quoted(h[4..], w.value.1))
      else
        var e := SimpleEscapeChar(t[0]);
        if e.None? then Err(InvalidEscape, t[1..]) else Prefixed([e.value], Quoted(t[1..], high))
    else if high != 0 then Err(ExpectedLowSurrogate, s[1..])
    else if s[0] == '"' then Ok("", s[1..])
    else Prefixed([s[0]], Quoted(s[1..], 0))
  }

  /** What a C string function sees of a written string. */
  function CString(s: string): string {
    if s == "" || s[0] == NUL then "" else [s[0]] + CString(s[1..])
  }

  // ----- unquoted values

  predicate EndsValue(c: char) {
    c == ',' || c == '}' || c == ']' || IsSpace(c)
  }

  /** Characters up to the one that ends an unquoted value, which stays unread. */
  function Unquoted(s: string): (r: Result<string>)
    ensures |r.rest| <= |s|
    ensures r.Ok? ==> r.rest != "" && EndsValue(r.rest[0])
  {
    if Peek(s) == NUL then Err(UnterminatedValue, Drop(s))
    else if EndsValue(s[0]) then Ok("", s)
    else Prefixed([s[0]], Unquoted(s[1..]))
  }

  predicate IsSign(c: char) {
    c == '+' || c == '-'
  }

  /** strtol in base 10 over the whole string. */
  function ParseLong(text: string): Option<int> {
    var digits := if text != "" && IsSign(text[0]) then text[1..] else text;
    if digits == "" || !AllDigits(digits) then None
    else
      var n: int := if text[0] == '-' then -(DigitsValue(digits) as int) else DigitsValue(digits);
      if -MAX_LARGEST_INT - 1 <= n <= MAX_LARGEST_INT then Some(n) else None
  }

  /** toDouble stands for the check of the characters and strtod. */
  function Scalar(text: string, toDouble: string -> Option<real>): Option<Tree> {
    if text == "true" then Some(Bool(true))
    else if text == "false" then Some(Bool(false))
    else if text == "null" then Some(Null)
    else if ParseLong(text).Some? then Some(Long(ParseLong(text).value))
    else if toDouble(text).Some? then Some(Double(toDouble(text).value))
    else None
  }

  // ----- objects and arrays, with a handler that reads every nested container

  type ToDouble = string -> Option<real>

  /** A value whose first character c has been read; level is the nesting level of its container. */
  function Value(c: char, s: string, level: nat, d: ToDouble): (r: Result<Tree>)
    ensures |r.rest| <= |s|
    decreases |s|, 5
  {
    if c == '{' then
      if level + 1 > NESTING_LIMIT then Err(ExceededNestingLimit, s) else ObjectBody(s, level + 1, d)
    else if c == '[' then
      if level + 1 > NESTING_LIMIT then Err(ExceededNestingLimit, s) else ArrayBody(s, level + 1, d)
    else if c == '"' then
      var q := Quoted(s, 0);
      if q.Ok? then Ok(Str(CString(q.value)), q.rest) else Err(q.reason, q.rest)
    else
      var u := Unquoted(s);
      if u.Err? then Err(u.reason, u.rest)
      else
        var v := Scalar(if c == NUL then u.value else [c] + u.value, d);
        if v.Some? then Ok(v.value, u.rest) else Err(InvalidValue, u.rest[1..])
  }

  /** Inside an object, after the opening bracket. */
  function ObjectBody(s: string, level: nat, d: ToDouble): (r: Result<Tree>)
    ensures |r.rest| <= |s|
    decreases |s|, 2
  {
    var t := SkipSpaces(s);
    if Peek(t) == '}' then Ok(Object(NoMembers), Drop(t))
    else
      var ms := MembersFrom(t, level, d);
      if ms.Ok? then Ok(Object(ms.value), ms.rest) else Err(ms.reason, ms.rest)
  }

  /** Members from a field name on, to the closing bracket. */
  function MembersFrom(s: string, level: nat, d: ToDouble): (r: Result<Members>)
    ensures |r.rest| <= |s|
    decreases |s|, 1
  {
    if Peek(s) != '"' then Err(ExpectedOpeningQuote, Drop(s))
    else
      var name := Quoted(s[1..], 0);
      if name.Err? then Err(name.reason, name.rest)
      else
        var colon := SkipSpaces(name.rest);
        if Peek(colon) != ':' then Err(ExpectedColon, Drop(colon))
        else
          var v := SkipSpaces(Drop(colon));
          var x := Value(Peek(v), Drop(v), level, d);
          if x.Err? then Err(x.reason, x.rest)
          else
            var comma := SkipSpaces(x.rest);
            if Peek(comma) == '}' then Ok(Member(CString(name.value), x.value, NoMembers), Drop(comma))
            else if Peek(comma) != ',' then Err(ExpectedCommaOrClosingBracket, Drop(comma))
            else
              var ms := MembersFrom(SkipSpaces(Drop(comma)), level, d);
              if ms.Ok? then Ok(Member(CString(name.value), x.value, ms.value), ms.rest) else Err(ms.reason, ms.rest)
  }

  function ArrayBody(s: string, level: nat, d: ToDouble): (r: Result<Tree>)
    ensures |r.rest| <= |s|
    decreases |s|, 2
  {
    var t := SkipSpaces(s);
    if Peek(t) == ']' then Ok(Array(NoItems), Drop(t))
    else
      var items := ItemsFrom(t, level, d);
      if items.Ok? then Ok(Array(items.value), items.rest) else Err(items.reason, items.rest)
  }

  function ItemsFrom(s: string, level: nat, d: ToDouble): (r: Result<Items>)
    ensures |r.rest| <= |s|
    decreases |s|, 1
  {
    if s == "" then Err(UnterminatedValue, s)
    else
      var x := Value(s[0], s[1..], level, d);
      if x.Err? then Err(x.reason, x.rest)
      else
        var comma := SkipSpaces(x.rest);
        if Peek(comma) == ']' then Ok(Item(x.value, NoItems), Drop(comma))
        else if Peek(comma) != ',' then Err(ExpectedCommaOrClosingBracket, Drop(comma))
        else
          var items := ItemsFrom(SkipSpaces(Drop(comma)), level, d);
          if items.Ok? then Ok(Item(x.value, items.value), items.rest) else Err(items.reason, items.rest)
  }

  /** A whole document read with parse_object or parse_array. */
  function Document(s: string, obj: bool, d: ToDouble): (r: Result<Tree>)
    ensures |r.rest| <= |s|
  {
    var t := SkipSpaces(s);
    if Peek(t) != (if obj then '{' else '[') then Err(ExpectedOpeningBracket, Drop(t))
    else if obj then ObjectBody(Drop(t), 0, d) else ArrayBody(Drop(t), 0, d)
  }
}
