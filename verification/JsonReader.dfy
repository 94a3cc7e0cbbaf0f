/**
 jsoncpp's Reader as functions of the text that is still unread: the tokens, the
 recursive descent with its error recovery, and the document it yields.
 */
module JsonReader {
  import opened JsonValue
  import opened JsonNumber
  import opened JsonString

  const STACK_LIMIT := 1000

  /** Reader features; toDouble stands for the stream extraction of a double. */
  datatype Features = Features(allowComments: bool, strictRoot: bool, allowDroppedNull: bool, toDouble: string -> Option<real>)

  // ----- tokens

  datatype Kind =
    | EndOfStream | ObjectBegin | ObjectEnd | ArrayBegin | ArrayEnd
    | StringToken | NumberToken | TrueToken | FalseToken | NullToken
    | Separator | Colon | Comment | ErrorToken

  datatype Token = Token(kind: Kind, text: string, rest: string)

  predicate IsSpace(c: char) {
    c == ' ' || c == '\t' || c == '\r' || c == '\n'
  }

  function SkipSpaces(s: string): (t: string)
    ensures |t| <= |s|
    ensures t != "" ==> !IsSpace(t[0])
  {
    if s != "" && IsSpace(s[0]) then SkipSpaces(s[1..]) else s
  }

  function SkipDigits(s: string): (t: string)
    ensures |t| <= |s|
  {
    if s != "" && IsDigit(s[0]) then SkipDigits(s[1..]) else s
  }

  predicate StartsWith(s: string, c: char) {
    s != "" && s[0] == c
  }

  /** Text after a number whose first character has been read. */
  function ScanNumber(s: string): (t: string)
    ensures |t| <= |s|
  {
    var a := SkipDigits(s);
    var b := if StartsWith(a, '.') then SkipDigits(a[1..]) else a;
    if StartsWith(b, 'e') || StartsWith(b, 'E') then
      var c := b[1..];
      SkipDigits(if StartsWith(c, '+') || StartsWith(c, '-') then c[1..] else c)
    else b
  }

  datatype Scan = Scan(ok: bool, rest: string)

  /** The inside of a C-style comment. */
  function ScanBlock(s: string): (r: Scan)
    ensures |r.rest| <= |s|
  {
    if |s| < 2 then (if s == "" then Scan(false, "") else Scan(s[0] == '/', s[1..]))
    else if s[0] == '*' && s[1] == '/' then Scan(true, s[2..])
    else ScanBlock(s[1..])
  }

  /** The inside of a C++-style comment, up to and including the line end. */
  function ScanLine(s: string): (t: string)
    ensures |t| <= |s|
  {
    if s == "" then ""
    else if s[0] == '\n' then s[1..]
    else if s[0] == '\r' then (if StartsWith(s[1..], '\n') then s[2..] else s[1..])
    else ScanLine(s[1..])
  }

  function ScanComment(s: string): (r: Scan)
    ensures |r.rest| <= |s|
  {
    if s == "" then Scan(false, "")
    else if s[0] == '*' then ScanBlock(s[1..])
    else if s[0] == '/' then Scan(true, ScanLine(s[1..]))
    else Scan(false, s[1..])
  }

  /** A literal's remaining letters. */
  function ScanLiteral(s: string, letters: string): (r: Scan)
    ensures |r.rest| <= |s|
  {
    if letters <= s then Scan(true, s[|letters|..]) else Scan(false, s)
  }

  function ScanQuote(s: string): (r: Scan)
    ensures |r.rest| <= |s|
  {
    match ScanString(s)
    case Some(rest) => Scan(true, rest)
    case None => Scan(false, "")
  }

  /** The token that starts with c, of which the rest is in s. */
  function LexFrom(c: char, s: string): (r: (Kind, string))
    ensures |r.1| <= |s|
    ensures IsMark(r.0) ==> |r.1| == |s|
  {
    if c == '{' then (ObjectBegin, s)
    else if c == '}' then (ObjectEnd, s)
    else if c == '[' then (ArrayBegin, s)
    else if c == ']' then (ArrayEnd, s)
    else if c == '"' then Checked(StringToken, ScanQuote(s))
    else if c == '/' then Checked(Comment, ScanComment(s))
    else if IsDigit(c) || c == '-' then (NumberToken, ScanNumber(s))
    else if c == 't' then Checked(TrueToken, ScanLiteral(s, "rue"))
    else if c == 'f' then Checked(FalseToken, ScanLiteral(s, "alse"))
    else if c == 'n' then Checked(NullToken, ScanLiteral(s, "ull"))
    else if c == ',' then (Separator, s)
    else if c == ':' then (Colon, s)
    else if c as int == 0 then (EndOfStream, s)
    else (ErrorToken, s)
  }

  /** The tokens that may stand for a dropped null. */
  predicate IsMark(kind: Kind) {
    kind.Separator? || kind.ObjectEnd? || kind.ArrayEnd?
  }

  function Checked(kind: Kind, scan: Scan): (Kind, string) {
    (if scan.ok then kind else ErrorToken, scan.rest)
  }

  function Lex(s: string): (t: Token)
    ensures |t.rest| <= |s|
    ensures !t.kind.EndOfStream? ==> |t.rest| < |s|
    ensures |t.text| + |t.rest| <= |s|
    ensures IsMark(t.kind) ==> |t.text| == 1
  {
    var start := SkipSpaces(s);
    if start == "" then Token(EndOfStream, "", "")
    else
      var (kind, rest) := LexFrom(start[0], start[1..]);
      Token(kind, start[..|start| - |rest|], rest)
  }

  /** The next token that is not a comment. */
  function LexPastComments(s: string): (t: Token)
    ensures |t.rest| <= |s|
    ensures !t.kind.EndOfStream? ==> |t.rest| < |s|
    ensures |t.text| + |t.rest| <= |s|
    ensures IsMark(t.kind) ==> |t.text| == 1
    ensures !t.kind.Comment?
    decreases |s|
  {
    var t := Lex(s);
    if t.kind.Comment? then LexPastComments(t.rest) else t
  }

  function NextToken(s: string, f: Features): (t: Token)
    ensures |t.rest| <= |s|
    ensures !t.kind.EndOfStream? ==> |t.rest| < |s|
    ensures |t.text| + |t.rest| <= |s|
    ensures IsMark(t.kind) ==> |t.text| == 1
  {
    if f.allowComments then LexPastComments(s) else Lex(s)
  }

  /** Error recovery: text after the next token of the given kind. */
  function Recover(s: string, until: Kind): (t: string)
    ensures |t| <= |s|
    decreases |s|
  {
    var t := Lex(s);
    if t.kind == until || t.kind.EndOfStream? then t.rest else Recover(t.rest, until)
  }

  // ----- recursive descent

  /** Throw: the stack limit was exceeded.  Done: value read or not, unread text, errors recorded. */
  datatype Outcome = Throw | Done(ok: bool, value: Value, rest: string, errors: nat)

  function Unquoted(text: string): string {
    if |text| >= 2 then text[1..|text| - 1] else ""
  }

  /** The number token's value, if it has one. */
  function NumberOf(text: string, f: Features): Option<Value> {
    match DecodeInteger(text)
    case Integer(v) => Some(v)
    case AsDouble =>
      var d := f.toDouble(text);
      if d.Some? then Some(Real(d.value)) else None
  }

  function Scalar(v: Option<Value>, prior: Value, rest: string): Outcome {
    match v
    case Some(x) => Done(true, x, rest, 0)
    case None => Done(false, prior, rest, 1)
  }

  /** One value; prior is what the target held before, depth the size of the node stack. */
  function ReadValue(s: string, depth: nat, prior: Value, f: Features): (r: Outcome)
    ensures r.Done? ==> |r.rest| <= |s| && (r.ok <==> r.errors == 0)
    decreases |s|, 0
  {
    if depth > STACK_LIMIT then Throw
    else
      var t := NextToken(s, f);
      match t.kind
      case ObjectBegin => ReadMembers(t.rest, Empty, "", depth, f)
      case ArrayBegin => ReadArray(t.rest, depth, f)
      case NumberToken => Scalar(NumberOf(t.text, f), prior, t.rest)
      case StringToken =>
        var d := Decode(Unquoted(t.text));
        Scalar(if d.Some? then Some(Str(d.value)) else None, prior, t.rest)
      case TrueToken => Scalar(Some(Bool(true)), prior, t.rest)
      case FalseToken => Scalar(Some(Bool(false)), prior, t.rest)
      case NullToken => Scalar(Some(Null), prior, t.rest)
      case _ =>
        if f.allowDroppedNull && IsMark(t.kind)
        then Scalar(Some(Null), prior, t.text + t.rest)
        else Scalar(None, prior, t.rest)
  }

  /** Skips to the closing token after an error. */
  function Failed(v: Value, errors: nat, s: string, until: Kind): (r: Outcome)
    ensures r.Done? && |r.rest| <= |s|
  {
    Done(false, v, Recover(s, until), errors)
  }

  /** Object members from here on; name is the previous member's name. */
  function ReadMembers(s: string, m: Map, name: string, depth: nat, f: Features): (r: Outcome)
    ensures r.Done? ==> |r.rest| <= |s| && (r.ok <==> r.errors == 0)
    decreases |s|, 1
  {
    var t := LexPastComments(s);
    if t.kind.ObjectEnd? && name == "" then Done(true, Object(m), t.rest, 0)
    else if !t.kind.StringToken? then Failed(Object(m), 1, t.rest, ObjectEnd)
    else
      var key := Decode(Unquoted(t.text));
      if key.None? then Failed(Object(m), 1, t.rest, ObjectEnd)
      else
        var colon := Lex(t.rest);
        if !colon.kind.Colon? then Failed(Object(m), 1, colon.rest, ObjectEnd)
        else ReadMember(colon.rest, m, key.value, depth, f)
  }

  /** From the value of a member on. */
  function ReadMember(s: string, m: Map, name: string, depth: nat, f: Features): (r: Outcome)
    ensures r.Done? ==> |r.rest| <= |s| && (r.ok <==> r.errors == 0)
    decreases |s|, 1
  {
    var r := ReadValue(s, depth + 1, Find(m, Name(name)), f);
    if r.Throw? then Throw
    else
      var m' := Put(m, Name(name), r.value);
      if !r.ok then Failed(Object(m'), r.errors, r.rest, ObjectEnd)
      else
        var comma := Lex(r.rest);
        if !comma.kind.ObjectEnd? && !comma.kind.Separator? && !comma.kind.Comment?
        then Failed(Object(m'), 1, comma.rest, ObjectEnd)
        else
          var last := if comma.kind.Comment? then LexPastComments(comma.rest) else comma;
          if last.kind.ObjectEnd? then Done(true, Object(m'), last.rest, 0)
          else ReadMembers(last.rest, m', name, depth, f)
  }

  function ReadArray(s: string, depth: nat, f: Features): (r: Outcome)
    ensures r.Done? ==> |r.rest| <= |s| && (r.ok <==> r.errors == 0)
    decreases |s|, 2
  {
    var start := SkipSpaces(s);
    if StartsWith(start, ']') then Done(true, Array(Empty), start[1..], 0)
    else ReadElements(start, Empty, 0, depth, f)
  }

  function ReadElements(s: string, m: Map, index: nat, depth: nat, f: Features): (r: Outcome)
    ensures r.Done? ==> |r.rest| <= |s| && (r.ok <==> r.errors == 0)
    decreases |s|, 1
  {
    var r := ReadValue(s, depth + 1, Null, f);
    if r.Throw? then Throw
    else
      var m' := Put(m, Index(index), r.value);
      if !r.ok then Failed(Array(m'), r.errors, r.rest, ArrayEnd)
      else
        var t := LexPastComments(r.rest);
        if t.kind.ArrayEnd? then Done(true, Array(m'), t.rest, 0)
        else if !t.kind.Separator? then Failed(Array(m'), 1, t.rest, ArrayEnd)
        else ReadElements(t.rest, m', index + 1, depth, f)
  }

  // ----- the document

  datatype Parsed = Parsed(ok: bool, root: Value, errors: nat)

  function Parse(doc: string, root: Value, f: Features): (r: Option<Parsed>)
    ensures r.Some? ==> (r.value.ok <==> r.value.errors == 0)
  {
    match ReadValue(doc, 1, root, f)
    case Throw => None
    case Done(ok, v, _, errors) =>
      if f.strictRoot && !v.Array? && !v.Object? then Some(Parsed(false, v, errors + 1))
      else Some(Parsed(ok, v, errors))
  }
}
