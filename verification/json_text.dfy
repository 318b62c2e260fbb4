/**
 * The text form of JSON values: `JSON.stringify(value, null, gap)` and
 * `JSON.parse(text)`, following the serialisation and grammar of the
 * ECMAScript JSON object (ECMA-262, section 25.5), restricted to integer
 * numbers.
 */
module JsonText {
  import opened Wrappers
  import opened JsonValue

  // ---------------------------------------------------------------------
  // Serialisation: JSON.stringify(value, null, gap)
  // ---------------------------------------------------------------------

  function DigitChar(d: nat): char
    requires d < 10
  {
    ('0' as int + d) as char
  }

  /** Decimal digits of a natural number, without leading zeros. */
  function NatToDecimal(n: nat): string
    decreases n
  {
    if n < 10 then [DigitChar(n)] else NatToDecimal(n / 10) + [DigitChar(n % 10)]
  }

  /** `String(n)` for an integer. */
  function IntToDecimal(n: int): string {
    if n < 0 then "-" + NatToDecimal(-n) else NatToDecimal(n)
  }

  function HexDigitChar(d: nat): char
    requires d < 16
  {
    if d < 10 then DigitChar(d) else ('a' as int + (d - 10)) as char
  }

  /**
   * How QuoteJSONString writes one code point: the two-character escapes,
   * `\u00xx` (lower-case hex) for the other control characters, the
   * character itself otherwise.
   */
  function EscapeChar(c: char): string {
    if c == '"' then "\\\""
    else if c == '\\' then "\\\\"
    else if c == '\U{0008}' then "\\b"
    else if c == '\U{000C}' then "\\f"
    else if c == '\n' then "\\n"
    else if c == '\r' then "\\r"
    else if c == '\t' then "\\t"
    else if c < ' ' then
      "\\u00" + [HexDigitChar(c as int / 16), HexDigitChar(c as int % 16)]
    else [c]
  }

  function EscapeBody(s: string): string
    decreases |s|
  {
    if s == [] then "" else EscapeChar(s[0]) + EscapeBody(s[1..])
  }

  /** QuoteJSONString */
  function Quote(s: string): string {
    "\"" + EscapeBody(s) + "\""
  }

  /** The line break and indentation between elements; nothing when compact. */
  function Break(gap: string, indent: string): string {
    if gap == "" then "" else "\n" + indent
  }

  /**
   * SerializeJSONProperty for a value at nesting level `indent`: compact
   * when `gap` is empty, otherwise one element per line, each level indented
   * by one more `gap`.
   */
  function Stringify(v: Value, gap: string, indent: string): string
    decreases v
  {
    match v
    case Null => "null"
    case Bool(b) => if b then "true" else "false"
    case Num(n) => IntToDecimal(n)
    case Str(s) => Quote(s)
    case Arr(items) =>
      if items == [] then "[]"
      else ("[" + Break(gap, indent + gap) + StringifyItems(items, gap, indent + gap)
            + Break(gap, indent) + "]")
    case Obj(ms) =>
      if ms == [] then "{}"
      else ("{" + Break(gap, indent + gap) + StringifyMembers(ms, gap, indent + gap)
            + Break(gap, indent) + "}")
  }

  function StringifyItems(items: seq<Value>, gap: string, indent: string): string
    requires |items| > 0
    decreases items
  {
    Stringify(items[0], gap, indent)
    + if |items| == 1 then ""
      else "," + Break(gap, indent) + StringifyItems(items[1..], gap, indent)
  }

  function StringifyMembers(ms: seq<Member>, gap: string, indent: string): string
    requires |ms| > 0
    decreases ms
  {
    Quote(ms[0].key) + ":" + (if gap == "" then "" else " ")
    + Stringify(ms[0].value, gap, indent)
    + if |ms| == 1 then ""
      else "," + Break(gap, indent) + StringifyMembers(ms[1..], gap, indent)
  }

  /** `JSON.stringify(v)` */
  function Compact(v: Value): string {
    Stringify(v, "", "")
  }

  /** `JSON.stringify(v, null, 2)` */
  function Pretty(v: Value): string {
    Stringify(v, "  ", "")
  }

  // ---------------------------------------------------------------------
  // Parsing: JSON.parse(text)
  // ---------------------------------------------------------------------

  /** What has been read, and the text after it. */
  datatype Parsed<T> = Parsed(value: T, rest: string)

  /** JSON's own whitespace (narrower than JavaScript's `\s`). */
  predicate IsJsonSpace(c: char) {
    c == ' ' || c == '\t' || c == '\n' || c == '\r'
  }

  function SkipSpace(s: string): (r: string)
    ensures |r| <= |s|
    ensures r == [] || !IsJsonSpace(r[0])
    decreases |s|
  {
    if s != [] && IsJsonSpace(s[0]) then SkipSpace(s[1..]) else s
  }

  predicate IsDigit(c: char) {
    '0' <= c <= '9'
  }

  /** Length of the run of digits at the start of `s`. */
  function DigitRun(s: string): (k: nat)
    ensures k <= |s|
    ensures forall i :: 0 <= i < k ==> IsDigit(s[i])
    ensures k == |s| || !IsDigit(s[k])
    decreases |s|
  {
    if s != [] && IsDigit(s[0]) then 1 + DigitRun(s[1..]) else 0
  }

  predicate AllDigits(s: string) {
    forall i :: 0 <= i < |s| ==> IsDigit(s[i])
  }

  /** The number a run of decimal digits denotes. */
  function DecimalValue(d: string): nat
    requires AllDigits(d)
    decreases |d|
  {
    if d == [] then 0
    else DecimalValue(d[..|d| - 1]) * 10 + (d[|d| - 1] as int - '0' as int)
  }

  /**
   * A number: an optional minus sign, then `0` or a digit run without a
   * leading zero. A fraction or an exponent is not part of this model and
   * is refused.
   */
  function ParseNumber(s: string): (r: Option<Parsed<Value>>)
    ensures r.Some? ==> |r.value.rest| < |s|
  {
    var negative := s != [] && s[0] == '-';
    var t := if negative then s[1..] else s;
    if t == [] || !IsDigit(t[0]) then None
    else
      var k := if t[0] == '0' then 1 else DigitRun(t);
      var magnitude: int := DecimalValue(t[..k]);
      var rest := t[k..];
      if rest != [] && (rest[0] == '.' || rest[0] == 'e' || rest[0] == 'E') then None
      else Some(Parsed(Num(if negative then -magnitude else magnitude), rest))
  }

  predicate IsHexDigit(c: char) {
    IsDigit(c) || 'a' <= c <= 'f' || 'A' <= c <= 'F'
  }

  function HexDigitValue(c: char): (v: nat)
    requires IsHexDigit(c)
    ensures v < 16
  {
    if IsDigit(c) then c as int - '0' as int
    else if 'a' <= c <= 'f' then c as int - 'a' as int + 10
    else c as int - 'A' as int + 10
  }

  /** The four hex digits of a `\u` escape, if `s` starts with them. */
  function Hex4(s: string): (r: Option<nat>)
    ensures r.Some? ==> |s| >= 4 && r.value < 0x10000
  {
    if |s| >= 4 && IsHexDigit(s[0]) && IsHexDigit(s[1]) && IsHexDigit(s[2]) && IsHexDigit(s[3])
    then Some(((HexDigitValue(s[0]) * 16 + HexDigitValue(s[1])) * 16
               + HexDigitValue(s[2])) * 16 + HexDigitValue(s[3]))
    else None
  }

  /**
   * The character an escape denotes; `s` starts after the backslash. A
   * `\u` escape of a surrogate half must be the first half of a pair.
   */
  function ParseEscape(s: string): (r: Option<Parsed<char>>)
    ensures r.Some? ==> |r.value.rest| < |s|
  {
    if s == [] then None
    else if s[0] == '"' then Some(Parsed('"', s[1..]))
    else if s[0] == '\\' then Some(Parsed('\\', s[1..]))
    else if s[0] == '/' then Some(Parsed('/', s[1..]))
    else if s[0] == 'b' then Some(Parsed('\U{0008}', s[1..]))
    else if s[0] == 'f' then Some(Parsed('\U{000C}', s[1..]))
    else if s[0] == 'n' then Some(Parsed('\n', s[1..]))
    else if s[0] == 'r' then Some(Parsed('\r', s[1..]))
    else if s[0] == 't' then Some(Parsed('\t', s[1..]))
    else if s[0] == 'u' then
      match Hex4(s[1..])
      case None => None
      case Some(code) =>
        if code < 0xD800 || 0xE000 <= code then Some(Parsed(code as char, s[5..]))
        else if 0xDC00 <= code then None
        else if |s| >= 7 && s[5] == '\\' && s[6] == 'u' then
          match Hex4(s[7..])
          case Some(low) =>
            if 0xDC00 <= low < 0xE000 then
              Some(Parsed((0x10000 + (code - 0xD800) * 0x400 + (low - 0xDC00)) as char, s[11..]))
            else None
          case None => None
        else None
    else None
  }

  /** The body of a string literal; `s` starts after the opening quote. */
  function ParseString(s: string): (r: Option<Parsed<string>>)
    ensures r.Some? ==> |r.value.rest| < |s|
    decreases |s|
  {
    if s == [] then None
    else if s[0] == '"' then Some(Parsed("", s[1..]))
    else if s[0] == '\\' then
      match ParseEscape(s[1..])
      case None => None
      case Some(Parsed(c, after)) =>
        match ParseString(after)
        case None => None
        case Some(Parsed(tail, rest)) => Some(Parsed([c] + tail, rest))
    else if s[0] < ' ' then None
    else
      match ParseString(s[1..])
      case None => None
      case Some(Parsed(tail, rest)) => Some(Parsed([s[0]] + tail, rest))
  }

  /** One value, after optional whitespace. */
  function ParseValue(s: string): (r: Option<Parsed<Value>>)
    ensures r.Some? ==> |r.value.rest| < |s|
    decreases |s|, 1
  {
    ParseToken(SkipSpace(s))
  }

  /** One value, from its first character on. */
  function ParseToken(t: string): (r: Option<Parsed<Value>>)
    ensures r.Some? ==> |r.value.rest| < |t|
    decreases |t|, 0
  {
    if t == [] then None
    else if t[0] == 'n' then
      if |t| >= 4 && t[..4] == "null" then Some(Parsed(Null, t[4..])) else None
    else if t[0] == 't' then
      if |t| >= 4 && t[..4] == "true" then Some(Parsed(Bool(true), t[4..])) else None
    else if t[0] == 'f' then
      if |t| >= 5 && t[..5] == "false" then Some(Parsed(Bool(false), t[5..])) else None
    else if t[0] == '"' then
      match ParseString(t[1..])
      case None => None
      case Some(Parsed(str, rest)) => Some(Parsed(Str(str), rest))
    else if t[0] == '[' then ParseArray(t[1..])
    else if t[0] == '{' then ParseObject(t[1..])
    else if t[0] == '-' || IsDigit(t[0]) then ParseNumber(t)
    else None
  }

  /** An array; `s` starts after `[`. */
  function ParseArray(s: string): (r: Option<Parsed<Value>>)
    ensures r.Some? ==> |r.value.rest| < |s|
    decreases |s|, 3
  {
    var t := SkipSpace(s);
    if t != [] && t[0] == ']' then Some(Parsed(Arr([]), t[1..]))
    else
      match ParseItems(t)
      case None => None
      case Some(Parsed(items, rest)) => Some(Parsed(Arr(items), rest))
  }

  /** The elements of an array and its closing `]`. */
  function ParseItems(s: string): (r: Option<Parsed<seq<Value>>>)
    ensures r.Some? ==> |r.value.rest| < |s|
    decreases |s|, 2
  {
    match ParseValue(s)
    case None => None
    case Some(Parsed(v, after)) => ParseAfterItem(v, after)
  }

  /** What follows element `v`: `]`, or `,` and more elements. */
  function ParseAfterItem(v: Value, after: string): (r: Option<Parsed<seq<Value>>>)
    ensures r.Some? ==> |r.value.rest| < |after|
    decreases |after|, 3
  {
    var t := SkipSpace(after);
    if t == [] then None
    else if t[0] == ']' then Some(Parsed([v], t[1..]))
    else if t[0] == ',' then
      match ParseItems(t[1..])
      case None => None
      case Some(Parsed(vs, rest)) => Some(Parsed([v] + vs, rest))
    else None
  }

  /** An object; `s` starts after `{`. */
  function ParseObject(s: string): (r: Option<Parsed<Value>>)
    ensures r.Some? ==> |r.value.rest| < |s|
    decreases |s|, 3
  {
    var t := SkipSpace(s);
    if t != [] && t[0] == '}' then Some(Parsed(Obj([]), t[1..]))
    else
      match ParseMembers(t)
      case None => None
      case Some(Parsed(raw, rest)) => Some(Parsed(Obj(FromMembers([], raw)), rest))
  }

  /** The `"key": value` pairs of an object, as read, and its closing `}`. */
  function ParseMembers(s: string): (r: Option<Parsed<seq<Member>>>)
    ensures r.Some? ==> |r.value.rest| < |s|
    decreases |s|, 2
  {
    var t := SkipSpace(s);
    if t == [] || t[0] != '"' then None
    else
      match ParseString(t[1..])
      case None => None
      case Some(Parsed(key, afterKey)) => ParseAfterKey(key, afterKey)
  }

  /** What follows a key: `:` and the value, then the rest of the object. */
  function ParseAfterKey(key: string, afterKey: string): (r: Option<Parsed<seq<Member>>>)
    ensures r.Some? ==> |r.value.rest| < |afterKey|
    decreases |afterKey|, 4
  {
    var t := SkipSpace(afterKey);
    if t == [] || t[0] != ':' then None
    else
      match ParseValue(t[1..])
      case None => None
      case Some(Parsed(v, afterValue)) => ParseAfterMember(Member(key, v), afterValue)
  }

  /** What follows member `m`: `}`, or `,` and more members. */
  function ParseAfterMember(m: Member, after: string): (r: Option<Parsed<seq<Member>>>)
    ensures r.Some? ==> |r.value.rest| < |after|
    decreases |after|, 3
  {
    var t := SkipSpace(after);
    if t == [] then None
    else if t[0] == '}' then Some(Parsed([m], t[1..]))
    else if t[0] == ',' then
      match ParseMembers(t[1..])
      case None => None
      case Some(Parsed(more, rest)) => Some(Parsed([m] + more, rest))
    else None
  }

  /** `JSON.parse(text)`: one value, surrounded by nothing but whitespace. */
  function Parse(text: string): Option<Value> {
    match ParseValue(text)
    case None => None
    case Some(Parsed(v, rest)) => if SkipSpace(rest) == [] then Some(v) else None
  }
}
