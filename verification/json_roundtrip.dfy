/**
 * `JSON.parse` reads back what `JSON.stringify` writes: for every well-formed
 * value, compact or indented with spaces, and whatever follows it as long as
 * it cannot continue a number.
 */
module JsonRoundTrip {
  import opened Wrappers
  import opened JsonValue
  import opened JsonText

  predicate AllSpaces(s: string) {
    forall i :: 0 <= i < |s| ==> s[i] == ' '
  }

  predicate AllJsonSpace(s: string) {
    forall i :: 0 <= i < |s| ==> IsJsonSpace(s[i])
  }

  /** Text that cannot extend a number written just before it. */
  predicate Delimited(rest: string) {
    rest == [] || !(IsDigit(rest[0]) || rest[0] == '.' || rest[0] == 'e' || rest[0] == 'E')
  }

  lemma {:induction false} SkipSpaceSkips(w: string, t: string)
    requires AllJsonSpace(w)
    ensures SkipSpace(w + t) == SkipSpace(t)
    decreases |w|
  {
    if w == [] {
      assert w + t == t;
    } else {
      assert (w + t)[1..] == w[1..] + t;
      SkipSpaceSkips(w[1..], t);
    }
  }

  lemma BreakIsSpace(gap: string, indent: string)
    requires AllSpaces(indent)
    ensures AllJsonSpace(Break(gap, indent))
  {
  }

  // ---------------------------------------------------------------------
  // Numbers
  // ---------------------------------------------------------------------

  lemma {:induction false} NatToDecimalDigits(n: nat)
    ensures var d := NatToDecimal(n);
      |d| > 0 && AllDigits(d) && DecimalValue(d) == n && (d[0] == '0' ==> |d| == 1)
    decreases n
  {
    if n >= 10 {
      NatToDecimalDigits(n / 10);
      var d := NatToDecimal(n);
      var prefix := NatToDecimal(n / 10);
      assert d[..|d| - 1] == prefix;
      assert d[0] == prefix[0];
    }
  }

  lemma {:induction false} DigitRunOf(d: string, rest: string)
    requires AllDigits(d)
    requires rest == [] || !IsDigit(rest[0])
    ensures DigitRun(d + rest) == |d|
    decreases |d|
  {
    if d == [] {
      assert d + rest == rest;
    } else {
      assert (d + rest)[1..] == d[1..] + rest;
      DigitRunOf(d[1..], rest);
    }
  }

  /** A digit run without a leading zero is read as the number it denotes. */
  lemma ParseDigits(d: string, rest: string)
    requires |d| > 0 && AllDigits(d) && (d[0] == '0' ==> |d| == 1)
    requires Delimited(rest)
    ensures ParseNumber(d + rest) == Some(Parsed(Num(DecimalValue(d)), rest))
  {
    var t := d + rest;
    assert t[0] == d[0];
    var k := if t[0] == '0' then 1 else DigitRun(t);
    assert k == |d| by {
      if t[0] != '0' {
        DigitRunOf(d, rest);
      }
    }
    assert t[..k] == d && t[k..] == rest;
  }

  /** A minus sign in front of a number that starts with a digit negates it. */
  lemma ParseMinus(t: string, n: int, rest: string)
    requires t != [] && IsDigit(t[0])
    requires ParseNumber(t) == Some(Parsed(Num(n), rest))
    ensures ParseNumber("-" + t) == Some(Parsed(Num(-n), rest))
  {
    assert ("-" + t)[1..] == t;
  }

  /** A negative number written by `String(n)` is read back as `n`. */
  lemma ParseNegativeDecimal(n: int, rest: string)
    requires n < 0 && Delimited(rest)
    ensures ParseNumber(IntToDecimal(n) + rest) == Some(Parsed(Num(n), rest))
  {
    NegativeText(n, rest);
    ParseMinusDecimal(n, rest);
  }

  lemma NegativeText(n: int, rest: string)
    requires n < 0
    ensures IntToDecimal(n) + rest == "-" + (NatToDecimal(-n) + rest)
  {
  }

  lemma ParseMinusDecimal(n: int, rest: string)
    requires n < 0 && Delimited(rest)
    ensures ParseNumber("-" + (NatToDecimal(-n) + rest)) == Some(Parsed(Num(n), rest))
  {
    var k := -n;
    var d := NatToDecimal(k);
    var t := d + rest;
    assert ParseNumber(t) == Some(Parsed(Num(k), rest)) by {
      NatToDecimalDigits(k);
      ParseDigits(d, rest);
    }
    assert t != [] && IsDigit(t[0]) by {
      NatToDecimalDigits(k);
      assert t[0] == d[0];
    }
    ParseMinus(t, k, rest);
  }

  /** A number written by `String(n)` is read back as `n`. */
  lemma ParseIntToDecimal(n: int, rest: string)
    requires Delimited(rest)
    ensures ParseNumber(IntToDecimal(n) + rest) == Some(Parsed(Num(n), rest))
  {
    if n < 0 {
      ParseNegativeDecimal(n, rest);
    } else {
      NatToDecimalDigits(n);
      ParseDigits(NatToDecimal(n), rest);
    }
  }

  // ---------------------------------------------------------------------
  // Strings
  // ---------------------------------------------------------------------

  lemma HexDigitRoundTrip(d: nat)
    requires d < 16
    ensures IsHexDigit(HexDigitChar(d)) && HexDigitValue(HexDigitChar(d)) == d
  {
  }

  /** The four hex digits `00xy` denote `16 * x + y`. */
  lemma Hex4Low(hi: nat, lo: nat, x: string)
    requires hi < 16 && lo < 16
    ensures Hex4("00" + [HexDigitChar(hi), HexDigitChar(lo)] + x) == Some(hi * 16 + lo)
  {
    HexDigitRoundTrip(hi);
    HexDigitRoundTrip(lo);
    var u := "00" + [HexDigitChar(hi), HexDigitChar(lo)] + x;
    assert u[0] == '0' && u[1] == '0' && u[2] == HexDigitChar(hi) && u[3] == HexDigitChar(lo);
  }

  /** A control character written as `\u00xy` is read back. */
  lemma ParseUnicodeEscape(c: char, x: string)
    requires c < ' ' && EscapeChar(c) == "\\u00" + [HexDigitChar(c as int / 16), HexDigitChar(c as int % 16)]
    ensures ParseEscape(EscapeChar(c)[1..] + x) == Some(Parsed(c, x))
  {
    var hi, lo := c as int / 16, c as int % 16;
    var digits := "00" + [HexDigitChar(hi), HexDigitChar(lo)];
    var u := EscapeChar(c)[1..] + x;
    assert u == "u" + (digits + x);
    assert u[1..] == digits + x;
    Hex4Low(hi, lo, x);
    assert Hex4(u[1..]) == Some(c as int);
    assert u[5..] == x;
  }

  /** Reading one escaped character, then the rest of the literal. */
  lemma ParseEscapedChar(c: char, x: string)
    ensures ParseString(EscapeChar(c) + x) ==
      match ParseString(x)
      case None => None
      case Some(Parsed(tail, rest)) => Some(Parsed([c] + tail, rest))
  {
    var e := EscapeChar(c);
    var s := e + x;
    if c == '"' || c == '\\' || c == '\U{0008}' || c == '\U{000C}' || c == '\n' || c == '\r' || c == '\t' {
      assert |e| == 2 && s[0] == '\\';
      assert s[1..] == [e[1]] + x;
      assert ParseEscape(s[1..]) == Some(Parsed(c, x));
    } else if c < ' ' {
      assert s[0] == '\\' && s[1..] == e[1..] + x;
      ParseUnicodeEscape(c, x);
    } else {
      assert s == [c] + x && s[1..] == x;
    }
  }

  /** An escaped string body followed by the closing quote reads back as itself. */
  lemma {:induction false} ParseEscapeBody(s: string, rest: string)
    ensures ParseString(EscapeBody(s) + "\"" + rest) == Some(Parsed(s, rest))
    decreases |s|
  {
    if s == [] {
      assert EscapeBody(s) + "\"" + rest == "\"" + rest;
    } else {
      var x := EscapeBody(s[1..]) + "\"" + rest;
      assert EscapeBody(s) + "\"" + rest == EscapeChar(s[0]) + x;
      ParseEscapeBody(s[1..], rest);
      ParseEscapedChar(s[0], x);
      assert [s[0]] + s[1..] == s;
    }
  }

  // ---------------------------------------------------------------------
  // Values
  // ---------------------------------------------------------------------

  /** Serialised text starts with the token that names its kind. */
  lemma FirstChar(v: Value, gap: string, indent: string)
    ensures var x := Stringify(v, gap, indent);
      |x| > 0 && !IsJsonSpace(x[0]) && x[0] != ']' && x[0] != '}' && x[0] != ','
  {
    if v.Num? {
      var m: nat := if v.n < 0 then -v.n else v.n;
      NatToDecimalDigits(m);
    }
  }

  lemma FirstCharItems(items: seq<Value>, gap: string, indent: string)
    requires |items| > 0
    ensures var x := StringifyItems(items, gap, indent);
      |x| > 0 && !IsJsonSpace(x[0]) && x[0] != ']'
  {
    FirstChar(items[0], gap, indent);
  }

  // One step of the reader over each kind of text the writer produces.

  /** Whitespace in front of a value or a list of elements is skipped. */
  lemma ParseSkipsSpace(w: string, x: string)
    requires AllJsonSpace(w)
    ensures ParseValue(w + x) == ParseValue(x)
    ensures ParseItems(w + x) == ParseItems(x)
  {
    SkipSpaceSkips(w, x);
    assert SkipSpace(SkipSpace(x)) == SkipSpace(x);
  }

  /** A value starting with a non-space character is read from there. */
  lemma ParseValueToken(s: string)
    requires s != [] && !IsJsonSpace(s[0])
    ensures ParseValue(s) == ParseToken(s)
  {
  }

  lemma ParseNullText(rest: string)
    ensures ParseValue("null" + rest) == Some(Parsed(Null, rest))
  {
    var s := "null" + rest;
    ParseValueToken(s);
    assert s[..4] == "null" && s[4..] == rest;
  }

  lemma ParseBoolText(b: bool, rest: string)
    ensures ParseValue((if b then "true" else "false") + rest) == Some(Parsed(Bool(b), rest))
  {
    var s := (if b then "true" else "false") + rest;
    ParseValueToken(s);
    if b {
      assert s[..4] == "true" && s[4..] == rest;
    } else {
      assert s[..5] == "false" && s[5..] == rest;
    }
  }

  lemma ParseNumText(n: int, rest: string)
    requires Delimited(rest)
    ensures ParseValue(IntToDecimal(n) + rest) == Some(Parsed(Num(n), rest))
  {
    var s := IntToDecimal(n) + rest;
    FirstChar(Num(n), "", "");
    ParseValueToken(s);
    ParseIntToDecimal(n, rest);
  }

  lemma ParseStrText(str: string, rest: string)
    ensures ParseValue(Quote(str) + rest) == Some(Parsed(Str(str), rest))
  {
    var s := Quote(str) + rest;
    ParseValueToken(s);
    assert s[1..] == EscapeBody(str) + "\"" + rest;
    ParseEscapeBody(str, rest);
  }

  /** `[`, whitespace, then elements. */
  lemma ParseArrayText(b: string, x: string, items: seq<Value>, rest: string)
    requires AllJsonSpace(b) && x != [] && !IsJsonSpace(x[0]) && x[0] != ']'
    requires ParseItems(x) == Some(Parsed(items, rest))
    ensures ParseValue("[" + (b + x)) == Some(Parsed(Arr(items), rest))
  {
    var s := "[" + (b + x);
    ParseValueToken(s);
    assert s[1..] == b + x;
    SkipSpaceSkips(b, x);
    assert SkipSpace(x) == x;
    assert ParseArray(b + x) == Some(Parsed(Arr(items), rest));
  }

  /** `{`, whitespace, then members. */
  lemma ParseObjectText(b: string, x: string, ms: seq<Member>, rest: string)
    requires AllJsonSpace(b) && x != [] && x[0] == '"'
    requires ParseMembers(x) == Some(Parsed(ms, rest))
    requires UniqueKeys(ms)
    ensures ParseValue("{" + (b + x)) == Some(Parsed(Obj(ms), rest))
  {
    var s := "{" + (b + x);
    ParseValueToken(s);
    assert s[1..] == b + x;
    SkipSpaceSkips(b, x);
    assert SkipSpace(x) == x;
    assert [] + ms == ms;
    FromMembersUnique([], ms);
    assert ParseObject(b + x) == Some(Parsed(Obj(ms), rest));
  }

  /** An empty array, `[]`. */
  lemma ParseEmptyArrayText(rest: string)
    ensures ParseValue("[]" + rest) == Some(Parsed(Arr([]), rest))
  {
    var s := "[]" + rest;
    ParseValueToken(s);
    var u := s[1..];
    assert u == "]" + rest;
    assert SkipSpace(u) == u && u[0] == ']' && u[1..] == rest;
    assert ParseArray(u) == Some(Parsed(Arr([]), rest));
  }

  /** An empty object, `{}`. */
  lemma ParseEmptyObjectText(rest: string)
    ensures ParseValue("{}" + rest) == Some(Parsed(Obj([]), rest))
  {
    var s := "{}" + rest;
    ParseValueToken(s);
    var u := s[1..];
    assert u == "}" + rest;
    assert SkipSpace(u) == u && u[0] == '}' && u[1..] == rest;
    assert ParseObject(u) == Some(Parsed(Obj([]), rest));
  }

  /** Whitespace and `]` after the last element. */
  lemma ParseAfterLastItem(v: Value, w: string, rest: string)
    requires AllJsonSpace(w)
    ensures ParseAfterItem(v, w + ("]" + rest)) == Some(Parsed([v], rest))
  {
    var t := "]" + rest;
    SkipSpaceSkips(w, t);
    assert SkipSpace(t) == t && t[0] == ']' && t[1..] == rest;
  }

  /** `,`, whitespace and more elements after an element. */
  lemma ParseAfterItemComma(v: Value, b: string, more: string, vs: seq<Value>, rest: string)
    requires AllJsonSpace(b)
    requires ParseItems(more) == Some(Parsed(vs, rest))
    ensures ParseAfterItem(v, "," + (b + more)) == Some(Parsed([v] + vs, rest))
  {
    var after := "," + (b + more);
    assert SkipSpace(after) == after && after[0] == ',';
    assert after[1..] == b + more;
    ParseSkipsSpace(b, more);
  }

  /** An element: the value, then what follows it. */
  lemma ParseItemsStep(x: string, v: Value, after: string)
    requires ParseValue(x) == Some(Parsed(v, after))
    ensures ParseItems(x) == ParseAfterItem(v, after)
  {
  }

  /** A member: its key, `:` and whitespace, then the value and what follows it. */
  lemma ParseMemberStep(k: string, colon: string, y: string, v: Value, after: string)
    requires AllJsonSpace(colon)
    requires ParseValue(y) == Some(Parsed(v, after))
    ensures ParseMembers(Quote(k) + (":" + (colon + y))) == ParseAfterMember(Member(k, v), after)
  {
    var tail := ":" + (colon + y);
    ParseQuotedKey(k, tail);
    ParseAfterColon(k, colon, y, v, after);
  }

  /** A quoted key at the start of the members reads back as that key. */
  lemma ParseQuotedKey(k: string, tail: string)
    ensures ParseMembers(Quote(k) + tail) == ParseAfterKey(k, tail)
  {
    var s := Quote(k) + tail;
    assert SkipSpace(s) == s && s[0] == '"';
    assert s[1..] == EscapeBody(k) + "\"" + tail;
    ParseEscapeBody(k, tail);
  }

  /** `:` and whitespace after a key, then the value. */
  lemma ParseAfterColon(k: string, colon: string, y: string, v: Value, after: string)
    requires AllJsonSpace(colon)
    requires ParseValue(y) == Some(Parsed(v, after))
    ensures ParseAfterKey(k, ":" + (colon + y)) == ParseAfterMember(Member(k, v), after)
  {
    var tail := ":" + (colon + y);
    assert SkipSpace(tail) == tail && tail[0] == ':' && tail[1..] == colon + y;
    ParseSkipsSpace(colon, y);
  }

  /** Whitespace and `}` after the last member. */
  lemma ParseAfterLastMember(m: Member, w: string, rest: string)
    requires AllJsonSpace(w)
    ensures ParseAfterMember(m, w + ("}" + rest)) == Some(Parsed([m], rest))
  {
    var t := "}" + rest;
    SkipSpaceSkips(w, t);
    assert SkipSpace(t) == t && t[0] == '}' && t[1..] == rest;
  }

  /** `,`, whitespace and more members after a member. */
  lemma ParseAfterMemberComma(m: Member, b: string, more: string, ms: seq<Member>, rest: string)
    requires AllJsonSpace(b) && more != [] && more[0] == '"'
    requires ParseMembers(more) == Some(Parsed(ms, rest))
    ensures ParseAfterMember(m, "," + (b + more)) == Some(Parsed([m] + ms, rest))
  {
    var after := "," + (b + more);
    assert SkipSpace(after) == after && after[0] == ',';
    assert after[1..] == b + more;
    SkipSpaceSkips(b, more);
    assert SkipSpace(more) == more;
    assert ParseMembers(b + more) == ParseMembers(more);
  }

  // How the writer lays out arrays and objects.

  /** A non-empty array's text as its opening, first break, elements and closing. */
  lemma ArrayText(items: seq<Value>, gap: string, indent: string, rest: string)
    requires items != []
    ensures Stringify(Arr(items), gap, indent) + rest
         == "[" + (Break(gap, indent + gap)
            + (StringifyItems(items, gap, indent + gap) + (Break(gap, indent) + ("]" + rest))))
  {
    Regroup("[", Break(gap, indent + gap), StringifyItems(items, gap, indent + gap), Break(gap, indent), "]", rest);
  }

  /** A non-empty object's text as its opening, first break, members and closing. */
  lemma ObjectText(ms: seq<Member>, gap: string, indent: string, rest: string)
    requires ms != []
    ensures Stringify(Obj(ms), gap, indent) + rest
         == "{" + (Break(gap, indent + gap)
            + (StringifyMembers(ms, gap, indent + gap) + (Break(gap, indent) + ("}" + rest))))
  {
    Regroup("{", Break(gap, indent + gap), StringifyMembers(ms, gap, indent + gap), Break(gap, indent), "}", rest);
  }

  /** Text built left to right, regrouped to the right. */
  lemma Regroup(a: string, b: string, c: string, d: string, e: string, rest: string)
    ensures a + b + c + d + e + rest == a + (b + (c + (d + (e + rest))))
  {
  }

  /** The elements' text as the first element and what follows it. */
  lemma ItemsText(items: seq<Value>, gap: string, indent: string, suffix: string)
    requires |items| > 0
    ensures StringifyItems(items, gap, indent) + suffix
         == Stringify(items[0], gap, indent)
            + (if |items| == 1 then suffix
               else "," + (Break(gap, indent) + (StringifyItems(items[1..], gap, indent) + suffix)))
  {
  }

  /** The members' text as the first key, the colon, the first value and what follows. */
  lemma MembersText(ms: seq<Member>, gap: string, indent: string, suffix: string)
    requires |ms| > 0
    ensures StringifyMembers(ms, gap, indent) + suffix
         == Quote(ms[0].key) + (":" + ((if gap == "" then "" else " ")
            + (Stringify(ms[0].value, gap, indent)
               + (if |ms| == 1 then suffix
                  else "," + (Break(gap, indent) + (StringifyMembers(ms[1..], gap, indent) + suffix))))))
  {
    var colon := if gap == "" then "" else " ";
    var q, v := Quote(ms[0].key), Stringify(ms[0].value, gap, indent);
    if |ms| == 1 {
      assert StringifyMembers(ms, gap, indent) == (((q + ":") + colon) + v) + "";
      Reassoc5(q, ":", colon, v, suffix);
    } else {
      var b, more := Break(gap, indent), StringifyMembers(ms[1..], gap, indent);
      assert StringifyMembers(ms, gap, indent) == (((q + ":") + colon) + v) + (("," + b) + more);
      Reassoc8(q, ":", colon, v, ",", b, more, suffix);
    }
  }

  lemma Reassoc5(a: string, b: string, c: string, d: string, s: string)
    ensures ((((a + b) + c) + d) + "") + s == a + (b + (c + (d + s)))
  {
    assert (((a + b) + c) + d) + "" == ((a + b) + c) + d;
  }

  lemma Reassoc8(a: string, b: string, c: string, d: string, e: string, f: string, g: string, s: string)
    ensures ((((a + b) + c) + d) + ((e + f) + g)) + s == a + (b + (c + (d + (e + (f + (g + s))))))
  {
  }

  // The round trip, by induction over the value.

  /** Every well-formed value is read back from its serialisation. */
  lemma {:induction false} ParseStringify(v: Value, gap: string, indent: string, rest: string)
    requires WellFormed(v) && AllSpaces(gap) && AllSpaces(indent) && Delimited(rest)
    ensures ParseValue(Stringify(v, gap, indent) + rest) == Some(Parsed(v, rest))
    decreases v, 2
  {
    match v
    case Null => ParseNullText(rest);
    case Bool(b) => ParseBoolText(b, rest);
    case Num(n) => ParseNumText(n, rest);
    case Str(str) => ParseStrText(str, rest);
    case Arr(items) =>
      if items == [] {
        ParseEmptyArrayText(rest);
      } else {
        ParseArrayStringify(items, gap, indent, rest);
      }
    case Obj(ms) =>
      if ms == [] {
        ParseEmptyObjectText(rest);
      } else {
        ParseObjectStringify(ms, gap, indent, rest);
      }
  }

  lemma {:induction false} ParseArrayStringify(items: seq<Value>, gap: string, indent: string,
                                               rest: string)
    requires items != [] && WellFormed(Arr(items))
    requires AllSpaces(gap) && AllSpaces(indent) && Delimited(rest)
    ensures ParseValue(Stringify(Arr(items), gap, indent) + rest) == Some(Parsed(Arr(items), rest))
    decreases items, 3
  {
    var inner := indent + gap;
    var b1, b0 := Break(gap, inner), Break(gap, indent);
    var body := StringifyItems(items, gap, inner);
    var x := body + (b0 + ("]" + rest));
    BreakIsSpace(gap, inner);
    BreakIsSpace(gap, indent);
    FirstCharItems(items, gap, inner);
    ArrayText(items, gap, indent, rest);
    ParseItemsStringify(items, gap, inner, b0, rest);
    assert x[0] == body[0];
    ParseArrayText(b1, x, items, rest);
  }

  lemma {:induction false} ParseObjectStringify(ms: seq<Member>, gap: string, indent: string,
                                                rest: string)
    requires ms != [] && WellFormed(Obj(ms))
    requires AllSpaces(gap) && AllSpaces(indent) && Delimited(rest)
    ensures ParseValue(Stringify(Obj(ms), gap, indent) + rest) == Some(Parsed(Obj(ms), rest))
    decreases ms, 3
  {
    var inner := indent + gap;
    var b1, b0 := Break(gap, inner), Break(gap, indent);
    var body := StringifyMembers(ms, gap, inner);
    var x := body + (b0 + ("}" + rest));
    BreakIsSpace(gap, inner);
    BreakIsSpace(gap, indent);
    ObjectText(ms, gap, indent, rest);
    ParseMembersStringify(ms, gap, inner, b0, rest);
    assert x[0] == '"' by {
      MembersText(ms, gap, inner, b0 + ("}" + rest));
    }
    ParseObjectText(b1, x, ms, rest);
  }

  lemma {:induction false} ParseItemsStringify(items: seq<Value>, gap: string, indent: string,
                                               w: string, rest: string)
    requires |items| > 0
    requires forall i :: 0 <= i < |items| ==> WellFormed(items[i])
    requires AllSpaces(gap) && AllSpaces(indent) && AllJsonSpace(w)
    ensures ParseItems(StringifyItems(items, gap, indent) + (w + ("]" + rest)))
         == Some(Parsed(items, rest))
    decreases items, 2
  {
    if |items| == 1 {
      ParseLastItemStringify(items, gap, indent, w, rest);
    } else {
      ParseItemConsStringify(items, gap, indent, w, rest);
    }
  }

  lemma {:induction false} ParseLastItemStringify(items: seq<Value>, gap: string, indent: string,
                                                  w: string, rest: string)
    requires |items| == 1 && WellFormed(items[0])
    requires AllSpaces(gap) && AllSpaces(indent) && AllJsonSpace(w)
    ensures ParseItems(StringifyItems(items, gap, indent) + (w + ("]" + rest)))
         == Some(Parsed(items, rest))
    decreases items, 0
  {
    var close := w + ("]" + rest);
    assert StringifyItems(items, gap, indent) + close == Stringify(items[0], gap, indent) + close by {
      ItemsText(items, gap, indent, close);
    }
    ParseStringify(items[0], gap, indent, close);
    ParseItemsStep(Stringify(items[0], gap, indent) + close, items[0], close);
    ParseAfterLastItem(items[0], w, rest);
    assert [items[0]] == items;
  }

  lemma {:induction false} ParseItemConsStringify(items: seq<Value>, gap: string, indent: string,
                                                  w: string, rest: string)
    requires |items| > 1
    requires forall i :: 0 <= i < |items| ==> WellFormed(items[i])
    requires AllSpaces(gap) && AllSpaces(indent) && AllJsonSpace(w)
    ensures ParseItems(StringifyItems(items, gap, indent) + (w + ("]" + rest)))
         == Some(Parsed(items, rest))
    decreases items, 1
  {
    var close := w + ("]" + rest);
    var after := "," + (Break(gap, indent) + (StringifyItems(items[1..], gap, indent) + close));
    assert StringifyItems(items, gap, indent) + close == Stringify(items[0], gap, indent) + after by {
      ItemsText(items, gap, indent, close);
    }
    ParseStringify(items[0], gap, indent, after);
    ParseItemsStep(Stringify(items[0], gap, indent) + after, items[0], after);
    ParseItemsAfterFirst(items, gap, indent, w, rest);
  }

  /** After the first element: `,`, the break, and the other elements read back. */
  lemma {:induction false} ParseItemsAfterFirst(items: seq<Value>, gap: string, indent: string,
                                                w: string, rest: string)
    requires |items| > 1
    requires forall i :: 0 <= i < |items| ==> WellFormed(items[i])
    requires AllSpaces(gap) && AllSpaces(indent) && AllJsonSpace(w)
    ensures ParseAfterItem(items[0], "," + (Break(gap, indent) + (StringifyItems(items[1..], gap, indent) + (w + ("]" + rest)))))
         == Some(Parsed(items, rest))
    decreases items, 0
  {
    var b := Break(gap, indent);
    var more := StringifyItems(items[1..], gap, indent) + (w + ("]" + rest));
    BreakIsSpace(gap, indent);
    ParseItemsStringify(items[1..], gap, indent, w, rest);
    ParseAfterItemComma(items[0], b, more, items[1..], rest);
    assert [items[0]] + items[1..] == items;
  }

  lemma {:induction false} ParseMembersStringify(ms: seq<Member>, gap: string, indent: string,
                                                 w: string, rest: string)
    requires |ms| > 0
    requires forall i :: 0 <= i < |ms| ==> WellFormed(ms[i].value)
    requires AllSpaces(gap) && AllSpaces(indent) && AllJsonSpace(w)
    ensures ParseMembers(StringifyMembers(ms, gap, indent) + (w + ("}" + rest)))
         == Some(Parsed(ms, rest))
    decreases ms, 2
  {
    if |ms| == 1 {
      ParseLastMemberStringify(ms, gap, indent, w, rest);
    } else {
      ParseMemberConsStringify(ms, gap, indent, w, rest);
    }
  }

  lemma {:induction false} ParseLastMemberStringify(ms: seq<Member>, gap: string, indent: string,
                                                    w: string, rest: string)
    requires |ms| == 1 && WellFormed(ms[0].value)
    requires AllSpaces(gap) && AllSpaces(indent) && AllJsonSpace(w)
    ensures ParseMembers(StringifyMembers(ms, gap, indent) + (w + ("}" + rest)))
         == Some(Parsed(ms, rest))
    decreases ms, 0
  {
    var m := ms[0];
    var colon := if gap == "" then "" else " ";
    var close := w + ("}" + rest);
    var y := Stringify(m.value, gap, indent) + close;
    assert StringifyMembers(ms, gap, indent) + close == Quote(m.key) + (":" + (colon + y)) by {
      MembersText(ms, gap, indent, close);
    }
    ParseStringify(m.value, gap, indent, close);
    ParseMemberStep(m.key, colon, y, m.value, close);
    ParseAfterLastMember(Member(m.key, m.value), w, rest);
    assert [Member(m.key, m.value)] == ms;
  }

  lemma {:induction false} ParseMemberConsStringify(ms: seq<Member>, gap: string, indent: string,
                                                    w: string, rest: string)
    requires |ms| > 1
    requires forall i :: 0 <= i < |ms| ==> WellFormed(ms[i].value)
    requires AllSpaces(gap) && AllSpaces(indent) && AllJsonSpace(w)
    ensures ParseMembers(StringifyMembers(ms, gap, indent) + (w + ("}" + rest)))
         == Some(Parsed(ms, rest))
    decreases ms, 1
  {
    var m := ms[0];
    var colon := if gap == "" then "" else " ";
    var close := w + ("}" + rest);
    var after := "," + (Break(gap, indent) + (StringifyMembers(ms[1..], gap, indent) + close));
    var y := Stringify(m.value, gap, indent) + after;
    assert StringifyMembers(ms, gap, indent) + close == Quote(m.key) + (":" + (colon + y)) by {
      MembersText(ms, gap, indent, close);
    }
    ParseStringify(m.value, gap, indent, after);
    ParseMemberStep(m.key, colon, y, m.value, after);
    ParseMembersAfterFirst(ms, gap, indent, w, rest);
  }

  /** After the first member: `,`, the break, and the other members read back. */
  lemma {:induction false} ParseMembersAfterFirst(ms: seq<Member>, gap: string, indent: string,
                                                  w: string, rest: string)
    requires |ms| > 1
    requires forall i :: 0 <= i < |ms| ==> WellFormed(ms[i].value)
    requires AllSpaces(gap) && AllSpaces(indent) && AllJsonSpace(w)
    ensures ParseAfterMember(ms[0], "," + (Break(gap, indent) + (StringifyMembers(ms[1..], gap, indent) + (w + ("}" + rest)))))
         == Some(Parsed(ms, rest))
    decreases ms, 0
  {
    var close := w + ("}" + rest);
    var b := Break(gap, indent);
    var more := StringifyMembers(ms[1..], gap, indent) + close;
    BreakIsSpace(gap, indent);
    ParseMembersStringify(ms[1..], gap, indent, w, rest);
    assert more[0] == '"' by {
      MembersText(ms[1..], gap, indent, close);
    }
    ParseAfterMemberComma(ms[0], b, more, ms[1..], rest);
    assert [ms[0]] + ms[1..] == ms;
  }

  /**
   * `JSON.parse(JSON.stringify(v, null, gap) + w)` is `v` for every
   * well-formed `v`, every gap of spaces and trailing whitespace `w`.
   */
  lemma ParseStringifyText(v: Value, gap: string, w: string)
    requires WellFormed(v) && AllSpaces(gap) && AllJsonSpace(w)
    ensures Parse(Stringify(v, gap, "") + w) == Some(v)
  {
    ParseStringify(v, gap, "", w);
    SkipSpaceSkips(w, "");
    assert w + "" == w;
  }

  /** A pretty-printed value followed by a newline, as files are written, reads back as the value. */
  lemma ParsePrettyLine(v: Value)
    requires WellFormed(v)
    ensures Parse(Pretty(v) + "\n") == Some(v)
  {
    ParseStringifyText(v, "  ", "\n");
  }
}
