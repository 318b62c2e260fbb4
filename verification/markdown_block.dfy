/**
 * The metadata comment at the head of a managed markdown file, as
 * update-system-metadata.ts reads it (MARKDOWN_METADATA_REGEX and
 * `removeMarkdownMetadataBlock`) and writes it (`formatMarkdownMetadata`
 * and the assembly of the next content).
 *
 * The regular expression `^<!--\s*metadata:\s*(\{[\s\S]*?\})\s*-->\s*\n*`
 * with the `i` flag is matched here without backtracking: each greedy `\s*`
 * is followed by a character that is not whitespace, so only its longest
 * run can succeed; the lazy `[\s\S]*?` stops at the first `}` that is
 * followed by whitespace and `-->`; the final `\s*\n*` takes the whole
 * whitespace run after `-->`.
 */
module MarkdownBlock {
  import opened Wrappers
  import opened Text
  import opened JsonValue
  import opened JsonText
  import opened JsonRoundTrip
  import opened JsonParsed

  // ---------------------------------------------------------------------
  // Reading the block
  // ---------------------------------------------------------------------

  /** Where the run of `\s` characters starting at `i` ends. */
  function SkipJsSpace(c: string, i: nat): (r: nat)
    requires i <= |c|
    ensures i <= r <= |c|
    decreases |c| - i
  {
    if i < |c| && IsJsSpace(c[i]) then SkipJsSpace(c, i + 1) else i
  }

  /** The run skipped is all whitespace, and what follows it is not. */
  lemma {:induction false} SkipJsSpaceStops(c: string, i: nat)
    requires i <= |c|
    ensures forall k :: i <= k < SkipJsSpace(c, i) ==> IsJsSpace(c[k])
    ensures SkipJsSpace(c, i) == |c| || !IsJsSpace(c[SkipJsSpace(c, i)])
    decreases |c| - i
  {
    if i < |c| && IsJsSpace(c[i]) {
      SkipJsSpaceStops(c, i + 1);
    }
  }

  /** `c` holds the lower-case ASCII text `p` at `i`, letters compared without case. */
  predicate HasIgnoringCase(c: string, i: nat, p: string) {
    i + |p| <= |c| && forall k :: 0 <= k < |p| ==> AsciiLower(c[i + k]) == p[k]
  }

  /** `c` holds `-->` at `i`. */
  predicate HasCommentEnd(c: string, i: nat) {
    i + 3 <= |c| && c[i] == '-' && c[i + 1] == '-' && c[i + 2] == '>'
  }

  /** The `}` at `j` ends the captured object: whitespace and `-->` follow it. */
  predicate ClosesAt(c: string, j: nat) {
    j < |c| && c[j] == '}' && HasCommentEnd(c, SkipJsSpace(c, j + 1))
  }

  /** Where the lazy `[\s\S]*?\}` stops: the first closing `}` at or after `from`. */
  function FindClose(c: string, from: nat): (r: Option<nat>)
    ensures r.Some? ==> from <= r.value && ClosesAt(c, r.value)
    decreases |c| - from
  {
    if from >= |c| then None
    else if ClosesAt(c, from) then Some(from)
    else FindClose(c, from + 1)
  }

  /** The `}` found is the first that closes; without one, none does. */
  lemma {:induction false} FindCloseFirst(c: string, from: nat)
    ensures FindClose(c, from).Some? ==> forall k :: from <= k < FindClose(c, from).value ==> !ClosesAt(c, k)
    ensures FindClose(c, from).None? ==> forall k :: from <= k < |c| ==> !ClosesAt(c, k)
    decreases |c| - from
  {
    if from < |c| && !ClosesAt(c, from) {
      FindCloseFirst(c, from + 1);
    }
  }

  /** `j` is the first position at or after `from` where a `}` closes the capture. */
  predicate FirstClose(c: string, from: nat, j: nat) {
    from <= j && ClosesAt(c, j) && forall k :: from <= k < j ==> !ClosesAt(c, k)
  }

  lemma FindCloseFirstClose(c: string, from: nat)
    ensures FindClose(c, from).Some? ==> FirstClose(c, from, FindClose(c, from).value)
  {
    FindCloseFirst(c, from);
  }

  /** A match of the block: the captured object text and the length of the whole match. */
  datatype CommentMatch = CommentMatch(capture: string, length: nat)

  /** Where the captured object starts, if the text up to its `{` matches. */
  function CaptureStart(c: string): (r: Option<nat>)
    ensures r.Some? ==> r.value < |c| && c[r.value] == '{'
  {
    if !StartsWith(c, "<!--") then None
    else
      var p1 := SkipJsSpace(c, 4);
      if !HasIgnoringCase(c, p1, "metadata:") then None
      else
        var p3 := SkipJsSpace(c, p1 + 9);
        if p3 < |c| && c[p3] == '{' then Some(p3) else None
  }

  /** `content.match(MARKDOWN_METADATA_REGEX)` */
  function MatchComment(c: string): (r: Option<CommentMatch>)
    ensures r.Some? ==> r.value.length <= |c|
    ensures r.Some? ==> |r.value.capture| > 0 && r.value.capture[0] == '{'
  {
    match CaptureStart(c)
    case None => None
    case Some(p3) =>
      match FindClose(c, p3 + 1)
      case None => None
      case Some(j) =>
        var e := SkipJsSpace(c, j + 1) + 3;
        Some(CommentMatch(c[p3..j + 1], SkipJsSpace(c, e)))
  }

  /** The file split into its metadata (if it has a block) and the rest. */
  datatype Block = Block(metadata: Option<Value>, body: string)

  /** The block's object text is not valid JSON. */
  datatype BlockError = InvalidMetadataJson

  /** `removeMarkdownMetadataBlock(content)` */
  function RemoveMetadataBlock(c: string): (r: Result<Block, BlockError>)
    ensures r.Ok? && r.value.metadata.None? ==> r.value.body == c
    ensures r.Ok? ==> |r.value.body| <= |c|
  {
    match MatchComment(c)
    case None => Ok(Block(None, c))
    case Some(m) =>
      match Parse(m.capture)
      case None => Err(InvalidMetadataJson)
      case Some(v) => Ok(Block(Some(v), c[m.length..]))
  }

  /** `c[i..j]` is all whitespace: a run a `\s*` can consume. */
  predicate JsSpaceRun(c: string, i: nat, j: nat) {
    i <= j <= |c| && forall k :: i <= k < j ==> IsJsSpace(c[k])
  }

  /** `^<!--\s*metadata:\s*` matches up to a `{` at `p3`, with `metadata:` at `p1`. */
  predicate OpensAt(c: string, p1: nat, p3: nat) {
    && StartsWith(c, "<!--") && JsSpaceRun(c, 4, p1)
    && HasIgnoringCase(c, p1, "metadata:") && JsSpaceRun(c, p1 + 9, p3)
    && p3 < |c| && c[p3] == '{'
  }

  /**
   * `\s*-->\s*\n*` after the `}` at `j`: whitespace up to `mid`, `-->`
   * there, and whitespace up to `end`, where the run stops.
   */
  predicate CommentEnd(c: string, j: nat, mid: nat, end: nat) {
    && JsSpaceRun(c, j + 1, mid) && HasCommentEnd(c, mid)
    && JsSpaceRun(c, mid + 3, end) && (end == |c| || !IsJsSpace(c[end]))
  }

  /** The capture starts at `p3` exactly when the opening of the pattern matches up to a `{` there. */
  lemma CaptureStartSpec(c: string, p3: nat)
    ensures CaptureStart(c) == Some(p3) <==> exists p1 :: OpensAt(c, p1, p3)
  {
    if CaptureStart(c) == Some(p3) {
      var p1 := SkipJsSpace(c, 4);
      SkipJsSpaceStops(c, 4);
      SkipJsSpaceStops(c, p1 + 9);
      assert OpensAt(c, p1, p3);
    }
    if p1: nat :| OpensAt(c, p1, p3) {
      assert AsciiLower(c[p1 + 0]) == "metadata:"[0];
      SkipTo(c, 4, p1);
      SkipTo(c, p1 + 9, p3);
    }
  }

  /**
   * What a match found from the capture start `start` and the `}` at `j`
   * holds: `j` is the first closing `}` after the `{`, the capture runs
   * from the `{` to that `}`, and the match ends where the whitespace after
   * `-->` ends.
   */
  predicate MatchedAt(c: string, start: nat, j: nat, m: CommentMatch) {
    && FirstClose(c, start + 1, j)
    && start <= j < |c|
    && m.capture == c[start..j + 1]
    && CommentEnd(c, j, SkipJsSpace(c, j + 1), m.length)
  }

  /**
   * The pattern matches exactly when its opening does and a `}` after the
   * `{` is followed by whitespace and `-->`; the match is then the one
   * `MatchedAt` describes at the first such `}`.
   */
  lemma MatchCommentSpec(c: string)
    ensures MatchComment(c).Some? <==>
      CaptureStart(c).Some? && exists j :: CaptureStart(c).value < j && ClosesAt(c, j)
    ensures MatchComment(c).Some? ==>
      var start := CaptureStart(c).value;
      MatchedAt(c, start, FindClose(c, start + 1).value, MatchComment(c).value)
  {
    match CaptureStart(c)
    case None =>
    case Some(start) =>
      match FindClose(c, start + 1)
      case None =>
        FindCloseFirst(c, start + 1);
        assert MatchComment(c).None?;
      case Some(j) =>
        MatchCommentAt(c, start, j);
  }

  /** The match once the capture's start and its closing `}` are known. */
  lemma MatchCommentAt(c: string, start: nat, j: nat)
    requires CaptureStart(c) == Some(start) && FindClose(c, start + 1) == Some(j)
    ensures MatchComment(c).Some? && MatchedAt(c, start, j, MatchComment(c).value)
  {
    var mid := SkipJsSpace(c, j + 1);
    var end := SkipJsSpace(c, mid + 3);
    FindCloseFirstClose(c, start + 1);
    var m := CommentMatch(c[start..j + 1], end);
    MatchedAtClose(c, start, j, m);
    MatchParts(c, m.capture, start, j, mid, end);
  }

  /** A first closing `}` at `j` and the capture up to it make the match `MatchedAt` describes. */
  lemma MatchedAtClose(c: string, start: nat, j: nat, m: CommentMatch)
    requires FirstClose(c, start + 1, j)
    requires m.capture == c[start..j + 1]
    requires m.length == SkipJsSpace(c, SkipJsSpace(c, j + 1) + 3)
    ensures MatchedAt(c, start, j, m)
  {
    CommentEndRuns(c, j);
  }

  /** After a closing `}`: a whitespace run, `-->`, and a whitespace run that ends the match. */
  lemma CommentEndRuns(c: string, j: nat)
    requires ClosesAt(c, j)
    ensures var mid := SkipJsSpace(c, j + 1);
      CommentEnd(c, j, mid, SkipJsSpace(c, mid + 3))
  {
    SkipJsSpaceRun(c, j + 1);
    SkipJsSpaceRun(c, SkipJsSpace(c, j + 1) + 3);
  }

  /** What `SkipJsSpace` skips is a whitespace run that nothing but its end stops. */
  lemma SkipJsSpaceRun(c: string, i: nat)
    requires i <= |c|
    ensures JsSpaceRun(c, i, SkipJsSpace(c, i))
    ensures SkipJsSpace(c, i) == |c| || !IsJsSpace(c[SkipJsSpace(c, i)])
  {
    SkipJsSpaceStops(c, i);
  }

  /**
   * Without a match the whole text is the body. With one, an object text
   * JSON cannot read is the error; otherwise the metadata is what JSON
   * reads and the body is the text after the match, which never starts
   * with whitespace.
   */
  lemma RemoveMetadataBlockSpec(c: string)
    ensures MatchComment(c).None? ==> RemoveMetadataBlock(c) == Ok(Block(None, c))
    ensures MatchComment(c).Some? ==>
      var m := MatchComment(c).value;
      && (RemoveMetadataBlock(c).Err? <==> Parse(m.capture).None?)
      && (Parse(m.capture).Some? ==> RemoveMetadataBlock(c) == Ok(Block(Parse(m.capture), c[m.length..])))
    ensures var r := RemoveMetadataBlock(c);
      r.Ok? && r.value.metadata.Some? ==> r.value.body == [] || !IsJsSpace(r.value.body[0])
  {
    if MatchComment(c).Some? {
      MatchCommentSpec(c);
      var m := MatchComment(c).value;
      if m.length < |c| {
        assert c[m.length..][0] == c[m.length];
      }
    }
  }

  /** Text starting with `{` that JSON reads is an object. */
  lemma ParseBraceIsObject(t: string)
    requires t != [] && t[0] == '{'
    ensures Parse(t).Some? ==> Parse(t).value.Obj?
  {
    assert SkipSpace(t) == t;
    assert ParseValue(t) == ParseObject(t[1..]);
  }

  /**
   * The metadata a block yields is always a well-formed object, so spreading
   * it copies its properties.
   */
  lemma BlockMetadataIsObject(c: string)
    ensures var r := RemoveMetadataBlock(c);
      r.Ok? && r.value.metadata.Some? ==>
        r.value.metadata.value.Obj? && WellFormed(r.value.metadata.value)
  {
    var m := MatchComment(c);
    if m.Some? {
      ParseBraceIsObject(m.value.capture);
      ParseWellFormed(m.value.capture);
    }
  }

  // ---------------------------------------------------------------------
  // Writing the block
  // ---------------------------------------------------------------------

  /** `formatMarkdownMetadata(metadata)` */
  function FormatMetadata(ms: seq<Member>): string {
    "<!-- metadata: " + Pretty(Obj(ms)) + " -->\n\n"
  }

  /** The next content of a markdown file: the block, a blank line, the body without leading whitespace. */
  function Compose(ms: seq<Member>, body: string): (r: string)
    ensures StartsWith(r, FormatMetadata(ms))
    ensures r[|r| - 1] == '\n'
  {
    var content := TrimStart(body);
    var head := FormatMetadata(ms);
    var r := EnsureTrailingNewline(head + (Prefix(content) + content));
    StartsWithFront(r, head, Prefix(content) + content);
    r
  }

  /** The body as the next run reads it back: leading whitespace gone, a final newline added. */
  function NormalBody(body: string): (r: string)
    ensures r == [] || !IsJsSpace(r[0])
  {
    var content := TrimStart(body);
    if content == [] then [] else EnsureTrailingNewline(content)
  }

  lemma NormalBodyIdempotent(body: string)
    ensures NormalBody(NormalBody(body)) == NormalBody(body)
  {
  }

  // ---------------------------------------------------------------------
  // No `>` in the metadata, so nothing in it can end the comment
  // ---------------------------------------------------------------------

  /** No key or string anywhere in `v` holds a `>`. */
  ghost predicate NoGt(v: Value)
    decreases v
  {
    match v
    case Str(s) => '>' !in s
    case Arr(items) => forall i :: 0 <= i < |items| ==> NoGt(items[i])
    case Obj(ms) => forall i :: 0 <= i < |ms| ==> '>' !in ms[i].key && NoGt(ms[i].value)
    case _ => true
  }

  lemma {:induction false} DecimalNoGt(n: nat)
    ensures '>' !in NatToDecimal(n)
    decreases n
  {
    if n >= 10 {
      DecimalNoGt(n / 10);
    }
  }

  lemma {:induction false} EscapeNoGt(s: string)
    requires '>' !in s
    ensures '>' !in EscapeBody(s)
    decreases |s|
  {
    if s != [] {
      assert s[0] in s;
      EscapeNoGt(s[1..]);
    }
  }

  lemma {:induction false} StringifyNoGt(v: Value, gap: string, indent: string)
    requires NoGt(v) && '>' !in gap && '>' !in indent
    ensures '>' !in Stringify(v, gap, indent)
    decreases v, 1
  {
    match v
    case Num(n) =>
      DecimalNoGt(if n < 0 then -n else n);
    case Str(s) =>
      EscapeNoGt(s);
    case Arr(items) =>
      if items != [] {
        ItemsNoGt(items, gap, indent + gap);
        EnclosedNoGt("[", StringifyItems(items, gap, indent + gap), "]", gap, indent);
      }
    case Obj(ms) =>
      if ms != [] {
        MembersNoGt(ms, gap, indent + gap);
        EnclosedNoGt("{", StringifyMembers(ms, gap, indent + gap), "}", gap, indent);
      }
    case _ =>
  }

  /** Brackets and line breaks around `>`-free text add no `>`. */
  lemma EnclosedNoGt(open: string, inner: string, close: string, gap: string, indent: string)
    requires '>' !in open && '>' !in inner && '>' !in close && '>' !in gap && '>' !in indent
    ensures '>' !in open + Break(gap, indent + gap) + inner + Break(gap, indent) + close
  {
  }

  lemma {:induction false} ItemsNoGt(items: seq<Value>, gap: string, indent: string)
    requires |items| > 0 && NoGt(Arr(items)) && '>' !in gap && '>' !in indent
    ensures '>' !in StringifyItems(items, gap, indent)
    decreases items, 0
  {
    StringifyNoGt(items[0], gap, indent);
    if |items| > 1 {
      ItemsNoGt(items[1..], gap, indent);
    }
  }

  lemma {:induction false} MembersNoGt(ms: seq<Member>, gap: string, indent: string)
    requires |ms| > 0 && NoGt(Obj(ms)) && '>' !in gap && '>' !in indent
    ensures '>' !in StringifyMembers(ms, gap, indent)
    decreases ms, 0
  {
    EscapeNoGt(ms[0].key);
    StringifyNoGt(ms[0].value, gap, indent);
    if |ms| > 1 {
      MembersNoGt(ms[1..], gap, indent);
    }
  }

  /** Assigning a `>`-free value to a `>`-free key keeps an object `>`-free. */
  lemma PutNoGt(ms: seq<Member>, k: string, v: Value)
    requires NoGt(Obj(ms)) && '>' !in k && NoGt(v)
    ensures NoGt(Obj(Put(ms, k, v)))
  {
    PutPreserves(ms, k, v);
    var r := Put(ms, k, v);
    forall i | 0 <= i < |r| ensures '>' !in r[i].key && NoGt(r[i].value) {
      assert r[i] in r;
    }
  }

  // ---------------------------------------------------------------------
  // Reading back what was written
  // ---------------------------------------------------------------------

  /** The whitespace run at `i` ends at `m`. */
  lemma {:induction false} SkipTo(c: string, i: nat, m: nat)
    requires i <= m <= |c|
    requires forall k :: i <= k < m ==> IsJsSpace(c[k])
    requires m == |c| || !IsJsSpace(c[m])
    ensures SkipJsSpace(c, i) == m
    decreases m - i
  {
    if i < m {
      SkipTo(c, i + 1, m);
    }
  }

  /** The first closing position is `j` when `j` closes and nothing before it does. */
  lemma {:induction false} FindCloseIs(c: string, from: nat, j: nat)
    requires from <= j && ClosesAt(c, j)
    requires forall k :: from <= k < j ==> !ClosesAt(c, k)
    ensures FindClose(c, from) == Some(j)
    decreases j - from
  {
    if from < j {
      FindCloseIs(c, from + 1, j);
    }
  }

  /** No `}` inside the object text closes the comment, only its last character. */
  lemma OnlyLastCloses(c: string, p: string, k: nat)
    requires |p| >= 2 && '>' !in p
    requires |c| >= 15 + |p| && c[14 + |p|] == '}'
    requires forall i :: 0 <= i < |p| - 1 ==> c[15 + i] == p[i]
    requires 16 <= k < 14 + |p|
    ensures !ClosesAt(c, k)
  {
    var last := 14 + |p|;
    var q := SkipJsSpace(c, k + 1);
    SkipJsSpaceStops(c, k + 1);
    assert q <= last by {
      assert !IsJsSpace(c[last]);
    }
    if q + 2 < last {
      assert c[q + 2] == p[q + 2 - 15];
      assert p[q + 2 - 15] in p;
    }
  }

  /** The shape of a composed text: comment opening, object text, comment end, whitespace, body. */
  predicate Composed(c: string, p: string, w: string, n: string) {
    c == "<!-- metadata: " + p + (" -->" + (w + n))
  }

  lemma ComposedOpening(c: string, p: string, w: string, n: string)
    requires Composed(c, p, w, n) && |p| > 0 && p[0] == '{'
    ensures CaptureStart(c) == Some(15)
  {
    assert c[..4] == "<!--";
    SkipTo(c, 4, 5);
    assert HasIgnoringCase(c, 5, "metadata:");
    SkipTo(c, 14, 15);
  }

  lemma ComposedClose(c: string, p: string, w: string, n: string)
    requires Composed(c, p, w, n) && |p| >= 2 && p[|p| - 1] == '}' && '>' !in p
    ensures FindClose(c, 16) == Some(14 + |p|)
  {
    var last := 14 + |p|;
    assert c[last] == '}';
    assert forall i :: 0 <= i < |p| - 1 ==> c[15 + i] == p[i];
    SkipTo(c, last + 1, last + 2);
    assert ClosesAt(c, last);
    forall k: nat | 16 <= k < last ensures !ClosesAt(c, k) {
      OnlyLastCloses(c, p, k);
    }
    FindCloseIs(c, 16, last);
  }

  /** Skipping a known run of whitespace. */
  lemma SkipOver(c: string, i: nat, w: string, rest: string)
    requires i <= |c| && c[i..] == w + rest
    requires AllJsSpace(w)
    requires rest == [] || !IsJsSpace(rest[0])
    ensures SkipJsSpace(c, i) == i + |w|
  {
    forall k | i <= k < i + |w| ensures IsJsSpace(c[k]) {
      assert c[k] == c[i..][k - i] == w[k - i];
    }
    if i + |w| < |c| {
      assert c[i + |w|] == c[i..][|w|] == rest[0];
    }
    SkipTo(c, i, i + |w|);
  }

  lemma ComposedTail(c: string, p: string, w: string, n: string)
    requires Composed(c, p, w, n)
    requires AllJsSpace(w)
    requires n == [] || !IsJsSpace(n[0])
    ensures SkipJsSpace(c, 19 + |p|) == |c| - |n|
  {
    var a := "<!-- metadata: " + p;
    assert c == a + (" -->" + (w + n));
    assert c[19 + |p|..] == w + n;
    SkipOver(c, 19 + |p|, w, n);
  }

  lemma ComposedCapture(c: string, p: string, w: string, n: string)
    requires Composed(c, p, w, n)
    ensures c[15..15 + |p|] == p
  {
  }

  lemma ComposedSuffix(c: string, p: string, w: string, n: string)
    requires Composed(c, p, w, n)
    ensures |n| <= |c| && c[|c| - |n|..] == n
  {
  }

  lemma ComposedEndSkip(c: string, p: string, w: string, n: string)
    requires Composed(c, p, w, n) && |p| >= 1
    ensures SkipJsSpace(c, 15 + |p|) == 16 + |p|
  {
    SkipTo(c, 15 + |p|, 16 + |p|);
  }

  /**
   * The block removed, assembled from where the capture starts, where it
   * closes, where the whitespace after `-->` ends, and what JSON reads.
   */
  lemma RemoveParts(c: string, p: string, start: nat, close: nat, mid: nat, end: nat, v: Value)
    requires CaptureStart(c) == Some(start) && FindClose(c, start + 1) == Some(close)
    requires start <= close < |c| && c[start..close + 1] == p && Parse(p) == Some(v)
    requires SkipJsSpace(c, close + 1) == mid && mid + 3 <= |c| && SkipJsSpace(c, mid + 3) == end
    ensures RemoveMetadataBlock(c) == Ok(Block(Some(v), c[end..]))
  {
    MatchParts(c, p, start, close, mid, end);
  }

  /** The match assembled from the same positions. */
  lemma MatchParts(c: string, p: string, start: nat, close: nat, mid: nat, end: nat)
    requires CaptureStart(c) == Some(start) && FindClose(c, start + 1) == Some(close)
    requires start <= close < |c| && c[start..close + 1] == p
    requires SkipJsSpace(c, close + 1) == mid && mid + 3 <= |c| && SkipJsSpace(c, mid + 3) == end
    ensures MatchComment(c) == Some(CommentMatch(p, end))
  {
  }

  /** The whitespace `Compose` puts between `-->` and the body. */
  function Gap(body: string): string {
    if TrimStart(body) == [] then "\n\n" else "\n\n\n"
  }

  lemma GapIsSpace(body: string)
    ensures AllJsSpace(Gap(body))
  {
    var g := Gap(body);
    assert forall i :: 0 <= i < |g| ==> g[i] == '\n';
  }

  /** The line break `Compose` puts in front of a body that does not start with one. */
  function Prefix(content: string): string {
    if |content| > 0 && !StartsWith(content, "\n") then "\n" else ""
  }

  /** Appending a body that has no leading whitespace after a head that ends the line. */
  lemma AssembleParts(head: string, content: string)
    requires |head| > 0 && head[|head| - 1] == '\n'
    requires content == [] || !IsJsSpace(content[0])
    ensures EnsureTrailingNewline(head + (Prefix(content) + content))
      == head + ((if content == [] then "" else "\n")
                 + (if content == [] then [] else EnsureTrailingNewline(content)))
  {
    if content == [] {
      assert head + ("" + content) == head;
    } else {
      AssembleBody(head, content);
    }
  }

  lemma AssembleBody(head: string, content: string)
    requires content != [] && !IsJsSpace(content[0])
    ensures EnsureTrailingNewline(head + (Prefix(content) + content)) == head + ("\n" + EnsureTrailingNewline(content))
  {
    assert Prefix(content) == "\n" by {
      assert content[..1] == [content[0]];
    }
    var h := head + "\n";
    assert head + ("\n" + content) == h + content;
    assert (h + content)[|h + content| - 1] == content[|content| - 1];
  }

  /** The text `Compose` writes for object text `p` and a body without leading whitespace. */
  lemma ComposedContent(p: string, content: string)
    requires content == [] || !IsJsSpace(content[0])
    ensures Composed(EnsureTrailingNewline("<!-- metadata: " + p + " -->\n\n" + (Prefix(content) + content)),
                     p, if content == [] then "\n\n" else "\n\n\n",
                     if content == [] then [] else EnsureTrailingNewline(content))
  {
    var head := "<!-- metadata: " + p + " -->\n\n";
    AssembleParts(head, content);
    if content == [] {
      HeadRegroup(p, "", []);
    } else {
      HeadRegroup(p, "\n", EnsureTrailingNewline(content));
    }
  }

  /** Regrouping the comment, the blank line, what follows it and the body. */
  lemma HeadRegroup(p: string, extra: string, n: string)
    ensures ("<!-- metadata: " + p + " -->\n\n") + (extra + n)
      == "<!-- metadata: " + p + (" -->" + (("\n\n" + extra) + n))
  {
  }

  /** The text `Compose` writes for object text `p`, split at the end of the comment. */
  lemma ComposedText(p: string, body: string)
    ensures var content := TrimStart(body);
      Composed(EnsureTrailingNewline("<!-- metadata: " + p + " -->\n\n" + (Prefix(content) + content)),
               p, Gap(body), NormalBody(body))
  {
    ComposedContent(p, TrimStart(body));
  }

  /** What `Compose` writes, split at the end of the comment. */
  lemma ComposeParts(ms: seq<Member>, body: string)
    ensures Composed(Compose(ms, body), Pretty(Obj(ms)), Gap(body), NormalBody(body))
  {
    ComposedText(Pretty(Obj(ms)), body);
  }

  /** Pretty text of a metadata object: braces at both ends, no `>`, and JSON reads it back. */
  lemma PrettyObjectText(ms: seq<Member>)
    requires WellFormed(Obj(ms)) && NoGt(Obj(ms))
    ensures var p := Pretty(Obj(ms));
      |p| >= 2 && p[0] == '{' && p[|p| - 1] == '}' && '>' !in p && Parse(p) == Some(Obj(ms))
  {
    var p := Pretty(Obj(ms));
    StringifyNoGt(Obj(ms), "  ", "");
    ParseStringifyText(Obj(ms), "  ", "");
    assert p + "" == p;
  }

  /**
   * Reading back what was written: the block yields the metadata object and
   * the body as it will be on disk, whatever the body was.
   */
  lemma RemoveComposed(ms: seq<Member>, body: string)
    requires WellFormed(Obj(ms)) && NoGt(Obj(ms))
    ensures RemoveMetadataBlock(Compose(ms, body)) == Ok(Block(Some(Obj(ms)), NormalBody(body)))
  {
    var c, p, w, n := Compose(ms, body), Pretty(Obj(ms)), Gap(body), NormalBody(body);
    assert Composed(c, p, w, n) by {
      ComposeParts(ms, body);
    }
    assert |p| >= 2 && p[0] == '{' && p[|p| - 1] == '}' && '>' !in p && Parse(p) == Some(Obj(ms)) by {
      PrettyObjectText(ms);
    }
    assert AllJsSpace(w) by {
      GapIsSpace(body);
    }
    RemoveComposedText(c, p, w, n, Obj(ms));
  }

  /** A composed text whose object text JSON reads as `v` yields `v` and the text after the whitespace. */
  lemma RemoveComposedText(c: string, p: string, w: string, n: string, v: Value)
    requires Composed(c, p, w, n)
    requires |p| >= 2 && p[0] == '{' && p[|p| - 1] == '}' && '>' !in p
    requires AllJsSpace(w)
    requires n == [] || !IsJsSpace(n[0])
    requires Parse(p) == Some(v)
    ensures RemoveMetadataBlock(c) == Ok(Block(Some(v), n))
  {
    var start, close, mid, end := 15, 14 + |p|, 16 + |p|, |c| - |n|;
    assert CaptureStart(c) == Some(start) by {
      ComposedOpening(c, p, w, n);
    }
    assert FindClose(c, start + 1) == Some(close) by {
      ComposedClose(c, p, w, n);
    }
    assert SkipJsSpace(c, close + 1) == mid by {
      ComposedEndSkip(c, p, w, n);
    }
    assert SkipJsSpace(c, mid + 3) == end by {
      ComposedTail(c, p, w, n);
    }
    assert start <= close < |c| && c[start..close + 1] == p by {
      ComposedCapture(c, p, w, n);
    }
    assert c[end..] == n by {
      ComposedSuffix(c, p, w, n);
    }
    RemoveParts(c, p, start, close, mid, end, v);
  }

  /** A file without a block is left whole. */
  lemma RemoveWithoutBlock(c: string)
    requires !StartsWith(c, "<!--")
    ensures RemoveMetadataBlock(c) == Ok(Block(None, c))
  {
  }
}
