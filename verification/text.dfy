/**
 * String helpers shared by the metadata synchroniser, the CLI parser and the
 * SSE client: JavaScript's notion of whitespace (used by `\s` in regular
 * expressions, by `trim` and by `trimStart`), `startsWith`, `includes`,
 * `split` on a single character and its inverse `join`.
 */
module Text {

  /** JavaScript WhiteSpace and LineTerminator code points (`\s`, `trim`). */
  predicate IsJsSpace(c: char) {
    || c == '\t' || c == '\n' || c == '\U{000B}' || c == '\U{000C}' || c == '\r'
    || c == ' ' || c == '\U{00A0}' || c == '\U{1680}'
    || ('\U{2000}' <= c <= '\U{200A}')
    || c == '\U{2028}' || c == '\U{2029}' || c == '\U{202F}' || c == '\U{205F}'
    || c == '\U{3000}' || c == '\U{FEFF}'
  }

  predicate AllJsSpace(s: string) {
    forall i :: 0 <= i < |s| ==> IsJsSpace(s[i])
  }

  /**
   * Lower-casing of the ASCII letters only: how a case-insensitive regular
   * expression without the `u` flag compares letters of an ASCII pattern.
   */
  function AsciiLower(c: char): char {
    if 'A' <= c <= 'Z' then (c as int + 32) as char else c
  }

  /** `s.startsWith(p)` */
  predicate StartsWith(s: string, p: string) {
    |p| <= |s| && s[..|p|] == p
  }

  /** A text that starts with `p + q` starts with `p`. */
  lemma StartsWithFront(s: string, p: string, q: string)
    requires StartsWith(s, p + q)
    ensures StartsWith(s, p)
  {
    assert s[..|p|] == (s[..|p + q|])[..|p|];
  }

  /** `s.includes("..")` */
  predicate HasDotDot(s: string)
    decreases |s|
  {
    |s| >= 2 && ((s[0] == '.' && s[1] == '.') || HasDotDot(s[1..]))
  }

  /** `s.trimStart()`: drops the leading run of whitespace and nothing else. */
  function TrimStart(s: string): (r: string)
    ensures |r| <= |s| && r == s[|s| - |r|..]
    ensures r == [] || !IsJsSpace(r[0])
    decreases |s|
  {
    if s != [] && IsJsSpace(s[0]) then TrimStart(s[1..]) else s
  }

  /** What `TrimStart` drops is whitespace. */
  lemma {:induction false} TrimStartDropsSpaces(s: string)
    ensures AllJsSpace(s[..|s| - |TrimStart(s)|])
    decreases |s|
  {
    if s != [] && IsJsSpace(s[0]) {
      TrimStartDropsSpaces(s[1..]);
      var k := |s| - |TrimStart(s)|;
      assert s[..k] == [s[0]] + s[1..][..k - 1];
    }
  }

  /** `s.trimEnd()` */
  function TrimEnd(s: string): (r: string)
    ensures |r| <= |s| && r == s[..|r|]
    ensures r == [] || !IsJsSpace(r[|r| - 1])
    decreases |s|
  {
    if s != [] && IsJsSpace(s[|s| - 1]) then TrimEnd(s[..|s| - 1]) else s
  }

  /** `s.trim()`: drops the leading and the trailing run of whitespace. */
  function Trim(s: string): string
    decreases |s|
  {
    if s != [] && IsJsSpace(s[0]) then Trim(s[1..])
    else if s != [] && IsJsSpace(s[|s| - 1]) then Trim(s[..|s| - 1])
    else s
  }

  /** `TrimStart` leaves a string that already starts with a non-space alone. */
  lemma TrimStartIdempotent(s: string)
    ensures TrimStart(TrimStart(s)) == TrimStart(s)
  {
  }

  /** Leading whitespace in front of `t` disappears under `TrimStart`. */
  lemma {:induction false} TrimStartSkips(w: string, t: string)
    requires AllJsSpace(w)
    ensures TrimStart(w + t) == TrimStart(t)
    decreases |w|
  {
    if w == [] {
      assert w + t == t;
    } else {
      var wt := w + t;
      assert wt != [] && wt[0] == w[0] && IsJsSpace(wt[0]);
      assert wt[1..] == w[1..] + t;
      assert TrimStart(wt) == TrimStart(wt[1..]);
      TrimStartSkips(w[1..], t);
    }
  }

  /** `ensureTrailingNewline` of update-system-metadata.ts */
  function EnsureTrailingNewline(s: string): (r: string)
    ensures |r| > 0 && r[|r| - 1] == '\n'
    ensures StartsWith(r, s) && |r| <= |s| + 1
    ensures |s| > 0 && s[|s| - 1] == '\n' ==> r == s
  {
    if |s| > 0 && s[|s| - 1] == '\n' then s else s + "\n"
  }

  /** `s.split(sep)` for a one-character separator. */
  function Split(s: string, sep: char): (parts: seq<string>)
    ensures |parts| >= 1
    decreases |s|
  {
    if s == [] then [""]
    else
      var rest := Split(s[1..], sep);
      if s[0] == sep then [""] + rest
      else [[s[0]] + rest[0]] + rest[1..]
  }

  /** No piece of a split holds the separator. */
  lemma {:induction false} SplitPiecesHaveNoSep(s: string, sep: char)
    ensures forall i :: 0 <= i < |Split(s, sep)| ==> sep !in Split(s, sep)[i]
    decreases |s|
  {
    if s != [] {
      SplitPiecesHaveNoSep(s[1..], sep);
      var rest := Split(s[1..], sep);
      if s[0] != sep {
        assert sep !in [s[0]] + rest[0];
      }
    }
  }

  /** `parts.join(sep)`, the inverse of `Split`. */
  function Join(parts: seq<string>, sep: char): string
    requires |parts| >= 1
    decreases |parts|
  {
    if |parts| == 1 then parts[0] else parts[0] + [sep] + Join(parts[1..], sep)
  }

  /** Every piece `Split` cuts out is glued back together by `Join`. */
  lemma {:induction false} JoinSplit(s: string, sep: char)
    ensures Join(Split(s, sep), sep) == s
    decreases |s|
  {
    if s != [] {
      var rest := Split(s[1..], sep);
      JoinSplit(s[1..], sep);
      if s[0] == sep {
        assert Split(s, sep) == [""] + rest;
        assert ([""] + rest)[1..] == rest;
      } else if |rest| == 1 {
        assert Split(s, sep) == [[s[0]] + rest[0]];
      } else {
        var parts := Split(s, sep);
        assert parts[1..] == rest[1..];
        assert Join(rest, sep) == rest[0] + [sep] + Join(rest[1..], sep);
      }
    }
  }

  /** ... and `Split` recovers the pieces `Join` glued, when none holds `sep`. */
  lemma {:induction false} SplitJoin(parts: seq<string>, sep: char)
    requires |parts| >= 1
    requires forall i :: 0 <= i < |parts| ==> sep !in parts[i]
    ensures Split(Join(parts, sep), sep) == parts
    decreases |parts|, |parts[0]|
  {
    var p := parts[0];
    if |parts| == 1 {
      SplitNoSep(p, sep);
    } else if p == [] {
      var tail := Join(parts[1..], sep);
      assert Join(parts, sep) == [sep] + tail;
      SplitJoin(parts[1..], sep);
      assert ([sep] + tail)[1..] == tail;
    } else {
      var smaller := [p[1..]] + parts[1..];
      assert smaller[1..] == parts[1..];
      SplitJoin(smaller, sep);
      var j := Join(parts, sep);
      assert j == [p[0]] + Join(smaller, sep);
      assert j[1..] == Join(smaller, sep);
      assert [p[0]] + p[1..] == p;
    }
  }

  /** A string without the separator splits into itself alone. */
  lemma {:induction false} SplitNoSep(s: string, sep: char)
    requires sep !in s
    ensures Split(s, sep) == [s]
    decreases |s|
  {
    if s != [] {
      assert sep !in s[1..];
      SplitNoSep(s[1..], sep);
      assert [s[0]] + s[1..] == s;
    }
  }

  /** One step of `Split`, stated for a string given as head and tail. */
  lemma {:induction false} SplitCons(c: char, s: string, sep: char)
    ensures Split([c] + s, sep) ==
      if c == sep then [""] + Split(s, sep)
      else [[c] + Split(s, sep)[0]] + Split(s, sep)[1..]
  {
    assert ([c] + s)[1..] == s;
  }

  /**
   * Splitting `s + t` equals splitting `s`, keeping its complete pieces and
   * splitting its unfinished last piece together with `t`: this is what
   * lets a reader carry the tail of one chunk over to the next.
   */
  lemma {:induction false} SplitAppend(s: string, t: string, sep: char)
    ensures Split(s + t, sep) == Init(Split(s, sep)) + Split(Last(Split(s, sep)) + t, sep)
    decreases |s|
  {
    if s == [] {
      assert s + t == t;
    } else {
      var c, s' := s[0], s[1..];
      assert s == [c] + s' && s + t == [c] + (s' + t);
      SplitAppend(s', t, sep);
      if c == sep {
        SplitAppendSepStep(c, s', t, sep);
      } else {
        SplitAppendStep(c, s', t, sep);
      }
    }
  }

  /** The case of `SplitAppend` where the first character is the separator. */
  lemma {:induction false} SplitAppendSepStep(c: char, s: string, t: string, sep: char)
    requires c == sep
    requires Split(s + t, sep) == Init(Split(s, sep)) + Split(Last(Split(s, sep)) + t, sep)
    ensures Split([c] + (s + t), sep) == Init(Split([c] + s, sep)) + Split(Last(Split([c] + s, sep)) + t, sep)
  {
    var ps := Split(s, sep);
    var q := Split([c] + s, sep);
    var x := Split(Last(ps) + t, sep);
    SplitCons(c, s + t, sep);
    SplitCons(c, s, sep);
    SepStepPieces(Split([c] + (s + t), sep), ps, x, q);
  }

  /** The pieces of the separator case of `SplitAppend`, as plain sequences. */
  lemma SepStepPieces(all: seq<string>, ps: seq<string>, x: seq<string>, q: seq<string>)
    requires |ps| > 0 && all == [""] + (Init(ps) + x) && q == [""] + ps
    ensures |q| > 0 && all == Init(q) + x && Last(q) == Last(ps)
  {
    ConsInitLast("", ps);
    assert [""] + (Init(ps) + x) == ([""] + Init(ps)) + x;
  }

  /** Putting an element in front keeps the last element and extends the rest. */
  lemma ConsInitLast<T>(a: T, xs: seq<T>)
    requires |xs| > 0
    ensures Init([a] + xs) == [a] + Init(xs) && Last([a] + xs) == Last(xs)
  {
    assert ([a] + xs)[..|xs|] == [a] + xs[..|xs| - 1];
  }

  /** The case of `SplitAppend` where the first character is not the separator. */
  lemma {:induction false} SplitAppendStep(c: char, s: string, t: string, sep: char)
    requires c != sep
    requires Split(s + t, sep) == Init(Split(s, sep)) + Split(Last(Split(s, sep)) + t, sep)
    ensures Split([c] + (s + t), sep) == Init(Split([c] + s, sep)) + Split(Last(Split([c] + s, sep)) + t, sep)
  {
    var ps := Split(s, sep);
    var xs := Split(s + t, sep);
    var tail := Split(Last(ps) + t, sep);
    var q := Split([c] + s, sep);
    assert Split([c] + (s + t), sep) == [[c] + xs[0]] + xs[1..] by {
      SplitCons(c, s + t, sep);
    }
    assert q == [[c] + ps[0]] + ps[1..] by {
      SplitCons(c, s, sep);
    }
    if |ps| > 1 {
      ConsFirstPiece(c, ps, tail, xs, q);
    } else {
      assert Split([c] + (Last(ps) + t), sep) == [[c] + tail[0]] + tail[1..] by {
        SplitCons(c, Last(ps) + t, sep);
      }
      assert [c] + Last(ps) + t == [c] + (Last(ps) + t);
      ConsOnlyPiece(c, ps, tail, xs, q);
    }
  }

  /** Prepending to the first of several pieces leaves the last one alone. */
  lemma ConsFirstPiece(c: char, ps: seq<string>, tail: seq<string>, xs: seq<string>, q: seq<string>)
    requires |ps| > 1 && |tail| > 0
    requires xs == Init(ps) + tail
    requires q == [[c] + ps[0]] + ps[1..]
    ensures [[c] + xs[0]] + xs[1..] == Init(q) + tail && Last(q) == Last(ps)
  {
    assert Init(q) == [[c] + ps[0]] + Init(ps)[1..];
    assert xs[0] == ps[0];
    assert xs[1..] == Init(ps)[1..] + tail;
  }

  /** Prepending to the only piece makes it the unfinished last one. */
  lemma ConsOnlyPiece(c: char, ps: seq<string>, tail: seq<string>, xs: seq<string>, q: seq<string>)
    requires |ps| == 1 && |tail| > 0
    requires xs == Init(ps) + tail
    requires q == [[c] + ps[0]] + ps[1..]
    ensures [[c] + xs[0]] + xs[1..] == Init(q) + ([[c] + tail[0]] + tail[1..]) && Last(q) == [c] + Last(ps)
  {
    assert Init(ps) == [] && Init(q) == [];
    assert xs == tail;
  }

  /**
   * The distinct elements of `xs` in order of first occurrence, after those
   * of `seen`: a JavaScript `Set` built by adding `seen` and then `xs`, read
   * back in insertion order.
   */
  function Dedup(seen: seq<string>, xs: seq<string>): (r: seq<string>)
    decreases |xs|
  {
    if xs == [] then seen
    else Dedup(if xs[0] in seen then seen else seen + [xs[0]], xs[1..])
  }

  predicate NoDuplicates(xs: seq<string>) {
    forall i, j :: 0 <= i < j < |xs| ==> xs[i] != xs[j]
  }

  lemma {:induction false} DedupSpec(seen: seq<string>, xs: seq<string>)
    requires NoDuplicates(seen)
    ensures NoDuplicates(Dedup(seen, xs))
    ensures forall p :: p in Dedup(seen, xs) <==> p in seen || p in xs
    decreases |xs|
  {
    if xs != [] {
      var next := if xs[0] in seen then seen else seen + [xs[0]];
      DedupSpec(next, xs[1..]);
      assert forall p :: p in xs <==> p == xs[0] || p in xs[1..];
    }
  }

  /** Adding two runs of elements one after the other. */
  lemma {:induction false} DedupAppend(seen: seq<string>, xs: seq<string>, ys: seq<string>)
    ensures Dedup(seen, xs + ys) == Dedup(Dedup(seen, xs), ys)
    decreases |xs|
  {
    if xs != [] {
      var next := if xs[0] in seen then seen else seen + [xs[0]];
      assert (xs + ys)[0] == xs[0] && (xs + ys)[1..] == xs[1..] + ys;
      DedupAppend(next, xs[1..], ys);
    } else {
      assert xs + ys == ys;
    }
  }

  /** Adding one more element. */
  lemma DedupSnoc(seen: seq<string>, xs: seq<string>, x: string)
    ensures var d := Dedup(seen, xs);
      Dedup(seen, xs + [x]) == if x in d then d else d + [x]
  {
    DedupAppend(seen, xs, [x]);
    var d := Dedup(seen, xs);
    var next := if x in d then d else d + [x];
    assert [x][1..] == [];
  }

  function Init<T>(xs: seq<T>): seq<T>
    requires |xs| > 0
  {
    xs[..|xs| - 1]
  }

  function Last<T>(xs: seq<T>): T
    requires |xs| > 0
  {
    xs[|xs| - 1]
  }
}
