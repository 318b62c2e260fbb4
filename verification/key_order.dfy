/**
 * The order `sortValue` puts object keys in. The script compares keys with
 * `localeCompare`; this model uses the lexicographic order of code points,
 * a fixed total order on strings, and sorts a property list by it.
 */
module KeyOrder {
  import opened JsonValue

  /** `a` comes strictly before `b`. */
  predicate Less(a: string, b: string)
    decreases |a|
  {
    if a == [] then b != []
    else b != [] && (a[0] < b[0] || (a[0] == b[0] && Less(a[1..], b[1..])))
  }

  lemma {:induction false} LessIrreflexive(a: string)
    ensures !Less(a, a)
    decreases |a|
  {
    if a != [] {
      LessIrreflexive(a[1..]);
    }
  }

  lemma {:induction false} LessTransitive(a: string, b: string, c: string)
    requires Less(a, b) && Less(b, c)
    ensures Less(a, c)
    decreases |a|
  {
    if a != [] && a[0] == b[0] && b[0] == c[0] {
      LessTransitive(a[1..], b[1..], c[1..]);
    }
  }

  /** Any two different strings are ordered one way or the other, never both. */
  lemma {:induction false} LessTotal(a: string, b: string)
    ensures a != b <==> (Less(a, b) || Less(b, a))
    ensures !(Less(a, b) && Less(b, a))
    decreases |a|
  {
    if a != [] && b != [] && a[0] == b[0] {
      LessTotal(a[1..], b[1..]);
      assert a == [a[0]] + a[1..] && b == [b[0]] + b[1..];
    } else if a == [] && b == [] {
      LessIrreflexive(a);
    }
  }

  /** Keys strictly ascending. */
  predicate SortedByKey(ms: seq<Member>) {
    forall i, j :: 0 <= i < j < |ms| ==> Less(ms[i].key, ms[j].key)
  }

  lemma SortedHasUniqueKeys(ms: seq<Member>)
    requires SortedByKey(ms)
    ensures UniqueKeys(ms)
  {
    forall i, j | 0 <= i < j < |ms| ensures ms[i].key != ms[j].key {
      LessIrreflexive(ms[i].key);
    }
  }

  /** Place `m` in front of the first member whose key does not come before its own. */
  function Insert(m: Member, ms: seq<Member>): (r: seq<Member>)
    ensures multiset(r) == multiset(ms) + multiset{m}
    decreases |ms|
  {
    if ms == [] || !Less(ms[0].key, m.key) then [m] + ms
    else
      assert ms == [ms[0]] + ms[1..];
      [ms[0]] + Insert(m, ms[1..])
  }

  /** The properties sorted by key (`entries.sort` by key). */
  function SortByKey(ms: seq<Member>): (r: seq<Member>)
    ensures multiset(r) == multiset(ms)
    decreases |ms|
  {
    if ms == [] then []
    else
      assert ms == [ms[0]] + ms[1..];
      Insert(ms[0], SortByKey(ms[1..]))
  }

  /** Inserting a member whose key is new keeps the list sorted. */
  lemma {:induction false} InsertSorted(m: Member, ms: seq<Member>)
    requires SortedByKey(ms)
    requires forall i :: 0 <= i < |ms| ==> ms[i].key != m.key
    ensures SortedByKey(Insert(m, ms))
    decreases |ms|
  {
    if ms == [] || !Less(ms[0].key, m.key) {
      if ms != [] {
        LessTotal(ms[0].key, m.key);
        forall j | 0 < j < |ms| ensures Less(m.key, ms[j].key) {
          LessTransitive(m.key, ms[0].key, ms[j].key);
        }
      }
    } else {
      var rest := Insert(m, ms[1..]);
      InsertSorted(m, ms[1..]);
      assert multiset(rest) == multiset(ms[1..]) + multiset{m};
      forall j | 0 <= j < |rest| ensures Less(ms[0].key, rest[j].key) {
        assert rest[j] in multiset(rest);
        if rest[j] != m {
          assert rest[j] in multiset(ms[1..]);
          var k :| 0 <= k < |ms[1..]| && ms[1..][k] == rest[j];
          assert ms[k + 1] == rest[j];
        }
      }
    }
  }

  /** Sorting properties with distinct keys gives them in strictly ascending key order. */
  lemma {:induction false} SortByKeySorted(ms: seq<Member>)
    requires UniqueKeys(ms)
    ensures SortedByKey(SortByKey(ms))
    decreases |ms|
  {
    if ms != [] {
      var rest := SortByKey(ms[1..]);
      SortByKeySorted(ms[1..]);
      forall i | 0 <= i < |rest| ensures rest[i].key != ms[0].key {
        assert rest[i] in multiset(ms[1..]);
        var k :| 0 <= k < |ms[1..]| && ms[1..][k] == rest[i];
        assert ms[k + 1] == rest[i];
      }
      InsertSorted(ms[0], rest);
    }
  }

  /** Two strictly sorted lists with the same members are the same list. */
  lemma {:induction false} SortedEqual(xs: seq<Member>, ys: seq<Member>)
    requires SortedByKey(xs) && SortedByKey(ys)
    requires forall m :: m in xs <==> m in ys
    ensures xs == ys
    decreases |xs|
  {
    SameMembersEmpty(xs, ys);
    if xs != [] {
      assert xs[0] in ys;
      var j :| 0 <= j < |ys| && ys[j] == xs[0];
      assert ys[0] in xs;
      var i :| 0 <= i < |xs| && xs[i] == ys[0];
      if j > 0 {
        if i == 0 {
          LessIrreflexive(ys[0].key);
        } else {
          LessTotal(ys[0].key, xs[0].key);
        }
        assert false;
      }
      forall m ensures m in xs[1..] <==> m in ys[1..] {
        if m in xs[1..] {
          var a :| 0 <= a < |xs| - 1 && xs[1..][a] == m;
          assert Less(xs[0].key, m.key) && m in ys;
          LessIrreflexive(m.key);
        }
        if m in ys[1..] {
          var b :| 0 <= b < |ys| - 1 && ys[1..][b] == m;
          assert Less(ys[0].key, m.key) && m in xs;
          LessIrreflexive(m.key);
        }
      }
      SortedEqual(xs[1..], ys[1..]);
      assert xs == [xs[0]] + xs[1..] && ys == [ys[0]] + ys[1..];
    }
  }

  lemma SameMembersEmpty(xs: seq<Member>, ys: seq<Member>)
    requires forall m :: m in xs <==> m in ys
    ensures xs == [] <==> ys == []
  {
    if ys != [] {
      assert ys[0] in ys;
    }
    if xs != [] {
      assert xs[0] in xs;
    }
  }
}
