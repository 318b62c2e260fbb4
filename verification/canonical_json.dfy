/**
 * `sortValue` and `normaliseJsonForChecksum` of update-system-metadata.ts:
 * the canonical form a JSON document is hashed in. Every object loses its
 * `metadata` property, at any depth, and lists its other properties in
 * ascending key order; arrays keep their order; scalars are unchanged.
 */
module CanonicalJson {
  import opened Wrappers
  import opened JsonValue
  import opened JsonText
  import opened JsonRoundTrip
  import opened KeyOrder

  const MetadataKey := "metadata"

  /** `sortValue(value)` */
  function SortValue(v: Value): Value
    decreases v
  {
    match v
    case Arr(items) => Arr(seq(|items|, i requires 0 <= i < |items| => SortValue(items[i])))
    case Obj(ms) =>
      var entries := SortByKey(Remove(ms, MetadataKey));
      assert forall i :: 0 <= i < |entries| ==> entries[i] in ms by {
        forall i | 0 <= i < |entries| ensures entries[i] in ms {
          assert entries[i] in multiset(Remove(ms, MetadataKey));
        }
      }
      Obj(seq(|entries|, i requires 0 <= i < |entries| =>
        Member(entries[i].key, SortValue(entries[i].value))))
    case _ => v
  }

  /** `normaliseJsonForChecksum(data)`: the text that is hashed. */
  function NormaliseForChecksum(v: Value): string {
    Compact(SortValue(v))
  }

  /** Sorted objects without a `metadata` property, all the way down. */
  predicate Canonical(v: Value)
    decreases v
  {
    match v
    case Arr(items) => forall i :: 0 <= i < |items| ==> Canonical(items[i])
    case Obj(ms) =>
      SortedByKey(ms) && !HasKey(ms, MetadataKey)
      && forall i :: 0 <= i < |ms| ==> Canonical(ms[i].value)
    case _ => true
  }

  /**
   * The same document up to the order of properties within each object:
   * arrays agree element by element, objects have the same keys and agree
   * key by key, scalars are equal.
   */
  ghost predicate SameUpToKeyOrder(a: Value, b: Value)
    decreases a
  {
    match a
    case Arr(xs) =>
      b.Arr? && |xs| == |b.items|
      && forall i :: 0 <= i < |xs| ==> SameUpToKeyOrder(xs[i], b.items[i])
    case Obj(ms) =>
      b.Obj? && (forall k :: HasKey(ms, k) <==> HasKey(b.members, k))
      && forall i, j :: 0 <= i < |ms| && 0 <= j < |b.members| && ms[i].key == b.members[j].key
           ==> SameUpToKeyOrder(ms[i].value, b.members[j].value)
    case _ => a == b
  }

  // ---------------------------------------------------------------------
  // Looking properties up
  // ---------------------------------------------------------------------

  /** With distinct keys, a property is present exactly when looking its key up finds its value. */
  lemma {:induction false} MemberIffGet(ms: seq<Member>, m: Member)
    requires UniqueKeys(ms)
    ensures m in ms <==> Get(ms, m.key) == Some(m.value)
    decreases |ms|
  {
    if ms != [] {
      assert UniqueKeys(ms[1..]);
      MemberIffGet(ms[1..], m);
    }
  }

  /** A key found in one ordering of the properties is found, with the same value, in another. */
  lemma GetPermutationFound(xs: seq<Member>, ys: seq<Member>, k: string)
    requires multiset(xs) == multiset(ys)
    requires UniqueKeys(xs) && UniqueKeys(ys)
    ensures Get(xs, k).Some? ==> Get(ys, k) == Get(xs, k)
  {
    var gx := Get(xs, k);
    if gx.Some? {
      MemberIffGet(xs, Member(k, gx.value));
      assert Member(k, gx.value) in multiset(ys);
      MemberIffGet(ys, Member(k, gx.value));
    }
  }

  /** Two orderings of the same properties answer every lookup alike. */
  lemma GetPermutation(xs: seq<Member>, ys: seq<Member>, k: string)
    requires multiset(xs) == multiset(ys)
    requires UniqueKeys(xs) && UniqueKeys(ys)
    ensures Get(xs, k) == Get(ys, k)
  {
    GetPermutationFound(xs, ys, k);
    GetPermutationFound(ys, xs, k);
  }

  /** Two sorted property lists that answer every lookup alike are equal. */
  lemma SortedEqualByGet(xs: seq<Member>, ys: seq<Member>)
    requires SortedByKey(xs) && SortedByKey(ys)
    requires forall k :: Get(xs, k) == Get(ys, k)
    ensures xs == ys
  {
    SortedHasUniqueKeys(xs);
    SortedHasUniqueKeys(ys);
    forall m ensures m in xs <==> m in ys {
      MemberIffGet(xs, m);
      MemberIffGet(ys, m);
    }
    SortedEqual(xs, ys);
  }

  /** Lookup in a list whose values were transformed one by one. */
  lemma {:induction false} GetMapped(xs: seq<Member>, ys: seq<Member>, k: string)
    requires |xs| == |ys|
    requires forall i :: 0 <= i < |xs| ==> ys[i] == Member(xs[i].key, SortValue(xs[i].value))
    ensures Get(ys, k) == if Get(xs, k).Some? then Some(SortValue(Get(xs, k).value)) else None
    decreases |xs|
  {
    if xs != [] {
      GetMapped(xs[1..], ys[1..], k);
    }
  }

  // ---------------------------------------------------------------------
  // What sortValue promises
  // ---------------------------------------------------------------------

  /**
   * The canonical form of an object has no `metadata` key, and every other
   * key of the object with its value in canonical form.
   */
  lemma SortValueGet(ms: seq<Member>, k: string)
    requires UniqueKeys(ms)
    ensures var r := SortValue(Obj(ms));
      r.Obj? && Get(r.members, k) ==
        if k == MetadataKey || Get(ms, k).None? then None else Some(SortValue(Get(ms, k).value))
  {
    var removed := Remove(ms, MetadataKey);
    var entries := SortByKey(removed);
    var r := SortValue(Obj(ms));
    RemoveKeeps(ms, MetadataKey, k);
    SortByKeySorted(removed);
    SortedHasUniqueKeys(entries);
    GetPermutation(entries, removed, k);
    GetMapped(entries, r.members, k);
    if k == MetadataKey {
      assert Get(removed, k).None?;
    }
  }

  /** The canonical form is canonical, and still well formed. */
  lemma {:induction false} SortValueCanonical(v: Value)
    requires WellFormed(v)
    ensures Canonical(SortValue(v)) && WellFormed(SortValue(v))
    decreases v
  {
    match v
    case Arr(items) =>
      forall i | 0 <= i < |items| ensures Canonical(SortValue(items[i])) && WellFormed(SortValue(items[i])) {
        SortValueCanonical(items[i]);
      }
    case Obj(ms) =>
      forall j | 0 <= j < |ms| ensures Canonical(SortValue(ms[j].value)) && WellFormed(SortValue(ms[j].value)) {
        SortValueCanonical(ms[j].value);
      }
      SortObjectCanonical(ms);
    case _ =>
  }

  /** Sorting an object whose values already sort to canonical ones gives a canonical object. */
  lemma SortObjectCanonical(ms: seq<Member>)
    requires UniqueKeys(ms)
    requires forall j :: 0 <= j < |ms| ==> Canonical(SortValue(ms[j].value)) && WellFormed(SortValue(ms[j].value))
    ensures Canonical(SortValue(Obj(ms))) && WellFormed(SortValue(Obj(ms)))
  {
    var removed := Remove(ms, MetadataKey);
    var entries := SortByKey(removed);
    var r := SortValue(Obj(ms)).members;
    RemoveKeeps(ms, MetadataKey, MetadataKey);
    SortByKeySorted(removed);
    assert SortedByKey(r);
    SortedHasUniqueKeys(r);
    forall i | 0 <= i < |r| ensures Canonical(r[i].value) && WellFormed(r[i].value) && r[i].key != MetadataKey {
      assert entries[i] in multiset(removed);
      assert entries[i] in ms;
    }
  }

  /** Canonical documents are their own canonical form. */
  lemma {:induction false} CanonicalFixed(v: Value)
    requires Canonical(v)
    ensures SortValue(v) == v
    decreases v
  {
    match v
    case Arr(items) =>
      forall i | 0 <= i < |items| ensures SortValue(items[i]) == items[i] {
        CanonicalFixed(items[i]);
      }
      assert SortValue(v).items == items;
    case Obj(ms) =>
      forall i | 0 <= i < |ms| ensures SortValue(ms[i].value) == ms[i].value {
        CanonicalFixed(ms[i].value);
      }
      CanonicalObjectFixed(ms);
    case _ =>
  }

  /** A sorted object without `metadata` whose values are fixed is fixed. */
  lemma CanonicalObjectFixed(ms: seq<Member>)
    requires SortedByKey(ms) && !HasKey(ms, MetadataKey)
    requires forall i :: 0 <= i < |ms| ==> SortValue(ms[i].value) == ms[i].value
    ensures SortValue(Obj(ms)) == Obj(ms)
  {
    SortedSortFixed(ms);
    assert SortValue(Obj(ms)).members == ms;
  }

  /** Sorting a sorted list without `metadata` changes nothing. */
  lemma SortedSortFixed(ms: seq<Member>)
    requires SortedByKey(ms) && !HasKey(ms, MetadataKey)
    ensures SortByKey(Remove(ms, MetadataKey)) == ms
  {
    SortedHasUniqueKeys(ms);
    var entries := SortByKey(Remove(ms, MetadataKey));
    assert Remove(ms, MetadataKey) == ms;
    SortByKeySorted(ms);
    forall m ensures m in entries <==> m in ms {
      assert m in entries <==> m in multiset(ms);
    }
    SortedEqual(entries, ms);
  }

  /** Sorting twice is sorting once. */
  lemma SortValueIdempotent(v: Value)
    requires WellFormed(v)
    ensures SortValue(SortValue(v)) == SortValue(v)
  {
    SortValueCanonical(v);
    CanonicalFixed(SortValue(v));
  }

  /** Documents that differ only in the order of object keys sort to the same value. */
  lemma {:induction false} SortValueIgnoresKeyOrder(a: Value, b: Value)
    requires WellFormed(a) && WellFormed(b)
    requires SameUpToKeyOrder(a, b)
    ensures SortValue(a) == SortValue(b)
    decreases a
  {
    match a
    case Arr(xs) =>
      forall i | 0 <= i < |xs| ensures SortValue(xs[i]) == SortValue(b.items[i]) {
        SortValueIgnoresKeyOrder(xs[i], b.items[i]);
      }
      assert SortValue(a).items == SortValue(b).items;
    case Obj(ms) =>
      var ns := b.members;
      SortValueCanonical(a);
      SortValueCanonical(b);
      forall k ensures Get(SortValue(a).members, k) == Get(SortValue(b).members, k) {
        SortValueGet(ms, k);
        SortValueGet(ns, k);
        var ga, gb := Get(ms, k), Get(ns, k);
        assert ga.Some? <==> gb.Some?;
        if ga.Some? {
          var i :| 0 <= i < |ms| && ms[i] == Member(k, ga.value);
          var j :| 0 <= j < |ns| && ns[j] == Member(k, gb.value);
          SortValueIgnoresKeyOrder(ms[i].value, ns[j].value);
        }
      }
      SortedEqualByGet(SortValue(a).members, SortValue(b).members);
    case _ =>
  }

  /**
   * The checksum input does not depend on the order of object keys
   * (key-order independence of the JSON checksum).
   */
  lemma ChecksumIgnoresKeyOrder(a: Value, b: Value)
    requires WellFormed(a) && WellFormed(b)
    requires SameUpToKeyOrder(a, b)
    ensures NormaliseForChecksum(a) == NormaliseForChecksum(b)
  {
    SortValueIgnoresKeyOrder(a, b);
  }

  /** ... and it determines the canonical form: distinct canonical forms hash different texts. */
  lemma ChecksumDeterminesCanonical(a: Value, b: Value)
    requires WellFormed(a) && WellFormed(b)
    requires NormaliseForChecksum(a) == NormaliseForChecksum(b)
    ensures SortValue(a) == SortValue(b)
  {
    SortValueCanonical(a);
    SortValueCanonical(b);
    ParseStringifyText(SortValue(a), "", "");
    ParseStringifyText(SortValue(b), "", "");
    assert Compact(SortValue(a)) + "" == Compact(SortValue(a));
    assert Compact(SortValue(b)) + "" == Compact(SortValue(b));
  }

  /**
   * Deleting the top-level `metadata` property before hashing changes
   * nothing: `sortValue` drops it anyway.
   */
  lemma ChecksumIgnoresMetadata(ms: seq<Member>)
    ensures NormaliseForChecksum(Obj(Remove(ms, MetadataKey))) == NormaliseForChecksum(Obj(ms))
  {
    assert Remove(Remove(ms, MetadataKey), MetadataKey) == Remove(ms, MetadataKey);
  }
}
