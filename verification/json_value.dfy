/**
 * JSON values as a JavaScript program sees them after `JSON.parse`: `null`,
 * booleans, numbers (integers in this model), strings, arrays, and objects.
 * An object is the ordered list of its own properties, in insertion order,
 * with each key at most once; `Put` and `Remove` are property assignment
 * (`obj[k] = v`) and `delete obj[k]`.
 */
module JsonValue {
  import opened Wrappers

  datatype Value =
    | Null
    | Bool(b: bool)
    | Num(n: int)
    | Str(s: string)
    | Arr(items: seq<Value>)
    | Obj(members: seq<Member>)

  datatype Member = Member(key: string, value: Value)

  /** No key occurs twice among the properties. */
  predicate UniqueKeys(ms: seq<Member>) {
    forall i, j :: 0 <= i < j < |ms| ==> ms[i].key != ms[j].key
  }

  predicate HasKey(ms: seq<Member>, k: string) {
    exists i :: 0 <= i < |ms| && ms[i].key == k
  }

  /** Every object, at every depth, has unique keys: what `JSON.parse` builds. */
  predicate WellFormed(v: Value) {
    match v
    case Arr(items) => forall i :: 0 <= i < |items| ==> WellFormed(items[i])
    case Obj(ms) => UniqueKeys(ms) && forall i :: 0 <= i < |ms| ==> WellFormed(ms[i].value)
    case _ => true
  }

  /** `obj[k]` (the first property with that key). */
  function Get(ms: seq<Member>, k: string): (r: Option<Value>)
    ensures r.Some? <==> HasKey(ms, k)
    ensures r.Some? ==> exists i :: 0 <= i < |ms| && ms[i] == Member(k, r.value)
  {
    if ms == [] then None
    else if ms[0].key == k then Some(ms[0].value)
    else Get(ms[1..], k)
  }

  /**
   * `obj[k] = v`: an existing property keeps its position and takes the new
   * value; a new one is appended.
   */
  function Put(ms: seq<Member>, k: string, v: Value): (r: seq<Member>)
    ensures HasKey(ms, k) ==> |r| == |ms|
    ensures !HasKey(ms, k) ==> r == ms + [Member(k, v)]
  {
    if ms == [] then [Member(k, v)]
    else if ms[0].key == k then [Member(k, v)] + ms[1..]
    else
      assert HasKey(ms, k) <==> HasKey(ms[1..], k) by {
        if HasKey(ms, k) {
          var i :| 0 <= i < |ms| && ms[i].key == k;
          assert ms[1..][i - 1].key == k;
        }
        if HasKey(ms[1..], k) {
          var i :| 0 <= i < |ms| - 1 && ms[1..][i].key == k;
          assert ms[i + 1].key == k;
        }
      }
      [ms[0]] + Put(ms[1..], k, v)
  }

  /** After `obj[k] = v`, reading `k` gives `v` and every other key is as before. */
  lemma {:induction false} PutGet(ms: seq<Member>, k: string, v: Value, k': string)
    ensures Get(Put(ms, k, v), k') == if k' == k then Some(v) else Get(ms, k')
    decreases |ms|
  {
    if ms != [] && ms[0].key != k {
      PutGet(ms[1..], k, v, k');
    }
  }

  /** `obj[k] = v` keeps keys unique and brings in no value but `v`. */
  lemma {:induction false} PutPreserves(ms: seq<Member>, k: string, v: Value)
    ensures UniqueKeys(ms) ==> UniqueKeys(Put(ms, k, v))
    ensures forall m :: m in Put(ms, k, v) ==> m in ms || m == Member(k, v)
    decreases |ms|
  {
    if ms != [] && ms[0].key != k {
      PutPreserves(ms[1..], k, v);
      var rest := Put(ms[1..], k, v);
      assert Put(ms, k, v) == [ms[0]] + rest;
      if UniqueKeys(ms) {
        assert UniqueKeys(ms[1..]);
        forall m | m in rest ensures m.key != ms[0].key {
          if m != Member(k, v) {
            var i :| 0 <= i < |ms| - 1 && ms[1..][i] == m;
            assert ms[i + 1] == m;
          }
        }
      }
    }
  }

  /**
   * With unique keys, `obj[k] = v` on an existing key changes that property's
   * value in place and leaves every other property where and as it was.
   */
  lemma {:induction false} PutInPlace(ms: seq<Member>, k: string, v: Value)
    requires UniqueKeys(ms) && HasKey(ms, k)
    ensures |Put(ms, k, v)| == |ms|
    ensures forall i :: 0 <= i < |ms| ==>
      Put(ms, k, v)[i] == if ms[i].key == k then Member(k, v) else ms[i]
    decreases |ms|
  {
    var r := Put(ms, k, v);
    if ms[0].key != k {
      var i :| 0 <= i < |ms| && ms[i].key == k;
      assert ms[1..][i - 1].key == k;
      PutInPlace(ms[1..], k, v);
      assert r == [ms[0]] + Put(ms[1..], k, v);
      forall i | 0 <= i < |ms|
        ensures r[i] == if ms[i].key == k then Member(k, v) else ms[i]
      {
        if i > 0 {
          assert ms[i] == ms[1..][i - 1];
        }
      }
    }
  }

  /** `delete obj[k]` */
  function Remove(ms: seq<Member>, k: string): (r: seq<Member>)
    ensures !HasKey(r, k)
    ensures forall i :: 0 <= i < |r| ==> r[i] in ms
    ensures !HasKey(ms, k) ==> r == ms
    decreases |ms|
  {
    if ms == [] then []
    else
      var rest := Remove(ms[1..], k);
      assert forall i :: 1 <= i < |ms| ==> ms[i] in ms[1..];
      assert forall i :: 0 <= i < |ms[1..]| ==> ms[1..][i] == ms[i + 1];
      if ms[0].key == k then rest else [ms[0]] + rest
  }

  /** `delete obj[k]` leaves every other key as it was, and keys unique. */
  lemma RemoveKeeps(ms: seq<Member>, k: string, k': string)
    ensures k' != k ==> Get(Remove(ms, k), k') == Get(ms, k')
    ensures UniqueKeys(ms) ==> UniqueKeys(Remove(ms, k))
  {
    if k' != k {
      RemoveGet(ms, k, k');
    }
    if UniqueKeys(ms) {
      RemoveUnique(ms, k);
    }
  }

  lemma {:induction false} RemoveGet(ms: seq<Member>, k: string, k': string)
    requires k' != k
    ensures Get(Remove(ms, k), k') == Get(ms, k')
    decreases |ms|
  {
    if ms != [] {
      RemoveGet(ms[1..], k, k');
    }
  }

  lemma {:induction false} RemoveUnique(ms: seq<Member>, k: string)
    requires UniqueKeys(ms)
    ensures UniqueKeys(Remove(ms, k))
    decreases |ms|
  {
    if ms != [] {
      assert UniqueKeys(ms[1..]);
      RemoveUnique(ms[1..], k);
      var rest := Remove(ms[1..], k);
      if ms[0].key != k {
        forall i | 0 <= i < |rest| ensures rest[i].key != ms[0].key {
          var j :| 0 <= j < |ms| - 1 && ms[1..][j] == rest[i];
          assert ms[j + 1] == rest[i];
        }
        assert Remove(ms, k) == [ms[0]] + rest;
      }
    }
  }

  /** Assigning a property the value it already has changes nothing. */
  lemma {:induction false} PutExisting(ms: seq<Member>, k: string, v: Value)
    requires UniqueKeys(ms)
    requires Get(ms, k) == Some(v)
    ensures Put(ms, k, v) == ms
    decreases |ms|
  {
    if ms[0].key != k {
      assert UniqueKeys(ms[1..]);
      PutExisting(ms[1..], k, v);
    }
  }

  /** Deleting a key after assigning it is deleting it. */
  lemma {:induction false} RemovePut(ms: seq<Member>, k: string, v: Value)
    requires UniqueKeys(ms)
    ensures Remove(Put(ms, k, v), k) == Remove(ms, k)
    decreases |ms|
  {
    if ms != [] {
      assert UniqueKeys(ms[1..]);
      RemovePut(ms[1..], k, v);
      if ms[0].key == k {
        assert !HasKey(ms[1..], k);
      }
    }
  }

  /**
   * The object `JSON.parse` builds from the members it reads, in order:
   * each one assigned in turn, so a repeated key keeps its first position
   * and its last value.
   */
  function FromMembers(acc: seq<Member>, raw: seq<Member>): (r: seq<Member>)
    decreases |raw|
  {
    if raw == [] then acc
    else FromMembers(Put(acc, raw[0].key, raw[0].value), raw[1..])
  }

  /** The object built from parsed members is well formed. */
  lemma {:induction false} FromMembersWellFormed(acc: seq<Member>, raw: seq<Member>)
    requires UniqueKeys(acc)
    requires forall m :: m in acc ==> WellFormed(m.value)
    requires forall m :: m in raw ==> WellFormed(m.value)
    ensures WellFormed(Obj(FromMembers(acc, raw)))
    decreases |raw|
  {
    if raw != [] {
      PutPreserves(acc, raw[0].key, raw[0].value);
      FromMembersWellFormed(Put(acc, raw[0].key, raw[0].value), raw[1..]);
    }
  }

  /** Reading members with distinct keys builds exactly those members. */
  lemma {:induction false} FromMembersUnique(acc: seq<Member>, raw: seq<Member>)
    requires UniqueKeys(acc + raw)
    ensures FromMembers(acc, raw) == acc + raw
    decreases |raw|
  {
    if raw == [] {
      assert acc + raw == acc;
    } else {
      var m := raw[0];
      assert !HasKey(acc, m.key) by {
        assert forall i :: 0 <= i < |acc| ==> (acc + raw)[i] == acc[i];
        assert (acc + raw)[|acc|] == m;
      }
      assert acc + raw == (acc + [m]) + raw[1..];
      FromMembersUnique(acc + [m], raw[1..]);
    }
  }
}
