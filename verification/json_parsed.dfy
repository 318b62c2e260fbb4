/**
 * What `JSON.parse` builds is well formed: every object it returns, at
 * every depth, has each key once (a repeated key keeps one property).
 */
module JsonParsed {
  import opened Wrappers
  import opened JsonValue
  import opened JsonText

  /** Every value `JSON.parse` returns is well formed. */
  lemma ParseWellFormed(text: string)
    ensures Parse(text).Some? ==> WellFormed(Parse(text).value)
  {
    ParseValueWellFormed(text);
  }

  lemma {:induction false} ParseValueWellFormed(s: string)
    ensures ParseValue(s).Some? ==> WellFormed(ParseValue(s).value.value)
    decreases |s|, 1
  {
    ParseTokenWellFormed(SkipSpace(s));
  }

  lemma {:induction false} ParseTokenWellFormed(t: string)
    ensures ParseToken(t).Some? ==> WellFormed(ParseToken(t).value.value)
    decreases |t|, 0
  {
    if t != [] && t[0] == '[' {
      ParseArrayWellFormed(t[1..]);
    } else if t != [] && t[0] == '{' {
      ParseObjectWellFormed(t[1..]);
    }
  }

  lemma {:induction false} ParseArrayWellFormed(s: string)
    ensures ParseArray(s).Some? ==> WellFormed(ParseArray(s).value.value)
    decreases |s|, 3
  {
    ParseItemsWellFormed(SkipSpace(s));
  }

  lemma {:induction false} ParseItemsWellFormed(s: string)
    ensures ParseItems(s).Some? ==> WellFormed(Arr(ParseItems(s).value.value))
    decreases |s|, 2
  {
    ParseValueWellFormed(s);
    match ParseValue(s)
    case None =>
    case Some(Parsed(v, after)) =>
      ParseAfterItemWellFormed(v, after);
  }

  lemma {:induction false} ParseAfterItemWellFormed(v: Value, after: string)
    requires WellFormed(v)
    ensures ParseAfterItem(v, after).Some? ==> WellFormed(Arr(ParseAfterItem(v, after).value.value))
    decreases |after|, 3
  {
    var t := SkipSpace(after);
    if t != [] && t[0] == ',' {
      ParseItemsWellFormed(t[1..]);
      match ParseItems(t[1..])
      case None =>
      case Some(Parsed(vs, rest)) =>
        var r := [v] + vs;
        assert forall i :: 1 <= i < |r| ==> r[i] == vs[i - 1];
    }
  }

  lemma {:induction false} ParseObjectWellFormed(s: string)
    ensures ParseObject(s).Some? ==> WellFormed(ParseObject(s).value.value)
    decreases |s|, 3
  {
    var t := SkipSpace(s);
    if !(t != [] && t[0] == '}') {
      ParseMembersWellFormed(t);
      match ParseMembers(t)
      case None =>
      case Some(Parsed(raw, rest)) =>
        FromMembersWellFormed([], raw);
    }
  }

  lemma {:induction false} ParseMembersWellFormed(s: string)
    ensures ParseMembers(s).Some? ==>
      forall m :: m in ParseMembers(s).value.value ==> WellFormed(m.value)
    decreases |s|, 2
  {
    var t := SkipSpace(s);
    if t != [] && t[0] == '"' {
      match ParseString(t[1..])
      case None =>
      case Some(Parsed(key, afterKey)) =>
        ParseAfterKeyWellFormed(key, afterKey);
    }
  }

  lemma {:induction false} ParseAfterKeyWellFormed(key: string, afterKey: string)
    ensures ParseAfterKey(key, afterKey).Some? ==>
      forall m :: m in ParseAfterKey(key, afterKey).value.value ==> WellFormed(m.value)
    decreases |afterKey|, 4
  {
    var t := SkipSpace(afterKey);
    if t != [] && t[0] == ':' {
      ParseValueWellFormed(t[1..]);
      match ParseValue(t[1..])
      case None =>
      case Some(Parsed(v, afterValue)) =>
        ParseAfterMemberWellFormed(Member(key, v), afterValue);
    }
  }

  lemma {:induction false} ParseAfterMemberWellFormed(m: Member, after: string)
    requires WellFormed(m.value)
    ensures ParseAfterMember(m, after).Some? ==>
      forall x :: x in ParseAfterMember(m, after).value.value ==> WellFormed(x.value)
    decreases |after|, 3
  {
    var t := SkipSpace(after);
    if t != [] && t[0] == ',' {
      ParseMembersWellFormed(t[1..]);
    }
  }
}
