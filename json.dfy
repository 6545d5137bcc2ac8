/** JSON values as `json.loads` returns them, and the Python operations the
    checks apply to them: `.get`, `[key]`, `len`, iteration and `in`. */
module Json {
  import opened PyCore
  import opened PyStr

  /** A decoded JSON value. An object keeps its members in text order,
      duplicates included; numbers are exact. Python's None is JNull. */
  datatype Json =
    | JNull
    | JBool(b: bool)
    | JNum(n: real)
    | JStr(s: string)
    | JArr(items: seq<Json>)
    | JObj(members: seq<(string, Json)>)

  /** The value a decoded dict holds for `key`; json.loads keeps the last of
      duplicate keys. */
  function Lookup(members: seq<(string, Json)>, key: string): (r: Option<Json>)
    ensures r.None? <==> forall i :: 0 <= i < |members| ==> members[i].0 != key
    ensures r.Some? ==> exists i :: 0 <= i < |members| && members[i] == (key, r.value)
                                    && forall j :: i < j < |members| ==> members[j].0 != key
  {
    if members == [] then None
    else if members[|members| - 1].0 == key then Some(members[|members| - 1].1)
    else Lookup(members[..|members| - 1], key)
  }

  /** The keys of a decoded dict, each once, in first-occurrence order. */
  function Keys(members: seq<(string, Json)>): (ks: seq<string>)
    ensures |ks| <= |members|
    ensures forall k :: k in ks <==> exists i :: 0 <= i < |members| && members[i].0 == k
    ensures forall i, j :: 0 <= i < j < |ks| ==> ks[i] != ks[j]
  {
    if members == [] then []
    else
      var ks := Keys(members[..|members| - 1]);
      var k := members[|members| - 1].0;
      if k in ks then ks else ks + [k]
  }

  /** `v.get(key, default)`. */
  function Get(v: Json, key: string, default: Json): (r: Outcome<Json>)
    ensures r.Raised? <==> !v.JObj?
    ensures r.Raised? ==> r.exc == AttributeError
    ensures v.JObj? ==> r.value == match Lookup(v.members, key)
                                   case Some(x) => x
                                   case None => default
  {
    match v
    case JObj(members) =>
      (match Lookup(members, key)
       case Some(x) => Ok(x)
       case None => Ok(default))
    case _ => Raised(AttributeError)
  }

  /** `v[key]` with a string key. */
  function Subscript(v: Json, key: string): (r: Outcome<Json>)
    ensures r.Ok? <==> v.JObj? && Lookup(v.members, key).Some?
    ensures r.Ok? ==> r.value == Lookup(v.members, key).value
    ensures r.Raised? ==> r.exc == (if v.JObj? then KeyError else TypeError)
  {
    match v
    case JObj(members) =>
      (match Lookup(members, key)
       case Some(x) => Ok(x)
       case None => Raised(KeyError))
    case _ => Raised(TypeError)
  }

  /** The one-character strings of `s`, as iterating a str yields them. */
  function Chars(s: string): (r: seq<Json>)
    ensures |r| == |s|
    ensures forall k :: 0 <= k < |s| ==> r[k] == JStr([s[k]])
  {
    if s == [] then [] else [JStr([s[0]])] + Chars(s[1..])
  }

  /** The keys of a dict as the str values iterating it yields. */
  function KeyStrings(ks: seq<string>): (r: seq<Json>)
    ensures |r| == |ks|
    ensures forall k :: 0 <= k < |ks| ==> r[k] == JStr(ks[k])
  {
    if ks == [] then [] else [JStr(ks[0])] + KeyStrings(ks[1..])
  }

  /** What `for x in v` visits: a list's items, a dict's keys, a str's
      characters; anything else is not iterable. */
  function Iterate(v: Json): (r: Outcome<seq<Json>>)
    ensures r.Raised? <==> v.JNull? || v.JBool? || v.JNum?
    ensures r.Raised? ==> r.exc == TypeError
    ensures v.JArr? ==> r == Ok(v.items)
  {
    match v
    case JArr(items) => Ok(items)
    case JObj(members) => Ok(KeyStrings(Keys(members)))
    case JStr(s) => Ok(Chars(s))
    case _ => Raised(TypeError)
  }

  /** `len(v)`. */
  function Len(v: Json): (r: Outcome<nat>)
    ensures r.Raised? <==> v.JNull? || v.JBool? || v.JNum?
    ensures r.Raised? ==> r.exc == TypeError
  {
    match v
    case JArr(items) => Ok(|items|)
    case JObj(members) => Ok(|Keys(members)|)
    case JStr(s) => Ok(|s|)
    case _ => Raised(TypeError)
  }

  /** `len(v)` counts exactly the elements `for x in v` visits. */
  lemma LenCountsIteration(v: Json)
    ensures Len(v).Ok? <==> Iterate(v).Ok?
    ensures Len(v).Ok? ==> Len(v).value == |Iterate(v).value|
  {
  }

  /** A dict has a key exactly when its member list is non-empty. */
  lemma {:induction false} KeysEmpty(members: seq<(string, Json)>)
    ensures |Keys(members)| == 0 <==> members == []
  {
    if members != [] {
      assert members[0].0 in Keys(members);
    }
  }

  /** `key in v` for a str `key`: dict membership, list membership, or
      substring; other values are not containers. */
  function Contains(v: Json, key: string): (r: Outcome<bool>)
    ensures r.Raised? <==> v.JNull? || v.JBool? || v.JNum?
    ensures r.Raised? ==> r.exc == TypeError
    ensures v.JObj? ==> r == Ok(Lookup(v.members, key).Some?)
    ensures v.JArr? ==> r == Ok(exists k :: 0 <= k < |v.items| && v.items[k] == JStr(key))
    ensures v.JStr? ==> r == Ok(IsSubstring(key, v.s))
  {
    match v
    case JObj(members) => Ok(Lookup(members, key).Some?)
    case JArr(items) => Ok(JStr(key) in items)
    case JStr(s) => Ok(IsSubstring(key, s))
    case _ => Raised(TypeError)
  }
}
