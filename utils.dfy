/** The input rules of get_user_input and the node search of get_slug. The
    console answers, the model's list of ideal months and the clock arrive
    as parameters; the HTTP request of get_slug is replaced by its decoded
    JSON reply. */
module Utils {
  import opened PyCore
  import opened PyStr
  import opened Json
  import opened Calendar
  import Tools

  const MAX_LOCATION_LENGTH := 50
  const MAX_DIVERS := 4
  const MAX_NIGHTS := 14
  const MAX_ANIMALS := 5
  const DEFAULT_ANIMAL := "sharks"
  const DEFAULT_DEPARTURE := "LAS"

  // ---- location ----

  /** The location, cut to its first 50 characters when it is longer. */
  function TruncateLocation(location: string): (r: string)
    ensures |r| == if |location| <= MAX_LOCATION_LENGTH then |location| else MAX_LOCATION_LENGTH
    ensures StartsWith(location, r)
  {
    if |location| > MAX_LOCATION_LENGTH then location[..MAX_LOCATION_LENGTH] else location
  }

  // ---- divers and nights ----

  function Distance(a: int, b: int): nat {
    if a >= b then a - b else b - a
  }

  /** A count forced into 1..hi: zero or less becomes 1, more than `hi`
      becomes `hi`. The result is the value of 1..hi nearest to `n`. */
  function Clamp(n: int, hi: int): (r: int)
    requires 1 <= hi
    ensures 1 <= r <= hi
    ensures forall v :: 1 <= v <= hi ==> Distance(r, n) <= Distance(v, n)
  {
    if n <= 0 then 1
    else if n > hi then hi
    else n
  }

  /** A count already in range is kept, so clamping twice is clamping once. */
  lemma ClampKeepsInRange(n: int, hi: int)
    requires 1 <= hi
    ensures 1 <= n <= hi ==> Clamp(n, hi) == n
    ensures Clamp(Clamp(n, hi), hi) == Clamp(n, hi)
  {
    if 1 <= n <= hi {
      assert Distance(Clamp(n, hi), n) <= Distance(n, n);
    }
    var r := Clamp(n, hi);
    assert Distance(Clamp(r, hi), r) <= Distance(r, r);
  }

  // ---- animals ----

  /** `[a.strip() for a in parts if a.strip()]`. */
  function StrippedItems(parts: seq<string>): (items: seq<string>)
    ensures |items| <= |parts|
  {
    if parts == [] then []
    else
      var a := Strip(parts[0]);
      (if a != [] then [a] else []) + StrippedItems(parts[1..])
  }

  /** Every item kept is non-empty and stripped. */
  lemma {:induction false} StrippedItemsClean(parts: seq<string>)
    ensures forall k :: 0 <= k < |StrippedItems(parts)| ==>
              StrippedItems(parts)[k] != [] && IsStripped(StrippedItems(parts)[k])
  {
    if parts != [] {
      StrippedItemsClean(parts[1..]);
    }
  }

  /** One part gives its stripped form, or nothing when that is empty. */
  lemma StrippedItemsSingle(p: string)
    ensures StrippedItems([p]) == if Strip(p) != [] then [Strip(p)] else []
  {
    assert [p][1..] == [];
  }

  /** The comprehension over a concatenation is the concatenation of the
      comprehensions, so each part contributes its own stripped form in
      order. */
  lemma {:induction false} StrippedItemsConcat(a: seq<string>, b: seq<string>)
    ensures StrippedItems(a + b) == StrippedItems(a) + StrippedItems(b)
  {
    if a == [] {
      assert a + b == b;
    } else {
      assert (a + b)[0] == a[0];
      assert (a + b)[1..] == a[1..] + b;
      StrippedItemsConcat(a[1..], b);
    }
  }

  /** Items free of the separator stay free of it once stripped. */
  lemma {:induction false} StrippedItemsKeepOut(parts: seq<string>, c: char)
    requires forall k :: 0 <= k < |parts| ==> c !in parts[k]
    ensures forall k :: 0 <= k < |StrippedItems(parts)| ==> c !in StrippedItems(parts)[k]
  {
    if parts != [] {
      StripKeepsOut(parts[0], c);
      assert forall k :: 0 <= k < |parts| - 1 ==> parts[1..][k] == parts[k + 1];
      StrippedItemsKeepOut(parts[1..], c);
    }
  }

  /** Items that are non-empty and already stripped pass through unchanged. */
  lemma {:induction false} StrippedItemsOfStripped(parts: seq<string>)
    requires forall k :: 0 <= k < |parts| ==> parts[k] != [] && IsStripped(parts[k])
    ensures StrippedItems(parts) == parts
  {
    if parts != [] {
      StripUnique(parts[0], [], parts[0], []);
      assert forall k :: 0 <= k < |parts| - 1 ==> parts[1..][k] == parts[k + 1];
      StrippedItemsOfStripped(parts[1..]);
    }
  }

  /** The animals rule: the comma-separated items, stripped, without the
      empty ones; ["sharks"] when none is left, the first five when more are. */
  function ParseAnimals(raw: string): (animals: seq<string>)
    ensures 1 <= |animals| <= MAX_ANIMALS
    ensures var items := StrippedItems(Split(raw, ','));
            if items == [] then animals == [DEFAULT_ANIMAL]
            else |animals| == (if |items| <= MAX_ANIMALS then |items| else MAX_ANIMALS)
                 && animals == items[..|animals|]
  {
    var items := StrippedItems(Split(raw, ','));
    if items == [] then [DEFAULT_ANIMAL]
    else if |items| > MAX_ANIMALS then items[..MAX_ANIMALS]
    else items
  }

  /** Every animal kept is a non-empty, stripped name with no comma in it. */
  lemma AnimalsWellFormed(raw: string)
    ensures forall k :: 0 <= k < |ParseAnimals(raw)| ==>
              ParseAnimals(raw)[k] != [] && IsStripped(ParseAnimals(raw)[k]) && ',' !in ParseAnimals(raw)[k]
  {
    var items := StrippedItems(Split(raw, ','));
    var animals := ParseAnimals(raw);
    if items == [] {
      DefaultAnimalWellFormed();
    } else {
      StrippedItemsKeepOut(Split(raw, ','), ',');
      StrippedItemsClean(Split(raw, ','));
      assert forall k :: 0 <= k < |animals| ==> animals[k] == items[k];
    }
  }

  lemma DefaultAnimalWellFormed()
    ensures DEFAULT_ANIMAL != [] && IsStripped(DEFAULT_ANIMAL) && ',' !in DEFAULT_ANIMAL
  {
    assert forall k :: 0 <= k < |DEFAULT_ANIMAL| ==> IsLowerLetter(DEFAULT_ANIMAL[k]);
  }

  /** Typing one to five names joined by commas gives back those names. */
  lemma AnimalsRoundTrip(names: seq<string>)
    requires 1 <= |names| <= MAX_ANIMALS
    requires forall k :: 0 <= k < |names| ==> names[k] != [] && IsStripped(names[k]) && ',' !in names[k]
    ensures ParseAnimals(Join(names, ',')) == names
  {
    SplitJoin(names, ',');
    StrippedItemsOfStripped(names);
  }

  // ---- departure airport ----

  /** The departure rule: three letters are kept, upper-cased; anything
      else becomes "LAS". */
  function NormaliseDeparture(code: string): (r: string)
    ensures |r| == 3 && forall k :: 0 <= k < 3 ==> IsUpperLetter(r[k])
    ensures |code| == 3 && IsAlpha(code) ==> Lower(r) == Lower(code)
    ensures !(|code| == 3 && IsAlpha(code)) ==> r == DEFAULT_DEPARTURE
  {
    var c := if |code| != 3 || !IsAlpha(code) then DEFAULT_DEPARTURE else code;
    var r := Upper(c);
    forall k | 0 <= k < 3 ensures LowerChar(r[k]) == LowerChar(c[k]) {
      CaseOfCase(c[k]);
    }
    r
  }

  /** A normalised code is left as it is by a second pass. */
  lemma DepartureIdempotent(code: string)
    ensures NormaliseDeparture(NormaliseDeparture(code)) == NormaliseDeparture(code)
  {
    var r := NormaliseDeparture(code);
    assert IsAlpha(r);
    assert Upper(r) == r;
  }

  // ---- month ----

  /** `month.title() in MONTHS`: the text is a month name in some letter
      case. */
  predicate IsMonthName(month: string)
    ensures IsMonthName(month) <==> Lower(month) in MONTH_KEYS
  {
    TitleNameIffLowerKey(month);
    Title(month) in MONTH_NAMES
  }

  lemma TitleNameIffLowerKey(month: string)
    ensures Title(month) in MONTH_NAMES <==> Lower(month) in MONTH_KEYS
  {
    if Title(month) in MONTH_NAMES {
      var j :| 0 <= j < 12 && MONTH_NAMES[j] == Title(month);
      TitleLowersToKey(month, j);
    }
    if Lower(month) in MONTH_KEYS {
      var j :| 0 <= j < 12 && MONTH_KEYS[j] == Lower(month);
      KeyTitlesToName(month, j);
    }
  }

  /** `ideal_months.split(",")[0].strip()`. */
  function FirstIdealMonth(idealMonths: string): (r: string)
    ensures ',' !in r && IsStripped(r)
  {
    var first := Split(idealMonths, ',')[0];
    StripKeepsOut(first, ',');
    Strip(first)
  }

  /** The month rule: a month name in any letter case is kept as typed;
      anything else is replaced by the first of the ideal months. */
  function ChooseMonth(month: string, idealMonths: string): (r: string)
    ensures IsMonthName(month) ==> r == month
    ensures !IsMonthName(month) ==> r == FirstIdealMonth(idealMonths)
  {
    if !IsMonthName(month) then FirstIdealMonth(idealMonths) else month
  }

  /** With ideal months listed as "June, July, August", the first item
      (without its surrounding spaces) is the one chosen. */
  lemma FirstIdealMonthOf(pre: string, first: string, rest: string)
    requires AllSpace(pre) && ',' !in pre && ',' !in first && IsStripped(first)
    ensures FirstIdealMonth(pre + first + "," + rest) == first
  {
    SplitFirst(pre + first, ',', rest);
    assert pre + first + "," + rest == (pre + first) + [','] + rest;
    StripUnique(pre + first, pre, first, []);
  }

  /** The title-case test of the month rule accepts exactly the names that
      strptime's %B reads, so a month the rule keeps never makes the year
      rule raise. */
  lemma MonthNameIffStrptime(month: string)
    ensures IsMonthName(month) <==> MonthNumber(month).Ok?
  {
    if MonthNumber(month).Ok? {
      assert MONTH_KEYS[MonthNumber(month).value - 1] in MONTH_KEYS;
    }
  }

  lemma TitleLowersToKey(month: string, j: int)
    requires 0 <= j < 12 && Title(month) == MONTH_NAMES[j]
    ensures Lower(month) == MONTH_KEYS[j]
  {
    MonthNameShape(j);
    MonthKeyLetters(j);
    var t, name, key := TitleFrom(month, false), MONTH_NAMES[j], MONTH_KEYS[j];
    assert |month| == |t| == |name| == |key|;
    forall k | 0 <= k < |month| ensures IsLetter(month[k]) {
      CaseOfCase(month[k]);
      if k == 0 {
        CaseOfCase(key[0]);
      } else {
        assert t[k] == (if IsLetter(month[k - 1]) then LowerChar(month[k]) else UpperChar(month[k]));
      }
      assert IsLetter(t[k]);
    }
    forall k | 0 <= k < |month| ensures Lower(month)[k] == key[k] {
      CaseOfCase(month[k]);
      if k == 0 {
        CaseOfCase(key[0]);
        assert t[0] == UpperChar(month[0]);
      } else {
        assert IsLetter(month[k - 1]);
        assert t[k] == LowerChar(month[k]);
      }
    }
  }

  lemma KeyTitlesToName(month: string, j: int)
    requires 0 <= j < 12 && Lower(month) == MONTH_KEYS[j]
    ensures Title(month) == MONTH_NAMES[j]
  {
    MonthNameShape(j);
    MonthKeyLetters(j);
    var t, name, key := TitleFrom(month, false), MONTH_NAMES[j], MONTH_KEYS[j];
    assert |month| == |t| == |name| == |key|;
    forall k | 0 <= k < |month| ensures IsLetter(month[k]) {
      assert LowerChar(month[k]) == key[k];
    }
    forall k | 0 <= k < |month| ensures t[k] == name[k] {
      CaseOfCase(month[k]);
      assert LowerChar(month[k]) == key[k];
      if k > 0 {
        assert IsLetter(month[k - 1]);
      }
    }
  }

  // ---- year ----

  /** The year rule. A year before the current one, or the current year
      with a month already past, becomes next year; strptime reads the
      month only when the year is the current one, and raises ValueError
      when it is not a month name. */
  function ChooseYear(year: int, month: string, nowYear: int, nowMonth: int): (r: Outcome<int>)
    ensures r.Raised? <==> year == nowYear && MonthNumber(month).Raised?
    ensures r.Raised? ==> r.exc == ValueError
    ensures r.Ok? ==> r.value == year || r.value == nowYear + 1
    ensures r.Ok? ==> r.value >= nowYear
    ensures r == Ok(year) <==>
              year > nowYear || (year == nowYear && MonthNumber(month).Ok? && MonthNumber(month).value >= nowMonth)
  {
    if year < nowYear then Ok(nowYear + 1)
    else if year == nowYear then
      var m :- MonthNumber(month);
      if nowMonth > m then Ok(nowYear + 1) else Ok(year)
    else Ok(year)
  }

  // ---- get_user_input as a whole ----

  /** What get_user_input returns, the year as a number. */
  datatype TripRequest = TripRequest(
    animals: seq<string>, location: string, divers: int, nights: int,
    month: string, year: int, departure: string)

  /** The bounds every request satisfies. */
  predicate WithinLimits(t: TripRequest) {
    && 1 <= |t.animals| <= MAX_ANIMALS
    && |t.location| <= MAX_LOCATION_LENGTH
    && 1 <= t.divers <= MAX_DIVERS
    && 1 <= t.nights <= MAX_NIGHTS
    && |t.departure| == 3
  }

  /** get_user_input with every console answer, the model's ideal months
      and the current year and month passed in, the rules applied in the
      order of the source. */
  function UserInput(location: string, divers: int, nights: int, animals: string, idealMonths: string,
                     month: string, year: int, departure: string, nowYear: int, nowMonth: int)
    : (r: Outcome<TripRequest>)
    ensures r.Raised? ==> r.exc == ValueError
    ensures r.Ok? ==> WithinLimits(r.value) && r.value.year >= nowYear
  {
    var loc := TruncateLocation(location);
    var numDivers := Clamp(divers, MAX_DIVERS);
    var numNights := Clamp(nights, MAX_NIGHTS);
    var animalList := ParseAnimals(animals);
    var chosenMonth := ChooseMonth(month, idealMonths);
    var chosenYear :- ChooseYear(year, chosenMonth, nowYear, nowMonth);
    Ok(TripRequest(animalList, loc, numDivers, numNights, chosenMonth, chosenYear, NormaliseDeparture(departure)))
  }

  /** A month typed as a month name never makes get_user_input raise, and
      the resulting request asks the date-range tool a question it answers
      with a list (the year is the current one or later, before 9999). */
  lemma MonthNameRequestAnswered(location: string, divers: int, nights: int, animals: string, idealMonths: string,
                                 month: string, year: int, departure: string, nowYear: int, nowMonth: int,
                                 today: Date)
    requires IsMonthName(month) && 1 <= nowYear
    requires year < MAX_YEAR && nowYear + 1 < MAX_YEAR
    ensures var r := UserInput(location, divers, nights, animals, idealMonths, month, year, departure, nowYear, nowMonth);
            && r.Ok?
            && MonthNumber(r.value.month).Ok?
            && Tools.MonthAnswer(r.value.year, MonthNumber(r.value.month).value, r.value.nights, today).Ok?
  {
    MonthNameIffStrptime(month);
    var r := UserInput(location, divers, nights, animals, idealMonths, month, year, departure, nowYear, nowMonth);
    assert r.value.month == month;
    Tools.ShortStaysDoNotOverflow(r.value.year, MonthNumber(month).value, r.value.nights);
  }

  // ---- get_slug ----

  /** The exceptions get_slug's `except` clause catches. */
  predicate Caught(e: Exception) {
    e == KeyError || e == IndexError || e == TypeError
  }

  /** What leaves the `try` block: a caught exception becomes None, and a
      value or an exception the clause does not catch passes through. */
  function Handled(r: Outcome<Json>): (h: Outcome<Json>)
    ensures h.Raised? ==> !Caught(h.exc)
    ensures r.Raised? && Caught(r.exc) ==> h == Ok(JNull)
    ensures !(r.Raised? && Caught(r.exc)) ==> h == r
  {
    if r.Raised? && Caught(r.exc) then Ok(JNull) else r
  }

  /** The loop of get_slug from `places` on: `place["node"]`, then
      `node.get("code")` compared with the airport code; the first match
      returns `node.get("slug")`, and running out of places returns None.
      The only exceptions are those of `[]` and `.get`. */
  function SlugFrom(places: seq<Json>, code: string): (r: Outcome<Json>)
    ensures r.Raised? ==> r.exc == KeyError || r.exc == TypeError || r.exc == AttributeError
  {
    if places == [] then Ok(JNull)
    else
      var node :- Subscript(places[0], "node");
      var nodeCode :- Get(node, "code", JNull);
      if nodeCode == JStr(code) then Get(node, "slug", JNull)
      else SlugFrom(places[1..], code)
  }

  /** get_slug on the decoded reply `data`. The one exception that escapes
      it is AttributeError. */
  function Slug(data: Json, code: string): (r: Outcome<Json>)
    ensures r.Raised? ==> r.exc == AttributeError
  {
    Handled(
      var d :- Subscript(data, "data");
      var p :- Subscript(d, "places");
      var edges :- Subscript(p, "edges");
      var places :- Iterate(edges);
      SlugFrom(places, code))
  }

  /** get_slug's search as the source runs it: a loop with an early return. */
  method FindSlug(data: Json, code: string) returns (r: Outcome<Json>)
    ensures r == Slug(data, code)
  {
    var d := Subscript(data, "data");
    if d.Raised? { return Handled(Raised(d.exc)); }
    var p := Subscript(d.value, "places");
    if p.Raised? { return Handled(Raised(p.exc)); }
    var edges := Subscript(p.value, "edges");
    if edges.Raised? { return Handled(Raised(edges.exc)); }
    var places := Iterate(edges.value);
    if places.Raised? { return Handled(Raised(places.exc)); }
    var items := places.value;
    var i := 0;
    while i < |items|
      invariant 0 <= i <= |items|
      invariant SlugFrom(items[i..], code) == SlugFrom(items, code)
    {
      assert items[i..][1..] == items[i + 1..];
      var node := Subscript(items[i], "node");
      if node.Raised? { return Handled(Raised(node.exc)); }
      var nodeCode := Get(node.value, "code", JNull);
      if nodeCode.Raised? { return Handled(Raised(nodeCode.exc)); }
      if nodeCode.value == JStr(code) {
        return Handled(Get(node.value, "slug", JNull));
      }
      i := i + 1;
    }
    return Ok(JNull);
  }

  /** A place shaped as the API sends it: a dict whose "node" is a dict. */
  predicate IsPlace(place: Json) {
    place.JObj? && Lookup(place.members, "node").Some? && Lookup(place.members, "node").value.JObj?
  }

  function NodeOf(place: Json): (node: seq<(string, Json)>)
    requires IsPlace(place)
  {
    Lookup(place.members, "node").value.members
  }

  /** The node of `place` has the airport code. */
  predicate HasCode(place: Json, code: string)
    requires IsPlace(place)
  {
    Lookup(NodeOf(place), "code") == Some(JStr(code))
  }

  /** The index of the first place whose node has `code` (|places| if none). */
  function FirstWithCode(places: seq<Json>, code: string): (k: nat)
    requires forall i :: 0 <= i < |places| ==> IsPlace(places[i])
    ensures k <= |places|
    ensures k < |places| ==> HasCode(places[k], code)
  {
    if places == [] || HasCode(places[0], code) then 0
    else
      var tail := places[1..];
      assert forall i :: 0 <= i < |tail| ==> tail[i] == places[i + 1];
      1 + FirstWithCode(tail, code)
  }

  /** No place before the one FirstWithCode finds has the airport code. */
  lemma {:induction false} FirstWithCodeIsFirst(places: seq<Json>, code: string, i: nat)
    requires forall j :: 0 <= j < |places| ==> IsPlace(places[j])
    requires i < FirstWithCode(places, code)
    ensures !HasCode(places[i], code)
  {
    if i > 0 {
      var tail := places[1..];
      assert forall j :: 0 <= j < |tail| ==> tail[j] == places[j + 1];
      FirstWithCodeIsFirst(tail, code, i - 1);
    }
  }

  /** Over well-shaped places the search is a first match: the slug of the
      first node whose code is the airport code (None when that node has no
      slug), and None when no node has it. */
  lemma {:induction false} SlugFirstMatch(places: seq<Json>, code: string)
    requires forall i :: 0 <= i < |places| ==> IsPlace(places[i])
    ensures var k := FirstWithCode(places, code);
            SlugFrom(places, code) ==
              if k == |places| then Ok(JNull)
              else match Lookup(NodeOf(places[k]), "slug")
                   case Some(slug) => Ok(slug)
                   case None => Ok(JNull)
  {
    if places != [] && !HasCode(places[0], code) {
      var tail := places[1..];
      assert forall i :: 0 <= i < |tail| ==> tail[i] == places[i + 1];
      SlugFirstMatch(tail, code);
      var k, kt := FirstWithCode(places, code), FirstWithCode(tail, code);
      assert k == kt + 1;
      assert SlugFrom(places, code) == SlugFrom(tail, code);
      if kt < |tail| {
        assert places[k] == tail[kt];
      }
    }
  }

  /** A reply without the `data`, `places` or `edges` keys, or with one of
      them not a dict, gives None. */
  lemma MissingKeysGiveNone(data: Json, code: string)
    requires || Subscript(data, "data").Raised?
             || Subscript(Subscript(data, "data").value, "places").Raised?
             || Subscript(Subscript(Subscript(data, "data").value, "places").value, "edges").Raised?
    ensures Slug(data, code) == Ok(JNull)
  {
  }

  /** The reply get_slug walks: `{"data": {"places": {"edges": places}}}`. */
  function Reply(places: seq<Json>): Json {
    JObj([("data", JObj([("places", JObj([("edges", JArr(places))]))]))])
  }

  /** On a reply of well-shaped places, get_slug is the search: it raises
      nothing and returns what SlugFirstMatch describes. */
  lemma SlugOfReply(places: seq<Json>, code: string)
    requires forall i :: 0 <= i < |places| ==> IsPlace(places[i])
    ensures Slug(Reply(places), code) == SlugFrom(places, code)
  {
    SlugFromOk(places, code);
    var d := JObj([("places", JObj([("edges", JArr(places))]))]);
    assert Subscript(Reply(places), "data") == Ok(d);
    assert Subscript(d, "places") == Ok(JObj([("edges", JArr(places))]));
  }

  /** Over well-shaped places the search raises nothing. */
  lemma {:induction false} SlugFromOk(places: seq<Json>, code: string)
    requires forall i :: 0 <= i < |places| ==> IsPlace(places[i])
    ensures SlugFrom(places, code).Ok?
  {
    if places != [] {
      assert forall i :: 0 <= i < |places| - 1 ==> places[1..][i] == places[i + 1];
      SlugFromOk(places[1..], code);
    }
  }

  /** Places whose node is a dict without the airport code are passed over. */
  lemma {:induction false} SlugFromSkips(pre: seq<Json>, rest: seq<Json>, code: string)
    requires forall i :: 0 <= i < |pre| ==> IsPlace(pre[i]) && !HasCode(pre[i], code)
    ensures SlugFrom(pre + rest, code) == SlugFrom(rest, code)
  {
    if pre != [] {
      var s := pre + rest;
      assert s[0] == pre[0] && s[1..] == pre[1..] + rest;
      var node := Lookup(pre[0].members, "node").value;
      assert Subscript(s[0], "node") == Ok(node);
      assert Get(node, "code", JNull).value != JStr(code);
      assert forall i :: 0 <= i < |pre| - 1 ==> pre[1..][i] == pre[i + 1];
      SlugFromSkips(pre[1..], rest, code);
    } else {
      assert pre + rest == rest;
    }
  }

  /** A place whose node is not a dict (JSON null, say), reached before any
      match, makes get_slug raise AttributeError wherever it stands in the
      reply: the `except` clause does not catch it. */
  lemma NonDictNodeRaises(pre: seq<Json>, place: Json, post: seq<Json>, code: string)
    requires forall i :: 0 <= i < |pre| ==> IsPlace(pre[i]) && !HasCode(pre[i], code)
    requires place.JObj? && Lookup(place.members, "node").Some? && !Lookup(place.members, "node").value.JObj?
    ensures Slug(Reply(pre + [place] + post), code) == Raised(AttributeError)
  {
    assert pre + [place] + post == pre + ([place] + post);
    SlugFromSkips(pre, [place] + post, code);
    assert ([place] + post)[0] == place;
  }
}
