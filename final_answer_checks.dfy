/** The checks run on the agent's final JSON answer: at least one result,
    results sorted by total package cost, and flight dates that bracket the
    resort stay. Each takes the answer as `json_loads` decoded it (None when
    the text is not JSON) and returns a verdict or the exception raised. */
module FinalAnswerChecks {
  import opened PyCore
  import opened Json
  import opened Calendar

  const RESULTS_KEY := "results"
  const COST_KEY := "total_package_cost"

  /** `json_loads(data).get("results", [])`. */
  function ResultsValue(parsed: Option<Json>): (r: Outcome<Json>)
    ensures parsed.None? ==> r == Raised(JSONDecodeError)
    ensures parsed.Some? && !parsed.value.JObj? ==> r == Raised(AttributeError)
    ensures parsed.Some? && parsed.value.JObj? && Lookup(parsed.value.members, RESULTS_KEY).None?
            ==> r == Ok(JArr([]))
  {
    match parsed
    case None => Raised(JSONDecodeError)
    case Some(doc) => Get(doc, RESULTS_KEY, JArr([]))
  }

  /** The packages `for result in results` visits. */
  function ResultItems(parsed: Option<Json>): Outcome<seq<Json>> {
    var results :- ResultsValue(parsed);
    Iterate(results)
  }

  // ---- validate_at_least_one_result ----

  /** `len(results) > 0`: true exactly when iterating `results` would visit
      at least one package; raises exactly when the packages cannot be
      iterated. */
  function ValidateAtLeastOneResult(parsed: Option<Json>): (r: Outcome<bool>)
    ensures r.Raised? <==> ResultItems(parsed).Raised?
    ensures r.Raised? ==> r.exc == ResultItems(parsed).exc
    ensures r.Ok? ==> (r.value <==> |ResultItems(parsed).value| > 0)
  {
    var results :- ResultsValue(parsed);
    LenCountsIteration(results);
    var n :- Len(results);
    Ok(n > 0)
  }

  // ---- validate_sorted_by_cost ----

  /** One step of the comprehension: the cost `item` contributes (None when
      `"total_package_cost" in item` is false). */
  function CostOf(item: Json): (r: Outcome<Option<Json>>)
    ensures item.JObj? ==> r == Ok(Lookup(item.members, COST_KEY))
    ensures r == Ok(None) <==> Contains(item, COST_KEY) == Ok(false)
    ensures r.Raised? ==> r.exc == TypeError
  {
    var has :- Contains(item, COST_KEY);
    if has then
      var cost :- Subscript(item, COST_KEY);
      Ok(Some(cost))
    else Ok(None)
  }

  /** The costs of the items that have one, in list order. */
  function Costs(items: seq<Json>): (r: Outcome<seq<Json>>)
    ensures r.Ok? ==> |r.value| <= |items|
    ensures r.Raised? ==> r.exc == TypeError
  {
    if items == [] then Ok([])
    else
      var first :- CostOf(items[0]);
      var rest :- Costs(items[1..]);
      Ok((if first.Some? then [first.value] else []) + rest)
  }

  /** The comprehension succeeds when every item can be asked for its cost. */
  lemma {:induction false} CostsOk(items: seq<Json>)
    requires forall i :: 0 <= i < |items| ==> CostOf(items[i]).Ok?
    ensures Costs(items).Ok?
  {
    if items != [] {
      assert forall i :: 0 <= i < |items| - 1 ==> items[1..][i] == items[i + 1];
      CostsOk(items[1..]);
    }
  }

  /** The first item that cannot be asked for its cost decides the exception. */
  lemma {:induction false} CostsRaiseAt(items: seq<Json>, i: int)
    requires 0 <= i < |items| && CostOf(items[i]).Raised?
    requires forall j :: 0 <= j < i ==> CostOf(items[j]).Ok?
    ensures Costs(items) == Raised(CostOf(items[i]).exc)
  {
    if i > 0 {
      assert forall j :: 0 <= j < i - 1 ==> items[1..][j] == items[j + 1];
      CostsRaiseAt(items[1..], i - 1);
    }
  }

  predicate AllNumbers(costs: seq<Json>) {
    forall i :: 0 <= i < |costs| ==> costs[i].JNum?
  }

  /** Every earlier cost is at most every later one. */
  predicate NonDecreasing(costs: seq<Json>)
    requires AllNumbers(costs)
  {
    forall i, j :: 0 <= i < j < |costs| ==> costs[i].n <= costs[j].n
  }

  /** Each cost is at most the next one. */
  predicate AdjacentInOrder(costs: seq<Json>)
    requires AllNumbers(costs)
  {
    forall i :: 0 < i < |costs| ==> costs[i - 1].n <= costs[i].n
  }

  lemma {:induction false} AdjacentGivesNonDecreasing(costs: seq<Json>)
    requires AllNumbers(costs) && AdjacentInOrder(costs)
    ensures NonDecreasing(costs)
  {
    if |costs| > 1 {
      var tail := costs[1..];
      assert forall i :: 0 < i < |tail| ==> tail[i - 1] == costs[i] && tail[i] == costs[i + 1];
      AdjacentGivesNonDecreasing(tail);
      forall i, j | 0 <= i < j < |costs| ensures costs[i].n <= costs[j].n {
        if i > 0 {
          assert tail[i - 1] == costs[i] && tail[j - 1] == costs[j];
        } else if j > 1 {
          assert tail[0] == costs[1] && tail[j - 1] == costs[j];
        }
      }
    }
  }

  /** `costs == sorted(costs)`: true exactly when the numeric costs never
      decrease; a list of zero or one costs is sorted whatever it holds. */
  function Ordered(costs: seq<Json>): (r: Outcome<bool>)
    ensures |costs| <= 1 ==> r == Ok(true)
    ensures AllNumbers(costs) ==> r == Ok(NonDecreasing(costs))
    ensures r.Raised? ==> r.exc == TypeError
  {
    if |costs| <= 1 then Ok(true)
    else if AllNumbers(costs) then
      if AdjacentInOrder(costs) then
        AdjacentGivesNonDecreasing(costs);
        Ok(true)
      else Ok(false)
    else Raised(TypeError)
  }

  /** The verdict on the packages once they are known: TypeError is the
      only exception, and zero or one cost is always sorted. */
  function SortedVerdict(items: seq<Json>): (r: Outcome<bool>)
    ensures r.Raised? ==> r.exc == TypeError
    ensures Costs(items).Ok? && |Costs(items).value| <= 1 ==> r == Ok(true)
  {
    var costs :- Costs(items);
    Ordered(costs)
  }

  /** validate_sorted_by_cost: when every item can be asked for its cost and
      the costs are numbers, true exactly when they never decrease. */
  function ValidateSortedByCost(parsed: Option<Json>): (r: Outcome<bool>)
    ensures ResultItems(parsed).Raised? ==> r == Raised(ResultItems(parsed).exc)
    ensures ResultItems(parsed).Ok? ==> r == SortedVerdict(ResultItems(parsed).value)
    ensures ResultItems(parsed).Ok? && Costs(ResultItems(parsed).value).Ok?
            && AllNumbers(Costs(ResultItems(parsed).value).value)
            ==> r == Ok(NonDecreasing(Costs(ResultItems(parsed).value).value))
  {
    var items :- ResultItems(parsed);
    SortedVerdict(items)
  }

  /** The comprehension over a concatenation is the concatenation of the
      comprehensions, and the first failing item decides the exception. */
  lemma {:induction false} CostsConcat(a: seq<Json>, b: seq<Json>)
    ensures Costs(a + b) == (var ca :- Costs(a); var cb :- Costs(b); Ok(ca + cb))
  {
    if a == [] {
      assert a + b == b;
      if Costs(b).Ok? {
        assert [] + Costs(b).value == Costs(b).value;
      }
    } else {
      assert (a + b)[0] == a[0];
      assert (a + b)[1..] == a[1..] + b;
      CostsConcat(a[1..], b);
      if CostOf(a[0]).Ok? && Costs(a[1..]).Ok? && Costs(b).Ok? {
        var first := CostOf(a[0]).value;
        var head := if first.Some? then [first.value] else [];
        assert head + (Costs(a[1..]).value + Costs(b).value) == (head + Costs(a[1..]).value) + Costs(b).value;
      }
    }
  }

  /** One item contributes its cost when it has one, nothing when it has
      none, and its exception when it cannot be asked. With CostsConcat this
      determines the comprehension on every list. */
  lemma CostsSingle(x: Json)
    ensures Costs([x]) == (var c :- CostOf(x); Ok(if c.Some? then [c.value] else []))
  {
    assert [x][1..] == [];
    if CostOf(x).Ok? && CostOf(x).value.Some? {
      assert [CostOf(x).value.value] + [] == [CostOf(x).value.value];
    }
  }

  /** A package with a dict cost `c`, as the agent reports it. */
  function CostedPackage(c: real): Json {
    JObj([(COST_KEY, JNum(c))])
  }

  /** Two packages costing 1500 and then 1200 are not sorted, and the
      reverse order is. */
  lemma DecreasingCostsRejected()
    ensures ValidateSortedByCost(Some(JObj([(RESULTS_KEY, JArr([CostedPackage(1500.0), CostedPackage(1200.0)]))]))) == Ok(false)
    ensures ValidateSortedByCost(Some(JObj([(RESULTS_KEY, JArr([CostedPackage(1200.0), CostedPackage(1500.0)]))]))) == Ok(true)
  {
    var p, q := CostedPackage(1500.0), CostedPackage(1200.0);
    CostsConcat([p], [q]);
    CostsSingle(p);
    CostsSingle(q);
    assert [p] + [q] == [p, q];
    CostsConcat([q], [p]);
    assert [q] + [p] == [q, p];
    assert CostOf(p) == Ok(Some(JNum(1500.0)));
    assert CostOf(q) == Ok(Some(JNum(1200.0)));
    var down := [JNum(1500.0), JNum(1200.0)];
    assert [JNum(1500.0)] + [JNum(1200.0)] == down;
    assert Costs([p, q]) == Ok(down);
    assert ResultItems(Some(JObj([(RESULTS_KEY, JArr([p, q]))]))) == Ok([p, q]);
    assert AllNumbers(down) && !AdjacentInOrder(down) by {
      assert down[0].n > down[1].n;
    }
    assert Ordered(down) == Ok(false);
  }

  /** Inserting or removing an item without a total_package_cost never
      changes the ordering verdict. */
  lemma CostlessItemIgnored(a: seq<Json>, x: Json, b: seq<Json>)
    requires CostOf(x) == Ok(None)
    ensures Costs(a + [x] + b) == Costs(a + b)
    ensures SortedVerdict(a + [x] + b) == SortedVerdict(a + b)
  {
    CostsConcat(a + [x], b);
    CostsConcat(a, [x]);
    CostsConcat(a, b);
    assert Costs([x]) == Ok([]) by {
      assert [x][1..] == [];
    }
    if Costs(a).Ok? {
      assert Costs(a).value + [] == Costs(a).value;
    }
  }

  /** A list whose only costed item is `x` is sorted. */
  lemma SingleCostSorted(a: seq<Json>, x: Json, b: seq<Json>)
    requires CostOf(x).Ok? && CostOf(x).value.Some?
    requires forall i :: 0 <= i < |a| ==> CostOf(a[i]) == Ok(None)
    requires forall i :: 0 <= i < |b| ==> CostOf(b[i]) == Ok(None)
    ensures SortedVerdict(a + [x] + b) == Ok(true)
  {
    NoCosts(a);
    NoCosts(b);
    CostsConcat(a + [x], b);
    CostsConcat(a, [x]);
    assert Costs([x]) == Ok([CostOf(x).value.value]) by {
      assert [x][1..] == [];
      assert [CostOf(x).value.value] + [] == [CostOf(x).value.value];
    }
  }

  lemma {:induction false} NoCosts(items: seq<Json>)
    requires forall i :: 0 <= i < |items| ==> CostOf(items[i]) == Ok(None)
    ensures Costs(items) == Ok([])
  {
    if items != [] {
      assert forall i :: 0 <= i < |items| - 1 ==> items[1..][i] == items[i + 1];
      NoCosts(items[1..]);
    }
  }

  // ---- validate_travel_dates ----

  /** The four dates one package is judged on. */
  datatype StayDates = StayDates(checkIn: Date, checkOut: Date, arrival: Date, departure: Date)

  /** `datetime.fromisoformat(v).date()`: a str is parsed, anything else
      (None included) raises TypeError. */
  function FromIsoFormat(v: Json): (r: Outcome<Date>)
    ensures v.JStr? ==> r == ParseIsoDate(v.s)
    ensures !v.JStr? ==> r == Raised(TypeError)
  {
    match v
    case JStr(s) => ParseIsoDate(s)
    case _ => Raised(TypeError)
  }

  /** The lookups and parses of one loop iteration, in the order the source
      performs them; the first to raise decides the exception. */
  function PackageDates(result: Json): (r: Outcome<StayDates>)
    ensures r.Ok? ==> IsValidDate(r.value.checkIn) && IsValidDate(r.value.checkOut)
                      && IsValidDate(r.value.arrival) && IsValidDate(r.value.departure)
  {
    var resort :- Get(result, "resort", JObj([]));
    var checkIn :- Get(resort, "check_in", JNull);
    var checkInDate :- FromIsoFormat(checkIn);
    // `resort` and `result` are dicts by now: these lookups cannot raise
    var checkOut := Get(resort, "check_out", JNull).value;
    var checkOutDate :- FromIsoFormat(checkOut);
    var flights := Get(result, "flights", JObj([])).value;
    var departing :- Get(flights, "departing_flight", JObj([]));
    var returning := Get(flights, "returning_flight", JObj([])).value;
    var arrival :- Get(departing, "arrival_datetime", JNull);
    var arrivalDate :- FromIsoFormat(arrival);
    var departure :- Get(returning, "departure_datetime", JNull);
    var departureDate :- FromIsoFormat(departure);
    Ok(StayDates(checkInDate, checkOutDate, arrivalDate, departureDate))
  }

  /** The departing flight lands no later than check-in and the returning
      flight leaves no earlier than check-out. */
  predicate Consistent(d: StayDates) {
    !Before(d.checkIn, d.arrival) && !Before(d.departure, d.checkOut)
  }

  /** A package that parses and passes both comparisons. */
  predicate Passes(result: Json) {
    PackageDates(result).Ok? && Consistent(PackageDates(result).value)
  }

  /** The index of the first package that does not pass (|items| if none). */
  function FirstNotPassing(items: seq<Json>): (k: nat)
    ensures k <= |items|
  {
    if items == [] || !Passes(items[0]) then 0
    else 1 + FirstNotPassing(items[1..])
  }

  /** Every package before the first one that does not pass does pass. */
  lemma {:induction false} FirstNotPassingMeans(items: seq<Json>)
    ensures var k := FirstNotPassing(items);
            && (forall j :: 0 <= j < k ==> Passes(items[j]))
            && (k < |items| ==> !Passes(items[k]))
  {
    if items != [] && Passes(items[0]) {
      var tail := items[1..];
      FirstNotPassingMeans(tail);
      var k, kt := FirstNotPassing(items), FirstNotPassing(tail);
      assert k == kt + 1;
      forall j | 1 <= j < k ensures Passes(items[j]) {
        assert items[j] == tail[j - 1];
      }
      if k < |items| {
        assert items[k] == tail[kt];
      }
    }
  }

  /** The loop over the packages: true when every package passes; otherwise
      decided by the first package that does not pass: false when it parses,
      its exception when it does not. Later packages are never read. */
  function DatesVerdict(items: seq<Json>): (r: Outcome<bool>)
    ensures var k := FirstNotPassing(items);
            r == if k == |items| then Ok(true)
                 else if PackageDates(items[k]).Raised? then Raised(PackageDates(items[k]).exc)
                 else Ok(false)
  {
    if items == [] then Ok(true)
    else
      match PackageDates(items[0])
      case Raised(e) => Raised(e)
      case Ok(dates) =>
        if Before(dates.checkIn, dates.arrival) then Ok(false)
        else if Before(dates.departure, dates.checkOut) then Ok(false)
        else
          assert items[1..][FirstNotPassing(items) - 1..] == items[FirstNotPassing(items)..];
          DatesVerdict(items[1..])
  }

  /** validate_travel_dates on the decoded answer: the lookup's exception,
      or the verdict on the packages, which is true exactly when every
      package parses and passes. */
  function TravelDates(parsed: Option<Json>): (r: Outcome<bool>)
    ensures ResultItems(parsed).Raised? ==> r == Raised(ResultItems(parsed).exc)
    ensures r == Ok(true) <==>
              && ResultItems(parsed).Ok?
              && forall i :: 0 <= i < |ResultItems(parsed).value| ==> Passes(ResultItems(parsed).value[i])
  {
    var items :- ResultItems(parsed);
    FirstNotPassingMeans(items);
    DatesVerdict(items)
  }

  /** validate_travel_dates as the source runs it: a loop over the packages
      that returns False at the first package whose dates do not line up. */
  method ValidateTravelDates(parsed: Option<Json>) returns (r: Outcome<bool>)
    ensures r == TravelDates(parsed)
  {
    var results :- ResultsValue(parsed);
    var items :- Iterate(results);
    var i := 0;
    while i < |items|
      invariant 0 <= i <= |items|
      invariant DatesVerdict(items[i..]) == DatesVerdict(items)
    {
      assert items[i..][1..] == items[i + 1..];
      var dates :- PackageDates(items[i]);
      if Before(dates.checkIn, dates.arrival) {
        return Ok(false);
      }
      if Before(dates.departure, dates.checkOut) {
        return Ok(false);
      }
      i := i + 1;
    }
    return Ok(true);
  }

  /** The comparisons are not strict: arriving on the check-in day or
      earlier, and leaving on the check-out day or later, both pass. */
  lemma ConsistentMeans(d: StayDates)
    ensures Consistent(d) <==> (d.arrival == d.checkIn || Before(d.arrival, d.checkIn))
                               && (d.departure == d.checkOut || Before(d.checkOut, d.departure))
    ensures Consistent(StayDates(d.checkIn, d.checkOut, d.checkIn, d.checkOut))
  {
    NotBeforeMeans(d.arrival, d.checkIn);
    NotBeforeMeans(d.checkOut, d.departure);
  }

  /** When every package's dates parse, the check is false exactly when some
      package, wherever it stands in the list, has its flights outside the stay. */
  lemma {:induction false} VerdictWhenAllParse(items: seq<Json>)
    requires forall i :: 0 <= i < |items| ==> PackageDates(items[i]).Ok?
    ensures DatesVerdict(items) == Ok(forall i :: 0 <= i < |items| ==> Consistent(PackageDates(items[i]).value))
  {
    var k := FirstNotPassing(items);
    FirstNotPassingMeans(items);
    if k < |items| {
      assert !Consistent(PackageDates(items[k]).value);
    }
  }

  /** Packages that yield the same dates give the same verdict: nothing else
      in a package, the time of day included, is looked at. */
  lemma {:induction false} OnlyDatesMatter(xs: seq<Json>, ys: seq<Json>)
    requires |xs| == |ys|
    requires forall i :: 0 <= i < |xs| ==> PackageDates(xs[i]) == PackageDates(ys[i])
    ensures DatesVerdict(xs) == DatesVerdict(ys)
  {
    if xs != [] {
      assert forall i :: 0 <= i < |xs| - 1 ==> xs[1..][i] == xs[i + 1] && ys[1..][i] == ys[i + 1];
      OnlyDatesMatter(xs[1..], ys[1..]);
    }
  }

  /** Two flight datetimes with the same day and a valid time of day read as
      the same date. */
  lemma FlightTimeIgnored(day: string, time1: string, time2: string)
    requires |day| == 10 && IsValidTime(time1) && IsValidTime(time2)
    ensures FromIsoFormat(JStr(day + time1)) == FromIsoFormat(JStr(day + time2)) == FromIsoFormat(JStr(day))
  {
    TimeOfDayIgnored(day, time1);
    TimeOfDayIgnored(day, time2);
  }

  /** An answer with no `results` key, or an empty list of results, has no
      result, is sorted, and has consistent dates. */
  lemma NoResults(members: seq<(string, Json)>)
    requires Lookup(members, RESULTS_KEY).None? || Lookup(members, RESULTS_KEY) == Some(JArr([]))
    ensures ValidateAtLeastOneResult(Some(JObj(members))) == Ok(false)
    ensures ValidateSortedByCost(Some(JObj(members))) == Ok(true)
    ensures TravelDates(Some(JObj(members))) == Ok(true)
  {
    assert ResultItems(Some(JObj(members))) == Ok([]);
  }
}
