# Dive-trip planner core, modelled in Dafny

The planner asks a user for a dive trip, has an LLM agent search for resorts
and flights, and then checks the agent's JSON answer. This project models the
deterministic parts of that program and proves what they promise.

- **Result checks** (`src/final_answer_checks.py`). There are three checks on
  the decoded answer: at least one result, results sorted by
  `total_package_cost`, and flight dates that bracket the resort stay. Each
  check takes the answer as `json_loads` decoded it. It returns `Ok(verdict)`
  or the Python exception the source would raise.
- **Date ranges** (`get_possible_date_ranges`, `src/tools.py`). Every stay of
  `nights` nights that starts on a day of the requested month, not before
  today, and ends in a month with the same number. The calendar is the
  proleptic Gregorian one of Python's `datetime`. `date + timedelta`
  overflow is checked on the ordinal, as Python checks it.
- **Input rules** (`get_user_input` and the node search of `get_slug`,
  `src/utils.py`). These are the location cut, the diver and night clamps,
  the animal list, the month and year fallbacks and the IATA code rule. The
  first-match search for an airport slug is a loop with an early return.
- **Code-fence stripping** (`run_agent`, `src/main.py`). The two conditional
  reassignments of `answer` that cut "```json" and "```".

Python exceptions are modelled as `PyCore.Outcome<T>`: either `Ok(value)` or
`Raised(exception)`, propagated with `:-`. JSON values are the `Json.Json`
datatype. Python's `dict.get`, `d[k]`, `in`, `len` and `for` on them are
`Json.Get`, `Json.Subscript`, `Json.Contains`, `Json.Len` and `Json.Iterate`.
Each raises what Python raises on a value of the wrong type. The `str`
builtins the code uses are modelled over ASCII in `PyStr`.

The clock is a parameter: `today` for the date-range tool, and the current
year and month for the input rules. The console answers, the LLM's list of
ideal months and the HTTP reply of `get_slug` (already decoded) are
parameters too.

Two behaviours follow from the code and are proved:

- `get_slug` catches KeyError, IndexError and TypeError. It does not catch
  the AttributeError that `node.get` raises when a node is not a dict, so
  such a reply raises instead of returning None (`Utils.NonDictNodeRaises`).
- `get_possible_date_ranges` computes `start_date + timedelta` before it
  skips past days. So a past day whose end date would leave years 1..9999
  still raises OverflowError.

## Model

| member | source | states |
|---|---|---|
| FinalAnswerChecks.ResultsValue | src/final_answer_checks.py:9-10 | undecodable text raises JSONDecodeError; a decoded non-dict raises AttributeError on `.get`; a missing `results` key gives `[]` |
| FinalAnswerChecks.ValidateAtLeastOneResult | src/final_answer_checks.py:5-11 | true exactly when iterating `results` visits at least one package; raises exactly when `results` cannot be iterated, with the same exception |
| Json.Len | src/final_answer_checks.py:11 | `len(v)` raises TypeError exactly on null, booleans and numbers |
| Json.LenCountsIteration | src/final_answer_checks.py:11 | `len(results)` succeeds exactly when `for` over it does, and counts exactly the elements visited |
| Json.Lookup | src/final_answer_checks.py:10 | a dict lookup is None exactly when no member has the key; a found value is the value of some member with that key |
| Json.Get | src/final_answer_checks.py:95 | `v.get(k, default)` raises AttributeError exactly when `v` is not a dict; otherwise the member's value, or the default when the key is absent |
| Json.Subscript | src/utils.py:43 | `v[k]` succeeds exactly when `v` is a dict holding `k`; otherwise KeyError on a dict and TypeError on anything else |
| Json.Iterate | src/final_answer_checks.py:94 | `for` raises TypeError exactly on null, booleans and numbers; a list yields its items |
| Json.Contains | src/final_answer_checks.py:29 | `k in v` is dict-key membership, list membership or substring test, and raises TypeError on null, booleans and numbers |
| FinalAnswerChecks.CostOf | src/final_answer_checks.py:29 | an item contributes no cost exactly when `"total_package_cost" in item` is false; a dict contributes its cost value; the only possible exception is TypeError |
| FinalAnswerChecks.Costs | src/final_answer_checks.py:29 | the comprehension never yields more costs than there are items, and the only exception it raises is TypeError |
| FinalAnswerChecks.CostsSingle | src/final_answer_checks.py:29 | one item contributes its cost when `"total_package_cost" in item`, nothing when not, and its exception when it cannot be asked; with CostsConcat this fixes the comprehension on every list |
| FinalAnswerChecks.CostsOk | src/final_answer_checks.py:29 | the comprehension succeeds when every item can be asked for its cost |
| FinalAnswerChecks.CostsRaiseAt | src/final_answer_checks.py:29 | the first item that cannot be asked for its cost decides the exception |
| FinalAnswerChecks.CostsConcat | src/final_answer_checks.py:29 | the comprehension over a concatenation is the concatenation of the comprehensions, the first failure deciding |
| FinalAnswerChecks.NoCosts | src/final_answer_checks.py:29 | items without a cost yield no costs |
| FinalAnswerChecks.AdjacentGivesNonDecreasing | src/final_answer_checks.py:30 | costs in order pairwise-adjacent are in order for every pair |
| FinalAnswerChecks.Ordered | src/final_answer_checks.py:30 | `costs == sorted(costs)`: zero or one cost is sorted; numeric costs are sorted exactly when they never decrease |
| FinalAnswerChecks.SortedVerdict | src/final_answer_checks.py:29-30 | the verdict on known packages raises nothing but TypeError, and zero or one cost is always sorted |
| FinalAnswerChecks.ValidateSortedByCost | src/final_answer_checks.py:24-30 | propagates the lookup's exception; when every item answers and the costs are numbers, true exactly when the costs in list order never decrease |
| FinalAnswerChecks.CostlessItemIgnored | src/final_answer_checks.py:29-30 | inserting or removing an item without `total_package_cost` changes neither the costs nor the verdict |
| FinalAnswerChecks.SingleCostSorted | src/final_answer_checks.py:29-30 | a list whose only costed item is `x` is sorted |
| FinalAnswerChecks.DecreasingCostsRejected | src/final_answer_checks.py:24-30 | two packages costing 1500 then 1200 give false; 1200 then 1500 give true |
| FinalAnswerChecks.NoResults | src/final_answer_checks.py:92-113 | a missing or empty `results` gives: no result (false), sorted (true), consistent dates (true) |
| FinalAnswerChecks.FromIsoFormat | src/final_answer_checks.py:97 | a str is parsed as an ISO date; anything else, None included, raises TypeError |
| FinalAnswerChecks.PackageDates | src/final_answer_checks.py:95-106 | the four dates a package is judged on, read in the source's order; each is a valid date |
| FinalAnswerChecks.FirstNotPassing | src/final_answer_checks.py:94-111 | the index of the first failing package lies within the list |
| FinalAnswerChecks.FirstNotPassingMeans | src/final_answer_checks.py:94-111 | every package before that index passes, and the package at it does not |
| FinalAnswerChecks.DatesVerdict | src/final_answer_checks.py:94-113 | true when every package passes; otherwise the first package that does not pass decides: its exception when its dates do not parse, false when they do; later packages are never read |
| FinalAnswerChecks.TravelDates | src/final_answer_checks.py:88-113 | propagates the lookup's exception; true exactly when the packages can be iterated and every one parses and has its flights bracketing the stay |
| FinalAnswerChecks.ValidateTravelDates | src/final_answer_checks.py:33-113 | the loop with early `return False` computes the verdict above |
| FinalAnswerChecks.ConsistentMeans | src/final_answer_checks.py:108-111 | the comparisons are not strict: arrival on or before check-in and departure on or after check-out pass, same-day included |
| FinalAnswerChecks.VerdictWhenAllParse | src/final_answer_checks.py:94-113 | when every package's dates parse, the verdict is false exactly when some package has its flights outside the stay |
| FinalAnswerChecks.OnlyDatesMatter | src/final_answer_checks.py:95-111 | packages yielding the same dates give the same verdict |
| FinalAnswerChecks.FlightTimeIgnored | src/final_answer_checks.py:103-106 | a flight datetime reads as the same date whatever valid time of day follows it |
| Calendar.ParseIsoDate | src/final_answer_checks.py:97 | `fromisoformat(s).date()` accepts a `YYYY-MM-DD` date, alone or followed by any one separator character and `HH`, `HH:MM` or `HH:MM:SS`, when date and time are valid; anything else raises ValueError |
| Calendar.SeparatorAndSecondsAccepted | src/final_answer_checks.py:103-106 | "2026-06-10 08:00" and "2026-06-10T08:00:00" both read as 10 June 2026 |
| Calendar.TimeOfDayIgnored | src/final_answer_checks.py:104 | a valid time suffix does not change the parsed date |
| Calendar.SameDatePartSameDate | src/final_answer_checks.py:104-106 | two parsable texts with the same first ten characters give the same date |
| Calendar.FormatParsed | src/final_answer_checks.py:97 | a parsed date prints back as the first ten characters of its text |
| Calendar.Before | src/final_answer_checks.py:108-111 | date `<` holds of no date and itself; NotBeforeMeans and BeforeIsOrdinalOrder give the rest of its order |
| Calendar.NotBeforeMeans | src/final_answer_checks.py:108-111 | date `<` is a strict total order, so "not after" means "same day or before" |
| Calendar.BeforeIsOrdinalOrder | src/tools.py:75 | comparing dates as (year, month, day) is comparing ordinals |
| Calendar.YearLength | src/tools.py:66 | a year spans its twelve months in the ordinal count, and it is 366 days long exactly when the Gregorian leap rule (`IsLeapYear`) holds |
| Calendar.Ordinal | src/tools.py:72 | `toordinal()`: 0001-01-01 is day 1 and every day from year 1 on has a positive ordinal |
| Calendar.DaysInMonth | src/tools.py:66 | `monthrange(y, m)[1]` lies in 28..31, with the Gregorian leap rule |
| Calendar.NextDayOrdinal | src/tools.py:72 | the next day has the next ordinal |
| Calendar.PrevDayOrdinal | src/tools.py:72 | the previous day has the previous ordinal |
| Calendar.DaysAfterOrdinal | src/tools.py:72 | stepping `n` days forward adds `n` to the ordinal |
| Calendar.DaysBeforeOrdinal | src/tools.py:72 | stepping `n` days back subtracts `n` from the ordinal |
| Calendar.AddDays | src/tools.py:72 | `d + timedelta(days=n)` lands on a calendar day whatever `n`; AddDaysOrdinal says which |
| Calendar.AddDaysOrdinal | src/tools.py:72 | `d + timedelta(days=n)` moves the ordinal by exactly `n`, for either sign |
| Calendar.ValidIffOrdinalInRange | src/tools.py:71-72 | a calendar day is a valid `date` exactly when its ordinal lies in 1..3652059 |
| Calendar.OrdinalWithinYear | src/tools.py:72 | a day's ordinal lies within its own year's ordinals |
| Calendar.DaysBeforeYearGrows | src/tools.py:72 | each year adds at least 365 days |
| Calendar.FormatDate | src/tools.py:81-82 | `strftime("%Y-%m-%d")` prints ten characters in the `YYYY-MM-DD` layout |
| Calendar.ReadPadded | src/tools.py:81-82 | reading back a zero-padded number gives the number |
| Calendar.PadRead | src/tools.py:81-82 | padding the value of a digit run gives the run back |
| Calendar.ParseFormatted | src/tools.py:81-82 | an emitted date parses back to the same date |
| Calendar.MonthFrom | src/tools.py:63 | the search over the month names from index `i` finds a matching month, or raises ValueError when none from `i` on matches |
| Calendar.MonthNumber | src/tools.py:63 | `strptime(name, "%B").month` is the month whose name equals `name` ignoring case; ValueError exactly when no month name does |
| Calendar.MonthKeyIsLowerName | src/tools.py:63 | each key strptime compares against is its month name lower-cased |
| Calendar.MonthKeysDistinct | src/tools.py:63 | no two month names are equal ignoring case |
| Calendar.MonthNameRoundTrip | src/tools.py:63 | every month name, in any letter case, reads back as its own number |
| Tools.EndInRangeMeans | src/tools.py:72 | the end date stays in years 1..9999 exactly when `start + nights` has an ordinal in range |
| Tools.PossibleDateRanges | src/tools.py:51-85 | ValueError for a name that is not a month; otherwise the answer for that month's number |
| Tools.MonthAnswer | src/tools.py:66-85 | the answer for a month number raises only ValueError, for a year outside 1..9999, or OverflowError, for an end date leaving those years |
| Tools.RangeFor | src/tools.py:80-83 | the entry for a day prints the start date and the date `nights` days later so that each parses back to exactly that date |
| Tools.RangesInMonth | src/tools.py:66-85 | the loop over the days of the month computes the month's answer: ValueError for a year outside 1..9999, OverflowError when some day's end date overflows (past days included), otherwise the list of entries |
| Tools.RangesBelowStep | src/tools.py:70-83 | one more pass adds the day's entry exactly when the day is a possible start |
| Tools.OverflowAnswer | src/tools.py:72 | a day whose end date overflows makes the answer OverflowError |
| Tools.NoOverflowAnswer | src/tools.py:70-85 | with no day overflowing, the answer is every entry of the month |
| Tools.StartDaysBelow | src/tools.py:70-80 | the possible start days below a bound are in range and strictly increasing |
| Tools.StartDaysBelowMembers | src/tools.py:70-80 | a day is listed below the bound exactly when it is a possible start below it |
| Tools.RangesBelowAt | src/tools.py:70-83 | entry `k` is the entry for the `k`-th possible start day |
| Tools.AnswerEntries | src/tools.py:70-85 | the answer has one entry per possible start day, in day order, and nothing else |
| Tools.RangeMeaning | src/tools.py:71-83 | each entry's start is a day of the requested month and year, not before today; its end is exactly `nights` days later, in a month with the same number; both are printed as parsable `YYYY-MM-DD` |
| Tools.RangesIncrease | src/tools.py:66-80 | entries start on distinct days in increasing date order, at most the days of the month (29 for a leap February) |
| Tools.StartDaysComplete | src/tools.py:70-83 | a day is reported exactly when it is in the month, not before today, and its end date has the month's number |
| Tools.ShortStaysDoNotOverflow | src/tools.py:72 | stays of up to 365 nights starting before year 9999 never overflow |
| PyStr.Strip | src/main.py:102 | `strip()` leaves no whitespace at either end and removes only whitespace |
| PyStr.StripUnique | src/main.py:102 | whitespace, a core with non-space ends, then whitespace strips to exactly that core |
| PyStr.StripKeepsOut | src/utils.py:99 | stripping adds no character |
| PyStr.Split | src/utils.py:84 | `split(",")` gives at least one part, none holding the separator, which join back to the input |
| PyStr.SplitJoin | src/utils.py:84 | splitting joined separator-free parts gives back the parts |
| PyStr.SplitFirst | src/utils.py:99 | the first part is the text before the first separator |
| PyStr.Upper | src/utils.py:112 | `upper()` raises each character |
| PyStr.Lower | src/tools.py:63 | `lower()` lowers each character |
| PyStr.Title | src/utils.py:98 | `title()` changes only letter case: a letter that starts a run of letters is upper-case, every other letter lower-case, and other characters are kept |
| PyStr.TitleKeepsLower | src/utils.py:98 | title-casing then lowering is lowering |
| PyStr.IsAlpha | src/utils.py:109 | `isalpha()` holds of non-empty text whose every character has two distinct cases |
| PyStr.TitleFrom | src/utils.py:98 | `title()` raises a letter that follows a non-letter and lowers one that follows a letter |
| PyStr.CaseOfCase | src/utils.py:112 | lowering or raising after a case change is lowering or raising directly, and letters stay letters |
| Utils.TruncateLocation | src/utils.py:60-62 | a location longer than 50 characters becomes its first 50; a shorter one is unchanged |
| Utils.Clamp | src/utils.py:66-71 | the count ends up in 1..hi and is the nearest such value: at most 0 gives 1, above hi gives hi |
| Utils.ClampKeepsInRange | src/utils.py:75-80 | an in-range count is kept, so clamping twice is clamping once |
| Utils.StrippedItems | src/utils.py:84 | the comprehension keeps only non-empty, stripped items, never more than there are parts |
| Utils.StrippedItemsSingle | src/utils.py:84 | one part gives its stripped form, or nothing when that is empty |
| Utils.StrippedItemsConcat | src/utils.py:84 | the comprehension over a concatenation is the concatenation of the comprehensions, so each part contributes in order |
| Utils.StrippedItemsKeepOut | src/utils.py:84 | items free of the comma stay free of it |
| Utils.StrippedItemsOfStripped | src/utils.py:84 | non-empty, stripped items pass through unchanged |
| Utils.ParseAnimals | src/utils.py:84-90 | the stripped non-empty comma-separated items; `["sharks"]` when none is left; the first five when more are; always 1 to 5 entries |
| Utils.AnimalsWellFormed | src/utils.py:84-90 | every animal kept is non-empty, stripped and free of commas |
| Utils.AnimalsRoundTrip | src/utils.py:84-90 | one to five stripped comma-free names joined by commas parse back to those names |
| Utils.NormaliseDeparture | src/utils.py:109-112 | the result is three upper-case letters; a three-letter code is kept up to case; anything else becomes "LAS" |
| Utils.DepartureIdempotent | src/utils.py:109-112 | a normalised code is left as it is by a second pass |
| Utils.FirstIdealMonth | src/utils.py:99 | the first comma-separated item, stripped |
| Utils.FirstIdealMonthOf | src/utils.py:99 | for "June, July, ..." the item chosen is "June" without its surrounding whitespace |
| Utils.IsMonthName | src/utils.py:98 | `month.title() in MONTHS` holds exactly when the text lowers to a month key, so a month name in any letter case passes |
| Utils.TitleNameIffLowerKey | src/utils.py:98 | the title case is a month name exactly when the lower case is a month key |
| Utils.ChooseMonth | src/utils.py:98-101 | a month whose title case is a month name is kept as typed; anything else becomes the first ideal month |
| Utils.MonthNameIffStrptime | src/utils.py:98-105 | the title-case test accepts exactly the names `strptime("%B")` reads |
| Utils.TitleLowersToKey | src/utils.py:98 | a text whose title case is a month name lowers to that month's key |
| Utils.KeyTitlesToName | src/utils.py:98 | a text lowering to a month's key title-cases to that month name |
| Utils.ChooseYear | src/utils.py:105-107 | the year is kept exactly when it is later than now, or the current year with the month not yet past; otherwise next year; raises ValueError exactly when the year is the current one and the month is not a month name |
| Utils.UserInput | src/utils.py:52-114 | the rules applied in the source's order; the request is within every limit and its year is not in the past; the only possible exception is ValueError |
| Utils.MonthNameRequestAnswered | src/utils.py:98-107 | with a month name typed, get_user_input does not raise and the date-range tool answers the request with a list |
| Utils.Handled | src/utils.py:48-49 | a KeyError, IndexError or TypeError becomes None; a value or any other exception passes through unchanged |
| Utils.SlugFrom | src/utils.py:44-47 | the loop raises nothing but KeyError and TypeError from `place["node"]` and AttributeError from `node.get` |
| Utils.Slug | src/utils.py:42-49 | the only exception get_slug lets escape is AttributeError |
| Utils.FindSlug | src/utils.py:42-49 | the loop with early return computes get_slug's result on the decoded reply |
| Utils.FirstWithCode | src/utils.py:44-46 | an index within the list whose node has the airport code, or the list's length |
| Utils.FirstWithCodeIsFirst | src/utils.py:44-46 | no place before the index FirstWithCode finds has the airport code, so it is the first match |
| Utils.SlugFirstMatch | src/utils.py:44-47 | over well-shaped places: the slug of the first node whose code matches, None when that node has no slug, None when no node matches |
| Utils.SlugOfReply | src/utils.py:42-49 | on a reply `{"data": {"places": {"edges": places}}}` of well-shaped places, get_slug is exactly the search SlugFirstMatch describes |
| Utils.SlugFromSkips | src/utils.py:44-46 | places whose node is a dict without the airport code are passed over |
| Utils.MissingKeysGiveNone | src/utils.py:43-49 | a reply lacking `data`, `places` or `edges` gives None |
| Utils.NonDictNodeRaises | src/utils.py:44-48 | a place whose node is not a dict, reached before any match and wherever it stands in the reply, makes get_slug raise AttributeError, which the `except` clause does not catch |
| AgentAnswer.CutOpeningFence | src/main.py:101-102 | with the opening fence the result is stripped and at least 7 characters shorter; without it the answer is unchanged |
| AgentAnswer.CutClosingFence | src/main.py:103-104 | with the closing fence the result is stripped and at least 3 characters shorter; without it the text is unchanged |
| AgentAnswer.CutOpeningOccurs | src/main.py:101-102 | what the first cut keeps is the piece of the answer after the fence and the whitespace behind it |
| AgentAnswer.CutClosingOccurs | src/main.py:103-104 | what the second cut keeps is a contiguous piece of the text before the fence |
| AgentAnswer.StripCodeFences | src/main.py:100-105 | both cuts in order: never longer than the answer, and an answer with neither fence is kept |
| AgentAnswer.CleanAnswer | src/main.py:100-105 | the result is a contiguous substring of the answer and never longer; it is stripped whenever a fence was cut; with neither fence the answer comes back untouched, whitespace included |
| AgentAnswer.BareFencesGiveEmpty | src/main.py:101-104 | "```json```" cleans to the empty string |
| AgentAnswer.LeadingSpaceKeepsOpeningFence | src/main.py:101 | whitespace before "```json" keeps the opening fence from being cut |
| AgentAnswer.CutOpeningOf | src/main.py:101-102 | cutting the opening fence strips what follows it |
| AgentAnswer.CutClosingOf | src/main.py:103-104 | cutting the closing fence strips what precedes it |
| AgentAnswer.FencedBodyRecovered | src/main.py:100-105 | a stripped body wrapped in "```json" and "```", with any whitespace inside the fences, cleans to exactly that body |

## Left out

- `validate_json_schema` (`src/final_answer_checks.py:14-21`) is not modelled. It only calls the external `jsonschema` library, whose behaviour is not visible here.
- JSON text parsing (`json_loads`) is not modelled. The checks take the decoded value, and undecodable text is the input `None`, raising JSONDecodeError.
- The LLM calls are not modelled: `get_ideal_dive_months` and `get_country_id`. Their output arrives as a parameter (`idealMonths`).
- HTTP and browser automation are not modelled: the request in `get_slug`, the resort search and the flight search. `get_slug` is modelled from the decoded reply on.
- The agent wiring, telemetry, prompt building and `main` in `src/main.py` are not modelled. Only the fence stripping at lines 100-105 is.
- Console input and output are not modelled: `input()`, the `print` messages and the warning at `src/utils.py:102-103`. The answers are parameters.
- Utils.UserInput: does not model `int()` conversion errors on the typed numbers. Divers, nights and year arrive as integers.
- Utils.UserInput: returns the year as an integer. The source returns the typed string, or `str(now.year + 1)`.
- Utils.UserInput: reads the clock once (`nowYear`, `nowMonth`). The source calls `datetime.now()` up to three times within one condition.
- `date.today()` in `get_possible_date_ranges` is the parameter `today`.
- FinalAnswerChecks.Ordered: two or more costs that are not all numbers raise TypeError. Python can still order an all-string or all-boolean list and compare ints with floats; those cases are not distinguished.
- Costs are exact reals (`Json.JNum`), not floating-point numbers.
- PyStr.Strip: covers ASCII whitespace only (space, \t–\r, \x1c–\x1f). Unicode whitespace is not covered.
- PyStr.Upper: covers ASCII letters only. Python maps Unicode case too, and can change the length: `"ß".upper()` is `"SS"`.
- PyStr.Lower: covers ASCII letters only. Python also lowers other cased characters, such as `"Ä"`.
- PyStr.TitleFrom: covers ASCII letters only. Python title-cases every cased character: `"ſeptember".title()` is `"September"`.
- PyStr.Title: the same ASCII limit as TitleFrom.
- PyStr.IsAlpha: covers ASCII letters only. Python's `isalpha` also holds of other alphabetic characters, such as `"ß"`.
- Utils.NormaliseDeparture: "three upper-case letters" holds for ASCII input only. In Python, `"ßab"` passes `len == 3 and isalpha()` and `upper()` turns it into the four characters `"SSAB"`.
- Utils.ChooseMonth: holds for ASCII input only. In Python, `"ſeptember".title()` is `"September"`, so the program keeps `"ſeptember"`, and the model replaces it with the first ideal month. `strptime` then raises ValueError on it, at `src/utils.py:105` when the year is the current one, otherwise in the date-range tool.
- Utils.MonthNameIffStrptime: holds for ASCII input only. `"ſeptember"` passes Python's title-case test, but `strptime("%B")` rejects it.
- Calendar.MonthNumber: assumes the English month names of the C locale, which the program never changes.
- Calendar.ParseIsoDate: rejects fractions of a second and UTC offsets (`2026-06-10T08:00:00.000`, `2026-06-10T08:00+02:00`), which `fromisoformat` has accepted since Python 3.7. It also rejects the compact forms added in Python 3.11 (`20260610`).
- Calendar.FormatDate: always pads the year to four digits. The platform's `strftime("%Y")` may print years below 1000 without padding.
- Tools.RangesInMonth: the check for a year outside 1..9999 is made once, before the loop. The source raises it from `date(year, month, 1)` on the first pass, with the same outcome.
- Tools.RangesInMonth: the loop tests each day against `IsPossibleStart`. That predicate is the source's `start_date < today` skip together with its `end_date.month == month` test.
