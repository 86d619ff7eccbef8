# Goals4Arab front end: a Dafny model of its view logic

Goals4Arab is a browser front end that shows football fixtures in Arabic.
Nearly all of it is markup and HTTP plumbing. This project models the logic
that derives what the screen shows from the data that was loaded:

- the league filter options, built from the loaded fixtures with a `Map`
  and sorted by caption;
- the league filter itself;
- the "yesterday / today / tomorrow" day stepping over `YYYY-MM-DD`
  full-dates (RFC 3339, section 5.6), with Gregorian month lengths and leap
  years (RFC 3339, section 5.7 and Appendix C);
- the "last updated" caption;
- the page state that one load of a day changes;
- the card (`MatchCard`) and row (`MatchRow`) renderers, each a function
  from one fixture to a record of what it displays.

Modules:

- `Wrappers`: the `Option` type.
- `Decimal`: integer decimal text, as `String(n)` writes it and `Number(v)`
  reads it back.
- `Api`: `Team`, `Fixture` and `DateResp` as datatypes, plus the outcome of
  one fetch.
- `Calendar`: full-dates.
  - Parsing and formatting.
  - Next and previous day.
  - Day numbers counted from 0000-01-01. These stand in for JavaScript's
    millisecond time value.
  - Today's date from a clock reading.
- `Home`: the home page.
  - League options: a loop over the fixtures, then an insertion sort.
  - The filter and the list body.
  - The select value and the caption.
  - The `HomeView` class that holds the page state.
- `View`, `MatchCard`, `MatchRow`: the two renderers and the view types they share.

The clock and the network are parameters. Every clock reading is passed in
as milliseconds since 1970-01-01T00:00Z. The fetch is passed in as a
`FetchOutcome`, either a decoded body or a failure. The Arabic collation
behind `localeCompare(…, "ar")` is a parameter `le` too.
`le(a, b)` means that `a` sorts before `b` or ties with it. It is required
to be a total preorder.

## Model

| member | source | states |
|---|---|---|
| `Decimal.IntToStringRoundTrip` | src/app/page.tsx:100-103 | the decimal text of any integer reads back as that integer |
| `Decimal.IntToStringInjective` | src/app/page.tsx:100 | different ids get different select values |
| `Home.LeagueLabel` | src/app/page.tsx:23 | a non-empty `league_name` is used as it is; otherwise the caption is `الدوري #` followed by the id, and the id reads back from it; the caption is never empty |
| `Home.LatestLabel` | src/app/page.tsx:21-25 | some fixture of the league supplies the caption exactly when that league id occurs in the fixtures |
| `Home.LatestLabelAppend` | src/app/page.tsx:22-24 | a new fixture overrides the caption of its own league and of no other |
| `Home.LatestLabelIsLastFixture` | src/app/page.tsx:21-25 | the caption comes from a fixture of that league that no later fixture of the league follows, because `Map.set` overwrites |
| `Home.InsertByLabel` | src/app/page.tsx:26-28 | inserting adds exactly one option and loses none |
| `Home.SortByLabel` | src/app/page.tsx:26-28 | sorting is a permutation |
| `Home.InsertMembers` | src/app/page.tsx:26-28 | after inserting, the options are exactly the inserted one and the ones already there |
| `Home.InsertSorted` | src/app/page.tsx:26-28 | inserting into a list sorted by caption keeps it sorted, given a total preorder |
| `Home.SortSorted` | src/app/page.tsx:26-28 | the sorted options are ordered by caption under the comparator |
| `Home.InsertDistinct` | src/app/page.tsx:26 | inserting an option with a new id keeps the ids pairwise distinct |
| `Home.SortDistinct` | src/app/page.tsx:26-28 | sorting keeps ids pairwise distinct |
| `Home.KeyOrder` | src/app/page.tsx:21-26 | the `Map`'s iteration order holds exactly the fixtures' league ids |
| `Home.KeyOrderFirstAppearance` | src/app/page.tsx:21-26 | a key comes before another in that order only if its first fixture precedes every fixture of the other |
| `Home.CollectLabels` | src/app/page.tsx:21-25 | the `Map`'s keys are the fixtures' league ids, each mapped to its last fixture's caption, and its iteration order is the order of first appearance, each key once |
| `Home.OptionsInOrder` | src/app/page.tsx:26 | `Array.from(map, …)` yields one option per key, in iteration order, with that key's caption |
| `Home.OptionsInOrderFacts` | src/app/page.tsx:26 | those options have distinct ids, their ids are the map's keys, and each caption is the map's value for its id |
| `Home.LeagueOptions` | src/app/page.tsx:20-29 | one option per league: ids are pairwise distinct, the set of ids is the set of `league_id`s, each caption is the last fixture's caption for that league, and the list is sorted by caption |
| `Home.KeepLeague` | src/app/page.tsx:32 | the filtered list is an order-preserving subsequence, each element has the league id, and each matching fixture keeps its multiplicity while every other fixture drops out |
| `Home.Filtered` | src/app/page.tsx:31-34 | `"all"` returns the fixtures unchanged; a league id keeps exactly the matching fixtures, in order, no more than the input |
| `Home.SelectValue` | src/app/page.tsx:100 | `All` gives "all"; a league id gives decimal text that reads back as that id and is never "all" |
| `Home.ReadSelect` | src/app/page.tsx:103 | reads "all" back as `All` and decimal text as that league id; any other text is not read |
| `Home.SelectRoundTrip` | src/app/page.tsx:100-103 | the select value of a filter reads back as that filter: `"all"` gives `"all"`, and a league id's text gives that id |
| `Home.ElapsedSeconds` | src/app/page.tsx:72 | the elapsed milliseconds divided by 1000, rounded down |
| `Home.SinceText` | src/app/page.tsx:70-76 | the caption is empty exactly when there has been no successful load |
| `Home.ReadCaption` | src/app/page.tsx:73-75 | a caption reads back as its count and unit |
| `Home.SinceTiers` | src/app/page.tsx:72-75 | below 60 elapsed seconds the caption gives the floored seconds; from 60 on it gives the floored seconds divided by 60, as minutes |
| `Home.MinutesShown` | src/app/page.tsx:74-75 | in the minutes tier the shown count m is at least 1 and satisfies 60·m ≤ elapsed < 60·m + 60 |
| `Home.SinceExamples` | src/app/page.tsx:72-75 | 10 s gives "10 ثانية", 125 s gives "2 دقيقة", and −1.5 s floors to "-2 ثانية" |
| `Home.Body` | src/app/page.tsx:122-130 | while loading, the loading notice; after loading with an empty filtered list, the no-matches notice; otherwise one row per filtered fixture, in order |
| `Home.RowsLinkToShownFixtures` | src/app/page.tsx:128 | every row links to a loaded fixture that the selected league lets through |
| `Home.HomeView.constructor` | src/app/page.tsx:11-17 | the page starts on today's UTC date, with no fixtures, loading, no last update and every league |
| `Home.HomeView.LoadForDate` | src/app/page.tsx:36-47 | afterwards loading is false. On success the fixtures are the body's fixtures (or none if the field is missing) and the last update is the supplied time. On failure the fixtures are empty and the last update is unchanged |
| `Home.HomeView.PrevDay` | src/app/page.tsx:58-62 | the date becomes the full-date one day earlier |
| `Home.HomeView.NextDay` | src/app/page.tsx:63-67 | the date becomes the full-date one day later |
| `Home.HomeView.Today` | src/app/page.tsx:68 | the date becomes the UTC date of the clock reading |
| `Home.HomeView.PickDate` | src/app/page.tsx:95 | the date becomes the text of the date input |
| `Home.HomeView.SelectLeague` | src/app/page.tsx:101-104 | the filter becomes the one the select value names |
| `Calendar.DaysInMonth` | src/app/page.tsx:60 | months have 28 to 31 days, and 29 only for February of a leap year |
| `Calendar.NextDay` | src/app/page.tsx:63-66 | the next day is a valid date; it is in the same year unless it is 1 January after 31 December |
| `Calendar.PrevDay` | src/app/page.tsx:58-61 | the previous day is a valid date; it is in the same year unless it is 31 December before 1 January |
| `Calendar.PrevDayOfNextDay` | src/app/page.tsx:58-67 | stepping forward then back returns the date |
| `Calendar.NextDayOfPrevDay` | src/app/page.tsx:58-67 | stepping back then forward returns the date |
| `Calendar.DayNumber` | src/app/page.tsx:59 | every valid date has a day number below that of 10000-01-01 |
| `Calendar.DaysBeforeNextYear` | src/app/page.tsx:65 | a year is 366 days long when it is a leap year and 365 otherwise |
| `Calendar.DaysBeforeYearClosedForm` | src/app/page.tsx:59-61 | the days before a year are 365 per year plus one for each Gregorian leap year before it |
| `Calendar.LeapCountStep` | src/app/page.tsx:59-61 | the closed-form leap count grows by one past a year exactly when that year is a leap year |
| `Calendar.NextDayAddsOne` | src/app/page.tsx:65 | the next day's number is one more, as `setUTCDate(getUTCDate() + 1)` moves the time value |
| `Calendar.PrevDaySubtractsOne` | src/app/page.tsx:60 | the previous day's number is one less |
| `Calendar.DayNumberInjective` | src/app/page.tsx:59 | distinct valid dates have distinct day numbers |
| `Calendar.DateOfDayNumber` | src/app/page.tsx:61 | every day number below 10000-01-01 names a valid date with that number, as `toISOString` reads a time value back |
| `Calendar.DateOfDayNumberOfDate` | src/app/page.tsx:59-61 | reading back the number of a date gives the date |
| `Calendar.NextDayIsAddOne` | src/app/page.tsx:64-66 | adding one day to the time value and reading the date back is the next day |
| `Calendar.PrevDayIsSubtractOne` | src/app/page.tsx:59-61 | subtracting one day and reading the date back is the previous day |
| `Calendar.Format` | src/app/page.tsx:61 | a date is written as ten characters with `-` at positions 4 and 7 |
| `Calendar.Parse` | src/app/page.tsx:59 | whatever parses is a valid date |
| `Calendar.ParseFormat` | src/app/page.tsx:59-61 | formatting then parsing returns the date |
| `Calendar.FormatParse` | src/app/page.tsx:59-61 | parsing then formatting returns the text |
| `Calendar.StepForward` | src/app/page.tsx:63-67 | the text after stepping forward is a valid full-date whose day number is one more |
| `Calendar.StepBack` | src/app/page.tsx:58-62 | the text after stepping back is a valid full-date whose day number is one less |
| `Calendar.StepBackOfStepForward` | src/app/page.tsx:58-67 | `prevDay(nextDay(d)) == d` on full-date text |
| `Calendar.StepForwardOfStepBack` | src/app/page.tsx:58-67 | `nextDay(prevDay(d)) == d` on full-date text |
| `Calendar.TodayText` | src/app/page.tsx:11 | today's text is ten characters long, the length `slice(0, 10)` keeps |
| `Calendar.TodayTextDay` | src/app/page.tsx:11 | today's text parses as a valid full-date whose day number is the floored count of whole days since 1970-01-01, counted from that date's day number |
| `Calendar.TodayTextOfDate` | src/app/page.tsx:11 | the clock shows the text form of the date whose day number is the clock's day |
| `Calendar.EpochText` | src/app/page.tsx:11 | 1970-01-01 is written "1970-01-01" |
| `Calendar.TodayOnEpochDay` | src/app/page.tsx:11 | any clock reading during the first day of 1970 gives "1970-01-01" |
| `View.Status.Caption` | src/components/MatchCard.tsx:6-8 | every badge has a non-empty caption |
| `View.CaptionsDistinct` | src/components/MatchRow.tsx:7-9 | the three badge captions differ from each other |
| `MatchCard.BadgeFor` | src/components/MatchCard.tsx:5-9 | state 2 is live, state 3 is finished, and every other integer is upcoming; the badge is total |
| `MatchCard.TeamSide` | src/components/MatchCard.tsx:16-19 | a side shows the team's logo exactly when `logo` is a non-empty string, with the team name as alt text; otherwise the placeholder |
| `MatchCard.Render` | src/components/MatchCard.tsx:11-48 | the card shows each score when it is a number and 0 otherwise, the Bahrain kickoff or `—` when it is null, both team sides and the badge of `state_id` |
| `MatchCard.BadgeDependsOnlyOnState` | src/components/MatchCard.tsx:45 | two fixtures with the same `state_id` show the same badge, whatever else differs |
| `MatchRow.Badge` | src/components/MatchRow.tsx:6-10 | state 2 is live, state 3 is finished, and every other integer is upcoming |
| `MatchRow.Href` | src/components/MatchRow.tsx:14 | the link is `/match/` followed by non-empty text |
| `MatchRow.TeamSide` | src/components/MatchRow.tsx:19 | a side shows the logo exactly when `logo` is a non-empty string, with empty alt text; otherwise the placeholder |
| `MatchRow.Render` | src/components/MatchRow.tsx:12-43 | the row links to the fixture's page, shows the scores exactly as received, the Bahrain kickoff or `—`, both sides and the badge of `state_id` |
| `MatchRow.HrefNamesFixture` | src/components/MatchRow.tsx:14 | the fixture id reads back from the link path |
| `MatchRow.HrefInjective` | src/components/MatchRow.tsx:14 | two rows link to the same page only for the same fixture id |
| `MatchRow.BadgeAgreesWithCard` | src/components/MatchRow.tsx:6-10 | the row's badge equals the card's badge for every `state_id` |
| `MatchRow.RowAgreesWithCard` | src/components/MatchRow.tsx:25-26 | row and card agree on the kickoff, the badge, the team names and the choice between logo and placeholder. A numeric score appears in both; a missing one is 0 in the card and absent in the row |

## Left out

- HTTP: `fetchJSON` and the `BASE` lookup (src/lib/api.ts:1, 17-22) are not part of this model. A load takes the fetch's outcome as a parameter, so the day text `d` that only builds the request path is not a parameter either.
- Home.HomeView.LoadForDate: the intermediate state while the request is outstanding is not modelled. That is `loading == true` with the old fixtures still held in state. The list shows the loading notice meanwhile, and the league select still offers their leagues. Only the state after the load is stated.
- Polling: `setInterval`, `clearInterval`, the `stop` flag and the effect that reloads on a date change (src/app/page.tsx:49-55) are timers and asynchronous interleaving. They are not modelled. The flag is checked only before a load starts, so an older in-flight response can still overwrite newer state. The model makes no claim about stale responses.
- Clock reads (`new Date()`, `Date.now()`, `getFullYear`) are parameters in milliseconds. The footer year is not modelled.
- Home.SinceText is modelled as a function of the clock reading it is given. The page memoises it on `lastUpdated` alone, so it is recomputed only when a load succeeds, not as time passes. That recomputation happens in the render right after `setLastUpdated(new Date())`, when the elapsed time is a few milliseconds, so the page in practice keeps showing 0 seconds until the next successful load and never reaches the minutes tier that `Home.SinceTiers` describes.
- Home.LeagueOptions: the Arabic collation is the abstract parameter `le`. The relative order of options with tied captions is not stated. `Array.prototype.sort` is stable and `SortByLabel` keeps ties in `Map` insertion order, but that is not proved.
- Calendar.StepBack: on 0000-01-01 JavaScript writes an expanded negative year and `slice(0, 10)` truncates it. This is excluded by the precondition, as is any text that is not a valid full-date. `new Date` also accepts the shorter date-only forms `YYYY` and `YYYY-MM`, read as the first day of the year or month (so "2024-03" steps back to "2024-02-29"); those are not modelled. Only text that `new Date` rejects, such as the "" a cleared date input reports, makes `toISOString` throw.
- Calendar.StepForward: on 9999-12-31 JavaScript writes `+010000-…`, so this case is excluded by the precondition.
- Calendar.TodayText: clock readings whose UTC year is not four digits are excluded by the precondition.
- Home.HomeView.PickDate stores whatever the date input reports. A value that is not a full-date would make the next step throw, and that is not modelled.
- Home.ReadSelect: `Number(v)` is modelled only on decimal integer text, which is all the select offers, plus `"all"`. On other numeric text the page sets a league the model does not: `Number("")` and `Number("  ")` are 0 and `Number("0x10")` is 16 (likewise a leading `+`, an exponent or surrounding whitespace), while `ReadSelect` gives `None`. Text such as `"abc"` gives NaN in the page, which is not modelled either.
- Numbers: ids, league ids and scores are unbounded integers. JavaScript's double precision above 2^53 and non-integral values are not modelled.
- MatchRow.Render: a score that is present but not a number, such as a string, is shown as nothing in the row, while the page would print it. `Fixture` keeps only numeric scores.
- Markup, CSS classes, `next/link` rendering, the section title and `src/app/layout.tsx` are not part of this model.
- The match detail page (`src/app/match/[id]/page.tsx`) is not part of this model.
