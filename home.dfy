/**
 * The home page (src/app/page.tsx): the fixtures of one selected day, the
 * league filter derived from them, the "last updated" caption, and the page
 * state that loading and the day buttons change.
 */
module Home {
  import opened Wrappers
  import opened Api
  import Decimal
  import Calendar
  import MatchRow

  // ---------------------------------------------------------------------
  // League options

  datatype LeagueOption = LeagueOption(id: int, caption: string)

  const FallbackLabelPrefix := "الدوري #"

  /**
   * A league's caption: its name when the fixture carries a non-empty one,
   * otherwise a fallback that spells out the league id.
   */
  function LeagueLabel(f: Fixture): (caption: string)
    ensures caption != ""
    ensures Truthy(f.league_name) ==> caption == f.league_name.value
    ensures !Truthy(f.league_name) ==>
      && |caption| > |FallbackLabelPrefix|
      && caption[..|FallbackLabelPrefix|] == FallbackLabelPrefix
      && Decimal.ParseInt(caption[|FallbackLabelPrefix|..]) == Some(f.league_id)
  {
    if f.league_name.Some? && f.league_name.value != "" then f.league_name.value
    else
      var caption := FallbackLabelPrefix + Decimal.IntToString(f.league_id);
      assert caption[|FallbackLabelPrefix|..] == Decimal.IntToString(f.league_id);
      Decimal.IntToStringRoundTrip(f.league_id);
      caption
  }

  function LeagueIds(fs: seq<Fixture>): set<int> {
    set f | f in fs :: f.league_id
  }

  lemma LeagueIdsAppend(fs: seq<Fixture>, f: Fixture)
    ensures LeagueIds(fs + [f]) == LeagueIds(fs) + {f.league_id}
  {
    assert forall g :: g in fs + [f] <==> g in fs || g == f;
  }

  /**
   * The caption the page ends up with for league `id`: that of the LAST fixture
   * of the league, since each `Map.set` overwrites the previous one.
   */
  function LatestLabel(fs: seq<Fixture>, id: int): (r: Option<string>)
    ensures r.Some? <==> id in LeagueIds(fs)
  {
    if fs == [] then None
    else
      var init, last := fs[..|fs| - 1], fs[|fs| - 1];
      assert fs == init + [last];
      LeagueIdsAppend(init, last);
      if last.league_id == id then Some(LeagueLabel(last)) else LatestLabel(init, id)
  }

  /** Appending a fixture overrides the caption of its own league and no other. */
  lemma LatestLabelAppend(fs: seq<Fixture>, f: Fixture)
    ensures forall id :: LatestLabel(fs + [f], id) == if id == f.league_id then Some(LeagueLabel(f)) else LatestLabel(fs, id)
  {
    assert (fs + [f])[..|fs|] == fs;
  }

  /** `LatestLabel` is the caption of a fixture of the league after which no fixture of it follows. */
  lemma {:induction false} LatestLabelIsLastFixture(fs: seq<Fixture>, id: int)
    requires id in LeagueIds(fs)
    ensures exists k :: 0 <= k < |fs| && fs[k].league_id == id && LatestLabel(fs, id) == Some(LeagueLabel(fs[k]))
                        && forall j :: k < j < |fs| ==> fs[j].league_id != id
  {
    var init, last := fs[..|fs| - 1], fs[|fs| - 1];
    if last.league_id != id {
      assert fs == init + [last];
      LeagueIdsAppend(init, last);
      LatestLabelIsLastFixture(init, id);
      var k :| 0 <= k < |init| && init[k].league_id == id && LatestLabel(init, id) == Some(LeagueLabel(init[k]))
               && forall j :: k < j < |init| ==> init[j].league_id != id;
      assert fs[k] == init[k];
    }
  }

  /** `le(a, b)` stands for `a.localeCompare(b, "ar") <= 0`; the collation itself is not modelled. */
  ghost predicate TotalPreorder(le: (string, string) -> bool) {
    && (forall a, b :: le(a, b) || le(b, a))
    && (forall a, b, c :: le(a, b) && le(b, c) ==> le(a, c))
  }

  predicate SortedByLabel(opts: seq<LeagueOption>, le: (string, string) -> bool) {
    forall i, j :: 0 <= i < j < |opts| ==> le(opts[i].caption, opts[j].caption)
  }

  predicate DistinctIds(opts: seq<LeagueOption>) {
    forall i, j :: 0 <= i < j < |opts| ==> opts[i].id != opts[j].id
  }

  function IdsOf(opts: seq<LeagueOption>): set<int> {
    set o | o in opts :: o.id
  }

  /** Places `o` before the first option it does not sort after (so equal labels keep their order). */
  function InsertByLabel(o: LeagueOption, s: seq<LeagueOption>, le: (string, string) -> bool): (r: seq<LeagueOption>)
    ensures multiset(r) == multiset(s) + multiset{o}
  {
    if s == [] then [o]
    else if le(o.caption, s[0].caption) then [o] + s
    else
      assert s == [s[0]] + s[1..];
      [s[0]] + InsertByLabel(o, s[1..], le)
  }

  /** The comparator sort of `Array.prototype.sort`, written as an insertion sort. */
  function SortByLabel(s: seq<LeagueOption>, le: (string, string) -> bool): (r: seq<LeagueOption>)
    ensures multiset(r) == multiset(s)
  {
    if s == [] then []
    else
      assert s == [s[0]] + s[1..];
      InsertByLabel(s[0], SortByLabel(s[1..], le), le)
  }

  /** Inserting adds `o` and keeps every option already there. */
  lemma InsertMembers(o: LeagueOption, s: seq<LeagueOption>, le: (string, string) -> bool)
    ensures forall x :: x in InsertByLabel(o, s, le) <==> x == o || x in s
  {
    var r := InsertByLabel(o, s, le);
    assert forall x :: x in r <==> x in multiset(r);
    assert forall x :: x in s <==> x in multiset(s);
  }

  lemma {:induction false} InsertSorted(o: LeagueOption, s: seq<LeagueOption>, le: (string, string) -> bool)
    requires TotalPreorder(le) && SortedByLabel(s, le)
    ensures SortedByLabel(InsertByLabel(o, s, le), le)
  {
    if s == [] {
    } else if le(o.caption, s[0].caption) {
      var r := [o] + s;
      forall i, j | 0 <= i < j < |r| ensures le(r[i].caption, r[j].caption) {
        if i == 0 && j > 1 {
          assert le(s[0].caption, s[j - 1].caption);
        }
      }
    } else {
      InsertSorted(o, s[1..], le);
      InsertMembers(o, s[1..], le);
      var t := InsertByLabel(o, s[1..], le);
      var r := [s[0]] + t;
      forall i, j | 0 <= i < j < |r| ensures le(r[i].caption, r[j].caption) {
        if i == 0 {
          var x := t[j - 1];
          assert x in t;
          if x != o {
            var k :| 0 <= k < |s[1..]| && s[1..][k] == x;
            assert s[k + 1] == x;
          }
        }
      }
    }
  }

  lemma {:induction false} SortSorted(s: seq<LeagueOption>, le: (string, string) -> bool)
    requires TotalPreorder(le)
    ensures SortedByLabel(SortByLabel(s, le), le)
  {
    if s != [] {
      SortSorted(s[1..], le);
      InsertSorted(s[0], SortByLabel(s[1..], le), le);
    }
  }

  lemma IdsOfPermutation(s: seq<LeagueOption>, t: seq<LeagueOption>)
    requires multiset(s) == multiset(t)
    ensures IdsOf(s) == IdsOf(t)
  {
    assert forall x :: x in s <==> x in multiset(s);
    assert forall x :: x in t <==> x in multiset(t);
  }

  lemma {:induction false} InsertDistinct(o: LeagueOption, s: seq<LeagueOption>, le: (string, string) -> bool)
    requires DistinctIds(s) && o.id !in IdsOf(s)
    ensures DistinctIds(InsertByLabel(o, s, le))
  {
    if s == [] {
    } else if le(o.caption, s[0].caption) {
      var r := [o] + s;
      forall i, j | 0 <= i < j < |r| ensures r[i].id != r[j].id {
        if i == 0 {
          assert s[j - 1] in s;
        }
      }
    } else {
      assert o.id !in IdsOf(s[1..]) by {
        forall x | x in s[1..] ensures x.id != o.id {
          assert x in s;
        }
      }
      InsertDistinct(o, s[1..], le);
      InsertMembers(o, s[1..], le);
      var t := InsertByLabel(o, s[1..], le);
      var r := [s[0]] + t;
      forall i, j | 0 <= i < j < |r| ensures r[i].id != r[j].id {
        if i == 0 {
          var x := t[j - 1];
          assert x in t;
          if x == o {
            assert s[0] in s;
          } else {
            var k :| 0 <= k < |s[1..]| && s[1..][k] == x;
            assert s[k + 1] == x;
          }
        }
      }
    }
  }

  lemma {:induction false} SortDistinct(s: seq<LeagueOption>, le: (string, string) -> bool)
    requires DistinctIds(s)
    ensures DistinctIds(SortByLabel(s, le))
  {
    if s != [] {
      SortDistinct(s[1..], le);
      IdsOfPermutation(SortByLabel(s[1..], le), s[1..]);
      assert forall j :: 0 <= j < |s[1..]| ==> s[1..][j].id in IdsOf(s[1..]);
      InsertDistinct(s[0], SortByLabel(s[1..], le), le);
    }
  }

  /** Every element of `order` is distinct. */
  predicate DistinctKeys(order: seq<int>) {
    forall a, b :: 0 <= a < b < |order| ==> order[a] != order[b]
  }

  /**
   * The league ids of `fs` in order of first appearance, each once: the order
   * in which a `Map` keyed by league id iterates its keys, since `set` on an
   * existing key keeps the key's position.
   */
  function KeyOrder(fs: seq<Fixture>): (order: seq<int>)
    ensures forall id :: id in order <==> id in LeagueIds(fs)
  {
    if fs == [] then []
    else
      var init, last := fs[..|fs| - 1], fs[|fs| - 1];
      assert fs == init + [last];
      LeagueIdsAppend(init, last);
      var before := KeyOrder(init);
      if last.league_id in before then before else before + [last.league_id]
  }

  /** A league's position in `KeyOrder` is fixed by its first fixture: a later league comes after it. */
  lemma {:induction false} KeyOrderFirstAppearance(fs: seq<Fixture>, a: nat, b: nat)
    requires a < b < |KeyOrder(fs)|
    ensures exists i :: 0 <= i < |fs| && fs[i].league_id == KeyOrder(fs)[a]
                        && forall j :: 0 <= j <= i ==> fs[j].league_id != KeyOrder(fs)[b]
  {
    var init, last := fs[..|fs| - 1], fs[|fs| - 1];
    assert fs == init + [last];
    LeagueIdsAppend(init, last);
    var before := KeyOrder(init);
    if b < |before| {
      KeyOrderFirstAppearance(init, a, b);
      var i :| 0 <= i < |init| && init[i].league_id == before[a]
               && forall j :: 0 <= j <= i ==> init[j].league_id != before[b];
      assert fs[i] == init[i];
    } else {
      // `KeyOrder(fs)[b]` is `last.league_id`, met for the first time at the end
      assert KeyOrder(fs)[b] == last.league_id && last.league_id !in before;
      assert before[a] in LeagueIds(init);
      var g :| g in init && g.league_id == before[a];
      var i :| 0 <= i < |init| && init[i] == g;
      assert fs[i] == g;
      forall j | 0 <= j <= i ensures fs[j].league_id != last.league_id {
        assert fs[j] == init[j] && init[j] in init;
      }
    }
  }

  /**
   * The loop that fills the `Map` of league labels: `labels` maps each league
   * of `fixtures` to the label of its last fixture, and `order` lists the keys
   * in the order the `Map` first saw them.
   */
  method CollectLabels(fixtures: seq<Fixture>) returns (labels: map<int, string>, order: seq<int>)
    ensures order == KeyOrder(fixtures)
    ensures labels.Keys == LeagueIds(fixtures)
    ensures forall id :: id in labels ==> LatestLabel(fixtures, id) == Some(labels[id])
    ensures DistinctKeys(order)
    ensures forall id :: id in labels ==> id in order
    ensures forall j :: 0 <= j < |order| ==> order[j] in labels
  {
    labels, order := map[], [];
    for i := 0 to |fixtures|
      invariant order == KeyOrder(fixtures[..i])
      invariant labels.Keys == LeagueIds(fixtures[..i])
      invariant forall id :: id in labels ==> LatestLabel(fixtures[..i], id) == Some(labels[id])
      invariant DistinctKeys(order)
      invariant forall id :: id in labels ==> id in order
      invariant forall j :: 0 <= j < |order| ==> order[j] in labels
    {
      var f := fixtures[i];
      ghost var done := fixtures[..i];
      assert fixtures[..i + 1] == done + [f];
      assert (done + [f])[..i] == done;
      LeagueIdsAppend(done, f);
      LatestLabelAppend(done, f);
      if f.league_id !in labels {
        assert forall j :: 0 <= j < |order| ==> order[j] != f.league_id;
        order := order + [f.league_id];
      }
      var next := labels[f.league_id := LeagueLabel(f)];
      assert next.Keys == labels.Keys + {f.league_id};
      forall id | id in next ensures LatestLabel(done + [f], id) == Some(next[id]) {
      }
      labels := next;
    }
    assert fixtures[..|fixtures|] == fixtures;
  }

  /** One option per key of `order`, in that order, captioned from `labels`. */
  function OptionsInOrder(order: seq<int>, labels: map<int, string>): (r: seq<LeagueOption>)
    requires forall j :: 0 <= j < |order| ==> order[j] in labels
    ensures |r| == |order|
    ensures forall j :: 0 <= j < |r| ==> r[j] == LeagueOption(order[j], labels[order[j]])
  {
    if order == [] then [] else [LeagueOption(order[0], labels[order[0]])] + OptionsInOrder(order[1..], labels)
  }

  lemma OptionsInOrderFacts(order: seq<int>, labels: map<int, string>)
    requires forall id :: id in labels ==> id in order
    requires forall j :: 0 <= j < |order| ==> order[j] in labels
    requires DistinctKeys(order)
    ensures DistinctIds(OptionsInOrder(order, labels))
    ensures IdsOf(OptionsInOrder(order, labels)) == labels.Keys
    ensures forall o :: o in OptionsInOrder(order, labels) ==> o.id in labels && o.caption == labels[o.id]
  {
    var r := OptionsInOrder(order, labels);
    forall id | id in labels ensures id in IdsOf(r) {
      var j :| 0 <= j < |order| && order[j] == id;
      assert r[j] in r;
    }
  }

  /**
   * The league select's options: one per league present in `fixtures`, each
   * with the caption its last fixture gives, ordered by caption.
   */
  method LeagueOptions(fixtures: seq<Fixture>, le: (string, string) -> bool) returns (opts: seq<LeagueOption>)
    requires TotalPreorder(le)
    ensures DistinctIds(opts)
    ensures IdsOf(opts) == LeagueIds(fixtures)
    ensures forall o :: o in opts ==> LatestLabel(fixtures, o.id) == Some(o.caption)
    ensures SortedByLabel(opts, le)
  {
    var labels, order := CollectLabels(fixtures);
    var entries := OptionsInOrder(order, labels);
    OptionsInOrderFacts(order, labels);
    opts := SortByLabel(entries, le);
    IdsOfPermutation(opts, entries);
    SortDistinct(entries, le);
    SortSorted(entries, le);
    assert forall o :: o in opts ==> o in entries by {
      assert forall o :: o in opts <==> o in multiset(opts);
      assert forall o :: o in entries <==> o in multiset(entries);
    }
  }

  // ---------------------------------------------------------------------
  // League filter

  /** The select's value: every league, or one league id. */
  datatype LeagueFilter = All | League(id: int)

  predicate Shows(league: LeagueFilter, f: Fixture) {
    league.All? || f.league_id == league.id
  }

  /** `a` is `b` with some elements left out, order kept. */
  predicate IsSubsequence<T(==)>(a: seq<T>, b: seq<T>) {
    a == [] || (b != [] && (IsSubsequence(a, b[1..]) || (a[0] == b[0] && IsSubsequence(a[1..], b[1..]))))
  }

  lemma {:induction false} SubsequenceOfSelf<T>(s: seq<T>)
    ensures IsSubsequence(s, s)
  {
    if s != [] {
      SubsequenceOfSelf(s[1..]);
    }
  }

  /** `fixtures.filter((f) => f.league_id === id)`. */
  function KeepLeague(fs: seq<Fixture>, id: int): (r: seq<Fixture>)
    ensures |r| <= |fs|
    ensures forall f :: f in r ==> f.league_id == id
    ensures forall f :: multiset(r)[f] == if f.league_id == id then multiset(fs)[f] else 0
    ensures IsSubsequence(r, fs)
  {
    if fs == [] then []
    else
      assert fs == [fs[0]] + fs[1..];
      var rest := KeepLeague(fs[1..], id);
      if fs[0].league_id == id then [fs[0]] + rest else rest
  }

  /** The fixtures the list shows under the selected league. */
  function Filtered(fixtures: seq<Fixture>, league: LeagueFilter): (r: seq<Fixture>)
    ensures league.All? ==> r == fixtures
    ensures |r| <= |fixtures|
    ensures forall f :: f in r ==> Shows(league, f)
    ensures forall f :: multiset(r)[f] == if Shows(league, f) then multiset(fixtures)[f] else 0
    ensures IsSubsequence(r, fixtures)
  {
    if league.All? then
      SubsequenceOfSelf(fixtures);
      fixtures
    else KeepLeague(fixtures, league.id)
  }

  /** The value the select shows for a filter. */
  function SelectValue(league: LeagueFilter): (v: string)
    ensures v == "all" <==> league.All?
    ensures league.League? ==> Decimal.ParseInt(v) == Some(league.id)
  {
    assert Decimal.ParseInt("all") == None by {
      assert !Decimal.IsDigit('a');
    }
    match league
    case All => "all"
    case League(id) =>
      Decimal.IntToStringRoundTrip(id);
      Decimal.IntToString(id)
  }

  /** The filter a select value stands for (`v === "all" ? "all" : Number(v)`). */
  function ReadSelect(v: string): (r: Option<LeagueFilter>)
    ensures r == Some(All) <==> v == "all"
    ensures forall id :: r == Some(League(id)) <==> v != "all" && Decimal.ParseInt(v) == Some(id)
    ensures r.None? <==> v != "all" && Decimal.ParseInt(v).None?
  {
    if v == "all" then Some(All)
    else match Decimal.ParseInt(v)
      case Some(n) => Some(League(n))
      case None => None
  }

  /** The select round-trips its value: what it shows reads back as the filter it came from. */
  lemma SelectRoundTrip(league: LeagueFilter)
    ensures ReadSelect(SelectValue(league)) == Some(league)
  {
    if league.League? {
      Decimal.IntToStringRoundTrip(league.id);
      assert Decimal.ParseInt("all") == None by {
        assert !Decimal.IsDigit("all"[0]);
      }
    }
  }

  // ---------------------------------------------------------------------
  // "Last updated" caption

  const UpdatedPrefix := "آخر تحديث قبل "
  const SecondsUnit := " ثانية"
  const MinutesUnit := " دقيقة"

  /** Whole seconds between two clock readings in milliseconds, rounded down. */
  function ElapsedSeconds(sinceMs: int, nowMs: int): (r: int)
    ensures 1000 * r <= nowMs - sinceMs < 1000 * r + 1000
  {
    (nowMs - sinceMs) / 1000
  }

  /** The caption under the header: nothing before the first load, then seconds, then whole minutes. */
  function SinceText(lastUpdated: Option<int>, nowMs: int): (text: string)
    ensures text == "" <==> lastUpdated.None?
  {
    match lastUpdated
    case None => ""
    case Some(t) =>
      var diff := ElapsedSeconds(t, nowMs);
      if diff < 60 then UpdatedPrefix + Decimal.IntToString(diff) + SecondsUnit
      else UpdatedPrefix + Decimal.IntToString(diff / 60) + MinutesUnit
  }

  /** What a caption tells the reader: a count in one of the two units. */
  datatype Shown = Seconds(n: int) | Minutes(n: int)

  /** Reads a caption back into its unit and count. */
  function ReadSince(text: string): Option<Shown> {
    var p := |UpdatedPrefix|;
    if |text| >= p + 6 && text[..p] == UpdatedPrefix then
      var body, unit := text[p..|text| - 6], text[|text| - 6..];
      match Decimal.ParseInt(body)
      case None => None
      case Some(n) =>
        if unit == SecondsUnit then Some(Seconds(n))
        else if unit == MinutesUnit then Some(Minutes(n))
        else None
    else None
  }

  lemma ReadCaption(count: int, unit: string)
    requires unit == SecondsUnit || unit == MinutesUnit
    ensures ReadSince(UpdatedPrefix + Decimal.IntToString(count) + unit)
      == Some(if unit == SecondsUnit then Seconds(count) else Minutes(count))
  {
    var text := UpdatedPrefix + Decimal.IntToString(count) + unit;
    var p := |UpdatedPrefix|;
    assert text[..p] == UpdatedPrefix;
    assert text[p..|text| - 6] == Decimal.IntToString(count);
    assert text[|text| - 6..] == unit;
    Decimal.IntToStringRoundTrip(count);
  }

  /**
   * Under a minute the caption gives the elapsed whole seconds; from a minute
   * on it gives the elapsed whole minutes, and never both.
   */
  lemma SinceTiers(sinceMs: int, nowMs: int)
    ensures var diff := ElapsedSeconds(sinceMs, nowMs);
            ReadSince(SinceText(Some(sinceMs), nowMs))
              == Some(if diff < 60 then Seconds(diff) else Minutes(diff / 60))
  {
    var diff := ElapsedSeconds(sinceMs, nowMs);
    if diff < 60 {
      ReadCaption(diff, SecondsUnit);
    } else {
      ReadCaption(diff / 60, MinutesUnit);
    }
  }

  /** The minutes shown are at least one and are the elapsed seconds rounded down to whole minutes. */
  lemma MinutesShown(sinceMs: int, nowMs: int)
    requires ElapsedSeconds(sinceMs, nowMs) >= 60
    ensures var m := ReadSince(SinceText(Some(sinceMs), nowMs)).value.n;
            1 <= m && 60 * m <= ElapsedSeconds(sinceMs, nowMs) < 60 * m + 60
  {
    SinceTiers(sinceMs, nowMs);
  }

  lemma SinceExamples()
    ensures SinceText(Some(0), 10_000) == UpdatedPrefix + "10" + SecondsUnit
    ensures SinceText(Some(0), 125_000) == UpdatedPrefix + "2" + MinutesUnit
    ensures SinceText(Some(1_500), 0) == UpdatedPrefix + "-2" + SecondsUnit
  {
    assert Decimal.IntToString(10) == "10";
  }

  // ---------------------------------------------------------------------
  // The day's list

  /** What the fixture section shows: a loading notice, a "no matches" notice, or one row per fixture. */
  datatype ListBody = Loading | NoMatches | Rows(rows: seq<MatchRow.Row>)

  function Body(loading: bool, fixtures: seq<Fixture>, league: LeagueFilter): (b: ListBody)
    ensures b.Loading? <==> loading
    ensures b.NoMatches? <==> !loading && Filtered(fixtures, league) == []
    ensures b.Rows? ==> && |b.rows| == |Filtered(fixtures, league)| > 0
                        && forall i :: 0 <= i < |b.rows| ==> b.rows[i] == MatchRow.Render(Filtered(fixtures, league)[i])
  {
    var shown := Filtered(fixtures, league);
    if loading then Loading
    else if |shown| == 0 then NoMatches
    else Rows(seq(|shown|, i requires 0 <= i < |shown| => MatchRow.Render(shown[i])))
  }

  /** Every row links to a fixture that the selected league lets through. */
  lemma RowsLinkToShownFixtures(fixtures: seq<Fixture>, league: LeagueFilter, i: int)
    requires Body(false, fixtures, league).Rows?
    requires 0 <= i < |Body(false, fixtures, league).rows|
    ensures exists f :: f in fixtures && Shows(league, f) && Body(false, fixtures, league).rows[i].href == MatchRow.Href(f.id)
  {
    var f := Filtered(fixtures, league)[i];
    assert f in Filtered(fixtures, league);
    assert f in multiset(Filtered(fixtures, league));
  }

  // ---------------------------------------------------------------------
  // Page state

  /** The state the home page keeps between renders. */
  class HomeView {
    var date: string
    var fixtures: seq<Fixture>
    var loading: bool
    var lastUpdated: Option<int>
    var league: LeagueFilter

    /** A fresh page: today's date, nothing loaded yet, every league. */
    constructor (nowMs: int)
      requires Calendar.InFourDigitYears(nowMs)
      ensures date == Calendar.TodayText(nowMs)
      ensures fixtures == [] && loading && lastUpdated.None? && league.All?
    {
      var today := Calendar.TodayText(nowMs);
      date, fixtures, loading, lastUpdated, league := today, [], true, None, All;
    }

    /**
     * One load of the selected day: on a decoded body its fixtures (none if
     * the field is missing) and the time of the load; on a failure an empty
     * list and the previous time. Loading is over either way.
     */
    method LoadForDate(outcome: FetchOutcome, nowMs: int)
      modifies this`fixtures, this`lastUpdated, this`loading
      ensures !loading
      ensures outcome.Ok? ==> && fixtures == (if outcome.resp.fixtures.Some? then outcome.resp.fixtures.value else [])
                              && lastUpdated == Some(nowMs)
      ensures outcome.Failed? ==> fixtures == [] && lastUpdated == old(lastUpdated)
    {
      loading := true;
      match outcome {
        case Ok(resp) =>
          fixtures := match resp.fixtures case Some(fs) => fs case None => [];
          lastUpdated := Some(nowMs);
        case Failed =>
          fixtures := [];
      }
      loading := false;
    }

    /** The "yesterday" button. */
    method PrevDay()
      requires Calendar.Parse(date).Some? && Calendar.Parse(date).value != Calendar.MinDate
      modifies this`date
      ensures date == Calendar.StepBack(old(date))
    {
      date := Calendar.StepBack(date);
    }

    /** The "tomorrow" button. */
    method NextDay()
      requires Calendar.Parse(date).Some? && Calendar.Parse(date).value != Calendar.MaxDate
      modifies this`date
      ensures date == Calendar.StepForward(old(date))
    {
      date := Calendar.StepForward(date);
    }

    /** The "today" button. */
    method Today(nowMs: int)
      requires Calendar.InFourDigitYears(nowMs)
      modifies this`date
      ensures date == Calendar.TodayText(nowMs)
    {
      date := Calendar.TodayText(nowMs);
    }

    /** The date input: whatever text it reports becomes the date. */
    method PickDate(text: string)
      modifies this`date
      ensures date == text
    {
      date := text;
    }

    /** The league select. */
    method SelectLeague(v: string)
      requires ReadSelect(v).Some?
      modifies this`league
      ensures league == ReadSelect(v).value
    {
      league := ReadSelect(v).value;
    }
  }
}
