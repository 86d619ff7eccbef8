/** The linked row renderer of one fixture (src/components/MatchRow.tsx). */
module MatchRow {
  import opened Wrappers
  import opened Api
  import opened View
  import Decimal
  import MatchCard

  /** Status badge of a row, chosen from the state code alone. */
  function Badge(state: int): (b: Status)
    ensures b == Live <==> state == 2
    ensures b == Finished <==> state == 3
    ensures b == Upcoming <==> state != 2 && state != 3
  {
    if state == 2 then Live
    else if state == 3 then Finished
    else Upcoming
  }

  const MatchPathPrefix := "/match/"

  /** The detail page a row links to. */
  function Href(id: int): (h: string)
    ensures |h| > |MatchPathPrefix| && h[..|MatchPathPrefix|] == MatchPathPrefix
  {
    MatchPathPrefix + Decimal.IntToString(id)
  }

  /** A side of the row; the logo image carries an empty alt text. */
  function TeamSide(t: Team): (s: Side)
    ensures s.name == t.name
    ensures s.avatar.Logo? <==> Truthy(t.logo)
    ensures s.avatar.Logo? ==> s.avatar.src == t.logo.value && s.avatar.alt == ""
  {
    Side(if t.logo.Some? && t.logo.value != "" then Logo(t.logo.value, "") else Placeholder, t.name)
  }

  /** Scores are kept as they came: a value that is not a number is shown as nothing. */
  datatype Row = Row(href: string, home: Side, scoreHome: Option<int>, scoreAway: Option<int>, kickoff: string, away: Side, badge: Status)

  /** Everything a row shows for `f`. */
  function Render(f: Fixture): (r: Row)
    ensures r.href == Href(f.id)
    ensures r.home == TeamSide(f.home) && r.away == TeamSide(f.away)
    ensures r.scoreHome == f.score_home && r.scoreAway == f.score_away
    ensures r.kickoff == (if f.kickoff_bahrain.Some? then f.kickoff_bahrain.value else NoKickoff)
    ensures r.badge == Badge(f.state_id)
  {
    Row(
      Href(f.id),
      TeamSide(f.home),
      f.score_home,
      f.score_away,
      match f.kickoff_bahrain case Some(k) => k case None => NoKickoff,
      TeamSide(f.away),
      Badge(f.state_id))
  }

  /** The link names the fixture: its id reads back from the path. */
  lemma HrefNamesFixture(id: int)
    ensures Decimal.ParseInt(Href(id)[|MatchPathPrefix|..]) == Some(id)
  {
    assert Href(id)[|MatchPathPrefix|..] == Decimal.IntToString(id);
    Decimal.IntToStringRoundTrip(id);
  }

  /** Two rows link to the same page only for the same fixture id. */
  lemma HrefInjective(a: int, b: int)
    requires Href(a) == Href(b)
    ensures a == b
  {
    HrefNamesFixture(a);
    HrefNamesFixture(b);
  }

  /** The row's badge and the card's badge agree on every state code. */
  lemma BadgeAgreesWithCard(state: int)
    ensures Badge(state) == MatchCard.BadgeFor(state)
  {
  }

  /**
   * Row and card show the same kickoff, the same badge, the same team names
   * and the same choice between logo and placeholder; where a score is a number they show the
   * same number, and where it is not the card shows 0 and the row nothing.
   */
  lemma RowAgreesWithCard(f: Fixture)
    ensures Render(f).kickoff == MatchCard.Render(f).kickoff
    ensures Render(f).badge == MatchCard.Render(f).badge
    ensures Render(f).home.name == MatchCard.Render(f).home.name && Render(f).away.name == MatchCard.Render(f).away.name
    ensures Render(f).home.avatar.Logo? == MatchCard.Render(f).home.avatar.Logo?
    ensures Render(f).away.avatar.Logo? == MatchCard.Render(f).away.avatar.Logo?
    ensures Render(f).home.avatar.Logo? ==> Render(f).home.avatar.src == MatchCard.Render(f).home.avatar.src
    ensures Render(f).away.avatar.Logo? ==> Render(f).away.avatar.src == MatchCard.Render(f).away.avatar.src
    ensures f.score_home.Some? ==> Render(f).scoreHome == Some(MatchCard.Render(f).scoreHome)
    ensures f.score_home.None? ==> Render(f).scoreHome.None? && MatchCard.Render(f).scoreHome == 0
    ensures f.score_away.Some? ==> Render(f).scoreAway == Some(MatchCard.Render(f).scoreAway)
    ensures f.score_away.None? ==> Render(f).scoreAway.None? && MatchCard.Render(f).scoreAway == 0
  {
  }
}
