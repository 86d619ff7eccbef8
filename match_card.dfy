/** The card renderer of one fixture (src/components/MatchCard.tsx). */
module MatchCard {
  import opened Wrappers
  import opened Api
  import opened View

  /** Status badge of a card, chosen from the state code alone. */
  function BadgeFor(stateId: int): (b: Status)
    ensures b == Live <==> stateId == 2
    ensures b == Finished <==> stateId == 3
    ensures b == Upcoming <==> stateId != 2 && stateId != 3
  {
    if stateId == 2 then Live
    else if stateId == 3 then Finished
    else Upcoming
  }

  /** A side of the card; the logo image is labelled with the team name. */
  function TeamSide(t: Team): (s: Side)
    ensures s.name == t.name
    ensures s.avatar.Logo? <==> Truthy(t.logo)
    ensures s.avatar.Logo? ==> s.avatar.src == t.logo.value && s.avatar.alt == t.name
  {
    Side(if t.logo.Some? && t.logo.value != "" then Logo(t.logo.value, t.name) else Placeholder, t.name)
  }

  datatype Card = Card(home: Side, scoreHome: int, scoreAway: int, kickoff: string, away: Side, badge: Status)

  /** Everything a card shows for `f`. */
  function Render(f: Fixture): (c: Card)
    ensures c.home == TeamSide(f.home) && c.away == TeamSide(f.away)
    ensures c.scoreHome == (if f.score_home.Some? then f.score_home.value else 0)
    ensures c.scoreAway == (if f.score_away.Some? then f.score_away.value else 0)
    ensures c.kickoff == (if f.kickoff_bahrain.Some? then f.kickoff_bahrain.value else NoKickoff)
    ensures c.badge == BadgeFor(f.state_id)
  {
    Card(
      TeamSide(f.home),
      match f.score_home case Some(n) => n case None => 0,
      match f.score_away case Some(n) => n case None => 0,
      match f.kickoff_bahrain case Some(k) => k case None => NoKickoff,
      TeamSide(f.away),
      BadgeFor(f.state_id))
  }

  /** The badge depends on the state code and on no other field of the fixture. */
  lemma BadgeDependsOnlyOnState(f: Fixture, g: Fixture)
    requires f.state_id == g.state_id
    ensures Render(f).badge == Render(g).badge
  {
  }
}
