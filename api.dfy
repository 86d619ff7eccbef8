/**
 * The shapes the backend returns for fixtures (src/lib/api.ts) and the
 * outcome of one fetch, which is all of the HTTP client this model keeps.
 */
module Api {
  import opened Wrappers

  /** A participant; `code` and `logo` may be missing from the JSON. */
  datatype Team = Team(id: int, name: string, code: Option<string>, logo: Option<string>)

  /**
   * One match. `league_name` and the kickoff strings may be null; the scores
   * are `None` whenever the JSON value is not a number.
   */
  datatype Fixture = Fixture(
    id: int,
    league_id: int,
    league_name: Option<string>,
    state_id: int,
    kickoff_utc: Option<string>,
    kickoff_bahrain: Option<string>,
    home: Team,
    away: Team,
    score_home: Option<int>,
    score_away: Option<int>)

  /** Body of `/api/fixtures/date/{date}`; `fixtures` may be missing. */
  datatype DateResp = DateResp(date_utc: string, fixtures: Option<seq<Fixture>>)

  /**
   * What a call to the date endpoint ends with: a decoded body, or a thrown
   * error (non-2xx status, transport failure, a body that is not JSON, or a
   * JSON `null` body, whose `fixtures` lookup throws inside the same `try`).
   */
  datatype FetchOutcome = Ok(resp: DateResp) | Failed

  /** JavaScript truthiness of an optional string: present and non-empty. */
  predicate Truthy(s: Option<string>) {
    s.Some? && s.value != ""
  }
}
