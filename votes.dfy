/**
 * The two routes of the voting app: GET / renders the totals and the
 * leader, POST / (behind the authentication middleware) validates the
 * submitted team and stores a vote.
 */
module Votes {
  import opened Wrappers
  import opened Http
  import opened Tally
  import opened Auth

  /** The clock reading `new Date()`, carried as the text its string conversion prints. */
  datatype Instant = Instant(text: string)

  /** The record handed to the database: `{candidate, time_cast}`. */
  datatype Vote = Vote(candidate: string, timeCast: Instant)

  /** How the database insert ended: stored, or the awaited promise rejected. */
  datatype InsertOutcome = Inserted | InsertFailed

  const InvalidTeam := "Invalid team specified."
  const CastFailed := "Unable to cast vote; see logs for more details."
  const LoadFailed := "Unable to load page; see logs for more details."

  /** The submitted team is exactly "TABS" or "SPACES". */
  predicate IsTeam(team: Option<string>)
  {
    team == Some(Tabs) || team == Some(Spaces)
  }

  /**
   * The POST / handler after authentication. `attempted` is the record
   * passed to the insert (None when the insert is never reached) and
   * `insert` is how that insert ends.
   */
  method CastVote(team: Option<string>, timestamp: Instant, insert: InsertOutcome)
    returns (resp: Response, attempted: Option<Vote>)
    ensures !IsTeam(team) ==> resp == Response(400, "Invalid team specified.") && attempted == None
    ensures IsTeam(team) ==> attempted == Some(Vote(team.value, timestamp))
    ensures IsTeam(team) && insert == InsertFailed ==>
      resp == Response(500, "Unable to cast vote; see logs for more details.")
    ensures IsTeam(team) && insert == Inserted ==>
      resp == Response(200, "Successfully voted for " + team.value + " at " + timestamp.text)
    ensures resp.status == 200 <==> attempted.Some? && insert == Inserted
  {
    if team.None? || team.value == "" || (team.value != Tabs && team.value != Spaces) {
      resp := Response(400, InvalidTeam);
      attempted := None;
      return;
    }
    var vote := Vote(team.value, timestamp);
    attempted := Some(vote);
    if insert == InsertFailed {
      resp := Response(500, CastFailed);
      return;
    }
    resp := Response(200, "Successfully voted for " + team.value + " at " + timestamp.text);
  }

  /**
   * The whole POST / route: the middleware, then the handler. A request the
   * middleware turns away never reaches the handler, so nothing is inserted.
   */
  method PostVote(req: Request, verify: Verifier, timestamp: Instant, insert: InsertOutcome)
    returns (resp: Response, attempted: Option<Vote>)
    modifies req
    ensures Decide(req.authorization, verify) == Unauthorized ==>
      resp == Response(401, "Unauthorized") && attempted == None && req.uid == old(req.uid)
    ensures Decide(req.authorization, verify) == Forbidden ==>
      resp == Response(403, "Forbidden") && attempted == None && req.uid == old(req.uid)
    ensures Decide(req.authorization, verify).Admitted? ==>
      req.uid == Some(Decide(req.authorization, verify).uid) &&
      (IsTeam(req.team) <==> attempted.Some?) &&
      (!IsTeam(req.team) ==> resp == Response(400, "Invalid team specified.")) &&
      (IsTeam(req.team) ==> attempted == Some(Vote(req.team.value, timestamp))) &&
      (IsTeam(req.team) && insert == InsertFailed ==>
        resp == Response(500, "Unable to cast vote; see logs for more details.")) &&
      (IsTeam(req.team) && insert == Inserted ==>
        resp == Response(200, "Successfully voted for " + req.team.value + " at " + timestamp.text)) &&
      (resp.status == 200 <==> attempted.Some? && insert == Inserted)
  {
    var sent := Authenticate(req, verify);
    if sent.Some? {
      resp, attempted := sent.value, None;
      return;
    }
    resp, attempted := CastVote(req.team, timestamp, insert);
  }

  /** What `index.pug` is rendered with. */
  datatype View = View(
    votes: seq<Vote>,
    tabsCount: nat,
    spacesCount: nat,
    leadTeam: string,
    voteDiff: nat,
    leaderMessage: string)

  datatype Page = Rendered(view: View) | Failed(response: Response)

  /**
   * The GET / handler. Each query result is None when the awaited query
   * throws; the counts are taken as already converted to numbers.
   */
  method ShowIndex(tabsQuery: Option<nat>, spacesQuery: Option<nat>, recentVotes: Option<seq<Vote>>)
    returns (page: Page)
    ensures page.Rendered? <==> tabsQuery.Some? && spacesQuery.Some? && recentVotes.Some?
    ensures page.Failed? ==> page.response == Response(500, "Unable to load page; see logs for more details.")
    ensures page.Rendered? ==>
      var v := page.view;
      var s := Leader(tabsQuery.value, spacesQuery.value);
      v.votes == recentVotes.value &&
      v.tabsCount == tabsQuery.value && v.spacesCount == spacesQuery.value &&
      v.leadTeam == s.leadTeam && v.voteDiff == s.voteDiff && v.leaderMessage == s.leaderMessage
  {
    if tabsQuery.None? || spacesQuery.None? || recentVotes.None? {
      page := Failed(Response(500, LoadFailed));
      return;
    }
    var tabsTotalVotes := tabsQuery.value;
    var spacesTotalVotes := spacesQuery.value;
    var votes := recentVotes.value;
    var standing := Leader(tabsTotalVotes, spacesTotalVotes);
    page := Rendered(View(votes, tabsTotalVotes, spacesTotalVotes,
                          standing.leadTeam, standing.voteDiff, standing.leaderMessage));
  }

}
