# Tabs-versus-spaces voting app: a Dafny model

This project models the request logic of the Cloud SQL (PostgreSQL, Knex) voting sample in
`cloud-sql/postgres/knex/app.js`. Visitors vote for TABS or SPACES. The index page shows both
totals, the leading team, its margin and a sentence about the race. Voting is a POST guarded by an
ID-token middleware.

Modules:

- `Wrappers` (wrappers.dfy): `Option`. None stands for JavaScript's `undefined`, a missing value or a rejected promise.
- `Strings` (strings.dfy): decimal rendering of a non-negative integer in a template literal, and `split` on a one-character separator, with `Join` as its inverse.
- `Tally` (tally.dfy): the leader rule of GET / as the function `Leader(tabs, spaces)`. `ParseLeaderMessage` reads a leader sentence back, and is the inverse used to show that the sentence determines the standing.
- `Http` (http.dfy): `Response`, `res.sendStatus`, and the `Request` class whose `uid` field the middleware sets.
- `Auth` (auth.dfy): the decision of `authenticateJWT` as the function `Decide`, and the middleware as the method `Authenticate`, which updates `req.uid`. The ID-token verifier is a parameter of type `Option<string> -> Option<string>`.
- `Votes` (votes.dfy): the POST handler `CastVote`, the whole POST route `PostVote`, and the GET handler `ShowIndex`.

Foreign effects become parameters:

- Each database query result is an `Option`; None means the awaited query threw.
- The insert is an `InsertOutcome`.
- The clock is an `Instant` carrying the text that `Date` prints.
- The verifier is a total function from the token to the user id, or to None on rejection.

## Model

| member | source | states |
|---|---|---|
| Strings.Decimal | cloud-sql/postgres/knex/app.js:84 | The margin is rendered as a non-empty string of decimal digits with no leading zero. |
| Strings.DecimalRoundTrip | cloud-sql/postgres/knex/app.js:84 | Reading the rendered margin back gives the number rendered. |
| Strings.Split | cloud-sql/postgres/knex/app.js:46 | `split(' ')` yields at least one piece, and no piece contains the separator. |
| Strings.JoinSplit | cloud-sql/postgres/knex/app.js:46 | Joining the pieces of `split` with the separator gives the header back, so nothing is lost. |
| Strings.SplitNoSeparator | cloud-sql/postgres/knex/app.js:46 | A string without the separator splits into itself alone. |
| Strings.SplitAtFirst | cloud-sql/postgres/knex/app.js:46 | The first separator ends the first piece, and splitting goes on after it. |
| Tally.WinningMessage | cloud-sql/postgres/knex/app.js:84-86 | Definition of the winning sentence. It opens with "<team> are winning by " and ends in " votes." when the margin exceeds 1, otherwise " vote."; its full shape is stated by Tally.WinningMessageShape. |
| Tally.Leader | cloud-sql/postgres/knex/app.js:72-89 | Definition of the leader rule. The margin is the distance between the totals; the leading team is "" exactly when the margin is 0, and exactly when the message is the tie sentence. Its other properties are stated by the Tally lemmas below. |
| Tally.LeaderWhenTied | cloud-sql/postgres/knex/app.js:73-76 | With equal totals the leading team is "", the margin is 0 and the message is "TABS and SPACES are evenly matched!" (lines 87-89). |
| Tally.LeaderWhenTabsAhead | cloud-sql/postgres/knex/app.js:76-79 | When TABS has more votes, TABS leads by tabs - spaces. |
| Tally.LeaderWhenSpacesAhead | cloud-sql/postgres/knex/app.js:80-83 | When SPACES has more votes, SPACES leads by spaces - tabs. |
| Tally.LeaderNamesLargerTotal | cloud-sql/postgres/knex/app.js:76-83 | The leader is TABS iff tabs > spaces, SPACES iff spaces > tabs, and "" iff tied. The margin equals the distance between the totals and is positive iff they differ. |
| Tally.LeaderSymmetric | cloud-sql/postgres/knex/app.js:76-83 | Swapping the totals swaps TABS and SPACES as leader and keeps the margin. |
| Tally.WinningMessageShape | cloud-sql/postgres/knex/app.js:84-86 | The sentence opens with "<team> are winning by ". It ends in "votes." iff the margin exceeds 1, and is "<team> are winning by 1 vote." iff the margin is 1. |
| Tally.LeaderMessageShape | cloud-sql/postgres/knex/app.js:76-86 | With differing totals the leader's sentence has that shape, for the computed leader and margin. |
| Tally.ParseMarginRoundTrip | cloud-sql/postgres/knex/app.js:84-86 | The tail "<margin> vote[s]." reads back as the margin. |
| Tally.WinningMessageRoundTrip | cloud-sql/postgres/knex/app.js:84-86 | A winning sentence for TABS or SPACES, at any margin of at least 1, reads back as exactly that team and margin. |
| Tally.LeaderMessageRoundTrip | cloud-sql/postgres/knex/app.js:72-89 | The leader sentence determines the standing: reading it back gives exactly the leading team and the margin. |
| Auth.BearerToken | cloud-sql/postgres/knex/app.js:46 | Definition of the token taken from the header: the second piece of `split(' ')`, or undefined when there is none. The token never contains a space. |
| Auth.BearerTokenSecondSegment | cloud-sql/postgres/knex/app.js:46 | For every header "<scheme> <token> <rest>" with no space in scheme or token, the verifier receives exactly the token, whatever follows the second space. |
| Auth.BearerTokenOfScheme | cloud-sql/postgres/knex/app.js:46 | For a header "<scheme> <token>" with no other spaces, the verifier receives exactly the token. |
| Auth.BearerTokenWithoutSpace | cloud-sql/postgres/knex/app.js:46 | A header with no space yields an undefined token. |
| Http.Request.constructor | cloud-sql/postgres/knex/app.js:44-51 | A request holds its Authorization header and body `team` unchanged; its `uid` slot starts unset until the middleware fills it (line 51). |
| Auth.Decide | cloud-sql/postgres/knex/app.js:44-58 | Definition of the middleware's decision. Admission carries exactly the uid the verifier returns for the header's second segment; 403 only for a non-empty header whose token the verifier rejects. Completed by Auth.DecideUnauthorized and Auth.DecideAsksVerifier. |
| Auth.DecideUnauthorized | cloud-sql/postgres/knex/app.js:44-58 | The middleware answers 401 exactly when the Authorization header is missing or empty. |
| Auth.DecideAsksVerifier | cloud-sql/postgres/knex/app.js:45-55 | With a non-empty header, the result is 403 iff the verifier rejects the second segment. Otherwise the request is admitted with the user id the verifier returns. |
| Auth.Authenticate | cloud-sql/postgres/knex/app.js:43-59 | 401 "Unauthorized" or 403 "Forbidden" is sent with `req.uid` unchanged. On admission nothing is sent, `next()` runs, and `req.uid` is the verified user id. |
| Votes.CastVote | cloud-sql/postgres/knex/app.js:113-138 | A team other than exactly "TABS" or "SPACES" gets 400 "Invalid team specified." and nothing is inserted. Otherwise the record {candidate: team, time_cast: timestamp} is inserted. A failed insert gets 500 "Unable to cast vote; see logs for more details." (the error itself goes only to the logger). A stored vote gets 200 "Successfully voted for <team> at <time>". Status 200 iff a vote was stored. |
| Votes.PostVote | cloud-sql/postgres/knex/app.js:109-139 | A request the middleware turns away gets 401/403 and never reaches the handler, so no record is built. An admitted one carries the verified uid and gets the handler's outcome: 400 "Invalid team specified." with no record for a bad team, otherwise the {candidate, time_cast} record, then 500 "Unable to cast vote; see logs for more details." on a failed insert or 200 "Successfully voted for <team> at <time>" on success. |
| Votes.ShowIndex | cloud-sql/postgres/knex/app.js:62-107 | The page renders iff all three queries succeed, and otherwise gives 500 "Unable to load page; see logs for more details.". The view gets the recent votes and both totals unchanged, plus the leader, margin and message of `Leader`. |

## Left out

- Chat-room server: the only chat file, `run/websockets/public/index.js`, is a browser client; no server code for it is among the modelled files.
- `cloud-sql/postgres/knex/static/firebase.js`: browser sign-in UI and a `fetch` call.
- `cloud-sql/postgres/knex/secrets.js`: environment and Secret Manager reads at startup.
- The `./cloud-sql` data-access module is not part of this model. `getVoteCount`, `getVotes` (the last five votes) and `insertVote` appear only as their outcomes. The model does not keep a vote table.
- `parseInt` of the count strings: the totals are taken as already-parsed natural numbers.
- Double precision: the totals and the margin are exact naturals. JavaScript numbers are doubles, so above 2^53 `parseInt` rounds the counts (two different counts can then tie) and `${voteDiff}` prints the shortest round-tripping digits rather than the exact ones; `Leader` and `Decimal` do not model that rounding.
- Firebase `verifyIdToken` is an oracle parameter. The model hands it the token, or None for `undefined`, and lets it decide. Whether a missing token is rejected asynchronously (403) or throws outside the promise is the verifier's behaviour and is not modelled.
- `new Date()` and its string form: the timestamp is an opaque `Instant` that carries its printed text.
- Express's `res.sendStatus` is taken to send only the two reason phrases the middleware needs: "Unauthorized" for 401 and "Forbidden" for 403.
- The Express setup (static files, body parsers, the Content-Type middleware), pug rendering and the logger.
- Asynchrony: `next()` runs when the verifier's promise resolves. The model runs the middleware and the handler in sequence.
- CastVote: a body `team` that is not a string is folded into None. Such a value is never strictly equal to "TABS" or "SPACES", so it is rejected with 400 like a missing one.
