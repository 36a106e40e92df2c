/**
 * The leader rule of the index page (GET /): from the two vote totals it
 * decides which team leads, by how many votes, and the sentence shown.
 */
module Tally {
  import opened Wrappers
  import opened Strings

  const Tabs := "TABS"
  const Spaces := "SPACES"
  const EvenMessage := "TABS and SPACES are evenly matched!"
  const Winning := " are winning by "

  /** What the page shows about the race; `leadTeam` is "" on a tie. */
  datatype Standing = Standing(leadTeam: string, voteDiff: nat, leaderMessage: string)

  /** `${leadTeam} are winning by ${voteDiff} vote${voteDiff > 1 ? 's' : ''}.` */
  function WinningMessage(team: string, diff: nat): (m: string)
    ensures HasPrefix(m, team + " are winning by ")
    ensures HasSuffix(m, if diff > 1 then " votes." else " vote.")
  {
    team + Winning + Decimal(diff) + " vote" + (if diff > 1 then "s" else "") + "."
  }

  function Leader(tabs: nat, spaces: nat): (s: Standing)
    ensures s.voteDiff == Distance(tabs, spaces)
    ensures s.leadTeam == "" <==> s.voteDiff == 0
    ensures s.leadTeam == "" <==> s.leaderMessage == "TABS and SPACES are evenly matched!"
  {
    if tabs != spaces then
      var team := if tabs > spaces then Tabs else Spaces;
      var diff: nat := if tabs > spaces then tabs - spaces else spaces - tabs;
      Standing(team, diff, WinningMessage(team, diff))
    else
      Standing("", 0, EvenMessage)
  }

  /** Distance between the two totals, defined independently of Leader. */
  function Distance(a: nat, b: nat): nat
  {
    if a >= b then a - b else b - a
  }

  lemma LeaderWhenTied(tabs: nat, spaces: nat)
    requires tabs == spaces
    ensures Leader(tabs, spaces) == Standing("", 0, "TABS and SPACES are evenly matched!")
  {
  }

  lemma LeaderWhenTabsAhead(tabs: nat, spaces: nat)
    requires tabs > spaces
    ensures Leader(tabs, spaces).leadTeam == "TABS"
    ensures Leader(tabs, spaces).voteDiff == tabs - spaces
  {
  }

  lemma LeaderWhenSpacesAhead(tabs: nat, spaces: nat)
    requires spaces > tabs
    ensures Leader(tabs, spaces).leadTeam == "SPACES"
    ensures Leader(tabs, spaces).voteDiff == spaces - tabs
  {
  }

  /**
   * The leading team is exactly the one with the larger total, the margin is
   * the distance between the totals, and it is positive exactly when they differ.
   */
  lemma LeaderNamesLargerTotal(tabs: nat, spaces: nat)
    ensures Leader(tabs, spaces).leadTeam == "TABS" <==> tabs > spaces
    ensures Leader(tabs, spaces).leadTeam == "SPACES" <==> spaces > tabs
    ensures Leader(tabs, spaces).leadTeam == "" <==> tabs == spaces
    ensures Leader(tabs, spaces).voteDiff == Distance(tabs, spaces)
    ensures Leader(tabs, spaces).voteDiff > 0 <==> tabs != spaces
  {
  }

  /** Swapping the totals swaps the leader and keeps the margin. */
  lemma LeaderSymmetric(tabs: nat, spaces: nat)
    ensures Leader(tabs, spaces).voteDiff == Leader(spaces, tabs).voteDiff
    ensures Leader(tabs, spaces).leadTeam == "TABS" <==> Leader(spaces, tabs).leadTeam == "SPACES"
    ensures Leader(tabs, spaces).leadTeam == "" <==> Leader(spaces, tabs).leadTeam == ""
  {
  }

  predicate HasPrefix(s: string, p: string) {
    |p| <= |s| && s[..|p|] == p
  }

  predicate HasSuffix(s: string, p: string) {
    |p| <= |s| && s[|s| - |p|..] == p
  }

  lemma SuffixOfConcat(a: string, b: string)
    ensures HasSuffix(a + b, b)
  {
    assert (a + b)[|a|..] == b;
  }

  /**
   * A winning message opens with the team and " are winning by ", and ends in
   * "votes." exactly when the margin exceeds 1 (otherwise in " vote.").
   */
  lemma {:induction false} WinningMessageShape(team: string, diff: nat)
    requires diff >= 1
    ensures HasPrefix(WinningMessage(team, diff), team + " are winning by ")
    ensures HasSuffix(WinningMessage(team, diff), "votes.") <==> diff > 1
    ensures diff == 1 <==> WinningMessage(team, diff) == team + " are winning by 1 vote."
  {
    var m := WinningMessage(team, diff);
    var head := team + Winning;
    var d := Decimal(diff);
    if diff == 1 {
      assert d == "1";
      assert m == head + "1 vote.";
      assert m[|m| - 6..][4] == m[|m| - 2] == 'e' && "votes."[4] == 's';
    } else {
      assert m == (head + d + " ") + "votes.";
      SuffixOfConcat(head + d + " ", "votes.");
      assert |m| > |head + "1 vote."|;
    }
  }

  /**
   * When the totals differ, the message opens with the leading team, and it
   * says "votes" (plural) exactly when the margin exceeds 1.
   */
  lemma LeaderMessageShape(tabs: nat, spaces: nat)
    requires tabs != spaces
    ensures var s := Leader(tabs, spaces);
      HasPrefix(s.leaderMessage, s.leadTeam + " are winning by ") &&
      (HasSuffix(s.leaderMessage, "votes.") <==> s.voteDiff > 1) &&
      (s.voteDiff == 1 <==> s.leaderMessage == s.leadTeam + " are winning by 1 vote.")
  {
    var s := Leader(tabs, spaces);
    WinningMessageShape(s.leadTeam, s.voteDiff);
  }

  /**
   * The reader of leader messages: recovers the leading team and the margin,
   * or None for a sentence Leader never produces.
   */
  function ParseLeaderMessage(m: string): Option<(string, nat)>
  {
    if m == EvenMessage then Some(("", 0))
    else if HasPrefix(m, Tabs + Winning) then ParseMargin(Tabs, m[|Tabs + Winning|..])
    else if HasPrefix(m, Spaces + Winning) then ParseMargin(Spaces, m[|Spaces + Winning|..])
    else None
  }

  function ParseMargin(team: string, rest: string): Option<(string, nat)>
  {
    if HasSuffix(rest, " votes.") && AllDigits(rest[..|rest| - 7]) then
      Some((team, DecimalValue(rest[..|rest| - 7])))
    else if HasSuffix(rest, " vote.") && AllDigits(rest[..|rest| - 6]) then
      Some((team, DecimalValue(rest[..|rest| - 6])))
    else None
  }

  lemma {:induction false} ParseMarginRoundTrip(team: string, diff: nat)
    requires diff >= 1
    ensures ParseMargin(team, Decimal(diff) + " vote" + (if diff > 1 then "s" else "") + ".") == Some((team, diff))
  {
    var d := Decimal(diff);
    var rest := d + " vote" + (if diff > 1 then "s" else "") + ".";
    DecimalRoundTrip(diff);
    if diff > 1 {
      assert rest == d + " votes.";
      assert rest[..|rest| - 7] == d;
    } else {
      assert d == "1";
      assert rest == "1 vote.";
      assert !HasSuffix(rest, " votes.");
      assert rest[..|rest| - 6] == d;
    }
  }

  /** A sentence opening with a team and " are winning by " is read by ParseMargin on the rest. */
  lemma ParseWinningPrefix(team: string, rest: string)
    requires team == Tabs || team == Spaces
    ensures ParseLeaderMessage(team + Winning + rest) == ParseMargin(team, rest)
  {
    var head := team + Winning;
    var m := head + rest;
    assert m[..|head|] == head && m[|head|..] == rest;
    if team == Tabs {
      // "TABS are ..." and "TABS and ..." first differ at index 6
      assert m[6] == head[6] == 'r' && EvenMessage[6] == 'n';
    } else {
      // "SPACES ..." differs from both "TABS ..." sentences at index 0
      assert m[0] == head[0] == 'S' && EvenMessage[0] == 'T';
      assert !HasPrefix(m, Tabs + Winning) by { assert (Tabs + Winning)[0] == 'T'; }
    }
  }

  /** A winning sentence for either team reads back as that team and margin. */
  lemma WinningMessageRoundTrip(team: string, diff: nat)
    requires team == Tabs || team == Spaces
    requires diff >= 1
    ensures ParseLeaderMessage(WinningMessage(team, diff)) == Some((team, diff))
  {
    var rest := Decimal(diff) + " vote" + (if diff > 1 then "s" else "") + ".";
    assert WinningMessage(team, diff) == team + Winning + rest;
    ParseWinningPrefix(team, rest);
    ParseMarginRoundTrip(team, diff);
  }

  /** The message determines the standing: reading it back gives the leader and the margin. */
  lemma {:induction false} LeaderMessageRoundTrip(tabs: nat, spaces: nat)
    ensures var s := Leader(tabs, spaces);
      ParseLeaderMessage(s.leaderMessage) == Some((s.leadTeam, s.voteDiff))
  {
    var s := Leader(tabs, spaces);
    if tabs != spaces {
      WinningMessageRoundTrip(s.leadTeam, s.voteDiff);
    }
  }
}
