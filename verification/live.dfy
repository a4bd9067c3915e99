/** The live-score helpers: the one-minute snapshot of the current week's games, the
    lookup of a team's game in progress, and the clock label. The clock reading is a
    parameter; the background timer that refreshes the snapshot is not modelled. */
module Live {
  import opened Wrappers
  import opened Text
  import opened Games

  /** A snapshot older than one minute is ignored. */
  const MaxAgeMs: int := 60 * 1000

  /** `LIVE_CACHE`: when the games were fetched, and the games. */
  datatype LiveCache = LiveCache(stamp: int, games: seq<Game>)

  /** The value before the first refresh. */
  const Empty: LiveCache := LiveCache(0, [])

  /** The background refresh stores the games with the time they arrived. */
  function Refresh(games: seq<Game>, now: int): (r: LiveCache)
    ensures forall teamCode :: FindLiveGame(r, now, teamCode) == FirstEligible(games, Upper(teamCode))
  {
    LiveCache(now, games)
  }

  /** A game in progress for `code`: `code` plays in it, it has no winner yet, and its
      home score is not `undefined`. */
  predicate Eligible(g: Game, code: string) {
    (g.home == code || g.away == code) && !IsTruthy(g.winner) && !g.homeScore.Undefined?
  }

  /** The lookup does not care which side the team plays on: swapping home and away
      codes keeps a game eligible for the same teams. */
  lemma EligibleEitherSide(g: Game, code: string)
    ensures Eligible(g, code) <==> Eligible(g.(home := g.away, away := g.home), code)
  {
  }

  /** `games.find(...)`: the first eligible game. */
  function FirstEligible(games: seq<Game>, code: string): (r: Option<Game>)
    ensures r.None? <==> forall i :: 0 <= i < |games| ==> !Eligible(games[i], code)
    ensures r.Some? ==>
              exists i :: 0 <= i < |games| && games[i] == r.value && Eligible(r.value, code)
                          && forall j :: 0 <= j < i ==> !Eligible(games[j], code)
  {
    if games == [] then None
    else if Eligible(games[0], code) then Some(games[0])
    else
      assert forall i :: 1 <= i < |games| ==> games[i] == games[1..][i - 1];
      FirstEligible(games[1..], code)
  }

  /** `findLiveGameForTeam(teamCode)`: nothing when the snapshot is stale, otherwise the
      first game in progress for the upper-cased code. */
  function FindLiveGame(snapshot: LiveCache, now: int, teamCode: string): (r: Option<Game>)
    ensures now - snapshot.stamp > MaxAgeMs ==> r.None?
    ensures now - snapshot.stamp <= MaxAgeMs ==> r == FirstEligible(snapshot.games, Upper(teamCode))
  {
    if now - snapshot.stamp > MaxAgeMs then None
    else FirstEligible(snapshot.games, Upper(teamCode))
  }

  /** Within a minute of a refresh the lookup sees the refreshed games, and after that
      it sees nothing until the next refresh. */
  lemma RefreshIsSeenForOneMinute(games: seq<Game>, now: int, later: int, teamCode: string)
    requires now <= later
    ensures later - now <= MaxAgeMs ==>
              FindLiveGame(Refresh(games, now), later, teamCode) == FirstEligible(games, Upper(teamCode))
    ensures later - now > MaxAgeMs ==> FindLiveGame(Refresh(games, now), later, teamCode).None?
  {
  }

  /** Before the first refresh nothing is live. */
  lemma EmptySnapshotFindsNothing(now: int, teamCode: string)
    ensures FindLiveGame(Empty, now, teamCode).None?
  {
  }

  /** The decimal digits of a natural number, most significant first. */
  function NatText(n: nat): (r: string)
    ensures |r| >= 1
    ensures forall i :: 0 <= i < |r| ==> '0' <= r[i] <= '9'
    ensures |r| > 1 ==> r[0] != '0'
  {
    if n < 10 then [(48 + n) as char] else NatText(n / 10) + [(48 + n % 10) as char]
  }

  /** The value of a string of decimal digits. */
  function DigitsValue(s: string): nat
    requires forall i :: 0 <= i < |s| ==> '0' <= s[i] <= '9'
  {
    if s == [] then 0 else DigitsValue(s[..|s| - 1]) * 10 + (s[|s| - 1] as int - 48)
  }

  /** The digits read back as the number they were written from. */
  lemma {:induction false} NatTextRoundTrip(n: nat)
    ensures DigitsValue(NatText(n)) == n
  {
    if n >= 10 {
      NatTextRoundTrip(n / 10);
      var r := NatText(n);
      assert r[..|r| - 1] == NatText(n / 10);
    }
  }

  /** JavaScript's number-to-string conversion for integers. */
  function IntText(n: int): string {
    if n < 0 then "-" + NatText(-n) else NatText(n)
  }

  /** Template-literal conversion of a scalar. */
  function ScalarText(s: Scalar): string {
    match s
    case Undefined => "undefined"
    case Null => "null"
    case Num(n) => IntText(n)
    case Str(t) => t
  }

  /** `formatLiveClock(g)`: "(live)" without a game or quarter, otherwise
      "(Q<quarter> <clock>)" with an empty clock when it is falsy. */
  function FormatLiveClock(g: Option<Game>): (r: string)
    ensures r == "(live)" <==> g.None? || !g.value.quarter.Truthy()
    ensures g.Some? && g.value.quarter.Truthy() ==>
              StartsWith(r, "(Q" + ScalarText(g.value.quarter) + " ") && r[|r| - 1] == ')'
    ensures g.Some? && g.value.quarter.Truthy() && !g.value.clock.Truthy() ==>
              r == "(Q" + ScalarText(g.value.quarter) + " )"
    ensures g.Some? && g.value.quarter.Truthy() && g.value.clock.Truthy() ==>
              r == "(Q" + ScalarText(g.value.quarter) + " " + ScalarText(g.value.clock) + ")"
  {
    if g.None? || !g.value.quarter.Truthy() then "(live)"
    else
      var clock := if g.value.clock.Truthy() then ScalarText(g.value.clock) else "";
      var r := "(Q" + ScalarText(g.value.quarter) + " " + clock + ")";
      assert r[1] == 'Q';
      assert r[..|"(Q" + ScalarText(g.value.quarter) + " "|] == "(Q" + ScalarText(g.value.quarter) + " ";
      r
  }
}
