/** How the pieces meet: the records the serverless function produces, as the
    standings engine credits them and as the live tracker finds them, and the records
    the browser builds itself from raw ESPN events. */
module Pipeline {
  import opened Wrappers
  import opened Text
  import opened Games
  import opened Scoreboard
  import opened Standings
  import opened Live
  import opened ScoreCache

  /** A final, decided record is credited to the winner `normalize` named. */
  lemma FinalWinnerIsCredited(home: Option<string>, away: Option<string>, homeScore: int, awayScore: int,
                              status: Option<string>, quarter: Scalar, clock: Scalar, id: Scalar)
    requires IsTruthy(home) && IsTruthy(away)
    requires IsFinal(status) && homeScore != awayScore
    ensures var g := Normalize(home, away, homeScore, awayScore, status, quarter, clock, id).value;
            && g.winner.Some?
            && WinnerCode(g) == g.winner
            && WinnerCode(g) == Some(Upper(if homeScore > awayScore then home.value else away.value))
  {
    UpperIdempotent(home.value);
    UpperIdempotent(away.value);
  }

  /** A record that is not final but has unequal scores carries no winner, and the
      standings credit the side that leads on score. */
  lemma LeaderIsCreditedBeforeFinal(home: Option<string>, away: Option<string>, homeScore: int, awayScore: int,
                                    status: Option<string>, quarter: Scalar, clock: Scalar, id: Scalar)
    requires IsTruthy(home) && IsTruthy(away)
    requires !IsFinal(status) && homeScore != awayScore
    ensures var g := Normalize(home, away, homeScore, awayScore, status, quarter, clock, id).value;
            && g.winner.None?
            && WinnerCode(g) == Some(Upper(if homeScore > awayScore then home.value else away.value))
  {
    UpperIdempotent(home.value);
    UpperIdempotent(away.value);
  }

  /** Records built from ESPN events never name a winner, so every ESPN game with unequal
      scores, finished or still being played, is credited to the side ahead. */
  lemma EspnGamesAreCreditedByScore(e: EspnEvent)
    requires e.state.Some? && e.state.value in {"pre", "in", "post"}
    requires NormalizeEvent(e).Some? && e.homeScore != e.awayScore
    ensures var g := NormalizeEvent(e).value;
            g.winner.None? && WinnerCode(g) == Some(Upper(if e.homeScore > e.awayScore then e.home.value else e.away.value))
  {
    EspnStatesNeverFinal(e.state.value);
    LeaderIsCreditedBeforeFinal(e.home, e.away, e.homeScore, e.awayScore, e.state, e.period, e.clock, e.id);
  }

  /** A record the function produced for a game not yet final is live for both teams. */
  lemma UnfinishedRecordIsLive(home: Option<string>, away: Option<string>, homeScore: int, awayScore: int,
                               status: Option<string>, quarter: Scalar, clock: Scalar, id: Scalar)
    requires IsTruthy(home) && IsTruthy(away) && !IsFinal(status)
    ensures var g := Normalize(home, away, homeScore, awayScore, status, quarter, clock, id).value;
            Eligible(g, Upper(home.value)) && Eligible(g, Upper(away.value))
  {
  }

  /** Records the browser builds from raw ESPN events carry no scores: they are never
      live, and they credit exactly the team ESPN flagged as winner. */
  lemma RawRecordsCreditOnlyTheFlaggedWinner(e: RawEvent, code: string)
    ensures !Eligible(RawEventRecord(e), code)
    ensures WinningTeam(RawEventRecord(e)) == (if IsTruthy(e.flaggedWinner) then e.flaggedWinner else None)
  {
  }
}
