/** `computeStandings`: who owns which team, how each game credits a team and its owner,
    the cumulative weekly series, and the ranked table. The per-week game lists are a
    parameter (None stands for a week whose fetch produced `undefined`). */
module Standings {
  import opened Wrappers
  import opened Text
  import opened Games
  import Ranking

  /** A league member and the team codes they picked. */
  datatype Player = Player(id: string, name: string, teams: seq<string>)

  function PlayerIds(players: seq<Player>): set<string> {
    set p | p in players :: p.id
  }

  predicate DistinctIds(players: seq<Player>) {
    forall i, j :: 0 <= i < j < |players| ==> players[i].id != players[j].id
  }

  /** `teamToPlayer`: upper-case team code to player id. */
  type Owners = map<string, string>

  /** Some entry of `teams` has `code` as its upper-case form. */
  predicate Lists(teams: seq<string>, code: string) {
    exists j :: 0 <= j < |teams| && Upper(teams[j]) == code
  }

  /** One player's `p.teams.forEach(t => teamToPlayer.set(t.toUpperCase(), p.id))`. */
  function ClaimTeams(owners: Owners, teams: seq<string>, pid: string): (r: Owners)
    ensures forall c :: c in r <==> c in owners || Lists(teams, c)
    ensures forall c | c in r :: r[c] == (if Lists(teams, c) then pid else owners[c])
  {
    if teams == [] then owners
    else
      var init := teams[..|teams| - 1];
      assert forall c :: Lists(teams, c) <==> Lists(init, c) || Upper(teams[|teams| - 1]) == c by {
        forall c | Lists(teams, c) ensures Lists(init, c) || Upper(teams[|teams| - 1]) == c {
          var j :| 0 <= j < |teams| && Upper(teams[j]) == c;
          if j < |teams| - 1 {
            assert init[j] == teams[j];
          }
        }
        forall c | Lists(init, c) ensures Lists(teams, c) {
          var j :| 0 <= j < |init| && Upper(init[j]) == c;
          assert teams[j] == init[j];
        }
      }
      ClaimTeams(owners, init, pid)[Upper(teams[|teams| - 1]) := pid]
  }

  /** Reference: the id of the last player, in league order, who listed `code`. */
  function LastClaimant(players: seq<Player>, code: string): Option<string> {
    if players == [] then None
    else if Lists(players[|players| - 1].teams, code) then Some(players[|players| - 1].id)
    else LastClaimant(players[..|players| - 1], code)
  }

  /** The `teamToPlayer` map built over the whole league, players in order. */
  function TeamOwners(players: seq<Player>): (r: Owners)
    ensures forall c :: c in r <==> LastClaimant(players, c).Some?
    ensures forall c | c in r :: r[c] == LastClaimant(players, c).value
    ensures forall c | c in r :: r[c] in PlayerIds(players)
  {
    if players == [] then map[]
    else
      var init := players[..|players| - 1];
      var r := ClaimTeams(TeamOwners(init), players[|players| - 1].teams, players[|players| - 1].id);
      assert forall c | c in r :: r[c] in PlayerIds(players) by {
        forall c | c in r ensures r[c] in PlayerIds(players) {
          if !Lists(players[|players| - 1].teams, c) {
            var i :| 0 <= i < |init| && init[i].id == r[c];
            assert players[i] == init[i];
          }
        }
      }
      r
  }

  /** Last claim wins: a team listed by several players belongs to the last of them. */
  lemma {:induction false} LastClaimWins(players: seq<Player>, i: int, code: string)
    requires 0 <= i < |players| && Lists(players[i].teams, code)
    requires forall j :: i < j < |players| ==> !Lists(players[j].teams, code)
    ensures code in TeamOwners(players) && TeamOwners(players)[code] == players[i].id
  {
    if i < |players| - 1 {
      var init := players[..|players| - 1];
      assert init[i] == players[i];
      forall j | i < j < |init| ensures !Lists(init[j].teams, code) {
        assert init[j] == players[j];
      }
      LastClaimWins(init, i, code);
    }
  }

  /** The team a game credits: its `winner` when truthy, otherwise the side with the
      higher finite score; a falsy result credits nobody. */
  function WinningTeam(g: Game): (r: Option<string>)
    ensures r.Some? ==> r.value != []
    ensures IsTruthy(g.winner) ==> r == g.winner
    ensures !IsTruthy(g.winner) && r.Some? ==>
              && g.homeScore.IsFinite() && g.awayScore.IsFinite() && g.homeScore.n != g.awayScore.n
              && r.value == (if g.homeScore.n > g.awayScore.n then g.home else g.away)
    ensures !IsTruthy(g.winner) && !(g.homeScore.IsFinite() && g.awayScore.IsFinite() && g.homeScore.n != g.awayScore.n) ==>
              r.None?
    ensures !IsTruthy(g.winner) && g.homeScore.IsFinite() && g.awayScore.IsFinite() && g.homeScore.n != g.awayScore.n ==>
              var leader := if g.homeScore.n > g.awayScore.n then g.home else g.away;
              r == (if leader != [] then Some(leader) else None)
  {
    var team :=
      if IsTruthy(g.winner) then g.winner
      else if g.homeScore.IsFinite() && g.awayScore.IsFinite() && g.homeScore.n != g.awayScore.n then
        Some(if g.homeScore.n > g.awayScore.n then g.home else g.away)
      else None;
    if IsTruthy(team) then team else None
  }

  /** The upper-case code under which a game's win is counted. */
  function WinnerCode(g: Game): Option<string> {
    match WinningTeam(g)
    case Some(w) => Some(Upper(w))
    case None => None
  }

  /** The player a game credits: the owner of the winning code, when there is one and
      the id is truthy. */
  function CreditedTo(g: Game, owners: Owners): Option<string> {
    match WinnerCode(g)
    case Some(code) => if code in owners && owners[code] != [] then Some(owners[code]) else None
    case None => None
  }

  /** The three maps of the loop: `winsByPlayer`, `winsByTeam` and `weeklySeries`. */
  datatype Tally = Tally(byPlayer: map<string, int>, byTeam: map<string, int>, series: map<string, seq<int>>)

  /** `winsByTeam.get(code) || 0`. */
  function TeamWins(t: Tally, code: string): int {
    if code in t.byTeam then t.byTeam[code] else 0
  }

  /** Every owner id has a counter. */
  predicate Covers(t: Tally, owners: Owners) {
    forall c | c in owners :: owners[c] in t.byPlayer
  }

  /** The body of the per-game loop. */
  function Credit(t: Tally, owners: Owners, g: Game): (r: Tally)
    requires Covers(t, owners)
    ensures r.byPlayer.Keys == t.byPlayer.Keys && r.series == t.series
    ensures forall pid | pid in t.byPlayer :: t.byPlayer[pid] <= r.byPlayer[pid] <= t.byPlayer[pid] + 1
    ensures forall p, q | p in t.byPlayer && q in t.byPlayer
              && r.byPlayer[p] != t.byPlayer[p] && r.byPlayer[q] != t.byPlayer[q] :: p == q
    ensures forall code | code != [] :: TeamWins(t, code) <= TeamWins(r, code)
    ensures WinningTeam(g).None? ==> r == t
  {
    match WinnerCode(g)
    case None => t
    case Some(code) =>
      var byPlayer :=
        match CreditedTo(g, owners)
        case Some(pid) => t.byPlayer[pid := t.byPlayer[pid] + 1]
        case None => t.byPlayer;
      t.(byPlayer := byPlayer, byTeam := t.byTeam[code := TeamWins(t, code) + 1])
  }

  /** Reference: the games of `games` whose win is counted under `code`. */
  function TeamCount(games: seq<Game>, code: string): nat {
    if games == [] then 0
    else TeamCount(games[..|games| - 1], code) + (if WinnerCode(games[|games| - 1]) == Some(code) then 1 else 0)
  }

  /** Reference: the games of `games` that credit player `pid`. */
  function PlayerCount(games: seq<Game>, owners: Owners, pid: string): nat {
    if games == [] then 0
    else PlayerCount(games[..|games| - 1], owners, pid) + (if CreditedTo(games[|games| - 1], owners) == Some(pid) then 1 else 0)
  }

  /** One game adds one to the counters its win is counted under, and nothing else. */
  lemma CreditCounts(t: Tally, owners: Owners, g: Game, code: string, pid: string)
    requires Covers(t, owners)
    ensures TeamWins(Credit(t, owners, g), code) == TeamWins(t, code) + (if WinnerCode(g) == Some(code) then 1 else 0)
    ensures pid in t.byPlayer ==>
              Credit(t, owners, g).byPlayer[pid] == t.byPlayer[pid] + (if CreditedTo(g, owners) == Some(pid) then 1 else 0)
  {
  }

  /** The games of one week, credited in order. */
  function FoldWeek(t: Tally, owners: Owners, games: seq<Game>): (r: Tally)
    requires Covers(t, owners)
    ensures r.byPlayer.Keys == t.byPlayer.Keys && r.series == t.series
  {
    if games == [] then t
    else Credit(FoldWeek(t, owners, games[..|games| - 1]), owners, games[|games| - 1])
  }

  /** A week adds to each counter exactly the games of the week counted under it. */
  lemma {:induction false} FoldWeekCounts(t: Tally, owners: Owners, games: seq<Game>, code: string, pid: string)
    requires Covers(t, owners)
    ensures TeamWins(FoldWeek(t, owners, games), code) == TeamWins(t, code) + TeamCount(games, code)
    ensures pid in t.byPlayer ==>
              FoldWeek(t, owners, games).byPlayer[pid] == t.byPlayer[pid] + PlayerCount(games, owners, pid)
  {
    if games != [] {
      var init := games[..|games| - 1];
      FoldWeekCounts(t, owners, init, code, pid);
      CreditCounts(FoldWeek(t, owners, init), owners, games[|games| - 1], code, pid);
    }
  }

  /** `for (const p of players) weeklySeries.get(p.id).push(winsByPlayer.get(p.id))`. */
  function Snapshot(t: Tally, players: seq<Player>): (r: Tally)
    requires forall i :: 0 <= i < |players| ==> players[i].id in t.byPlayer && players[i].id in t.series
    ensures r.byPlayer == t.byPlayer && r.byTeam == t.byTeam && r.series.Keys == t.series.Keys
    ensures forall id | id in t.series && id !in PlayerIds(players) :: r.series[id] == t.series[id]
    ensures DistinctIds(players) ==>
              forall i :: 0 <= i < |players| ==>
                r.series[players[i].id] == t.series[players[i].id] + [t.byPlayer[players[i].id]]
  {
    if players == [] then t
    else
      var init := players[..|players| - 1];
      var id := players[|players| - 1].id;
      var s := Snapshot(t, init);
      assert forall i :: 0 <= i < |init| ==> init[i] == players[i];
      assert DistinctIds(players) ==> DistinctIds(init) && id !in PlayerIds(init);
      s.(series := s.series[id := s.series[id] + [s.byPlayer[id]]])
  }

  /** The counters before the first week: zero wins and an empty series per player. */
  function Initial(players: seq<Player>): Tally {
    Tally(map id | id in PlayerIds(players) :: 0, map[], map id | id in PlayerIds(players) :: [])
  }

  /** The tally holds one counter and one series per player id. */
  predicate Tracks(t: Tally, players: seq<Player>) {
    t.byPlayer.Keys == PlayerIds(players) && t.series.Keys == PlayerIds(players)
  }

  /** The week loop: each week's games credited, then every player's total recorded.
      A missing week counts as an empty one. */
  function Run(players: seq<Player>, owners: Owners, weeks: seq<Option<seq<Game>>>): (r: Tally)
    requires forall c | c in owners :: owners[c] in PlayerIds(players)
    ensures Tracks(r, players)
  {
    if weeks == [] then Initial(players)
    else
      var t := FoldWeek(Run(players, owners, weeks[..|weeks| - 1]), owners, weeks[|weeks| - 1].GetOr([]));
      assert forall i :: 0 <= i < |players| ==> players[i].id in PlayerIds(players);
      Snapshot(t, players)
  }

  /** All games of the season, week after week. */
  function SeasonGames(weeks: seq<Option<seq<Game>>>): seq<Game> {
    if weeks == [] then []
    else SeasonGames(weeks[..|weeks| - 1]) + weeks[|weeks| - 1].GetOr([])
  }

  lemma {:induction false} CountsAppend(a: seq<Game>, b: seq<Game>, owners: Owners, code: string, pid: string)
    ensures TeamCount(a + b, code) == TeamCount(a, code) + TeamCount(b, code)
    ensures PlayerCount(a + b, owners, pid) == PlayerCount(a, owners, pid) + PlayerCount(b, owners, pid)
  {
    if b == [] {
      assert a + b == a;
    } else {
      assert (a + b)[..|a + b| - 1] == a + b[..|b| - 1];
      CountsAppend(a, b[..|b| - 1], owners, code, pid);
    }
  }

  /** One week of the loop: the counters after crediting the week's games, and every
      series extended by its player's new total. */
  lemma RunStep(players: seq<Player>, owners: Owners, weeks: seq<Option<seq<Game>>>)
    requires forall c | c in owners :: owners[c] in PlayerIds(players)
    requires weeks != []
    ensures var t0 := Run(players, owners, weeks[..|weeks| - 1]);
            var t1 := FoldWeek(t0, owners, weeks[|weeks| - 1].GetOr([]));
            var r := Run(players, owners, weeks);
            r.byPlayer == t1.byPlayer && r.byTeam == t1.byTeam
  {
  }

  /** One week of the loop extends every series by its player's new total. */
  lemma RunStepSeries(players: seq<Player>, owners: Owners, weeks: seq<Option<seq<Game>>>, i: int)
    requires forall c | c in owners :: owners[c] in PlayerIds(players)
    requires weeks != [] && DistinctIds(players) && 0 <= i < |players|
    ensures var t0 := Run(players, owners, weeks[..|weeks| - 1]);
            var r := Run(players, owners, weeks);
            r.series[players[i].id] == t0.series[players[i].id] + [r.byPlayer[players[i].id]]
  {
  }

  /** After the week loop every counter holds the season's count under its key. */
  lemma {:induction false} RunCounts(players: seq<Player>, owners: Owners, weeks: seq<Option<seq<Game>>>, code: string, pid: string)
    requires forall c | c in owners :: owners[c] in PlayerIds(players)
    ensures TeamWins(Run(players, owners, weeks), code) == TeamCount(SeasonGames(weeks), code)
    ensures pid in PlayerIds(players) ==>
              Run(players, owners, weeks).byPlayer[pid] == PlayerCount(SeasonGames(weeks), owners, pid)
  {
    RunTeamCounts(players, owners, weeks, code);
    if pid in PlayerIds(players) {
      RunPlayerCounts(players, owners, weeks, pid);
    }
  }

  lemma {:induction false} RunTeamCounts(players: seq<Player>, owners: Owners, weeks: seq<Option<seq<Game>>>, code: string)
    requires forall c | c in owners :: owners[c] in PlayerIds(players)
    ensures TeamWins(Run(players, owners, weeks), code) == TeamCount(SeasonGames(weeks), code)
  {
    if weeks != [] {
      var init := weeks[..|weeks| - 1];
      var games := weeks[|weeks| - 1].GetOr([]);
      var t0 := Run(players, owners, init);
      assert TeamWins(Run(players, owners, weeks), code) == TeamWins(FoldWeek(t0, owners, games), code) by {
        RunStep(players, owners, weeks);
      }
      assert TeamWins(FoldWeek(t0, owners, games), code) == TeamWins(t0, code) + TeamCount(games, code) by {
        FoldWeekCounts(t0, owners, games, code, "");
      }
      RunTeamCounts(players, owners, init, code);
      CountsAppend(SeasonGames(init), games, owners, code, "");
    }
  }

  lemma {:induction false} RunPlayerCounts(players: seq<Player>, owners: Owners, weeks: seq<Option<seq<Game>>>, pid: string)
    requires forall c | c in owners :: owners[c] in PlayerIds(players)
    requires pid in PlayerIds(players)
    ensures Run(players, owners, weeks).byPlayer[pid] == PlayerCount(SeasonGames(weeks), owners, pid)
  {
    if weeks != [] {
      var init := weeks[..|weeks| - 1];
      var games := weeks[|weeks| - 1].GetOr([]);
      var t0 := Run(players, owners, init);
      RunStep(players, owners, weeks);
      RunPlayerCounts(players, owners, init, pid);
      FoldWeekCounts(t0, owners, games, "", pid);
      CountsAppend(SeasonGames(init), games, owners, "", pid);
    }
  }

  /** Reference: the wins credited to `pid` over the first `n` weeks. */
  function WinsThrough(weeks: seq<Option<seq<Game>>>, owners: Owners, pid: string, n: nat): nat
    requires n <= |weeks|
  {
    PlayerCount(SeasonGames(weeks[..n]), owners, pid)
  }

  lemma WinsThroughPrefix(weeks: seq<Option<seq<Game>>>, owners: Owners, pid: string, n: nat)
    requires n < |weeks|
    ensures WinsThrough(weeks[..|weeks| - 1], owners, pid, n) == WinsThrough(weeks, owners, pid, n)
  {
    assert weeks[..|weeks| - 1][..n] == weeks[..n];
  }

  lemma WinsThroughAll(weeks: seq<Option<seq<Game>>>, owners: Owners, pid: string)
    ensures WinsThrough(weeks, owners, pid, |weeks|) == PlayerCount(SeasonGames(weeks), owners, pid)
  {
    assert weeks[..|weeks|] == weeks;
  }

  /** Reference: the running totals of `pid`, one per week. */
  function SeriesOf(weeks: seq<Option<seq<Game>>>, owners: Owners, pid: string): seq<int> {
    seq(|weeks|, k requires 0 <= k < |weeks| => WinsThrough(weeks, owners, pid, k + 1))
  }

  /** With distinct ids, a player's series has one entry per week, and entry k is the
      player's total over weeks 1 to k + 1. */
  lemma {:induction false} SeriesIsCumulative(players: seq<Player>, owners: Owners, weeks: seq<Option<seq<Game>>>, i: int)
    requires forall c | c in owners :: owners[c] in PlayerIds(players)
    requires DistinctIds(players) && 0 <= i < |players|
    ensures players[i].id in Run(players, owners, weeks).series
    ensures Run(players, owners, weeks).series[players[i].id] == SeriesOf(weeks, owners, players[i].id)
  {
    var id := players[i].id;
    assert id in PlayerIds(players);
    if weeks == [] {
      assert SeriesOf(weeks, owners, id) == [];
    } else {
      var init := weeks[..|weeks| - 1];
      SeriesIsCumulative(players, owners, init, i);
      RunStepSeries(players, owners, weeks, i);
      RunPlayerCounts(players, owners, weeks, id);
      var s0 := Run(players, owners, init).series[id];
      var s := Run(players, owners, weeks).series[id];
      CumulativeStep(s0, s, Run(players, owners, weeks).byPlayer[id], weeks, owners, id);
    }
  }

  /** Extending the running totals by the season total gives the running totals of the
      longer season. */
  lemma CumulativeStep(s0: seq<int>, s: seq<int>, total: int, weeks: seq<Option<seq<Game>>>, owners: Owners, id: string)
    requires weeks != [] && s == s0 + [total]
    requires s0 == SeriesOf(weeks[..|weeks| - 1], owners, id)
    requires total == PlayerCount(SeasonGames(weeks), owners, id)
    ensures s == SeriesOf(weeks, owners, id)
  {
    var ref := SeriesOf(weeks, owners, id);
    WinsThroughAll(weeks, owners, id);
    forall k | 0 <= k < |s0| ensures s[k] == ref[k] {
      WinsThroughPrefix(weeks, owners, id, k + 1);
    }
    assert s[|s0|] == ref[|s0|];
  }

  /** A player's series never decreases. */
  lemma SeriesNeverDecreases(players: seq<Player>, owners: Owners, weeks: seq<Option<seq<Game>>>, i: int, k: int)
    requires forall c | c in owners :: owners[c] in PlayerIds(players)
    requires DistinctIds(players) && 0 <= i < |players| && 0 <= k < |weeks| - 1
    ensures var s := Run(players, owners, weeks).series[players[i].id];
            |s| == |weeks| && s[k] <= s[k + 1]
  {
    SeriesIsCumulative(players, owners, weeks, i);
    WinsThroughGrows(weeks, owners, players[i].id, k + 1);
  }

  /** The number of roster entries carrying `id`. */
  function Occurrences(players: seq<Player>, id: string): nat {
    if players == [] then 0
    else Occurrences(players[..|players| - 1], id) + (if players[|players| - 1].id == id then 1 else 0)
  }

  /** `n` copies of `x`. */
  function Repeat(x: int, n: nat): (r: seq<int>)
    ensures |r| == n && forall k :: 0 <= k < n ==> r[k] == x
  {
    if n == 0 then [] else Repeat(x, n - 1) + [x]
  }

  /** The snapshot pushes a player's total once per roster entry with their id, so two
      players sharing an id both push onto the one shared series. */
  lemma {:induction false} SnapshotRepeats(t: Tally, players: seq<Player>, id: string)
    requires forall i :: 0 <= i < |players| ==> players[i].id in t.byPlayer && players[i].id in t.series
    requires id in t.series && id in t.byPlayer
    ensures Snapshot(t, players).series[id] == t.series[id] + Repeat(t.byPlayer[id], Occurrences(players, id))
  {
    if players == [] {
      assert t.series[id] + [] == t.series[id];
    } else {
      var init := players[..|players| - 1];
      assert forall i :: 0 <= i < |init| ==> init[i] == players[i];
      SnapshotRepeats(t, init, id);
      var n := Occurrences(init, id);
      if players[|players| - 1].id == id {
        AppendAssoc(t.series[id], Repeat(t.byPlayer[id], n), [t.byPlayer[id]]);
      }
    }
  }

  /** Ordered, and bounded by `top`. */
  predicate RisesTo(s: seq<int>, top: int) {
    (forall a, b :: 0 <= a <= b < |s| ==> s[a] <= s[b]) && forall a :: 0 <= a < |s| ==> s[a] <= top
  }

  lemma RisesToAppendRepeat(s: seq<int>, top: int, x: int, n: nat)
    requires RisesTo(s, top) && top <= x
    ensures RisesTo(s + Repeat(x, n), x)
  {
  }

  /** Whatever the ids, every series in the tally is ordered and never exceeds its
      player's current total. */
  lemma {:induction false} SeriesRises(players: seq<Player>, owners: Owners, weeks: seq<Option<seq<Game>>>, id: string)
    requires forall c | c in owners :: owners[c] in PlayerIds(players)
    requires id in PlayerIds(players)
    ensures var t := Run(players, owners, weeks);
            RisesTo(t.series[id], t.byPlayer[id])
  {
    if weeks != [] {
      var init := weeks[..|weeks| - 1];
      var t0 := Run(players, owners, init);
      var t1 := FoldWeek(t0, owners, weeks[|weeks| - 1].GetOr([]));
      SeriesRises(players, owners, init, id);
      FoldWeekCounts(t0, owners, weeks[|weeks| - 1].GetOr([]), "", id);
      assert forall i :: 0 <= i < |players| ==> players[i].id in PlayerIds(players);
      SnapshotRepeats(t1, players, id);
      RisesToAppendRepeat(t0.series[id], t0.byPlayer[id], t1.byPlayer[id], Occurrences(players, id));
    }
  }

  /** Adding a week never lowers the total so far. */
  lemma WinsThroughGrows(weeks: seq<Option<seq<Game>>>, owners: Owners, pid: string, n: nat)
    requires n < |weeks|
    ensures WinsThrough(weeks, owners, pid, n) <= WinsThrough(weeks, owners, pid, n + 1)
  {
    assert weeks[..n + 1][..n] == weeks[..n];
    CountsAppend(SeasonGames(weeks[..n]), weeks[n].GetOr([]), owners, "", pid);
  }

  /** One row of the standings table. */
  datatype TeamEntry = TeamEntry(code: string, wins: int)

  datatype Entry = Entry(id: string, name: string, wins: int, series: seq<int>, teams: seq<TeamEntry>)

  function EntryOf(p: Player, t: Tally): Entry
    requires p.id in t.byPlayer && p.id in t.series
  {
    Entry(p.id, p.name, t.byPlayer[p.id], t.series[p.id],
          seq(|p.teams|, j requires 0 <= j < |p.teams| => TeamEntry(p.teams[j], TeamWins(t, Upper(p.teams[j])))))
  }

  /** The rows in league order, before sorting. */
  function Unranked(players: seq<Player>, t: Tally): seq<Entry>
    requires Tracks(t, players)
  {
    seq(|players|, i requires 0 <= i < |players| => assert players[i].id in PlayerIds(players); EntryOf(players[i], t))
  }

  function WinsOf(e: Entry): int {
    e.wins
  }

  /** `computeStandings(upToWeek)` once the weeks' games are known. */
  function ComputeStandings(players: seq<Player>, weeks: seq<Option<seq<Game>>>): (r: seq<Entry>)
    ensures |r| == |players|
    ensures Ranking.SortedDesc(r, WinsOf)
  {
    var owners := TeamOwners(players);
    Ranking.SortDesc(Unranked(players, Run(players, owners, weeks)), WinsOf)
  }

  /** Reference: each listed team with the season's count of its wins. */
  function TeamEntries(teams: seq<string>, games: seq<Game>): seq<TeamEntry> {
    seq(|teams|, j requires 0 <= j < |teams| => TeamEntry(teams[j], TeamCount(games, Upper(teams[j]))))
  }

  /** Reference: a player's row computed from the season's games directly. */
  function ReferenceRow(p: Player, weeks: seq<Option<seq<Game>>>, owners: Owners): Entry {
    Entry(p.id, p.name, PlayerCount(SeasonGames(weeks), owners, p.id),
          SeriesOf(weeks, owners, p.id), TeamEntries(p.teams, SeasonGames(weeks)))
  }

  function ReferenceRows(players: seq<Player>, weeks: seq<Option<seq<Game>>>): seq<Entry> {
    seq(|players|, i requires 0 <= i < |players| => ReferenceRow(players[i], weeks, TeamOwners(players)))
  }

  /** With distinct ids, a player's row from the loop is the reference row. */
  lemma RowIsReference(players: seq<Player>, weeks: seq<Option<seq<Game>>>, i: int)
    requires DistinctIds(players) && 0 <= i < |players|
    ensures var t := Run(players, TeamOwners(players), weeks);
            players[i].id in t.byPlayer && players[i].id in t.series
            && EntryOf(players[i], t) == ReferenceRow(players[i], weeks, TeamOwners(players))
  {
    var owners := TeamOwners(players);
    var p := players[i];
    assert p.id in PlayerIds(players);
    RunPlayerCounts(players, owners, weeks, p.id);
    SeriesIsCumulative(players, owners, weeks, i);
    TeamsColumnIsReference(players, owners, weeks, p);
  }

  /** The teams column of a row shows each team's season count. */
  lemma TeamsColumnIsReference(players: seq<Player>, owners: Owners, weeks: seq<Option<seq<Game>>>, p: Player)
    requires forall c | c in owners :: owners[c] in PlayerIds(players)
    requires p.id in Run(players, owners, weeks).byPlayer && p.id in Run(players, owners, weeks).series
    ensures EntryOf(p, Run(players, owners, weeks)).teams == TeamEntries(p.teams, SeasonGames(weeks))
  {
    var row := EntryOf(p, Run(players, owners, weeks)).teams;
    var ref := TeamEntries(p.teams, SeasonGames(weeks));
    forall j | 0 <= j < |p.teams| ensures row[j] == ref[j] {
      RunCounts(players, owners, weeks, Upper(p.teams[j]), p.id);
    }
  }

  /** With distinct ids, the loop produces exactly the reference rows. */
  lemma UnrankedIsReference(players: seq<Player>, weeks: seq<Option<seq<Game>>>)
    requires DistinctIds(players)
    ensures Unranked(players, Run(players, TeamOwners(players), weeks)) == ReferenceRows(players, weeks)
  {
    var rows := Unranked(players, Run(players, TeamOwners(players), weeks));
    var refs := ReferenceRows(players, weeks);
    forall i | 0 <= i < |players| ensures rows[i] == refs[i] {
      RowIsReference(players, weeks, i);
    }
  }

  /** The table: ordered by wins, made of the reference rows, and players with equal
      wins keep their league order. */
  lemma StandingsAreRankedReferenceRows(players: seq<Player>, weeks: seq<Option<seq<Game>>>, wins: int)
    requires DistinctIds(players)
    ensures var r := ComputeStandings(players, weeks);
            && Ranking.SortedDesc(r, WinsOf)
            && multiset(r) == multiset(ReferenceRows(players, weeks))
            && Ranking.WithKey(r, WinsOf, wins) == Ranking.WithKey(ReferenceRows(players, weeks), WinsOf, wins)
  {
    var rows := Unranked(players, Run(players, TeamOwners(players), weeks));
    UnrankedIsReference(players, weeks);
    Ranking.SortDescPermutes(rows, WinsOf);
    Ranking.SortDescIsStable(rows, WinsOf, wins);
  }

  /** A week whose fetch produced nothing counts as a week without games: it credits
      nothing but still extends every series. */
  lemma AbsentWeekIsEmptyWeek(players: seq<Player>, owners: Owners, weeks: seq<Option<seq<Game>>>)
    requires forall c | c in owners :: owners[c] in PlayerIds(players)
    ensures Run(players, owners, weeks + [None]) == Run(players, owners, weeks + [Some([])])
  {
    assert (weeks + [None])[..|weeks|] == weeks;
    assert (weeks + [Some([])])[..|weeks|] == weeks;
  }

  /** No code is listed by two different players. */
  ghost predicate NoSharedTeams(players: seq<Player>) {
    forall i, j, c :: 0 <= i < j < |players| && Lists(players[i].teams, c) ==> !Lists(players[j].teams, c)
  }

  /** No two of a player's teams share an upper-case code. */
  predicate DistinctCodes(teams: seq<string>) {
    forall i, j :: 0 <= i < j < |teams| ==> Upper(teams[i]) != Upper(teams[j])
  }

  /** The owner of a code is a player who listed it. */
  lemma {:induction false} LastClaimantListed(players: seq<Player>, code: string)
    ensures LastClaimant(players, code).Some? ==>
              exists k :: 0 <= k < |players| && Lists(players[k].teams, code) && players[k].id == LastClaimant(players, code).value
  {
    if players != [] && !Lists(players[|players| - 1].teams, code) {
      var init := players[..|players| - 1];
      LastClaimantListed(init, code);
      if LastClaimant(init, code).Some? {
        var k :| 0 <= k < |init| && Lists(init[k].teams, code) && init[k].id == LastClaimant(init, code).value;
        assert players[k] == init[k];
      }
    }
  }

  /** With exclusive claims and distinct ids, a game credits a player exactly when its
      winning code is one of the player's teams. */
  lemma CreditedToOwner(players: seq<Player>, i: int, g: Game)
    requires DistinctIds(players) && NoSharedTeams(players)
    requires 0 <= i < |players| && players[i].id != []
    ensures CreditedTo(g, TeamOwners(players)) == Some(players[i].id)
            <==> WinnerCode(g).Some? && Lists(players[i].teams, WinnerCode(g).value)
  {
    if WinnerCode(g).Some? {
      var c := WinnerCode(g).value;
      if Lists(players[i].teams, c) {
        ListedCodeIsOwned(players, i, c);
      } else {
        UnlistedCodeIsNotOwned(players, i, c);
      }
    }
  }

  /** With exclusive claims, a code a player lists belongs to that player. */
  lemma ListedCodeIsOwned(players: seq<Player>, i: int, c: string)
    requires NoSharedTeams(players)
    requires 0 <= i < |players| && Lists(players[i].teams, c)
    ensures c in TeamOwners(players) && TeamOwners(players)[c] == players[i].id
  {
    forall j | i < j < |players| ensures !Lists(players[j].teams, c) {
    }
    LastClaimWins(players, i, c);
  }

  /** With distinct ids, a code a player does not list belongs to someone else, if anyone. */
  lemma UnlistedCodeIsNotOwned(players: seq<Player>, i: int, c: string)
    requires DistinctIds(players)
    requires 0 <= i < |players| && !Lists(players[i].teams, c)
    ensures c in TeamOwners(players) ==> TeamOwners(players)[c] != players[i].id
  {
    var owners := TeamOwners(players);
    if c in owners {
      LastClaimantListed(players, c);
      var k :| 0 <= k < |players| && Lists(players[k].teams, c) && players[k].id == owners[c];
      assert k != i;
    }
  }

  /** How many of `teams` a game's winning code matches. */
  function GameHits(g: Game, teams: seq<string>): nat {
    if teams == [] then 0
    else GameHits(g, teams[..|teams| - 1]) + (if WinnerCode(g) == Some(Upper(teams[|teams| - 1])) then 1 else 0)
  }

  lemma {:induction false} GameHitsOfDistinct(g: Game, teams: seq<string>)
    requires DistinctCodes(teams)
    ensures GameHits(g, teams) == (if WinnerCode(g).Some? && Lists(teams, WinnerCode(g).value) then 1 else 0)
  {
    if teams != [] {
      var init := teams[..|teams| - 1];
      var last := teams[|teams| - 1];
      assert DistinctCodes(init);
      GameHitsOfDistinct(g, init);
      if WinnerCode(g).Some? {
        var c := WinnerCode(g).value;
        if Lists(init, c) {
          var j :| 0 <= j < |init| && Upper(init[j]) == c;
          assert teams[j] == init[j];
        }
        if Lists(teams, c) && Upper(last) != c {
          var j :| 0 <= j < |teams| && Upper(teams[j]) == c;
          assert init[j] == teams[j];
        }
        if Upper(last) == c {
          assert Lists(teams, c) by {
            assert Upper(teams[|teams| - 1]) == c;
          }
        }
      }
    }
  }

  /** The season wins of `teams`, added up. */
  function TeamsTotal(games: seq<Game>, teams: seq<string>): nat {
    if teams == [] then 0 else TeamsTotal(games, teams[..|teams| - 1]) + TeamCount(games, Upper(teams[|teams| - 1]))
  }

  lemma {:induction false} TeamsTotalStep(games: seq<Game>, teams: seq<string>)
    requires games != []
    ensures TeamsTotal(games, teams) == TeamsTotal(games[..|games| - 1], teams) + GameHits(games[|games| - 1], teams)
  {
    if teams != [] {
      TeamsTotalStep(games, teams[..|teams| - 1]);
    }
  }

  /** With exclusive claims, a player's count is the sum of their teams' counts. */
  lemma {:induction false} PlayerCountIsTeamsTotal(players: seq<Player>, i: int, games: seq<Game>)
    requires DistinctIds(players) && NoSharedTeams(players)
    requires 0 <= i < |players| && players[i].id != [] && DistinctCodes(players[i].teams)
    ensures PlayerCount(games, TeamOwners(players), players[i].id) == TeamsTotal(games, players[i].teams)
  {
    if games == [] {
      assert TeamsTotal(games, players[i].teams) == 0 by {
        TeamsTotalOfNoGames(players[i].teams);
      }
    } else {
      var g := games[|games| - 1];
      PlayerCountIsTeamsTotal(players, i, games[..|games| - 1]);
      TeamsTotalStep(games, players[i].teams);
      GameHitsOfDistinct(g, players[i].teams);
      CreditedToOwner(players, i, g);
    }
  }

  lemma {:induction false} TeamsTotalOfNoGames(teams: seq<string>)
    ensures TeamsTotal([], teams) == 0
  {
    if teams != [] {
      TeamsTotalOfNoGames(teams[..|teams| - 1]);
    }
  }

  /** The wins column of a list of team entries, added up. */
  function SumWins(entries: seq<TeamEntry>): int {
    if entries == [] then 0 else SumWins(entries[..|entries| - 1]) + entries[|entries| - 1].wins
  }

  lemma {:induction false} SumOfTeamEntries(teams: seq<string>, games: seq<Game>)
    ensures SumWins(TeamEntries(teams, games)) == TeamsTotal(games, teams)
  {
    if teams != [] {
      var init := teams[..|teams| - 1];
      SumOfTeamEntries(init, games);
      assert TeamEntries(teams, games)[..|teams| - 1] == TeamEntries(init, games);
    }
  }

  /** When no team is claimed by two players and a player lists each team once, the
      player's wins are the sum of the wins shown for their teams. */
  lemma PlayerWinsAreTeamWinsSum(players: seq<Player>, weeks: seq<Option<seq<Game>>>, i: int)
    requires DistinctIds(players) && NoSharedTeams(players)
    requires 0 <= i < |players| && players[i].id != [] && DistinctCodes(players[i].teams)
    ensures var t := Run(players, TeamOwners(players), weeks);
            players[i].id in t.byPlayer && players[i].id in t.series
            && EntryOf(players[i], t).wins == SumWins(EntryOf(players[i], t).teams)
  {
    RowIsReference(players, weeks, i);
    PlayerCountIsTeamsTotal(players, i, SeasonGames(weeks));
    SumOfTeamEntries(players[i].teams, SeasonGames(weeks));
  }
}
