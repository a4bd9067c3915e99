/** The serverless scoreboard function (api/scoreboard.js): provider fallback, the
    ESPN URL fallback, game normalization and the HTTP status decision. Network answers
    are parameters; the `fetch` calls themselves are not modelled. */
module Scoreboard {
  import opened Wrappers
  import opened Text
  import opened Games

  /** `String(status)`: an undefined status prints as "undefined". */
  function StatusText(status: Option<string>): string {
    match status
    case None => "undefined"
    case Some(s) => s
  }

  /** The status signals a finished game: its lowercase text starts with "final". */
  predicate IsFinal(status: Option<string>) {
    StartsWith(Lower(StatusText(status)), "final")
  }

  /** `normalize(home, away, hs, as, status, quarter, clock, id)`: one uniform game
      record, or None when either team is missing. */
  function Normalize(home: Option<string>, away: Option<string>, homeScore: int, awayScore: int,
                     status: Option<string>, quarter: Scalar, clock: Scalar, id: Scalar): (r: Option<Game>)
    ensures r.None? <==> !IsTruthy(home) || !IsTruthy(away)
    ensures r.Some? ==> r.value.home == Upper(home.value) && r.value.away == Upper(away.value)
    ensures r.Some? ==> (r.value.winner.Some? <==> IsFinal(status) && homeScore != awayScore)
    ensures r.Some? && r.value.winner.Some? ==>
              (homeScore > awayScore ==> r.value.winner == Some(r.value.home))
              && (homeScore < awayScore ==> r.value.winner == Some(r.value.away))
    ensures r.Some? ==> r.value.homeScore == Num(homeScore) && r.value.awayScore == Num(awayScore)
    ensures r.Some? ==> r.value.status == (if IsTruthy(status) then status.value else "unknown")
    ensures r.Some? ==> r.value.quarter == (if quarter.Truthy() then quarter else Null)
    ensures r.Some? ==> r.value.clock == (if clock.Truthy() then clock else Null)
    ensures r.Some? ==> r.value.id == (if id.Truthy() then id else Null)
  {
    if !IsTruthy(home) || !IsTruthy(away) then None
    else
      var winner :=
        if IsFinal(status) && homeScore != awayScore then
          Some(if homeScore > awayScore then home.value else away.value)
        else None;
      Some(Game(
        home := Upper(home.value),
        away := Upper(away.value),
        winner := if IsTruthy(winner) then Some(Upper(winner.value)) else None,
        status := if IsTruthy(status) then status.value else "unknown",
        homeScore := Num(homeScore),
        awayScore := Num(awayScore),
        quarter := if quarter.Truthy() then quarter else Null,
        clock := if clock.Truthy() then clock else Null,
        id := if id.Truthy() then id else Null))
  }

  /** A normalized record names its teams in upper case, and a winner is always one of
      the two teams, also in upper case. */
  lemma NormalizedCodesAreUpperCase(home: Option<string>, away: Option<string>, homeScore: int, awayScore: int,
                                    status: Option<string>, quarter: Scalar, clock: Scalar, id: Scalar)
    ensures var r := Normalize(home, away, homeScore, awayScore, status, quarter, clock, id);
            r.Some? ==>
              && Upper(r.value.home) == r.value.home
              && Upper(r.value.away) == r.value.away
              && (r.value.winner.Some? ==>
                    r.value.winner.value in {r.value.home, r.value.away}
                    && Upper(r.value.winner.value) == r.value.winner.value)
  {
    if home.Some? && away.Some? {
      UpperIdempotent(home.value);
      UpperIdempotent(away.value);
    }
  }

  /** The event states the ESPN scoreboard reports ("pre", "in", "post") never start
      with "final", so records built from ESPN events never carry a winner. */
  lemma EspnStatesNeverFinal(state: string)
    requires state in {"pre", "in", "post"}
    ensures !IsFinal(Some(state))
  {
    assert Lower("pre") == "pre" && Lower("in") == "in" && Lower("post") == "post";
  }

  /** A tied game and an unfinished game have no winner. */
  lemma NoWinnerUnlessFinalAndDecided(home: Option<string>, away: Option<string>, homeScore: int, awayScore: int,
                                      status: Option<string>, quarter: Scalar, clock: Scalar, id: Scalar)
    requires homeScore == awayScore || !IsFinal(status)
    ensures var r := Normalize(home, away, homeScore, awayScore, status, quarter, clock, id);
            r.Some? ==> r.value.winner == None
  {
  }

  /** The fields the function reads from one ESPN event: the home and away competitor's
      abbreviation and score (already converted with `Number(score || 0)`),
      `status.type.state`, `status.period`, `status.displayClock` and the event id. */
  datatype EspnEvent = EspnEvent(
    home: Option<string>,
    away: Option<string>,
    homeScore: int,
    awayScore: int,
    state: Option<string>,
    period: Scalar,
    clock: Scalar,
    id: Scalar)

  function NormalizeEvent(e: EspnEvent): Option<Game> {
    Normalize(e.home, e.away, e.homeScore, e.awayScore, e.state, e.period, e.clock, e.id)
  }

  /** `events.map(normalize).filter(Boolean)`: the records of the events naming both
      teams, in event order. */
  function NormalizeEvents(events: seq<EspnEvent>): (r: seq<Game>)
    ensures |r| <= |events|
    ensures forall g | g in r :: exists e | e in events :: NormalizeEvent(e) == Some(g)
    ensures forall e | e in events && NormalizeEvent(e).Some? :: NormalizeEvent(e).value in r
  {
    if events == [] then []
    else
      var rest := NormalizeEvents(events[1..]);
      assert forall e | e in events[1..] :: e in events;
      assert forall e | e in events :: e == events[0] || e in events[1..];
      match NormalizeEvent(events[0])
      case Some(g) => [g] + rest
      case None => rest
  }

  /** The records keep the order and repeats of their events: the records of a
      concatenation are the records of each part, concatenated. */
  lemma {:induction false} NormalizeEventsAppend(a: seq<EspnEvent>, b: seq<EspnEvent>)
    ensures NormalizeEvents(a + b) == NormalizeEvents(a) + NormalizeEvents(b)
  {
    if a == [] {
      assert a + b == b;
    } else {
      ConsAppend(a, b);
      HeadAndTail(a);
      NormalizeEventsAppend(a[1..], b);
      NormalizeEventsCons(a[0], a[1..] + b);
      NormalizeEventsCons(a[0], a[1..]);
      var head := if NormalizeEvent(a[0]).Some? then [NormalizeEvent(a[0]).value] else [];
      AppendAssoc(head, NormalizeEvents(a[1..]), NormalizeEvents(b));
    }
  }

  lemma NormalizeEventsCons(e: EspnEvent, rest: seq<EspnEvent>)
    ensures NormalizeEvents([e] + rest)
            == (if NormalizeEvent(e).Some? then [NormalizeEvent(e).value] else []) + NormalizeEvents(rest)
  {
    assert ([e] + rest)[0] == e && ([e] + rest)[1..] == rest;
  }

  /** One event gives its record when it names both teams, and nothing otherwise. */
  lemma NormalizeEventsSingle(e: EspnEvent)
    ensures NormalizeEvents([e]) == if NormalizeEvent(e).Some? then [NormalizeEvent(e).value] else []
  {
    assert [e][1..] == [];
  }

  /** The `events` member of a parsed answer: missing or falsy (read as `[]`), present
      but not an array, or an array of events. */
  datatype EventsField = Absent | NotAList | EventList(events: seq<EspnEvent>)

  /** One ESPN URL variant's outcome: failed (a thrown error, a non-2xx status or an
      unparseable body) or answered with a parsed body. */
  datatype EspnAnswer = Failed | Answered(field: EventsField)

  /** An answer `tryEspn` accepts: it succeeded and its events are an array. */
  predicate Accepts(a: EspnAnswer) {
    a.Answered? && !a.field.NotAList?
  }

  function EventsOf(a: EspnAnswer): seq<EspnEvent> {
    if a.Answered? && a.field.EventList? then a.field.events else []
  }

  /** `tryEspn`: the normalized events of the first URL variant whose answer is
      accepted, or None when no variant is. */
  function TryEspn(answers: seq<EspnAnswer>): (r: Option<seq<Game>>)
    ensures r.None? <==> forall i :: 0 <= i < |answers| ==> !Accepts(answers[i])
    ensures r.Some? ==>
              exists i :: 0 <= i < |answers| && Accepts(answers[i])
                          && (forall j :: 0 <= j < i ==> !Accepts(answers[j]))
                          && r.value == NormalizeEvents(EventsOf(answers[i]))
  {
    if answers == [] then None
    else if Accepts(answers[0]) then Some(NormalizeEvents(EventsOf(answers[0])))
    else
      var r := TryEspn(answers[1..]);
      assert forall i :: 1 <= i < |answers| ==> answers[i] == answers[1..][i - 1];
      r
  }

  /** `fetchGames`: the RapidAPI list when it is non-empty, otherwise the ESPN result,
      otherwise the empty list; never null. `rapid` is the already normalized RapidAPI
      result (None when no key is configured or the call failed). */
  function FetchGames(rapid: Option<seq<Game>>, espn: seq<EspnAnswer>): (r: seq<Game>)
    ensures rapid.Some? && |rapid.value| > 0 ==> r == rapid.value
    ensures !(rapid.Some? && |rapid.value| > 0) ==>
              ((forall i :: 0 <= i < |espn| ==> !Accepts(espn[i])) && r == [])
              || exists i :: 0 <= i < |espn| && Accepts(espn[i])
                             && (forall j :: 0 <= j < i ==> !Accepts(espn[j]))
                             && r == NormalizeEvents(EventsOf(espn[i]))
  {
    if rapid.Some? && |rapid.value| > 0 then rapid.value
    else TryEspn(espn).GetOr([])
  }

  /** The query string parameters `week` and `year`. */
  datatype Query = Query(week: Option<string>, year: Option<string>)

  /** What the providers did: the call chain threw, or it produced the RapidAPI result
      and the ESPN answers. */
  datatype Upstream = Throws(message: string) | Provides(rapid: Option<seq<Game>>, espn: seq<EspnAnswer>)

  datatype Body = ErrorBody(error: string) | GamesBody(games: seq<Game>)

  datatype Response = Response(status: int, cacheControl: Option<string>, body: Body)

  const CacheDirective: string := "public, s-maxage=60"

  /** `handler`: 400 without week and year, 502 when fetching threw, otherwise 200 with
      the games and a shared-cache directive. */
  function Handler(query: Query, upstream: Upstream): (r: Response)
    ensures r.status in {200, 400, 502}
    ensures r.status == 400 <==> !IsTruthy(query.week) || !IsTruthy(query.year)
    ensures r.status == 502 <==> IsTruthy(query.week) && IsTruthy(query.year) && upstream.Throws?
    ensures r.status == 200 ==>
              upstream.Provides? && r.cacheControl == Some(CacheDirective)
              && r.body == GamesBody(FetchGames(upstream.rapid, upstream.espn))
    ensures r.status != 200 ==> r.body.ErrorBody? && r.cacheControl.None?
  {
    if !IsTruthy(query.week) || !IsTruthy(query.year) then
      Response(400, None, ErrorBody("week and year required"))
    else
      match upstream
      case Throws(message) => Response(502, None, ErrorBody(message))
      case Provides(rapid, espn) => Response(200, Some(CacheDirective), GamesBody(FetchGames(rapid, espn)))
  }

  /** With both parameters present and no exception, the answer is 200 even when every
      provider failed: the body is then the empty list. */
  lemma TotalOutageStillAnswers200(query: Query, espn: seq<EspnAnswer>)
    requires IsTruthy(query.week) && IsTruthy(query.year)
    requires forall i :: 0 <= i < |espn| ==> !Accepts(espn[i])
    ensures Handler(query, Provides(None, espn)) == Response(200, Some(CacheDirective), GamesBody([]))
  {
  }
}
