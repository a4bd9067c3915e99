/** The browser-side score cache (a time-stamped entry per season and week in
    `localStorage`) and `fetchWeekGames`, which consults it before trying the scoreboard
    URLs in order. Storage is an immutable map passed in and returned; the clock reading
    and every URL's outcome are parameters. */
module ScoreCache {
  import opened Wrappers
  import opened Games

  /** Ten minutes, in milliseconds. */
  const TtlMs: int := 10 * 60 * 1000

  /** The `v` member of a stored entry, after JSON parsing. */
  datatype CacheValue = FalsyValue | GameList(games: seq<Game>) | OtherValue

  /** What one storage key holds: text that is not JSON, or a parsed `{ t, v }` object.
      A key that is absent or holds the empty string is absent from the map. */
  datatype Slot = Unparseable | Entry(t: int, v: CacheValue)

  /** The storage, keyed by (season year, week): `cacheKey` writes the two numbers
      around a colon, so distinct pairs never share a key. */
  type Store = map<(int, int), Slot>

  /** The entry under (year, week) is usable at `now`: it parsed, has a non-zero stamp
      and a truthy value, and is at most `TtlMs` old. */
  predicate Fresh(store: Store, now: int, year: int, week: int) {
    && (year, week) in store
    && store[(year, week)].Entry?
    && store[(year, week)].t != 0
    && !store[(year, week)].v.FalsyValue?
    && now - store[(year, week)].t <= TtlMs
  }

  /** `cacheGet`: the stored value while it is fresh, None otherwise. An empty list is
      truthy and therefore returned. */
  function CacheGet(store: Store, now: int, year: int, week: int): (r: Option<CacheValue>)
    ensures r.Some? <==> Fresh(store, now, year, week)
    ensures r.Some? ==> r.value == store[(year, week)].v && !r.value.FalsyValue?
  {
    if (year, week) !in store then None
    else
      match store[(year, week)]
      case Unparseable => None
      case Entry(t, v) =>
        if t == 0 || v.FalsyValue? then None
        else if now - t > TtlMs then None
        else Some(v)
  }

  /** `cacheSet`: stamps the list with `now` under (year, week). */
  function CacheSet(store: Store, now: int, year: int, week: int, games: seq<Game>): (r: Store)
    ensures (year, week) in r && r[(year, week)] == Entry(now, GameList(games))
    ensures forall k | k != (year, week) :: (k in r <==> k in store) && (k in store ==> r[k] == store[k])
  {
    store[(year, week) := Entry(now, GameList(games))]
  }

  /** A value written at a non-zero time is read back unchanged for `TtlMs` milliseconds. */
  lemma CacheSetThenGet(store: Store, now: int, later: int, year: int, week: int, games: seq<Game>)
    requires now != 0 && later - now <= TtlMs
    ensures CacheGet(CacheSet(store, now, year, week, games), later, year, week) == Some(GameList(games))
  {
  }

  /** Once more than `TtlMs` milliseconds have passed, the entry is no longer returned. */
  lemma CacheExpires(store: Store, now: int, later: int, year: int, week: int, games: seq<Game>)
    requires later - now > TtlMs
    ensures CacheGet(CacheSet(store, now, year, week, games), later, year, week).None?
  {
  }

  /** Writing one week leaves every other week's reading unchanged. */
  lemma CacheSetFrame(store: Store, now: int, later: int, year: int, week: int, games: seq<Game>,
                      otherYear: int, otherWeek: int)
    requires (otherYear, otherWeek) != (year, week)
    ensures CacheGet(CacheSet(store, now, year, week, games), later, otherYear, otherWeek)
            == CacheGet(store, later, otherYear, otherWeek)
  {
  }

  /** The fields the browser reads from one raw ESPN event: the id, `status.type.state`,
      the home and away abbreviations and the abbreviation of the competitor ESPN
      flags as winner. */
  datatype RawEvent = RawEvent(id: Scalar, state: Option<string>, home: Option<string>,
                               away: Option<string>, flaggedWinner: Option<string>)

  /** How one scoreboard URL answered: it failed (network error, timeout, non-2xx status
      or unparseable body), or its body parsed to an array of game records, to a falsy
      JSON value, or to some other value whose `events` are listed. An `events` member
      that is missing, falsy or not an array is listed as no events: each of these
      yields the empty result. */
  datatype UrlAnswer = Failed | ArrayBody(games: seq<Game>) | FalsyBody | EventsBody(events: seq<RawEvent>)

  /** The browser's own reduction of a raw ESPN event: no scores, clock or quarter, and
      the winner ESPN flagged. A missing team code or state becomes the empty string. */
  function RawEventRecord(e: RawEvent): Game {
    Game(
      home := e.home.GetOr(""),
      away := e.away.GetOr(""),
      winner := if IsTruthy(e.flaggedWinner) then e.flaggedWinner else None,
      status := e.state.GetOr(""),
      homeScore := Undefined,
      awayScore := Undefined,
      quarter := Undefined,
      clock := Undefined,
      id := e.id)
  }

  /** `events.map(...)` in `fetchWeekGames`: one record per event, in order. */
  function RawEventRecords(events: seq<RawEvent>): (r: seq<Game>)
    ensures |r| == |events|
    ensures forall i :: 0 <= i < |events| ==> r[i] == RawEventRecord(events[i])
  {
    seq(|events|, i requires 0 <= i < |events| => RawEventRecord(events[i]))
  }

  /** The answer that ends the URL loop: the first one that did not fail. */
  function FirstAnswer(answers: seq<UrlAnswer>): (r: Option<UrlAnswer>)
    ensures r.None? <==> forall i :: 0 <= i < |answers| ==> answers[i].Failed?
    ensures r.Some? ==>
              exists i :: 0 <= i < |answers| && answers[i] == r.value && !r.value.Failed?
                          && forall j :: 0 <= j < i ==> answers[j].Failed?
  {
    if answers == [] then None
    else if !answers[0].Failed? then Some(answers[0])
    else
      assert forall i :: 1 <= i < |answers| ==> answers[i] == answers[1..][i - 1];
      FirstAnswer(answers[1..])
  }

  /** What the answer that ended the loop yields, and whether it is written to the
      cache: a non-empty array or a non-empty event list. */
  function Outcome(answer: Option<UrlAnswer>): (seq<Game>, bool) {
    match answer
    case None => ([], false)
    case Some(Failed) => ([], false)
    case Some(FalsyBody) => ([], false)
    case Some(ArrayBody(games)) => (games, |games| > 0)
    case Some(EventsBody(events)) =>
      if |events| > 0 then (RawEventRecords(events), true) else ([], false)
  }

  /** `fetchWeekGames(year, week)`: a fresh non-empty cached list is returned as is;
      otherwise the URLs are tried in order and the first answer that did not fail
      decides the result, which is cached only when non-empty. */
  function FetchWeekGames(store: Store, now: int, year: int, week: int, answers: seq<UrlAnswer>): (r: (seq<Game>, Store))
    ensures CacheHit(store, now, year, week) ==> r == (store[(year, week)].v.games, store)
    ensures !CacheHit(store, now, year, week) && (forall i :: 0 <= i < |answers| ==> answers[i].Failed?) ==>
              r == ([], store)
    ensures r.1 == store || (|r.0| > 0 && r.1 == CacheSet(store, now, year, week, r.0))
    ensures r.0 == [] ==> r.1 == store
    ensures !CacheHit(store, now, year, week) && FirstAnswer(answers) == Some(FalsyBody) ==> r == ([], store)
    ensures !CacheHit(store, now, year, week) && FirstAnswer(answers).Some? && FirstAnswer(answers).value.ArrayBody? ==>
              var games := FirstAnswer(answers).value.games;
              r == (games, if |games| > 0 then CacheSet(store, now, year, week, games) else store)
    ensures !CacheHit(store, now, year, week) && FirstAnswer(answers).Some? && FirstAnswer(answers).value.EventsBody? ==>
              var events := FirstAnswer(answers).value.events;
              r.0 == RawEventRecords(events)
              && r.1 == (if |events| > 0 then CacheSet(store, now, year, week, r.0) else store)
  {
    var cached := CacheGet(store, now, year, week);
    if cached.Some? && cached.value.GameList? && |cached.value.games| > 0 then
      (cached.value.games, store)
    else
      var (games, write) := Outcome(FirstAnswer(answers));
      (games, if write then CacheSet(store, now, year, week, games) else store)
  }

  /** A usable cached list: fresh and non-empty. */
  predicate CacheHit(store: Store, now: int, year: int, week: int) {
    var cached := CacheGet(store, now, year, week);
    cached.Some? && cached.value.GameList? && |cached.value.games| > 0
  }

  /** A fetch that went to the network and got a non-empty list is served from the
      cache by any later fetch of the same week within the time-to-live, whatever the
      URLs answer then, and the second fetch writes nothing. */
  lemma FetchThenCacheHit(store: Store, now: int, later: int, year: int, week: int,
                          answers: seq<UrlAnswer>, laterAnswers: seq<UrlAnswer>)
    requires !CacheHit(store, now, year, week)
    requires now != 0 && later - now <= TtlMs
    ensures var (games, store') := FetchWeekGames(store, now, year, week, answers);
            games != [] ==>
              CacheHit(store', later, year, week)
              && FetchWeekGames(store', later, year, week, laterAnswers) == (games, store')
  {
  }
}
