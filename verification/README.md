# NFL Wins: a Dafny model of the league scoring core

NFL Wins is a small web app for a fantasy-style league. Each player owns up to four
NFL teams. A player scores one point for every regular-season game their teams win.
This project models and proves properties of the parts of the app that decide who
gets the points:

- **Team identity** (`teams.dfy`): `normalizeKey` and `normalizeTeam`, which resolve
  free text using the synonym and alias tables. A known name gives one of the 32
  canonical team codes. An unknown token of 2-4 letters or digits is kept upper-cased
  ("XYZ" stays "XYZ"), and anything else resolves to nothing.
  Also `parseTeamsList`, which turns a comma/space separated roster entry into at most
  four distinct codes, and `getSeasonYear`.
- **Score cache** (`cache.dfy`): `cacheGet` and `cacheSet`, a ten-minute cache keyed by
  season and week, and the rules `fetchWeekGames` adds on top of it. Only non-empty
  lists are served from the cache or written to it, and the first URL that answers
  decides the result.
- **Standings engine** (`standings.dfy`, `ranking.dfy`): `computeStandings`. It builds
  the team-to-player map (a later claim overwrites an earlier one) and derives each
  game's winner. It then counts wins per player and per team, snapshots every
  player's running total after each week, and sorts the rows by wins with a stable
  sort.
- **Week detection** (`week.dfy`): `approximateCurrentWeek` and `detectCurrentWeek`,
  including its probe list spreading out from the estimate.
- **Live helpers** (`live.dfy`): the one-minute snapshot, `findLiveGameForTeam` and
  `formatLiveClock`.
- **Markup escaping** (`escape.dfy`): `escapeHtml` and `escapeAttr`, each checked
  against HTML character-reference decoding.
- **Serverless scoreboard function** (`scoreboard.dfy`): `normalize`, `tryEspn`'s
  fallback across URL variants, `fetchGames`' provider choice, and the status code
  chosen by `handler`.
- **How they meet** (`pipeline.dfy`): how records from the function are credited by
  the standings and found by the live lookup.

Other inputs are passed in as parameters:

- the clock (`now`, the elapsed milliseconds since kickoff);
- network answers (one value per URL tried);
- the "does this week have games" oracle;
- the per-week game lists.

JavaScript semantics are written out where they matter:

- truthiness of `x || default`;
- ASCII case mapping;
- `Array.prototype.find` and `filter(Boolean)`;
- stable `sort`, modelled by insertion sort;
- JSON scalars (`undefined`, `null`, numbers, strings) as the `Scalar` datatype.

Where the code and its description differ, the model follows the code:

- `cacheGet` itself returns an empty array when one is stored. Only `fetchWeekGames`
  ignores empty cached lists.
- The serverless `tryEspn` reads the competitor flagged as winner but never passes it
  to `normalize`. So ESPN records from the function carry no winner, and the standings
  credit whichever side leads on score, even in a game still in progress
  (`Pipeline.EspnGamesAreCreditedByScore`).

## Model

| member | source | states |
|---|---|---|
| Teams.NormalizeKey | app.js:55-57 | the key holds only lower-case ASCII letters and digits, and a token made only of letters and digits keys to its lower-case form |
| Teams.NormalizeKeyIsKeyOf | app.js:55-57 | the key equals the character-by-character reference: each letter or digit lower-cased, every other character dropped |
| Teams.NormalizeKeyAppend | app.js:55-57 | the key of a concatenation is the concatenation of the keys |
| Teams.NormalizeKeyOfChar | app.js:55-57 | a single letter or digit keys to its lower-case form, any other single character to the empty key |
| Teams.NormalizeKeyExample | app.js:55-57 | "K.C." keys to "kc" |
| Teams.NormalizeTeam | app.js:59-75 | an empty key gives no team; a synonym hit gives the table's value; a synonym miss on a 2-4 letter/digit token gives the token upper-cased; the result is missing exactly when the key is empty, or when the synonym lookup fails and the raw token is not 2-4 letters/digits |
| Teams.Synonym | app.js:4-45 | the synonym table: a key with a value is non-empty, and every value is a code of two or three characters (Teams.SynonymValuesAreCanonical places each value among the 32 canonical codes) |
| Teams.AliasTableShape | app.js:47-53 | the alias table has five entries, each canon is a canonical code listed among its own variants, and no variant appears in two entries |
| Teams.FindAlias | app.js:68-70 | the alias scan finds a canon exactly when some alias list holds the upper-cased token, and the canon it returns owns the first such list |
| Teams.SynonymValuesAreCanonical | app.js:4-45 | every synonym-table value is one of the 32 canonical codes |
| Teams.CodesAreUpperAlnum | app.js:4-45 | every canonical code is 2-4 upper-case letters/digits |
| Teams.CanonicalCodesAreOwnSynonyms | app.js:4-45 | each of the 32 canonical codes, lower-cased, is a synonym key for itself |
| Teams.CanonicalCodesResolveToThemselves | app.js:4-45 | each of the 32 canonical codes resolves to itself |
| Teams.AliasVariantIsSynonym | app.js:4-53 | every variant listed in the alias table, lower-cased, is a key of the synonym table for that entry's canonical code |
| Teams.AliasTableAgreesWithSynonyms | app.js:47-53 | whenever the alias table resolves a short token, the synonym table already resolves it to the same canon, so the alias branch never changes the result |
| Teams.ResolutionCases | app.js:59-75 | a synonym hit resolves to a canonical code; a short alphanumeric synonym miss resolves to the token upper-cased, which is not a canonical code; so a resolved token is canonical exactly when the synonym table knows its key |
| Teams.ResolvedIsListSafe | app.js:59-75 | a resolved code is non-empty and contains no comma or white space |
| Teams.NormalizeTeamIdempotent | app.js:59-75 | resolving a resolved code gives the same code again |
| Teams.SynonymLookupIgnoresCaseAndPunctuation | app.js:55-63 | two tokens with the same key resolve alike when the synonym table knows that key |
| Teams.Words | app.js:80 | each word of a part is non-empty and contains no white space, and the words laid end to end are the part with its white space removed |
| Teams.WordsOfParts | app.js:79-81 | the words of all comma-separated parts are non-empty and free of white space, and laid end to end they are the parts' text with its white space removed |
| Teams.Tokens | app.js:78-81 | every token of the roster text is non-empty and free of commas and white space, and the tokens laid end to end are the text with its commas and white space removed |
| Teams.WordsOfSpaceFree | app.js:80 | a part without white space is one word, or no word when empty |
| Teams.WordsAtSpace | app.js:80 | a white-space character ends the word before it and starts the words of the rest |
| Teams.TokensWithoutComma | app.js:78-81 | text without a comma splits into its white-space separated words |
| Teams.TokensAtComma | app.js:78-81 | a comma ends the words of the text before it and starts the tokens of the rest |
| Teams.Collect | app.js:83-87 | the output keeps its prefix, never exceeds four entries, has no duplicates, and each added code is the resolution of some token |
| Teams.ParseTeamsList | app.js:77-89 | at most four codes, no duplicates, each the resolution of a token of the input |
| Teams.CollectIsDedupTake | app.js:83-87 | the loop equals: resolve every token, drop failures and repeats in first-seen order, keep the first four |
| Teams.ParseTeamsListFirstSeen | app.js:77-89 | the parsed list is the first four distinct resolutions, in token order |
| Teams.TokensOfJoin | app.js:78-81 | joining list-safe codes with ", " and splitting again gives back the codes |
| Teams.ReparseFixedCodes | app.js:77-89 | a list of at most four distinct codes that resolve to themselves parses back to itself when joined with ", " |
| Teams.ParsedCodesAreFixed | app.js:77-89 | every code a parse returns is list-safe and resolves to itself |
| Teams.ParseTeamsListRoundTrip | app.js:77-89 | parsing the joined result of a parse gives the same list, as the league editor does when it shows teams joined by ", " and reads them back |
| Teams.SeasonYear | app.js:91-95 | the season is this year from September on and last year before |
| Teams.SeasonYearBracketsReading | app.js:91-95 | the reading's month lies between the season's September and the next September |
| ScoreCache.CacheGet | app.js:142-151 | a value is returned exactly when the entry parsed, its stamp is non-zero, its value truthy and it is at most ten minutes old; the value is the stored one |
| ScoreCache.CacheSet | app.js:152-154 | the week's entry becomes the list stamped with `now`; every other key is untouched |
| ScoreCache.CacheSetThenGet | app.js:140-154 | a list written at a non-zero time is read back unchanged for ten minutes |
| ScoreCache.CacheExpires | app.js:148 | after more than ten minutes the entry is a miss |
| ScoreCache.CacheSetFrame | app.js:141-154 | writing one week does not change what any other week reads |
| ScoreCache.RawEventRecords | app.js:236-247 | one record per raw event, in event order, each the browser's reduction of that event |
| ScoreCache.FirstAnswer | app.js:211-227 | the URL loop ends at the first answer that did not fail, and at none when all fail |
| ScoreCache.FetchWeekGames | app.js:192-253 | a fresh non-empty cached list is returned without a write; on a miss, a falsy body gives an empty result, an array body gives that array and an events body gives its reduced records, each written to the cache only when non-empty; when every URL fails the result is empty and nothing is written |
| ScoreCache.FetchThenCacheHit | app.js:192-222 | after a fetch that got a non-empty list, a refetch within ten minutes is served from the cache, whatever the URLs answer, and writes nothing |
| Standings.ClaimTeams | app.js:259 | after one player's claims, the player owns exactly the upper-cased codes they list and every other code keeps its owner |
| Standings.TeamOwners | app.js:258-259 | a code is owned exactly when some player lists it; its owner is the last player listing it, and always a roster id |
| Standings.LastClaimWins | app.js:259 | a code listed by a player and by no later player belongs to that player |
| Standings.WinningTeam | app.js:276-280 | a truthy `winner` is the winning team; otherwise, when both scores are finite and differ, the higher-scoring side wins unless its code is empty, in which case there is no winner; a tie or a non-finite score gives no winner |
| Standings.Credit | app.js:280-285 | one game adds 0 or 1 to each player, changes at most one player, never lowers a team's count, and changes nothing without a winner |
| Standings.CreditCounts | app.js:280-285 | a game adds exactly one to the winning code's count, and one to a player's count exactly when it credits that player |
| Standings.FoldWeek | app.js:273-286 | a week's games leave the set of counted players and the series unchanged |
| Standings.FoldWeekCounts | app.js:273-286 | after a week, each team and each player count has grown by that week's wins for it |
| Standings.Snapshot | app.js:287 | the snapshot appends every player's current total to their series and changes no count |
| Standings.SnapshotRepeats | app.js:287 | for any ids, a player's series grows by their current total once per roster entry with that id, so players sharing an id both push onto the one shared series |
| Standings.Run | app.js:261-288 | every player keeps a counter and a series throughout the season loop |
| Standings.RunCounts | app.js:271-288 | after the loop each team's count, and each player's count, equals the wins over all the season's games |
| Standings.SeriesIsCumulative | app.js:265-288 | a player's series has one entry per week, and entry k is their total over the first k+1 weeks |
| Standings.SeriesNeverDecreases | app.js:287 | a player's series never decreases from one week to the next |
| Standings.SeriesRises | app.js:265-288 | for any ids, every series is ordered from low to high and never exceeds its player's current total |
| Standings.AbsentWeekIsEmptyWeek | app.js:273 | a week whose result is absent is counted exactly like a week without games, and still adds a snapshot |
| Standings.ListedCodeIsOwned | app.js:258-259 | when no team is claimed twice, a code a player lists is owned by that player |
| Standings.UnlistedCodeIsNotOwned | app.js:258-259 | with distinct ids, a code a player does not list is not owned by that player |
| Standings.CreditedToOwner | app.js:259-282 | when no team is claimed twice, player ids are distinct and the player's id is non-empty (`if (pid)` skips an empty one), a game credits the player exactly when its winning code is one of the player's teams |
| Standings.PlayerCountIsTeamsTotal | app.js:280-285 | when no team is claimed twice, player ids are distinct, the player's id is non-empty and the player does not list a code twice, the player's count equals the sum of their teams' counts |
| Standings.PlayerWinsAreTeamWinsSum | app.js:290-296 | when no team is claimed twice, player ids are distinct, the player's id is non-empty and the player does not list a code twice, a row's `wins` equals the sum of the `wins` shown for its teams |
| Standings.ComputeStandings | app.js:290-296 | one row per player, ordered by wins, descending |
| Standings.RowIsReference | app.js:290-295 | with distinct ids, each row's wins, series and team counts equal the counts over the season's games |
| Standings.UnrankedIsReference | app.js:290-295 | with distinct ids, the rows before sorting are the reference rows in roster order |
| Standings.StandingsAreRankedReferenceRows | app.js:290-296 | the output is sorted by wins, is a permutation of the reference rows, and keeps rows with equal wins in roster order |
| Ranking.Insert | app.js:296 | insertion adds one element and keeps a descending list descending |
| Ranking.SortDesc | app.js:296 | the sorted list has the input's length and is ordered by key, descending |
| Ranking.SortDescPermutes | app.js:296 | sorting is a permutation |
| Ranking.SortDescIsStable | app.js:296 | elements with equal keys keep their relative order |
| Ranking.SortDescOfSorted | app.js:296 | an already ordered list is left as it is |
| Week.FirstThursday | app.js:430-432 | the walk from September 1 stops at the first day that is a Thursday, within the first seven days, and that day equals the closed-form reference |
| Week.ApproximateWeekSinceSeptember | app.js:429-437 | the estimate counts from the first Thursday found by the walk; it lies in 1..22, is 1 throughout the first seven days of September and 22 from the twenty-second week on |
| Week.ApproximateCurrentWeek | app.js:429-437 | the estimate lies in 1..22, and below 22 the elapsed time (negative read as 0) lies within that week's span |
| Week.ApproximationIsMonotone | app.js:429-437 | a later moment never gives an earlier estimate |
| Week.ProbeCandidates | app.js:408-414 | the probe list starts with the estimate, has at most seven weeks, all in 1..22, covers exactly the weeks within three of it, and is ordered nearest first with no repeats |
| Week.DetectCurrentWeek | app.js:405-427 | the result lies in 1..22; it is the first candidate with games, otherwise the highest week with games, otherwise the estimate |
| Live.Refresh | app.js:588 | right after a refresh, looking up any team searches exactly the refreshed games |
| Live.EligibleEitherSide | app.js:577 | a game is live for a team whichever side the team plays on: swapping home and away changes nothing |
| Live.FirstEligible | app.js:577 | `find` returns nothing exactly when no game is eligible, and otherwise the first eligible game |
| Live.FindLiveGame | app.js:573-578 | a snapshot older than a minute yields nothing; otherwise the first game with the upper-cased code, no winner and a defined home score |
| Live.RefreshIsSeenForOneMinute | app.js:572-590 | a refresh is seen for one minute and then ignored |
| Live.EmptySnapshotFindsNothing | app.js:572 | before the first refresh nothing is live |
| Live.NatTextRoundTrip | app.js:581 | the decimal text of a number reads back as that number |
| Live.FormatLiveClock | app.js:579-582 | "(live)" exactly when there is no game or no quarter; otherwise "(Q<quarter> <clock>)", with the clock left out when it is falsy |
| Escape.EscapeHtml | app.js:559-561 | the escaped text contains no '<' or '>' |
| Escape.EscapeHtmlRoundTrip | app.js:559-561 | decoding escaped text gives back the original text |
| Escape.EscapeAttr | app.js:562-564 | the escaped value contains no '"', and a value without '"' is unchanged |
| Escape.EscapeAttrRoundTripWithoutAmpersand | app.js:562-564 | a value without '&' decodes back to itself after escaping |
| Escape.EscapeAttrLosesReferences | app.js:562-564 | the value "&amp;" passes through unchanged and is read back as "&" |
| Escape.EscapeAttrSafe | app.js:562-564 | the corrected escaping contains no '"' |
| Escape.EscapeAttrSafeRoundTrip | app.js:562-564 | every value decodes back to itself after the corrected escaping |
| Scoreboard.Normalize | api/scoreboard.js:96-113 | no record exactly when a team is falsy; teams upper-cased; a winner exactly when the status starts with "final" and the scores differ, and then the higher-scoring side; the status defaults to "unknown"; quarter, clock and id default to null |
| Scoreboard.NormalizedCodesAreUpperCase | api/scoreboard.js:100-105 | the codes of a record are upper case, and a winner is the record's home or away code |
| Scoreboard.NoWinnerUnlessFinalAndDecided | api/scoreboard.js:98-101 | a tied or unfinished game has no winner |
| Scoreboard.EspnStatesNeverFinal | api/scoreboard.js:76-83 | the ESPN states "pre", "in" and "post" never count as final |
| Scoreboard.NormalizeEvents | api/scoreboard.js:72-88 | every record comes from an event, every event naming both teams gives a record, and there are no more records than events |
| Scoreboard.NormalizeEventsSingle | api/scoreboard.js:72-88 | one event gives its record when it names both teams, and nothing otherwise |
| Scoreboard.NormalizeEventsAppend | api/scoreboard.js:72-88 | the records of two event lists in a row are the records of the first followed by those of the second, so records keep event order |
| Scoreboard.TryEspn | api/scoreboard.js:60-94 | no result exactly when no URL answers with an events array; otherwise the records of the first such answer |
| Scoreboard.FetchGames | api/scoreboard.js:20-25 | a non-empty RapidAPI list is returned as is; otherwise the ESPN records, or the empty list when ESPN gives none |
| Scoreboard.Handler | api/scoreboard.js:4-18 | 400 exactly when week or year is missing; 502 exactly when both are present and fetching threw; otherwise 200 with the games and the one-minute cache header |
| Scoreboard.TotalOutageStillAnswers200 | api/scoreboard.js:4-25 | when every provider fails without throwing, the answer is 200 with an empty list |
| Pipeline.FinalWinnerIsCredited | api/scoreboard.js:98-105 | a final, decided record is credited to the winner `normalize` named, the higher-scoring side |
| Pipeline.LeaderIsCreditedBeforeFinal | app.js:276-279 | an unfinished record with unequal scores has no winner, yet the standings credit the side ahead |
| Pipeline.EspnGamesAreCreditedByScore | api/scoreboard.js:76-87 | every ESPN record with unequal scores is credited to the side ahead, finished or not |
| Pipeline.UnfinishedRecordIsLive | app.js:577 | a record the function produced for an unfinished game is eligible as live for both teams |
| Pipeline.RawRecordsCreditOnlyTheFlaggedWinner | app.js:236-247 | records the browser builds from raw ESPN events are never live and credit only the team ESPN flagged as winner |

## Left out

- `mapWithConcurrency` (app.js:157-169) bounds how many requests run at once. The
  model takes the per-week results as a sequence in week order.
- The `fetch`/`AbortController` plumbing and the URL lists are left out. Each URL's
  outcome is a parameter (`UrlAnswer`, `EspnAnswer`).
- The body parsing in `tryRapidApi` (api/scoreboard.js:27-58) is not modelled. The
  RapidAPI result is a parameter of `FetchGames`, and `Upstream` says whether the call
  chain threw.
- Scores are integers. The string scores RapidAPI may return would be compared
  lexicographically by `>`; that is not modelled. Neither are NaN or fractional numbers.
- Numbers are unbounded integers, while JavaScript numbers are doubles. Precision lost
  above 2^53 in `>` and `!==` is not modelled, and neither is the exponent form a
  template literal prints for values of 1e21 or more (Live.IntText). Scores, quarters
  and week numbers stay far below both.
- DOM and view code, the league dialog, charts, toasts, theming and `localStorage`
  persistence of the league are left out. So are `DEFAULT_LEAGUE` and the `setInterval`
  timers; the refresh is `Live.Refresh` with the time as an argument.
- proxy.py is an HTTP development server, and its RapidAPI normalisation cannot be
  reached.
- Week.FirstThursday models only the weekday walk. The JavaScript `Date` arithmetic
  is not modelled: Week.ApproximateWeekSinceSeptember takes the weekday of September 1
  and the reading as milliseconds since its midnight. Days are taken as 24 hours, so
  daylight-saving shifts are ignored.
- Text.Lower and Text.Upper map ASCII letters only; JavaScript's full Unicode case
  mapping is not modelled. Likewise Text.IsSpace knows only the ASCII white-space
  characters, while `trim` and `\s` also match Unicode spaces.
- Null entries in a week's game list (skipped at app.js:275) are not modelled.
  Neither is a null ESPN event, which would throw inside the `map`.
- The cache key is the pair (year, week), not the `nflwins.cache.scoreboard:` string.
  A storage write that fails (a full quota) is not modelled.
- ScoreCache.CacheGet takes an entry's stamp `t` as an integer. A parsed entry whose `t`
  is not a number never expires in the source, because `NaN > CACHE_TTL_MS` is false
  (app.js:148); such entries are not modelled.
- ScoreCache.FetchWeekGames reads and writes the cache at one time `now`, and the
  week oracle of Week.DetectCurrentWeek answers the probe and the full scan alike.
- ScoreCache.RawEventRecords writes a missing team abbreviation or state as the
  empty string rather than `undefined`.
- Escape.Decode knows only the four references the helpers produce. Other character
  references in the input are read literally.
- Standings.SeriesIsCumulative, Standings.RowIsReference and
  Standings.StandingsAreRankedReferenceRows assume distinct player ids; with shared
  ids the source's maps merge players.
- Standings.Snapshot states its one-entry append only for distinct ids. With shared ids
  the source pushes once per player onto the shared series, which
  Standings.SnapshotRepeats states.
- Standings.SeriesNeverDecreases assumes distinct ids, because it also states one entry
  per week. Standings.SeriesRises states the ordering without that assumption.
- Standings.PlayerWinsAreTeamWinsSum also assumes distinct player ids, a truthy player
  id, and that a player does not list the same code twice. With two entries sharing an
  id, each row shows the combined total but sums only its own teams.

## Findings

| source | as written | input that shows it | evidently intended | confidence | as-written member | corrected member |
|---|---|---|---|---|---|---|
| app.js:562-564 | `escapeAttr` replaces only '"', so a '&' in a player's name goes into the `value` attribute as is | a player named "&amp;": the editor shows "&", and saving the dialog stores "&" | escape '&' as well, so every value reads back unchanged | medium, not executed | Escape.EscapeAttrLosesReferences | Escape.EscapeAttrSafeRoundTrip |
