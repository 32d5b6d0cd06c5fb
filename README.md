# drawing-battle: a verified model of the battle pipeline

Drawing Battle is a web game. A player draws a character, and the server asks a
Gemini vision model to judge a battle between that character and a randomly
picked opponent. The verdict moves both characters' ranks and counters, and the
players compete on an all-time and a weekly leaderboard. This project models the
logic of that game in Dafny and proves what the code promises about it.

- `battle_route.dfy`, `judge.dfy`: the `POST /api/battle` handler, a class that
  owns the per-instance cooldown map and the database. It covers request
  validation and the 15-second cooldown, the choice of API endpoint among
  abstract per-endpoint outcomes, and the re-ranking of discovered models for the
  retry. It also covers reading the verdict out of the reply (fence stripping,
  the parse-success and parse-failure branches, whitespace collapsing, the
  100-character cut), the random verdict used when judging fails
  (win 20, loss -15, draw 0), `computeStats`, and the all-or-nothing
  transaction that updates both characters and appends the battle record.
- `battle_arena.dfy`: the client battle flow, a class over the component's
  state. It covers the cooldown pre-check and countdown, the opponent filter and
  pick, the request to the battle route, the update of the player's own document
  and the battle record, the `ready -> matching -> battling -> finished` state
  machine, and the choice of image reference. The route runs on the same
  database: the client re-reads both documents after the route has answered and
  does not look at `persisted`, so a battle the route committed is applied a
  second time to the player's document and gets a second ledger entry.
- `calendar.dfy`, `weekly_rankings.dfy`: `getWeekKey` over whole days counted
  from 1970-01-01, and how it compares with the ISO 8601 week date (section
  4.1.4 of ISO 8601:2004). Also the weekly leaderboard's limit clamp, its
  admin query path and its in-memory filter/sort/slice fallback.
- `report_route.dfy`, `uri.dfy`: `extractStoragePath` (`gs://` references, the
  two storage URL host forms, `decodeURIComponent` as section 19.2.6 of
  ECMAScript 2023 defines it) and the report `POST`, with its validation,
  truncation and persistence flags.
- `characters.dfy`: character create (the cap of 3, authorisation, the fresh
  record, the count increment) and delete (ownership, the storage object, the
  count floored at 0), over an in-memory database (`store.dfy`).
- `mock_data.dfy`, `rankings_route.dfy`, `sorting.dfy`: the demo data's helpers
  (every character by rank, one user's characters, a random opponent) and the
  rankings `GET` offset/limit window. They rest on a stable descending sort.
- `data_url.dfy`, `base64.dfy`, `text.dfy`: `dataURLToBlob` (RFC 2397 header,
  the lazy media-type capture, `atob` as the forgiving-base64 decode of the
  WHATWG Infra standard, section 4.6, and the byte loop). `Encode` is the padded
  encoding of section 4 of RFC 4648, which serves as its partner. The
  JavaScript string operations the routes use live in `text.dfy`.

Network calls, the database SDKs, `JSON.parse`, URL parsing, `Math.random` and
`Date.now` become parameters or oracles. The database is a `Db` class holding
maps.

## Model

| member | source | states |
|---|---|---|
| BattleRoute.CheckCooldown | app/api/battle/route.ts:17-23 | a request proceeds exactly when at least 15000 ms passed since the stored time (0 when absent); otherwise it waits `ceil((15000 - elapsed) / 1000)` seconds, which is 1..15 when the clock did not go back |
| BattleRoute.CooldownAfterAccept | app/api/battle/route.ts:17-24 | after a request is accepted at `t` and the map stores `t`, every request for that player before `t + 15000` waits, the first at or after it proceeds, and other players are unaffected |
| BattleRoute.WinRate | app/api/battle/route.ts:244 | the win rate of consistent counters lies between 0 and 100 |
| BattleRoute.StatsOfDecided | app/api/battle/route.ts:239-248 | for a win, loss or draw both totals rise by one, the player's win is the opponent's loss and the reverse, draws move together, exactly one counter of each side rises, and counters that agreed with the total keep agreeing |
| BattleRoute.StatsOfUndecided | app/api/battle/route.ts:198-248 | a result the judge returned outside win/loss/draw still adds a battle, so counters that agreed fall one short of the total |
| BattleRoute.RankTransfer | app/api/battle/route.ts:245-246 | both new ranks are at least 1; the player's is `max(1, (rank \|\| 1000) + delta)`; unless a side hits the floor the two ranks keep their sum |
| BattleRoute.ZeroRankIsFresh | app/api/battle/route.ts:246 | a stored rank of 0 is read as the starting rank 1000 |
| BattleRoute.StageWrites | app/api/battle/route.ts:268-318 | the transaction aborts exactly when a character document is missing; otherwise it writes the two characters and no other, stamps them with the server time and stages one ledger entry carrying both ids, the verdict and the ranks before and after |
| BattleRoute.PostRejectsMissingIds | app/api/battle/route.ts:12-14 | a body without both ids is answered 400 with the cooldown map, the characters and the ledger unchanged |
| BattleRoute.PostPersistence | app/api/battle/route.ts:250-335 | past the cooldown the answer is a success with the judge's verdict, the map stores `now` for the player, `persisted` holds exactly when the transaction commits with both documents present and a verdict that has a result (the ledger entry's undefined `result` makes `tx.set` throw), only then do characters and ledger change, then only the two named documents, and the ledger gains exactly this battle; the updated stats are returned exactly when the transaction ran |
| BattleRoute.PostCooldown | app/api/battle/route.ts:17-24 | a second request for the same player within 15 s of an accepted one is answered 429 with 1..15 seconds and changes nothing |
| BattleRoute.FreshWinExample | app/api/battle/route.ts:239-248 | two fresh characters after a win worth 20 stand at 1020 and 980 with the win and loss counted |
| BattleRoute.BattleHandler.Post | app/api/battle/route.ts:7-340 | the handler answers and updates its cooldown map and the database exactly as `PostSpec` says, and leaves users, reports and objects alone |
| BattleRoute.BattleHandler.Persist | app/api/battle/route.ts:251-325 | with no backend nothing is staged; otherwise the staged writes are applied only when the transaction commits and the verdict has a result, and the updated stats are returned whenever both documents exist |
| BattleRoute.BattleHandler.constructor | app/api/battle/route.ts:4-5 | a fresh server instance has an empty cooldown map |
| Judge.FirstOk | app/api/battle/route.ts:99-131 | the index found is in range and its attempt is ok, and every endpoint before it (all of them when none is found) failed |
| Judge.Tried | app/api/battle/route.ts:99-131 | the endpoints one loop fetches are a prefix of its list |
| Judge.TryEndpoints | app/api/battle/route.ts:99-131 | the loop fetches exactly `Tried`, returns a response exactly when some endpoint is ok and then the first ok one, and otherwise leaves the error of the last endpoint in `lastErr` |
| Judge.TriedShape | app/api/battle/route.ts:99-131 | of the endpoints one loop fetches every one but the last failed; the last is the first success when there is one, and with none the whole list was fetched and failed |
| Judge.IsFlashNameIncludes | app/api/battle/route.ts:151-152 | the case-insensitive `/flash/` test holds exactly when the ASCII-lower-cased name contains "flash" |
| Judge.GeneratingNames | app/api/battle/route.ts:145-156 | every name in the reference list is the string name of a listed model that supports generateContent |
| Judge.NamesWhereFlash | app/api/battle/route.ts:150-153 | each partition group holds only names of the flash-ness asked for |
| Judge.NamesWhereSplit | app/api/battle/route.ts:150-153 | the flash group and the other group together hold every name once (as a multiset) |
| Judge.FlashGroup | app/api/battle/route.ts:145-156 | filtering the models by generateContent and flash-ness and then keeping the string names equals partitioning the reference names |
| Judge.RetryNamesGroups | app/api/battle/route.ts:145-156 | the retry list is the flash group followed by the other group, each in listing order |
| Judge.RetryNamesOrder | app/api/battle/route.ts:145-159 | the retry list is a permutation of the generating string-named models' names, holds nothing else, and puts every flash name before every other name |
| Judge.SelectEndpoint | app/api/battle/route.ts:86-187 | the two loops choose the response, fetch the endpoints and request the listing, exactly as the reference function `SelectSpec` describes |
| Judge.SelectionOrder | app/api/battle/route.ts:99-183 | a chosen response is ok and is the last endpoint fetched; every endpoint fetched before it failed (all failed when none was chosen); the listing is requested exactly when every preferred endpoint failed and the last error mentions 404; a retry endpoint is fetched only after a listing arrived |
| Judge.StripFences | app/api/battle/route.ts:196 | the cleaned reply has no whitespace at either end |
| Judge.TrimPadded | app/api/battle/route.ts:196 | trimming whitespace padding off text with no whitespace at its ends gives exactly that text |
| Judge.OpenFenceTagged | app/api/battle/route.ts:196 | an opening fence tagged json in any case is dropped with its tag |
| Judge.OpenFencePlain | app/api/battle/route.ts:196 | an untagged opening fence is dropped alone |
| Judge.DropFences | app/api/battle/route.ts:196 | dropping the opening and the closing fence of a fenced body gives the body back |
| Judge.StripFencesOfFenced | app/api/battle/route.ts:196 | a reply that is a fenced body (json tag or none) padded with whitespace is cleaned to the trimmed body |
| Judge.NoOpenFence | app/api/battle/route.ts:196 | text not starting with three backticks does not start with the json-tagged fence in any case |
| Judge.StripFencesOfPlain | app/api/battle/route.ts:196 | trimmed text without fences is left unchanged |
| Judge.CollapseSpace | app/api/battle/route.ts:213 | each whitespace run becomes one space: the result is empty exactly when the input is, starts with whitespace exactly when the input does, is single-spaced and keeps every non-whitespace character in order |
| Judge.TrimSingleSpaced | app/api/battle/route.ts:213 | trimming keeps text single-spaced |
| Judge.TakeSingleSpaced | app/api/battle/route.ts:215 | cutting to a prefix keeps text single-spaced |
| Judge.NormaliseShape | app/api/battle/route.ts:212-216 | a normalised reasoning has at most 100 characters, no leading whitespace, only plain spaces and never two whitespace characters in a row, and the empty reasoning stays empty |
| Judge.RandomOutcome | app/api/battle/route.ts:207-225 | a random draw is always win, loss or draw |
| Judge.Fallback | app/api/battle/route.ts:217-236 | the error-path verdict is win, loss or draw with 20, -15 or 0 points respectively and empty reasoning |
| Judge.Decide | app/api/battle/route.ts:44-236 | the branch-by-branch updates of the result, reasoning and points give exactly `JudgeSpec` |
| Judge.ParsedVerdict | app/api/battle/route.ts:197-216 | a parsed reply's result is used unchecked, its numeric points as they are (0 when not a number) and its reasoning normalised |
| Judge.RandomVerdict | app/api/battle/route.ts:202-236 | whenever the result is drawn at random it is win, loss or draw with 20, -15 or 0 points, and the reasoning is the trimmed raw reply normalised, or "" when no reply text was obtained |
| Judge.FailedJudgingFallsBack | app/api/battle/route.ts:217-236 | without a key or with no ok endpoint, the verdict is the random fallback with empty reasoning |
| Judge.VerdictReasoningShape | app/api/battle/route.ts:202-235 | every verdict's reasoning has at most 100 characters, no leading whitespace and is single-spaced |
| BattleArena.DisplayImage | components/battle-arena.tsx:55-68 | `data:` and http(s) references are shown as they are |
| BattleArena.PlayerImageForAI | components/battle-arena.tsx:170-172 | the player's image is sent exactly when it is an http(s) URL, and then unchanged |
| BattleArena.OpponentImageForAI | components/battle-arena.tsx:158-167 | an http(s) opponent image is sent as it is, and an empty reference sends none |
| BattleArena.CountdownMonotone | components/battle-arena.tsx:87-98 | the countdown is never negative, never rises as time passes, falls while it is positive and stays 0 once it reached 0 |
| BattleArena.CountdownAfterBattle | components/battle-arena.tsx:249-255 | the countdown started after a battle is at most 15000 ms and reaches 0 exactly 15 s later |
| BattleArena.CheckBeforeStart | components/battle-arena.tsx:117-134 | the start is blocked exactly when a stored last battle is less than 15 s old, and then the remaining time is positive and equals the countdown; a failed or empty read never blocks |
| BattleArena.Opponents | components/battle-arena.tsx:144-146 | an opponent candidate is exactly a fetched character of another user that is not the playing character |
| BattleArena.ClientMirror | components/battle-arena.tsx:200-222 | for a decided result both new ranks are at least 1, both totals rise by one, the player's win is exactly the opponent's loss (and the reverse, and draws together), and exactly one counter of each side rises |
| BattleArena.ClientMatchesServer | components/battle-arena.tsx:200-213 | the client's new record for the player agrees field by field with the route's `computeStats`, except for a stored rank of 0 |
| BattleArena.SettleIgnoresState | components/battle-arena.tsx:184-265 | the state shown while waiting for the route's answer does not change how the battle settles |
| BattleArena.StartBlocked | components/battle-arena.tsx:117-134 | a recent battle stops the start before anything else: same state, a positive cooldown, no opponent query, no request to the route, no write |
| BattleArena.StartFlow | components/battle-arena.tsx:136-265 | a started battle passes matching (and battling once an opponent is picked) and ends finished with a full cooldown or back in ready; without an opponent nothing is sent or written; with one the route handles the request first, only the two battling documents ever change, the client then writes only the player's document (rank at least 1) on top of what the route left, and a finished battle adds exactly the client's ledger entry to the route's ledger |
| BattleArena.SettleFlow | components/battle-arena.tsx:184-265 | once the route has answered, the client settles on the store as the route left it: it ends finished or ready, writes only the player's document with a rank of at least 1, adds exactly its ledger entry when finished and none otherwise |
| BattleArena.Pick | components/battle-arena.tsx:142-152 | there is no opponent exactly when the query failed or no candidate qualifies, and a picked opponent is one of the candidates |
| BattleArena.RouteWrites | components/battle-arena.tsx:175-182 | the route the client posts to keeps the set of character documents and changes none but the player's and the opponent's |
| BattleArena.RoutePlayerUpdate | app/api/battle/route.ts:268-321 | a successful answer carries the judge's result and points; a persisted battle has already written `computeStats` of the stored player and added the route's entry ending at that rank, and an unpersisted one changed nothing |
| BattleArena.ClientReappliesPersistedBattle | components/battle-arena.tsx:185-241 | the client ignores `persisted`: after a persisted battle it re-reads the player's document the route updated and applies the battle again, so the player's total rises by two (by one when not persisted), the rank moves by twice the points away from the floor, and the client's ledger entry starts at the rank where the route's entry ended |
| BattleArena.StartRequest | components/battle-arena.tsx:142-182 | a request names the player and a fetched character of another user that is not the player, and the player's image in it is only ever an http(s) URL |
| BattleArena.Arena.constructor | components/battle-arena.tsx:40-47 | a new arena is ready, with no result, no opponent, the character's rank and image and no cooldown, over the given database and battle route |
| BattleArena.Arena.LoadImage | components/battle-arena.tsx:51-74 | the shown image becomes `DisplayImage` of the character's reference; nothing else in the view changes |
| BattleArena.Arena.LoadCooldown | components/battle-arena.tsx:77-113 | the cooldown becomes the countdown to 15 s after the stored last battle, 0 when there is none, and stays as it was when the read fails; nothing else changes |
| BattleArena.Arena.Tick | components/battle-arena.tsx:87-98 | a tick sets the cooldown to the non-negative countdown and changes nothing else, and the start button is then enabled exactly in the ready state once the cooldown's end is reached |
| BattleArena.StartButtonAfterStart | components/battle-arena.tsx:308 | after a press, the start button stays disabled when the start was blocked or the battle finished, and after a battle that fell back to ready it is enabled exactly when no cooldown ran before |
| BattleArena.StartButtonAfterTicks | components/battle-arena.tsx:308 | with the countdown the ticks set, the button is enabled exactly in the ready state once the cooldown's end is reached |
| BattleArena.Arena.StartBattle | components/battle-arena.tsx:115-266 | the step-by-step handler leaves the view, the route's cooldown map, the characters and the ledger exactly as `Start` says (the route's writes followed by the client's), passes through the states it lists and sends the request it names; users, reports and storage are untouched |
| BattleArena.Arena.Engage | components/battle-arena.tsx:152-182 | showing the pick, posting the request built from the current image to the route instance, which writes the shared database, and settling on its answer gives `Settle`'s view and writes on the store the route left |
| BattleArena.Arena.Conclude | components/battle-arena.tsx:184-265 | settling on the answer reads both documents from the database as it now is, writes the player's record and the ledger entry, or stops at the first failure (including the client SDK refusing an undefined `result`), exactly as `Settle` says |
| BattleArena.Arena.Show | components/battle-arena.tsx:243-257 | the view becomes the one given and the image is untouched |
| WeeklyRankings.LimitCases | app/api/rankings/weekly/route.ts:19 | the limit never exceeds 200, and an absent or empty parameter, text that does not start with a number, or "0" all give 100 |
| WeeklyRankings.LimitOfNumber | app/api/rankings/weekly/route.ts:19 | a positive decimal number gives itself, capped at 200 |
| WeeklyRankings.InWeek | app/api/rankings/weekly/route.ts:63 | a document is kept exactly when its stored week key is the current one |
| WeeklyRankings.ScanRows | app/api/rankings/weekly/route.ts:62-79 | one row per scanned document, in order, each showing the weekly counters under the stored id |
| WeeklyRankings.AdminRows | app/api/rankings/weekly/route.ts:41-55 | one row per queried document, in order, under the stored id or the document key when that is empty |
| WeeklyRankings.FallbackShape | app/api/rankings/weekly/route.ts:60-79 | the fallback rows are the rows of the week's top `lim` characters: `min(lim, n)` of the `n` characters of the week, none shown more often than the week holds it, no character left out with more weekly points than one shown, in non-increasing weekly points, each showing a character of the current week |
| WeeklyRankings.FallbackTop | app/api/rankings/weekly/route.ts:63-67 | the first `lim` of the sorted week are part of the week, at most `lim` of them, in non-increasing points, and every character left out has no more points than every one kept |
| WeeklyRankings.TopRowsOfWeek | app/api/rankings/weekly/route.ts:62-79 | rows built from documents of the week each show a document of the week |
| WeeklyRankings.FallbackTies | app/api/rankings/weekly/route.ts:65-66 | characters with equal weekly points keep their scan order |
| WeeklyRankings.FallbackNegativeLimit | app/api/rankings/weekly/route.ts:19-67 | a negative limit is not rejected; the slice then drops that many characters from the end of the week's list |
| WeeklyRankings.Get | app/api/rankings/weekly/route.ts:16-88 | the response always carries the current week key; the admin query serves one row per returned document, a failed query serves an empty list and a full scan serves the fallback rows for the parsed limit |
| WeeklyRankings.DefaultScan | app/api/rankings/weekly/route.ts:19-84 | with no limit parameter a scan serves at most 100 rows, all of the current week |
| Calendar.YearLength | app/api/rankings/weekly/route.ts:7-10 | consecutive 1 January day numbers are 366 days apart in a Gregorian leap year and 365 otherwise |
| Calendar.KeyDayInYear | app/api/rankings/weekly/route.ts:7 | the day of a valid civil date lies in its (two-digit-adjusted) year |
| Calendar.YearNear | app/api/rankings/weekly/route.ts:12 | the UTC year of a day within a year of `y` is the year holding that day, and one of `y - 1`, `y`, `y + 1` |
| Calendar.ThursdayForm | app/api/rankings/weekly/route.ts:8-9 | the weekday from Monday is `(n + 3) mod 7` and the shifted day is a whole number of weeks from 1970-01-01, a Thursday |
| Calendar.ThursdayFacts | app/api/rankings/weekly/route.ts:8-9 | `dayNum` is 0..6 and 0 exactly on Mondays, and the shift lands on a Thursday at most three days away |
| Calendar.ThursdayShift | app/api/rankings/weekly/route.ts:8-12 | for a civil date: `dayNum` is 0..6 with Monday 0, the shifted day is a Thursday at most three days away, and the key's year is the year holding that Thursday |
| Calendar.WeekNumberFloor | app/api/rankings/weekly/route.ts:11 | for whole days, `1 + round(((t - first) - 3) / 7)` equals `1 + floor((t - first) / 7)` |
| Calendar.KeyWeekFloor | app/api/rankings/weekly/route.ts:10-11 | outside the two-digit years, the week number counts whole weeks from 4 January of the key's year and lies in 0..52 |
| Calendar.SameWeekSameKey | app/api/rankings/weekly/route.ts:8-13 | two dates whose shifted Thursday is the same day get the same key |
| Calendar.ThursdayOfWeek | app/api/rankings/weekly/route.ts:8-9 | every day from a Monday to the Sunday after it is shifted to the same Thursday, three days after that Monday |
| Calendar.OneKeyPerWeek | app/api/rankings/weekly/route.ts:8-13 | all seven days of a Monday-to-Sunday week get the same key |
| Calendar.NextWeek | app/api/rankings/weekly/route.ts:8-11 | a date and the date seven days later get week numbers one apart when the key's year is the same |
| Calendar.WeekNumberNext | app/api/rankings/weekly/route.ts:9-11 | the week number of the day seven later is one more |
| Calendar.ThursdayNextWeek | app/api/rankings/weekly/route.ts:9 | the shifted Thursday of the day seven later is seven days later |
| Calendar.KeyWeekVersusIso | app/api/rankings/weekly/route.ts:6-11 | the key's week equals the ISO 8601 week number when 4 January of the key's year falls Monday to Thursday, and is one less when it falls Friday to Sunday |
| Calendar.WeekVersusIso | app/api/rankings/weekly/route.ts:10-11 | the same comparison for any day number and a year the two-digit rule leaves alone |
| Calendar.Jan2nd2020 | app/api/rankings/weekly/route.ts:5-14 | 2 January 2020 gets the key "2020-W00" while ISO 8601 puts it in week 1 |
| Calendar.MonthStart | app/api/rankings/weekly/route.ts:7 | the days before a month, plus that month's days, never exceed the year's length |
| ReportRoute.GsPath | app/api/report/route.ts:20-22 | the path of a `gs://` reference is everything after the first `/` following the bucket, and there is none when no `/` follows or nothing follows it |
| ReportRoute.AfterFirst | app/api/report/route.ts:28 | the piece after the first `/o/` exists exactly when `/o/` occurs; it starts right after that occurrence and holds no `/o/` itself |
| ReportRoute.NonSlashRun | app/api/report/route.ts:32 | the greedy `[^/]+` run has no slash and stops at a slash or the end |
| ReportRoute.LineRun | app/api/report/route.ts:32 | the greedy `.+` run has no line terminator and stops at one or at the end |
| ReportRoute.MatchAt | app/api/report/route.ts:32 | a capture of `/\/b\/[^/]+\/o\/(.+)/` is non-empty and free of line terminators |
| ReportRoute.MatchIndex | app/api/report/route.ts:32 | the match found is the leftmost one: it matches and nothing before it does; with none found, no position matches |
| ReportRoute.ExtractStoragePath | app/api/report/route.ts:16-41 | an absent or empty reference gives undefined, and any path returned is non-empty |
| ReportRoute.UrlPath | app/api/report/route.ts:26-37 | any path a parsed URL gives is non-empty |
| ReportRoute.AppPath | app/api/report/route.ts:27-30 | any path a `*.firebasestorage.app` URL gives is non-empty |
| ReportRoute.HttpInput | app/api/report/route.ts:19-25 | an http(s) reference is parsed as a URL and resolved by host |
| ReportRoute.AppPathOf | app/api/report/route.ts:28-29 | a `<prefix>/o/<encoded name>` path decodes back to the name (undefined for the empty name) when the prefix holds no `/o/` |
| ReportRoute.ExtractGs | app/api/report/route.ts:19-23 | `gs://bucket/a/b` gives `a/b`, and `gs://bucket` with no path gives undefined |
| ReportRoute.EncodedHasNoDelimiters | app/api/report/route.ts:28-32 | percent-encoded text holds no `/`, `?` or line terminator |
| ReportRoute.IndexOfAfter | app/api/report/route.ts:28 | the first separator in `x + sep + y` is the one after `x` when none occurs earlier |
| ReportRoute.AppSegment | app/api/report/route.ts:28 | the piece after the first `/o/` of `<prefix>/o/<encoded>` is the encoded text, which `split('?')` leaves whole |
| ReportRoute.ExtractFirebaseApp | app/api/report/route.ts:24-30 | a `*.firebasestorage.app` URL with path `<prefix>/o/<encoded name>` gives the name back |
| ReportRoute.NoEarlyMatch | app/api/report/route.ts:32 | no match starts inside a prefix holding no `/b/` |
| ReportRoute.MatchBucket | app/api/report/route.ts:32 | at the start of `/b/<bucket>/o/<encoded>` the pattern captures the encoded text |
| ReportRoute.ApisMatch | app/api/report/route.ts:32 | in `<prefix>/b/<bucket>/o/<encoded>` the leftmost match starts after the prefix and captures the encoded text |
| ReportRoute.ExtractGoogleApis | app/api/report/route.ts:24-34 | a `firebasestorage.googleapis.com` URL with path `<prefix>/b/<bucket>/o/<encoded name>` gives the name back |
| ReportRoute.ExtractMalformedEscape | app/api/report/route.ts:29-39 | a malformed escape in the object name makes decoding throw, which gives undefined |
| ReportRoute.ExtractPassesThrough | app/api/report/route.ts:24-37 | any other reference comes back unchanged: neither `gs://` nor http(s), a URL on another host, or a googleapis URL whose path does not match |
| ReportRoute.ErrorText | app/api/report/route.ts:113 | the error text is the exception's message, or "admin unavailable" for an empty one |
| ReportRoute.Truncated | app/api/report/route.ts:52-59 | the stored reason is the first `min(120, n)` characters of the input and the details the first at most 1000; the other fields are copied |
| ReportRoute.NonEmpty | app/api/report/route.ts:88-89 | an empty string field is stored as undefined and any other as it is |
| ReportRoute.TargetSnapshot | app/api/report/route.ts:83-99 | a snapshot is taken only for a character target whose document was read; its image is the document's, and a stored `storagePath` takes precedence over the path derived from the image |
| ReportRoute.ReportDoc | app/api/report/route.ts:101-110 | the stored report carries its id, the server time, the status "pending" and the snapshot's storage path |
| ReportRoute.PostRejectsMissingFields | app/api/report/route.ts:49-51 | a body without a target type, a target id or a reason is answered 400 and nothing is written |
| ReportRoute.PostPersistence | app/api/report/route.ts:52-115 | a valid report is always a success; it is persisted exactly when the database is reachable, the document has no undefined field and the write succeeds, only then does the collection change, gaining exactly the "pending" record with the truncated reason; an error text comes back exactly when nothing was persisted, and the id once the database was reached |
| ReportRoute.PostStoragePath | app/api/report/route.ts:83-107 | the document for a reported character carries its own `storagePath` when present, otherwise the one derived from its image, and a persisted report stores exactly that document |
| ReportRoute.UndefinedFieldsNotPersisted | app/api/report/route.ts:52-114 | a report on a battle or a user, on a character that was not read, or without details or reporter information stores `undefined` fields, so the admin SDK's `set` throws: nothing is written and the answer is `persisted: false` with the id and an error naming the first such field |
| ReportRoute.Post | app/api/report/route.ts:43-119 | the flags set around the write, including the SDK's refusal of undefined fields, give exactly the answer and the reports collection `PostSpec` describes, with the other collections untouched |
| Characters.NewCharacter | app/api/characters/create/route.ts:33-46 | a new character carries the requested id, name and owner, rank 1000, no battles and a win rate of 0, so its counters agree |
| Characters.CreateRefusals | app/api/characters/create/route.ts:9-30 | a missing field gives 400, then a missing authorization header 401, then a failed read of the user document 500, then an unknown user 404, then a full account 400, and none of them writes anything |
| Characters.CreateSuccess | app/api/characters/create/route.ts:33-60 | a successful create stores exactly the new character under its id with the image path `characters/<userId>/<imageUrl>` and raises its owner's count by one to at most 3, and only when no database call threw |
| Characters.CreateKeepsCountsInRange | app/api/characters/create/route.ts:27-54 | creates keep every stored count between 0 and 3, whether they succeed, are refused or fail part-way |
| Characters.CreateCountWriteFails | app/api/characters/create/route.ts:48-69 | when the count update fails after the character was written, the character stays stored without being counted and the answer is 500 |
| Characters.Create | app/api/characters/create/route.ts:5-70 | the create route answers and updates characters and users exactly as `CreateSpec` says, and touches nothing else |
| Characters.Decremented | app/api/characters/delete/route.ts:47 | the decremented count is one less, but never below 0 |
| Characters.DeleteRefusals | app/api/characters/delete/route.ts:10-25 | a missing id gives 400 exactly when an id is missing; once the ids are present, a failed read of the character gives 500, and otherwise an unknown character gives 404 and an owner mismatch 403, each exactly in its case; none of these changes anything |
| Characters.DeleteSuccess | app/api/characters/delete/route.ts:28-54 | a successful delete of an owned character removes exactly that document, its image `characters/<userId>/<characterId>.png` unless the storage deletion failed, and lowers the owner's count to `max(0, count - 1)` only when the owner's document exists, and only when neither read nor the document deletion threw |
| Characters.DeleteIgnoresStorageFailure | app/api/characters/delete/route.ts:28-38 | a failed storage deletion does not stop the document deletion |
| Characters.DeleteLateFailures | app/api/characters/delete/route.ts:38-58 | a delete whose read of the user or count update throws answers 500 with the character document and (unless its deletion failed) the image already gone, and the owner's count unchanged |
| Characters.DeleteKeepsCountsInRange | app/api/characters/delete/route.ts:41-49 | deletes keep every stored count between 0 and 3 |
| Characters.Delete | app/api/characters/delete/route.ts:6-59 | the delete route answers and updates characters, users and storage exactly as `DeleteSpec` says, and touches nothing else |
| MockData.FindUser | lib/mock-data.ts:103-113 | `find` gives none exactly when no user has the id, and otherwise the first user that has it |
| MockData.CurrentUserExists | lib/mock-data.ts:29-103 | `find` on the demo data finds the current user as the first user, so the non-null assertion holds |
| MockData.InFlatten | lib/mock-data.ts:107-119 | a character is in the flattened list exactly when some user holds it |
| MockData.FlattenMultiset | lib/mock-data.ts:107 | flattening keeps every character of every user as often as the users hold it |
| MockData.FlattenEmpty | lib/mock-data.ts:119-121 | the flattened list is empty exactly when no user has a character |
| MockData.AllCharactersByRank | lib/mock-data.ts:106-109 | the result is a permutation of all users' characters, sorted by rank with the highest first |
| MockData.AllCharactersByRankStable | lib/mock-data.ts:108 | characters of equal rank keep the order in which their users list them |
| MockData.UserCharacters | lib/mock-data.ts:112-115 | an unknown id gives [], and otherwise the characters of the first user with that id |
| MockData.Others | lib/mock-data.ts:119 | every user kept has an id other than the requester's, and every such user is kept |
| MockData.RandomOpponent | lib/mock-data.ts:118-124 | there is no opponent exactly when no other user owns a character; any opponent returned belongs to another user, for every draw in [0, 1) |
| MockData.DemoOpponent | lib/mock-data.ts:29-124 | the demo's current user always gets an opponent, whatever the draw |
| RankingsRoute.Param | app/api/rankings/route.ts:7-8 | an absent or empty query parameter takes the fallback, and any other is used as it is |
| RankingsRoute.SafeLimit | app/api/rankings/route.ts:7-10 | a numeric page size is never above 100 |
| RankingsRoute.SafeLimitDefault | app/api/rankings/route.ts:7-10 | an absent or empty limit gives a page size of 100 |
| RankingsRoute.SafeLimitOfNumber | app/api/rankings/route.ts:7-10 | a decimal limit gives `min(limit, 100)` |
| RankingsRoute.Get | app/api/rankings/route.ts:5-36 | `count` is the number of characters returned, at most the page size, and the parsed offset and page size are echoed unchanged |
| RankingsRoute.Window | app/api/rankings/route.ts:13-31 | the same, for a parsed limit and offset |
| RankingsRoute.WindowOfRanked | app/api/rankings/route.ts:13-23 | when the database returns the top `limit + offset` of the rank-ordered list, the page is exactly its elements from `offset` up to `offset + limit` |
| RankingsRoute.GetWindow | app/api/rankings/route.ts:5-31 | a request's page is that window of the rank-ordered list, with its offset and page size echoed |
| Random.PickIndex | lib/mock-data.ts:123 | `Math.floor(Math.random() * n)` is an index into a list of length `n` |
| DataUrl.SplitAtComma | lib/utils.ts:10 | a header and a payload without commas, joined by one comma, split back into exactly that header and that payload |
| DataUrl.LazyEnd | lib/utils.ts:11 | the lazy `.*?` that starts at `k` stops at the least index where `;base64` follows with no line terminator in between, and fails only when there is no such index |
| DataUrl.MatchAt | lib/utils.ts:11 | a match that starts at `i` ends its capture after `data:` and inside the header |
| DataUrl.FirstMatch | lib/utils.ts:11 | `exec` takes the leftmost index where a match starts, and reports none exactly when no index starts one |
| DataUrl.Mime | lib/utils.ts:11-12 | the media type is never empty: a missing match or an empty capture gives "image/png" |
| DataUrl.CloseAfter | lib/utils.ts:11 | in `data:` + m + `;base64` the capture may stop before the final marker, and the marker occurs nowhere earlier |
| DataUrl.LazyEndOf | lib/utils.ts:11 | the lazy capture stops right before the final marker |
| DataUrl.CaptureOf | lib/utils.ts:11 | the capture of `data:(.*?);base64` in `data:` + m + `;base64` is m |
| DataUrl.MimeOf | lib/utils.ts:11-12 | a header `data:` + m + `;base64` names the media type m |
| DataUrl.MimeDefault | lib/utils.ts:11-12 | a header in which `data:` never occurs names "image/png" |
| DataUrl.BlobType | lib/utils.ts:17 | the `Blob` keeps a printable type lower-cased character by character and turns any other type into "" |
| DataUrl.BlobTypeOfLower | lib/utils.ts:17 | a printable type without capitals is kept unchanged |
| DataUrl.ToUint8 | lib/utils.ts:16 | storing a character code into a `Uint8Array` keeps the code modulo 256 |
| DataUrl.Codes | lib/utils.ts:14-16 | the byte array has one element per character of the decoded string, each its code modulo 256 |
| DataUrl.StoreCodes | lib/utils.ts:14-16 | the loop fills a fresh array of the decoded string's length with those bytes |
| DataUrl.DataUrlToBlob | lib/utils.ts:9-18 | the result is the Blob of the payload's bytes and the normalised media type, or the error that `atob` raises |
| DataUrl.CodesOfBinary | lib/utils.ts:13-16 | the codes of a binary string are the bytes it was built from |
| DataUrl.NoCommaInEncoding | lib/utils.ts:10-13 | a base64 encoding holds no comma, so the split cannot cut the payload |
| DataUrl.DataUrlRoundTrip | lib/utils.ts:9-18 | the data URL of media type m and the base64 encoding of the bytes bs becomes a Blob of exactly bs, typed m as the Blob keeps it |
| DataUrl.NoPayload | lib/utils.ts:10-13 | a data URL without a comma gives a Blob of no bytes |
| DataUrl.InvalidPayload | lib/utils.ts:10-13 | a payload `atob` rejects, such as a lone base64 character, makes the conversion fail |
| Sorting.Insert | lib/mock-data.ts:108 | inserting into a list sorted by descending key keeps it sorted and adds one element |
| Sorting.InsertMultiset | lib/mock-data.ts:108 | insertion adds the new element and loses none of the others |
| Sorting.SortDesc | lib/mock-data.ts:108 | `sort((a, b) => b.rank - a.rank)` returns a permutation of its input, sorted with the highest key first |
| Sorting.WithKeyInsert | lib/mock-data.ts:108 | insertion places the new element before every element of equal key |
| Sorting.SortDescStable | lib/mock-data.ts:108 | the sort is stable: for every key, the elements with that key keep their relative order |
| Sorting.SortedPrefix | app/api/rankings/weekly/route.ts:65-67 | cutting a sorted list after `n` elements keeps part of it, leaves out exactly the rest, and leaves out nothing with a larger key than anything kept |
| Sorting.WithKeyAbove | lib/mock-data.ts:108 | in a sorted list no element after the head has a key above the head's |
| Text.TrimStart | app/api/battle/route.ts:196 | the result is a suffix of the input that does not start with whitespace |
| Text.TrimStartSpaces | app/api/battle/route.ts:196 | everything `trimStart` drops is whitespace |
| Text.TrimEnd | app/api/battle/route.ts:196 | the result is a prefix of the input that does not end with whitespace |
| Text.TrimEndSpaces | app/api/battle/route.ts:196 | everything `trimEnd` drops is whitespace |
| Text.Trim | app/api/battle/route.ts:196-213 | `trim` gives a text no longer than the input, with whitespace at neither end |
| Text.TrimOccurs | app/api/battle/route.ts:196-213 | the trimmed text is the contiguous piece of the input that begins after its leading whitespace |
| Text.TrimOfTrimmed | app/api/battle/route.ts:213 | a text with no whitespace at either end is its own trim |
| Text.Contains | app/api/battle/route.ts:219 | `includes` holds exactly when the pattern occurs at some index |
| Text.IncludesContains | app/api/battle/route.ts:135 | trying each start in turn and searching for the first occurrence agree |
| Text.IndexOf | app/api/report/route.ts:28 | the search finds the first index at which the pattern occurs, and reports none exactly when it occurs nowhere |
| Text.SliceBound | app/api/rankings/route.ts:23 | `slice` counts a negative bound from the end, clamps it at 0, and clamps any bound at the length |
| Text.Slice | app/api/rankings/route.ts:23 | for bounds `0 <= start <= end` the slice is the elements from `start` to `end`, each clamped at the length |
| Text.SliceLength | app/api/rankings/route.ts:23 | a slice is never longer than the distance between its bounds |
| Text.Take | app/api/battle/route.ts:215 | `slice(0, n)` is the first n elements, or the whole input when it is shorter |
| Text.PadStart | app/api/rankings/weekly/route.ts:13 | `padStart` ends with the input, reaches the target length when the input is shorter, and fills the front with the pad character |
| Text.DigitChar | app/api/rankings/weekly/route.ts:13 | a digit below ten is written as the character of that value |
| Text.NatToString | app/api/rankings/weekly/route.ts:13 | `String(n)` writes at least one digit, and exactly one for numbers below ten |
| Text.NatToStringValue | app/api/rankings/weekly/route.ts:13 | `String(n)` is made of decimal digits whose value is n |
| Text.DigitValue | app/api/rankings/route.ts:7 | a digit's value is below its base, and in base ten exactly '0'..'9' are digits |
| Text.DigitRun | app/api/rankings/route.ts:7 | the run of leading digits is as long as possible |
| Text.LeadingValueAll | app/api/rankings/route.ts:7 | a text made only of decimal digits is read in full |
| Text.ParseIntOfDigits | app/api/rankings/route.ts:7-8 | `parseInt` reads a text of decimal digits as its value, with or without an explicit radix |
| Text.ParseIntUnsigned | app/api/rankings/route.ts:7-8 | without leading whitespace, sign or "0x" prefix, `parseInt` reads the leading decimal digits |
| Text.ParseIntOfNatToString | app/api/rankings/weekly/route.ts:19 | `parseInt` reads back what `String` wrote |
| Text.ToLowerAscii | lib/utils.ts:17 | lower-casing maps 'A'..'Z' to 'a'..'z' and leaves every other character alone |
| Text.LowerAscii | lib/utils.ts:17 | a text is lower-cased character by character |
| Text.LowerAsciiConcat | lib/utils.ts:17 | lower-casing distributes over concatenation |
| Text.Split | app/api/report/route.ts:20-28 | `split` gives at least one piece, no piece holds the separator, and a text without it is its own only piece |
| Text.FirstIndexOf | app/api/report/route.ts:20 | the index found holds the separator and none comes before it |
| Text.JoinSplit | app/api/report/route.ts:20-22 | joining what `split` cut with the same separator gives back the original text |
| Text.SplitTail | app/api/report/route.ts:20-22 | dropping the first piece and joining the rest gives the text after the first separator, and nothing when there is no separator |
| Uri.EscapedByte | app/api/report/route.ts:29-33 | an escape `%XX` stands for a byte below 256 and takes three characters |
| Uri.EscapedBytes | app/api/report/route.ts:29-33 | n consecutive escapes give n bytes and take 3n characters |
| Uri.DecodeUnit | app/api/report/route.ts:29-33 | each decoding step consumes at least one character and no more than the input holds |
| Uri.Decode | app/api/report/route.ts:29-33 | `decodeURIComponent` never lengthens its input and gives "" only for "" |
| Uri.DecodePlain | app/api/report/route.ts:29-33 | text without `%` decodes to itself |
| Uri.HexDigit | app/api/report/route.ts:29-33 | the hex digit written for a value below 16 is read back as that value |
| Uri.Utf8 | app/api/report/route.ts:29-33 | a Unicode scalar value is written as one to four bytes |
| Uri.Utf8Valid | app/api/report/route.ts:29-33 | those bytes are one well-formed UTF-8 sequence of the same code point: the lead byte gives the length, the rest are continuation bytes, and the form is the shortest |
| Uri.Utf8ValidTwo | app/api/report/route.ts:29-33 | the same for the two-byte form |
| Uri.Utf8ValidThree | app/api/report/route.ts:29-33 | the same for the three-byte form |
| Uri.Utf8ValidFour | app/api/report/route.ts:29-33 | the same for the four-byte form |
| Uri.PercentBytes | app/api/report/route.ts:29-33 | escaping writes three characters per byte |
| Uri.EncodeChar | app/api/report/route.ts:29-33 | `encodeURIComponent` writes at least one character per character |
| Uri.EscapedPercentBytes | app/api/report/route.ts:29-33 | the escapes written for some bytes are read back as exactly those bytes |
| Uri.DecodeUnitOfEncoded | app/api/report/route.ts:29-33 | the encoding of one character decodes to that character in one step that consumes exactly the encoding |
| Uri.DecodeUnitOfPercent | app/api/report/route.ts:29-33 | the escapes of a well-formed UTF-8 sequence decode to its code point |
| Uri.DecodeEncode | app/api/report/route.ts:29-33 | `decodeURIComponent` undoes `encodeURIComponent` for every text |
| Uri.EncodedIsUnreservedOrEscape | app/api/report/route.ts:29-33 | an encoded text holds only unreserved characters, `%` and hex digits |
| Uri.PercentBytesChars | app/api/report/route.ts:29-33 | escapes hold only `%` and hex digits |
| Uri.DecodeErrors | app/api/report/route.ts:29-40 | a lone `%`, a byte that cannot start a sequence and an escaped surrogate are URIErrors, which the caller turns into no path |
| Base64.AlphabetChar | lib/utils.ts:13 | the character written for a six-bit value is read back as that value |
| Base64.AlphabetValue | lib/utils.ts:13 | an alphabet character carries six bits |
| Base64.StripWhitespace | lib/utils.ts:13 | removing ASCII whitespace never lengthens the text |
| Base64.StrippedClean | lib/utils.ts:13 | what is left holds no ASCII whitespace |
| Base64.StripNothing | lib/utils.ts:13 | a text without whitespace is left as it is |
| Base64.Value | lib/utils.ts:13 | an alphabet character's value is below 64 |
| Base64.DecodeQuantum | lib/utils.ts:13 | a quantum of 2, 3 or 4 characters decodes to one byte fewer than it has characters |
| Base64.DecodeBody | lib/utils.ts:13 | a text of alphabet characters decodes to 3 bytes per group of 4, 1 for a final 2 and 2 for a final 3 |
| Base64.DecodedLengthStep | lib/utils.ts:13 | four more characters give three more bytes |
| Base64.BinaryString | lib/utils.ts:13 | a binary string has one character per byte, whose code is that byte |
| Base64.Atob | lib/utils.ts:13 | every character `atob` returns has a code below 256 |
| Base64.EncodeQuantum | lib/utils.ts:13 | a quantum of 1, 2 or 3 bytes is written as one more alphabet character than it has bytes |
| Base64.EncodedLengthStep | lib/utils.ts:13 | three more bytes give four more characters |
| Base64.EncodeBody | lib/utils.ts:13 | the unpadded encoding is made of alphabet characters, 4 per 3 bytes, and never leaves a remainder of 1 modulo 4 |
| Base64.EncodedLengthMod | lib/utils.ts:13 | no number of bytes is written as one character more than a multiple of four |
| Base64.EncodedLengthSmall | lib/utils.ts:13 | one, two or three bytes take one character more than they have bytes |
| Base64.Encode | lib/utils.ts:13 | the padded encoding's length is a multiple of four |
| Base64.PaddedLength | lib/utils.ts:13 | the padding fills the last group to four characters |
| Base64.Regroup | lib/utils.ts:13 | the six-bit pieces of three bytes give back the bytes |
| Base64.QuantumValues | lib/utils.ts:13 | the characters of an encoded quantum carry the six-bit pieces of its bytes |
| Base64.DecodeEncodeQuantum | lib/utils.ts:13 | decoding an encoded quantum gives back its bytes |
| Base64.DecodeInverse | lib/utils.ts:13 | characters that carry the six-bit pieces of some bytes decode to those bytes |
| Base64.DecodeAppend | lib/utils.ts:13 | decoding a group of four followed by more decodes the group, then the rest |
| Base64.DecodeOneQuantum | lib/utils.ts:13 | a text of two to four alphabet characters is one quantum |
| Base64.DecodeEncodeBody | lib/utils.ts:13 | decoding the unpadded encoding of any bytes gives back the bytes |
| Base64.DropEncodedPadding | lib/utils.ts:13 | removing the padding of an encoding leaves exactly its alphabet characters |
| Base64.DropTwoPads | lib/utils.ts:13 | two trailing `=` come off a text whose length is a multiple of four |
| Base64.DropOnePad | lib/utils.ts:13 | one trailing `=` comes off a text of alphabet characters whose length is a multiple of four |
| Base64.DropNoPad | lib/utils.ts:13 | a text of alphabet characters whose length is a multiple of four keeps every character |
| Base64.AtobEncode | lib/utils.ts:13 | `atob` undoes the padded encoding: every byte comes back as one character |
| Base64.NoWhitespace | lib/utils.ts:13 | alphabet characters followed by padding hold no whitespace |
| Base64.AtobCases | lib/utils.ts:13 | the empty text decodes to nothing, while a lone character and a character outside the alphabet are errors |

## Left out

- Gemini HTTP requests, `fetchAsBase64`, `Buffer` base64 and the request body with its prompt and image parts (app/api/battle/route.ts:27-39, 52-98) are external I/O. Each endpoint's fetch is a given outcome (ok with text, HTTP error, thrown), and the model-listing call is a given list or failure.
- `JSON.parse` of the reply is an oracle that returns the optional `result`, `reasoning` and `pointsChange` fields. A `pointsChange` that is a number with a fraction is not modelled: numbers are integers.
- `new URL` is an oracle giving a hostname and pathname. A URL it cannot parse makes `extractStoragePath` give no path, as its `catch` does.
- `Math.random` is a real in [0, 1) and `Date.now` an integer, both passed in. The random battle and report ids are parameters.
- `serverTimestamp()` is an integer passed in. Firestore transaction retries, the SDK clients and `firebase-admin` initialisation are not modelled: a transaction either commits, fails, or finds the admin database unavailable. Of the SDKs' validation only the refusal of `undefined` field values is modelled, and the admin SDK's message is reduced to the sentence naming the field.
- A JSON `null` in the report body's optional fields, or a `result` of `null`, is a defined value and is not told apart from other values; only absent fields are `undefined`.
- The cooldown map belongs to one server instance. Races between concurrent requests and between instances are not modelled.
- `winRate` is a Dafny `real`, not an IEEE double. Its rounding and the `toFixed(1)` display are not modelled.
- `getWeekKey` reads the local calendar date (`getFullYear`/`getMonth`/`getDate`). The model takes that civil date as given, so the time zone is not modelled.
- The admin weekly query (`where`, `orderBy`, `limit`) is modelled as the list of documents it returns. How Firestore orders documents with equal points is not modelled.
- Weekly counters that no code writes read as 0, as the `|| 0` defaults give.
- Character documents not written by the create route are not modelled: rank and the lifetime counters are always present. A document missing a counter, which turns the client's `player.wins + 1` into NaN, is outside the model.
- React rendering, `setInterval` and `setTimeout` scheduling, the 700 ms matching delay, toasts and routing are not modelled. The countdown is modelled as a function of the current time, and each timer callback as one method call.
- A `char` is a Unicode scalar value. It matches one UTF-16 code unit only inside the Basic Multilingual Plane: for a character outside it, `length`, `slice`, `trim` and `padStart` count one unit where JavaScript counts two, and lone surrogates cannot be represented. In `Uri`, a four-byte UTF-8 sequence decodes to one character, not to a surrogate pair.
- A JSON field that holds a non-string value where the route expects a string (`targetType`, `reason`, the ids) is not modelled: every field is a string or absent.
- `parseInt` giving NaN is modelled as `None`. A page size or offset that is NaN or negative follows the resulting `slice` bounds.
- Only `id`, `userId` and `rank` of the demo characters feed the helpers. The other fields are kept as data, and the placements on screen are not modelled.
- `cn` in lib/utils.ts is class-name merging for styling and is not modelled.
- Thin wrappers that only forward to the modelled routes are not modelled: the API client, the match and per-user routes, analytics, the mock login and the canvas helpers.
- Text.Trim: its own contract states only the bounds and the absence of whitespace at the ends. That it is the contiguous piece of the input after the leading whitespace is stated by Text.TrimOccurs.
