# steam-common-games in Dafny

steam-common-games is a small web service. Steam users sign in, gather in a
lobby that has a random id, and are shown up to three games whose appid
is counted as often as there are lobby members (when no library lists a
game twice, the games every member owns), together with whether each game
is multiplayer or co-op.
This project models the bookkeeping the server does between the network
calls, and proves properties of it:

- **Lobby registry** (`Lobbies`). The `lobbies` dictionary of `Lobby`
  objects is a `Registry` class. Its methods update the member lists in
  place: creating a lobby, joining, leaving, re-joining on reconnect, and
  reading the members' nicknames. Leaving and re-joining are modelled as
  the code writes them. Their predicates compare each member with itself,
  so the registry checks nothing about the user's identity (see
  "## Findings"). The comparison the code evidently meant is defined
  beside them under its own names: the list functions `AddedIfAbsent` and
  `RemovedByOpenId`, and the registry methods `AddUserToLobbyIfAbsent` and
  `RemoveUserByOpenId`.
- **Sign-in** (`Users`). The identity provider's verify callback looks the
  user up in the user store. With one match it updates it, with none it
  creates a user, and with more than one it refuses. It is a pure
  function, `VerifyUser`, and a `UserStore` class whose method `Verify`
  is proved equal to it.
- **Common games** (`CommonGames`). `getCommonGames` counts appid
  occurrences across the members' owned-games lists in a loop. It keeps
  the appids counted as often as there are members, in the key order of
  `Object.keys`, and passes the first three to the resolution.
- **Game record resolution** (`GameCache`, `AppDetails`).
  `resolveGameInfos` splits the requested appids into hits and misses
  against the games store. It hands the misses to a fetcher, writes the
  fetched records back, and calls back with the cached records followed by
  the fetched ones. `getGameInfoApi` maps the store's category ids 1 and 9
  to the multiplayer and co-op flags.
- **steamdb scraper** (`SteamdbScraper`). `hasTag` is a substring test.
  The first match of `/store_tags<\/td>\n(.*)\n/` follows the ECMAScript
  rule that `.` matches anything except the four line terminators (LF, CR,
  U+2028, U+2029; section 12.3 of ECMA-262, 2022 edition). `getAppInfo`
  builds a `Game` from that match.

How the inputs from outside are modelled:

- The network, `JSON.parse`, and the data stores are inputs. The appdetails
  request is an abstract `Fetcher` from an appid to an optional parsed
  record, where `None` means the request failed. The steamdb page is a
  string argument. The user and games stores are in-memory values held by
  the `UserStore` and `GameStore` classes.
- The random lobby id is a parameter of `CreateLobby`.

Files: `wrappers.dfy` (Option), `game_record.dfy` (the `Game` record),
`users.dfy`, `lobbies.dfy`, `app_details.dfy`, `game_cache.dfy`,
`common_games.dfy`, `steamdb_scraper.dfy`.

## Model

| member | source | states |
|---|---|---|
| Users.Matching | server.js:53 | the store lookup by `openId` returns only stored users with that id, and every stored user with that id |
| Users.ReplaceMatching | server.js:62 | the update replaces exactly the documents with that `openId` and keeps every other document in its place. nedb's `update` without `multi` replaces only the first match; the two agree because the update runs only when exactly one document matches (server.js:58) |
| Users.VerifyUser | server.js:52-74 | a user is returned iff at most one document matches. With none, `User(identifier, displayName, '', [], profile)` is appended. With one, only username and profile change and games and picture are kept. With several, no user is returned and the store is unchanged. Other identities' documents are never touched |
| Users.MatchingAppend | server.js:53 | looking up in an appended store is the lookup in each part, concatenated |
| Users.MatchingReplaced | server.js:62 | after the update, every match for the identifier is the new document, and lookups of other identifiers are unchanged |
| Users.NoMatchWhenAbsent | server.js:53 | a store with no document for an identifier yields no match for it |
| Users.UniqueMatchesAtMostOne | server.js:58-71 | on a store with unique `openId`s the lookup finds at most one document, so the refusal branch does not occur |
| Users.VerifyKeepsOpenIdsUnique | server.js:52-74 | signing in keeps `openId`s unique in the store, and on such a store sign-in always returns a user |
| Users.ReplaceBySelf | server.js:62 | an update with the document already stored leaves the store unchanged |
| Users.VerifyIdempotent | server.js:52-74 | signing in twice with the same profile gives the same store and user as signing in once |
| Users.UserStore.Verify | server.js:52-74 | the in-place find-or-create/update leaves the store as `VerifyUser` says and returns its user |
| Lobbies.Find | server.js:162 | `find` returns nothing iff no element satisfies the predicate, and otherwise the element at the first index that satisfies it |
| Lobbies.Filter | server.js:150-154 | `filter` keeps exactly the elements satisfying the predicate, each as many times as it occurs, and never grows the list |
| Lobbies.FilterSingleton | server.js:150-154 | a one-element list keeps its element iff it satisfies the predicate; with `FilterAppend` this fixes that kept elements stay in their order |
| Lobbies.FilterKeepsAll | server.js:150-152 | a predicate that holds for every member keeps the whole list |
| Lobbies.FilterAppend | server.js:154 | filtering a concatenation concatenates the filtered parts |
| Lobbies.AddedIfNeededAsWritten | server.js:159-166 | as written, the user is appended only when the member list is empty |
| Lobbies.RemovedAsWritten | server.js:147-157 | as written, the list is emptied when it holds exactly one member and is otherwise unchanged, whoever `user` is |
| Lobbies.AddedIfNeededAsWrittenIdempotent | server.js:159-166 | re-joining twice as written has the effect of re-joining once |
| Lobbies.Nicknames | server.js:355 | the nicknames are the members' usernames, one per member, in member order |
| Lobbies.NicknamesAppend | server.js:352-359 | after a user joins, the nickname list gains that user's username at the end |
| Lobbies.AddedIfAbsent | server.js:159-166 | with the intended comparison, a user whose `openId` is present leaves the list alone and any other user is appended |
| Lobbies.AddedIfAbsentKeepsUnique | server.js:159-166 | with the intended comparison, re-joining keeps `openId`s unique, puts the user's identity in the lobby and is idempotent |
| Lobbies.RemovedByOpenId | server.js:147-157 | the leave with the intended comparison, keeping the `length == 1` guard on the matches; `RemovedByOpenIdRemovesLeaver` and `RemoveUndoesAdd` characterise it |
| Lobbies.RemovedByOpenIdRemovesLeaver | server.js:147-157 | with the intended comparison and unique identities, leaving removes exactly the members with the leaver's `openId` |
| Lobbies.RemoveUndoesAdd | server.js:147-166 | with the intended comparisons, a join by a new identity followed by that user's leave restores the list |
| Lobbies.RemovedAsWrittenKeepsLeaver | server.js:151 | as written, a leaver in a two-member lobby stays, while the intended comparison leaves only the other member |
| Lobbies.AddedIfNeededAsWrittenDropsNewcomer | server.js:162 | as written, a second identity re-joining a one-member lobby is not added, while the intended comparison adds them |
| Lobbies.Lobby.constructor | server.js:30-35 | a new lobby has the given id and no members |
| Lobbies.Registry.constructor | server.js:29 | the registry starts without lobbies |
| Lobbies.Registry.CreateLobby | server.js:122-125 | the new lobby is filed under its id with no members, and every other lobby is untouched |
| Lobbies.Registry.AssignUserToLobby | server.js:139-145 | a known lobby's list gains the user at its end with no duplicate check; an unknown id changes nothing; no other lobby changes |
| Lobbies.Registry.RemoveUserFromLobby | server.js:147-157 | as written, a known lobby with exactly one member becomes empty; every other case changes nothing |
| Lobbies.Registry.AddUserToLobbyIfNeeded | server.js:159-166 | as written, a known lobby with an empty list gets `[user]`; every other case changes nothing |
| Lobbies.Registry.AddUserToLobbyIfAbsent | server.js:159-166 | with the intended comparison, a known lobby's list becomes `AddedIfAbsent` of it; an unknown id and every other lobby are unchanged |
| Lobbies.Registry.RemoveUserByOpenId | server.js:147-157 | with the intended comparison, a known lobby's list becomes `RemovedByOpenId` of it; an unknown id and every other lobby are unchanged |
| Users.UserStore.constructor | server.js:20-23 | the user store starts with the persisted users |
| Lobbies.Registry.GetLobbyUserNicknames | server.js:352-359 | a known lobby yields its members' usernames in order, and an unknown lobby yields `[]` |
| AppDetails.FindCategory | server.js:300-301 | nothing is found iff no category has the id, and otherwise the first category with it |
| AppDetails.GameFromAppData | server.js:299-308 | the record copies the appid, name and header image, and each flag is set iff a category with id 1 (multiplayer) or 9 (co-op) is listed |
| GameCache.GameInfoApi | server.js:292-311 | the request succeeds iff the fetch does, and then gives the record for that appid |
| GameCache.FetchAll | server.js:234 | the fetches all succeed iff none fails, and then yield one record per id in request order |
| GameCache.MissesAreTheUncached | server.js:214-230 | a cached id is never fetched, and an uncached id is fetched once for each time it is requested |
| GameCache.HitsAreStored | server.js:220-222 | every cached record handed back is the stored record for its appid |
| GameCache.AppIdsAppend | server.js:244 | the appids of concatenated records are the concatenated appids |
| GameCache.HitsAndMissesPartition | server.js:214-230 | the hits and the misses together account for every requested id exactly once |
| GameCache.PartitionedHit | server.js:220-222 | a requested id found in the store adds its record to the hits and nothing to the misses |
| GameCache.PartitionedMiss | server.js:223-225 | a requested id missing from the store adds itself to the misses and nothing to the hits |
| GameCache.FetchedAppIds | server.js:234 | the fetched records carry the fetched appids, in request order |
| GameCache.WriteBackStoresFetched | server.js:236-243 | the write-back files every fetched id under its fetched record and leaves every other entry unchanged |
| GameCache.WriteBackKeepsWellKeyed | server.js:237 | inserting records keeps each record filed under its own appid |
| GameCache.ResolveOutcomes | server.js:232-250 | an empty request fetches nothing and calls back `[]`. The callback is skipped iff some fetch fails, and then the store is unchanged. Otherwise it receives the cached records followed by the fetched ones in request order |
| GameCache.ResolveDeliversEveryRequestedId | server.js:232-250 | when the callback runs, it receives exactly one record per requested appid |
| GameCache.DeliveredAreRequested | server.js:232-250 | the callback receives as many records as ids were requested, each for a requested id |
| GameCache.ResolveWarmsCache | server.js:236-244 | after a completed resolution every requested id is cached and older entries are unchanged, so resolving the same ids again fetches nothing |
| GameCache.Resolve | server.js:203-251 | the fetched ids, the callback's argument and the new store of one resolution; `ResolveOutcomes`, `MissesAreTheUncached`, `ResolveDeliversEveryRequestedId` and `ResolveWarmsCache` characterise it |
| GameCache.GameStore.constructor | server.js:24-27 | the store starts with the persisted records |
| GameCache.GameStore.ResolveGameInfos | server.js:203-251 | the in-place lookup loop, fetch and write-back return the fetched ids and the callback's argument, and leave the store, as `Resolve` says |
| CommonGames.AllAppIds | server.js:315 | the flattened appids of all members; `AllAppIdsOfMember` splits an appid's occurrences into the first member's and the rest's |
| CommonGames.CountedAsMembers | server.js:316-332 | the counted, key-ordered and filtered appids; `CountedAsMembersIff` proves they are exactly those counted as often as there are members, ascending, and none for an empty lobby |
| CommonGames.CommonAppIds | server.js:313-332 | the appids handed to `resolveGameInfos`; `CommonAppIdsSelection` proves they are the (up to) three smallest counted once per member, ascending |
| CommonGames.OwnedAppIds | server.js:315 | flattening one member's list gives one appid per owned game, the i-th being the i-th game's appid |
| CommonGames.CountOccurrences | server.js:316-317 | after the counting loop, the keys are exactly the appids seen, and each count is that appid's number of occurrences |
| CommonGames.SetMin | server.js:332 | a non-empty key set has a least element |
| CommonGames.SortedKeys | server.js:332 | `Object.keys` lists every key exactly once, in ascending order |
| CommonGames.KeepCounted | server.js:332 | the filter keeps exactly the keys counted as often as there are members, in their order |
| CommonGames.FirstResolved | server.js:332 | `slice(0, 3)` gives a prefix of the ids of at most three elements, and the whole list when it is shorter than three |
| CommonGames.FirstResolvedOfIncreasing | server.js:332 | the slice of an ascending list keeps at most three of its ids in order, and any id it drops is larger than all three kept ones |
| CommonGames.CountedAsMembersIff | server.js:315-332 | before the slice, an appid is kept iff it occurs as many times as there are member lists; an empty lobby keeps nothing; the kept ids ascend |
| CommonGames.CommonAppIdsSelection | server.js:332 | at most three appids go to resolution, in ascending order, all counted as often as there are members. A common appid left out means three smaller ones were sent |
| CommonGames.AllAppIdsOfMember | server.js:315 | the occurrences of an appid are the first member's plus the rest's |
| CommonGames.NoDuplicatesCountsOnce | server.js:317 | in a list without repeats, an appid is counted once if present and otherwise not at all |
| CommonGames.CountIsIntersection | server.js:315-332 | when no member lists an appid twice, it is counted at most once per member, and as often as there are members iff every member owns it |
| CommonGames.CommonGamesDelivered | server.js:332-335 | the callback receives at most three records, each for an appid counted as often as there are members |
| CommonGames.CommonGamesOwnedByEveryMember | server.js:313-335 | when no member's library lists an appid twice, every record the callback receives is for a game that every member owns |
| CommonGames.GetCommonGames | server.js:313-336 | the counting loop, the ascending key order, the filter and the slice select `CommonAppIds`, and the store is resolved as `Resolve` says |
| SteamdbScraper.IndexOfFrom | steamdb-scraper.js:16 | `indexOf` gives -1 iff the pattern does not occur from that position on, and otherwise the first position where it occurs |
| SteamdbScraper.DigitChar | steamdb-scraper.js:16 | a digit below ten is written as a character from '0' to '9' |
| SteamdbScraper.NatToString | steamdb-scraper.js:16 | a tag id is written as a non-empty run of decimal digits without a leading zero |
| SteamdbScraper.NatToStringRoundTrip | steamdb-scraper.js:16 | the digits written for a tag id denote that id |
| SteamdbScraper.TagNeedles | steamdb-scraper.js:2-16 | the two searched strings are `tagid=1685"` (co-op) and `tagid=3859"` (multiplayer) |
| SteamdbScraper.HasTag | steamdb-scraper.js:15-17 | `hasTag(text, t)` is true iff `tagid=<t>"` occurs in the text |
| SteamdbScraper.RunEnd | steamdb-scraper.js:23 | the greedy `.*` stops at the first line terminator, or at the end of the text |
| SteamdbScraper.FirstMatchFrom | steamdb-scraper.js:24-25 | the search fails iff the pattern matches at no position, and otherwise yields the match at the leftmost matching position |
| SteamdbScraper.MatchAt | steamdb-scraper.js:23 | the match of the pattern at one position, if any; `MatchAtIff` characterises it |
| SteamdbScraper.FirstMatch | steamdb-scraper.js:23-25 | `html.match(regex)[0]`, the leftmost match or none; `FirstMatchFrom` characterises it |
| SteamdbScraper.MatchAtIff | steamdb-scraper.js:23 | the pattern matches at a position iff the text there is `store_tags</td>\n`, then characters other than line terminators, then `\n` |
| SteamdbScraper.CrLfLineDoesNotMatch | steamdb-scraper.js:23 | a store-tags line ending in `\r\n` is not matched at its position |
| SteamdbScraper.GetAppInfo | steamdb-scraper.js:22-34 | the record always echoes the appid with empty name and image. Without a match both flags are off, and a flag is only set when there is a first match |
| SteamdbScraper.NeedleShape | steamdb-scraper.js:16 | a searched string starts with `tagid=`, ends in `"` and contains no `\n` |
| SteamdbScraper.NeedleNotInHeader | steamdb-scraper.js:23-27 | a tag string cannot start inside the matched `store_tags</td>\n` header |
| SteamdbScraper.NeedleInTagLine | steamdb-scraper.js:23-27 | a tag string occurs in a whole match iff it occurs in the matched line |
| SteamdbScraper.FlagsReadTheFirstTagLine | steamdb-scraper.js:23-28 | for a page whose first store-tags row has a given line, multiplayer is `hasTag(line, 3859)` and co-op is `hasTag(line, 1685)`; tags before or after that row do not matter |

## Left out

- socket.io connection handling and broadcasting, the Express routes, the
  OAuth handshake, sessions, `auth.js` and static files are left out. They
  are transport glue that only calls the modelled operations.
- The order in which asynchronous callbacks and promises run is left out.
  Each operation runs to completion in input order.
- `PromiseThrottle` (server.js:204-207) is left out because its rate
  limiting is about timing. The fetches it schedules are modelled
  without delays.
- The `request` calls, `JSON.parse` and `getOwnedGames` with `updateGames`
  (server.js:168-200) are left out because they are network I/O. The
  fetcher and the owned-games lists are inputs, and the steamdb page is
  the `html` argument of `GetAppInfo`.
- A store error (the `err` branches) is not modelled. A failed fetch is
  modelled only through its effect, as the fetcher returning `None`.
  In the source, `getGameInfoApi` calls `reject(error)` without returning
  (server.js:296-297). It then runs `JSON.parse` on the missing body,
  which throws inside the request callback and crashes the process. A
  response without `data` or `data.categories` throws the same way
  (server.js:299-300). Either way the callback of `resolveGameInfos` never
  runs and nothing is written back. That is the model's `None` outcome;
  the crash itself is not modelled. There is no partial success.
- nedb persistence is left out; the stores are in memory. nedb's `insert`
  would add a second document for an appid that is already stored. The
  model files records in a map keyed by appid. The two agree because only
  ids that missed the lookup are inserted, and `Object.keys` never
  repeats an id.
- The random lobby id from `crypto.randomBytes` (server.js:122-123) is
  left out. It is the `id` parameter of `CreateLobby`.
- `getGameInfo` (server.js:253-290) is left out because it is dead code:
  `getGameInfoApi` ignores its callback, so its promise never settles on a
  cache miss.
- The `flatMap` polyfill (server.js:15-17) is left out; sequence
  concatenation stands in for it.
- CommonGames.SortedKeys: `Object.keys` lists array-index keys in
  ascending order (section 10.1.11.1 of ECMA-262, 2022 edition). The model
  assumes every appid is below 2^32 - 1, which Steam appids are.
  `Object.keys` also returns the ids as strings. They are modelled as
  numbers throughout, which is consistent because the lookups and the
  records use the same form.
- CommonGames.CommonGamesDelivered: `getCommonGames` tests a count, not
  ownership (server.js:317, 332). A library that lists an appid twice
  counts twice, so an appid can be selected that some member does not
  own; only when no library repeats an appid is the selection the set of
  games every member owns (`CommonGamesOwnedByEveryMember`).
- Lobby ids are modelled as the registry map's own keys. In the source,
  `lobbies` is a plain object (server.js:29), so `lobbyId in lobbies`
  (server.js:130, 140, 148, 160, 353) also holds for names inherited from
  `Object.prototype` such as `constructor` or `toString`. For such an id
  the source reads `.users` of a non-lobby and throws a TypeError
  (server.js:141). The model treats such an id as unknown, so its
  contracts say nothing changes.
- `removeUserFromLobby` is called with `socket.request.user`. That
  argument plays no part in the code as written, so the model treats it
  as any `User`.
- The code has none of the following, so the model does not either:
  coalescing of the same request, per-lobby sequence numbers, identity
  de-duplication when joining, and partial results on a fetch failure.
- GameCache.GameInfoApi: its contract states the appid and name
  directly. The image and the flags are stated once, by
  `AppDetails.GameFromAppData`, which it returns.

## Findings

| source | as written | input that shows it | evidently intended | confidence | as-written member | corrected member |
|---|---|---|---|---|---|---|
| server.js:151 | `user.openId == user.openId`: the parameter of the `function(user)` expression at server.js:150 shadows the leaver, so every member matches and the lobby is only emptied when it has exactly one member | a lobby `[leaver, other]` with distinct `openId`s, then `removeUserFromLobby(id, leaver)`: the list stays `[leaver, other]` | compare each member's `openId` with the leaver's, so only the leaver is removed (`[other]`) | not executed | Lobbies.RemovedAsWrittenKeepsLeaver | Lobbies.RemovedByOpenIdRemovesLeaver |
| server.js:162 | `user.openId == user.openId` in `find`: any member is "found", so a reconnecting user is appended only to an empty lobby | a lobby `[member]`, then `addUserToLobbyIfNeeded(id, newcomer)` with a different `openId`: the list stays `[member]` | append the user unless a member with the same `openId` is present (`[member, newcomer]`) | not executed | Lobbies.AddedIfNeededAsWrittenDropsNewcomer | Lobbies.AddedIfAbsentKeepsUnique |
