# AnimeVerse core, modelled and verified in Dafny

AnimeVerse is an anime streaming site: an Express server with two
persistence back-ends (MongoDB through Mongoose when a connection is up, an
in-memory `MemStorage` otherwise) and a React client. This project models
the parts of it that decide who may do what and what gets stored:

- the in-memory store with its seeding, CRUD operations, cascading deletes,
  join queries and listings (`MemTables` as values, `Storage.MemStorage` as
  the class that mutates its five maps and five id counters in place and is
  proved against `MemTables`);
- the privilege flag normaliser `normalizeBoolean` (`Flags`), the session
  admin gate (`AdminGate`) and the signed-token gate (`TokenAuth`);
- the admin routes and their choice between MongoDB and the memory store
  (`AdminRoutes`, over `Stores.Backends` and the Mongo collections in
  `MongoStore`);
- login, session restore, admin bootstrap and registration (`SessionAuth`);
- the favorites routes (`Favorites`);
- the connection URI, its log mask and the `isMongoConnected` flag
  (`DbConnect`);
- the client's request retry logic (`QueryClient`) and its small helpers
  (`Utils`, `ProtectedRoute`, `HeroSlider`, `Watch`, `Explore`,
  `GenreFilter`, `AnimeManagement`).

Handlers are functions from the two stores and a request to a response and
the new stores. Each one states, per back-end, which status it answers and
what it writes. Foreign code is passed in as parameters:

- bcrypt's `compare` is a `matches` oracle;
- JWT's `verify` is a function parameter;
- Mongo's fresh ids and the clock are parameters.

`Common` holds the JavaScript string built-ins the code leans on:
`toLowerCase`, `includes`, `trim`, `split`/`join`, `parseInt` and number
rendering.

## Model

| member | source | states |
|---|---|---|
| Flags.NormalizeBoolean | server/middleware/admin.ts:4-13 | a flag normalises to true only if it is truthy |
| Flags.NormalizeVersusTruthy | server/middleware/admin.ts:4-13 | the normaliser differs from plain truthiness exactly on non-empty strings that are not "true" in some letter case |
| Flags.NormalizeTrueString | server/middleware/admin.ts:8-10 | a string normalises to true only if it is four letters spelling "true" in any case |
| Flags.StringFalseIsNotAdmin | server/middleware/admin.ts:8-10 | "false" is truthy in JavaScript but normalises to false |
| Flags.NormalizeIgnoresCase | server/middleware/admin.ts:8-10 | strings equal up to letter case normalise alike |
| Flags.NormalizeIdempotent | server/middleware/admin.ts:4-13 | normalising an already normalised flag, as a boolean or as its string, changes nothing |
| Flags.OrFalse | server/storage.ts:180 | `flag \|\| false` keeps a truthy flag and turns every falsy one into `false` |
| Flags.OrFalsePreservesNormalized | server/storage.ts:180 | storing `flag \|\| false` does not change what the flag normalises to |
| AdminGate.AdminGate | server/middleware/admin.ts:15-65 | the gate lets a request through iff it is authenticated, carries a user and that user's flag normalises to true; an unauthenticated request gets 401 "Authentication required"; every refusal is 401 or 403 |
| AdminGate.GateStatusMeaning | server/middleware/admin.ts:17-26 | the 401s are exactly the unauthenticated and user-missing cases, and the user is not looked at before authentication |
| AdminGate.GateFlagExamples | server/middleware/admin.ts:50-60 | "false" and " true" are refused with 403, "TRUE" and 1 pass |
| AdminGate.GateDependsOnlyOnNormalizedFlag | server/middleware/admin.ts:15-65 | two users whose flags normalise alike get the same answer |
| TokenAuth.TokenFlag | server/middleware/auth.ts:45-55 | a flag in the token payload decides; only when the payload has none does the stored flag decide |
| TokenAuth.Authenticate | server/middleware/auth.ts:17-64 | no or empty cookie iff 401 "Authentication required"; an admitted request carries the cookie's token, which verifies, for a user that exists; every refusal is one of the three 401 messages |
| TokenAuth.AdmittedUser | server/middleware/auth.ts:45-59 | the admitted user is the stored user with the flag replaced by the strict boolean the precedence rule gives |
| TokenAuth.FailureMessages | server/middleware/auth.ts:25-33 | a throwing verify or lookup gives 401 "Invalid token", never a 5xx; a verified token for a missing user gives 401 "User not found" |
| TokenAuth.TokenClaimOutranksStoredFlag | server/middleware/auth.ts:45-55 | a `false` claim beats a stored `true`, a "true" claim beats a stored `false`, a null claim counts as a claim |
| TokenAuth.GenerateToken | server/middleware/auth.ts:78-80 | the signed payload is the user id and `isAdmin` defaulting to false, with expiry "7d" |
| TokenAuth.IssuedTokenDecidesFlag | server/middleware/auth.ts:45-51 | a token this server issued admits its user with exactly the flag it was issued with, whatever is stored |
| TokenAuth.Request.Auth | server/middleware/auth.ts:57-63 | on admission `req.user` and `req.token` are set and `next` is called once; otherwise nothing is set and a 401 with the gate's message is sent |
| OrderedMaps.FirstKeyFinds | server/storage.ts:152-159 | the first key found satisfies the predicate, none before it does, and no key satisfies it when none is found |
| OrderedMaps.RemoveWhere | server/storage.ts:253-264 | deleting during iteration keeps exactly the entries that do not match, unchanged |
| OrderedMaps.LookupAllDistinct | server/storage.ts:311-333 | looking up distinct ids in a map keyed by id gives distinct records |
| Sorting.SortBy | server/storage.ts:371-373 | the comparator sort yields a permutation ordered by the key |
| Sorting.TakeSortedIsSmallest | server/storage.ts:434 | an element left out by `slice(0, n)` of a sorted list means the slice is full and holds only elements ordered before it |
| MemTables.GetUserByUsername | server/storage.ts:166-173 | the result is a stored user with that name and no lower id has it; no result iff no stored user has the name |
| MemTables.CreateUser | server/storage.ts:175-185 | the new user gets the current counter as id, which was unused; the counter moves up by one; only that entry is added; a falsy flag is stored as `false`; the flag normalises as given |
| MemTables.UpdateUserAdminStatus | server/storage.ts:191-200 | a missing id changes nothing and gives no user; otherwise only that user's `isAdmin` changes, to the strict boolean |
| MemTables.DeleteUser | server/storage.ts:202-204 | removes the user without any admin guard; the result says whether it existed |
| MemTables.CreateAnime | server/storage.ts:215-227 | fresh id from the counter; the title, description and year are kept; each optional field is null exactly when it was falsy |
| MemTables.UpdateAnime | server/storage.ts:229-246 | a missing id changes nothing; otherwise only that anime changes, under the same id, by the patch rule |
| MemTables.NullableFieldRule | server/storage.ts:235-244 | an absent field keeps the old value; a provided falsy value becomes null; a provided truthy value replaces it |
| MemTables.DeleteAnime | server/storage.ts:248-265 | the anime is gone; afterwards no link and no episode names it, even when the anime was absent; every other link, episode, user, genre and counter is unchanged; the result says whether the anime existed |
| MemTables.FindGenreByName | server/storage.ts:152-159 | the result is a stored genre whose name equals the query up to case, the lowest such id; no result iff none matches |
| MemTables.CreateGenre | server/storage.ts:280-285 | fresh id from the counter; only that entry is added |
| MemTables.UpdateGenre | server/storage.ts:287-296 | a missing id changes nothing; otherwise only the name changes, and only when one is given |
| MemTables.DeleteGenre | server/storage.ts:298-308 | the genre and exactly the links naming it are removed; animes, episodes and users are untouched |
| MemTables.GetAnimeGenres | server/storage.ts:311-321 | each genre linked to the anime appears, each at most once, and nothing else |
| MemTables.GetAnimesByGenre | server/storage.ts:323-333 | each anime linked to the genre appears, each at most once, and nothing else |
| MemTables.AddGenreToAnime | server/storage.ts:335-340 | always adds one link with a fresh id, with no duplicate check |
| MemTables.AddExistingPairDuplicates | server/storage.ts:335-340 | adding a pair that is already linked grows the link table, yet the anime's genre list is the same |
| MemTables.RemoveGenreFromAnime | server/storage.ts:342-353 | every matching link is removed and every other one kept; true iff at least one existed |
| MemTables.GetEpisodesByAnime | server/storage.ts:364-374 | exactly that anime's episodes, as a permutation of them, in non-decreasing number order |
| MemTables.CreateEpisode | server/storage.ts:376-388 | fresh id; falsy optional fields become null; the release date defaults to now |
| MemTables.UpdateEpisode | server/storage.ts:390-407 | a missing id changes nothing; otherwise only that episode changes, under the same id |
| MemTables.ApplyEpisodePatch | server/storage.ts:396-404 | the id is kept; a given title or number replaces the stored one; a non-zero release date replaces the stored one and a missing or zero one keeps it |
| MemTables.DeleteEpisode | server/storage.ts:409-411 | removes exactly that episode; true iff it existed |
| MemTables.GetUser | server/storage.ts:162-164 | found iff stored, and then the stored record under its own id |
| MemTables.GetAnime | server/storage.ts:211-213 | found iff stored, and then the stored record under its own id |
| MemTables.GetGenre | server/storage.ts:272-274 | found iff stored, and then the stored record under its own id |
| MemTables.GetEpisode | server/storage.ts:360-362 | found iff stored, and then the stored record under its own id |
| MemTables.GetAllUsers | server/storage.ts:187-189 | lists exactly the stored users |
| MemTables.GetAllAnimes | server/storage.ts:207-209 | lists exactly the stored animes |
| MemTables.GetAllGenres | server/storage.ts:268-270 | lists exactly the stored genres |
| MemTables.GetAllEpisodes | server/storage.ts:356-358 | lists exactly the stored episodes |
| MemTables.SearchAnimes | server/storage.ts:414-426 | an anime is kept iff its lower-cased title or description contains the lower-cased query |
| MemTables.GetTrendingAnimes | server/storage.ts:429-435 | at most six stored animes with strictly decreasing ids, so none is listed twice |
| MemTables.TrendingIsNewestSix | server/storage.ts:429-435 | an anime left out means six were listed, all newer than it |
| MemTables.LatestEpisodes | server/storage.ts:438-443 | at most four stored episodes, latest release date first, no episode more often than it is stored and no id twice |
| MemTables.LatestEpisodesAreNewest | server/storage.ts:438-443 | an episode left out of the four means four were taken, none released before it |
| MemTables.GetRecentlyAddedEpisodes | server/storage.ts:437-454 | every pair is one of the four latest episodes with its stored anime, every one of the four whose anime exists is paired, no episode is paired more often than it is among the four and no episode id appears twice |
| MemTables.RecentlyAddedAreNewest | server/storage.ts:437-454 | a stored episode with an anime that is not listed was released no later than every listed one, and four were taken |
| MemTables.IdsNeverReused | server/storage.ts:175-185 | after a delete, the next create of the same kind never gets the deleted id |
| MemTables.UpdateMissingIsNoOp | server/storage.ts:191-200 | every update on a missing id leaves all tables unchanged and returns nothing |
| MemSeed.SeedUsers | server/storage.ts:82-90 | after seeding, user 1 is the only user, is `admin`, its flag normalises to true, and the next user id is 2 |
| MemSeed.SeedGenreIds | server/storage.ts:93-100 | genres get ids 1 to 15, in the order of the seed list |
| MemSeed.SeedAnimeIds | server/storage.ts:102-133 | animes get ids 1 to 12, in seed order |
| MemSeed.SeedEpisodeIds | server/storage.ts:135-149 | episodes get ids 1 to 19, in seed order |
| MemSeed.HistoricalMatchesNoGenre | shared/data.ts:190 | "Historical" matches no seeded genre |
| MemSeed.VinlandSagaGetsThreeLinks | shared/data.ts:180-190 | of Vinland Saga's four genre names only three are linked |
| MemSeed.SeedLinksFollowNames | server/storage.ts:119-130 | every seeded link joins an anime to a genre named in that anime's seed entry |
| MemSeed.LinkGenresProvenance | server/storage.ts:119-130 | linking by names keeps existing links and adds only links from the anime to a named, found genre |
| MemSeed.LinkGenresCount | server/storage.ts:119-130 | linking by names adds exactly one link per name that is found |
| Storage.MemStorage.constructor | server/storage.ts:66-150 | the constructed store is the seed state |
| Storage.MemStorage.CreateUser | server/storage.ts:175-185 | the new state and the returned user are those of the value-level operation |
| Storage.MemStorage.UpdateUserAdminStatus | server/storage.ts:191-200 | the new state and the result are those of the value-level operation |
| Storage.MemStorage.DeleteUser | server/storage.ts:202-204 | the new state and the result are those of the value-level operation |
| Storage.MemStorage.CreateAnime | server/storage.ts:215-227 | the new state and the returned anime are those of the value-level operation |
| Storage.MemStorage.UpdateAnime | server/storage.ts:229-246 | the new state and the result are those of the value-level operation |
| Storage.MemStorage.DeleteAnime | server/storage.ts:248-265 | the in-place cascade (two delete-while-iterating loops) ends in the state of the value-level cascade |
| Storage.MemStorage.DeleteLinksWhere | server/storage.ts:253-258 | the loop removes exactly the matching links and reports whether there were any |
| Storage.MemStorage.DeleteEpisodesWhere | server/storage.ts:260-264 | the loop removes exactly the matching episodes |
| Storage.MemStorage.FindGenreByName | server/storage.ts:152-159 | the loop finds what the value-level search finds |
| Storage.MemStorage.GetUserByUsername | server/storage.ts:166-173 | the loop finds what the value-level search finds |
| Storage.MemStorage.SearchAnimes | server/storage.ts:414-426 | the loop collects what the value-level search gives |
| Storage.MemStorage.CreateGenre | server/storage.ts:280-285 | the new state and the returned genre are those of the value-level operation |
| Storage.MemStorage.UpdateGenre | server/storage.ts:287-296 | the new state and the result are those of the value-level operation |
| Storage.MemStorage.DeleteGenre | server/storage.ts:298-308 | the in-place cascade ends in the state of the value-level cascade |
| Storage.MemStorage.GetAnimeGenres | server/storage.ts:311-321 | the loop returns the de-duplicated join |
| Storage.MemStorage.GetAnimesByGenre | server/storage.ts:323-333 | the loop returns the de-duplicated join |
| Storage.MemStorage.AddGenreToAnime | server/storage.ts:335-340 | the new state and the link are those of the value-level operation |
| Storage.MemStorage.RemoveGenreFromAnime | server/storage.ts:342-353 | the new state and the result are those of the value-level operation |
| Storage.MemStorage.GetEpisodesByAnime | server/storage.ts:364-374 | the loop and the sort give the value-level listing |
| Storage.MemStorage.CreateEpisode | server/storage.ts:376-388 | the new state and the episode are those of the value-level operation |
| Storage.MemStorage.UpdateEpisode | server/storage.ts:390-407 | the new state and the result are those of the value-level operation |
| Storage.MemStorage.DeleteEpisode | server/storage.ts:409-411 | the new state and the result are those of the value-level operation |
| Storage.MemStorage.GetRecentlyAddedEpisodes | server/storage.ts:437-454 | the loop gives the value-level listing |
| MongoStore.First | server/auth.ts:28 | `findOne`/`findById` finds a matching document, and finds none iff none matches |
| MongoStore.Select | server/routes/favorites.ts:59 | `find` keeps exactly the matching documents, none more often than it is stored |
| MongoStore.Remove | server/routes/admin.ts:463-477 | `deleteMany` keeps exactly the documents that do not match |
| MongoStore.Replace | server/routes/admin.ts:202-206 | an update rewrites that document in place and nothing else |
| MongoStore.UniqueMembers | server/models/User.ts:16-33 | in a collection unique by a key, two documents with the same key are the same document |
| MongoStore.AppendKeepsUnique | server/models/Genre.ts:11-15 | an insert the unique index admits keeps the index unique |
| MongoStore.RemoveKeepsUnique | server/models/AnimeGenre.ts:29 | deleting documents keeps every unique index |
| MongoStore.ReplaceKeepsUnique | server/models/Episode.ts:59 | an update that clashes with no other document keeps the index unique, and changes only that document |
| MongoStore.FoundByIdIsUnique | server/models/User.ts:16-42 | a document found by `_id` is the only one with that id |
| Stores.MongoUserView | server/routes/admin.ts:141-148 | the Mongo user view carries the id and flag and never the password |
| Stores.MemKeyRoundTrip | server/routes/admin.ts:226 | a memory id rendered as text parses back to itself |
| Stores.StripPasswords | server/auth.ts:312-316 | the stripped response has no password and the same status, and differs from the original only in the password fields |
| AdminRoutes.AdminChain | server/routes/admin.ts:18-29 | a session user passes iff its flag normalises to true; without a session the token gate decides, and its 401 message is passed on; every refusal is 401 or 403 |
| AdminRoutes.TokenIssuedForNonAdminIsRefused | server/routes/admin.ts:18-29 | a valid token issued with `isAdmin: false` is refused with 403 |
| AdminRoutes.ListUsers | server/routes/admin.ts:131-168 | answers 200 with one view per user of the live store, in store order |
| AdminRoutes.MemUserView | server/routes/admin.ts:155-161 | the memory branch's view keeps the password and normalises the flag |
| AdminRoutes.SetUserAdmin | server/routes/admin.ts:183-247 | writes only to the live store; on Mongo, 400 iff the id is not an ObjectId and 200 iff the user exists, which then has the normalised flag; in memory, 200 iff the parsed id is stored; the response flag is always the strict boolean |
| AdminRoutes.LastAdminCanBeDemoted | server/routes/admin.ts:183-247 | demoting the only admin succeeds and leaves no admin |
| AdminRoutes.DeleteUser | server/routes/admin.ts:249-300 | on Mongo, 400 "Cannot delete the last admin user" iff the target is an admin and at most one admin is stored, and a 200 removes exactly that user; in memory, 200 iff the parsed id is stored |
| AdminRoutes.MongoDeleteKeepsAnAdmin | server/routes/admin.ts:257-273 | on Mongo, deleting a user never leaves a store that had an admin without one |
| AdminRoutes.MemoryDeletesLastAdmin | server/routes/admin.ts:286-295 | in memory, the only admin can be deleted, leaving no admin |
| AdminRoutes.MemoryListingSendsPasswords | server/routes/admin.ts:153-161 | in memory, the user listing carries every stored user's password |
| AdminRoutes.MemoryFlagChangeSendsPassword | server/routes/admin.ts:236-239 | in memory, the flag change answers with the user's password |
| AdminRoutes.ListUsersIntended | server/routes/admin.ts:131-168 | the corrected listing sends no password, with the same status |
| AdminRoutes.SetUserAdminIntended | server/routes/admin.ts:183-247 | the corrected flag change sends no password and writes what the original writes |
| AdminRoutes.IntendedUserResponsesDropOnlyPasswords | server/routes/admin.ts:131-247 | the corrected responses equal the originals on Mongo and differ from them only in the password field |
| AdminRoutes.CreateAnime | server/routes/admin.ts:304-364 | 400 iff the body fails validation; a 201 appends exactly one document on Mongo, or creates it in memory, and names the new id |
| AdminRoutes.MongoAnimeRecord | server/routes/admin.ts:320-331 | falsy optional fields are stored as null |
| AdminRoutes.CreatedAnimeAgrees | server/routes/admin.ts:316-356 | both back-ends store the same title and optional fields for the same body |
| AdminRoutes.MongoAnimePatch | server/routes/admin.ts:384-395 | truthy required fields replace the old ones; nullable fields are replaced whenever provided, and an explicit null clears them |
| AdminRoutes.PatchAnime | server/routes/admin.ts:367-447 | on Mongo, 500 iff the id is not an ObjectId or the patched document breaks the schema; 200 iff it exists and the patch is valid, with exactly that document rewritten; in memory, 200 iff the parsed id is stored |
| AdminRoutes.PatchBranchesDiverge | server/routes/admin.ts:384-438 | the same patch with an empty title and an empty banner gives different documents on the two back-ends |
| AdminRoutes.MongoAnimeDeletion | server/routes/admin.ts:463-477 | the cascade runs in three steps: the anime, then its episodes, then its links |
| AdminRoutes.MongoAnimeDeletionKeepsValid | server/routes/admin.ts:463-477 | each intermediate stage of the cascade is a valid database |
| AdminRoutes.MongoAnimeDeletionStages | server/routes/admin.ts:463-477 | after the last stage nothing names the anime; the earlier stages leave the later collections untouched; users, genres and favorites are never touched |
| AdminRoutes.DeleteAnime | server/routes/admin.ts:449-500 | on Mongo, 500 iff the id is not an ObjectId and 200 iff the anime exists, then the full cascade; in memory, the cascade runs for any parsed id and 200 iff the anime existed |
| AdminRoutes.MemoryDeleteOf404CleansUp | server/routes/admin.ts:484-490 | a memory delete answering 404 still removes the links and episodes naming that id |
| AdminRoutes.CreateGenre | server/routes/admin.ts:504-559 | 400 iff no name; 409 iff the name is taken (exactly on Mongo, up to case in memory), with no insert; a 201 adds exactly that genre |
| AdminRoutes.GenreNameCaseDiverges | server/routes/admin.ts:520-548 | "action" next to "Action" is accepted on Mongo and refused in memory |
| AdminRoutes.PatchGenre | server/routes/admin.ts:562-635 | on Mongo, 400 iff the id is not an ObjectId and 409 iff another genre holds the new name; in memory, 409 iff the name's holder has a different id; on Mongo an empty name fails validation with 500 before the lookup, so 404 means a non-empty name and no genre with that id; a 200 renames only that genre |
| AdminRoutes.MemoryRenameToOwnName | server/routes/admin.ts:613-618 | in memory, renaming a genre to its own name in another case succeeds |
| AdminRoutes.DeleteGenre | server/routes/admin.ts:638-688 | on Mongo, 400 iff the id is not an ObjectId, and a 200 removes the genre and its links; in memory the store's cascade runs; animes are never touched |
| AdminRoutes.AddLink | server/routes/admin.ts:692-793 | on Mongo, 201 iff both ids are ObjectIds, both exist and the pair is not yet linked, appending exactly one link; in memory, 201 iff both parsed ids are stored |
| AdminRoutes.SecondLinkOfAPair | server/routes/admin.ts:741-785 | linking a pair twice gives 409 the second time on Mongo, and a second link in memory |
| AdminRoutes.RemoveLink | server/routes/admin.ts:796-850 | 200 iff the pair is linked in the live store, and then every such link is removed |
| AdminRoutes.ResolveMongoAnime | server/routes/admin.ts:874-910 | an ObjectId text is used as is; a number n resolves iff n >= 1 and the collection is non-empty, to the document at `min(n-1, len-1)`; refusals are 400 or 404 |
| AdminRoutes.NumericRefByPosition | server/routes/admin.ts:888-892 | a number within the collection picks that position; a larger one clamps to the last document |
| AdminRoutes.MongoEpisodeRecord | server/routes/admin.ts:927-936 | a missing description is stored as "" and a missing duration as "00:00"; a falsy thumbnail as null |
| AdminRoutes.CreateEpisode | server/routes/admin.ts:854-997 | 400 on an invalid body; on Mongo, 201 iff the reference resolves to an existing anime, the document is valid and its (anime, number) slot is free, appending exactly that episode; in memory, 201 iff the parsed anime id is stored |
| AdminRoutes.MongoEpisodePatch | server/routes/admin.ts:1058-1068 | a non-zero number replaces the old one; a provided description replaces it and null clears it; the anime is kept unless one is given; a non-zero release date replaces the stored one and a missing or zero one keeps it |
| AdminRoutes.PatchEpisode | server/routes/admin.ts:1000-1133 | an ObjectId id on a live connection is served by Mongo alone; any other id is parsed and served by the memory store alone, 400 iff it does not parse |
| AdminRoutes.MongoEpisodeUpdate | server/routes/admin.ts:1070-1080 | 200 iff the patched episode's (anime, number) slot clashes with no other episode, else 500 with no write |
| AdminRoutes.DeleteEpisode | server/routes/admin.ts:1136-1225 | an ObjectId id on a live connection deletes from Mongo, 200 iff it existed; any other id is parsed and served by the memory store |
| AdminRoutes.EpisodeMemoryPathsAgree | server/routes/admin.ts:1005-1037 | for a non-ObjectId id, the answers and memory writes are the same whether or not Mongo is live |
| AdminRoutes.NumericEpisodeIdWritesMemoryWhileConnected | server/routes/admin.ts:1007-1037 | with Mongo live, a numeric episode id edits the memory episode and leaves Mongo untouched |
| SessionAuth.NormalisedCopy | server/auth.ts:173-178 | the copy differs from the stored record only in its flag, which is the normalised boolean |
| SessionAuth.View | server/auth.ts:312-316 | a user as the auth routes show it: no password, the normalised flag, the same name |
| SessionAuth.MemBootstrap | server/auth.ts:48-66 | the memory admin exists afterwards; nothing is written if one already existed; otherwise exactly one admin user with a `true` flag is added |
| SessionAuth.CreateAdminUserIfNeeded | server/auth.ts:22-95 | nothing is written when `admin` exists; otherwise one admin document is inserted on Mongo, or, when Mongo is down or refuses it, the memory admin is bootstrapped; afterwards an admin exists |
| SessionAuth.CreateAdminIsIdempotent | server/auth.ts:28-66 | running the bootstrap twice is the same as running it once |
| SessionAuth.Strategy | server/auth.ts:134-190 | login succeeds iff the Mongo hash matches or a memory user has that plaintext password; the Mongo user wins; refusals always say "Incorrect username or password"; the logged-in user's flag is a strict boolean |
| SessionAuth.SeededAdminAlwaysLogsIn | server/auth.ts:162-180 | on a seeded memory store, admin/admin123 always logs in and passes the admin gate |
| SessionAuth.MongoMismatchFallsThrough | server/auth.ts:137-172 | a wrong Mongo password still logs in as the memory user with that password |
| SessionAuth.MemRestore | server/auth.ts:222-233 | a memory session restores iff its number is a stored id, with the normalised flag |
| SessionAuth.Deserialize | server/auth.ts:198-241 | a Mongo user found by the key is restored; otherwise the key goes through `parseInt` to the memory store; a restored flag is a strict boolean |
| SessionAuth.SessionRoundTrip | server/auth.ts:192-241 | serialising a stored user and restoring the key gives that user back |
| SessionAuth.SampleDocKeyParses | server/auth.ts:223 | the ObjectId text "6a00…0" parses as the number 6 |
| SessionAuth.MongoSessionBecomesMemoryUser | server/auth.ts:198-241 | with Mongo down, a Mongo session key restores memory user 6, whose key is different |
| SessionAuth.DeserializeIntended | server/auth.ts:198-241 | the corrected restore only returns a user whose key is the session key; an ObjectId key restores iff that Mongo user exists |
| SessionAuth.IntendedRestoreAgrees | server/auth.ts:198-241 | the corrected restore agrees with the original whenever it restores, and always on memory keys |
| SessionAuth.LoginRoute | server/auth.ts:328-367 | 401 "Missing credentials" iff the username or password is empty; otherwise 200 iff the credentials match, with the user and no password, and else 401 "Incorrect username or password" |
| SessionAuth.MeRoute | server/auth.ts:378-407 | 401 "Not authenticated" iff there is no session; otherwise 200 with the passwordless view |
| SessionAuth.RegisterEmail | server/auth.ts:260-265 | the stored email is never empty |
| SessionAuth.Register | server/auth.ts:244-326 | 400 "Username already exists" with no write when the name is taken; a 201 carries the name and the normalised client-supplied flag, and no password; a Mongo refusal falls back to a memory insert; only one store is written |
| SessionAuth.ClientChoosesOwnPrivilege | server/auth.ts:249 | registering with `isAdmin: "TRUE"` creates an admin who passes the admin gate |
| Favorites.Identify | server/routes/favorites.ts:35-45 | a session identifies the caller; without one the token gate does, and its 401 message is passed on |
| Favorites.GetUserId | server/routes/favorites.ts:19-32 | a token caller's id is its `_id` text |
| Favorites.UserIdIsSessionKey | server/routes/favorites.ts:19-32 | the favorites user id is the same value the session stores |
| Favorites.CastRef | server/models/Favorite.ts:11-20 | an ObjectId-typed reference accepts exactly ObjectId texts and never a number |
| Favorites.ResolveAnime | server/routes/favorites.ts:137-173 | no anime iff neither Mongo (for an ObjectId) nor memory (for a digit string) has it; Mongo wins |
| Favorites.MemoryAnimeFoundByItsId | server/routes/favorites.ts:160-170 | a memory anime id not on Mongo resolves to that memory anime |
| Favorites.AddFavorite | server/routes/favorites.ts:128-213 | 401 iff not identified; 400 iff no id; 404 iff the anime does not resolve; 409 iff the pair is already stored; a 201 appends exactly one favorite; any other failure is 500 with no write |
| Favorites.SecondAddConflicts | server/routes/favorites.ts:185-192 | adding the same favorite twice gives 409 and no second write |
| Favorites.DeleteQuery | server/routes/favorites.ts:229-232 | an all-digit parameter becomes a number, and any other stays text |
| Favorites.RemoveFavorite | server/routes/favorites.ts:216-246 | 401 iff not identified; 500 iff Mongo is down or a reference does not cast; otherwise 200 iff the pair is stored, removing exactly its favorites, and 404 "Favorite not found" if not |
| Favorites.AddThenRemove | server/routes/favorites.ts:128-246 | removing a favorite just added restores the stores |
| Favorites.NumericIdsNeverSucceed | server/routes/favorites.ts:137-246 | a memory anime resolves, yet adding it and removing by a numeric id both answer 500 |
| Favorites.TextRefsKeepMemoryFavorites | server/routes/favorites.ts:137-246 | with text references, a memory anime can be added (201) and removed again |
| Favorites.ResolveAll | server/routes/favorites.ts:63-115 | lists exactly the animes the ids resolve to |
| Favorites.ListFavorites | server/routes/favorites.ts:48-125 | 401 when not identified, 500 "Error fetching favorites" when Mongo is down or the id does not cast; otherwise exactly the resolving animes of the caller's favorites |
| Favorites.DeletedAnimeDropsOut | server/routes/favorites.ts:103-118 | a favorite whose anime no longer resolves contributes nothing to the listing |
| DbConnect.EncodeUriComponent | server/db.ts:41 | the encoding holds only URI-safe characters and is never shorter |
| DbConnect.EncodeKeepsUnreserved | server/db.ts:41 | unreserved text is left as it is |
| DbConnect.EncodedHasNoDelimiters | server/db.ts:41 | an encoded password holds no `@`, no `:` and no line break |
| DbConnect.SplitSlashes | server/db.ts:38 | `split('//')` yields more than one piece iff the text contains "//", and the first piece is the text before it |
| DbConnect.EnvOr | server/db.ts:6-9 | an environment value is used when set and non-empty, else the fallback |
| DbConnect.ConnectionUri | server/db.ts:35-49 | the URI always contains a `/` |
| DbConnect.NoCredentialsNoChange | server/db.ts:36-49 | without both credentials, or with an `@` already present, only the database name may be appended, and only when there is no `/` |
| DbConnect.CredentialsInserted | server/db.ts:36-44 | with both credentials, the URI is the scheme, "//", user, ":", the encoded password, "@" and the rest of the URI up to a second "//", which is dropped with everything after it |
| DbConnect.CredentialsKeepDatabasePath | server/db.ts:6-44 | a URI with a database path, like the default one, keeps the path after the inserted credentials |
| DbConnect.MaskWithoutAt | server/db.ts:52 | a URI without `@` is logged unchanged |
| DbConnect.MaskHidesCredentials | server/db.ts:52 | a URI with credentials is logged as its scheme, "//****:****@" and the host |
| DbConnect.ConnectFlag | server/db.ts:14-92 | the flag is set, and success returned, when any connection is made; the flag is cleared only by a throwing fallback; a failure returns the memory server's own state, never an exception |
| DbConnect.Connection.ConnectDB | server/db.ts:14-92 | the new flag and result are those of the decision function; the disconnect listener is installed only after an external connect |
| DbConnect.Connection.Disconnected | server/db.ts:64-67 | a `disconnected` event clears the flag iff the listener is installed |
| QueryClient.ClassifyError | client/src/lib/queryClient.ts:18-39 | with a status, SERVER iff >= 500, AUTH iff 401 or 403, CLIENT iff another 4xx; without one, NETWORK iff an Error whose message mentions network, fetch or connection |
| QueryClient.RetryableMeaning | client/src/lib/queryClient.ts:42-44 | retryable iff a 5xx status, or no status and a connection-style message |
| QueryClient.FormatErrorMessage | client/src/lib/queryClient.ts:47-50 | without a status the text itself; with one, the status and ": " followed by the text when it is non-empty |
| QueryClient.ApiRequest | client/src/lib/queryClient.ts:55-124 | at most retries+1 fetches, the i-th wait being the backoff times 2^i; a success is the last fetch's 2xx reply |
| QueryClient.ClientErrorFailsAtOnce | client/src/lib/queryClient.ts:81-98 | a 4xx whose message mentions no connection word fails after one fetch with the formatted message |
| QueryClient.ServerErrorsExhaustRetries | client/src/lib/queryClient.ts:91-96 | against a failing server, exactly retries+1 fetches are made and the last error is thrown |
| QueryClient.ClientErrorMentioningFetchIsRetried | client/src/lib/queryClient.ts:98-120 | a 404 whose body says "could not fetch anime" is fetched again |
| QueryClient.ApiRequestIntended | client/src/lib/queryClient.ts:55-124 | the corrected request also makes at most retries+1 fetches |
| QueryClient.IntendedClientErrorsAreFinal | client/src/lib/queryClient.ts:81-98 | in the corrected request every 4xx fails after one fetch; it agrees with the original whenever the message mentions no connection word |
| QueryClient.QueryStep | client/src/lib/queryClient.ts:145-227 | one pass of the loop: data only from a 2xx JSON reply; a 401 with returnNull gives null; a 5xx retries iff retries remain; errors are raised only in throw mode |
| QueryClient.QueryFn | client/src/lib/queryClient.ts:130-229 | at most retries+1 fetches with doubling waits; data is the last reply's JSON; nothing is raised in returnNull mode |
| QueryClient.GetQueryFn | client/src/lib/queryClient.ts:130-229 | the `while (true)` loop, decrementing `retries` and doubling `backoffDelay`, computes exactly the specified run, with one retry and a 300 ms backoff by default |
| QueryClient.UnauthorizedHandling | client/src/lib/queryClient.ts:159-163 | a 401 gives null at once with returnNull, and in throw mode raises the formatted error without retrying |
| QueryClient.DefaultQueryAgainstFailingServer | client/src/lib/queryClient.ts:231-244 | the default client makes three fetches against a failing server, waiting 300 and 600 ms, and raises |
| Utils.DaysAgo | client/src/lib/utils.ts:12-13 | the day count is the floor of the elapsed time in days |
| Utils.FormatDate | client/src/lib/utils.ts:8-29 | "Today" iff less than a day ago, "Yesterday" iff one day, the locale date iff 30 days or more |
| Utils.DaysAgoLabel | client/src/lib/utils.ts:19-20 | any other count below 30 reads "N days ago" |
| Utils.FutureDateLabel | client/src/lib/utils.ts:19-20 | a date 1 ms in the future reads "-1 days ago" |
| Utils.FormatDuration | client/src/lib/utils.ts:31-35 | a missing or empty duration reads "Unknown duration"; any other is returned unchanged |
| Utils.TruncateText | client/src/lib/utils.ts:37-40 | text within the limit is unchanged; longer text is its first maxLength characters and "...", of length maxLength+3 |
| Utils.TruncateIdempotent | client/src/lib/utils.ts:37-40 | truncating twice is truncating once |
| Utils.TruncateBound | client/src/lib/utils.ts:37-40 | the result is never longer than maxLength+3 |
| ProtectedRoute.Guard | client/src/lib/protected-route.tsx:28-85 | loading gives the spinner; no user gives the redirect; the component renders iff a user is present and, for admin routes, its flag is exactly `true`; otherwise access is denied |
| ProtectedRoute.GuardStricterThanServer | client/src/lib/protected-route.tsx:47 | whatever the guard admits the server admits too, but "true" and 1, which the server admits, are denied |
| ProtectedRoute.GuardAgreesOnNormalizedFlag | client/src/lib/protected-route.tsx:47 | on a flag the server has normalised, the guard and the server agree |
| HeroSlider.Featured | client/src/components/hero-slider.tsx:218-219 | the featured list is the first min(5, n) trending animes |
| HeroSlider.Visible | client/src/components/hero-slider.tsx:218-219 | a slide shows iff the index is within the featured list |
| HeroSlider.NextIndex | client/src/components/hero-slider.tsx:56 | next stays below n, steps up by one and wraps to 0 at the end |
| HeroSlider.PrevIndex | client/src/components/hero-slider.tsx:69-71 | prev stays below n and wraps from 0 to n-1 |
| HeroSlider.PrevUndoesNext | client/src/components/hero-slider.tsx:52-78 | prev undoes next and next undoes prev |
| HeroSlider.FullCycleReturns | client/src/components/hero-slider.tsx:56 | n steps forward return to the start |
| HeroSlider.Slider.NextSlide | client/src/components/hero-slider.tsx:52-63 | when the list is non-empty and the slider is neither moving nor paused, the index advances and a transition starts; otherwise nothing changes |
| HeroSlider.Slider.PrevSlide | client/src/components/hero-slider.tsx:65-78 | the same guard, with the index stepping back |
| HeroSlider.Slider.TransitionEnd | client/src/components/hero-slider.tsx:59-61 | the timer ends the transition and changes nothing else |
| HeroSlider.Slider.DotClick | client/src/components/hero-slider.tsx:371-375 | a dot selects its slide, ignoring pause and transition |
| HeroSlider.Slider.MouseEnter | client/src/components/hero-slider.tsx:100-102 | pauses, changing nothing else |
| HeroSlider.Slider.MouseLeave | client/src/components/hero-slider.tsx:104-106 | resumes, changing nothing else |
| HeroSlider.SixthTrendingSlideIsBlank | client/src/components/hero-slider.tsx:56 | with six trending animes, five steps reach index 5, where no featured slide exists |
| HeroSlider.IntendedStepsAlwaysShowASlide | client/src/components/hero-slider.tsx:52-78 | stepping over the featured list always shows a slide, and agrees with the original when there are at most five |
| Watch.NextEpisodes | client/src/pages/watch.tsx:64-72 | at most three later episodes, in number order, each taken from the related list no more often than it occurs there; none without a related list |
| Watch.NextEpisodesAreSmallest | client/src/pages/watch.tsx:64-72 | a later episode left out means three were chosen, none numbered above it |
| Watch.NextEpisodesFromRelated | client/src/pages/watch.tsx:64-72 | every chosen episode comes from the related list |
| Explore.Toggle | client/src/pages/explore.tsx:89 | the button always changes the order |
| Explore.ToggleTwice | client/src/pages/explore.tsx:89 | two clicks restore the order |
| Explore.Filtered | client/src/pages/explore.tsx:32-37 | a blank query keeps all; otherwise an anime is kept iff its lower-cased title contains the untrimmed lower-cased query, never more often than it is loaded |
| Explore.FilteredKeepsOrder | client/src/pages/explore.tsx:32-37 | filtering a concatenation gives the filtered parts concatenated, and a single listing stays iff its title matches, so the filter keeps order and repeats |
| Common.Trim | client/src/pages/explore.tsx:32 | the trimmed text occurs in the input, neither starts nor ends with white space, and is empty iff the input is all white space |
| Common.ParseInt | server/auth.ts:223 | all white space gives NaN; a plain digit string parses to its decimal value; a negative result comes from a leading '-' |
| Explore.SortedByYear | client/src/pages/explore.tsx:39-53 | a permutation, ordered by year (missing as 0), ascending or descending |
| Explore.LongQueryFindsNothing | client/src/pages/explore.tsx:32-37 | a query longer than every title finds nothing |
| Explore.PaddedQueryMisses | client/src/pages/explore.tsx:33-35 | " naruto" does not find "Naruto", because the padding is kept |
| GenreFilter.Click | client/src/components/genre-filter.tsx:24-37 | clicking a present id removes it; clicking an absent one appends it |
| GenreFilter.ClickKeepsOthers | client/src/components/genre-filter.tsx:29-36 | the other ids keep their order |
| GenreFilter.ClickTwiceRestores | client/src/components/genre-filter.tsx:29-36 | two clicks on an absent id restore the list |
| AnimeManagement.ExtractErrorMessage | client/src/pages/admin/anime-management.tsx:148-152 | a message with a colon becomes the trimmed text after the first one; a message without one is unchanged |
| AnimeManagement.ExtractsFormattedBody | client/src/pages/admin/anime-management.tsx:148-152 | the extracted message of a formatted server error is the trimmed body |
| AnimeManagement.ExtractKeepsLaterColons | client/src/pages/admin/anime-management.tsx:193-197 | colons after the first are kept |
| AnimeManagement.AvailableGenres | client/src/pages/admin/anime-management.tsx:675-677 | exactly the loaded genres not assigned to the anime; none before loading |
| AnimeManagement.UnassignedKeepsOrder | client/src/pages/admin/anime-management.tsx:675-677 | the filter keeps the original order |
| AnimeManagement.NothingAssignedOffersAll | client/src/pages/admin/anime-management.tsx:675-677 | with no genres assigned, every genre is offered |
| AnimeManagement.SeedAnimesPassForm | client/src/pages/admin/anime-management.tsx:76-80 | every seeded anime passes the form's year and episode bounds |
| AnimeManagement.FormYearBoundMoves | client/src/pages/admin/anime-management.tsx:76-80 | the year bound is currentYear+1 and only widens as years pass |

## Left out

- Dashboard statistics (`GET /admin/stats`): aggregate counts, read-only, not a rule of the core.
- `getTopRatedAnimes`, the rating branch of the explore sort and the slider progress: they use floating-point ratings.
- The title branch of the explore sort: it uses `localeCompare`, a locale-dependent foreign call.
- The locale branch of `formatDate`: `Utils.FormatDate` only says the locale date is shown, not its text.
- Timers, `performance.now()`, logging and `Math.random()` request ids. Waits are recorded as a list of delays, and `now` is a parameter.
- bcrypt, JWT signing and verification, and passport's session plumbing. They are oracles (`matches`, `verify`, `findById`), and `req.isAuthenticated()` is an input.
- The `req.login` error path after registration, and logout.
- Mongoose's casting rules beyond ObjectId texts:
  - `MongoStore.IsObjectId` is 24 hexadecimal digits, while `ObjectId.isValid` also accepts some 12-character strings;
  - a numeric query value is compared as its decimal text, which does not match the exponent form JavaScript uses for numbers of 1e21 and above.
- Schema setters and validators: the `trim` setters, the email pattern, the password length. They are folded into `Mongo.UserDocOk`/`EpisodeDocOk` predicates where a write can fail, and left out elsewhere.
- Zod coercion of the admin bodies: a body is either a parsed record or `None` (400), and numbers are integers.
- MemTables.UpdateAnime: `updateAnime` spreads the raw request body of PATCH /animes/:id over the stored anime; the typed patch does not carry a `null` title, an `id` key (which would rewrite the stored id while the entry stays under the old key) or keys the schema lacks.
- MemTables.UpdateGenre: `updateGenre` spreads the raw body of PATCH /genres/:id; a `null` name, an `id` key and extra keys are not modelled, for the same reason.
- MemTables.UpdateEpisode: `updateEpisode` spreads the raw body of PATCH /episodes/:id; a `null` title, an `id` key, extra keys and a `releaseDate` sent as JSON text are not modelled. The release date is an integer timestamp, so an empty string kept by `||` and a date stored as a string, on which `getRecentlyAddedEpisodes` would then throw, are outside the model.
- AdminRoutes.PatchAnime, AdminRoutes.PatchGenre, AdminRoutes.PatchEpisode: their memory branches hand the raw body to the updates above, with the same gaps; these bodies are never parsed by Zod.
- Common.ToLower and Common.Trim: case folding covers the ASCII letters only, and trimming strips only the ASCII white space, while JavaScript also folds other letters (such as "É") and strips U+00A0, U+FEFF, U+2028 and the other Unicode spaces. The members built on them inherit this: MemTables.SearchAnimes, MemTables.FindGenreByName, Explore.Filtered, AnimeManagement.ExtractErrorMessage. The flag normaliser is unaffected: no other character lowercases to a letter of "true".
- MemTables.SearchAnimes: ASCII case folding only, as stated under Common.ToLower.
- MemTables.FindGenreByName: ASCII case folding only, as stated under Common.ToLower.
- Explore.Filtered: ASCII case folding and ASCII trimming only, as stated under Common.ToLower and Common.Trim.
- AnimeManagement.ExtractErrorMessage: ASCII trimming only, as stated under Common.Trim.
- Seed free text: descriptions, image and video URLs are empty strings in the model. Ids, titles, years, episode numbers and genre names are kept.
- The 500 answers of the outer `catch` blocks, other than those a modelled failure leads to (cast errors, index clashes).
- A string `animeId` in the memory episode PATCH: only numeric values are modelled.
- Concurrency: each handler is one atomic step, so `findByIdAndUpdate`/`findByIdAndDelete` returning null after a successful lookup is not modelled.
- The genres attached to each favorites listing entry, and the anime fields beyond the stored record.
- A numeric `animeId` in the favorites POST body: it is treated as text.
- `disconnectDB`: it only calls the driver and does not touch the flag.
- The video player and all rendering.
- Flags.NormalizeBoolean: its own contract says only that true implies truthy; the exact rule is stated by `NormalizeVersusTruthy`, `NormalizeTrueString` and `NormalizeIgnoresCase`.
- MemTables.ApplyAnimePatch: its contract says only that the id is kept; the field rule is in `NullableFieldRule`.
- MemTables.ApplyEpisodePatch: its contract states the id, title, number and release date; the nullable-field rule for description, thumbnail and duration is stated in `NullableFieldRule`.
- AdminRoutes.MongoAnimePatch: its contract covers the title, year and nullable fields, not the description, cover, status and type, which follow the same truthy rule.
- DbConnect.ConnectionUri: its own contract says only that a `/` is present; the construction is stated by `NoCredentialsNoChange`, `CredentialsInserted` and `CredentialsKeepDatabasePath`.
- QueryClient.ApiRequestIntended: its own contract bounds the fetch count; the corrected behaviour is stated by `IntendedClientErrorsAreFinal`.

## Findings

| source | as written | input that shows it | evidently intended | confidence | as-written member | corrected member |
|---|---|---|---|---|---|---|
| server/routes/admin.ts:153-161 | the memory branch of the user listing and of the flag change (236-239) spreads the stored user, plaintext password included, into the response | `GET /api/admin/users` with MongoDB down | user responses carry no password, as the Mongo branch and the auth routes ensure | not executed | AdminRoutes.MemoryListingSendsPasswords | AdminRoutes.ListUsersIntended |
| client/src/components/hero-slider.tsx:56 | the index wraps modulo the trending count, but only the first five are rendered (218-219) | six trending animes, five `nextSlide` steps | the index ranges over the featured list | not executed | HeroSlider.SixthTrendingSlideIsBlank | HeroSlider.IntendedStepsAlwaysShowASlide |
| client/src/lib/queryClient.ts:98 | the error thrown for a non-retryable status is caught by the same call's `catch` and reclassified from its message | a 404 whose body is "could not fetch anime" | 4xx responses are not retried | not executed | QueryClient.ClientErrorMentioningFetchIsRetried | QueryClient.IntendedClientErrorsAreFinal |
| server/auth.ts:223 | when the Mongo lookup fails, a Mongo session id is passed to `parseInt` and used as a memory id | session id "6a0000000000000000000000" with MongoDB down and memory user 6 present | a session restores only the user it was issued for | not executed | SessionAuth.MongoSessionBecomesMemoryUser | SessionAuth.DeserializeIntended |
| server/routes/favorites.ts:166-169 | a memory anime resolves, but the favorite's `ObjectId`-typed references (server/models/Favorite.ts:11-20) cannot hold a numeric id, so the write fails | `POST /api/favorites` with `animeId` "3" for memory anime 3 | memory animes can be favourited | not executed | Favorites.NumericIdsNeverSucceed | Favorites.TextRefsKeepMemoryFavorites |
