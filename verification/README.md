# Election server core in Dafny

A model of the server side of a small online election: the in-memory store
`MemStorage` (candidates, vote rows, admins, and three auto-increment id
counters), the request handlers of `registerRoutes` that guard it, and the
record shapes and input schemas of `shared/schema.ts`.

The store is an immutable record. Each of its three JavaScript `Map`s is an
insertion-ordered map (`OrderedMaps.OrderedMap`). Every storage operation and
every route handler is a pure function from the current store (plus path
parameters and the decoded JSON body) to its result and the next store.
`Election.Handle` dispatches one request. `Election.Run` handles a sequence of
requests one after another.

Files:

- `ordered_map.dfy`: `Optional` (JavaScript's `T | undefined`) and
  `OrderedMaps` (the `Map` with `get`, `set`, `delete` and `values()`).
- `schema.dfy`: `Schema`, which has the records, the request-body model and
  the zod parsers.
- `storage.dfy`: `Storage`, which is `MemStorage`.
- `storage_facts.dfy`: `StorageFacts`, the properties of the store operations.
- `format.dfy`: `Decimal`, which is `toFixed(1)` for the vote shares.
- `routes.dfy`: `Routes`, one function per HTTP handler.
- `election.dfy`: `Election`, request dispatch and request sequences.
- `tally.dfy`: `Tally`, which counts vote rows against candidate listings.
- `election_facts.dfy`: `ElectionFacts`, the invariants of the running
  server and what follows from them.

Main results:

- Every store reachable from start-up is `Consistent`:
  - it is well formed;
  - every tally equals the number of vote rows naming that candidate;
  - no two vote rows share a token;
  - no two admins share a username.
- `MemStorage.castVote` does not check tokens (`CastVoteDoesNotDeduplicate`).
  Uniqueness of tokens comes from the route's `hasVoted` guard alone.
- The `totalVotes` of the statistics route counts the vote rows that name a
  candidate that still exists.
  - While no candidate is deleted, it equals the number of vote rows after
    any sequence of requests (`NoDeletesKeepTotalEqualToRows`). Deleting a
    candidate without votes keeps it equal too (`HandleKeepsNoOrphans`).
  - Once a candidate with votes is deleted, it is strictly smaller whatever
    requests follow (`DeletedVotesStayUncounted`), because deletion does not
    cascade to vote rows.

Percentages are computed with exact rational arithmetic. The rounding rule is
the one `Number.prototype.toFixed` specifies: the nearest value with one
decimal, and the larger one on a tie.

Two facts about the schemas that are easy to miss:

- The candidate schema has `party` and no `symbolImage`.
- `name`, `party` and `experience` may be empty strings. Only the login schema
  demands non-empty strings.

## Model

| member | source | states |
|---|---|---|
| OrderedMaps.Set | server/storage.ts:97-104 | `Map.set`: the key then maps to the value and no other key changes; a key already present keeps its place in iteration order, a new key goes last |
| OrderedMaps.Delete | server/storage.ts:106-108 | `Map.delete`: returns true exactly when the key was present; afterwards the key is absent, every other key keeps its value, a miss changes nothing, and a hit removes the key from the iteration order |
| OrderedMaps.Remove | server/storage.ts:106-108 | removing a key from the iteration order keeps exactly the other keys |
| OrderedMaps.RemoveConcat | server/storage.ts:106-108 | removing a key from two joined lists removes it from each part, so the kept keys stay in their original order |
| OrderedMaps.RemoveMiddle | server/storage.ts:106-108 | removing a key listed once leaves the keys before it followed by the keys after it |
| OrderedMaps.DeleteKeepsOrder | server/storage.ts:106-108 | `Map.delete` of a key listed between `before` and `after` leaves the iteration order `before` then `after` |
| OrderedMaps.RemoveKeepsDistinct | server/storage.ts:106-108 | removing a key never makes the iteration order list a key twice |
| OrderedMaps.ListedValueIsStored | server/storage.ts:79-81 | every value `values()` lists is stored under some key |
| OrderedMaps.StoredValueIsListed | server/storage.ts:79-81 | every stored value is listed by `values()` |
| OrderedMaps.ValuesSetFresh | server/storage.ts:93 | setting a new key appends its value to the end of `values()` |
| OrderedMaps.ValuesSetPresent | server/storage.ts:102 | setting a present key replaces its value in place in `values()` |
| Schema.ParseInsertCandidate | shared/schema.ts:25-28 | the body is accepted exactly when it is an object whose `name`, `party` and `experience` are strings, and the input carries those three strings |
| Schema.ParseCandidatePatch | server/routes.ts:37 | the partial schema accepts exactly an object whose declared fields, where present, are strings; a field is supplied exactly when the body has it, and then carries the body's string |
| Schema.ParseInsertVote | shared/schema.ts:30-32 | the body is accepted exactly when `candidateId` is an integer and `voterToken` a string, and the input carries exactly those two |
| Schema.ParseAdminLogin | shared/schema.ts:38-41 | the body is accepted exactly when `username` and `password` are both non-empty strings |
| Schema.CandidateInputIgnoresIdAndVotes | shared/schema.ts:25-28 | whatever `id` and `votes` a body carries, creating and editing parse it as if they were absent |
| Schema.VoteInputIgnoresId | shared/schema.ts:30-32 | an `id` in a vote body is ignored |
| Storage.GetCandidate | server/storage.ts:83-85 | a record is found exactly when the id is listed, it is the record stored under that id, and on a well-formed store it carries that id |
| Storage.CreateCandidate | server/storage.ts:87-95 | the new record takes the counter value as id and 0 votes, the counter rises by one, and no other candidate, vote or admin changes |
| Storage.UpdateCandidate | server/storage.ts:97-104 | an unknown id gives undefined and no change; a known id keeps its id and votes, takes the supplied fields and keeps the rest, and nothing else changes |
| Storage.DeleteCandidate | server/storage.ts:106-108 | true exactly when the id was present; only that candidate goes; vote rows and counters are untouched |
| Storage.CastVote | server/storage.ts:114-129 | a new row under the vote counter; the named candidate, if it exists, gains exactly one vote and no other candidate changes; otherwise no tally changes |
| Storage.AnyToken | server/storage.ts:131-133 | `some` over the rows: true exactly when some row carries the token |
| Storage.HasVoted | server/storage.ts:131-133 | true exactly when some stored vote row carries exactly this token |
| Storage.GetAdminByUsername | server/storage.ts:135-137 | the result is a stored admin with that username, and there is none exactly when no stored admin has it |
| Storage.FindByUsername | server/storage.ts:135-137 | `find`: none exactly when no admin has the username, otherwise the first one that has it |
| Storage.CreateAdmin | server/storage.ts:139-146 | the new admin takes the counter value as id, the counter rises by one, no other record changes |
| StorageFacts.RemoveKeepsAscending | server/storage.ts:106-108 | deleting keeps the listed ids ascending and issued |
| StorageFacts.CounterIsFresh | server/storage.ts:87-95 | the counter's current value is not yet a key |
| StorageFacts.AppendCounterKeepsAscending | server/storage.ts:87-95 | appending the counter's value keeps the listed ids ascending |
| StorageFacts.CreateCandidateFacts | server/storage.ts:87-95 | the handed-out id is unused and above every listed id, the record is appended to the listing, and the store stays well formed |
| StorageFacts.UpdateCandidateFacts | server/storage.ts:97-104 | editing keeps the store well formed and the listing order unchanged |
| StorageFacts.UpdateCandidateInPlace | server/storage.ts:100-103 | editing replaces the candidate's entry in place in the listing |
| StorageFacts.DeleteCandidateKeepsWf | server/storage.ts:106-108 | deleting keeps the store well formed |
| StorageFacts.DeleteListing | server/storage.ts:106-108 | after deleting, the listing holds exactly the other candidates |
| StorageFacts.DeleteCandidateFacts | server/storage.ts:106-108 | deleting keeps the store well formed and lists exactly the remaining candidates |
| StorageFacts.CastVoteFacts | server/storage.ts:114-129 | the new row's id is unused, the row is appended to `getVotes`, `hasVoted` then holds for its token, and the store stays well formed |
| StorageFacts.CreateAdminFacts | server/storage.ts:139-146 | the admin's id is unused and the admin is appended to the admin listing |
| StorageFacts.CandidatesListedInIdOrder | server/storage.ts:79-85 | `Storage.GetCandidates` lists every stored candidate once, in strictly ascending id order, each under its own id |
| StorageFacts.VotesListedInIdOrder | server/storage.ts:110-112 | `Storage.GetVotes` lists every stored vote row once, in strictly ascending id order, each under its own id |
| StorageFacts.AdminLookupFacts | server/storage.ts:135-137 | on a well-formed store, the admin found by username is the one stored under its own id |
| StorageFacts.SeedKeepsWf | server/storage.ts:69-76 | `Storage.Seed`, the `forEach` over the samples: seeding the samples keeps the store well formed, advances the candidate counter by the number of samples and touches nothing else |
| StorageFacts.SeedListing | server/storage.ts:69-76 | `Storage.Seed`: seeding appends one record per sample with consecutive ids and no votes |
| StorageFacts.SampleListing | server/storage.ts:51-76 | the three samples become candidates 1 to 3 with their names, parties and experience and 0 votes |
| StorageFacts.InitState | server/storage.ts:29-77 | `Storage.Init`, the constructor with `initializeData`: afterwards admin 1 `UNIQUE`, candidates 1 to 3 with 0 votes in sample order, next candidate id 4, no votes |
| StorageFacts.CastVoteDoesNotDeduplicate | server/storage.ts:114-129 | `castVote` with a token that already voted stores a second row with it: the declared token uniqueness is not enforced by the store |
| StorageFacts.FindIgnoresAppended | server/storage.ts:135-137 | `find` still returns an earlier match after a value is appended |
| StorageFacts.CreateAdminDoesNotDeduplicate | server/storage.ts:139-146 | a second admin with a used username is stored but can never be found by username, and the declared uniqueness is lost |
| Decimal.Digits | server/routes.ts:123 | the decimal numeral of a number: digits only, no leading zero |
| Decimal.DigitsRoundTrip | server/routes.ts:123 | reading the numeral back gives the number |
| Decimal.FormatTenths | server/routes.ts:123 | `toFixed(1)`'s shape: digits with no leading zero unless the whole part is zero, a point, one digit |
| Decimal.FormatTenthsRoundTrip | server/routes.ts:123 | the text reads back as the number of tenths it was made from |
| Decimal.RoundedTenths | server/routes.ts:123 | the tenths are the integer nearest to 1000 * votes / total, the larger one on a tie |
| Decimal.Percentage | server/routes.ts:123 | `((votes / total) * 100).toFixed(1)`: a `toFixed(1)`-shaped text whose value is the share rounded to the nearest tenth of a percent, with a leading minus sign before the rounded magnitude for a negative share |
| Decimal.PercentageBounds | server/routes.ts:123 | a share lies between "0.0" and "100.0" and is exactly those at no votes and all votes |
| Decimal.TwoToOneSplit | server/routes.ts:123 | two of three votes show as "66.7" and one as "33.3" |
| Routes.ListCandidates | server/routes.ts:9-16 | 200 with every stored candidate and nothing else, in ascending id order on a well-formed store |
| Routes.PostCandidate | server/routes.ts:19-31 | 201 exactly when the body parses, with the body's fields, a fresh id and 0 votes, the candidate counter up by one and nothing else changed; otherwise 400 "Invalid candidate data" and no change |
| Routes.PatchCandidate | server/routes.ts:34-53 | a bad body is 400 even for an unknown id; 200 exactly for a parsed body and a known numeric id, with id and votes kept and each of `name`, `party` and `experience` taken from the body when supplied and kept otherwise, no other record or counter changed; otherwise 404 and no change |
| Routes.DeleteCandidateRoute | server/routes.ts:56-70 | 200 exactly for a known numeric id, removing only it and no vote rows, with every counter unchanged; otherwise 404 and no change |
| Routes.PostVote | server/routes.ts:73-100 | a bad body is 400; a used token is 400 before the candidate is looked at; an unknown candidate is 404; each refusal changes nothing; 201 exactly when all three pass, storing one row and one tally increment |
| Routes.CheckVote | server/routes.ts:103-111 | 200 with whether some stored row carries exactly this token |
| Routes.FoldIsSum | server/routes.ts:117 | `Routes.FoldTallies`, the `reduce` over the tallies, equals their independently defined sum |
| Routes.ShareText | server/routes.ts:123 | "0.0" while the total is 0; otherwise a `toFixed(1)`-shaped decimal (no leading zero, one digit after the point) whose value is the share rounded to the nearest tenth of a percent |
| Routes.Stats | server/routes.ts:114-134 | 200 with one entry per listed candidate (same order, id, name and votes), the total of the tallies, "0.0" for every share while the total is 0, and turnout "67.3" |
| Routes.Login | server/routes.ts:137-159 | a bad body is 400; 200 exactly when the first admin with the username has the password, showing only id and username; otherwise 401 |
| Election.Handle | server/routes.ts:7-163 | a refused request (status 400 or above) changes nothing; counters never go back; no route changes the admins |
| Election.Run | server/routes.ts:7-163 | one response per request; counters never go back and the admins never change across any sequence |
| Tally.CountForAppend | server/storage.ts:114-129 | a new row adds one to the count of the candidate it names and nothing to the others |
| Tally.CountForPositive | server/storage.ts:114-129 | a candidate has a positive count exactly when some row names it |
| Tally.MatchesAtMostOne | server/storage.ts:79-81 | in a listing without repeated ids an id matches at most once, and does so exactly when it is listed |
| Tally.SumCountsAppend | server/routes.ts:117 | a new row adds to the per-candidate sum once per listed entry it names |
| Tally.SumCountsIsLive | server/routes.ts:117 | over distinct ids, the per-candidate counts add up to the rows naming a listed candidate |
| Tally.TalliesAreCounts | server/routes.ts:117 | when each tally is its candidate's row count, the tallies sum to the per-candidate counts |
| Tally.LiveAtMostAll | server/routes.ts:117 | at most all rows name a listed candidate, and all do exactly when none names an unlisted one |
| ElectionFacts.HandleKeepsWf | server/routes.ts:7-163 | every route keeps the store well formed |
| ElectionFacts.HandleFrame | server/routes.ts:7-163 | no route changes or removes a stored vote row, and only the counter's id can become a new candidate |
| ElectionFacts.HandleKeepsTokensUnique | server/routes.ts:77-92 | the route guard keeps vote tokens unique although the store does not check them |
| ElectionFacts.UnissuedIdHasNoVotes | server/storage.ts:87-95 | no vote row names the id the candidate counter is about to hand out |
| ElectionFacts.PostCandidateKeepsTallies | server/routes.ts:19-31 | creating a candidate keeps every tally equal to its row count |
| ElectionFacts.PatchCandidateKeepsTallies | server/routes.ts:34-53 | editing keeps every tally equal to its row count |
| ElectionFacts.DeleteCandidateKeepsTallies | server/routes.ts:56-70 | deleting keeps every remaining tally equal to its row count |
| ElectionFacts.CastVoteKeepsTallies | server/storage.ts:114-129 | a vote for an existing candidate keeps every tally equal to its row count |
| ElectionFacts.CastVoteKeepsVotesIssued | server/storage.ts:114-129 | a vote for an existing candidate names an id already issued |
| ElectionFacts.PostVoteKeepsTallies | server/routes.ts:73-100 | the vote route keeps every tally equal to its row count |
| ElectionFacts.HandleKeepsTallies | server/routes.ts:7-163 | every route keeps every tally equal to its row count |
| ElectionFacts.HandleKeepsConsistent | server/routes.ts:7-163 | every route keeps the store consistent |
| ElectionFacts.RunKeepsConsistent | server/routes.ts:7-163 | any sequence of requests keeps the store consistent |
| ElectionFacts.InitConsistent | server/storage.ts:29-77 | the store after construction is consistent |
| ElectionFacts.ListingIds | server/storage.ts:79-81 | the listing repeats no id and lists exactly the stored ids |
| ElectionFacts.StatsTotalIsLiveVotes | server/routes.ts:117 | on a consistent store the reported total is the number of rows naming a candidate that still exists |
| ElectionFacts.StatsTotalCountsEveryVote | server/routes.ts:117 | while no row is orphaned, the reported total is the number of vote rows |
| ElectionFacts.AcceptedBallotKeepsTotalEqualToRows | server/routes.ts:77-92 | with no orphaned rows, an accepted ballot adds one row and one to the total, keeping them equal |
| ElectionFacts.DeletingVotedCandidateLosesVotes | server/routes.ts:56-70 | deleting a candidate with votes keeps its rows, and the total then falls below the number of rows |
| ElectionFacts.NoDeletesKeepTotalEqualToRows | server/routes.ts:114-134 | as long as no candidate is deleted, no vote row is orphaned and the reported total equals the number of vote rows after any sequence of requests |
| ElectionFacts.OrphanedVoteStaysUncounted | server/routes.ts:56-70 | a vote row naming a deleted candidate stays stored and orphaned under any sequence of requests, and the total stays below the number of rows |
| ElectionFacts.DeletedVotesStayUncounted | server/routes.ts:56-70 | after a candidate with votes is deleted, the total stays below the number of rows whatever requests follow |
| ElectionFacts.HandleKeepsNoOrphans | server/routes.ts:7-163 | every row keeps naming an existing candidate under every route except deleting a candidate with votes |
| ElectionFacts.DeleteKeepsNoOrphans | server/routes.ts:56-70 | deleting a candidate that no row names orphans no row |
| ElectionFacts.PostVoteKeepsNoOrphans | server/routes.ts:73-100 | an accepted ballot names an existing candidate and orphans no other row |
| ElectionFacts.NamedCandidateHasVotes | server/storage.ts:114-129 | a candidate named by some row has a positive tally |
| ElectionFacts.LoginSucceedsExactlyForStoredCredentials | server/routes.ts:137-159 | with unique usernames, login succeeds exactly when some stored admin has both the username and the password |
| ElectionFacts.OnlyAdminLogsIn | server/routes.ts:137-159 | a store whose only admin is the seeded one accepts `UNIQUE` / `UNIQUE123` with id 1 |
| ElectionFacts.SeededAdminLogsIn | server/storage.ts:41-48 | right after start-up, `UNIQUE` / `UNIQUE123` logs in as admin 1 |
| ElectionFacts.RunKeepsVoteRows | server/routes.ts:7-163 | no sequence of requests changes or removes a stored vote row |
| ElectionFacts.VotedStaysVoted | server/storage.ts:131-133 | once a token has voted, `hasVoted` stays true whatever follows |
| ElectionFacts.DeletedIdsStayFree | server/storage.ts:87-95 | a candidate id that was issued and is now free (deleted) is never handed out again |
| ElectionFacts.SecondBallotWithSameTokenRefused | server/routes.ts:77-92 | two ballots with one token get 201 and then 400 "You have already voted", whichever candidate the second names |
| ElectionFacts.ReachableConsistent | server/routes.ts:7-163 | every store reached from start-up by any sequence of requests is consistent |

## Left out

- The 500 responses are not modelled. No `MemStorage` operation throws, so
  the `catch` branches other than the zod branch cannot be reached.
- zod's issue list, which goes in the `errors` field of a 400 response, is not
  modelled. A 400 carries only its message.
- JSON numbers are modelled as integers. Any other number, like any other
  non-string value, is one `JOther` value. Two effects follow:
  - A fractional `candidateId` is refused at parsing. The installed zod
    version might instead accept it and reach the 404 branch.
  - Range limits the integer column might add to the schema are not modelled.
- JavaScript's double-precision arithmetic is not modelled. Ids, counters and
  tallies are unbounded integers.
- Decimal.Percentage: divides exactly instead of in double precision. At an
  exact tie in the second decimal, `toFixed(1)` of the rounded double can
  differ from this result by one tenth.
- `parseInt` of a path parameter is reduced to its result: a number, or NaN.
  The parsing of the text itself is not modelled. NaN matches no key, so it
  gets the same 404 as an unknown id.
- Express routing, HTTP transport and the `http` server are not modelled.
- Concurrency is not modelled. Each handler runs as one atomic step, so the
  check-then-act window between `hasVoted` and `castVote` is not represented.
- `getVotes` and `createAdmin` have no route. They are modelled at the store
  level only.
- The client UI is not part of this model, and neither is the `symbolImage`
  field the client sends. The schema has no such field, and zod drops it.
- The database-backed storage behind `IStorage` is not part of this model.
  Only `MemStorage` is modelled, so the table's unique constraints are not
  enforced.
