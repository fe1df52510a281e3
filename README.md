# Team jumbler: partitioning engine and room store

This project models the backend core of a live "team jumbler". A host opens a
room identified by a six-character code. Participants join with a name, a
college and a gender. The host sets how many teams to form and whether gender
balance matters, then triggers a jumble.

The **partitioning engine** (`ShuffleService`) works in four steps:
- It creates the teams, each with an id and a name and colour from a ten-entry palette.
- It reorders the participants at random.
- It distributes them by one of two strategies:
  - **Gender path:** gender groups in order, each member appended to the first smallest team.
  - **Diversity path:** each college group dealt round-robin from team 0, then a rebalancing loop. The loop sorts the team array by size and moves one member at a time from the largest team to the smallest.
- It scores the result with a college-diversity score and a gender-balance score.

The **room store** (`RoomManager`) keeps each room as one record under `room:<code>` in a key-value store with a 24-hour expiry:
- `createRoom` writes a fresh record. Every other write reads the whole record, changes it and writes it back. Each write resets the expiry.
- Reads do not renew the expiry.

The project has these modules:
- `Types` (types.dfy): the records, the palette, and the names every plain JavaScript object already inherits.
- `Grouping` (grouping.dfy): grouping participants by college or gender, keys in first-appearance order.
- `TeamBags` (team_bags.dfy): the bag of members and the bag of ids of a team sequence, team creation, and size arithmetic.
- `Scores` (scores.dfy): the two scores as functions, and the loops that compute them.
- `ShuffleService` (shuffle_service.dfy): the engine. Teams are values in an `array<Team>` that the distribution updates in place. Each loop is proved equal to a function on values: `InsertionSorted` for the sort, `Rebalanced` for the rebalancing loop, `FillSmallest` for the gender path, `Dealt` for the round-robin deal and `Shuffled` for the whole run.
- `RoomManager` (room_manager.dfy): the store as `map<string, Entry>`, and the class whose methods update it. The clock is a parameter `now`, in seconds.

**Inherited names as keys.** The grouping objects and the gender-count object are plain `{}` objects. A college or gender spelled like a name on `Object.prototype` (`constructor`, `toString`, `__proto__`, ...) behaves differently from any other text:
- In the grouping loops (ShuffleService.ts:58-61 and :91-94), the lookup finds the inherited value, which is truthy. No group is created, and the `push` that follows is not a function of that value, so the run throws a TypeError. `GroupBy` reports this as `thrown`, and `Shuffled` as `Threw`.
- In the gender count (ShuffleService.ts:165), `(genderCounts[g] || 0) + 1` turns the inherited function into text and stores it as an own slot. `Math.max` over that text is NaN, so the gender-balance score is NaN. For `__proto__` the setter ignores the text, no slot is created, and those members do not count.
- The gender path groups by gender before anything is counted, so it throws instead. A NaN gender score comes only from the diversity path, whose grouping key is the college.

Where the code's own comments and its behaviour differ, the model follows the code:
- **Diversity score "(0-100)"** (ShuffleService.ts:137): an empty team gives 0/0, so the score is NaN.
- **Gender-balance score "(0-100)", higher for a better gender distribution** (ShuffleService.ts:154-155): a single-gender team contributes 1, the highest value, because min/max is taken only over the genders present.
- **"Create a new room with a unique code"** (RoomManager.ts:18): there is no collision check. A record with the same code is overwritten.

## Model

| member | source | states |
|---|---|---|
| Grouping.GroupBy | backend/src/services/ShuffleService.ts:56-62 | the grouping loop throws iff some participant's key is an inherited object name; otherwise it lists each key once, in first-appearance order, and each key's group holds exactly the participants with that key, in input order, and is non-empty |
| Grouping.KeysSpec | backend/src/services/ShuffleService.ts:56-62 | a key is listed iff some participant carries it, and no key is listed twice |
| Grouping.SelectSpec | backend/src/services/ShuffleService.ts:56-62 | every member of a group comes from the input and carries the group's key; a group is empty iff its key is not listed |
| Grouping.GroupsPartition | backend/src/services/ShuffleService.ts:56-62 | the groups, taken in key order, hold exactly the input participants, with multiplicity |
| Grouping.GroupStep | backend/src/services/ShuffleService.ts:58-61 | one step of the grouping loop on a non-inherited key: the participant joins its key's group, which is created and listed on first use |
| TeamBags.NewTeamsSpec | backend/src/services/ShuffleService.ts:15-23 | the creation loop yields n teams; team i has id i, the name and colour at i mod 10, and no members; the ids are 0..n-1 once each |
| TeamBags.BagsOfPermutation | backend/src/services/ShuffleService.ts:118 | reordering the team array keeps the bag of members, the bag of ids and the size deviation |
| TeamBags.BalancedSizesNearBase | backend/src/services/ShuffleService.ts:26 | when no two team sizes differ by more than one, every size lies between total/n and total/n + 1 |
| TeamBags.InExactlyOneTeam | backend/src/services/ShuffleService.ts:30-37 | a participant counted once in the members' bag is in exactly one team |
| Scores.CollegesSpec | backend/src/services/ShuffleService.ts:145 | the set of a team's colleges holds exactly the colleges of its members, and is no larger than the team |
| Scores.DistinctCollegesCount | backend/src/services/ShuffleService.ts:145 | a team whose members come from pairwise different colleges has as many colleges as members |
| Scores.RatioRange | backend/src/services/ShuffleService.ts:146 | a non-empty team's ratio of distinct colleges to members lies in (0, 1] |
| Scores.RatioSumRange | backend/src/services/ShuffleService.ts:142-148 | with no empty team, the summed ratios lie in [0, number of teams] |
| Scores.DiversityScoreRange | backend/src/services/ShuffleService.ts:150 | with at least one team and none empty, the diversity score is a number in [0, 100] |
| Scores.DistinctCollegesRatio | backend/src/services/ShuffleService.ts:145-146 | a team whose members' colleges are all distinct contributes exactly 1 |
| Scores.SingleCollegeRatio | backend/src/services/ShuffleService.ts:145-146 | a team drawn from a single college contributes 1 / its size |
| Scores.AllDistinctScoresHundred | backend/src/services/ShuffleService.ts:141-151 | when every team is non-empty and internally college-distinct, the diversity score is 100 |
| Scores.CalculateDiversityScore | backend/src/services/ShuffleService.ts:141-151 | the accumulation loop returns the diversity score: NaN when there are no teams or a team is empty, else round(100 × mean ratio) |
| Scores.TalliedSpec | backend/src/services/ShuffleService.ts:163-167 | the members whose gender has a numeric slot in the count object are exactly those whose gender is not an inherited name |
| Scores.CountsBounds | backend/src/services/ShuffleService.ts:168-173 | over the genders present in a team, 1 ≤ min count ≤ max count |
| Scores.BalanceRange | backend/src/services/ShuffleService.ts:163-176 | a team's balance is NaN iff some member's gender is an inherited name other than `__proto__`; otherwise it lies in [0, 1] and is positive iff some member's gender is not inherited |
| Scores.SingleGenderBalance | backend/src/services/ShuffleService.ts:163-176 | a non-empty single-gender team contributes 1, not 0; 0 if the gender is `__proto__`, NaN if it is another inherited name |
| Scores.BalanceSumRange | backend/src/services/ShuffleService.ts:162-177 | the summed balances are NaN iff some team has a garbling gender, and otherwise lie in [0, number of teams] |
| Scores.GenderBalanceScoreRange | backend/src/services/ShuffleService.ts:157-180 | the gender-balance score is NaN iff some team has a member whose gender is an inherited name other than `__proto__`; otherwise it lies in [0, 100] |
| Scores.GenderCounts | backend/src/services/ShuffleService.ts:163-166 | the counting loop has a slot for exactly the genders present other than `__proto__`; an ordinary gender's slot holds its number of members, an inherited name's slot holds text |
| Scores.CountStep | backend/src/services/ShuffleService.ts:165 | one member's update of the count object keeps it the count object of the members seen so far |
| Scores.MaxOfCounts | backend/src/services/ShuffleService.ts:172-173 | the largest and smallest count over the genders present |
| Scores.TeamGenderBalance | backend/src/services/ShuffleService.ts:163-176 | one team's contribution from its count object: 0 with no slot, NaN if a slot holds text, else min/max of the counts; equal to `GenderBalance` |
| Scores.CalculateGenderBalanceScore | backend/src/services/ShuffleService.ts:157-180 | 0 with no teams, else round(100 × mean team balance), NaN when a team's balance is NaN; equal to `GenderBalanceScore` |
| ShuffleService.StrideSpec | backend/src/services/ShuffleService.ts:103-106 | in the round-robin deal, member i of a group goes to team i mod n, and a team receives no other member of that group |
| ShuffleService.PartlyDealtMembers | backend/src/services/ShuffleService.ts:98-107 | a partial deal adds to the teams exactly the groups dealt so far |
| ShuffleService.DealtMembers | backend/src/services/ShuffleService.ts:98-107 | after the deal, each team holds its old members followed by its share of every college group, groups in key order |
| ShuffleService.DealGroup | backend/src/services/ShuffleService.ts:103-106 | dealing one group member by member, member i to team i mod n, yields the teams with that group's strides appended |
| ShuffleService.DealRoundRobin | backend/src/services/ShuffleService.ts:98-107 | the deal loop leaves the teams equal to the round-robin deal `Dealt` and adds exactly the participants |
| ShuffleService.InsertionSortedSpec | backend/src/services/ShuffleService.ts:118 | the stable insertion sort by non-increasing size yields sorted teams that are a permutation of the input |
| ShuffleService.SortedUnchanged | backend/src/services/ShuffleService.ts:118 | teams already in size order are left exactly as they are |
| ShuffleService.InsertAt | backend/src/services/ShuffleService.ts:118 | an insertion lands just after the last team at least as large as the inserted one, so ties keep their order |
| ShuffleService.SinkInto | backend/src/services/ShuffleService.ts:118 | one insertion step in place: the prefix up to i becomes the insertion of a[i] into the sorted prefix, the rest is untouched |
| ShuffleService.SortBySize | backend/src/services/ShuffleService.ts:118 | the in-place sort leaves the array equal to `InsertionSorted` of its old contents: sorted by non-increasing size, a permutation, ties in their old order |
| ShuffleService.PopPushSpec | backend/src/services/ShuffleService.ts:121-129 | one move (the largest team's last member popped and pushed onto the smallest) keeps the bag of members, the bag of ids and the palette entries, and lowers the size deviation by 2 |
| ShuffleService.MoveLastMember | backend/src/services/ShuffleService.ts:121-129 | the move in place: the array afterwards holds exactly the teams of `PopPush` of its old contents |
| ShuffleService.MoveAndSort | backend/src/services/ShuffleService.ts:120-133 | one loop step leaves the array equal to the re-sorted move `InsertionSorted(PopPush(old))`; it is sorted, keeps members, ids and palette, and strictly lowers the size deviation, which is why the loop ends |
| ShuffleService.SortedNoMove | backend/src/services/ShuffleService.ts:120-133 | once the largest team has at most base + 1 members or the smallest at least base, no team is above base + 1 while another is below base |
| ShuffleService.MovePermutation | backend/src/services/ShuffleService.ts:118-130 | whether a move is needed does not depend on the order of the teams |
| ShuffleService.RebalancedSpec | backend/src/services/ShuffleService.ts:116-135 | the rebalancing on values ends sorted with no move needed, keeps members, ids and palette, and returns sorted teams needing no move unchanged |
| ShuffleService.RebalanceTeamSizes | backend/src/services/ShuffleService.ts:116-135 | the loop leaves the array equal to `Rebalanced` of the sorted input: sorted, no move needed, members, ids and palette kept; exactly the sorted input when no move was needed |
| ShuffleService.FirstSmallestSpec | backend/src/services/ShuffleService.ts:71-73 | the team the reduce picks has least size, and every earlier team is strictly larger, so ties go to the lowest index |
| ShuffleService.IndexOfSmallest | backend/src/services/ShuffleService.ts:71-73 | the reduce loop returns `FirstSmallest`: a team of least size, ties to the lowest index |
| ShuffleService.AddToSmallest | backend/src/services/ShuffleService.ts:70-74 | the member is pushed onto the first smallest team and nothing else changes |
| ShuffleService.PushSmallestExtends | backend/src/services/ShuffleService.ts:70-74 | pushing onto a smallest team keeps team headers and earlier members, adds exactly that member, and keeps sizes within one of each other |
| ShuffleService.FillSmallestConcat | backend/src/services/ShuffleService.ts:65-76 | filling with one sequence and then another equals filling with their concatenation |
| ShuffleService.FillSmallestExtends | backend/src/services/ShuffleService.ts:69-75 | filling the smallest teams with a sequence keeps headers and earlier members, adds exactly that sequence, and keeps balanced sizes balanced |
| ShuffleService.AddEachToSmallest | backend/src/services/ShuffleService.ts:69-75 | the per-group loop leaves the array equal to `FillSmallest` of the old teams and the group, and so extends the teams by exactly the group |
| ShuffleService.DistributeWithGenderBalance | backend/src/services/ShuffleService.ts:49-77 | throws iff a gender is an inherited name, leaving the teams untouched; otherwise the teams equal `FillSmallest` of the gender groups in key order, gain exactly the participants, keep headers and earlier members, and stay balanced |
| ShuffleService.DistributeWithDiversityFocus | backend/src/services/ShuffleService.ts:82-111 | throws iff a college is an inherited name, leaving the teams untouched; otherwise the teams equal `Rebalanced` of the sorted deal, gain exactly the participants, keep ids and palette, end sorted with no move needed, and are the sorted deal itself when that deal needed no move |
| ShuffleService.CreateTeams | backend/src/services/ShuffleService.ts:15-23 | the creation loop returns a fresh array holding exactly `NewTeams(n)` |
| ShuffleService.GenderPathOutcome | backend/src/services/ShuffleService.ts:33-35 | on the gender path, team j has id j; the teams hold exactly the participants, and every size lies within [total/n, total/n + 1] |
| ShuffleService.NoGarbledTeam | backend/src/services/ShuffleService.ts:56-62 | teams holding participants that could be grouped by gender have a numeric gender-balance score |
| ShuffleService.DealtKeeps | backend/src/services/ShuffleService.ts:98-107 | the deal onto fresh teams holds exactly the participants, with the fresh teams' ids and palette |
| ShuffleService.DiversityTeams | backend/src/services/ShuffleService.ts:82-111 | the diversity path's teams have ids 0..n-1 and their palette, hold exactly the participants, are sorted with no move needed, and are the sorted deal when the deal needed no move |
| ShuffleService.UnmovedDeal | backend/src/services/ShuffleService.ts:116-135 | teams already sorted with no move needed come out of sort and rebalance unchanged |
| ShuffleService.GroupablePermutation | backend/src/services/ShuffleService.ts:56-62 | whether grouping throws does not depend on the random order |
| ShuffleService.ShuffledGenderPath | backend/src/services/ShuffleService.ts:7-44 | on the gender path the run returns the scored `FillSmallest` teams and keeps every promise of `ShuffleResult` |
| ShuffleService.ShuffledDiversityPath | backend/src/services/ShuffleService.ts:7-44 | on the diversity path the run keeps every promise of `ShuffleResult` |
| ShuffleService.ShuffledSpec | backend/src/services/ShuffleService.ts:7-44 | for any random order of the participants, `Shuffled` keeps every promise of `ShuffleResult`: no teams and scores 0 on empty input; a throw iff there is no team or a grouping key is an inherited name; otherwise well-formed, scored teams with the path's guarantees |
| ShuffleService.FewerMembersThanTeamsNaN | backend/src/services/ShuffleService.ts:144-150 | fewer members than teams leaves some team empty, and the diversity score is then NaN |
| ShuffleService.FewerParticipantsThanTeamsNaN | backend/src/services/ShuffleService.ts:7-44 | a run with fewer participants than teams reports a NaN diversity score |
| ShuffleService.EachParticipantInOneTeam | backend/src/services/ShuffleService.ts:30-37 | in a run's result, a participant listed once is in exactly one team |
| ShuffleService.Shuffle | backend/src/services/ShuffleService.ts:7-44 | the run returns exactly `Shuffled(order, config)`: no teams and both scores 0 on empty input; a throw iff the team count is below one or a grouping key is an inherited name; otherwise numTeams teams with ids 0..numTeams-1 and their palette entries, holding exactly the participants, scored, with the gender-path or diversity-path guarantees |
| ShuffleService.InheritedCollegeThrows | backend/src/services/ShuffleService.ts:89-95 | a participant from a college named `constructor` makes the diversity path throw |
| ShuffleService.InheritedGenderNaN | backend/src/services/ShuffleService.ts:157-180 | on the diversity path, a participant whose gender is `toString` makes the gender-balance score NaN |
| ShuffleService.DealLeavesTeamEmpty | backend/src/services/ShuffleService.ts:98-133 | four participants from two colleges dealt to three teams give sizes 2, 2, 0, already sorted, and no rebalancing move is needed |
| ShuffleService.EmptyTeamOutcome | backend/src/services/ShuffleService.ts:7-44 | for that input the run returns the deal itself, scored; its third team is empty and its diversity score is NaN |
| ShuffleService.EmptyTeamScenario | backend/src/services/ShuffleService.ts:7-44 | on the diversity path, four participants and three teams end as exactly the deal, with an empty team and a NaN diversity score |
| RoomManager.RoomKeyInjective | backend/src/managers/RoomManager.ts:10 | two codes share a key iff they are equal |
| RoomManager.Fetch | backend/src/redis/RedisClient.ts:79-81 | a record is read iff its key is present and not expired |
| RoomManager.PutThenFetch | backend/src/managers/RoomManager.ts:188-207 | a saved room reads back unchanged before now + 86400 s, and is gone from then on |
| RoomManager.PutKeepsOthers | backend/src/managers/RoomManager.ts:188-207 | saving one room leaves every other code's record and expiry as they were |
| RoomManager.FetchValid | backend/src/managers/RoomManager.ts:143-164 | the record read for a code belongs to that code and has its participants filed by id |
| RoomManager.PutValid | backend/src/managers/RoomManager.ts:188-207 | saving a room with a generated code and participants filed by id keeps the store well formed |
| RoomManager.NewRoom | backend/src/managers/RoomManager.ts:23-36 | a fresh room has no participants, no teams, is not shuffled, and has 2 teams without gender balance |
| RoomManager.JoinSpec | backend/src/managers/RoomManager.ts:57 | joining inserts or replaces the entry under the participant's id and changes nothing else |
| RoomManager.LeaveSpec | backend/src/managers/RoomManager.ts:77-78 | leaving drops exactly that id and changes nothing else; an absent id leaves the room as it was |
| RoomManager.JoinThenLeave | backend/src/managers/RoomManager.ts:47-86 | joining then leaving restores a room the participant was not in |
| RoomManager.MergeConfigSpec | backend/src/managers/RoomManager.ts:98 | present fields overwrite and absent fields keep their value, with no range check; merging is idempotent and an empty partial changes nothing |
| RoomManager.CreateJoinLeave | backend/src/managers/RoomManager.ts:20-86 | creating a room, then a join and a leave each within the expiry window, reads back as the fresh room |
| RoomManager.RoomManager.CopyParticipants | backend/src/managers/RoomManager.ts:152-157 | the copy between the participant Map and the stored object carries every entry over |
| RoomManager.RoomManager.GetRoom | backend/src/managers/RoomManager.ts:143-164 | returns the stored room iff its key is live; does not touch the expiry |
| RoomManager.RoomManager.RoomExists | backend/src/managers/RoomManager.ts:169-173 | true iff the key is present and not expired |
| RoomManager.RoomManager.SaveRoom | backend/src/managers/RoomManager.ts:188-207 | writes the whole room under its key with expiry now + 86400 s |
| RoomManager.RoomManager.CreateRoom | backend/src/managers/RoomManager.ts:20-42 | stores a fresh room under the given code with a full expiry, overwriting any record there, and returns the code |
| RoomManager.RoomManager.AddParticipant | backend/src/managers/RoomManager.ts:47-65 | false with nothing changed on a missing or expired room; otherwise saves the room with the participant joined and publishes a join |
| RoomManager.RoomManager.RemoveParticipant | backend/src/managers/RoomManager.ts:70-86 | false with nothing changed on a missing room; otherwise re-saves with the id removed, even if it was absent, and publishes a leave |
| RoomManager.RoomManager.UpdateShuffleConfig | backend/src/managers/RoomManager.ts:91-103 | false with nothing changed on a missing room; otherwise re-saves with the merged configuration |
| RoomManager.RoomManager.ExecuteJumble | backend/src/managers/RoomManager.ts:108-138 | false with nothing changed on a missing room or one without participants. Otherwise the outcome is `Shuffled` of the participants and keeps every promise of `ShuffleResult`. If it throws (a team count below one, or an inherited name as grouping key): rejected, nothing saved or published. Otherwise: stores those teams and marks the room shuffled; the scores are only published |
| RoomManager.RoomManager.DeleteRoom | backend/src/managers/RoomManager.ts:178-183 | true iff a live record was there; the key is absent afterwards |

## Left out

- Randomness: the three random reorderings (the input sort and the per-group sorts) are one caller-supplied `order`, any permutation of the participants. An outcome of sort, group and re-sort is reachable from the order that lists those groups one after another.
- Room codes: the generated code is a parameter satisfying `ValidCode` (six characters over 0-9 and A-Z).
- Map and object ordering: the participant list that `executeJumble` hands to the engine is taken to be `order` itself. Map insertion order, and the order JavaScript gives integer-like object keys, are not modelled; the random sort makes the initial order irrelevant.
- Group key order: `Object.keys` puts integer-like keys first in numeric order. The model lists keys in first-appearance order, which agrees whenever no college or gender is an integer-like string.
- Numbers: `numTeams` is an integer. A fractional team count is not modelled. The weights are reals, and the scores use exact rational arithmetic with round = floor(x + 0.5) instead of IEEE doubles.
- Unused inputs: `remainder` is not modelled, because the distribution functions take it but never read it. `maxDiversityWeight` is carried in the configuration and merged like the other fields, but nothing reads it.
- Inherited names: the names a plain object inherits are the twelve of `Object.prototype` in current JavaScript engines (`INHERITED` in types.dfy). Names added to `Object.prototype` by other code are not modelled.
- JSON encoding and `createdAt`: a stored record is the room itself, and the creation date is not modelled. Malformed stored data, and configuration values of the wrong type, are not modelled.
- Publish/subscribe: a publish is one entry appended to the ghost log `published`. The channel transport, the timestamps and `subscribeToRoom` are not modelled.
- Concurrency: operations run one at a time, so lost updates between concurrent read-modify-write cycles are not modelled.
- Redis client: connection handling and retries are not modelled. Expired keys stay in the map but read as absent.
- Logging: console output is not modelled.
- The server wiring (backend/src/index.ts) and the frontend are not part of this model.
- RoomManager.RoomManager.ExecuteJumble: the random reordering is not stated as the permutation applied to the Map's value list, because `order` is taken directly as that list.
