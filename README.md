# Shift optimizer: team selection and schedule building

This project models the scheduling core of `shift_optimizer.py`, a greedy planner that
staffs each day with a team of four. The input is a list of days, the names available on
each day, and each person's gender category and committee flag.

`choose_team` enumerates the 4-member combinations of a day's candidates in
`itertools.combinations` order. The primary pass scores only teams that have a committee
member. Each team's penalty is built from these terms:

- +5 for no male member and +5 for no female member;
- `(c - 1) * 10` for each member already assigned `c >= 2` times;
- +3 for each member who was on the previous day's team.

The pass keeps the first team of minimum score: a later team replaces the best so far only
when it scores strictly lower. When the
primary pass scores nothing, a fallback pass scores every combination on top of a base
penalty of 100.

`build_schedule` walks the days in order and chooses each day's team against the counts
left by the earlier days. It then increments each member's count and makes the team the
previous team. It fails with an error naming the first day that has no valid team.

Modules:

- `Wrappers`: `Option` and `Result`.
- `Members`: the attribute records, `count_gender` (`CountGender`) and `has_committee` (`HasCommittee`).
- `Enumeration`: the combinations of positions in the library's order, as ascending index
  tuples in lexicographic order.
  - `Combinations` lists them.
  - `Pick` takes the candidates at a tuple's positions.
- `Tally`: the counts `defaultdict(int)`.
  - As a value: a map from name to count. `Touch` materialises zero entries on read, `Bump` and `BumpAll` increment, `Total` sums.
  - As an object: the class `Counts`, whose methods `Read` and `Increment` update its map in place.
- `Scoring`: the penalty as a function (`Penalty`), with its terms and the lemmas about them.
- `Selector`: `choose_team` as methods over a `Counts` object.
  - `Score` is the scoring loop; `SearchPass` is one pass; `ChooseTeam` runs both passes.
  - They are proved against the specification functions `FirstBest`, `ChosenIndices` and `Chosen`.
  - Lemmas characterise those functions: the first minimum, the committee rule, and the shape of the returned team.
- `Schedule`: `build_schedule` as the method `BuildSchedule`, proved equal to the function `Run`.
  - `Run` folds a selection rule over the days.
  - The lemmas about `Run` hold for every rule that satisfies `Sound`. `ChooseTeamRuleSound` proves that `choose_team`'s own rule is sound.

## Model

| member | source | states |
|---|---|---|
| Members.CountGender | shift_optimizer.py:48-51 | the male count is 0 exactly when no member is male, and the female count is 0 exactly when no member is female; together they never exceed the team size |
| Members.CountCategory | shift_optimizer.py:49-50 | a generator count is at most the team size, and it is 0 exactly when no member has that category |
| Members.CategoriesDisjoint | shift_optimizer.py:49-50 | counts of two different categories add up to at most the team size |
| Members.HasCommittee | shift_optimizer.py:54-55 | true exactly when some member carries the committee flag |
| Enumeration.Combinations | shift_optimizer.py:62 | every enumerated tuple is 4 strictly ascending positions within the candidate list |
| Enumeration.CombinationsComplete | shift_optimizer.py:62 | every tuple of 4 strictly ascending positions is enumerated |
| Enumeration.CombinationsSorted | shift_optimizer.py:62 | tuples are enumerated in strictly increasing lexicographic order |
| Enumeration.CombinationsEmptyIff | shift_optimizer.py:62 | nothing is enumerated exactly when there are fewer than 4 candidates |
| Enumeration.PickDistinct | shift_optimizer.py:62 | candidates taken at ascending positions of a duplicate-free list are duplicate-free |
| Enumeration.NothingBeforeFirst | shift_optimizer.py:62 | no combination precedes the first four positions |
| Enumeration.LexLessTotal | shift_optimizer.py:62 | two distinct tuples of equal length are ordered one way or the other |
| Tally.Count | shift_optimizer.py:72-73 | the value `counts[name]` yields: the stored count, or 0 for a name without an entry |
| Tally.Bump | shift_optimizer.py:110 | the table after `counts[name] += 1`: that name's count one higher, every other entry as it was |
| Tally.BumpAll | shift_optimizer.py:109-110 | the table after incrementing every member of a team in order |
| Tally.Touch | shift_optimizer.py:72-73 | a read through the defaultdict adds zero entries for the names read and changes no count |
| Tally.TouchTwice | shift_optimizer.py:72-73 | reading two batches of names materialises their union |
| Tally.BumpAllCount | shift_optimizer.py:109-110 | incrementing a team raises each name's count by its number of occurrences in the team and adds the team to the keys |
| Tally.TotalTouch | shift_optimizer.py:72-73 | materialised zero entries leave the sum of the counts unchanged |
| Tally.TotalBumpAll | shift_optimizer.py:109-110 | incrementing a team raises the sum of the counts by the team size |
| Tally.Counts.constructor | shift_optimizer.py:101 | a new counts table is empty |
| Tally.Counts.Read | shift_optimizer.py:72-73 | `counts[name]` returns the name's count (0 if absent) and materialises its entry |
| Tally.Counts.Increment | shift_optimizer.py:110 | `counts[name] += 1` raises that name's count by one and touches nothing else |
| Scoring.Penalty | shift_optimizer.py:65-75 | a team's score: the pass's base (0 here, 100 at line 82) plus the gender term plus the per-member terms |
| Scoring.OverloadPenalty | shift_optimizer.py:72-73 | the overload term of a member with count `c`: `(c - 1) * 10` when `c >= 2`, otherwise 0 |
| Scoring.Repeated | shift_optimizer.py:74 | whether a member was on the previous team; never when there is no previous team |
| Scoring.MemberPenalty | shift_optimizer.py:72-75 | one member's overload term plus 3 when they were on the previous team |
| Scoring.MemberPenalties | shift_optimizer.py:71-75 | the per-member terms of a team, summed in loop order |
| Scoring.GenderPenalty | shift_optimizer.py:66-70 | 5 for no male member plus 5 for no female member |
| Scoring.MemberPenaltiesZeroIff | shift_optimizer.py:71-75 | the per-member terms vanish exactly when no member has a count above 1 or was on the previous team |
| Scoring.PenaltyZeroIff | shift_optimizer.py:65-75 | a primary-pass score is 0 exactly when the team has both genders, no member has a count above 1, and nobody was on the previous team |
| Scoring.MemberPenaltiesMonotone | shift_optimizer.py:72-73 | higher counts never lower the per-member terms |
| Scoring.PenaltyMonotone | shift_optimizer.py:72-73 | a team's score never decreases when its members' counts grow |
| Scoring.PenaltySameCounts | shift_optimizer.py:72-73 | tables that agree on every count give every team the same score |
| Scoring.RepeatAddsThree | shift_optimizer.py:74-75 | one more member of a duplicate-free team on the previous team adds exactly 3 to the per-member terms |
| Scoring.PenaltyRepeatAddsThree | shift_optimizer.py:74-75 | one more member of a duplicate-free team on the previous team adds exactly 3 to the score |
| Scoring.NotMemberSamePenalties | shift_optimizer.py:74-75 | changing the previous team only for a non-member leaves the per-member terms unchanged |
| Scoring.MemberPenaltiesBump | shift_optimizer.py:72-73 | one more assignment of a member adds 10 to the per-member terms if their count was at least 1, and nothing if it was 0 |
| Scoring.OthersUnchanged | shift_optimizer.py:72-73 | an assignment of a non-member leaves the per-member terms unchanged |
| Scoring.PenaltyBumpOne | shift_optimizer.py:72-73 | one more assignment of a member adds 10 to the score if their count was at least 1, and nothing if it was 0 |
| Selector.CandidateTeams | shift_optimizer.py:62 | the teams `itertools.combinations(candidates, 4)` yields, in its order: the candidates at each enumerated position tuple |
| Selector.FirstMin | shift_optimizer.py:76-78 | the strict-`<` scan: the best position so far is replaced only by a scored position with a strictly lower score; None while nothing is scored |
| Selector.FirstBest | shift_optimizer.py:60-78 | the position of the team one pass settles on: the scan over the pass's eligibility and scores |
| Selector.ReadNames | shift_optimizer.py:71-73 | the names whose counts one pass reads: the members of every team it scores |
| Selector.Chosen | shift_optimizer.py:58-96 | the team `choose_team` returns: the primary pass's team, else the fallback pass's team, else None |
| Selector.ChooseReads | shift_optimizer.py:72-73 | the names whose zero entries `choose_team` materialises: those the primary pass reads, or, when it scores nothing, those the fallback pass reads |
| Selector.FirstMinIsFirstMinimum | shift_optimizer.py:76-78 | the scan finds nothing exactly when nothing is scored; otherwise it returns a scored position whose score is at most every scored one and strictly below every earlier one |
| Selector.FirstBestIsFirstMinimum | shift_optimizer.py:62-78 | a pass finds nothing exactly when it scores no team; otherwise it returns the first team of minimum score among those it scores |
| Selector.FirstBestSameCounts | shift_optimizer.py:72-73 | a pass settles on the same team for tables that agree on every count |
| Selector.ReadNamesNoneEligible | shift_optimizer.py:63-64 | a pass that skips every team reads no count |
| Selector.ChosenIndices | shift_optimizer.py:58-96 | a returned team's positions are 4 strictly ascending candidate positions |
| Selector.Score | shift_optimizer.py:65-75 | the loop's score equals the penalty of the team against the counts before the call, and the counts table gains zero entries for the members |
| Selector.ScoreStep | shift_optimizer.py:76-78 | a scored team replaces the best exactly when its score is strictly lower, and its reads keep every score as it was |
| Selector.SearchPass | shift_optimizer.py:60-78 | one pass returns the team at the first minimum position (None when no team is scored) and materialises exactly the members of the teams it scored |
| Selector.ChooseTeam | shift_optimizer.py:58-96 | the result is the team `Chosen` specifies; the table gains zero entries for the names read and no count changes |
| Selector.CommitteeOnSomeTeam | shift_optimizer.py:62-64 | a committee member among at least 4 candidates lies on some team the primary pass scores |
| Selector.CommitteeFromTeam | shift_optimizer.py:62-64 | a team the primary pass scores implies at least 4 candidates, one of them on the committee |
| Selector.CommitteeTeamExists | shift_optimizer.py:62-64 | the primary pass scores some team exactly when there are at least 4 candidates and one of them is on the committee |
| Selector.FallbackTeamExists | shift_optimizer.py:79-82 | the fallback pass scores some team exactly when there are at least 4 candidates |
| Selector.FirstBestBeats | shift_optimizer.py:76-78 | the settled team's score is at most any scored combination's, and strictly below any lexicographically earlier one |
| Selector.FirstMinimumIsFirstBestCombination | shift_optimizer.py:76-78 | the first minimum among the enumerated teams is the first best combination of positions |
| Selector.FirstBestOverCombinations | shift_optimizer.py:62-78 | what a pass settles on is the first best combination of positions in lexicographic order |
| Selector.FirstBestCombinationUnique | shift_optimizer.py:76-78 | only one combination is the first best of a pass (ties go to the earliest) |
| Selector.ChosenNoneIff | shift_optimizer.py:79-96 | `choose_team` returns None exactly when there are fewer than 4 candidates, and otherwise returns the running pass's first best combination |
| Selector.ChosenIsFirstBest | shift_optimizer.py:58-96 | `choose_team` returns the positions `idx` exactly when there are at least 4 candidates and `idx` is the first best combination of the pass that runs (primary when a committee team exists, fallback otherwise) |
| Selector.ChosenTeamShape | shift_optimizer.py:62 | None exactly when there are fewer than 4 candidates; otherwise 4 of the candidates, distinct when the candidates are |
| Selector.ChosenHasCommittee | shift_optimizer.py:79 | the returned team has a committee member exactly when some candidate is on the committee |
| Selector.PerfectFirstTeamChosen | shift_optimizer.py:62-78 | when the first 4 candidates form a committee team with score 0, they are the team returned |
| Selector.FirstDayExample | shift_optimizer.py:58-96 | with candidates A (male, committee), B (female), C (male), D (female), E (male) and empty counts, the team is A, B, C, D |
| Schedule.Candidates | shift_optimizer.py:104 | `availability.get(day, [])`: the day's names, or none for a day without an entry |
| Schedule.ChooseTeamRule | shift_optimizer.py:105 | the call of `choose_team` with the day's candidates, the counts and the previous team, as a selection rule |
| Schedule.Step | shift_optimizer.py:104-111 | one day: the error naming the day when no team is chosen, otherwise the schedule with the day's team, the counts read and then incremented for its members, and the team as the previous team |
| Schedule.Run | shift_optimizer.py:100-111 | the state after the days in order from an empty schedule, empty counts and no previous team, or the error of the first day that failed |
| Schedule.Report | shift_optimizer.py:99-112 | what the builder hands back: the schedule and the counts, or the error |
| Schedule.ChooseTeamRuleSound | shift_optimizer.py:105 | `choose_team` finds no team exactly on fewer than 4 candidates, and otherwise 4 of the day's candidates with a committee member whenever one is available |
| Schedule.ScheduleDay | shift_optimizer.py:104-111 | one iteration yields exactly one step of `Run`; on success the counts object holds that step's counts, and on failure it holds the counts before the day with only the zero entries `choose_team` read added |
| Schedule.BuildSchedule | shift_optimizer.py:99-112 | the method's result is `Run` over the days with `choose_team` as the rule: the schedule and counts, or the first failing day's error |
| Schedule.RunErrPersists | shift_optimizer.py:106-107 | once a prefix fails, the whole run fails with the same error |
| Schedule.StepFails | shift_optimizer.py:106-107 | under a sound rule, a day fails exactly when it has fewer than 4 candidates, and the error names that day |
| Schedule.RunFailsOnShortDay | shift_optimizer.py:106-107 | a day with fewer than 4 candidates makes the whole run fail |
| Schedule.RunSucceeds | shift_optimizer.py:103-111 | when every day has at least 4 candidates the run succeeds |
| Schedule.RunSucceedsIff | shift_optimizer.py:103-107 | the run succeeds exactly when every day has at least 4 candidates |
| Schedule.RunFailsAtFirstShortDay | shift_optimizer.py:103-107 | a failing run reports the first day with fewer than 4 candidates |
| Schedule.RunTotal | shift_optimizer.py:109-110 | after a successful run the counts sum to 4 times the number of days |
| Schedule.RunScheduleKeys | shift_optimizer.py:108 | the schedule has an entry for exactly the days given |
| Schedule.RunLastCommit | shift_optimizer.py:108 | a day's entry is the team the rule chose at that day's last occurrence `k` (no later day repeats it), against the state the days before `k` left |
| Schedule.RunTeamsStaffed | shift_optimizer.py:105-108 | every scheduled team is 4 of its own day's candidates, distinct when they are, with a committee member whenever one was available |
| Schedule.RunCountsServed | shift_optimizer.py:108-110 | with distinct days and duplicate-free candidate lists, each person's final count is the number of days whose team includes them |
| Schedule.RunKeepsEarlier | shift_optimizer.py:108 | with distinct days, a day's team is never replaced by a later day |
| Schedule.RunPrev | shift_optimizer.py:111 | after each successful day, the previous team is that day's team |
| Schedule.RunDayByDay | shift_optimizer.py:102-111 | with distinct days, day i's team is the rule's choice against the counts the earlier days left and, as previous team, day i-1's team (None on the first day) |
| Schedule.ChooseTeamSchedule | shift_optimizer.py:99-112 | with `choose_team` as the rule, the run succeeds exactly when every day has at least 4 candidates, and then the counts sum to 4 per day |

## Left out

- The CSV loaders (shift_optimizer.py:6-45), `output_schedule` (shift_optimizer.py:115-121) and `main` (shift_optimizer.py:124-146) are left out. They do file input/output and interactive prompts.
- The `float('inf')` initial best score is modelled as "no best yet" (`None`), not as a floating-point value.
- A candidate without attributes raises `KeyError` in the source. The model makes "every candidate has attributes" a precondition: `Known` and `DaysKnown`.
- `ChooseTeamRule` returns no team for a candidate list with unknown names. That branch is never reached under `DaysKnown`.
- Day identifiers are an abstract type with equality (`Day`), because the builder only compares and stores them.
- Python dicts remember insertion order; the model's schedule is a `map`, so the order in which days were inserted is not kept. That order only matters to `output_schedule`.
- Teams are tuples in the source and sequences here; the source also hands back the counts `defaultdict` object itself, where the model returns its contents as a map.
- A gender string other than "male" or "female" counts toward neither category, as in the source. No other gender handling is modelled.
- Repeated day identifiers and candidate lists with duplicate names are handled by `BuildSchedule` as the source handles them: a later day overwrites an earlier entry, and a duplicate name is just another position. Only these lemmas require distinct days or duplicate-free lists:
  - `RunCountsServed`;
  - `RunKeepsEarlier`;
  - `RunDayByDay`;
  - the distinctness part of `ChosenTeamShape` and `RunTeamsStaffed`.
- Selector.ChooseTeam: its contract states exactly which zero entries get materialised (`ChooseReads`). It is not proved that this set is every candidate whenever a team is found.
