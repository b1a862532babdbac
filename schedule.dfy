/**
 * `build_schedule`: the days in order, each one's team chosen against the counts and the
 * previous team that the days before it left behind.
 *
 * The day loop is specified by `Run` over a selection rule: a function from a day's
 * candidates, the counts and the previous team to what one call of `choose_team` yields.
 * The properties of the loop are proved for every rule that is `Sound`, and
 * `ChooseTeamRule` (`choose_team` itself) is proved sound.
 */
module Schedule {
  import opened Wrappers
  import opened Members
  import opened Enumeration
  import opened Tally
  import opened Selector

  /** Day identifiers; the builder only uses them as dictionary keys and in its error. */
  type Day(==)

  /** Day to the names available that day. */
  type Availability = map<Day, seq<Name>>

  /** The run's fatal error (the source's `ValueError`): the named day has no valid team. */
  datatype Failure = NoValidTeam(day: Day)

  /** The loop's state after a prefix of the days: the schedule so far, the counts and `prev_team`. */
  datatype Progress = Progress(schedule: map<Day, Team>, counts: Table, prev: Option<Team>)

  /** What one call of `choose_team` yields: the team, if any, and the names whose zero counts it materialises. */
  datatype Choice = Choice(team: Option<Team>, materialised: set<Name>)

  /** A selection rule: a day's candidates, the counts and the previous team to a choice. */
  type Rule = (seq<Name>, Table, Option<Team>) -> Choice

  /** `choose_team` over the attributes `attrs`, as a selection rule. */
  function ChooseTeamRule(attrs: Attributes): Rule
  {
    (cands: seq<Name>, counts: Table, prev: Option<Team>) =>
      if Known(cands, attrs) then Choice(Chosen(cands, attrs, counts, prev), ChooseReads(cands, attrs))
      else Choice(None, {})
  }

  /** `availability.get(day, [])`. */
  function Candidates(availability: Availability, day: Day): seq<Name>
  {
    if day in availability then availability[day] else []
  }

  /** Every candidate of every day to schedule has attributes (the source raises `KeyError` otherwise). */
  predicate DaysKnown(days: seq<Day>, availability: Availability, attrs: Attributes)
  {
    forall i :: 0 <= i < |days| ==> Known(Candidates(availability, days[i]), attrs)
  }

  /** A day with too few candidates for a team. */
  predicate Short(availability: Availability, day: Day)
  {
    |Candidates(availability, day)| < TeamSize
  }

  /**
   * What a team committed for a day satisfies: 4 of that day's candidates, distinct when the
   * candidates are, with a committee member exactly when some candidate is on the committee.
   */
  predicate Staffed(team: Team, cands: seq<Name>, attrs: Attributes)
    requires Known(cands, attrs)
  {
    && |team| == TeamSize
    && (forall j :: 0 <= j < TeamSize ==> team[j] in cands)
    && (Distinct(cands) ==> Distinct(team))
    && Known(team, attrs)
    && (HasCommittee(team, attrs) <==> exists i :: 0 <= i < |cands| && attrs[cands[i]].committee)
  }

  /** A rule that finds no team exactly when there are fewer than 4 candidates, and otherwise a staffed one. */
  ghost predicate Sound(rule: Rule, attrs: Attributes)
  {
    forall cands, counts, prev :: Known(cands, attrs) ==>
      && (rule(cands, counts, prev).team.None? <==> |cands| < TeamSize)
      && (rule(cands, counts, prev).team.Some? ==> Staffed(rule(cands, counts, prev).team.value, cands, attrs))
  }

  /** `choose_team` is a sound rule. */
  lemma ChooseTeamRuleSound(attrs: Attributes)
    ensures Sound(ChooseTeamRule(attrs), attrs)
  {
    var rule := ChooseTeamRule(attrs);
    forall cands, counts, prev | Known(cands, attrs)
      ensures rule(cands, counts, prev).team.None? <==> |cands| < TeamSize
      ensures rule(cands, counts, prev).team.Some? ==> Staffed(rule(cands, counts, prev).team.value, cands, attrs)
    {
      ChosenTeamShape(cands, attrs, counts, prev);
      if |cands| >= TeamSize {
        ChosenHasCommittee(cands, attrs, counts, prev);
      }
    }
  }

  /** One iteration of the day loop. */
  function Step(p: Progress, day: Day, availability: Availability, rule: Rule): Result<Progress, Failure>
  {
    var choice := rule(Candidates(availability, day), p.counts, p.prev);
    match choice.team
    case None => Err(NoValidTeam(day))
    case Some(team) => Ok(Progress(p.schedule[day := team], BumpAll(Touch(p.counts, choice.materialised), team), Some(team)))
  }

  /** The state after the loop has run over `days`, or the error of the first day that failed. */
  function Run(days: seq<Day>, availability: Availability, rule: Rule): Result<Progress, Failure>
    decreases |days|
  {
    if days == [] then Ok(Progress(map[], map[], None))
    else
      match Run(days[..|days| - 1], availability, rule)
      case Err(e) => Err(e)
      case Ok(p) => Step(p, days[|days| - 1], availability, rule)
  }

  /** What `build_schedule` hands back: the schedule and counts, or the error. */
  function Report(r: Result<Progress, Failure>): Result<(map<Day, Team>, Table), Failure>
  {
    match r
    case Err(e) => Err(e)
    case Ok(p) => Ok((p.schedule, p.counts))
  }

  /**
   * One iteration of `build_schedule`'s loop: choose the day's team against the counts held in
   * `counts` and, when there is one, increment each member's count in place.
   */
  method ScheduleDay(schedule: map<Day, Team>, counts: Counts, prev: Option<Team>, day: Day,
                     availability: Availability, attrs: Attributes)
    returns (r: Result<Progress, Failure>)
    requires Known(Candidates(availability, day), attrs)
    modifies counts
    ensures r == Step(Progress(schedule, old(counts.entries), prev), day, availability, ChooseTeamRule(attrs))
    ensures r.Ok? ==> counts.entries == r.value.counts
    ensures r.Err? ==> counts.entries == Touch(old(counts.entries), ChooseReads(Candidates(availability, day), attrs))
  {
    var candidates := if day in availability then availability[day] else [];
    ghost var rule := ChooseTeamRule(attrs);
    assert rule(candidates, counts.entries, prev) ==
      Choice(Chosen(candidates, attrs, counts.entries, prev), ChooseReads(candidates, attrs));
    var team := ChooseTeam(candidates, attrs, counts, prev);
    if team.None? {
      return Err(NoValidTeam(day));
    }
    var members := team.value;
    ghost var touched := counts.entries;
    for j := 0 to |members|
      invariant counts.entries == BumpAll(touched, members[..j])
    {
      assert members[..j + 1][..j] == members[..j];
      counts.Increment(members[j]);
    }
    assert members[..|members|] == members;
    r := Ok(Progress(schedule[day := members], counts.entries, team));
  }

  /** `build_schedule`: the day loop, stopping at the first day without a valid team. */
  method BuildSchedule(days: seq<Day>, availability: Availability, attrs: Attributes)
    returns (r: Result<(map<Day, Team>, Table), Failure>)
    requires DaysKnown(days, availability, attrs)
    ensures r == Report(Run(days, availability, ChooseTeamRule(attrs)))
  {
    ghost var rule := ChooseTeamRule(attrs);
    var schedule: map<Day, Team> := map[];
    var counts := new Counts();
    var prev: Option<Team> := None;
    for i := 0 to |days|
      invariant Run(days[..i], availability, rule) == Ok(Progress(schedule, counts.entries, prev))
    {
      RunExtend(days, availability, rule, i);
      var step := ScheduleDay(schedule, counts, prev, days[i], availability, attrs);
      if step.Err? {
        RunErrPersists(days, availability, rule, i + 1);
        assert days[..|days|] == days;
        return Err(step.error);
      }
      schedule, prev := step.value.schedule, step.value.prev;
    }
    assert days[..|days|] == days;
    r := Ok((schedule, counts.entries));
  }

  /** Running over one more day is running over the days before it, then one step. */
  lemma RunExtend(days: seq<Day>, availability: Availability, rule: Rule, i: nat)
    requires i < |days|
    ensures Run(days[..i], availability, rule).Err? ==> Run(days[..i + 1], availability, rule) == Run(days[..i], availability, rule)
    ensures Run(days[..i], availability, rule).Ok? ==>
      Run(days[..i + 1], availability, rule) == Step(Run(days[..i], availability, rule).value, days[i], availability, rule)
  {
    assert days[..i + 1][..i] == days[..i];
  }

  /** Once a prefix of the days fails, the whole run fails with the same error. */
  lemma {:induction false} RunErrPersists(days: seq<Day>, availability: Availability, rule: Rule, i: nat)
    requires i <= |days|
    requires Run(days[..i], availability, rule).Err?
    ensures Run(days, availability, rule) == Run(days[..i], availability, rule)
    decreases |days|
  {
    if i < |days| {
      var init := days[..|days| - 1];
      assert init[..i] == days[..i];
      RunErrPersists(init, availability, rule, i);
    } else {
      assert days[..i] == days;
    }
  }

  /** Under a sound rule, one step fails exactly on a day with fewer than 4 candidates, naming that day. */
  lemma StepFails(p: Progress, day: Day, availability: Availability, attrs: Attributes, rule: Rule)
    requires Sound(rule, attrs)
    requires Known(Candidates(availability, day), attrs)
    ensures Step(p, day, availability, rule).Err? <==> Short(availability, day)
    ensures Step(p, day, availability, rule).Err? ==> Step(p, day, availability, rule).error == NoValidTeam(day)
  {
  }

  /** What a successful step commits: the rule's team for the day, which becomes the previous team. */
  lemma StepCommits(p: Progress, day: Day, availability: Availability, rule: Rule)
    requires Step(p, day, availability, rule).Ok?
    ensures var q := Step(p, day, availability, rule).value;
      var choice := rule(Candidates(availability, day), p.counts, p.prev);
      && day in q.schedule
      && choice.team == Some(q.schedule[day])
      && q.schedule == p.schedule[day := q.schedule[day]]
      && q.counts == BumpAll(Touch(p.counts, choice.materialised), q.schedule[day])
      && q.prev == Some(q.schedule[day])
  {
  }

  /** A day with fewer than 4 candidates makes the run fail. */
  lemma {:induction false} RunFailsOnShortDay(days: seq<Day>, availability: Availability, attrs: Attributes, rule: Rule, k: nat)
    requires Sound(rule, attrs)
    requires DaysKnown(days, availability, attrs)
    requires k < |days| && Short(availability, days[k])
    ensures Run(days, availability, rule).Err?
  {
    RunExtend(days, availability, rule, k);
    if Run(days[..k], availability, rule).Ok? {
      StepFails(Run(days[..k], availability, rule).value, days[k], availability, attrs, rule);
    }
    RunErrPersists(days, availability, rule, k + 1);
  }

  /** Under a sound rule, when every day has at least 4 candidates, the run succeeds. */
  lemma {:induction false} RunSucceeds(days: seq<Day>, availability: Availability, attrs: Attributes, rule: Rule)
    requires Sound(rule, attrs)
    requires DaysKnown(days, availability, attrs)
    requires forall i :: 0 <= i < |days| ==> !Short(availability, days[i])
    ensures Run(days, availability, rule).Ok?
    decreases |days|
  {
    if days != [] {
      var last := |days| - 1;
      var init := days[..last];
      assert forall i :: 0 <= i < |init| ==> init[i] == days[i];
      RunSucceeds(init, availability, attrs, rule);
      StepFails(Run(init, availability, rule).value, days[last], availability, attrs, rule);
    }
  }

  /** Under a sound rule, the run succeeds exactly when every day has at least 4 candidates. */
  lemma {:induction false} RunSucceedsIff(days: seq<Day>, availability: Availability, attrs: Attributes, rule: Rule)
    requires Sound(rule, attrs)
    requires DaysKnown(days, availability, attrs)
    ensures Run(days, availability, rule).Ok? <==> forall i :: 0 <= i < |days| ==> !Short(availability, days[i])
  {
    if forall i :: 0 <= i < |days| ==> !Short(availability, days[i]) {
      RunSucceeds(days, availability, attrs, rule);
    } else {
      var k :| 0 <= k < |days| && Short(availability, days[k]);
      RunFailsOnShortDay(days, availability, attrs, rule, k);
    }
  }

  /** Under a sound rule, a failing run reports the first day with fewer than 4 candidates. */
  lemma RunFailsAtFirstShortDay(days: seq<Day>, availability: Availability, attrs: Attributes, rule: Rule, k: nat)
    requires Sound(rule, attrs)
    requires DaysKnown(days, availability, attrs)
    requires k < |days| && Short(availability, days[k])
    requires forall i :: 0 <= i < k ==> !Short(availability, days[i])
    ensures Run(days, availability, rule) == Err(NoValidTeam(days[k]))
  {
    RunSucceeds(days[..k], availability, attrs, rule);
    RunExtend(days, availability, rule, k);
    StepFails(Run(days[..k], availability, rule).value, days[k], availability, attrs, rule);
    RunErrPersists(days, availability, rule, k + 1);
  }

  /** Under a sound rule, the counts after a successful run sum to 4 per day. */
  lemma {:induction false} RunTotal(days: seq<Day>, availability: Availability, attrs: Attributes, rule: Rule)
    requires Sound(rule, attrs)
    requires DaysKnown(days, availability, attrs)
    requires Run(days, availability, rule).Ok?
    ensures Total(Run(days, availability, rule).value.counts) == TeamSize * |days|
    decreases |days|
  {
    if days != [] {
      var last := |days| - 1;
      var init := days[..last];
      RunTotal(init, availability, attrs, rule);
      var p := Run(init, availability, rule).value;
      StepCommits(p, days[last], availability, rule);
      var choice := rule(Candidates(availability, days[last]), p.counts, p.prev);
      TotalTouch(p.counts, choice.materialised);
      TotalBumpAll(Touch(p.counts, choice.materialised), choice.team.value);
    }
  }

  /** The schedule of a successful run has an entry for exactly the days it was given. */
  lemma {:induction false} RunScheduleKeys(days: seq<Day>, availability: Availability, rule: Rule, d: Day)
    requires Run(days, availability, rule).Ok?
    ensures d in Run(days, availability, rule).value.schedule <==> exists i :: 0 <= i < |days| && days[i] == d
    decreases |days|
  {
    if days != [] {
      var last := |days| - 1;
      var init := days[..last];
      StepCommits(Run(init, availability, rule).value, days[last], availability, rule);
      RunScheduleKeys(init, availability, rule, d);
      if d != days[last] && exists i :: 0 <= i < |days| && days[i] == d {
        var i :| 0 <= i < |days| && days[i] == d;
        assert init[i] == d;
      }
    }
  }

  /** What the last day of a successful run does to the schedule: it records the rule's team for that day. */
  lemma RunLast(days: seq<Day>, availability: Availability, rule: Rule)
    requires |days| > 0
    requires Run(days, availability, rule).Ok?
    ensures var last := |days| - 1;
      var before := Run(days[..last], availability, rule);
      var schedule := Run(days, availability, rule).value.schedule;
      && before.Ok?
      && days[last] in schedule
      && schedule == before.value.schedule[days[last] := schedule[days[last]]]
      && rule(Candidates(availability, days[last]), before.value.counts, before.value.prev).team == Some(schedule[days[last]])
  {
    var last := |days| - 1;
    StepCommits(Run(days[..last], availability, rule).value, days[last], availability, rule);
  }

  /**
   * A day's entry in the schedule is the team the rule chose at the last occurrence `k` of
   * that day, against the state the days before `k` left behind: a later repeat of a day
   * overwrites its entry.
   */
  lemma {:induction false} RunLastCommit(days: seq<Day>, availability: Availability, rule: Rule, i: nat)
    returns (k: nat)
    requires Run(days, availability, rule).Ok?
    requires i < |days|
    ensures k < |days| && days[k] == days[i]
    ensures forall j :: k < j < |days| ==> days[j] != days[i]
    ensures Run(days[..k], availability, rule).Ok?
    ensures var before := Run(days[..k], availability, rule).value;
      var schedule := Run(days, availability, rule).value.schedule;
      && days[i] in schedule
      && rule(Candidates(availability, days[k]), before.counts, before.prev).team == Some(schedule[days[i]])
    decreases |days|
  {
    var last := |days| - 1;
    var init := days[..last];
    RunLast(days, availability, rule);
    if days[i] == days[last] {
      k := last;
    } else {
      assert init[i] == days[i];
      k := RunLastCommit(init, availability, rule, i);
      assert init[..k] == days[..k];
      NoLaterRepeat(days, init, days[i], k);
    }
  }

  /** A day absent after position `k` of the days before the last, and not the last day, is absent after `k`. */
  lemma NoLaterRepeat(days: seq<Day>, init: seq<Day>, d: Day, k: nat)
    requires |days| > 0 && init == days[..|days| - 1] && days[|days| - 1] != d
    requires forall j :: k < j < |init| ==> init[j] != d
    ensures forall j :: k < j < |days| ==> days[j] != d
  {
    forall j | k < j < |days|
      ensures days[j] != d
    {
      if j < |init| {
        assert days[j] == init[j];
      }
    }
  }


  /** Under a sound rule, every team in the schedule of a successful run is staffed from its own day's candidates. */
  lemma {:induction false} RunTeamsStaffed(days: seq<Day>, availability: Availability, attrs: Attributes, rule: Rule, i: nat)
    requires Sound(rule, attrs)
    requires DaysKnown(days, availability, attrs)
    requires Run(days, availability, rule).Ok?
    requires i < |days|
    ensures var schedule := Run(days, availability, rule).value.schedule;
      days[i] in schedule && Staffed(schedule[days[i]], Candidates(availability, days[i]), attrs)
  {
    var k := RunLastCommit(days, availability, rule, i);
  }

  /** The number of days in `days` whose scheduled team includes `n`. */
  function Served(days: seq<Day>, schedule: map<Day, Team>, n: Name): nat
    decreases |days|
  {
    if days == [] then 0
    else
      var d := days[|days| - 1];
      Served(days[..|days| - 1], schedule, n) + if d in schedule && n in schedule[d] then 1 else 0
  }

  /** Changing the team of a day outside `days` does not change who served on them. */
  lemma {:induction false} ServedElsewhere(days: seq<Day>, schedule: map<Day, Team>, d: Day, team: Team, n: Name)
    requires d !in days
    ensures Served(days, schedule[d := team], n) == Served(days, schedule, n)
    decreases |days|
  {
    if days != [] {
      ServedElsewhere(days[..|days| - 1], schedule, d, team, n);
    }
  }

  /** In a team without repeats, a name occurs once if it is on the team and not at all otherwise. */
  lemma {:induction false} DistinctOccurrences(team: seq<Name>, n: Name)
    requires Distinct(team)
    ensures multiset(team)[n] == if n in team then 1 else 0
    decreases |team|
  {
    if team != [] {
      var rest := team[1..];
      assert team == [team[0]] + rest;
      assert multiset(team) == multiset{team[0]} + multiset(rest);
      DistinctOccurrences(rest, n);
    }
  }

  /**
   * Under a sound rule, with distinct days and duplicate-free candidate lists, each person's
   * final count is the number of days whose team includes them.
   */
  lemma {:induction false} RunCountsServed(days: seq<Day>, availability: Availability, attrs: Attributes, rule: Rule, n: Name)
    requires Sound(rule, attrs)
    requires DaysKnown(days, availability, attrs)
    requires Distinct(days)
    requires forall i :: 0 <= i < |days| ==> Distinct(Candidates(availability, days[i]))
    requires Run(days, availability, rule).Ok?
    ensures Count(Run(days, availability, rule).value.counts, n) == Served(days, Run(days, availability, rule).value.schedule, n)
    decreases |days|
  {
    if days != [] {
      var last := |days| - 1;
      var init := days[..last];
      RunCountsServed(init, availability, attrs, rule, n);
      var p := Run(init, availability, rule).value;
      StepCommits(p, days[last], availability, rule);
      var choice := rule(Candidates(availability, days[last]), p.counts, p.prev);
      var team := choice.team.value;
      BumpAllCount(Touch(p.counts, choice.materialised), team, n);
      DistinctOccurrences(team, n);
      assert days[last] !in init;
      ServedElsewhere(init, p.schedule, days[last], team, n);
    }
  }

  /** With distinct days, the team a run commits for a day is never replaced by a later day. */
  lemma RunKeepsEarlier(days: seq<Day>, availability: Availability, rule: Rule, i: nat)
    requires Distinct(days)
    requires i < |days|
    requires Run(days, availability, rule).Ok?
    ensures Run(days[..i + 1], availability, rule).Ok?
    ensures days[i] in Run(days[..i + 1], availability, rule).value.schedule
    ensures days[i] in Run(days, availability, rule).value.schedule
    ensures Run(days, availability, rule).value.schedule[days[i]] == Run(days[..i + 1], availability, rule).value.schedule[days[i]]
  {
    var k := RunLastCommit(days, availability, rule, i);
    assert k == i;
    RunExtend(days, availability, rule, i);
    StepCommits(Run(days[..i], availability, rule).value, days[i], availability, rule);
  }

  /** After a successful prefix, the previous team is the team just committed for the prefix's last day. */
  lemma {:induction false} RunPrev(days: seq<Day>, availability: Availability, rule: Rule, i: nat)
    requires 0 < i <= |days|
    requires Run(days[..i], availability, rule).Ok?
    ensures days[i - 1] in Run(days[..i], availability, rule).value.schedule
    ensures Run(days[..i], availability, rule).value.prev == Some(Run(days[..i], availability, rule).value.schedule[days[i - 1]])
  {
    assert days[..i - 1 + 1] == days[..i];
    RunExtend(days, availability, rule, i - 1);
    StepCommits(Run(days[..i - 1], availability, rule).value, days[i - 1], availability, rule);
  }

  /**
   * With distinct days, day `i`'s team is what the rule returns for that day's candidates,
   * given the counts left by the days before it and, as the previous team, the team of day
   * `i - 1` (none for the first day).
   */
  lemma RunDayByDay(days: seq<Day>, availability: Availability, rule: Rule, i: nat)
    requires Distinct(days)
    requires i < |days|
    requires Run(days, availability, rule).Ok?
    ensures Run(days[..i], availability, rule).Ok?
    ensures var before := Run(days[..i], availability, rule).value;
      var schedule := Run(days, availability, rule).value.schedule;
      && days[i] in schedule
      && (i > 0 ==> days[i - 1] in schedule)
      && before.prev == (if i == 0 then None else Some(schedule[days[i - 1]]))
      && rule(Candidates(availability, days[i]), before.counts, before.prev).team == Some(schedule[days[i]])
  {
    RunKeepsEarlier(days, availability, rule, i);
    RunExtend(days, availability, rule, i);
    StepCommits(Run(days[..i], availability, rule).value, days[i], availability, rule);
    if i > 0 {
      RunKeepsEarlier(days, availability, rule, i - 1);
      assert days[..i - 1 + 1] == days[..i];
      RunPrev(days, availability, rule, i);
    }
  }

  /**
   * `build_schedule` with `choose_team` as its rule: it succeeds exactly when every day has at
   * least 4 candidates, and then its counts sum to 4 per day.
   */
  lemma ChooseTeamSchedule(days: seq<Day>, availability: Availability, attrs: Attributes)
    requires DaysKnown(days, availability, attrs)
    ensures var r := Run(days, availability, ChooseTeamRule(attrs));
      && (r.Ok? <==> forall i :: 0 <= i < |days| ==> !Short(availability, days[i]))
      && (r.Ok? ==> Total(r.value.counts) == TeamSize * |days|)
  {
    var rule := ChooseTeamRule(attrs);
    ChooseTeamRuleSound(attrs);
    RunSucceedsIff(days, availability, attrs, rule);
    if Run(days, availability, rule).Ok? {
      RunTotal(days, availability, attrs, rule);
    }
  }
}
