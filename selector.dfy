/**
 * `choose_team`: exhaustive search over the 4-member combinations of a day's candidates.
 * The primary pass keeps only teams with a committee member; when it finds none, a
 * fallback pass scores every combination on top of a base penalty of 100. Each pass keeps
 * the first team of minimum score: a later team replaces the best so far only when it
 * scores strictly lower.
 */
module Selector {
  import opened Wrappers
  import opened Members
  import opened Tally
  import opened Enumeration
  import opened Scoring

  const TeamSize: nat := 4

  /** A selection pass: whether a committee member is required, and the score every team starts from. */
  datatype Pass = Pass(committeeOnly: bool, base: nat)

  const Primary: Pass := Pass(true, 0)
  const Fallback: Pass := Pass(false, 100)

  /** Whether `pass` scores `team` at all. */
  predicate Eligible(team: Team, attrs: Attributes, pass: Pass)
    requires Known(team, attrs)
  {
    !pass.committeeOnly || HasCommittee(team, attrs)
  }

  predicate AllKnown(teams: seq<Team>, attrs: Attributes)
  {
    forall i :: 0 <= i < |teams| ==> Known(teams[i], attrs)
  }

  /** The teams `itertools.combinations(candidates, 4)` yields, in its order. */
  function CandidateTeams(cands: seq<Name>, attrs: Attributes): (r: seq<Team>)
    requires Known(cands, attrs)
    ensures AllKnown(r, attrs)
    ensures |r| == |Combinations(TeamSize, 0, |cands|)|
    ensures forall i :: 0 <= i < |r| ==> r[i] == Pick(cands, Combinations(TeamSize, 0, |cands|)[i])
  {
    var positions := Combinations(TeamSize, 0, |cands|);
    var teams := CombinationsOf(cands, TeamSize);
    assert forall i, j :: 0 <= i < |teams| && 0 <= j < |teams[i]| ==> teams[i][j] == cands[positions[i][j]];
    teams
  }

  /**
   * The position one pass settles on, given which positions it scores and their scores:
   * scanning in order, the best so far is replaced only by a strictly lower score.
   * `None` when no position is scored (the best score is still infinite).
   */
  function FirstMin(eligible: seq<bool>, scores: seq<nat>): (r: Option<nat>)
    requires |eligible| == |scores|
    ensures r.Some? ==> r.value < |scores|
    decreases |scores|
  {
    if scores == [] then None
    else
      var last := |scores| - 1;
      var prior := FirstMin(eligible[..last], scores[..last]);
      if eligible[last] && (prior.None? || scores[last] < scores[prior.value]) then Some(last) else prior
  }

  /** Position `p` is scored with a minimum score, and every earlier scored position scores strictly more. */
  predicate IsFirstMin(eligible: seq<bool>, scores: seq<nat>, p: nat)
    requires |eligible| == |scores|
  {
    && p < |scores|
    && eligible[p]
    && forall q :: 0 <= q < |scores| && eligible[q] ==> scores[p] <= scores[q] && (q < p ==> scores[p] < scores[q])
  }

  /** Scanning one more position: the fold's step, as the loop body takes it. */
  lemma FirstMinStep(eligible: seq<bool>, scores: seq<nat>, t: nat)
    requires |eligible| == |scores|
    requires t < |scores|
    ensures var prior := FirstMin(eligible[..t], scores[..t]);
      FirstMin(eligible[..t + 1], scores[..t + 1]) ==
        if eligible[t] && (prior.None? || scores[t] < scores[prior.value]) then Some(t) else prior
  {
    assert eligible[..t + 1][..t] == eligible[..t];
    assert scores[..t + 1][..t] == scores[..t];
  }

  /** The scan finds nothing exactly when nothing is scored, and otherwise stops at the first minimum. */
  lemma {:induction false} FirstMinIsFirstMinimum(eligible: seq<bool>, scores: seq<nat>)
    requires |eligible| == |scores|
    ensures FirstMin(eligible, scores).None? <==> forall q :: 0 <= q < |scores| ==> !eligible[q]
    ensures FirstMin(eligible, scores).Some? ==> IsFirstMin(eligible, scores, FirstMin(eligible, scores).value)
    decreases |scores|
  {
    if scores != [] {
      var last := |scores| - 1;
      FirstMinIsFirstMinimum(eligible[..last], scores[..last]);
      assert eligible[..last] + [eligible[last]] == eligible;
    }
  }

  /** Which of `teams` a pass scores. */
  function Eligibility(teams: seq<Team>, attrs: Attributes, pass: Pass): (r: seq<bool>)
    requires AllKnown(teams, attrs)
  {
    seq(|teams|, i requires 0 <= i < |teams| => Eligible(teams[i], attrs, pass))
  }

  /** The score of each of `teams`. */
  function Scores(teams: seq<Team>, attrs: Attributes, counts: Table, prev: Option<Team>, base: nat): (r: seq<nat>)
    requires AllKnown(teams, attrs)
  {
    seq(|teams|, i requires 0 <= i < |teams| => Penalty(teams[i], attrs, counts, prev, base))
  }

  /** The position of the team one pass of `choose_team` settles on. */
  function FirstBest(teams: seq<Team>, attrs: Attributes, counts: Table, prev: Option<Team>, pass: Pass): (r: Option<nat>)
    requires AllKnown(teams, attrs)
    ensures r.Some? ==> r.value < |teams|
  {
    FirstMin(Eligibility(teams, attrs, pass), Scores(teams, attrs, counts, prev, pass.base))
  }

  function TeamAt(teams: seq<Team>, at: Option<nat>): Option<Team>
    requires at.Some? ==> at.value < |teams|
  {
    match at
    case Some(p) => Some(teams[p])
    case None => None
  }

  /** Some team is scored by `pass`. */
  predicate AnyEligible(teams: seq<Team>, attrs: Attributes, pass: Pass)
    requires AllKnown(teams, attrs)
  {
    exists q :: 0 <= q < |teams| && Eligible(teams[q], attrs, pass)
  }

  /** Position `p` holds a scored team of minimum score, and every earlier scored team scores strictly more. */
  ghost predicate IsFirstMinimum(teams: seq<Team>, attrs: Attributes, counts: Table, prev: Option<Team>, pass: Pass, p: nat)
    requires AllKnown(teams, attrs)
  {
    && p < |teams|
    && Eligible(teams[p], attrs, pass)
    && forall q :: 0 <= q < |teams| && Eligible(teams[q], attrs, pass) ==>
         && Penalty(teams[p], attrs, counts, prev, pass.base) <= Penalty(teams[q], attrs, counts, prev, pass.base)
         && (q < p ==> Penalty(teams[p], attrs, counts, prev, pass.base) < Penalty(teams[q], attrs, counts, prev, pass.base))
  }

  /** A pass finds nothing exactly when it scores no team, and otherwise returns the first minimum. */
  lemma FirstBestIsFirstMinimum(teams: seq<Team>, attrs: Attributes, counts: Table, prev: Option<Team>, pass: Pass)
    requires AllKnown(teams, attrs)
    ensures FirstBest(teams, attrs, counts, prev, pass).None? <==> !AnyEligible(teams, attrs, pass)
    ensures FirstBest(teams, attrs, counts, prev, pass).Some? ==>
      IsFirstMinimum(teams, attrs, counts, prev, pass, FirstBest(teams, attrs, counts, prev, pass).value)
  {
    var eligible := Eligibility(teams, attrs, pass);
    var scores := Scores(teams, attrs, counts, prev, pass.base);
    FirstMinIsFirstMinimum(eligible, scores);
    assert forall q :: 0 <= q < |teams| ==> eligible[q] == Eligible(teams[q], attrs, pass);
    assert forall q :: 0 <= q < |teams| ==> scores[q] == Penalty(teams[q], attrs, counts, prev, pass.base);
  }

  /** A pass reads the counts only through `Count`. */
  lemma FirstBestSameCounts(teams: seq<Team>, attrs: Attributes, m1: Table, m2: Table, prev: Option<Team>, pass: Pass)
    requires AllKnown(teams, attrs)
    requires forall n :: Count(m1, n) == Count(m2, n)
    ensures FirstBest(teams, attrs, m1, prev, pass) == FirstBest(teams, attrs, m2, prev, pass)
  {
    forall i | 0 <= i < |teams|
      ensures Penalty(teams[i], attrs, m1, prev, pass.base) == Penalty(teams[i], attrs, m2, prev, pass.base)
    {
      PenaltySameCounts(teams[i], attrs, m1, m2, prev, pass.base);
    }
    assert Scores(teams, attrs, m1, prev, pass.base) == Scores(teams, attrs, m2, prev, pass.base);
  }

  /** The names whose counts a pass reads: the members of every team it scores. */
  function ReadNames(teams: seq<Team>, attrs: Attributes, pass: Pass): set<Name>
    requires AllKnown(teams, attrs)
    decreases |teams|
  {
    if teams == [] then {}
    else
      var last := |teams| - 1;
      ReadNames(teams[..last], attrs, pass) + (if Eligible(teams[last], attrs, pass) then NamesIn(teams[last]) else {})
  }

  lemma ReadNamesStep(teams: seq<Team>, attrs: Attributes, pass: Pass, t: nat)
    requires AllKnown(teams, attrs)
    requires t < |teams|
    ensures ReadNames(teams[..t + 1], attrs, pass) ==
      ReadNames(teams[..t], attrs, pass) + (if Eligible(teams[t], attrs, pass) then NamesIn(teams[t]) else {})
  {
    assert teams[..t + 1][..t] == teams[..t];
  }

  lemma {:induction false} ReadNamesNoneEligible(teams: seq<Team>, attrs: Attributes, pass: Pass)
    requires AllKnown(teams, attrs)
    requires !AnyEligible(teams, attrs, pass)
    ensures ReadNames(teams, attrs, pass) == {}
    decreases |teams|
  {
    if teams != [] {
      var last := |teams| - 1;
      assert !Eligible(teams[last], attrs, pass);
      assert !AnyEligible(teams[..last], attrs, pass);
      ReadNamesNoneEligible(teams[..last], attrs, pass);
    }
  }

  /** The positions of the team `choose_team` returns, or `None` when it returns `None`. */
  function ChosenIndices(cands: seq<Name>, attrs: Attributes, counts: Table, prev: Option<Team>): (r: Option<seq<nat>>)
    requires Known(cands, attrs)
    ensures r.Some? ==> IsCombination(r.value, TeamSize, 0, |cands|)
  {
    var positions := Combinations(TeamSize, 0, |cands|);
    var teams := CandidateTeams(cands, attrs);
    match FirstBest(teams, attrs, counts, prev, Primary)
    case Some(p) => Some(positions[p])
    case None =>
      match FirstBest(teams, attrs, counts, prev, Fallback)
      case Some(p) => Some(positions[p])
      case None => None
  }

  /** The team `choose_team` returns. */
  function Chosen(cands: seq<Name>, attrs: Attributes, counts: Table, prev: Option<Team>): Option<Team>
    requires Known(cands, attrs)
  {
    match ChosenIndices(cands, attrs, counts, prev)
    case Some(idx) => Some(Pick(cands, idx))
    case None => None
  }

  /** The names whose zero entries `choose_team` materialises in the counts table. */
  function ChooseReads(cands: seq<Name>, attrs: Attributes): set<Name>
    requires Known(cands, attrs)
  {
    var teams := CandidateTeams(cands, attrs);
    if AnyEligible(teams, attrs, Primary) then ReadNames(teams, attrs, Primary) else ReadNames(teams, attrs, Fallback)
  }

  /** The scoring part of `choose_team`'s loop body, for one team. */
  method Score(team: Team, attrs: Attributes, counts: Counts, prev: Option<Team>, base: nat) returns (score: nat)
    requires Known(team, attrs)
    modifies counts
    ensures score == Penalty(team, attrs, old(counts.entries), prev, base)
    ensures counts.entries == Touch(old(counts.entries), NamesIn(team))
  {
    ghost var start := counts.entries;
    score := base;
    var (male, female) := CountGender(team, attrs);
    if male == 0 {
      score := score + MissingGenderPenalty;
    }
    if female == 0 {
      score := score + MissingGenderPenalty;
    }
    for i := 0 to |team|
      invariant score == base + GenderPenalty(team, attrs) + MemberPenalties(team[..i], start, prev)
      invariant counts.entries == Touch(start, NamesIn(team[..i]))
    {
      assert team[..i + 1][..i] == team[..i];
      assert NamesIn(team[..i + 1]) == NamesIn(team[..i]) + {team[i]};
      var name := team[i];
      var c := counts.Read(name);
      assert MemberPenalties(team[..i + 1], start, prev) == MemberPenalties(team[..i], start, prev) + MemberPenalty(name, start, prev);
      if c >= 2 {
        score := score + (c - 1) * OverloadUnit;
      }
      if prev.Some? && name in prev.value {
        score := score + RepeatPenalty;
      }
      TouchTwice(start, NamesIn(team[..i]), {name});
    }
    assert team[..|team|] == team;
  }

  /** The loop of one pass after `t` teams: the position of the best team so far. */
  function ScannedBest(teams: seq<Team>, attrs: Attributes, counts: Table, prev: Option<Team>, pass: Pass, t: nat): (r: Option<nat>)
    requires AllKnown(teams, attrs)
    requires t <= |teams|
    ensures r.Some? ==> r.value < t
  {
    FirstMin(Eligibility(teams, attrs, pass)[..t], Scores(teams, attrs, counts, prev, pass.base)[..t])
  }

  /** A team the pass skips leaves the best so far and the names read so far as they were. */
  lemma SkipStep(teams: seq<Team>, attrs: Attributes, counts: Table, prev: Option<Team>, pass: Pass, t: nat)
    requires AllKnown(teams, attrs)
    requires t < |teams|
    requires !Eligible(teams[t], attrs, pass)
    ensures ScannedBest(teams, attrs, counts, prev, pass, t + 1) == ScannedBest(teams, attrs, counts, prev, pass, t)
    ensures ReadNames(teams[..t + 1], attrs, pass) == ReadNames(teams[..t], attrs, pass)
  {
    FirstMinStep(Eligibility(teams, attrs, pass), Scores(teams, attrs, counts, prev, pass.base), t);
    ReadNamesStep(teams, attrs, pass, t);
  }

  /**
   * A team the pass scores replaces the best so far exactly when it scores strictly less; its
   * members' entries are materialised, which leaves its score and the others' unchanged.
   */
  lemma ScoreStep(teams: seq<Team>, attrs: Attributes, start: Table, prev: Option<Team>, pass: Pass, t: nat,
                  bestAt: Option<nat>, bestScore: nat, before: Table, after: Table, score: nat)
    requires AllKnown(teams, attrs)
    requires t < |teams|
    requires Eligible(teams[t], attrs, pass)
    requires bestAt == ScannedBest(teams, attrs, start, prev, pass, t)
    requires bestAt.Some? ==> bestScore == Penalty(teams[bestAt.value], attrs, start, prev, pass.base)
    requires before == Touch(start, ReadNames(teams[..t], attrs, pass))
    requires after == Touch(before, NamesIn(teams[t]))
    requires score == Penalty(teams[t], attrs, before, prev, pass.base)
    ensures score == Penalty(teams[t], attrs, start, prev, pass.base)
    ensures ScannedBest(teams, attrs, start, prev, pass, t + 1) == if bestAt.None? || score < bestScore then Some(t) else bestAt
    ensures after == Touch(start, ReadNames(teams[..t + 1], attrs, pass))
  {
    PenaltySameCounts(teams[t], attrs, before, start, prev, pass.base);
    FirstMinStep(Eligibility(teams, attrs, pass), Scores(teams, attrs, start, prev, pass.base), t);
    ReadNamesStep(teams, attrs, pass, t);
    TouchTwice(start, ReadNames(teams[..t], attrs, pass), NamesIn(teams[t]));
  }

  /** After the last team the loop's best is the pass's result. */
  lemma ScanComplete(teams: seq<Team>, attrs: Attributes, counts: Table, prev: Option<Team>, pass: Pass)
    requires AllKnown(teams, attrs)
    ensures ScannedBest(teams, attrs, counts, prev, pass, |teams|) == FirstBest(teams, attrs, counts, prev, pass)
    ensures teams[..|teams|] == teams
  {
    assert Eligibility(teams, attrs, pass)[..|teams|] == Eligibility(teams, attrs, pass);
    assert Scores(teams, attrs, counts, prev, pass.base)[..|teams|] == Scores(teams, attrs, counts, prev, pass.base);
  }

  /** One pass of `choose_team` over `teams`; `best` is `None` while the best score is still infinite. */
  method SearchPass(teams: seq<Team>, attrs: Attributes, counts: Counts, prev: Option<Team>, pass: Pass) returns (best: Option<Team>)
    requires AllKnown(teams, attrs)
    modifies counts
    ensures best == TeamAt(teams, FirstBest(teams, attrs, old(counts.entries), prev, pass))
    ensures counts.entries == Touch(old(counts.entries), ReadNames(teams, attrs, pass))
  {
    ghost var start := counts.entries;
    ghost var bestAt: Option<nat> := None;
    best := None;
    var bestScore: nat := 0;
    for t := 0 to |teams|
      invariant bestAt == ScannedBest(teams, attrs, start, prev, pass, t)
      invariant bestAt.Some? ==> bestScore == Penalty(teams[bestAt.value], attrs, start, prev, pass.base)
      invariant best == TeamAt(teams, bestAt)
      invariant counts.entries == Touch(start, ReadNames(teams[..t], attrs, pass))
    {
      var team := teams[t];
      if pass.committeeOnly && !HasCommittee(team, attrs) {
        SkipStep(teams, attrs, start, prev, pass, t);
        continue;
      }
      ghost var before := counts.entries;
      var score := Score(team, attrs, counts, prev, pass.base);
      ScoreStep(teams, attrs, start, prev, pass, t, bestAt, bestScore, before, counts.entries, score);
      if best.None? || score < bestScore {
        best, bestScore := Some(team), score;
        bestAt := Some(t);
      }
    }
    ScanComplete(teams, attrs, start, prev, pass);
  }

  /** `choose_team`: the primary pass, then the fallback pass when the primary one found nothing. */
  method ChooseTeam(candidates: seq<Name>, attrs: Attributes, counts: Counts, prev: Option<Team>) returns (team: Option<Team>)
    requires Known(candidates, attrs)
    modifies counts
    ensures team == Chosen(candidates, attrs, old(counts.entries), prev)
    ensures counts.entries == Touch(old(counts.entries), ChooseReads(candidates, attrs))
    ensures forall n :: Count(counts.entries, n) == Count(old(counts.entries), n)
  {
    ghost var start := counts.entries;
    var teams := CandidateTeams(candidates, attrs);
    FirstBestIsFirstMinimum(teams, attrs, start, prev, Primary);
    team := SearchPass(teams, attrs, counts, prev, Primary);
    if team.None? {
      ReadNamesNoneEligible(teams, attrs, Primary);
      ghost var between := counts.entries;
      FirstBestSameCounts(teams, attrs, between, start, prev, Fallback);
      team := SearchPass(teams, attrs, counts, prev, Fallback);
      TouchTwice(start, {}, ReadNames(teams, attrs, Fallback));
    }
  }

  /** Enough candidates for a team, and at least one of them on the committee. */
  predicate CommitteeAvailable(cands: seq<Name>, attrs: Attributes)
    requires Known(cands, attrs)
  {
    |cands| >= TeamSize && exists i :: 0 <= i < |cands| && attrs[cands[i]].committee
  }

  /** The pass whose result `choose_team` returns: the fallback runs only when no committee team exists. */
  function PassFor(cands: seq<Name>, attrs: Attributes): Pass
    requires Known(cands, attrs)
  {
    if CommitteeAvailable(cands, attrs) then Primary else Fallback
  }

  /**
   * `idx` names 4 candidates at strictly increasing positions that `pass` scores, with the
   * least score among all such combinations, and every combination that comes earlier in
   * enumeration (lexicographic) order and is scored scores strictly more.
   */
  ghost predicate IsFirstBestCombination(cands: seq<Name>, attrs: Attributes, counts: Table, prev: Option<Team>, pass: Pass, idx: seq<nat>)
    requires Known(cands, attrs)
  {
    && IsCombination(idx, TeamSize, 0, |cands|)
    && Eligible(Pick(cands, idx), attrs, pass)
    && forall other :: IsCombination(other, TeamSize, 0, |cands|) && Eligible(Pick(cands, other), attrs, pass) ==>
         && Penalty(Pick(cands, idx), attrs, counts, prev, pass.base) <= Penalty(Pick(cands, other), attrs, counts, prev, pass.base)
         && (LexLess(other, idx) ==> Penalty(Pick(cands, idx), attrs, counts, prev, pass.base) < Penalty(Pick(cands, other), attrs, counts, prev, pass.base))
  }

  /** A committee member among at least 4 candidates lies on some enumerated team. */
  lemma CommitteeOnSomeTeam(cands: seq<Name>, attrs: Attributes, i: nat)
    requires Known(cands, attrs)
    requires |cands| >= TeamSize && i < |cands| && attrs[cands[i]].committee
    ensures AnyEligible(CandidateTeams(cands, attrs), attrs, Primary)
  {
    var n := |cands|;
    var positions := Combinations(TeamSize, 0, n);
    var teams := CandidateTeams(cands, attrs);
    var idx: seq<nat> := if i < 4 then [0, 1, 2, 3] else [0, 1, 2, i];
    assert IsCombination(idx, TeamSize, 0, n);
    CombinationsComplete(idx, TeamSize, 0, n);
    var q :| 0 <= q < |positions| && positions[q] == idx;
    var team := teams[q];
    assert team == Pick(cands, idx);
    var j := if i < 4 then i else 3;
    assert team[j] == cands[i];
    assert HasCommittee(team, attrs);
    assert Eligible(teams[q], attrs, Primary);
  }

  /** A team the primary pass scores has a committee member, who is a candidate. */
  lemma CommitteeFromTeam(cands: seq<Name>, attrs: Attributes, q: nat)
    requires Known(cands, attrs)
    requires q < |CandidateTeams(cands, attrs)|
    requires Eligible(CandidateTeams(cands, attrs)[q], attrs, Primary)
    ensures CommitteeAvailable(cands, attrs)
  {
    var n := |cands|;
    var positions := Combinations(TeamSize, 0, n);
    var team := CandidateTeams(cands, attrs)[q];
    assert team == Pick(cands, positions[q]);
    var j :| 0 <= j < |team| && attrs[team[j]].committee;
    assert team[j] == cands[positions[q][j]];
    CombinationsEmptyIff(TeamSize, n);
  }

  /** The primary pass scores some team exactly when a committee member is among at least 4 candidates. */
  lemma CommitteeTeamExists(cands: seq<Name>, attrs: Attributes)
    requires Known(cands, attrs)
    ensures AnyEligible(CandidateTeams(cands, attrs), attrs, Primary) <==> CommitteeAvailable(cands, attrs)
  {
    var teams := CandidateTeams(cands, attrs);
    if CommitteeAvailable(cands, attrs) {
      var i :| 0 <= i < |cands| && attrs[cands[i]].committee;
      CommitteeOnSomeTeam(cands, attrs, i);
    }
    if AnyEligible(teams, attrs, Primary) {
      var q :| 0 <= q < |teams| && Eligible(teams[q], attrs, Primary);
      CommitteeFromTeam(cands, attrs, q);
    }
  }

  /** The fallback pass scores some team exactly when there are at least 4 candidates. */
  lemma FallbackTeamExists(cands: seq<Name>, attrs: Attributes)
    requires Known(cands, attrs)
    ensures AnyEligible(CandidateTeams(cands, attrs), attrs, Fallback) <==> |cands| >= TeamSize
  {
    var teams := CandidateTeams(cands, attrs);
    CombinationsEmptyIff(TeamSize, |cands|);
    if |teams| > 0 {
      assert Eligible(teams[0], attrs, Fallback);
    }
  }

  /** One competing combination against the position a pass settles on. */
  lemma FirstBestBeats(cands: seq<Name>, attrs: Attributes, counts: Table, prev: Option<Team>, pass: Pass, p: nat, other: seq<nat>)
    requires Known(cands, attrs)
    requires IsFirstMinimum(CandidateTeams(cands, attrs), attrs, counts, prev, pass, p)
    requires IsCombination(other, TeamSize, 0, |cands|)
    requires Eligible(Pick(cands, other), attrs, pass)
    ensures var idx := Combinations(TeamSize, 0, |cands|)[p];
      && Penalty(Pick(cands, idx), attrs, counts, prev, pass.base) <= Penalty(Pick(cands, other), attrs, counts, prev, pass.base)
      && (LexLess(other, idx) ==> Penalty(Pick(cands, idx), attrs, counts, prev, pass.base) < Penalty(Pick(cands, other), attrs, counts, prev, pass.base))
  {
    var n := |cands|;
    var positions := Combinations(TeamSize, 0, n);
    var teams := CandidateTeams(cands, attrs);
    CombinationsComplete(other, TeamSize, 0, n);
    var q :| 0 <= q < |positions| && positions[q] == other;
    assert teams[q] == Pick(cands, other);
    assert teams[p] == Pick(cands, positions[p]);
    if LexLess(other, positions[p]) {
      CombinationsSorted(TeamSize, 0, n);
      EarlierWhenLexLess(positions, p, q);
    }
  }

  /** The first minimum among the enumerated teams is the first best combination of positions. */
  lemma FirstMinimumIsFirstBestCombination(cands: seq<Name>, attrs: Attributes, counts: Table, prev: Option<Team>, pass: Pass, p: nat)
    requires Known(cands, attrs)
    requires IsFirstMinimum(CandidateTeams(cands, attrs), attrs, counts, prev, pass, p)
    ensures p < |Combinations(TeamSize, 0, |cands|)|
    ensures IsFirstBestCombination(cands, attrs, counts, prev, pass, Combinations(TeamSize, 0, |cands|)[p])
  {
    var n := |cands|;
    var positions := Combinations(TeamSize, 0, n);
    var teams := CandidateTeams(cands, attrs);
    assert teams[p] == Pick(cands, positions[p]);
    forall other | IsCombination(other, TeamSize, 0, n) && Eligible(Pick(cands, other), attrs, pass)
      ensures Penalty(Pick(cands, positions[p]), attrs, counts, prev, pass.base) <= Penalty(Pick(cands, other), attrs, counts, prev, pass.base)
      ensures LexLess(other, positions[p]) ==> Penalty(Pick(cands, positions[p]), attrs, counts, prev, pass.base) < Penalty(Pick(cands, other), attrs, counts, prev, pass.base)
    {
      FirstBestBeats(cands, attrs, counts, prev, pass, p, other);
    }
  }

  /** What one pass settles on, restated over combinations of positions and their lexicographic order. */
  lemma FirstBestOverCombinations(cands: seq<Name>, attrs: Attributes, counts: Table, prev: Option<Team>, pass: Pass)
    requires Known(cands, attrs)
    ensures var r := FirstBest(CandidateTeams(cands, attrs), attrs, counts, prev, pass);
      r.Some? ==> IsFirstBestCombination(cands, attrs, counts, prev, pass, Combinations(TeamSize, 0, |cands|)[r.value])
  {
    var teams := CandidateTeams(cands, attrs);
    var r := FirstBest(teams, attrs, counts, prev, pass);
    FirstBestIsFirstMinimum(teams, attrs, counts, prev, pass);
    if r.Some? {
      FirstMinimumIsFirstBestCombination(cands, attrs, counts, prev, pass, r.value);
    }
  }

  /** At most one combination is the first best one of a pass. */
  lemma FirstBestCombinationUnique(cands: seq<Name>, attrs: Attributes, counts: Table, prev: Option<Team>, pass: Pass, a: seq<nat>, b: seq<nat>)
    requires Known(cands, attrs)
    requires IsFirstBestCombination(cands, attrs, counts, prev, pass, a)
    requires IsFirstBestCombination(cands, attrs, counts, prev, pass, b)
    ensures a == b
  {
    LexLessTotal(a, b);
  }

  /** `choose_team` returns `None` exactly when there are fewer than 4 candidates. */
  lemma ChosenNoneIff(cands: seq<Name>, attrs: Attributes, counts: Table, prev: Option<Team>)
    requires Known(cands, attrs)
    ensures ChosenIndices(cands, attrs, counts, prev).None? <==> |cands| < TeamSize
    ensures ChosenIndices(cands, attrs, counts, prev).Some? ==>
      IsFirstBestCombination(cands, attrs, counts, prev, PassFor(cands, attrs), ChosenIndices(cands, attrs, counts, prev).value)
  {
    var teams := CandidateTeams(cands, attrs);
    FirstBestIsFirstMinimum(teams, attrs, counts, prev, Primary);
    FirstBestIsFirstMinimum(teams, attrs, counts, prev, Fallback);
    CommitteeTeamExists(cands, attrs);
    FallbackTeamExists(cands, attrs);
    FirstBestOverCombinations(cands, attrs, counts, prev, Primary);
    FirstBestOverCombinations(cands, attrs, counts, prev, Fallback);
  }

  /**
   * The team `choose_team` returns is exactly the first best combination of the pass that
   * runs: the committee pass when a committee member is available, the fallback otherwise.
   */
  lemma ChosenIsFirstBest(cands: seq<Name>, attrs: Attributes, counts: Table, prev: Option<Team>, idx: seq<nat>)
    requires Known(cands, attrs)
    ensures ChosenIndices(cands, attrs, counts, prev) == Some(idx) <==>
      |cands| >= TeamSize && IsFirstBestCombination(cands, attrs, counts, prev, PassFor(cands, attrs), idx)
  {
    ChosenNoneIff(cands, attrs, counts, prev);
    var r := ChosenIndices(cands, attrs, counts, prev);
    if |cands| >= TeamSize && IsFirstBestCombination(cands, attrs, counts, prev, PassFor(cands, attrs), idx) {
      FirstBestCombinationUnique(cands, attrs, counts, prev, PassFor(cands, attrs), r.value, idx);
    }
  }

  /**
   * A returned team is 4 candidates at strictly increasing positions, so its members are
   * distinct whenever the candidates are.
   */
  lemma ChosenTeamShape(cands: seq<Name>, attrs: Attributes, counts: Table, prev: Option<Team>)
    requires Known(cands, attrs)
    ensures Chosen(cands, attrs, counts, prev).None? <==> |cands| < TeamSize
    ensures Chosen(cands, attrs, counts, prev).Some? ==>
      && |Chosen(cands, attrs, counts, prev).value| == TeamSize
      && (forall i :: 0 <= i < TeamSize ==> Chosen(cands, attrs, counts, prev).value[i] in cands)
      && (Distinct(cands) ==> Distinct(Chosen(cands, attrs, counts, prev).value))
  {
    ChosenNoneIff(cands, attrs, counts, prev);
    var r := ChosenIndices(cands, attrs, counts, prev);
    if r.Some? && Distinct(cands) {
      PickDistinct(cands, r.value);
    }
  }

  /**
   * A returned team has a committee member exactly when some candidate is on the committee:
   * the committee requirement is relaxed only when no team could meet it.
   */
  lemma ChosenHasCommittee(cands: seq<Name>, attrs: Attributes, counts: Table, prev: Option<Team>)
    requires Known(cands, attrs)
    requires Chosen(cands, attrs, counts, prev).Some?
    ensures HasCommittee(Chosen(cands, attrs, counts, prev).value, attrs) <==>
      exists i :: 0 <= i < |cands| && attrs[cands[i]].committee
  {
    ChosenNoneIff(cands, attrs, counts, prev);
    var idx := ChosenIndices(cands, attrs, counts, prev).value;
    var team := Pick(cands, idx);
    if HasCommittee(team, attrs) {
      var j :| 0 <= j < |team| && attrs[team[j]].committee;
      assert team[j] == cands[idx[j]];
    }
  }

  /**
   * When the first 4 candidates form a committee team with penalty 0 (both genders, nobody
   * overloaded or repeated from the previous day), `choose_team` returns exactly them.
   */
  lemma PerfectFirstTeamChosen(cands: seq<Name>, attrs: Attributes, counts: Table, prev: Option<Team>)
    requires Known(cands, attrs)
    requires |cands| >= TeamSize
    requires HasCommittee(cands[..TeamSize], attrs)
    requires Penalty(cands[..TeamSize], attrs, counts, prev, 0) == 0
    ensures Chosen(cands, attrs, counts, prev) == Some(cands[..TeamSize])
  {
    var first := FirstPositions(TeamSize);
    assert Pick(cands, first) == cands[..TeamSize];
    var j :| 0 <= j < TeamSize && attrs[cands[..TeamSize][j]].committee;
    assert cands[j] == cands[..TeamSize][j];
    assert PassFor(cands, attrs) == Primary;
    assert IsCombination(first, TeamSize, 0, |cands|);
    forall other | IsCombination(other, TeamSize, 0, |cands|)
      ensures !LexLess(other, first)
    {
      NothingBeforeFirst(other, TeamSize, |cands|);
    }
    assert IsFirstBestCombination(cands, attrs, counts, prev, Primary, first);
    ChosenIsFirstBest(cands, attrs, counts, prev, first);
  }

  /**
   * Five candidates, only the first on the committee, genders alternating, nobody assigned yet:
   * the team of the first four has both genders and penalty 0, so it is the one returned.
   */
  lemma FirstDayExample()
    ensures var attrs := map["A" := Attr(Male, true), "B" := Attr(Female, false), "C" := Attr(Male, false),
                             "D" := Attr(Female, false), "E" := Attr(Male, false)];
      Chosen(["A", "B", "C", "D", "E"], attrs, map[], None) == Some(["A", "B", "C", "D"])
  {
    var attrs := map["A" := Attr(Male, true), "B" := Attr(Female, false), "C" := Attr(Male, false),
                     "D" := Attr(Female, false), "E" := Attr(Male, false)];
    var cands := ["A", "B", "C", "D", "E"];
    var team := cands[..TeamSize];
    assert team == ["A", "B", "C", "D"];
    assert attrs[team[0]].committee;
    assert attrs[team[0]].gender == Male && attrs[team[1]].gender == Female;
    assert HasGender(team, attrs, Male) && HasGender(team, attrs, Female);
    PenaltyZeroIff(team, attrs, map[], None);
    PerfectFirstTeamChosen(cands, attrs, map[], None);
  }
}
