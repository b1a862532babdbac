/**
 * The penalty of a candidate team: lower is better, zero is ideal. The terms are additive:
 * a missing gender category, members who are already heavily assigned, and members who
 * were on the previous day's team, on top of a base that depends on the selection pass.
 */
module Scoring {
  import opened Wrappers
  import opened Members
  import opened Tally
  import opened Enumeration

  /** Added once for no male member and once for no female member. */
  const MissingGenderPenalty: nat := 5
  /** Added per assignment beyond the first, for members assigned at least twice. */
  const OverloadUnit: nat := 10
  /** Added for each member who was on the previous team. */
  const RepeatPenalty: nat := 3

  /** The gender-balance term, computed from `count_gender`. */
  function GenderPenalty(team: seq<Name>, attrs: Attributes): (r: nat)
    requires Known(team, attrs)
    ensures r == (if HasGender(team, attrs, Male) then 0 else MissingGenderPenalty)
               + (if HasGender(team, attrs, Female) then 0 else MissingGenderPenalty)
  {
    var (male, female) := CountGender(team, attrs);
    (if male == 0 then MissingGenderPenalty else 0) + (if female == 0 then MissingGenderPenalty else 0)
  }

  /** The overload term of one member whose count so far is `c`. */
  function OverloadPenalty(c: nat): nat
  {
    if c >= 2 then (c - 1) * OverloadUnit else 0
  }

  /** Whether `name` was on the previous team (`prev_team and name in prev_team`). */
  predicate Repeated(name: Name, prev: Option<Team>)
  {
    prev.Some? && name in prev.value
  }

  /** The terms one member contributes in the per-member loop. */
  function MemberPenalty(name: Name, counts: Table, prev: Option<Team>): nat
  {
    OverloadPenalty(Count(counts, name)) + (if Repeated(name, prev) then RepeatPenalty else 0)
  }

  /** The per-member terms of `members`, summed in loop order. */
  function MemberPenalties(members: seq<Name>, counts: Table, prev: Option<Team>): nat
    decreases |members|
  {
    if members == [] then 0
    else MemberPenalties(members[..|members| - 1], counts, prev) + MemberPenalty(members[|members| - 1], counts, prev)
  }

  /** The score of `team`, starting from `base` (0 in the primary pass, 100 in the fallback pass). */
  function Penalty(team: seq<Name>, attrs: Attributes, counts: Table, prev: Option<Team>, base: nat): nat
    requires Known(team, attrs)
  {
    base + GenderPenalty(team, attrs) + MemberPenalties(team, counts, prev)
  }

  /** The per-member terms vanish exactly when no member is overloaded or repeated. */
  lemma {:induction false} MemberPenaltiesZeroIff(members: seq<Name>, counts: Table, prev: Option<Team>)
    ensures MemberPenalties(members, counts, prev) == 0 <==>
      forall i :: 0 <= i < |members| ==> Count(counts, members[i]) <= 1 && !Repeated(members[i], prev)
    decreases |members|
  {
    if members != [] {
      var init := members[..|members| - 1];
      MemberPenaltiesZeroIff(init, counts, prev);
      assert forall i :: 0 <= i < |init| ==> init[i] == members[i];
    }
  }

  /**
   * A score of zero is reached exactly by a team with both a male and a female member,
   * no member assigned more than once so far, and nobody from the previous team.
   */
  lemma PenaltyZeroIff(team: seq<Name>, attrs: Attributes, counts: Table, prev: Option<Team>)
    requires Known(team, attrs)
    ensures Penalty(team, attrs, counts, prev, 0) == 0 <==>
      && HasGender(team, attrs, Male)
      && HasGender(team, attrs, Female)
      && forall i :: 0 <= i < |team| ==> Count(counts, team[i]) <= 1 && !Repeated(team[i], prev)
  {
    MemberPenaltiesZeroIff(team, counts, prev);
  }

  /** More assignments so far never lower a team's score. */
  lemma {:induction false} MemberPenaltiesMonotone(members: seq<Name>, m1: Table, m2: Table, prev: Option<Team>)
    requires forall i :: 0 <= i < |members| ==> Count(m1, members[i]) <= Count(m2, members[i])
    ensures MemberPenalties(members, m1, prev) <= MemberPenalties(members, m2, prev)
    decreases |members|
  {
    if members != [] {
      var init := members[..|members| - 1];
      var last := members[|members| - 1];
      assert forall i :: 0 <= i < |init| ==> init[i] == members[i];
      MemberPenaltiesMonotone(init, m1, m2, prev);
      assert Count(m1, last) <= Count(m2, last);
    }
  }

  /** The score is monotone in the assignment counts of the team's members. */
  lemma PenaltyMonotone(team: seq<Name>, attrs: Attributes, m1: Table, m2: Table, prev: Option<Team>, base: nat)
    requires Known(team, attrs)
    requires forall i :: 0 <= i < |team| ==> Count(m1, team[i]) <= Count(m2, team[i])
    ensures Penalty(team, attrs, m1, prev, base) <= Penalty(team, attrs, m2, prev, base)
  {
    MemberPenaltiesMonotone(team, m1, m2, prev);
  }

  /** The score reads the counts only through `Count`, so tables that agree there score alike. */
  lemma PenaltySameCounts(team: seq<Name>, attrs: Attributes, m1: Table, m2: Table, prev: Option<Team>, base: nat)
    requires Known(team, attrs)
    requires forall n :: Count(m1, n) == Count(m2, n)
    ensures Penalty(team, attrs, m1, prev, base) == Penalty(team, attrs, m2, prev, base)
  {
    PenaltyMonotone(team, attrs, m1, m2, prev, base);
    PenaltyMonotone(team, attrs, m2, m1, prev, base);
  }

  /**
   * One member `x` of a duplicate-free team who is on the previous team `p2` but not on `p1`,
   * where the two previous teams agree on everyone else, adds exactly 3 to the score.
   */
  lemma {:induction false} RepeatAddsThree(members: seq<Name>, counts: Table, p1: Team, p2: Team, x: Name)
    requires Distinct(members) && x in members
    requires x !in p1 && x in p2
    requires forall n :: n != x ==> (n in p1 <==> n in p2)
    ensures MemberPenalties(members, counts, Some(p2)) == MemberPenalties(members, counts, Some(p1)) + RepeatPenalty
    decreases |members|
  {
    var init := members[..|members| - 1];
    var last := members[|members| - 1];
    if last == x {
      assert x !in init;
      NotMemberSamePenalties(init, counts, p1, p2, x);
    } else {
      assert x in init by {
        var i :| 0 <= i < |members| && members[i] == x;
        assert i < |members| - 1 && init[i] == x;
      }
      RepeatAddsThree(init, counts, p1, p2, x);
    }
  }

  lemma {:induction false} NotMemberSamePenalties(members: seq<Name>, counts: Table, p1: Team, p2: Team, x: Name)
    requires x !in members
    requires forall n :: n != x ==> (n in p1 <==> n in p2)
    ensures MemberPenalties(members, counts, Some(p2)) == MemberPenalties(members, counts, Some(p1))
    decreases |members|
  {
    if members != [] {
      NotMemberSamePenalties(members[..|members| - 1], counts, p1, p2, x);
    }
  }

  /** The repetition rule on whole scores: one more repeated member, exactly 3 more penalty. */
  lemma PenaltyRepeatAddsThree(team: seq<Name>, attrs: Attributes, counts: Table, p1: Team, p2: Team, x: Name, base: nat)
    requires Known(team, attrs)
    requires Distinct(team) && x in team
    requires x !in p1 && x in p2
    requires forall n :: n != x ==> (n in p1 <==> n in p2)
    ensures Penalty(team, attrs, counts, Some(p2), base) == Penalty(team, attrs, counts, Some(p1), base) + RepeatPenalty
  {
    RepeatAddsThree(team, counts, p1, p2, x);
  }

  /** One more assignment of a member of a duplicate-free list changes its per-member terms by the overload rule. */
  lemma {:induction false} MemberPenaltiesBump(members: seq<Name>, counts: Table, prev: Option<Team>, x: Name)
    requires Distinct(members) && x in members
    ensures MemberPenalties(members, Bump(counts, x), prev) ==
      MemberPenalties(members, counts, prev) + (if Count(counts, x) >= 1 then OverloadUnit else 0)
    decreases |members|
  {
    var init := members[..|members| - 1];
    var last := members[|members| - 1];
    if last == x {
      assert x !in init;
      OthersUnchanged(init, counts, x);
    } else {
      assert x in init by {
        var i :| 0 <= i < |members| && members[i] == x;
        assert i < |members| - 1 && init[i] == x;
      }
      MemberPenaltiesBump(init, counts, prev, x);
    }
  }

  /** An assignment of someone outside `members` leaves their per-member terms alone. */
  lemma {:induction false} OthersUnchanged(members: seq<Name>, counts: Table, x: Name)
    requires x !in members
    ensures forall prev :: MemberPenalties(members, Bump(counts, x), prev) == MemberPenalties(members, counts, prev)
    decreases |members|
  {
    if members != [] {
      OthersUnchanged(members[..|members| - 1], counts, x);
    }
  }

  /**
   * The overload rule on whole scores: one more assignment of a member of a duplicate-free
   * team adds 10 once that member already had one, and nothing when they had none; the
   * other terms stay as they were.
   */
  lemma PenaltyBumpOne(team: seq<Name>, attrs: Attributes, counts: Table, prev: Option<Team>, base: nat, x: Name)
    requires Known(team, attrs)
    requires Distinct(team) && x in team
    ensures Penalty(team, attrs, Bump(counts, x), prev, base) ==
      Penalty(team, attrs, counts, prev, base) + (if Count(counts, x) >= 1 then OverloadUnit else 0)
  {
    MemberPenaltiesBump(team, counts, prev, x);
  }
}
