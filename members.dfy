/** People, their attributes, and the two helpers that inspect a team's composition. */
module Members {

  /** A person identifier. */
  type Name = string

  /** A person's attributes: a gender category and the committee flag. */
  datatype Attr = Attr(gender: string, committee: bool)

  /** The attribute store: person identifier to attributes. */
  type Attributes = map<Name, Attr>

  /** A team, in the order the enumeration produced it. */
  type Team = seq<Name>

  const Male: string := "male"
  const Female: string := "female"

  /** Every member of `team` has attributes; looking up anyone else raises KeyError in the source. */
  predicate Known(team: seq<Name>, attrs: Attributes)
  {
    forall i :: 0 <= i < |team| ==> team[i] in attrs
  }

  /** Some member of `team` belongs to gender category `g`. */
  predicate HasGender(team: seq<Name>, attrs: Attributes, g: string)
    requires Known(team, attrs)
  {
    exists i :: 0 <= i < |team| && attrs[team[i]].gender == g
  }

  /** The number of members of `team` whose gender category is `g`. */
  function CountCategory(team: seq<Name>, attrs: Attributes, g: string): (r: nat)
    requires Known(team, attrs)
    ensures r <= |team|
    ensures r == 0 <==> !HasGender(team, attrs, g)
  {
    if team == [] then 0
    else
      var rest := CountCategory(team[1..], attrs, g);
      assert HasGender(team[1..], attrs, g) ==> HasGender(team, attrs, g) by {
        if HasGender(team[1..], attrs, g) {
          var i :| 0 <= i < |team| - 1 && attrs[team[1..][i]].gender == g;
          assert team[i + 1] == team[1..][i];
        }
      }
      assert HasGender(team, attrs, g) && attrs[team[0]].gender != g ==> HasGender(team[1..], attrs, g) by {
        if HasGender(team, attrs, g) && attrs[team[0]].gender != g {
          var i :| 0 <= i < |team| && attrs[team[i]].gender == g;
          assert team[1..][i - 1] == team[i];
        }
      }
      (if attrs[team[0]].gender == g then 1 else 0) + rest
  }

  /** Members of two different categories never outnumber the team. */
  lemma {:induction false} CategoriesDisjoint(team: seq<Name>, attrs: Attributes, g1: string, g2: string)
    requires Known(team, attrs)
    requires g1 != g2
    ensures CountCategory(team, attrs, g1) + CountCategory(team, attrs, g2) <= |team|
  {
    if team != [] {
      CategoriesDisjoint(team[1..], attrs, g1, g2);
    }
  }

  /** `count_gender`: the number of male and the number of female members. */
  function CountGender(team: seq<Name>, attrs: Attributes): (r: (nat, nat))
    requires Known(team, attrs)
    ensures r.0 == 0 <==> !HasGender(team, attrs, Male)
    ensures r.1 == 0 <==> !HasGender(team, attrs, Female)
    ensures r.0 + r.1 <= |team|
  {
    CategoriesDisjoint(team, attrs, Male, Female);
    (CountCategory(team, attrs, Male), CountCategory(team, attrs, Female))
  }

  /** `has_committee`: whether any member carries the committee flag. */
  function HasCommittee(team: seq<Name>, attrs: Attributes): (r: bool)
    requires Known(team, attrs)
    ensures r <==> exists i :: 0 <= i < |team| && attrs[team[i]].committee
  {
    if team == [] then false
    else
      var rest := HasCommittee(team[1..], attrs);
      assert rest ==> exists i :: 0 <= i < |team| && attrs[team[i]].committee by {
        if rest {
          var i :| 0 <= i < |team| - 1 && attrs[team[1..][i]].committee;
          assert team[i + 1] == team[1..][i];
        }
      }
      assert (exists i :: 0 <= i < |team| && attrs[team[i]].committee) && !attrs[team[0]].committee ==> rest by {
        if (exists i :: 0 <= i < |team| && attrs[team[i]].committee) && !attrs[team[0]].committee {
          var i :| 0 <= i < |team| && attrs[team[i]].committee;
          assert team[1..][i - 1] == team[i];
        }
      }
      attrs[team[0]].committee || rest
  }
}
