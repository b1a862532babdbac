/**
 * Assignment counts: the source's `defaultdict(int)`. A name that has no entry reads as 0,
 * and reading it with `counts[name]` inserts that zero entry.
 */
module Tally {
  import opened Members

  type Table = map<Name, nat>

  /** The value `counts[n]` yields: the stored count, or 0 for a name without an entry. */
  function Count(m: Table, n: Name): nat
  {
    if n in m then m[n] else 0
  }

  /** The table after `names` have been read: the same counts, with a zero entry for each new name. */
  function Touch(m: Table, names: set<Name>): (r: Table)
    ensures r.Keys == m.Keys + names
    ensures forall n :: Count(r, n) == Count(m, n)
  {
    map n | n in m.Keys + names :: Count(m, n)
  }

  /** The table after `counts[n] += 1`. */
  function Bump(m: Table, n: Name): Table
  {
    m[n := Count(m, n) + 1]
  }

  /** The table after `for name in team: counts[name] += 1`. */
  function BumpAll(m: Table, team: seq<Name>): Table
    decreases |team|
  {
    if team == [] then m else Bump(BumpAll(m, team[..|team| - 1]), team[|team| - 1])
  }

  function NamesIn(team: seq<Name>): set<Name>
  {
    set n | n in team
  }

  /** Reading two batches of names materialises their union. */
  lemma TouchTwice(m: Table, a: set<Name>, b: set<Name>)
    ensures Touch(Touch(m, a), b) == Touch(m, a + b)
  {
  }

  /** Incrementing every member of `team` raises each count by the number of times the name occurs in `team`. */
  lemma {:induction false} BumpAllCount(m: Table, team: seq<Name>, n: Name)
    ensures Count(BumpAll(m, team), n) == Count(m, n) + multiset(team)[n]
    ensures BumpAll(m, team).Keys == m.Keys + NamesIn(team)
    decreases |team|
  {
    if team != [] {
      var init := team[..|team| - 1];
      BumpAllCount(m, init, n);
      assert team == init + [team[|team| - 1]];
      assert multiset(team) == multiset(init) + multiset{team[|team| - 1]};
      assert NamesIn(team) == NamesIn(init) + {team[|team| - 1]};
    }
  }

  /** The sum of the counts of `keys`. */
  ghost function SumOver(m: Table, keys: set<Name>): nat
    decreases |keys|
  {
    if keys == {} then 0
    else
      var k :| k in keys;
      Count(m, k) + SumOver(m, keys - {k})
  }

  /** The sum of all counts in the table. */
  ghost function Total(m: Table): nat
  {
    SumOver(m, m.Keys)
  }

  /** The sum does not depend on which key is taken out first. */
  lemma {:induction false} SumOverRemove(m: Table, keys: set<Name>, k: Name)
    requires k in keys
    ensures SumOver(m, keys) == Count(m, k) + SumOver(m, keys - {k})
    decreases |keys|
  {
    var j :| j in keys && SumOver(m, keys) == Count(m, j) + SumOver(m, keys - {j});
    if j != k {
      SumOverRemove(m, keys - {j}, k);
      SumOverRemove(m, keys - {k}, j);
      assert keys - {j} - {k} == keys - {k} - {j};
    }
  }

  /** Two tables that agree on the counts of `keys` have the same sum over `keys`. */
  lemma {:induction false} SumOverSameCounts(m1: Table, m2: Table, keys: set<Name>)
    requires forall k :: k in keys ==> Count(m1, k) == Count(m2, k)
    ensures SumOver(m1, keys) == SumOver(m2, keys)
    decreases |keys|
  {
    if keys != {} {
      var k :| k in keys;
      SumOverRemove(m1, keys, k);
      SumOverRemove(m2, keys, k);
      SumOverSameCounts(m1, m2, keys - {k});
    }
  }

  /** Names whose count is zero add nothing to a sum. */
  lemma {:induction false} SumOverZeros(m: Table, keys: set<Name>, extra: set<Name>)
    requires forall k :: k in extra ==> Count(m, k) == 0
    ensures SumOver(m, keys + extra) == SumOver(m, keys)
    decreases |extra|
  {
    if extra != {} {
      var x :| x in extra;
      if x in keys {
        assert keys + extra == keys + (extra - {x});
      } else {
        SumOverRemove(m, keys + extra, x);
        assert (keys + extra) - {x} == keys + (extra - {x});
      }
      SumOverZeros(m, keys, extra - {x});
    }
  }

  /** Materialising zero entries leaves the total unchanged. */
  lemma TotalTouch(m: Table, names: set<Name>)
    ensures Total(Touch(m, names)) == Total(m)
  {
    var r := Touch(m, names);
    SumOverSameCounts(r, m, m.Keys + names);
    assert m.Keys + names == m.Keys + (names - m.Keys);
    SumOverZeros(m, m.Keys, names - m.Keys);
  }

  /** One increment raises the total by one. */
  lemma TotalBump(m: Table, n: Name)
    ensures Total(Bump(m, n)) == Total(m) + 1
  {
    var r := Bump(m, n);
    var keys := m.Keys + {n};
    assert r.Keys == keys;
    SumOverRemove(r, keys, n);
    SumOverSameCounts(r, m, keys - {n});
    SumOverRemove(m, keys, n);
    if n in m {
      assert keys == m.Keys;
    } else {
      SumOverZeros(m, m.Keys, {n});
    }
  }

  /** Incrementing every member of `team` raises the total by the size of the team. */
  lemma {:induction false} TotalBumpAll(m: Table, team: seq<Name>)
    ensures Total(BumpAll(m, team)) == Total(m) + |team|
    decreases |team|
  {
    if team != [] {
      TotalBumpAll(m, team[..|team| - 1]);
      TotalBump(BumpAll(m, team[..|team| - 1]), team[|team| - 1]);
    }
  }

  /** The counts table, updated in place as the source updates its `defaultdict`. */
  class Counts {
    var entries: Table

    constructor ()
      ensures entries == map[]
    {
      entries := map[];
    }

    /** `counts[name]`: the count of `name`, inserting a zero entry when there is none. */
    method Read(name: Name) returns (c: nat)
      modifies this
      ensures c == Count(old(entries), name)
      ensures entries == Touch(old(entries), {name})
    {
      if name !in entries {
        entries := entries[name := 0];
      }
      c := entries[name];
    }

    /** `counts[name] += 1`. */
    method Increment(name: Name)
      modifies this
      ensures entries == Bump(old(entries), name)
    {
      entries := entries[name := Count(entries, name) + 1];
    }
  }
}
