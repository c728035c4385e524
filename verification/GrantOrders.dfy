/** Strict priority, the reference weighted round robin, and the orders it emits over several steps. */
module GrantOrders {
  import opened CreditMachine
  import opened Sorting
  import opened Options

  type Name = string

  ghost predicate Covers<V>(names: seq<Name>, m: map<Name, V>) { forall n :: n in names ==> n in m }

  ghost function Present(names: seq<Name>, labels: map<Name, int>): set<int>
    requires Covers(names, labels)
  {
    set n | n in names :: labels[n]
  }

  /** Position of each name; a repeated name keeps its last position. */
  function Baseline(names: seq<Name>): (b: map<Name, nat>)
    ensures forall n :: n in b <==> n in names
  {
    if names == [] then map[]
    else
      var k := |names| - 1;
      assert names == names[..k] + [names[k]];
      Baseline(names[..k])[names[k] := k]
  }

  // ----- Strict priority -----

  predicate KeyLe(labels: map<Name, int>, baseline: map<Name, nat>, x: Name, y: Name) {
    var lx := if x in labels then labels[x] else 0;
    var ly := if y in labels then labels[y] else 0;
    var bx := if x in baseline then baseline[x] else 0;
    var bY := if y in baseline then baseline[y] else 0;
    lx < ly || (lx == ly && bx <= bY)
  }

  function StrictPriorityOrder(names: seq<Name>, labels: map<Name, int>): seq<Name> {
    var baseline := Baseline(names);
    Sort(names, (x, y) => KeyLe(labels, baseline, x, y))
  }

  /** Lowest label first, graph order within a label: the defining property of strict priority. */
  ghost predicate IsStrictPriority(order: seq<Name>, labels: map<Name, int>, baseline: map<Name, nat>) {
    forall i, j :: 0 <= i < j < |order| ==> KeyLe(labels, baseline, order[i], order[j])
  }

  lemma {:induction false} BaselineIsIndex(names: seq<Name>, i: nat)
    requires Distinct(names) && i < |names|
    ensures Baseline(names)[names[i]] == i
  {
    var k := |names| - 1;
    if i < k {
      BaselineIsIndex(names[..k], i);
    }
  }

  lemma {:induction false} KeysAreTotal(names: seq<Name>, labels: map<Name, int>)
    requires Distinct(names)
    ensures TotalOrderOn(Elements(names), (x, y) => KeyLe(labels, Baseline(names), x, y))
  {
    forall x, y | x in names && y in names && Baseline(names)[x] == Baseline(names)[y]
      ensures x == y
    {
      var i :| 0 <= i < |names| && names[i] == x;
      var j :| 0 <= j < |names| && names[j] == y;
      BaselineIsIndex(names, i);
      BaselineIsIndex(names, j);
    }
  }

  /** The sorted order is the one and only permutation that respects strict priority. */
  lemma {:induction false} StrictPriorityIsUnique(names: seq<Name>, labels: map<Name, int>, order: seq<Name>)
    requires Distinct(names)
    ensures order == StrictPriorityOrder(names, labels) <==>
              multiset(order) == multiset(names) && IsStrictPriority(order, labels, Baseline(names))
  {
    var baseline := Baseline(names);
    var le := (x, y) => KeyLe(labels, baseline, x, y);
    var sorted := StrictPriorityOrder(names, labels);
    KeysAreTotal(names, labels);
    SortPermutes(names, le);
    SortSorts(names, le);
    if multiset(order) == multiset(names) && IsStrictPriority(order, labels, baseline) {
      PermutationSameElements(names, order);
      assert Sorted(order, le);
      SortedUnique(order, sorted, le);
    }
  }

  // ----- The pieces of one selection -----

  ghost predicate Increasing(s: seq<int>) { forall i, j :: 0 <= i < j < |s| ==> s[i] < s[j] }

  function InsertLabel(l: int, s: seq<int>): (r: seq<int>)
    requires Increasing(s)
    ensures Increasing(r)
    ensures forall x :: x in r <==> x == l || x in s
  {
    if s == [] then [l]
    else if l < s[0] then
      PutFirst(l, s);
      [l] + s
    else if l == s[0] then s
    else
      var r := InsertLabel(l, s[1..]);
      PutFirst(s[0], s[1..]);
      PutFirst(s[0], r);
      assert s == [s[0]] + s[1..];
      [s[0]] + r
  }

  lemma {:induction false} PutFirst(x: int, s: seq<int>)
    requires Increasing(s)
    ensures (forall y :: y in s ==> x < y) || (s != [] && x < s[0]) ==> Increasing([x] + s)
    ensures forall y :: y in [x] + s <==> y == x || y in s
  {
    if s != [] && x < s[0] {
      assert forall k :: 0 <= k < |s| ==> x < s[k];
    }
    if forall y :: y in s ==> x < y {
      assert forall k :: 0 <= k < |s| ==> s[k] in s;
    }
  }

  /** The sorted labels of the candidates, each once. */
  function SortedLabels(names: seq<Name>, labels: map<Name, int>): (r: seq<int>)
    requires Covers(names, labels)
    ensures Increasing(r)
    ensures forall l :: l in r <==> l in Present(names, labels)
  {
    if names == [] then []
    else
      assert names == [names[0]] + names[1..];
      assert Present(names, labels) == {labels[names[0]]} + Present(names[1..], labels);
      InsertLabel(labels[names[0]], SortedLabels(names[1..], labels))
  }

  /** The present labels that still have credit, in order. */
  function WithCredit(p: Policy, c: Credits, present: seq<int>): (r: seq<int>)
    requires Increasing(present)
    ensures Increasing(r)
    ensures forall l :: l in r <==> l in present && Credit(p, c, l) > 0
  {
    if present == [] then []
    else
      assert present == [present[0]] + present[1..];
      var rest := WithCredit(p, c, present[1..]);
      PutFirst(present[0], present[1..]);
      PutFirst(present[0], rest);
      if Credit(p, c, present[0]) > 0 then [present[0]] + rest else rest
  }

  lemma {:induction false} HeadIsMin(s: seq<int>, els: set<int>)
    requires s != [] && Increasing(s) && els != {}
    requires forall l :: l in s <==> l in els
    ensures s[0] == Min(els)
  {
    assert s[0] in s;
    assert Min(els) in s;
  }

  /** First candidate of class `w` with the least baseline, as the minimum of a generator is found. */
  function Pick(names: seq<Name>, labels: map<Name, int>, baseline: map<Name, nat>, w: int): Option<Name>
    requires Covers(names, labels) && Covers(names, baseline)
  {
    if names == [] then None
    else
      var k := |names| - 1;
      assert names == names[..k] + [names[k]];
      var best := Pick(names[..k], labels, baseline, w);
      if labels[names[k]] == w
         && (best.None? || best.value !in baseline || baseline[names[k]] < baseline[best.value])
      then Some(names[k]) else best
  }

  lemma {:induction false} PickIsLeast(names: seq<Name>, labels: map<Name, int>, baseline: map<Name, nat>, w: int)
    requires Covers(names, labels) && Covers(names, baseline)
    ensures var r := Pick(names, labels, baseline, w);
            && (r.None? <==> w !in Present(names, labels))
            && (r.Some? ==> r.value in names && labels[r.value] == w
                            && forall n :: n in names && labels[n] == w ==> baseline[r.value] <= baseline[n])
  {
    if names != [] {
      var k := |names| - 1;
      assert names == names[..k] + [names[k]];
      PickIsLeast(names[..k], labels, baseline, w);
      assert Present(names, labels) == Present(names[..k], labels) + {labels[names[k]]};
    }
  }

  /** Removes the first occurrence. */
  function Remove(names: seq<Name>, x: Name): (r: seq<Name>)
    requires x in names
    ensures |r| == |names| - 1
    ensures multiset(r) == multiset(names) - multiset{x}
    ensures forall n :: n in r ==> n in names
  {
    assert names == [names[0]] + names[1..];
    if names[0] == x then names[1..] else [names[0]] + Remove(names[1..], x)
  }

  ghost function RefilledWith(p: Policy, c: Credits, present: seq<int>): Credits {
    c + map l | l in present :: p.Weight(l)
  }

  lemma {:induction false} RefillOneMore(p: Policy, c: Credits, present: seq<int>, l: int)
    ensures RefilledWith(p, c, present + [l]) == RefilledWith(p, c, present)[l := p.Weight(l)]
  {
    var more := present + [l];
    assert forall x :: x in more <==> x in present || x == l;
  }

  lemma {:induction false} RefillIsRefilled(p: Policy, c: Credits, labels: set<int>, present: seq<int>)
    requires Eligible(p, c, labels) == {}
    requires forall l :: l in present <==> l in labels
    ensures RefilledWith(p, c, present) == Refilled(p, c, labels)
  {
  }

  class ReferenceWeightedRoundRobin {
    const policy: Policy
    var remaining: Credits

    constructor (weights: map<int, int>, defaultWeight: int)
      ensures policy == Policy(weights, defaultWeight) && remaining == map[]
    {
      policy := Policy(weights, defaultWeight);
      remaining := map[];
    }

    /** One grant: the credit machine decides the class, the baseline the candidate.  With no candidates the program
        fails and nothing changes. */
    method Select(names: seq<Name>, labels: map<Name, int>, baseline: map<Name, nat>) returns (r: Option<Name>)
      requires Covers(names, labels) && Covers(names, baseline)
      modifies this
      ensures names == [] ==> r == None && remaining == old(remaining)
      ensures names != [] ==>
                var present := Present(names, labels);
                && present != {}
                && remaining == Grant(policy, old(remaining), present)
                && r == Pick(names, labels, baseline, Winner(policy, old(remaining), present))
                && r.Some?
    {
      if names == [] {
        return None;
      }
      var winner := SpendCredit(SortedLabels(names, labels), Present(names, labels));
      PickIsLeast(names, labels, baseline, winner);
      r := None;
      for i := 0 to |names|
        invariant r == Pick(names[..i], labels, baseline, winner)
        invariant r.Some? ==> r.value in baseline
      {
        assert names[..i + 1][..i] == names[..i];
        if labels[names[i]] == winner && (r.None? || baseline[names[i]] < baseline[r.value]) {
          r := Some(names[i]);
        }
      }
      assert names[..|names|] == names;
    }

    /** The part of a selection that only looks at classes. */
    method SpendCredit(present: seq<int>, ghost labels: set<int>) returns (winner: int)
      requires present != [] && Increasing(present)
      requires forall l :: l in present <==> l in labels
      modifies this
      ensures labels != {} && winner in labels
      ensures winner == Winner(policy, old(remaining), labels)
      ensures remaining == Grant(policy, old(remaining), labels)
    {
      assert present[0] in labels;
      var eligible := WithCredit(policy, remaining, present);
      SelectedClass(policy, remaining, labels, present, eligible);
      if eligible == [] {
        RefillIsRefilled(policy, remaining, labels, present);
        Refill(present);
        eligible := present;
      }
      winner := eligible[0];
      assert winner in eligible;
      remaining := remaining[winner := Credit(policy, remaining, winner) - 1];
    }

    method Refill(present: seq<int>)
      modifies this
      ensures remaining == RefilledWith(policy, old(remaining), present)
    {
      for i := 0 to |present|
        invariant remaining == RefilledWith(policy, old(remaining), present[..i])
      {
        RefillOneMore(policy, old(remaining), present[..i], present[i]);
        remaining := remaining[present[i] := policy.Weight(present[i])];
        assert present[..i + 1] == present[..i] + [present[i]];
      }
      assert present[..|present|] == present;
    }

    static lemma {:induction false} SelectedClass(p: Policy, c: Credits, labels: set<int>, present: seq<int>,
                                                  eligible: seq<int>)
      requires labels != {} && Increasing(present) && Increasing(eligible)
      requires forall l :: l in present <==> l in labels
      requires forall l :: l in eligible <==> l in present && Credit(p, c, l) > 0
      ensures eligible == [] <==> Eligible(p, c, labels) == {}
      ensures present != [] && Winner(p, c, labels) == if eligible == [] then present[0] else eligible[0]
    {
      var x := Min(labels);
      assert x in present;
      HeadIsMin(present, labels);
      if eligible != [] {
        assert eligible[0] in eligible;
        assert eligible[0] in Eligible(p, c, labels);
        HeadIsMin(eligible, Eligible(p, c, labels));
      }
      assert forall l :: l in Eligible(p, c, labels) ==> l in present;
    }
  }
}
