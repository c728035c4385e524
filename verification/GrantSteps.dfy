/** The orders the weighted grant model emits: one ready-seam grant, then grants until every operation is placed, for
    several steps with the credits carried over. */
module GrantSteps {
  import opened CreditMachine
  import opened Sorting
  import opened Options
  import opened GrantOrders

  datatype Drained = Drained(order: seq<Name>, credits: Credits)

  /** Grants until nothing remains. */
  ghost function Drain(p: Policy, c: Credits, left: seq<Name>, labels: map<Name, int>, baseline: map<Name, nat>)
    : Drained
    requires Covers(left, labels) && Covers(left, baseline)
    decreases |left|
  {
    if left == [] then Drained([], c)
    else
      var g := Granted(p, c, left, labels, baseline);
      var rest := Drain(p, Grant(p, c, Present(left, labels)), Remove(left, g), labels, baseline);
      Drained([g] + rest.order, rest.credits)
  }

  lemma {:induction false} DrainNothing(p: Policy, c: Credits, labels: map<Name, int>, baseline: map<Name, nat>)
    ensures Drain(p, c, [], labels, baseline) == Drained([], c)
  {
  }

  lemma {:induction false} DrainOnce(p: Policy, c: Credits, left: seq<Name>, labels: map<Name, int>,
                                     baseline: map<Name, nat>)
    requires left != [] && Covers(left, labels) && Covers(left, baseline)
    ensures Present(left, labels) != {}
    ensures var g := Granted(p, c, left, labels, baseline);
            var rest := Drain(p, Grant(p, c, Present(left, labels)), Remove(left, g), labels, baseline);
            Drain(p, c, left, labels, baseline) == Drained([g] + rest.order, rest.credits)
  {
    assert labels[left[0]] in Present(left, labels);
  }

  /** The operation one grant picks out of `left`. */
  ghost function Granted(p: Policy, c: Credits, left: seq<Name>, labels: map<Name, int>, baseline: map<Name, nat>)
    : (g: Name)
    requires left != [] && Covers(left, labels) && Covers(left, baseline)
    ensures Present(left, labels) != {}
    ensures g in left && labels[g] == Winner(p, c, Present(left, labels))
    ensures forall n :: n in left && labels[n] == labels[g] ==> baseline[g] <= baseline[n]
  {
    assert labels[left[0]] in Present(left, labels);
    var w := Winner(p, c, Present(left, labels));
    WinnerHasCredit(p, c, Present(left, labels));
    PickIsLeast(left, labels, baseline, w);
    Pick(left, labels, baseline, w).value
  }

  /** One step over the whole graph. */
  ghost function Step(p: Policy, c: Credits, graph: seq<Name>, labels: map<Name, int>): Drained
    requires graph != [] && Covers(graph, labels)
  {
    assert labels[graph[0]] in Present(graph, labels);
    Drain(p, Grant(p, c, Present(graph, labels)), graph, labels, Baseline(graph))
  }

  ghost function Steps(p: Policy, c: Credits, graph: seq<Name>, labels: map<Name, int>, n: nat): seq<seq<Name>>
    requires graph != [] && Covers(graph, labels)
    decreases n
  {
    if n == 0 then []
    else
      var s := Step(p, c, graph, labels);
      [s.order] + Steps(p, s.credits, graph, labels, n - 1)
  }

  /** The program, from new weights: an empty graph fails at the first grant, and the first order is the strict one
      exactly when the configured weights cover the step. */
  method ReferenceWrrSteps(graph: seq<Name>, labels: map<Name, int>, weights: map<int, int>, steps: nat)
    returns (observed: Option<seq<seq<Name>>>)
    requires Covers(graph, labels)
    ensures observed == if steps == 0 then Some([])
                        else if graph == [] then None
                        else Some(Steps(Policy(weights, 1), map[], graph, labels, steps))
    ensures steps > 0 && graph != [] && Distinct(graph) && PositiveWeights(weights) ==>
              |observed.value| == steps
              && (observed.value[0] == StrictPriorityOrder(graph, labels) <==> ConfiguredCover(weights, graph, labels))
  {
    hide Steps, StrictPriorityOrder, ConfiguredCover, Distinct, PositiveWeights;
    observed := EmitSteps(graph, labels, weights, steps);
    if steps > 0 && graph != [] {
      StepsLength(Policy(weights, 1), map[], graph, labels, steps);
      StrictIfConfigured(weights, graph, labels, steps);
    }
  }

  lemma {:induction false} StrictIfConfigured(weights: map<int, int>, graph: seq<Name>, labels: map<Name, int>,
                                              steps: nat)
    requires graph != [] && Covers(graph, labels) && steps > 0
    ensures |Steps(Policy(weights, 1), map[], graph, labels, steps)| > 0
    ensures Distinct(graph) && PositiveWeights(weights) ==>
              (Steps(Policy(weights, 1), map[], graph, labels, steps)[0] == StrictPriorityOrder(graph, labels)
               <==> ConfiguredCover(weights, graph, labels))
  {
    hide Step, StrictPriorityOrder, ConfiguredCover, Distinct, PositiveWeights;
    if Distinct(graph) && PositiveWeights(weights) {
      StrictExactlyWhenConfigured(weights, graph, labels, steps);
    }
  }

  lemma {:induction false} StepsLength(p: Policy, c: Credits, graph: seq<Name>, labels: map<Name, int>, n: nat)
    requires graph != [] && Covers(graph, labels)
    ensures |Steps(p, c, graph, labels, n)| == n
    decreases n
  {
    hide Step;
    if n > 0 {
      StepsLength(p, Step(p, c, graph, labels).credits, graph, labels, n - 1);
    }
  }

  /** Lists consumed and appended in loops, one policy object across all steps. */
  method EmitSteps(graph: seq<Name>, labels: map<Name, int>, weights: map<int, int>, steps: nat)
    returns (observed: Option<seq<seq<Name>>>)
    requires Covers(graph, labels)
    ensures observed == if steps == 0 then Some([])
                        else if graph == [] then None
                        else Some(Steps(Policy(weights, 1), map[], graph, labels, steps))
  {
    hide Step, Grant, Winner, Pick;
    var baseline := Baseline(graph);
    var policy := new ReferenceWeightedRoundRobin(weights, 1);
    var orders: seq<seq<Name>> := [];
    for i := 0 to steps
      invariant fresh(policy) && policy.policy == Policy(weights, 1)
      invariant i > 0 ==> graph != []
      invariant graph != [] ==>
                  Steps(policy.policy, map[], graph, labels, steps)
                  == orders + Steps(policy.policy, policy.remaining, graph, labels, steps - i)
      invariant graph == [] ==> orders == []
    {
      if graph == [] {
        var seam := policy.Select(graph, labels, baseline);
        return None;
      }
      var order := RunStep(policy, graph, labels, baseline);
      orders := orders + [order];
    }
    assert orders + [] == orders;
    observed := Some(orders);
  }

  /** One turn of the outer loop: the ready-seam grant, then the inner loop. */
  method RunStep(policy: ReferenceWeightedRoundRobin, graph: seq<Name>, labels: map<Name, int>,
                 baseline: map<Name, nat>)
    returns (order: seq<Name>)
    requires graph != [] && Covers(graph, labels) && baseline == Baseline(graph)
    modifies policy
    ensures order == Step(policy.policy, old(policy.remaining), graph, labels).order
    ensures policy.remaining == Step(policy.policy, old(policy.remaining), graph, labels).credits
  {
    hide Grant, Winner, Baseline, Drain, Remove;
    var seam := policy.Select(graph, labels, baseline);
    var left := graph;
    order := [];
    while left != []
      invariant Covers(left, labels) && Covers(left, baseline)
      invariant Drain(policy.policy, policy.remaining, left, labels, baseline).credits
             == Step(policy.policy, old(policy.remaining), graph, labels).credits
      invariant order + Drain(policy.policy, policy.remaining, left, labels, baseline).order
             == Step(policy.policy, old(policy.remaining), graph, labels).order
      decreases |left|
    {
      DrainOnce(policy.policy, policy.remaining, left, labels, baseline);
      ghost var g := Granted(policy.policy, policy.remaining, left, labels, baseline);
      var granted := policy.Select(left, labels, baseline);
      assert granted.value == g;
      left := Remove(left, granted.value);
      order := order + [granted.value];
    }
    DrainNothing(policy.policy, policy.remaining, labels, baseline);
  }

  // ----- Every order is a permutation -----

  lemma {:induction false} DrainPermutes(p: Policy, c: Credits, left: seq<Name>, labels: map<Name, int>,
                                         baseline: map<Name, nat>)
    requires Covers(left, labels) && Covers(left, baseline)
    ensures multiset(Drain(p, c, left, labels, baseline).order) == multiset(left)
    decreases |left|
  {
    if left != [] {
      var g := Granted(p, c, left, labels, baseline);
      DrainPermutes(p, Grant(p, c, Present(left, labels)), Remove(left, g), labels, baseline);
    }
  }

  /** Every order of every step is a permutation of the graph, whatever the weights. */
  lemma {:induction false} StepsArePermutations(p: Policy, c: Credits, graph: seq<Name>, labels: map<Name, int>,
                                                n: nat)
    requires graph != [] && Covers(graph, labels)
    ensures |Steps(p, c, graph, labels, n)| == n
    ensures forall i :: 0 <= i < n ==> multiset(Steps(p, c, graph, labels, n)[i]) == multiset(graph)
    decreases n
  {
    hide Step;
    if n > 0 {
      var s := Step(p, c, graph, labels);
      StepPermutes(p, c, graph, labels);
      StepsArePermutations(p, s.credits, graph, labels, n - 1);
    }
  }

  lemma {:induction false} StepPermutes(p: Policy, c: Credits, graph: seq<Name>, labels: map<Name, int>)
    requires graph != [] && Covers(graph, labels)
    ensures multiset(Step(p, c, graph, labels).order) == multiset(graph)
  {
    hide Grant, Drain;
    assert labels[graph[0]] in Present(graph, labels);
    DrainPermutes(p, Grant(p, c, Present(graph, labels)), graph, labels, Baseline(graph));
  }

  // ----- When the weighted order is the strict-priority order -----

  ghost function Count(names: seq<Name>, labels: map<Name, int>, l: int): nat
    requires Covers(names, labels)
  {
    if names == [] then 0
    else (if labels[names[0]] == l then 1 else 0) + Count(names[1..], labels, l)
  }

  lemma {:induction false} CountAfterRemove(names: seq<Name>, labels: map<Name, int>, x: Name, l: int)
    requires Covers(names, labels) && x in names
    ensures Count(Remove(names, x), labels, l) == Count(names, labels, l) - (if labels[x] == l then 1 else 0)
  {
    assert names == [names[0]] + names[1..];
    if names[0] != x {
      CountAfterRemove(names[1..], labels, x, l);
    }
  }

  lemma {:induction false} CountIsPresence(names: seq<Name>, labels: map<Name, int>, l: int)
    requires Covers(names, labels)
    ensures l in Present(names, labels) <==> Count(names, labels, l) > 0
  {
    if names != [] {
      assert names == [names[0]] + names[1..];
      CountIsPresence(names[1..], labels, l);
      assert Present(names, labels) == {labels[names[0]]} + Present(names[1..], labels);
    }
  }

  /** Removing one operation keeps every other class and only ever drops the class of that operation. */
  lemma {:induction false} PresentAfterRemove(names: seq<Name>, labels: map<Name, int>, x: Name)
    requires Covers(names, labels) && x in names
    ensures Present(Remove(names, x), labels) <= Present(names, labels)
    ensures forall l :: l in Present(names, labels) && l != labels[x] ==> l in Present(Remove(names, x), labels)
    ensures forall l :: Count(Remove(names, x), labels, l)
                        == Count(names, labels, l) - (if labels[x] == l then 1 else 0)
    ensures forall l :: l in Present(names, labels) <==> Count(names, labels, l) > 0
    ensures forall l :: l in Present(Remove(names, x), labels) <==> Count(Remove(names, x), labels, l) > 0
  {
    forall l: int
      ensures Count(Remove(names, x), labels, l) == Count(names, labels, l) - (if labels[x] == l then 1 else 0)
      ensures l in Present(names, labels) <==> Count(names, labels, l) > 0
      ensures l in Present(Remove(names, x), labels) <==> Count(Remove(names, x), labels, l) > 0
    {
      CountAfterRemove(names, labels, x, l);
      CountIsPresence(names, labels, l);
      CountIsPresence(Remove(names, x), labels, l);
    }
  }

  /** Every class but the highest has enough credit for all its operations in `left`. */
  ghost predicate Covered(p: Policy, c: Credits, left: seq<Name>, labels: map<Name, int>)
    requires Covers(left, labels)
  {
    var present := Present(left, labels);
    present == {} || forall l :: l in present && l != Max(present) ==> Credit(p, c, l) >= Count(left, labels, l)
  }

  /** With enough credit the lowest class wins and pays for its own grant only. */
  lemma {:induction false} LowestWins(p: Policy, c: Credits, left: seq<Name>, labels: map<Name, int>)
    requires left != [] && Covers(left, labels) && Covered(p, c, left, labels)
    ensures var present := Present(left, labels);
            && present != {} && Winner(p, c, present) == Min(present)
            && forall l :: l != Max(present) ==>
                 Credit(p, Grant(p, c, present), l) == Credit(p, c, l) - (if l == Min(present) then 1 else 0)
  {
    var present := Present(left, labels);
    assert labels[left[0]] in present;
    var m := Min(present);
    CountIsPresence(left, labels, m);
    WinnerHasCredit(p, c, present);
    if m != Max(present) {
      assert Credit(p, c, m) > 0;
      assert m in Eligible(p, c, present);
    } else {
      assert forall l :: l in present ==> l == m;
    }
    forall l | l != Max(present)
      ensures Credit(p, Grant(p, c, present), l) == Credit(p, c, l) - (if l == m then 1 else 0)
    {
      CreditAfterGrant(p, c, present, l);
    }
  }

  lemma {:induction false} CoveredAfterGrant(p: Policy, c: Credits, left: seq<Name>, labels: map<Name, int>, g: Name)
    requires left != [] && Covers(left, labels) && Covered(p, c, left, labels)
    requires g in left && Present(left, labels) != {} && labels[g] == Min(Present(left, labels))
    ensures Covered(p, Grant(p, c, Present(left, labels)), Remove(left, g), labels)
  {
    var present := Present(left, labels);
    var rest := Present(Remove(left, g), labels);
    LowestWins(p, c, left, labels);
    PresentAfterRemove(left, labels, g);
    if rest != {} {
      forall l | l in rest && l != Max(rest)
        ensures Credit(p, Grant(p, c, present), l) >= Count(Remove(left, g), labels, l)
      {
        assert l in present && Max(rest) in present && l < Max(rest) <= Max(present);
      }
    }
  }

  lemma {:induction false} CoveredDrainsStrictly(p: Policy, c: Credits, left: seq<Name>, labels: map<Name, int>,
                                                 baseline: map<Name, nat>)
    requires Covers(left, labels) && Covers(left, baseline) && Covered(p, c, left, labels)
    ensures IsStrictPriority(Drain(p, c, left, labels, baseline).order, labels, baseline)
    decreases |left|
  {
    hide Drain, Granted, Grant, Covered, Winner, KeyLe, Remove;
    if left == [] {
      DrainNothing(p, c, labels, baseline);
    } else {
      DrainOnce(p, c, left, labels, baseline);
      var g := Granted(p, c, left, labels, baseline);
      var c' := Grant(p, c, Present(left, labels));
      LowestWins(p, c, left, labels);
      CoveredAfterGrant(p, c, left, labels, g);
      CoveredDrainsStrictly(p, c', Remove(left, g), labels, baseline);
      DrainPermutes(p, c', Remove(left, g), labels, baseline);
      var rest := Drain(p, c', Remove(left, g), labels, baseline).order;
      PermutationSameElements(rest, Remove(left, g));
      LowestIsFirst(left, labels, baseline, g);
    }
  }

  lemma {:induction false} LowestIsFirst(left: seq<Name>, labels: map<Name, int>, baseline: map<Name, nat>, g: Name)
    requires Covers(left, labels) && Covers(left, baseline)
    requires g in left && Present(left, labels) != {} && labels[g] == Min(Present(left, labels))
    requires forall n :: n in left && labels[n] == labels[g] ==> baseline[g] <= baseline[n]
    ensures forall n :: n in left ==> KeyLe(labels, baseline, g, n)
  {
    assert forall n :: n in left ==> labels[n] in Present(left, labels);
  }

  /** Enough credit is also used exactly: each class but the highest pays for its own operations and nothing else. */
  lemma {:induction false} CoveredDrainPays(p: Policy, c: Credits, left: seq<Name>, labels: map<Name, int>,
                                            baseline: map<Name, nat>, l: int)
    requires Covers(left, labels) && Covers(left, baseline) && Covered(p, c, left, labels)
    requires Present(left, labels) == {} || l < Max(Present(left, labels))
    ensures Credit(p, Drain(p, c, left, labels, baseline).credits, l) == Credit(p, c, l) - Count(left, labels, l)
    decreases |left|
  {
    hide Drain, Granted, Grant, Covered, Winner, Remove, Credit;
    if left == [] {
      DrainNothing(p, c, labels, baseline);
    } else {
      DrainOnce(p, c, left, labels, baseline);
      var g := Granted(p, c, left, labels, baseline);
      LowestWins(p, c, left, labels);
      CoveredAfterGrant(p, c, left, labels, g);
      PresentAfterRemove(left, labels, g);
      var present, rest := Present(left, labels), Present(Remove(left, g), labels);
      assert Max(present) == Min(present) || Max(present) in rest;
      assert rest == {} || l < Max(rest);
      CoveredDrainPays(p, Grant(p, c, present), Remove(left, g), labels, baseline, l);
    }
  }

  /** Every class above the lowest still has credit, and the lowest is not overdrawn. */
  ghost predicate Stocked(p: Policy, c: Credits, left: seq<Name>, labels: map<Name, int>)
    requires Covers(left, labels)
  {
    var present := Present(left, labels);
    present == {} || forall l :: l in present ==> Credit(p, c, l) >= if l == Min(present) then 0 else 1
  }

  /** If the order came out strict, the first grant went to the lowest class, out of its own credit. */
  lemma {:induction false} StrictStartsLowest(p: Policy, c: Credits, left: seq<Name>, labels: map<Name, int>,
                                              baseline: map<Name, nat>)
    requires left != [] && Covers(left, labels) && Covers(left, baseline) && Stocked(p, c, left, labels)
    requires Present(left, labels) != {} && Min(Present(left, labels)) != Max(Present(left, labels))
    requires IsStrictPriority(Drain(p, c, left, labels, baseline).order, labels, baseline)
    ensures var present := Present(left, labels);
            && labels[Granted(p, c, left, labels, baseline)] == Min(present)
            && Credit(p, c, Min(present)) > 0
            && forall l :: Credit(p, Grant(p, c, present), l)
                           == Credit(p, c, l) - (if l == Min(present) then 1 else 0)
  {
    var present := Present(left, labels);
    StrictHeadIsLowest(p, c, left, labels, baseline);
    assert Max(present) in Eligible(p, c, present);
    WinnerHasCredit(p, c, present);
    forall l: int
      ensures Credit(p, Grant(p, c, present), l) == Credit(p, c, l) - (if l == Min(present) then 1 else 0)
    {
      CreditAfterGrant(p, c, present, l);
    }
  }

  lemma {:induction false} StrictHeadIsLowest(p: Policy, c: Credits, left: seq<Name>, labels: map<Name, int>,
                                              baseline: map<Name, nat>)
    requires left != [] && Covers(left, labels) && Covers(left, baseline) && Present(left, labels) != {}
    requires IsStrictPriority(Drain(p, c, left, labels, baseline).order, labels, baseline)
    ensures labels[Granted(p, c, left, labels, baseline)] == Min(Present(left, labels))
  {
    hide Drain, Granted, Winner, Grant;
    var present := Present(left, labels);
    var g := Granted(p, c, left, labels, baseline);
    var order := Drain(p, c, left, labels, baseline).order;
    DrainOnce(p, c, left, labels, baseline);
    assert order[0] == g;
    DrainPermutes(p, c, left, labels, baseline);
    PermutationSameElements(order, left);
    var n :| n in left && labels[n] == Min(present);
    var k :| 0 <= k < |order| && order[k] == n;
    assert k == 0 || KeyLe(labels, baseline, order[0], order[k]);
    assert labels[g] in present;
  }

  lemma {:induction false} StockedAfterGrant(p: Policy, c: Credits, left: seq<Name>, labels: map<Name, int>,
                                             baseline: map<Name, nat>)
    requires left != [] && Covers(left, labels) && Covers(left, baseline) && Stocked(p, c, left, labels)
    requires Present(left, labels) != {} && Min(Present(left, labels)) != Max(Present(left, labels))
    requires IsStrictPriority(Drain(p, c, left, labels, baseline).order, labels, baseline)
    ensures var g := Granted(p, c, left, labels, baseline);
            Stocked(p, Grant(p, c, Present(left, labels)), Remove(left, g), labels)
  {
    StrictStartsLowest(p, c, left, labels, baseline);
    var g := Granted(p, c, left, labels, baseline);
    PresentAfterRemove(left, labels, g);
    var present, rest := Present(left, labels), Present(Remove(left, g), labels);
    if rest != {} {
      forall l | l in rest
        ensures Credit(p, Grant(p, c, present), l) >= if l == Min(rest) then 0 else 1
      {
        assert l in present && Min(rest) in present;
        assert l == Min(present) ==> l == Min(rest);
      }
    }
  }

  lemma {:induction false} StrictDrainIsCovered(p: Policy, c: Credits, left: seq<Name>, labels: map<Name, int>,
                                                baseline: map<Name, nat>)
    requires Covers(left, labels) && Covers(left, baseline) && Stocked(p, c, left, labels)
    requires IsStrictPriority(Drain(p, c, left, labels, baseline).order, labels, baseline)
    ensures Covered(p, c, left, labels)
    decreases |left|
  {
    var present := Present(left, labels);
    if left != [] && present != {} && Min(present) != Max(present) {
      var g := Granted(p, c, left, labels, baseline);
      var c' := Grant(p, c, present);
      StrictStartsLowest(p, c, left, labels, baseline);
      StockedAfterGrant(p, c, left, labels, baseline);
      var order := Drain(p, c, left, labels, baseline).order;
      assert order[1..] == Drain(p, c', Remove(left, g), labels, baseline).order;
      StrictDrainIsCovered(p, c', Remove(left, g), labels, baseline);
      CoveredBeforeGrant(p, c, left, labels, baseline);
    }
  }

  lemma {:induction false} CoveredBeforeGrant(p: Policy, c: Credits, left: seq<Name>, labels: map<Name, int>,
                                              baseline: map<Name, nat>)
    requires left != [] && Covers(left, labels) && Covers(left, baseline) && Stocked(p, c, left, labels)
    requires Present(left, labels) != {} && Min(Present(left, labels)) != Max(Present(left, labels))
    requires IsStrictPriority(Drain(p, c, left, labels, baseline).order, labels, baseline)
    requires var g := Granted(p, c, left, labels, baseline);
             Covered(p, Grant(p, c, Present(left, labels)), Remove(left, g), labels)
    ensures Covered(p, c, left, labels)
  {
    var present := Present(left, labels);
    var g := Granted(p, c, left, labels, baseline);
    var rest := Present(Remove(left, g), labels);
    StrictStartsLowest(p, c, left, labels, baseline);
    PresentAfterRemove(left, labels, g);
    assert Max(present) in rest;
    assert Max(rest) == Max(present);
    forall l | l in present && l != Max(present)
      ensures Credit(p, c, l) >= Count(left, labels, l)
    {
      if l in rest {
        assert Credit(p, Grant(p, c, present), l) >= Count(Remove(left, g), labels, l);
      } else {
        assert l == Min(present) && Count(Remove(left, g), labels, l) == 0;
      }
    }
  }

  ghost predicate Full(p: Policy, c: Credits, graph: seq<Name>, labels: map<Name, int>)
    requires Covers(graph, labels)
  {
    forall l :: l in Present(graph, labels) ==> Credit(p, c, l) == p.Weight(l)
  }

  /** Each class but the highest can pay for its operations, the lowest also for the ready-seam grant. */
  ghost predicate WeightsCoverStep(p: Policy, graph: seq<Name>, labels: map<Name, int>)
    requires Covers(graph, labels)
  {
    var present := Present(graph, labels);
    present == {}
    || forall l :: l in present && l != Max(present) ==>
         p.Weight(l) >= Count(graph, labels, l) + if l == Min(present) then 1 else 0
  }

  /** From full credit the weighted order is the strict-priority order exactly when the weights cover the step. */
  lemma {:induction false} WeightedIsStrictExactlyWhenCovered(p: Policy, c: Credits, graph: seq<Name>,
                                                              labels: map<Name, int>)
    requires graph != [] && Covers(graph, labels) && Distinct(graph)
    requires Positive(p) && Full(p, c, graph, labels)
    ensures Step(p, c, graph, labels).order == StrictPriorityOrder(graph, labels)
            <==> WeightsCoverStep(p, graph, labels)
  {
    var present, baseline := Present(graph, labels), Baseline(graph);
    assert labels[graph[0]] in present;
    var c1 := Grant(p, c, present);
    assert forall l: int :: p.Weight(l) >= 1;
    assert Min(present) in Eligible(p, c, present);
    WinnerHasCredit(p, c, present);
    forall l | l in present
      ensures Credit(p, c1, l) == p.Weight(l) - (if l == Min(present) then 1 else 0)
    {
      CreditAfterGrant(p, c, present, l);
    }
    assert Stocked(p, c1, graph, labels);
    assert Covered(p, c1, graph, labels) <==> WeightsCoverStep(p, graph, labels);
    DrainPermutes(p, c1, graph, labels, baseline);
    StrictPriorityIsUnique(graph, labels, Step(p, c, graph, labels).order);
    if Covered(p, c1, graph, labels) {
      CoveredDrainsStrictly(p, c1, graph, labels, baseline);
    }
    if IsStrictPriority(Step(p, c, graph, labels).order, labels, baseline) {
      StrictDrainIsCovered(p, c1, graph, labels, baseline);
    }
  }

  /** The configured weights cover a step: of each class but the highest, the entry (or 1 without an entry) is at least
      the number of its operations, and one more for the lowest. */
  ghost predicate ConfiguredCover(weights: map<int, int>, graph: seq<Name>, labels: map<Name, int>)
    requires graph != [] && Covers(graph, labels)
  {
    var present := Present(graph, labels);
    assert labels[graph[0]] in present;
    forall l, w :: l in present && l != Max(present) && Configured(weights, l, w) ==>
                     w >= Count(graph, labels, l) + if l == Min(present) then 1 else 0
  }

  /** The first order a new policy emits is the strict one exactly when the configured weights cover the step. */
  lemma {:induction false} StrictExactlyWhenConfigured(weights: map<int, int>, graph: seq<Name>, labels: map<Name, int>,
                                                       steps: nat)
    requires graph != [] && Covers(graph, labels) && Distinct(graph) && PositiveWeights(weights) && steps > 0
    ensures |Steps(Policy(weights, 1), map[], graph, labels, steps)| > 0
    ensures Steps(Policy(weights, 1), map[], graph, labels, steps)[0] == StrictPriorityOrder(graph, labels)
            <==> ConfiguredCover(weights, graph, labels)
  {
    hide Step, StrictPriorityOrder, Count, Configured, Positive;
    var p, present := Policy(weights, 1), Present(graph, labels);
    assert labels[graph[0]] in present;
    PositiveIsConfigured(weights);
    WeightedIsStrictExactlyWhenCovered(p, map[], graph, labels);
    forall l, w | Configured(weights, l, w)
      ensures w == p.Weight(l)
    {
      WeightIsConfigured(weights, l, w);
    }
    forall l | l in present
      ensures Configured(weights, l, p.Weight(l))
    {
      WeightIsConfigured(weights, l, p.Weight(l));
    }
  }

  /** What one step costs class `l`: its operations, and the ready-seam grant if it is the lowest. */
  ghost function Cost(graph: seq<Name>, labels: map<Name, int>, l: int): nat
    requires Covers(graph, labels) && Present(graph, labels) != {}
  {
    Count(graph, labels, l) + if l == Min(Present(graph, labels)) then 1 else 0
  }

  /** Every class but the highest can pay for `n` steps. */
  ghost predicate CreditForSteps(p: Policy, c: Credits, graph: seq<Name>, labels: map<Name, int>, n: nat)
    requires Covers(graph, labels) && Present(graph, labels) != {}
  {
    forall l :: l in Present(graph, labels) && l != Max(Present(graph, labels)) ==>
                  Credit(p, c, l) >= n * Cost(graph, labels, l)
  }

  /** Credit for `n` steps keeps every one of them in strict priority. */
  lemma {:induction false} AllStepsStrict(p: Policy, c: Credits, graph: seq<Name>, labels: map<Name, int>, n: nat)
    requires graph != [] && Covers(graph, labels) && Distinct(graph) && Present(graph, labels) != {}
    requires CreditForSteps(p, c, graph, labels, n)
    ensures |Steps(p, c, graph, labels, n)| == n
    ensures forall i :: 0 <= i < n ==> Steps(p, c, graph, labels, n)[i] == StrictPriorityOrder(graph, labels)
    decreases n
  {
    hide Step, CreditForSteps, StrictPriorityOrder;
    if n > 0 {
      OneStepStrict(p, c, graph, labels, n);
      AllStepsStrict(p, Step(p, c, graph, labels).credits, graph, labels, n - 1);
    }
  }

  lemma {:induction false} OneStepStrict(p: Policy, c: Credits, graph: seq<Name>, labels: map<Name, int>, n: nat)
    requires graph != [] && Covers(graph, labels) && Distinct(graph) && Present(graph, labels) != {}
    requires n > 0 && CreditForSteps(p, c, graph, labels, n)
    ensures Step(p, c, graph, labels).order == StrictPriorityOrder(graph, labels)
    ensures CreditForSteps(p, Step(p, c, graph, labels).credits, graph, labels, n - 1)
  {
    hide Drain, Grant, Credit, Count, StrictPriorityOrder, IsStrictPriority, Cost, Covered;
    var present, baseline := Present(graph, labels), Baseline(graph);
    var c1 := Grant(p, c, present);
    SeamPays(p, c, graph, labels, n);
    CoveredDrainsStrictly(p, c1, graph, labels, baseline);
    DrainPermutes(p, c1, graph, labels, baseline);
    StrictPriorityIsUnique(graph, labels, Step(p, c, graph, labels).order);
    forall l | l in present && l != Max(present)
      ensures Credit(p, Step(p, c, graph, labels).credits, l) >= (n - 1) * Cost(graph, labels, l)
    {
      CoveredDrainPays(p, c1, graph, labels, baseline, l);
    }
  }

  lemma {:induction false} SeamPays(p: Policy, c: Credits, graph: seq<Name>, labels: map<Name, int>, n: nat)
    requires graph != [] && Covers(graph, labels) && Present(graph, labels) != {}
    requires n > 0 && CreditForSteps(p, c, graph, labels, n)
    ensures var c1 := Grant(p, c, Present(graph, labels));
            && Covered(p, c1, graph, labels)
            && forall l :: l in Present(graph, labels) && l != Max(Present(graph, labels)) ==>
                 Credit(p, c1, l) >= Count(graph, labels, l) + (n - 1) * Cost(graph, labels, l)
  {
    hide Grant, Credit, Count;
    var present := Present(graph, labels);
    forall l | l in present && l != Max(present)
      ensures Credit(p, c, l) >= Cost(graph, labels, l) + (n - 1) * Cost(graph, labels, l)
      ensures (n - 1) * Cost(graph, labels, l) >= 0
    {
      var k := Cost(graph, labels, l);
      assert n * k == k + (n - 1) * k;
    }
    assert Covered(p, c, graph, labels);
    LowestWins(p, c, graph, labels);
  }

  // ----- Credit for all steps is not necessary -----

  /** Each class has exactly as many credits as operations. */
  ghost predicate Exact(p: Policy, c: Credits, left: seq<Name>, labels: map<Name, int>)
    requires Covers(left, labels)
  {
    forall l :: l in Present(left, labels) ==> Credit(p, c, l) == Count(left, labels, l)
  }

  lemma {:induction false} ExactIsCovered(p: Policy, c: Credits, left: seq<Name>, labels: map<Name, int>)
    requires left != [] && Covers(left, labels) && Exact(p, c, left, labels)
    ensures Covered(p, c, left, labels) && Present(left, labels) != {}
    ensures Eligible(p, c, Present(left, labels)) != {}
  {
    var l := labels[left[0]];
    assert l in Present(left, labels);
    CountIsPresence(left, labels, l);
    assert l in Eligible(p, c, Present(left, labels));
  }

  lemma {:induction false} ExactAfterGrant(p: Policy, c: Credits, left: seq<Name>, labels: map<Name, int>,
                                           baseline: map<Name, nat>)
    requires left != [] && Covers(left, labels) && Covers(left, baseline) && Exact(p, c, left, labels)
    ensures Present(left, labels) != {}
    ensures var g := Granted(p, c, left, labels, baseline);
            var c' := Grant(p, c, Present(left, labels));
            && Exact(p, c', Remove(left, g), labels)
            && forall l: int :: Credit(p, c', l) == Credit(p, c, l) - (if l == labels[g] then 1 else 0)
  {
    ExactIsCovered(p, c, left, labels);
    var present, g := Present(left, labels), Granted(p, c, left, labels, baseline);
    WinnerHasCredit(p, c, present);
    forall l: int
      ensures Credit(p, Grant(p, c, present), l) == Credit(p, c, l) - (if l == labels[g] then 1 else 0)
    {
      CreditAfterGrant(p, c, present, l);
    }
    LowestWins(p, c, left, labels);
    PresentAfterRemove(left, labels, g);
  }

  /** Exact credit is spent to the last. */
  lemma {:induction false} ExactDrainPays(p: Policy, c: Credits, left: seq<Name>, labels: map<Name, int>,
                                          baseline: map<Name, nat>, l: int)
    requires Covers(left, labels) && Covers(left, baseline) && Exact(p, c, left, labels)
    ensures Credit(p, Drain(p, c, left, labels, baseline).credits, l) == Credit(p, c, l) - Count(left, labels, l)
    decreases |left|
  {
    hide Drain, Granted, Grant, Exact, Winner, Remove, Credit;
    if left == [] {
      DrainNothing(p, c, labels, baseline);
    } else {
      DrainOnce(p, c, left, labels, baseline);
      var g := Granted(p, c, left, labels, baseline);
      ExactAfterGrant(p, c, left, labels, baseline);
      LowestWinsExact(p, c, left, labels);
      PresentAfterRemove(left, labels, g);
      ExactDrainPays(p, Grant(p, c, Present(left, labels)), Remove(left, g), labels, baseline, l);
    }
  }

  lemma {:induction false} LowestWinsExact(p: Policy, c: Credits, left: seq<Name>, labels: map<Name, int>)
    requires left != [] && Covers(left, labels) && Exact(p, c, left, labels)
    ensures Present(left, labels) != {} && Winner(p, c, Present(left, labels)) == Min(Present(left, labels))
  {
    ExactIsCovered(p, c, left, labels);
    LowestWins(p, c, left, labels);
  }

  /** No class has credit left. */
  ghost predicate Spent(p: Policy, c: Credits, graph: seq<Name>, labels: map<Name, int>)
    requires Covers(graph, labels)
  {
    forall l :: l in Present(graph, labels) ==> Credit(p, c, l) == 0
  }

  /** The weight of every class is what one step costs it. */
  ghost predicate Balanced(p: Policy, graph: seq<Name>, labels: map<Name, int>)
    requires Covers(graph, labels) && Present(graph, labels) != {}
  {
    forall l :: l in Present(graph, labels) ==> p.Weight(l) == Cost(graph, labels, l)
  }

  lemma {:induction false} BalancedSeam(p: Policy, c: Credits, graph: seq<Name>, labels: map<Name, int>)
    requires graph != [] && Covers(graph, labels) && Present(graph, labels) != {} && Balanced(p, graph, labels)
    requires Full(p, c, graph, labels) || Spent(p, c, graph, labels)
    ensures Exact(p, Grant(p, c, Present(graph, labels)), graph, labels)
  {
    var present := Present(graph, labels);
    WinnerHasCredit(p, c, present);
    forall l | l in present
      ensures Credit(p, Grant(p, c, present), l) == Count(graph, labels, l)
      ensures Count(graph, labels, l) >= 1
    {
      CountIsPresence(graph, labels, l);
      CountIsPresence(graph, labels, Min(present));
      if Full(p, c, graph, labels) {
        assert Min(present) in Eligible(p, c, present);
      }
      CreditAfterGrant(p, c, present, l);
    }
  }

  /** With balanced weights every step ends in a joint refill, so every number of steps stays in strict priority,
      although the credit for two steps is never there: CreditForSteps is sufficient only. */
  lemma {:induction false} BalancedStaysStrict(p: Policy, c: Credits, graph: seq<Name>, labels: map<Name, int>, n: nat)
    requires graph != [] && Covers(graph, labels) && Distinct(graph) && Present(graph, labels) != {}
    requires Balanced(p, graph, labels) && (Full(p, c, graph, labels) || Spent(p, c, graph, labels))
    ensures |Steps(p, c, graph, labels, n)| == n
    ensures forall i :: 0 <= i < n ==> Steps(p, c, graph, labels, n)[i] == StrictPriorityOrder(graph, labels)
    ensures n >= 2 && Min(Present(graph, labels)) != Max(Present(graph, labels)) ==>
              !CreditForSteps(p, c, graph, labels, n)
    decreases n
  {
    hide Step, StrictPriorityOrder, CreditForSteps, Balanced, Full, Spent;
    NoCreditForTwo(p, c, graph, labels, n);
    if n > 0 {
      BalancedStep(p, c, graph, labels);
      BalancedStaysStrict(p, Step(p, c, graph, labels).credits, graph, labels, n - 1);
    }
  }

  lemma {:induction false} BalancedStep(p: Policy, c: Credits, graph: seq<Name>, labels: map<Name, int>)
    requires graph != [] && Covers(graph, labels) && Distinct(graph) && Present(graph, labels) != {}
    requires Balanced(p, graph, labels) && (Full(p, c, graph, labels) || Spent(p, c, graph, labels))
    ensures Step(p, c, graph, labels).order == StrictPriorityOrder(graph, labels)
    ensures Spent(p, Step(p, c, graph, labels).credits, graph, labels)
  {
    hide Drain, Grant, Credit, Count, StrictPriorityOrder, IsStrictPriority, Covered, Balanced, Full;
    var present, baseline := Present(graph, labels), Baseline(graph);
    var c1 := Grant(p, c, present);
    BalancedSeam(p, c, graph, labels);
    ExactIsCovered(p, c1, graph, labels);
    CoveredDrainsStrictly(p, c1, graph, labels, baseline);
    DrainPermutes(p, c1, graph, labels, baseline);
    StrictPriorityIsUnique(graph, labels, Step(p, c, graph, labels).order);
    forall l | l in present
      ensures Credit(p, Step(p, c, graph, labels).credits, l) == 0
    {
      ExactDrainPays(p, c1, graph, labels, baseline, l);
    }
  }

  lemma {:induction false} NoCreditForTwo(p: Policy, c: Credits, graph: seq<Name>, labels: map<Name, int>, n: nat)
    requires graph != [] && Covers(graph, labels) && Present(graph, labels) != {}
    requires Balanced(p, graph, labels) && (Full(p, c, graph, labels) || Spent(p, c, graph, labels))
    ensures n >= 2 && Min(Present(graph, labels)) != Max(Present(graph, labels)) ==>
              !CreditForSteps(p, c, graph, labels, n)
  {
    if n >= 2 {
      var l := Min(Present(graph, labels));
      var k := Cost(graph, labels, l);
      assert k >= 1 && n * k == k + (n - 1) * k;
      assert (n - 1) * k >= 1;
    }
  }
}
