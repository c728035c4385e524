/** The credit machine inside the reference weighted round robin, seen through class labels only: which class wins a
    grant and what happens to the credits.  The theorems range over arbitrary runs, where each grant may be offered a
    different set of classes. */
module CreditMachine {

  datatype Policy = Policy(weights: map<int, int>, defaultWeight: int) {
    function Weight(cls: int): int {
      if cls in weights then weights[cls] else defaultWeight
    }
  }

  /** The credits stored so far; a class that was never granted or refilled has no entry. */
  type Credits = map<int, int>

  function Credit(p: Policy, c: Credits, cls: int): int {
    if cls in c then c[cls] else p.Weight(cls)
  }

  lemma {:induction false} NonEmpty(s: set<int>)
    requires s != {}
    ensures exists x :: x in s
  {
    assert (forall x :: x !in s) ==> s == {};
  }

  ghost function Min(s: set<int>): (m: int)
    requires s != {}
    ensures m in s && forall x :: x in s ==> m <= x
  {
    assert exists x :: x in s by { NonEmpty(s); }
    var x :| x in s;
    if s == {x} then x
    else
      var rest := s - {x};
      assert rest == {} ==> s == {x};
      var m := Min(rest);
      assert forall y :: y in s ==> y == x || y in rest;
      if x < m then x else m
  }

  ghost function Max(s: set<int>): (m: int)
    requires s != {}
    ensures m in s && forall x :: x in s ==> x <= m
  {
    assert exists x :: x in s by { NonEmpty(s); }
    var x :| x in s;
    if s == {x} then x
    else
      var rest := s - {x};
      assert rest == {} ==> s == {x};
      var m := Max(rest);
      assert forall y :: y in s ==> y == x || y in rest;
      if x > m then x else m
  }

  ghost function Eligible(p: Policy, c: Credits, present: set<int>): set<int> {
    set l | l in present && Credit(p, c, l) > 0
  }

  /** Credits after the refill check: every present class is refilled when none of them has credit. */
  ghost function Refilled(p: Policy, c: Credits, present: set<int>): Credits {
    if Eligible(p, c, present) == {} then c + map l | l in present :: p.Weight(l) else c
  }

  ghost function Winner(p: Policy, c: Credits, present: set<int>): int
    requires present != {}
  {
    var eligible := Eligible(p, c, present);
    if eligible == {} then Min(present) else Min(eligible)
  }

  /** Credits after one grant. */
  ghost function Grant(p: Policy, c: Credits, present: set<int>): Credits
    requires present != {}
  {
    var c' := Refilled(p, c, present);
    var w := Winner(p, c, present);
    c'[w := Credit(p, c', w) - 1]
  }

  // ----- Runs -----

  ghost predicate Offers(offers: seq<set<int>>) {
    forall i :: 0 <= i < |offers| ==> offers[i] != {}
  }

  ghost function Run(p: Policy, c: Credits, offers: seq<set<int>>): Credits
    requires Offers(offers)
    decreases |offers|
  {
    if offers == [] then c else Run(p, Grant(p, c, offers[0]), offers[1..])
  }

  ghost function Grants(p: Policy, c: Credits, offers: seq<set<int>>, cls: int): nat
    requires Offers(offers)
    decreases |offers|
  {
    if offers == [] then 0
    else (if Winner(p, c, offers[0]) == cls then 1 else 0)
         + Grants(p, Grant(p, c, offers[0]), offers[1..], cls)
  }

  /** How often the run refilled `cls`. */
  ghost function Refills(p: Policy, c: Credits, offers: seq<set<int>>, cls: int): nat
    requires Offers(offers)
    decreases |offers|
  {
    if offers == [] then 0
    else (if cls in offers[0] && Eligible(p, c, offers[0]) == {} then 1 else 0)
         + Refills(p, Grant(p, c, offers[0]), offers[1..], cls)
  }

  ghost predicate Positive(p: Policy) { forall l: int :: p.Weight(l) >= 1 }

  ghost predicate InRange(p: Policy, c: Credits) {
    forall l: int :: 0 <= Credit(p, c, l) <= p.Weight(l)
  }

  // ----- One grant -----

  /** What a grant does to each credit. */
  lemma {:induction false} CreditAfterGrant(p: Policy, c: Credits, present: set<int>, cls: int)
    requires present != {}
    ensures var refill := cls in present && Eligible(p, c, present) == {};
            Credit(p, Grant(p, c, present), cls)
            == (if refill then p.Weight(cls) else Credit(p, c, cls))
               - (if Winner(p, c, present) == cls then 1 else 0)
  {
  }

  lemma {:induction false} WinnerHasCredit(p: Policy, c: Credits, present: set<int>)
    requires present != {}
    ensures Winner(p, c, present) in present
    ensures Eligible(p, c, present) != {} ==>
              Credit(p, c, Winner(p, c, present)) > 0
              && forall l :: l in present && Credit(p, c, l) > 0 ==> Winner(p, c, present) <= l
    ensures Eligible(p, c, present) == {} ==>
              forall l :: l in present ==> Winner(p, c, present) <= l && Credit(p, c, l) <= 0
  {
    var eligible := Eligible(p, c, present);
    if eligible != {} {
      assert Winner(p, c, present) in eligible;
      assert forall l :: l in present && Credit(p, c, l) > 0 ==> l in eligible;
    } else {
      forall l | l in present
        ensures Credit(p, c, l) <= 0
      {
        assert l !in eligible;
      }
    }
  }

  lemma {:induction false} GrantKeepsRange(p: Policy, c: Credits, present: set<int>)
    requires Positive(p) && InRange(p, c) && present != {}
    ensures InRange(p, Grant(p, c, present))
  {
    WinnerHasCredit(p, c, present);
    forall l: int
      ensures 0 <= Credit(p, Grant(p, c, present), l) <= p.Weight(l)
    {
      CreditAfterGrant(p, c, present, l);
      assert p.Weight(l) >= 1 && 0 <= Credit(p, c, l) <= p.Weight(l);
    }
  }

  lemma {:induction false} RunKeepsRange(p: Policy, c: Credits, offers: seq<set<int>>)
    requires Positive(p) && InRange(p, c) && Offers(offers)
    ensures InRange(p, Run(p, c, offers))
    decreases |offers|
  {
    if offers != [] {
      GrantKeepsRange(p, c, offers[0]);
      RunKeepsRange(p, Grant(p, c, offers[0]), offers[1..]);
    }
  }

  lemma {:induction false} FreshInRange(p: Policy)
    requires Positive(p)
    ensures InRange(p, map[])
  {
    forall l: int
      ensures 0 <= Credit(p, map[], l) <= p.Weight(l)
    {
      assert p.Weight(l) >= 1;
    }
  }

  /** Credits stay between zero and the weight in every run exactly when every weight is at least one. */
  lemma {:induction false} RangeIffWeightsPositive(p: Policy)
    ensures (forall offers :: Offers(offers) ==> InRange(p, Run(p, map[], offers))) <==> Positive(p)
  {
    if Positive(p) {
      FreshInRange(p);
      forall offers | Offers(offers)
        ensures InRange(p, Run(p, map[], offers))
      {
        RunKeepsRange(p, map[], offers);
      }
    } else {
      var l: int :| p.Weight(l) < 1;
      var offers := [{l}];
      assert Offers(offers);
      CreditAfterGrant(p, map[], {l}, l);
      WinnerHasCredit(p, map[], {l});
      assert Run(p, map[], offers) == Grant(p, map[], {l}) by {
        assert offers[1..] == [];
      }
      assert Credit(p, Run(p, map[], offers), l) < 0;
    }
  }

  // ----- Conservation and fairness -----

  /** A refill finds every present class at exactly zero, so nothing is discarded and the books balance: what a class
      was granted is what it had, plus its weight per refill, minus what it has left. */
  lemma {:induction false} Conservation(p: Policy, c: Credits, offers: seq<set<int>>, cls: int)
    requires Positive(p) && InRange(p, c) && Offers(offers)
    ensures Grants(p, c, offers, cls)
         == Credit(p, c, cls) + p.Weight(cls) * Refills(p, c, offers, cls)
            - Credit(p, Run(p, c, offers), cls)
    decreases |offers|
  {
    hide InRange, Positive, Credit, Grant, Winner, Eligible;
    if offers != [] {
      var next := Grant(p, c, offers[0]);
      GrantKeepsRange(p, c, offers[0]);
      Conservation(p, next, offers[1..], cls);
      var refilled := if cls in offers[0] && Eligible(p, c, offers[0]) == {} then 1 else 0;
      var granted := if Winner(p, c, offers[0]) == cls then 1 else 0;
      BooksBalance(p, c, offers[0], cls);
      var w, r := p.Weight(cls), Refills(p, next, offers[1..], cls);
      assert w * (refilled + r) == w * refilled + w * r;
    }
  }

  lemma {:induction false} BooksBalance(p: Policy, c: Credits, present: set<int>, cls: int)
    requires InRange(p, c) && present != {}
    ensures var refilled := if cls in present && Eligible(p, c, present) == {} then 1 else 0;
            var granted := if Winner(p, c, present) == cls then 1 else 0;
            Credit(p, Grant(p, c, present), cls) == Credit(p, c, cls) + p.Weight(cls) * refilled - granted
  {
    CreditAfterGrant(p, c, present, cls);
    WinnerHasCredit(p, c, present);
    assert 0 <= Credit(p, c, cls);
  }

  /** From a new policy: grants of a class equal weight times one plus its refills, minus what is left. */
  lemma {:induction false} ConservationFromFresh(p: Policy, offers: seq<set<int>>, cls: int)
    requires Positive(p) && Offers(offers)
    ensures Grants(p, map[], offers, cls)
         == p.Weight(cls) * (1 + Refills(p, map[], offers, cls)) - Credit(p, Run(p, map[], offers), cls)
  {
    hide InRange, Positive, Grants, Refills, Run;
    FreshInRange(p);
    Conservation(p, map[], offers, cls);
    var w, r := p.Weight(cls), Refills(p, map[], offers, cls);
    assert w * (1 + r) == w + w * r;
  }

  ghost predicate AlwaysPresent(offers: seq<set<int>>, cls: int) {
    forall i :: 0 <= i < |offers| ==> cls in offers[i]
  }

  lemma {:induction false} SameRefills(p: Policy, c: Credits, offers: seq<set<int>>, a: int, b: int)
    requires Offers(offers) && AlwaysPresent(offers, a) && AlwaysPresent(offers, b)
    ensures Refills(p, c, offers, a) == Refills(p, c, offers, b)
    decreases |offers|
  {
    if offers != [] {
      SameRefills(p, Grant(p, c, offers[0]), offers[1..], a, b);
    }
  }

  /** While both are offered, the higher class spends only when the lower one is out of credit. */
  ghost predicate LowerFirst(p: Policy, c: Credits, a: int, b: int) {
    Credit(p, c, b) == p.Weight(b) || Credit(p, c, a) == 0
  }

  lemma {:induction false} GrantLowerFirst(p: Policy, c: Credits, present: set<int>, a: int, b: int)
    requires InRange(p, c) && a in present && b in present && a < b
    ensures LowerFirst(p, c, a, b) || Eligible(p, c, present) == {} ==> LowerFirst(p, Grant(p, c, present), a, b)
  {
    assert 0 <= Credit(p, c, a);
    WinnerHasCredit(p, c, present);
    CreditAfterGrant(p, c, present, a);
    CreditAfterGrant(p, c, present, b);
  }

  /** Once both classes have been refilled together, the lower one stays ahead. */
  lemma {:induction false} LowerFirstAfterRefill(p: Policy, c: Credits, offers: seq<set<int>>, a: int, b: int)
    requires Positive(p) && InRange(p, c) && Offers(offers) && a < b
    requires AlwaysPresent(offers, a) && AlwaysPresent(offers, b)
    ensures LowerFirst(p, c, a, b) || Refills(p, c, offers, a) > 0 ==> LowerFirst(p, Run(p, c, offers), a, b)
    decreases |offers|
  {
    hide InRange, Positive, Grant, Eligible, LowerFirst;
    if offers != [] {
      GrantKeepsRange(p, c, offers[0]);
      GrantLowerFirst(p, c, offers[0], a, b);
      LowerFirstAfterRefill(p, Grant(p, c, offers[0]), offers[1..], a, b);
    }
  }

  /** Proportional fairness over any window of a run, whatever the other classes do: the lower class is at most two
      weight products ahead of its share, the higher class at most one. */
  lemma {:induction false} Fairness(p: Policy, c: Credits, window: seq<set<int>>, a: int, b: int)
    requires Positive(p) && InRange(p, c) && Offers(window) && a < b
    requires AlwaysPresent(window, a) && AlwaysPresent(window, b)
    ensures var ga, gb := Grants(p, c, window, a), Grants(p, c, window, b);
            var wa, wb := p.Weight(a), p.Weight(b);
            -wa * wb <= ga * wb - gb * wa <= 2 * wa * wb
  {
    hide Grants, Refills, Run, Credit;
    Conservation(p, c, window, a);
    Conservation(p, c, window, b);
    SameRefills(p, c, window, a, b);
    LowerFirstAfterRefill(p, c, window, a, b);
    RunKeepsRange(p, c, window);
    var end := Run(p, c, window);
    assert p.Weight(a) >= 1 && p.Weight(b) >= 1;
    var da := Credit(p, c, a) - Credit(p, end, a);
    var db := Credit(p, c, b) - Credit(p, end, b);
    if Refills(p, c, window, a) == 0 {
      assert p.Weight(a) * Refills(p, c, window, a) == 0;
      assert da >= 0;
    }
    FairnessArithmetic(p.Weight(a), p.Weight(b), da, db, Refills(p, c, window, a));
  }

  lemma {:induction false} FairnessArithmetic(wa: int, wb: int, da: int, db: int, r: int)
    requires wa >= 1 && wb >= 1 && -wa <= da <= wa && -wb <= db <= wb
    requires da >= 0 || db <= 0
    ensures var ga, gb := da + wa * r, db + wb * r;
            -wa * wb <= ga * wb - gb * wa <= 2 * wa * wb
  {
    assert (da + wa * r) * wb - (db + wb * r) * wa == da * wb - db * wa by {
      assert (da + wa * r) * wb == da * wb + wa * r * wb;
      assert (db + wb * r) * wa == db * wa + wb * r * wa;
      assert wa * r * wb == wb * r * wa;
    }
    Between(da, wa, wb);
    Between(db, wb, wa);
    assert wa * wb == wb * wa;
    NonNegative(da, wb);
    NonNegative(-db, wa);
  }

  lemma {:induction false} NonNegative(d: int, k: int)
    requires k >= 0
    ensures d >= 0 ==> d * k >= 0
  {
  }

  lemma {:induction false} Between(d: int, w: int, k: int)
    requires -w <= d <= w && k >= 0
    ensures -w * k <= d * k <= w * k
  {
  }

  // ----- The fairness bound is attained for every pair of weights -----

  ghost function Always(present: set<int>, n: nat): (offers: seq<set<int>>)
    requires present != {}
    ensures Offers(offers) && |offers| == n
  {
    seq(n, _ => present)
  }

  lemma {:induction false} UnrollAlways(present: set<int>, n: nat)
    requires present != {} && n > 0
    ensures Always(present, n)[0] == present && Always(present, n)[1..] == Always(present, n - 1)
  {
  }

  lemma {:induction false} LowerClassTakesAll(p: Policy, c: Credits, a: int, b: int, n: nat)
    requires a < b && Credit(p, c, a) >= n
    ensures Grants(p, c, Always({a, b}, n), a) == n && Grants(p, c, Always({a, b}, n), b) == 0
    decreases n
  {
    if n > 0 {
      UnrollAlways({a, b}, n);
      LowerClassWins(p, c, a, b);
      LowerClassTakesAll(p, Grant(p, c, {a, b}), a, b, n - 1);
    }
  }

  lemma {:induction false} LowerClassWins(p: Policy, c: Credits, a: int, b: int)
    requires a < b && Credit(p, c, a) > 0
    ensures Winner(p, c, {a, b}) == a
    ensures Credit(p, Grant(p, c, {a, b}), a) == Credit(p, c, a) - 1
    ensures Credit(p, Grant(p, c, {a, b}), b) == Credit(p, c, b)
  {
    assert a in Eligible(p, c, {a, b});
    WinnerHasCredit(p, c, {a, b});
    CreditAfterGrant(p, c, {a, b}, a);
    CreditAfterGrant(p, c, {a, b}, b);
  }

  lemma {:induction false} ThroughOneRefill(p: Policy, c: Credits, a: int, b: int, n: nat)
    requires a < b && p.Weight(a) >= 1 && Credit(p, c, a) == n && Credit(p, c, b) == 0
    ensures Grants(p, c, Always({a, b}, n + p.Weight(a)), a) == n + p.Weight(a)
    ensures Grants(p, c, Always({a, b}, n + p.Weight(a)), b) == 0
    decreases n
  {
    hide Grant, Winner;
    UnrollAlways({a, b}, n + p.Weight(a));
    if n > 0 {
      LowerClassWins(p, c, a, b);
      ThroughOneRefill(p, Grant(p, c, {a, b}), a, b, n - 1);
    } else {
      assert Eligible(p, c, {a, b}) == {};
      WinnerHasCredit(p, c, {a, b});
      CreditAfterGrant(p, c, {a, b}, a);
      LowerClassTakesAll(p, Grant(p, c, {a, b}), a, b, p.Weight(a) - 1);
    }
  }

  lemma {:induction false} SoloSpends(p: Policy, c: Credits, a: int, b: int, n: nat)
    requires a != b && Credit(p, c, b) >= n
    ensures Credit(p, Run(p, c, Always({b}, n)), b) == Credit(p, c, b) - n
    ensures Credit(p, Run(p, c, Always({b}, n)), a) == Credit(p, c, a)
    decreases n
  {
    if n > 0 {
      UnrollAlways({b}, n);
      assert b in Eligible(p, c, {b});
      WinnerHasCredit(p, c, {b});
      CreditAfterGrant(p, c, {b}, a);
      CreditAfterGrant(p, c, {b}, b);
      SoloSpends(p, Grant(p, c, {b}), a, b, n - 1);
    }
  }

  lemma {:induction false} HigherClassTakesAll(p: Policy, c: Credits, a: int, b: int, n: nat)
    requires a != b && Credit(p, c, a) == 0 && Credit(p, c, b) >= n
    ensures Grants(p, c, Always({a, b}, n), a) == 0 && Grants(p, c, Always({a, b}, n), b) == n
    ensures forall l: int :: Credit(p, Run(p, c, Always({a, b}, n)), l) == Credit(p, c, l) - if l == b then n else 0
    decreases n
  {
    hide Grant, Winner, Credit;
    if n > 0 {
      UnrollAlways({a, b}, n);
      assert b in Eligible(p, c, {a, b});
      WinnerHasCredit(p, c, {a, b});
      forall l: int
        ensures Credit(p, Grant(p, c, {a, b}), l) == Credit(p, c, l) - if l == b then 1 else 0
      {
        CreditAfterGrant(p, c, {a, b}, l);
      }
      HigherClassTakesAll(p, Grant(p, c, {a, b}), a, b, n - 1);
    }
  }

  /** Neither side can be improved: for every two classes and all weights there are reachable states and windows in
      which the lower class gets exactly two weight products more than its share, and the higher class exactly one. */
  lemma {:induction false} FairnessBoundIsTight(p: Policy, a: int, b: int)
    requires Positive(p) && a < b
    ensures p.Weight(a) >= 1 && p.Weight(b) >= 1
    ensures var c := Run(p, map[], Always({b}, p.Weight(b)));
            var window := Always({a, b}, 2 * p.Weight(a));
            Grants(p, c, window, a) * p.Weight(b) - Grants(p, c, window, b) * p.Weight(a)
            == 2 * p.Weight(a) * p.Weight(b)
    ensures var c := Run(p, map[], Always({a}, p.Weight(a)));
            var window := Always({a, b}, p.Weight(b));
            Grants(p, c, window, a) * p.Weight(b) - Grants(p, c, window, b) * p.Weight(a)
            == -p.Weight(a) * p.Weight(b)
  {
    hide Grants, Run, Always;
    assert p.Weight(a) >= 1 && p.Weight(b) >= 1;
    SoloSpends(p, map[], a, b, p.Weight(b));
    ThroughOneRefill(p, Run(p, map[], Always({b}, p.Weight(b))), a, b, p.Weight(a));
    SoloSpends(p, map[], b, a, p.Weight(a));
    HigherClassTakesAll(p, Run(p, map[], Always({a}, p.Weight(a))), a, b, p.Weight(b));
  }

  // ----- Starvation freedom -----

  ghost function Sum(labels: set<int>, value: int -> int): int {
    if labels == {} then 0
    else var l := Min(labels); value(l) + Sum(labels - {l}, value)
  }

  lemma {:induction false} SumWithout(labels: set<int>, value: int -> int, x: int)
    requires x in labels
    ensures Sum(labels, value) == value(x) + Sum(labels - {x}, value)
    decreases |labels|
  {
    var l := Min(labels);
    if l != x {
      SumWithout(labels - {l}, value, x);
      SumWithoutMin(labels, value, x, l);
    }
  }

  lemma {:induction false} SumWithoutMin(labels: set<int>, value: int -> int, x: int, l: int)
    requires x in labels && l in labels && x != l && l == Min(labels)
    ensures Sum(labels - {x}, value) == value(l) + Sum(labels - {l} - {x}, value)
  {
    var rest := labels - {x};
    assert l in rest && Min(rest) == l;
    assert rest - {l} == labels - {l} - {x};
  }

  lemma {:induction false} SumMonotone(labels: set<int>, f: int -> int, g: int -> int)
    requires forall l :: l in labels ==> f(l) <= g(l)
    ensures Sum(labels, f) <= Sum(labels, g)
    decreases |labels|
  {
    if labels != {} {
      SumMonotone(labels - {Min(labels)}, f, g);
    }
  }

  lemma {:induction false} SumDrops(labels: set<int>, f: int -> int, g: int -> int, x: int)
    requires forall l :: l in labels ==> f(l) <= g(l)
    requires x in labels && f(x) < g(x)
    ensures Sum(labels, f) < Sum(labels, g)
  {
    SumWithout(labels, f, x);
    SumWithout(labels, g, x);
    SumMonotone(labels - {x}, f, g);
  }

  lemma {:induction false} SumNonNegative(labels: set<int>, f: int -> int)
    requires forall l :: l in labels ==> f(l) >= 0
    ensures Sum(labels, f) >= 0
    decreases |labels|
  {
    if labels != {} {
      SumNonNegative(labels - {Min(labels)}, f);
    }
  }

  ghost function Lower(universe: set<int>, cls: int): set<int> { set l | l in universe && l < cls }

  ghost function CreditSum(p: Policy, c: Credits, labels: set<int>): int { Sum(labels, l => Credit(p, c, l)) }

  ghost function WeightSum(p: Policy, labels: set<int>): int { Sum(labels, l => p.Weight(l)) }

  /** How many grants `cls` may still have to wait, its own grant included. */
  ghost function Patience(p: Policy, c: Credits, universe: set<int>, cls: int): int {
    if Credit(p, c, cls) > 0 then CreditSum(p, c, Lower(universe, cls)) + 1
    else CreditSum(p, c, universe - {cls}) + WeightSum(p, Lower(universe, cls)) + 1
  }

  lemma {:induction false} PatienceBounds(p: Policy, c: Credits, universe: set<int>, cls: int)
    requires Positive(p) && InRange(p, c)
    ensures 1 <= Patience(p, c, universe, cls)
    ensures Patience(p, c, universe, cls)
            <= WeightSum(p, universe - {cls}) + WeightSum(p, Lower(universe, cls)) + 1
  {
    var credit, weight := (l: int) => Credit(p, c, l), (l: int) => p.Weight(l);
    assert forall l: int :: 0 <= Credit(p, c, l) <= p.Weight(l);
    assert forall l: int :: p.Weight(l) >= 1;
    SumMonotone(Lower(universe, cls), credit, weight);
    SumMonotone(universe - {cls}, credit, weight);
    SumNonNegative(Lower(universe, cls), credit);
    SumNonNegative(Lower(universe, cls), weight);
    SumNonNegative(universe - {cls}, credit);
    SumNonNegative(universe - {cls}, weight);
  }

  /** Every grant that does not go to `cls` uses up patience. */
  lemma {:induction false} GrantUsesPatience(p: Policy, c: Credits, universe: set<int>, present: set<int>, cls: int)
    requires Positive(p) && InRange(p, c)
    requires cls in present && present <= universe
    requires Winner(p, c, present) != cls
    ensures Patience(p, Grant(p, c, present), universe, cls) < Patience(p, c, universe, cls)
  {
    WinnerHasCredit(p, c, present);
    var w := Winner(p, c, present);
    CreditAfterGrant(p, c, present, cls);
    if Credit(p, c, cls) > 0 {
      assert cls in Eligible(p, c, present);
      OthersOnlyDrop(p, c, present);
      DropIn(p, c, present, Lower(universe, cls));
    } else if Eligible(p, c, present) != {} {
      OthersOnlyDrop(p, c, present);
      assert Credit(p, Grant(p, c, present), cls) <= 0;
      DropIn(p, c, present, universe - {cls});
    } else {
      AfterRefill(p, c, universe, present, cls);
    }
  }

  lemma {:induction false} OthersOnlyDrop(p: Policy, c: Credits, present: set<int>)
    requires present != {} && Eligible(p, c, present) != {}
    ensures forall l: int :: Credit(p, Grant(p, c, present), l) <= Credit(p, c, l)
    ensures Credit(p, Grant(p, c, present), Winner(p, c, present)) < Credit(p, c, Winner(p, c, present))
  {
    forall l: int
      ensures Credit(p, Grant(p, c, present), l) <= Credit(p, c, l)
    {
      CreditAfterGrant(p, c, present, l);
    }
    CreditAfterGrant(p, c, present, Winner(p, c, present));
  }

  lemma {:induction false} DropIn(p: Policy, c: Credits, present: set<int>, labels: set<int>)
    requires present != {} && Winner(p, c, present) in labels
    requires forall l: int :: Credit(p, Grant(p, c, present), l) <= Credit(p, c, l)
    requires Credit(p, Grant(p, c, present), Winner(p, c, present)) < Credit(p, c, Winner(p, c, present))
    ensures CreditSum(p, Grant(p, c, present), labels) < CreditSum(p, c, labels)
  {
    var next := Grant(p, c, present);
    SumDrops(labels, l => Credit(p, next, l), l => Credit(p, c, l), Winner(p, c, present));
  }

  /** The refill gives `cls` credit and already spends one credit of a lower class. */
  lemma {:induction false} AfterRefill(p: Policy, c: Credits, universe: set<int>, present: set<int>, cls: int)
    requires Positive(p) && InRange(p, c)
    requires cls in present && present <= universe
    requires Winner(p, c, present) != cls && Eligible(p, c, present) == {} && Credit(p, c, cls) <= 0
    ensures Patience(p, Grant(p, c, present), universe, cls) < Patience(p, c, universe, cls)
  {
    WinnerHasCredit(p, c, present);
    GrantKeepsRange(p, c, present);
    var next, w := Grant(p, c, present), Winner(p, c, present);
    CreditAfterGrant(p, c, present, cls);
    CreditAfterGrant(p, c, present, w);
    assert p.Weight(cls) >= 1;
    assert w in Lower(universe, cls);
    SumDrops(Lower(universe, cls), l => Credit(p, next, l), l => p.Weight(l), w);
    assert forall l: int :: 0 <= Credit(p, c, l);
    SumNonNegative(universe - {cls}, l => Credit(p, c, l));
  }

  ghost function WinnerAt(p: Policy, c: Credits, offers: seq<set<int>>, i: nat): int
    requires Offers(offers) && i < |offers|
  {
    Winner(p, Run(p, c, offers[..i]), offers[i])
  }

  lemma {:induction false} GrantedWithinPatience(p: Policy, c: Credits, universe: set<int>, offers: seq<set<int>>,
                                                 cls: int)
    returns (i: nat)
    requires Positive(p) && InRange(p, c)
    requires AlwaysPresent(offers, cls) && Offers(offers)
    requires forall k :: 0 <= k < |offers| ==> offers[k] <= universe
    requires |offers| >= Patience(p, c, universe, cls)
    ensures i < |offers| && i < Patience(p, c, universe, cls) && WinnerAt(p, c, offers, i) == cls
    decreases |offers|
  {
    PatienceBounds(p, c, universe, cls);
    if Winner(p, c, offers[0]) == cls {
      i := 0;
    } else {
      GrantUsesPatience(p, c, universe, offers[0], cls);
      GrantKeepsRange(p, c, offers[0]);
      var j := GrantedWithinPatience(p, Grant(p, c, offers[0]), universe, offers[1..], cls);
      i := j + 1;
      assert offers[..i][1..] == offers[1..][..j];
    }
  }

  /** Starvation freedom: from every reachable credit state, a class that is present at every grant wins within
      (weights of all other classes) + (weights of the lower classes) + 1 grants, however the other classes come and
      go. */
  lemma {:induction false} StarvationFreedom(p: Policy, before: seq<set<int>>, universe: set<int>,
                                             offers: seq<set<int>>, cls: int)
    requires Positive(p) && Offers(before) && Offers(offers)
    requires AlwaysPresent(offers, cls)
    requires forall k :: 0 <= k < |offers| ==> offers[k] <= universe
    requires |offers| >= WeightSum(p, universe - {cls}) + WeightSum(p, Lower(universe, cls)) + 1
    ensures exists i: nat :: i < |offers|
              && i <= WeightSum(p, universe - {cls}) + WeightSum(p, Lower(universe, cls))
              && WinnerAt(p, Run(p, map[], before), offers, i) == cls
  {
    FreshInRange(p);
    RunKeepsRange(p, map[], before);
    var c := Run(p, map[], before);
    PatienceBounds(p, c, universe, cls);
    var i := GrantedWithinPatience(p, c, universe, offers, cls);
  }

  // ----- The waiting bound is attained for all weights and classes -----

  lemma {:induction false} RunAppend(p: Policy, c: Credits, first: seq<set<int>>, second: seq<set<int>>, cls: int)
    requires Offers(first) && Offers(second)
    ensures Offers(first + second)
    ensures Run(p, c, first + second) == Run(p, Run(p, c, first), second)
    ensures Grants(p, c, first + second, cls) == Grants(p, c, first, cls) + Grants(p, Run(p, c, first), second, cls)
    decreases |first|
  {
    hide Grant, Winner;
    if first == [] {
      assert first + second == second;
    } else {
      RunAppend(p, Grant(p, c, first[0]), first[1..], second, cls);
      assert (first + second)[1..] == first[1..] + second;
    }
  }

  /** Each of the others alone against `cls`, for as long as its weight lasts. */
  ghost function OneByOne(p: Policy, labels: set<int>, cls: int): seq<set<int>>
    requires Positive(p)
    decreases |labels|
  {
    if labels == {} then []
    else
      var l := Min(labels);
      assert p.Weight(l) >= 1;
      Always({cls, l}, p.Weight(l)) + OneByOne(p, labels - {l}, cls)
  }

  /** The longest wait: the others spend what they have, then all lower classes spend a refill. */
  ghost function LongestWait(p: Policy, universe: set<int>, cls: int): seq<set<int>>
    requires Positive(p)
  {
    var lower := Lower(universe, cls);
    assert forall l: int :: p.Weight(l) >= 1;
    SumNonNegative(lower, l => p.Weight(l));
    OneByOne(p, universe - {cls}, cls) + Always(lower + {cls}, WeightSum(p, lower))
  }

  lemma {:induction false} OneByOneShape(p: Policy, labels: set<int>, cls: int)
    requires Positive(p)
    ensures |OneByOne(p, labels, cls)| == WeightSum(p, labels)
    ensures forall k :: 0 <= k < |OneByOne(p, labels, cls)| ==>
              cls in OneByOne(p, labels, cls)[k] && OneByOne(p, labels, cls)[k] <= labels + {cls}
    decreases |labels|
  {
    if labels != {} {
      OneByOneShape(p, labels - {Min(labels)}, cls);
    }
  }

  lemma {:induction false} OneByOneStarves(p: Policy, c: Credits, labels: set<int>, cls: int)
    requires Positive(p) && cls !in labels && Credit(p, c, cls) == 0
    requires forall l :: l in labels ==> Credit(p, c, l) == p.Weight(l)
    ensures Offers(OneByOne(p, labels, cls))
    ensures Grants(p, c, OneByOne(p, labels, cls), cls) == 0
    ensures forall l: int ::
              Credit(p, Run(p, c, OneByOne(p, labels, cls)), l) == if l in labels then 0 else Credit(p, c, l)
    decreases |labels|
  {
    hide Credit, Run, Grants, Always;
    if labels == {} {
      NothingOffered(p, c, cls);
    } else {
      var l := Min(labels);
      assert p.Weight(l) >= 1;
      var first := Always({cls, l}, p.Weight(l));
      HigherClassTakesAll(p, c, cls, l, p.Weight(l));
      var next := Run(p, c, first);
      OneByOneStarves(p, next, labels - {l}, cls);
      RunAppend(p, c, first, OneByOne(p, labels - {l}, cls), cls);
    }
  }

  lemma {:induction false} NothingOffered(p: Policy, c: Credits, cls: int)
    ensures Run(p, c, []) == c && Grants(p, c, [], cls) == 0
  {
  }

  /** With `n` credits left among the lower classes, the next `n` grants stay among them. */
  lemma {:induction false} LowerClassesSpend(p: Policy, c: Credits, lower: set<int>, cls: int, n: nat)
    requires (forall l :: l in lower ==> l < cls && Credit(p, c, l) >= 0) && CreditSum(p, c, lower) >= n
    ensures Grants(p, c, Always(lower + {cls}, n), cls) == 0
    decreases n
  {
    hide Credit, Grant, Winner;
    if n > 0 {
      var present := lower + {cls};
      UnrollAlways(present, n);
      SomeCredit(p, c, lower);
      var l :| l in lower && Credit(p, c, l) > 0;
      assert l in Eligible(p, c, present);
      WinnerHasCredit(p, c, present);
      SpendOne(p, c, lower, present);
      LowerClassesSpend(p, Grant(p, c, present), lower, cls, n - 1);
    }
  }

  lemma {:induction false} SomeCredit(p: Policy, c: Credits, labels: set<int>)
    requires CreditSum(p, c, labels) > 0
    ensures exists l :: l in labels && Credit(p, c, l) > 0
    decreases |labels|
  {
    if labels != {} {
      var l := Min(labels);
      if Credit(p, c, l) <= 0 {
        SomeCredit(p, c, labels - {l});
      }
    }
  }

  lemma {:induction false} SpendOne(p: Policy, c: Credits, labels: set<int>, present: set<int>)
    requires present != {} && Eligible(p, c, present) != {} && Winner(p, c, present) in labels
    requires forall l :: l in labels ==> Credit(p, c, l) >= 0
    ensures CreditSum(p, Grant(p, c, present), labels) == CreditSum(p, c, labels) - 1
    ensures forall l :: l in labels ==> Credit(p, Grant(p, c, present), l) >= 0
  {
    hide Credit, Grant;
    var next, w := Grant(p, c, present), Winner(p, c, present);
    WinnerHasCredit(p, c, present);
    forall l: int
      ensures Credit(p, next, l) == Credit(p, c, l) - if l == w then 1 else 0
    {
      CreditAfterGrant(p, c, present, l);
    }
    OneLess(labels, l => Credit(p, next, l), l => Credit(p, c, l), w);
  }

  lemma {:induction false} OneLess(labels: set<int>, f: int -> int, g: int -> int, w: int)
    requires w in labels && f(w) == g(w) - 1 && forall l :: l in labels && l != w ==> f(l) == g(l)
    ensures Sum(labels, f) == Sum(labels, g) - 1
  {
    SumWithout(labels, f, w);
    SumWithout(labels, g, w);
    SumMonotone(labels - {w}, f, g);
    SumMonotone(labels - {w}, g, f);
  }

  /** From all-zero credit a refill comes first, and the lower classes spend all of it. */
  lemma {:induction false} LowerClassesSpendRefill(p: Policy, c: Credits, lower: set<int>, cls: int)
    requires Positive(p) && lower != {} && Credit(p, c, cls) == 0
    requires forall l :: l in lower ==> l < cls && Credit(p, c, l) == 0
    ensures WeightSum(p, lower) >= 1 && Grants(p, c, Always(lower + {cls}, WeightSum(p, lower)), cls) == 0
  {
    hide Credit, Grant, Winner;
    var present, n := lower + {cls}, WeightSum(p, lower);
    assert Eligible(p, c, present) == {};
    WinnerHasCredit(p, c, present);
    var next, w := Grant(p, c, present), Winner(p, c, present);
    var x := Min(lower);
    assert w <= x && w in lower;
    forall l | l in lower
      ensures Credit(p, next, l) == p.Weight(l) - (if l == w then 1 else 0) && p.Weight(l) >= 1
    {
      CreditAfterGrant(p, c, present, l);
    }
    OneLess(lower, l => Credit(p, next, l), l => p.Weight(l), w);
    SumNonNegative(lower, l => Credit(p, next, l));
    UnrollAlways(present, n);
    LowerClassesSpend(p, next, lower, cls, n - 1);
  }

  /** The bound of StarvationFreedom cannot be improved: for every class of every universe and all weights there is a
      reachable state and a run of exactly that many grants, with the class always present, in which it gets none. */
  lemma {:induction false} StarvationBoundIsTight(p: Policy, universe: set<int>, cls: int)
    requires Positive(p) && cls in universe
    ensures p.Weight(cls) >= 1
    ensures var c, offers := Run(p, map[], Always({cls}, p.Weight(cls))), LongestWait(p, universe, cls);
            && Offers(offers) && AlwaysPresent(offers, cls)
            && (forall k :: 0 <= k < |offers| ==> offers[k] <= universe)
            && |offers| == WeightSum(p, universe - {cls}) + WeightSum(p, Lower(universe, cls))
            && Grants(p, c, offers, cls) == 0
  {
    hide Credit, Run, Grants, OneByOne;
    assert p.Weight(cls) >= 1;
    var c := Run(p, map[], Always({cls}, p.Weight(cls)));
    var others, lower := universe - {cls}, Lower(universe, cls);
    CreditsOfNew(p, cls);
    forall l | l in others
      ensures Credit(p, c, l) == p.Weight(l)
    {
      CreditsOfNew(p, l);
      SoloSpends(p, map[], l, cls, p.Weight(cls));
    }
    SoloSpends(p, map[], cls - 1, cls, p.Weight(cls));
    var first := OneByOne(p, others, cls);
    OneByOneShape(p, others, cls);
    OneByOneStarves(p, c, others, cls);
    assert forall l :: l in lower ==> l in others;
    var next := Run(p, c, first);
    if lower == {} {
      NothingOffered(p, next, cls);
      assert WeightSum(p, lower) == 0;
      assert LongestWait(p, universe, cls) == first;
    } else {
      LowerClassesSpendRefill(p, next, lower, cls);
      RunAppend(p, c, first, Always(lower + {cls}, WeightSum(p, lower)), cls);
    }
  }

  lemma {:induction false} CreditsOfNew(p: Policy, l: int)
    ensures Credit(p, map[], l) == p.Weight(l)
  {
  }

  // ----- Over the configured numbers -----

  /** `w` is the weight configured for `cls`: its entry, or 1. */
  ghost predicate Configured(weights: map<int, int>, cls: int, w: int) {
    (cls in weights && weights[cls] == w) || (cls !in weights && w == 1)
  }

  lemma {:induction false} WeightIsConfigured(weights: map<int, int>, cls: int, w: int)
    ensures Configured(weights, cls, w) <==> Policy(weights, 1).Weight(cls) == w
  {
  }

  /** Every configured weight is at least one. */
  ghost predicate PositiveWeights(weights: map<int, int>) { forall l :: l in weights ==> weights[l] >= 1 }

  lemma {:induction false} PositiveIsConfigured(weights: map<int, int>)
    ensures Positive(Policy(weights, 1)) <==> PositiveWeights(weights)
  {
    if Positive(Policy(weights, 1)) {
      forall l | l in weights
        ensures weights[l] >= 1
      {
        assert Policy(weights, 1).Weight(l) == weights[l];
      }
    }
  }

  /** The laws in terms of the configured weights: from a new policy, along every run and over every window in which
      both classes are present, credits stay between zero and the weight, and the shares are the configured ones. */
  lemma {:induction false} ConfiguredShares(weights: map<int, int>, before: seq<set<int>>, window: seq<set<int>>,
                                            a: int, b: int, wa: int, wb: int)
    requires PositiveWeights(weights) && Offers(before) && Offers(window) && a < b
    requires AlwaysPresent(window, a) && AlwaysPresent(window, b)
    requires Configured(weights, a, wa) && Configured(weights, b, wb)
    ensures var p := Policy(weights, 1); var c := Run(p, map[], before);
            && 0 <= Credit(p, c, a) <= wa && 0 <= Credit(p, c, b) <= wb
            && var ga, gb := Grants(p, c, window, a), Grants(p, c, window, b);
               -wa * wb <= ga * wb - gb * wa <= 2 * wa * wb
  {
    hide Run, Grants, Credit, Positive, Configured;
    var p := Policy(weights, 1);
    PositiveIsConfigured(weights);
    WeightIsConfigured(weights, a, wa);
    WeightIsConfigured(weights, b, wb);
    FreshInRange(p);
    RunKeepsRange(p, map[], before);
    Fairness(p, Run(p, map[], before), window, a, b);
  }

  /** A new class wins its configured number of grants before its first refill. */
  lemma {:induction false} ConfiguredBurst(weights: map<int, int>, cls: int, w: int)
    requires PositiveWeights(weights) && Configured(weights, cls, w)
    ensures w >= 1
    ensures var p := Policy(weights, 1); var offers := Always({cls}, w);
            Credit(p, Run(p, map[], offers), cls) == 0 && Refills(p, map[], offers, cls) == 0
  {
    hide Run, Refills, Grants;
    var p := Policy(weights, 1);
    PositiveIsConfigured(weights);
    WeightIsConfigured(weights, cls, w);
    assert p.Weight(cls) >= 1;
    SoloSpends(p, map[], cls - 1, cls, w);
    SoloGrants(p, map[], cls, w);
    FreshInRange(p);
    Conservation(p, map[], Always({cls}, w), cls);
    var r := Refills(p, map[], Always({cls}, w), cls);
    assert w * r == r + (w - 1) * r && (w - 1) * r >= 0;
  }

  lemma {:induction false} SoloGrants(p: Policy, c: Credits, cls: int, n: nat)
    ensures Grants(p, c, Always({cls}, n), cls) == n
    decreases n
  {
    if n > 0 {
      UnrollAlways({cls}, n);
      WinnerHasCredit(p, c, {cls});
      SoloGrants(p, Grant(p, c, {cls}), cls, n - 1);
    }
  }
}
