/** Capture and replay of backend output: of all flows of a run only a few witness rows are kept, enough to give every
    extremum the projection reads. */
module CaptureReplay {
  import opened Sorting
  import opened Options

  datatype Flow = Flow(start: int, completion: int, fct: int)

  /** What a backend run returns. */
  datatype Backend = Backend(flows: seq<Flow>, job: int, quiescent: bool)

  /** What is kept of it. */
  datatype Entry = Entry(job: int, count: nat, witnesses: seq<Flow>)

  // ----- Choosing witnesses -----

  function Start(f: Flow): int { f.start }

  function Completion(f: Flow): int { f.completion }

  function Fct(f: Flow): int { f.fct }

  /** The first flow with the least key. */
  function LeastBy(flows: seq<Flow>, key: Flow -> int): Flow
    requires flows != []
  {
    var k := |flows| - 1;
    if k == 0 then flows[0]
    else
      var best := LeastBy(flows[..k], key);
      if key(flows[k]) < key(best) then flows[k] else best
  }

  /** The first flow with the greatest key. */
  function GreatestBy(flows: seq<Flow>, key: Flow -> int): Flow
    requires flows != []
  {
    var k := |flows| - 1;
    if k == 0 then flows[0]
    else
      var best := GreatestBy(flows[..k], key);
      if key(flows[k]) > key(best) then flows[k] else best
  }

  lemma {:induction false} LeastIsLeast(flows: seq<Flow>, key: Flow -> int)
    requires flows != []
    ensures LeastBy(flows, key) in flows
    ensures forall f :: f in flows ==> key(LeastBy(flows, key)) <= key(f)
  {
    var k := |flows| - 1;
    assert flows == flows[..k] + [flows[k]];
    if k > 0 {
      LeastIsLeast(flows[..k], key);
    }
  }

  lemma {:induction false} GreatestIsGreatest(flows: seq<Flow>, key: Flow -> int)
    requires flows != []
    ensures GreatestBy(flows, key) in flows
    ensures forall f :: f in flows ==> key(f) <= key(GreatestBy(flows, key))
  {
    var k := |flows| - 1;
    assert flows == flows[..k] + [flows[k]];
    if k > 0 {
      GreatestIsGreatest(flows[..k], key);
    }
  }

  function Once(flows: seq<Flow>): seq<Flow> {
    if flows == [] then []
    else
      var k := |flows| - 1;
      var rest := Once(flows[..k]);
      if flows[k] in rest then rest else rest + [flows[k]]
  }

  lemma {:induction false} OnceMeaning(flows: seq<Flow>)
    ensures Distinct(Once(flows))
    ensures forall f :: f in Once(flows) <==> f in flows
  {
    if flows != [] {
      var k := |flows| - 1;
      OnceMeaning(flows[..k]);
      assert flows == flows[..k] + [flows[k]];
    }
  }

  /** Rows compare as triples. */
  predicate FlowLe(a: Flow, b: Flow) {
    || a.start < b.start
    || (a.start == b.start && (a.completion < b.completion || (a.completion == b.completion && a.fct <= b.fct)))
  }

  function Chosen(flows: seq<Flow>): seq<Flow>
    requires flows != []
  {
    [LeastBy(flows, Start), GreatestBy(flows, Completion), LeastBy(flows, Fct), GreatestBy(flows, Fct)]
  }

  function Witnesses(flows: seq<Flow>): seq<Flow>
    requires flows != []
  {
    Sort(Once(Chosen(flows)), FlowLe)
  }

  lemma {:induction false} WitnessesMeaning(flows: seq<Flow>)
    requires flows != []
    ensures forall f :: f in Witnesses(flows) <==> f in Chosen(flows)
    ensures Distinct(Witnesses(flows)) && Witnesses(flows) != []
  {
    hide Once, Sort, LeastBy, GreatestBy;
    var chosen := Chosen(flows);
    OnceMeaning(chosen);
    FlowOrder(Elements(Once(chosen)));
    SortDistinct(Once(chosen), FlowLe);
    assert chosen[0] in Witnesses(flows);
  }

  lemma {:induction false} FlowOrder(els: set<Flow>)
    ensures TotalOrderOn(els, FlowLe)
  {
  }

  // ----- Capture and replay -----

  /** No entry for a run without flows: there is nothing to take a minimum of. */
  function Captured(run: Backend): Option<Entry> {
    if run.flows == [] then None else Some(Entry(run.job, |run.flows|, Witnesses(run.flows)))
  }

  datatype Replayed = BadCount | NoWitness | Replayed(run: Backend)

  function Replay(e: Entry): Replayed {
    if e.count < |e.witnesses| then BadCount
    else if e.witnesses == [] then NoWitness
    else
      var padding := seq(e.count - |e.witnesses|, _ => e.witnesses[0]);
      Replayed(Backend(e.witnesses + padding, e.job, true))
  }

  /** What the projection reads of a run. */
  datatype Projection = Projection(job: int, count: nat, start: int, completion: int, leastFct: int, greatestFct: int)

  function Project(run: Backend): Projection
    requires run.flows != []
  {
    Projection(run.job, |run.flows|, LeastBy(run.flows, Start).start,
               GreatestBy(run.flows, Completion).completion, LeastBy(run.flows, Fct).fct,
               GreatestBy(run.flows, Fct).fct)
  }

  /** The projection is made of the extrema over all flows. */
  lemma {:induction false} ProjectionMeaning(run: Backend)
    requires run.flows != []
    ensures var p := Project(run);
            && p.job == run.job && p.count == |run.flows|
            && (forall f :: f in run.flows ==>
                  p.start <= f.start && f.completion <= p.completion && p.leastFct <= f.fct <= p.greatestFct)
            && (exists f :: f in run.flows && f.start == p.start)
            && (exists f :: f in run.flows && f.completion == p.completion)
            && (exists f :: f in run.flows && f.fct == p.leastFct)
            && (exists f :: f in run.flows && f.fct == p.greatestFct)
  {
    hide LeastBy, GreatestBy;
    LeastIsLeast(run.flows, Start);
    GreatestIsGreatest(run.flows, Completion);
    LeastIsLeast(run.flows, Fct);
    GreatestIsGreatest(run.flows, Fct);
  }

  /** Of several equal extrema the first flow is the witness. */
  lemma {:induction false} FirstLeast(flows: seq<Flow>, key: Flow -> int) returns (i: nat)
    requires flows != []
    ensures i < |flows| && flows[i] == LeastBy(flows, key)
    ensures forall j :: 0 <= j < i ==> key(flows[j]) > key(flows[i])
  {
    var k := |flows| - 1;
    i := 0;
    if k > 0 {
      i := FirstLeast(flows[..k], key);
      LeastIsLeast(flows[..k], key);
      assert forall j :: 0 <= j < k ==> flows[..k][j] == flows[j] && flows[j] in flows[..k];
      if key(flows[k]) < key(flows[i]) {
        i := k;
      }
    }
  }

  lemma {:induction false} FirstGreatest(flows: seq<Flow>, key: Flow -> int) returns (i: nat)
    requires flows != []
    ensures i < |flows| && flows[i] == GreatestBy(flows, key)
    ensures forall j :: 0 <= j < i ==> key(flows[j]) < key(flows[i])
  {
    var k := |flows| - 1;
    i := 0;
    if k > 0 {
      i := FirstGreatest(flows[..k], key);
      GreatestIsGreatest(flows[..k], key);
      assert forall j :: 0 <= j < k ==> flows[..k][j] == flows[j] && flows[j] in flows[..k];
      if key(flows[k]) > key(flows[i]) {
        i := k;
      }
    }
  }

  /** Witness rows are kept in ascending order of start, then completion, then flow completion time. */
  lemma {:induction false} WitnessesAscend(flows: seq<Flow>, i: nat, j: nat)
    requires flows != [] && i < j < |Witnesses(flows)|
    ensures var a, b := Witnesses(flows)[i], Witnesses(flows)[j];
            || a.start < b.start
            || (a.start == b.start && a.completion < b.completion)
            || (a.start == b.start && a.completion == b.completion && a.fct < b.fct)
  {
    hide Once, Sort, LeastBy, GreatestBy;
    var chosen := Chosen(flows);
    OnceMeaning(chosen);
    FlowOrder(Elements(Once(chosen)));
    SortDistinct(Once(chosen), FlowLe);
  }

  /** A replayed run is the witnesses followed by copies of the first. */
  lemma {:induction false} ReplayShape(e: Entry)
    ensures Replay(e).Replayed? <==> 1 <= |e.witnesses| <= e.count
    ensures Replay(e).Replayed? ==>
              var run := Replay(e).run;
              && |run.flows| == e.count && run.job == e.job && run.quiescent
              && forall i :: 0 <= i < e.count ==>
                   run.flows[i] == if i < |e.witnesses| then e.witnesses[i] else e.witnesses[0]
  {
  }

  /** A part of the flows that holds the extremal one has the same extremum. */
  lemma {:induction false} SameLeast(all: seq<Flow>, some: seq<Flow>, key: Flow -> int)
    requires all != [] && some != []
    requires (forall f :: f in some ==> f in all) && LeastBy(all, key) in some
    ensures key(LeastBy(some, key)) == key(LeastBy(all, key))
  {
    LeastIsLeast(all, key);
    LeastIsLeast(some, key);
  }

  lemma {:induction false} SameGreatest(all: seq<Flow>, some: seq<Flow>, key: Flow -> int)
    requires all != [] && some != []
    requires (forall f :: f in some ==> f in all) && GreatestBy(all, key) in some
    ensures key(GreatestBy(some, key)) == key(GreatestBy(all, key))
  {
    GreatestIsGreatest(all, key);
    GreatestIsGreatest(some, key);
  }

  lemma {:induction false} ChosenAreFlows(flows: seq<Flow>)
    requires flows != []
    ensures forall f :: f in Chosen(flows) ==> f in flows
  {
    LeastIsLeast(flows, Start);
    GreatestIsGreatest(flows, Completion);
    LeastIsLeast(flows, Fct);
    GreatestIsGreatest(flows, Fct);
  }

  lemma {:induction false} DistinctFits(some: seq<Flow>, all: seq<Flow>)
    requires Distinct(some) && forall f :: f in some ==> f in all
    ensures |some| <= |all|
  {
    if some != [] {
      var k := |some| - 1;
      assert some[k] in some;
      var i :| 0 <= i < |all| && all[i] == some[k];
      var rest := all[..i] + all[i + 1..];
      forall f | f in some[..k]
        ensures f in rest
      {
        assert f in some;
        var j :| 0 <= j < |all| && all[j] == f;
        assert j != i;
        assert if j < i then rest[j] == f else rest[j - 1] == f;
      }
      DistinctFits(some[..k], rest);
    }
  }

  /** At most four genuine rows are kept, never more than there were flows. */
  lemma {:induction false} WitnessCount(flows: seq<Flow>)
    requires flows != []
    ensures 1 <= |Witnesses(flows)| <= |flows| && |Witnesses(flows)| <= 4
    ensures forall f :: f in Witnesses(flows) ==> f in flows
  {
    hide Witnesses, LeastBy, GreatestBy;
    WitnessesMeaning(flows);
    ChosenAreFlows(flows);
    DistinctFits(Witnesses(flows), flows);
    DistinctFits(Witnesses(flows), Chosen(flows));
  }

  /** Replaying what was captured is never refused, has the same projection, and shows only flows that happened. */
  lemma {:induction false} ReplayPreservesProjection(run: Backend)
    requires run.flows != []
    ensures var back := Replay(Captured(run).value);
            && back.Replayed?
            && back.run.flows != [] && Project(back.run) == Project(run)
            && back.run.quiescent
            && forall f :: f in back.run.flows ==> f in run.flows
  {
    hide Witnesses, LeastBy, GreatestBy;
    var flows := run.flows;
    var w := Witnesses(flows);
    WitnessCount(flows);
    WitnessesMeaning(flows);
    var back := Replay(Captured(run).value).run.flows;
    assert forall f :: f in w ==> f in back;
    assert forall f :: f in back ==> f in w;
    var chosen := Chosen(flows);
    assert chosen[0] in w && chosen[1] in w && chosen[2] in w && chosen[3] in w;
    SameLeast(flows, back, Start);
    SameGreatest(flows, back, Completion);
    SameLeast(flows, back, Fct);
    SameGreatest(flows, back, Fct);
  }

  /** The four rows are needed: a projection can take each extremum from a different flow. */
  lemma FourWitnessesCanBeNeeded()
    ensures |Witnesses([Flow(0, 5, 5), Flow(4, 9, 5), Flow(3, 4, 1), Flow(1, 8, 7)])| == 4
  {
    hide Witnesses, LeastBy, GreatestBy;
    var a, b, c, d := Flow(0, 5, 5), Flow(4, 9, 5), Flow(3, 4, 1), Flow(1, 8, 7);
    var flows := [a, b, c, d];
    LeastIsLeast(flows, Start);
    GreatestIsGreatest(flows, Completion);
    LeastIsLeast(flows, Fct);
    GreatestIsGreatest(flows, Fct);
    assert a in flows && b in flows && c in flows && d in flows;
    assert Chosen(flows) == flows;
    WitnessesMeaning(flows);
    assert Distinct(flows);
    DistinctFits(flows, Witnesses(flows));
    DistinctFits(Witnesses(flows), flows);
  }

  // ----- The retained dictionary -----

  /** Entries by artifact name, in order of first insertion. */
  class Retained {
    var names: seq<string>
    var entries: map<string, Entry>

    ghost predicate Valid()
      reads this
    {
      Distinct(names) && forall n :: n in names <==> n in entries
    }

    constructor ()
      ensures Valid() && entries == map[]
    {
      names, entries := [], map[];
    }

    /** The wrapped backend call; an empty run raises and stores nothing. */
    method Capture(name: string, run: Backend) returns (ok: bool)
      requires Valid()
      modifies this
      ensures Valid()
      ensures ok <==> run.flows != []
      ensures !ok ==> entries == old(entries) && names == old(names)
      ensures ok ==> entries == old(entries)[name := Captured(run).value]
    {
      if run.flows == [] {
        return false;
      }
      var witnesses := Witnesses(run.flows);
      if name !in entries {
        names := names + [name];
      }
      entries := entries[name := Entry(run.job, |run.flows|, witnesses)];
      ok := true;
    }

    /** The replaying backend call; None is the missing artifact. */
    method Run(name: string) returns (out: Option<Replayed>)
      ensures out.Some? <==> name in entries
      ensures out.Some? ==> out.value == Replay(entries[name])
    {
      if name !in entries {
        return None;
      }
      var e := entries[name];
      if e.count < |e.witnesses| {
        return Some(BadCount);
      }
      if e.witnesses == [] {
        return Some(NoWitness);
      }
      var flows := e.witnesses;
      flows := flows + seq(e.count - |flows|, _ => e.witnesses[0]);
      out := Some(Replayed(Backend(flows, e.job, true)));
    }
  }

  /** A captured artifact replays with the projection of the run it came from, whatever was captured before it. */
  method CaptureThenReplay(kept: Retained, name: string, run: Backend) returns (back: Backend)
    requires kept.Valid() && run.flows != []
    modifies kept
    ensures kept.Valid()
    ensures back.flows != [] && Project(back) == Project(run)
  {
    ReplayPreservesProjection(run);
    var ok := kept.Capture(name, run);
    var out := kept.Run(name);
    back := out.value.run;
  }
}
