/** The hardware audit of the packet study, from guard observations to parameter results, profile patch and gate. */
module GuardScoring {

  // ----- Guards -----

  const GUARD_IDS: seq<string> :=
    ["FG01", "FG02", "FG03", "FG04", "FG05", "FG06", "FG07", "FG08", "FG09", "FG10"]

  datatype Verdict = Verdict(decidable: bool, passed: bool)

  /** The guards observed on one row or one cell: any verdicts, not only those the guard rules can give. */
  type Record = map<string, Verdict>

  datatype GuardSummary = GuardSummary(id: string, pass: bool, decidable: bool, observations: nat, failures: nat,
                                       missing: nat)

  datatype Summary = Summary(pass: bool, guards: seq<GuardSummary>)

  function Observed(id: string, records: seq<Record>): seq<Verdict> {
    if records == [] then []
    else (if id in records[0] then [records[0][id]] else []) + Observed(id, records[1..])
  }

  function CountIf(vs: seq<Verdict>, f: Verdict -> bool): nat {
    if vs == [] then 0 else (if f(vs[0]) then 1 else 0) + CountIf(vs[1..], f)
  }

  /** One guard over all rows and cells: decided everywhere, observed at least once, passed everywhere. */
  ghost predicate GuardHolds(id: string, records: seq<Record>) {
    && (exists i :: 0 <= i < |records| && id in records[i])
    && (forall i :: 0 <= i < |records| && id in records[i] ==> records[i][id].decidable && records[i][id].passed)
  }

  function SummaryFor(id: string, rows: seq<Record>, cells: seq<Record>): GuardSummary {
    var vs := Observed(id, rows) + Observed(id, cells);
    var decidable := vs != [] && forall v :: v in vs ==> v.decidable;
    var passed := decidable && forall v :: v in vs ==> v.passed;
    GuardSummary(id, passed, decidable, |vs|, CountIf(vs, (v: Verdict) => !v.passed),
                 CountIf(vs, (v: Verdict) => !v.decidable))
  }

  /** The loop over the ten guards. */
  method SummarizeGuards(rows: seq<Record>, cells: seq<Record>) returns (s: Summary)
    ensures s == SummaryOf(rows, cells)
  {
    hide SummaryFor;
    ghost var summaries := Summaries(rows, cells);
    var guards := [];
    var all := true;
    for i := 0 to |GUARD_IDS|
      invariant guards == summaries[..i]
      invariant all <==> forall j :: 0 <= j < i ==> summaries[j].pass
    {
      var g := SummaryFor(GUARD_IDS[i], rows, cells);
      guards := guards + [g];
      assert g == summaries[i];
      all := all && g.pass;
    }
    s := Summary(all, guards);
  }

  function Summaries(rows: seq<Record>, cells: seq<Record>): seq<GuardSummary> {
    seq(|GUARD_IDS|, i requires 0 <= i < |GUARD_IDS| => SummaryFor(GUARD_IDS[i], rows, cells))
  }

  function SummaryOf(rows: seq<Record>, cells: seq<Record>): Summary {
    var guards := Summaries(rows, cells);
    Summary(forall i :: 0 <= i < |guards| ==> guards[i].pass, guards)
  }

  lemma {:induction false} ObservedMeaning(id: string, records: seq<Record>, v: Verdict)
    ensures v in Observed(id, records) <==> exists i :: 0 <= i < |records| && id in records[i] && records[i][id] == v
  {
    if records != [] {
      ObservedMeaning(id, records[1..], v);
      var rest := records[1..];
      if v in Observed(id, rest) {
        var i :| 0 <= i < |rest| && id in rest[i] && rest[i][id] == v;
        assert records[i + 1] == rest[i];
      }
      if i :| 0 <= i < |records| && id in records[i] && records[i][id] == v {
        if i > 0 {
          assert rest[i - 1] == records[i];
        }
      }
    }
  }

  /** A guard is summarised as passed exactly when it holds over every row and cell record. */
  lemma {:induction false} SummaryMeaning(id: string, rows: seq<Record>, cells: seq<Record>)
    ensures SummaryFor(id, rows, cells).pass <==> GuardHolds(id, rows + cells)
    ensures SummaryFor(id, rows, cells).pass ==> SummaryFor(id, rows, cells).decidable
  {
    hide Observed;
    var vs := Observed(id, rows) + Observed(id, cells);
    var records := rows + cells;
    forall v
      ensures v in vs <==> exists i :: 0 <= i < |records| && id in records[i] && records[i][id] == v
    {
      ObservedMeaning(id, rows, v);
      ObservedMeaning(id, cells, v);
      if v in Observed(id, cells) {
        var i :| 0 <= i < |cells| && id in cells[i] && cells[i][id] == v;
        assert records[|rows| + i] == cells[i];
      }
      if v in Observed(id, rows) {
        var i :| 0 <= i < |rows| && id in rows[i] && rows[i][id] == v;
        assert records[i] == rows[i];
      }
      if i :| 0 <= i < |records| && id in records[i] && records[i][id] == v {
        if i >= |rows| {
          assert records[i] == cells[i - |rows|];
        }
      }
    }
    assert (exists i :: 0 <= i < |records| && id in records[i]) <==> vs != [] by {
      if i :| 0 <= i < |records| && id in records[i] {
        assert records[i][id] in vs;
      }
      if vs != [] {
        assert vs[0] in vs;
      }
    }
  }

  /** The counts of a summary: records that observe the guard, that fail it, and that could not decide it. */
  lemma {:induction false} SummaryCounts(id: string, rows: seq<Record>, cells: seq<Record>)
    ensures var s := SummaryFor(id, rows, cells);
            && s.observations == |Observing(id, rows)| + |Observing(id, cells)|
            && s.failures == |Failing(id, rows)| + |Failing(id, cells)|
            && s.missing == |Undecided(id, rows)| + |Undecided(id, cells)|
            && (s.decidable <==> s.observations > 0 && s.missing == 0)
            && (s.pass <==> s.decidable && s.failures == 0)
  {
    hide Observed, CountIf;
    CountNone(Observed(id, rows) + Observed(id, cells), (v: Verdict) => !v.passed);
    CountNone(Observed(id, rows) + Observed(id, cells), (v: Verdict) => !v.decidable);
    CountAppend(Observed(id, rows), Observed(id, cells), (v: Verdict) => !v.passed);
    CountAppend(Observed(id, rows), Observed(id, cells), (v: Verdict) => !v.decidable);
    ObservedCounts(id, rows);
    ObservedCounts(id, cells);
  }

  /** The positions of the records that satisfy `f`. */
  ghost function Where(records: seq<Record>, f: Record -> bool): set<nat> {
    set i: nat | i < |records| && f(records[i])
  }

  ghost function Observing(id: string, records: seq<Record>): set<nat> { Where(records, (r: Record) => id in r) }

  ghost function Failing(id: string, records: seq<Record>): set<nat> {
    Where(records, (r: Record) => id in r && !r[id].passed)
  }

  ghost function Undecided(id: string, records: seq<Record>): set<nat> {
    Where(records, (r: Record) => id in r && !r[id].decidable)
  }

  lemma {:induction false} CountAppend(a: seq<Verdict>, b: seq<Verdict>, f: Verdict -> bool)
    ensures CountIf(a + b, f) == CountIf(a, f) + CountIf(b, f)
  {
    if a == [] {
      assert a + b == b;
    } else {
      CountAppend(a[1..], b, f);
      assert (a + b)[1..] == a[1..] + b;
    }
  }

  lemma {:induction false} CountNone(vs: seq<Verdict>, f: Verdict -> bool)
    ensures CountIf(vs, f) == 0 <==> forall v :: v in vs ==> !f(v)
  {
    if vs != [] {
      CountNone(vs[1..], f);
      assert vs == [vs[0]] + vs[1..];
      assert forall v :: v in vs <==> v == vs[0] || v in vs[1..];
    }
  }

  lemma {:induction false} ObservedSnoc(id: string, front: seq<Record>, r: Record)
    ensures Observed(id, front + [r]) == Observed(id, front) + if id in r then [r[id]] else []
  {
    if front == [] {
      assert front + [r] == [r] && [r][1..] == [];
    } else {
      ObservedSnoc(id, front[1..], r);
      assert (front + [r])[1..] == front[1..] + [r];
    }
  }

  lemma {:induction false} ObservedCounts(id: string, records: seq<Record>)
    ensures |Observed(id, records)| == |Observing(id, records)|
    ensures CountIf(Observed(id, records), (v: Verdict) => !v.passed) == |Failing(id, records)|
    ensures CountIf(Observed(id, records), (v: Verdict) => !v.decidable) == |Undecided(id, records)|
  {
    if records != [] {
      var k := |records| - 1;
      var front, r := records[..k], records[k];
      ObservedCounts(id, front);
      assert records == front + [r];
      ObservedSnoc(id, front, r);
      var last := if id in r then [r[id]] else [];
      CountAppend(Observed(id, front), last, (v: Verdict) => !v.passed);
      CountAppend(Observed(id, front), last, (v: Verdict) => !v.decidable);
      WhereSnoc(front, r, (r: Record) => id in r);
      WhereSnoc(front, r, (r: Record) => id in r && !r[id].passed);
      WhereSnoc(front, r, (r: Record) => id in r && !r[id].decidable);
    }
  }

  lemma {:induction false} WhereSnoc(front: seq<Record>, r: Record, f: Record -> bool)
    ensures |Where(front + [r], f)| == |Where(front, f)| + if f(r) then 1 else 0
  {
    var k := |front|;
    assert Where(front + [r], f) == Where(front, f) + if f(r) then {k} else {};
    assert k !in Where(front, f);
  }

  ghost predicate AllGuardsHold(records: seq<Record>) {
    forall i :: 0 <= i < 10 ==> GuardHolds(GUARD_IDS[i], records)
  }

  lemma {:induction false} AllPassMeaning(rows: seq<Record>, cells: seq<Record>)
    ensures SummaryOf(rows, cells).pass <==> AllGuardsHold(rows + cells)
    ensures SummaryOf(rows, cells).pass ==>
              forall i :: 0 <= i < 10 ==> SummaryOf(rows, cells).guards[i].decidable
  {
    hide SummaryFor, GuardHolds;
    var guards := Summaries(rows, cells);
    forall i | 0 <= i < 10
      ensures guards[i].pass <==> GuardHolds(GUARD_IDS[i], rows + cells)
      ensures guards[i].pass ==> guards[i].decidable
    {
      SummaryMeaning(GUARD_IDS[i], rows, cells);
    }
  }

  // ----- Validity of the measurement -----

  datatype Status = PendingNone | Partial(n: nat) | CompleteValid | CompleteFatal
  datatype Validity = ValidForFrozenRules | ValidityPending | InvalidFatalGuard | PartialUnscored

  const CELL_COUNT: nat := 86

  predicate GuardsDecidable(s: Summary) { forall i :: 0 <= i < |s.guards| ==> s.guards[i].decidable }

  predicate GuardsPass(s: Summary) { forall i :: 0 <= i < |s.guards| ==> s.guards[i].pass }

  predicate MeasurementValid(completed: nat, s: Summary) {
    completed == CELL_COUNT && GuardsDecidable(s) && GuardsPass(s)
  }

  function StatusOf(completed: nat, s: Summary): Status {
    if completed == 0 then PendingNone
    else if completed != CELL_COUNT then Partial(completed)
    else if GuardsPass(s) then CompleteValid
    else CompleteFatal
  }

  function ValidityOf(completed: nat, s: Summary): Validity {
    if MeasurementValid(completed, s) then ValidForFrozenRules
    else if completed == 0 then ValidityPending
    else if completed == CELL_COUNT then InvalidFatalGuard
    else PartialUnscored
  }

  /** Status and validity of every campaign: none of the 86 cells, some, or all of them with guards passed or not. */
  lemma {:induction false} StatusMeaning(completed: nat, s: Summary)
    ensures StatusOf(completed, s) == PendingNone <==> completed == 0
    ensures StatusOf(completed, s) == Partial(completed) <==> completed != 0 && completed != 86
    ensures StatusOf(completed, s) == CompleteFatal <==>
              completed == 86 && exists i :: 0 <= i < |s.guards| && !s.guards[i].pass
    ensures ValidityOf(completed, s) == ValidityPending <==> completed == 0
    ensures ValidityOf(completed, s) == PartialUnscored <==> completed != 0 && completed != 86
    ensures ValidityOf(completed, s) == InvalidFatalGuard <==>
              completed == 86 && exists i :: 0 <= i < |s.guards| && !(s.guards[i].pass && s.guards[i].decidable)
  {
  }

  /** The published status says COMPLETE_VALID exactly when the measurement is valid, and both exactly when all 86 cells
      are complete and all ten guards hold over every observation. */
  lemma {:induction false} CompleteValidExactlyWhenGuardsHold(completed: nat, rows: seq<Record>, cells: seq<Record>)
    ensures var s := SummaryOf(rows, cells);
            && (StatusOf(completed, s) == CompleteValid <==> MeasurementValid(completed, s))
            && (ValidityOf(completed, s) == ValidForFrozenRules <==> MeasurementValid(completed, s))
            && (MeasurementValid(completed, s) <==> completed == CELL_COUNT && AllGuardsHold(rows + cells))
  {
    hide AllGuardsHold, Summaries;
    AllPassMeaning(rows, cells);
    assert |Summaries(rows, cells)| == 10 by { TenGuards(rows, cells); }
  }

  lemma {:induction false} TenGuards(rows: seq<Record>, cells: seq<Record>)
    ensures |Summaries(rows, cells)| == 10
  {
  }

  // ----- Parameter results -----

  datatype Value = NoValue | Int(i: int) | Text(s: string)

  datatype ParameterStatus = Pending | VoidFatalGuard | Structural | Identified | Inconclusive

  datatype Relation = Confirmed | RefutedAndReplaced | RetainedStructural | Unchanged

  type Key = (string, string)

  datatype Spec = Spec(key: Key, candidate: Value, rule: string)

  datatype ParameterResult = ParameterResult(key: Key, candidate: Value, rule: string, status: ParameterStatus,
                                             value: Value, relation: Relation)

  datatype Outcome = Outcome(status: ParameterStatus, value: Value)

  const KEYS: seq<(Key, string)> := [
    (("tx", "max_payload_bytes"), "TX_PACKET_PAYLOAD_AND_HEADER"),
    (("tx", "header_bytes"), "TX_PACKET_PAYLOAD_AND_HEADER"),
    (("tx", "links_per_peer"), "TX_LINK_COUNT_RATE_AND_BOND"),
    (("tx", "per_link_rate_bytes_per_second"), "TX_LINK_COUNT_RATE_AND_BOND"),
    (("tx", "bond_policy"), "TX_LINK_COUNT_RATE_AND_BOND"),
    (("tx", "endpoint_egress_rate_bytes_per_second"), "TX_ENDPOINT_EGRESS_RATE"),
    (("tx", "request_response_direction"), "TX_REQUEST_RESPONSE_DIRECTION"),
    (("tx", "credit_unit_bytes"), "TX_EFFECTIVE_CREDITS"),
    (("tx", "credits_per_destination"), "TX_EFFECTIVE_CREDITS"),
    (("switch", "mode"), "SWITCH_DIRECT_MESH_IDENTITY"),
    (("rx", "ingress_rate_bytes_per_second"), "RX_INGRESS_RATE"),
    (("rx", "buffer_capacity_bytes"), "RX_EFFECTIVE_BUFFER"),
    (("rx", "credit_return_latency_ps"), "RX_CREDIT_RETURN_LATENCY"),
    (("rx", "reassembly_policy"), "RX_DELIVERY"),
    (("rx", "delivery_order"), "RX_DELIVERY"),
    (("tx_rx", "queue_scope"), "TX_RX_QUEUE_SCOPE")]

  function SpecAt(candidate: map<Key, Value>, i: nat): Spec
    requires i < |KEYS|
  {
    var (key, rule) := KEYS[i];
    Spec(key, if key in candidate then candidate[key] else NoValue, rule)
  }

  predicate IsRate(parameter: string) {
    parameter == "per_link_rate_bytes_per_second"
    || parameter == "endpoint_egress_rate_bytes_per_second"
    || parameter == "ingress_rate_bytes_per_second"
  }

  /** Rates are confirmed within ten percent of the candidate, everything else only by equality.  The relative error is
      compared without division: the frozen candidate rates are positive. */
  function IdentifiedRelation(spec: Spec, value: Value): (r: Relation)
    ensures r == Confirmed || r == RefutedAndReplaced
  {
    if IsRate(spec.key.1) && spec.candidate.Int? && value.Int? && spec.candidate.i > 0 then
      var error := if value.i >= spec.candidate.i then value.i - spec.candidate.i else spec.candidate.i - value.i;
      if 10 * error <= spec.candidate.i then Confirmed else RefutedAndReplaced
    else if value == spec.candidate then Confirmed else RefutedAndReplaced
  }

  function ResultOf(spec: Spec, status: ParameterStatus, value: Value): ParameterResult {
    var relation := match status
      case Identified => IdentifiedRelation(spec, value)
      case Structural => RetainedStructural
      case _ => Unchanged;
    ParameterResult(spec.key, spec.candidate, spec.rule, status, value, relation)
  }

  /** The outcome for one parameter.  `outcomes` is whatever the scoring rules concluded from the rows. */
  function ScoreOne(spec: Spec, complete: bool, valid: bool, outcomes: map<Key, Outcome>): ParameterResult {
    if !complete then ResultOf(spec, Pending, NoValue)
    else if !valid then
      if spec.key.1 == "mode" then ResultOf(spec, Structural, Text("pass_through"))
      else ResultOf(spec, VoidFatalGuard, NoValue)
    else if spec.key == ("switch", "mode") then ResultOf(spec, Structural, Text("pass_through"))
    else if spec.key in outcomes then ResultOf(spec, outcomes[spec.key].status, outcomes[spec.key].value)
    else ResultOf(spec, Inconclusive, NoValue)
  }

  function ScoreParameters(candidate: map<Key, Value>, complete: bool, valid: bool, outcomes: map<Key, Outcome>)
    : seq<ParameterResult>
  {
    seq(|KEYS|, i requires 0 <= i < |KEYS| => ScoreOne(SpecAt(candidate, i), complete, valid, outcomes))
  }

  /** The scoring rules conclude only IDENTIFIED or INCONCLUSIVE. */
  ghost predicate FromRules(outcomes: map<Key, Outcome>) {
    forall key :: key in outcomes ==> outcomes[key].status == Identified || outcomes[key].status == Inconclusive
  }

  /** With a valid measurement every parameter but the structural one gets exactly what its rule concluded, or nothing
      when its rule concluded nothing. */
  lemma {:induction false} ResultIsOutcome(candidate: map<Key, Value>, outcomes: map<Key, Outcome>, i: nat)
    requires i < |KEYS| && KEYS[i].0 != ("switch", "mode")
    ensures var r, key := ScoreParameters(candidate, true, true, outcomes)[i], KEYS[i].0;
            && r.key == key && r.rule == KEYS[i].1
            && r.candidate == (if key in candidate then candidate[key] else NoValue)
            && (key in outcomes ==> r.status == outcomes[key].status && r.value == outcomes[key].value)
            && (key !in outcomes ==> r.status == Inconclusive && r.value == NoValue)
            && (r.status == Identified ==> r.relation == IdentifiedRelation(SpecAt(candidate, i), r.value))
            && (r.status == Inconclusive ==> r.relation == Unchanged)
  {
    hide KEYS, IdentifiedRelation;
  }

  /** The structural parameter is never measured: complete campaigns report it as it is, valid or not. */
  lemma {:induction false} StructuralResult(candidate: map<Key, Value>, valid: bool, outcomes: map<Key, Outcome>)
    ensures |KEYS| == 16
    ensures var r := ScoreParameters(candidate, true, valid, outcomes)[9];
            && r.key == ("switch", "mode") && r.status == Structural && r.value == Text("pass_through")
            && r.relation == RetainedStructural
  {
    assert KEYS[9].0 == ("switch", "mode");
  }

  /** The three rates among the parameters. */
  lemma {:induction false} RateParameters(i: nat)
    requires i < |KEYS|
    ensures IsRate(KEYS[i].0.1) <==> i == 3 || i == 5 || i == 10
  {
  }

  /** An identified rate confirms a candidate exactly when it is within ten percent of it. */
  lemma {:induction false} RateConfirmed(spec: Spec, value: int)
    requires IsRate(spec.key.1) && spec.candidate.Int? && spec.candidate.i > 0
    ensures var c := spec.candidate.i as real; var v := value as real;
            IdentifiedRelation(spec, Int(value)) == Confirmed <==> 0.9 * c <= v <= 1.1 * c
  {
  }

  /** Every other parameter is confirmed only by equality. */
  lemma {:induction false} OthersConfirmed(spec: Spec, value: Value)
    requires !IsRate(spec.key.1)
    ensures IdentifiedRelation(spec, value) == Confirmed <==> value == spec.candidate
  {
  }

  // ----- Profile patch -----

  datatype Change = Change(key: Key, value: Value, relation: Relation, rule: string)

  datatype Patch = Patch(changes: seq<Change>, untouched: nat)

  predicate Authorized(r: ParameterResult) {
    && r.status == Identified
    && (r.relation == Confirmed || r.relation == RefutedAndReplaced)
    && (r.key.0 == "tx" || r.key.0 == "rx")
  }

  function ChangeOf(r: ParameterResult): Change { Change(r.key, r.value, r.relation, r.rule) }

  function Changes(results: seq<ParameterResult>): (c: seq<Change>)
    ensures |c| <= |results|
  {
    if results == [] then []
    else
      var k := |results| - 1;
      Changes(results[..k]) + if Authorized(results[k]) then [ChangeOf(results[k])] else []
  }

  function PatchOf(results: seq<ParameterResult>): Patch {
    Patch(Changes(results), |results| - |Changes(results)|)
  }

  method ProfilePatchFromResults(results: seq<ParameterResult>) returns (patch: Patch)
    ensures patch == PatchOf(results)
  {
    var changes := [];
    for i := 0 to |results|
      invariant changes == Changes(results[..i])
    {
      assert results[..i + 1][..i] == results[..i];
      if results[i].status != Identified {
        continue;
      }
      if results[i].relation != Confirmed && results[i].relation != RefutedAndReplaced {
        continue;
      }
      if results[i].key.0 != "tx" && results[i].key.0 != "rx" {
        continue;
      }
      changes := changes + [ChangeOf(results[i])];
    }
    assert results[..|results|] == results;
    patch := Patch(changes, |results| - |changes|);
  }

  lemma {:induction false} ChangesMeaning(results: seq<ParameterResult>, c: Change)
    ensures c in Changes(results) <==>
              exists i :: 0 <= i < |results| && Authorized(results[i]) && ChangeOf(results[i]) == c
  {
    if results != [] {
      var k := |results| - 1;
      ChangesMeaning(results[..k], c);
      if i :| 0 <= i < k && Authorized(results[..k][i]) && ChangeOf(results[..k][i]) == c {
        assert results[i] == results[..k][i];
      }
      if i :| 0 <= i < |results| && Authorized(results[i]) && ChangeOf(results[i]) == c {
        if i < k {
          assert results[..k][i] == results[i];
        }
      }
    }
  }

  lemma {:induction false} NoAuthorizedNoChanges(results: seq<ParameterResult>)
    requires forall i :: 0 <= i < |results| ==> results[i].status != Identified
    ensures Changes(results) == []
  {
    var changes := Changes(results);
    if changes != [] {
      ChangesMeaning(results, changes[0]);
    }
  }

  // ----- The flow-dynamics gate -----

  const GATE_RULES: seq<string> := [
    "TX_LINK_COUNT_RATE_AND_BOND", "TX_EFFECTIVE_CREDITS", "RX_INGRESS_RATE", "RX_EFFECTIVE_BUFFER",
    "TX_RX_QUEUE_SCOPE"]

  /** Some result of the rule is neither pending nor void. */
  predicate RuleDecided(rule: string, results: seq<ParameterResult>) {
    exists i :: 0 <= i < |results| && results[i].rule == rule
                && results[i].status != Pending && results[i].status != VoidFatalGuard
  }

  predicate GateOpens(complete: bool, decidable: bool, results: seq<ParameterResult>) {
    complete && decidable && forall i :: 0 <= i < |GATE_RULES| ==> RuleDecided(GATE_RULES[i], results)
  }

  // ----- What an invalid measurement can and cannot do -----

  /** With any cell missing or any guard failing, nothing is identified, the patch is empty, and the results do not
      depend on the rows at all. */
  lemma {:induction false} InvalidMeansNothingIdentified(candidate: map<Key, Value>, complete: bool, valid: bool,
                                                        outcomes: map<Key, Outcome>, other: map<Key, Outcome>)
    requires !complete || !valid
    ensures var results := ScoreParameters(candidate, complete, valid, outcomes);
            && results == ScoreParameters(candidate, complete, valid, other)
            && (forall i :: 0 <= i < |results| ==> results[i].status != Identified)
            && PatchOf(results) == Patch([], |results|)
  {
    hide SpecAt, Changes;
    var results := ScoreParameters(candidate, complete, valid, outcomes);
    assert forall i :: 0 <= i < |results| ==>
      results[i] == ScoreOne(SpecAt(candidate, i), complete, valid, outcomes) && results[i].status != Identified;
    assert results == ScoreParameters(candidate, complete, valid, other);
    NoAuthorizedNoChanges(results);
  }

  /** The gate never looks at whether the guards passed, yet it opens exactly for valid measurements: a fatal guard
      voids every result the gate needs. */
  lemma {:induction false} GateOpensExactlyWhenValid(candidate: map<Key, Value>, completed: nat, rows: seq<Record>,
                                                     cells: seq<Record>, outcomes: map<Key, Outcome>)
    requires FromRules(outcomes)
    ensures var s := SummaryOf(rows, cells);
            var complete := completed == CELL_COUNT;
            var valid := MeasurementValid(completed, s);
            GateOpens(complete, GuardsDecidable(s), ScoreParameters(candidate, complete, valid, outcomes)) <==> valid
  {
    hide SummaryOf;
    var s := SummaryOf(rows, cells);
    var complete := completed == CELL_COUNT;
    var valid := MeasurementValid(completed, s);
    var results := ScoreParameters(candidate, complete, valid, outcomes);
    if valid {
      RulesDecidedWhenValid(candidate, outcomes);
    } else if complete {
      QueueScopeVoid(candidate, outcomes);
    }
  }

  lemma {:induction false} RulesDecidedWhenValid(candidate: map<Key, Value>, outcomes: map<Key, Outcome>)
    requires FromRules(outcomes)
    ensures var results := ScoreParameters(candidate, true, true, outcomes);
            forall i :: 0 <= i < |GATE_RULES| ==> RuleDecided(GATE_RULES[i], results)
  {
    var results := ScoreParameters(candidate, true, true, outcomes);
    var witnesses := [2, 7, 10, 11, 15];
    forall i | 0 <= i < |GATE_RULES|
      ensures RuleDecided(GATE_RULES[i], results)
    {
      RuleAt(i);
      var w := witnesses[i];
      DecidedAt(candidate, outcomes, w);
      assert results[w] == ScoreOne(SpecAt(candidate, w), true, true, outcomes);
    }
  }

  lemma {:induction false} RuleAt(i: nat)
    requires i < |GATE_RULES|
    ensures var witnesses := [2, 7, 10, 11, 15];
            |witnesses| == |GATE_RULES| && witnesses[i] < |KEYS| && KEYS[witnesses[i]].1 == GATE_RULES[i]
  {
  }

  lemma {:induction false} DecidedAt(candidate: map<Key, Value>, outcomes: map<Key, Outcome>, w: nat)
    requires FromRules(outcomes) && w < |KEYS|
    ensures var r := ScoreOne(SpecAt(candidate, w), true, true, outcomes);
            r.rule == KEYS[w].1 && r.status != Pending && r.status != VoidFatalGuard
  {
  }

  lemma {:induction false} QueueScopeVoid(candidate: map<Key, Value>, outcomes: map<Key, Outcome>)
    ensures !RuleDecided("TX_RX_QUEUE_SCOPE", ScoreParameters(candidate, true, false, outcomes))
    ensures GATE_RULES[4] == "TX_RX_QUEUE_SCOPE"
  {
    var results := ScoreParameters(candidate, true, false, outcomes);
    forall i | 0 <= i < |results| && results[i].rule == "TX_RX_QUEUE_SCOPE"
      ensures results[i].status == VoidFatalGuard
    {
      assert results[i] == ScoreOne(SpecAt(candidate, i), true, false, outcomes);
      OnlyModeIsStructural(i);
    }
  }

  lemma {:induction false} OnlyModeIsStructural(i: nat)
    requires i < |KEYS|
    ensures KEYS[i].0.1 == "mode" ==> KEYS[i].1 == "SWITCH_DIRECT_MESH_IDENTITY"
  {
  }
}
