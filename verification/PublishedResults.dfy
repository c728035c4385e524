/** The whole pipeline: from the rows of an audit through the rules to the parameters of the published profile. */
module PublishedResults {
  import opened GuardScoring
  import opened Options
  import opened Publication
  import PacketFit

  // ----- Every runtime parameter -----

  /** An accepted score has valid measurements, so its results are those of the rules. */
  lemma {:induction false} AcceptedResults(s: Score, completed: nat, rows: seq<GuardScoring.Record>,
                                           cells: seq<GuardScoring.Record>, candidate: map<Key, Value>,
                                           outcomes: map<Key, Outcome>, p: Profile, scoreSha: string,
                                           profileSha: string, refresh: Profile -> Option<map<string, Value>>)
    requires IsAuditOf(s, completed, rows, cells, candidate, outcomes) && Accepts(s, p, scoreSha, profileSha, refresh)
    ensures s.results == ScoreParameters(candidate, true, true, outcomes) && DistinctKeys(s.results)
    ensures |s.results| == |KEYS|
  {
    hide SummaryOf, ScoreOne, KEYS, Applied, Changes, AllGuardsHold, MeasurementValid;
    CompleteValidExactlyWhenGuardsHold(completed, rows, cells);
    assert completed == CELL_COUNT by { ValidMeansComplete(completed, SummaryOf(rows, cells)); }
    SixteenKeys();
    AuditAuthorizesAllIdentified(candidate, outcomes, 0);
  }

  lemma {:induction false} ValidMeansComplete(completed: nat, s: Summary)
    requires MeasurementValid(completed, s)
    ensures completed == CELL_COUNT
  {
  }

  lemma SixteenKeys()
    ensures |KEYS| == 16
  {
  }

  /** The runtime parameters are the scored ones of the two endpoints, except the direction. */
  lemma {:induction false} RuntimeKeys(i: nat)
    requires i < |KEYS|
    ensures KEYS[i].0 in RUNTIME_KEYS <==> (KEYS[i].0.0 == "tx" || KEYS[i].0.0 == "rx") && KEYS[i].0 != DIRECTION_KEY
  {
  }

  lemma {:induction false} RuntimeKeyIndex(key: Key) returns (i: nat)
    requires key in RUNTIME_KEYS
    ensures i < |KEYS| && KEYS[i].0 == key && key != ("switch", "mode") && (key.0 == "tx" || key.0 == "rx")
  {
    i := if key == KEYS[0].0 then 0 else if key == KEYS[1].0 then 1 else if key == KEYS[2].0 then 2
         else if key == KEYS[3].0 then 3 else if key == KEYS[4].0 then 4 else if key == KEYS[5].0 then 5
         else if key == KEYS[7].0 then 7 else if key == KEYS[8].0 then 8 else if key == KEYS[10].0 then 10
         else if key == KEYS[11].0 then 11 else if key == KEYS[12].0 then 12 else if key == KEYS[13].0 then 13 else 14;
  }

  /** End to end, for each of the thirteen runtime parameters: in every accepted publication of an audit it has the
      value its rule identified, or its old value when the rule identified none. */
  lemma {:induction false} PublishedParameterIsIdentified(s: Score, completed: nat, rows: seq<GuardScoring.Record>,
                                                          cells: seq<GuardScoring.Record>, candidate: map<Key, Value>,
                                                          outcomes: map<Key, Outcome>, p: Profile, scoreSha: string,
                                                          profileSha: string,
                                                          refresh: Profile -> Option<map<string, Value>>, key: Key)
    requires IsAuditOf(s, completed, rows, cells, candidate, outcomes) && Accepts(s, p, scoreSha, profileSha, refresh)
    requires key in RUNTIME_KEYS && Has(p.sections, key)
    ensures var published := Scored(s, p, scoreSha, profileSha).sections;
            && Has(published, key)
            && published[key.0][key.1]
               == if key in outcomes && outcomes[key].status == Identified then outcomes[key].value
                  else p.sections[key.0][key.1]
  {
    hide KEYS, RUNTIME_KEYS, Authorized, Accepts, IsAuditOf, ScoreParameters, Applied;
    AcceptedResults(s, completed, rows, cells, candidate, outcomes, p, scoreSha, profileSha, refresh);
    var i := RuntimeKeyIndex(key);
    ResultIsOutcome(candidate, outcomes, i);
    AuditAuthorizesAllIdentified(candidate, outcomes, i);
    PublicationFrame(s, p, scoreSha, profileSha, refresh, key);
    OnlyResult(s.results, i);
  }

  lemma {:induction false} OnlyResult(results: seq<ParameterResult>, i: nat)
    requires DistinctKeys(results) && i < |results|
    ensures forall j :: 0 <= j < |results| && results[j].key == results[i].key ==> j == i
  {
  }

  // ----- The packet pair -----

  const PAYLOAD_KEY: Key := ("tx", "max_payload_bytes")
  const HEADER_KEY: Key := ("tx", "header_bytes")

  /** What the fit contributes to the outcomes of the rules. */
  function PacketOutcomes(fit: Option<(nat, nat)>): map<Key, Outcome> {
    if fit.None? then map[PAYLOAD_KEY := Outcome(Inconclusive, NoValue), HEADER_KEY := Outcome(Inconclusive, NoValue)]
    else map[PAYLOAD_KEY := Outcome(Identified, Int(fit.value.0)), HEADER_KEY := Outcome(Identified, Int(fit.value.1))]
  }

  /** The fit as the program computes it from the evidence rows. */
  ghost predicate IsFitOf(fit: Option<(nat, nat)>, rows: seq<PacketFit.Row>) {
    && (fit.Some? ==> PacketFit.IsIdentified(rows, fit.value.0, fit.value.1))
    && (fit.None? ==> forall limit: nat, header: nat :: !PacketFit.IsIdentified(rows, limit, header))
  }

  method ScorePacketOutcomes(rows: seq<PacketFit.Row>) returns (outcomes: map<Key, Outcome>, fit: Option<(nat, nat)>)
    ensures IsFitOf(fit, rows) && outcomes == PacketOutcomes(fit)
  {
    fit := PacketFit.ScorePacketFit(rows);
    outcomes := PacketOutcomes(fit);
  }

  /** The other rules leave the packet outcomes alone. */
  ghost predicate Includes(outcomes: map<Key, Outcome>, fit: Option<(nat, nat)>) {
    forall key :: key in PacketOutcomes(fit) ==> key in outcomes && outcomes[key] == PacketOutcomes(fit)[key]
  }

  function Pair(sections: Sections): (Value, Value)
    requires Has(sections, PAYLOAD_KEY) && Has(sections, HEADER_KEY)
  {
    (sections["tx"]["max_payload_bytes"], sections["tx"]["header_bytes"])
  }

  lemma PacketKeys()
    ensures PAYLOAD_KEY in RUNTIME_KEYS && HEADER_KEY in RUNTIME_KEYS && PAYLOAD_KEY != HEADER_KEY
  {
  }

  /** End to end: in every accepted publication of an audit, the two packet parameters are published together; with a
      fit they are its pair, which is the strict unique minimiser for both producers with every row within its
      allowance, and without one both keep the values of the profile.  So a published pair that differs is always the
      fit. */
  lemma {:induction false} PublishedPairIsTheFit(s: Score, completed: nat, records: seq<GuardScoring.Record>,
                                                 cells: seq<GuardScoring.Record>, candidate: map<Key, Value>,
                                                 outcomes: map<Key, Outcome>, fit: Option<(nat, nat)>,
                                                 rows: seq<PacketFit.Row>, p: Profile, scoreSha: string,
                                                 profileSha: string,
                                                 refresh: Profile -> Option<map<string, Value>>)
    requires IsAuditOf(s, completed, records, cells, candidate, outcomes)
    requires Accepts(s, p, scoreSha, profileSha, refresh)
    requires IsFitOf(fit, rows) && Includes(outcomes, fit)
    requires Has(p.sections, PAYLOAD_KEY) && Has(p.sections, HEADER_KEY)
    ensures var published := Scored(s, p, scoreSha, profileSha).sections;
            && Has(published, PAYLOAD_KEY) && Has(published, HEADER_KEY)
            && var before, after := Pair(p.sections), Pair(published);
               && (fit.Some? ==> after == (Int(fit.value.0), Int(fit.value.1)))
               && (fit.None? ==> after == before)
               && (after != before ==>
                     exists limit: nat, header: nat ::
                       after == (Int(limit), Int(header)) && PacketFit.IsIdentified(rows, limit, header))
  {
    hide RUNTIME_KEYS, Accepts, IsAuditOf, Applied, PacketFit.IsIdentified;
    PacketKeys();
    assert PAYLOAD_KEY in PacketOutcomes(fit) && HEADER_KEY in PacketOutcomes(fit);
    PublishedParameterIsIdentified(s, completed, records, cells, candidate, outcomes, p, scoreSha, profileSha, refresh,
                                   PAYLOAD_KEY);
    PublishedParameterIsIdentified(s, completed, records, cells, candidate, outcomes, p, scoreSha, profileSha, refresh,
                                   HEADER_KEY);
  }

  /** Counters generated by one pair of the grid are fitted to that pair, if each producer has a training payload of
      exactly the limit and one just above it. */
  lemma {:induction false} FitRecoversTheTruth(fit: Option<(nat, nat)>, rows: seq<PacketFit.Row>, limit: nat,
                                               header: nat)
    requires IsFitOf(fit, rows) && PacketFit.InGrid(limit, header) && header > 0
    requires forall r :: r in rows ==> PacketFit.Generated(r, limit, header)
    requires PacketFit.Decisive(PacketFit.Training(rows, PacketFit.WRITER), limit, header)
    requires PacketFit.Decisive(PacketFit.Training(rows, PacketFit.READER), limit, header)
    requires PacketFit.Holdout(rows, PacketFit.WRITER) != [] && PacketFit.Holdout(rows, PacketFit.READER) != []
    requires PacketFit.CopyRows(rows) != []
    ensures fit == Some((limit, header))
  {
    hide PacketFit.IsIdentified, PacketFit.Generated, PacketFit.Training;
    PacketFit.GeneratedPairIsIdentified(rows, limit, header, limit, header);
    if fit.Some? {
      PacketFit.GeneratedPairIsIdentified(rows, limit, header, fit.value.0, fit.value.1);
    }
  }
}
